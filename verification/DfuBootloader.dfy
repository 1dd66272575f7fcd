/** The DFU bootloader's request handler, updating its static state, the flash and the EEPROM in place. */
module DfuBootloader {
  import opened Words
  import opened Flash
  import opened Dfu

  class Bootloader {
    const c: Config
    const mem: FlashMemory
    var isSecure: bool
    var runBootloader: bool
    var waitForExit: bool
    var dfuState: DfuState
    var dfuStatus: Byte
    var command: Byte
    var params: Params
    var dataSize: Word
    var responseByte: Byte
    var appStartPtr: Word
    var watchdog: bool
    var flash64KBPage: Byte
    var startAddr: Word
    var endAddr: Word
    var eeprom: map<Word, Byte>

    ghost predicate Valid() {
      mem.Valid() && mem.g == c.g
    }

    ghost function View(): State
      reads this, mem, mem.flash
    {
      State(isSecure, runBootloader, waitForExit, dfuState, dfuStatus, command, params, dataSize, responseByte,
            appStartPtr, watchdog, flash64KBPage, startAddr, endAddr, mem.Contents(), eeprom)
    }

    /** Power-on state: idle, and secure as SECURE_MODE says. */
    constructor (c: Config, mem: FlashMemory, secureMode: bool, eeprom: map<Word, Byte>)
      requires mem.Valid() && mem.g == c.g
      ensures Valid() && this.c == c && this.mem == mem
      ensures View() == State(secureMode, true, false, DfuIdle, STATUS_OK, 0, [0, 0, 0, 0, 0], 0, 0, 0, false, 0,
                              0, 0, mem.Contents(), eeprom)
    {
      this.c := c;
      this.mem := mem;
      isSecure, runBootloader, waitForExit := secureMode, true, false;
      dfuState, dfuStatus := DfuIdle, STATUS_OK;
      command, params, dataSize := 0, [0, 0, 0, 0, 0], 0;
      responseByte, appStartPtr, watchdog := 0, 0, false;
      flash64KBPage, startAddr, endAddr := 0, 0, 0;
      this.eeprom := eeprom;
    }

    method LoadAddresses()
      modifies this
      ensures View() == LoadStartEndAddresses(old(View()))
    {
      startAddr := WordOf(params[2], params[1]);
      endAddr := WordOf(params[4], params[3]);
    }

    method MemProgCommand()
      requires Valid()
      modifies this, mem, mem.flash
      ensures View() == ProcessMemProgCommand(c.g, old(View()))
    {
      if params[0] == 0 || params[0] == 1 {
        LoadAddresses();
        if params[0] == 0 {
          mem.ErasePageAt(LongAddress(flash64KBPage, startAddr));
        }
        dfuState := DnloadIdle;
      }
    }

    method MemReadCommand()
      requires Valid()
      modifies this
      ensures View() == ProcessMemReadCommand(c.g, old(View()))
    {
      if params[0] == 0 || params[0] == 2 {
        LoadAddresses();
        dfuState := UploadIdle;
      } else if params[0] == 1 {
        var a := 0;
        while a < c.g.bootStart && FlashByte(c.g, mem.flash[..], a) == 0xFF
          invariant 0 <= a <= c.g.bootStart
          invariant FirstNonBlank(c.g, mem.flash[..], 0) == FirstNonBlank(c.g, mem.flash[..], a)
        {
          a := a + 1;
        }
        if a < c.g.bootStart {
          flash64KBPage := a / 0x1_0000 % 0x100;
          startAddr := a % 0x1_0000;
          dfuState := DfuError;
          dfuStatus := ERR_CHECK_ERASED;
        }
      }
    }

    /** The erase loop of the chip erase command. */
    method EraseApplication()
      requires Valid()
      modifies mem, mem.flash
      ensures mem.Contents() == EraseFrom(c.g, old(mem.Contents()), 0)
    {
      var a := 0;
      while a < c.g.bootStart
        invariant EraseFrom(c.g, old(mem.Contents()), 0) == EraseFrom(c.g, mem.Contents(), a)
      {
        mem.ErasePageAt(a);
        a := a + c.g.pageSize;
      }
    }

    method WriteCommand()
      requires Valid()
      modifies this, mem, mem.flash
      ensures View() == ProcessWriteCommand(c.g, old(View()))
    {
      if params[0] == 3 {
        waitForExit := true;
        if dataSize != 0 {
          if params[1] == 1 {
            appStartPtr := WordOf(params[4], params[3]);
          }
        } else if params[1] == 0 {
          watchdog := true;
        } else if FlashByte(c.g, mem.flash[..], 0) == 0xFF && FlashByte(c.g, mem.flash[..], 1) == 0xFF {
          runBootloader := false;
        }
      } else if IsErase(params) {
        EraseApplication();
        isSecure := false;
      }
    }

    method ReadCommand()
      modifies this
      ensures View() == ProcessReadCommand(c, old(View()))
    {
      var i, invalid := params[1], false;
      if params[0] == 0 {
        if i < 3 {
          responseByte := BOOTLOADER_INFO[i];
        } else {
          invalid := true;
        }
      } else if params[0] == 1 {
        match i {
          case 0x30 => responseByte := SIGNATURE_START;
          case 0x31 => responseByte := c.signature1;
          case 0x60 => responseByte := c.signature2;
          case 0x61 => responseByte := c.signature3;
          case _ => invalid := true;
        }
      }
      if invalid {
        dfuState := DfuError;
        dfuStatus := ERR_ADDRESS;
      }
    }

    method BootloaderCommand()
      requires Valid()
      modifies this, mem, mem.flash
      ensures View() == ProcessBootloaderCommand(c, old(View()))
    {
      if isSecure && !(command == COMMAND_WRITE && IsErase(params)) && command != COMMAND_READ {
        dfuState := DfuError;
        dfuStatus := ERR_WRITE;
        return;
      }
      match command {
        case 1 => MemProgCommand();
        case 3 => MemReadCommand();
        case 4 => WriteCommand();
        case 5 => ReadCommand();
        case 6 =>
          if params[0] == 3 && params[1] == 0 {
            flash64KBPage := params[2];
          }
        case _ =>
      }
    }

    /** The flash programming loop; `done` is false if the device was unplugged on the way. */
    method ProgramFlash(payload: seq<Byte>, words: nat) returns (done: bool)
      requires Valid()
      modifies mem, mem.flash
      ensures var a := LongAddress(flash64KBPage, startAddr);
              (mem.Contents(), done) == ProgramWords(c.g, old(mem.Contents()), payload, 0, words, a, a, 0)
    {
      var remaining: nat, k: nat, inPage: nat := words, 0, 0;
      var addr := LongAddress(flash64KBPage, startAddr);
      var pageStart := addr;
      ghost var target := ProgramWords(c.g, mem.Contents(), payload, 0, words, addr, addr, 0);
      while remaining > 0
        invariant k <= |payload|
        invariant target == ProgramWords(c.g, mem.Contents(), payload, k, remaining, addr, pageStart, inPage)
      {
        if k + 2 > |payload| {
          return false;
        }
        mem.Fill(addr, WordOf(payload[k], payload[k + 1]));
        k := k + 2;
        remaining := remaining - 1;
        inPage := (inPage + 1) % 0x100;
        addr := addr + 2;
        if inPage == c.g.pageSize / 2 || remaining == 0 {
          mem.WritePageAt(pageStart);
          if remaining > 0 {
            pageStart := addr;
            inPage := 0;
            mem.ErasePageAt(addr);
          }
        }
      }
      return true;
    }

    method ProgramEeprom(payload: seq<Byte>, bytes: nat)
      modifies `eeprom, `startAddr
      ensures var (e, a, _) := ProgramBytes(old(eeprom), payload, 0, bytes, old(startAddr));
              eeprom == e && startAddr == a
    {
      var remaining, k := bytes, 0;
      ghost var target := ProgramBytes(eeprom, payload, 0, bytes, startAddr);
      while remaining > 0 && k < |payload|
        invariant k <= |payload|
        invariant target == ProgramBytes(eeprom, payload, k, remaining, startAddr)
        decreases remaining
      {
        eeprom := eeprom[startAddr := payload[k]];
        startAddr := Next(startAddr);
        k := k + 1;
        remaining := remaining - 1;
      }
    }

    /** The firmware part of a DNLOAD request. */
    method DownloadFirmware(payload: seq<Byte>)
      requires Valid()
      modifies this, mem, mem.flash
      ensures View() == Download(c.g, old(View()), payload)
    {
      if dataSize == 0 {
        dfuState := DfuIdle;
        return;
      }
      var bytes := RangeBytes(startAddr, endAddr);
      if params[0] == 0 {
        var done := ProgramFlash(payload, bytes / 2);
        if done {
          startAddr := endAddr;
        }
      } else {
        ProgramEeprom(payload, bytes);
      }
    }

    method ReadPacket(packet: seq<Byte>)
      requires packet != []
      modifies this
      ensures View() == LoadCommand(old(View()), packet)
    {
      var n := if |packet| - 1 < 5 then |packet| - 1 else 5;
      command := packet[0];
      params := packet[1..1 + n] + params[n..];
      dataSize := (dataSize - 1 - n) % 0x1_0000;
    }

    method DnloadRequest(packet: seq<Byte>, payload: seq<Byte>)
      requires Valid()
      modifies this, mem, mem.flash
      ensures View() == HandleDnload(c, old(View()), packet, payload)
    {
      if waitForExit {
        BootloaderCommand();
        waitForExit := false;
      }
      if dataSize != 0 {
        if packet == [] {
          return;
        }
        ReadPacket(packet);
        BootloaderCommand();
      }
      if dfuState.DnloadIdle? {
        DownloadFirmware(payload);
      }
    }

    method UploadRequest() returns (out: seq<Byte>)
      requires Valid()
      modifies this
      ensures (View(), out) == HandleUpload(c.g, old(View()))
    {
      if !dfuState.UploadIdle? {
        if dfuState.DfuError? && params[0] == 1 {
          out := [startAddr % 0x100, startAddr / 0x100];
        } else {
          out := [responseByte];
        }
        return;
      }
      var bytes := RangeBytes(startAddr, endAddr);
      if params[0] == 0 {
        out := SendFlash(bytes / 2);
        startAddr := endAddr;
      } else if params[0] == 2 {
        out := SendEeprom(bytes);
      } else {
        out := [];
      }
      dfuState := DfuIdle;
    }

    method SendFlash(words: nat) returns (out: seq<Byte>)
      ensures out == FlashWords(c.g, mem.flash[..], LongAddress(flash64KBPage, startAddr), words)
    {
      hide FlashByte, LongAddress;
      out := [];
      var remaining, addr := words, LongAddress(flash64KBPage, startAddr);
      ghost var flash := mem.flash[..];
      while remaining > 0
        invariant FlashWords(c.g, flash, LongAddress(flash64KBPage, startAddr), words)
               == out + FlashWords(c.g, flash, addr, remaining)
      {
        var word := [FlashByte(c.g, mem.flash[..], addr), FlashByte(c.g, mem.flash[..], addr + 1)];
        AppendAssoc(out, word, FlashWords(c.g, flash, addr + 2, remaining - 1));
        out := out + word;
        addr := addr + 2;
        remaining := remaining - 1;
      }
    }

    method SendEeprom(bytes: nat) returns (out: seq<Byte>)
      modifies `startAddr
      ensures out == EepromBytes(eeprom, old(startAddr), bytes)
      ensures startAddr == Advance(old(startAddr), bytes)
    {
      hide EepromByte;
      out := [];
      var remaining: nat := bytes;
      while remaining > 0
        invariant remaining <= bytes
        invariant EepromBytes(eeprom, old(startAddr), bytes) == out + EepromBytes(eeprom, startAddr, remaining)
        invariant startAddr == Advance(old(startAddr), bytes - remaining)
      {
        var byte := [EepromByte(eeprom, startAddr)];
        AppendAssoc(out, byte, EepromBytes(eeprom, Next(startAddr), remaining - 1));
        out := out + byte;
        startAddr := Next(startAddr);
        remaining := remaining - 1;
      }
    }

    method ControlRequest(req: Request) returns (out: seq<Byte>)
      requires Valid()
      modifies this, mem, mem.flash
      ensures (View(), out) == Handle(c, old(View()), req)
    {
      dataSize := req.wLength;
      out := [];
      match req {
        case Dnload(_, packet, payload) => DnloadRequest(packet, payload);
        case Upload(_) => out := UploadRequest();
        case GetStatus(_) => out := [dfuStatus, 0, 0, 0, dfuState.Code(), 0];
        case ClearStatus(_) => dfuStatus := STATUS_OK;
        case GetState(_) => out := [dfuState.Code()];
        case Abort(_) => dfuState := DfuIdle;
        case OtherRequest(_) =>
      }
    }
  }
}
