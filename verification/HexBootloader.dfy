/** The Printer-class bootloader's parser and main loop, updating its static state and the flash in place. */
module HexBootloader {
  import opened Words
  import opened Flash
  import opened HexParser

  class Bootloader {
    const mem: FlashMemory
    var state: ParserState
    var prevData: Byte
    var data: Byte
    var readMSB: bool
    var recordType: Byte
    var dataRem: Byte
    var checksum: Byte
    var pageStart: nat
    var baseAddress: nat
    var curr: nat
    var pageDirty: bool
    var runBootloader: bool

    ghost predicate Valid() {
      mem.Valid()
    }

    ghost function Parser(): Hex
      reads this
    {
      Hex(state, prevData, data, readMSB, recordType, dataRem, checksum,
          pageStart, baseAddress, curr, pageDirty, runBootloader)
    }

    ghost function View(): Machine
      reads this, mem, mem.flash
    {
      Machine(Parser(), mem.Contents())
    }

    constructor (mem: FlashMemory)
      requires mem.Valid()
      ensures Valid() && this.mem == mem
      ensures AtReset(Parser())
    {
      this.mem := mem;
      state := WaitLine;
      prevData, data, readMSB, recordType, dataRem, checksum := 0, 0, false, 0, 0, 0;
      pageStart, baseAddress, curr := 0, 0, 0;
      pageDirty := false;
      runBootloader := true;
    }

    /** Resets only the parser state, as a USB (re)configuration does. */
    method ConfigurationChanged()
      requires Valid()
      modifies this
      ensures Parser() == old(Parser()).(state := WaitLine)
      ensures View() == MEvent(mem.g, old(View()), Reconfigured)
    {
      state := WaitLine;
    }

    method Flush()
      requires Valid()
      modifies this, mem, mem.flash
      ensures var (h, ops) := FlushPageIfRequired(mem.g, old(Parser()));
              View() == Machine(h, ExecAll(mem.g, old(mem.Contents()), ops))
    {
      if !pageDirty {
        return;
      }
      var newPage := mem.g.PageOf(curr);
      if pageStart != newPage {
        mem.WritePageAt(pageStart);
        pageStart := newPage;
        pageDirty := false;
      }
    }

    method ParseIntelHEXByte(c: char)
      requires Valid()
      modifies this, mem, mem.flash
      ensures View() == MStep(mem.g, old(View()), c) == MEvent(mem.g, old(View()), Received(c))
    {
      hide ByteStep, Exec, HexToDecimal;
      if state == WaitLine || c == ':' {
        checksum := 0;
        curr := baseAddress;
        readMSB := false;
        if c == ':' {
          state := ByteCount;
        }
        return;
      }

      var digit := HexToDecimal(c);
      if digit < 0 {
        return;
      }

      data := data * 0x10 % 0x100 + digit;
      readMSB := !readMSB;
      if readMSB {
        return;
      }

      TakeByte();
    }

    /** Processes the byte that two digits have completed. */
    method TakeByte()
      requires Valid()
      modifies this, mem, mem.flash
      ensures var (h, ops) := ByteStep(mem.g, old(Parser()));
              View() == Machine(h, ExecAll(mem.g, old(mem.Contents()), ops))
    {
      if state != Checksum {
        checksum := (checksum + data) % 0x100;
      }

      match state {
        case WaitLine =>
        case ByteCount =>
          dataRem := data;
          state := AddressHigh;
        case AddressHigh =>
          curr := mem.g.Wrap(curr + data * 0x100);
          state := AddressLow;
        case AddressLow =>
          curr := mem.g.Wrap(curr + data);
          state := RecordType;
        case RecordType =>
          recordType := data;
          state := if dataRem != 0 then ReadData else Checksum;
        case ReadData =>
          TakeDataByte();
        case Checksum =>
          if data != (0x100 - checksum) % 0x100 {
            return;
          }
          Flush();
          if recordType == RECORD_END_OF_FILE {
            runBootloader := false;
          }
      }
    }

    method TakeDataByte()
      requires Valid()
      modifies this, mem, mem.flash
      ensures var (h, ops) := DataByte(mem.g, old(Parser()));
              View() == Machine(h, ExecAll(mem.g, old(mem.Contents()), ops))
    {
      dataRem := (dataRem - 1) % 0x100;
      if curr >= mem.g.bootStart {
        state := WaitLine;
        pageDirty := false;
        return;
      }
      if dataRem % 2 == 1 {
        prevData := data;
        return;
      }
      var word := WordOf(prevData, data);
      if recordType == RECORD_DATA {
        StoreWord(word);
      } else if recordType == RECORD_EXTENDED_SEGMENT {
        baseAddress := mem.g.Wrap(0x10 * word as nat);
      } else if recordType == RECORD_EXTENDED_LINEAR {
        baseAddress := mem.g.Wrap(0x1_0000 * word as nat);
      }
      if dataRem == 0 {
        state := Checksum;
      }
    }

    method StoreWord(word: Word)
      requires Valid()
      modifies this, mem, mem.flash
      ensures var (h, ops) := DataWord(mem.g, old(Parser()), word);
              View() == Machine(h, ExecAll(mem.g, old(mem.Contents()), ops))
    {
      ghost var g, h0, d0 := mem.g, Parser(), mem.Contents();
      ghost var erase := if pageDirty then [] else [ErasePage(pageStart)];
      if !pageDirty {
        mem.ErasePageAt(pageStart);
        pageDirty := true;
      }
      mem.Fill(curr, word);
      ghost var d1 := mem.Contents();
      assert d1 == ExecAll(g, d0, erase + [FillWord(h0.curr, word)]) by {
        ExecAllConcat(g, d0, erase, [FillWord(h0.curr, word)]);
      }
      curr := mem.g.Wrap(curr + 2);
      ghost var h1 := Parser();
      Flush();
      ExecAllConcat(g, d0, erase + [FillWord(h0.curr, word)], FlushPageIfRequired(g, h1).1);
    }

    /** The main loop's feeding of one received packet to the parser. */
    method Receive(bytes: string)
      requires Valid()
      modifies this, mem, mem.flash
      ensures View() == MRun(mem.g, old(View()), bytes)
    {
      var k := 0;
      while k < |bytes|
        invariant 0 <= k <= |bytes|
        invariant View() == MRun(mem.g, old(View()), bytes[..k])
      {
        ghost var m := View();
        ParseIntelHEXByte(bytes[k]);
        MRunOne(mem.g, m, bytes[k]);
        MRunConcat(mem.g, old(View()), bytes[..k], [bytes[k]]);
        assert bytes[..k + 1] == bytes[..k] + [bytes[k]];
        k := k + 1;
      }
      assert bytes[..k] == bytes;
    }
  }
}
