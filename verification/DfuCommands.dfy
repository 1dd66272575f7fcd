/** The DFU commands and requests by the bytes on the wire: what each packet does and what the host then reads. */
module DfuCommands {
  import opened Words
  import opened Flash
  import opened Dfu
  import opened DfuRange
  import opened DfuSecure

  /** A first packet with a command and five parameters. */
  function Packet(command: Byte, p0: Byte, p1: Byte, p2: Byte, p3: Byte, p4: Byte): seq<Byte> {
    [command, p0, p1, p2, p3, p4]
  }

  /** The state in which the command of such a packet is processed. */
  function Commanded(s: State, w: Word, command: Byte, p0: Byte, p1: Byte, p2: Byte, p3: Byte, p4: Byte): State {
    s.(command := command, params := [p0, p1, p2, p3, p4], dataSize := (w - 6) % 65536)
  }

  lemma PacketLoaded(s: State, w: Word, command: Byte, p0: Byte, p1: Byte, p2: Byte, p3: Byte, p4: Byte)
    ensures LoadCommand(s.(dataSize := w), Packet(command, p0, p1, p2, p3, p4))
         == Commanded(s, w, command, p0, p1, p2, p3, p4)
  {
    assert Packet(command, p0, p1, p2, p3, p4)[1..6] + s.params[5..] == [p0, p1, p2, p3, p4];
  }

  /** A download of a packet is its command, if neither an exit is pending nor firmware follows. */
  lemma PacketHandled(c: Config, s: State, w: Word, command: Byte, p0: Byte, p1: Byte, p2: Byte, p3: Byte, p4: Byte,
                      payload: seq<Byte>)
    requires c.g.pageSize > 0 && !s.waitForExit && w != 0
    ensures var s1 := ProcessBootloaderCommand(c, Commanded(s, w, command, p0, p1, p2, p3, p4));
            !s1.state.DnloadIdle? ==>
              Handle(c, s, Dnload(w, Packet(command, p0, p1, p2, p3, p4), payload)) == (s1, [])
  {
    hide ProcessBootloaderCommand, LoadCommand, Commanded, Download;
    PacketLoaded(s, w, command, p0, p1, p2, p3, p4);
  }

  // ---------- chip erase and secure mode ----------

  /**
   * The chip erase command, to a device locked or not: every byte of the application becomes 0xFF, the device is
   * unlocked, and the boot section, the EEPROM, state and status stay as they were.
   */
  lemma ChipErase(c: Config, s: State, w: Word, p2: Byte, p3: Byte, p4: Byte, payload: seq<Byte>)
    requires c.g.Valid() && !s.waitForExit && !s.state.DnloadIdle? && w != 0
    ensures var (s', out) := Handle(c, s, Dnload(w, [4, 0, 0xFF, p2, p3, p4], payload));
            && out == [] && !s'.secure && s'.state == s.state && s'.status == s.status && s'.eeprom == s.eeprom
            && |s'.dev.flash| == |s.dev.flash|
            && forall i | 0 <= i < |s.dev.flash| ::
                 s'.dev.flash[i] == if i < c.g.bootStart then 0xFF else s.dev.flash[i]
  {
    hide EraseFrom, Geometry.Valid;
    ValidPageSize(c.g);
    PacketHandled(c, s, w, 4, 0, 0xFF, p2, p3, p4, payload);
    EraseAll(c.g, s.dev);
  }

  /** A locked device refuses every command but chip erase and the read commands: the host reads status 3, state 10. */
  lemma LockedRefuses(c: Config, s: State, w: Word, packet: seq<Byte>, payload: seq<Byte>, w': Word)
    requires c.g.Valid() && Locked(s) && w != 0 && packet != []
    requires packet[0] != 5 && !Erases(s, Dnload(w, packet, payload))
    ensures var (s1, out) := Handle(c, s, Dnload(w, packet, payload));
            && out == [] && s1.secure && s1.dev == s.dev && s1.eeprom == s.eeprom
            && Handle(c, s1, GetStatus(w')).1 == [3, 0, 0, 0, 10, 0]
  {
    hide EraseFrom, LoadCommand, ParameterAfter, Geometry.Valid, Download, ProcessReadCommand;
    ValidPageSize(c.g);
    var s0 := s.(dataSize := w);
    ParametersLoaded(s0, packet);
    SameParameters(s, s0, packet);
  }

  // ---------- status requests ----------

  /** GETSTATUS and GETSTATE send the status and the state's number, and change nothing. */
  lemma StatusSent(c: Config, s: State, w: Word)
    requires c.g.pageSize > 0
    ensures var n := match s.state case DfuIdle => 2 case DnloadIdle => 5 case UploadIdle => 9 case DfuError => 10;
            && Handle(c, s, GetStatus(w)) == (s.(dataSize := w), [s.status, 0, 0, 0, n, 0])
            && Handle(c, s, GetState(w)) == (s.(dataSize := w), [n])
  {
  }

  /** CLRSTATUS clears the status alone, ABORT goes back to idle alone, anything else does nothing. */
  lemma StatusCleared(c: Config, s: State, w: Word)
    requires c.g.pageSize > 0
    ensures Handle(c, s, ClearStatus(w)) == (s.(dataSize := w, status := 0), [])
    ensures Handle(c, s, Abort(w)) == (s.(dataSize := w, state := DfuIdle), [])
    ensures Handle(c, s, OtherRequest(w)) == (s.(dataSize := w), [])
  {
  }

  // ---------- read commands ----------

  /** The bytes of information a part answers with: the bootloader's version and identifier, or the signature. */
  function Information(c: Config, memory: Byte, i: Byte): int {
    if memory == 0 then
      if i == 0 then 0x20 else if i == 1 then 0xDC else if i == 2 then 0xFB else -1
    else
      if i == 0x30 then 0x58 else if i == 0x31 then c.signature1
      else if i == 0x60 then c.signature2 else if i == 0x61 then c.signature3 else -1
  }

  /**
   * A read command to an idle device, locked or not: the next upload sends the byte asked for, or else the host reads
   * status 8, state 10.
   */
  lemma InformationRead(c: Config, s: State, w: Word, memory: Byte, i: Byte, p2: Byte, p3: Byte, p4: Byte,
                        payload: seq<Byte>, w': Word)
    requires c.g.Valid() && !s.waitForExit && s.state.DfuIdle? && w != 0 && (memory == 0 || memory == 1)
    ensures var (s1, out) := Handle(c, s, Dnload(w, [5, memory, i, p2, p3, p4], payload));
            && out == [] && s1.secure == s.secure && s1.dev == s.dev && s1.eeprom == s.eeprom
            && if Information(c, memory, i) >= 0 then
                 s1.state.DfuIdle? && s1.status == s.status && Handle(c, s1, Upload(w')).1 == [Information(c, memory, i)]
               else
                 Handle(c, s1, GetStatus(w')).1 == [8, 0, 0, 0, 10, 0]
  {
    hide Handle, ProcessBootloaderCommand, Geometry.Valid, Information;
    ValidPageSize(c.g);
    ReadProcessed(c, s, w, memory, i, p2, p3, p4);
    PacketHandled(c, s, w, 5, memory, i, p2, p3, p4, payload);
    var s1 := Handle(c, s, Dnload(w, [5, memory, i, p2, p3, p4], payload)).0;
    StatusSent(c, s1, w');
    if !s1.state.UploadIdle? {
      UploadUnasked(c, s1, w');
    }
  }

  lemma ReadProcessed(c: Config, s: State, w: Word, memory: Byte, i: Byte, p2: Byte, p3: Byte, p4: Byte)
    requires c.g.pageSize > 0 && (memory == 0 || memory == 1)
    ensures var t, n := Commanded(s, w, 5, memory, i, p2, p3, p4), Information(c, memory, i);
            -1 <= n < 256 && ProcessBootloaderCommand(c, t) ==
              if n >= 0 then t.(response := n) else t.(state := DfuError, status := 8)
  {
  }

  // ---------- start application ----------

  /**
   * Start application: a pending exit; with more data to come and parameter 1 the jump address is taken, low byte last;
   * without, parameter 0 starts the watchdog and any other stops the loader exactly if the application's first word is
   * blank.
   */
  lemma StartApplication(c: Config, s: State, w: Word, p1: Byte, p2: Byte, p3: Byte, p4: Byte, payload: seq<Byte>)
    requires c.g.Valid() && |s.dev.flash| == c.g.flashSize >= 2
    requires !s.secure && !s.waitForExit && !s.state.DnloadIdle? && w != 0
    ensures var (s', out) := Handle(c, s, Dnload(w, [4, 3, p1, p2, p3, p4], payload));
            && out == [] && s'.waitForExit && !s'.secure && s'.state == s.state && s'.dev == s.dev
            && s'.eeprom == s.eeprom && s'.appStart == (if w != 6 && p1 == 1 then 256 * p3 + p4 else s.appStart)
            && s'.watchdog == (s.watchdog || (w == 6 && p1 == 0))
            && s'.run == (s.run && !(w == 6 && p1 != 0 && s.dev.flash[0] == 0xFF && s.dev.flash[1] == 0xFF))
  {
    hide EraseFrom, Geometry.Valid, FlashByte;
    ValidPageSize(c.g);
    FlashByteAt(c.g, s.dev.flash, 0);
    FlashByteAt(c.g, s.dev.flash, 1);
    PacketHandled(c, s, w, 4, 3, p1, p2, p3, p4, payload);
  }

  // ---------- the 64 KB bank ----------

  /** The base address command selects the bank and changes nothing else that matters. */
  lemma BankSelected(c: Config, s: State, w: Word, bank: Byte, p3: Byte, p4: Byte, payload: seq<Byte>)
    requires c.g.Valid() && !s.secure && !s.waitForExit && !s.state.DnloadIdle? && w != 0
    ensures Handle(c, s, Dnload(w, [6, 3, 0, bank, p3, p4], payload))
         == (s.(flash64K := bank, command := 6, params := [3, 0, bank, p3, p4], dataSize := (w - 6) % 65536), [])
  {
    hide Geometry.Valid;
    ValidPageSize(c.g);
    PacketHandled(c, s, w, 6, 3, 0, bank, p3, p4, payload);
  }

  lemma BankAddress(bank: Byte, start: Word)
    ensures LongAddress(bank, start) == 65536 * bank as nat + start
  {
  }

  /** The packet of a range, in numbers. */
  lemma RangePacket(command: Byte, start: Word, end: Word)
    ensures RangeCommand(command, start, end) == [command, 0, start / 256, start % 256, end / 256, end % 256]
  {
  }

  /**
   * Selecting a bank, programming a range of it and reading the range back, in the bytes sent: the payload comes back
   * exactly if the range has an even number of bytes below 65536, and each of them lies in a page-aligned range below
   * the boot section or was in the flash already.
   */
  lemma BankRoundTrip(c: Config, s: State, w0: Word, w: Word, w': Word, w'': Word, bank: Byte, start: Word, end: Word,
                      payload: seq<Byte>, ignored: seq<Byte>)
    requires c.g.Valid() && |s.dev.flash| == c.g.flashSize
    requires !s.secure && !s.waitForExit && !s.state.DnloadIdle?
    requires w0 != 0 && w != 0 && w != 6 && w' != 0 && start <= end && end - start + 1 <= |payload|
    ensures var n, base := end - start + 1, 65536 * bank as nat + start;
            var sent := Session(c, s, [Dnload(w0, [6, 3, 0, bank, 0, 0], ignored),
                                       Dnload(w, [1, 0, start / 256, start % 256, end / 256, end % 256], payload),
                                       Dnload(w', [3, 0, start / 256, start % 256, end / 256, end % 256], ignored),
                                       Upload(w'')]).1;
            sent == [[], [], [], payload[..n]] <==>
            && n < 65536 && n % 2 == 0
            && forall i | 0 <= i < n ::
                 || (base % c.g.pageSize == 0 && base + i < c.g.bootStart)
                 || FlashByte(c.g, s.dev.flash, base + i) == payload[i]
  {
    hide Handle, Session, RangeCommand, LongAddress, FlashByte, Geometry.Valid;
    ValidPageSize(c.g);
    var r := Dnload(w0, [6, 3, 0, bank, 0, 0], ignored);
    BankSelected(c, s, w0, bank, 0, 0, ignored);
    var s1 := Handle(c, s, r).0;
    RangePacket(1, start, end);
    RangePacket(3, start, end);
    BankAddress(bank, start);
    RoundTripExactlyWhen(c, s1, w, w', w'', start, end, payload, ignored);
    var rest := [Dnload(w, RangeCommand(1, start, end), payload), Dnload(w', RangeCommand(3, start, end), ignored),
                 Upload(w'')];
    SessionNext(c, s, r, rest);
    SameTail([], Session(c, s1, rest).1, [[], [], payload[..end - start + 1]]);
    assert [r] + rest == [r, rest[0], rest[1], rest[2]];
    AlignedIs(c.g, LongAddress(bank, start));
  }

  lemma AlignedIs(g: Geometry, a: nat)
    requires g.pageSize > 0
    ensures g.Aligned(a) <==> a % g.pageSize == 0
  {
  }

  lemma SessionNext(c: Config, s: State, r: Request, rest: seq<Request>)
    requires c.g.pageSize > 0
    ensures var (s1, out) := Handle(c, s, r);
            Session(c, s, [r] + rest).1 == [out] + Session(c, s1, rest).1
  {
    hide Handle;
    assert ([r] + rest)[1..] == rest;
  }

  lemma SameTail(a: seq<Byte>, x: seq<seq<Byte>>, y: seq<seq<Byte>>)
    ensures [a] + x == [a] + y <==> x == y
  {
    if [a] + x == [a] + y {
      assert x == ([a] + x)[1..] && y == ([a] + y)[1..];
    }
  }

  /** Programming in numbers: byte `i` of an aligned range of the bank below the boot section is the payload's. */
  lemma BankProgrammed(c: Config, s: State, w: Word, start: Word, end: Word, payload: seq<Byte>, i: nat)
    requires c.g.Valid() && |s.dev.flash| == c.g.flashSize && !s.secure && !s.waitForExit && w != 0 && w != 6
    requires start <= end && end - start + 1 <= |payload| && end - start + 1 < 65536
    requires var base := 65536 * s.flash64K as nat + start; c.g.Aligned(base) && base + i < c.g.bootStart
    requires i < (end - start + 1) / 2 * 2
    ensures var a := 65536 * s.flash64K as nat + start + i;
            var packet := [1, 0, start / 256, start % 256, end / 256, end % 256];
            var flash := Handle(c, s, Dnload(w, packet, payload)).0.dev.flash;
            a < |flash| && flash[a] == payload[i]
  {
    hide Handle, LongAddress, RangeCommand, TransferBytes, ProgrammedByte, Geometry.Valid, Geometry.Aligned;
    ValidPageSize(c.g);
    var base := 65536 * s.flash64K as nat + start;
    RangePacket(1, start, end);
    BankAddress(s.flash64K, start);
    TransferIs(start, end);
    DnloadProgramsRange(c, s, w, start, end, payload);
    InsideFlash(c.g, base + i);
    ProgrammedByteIs(c.g, s.dev.flash, base, payload, TransferBytes(start, end), i);
  }

  lemma TransferIs(start: Word, end: Word)
    requires start <= end && end - start + 1 < 65536
    ensures TransferBytes(start, end) == (end - start + 1) / 2 * 2 <= end - start + 1
  {
  }

  lemma InsideFlash(g: Geometry, a: nat)
    requires g.Valid() && a < g.bootStart
    ensures a < g.flashSize
  {
  }

  lemma ProgrammedByteIs(g: Geometry, flash: seq<Byte>, base: nat, data: seq<Byte>, n: nat, i: nat)
    requires g.Aligned(base) && i < n <= |data| && base + i < g.bootStart && base + i < |flash|
    ensures ProgrammedByte(g, flash, base, data, n, base + i) == data[i]
  {
    hide Geometry.PageOf;
  }

  // ---------- everything else ----------

  /** A command that is none of these does nothing to an unlocked device. */
  lemma UnknownCommand(c: Config, s: State, w: Word, command: Byte, p0: Byte, p1: Byte, p2: Byte, p3: Byte, p4: Byte,
                       payload: seq<Byte>)
    requires c.g.Valid() && !s.secure && !s.waitForExit && !s.state.DnloadIdle? && w != 0
    requires command == 0 || command == 2 || command > 6
             || (command == 1 && p0 > 1) || (command == 3 && p0 > 2)
             || (command == 4 && p0 != 3 && !(p0 == 0 && p1 == 0xFF))
             || (command == 5 && p0 > 1) || (command == 6 && !(p0 == 3 && p1 == 0))
    ensures Handle(c, s, Dnload(w, [command, p0, p1, p2, p3, p4], payload))
         == (s.(command := command, params := [p0, p1, p2, p3, p4], dataSize := (w - 6) % 65536), [])
  {
    hide EraseFrom, Geometry.Valid, FirstNonBlank, LoadStartEndAddresses;
    ValidPageSize(c.g);
    PacketHandled(c, s, w, command, p0, p1, p2, p3, p4, payload);
  }

  /** A download without a data stage ends a download and does nothing else. */
  lemma DownloadEnds(c: Config, s: State, packet: seq<Byte>, payload: seq<Byte>)
    requires c.g.Valid() && !s.waitForExit
    ensures Handle(c, s, Dnload(0, packet, payload))
         == (s.(dataSize := 0, state := if s.state.DnloadIdle? then DfuIdle else s.state), [])
  {
  }

  /** An upload while none has been asked for: the blank check's address after an error, else the last response. */
  lemma UploadUnasked(c: Config, s: State, w: Word)
    requires c.g.Valid() && !s.state.UploadIdle?
    ensures Handle(c, s, Upload(w))
         == (s.(dataSize := w),
             if s.state == DfuError && s.params[0] == 1 then [s.startAddr % 256, s.startAddr / 256] else [s.response])
  {
  }

  /** A data stage that never comes leaves everything but the byte count as it was. */
  lemma PacketMissing(c: Config, s: State, w: Word, payload: seq<Byte>)
    requires c.g.Valid() && !s.waitForExit && w != 0
    ensures Handle(c, s, Dnload(w, [], payload)) == (s.(dataSize := w), [])
  {
  }

  /**
   * An upload that a read command asked for goes back to idle, sends the bytes of the range by its memory, and sends
   * nothing if a later packet has left another first parameter than 0 and 2.
   */
  lemma UploadAsked(c: Config, s: State, w: Word)
    requires c.g.Valid() && s.state.UploadIdle?
    ensures var (s', out) := Handle(c, s, Upload(w));
            var n := (s.endAddr - s.startAddr + 1) % 65536;
            && s' == s.(dataSize := w, state := DfuIdle, startAddr := s'.startAddr)
            && match s.params[0]
               case 0 => |out| == n / 2 * 2 && s'.startAddr == s.endAddr
               case 2 => |out| == n && s'.startAddr == (s.startAddr + n) % 65536
               case _ => out == [] && s'.startAddr == s.startAddr
  {
    hide FlashWords, EepromBytes;
  }
}
