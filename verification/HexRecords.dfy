/**
 * The bootloader as a machine over records: what each byte of a record does, from the bytes of its line alone. The
 * parser, character by character, is proved to do the same for everything a host can send.
 */
module HexRecords {
  import opened Words
  import opened Flash
  import opened HexParser
  import opened HexFraming

  /** The line being received, the addresses and the byte kept between records, the open page, and what was done. */
  datatype Loader = Loader(line: Line, base: nat, prev: Byte, page: nat, dirty: bool, run: bool, ops: seq<FlashOp>)

  /** An address reduced to the 16 or 32 bits of the address type. */
  function Reduced(g: Geometry, a: nat): nat {
    if g.flashSize > 65536 then a % 4294967296 else a % 65536
  }

  /** The open page is written when the address has left it. */
  function Closed(g: Geometry, l: Loader, a: nat): Loader
    requires g.pageSize > 0
  {
    if l.dirty && l.page != a - a % g.pageSize then
      l.(ops := l.ops + [WritePage(l.page)], page := a - a % g.pageSize, dirty := false)
    else l
  }

  /** A word of a data record at address `a`. */
  function WordTaken(g: Geometry, l: Loader, a: nat, w: Word): Loader
    requires g.pageSize > 0
  {
    var first := if l.dirty then [] else [ErasePage(l.page)];
    Closed(g, l.(dirty := true, ops := l.ops + (first + [FillWord(a, w)])), Reduced(g, a + 2))
  }

  /** The last of the bytes `bs` of a line that started with base address `base` and is not dropped. */
  function ByteTaken(g: Geometry, l: Loader, base: nat, bs: seq<Byte>): Loader
    requires g.pageSize > 0 && bs != []
  {
    var last := bs[|bs| - 1];
    if |bs| <= 4 then l
    else if |bs| <= bs[0] as nat + 4 then
      var a := AddressAt(g, base, bs, |bs| - 5);
      var left := bs[0] as nat + 4 - |bs|;
      if a >= g.bootStart then l.(dirty := false)
      else if left % 2 == 1 then l.(prev := last)
      else
        var w: Word := 256 * (last as int) + l.prev;
        if bs[3] == 0 then WordTaken(g, l, a, w)
        else if bs[3] == 2 then l.(base := Reduced(g, 16 * w as nat))
        else if bs[3] == 4 then l.(base := Reduced(g, 65536 * w as nat))
        else l
    else if (Sum(Body(bs)) + last) % 256 == 0 then
      Closed(g, l, AddressAt(g, base, bs, bs[0])).(run := l.run && bs[3] != 1)
    else l
  }

  function EventTaken(g: Geometry, l: Loader, e: Event): Loader
    requires g.pageSize > 0
  {
    match e
    case Reconfigured => l.(line := NoLine)
    case Received(c) =>
      if c == ':' then l.(line := Line(l.base, []))
      else
        match l.line
        case NoLine => l
        case Line(base, text) =>
          var l1 := l.(line := Line(base, text + [c]));
          if HexToDecimal(c) < 0 || |Digits(text)| % 2 == 0 || Dropped(g, base, RecordBytes(text)) then l1
          else if RecordBytes(text + [c]) == [] then l1
          else ByteTaken(g, l1, base, RecordBytes(text + [c]))
  }

  function Load(g: Geometry, l: Loader, events: seq<Event>): Loader
    requires g.pageSize > 0
    decreases |events|
  {
    if events == [] then l else EventTaken(g, Load(g, l, events[..|events| - 1]), events[|events| - 1])
  }

  /** At power-on; `prev` is whatever byte the parser kept. */
  function PowerOn(prev: Byte): Loader {
    Loader(NoLine, 0, prev, 0, false, true, [])
  }

  // ---------- the parser does the same ----------

  ghost predicate Agrees(g: Geometry, h: Hex, l: Loader) {
    && InLine(g, h, l.line)
    && SameFields(h, l)
    && l.base == g.Wrap(l.base)
  }

  predicate SameFields(h: Hex, l: Loader) {
    && h.baseAddress == l.base && h.prevData == l.prev
    && h.pageStart == l.page && h.dirty == l.dirty && h.run == l.run
  }

  lemma WrapReduces(g: Geometry, a: nat)
    ensures g.Wrap(a) == Reduced(g, a) == Reduced(g, Reduced(g, a))
  {
  }

  lemma HeaderTaken(g: Geometry, h: Hex, l: Loader)
    requires g.pageSize > 0 && (h.state.ByteCount? || h.state.AddressHigh? || h.state.AddressLow? || h.state.RecordType?)
    requires SameFields(h, l)
    ensures SameFields(ByteStep(g, h).0, l) && ByteStep(g, h).1 == []
  {
    hide Geometry.Wrap;
    ByteStepHeader(g, h);
  }

  lemma FlushTaken(g: Geometry, h: Hex, l: Loader)
    requires g.pageSize > 0 && SameFields(h, l)
    ensures var (h', ops) := FlushPageIfRequired(g, h);
            && SameFields(h', Closed(g, l, h.curr)) && Closed(g, l, h.curr).ops == l.ops + ops
            && h'.recordType == h.recordType && h'.run == h.run
    ensures Closed(g, l, h.curr).line == l.line && Closed(g, l, h.curr).base == l.base
  {
    ModBelow(h.curr, g.pageSize);
    assert l.ops + [] == l.ops;
  }

  lemma WordStepTaken(g: Geometry, h: Hex, l: Loader, w: Word)
    requires g.pageSize > 0 && SameFields(h, l)
    ensures var (h', ops) := DataWord(g, h, w);
            SameFields(h', WordTaken(g, l, h.curr, w)) && WordTaken(g, l, h.curr, w).ops == l.ops + ops
    ensures WordTaken(g, l, h.curr, w).line == l.line && WordTaken(g, l, h.curr, w).base == l.base
  {
    hide FlushPageIfRequired, Closed, Geometry.Wrap, Reduced;
    WrapReduces(g, h.curr + 2);
    var first := if l.dirty then [] else [ErasePage(l.page)];
    var h1 := h.(dirty := true, curr := g.Wrap(h.curr + 2));
    var l1 := l.(dirty := true, ops := l.ops + (first + [FillWord(h.curr, w)]));
    FlushTaken(g, h1, l1);
    AppendAssoc(l.ops, first + [FillWord(h.curr, w)], FlushPageIfRequired(g, h1).1);
  }

  /** What a data byte does to the fields kept between lines, with the branches of the guard, parity and type. */
  lemma DataByteEffect(g: Geometry, h: Hex, l: Loader)
    requires g.pageSize > 0 && h.state.ReadData? && h.dataRem > 0 && SameFields(h, l)
    ensures var (h', ops) := ByteStep(g, h);
            var w: Word := 256 * (h.data as int) + h.prevData;
            var l' := if h.curr >= g.bootStart then l.(dirty := false)
                      else if (h.dataRem - 1) % 2 == 1 then l.(prev := h.data)
                      else if h.recordType == 0 then WordTaken(g, l, h.curr, w)
                      else if h.recordType == 2 then l.(base := Reduced(g, 16 * w as nat))
                      else if h.recordType == 4 then l.(base := Reduced(g, 65536 * w as nat))
                      else l;
            SameFields(h', l') && l'.ops == l.ops + ops
  {
    hide DataWord, WordTaken, Geometry.Wrap, Reduced, Geometry.PageOf;
    var w: Word := 256 * (h.data as int) + h.prevData;
    var h1 := h.(checksum := (h.checksum + h.data) % 0x100, dataRem := (h.dataRem - 1) % 0x100);
    WordStepTaken(g, h1, l, w);
    WrapReduces(g, 16 * w as nat);
    WrapReduces(g, 65536 * w as nat);
    assert l.ops + [] == l.ops;
  }

  lemma ChecksumEffect(g: Geometry, h: Hex, l: Loader)
    requires g.pageSize > 0 && h.state.Checksum? && SameFields(h, l)
    ensures var (h', ops) := ByteStep(g, h);
            var l' := if (h.checksum + h.data) % 256 == 0
                      then Closed(g, l, h.curr).(run := l.run && h.recordType != 1) else l;
            SameFields(h', l') && l'.ops == l.ops + ops
  {
    hide FlushPageIfRequired, Closed;
    FlushTaken(g, h, l);
    assert l.ops + [] == l.ops;
  }

  /** One byte of a line not dropped. */
  lemma ByteAgrees(g: Geometry, h: Hex, l: Loader, base: nat, bs: seq<Byte>)
    requires g.Valid() && Framed(g, h, bs) && Addressed(g, h, base, bs) && SameFields(h, l)
    ensures var (h', ops) := ByteStep(g, h);
            var l' := ByteTaken(g, l, base, bs + [h.data]);
            SameFields(h', l') && l'.ops == l.ops + ops
  {
    hide ByteStep, Framed, WordTaken, Closed, AddressAt, Body, Sum, BodyLength, Reduced, Geometry.Valid;
    var all := bs + [h.data];
    assert g.pageSize > 0 by {
      PageSizePositive(g);
    }
    if |bs| < 4 {
      HeaderState(g, h, bs);
      HeaderTaken(g, h, l);
      assert l.ops + [] == l.ops;
    } else {
      FrameState(g, h, bs);
      LengthOf(bs);
      BodyOf(bs, h.data);
      SameHeader(g, base, bs, h.data);
      if |bs| < BodyLength(bs) {
        DataByteEffect(g, h, l);
      } else {
        FrameSum(g, h, bs);
        ChecksumEffect(g, h, l);
      }
    }
  }

  lemma PageSizePositive(g: Geometry)
    requires g.Valid()
    ensures g.pageSize > 0
  {
  }

  lemma LengthOf(bs: seq<Byte>)
    requires bs != []
    ensures BodyLength(bs) == bs[0] as nat + 4
  {
  }

  lemma HeaderState(g: Geometry, h: Hex, bs: seq<Byte>)
    requires Framed(g, h, bs) && |bs| < 4
    ensures h.state.ByteCount? || h.state.AddressHigh? || h.state.AddressLow? || h.state.RecordType?
  {
    hide Sum, Body, FramedAddress;
  }

  /** A complete body: its length, and its sum as the parser has it. */
  lemma FrameSum(g: Geometry, h: Hex, bs: seq<Byte>)
    requires Framed(g, h, bs) && |bs| >= BodyLength(bs)
    ensures (h.checksum + h.data) % 256 == (Sum(Body(bs)) + h.data) % 256
    ensures |Body(bs)| == BodyLength(bs)
  {
    AddMod(Sum(Body(bs)), h.data);
    hide Sum, FramedAddress;
  }

  lemma IgnoredEffect(g: Geometry, h: Hex, c: char, l: Loader)
    requires g.pageSize > 0 && SameFields(h, l)
    requires h.state.WaitLine? || c == ':' || HexToDecimal(c) < 0 || !h.readMSB
    ensures SameFields(Step(g, h, c).0, l) && Step(g, h, c).1 == []
  {
    hide ByteStep;
  }

  /** The digit that completes a byte. */
  lemma DigitAgrees(g: Geometry, h: Hex, l: Loader, base: nat, ns: seq<Nibble>, c: char)
    requires g.Valid() && c != ':' && HexToDecimal(c) >= 0 && |ns| % 2 == 1
    requires FramedDigits(g, h, ns) && Addressed(g, h, base, PairUp(ns)) && SameFields(h, l)
    ensures PairUp(ns + [HexToDecimal(c)]) != []
    ensures var (h', ops) := Step(g, h, c);
            var l' := ByteTaken(g, l, base, PairUp(ns + [HexToDecimal(c)]));
            SameFields(h', l') && l'.ops == l.ops + ops
  {
    hide Step, ByteStep, Framed, Addressed, PairUp, ByteOf, ByteTaken;
    var d: Nibble := HexToDecimal(c);
    NotWaiting(g, h, PairUp(ns));
    DigitStep(g, h, c);
    PairUpAppend(ns, d);
    CompletedByte(h.data, Last(ns), d);
    SameFrame(g, h, d, PairUp(ns));
    SameAddress(g, h, d, base, PairUp(ns));
    ByteAgrees(g, WithDigit(h, d), l, base, PairUp(ns));
  }

  lemma TakenKeepsLine(g: Geometry, l: Loader, base: nat, bs: seq<Byte>)
    requires g.pageSize > 0 && bs != [] && l.base == g.Wrap(l.base)
    ensures ByteTaken(g, l, base, bs).line == l.line
    ensures ByteTaken(g, l, base, bs).base == g.Wrap(ByteTaken(g, l, base, bs).base)
  {
    hide AddressAt, Sum, Body, Reduced, Geometry.Wrap;
    if |bs| > 4 {
      var w: Word := 256 * (bs[|bs| - 1] as int) + l.prev;
      WrapReduces(g, 16 * w as nat);
      WrapReduces(g, 65536 * w as nat);
      WrapReduces(g, Reduced(g, 16 * w as nat));
      WrapReduces(g, Reduced(g, 65536 * w as nat));
    }
  }

  lemma EventAgrees(g: Geometry, h: Hex, l: Loader, e: Event)
    requires g.Valid() && Agrees(g, h, l)
    ensures var (h', ops) := EventStep(g, h, e);
            Agrees(g, h', EventTaken(g, l, e)) && EventTaken(g, l, e).ops == l.ops + ops
  {
    hide Step, InLine, ByteTaken, Geometry.Wrap, Geometry.Valid, Dropped;
    PageSizePositive(g);
    assert l.ops + [] == l.ops;
    match e
    case Reconfigured => Waiting(g, h.(state := WaitLine));
    case Received(c) =>
      if c == ':' {
        ColonInLine(g, h);
        ColonStep(g, h);
        IgnoredEffect(g, h, c, l);
      } else {
        CharacterInLine(g, h, l.line, c);
        if l.line.NoLine? {
          NoLineWaits(g, h);
          IgnoredEffect(g, h, c, l);
        } else {
          CharacterTaken(g, h, l, c);
        }
      }
  }

  lemma NoLineWaits(g: Geometry, h: Hex)
    requires InLine(g, h, NoLine)
    ensures h.state.WaitLine?
  {
  }

  lemma CharacterTaken(g: Geometry, h: Hex, l: Loader, c: char)
    requires g.Valid() && Agrees(g, h, l) && l.line.Line? && c != ':'
    ensures var (h', ops) := Step(g, h, c);
            var l' := EventTaken(g, l, Received(c));
            SameFields(h', l') && l'.ops == l.ops + ops && l'.base == g.Wrap(l'.base)
    ensures EventTaken(g, l, Received(c)).line == Line(l.line.base, l.line.text + [c])
  {
    hide Step, ByteTaken, Geometry.Wrap, Geometry.Valid, FramedDigits, Addressed, PairUp;
    PageSizePositive(g);
    assert l.ops + [] == l.ops;
    var base, text := l.line.base, l.line.text;
    var l1 := l.(line := Line(base, text + [c]));
    DigitsAppend(text, c);
    if HexToDecimal(c) < 0 || Dropped(g, base, RecordBytes(text)) {
      IgnoredEffect(g, h, c, l);
    } else if |Digits(text)| % 2 == 0 {
      EvenDigits(g, h, Digits(text));
      IgnoredEffect(g, h, c, l);
    } else {
      DigitAgrees(g, h, l1, base, Digits(text), c);
      TakenKeepsLine(g, l1, base, RecordBytes(text + [c]));
    }
  }

  lemma EvenDigits(g: Geometry, h: Hex, ns: seq<Nibble>)
    requires FramedDigits(g, h, ns) && |ns| % 2 == 0
    ensures !h.readMSB
  {
  }

  /**
   * For everything a host can send from power-on, well-formed or not: the parser issues exactly the flash operations
   * of the machine over records, in the same order, and agrees with it on base address, open page and stop flag.
   */
  lemma {:induction false} ParserRefinesRecords(g: Geometry, h: Hex, events: seq<Event>)
    requires g.Valid() && AtReset(h)
    ensures var (h', ops) := EventRun(g, h, events);
            var l := Load(g, PowerOn(h.prevData), events);
            Agrees(g, h', l) && ops == l.ops
    decreases |events|
  {
    hide EventStep, EventTaken, Agrees;
    if events == [] {
      PowerOnAgrees(g, h);
    } else {
      var n := |events| - 1;
      ParserRefinesRecords(g, h, events[..n]);
      EventAgrees(g, EventRun(g, h, events[..n]).0, Load(g, PowerOn(h.prevData), events[..n]), events[n]);
    }
  }

  lemma PowerOnAgrees(g: Geometry, h: Hex)
    requires g.Valid() && AtReset(h)
    ensures Agrees(g, h, PowerOn(h.prevData))
  {
  }

  /**
   * In every state reached from power-on by characters and USB reconfigurations: without a line the parser waits; a
   * line is dropped exactly when one of its data bytes comes at an address in the boot section; and otherwise state,
   * remaining count, type, checksum and address are those of the bytes received since the ':'.
   */
  lemma StreamFramed(g: Geometry, h: Hex, events: seq<Event>)
    requires g.Valid() && AtReset(h)
    ensures InLine(g, EventRun(g, h, events).0, Load(g, PowerOn(h.prevData), events).line)
  {
    hide InLine;
    ParserRefinesRecords(g, h, events);
  }

  /** The event completes the checksum byte of an end-of-file record whose bytes add up to zero, in a line not dropped. */
  ghost predicate Stops(g: Geometry, line: Line, e: Event) {
    && line.Line? && e.Received? && e.c != ':' && HexToDecimal(e.c) >= 0 && |Digits(line.text)| % 2 == 1
    && !Dropped(g, line.base, RecordBytes(line.text))
    && var bs := RecordBytes(line.text + [e.c]);
    && |bs| >= 5 && |bs| > bs[0] as nat + 4 && bs[3] == 1
    && (Sum(Body(bs)) + Last(bs)) % 256 == 0
  }

  lemma EventStops(g: Geometry, l: Loader, e: Event)
    requires g.pageSize > 0
    ensures EventTaken(g, l, e).run == (l.run && !Stops(g, l.line, e))
  {
    hide Dropped, AddressAt, Body, Sum, PairUp;
  }

  /** From power-on `RunBootloader` is cleared by exactly such an event, and never set again. */
  lemma StopsExactlyAtEndOfFile(g: Geometry, h: Hex, events: seq<Event>, e: Event)
    requires g.Valid() && AtReset(h)
    ensures EventRun(g, h, events + [e]).0.run ==
            (EventRun(g, h, events).0.run && !Stops(g, Load(g, PowerOn(h.prevData), events).line, e))
  {
    hide EventStep, EventTaken, InLine, Stops;
    var all := events + [e];
    assert all[..|all| - 1] == events && all[|all| - 1] == e;
    ParserRefinesRecords(g, h, events);
    ParserRefinesRecords(g, h, all);
    EventStops(g, Load(g, PowerOn(h.prevData), events), e);
  }
}
