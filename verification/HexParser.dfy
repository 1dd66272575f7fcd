/**
 * The Intel HEX stream parser: one character at a time, with its flash operations as output.
 * `Step` is the specification of the method in HexBootloader; the properties are in HexFraming,
 * HexStream and HexImage.
 */
module HexParser {
  import opened Words
  import opened Flash

  datatype ParserState =
    | WaitLine
    | ByteCount
    | AddressHigh
    | AddressLow
    | RecordType
    | ReadData
    | Checksum

  const RECORD_DATA: Byte := 0
  const RECORD_END_OF_FILE: Byte := 1
  const RECORD_EXTENDED_SEGMENT: Byte := 2
  const RECORD_EXTENDED_LINEAR: Byte := 4

  /** `HEXParser`, `PageDirty` and `RunBootloader`. */
  datatype Hex = Hex(
    state: ParserState,
    prevData: Byte,
    data: Byte,
    readMSB: bool,
    recordType: Byte,
    dataRem: Byte,
    checksum: Byte,
    pageStart: nat,
    baseAddress: nat,
    curr: nat,
    dirty: bool,
    run: bool)

  function HexToDecimal(c: char): (d: int)
    ensures -1 <= d < 16
  {
    if 'A' <= c <= 'F' then 10 + (c as int - 'A' as int)
    else if '0' <= c <= '9' then c as int - '0' as int
    else -1
  }

  function FlushPageIfRequired(g: Geometry, h: Hex): (Hex, seq<FlashOp>)
    requires g.pageSize > 0
  {
    var newPage := g.PageOf(h.curr);
    if h.dirty && h.pageStart != newPage then
      (h.(pageStart := newPage, dirty := false), [WritePage(h.pageStart)])
    else
      (h, [])
  }

  /** A complete word of a type 00 record: erase if a page is opened, fill, advance, flush. */
  function DataWord(g: Geometry, h: Hex, w: Word): (Hex, seq<FlashOp>)
    requires g.pageSize > 0
  {
    var erase := if h.dirty then [] else [ErasePage(h.pageStart)];
    var h1 := h.(dirty := true, curr := g.Wrap(h.curr + 2));
    var (h2, flush) := FlushPageIfRequired(g, h1);
    (h2, erase + [FillWord(h.curr, w)] + flush)
  }

  /** The data state, with `h.data` the byte just decoded. */
  function DataByte(g: Geometry, h: Hex): (Hex, seq<FlashOp>)
    requires g.pageSize > 0
  {
    var h1 := h.(dataRem := (h.dataRem - 1) % 0x100);
    if h1.curr >= g.bootStart then
      (h1.(state := WaitLine, dirty := false), [])
    else if h1.dataRem % 2 == 1 then
      (h1.(prevData := h1.data), [])
    else
      var w := WordOf(h1.prevData, h1.data);
      var (h2, ops) :=
        if h1.recordType == RECORD_DATA then
          DataWord(g, h1, w)
        else if h1.recordType == RECORD_EXTENDED_SEGMENT then
          (h1.(baseAddress := g.Wrap(0x10 * w as nat)), [])
        else if h1.recordType == RECORD_EXTENDED_LINEAR then
          (h1.(baseAddress := g.Wrap(0x1_0000 * w as nat)), [])
        else
          (h1, []);
      (if h2.dataRem == 0 then h2.(state := Checksum) else h2, ops)
  }

  /** The checksum state: a mismatch leaves everything as it is. */
  function ChecksumByte(g: Geometry, h: Hex): (Hex, seq<FlashOp>)
    requires g.pageSize > 0
  {
    if h.data != (0x100 - h.checksum) % 0x100 then
      (h, [])
    else
      var (h1, ops) := FlushPageIfRequired(g, h);
      (if h1.recordType == RECORD_END_OF_FILE then h1.(run := false) else h1, ops)
  }

  /** A complete byte `h.data`, two nibbles having been read. */
  function ByteStep(g: Geometry, h: Hex): (Hex, seq<FlashOp>)
    requires g.pageSize > 0
  {
    var h1 := if h.state.Checksum? then h else h.(checksum := (h.checksum + h.data) % 0x100);
    match h1.state
    case WaitLine => (h1, [])
    case ByteCount => (h1.(dataRem := h1.data, state := AddressHigh), [])
    case AddressHigh =>
      (h1.(curr := g.Wrap(h1.curr + h1.data * 0x100), state := AddressLow), [])
    case AddressLow =>
      (h1.(curr := g.Wrap(h1.curr + h1.data), state := RecordType), [])
    case RecordType =>
      (h1.(recordType := h1.data, state := if h1.dataRem != 0 then ReadData else Checksum), [])
    case ReadData => DataByte(g, h1)
    case Checksum => ChecksumByte(g, h1)
  }

  /** A character while a line is awaited, or a ':' anywhere. */
  function StartLine(h: Hex, c: char): Hex {
    h.(checksum := 0,
       curr := h.baseAddress,
       readMSB := false,
       state := if c == ':' then ByteCount else h.state)
  }

  /** The parser's reaction to one character: its new state and the flash operations it issues. */
  function Step(g: Geometry, h: Hex, c: char): (Hex, seq<FlashOp>)
    requires g.pageSize > 0
  {
    if h.state.WaitLine? || c == ':' then
      (StartLine(h, c), [])
    else
      var d := HexToDecimal(c);
      if d < 0 then
        (h, [])
      else
        var h1 := h.(data := h.data * 0x10 % 0x100 + d, readMSB := !h.readMSB);
        if h1.readMSB then (h1, []) else ByteStep(g, h1)
  }

  function Run(g: Geometry, h: Hex, text: string): (Hex, seq<FlashOp>)
    requires g.pageSize > 0
    decreases |text|
  {
    if text == [] then (h, [])
    else
      var (h1, ops1) := Step(g, h, text[0]);
      var (h2, ops2) := Run(g, h1, text[1..]);
      (h2, ops1 + ops2)
  }

  lemma {:induction false} RunConcat(g: Geometry, h: Hex, s: string, t: string)
    requires g.pageSize > 0
    ensures var (h1, ops1) := Run(g, h, s);
            var (h2, ops2) := Run(g, h1, t);
            Run(g, h, s + t) == (h2, ops1 + ops2)
    decreases |s|
  {
    hide Step;
    if s == [] {
      assert s + t == t;
      assert [] + Run(g, h, t).1 == Run(g, h, t).1;
    } else {
      assert (s + t)[1..] == s[1..] + t;
      var (h1, ops1) := Step(g, h, s[0]);
      RunConcat(g, h1, s[1..], t);
      var (h2, ops2) := Run(g, h1, s[1..]);
      var (h3, ops3) := Run(g, h2, t);
      assert (ops1 + ops2) + ops3 == ops1 + (ops2 + ops3);
    }
  }

  lemma RunOne(g: Geometry, h: Hex, c: char)
    requires g.pageSize > 0
    ensures Run(g, h, [c]) == Step(g, h, c)
  {
    var (h1, ops1) := Step(g, h, c);
    assert [c][1..] == [];
    assert Run(g, h1, []) == (h1, []);
    assert ops1 + [] == ops1;
  }

  // ---------- what a host can do ----------

  /** A character on the data endpoint, or a USB (re)configuration, which resets the parser state alone. */
  datatype Event = Received(c: char) | Reconfigured

  function EventStep(g: Geometry, h: Hex, e: Event): (Hex, seq<FlashOp>)
    requires g.pageSize > 0
  {
    match e
    case Received(c) => Step(g, h, c)
    case Reconfigured => (h.(state := WaitLine), [])
  }

  function EventRun(g: Geometry, h: Hex, events: seq<Event>): (Hex, seq<FlashOp>)
    requires g.pageSize > 0
    decreases |events|
  {
    if events == [] then (h, [])
    else
      var n := |events| - 1;
      var (h1, ops1) := EventRun(g, h, events[..n]);
      var (h2, ops2) := EventStep(g, h1, events[n]);
      (h2, ops1 + ops2)
  }

  function Characters(text: string): (events: seq<Event>)
    ensures |events| == |text|
  {
    seq(|text|, i requires 0 <= i < |text| => Received(text[i]))
  }

  /** Without reconfigurations a run over events is the run over their characters. */
  lemma {:induction false} CharactersRun(g: Geometry, h: Hex, text: string)
    requires g.pageSize > 0
    ensures EventRun(g, h, Characters(text)) == Run(g, h, text)
    decreases |text|
  {
    hide Step;
    if text != [] {
      var n := |text| - 1;
      CharactersRun(g, h, text[..n]);
      assert Characters(text)[..n] == Characters(text[..n]);
      assert text == text[..n] + [text[n]];
      RunConcat(g, h, text[..n], [text[n]]);
      RunOne(g, Run(g, h, text[..n]).0, text[n]);
    }
  }

  // ---------- the parser together with the flash it drives ----------

  datatype Machine = Machine(hex: Hex, dev: Device)

  function MStep(g: Geometry, m: Machine, c: char): Machine
    requires g.pageSize > 0
  {
    var (h, ops) := Step(g, m.hex, c);
    Machine(h, ExecAll(g, m.dev, ops))
  }

  function MEvent(g: Geometry, m: Machine, e: Event): Machine
    requires g.pageSize > 0
  {
    var (h, ops) := EventStep(g, m.hex, e);
    Machine(h, ExecAll(g, m.dev, ops))
  }

  function MRun(g: Geometry, m: Machine, text: string): Machine
    requires g.pageSize > 0
  {
    var (h, ops) := Run(g, m.hex, text);
    Machine(h, ExecAll(g, m.dev, ops))
  }

  lemma MRunConcat(g: Geometry, m: Machine, s: string, t: string)
    requires g.pageSize > 0
    ensures MRun(g, m, s + t) == MRun(g, MRun(g, m, s), t)
  {
    RunConcat(g, m.hex, s, t);
    var (h1, ops1) := Run(g, m.hex, s);
    var (h2, ops2) := Run(g, h1, t);
    ExecAllConcat(g, m.dev, ops1, ops2);
  }

  lemma MRunOne(g: Geometry, m: Machine, c: char)
    requires g.pageSize > 0
    ensures MRun(g, m, [c]) == MStep(g, m, c)
  {
    RunOne(g, m.hex, c);
  }

  /** Power-on values: only these four matter, since a line start sets the other fields. */
  predicate AtReset(h: Hex) {
    h.state.WaitLine? && h.pageStart == 0 && h.baseAddress == 0 && !h.dirty && h.run
  }
}
