/**
 * The parser against an independent reading of a record: the digits since the last ':' paired into bytes,
 * laid out as byte count, address, type, data and checksum ("General Record Format" of the Intel
 * Hexadecimal Object File Format Specification).
 */
module HexFraming {
  import opened Words
  import opened Flash
  import opened HexParser

  function Init<T>(s: seq<T>): seq<T>
    requires s != []
  {
    s[..|s| - 1]
  }

  function Last<T>(s: seq<T>): T
    requires s != []
  {
    s[|s| - 1]
  }

  type Nibble = n: int | 0 <= n < 0x10

  function Digits(line: string): seq<Nibble> {
    if line == [] then []
    else
      var d := HexToDecimal(Last(line));
      if d < 0 then Digits(Init(line)) else Digits(Init(line)) + [d]
  }

  function ByteOf(high: Nibble, low: Nibble): Byte {
    0x10 * (high as int) + low
  }

  function PairUp(ns: seq<Nibble>): (bs: seq<Byte>)
    ensures |bs| == |ns| / 2
  {
    seq(|ns| / 2, i requires 0 <= i < |ns| / 2 => ByteOf(ns[2 * i], ns[2 * i + 1]))
  }

  /** The bytes of the record being received, checksum included once it has come. */
  function RecordBytes(line: string): seq<Byte> {
    PairUp(Digits(line))
  }

  function Sum(bs: seq<Byte>): nat {
    if bs == [] then 0 else Sum(Init(bs)) + Last(bs)
  }

  /** The number of bytes a record announces before its checksum, by its first byte. */
  function BodyLength(bs: seq<Byte>): nat {
    if bs == [] then 4 else bs[0] as nat + 4
  }

  function Body(bs: seq<Byte>): seq<Byte> {
    if |bs| <= BodyLength(bs) then bs else bs[..BodyLength(bs)]
  }

  function ExpectedState(bs: seq<Byte>): ParserState {
    if |bs| == 0 then ByteCount
    else if |bs| == 1 then AddressHigh
    else if |bs| == 2 then AddressLow
    else if |bs| == 3 then RecordType
    else if |bs| < BodyLength(bs) then ReadData
    else Checksum
  }

  /** Words completed by `j` data bytes of a record of `n`: an odd count makes a word of its first byte. */
  function WordsCompleted(n: nat, j: nat): nat {
    (j + n % 2) / 2
  }

  /** How far the bytes received move the address counter past the base address. */
  function Offset(bs: seq<Byte>): nat
    requires |bs| >= 2
  {
    if |bs| == 2 then WordOf(0, bs[1])
    else if |bs| == 3 then WordOf(bs[2], bs[1])
    else WordOf(bs[2], bs[1]) + 2 * WordsCompleted(bs[0], |Body(bs)| - 4)
  }

  /** The address counter, while the record's own bytes are being read. */
  ghost predicate FramedAddress(g: Geometry, h: Hex, bs: seq<Byte>) {
    if |bs| <= 1 then h.curr == h.baseAddress
    else if |Body(bs)| > 4 && bs[3] != 0 then true
    else h.curr == g.Wrap(h.baseAddress + Offset(bs))
  }

  /** The parser's fields as functions of the bytes of the record. */
  ghost predicate Framed(g: Geometry, h: Hex, bs: seq<Byte>) {
    && h.state == ExpectedState(bs)
    && h.checksum == Sum(Body(bs)) % 0x100
    && (1 <= |bs| <= 4 ==> h.dataRem == bs[0])
    && (|bs| >= 4 ==> h.recordType == bs[3])
    && (h.state.ReadData? ==> h.dataRem == BodyLength(bs) - |bs| >= 1)
    && (h.state.Checksum? ==> h.dataRem == 0)
    && FramedAddress(g, h, bs)
  }

  /** ... and of the digits, when a byte may be half-way. */
  ghost predicate FramedDigits(g: Geometry, h: Hex, ns: seq<Nibble>) {
    && Framed(g, h, PairUp(ns))
    && h.readMSB == (|ns| % 2 == 1)
    && (h.readMSB ==> h.data % 0x10 == Last(ns))
  }

  lemma PairUpAppend(ns: seq<Nibble>, d: Nibble)
    ensures |ns| % 2 == 0 ==> PairUp(ns + [d]) == PairUp(ns)
    ensures |ns| % 2 == 1 ==> PairUp(ns + [d]) == PairUp(ns) + [ByteOf(Last(ns), d)]
  {
  }

  lemma SumAppend(bs: seq<Byte>, b: Byte)
    ensures Sum(bs + [b]) == Sum(bs) + b
  {
  }

  lemma BodyAppend(bs: seq<Byte>, b: Byte)
    requires |bs| >= 1
    ensures Body(bs + [b]) == if |bs| < BodyLength(bs) then bs + [b] else Body(bs)
  {
  }

  lemma AddMod(a: int, b: int)
    ensures (a % 0x100 + b) % 0x100 == (a + b) % 0x100
  {
  }

  lemma WrapAdd(g: Geometry, a: nat, b: nat)
    ensures g.Wrap(g.Wrap(a) + b) == g.Wrap(a + b)
  {
    WrapAdd16(a, b);
    WrapAdd32(a, b);
  }

  lemma WrapAdd16(a: nat, b: nat)
    ensures (a % 0x1_0000 + b) % 0x1_0000 == (a + b) % 0x1_0000
  {
    var k, q := a / 0x1_0000, (a + b) / 0x1_0000;
    assert a % 0x1_0000 + b == 0x1_0000 * (q - k) + (a + b) % 0x1_0000;
  }

  lemma WrapAdd32(a: nat, b: nat)
    ensures (a % 0x1_0000_0000 + b) % 0x1_0000_0000 == (a + b) % 0x1_0000_0000
  {
    var k, q := a / 0x1_0000_0000, (a + b) / 0x1_0000_0000;
    assert a % 0x1_0000_0000 + b == 0x1_0000_0000 * (q - k) + (a + b) % 0x1_0000_0000;
  }

  lemma NoWords(n: nat)
    ensures WordsCompleted(n, 0) == 0
  {
  }

  lemma WordsStep(n: nat, j: nat)
    requires j < n
    ensures WordsCompleted(n, j + 1) == WordsCompleted(n, j) + if (n - j - 1) % 2 == 0 then 1 else 0
  {
  }

  lemma BodyShort(bs: seq<Byte>, b: Byte)
    requires |bs| < 4
    ensures Body(bs) == bs && Body(bs + [b]) == bs + [b]
  {
  }

  /** The four header bytes, field by field. */
  function HeaderByte(g: Geometry, h: Hex): Hex {
    var b := h.data;
    var h1 := h.(checksum := (h.checksum + b) % 0x100);
    match h.state
    case ByteCount => h1.(dataRem := b, state := AddressHigh)
    case AddressHigh => h1.(curr := g.Wrap(h.curr + WordOf(0, b)), state := AddressLow)
    case AddressLow => h1.(curr := g.Wrap(h.curr + b), state := RecordType)
    case RecordType => h1.(recordType := b, state := if h.dataRem != 0 then ReadData else Checksum)
    case _ => h1
  }

  lemma ByteStepHeader(g: Geometry, h: Hex)
    requires g.pageSize > 0 && (h.state.ByteCount? || h.state.AddressHigh? || h.state.AddressLow? || h.state.RecordType?)
    ensures ByteStep(g, h).0 == HeaderByte(g, h)
  {
  }

  lemma HeaderByteFramed(g: Geometry, h: Hex, bs: seq<Byte>)
    requires g.Valid() && Framed(g, h, bs) && |bs| < 4
    ensures Framed(g, ByteStep(g, h).0, bs + [h.data])
  {
    hide Body, Sum, ByteStep, WordsCompleted, Geometry.Wrap;
    var b := h.data;
    ByteStepHeader(g, h);
    BodyShort(bs, b);
    SumAppend(bs, b);
    AddMod(Sum(bs), b);
    if |bs| == 2 {
      WrapAdd(g, h.baseAddress + WordOf(0, bs[1]), b);
      assert WordOf(b, bs[1]) == WordOf(0, bs[1]) + b;
    } else if |bs| == 3 {
      NoWords(bs[0]);
    }
  }

  /** A data word moves the address by two, and no other field of the frame. */
  lemma DataWordFields(g: Geometry, h: Hex, w: Word)
    requires g.pageSize > 0
    ensures var h' := DataWord(g, h, w).0;
            h' == h.(curr := g.Wrap(h.curr + 2), pageStart := h'.pageStart, dirty := h'.dirty)
  {
  }

  /** What a data byte does to the fields of the frame, if the boot section guard lets it through. */
  ghost predicate DataByteTaken(g: Geometry, h: Hex, h': Hex) {
    && h'.dataRem == (h.dataRem - 1) % 0x100
    && h'.state == (if h'.dataRem == 0 then Checksum else h.state)
    && h'.checksum == (h.checksum + h.data) % 0x100
    && h'.recordType == h.recordType
    && h'.readMSB == h.readMSB
    && (h.recordType == 0 ==>
          && h'.baseAddress == h.baseAddress
          && h'.curr == if h'.dataRem % 2 == 0 then g.Wrap(h.curr + 2) else h.curr)
  }

  lemma DataByteFields(g: Geometry, h: Hex)
    requires g.pageSize > 0 && h.state.ReadData?
    ensures var h' := ByteStep(g, h).0; h'.state.WaitLine? || DataByteTaken(g, h, h')
  {
  }

  lemma DataByteFramed(g: Geometry, h: Hex, h': Hex, bs: seq<Byte>)
    requires g.Valid() && Framed(g, h, bs) && h.state.ReadData? && DataByteTaken(g, h, h')
    ensures Framed(g, h', bs + [h.data])
  {
    hide Sum, Geometry.Wrap, WordOf, WordsCompleted;
    var b, all := h.data, bs + [h.data];
    BodyAppend(bs, b);
    assert Body(bs) == bs;
    assert h'.checksum == Sum(all) % 0x100 by {
      SumAppend(bs, b);
      AddMod(Sum(bs), b);
    }
    if bs[3] == 0 {
      WordsStep(bs[0], |bs| - 4);
      WrapAdd(g, h.baseAddress + Offset(bs), 2);
      assert FramedAddress(g, h', all);
    }
  }

  lemma ChecksumByteFramed(g: Geometry, h: Hex, bs: seq<Byte>)
    requires g.Valid() && Framed(g, h, bs) && h.state.Checksum?
    ensures Framed(g, ByteStep(g, h).0, bs + [h.data])
  {
    BodyAppend(bs, h.data);
  }

  /** One byte keeps the frame, unless the boot section guard drops the rest of the line. */
  lemma ByteStepFramed(g: Geometry, h: Hex, bs: seq<Byte>)
    requires g.Valid() && Framed(g, h, bs)
    ensures var h' := ByteStep(g, h).0; h'.state.WaitLine? || Framed(g, h', bs + [h.data])
  {
    if |bs| < 4 {
      HeaderByteFramed(g, h, bs);
    } else if |bs| < BodyLength(bs) {
      DataByteFields(g, h);
      var h' := ByteStep(g, h).0;
      if !h'.state.WaitLine? {
        DataByteFramed(g, h, h', bs);
      }
    } else {
      ChecksumByteFramed(g, h, bs);
    }
  }

  /** The state in which a digit completes a byte. */
  function WithDigit(h: Hex, d: Nibble): Hex {
    h.(data := h.data * 0x10 % 0x100 + d, readMSB := !h.readMSB)
  }

  lemma DigitStep(g: Geometry, h: Hex, c: char)
    requires g.pageSize > 0 && !h.state.WaitLine? && c != ':' && HexToDecimal(c) >= 0
    ensures Step(g, h, c) == if h.readMSB then ByteStep(g, WithDigit(h, HexToDecimal(c)))
                             else (WithDigit(h, HexToDecimal(c)), [])
  {
  }

  lemma CompletedByte(data: Byte, low: Nibble, d: Nibble)
    requires data % 0x10 == low
    ensures data * 0x10 % 0x100 + d == ByteOf(low, d)
  {
  }

  lemma ByteStepKeepsNibble(g: Geometry, h: Hex)
    requires g.pageSize > 0
    ensures ByteStep(g, h).0.readMSB == h.readMSB
  {
  }

  lemma DigitsAppend(line: string, c: char)
    ensures Digits(line + [c]) ==
            if HexToDecimal(c) < 0 then Digits(line) else Digits(line) + [HexToDecimal(c) as Nibble]
  {
  }

  lemma DigitFields(h: Hex, d: Nibble)
    ensures WithDigit(h, d).readMSB == !h.readMSB && WithDigit(h, d).data % 0x10 == d
  {
    assert h.data * 0x10 % 0x100 == 0x10 * (h.data % 0x10);
  }

  lemma ParityNext(n: nat)
    ensures (n + 1) % 2 == 1 <==> n % 2 == 0
  {
  }

  lemma DigitFramed(g: Geometry, h: Hex, h': Hex, ns: seq<Nibble>, d: Nibble)
    requires FramedDigits(g, h, ns)
    requires h'.readMSB == !h.readMSB
    requires !h.readMSB ==> h' == WithDigit(h, d)
    requires h.readMSB ==> Framed(g, h', PairUp(ns) + [ByteOf(Last(ns), d)])
    ensures FramedDigits(g, h', ns + [d])
  {
    hide Framed, PairUp, ByteOf, WithDigit;
    DigitFields(h, d);
    ParityNext(|ns|);
    PairUpAppend(ns, d);
    if !h.readMSB {
      SameFrame(g, h, d, PairUp(ns));
    }
  }

  lemma SameFrame(g: Geometry, h: Hex, d: Nibble, bs: seq<Byte>)
    requires Framed(g, h, bs)
    ensures Framed(g, WithDigit(h, d), bs)
  {
  }

  lemma StepFramed(g: Geometry, h: Hex, ns: seq<Nibble>, c: char)
    requires g.Valid() && c != ':' && !h.state.WaitLine? && FramedDigits(g, h, ns) && HexToDecimal(c) >= 0
    ensures var h' := Step(g, h, c).0; h'.state.WaitLine? || FramedDigits(g, h', ns + [HexToDecimal(c)])
  {
    hide Step, ByteStep, Framed;
    var d: Nibble := HexToDecimal(c);
    DigitStep(g, h, c);
    var h1 := WithDigit(h, d);
    assert Framed(g, h1, PairUp(ns)) && h1.state == h.state by {
      SameFrame(g, h, d, PairUp(ns));
    }
    if h.readMSB {
      CompletedByte(h.data, Last(ns), d);
      ByteStepKeepsNibble(g, h1);
      ByteStepFramed(g, h1, PairUp(ns));
      var h' := ByteStep(g, h1).0;
      if !h'.state.WaitLine? {
        DigitFramed(g, h, h', ns, d);
      }
    } else {
      DigitFramed(g, h, h1, ns, d);
    }
  }

  // ---------- where the boot section guard cuts a record off ----------

  /** The address counter when data byte `j` of a record arrives, its line having started with `base`. */
  function AddressAt(g: Geometry, base: nat, bs: seq<Byte>, j: nat): nat
    requires |bs| >= 4
  {
    g.Wrap(base + WordOf(bs[2], bs[1]) + if bs[3] == 0 then 2 * WordsCompleted(bs[0], j) else 0)
  }

  /** Some data byte of the record came when the counter was in the boot section: the rest of the line is ignored. */
  predicate Dropped(g: Geometry, base: nat, bs: seq<Byte>) {
    |bs| >= 4 && exists j: nat :: j < |Body(bs)| - 4 && AddressAt(g, base, bs, j) >= g.bootStart
  }

  /** The address counter of a record not dropped, by the base address its line started with. */
  ghost predicate Addressed(g: Geometry, h: Hex, base: nat, bs: seq<Byte>) {
    if |bs| <= 1 then h.curr == g.Wrap(base)
    else if |bs| == 2 then h.curr == g.Wrap(base + WordOf(0, bs[1]))
    else if |bs| == 3 then h.curr == g.Wrap(base + WordOf(bs[2], bs[1]))
    else |Body(bs)| >= 4 && h.curr == AddressAt(g, base, bs, |Body(bs)| - 4)
  }

  lemma HeaderAddressed(g: Geometry, h: Hex, base: nat, bs: seq<Byte>)
    requires g.Valid() && Framed(g, h, bs) && |bs| < 4 && Addressed(g, h, base, bs)
    ensures var h' := ByteStep(g, h).0; !h'.state.WaitLine? && Addressed(g, h', base, bs + [h.data])
    ensures !Dropped(g, base, bs + [h.data])
  {
    hide ByteStep, Sum, Geometry.Wrap, FramedAddress, Body, WordsCompleted;
    var b := h.data;
    ByteStepHeader(g, h);
    BodyShort(bs, b);
    WrapAdd(g, base, WordOf(0, b));
    if |bs| == 2 {
      WrapAdd(g, base + WordOf(0, bs[1]), b);
      assert WordOf(b, bs[1]) == WordOf(0, bs[1]) + b;
    } else if |bs| == 3 {
      NoWords(bs[0]);
    }
  }

  /** What a data byte does to the address, and when the guard lets it through. */
  lemma DataByteAddress(g: Geometry, h: Hex)
    requires g.pageSize > 0 && h.state.ReadData?
    ensures var h' := ByteStep(g, h).0;
            && (h'.state.WaitLine? <==> h.curr >= g.bootStart)
            && (h.curr < g.bootStart ==>
                  h'.curr == if h.recordType == 0 && (h.dataRem - 1) % 2 == 0
                             then g.Wrap(h.curr + 2) else h.curr)
  {
    hide WordOf, Geometry.Wrap;
    var h1 := h.(checksum := (h.checksum + h.data) % 0x100, dataRem := (h.dataRem - 1) % 0x100);
    DataWordFields(g, h1, WordOf(h1.prevData, h1.data));
    hide DataWord;
  }

  lemma BodyOf(bs: seq<Byte>, b: Byte)
    requires |bs| >= 4
    ensures Body(bs + [b]) == if |bs| < BodyLength(bs) then bs + [b] else Body(bs)
    ensures |bs| <= BodyLength(bs) ==> Body(bs) == bs
    ensures |Body(bs)| >= 4
  {
    BodyAppend(bs, b);
  }

  lemma DroppedAppend(g: Geometry, base: nat, bs: seq<Byte>, b: Byte)
    requires |bs| >= 4
    ensures Dropped(g, base, bs + [b]) <==>
            Dropped(g, base, bs) || (|bs| < BodyLength(bs) && AddressAt(g, base, bs, |bs| - 4) >= g.bootStart)
  {
    hide Body, Geometry.Wrap, WordOf, WordsCompleted;
    BodyOf(bs, b);
    assert forall j: nat :: AddressAt(g, base, bs + [b], j) == AddressAt(g, base, bs, j);
  }

  lemma AddressStep(g: Geometry, base: nat, bs: seq<Byte>, b: Byte)
    requires 4 <= |bs| < BodyLength(bs)
    ensures AddressAt(g, base, bs + [b], |bs| - 3) ==
            if bs[3] == 0 && (BodyLength(bs) - |bs| - 1) % 2 == 0
            then g.Wrap(AddressAt(g, base, bs, |bs| - 4) + 2) else AddressAt(g, base, bs, |bs| - 4)
  {
    hide Geometry.Wrap, WordOf, WordsCompleted;
    WordsStep(bs[0], |bs| - 4);
    WrapAdd(g, base + WordOf(bs[2], bs[1]) + 2 * WordsCompleted(bs[0], |bs| - 4), 2);
  }

  /** One byte: the guard cuts the record off exactly as `Dropped` says, and else the address stays right. */
  lemma ByteStepAddressed(g: Geometry, h: Hex, base: nat, bs: seq<Byte>)
    requires g.Valid() && Framed(g, h, bs) && Addressed(g, h, base, bs) && !Dropped(g, base, bs)
    ensures var h' := ByteStep(g, h).0;
            if Dropped(g, base, bs + [h.data]) then h'.state.WaitLine?
            else !h'.state.WaitLine? && Addressed(g, h', base, bs + [h.data])
  {
    hide ByteStep, Dropped, Body, AddressAt, Framed, BodyLength;
    if |bs| < 4 {
      HeaderAddressed(g, h, base, bs);
    } else {
      FrameState(g, h, bs);
      BodyOf(bs, h.data);
      DroppedAppend(g, base, bs, h.data);
      SameHeader(g, base, bs, h.data);
      if |bs| < BodyLength(bs) {
        DataByteAddress(g, h);
        AddressStep(g, base, bs, h.data);
      } else {
        ChecksumKeepsAddress(g, h);
      }
    }
  }

  /** What the parser expects after the header. */
  lemma FrameState(g: Geometry, h: Hex, bs: seq<Byte>)
    requires Framed(g, h, bs) && |bs| >= 4
    ensures h.recordType == bs[3]
    ensures if |bs| < BodyLength(bs) then h.state.ReadData? && h.dataRem as nat == BodyLength(bs) - |bs|
            else h.state.Checksum?
  {
    hide Sum, Body, FramedAddress;
  }

  lemma SameHeader(g: Geometry, base: nat, bs: seq<Byte>, b: Byte)
    requires |bs| >= 4
    ensures forall j: nat :: AddressAt(g, base, bs + [b], j) == AddressAt(g, base, bs, j)
  {
  }

  lemma ChecksumKeepsAddress(g: Geometry, h: Hex)
    requires g.pageSize > 0 && h.state.Checksum?
    ensures ByteStep(g, h).0.curr == h.curr && ByteStep(g, h).0.state.Checksum?
  {
  }

  // ---------- every reachable state ----------

  /** The line being received: the base address in force when its ':' came, and what came since. */
  datatype Line = NoLine | Line(base: nat, text: string)

  /** The parser's state is that of the line: waiting if there is none or it has been dropped, else framed by it. */
  ghost predicate InLine(g: Geometry, h: Hex, line: Line) {
    match line
    case NoLine => h.state.WaitLine?
    case Line(base, text) =>
      if Dropped(g, base, RecordBytes(text)) then h.state.WaitLine?
      else FramedDigits(g, h, Digits(text)) && Addressed(g, h, base, RecordBytes(text))
  }

  lemma ColonInLine(g: Geometry, h: Hex)
    requires g.Valid() && h.baseAddress == g.Wrap(h.baseAddress)
    ensures InLine(g, StartLine(h, ':'), Line(h.baseAddress, []))
  {
  }

  lemma WaitingStep(g: Geometry, h: Hex, c: char)
    requires g.pageSize > 0 && h.state.WaitLine? && c != ':'
    ensures Step(g, h, c).0.state.WaitLine?
  {
  }

  lemma DigitsOnly(g: Geometry, h: Hex, c: char)
    requires g.pageSize > 0 && !h.state.WaitLine? && c != ':' && HexToDecimal(c) < 0
    ensures Step(g, h, c).0 == h
  {
  }

  lemma DroppedStays(g: Geometry, base: nat, ns: seq<Nibble>, d: Nibble)
    requires Dropped(g, base, PairUp(ns))
    ensures Dropped(g, base, PairUp(ns + [d]))
  {
    PairUpAppend(ns, d);
    hide PairUp, ByteOf;
    if |ns| % 2 == 1 {
      DroppedAppend(g, base, PairUp(ns), ByteOf(Last(ns), d));
    }
  }

  lemma DigitInLine(g: Geometry, h: Hex, base: nat, ns: seq<Nibble>, c: char)
    requires g.Valid() && c != ':' && HexToDecimal(c) >= 0
    requires FramedDigits(g, h, ns) && Addressed(g, h, base, PairUp(ns)) && !Dropped(g, base, PairUp(ns))
    ensures var h' := Step(g, h, c).0;
            var bs := PairUp(ns + [HexToDecimal(c)]);
            if Dropped(g, base, bs) then h'.state.WaitLine?
            else FramedDigits(g, h', ns + [HexToDecimal(c)]) && Addressed(g, h', base, bs)
  {
    hide Step, ByteStep, Framed, Dropped, Addressed, PairUp, ByteOf;
    var d: Nibble := HexToDecimal(c);
    NotWaiting(g, h, PairUp(ns));
    StepFramed(g, h, ns, c);
    DigitStep(g, h, c);
    PairUpAppend(ns, d);
    var h1 := WithDigit(h, d);
    SameFrame(g, h, d, PairUp(ns));
    SameAddress(g, h, d, base, PairUp(ns));
    if h.readMSB {
      CompletedByte(h.data, Last(ns), d);
      ByteStepAddressed(g, h1, base, PairUp(ns));
    } else {
      NotWaiting(g, h1, PairUp(ns));
    }
  }

  lemma NotWaiting(g: Geometry, h: Hex, bs: seq<Byte>)
    requires Framed(g, h, bs)
    ensures !h.state.WaitLine?
  {
  }

  lemma SameAddress(g: Geometry, h: Hex, d: Nibble, base: nat, bs: seq<Byte>)
    requires Addressed(g, h, base, bs)
    ensures Addressed(g, WithDigit(h, d), base, bs)
  {
  }

  lemma CharacterInLine(g: Geometry, h: Hex, line: Line, c: char)
    requires g.Valid() && InLine(g, h, line) && c != ':'
    ensures InLine(g, Step(g, h, c).0, if line.NoLine? then NoLine else Line(line.base, line.text + [c]))
  {
    hide Step, FramedDigits, Addressed, Dropped, PairUp;
    if line.NoLine? || Dropped(g, line.base, RecordBytes(line.text)) {
      WaitingStep(g, h, c);
      if line.Line? {
        DigitsAppend(line.text, c);
        if HexToDecimal(c) >= 0 {
          DroppedStays(g, line.base, Digits(line.text), HexToDecimal(c));
        }
      }
    } else {
      DigitsAppend(line.text, c);
      FramedNotWaiting(g, h, Digits(line.text));
      if HexToDecimal(c) >= 0 {
        DigitInLine(g, h, line.base, Digits(line.text), c);
      } else {
        DigitsOnly(g, h, c);
      }
    }
  }

  lemma FramedNotWaiting(g: Geometry, h: Hex, ns: seq<Nibble>)
    requires FramedDigits(g, h, ns)
    ensures !h.state.WaitLine?
  {
  }

  lemma Waiting(g: Geometry, h: Hex)
    requires h.state.WaitLine?
    ensures InLine(g, h, NoLine)
  {
  }

  lemma ColonStep(g: Geometry, h: Hex)
    requires g.pageSize > 0
    ensures Step(g, h, ':') == (StartLine(h, ':'), [])
  {
  }
}
