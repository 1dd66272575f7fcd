/** From the text of an image to the image in flash: the end-to-end theorem of the HEX bootloader. */
module HexImage {
  import opened Words
  import opened Flash
  import opened PageBuffer
  import opened HexParser
  import opened HexFraming
  import HexStream

  // ---------- the text of an image ----------

  function HexDigit(n: Nibble): (c: char)
    ensures HexToDecimal(c) == n
  {
    if n < 10 then '0' + n as char else 'A' + (n - 10) as char
  }

  function HexByte(b: Byte): string {
    [HexDigit(b / 0x10), HexDigit(b % 0x10)]
  }

  function HexText(bs: seq<Byte>): string {
    if bs == [] then [] else HexByte(bs[0]) + HexText(bs[1..])
  }

  /** The byte that brings the sum of a record to zero. */
  function CheckByte(body: seq<Byte>): Byte {
    (0x100 - Sum(body) % 0x100) % 0x100
  }

  /** Count, address and type, as the bytes of a record carry them. */
  function RecordHead(addr: nat, kind: Byte, count: nat): (head: seq<Byte>)
    ensures |head| == 4
  {
    [count % 0x100, addr / 0x100 % 0x100, addr % 0x100, kind]
  }

  function RecordBody(addr: nat, kind: Byte, data: seq<Byte>): seq<Byte> {
    RecordHead(addr, kind, |data|) + data
  }

  function RecordText(addr: nat, kind: Byte, data: seq<Byte>): string {
    var body := RecordBody(addr, kind, data);
    [':'] + HexText(body + [CheckByte(body)])
  }

  /** Chunks of the image as data records can carry them: whole words, at most 255 bytes. */
  ghost predicate Chunks(chunks: seq<seq<Byte>>) {
    forall i | 0 <= i < |chunks| :: 2 <= |chunks[i]| < 0x100 && |chunks[i]| % 2 == 0
  }

  function Flatten(chunks: seq<seq<Byte>>): seq<Byte> {
    if chunks == [] then [] else chunks[0] + Flatten(chunks[1..])
  }

  /** Data records at consecutive addresses from `addr`. */
  function DataRecords(addr: nat, chunks: seq<seq<Byte>>): string
    decreases |chunks|
  {
    if chunks == [] then []
    else RecordText(addr, 0, chunks[0]) + DataRecords(addr + |chunks[0]|, chunks[1..])
  }

  /** The file: the image in records from address 0, then an end-of-file record. */
  function FileText(chunks: seq<seq<Byte>>, endAddr: Word): string {
    DataRecords(0, chunks) + RecordText(endAddr, 1, [])
  }

  // ---------- feeding whole bytes ----------

  function MByte(g: Geometry, m: Machine, b: Byte): Machine
    requires g.pageSize > 0
  {
    var (h, ops) := ByteStep(g, m.hex.(data := b));
    Machine(h, ExecAll(g, m.dev, ops))
  }

  ghost predicate BetweenBytes(h: Hex) {
    !h.state.WaitLine? && !h.readMSB
  }

  lemma ByteDigits(data: Byte, b: Byte)
    ensures (data * 0x10 % 0x100 + b / 0x10) * 0x10 % 0x100 + b % 0x10 == b
  {
    var high, low := b / 0x10, data % 0x10;
    assert data * 0x10 % 0x100 == 0x10 * low;
    assert (0x10 * low + high) * 0x10 == 0x100 * low + 0x10 * high;
  }

  lemma FeedByte(g: Geometry, m: Machine, b: Byte)
    requires g.pageSize > 0 && BetweenBytes(m.hex)
    ensures MRun(g, m, HexByte(b)) == MByte(g, m, b)
    ensures MByte(g, m, b).hex.readMSB == m.hex.readMSB
  {
    hide ByteStep, Run;
    var hi, lo := HexDigit(b / 0x10), HexDigit(b % 0x10);
    assert HexByte(b) == [hi] + [lo];
    MRunConcat(g, m, [hi], [lo]);
    MRunOne(g, m, hi);
    var m1 := MRun(g, m, [hi]);
    DigitStep(g, m.hex, hi);
    assert m1 == Machine(WithDigit(m.hex, b / 0x10), m.dev);
    MRunOne(g, m1, lo);
    DigitStep(g, m1.hex, lo);
    ByteDigits(m.hex.data, b);
    assert WithDigit(m1.hex, b % 0x10) == m.hex.(data := b);
    ByteStepKeepsNibble(g, m.hex.(data := b));
  }

  lemma FeedCons(g: Geometry, m: Machine, bs: seq<Byte>)
    requires g.pageSize > 0 && BetweenBytes(m.hex) && bs != []
    ensures MRun(g, m, HexText(bs)) == MRun(g, MByte(g, m, bs[0]), HexText(bs[1..]))
  {
    MRunConcat(g, m, HexByte(bs[0]), HexText(bs[1..]));
    FeedByte(g, m, bs[0]);
  }

  // ---------- a record's header ----------

  /** What the header leaves alone: everything but the frame fields. */
  ghost predicate SameTarget(m: Machine, m': Machine) {
    && m'.dev == m.dev
    && m'.hex.pageStart == m.hex.pageStart
    && m'.hex.dirty == m.hex.dirty
    && m'.hex.run == m.hex.run
    && m'.hex.baseAddress == m.hex.baseAddress
  }

  lemma ColonStarts(g: Geometry, m: Machine)
    requires g.Valid()
    ensures var m' := MRun(g, m, [':']);
            Framed(g, m'.hex, []) && !m'.hex.readMSB && SameTarget(m, m')
  {
  }

  lemma HeaderByteFed(g: Geometry, m: Machine, bs: seq<Byte>, b: Byte)
    requires g.Valid() && Framed(g, m.hex, bs) && |bs| < 4
    ensures var m' := MByte(g, m, b);
            Framed(g, m'.hex, bs + [b]) && m'.hex.readMSB == m.hex.readMSB && SameTarget(m, m')
  {
    var h := m.hex.(data := b);
    assert Framed(g, h, bs);
    HeaderByteFramed(g, h, bs);
    ByteStepHeader(g, h);
    ByteStepKeepsNibble(g, h);
    assert ByteStep(g, h).1 == [];
    assert ExecAll(g, m.dev, []) == m.dev;
  }

  lemma FramedBetween(g: Geometry, h: Hex, bs: seq<Byte>)
    requires Framed(g, h, bs) && !h.readMSB
    ensures BetweenBytes(h)
  {
  }

  lemma {:induction false} HeaderBytesFed(g: Geometry, m: Machine, seen: seq<Byte>, bs: seq<Byte>, rest: seq<Byte>)
    returns (m': Machine)
    requires g.Valid() && |seen| + |bs| == 4
    requires Framed(g, m.hex, seen) && !m.hex.readMSB
    ensures MRun(g, m, HexText(bs + rest)) == MRun(g, m', HexText(rest))
    ensures Framed(g, m'.hex, seen + bs) && !m'.hex.readMSB && SameTarget(m, m')
    decreases |bs|
  {
    hide MByte, Framed, MRun, BetweenBytes, HexText;
    if bs == [] {
      m' := m;
      assert bs + rest == rest && seen + bs == seen;
    } else {
      FramedBetween(g, m.hex, seen);
      FeedCons(g, m, bs + rest);
      HeaderByteFed(g, m, seen, bs[0]);
      assert (bs + rest)[1..] == bs[1..] + rest;
      assert seen + [bs[0]] + bs[1..] == seen + bs;
      m' := HeaderBytesFed(g, MByte(g, m, bs[0]), seen + [bs[0]], bs[1..], rest);
    }
  }

  /** After ':' and the four header bytes the parser is framed by them and nothing else has changed. */
  lemma HeaderFed(g: Geometry, m: Machine, bs: seq<Byte>, rest: seq<Byte>)
    returns (m': Machine)
    requires g.Valid() && |bs| == 4
    ensures MRun(g, m, [':'] + HexText(bs + rest)) == MRun(g, m', HexText(rest))
    ensures Framed(g, m'.hex, bs) && !m'.hex.readMSB && SameTarget(m, m')
  {
    hide Framed, MRun, HexText;
    MRunConcat(g, m, [':'], HexText(bs + rest));
    ColonStarts(g, m);
    m' := HeaderBytesFed(g, MRun(g, m, [':']), [], bs, rest);
    assert [] + bs == bs;
  }

  // ---------- data words ----------

  ghost predicate Fits(g: Geometry, orig: seq<Byte>, image: seq<Byte>) {
    g.Valid() && |orig| == g.flashSize && |image| <= g.bootStart && |image| % 2 == 0
  }

  /** Flash when the first `k` bytes of the image have been parsed: whole pages are there, a partial one is pending. */
  ghost predicate Stored(g: Geometry, h: Hex, d: Device, orig: seq<Byte>, image: seq<Byte>, k: nat) {
    && Fits(g, orig, image) && k <= |image| && k % 2 == 0
    && var p := g.PageOf(k);
    && h.pageStart == p
    && (h.dirty <==> p < k)
    && |d.flash| == |orig|
    && (forall i | 0 <= i < |orig| ::
          d.flash[i] == if i < p then image[i] else if h.dirty && i < p + g.pageSize then 0xFF else orig[i])
    && (h.dirty ==> Loaded(d.temp, image, p, k))
  }

  /** A completed page reaches the flash as the image has it. */
  lemma PageCommitted(g: Geometry, d: Device, orig: seq<Byte>, image: seq<Byte>, p: nat)
    requires Fits(g, orig, image) && |d.flash| == |orig| && p % g.pageSize == 0 && p + g.pageSize <= |image|
    requires Loaded(d.temp, image, p, p + g.pageSize)
    requires forall i | 0 <= i < |orig| ::
               d.flash[i] == if i < p then image[i] else if i < p + g.pageSize then 0xFF else orig[i]
    ensures var d' := Exec(g, d, WritePage(p));
            && |d'.flash| == |orig|
            && forall i | 0 <= i < |orig| :: d'.flash[i] == if i < p + g.pageSize then image[i] else orig[i]
  {
    assert g.IsPageAddressValid(p);
    hide Loaded, Exec, Fits, Geometry.Valid;
    LoadedPageWritten(g, d, p, image, p, p + g.pageSize);
  }

  /** The page is opened if need be, and the word loaded into it. */
  function Opened(g: Geometry, h: Hex, d: Device, w: Word): Device
    requires g.pageSize > 0
  {
    var d1 := if h.dirty then d else Exec(g, d, ErasePage(h.pageStart));
    Exec(g, d1, FillWord(h.curr, w))
  }

  lemma DataWordExec(g: Geometry, h: Hex, d: Device, w: Word)
    requires g.pageSize > 0
    ensures var (h', ops) := DataWord(g, h, w);
            var h1 := h.(dirty := true, curr := g.Wrap(h.curr + 2));
            var (h2, flush) := FlushPageIfRequired(g, h1);
            h' == h2 && ExecAll(g, d, ops) == ExecAll(g, Opened(g, h, d, w), flush)
  {
  }

  /** Before the flush: page `p` blank, its words up to and including the new one loaded. */
  lemma WordOpened(g: Geometry, h: Hex, d: Device, orig: seq<Byte>, image: seq<Byte>, k: nat)
    requires Stored(g, h, d, orig, image, k) && k + 2 <= |image| && h.curr == k
    ensures var p := g.PageOf(k);
            var d2 := Opened(g, h, d, WordOf(image[k], image[k + 1]));
            && p % 2 == 0 && p <= k < p + g.pageSize
            && Loaded(d2.temp, image, p, k + 2)
            && |d2.flash| == |orig|
            && forall i | 0 <= i < |orig| ::
                 d2.flash[i] == if i < p then image[i] else if i < p + g.pageSize then 0xFF else orig[i]
  {
    hide Geometry.PageOf, TempKey, TempByte;
    var p, w := g.PageOf(k), WordOf(image[k], image[k + 1]);
    PageBounds(g, k);
    PageEven(g, p);
    var d1 := if h.dirty then d else Exec(g, d, ErasePage(p));
    assert Loaded(d1.temp, image, p, k);
    TempKeyOf(g, p, k);
    LoadedWord(d1.temp, image, p, k);
  }

  lemma SamePageStored(g: Geometry, h: Hex, d: Device, orig: seq<Byte>, image: seq<Byte>, k: nat, p: nat)
    requires Fits(g, orig, image) && k <= |image| && k % 2 == 0
    requires h.dirty && h.pageStart == p && g.PageOf(k) == p && p < k && p % 2 == 0
    requires Loaded(d.temp, image, p, k) && |d.flash| == |orig|
    requires forall i | 0 <= i < |orig| ::
               d.flash[i] == if i < p then image[i] else if i < p + g.pageSize then 0xFF else orig[i]
    ensures Stored(g, h, d, orig, image, k)
  {
  }

  lemma NewPageStored(g: Geometry, h: Hex, d: Device, orig: seq<Byte>, image: seq<Byte>, k: nat)
    requires Fits(g, orig, image) && k <= |image| && k % 2 == 0
    requires !h.dirty && h.pageStart == k && g.PageOf(k) == k && |d.flash| == |orig|
    requires forall i | 0 <= i < |orig| :: d.flash[i] == if i < k then image[i] else orig[i]
    ensures Stored(g, h, d, orig, image, k)
  {
  }

  lemma StoredWhere(g: Geometry, h: Hex, d: Device, orig: seq<Byte>, image: seq<Byte>, k: nat)
    requires Stored(g, h, d, orig, image, k)
    ensures h.pageStart == g.PageOf(k) && |d.flash| == |orig|
    ensures h.dirty <==> h.pageStart < k
    ensures Fits(g, orig, image) && g.Valid() && g.pageSize > 0 && k <= |image| && k % 2 == 0
    ensures k + 2 <= |image| ==> g.Wrap(k + 2) == k + 2
  {
  }

  /** The flush after a word: the page is written when it is full. */
  lemma FlushStored(g: Geometry, h: Hex, d: Device, orig: seq<Byte>, image: seq<Byte>, k: nat, p: nat)
    requires Fits(g, orig, image) && k <= |image| && k % 2 == 0
    requires h.dirty && h.curr == k && h.pageStart == p && p % g.pageSize == 0 && p % 2 == 0 && p < k
    requires if k < p + g.pageSize then g.PageOf(k) == p else k == p + g.pageSize && g.PageOf(k) == k
    requires Loaded(d.temp, image, p, k) && |d.flash| == |orig|
    requires forall i | 0 <= i < |orig| ::
               d.flash[i] == if i < p then image[i] else if i < p + g.pageSize then 0xFF else orig[i]
    ensures var (h', flush) := FlushPageIfRequired(g, h);
            Stored(g, h', ExecAll(g, d, flush), orig, image, k) && h'.curr == k
  {
    hide Stored, Loaded, Geometry.PageOf, Exec;
    if k < p + g.pageSize {
      SamePageStored(g, h, d, orig, image, k, p);
    } else {
      PageCommitted(g, d, orig, image, p);
      ExecAllOne(g, d, WritePage(p));
      NewPageStored(g, h.(pageStart := k, dirty := false), Exec(g, d, WritePage(p)), orig, image, k);
    }
  }

  /** One data word of the image: from `k` bytes stored to `k + 2`. */
  lemma WordStored(g: Geometry, h: Hex, d: Device, orig: seq<Byte>, image: seq<Byte>, k: nat)
    requires Stored(g, h, d, orig, image, k) && k + 2 <= |image| && h.curr == k
    ensures var (h', ops) := DataWord(g, h, WordOf(image[k], image[k + 1]));
            Stored(g, h', ExecAll(g, d, ops), orig, image, k + 2) && h'.curr == k + 2
  {
    hide Stored, Opened, DataWord, Loaded, Fits, Geometry.Valid, Geometry.Wrap, Geometry.PageOf;
    hide FlushPageIfRequired, ExecAll;
    StoredWhere(g, h, d, orig, image, k);
    var p, w := g.PageOf(k), WordOf(image[k], image[k + 1]);
    var h1 := h.(dirty := true, curr := g.Wrap(h.curr + 2));
    DataWordExec(g, h, d, w);
    WordOpened(g, h, d, orig, image, k);
    NextWordPage(g, k);
    PageBounds(g, k);
    FlushStored(g, h1, Opened(g, h, d, w), orig, image, k + 2, p);
  }

  // ---------- whole records ----------

  /** The parser has taken the bytes `bs` of a data record, the device the first `k` bytes of the image. */
  ghost predicate Receiving(g: Geometry, m: Machine, bs: seq<Byte>, orig: seq<Byte>, image: seq<Byte>, k: nat) {
    && Framed(g, m.hex, bs)
    && !m.hex.readMSB
    && |bs| >= 4 && bs[3] == 0
    && m.hex.curr == k
    && m.hex.baseAddress == 0
    && Stored(g, m.hex, m.dev, orig, image, k)
  }

  lemma LowByteStep(g: Geometry, h: Hex)
    requires g.Valid() && h.state.ReadData? && h.dataRem % 2 == 0 && h.dataRem > 0 && h.curr < g.bootStart
    ensures ByteStep(g, h) ==
            (h.(checksum := (h.checksum + h.data) % 0x100, dataRem := h.dataRem - 1, prevData := h.data), [])
  {
    hide DataWord;
  }

  lemma HighByteStep(g: Geometry, h: Hex)
    requires g.Valid() && h.state.ReadData? && h.dataRem % 2 == 1 && h.curr < g.bootStart
    requires h.recordType == 0
    ensures var h1 := h.(checksum := (h.checksum + h.data) % 0x100, dataRem := h.dataRem - 1);
            var (h2, ops) := DataWord(g, h1, WordOf(h.prevData, h.data));
            ByteStep(g, h) == (if h.dataRem == 1 then h2.(state := Checksum) else h2, ops)
  {
    hide DataWord, WordOf, Geometry.Wrap;
    var h1 := h.(checksum := (h.checksum + h.data) % 0x100, dataRem := h.dataRem - 1);
    DataWordFields(g, h1, WordOf(h.prevData, h.data));
  }

  lemma ByteFramed(g: Geometry, m: Machine, bs: seq<Byte>, b: Byte)
    requires g.Valid() && Framed(g, m.hex, bs)
    ensures var m' := MByte(g, m, b);
            && m'.hex.readMSB == m.hex.readMSB
            && (m'.hex.state.WaitLine? || Framed(g, m'.hex, bs + [b]))
  {
    var h := m.hex.(data := b);
    assert Framed(g, h, bs);
    hide ByteStep, Framed;
    ByteStepFramed(g, h, bs);
    ByteStepKeepsNibble(g, h);
  }

  lemma StoredSame(g: Geometry, h: Hex, h': Hex, d: Device, orig: seq<Byte>, image: seq<Byte>, k: nat)
    requires Stored(g, h, d, orig, image, k) && h'.pageStart == h.pageStart && h'.dirty == h.dirty
    ensures Stored(g, h', d, orig, image, k)
  {
  }

  lemma ReceivingBounds(g: Geometry, m: Machine, bs: seq<Byte>, orig: seq<Byte>, image: seq<Byte>, k: nat)
    requires Receiving(g, m, bs, orig, image, k)
    ensures g.Valid() && |image| <= g.bootStart && Framed(g, m.hex, bs) && m.hex.curr == k && m.hex.baseAddress == 0
    ensures Stored(g, m.hex, m.dev, orig, image, k) && |bs| >= 4 && bs[3] == 0 && !m.hex.readMSB
  {
  }

  lemma LowByteFed(g: Geometry, m: Machine, bs: seq<Byte>, orig: seq<Byte>, image: seq<Byte>, k: nat)
    requires Receiving(g, m, bs, orig, image, k) && k < |image|
    requires m.hex.state.ReadData? && m.hex.dataRem % 2 == 0
    ensures var m' := MByte(g, m, image[k]);
            && Receiving(g, m', bs + [image[k]], orig, image, k)
            && m'.hex.state.ReadData? && m'.hex.dataRem == m.hex.dataRem - 1
            && m'.hex.prevData == image[k] && m'.hex.recordType == 0 && m'.hex.run == m.hex.run
  {
    var b := image[k];
    var h := m.hex.(data := b);
    assert m.hex.dataRem > 0 && k < g.bootStart && h.recordType == 0;
    ByteFramed(g, m, bs, b);
    hide ByteStep, Framed, Loaded, Geometry.PageOf;
    LowByteStep(g, h);
    StoredSame(g, m.hex, MByte(g, m, b).hex, m.dev, orig, image, k);
    assert ExecAll(g, m.dev, []) == m.dev;
  }

  lemma HighByteFed(g: Geometry, m: Machine, bs: seq<Byte>, orig: seq<Byte>, image: seq<Byte>, k: nat)
    requires Receiving(g, m, bs, orig, image, k) && k + 2 <= |image|
    requires m.hex.state.ReadData? && m.hex.dataRem % 2 == 1
    requires m.hex.prevData == image[k] && m.hex.recordType == 0
    ensures var m' := MByte(g, m, image[k + 1]);
            && Receiving(g, m', bs + [image[k + 1]], orig, image, k + 2)
            && m'.hex.run == m.hex.run
  {
    hide ByteStep, Framed, Stored, DataWord, Geometry.Valid, FlushPageIfRequired, ExecAll, WordOf, Body, Sum;
    ReceivingBounds(g, m, bs, orig, image, k);
    var b := image[k + 1];
    var h := m.hex.(data := b);
    ByteFramed(g, m, bs, b);
    var h1 := h.(checksum := (h.checksum + h.data) % 0x100, dataRem := h.dataRem - 1);
    HighByteStep(g, h);
    StoredSame(g, m.hex, h1, m.dev, orig, image, k);
    WordStored(g, h1, m.dev, orig, image, k);
    DataWordFields(g, h1, WordOf(image[k], b));
    var (h2, ops) := DataWord(g, h1, WordOf(image[k], b));
    StoredSame(g, h2, MByte(g, m, b).hex, ExecAll(g, m.dev, ops), orig, image, k + 2);
  }

  lemma InDataState(g: Geometry, m: Machine, bs: seq<Byte>, orig: seq<Byte>, image: seq<Byte>, k: nat)
    requires Receiving(g, m, bs, orig, image, k) && BodyLength(bs) > |bs|
    ensures g.Valid()
    ensures m.hex.state.ReadData? && m.hex.dataRem == BodyLength(bs) - |bs| && m.hex.recordType == 0
    ensures BetweenBytes(m.hex)
  {
  }

  lemma ReceivingBetween(g: Geometry, m: Machine, bs: seq<Byte>, orig: seq<Byte>, image: seq<Byte>, k: nat)
    requires Receiving(g, m, bs, orig, image, k)
    ensures BetweenBytes(m.hex)
  {
  }

  lemma WordFed(g: Geometry, m: Machine, bs: seq<Byte>, orig: seq<Byte>, image: seq<Byte>, k: nat, tail: seq<Byte>)
    returns (m': Machine)
    requires Receiving(g, m, bs, orig, image, k) && k + 2 <= |image|
    requires BodyLength(bs) >= |bs| + 2 && (BodyLength(bs) - |bs|) % 2 == 0
    ensures MRun(g, m, HexText([image[k], image[k + 1]] + tail)) == MRun(g, m', HexText(tail))
    ensures Receiving(g, m', bs + [image[k], image[k + 1]], orig, image, k + 2) && m'.hex.run == m.hex.run
  {
    hide MRun, HexText, Receiving, BetweenBytes, MByte;
    var lo, hi := image[k], image[k + 1];
    InDataState(g, m, bs, orig, image, k);
    FeedCons(g, m, [lo, hi] + tail);
    assert ([lo, hi] + tail)[1..] == [hi] + tail;
    LowByteFed(g, m, bs, orig, image, k);
    var m1 := MByte(g, m, lo);
    ReceivingBetween(g, m1, bs + [lo], orig, image, k);
    FeedCons(g, m1, [hi] + tail);
    assert ([hi] + tail)[1..] == tail;
    HighByteFed(g, m1, bs + [lo], orig, image, k);
    m' := MByte(g, m1, hi);
    assert bs + [lo] + [hi] == bs + [lo, hi];
  }

  /** The data bytes of a record, word by word. */
  lemma {:induction false} DataFed(g: Geometry, m: Machine, bs: seq<Byte>, orig: seq<Byte>, image: seq<Byte>,
                                   k: nat, n: nat, rest: seq<Byte>)
    returns (m': Machine)
    requires Receiving(g, m, bs, orig, image, k) && k + n <= |image| && n % 2 == 0
    requires |bs| >= 1 && BodyLength(bs) == |bs| + n
    ensures MRun(g, m, HexText(image[k..k + n] + rest)) == MRun(g, m', HexText(rest))
    ensures Receiving(g, m', bs + image[k..k + n], orig, image, k + n) && m'.hex.run == m.hex.run
    decreases n
  {
    hide MRun, HexText, Receiving;
    if n == 0 {
      m' := m;
      assert image[k..k + n] + rest == rest && bs + image[k..k + n] == bs;
    } else {
      var word, tail := [image[k], image[k + 1]], image[k + 2..k + 2 + (n - 2)] + rest;
      assert image[k..k + n] + rest == word + tail;
      var m1 := WordFed(g, m, bs, orig, image, k, tail);
      assert bs + word + image[k + 2..k + 2 + (n - 2)] == bs + image[k..k + n];
      m' := DataFed(g, m1, bs + word, orig, image, k + 2, n - 2, rest);
    }
  }

  /** The right checksum byte after a complete body flushes, and stops the loader at the end of the file. */
  lemma ChecksumFed(g: Geometry, m: Machine, body: seq<Byte>)
    requires g.Valid() && Framed(g, m.hex, body) && |body| == BodyLength(body) && !m.hex.readMSB
    ensures var m' := MRun(g, m, HexText([CheckByte(body)]));
            var (h1, ops) := FlushPageIfRequired(g, m.hex);
            && m'.dev == ExecAll(g, m.dev, ops)
            && m'.hex.pageStart == h1.pageStart && m'.hex.dirty == h1.dirty
            && m'.hex.baseAddress == m.hex.baseAddress
            && m'.hex.run == (m.hex.run && body[3] != 1)
  {
    var b := CheckByte(body);
    assert Body(body) == body;
    assert b == (0x100 - m.hex.checksum) % 0x100;
    assert m.hex.state.Checksum? && m.hex.recordType == body[3];
    hide Framed, MRun, Sum, Geometry.PageOf, Body, CheckByte;
    FeedCons(g, m, [b]);
    assert [b][1..] == [] && HexText([]) == [];
    MRunEmpty(g, MByte(g, m, b));
  }

  lemma MRunEmpty(g: Geometry, m: Machine)
    requires g.pageSize > 0
    ensures MRun(g, m, []) == m
  {
  }

  /** `RecordText` as ':', header, data and checksum, each fed in turn. */
  lemma RecordParts(addr: nat, kind: Byte, data: seq<Byte>)
    ensures var body := RecordBody(addr, kind, data);
            RecordText(addr, kind, data)
            == [':'] + HexText(RecordHead(addr, kind, |data|) + (data + [CheckByte(body)]))
  {
    hide HexText, Sum, CheckByte, RecordHead;
    AppendAssoc(RecordHead(addr, kind, |data|), data, [CheckByte(RecordBody(addr, kind, data))]);
  }

  lemma HeadFields(addr: Word, kind: Byte, count: Byte)
    ensures var head := RecordHead(addr, kind, count);
            WordOf(head[2], head[1]) == addr && head[0] == count && head[3] == kind && BodyLength(head) == 4 + count
  {
  }

  /** A line may start: the image is stored up to `k` and no extended address is in force. */
  ghost predicate AtLine(g: Geometry, m: Machine, orig: seq<Byte>, image: seq<Byte>, k: nat) {
    Stored(g, m.hex, m.dev, orig, image, k) && m.hex.baseAddress == 0
  }

  lemma HeaderAddress(g: Geometry, h: Hex, bs: seq<Byte>)
    requires Framed(g, h, bs) && |bs| == 4 && h.baseAddress == 0
    ensures h.curr == WordOf(bs[2], bs[1])
  {
    NoWords(bs[0]);
    assert Body(bs)[..4] == bs;
    hide Sum, Framed;
  }

  lemma AtLineBounds(g: Geometry, m: Machine, orig: seq<Byte>, image: seq<Byte>, k: nat)
    requires AtLine(g, m, orig, image, k)
    ensures g.Valid() && g.pageSize > 0 && k <= |image|
  {
  }

  lemma HeaderReceiving(g: Geometry, m: Machine, m': Machine, bs: seq<Byte>, orig: seq<Byte>, image: seq<Byte>, k: nat)
    requires AtLine(g, m, orig, image, k) && SameTarget(m, m') && !m'.hex.readMSB
    requires |bs| == 4 && Framed(g, m'.hex, bs) && bs[3] == 0 && WordOf(bs[2], bs[1]) == k
    ensures Receiving(g, m', bs, orig, image, k)
  {
    StoredSame(g, m.hex, m'.hex, m.dev, orig, image, k);
    HeaderAddress(g, m'.hex, bs);
    hide Stored, Sum, Framed;
  }

  lemma ReceivedAll(g: Geometry, m: Machine, bs: seq<Byte>, orig: seq<Byte>, image: seq<Byte>, k: nat)
    requires Receiving(g, m, bs, orig, image, k)
    ensures AtLine(g, m, orig, image, k) && Framed(g, m.hex, bs) && !m.hex.readMSB && bs[3] == 0
    ensures FlushPageIfRequired(g, m.hex) == (m.hex, []) && ExecAll(g, m.dev, []) == m.dev
  {
  }

  lemma AtLineSame(g: Geometry, m: Machine, m': Machine, orig: seq<Byte>, image: seq<Byte>, k: nat)
    requires AtLine(g, m, orig, image, k) && m'.dev == m.dev && m'.hex.pageStart == m.hex.pageStart
    requires m'.hex.dirty == m.hex.dirty && m'.hex.baseAddress == m.hex.baseAddress
    ensures AtLine(g, m', orig, image, k)
  {
  }

  /** A whole data record moves the image from `k` to `k + n` bytes. */
  lemma DataRecordFed(g: Geometry, m: Machine, orig: seq<Byte>, image: seq<Byte>, k: nat, n: nat)
    requires AtLine(g, m, orig, image, k) && 2 <= n < 0x100 && n % 2 == 0 && k + n <= |image| && k < 0x1_0000
    ensures var m' := MRun(g, m, RecordText(k, 0, image[k..k + n]));
            AtLine(g, m', orig, image, k + n) && m'.hex.run == m.hex.run
  {
    hide MRun, HexText, Framed, RecordText, RecordHead, AtLine, Receiving, CheckByte, FlushPageIfRequired;
    hide Geometry.Valid, ExecAll, Stored;
    AtLineBounds(g, m, orig, image, k);
    var data := image[k..k + n];
    var body := RecordBody(k, 0, data);
    var head, check := RecordHead(k, 0, |data|), [CheckByte(body)];
    HeadFields(k, 0, n);
    RecordParts(k, 0, data);
    var m1 := HeaderFed(g, m, head, data + check);
    HeaderReceiving(g, m, m1, head, orig, image, k);
    var m2 := DataFed(g, m1, head, orig, image, k, n, check);
    ReceivedAll(g, m2, body, orig, image, k + n);
    ChecksumFed(g, m2, body);
    AtLineSame(g, m2, MRun(g, m2, HexText(check)), orig, image, k + n);
  }

  // ---------- whole files ----------

  lemma FirstChunk(image: seq<Byte>, k: nat, chunks: seq<seq<Byte>>)
    requires k <= |image| && image[k..] == Flatten(chunks) && chunks != [] && Chunks(chunks)
    ensures Chunks(chunks[1..])
    ensures var n := |chunks[0]|;
            && 2 <= n < 0x100 && n % 2 == 0 && k + n <= |image|
            && image[k..k + n] == chunks[0] && image[k + n..] == Flatten(chunks[1..])
  {
  }

  lemma DataRecordsCons(g: Geometry, m: Machine, k: nat, chunks: seq<seq<Byte>>)
    requires g.pageSize > 0 && chunks != []
    ensures MRun(g, m, DataRecords(k, chunks)) ==
            MRun(g, MRun(g, m, RecordText(k, 0, chunks[0])), DataRecords(k + |chunks[0]|, chunks[1..]))
  {
    hide MRun, RecordText;
    MRunConcat(g, m, RecordText(k, 0, chunks[0]), DataRecords(k + |chunks[0]|, chunks[1..]));
  }

  lemma {:induction false} DataRecordsFed(g: Geometry, m: Machine, orig: seq<Byte>, image: seq<Byte>, k: nat,
                                          chunks: seq<seq<Byte>>)
    requires AtLine(g, m, orig, image, k) && Chunks(chunks)
    requires k <= |image| <= 0x1_0000 && image[k..] == Flatten(chunks)
    ensures var m' := MRun(g, m, DataRecords(k, chunks));
            AtLine(g, m', orig, image, |image|) && m'.hex.run == m.hex.run
    decreases |chunks|
  {
    hide AtLine, MRun, RecordText, Geometry.Valid, Chunks;
    AtLineBounds(g, m, orig, image, k);
    if chunks == [] {
      MRunEmpty(g, m);
    } else {
      var n := |chunks[0]|;
      FirstChunk(image, k, chunks);
      DataRecordsCons(g, m, k, chunks);
      hide Flatten, DataRecords;
      DataRecordFed(g, m, orig, image, k, n);
      DataRecordsFed(g, MRun(g, m, RecordText(k, 0, chunks[0])), orig, image, k + n, chunks[1..]);
    }
  }

  /** The end-of-file record flushes at its own address, then stops the loader. */
  lemma EndRecordFed(g: Geometry, m: Machine, endAddr: Word)
    requires g.Valid() && m.hex.baseAddress == 0
    ensures var m' := MRun(g, m, RecordText(endAddr, 1, []));
            var (h1, ops) := FlushPageIfRequired(g, m.hex.(curr := endAddr));
            && m'.dev == ExecAll(g, m.dev, ops)
            && m'.hex.dirty == h1.dirty
            && !m'.hex.run
  {
    hide MRun, HexText, Framed, RecordText, RecordHead, CheckByte, ExecAll, Geometry.PageOf;
    var body := RecordBody(endAddr, 1, []);
    var head, check := RecordHead(endAddr, 1, 0), [CheckByte(body)];
    HeadFields(endAddr, 1, 0);
    RecordParts(endAddr, 1, []);
    assert head + [] == head && [] + check == check;
    var m1 := HeaderFed(g, m, head, check);
    HeaderAddress(g, m1.hex, head);
    ChecksumFed(g, m1, body);
  }

  /** The last page is already written by its own words, or the end-of-file record lies in another page. */
  ghost predicate Committed(g: Geometry, n: nat, endAddr: nat)
    requires g.pageSize > 0
  {
    g.PageOf(n) == n || g.PageOf(endAddr) != g.PageOf(n)
  }

  /** A byte of flash loaded with `image`: its pages hold it, padded with 0xFF, and no other page changes. */
  ghost function ByteLoaded(g: Geometry, orig: seq<Byte>, image: seq<Byte>, i: nat): Byte
    requires g.pageSize > 0 && i < |orig|
  {
    var n := |image|;
    if i < n then image[i]
    else if g.PageOf(n) < n && i < g.PageOf(n) + g.pageSize then 0xFF
    else orig[i]
  }

  ghost predicate ImageLoaded(g: Geometry, orig: seq<Byte>, image: seq<Byte>, flash: seq<Byte>)
    requires g.pageSize > 0
  {
    |flash| == |orig| && forall i | 0 <= i < |orig| :: flash[i] == ByteLoaded(g, orig, image, i)
  }

  /** The last page was erased but never written; everything else is as it should be. */
  ghost predicate LastPageLost(g: Geometry, orig: seq<Byte>, image: seq<Byte>, flash: seq<Byte>)
    requires g.pageSize > 0
  {
    && |flash| == |orig|
    && forall i | 0 <= i < |orig| ::
         flash[i] == if g.PageOf(|image|) <= i < |image| then 0xFF else ByteLoaded(g, orig, image, i)
  }

  /** Bytes `n` and up of a partial page are loaded as 0xFF: the temporary buffer has no word there. */
  lemma PartialPageWritten(g: Geometry, d: Device, orig: seq<Byte>, image: seq<Byte>, p: nat)
    requires Fits(g, orig, image) && |d.flash| == |orig| && p == g.PageOf(|image|) < |image|
    requires Loaded(d.temp, image, p, |image|)
    requires forall i | 0 <= i < |orig| ::
               d.flash[i] == if i < p then image[i] else if i < p + g.pageSize then 0xFF else orig[i]
    ensures ImageLoaded(g, orig, image, Exec(g, d, WritePage(p)).flash)
  {
    PageBounds(g, |image|);
    assert g.IsPageAddressValid(p);
    hide Loaded, Exec, Fits, Geometry.Valid, Geometry.PageOf;
    LoadedPageWritten(g, d, p, image, p, |image|);
  }

  /** From an image completely parsed to the end of the file. */
  lemma EndFlush(g: Geometry, h: Hex, d: Device, orig: seq<Byte>, image: seq<Byte>, endAddr: nat)
    requires Stored(g, h, d, orig, image, |image|)
    ensures var (h', ops) := FlushPageIfRequired(g, h.(curr := endAddr));
            var flash := ExecAll(g, d, ops).flash;
            if Committed(g, |image|, endAddr) then ImageLoaded(g, orig, image, flash)
            else LastPageLost(g, orig, image, flash)
  {
    PageBounds(g, |image|);
    if h.dirty && h.pageStart != g.PageOf(endAddr) {
      ExecAllOne(g, d, WritePage(h.pageStart));
      PartialPageWritten(g, d, orig, image, h.pageStart);
    }
  }

  lemma {:induction false} FlattenEven(chunks: seq<seq<Byte>>)
    requires Chunks(chunks)
    ensures |Flatten(chunks)| % 2 == 0
    decreases |chunks|
  {
    if chunks != [] {
      FlattenEven(chunks[1..]);
    }
  }

  /**
   * Loading an image of any even length that fits below the boot section, in data records of any even sizes,
   * followed by an end-of-file record at any address: the loader stops, and the flash holds the image except
   * that a last partial page is lost when the end-of-file record's address lies in it.
   */
  lemma ImageProgrammed(g: Geometry, m: Machine, chunks: seq<seq<Byte>>, endAddr: Word)
    requires g.Valid() && AtReset(m.hex) && |m.dev.flash| == g.flashSize
    requires Chunks(chunks) && |Flatten(chunks)| <= g.bootStart && |Flatten(chunks)| <= 0x1_0000
    ensures var image, m' := Flatten(chunks), MRun(g, m, FileText(chunks, endAddr));
            && !m'.hex.run
            && if Committed(g, |image|, endAddr) then ImageLoaded(g, m.dev.flash, image, m'.dev.flash)
               else LastPageLost(g, m.dev.flash, image, m'.dev.flash)
  {
    var orig, image := m.dev.flash, Flatten(chunks);
    FlattenEven(chunks);
    MultipleOf(0, g.pageSize);
    assert AtLine(g, m, orig, image, 0);
    assert image[0..] == image;
    DataRecordsFed(g, m, orig, image, 0, chunks);
    var m1 := MRun(g, m, DataRecords(0, chunks));
    MRunConcat(g, m, DataRecords(0, chunks), RecordText(endAddr, 1, []));
    hide MRun, RecordText, DataRecords, Flatten, Stored, Committed, ImageLoaded, LastPageLost, FlushPageIfRequired;
    EndRecordFed(g, m1, endAddr);
    EndFlush(g, m1.hex, m1.dev, orig, image, endAddr);
  }

  lemma LostPageMatters(g: Geometry, orig: seq<Byte>, image: seq<Byte>, flash: seq<Byte>)
    requires g.pageSize > 0 && |image| <= |orig| && LastPageLost(g, orig, image, flash)
    ensures ImageLoaded(g, orig, image, flash) <==> forall i | g.PageOf(|image|) <= i < |image| :: image[i] == 0xFF
  {
    hide Geometry.PageOf;
    if ImageLoaded(g, orig, image, flash) {
      forall i | g.PageOf(|image|) <= i < |image| ensures image[i] == 0xFF {
        assert flash[i] == ByteLoaded(g, orig, image, i);
      }
    }
  }

  /** Exactly when the flash ends up with the image. */
  lemma ImageLoadedExactlyWhen(g: Geometry, m: Machine, chunks: seq<seq<Byte>>, endAddr: Word)
    requires g.Valid() && AtReset(m.hex) && |m.dev.flash| == g.flashSize
    requires Chunks(chunks) && |Flatten(chunks)| <= g.bootStart && |Flatten(chunks)| <= 0x1_0000
    ensures var image := Flatten(chunks);
            ImageLoaded(g, m.dev.flash, image, MRun(g, m, FileText(chunks, endAddr)).dev.flash) <==>
            Committed(g, |image|, endAddr) || forall i | g.PageOf(|image|) <= i < |image| :: image[i] == 0xFF
  {
    var image := Flatten(chunks);
    hide FileText, Flatten, MRun, Geometry.PageOf, Committed, ImageLoaded, LastPageLost;
    ImageProgrammed(g, m, chunks, endAddr);
    if !Committed(g, |image|, endAddr) {
      LostPageMatters(g, m.dev.flash, image, MRun(g, m, FileText(chunks, endAddr)).dev.flash);
    }
  }

  /** The failing case occurs: of a two-byte image with its end-of-file record at address 0 nothing reaches the flash. */
  lemma TwoByteImageIsLost(g: Geometry, m: Machine)
    requires g.Valid() && g.pageSize > 2 && g.bootStart > 0 && AtReset(m.hex) && |m.dev.flash| == g.flashSize
    ensures !ImageLoaded(g, m.dev.flash, [1, 2], MRun(g, m, FileText([[1, 2]], 0)).dev.flash)
  {
    var chunks: seq<seq<Byte>> := [[1, 2]];
    assert chunks[1..] == [] && Flatten(chunks) == [1, 2];
    MultipleOf(0, g.pageSize);
    AlignedApart(g, 0, g.bootStart);
    PageOfUnique(g, 0, 0);
    PageOfUnique(g, 2, 0);
    hide FileText, Flatten, MRun, ImageLoaded;
    ImageLoadedExactlyWhen(g, m, chunks, 0);
    assert Flatten(chunks)[0] != 0xFF;
  }

  /**
   * The usual file: at least one page, end-of-file record at address 0, and any line ends, blanks or other
   * junk between the digits. The image is in flash and the loader stops.
   */
  lemma UsualFileLoaded(g: Geometry, m: Machine, chunks: seq<seq<Byte>>, text: string)
    requires g.Valid() && AtReset(m.hex) && |m.dev.flash| == g.flashSize
    requires Chunks(chunks) && g.pageSize <= |Flatten(chunks)| <= g.bootStart && |Flatten(chunks)| <= 0x1_0000
    requires HexStream.Canonical(text) == HexStream.Canonical(FileText(chunks, 0))
    ensures var m' := MRun(g, m, text);
            !m'.hex.run && ImageLoaded(g, m.dev.flash, Flatten(chunks), m'.dev.flash)
  {
    var n := |Flatten(chunks)|;
    PageBounds(g, n);
    PageBounds(g, 0);
    hide MRun, FileText, Geometry.PageOf, ImageLoaded, HexStream.Canonical;
    ImageProgrammed(g, m, chunks, 0);
    HexStream.JunkIgnored(g, m, text);
    HexStream.JunkIgnored(g, m, FileText(chunks, 0));
  }
}
