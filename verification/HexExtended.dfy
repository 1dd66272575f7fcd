/** Extended address records, from their text to the address counter of the next line. */
module HexExtended {
  import opened Words
  import opened Flash
  import opened HexParser
  import opened HexFraming
  import opened HexImage
  import opened HexRecords

  /** The state after the bytes `bs` of a record of extended address type whose address lies below the boot section. */
  ghost predicate Taking(g: Geometry, m: Machine, bs: seq<Byte>) {
    && g.Valid() && Framed(g, m.hex, bs) && !m.hex.readMSB
    && |bs| >= 4 && bs[3] != 0 && m.hex.curr < g.bootStart
  }

  lemma HeadCounter(g: Geometry, h: Hex, bs: seq<Byte>)
    requires Framed(g, h, bs) && |bs| == 4
    ensures h.curr == g.Wrap(h.baseAddress + WordOf(bs[2], bs[1]))
  {
    hide Sum, Geometry.Wrap, WordOf, WordsCompleted;
    NoWords(bs[0]);
  }

  lemma HeaderTaking(g: Geometry, m: Machine, bs: seq<Byte>)
    requires g.Valid() && Framed(g, m.hex, bs) && !m.hex.readMSB && |bs| == 4 && bs[3] != 0
    requires g.Wrap(m.hex.baseAddress + WordOf(bs[2], bs[1])) < g.bootStart
    ensures Taking(g, m, bs)
  {
    hide Framed, Geometry.Wrap, Geometry.Valid, WordOf;
    HeadCounter(g, m.hex, bs);
  }

  lemma FieldsOf(h: Hex, l: Loader)
    requires l == Loader(NoLine, h.baseAddress, h.prevData, h.pageStart, h.dirty, h.run, [])
    ensures SameFields(h, l)
  {
  }

  /** A data byte of such a record: the first of a pair is kept, the second sets the base address. */
  lemma DataByteTaking(g: Geometry, m: Machine, bs: seq<Byte>, b: Byte)
    requires Taking(g, m, bs) && |bs| < BodyLength(bs) && (bs[3] == 2 || bs[3] == 4)
    ensures var m' := MByte(g, m, b);
            && Taking(g, m', bs + [b])
            && if (BodyLength(bs) - |bs|) % 2 == 0 then m'.hex.prevData == b && m'.hex.baseAddress == m.hex.baseAddress
               else m'.hex.baseAddress
                    == Reduced(g, (if bs[3] == 2 then 16 else 65536) * (256 * (b as int) + m.hex.prevData))
  {
    hide ByteStep, Framed, BodyLength, Reduced, WordTaken, Geometry.Wrap;
    var h := m.hex.(data := b);
    FrameState(g, m.hex, bs);
    PageSizePositive(g);
    ByteFramed(g, m, bs, b);
    var l := Loader(NoLine, h.baseAddress, h.prevData, h.pageStart, h.dirty, h.run, []);
    FieldsOf(h, l);
    DataByteEffect(g, h, l);
    DataByteAddress(g, h);
  }

  lemma ChecksumTaking(g: Geometry, m: Machine, bs: seq<Byte>, b: Byte)
    requires Taking(g, m, bs) && |bs| >= BodyLength(bs)
    ensures MByte(g, m, b).hex.baseAddress == m.hex.baseAddress
  {
    hide Framed, BodyLength, Closed;
    var h := m.hex.(data := b);
    FrameState(g, m.hex, bs);
    PageSizePositive(g);
    var l := Loader(NoLine, h.baseAddress, h.prevData, h.pageStart, h.dirty, h.run, []);
    FieldsOf(h, l);
    ChecksumEffect(g, h, l);
    FlushTaken(g, h, l);
    hide ByteStep;
  }

  lemma TakingBetween(g: Geometry, m: Machine, bs: seq<Byte>)
    requires Taking(g, m, bs)
    ensures BetweenBytes(m.hex) && g.pageSize > 0
  {
  }

  lemma ColonCounts(g: Geometry, m: Machine)
    requires g.pageSize > 0
    ensures MRun(g, m, [':']).hex.curr == m.hex.baseAddress
  {
    MRunOne(g, m, ':');
  }

  /**
   * The text of an extended segment (type 02) or linear (type 04) address record whose own address lies below the boot
   * section makes the next line start at 16 or 65536 times the word of its two bytes, low byte first.
   */
  lemma ExtendedRecordFed(g: Geometry, m: Machine, addr: Word, kind: Byte, lo: Byte, hi: Byte)
    requires g.Valid() && (kind == 2 || kind == 4) && Reduced(g, m.hex.baseAddress + addr) < g.bootStart
    ensures MRun(g, m, RecordText(addr, kind, [lo, hi]) + [':']).hex.curr
         == Reduced(g, (if kind == 2 then 16 else 65536) * (256 * (hi as int) + lo))
  {
    hide MRun, HexText, Taking, Framed, RecordText, RecordHead, CheckByte, Reduced, BodyLength, MByte, BetweenBytes;
    hide Geometry.Valid, Geometry.Wrap;
    PageSizePositive(g);
    var data: seq<Byte> := [lo, hi];
    var head, check := RecordHead(addr, kind, 2), CheckByte(RecordBody(addr, kind, data));
    HeadFields(addr, kind, 2);
    RecordParts(addr, kind, data);
    MRunConcat(g, m, RecordText(addr, kind, data), [':']);
    var m1 := HeaderFed(g, m, head, data + [check]);
    WrapReduces(g, m.hex.baseAddress + addr);
    HeaderTaking(g, m1, head);
    LengthOf(head);
    LengthOf(head + [lo]);
    LengthOf(head + [lo] + [hi]);
    assert data + [check] == [lo, hi, check];
    TakingBetween(g, m1, head);
    FeedCons(g, m1, [lo, hi, check]);
    assert [lo, hi, check][1..] == [hi, check] && [hi, check][1..] == [check] && [check][1..] == [];
    var m2 := MByte(g, m1, lo);
    DataByteTaking(g, m1, head, lo);
    TakingBetween(g, m2, head + [lo]);
    FeedCons(g, m2, [hi, check]);
    var m3 := MByte(g, m2, hi);
    DataByteTaking(g, m2, head + [lo], hi);
    TakingBetween(g, m3, head + [lo] + [hi]);
    FeedCons(g, m3, [check]);
    ChecksumTaking(g, m3, head + [lo] + [hi], check);
    NoText(g, MByte(g, m3, check));
    ColonCounts(g, MByte(g, m3, check));
  }

  lemma NoText(g: Geometry, m: Machine)
    requires g.pageSize > 0
    ensures MRun(g, m, HexText([])) == m
  {
    MRunEmpty(g, m);
  }

  /** The standard's segment record for 0x10000 gives 0x100 on a part with 128 KB: its bytes are taken low byte first. */
  lemma SegmentExample(g: Geometry, m: Machine)
    requires g.Valid() && g.flashSize == 0x2_0000 && g.bootStart > 0 && m.hex.baseAddress == 0
    ensures MRun(g, m, ":020000021000EC" + [':']).hex.curr == 0x100
  {
    var data: seq<Byte> := [0x10, 0x00];
    ExtendedRecordFed(g, m, 0, 2, 0x10, 0x00);
    ExampleText(data);
    hide MRun;
  }

  lemma TextNext(b: Byte, rest: seq<Byte>)
    ensures HexText([b] + rest) == HexByte(b) + HexText(rest)
  {
    assert ([b] + rest)[1..] == rest;
  }

  lemma ExampleText(data: seq<Byte>)
    requires data == [0x10, 0x00]
    ensures RecordText(0, 2, data) == ":020000021000EC"
  {
    hide HexText, Sum;
    var none: seq<Byte> := [];
    var body := RecordBody(0, 2, data);
    assert body == none + [2] + [0] + [0] + [2] + [0x10] + [0];
    SumAppend(none, 2);
    SumAppend(none + [2], 0);
    SumAppend(none + [2] + [0], 0);
    SumAppend(none + [2] + [0] + [0], 2);
    SumAppend(none + [2] + [0] + [0] + [2], 0x10);
    SumAppend(none + [2] + [0] + [0] + [2] + [0x10], 0);
    NoBytes();
    assert CheckByte(body) == 0xEC;
    assert body + [0xEC] == [2] + ([0] + ([0] + ([2] + ([0x10] + ([0] + ([0xEC] + none))))));
    TextNext(0xEC, none);
    TextNext(0, [0xEC] + none);
    TextNext(0x10, [0] + ([0xEC] + none));
    TextNext(2, [0x10] + ([0] + ([0xEC] + none)));
    TextNext(0, [2] + ([0x10] + ([0] + ([0xEC] + none))));
    TextNext(0, [0] + ([2] + ([0x10] + ([0] + ([0xEC] + none)))));
    TextNext(2, [0] + ([0] + ([2] + ([0x10] + ([0] + ([0xEC] + none))))));
  }

  lemma NoBytes()
    ensures Sum([]) == 0 && HexText([]) == []
  {
  }
}
