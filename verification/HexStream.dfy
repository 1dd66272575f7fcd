/** What the Intel HEX parser guarantees for every character stream, well-formed or not. */
module HexStream {
  import opened Words
  import opened Flash
  import opened HexParser

  // ---------- flash discipline ----------

  /** Page `a` was erased and has not been written since. */
  ghost predicate ErasedSinceWrite(ops: seq<FlashOp>, a: nat) {
    exists j :: 0 <= j < |ops| && ops[j] == ErasePage(a) && forall k | j < k < |ops| :: ops[k] != WritePage(a)
  }

  ghost predicate AllowedAfter(g: Geometry, before: seq<FlashOp>, op: FlashOp)
    requires g.pageSize > 0
  {
    match op
    case ErasePage(a) => a % g.pageSize == 0
    case FillWord(a, _) => a < g.bootStart
    case WritePage(a) => a % g.pageSize == 0 && ErasedSinceWrite(before, a)
  }

  ghost predicate Disciplined(g: Geometry, ops: seq<FlashOp>)
    requires g.pageSize > 0
  {
    forall i | 0 <= i < |ops| :: AllowedAfter(g, ops[..i], ops[i])
  }

  lemma DisciplinedAppend(g: Geometry, ops: seq<FlashOp>, op: FlashOp)
    requires g.pageSize > 0 && Disciplined(g, ops) && AllowedAfter(g, ops, op)
    ensures Disciplined(g, ops + [op])
    ensures op.ErasePage? ==> ErasedSinceWrite(ops + [op], op.addr)
    ensures forall a | op != WritePage(a) && ErasedSinceWrite(ops, a) :: ErasedSinceWrite(ops + [op], a)
  {
    var all := ops + [op];
    assert all[..|ops|] == ops;
    forall i | 0 <= i < |all| ensures AllowedAfter(g, all[..i], all[i]) {
      if i < |ops| {
        assert all[..i] == ops[..i];
      }
    }
    if op.ErasePage? {
      assert all[|ops|] == op;
    }
    forall a | op != WritePage(a) && ErasedSinceWrite(ops, a) ensures ErasedSinceWrite(all, a) {
      var j :| 0 <= j < |ops| && ops[j] == ErasePage(a) && forall k | j < k < |ops| :: ops[k] != WritePage(a);
      assert all[j] == ErasePage(a);
    }
  }

  /** The invariant that links the parser to the operations it has issued so far. */
  ghost predicate Tracks(g: Geometry, h: Hex, ops: seq<FlashOp>)
    requires g.pageSize > 0
  {
    && h.pageStart % g.pageSize == 0
    && Disciplined(g, ops)
    && (h.dirty ==> ErasedSinceWrite(ops, h.pageStart))
  }

  lemma FlushTracks(g: Geometry, h: Hex, ops: seq<FlashOp>)
    requires g.pageSize > 0 && Tracks(g, h, ops)
    ensures var (h', more) := FlushPageIfRequired(g, h); Tracks(g, h', ops + more)
  {
    var (h', more) := FlushPageIfRequired(g, h);
    PageBounds(g, h.curr);
    if more == [] {
      assert ops + more == ops;
    } else {
      DisciplinedAppend(g, ops, WritePage(h.pageStart));
    }
  }

  lemma DataWordTracks(g: Geometry, h: Hex, w: Word, ops: seq<FlashOp>)
    requires g.pageSize > 0 && Tracks(g, h, ops) && h.curr < g.bootStart
    ensures var (h', more) := DataWord(g, h, w); Tracks(g, h', ops + more)
  {
    var erase := if h.dirty then [] else [ErasePage(h.pageStart)];
    if h.dirty {
      assert ops + erase == ops;
    } else {
      DisciplinedAppend(g, ops, ErasePage(h.pageStart));
    }
    DisciplinedAppend(g, ops + erase, FillWord(h.curr, w));
    var h1 := h.(dirty := true, curr := g.Wrap(h.curr + 2));
    FlushTracks(g, h1, ops + erase + [FillWord(h.curr, w)]);
    var flush := FlushPageIfRequired(g, h1).1;
    assert ops + (erase + [FillWord(h.curr, w)] + flush) == ops + erase + [FillWord(h.curr, w)] + flush;
  }

  lemma StepTracks(g: Geometry, h: Hex, c: char, ops: seq<FlashOp>)
    requires g.pageSize > 0 && Tracks(g, h, ops)
    ensures var (h', more) := Step(g, h, c); Tracks(g, h', ops + more)
  {
    hide Geometry.PageOf, ErasedSinceWrite, Disciplined, DataWord, FlushPageIfRequired, WordOf;
    assert ops + [] == ops;
    var d := HexToDecimal(c);
    if !h.state.WaitLine? && c != ':' && d >= 0 && h.readMSB {
      var h1 := h.(data := h.data * 0x10 % 0x100 + d, readMSB := false);
      if h.state.Checksum? {
        FlushTracks(g, h1, ops);
      } else if h.state.ReadData? && h.curr < g.bootStart {
        var h2 := h1.(checksum := (h1.checksum + h1.data) % 0x100, dataRem := (h1.dataRem - 1) % 0x100);
        DataWordTracks(g, h2, WordOf(h2.prevData, h2.data), ops);
      }
    }
  }

  lemma {:induction false} RunTracks(g: Geometry, h: Hex, events: seq<Event>)
    requires g.pageSize > 0 && Tracks(g, h, [])
    ensures var (h', ops) := EventRun(g, h, events); Tracks(g, h', ops)
    decreases |events|
  {
    hide Step, Disciplined, ErasedSinceWrite;
    if events != [] {
      var n := |events| - 1;
      RunTracks(g, h, events[..n]);
      var (h1, ops1) := EventRun(g, h, events[..n]);
      if events[n].Received? {
        StepTracks(g, h1, events[n].c, ops1);
      } else {
        assert ops1 + [] == ops1;
      }
    }
  }

  ghost predicate BlankPage(flash: seq<Byte>, a: nat, n: nat) {
    forall i | a <= i < a + n && i < |flash| :: flash[i] == 0xFF
  }

  lemma DisciplinedPrefix(g: Geometry, ops: seq<FlashOp>, n: nat)
    requires g.pageSize > 0 && Disciplined(g, ops) && n <= |ops|
    ensures Disciplined(g, ops[..n])
  {
    hide AllowedAfter;
    forall i | 0 <= i < n ensures AllowedAfter(g, ops[..n][..i], ops[..n][i]) {
      assert ops[..n][..i] == ops[..i];
      assert AllowedAfter(g, ops[..i], ops[i]);
    }
  }

  lemma ErasedSinceWritePrefix(ops: seq<FlashOp>, op: FlashOp, a: nat)
    requires ErasedSinceWrite(ops + [op], a) && op != ErasePage(a)
    ensures ErasedSinceWrite(ops, a) && op != WritePage(a)
  {
    var all := ops + [op];
    var j :| 0 <= j < |all| && all[j] == ErasePage(a) && forall k | j < k < |all| :: all[k] != WritePage(a);
    assert all[|ops|] == op;
    assert ops[j] == ErasePage(a);
    forall k | j < k < |ops| ensures ops[k] != WritePage(a) {
      assert all[k] == ops[k];
    }
  }

  lemma ExecKeepsBlank(g: Geometry, d: Device, op: FlashOp, a: nat)
    requires g.Valid() && g.IsPageAddressValid(a) && op != WritePage(a)
    requires op.WritePage? ==> op.addr % g.pageSize == 0
    requires op == ErasePage(a) || BlankPage(d.flash, a, g.pageSize)
    ensures BlankPage(Exec(g, d, op).flash, a, g.pageSize)
  {
    if op.WritePage? {
      var b := op.addr;
      if a < b {
        AlignedApart(g, a, b);
      } else {
        AlignedApart(g, b, a);
      }
    }
  }

  /** In a disciplined sequence an erased, not yet rewritten page of the application section is blank. */
  lemma {:induction false} ErasedIsBlank(g: Geometry, d: Device, ops: seq<FlashOp>, a: nat)
    requires g.Valid() && Disciplined(g, ops) && ErasedSinceWrite(ops, a) && g.IsPageAddressValid(a)
    ensures BlankPage(ExecAll(g, d, ops).flash, a, g.pageSize)
    decreases |ops|
  {
    var n := |ops| - 1;
    var init, op := ops[..n], ops[n];
    assert ops == init + [op];
    assert AllowedAfter(g, ops[..n], ops[n]);
    hide Exec, BlankPage, ErasedSinceWrite, Disciplined;
    ExecAllConcat(g, d, init, [op]);
    var d1 := ExecAll(g, d, init);
    assert [op][1..] == [];
    assert ExecAll(g, d, ops) == Exec(g, d1, op);
    if op != ErasePage(a) {
      ErasedSinceWritePrefix(init, op, a);
      DisciplinedPrefix(g, ops, n);
      ErasedIsBlank(g, d, init, a);
    }
    ExecKeepsBlank(g, d1, op, a);
  }

  /**
   * For every sequence of characters and USB reconfigurations from power-on: each page write is to an aligned page
   * erased since its last write (so a page below the boot section is blank when it is written), no word is filled at
   * or above the boot section, and the boot section never changes.
   */
  lemma StreamDiscipline(g: Geometry, h: Hex, d: Device, events: seq<Event>)
    requires g.Valid() && AtReset(h)
    ensures Disciplined(g, EventRun(g, h, events).1)
    ensures forall i | 0 <= i < |EventRun(g, h, events).1| && EventRun(g, h, events).1[i].WritePage? ::
              var ops := EventRun(g, h, events).1;
              ops[i].addr < g.bootStart ==> BlankPage(ExecAll(g, d, ops[..i]).flash, ops[i].addr, g.pageSize)
    ensures var d' := ExecAll(g, d, EventRun(g, h, events).1);
            && |d'.flash| == |d.flash|
            && forall i | g.bootStart <= i < |d.flash| :: d'.flash[i] == d.flash[i]
  {
    MultipleOf(0, g.pageSize);
    RunTracks(g, h, events);
    var ops := EventRun(g, h, events).1;
    BootSectionUntouched(g, d, ops);
    forall i | 0 <= i < |ops| && ops[i].WritePage? && ops[i].addr < g.bootStart
      ensures BlankPage(ExecAll(g, d, ops[..i]).flash, ops[i].addr, g.pageSize)
    {
      assert AllowedAfter(g, ops[..i], ops[i]);
      DisciplinedPrefix(g, ops, i);
      ErasedIsBlank(g, d, ops[..i], ops[i].addr);
    }
  }

  // ---------- characters that are neither ':' nor an upper-case hex digit ----------

  predicate Significant(c: char) {
    c in ":0123456789ABCDEF"
  }

  function Canonical(text: string): string {
    if text == [] then []
    else if Significant(text[0]) then [text[0]] + Canonical(text[1..])
    else Canonical(text[1..])
  }

  /** Equal, or both waiting for a line and equal in what a line start does not set. */
  predicate Similar(h: Hex, k: Hex) {
    h == k
    || (h.state.WaitLine? && k.state.WaitLine?
        && k == h.(checksum := k.checksum, curr := k.curr, readMSB := k.readMSB))
  }

  lemma {:induction false} JunkInvariant(g: Geometry, h: Hex, k: Hex, text: string)
    requires g.pageSize > 0 && Similar(h, k)
    ensures var (h', ops) := Run(g, h, text);
            var (k', ops') := Run(g, k, Canonical(text));
            ops == ops' && Similar(h', k')
    decreases |text|
  {
    if text != [] {
      var c := text[0];
      var (h1, ops1) := Step(g, h, c);
      if Significant(c) {
        var (k1, ops2) := Step(g, k, c);
        assert Similar(h1, k1) && ops1 == ops2;
        JunkInvariant(g, h1, k1, text[1..]);
        assert Canonical(text)[1..] == Canonical(text[1..]);
      } else {
        assert Similar(h1, k) && ops1 == [];
        JunkInvariant(g, h1, k, text[1..]);
        var rest := Run(g, h1, text[1..]).1;
        assert [] + rest == rest;
      }
    }
  }

  /** Line ends, blanks, lower-case letters and other junk change neither the flash nor `RunBootloader`. */
  lemma JunkIgnored(g: Geometry, m: Machine, text: string)
    requires g.pageSize > 0
    ensures Run(g, m.hex, text).1 == Run(g, m.hex, Canonical(text)).1
    ensures MRun(g, m, text).dev == MRun(g, m, Canonical(text)).dev
    ensures MRun(g, m, text).hex.run == MRun(g, m, Canonical(text)).hex.run
  {
    JunkInvariant(g, m.hex, m.hex, text);
  }
}
