/** DFU programming that does not run to its end: a payload cut short, a command without payload, a pending exit. */
module DfuPartial {
  import opened Words
  import opened Flash
  import opened PageBuffer
  import opened Dfu
  import opened DfuRange
  import opened DfuSecure

  /** Whole pages of the data from byte `q` on are programmed, and the page after them is left erased. */
  ghost predicate PagesWritten(g: Geometry, flash: seq<Byte>, base: nat, data: seq<Byte>, q: nat, flash': seq<Byte>) {
    && g.pageSize > 0 && |flash'| == |flash|
    && var e := g.PageOf(|data|);
    forall i | 0 <= i < |flash| ::
      flash'[i] == if i < base + q || i >= g.bootStart then flash[i]
                   else if i < base + e then data[i - base]
                   else if q < e && i < base + e + g.pageSize then 0xFF
                   else flash[i]
  }

  /** One page written and the next erased, then the pages from there on. */
  lemma PagesTurned(g: Geometry, flash: seq<Byte>, base: nat, data: seq<Byte>, q: nat, k: nat,
                    flash1: seq<Byte>, flash2: seq<Byte>, flash3: seq<Byte>)
    requires g.Valid() && g.Aligned(base) && g.Aligned(base + q) && g.Aligned(q)
    requires k == q + g.pageSize <= |data|
    requires RangeWritten(g, flash, base, data, q, k, flash1)
    requires |flash2| == |flash1|
    requires forall i | 0 <= i < |flash1| ::
               flash2[i] == if base + k <= i < base + k + g.pageSize && i < g.bootStart then 0xFF else flash1[i]
    requires PagesWritten(g, flash2, base, data, k, flash3)
    ensures PagesWritten(g, flash, base, data, q, flash3)
  {
    PageOfUnique(g, base + k - 1, base + q);
    NextPage(g, q);
    PageBounds(g, |data|);
    assert g.PageOf(|data|) >= k by {
      if g.PageOf(|data|) < k {
        AlignedApart(g, g.PageOf(|data|), k);
      }
    }
    hide Geometry.PageOf, Geometry.Valid;
  }

  lemma TurnPage(g: Geometry, d: Device, base: nat, data: seq<Byte>, q: nat, k: nat, flash': seq<Byte>)
    requires g.Valid() && g.Aligned(base) && g.Aligned(base + q) && g.Aligned(q)
    requires k == q + g.pageSize <= |data| && q % 2 == 0
    requires base + q < g.bootStart ==> BlankPage(g, d.flash, base + q) && Loaded(d.temp, data, q, k)
    ensures var d2 := Exec(g, d, WritePage(base + q));
            var d3 := Exec(g, d2, ErasePage(base + k));
            && Filling(g, d3, base, data, k, k)
            && (PagesWritten(g, d3.flash, base, data, k, flash') ==> PagesWritten(g, d.flash, base, data, q, flash'))
  {
    hide Exec, RangeWritten, PagesWritten, Loaded, BlankPage, Filling, Geometry.Valid, Geometry.Aligned;
    ValidPageSize(g);
    NextAligned(g, base + q);
    var d2 := Exec(g, d, WritePage(base + q));
    var d3 := Exec(g, d2, ErasePage(base + k));
    PageWritten(g, d, base, data, q, k);
    NextPageErased(g, d2, base, data, k);
    if PagesWritten(g, d3.flash, base, data, k, flash') {
      PagesTurned(g, d.flash, base, data, q, k, d2.flash, d3.flash, flash');
    }
  }

  lemma NoPageLeft(g: Geometry, d: Device, base: nat, data: seq<Byte>, q: nat)
    requires g.Valid() && g.Aligned(q) && q <= |data| < q + g.pageSize
    ensures PagesWritten(g, d.flash, base, data, q, d.flash)
  {
    PageOfUnique(g, |data|, q);
    hide Geometry.PageOf;
  }

  /** The programming loop on a payload that ends too early. */
  lemma {:induction false} ProgramWordsCut(g: Geometry, d: Device, data: seq<Byte>, base: nat, q: nat, k: nat, words: nat)
    requires Filling(g, d, base, data, q, k) && k + 2 * words > |data|
    requires g.Aligned(base) && g.Aligned(q)
    ensures var (d', done) := ProgramWords(g, d, data, k, words, base + k, base + q, (k - q) / 2);
            !done && PagesWritten(g, d.flash, base, data, q, d'.flash)
    decreases words
  {
    hide Exec, PagesWritten, Loaded, BlankPage, Filling, Geometry.Valid, Geometry.Aligned, ProgramWords;
    FillingCount(g, d, base, data, q, k);
    ValidPageSize(g);
    CountInPage(g.pageSize, k - q);
    if k + 2 > |data| {
      ProgramWordsStops(g, d, data, k, words, base + k, base + q, (k - q) / 2);
      NoPageLeft(g, d, base, data, q);
    } else {
      FillKeepsFlash(g, d, base, data, q, k);
      ProgramWordsStep(g, d, data, k, words, base + k, base + q, (k - q) / 2);
      var d1 := Exec(g, d, FillWord(base + k, WordOf(data[k], data[k + 1])));
      if k + 2 == q + g.pageSize {
        NextAligned(g, q);
        var d3 := Exec(g, Exec(g, d1, WritePage(base + q)), ErasePage(base + k + 2));
        var d4 := ProgramWords(g, d3, data, k + 2, words - 1, base + k + 2, base + k + 2, 0).0;
        TurnPage(g, d1, base, data, q, k + 2, d4.flash);
        ProgramWordsCut(g, d3, data, base, k + 2, k + 2, words - 1);
      } else {
        FillingOn(g, d, base, data, q, k);
        ProgramWordsCut(g, d1, data, base, q, k + 2, words - 1);
      }
    }
  }

  /** A byte of flash after a payload cut short: its whole pages are there, the page it broke off in is erased. */
  function CutByte(g: Geometry, flash: seq<Byte>, base: nat, data: seq<Byte>, i: nat): Byte
    requires g.pageSize > 0 && i < |flash|
  {
    var e := g.PageOf(|data|);
    if !g.Aligned(base) || i < base || i >= g.bootStart then flash[i]
    else if i < base + e then data[i - base]
    else if i < base + e + g.pageSize then 0xFF
    else flash[i]
  }

  lemma ProgramDeviceCut(g: Geometry, d: Device, base: nat, data: seq<Byte>, words: nat)
    requires g.Valid() && 2 * words > |data|
    ensures var d1 := Exec(g, d, ErasePage(base));
            var (d', done) := ProgramWords(g, d1, data, 0, words, base, base, 0);
            && (g.Aligned(base) ==> !done)
            && |d'.flash| == |d.flash|
            && forall i | 0 <= i < |d.flash| :: d'.flash[i] == CutByte(g, d.flash, base, data, i)
  {
    ValidPageSize(g);
    MultipleOf(0, g.pageSize);
    hide Exec, ProgramWords, Geometry.PageOf, Geometry.Valid, Filling;
    var d1 := Exec(g, d, ErasePage(base));
    if !g.Aligned(base) {
      ProgramMisaligned(g, d, base, data, 2 * words);
    } else {
      NextPageErased(g, d, base, data, 0);
      ProgramWordsCut(g, d1, data, base, 0, 0, words);
    }
  }

  /**
   * A program command whose payload breaks off: the download stays open, the start address stays, the payload's whole
   * pages are programmed if the range starts on a page, and the page it broke off in is left erased.
   */
  lemma DnloadCutShort(c: Config, s: State, w: Word, start: Word, end: Word, payload: seq<Byte>)
    requires c.g.Valid() && !s.secure && !s.waitForExit
    requires w != 0 && w != 6 && |payload| < TransferBytes(start, end)
    ensures var s' := Handle(c, s, Dnload(w, RangeCommand(1, start, end), payload)).0;
            var base := LongAddress(s.flash64K, start);
            && s'.state.DnloadIdle? && s'.eeprom == s.eeprom
            && (c.g.Aligned(base) ==> s'.startAddr == start)
            && |s'.dev.flash| == |s.dev.flash|
            && forall i | 0 <= i < |s.dev.flash| :: s'.dev.flash[i] == CutByte(c.g, s.dev.flash, base, payload, i)
  {
    hide ProgramWords, Exec, LoadStartEndAddresses, LoadCommand, CutByte, LongAddress, Geometry.Valid;
    ValidPageSize(c.g);
    CommandLoaded(s, w, 1, 0, start, end);
    ProgramDeviceCut(c.g, s.dev, LongAddress(s.flash64K, start), payload, RangeBytes(start, end) / 2);
  }

  /** A program command that is the whole data stage erases the range's first page and returns to idle. */
  lemma DnloadWithoutFirmware(c: Config, s: State, start: Word, end: Word, payload: seq<Byte>)
    requires c.g.Valid() && !s.secure && !s.waitForExit
    ensures var s' := Handle(c, s, Dnload(6, RangeCommand(1, start, end), payload)).0;
            && s'.state.DfuIdle? && s'.startAddr == start && s'.endAddr == end
            && s'.dev == Exec(c.g, s.dev, ErasePage(LongAddress(s.flash64K, start)))
  {
    hide Exec, LoadStartEndAddresses, LoadCommand, LongAddress, Geometry.Valid;
    ValidPageSize(c.g);
    CommandLoaded(s, 6, 1, 0, start, end);
  }

  /** While an exit is pending a download first repeats the last command, then goes on as if none were. */
  lemma PendingExitFirst(c: Config, s: State, w: Word, packet: seq<Byte>, payload: seq<Byte>)
    requires c.g.Valid() && s.waitForExit
    ensures var s1 := ProcessBootloaderCommand(c, s.(dataSize := w)).(waitForExit := false);
            s1.dataSize == w && Handle(c, s, Dnload(w, packet, payload)) == Handle(c, s1, Dnload(w, packet, payload))
  {
    hide ProcessBootloaderCommand, LoadCommand, Download;
    CommandKeeps(c, s.(dataSize := w));
  }
}
