/** DFU programming as a plain range write, and the round trip through programming and reading back. */
module DfuRange {
  import opened Words
  import opened Flash
  import opened PageBuffer
  import opened Dfu

  /**
   * A byte of flash after bytes `q` to `e` of `data` have been written from address `base + q`: their pages
   * hold them, padded with 0xFF, except from the boot section up.
   */
  function RangeByte(g: Geometry, flash: seq<Byte>, base: nat, data: seq<Byte>, q: nat, e: nat, i: nat): Byte
    requires g.pageSize > 0 && i < |flash| && q <= e <= |data|
  {
    if base + q <= i < g.bootStart && i < base + e then data[i - base]
    else if base + q <= i < g.bootStart && q < e && i < g.PageOf(base + e - 1) + g.pageSize then 0xFF
    else flash[i]
  }

  ghost predicate RangeWritten(g: Geometry, flash: seq<Byte>, base: nat, data: seq<Byte>, q: nat, e: nat, flash': seq<Byte>)
  {
    && g.pageSize > 0 && q <= e <= |data| && |flash'| == |flash|
    && forall i | 0 <= i < |flash| :: flash'[i] == RangeByte(g, flash, base, data, q, e, i)
  }

  ghost predicate BlankPage(g: Geometry, flash: seq<Byte>, p: nat) {
    forall i | p <= i < p + g.pageSize && i < |flash| :: flash[i] == 0xFF
  }

  /** The page being filled: it starts with byte `q` of the data and holds those up to `k`. */
  ghost predicate Filling(g: Geometry, d: Device, base: nat, data: seq<Byte>, q: nat, k: nat) {
    && g.Valid()
    && g.Aligned(base + q)
    && q <= k <= |data| && q % 2 == 0 && k % 2 == 0 && k - q < g.pageSize
    && (base + q < g.bootStart ==> BlankPage(g, d.flash, base + q) && Loaded(d.temp, data, q, k))
  }

  lemma ValidPageSize(g: Geometry)
    requires g.Valid()
    ensures 2 <= g.pageSize <= 0x100 && g.pageSize % 2 == 0
  {
  }

  lemma CountInPage(pageSize: nat, n: nat)
    requires pageSize % 2 == 0 && pageSize <= 0x100 && n % 2 == 0 && n < pageSize
    ensures (n / 2 + 1) % 0x100 == (n + 2) / 2
    ensures (n + 2) / 2 == pageSize / 2 <==> n + 2 == pageSize
    ensures n + 2 <= pageSize
  {
  }

  /** The position in the page, as the loop counts it. */
  lemma FillingCount(g: Geometry, d: Device, base: nat, data: seq<Byte>, q: nat, k: nat)
    requires Filling(g, d, base, data, q, k)
    ensures g.Valid() && g.pageSize > 0 && g.Aligned(base + q)
    ensures q <= k <= |data| && q % 2 == 0 && k % 2 == 0 && k - q < g.pageSize
    ensures base + q < g.bootStart ==> BlankPage(g, d.flash, base + q) && Loaded(d.temp, data, q, k)
    ensures (base + q) % 2 == 0
  {
    PageEven(g, base + q);
    hide Loaded, BlankPage, Geometry.Valid;
  }

  lemma FillExec(g: Geometry, d: Device, a: nat, w: Word)
    requires g.pageSize > 0
    ensures var k := TempKey(g, a);
            Exec(g, d, FillWord(a, w)) == if k in d.temp then d else Device(d.flash, d.temp[k := w])
  {
  }

  lemma FillKeepsFlash(g: Geometry, d: Device, base: nat, data: seq<Byte>, q: nat, k: nat)
    requires Filling(g, d, base, data, q, k) && k + 2 <= |data|
    ensures var d1 := Exec(g, d, FillWord(base + k, WordOf(data[k], data[k + 1])));
            && d1.flash == d.flash
            && (base + q < g.bootStart ==> Loaded(d1.temp, data, q, k + 2))
  {
    hide Exec, Loaded, TempKey, BlankPage, Geometry.Valid, Geometry.Aligned, Filling, WordOf;
    FillingCount(g, d, base, data, q, k);
    FillExec(g, d, base + k, WordOf(data[k], data[k + 1]));
    if base + q < g.bootStart {
      TempKeyOf(g, base + q, base + k);
      NotYetLoaded(d.temp, data, q, k);
      LoadedWord(d.temp, data, q, k);
    }
  }

  lemma FillingOn(g: Geometry, d: Device, base: nat, data: seq<Byte>, q: nat, k: nat)
    requires Filling(g, d, base, data, q, k) && k + 2 <= |data| && k + 2 - q < g.pageSize
    ensures Filling(g, Exec(g, d, FillWord(base + k, WordOf(data[k], data[k + 1]))), base, data, q, k + 2)
  {
    FillKeepsFlash(g, d, base, data, q, k);
    hide Loaded, Exec, Geometry.Valid;
  }

  /** The loop's write of a page, full or last. */
  lemma PageWritten(g: Geometry, d: Device, base: nat, data: seq<Byte>, q: nat, k: nat)
    requires g.Valid() && g.Aligned(base + q) && q < k <= |data| && k - q <= g.pageSize
    requires base + q < g.bootStart ==> BlankPage(g, d.flash, base + q) && Loaded(d.temp, data, q, k)
    ensures RangeWritten(g, d.flash, base, data, q, k, Exec(g, d, WritePage(base + q)).flash)
  {
    hide Loaded, Exec, Geometry.PageOf, Geometry.Valid, Geometry.Aligned, Geometry.IsPageAddressValid;
    ValidPageSize(g);
    PageOfAligned(g, base + k - 1, base + q);
    if base + q < g.bootStart {
      PageBelowBoot(g, base + q);
      LoadedPageWritten(g, d, base + q, data, q, k);
    } else {
      BootRefused(g, d, base + q);
    }
  }

  lemma BootRefused(g: Geometry, d: Device, a: nat)
    requires g.pageSize > 0 && a >= g.bootStart
    ensures Exec(g, d, WritePage(a)) == d && Exec(g, d, ErasePage(a)) == d
  {
  }

  lemma NextPageErased(g: Geometry, d: Device, base: nat, data: seq<Byte>, q: nat)
    requires g.Valid() && g.Aligned(base + q) && q % 2 == 0 && q <= |data|
    ensures var d' := Exec(g, d, ErasePage(base + q));
            && Filling(g, d', base, data, q, q)
            && |d'.flash| == |d.flash|
            && forall i | 0 <= i < |d.flash| ::
                 d'.flash[i] == if base + q <= i < base + q + g.pageSize && i < g.bootStart then 0xFF else d.flash[i]
  {
    if base + q < g.bootStart {
      PageBelowBoot(g, base + q);
    }
  }

  /** A first page, then the rest from the next page on. */
  lemma RangeSplit(g: Geometry, flash: seq<Byte>, base: nat, data: seq<Byte>, q: nat, k: nat, e: nat,
                   flash1: seq<Byte>, flash2: seq<Byte>, flash3: seq<Byte>)
    requires g.Valid() && g.Aligned(base + q) && k == q + g.pageSize && k < e <= |data|
    requires RangeWritten(g, flash, base, data, q, k, flash1)
    requires |flash2| == |flash1|
    requires forall i | 0 <= i < |flash1| ::
               flash2[i] == if base + k <= i < base + k + g.pageSize && i < g.bootStart then 0xFF else flash1[i]
    requires RangeWritten(g, flash2, base, data, k, e, flash3)
    ensures RangeWritten(g, flash, base, data, q, e, flash3)
  {
    PageOfUnique(g, base + k - 1, base + q);
    NextPage(g, base + q);
    PageBounds(g, base + e - 1);
    var last := g.PageOf(base + e - 1);
    assert last >= base + k by {
      if last < base + k {
        AlignedApart(g, last, base + k);
      }
    }
    hide Geometry.PageOf, Geometry.Valid;
  }

  /** The loop's write of a full page and erasure of the next. */
  lemma PageTurned(g: Geometry, d: Device, base: nat, data: seq<Byte>, q: nat, k: nat, e: nat, flash': seq<Byte>)
    requires g.Valid() && g.Aligned(base + q) && k == q + g.pageSize && k < e <= |data| && q % 2 == 0
    requires base + q < g.bootStart ==> BlankPage(g, d.flash, base + q) && Loaded(d.temp, data, q, k)
    ensures var d2 := Exec(g, d, WritePage(base + q));
            var d3 := Exec(g, d2, ErasePage(base + k));
            && Filling(g, d3, base, data, k, k)
            && (RangeWritten(g, d3.flash, base, data, k, e, flash') ==>
                RangeWritten(g, d.flash, base, data, q, e, flash'))
  {
    hide Exec, RangeWritten, Loaded, BlankPage, Filling, Geometry.Valid, Geometry.Aligned;
    ValidPageSize(g);
    NextAligned(g, base + q);
    assert base + k == base + q + g.pageSize && k % 2 == 0;
    var d2 := Exec(g, d, WritePage(base + q));
    var d3 := Exec(g, d2, ErasePage(base + k));
    PageWritten(g, d, base, data, q, k);
    NextPageErased(g, d2, base, data, k);
    if RangeWritten(g, d3.flash, base, data, k, e, flash') {
      RangeSplit(g, d.flash, base, data, q, k, e, d2.flash, d3.flash, flash');
    }
  }

  /** One iteration of the loop. */
  lemma ProgramWordsStep(g: Geometry, d: Device, data: seq<Byte>, k: nat, words: nat,
                         addr: nat, pageStart: nat, inPage: nat)
    requires g.pageSize > 0 && words > 0 && k + 2 <= |data|
    ensures var d1 := Exec(g, d, FillWord(addr, WordOf(data[k], data[k + 1])));
            var full := (inPage + 1) % 0x100 == g.pageSize / 2;
            var d2 := Exec(g, d1, WritePage(pageStart));
            ProgramWords(g, d, data, k, words, addr, pageStart, inPage) ==
            if words == 1 then (d2, true)
            else if full then
              ProgramWords(g, Exec(g, d2, ErasePage(addr + 2)), data, k + 2, words - 1, addr + 2, addr + 2, 0)
            else ProgramWords(g, d1, data, k + 2, words - 1, addr + 2, pageStart, (inPage + 1) % 0x100)
  {
  }

  /** The programming loop writes the rest of the range. */
  lemma {:induction false} ProgramWordsRange(g: Geometry, d: Device, data: seq<Byte>, base: nat, q: nat, k: nat, words: nat)
    requires Filling(g, d, base, data, q, k) && words > 0 && k + 2 * words <= |data|
    ensures var (d', done) := ProgramWords(g, d, data, k, words, base + k, base + q, (k - q) / 2);
            done && RangeWritten(g, d.flash, base, data, q, k + 2 * words, d'.flash)
    decreases words
  {
    hide Exec, RangeWritten, Loaded, BlankPage, Filling, Geometry.Valid, Geometry.Aligned, ProgramWords;
    FillingCount(g, d, base, data, q, k);
    ValidPageSize(g);
    CountInPage(g.pageSize, k - q);
    FillKeepsFlash(g, d, base, data, q, k);
    ProgramWordsStep(g, d, data, k, words, base + k, base + q, (k - q) / 2);
    var d1 := Exec(g, d, FillWord(base + k, WordOf(data[k], data[k + 1])));
    if words == 1 {
      PageWritten(g, d1, base, data, q, k + 2);
    } else if k + 2 == q + g.pageSize {
      var d3 := Exec(g, Exec(g, d1, WritePage(base + q)), ErasePage(base + k + 2));
      var d4 := ProgramWords(g, d3, data, k + 2, words - 1, base + k + 2, base + k + 2, 0).0;
      PageTurned(g, d1, base, data, q, k + 2, k + 2 * words, d4.flash);
      ProgramWordsRange(g, d3, data, base, k + 2, k + 2, words - 1);
    } else {
      FillingOn(g, d, base, data, q, k);
      ProgramWordsRange(g, d1, data, base, q, k + 2, words - 1);
    }
  }

  /** From a misaligned start every erase and write of the loop is refused: nothing is programmed. */
  lemma {:induction false} MisalignedWordsIgnored(g: Geometry, d: Device, data: seq<Byte>, k: nat, words: nat,
                                                  addr: nat, pageStart: nat, inPage: nat)
    requires g.Valid() && !g.Aligned(pageStart) && addr == pageStart + 2 * inPage && inPage < g.pageSize / 2
    ensures ProgramWords(g, d, data, k, words, addr, pageStart, inPage).0.flash == d.flash
    decreases words
  {
    hide Geometry.Valid, Geometry.Aligned, TempKey, ProgramWords, Exec, WordOf;
    ValidPageSize(g);
    if words == 0 || k + 2 > |data| {
      ProgramWordsStops(g, d, data, k, words, addr, pageStart, inPage);
    } else {
      CountInPage(g.pageSize, 2 * inPage);
      ProgramWordsStep(g, d, data, k, words, addr, pageStart, inPage);
      ShiftedAlignment(g, pageStart);
      FillExec(g, d, addr, WordOf(data[k], data[k + 1]));
      var d1 := Exec(g, d, FillWord(addr, WordOf(data[k], data[k + 1])));
      MisalignedRefused(g, d1, pageStart);
      if words > 1 {
        if inPage + 1 == g.pageSize / 2 {
          MisalignedRefused(g, d1, addr + 2);
          MisalignedWordsIgnored(g, d1, data, k + 2, words - 1, addr + 2, addr + 2, 0);
        } else {
          MisalignedWordsIgnored(g, d1, data, k + 2, words - 1, addr + 2, pageStart, inPage + 1);
        }
      }
    }
  }

  lemma ProgramWordsStops(g: Geometry, d: Device, data: seq<Byte>, k: nat, words: nat,
                          addr: nat, pageStart: nat, inPage: nat)
    requires g.pageSize > 0 && (words == 0 || k + 2 > |data|)
    ensures ProgramWords(g, d, data, k, words, addr, pageStart, inPage) == (d, words == 0)
  {
  }

  lemma MisalignedRefused(g: Geometry, d: Device, a: nat)
    requires g.pageSize > 0 && !g.Aligned(a)
    ensures Exec(g, d, WritePage(a)) == d && Exec(g, d, ErasePage(a)) == d
  {
  }

  /** With payload enough the loop gets through, whatever its pages. */
  lemma {:induction false} ProgramWordsDone(g: Geometry, d: Device, data: seq<Byte>, k: nat, words: nat,
                                            addr: nat, pageStart: nat, inPage: nat)
    requires g.pageSize > 0 && k + 2 * words <= |data|
    ensures ProgramWords(g, d, data, k, words, addr, pageStart, inPage).1
    decreases words
  {
    hide Exec, ProgramWords;
    if words == 0 {
      ProgramWordsStops(g, d, data, k, words, addr, pageStart, inPage);
    } else {
      ProgramWordsStep(g, d, data, k, words, addr, pageStart, inPage);
      var d1 := Exec(g, d, FillWord(addr, WordOf(data[k], data[k + 1])));
      var d3 := Exec(g, Exec(g, d1, WritePage(pageStart)), ErasePage(addr + 2));
      ProgramWordsDone(g, d3, data, k + 2, words - 1, addr + 2, addr + 2, 0);
      ProgramWordsDone(g, d1, data, k + 2, words - 1, addr + 2, pageStart, (inPage + 1) % 0x100);
    }
  }

  lemma ShiftedAlignment(g: Geometry, a: nat)
    requires g.pageSize > 0
    ensures g.Aligned(a + g.pageSize) <==> g.Aligned(a)
  {
    var n := g.pageSize;
    if a % n == 0 {
      NextPage(g, a);
    }
    if (a + n) % n == 0 {
      assert a == ((a + n) / n - 1) * n;
      MultipleOf((a + n) / n - 1, n);
    }
  }

  // ---------- the commands ----------

  /** A program or read command for a range: command, memory, start and end, high bytes first. */
  function MemoryCommand(command: Byte, memory: Byte, start: Word, end: Word): seq<Byte> {
    [command, memory, start / 0x100, start % 0x100, end / 0x100, end % 0x100]
  }

  /** The same for the flash. */
  function RangeCommand(command: Byte, start: Word, end: Word): seq<Byte> {
    MemoryCommand(command, 0, start, end)
  }

  /** The bytes of a range that the loops transfer: whole words only. */
  function TransferBytes(start: Word, end: Word): nat {
    RangeBytes(start, end) / 2 * 2
  }

  /**
   * A byte of flash after a program command and its payload. The first page is erased in any case; a start
   * that is not page-aligned programs nothing; the boot section is out of reach.
   */
  function ProgrammedByte(g: Geometry, flash: seq<Byte>, base: nat, data: seq<Byte>, n: nat, i: nat): Byte
    requires g.pageSize > 0 && i < |flash| && n <= |data|
  {
    if !g.Aligned(base) || i < base || i >= g.bootStart then flash[i]
    else if i < base + n then data[i - base]
    else if i < g.PageOf(base + if n == 0 then 0 else n - 1) + g.pageSize then 0xFF
    else flash[i]
  }

  /** The state in which the firmware part of the request is reached. */
  lemma CommandLoaded(s: State, w: Word, command: Byte, memory: Byte, start: Word, end: Word)
    ensures var s' := LoadCommand(s.(dataSize := w), MemoryCommand(command, memory, start, end));
            && s' == s.(command := command, dataSize := (w - 6) % 0x1_0000,
                        params := [memory, start / 0x100, start % 0x100, end / 0x100, end % 0x100])
            && LoadStartEndAddresses(s') == s'.(startAddr := start, endAddr := end)
  {
    var packet := MemoryCommand(command, memory, start, end);
    assert packet[1..6] + s.params[5..] == [memory, start / 0x100, start % 0x100, end / 0x100, end % 0x100];
  }

  /** Erasing the first page and then writing the range from it. */
  lemma RangeAfterErase(g: Geometry, flash: seq<Byte>, base: nat, data: seq<Byte>, n: nat,
                        flash1: seq<Byte>, flash2: seq<Byte>)
    requires g.Valid() && g.Aligned(base) && 0 < n <= |data| && |flash1| == |flash|
    requires forall i | 0 <= i < |flash| ::
               flash1[i] == if base <= i < base + g.pageSize && i < g.bootStart then 0xFF else flash[i]
    requires RangeWritten(g, flash1, base, data, 0, n, flash2)
    ensures forall i | 0 <= i < |flash| :: flash2[i] == ProgrammedByte(g, flash, base, data, n, i)
  {
    var last := g.PageOf(base + n - 1);
    PageBounds(g, base + n - 1);
    if last < base {
      AlignedApart(g, last, base);
    }
    hide Geometry.PageOf, Geometry.Valid;
  }

  lemma NothingProgrammed(g: Geometry, flash: seq<Byte>, base: nat, data: seq<Byte>, flash1: seq<Byte>)
    requires g.Valid() && g.Aligned(base) && |flash1| == |flash|
    requires forall i | 0 <= i < |flash| ::
               flash1[i] == if base <= i < base + g.pageSize && i < g.bootStart then 0xFF else flash[i]
    ensures forall i | 0 <= i < |flash| :: flash1[i] == ProgrammedByte(g, flash, base, data, 0, i)
  {
  }

  lemma ProgramNothing(g: Geometry, d: Device, data: seq<Byte>, base: nat)
    requires g.pageSize > 0
    ensures ProgramWords(g, d, data, 0, 0, base, base, 0) == (d, true)
  {
  }

  lemma ProgramMisaligned(g: Geometry, d: Device, base: nat, data: seq<Byte>, n: nat)
    requires g.Valid() && !g.Aligned(base)
    ensures ProgramWords(g, Exec(g, d, ErasePage(base)), data, 0, n / 2, base, base, 0).0.flash == d.flash
  {
    hide Exec, ProgramWords, Geometry.Valid, Geometry.Aligned;
    ValidPageSize(g);
    MisalignedRefused(g, d, base);
    MisalignedWordsIgnored(g, d, data, 0, n / 2, base, base, 0);
  }

  lemma ProgramDevice(g: Geometry, d: Device, base: nat, data: seq<Byte>, n: nat)
    requires g.Valid() && n % 2 == 0 && n <= |data|
    ensures var d1 := Exec(g, d, ErasePage(base));
            var (d', done) := ProgramWords(g, d1, data, 0, n / 2, base, base, 0);
            && done
            && |d'.flash| == |d.flash|
            && forall i | 0 <= i < |d.flash| :: d'.flash[i] == ProgrammedByte(g, d.flash, base, data, n, i)
  {
    hide Exec, ProgramWords, Geometry.PageOf, Geometry.Valid, Geometry.Aligned, Filling;
    ValidPageSize(g);
    var d1 := Exec(g, d, ErasePage(base));
    ProgramWordsDone(g, d1, data, 0, n / 2, base, base, 0);
    if !g.Aligned(base) {
      ProgramMisaligned(g, d, base, data, n);
    } else {
      NextPageErased(g, d, base, data, 0);
      if n == 0 {
        ProgramNothing(g, d1, data, base);
        NothingProgrammed(g, d.flash, base, data, d1.flash);
      } else {
        ProgramWordsRange(g, d1, data, base, 0, 0, n / 2);
        var d' := ProgramWords(g, d1, data, 0, n / 2, base, base, 0).0;
        hide ProgrammedByte;
        RangeAfterErase(g, d.flash, base, data, n, d1.flash, d'.flash);
      }
    }
  }

  /**
   * A program command with enough payload, to an unlocked device: flash is programmed with the payload's whole
   * words from the start address, if that is page-aligned, and the range is then behind the start address.
   */
  lemma DnloadProgramsRange(c: Config, s: State, w: Word, start: Word, end: Word, payload: seq<Byte>)
    requires c.g.Valid() && !s.secure && !s.waitForExit
    requires w != 0 && w != 6 && TransferBytes(start, end) <= |payload|
    ensures var s' := Handle(c, s, Dnload(w, RangeCommand(1, start, end), payload)).0;
            var base, n := LongAddress(s.flash64K, start), TransferBytes(start, end);
            && !s'.secure && !s'.waitForExit && s'.state.DnloadIdle? && s'.flash64K == s.flash64K && s'.startAddr == end
            && s'.eeprom == s.eeprom
            && |s'.dev.flash| == |s.dev.flash|
            && forall i | 0 <= i < |s.dev.flash| ::
                 s'.dev.flash[i] == ProgrammedByte(c.g, s.dev.flash, base, payload, n, i)
  {
    hide ProgramWords, Exec, LoadStartEndAddresses, LoadCommand, ProgrammedByte, LongAddress, Geometry.Valid;
    var base, n := LongAddress(s.flash64K, start), TransferBytes(start, end);
    ValidPageSize(c.g);
    CommandLoaded(s, w, 1, 0, start, end);
    ProgramDevice(c.g, s.dev, base, payload, n);
    assert n / 2 == RangeBytes(start, end) / 2;
  }

  // ---------- reading back ----------

  lemma {:induction false} FlashWordsByte(g: Geometry, flash: seq<Byte>, a: nat, words: nat, i: nat)
    requires i < 2 * words
    ensures FlashWords(g, flash, a, words)[i] == FlashByte(g, flash, a + i)
    decreases words
  {
    hide FlashByte;
    if i >= 2 {
      FlashWordsByte(g, flash, a + 2, words - 1, i - 2);
    }
  }

  /** A read command and an UPLOAD on an unlocked device return the range's whole words. */
  lemma UploadReturnsRange(c: Config, s: State, w: Word, w': Word, start: Word, end: Word, payload: seq<Byte>)
    requires c.g.Valid() && !s.secure && !s.waitForExit && w != 0
    ensures var s1 := Handle(c, s, Dnload(w, RangeCommand(3, start, end), payload)).0;
            var (s2, out) := Handle(c, s1, Upload(w'));
            && s1.state.UploadIdle? && s2.state.DfuIdle? && s2.dev == s.dev && s2.startAddr == end
            && out == FlashWords(c.g, s.dev.flash, LongAddress(s.flash64K, start), TransferBytes(start, end) / 2)
  {
    hide FlashWords, LoadCommand, LoadStartEndAddresses, LongAddress, FirstNonBlank, Geometry.Valid;
    ValidPageSize(c.g);
    CommandLoaded(s, w, 3, 0, start, end);
    assert TransferBytes(start, end) / 2 == RangeBytes(start, end) / 2;
  }

  /**
   * What comes back for byte `i` of a payload: the byte itself if the range starts on a page and the byte lies below
   * the boot section, else what the flash held before, as the 16-bit or long read finds it.
   */
  function ReadBackByte(g: Geometry, flash: seq<Byte>, base: nat, data: seq<Byte>, i: nat): Byte
    requires g.pageSize > 0 && i < |data|
  {
    if g.Aligned(base) && base + i < g.bootStart then data[i] else FlashByte(g, flash, base + i)
  }

  lemma TransferSize(start: Word, end: Word)
    ensures TransferBytes(start, end) / 2 * 2 == TransferBytes(start, end) < 0x1_0000
  {
  }

  /** The loops transfer the whole range exactly if it is even and not a whole bank. */
  lemma TransferWhole(start: Word, end: Word)
    requires start <= end
    ensures var n := end - start + 1;
            TransferBytes(start, end) <= n && (TransferBytes(start, end) == n <==> n < 0x1_0000 && n % 2 == 0)
  {
  }

  lemma ReadBack(g: Geometry, flash: seq<Byte>, flash': seq<Byte>, base: nat, data: seq<Byte>, n: nat, i: nat)
    requires g.Valid() && |flash| == |flash'| == g.flashSize && i < n <= |data| && n < 0x1_0000
    requires forall k | 0 <= k < |flash| :: flash'[k] == ProgrammedByte(g, flash, base, data, n, k)
    ensures FlashByte(g, flash', base + i) == ReadBackByte(g, flash, base, data, i)
  {
    hide Geometry.PageOf, Geometry.Aligned, ProgrammedByte;
    var a := base + i;
    if g.flashSize <= 0x1_0000 && a >= 0x1_0000 {
      assert a % 0x1_0000 < base;
    }
    var k := if g.flashSize > 0x1_0000 then a else a % 0x1_0000;
    if k < |flash| {
      ByteProgrammed(g, flash, base, data, n, k);
    }
  }

  lemma ByteProgrammed(g: Geometry, flash: seq<Byte>, base: nat, data: seq<Byte>, n: nat, k: nat)
    requires g.Valid() && n <= |data| && k < |flash|
    ensures g.Aligned(base) && base <= k < base + n && k < g.bootStart ==>
              ProgrammedByte(g, flash, base, data, n, k) == data[k - base]
    ensures !(g.Aligned(base) && base <= k && k < g.bootStart) ==> ProgrammedByte(g, flash, base, data, n, k) == flash[k]
  {
    hide Geometry.PageOf;
  }

  /**
   * Programming any range of flash and reading it back, whatever its start, length and parity: the whole words of the
   * range are sent, each byte as `ReadBackByte` says.
   */
  lemma ProgramThenReadSends(c: Config, s: State, w: Word, w': Word, w'': Word, start: Word, end: Word,
                             payload: seq<Byte>, ignored: seq<Byte>)
    requires c.g.Valid() && |s.dev.flash| == c.g.flashSize && !s.secure && !s.waitForExit
    requires w != 0 && w != 6 && w' != 0 && TransferBytes(start, end) <= |payload|
    ensures var sent := Session(c, s, [Dnload(w, RangeCommand(1, start, end), payload),
                                       Dnload(w', RangeCommand(3, start, end), ignored),
                                       Upload(w'')]).1;
            && |sent| == 3 && sent[0] == [] && sent[1] == []
            && |sent[2]| == TransferBytes(start, end)
            && forall i | 0 <= i < TransferBytes(start, end) ::
                 sent[2][i] == ReadBackByte(c.g, s.dev.flash, LongAddress(s.flash64K, start), payload, i)
  {
    hide Handle, FlashWords, FlashByte, ProgrammedByte, ReadBackByte, LongAddress, RangeCommand, Session;
    hide Geometry.Valid, TransferBytes;
    var base, n := LongAddress(s.flash64K, start), TransferBytes(start, end);
    TransferSize(start, end);
    ValidPageSize(c.g);
    var r0 := Dnload(w, RangeCommand(1, start, end), payload);
    var r1 := Dnload(w', RangeCommand(3, start, end), ignored);
    DnloadProgramsRange(c, s, w, start, end, payload);
    var s1 := Handle(c, s, r0).0;
    UploadReturnsRange(c, s1, w', w'', start, end, ignored);
    SessionOfThree(c, s, r0, r1, Upload(w''));
    DnloadIsSilent(c, s, r0);
    DnloadIsSilent(c, s1, r1);
    forall i | 0 <= i < n
      ensures FlashWords(c.g, s1.dev.flash, base, n / 2)[i] == ReadBackByte(c.g, s.dev.flash, base, payload, i)
    {
      FlashWordsByte(c.g, s1.dev.flash, base, n / 2, i);
      ReadBack(c.g, s.dev.flash, s1.dev.flash, base, payload, n, i);
    }
  }

  /**
   * Exactly when the round trip returns the payload, for every range the host can name: fewer than 65536 bytes (whose
   * number wraps to zero), an even number of them, and each byte either programmed, which takes a page-aligned start
   * and an address below the boot section, or in the flash already.
   */
  lemma RoundTripExactlyWhen(c: Config, s: State, w: Word, w': Word, w'': Word, start: Word, end: Word,
                             payload: seq<Byte>, ignored: seq<Byte>)
    requires c.g.Valid() && |s.dev.flash| == c.g.flashSize && !s.secure && !s.waitForExit
    requires w != 0 && w != 6 && w' != 0 && start <= end && end - start + 1 <= |payload|
    ensures var base, n := LongAddress(s.flash64K, start), end - start + 1;
            var sent := Session(c, s, [Dnload(w, RangeCommand(1, start, end), payload),
                                       Dnload(w', RangeCommand(3, start, end), ignored),
                                       Upload(w'')]).1;
            sent == [[], [], payload[..n]] <==>
            && n < 0x1_0000 && n % 2 == 0
            && (forall i | 0 <= i < n ::
                  (c.g.Aligned(base) && base + i < c.g.bootStart) || FlashByte(c.g, s.dev.flash, base + i) == payload[i])
  {
    hide Session, RangeCommand, LongAddress, FlashByte, TransferBytes, Geometry.Valid;
    var base, n := LongAddress(s.flash64K, start), end - start + 1;
    TransferWhole(start, end);
    ValidPageSize(c.g);
    ProgramThenReadSends(c, s, w, w', w'', start, end, payload, ignored);
    var sent := Session(c, s, [Dnload(w, RangeCommand(1, start, end), payload),
                               Dnload(w', RangeCommand(3, start, end), ignored),
                               Upload(w'')]).1;
    SameSent(sent[2], payload[..n]);
    assert sent == [sent[0], sent[1], sent[2]];
  }

  lemma SameSent(a: seq<Byte>, b: seq<Byte>)
    ensures a == b <==> |a| == |b| && forall i | 0 <= i < |b| :: a[i] == b[i]
  {
  }

  /** The usual case: an even range that starts on a page and ends below the boot section comes back as it was sent. */
  lemma ProgramThenRead(c: Config, s: State, w: Word, w': Word, w'': Word, start: Word, end: Word,
                        payload: seq<Byte>, ignored: seq<Byte>)
    requires c.g.Valid() && |s.dev.flash| == c.g.flashSize && !s.secure && !s.waitForExit
    requires w != 0 && w != 6 && w' != 0
    requires start <= end && (end - start + 1) % 2 == 0 && |payload| >= end - start + 1
    requires var base := LongAddress(s.flash64K, start);
             c.g.Aligned(base) && base + (end - start + 1) <= c.g.bootStart
    requires end - start + 1 < 0x1_0000
    ensures Session(c, s, [Dnload(w, RangeCommand(1, start, end), payload),
                           Dnload(w', RangeCommand(3, start, end), ignored),
                           Upload(w'')]).1
            == [[], [], payload[..end - start + 1]]
  {
    hide Session, RangeCommand, LongAddress, Geometry.Valid;
    RoundTripExactlyWhen(c, s, w, w', w'', start, end, payload, ignored);
  }

  /** An AT90USB1287 with its boot section in the last 8 KB. */
  const BIG_PART := Geometry(0x100, 0x1_E000, 0x2_0000)

  /** Programming the whole first bank of such a part sends nothing back, though the range is even and aligned. */
  lemma WholeBankIsLost(c: Config, s: State, w: Word, w': Word, w'': Word, payload: seq<Byte>, ignored: seq<Byte>)
    requires c.g == BIG_PART && |s.dev.flash| == c.g.flashSize && !s.secure && !s.waitForExit && s.flash64K == 0
    requires w != 0 && w != 6 && w' != 0 && |payload| == 0x1_0000
    ensures Session(c, s, [Dnload(w, RangeCommand(1, 0, 0xFFFF), payload),
                           Dnload(w', RangeCommand(3, 0, 0xFFFF), ignored),
                           Upload(w'')]).1
            == [[], [], []]
  {
    hide Session, RangeCommand, ReadBackByte;
    assert TransferBytes(0, 0xFFFF) == 0;
    ProgramThenReadSends(c, s, w, w', w'', 0, 0xFFFF, payload, ignored);
    var sent := Session(c, s, [Dnload(w, RangeCommand(1, 0, 0xFFFF), payload),
                               Dnload(w', RangeCommand(3, 0, 0xFFFF), ignored),
                               Upload(w'')]).1;
    assert sent == [sent[0], sent[1], sent[2]];
  }

  lemma DnloadIsSilent(c: Config, s: State, req: Request)
    requires c.g.pageSize > 0 && req.Dnload?
    ensures Handle(c, s, req).1 == []
  {
  }

  lemma SessionOfThree(c: Config, s: State, r0: Request, r1: Request, r2: Request)
    requires c.g.pageSize > 0
    ensures var (s1, o0) := Handle(c, s, r0);
            var (s2, o1) := Handle(c, s1, r1);
            var (s3, o2) := Handle(c, s2, r2);
            Session(c, s, [r0, r1, r2]) == (s3, [o0, o1, o2])
  {
    hide Handle;
    var (s1, o0) := Handle(c, s, r0);
    var (s2, o1) := Handle(c, s1, r1);
    var (s3, o2) := Handle(c, s2, r2);
    assert [r0, r1, r2][1..] == [r1, r2] && [r1, r2][1..] == [r2] && [r2][1..] == [];
    assert Session(c, s3, []) == (s3, []);
    var none: seq<seq<Byte>> := [];
    assert [o2] + none == [o2] && [o1] + [o2] == [o1, o2] && [o0] + [o1, o2] == [o0, o1, o2];
    assert Session(c, s2, [r2]) == (s3, [o2]);
    assert Session(c, s1, [r1, r2]) == (s3, [o1, o2]);
  }

  // ---------- the blank check ----------

  lemma FlashByteAt(g: Geometry, flash: seq<Byte>, a: nat)
    requires a < |flash| && (g.flashSize <= 0x1_0000 ==> a < 0x1_0000)
    ensures FlashByte(g, flash, a) == flash[a]
  {
  }

  predicate BlankBelow(flash: seq<Byte>, n: nat) {
    n <= |flash| && forall i | 0 <= i < n :: flash[i] == 0xFF
  }

  lemma {:induction false} FirstNonBlankIs(g: Geometry, flash: seq<Byte>, a: nat)
    requires g.Valid() && |flash| == g.flashSize && a <= g.bootStart && BlankBelow(flash, a)
    ensures var r := FirstNonBlank(g, flash, a);
            BlankBelow(flash, r) && (r < g.bootStart ==> flash[r] != 0xFF)
    decreases g.bootStart - a
  {
    if a < g.bootStart {
      FlashByteAt(g, flash, a);
      if flash[a] == 0xFF {
        FirstNonBlankIs(g, flash, a + 1);
      }
    }
  }

  lemma BlankCheckLoaded(s: State, w: Word)
    ensures LoadCommand(s.(dataSize := w), [3, 1, 0, 0, 0, 0]) ==
            s.(command := 3, params := [1, 0, 0, 0, 0], dataSize := (w - 6) % 0x1_0000)
  {
    var packet: seq<Byte> := [3, 1, 0, 0, 0, 0];
    assert packet[1..6] + s.params[5..] == [1, 0, 0, 0, 0];
  }

  /**
   * The blank check of an idle, unlocked device: no error exactly if the application is blank; otherwise the next
   * upload sends the low word of the first address that is not, and the bank is set to its high byte.
   */
  lemma BlankCheckTells(c: Config, s: State, w: Word, w': Word, payload: seq<Byte>)
    requires c.g.Valid() && |s.dev.flash| == c.g.flashSize && !s.secure && !s.waitForExit && s.state.DfuIdle? && w != 0
    ensures var s1 := Handle(c, s, Dnload(w, [3, 1, 0, 0, 0, 0], payload)).0;
            && s1.dev == s.dev
            && (s1.state.DfuIdle? <==> BlankBelow(s.dev.flash, c.g.bootStart))
            && (!s1.state.DfuIdle? ==>
                  exists a: nat ::
                    && a < c.g.bootStart && BlankBelow(s.dev.flash, a) && s.dev.flash[a] != 0xFF
                    && s1.state.DfuError? && s1.status == 5
                    && s1.flash64K == a / 0x1_0000 % 0x100
                    && Handle(c, s1, Upload(w')).1 == [a % 0x100, a / 0x100 % 0x100])
  {
    hide LoadCommand, LoadStartEndAddresses, FirstNonBlank, BlankBelow, Download;
    assert BlankBelow(s.dev.flash, 0) by {
      NothingBelow(s.dev.flash);
    }
    FirstNonBlankIs(c.g, s.dev.flash, 0);
    BlankCheckLoaded(s, w);
    var a := FirstNonBlank(c.g, s.dev.flash, 0);
    NotBlankAt(s.dev.flash, a, c.g.bootStart);
    var s1 := Handle(c, s, Dnload(w, [3, 1, 0, 0, 0, 0], payload)).0;
    if a < c.g.bootStart {
      LowWord(a);
      assert s1 == s.(command := 3, params := [1, 0, 0, 0, 0], dataSize := (w - 6) % 0x1_0000,
                      flash64K := a / 0x1_0000 % 0x100, startAddr := a % 0x1_0000,
                      state := DfuError, status := 5);
    }
  }

  lemma NothingBelow(flash: seq<Byte>)
    ensures BlankBelow(flash, 0)
  {
  }

  lemma NotBlankAt(flash: seq<Byte>, a: nat, n: nat)
    requires a < |flash| && a <= n && (a < n ==> flash[a] != 0xFF) && BlankBelow(flash, a)
    ensures BlankBelow(flash, n) <==> a == n
  {
  }

  lemma LowWord(a: nat)
    ensures a % 0x1_0000 % 0x100 == a % 0x100 && a % 0x1_0000 / 0x100 == a / 0x100 % 0x100
  {
  }
}
