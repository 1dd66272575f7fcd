/** AVR application flash behind the bootloader API: page erase, page write and temporary-buffer fill. */
module Flash {
  import opened Words

  /**
   * The build-time constants SPM_PAGESIZE and BOOT_START_ADDR and the size of the flash.
   * A page size that divides 2^16 is a power of two, so masking with SPM_PAGESIZE - 1 is `%`.
   */
  datatype Geometry = Geometry(pageSize: nat, bootStart: nat, flashSize: nat) {
    ghost predicate Valid() {
      && 2 <= pageSize <= 0x100
      && 0x1_0000 % pageSize == 0
      && pageSize % 2 == 0
      && bootStart % pageSize == 0
      && bootStart < flashSize <= 0x100_0000
    }

    /** The value `a` has in a `flashaddr_t`, which is 16 bits wide unless the flash needs more. */
    function Wrap(a: nat): nat {
      if flashSize > 0x1_0000 then a % 0x1_0000_0000 else a % 0x1_0000
    }

    /** The address of the page that holds `a`. */
    function PageOf(a: nat): (p: nat)
      requires pageSize > 0
      ensures p <= a
    {
      ModBelow(a, pageSize);
      a - a % pageSize
    }

    /** `a` is the address of a page. */
    predicate Aligned(a: nat) {
      pageSize > 0 && a % pageSize == 0
    }

    predicate IsPageAddressValid(a: nat)
      requires pageSize > 0
    {
      a < bootStart && Aligned(a)
    }
  }

  // ---------- page arithmetic ----------

  lemma ModBelow(a: nat, n: nat)
    requires n > 0
    ensures 0 <= a % n <= a && a % n < n
  {
  }

  lemma MultipleOf(k: int, n: nat)
    requires n > 0
    ensures k * n % n == 0
  {
    var r := k * n % n;
    var q := k * n / n;
    assert (k - q) * n == r;
    assert k - q >= 1 ==> (k - q) * n >= n;
    assert k - q <= -1 ==> (q - k) * n >= n;
  }

  /** Every address lies in exactly one page, and that page starts at `PageOf`. */
  lemma PageBounds(g: Geometry, a: nat)
    requires g.pageSize > 0
    ensures g.PageOf(a) <= a < g.PageOf(a) + g.pageSize
    ensures g.PageOf(a) % g.pageSize == 0
  {
    var n := g.pageSize;
    ModBelow(a, n);
    assert a - a % n == a / n * n;
    MultipleOf(a / n, n);
  }

  lemma AlignedApart(g: Geometry, p: nat, q: nat)
    requires g.pageSize > 0 && p % g.pageSize == 0 && q % g.pageSize == 0 && p < q
    ensures p + g.pageSize <= q
  {
    var n := g.pageSize;
    assert p == p / n * n && q == q / n * n;
    assert q / n > p / n;
    assert (q / n) * n >= (p / n + 1) * n;
  }

  lemma PageOfUnique(g: Geometry, a: nat, p: nat)
    requires g.pageSize > 0 && p % g.pageSize == 0 && p <= a < p + g.pageSize
    ensures g.PageOf(a) == p
  {
    PageBounds(g, a);
    var q := g.PageOf(a);
    if p < q {
      AlignedApart(g, p, q);
    } else if q < p {
      AlignedApart(g, q, p);
    }
  }

  lemma NextPage(g: Geometry, p: nat)
    requires g.pageSize > 0 && p % g.pageSize == 0
    ensures (p + g.pageSize) % g.pageSize == 0
  {
    var n := g.pageSize;
    assert p + n == (p / n + 1) * n;
    MultipleOf(p / n + 1, n);
  }

  lemma NextAligned(g: Geometry, p: nat)
    requires g.Aligned(p)
    ensures g.Aligned(p + g.pageSize)
  {
    NextPage(g, p);
  }

  lemma PageOfAligned(g: Geometry, a: nat, p: nat)
    requires g.Aligned(p) && p <= a < p + g.pageSize
    ensures g.PageOf(a) == p
  {
    PageOfUnique(g, a, p);
  }

  /** A page that starts below the boot section ends there. */
  lemma PageBelowBoot(g: Geometry, p: nat)
    requires g.Valid() && g.Aligned(p) && p < g.bootStart
    ensures p + g.pageSize <= g.bootStart && g.IsPageAddressValid(p)
  {
    AlignedApart(g, p, g.bootStart);
  }

  /** Pages start at even addresses. */
  lemma PageEven(g: Geometry, p: nat)
    requires g.Valid() && p % g.pageSize == 0
    ensures p % 2 == 0
  {
    var n := g.pageSize;
    assert p == p / n * n;
    assert n == n / 2 * 2;
    assert p == (p / n * (n / 2)) * 2;
  }

  // ---------- the flash and its temporary page buffer ----------

  /** `temp` holds the words loaded into the temporary buffer, keyed by their even offset in the page. */
  datatype Device = Device(flash: seq<Byte>, temp: map<nat, Word>)

  datatype FlashOp = ErasePage(addr: nat) | FillWord(addr: nat, word: Word) | WritePage(addr: nat)

  function ErasedAt(flash: seq<Byte>, a: nat, n: nat): (r: seq<Byte>)
    ensures |r| == |flash|
    ensures forall i | 0 <= i < |r| :: r[i] == if a <= i < a + n then 0xFF else flash[i]
  {
    seq(|flash|, i requires 0 <= i < |flash| => if a <= i < a + n then 0xFF else flash[i])
  }

  /** The byte the temporary buffer holds at an offset: 0xFF where no word was loaded. */
  function TempByte(temp: map<nat, Word>, offset: nat): Byte {
    if offset % 2 == 0 then
      if offset in temp then temp[offset] % 0x100 else 0xFF
    else
      if offset - 1 in temp then temp[offset - 1] / 0x100 else 0xFF
  }

  function WrittenAt(flash: seq<Byte>, a: nat, n: nat, temp: map<nat, Word>): (r: seq<Byte>)
    ensures |r| == |flash|
    ensures forall i | 0 <= i < |r| ::
              r[i] == if a <= i < a + n then Programmed(flash[i], TempByte(temp, i - a)) else flash[i]
  {
    seq(|flash|, i requires 0 <= i < |flash| =>
      if a <= i < a + n then Programmed(flash[i], TempByte(temp, i - a)) else flash[i])
  }

  /** The key of a word in the temporary buffer: the hardware ignores the page bits and bit 0. */
  function TempKey(g: Geometry, a: nat): nat
    requires g.pageSize > 0
  {
    ModBelow(a, g.pageSize);
    a % g.pageSize / 2 * 2
  }

  function Exec(g: Geometry, d: Device, op: FlashOp): Device
    requires g.pageSize > 0
  {
    match op
    case ErasePage(a) =>
      if g.IsPageAddressValid(a) then Device(ErasedAt(d.flash, a, g.pageSize), map[]) else d
    case FillWord(a, w) =>
      var k := TempKey(g, a);
      // a word of the temporary buffer can be loaded only once until the buffer is cleared
      if k in d.temp then d else d.(temp := d.temp[k := w])
    case WritePage(a) =>
      if g.IsPageAddressValid(a) then Device(WrittenAt(d.flash, a, g.pageSize, d.temp), map[]) else d
  }

  function ExecAll(g: Geometry, d: Device, ops: seq<FlashOp>): Device
    requires g.pageSize > 0
    decreases |ops|
  {
    if ops == [] then d else ExecAll(g, Exec(g, d, ops[0]), ops[1..])
  }

  lemma {:induction false} ExecAllConcat(g: Geometry, d: Device, xs: seq<FlashOp>, ys: seq<FlashOp>)
    requires g.pageSize > 0
    ensures ExecAll(g, d, xs + ys) == ExecAll(g, ExecAll(g, d, xs), ys)
    decreases |xs|
  {
    if xs == [] {
      assert xs + ys == ys;
    } else {
      assert (xs + ys)[1..] == xs[1..] + ys;
      ExecAllConcat(g, Exec(g, d, xs[0]), xs[1..], ys);
    }
  }

  /**
   * Whatever operations are issued, the API's page check keeps the boot section as it was;
   * the size of the flash never changes.
   */
  lemma {:induction false} BootSectionUntouched(g: Geometry, d: Device, ops: seq<FlashOp>)
    requires g.Valid()
    ensures |ExecAll(g, d, ops).flash| == |d.flash|
    ensures forall i | g.bootStart <= i < |d.flash| :: ExecAll(g, d, ops).flash[i] == d.flash[i]
    decreases |ops|
  {
    if ops != [] {
      var a := ops[0].addr;
      if g.IsPageAddressValid(a) {
        AlignedApart(g, a, g.bootStart);
      }
      var d1 := Exec(g, d, ops[0]);
      BootSectionUntouched(g, d1, ops[1..]);
      assert forall i | g.bootStart <= i < |d.flash| :: d1.flash[i] == d.flash[i];
    }
  }

  /** The flash as the bootloader API drives it: memory cells and temporary buffer updated in place. */
  class FlashMemory {
    const g: Geometry
    const flash: array<Byte>
    var temp: map<nat, Word>

    ghost predicate Valid() {
      g.Valid()
    }

    ghost function Contents(): Device
      reads this, flash
    {
      Device(flash[..], temp)
    }

    constructor (g: Geometry, flash: array<Byte>)
      requires g.Valid()
      ensures Valid() && this.g == g && this.flash == flash
      ensures Contents() == Device(flash[..], map[])
    {
      this.g := g;
      this.flash := flash;
      temp := map[];
    }

    method ErasePageAt(a: nat)
      requires Valid()
      modifies this, flash
      ensures Contents() == Exec(g, old(Contents()), ErasePage(a))
    {
      if !g.IsPageAddressValid(a) {
        return;
      }
      forall i | a <= i < a + g.pageSize && i < flash.Length {
        flash[i] := 0xFF;
      }
      temp := map[];
      assert flash[..] == ErasedAt(old(flash[..]), a, g.pageSize);
    }

    method WritePageAt(a: nat)
      requires Valid()
      modifies this, flash
      ensures Contents() == Exec(g, old(Contents()), WritePage(a))
    {
      if !g.IsPageAddressValid(a) {
        return;
      }
      forall i | a <= i < a + g.pageSize && i < flash.Length {
        flash[i] := Programmed(flash[i], TempByte(temp, i - a));
      }
      temp := map[];
      assert flash[..] == WrittenAt(old(flash[..]), a, g.pageSize, old(temp));
    }

    method Fill(a: nat, w: Word)
      requires Valid()
      modifies this
      ensures Contents() == Exec(g, old(Contents()), FillWord(a, w))
    {
      var k := TempKey(g, a);
      if k !in temp {
        temp := temp[k := w];
      }
    }
  }
}
