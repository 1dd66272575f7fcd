/**
 * The CRC-32 of the board's identifier: a linear map over GF(2), so algebra tells which identifiers differ.
 * CrcPolynomial says what it is the remainder of.
 */
module Crc {

  type Id = seq<bv8>

  const POLYNOMIAL: bv32 := 0xEDB88320
  const INITIAL: bv32 := 0x0123_4567

  /** One bit of the division, least significant bit first. */
  function Shift(c: bv32): bv32 {
    if c & 1 == 1 then (c >> 1) ^ POLYNOMIAL else c >> 1
  }

  function Shifts(c: bv32, n: nat): bv32 {
    if n == 0 then c else Shift(Shifts(c, n - 1))
  }

  function Half(x: bv32): bv32 {
    x >> 1
  }

  predicate Odd(x: bv32) {
    x & 1 == 1
  }

  /** Addition over GF(2), and a byte as a register. */
  function Sum(x: bv32, y: bv32): bv32 {
    x ^ y
  }

  function Wide(b: bv8): bv32 {
    b as bv32
  }

  function Absorb(c: bv32, b: bv8): bv32 {
    Shifts(Sum(c, Wide(b)), 8)
  }

  function CrcFrom(c: bv32, id: Id): bv32
    decreases |id|
  {
    if id == [] then c else CrcFrom(Absorb(c, id[0]), id[1..])
  }

  function Crc(id: Id): bv32 {
    CrcFrom(INITIAL, id)
  }

  lemma ShiftByParity(x: bv32)
    ensures Shift(x) == if Odd(x) then Sum(Half(x), POLYNOMIAL) else Half(x)
  {
  }

  /** `generate_crc32` for the identifier bytes of any board. */
  method GenerateCrc32(id: Id) returns (crc: bv32)
    ensures crc == Crc(id) == CrcFrom(0x0123_4567, id)
  {
    hide Shift, Half, Odd, Sum, Wide;
    crc := INITIAL;
    var i := 0;
    while i < |id|
      invariant 0 <= i <= |id|
      invariant CrcFrom(crc, id[i..]) == Crc(id)
    {
      ghost var before := crc;
      crc := Sum(crc, Wide(id[i]));
      ghost var mixed := crc;
      var j := 0;
      while j < 8
        invariant 0 <= j <= 8
        invariant crc == Shifts(mixed, j)
      {
        ShiftByParity(crc);
        if Odd(crc) {
          crc := Sum(Half(crc), POLYNOMIAL);
        } else {
          crc := Half(crc);
        }
        j := j + 1;
      }
      assert crc == Absorb(before, id[i]);
      assert id[i..][0] == id[i] && id[i..][1..] == id[i + 1..];
      i := i + 1;
    }
    assert id[i..] == [];
  }

  // ---------- linearity ----------

  lemma HalfSum(x: bv32, y: bv32)
    ensures Half(Sum(x, y)) == Sum(Half(x), Half(y))
  {
  }

  lemma OddSum(x: bv32, y: bv32)
    ensures Odd(Sum(x, y)) <==> Odd(x) != Odd(y)
  {
  }

  lemma SumAssociative(x: bv32, y: bv32, z: bv32)
    ensures Sum(Sum(x, y), z) == Sum(x, Sum(y, z))
  {
  }

  lemma SumCommutative(x: bv32, y: bv32)
    ensures Sum(x, y) == Sum(y, x)
  {
  }

  lemma SumCancels(x: bv32)
    ensures Sum(x, x) == 0
  {
  }

  lemma SumWithZero(x: bv32)
    ensures Sum(x, 0) == x
  {
  }

  lemma SumSwap(x: bv32, y: bv32, a: bv32, b: bv32)
    ensures Sum(Sum(x, a), Sum(y, b)) == Sum(Sum(x, y), Sum(a, b))
  {
    hide Sum;
    SumAssociative(x, a, Sum(y, b));
    SumAssociative(a, y, b);
    SumCommutative(a, y);
    SumAssociative(y, a, b);
    SumAssociative(x, y, Sum(a, b));
  }

  lemma SumSteps(x: bv32, y: bv32, p: bv32)
    ensures Sum(Sum(x, p), Sum(y, p)) == Sum(x, y)
    ensures Sum(Sum(x, p), y) == Sum(Sum(x, y), p)
    ensures Sum(x, Sum(y, p)) == Sum(Sum(x, y), p)
  {
    hide Sum;
    SumSwap(x, y, p, p);
    SumCancels(p);
    SumWithZero(Sum(x, y));
    SumAssociative(x, p, y);
    SumCommutative(p, y);
    SumAssociative(x, y, p);
  }

  lemma ShiftLinear(x: bv32, y: bv32)
    ensures Shift(Sum(x, y)) == Sum(Shift(x), Shift(y))
  {
    hide Shift, Sum, Half, Odd;
    HalfSum(x, y);
    OddSum(x, y);
    ShiftByParity(x);
    ShiftByParity(y);
    ShiftByParity(Sum(x, y));
    SumSteps(Half(x), Half(y), POLYNOMIAL);
  }

  lemma ShiftInjective(x: bv32, y: bv32)
    requires Shift(x) == Shift(y)
    ensures x == y
  {
  }

  lemma {:induction false} ShiftsLinear(x: bv32, y: bv32, n: nat)
    ensures Shifts(Sum(x, y), n) == Sum(Shifts(x, n), Shifts(y, n))
  {
    hide Shift, Sum;
    if n > 0 {
      ShiftsLinear(x, y, n - 1);
      ShiftLinear(Shifts(x, n - 1), Shifts(y, n - 1));
    }
  }

  lemma {:induction false} ShiftsInjective(x: bv32, y: bv32, n: nat)
    requires Shifts(x, n) == Shifts(y, n)
    ensures x == y
  {
    hide Shift;
    if n > 0 {
      ShiftInjective(Shifts(x, n - 1), Shifts(y, n - 1));
      ShiftsInjective(x, y, n - 1);
    }
  }

  /** Bytewise exclusive or of two identifiers. */
  function Xor(a: Id, b: Id): (c: Id)
    requires |a| == |b|
    ensures |c| == |a|
    decreases |a|
  {
    if a == [] then [] else [a[0] ^ b[0]] + Xor(a[1..], b[1..])
  }

  lemma {:induction false} XorAt(a: Id, b: Id, i: nat)
    requires |a| == |b| && i < |a|
    ensures Xor(a, b)[i] == a[i] ^ b[i]
  {
    if i > 0 {
      XorAt(a[1..], b[1..], i - 1);
    }
  }

  lemma WideXor(a: bv8, b: bv8)
    ensures Wide(a ^ b) == Sum(Wide(a), Wide(b))
  {
  }

  lemma MixedSum(x: bv32, y: bv32, a: bv8, b: bv8)
    ensures Sum(Sum(x, Wide(a)), Sum(y, Wide(b))) == Sum(Sum(x, y), Wide(a ^ b))
  {
    hide Sum, Wide;
    WideXor(a, b);
    SumSwap(x, y, Wide(a), Wide(b));
  }

  /** The difference of two CRCs is the CRC of the difference, from the difference of the registers. */
  lemma {:induction false} CrcDifference(x: bv32, y: bv32, a: Id, b: Id)
    requires |a| == |b|
    ensures Sum(CrcFrom(x, a), CrcFrom(y, b)) == CrcFrom(Sum(x, y), Xor(a, b))
    decreases |a|
  {
    hide Shifts, Sum, Wide;
    if a != [] {
      ShiftsLinear(Sum(x, Wide(a[0])), Sum(y, Wide(b[0])), 8);
      MixedSum(x, y, a[0], b[0]);
      assert Xor(a, b)[0] == a[0] ^ b[0] && Xor(a, b)[1..] == Xor(a[1..], b[1..]);
      CrcDifference(Absorb(x, a[0]), Absorb(y, b[0]), a[1..], b[1..]);
    }
  }

  /** The CRC is affine over GF(2). */
  lemma CrcAffine(a: Id, b: Id, c: Id)
    requires |a| == |b| == |c|
    ensures Crc(a) ^ Crc(b) ^ Crc(c) == Crc(Xor(Xor(a, b), c))
  {
    hide CrcFrom, Xor;
    CrcDifference(INITIAL, INITIAL, a, b);
    CrcDifference(Sum(INITIAL, INITIAL), INITIAL, Xor(a, b), c);
    assert Sum(Sum(INITIAL, INITIAL), INITIAL) == INITIAL;
  }

  // ---------- which identifiers are told apart ----------

  /** Up to four bytes as one little-endian word. */
  function Pack(w: Id): bv32
    requires |w| <= 4
  {
    if w == [] then 0 else Join(w[0], Pack(w[1..]))
  }

  lemma {:induction false} PackBound(w: Id)
    requires |w| <= 3
    ensures Pack(w) & 0xFF00_0000 == 0
    ensures |w| <= 2 ==> Pack(w) & 0xFFFF_0000 == 0
    ensures |w| <= 1 ==> Pack(w) & 0xFFFF_FF00 == 0
  {
    if w != [] {
      PackBound(w[1..]);
    }
  }

  function Twice(v: bv32): bv32 {
    v << 1
  }

  /** `v` doubled `n` times. */
  function Doubled(v: bv32, n: nat): bv32
    decreases n
  {
    if n == 0 then v else Doubled(Twice(v), n - 1)
  }

  /** None of the doublings loses a bit. */
  predicate Roomy(v: bv32, n: nat)
    decreases n
  {
    n == 0 || (v & 0x8000_0000 == 0 && Roomy(Twice(v), n - 1))
  }

  lemma ShiftTwice(v: bv32)
    requires v & 0x8000_0000 == 0
    ensures Shift(Twice(v)) == v
  {
  }

  lemma {:induction false} ShiftsDoubled(v: bv32, n: nat)
    requires Roomy(v, n)
    ensures Shifts(Doubled(v, n), n) == v
    decreases n
  {
    hide Shift, Twice;
    if n > 0 {
      ShiftsDoubled(Twice(v), n - 1);
      ShiftTwice(v);
    }
  }

  function Up(v: bv32): bv32 {
    v << 8
  }

  lemma RoomyByte(v: bv32)
    requires v & 0xFF00_0000 == 0
    ensures Roomy(v, 8)
  {
  }

  lemma DoubledByte(v: bv32)
    ensures Doubled(v, 8) == Up(v)
  {
  }

  /** Eight shifts drop a zero low byte. */
  lemma ShiftsDropZeroByte(v: bv32)
    requires v & 0xFF00_0000 == 0
    ensures Shifts(Up(v), 8) == v
  {
    hide Shifts, Up, Roomy, Doubled;
    RoomyByte(v);
    DoubledByte(v);
    ShiftsDoubled(v, 8);
  }

  function Join(b: bv8, p: bv32): bv32 {
    Wide(b) | Up(p)
  }

  lemma SumSolved(x: bv32, b: bv8, p: bv32)
    requires Sum(x, Wide(b)) == Up(p)
    ensures x == Join(b, p)
  {
  }

  /** Up to four bytes bring the register to zero only if it was those bytes. */
  lemma {:induction false} FourBytesCancel(x: bv32, w: Id)
    requires |w| <= 4 && CrcFrom(x, w) == 0
    ensures x == Pack(w)
    decreases |w|
  {
    hide Shifts, Sum, Wide, Join, Up;
    if w != [] {
      var rest := w[1..];
      FourBytesCancel(Absorb(x, w[0]), rest);
      PackBound(rest);
      ShiftsDropZeroByte(Pack(rest));
      ShiftsInjective(Sum(x, Wide(w[0])), Up(Pack(rest)), 8);
      SumSolved(x, w[0], Pack(rest));
    }
  }

  lemma {:induction false} PackZero(w: Id)
    requires |w| <= 4 && Pack(w) == 0
    ensures forall i | 0 <= i < |w| :: w[i] == 0
  {
    if w != [] {
      PackBound(w[1..]);
      PackSplit(w[0], Pack(w[1..]));
      PackZero(w[1..]);
      assert forall i | 0 < i < |w| :: w[i] == w[1..][i - 1];
    }
  }

  lemma PackSplit(b: bv8, p: bv32)
    requires Join(b, p) == 0 && p & 0xFF00_0000 == 0
    ensures b == 0 && p == 0
  {
  }

  ghost predicate Zeros(w: Id) {
    forall i | 0 <= i < |w| :: w[i] == 0
  }

  lemma ShiftZero()
    ensures Shift(0) == 0
  {
  }

  lemma {:induction false} ShiftsZero(n: nat)
    ensures Shifts(0, n) == 0
  {
    if n > 0 {
      ShiftsZero(n - 1);
      ShiftZero();
    }
  }

  lemma SumZero(x: bv32)
    ensures Sum(x, Wide(0)) == x
  {
  }

  /** Zero bytes keep a zero register zero and a non-zero one non-zero. */
  lemma {:induction false} ZerosKeep(x: bv32, w: Id)
    requires Zeros(w)
    ensures CrcFrom(x, w) == 0 <==> x == 0
    decreases |w|
  {
    hide Shifts, Sum, Wide;
    if w != [] {
      SumZero(x);
      ShiftsZero(8);
      if Shifts(x, 8) == 0 {
        ShiftsInjective(x, 0, 8);
      }
      assert Zeros(w[1..]);
      ZerosKeep(Absorb(x, w[0]), w[1..]);
    }
  }

  lemma {:induction false} CrcConcat(x: bv32, a: Id, b: Id)
    ensures CrcFrom(x, a + b) == CrcFrom(CrcFrom(x, a), b)
    decreases |a|
  {
    hide Absorb;
    if a == [] {
      assert a + b == b;
    } else {
      assert (a + b)[1..] == a[1..] + b;
      CrcConcat(Absorb(x, a[0]), a[1..], b);
    }
  }

  lemma SumSame(x: bv32, y: bv32)
    ensures Sum(x, y) == 0 <==> x == y
  {
    hide Sum;
    SumAssociative(x, y, y);
    SumCancels(x);
    SumCancels(y);
    SumCommutative(0, y);
    SumWithZero(x);
    SumWithZero(y);
  }

  /** A non-zero difference within four bytes leaves the register non-zero. */
  lemma WindowDetected(d: Id, k: nat, n: nat)
    requires n <= 4 && k + n <= |d|
    requires Zeros(d[..k]) && Zeros(d[k + n..])
    ensures CrcFrom(0, d) == 0 ==> Zeros(d)
  {
    hide CrcFrom, Pack;
    var pre, w, post := d[..k], d[k..k + n], d[k + n..];
    assert d == pre + (w + post);
    CrcConcat(0, pre, w + post);
    CrcConcat(CrcFrom(0, pre), w, post);
    ZerosKeep(0, pre);
    ZerosKeep(CrcFrom(0, w), post);
    if CrcFrom(0, d) == 0 {
      FourBytesCancel(0, w);
      PackZero(w);
      forall i | 0 <= i < |d| ensures d[i] == 0 {
        if i < k {
          assert d[i] == pre[i];
        } else if i < k + n {
          assert d[i] == w[i - k];
        } else {
          assert d[i] == post[i - k - n];
        }
      }
    }
  }

  /** Distinct identifiers of one length that differ only within four consecutive bytes have different CRCs. */
  lemma NearbyIdsDiffer(a: Id, b: Id, k: nat)
    requires |a| == |b| && a != b
    requires forall i | 0 <= i < |a| && !(k <= i < k + 4) :: a[i] == b[i]
    ensures Crc(a) != Crc(b)
  {
    hide CrcFrom, Xor, Sum;
    var d := Xor(a, b);
    var first := if k < |a| then k else |a|;
    var n := if |a| - first < 4 then |a| - first else 4;
    CrcDifference(INITIAL, INITIAL, a, b);
    SumSame(INITIAL, INITIAL);
    SumSame(Crc(a), Crc(b));
    forall i | 0 <= i < |d| ensures d[i] == 0 <==> a[i] == b[i] {
      XorAt(a, b, i);
      ByteXorSame(a[i], b[i]);
    }
    assert Zeros(d[..first]);
    assert Zeros(d[first + n..]);
    WindowDetected(d, first, n);
    assert Zeros(d) ==> a == b;
  }

  lemma ByteXorSame(x: bv8, y: bv8)
    ensures x ^ y == 0 <==> x == y
  {
  }

  // ---------- five bytes can collide ----------

  /** A non-zero difference of five bytes that no CRC of this kind notices. */
  const BLIND: Id := [1, 0x96, 0x30, 0x07, 0x77]

  lemma BlindUnnoticed()
    ensures CrcFrom(0, BLIND) == 0
  {
  }

  /** Four is the limit: every identifier shares its CRC with another one that differs in five consecutive bytes. */
  lemma FiveBytesCollide(a: Id, k: nat) returns (b: Id)
    requires k + 5 <= |a|
    ensures |b| == |a| && b != a && Crc(b) == Crc(a)
    ensures forall i | 0 <= i < |a| && !(k <= i < k + 5) :: a[i] == b[i]
  {
    hide CrcFrom, Sum, Pack;
    var pre := seq(k, i => 0 as bv8);
    var post := seq(|a| - k - 5, i => 0 as bv8);
    var d := pre + (BLIND + post);
    b := Xor(a, d);
    CrcDifference(INITIAL, INITIAL, a, b);
    SumSame(INITIAL, INITIAL);
    SumSame(Crc(a), Crc(b));
    forall i | 0 <= i < |a| ensures b[i] == a[i] ^ d[i] && Xor(a, b)[i] == d[i] {
      XorAt(a, d, i);
      XorAt(a, b, i);
      XorTwice(a[i], d[i]);
    }
    assert Xor(a, b) == d;
    forall i | 0 <= i < |a| && !(k <= i < k + 5) ensures a[i] == b[i] {
      assert d[i] == 0;
      ByteXorZero(a[i]);
    }
    assert d[k] == 1;
    ByteXorOne(a[k]);
    CrcConcat(0, pre, BLIND + post);
    CrcConcat(CrcFrom(0, pre), BLIND, post);
    ZerosKeep(0, pre);
    ZerosKeep(0, post);
    BlindUnnoticed();
  }

  lemma XorTwice(x: bv8, d: bv8)
    ensures x ^ (x ^ d) == d
  {
  }

  lemma ByteXorZero(x: bv8)
    ensures x ^ 0 == x
  {
  }

  lemma ByteXorOne(x: bv8)
    ensures x ^ 1 != x
  {
  }
}
