/**
 * The CRC as a remainder of polynomials over GF(2), by the generator of IEEE 802.3 section 3.2.9. A polynomial is the
 * sequence of its coefficients, the highest power first.
 */
module CrcPolynomial {
  import opened Crc

  type Poly = seq<bool>

  function Zero(n: nat): (p: Poly)
    ensures |p| == n && forall i | 0 <= i < n :: !p[i]
  {
    seq(n, i => false)
  }

  function Plus(a: Poly, b: Poly): (p: Poly)
    requires |a| == |b|
    ensures |p| == |a| && forall i | 0 <= i < |a| :: p[i] == (a[i] != b[i])
  {
    seq(|a|, i requires 0 <= i < |a| => a[i] != b[i])
  }

  function Scaled(bit: bool, p: Poly): (r: Poly)
    ensures |r| == |p|
  {
    if bit then p else Zero(|p|)
  }

  /** Multiplication: by Horner's rule in the first factor. */
  function Times(q: Poly, p: Poly): (r: Poly)
    requires p != []
    ensures |r| == |q| + |p| - 1
  {
    if q == [] then Zero(|p| - 1)
    else
      var n := |q| - 1;
      Plus(Times(q[..n], p) + [false], Zero(n) + Scaled(q[n], p))
  }

  const EXPONENTS := {32, 26, 23, 22, 16, 12, 11, 10, 8, 7, 5, 4, 2, 1, 0}

  function Generator(): (g: Poly)
    ensures |g| == 33 && g[0]
  {
    seq(33, i requires 0 <= i < 33 => 32 - i in EXPONENTS)
  }

  /** The low `n` bits of a register, lowest first: the CRC's register is reflected. */
  function Coefficients(c: bv32, n: nat): (p: Poly)
    ensures |p| == n
    decreases n
  {
    if n == 0 then [] else [Odd(c)] + Coefficients(Half(c), n - 1)
  }

  function Register(c: bv32): (p: Poly)
    ensures |p| == 32
  {
    Coefficients(c, 32)
  }

  /** The bits of a message, each byte sent low bit first. */
  function Message(id: Id): (p: Poly)
    ensures |p| == 8 * |id|
  {
    if id == [] then [] else Coefficients(Wide(id[0]), 8) + Message(id[1..])
  }

  // ---------- addition ----------

  lemma PlusConcat(a: Poly, b: Poly, c: Poly, d: Poly)
    requires |a| == |b| && |c| == |d|
    ensures Plus(a + c, b + d) == Plus(a, b) + Plus(c, d)
  {
  }

  lemma PlusAssociative(a: Poly, b: Poly, c: Poly)
    requires |a| == |b| == |c|
    ensures Plus(Plus(a, b), c) == Plus(a, Plus(b, c))
  {
  }

  lemma PlusZero(a: Poly)
    ensures Plus(a, Zero(|a|)) == a && Plus(Zero(|a|), a) == a
  {
  }

  lemma ZeroConcat(m: nat, n: nat)
    ensures Zero(m) + Zero(n) == Zero(m + n)
  {
  }

  lemma ZeroOne(n: nat)
    ensures Zero(n) + [false] == Zero(n + 1) == [false] + Zero(n)
  {
  }

  lemma Concat(a: Poly, b: Poly, c: Poly)
    ensures (a + b) + c == a + (b + c)
  {
  }

  lemma NoCarry()
    ensures Plus([false], [false]) == [false]
  {
  }

  // ---------- registers ----------

  lemma {:induction false} CoefficientsSum(x: bv32, y: bv32, n: nat)
    ensures Coefficients(Sum(x, y), n) == Plus(Coefficients(x, n), Coefficients(y, n))
    decreases n
  {
    hide Sum, Half, Odd;
    if n > 0 {
      HalfSum(x, y);
      OddSum(x, y);
      CoefficientsSum(Half(x), Half(y), n - 1);
    }
  }

  function Halved(c: bv32, n: nat): bv32
    decreases n
  {
    if n == 0 then c else Halved(Half(c), n - 1)
  }

  lemma {:induction false} CoefficientsSplit(c: bv32, m: nat, n: nat)
    ensures Coefficients(c, m + n) == Coefficients(c, m) + Coefficients(Halved(c, m), n)
    decreases m
  {
    hide Half, Odd;
    if m == 0 {
      assert [] + Coefficients(c, n) == Coefficients(c, n);
    } else {
      CoefficientsSplit(Half(c), m - 1, n);
      Concat([Odd(c)], Coefficients(Half(c), m - 1), Coefficients(Halved(c, m), n));
    }
  }

  lemma {:induction false} CoefficientsZero(n: nat)
    ensures Coefficients(0, n) == Zero(n)
  {
    if n > 0 {
      CoefficientsZero(n - 1);
    }
  }

  lemma {:induction false} HalvedTwice(c: bv32, m: nat, n: nat)
    ensures Halved(c, m + n) == Halved(Halved(c, m), n)
    decreases m
  {
    hide Half;
    if m > 0 {
      HalvedTwice(Half(c), m - 1, n);
    }
  }

  function Down(c: bv32): bv32 {
    c >> 8
  }

  lemma HalvedByte(c: bv32)
    ensures Halved(c, 8) == Down(c)
  {
    var h := Half(Half(Half(Half(c))));
    EightHalves(c);
    hide Half, Down;
    assert Halved(c, 4) == h;
    assert Halved(h, 4) == Half(Half(Half(Half(h))));
    HalvedTwice(c, 4, 4);
  }

  lemma EightHalves(c: bv32)
    ensures Half(Half(Half(Half(Half(Half(Half(Half(c)))))))) == Down(c)
  {
  }

  lemma NothingLeft(c: bv32)
    ensures Down(Down(Down(Down(c)))) == 0
  {
  }

  lemma HalvedAway(c: bv32)
    ensures Halved(c, 32) == 0
  {
    hide Halved, Down;
    HalvedTwice(c, 8, 24);
    HalvedTwice(Down(c), 8, 16);
    HalvedTwice(Down(Down(c)), 8, 8);
    HalvedByte(c);
    HalvedByte(Down(c));
    HalvedByte(Down(Down(c)));
    HalvedByte(Down(Down(Down(c))));
    NothingLeft(c);
  }

  /** A register shifted by one, written with one more coefficient. */
  lemma RegisterHalf(c: bv32)
    ensures Register(c) + [false] == [Odd(c)] + Register(Half(c))
  {
    CoefficientsSplit(c, 32, 1);
    HalvedAway(c);
    assert Coefficients(0, 1) == [false] + Coefficients(Half(0), 0);
    hide Half, Odd, Halved;
  }

  lemma ByteRegister(b: bv8)
    ensures Register(Wide(b)) == Coefficients(Wide(b), 8) + Zero(24)
  {
    CoefficientsSplit(Wide(b), 8, 24);
    HalvedByte(Wide(b));
    assert Down(Wide(b)) == 0;
    CoefficientsZero(24);
    hide Coefficients, Halved, Wide;
  }

  /** The program's constant holds the coefficients of the generator below its highest. */
  lemma GeneratorRegister()
    ensures [true] + Register(POLYNOMIAL) == Generator()
  {
    hide Coefficients, Halved, Down, Generator;
    CoefficientsSplit(POLYNOMIAL, 8, 24);
    HalvedByte(POLYNOMIAL);
    CoefficientsSplit(0xEDB883, 8, 16);
    HalvedByte(0xEDB883);
    CoefficientsSplit(0xEDB8, 8, 8);
    HalvedByte(0xEDB8);
    ShiftedPolynomial();
    PolynomialBytes();
    GeneratorBits();
    assert Register(POLYNOMIAL) == Coefficients(POLYNOMIAL, 8) + (Coefficients(0xEDB883, 8)
                                   + (Coefficients(0xEDB8, 8) + Coefficients(0xED, 8)));
  }

  lemma PolynomialBytes()
    ensures Coefficients(POLYNOMIAL, 8) == [false, false, false, false, false, true, false, false]
    ensures Coefficients(0xEDB883, 8) == [true, true, false, false, false, false, false, true]
    ensures Coefficients(0xEDB8, 8) == [false, false, false, true, true, true, false, true]
    ensures Coefficients(0xED, 8) == [true, false, true, true, false, true, true, true]
  {
    EightCoefficients(POLYNOMIAL);
    EightCoefficients(0xEDB883);
    EightCoefficients(0xEDB8);
    EightCoefficients(0xED);
    hide Coefficients;
  }

  lemma GeneratorBits()
    ensures Generator() == [true,
                            false, false, false, false, false, true, false, false,
                            true, true, false, false, false, false, false, true,
                            false, false, false, true, true, true, false, true,
                            true, false, true, true, false, true, true, true]
  {
  }

  lemma ShiftedPolynomial()
    ensures Down(POLYNOMIAL) == 0xEDB883 && Down(0xEDB883) == 0xEDB8 && Down(0xEDB8) == 0xED
  {
  }

  predicate Bit(c: bv32, mask: bv32) {
    c & mask == mask
  }

  /** The bits of half a register are those of the register one place up. */
  lemma HalfBits(c: bv32)
    ensures Odd(c) == Bit(c, 1) && Bit(Half(c), 1) == Bit(c, 2)
    ensures Bit(Half(c), 2) == Bit(c, 4) && Bit(Half(c), 4) == Bit(c, 8) && Bit(Half(c), 8) == Bit(c, 16)
    ensures Bit(Half(c), 16) == Bit(c, 32) && Bit(Half(c), 32) == Bit(c, 64) && Bit(Half(c), 64) == Bit(c, 128)
  {
  }

  lemma CoefficientsNext(c: bv32, n: nat)
    ensures Coefficients(c, n + 1) == [Odd(c)] + Coefficients(Half(c), n)
    ensures Halved(c, n + 1) == Halved(Half(c), n)
    ensures Coefficients(c, 0) == [] && Halved(c, 0) == c
  {
    hide Half, Odd;
  }

  lemma FourNext(c: bv32)
    ensures var c1 := Half(c); var c2 := Half(c1); var c3 := Half(c2);
            Coefficients(c, 4) == [Odd(c), Odd(c1), Odd(c2), Odd(c3)] && Halved(c, 4) == Half(c3)
  {
    hide Half, Odd, Coefficients, Halved;
    var c1 := Half(c);
    var c2 := Half(c1);
    var c3 := Half(c2);
    CoefficientsNext(c, 3);
    CoefficientsNext(c1, 2);
    CoefficientsNext(c2, 1);
    CoefficientsNext(c3, 0);
    CoefficientsNext(Half(c3), 0);
    FourConcat(Odd(c), Odd(c1), Odd(c2), Odd(c3));
  }

  lemma FourConcat(a: bool, b: bool, c: bool, d: bool)
    ensures [a] + ([b] + ([c] + ([d] + []))) == [a, b, c, d]
  {
  }

  lemma FourCoefficients(c: bv32)
    ensures Coefficients(c, 4) == [Bit(c, 1), Bit(c, 2), Bit(c, 4), Bit(c, 8)]
    ensures var h := Halved(c, 4);
            Bit(h, 1) == Bit(c, 16) && Bit(h, 2) == Bit(c, 32) && Bit(h, 4) == Bit(c, 64) && Bit(h, 8) == Bit(c, 128)
  {
    hide Half, Odd, Bit, Coefficients, Halved;
    FourNext(c);
    HalfBits(c);
    HalfBits(Half(c));
    HalfBits(Half(Half(c)));
    HalfBits(Half(Half(Half(c))));
  }

  lemma EightCoefficients(c: bv32)
    ensures Coefficients(c, 8) == [Bit(c, 1), Bit(c, 2), Bit(c, 4), Bit(c, 8),
                                   Bit(c, 16), Bit(c, 32), Bit(c, 64), Bit(c, 128)]
  {
    hide Half, Odd, Bit, Coefficients, Halved;
    CoefficientsSplit(c, 4, 4);
    FourCoefficients(c);
    FourCoefficients(Halved(c, 4));
  }

  // ---------- division ----------

  /** One shift: the register times x is the bit shifted out times the generator, plus the new register. */
  lemma ShiftDivides(c: bv32)
    ensures Register(c) + [false] == Plus(Scaled(Odd(c), Generator()), [false] + Register(Shift(c)))
  {
    hide Shift, Half, Odd, Sum, Coefficients;
    RegisterHalf(c);
    ShiftByParity(c);
    GeneratorRegister();
    CoefficientsSum(Half(c), POLYNOMIAL, 32);
    var h := Register(Half(c));
    if Odd(c) {
      var g := Register(POLYNOMIAL);
      PlusConcat([true], [false], g, Plus(h, g));
      assert Plus(g, Plus(h, g)) == h;
      assert Plus([true], [false]) == [true];
    } else {
      ZeroOne(32);
      PlusConcat([false], [false], Zero(32), h);
      PlusZero(h);
      assert Plus([false], [false]) == [false];
    }
  }

  lemma TimesNext(q: Poly, bit: bool, p: Poly)
    requires p != []
    ensures Times(q + [bit], p) == Plus(Times(q, p) + [false], Zero(|q|) + Scaled(bit, p))
  {
    assert (q + [bit])[..|q|] == q;
  }

  /** Any number of shifts divides the register times that power of x. */
  lemma {:induction false} ShiftsDivide(c: bv32, n: nat) returns (q: Poly)
    ensures |q| == n
    ensures Register(c) + Zero(n) == Plus(Times(q, Generator()), Zero(n) + Register(Shifts(c, n)))
  {
    hide Shift, Register, Plus, Zero, Scaled, Generator;
    var g := Generator();
    if n == 0 {
      q := [];
      PlusZero(Register(c));
      assert Register(c) + Zero(0) == Register(c) == Zero(0) + Register(c);
    } else {
      var q' := ShiftsDivide(c, n - 1);
      var c' := Shifts(c, n - 1);
      ShiftDivides(c');
      var t, r, r', s := Times(q', g), Register(c'), Register(Shift(c')), Scaled(Odd(c'), g);
      q := q' + [Odd(c')];
      TimesNext(q', Odd(c'), g);
      ZeroOne(n - 1);
      Concat(Register(c), Zero(n - 1), [false]);
      Concat(Zero(n - 1), r, [false]);
      Concat(Zero(n - 1), [false], r');
      PlusConcat(t, Zero(n - 1) + r, [false], [false]);
      NoCarry();
      PlusConcat(Zero(n - 1), Zero(n - 1), s, [false] + r');
      PlusZero(Zero(n - 1));
      PlusAssociative(t + [false], Zero(n - 1) + s, Zero(n) + r');
    }
  }

  lemma TimesSteps(a: Poly, b: Poly, s: Poly, k: nat, n: nat)
    requires |a| + n == k + |b| && |b| + 1 == n + |s|
    ensures Plus(Plus(a + Zero(n), Zero(k) + b) + [false], Zero(k + n) + s)
         == Plus(a + Zero(n + 1), Zero(k) + Plus(b + [false], Zero(n) + s))
  {
    hide Plus, Zero;
    NoCarry();
    PlusConcat(a + Zero(n), Zero(k) + b, [false], [false]);
    Concat(a, Zero(n), [false]);
    ZeroOne(n);
    Concat(Zero(k), b, [false]);
    ZeroConcat(k, n);
    Concat(Zero(k), Zero(n), s);
    PlusAssociative(a + Zero(n + 1), Zero(k) + (b + [false]), Zero(k) + (Zero(n) + s));
    PlusConcat(Zero(k), Zero(k), b + [false], Zero(n) + s);
    PlusZero(Zero(k));
  }

  /** Multiplication distributes over the two parts of its first factor. */
  lemma {:induction false} TimesConcat(q: Poly, r: Poly, p: Poly)
    requires p != []
    ensures Times(q + r, p) == Plus(Times(q, p) + Zero(|r|), Zero(|q|) + Times(r, p))
    decreases |r|
  {
    hide Plus, Zero, Scaled, Times;
    if r == [] {
      TimesNone(p);
      assert q + r == q;
      assert Times(q, p) + Zero(0) == Times(q, p);
      ZeroConcat(|q|, |p| - 1);
      PlusZero(Times(q, p));
    } else {
      var n := |r| - 1;
      var init, bit := r[..n], r[n];
      assert r == init + [bit] && q + r == (q + init) + [bit];
      TimesConcat(q, init, p);
      TimesNext(q + init, bit, p);
      TimesNext(init, bit, p);
      TimesSteps(Times(q, p), Times(init, p), Scaled(bit, p), |q|, n);
    }
  }

  lemma TimesNone(p: Poly)
    requires p != []
    ensures Times([], p) == Zero(|p| - 1)
  {
  }

  /** The two sides for a first byte and the rest, lined up. */
  lemma DivisionSteps(rc: Poly, b: Poly, m: Poly, s: Poly, t1: Poly, r1: Poly, t2: Poly, r: Poly, k: nat)
    requires |rc| == |r1| == |r| == |s| == 32 && |b| == 8 && |m| == k && |t1| == 40 && |t2| == k + 32
    requires s == Plus(rc, b + Zero(24))
    requires s + Zero(8) == Plus(t1, Zero(8) + r1)
    requires Plus(r1 + Zero(k), m + Zero(32)) == Plus(t2, Zero(k) + r)
    ensures Plus(rc + Zero(8 + k), (b + m) + Zero(32))
         == Plus(Plus(t1 + Zero(k), Zero(8) + t2), Zero(8 + k) + r)
  {
    hide Plus, Zero;
    var low := m + Zero(32);
    // the left side: the register and the first byte, then the rest of the message
    Concat(b, m, Zero(32));
    PlusZero(b);
    PlusZero(low);
    PlusConcat(b, Zero(8), Zero(k + 32), low);
    ZeroConcat(24, 8 + k);
    Concat(b, Zero(24), Zero(8 + k));
    PlusConcat(rc, b + Zero(24), Zero(8 + k), Zero(8 + k));
    PlusZero(Zero(8 + k));
    PlusAssociative(rc + Zero(8 + k), b + Zero(k + 32), Zero(8) + low);
    assert Plus(rc + Zero(8 + k), (b + m) + Zero(32)) == Plus(s + Zero(8 + k), Zero(8) + low);
    // the first byte divided
    ZeroConcat(8, k);
    Concat(s, Zero(8), Zero(k));
    PlusConcat(t1, Zero(8) + r1, Zero(k), Zero(k));
    PlusZero(Zero(k));
    Concat(Zero(8), r1, Zero(k));
    PlusAssociative(t1 + Zero(k), Zero(8) + (r1 + Zero(k)), Zero(8) + low);
    PlusConcat(Zero(8), Zero(8), r1 + Zero(k), low);
    PlusZero(Zero(8));
    // the rest divided
    PlusConcat(Zero(8), Zero(8), t2, Zero(k) + r);
    Concat(Zero(8), Zero(k), r);
    PlusAssociative(t1 + Zero(k), Zero(8) + t2, Zero(8) + (Zero(k) + r));
  }

  /**
   * For every identifier of n bytes there is a quotient: the message times x^32 plus the initial register times x^8n
   * is the quotient times the generator plus the CRC, which has fewer coefficients than the generator.
   */
  lemma {:induction false} CrcIsDivision(c: bv32, id: Id) returns (q: Poly)
    ensures |q| == 8 * |id|
    ensures Plus(Register(c) + Zero(|q|), Message(id) + Zero(32))
         == Plus(Times(q, Generator()), Zero(|q|) + Register(CrcFrom(c, id)))
    decreases |id|
  {
    hide Shifts, Sum, Wide, Coefficients, Register, Plus, Zero, Generator;
    if id == [] {
      q := [];
      assert Register(c) + Zero(0) == Register(c) == Zero(0) + Register(c);
      assert Message(id) + Zero(32) == Zero(32);
      PlusZero(Register(c));
    } else {
      var sum := Sum(c, Wide(id[0]));
      var q1 := ShiftsDivide(sum, 8);
      var q2 := CrcIsDivision(Absorb(c, id[0]), id[1..]);
      q := q1 + q2;
      TimesConcat(q1, q2, Generator());
      SumRegister(c, id[0]);
      DivisionSteps(Register(c), Coefficients(Wide(id[0]), 8), Message(id[1..]), Register(sum), Times(q1, Generator()),
                    Register(Absorb(c, id[0])), Times(q2, Generator()), Register(CrcFrom(c, id)), |q2|);
    }
  }

  lemma SumRegister(c: bv32, b: bv8)
    ensures Register(Sum(c, Wide(b))) == Plus(Register(c), Coefficients(Wide(b), 8) + Zero(24))
  {
    CoefficientsSum(c, Wide(b), 32);
    ByteRegister(b);
    hide Coefficients, Sum, Wide;
  }
}
