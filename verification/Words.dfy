/** Fixed-width integers of the firmware, as ranges of `int`. */
module Words {

  type Byte = b: int | 0 <= b < 0x100

  type Word = w: int | 0 <= w < 0x1_0000

  /** The two bytes of a 16-bit word as the AVR stores them, low byte first. */
  function WordOf(low: Byte, high: Byte): Word {
    low + 0x100 * high
  }

  lemma BytesOfWord(low: Byte, high: Byte)
    ensures WordOf(low, high) % 0x100 == low && WordOf(low, high) / 0x100 == high
  {
    assert (low + 0x100 * high) / 0x100 == high;
  }

  /** Bitwise AND, bit by bit. */
  function AndBits(a: nat, b: nat): (r: nat)
    ensures r <= a && r <= b
  {
    if a == 0 || b == 0 then 0
    else (if a % 2 == 1 && b % 2 == 1 then 1 else 0) + 2 * AndBits(a / 2, b / 2)
  }

  /** The number whose low `n` bits are ones. */
  function Ones(n: nat): nat {
    if n == 0 then 0 else 1 + 2 * Ones(n - 1)
  }

  lemma {:induction false} AndOnes(n: nat, b: nat)
    requires b <= Ones(n)
    ensures AndBits(Ones(n), b) == b
    ensures AndBits(b, Ones(n)) == b
  {
    if b != 0 {
      AndOnes(n - 1, b / 2);
    }
  }

  /** Programming flash can only clear bits, so an erased byte takes any value and 0xFF changes nothing. */
  function Programmed(old': Byte, new': Byte): (r: Byte)
    ensures old' == 0xFF ==> r == new'
    ensures new' == 0xFF ==> r == old'
  {
    assert Ones(8) == 0xFF;
    AndOnes(8, old');
    AndOnes(8, new');
    AndBits(old', new')
  }

  lemma AppendAssoc<T>(a: seq<T>, b: seq<T>, c: seq<T>)
    ensures (a + b) + c == a + (b + c)
  {
  }
}
