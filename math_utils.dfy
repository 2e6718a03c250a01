/** Java's 64-bit and 32-bit integer semantics, and the overflow-checked helper
    operations the duration code calls. The helper's own source is not part of
    this model: each operation is given by its contract, the exact result when it
    fits in a long and an overflow failure otherwise. */
module MathUtils {
  import opened Results

  const MIN_LONG: int := -0x8000_0000_0000_0000
  const MAX_LONG: int := 0x7FFF_FFFF_FFFF_FFFF
  const MIN_INT: int := -0x8000_0000
  const MAX_INT: int := 0x7FFF_FFFF
  const TWO_TO_64: int := 0x1_0000_0000_0000_0000

  predicate IsLong(x: int) {
    MIN_LONG <= x <= MAX_LONG
  }

  predicate IsInt(x: int) {
    MIN_INT <= x <= MAX_INT
  }

  function Abs(x: int): nat {
    if x < 0 then -x else x
  }

  /** Java's `/` on integers: the quotient truncated toward zero. */
  function Quot(a: int, b: int): (q: int)
    requires b != 0
    ensures Abs(q) * Abs(b) <= Abs(a) < (Abs(q) + 1) * Abs(b)
    ensures q == 0 || ((q > 0) <==> ((a > 0) == (b > 0)))
  {
    var m := Abs(a) / Abs(b);
    if (a >= 0) == (b > 0) then m else -m
  }

  /** Java's `%` on integers: what `Quot` leaves over, with the sign of the dividend. */
  function Rem(a: int, b: int): (r: int)
    requires b != 0
    ensures Abs(r) < Abs(b)
    ensures r == 0 || ((r > 0) <==> (a > 0))
  {
    a - b * Quot(a, b)
  }

  /** `BigInteger.longValue()`: the low 64 bits read as a two's-complement long. */
  function Wrap64(x: int): (r: int)
    ensures IsLong(r) && (x - r) % TWO_TO_64 == 0
    ensures IsLong(x) ==> r == x
  {
    (x - MIN_LONG) % TWO_TO_64 + MIN_LONG
  }

  /** `BigInteger.bitLength()`: the number of bits of the shortest two's-complement
      form of `x`, not counting the sign bit. */
  function BitLength(x: int): nat
    decreases x < 0, Abs(x)
  {
    if x < 0 then BitLength(-x - 1)
    else if x == 0 then 0
    else 1 + BitLength(x / 2)
  }

  function Pow2(k: nat): (p: nat)
    ensures p >= 1
  {
    if k == 0 then 1 else 2 * Pow2(k - 1)
  }

  function Pow10(k: nat): (p: nat)
    ensures p >= 1
  {
    if k == 0 then 1 else 10 * Pow10(k - 1)
  }

  lemma {:induction false} BitLengthBelow(x: nat, k: nat)
    ensures BitLength(x) <= k <==> x < Pow2(k)
  {
    if x == 0 {
    } else if k == 0 {
    } else {
      BitLengthBelow(x / 2, k - 1);
    }
  }

  lemma {:induction false} Pow2Sum(a: nat, b: nat)
    ensures Pow2(a + b) == Pow2(a) * Pow2(b)
  {
    if a > 0 {
      Pow2Sum(a - 1, b);
    }
  }

  lemma Pow2SixtyThree()
    ensures Pow2(63) == MAX_LONG + 1
  {
    Pow2Small();
    Pow2Sum(8, 7);
    Pow2Sum(8, 8);
    Pow2Sum(16, 15);
    Pow2Sum(16, 16);
    Pow2Sum(32, 31);
  }

  lemma Pow2Small()
    ensures Pow2(7) == 128 && Pow2(8) == 256
  {
    assert Pow2(4) == 16;
  }

  /** A value needs more than 63 bits exactly when it lies outside the long range,
      so `bitLength() > 63` is the long-capacity check. */
  lemma BitLengthLong(x: int)
    ensures BitLength(x) <= 63 <==> IsLong(x)
  {
    Pow2SixtyThree();
    if x < 0 {
      BitLengthBelow(-x - 1, 63);
    } else {
      BitLengthBelow(x, 63);
    }
  }

  function SafeAdd(a: int, b: int): Result<int>
    requires IsLong(a) && IsLong(b)
  {
    if IsLong(a + b) then Ok(a + b) else Err(Overflow)
  }

  function SafeSubtract(a: int, b: int): Result<int>
    requires IsLong(a) && IsLong(b)
  {
    if IsLong(a - b) then Ok(a - b) else Err(Overflow)
  }

  function SafeMultiply(a: int, b: int): Result<int>
    requires IsLong(a) && IsLong(b)
  {
    if IsLong(a * b) then Ok(a * b) else Err(Overflow)
  }

  function SafeIncrement(a: int): Result<int>
    requires IsLong(a)
  {
    if a == MAX_LONG then Err(Overflow) else Ok(a + 1)
  }

  function SafeDecrement(a: int): Result<int>
    requires IsLong(a)
  {
    if a == MIN_LONG then Err(Overflow) else Ok(a - 1)
  }

  /** A three-way comparison: -1, 0 or 1. */
  function SafeCompare(a: int, b: int): int {
    if a < b then -1 else if a == b then 0 else 1
  }
}
