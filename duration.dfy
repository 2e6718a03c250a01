/** The `Duration` value type: a length of time held as a whole number of
    seconds (a long) plus a nanosecond fraction in [0, 999_999_999] that is
    ADDED to the seconds, also when the duration is negative. Every operation is
    specified through `ToNanos`, the exact length in nanoseconds, and
    `Normalized`, the one valid duration of a given length. */
module Durations {
  import opened Results
  import opened MathUtils

  const NANOS_PER_SECOND: int := 1_000_000_000

  datatype Duration = Duration(seconds: int, nanos: int)

  /** The class invariant. */
  predicate Valid(d: Duration) {
    IsLong(d.seconds) && 0 <= d.nanos < NANOS_PER_SECOND
  }

  const ZERO: Duration := Duration(0, 0)

  /** `toNanos()`: the exact length in nanoseconds. For a valid duration the two
      fields are recovered from it by floor division. */
  function ToNanos(d: Duration): (n: int)
    ensures 0 <= d.nanos < NANOS_PER_SECOND ==>
              n / NANOS_PER_SECOND == d.seconds && n % NANOS_PER_SECOND == d.nanos
  {
    d.seconds * NANOS_PER_SECOND + d.nanos
  }

  /** The valid duration `total` nanoseconds long, or an overflow failure when
      its whole seconds do not fit in a long. */
  function Normalized(total: int): (r: Result<Duration>)
    ensures r.Ok? ==> Valid(r.value) && ToNanos(r.value) == total
    ensures r.Err? ==> r.error == Overflow
    ensures r.Ok? <==> MIN_LONG * NANOS_PER_SECOND <= total < (MAX_LONG + 1) * NANOS_PER_SECOND
  {
    var secs := total / NANOS_PER_SECOND;
    if IsLong(secs) then Ok(Duration(secs, total % NANOS_PER_SECOND)) else Err(Overflow)
  }

  /** Two valid durations of the same length are the same pair of fields. */
  lemma ToNanosInjective(a: Duration, b: Duration)
    requires Valid(a) && Valid(b) && ToNanos(a) == ToNanos(b)
    ensures a == b
  {
  }

  /** Every valid duration is the normal form of its own length. */
  lemma NormalizedToNanos(d: Duration)
    requires Valid(d)
    ensures Normalized(ToNanos(d)) == Ok(d)
  {
  }

  /** Truncating division followed by the sign fix-up `if (rem < 0) { rem += unit; quot--; }`
      is floor division. */
  lemma TruncationFixUp(a: int, unit: int)
    requires unit > 0
    ensures var q, r := Quot(a, unit), Rem(a, unit);
            (if r < 0 then q - 1 else q) == a / unit &&
            (if r < 0 then r + unit else r) == a % unit
  {
    var q, r := Quot(a, unit), Rem(a, unit);
    var q', r' := if r < 0 then q - 1 else q, if r < 0 then r + unit else r;
    assert a == unit * q' + r' && 0 <= r' < unit;
    DivModUnique(a, unit, q', r');
  }

  lemma DivModUnique(a: int, unit: int, q: int, r: int)
    requires unit > 0 && a == unit * q + r && 0 <= r < unit
    ensures q == a / unit && r == a % unit
  {
    var q0, r0 := a / unit, a % unit;
    var k := q - q0;
    assert unit * k == r0 - r by {
      assert unit * q == unit * q0 + unit * k;
    }
    if k >= 1 {
      MulAtLeast(unit, k);
    } else if k <= -1 {
      MulAtLeast(unit, -k);
    }
  }

  lemma MulAtLeast(unit: int, k: int)
    requires unit > 0 && k >= 1
    ensures unit * k >= unit
  {
  }

  //----------------------------------------------------------------------
  // Factories

  /** `seconds(long)`. */
  function Seconds(seconds: int): (d: Duration)
    requires IsLong(seconds)
    ensures Valid(d) && ToNanos(d) == seconds * NANOS_PER_SECOND
  {
    Duration(seconds, 0)
  }

  /** `seconds(long, long)`: any nanosecond adjustment, positive or negative. The
      intermediate sum can never overflow where the final seconds fit: a
      negative remainder comes only from a negative adjustment. */
  function SecondsAdjusted(seconds: int, nanoAdjustment: int): (r: Result<Duration>)
    requires IsLong(seconds) && IsLong(nanoAdjustment)
    ensures r == Normalized(seconds * NANOS_PER_SECOND + nanoAdjustment)
  {
    TruncationFixUp(nanoAdjustment, NANOS_PER_SECOND);
    var secs :- SafeAdd(seconds, Quot(nanoAdjustment, NANOS_PER_SECOND));
    var nos := Rem(nanoAdjustment, NANOS_PER_SECOND);
    if nos < 0 then
      var secs' :- SafeDecrement(secs);
      Ok(Duration(secs', nos + NANOS_PER_SECOND))
    else
      Ok(Duration(secs, nos))
  }

  /** `seconds(BigDecimal)` for the decimal `unscaled * 10^-scale`: the point is
      moved nine places right and the value must then be a whole number of
      nanoseconds. A scale that leaves the int range on the move fails as
      `BigDecimal` does, except for zero, whose scale is clamped instead. */
  function SecondsDecimal(unscaled: int, scale: int): (r: Result<Duration>)
    requires IsInt(scale)
    ensures unscaled == 0 ==> r == Ok(ZERO)
    ensures scale - 9 < MIN_INT && unscaled != 0 ==> r == Err(Overflow)
    ensures scale - 9 >= MIN_INT ==>
              (r == Err(Inexact) <==> scale > 9 && unscaled % Pow10(scale - 9) != 0)
    ensures r.Ok? ==> (Valid(r.value) &&
              (if scale <= 9 then ToNanos(r.value) == unscaled * Pow10(9 - scale)
               else ToNanos(r.value) * Pow10(scale - 9) == unscaled))
    ensures r.Err? && scale - 9 >= MIN_INT && r.error != Inexact ==>
              r.error == Overflow &&
              (if scale <= 9 then Normalized(unscaled * Pow10(9 - scale)).Err?
               else Normalized(unscaled / Pow10(scale - 9)).Err?)
  {
    if unscaled == 0 then Ok(ZERO)
    else if scale - 9 < MIN_INT then Err(Overflow)
    else if scale <= 9 then NanosBig(unscaled * Pow10(9 - scale))
    else if unscaled % Pow10(scale - 9) != 0 then Err(Inexact)
    else
      ExactQuotient(unscaled, Pow10(scale - 9));
      NanosBig(unscaled / Pow10(scale - 9))
  }

  lemma ExactQuotient(a: int, p: int)
    requires p > 0 && a % p == 0
    ensures (a / p) * p == a
  {
  }

  /** `millis(long)`; it cannot fail. */
  function Millis(millis: int): (d: Duration)
    requires IsLong(millis)
    ensures Valid(d) && ToNanos(d) == millis * 1_000_000
  {
    TruncationFixUp(millis, 1000);
    var secs := Quot(millis, 1000);
    var mos := Rem(millis, 1000);
    if mos < 0 then Duration(secs - 1, (mos + 1000) * 1_000_000)
    else Duration(secs, mos * 1_000_000)
  }

  /** `nanos(long)`; it cannot fail. */
  function Nanos(nanos: int): (d: Duration)
    requires IsLong(nanos)
    ensures Valid(d) && ToNanos(d) == nanos
  {
    TruncationFixUp(nanos, NANOS_PER_SECOND);
    var secs := Quot(nanos, NANOS_PER_SECOND);
    var nos := Rem(nanos, NANOS_PER_SECOND);
    if nos < 0 then Duration(secs - 1, nos + NANOS_PER_SECOND)
    else Duration(secs, nos)
  }

  /** `nanos(BigInteger)`: fails exactly when the length is too long to hold. */
  function NanosBig(nanos: int): (r: Result<Duration>)
    ensures r == Normalized(nanos)
  {
    var secs := Quot(nanos, NANOS_PER_SECOND);
    var nos := Rem(nanos, NANOS_PER_SECOND);
    BitLengthLong(secs);
    TruncationFixUp(nanos, NANOS_PER_SECOND);
    if BitLength(secs) > 63 then Err(Overflow)
    else SecondsAdjusted(secs, nos)
  }

  /** `standardMinutes(long)`: minutes of 60 seconds. */
  function StandardMinutes(minutes: int): (r: Result<Duration>)
    requires IsLong(minutes)
    ensures r == Normalized(minutes * 60 * NANOS_PER_SECOND)
  {
    var secs :- SafeMultiply(minutes, 60);
    Ok(Duration(secs, 0))
  }

  /** `standardHours(long)`: hours of 3600 seconds. */
  function StandardHours(hours: int): (r: Result<Duration>)
    requires IsLong(hours)
    ensures r == Normalized(hours * 3600 * NANOS_PER_SECOND)
  {
    var secs :- SafeMultiply(hours, 3600);
    Ok(Duration(secs, 0))
  }

  /** `standardDays(long)`: days of 86400 seconds. */
  function StandardDays(days: int): (r: Result<Duration>)
    requires IsLong(days)
    ensures r == Normalized(days * 86400 * NANOS_PER_SECOND)
  {
    var secs :- SafeMultiply(days, 86400);
    Ok(Duration(secs, 0))
  }

  /** The two fields `durationBetween` reads from an instant. */
  datatype Instant = Instant(epochSeconds: int, nanoOfSecond: int)

  predicate ValidInstant(i: Instant) {
    IsLong(i.epochSeconds) && 0 <= i.nanoOfSecond < NANOS_PER_SECOND
  }

  function EpochNanos(i: Instant): int {
    i.epochSeconds * NANOS_PER_SECOND + i.nanoOfSecond
  }

  /** `durationBetween`, as written: the seconds are subtracted with an overflow
      check before the borrow, so a difference of seconds just past the long
      range fails even when the borrow brings the result back into it. */
  function DurationBetween(start: Instant, end: Instant): (r: Result<Duration>)
    requires ValidInstant(start) && ValidInstant(end)
    ensures r == if IsLong(end.epochSeconds - start.epochSeconds)
                 then Normalized(EpochNanos(end) - EpochNanos(start))
                 else Err(Overflow)
  {
    var secs :- SafeSubtract(end.epochSeconds, start.epochSeconds);
    var nanos := end.nanoOfSecond - start.nanoOfSecond;
    if nanos < 0 then
      var secs' :- SafeDecrement(secs);
      Ok(Duration(secs', nanos + NANOS_PER_SECOND))
    else
      Ok(Duration(secs, nanos))
  }

  /** `durationBetween` with the borrow applied before the range check: it fails
      only when the true difference cannot be held. */
  function DurationBetweenExact(start: Instant, end: Instant): (r: Result<Duration>)
    requires ValidInstant(start) && ValidInstant(end)
    ensures r == Normalized(EpochNanos(end) - EpochNanos(start))
  {
    var nanos := end.nanoOfSecond - start.nanoOfSecond;
    var borrow := if nanos < 0 then 1 else 0;
    var secs := end.epochSeconds - start.epochSeconds - borrow;
    if IsLong(secs) then Ok(Duration(secs, nanos + borrow * NANOS_PER_SECOND)) else Err(Overflow)
  }

  //----------------------------------------------------------------------
  // Sign predicates. `(seconds | nanos) == 0` holds exactly when both are zero.

  function IsZero(d: Duration): (b: bool)
    requires Valid(d)
    ensures b <==> ToNanos(d) == 0
  {
    d.seconds == 0 && d.nanos == 0
  }

  function IsPositive(d: Duration): (b: bool)
    requires Valid(d)
    ensures b <==> ToNanos(d) > 0
  {
    d.seconds >= 0 && !(d.seconds == 0 && d.nanos == 0)
  }

  function IsPositiveOrZero(d: Duration): (b: bool)
    requires Valid(d)
    ensures b <==> ToNanos(d) >= 0
  {
    d.seconds >= 0
  }

  function IsNegative(d: Duration): (b: bool)
    requires Valid(d)
    ensures b <==> ToNanos(d) < 0
  {
    d.seconds < 0
  }

  function IsNegativeOrZero(d: Duration): (b: bool)
    requires Valid(d)
    ensures b <==> ToNanos(d) <= 0
  {
    d.seconds < 0 || (d.seconds == 0 && d.nanos == 0)
  }

  //----------------------------------------------------------------------
  // Addition and subtraction

  /** `plus(Duration)`, as written: the seconds are added with an overflow check
      before the carry, so a sum of seconds just below the long range fails even
      when the carry brings the result back into it. */
  function Plus(d: Duration, other: Duration): (r: Result<Duration>)
    requires Valid(d) && Valid(other)
    ensures r == if IsLong(d.seconds + other.seconds)
                 then Normalized(ToNanos(d) + ToNanos(other))
                 else Err(Overflow)
  {
    if other.seconds == 0 && other.nanos == 0 then Ok(d)
    else
      var secs :- SafeAdd(d.seconds, other.seconds);
      var nos := d.nanos + other.nanos;
      if nos >= NANOS_PER_SECOND then
        var secs' :- SafeIncrement(secs);
        Ok(Duration(secs', nos - NANOS_PER_SECOND))
      else
        Ok(Duration(secs, nos))
  }

  /** `plus(Duration)` with the carry applied before the range check. */
  function PlusExact(d: Duration, other: Duration): (r: Result<Duration>)
    requires Valid(d) && Valid(other)
    ensures r == Normalized(ToNanos(d) + ToNanos(other))
  {
    var nos := d.nanos + other.nanos;
    var carry := if nos >= NANOS_PER_SECOND then 1 else 0;
    var secs := d.seconds + other.seconds + carry;
    if IsLong(secs) then Ok(Duration(secs, nos - carry * NANOS_PER_SECOND)) else Err(Overflow)
  }

  /** `plusSeconds(long)`. */
  function PlusSeconds(d: Duration, secondsToAdd: int): (r: Result<Duration>)
    requires Valid(d) && IsLong(secondsToAdd)
    ensures r == Normalized(ToNanos(d) + secondsToAdd * NANOS_PER_SECOND)
  {
    if secondsToAdd == 0 then Ok(d)
    else
      var secs :- SafeAdd(d.seconds, secondsToAdd);
      Ok(Duration(secs, d.nanos))
  }

  /** `plusMillis(long)`: the carry is folded into the seconds to add, so the one
      checked addition fails exactly when the result cannot be held. */
  function PlusMillis(d: Duration, millisToAdd: int): (r: Result<Duration>)
    requires Valid(d) && IsLong(millisToAdd)
    ensures r == Normalized(ToNanos(d) + millisToAdd * 1_000_000)
  {
    if millisToAdd == 0 then Ok(d)
    else
      var secondsToAdd := Quot(millisToAdd, 1000);
      var nos := Rem(millisToAdd, 1000) * 1_000_000 + d.nanos;
      MillisSplit(millisToAdd);
      if nos < 0 then
        var s :- SafeAdd(d.seconds, secondsToAdd - 1);
        Ok(Duration(s, nos + NANOS_PER_SECOND))
      else if nos >= NANOS_PER_SECOND then
        var s :- SafeAdd(d.seconds, secondsToAdd + 1);
        Ok(Duration(s, nos - NANOS_PER_SECOND))
      else
        var s :- SafeAdd(d.seconds, secondsToAdd);
        Ok(Duration(s, nos))
  }

  /** A number of milliseconds is its truncated seconds and the milliseconds
      left over. */
  lemma MillisSplit(millis: int)
    ensures millis * 1_000_000 == Quot(millis, 1000) * NANOS_PER_SECOND + Rem(millis, 1000) * 1_000_000
  {
  }

  /** `plusNanos(long)`. */
  function PlusNanos(d: Duration, nanosToAdd: int): (r: Result<Duration>)
    requires Valid(d) && IsLong(nanosToAdd)
    ensures r == Normalized(ToNanos(d) + nanosToAdd)
  {
    if nanosToAdd == 0 then Ok(d)
    else
      var secondsToAdd := Quot(nanosToAdd, NANOS_PER_SECOND);
      var nos := Rem(nanosToAdd, NANOS_PER_SECOND) + d.nanos;
      if nos < 0 then
        var s :- SafeAdd(d.seconds, secondsToAdd - 1);
        Ok(Duration(s, nos + NANOS_PER_SECOND))
      else if nos >= NANOS_PER_SECOND then
        var s :- SafeAdd(d.seconds, secondsToAdd + 1);
        Ok(Duration(s, nos - NANOS_PER_SECOND))
      else
        var s :- SafeAdd(d.seconds, secondsToAdd);
        Ok(Duration(s, nos))
  }

  /** `minus(Duration)`, as written: the seconds are subtracted with an overflow
      check before the borrow. */
  function Minus(d: Duration, other: Duration): (r: Result<Duration>)
    requires Valid(d) && Valid(other)
    ensures r == if IsLong(d.seconds - other.seconds)
                 then Normalized(ToNanos(d) - ToNanos(other))
                 else Err(Overflow)
  {
    if other.seconds == 0 && other.nanos == 0 then Ok(d)
    else
      var secs :- SafeSubtract(d.seconds, other.seconds);
      var nos := d.nanos - other.nanos;
      if nos < 0 then
        var secs' :- SafeDecrement(secs);
        Ok(Duration(secs', nos + NANOS_PER_SECOND))
      else
        Ok(Duration(secs, nos))
  }

  /** `minus(Duration)` with the borrow applied before the range check. */
  function MinusExact(d: Duration, other: Duration): (r: Result<Duration>)
    requires Valid(d) && Valid(other)
    ensures r == Normalized(ToNanos(d) - ToNanos(other))
  {
    var nos := d.nanos - other.nanos;
    var borrow := if nos < 0 then 1 else 0;
    var secs := d.seconds - other.seconds - borrow;
    if IsLong(secs) then Ok(Duration(secs, nos + borrow * NANOS_PER_SECOND)) else Err(Overflow)
  }

  /** `minusSeconds(long)`. */
  function MinusSeconds(d: Duration, secondsToSubtract: int): (r: Result<Duration>)
    requires Valid(d) && IsLong(secondsToSubtract)
    ensures r == Normalized(ToNanos(d) - secondsToSubtract * NANOS_PER_SECOND)
  {
    if secondsToSubtract == 0 then Ok(d)
    else
      var secs :- SafeSubtract(d.seconds, secondsToSubtract);
      Ok(Duration(secs, d.nanos))
  }

  /** `minusMillis(long)`. */
  function MinusMillis(d: Duration, millisToSubtract: int): (r: Result<Duration>)
    requires Valid(d) && IsLong(millisToSubtract)
    ensures r == Normalized(ToNanos(d) - millisToSubtract * 1_000_000)
  {
    if millisToSubtract == 0 then Ok(d)
    else
      var secondsToSubtract := Quot(millisToSubtract, 1000);
      var nos := d.nanos - Rem(millisToSubtract, 1000) * 1_000_000;
      MillisSplit(millisToSubtract);
      if nos < 0 then
        var s :- SafeSubtract(d.seconds, secondsToSubtract + 1);
        Ok(Duration(s, nos + NANOS_PER_SECOND))
      else if nos >= NANOS_PER_SECOND then
        var s :- SafeSubtract(d.seconds, secondsToSubtract - 1);
        Ok(Duration(s, nos - NANOS_PER_SECOND))
      else
        var s :- SafeSubtract(d.seconds, secondsToSubtract);
        Ok(Duration(s, nos))
  }

  /** `minusNanos(long)`. */
  function MinusNanos(d: Duration, nanosToSubtract: int): (r: Result<Duration>)
    requires Valid(d) && IsLong(nanosToSubtract)
    ensures r == Normalized(ToNanos(d) - nanosToSubtract)
  {
    if nanosToSubtract == 0 then Ok(d)
    else
      var secondsToSubtract := Quot(nanosToSubtract, NANOS_PER_SECOND);
      var nos := d.nanos - Rem(nanosToSubtract, NANOS_PER_SECOND);
      if nos < 0 then
        var s :- SafeSubtract(d.seconds, secondsToSubtract + 1);
        Ok(Duration(s, nos + NANOS_PER_SECOND))
      else if nos >= NANOS_PER_SECOND then
        var s :- SafeSubtract(d.seconds, secondsToSubtract - 1);
        Ok(Duration(s, nos - NANOS_PER_SECOND))
      else
        var s :- SafeSubtract(d.seconds, secondsToSubtract);
        Ok(Duration(s, nos))
  }

  /** The nanosecond sums held in Java `int` locals stay inside the int range,
      within the bounds the comments beside them give. */
  lemma NanoSumsFitInt(d: Duration, other: Duration, delta: int)
    requires Valid(d) && Valid(other) && IsLong(delta)
    ensures var n := d.nanos + other.nanos; 0 <= n <= 1_999_999_998 && IsInt(n)
    ensures var n := d.nanos - other.nanos; -999_999_999 <= n <= 999_999_999 && IsInt(n)
    ensures var n := Rem(delta, 1000) * 1_000_000 + d.nanos;
            (delta >= 0 ==> 0 <= n <= 1_998_999_999) &&
            (delta < 0 ==> -999_000_000 <= n <= 999_999_999) && IsInt(n)
    ensures var n := Rem(delta, NANOS_PER_SECOND) + d.nanos;
            (delta >= 0 ==> 0 <= n <= 1_999_999_998) &&
            (delta < 0 ==> -999_999_999 <= n <= 999_999_999) && IsInt(n)
    ensures IsInt(d.nanos - Rem(delta, 1000) * 1_000_000)
    ensures IsInt(d.nanos - Rem(delta, NANOS_PER_SECOND))
  {
  }

  //----------------------------------------------------------------------
  // Multiplication and division

  /** `multipliedBy(long)`: 0 gives ZERO, 1 the receiver, anything else the exact
      product, failing when its seconds need more than 63 bits. */
  function MultipliedBy(d: Duration, multiplicand: int): (r: Result<Duration>)
    requires Valid(d) && IsLong(multiplicand)
    ensures r == Normalized(ToNanos(d) * multiplicand)
  {
    if multiplicand == 0 then Ok(ZERO)
    else if multiplicand == 1 then Ok(d)
    else
      var total := ToNanos(d) * multiplicand;
      var secs := Quot(total, NANOS_PER_SECOND);
      BitLengthLong(secs);
      TruncationFixUp(total, NANOS_PER_SECOND);
      if BitLength(secs) > 63 then Err(Overflow)
      else SecondsAdjusted(secs, Rem(total, NANOS_PER_SECOND))
  }

  /** `dividedBy(long)`, as written: the quotient's seconds go through
      `longValue()` with no capacity check, so the one quotient that does not
      fit, the most negative duration divided by -1, wraps back onto itself. */
  function DividedBy(d: Duration, divisor: int): (r: Result<Duration>)
    requires Valid(d) && IsLong(divisor)
    ensures divisor == 0 ==> r == Err(DivisionByZero)
    ensures divisor != 0 && !(d == Duration(MIN_LONG, 0) && divisor == -1) ==>
              r == Normalized(Quot(ToNanos(d), divisor)) && r.Ok?
    ensures d == Duration(MIN_LONG, 0) && divisor == -1 ==> r == Ok(d)
  {
    if divisor == 0 then Err(DivisionByZero)
    else if divisor == 1 then Ok(d)
    else
      var quotient := Quot(ToNanos(d), divisor);
      QuotientInRange(d, divisor);
      TruncationFixUp(quotient, NANOS_PER_SECOND);
      SecondsAdjusted(Wrap64(Quot(quotient, NANOS_PER_SECOND)), Rem(quotient, NANOS_PER_SECOND))
  }

  /** `dividedBy(long)` with the capacity check that `multipliedBy` has. */
  function DividedByChecked(d: Duration, divisor: int): (r: Result<Duration>)
    requires Valid(d) && IsLong(divisor)
    ensures r == if divisor == 0 then Err(DivisionByZero)
                 else Normalized(Quot(ToNanos(d), divisor))
    ensures r.Err? <==> divisor == 0 || (d == Duration(MIN_LONG, 0) && divisor == -1)
  {
    if divisor == 0 then Err(DivisionByZero)
    else if divisor == 1 then Ok(d)
    else
      var quotient := Quot(ToNanos(d), divisor);
      var secs := Quot(quotient, NANOS_PER_SECOND);
      QuotientInRange(d, divisor);
      BitLengthLong(secs);
      TruncationFixUp(quotient, NANOS_PER_SECOND);
      if BitLength(secs) > 63 then Err(Overflow)
      else SecondsAdjusted(secs, Rem(quotient, NANOS_PER_SECOND))
  }

  /** Truncating division by a non-zero long only shrinks the length, except
      that dividing the most negative length by -1 leaves the range. */
  lemma QuotientInRange(d: Duration, divisor: int)
    requires Valid(d) && IsLong(divisor) && divisor != 0
    ensures var q := Quot(ToNanos(d), divisor);
            Normalized(q).Ok? <==> !(d == Duration(MIN_LONG, 0) && divisor == -1)
    ensures d == Duration(MIN_LONG, 0) && divisor == -1 ==>
              Quot(Quot(ToNanos(d), divisor), NANOS_PER_SECOND) == MAX_LONG + 1 &&
              Rem(Quot(ToNanos(d), divisor), NANOS_PER_SECOND) == 0
  {
    var t := ToNanos(d);
    var q := Quot(t, divisor);
    assert MIN_LONG * NANOS_PER_SECOND <= t < (MAX_LONG + 1) * NANOS_PER_SECOND;
    if divisor == -1 {
      assert q == -t;
      assert t == MIN_LONG * NANOS_PER_SECOND <==> d == Duration(MIN_LONG, 0);
    } else if divisor == 1 {
      assert q == t;
    } else {
      QuotientHalves(t, divisor);
    }
  }

  /** Dividing by at least two at least halves the magnitude. */
  lemma QuotientHalves(t: int, divisor: int)
    requires Abs(divisor) >= 2
    ensures 2 * Abs(Quot(t, divisor)) <= Abs(t)
  {
    var q := Abs(Quot(t, divisor));
    MulMonotone(q, 2, Abs(divisor));
  }

  lemma MulMonotone(a: int, b: int, c: int)
    requires a >= 0 && b <= c
    ensures a * b <= a * c
  {
  }

  //----------------------------------------------------------------------
  // Ordering and equality

  function Sign(x: int): int {
    if x < 0 then -1 else if x == 0 then 0 else 1
  }

  /** `compareTo`: seconds first, then nanos. */
  function CompareTo(d: Duration, other: Duration): (c: int)
    requires Valid(d) && Valid(other)
    ensures c == Sign(ToNanos(d) - ToNanos(other))
  {
    var cmp := SafeCompare(d.seconds, other.seconds);
    if cmp != 0 then cmp else SafeCompare(d.nanos, other.nanos)
  }

  function IsLongerThan(d: Duration, other: Duration): (b: bool)
    requires Valid(d) && Valid(other)
    ensures b <==> ToNanos(d) > ToNanos(other)
  {
    CompareTo(d, other) > 0
  }

  function IsShorterThan(d: Duration, other: Duration): (b: bool)
    requires Valid(d) && Valid(other)
    ensures b <==> ToNanos(d) < ToNanos(other)
  {
    CompareTo(d, other) < 0
  }

  /** `equals`: field by field, which for valid durations is equal length. */
  function EqualTo(d: Duration, other: Duration): (b: bool)
    requires Valid(d) && Valid(other)
    ensures b <==> ToNanos(d) == ToNanos(other)
    ensures b <==> d == other
  {
    d.seconds == other.seconds && d.nanos == other.nanos
  }

  /** `compareTo` is a total order consistent with `equals`. */
  lemma CompareToTotalOrder(a: Duration, b: Duration, c: Duration)
    requires Valid(a) && Valid(b) && Valid(c)
    ensures CompareTo(a, b) == -CompareTo(b, a)
    ensures CompareTo(a, b) == 0 <==> EqualTo(a, b)
    ensures CompareTo(a, b) <= 0 && CompareTo(b, c) <= 0 ==> CompareTo(a, c) <= 0
  {
  }

  //----------------------------------------------------------------------
  // Conversions

  /** An exact decimal number `unscaled * 10^-scale`. */
  datatype Decimal = Decimal(unscaled: int, scale: int)

  /** `toSeconds()`: the length in seconds with a scale of 9. */
  function ToSeconds(d: Duration): (x: Decimal)
    requires Valid(d)
    ensures x.scale == 9 && x.unscaled == ToNanos(d)
  {
    Decimal(d.seconds * Pow10(9) + d.nanos, 9)
  }

  /** `toNanosLong()`, as written: the seconds are scaled with an overflow check
      before the fraction is added, so the lengths that fit in a long only after
      the fraction is added fail. */
  function ToNanosLong(d: Duration): (r: Result<int>)
    requires Valid(d)
    ensures r.Ok? ==> r.value == ToNanos(d)
    ensures r.Err? ==> r.error == Overflow
    ensures r.Ok? <==> IsLong(d.seconds * NANOS_PER_SECOND) && IsLong(ToNanos(d))
  {
    var n :- SafeMultiply(d.seconds, NANOS_PER_SECOND);
    SafeAdd(n, d.nanos)
  }

  /** `toNanosLong()` shifting one second into the fraction first when the
      duration is negative: it fails exactly when the length is not a long. */
  function ToNanosLongExact(d: Duration): (r: Result<int>)
    requires Valid(d)
    ensures r == if IsLong(ToNanos(d)) then Ok(ToNanos(d)) else Err(Overflow)
  {
    var secs := if d.seconds < 0 then d.seconds + 1 else d.seconds;
    var nos := if d.seconds < 0 then d.nanos - NANOS_PER_SECOND else d.nanos;
    var n :- SafeMultiply(secs, NANOS_PER_SECOND);
    SafeAdd(n, nos)
  }

  /** `toMillisLong()`, as written: the length in milliseconds rounded DOWN
      (toward negative infinity), failing when the whole seconds scaled to
      milliseconds overflow, even if adding the fraction would bring it back. */
  function ToMillisLong(d: Duration): (r: Result<int>)
    requires Valid(d)
    ensures r.Ok? ==> r.value == ToNanos(d) / 1_000_000
    ensures r.Err? ==> r.error == Overflow
    ensures r.Ok? <==> IsLong(d.seconds * 1000) && IsLong(ToNanos(d) / 1_000_000)
  {
    var millis :- SafeMultiply(d.seconds, 1000);
    SafeAdd(millis, d.nanos / 1_000_000)
  }

  /** `toMillisLong()` shifting one second into the fraction first when the
      duration is negative: it fails exactly when the rounded-down length in
      milliseconds is not a long. */
  function ToMillisLongExact(d: Duration): (r: Result<int>)
    requires Valid(d)
    ensures r == if IsLong(ToNanos(d) / 1_000_000) then Ok(ToNanos(d) / 1_000_000) else Err(Overflow)
  {
    var secs := if d.seconds < 0 then d.seconds + 1 else d.seconds;
    var millis := if d.seconds < 0 then d.nanos / 1_000_000 - 1000 else d.nanos / 1_000_000;
    var m :- SafeMultiply(secs, 1000);
    SafeAdd(m, millis)
  }
}
