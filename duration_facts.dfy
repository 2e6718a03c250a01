/** Properties that relate several `Duration` operations: the documented
    examples, the single-unit operations against the general ones, inverses,
    round trips through the conversions, and the inputs on which the
    as-written operations differ from their intended behaviour. */
module DurationFacts {
  import opened Results
  import opened MathUtils
  import opened Durations

  //----------------------------------------------------------------------
  // Documented examples

  /** The three spellings of the same duration in the documentation of
      `seconds(long, long)`. */
  lemma SecondsAdjustedExamples()
    ensures SecondsAdjusted(3, 1) == Ok(Duration(3, 1))
    ensures SecondsAdjusted(4, -999_999_999) == Ok(Duration(3, 1))
    ensures SecondsAdjusted(2, 1_000_000_001) == Ok(Duration(3, 1))
  {
    NormalizedToNanos(Duration(3, 1));
  }

  /** The nanosecond field is added to the seconds also when negative:
      a tenth of a second below zero is -1 second and 900,000,000 nanoseconds,
      and a millisecond below zero is -1 second and 999,000,000 nanoseconds. */
  lemma NegativeRepresentation()
    ensures Nanos(-100_000_000) == Duration(-1, 900_000_000)
    ensures Millis(-1) == Duration(-1, 999_000_000)
  {
    ToNanosInjective(Nanos(-100_000_000), Duration(-1, 900_000_000));
    ToNanosInjective(Millis(-1), Duration(-1, 999_000_000));
  }

  //----------------------------------------------------------------------
  // Identities

  /** Adding or subtracting nothing returns the receiver; multiplying by zero
      gives ZERO and by one the receiver; dividing by one the receiver. */
  lemma Identities(d: Duration)
    requires Valid(d)
    ensures Plus(d, ZERO) == Ok(d) && Minus(d, ZERO) == Ok(d)
    ensures PlusSeconds(d, 0) == Ok(d) && PlusMillis(d, 0) == Ok(d) && PlusNanos(d, 0) == Ok(d)
    ensures MinusSeconds(d, 0) == Ok(d) && MinusMillis(d, 0) == Ok(d) && MinusNanos(d, 0) == Ok(d)
    ensures MultipliedBy(d, 0) == Ok(ZERO) && MultipliedBy(d, 1) == Ok(d)
    ensures DividedBy(d, 1) == Ok(d)
  {
    NormalizedToNanos(d);
    NormalizedToNanos(ZERO);
  }

  /** A duration minus itself is ZERO. */
  lemma MinusSelf(d: Duration)
    requires Valid(d)
    ensures Minus(d, d) == Ok(ZERO)
  {
    NormalizedToNanos(ZERO);
  }

  //----------------------------------------------------------------------
  // The single-unit operations are the general ones on a converted amount

  /** Adding or subtracting an amount of one unit is adding or subtracting the
      duration of that amount with the exact `PlusExact`/`MinusExact`; the
      as-written `plus`/`minus` can overflow where these do not. */
  lemma PlusSecondsAsDuration(d: Duration, amount: int)
    requires Valid(d) && IsLong(amount)
    ensures PlusSeconds(d, amount) == PlusExact(d, Seconds(amount))
  {
  }

  lemma PlusMillisAsDuration(d: Duration, amount: int)
    requires Valid(d) && IsLong(amount)
    ensures PlusMillis(d, amount) == PlusExact(d, Millis(amount))
  {
  }

  lemma PlusNanosAsDuration(d: Duration, amount: int)
    requires Valid(d) && IsLong(amount)
    ensures PlusNanos(d, amount) == PlusExact(d, Nanos(amount))
  {
  }

  lemma MinusSecondsAsDuration(d: Duration, amount: int)
    requires Valid(d) && IsLong(amount)
    ensures MinusSeconds(d, amount) == MinusExact(d, Seconds(amount))
  {
  }

  lemma MinusMillisAsDuration(d: Duration, amount: int)
    requires Valid(d) && IsLong(amount)
    ensures MinusMillis(d, amount) == MinusExact(d, Millis(amount))
  {
  }

  lemma MinusNanosAsDuration(d: Duration, amount: int)
    requires Valid(d) && IsLong(amount)
    ensures MinusNanos(d, amount) == MinusExact(d, Nanos(amount))
  {
  }

  /** A standard minute, hour or day is that many seconds multiplied out. */
  lemma StandardUnits(amount: int)
    requires IsLong(amount)
    ensures StandardMinutes(amount) == MultipliedBy(Seconds(60), amount)
    ensures StandardHours(amount) == MultipliedBy(Seconds(3600), amount)
    ensures StandardDays(amount) == MultipliedBy(Seconds(86400), amount)
  {
    assert amount * 60 * NANOS_PER_SECOND == ToNanos(Seconds(60)) * amount;
    assert amount * 3600 * NANOS_PER_SECOND == ToNanos(Seconds(3600)) * amount;
    assert amount * 86400 * NANOS_PER_SECOND == ToNanos(Seconds(86400)) * amount;
  }

  //----------------------------------------------------------------------
  // Inverses

  /** With the exact forms, subtraction undoes addition and addition undoes
      subtraction. */
  lemma PlusMinusInverse(d: Duration, other: Duration)
    requires Valid(d) && Valid(other)
    ensures PlusExact(d, other).Ok? ==> MinusExact(PlusExact(d, other).value, other) == Ok(d)
    ensures MinusExact(d, other).Ok? ==> PlusExact(MinusExact(d, other).value, other) == Ok(d)
  {
    NormalizedToNanos(d);
  }

  /** As written, `minus` undoes a successful `plus`, and the other way round,
      exactly when its own check on the seconds passes. */
  lemma PlusMinusInverseAsWritten(d: Duration, other: Duration)
    requires Valid(d) && Valid(other)
    ensures Plus(d, other).Ok? ==>
              (Minus(Plus(d, other).value, other) == Ok(d) <==>
               IsLong(Plus(d, other).value.seconds - other.seconds))
    ensures Minus(d, other).Ok? ==>
              (Plus(Minus(d, other).value, other) == Ok(d) <==>
               IsLong(Minus(d, other).value.seconds + other.seconds))
  {
    NormalizedToNanos(d);
  }

  /** The largest whole seconds plus half a second, plus minus half a second,
      fits; subtracting minus half a second back overflows on the seconds. */
  lemma PlusMinusNotInverse()
    ensures Plus(Duration(MAX_LONG, 500_000_000), Duration(-1, 500_000_000))
            == Ok(Duration(MAX_LONG, 0))
    ensures Minus(Duration(MAX_LONG, 0), Duration(-1, 500_000_000)) == Err(Overflow)
  {
    NormalizedToNanos(Duration(MAX_LONG, 0));
  }

  /** Addition is commutative, in both forms. */
  lemma PlusCommutes(d: Duration, other: Duration)
    requires Valid(d) && Valid(other)
    ensures Plus(d, other) == Plus(other, d)
    ensures PlusExact(d, other) == PlusExact(other, d)
  {
  }

  /** Dividing a product by its multiplicand gives the duration back. */
  lemma MultiplyDivideInverse(d: Duration, m: int)
    requires Valid(d) && IsLong(m) && m != 0
    requires MultipliedBy(d, m).Ok?
    ensures DividedByChecked(MultipliedBy(d, m).value, m) == Ok(d)
    ensures DividedBy(MultipliedBy(d, m).value, m) == Ok(d)
  {
    QuotOfProduct(ToNanos(d), m);
    NormalizedToNanos(d);
  }

  /** Truncating division of an exact multiple is exact. */
  lemma QuotOfProduct(a: int, m: int)
    requires m != 0
    ensures Quot(a * m, m) == a
  {
    AbsProduct(a, m);
    DivideProduct(Abs(a), Abs(m));
    if a != 0 {
      assert (a * m > 0) <==> ((a > 0) == (m > 0)) by {
        ProductSign(a, m);
      }
    }
  }

  lemma AbsProduct(a: int, m: int)
    ensures Abs(a * m) == Abs(a) * Abs(m)
  {
    if a < 0 && m < 0 {
      assert a * m == (-a) * (-m);
    } else if a < 0 {
      assert -(a * m) == (-a) * m;
    } else if m < 0 {
      assert -(a * m) == a * (-m);
    }
  }

  lemma DivideProduct(x: nat, y: nat)
    requires y > 0
    ensures (x * y) / y == x
  {
    DivModUnique(x * y, y, x, 0);
  }

  lemma ProductSign(a: int, m: int)
    requires a != 0 && m != 0
    ensures (a * m > 0) <==> ((a > 0) == (m > 0))
  {
    AbsProduct(a, m);
    assert Abs(a) * Abs(m) > 0;
  }

  //----------------------------------------------------------------------
  // Round trips through the conversions

  /** `toSeconds` is exact: reading the decimal back gives the duration. */
  lemma ToSecondsRoundTrip(d: Duration)
    requires Valid(d)
    ensures SecondsDecimal(ToSeconds(d).unscaled, ToSeconds(d).scale) == Ok(d)
  {
    NormalizedToNanos(d);
    assert Pow10(0) == 1;
  }

  /** Nanoseconds that fit in a long come back from the corrected
      `toNanosLong`; the as-written one refuses `Long.MIN_VALUE`. */
  lemma NanosRoundTrip(n: int)
    requires IsLong(n)
    ensures ToNanosLongExact(Nanos(n)) == Ok(n)
    ensures ToNanosLong(Nanos(MIN_LONG)) == Err(Overflow)
  {
    ToNanosInjective(Nanos(MIN_LONG), Duration(-9_223_372_037, 145_224_192));
  }

  /** Milliseconds come back from the corrected `toMillisLong`; the
      as-written one refuses `Long.MIN_VALUE`. */
  lemma MillisRoundTrip(m: int)
    requires IsLong(m)
    ensures ToMillisLongExact(Millis(m)) == Ok(m)
    ensures ToMillisLong(Millis(MIN_LONG)) == Err(Overflow)
  {
    assert (m * 1_000_000) / 1_000_000 == m;
    ToNanosInjective(Millis(MIN_LONG), Duration(-9_223_372_036_854_776, 192_000_000));
  }

  /** `toMillisLong` rounds toward negative infinity, not toward zero: a
      duration of minus one nanosecond is minus one millisecond, where Java's
      truncating integer division of its length would give zero. */
  lemma ToMillisLongRoundsDown()
    ensures Nanos(-1) == Duration(-1, 999_999_999)
    ensures ToMillisLong(Nanos(-1)) == Ok(-1)
    ensures Quot(ToNanos(Nanos(-1)), 1_000_000) == 0
  {
    ToNanosInjective(Nanos(-1), Duration(-1, 999_999_999));
  }

  //----------------------------------------------------------------------
  // Where the as-written operations differ from their intended behaviour

  /** Whenever `plus` and its corrected form differ, `plus` has failed on a
      sum that can be held. */
  lemma PlusOnlySpuriouslyFails(d: Duration, other: Duration)
    requires Valid(d) && Valid(other)
    ensures Plus(d, other) != PlusExact(d, other) ==>
              Plus(d, other) == Err(Overflow) && PlusExact(d, other).Ok?
  {
  }

  /** The smallest length plus half a second, plus minus half a second, is the
      smallest length again; `plus` overflows on the seconds first. */
  lemma PlusSpuriousOverflow()
    ensures Plus(Duration(MIN_LONG, 500_000_000), Duration(-1, 500_000_000)) == Err(Overflow)
    ensures PlusExact(Duration(MIN_LONG, 500_000_000), Duration(-1, 500_000_000))
            == Ok(Duration(MIN_LONG, 0))
  {
    NormalizedToNanos(Duration(MIN_LONG, 0));
  }

  lemma MinusOnlySpuriouslyFails(d: Duration, other: Duration)
    requires Valid(d) && Valid(other)
    ensures Minus(d, other) != MinusExact(d, other) ==>
              Minus(d, other) == Err(Overflow) && MinusExact(d, other).Ok?
  {
  }

  /** The largest whole seconds minus minus half a second fits, but the
      seconds are subtracted with a check before the borrow. */
  lemma MinusSpuriousOverflow()
    ensures Minus(Duration(MAX_LONG, 0), Duration(-1, 500_000_000)) == Err(Overflow)
    ensures MinusExact(Duration(MAX_LONG, 0), Duration(-1, 500_000_000))
            == Ok(Duration(MAX_LONG, 500_000_000))
  {
    NormalizedToNanos(Duration(MAX_LONG, 500_000_000));
  }

  lemma DurationBetweenOnlySpuriouslyFails(start: Instant, end: Instant)
    requires ValidInstant(start) && ValidInstant(end)
    ensures DurationBetween(start, end) != DurationBetweenExact(start, end) ==>
              DurationBetween(start, end) == Err(Overflow) && DurationBetweenExact(start, end).Ok?
  {
  }

  lemma DurationBetweenSpuriousOverflow()
    ensures DurationBetween(Instant(-1, 500_000_000), Instant(MAX_LONG, 0)) == Err(Overflow)
    ensures DurationBetweenExact(Instant(-1, 500_000_000), Instant(MAX_LONG, 0))
            == Ok(Duration(MAX_LONG, 500_000_000))
  {
    NormalizedToNanos(Duration(MAX_LONG, 500_000_000));
  }

  /** `dividedBy` and its checked form agree except on the one quotient that
      does not fit, where `dividedBy` returns a negative duration for a
      positive quotient. */
  lemma DividedByAgrees(d: Duration, divisor: int)
    requires Valid(d) && IsLong(divisor)
    ensures DividedBy(d, divisor) != DividedByChecked(d, divisor) <==>
              d == Duration(MIN_LONG, 0) && divisor == -1
  {
  }

  lemma DividedByWraps()
    ensures DividedBy(Duration(MIN_LONG, 0), -1) == Ok(Duration(MIN_LONG, 0))
    ensures IsNegative(Duration(MIN_LONG, 0)) && Quot(ToNanos(Duration(MIN_LONG, 0)), -1) > 0
    ensures DividedByChecked(Duration(MIN_LONG, 0), -1) == Err(Overflow)
  {
    QuotientInRange(Duration(MIN_LONG, 0), -1);
  }

  lemma ToNanosLongOnlySpuriouslyFails(d: Duration)
    requires Valid(d)
    ensures ToNanosLong(d) != ToNanosLongExact(d) ==>
              ToNanosLong(d) == Err(Overflow) && ToNanosLongExact(d).Ok?
  {
  }

  /** The duration exactly `Long.MIN_VALUE` nanoseconds long has seconds whose
      scaling to nanoseconds overflows before the fraction is added. */
  lemma ToNanosLongSpuriousOverflow()
    ensures ToNanos(Duration(-9_223_372_037, 145_224_192)) == MIN_LONG
    ensures ToNanosLong(Duration(-9_223_372_037, 145_224_192)) == Err(Overflow)
    ensures ToNanosLongExact(Duration(-9_223_372_037, 145_224_192)) == Ok(MIN_LONG)
  {
  }

  lemma ToMillisLongOnlySpuriouslyFails(d: Duration)
    requires Valid(d)
    ensures ToMillisLong(d) != ToMillisLongExact(d) ==>
              ToMillisLong(d) == Err(Overflow) && ToMillisLongExact(d).Ok?
  {
  }

  lemma ToMillisLongSpuriousOverflow()
    ensures ToNanos(Duration(-9_223_372_036_854_776, 999_000_000)) / 1_000_000
            == -9_223_372_036_854_775_001
    ensures ToMillisLong(Duration(-9_223_372_036_854_776, 999_000_000)) == Err(Overflow)
    ensures ToMillisLongExact(Duration(-9_223_372_036_854_776, 999_000_000))
            == Ok(-9_223_372_036_854_775_001)
  {
  }
}
