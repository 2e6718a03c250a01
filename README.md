# Duration: a verified model of `javax.time.Duration`

This project models `Duration` from `src/main/java/javax/time/Duration.java`. A duration is an
immutable pair. `seconds` is a signed 64-bit count. `nanos` always lies in
`[0, 999_999_999]` and is added to the seconds, also for a negative duration, so `PT-0.1S` is
`(-1, 900_000_000)`.

The model has one abstraction: `ToNanos(d) = seconds * 10^9 + nanos`, the exact length over
unbounded integers. Every factory and every arithmetic operation is proved against one reference
function, `Normalized(total)`. That function splits a total by floor division and fails with
`Overflow` when the seconds leave the `long` range. Java's truncating `/` and `%` are modelled as
`Quot` and `Rem`. The sign fix-up the code applies after them is proved to be floor division
(`TruncationFixUp`).

Modules:

- `Results`: the error kinds (`Overflow`, `DivisionByZero`, `Inexact`, `ParseFailure(index)`),
  and the `Result` and `Option` datatypes.
- `MathUtils`: the 64- and 32-bit ranges, `Quot`/`Rem`, `BigInteger.longValue()` (`Wrap64`) and
  `bitLength()`. It also holds the overflow-checked helpers the class calls, each given by its
  contract.
- `Durations`: the datatype, its invariant, the factories, plus/minus, multiply/divide, the sign
  predicates, ordering and the conversions.
- `DurationText`: the ISO 8601 seconds-only text `PTnS` (ISO 8601:2004 section 4.4.3.2).
  - `Parse` models `parse`, together with the `Long.parseLong`, `Integer.parseInt`, `indexOf` and
    `replace` calls it makes.
  - `ToString` models `toString` as a method over a character sequence. Its trailing-zero loop is
    `TrimTrailingZeros`. It is proved equal to the canonical text `Format`.
  - `ParseFormat` proves the round trip `Parse(Format(d)) == Ok(d)`.
- `DurationFacts` and `TextFacts`: lemmas relating several operations. They cover the documented
  examples, inverses, round trips, rejections, the documented grammar of `parse`, and the inputs
  that show where the code and its documentation part ways.

Where the code and its documentation disagree, the model follows the code:

- `toMillisLong` floors for negative durations. Its comment (`Duration.java:800-801`) speaks of
  integer division, which in Java truncates toward zero. This is a gap between the code and its
  documentation: for minus one nanosecond the documented division gives 0 milliseconds, and the
  code gives -1. `DurationFacts.ToMillisLongRoundsDown` proves both values.
- `parse` accepts a '+' sign. It also accepts a '-' in front of a zero spelt other than `0`. The
  comment at `Duration.java:275-277` rules out both.

`Long.parseLong` and `Integer.parseInt` are modelled as in Java 7 and later, which accept a
leading '+'.

## Model

| member | source | states |
|---|---|---|
| MathUtils.Quot | src/main/java/javax/time/Duration.java:155 | Java's `/`: the quotient truncated toward zero, with the bounds and sign that characterise it |
| MathUtils.Rem | src/main/java/javax/time/Duration.java:156 | Java's `%`: smaller in magnitude than the divisor, with the sign of the dividend |
| MathUtils.Wrap64 | src/main/java/javax/time/Duration.java:717 | `longValue()` keeps a value congruent modulo 2^64 in the long range, and is the identity on longs |
| MathUtils.BitLengthLong | src/main/java/javax/time/Duration.java:197 | `bitLength() > 63` holds exactly when the value is outside the long range |
| Durations.ToNanos | src/main/java/javax/time/Duration.java:776-778 | the length in nanoseconds; for an in-range `nanos`, floor division by 10^9 gives back both fields |
| Durations.Normalized | src/main/java/javax/time/Duration.java:88-93 | a total becomes the valid pair with that length, or `Overflow` exactly when it lies outside `[MIN_LONG * 10^9, (MAX_LONG + 1) * 10^9)` |
| Durations.ToNanosInjective | src/main/java/javax/time/Duration.java:54-56 | two valid durations of the same length are the same pair: the representation is canonical |
| Durations.NormalizedToNanos | src/main/java/javax/time/Duration.java:88-93 | normalising the length of a valid duration gives that duration back |
| Durations.TruncationFixUp | src/main/java/javax/time/Duration.java:126-130 | truncating quotient and remainder followed by the `if (nos < 0)` fix-up are floor quotient and modulus |
| Durations.Seconds | src/main/java/javax/time/Duration.java:102-104 | a valid duration of exactly that many seconds |
| Durations.SecondsAdjusted | src/main/java/javax/time/Duration.java:125-133 | the normalised duration of `seconds * 10^9 + nanoAdjustment`, failing only when its seconds leave the long range |
| Durations.SecondsDecimal | src/main/java/javax/time/Duration.java:142-145 | an exact decimal scaled to nanoseconds: zero gives `ZERO` whatever its scale; otherwise `Inexact` exactly when digits below a nanosecond are non-zero, `Overflow` when the scale leaves the int range on the move, else the normalised value or `Overflow` |
| Durations.Millis | src/main/java/javax/time/Duration.java:154-162 | a valid duration of `millis * 10^6` nanoseconds |
| Durations.Nanos | src/main/java/javax/time/Duration.java:174-182 | a valid duration of exactly that many nanoseconds |
| Durations.NanosBig | src/main/java/javax/time/Duration.java:194-201 | the normalised duration of an unbounded number of nanoseconds, `Overflow` when its seconds need more than 63 bits |
| Durations.StandardMinutes | src/main/java/javax/time/Duration.java:214-216 | the normalised duration of `minutes * 60 * 10^9` nanoseconds |
| Durations.StandardHours | src/main/java/javax/time/Duration.java:228-230 | the normalised duration of `hours * 3600 * 10^9` nanoseconds |
| Durations.StandardDays | src/main/java/javax/time/Duration.java:242-244 | the normalised duration of `days * 86400 * 10^9` nanoseconds |
| Durations.DurationBetween | src/main/java/javax/time/Duration.java:256-266 | as written: `Overflow` when the difference of epoch seconds leaves the long range, otherwise the normalised difference of the instants |
| Durations.DurationBetweenExact | src/main/java/javax/time/Duration.java:248-254 | the normalised difference of the two instants, failing only when it cannot be held |
| Durations.IsZero | src/main/java/javax/time/Duration.java:392-394 | true exactly when the length is zero |
| Durations.IsPositive | src/main/java/javax/time/Duration.java:403-405 | true exactly when the length is above zero |
| Durations.IsPositiveOrZero | src/main/java/javax/time/Duration.java:414-416 | true exactly when the length is at least zero |
| Durations.IsNegative | src/main/java/javax/time/Duration.java:425-427 | true exactly when the length is below zero |
| Durations.IsNegativeOrZero | src/main/java/javax/time/Duration.java:436-438 | true exactly when the length is at most zero |
| Durations.Plus | src/main/java/javax/time/Duration.java:487-500 | as written: `Overflow` when the seconds alone overflow, otherwise the normalised sum of the lengths |
| Durations.PlusExact | src/main/java/javax/time/Duration.java:478-486 | the normalised sum of the lengths, failing only when the sum cannot be held |
| Durations.PlusSeconds | src/main/java/javax/time/Duration.java:512-518 | the length shifted by `secondsToAdd * 10^9`, normalised |
| Durations.PlusMillis | src/main/java/javax/time/Duration.java:529-546 | the length shifted by `millisToAdd * 10^6`, normalised |
| Durations.PlusNanos | src/main/java/javax/time/Duration.java:557-574 | the length shifted by `nanosToAdd`, normalised |
| Durations.Minus | src/main/java/javax/time/Duration.java:586-599 | as written: `Overflow` when the seconds alone overflow, otherwise the normalised difference of the lengths |
| Durations.MinusExact | src/main/java/javax/time/Duration.java:577-585 | the normalised difference of the lengths, failing only when it cannot be held |
| Durations.MinusSeconds | src/main/java/javax/time/Duration.java:611-617 | the length shifted by `-secondsToSubtract * 10^9`, normalised |
| Durations.MinusMillis | src/main/java/javax/time/Duration.java:628-643 | the length shifted by `-millisToSubtract * 10^6`, normalised |
| Durations.MinusNanos | src/main/java/javax/time/Duration.java:654-669 | the length shifted by `-nanosToSubtract`, normalised |
| Durations.NanoSumsFitInt | src/main/java/javax/time/Duration.java:529-546 | the intermediate nanosecond sums held in `int` locals (here in `plusMillis`, and likewise in plus, minus and the other millisecond and nanosecond variants) stay in the ranges the comments give, within a 32-bit int |
| Durations.MultipliedBy | src/main/java/javax/time/Duration.java:681-695 | the normalised product of the length and the multiplicand, `Overflow` when its seconds need more than 63 bits |
| Durations.DividedBy | src/main/java/javax/time/Duration.java:707-718 | as written: `DivisionByZero` for 0; otherwise the truncated quotient of the length, normalised, except for `(MIN_LONG, 0) / -1`, which returns the receiver |
| Durations.DividedByChecked | src/main/java/javax/time/Duration.java:698-706 | `DivisionByZero` for 0, otherwise the normalised truncated quotient; it fails exactly for 0 and for `(MIN_LONG, 0) / -1` |
| Durations.QuotientInRange | src/main/java/javax/time/Duration.java:714-717 | every quotient fits except the one of `(MIN_LONG, 0) / -1`, whose seconds are `2^63` |
| Durations.CompareTo | src/main/java/javax/time/Duration.java:731-737 | seconds first, then nanos, has the sign of the difference of the lengths |
| Durations.IsLongerThan | src/main/java/javax/time/Duration.java:746-748 | true exactly when the length is greater |
| Durations.IsShorterThan | src/main/java/javax/time/Duration.java:757-759 | true exactly when the length is smaller |
| Durations.EqualTo | src/main/java/javax/time/Duration.java:823-833 | equal fields exactly when the lengths are equal, exactly when the values are equal |
| Durations.CompareToTotalOrder | src/main/java/javax/time/Duration.java:731-737 | comparison is antisymmetric and transitive, and consistent with `equals` |
| Durations.ToSeconds | src/main/java/javax/time/Duration.java:767-769 | a decimal of scale 9 whose unscaled value is the length in nanoseconds |
| Durations.ToNanosLong | src/main/java/javax/time/Duration.java:789-793 | as written: the length when both `seconds * 10^9` and the length fit in a long, `Overflow` otherwise |
| Durations.ToNanosLongExact | src/main/java/javax/time/Duration.java:780-788 | the length when it fits in a long, `Overflow` otherwise |
| Durations.ToMillisLong | src/main/java/javax/time/Duration.java:809-813 | as written: the floor of the length in milliseconds when both `seconds * 1000` and the result fit in a long, `Overflow` otherwise |
| Durations.ToMillisLongExact | src/main/java/javax/time/Duration.java:795-808 | the floor of the length in milliseconds when it fits in a long, `Overflow` otherwise |
| DurationText.NatToString | src/main/java/javax/time/Duration.java:863-866 | the decimal digits `StringBuilder.append(long)` writes for a non-negative number: non-empty ASCII digits whose value is the number, with no leading zero unless the number is 0 |
| DurationText.LongToString | src/main/java/javax/time/Duration.java:863-866 | `append(long)` of a signed number: a '-' exactly when it is negative, then the shortest digits of its magnitude |
| DurationText.PadDigits | src/main/java/javax/time/Duration.java:871-873 | exactly `width` digits whose value is the number |
| DurationText.StripTrailingZeros | src/main/java/javax/time/Duration.java:875-877 | the longest prefix not ending in '0'; every character removed is '0' |
| DurationText.StripTrailingZerosValue | src/main/java/javax/time/Duration.java:875-877 | removing trailing zeros divides the value by a power of ten |
| DurationText.NatToStringLeadingOne | src/main/java/javax/time/Duration.java:869-878 | `10^k + f` is printed as '1' followed by `f` in exactly k digits, so the '1' can be overwritten by the point |
| DurationText.ParseLong | src/main/java/javax/time/Duration.java:302 | `Long.parseLong` only yields values in the long range |
| DurationText.ParseInt | src/main/java/javax/time/Duration.java:315 | `Integer.parseInt` only yields values in the int range |
| DurationText.IndexOf | src/main/java/javax/time/Duration.java:298 | `indexOf`: -1 exactly when the character is absent, else its first position |
| DurationText.ReplaceCommas | src/main/java/javax/time/Duration.java:297 | `replace(',', '.')` keeps the length and changes exactly the commas |
| DurationText.FractionScale | src/main/java/javax/time/Duration.java:316-341 | the `switch` multiplies a fraction of `len` digits by `10^(9 - len)` |
| DurationText.Parse | src/main/java/javax/time/Duration.java:287-349 | a success is a valid duration; every failure is a parse failure at index 0 or 2 |
| DurationText.ParseNumber | src/main/java/javax/time/Duration.java:298-347 | reading the number yields a valid duration or a failure at index 2, the index both `catch` blocks and the fraction check report |
| DurationText.ParseFraction | src/main/java/javax/time/Duration.java:311-347 | the fraction check, `parseInt`, the scaling and the signed combination with the seconds yield a valid duration or a failure at index 2 |
| DurationText.FractionBound | src/main/java/javax/time/Duration.java:312-341 | a fraction that passes the check scales to `[0, 10^9)` nanoseconds, so `seconds(secs, -nanos)` and `create` get an in-range adjustment |
| DurationText.TrimTrailingZeros | src/main/java/javax/time/Duration.java:875-877 | the `while` loop leaves the text up to the '1' followed by the fraction without its trailing zeros |
| DurationText.AppendFraction | src/main/java/javax/time/Duration.java:868-878 | appending the ten digits, trimming and writing the point over the '1' appends exactly the canonical fraction of the magnitude |
| DurationText.ToString | src/main/java/javax/time/Duration.java:856-882 | `toString` writes the canonical text: "PT", a '-' for a negative length, the whole seconds and the fraction of its magnitude, "S" |
| DurationText.ParseDelimiters | src/main/java/javax/time/Duration.java:289-297 | past the letter checks (either case), the text is refused at index 0 exactly when its number is "-0", otherwise the number is read with commas as points |
| DurationText.ParseLongSigned | src/main/java/javax/time/Duration.java:309 | `parseLong` of an optionally negated digit string is its signed value when in range |
| DurationText.ParseFractionDigits | src/main/java/javax/time/Duration.java:312-344 | a fraction of 1 to 9 digits is added as nanoseconds, or subtracted for a negative number |
| DurationText.ParseNumberDecimal | src/main/java/javax/time/Duration.java:298-344 | a signed number with a point is its decimal value in nanoseconds, refused exactly when out of range |
| DurationText.ParseNumberInteger | src/main/java/javax/time/Duration.java:300-303 | a signed number without a point is its whole seconds, refused exactly when out of range |
| DurationText.ParseDecimal | src/main/java/javax/time/Duration.java:287-349 | any `PTnS` text with a fraction (letters in either case, '.' or ',') parses to the normalised decimal value it spells |
| DurationText.ParseInteger | src/main/java/javax/time/Duration.java:287-349 | any `PTnS` text without a fraction, other than "PT-0S", parses to its normalised whole seconds |
| DurationText.ParseFormat | src/main/java/javax/time/Duration.java:272-274 | round trip: the text `toString` writes parses back to the same duration |
| DurationFacts.SecondsAdjustedExamples | src/main/java/javax/time/Duration.java:113-118 | `(3, 1)`, `(4, -999999999)` and `(2, 1000000001)` give the same duration |
| DurationFacts.NegativeRepresentation | src/main/java/javax/time/Duration.java:54-56 | minus a tenth of a second is `(-1, 900_000_000)`; minus a millisecond is `(-1, 999_000_000)` |
| DurationFacts.Identities | src/main/java/javax/time/Duration.java:487-718 | a zero amount returns the receiver; multiplying by 0 gives ZERO, by 1 the receiver; dividing by 1 the receiver |
| DurationFacts.MinusSelf | src/main/java/javax/time/Duration.java:586-599 | a duration minus itself is ZERO |
| DurationFacts.PlusSecondsAsDuration | src/main/java/javax/time/Duration.java:512-518 | `plusSeconds` is adding the duration of that many seconds with the exact `PlusExact` (the as-written `plus` can overflow where `plusSeconds` does not) |
| DurationFacts.PlusMillisAsDuration | src/main/java/javax/time/Duration.java:529-546 | `plusMillis` is adding the duration of that many milliseconds with the exact `PlusExact` (the as-written `plus` can overflow where `plusMillis` does not) |
| DurationFacts.PlusNanosAsDuration | src/main/java/javax/time/Duration.java:557-574 | `plusNanos` is adding the duration of that many nanoseconds with the exact `PlusExact` |
| DurationFacts.MinusSecondsAsDuration | src/main/java/javax/time/Duration.java:611-617 | `minusSeconds` is subtracting the duration of that many seconds with the exact `MinusExact` |
| DurationFacts.MinusMillisAsDuration | src/main/java/javax/time/Duration.java:628-643 | `minusMillis` is subtracting the duration of that many milliseconds with the exact `MinusExact` |
| DurationFacts.MinusNanosAsDuration | src/main/java/javax/time/Duration.java:654-669 | `minusNanos` is subtracting the duration of that many nanoseconds with the exact `MinusExact` |
| DurationFacts.StandardUnits | src/main/java/javax/time/Duration.java:214-244 | a standard minute, hour or day is 60, 3600 or 86400 seconds multiplied out, failing alike |
| DurationFacts.PlusMinusInverse | src/main/java/javax/time/Duration.java:487-599 | with the exact `PlusExact`/`MinusExact`, subtraction undoes a successful addition and addition undoes a successful subtraction |
| DurationFacts.PlusMinusInverseAsWritten | src/main/java/javax/time/Duration.java:487-599 | as written, `minus` undoes a successful `plus` (and `plus` a successful `minus`) exactly when its own seconds check, `safeSubtract` (or `safeAdd`) of the result's seconds and the operand's, stays in the long range |
| DurationFacts.PlusMinusNotInverse | src/main/java/javax/time/Duration.java:487-599 | as written, `(MAX_LONG, 500_000_000)` plus `(-1, 500_000_000)` is `(MAX_LONG, 0)`, but subtracting `(-1, 500_000_000)` from that overflows |
| DurationFacts.PlusCommutes | src/main/java/javax/time/Duration.java:487-500 | addition is commutative, as written and corrected |
| DurationFacts.MultiplyDivideInverse | src/main/java/javax/time/Duration.java:681-718 | dividing a successful product by its non-zero multiplicand gives the duration back |
| DurationFacts.ToSecondsRoundTrip | src/main/java/javax/time/Duration.java:767-769 | reading `toSeconds` back with `seconds(BigDecimal)` gives the duration |
| DurationFacts.NanosRoundTrip | src/main/java/javax/time/Duration.java:174-182 | the corrected conversion `ToNanosLongExact` reads n back from `nanos(n)` for every long n; the as-written `toNanosLong` refuses some of them, such as `Long.MIN_VALUE`, whose refusal is proved here |
| DurationFacts.MillisRoundTrip | src/main/java/javax/time/Duration.java:154-162 | the corrected conversion `ToMillisLongExact` reads m back from `millis(m)` for every long m; the as-written `toMillisLong` refuses some of them, such as `Long.MIN_VALUE`, whose refusal is proved here |
| DurationFacts.ToMillisLongRoundsDown | src/main/java/javax/time/Duration.java:809-813 | minus one nanosecond is minus one millisecond: the conversion floors, while the truncating integer division its comment at lines 800-801 names gives 0 |
| DurationFacts.PlusOnlySpuriouslyFails | src/main/java/javax/time/Duration.java:487-500 | where `plus` and its corrected form differ, `plus` overflows on a sum that fits |
| DurationFacts.PlusSpuriousOverflow | src/main/java/javax/time/Duration.java:493 | `(MIN_LONG, 500_000_000) + (-1, 500_000_000)` fails, yet is `(MIN_LONG, 0)` |
| DurationFacts.MinusOnlySpuriouslyFails | src/main/java/javax/time/Duration.java:586-599 | where `minus` and its corrected form differ, `minus` overflows on a difference that fits |
| DurationFacts.MinusSpuriousOverflow | src/main/java/javax/time/Duration.java:592 | `(MAX_LONG, 0) - (-1, 500_000_000)` fails, yet is `(MAX_LONG, 500_000_000)` |
| DurationFacts.DurationBetweenOnlySpuriouslyFails | src/main/java/javax/time/Duration.java:256-266 | where `durationBetween` and its corrected form differ, it overflows on a difference that fits |
| DurationFacts.DurationBetweenSpuriousOverflow | src/main/java/javax/time/Duration.java:259 | from `(-1, 500_000_000)` to `(MAX_LONG, 0)` fails, yet is `(MAX_LONG, 500_000_000)` |
| DurationFacts.DividedByAgrees | src/main/java/javax/time/Duration.java:707-718 | `dividedBy` and its checked form differ exactly on `(MIN_LONG, 0) / -1` |
| DurationFacts.DividedByWraps | src/main/java/javax/time/Duration.java:717 | `(MIN_LONG, 0) / -1` returns a negative duration for a positive quotient |
| DurationFacts.ToNanosLongOnlySpuriouslyFails | src/main/java/javax/time/Duration.java:789-793 | where `toNanosLong` and its corrected form differ, it overflows on a length that fits |
| DurationFacts.ToNanosLongSpuriousOverflow | src/main/java/javax/time/Duration.java:790 | the duration of exactly `Long.MIN_VALUE` nanoseconds is refused |
| DurationFacts.ToMillisLongOnlySpuriouslyFails | src/main/java/javax/time/Duration.java:809-813 | where `toMillisLong` and its corrected form differ, it overflows on a value that fits |
| DurationFacts.ToMillisLongSpuriousOverflow | src/main/java/javax/time/Duration.java:810 | `(-9_223_372_036_854_776, 999_000_000)`, which is -9_223_372_036_854_775_001 ms, is refused |
| TextFacts.FormatNegativeHalf | src/main/java/javax/time/Duration.java:859-879 | `(-1, 500_000_000)` prints as "PT-0.5S" |
| TextFacts.ParseNegativeTenth | src/main/java/javax/time/Duration.java:54-56 | "PT-0.1S" parses to `(-1, 900_000_000)` |
| TextFacts.ParseLowerCaseComma | src/main/java/javax/time/Duration.java:280-281 | "pt1,5s" parses to `(1, 500_000_000)` |
| TextFacts.ParseRejectsNegativeZero | src/main/java/javax/time/Duration.java:294-295 | "PT-0S" is refused at index 0 |
| TextFacts.ParseRejectsDelimiters | src/main/java/javax/time/Duration.java:290-295 | "XT1S", "PT1X" and "PTS" are refused at index 0 |
| TextFacts.ParseRejectsMalformed | src/main/java/javax/time/Duration.java:290-295 | every text shorter than 4 characters, or whose first, second or last character is not `P`/`p`, `T`/`t`, `S`/`s`, is refused at index 0; so every accepted text has the `PT…S` delimiters |
| TextFacts.ParseRejectsBareFraction | src/main/java/javax/time/Duration.java:309 | "PT.5S" is refused at index 2 |
| TextFacts.ParseRejectsEmptyFraction | src/main/java/javax/time/Duration.java:312-313 | a radix point ('.' or ',') followed by no fraction is refused at index 2, for whole seconds of one or more digits with or without a '-', and either letter case (e.g. "PT1.S", "PT-1,S") |
| TextFacts.ParseRejectsSignedFraction | src/main/java/javax/time/Duration.java:312-313 | any fraction starting with '-' is refused at index 2, whatever follows it, for either radix point, whole seconds of one or more digits with or without a '-', and either letter case |
| TextFacts.ParseRejectsLongFraction | src/main/java/javax/time/Duration.java:312-313 | any fraction of ten or more characters, whatever they are, is refused at index 2, for either radix point, whole seconds of one or more digits with or without a '-', and either letter case |
| TextFacts.ParseStrict | src/main/java/javax/time/Duration.java:275-277 | the documented reading: a success is what `parse` returns, on a text with no '+' and a '-' only for a negative value |
| TextFacts.ParseAcceptsUndocumented | src/main/java/javax/time/Duration.java:302-315 | as written, "PT+1S", "PT-00S" and "PT1.+5S" are accepted; the documented reading refuses them |
| TextFacts.ParseStrictDecimal | src/main/java/javax/time/Duration.java:274-281 | every documented text with a fraction is read as its value, except a '-' before a zero value |
| TextFacts.ParseStrictInteger | src/main/java/javax/time/Duration.java:274-281 | every documented text without a fraction is read as its whole seconds, except a '-' before a zero value |
| TextFacts.FormatSigns | src/main/java/javax/time/Duration.java:859-867 | the canonical text carries a '-' exactly when the duration is negative, and never a '+' |
| TextFacts.ParseStrictFormat | src/main/java/javax/time/Duration.java:272-274 | round trip through the documented reading: the text `toString` writes parses back to the same duration |

## Left out

- `create` (`Duration.java:358-363`) shares the `ZERO` instance. Object identity is not observable in a value model, so `create` is plain construction.
- `readResolve` and serialization are left out.
- `hashCode` is left out. It mixes bits and promises only consistency with `equals`.
- `getSeconds` and `getNanosInSecond` are the two fields of the datatype.
- `equals` is modelled only between two durations. A comparison with another kind of object, or with the same reference, is not modelled.
- The null checks (`Instant.checkNotNull`) in `seconds(BigDecimal)`, `nanos(BigInteger)` and `parse` are left out, as is the null behaviour of `compareTo`.
- `Instant` is not part of this model. `durationBetween` takes two `(epochSeconds, nanoOfSecond)` pairs with the nano-of-second in `[0, 10^9)`, in place of `Instant.instant(...)`.
- The Java `MathUtils` source is not part of this model. Its `safeAdd`, `safeSubtract`, `safeMultiply`, `safeIncrement`, `safeDecrement` and `safeCompare` are given by their contracts in the Dafny `MathUtils` module.
- `BigDecimal` and `BigInteger` are unbounded integers. A `BigDecimal` is an unscaled value and a scale, and `movePointRight(9).toBigIntegerExact()` is exact scaling that fails with `Inexact`. A scale adjustment beyond the 32-bit scale range fails with `Overflow`, except for a zero value, which `BigDecimal` clamps to the range and which gives `ZERO`.
- `Long.parseLong` and `Integer.parseInt` read ASCII digits only. The other Unicode digits that `Character.digit` accepts are not modelled.
- Exception classes and messages are reduced to the error kinds. For `parse`, that is the error index.
- `StringBuilder` is a character sequence, and its capacity hint is dropped.
- TextFacts.ParseStrict: the documentation does not say at which index the extra refusals fail, and the model picks index 2, the number.

## Findings

| source | as written | input that shows it | evidently intended | confidence | as-written member | corrected member |
|---|---|---|---|---|---|---|
| src/main/java/javax/time/Duration.java:493-497 | `plus` adds the seconds with an overflow check before the carry is applied | `(MIN_LONG, 500_000_000)` plus `(-1, 500_000_000)` throws | `(MIN_LONG, 0)`: fail only when the result exceeds the capacity | not executed; high | DurationFacts.PlusSpuriousOverflow | Durations.PlusExact |
| src/main/java/javax/time/Duration.java:592-596 | `minus` subtracts the seconds with an overflow check before the borrow | `(MAX_LONG, 0)` minus `(-1, 500_000_000)` throws | `(MAX_LONG, 500_000_000)` | not executed; high | DurationFacts.MinusSpuriousOverflow | Durations.MinusExact |
| src/main/java/javax/time/Duration.java:259-264 | `durationBetween` subtracts the epoch seconds with an overflow check before the borrow | from `(-1, 500_000_000)` to `(MAX_LONG, 0)` throws | `(MAX_LONG, 500_000_000)` | not executed; high | DurationFacts.DurationBetweenSpuriousOverflow | Durations.DurationBetweenExact |
| src/main/java/javax/time/Duration.java:714-717 | `dividedBy` has no capacity check, and `longValue()` wraps | `(MIN_LONG, 0)` divided by -1 returns `(MIN_LONG, 0)` | an `ArithmeticException`, as `@throws` promises | not executed; high | DurationFacts.DividedByWraps | Durations.DividedByChecked |
| src/main/java/javax/time/Duration.java:790-791 | `toNanosLong` multiplies the seconds with an overflow check before adding the nanos | `(-9_223_372_037, 145_224_192)`, exactly `Long.MIN_VALUE` ns, throws | `Long.MIN_VALUE` | not executed; high | DurationFacts.ToNanosLongSpuriousOverflow | Durations.ToNanosLongExact |
| src/main/java/javax/time/Duration.java:810-811 | `toMillisLong` multiplies the seconds with an overflow check before adding the millis | `(-9_223_372_036_854_776, 999_000_000)` throws | -9_223_372_036_854_775_001 | not executed; high | DurationFacts.ToMillisLongSpuriousOverflow | Durations.ToMillisLongExact |
| src/main/java/javax/time/Duration.java:302-315 | `parse` leaves signs to `parseLong`/`parseInt`, and refuses only the exact text "PT-0S" | "PT-00S" gives ZERO; with Java 7 or later, "PT+1S" gives 1 s and "PT1.+5S" gives 1.05 s | no '+' anywhere, and a '-' only in front of a negative value | not executed; "PT-00S" high, the '+' forms depend on the Java version | TextFacts.ParseAcceptsUndocumented | TextFacts.ParseStrict |
