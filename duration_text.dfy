/** The text form of a duration: the ISO 8601 seconds-only duration `PTnS`
    (ISO 8601:2004 section 4.4.3.2), written by `toString` and read by `parse`. */
module DurationText {
  import opened Results
  import opened MathUtils
  import opened Durations

  //----------------------------------------------------------------------
  // Decimal digits

  predicate IsDigit(c: char) {
    '0' <= c <= '9'
  }

  predicate AllDigits(s: string) {
    forall i :: 0 <= i < |s| ==> IsDigit(s[i])
  }

  function DigitChar(k: int): (c: char)
    requires 0 <= k < 10
    ensures IsDigit(c) && c as int - '0' as int == k
  {
    ('0' as int + k) as char
  }

  /** The value of a string of ASCII digits, most significant digit first. */
  function DigitsValue(s: string): (n: int)
    requires AllDigits(s)
    ensures 0 <= n < Pow10(|s|)
  {
    if s == [] then 0
    else DigitsValue(s[..|s| - 1]) * 10 + (s[|s| - 1] as int - '0' as int)
  }

  /** The shortest decimal digits of a non-negative number: no leading zero
      unless the number is zero itself. */
  function NatToString(n: nat): (s: string)
    ensures |s| >= 1 && AllDigits(s)
    ensures DigitsValue(s) == n
    ensures |s| == 1 || s[0] != '0'
  {
    if n < 10 then [DigitChar(n)]
    else
      var s := NatToString(n / 10) + [DigitChar(n % 10)];
      assert s[..|s| - 1] == NatToString(n / 10);
      s
  }

  /** `Long.toString`, as `StringBuilder.append(long)` writes it: a '-' exactly
      for a negative number, then the shortest digits of its magnitude. */
  function LongToString(x: int): (s: string)
    ensures |s| >= 1 && (s[0] == '-' <==> x < 0)
    ensures var digits := if x < 0 then s[1..] else s;
            |digits| >= 1 && AllDigits(digits) && DigitsValue(digits) == Abs(x) &&
            (|digits| == 1 || digits[0] != '0')
  {
    if x < 0 then "-" + NatToString(-x) else NatToString(x)
  }

  /** The `width` lowest decimal digits of `n`, padded with leading zeros. */
  function PadDigits(n: nat, width: nat): (s: string)
    requires n < Pow10(width)
    ensures |s| == width && AllDigits(s)
    ensures DigitsValue(s) == n
  {
    if width == 0 then []
    else
      var s := PadDigits(n / 10, width - 1) + [DigitChar(n % 10)];
      assert s[..|s| - 1] == PadDigits(n / 10, width - 1);
      s
  }

  /** `s` without its trailing '0' characters. */
  function StripTrailingZeros(s: string): (t: string)
    ensures |t| <= |s| && t == s[..|t|]
    ensures forall i :: |t| <= i < |s| ==> s[i] == '0'
    ensures t == [] || t[|t| - 1] != '0'
  {
    if s != [] && s[|s| - 1] == '0' then StripTrailingZeros(s[..|s| - 1]) else s
  }

  /** Removing trailing zeros divides the value by a power of ten. */
  lemma {:induction false} StripTrailingZerosValue(s: string)
    requires AllDigits(s)
    ensures var t := StripTrailingZeros(s);
            AllDigits(t) && DigitsValue(s) == DigitsValue(t) * Pow10(|s| - |t|)
  {
    var t := StripTrailingZeros(s);
    if s != [] && s[|s| - 1] == '0' {
      var s' := s[..|s| - 1];
      assert AllDigits(s');
      StripTrailingZerosValue(s');
      assert t == StripTrailingZeros(s');
      var k := |s'| - |t|;
      assert DigitsValue(s) == DigitsValue(s') * 10;
      TimesTen(DigitsValue(t), Pow10(k));
    }
  }

  lemma TimesTen(a: int, p: int)
    ensures a * p * 10 == a * (10 * p)
  {
  }

  /** A number between 10^k and 2*10^k is written as '1' followed by its k
      lowest digits; `toString` relies on this to print a fraction with its
      leading zeros. */
  lemma {:induction false} NatToStringLeadingOne(f: nat, k: nat)
    requires f < Pow10(k)
    ensures NatToString(Pow10(k) + f) == "1" + PadDigits(f, k)
  {
    if k == 0 {
      assert NatToString(1) == [DigitChar(1)];
    } else {
      assert Pow10(k) == 10 * Pow10(k - 1);
      ShiftDigit(Pow10(k - 1), f, Pow10(k) + f);
      NatToStringLeadingOne(f / 10, k - 1);
      LeadingOneStep(f, k);
    }
  }

  /** The inductive step: one more low digit on both sides. */
  lemma LeadingOneStep(f: nat, k: nat)
    requires k >= 1 && f < Pow10(k)
    requires f / 10 < Pow10(k - 1)
    requires NatToString(Pow10(k - 1) + f / 10) == "1" + PadDigits(f / 10, k - 1)
    ensures NatToString(Pow10(k) + f) == "1" + PadDigits(f, k)
  {
    var p, q, r := Pow10(k - 1), f / 10, f % 10;
    var n := Pow10(k) + f;
    assert n == 10 * (p + q) + r by {
      assert f == 10 * q + r;
    }
    var head, whole := NatToString(p + q), NatToString(n);
    NatToStringLast(n, p + q, r);
    PadDigitsLast(f, k, q, r);
    AppendLast("1", whole, PadDigits(q, k - 1), PadDigits(f, k), [DigitChar(r)]);
  }

  lemma AppendLast(first: string, whole: string, middle: string, rest: string, last: string)
    requires whole == (first + middle) + last && rest == middle + last
    ensures whole == first + rest
  {
  }

  /** The last digit of a number of two or more digits. */
  lemma NatToStringLast(n: nat, q: nat, r: nat)
    requires n == 10 * q + r && r < 10 && q >= 1
    ensures NatToString(n) == NatToString(q) + [DigitChar(r)]
  {
    assert n / 10 == q && n % 10 == r;
  }

  /** The last digit of a padded number. */
  lemma PadDigitsLast(n: nat, width: nat, q: nat, r: nat)
    requires width >= 1 && n < Pow10(width) && n == 10 * q + r && r < 10
    ensures PadDigits(n, width) == PadDigits(q, width - 1) + [DigitChar(r)]
  {
    assert n / 10 == q && n % 10 == r;
  }

  /** Dropping the last decimal digit of `10^k + f`. */
  lemma ShiftDigit(p: nat, f: nat, n: nat)
    requires p >= 1 && f < 10 * p && n == 10 * p + f
    ensures n / 10 == p + f / 10 && n % 10 == f % 10
    ensures f / 10 < p && n >= 10
  {
  }

  //----------------------------------------------------------------------
  // The Java library parsers and string operations the parser calls

  /** An optional '+' or '-' followed by one or more ASCII digits, as read by
      `Long.parseLong` and `Integer.parseInt`, before their range check. */
  function ParseSigned(s: string): Option<int> {
    if |s| > 0 && (s[0] == '-' || s[0] == '+') then
      if |s| > 1 && AllDigits(s[1..]) then
        Some(if s[0] == '-' then -DigitsValue(s[1..]) else DigitsValue(s[1..]))
      else None
    else if |s| > 0 && AllDigits(s) then Some(DigitsValue(s))
    else None
  }

  /** `Long.parseLong`: `None` stands for `NumberFormatException`. */
  function ParseLong(s: string): (r: Option<int>)
    ensures r.Some? ==> IsLong(r.value)
  {
    match ParseSigned(s)
    case Some(v) => if IsLong(v) then Some(v) else None
    case None => None
  }

  /** `Integer.parseInt`. */
  function ParseInt(s: string): (r: Option<int>)
    ensures r.Some? ==> IsInt(r.value)
  {
    match ParseSigned(s)
    case Some(v) => if IsInt(v) then Some(v) else None
    case None => None
  }

  /** `String.indexOf(char)`. */
  function IndexOf(s: string, c: char): (i: int)
    ensures -1 <= i < |s|
    ensures i == -1 <==> c !in s
    ensures i >= 0 ==> s[i] == c && c !in s[..i]
  {
    if s == [] then -1
    else if s[0] == c then 0
    else
      var j := IndexOf(s[1..], c);
      assert s[1..][..j + 1] == s[1..j + 2] by {
        if j >= 0 {
          assert s[..j + 1] == [s[0]] + s[1..][..j];
        }
      }
      if j == -1 then -1 else j + 1
  }

  /** `String.replace(',', '.')`. */
  function ReplaceCommas(s: string): (t: string)
    ensures |t| == |s|
    ensures forall i :: 0 <= i < |s| ==> t[i] == (if s[i] == ',' then '.' else s[i])
  {
    if s == [] then [] else [if s[0] == ',' then '.' else s[0]] + ReplaceCommas(s[1..])
  }

  /** The `switch` that scales a fraction of `len` digits to nanoseconds. */
  function FractionScale(len: int): (scale: int)
    requires 1 <= len <= 9
    ensures scale == Pow10(9 - len)
  {
    assert Pow10(8) == 100000000;
    match len
    case 1 => 100000000
    case 2 => 10000000
    case 3 => 1000000
    case 4 => 100000
    case 5 => 10000
    case 6 => 1000
    case 7 => 100
    case 8 => 10
    case _ => 1
  }

  //----------------------------------------------------------------------
  // Parsing

  /** Any failure on the way through the number is a parse failure at index 2. */
  function AsParseResult(r: Result<Duration>): Result<Duration> {
    match r
    case Ok(d) => Ok(d)
    case Err(_) => Err(ParseFailure(2))
  }

  /** The checks `parse` makes before reading the number: too short, a wrong
      letter, or the one text "PT-0S" (any case). Failures here are at index 0. */
  predicate BadDelimiters(text: string) {
    var len := |text|;
    len < 4 || (text[0] != 'P' && text[0] != 'p') || (text[1] != 'T' && text[1] != 't')
    || (text[len - 1] != 'S' && text[len - 1] != 's')
    || (len == 5 && text[2] == '-' && text[3] == '0')
  }

  /** `parse(String)`: the delimiters are checked first (failures at index 0),
      then the number between them is read with either '.' or ',' as the point. */
  function Parse(text: string): (r: Result<Duration>)
    ensures r.Ok? ==> Valid(r.value)
    ensures r.Err? ==> r.error == ParseFailure(0) || r.error == ParseFailure(2)
  {
    if BadDelimiters(text) then Err(ParseFailure(0))
    else ParseNumber(ReplaceCommas(text[2..|text| - 1]))
  }

  /** The number of a `PTnS` text, after commas have become points: whole seconds
      alone, or whole seconds, a point and a fraction. */
  function ParseNumber(number: string): (r: Result<Duration>)
    requires |number| >= 1
    ensures r.Ok? ==> Valid(r.value)
    ensures r.Err? ==> r.error == ParseFailure(2)
  {
    var dot := IndexOf(number, '.');
    if dot == -1 then
      match ParseLong(number)
      case None => Err(ParseFailure(2))
      case Some(secs) => Ok(Duration(secs, 0))
    else
      match ParseLong(number[..dot])
      case None => Err(ParseFailure(2))
      case Some(secs) => ParseFraction(number[0] == '-', secs, number[dot + 1..])
  }

  /** The fraction after the point: one to nine characters not starting with
      '-', read by `Integer.parseInt` and scaled to nanoseconds. A negative
      number subtracts them from its whole seconds. */
  function ParseFraction(negative: bool, secs: int, fraction: string): (r: Result<Duration>)
    requires IsLong(secs)
    ensures r.Ok? ==> Valid(r.value)
    ensures r.Err? ==> r.error == ParseFailure(2)
  {
    if |fraction| == 0 || |fraction| > 9 || fraction[0] == '-' then Err(ParseFailure(2))
    else
      match ParseInt(fraction)
      case None => Err(ParseFailure(2))
      case Some(nanos) =>
        FractionBound(fraction);
        var scaled := nanos * FractionScale(|fraction|);
        if negative then AsParseResult(SecondsAdjusted(secs, -scaled))
        else Ok(Duration(secs, scaled))
  }

  /** What `Integer.parseInt` reads from at most nine characters that do not
      start with '-' is a number of nanoseconds once scaled. */
  lemma FractionBound(fraction: string)
    requires 1 <= |fraction| <= 9 && fraction[0] != '-' && ParseInt(fraction).Some?
    ensures 0 <= ParseInt(fraction).value * FractionScale(|fraction|) < NANOS_PER_SECOND
  {
    var n := ParseInt(fraction).value;
    var k := |fraction|;
    assert 0 <= n < Pow10(k) by {
      if fraction[0] == '+' {
        assert n < Pow10(k - 1);
        assert Pow10(k) == 10 * Pow10(k - 1);
      }
    }
    Pow10Sum(k, 9 - k);
    Pow10Nine();
    MulLess(n, Pow10(k), Pow10(9 - k));
  }

  lemma {:induction false} Pow10Sum(a: nat, b: nat)
    ensures Pow10(a + b) == Pow10(a) * Pow10(b)
  {
    if a > 0 {
      Pow10Sum(a - 1, b);
    }
  }

  //----------------------------------------------------------------------
  // Formatting

  /** The sign of a text: "-" for a negative length. */
  function SignText(negative: bool): string {
    if negative then "-" else ""
  }

  /** The fraction of a text: nothing for a whole number of seconds, otherwise a
      point and at most nine digits with no trailing zero. */
  function FractionText(fraction: nat): string
    requires fraction < NANOS_PER_SECOND
  {
    if fraction == 0 then "" else "." + StripTrailingZeros(PadDigits(fraction, 9))
  }

  /** The canonical text of a duration: "PT", a '-' when it is negative, the
      whole seconds of its magnitude, the fraction of its magnitude, and "S". */
  function Format(d: Duration): string
    requires Valid(d)
  {
    var total := ToNanos(d);
    "PT" + SignText(total < 0) + NatToString(Abs(total) / NANOS_PER_SECOND)
      + FractionText(Abs(total) % NANOS_PER_SECOND) + "S"
  }

  /** The whole seconds and the fraction of the magnitude of a duration, read
      off its fields: a negative duration with a fraction borrows one second. */
  lemma MagnitudeParts(d: Duration)
    requires Valid(d)
    ensures var m := Abs(ToNanos(d));
            if d.seconds < 0 && d.nanos > 0 then
              m / NANOS_PER_SECOND == -d.seconds - 1 && m % NANOS_PER_SECOND == NANOS_PER_SECOND - d.nanos
            else if d.seconds < 0 then
              m / NANOS_PER_SECOND == -d.seconds && m % NANOS_PER_SECOND == 0
            else
              m / NANOS_PER_SECOND == d.seconds && m % NANOS_PER_SECOND == d.nanos
  {
    var m := Abs(ToNanos(d));
    if d.seconds < 0 && d.nanos > 0 {
      assert m == NANOS_PER_SECOND * (-d.seconds - 1) + (NANOS_PER_SECOND - d.nanos);
      DivModUnique(m, NANOS_PER_SECOND, -d.seconds - 1, NANOS_PER_SECOND - d.nanos);
    } else if d.seconds < 0 {
      assert m == NANOS_PER_SECOND * -d.seconds + 0;
      DivModUnique(m, NANOS_PER_SECOND, -d.seconds, 0);
    }
  }

  /** What `toString` prints before the fraction is the sign and the whole
      seconds of the magnitude: for a negative duration with a fraction the
      magnitude's whole seconds are `-(seconds + 1)`, printed "-0" when zero. */
  lemma IntegerPartText(d: Duration)
    requires Valid(d)
    ensures (if d.seconds < 0 && d.nanos > 0
             then (if d.seconds == -1 then "-0" else LongToString(d.seconds + 1))
             else LongToString(d.seconds))
            == SignText(ToNanos(d) < 0) + NatToString(Abs(ToNanos(d)) / NANOS_PER_SECOND)
  {
    MagnitudeParts(d);
    if d.seconds == -1 && d.nanos > 0 {
      assert NatToString(0) == "0";
    }
  }

  /** The ten digits `toString` appends for a fraction are '1' followed by the
      nine digits of the magnitude's fraction. */
  lemma FractionDigitsText(d: Duration)
    requires Valid(d) && d.nanos > 0
    ensures 0 < Abs(ToNanos(d)) % NANOS_PER_SECOND < NANOS_PER_SECOND
    ensures LongToString(if d.seconds < 0 then 2 * NANOS_PER_SECOND - d.nanos
                         else d.nanos + NANOS_PER_SECOND)
            == "1" + PadDigits(Abs(ToNanos(d)) % NANOS_PER_SECOND, 9)
  {
    MagnitudeParts(d);
    Pow10Nine();
    var f := Abs(ToNanos(d)) % NANOS_PER_SECOND;
    var x := if d.seconds < 0 then 2 * NANOS_PER_SECOND - d.nanos else d.nanos + NANOS_PER_SECOND;
    assert x == Pow10(9) + f;
    NatToStringLeadingOne(f, 9);
    assert LongToString(x) == NatToString(x);
  }

  /** The loop of `toString` that shortens the buffer while its last character
      is '0'; the '1' written at `pos` stops it. Only the zeros after `pos` go. */
  method TrimTrailingZeros(buf: string, pos: nat) returns (t: string)
    requires pos < |buf| && buf[pos] == '1'
    ensures t == buf[..pos + 1] + StripTrailingZeros(buf[pos + 1..])
  {
    t := buf;
    while t[|t| - 1] == '0'
      invariant pos < |t| <= |buf| && t == buf[..|t|]
      invariant StripTrailingZeros(t[pos + 1..]) == StripTrailingZeros(buf[pos + 1..])
      decreases |t|
    {
      ghost var u := t[pos + 1..];
      StripLastZero(u);
      assert u[..|u| - 1] == t[pos + 1..|t| - 1];
      t := t[..|t| - 1];
    }
    assert t[pos + 1..] == StripTrailingZeros(t[pos + 1..]);
    assert t == buf[..pos + 1] + t[pos + 1..];
  }

  lemma StripLastZero(u: string)
    requires |u| >= 1 && u[|u| - 1] == '0'
    ensures StripTrailingZeros(u) == StripTrailingZeros(u[..|u| - 1])
  {
  }

  /** The fraction step of `toString`: it remembers where the point goes,
      appends ten digits (the nine of the fraction after a leading '1', taking
      the complement for a negative duration), trims trailing zeros and writes
      the point over the '1'. */
  method AppendFraction(buf: string, d: Duration) returns (r: string)
    requires Valid(d) && d.nanos > 0
    ensures r == buf + FractionText(Abs(ToNanos(d)) % NANOS_PER_SECOND)
  {
    ghost var fraction := Abs(ToNanos(d)) % NANOS_PER_SECOND;
    var pos := |buf|;
    FractionDigitsText(d);
    ghost var digits := PadDigits(fraction, 9);
    var tenDigits := if d.seconds < 0 then LongToString(2 * NANOS_PER_SECOND - d.nanos)
                     else LongToString(d.nanos + NANOS_PER_SECOND);
    r := buf + tenDigits;
    assert r == buf + "1" + digits by {
      assert buf + ("1" + digits) == buf + "1" + digits;
    }
    assert r[..pos + 1] == buf + "1" && r[pos + 1..] == digits;
    r := TrimTrailingZeros(r, pos);
    assert r == buf + "1" + StripTrailingZeros(digits);
    r := r[pos := '.'];
    PointOverwrite(buf, StripTrailingZeros(digits));
  }

  /** `toString()`: it prints `seconds + 1` for a negative duration with a
      fraction ("-0" when that is zero), then the fraction, then "S". The
      result is the canonical text. */
  method ToString(d: Duration) returns (text: string)
    requires Valid(d)
    ensures text == Format(d)
  {
    var whole: string;
    if d.seconds < 0 && d.nanos > 0 {
      if d.seconds == -1 {
        whole := "-0";
      } else {
        whole := LongToString(d.seconds + 1);
      }
    } else {
      whole := LongToString(d.seconds);
    }
    IntegerPartText(d);
    var buf := "PT" + whole;
    if d.nanos > 0 {
      buf := AppendFraction(buf, d);
    } else {
      assert Abs(ToNanos(d)) % NANOS_PER_SECOND == 0;
      assert buf == buf + FractionText(0);
    }
    buf := buf + "S";
    text := buf;
    FormatParts(d);
  }

  /** `Format` regrouped as `toString` builds it: "PT", the integer part, the
      fraction and "S". */
  lemma FormatParts(d: Duration)
    requires Valid(d)
    ensures Format(d) == "PT" + (SignText(ToNanos(d) < 0) + NatToString(Abs(ToNanos(d)) / NANOS_PER_SECOND))
                         + FractionText(Abs(ToNanos(d)) % NANOS_PER_SECOND) + "S"
  {
    var sign := SignText(ToNanos(d) < 0);
    var whole := NatToString(Abs(ToNanos(d)) / NANOS_PER_SECOND);
    assert "PT" + (sign + whole) == "PT" + sign + whole;
  }

  lemma PointOverwrite(head: string, rest: string)
    ensures (head + "1" + rest)[|head| := '.'] == head + ("." + rest)
  {
  }

  //----------------------------------------------------------------------
  // What a text denotes

  /** The nanoseconds a fraction of at most nine digits stands for. */
  function FractionNanos(fraction: string): (n: int)
    requires AllDigits(fraction) && |fraction| <= 9
    ensures 0 <= n < NANOS_PER_SECOND
  {
    DigitsBelow(fraction, 9);
    Pow10Sum(|fraction|, 9 - |fraction|);
    MulLess(DigitsValue(fraction), Pow10(|fraction|), Pow10(9 - |fraction|));
    Pow10Nine();
    DigitsValue(fraction) * Pow10(9 - |fraction|)
  }

  /** The signed number of nanoseconds a decimal number of seconds stands for. */
  function DecimalNanos(negative: bool, whole: string, fraction: string): int
    requires AllDigits(whole) && AllDigits(fraction) && |fraction| <= 9
  {
    var magnitude := DigitsValue(whole) * NANOS_PER_SECOND + FractionNanos(fraction);
    if negative then -magnitude else magnitude
  }

  lemma Pow10Nine()
    ensures Pow10(9) == NANOS_PER_SECOND
  {
  }

  lemma DigitsBelow(s: string, k: nat)
    requires AllDigits(s) && |s| <= k
    ensures DigitsValue(s) < Pow10(k)
  {
    Pow10Sum(|s|, k - |s|);
    MulLess(DigitsValue(s), Pow10(|s|), Pow10(k - |s|));
  }

  lemma MulLess(a: int, b: int, c: int)
    requires 0 <= a < b && c > 0
    ensures a * c < b * c
  {
  }

  /** Past the delimiter checks, `parse` reads the number between them; the
      letters may be in either case. */
  lemma ParseDelimiters(p: char, t: char, body: string, s: char)
    requires p in "Pp" && t in "Tt" && s in "Ss" && |body| >= 1
    ensures Parse([p, t] + body + [s])
            == if body == "-0" then Err(ParseFailure(0)) else ParseNumber(ReplaceCommas(body))
  {
    var text := [p, t] + body + [s];
    DelimitersChecked(p, t, body, s);
    assert text[2..|text| - 1] == body;
  }

  lemma DelimitersChecked(p: char, t: char, body: string, s: char)
    requires p in "Pp" && t in "Tt" && s in "Ss" && |body| >= 1
    ensures BadDelimiters([p, t] + body + [s]) <==> body == "-0"
  {
    var text := [p, t] + body + [s];
    var len := |text|;
    assert len == |body| + 3;
    assert text[0] == p && text[1] == t && text[len - 1] == s;
    if len == 5 {
      assert body == [text[2], text[3]];
    }
  }

  /** Commas become points; nothing else changes. */
  lemma ReplaceCommasDecimal(sign: string, whole: string, point: char, fraction: string)
    requires sign == "" || sign == "-"
    requires AllDigits(whole) && AllDigits(fraction) && point in ".,"
    ensures ReplaceCommas(sign + whole + [point] + fraction) == sign + whole + "." + fraction
    ensures ReplaceCommas(sign + whole) == sign + whole
  {
    DigitsUnsigned(whole);
    DigitsUnsigned(fraction);
    NoCommas(sign + whole);
    NoCommas(fraction);
    ReplaceCommasAppend(sign + whole, [point]);
    ReplaceCommasAppend(sign + whole + [point], fraction);
  }

  /** Commas are replaced one character at a time. */
  lemma ReplaceCommasAppend(a: string, b: string)
    ensures ReplaceCommas(a + b) == ReplaceCommas(a) + ReplaceCommas(b)
  {
  }

  /** A text without a comma is left as it is. */
  lemma NoCommas(s: string)
    requires ',' !in s
    ensures ReplaceCommas(s) == s
  {
  }

  /** Digits are neither signs nor commas. */
  lemma DigitsUnsigned(s: string)
    requires AllDigits(s)
    ensures '+' !in s && '-' !in s && ',' !in s
  {
  }

  /** `Long.parseLong` reads back an optionally negated digit string. */
  lemma ParseLongSigned(negative: bool, whole: string)
    requires |whole| >= 1 && AllDigits(whole)
    ensures negative ==> ParseLong(SignText(negative) + whole)
                         == if IsLong(-DigitsValue(whole)) then Some(-DigitsValue(whole)) else None
    ensures !negative ==> ParseLong(SignText(negative) + whole)
                          == if IsLong(DigitsValue(whole)) then Some(DigitsValue(whole)) else None
  {
    if negative {
      assert (SignText(negative) + whole)[1..] == whole;
    } else {
      assert SignText(negative) + whole == whole;
      assert whole[0] != '-' && whole[0] != '+' by {
        assert IsDigit(whole[0]);
      }
    }
  }

  /** A fraction of one to nine digits is scaled to nanoseconds and added to, or
      for a negative number subtracted from, the whole seconds. */
  lemma ParseFractionDigits(negative: bool, secs: int, fraction: string)
    requires IsLong(secs) && 1 <= |fraction| <= 9 && AllDigits(fraction)
    ensures negative ==> ParseFraction(negative, secs, fraction)
                         == AsParseResult(Normalized(secs * NANOS_PER_SECOND - FractionNanos(fraction)))
    ensures !negative ==> ParseFraction(negative, secs, fraction)
                          == Ok(Duration(secs, FractionNanos(fraction)))
  {
    var f := DigitsValue(fraction);
    DigitsBelow(fraction, 9);
    Pow10Nine();
    assert IsInt(f);
    assert !(fraction[0] == '-' || fraction[0] == '+') by {
      assert IsDigit(fraction[0]);
    }
    assert ParseSigned(fraction) == Some(f);
    assert ParseInt(fraction) == Some(f);
    var scaled := f * FractionScale(|fraction|);
    assert scaled == FractionNanos(fraction);
    if negative {
      assert ParseFraction(negative, secs, fraction) == AsParseResult(SecondsAdjusted(secs, -scaled));
      assert secs * NANOS_PER_SECOND + -scaled == secs * NANOS_PER_SECOND - scaled;
    }
  }

  /** A number with a point denotes its signed decimal value in seconds, and is
      refused exactly when that value is out of range. */
  lemma ParseNumberDecimal(negative: bool, whole: string, fraction: string)
    requires |whole| >= 1 && AllDigits(whole)
    requires 1 <= |fraction| <= 9 && AllDigits(fraction)
    ensures ParseNumber(SignText(negative) + whole + "." + fraction)
            == AsParseResult(Normalized(DecimalNanos(negative, whole, fraction)))
  {
    var w := DigitsValue(whole);
    var v := if negative then -w else w;
    DecimalNumberSplit(negative, whole, fraction);
    ParseLongSigned(negative, whole);
    if IsLong(v) {
      FractionDenotes(negative, whole, fraction, v);
    } else {
      NormalizedOutside(negative, w, FractionNanos(fraction));
    }
  }

  /** A number with a point is read as its whole seconds, then its fraction. */
  lemma DecimalNumberSplit(negative: bool, whole: string, fraction: string)
    requires |whole| >= 1 && AllDigits(whole)
    ensures ParseNumber(SignText(negative) + whole + "." + fraction)
            == match ParseLong(SignText(negative) + whole)
               case None => Err(ParseFailure(2))
               case Some(secs) => ParseFraction(negative, secs, fraction)
  {
    DecimalShape(negative, whole, fraction);
  }

  /** The fraction of a number whose whole seconds fit in a long completes its
      signed decimal value. */
  lemma FractionDenotes(negative: bool, whole: string, fraction: string, v: int)
    requires AllDigits(whole) && 1 <= |fraction| <= 9 && AllDigits(fraction)
    requires v == (if negative then -DigitsValue(whole) else DigitsValue(whole)) && IsLong(v)
    ensures ParseFraction(negative, v, fraction)
            == AsParseResult(Normalized(DecimalNanos(negative, whole, fraction)))
  {
    var f := FractionNanos(fraction);
    ParseFractionDigits(negative, v, fraction);
    if negative {
      assert v * NANOS_PER_SECOND - f == DecimalNanos(negative, whole, fraction);
    } else {
      NormalizedToNanos(Duration(v, f));
      assert ToNanos(Duration(v, f)) == DecimalNanos(negative, whole, fraction);
    }
  }

  /** Where `parse` finds the point, the sign and the two halves of a number. */
  lemma DecimalShape(negative: bool, whole: string, fraction: string)
    requires |whole| >= 1 && AllDigits(whole)
    ensures var number := SignText(negative) + whole + "." + fraction;
            var dot := |SignText(negative) + whole|;
            IndexOf(number, '.') == dot && number[..dot] == SignText(negative) + whole
            && number[dot + 1..] == fraction && (number[0] == '-' <==> negative)
  {
    var sign := SignText(negative);
    var number := sign + whole + "." + fraction;
    var dot := |sign + whole|;
    assert '.' !in sign + whole by {
      forall i | 0 <= i < |sign + whole|
        ensures (sign + whole)[i] != '.'
      {
        if i >= |sign| {
          assert (sign + whole)[i] == whole[i - |sign|];
        }
      }
    }
    assert number[..dot] == sign + whole;
    assert number[dot + 1..] == fraction;
    assert number[dot] == '.';
    if !negative {
      assert number[0] == whole[0];
      assert IsDigit(whole[0]);
    }
  }

  /** Whole seconds outside the range of a `long` leave the whole number
      outside the range, whatever the fraction. */
  lemma NormalizedOutside(negative: bool, w: int, f: int)
    requires 0 <= w && 0 <= f < NANOS_PER_SECOND
    requires !IsLong(if negative then -w else w)
    ensures Normalized(if negative then -(w * NANOS_PER_SECOND + f)
                       else w * NANOS_PER_SECOND + f).Err?
  {
    if negative {
      assert -w < MIN_LONG;
      assert w * NANOS_PER_SECOND >= (-MIN_LONG + 1) * NANOS_PER_SECOND;
    } else {
      assert w > MAX_LONG;
      assert w * NANOS_PER_SECOND >= (MAX_LONG + 1) * NANOS_PER_SECOND;
    }
  }

  /** A number without a point denotes its whole seconds. */
  lemma ParseNumberInteger(negative: bool, whole: string)
    requires |whole| >= 1 && AllDigits(whole)
    ensures ParseNumber(SignText(negative) + whole)
            == AsParseResult(Normalized(DecimalNanos(negative, whole, "")))
  {
    var number := SignText(negative) + whole;
    assert '.' !in number by {
      forall i | 0 <= i < |number|
        ensures number[i] != '.'
      {
        if i >= |SignText(negative)| {
          assert number[i] == whole[i - |SignText(negative)|];
        }
      }
    }
    ParseLongSigned(negative, whole);
    var w := DigitsValue(whole);
    var v := if negative then -w else w;
    assert FractionNanos("") == 0;
    assert DecimalNanos(negative, whole, "") == v * NANOS_PER_SECOND;
    if IsLong(v) {
      NormalizedToNanos(Duration(v, 0));
    } else {
      NormalizedOutside(negative, w, 0);
    }
  }

  /** A text with a fraction denotes the decimal number it spells, signed, and is
      refused exactly when that number of seconds is out of range. The letters
      may be in either case and the point may be a comma. */
  lemma ParseDecimal(p: char, t: char, negative: bool, whole: string, point: char,
                     fraction: string, s: char)
    requires p in "Pp" && t in "Tt" && s in "Ss" && point in ".,"
    requires |whole| >= 1 && AllDigits(whole)
    requires 1 <= |fraction| <= 9 && AllDigits(fraction)
    ensures Parse([p, t] + SignText(negative) + whole + [point] + fraction + [s])
            == AsParseResult(Normalized(DecimalNanos(negative, whole, fraction)))
  {
    var body := SignText(negative) + whole + [point] + fraction;
    assert [p, t] + SignText(negative) + whole + [point] + fraction + [s] == [p, t] + body + [s];
    ParseDelimiters(p, t, body, s);
    assert body != "-0" by {
      assert |body| >= 3;
    }
    ReplaceCommasDecimal(SignText(negative), whole, point, fraction);
    ParseNumberDecimal(negative, whole, fraction);
  }

  /** A text without a fraction denotes its whole seconds (the one spelling
      "PT-0S" is refused, see `TextFacts.ParseRejectsNegativeZero`). */
  lemma ParseInteger(p: char, t: char, negative: bool, whole: string, s: char)
    requires p in "Pp" && t in "Tt" && s in "Ss"
    requires |whole| >= 1 && AllDigits(whole) && !(negative && whole == "0")
    ensures Parse([p, t] + SignText(negative) + whole + [s])
            == AsParseResult(Normalized(DecimalNanos(negative, whole, "")))
  {
    var body := SignText(negative) + whole;
    assert body != "-0" by {
      if negative {
        assert body[1..] == whole;
      } else {
        assert body == whole;
        assert IsDigit(body[0]);
      }
    }
    assert [p, t] + SignText(negative) + whole + [s] == [p, t] + body + [s];
    ParseDelimiters(p, t, body, s);
    ReplaceCommasDecimal(SignText(negative), whole, '.', "");
    ParseNumberInteger(negative, whole);
  }

  /** The digits `Format` shows for a fraction stand for that fraction. */
  lemma ShownFraction(fraction: nat)
    requires 0 < fraction < NANOS_PER_SECOND
    ensures var shown := StripTrailingZeros(PadDigits(fraction, 9));
            1 <= |shown| <= 9 && AllDigits(shown) && FractionNanos(shown) == fraction
  {
    Pow10Nine();
    var digits := PadDigits(fraction, 9);
    var shown := StripTrailingZeros(digits);
    StripTrailingZerosValue(digits);
  }

  /** The magnitude of a duration is its whole seconds and its fraction. */
  lemma MagnitudeSplit(d: Duration, fraction: nat, shown: string)
    requires Valid(d) && fraction == Abs(ToNanos(d)) % NANOS_PER_SECOND
    requires AllDigits(shown) && |shown| <= 9 && FractionNanos(shown) == fraction
    ensures DecimalNanos(ToNanos(d) < 0, NatToString(Abs(ToNanos(d)) / NANOS_PER_SECOND), shown)
            == ToNanos(d)
  {
  }

  lemma FormatWholeText(d: Duration)
    requires Valid(d) && Abs(ToNanos(d)) % NANOS_PER_SECOND == 0
    ensures Format(d) == ['P', 'T'] + SignText(ToNanos(d) < 0)
                         + NatToString(Abs(ToNanos(d)) / NANOS_PER_SECOND) + ['S']
  {
    FormatParts(d);
    assert FractionText(0) == "";
  }

  /** A negative whole number of seconds is at least one second long, so its
      text is never "PT-0S". */
  lemma NegativeWholeNotZero(d: Duration)
    requires Valid(d) && Abs(ToNanos(d)) % NANOS_PER_SECOND == 0
    ensures ToNanos(d) < 0 ==> NatToString(Abs(ToNanos(d)) / NANOS_PER_SECOND) != "0"
  {
    if ToNanos(d) < 0 {
      assert DigitsValue(NatToString(Abs(ToNanos(d)) / NANOS_PER_SECOND)) > 0;
      assert DigitsValue("0") == 0;
    }
  }

  /** The text of a whole number of seconds parses back to it. */
  lemma ParseWholeText(d: Duration)
    requires Valid(d) && Abs(ToNanos(d)) % NANOS_PER_SECOND == 0
    ensures Parse(['P', 'T'] + SignText(ToNanos(d) < 0)
                  + NatToString(Abs(ToNanos(d)) / NANOS_PER_SECOND) + ['S']) == Ok(d)
  {
    var total := ToNanos(d);
    var negative := total < 0;
    var whole := NatToString(Abs(total) / NANOS_PER_SECOND);
    calc {
      Parse(['P', 'T'] + SignText(negative) + whole + ['S']);
      == { NegativeWholeNotZero(d); ParseInteger('P', 'T', negative, whole, 'S'); }
      AsParseResult(Normalized(DecimalNanos(negative, whole, "")));
      == { assert FractionNanos("") == 0; MagnitudeSplit(d, 0, ""); }
      AsParseResult(Normalized(total));
      == { NormalizedToNanos(d); }
      Ok(d);
    }
  }

  /** The text of a duration with a fraction of a second parses back to it. */
  lemma ParseFractionText(d: Duration)
    requires Valid(d) && Abs(ToNanos(d)) % NANOS_PER_SECOND != 0
    ensures var fraction := Abs(ToNanos(d)) % NANOS_PER_SECOND;
            Parse(['P', 'T'] + SignText(ToNanos(d) < 0)
                  + NatToString(Abs(ToNanos(d)) / NANOS_PER_SECOND)
                  + ['.'] + StripTrailingZeros(PadDigits(fraction, 9)) + ['S']) == Ok(d)
  {
    var total := ToNanos(d);
    var negative := total < 0;
    var fraction := Abs(total) % NANOS_PER_SECOND;
    var whole := NatToString(Abs(total) / NANOS_PER_SECOND);
    var shown := StripTrailingZeros(PadDigits(fraction, 9));
    ShownFraction(fraction);
    calc {
      Parse(['P', 'T'] + SignText(negative) + whole + ['.'] + shown + ['S']);
      == { ParseDecimal('P', 'T', negative, whole, '.', shown, 'S'); }
      AsParseResult(Normalized(DecimalNanos(negative, whole, shown)));
      == { MagnitudeSplit(d, fraction, shown); }
      AsParseResult(Normalized(total));
      == { NormalizedToNanos(d); }
      Ok(d);
    }
  }

  lemma FormatFractionText(d: Duration)
    requires Valid(d) && Abs(ToNanos(d)) % NANOS_PER_SECOND != 0
    ensures var fraction := Abs(ToNanos(d)) % NANOS_PER_SECOND;
            Format(d) == ['P', 'T'] + SignText(ToNanos(d) < 0)
                         + NatToString(Abs(ToNanos(d)) / NANOS_PER_SECOND)
                         + ['.'] + StripTrailingZeros(PadDigits(fraction, 9)) + ['S']
  {
    FormatParts(d);
    var fraction := Abs(ToNanos(d)) % NANOS_PER_SECOND;
    var a := ['P', 'T'] + SignText(ToNanos(d) < 0) + NatToString(Abs(ToNanos(d)) / NANOS_PER_SECOND);
    var b := StripTrailingZeros(PadDigits(fraction, 9));
    assert FractionText(fraction) == "." + b;
    assert a + ("." + b) + "S" == a + ['.'] + b + ['S'];
  }

  /** Round trip: the canonical text of a duration parses back to it. */
  lemma ParseFormat(d: Duration)
    requires Valid(d)
    ensures Parse(Format(d)) == Ok(d)
  {
    if Abs(ToNanos(d)) % NANOS_PER_SECOND == 0 {
      FormatWholeText(d);
      ParseWholeText(d);
    } else {
      FormatFractionText(d);
      ParseFractionText(d);
    }
  }
}
