/** Examples of the text form, and the grammar the documentation of `parse`
    states, which the code does not fully enforce. */
module TextFacts {
  import opened Results
  import opened MathUtils
  import opened Durations
  import opened DurationText

  //----------------------------------------------------------------------
  // Examples

  /** Half a second below zero prints as "PT-0.5S". */
  lemma FormatNegativeHalf()
    ensures Format(Duration(-1, 500_000_000)) == "PT-0.5S"
  {
    assert ToNanos(Duration(-1, 500_000_000)) == -500_000_000;
    HalfDigits();
    assert NatToString(0) == "0";
  }

  lemma HalfDigits()
    ensures FractionText(500_000_000) == ".5"
  {
    HalfPadded();
    HalfStripped();
  }

  lemma HalfPadded()
    ensures PadDigits(500_000_000, 9) == "500000000"
  {
    HalfPaddedLow();
    assert PadDigits(5000000, 7) == "5000000";
    assert PadDigits(50000000, 8) == "50000000";
    assert PadDigits(500000000, 9) == "500000000";
  }

  lemma HalfPaddedLow()
    ensures PadDigits(500_000, 6) == "500000"
  {
    assert PadDigits(5, 1) == "5";
    assert PadDigits(50, 2) == "50";
    assert PadDigits(500, 3) == "500";
    assert PadDigits(5000, 4) == "5000";
    assert PadDigits(50000, 5) == "50000";
    assert PadDigits(500000, 6) == "500000";
  }

  lemma HalfStripped()
    ensures StripTrailingZeros("500000000") == "5"
  {
    var s := "500000000";
    var t := StripTrailingZeros(s);
    assert s[0] == '5' && forall i :: 1 <= i < |s| ==> s[i] == '0';
    assert |t| == 1;
    assert s[..1] == "5";
  }

  /** "PT-0.1S" is -1 second and 900,000,000 nanoseconds. */
  lemma ParseNegativeTenth()
    ensures Parse("PT-0.1S") == Ok(Duration(-1, 900_000_000))
  {
    TenthText();
    ParseDecimal('P', 'T', true, "0", '.', "1", 'S');
    TenthNanos();
  }

  lemma TenthText()
    ensures "PT-0.1S" == ['P', 'T'] + SignText(true) + "0" + ['.'] + "1" + ['S']
  {
  }

  lemma TenthNanos()
    ensures Normalized(DecimalNanos(true, "0", "1")) == Ok(Duration(-1, 900_000_000))
  {
    assert DigitsValue("1") == 1;
    assert Pow10(8) == 100_000_000;
    assert FractionNanos("1") == 100_000_000;
    assert DecimalNanos(true, "0", "1") == -100_000_000;
    NormalizedToNanos(Duration(-1, 900_000_000));
  }

  /** Lower-case letters and a comma are accepted. */
  lemma ParseLowerCaseComma()
    ensures Parse("pt1,5s") == Ok(Duration(1, 500_000_000))
  {
    CommaText();
    ParseDecimal('p', 't', false, "1", ',', "5", 's');
    CommaNanos();
  }

  lemma CommaText()
    ensures "pt1,5s" == ['p', 't'] + SignText(false) + "1" + [','] + "5" + ['s']
  {
  }

  lemma CommaNanos()
    ensures Normalized(DecimalNanos(false, "1", "5")) == Ok(Duration(1, 500_000_000))
  {
    assert DigitsValue("1") == 1 && DigitsValue("5") == 5;
    assert Pow10(8) == 100_000_000;
    assert DecimalNanos(false, "1", "5") == 1_500_000_000;
    NormalizedToNanos(Duration(1, 500_000_000));
  }

  /** "PT-0S" is refused with the delimiters, at index 0. */
  lemma ParseRejectsNegativeZero()
    ensures Parse("PT-0S") == Err(ParseFailure(0))
  {
    assert "PT-0S" == ['P', 'T'] + "-0" + ['S'];
    ParseDelimiters('P', 'T', "-0", 'S');
  }

  /** Wrong or missing delimiters are refused at index 0. */
  lemma ParseRejectsDelimiters()
    ensures Parse("XT1S") == Err(ParseFailure(0))
    ensures Parse("PT1X") == Err(ParseFailure(0))
    ensures Parse("PTS") == Err(ParseFailure(0))
  {
  }

  /** Every text too short for the delimiters, or without `P`, `T` and `S` in
      their places, is refused at index 0. */
  lemma ParseRejectsMalformed(text: string)
    requires |text| < 4 || text[0] !in "Pp" || text[1] !in "Tt" || text[|text| - 1] !in "Ss"
    ensures Parse(text) == Err(ParseFailure(0))
  {
  }

  /** A number without whole seconds is refused at index 2. */
  lemma ParseRejectsBareFraction()
    ensures Parse("PT.5S") == Err(ParseFailure(2))
  {
    assert "PT.5S" == ['P', 'T'] + ".5" + ['S'];
    ParseDelimiters('P', 'T', ".5", 'S');
    assert ReplaceCommas(".5") == ".5";
    assert ParseLong("") == None;
  }

  /** A point without a fraction is refused at index 2, whatever the sign and
      digits of the whole seconds, the radix point and the case of the letters. */
  lemma ParseRejectsEmptyFraction(p: char, t: char, negative: bool, whole: string, point: char, s: char)
    requires p in "Pp" && t in "Tt" && s in "Ss" && point in ".,"
    requires |whole| >= 1 && AllDigits(whole)
    ensures Parse([p, t] + SignText(negative) + whole + [point] + [s]) == Err(ParseFailure(2))
  {
    PointNumber(p, t, negative, whole, point, "", s);
    assert [p, t] + SignText(negative) + whole + [point] + "" + [s]
        == [p, t] + SignText(negative) + whole + [point] + [s];
  }

  /** A fraction starting with '-' is refused at index 2, whatever the sign and
      digits of the whole seconds, the radix point, the rest of the fraction and
      the case of the letters. */
  lemma ParseRejectsSignedFraction(p: char, t: char, negative: bool, whole: string, point: char,
                                   fraction: string, s: char)
    requires p in "Pp" && t in "Tt" && s in "Ss" && point in ".,"
    requires |whole| >= 1 && AllDigits(whole)
    requires |fraction| >= 1 && fraction[0] == '-'
    ensures Parse([p, t] + SignText(negative) + whole + [point] + fraction + [s])
            == Err(ParseFailure(2))
  {
    PointNumber(p, t, negative, whole, point, fraction, s);
  }

  /** A fraction of ten or more characters, whatever they are, is refused at
      index 2, whatever the sign and digits of the whole seconds, the radix point
      and the case of the letters. */
  lemma ParseRejectsLongFraction(p: char, t: char, negative: bool, whole: string, point: char,
                                 fraction: string, s: char)
    requires p in "Pp" && t in "Tt" && s in "Ss" && point in ".,"
    requires |whole| >= 1 && AllDigits(whole) && |fraction| >= 10
    ensures Parse([p, t] + SignText(negative) + whole + [point] + fraction + [s])
            == Err(ParseFailure(2))
  {
    PointNumber(p, t, negative, whole, point, fraction, s);
  }

  /** A text whose number is optionally negated digits, a radix point and a
      fraction reads the whole seconds with `parseLong` and passes the fraction,
      commas replaced, to the fraction check. */
  lemma PointNumber(p: char, t: char, negative: bool, whole: string, point: char,
                    fraction: string, s: char)
    requires p in "Pp" && t in "Tt" && s in "Ss" && point in ".,"
    requires |whole| >= 1 && AllDigits(whole)
    ensures Parse([p, t] + SignText(negative) + whole + [point] + fraction + [s])
            == match ParseLong(SignText(negative) + whole)
               case None => Err(ParseFailure(2))
               case Some(secs) => ParseFraction(negative, secs, ReplaceCommas(fraction))
  {
    var body := SignText(negative) + whole + [point] + fraction;
    assert [p, t] + SignText(negative) + whole + [point] + fraction + [s] == [p, t] + body + [s];
    PointBody(negative, whole, point, fraction);
    ParseDelimiters(p, t, body, s);
    DecimalNumberSplit(negative, whole, ReplaceCommas(fraction));
  }

  /** Such a number is not "-0", and replacing its commas turns only the point
      and the fraction's commas into points. */
  lemma PointBody(negative: bool, whole: string, point: char, fraction: string)
    requires point in ".," && |whole| >= 1 && AllDigits(whole)
    ensures var body := SignText(negative) + whole + [point] + fraction;
            body != "-0" && |body| >= 1
            && ReplaceCommas(body) == SignText(negative) + whole + "." + ReplaceCommas(fraction)
  {
    var body := SignText(negative) + whole + [point] + fraction;
    if !negative { assert body[0] == whole[0]; } else { assert |body| >= 3; }
    DigitsUnsigned(whole);
    assert ',' !in SignText(negative) + whole;
    ReplaceCommasAtPoint(SignText(negative) + whole, point, fraction);
  }

  /** Replacing the commas of a comma-free prefix, a radix point and a fraction
      leaves the prefix and writes the point as '.'. */
  lemma ReplaceCommasAtPoint(prefix: string, point: char, fraction: string)
    requires ',' !in prefix && point in ".,"
    ensures ReplaceCommas(prefix + [point] + fraction) == prefix + "." + ReplaceCommas(fraction)
  {
    var body := prefix + [point] + fraction;
    var r := ReplaceCommas(body);
    var e := prefix + "." + ReplaceCommas(fraction);
    forall i | 0 <= i < |r|
      ensures r[i] == e[i]
    {
      if i < |prefix| {
        assert body[i] == prefix[i];
      } else if i > |prefix| {
        assert body[i] == fraction[i - |prefix| - 1];
      }
    }
  }

  //----------------------------------------------------------------------
  // The documented grammar

  /** `parse` as its documentation describes it: on top of what the code
      checks, no '+' anywhere, and a '-' only when the value is below zero. */
  function ParseStrict(text: string): (r: Result<Duration>)
    ensures r.Ok? ==> Valid(r.value) && Parse(text) == r
    ensures r.Ok? ==> '+' !in text && ('-' in text ==> IsNegative(r.value))
    ensures Parse(text).Err? ==> r == Parse(text)
  {
    match Parse(text)
    case Err(e) => Err(e)
    case Ok(d) =>
      if '+' in text || ('-' in text && !IsNegative(d)) then Err(ParseFailure(2)) else Ok(d)
  }

  /** As written, `parse` lets a '+' through, in front of the number (with
      `Long.parseLong` from Java 7 on) and in front of the fraction, and a '-'
      in front of a zero value spelt other than "0"; the documented reading
      refuses all three. */
  lemma ParseAcceptsUndocumented()
    ensures Parse("PT+1S") == Ok(Duration(1, 0)) && ParseStrict("PT+1S").Err?
    ensures Parse("PT-00S") == Ok(ZERO) && ParseStrict("PT-00S").Err?
    ensures Parse("PT1.+5S") == Ok(Duration(1, 50_000_000)) && ParseStrict("PT1.+5S").Err?
  {
    ParsePlusWhole();
    ParseNegativeZeros();
    ParsePlusFraction();
  }

  lemma ParsePlusWhole()
    ensures Parse("PT+1S") == Ok(Duration(1, 0))
  {
    assert "PT+1S" == ['P', 'T'] + "+1" + ['S'];
    ParseDelimiters('P', 'T', "+1", 'S');
    NoCommas("+1");
    assert ParseLong("+1") == Some(1) by {
      assert "+1"[1..] == "1";
    }
  }

  lemma ParseNegativeZeros()
    ensures Parse("PT-00S") == Ok(ZERO)
  {
    assert "PT-00S" == ['P', 'T'] + "-00" + ['S'];
    ParseDelimiters('P', 'T', "-00", 'S');
    NoCommas("-00");
    assert ParseLong("-00") == Some(0) by {
      assert "-00"[1..] == "00";
      assert DigitsValue("00") == 0 by {
        assert "00"[..1] == "0";
      }
    }
  }

  lemma ParsePlusFraction()
    ensures Parse("PT1.+5S") == Ok(Duration(1, 50_000_000))
  {
    assert "PT1.+5S" == ['P', 'T'] + "1.+5" + ['S'];
    ParseDelimiters('P', 'T', "1.+5", 'S');
    NoCommas("1.+5");
    PlusFractionNumber();
  }

  lemma PlusFractionNumber()
    ensures ParseNumber("1.+5") == Ok(Duration(1, 50_000_000))
  {
    assert IndexOf("1.+5", '.') == 1;
    assert "1.+5"[..1] == "1" && "1.+5"[2..] == "+5";
    assert ParseLong("1") == Some(1);
    PlusFive();
    assert FractionScale(2) == 10_000_000;
  }

  lemma PlusFive()
    ensures ParseInt("+5") == Some(5)
  {
    assert "+5"[1..] == "5";
  }

  /** A text of the documented form carries a '-' exactly when it is negative,
      and never a '+'. */
  lemma DecimalSigns(p: char, t: char, negative: bool, whole: string, point: char,
                     fraction: string, s: char)
    requires p in "Pp" && t in "Tt" && s in "Ss" && point in ".,"
    requires AllDigits(whole) && AllDigits(fraction)
    ensures var text := [p, t] + SignText(negative) + whole + [point] + fraction + [s];
            '+' !in text && ('-' in text <==> negative)
  {
    DigitsUnsigned(whole);
    DigitsUnsigned(fraction);
  }

  /** Every text of the documented form with a fraction is read as the number it
      spells, except a '-' in front of a zero value, which is refused. */
  lemma ParseStrictDecimal(p: char, t: char, negative: bool, whole: string, point: char,
                           fraction: string, s: char)
    requires p in "Pp" && t in "Tt" && s in "Ss" && point in ".,"
    requires |whole| >= 1 && AllDigits(whole)
    requires 1 <= |fraction| <= 9 && AllDigits(fraction)
    ensures var n := DecimalNanos(negative, whole, fraction);
            ParseStrict([p, t] + SignText(negative) + whole + [point] + fraction + [s])
            == if negative && n == 0 then Err(ParseFailure(2)) else AsParseResult(Normalized(n))
  {
    ParseDecimal(p, t, negative, whole, point, fraction, s);
    DecimalSigns(p, t, negative, whole, point, fraction, s);
  }

  /** Every text of the documented form without a fraction is read as its whole
      seconds, except a '-' in front of a zero value, which is refused. */
  lemma ParseStrictInteger(p: char, t: char, negative: bool, whole: string, s: char)
    requires p in "Pp" && t in "Tt" && s in "Ss"
    requires |whole| >= 1 && AllDigits(whole)
    ensures var n := DecimalNanos(negative, whole, "");
            ParseStrict([p, t] + SignText(negative) + whole + [s])
            == if negative && n == 0 then Err(ParseFailure(if whole == "0" then 0 else 2))
               else AsParseResult(Normalized(n))
  {
    var text := [p, t] + SignText(negative) + whole + [s];
    if negative && whole == "0" {
      ParseDelimiters(p, t, "-0", s);
      assert text == [p, t] + "-0" + [s];
    } else {
      ParseInteger(p, t, negative, whole, s);
      IntegerSigns(p, t, negative, whole, s);
      var n := DecimalNanos(negative, whole, "");
      assert n < 0 <==> negative && n != 0;
    }
  }

  lemma IntegerSigns(p: char, t: char, negative: bool, whole: string, s: char)
    requires p in "Pp" && t in "Tt" && s in "Ss" && AllDigits(whole)
    ensures var text := [p, t] + SignText(negative) + whole + [s];
            '+' !in text && ('-' in text <==> negative)
  {
    DigitsUnsigned(whole);
  }

  /** The canonical text carries a '-' exactly when the duration is negative,
      and never a '+'. */
  lemma FormatSigns(d: Duration)
    requires Valid(d)
    ensures '+' !in Format(d) && ('-' in Format(d) <==> ToNanos(d) < 0)
  {
    var total := ToNanos(d);
    var whole := NatToString(Abs(total) / NANOS_PER_SECOND);
    FormatParts(d);
    DigitsUnsigned(whole);
    FractionSigns(Abs(total) % NANOS_PER_SECOND);
  }

  lemma FractionSigns(fraction: nat)
    requires fraction < NANOS_PER_SECOND
    ensures '+' !in FractionText(fraction) && '-' !in FractionText(fraction)
  {
    if fraction != 0 {
      DigitsUnsigned(StripTrailingZeros(PadDigits(fraction, 9)));
    }
  }

  /** The canonical text is of the documented form, so the stricter reading
      also gets every duration back. */
  lemma ParseStrictFormat(d: Duration)
    requires Valid(d)
    ensures ParseStrict(Format(d)) == Ok(d)
  {
    ParseFormat(d);
    FormatSigns(d);
  }
}
