/** Which argument values can be read back from their text. */
module SequenceValues {
  import opened Text
  import opened Wrappers
  import opened Numbers
  import opened NumbersRead
  import opened TimeUtils
  import opened Sequence

  // ---- Numbers, durations and temperatures ------------------------------------------

  predicate SafeChar(c: char) {
    IsDigit(c) || c == '.' || c == '-' || c == 'd' || c == 'h' || c == 'm' || c == 's' || c == 'C' || c == 'F'
  }

  predicate Safe(s: string) {
    forall i :: 0 <= i < |s| ==> SafeChar(s[i])
  }

  lemma SafeNat(n: nat)
    ensures Safe(PrintNat(n))
  {
    PrintNatDigits(n);
  }

  lemma SafeJoined(a: string, b: string)
    requires Safe(a) && Safe(b)
    ensures Safe(a + b)
  {
  }

  lemma {:induction false} SafeParts(seconds: nat, u: nat)
    requires u <= UNIT_COUNT
    ensures Safe(PrintParts(seconds, u))
    decreases UNIT_COUNT - u
  {
    if u < UNIT_COUNT {
      if seconds >= Period(u) {
        var value, rest := Whole(seconds, u), Remainder(seconds, u);
        SafeNat(value);
        SafeParts(rest, u + 1);
        SafeJoined(PrintNat(value), [Unit(u)]);
        SafeJoined(PrintNat(value) + [Unit(u)], PrintParts(rest, u + 1));
      } else {
        SafeParts(seconds, u + 1);
      }
    }
  }

  lemma SafeDuration(seconds: nat)
    ensures Safe(PrintDuration(seconds))
  {
    SafeParts(seconds, 0);
  }

  lemma SafeHundredths(h: int)
    ensures Safe(PrintHundredths(h))
  {
    PrintedIsTyped(Abs(h));
    SafeJoined("-", PrintUnsigned(Abs(h)));
  }

  lemma SafeTemperature(h: int, unit: TempUnit)
    ensures Safe(PrintHundredths(h) + UnitText(unit))
  {
    SafeHundredths(h);
    SafeJoined(PrintHundredths(h), UnitText(unit));
  }

  /** The separators, quotes and marks of the line format do not occur in `s`. */
  lemma SafeStrip(s: string)
    requires Safe(s)
    ensures Strip(s) == s && StripChar(s, '\'') == s
    ensures ',' !in s && '=' !in s && !("$" <= s)
  {
    StripNothing(s);
    StripCharNothing(s, '\'');
  }

  // ---- Temperatures -----------------------------------------------------------------

  /** How a temperature is typed: a number, whitespace and a unit. */
  datatype Typing = Typing(whole: string, point: string, fraction: string, spaces: string)

  predicate IsTyping(p: Typing, s: string, v: Value) {
    && IsTyped(p.whole, p.point, p.fraction) && AllSpaces(p.spaces)
    && v.Temperature? && v.amount == TypedValue(p.whole, p.fraction)
    && s == Typed(p.whole, p.point, p.fraction) + (p.spaces + UnitText(v.unit))
  }

  ghost predicate IsTypedTemperature(s: string, v: Value) {
    exists p :: IsTyping(p, s, v)
  }

  lemma LeadingNumberOf(whole: string, point: string, fraction: string, rest: string)
    requires IsTyped(whole, point, fraction) && (rest == "" || (!IsDigit(rest[0]) && rest[0] != '.'))
    ensures LeadingNumber(Typed(whole, point, fraction) + rest) == Typed(whole, point, fraction)
  {
    hide LeadingDigits;
    var s := Typed(whole, point, fraction) + rest;
    if point == "" {
      assert s == whole + rest;
      LeadingDigitsOf(whole, rest);
    } else {
      assert s == whole + ("." + (fraction + rest));
      LeadingDigitsOf(whole, "." + (fraction + rest));
      assert s[|whole| + 1..] == fraction + rest;
      LeadingDigitsOf(fraction, rest);
    }
  }

  lemma PointIsPrefix(s: string, whole: string, fraction: string)
    requires |whole| < |s| && whole == s[..|whole|] && s[|whole|] == '.'
    requires |fraction| <= |s| - |whole| - 1 && fraction == s[|whole| + 1..][..|fraction|]
    ensures whole + ("." + fraction) <= s
  {
    var rest := s[|whole| + 1..];
    assert s == whole + ("." + rest);
    assert rest == fraction + rest[|fraction|..];
  }

  lemma LeadingNumberParts(s: string) returns (whole: string, point: string, fraction: string)
    requires LeadingNumber(s) != ""
    ensures IsTyped(whole, point, fraction)
    ensures LeadingNumber(s) == Typed(whole, point, fraction) <= s
  {
    hide LeadingDigits, AllDigits;
    whole, point, fraction := LeadingDigits(s), "", "";
    LeadingDigitsEnd(s);
    if |whole| < |s| && s[|whole|] == '.' {
      point, fraction := ".", LeadingDigits(s[|whole| + 1..]);
      LeadingDigitsEnd(s[|whole| + 1..]);
      PointIsPrefix(s, whole, fraction);
      Assoc(whole, ".", fraction);
    } else {
      NothingTyped();
      assert whole + ("" + "") == whole;
    }
  }

  lemma UnitTextStart(unit: TempUnit)
    ensures var u := UnitText(unit); u != "" && !IsDigit(u[0]) && u[0] != '.' && !IsSpace(u[0])
  {
  }

  lemma UnitExactly(s: string, unit: TempUnit)
    ensures ParseUnit(s) == Some(unit) <==> s == UnitText(unit)
  {
    assert "C" != "F" && "dC" != "dF" by { assert "C"[0] != "F"[0] && "dC"[1] != "dF"[1]; }
    assert |"C"| == |"F"| == 1 && |"dC"| == |"dF"| == 2;
  }

  lemma BehindNumber(spaces: string, unit: TempUnit)
    requires AllSpaces(spaces)
    ensures var rest := spaces + UnitText(unit);
            rest != "" && !IsDigit(rest[0]) && rest[0] != '.' && LStrip(rest) == UnitText(unit)
  {
    UnitTextStart(unit);
    LStripSpaces(spaces, UnitText(unit));
  }

  lemma TypedIsParsed(p: Typing, s: string, v: Value)
    requires IsTyping(p, s, v)
    ensures ParseTemperature(s) == Some(v)
  {
    hide ParseFloat, LeadingNumber, ParseUnit, UnitText, LStrip, Typed, TypedValue, IsTyped, AllSpaces, ParseNat,
      Normal, AllDigits;
    var number, rest := Typed(p.whole, p.point, p.fraction), p.spaces + UnitText(v.unit);
    BehindNumber(p.spaces, v.unit);
    LeadingNumberOf(p.whole, p.point, p.fraction, rest);
    PlainNumber(p.whole, p.point, p.fraction);
    UnitExactly(UnitText(v.unit), v.unit);
    assert s[|number|..] == rest;
  }

  lemma PlainNumber(whole: string, point: string, fraction: string)
    requires IsTyped(whole, point, fraction)
    ensures ParseFloat(Typed(whole, point, fraction)) == Some(Finite(TypedValue(whole, fraction)))
    ensures Typed(whole, point, fraction) != ""
  {
    hide ParseFloat, Normal, ParseNat;
    TypedIsRead("", whole, point, fraction);
    assert "" + Typed(whole, point, fraction) == Typed(whole, point, fraction);
  }

  lemma ParsedIsTyped(s: string, v: Value)
    requires ParseTemperature(s) == Some(v)
    ensures IsTypedTemperature(s, v)
  {
    hide ParseFloat, LeadingNumber, ParseUnit, UnitText, LStrip, Typed, TypedValue, IsTyped, Normal, ParseNat,
      AllDigits;
    var whole, point, fraction := LeadingNumberParts(s);
    var rest := s[|LeadingNumber(s)|..];
    PlainNumber(whole, point, fraction);
    UnitExactly(LStrip(rest), v.unit);
    LStripRemovesSpaces(rest);
    var p := Typing(whole, point, fraction, rest[..|rest| - |LStrip(rest)|]);
    assert rest == p.spaces + UnitText(v.unit);
    assert IsTyping(p, s, v) by {
      TypedDigits(whole, point, fraction);
    }
  }

  lemma TypedDigits(whole: string, point: string, fraction: string)
    requires IsTyped(whole, point, fraction)
    ensures AllDigits(whole) && AllDigits(fraction)
  {
  }

  /** Exactly typed temperatures are read, with the number and the unit they name. */
  lemma TemperatureExactly(s: string, v: Value)
    ensures ParseTemperature(s) == Some(v) <==> IsTypedTemperature(s, v)
  {
    hide ParseTemperature, IsTyping;
    if IsTypedTemperature(s, v) {
      var p :| IsTyping(p, s, v);
      TypedIsParsed(p, s, v);
    }
    if ParseTemperature(s) == Some(v) {
      ParsedIsTyped(s, v);
    }
  }

  lemma PositiveTemperature(n: nat, unit: TempUnit)
    ensures ParseTemperature(PrintUnsigned(n) + UnitText(unit)) == Some(Temperature(Hundredths(n), unit))
  {
    hide ParseTemperature, Typed, UnitText, PrintUnsigned, PrintNat, PrintFraction, Hundredths, IsTyped, ParseNat,
      Normal, AllDigits;
    var whole, fraction := PrintNat(n / 100), PrintFraction(n % 100);
    PrintedIsTyped(n);
    TypedDigits(whole, ".", fraction);
    PrintedValue(n, false);
    assert "" + UnitText(unit) == UnitText(unit);
    var p := Typing(whole, ".", fraction, "");
    TypedIsParsed(p, PrintUnsigned(n) + UnitText(unit), Temperature(Hundredths(n), unit));
  }

  lemma NegativeTemperature(s: string)
    requires s != "" && s[0] == '-'
    ensures ParseTemperature(s) == None
  {
  }

  lemma ReadTemperature(h: int, unit: TempUnit)
    ensures ParseTemperature(PrintHundredths(h) + UnitText(unit)) ==
            if h < 0 then None else Some(Temperature(Hundredths(h), unit))
  {
    if h < 0 {
      NegativeTemperature(PrintHundredths(h) + UnitText(unit));
    } else {
      PositiveTemperature(h, unit);
    }
  }
}
