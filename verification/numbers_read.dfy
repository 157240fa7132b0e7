/** Exactly the texts that are read as floats, and which number each of them is. */
module NumbersRead {
  import opened Text
  import opened Wrappers
  import opened Numbers

  // ---- How numbers are written --------------------------------------------------------

  /** A number in its parts: `whole`, `point` and `fraction`, then an exponent behind `mark`. */
  datatype Spelling = Spelling(sign: string, whole: string, point: string, fraction: string,
                               mark: string, expSign: string, exponent: string)

  predicate IsOptional(digits: string) {
    digits == "" || IsSpelled(digits)
  }

  predicate IsMantissa(p: Spelling) {
    && (p.point == "." || (p.point == "" && p.fraction == ""))
    && IsOptional(p.whole) && IsOptional(p.fraction) && (p.whole != "" || p.fraction != "")
  }

  predicate IsExponent(p: Spelling) {
    if p.mark == "" then p.expSign == "" && p.exponent == ""
    else (p.mark == "e" || p.mark == "E") && IsSign(p.expSign) && IsSpelled(p.exponent)
  }

  predicate IsSpelling(p: Spelling) {
    IsSign(p.sign) && IsMantissa(p) && IsExponent(p)
  }

  function MantissaText(p: Spelling): string {
    p.whole + (p.point + p.fraction)
  }

  function ExponentText(p: Spelling): string {
    p.mark + (p.expSign + p.exponent)
  }

  function UnsignedText(p: Spelling): string {
    MantissaText(p) + ExponentText(p)
  }

  function TextOf(p: Spelling): string {
    p.sign + UnsignedText(p)
  }

  /** The digits without point as one number, the decimals moved by the exponent. */
  function Meant(p: Spelling): Decimal {
    Decimal(Signed(ParseNat(OnlyDigits(p.whole) + OnlyDigits(p.fraction)), p.sign == "-"),
            |OnlyDigits(p.fraction)| - Signed(ParseNat(OnlyDigits(p.exponent)), p.expSign == "-"))
  }

  ghost predicate Spells(s: string, d: Decimal) {
    exists p :: IsSpelling(p) && TextOf(p) == s && Normal(Meant(p)) == d
  }

  /** The letters of `word`, in either case. */
  predicate SameLetters(s: string, word: string) {
    |s| == |word| && forall i :: 0 <= i < |s| ==> s[i] == word[i] || s[i] as int + 32 == word[i] as int
  }

  predicate IsSpecialName(s: string) {
    SameLetters(s, "inf") || SameLetters(s, "infinity") || SameLetters(s, "nan")
  }

  ghost predicate SpellsNonFinite(s: string) {
    exists sign, name :: IsSign(sign) && IsSpecialName(name) && s == sign + name
  }

  // ---- Parts of a text ------------------------------------------------------------------

  predicate HasNoMark(s: string) {
    forall i :: 0 <= i < |s| ==> s[i] != 'e' && s[i] != 'E'
  }

  predicate StartsWithSign(s: string) {
    s != "" && (s[0] == '-' || s[0] == '+')
  }

  predicate IsCutMantissa(p: Spelling) {
    && (p.point == "." || (p.point == "" && p.fraction == ""))
    && '.' !in p.whole && HasNoMark(MantissaText(p))
  }

  predicate IsCutExponent(p: Spelling) {
    if p.mark == "" then p.expSign == "" && p.exponent == ""
    else (p.mark == "e" || p.mark == "E") && IsSign(p.expSign) && (p.expSign == "" ==> !StartsWithSign(p.exponent))
  }

  /** The parts of any text, whether it is a number or not. */
  predicate IsCut(p: Spelling) {
    && IsSign(p.sign) && (p.sign == "" ==> !StartsWithSign(UnsignedText(p)))
    && IsCutMantissa(p) && IsCutExponent(p)
  }

  lemma SpelledChars(s: string)
    requires IsOptional(s)
    ensures forall i :: 0 <= i < |s| ==> IsDigit(s[i]) || s[i] == '_'
    ensures s != "" ==> IsDigit(s[0]) && IsDigit(s[|s| - 1])
  {
    if s != "" {
      assert !IsBetweenDigits(s, 0) && !IsBetweenDigits(s, |s| - 1);
    }
  }

  lemma MantissaStart(p: Spelling)
    requires IsMantissa(p)
    ensures var m := MantissaText(p); m != "" && (IsDigit(m[0]) || m[0] == '.')
    ensures var m := MantissaText(p); IsDigit(m[|m| - 1]) || m[|m| - 1] == '.'
    ensures HasNoMark(MantissaText(p)) && '.' !in p.whole
  {
    hide IsSpelled;
    SpelledChars(p.whole);
    SpelledChars(p.fraction);
  }

  lemma SpellingIsCut(p: Spelling)
    requires IsSpelling(p)
    ensures IsCut(p)
  {
    hide IsSpelled;
    MantissaStart(p);
    SpelledChars(p.exponent);
  }

  // ---- Reading the parts ------------------------------------------------------------------

  lemma OptionalExactly(s: string)
    ensures ParseOptionalDigits(s) == if IsOptional(s) then Some(ParseNat(OnlyDigits(s))) else None
  {
    DigitsExactly(s);
  }

  lemma {:induction false} JoinedDigits(a: string, b: string)
    requires AllDigits(a) && AllDigits(b)
    ensures ParseNat(a + b) == Shift(ParseNat(a), |b|) + ParseNat(b)
  {
    if b == "" {
      assert a + b == a;
    } else {
      var high, last := b[..|b| - 1], b[|b| - 1];
      JoinedDigits(a, high);
      assert a + b == (a + high) + [last] && b == high + [last];
      ParseNatStep(a + high, last);
      ParseNatStep(high, last);
    }
  }

  function UnsignedMantissa(p: Spelling): Decimal {
    Decimal(ParseNat(OnlyDigits(p.whole) + OnlyDigits(p.fraction)), |OnlyDigits(p.fraction)|)
  }

  lemma MantissaParts(p: Spelling)
    requires IsCutMantissa(p)
    ensures Head(MantissaText(p), '.') == p.whole && Tail(MantissaText(p), '.') == p.fraction
  {
    if p.point == "" {
      assert MantissaText(p) == p.whole;
      HeadOfAll(p.whole, '.');
    } else {
      assert MantissaText(p) == p.whole + ['.'] + p.fraction;
      HeadTail(p.whole, '.', p.fraction);
    }
  }

  lemma MantissaExactly(p: Spelling)
    requires IsCutMantissa(p)
    ensures ParseMantissa(MantissaText(p)) == if IsMantissa(p) then Some(UnsignedMantissa(p)) else None
  {
    hide ParseOptionalDigits, IsOptional, OnlyDigits, ParseNat, Shift, Head, Tail, MantissaText;
    MantissaParts(p);
    OptionalExactly(p.whole);
    OptionalExactly(p.fraction);
    JoinedDigits(OnlyDigits(p.whole), OnlyDigits(p.fraction));
  }

  function ExponentValue(p: Spelling): int {
    Signed(ParseNat(OnlyDigits(p.exponent)), p.expSign == "-")
  }

  lemma ExponentExactly(p: Spelling)
    requires IsCutExponent(p) && p.mark != ""
    ensures ParseExponent(p.expSign + p.exponent) == if IsExponent(p) then Some(ExponentValue(p)) else None
  {
    hide ParseDigits, IsSpelled, OnlyDigits, ParseNat;
    var s := p.expSign + p.exponent;
    DigitsExactly(p.exponent);
    if p.expSign == "" {
      assert s == p.exponent;
    } else {
      assert s[1..] == p.exponent && s[0] == p.expSign[0];
    }
  }

  lemma {:induction false} BeforeExponentOf(m: string, rest: string)
    requires HasNoMark(m) && (rest == "" || rest[0] == 'e' || rest[0] == 'E')
    ensures BeforeExponent(m + rest) == m
  {
    if m == "" {
      assert m + rest == rest;
    } else {
      assert (m + rest)[1..] == m[1..] + rest;
      BeforeExponentOf(m[1..], rest);
      assert m == [m[0]] + m[1..];
    }
  }

  lemma DecimalParts(p: Spelling)
    requires IsCutMantissa(p) && IsCutExponent(p)
    ensures var u, m := UnsignedText(p), MantissaText(p);
            && BeforeExponent(u) == m && (|m| == |u| <==> p.mark == "")
            && (p.mark != "" ==> u[|m| + 1..] == p.expSign + p.exponent)
  {
    hide MantissaText;
    BeforeExponentOf(MantissaText(p), ExponentText(p));
  }

  lemma DecimalExactly(p: Spelling)
    requires IsCutMantissa(p) && IsCutExponent(p)
    ensures ParseDecimal(UnsignedText(p)) ==
            if IsMantissa(p) && IsExponent(p) then
              Some(Decimal(UnsignedMantissa(p).unscaled, UnsignedMantissa(p).scale - ExponentValue(p)))
            else None
  {
    hide ParseMantissa, ParseExponent, BeforeExponent, MantissaText, UnsignedText, IsMantissa, UnsignedMantissa,
      OnlyDigits, ParseNat, IsSpelled;
    DecimalParts(p);
    MantissaExactly(p);
    if p.mark != "" {
      ExponentExactly(p);
    } else {
      NoExponentValue(p);
    }
  }

  lemma NoExponentValue(p: Spelling)
    requires p.expSign == "" && p.exponent == ""
    ensures ExponentValue(p) == 0
  {
  }

  // ---- Infinity and not a number ------------------------------------------------------------

  lemma SameLettersExactly(s: string, word: string)
    requires forall i :: 0 <= i < |word| ==> 'a' <= word[i] <= 'z'
    ensures Lower(s) == word <==> SameLetters(s, word)
  {
    if SameLetters(s, word) {
      assert forall i :: 0 <= i < |s| ==> Lower(s)[i] == word[i];
    }
    if Lower(s) == word {
      assert |Lower(s)| == |s|;
      assert forall i :: 0 <= i < |s| ==> Lower(s)[i] == word[i];
    }
  }

  lemma SpecialNameExactly(s: string)
    ensures IsNonFinite(s) <==> IsSpecialName(s)
  {
    hide Lower, SameLetters;
    SameLettersExactly(s, "inf");
    SameLettersExactly(s, "infinity");
    SameLettersExactly(s, "nan");
  }

  lemma NumberIsNoName(p: Spelling)
    requires IsSpelling(p)
    ensures !IsSpecialName(UnsignedText(p))
  {
    hide IsMantissa, IsSpelled;
    MantissaStart(p);
    assert UnsignedText(p)[0] == MantissaText(p)[0];
  }

  // ---- Cutting a text -------------------------------------------------------------------------

  lemma {:induction false} BeforeExponentIs(s: string)
    ensures var m := BeforeExponent(s);
            HasNoMark(m) && |m| <= |s| && m == s[..|m|] && (|m| < |s| ==> s[|m|] == 'e' || s[|m|] == 'E')
  {
    if s != "" && s[0] != 'e' && s[0] != 'E' {
      BeforeExponentIs(s[1..]);
    }
  }

  lemma CutMantissa(m: string) returns (p: Spelling)
    requires HasNoMark(m)
    ensures IsCutMantissa(p) && MantissaText(p) == m && p.mark == "" && p.expSign == "" && p.exponent == ""
  {
    hide Head, Tail;
    HeadPart(m, '.');
    p := Spelling("", Head(m, '.'), if |Head(m, '.')| < |m| then "." else "", Tail(m, '.'), "", "", "");
  }

  lemma CutSign(s: string) returns (sign: string, rest: string)
    ensures IsSign(sign) && s == sign + rest && (sign == "" ==> !StartsWithSign(rest))
    ensures StartsWithSign(s) <==> sign != ""
  {
    if StartsWithSign(s) {
      sign, rest := s[..1], s[1..];
    } else {
      sign, rest := "", s;
    }
  }

  lemma SameMantissa(p: Spelling, q: Spelling)
    requires p.whole == q.whole && p.point == q.point && p.fraction == q.fraction
    ensures MantissaText(p) == MantissaText(q) && (IsCutMantissa(p) <==> IsCutMantissa(q))
  {
  }

  lemma CutUnsigned(sign: string, u: string) returns (p: Spelling)
    ensures IsCutMantissa(p) && IsCutExponent(p) && UnsignedText(p) == u && p.sign == sign
  {
    hide BeforeExponent, MantissaText, IsCutMantissa;
    var m := BeforeExponent(u);
    BeforeExponentIs(u);
    var q := CutMantissa(m);
    p := q.(sign := sign);
    if |m| < |u| {
      var expSign, exponent := CutSign(u[|m| + 1..]);
      p := p.(mark := u[|m|..|m| + 1], expSign := expSign, exponent := exponent);
      assert u == m + (p.mark + (expSign + exponent));
    }
    SameMantissa(p, q);
  }

  /** Every text has parts. */
  lemma CutText(s: string) returns (p: Spelling)
    ensures IsCut(p) && TextOf(p) == s
  {
    hide UnsignedText, IsCutMantissa, IsCutExponent;
    var sign, rest := CutSign(s);
    p := CutUnsigned(sign, rest);
  }

  // ---- Main result --------------------------------------------------------------------------------

  lemma SignIsRead(s: string, p: Spelling)
    requires IsCut(p) && TextOf(p) == Strip(s)
    ensures ParseFloat(s) == ParseSigned(UnsignedText(p), p.sign == "-")
  {
    hide ParseSigned, UnsignedText, IsCutMantissa, IsCutExponent, Strip;
    var t := Strip(s);
    if p.sign == "" {
      assert t == UnsignedText(p);
    } else {
      assert t[1..] == UnsignedText(p) && t[0] == p.sign[0];
    }
  }

  lemma MeantParts(p: Spelling)
    ensures Meant(p) == Negate(Decimal(UnsignedMantissa(p).unscaled, UnsignedMantissa(p).scale - ExponentValue(p)),
                               p.sign == "-")
  {
    hide OnlyDigits, ParseNat;
  }

  /** How a text is read is decided by its parts. */
  lemma CutIsRead(s: string, p: Spelling)
    requires IsCut(p) && TextOf(p) == Strip(s)
    ensures ParseFloat(s) ==
            if IsSpecialName(UnsignedText(p)) then Some(NonFinite)
            else if IsSpelling(p) then Some(Finite(Normal(Meant(p)))) else None
  {
    hide ParseFloat, Strip, UnsignedText, TextOf, Meant, Normal, ParseDecimal, IsNonFinite, IsSpecialName, IsMantissa,
      IsExponent, IsCutMantissa, IsCutExponent, UnsignedMantissa, ExponentValue, Negate;
    SignIsRead(s, p);
    SpecialNameExactly(UnsignedText(p));
    DecimalExactly(p);
    MeantParts(p);
  }

  lemma SpellingIsRead(s: string, p: Spelling)
    requires IsSpelling(p) && TextOf(p) == Strip(s)
    ensures ParseFloat(s) == Some(Finite(Normal(Meant(p))))
  {
    hide *;
    SpellingIsCut(p);
    NumberIsNoName(p);
    CutIsRead(s, p);
  }

  /** A text is read as the number `d` exactly if it is a spelling of `d`, with whitespace around it. */
  lemma FloatExactly(s: string, d: Decimal)
    ensures ParseFloat(s) == Some(Finite(d)) <==> Spells(Strip(s), d)
  {
    hide ParseFloat, Strip, IsCut, IsSpelling, TextOf, Meant, Normal, UnsignedText, IsSpecialName;
    if ParseFloat(s) == Some(Finite(d)) {
      var p := CutText(Strip(s));
      CutIsRead(s, p);
    }
    if Spells(Strip(s), d) {
      var p :| IsSpelling(p) && TextOf(p) == Strip(s) && Normal(Meant(p)) == d;
      SpellingIsRead(s, p);
    }
  }

  lemma SameSign(p: Spelling, sign: string, name: string)
    requires IsCut(p) && IsSign(sign) && IsSpecialName(name) && TextOf(p) == sign + name
    ensures p.sign == sign && UnsignedText(p) == name
  {
    hide UnsignedText, IsCutMantissa, IsCutExponent;
    assert name != "" && !StartsWithSign(name);
    if sign == "" {
      assert TextOf(p)[0] == name[0];
    } else {
      assert TextOf(p)[0] == sign[0];
    }
    assert TextOf(p)[|p.sign|..] == UnsignedText(p) && (sign + name)[|sign|..] == name;
  }

  /** Infinity and not-a-number are read from their names, in either case and with a sign. */
  lemma NonFiniteExactly(s: string)
    ensures ParseFloat(s) == Some(NonFinite) <==> SpellsNonFinite(Strip(s))
  {
    hide ParseFloat, Strip, IsCut, IsSpelling, Meant, Normal, UnsignedText, IsSpecialName;
    var p := CutText(Strip(s));
    CutIsRead(s, p);
    if SpellsNonFinite(Strip(s)) {
      var sign, name :| IsSign(sign) && IsSpecialName(name) && Strip(s) == sign + name;
      SameSign(p, sign, name);
    }
    if IsSpecialName(UnsignedText(p)) {
      CutHasSign(p);
    }
  }

  lemma CutHasSign(p: Spelling)
    requires IsCut(p)
    ensures IsSign(p.sign) && TextOf(p) == p.sign + UnsignedText(p)
  {
  }

  // ---- Typed and printed numbers --------------------------------------------------------------

  /** Digits, with or without a point. */
  predicate IsTyped(whole: string, point: string, fraction: string) {
    && AllDigits(whole) && AllDigits(fraction) && whole != ""
    && (point == "." || (point == "" && fraction == ""))
  }

  function Typed(whole: string, point: string, fraction: string): string {
    whole + (point + fraction)
  }

  /** The digits as one number, with as many decimals as there are digits behind the point. */
  function TypedValue(whole: string, fraction: string): Decimal
    requires AllDigits(whole) && AllDigits(fraction)
  {
    Normal(Decimal(ParseNat(whole + fraction), |fraction|))
  }

  lemma DigitsAreSpelled(s: string)
    requires AllDigits(s) && s != ""
    ensures IsSpelled(s)
  {
  }

  lemma TypedEnds(sign: string, whole: string, point: string, fraction: string)
    requires IsSign(sign) && IsTyped(whole, point, fraction)
    ensures NoOuterSpace(sign + Typed(whole, point, fraction))
  {
    var s := sign + Typed(whole, point, fraction);
    var last := s[|s| - 1];
    assert IsDigit(last) || last == '.';
    assert IsDigit(s[0]) || s[0] == '+' || s[0] == '-';
  }

  lemma TypedSpelling(p: Spelling)
    requires IsSign(p.sign) && IsTyped(p.whole, p.point, p.fraction) && ExponentText(p) == ""
    ensures IsSpelling(p) && TextOf(p) == p.sign + Typed(p.whole, p.point, p.fraction)
    ensures Meant(p) == Decimal(Signed(ParseNat(p.whole + p.fraction), p.sign == "-"), |p.fraction|)
  {
    hide IsSpelled, ParseNat, OnlyDigits, AllDigits;
    DigitsAreSpelled(p.whole);
    OnlyDigitsOf(p.whole);
    OnlyDigitsOf(p.fraction);
    if p.fraction != "" {
      DigitsAreSpelled(p.fraction);
    }
    NothingTyped();
  }

  lemma NothingTyped()
    ensures AllDigits("") && ParseNat("") == 0 && OnlyDigits("") == ""
  {
  }

  /** A typed number is read as the number it writes. */
  lemma TypedIsRead(sign: string, whole: string, point: string, fraction: string)
    requires IsSign(sign) && IsTyped(whole, point, fraction)
    ensures ParseFloat(sign + Typed(whole, point, fraction)) ==
            Some(Finite(Normal(Decimal(Signed(ParseNat(whole + fraction), sign == "-"), |fraction|))))
  {
    hide ParseFloat, Strip, Typed, Normal, ParseNat, IsTyped, IsSpelling, TextOf, Meant, NoOuterSpace;
    var p := Spelling(sign, whole, point, fraction, "", "", "");
    TypedSpelling(p);
    TypedEnds(sign, whole, point, fraction);
    StripNothing(sign + Typed(whole, point, fraction));
    SpellingIsRead(sign + Typed(whole, point, fraction), p);
  }

  lemma FractionDigits(f: nat)
    requires f < 100
    ensures var s := PrintFraction(f);
            ParseNat(s) == if |s| == 1 then f / 10 else f
    ensures |PrintFraction(f)| == 1 ==> f == 10 * (f / 10)
  {
    var s := PrintFraction(f);
    assert s[..|s| - 1] == if f % 10 == 0 then "" else [Digit(f / 10)];
    if f % 10 != 0 {
      assert [Digit(f / 10)][..0] == "";
      assert ParseNat([Digit(f / 10)]) == f / 10;
    }
  }

  lemma TrailingZero(u: int, scale: int)
    ensures Normal(Decimal(10 * u, scale + 1)) == Normal(Decimal(u, scale))
  {
  }

  lemma CombinedDigits(n: nat)
    ensures var f := PrintFraction(n % 100);
            var d := Combined(n / 100, ParseNat(f), |f|);
            if |f| == 1 then d.scale == 1 && 10 * d.unscaled == n else d == Decimal(n, 2)
  {
    FractionDigits(n % 100);
    assert Shift(n / 100, 1) == 10 * Shift(n / 100, 0);
    assert Shift(n / 100, 2) == 10 * Shift(n / 100, 1);
  }

  lemma CombinedHundredths(n: nat, negative: bool)
    ensures var d := Combined(n / 100, ParseNat(PrintFraction(n % 100)), |PrintFraction(n % 100)|);
            Normal(Negate(d, negative)) == Hundredths(Signed(n, negative))
  {
    hide Combined, PrintFraction, ParseNat, Normal;
    CombinedDigits(n);
    NormalHundredths(Combined(n / 100, ParseNat(PrintFraction(n % 100)), |PrintFraction(n % 100)|), n, negative);
  }

  lemma NormalHundredths(d: Decimal, n: nat, negative: bool)
    requires if d.scale == 1 then 10 * d.unscaled == n else d == Decimal(n, 2)
    ensures Normal(Negate(d, negative)) == Hundredths(Signed(n, negative))
  {
    hide Normal;
    if d.scale == 1 {
      TrailingZero(Negate(d, negative).unscaled, 1);
    }
  }

  lemma PrintedIsTyped(n: nat)
    ensures IsTyped(PrintNat(n / 100), ".", PrintFraction(n % 100))
    ensures PrintUnsigned(n) == Typed(PrintNat(n / 100), ".", PrintFraction(n % 100))
  {
    PrintNatDigits(n / 100);
  }

  lemma PrintedValue(n: nat, negative: bool)
    ensures AllDigits(PrintNat(n / 100) + PrintFraction(n % 100))
    ensures Normal(Decimal(Signed(ParseNat(PrintNat(n / 100) + PrintFraction(n % 100)), negative),
                           |PrintFraction(n % 100)|)) == Hundredths(Signed(n, negative))
  {
    hide ParseNat, PrintNat, PrintFraction, Normal, Hundredths, Shift, AllDigits;
    var whole, fraction := PrintNat(n / 100), PrintFraction(n % 100);
    ParsePrintNat(n / 100);
    JoinedAreDigits(whole, fraction);
    JoinedDigits(whole, fraction);
    CombinedHundredths(n, negative);
  }

  lemma JoinedAreDigits(a: string, b: string)
    requires AllDigits(a) && AllDigits(b)
    ensures AllDigits(a + b)
  {
  }

  lemma SignedRoundTrip(n: nat, negative: bool)
    ensures ParseFloat(PrintSigned(n, negative)) == Some(Finite(Hundredths(Signed(n, negative))))
  {
    hide ParseFloat, PrintUnsigned, PrintNat, PrintFraction, ParseNat, Normal, Hundredths, Typed, IsTyped, AllDigits;
    var sign := if negative then "-" else "";
    PrintedIsTyped(n);
    TypedIsRead(sign, PrintNat(n / 100), ".", PrintFraction(n % 100));
    PrintedValue(n, negative);
    assert PrintSigned(n, negative) == sign + PrintUnsigned(n);
  }

  /** Printed hundredths are read back exactly. */
  lemma HundredthsRoundTrip(h: int)
    ensures ParseFloat(PrintHundredths(h)) == Some(Finite(Hundredths(h)))
  {
    hide ParseFloat, PrintSigned, Hundredths;
    SignedRoundTrip(Abs(h), h < 0);
  }
}
