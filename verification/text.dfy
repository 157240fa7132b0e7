/** Text operations of the Python standard library that the service relies on. */
module Text {
  import opened Wrappers

  /** `str.isspace` for one character. */
  predicate IsSpace(c: char) {
    var n := c as int;
    || 9 <= n <= 13
    || 28 <= n <= 32
    || n == 0x85 || n == 0xa0 || n == 0x1680
    || 0x2000 <= n <= 0x200a
    || n == 0x2028 || n == 0x2029 || n == 0x202f || n == 0x205f || n == 0x3000
  }

  lemma IsSpaceExactly(c: char)
    ensures IsSpace(c) <==>
            c as int in {9, 10, 11, 12, 13, 28, 29, 30, 31, 32, 0x85, 0xa0, 0x1680, 0x2000, 0x2001, 0x2002, 0x2003,
                         0x2004, 0x2005, 0x2006, 0x2007, 0x2008, 0x2009, 0x200a, 0x2028, 0x2029, 0x202f, 0x205f,
                         0x3000}
  {
  }

  /** `str.rstrip()` */
  function RStrip(s: string): (r: string)
    ensures r <= s
  {
    if s == "" || !IsSpace(s[|s| - 1]) then s else RStrip(s[..|s| - 1])
  }

  /** `str.lstrip()` */
  function LStrip(s: string): (r: string)
    ensures |r| <= |s| && r == s[|s| - |r|..]
  {
    if s == "" || !IsSpace(s[0]) then s else LStrip(s[1..])
  }

  /** What is left does not end in whitespace, and only whitespace was taken. */
  lemma {:induction false} RStripRemovesSpaces(s: string)
    ensures RStrip(s) == "" || !IsSpace(RStrip(s)[|RStrip(s)| - 1])
    ensures forall i :: |RStrip(s)| <= i < |s| ==> IsSpace(s[i])
  {
    if s != "" && IsSpace(s[|s| - 1]) {
      RStripRemovesSpaces(s[..|s| - 1]);
    }
  }

  lemma {:induction false} LStripRemovesSpaces(s: string)
    ensures LStrip(s) == "" || !IsSpace(LStrip(s)[0])
    ensures forall i :: 0 <= i < |s| - |LStrip(s)| ==> IsSpace(s[i])
  {
    if s != "" && IsSpace(s[0]) {
      LStripRemovesSpaces(s[1..]);
      assert forall i :: 1 <= i < |s| ==> s[i] == s[1..][i - 1];
    }
  }

  /** `''.join(parts)` */
  function Concat(parts: seq<string>): string {
    if parts == [] then "" else parts[0] + Concat(parts[1..])
  }

  lemma Assoc<T>(a: seq<T>, b: seq<T>, c: seq<T>)
    ensures a + (b + c) == (a + b) + c
  {
  }

  /** `str.strip()` */
  function Strip(s: string): string {
    LStrip(RStrip(s))
  }

  /** `str.split(c)` */
  function Split(s: string, c: char): (parts: seq<string>)
    ensures |parts| > 0
  {
    if s == "" then [""]
    else
      var later := Split(s[1..], c);
      if s[0] == c then [""] + later else [[s[0]] + later[0]] + later[1..]
  }

  predicate IsDigit(c: char) {
    '0' <= c <= '9'
  }

  function DigitValue(c: char): (d: nat)
    requires IsDigit(c)
    ensures d < 10
  {
    c as int - '0' as int
  }

  /** Decimal digits, with single underscores between digits allowed. */
  function ParseDigits(s: string): Option<nat> {
    if s == "" || !IsDigit(s[|s| - 1]) then None
    else
      var d := DigitValue(s[|s| - 1]);
      var high := s[..|s| - 1];
      if high == "" then Some(d)
      else
        var parsed := ParseDigits(if high[|high| - 1] == '_' then high[..|high| - 1] else high);
        if parsed.None? then None else Some(10 * parsed.value + d)
  }

  /** `int(s)` for ASCII digits; `None` where it raises ValueError. */
  function ParseInt(s: string): Option<int> {
    var t := Strip(s);
    if t != "" && (t[0] == '-' || t[0] == '+') then
      var parsed := ParseDigits(t[1..]);
      if parsed.None? then None
      else
        var v: int := parsed.value;
        Some(if t[0] == '-' then -v else v)
    else
      ParseDigits(t)
  }

  // ---- Decimal numbers ------------------------------------------------------

  function Digit(d: nat): (c: char)
    requires d < 10
    ensures IsDigit(c) && DigitValue(c) == d
  {
    '0' + d as char
  }

  /** `str(n)` */
  function PrintNat(n: nat): (s: string)
    ensures |s| > 0
  {
    if n < 10 then [Digit(n)] else PrintNat(n / 10) + [Digit(n % 10)]
  }

  predicate AllDigits(s: string) {
    forall i :: 0 <= i < |s| ==> IsDigit(s[i])
  }

  function ParseNat(s: string): nat
    requires AllDigits(s)
  {
    if s == "" then 0 else 10 * ParseNat(s[..|s| - 1]) + DigitValue(s[|s| - 1])
  }

  lemma {:induction false} PrintNatDigits(n: nat)
    ensures AllDigits(PrintNat(n))
  {
    if n >= 10 {
      PrintNatDigits(n / 10);
    }
  }

  /** Printed numbers are read back. */
  lemma {:induction false} ParsePrintNat(n: nat)
    ensures AllDigits(PrintNat(n)) && ParseNat(PrintNat(n)) == n
  {
    PrintNatDigits(n);
    if n >= 10 {
      ParsePrintNat(n / 10);
      assert PrintNat(n)[..|PrintNat(n)| - 1] == PrintNat(n / 10);
    } else {
      assert PrintNat(n)[..0] == "";
    }
  }

  /** The digits in `s`. */
  function OnlyDigits(s: string): (r: string)
    ensures AllDigits(r)
  {
    if s == "" then ""
    else OnlyDigits(s[..|s| - 1]) + if IsDigit(s[|s| - 1]) then [s[|s| - 1]] else ""
  }

  predicate IsBetweenDigits(s: string, i: nat)
    requires i < |s|
  {
    0 < i && i + 1 < |s| && IsDigit(s[i - 1]) && IsDigit(s[i + 1])
  }

  /** Digits, with an underscore nowhere but between two digits. */
  predicate IsSpelled(s: string) {
    s != "" && forall i :: 0 <= i < |s| ==> IsDigit(s[i]) || (s[i] == '_' && IsBetweenDigits(s, i))
  }

  lemma SpelledStep(s: string, next: string)
    requires s != "" && IsDigit(s[|s| - 1])
    requires (next == s[..|s| - 1] && next != "" && next[|next| - 1] != '_') || s[..|s| - 1] == next + "_"
    ensures IsSpelled(s) <==> IsSpelled(next)
  {
    assert forall i :: 0 <= i < |next| ==> next[i] == s[i];
    if IsSpelled(next) {
      forall i | 0 <= i < |s| ensures IsDigit(s[i]) || (s[i] == '_' && IsBetweenDigits(s, i)) {
        if i < |next| {
          assert IsDigit(next[i]) || IsBetweenDigits(next, i);
        }
      }
    }
    if IsSpelled(s) {
      assert IsDigit(s[|s| - 2]) || IsBetweenDigits(s, |s| - 2);
      forall i | 0 <= i < |next| ensures IsDigit(next[i]) || (next[i] == '_' && IsBetweenDigits(next, i)) {
        assert IsDigit(s[i]) || IsBetweenDigits(s, i);
      }
    }
  }

  lemma OnlyDigitsStep(s: string, next: string)
    requires s != "" && IsDigit(s[|s| - 1])
    requires next == s[..|s| - 1] || s[..|s| - 1] == next + "_"
    ensures OnlyDigits(s) == OnlyDigits(next) + [s[|s| - 1]]
  {
    if next != s[..|s| - 1] {
      assert (next + "_")[..|next|] == next;
    }
  }

  lemma ParseNatStep(digits: string, last: char)
    requires AllDigits(digits) && IsDigit(last)
    ensures ParseNat(digits + [last]) == 10 * ParseNat(digits) + DigitValue(last)
  {
    assert (digits + [last])[..|digits|] == digits;
  }

  lemma ParseDigitsStep(s: string, next: string)
    requires |s| > 1 && IsDigit(s[|s| - 1])
    requires next == if s[|s| - 2] == '_' then s[..|s| - 2] else s[..|s| - 1]
    ensures var r := ParseDigits(next);
            ParseDigits(s) == if r.None? then None else Some(10 * r.value + DigitValue(s[|s| - 1]))
  {
    var high := s[..|s| - 1];
    assert next == if high[|high| - 1] == '_' then high[..|high| - 1] else high;
  }

  lemma NoDigitAtEnd(s: string)
    requires s == "" || !IsDigit(s[|s| - 1])
    ensures ParseDigits(s) == None && !IsSpelled(s)
  {
    assert s == "" || !IsBetweenDigits(s, |s| - 1);
  }

  lemma OneDigit(s: string)
    requires |s| == 1
    ensures ParseDigits(s) == if IsSpelled(s) then Some(ParseNat(OnlyDigits(s))) else None
  {
    if IsDigit(s[0]) {
      assert OnlyDigits(s) == [s[0]] && [s[0]][..0] == "";
    }
  }

  /** Exactly these texts are read, as the number that their digits write. */
  lemma {:induction false} DigitsExactly(s: string)
    ensures ParseDigits(s) == if IsSpelled(s) then Some(ParseNat(OnlyDigits(s))) else None
  {
    hide ParseDigits, ParseNat, OnlyDigits, IsSpelled, AllDigits;
    if s == "" || !IsDigit(s[|s| - 1]) {
      NoDigitAtEnd(s);
    } else if |s| == 1 {
      OneDigit(s);
    } else {
      var next := if s[|s| - 2] == '_' then s[..|s| - 2] else s[..|s| - 1];
      DigitsExactly(next);
      ParseDigitsStep(s, next);
      SpelledStep(s, next);
      OnlyDigitsStep(s, next);
      ParseNatStep(OnlyDigits(next), s[|s| - 1]);
    }
  }

  lemma {:induction false} OnlyDigitsOf(s: string)
    requires AllDigits(s)
    ensures OnlyDigits(s) == s
  {
    if s != "" {
      OnlyDigitsOf(s[..|s| - 1]);
      assert s == s[..|s| - 1] + [s[|s| - 1]];
    }
  }

  predicate IsSign(s: string) {
    s == "" || s == "+" || s == "-"
  }

  predicate IsInt(s: string, sign: string, digits: string, v: int) {
    && IsSign(sign) && IsSpelled(digits) && s == sign + digits
    && v == if sign == "-" then -(ParseNat(OnlyDigits(digits)) as int) else ParseNat(OnlyDigits(digits))
  }

  /** A signed number, written in digits. */
  ghost predicate IsIntText(s: string, v: int) {
    exists sign, digits :: IsInt(s, sign, digits, v)
  }

  lemma SpelledEnds(s: string)
    requires IsSpelled(s)
    ensures IsDigit(s[0]) && IsDigit(s[|s| - 1])
  {
    assert !IsBetweenDigits(s, 0) && !IsBetweenDigits(s, |s| - 1);
  }

  /** Exactly signed numbers are read, with whitespace around them. */
  lemma IntExactly(s: string, v: int)
    ensures ParseInt(s) == Some(v) <==> IsIntText(Strip(s), v)
  {
    hide Strip, ParseDigits, IsSpelled, ParseNat, OnlyDigits;
    var t := Strip(s);
    if ParseInt(s) == Some(v) {
      var sign, digits := if t != "" && (t[0] == '-' || t[0] == '+') then t[..1] else "",
        if t != "" && (t[0] == '-' || t[0] == '+') then t[1..] else t;
      DigitsExactly(digits);
      assert IsInt(t, sign, digits, v);
    }
    if sign, digits :| IsInt(t, sign, digits, v) {
      DigitsExactly(digits);
      SpelledEnds(digits);
      SpelledIsSomething();
      assert t[|sign|..] == digits;
      if sign == "" {
        assert t == digits;
      }
    }
  }

  lemma SpelledIsSomething()
    ensures !IsSpelled("")
  {
  }

  /** The longest prefix of digits. */
  function LeadingDigits(s: string): (r: string)
    ensures |r| <= |s| && AllDigits(r)
  {
    if s == "" || !IsDigit(s[0]) then "" else [s[0]] + LeadingDigits(s[1..])
  }

  lemma {:induction false} LeadingDigitsOf(digits: string, rest: string)
    requires AllDigits(digits) && (rest == "" || !IsDigit(rest[0]))
    ensures LeadingDigits(digits + rest) == digits
  {
    if digits == "" {
      assert digits + rest == rest;
    } else {
      assert (digits + rest)[1..] == digits[1..] + rest;
      LeadingDigitsOf(digits[1..], rest);
      assert digits == [digits[0]] + digits[1..];
    }
  }

  lemma {:induction false} LeadingDigitsEnd(s: string)
    ensures var r := LeadingDigits(s); r == s[..|r|] && (|r| < |s| ==> !IsDigit(s[|r|]))
  {
    if s != "" && IsDigit(s[0]) {
      LeadingDigitsEnd(s[1..]);
    }
  }

  // ---- Cutting at separators --------------------------------------------------

  /** The part of `s` before the first `c`. */
  function Head(s: string, c: char): (r: string)
    ensures |r| <= |s| && c !in r
  {
    if s == "" || s[0] == c then "" else [s[0]] + Head(s[1..], c)
  }

  /** The part of `s` behind the first `c`, if there is one. */
  function Tail(s: string, c: char): string {
    if |Head(s, c)| < |s| then s[|Head(s, c)| + 1..] else ""
  }

  lemma {:induction false} HeadTail(a: string, c: char, b: string)
    requires c !in a
    ensures Head(a + [c] + b, c) == a && Tail(a + [c] + b, c) == b
  {
    var s := a + [c] + b;
    if a != "" {
      assert s[1..] == a[1..] + [c] + b;
      HeadTail(a[1..], c, b);
      assert a == [a[0]] + a[1..];
    }
    assert s[|a| + 1..] == b;
  }

  lemma {:induction false} HeadOfAll(s: string, c: char)
    requires c !in s
    ensures Head(s, c) == s && Tail(s, c) == ""
  {
    if s != "" {
      HeadOfAll(s[1..], c);
      assert s == [s[0]] + s[1..];
    }
  }

  lemma {:induction false} HeadIsPrefix(s: string, c: char)
    ensures var h := Head(s, c); h == s[..|h|] && (|h| < |s| ==> s[|h|] == c)
  {
    if s != "" && s[0] != c {
      HeadIsPrefix(s[1..], c);
    }
  }

  /** A text is its head, the separator and its tail, or has no separator. */
  lemma HeadPart(s: string, c: char)
    ensures s == Head(s, c) + if |Head(s, c)| < |s| then [c] + Tail(s, c) else ""
    ensures |Head(s, c)| == |s| ==> Tail(s, c) == ""
  {
    hide Head;
    HeadIsPrefix(s, c);
  }

  lemma {:induction false} SplitAtFirst(a: string, c: char, b: string)
    requires c !in a
    ensures Split(a + [c] + b, c) == [a] + Split(b, c)
  {
    var s := a + [c] + b;
    if a == "" {
      assert s[1..] == b;
    } else {
      assert s[1..] == a[1..] + [c] + b;
      SplitAtFirst(a[1..], c, b);
      assert a == [a[0]] + a[1..];
    }
  }

  lemma {:induction false} SplitNothing(s: string, c: char)
    requires c !in s
    ensures Split(s, c) == [s]
  {
    if s != "" {
      SplitNothing(s[1..], c);
      assert s == [s[0]] + s[1..];
    }
  }

  /** Splitting takes the head and goes on behind the separator. */
  lemma SplitAtHead(s: string, c: char)
    ensures Split(s, c) == [Head(s, c)] + if |Head(s, c)| < |s| then Split(Tail(s, c), c) else []
    ensures c !in Head(s, c) && (|Head(s, c)| < |s| ==> s == Head(s, c) + [c] + Tail(s, c))
    ensures |Head(s, c)| == |s| ==> s == Head(s, c)
  {
    hide Split, Head, Tail;
    HeadPart(s, c);
    if |Head(s, c)| < |s| {
      assert s == Head(s, c) + [c] + Tail(s, c);
      SplitAtFirst(Head(s, c), c, Tail(s, c));
    } else {
      assert s == Head(s, c) && [s] + [] == [s];
      SplitNothing(s, c);
    }
  }

  function RemovePrefix(s: string, prefix: string): (r: string)
    ensures if prefix <= s then prefix + r == s else r == s
  {
    if prefix <= s then s[|prefix|..] else s
  }

  // ---- Stripping --------------------------------------------------------------------

  predicate NoOuterSpace(s: string) {
    s == "" || (!IsSpace(s[0]) && !IsSpace(s[|s| - 1]))
  }

  predicate AllSpaces(s: string) {
    forall i :: 0 <= i < |s| ==> IsSpace(s[i])
  }

  /** `str.lstrip` takes all whitespace in front of the rest. */
  lemma {:induction false} LStripSpaces(spaces: string, rest: string)
    requires AllSpaces(spaces) && (rest == "" || !IsSpace(rest[0]))
    ensures LStrip(spaces + rest) == rest
  {
    if spaces == "" {
      assert spaces + rest == rest;
    } else {
      assert (spaces + rest)[1..] == spaces[1..] + rest;
      LStripSpaces(spaces[1..], rest);
    }
  }

  lemma StripNothing(s: string)
    requires NoOuterSpace(s)
    ensures Strip(s) == s
  {
  }

  lemma StripLeadingSpace(s: string)
    requires NoOuterSpace(s) && s != ""
    ensures Strip(" " + s) == s
  {
    var t := " " + s;
    assert RStrip(t) == t && IsSpace(t[0]);
    assert t[1..] == s;
    assert LStrip(t) == LStrip(s);
  }

  function LStripChar(s: string, c: char): string {
    if s == "" || s[0] != c then s else LStripChar(s[1..], c)
  }

  function RStripChar(s: string, c: char): string {
    if s == "" || s[|s| - 1] != c then s else RStripChar(s[..|s| - 1], c)
  }

  /** `str.strip(c)` */
  function StripChar(s: string, c: char): string {
    RStripChar(LStripChar(s, c), c)
  }

  predicate NoOuterChar(s: string, c: char) {
    s == "" || (s[0] != c && s[|s| - 1] != c)
  }

  lemma StripCharNothing(s: string, c: char)
    requires NoOuterChar(s, c)
    ensures StripChar(s, c) == s
  {
  }

  lemma StripCharBoth(s: string, c: char)
    requires NoOuterChar(s, c) && s != ""
    ensures StripChar([c] + s + [c], c) == s
  {
    var t := [c] + s + [c];
    assert t[1..] == s + [c];
    assert LStripChar(t, c) == LStripChar(s + [c], c) == s + [c];
    assert (s + [c])[..|s|] == s;
    assert RStripChar(s + [c], c) == RStripChar(s, c);
  }

  lemma {:induction false} LStripCharEnd(s: string, c: char)
    ensures var r := LStripChar(s, c); |r| <= |s| && r == s[|s| - |r|..] && (r == "" || r[0] != c)
    ensures forall i :: 0 <= i < |s| - |LStripChar(s, c)| ==> s[i] == c
  {
    if s != "" && s[0] == c {
      LStripCharEnd(s[1..], c);
      assert forall i :: 1 <= i < |s| ==> s[i] == s[1..][i - 1];
    }
  }

  lemma {:induction false} RStripCharEnd(s: string, c: char)
    ensures var r := RStripChar(s, c); r <= s && (r == "" || r[|r| - 1] != c)
    ensures forall i :: |RStripChar(s, c)| <= i < |s| ==> s[i] == c
  {
    if s != "" && s[|s| - 1] == c {
      RStripCharEnd(s[..|s| - 1], c);
    }
  }

  lemma StripEnds(s: string)
    ensures |Strip(s)| <= |s| && NoOuterSpace(Strip(s))
    ensures |Strip(s)| == |s| ==> Strip(s) == s
  {
    RStripRemovesSpaces(s);
    LStripRemovesSpaces(RStrip(s));
  }

  lemma StripCharEnds(s: string, c: char)
    ensures |StripChar(s, c)| <= |s| && NoOuterChar(StripChar(s, c), c)
    ensures |StripChar(s, c)| == |s| ==> StripChar(s, c) == s
  {
    hide LStripChar, RStripChar;
    LStripCharEnd(s, c);
    RStripCharEnd(LStripChar(s, c), c);
  }

  /** Text survives both strips exactly if there is nothing to strip. */
  lemma StripExactly(s: string, c: char)
    ensures StripChar(Strip(s), c) == s <==> NoOuterSpace(s) && NoOuterChar(s, c)
  {
    StripEnds(s);
    StripCharEnds(Strip(s), c);
    if NoOuterSpace(s) && NoOuterChar(s, c) {
      StripNothing(s);
      StripCharNothing(s, c);
    }
  }

  /** Text between quotes survives exactly if it has no quotes at its ends. */
  lemma StripQuotedExactly(s: string, c: char)
    requires s != "" && !IsSpace(c)
    ensures StripChar(Strip([c] + s + [c]), c) == s <==> NoOuterChar(s, c)
  {
    var t := [c] + s + [c];
    StripNothing(t);
    StripCharEnds(t, c);
    if NoOuterChar(s, c) {
      StripCharBoth(s, c);
    }
  }

  // ---- What stripping means -------------------------------------------------------------

  lemma {:induction false} RStripSpaces(rest: string, spaces: string)
    requires AllSpaces(spaces) && (rest == "" || !IsSpace(rest[|rest| - 1]))
    ensures RStrip(rest + spaces) == rest
  {
    if spaces == "" {
      assert rest + spaces == rest;
    } else {
      assert (rest + spaces)[..|rest + spaces| - 1] == rest + spaces[..|spaces| - 1];
      RStripSpaces(rest, spaces[..|spaces| - 1]);
    }
  }

  predicate IsAround(s: string, before: string, r: string, after: string) {
    AllSpaces(before) && AllSpaces(after) && s == (before + r) + after
  }

  /** `r` without the whitespace around it. */
  ghost predicate IsStripped(s: string, r: string) {
    NoOuterSpace(r) && exists before, after :: IsAround(s, before, r, after)
  }

  lemma AroundIsStripped(s: string, before: string, r: string, after: string)
    requires IsAround(s, before, r, after) && NoOuterSpace(r)
    ensures Strip(s) == r
  {
    hide RStrip, LStrip;
    if r == "" {
      assert "" + s == s;
      RStripSpaces("", s);
      assert "" + "" == "";
      LStripSpaces("", "");
    } else {
      RStripSpaces(before + r, after);
      LStripSpaces(before, r);
    }
  }

  lemma StripIs(s: string, r: string)
    ensures Strip(s) == r <==> IsStripped(s, r)
  {
    hide RStrip, LStrip, AllSpaces;
    if Strip(s) == r {
      StripEnds(s);
      RStripRemovesSpaces(s);
      LStripRemovesSpaces(RStrip(s));
      var t := RStrip(s);
      SpacesAround(s, t, r);
      assert IsAround(s, t[..|t| - |r|], r, s[|t|..]);
    }
    if IsStripped(s, r) {
      var before, after :| IsAround(s, before, r, after);
      AroundIsStripped(s, before, r, after);
    }
  }

  lemma SpacesAround(s: string, t: string, r: string)
    requires t <= s && |r| <= |t| && r == t[|t| - |r|..]
    requires forall i :: |t| <= i < |s| ==> IsSpace(s[i])
    requires forall i :: 0 <= i < |t| - |r| ==> IsSpace(t[i])
    ensures IsAround(s, t[..|t| - |r|], r, s[|t|..])
  {
  }

  lemma {:induction false} LStripCharsOf(quotes: string, rest: string, c: char)
    requires (forall i :: 0 <= i < |quotes| ==> quotes[i] == c) && (rest == "" || rest[0] != c)
    ensures LStripChar(quotes + rest, c) == rest
  {
    if quotes == "" {
      assert quotes + rest == rest;
    } else {
      assert (quotes + rest)[1..] == quotes[1..] + rest;
      LStripCharsOf(quotes[1..], rest, c);
    }
  }

  lemma {:induction false} RStripCharsOf(rest: string, quotes: string, c: char)
    requires (forall i :: 0 <= i < |quotes| ==> quotes[i] == c) && (rest == "" || rest[|rest| - 1] != c)
    ensures RStripChar(rest + quotes, c) == rest
  {
    if quotes == "" {
      assert rest + quotes == rest;
    } else {
      assert (rest + quotes)[..|rest + quotes| - 1] == rest + quotes[..|quotes| - 1];
      RStripCharsOf(rest, quotes[..|quotes| - 1], c);
    }
  }

  predicate IsQuotedBy(s: string, before: string, r: string, after: string, c: char) {
    && (forall i :: 0 <= i < |before| ==> before[i] == c) && (forall i :: 0 <= i < |after| ==> after[i] == c)
    && s == (before + r) + after
  }

  /** `r` without the quotes around it. */
  ghost predicate IsUnquoted(s: string, r: string, c: char) {
    NoOuterChar(r, c) && exists before, after :: IsQuotedBy(s, before, r, after, c)
  }

  lemma QuotedIsStripped(s: string, before: string, r: string, after: string, c: char)
    requires IsQuotedBy(s, before, r, after, c) && NoOuterChar(r, c)
    ensures StripChar(s, c) == r
  {
    hide LStripChar, RStripChar;
    if r == "" {
      assert s + "" == s;
      LStripCharsOf(s, "", c);
      assert "" + "" == "";
      RStripCharsOf("", "", c);
    } else {
      assert s == before + (r + after);
      LStripCharsOf(before, r + after, c);
      RStripCharsOf(r, after, c);
    }
  }

  lemma StripCharIs(s: string, r: string, c: char)
    ensures StripChar(s, c) == r <==> IsUnquoted(s, r, c)
  {
    hide LStripChar, RStripChar;
    if StripChar(s, c) == r {
      var t := LStripChar(s, c);
      StripCharEnds(s, c);
      LStripCharEnd(s, c);
      RStripCharEnd(t, c);
      QuotesAround(s, t, r, c);
      assert IsQuotedBy(s, s[..|s| - |t|], r, t[|r|..], c);
    }
    if IsUnquoted(s, r, c) {
      var before, after :| IsQuotedBy(s, before, r, after, c);
      QuotedIsStripped(s, before, r, after, c);
    }
  }

  lemma QuotesAround(s: string, t: string, r: string, c: char)
    requires |t| <= |s| && t == s[|s| - |t|..] && r <= t
    requires forall i :: |r| <= i < |t| ==> t[i] == c
    requires forall i :: 0 <= i < |s| - |t| ==> s[i] == c
    ensures IsQuotedBy(s, s[..|s| - |t|], r, t[|r|..], c)
  {
  }
}
