/** Durations as text. */
module TimeUtils {
  import opened Text
  import opened Wrappers

  const UNITS := "dhms"
  const UNIT_COUNT: nat := 4

  /** The seconds in each unit of `UNITS`. */
  function Period(u: nat): (p: nat)
    requires u < UNIT_COUNT
    ensures p > 0
  {
    if u == 0 then 86400 else if u == 1 then 3600 else if u == 2 then 60 else 1
  }

  /** `divmod(seconds, period)` */
  function Whole(seconds: nat, u: nat): nat
    requires u < UNIT_COUNT
  {
    if u == 0 then seconds / 86400 else if u == 1 then seconds / 3600 else if u == 2 then seconds / 60 else seconds
  }

  function Remainder(seconds: nat, u: nat): nat
    requires u < UNIT_COUNT
  {
    if u == 0 then seconds % 86400 else if u == 1 then seconds % 3600 else if u == 2 then seconds % 60 else 0
  }

  /** `value` units in seconds. */
  function Scaled(value: nat, u: nat): nat
    requires u < UNIT_COUNT
  {
    if u == 0 then 86400 * value else if u == 1 then 3600 * value else if u == 2 then 60 * value else value
  }

  function Unit(u: nat): char
    requires u < UNIT_COUNT
  {
    UNITS[u]
  }

  // ---- Printing -----------------------------------------------------------------

  /** The parts from unit `u` on. */
  function PrintParts(seconds: nat, u: nat): string
    requires u <= UNIT_COUNT
    decreases UNIT_COUNT - u
  {
    if u == UNIT_COUNT then ""
    else if seconds >= Period(u) then
      PrintNat(Whole(seconds, u)) + [Unit(u)] + PrintParts(Remainder(seconds, u), u + 1)
    else PrintParts(seconds, u + 1)
  }

  function PrintDuration(seconds: nat): string {
    if PrintParts(seconds, 0) == "" then "0s" else PrintParts(seconds, 0)
  }

  method SerializeDuration(total: nat) returns (output: string)
    ensures output == PrintDuration(total)
  {
    var seconds: nat := total;
    output := "";
    for u := 0 to UNIT_COUNT
      invariant output + PrintParts(seconds, u) == PrintParts(total, 0)
    {
      ghost var printed := output;
      if seconds >= Period(u) {
        var value := Whole(seconds, u);
        Assoc(output, PrintNat(value) + [Unit(u)], PrintParts(Remainder(seconds, u), u + 1));
        seconds := Remainder(seconds, u);
        output := output + (PrintNat(value) + [Unit(u)]);
      }
    }
    if output == "" {
      output := "0s";
    }
  }

  // ---- Parsing ------------------------------------------------------------------

  function UnitIndex(c: char): Option<nat> {
    if c == 'd' then Some(0) else if c == 'h' then Some(1) else if c == 'm' then Some(2)
    else if c == 's' then Some(3) else None
  }

  /** Numbers with units, each unit after the ones before it. */
  function ParseParts(s: string, u: nat): Option<nat>
    decreases |s|
  {
    if s == "" then Some(0)
    else
      var digits := LeadingDigits(s);
      if digits == "" || |digits| == |s| then None
      else
        var unit := UnitIndex(s[|digits|]);
        if unit.None? || unit.value < u then None
        else
          var rest := ParseParts(s[|digits| + 1..], unit.value + 1);
          if rest.None? then None else Some(Scaled(ParseNat(digits), unit.value) + rest.value)
  }

  /** The text forms of durations that the service prints, and plain numbers of seconds. */
  function ParseDuration(s: string): Option<nat> {
    if AllDigits(s) then Some(ParseNat(s)) else ParseParts(s, 0)
  }

  // ---- Round trip ---------------------------------------------------------------

  lemma ParsePart(value: nat, u: nat, rest: string, first: nat)
    requires u < UNIT_COUNT && first <= u && ParseParts(rest, u + 1).Some?
    ensures ParseParts(PrintNat(value) + [Unit(u)] + rest, first) ==
            Some(Scaled(value, u) + ParseParts(rest, u + 1).value)
  {
    hide LeadingDigits, PrintNat, ParseNat, AllDigits;
    var digits := PrintNat(value);
    var s := digits + [Unit(u)] + rest;
    ParsePrintNat(value);
    assert s == digits + ([Unit(u)] + rest);
    LeadingDigitsOf(digits, [Unit(u)] + rest);
    assert s[|digits|] == Unit(u) && s[|digits| + 1..] == rest;
  }

  lemma Divided(seconds: nat, u: nat)
    requires u < UNIT_COUNT
    ensures Scaled(Whole(seconds, u), u) + Remainder(seconds, u) == seconds
    ensures Remainder(seconds, u) < Period(u)
    ensures seconds >= Period(u) ==> Whole(seconds, u) > 0
  {
  }

  /** The last period is one second, so nothing remains. */
  lemma NothingRemains(seconds: nat, u: nat)
    requires u < UNIT_COUNT
    ensures u + 1 == UNIT_COUNT ==> Remainder(seconds, u) == 0
    ensures seconds < Period(u) && u + 1 == UNIT_COUNT ==> seconds == 0
  {
  }

  lemma PrintPartsStep(seconds: nat, u: nat)
    requires u < UNIT_COUNT
    ensures PrintParts(seconds, u) ==
            if seconds >= Period(u) then
              PrintNat(Whole(seconds, u)) + [Unit(u)] + PrintParts(Remainder(seconds, u), u + 1)
            else PrintParts(seconds, u + 1)
  {
  }

  lemma {:induction false} ParsePrintParts(seconds: nat, u: nat, first: nat)
    requires first <= u <= UNIT_COUNT && (u == UNIT_COUNT ==> seconds == 0)
    ensures ParseParts(PrintParts(seconds, u), first) == Some(seconds)
    decreases UNIT_COUNT - u
  {
    hide *;
    if u == UNIT_COUNT {
      NothingPrinted(first);
    } else {
      NothingRemains(seconds, u);
      PrintPartsStep(seconds, u);
      if seconds >= Period(u) {
        var value, rest := Whole(seconds, u), Remainder(seconds, u);
        Divided(seconds, u);
        ParsePrintParts(rest, u + 1, u + 1);
        ParsePart(value, u, PrintParts(rest, u + 1), first);
      } else {
        ParsePrintParts(seconds, u + 1, first);
      }
    }
  }

  lemma NothingPrinted(first: nat)
    ensures PrintParts(0, UNIT_COUNT) == "" && ParseParts("", first) == Some(0)
  {
  }

  /** Every printed duration is read back exactly. */
  lemma DurationRoundTrip(seconds: nat)
    ensures ParseDuration(PrintDuration(seconds)) == Some(seconds)
  {
    var s := PrintDuration(seconds);
    PrintedEndsInUnit(seconds, 0);
    ParsePrintParts(seconds, 0, 0);
    assert !AllDigits(s) by { assert !IsDigit(s[|s| - 1]); }
    if PrintParts(seconds, 0) == "" {
      ParsePart(0, 3, "", 0);
      assert PrintNat(0) + [Unit(3)] + "" == "0s";
    }
  }

  lemma {:induction false} PrintedEndsInUnit(seconds: nat, u: nat)
    requires u <= UNIT_COUNT
    ensures var s := PrintParts(seconds, u); s == "" || !IsDigit(s[|s| - 1])
    decreases UNIT_COUNT - u
  {
    hide *;
    if u == UNIT_COUNT {
      NothingPrinted(u);
      NoUnitsLeft(seconds);
    } else {
      PrintPartsStep(seconds, u);
      PrintedEndsInUnit(Remainder(seconds, u), u + 1);
      PrintedEndsInUnit(seconds, u + 1);
      UnitIsNoDigit(u);
    }
  }

  lemma NoUnitsLeft(seconds: nat)
    ensures PrintParts(seconds, UNIT_COUNT) == ""
  {
  }

  lemma UnitIsNoDigit(u: nat)
    requires u < UNIT_COUNT
    ensures !IsDigit(Unit(u))
  {
  }

  // ---- Typed durations ------------------------------------------------------------

  /** Digits and a unit. */
  datatype TypedPart = TypedPart(digits: string, unit: nat)

  predicate IsTypedPart(p: TypedPart, first: nat) {
    AllDigits(p.digits) && p.digits != "" && first <= p.unit < UNIT_COUNT
  }

  /** Each unit comes behind those before it. */
  predicate AreTyped(parts: seq<TypedPart>, first: nat) {
    parts == [] || (IsTypedPart(parts[0], first) && AreTyped(parts[1..], parts[0].unit + 1))
  }

  function PartsText(parts: seq<TypedPart>, first: nat): string
    requires AreTyped(parts, first)
  {
    if parts == [] then ""
    else parts[0].digits + ([Unit(parts[0].unit)] + PartsText(parts[1..], parts[0].unit + 1))
  }

  function PartsTotal(parts: seq<TypedPart>, first: nat): nat
    requires AreTyped(parts, first)
  {
    if parts == [] then 0
    else Scaled(ParseNat(parts[0].digits), parts[0].unit) + PartsTotal(parts[1..], parts[0].unit + 1)
  }

  predicate AreParts(parts: seq<TypedPart>, first: nat, s: string, seconds: nat) {
    AreTyped(parts, first) && PartsText(parts, first) == s && PartsTotal(parts, first) == seconds
  }

  lemma UnitExactly(c: char, u: nat)
    requires u < UNIT_COUNT
    ensures UnitIndex(c) == Some(u) <==> c == Unit(u)
    ensures UnitIndex(c).Some? ==> UnitIndex(c).value < UNIT_COUNT
  {
  }

  lemma {:induction false} TypedAreParsed(parts: seq<TypedPart>, first: nat, s: string, seconds: nat)
    requires AreParts(parts, first, s, seconds)
    ensures ParseParts(s, first) == Some(seconds)
    decreases |parts|
  {
    hide LeadingDigits, AllDigits, ParseNat, Unit, UnitIndex, Scaled;
    if parts != [] {
      var p := parts[0];
      var rest := PartsText(parts[1..], p.unit + 1);
      TypedAreParsed(parts[1..], p.unit + 1, rest, PartsTotal(parts[1..], p.unit + 1));
      UnitIsNoDigit(p.unit);
      UnitExactly(Unit(p.unit), p.unit);
      LeadingDigitsOf(p.digits, [Unit(p.unit)] + rest);
      assert s[|p.digits|] == Unit(p.unit) && s[|p.digits| + 1..] == rest;
    }
  }

  lemma {:induction false} ParsedAreTyped(s: string, first: nat) returns (parts: seq<TypedPart>)
    requires ParseParts(s, first).Some?
    ensures AreParts(parts, first, s, ParseParts(s, first).value)
    decreases |s|
  {
    hide LeadingDigits, AllDigits, ParseNat, Unit, UnitIndex, Scaled;
    if s == "" {
      parts := [];
    } else {
      var digits := LeadingDigits(s);
      var unit := UnitIndex(s[|digits|]).value;
      LeadingDigitsEnd(s);
      UnitExactly(s[|digits|], if unit < UNIT_COUNT then unit else 0);
      var rest := s[|digits| + 1..];
      var later := ParsedAreTyped(rest, unit + 1);
      parts := [TypedPart(digits, unit)] + later;
      assert parts[1..] == later;
      assert s == digits + ([s[|digits|]] + rest);
    }
  }

  /** A duration is read from a number of seconds, or from numbers with descending units. */
  lemma DurationExactly(s: string, seconds: nat)
    ensures ParseDuration(s) == Some(seconds) <==>
            if AllDigits(s) then ParseNat(s) == seconds else exists parts :: AreParts(parts, 0, s, seconds)
  {
    hide ParseParts, AllDigits, ParseNat, AreParts;
    if !AllDigits(s) && ParseDuration(s) == Some(seconds) {
      var parts := ParsedAreTyped(s, 0);
    }
    if parts :| !AllDigits(s) && AreParts(parts, 0, s, seconds) {
      TypedAreParsed(parts, 0, s, seconds);
    }
  }

  // ---- Normal form ----------------------------------------------------------------

  datatype Part = Part(value: nat, unit: nat)

  function Written(parts: seq<Part>): string
    requires forall k :: 0 <= k < |parts| ==> parts[k].unit < UNIT_COUNT
  {
    if parts == [] then ""
    else PrintNat(parts[0].value) + [Unit(parts[0].unit)] + Written(parts[1..])
  }

  ghost predicate InNormalForm(parts: seq<Part>, first: nat) {
    && (forall k :: 0 <= k < |parts| ==> first <= parts[k].unit < UNIT_COUNT && parts[k].value > 0)
    && (forall j, k :: 0 <= j < k < |parts| ==> parts[j].unit < parts[k].unit)
    && (forall k :: 0 <= k < |parts| ==>
                      && (parts[k].unit == 1 ==> parts[k].value < 24)
                      && (parts[k].unit >= 2 ==> parts[k].value < 60))
  }

  /** Hours, minutes and seconds carry over into the next unit. */
  predicate FitsBelow(seconds: nat, u: nat) {
    u == 0 || (u == 1 && seconds < 86400) || (u == 2 && seconds < 3600) || (u == 3 && seconds < 60)
    || (u >= UNIT_COUNT && seconds == 0)
  }

  lemma {:induction false} PartsOf(seconds: nat, u: nat) returns (parts: seq<Part>)
    requires u <= UNIT_COUNT && FitsBelow(seconds, u)
    ensures InNormalForm(parts, u) && PrintParts(seconds, u) == Written(parts)
    decreases UNIT_COUNT - u
  {
    if u == UNIT_COUNT {
      parts := [];
    } else if seconds >= Period(u) {
      var rest := PartsOf(Remainder(seconds, u), u + 1);
      var first := Part(Whole(seconds, u), u);
      parts := [first] + rest;
      assert parts[1..] == rest;
      assert InNormalForm(parts, u) by {
        forall k | 0 <= k < |parts|
          ensures u <= parts[k].unit < UNIT_COUNT && parts[k].value > 0
          ensures parts[k].unit == 1 ==> parts[k].value < 24
          ensures parts[k].unit >= 2 ==> parts[k].value < 60
        {
          assert k > 0 ==> parts[k] == rest[k - 1];
        }
        forall j, k | 0 <= j < k < |parts| ensures parts[j].unit < parts[k].unit {
          assert parts[k] == rest[k - 1] && (j > 0 ==> parts[j] == rest[j - 1]);
        }
      }
    } else {
      parts := PartsOf(seconds, u + 1);
    }
  }

  /** Units descend, no part is zero except `0s`, and hours, minutes and seconds stay below 24, 60 and 60. */
  lemma DurationNormalForm(seconds: nat) returns (parts: seq<Part>)
    ensures InNormalForm(parts, 0)
    ensures PrintDuration(seconds) == if seconds == 0 then "0s" else Written(parts)
    ensures parts == [] <==> seconds == 0
  {
    parts := PartsOf(seconds, 0);
    ParsePrintParts(seconds, 0, 0);
    if parts == [] {
      assert PrintParts(seconds, 0) == "";
    }
  }
}
