/** Exactly which lines are read, and as what: the value of each argument and the error of each line that is refused. */
module SequenceExact {
  import opened Text
  import opened Wrappers
  import opened Numbers
  import opened NumbersRead
  import opened Sequence
  import opened SequenceAccepts
  import opened SequenceValues

  // ---- Values ---------------------------------------------------------------------------

  ghost predicate IsNumberText(s: string) {
    SpellsNonFinite(s) || exists d :: Spells(s, d)
  }

  /** The temperature units that a field takes. */
  predicate Takes(unit: UnitType, u: TempUnit) {
    if u == DegC || u == DegF then unit == Celsius else unit == DeltaCelsius
  }

  /** What the text of an argument says. */
  ghost predicate Says(read: Reader, options: Options, text: string, v: Value) {
    match v
    case Variable(name) => text == "$" + name
    case Link(id) => options.isLink && text == id && !("$" <= text)
    case Temperature(_, u) => IsValueText(options, text) && Takes(options.unit, u) && IsTypedTemperature(Strip(text), v)
    case Duration(seconds) => IsValueText(options, text) && options.unit == Second && read(Strip(text)) == Some(seconds)
    case Number(d) => IsValueText(options, text) && options.unit == NoUnit && Spells(Strip(text), d)
    case SpecialNumber => IsValueText(options, text) && options.unit == NoUnit && SpellsNonFinite(Strip(text))
    case Plain(t) => IsValueText(options, text) && options.unit == NoUnit && t == text && !IsNumberText(Strip(text))
  }

  /** Neither a variable nor a link. */
  predicate IsValueText(options: Options, text: string) {
    !options.isLink && !("$" <= text)
  }

  ghost predicate SaysArg(read: Reader, fields: Fields, key: string, text: string, arg: Arg) {
    IsArgOf(fields, key, arg) && '=' !in text && Says(read, fields[RAW_PREFIX + key], text, arg.value)
  }

  /** What is wrong with an argument. */
  ghost predicate Fails(read: Reader, fields: Fields, key: string, text: string, e: Error) {
    match e
    case MissingSeparator(k) => k == key && '=' in text
    case InvalidArgument(k) => k == key && '=' !in text && RAW_PREFIX + key !in fields
    case InvalidTemperature(k) =>
      k == key && IsOfUnit(fields, key, text, Celsius, DeltaCelsius) && IsNoTemperature(text)
    case DeltaMismatch(k) =>
      && k == key && IsOfUnit(fields, key, text, Celsius, DeltaCelsius)
      && HasOtherUnit(fields[RAW_PREFIX + key].unit, text)
    case InvalidDuration(k) => k == key && IsOfUnit(fields, key, text, Second, Second) && read(Strip(text)) == None
    case NotImplemented(k) => k == key && IsOfUnit(fields, key, text, OtherUnit, OtherUnit)
    case InvalidInstruction(_) => false
    case MissingArguments(_) => false
  }

  predicate IsOfUnit(fields: Fields, key: string, text: string, a: UnitType, b: UnitType) {
    && '=' !in text && RAW_PREFIX + key in fields && IsValueText(fields[RAW_PREFIX + key], text)
    && (fields[RAW_PREFIX + key].unit == a || fields[RAW_PREFIX + key].unit == b)
  }

  ghost predicate IsNoTemperature(text: string) {
    forall v :: !IsTypedTemperature(Strip(text), v)
  }

  ghost predicate HasOtherUnit(unit: UnitType, text: string) {
    exists v :: IsTypedTemperature(Strip(text), v) && v.Temperature? && !Takes(unit, v.unit)
  }

  lemma NumberExactly(key: string, text: string, v: Value)
    ensures ParseNumber(key, text) == Arg(RAW_PREFIX + key, v) <==>
            match v
            case Number(d) => Spells(Strip(text), d)
            case SpecialNumber => SpellsNonFinite(Strip(text))
            case Plain(t) => t == text && !IsNumberText(Strip(text))
            case _ => false
  {
    hide ParseFloat, Strip, Spells, SpellsNonFinite;
    NonFiniteExactly(text);
    forall d ensures ParseFloat(text) == Some(Finite(d)) <==> Spells(Strip(text), d) {
      FloatExactly(text, d);
    }
  }

  lemma DegreesExactly(unit: UnitType, key: string, text: string, v: Value)
    requires unit == Celsius || unit == DeltaCelsius
    ensures ParseDegrees(unit == DeltaCelsius, key, text) == Ok(Arg(RAW_PREFIX + key, v)) <==>
            v.Temperature? && Takes(unit, v.unit) && IsTypedTemperature(Strip(text), v)
  {
    hide ParseTemperature, Strip, IsTypedTemperature;
    TemperatureExactly(Strip(text), v);
  }

  lemma SecondsExactly(read: Reader, key: string, text: string, v: Value)
    ensures ParseSeconds(read, key, text) == Ok(Arg(RAW_PREFIX + key, v)) <==>
            v.Duration? && read(Strip(text)) == Some(v.seconds)
  {
    hide Strip;
  }

  lemma QuantityExactly(read: Reader, options: Options, key: string, text: string, v: Value)
    requires IsValueText(options, text)
    ensures ParseQuantity(read, options.unit, key, text) == Ok(Arg(RAW_PREFIX + key, v)) <==>
            Says(read, options, text, v)
  {
    hide ParseNumber, ParseDegrees, ParseSeconds, IsTypedTemperature, Spells, SpellsNonFinite, IsNumberText, Strip;
    NumberExactly(key, text, v);
    SecondsExactly(read, key, text, v);
    match options.unit
    case NoUnit => assert ParseQuantity(read, options.unit, key, text) == Ok(ParseNumber(key, text));
    case Celsius => DegreesExactly(options.unit, key, text, v);
    case DeltaCelsius => DegreesExactly(options.unit, key, text, v);
    case Second =>
    case OtherUnit =>
  }

  /** The argument that a text gives is exactly the one it says. */
  lemma ArgExactly(read: Reader, fields: Fields, key: string, text: string, arg: Arg)
    ensures ParseArg(read, fields, key, text) == Ok(arg) <==> SaysArg(read, fields, key, text, arg)
  {
    hide ParseQuantity, IsTypedTemperature, Spells, SpellsNonFinite, IsNumberText, Strip, Takes;
    if RAW_PREFIX + key in fields && '=' !in text {
      var options := fields[RAW_PREFIX + key];
      if "$" <= text {
        VariableExactly(read, fields, key, text, arg);
      } else if !options.isLink {
        QuantityExactly(read, options, key, text, arg.value);
        if ParseQuantity(read, options.unit, key, text).Ok? {
          ParsedQuantity(read, options.unit, key, text);
        }
      }
    }
  }

  lemma VariableExactly(read: Reader, fields: Fields, key: string, text: string, arg: Arg)
    requires RAW_PREFIX + key in fields && '=' !in text && "$" <= text
    ensures ParseArg(read, fields, key, text) == Ok(arg) <==> SaysArg(read, fields, key, text, arg)
  {
    assert text == "$" + text[1..];
    if arg.value.Variable? && text == "$" + arg.value.name {
      assert text[1..] == arg.value.name;
    }
  }

  lemma DegreesFailExactly(unit: UnitType, key: string, text: string, e: Error)
    requires unit == Celsius || unit == DeltaCelsius
    ensures ParseDegrees(unit == DeltaCelsius, key, text) == Err(e) <==>
            || (e == InvalidTemperature(key) && IsNoTemperature(text))
            || (e == DeltaMismatch(key) && HasOtherUnit(unit, text))
  {
    hide ParseTemperature, Strip, IsTypedTemperature;
    forall v ensures ParseTemperature(Strip(text)) == Some(v) <==> IsTypedTemperature(Strip(text), v) {
      TemperatureExactly(Strip(text), v);
    }
  }

  /** An argument is refused for exactly what is wrong with it. */
  lemma ArgFailsExactly(read: Reader, fields: Fields, key: string, text: string, e: Error)
    ensures ParseArg(read, fields, key, text) == Err(e) <==> Fails(read, fields, key, text, e)
  {
    hide ParseNumber, ParseDegrees, IsNoTemperature, HasOtherUnit, Strip;
    if RAW_PREFIX + key in fields {
      var unit := fields[RAW_PREFIX + key].unit;
      if unit == Celsius || unit == DeltaCelsius {
        DegreesFailExactly(unit, key, text, e);
      }
    }
  }

  // ---- The arguments of a line ------------------------------------------------------------

  predicate IsCutAt(piece: string, before: string, after: string) {
    '=' !in before && (piece == before + (['='] + after) || (piece == before && after == ""))
  }

  ghost predicate IsValueIn(s: string, text: string) {
    exists bare :: IsStripped(s, bare) && IsUnquoted(bare, text, '\'')
  }

  /** `name=text`, with whitespace around both and quotes around the text. */
  ghost predicate IsAssignment(piece: string, p: Pair) {
    exists before, after :: IsCutAt(piece, before, after) && IsStripped(before, p.key) && IsValueIn(after, p.text)
  }

  lemma CutExactly(piece: string, before: string, after: string)
    ensures IsCutAt(piece, before, after) <==> Head(piece, '=') == before && Tail(piece, '=') == after
  {
    HeadPart(piece, '=');
    if IsCutAt(piece, before, after) {
      if piece == before && after == "" {
        HeadOfAll(before, '=');
      } else {
        assert piece == before + ['='] + after;
        HeadTail(before, '=', after);
      }
    }
  }

  lemma ValueExactly(s: string, text: string)
    ensures StripChar(Strip(s), '\'') == text <==> IsValueIn(s, text)
  {
    hide Strip, StripChar, IsStripped, IsUnquoted;
    StripIs(s, Strip(s));
    StripCharIs(Strip(s), text, '\'');
    if IsValueIn(s, text) {
      var bare :| IsStripped(s, bare) && IsUnquoted(bare, text, '\'');
      StripIs(s, bare);
    }
  }

  /** A piece of a line gives exactly the name and the text it assigns. */
  lemma PairExactly(piece: string, p: Pair)
    ensures ParsePair(piece) == p <==> IsAssignment(piece, p)
  {
    hide Head, Tail, Strip, StripChar, IsCutAt, IsStripped, IsValueIn;
    var before, after := Head(piece, '='), Tail(piece, '=');
    CutExactly(piece, before, after);
    StripIs(before, p.key);
    ValueExactly(after, p.text);
    if IsAssignment(piece, p) {
      var b, a :| IsCutAt(piece, b, a) && IsStripped(b, p.key) && IsValueIn(a, p.text);
      CutExactly(piece, b, a);
    }
  }

  /** What each piece assigns; empty pieces are skipped. */
  ghost predicate AreAssignments(pieces: seq<string>, given: seq<Option<Pair>>) {
    && |given| == |pieces|
    && forall i :: 0 <= i < |pieces| ==>
                     if pieces[i] == "" then given[i] == None
                     else given[i].Some? && IsAssignment(pieces[i], given[i].value)
  }

  predicate Names(a: Option<Pair>, name: string) {
    a.Some? && a.value.key == name
  }

  /** The name is first given at `first`, and last given at `last`, with this text. */
  ghost predicate IsEntryOf(given: seq<Option<Pair>>, p: Pair, first: nat, last: nat) {
    && first <= last < |given| && Names(given[first], p.key) && given[last] == Some(p)
    && forall i :: 0 <= i < |given| && Names(given[i], p.key) ==> first <= i <= last
  }

  predicate IsKeyOf(d: seq<Pair>, name: string) {
    exists k :: 0 <= k < |d| && d[k].key == name
  }

  /** The last text of each name, in the order in which names are first given. */
  ghost predicate IsDictOf(given: seq<Option<Pair>>, d: seq<Pair>, firsts: seq<nat>, lasts: seq<nat>) {
    && |firsts| == |d| && |lasts| == |d|
    && (forall k :: 0 <= k < |d| ==> IsEntryOf(given, d[k], firsts[k], lasts[k]))
    && (forall j, k :: 0 <= j < k < |d| ==> firsts[j] < firsts[k])
    && (forall i :: 0 <= i < |given| && given[i].Some? ==> IsKeyOf(d, given[i].value.key))
  }

  lemma {:induction false} PutAgain(d: seq<Pair>, p: Pair, k: nat)
    requires k < |d| && d[k].key == p.key && DistinctKeys(d)
    ensures Put(d, p) == d[k := p]
  {
    if k > 0 {
      assert d[0].key != p.key;
      assert DistinctKeys(d[1..]) by {
        forall i, j | 0 <= i < j < |d[1..]| ensures d[1..][i].key != d[1..][j].key {
          assert d[i + 1].key != d[j + 1].key;
        }
      }
      PutAgain(d[1..], p, k - 1);
    }
  }

  lemma EntryStays(given: seq<Option<Pair>>, last: Option<Pair>, p: Pair, first: nat, end: nat)
    requires IsEntryOf(given, p, first, end) && !Names(last, p.key)
    ensures IsEntryOf(given + [last], p, first, end)
  {
  }

  lemma EntryEndsLater(given: seq<Option<Pair>>, last: Pair, p: Pair, first: nat, end: nat)
    requires IsEntryOf(given, p, first, end) && last.key == p.key
    ensures IsEntryOf(given + [Some(last)], last, first, |given|)
  {
  }

  lemma EntryStarts(given: seq<Option<Pair>>, last: Pair, d: seq<Pair>)
    requires forall i :: 0 <= i < |given| && given[i].Some? ==> IsKeyOf(d, given[i].value.key)
    requires !IsKeyOf(d, last.key)
    ensures IsEntryOf(given + [Some(last)], last, |given|, |given|)
  {
    hide IsKeyOf;
  }

  lemma KeyStays(d: seq<Pair>, e: seq<Pair>, name: string)
    requires IsKeyOf(d, name) && |d| <= |e| && forall k :: 0 <= k < |d| ==> d[k].key == e[k].key
    ensures IsKeyOf(e, name)
  {
    var k :| 0 <= k < |d| && d[k].key == name;
    assert e[k].key == name;
  }

  lemma DictGrows(given: seq<Option<Pair>>, d: seq<Pair>, firsts: seq<nat>, lasts: seq<nat>, last: Pair)
    requires IsDictOf(given, d, firsts, lasts) && !IsKeyOf(d, last.key)
    ensures IsDictOf(given + [Some(last)], d + [last], firsts + [|given|], lasts + [|given|])
  {
    hide IsEntryOf;
    var n, all := |given|, given + [Some(last)];
    var e, fs, ls := d + [last], firsts + [n], lasts + [n];
    EntryStarts(given, last, d);
    forall k | 0 <= k < |e| ensures IsEntryOf(all, e[k], fs[k], ls[k]) {
      if k < |d| {
        assert d[k].key != last.key;
        EntryStays(given, Some(last), d[k], firsts[k], lasts[k]);
      }
    }
    forall i | 0 <= i < |all| && all[i].Some? ensures IsKeyOf(e, all[i].value.key) {
      if i < n {
        KeyStays(d, e, all[i].value.key);
      } else {
        assert e[|d|].key == all[i].value.key;
      }
    }
    forall j, k | 0 <= j < k < |e| ensures fs[j] < fs[k] {
      FirstIsPiece(given, d[j], firsts[j], lasts[j]);
    }
  }

  lemma FirstIsPiece(given: seq<Option<Pair>>, p: Pair, first: nat, last: nat)
    requires IsEntryOf(given, p, first, last)
    ensures first < |given|
  {
  }

  lemma DictChanges(given: seq<Option<Pair>>, d: seq<Pair>, firsts: seq<nat>, lasts: seq<nat>, last: Pair, k: nat)
    requires IsDictOf(given, d, firsts, lasts) && DistinctKeys(d)
    requires k < |d| && d[k].key == last.key
    ensures |lasts| == |d| && IsDictOf(given + [Some(last)], d[k := last], firsts, lasts[k := |given|])
  {
    hide IsEntryOf;
    var n, all := |given|, given + [Some(last)];
    var e, ls := d[k := last], lasts[k := n];
    forall j | 0 <= j < |e| ensures IsEntryOf(all, e[j], firsts[j], ls[j]) {
      if j == k {
        EntryEndsLater(given, last, d[k], firsts[k], lasts[k]);
      } else {
        assert d[j].key != last.key;
        EntryStays(given, Some(last), d[j], firsts[j], lasts[j]);
      }
    }
    forall i | 0 <= i < |all| && all[i].Some? ensures IsKeyOf(e, all[i].value.key) {
      if i < n {
        KeyStays(d, e, all[i].value.key);
      } else {
        assert e[k].key == all[i].value.key;
      }
    }
  }

  lemma DictSkips(given: seq<Option<Pair>>, d: seq<Pair>, firsts: seq<nat>, lasts: seq<nat>)
    requires IsDictOf(given, d, firsts, lasts)
    ensures IsDictOf(given + [None], d, firsts, lasts)
  {
    hide IsEntryOf, IsKeyOf;
    forall k | 0 <= k < |d| ensures IsEntryOf(given + [None], d[k], firsts[k], lasts[k]) {
      EntryStays(given, None, d[k], firsts[k], lasts[k]);
    }
  }

  lemma AssignmentsGrow(pieces: seq<string>, given: seq<Option<Pair>>, last: string, p: Pair)
    requires AreAssignments(pieces, given) && IsAssignment(last, p)
    ensures AreAssignments(pieces + [last], given + [if last == "" then None else Some(p)])
  {
    hide IsAssignment;
  }

  /** The dict of a line has each name once, where it is first given, with the text it is last given. */
  lemma {:induction false} DictExactly(pieces: seq<string>)
    returns (given: seq<Option<Pair>>, firsts: seq<nat>, lasts: seq<nat>)
    ensures AreAssignments(pieces, given) && IsDictOf(given, ArgDict(pieces), firsts, lasts)
  {
    hide ParsePair, Put, IsAssignment, IsEntryOf;
    if pieces == [] {
      given, firsts, lasts := [], [], [];
    } else {
      var n := |pieces| - 1;
      var last, d := pieces[n], ArgDict(pieces[..n]);
      var p := ParsePair(last);
      given, firsts, lasts := DictExactly(pieces[..n]);
      assert pieces == pieces[..n] + [last];
      PairExactly(last, p);
      AssignmentsGrow(pieces[..n], given, last, p);
      ArgDictDistinct(pieces[..n]);
      given, firsts, lasts := DictStep(given, d, firsts, lasts, last, p);
    }
  }

  lemma DictStep(given: seq<Option<Pair>>, d: seq<Pair>, firsts: seq<nat>, lasts: seq<nat>, last: string, p: Pair)
    returns (all: seq<Option<Pair>>, fs: seq<nat>, ls: seq<nat>)
    requires IsDictOf(given, d, firsts, lasts) && DistinctKeys(d)
    ensures all == given + [if last == "" then None else Some(p)]
    ensures IsDictOf(all, if last == "" then d else Put(d, p), fs, ls)
  {
    hide Put, IsDictOf, IsEntryOf;
    fs, ls := firsts, lasts;
    if last == "" {
      all := given + [None];
      DictSkips(given, d, firsts, lasts);
    } else {
      all := given + [Some(p)];
      if IsKeyOf(d, p.key) {
        var k :| 0 <= k < |d| && d[k].key == p.key;
        PutAgain(d, p, k);
        DictChanges(given, d, firsts, lasts, p, k);
        ls := lasts[k := |given|];
      } else {
        PutFresh(d, p);
        DictGrows(given, d, firsts, lasts, p);
        fs, ls := firsts + [|given|], lasts + [|given|];
      }
    }
  }

  // ---- Lines ----------------------------------------------------------------------------

  ghost predicate AllSay(read: Reader, fields: Fields, d: seq<Pair>, args: seq<Arg>) {
    && |args| == |d|
    && forall k :: 0 <= k < |d| ==> SaysArg(read, fields, d[k].key, d[k].text, args[k])
  }

  ghost predicate IsAccepted(read: Reader, fields: Fields, p: Pair) {
    exists arg :: SaysArg(read, fields, p.key, p.text, arg)
  }

  /** Entry `k` is the first that is refused. */
  ghost predicate FailsFirst(read: Reader, fields: Fields, d: seq<Pair>, k: nat, e: Error) {
    && k < |d| && Fails(read, fields, d[k].key, d[k].text, e)
    && forall j :: 0 <= j < k ==> IsAccepted(read, fields, d[j])
  }

  /** The names of fields that are not given. */
  function Missing(fields: Fields, d: seq<Pair>): set<string> {
    set name | name in BaseKeys(fields.Keys) && !IsKeyOf(d, name)
  }

  ghost predicate IsComplete(read: Reader, fields: Fields, d: seq<Pair>) {
    forall k :: 0 <= k < |d| ==> IsAccepted(read, fields, d[k])
  }

  ghost predicate IsRefused(read: Reader, fields: Fields, d: seq<Pair>, e: Error) {
    || (exists k :: FailsFirst(read, fields, d, k, e))
    || (IsComplete(read, fields, d) && Missing(fields, d) != {} && e == MissingArguments(Missing(fields, d)))
  }

  ghost predicate IsCommentLine(line: string) {
    exists spaces, rest :: AllSpaces(spaces) && line == spaces + (['#'] + rest)
  }

  /** What a line is read as, given the dict of its arguments. */
  ghost predicate IsOutcome(read: Reader, schema: Schema, line: string, d: seq<Pair>, r: Result<Instruction, Error>) {
    var opcode := Head(line, ' ');
    match r
    case Ok(Comment(text)) => IsCommentLine(line) && IsStripped(line, "#" + text)
    case Ok(Instruction(name, args)) =>
      && !IsCommentLine(line) && name == opcode && opcode in schema
      && AllSay(read, schema[opcode], d, args) && Missing(schema[opcode], d) == {}
    case Err(e) =>
      && !IsCommentLine(line)
      && if opcode !in schema then e == InvalidInstruction(opcode) else IsRefused(read, schema[opcode], d, e)
  }

  lemma {:induction false} ArgsExactly(read: Reader, fields: Fields, d: seq<Pair>, args: seq<Arg>)
    ensures ParseArgs(read, fields, d) == Ok(args) <==> AllSay(read, fields, d, args)
  {
    hide ParseArg, SaysArg;
    if d == [] {
    } else if |args| == |d| {
      var n := |d| - 1;
      ArgsExactly(read, fields, d[..n], args[..n]);
      ArgExactly(read, fields, d[n].key, d[n].text, args[n]);
      assert args == args[..n] + [args[n]];
    } else if ParseArgs(read, fields, d) == Ok(args) {
      ParsedEach(read, fields, d);
    }
  }

  lemma AcceptedExactly(read: Reader, fields: Fields, p: Pair)
    ensures IsAccepted(read, fields, p) <==> ParseArg(read, fields, p.key, p.text).Ok?
  {
    hide ParseArg, SaysArg;
    forall arg ensures ParseArg(read, fields, p.key, p.text) == Ok(arg) <==> SaysArg(read, fields, p.key, p.text, arg) {
      ArgExactly(read, fields, p.key, p.text, arg);
    }
  }

  lemma {:induction false} AllAccepted(read: Reader, fields: Fields, d: seq<Pair>)
    ensures IsComplete(read, fields, d) <==> ParseArgs(read, fields, d).Ok?
  {
    hide ParseArg, IsAccepted;
    if d != [] {
      var n := |d| - 1;
      AllAccepted(read, fields, d[..n]);
      AcceptedExactly(read, fields, d[n]);
      assert forall k :: 0 <= k < n ==> d[..n][k] == d[k];
    }
  }

  lemma {:induction false} FirstFailure(read: Reader, fields: Fields, d: seq<Pair>, e: Error) returns (k: nat)
    requires ParseArgs(read, fields, d) == Err(e)
    ensures FailsFirst(read, fields, d, k, e)
  {
    hide ParseArg, IsAccepted, Fails;
    var n := |d| - 1;
    if ParseArgs(read, fields, d[..n]).Err? {
      k := FirstFailure(read, fields, d[..n], e);
      assert forall j :: 0 <= j < n ==> d[..n][j] == d[j];
    } else {
      k := n;
      AllAccepted(read, fields, d[..n]);
      assert forall j :: 0 <= j < n ==> d[..n][j] == d[j];
      ArgFailsExactly(read, fields, d[n].key, d[n].text, e);
    }
  }

  lemma {:induction false} FailureIsReported(read: Reader, fields: Fields, d: seq<Pair>, k: nat, e: Error)
    requires FailsFirst(read, fields, d, k, e)
    ensures ParseArgs(read, fields, d) == Err(e)
  {
    hide ParseArg, IsAccepted, Fails;
    var n := |d| - 1;
    assert forall j :: 0 <= j < n ==> d[..n][j] == d[j];
    if k < n {
      FailureIsReported(read, fields, d[..n], k, e);
    } else {
      AllAccepted(read, fields, d[..n]);
      ArgFailsExactly(read, fields, d[n].key, d[n].text, e);
    }
  }

  lemma ArgsFailExactly(read: Reader, fields: Fields, d: seq<Pair>, e: Error)
    ensures ParseArgs(read, fields, d) == Err(e) <==> exists k :: FailsFirst(read, fields, d, k, e)
  {
    hide ParseArgs, FailsFirst;
    if ParseArgs(read, fields, d) == Err(e) {
      var k := FirstFailure(read, fields, d, e);
    }
    if k :| FailsFirst(read, fields, d, k, e) {
      FailureIsReported(read, fields, d, k, e);
    }
  }

  lemma KeysAreNames(read: Reader, fields: Fields, d: seq<Pair>, args: seq<Arg>, name: string)
    requires PlainNames(fields) && AllSay(read, fields, d, args)
    ensures name in BaseKeys(ArgKeys(args)) <==> IsKeyOf(d, name)
  {
    hide Says, BaseKey, PlainNames, IsArgOf;
    if IsKeyOf(d, name) {
      var k :| 0 <= k < |d| && d[k].key == name;
      BaseOfArg(fields, name, args[k]);
      assert args[k].key in ArgKeys(args);
    }
    if name in BaseKeys(ArgKeys(args)) {
      var key :| key in ArgKeys(args) && BaseKey(key) == name;
      var k :| 0 <= k < |args| && args[k].key == key;
      BaseOfArg(fields, d[k].key, args[k]);
    }
  }

  lemma MissingExactly(read: Reader, fields: Fields, d: seq<Pair>, args: seq<Arg>)
    requires PlainNames(fields) && AllSay(read, fields, d, args)
    ensures BaseKeys(fields.Keys) - BaseKeys(ArgKeys(args)) == Missing(fields, d)
  {
    hide AllSay, BaseKeys, ArgKeys, PlainNames, IsKeyOf;
    forall name ensures name in BaseKeys(ArgKeys(args)) <==> IsKeyOf(d, name) {
      KeysAreNames(read, fields, d, args, name);
    }
  }

  lemma LStripParts(s: string) returns (n: nat)
    ensures n <= |s| && AllSpaces(s[..n]) && LStrip(s) == s[n..]
  {
    hide LStrip, IsSpace;
    LStripRemovesSpaces(s);
    n := |s| - |LStrip(s)|;
  }

  lemma CommentExactly(line: string)
    ensures IsComment(line) <==> IsCommentLine(line)
  {
    hide LStrip, AllSpaces;
    if IsComment(line) {
      var n := LStripParts(line);
      assert line[n..] == ['#'] + line[n..][1..] && line == line[..n] + line[n..];
    }
    if IsCommentLine(line) {
      var spaces, rest :| AllSpaces(spaces) && line == spaces + (['#'] + rest);
      LStripSpaces(spaces, ['#'] + rest);
    }
  }

  lemma CommentText(line: string, text: string)
    requires IsComment(line)
    ensures DropFirst(Strip(line)) == text <==> IsStripped(line, "#" + text)
  {
    hide LStrip, RStrip, IsStripped;
    StripIs(line, "#" + text);
    StartsWithMark(line);
    if DropFirst(Strip(line)) == text {
      assert Strip(line) == "#" + text;
    }
    if Strip(line) == "#" + text {
      assert Strip(line)[1..] == text;
    }
  }

  lemma StartsWithMark(line: string)
    requires IsComment(line)
    ensures "#" <= Strip(line)
  {
    hide LStrip, RStrip;
    CommentExactly(line);
    var spaces, rest :| AllSpaces(spaces) && line == spaces + (['#'] + rest);
    RStripRemovesSpaces(line);
    var t := RStrip(line);
    assert |spaces| < |t| by { assert line[|spaces|] == '#'; }
    var behind := t[|spaces| + 1..];
    assert t == spaces + (['#'] + behind);
    LStripSpaces(spaces, ['#'] + behind);
  }

  lemma InstructionOutcome(read: Reader, fields: Fields, opcode: string, d: seq<Pair>, r: Result<Instruction, Error>)
    requires PlainNames(fields)
    ensures ParseInstruction(read, fields, opcode, d) == r <==>
            match r
            case Ok(Comment(_)) => false
            case Ok(Instruction(name, args)) =>
              name == opcode && AllSay(read, fields, d, args) && Missing(fields, d) == {}
            case Err(e) => IsRefused(read, fields, d, e)
  {
    hide ParseArgs, AllSay, IsComplete, FailsFirst, Missing, BaseKeys, ArgKeys, PlainNames;
    var parsed := ParseArgs(read, fields, d);
    AllAccepted(read, fields, d);
    if parsed.Ok? {
      ArgsExactly(read, fields, d, parsed.value);
      MissingExactly(read, fields, d, parsed.value);
    }
    if r.Err? {
      ArgsFailExactly(read, fields, d, r.error);
    } else if r.value.Instruction? {
      ArgsExactly(read, fields, d, r.value.args);
    }
  }

  /** A line is read as what it says, and refused for the first thing that is wrong with it. */
  lemma LineExactly(read: Reader, schema: Schema, line: string, r: Result<Instruction, Error>)
    returns (given: seq<Option<Pair>>, d: seq<Pair>, firsts: seq<nat>, lasts: seq<nat>)
    requires forall opcode :: opcode in schema ==> PlainNames(schema[opcode])
    ensures AreAssignments(Split(Tail(line, ' '), ','), given) && IsDictOf(given, d, firsts, lasts)
    ensures FromLine(read, schema, line) == r <==> IsOutcome(read, schema, line, d, r)
  {
    hide Split, Tail, Head, ParseInstruction, IsCommentLine, IsComment, IsStripped, IsRefused, AllSay, Missing,
      AreAssignments, IsDictOf, PlainNames, DropFirst;
    var pieces, opcode := Split(Tail(line, ' '), ','), Head(line, ' ');
    d := ArgDict(pieces);
    given, firsts, lasts := DictExactly(pieces);
    CommentExactly(line);
    if IsComment(line) {
      if r.Ok? && r.value.Comment? {
        CommentText(line, r.value.text);
      }
    } else if opcode in schema {
      InstructionOutcome(read, schema[opcode], opcode, d, r);
    }
  }
}
