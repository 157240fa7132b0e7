/** What an accepted line looks like. */
module SequenceAccepts {
  import opened Text
  import opened Wrappers
  import opened Sequence

  /** Argument names do not start with the prefix for variables. */
  ghost predicate PlainNames(fields: Fields) {
    forall key :: key in fields && RAW_PREFIX <= key ==> !(VAR_PREFIX <= key[|RAW_PREFIX|..])
  }

  ghost predicate DistinctKeys(d: seq<Pair>) {
    forall i, j :: 0 <= i < j < |d| ==> d[i].key != d[j].key
  }

  lemma {:induction false} PutFresh(d: seq<Pair>, p: Pair)
    requires forall i :: 0 <= i < |d| ==> d[i].key != p.key
    ensures Put(d, p) == d + [p]
  {
    if d != [] {
      PutFresh(d[1..], p);
    }
  }

  lemma {:induction false} PutKeepsDistinct(d: seq<Pair>, p: Pair)
    requires DistinctKeys(d)
    ensures DistinctKeys(Put(d, p))
    ensures forall k :: 0 <= k < |Put(d, p)| ==>
                          Put(d, p)[k].key == p.key || exists j :: 0 <= j < |d| && d[j].key == Put(d, p)[k].key
  {
    if d != [] && d[0].key != p.key {
      PutKeepsDistinct(d[1..], p);
      var r := Put(d[1..], p);
      assert DistinctKeys([d[0]] + r) by {
        forall k | 0 <= k < |r| ensures r[k].key != d[0].key {
          if r[k].key != p.key {
            var j :| 0 <= j < |d[1..]| && d[1..][j].key == r[k].key;
            assert d[j + 1].key == r[k].key;
          }
        }
      }
      forall k | 0 <= k < |Put(d, p)|
        ensures Put(d, p)[k].key == p.key || exists j :: 0 <= j < |d| && d[j].key == Put(d, p)[k].key
      {
        if k > 0 && r[k - 1].key != p.key {
          var j :| 0 <= j < |d[1..]| && d[1..][j].key == r[k - 1].key;
          assert d[j + 1].key == r[k - 1].key;
        }
      }
    }
  }

  lemma {:induction false} ArgDictDistinct(pieces: seq<string>)
    ensures DistinctKeys(ArgDict(pieces))
  {
    if pieces != [] {
      ArgDictDistinct(pieces[..|pieces| - 1]);
      PutKeepsDistinct(ArgDict(pieces[..|pieces| - 1]), ParsePair(pieces[|pieces| - 1]));
    }
  }

  lemma {:induction false} ParsedEach(read: Reader, fields: Fields, d: seq<Pair>)
    requires ParseArgs(read, fields, d).Ok?
    ensures var args := ParseArgs(read, fields, d).value;
            |args| == |d| && forall i :: 0 <= i < |d| ==> ParseArg(read, fields, d[i].key, d[i].text) == Ok(args[i])
  {
    if d != [] {
      ParsedEach(read, fields, d[..|d| - 1]);
    }
  }

  /** An argument named `name`: raw, or given as a variable. */
  predicate IsArgOf(fields: Fields, name: string, arg: Arg) {
    && "__raw__" + name in fields
    && arg.key == (if arg.value.Variable? then "__var__" else "__raw__") + name
  }

  lemma NumberKind(key: string, text: string)
    ensures var v := ParseNumber(key, text).value; v.Number? || v.SpecialNumber? || v.Plain?
    ensures ParseNumber(key, text).key == RAW_PREFIX + key
  {
  }

  lemma SecondsKind(read: Reader, key: string, text: string)
    requires ParseSeconds(read, key, text).Ok?
    ensures var arg := ParseSeconds(read, key, text).value; arg.key == RAW_PREFIX + key && arg.value.Duration?
  {
  }

  lemma DegreesKind(isDelta: bool, key: string, text: string)
    requires ParseDegrees(isDelta, key, text).Ok?
    ensures var arg := ParseDegrees(isDelta, key, text).value;
            arg.key == RAW_PREFIX + key && arg.value.Temperature? && IsDelta(arg.value.unit) == isDelta
  {
  }

  /** The unit of a field decides which values it takes. */
  predicate IsOfKind(unit: UnitType, v: Value) {
    match unit
    case NoUnit => v.Number? || v.SpecialNumber? || v.Plain?
    case Celsius => v.Temperature? && !IsDelta(v.unit)
    case DeltaCelsius => v.Temperature? && IsDelta(v.unit)
    case Second => v.Duration?
    case OtherUnit => false
  }

  lemma ParsedQuantity(read: Reader, unit: UnitType, key: string, text: string)
    requires ParseQuantity(read, unit, key, text).Ok?
    ensures var arg := ParseQuantity(read, unit, key, text).value;
            arg.key == RAW_PREFIX + key && IsOfKind(unit, arg.value)
  {
    match unit
    case NoUnit => NumberKind(key, text);
    case Celsius => DegreesKind(false, key, text);
    case DeltaCelsius => DegreesKind(true, key, text);
    case Second => SecondsKind(read, key, text);
    case OtherUnit =>
  }

  lemma ParsedArg(read: Reader, fields: Fields, key: string, text: string)
    requires ParseArg(read, fields, key, text).Ok?
    ensures IsArgOf(fields, key, ParseArg(read, fields, key, text).value)
  {
    if !("$" <= text) && !fields[RAW_PREFIX + key].isLink {
      ParsedQuantity(read, fields[RAW_PREFIX + key].unit, key, text);
    }
  }

  lemma BaseOfArg(fields: Fields, name: string, arg: Arg)
    requires PlainNames(fields) && IsArgOf(fields, name, arg)
    ensures BaseKey(arg.key) == name && BaseKey(RAW_PREFIX + name) == name
  {
    var raw, variable := RAW_PREFIX + name, VAR_PREFIX + name;
    assert raw[|RAW_PREFIX|..] == name && variable[|VAR_PREFIX|..] == name;
    assert variable[2] != RAW_PREFIX[2];
  }

  lemma AcceptedParts(read: Reader, fields: Fields, opcode: string, d: seq<Pair>)
    requires ParseInstruction(read, fields, opcode, d).Ok?
    ensures var r := ParseInstruction(read, fields, opcode, d).value;
            && r.Instruction? && r.opcode == opcode
            && ParseArgs(read, fields, d) == Ok(r.args)
            && forall name :: name in BaseKeys(fields.Keys) ==> name in BaseKeys(ArgKeys(r.args))
  {
    var args := ParseArgs(read, fields, d).value;
    var missing := BaseKeys(fields.Keys) - BaseKeys(ArgKeys(args));
    assert missing == {};
    forall name | name in BaseKeys(fields.Keys) ensures name in BaseKeys(ArgKeys(args)) {
      assert name !in missing;
    }
  }

  ghost predicate AreArgsOf(fields: Fields, names: seq<string>, args: seq<Arg>) {
    && |names| == |args|
    && forall i :: 0 <= i < |names| ==> IsArgOf(fields, names[i], args[i])
  }

  lemma NamesOf(read: Reader, fields: Fields, d: seq<Pair>, args: seq<Arg>) returns (names: seq<string>)
    requires ParseArgs(read, fields, d) == Ok(args)
    ensures |names| == |d| && forall i :: 0 <= i < |d| ==> names[i] == d[i].key
    ensures AreArgsOf(fields, names, args)
  {
    ParsedEach(read, fields, d);
    names := seq(|d|, i requires 0 <= i < |d| => d[i].key);
    forall i | 0 <= i < |d| ensures IsArgOf(fields, names[i], args[i]) {
      ParsedArg(read, fields, d[i].key, d[i].text);
    }
  }

  lemma NamesAreKeys(fields: Fields, names: seq<string>, args: seq<Arg>, name: string)
    requires PlainNames(fields) && AreArgsOf(fields, names, args)
    ensures name in names ==> name in BaseKeys(fields.Keys)
    ensures name in BaseKeys(ArgKeys(args)) ==> name in names
  {
    if name in names {
      var i :| 0 <= i < |names| && names[i] == name;
      BaseOfArg(fields, name, args[i]);
      assert RAW_PREFIX + name in fields.Keys;
    }
    if name in BaseKeys(ArgKeys(args)) {
      var key :| key in ArgKeys(args) && BaseKey(key) == name;
      var i :| 0 <= i < |args| && args[i].key == key;
      BaseOfArg(fields, names[i], args[i]);
    }
  }

  /** `names` are the arguments of an instruction, each once, raw or as variable. */
  ghost predicate HasEachArg(schema: Schema, d: Instruction, names: seq<string>)
    requires d.Instruction?
  {
    && d.opcode in schema
    && AreArgsOf(schema[d.opcode], names, d.args)
    && (forall i, j :: 0 <= i < j < |names| ==> names[i] != names[j])
    && (forall name :: name in names <==> name in BaseKeys(schema[d.opcode].Keys))
  }

  /** Every accepted line that is not a comment has each argument of its opcode exactly once, raw or as variable. */
  lemma AcceptedLine(read: Reader, schema: Schema, line: string) returns (names: seq<string>)
    requires forall opcode :: opcode in schema ==> PlainNames(schema[opcode])
    ensures var r := FromLine(read, schema, line);
            r.Ok? && r.value.Instruction? ==> HasEachArg(schema, r.value, names)
  {
    names := [];
    var r := FromLine(read, schema, line);
    if r.Ok? && r.value.Instruction? {
      var opcode, pieces := Head(line, ' '), Split(Tail(line, ' '), ',');
      var pairs := ArgDict(pieces);
      AcceptedParts(read, schema[opcode], opcode, pairs);
      ArgDictDistinct(pieces);
      names := NamesOf(read, schema[opcode], pairs, r.value.args);
      forall name ensures name in names <==> name in BaseKeys(schema[opcode].Keys) {
        NamesAreKeys(schema[opcode], names, r.value.args, name);
      }
    }
  }
}
