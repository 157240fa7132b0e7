/** Exactly the instructions that are read back from the line they are printed to. */
module SequenceRoundTrip {
  import opened Text
  import opened Wrappers
  import opened Numbers
  import opened TimeUtils
  import opened Sequence
  import opened SequenceAccepts
  import opened SequenceValues
  import opened SequenceArguments

  // ---- Names --------------------------------------------------------------------------

  predicate IsIdentifier(s: string) {
    && s != ""
    && forall i :: 0 <= i < |s| ==> IsDigit(s[i]) || 'a' <= s[i] <= 'z' || 'A' <= s[i] <= 'Z' || s[i] == '_'
  }

  /** Opcodes and field names are protobuf identifiers; no line is read with the opcode COMMENT. */
  ghost predicate IsSchema(schema: Schema) {
    forall opcode :: opcode in schema ==> opcode != COMMENT && IsIdentifier(opcode) && HasFieldNames(schema[opcode])
  }

  ghost predicate HasFieldNames(fields: Fields) {
    PlainNames(fields) && forall key :: key in fields && RAW_PREFIX <= key ==> IsIdentifier(key[|RAW_PREFIX|..])
  }

  lemma IdentifierChars(s: string)
    requires IsIdentifier(s)
    ensures ',' !in s && '=' !in s && ' ' !in s && NoOuterSpace(s) && s[0] != '#'
  {
  }

  lemma NameIsIdentifier(fields: Fields, name: string, arg: Arg)
    requires HasFieldNames(fields) && IsArgOf(fields, name, arg)
    ensures IsIdentifier(name) && PrintKey(arg.key) == name
  {
    var raw, variable := RAW_PREFIX + name, VAR_PREFIX + name;
    assert raw[|RAW_PREFIX|..] == name && variable[|VAR_PREFIX|..] == name;
    assert raw[2] != VAR_PREFIX[2];
  }

  // ---- Pieces of a line -----------------------------------------------------------------

  /** `key=value`, possibly behind the space of the separator. */
  lemma PieceReadsBack(name: string, text: string)
    requires IsIdentifier(name)
    ensures ParsePair(name + "=" + text) == Pair(name, StripChar(Strip(text), '\''))
    ensures ParsePair(" " + (name + "=" + text)) == Pair(name, StripChar(Strip(text), '\''))
  {
    hide Strip, StripChar, NoOuterSpace;
    IdentifierChars(name);
    assert name + "=" + text == name + ['='] + text;
    HeadTail(name, '=', text);
    StripNothing(name);
    assert " " + (name + "=" + text) == (" " + name) + ['='] + text;
    HeadTail(" " + name, '=', text);
    StripLeadingSpace(name);
  }

  /** The piece for argument `i` of a printed line. */
  function Piece(item: string, first: bool): string {
    if first then item else " " + item
  }

  lemma SplitBehindSpace(s: string)
    ensures Split(" " + s, ',') == [" " + Split(s, ',')[0]] + Split(s, ',')[1..]
  {
    assert (" " + s)[1..] == s;
  }

  lemma JoinSplit(items: seq<string>, later: seq<string>)
    requires |items| > 1 && ',' !in items[0] && Split(Join(items[1..]), ',') == later
    ensures Split(Join(items), ',') == [items[0]] + ([" " + later[0]] + later[1..])
  {
    hide Split, Join;
    var rest := Join(items[1..]);
    JoinMore(items);
    SplitBehindSpace(rest);
    Assoc(items[0], [','], " " + rest);
    Assoc([','], " ", rest);
    SplitAtFirst(items[0], ',', " " + rest);
  }

  lemma JoinMore(items: seq<string>)
    requires |items| > 1
    ensures Join(items) == items[0] + (([','] + " ") + Join(items[1..]))
  {
  }

  lemma {:induction false} SplitJoin(items: seq<string>)
    requires items != [] && forall i :: 0 <= i < |items| ==> ',' !in items[i]
    ensures var pieces := Split(Join(items), ',');
            |pieces| == |items| && forall i :: 0 <= i < |items| ==> pieces[i] == Piece(items[i], i == 0)
  {
    if |items| == 1 {
      SplitNothing(items[0], ',');
    } else {
      hide Split, Join;
      SplitJoin(items[1..]);
      var later := Split(Join(items[1..]), ',');
      JoinSplit(items, later);
      forall i | 0 <= i < |items| ensures Split(Join(items), ',')[i] == Piece(items[i], i == 0) {
        if i > 1 {
          assert later[i - 1] == Piece(items[i], false);
        }
      }
    }
  }

  lemma {:induction false} ArgDictOf(pieces: seq<string>, pairs: seq<Pair>)
    requires |pieces| == |pairs| && DistinctKeys(pairs)
    requires forall i :: 0 <= i < |pieces| ==> pieces[i] != "" && ParsePair(pieces[i]) == pairs[i]
    ensures ArgDict(pieces) == pairs
  {
    hide ParsePair, Put;
    if pieces != [] {
      var n := |pieces| - 1;
      ArgDictOf(pieces[..n], pairs[..n]);
      PutFresh(pairs[..n], pairs[n]);
      assert pairs == pairs[..n] + [pairs[n]];
    }
  }

  lemma {:induction false} PrintedAt(args: seq<Arg>, i: nat)
    requires i < |args|
    ensures |Printed(args)| == |args| && Printed(args)[i] == PrintArg(args[i])
  {
    if |args| > 1 {
      PrintedAt(args[1..], if i == 0 then 0 else i - 1);
    }
  }

  // ---- Printed arguments ----------------------------------------------------------------

  /** Arguments with distinct names that are not cut by the separators. */
  ghost predicate Separable(fields: Fields, names: seq<string>, args: seq<Arg>) {
    && AreArgsOf(fields, names, args)
    && (forall i, j :: 0 <= i < j < |names| ==> names[i] != names[j])
    && forall i :: 0 <= i < |args| ==> ',' !in PrintValue(args[i].value)
  }

  function PairsOf(names: seq<string>, args: seq<Arg>): (pairs: seq<Pair>)
    requires |names| == |args|
    ensures |pairs| == |names|
    ensures forall i :: 0 <= i < |names| ==> pairs[i] == Pair(names[i], Read(args[i].value))
  {
    seq(|names|, i requires 0 <= i < |names| => Pair(names[i], Read(args[i].value)))
  }

  lemma PrintedArg(fields: Fields, name: string, arg: Arg, first: bool)
    requires HasFieldNames(fields) && IsArgOf(fields, name, arg) && ',' !in PrintValue(arg.value)
    ensures ',' !in PrintArg(arg)
    ensures Piece(PrintArg(arg), first) != "" && ParsePair(Piece(PrintArg(arg), first)) == Pair(name, Read(arg.value))
  {
    hide PrintValue, PrintKey, ParsePair, IsIdentifier;
    NameIsIdentifier(fields, name, arg);
    IdentifierChars(name);
    PieceReadsBack(name, PrintValue(arg.value));
  }

  lemma DictOfPrinted(fields: Fields, names: seq<string>, args: seq<Arg>)
    requires HasFieldNames(fields) && Separable(fields, names, args) && args != []
    ensures ArgDict(Split(Join(Printed(args)), ',')) == PairsOf(names, args)
  {
    hide HasFieldNames, IsArgOf, PrintArg, PrintValue, Read, ParsePair, Piece, Join, Split, ArgDict, Printed;
    var items := Printed(args);
    PrintedAt(args, 0);
    forall i | 0 <= i < |args| ensures items[i] == PrintArg(args[i]) && ',' !in items[i] {
      PrintedAt(args, i);
      PrintedArg(fields, names[i], args[i], true);
    }
    SplitJoin(items);
    var pieces := Split(Join(items), ',');
    forall i | 0 <= i < |args| ensures pieces[i] != "" && ParsePair(pieces[i]) == PairsOf(names, args)[i] {
      PrintedArg(fields, names[i], args[i], i == 0);
    }
    ArgDictOf(pieces, PairsOf(names, args));
  }

  lemma {:induction false} ParseArgsExactly(read: Reader, fields: Fields, d: seq<Pair>, args: seq<Arg>)
    requires |d| == |args|
    ensures ParseArgs(read, fields, d) == Ok(args) <==>
            forall i :: 0 <= i < |d| ==> ParseArg(read, fields, d[i].key, d[i].text) == Ok(args[i])
  {
    hide ParseArg;
    if d != [] {
      var n := |d| - 1;
      ParseArgsExactly(read, fields, d[..n], args[..n]);
      assert args == args[..n] + [args[n]];
      if ParseArgs(read, fields, d).Ok? {
        ParsedEach(read, fields, d);
      }
    }
  }

  ghost predicate AllReadable(fields: Fields, names: seq<string>, args: seq<Arg>)
    requires AreArgsOf(fields, names, args)
  {
    forall i :: 0 <= i < |args| ==> IsReadable(fields[RAW_PREFIX + names[i]], args[i].value)
  }

  lemma ArgsReadBack(read: Reader, fields: Fields, names: seq<string>, args: seq<Arg>)
    requires ReadsPrinted(read)
    requires AreArgsOf(fields, names, args)
    ensures ParseArgs(read, fields, PairsOf(names, args)) == Ok(args) <==> AllReadable(fields, names, args)
  {
    hide ParseArg, Read, IsReadable, ParseArgs, IsArgOf;
    var pairs := PairsOf(names, args);
    ParseArgsExactly(read, fields, pairs, args);
    forall i | 0 <= i < |args|
      ensures ParseArg(read, fields, pairs[i].key, pairs[i].text) == Ok(args[i]) <==>
              (assert IsArgOf(fields, names[i], args[i]); ArgField(fields, names[i], args[i]);
               IsReadable(fields[RAW_PREFIX + names[i]], args[i].value))
    {
      ArgReadsBack(read, fields, names[i], args[i]);
    }
  }

  lemma ArgField(fields: Fields, name: string, arg: Arg)
    requires IsArgOf(fields, name, arg)
    ensures RAW_PREFIX + name in fields
  {
  }

  // ---- What the parser returns -----------------------------------------------------------

  lemma {:induction false} SplitPieces(s: string, c: char)
    ensures forall i :: 0 <= i < |Split(s, c)| ==> c !in Split(s, c)[i]
  {
    if s != "" {
      SplitPieces(s[1..], c);
    }
  }

  lemma StripKeepsOut(s: string, c: char)
    requires c !in s
    ensures c !in Strip(s)
  {
    StripEnds(s);
  }

  lemma StripCharKeepsOut(s: string, quote: char, c: char)
    requires c !in s
    ensures c !in StripChar(s, quote)
  {
    LStripCharEnd(s, quote);
    RStripCharEnd(LStripChar(s, quote), quote);
  }

  lemma PairWithoutComma(piece: string)
    requires ',' !in piece
    ensures ',' !in ParsePair(piece).text
  {
    hide Strip, StripChar, Head;
    var text := Tail(piece, '=');
    assert ',' !in text;
    StripKeepsOut(text, ',');
    StripCharKeepsOut(Strip(text), '\'', ',');
  }

  lemma {:induction false} PutKeepsTexts(d: seq<Pair>, p: Pair)
    requires ',' !in p.text && forall i :: 0 <= i < |d| ==> ',' !in d[i].text
    ensures forall i :: 0 <= i < |Put(d, p)| ==> ',' !in Put(d, p)[i].text
  {
    if d != [] && d[0].key != p.key {
      PutKeepsTexts(d[1..], p);
    }
  }

  lemma {:induction false} DictWithoutComma(pieces: seq<string>)
    requires forall i :: 0 <= i < |pieces| ==> ',' !in pieces[i]
    ensures forall i :: 0 <= i < |ArgDict(pieces)| ==> ',' !in ArgDict(pieces)[i].text
  {
    hide ParsePair, Put;
    if pieces != [] {
      var n := |pieces| - 1;
      DictWithoutComma(pieces[..n]);
      PairWithoutComma(pieces[n]);
      PutKeepsTexts(ArgDict(pieces[..n]), ParsePair(pieces[n]));
    }
  }

  lemma QuotedWithoutComma(s: string)
    requires ',' !in s
    ensures ',' !in Quoted(s)
  {
  }

  lemma SafeValue(v: Value)
    requires v.Temperature? || v.Duration? || v.Number?
    ensures ',' !in PrintValue(v)
  {
    hide PrintHundredths, PrintDuration, Strip, StripChar;
    if v.Temperature? {
      SafeTemperature(RoundedHundredths(v.amount), v.unit);
    } else if v.Duration? {
      SafeDuration(Printable(v.seconds));
    } else {
      SafeHundredths(RoundedHundredths(v.number));
    }
    SafeStrip(PrintValue(v));
  }

  lemma NumberWithoutComma(key: string, text: string)
    requires ',' !in text
    ensures ',' !in PrintValue(ParseNumber(key, text).value)
  {
    hide ParseFloat;
    var v := ParseNumber(key, text).value;
    if v.Number? {
      SafeValue(v);
    }
  }

  lemma QuantityWithoutComma(read: Reader, unit: UnitType, key: string, text: string)
    requires ParseQuantity(read, unit, key, text).Ok? && ',' !in text
    ensures ',' !in PrintValue(ParseQuantity(read, unit, key, text).value.value)
  {
    hide PrintValue, ParseNumber, ParseSeconds, ParseDegrees;
    ParsedQuantity(read, unit, key, text);
    if unit.NoUnit? {
      NumberWithoutComma(key, text);
    } else {
      SafeValue(ParseQuantity(read, unit, key, text).value.value);
    }
  }

  lemma ArgWithoutComma(read: Reader, fields: Fields, key: string, text: string)
    requires ParseArg(read, fields, key, text).Ok? && ',' !in text
    ensures ',' !in PrintValue(ParseArg(read, fields, key, text).value.value)
  {
    hide ParseQuantity, Quoted;
    if "$" <= text {
      assert "$" + text[1..] == text;
      QuotedWithoutComma(text);
    } else if fields[RAW_PREFIX + key].isLink {
      QuotedWithoutComma(text);
    } else {
      QuantityWithoutComma(read, fields[RAW_PREFIX + key].unit, key, text);
    }
  }

  lemma AcceptedSeparable(read: Reader, fields: Fields, d: seq<Pair>, args: seq<Arg>) returns (names: seq<string>)
    requires ParseArgs(read, fields, d) == Ok(args) && DistinctKeys(d)
    requires forall i :: 0 <= i < |d| ==> ',' !in d[i].text
    ensures Separable(fields, names, args)
  {
    hide ParseArg, ParseArgs, PrintValue;
    ParsedEach(read, fields, d);
    names := NamesOf(read, fields, d, args);
    forall i | 0 <= i < |args| ensures ',' !in PrintValue(args[i].value) {
      ArgWithoutComma(read, fields, d[i].key, d[i].text);
    }
  }

  // ---- Whole lines --------------------------------------------------------------------------

  /** The arguments that survive a round trip. */
  ghost predicate AreWellFormed(fields: Fields, args: seq<Arg>) {
    && (forall i :: 0 <= i < |args| ==> IsWellFormed(fields, args[i]))
    && (forall i, j :: 0 <= i < j < |args| ==> PrintKey(args[i].key) != PrintKey(args[j].key))
    && BaseKeys(fields.Keys) <= BaseKeys(ArgKeys(args))
  }

  ghost predicate IsWellFormed(fields: Fields, arg: Arg) {
    var name := PrintKey(arg.key);
    && IsArgOf(fields, name, arg)
    && ',' !in PrintValue(arg.value)
    && IsReadable(fields[RAW_PREFIX + name], arg.value)
  }

  ghost predicate WellFormed(schema: Schema, d: Instruction) {
    match d
    case Comment(text) => text == "" || !IsSpace(text[|text| - 1])
    case Instruction(opcode, args) => opcode in schema && AreWellFormed(schema[opcode], args)
  }

  lemma SeparableNames(fields: Fields, names: seq<string>, args: seq<Arg>)
    requires HasFieldNames(fields) && Separable(fields, names, args)
    ensures forall i :: 0 <= i < |args| ==> names[i] == PrintKey(args[i].key)
    ensures AreWellFormed(fields, args) <==>
            AllReadable(fields, names, args) && BaseKeys(fields.Keys) <= BaseKeys(ArgKeys(args))
  {
    hide HasFieldNames, PrintKey, PrintValue, IsReadable, BaseKeys, ArgKeys;
    forall i | 0 <= i < |args| ensures names[i] == PrintKey(args[i].key) {
      NameIsIdentifier(fields, names[i], args[i]);
    }
    if AreWellFormed(fields, args) {
      forall i | 0 <= i < |args| ensures IsReadable(fields[RAW_PREFIX + names[i]], args[i].value) {
        assert IsWellFormed(fields, args[i]);
      }
    }
    if AllReadable(fields, names, args) {
      forall i | 0 <= i < |args| ensures IsWellFormed(fields, args[i]) {
        assert IsArgOf(fields, names[i], args[i]);
      }
    }
  }

  /** Printed arguments are cut into the pairs of their names and texts. */
  lemma LinePieces(read: Reader, schema: Schema, opcode: string, names: seq<string>, args: seq<Arg>)
    requires IsSchema(schema) && opcode in schema && Separable(schema[opcode], names, args)
    ensures FromLine(read, schema, ToLine(Instruction(opcode, args))) ==
            ParseInstruction(read, schema[opcode], opcode, PairsOf(names, args))
  {
    hide Separable, ParseInstruction, Printed, Join;
    var line := ToLine(Instruction(opcode, args));
    IdentifierChars(opcode);
    if args == [] {
      HeadOfAll(opcode, ' ');
      EmptyDict(schema[opcode], names, args);
    } else {
      var text := Join(Printed(args));
      assert line == opcode + [' '] + text;
      HeadTail(opcode, ' ', text);
      DictOfPrinted(schema[opcode], names, args);
    }
    NotComment(line);
  }

  lemma NotComment(line: string)
    requires line != "" && !IsSpace(line[0]) && line[0] != '#'
    ensures !IsComment(line)
  {
  }

  lemma EmptyDict(fields: Fields, names: seq<string>, args: seq<Arg>)
    requires Separable(fields, names, args) && args == []
    ensures ArgDict(Split("", ',')) == PairsOf(names, args)
  {
    assert Split("", ',') == [""];
  }

  lemma InstructionExactly(read: Reader, fields: Fields, opcode: string, names: seq<string>, args: seq<Arg>)
    requires ReadsPrinted(read)
    requires HasFieldNames(fields) && Separable(fields, names, args)
    ensures ParseInstruction(read, fields, opcode, PairsOf(names, args)) == Ok(Instruction(opcode, args)) <==>
            AreWellFormed(fields, args)
  {
    hide ParseArgs, PairsOf, AreWellFormed, AllReadable, BaseKeys, ArgKeys, HasFieldNames;
    ArgsReadBack(read, fields, names, args);
    SeparableNames(fields, names, args);
    NothingMissing(BaseKeys(fields.Keys), BaseKeys(ArgKeys(args)));
  }

  lemma NothingMissing(needed: set<string>, given: set<string>)
    ensures needed - given == {} <==> needed <= given
  {
    if needed - given == {} {
      forall name | name in needed ensures name in given {
        assert name !in needed - given;
      }
    }
  }

  /** An instruction that some line is parsed to. */
  lemma ParsedSeparable(read: Reader, schema: Schema, line: string, opcode: string, args: seq<Arg>)
    returns (names: seq<string>)
    ensures FromLine(read, schema, line) == Ok(Instruction(opcode, args)) ==>
              opcode in schema && Separable(schema[opcode], names, args)
  {
    hide Split, ArgDict, ParseInstruction, Separable, Head, Tail, ParseArgs;
    names := [];
    if FromLine(read, schema, line) == Ok(Instruction(opcode, args)) {
      var pieces := Split(Tail(line, ' '), ',');
      var word := Head(line, ' ');
      AcceptedParts(read, schema[word], word, ArgDict(pieces));
      SplitPieces(Tail(line, ' '), ',');
      DictWithoutComma(pieces);
      ArgDictDistinct(pieces);
      names := AcceptedSeparable(read, schema[opcode], ArgDict(pieces), args);
    }
  }

  lemma {:induction false} CommentKept(text: string)
    ensures var r := RStrip("#" + text); r != "" && r[0] == '#' && LStrip(r) == r
  {
    var line := "#" + text;
    if text != "" && IsSpace(text[|text| - 1]) {
      assert line[..|line| - 1] == "#" + text[..|text| - 1];
      CommentKept(text[..|text| - 1]);
    }
  }

  lemma MarkedIsComment(text: string)
    ensures IsComment("#" + text)
  {
    assert ("#" + text)[0] == '#';
  }

  lemma StripsBehind(text: string)
    ensures Strip("#" + text) == RStrip("#" + text)
  {
    hide RStrip, LStrip;
    CommentKept(text);
  }

  lemma EndsVisibly(s: string, c: char)
    requires s != "" && c == s[|s| - 1]
    ensures RStrip(s) == s <==> !IsSpace(c)
  {
    hide RStrip, IsSpace;
    RStripRemovesSpaces(s);
    KeptUnlessSpace(s);
  }

  lemma CommentStripped(text: string)
    ensures Strip("#" + text) == "#" + text <==> text == "" || !IsSpace(text[|text| - 1])
  {
    hide Strip, RStrip, IsSpace;
    StripsBehind(text);
    if text == "" {
      HashStays();
      assert "#" + text == "#";
    } else {
      EndsVisibly("#" + text, text[|text| - 1]);
    }
  }

  lemma HashStays()
    ensures RStrip("#") == "#"
  {
  }

  lemma CommentBehindMark(text: string)
    ensures Strip("#" + text) == "#" + DropFirst(Strip("#" + text))
  {
    hide Strip, RStrip, LStrip;
    StripsBehind(text);
    CommentKept(text);
    var r := RStrip("#" + text);
    assert r == "#" + r[1..];
  }

  lemma KeptUnlessSpace(s: string)
    ensures s != "" && !IsSpace(s[|s| - 1]) ==> RStrip(s) == s
  {
  }

  lemma CommentReadsBack(read: Reader, schema: Schema, text: string)
    ensures FromLine(read, schema, ToLine(Comment(text))) == Ok(Comment(text)) <==>
            text == "" || !IsSpace(text[|text| - 1])
  {
    hide Strip, IsComment, DropFirst;
    MarkedIsComment(text);
    CommentStripped(text);
    CommentBehindMark(text);
    var line := "#" + text;
    assert DropFirst(line) == text by { Dropped(text); }
  }

  lemma Dropped(text: string)
    ensures DropFirst("#" + text) == text
  {
  }

  lemma WellFormedSeparable(fields: Fields, args: seq<Arg>) returns (names: seq<string>)
    requires AreWellFormed(fields, args)
    ensures Separable(fields, names, args)
  {
    hide PrintKey, PrintValue, IsReadable, IsArgOf;
    names := seq(|args|, i requires 0 <= i < |args| => PrintKey(args[i].key));
    forall i | 0 <= i < |args|
      ensures IsArgOf(fields, names[i], args[i]) && ',' !in PrintValue(args[i].value)
    {
      assert IsWellFormed(fields, args[i]);
    }
  }

  lemma InstructionReadsBack(read: Reader, schema: Schema, opcode: string, args: seq<Arg>)
    requires ReadsPrinted(read)
    requires IsSchema(schema)
    ensures FromLine(read, schema, ToLine(Instruction(opcode, args))) == Ok(Instruction(opcode, args)) <==>
            opcode in schema && AreWellFormed(schema[opcode], args)
  {
    hide FromLine, ToLine, ParseInstruction, AreWellFormed, Separable, PairsOf;
    var d := Instruction(opcode, args);
    if FromLine(read, schema, ToLine(d)) == Ok(d) {
      var names := ParsedSeparable(read, schema, ToLine(d), opcode, args);
      LinePieces(read, schema, opcode, names, args);
      InstructionExactly(read, schema[opcode], opcode, names, args);
    }
    if opcode in schema && AreWellFormed(schema[opcode], args) {
      var names := WellFormedSeparable(schema[opcode], args);
      LinePieces(read, schema, opcode, names, args);
      InstructionExactly(read, schema[opcode], opcode, names, args);
    }
  }

  /** `from_line(to_line(d)) == d` exactly for the well-formed instructions. */
  lemma RoundTripExactly(read: Reader, schema: Schema, d: Instruction)
    requires ReadsPrinted(read) && IsInstruction(d)
    requires IsSchema(schema)
    ensures FromLine(read, schema, ToLine(d)) == Ok(d) <==> WellFormed(schema, d)
  {
    hide FromLine, ToLine, AreWellFormed;
    match d
    case Comment(text) => CommentReadsBack(read, schema, text);
    case Instruction(opcode, args) => InstructionReadsBack(read, schema, opcode, args);
  }
}
