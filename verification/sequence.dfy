/** Converts Sequence instructions from and to the line format. */
module Sequence {
  import opened Text
  import opened Wrappers
  import opened Numbers
  import opened TimeUtils

  const RAW_PREFIX := "__raw__"
  const VAR_PREFIX := "__var__"
  const COMMENT := "COMMENT"

  // ---- Schema -----------------------------------------------------------------------

  datatype UnitType = NoUnit | Celsius | DeltaCelsius | Second | OtherUnit

  /** The options of an argument field. */
  datatype Options = Options(isLink: bool, unit: UnitType)

  type Fields = map<string, Options>

  /** The fields of every opcode. */
  type Schema = map<string, Fields>

  // ---- Instructions -------------------------------------------------------------------

  datatype TempUnit = DegC | DegF | DeltaDegC | DeltaDegF

  datatype Value =
    | Variable(name: string)
    | Link(id: string)
    | Temperature(amount: Decimal, unit: TempUnit)
    | Duration(seconds: int)
    | Number(number: Decimal)
    | SpecialNumber                // infinite, or not a number
    | Plain(text: string)

  datatype Arg = Arg(key: string, value: Value)

  /** `{opcode: args}`; the opcode COMMENT is always a comment. */
  datatype Instruction = Comment(text: string) | Instruction(opcode: string, args: seq<Arg>)

  predicate IsInstruction(d: Instruction) {
    d.Comment? || d.opcode != COMMENT
  }

  function BaseKey(key: string): string {
    RemovePrefix(RemovePrefix(key, RAW_PREFIX), VAR_PREFIX)
  }

  function BaseKeys(keys: set<string>): set<string> {
    set k | k in keys :: BaseKey(k)
  }

  function ArgKeys(args: seq<Arg>): set<string> {
    set i | 0 <= i < |args| :: args[i].key
  }

  // ---- Printing -------------------------------------------------------------------------

  function Quoted(s: string): string {
    if ' ' in s then "'" + s + "'" else s
  }

  function UnitText(unit: TempUnit): string {
    match unit
    case DegC => "C"
    case DegF => "F"
    case DeltaDegC => "dC"
    case DeltaDegF => "dF"
  }

  /** A negative duration has no whole unit, and is printed like none. */
  function PrintSeconds(seconds: int): string {
    PrintDuration(if seconds < 0 then 0 else seconds)
  }

  /** The text of a value, before quoting. */
  function Content(v: Value): string {
    match v
    case Variable(name) => "$" + name
    case Link(id) => id
    case Temperature(amount, unit) => PrintHundredths(RoundedHundredths(amount)) + UnitText(unit)
    case Duration(seconds) => PrintSeconds(seconds)
    case Number(d) => PrintHundredths(RoundedHundredths(d))
    case SpecialNumber => "nan"
    case Plain(text) => text
  }

  function PrintValue(v: Value): string {
    if v.Variable? || v.Link? then Quoted(Content(v)) else Content(v)
  }

  function PrintKey(key: string): string {
    if VAR_PREFIX <= key then RemovePrefix(key, VAR_PREFIX) else RemovePrefix(key, RAW_PREFIX)
  }

  function PrintArg(arg: Arg): string {
    PrintKey(arg.key) + "=" + PrintValue(arg.value)
  }

  /** `', '.join(items)` */
  function Join(items: seq<string>): string {
    if items == [] then "" else if |items| == 1 then items[0] else items[0] + ", " + Join(items[1..])
  }

  function Printed(args: seq<Arg>): seq<string> {
    if args == [] then [] else [PrintArg(args[0])] + Printed(args[1..])
  }

  function ToLine(d: Instruction): string {
    match d
    case Comment(text) => "#" + text
    case Instruction(opcode, args) => if args == [] then opcode else opcode + " " + Join(Printed(args))
  }

  method PrintArgs(args: seq<Arg>) returns (items: seq<string>)
    ensures items == Printed(args)
  {
    items := [];
    for i := 0 to |args|
      invariant items + Printed(args[i..]) == Printed(args)
    {
      assert args[i..][1..] == args[i + 1..];
      Assoc(items, [PrintArg(args[i])], Printed(args[i + 1..]));
      items := items + [PrintArg(args[i])];
    }
  }

  method PrintLine(d: Instruction) returns (line: string)
    ensures line == ToLine(d)
  {
    if d.Comment? {
      return "#" + d.text;
    }
    if d.args == [] {
      return d.opcode;
    }
    var items := PrintArgs(d.args);
    line := d.opcode + " " + Join(items);
  }

  // ---- Parsing --------------------------------------------------------------------------

  /** How durations are read, in seconds. */
  type Reader = string -> Option<int>

  datatype Error =
    | InvalidInstruction(name: string)
    | MissingSeparator(key: string)
    | InvalidArgument(key: string)
    | InvalidTemperature(key: string)
    | DeltaMismatch(key: string)
    | InvalidDuration(key: string)
    | NotImplemented(key: string)
    | MissingArguments(names: set<string>)

  function ParseUnit(s: string): Option<TempUnit> {
    if s == "C" then Some(DegC) else if s == "F" then Some(DegF)
    else if s == "dC" then Some(DeltaDegC) else if s == "dF" then Some(DeltaDegF)
    else None
  }

  /** The number that `\d+\.?\d*` matches at the start of `s`. */
  function LeadingNumber(s: string): (r: string)
    ensures |r| <= |s|
  {
    var whole := LeadingDigits(s);
    if whole == "" then ""
    else if |whole| < |s| && s[|whole|] == '.' then whole + "." + LeadingDigits(s[|whole| + 1..])
    else whole
  }

  /** A decimal value followed by a unit. */
  function ParseTemperature(s: string): (r: Option<Value>)
    ensures r.Some? ==> r.value.Temperature?
  {
    var number := LeadingNumber(s);
    if number == "" then None
    else
      var amount, unit := ParseFloat(number), ParseUnit(LStrip(s[|number|..]));
      if amount.None? || amount.value.NonFinite? || unit.None? then None
      else Some(Temperature(amount.value.d, unit.value))
  }

  predicate IsDelta(unit: TempUnit) {
    unit.DeltaDegC? || unit.DeltaDegF?
  }

  function ParseArg(read: Reader, fields: Fields, key: string, text: string): Result<Arg, Error> {
    var rawKey := RAW_PREFIX + key;
    if '=' in text then Err(MissingSeparator(key))
    else if rawKey !in fields then Err(InvalidArgument(key))
    else if "$" <= text then Ok(Arg(VAR_PREFIX + key, Variable(text[1..])))
    else if fields[rawKey].isLink then Ok(Arg(rawKey, Link(text)))
    else ParseQuantity(read, fields[rawKey].unit, key, text)
  }

  function ParseNumber(key: string, text: string): Arg {
    var number := ParseFloat(text);
    Arg(RAW_PREFIX + key,
        if number.None? then Plain(text)
        else if number.value.NonFinite? then SpecialNumber else Number(number.value.d))
  }

  function ParseSeconds(read: Reader, key: string, text: string): Result<Arg, Error> {
    var seconds := read(Strip(text));
    if seconds.None? then Err(InvalidDuration(key)) else Ok(Arg(RAW_PREFIX + key, Duration(seconds.value)))
  }

  function ParseDegrees(isDelta: bool, key: string, text: string): Result<Arg, Error> {
    var temperature := ParseTemperature(Strip(text));
    if temperature.None? then Err(InvalidTemperature(key))
    else if isDelta != IsDelta(temperature.value.unit) then Err(DeltaMismatch(key))
    else Ok(Arg(RAW_PREFIX + key, temperature.value))
  }

  function ParseQuantity(read: Reader, unit: UnitType, key: string, text: string): Result<Arg, Error> {
    match unit
    case NoUnit => Ok(ParseNumber(key, text))
    case Celsius => ParseDegrees(false, key, text)
    case DeltaCelsius => ParseDegrees(true, key, text)
    case Second => ParseSeconds(read, key, text)
    case OtherUnit => Err(NotImplemented(key))
  }

  datatype Pair = Pair(key: string, text: string)

  /** `d[key] = text` for a dict in insertion order. */
  function Put(d: seq<Pair>, p: Pair): seq<Pair> {
    if d == [] then [p]
    else if d[0].key == p.key then [p] + d[1..]
    else [d[0]] + Put(d[1..], p)
  }

  /** `key=value`, with spaces stripped from both and quotes from the value. */
  function ParsePair(piece: string): Pair {
    Pair(Strip(Head(piece, '=')), StripChar(Strip(Tail(piece, '=')), '\''))
  }

  function ArgDict(pieces: seq<string>): seq<Pair> {
    if pieces == [] then []
    else
      var last := pieces[|pieces| - 1];
      var d := ArgDict(pieces[..|pieces| - 1]);
      if last == "" then d else Put(d, ParsePair(last))
  }

  function ParseArgs(read: Reader, fields: Fields, d: seq<Pair>): Result<seq<Arg>, Error> {
    if d == [] then Ok([])
    else
      var earlier := ParseArgs(read, fields, d[..|d| - 1]);
      if earlier.Err? then earlier
      else
        var last := ParseArg(read, fields, d[|d| - 1].key, d[|d| - 1].text);
        if last.Err? then Err(last.error) else Ok(earlier.value + [last.value])
  }

  function DropFirst(s: string): string {
    if s == "" then "" else s[1..]
  }

  function ParseInstruction(read: Reader, fields: Fields, opcode: string, d: seq<Pair>): Result<Instruction, Error> {
    var parsed := ParseArgs(read, fields, d);
    if parsed.Err? then Err(parsed.error)
    else
      var missing := BaseKeys(fields.Keys) - BaseKeys(ArgKeys(parsed.value));
      if missing != {} then Err(MissingArguments(missing)) else Ok(Instruction(opcode, parsed.value))
  }

  predicate IsComment(line: string) {
    "#" <= LStrip(line)
  }

  function FromLine(read: Reader, schema: Schema, line: string): Result<Instruction, Error> {
    if IsComment(line) then Ok(Comment(DropFirst(Strip(line))))
    else
      var opcode, args := Head(line, ' '), Tail(line, ' ');
      if opcode !in schema then Err(InvalidInstruction(opcode))
      else ParseInstruction(read, schema[opcode], opcode, ArgDict(Split(args, ',')))
  }
}
