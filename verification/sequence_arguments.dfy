/** Exactly the arguments that are read back from their printed form. */
module SequenceArguments {
  import opened Text
  import opened Wrappers
  import opened Numbers
  import opened NumbersRead
  import opened TimeUtils
  import opened Sequence
  import opened SequenceAccepts
  import opened SequenceValues

  /** What the parser makes of a printed value. */
  function Read(v: Value): string {
    StripChar(Strip(PrintValue(v)), '\'')
  }

  predicate IsHundredths(d: Decimal) {
    d == Hundredths(RoundedHundredths(d))
  }

  /** A name keeps its outer whitespace when it contains a space, because then it is quoted. */
  predicate IsReadableName(s: string) {
    NoOuterChar(s, '\'') && (NoOuterSpace(s) || ' ' in s) && '=' !in s
  }

  predicate IsReadable(options: Options, v: Value) {
    match v
    case Variable(name) => IsReadableName("$" + name)
    case Link(id) => options.isLink && IsReadableName(id) && !("$" <= id)
    case Temperature(amount, unit) =>
      && !options.isLink && options.unit == (if IsDelta(unit) then DeltaCelsius else Celsius)
      && IsHundredths(amount) && RoundedHundredths(amount) >= 0
    case Duration(seconds) => !options.isLink && options.unit == Second && seconds >= 0
    case Number(d) => !options.isLink && options.unit == NoUnit && IsHundredths(d)
    case SpecialNumber => !options.isLink && options.unit == NoUnit
    case Plain(text) =>
      && !options.isLink && options.unit == NoUnit && ParseFloat(text).None?
      && NoOuterChar(text, '\'') && NoOuterSpace(text) && '=' !in text && !("$" <= text)
  }

  // ---- Variables and links ----------------------------------------------------------

  lemma ReadName(s: string)
    ensures StripChar(Strip(Quoted(s)), '\'') == s && '=' !in s <==> IsReadableName(s)
  {
    if ' ' in s {
      assert "'" + s + "'" == ['\''] + s + ['\''];
      StripQuotedExactly(s, '\'');
    } else {
      StripExactly(s, '\'');
    }
  }

  lemma ParsedVariable(read: Reader, fields: Fields, key: string, text: string, name: string)
    requires RAW_PREFIX + key in fields
    ensures ParseArg(read, fields, key, text) == Ok(Arg(VAR_PREFIX + key, Variable(name))) <==>
            '=' !in text && text == "$" + name
  {
    hide ParseNumber, ParseSeconds, ParseDegrees;
    if '=' !in text && !("$" <= text) && !fields[RAW_PREFIX + key].isLink {
      var unit := fields[RAW_PREFIX + key].unit;
      if ParseQuantity(read, unit, key, text).Ok? {
        ParsedQuantity(read, unit, key, text);
      }
    }
  }

  lemma ParsedLink(read: Reader, fields: Fields, key: string, text: string, id: string)
    requires RAW_PREFIX + key in fields
    ensures ParseArg(read, fields, key, text) == Ok(Arg(RAW_PREFIX + key, Link(id))) <==>
            fields[RAW_PREFIX + key].isLink && '=' !in text && !("$" <= text) && text == id
  {
    hide ParseNumber, ParseSeconds, ParseDegrees;
    if '=' !in text && !("$" <= text) && !fields[RAW_PREFIX + key].isLink {
      var unit := fields[RAW_PREFIX + key].unit;
      if ParseQuantity(read, unit, key, text).Ok? {
        ParsedQuantity(read, unit, key, text);
      }
    }
  }

  // ---- Other values -----------------------------------------------------------------

  lemma ParsedOther(read: Reader, fields: Fields, key: string, text: string, v: Value)
    requires RAW_PREFIX + key in fields && !v.Variable? && !v.Link?
    ensures ParseArg(read, fields, key, text) == Ok(Arg(RAW_PREFIX + key, v)) <==>
            && !fields[RAW_PREFIX + key].isLink && '=' !in text && !("$" <= text)
            && ParseQuantity(read, fields[RAW_PREFIX + key].unit, key, text) == Ok(Arg(RAW_PREFIX + key, v))
  {
    hide ParseQuantity;
  }

  /** A field reads a value of its own kind only. */
  lemma OtherKind(read: Reader, unit: UnitType, key: string, text: string, v: Value)
    requires !IsOfKind(unit, v)
    ensures ParseQuantity(read, unit, key, text) != Ok(Arg(RAW_PREFIX + key, v))
  {
    hide ParseNumber, ParseSeconds, ParseDegrees;
    if ParseQuantity(read, unit, key, text).Ok? {
      ParsedQuantity(read, unit, key, text);
    }
  }

  lemma ParsedNumber(key: string, text: string, number: Option<Float>)
    requires ParseFloat(text) == number
    ensures ParseNumber(key, text) == Arg(RAW_PREFIX + key, NumberOrText(number, text))
  {
    hide ParseFloat;
  }

  function NumberOrText(number: Option<Float>, text: string): Value {
    match number
    case None => Plain(text)
    case Some(NonFinite) => SpecialNumber
    case Some(Finite(d)) => Number(d)
  }

  lemma ParsedSeconds(read: Reader, key: string, text: string, seconds: int)
    requires Strip(text) == text && read(text) == Some(seconds)
    ensures ParseSeconds(read, key, text) == Ok(Arg(RAW_PREFIX + key, Duration(seconds)))
  {
  }

  lemma ParsedDegrees(isDelta: bool, key: string, text: string, v: Value)
    requires Strip(text) == text && v.Temperature?
    ensures ParseDegrees(isDelta, key, text) == Ok(Arg(RAW_PREFIX + key, v)) <==>
            IsDelta(v.unit) == isDelta && ParseTemperature(text) == Some(v)
  {
    hide ParseTemperature, Strip;
  }

  // ---- Every value --------------------------------------------------------------------

  lemma ReadSafe(v: Value)
    requires Safe(PrintValue(v))
    ensures Read(v) == PrintValue(v) && '=' !in Read(v) && !("$" <= Read(v)) && Strip(PrintValue(v)) == PrintValue(v)
  {
    SafeStrip(PrintValue(v));
  }

  lemma NumberReadsBack(read: Reader, fields: Fields, key: string, d: Decimal, h: int)
    requires RAW_PREFIX + key in fields && h == RoundedHundredths(d)
    ensures Read(Number(d)) == PrintHundredths(h)
    ensures ParseArg(read, fields, key, PrintHundredths(h)) == Ok(Arg(RAW_PREFIX + key, Number(d))) <==>
            !fields[RAW_PREFIX + key].isLink && fields[RAW_PREFIX + key].unit == NoUnit && d == Hundredths(h)
  {
    hide ParseArg, ParseFloat, ParseNumber, ParseSeconds, ParseDegrees, PrintHundredths, Hundredths;
    SafeHundredths(h);
    ReadSafe(Number(d));
    HundredthsRoundTrip(h);
    ParsedNumber(key, PrintHundredths(h), Some(Finite(Hundredths(h))));
    ReadKind(read, fields, key, PrintHundredths(h), Number(d));
  }

  /** A value that contains no marks is read as the unit of its field says. */
  lemma ReadKind(read: Reader, fields: Fields, key: string, text: string, v: Value)
    requires RAW_PREFIX + key in fields && !v.Variable? && !v.Link? && '=' !in text && !("$" <= text)
    ensures ParseArg(read, fields, key, text) == Ok(Arg(RAW_PREFIX + key, v)) <==>
            && !fields[RAW_PREFIX + key].isLink && IsOfKind(fields[RAW_PREFIX + key].unit, v)
            && ParseQuantity(read, fields[RAW_PREFIX + key].unit, key, text) == Ok(Arg(RAW_PREFIX + key, v))
  {
    hide ParseNumber, ParseSeconds, ParseDegrees;
    var unit := fields[RAW_PREFIX + key].unit;
    ParsedOther(read, fields, key, text, v);
    if !IsOfKind(unit, v) {
      OtherKind(read, unit, key, text, v);
    }
  }

  lemma ReadNan()
    ensures Read(SpecialNumber) == "nan" && '=' !in "nan" && !("$" <= "nan")
    ensures ParseFloat("nan") == Some(NonFinite)
  {
    hide Strip, StripChar, ParseFloat;
    NanValue();
    NanStripped();
    NanParsed();
  }

  lemma NanValue()
    ensures PrintValue(SpecialNumber) == "nan"
  {
  }

  lemma NanStripped()
    ensures StripChar(Strip("nan"), '\'') == "nan" && !("$" <= "nan")
  {
    StripNothing("nan");
    StripCharNothing("nan", '\'');
    assert "nan"[0] != '$';
  }

  lemma NanParsed()
    ensures ParseFloat("nan") == Some(NonFinite)
  {
    StripNothing("nan");
    assert Lower("nan") == "nan";
  }

  lemma SpecialReadsBack(read: Reader, fields: Fields, key: string)
    requires RAW_PREFIX + key in fields
    ensures Read(SpecialNumber) == "nan"
    ensures ParseArg(read, fields, key, "nan") == Ok(Arg(RAW_PREFIX + key, SpecialNumber)) <==>
            !fields[RAW_PREFIX + key].isLink && fields[RAW_PREFIX + key].unit == NoUnit
  {
    hide ParseArg, ParseFloat, ParseNumber, ParseSeconds, ParseDegrees, Read;
    ReadNan();
    ParsedNumber(key, "nan", Some(NonFinite));
    ReadKind(read, fields, key, "nan", SpecialNumber);
  }

  lemma ReadPlain(text: string)
    ensures Read(Plain(text)) == text <==> NoOuterSpace(text) && NoOuterChar(text, '\'')
  {
    StripExactly(text, '\'');
  }

  lemma PlainParsed(read: Reader, fields: Fields, key: string, found: string, text: string, number: Option<Float>)
    requires RAW_PREFIX + key in fields && ParseFloat(found) == number
    ensures ParseArg(read, fields, key, found) == Ok(Arg(RAW_PREFIX + key, Plain(text))) <==>
            && found == text && !fields[RAW_PREFIX + key].isLink && fields[RAW_PREFIX + key].unit == NoUnit
            && number.None? && '=' !in text && !("$" <= text)
  {
    hide ParseFloat, ParseSeconds, ParseDegrees;
    ParsedOther(read, fields, key, found, Plain(text));
    ParsedNumber(key, found, number);
    if fields[RAW_PREFIX + key].unit != NoUnit {
      OtherKind(read, fields[RAW_PREFIX + key].unit, key, found, Plain(text));
    }
  }

  /** Durations that are printed are read back. */
  ghost predicate ReadsPrinted(read: Reader) {
    forall n: nat :: read(PrintDuration(n)) == Some(n)
  }

  /** The reader of `time_utils`, as far as it is part of this model. */
  function ModelReader(): Reader {
    s => ParseDuration(s)
  }

  lemma ModelReaderReadsPrinted()
    ensures ReadsPrinted(ModelReader())
  {
    hide ParseDuration, PrintDuration;
    forall n: nat ensures ModelReader()(PrintDuration(n)) == Some(n) {
      DurationRoundTrip(n);
    }
  }

  function Printable(seconds: int): (n: nat) {
    if seconds < 0 then 0 else seconds
  }

  lemma ReadDuration(seconds: int)
    ensures Read(Duration(seconds)) == PrintDuration(Printable(seconds))
  {
    hide PrintDuration;
    SafeDuration(Printable(seconds));
    SafeStrip(PrintDuration(Printable(seconds)));
  }

  lemma ReadSeconds(read: Reader, key: string, n: nat)
    requires ReadsPrinted(read)
    ensures ParseSeconds(read, key, PrintDuration(n)) == Ok(Arg(RAW_PREFIX + key, Duration(n)))
    ensures '=' !in PrintDuration(n) && !("$" <= PrintDuration(n))
  {
    hide PrintDuration, ParseSeconds;
    SafeDuration(n);
    SafeStrip(PrintDuration(n));
    ParsedSeconds(read, key, PrintDuration(n), n);
  }

  lemma DurationReadsBack(read: Reader, fields: Fields, key: string, n: nat, seconds: int, text: string)
    requires RAW_PREFIX + key in fields && '=' !in text && !("$" <= text)
    ensures ParseSeconds(read, key, text) == Ok(Arg(RAW_PREFIX + key, Duration(n))) ==>
              (ParseArg(read, fields, key, text) == Ok(Arg(RAW_PREFIX + key, Duration(seconds))) <==>
               !fields[RAW_PREFIX + key].isLink && fields[RAW_PREFIX + key].unit == Second && seconds == n)
  {
    hide ParseArg, ParseNumber, ParseSeconds, ParseDegrees;
    ReadKind(read, fields, key, text, Duration(seconds));
  }

  lemma TemperatureReadsBack(read: Reader, fields: Fields, key: string, v: Value, h: int, text: string)
    requires RAW_PREFIX + key in fields && v.Temperature? && h == RoundedHundredths(v.amount)
    requires text == PrintHundredths(h) + UnitText(v.unit)
    ensures Read(v) == text
    ensures ParseArg(read, fields, key, text) == Ok(Arg(RAW_PREFIX + key, v)) <==>
            && !fields[RAW_PREFIX + key].isLink
            && fields[RAW_PREFIX + key].unit == (if IsDelta(v.unit) then DeltaCelsius else Celsius)
            && v.amount == Hundredths(h) && h >= 0
  {
    hide ParseArg, ParseTemperature, ParseNumber, ParseSeconds, ParseDegrees, PrintHundredths, Hundredths, Read, Strip;
    SafeTemperature(h, v.unit);
    ReadSafe(v);
    ReadTemperature(h, v.unit);
    ParsedDegrees(IsDelta(v.unit), key, text, v);
    ReadKind(read, fields, key, text, v);
  }

  lemma NameReadsBack(read: Reader, fields: Fields, key: string, v: Value)
    requires RAW_PREFIX + key in fields && (v.Variable? || v.Link?)
    ensures ParseArg(read, fields, key, Read(v)) ==
            Ok(Arg((if v.Variable? then VAR_PREFIX else RAW_PREFIX) + key, v)) <==>
            IsReadable(fields[RAW_PREFIX + key], v)
  {
    ReadName(Content(v));
    if v.Variable? {
      ParsedVariable(read, fields, key, Read(v), v.name);
    } else {
      ParsedLink(read, fields, key, Read(v), v.id);
    }
  }

  /** A raw argument is read back exactly if its value is readable. */
  lemma RawReadsBack(read: Reader, fields: Fields, name: string, v: Value)
    requires ReadsPrinted(read)
    requires RAW_PREFIX + name in fields && !v.Variable? && !v.Link?
    ensures ParseArg(read, fields, name, Read(v)) == Ok(Arg(RAW_PREFIX + name, v)) <==>
            IsReadable(fields[RAW_PREFIX + name], v)
  {
    hide ParseArg, ParseQuantity, ParseNumber, ParseSeconds, ParseDegrees, ParseFloat, PrintDuration,
      PrintHundredths, ReadsPrinted;
    if v.Temperature? {
      var h := RoundedHundredths(v.amount);
      TemperatureReadsBack(read, fields, name, v, h, PrintHundredths(h) + UnitText(v.unit));
    } else if v.Duration? {
      var n := Printable(v.seconds);
      ReadDuration(v.seconds);
      ReadSeconds(read, name, n);
      DurationReadsBack(read, fields, name, n, v.seconds, PrintDuration(n));
    } else if v.Number? {
      NumberReadsBack(read, fields, name, v.number, RoundedHundredths(v.number));
    } else if v.SpecialNumber? {
      SpecialReadsBack(read, fields, name);
    } else {
      ReadPlain(v.text);
      PlainParsed(read, fields, name, Read(v), v.text, ParseFloat(Read(v)));
    }
  }

  /** An argument is read back exactly if its value is readable. */
  lemma ArgReadsBack(read: Reader, fields: Fields, name: string, arg: Arg)
    requires ReadsPrinted(read)
    requires IsArgOf(fields, name, arg)
    ensures ParseArg(read, fields, name, Read(arg.value)) == Ok(arg) <==>
            IsReadable(fields[RAW_PREFIX + name], arg.value)
  {
    hide ParseArg, Read, IsReadable;
    if arg.value.Variable? || arg.value.Link? {
      NameReadsBack(read, fields, name, arg.value);
    } else {
      RawReadsBack(read, fields, name, arg.value);
    }
  }
}
