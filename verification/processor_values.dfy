/** Conversions of single values between controller and user formats. */
module ProcessorValues {
  import opened Data
  import opened Numbers
  import opened Wrappers

  // ---- Options ----------------------------------------------------------------------

  /** The options of a protobuf field; names are given for unit and object types. */
  datatype Options = Options(
    ignored: bool, readonly: bool, stored: bool, logged: bool,
    unit: Option<string>, objtype: Option<string>, scale: nat,
    hexed: bool, hexstr: bool, omitIfZero: bool, nullIfZero: bool)

  predicate HasNoConversion(o: Options) {
    o.unit.None? && o.objtype.None? && o.scale == 0 && !o.hexed && !o.hexstr
  }

  datatype Error =
    | BadKey(key: string)
    | UnknownField(name: string)
    | UnknownUnit(name: string)
    | MissingEntry(key: string)
    | BadValue(value: Value)

  // ---- Units ---------------------------------------------------------------------------

  /** From a system value to a value in some unit. */
  datatype Affine = Affine(factor: real, offset: real)

  /** The user's preferred unit, and all units that can be converted from and to the system unit. */
  datatype UnitInfo = UnitInfo(userUnit: string, known: map<string, Affine>)

  type Units = map<string, UnitInfo>

  ghost predicate IsUnits(units: Units) {
    forall id :: id in units ==>
                   && units[id].userUnit in units[id].known
                   && forall u :: u in units[id].known ==> units[id].known[u].factor != 0.0
  }

  function FromSystem(t: Affine, x: real): real {
    t.factor * x + t.offset
  }

  function ToSystem(t: Affine, y: real): real
    requires t.factor != 0.0
  {
    (y - t.offset) / t.factor
  }

  lemma Divide(a: real, b: real)
    requires b != 0.0
    ensures (b * a) / b == a && b * (a / b) == a
  {
  }

  /** A known unit is invertible. */
  lemma UnitRoundTrip(t: Affine, x: real)
    requires t.factor != 0.0
    ensures ToSystem(t, FromSystem(t, x)) == x && FromSystem(t, ToSystem(t, x)) == x
  {
    Divide(x, t.factor);
    Divide(x - t.offset, t.factor);
    assert FromSystem(t, x) - t.offset == t.factor * x;
  }

  function AsReal(v: Value): Option<real> {
    match v
    case Int(i) => Some(i as real)
    case Real(r) => Some(r)
    case _ => None
  }

  // ---- Hexadecimal ----------------------------------------------------------------------

  function HexDigit(d: nat): char
    requires d < 16
  {
    if d < 10 then '0' + d as char else 'a' + (d - 10) as char
  }

  function HexValue(c: char): Option<nat> {
    if '0' <= c <= '9' then Some(c as int - '0' as int)
    else if 'a' <= c <= 'f' then Some(c as int - 'a' as int + 10)
    else if 'A' <= c <= 'F' then Some(c as int - 'A' as int + 10)
    else None
  }

  /** `unhexlify` */
  function HexToBytes(s: string): Option<seq<nat>> {
    if s == "" then Some([])
    else if |s| == 1 || HexValue(s[0]).None? || HexValue(s[1]).None? then None
    else
      var later := HexToBytes(s[2..]);
      if later.None? then None else Some([16 * HexValue(s[0]).value + HexValue(s[1]).value] + later.value)
  }

  /** `hexlify` */
  function BytesToHex(bytes: seq<nat>): string
    requires forall i :: 0 <= i < |bytes| ==> bytes[i] < 256
  {
    if bytes == [] then "" else [HexDigit(bytes[0] / 16), HexDigit(bytes[0] % 16)] + BytesToHex(bytes[1..])
  }

  /** `int.from_bytes(bytes, 'little')` */
  function FromLittle(bytes: seq<nat>): nat {
    if bytes == [] then 0 else bytes[0] + 256 * FromLittle(bytes[1..])
  }

  /** `i.to_bytes(n, 'little')` */
  function ToLittle(i: nat, n: nat): (bytes: seq<nat>)
    ensures |bytes| == n && forall k :: 0 <= k < n ==> bytes[k] < 256
    decreases n
  {
    if n == 0 then [] else [i % 256] + ToLittle(i / 256, n - 1)
  }

  /** `i` fits into `n` bytes. */
  predicate Fits(i: nat, n: nat)
    decreases n
  {
    if n == 0 then i == 0 else Fits(i / 256, n - 1)
  }

  lemma FitsEight(i: nat)
    ensures Fits(i, 8) <==> i < 0x1_0000_0000_0000_0000
  {
    var a, b := i / 256 / 256, i / 256 / 256 / 256 / 256;
    assert Fits(i, 8) == Fits(a, 6);
    assert Fits(a, 6) == Fits(b, 4);
    assert Fits(b, 4) == Fits(b / 256 / 256, 2);
    assert Fits(b / 256 / 256, 2) == (b / 256 / 256 / 256 / 256 == 0);
  }

  lemma {:induction false} LittleRoundTrip(i: nat, n: nat)
    requires Fits(i, n)
    ensures FromLittle(ToLittle(i, n)) == i
    decreases n
  {
    if n > 0 {
      LittleRoundTrip(i / 256, n - 1);
      assert ToLittle(i, n)[1..] == ToLittle(i / 256, n - 1);
    }
  }

  lemma HexDigitValue(d: nat)
    requires d < 16
    ensures HexValue(HexDigit(d)) == Some(d)
  {
  }

  lemma HexValueExactly(c: char, d: nat)
    ensures HexValue(c) == Some(d) <==> d < 16 && Lower([c]) == [HexDigit(d)]
    ensures HexValue(c).Some? ==> HexValue(c).value < 16
  {
    assert Lower([c])[0] == if 'A' <= c <= 'Z' then (c as int + 32) as char else c;
  }

  lemma LowerParts(s: string)
    requires |s| >= 2
    ensures Lower(s) == [Lower([s[0]])[0], Lower([s[1]])[0]] + Lower(s[2..])
  {
  }

  lemma TwoDigits(s: string, byte: nat)
    requires |s| >= 2 && byte < 256
    ensures Lower([s[0]]) == [HexDigit(byte / 16)] && Lower([s[1]]) == [HexDigit(byte % 16)] <==>
            && HexValue(s[0]).Some? && HexValue(s[1]).Some?
            && byte == 16 * HexValue(s[0]).value + HexValue(s[1]).value
  {
    hide Lower, HexValue, HexDigit;
    HexValueExactly(s[0], byte / 16);
    HexValueExactly(s[1], byte % 16);
  }

  /** Exactly the printed digits of the bytes are read as them, in either case. */
  lemma {:induction false} HexExactly(s: string, bytes: seq<nat>)
    requires forall i :: 0 <= i < |bytes| ==> bytes[i] < 256
    ensures HexToBytes(s) == Some(bytes) <==> Lower(s) == BytesToHex(bytes)
  {
    hide Lower, HexValue, HexDigit;
    LowerLength(s);
    if |s| >= 2 && bytes != [] {
      HexExactly(s[2..], bytes[1..]);
      LowerParts(s);
      LowerLength([s[0]]);
      LowerLength([s[1]]);
      TwoDigits(s, bytes[0]);
      assert bytes == [bytes[0]] + bytes[1..];
      SamePairs(Lower(s), BytesToHex(bytes));
    }
  }

  lemma LowerLength(s: string)
    ensures |Lower(s)| == |s|
  {
  }

  lemma SamePairs(a: string, b: string)
    requires |a| >= 2 && |b| >= 2
    ensures a == b <==> a[0] == b[0] && a[1] == b[1] && a[2..] == b[2..]
  {
    assert a == [a[0], a[1]] + a[2..] && b == [b[0], b[1]] + b[2..];
  }

  lemma {:induction false} BytesRoundTrip(bytes: seq<nat>)
    requires forall i :: 0 <= i < |bytes| ==> bytes[i] < 256
    ensures HexToBytes(BytesToHex(bytes)) == Some(bytes)
  {
    if bytes != [] {
      BytesRoundTrip(bytes[1..]);
      HexDigitValue(bytes[0] / 16);
      HexDigitValue(bytes[0] % 16);
      assert BytesToHex(bytes)[2..] == BytesToHex(bytes[1..]);
      assert bytes == [bytes[0]] + bytes[1..];
    }
  }

  /** `hex_to_int` */
  function HexToInt(s: string): Option<nat> {
    var bytes := HexToBytes(s);
    if bytes.None? then None else Some(FromLittle(bytes.value))
  }

  /** `int_to_hex`; `None` where it raises OverflowError. */
  function IntToHex(i: int): Option<string> {
    if 0 <= i < 0x1_0000_0000_0000_0000 then Some(BytesToHex(ToLittle(i, 8))) else None
  }

  lemma IntHexRoundTrip(i: int)
    requires IntToHex(i).Some?
    ensures HexToInt(IntToHex(i).value) == Some(i)
  {
    hide BytesToHex, ToLittle, HexToBytes, FromLittle, Fits;
    FitsEight(i);
    LittleRoundTrip(i, 8);
    BytesRoundTrip(ToLittle(i, 8));
  }

  // ---- Byte strings -----------------------------------------------------------------------

  predicate IsBytes(s: string) {
    forall i :: 0 <= i < |s| ==> s[i] as int < 256
  }

  function BytesOf(s: string): (bytes: seq<nat>)
    requires IsBytes(s)
    ensures |bytes| == |s| && forall i :: 0 <= i < |s| ==> bytes[i] == s[i] as int
    ensures forall i :: 0 <= i < |bytes| ==> bytes[i] < 256
  {
    seq(|s|, i requires 0 <= i < |s| => s[i] as int)
  }

  lemma {:induction false} BytesAreSmall(s: string)
    requires HexToBytes(s).Some?
    ensures forall i :: 0 <= i < |HexToBytes(s).value| ==> HexToBytes(s).value[i] < 256
  {
    if s != "" {
      BytesAreSmall(s[2..]);
    }
  }

  function TextOf(bytes: seq<nat>): (s: string)
    requires forall i :: 0 <= i < |bytes| ==> bytes[i] < 256
    ensures |s| == |bytes| && forall i :: 0 <= i < |s| ==> s[i] as int == bytes[i]
  {
    seq(|bytes|, i requires 0 <= i < |bytes| => bytes[i] as char)
  }

  /** `hex_to_b64`, with the bytes themselves for their base64 text. */
  function HexToText(s: string): Option<string> {
    var bytes := HexToBytes(s);
    if bytes.None? then None
    else
      BytesAreSmall(s);
      Some(TextOf(bytes.value))
  }

  /** `b64_to_hex` */
  function TextToHex(s: string): Option<string> {
    if IsBytes(s) then Some(BytesToHex(BytesOf(s))) else None
  }

  lemma TextHexRoundTrip(s: string)
    requires IsBytes(s)
    ensures HexToText(TextToHex(s).value) == Some(s)
  {
    hide BytesToHex, HexToBytes;
    BytesRoundTrip(BytesOf(s));
    assert TextOf(BytesOf(s)) == s;
  }

  // ---- Encoding -------------------------------------------------------------------------------

  /** The unit that is named in the data, or else the user's unit. */
  function UnitNamed(info: UnitInfo, custom: Option<string>): string {
    if custom.None? || custom.value == "" then info.userUnit else custom.value
  }

  /** `to_sys_value` */
  function ToSysValue(units: Units, id: string, custom: Option<string>, amount: Value): Result<Value, Error> {
    if id !in units then Err(UnknownUnit(id))
    else
      var name := UnitNamed(units[id], custom);
      if name !in units[id].known || units[id].known[name].factor == 0.0 then Err(UnknownUnit(name))
      else if AsReal(amount).None? then Err(BadValue(amount))
      else Ok(Real(ToSystem(units[id].known[name], AsReal(amount).value)))
  }

  /** `_encode_unit` */
  function EncodeUnit(units: Units, id: string, postfix: string, v: Value): Result<Value, Error> {
    if !v.Dict? then ToSysValue(units, id, Some(postfix), v)
    else if Get(v.entries, "value").None? then Err(MissingEntry("value"))
    else
      var unit := Get(v.entries, "unit");
      if unit.Some? && !unit.value.Str? && !unit.value.Null? then Err(BadValue(v))
      else
        var custom := if unit.Some? && unit.value.Str? then Some(unit.value.s) else None;
        ToSysValue(units, id, custom, Get(v.entries, "value").value)
  }

  function EncodeLink(v: Value): Result<Value, Error> {
    if !v.Dict? then Ok(v)
    else if Get(v.entries, "id").None? then Err(MissingEntry("id"))
    else Ok(Get(v.entries, "id").value)
  }

  function Times(x: real, scale: nat): real {
    x * scale as real
  }

  /** `value *= scale` */
  function Multiply(v: Value, scale: nat): Result<Value, Error> {
    match v
    case Int(i) => Ok(Int(i * scale))
    case Real(r) => Ok(Real(Times(r, scale)))
    case _ => Err(BadValue(v))
  }

  function EncodeHex(v: Value): Result<Value, Error> {
    if v.Str? && HexToInt(v.s).Some? then Ok(Int(HexToInt(v.s).value)) else Err(BadValue(v))
  }

  function EncodeHexText(v: Value): Result<Value, Error> {
    if v.Str? && HexToText(v.s).Some? then Ok(Str(HexToText(v.s).value)) else Err(BadValue(v))
  }

  /** `int(round(value))` */
  function Round(v: Value): Result<Value, Error> {
    match v
    case Int(_) => Ok(v)
    case Bool(b) => Ok(Int(if b then 1 else 0))
    case Real(r) => Ok(Int(RoundHalfEven(r)))
    case _ => Err(BadValue(v))
  }

  predicate IsNearestEven(x: real, n: int) {
    var error := n as real - x;
    -0.5 <= error <= 0.5 && (error == 0.5 || error == -0.5 ==> n % 2 == 0)
  }

  lemma NearestIsUnique(x: real, m: int, n: int)
    requires IsNearestEven(x, m) && IsNearestEven(x, n)
    ensures m == n
  {
    assert -1.0 <= (m - n) as real <= 1.0;
  }

  /** What is rounded to which integer. */
  lemma RoundExactly(v: Value, r: Value)
    ensures Round(v) == Ok(r) <==>
            r.Int? && match v
                      case Int(i) => r.i == i
                      case Bool(b) => r.i == (if b then 1 else 0)
                      case Real(x) => IsNearestEven(x, r.i)
                      case _ => false
  {
    hide RoundHalfEven;
    if v.Real? {
      RoundIsNearest(v.r);
      if r.Int? && IsNearestEven(v.r, r.i) {
        NearestIsUnique(v.r, r.i, RoundHalfEven(v.r));
      }
    }
  }

  /** What is missing in typed data. */
  lemma EntryIsMissing(units: Units, id: string, postfix: string, v: Value, key: string)
    ensures EncodeUnit(units, id, postfix, v) == Err(MissingEntry(key)) <==>
            key == "value" && v.Dict? && Get(v.entries, "value") == None
    ensures EncodeLink(v) == Err(MissingEntry(key)) <==> key == "id" && v.Dict? && Get(v.entries, "id") == None
  {
    hide Get, UnitNamed, ToSystem;
  }

  /** `_convert_value` of `pre_encode` */
  function EncodeValue(units: Units, o: Options, isInt: bool, postfix: string, v: Value): Result<Value, Error> {
    var amount :- if o.unit.Some? then EncodeUnit(units, o.unit.value, postfix, v) else Ok(v);
    var id :- if o.objtype.Some? then EncodeLink(amount) else Ok(amount);
    var scaled :- if o.scale > 0 then Multiply(id, o.scale) else Ok(id);
    var number :- if o.hexed then EncodeHex(scaled) else Ok(scaled);
    var text :- if o.hexstr then EncodeHexText(number) else Ok(number);
    if isInt then Round(text) else Ok(text)
  }

  /** A value after each conversion. */
  datatype Stages = Stages(amount: Value, id: Value, scaled: Value, number: Value, text: Value)

  /** The conversions of `pre_encode` in their order, each applied to what the one before gives. */
  predicate EncodesThrough(units: Units, o: Options, isInt: bool, postfix: string, v: Value, s: Stages, r: Value) {
    && (if o.unit.Some? then EncodeUnit(units, o.unit.value, postfix, v) == Ok(s.amount) else s.amount == v)
    && (if o.objtype.Some? then EncodeLink(s.amount) == Ok(s.id) else s.id == s.amount)
    && (if o.scale > 0 then Multiply(s.id, o.scale) == Ok(s.scaled) else s.scaled == s.id)
    && (if o.hexed then EncodeHex(s.scaled) == Ok(s.number) else s.number == s.scaled)
    && (if o.hexstr then EncodeHexText(s.number) == Ok(s.text) else s.text == s.number)
    && (if isInt then Round(s.text) == Ok(r) else r == s.text)
  }

  lemma ThroughIsEncoded(units: Units, o: Options, isInt: bool, postfix: string, v: Value, s: Stages, r: Value)
    requires EncodesThrough(units, o, isInt, postfix, v, s, r)
    ensures EncodeValue(units, o, isInt, postfix, v) == Ok(r)
  {
    hide EncodeUnit, EncodeLink, Multiply, EncodeHex, EncodeHexText, Round;
  }

  lemma EncodedStages(units: Units, o: Options, isInt: bool, postfix: string, v: Value) returns (s: Stages)
    requires EncodeValue(units, o, isInt, postfix, v).Ok?
    ensures EncodesThrough(units, o, isInt, postfix, v, s, EncodeValue(units, o, isInt, postfix, v).value)
  {
    hide EncodeUnit, EncodeLink, Multiply, EncodeHex, EncodeHexText, Round, IsZero;
    var amount := if o.unit.Some? then EncodeUnit(units, o.unit.value, postfix, v).value else v;
    var id := if o.objtype.Some? then EncodeLink(amount).value else amount;
    var scaled := if o.scale > 0 then Multiply(id, o.scale).value else id;
    var number := if o.hexed then EncodeHex(scaled).value else scaled;
    s := Stages(amount, id, scaled, number, if o.hexstr then EncodeHexText(number).value else number);
  }

  lemma EncodedInOrder(units: Units, o: Options, isInt: bool, postfix: string, v: Value, r: Value)
    ensures EncodeValue(units, o, isInt, postfix, v) == Ok(r) <==>
            exists s :: EncodesThrough(units, o, isInt, postfix, v, s, r)
  {
    hide EncodeValue, EncodesThrough;
    if EncodeValue(units, o, isInt, postfix, v) == Ok(r) {
      var s := EncodedStages(units, o, isInt, postfix, v);
    }
    if s :| EncodesThrough(units, o, isInt, postfix, v, s, r) {
      ThroughIsEncoded(units, o, isInt, postfix, v, s, r);
    }
  }

  /** Which units are unknown. */
  lemma UnitIsUnknown(units: Units, id: string, custom: Option<string>, amount: Value, name: string)
    ensures ToSysValue(units, id, custom, amount) == Err(UnknownUnit(name)) <==>
            if id !in units then name == id
            else
              && name == (if custom in {None, Some("")} then units[id].userUnit else custom.value)
              && (name in units[id].known ==> units[id].known[name].factor == 0.0)
    ensures ToUserValue(units, id, amount) == Err(UnknownUnit(name)) <==>
            name == id && (id !in units || units[id].userUnit !in units[id].known)
  {
    hide ToSystem, FromSystem;
  }

  // ---- Decoding -------------------------------------------------------------------------------

  /** `value == 0` */
  predicate IsZero(v: Value) {
    v == Int(0) || v == Real(0.0) || v == Bool(false)
  }

  /** `value /= scale` */
  function DivideBy(v: Value, scale: nat): Result<Value, Error>
    requires scale > 0
  {
    if AsReal(v).None? then Err(BadValue(v)) else Ok(Real(AsReal(v).value / scale as real))
  }

  /** `to_user_value` */
  function ToUserValue(units: Units, id: string, v: Value): Result<Value, Error> {
    if id !in units || units[id].userUnit !in units[id].known then Err(UnknownUnit(id))
    else if AsReal(v).None? then Err(BadValue(v))
    else Ok(Real(FromSystem(units[id].known[units[id].userUnit], AsReal(v).value)))
  }

  function UserUnit(units: Units, id: string): string {
    if id in units then units[id].userUnit else ""
  }

  function Quantity(unit: string, v: Value, readonly: bool): Value {
    Dict([Entry(BLOXTYPE, Str("Quantity")), Entry("unit", Str(unit)), Entry("value", v)]
         + if readonly then [Entry("readonly", Bool(true))] else [])
  }

  function LinkTo(objtype: string, id: Value): Value {
    Dict([Entry(BLOXTYPE, Str("Link")), Entry("type", Str(objtype)), Entry("id", id)])
  }

  /** Metadata is added to the key, or to the value. */
  datatype Metadata = Postfix | Typed

  function DecodeQuantity(units: Units, o: Options, metadata: Metadata, isNull: bool, v: Value): Result<Value, Error>
    requires o.unit.Some?
  {
    var amount :- if isNull then Ok(Null) else ToUserValue(units, o.unit.value, v);
    Ok(if metadata == Typed then Quantity(UserUnit(units, o.unit.value), amount, o.readonly) else amount)
  }

  function DecodeLink(o: Options, metadata: Metadata, isNull: bool, v: Value): Value
    requires o.objtype.Some?
  {
    var id := if isNull then Null else v;
    if metadata == Typed then LinkTo(o.objtype.value, id) else id
  }

  /** `int(value)` */
  function Truncate(v: Value): Result<int, Error> {
    match v
    case Int(i) => Ok(i)
    case Real(r) => Ok(if r >= 0.0 then r.Floor else -((-r).Floor))
    case Bool(b) => Ok(if b then 1 else 0)
    case _ => Err(BadValue(v))
  }

  /** The integer towards zero. */
  lemma TruncateExactly(v: Value, n: int)
    ensures Truncate(v) == Ok(n) <==>
            match v
            case Int(i) => n == i
            case Bool(b) => n == (if b then 1 else 0)
            case Real(x) =>
              if x < 0.0 then n <= 0 && x <= n as real < x + 1.0 else n >= 0 && x - 1.0 < n as real <= x
            case _ => false
  {
  }

  function DecodeHex(v: Value): Result<Value, Error> {
    var i :- Truncate(v);
    if IntToHex(i).Some? then Ok(Str(IntToHex(i).value)) else Err(BadValue(v))
  }

  function DecodeHexText(v: Value): Result<Value, Error> {
    if v.Str? && TextToHex(v.s).Some? then Ok(Str(TextToHex(v.s).value)) else Err(BadValue(v))
  }

  /** `_convert_value` of `post_decode` */
  function DecodeValue(units: Units, o: Options, metadata: Metadata, excluded: bool, v: Value): Result<Value, Error> {
    var isNull := excluded || (o.nullIfZero && IsZero(v));
    var scaled :- if o.scale > 0 then DivideBy(v, o.scale) else Ok(v);
    if o.unit.Some? then DecodeQuantity(units, o, metadata, isNull, scaled)
    else if o.objtype.Some? then Ok(DecodeLink(o, metadata, isNull, scaled))
    else if isNull then Ok(Null)
    else if o.hexed then DecodeHex(scaled)
    else if o.hexstr then DecodeHexText(scaled)
    else Ok(scaled)
  }

  /** Hexadecimal fields show the scaled value, cut to an integer. */
  lemma HexedIsScaled(units: Units, o: Options, metadata: Metadata, v: Value, n: int)
    requires o.unit.None? && o.objtype.None? && o.hexed && o.scale > 0 && !(o.nullIfZero && IsZero(v))
    requires AsReal(v).Some? && Truncate(Real(AsReal(v).value / o.scale as real)) == Ok(n)
    ensures DecodeValue(units, o, metadata, false, v) ==
            if IntToHex(n).Some? then Ok(Str(IntToHex(n).value))
            else Err(BadValue(Real(AsReal(v).value / o.scale as real)))
  {
    hide IntToHex, Truncate;
  }
}
