/** Decoding and encoding a single value gives the value back. */
module ProcessorLeaves {
  import opened Data
  import opened Numbers
  import opened Processor
  import opened ProcessorValues
  import opened Wrappers

  /** Options that can be undone: hexadecimal fields have no other conversion. */
  ghost predicate IsReversible(units: Units, o: Options, isInt: bool) {
    && (o.unit.Some? ==> o.unit.value in units)
    && (o.hexed ==> isInt && !o.hexstr)
    && (o.hexstr ==> !isInt)
    && (o.hexed || o.hexstr ==> o.unit.None? && o.objtype.None? && o.scale == 0)
  }

  /** Values as they are read from a message; enums are numbers in fields that are not integers. */
  ghost predicate IsLeafValue(o: Options, isInt: bool, v: Value) {
    && (if isInt then v.Int? else v.Real? || v.Str? || v.Bool? || (v.Int? && o.unit.None? && o.scale == 0))
    && (o.unit.Some? || o.scale > 0 ==> v.Int? || v.Real?)
    && (o.hexed ==> v.Int? && 0 <= v.i < 0x1_0000_0000_0000_0000)
    && (o.hexstr ==> v.Str? && IsBytes(v.s))
  }

  predicate IsSuppressed(o: Options, v: Value) {
    IsZero(v) && (o.nullIfZero || o.omitIfZero)
  }

  /** The postfix in a decoded key. */
  function PostfixOf(units: Units, o: Options, metadata: Metadata): string {
    if metadata == Typed then ""
    else if o.unit.Some? then UserUnit(units, o.unit.value)
    else if o.objtype.Some? then o.objtype.value
    else ""
  }

  // ---- Numbers ------------------------------------------------------------------------

  function NumberOf(v: Value): real
    requires v.Int? || v.Real?
  {
    if v.Int? then v.i as real else v.r
  }

  /** A numeric value as it is before and after scaling. */
  function Scaled(v: Value, scale: nat): real
    requires v.Int? || v.Real?
  {
    if scale > 0 then NumberOf(v) / scale as real else NumberOf(v)
  }

  lemma TimesDivided(x: real, scale: nat)
    requires scale > 0
    ensures Times(x / scale as real, scale) == x
  {
    var s := scale as real;
    Divide(x, s);
    assert x / s * s == s * (x / s);
  }

  lemma ScaleRoundTrip(v: Value, scale: nat)
    requires (v.Int? || v.Real?) && scale > 0
    ensures Multiply(Real(Scaled(v, scale)), scale) == Ok(Real(NumberOf(v)))
  {
    hide Times;
    TimesDivided(NumberOf(v), scale);
  }

  lemma RoundBack(v: Value, isInt: bool)
    requires if isInt then v.Int? else v.Real?
    ensures (if isInt then Round(Real(NumberOf(v))) else Ok(Real(NumberOf(v)))) == Ok(v)
  {
    if isInt {
      RoundOfInt(v.i);
    }
  }

  lemma GetBehind(entries: seq<Entry>, key: string)
    requires entries != [] && entries[0].key != key
    ensures Get(entries, key) == Get(entries[1..], key)
  {
  }

  lemma GetFirst(entries: seq<Entry>, key: string)
    requires entries != [] && entries[0].key == key
    ensures Get(entries, key) == Some(entries[0].value)
  {
  }

  lemma QuantityKeys(unit: string, v: Value, readonly: bool)
    ensures var entries := Quantity(unit, v, readonly).entries;
            && UniqueKeys(entries) && |entries| == (if readonly then 4 else 3)
            && (forall i :: 0 <= i < 3 ==> entries[i].key != "readonly")
  {
    assert BLOXTYPE[0] == '_' && "unit"[0] == 'u' && "value"[0] == 'v' && "readonly"[0] == 'r';
  }

  lemma QuantityEntries(unit: string, v: Value, readonly: bool)
    ensures var q := Quantity(unit, v, readonly);
            && Get(q.entries, "value") == Some(v) && Get(q.entries, "unit") == Some(Str(unit))
            && Get(q.entries, "readonly") == if readonly then Some(Bool(true)) else None
  {
    hide Get, UniqueKeys;
    var entries := Quantity(unit, v, readonly).entries;
    QuantityKeys(unit, v, readonly);
    GetAt(entries, 1);
    GetAt(entries, 2);
    if readonly {
      GetAt(entries, 3);
    } else {
      AbsentKey(entries, "readonly");
    }
  }

  lemma LinkEntries(objtype: string, id: Value)
    ensures Get(LinkTo(objtype, id).entries, "id") == Some(id)
  {
    hide Get;
    var entries := LinkTo(objtype, id).entries;
    assert "id"[0] != BLOXTYPE[0] && "id"[0] != "type"[0];
    GetBehind(entries, "id");
    GetBehind(entries[1..], "id");
    assert entries[1..][1..][0] == Entry("id", id);
    GetFirst(entries[1..][1..], "id");
  }

  /** Converting a system value to the user's unit and back. */
  lemma QuantityRoundTrip(units: Units, o: Options, metadata: Metadata, x: Value)
    requires IsUnits(units) && o.unit.Some? && o.unit.value in units && (x.Int? || x.Real?)
    ensures var d := DecodeQuantity(units, o, metadata, false, x);
            && d.Ok?
            && EncodeUnit(units, o.unit.value, PostfixOf(units, o, metadata), d.value) == Ok(Real(NumberOf(x)))
  {
    hide FromSystem, ToSystem;
    var info := units[o.unit.value];
    var t := info.known[info.userUnit];
    var y := Real(FromSystem(t, NumberOf(x)));
    UnitRoundTrip(t, NumberOf(x));
    QuantityEntries(info.userUnit, y, o.readonly);
  }

  lemma UnitReadsBack(units: Units, o: Options, isInt: bool, metadata: Metadata, v: Value)
    requires IsUnits(units) && IsReversible(units, o, isInt) && IsLeafValue(o, isInt, v)
    requires o.unit.Some? && !IsSuppressed(o, v)
    ensures var d := DecodeValue(units, o, metadata, false, v);
            d.Ok? && EncodeValue(units, o, isInt, PostfixOf(units, o, metadata), d.value) == Ok(v)
  {
    hide DecodeQuantity, EncodeUnit, PostfixOf, IsUnits;
    var x := if o.scale > 0 then Real(Scaled(v, o.scale)) else v;
    QuantityRoundTrip(units, o, metadata, x);
    if o.scale > 0 {
      ScaleRoundTrip(v, o.scale);
    }
    RoundBack(v, isInt);
  }

  lemma ScaledReadsBack(units: Units, o: Options, isInt: bool, postfix: string, v: Value)
    requires IsLeafValue(o, isInt, v) && !o.hexed && !o.hexstr && o.unit.None? && (isInt || v.Real? || o.scale == 0)
    ensures var x := if o.scale > 0 then Real(Scaled(v, o.scale)) else v;
            && EncodeValue(units, o, isInt, postfix, x) == Ok(v)
            && EncodeValue(units, o.(objtype := None), isInt, postfix, x) == Ok(v)
  {
    hide Scaled;
    if o.scale > 0 {
      ScaleRoundTrip(v, o.scale);
      RoundBack(v, isInt);
    }
  }

  lemma LinkReadsBack(units: Units, o: Options, isInt: bool, metadata: Metadata, v: Value)
    requires IsReversible(units, o, isInt) && IsLeafValue(o, isInt, v)
    requires o.unit.None? && o.objtype.Some? && !IsSuppressed(o, v)
    ensures var d := DecodeValue(units, o, metadata, false, v);
            d.Ok? && EncodeValue(units, o, isInt, PostfixOf(units, o, metadata), d.value) == Ok(v)
  {
    hide PostfixOf;
    var x := if o.scale > 0 then Real(Scaled(v, o.scale)) else v;
    LinkEntries(o.objtype.value, x);
    ScaledReadsBack(units, o, isInt, PostfixOf(units, o, metadata), v);
  }

  lemma HexReadsBack(units: Units, o: Options, isInt: bool, metadata: Metadata, v: Value)
    requires IsReversible(units, o, isInt) && IsLeafValue(o, isInt, v)
    requires (o.hexed || o.hexstr) && !IsSuppressed(o, v)
    ensures var d := DecodeValue(units, o, metadata, false, v);
            d.Ok? && EncodeValue(units, o, isInt, PostfixOf(units, o, metadata), d.value) == Ok(v)
  {
    hide PostfixOf, HexToInt, IntToHex, HexToText, TextToHex;
    if o.hexed {
      HexFits(v.i);
      IntHexRoundTrip(v.i);
    } else {
      HexTextFits(v.s);
      TextHexRoundTrip(v.s);
    }
  }

  lemma HexFits(i: int)
    requires 0 <= i < 0x1_0000_0000_0000_0000
    ensures IntToHex(i).Some?
  {
  }

  lemma HexTextFits(s: string)
    requires IsBytes(s)
    ensures TextToHex(s).Some?
  {
  }

  /** Every value that is not suppressed is decoded and encoded to itself. */
  lemma ValueRoundTrip(units: Units, o: Options, isInt: bool, metadata: Metadata, v: Value)
    requires IsUnits(units) && IsReversible(units, o, isInt) && IsLeafValue(o, isInt, v) && !IsSuppressed(o, v)
    ensures var d := DecodeValue(units, o, metadata, false, v);
            d.Ok? && EncodeValue(units, o, isInt, PostfixOf(units, o, metadata), d.value) == Ok(v)
  {
    if o.unit.Some? {
      UnitReadsBack(units, o, isInt, metadata, v);
    } else if o.objtype.Some? {
      LinkReadsBack(units, o, isInt, metadata, v);
    } else if o.hexed || o.hexstr {
      HexReadsBack(units, o, isInt, metadata, v);
    } else {
      PlainReadsBack(units, o, isInt, metadata, v);
    }
  }

  lemma PlainReadsBack(units: Units, o: Options, isInt: bool, metadata: Metadata, v: Value)
    requires IsLeafValue(o, isInt, v) && !IsSuppressed(o, v)
    requires o.unit.None? && o.objtype.None? && !o.hexed && !o.hexstr
    ensures var d := DecodeValue(units, o, metadata, false, v);
            d.Ok? && EncodeValue(units, o, isInt, PostfixOf(units, o, metadata), d.value) == Ok(v)
  {
    hide PostfixOf;
    ScaledReadsBack(units, o, isInt, PostfixOf(units, o, metadata), v);
  }

  // ---- Typed metadata -----------------------------------------------------------------------

  lemma LinkKind(objtype: string, id: Value)
    ensures IsLink(LinkTo(objtype, id)) && Get(LinkTo(objtype, id).entries, "type") == Some(Str(objtype))
  {
    hide Get;
    var entries := LinkTo(objtype, id).entries;
    assert "type"[0] != BLOXTYPE[0];
    GetFirst(entries, BLOXTYPE);
    GetBehind(entries, "type");
    GetFirst(entries[1..], "type");
  }

  /** A decoded link is recognised as a link, and as a defined one exactly if it is not excluded and not zero. */
  lemma DecodedLinkIsRecognised(units: Units, o: Options, excluded: bool, v: Value)
    requires o.objtype.Some? && o.objtype.value != "" && o.unit.None? && o.scale == 0
    ensures var d := DecodeValue(units, o, Typed, excluded, v);
            d.Ok? && IsLink(d.value) && (IsDefinedLink(d.value) <==> !excluded && Truthy(v))
  {
    hide Get;
    var id := if excluded || (o.nullIfZero && IsZero(v)) then Null else v;
    LinkKind(o.objtype.value, id);
    LinkEntries(o.objtype.value, id);
  }

  lemma QuantityKind(unit: string, v: Value, readonly: bool)
    ensures var entries := Quantity(unit, v, readonly).entries;
            Get(entries, BLOXTYPE) == Some(Str("Quantity")) && (Get(entries, "readonly").Some? <==> readonly)
  {
    var entries := Quantity(unit, v, readonly).entries;
    assert "readonly"[0] != BLOXTYPE[0] && "readonly"[0] != "unit"[0] && "readonly"[0] != "value"[0];
    AbsentKey(entries, "readonly");
    if readonly {
      assert entries[3].key == "readonly";
    }
  }

  /** A decoded quantity names its unit, says whether it is readonly, and is null exactly if excluded or a null zero. */
  lemma DecodedQuantityIsComplete(units: Units, o: Options, excluded: bool, v: Value)
    requires o.unit.Some? && DecodeValue(units, o, Typed, excluded, v).Ok?
    ensures var d := DecodeValue(units, o, Typed, excluded, v).value;
            && d.Dict? && Get(d.entries, BLOXTYPE) == Some(Str("Quantity"))
            && Get(d.entries, "unit") == Some(Str(UserUnit(units, o.unit.value)))
            && Get(d.entries, "readonly") == (if o.readonly then Some(Bool(true)) else None)
            && (Get(d.entries, "value") == Some(Null) <==> excluded || (o.nullIfZero && IsZero(v)))
  {
    hide Get, FromSystem, UserUnit;
    var amount := EntryValue(DecodeValue(units, o, Typed, excluded, v).value);
    QuantityKind(UserUnit(units, o.unit.value), amount, o.readonly);
    QuantityEntries(UserUnit(units, o.unit.value), amount, o.readonly);
  }

  /** The `value` entry of a quantity. */
  function EntryValue(v: Value): Value {
    if v.Dict? && |v.entries| > 2 then v.entries[2].value else Null
  }

  // ---- Quantisation -------------------------------------------------------------------------

  /** A quantity in a field for scaled integers. */
  ghost predicate IsScaledQuantity(units: Units, o: Options) {
    && IsUnits(units) && o.unit.Some? && o.unit.value in units && o.scale >= 1
    && !o.hexed && !o.hexstr && o.objtype.None? && !o.nullIfZero && !o.omitIfZero
  }

  /** Encoding a decoded integer gives that integer back, for every scale and unit. */
  lemma DecodedIntegerStays(units: Units, o: Options, metadata: Metadata, n: int)
    requires IsScaledQuantity(units, o)
    ensures var d := DecodeValue(units, o, metadata, false, Int(n));
            d.Ok? && EncodeValue(units, o, true, PostfixOf(units, o, metadata), d.value) == Ok(Int(n))
  {
    hide DecodeValue, EncodeValue, PostfixOf;
    ValueRoundTrip(units, o, true, metadata, Int(n));
  }

  lemma DivideSum(x: real, s: real, error: real, n: real)
    requires s > 0.0 && n == x * s + error
    ensures n / s - x == error / s
  {
    Divide(x, s);
    assert n / s == (s * x) / s + error / s;
  }

  lemma HalfStep(x: real, n: int, scale: nat)
    requires scale >= 1 && n == RoundHalfEven(Times(x, scale))
    ensures -(1.0 / (2 * scale) as real) <= n as real / scale as real - x <= 1.0 / (2 * scale) as real
  {
    hide RoundHalfEven;
    var s := scale as real;
    var error := n as real - x * s;
    RoundIsNearest(Times(x, scale));
    DivideSum(x, s, error, n as real);
    HalfOf(scale);
    DivideBound(error, s);
  }

  lemma HalfOf(scale: nat)
    requires scale >= 1
    ensures 0.5 / scale as real == 1.0 / (2 * scale) as real
  {
    var s := scale as real;
    assert (2 * scale) as real == 2.0 * s;
    assert 0.5 / s == 1.0 / (2.0 * s);
  }

  lemma DivideBound(error: real, s: real)
    requires s > 0.0 && -0.5 <= error <= 0.5
    ensures -(0.5 / s) <= error / s <= 0.5 / s
  {
  }

  /** The affine map of the user's unit. */
  function UserMap(units: Units, id: string): Affine {
    if id in units && units[id].userUnit in units[id].known then units[id].known[units[id].userUnit]
    else Affine(1.0, 0.0)
  }

  lemma UserMapOf(units: Units, o: Options)
    requires IsScaledQuantity(units, o)
    ensures var info := units[o.unit.value];
            info.userUnit in info.known && UserMap(units, o.unit.value) == info.known[info.userUnit]
    ensures UserMap(units, o.unit.value).factor != 0.0
  {
    var id := o.unit.value;
    assert id in units;
    assert units[id].userUnit in units[id].known;
  }

  /** The data is an amount in a known unit, which is named by a postfix or in a typed quantity, or is the user's. */
  ghost predicate IsAmount(units: Units, id: string, postfix: string, v: Value, unit: string, amount: real) {
    && id in units && unit in units[id].known
    && if v.Dict? then
         var custom := Get(v.entries, "unit");
         && Get(v.entries, "value").Some? && AsReal(Get(v.entries, "value").value) == Some(amount)
         && if custom in {None, Some(Null), Some(Str(""))} then unit == units[id].userUnit
            else custom == Some(Str(unit))
       else AsReal(v) == Some(amount) && unit == if postfix == "" then units[id].userUnit else postfix
  }

  lemma EncodedQuantity(units: Units, o: Options, postfix: string, v: Value, unit: string, amount: real, x: real)
    requires IsScaledQuantity(units, o) && IsAmount(units, o.unit.value, postfix, v, unit, amount)
    requires units[o.unit.value].known[unit].factor != 0.0 && x == ToSystem(units[o.unit.value].known[unit], amount)
    ensures EncodeValue(units, o, true, postfix, v) == Ok(Int(RoundHalfEven(Times(x, o.scale))))
  {
    hide FromSystem, ToSystem, RoundHalfEven, Times, Get;
  }

  lemma KnownUnit(units: Units, id: string, unit: string)
    requires IsUnits(units) && id in units && unit in units[id].known
    ensures units[id].known[unit].factor != 0.0
  {
  }

  lemma DecodedQuantity(units: Units, o: Options, n: int, x: real)
    requires IsScaledQuantity(units, o) && x == n as real / o.scale as real
    ensures DecodeValue(units, o, Postfix, false, Int(n)) == Ok(Real(FromSystem(UserMap(units, o.unit.value), x)))
    ensures DecodeValue(units, o, Typed, false, Int(n)) ==
            Ok(Quantity(UserUnit(units, o.unit.value), Real(FromSystem(UserMap(units, o.unit.value), x)), o.readonly))
  {
    hide FromSystem;
    UserMapOf(units, o);
  }

  /** Decoding an encoded amount, in whatever unit it was given, is off by at most half a step in system units. */
  lemma EncodedValueIsNear(units: Units, o: Options, postfix: string, v: Value, unit: string, amount: real)
    returns (n: int, decoded: real)
    requires IsScaledQuantity(units, o) && IsAmount(units, o.unit.value, postfix, v, unit, amount)
    ensures units[o.unit.value].known[unit].factor != 0.0 && UserMap(units, o.unit.value).factor != 0.0
    ensures EncodeValue(units, o, true, postfix, v) == Ok(Int(n))
    ensures DecodeValue(units, o, Postfix, false, Int(n)) == Ok(Real(decoded))
    ensures DecodeValue(units, o, Typed, false, Int(n)) ==
            Ok(Quantity(UserUnit(units, o.unit.value), Real(decoded), o.readonly))
    ensures var step := 1.0 / (2 * o.scale) as real;
            var system := ToSystem(units[o.unit.value].known[unit], amount);
            var error := ToSystem(UserMap(units, o.unit.value), decoded) - system;
            -step <= error <= step
  {
    hide FromSystem, ToSystem, RoundHalfEven, Times, EncodeValue, DecodeValue, IsUnits, Get, Quantity, UserUnit;
    UserMapOf(units, o);
    KnownUnit(units, o.unit.value, unit);
    var t := UserMap(units, o.unit.value);
    var x := ToSystem(units[o.unit.value].known[unit], amount);
    n := RoundHalfEven(Times(x, o.scale));
    var z := n as real / o.scale as real;
    decoded := FromSystem(t, z);
    EncodedQuantity(units, o, postfix, v, unit, amount, x);
    DecodedQuantity(units, o, n, z);
    UnitRoundTrip(t, z);
    HalfStep(x, n, o.scale);
  }
}
