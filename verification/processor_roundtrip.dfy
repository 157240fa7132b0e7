/** Encoding undoes decoding on whole content trees, up to the order of keys. */
module ProcessorRoundTrip {
  import opened Data
  import opened Processor
  import opened ProcessorDicts
  import opened ProcessorLeaves
  import opened ProcessorValues
  import opened Wrappers

  // ---- Content as it is read from a message ------------------------------------------------

  ghost predicate HasPostfixes(units: Units, o: Options) {
    && (o.unit.Some? ==> IsPostfix(UserUnit(units, o.unit.value)))
    && (o.objtype.Some? ==> IsPostfix(o.objtype.value))
  }

  // ---- Types -------------------------------------------------------------------------------------

  ghost predicate FieldHasType(units: Units, f: Field, v: Value)
    decreases v, 2
  {
    match f.kind
    case Scalar(isInt) =>
      && IsReversible(units, f.options, isInt) && HasPostfixes(units, f.options)
      && if f.repeated then v.List? && forall i :: 0 <= i < |v.items| ==> IsLeafValue(f.options, isInt, v.items[i])
         else IsLeafValue(f.options, isInt, v)
    case Message(schema) =>
      HasNoConversion(f.options) && if f.repeated then v.List? && AllHaveType(units, schema, v)
                                    else HasType(units, schema, v)
    case MapTo(schema) =>
      HasNoConversion(f.options) && f.repeated && v.Dict? && UniqueKeys(v.entries) && AllHaveType(units, schema, v)
  }

  ghost predicate AllHaveType(units: Units, schema: Schema, v: Value)
    decreases v, 1
  {
    forall i :: 0 <= i < ChildCount(v) ==> HasType(units, schema, ChildAt(v, i))
  }

  /** An object whose keys are field names, with values of these fields. */
  ghost predicate HasType(units: Units, schema: Schema, v: Value)
    decreases v, 0
  {
    && v.Dict? && UniqueKeys(v.entries)
    && forall i :: 0 <= i < ChildCount(v) ==>
                     && v.entries[i].key in schema.fields && IsPlainName(v.entries[i].key)
                     && FieldHasType(units, schema.fields[v.entries[i].key], ChildAt(v, i))
  }

  // ---- What is lost --------------------------------------------------------------------------------

  ghost predicate FieldIsLossless(f: Field, v: Value)
    decreases v, 2
  {
    && !f.options.ignored
    && if f.kind.Scalar? then
         if f.repeated && v.List? then forall i :: 0 <= i < |v.items| ==> !IsSuppressed(f.options, v.items[i])
         else !IsSuppressed(f.options, v)
       else if f.repeated then AllLossless(f.kind.schema, v)
       else IsLossless(f.kind.schema, v)
  }

  ghost predicate AllLossless(schema: Schema, v: Value)
    decreases v, 1
  {
    forall i :: 0 <= i < ChildCount(v) ==> IsLossless(schema, ChildAt(v, i))
  }

  /** No field is ignored, and no value is a zero that is omitted or sent as null. */
  ghost predicate IsLossless(schema: Schema, v: Value)
    decreases v, 0
  {
    v.Dict? ==>
      forall i :: 0 <= i < ChildCount(v) && v.entries[i].key in schema.fields ==>
                    FieldIsLossless(schema.fields[v.entries[i].key], ChildAt(v, i))
  }

  ghost predicate IsLeaf(o: Options, isInt: bool, v: Value) {
    IsLeafValue(o, isInt, v) && !IsSuppressed(o, v)
  }

  ghost predicate FieldConforms(units: Units, f: Field, v: Value) {
    FieldHasType(units, f, v) && FieldIsLossless(f, v)
  }

  ghost predicate AllConform(units: Units, schema: Schema, v: Value) {
    AllHaveType(units, schema, v) && AllLossless(schema, v)
  }

  ghost predicate Conforms(units: Units, schema: Schema, v: Value) {
    HasType(units, schema, v) && IsLossless(schema, v)
  }

  // ---- Equality up to order --------------------------------------------------------------------

  ghost predicate SameEntry(v: Value, w: Value, i: nat)
    requires v.Dict? && w.Dict? && i < ChildCount(v)
    decreases v, 0
  {
    var found := Get(w.entries, v.entries[i].key);
    found.Some? && Same(ChildAt(v, i), found.value)
  }

  /** Equal data, where the entries of dicts may be in another order. */
  ghost predicate Same(v: Value, w: Value)
    decreases v, 1
  {
    if v.Dict? && w.Dict? then
      && UniqueKeys(v.entries) && UniqueKeys(w.entries)
      && (forall i :: 0 <= i < ChildCount(v) ==> SameEntry(v, w, i))
      && forall key :: Get(w.entries, key).Some? ==> Get(v.entries, key).Some?
    else if v.List? && w.List? then
      |v.items| == |w.items| && forall i :: 0 <= i < ChildCount(v) ==> Same(ChildAt(v, i), w.items[i])
    else v == w
  }

  // ---- Repeated scalars --------------------------------------------------------------------------

  lemma DecodedIsScalar(units: Units, o: Options, metadata: Metadata, v: Value)
    requires !v.Null? && !v.List? && !IsSuppressed(o, v)
    requires DecodeValue(units, o, metadata, false, v).Ok?
    ensures var d := DecodeValue(units, o, metadata, false, v).value; !d.Null? && !d.List?
  {
    hide FromSystem, IntToHex, TextToHex;
  }

  lemma {:induction false} ItemsRoundTrip(units: Units, f: Field, metadata: Metadata, items: seq<Value>)
    requires IsUnits(units) && f.kind.Scalar? && IsReversible(units, f.options, f.kind.isInt)
    requires forall i :: 0 <= i < |items| ==> IsLeaf(f.options, f.kind.isInt, items[i])
    ensures var d := DecodeItems(units, f.options, metadata, false, items);
            d.Ok? && EncodeItems(units, f, PostfixOf(units, f.options, metadata), d.value) == Ok(items)
  {
    hide DecodeValue, EncodeValue, IsLeafValue, IsReversible, IsUnits, PostfixOf;
    if items != [] {
      LeafItem(units, f, metadata, items[0]);
      ItemsRoundTrip(units, f, metadata, items[1..]);
      assert items == [items[0]] + items[1..];
      var d := DecodeItems(units, f.options, metadata, false, items).value;
      assert d[1..] == DecodeItems(units, f.options, metadata, false, items[1..]).value;
    }
  }

  lemma LeafItem(units: Units, f: Field, metadata: Metadata, v: Value)
    requires IsUnits(units) && f.kind.Scalar? && IsReversible(units, f.options, f.kind.isInt)
    requires IsLeaf(f.options, f.kind.isInt, v)
    ensures !v.List? && !(f.options.omitIfZero && IsZero(v)) && (f.kind == Scalar(true)) == f.kind.isInt
    ensures var d := DecodeValue(units, f.options, metadata, false, v);
            && d.Ok? && !d.value.Null? && !d.value.List?
            && EncodeValue(units, f.options, f.kind.isInt, PostfixOf(units, f.options, metadata), d.value) == Ok(v)
  {
    hide DecodeValue, EncodeValue, PostfixOf;
    ValueRoundTrip(units, f.options, f.kind.isInt, metadata, v);
    DecodedIsScalar(units, f.options, metadata, v);
  }

  // ---- Values without conversion -------------------------------------------------------------------

  lemma Unconverted(units: Units, o: Options, metadata: Metadata, postfix: string, v: Value)
    requires HasNoConversion(o) && v.Dict?
    ensures DecodeValue(units, o, metadata, false, v) == Ok(v) && EncodeValue(units, o, false, postfix, v) == Ok(v)
  {
  }

  lemma {:induction false} ItemsUnconverted(units: Units, f: Field, metadata: Metadata, postfix: string,
                                            items: seq<Value>)
    requires HasNoConversion(f.options) && !f.kind.Scalar? && forall i :: 0 <= i < |items| ==> items[i].Dict?
    ensures DecodeItems(units, f.options, metadata, false, items) == Ok(items)
    ensures EncodeItems(units, f, postfix, items) == Ok(items)
  {
    hide DecodeValue, EncodeValue, HasNoConversion;
    if items != [] {
      Unconverted(units, f.options, metadata, postfix, items[0]);
      ItemsUnconverted(units, f, metadata, postfix, items[1..]);
      assert items == [items[0]] + items[1..];
    }
  }

  // ---- Passes ------------------------------------------------------------------------------------------

  ghost predicate IsUnfiltered(dec: Pass, enc: Pass) {
    && dec.Decoding? && !dec.filter && dec.maskMode == NoMask
    && enc.Encoding? && !enc.filter && enc.units == dec.units && IsUnits(dec.units)
  }

  /** A field is decoded to `y`, and `y` is encoded to `u`. */
  ghost predicate DecodesTo(dec: Pass, f: Field, key: string, v: Value, y: Value, parent: Address)
    requires dec.Decoding?
  {
    var nested := WalkField(dec, f, v, parent + [Some(f.number)]);
    && nested.Ok?
    && EditOf(dec, f, key, Key(key, ""), ElementAddress(f, v, parent), nested.value.value)
       == Ok(Assign(NewKey(dec, f, key), y))
  }

  ghost predicate EncodesTo(enc: Pass, f: Field, newKey: string, key: Key, y: Value, u: Value, parent: Address) {
    var nested := WalkField(enc, f, y, parent + [Some(f.number)]);
    && nested.Ok?
    && EditOf(enc, f, newKey, key, ElementAddress(f, y, parent), nested.value.value) == Ok(Assign(key.base, u))
  }

  function Parsed(dec: Pass, f: Field, key: string): Key
    requires dec.Decoding?
  {
    Key(key, PostfixOf(dec.units, f.options, MetadataOf(dec.mode)))
  }

  ghost predicate Returns(dec: Pass, enc: Pass, f: Field, key: string, v: Value, y: Value, u: Value,
                          a: Address, b: Address)
    requires dec.Decoding?
  {
    DecodesTo(dec, f, key, v, y, a) && EncodesTo(enc, f, NewKey(dec, f, key), Parsed(dec, f, key), y, u, b) &&
      Same(v, u)
  }

  // ---- Scalar fields ----------------------------------------------------------------------------------

  lemma ScalarReturns(dec: Pass, enc: Pass, f: Field, key: string, v: Value, a: Address, b: Address)
    returns (y: Value, u: Value)
    requires IsUnfiltered(dec, enc) && f.kind.Scalar? && FieldConforms(dec.units, f, v)
    ensures Returns(dec, enc, f, key, v, y, u, a, b) && u == v
  {
    hide DecodeValue, EncodeValue, DecodeItems, EncodeItems, PostfixOf, DecodedKey, IsReversible, IsLeafValue, IsUnits;
    var o, metadata := f.options, MetadataOf(dec.mode);
    u := v;
    if f.repeated {
      ItemsRoundTrip(dec.units, f, metadata, v.items);
      y := List(DecodeItems(dec.units, o, metadata, false, v.items).value);
      forall i | 0 <= i < |v.items| ensures !v.items[i].Dict? && !v.items[i].List? {
        LeafIsNoDict(o, f.kind.isInt, v.items[i]);
      }
      SameItself(v);
    } else {
      LeafItem(dec.units, f, metadata, v);
      y := DecodeValue(dec.units, o, metadata, false, v).value;
      LeafIsNoDict(o, f.kind.isInt, v);
    }
  }

  /** A zero that is sent as null does not come back. */
  lemma NullIsLost(units: Units, o: Options, isInt: bool, metadata: Metadata, v: Value)
    requires IsLeafValue(o, isInt, v) && IsSuppressed(o, v) && !o.omitIfZero
    requires DecodeValue(units, o, metadata, false, v).Ok?
    ensures var d := DecodeValue(units, o, metadata, false, v).value;
            !d.List? && (d.Null? || EncodeValue(units, o, isInt, PostfixOf(units, o, metadata), d) != Ok(v))
  {
    hide PostfixOf, HexToInt, IntToHex, HexToText, TextToHex;
    if metadata == Typed && o.unit.Some? {
      QuantityEntries(UserUnit(units, o.unit.value), Null, o.readonly);
    } else if metadata == Typed && o.objtype.Some? {
      LinkEntries(o.objtype.value, Null);
    }
  }

  /** A zero that is left out or sent as null does not come back. */
  lemma SuppressedIsLost(units: Units, f: Field, metadata: Metadata, key: string, v: Value, y: Value)
    requires f.kind.Scalar? && IsLeafValue(f.options, f.kind.isInt, v) && IsSuppressed(f.options, v)
    requires DecodeEdit(units, f.options, metadata, false, key, v) ==
             Ok(Assign(DecodedKey(units, f.options, metadata, key), y))
    ensures EncodeEdit(units, f, Key(key, PostfixOf(units, f.options, metadata)), y) != Ok(Assign(key, v))
  {
    hide DecodeItems, EncodeItems, PostfixOf, DecodedKey, DecodeValue, EncodeValue;
    LeafIsNoDict(f.options, f.kind.isInt, v);
    NullIsLost(units, f.options, f.kind.isInt, metadata, v);
  }

  lemma {:induction false} ItemsLost(units: Units, f: Field, metadata: Metadata, items: seq<Value>, ds: seq<Value>,
                                     us: seq<Value>)
    requires IsUnits(units) && f.kind.Scalar? && IsReversible(units, f.options, f.kind.isInt)
    requires forall i :: 0 <= i < |items| ==> IsLeafValue(f.options, f.kind.isInt, items[i])
    requires DecodeItems(units, f.options, metadata, false, items) == Ok(ds)
    requires EncodeItems(units, f, PostfixOf(units, f.options, metadata), ds) == Ok(us)
    ensures |us| <= |items|
    ensures us == items ==> forall i :: 0 <= i < |items| ==> !IsSuppressed(f.options, items[i])
  {
    hide DecodeValue, EncodeValue, IsLeafValue, IsReversible, IsUnits, PostfixOf, IsSuppressed;
    if items != [] {
      var o, isInt := f.options, f.kind.isInt;
      if o.omitIfZero && IsZero(items[0]) {
        ItemsLost(units, f, metadata, items[1..], ds, us);
      } else {
        var d := DecodeValue(units, o, metadata, false, items[0]).value;
        assert ds[0] == d && ds[1..] == DecodeItems(units, o, metadata, false, items[1..]).value;
        if d.Null? {
          ItemsLost(units, f, metadata, items[1..], ds[1..], us);
        } else {
          ItemsLost(units, f, metadata, items[1..], ds[1..], us[1..]);
          if us == items {
            FirstReturned(units, o, isInt, metadata, items[0]);
            assert us[1..] == items[1..];
            assert forall i :: 0 < i < |items| ==> items[i] == items[1..][i - 1];
          }
        }
      }
    }
  }

  lemma FirstReturned(units: Units, o: Options, isInt: bool, metadata: Metadata, v: Value)
    requires IsLeafValue(o, isInt, v) && !(o.omitIfZero && IsZero(v))
    requires var d := DecodeValue(units, o, metadata, false, v);
             d.Ok? && !d.value.Null? && EncodeValue(units, o, isInt, PostfixOf(units, o, metadata), d.value) == Ok(v)
    ensures !IsSuppressed(o, v)
  {
    hide DecodeValue, EncodeValue, PostfixOf;
    if IsSuppressed(o, v) {
      NullIsLost(units, o, isInt, metadata, v);
    }
  }

  /** A scalar or list of scalars comes back only if nothing in it is ignored or suppressed. */
  lemma ScalarReturned(dec: Pass, enc: Pass, f: Field, key: string, v: Value, y: Value, a: Address, b: Address)
    requires IsUnfiltered(dec, enc) && f.kind.Scalar? && FieldHasType(dec.units, f, v)
    requires DecodesTo(dec, f, key, v, y, a) && EncodesTo(enc, f, NewKey(dec, f, key), Parsed(dec, f, key), y, v, b)
    ensures FieldIsLossless(f, v)
  {
    hide DecodeValue, EncodeValue, DecodeItems, EncodeItems, DecodedKey, PostfixOf, IsReversible, HasPostfixes, IsUnits;
    hide IsLeafValue, IsSuppressed;
    var metadata := MetadataOf(dec.mode);
    if f.repeated {
      ItemsLost(dec.units, f, metadata, v.items, y.items, v.items);
    } else {
      LeafIsNoDict(f.options, f.kind.isInt, v);
      if IsSuppressed(f.options, v) {
        SuppressedIsLost(dec.units, f, metadata, key, v, y);
      }
    }
  }

  /** A scalar or list of scalars comes back exactly if its field is not ignored and no zero in it is suppressed. */
  lemma LeafReturnsExactly(dec: Pass, enc: Pass, f: Field, key: string, v: Value, a: Address, b: Address)
    requires IsUnfiltered(dec, enc) && f.kind.Scalar? && FieldHasType(dec.units, f, v)
    ensures (exists y :: DecodesTo(dec, f, key, v, y, a)
                         && EncodesTo(enc, f, NewKey(dec, f, key), Parsed(dec, f, key), y, v, b)) <==>
            && !f.options.ignored
            && if f.repeated then forall i :: 0 <= i < |v.items| ==> !IsSuppressed(f.options, v.items[i])
               else !IsSuppressed(f.options, v)
  {
    hide DecodesTo, EncodesTo, IsUnits, IsReversible, HasPostfixes, IsLeafValue, IsSuppressed, NewKey, Parsed, Same;
    TypeOfScalar(dec.units, f, v);
    if FieldIsLossless(f, v) {
      var y, u := ScalarReturns(dec, enc, f, key, v, a, b);
    }
    forall y | DecodesTo(dec, f, key, v, y, a) && EncodesTo(enc, f, NewKey(dec, f, key), Parsed(dec, f, key), y, v, b)
      ensures FieldIsLossless(f, v)
    {
      ScalarReturned(dec, enc, f, key, v, y, a, b);
    }
  }

  lemma TypeOfScalar(units: Units, f: Field, v: Value)
    requires FieldHasType(units, f, v) && f.kind.Scalar?
    ensures f.repeated == v.List?
  {
    hide IsReversible, HasPostfixes;
  }

  lemma LeafIsNoDict(o: Options, isInt: bool, v: Value)
    requires IsLeafValue(o, isInt, v)
    ensures !v.Dict? && !v.List? && !v.Null?
  {
  }

  lemma SameItself(v: Value)
    requires v.List? && forall i :: 0 <= i < |v.items| ==> !v.items[i].Dict? && !v.items[i].List?
    ensures Same(v, v)
  {
  }

  // ---- Messages ---------------------------------------------------------------------------------------

  lemma DecodedUnconverted(dec: Pass, f: Field, key: string, address: Address, y: Value)
    requires dec.Decoding? && !dec.filter && dec.maskMode == NoMask
    requires HasNoConversion(f.options) && !f.kind.Scalar? && !f.options.ignored
    requires y.Dict? || (y.List? && forall i :: 0 <= i < |y.items| ==> y.items[i].Dict?)
    ensures EditOf(dec, f, key, Key(key, ""), address, y) == Ok(Assign(NewKey(dec, f, key), y))
  {
    hide DecodeValue, DecodeItems, DecodedKey;
    if y.Dict? {
      Unconverted(dec.units, f.options, MetadataOf(dec.mode), "", y);
    } else {
      ItemsUnconverted(dec.units, f, MetadataOf(dec.mode), "", y.items);
    }
  }

  lemma EncodedUnconverted(enc: Pass, f: Field, newKey: string, key: Key, address: Address, u: Value)
    requires enc.Encoding? && !enc.filter
    requires HasNoConversion(f.options) && !f.kind.Scalar? && !f.options.ignored
    requires u.Dict? || (u.List? && forall i :: 0 <= i < |u.items| ==> u.items[i].Dict?)
    ensures EditOf(enc, f, newKey, key, address, u) == Ok(Assign(key.base, u))
  {
    hide EncodeValue, EncodeItems;
    if u.Dict? {
      Unconverted(enc.units, f.options, Typed, key.postfix, u);
    } else {
      ItemsUnconverted(enc.units, f, Typed, key.postfix, u.items);
    }
  }

  lemma ConformingObject(units: Units, schema: Schema, v: Value)
    requires Conforms(units, schema, v)
    ensures v.Dict? && UniqueKeys(v.entries)
  {
  }

  lemma ConformingEntry(units: Units, schema: Schema, v: Value, i: nat)
    requires Conforms(units, schema, v) && i < ChildCount(v)
    ensures v.Dict? && v.entries[i].key in schema.fields && IsPlainName(v.entries[i].key)
    ensures FieldConforms(units, schema.fields[v.entries[i].key], ChildAt(v, i))
  {
    hide FieldHasType, FieldIsLossless, IsPlainName;
  }

  lemma ConformingChild(units: Units, schema: Schema, v: Value, i: nat)
    requires AllConform(units, schema, v) && i < ChildCount(v)
    ensures Conforms(units, schema, ChildAt(v, i))
  {
    hide HasType, IsLossless;
  }

  lemma ConformingMessages(units: Units, f: Field, v: Value)
    requires FieldConforms(units, f, v) && !f.kind.Scalar?
    ensures HasNoConversion(f.options) && !f.options.ignored
    ensures if f.repeated then AllConform(units, f.kind.schema, v) && (v.Dict? <==> f.kind.MapTo?) &&
                               (v.List? || (v.Dict? && UniqueKeys(v.entries)))
            else Conforms(units, f.kind.schema, v)
  {
    hide HasType, IsLossless, AllHaveType, AllLossless, HasNoConversion;
  }

  lemma MessageFieldReturns(dec: Pass, enc: Pass, f: Field, key: string, v: Value, a: Address, b: Address)
    returns (y: Value, u: Value)
    requires IsUnfiltered(dec, enc) && !f.kind.Scalar? && FieldConforms(dec.units, f, v)
    ensures Returns(dec, enc, f, key, v, y, u, a, b)
    decreases v, 2
  {
    hide EditOf, NewKey, PostfixOf, WalkMessage, WalkMessages, IsUnits, Same, Conforms, AllConform, ElementAddress,
      HasNoConversion, FieldConforms;
    ConformingMessages(dec.units, f, v);
    var down, up := a + [Some(f.number)], b + [Some(f.number)];
    if !f.repeated {
      y, u := MessageReturns(dec, enc, f.kind.schema, v, down, up);
      ConformingObject(dec.units, f.kind.schema, v);
    } else {
      y, u := MessagesReturn(dec, enc, f.kind.schema, v, down + [None], up + [None]);
    }
    DecodedUnconverted(dec, f, key, ElementAddress(f, v, a), y);
    EncodedUnconverted(enc, f, NewKey(dec, f, key), Parsed(dec, f, key), ElementAddress(f, y, b), u);
    assert DecodesTo(dec, f, key, v, y, a);
    assert EncodesTo(enc, f, NewKey(dec, f, key), Parsed(dec, f, key), y, u, b);
  }

  lemma {:induction false} EachMessage(pass: Pass, schema: Schema, v: Value, n: nat, address: Address)
    requires n <= ChildCount(v)
    requires forall i :: 0 <= i < n ==> WalkMessage(pass, schema, ChildAt(v, i), address).Ok?
    ensures WalkMessages(pass, schema, v, n, address).Ok?
    ensures var r := WalkMessages(pass, schema, v, n, address).value.value;
            && SameKeys(v, r)
            && (forall i :: 0 <= i < n ==>
                              ChildAt(r, i) == WalkMessage(pass, schema, ChildAt(v, i), address).value.value)
            && (forall i :: n <= i < ChildCount(v) ==> ChildAt(r, i) == ChildAt(v, i))
    decreases n
  {
    hide WalkMessage;
    if n > 0 {
      EachMessage(pass, schema, v, n - 1, address);
    }
  }

  /** A list or map of messages. */
  lemma MessagesReturn(dec: Pass, enc: Pass, schema: Schema, v: Value, a: Address, b: Address)
    returns (y: Value, u: Value)
    requires IsUnfiltered(dec, enc) && AllConform(dec.units, schema, v)
    requires v.List? || (v.Dict? && UniqueKeys(v.entries))
    ensures var down := WalkMessages(dec, schema, v, ChildCount(v), a); down.Ok? && down.value.value == y
    ensures ChildCount(y) == ChildCount(v) && y.Dict? == v.Dict? && y.List? == v.List?
    ensures var up := WalkMessages(enc, schema, y, ChildCount(y), b); up.Ok? && up.value.value == u
    ensures u.Dict? == v.Dict? && u.List? == v.List? && Same(v, u)
    ensures v.List? ==> forall i :: 0 <= i < |y.items| ==> y.items[i].Dict?
    ensures v.List? ==> forall i :: 0 <= i < |u.items| ==> u.items[i].Dict?
    decreases v, 1
  {
    hide WalkMessage, WalkMessages, Conforms, AllConform, IsUnits;
    var ys: seq<Value>, us: seq<Value> := [], [];
    for i := 0 to ChildCount(v)
      invariant |ys| == |us| == i
      invariant forall k :: 0 <= k < i ==> MessageGoes(dec, schema, ChildAt(v, k), ys[k], a)
      invariant forall k :: 0 <= k < i ==> MessageGoes(enc, schema, ys[k], us[k], b) && Same(ChildAt(v, k), us[k])
    {
      ConformingChild(dec.units, schema, v, i);
      var yi, ui := MessageReturns(dec, enc, schema, ChildAt(v, i), a, b);
      ys, us := ys + [yi], us + [ui];
    }
    EachMessage(dec, schema, v, ChildCount(v), a);
    y := WalkMessages(dec, schema, v, ChildCount(v), a).value.value;
    assert forall k :: 0 <= k < ChildCount(v) ==> ChildAt(y, k) == ys[k];
    EachMessage(enc, schema, y, ChildCount(y), b);
    u := WalkMessages(enc, schema, y, ChildCount(y), b).value.value;
    assert forall k :: 0 <= k < ChildCount(v) ==> ChildAt(u, k) == us[k];
    SameContainers(v, y, u);
    if v.List? {
      assert forall k :: 0 <= k < |y.items| ==> y.items[k] == ys[k];
      assert forall k :: 0 <= k < |u.items| ==> u.items[k] == us[k];
    }
  }

  ghost predicate MessageGoes(pass: Pass, schema: Schema, v: Value, r: Value, address: Address) {
    var walked := WalkMessage(pass, schema, v, address);
    walked.Ok? && walked.value.value == r && r.Dict?
  }

  lemma SameContainers(v: Value, y: Value, u: Value)
    requires SameKeys(v, y) && SameKeys(y, u) && IsContainer(v)
    requires v.Dict? ==> UniqueKeys(v.entries)
    requires forall k :: 0 <= k < ChildCount(v) ==> Same(ChildAt(v, k), ChildAt(u, k))
    ensures Same(v, u)
  {
    if v.Dict? {
      SameUnique(v.entries, u.entries);
      forall i | 0 <= i < ChildCount(v) ensures SameEntry(v, u, i) {
        GetAt(u.entries, i);
        assert Same(ChildAt(v, i), ChildAt(u, i));
      }
      forall key | Get(u.entries, key).Some? ensures Get(v.entries, key).Some? {
        var i := GetPresent(u.entries, key);
        GetAt(v.entries, i);
      }
    } else {
      forall i | 0 <= i < ChildCount(v) ensures Same(ChildAt(v, i), u.items[i]) {
        assert Same(ChildAt(v, i), ChildAt(u, i));
      }
    }
  }

  lemma SameUnique(a: seq<Entry>, b: seq<Entry>)
    requires |a| == |b| && UniqueKeys(a) && forall k :: 0 <= k < |a| ==> a[k].key == b[k].key
    ensures UniqueKeys(b)
  {
    forall i, j | 0 <= i < j < |b| ensures b[i].key != b[j].key {
      assert a[i].key != a[j].key;
    }
  }

  /** Every field of every kind. */
  lemma FieldReturns(dec: Pass, enc: Pass, f: Field, key: string, v: Value, a: Address, b: Address)
    returns (y: Value, u: Value)
    requires IsUnfiltered(dec, enc) && FieldConforms(dec.units, f, v)
    ensures Returns(dec, enc, f, key, v, y, u, a, b)
    decreases v, 3
  {
    hide Returns, FieldConforms;
    if f.kind.Scalar? {
      y, u := ScalarReturns(dec, enc, f, key, v, a, b);
    } else {
      y, u := MessageFieldReturns(dec, enc, f, key, v, a, b);
    }
  }

  // ---- Objects ----------------------------------------------------------------------------------------

  /** Fields whose decoded keys are parsed to their names. */
  ghost predicate HasReadableKey(units: Units, f: Field, key: string) {
    IsPlainName(key) && (HasPostfixes(units, f.options) || HasNoConversion(f.options))
  }

  lemma NewKeyParses(dec: Pass, f: Field, key: string)
    requires dec.Decoding? && HasReadableKey(dec.units, f, key)
    ensures ParseKey(NewKey(dec, f, key)) == Some(Parsed(dec, f, key))
    ensures ParseKey(key) == Some(Key(key, ""))
  {
    hide ParseKey, IsPostfix, IsPlainName;
    PlainKey(key);
    var o := f.options;
    if dec.mode == Logged {
      if o.unit.Some? {
        var unit := UserUnit(dec.units, o.unit.value);
        assert key + "[" + unit + "]" == key + (['['] + (unit + [']']));
        PostfixedKey(key, '[', unit, ']');
      } else if o.objtype.Some? {
        var objtype := o.objtype.value;
        assert key + "<" + objtype + ">" == key + (['<'] + (objtype + ['>']));
        PostfixedKey(key, '<', objtype, '>');
      }
    }
  }

  /** Decoded and encoded values of all entries. */
  ghost predicate EntriesReturn(dec: Pass, enc: Pass, schema: Schema, v: Value, ys: seq<Value>, us: seq<Value>, n: nat,
                                a: Address, b: Address)
    requires dec.Decoding? && v.Dict? && n <= |v.entries|
  {
    && |ys| == n && |us| == n
    && forall i :: 0 <= i < n ==> EntryReturns(dec, enc, schema, v.entries[i], ys[i], us[i], a, b)
  }

  ghost predicate EntryReturns(dec: Pass, enc: Pass, schema: Schema, e: Entry, y: Value, u: Value, a: Address,
                               b: Address)
    requires dec.Decoding?
  {
    && e.key in schema.fields && HasReadableKey(dec.units, schema.fields[e.key], e.key)
    && Returns(dec, enc, schema.fields[e.key], e.key, e.value, y, u, a, b)
  }

  lemma EntriesReturnEach(dec: Pass, enc: Pass, schema: Schema, v: Value, a: Address, b: Address)
    returns (ys: seq<Value>, us: seq<Value>)
    requires IsUnfiltered(dec, enc) && Conforms(dec.units, schema, v)
    ensures EntriesReturn(dec, enc, schema, v, ys, us, |v.entries|, a, b)
    decreases v, 0, 0
  {
    hide Returns, FieldConforms, IsPlainName, Conforms;
    ConformingObject(dec.units, schema, v);
    ys, us := [], [];
    for i := 0 to |v.entries|
      invariant EntriesReturn(dec, enc, schema, v, ys, us, i, a, b)
    {
      var e := v.entries[i];
      assert ChildAt(v, i) == e.value;
      ConformingEntry(dec.units, schema, v, i);
      var y, u := FieldReturns(dec, enc, schema.fields[e.key], e.key, e.value, a, b);
      ConformingKey(dec.units, schema.fields[e.key], e.key, e.value);
      ys, us := ys + [y], us + [u];
    }
  }

  lemma ConformingKey(units: Units, f: Field, key: string, v: Value)
    requires FieldConforms(units, f, v) && IsPlainName(key)
    ensures HasReadableKey(units, f, key)
  {
  }

  /** Edits that assign all entries. */
  function Assigns(entries: seq<Entry>): (edits: seq<Edit>)
    ensures |edits| == |entries|
    ensures forall i :: 0 <= i < |entries| ==> edits[i] == Assign(entries[i].key, entries[i].value)
  {
    seq(|entries|, i requires 0 <= i < |entries| => Assign(entries[i].key, entries[i].value))
  }

  /** The edits of the decoder, by the order of the fields. */
  function DecodeEdits(dec: Pass, schema: Schema, entries: seq<Entry>, ys: seq<Value>): (edits: seq<Entry>)
    requires dec.Decoding? && |ys| == |entries|
    requires forall i :: 0 <= i < |entries| ==> entries[i].key in schema.fields
    ensures |edits| == |entries|
    ensures forall i :: 0 <= i < |edits| ==>
                          edits[i] == Entry(NewKey(dec, schema.fields[entries[i].key], entries[i].key), ys[i])
  {
    seq(|entries|, i requires 0 <= i < |entries| =>
      Entry(NewKey(dec, schema.fields[entries[i].key], entries[i].key), ys[i]))
  }

  lemma DecodeEditAt(dec: Pass, schema: Schema, v: Value, i: nat, y: Value, a: Address)
    requires dec.Decoding? && v.Dict? && i < |v.entries|
    requires var e := v.entries[i];
             && e.key in schema.fields && ParseKey(e.key) == Some(Key(e.key, ""))
             && DecodesTo(dec, schema.fields[e.key], e.key, e.value, y, a)
    ensures EditAt(dec, schema, v, i, a) ==
            Ok(Assign(NewKey(dec, schema.fields[v.entries[i].key], v.entries[i].key), y))
  {
    hide ParseKey, WalkField, EditOf, DecodedKey;
  }

  lemma EncodeEditAt(enc: Pass, schema: Schema, w: Value, j: nat, key: Key, u: Value, b: Address)
    requires w.Dict? && j < |w.entries|
    requires var e := w.entries[j];
             && ParseKey(e.key) == Some(key) && key.base in schema.fields
             && EncodesTo(enc, schema.fields[key.base], e.key, key, e.value, u, b)
    ensures EditAt(enc, schema, w, j, b) == Ok(Assign(key.base, u))
  {
    hide ParseKey, WalkField, EditOf;
  }

  lemma DecodedObject(dec: Pass, enc: Pass, schema: Schema, v: Value, ys: seq<Value>, us: seq<Value>,
                      a: Address, b: Address) returns (edits: seq<Entry>, s: State)
    requires IsUnfiltered(dec, enc) && Conforms(dec.units, schema, v)
    requires EntriesReturn(dec, enc, schema, v, ys, us, |v.entries|, a, b)
    ensures |edits| == |v.entries|
    ensures forall i :: 0 <= i < |edits| ==>
                          v.entries[i].key in schema.fields &&
                          edits[i] == Entry(NewKey(dec, schema.fields[v.entries[i].key], v.entries[i].key), ys[i])
    ensures OwnNames(v.entries, Assigns(edits))
    ensures WalkDict(dec, schema, v, |v.entries|, a) == Ok(s) && Settled(v.entries, Assigns(edits), |edits|, s)
  {
    hide ParseKey, WalkDict, EditAt, NewKey, Parsed, DecodesTo, EncodesTo, Same, FieldConforms, HasReadableKey, Settled;
    edits := DecodeEdits(dec, schema, v.entries, ys);
    forall i | 0 <= i < |edits|
      ensures EditAt(dec, schema, v, i, a) == Ok(Assign(edits[i].key, edits[i].value))
      ensures Base(edits[i].key) == v.entries[i].key && Base(v.entries[i].key) == v.entries[i].key
    {
      var e := v.entries[i];
      assert EntryReturns(dec, enc, schema, e, ys[i], us[i], a, b);
      NewKeyParses(dec, schema.fields[e.key], e.key);
      ParsedBase(dec, schema.fields[e.key], e.key);
      DecodeEditAt(dec, schema, v, i, ys[i], a);
    }
    EditsSettle(dec, schema, v, |edits|, a, Assigns(edits));
    s := WalkDict(dec, schema, v, |v.entries|, a).value;
  }

  lemma ParsedBase(dec: Pass, f: Field, key: string)
    requires dec.Decoding?
    ensures Parsed(dec, f, key).base == key
  {
  }

  // ---- Back from the decoded object -----------------------------------------------------------------

  lemma {:induction false} IndexOfPresent(edits: seq<Entry>, i: nat)
    requires i < |edits| && forall j, k :: 0 <= j < k < |edits| ==> edits[j].key != edits[k].key
    ensures IndexOf(edits, edits[i].key) == i
  {
    if i > 0 {
      IndexOfPresent(edits[1..], i - 1);
    }
  }

  /** Where the entries of the decoded object come from. */
  ghost predicate IsOrder(edits: seq<Entry>, entries: seq<Entry>, order: seq<nat>) {
    && |order| == |entries|
    && (forall j :: 0 <= j < |order| ==> order[j] < |edits| && entries[j] == edits[order[j]])
    && (forall j, k :: 0 <= j < k < |order| ==> order[j] != order[k])
    && forall i :: 0 <= i < |edits| ==> i in order
  }

  lemma OrderOf(entries: seq<Entry>, edits: seq<Entry>, s: State) returns (order: seq<nat>)
    requires |edits| == |entries| && OwnNames(entries, Assigns(edits)) && Settled(entries, Assigns(edits), |edits|, s)
    ensures IsOrder(edits, s.obj, order)
  {
    hide Base, Get;
    forall j, k | 0 <= j < k < |edits| ensures edits[j].key != edits[k].key {
      assert Assigns(edits)[j].Assign? && Assigns(edits)[k].Assign?;
      assert Base(edits[j].key) == Base(entries[j].key) && Base(edits[k].key) == Base(entries[k].key);
    }
    order := seq(|s.obj|, j requires 0 <= j < |s.obj| => IndexOf(edits, s.obj[j].key));
    forall j | 0 <= j < |order| ensures order[j] < |edits| && s.obj[j] == edits[order[j]] {
      GetAt(s.obj, j);
      var i := SettledKey(entries, edits, s, s.obj[j].key);
      assert Assigns(edits)[i].Assign?;
      IndexOfPresent(edits, i);
    }
    forall i | 0 <= i < |edits| ensures i in order {
      assert Assigns(edits)[i].Assign?;
      var j := GetPresent(s.obj, edits[i].key);
      IndexOfPresent(edits, i);
      assert order[j] == i;
    }
  }

  function EncodeEdits(entries: seq<Entry>, us: seq<Value>, order: seq<nat>): (edits: seq<Entry>)
    requires |us| == |entries| && forall j :: 0 <= j < |order| ==> order[j] < |entries|
    ensures |edits| == |order|
    ensures forall j :: 0 <= j < |order| ==> edits[j] == Entry(entries[order[j]].key, us[order[j]])
  {
    seq(|order|, j requires 0 <= j < |order| => Entry(entries[order[j]].key, us[order[j]]))
  }

  lemma EncodedEntry(dec: Pass, enc: Pass, schema: Schema, v: Value, ys: seq<Value>, us: seq<Value>,
                     a: Address, b: Address, w: Value, i: nat, j: nat)
    requires dec.Decoding? && v.Dict? && EntriesReturn(dec, enc, schema, v, ys, us, |v.entries|, a, b)
    requires w.Dict? && i < |v.entries| && j < |w.entries| && v.entries[i].key in schema.fields
    requires w.entries[j] == Entry(NewKey(dec, schema.fields[v.entries[i].key], v.entries[i].key), ys[i])
    ensures EditAt(enc, schema, w, j, b) == Ok(Assign(v.entries[i].key, us[i]))
    ensures Base(w.entries[j].key) == v.entries[i].key && Base(v.entries[i].key) == v.entries[i].key
  {
    hide ParseKey, EditAt, NewKey, Parsed, DecodesTo, EncodesTo, Same, HasReadableKey;
    var key := v.entries[i].key;
    var f := schema.fields[key];
    assert EntryReturns(dec, enc, schema, v.entries[i], ys[i], us[i], a, b);
    NewKeyParses(dec, f, key);
    ParsedBase(dec, f, key);
    EncodeEditAt(enc, schema, w, j, Parsed(dec, f, key), us[i], b);
  }

  lemma EncodedObject(dec: Pass, enc: Pass, schema: Schema, v: Value, ys: seq<Value>, us: seq<Value>,
                      a: Address, b: Address, edits: seq<Entry>, w: Value, order: seq<nat>)
    returns (back: seq<Entry>, s: State)
    requires dec.Decoding? && v.Dict? && UniqueKeys(v.entries)
    requires EntriesReturn(dec, enc, schema, v, ys, us, |v.entries|, a, b)
    requires |edits| == |v.entries|
    requires forall i :: 0 <= i < |edits| ==>
                           v.entries[i].key in schema.fields &&
                           edits[i] == Entry(NewKey(dec, schema.fields[v.entries[i].key], v.entries[i].key), ys[i])
    requires w.Dict? && UniqueKeys(w.entries) && IsOrder(edits, w.entries, order)
    ensures back == EncodeEdits(v.entries, us, order)
    ensures WalkDict(enc, schema, w, |w.entries|, b) == Ok(s) && Settled(w.entries, Assigns(back), |back|, s)
  {
    hide WalkDict, EditAt, NewKey, EntryReturns, Base, Settled;
    back := EncodeEdits(v.entries, us, order);
    forall j | 0 <= j < |back|
      ensures EditAt(enc, schema, w, j, b) == Ok(Assign(back[j].key, back[j].value))
      ensures Base(w.entries[j].key) == back[j].key && Base(back[j].key) == back[j].key
    {
      EncodedEntry(dec, enc, schema, v, ys, us, a, b, w, order[j], j);
    }
    EditsSettle(enc, schema, w, |back|, b, Assigns(back));
    s := WalkDict(enc, schema, w, |w.entries|, b).value;
  }

  lemma SameResult(v: Value, us: seq<Value>, edits: seq<Entry>, entries: seq<Entry>, order: seq<nat>, s: State)
    requires v.Dict? && UniqueKeys(v.entries) && |us| == |v.entries| == |edits| && IsOrder(edits, entries, order)
    requires forall i :: 0 <= i < |us| ==> Same(v.entries[i].value, us[i])
    requires Settled(entries, Assigns(EncodeEdits(v.entries, us, order)), |entries|, s)
    ensures Same(v, Dict(s.obj))
  {
    hide Get, Settled;
    var u, back := Dict(s.obj), EncodeEdits(v.entries, us, order);
    forall i | 0 <= i < ChildCount(v) ensures SameEntry(v, u, i) {
      assert i in order;
      var j :| 0 <= j < |order| && order[j] == i;
      SettledEntry(entries, back, s, j);
    }
    forall key | Get(u.entries, key).Some? ensures Get(v.entries, key).Some? {
      var j := SettledKey(entries, back, s, key);
      GetAt(v.entries, order[j]);
    }
    SettledUnique(entries, back, s);
  }

  lemma SettledEntry(entries: seq<Entry>, edits: seq<Entry>, s: State, j: nat)
    requires j < |edits| == |entries| && Settled(entries, Assigns(edits), |entries|, s)
    ensures Get(s.obj, edits[j].key) == Some(edits[j].value)
  {
    hide Get;
    assert Assigns(edits)[j].Assign?;
  }

  lemma SettledKey(entries: seq<Entry>, edits: seq<Entry>, s: State, key: string) returns (j: nat)
    requires |edits| == |entries| && Settled(entries, Assigns(edits), |entries|, s) && Get(s.obj, key).Some?
    ensures j < |edits| && edits[j].key == key
  {
    hide Get;
    assert IsKeyAfter(entries, Assigns(edits), |entries|, key);
    var k :| 0 <= k < |edits| && Assigns(edits)[k].Assign? && Assigns(edits)[k].key == key;
    j := k;
  }

  lemma SettledUnique(entries: seq<Entry>, edits: seq<Entry>, s: State)
    requires |edits| == |entries| && Settled(entries, Assigns(edits), |entries|, s)
    ensures UniqueKeys(s.obj)
  {
  }

  lemma EntriesSame(dec: Pass, enc: Pass, schema: Schema, v: Value, ys: seq<Value>, us: seq<Value>, a: Address,
                    b: Address)
    requires dec.Decoding? && v.Dict? && EntriesReturn(dec, enc, schema, v, ys, us, |v.entries|, a, b)
    ensures forall i :: 0 <= i < |us| ==> Same(v.entries[i].value, us[i])
  {
    hide DecodesTo, EncodesTo, Same, HasReadableKey;
    forall i | 0 <= i < |us| ensures Same(v.entries[i].value, us[i]) {
      assert EntryReturns(dec, enc, schema, v.entries[i], ys[i], us[i], a, b);
    }
  }

  lemma MessageReturns(dec: Pass, enc: Pass, schema: Schema, v: Value, a: Address, b: Address)
    returns (y: Value, u: Value)
    requires IsUnfiltered(dec, enc) && Conforms(dec.units, schema, v)
    ensures MessageGoes(dec, schema, v, y, a) && MessageGoes(enc, schema, y, u, b) && Same(v, u)
    decreases v, 1, 0
  {
    hide WalkDict, EntriesReturn, Settled, OwnNames, IsOrder, Same, NewKey, FieldConforms;
    var ys, us := EntriesReturnEach(dec, enc, schema, v, a, b);
    EntriesSizes(dec, enc, schema, v, ys, us, a, b);
    var edits, s := DecodedObject(dec, enc, schema, v, ys, us, a, b);
    var order := OrderOf(v.entries, edits, s);
    y := Dict(s.obj);
    SettledUnique(v.entries, edits, s);
    var back, t := EncodedObject(dec, enc, schema, v, ys, us, a, b, edits, y, order);
    u := Dict(t.obj);
    EntriesSame(dec, enc, schema, v, ys, us, a, b);
    OrderSize(edits, s.obj, order);
    SameResult(v, us, edits, s.obj, order, t);
  }

  lemma EntriesSizes(dec: Pass, enc: Pass, schema: Schema, v: Value, ys: seq<Value>, us: seq<Value>, a: Address,
                     b: Address)
    requires dec.Decoding? && v.Dict? && EntriesReturn(dec, enc, schema, v, ys, us, |v.entries|, a, b)
    ensures |ys| == |us| == |v.entries|
  {
  }

  lemma OrderSize(edits: seq<Entry>, entries: seq<Entry>, order: seq<nat>)
    requires IsOrder(edits, entries, order)
    ensures |order| == |entries| && forall j :: 0 <= j < |order| ==> order[j] < |edits|
  {
  }

  /** `pre_encode` after `post_decode` gives back every content tree, with typed and with postfixed metadata. */
  lemma ContentRoundTrip(units: Units, mode: ReadMode, mask: seq<seq<nat>>, maskMode: MaskMode, schema: Schema,
                         content: seq<Entry>) returns (decoded: State, encoded: State)
    requires IsUnits(units) && Conforms(units, schema, Dict(content))
    ensures Decoded(units, false, NoMask, mode, mask, schema, content) == Ok(decoded)
    ensures Encoded(units, false, maskMode, schema, decoded.obj) == Ok(encoded)
    ensures Same(Dict(content), Dict(encoded.obj))
  {
    hide WalkDict, Same, Conforms, IsUnits;
    var dec := Decoding(units, false, NoMask, mode, mask);
    var enc := Encoding(units, false, maskMode);
    var y, u := MessageReturns(dec, enc, schema, Dict(content), [], []);
    decoded := WalkDict(dec, schema, Dict(content), |content|, []).value;
    encoded := WalkDict(enc, schema, y, |y.entries|, []).value;
  }
}
