/** Quantities in whole content trees stay near to what they were when they are encoded and decoded. */
module ProcessorNear {
  import opened Data
  import opened Processor
  import opened ProcessorDicts
  import opened ProcessorExcluded
  import opened ProcessorLeaves
  import opened ProcessorMasks
  import opened ProcessorValues
  import opened Wrappers

  // ---- Paths to quantities ---------------------------------------------------------------------

  /** Submessages lead to an amount in a field for scaled integers; keys may have postfixes. */
  ghost predicate LeadsToAmount(units: Units, schema: Schema, v: Value, keys: seq<string>, unit: string, amount: real)
    decreases |keys|
  {
    && keys != [] && OneNameEach(v) && Get(v.entries, keys[0]).Some? && FindElement(schema, keys[0]).Ok?
    && var e, x := FindElement(schema, keys[0]).value, Get(v.entries, keys[0]).value;
       && !e.field.options.ignored
       && if |keys| == 1 then
            && e.field.kind == Scalar(true) && !e.field.repeated && IsScaledQuantity(units, e.field.options)
            && IsAmount(units, e.field.options.unit.value, e.key.postfix, x, unit, amount)
          else IsSubmessage(e.field) && LeadsToAmount(units, e.field.kind.schema, x, keys[1..], unit, amount)
  }

  /** The field at the end of a path. */
  function FieldAt(schema: Schema, keys: seq<string>): Option<Field>
    decreases |keys|
  {
    if keys == [] || FindElement(schema, keys[0]).Err? then None
    else
      var f := FindElement(schema, keys[0]).value.field;
      if |keys| == 1 then Some(f) else if f.kind.Scalar? then None else FieldAt(f.kind.schema, keys[1..])
  }

  /** What decoding has put at the end of a path of field names. */
  function FoundAt(pass: Pass, schema: Schema, r: Value, names: seq<string>): Option<Value>
    requires pass.Decoding?
    decreases |names|
  {
    if names == [] || names[0] !in schema.fields || !r.Dict? then None
    else
      var f := schema.fields[names[0]];
      var found := Get(r.entries, NewKey(pass, f, names[0]));
      if found.None? || |names| == 1 then found
      else if f.kind.Scalar? then None
      else FoundAt(pass, f.kind.schema, found.value, names[1..])
  }

  /** A decoded amount in the user's unit. */
  function UserAmount(units: Units, o: Options, metadata: Metadata, amount: real): Value
    requires o.unit.Some?
  {
    if metadata == Typed then Quantity(UserUnit(units, o.unit.value), Real(amount), o.readonly) else Real(amount)
  }

  /** The amounts differ by at most half a step, in system units. */
  ghost predicate IsNear(units: Units, o: Options, unit: string, amount: real, decoded: real) {
    && o.unit.Some? && o.unit.value in units && unit in units[o.unit.value].known && o.scale > 0
    && units[o.unit.value].known[unit].factor != 0.0 && UserMap(units, o.unit.value).factor != 0.0
    && var step := 1.0 / (2 * o.scale) as real;
       var error := ToSystem(UserMap(units, o.unit.value), decoded) - ToSystem(units[o.unit.value].known[unit], amount);
       -step <= error <= step
  }

  // ---- Encoded objects ------------------------------------------------------------------------------

  lemma BaseIsPlain(key: string)
    requires ParseKey(key).Some?
    ensures IsPlainName(Base(key))
  {
    hide BehindSymbols, UntilComma;
  }

  lemma EncodedKeyIsPlain(pass: Pass, schema: Schema, v: Value, i: nat, parent: Address)
    requires pass.Encoding? && v.Dict? && i < |v.entries| && EditAt(pass, schema, v, i, parent).Ok?
    ensures EditAt(pass, schema, v, i, parent).value.Assign? ==>
            IsPlainName(EditAt(pass, schema, v, i, parent).value.key)
  {
    hide EditOf, WalkField, ParseKey, IsPlainName, Base;
    EncodedEdit(pass, schema, v, i, parent);
    BaseIsPlain(v.entries[i].key);
  }

  lemma EncodedIsPlain(pass: Pass, schema: Schema, v: Value, address: Address)
    requires pass.Encoding? && OneNameEach(v) && WalkMessage(pass, schema, v, address).Ok?
    ensures IsPlainObject(WalkMessage(pass, schema, v, address).value.value)
  {
    hide WalkDict, EditAt, Base, Get, Settled, AreEdits, HasOwnNames, OwnNames, KeepsNames, IsPlainName;
    OneNameUnique(v);
    EncodingKeepsNames(pass, schema, v, address);
    var edits := WalkEdits(pass, schema, v, |v.entries|, address);
    EditsSize(pass, schema, v, address, edits);
    var s := WalkDict(pass, schema, v, |v.entries|, address).value;
    SettledIsUnique(v.entries, edits, s);
    forall j | 0 <= j < |s.obj| ensures IsPlainName(s.obj[j].key) {
      var i := SettledFrom(v.entries, edits, s, j);
      EditsAt(pass, schema, v, i, address, edits);
      EncodedKeyIsPlain(pass, schema, v, i, address);
    }
  }

  lemma SettledIsUnique(entries: seq<Entry>, edits: seq<Edit>, s: State)
    requires |edits| == |entries| && Settled(entries, edits, |edits|, s)
    ensures UniqueKeys(s.obj)
  {
  }

  // ---- One amount -----------------------------------------------------------------------------------------

  lemma AmountIsEncoded(pass: Pass, schema: Schema, v: Value, i: nat, parent: Address, edit: Edit, unit: string,
                        amount: real)
    returns (n: int, decoded: real)
    requires pass.Encoding? && !pass.filter && v.Dict? && i < |v.entries|
    requires EditAt(pass, schema, v, i, parent) == Ok(edit) && FindElement(schema, v.entries[i].key).Ok?
    requires var e := FindElement(schema, v.entries[i].key).value;
             && !e.field.options.ignored && e.field.kind == Scalar(true)
             && IsScaledQuantity(pass.units, e.field.options)
             && IsAmount(pass.units, e.field.options.unit.value, e.key.postfix, v.entries[i].value, unit, amount)
    ensures edit.Assign? && edit.value == Int(n)
    ensures var o := FindElement(schema, v.entries[i].key).value.field.options;
            && DecodeValue(pass.units, o, Postfix, false, Int(n)) == Ok(Real(decoded))
            && DecodeValue(pass.units, o, Typed, false, Int(n)) == Ok(UserAmount(pass.units, o, Typed, decoded))
            && IsNear(pass.units, o, unit, amount, decoded)
  {
    hide FindElement, EncodeValue, DecodeValue, FromSystem, ToSystem, Quantity, UserUnit, Get;
    var e := FindElement(schema, v.entries[i].key).value;
    n, decoded := EncodedValueIsNear(pass.units, e.field.options, e.key.postfix, v.entries[i].value, unit, amount);
  }

  lemma AmountIsDecoded(pass: Pass, f: Field, key: string, n: int, parent: Address, edit: Edit, decoded: real)
    requires pass.Decoding? && !pass.filter && pass.maskMode == NoMask
    requires f.kind.Scalar? && !f.options.ignored && f.options.unit.Some? && !f.options.omitIfZero
    requires IsDecodedTo(pass, f, key, Int(n), parent, edit)
    requires DecodeValue(pass.units, f.options, Postfix, false, Int(n)) == Ok(Real(decoded))
    requires DecodeValue(pass.units, f.options, Typed, false, Int(n)) ==
             Ok(UserAmount(pass.units, f.options, Typed, decoded))
    ensures edit == Assign(NewKey(pass, f, key), UserAmount(pass.units, f.options, MetadataOf(pass.mode), decoded))
  {
    hide DecodeValue, DecodedKey, DecodeItems, UserUnit, Quantity;
  }

  // ---- Along a path -----------------------------------------------------------------------------------------

  lemma FieldOf(schema: Schema, key: string)
    requires FindElement(schema, key).Ok?
    ensures Base(key) in schema.fields && schema.fields[Base(key)] == FindElement(schema, key).value.field
  {
    hide ParseKey;
  }

  lemma AmountThrough(enc: Pass, dec: Pass, schema: Schema, v: Value, keys: seq<string>, unit: string, amount: real,
                      a: Address, b: Address) returns (decoded: real)
    requires enc.Encoding? && !enc.filter
    requires dec.Decoding? && !dec.filter && dec.maskMode == NoMask && dec.units == enc.units
    requires LeadsToAmount(enc.units, schema, v, keys, unit, amount) && WalkMessage(enc, schema, v, a).Ok?
    requires WalkMessage(dec, schema, WalkMessage(enc, schema, v, a).value.value, b).Ok?
    ensures FieldAt(schema, keys).Some?
    ensures var o := FieldAt(schema, keys).value.options;
            var r := WalkMessage(dec, schema, WalkMessage(enc, schema, v, a).value.value, b).value.value;
            && IsNear(enc.units, o, unit, amount, decoded)
            && FoundAt(dec, schema, r, Bases(keys)) == Some(UserAmount(enc.units, o, MetadataOf(dec.mode), decoded))
    decreases |keys|
  {
    hide WalkMessage, EditAt, FindElement, Get, Base, IsPlainObject, OneNameEach, IsDecodedTo, NewKey, UserAmount,
      IsNear, IsAmount, IsScaledQuantity, IsSubmessage, DecodeValue;
    var w := WalkMessage(enc, schema, v, a).value.value;
    AmountIsIn(enc.units, schema, v, keys, unit, amount);
    var i := GetPresent(v.entries, keys[0]);
    var f, x := FindElement(schema, keys[0]).value.field, v.entries[i].value;
    FieldOf(schema, keys[0]);
    var edit := EncodedAt(enc, schema, v, a, i);
    EncodedEdit(enc, schema, v, i, a);
    EncodedIsPlain(enc, schema, v, a);
    assert Bases(keys)[0] == Base(keys[0]);
    if |keys| == 1 {
      var n: int;
      n, decoded := AmountIsEncoded(enc, schema, v, i, a, edit, unit, amount);
      var back := DecodedAt(dec, schema, w, b, Base(keys[0]));
      ScaledOptions(enc.units, f.options);
      AmountIsDecoded(dec, f, Base(keys[0]), n, b, back, decoded);
    } else {
      SubmessageKind(f);
      AmountIsIn(enc.units, f.kind.schema, x, keys[1..], unit, amount);
      SubmessageIsKept(enc, schema, v, i, a, f, edit);
      SubmessageEdit(enc, schema, v, i, a, f, edit);
      var back := DecodedAt(dec, schema, w, b, Base(keys[0]));
      EncodedIsPlain(enc, f.kind.schema, x, a + [Some(f.number)]);
      PlainIsDict(edit.value);
      SubmessageIsDecoded(dec, f, Base(keys[0]), edit.value, b, back);
      Unfiltered(dec, f);
      assert Bases(keys)[1..] == Bases(keys[1..]);
      decoded := AmountThrough(enc, dec, f.kind.schema, x, keys[1..], unit, amount,
                               a + [Some(f.number)], b + [Some(f.number)]);
    }
  }

  lemma AmountIsIn(units: Units, schema: Schema, v: Value, keys: seq<string>, unit: string, amount: real)
    requires LeadsToAmount(units, schema, v, keys, unit, amount)
    ensures v.Dict? && keys != []
  {
  }

  lemma ScaledOptions(units: Units, o: Options)
    requires IsScaledQuantity(units, o)
    ensures o.unit.Some? && !o.omitIfZero
  {
  }

  lemma PlainIsDict(v: Value)
    requires IsPlainObject(v)
    ensures v.Dict?
  {
  }

  lemma Unfiltered(pass: Pass, f: Field)
    requires !pass.filter && !f.options.ignored
    ensures pass.Decoding? ==> IsRead(pass, f.options)
    ensures pass.Decoding? && pass.maskMode == NoMask ==> forall address :: !IsExcluded(pass, address)
  {
  }

  lemma SubmessageIsKept(pass: Pass, schema: Schema, v: Value, i: nat, parent: Address, f: Field, edit: Edit)
    requires pass.Encoding? && !pass.filter && v.Dict? && i < |v.entries| && v.entries[i].value.Dict?
    requires EditAt(pass, schema, v, i, parent) == Ok(edit) && FindElement(schema, v.entries[i].key).Ok?
    requires FindElement(schema, v.entries[i].key).value.field == f && IsSubmessage(f) && !f.options.ignored
    ensures edit.Assign?
  {
    hide FindElement, WalkMessage, HasNoConversion, EncodeValue;
    WalkedIsDict(pass, f.kind.schema, v.entries[i].value, parent + [Some(f.number)]);
  }

  /**
   * `post_decode` after `pre_encode`: every amount in a field for scaled integers, in whatever unit it was given and
   * however deep it is nested, comes back in the user's unit, off by at most half a step.
   */
  lemma ContentStaysNear(units: Units, maskMode: MaskMode, mode: ReadMode, mask: seq<seq<nat>>, schema: Schema,
                         content: seq<Entry>, keys: seq<string>, unit: string, amount: real) returns (decoded: real)
    requires LeadsToAmount(units, schema, Dict(content), keys, unit, amount)
    requires Encoded(units, false, maskMode, schema, content).Ok?
    requires var sent := Encoded(units, false, maskMode, schema, content).value.obj;
             Decoded(units, false, NoMask, mode, mask, schema, sent).Ok?
    ensures FieldAt(schema, keys).Some?
    ensures var o := FieldAt(schema, keys).value.options;
            var sent := Encoded(units, false, maskMode, schema, content).value.obj;
            var received := Decoded(units, false, NoMask, mode, mask, schema, sent).value.obj;
            && IsNear(units, o, unit, amount, decoded)
            && FoundAt(Decoding(units, false, NoMask, mode, mask), schema, Dict(received), Bases(keys)) ==
               Some(UserAmount(units, o, MetadataOf(mode), decoded))
  {
    hide WalkDict, LeadsToAmount, FieldAt, FoundAt, IsNear, UserAmount, Bases;
    decoded := AmountThrough(Encoding(units, false, maskMode), Decoding(units, false, NoMask, mode, mask), schema,
                             Dict(content), keys, unit, amount, [], []);
  }
}
