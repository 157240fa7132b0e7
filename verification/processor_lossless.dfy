/** Exactly which content comes back after it was decoded and encoded. */
module ProcessorLossless {
  import opened Data
  import opened Processor
  import opened ProcessorDicts
  import opened ProcessorExcluded
  import opened ProcessorLeaves
  import opened ProcessorMasks
  import opened ProcessorRoundTrip
  import opened ProcessorValues
  import opened Wrappers

  // ---- The two edits of a field -----------------------------------------------------------------

  lemma TypedObject(units: Units, schema: Schema, v: Value)
    requires HasType(units, schema, v)
    ensures IsPlainObject(v)
  {
    hide FieldHasType, IsPlainName;
    forall i | 0 <= i < |v.entries| ensures IsPlainName(v.entries[i].key) {
      assert i < ChildCount(v);
    }
  }

  lemma TypedEntry(units: Units, schema: Schema, v: Value, i: nat)
    requires HasType(units, schema, v) && i < ChildCount(v)
    ensures v.Dict? && v.entries[i].key in schema.fields
    ensures FieldHasType(units, schema.fields[v.entries[i].key], ChildAt(v, i))
    ensures HasReadableKey(units, schema.fields[v.entries[i].key], v.entries[i].key)
  {
    hide IsPlainName, IsPostfix, IsReversible, AllHaveType;
  }

  lemma DecodedNames(pass: Pass, schema: Schema, v: Value, parent: Address)
    requires pass.Decoding? && IsPlainObject(v) && WalkMessage(pass, schema, v, parent).Ok?
    ensures OneNameEach(WalkMessage(pass, schema, v, parent).value.value)
  {
    hide WalkDict, EditAt, Settled, AreEdits, HasOwnNames, OwnNames, KeepsNames, IsPlainName;
    PlainNames(v);
    DecodingKeepsNames(pass, schema, v, parent);
    var edits := WalkEdits(pass, schema, v, |v.entries|, parent);
    SettledNames(v.entries, edits, WalkDict(pass, schema, v, |v.entries|, parent).value);
  }

  lemma DecodedField(pass: Pass, f: Field, key: string, v: Value, parent: Address, edit: Edit)
    requires pass.Decoding? && !pass.filter && pass.maskMode == NoMask
    requires IsDecodedTo(pass, f, key, v, parent, edit) && edit.Assign? && edit.key == NewKey(pass, f, key)
    ensures DecodesTo(pass, f, key, v, edit.value, parent)
  {
    hide WalkField, DecodeEdit, NewKey;
  }

  lemma EncodedField(dec: Pass, enc: Pass, schema: Schema, w: Value, j: nat, key: string, u: Value, b: Address)
    requires IsUnfiltered(dec, enc) && w.Dict? && j < |w.entries| && key in schema.fields
    requires HasReadableKey(dec.units, schema.fields[key], key)
    requires w.entries[j].key == NewKey(dec, schema.fields[key], key)
    requires EditAt(enc, schema, w, j, b) == Ok(Assign(key, u))
    ensures var e := w.entries[j];
            EncodesTo(enc, schema.fields[key], e.key, Parsed(dec, schema.fields[key], key), e.value, u, b)
  {
    hide ParseKey, WalkField, EditOf, NewKey, HasReadableKey, Parsed;
    NewKeyParses(dec, schema.fields[key], key);
    ParsedBase(dec, schema.fields[key], key);
  }

  /** An entry that came back was decoded and encoded. */
  lemma EntryReturned(dec: Pass, enc: Pass, schema: Schema, v: Value, y: Value, u: Value, a: Address, b: Address,
                      i: nat)
    returns (yi: Value, ui: Value)
    requires IsUnfiltered(dec, enc) && HasType(dec.units, schema, v) && i < ChildCount(v)
    requires MessageGoes(dec, schema, v, y, a) && MessageGoes(enc, schema, y, u, b) && Same(v, u)
    ensures v.Dict? && v.entries[i].key in schema.fields
    ensures FieldHasType(dec.units, schema.fields[v.entries[i].key], ChildAt(v, i))
    ensures Returns(dec, enc, schema.fields[v.entries[i].key], v.entries[i].key, ChildAt(v, i), yi, ui, a, b)
  {
    hide WalkMessage, FieldHasType, HasType, IsPlainObject, Get, Base, EditAt, IsDecodedTo, DecodesTo, EncodesTo,
      NewKey, Parsed, HasReadableKey, HasOwnNames, OneNameEach, IsUnits;
    TypedObject(dec.units, schema, v);
    TypedEntry(dec.units, schema, v, i);
    PlainUnique(v);
    var key := v.entries[i].key;
    var f := schema.fields[key];
    GetAt(v.entries, i);
    var edit := DecodedAt(dec, schema, v, a, key);
    DecodedNames(dec, schema, v, a);
    assert SameEntry(v, u, i);
    var j, back := EncodedFrom(enc, schema, y, b, key);
    EncodedEdit(enc, schema, y, j, b);
    NewKeyBaseOf(dec, schema, v, i);
    OneNameUnique(y);
    GetAt(y.entries, j);
    yi, ui := y.entries[j].value, back.value;
    assert Base(y.entries[j].key) == key;
    DecodedField(dec, f, key, ChildAt(v, i), a, edit);
    EncodedField(dec, enc, schema, y, j, key, ui, b);
  }

  lemma PlainUnique(v: Value)
    requires IsPlainObject(v)
    ensures v.Dict? && UniqueKeys(v.entries)
  {
  }

  lemma NewKeyBaseOf(pass: Pass, schema: Schema, v: Value, i: nat)
    requires pass.Decoding? && IsPlainObject(v) && i < |v.entries| && v.entries[i].key in schema.fields
    ensures Base(v.entries[i].key) == v.entries[i].key
  {
    hide Base, IsPlainName;
    NewKeyBase(pass, schema.fields[v.entries[i].key], v.entries[i].key);
  }

  // ---- Lists and maps of messages ------------------------------------------------------------------

  /** If a walk over messages succeeds, then so did each of them. */
  lemma {:induction false} MessagesGo(pass: Pass, schema: Schema, v: Value, n: nat, address: Address)
    requires n <= ChildCount(v) && WalkMessages(pass, schema, v, n, address).Ok?
    ensures var r := WalkMessages(pass, schema, v, n, address).value.value;
            && SameKeys(v, r)
            && (forall i :: 0 <= i < n ==> MessageGoes(pass, schema, ChildAt(v, i), ChildAt(r, i), address))
            && (forall i :: n <= i < ChildCount(v) ==> ChildAt(r, i) == ChildAt(v, i))
    decreases n
  {
    hide WalkMessage;
    if n > 0 {
      MessagesGo(pass, schema, v, n - 1, address);
      WalkedIsDict(pass, schema, ChildAt(v, n - 1), address);
    }
  }

  lemma SameChildAt(v: Value, u: Value, i: nat)
    requires SameKeys(v, u) && IsContainer(v) && Same(v, u) && i < ChildCount(v)
    ensures Same(ChildAt(v, i), ChildAt(u, i))
  {
    if v.Dict? {
      assert SameEntry(v, u, i);
      GetAt(u.entries, i);
    }
  }

  lemma KeysAgree(v: Value, y: Value, u: Value)
    requires SameKeys(v, y) && SameKeys(y, u) && IsContainer(v)
    ensures SameKeys(v, u) && ChildCount(v) == ChildCount(y) == ChildCount(u)
  {
  }

  /** The data nested in a message field. */
  function NestedWalk(pass: Pass, f: Field, v: Value, parent: Address): Result<Walked, Error>
    requires !f.kind.Scalar?
  {
    var address := parent + [Some(f.number)];
    if f.repeated then WalkMessages(pass, f.kind.schema, v, ChildCount(v), address + [None])
    else WalkMessage(pass, f.kind.schema, v, address)
  }

  lemma NestedWalked(pass: Pass, f: Field, v: Value, parent: Address)
    requires !f.kind.Scalar? && !v.Null? && WalkField(pass, f, v, parent + [Some(f.number)]).Ok?
    ensures WalkField(pass, f, v, parent + [Some(f.number)]) == NestedWalk(pass, f, v, parent)
    ensures var w := NestedWalk(pass, f, v, parent).value.value;
            && (f.repeated ==> IsContainer(v) && SameKeys(v, w))
            && (w.Dict? || (w.List? && forall i :: 0 <= i < |w.items| ==> w.items[i].Dict?))
  {
    hide WalkMessage, WalkMessages;
    var address := parent + [Some(f.number)];
    if f.repeated {
      MessagesAreDicts(pass, f.kind.schema, v, ChildCount(v), address + [None]);
      ItemsOf(v, NestedWalk(pass, f, v, parent).value.value);
    } else {
      WalkedIsDict(pass, f.kind.schema, v, address);
    }
  }

  lemma NestedDecoded(dec: Pass, f: Field, key: string, v: Value, y: Value, a: Address)
    requires dec.Decoding? && !dec.filter && dec.maskMode == NoMask
    requires HasNoConversion(f.options) && !f.kind.Scalar? && !f.options.ignored && !v.Null?
    requires DecodesTo(dec, f, key, v, y, a)
    ensures NestedWalk(dec, f, v, a).Ok? && NestedWalk(dec, f, v, a).value.value == y && !y.Null?
  {
    hide WalkField, NestedWalk, EditOf, NewKey, ElementAddress, HasNoConversion;
    NestedWalked(dec, f, v, a);
    DecodedUnconverted(dec, f, key, ElementAddress(f, v, a), NestedWalk(dec, f, v, a).value.value);
  }

  lemma NestedEncoded(enc: Pass, f: Field, newKey: string, key: Key, y: Value, u: Value, b: Address)
    requires enc.Encoding? && !enc.filter
    requires HasNoConversion(f.options) && !f.kind.Scalar? && !f.options.ignored && !y.Null?
    requires EncodesTo(enc, f, newKey, key, y, u, b)
    ensures NestedWalk(enc, f, y, b).Ok? && NestedWalk(enc, f, y, b).value.value == u
  {
    hide WalkField, NestedWalk, EditOf, ElementAddress, HasNoConversion;
    NestedWalked(enc, f, y, b);
    EncodedUnconverted(enc, f, newKey, key, ElementAddress(f, y, b), NestedWalk(enc, f, y, b).value.value);
  }

  /** Nested messages came back through their own walks. */
  lemma NestedReturned(dec: Pass, enc: Pass, f: Field, key: string, v: Value, y: Value, u: Value, a: Address,
                       b: Address)
    requires IsUnfiltered(dec, enc) && !f.kind.Scalar? && !f.options.ignored && HasNoConversion(f.options) && !v.Null?
    requires Returns(dec, enc, f, key, v, y, u, a, b)
    ensures NestedWalk(dec, f, v, a).Ok? && NestedWalk(dec, f, v, a).value.value == y
    ensures NestedWalk(enc, f, y, b).Ok? && NestedWalk(enc, f, y, b).value.value == u
    ensures Same(v, u)
  {
    hide DecodesTo, EncodesTo, NestedWalk, NewKey, Parsed, IsUnits, Same, HasNoConversion;
    NestedDecoded(dec, f, key, v, y, a);
    NestedEncoded(enc, f, NewKey(dec, f, key), Parsed(dec, f, key), y, u, b);
  }

  // ---- What came back lost nothing --------------------------------------------------------------------

  lemma TypedMessages(units: Units, f: Field, v: Value)
    requires FieldHasType(units, f, v) && !f.kind.Scalar?
    ensures HasNoConversion(f.options) && IsContainer(v)
    ensures if f.repeated then AllHaveType(units, f.kind.schema, v) else HasType(units, f.kind.schema, v)
  {
    hide AllHaveType, HasNoConversion;
  }

  lemma TypedChild(units: Units, schema: Schema, v: Value, i: nat)
    requires AllHaveType(units, schema, v) && i < ChildCount(v)
    ensures HasType(units, schema, ChildAt(v, i))
  {
    hide HasType;
  }

  lemma NotIgnored(dec: Pass, enc: Pass, f: Field, key: string, v: Value, y: Value, u: Value, a: Address, b: Address)
    requires IsUnfiltered(dec, enc) && Returns(dec, enc, f, key, v, y, u, a, b)
    ensures !f.options.ignored
  {
    hide WalkField, NewKey, Same, EncodesTo, DecodeEdit;
  }

  /** The two walks of one submessage. */
  lemma SubmessageReturned(dec: Pass, enc: Pass, f: Field, v: Value, y: Value, u: Value, a: Address, b: Address)
    requires !f.kind.Scalar? && !f.repeated
    requires NestedWalk(dec, f, v, a).Ok? && NestedWalk(dec, f, v, a).value.value == y
    requires NestedWalk(enc, f, y, b).Ok? && NestedWalk(enc, f, y, b).value.value == u
    ensures MessageGoes(dec, f.kind.schema, v, y, a + [Some(f.number)])
    ensures MessageGoes(enc, f.kind.schema, y, u, b + [Some(f.number)])
  {
    hide WalkMessage;
    WalkedIsDict(dec, f.kind.schema, v, a + [Some(f.number)]);
    WalkedIsDict(enc, f.kind.schema, y, b + [Some(f.number)]);
  }

  /** The two walks of each message in a list or map. */
  lemma EachReturned(dec: Pass, enc: Pass, f: Field, v: Value, y: Value, u: Value, a: Address, b: Address, i: nat)
    requires !f.kind.Scalar? && f.repeated && IsContainer(v) && Same(v, u) && i < ChildCount(v)
    requires NestedWalk(dec, f, v, a).Ok? && NestedWalk(dec, f, v, a).value.value == y
    requires NestedWalk(enc, f, y, b).Ok? && NestedWalk(enc, f, y, b).value.value == u
    ensures ChildCount(y) == ChildCount(u) == ChildCount(v) && Same(ChildAt(v, i), ChildAt(u, i))
    ensures MessageGoes(dec, f.kind.schema, ChildAt(v, i), ChildAt(y, i), a + [Some(f.number)] + [None])
    ensures MessageGoes(enc, f.kind.schema, ChildAt(y, i), ChildAt(u, i), b + [Some(f.number)] + [None])
  {
    hide WalkMessages, MessageGoes, Same;
    MessagesGo(dec, f.kind.schema, v, ChildCount(v), a + [Some(f.number)] + [None]);
    MessagesGo(enc, f.kind.schema, y, ChildCount(y), b + [Some(f.number)] + [None]);
    KeysAgree(v, y, u);
    SameChildAt(v, u, i);
  }

  lemma FieldReturned(dec: Pass, enc: Pass, f: Field, key: string, v: Value, y: Value, u: Value, a: Address, b: Address)
    requires IsUnfiltered(dec, enc) && FieldHasType(dec.units, f, v) && Returns(dec, enc, f, key, v, y, u, a, b)
    ensures FieldIsLossless(f, v)
    decreases v, 1
  {
    hide Returns, NestedWalk, Same, HasType, AllHaveType, IsLossless, IsSuppressed, IsUnits, HasNoConversion,
      FieldHasType, MessageGoes;
    NotIgnored(dec, enc, f, key, v, y, u, a, b);
    if f.kind.Scalar? {
      ScalarCameBack(dec, enc, f, key, v, y, u, a, b);
    } else {
      TypedMessages(dec.units, f, v);
      NestedReturned(dec, enc, f, key, v, y, u, a, b);
      if f.repeated {
        forall i | 0 <= i < ChildCount(v) ensures IsLossless(f.kind.schema, ChildAt(v, i)) {
          TypedChild(dec.units, f.kind.schema, v, i);
          EachReturned(dec, enc, f, v, y, u, a, b, i);
          MessageReturned(dec, enc, f.kind.schema, ChildAt(v, i), ChildAt(y, i), ChildAt(u, i),
                          a + [Some(f.number)] + [None], b + [Some(f.number)] + [None]);
        }
      } else {
        SubmessageReturned(dec, enc, f, v, y, u, a, b);
        MessageReturned(dec, enc, f.kind.schema, v, y, u, a + [Some(f.number)], b + [Some(f.number)]);
      }
    }
  }

  lemma ScalarCameBack(dec: Pass, enc: Pass, f: Field, key: string, v: Value, y: Value, u: Value, a: Address,
                       b: Address)
    requires IsUnfiltered(dec, enc) && f.kind.Scalar? && FieldHasType(dec.units, f, v)
    requires Returns(dec, enc, f, key, v, y, u, a, b)
    ensures FieldIsLossless(f, v)
  {
    hide DecodesTo, EncodesTo, FieldIsLossless, NewKey, Parsed, IsUnits, Same;
    SameScalar(dec.units, f, v, u);
    ScalarReturned(dec, enc, f, key, v, y, a, b);
  }

  lemma SameScalar(units: Units, f: Field, v: Value, u: Value)
    requires f.kind.Scalar? && FieldHasType(units, f, v) && Same(v, u)
    ensures u == v
  {
    hide IsReversible, IsLeafValue, HasPostfixes;
    if f.repeated {
      assert u.List? && |u.items| == |v.items|;
      forall i | 0 <= i < |v.items| ensures v.items[i] == u.items[i] {
        LeafIsNoDict(f.options, f.kind.isInt, v.items[i]);
        assert Same(ChildAt(v, i), u.items[i]);
      }
      assert u.items == v.items;
    } else {
      LeafIsNoDict(f.options, f.kind.isInt, v);
    }
  }

  /** A message that comes back lost nothing. */
  lemma MessageReturned(dec: Pass, enc: Pass, schema: Schema, v: Value, y: Value, u: Value, a: Address, b: Address)
    requires IsUnfiltered(dec, enc) && HasType(dec.units, schema, v)
    requires MessageGoes(dec, schema, v, y, a) && MessageGoes(enc, schema, y, u, b) && Same(v, u)
    ensures IsLossless(schema, v)
    decreases v, 0
  {
    hide MessageGoes, Same, HasType, FieldHasType, FieldIsLossless, Returns, IsUnits;
    forall i | 0 <= i < ChildCount(v) && v.Dict? && v.entries[i].key in schema.fields
      ensures FieldIsLossless(schema.fields[v.entries[i].key], ChildAt(v, i))
    {
      var yi, ui := EntryReturned(dec, enc, schema, v, y, u, a, b, i);
      FieldReturned(dec, enc, schema.fields[v.entries[i].key], v.entries[i].key, ChildAt(v, i), yi, ui, a, b);
    }
  }

  /** `pre_encode` undoes `post_decode`. */
  ghost predicate ComesBack(units: Units, mode: ReadMode, mask: seq<seq<nat>>, maskMode: MaskMode, schema: Schema,
                            content: seq<Entry>) {
    var decoded := Decoded(units, false, NoMask, mode, mask, schema, content);
    && decoded.Ok?
    && var encoded := Encoded(units, false, maskMode, schema, decoded.value.obj);
       encoded.Ok? && Same(Dict(content), Dict(encoded.value.obj))
  }

  /** Content comes back exactly if no field in it is ignored and no zero in it is omitted or sent as null. */
  lemma ContentReturnsExactly(units: Units, mode: ReadMode, mask: seq<seq<nat>>, maskMode: MaskMode, schema: Schema,
                              content: seq<Entry>)
    requires IsUnits(units) && HasType(units, schema, Dict(content))
    ensures ComesBack(units, mode, mask, maskMode, schema, content) <==> IsLossless(schema, Dict(content))
  {
    hide WalkDict, Same, HasType, IsLossless, IsUnits;
    if IsLossless(schema, Dict(content)) {
      var decoded, encoded := ContentRoundTrip(units, mode, mask, maskMode, schema, content);
    }
    if ComesBack(units, mode, mask, maskMode, schema, content) {
      var dec, enc := Decoding(units, false, NoMask, mode, mask), Encoding(units, false, maskMode);
      var y := Decoded(units, false, NoMask, mode, mask, schema, content).value.obj;
      var u := Encoded(units, false, maskMode, schema, y).value.obj;
      MessageReturned(dec, enc, schema, Dict(content), Dict(y), Dict(u), [], []);
    }
  }
}
