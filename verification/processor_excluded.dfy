/** What is left of a payload with a mask after it was decoded. */
module ProcessorExcluded {
  import opened Data
  import opened Processor
  import opened ProcessorDicts
  import opened ProcessorLeaves
  import opened ProcessorMasks
  import opened ProcessorValues
  import opened Wrappers

  // ---- Values that are sent as null ---------------------------------------------------------

  /** Null, or a quantity or link without value. */
  predicate IsBlankItem(o: Options, d: Value) {
    || d.Null?
    || (o.unit.Some? && d.Dict? && Get(d.entries, "value") == Some(Null))
    || (o.unit.None? && o.objtype.Some? && d.Dict? && Get(d.entries, "id") == Some(Null))
  }

  predicate IsBlank(o: Options, d: Value) {
    if d.List? then forall i :: 0 <= i < |d.items| ==> IsBlankItem(o, d.items[i]) else IsBlankItem(o, d)
  }

  /** A single value that decoding does not make blank by itself. */
  predicate IsPresent(o: Options, v: Value) {
    !v.Null? && !IsContainer(v) && !IsSuppressed(o, v)
  }

  predicate HasValue(f: Field, v: Value) {
    if f.kind.Scalar? then
      if v.List? then exists i :: 0 <= i < |v.items| && IsPresent(f.options, v.items[i]) else IsPresent(f.options, v)
    else HasNoConversion(f.options) && (v.Dict? || (v.List? && v.items != []))
  }

  lemma DecodedQuantity(units: Units, o: Options, metadata: Metadata, excluded: bool, v: Value)
    requires o.unit.Some? && DecodeValue(units, o, metadata, excluded, v).Ok?
    ensures var d := DecodeValue(units, o, metadata, excluded, v).value;
            !d.List? && (IsBlankItem(o, d) <==> excluded || (o.nullIfZero && IsZero(v)))
  {
    hide Get, FromSystem, UserUnit;
    var amount := if excluded || (o.nullIfZero && IsZero(v)) then Null
                  else ToUserValue(units, o.unit.value, if o.scale > 0 then DivideBy(v, o.scale).value else v).value;
    QuantityEntries(UserUnit(units, o.unit.value), amount, o.readonly);
  }

  lemma DecodedLink(units: Units, o: Options, metadata: Metadata, excluded: bool, v: Value)
    requires o.unit.None? && o.objtype.Some? && DecodeValue(units, o, metadata, excluded, v).Ok?
    ensures var d := DecodeValue(units, o, metadata, excluded, v).value;
            && (excluded || (o.nullIfZero && IsZero(v)) ==> IsBlankItem(o, d))
            && (!v.Null? && !IsContainer(v) ==>
                  !d.List? && (IsBlankItem(o, d) <==> excluded || (o.nullIfZero && IsZero(v))))
  {
    hide Get;
    var scaled := if o.scale > 0 then DivideBy(v, o.scale).value else v;
    var id := if excluded || (o.nullIfZero && IsZero(v)) then Null else scaled;
    LinkEntries(o.objtype.value, id);
  }

  /** A value that is excluded becomes blank, and a present value only then. */
  lemma DecodedItem(units: Units, o: Options, metadata: Metadata, excluded: bool, v: Value)
    requires DecodeValue(units, o, metadata, excluded, v).Ok?
    ensures var d := DecodeValue(units, o, metadata, excluded, v).value;
            && (excluded ==> IsBlankItem(o, d))
            && (IsPresent(o, v) ==> !d.List? && (IsBlankItem(o, d) <==> excluded))
  {
    hide Get, DecodeQuantity, DecodeLink, DecodeHex, DecodeHexText;
    if o.unit.Some? {
      DecodedQuantity(units, o, metadata, excluded, v);
    } else if o.objtype.Some? {
      DecodedLink(units, o, metadata, excluded, v);
    } else {
      HexIsText(v);
      HexIsText(if o.scale > 0 then DivideBy(v, o.scale).value else v);
    }
  }

  lemma HexIsText(v: Value)
    ensures DecodeHex(v).Ok? ==> DecodeHex(v).value.Str?
    ensures DecodeHexText(v).Ok? ==> DecodeHexText(v).value.Str?
  {
    hide IntToHex, TextToHex;
  }

  lemma {:induction false} DecodedItems(units: Units, o: Options, metadata: Metadata, excluded: bool, items: seq<Value>)
    requires DecodeItems(units, o, metadata, excluded, items).Ok?
    ensures excluded ==> IsBlank(o, List(DecodeItems(units, o, metadata, excluded, items).value))
    ensures !excluded && (exists i :: 0 <= i < |items| && IsPresent(o, items[i])) ==>
              !IsBlank(o, List(DecodeItems(units, o, metadata, excluded, items).value))
  {
    hide DecodeValue, IsBlankItem, IsPresent;
    if items != [] {
      var ds := DecodeItems(units, o, metadata, excluded, items).value;
      if !(o.omitIfZero && IsZero(items[0])) {
        var d := DecodeValue(units, o, metadata, excluded, items[0]).value;
        DecodedItem(units, o, metadata, excluded, items[0]);
        DecodedItems(units, o, metadata, excluded, items[1..]);
        assert ds[0] == d && ds[1..] == DecodeItems(units, o, metadata, excluded, items[1..]).value;
        BlankFirst(o, ds);
      } else {
        OmittedIsAbsent(o, items[0]);
        DecodedItems(units, o, metadata, excluded, items[1..]);
      }
      if exists i :: 0 <= i < |items| && IsPresent(o, items[i]) {
        var i :| 0 <= i < |items| && IsPresent(o, items[i]);
        if i > 0 {
          assert items[1..][i - 1] == items[i];
        }
      }
    }
  }

  lemma OmittedIsAbsent(o: Options, v: Value)
    ensures o.omitIfZero && IsZero(v) ==> !IsPresent(o, v)
  {
  }

  lemma BlankFirst(o: Options, ds: seq<Value>)
    requires ds != []
    ensures IsBlank(o, List(ds)) <==> IsBlankItem(o, ds[0]) && IsBlank(o, List(ds[1..]))
  {
    hide IsBlankItem;
    if IsBlank(o, List(ds[1..])) && IsBlankItem(o, ds[0]) {
      forall i | 0 <= i < |ds| ensures IsBlankItem(o, ds[i]) {
        assert i > 0 ==> ds[i] == ds[1..][i - 1];
      }
    }
    if IsBlank(o, List(ds)) {
      forall i | 0 <= i < |ds[1..]| ensures IsBlankItem(o, ds[1..][i]) {
        assert ds[1..][i] == ds[i + 1];
      }
    }
  }

  // ---- The edit of a leaf -------------------------------------------------------------------------

  lemma {:induction false} MessagesAreDicts(pass: Pass, schema: Schema, v: Value, n: nat, address: Address)
    requires n <= ChildCount(v) && WalkMessages(pass, schema, v, n, address).Ok?
    ensures var r := WalkMessages(pass, schema, v, n, address).value.value;
            SameKeys(v, r) && forall i :: 0 <= i < n ==> ChildAt(r, i).Dict?
    decreases n
  {
    hide WalkMessage;
    if n > 0 {
      MessagesAreDicts(pass, schema, v, n - 1, address);
      WalkedIsDict(pass, schema, ChildAt(v, n - 1), address);
    }
  }

  lemma WalkedIsDict(pass: Pass, schema: Schema, v: Value, address: Address)
    requires WalkMessage(pass, schema, v, address).Ok?
    ensures WalkMessage(pass, schema, v, address).value.value.Dict?
  {
    hide WalkDict;
  }

  /** Objects without conversion are kept as they are, or become null. */
  lemma DecodedObject(units: Units, o: Options, metadata: Metadata, excluded: bool, v: Value)
    requires HasNoConversion(o) && v.Dict?
    ensures DecodeValue(units, o, metadata, excluded, v) == Ok(if excluded then Null else v)
  {
  }

  lemma {:induction false} DecodedObjects(units: Units, o: Options, metadata: Metadata, excluded: bool,
                                          items: seq<Value>)
    requires HasNoConversion(o) && forall i :: 0 <= i < |items| ==> items[i].Dict?
    ensures DecodeItems(units, o, metadata, excluded, items).Ok?
    ensures var ds := DecodeItems(units, o, metadata, excluded, items).value;
            |ds| == |items| && forall i :: 0 <= i < |ds| ==> ds[i] == if excluded then Null else items[i]
  {
    hide DecodeValue, HasNoConversion;
    if items != [] {
      DecodedObject(units, o, metadata, excluded, items[0]);
      DecodedObjects(units, o, metadata, excluded, items[1..]);
    }
  }

  lemma DecodedObjectsBlank(units: Units, f: Field, metadata: Metadata, excluded: bool, w: Value, key: string,
                            edit: Edit)
    requires HasNoConversion(f.options) && (w.Dict? || w.List?)
    requires w.List? ==> w.items != [] && forall i :: 0 <= i < |w.items| ==> w.items[i].Dict?
    requires DecodeEdit(units, f.options, metadata, excluded, key, w) == Ok(edit)
    ensures edit.Assign? && edit.key == DecodedKey(units, f.options, metadata, key)
    ensures IsBlank(f.options, edit.value) <==> excluded
  {
    hide DecodedKey, DecodeValue, DecodeItems, Get;
    if w.List? {
      DecodedObjects(units, f.options, metadata, excluded, w.items);
      if IsBlank(f.options, edit.value) {
        assert IsBlankItem(f.options, edit.value.items[0]);
      }
    } else {
      DecodedObject(units, f.options, metadata, excluded, w);
    }
  }

  lemma DecodedScalarBlank(units: Units, f: Field, metadata: Metadata, excluded: bool, v: Value, key: string,
                           edit: Edit)
    requires f.kind.Scalar? && HasValue(f, v)
    requires DecodeEdit(units, f.options, metadata, excluded, key, v) == Ok(edit)
    ensures edit.Assign? && edit.key == DecodedKey(units, f.options, metadata, key)
    ensures IsBlank(f.options, edit.value) <==> excluded
  {
    hide DecodedKey, DecodeValue, DecodeItems, Get, IsBlankItem;
    if v.List? {
      DecodedItems(units, f.options, metadata, excluded, v.items);
    } else {
      OmittedIsAbsent(f.options, v);
      DecodedItem(units, f.options, metadata, excluded, v);
    }
  }

  // ---- Objects as they are read from a message ---------------------------------------------------

  /** All keys are plain names, and none is used twice. */
  ghost predicate IsPlainObject(v: Value) {
    v.Dict? && UniqueKeys(v.entries) && forall i :: 0 <= i < |v.entries| ==> IsPlainName(v.entries[i].key)
  }

  lemma PlainBase(key: string, rest: string)
    requires IsPlainName(key) && (rest == "" || IsSymbol(rest[0]))
    ensures Base(key + rest) == key
  {
    assert BehindSymbols(key + rest) == key + rest by { assert (key + rest)[0] == key[0]; }
    UntilSymbolOf(key, rest);
  }

  lemma NewKeyBase(pass: Pass, f: Field, key: string)
    requires pass.Decoding? && IsPlainName(key)
    ensures Base(NewKey(pass, f, key)) == key && Base(key) == key
  {
    hide Base, IsPlainName;
    var o := f.options;
    assert key + "" == key;
    PlainBase(key, "");
    if pass.mode == Logged {
      if o.unit.Some? {
        var unit := UserUnit(pass.units, o.unit.value);
        assert key + "[" + unit + "]" == key + ("[" + unit + "]");
        PlainBase(key, "[" + unit + "]");
      } else if o.objtype.Some? {
        var objtype := o.objtype.value;
        assert key + "<" + objtype + ">" == key + ("<" + objtype + ">");
        PlainBase(key, "<" + objtype + ">");
      }
    }
  }

  lemma PlainElement(schema: Schema, key: string)
    requires IsPlainName(key)
    ensures FindElement(schema, key).Ok? <==> key in schema.fields
    ensures key in schema.fields ==> FindElement(schema, key) == Ok(Element(Key(key, ""), schema.fields[key]))
  {
    hide ParseKey, IsPlainName;
    PlainKey(key);
  }

  /** What one field is edited to. */
  ghost predicate IsDecodedTo(pass: Pass, f: Field, key: string, v: Value, parent: Address, edit: Edit)
    requires pass.Decoding?
  {
    var nested := WalkField(pass, f, v, parent + [Some(f.number)]);
    && nested.Ok?
    && if IsFiltered(pass, f.options) then edit == Delete
       else
         var excluded := IsExcluded(pass, ElementAddress(f, v, parent));
         DecodeEdit(pass.units, f.options, MetadataOf(pass.mode), excluded, key, nested.value.value) == Ok(edit)
  }

  lemma DecodedEdit(pass: Pass, schema: Schema, v: Value, i: nat, parent: Address, edit: Edit)
    requires pass.Decoding? && v.Dict? && i < |v.entries| && IsPlainName(v.entries[i].key)
    requires EditAt(pass, schema, v, i, parent) == Ok(edit)
    ensures v.entries[i].key in schema.fields
    ensures IsDecodedTo(pass, schema.fields[v.entries[i].key], v.entries[i].key, v.entries[i].value, parent, edit)
    ensures edit.Assign? ==> edit.key == NewKey(pass, schema.fields[v.entries[i].key], v.entries[i].key)
  {
    hide FindElement, WalkField, DecodeItems, DecodeValue, DecodedKey, IsPlainName, IsExcluded, IsFiltered,
      ElementAddress;
    PlainElement(schema, v.entries[i].key);
  }

  lemma PlainNames(v: Value)
    requires IsPlainObject(v)
    ensures HasOwnNames(v.entries)
  {
    hide Base, IsPlainName;
    forall i | 0 <= i < |v.entries| ensures Base(v.entries[i].key) == v.entries[i].key {
      assert v.entries[i].key + "" == v.entries[i].key;
      PlainBase(v.entries[i].key, "");
    }
  }

  lemma DecodingKeepsNames(pass: Pass, schema: Schema, v: Value, parent: Address)
    requires pass.Decoding? && IsPlainObject(v)
    ensures KeepsNames(pass, schema, v, parent)
  {
    hide EditAt, Base, IsDecodedTo, IsPlainName, NewKey;
    forall i | 0 <= i < |v.entries| && EditAt(pass, schema, v, i, parent).Ok?
      ensures var edit := EditAt(pass, schema, v, i, parent).value;
              edit.Assign? ==> Base(edit.key) == Base(v.entries[i].key)
    {
      DecodedEdit(pass, schema, v, i, parent, EditAt(pass, schema, v, i, parent).value);
      NewKeyBase(pass, schema.fields[v.entries[i].key], v.entries[i].key);
    }
  }

  /** What is found for a field after its object was decoded. */
  lemma DecodedAt(pass: Pass, schema: Schema, v: Value, parent: Address, key: string) returns (edit: Edit)
    requires pass.Decoding? && IsPlainObject(v) && Get(v.entries, key).Some? && WalkMessage(pass, schema, v, parent).Ok?
    ensures key in schema.fields && IsDecodedTo(pass, schema.fields[key], key, Get(v.entries, key).value, parent, edit)
    ensures edit.Assign? ==> edit.key == NewKey(pass, schema.fields[key], key)
    ensures var r := WalkMessage(pass, schema, v, parent).value.value;
            r.Dict? && Get(r.entries, NewKey(pass, schema.fields[key], key)) ==
                       if edit.Assign? then Some(edit.value) else None
    ensures var entries := WalkMessage(pass, schema, v, parent).value.value.entries;
            forall other :: Base(other) == key && Get(entries, other).Some? ==> edit.Assign? && other == edit.key
  {
    hide WalkDict, EditAt, Base, Get, Settled, AreEdits, HasOwnNames, OwnNames, KeepsNames, IsDecodedTo, NewKey,
      IsPlainName;
    var i := GetPresent(v.entries, key);
    PlainNames(v);
    DecodingKeepsNames(pass, schema, v, parent);
    var edits := WalkEdits(pass, schema, v, |v.entries|, parent);
    EditsAt(pass, schema, v, i, parent, edits);
    edit := edits[i];
    DecodedEdit(pass, schema, v, i, parent, edit);
    NewKeyBase(pass, schema.fields[key], key);
    SettledAt(v.entries, edits, WalkDict(pass, schema, v, |v.entries|, parent).value, i);
  }

  // ---- Paths to values ---------------------------------------------------------------------------

  /** Submessages lead to a value in a leaf. */
  ghost predicate LeadsToValue(schema: Schema, v: Value, keys: seq<string>)
    decreases |keys|
  {
    && keys != [] && IsPlainObject(v) && Get(v.entries, keys[0]).Some? && keys[0] in schema.fields
    && var f, x := schema.fields[keys[0]], Get(v.entries, keys[0]).value;
       if |keys| == 1 then IsLeafField(f, x) && HasValue(f, x)
       else IsSubmessage(f) && LeadsToValue(f.kind.schema, x, keys[1..])
  }

  /** The decoded value is there, and not blank. */
  predicate IsKept(pass: Pass, schema: Schema, r: Value, keys: seq<string>)
    requires pass.Decoding?
    decreases |keys|
  {
    && keys != [] && keys[0] in schema.fields && r.Dict?
    && var f := schema.fields[keys[0]];
       var x := Get(r.entries, NewKey(pass, f, keys[0]));
       && x.Some?
       && if |keys| == 1 then !IsBlank(f.options, x.value)
          else !f.kind.Scalar? && IsKept(pass, f.kind.schema, x.value, keys[1..])
  }

  /** Reading keeps fields that are not ignored and, when values are filtered, stored or logged as the mode asks. */
  predicate IsRead(pass: Pass, o: Options)
    requires pass.Decoding?
  {
    !o.ignored && (pass.filter ==> (pass.mode == Stored ==> o.stored) && (pass.mode == Logged ==> o.logged))
  }

  lemma ReadExactly(pass: Pass, o: Options)
    requires pass.Decoding?
    ensures IsRead(pass, o) <==> !IsFiltered(pass, o)
  {
  }

  /** Every field on the path is read, and neither the leaf is excluded nor a submessage around it. */
  ghost predicate Survives(pass: Pass, schema: Schema, keys: seq<string>, parent: Address)
    requires pass.Decoding?
    decreases |keys|
  {
    && keys != [] && keys[0] in schema.fields
    && var f := schema.fields[keys[0]];
       var address := parent + [Some(f.number)];
       && IsRead(pass, f.options)
       && if |keys| == 1 then !IsExcluded(pass, address)
          else
            && !IsExcluded(pass, address + [None]) && !f.kind.Scalar?
            && Survives(pass, f.kind.schema, keys[1..], address)
  }

  lemma LeafIsDecoded(pass: Pass, f: Field, key: string, v: Value, parent: Address, edit: Edit)
    requires pass.Decoding? && IsDecodedTo(pass, f, key, v, parent, edit) && IsLeafField(f, v) && HasValue(f, v)
    ensures edit.Assign? && !IsBlank(f.options, edit.value) <==>
            IsRead(pass, f.options) && !IsExcluded(pass, parent + [Some(f.number)])
  {
    hide WalkMessage, WalkMessages, DecodeEdit, IsBlank, HasNoConversion, IsFiltered, IsRead, IsExcluded, NewKey;
    var address := parent + [Some(f.number)];
    ReadExactly(pass, f.options);
    if IsRead(pass, f.options) {
      if f.kind.Scalar? {
        DecodedScalarBlank(pass.units, f, MetadataOf(pass.mode), IsExcluded(pass, address), v, key, edit);
      } else {
        var w := WalkField(pass, f, v, address).value.value;
        MessagesAreDicts(pass, f.kind.schema, v, ChildCount(v), address + [None]);
        ItemsOf(v, w);
        DecodedObjectsBlank(pass.units, f, MetadataOf(pass.mode), IsExcluded(pass, address), w, key, edit);
      }
    }
  }

  lemma ItemsOf(v: Value, w: Value)
    requires SameKeys(v, w) && forall i :: 0 <= i < ChildCount(v) ==> ChildAt(w, i).Dict?
    ensures v.List? ==> w.List? && |w.items| == |v.items| && forall i :: 0 <= i < |w.items| ==> w.items[i].Dict?
    ensures v.Dict? ==> w.Dict?
  {
    if v.List? {
      forall i | 0 <= i < |w.items| ensures w.items[i].Dict? {
        assert ChildAt(w, i).Dict?;
      }
    }
  }

  /** A submessage is deleted, replaced by null, or by its decoded content. */
  lemma SubmessageIsDecoded(pass: Pass, f: Field, key: string, v: Value, parent: Address, edit: Edit)
    requires pass.Decoding? && IsDecodedTo(pass, f, key, v, parent, edit) && IsSubmessage(f) && v.Dict?
    ensures WalkMessage(pass, f.kind.schema, v, parent + [Some(f.number)]).Ok?
    ensures edit.Assign? <==> IsRead(pass, f.options)
    ensures edit.Assign? ==>
              edit.value == if IsExcluded(pass, parent + [Some(f.number)] + [None]) then Null
                            else WalkMessage(pass, f.kind.schema, v, parent + [Some(f.number)]).value.value
  {
    hide WalkMessage, DecodeValue, DecodedKey, HasNoConversion, IsFiltered, IsRead, IsExcluded;
    ReadExactly(pass, f.options);
    var w := WalkField(pass, f, v, parent + [Some(f.number)]).value.value;
    WalkedIsDict(pass, f.kind.schema, v, parent + [Some(f.number)]);
    DecodedObject(pass.units, f.options, MetadataOf(pass.mode), IsExcluded(pass, ElementAddress(f, v, parent)), w);
  }

  /** A value is kept exactly if nothing on its path is filtered or excluded. */
  lemma {:induction false} KeptExactly(pass: Pass, schema: Schema, v: Value, keys: seq<string>, parent: Address)
    requires pass.Decoding? && WalkMessage(pass, schema, v, parent).Ok? && LeadsToValue(schema, v, keys)
    ensures IsKept(pass, schema, WalkMessage(pass, schema, v, parent).value.value, keys) <==>
            Survives(pass, schema, keys, parent)
    decreases |keys|
  {
    hide WalkMessage, IsPlainObject, Get, IsDecodedTo, IsRead, IsExcluded, NewKey, IsBlank, HasValue, IsLeafField;
    hide IsSubmessage;
    LeadsThrough(schema, v, keys);
    var edit := DecodedAt(pass, schema, v, parent, keys[0]);
    var f, x := schema.fields[keys[0]], Get(v.entries, keys[0]).value;
    if |keys| == 1 {
      LeafIsDecoded(pass, f, keys[0], x, parent, edit);
    } else {
      SubmessageKind(f);
      LeadsThrough(f.kind.schema, x, keys[1..]);
      SubmessageIsDecoded(pass, f, keys[0], x, parent, edit);
      KeptExactly(pass, f.kind.schema, x, keys[1..], parent + [Some(f.number)]);
    }
  }

  lemma SubmessageKind(f: Field)
    requires IsSubmessage(f)
    ensures !f.kind.Scalar?
  {
  }

  lemma LeadsThrough(schema: Schema, v: Value, keys: seq<string>)
    requires LeadsToValue(schema, v, keys)
    ensures v.Dict?
  {
  }
}
