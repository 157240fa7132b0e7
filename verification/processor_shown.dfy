/** Which values a mask lets through when it is applied to decoded content. */
module ProcessorShown {
  import opened Data
  import opened Processor
  import opened ProcessorDicts
  import opened ProcessorExcluded
  import opened ProcessorMasks
  import opened ProcessorValues
  import opened Wrappers

  // ---- Paths of field names ------------------------------------------------------------------

  predicate IsPath(schema: Schema, keys: seq<string>)
    decreases |keys|
  {
    && keys != [] && keys[0] in schema.fields
    && var f := schema.fields[keys[0]];
       |keys| == 1 || (!f.kind.Scalar? && IsPath(f.kind.schema, keys[1..]))
  }

  function NumbersOf(schema: Schema, keys: seq<string>): (a: seq<nat>)
    requires IsPath(schema, keys)
    ensures |a| == |keys| && a[0] == schema.fields[keys[0]].number
    decreases |keys|
  {
    var f := schema.fields[keys[0]];
    [f.number] + if |keys| == 1 then [] else NumbersOf(f.kind.schema, keys[1..])
  }

  /** Every field on the path is read. */
  predicate IsUnfilteredPath(pass: Pass, schema: Schema, keys: seq<string>)
    requires pass.Decoding? && IsPath(schema, keys)
    decreases |keys|
  {
    var f := schema.fields[keys[0]];
    IsRead(pass, f.options) && (|keys| == 1 || IsUnfilteredPath(pass, f.kind.schema, keys[1..]))
  }

  lemma {:induction false} PathToValue(schema: Schema, v: Value, keys: seq<string>)
    requires LeadsToValue(schema, v, keys)
    ensures IsPath(schema, keys)
    decreases |keys|
  {
    hide IsPlainObject, Get, HasValue, IsLeafField;
    LeadsThrough(schema, v, keys);
    if |keys| > 1 {
      var f := schema.fields[keys[0]];
      PathToValue(f.kind.schema, Get(v.entries, keys[0]).value, keys[1..]);
    }
  }

  // ---- Addresses and mask fields -------------------------------------------------------------

  lemma AddressNext(a: seq<nat>, number: nat)
    ensures AddressOf(a) + [Some(number)] == AddressOf(a + [number])
  {
  }

  /** A mask field matches the leaves below and above it, but only the submessages below it. */
  lemma MatchesExactly(m: seq<nat>, a: seq<nat>)
    ensures MatchesAddress(m, AddressOf(a)) <==> Comparable(m, a)
    ensures MatchesAddress(m, AddressOf(a) + [None]) <==> m <= a
  {
    var leaf, message := AddressOf(a), AddressOf(a) + [None];
    forall i | 0 <= i < |m| && i < |a| ensures leaf[i] == Some(a[i]) && message[i] == Some(a[i]) {
    }
    if |m| > |a| {
      assert message[|a|].None?;
    }
    if m <= a {
      forall i | 0 <= i < |m| && i < |message| ensures message[i] == Some(m[i]) {
      }
    }
  }

  lemma IsMatchedExactly(mask: seq<seq<nat>>, a: seq<nat>)
    ensures IsMatched(mask, AddressOf(a)) <==> exists k :: 0 <= k < |mask| && Comparable(mask[k], a)
    ensures IsMatched(mask, AddressOf(a) + [None]) <==> Covers(mask, a)
  {
    hide MatchesAddress, Comparable;
    forall k | 0 <= k < |mask|
      ensures MatchesAddress(mask[k], AddressOf(a)) <==> Comparable(mask[k], a)
      ensures MatchesAddress(mask[k], AddressOf(a) + [None]) <==> mask[k] <= a
    {
      MatchesExactly(mask[k], a);
    }
  }

  /** A mask field names `a` itself, or a submessage around it. */
  predicate Covers(mask: seq<seq<nat>>, a: seq<nat>) {
    exists k :: 0 <= k < |mask| && mask[k] <= a
  }

  lemma CoversMore(mask: seq<seq<nat>>, a: seq<nat>, number: nat)
    requires Covers(mask, a)
    ensures Covers(mask, a + [number])
  {
    var k :| 0 <= k < |mask| && mask[k] <= a;
    assert mask[k] <= a + [number];
  }

  lemma CoversComparable(mask: seq<seq<nat>>, a: seq<nat>, b: seq<nat>) returns (k: nat)
    requires Covers(mask, a)
    ensures k < |mask| && Comparable(mask[k], a + b)
  {
    var i :| 0 <= i < |mask| && mask[i] <= a;
    k := i;
  }

  // ---- What is shown ---------------------------------------------------------------------------

  /**
   * An inclusive mask shows a leaf of the root object if it is in the mask, but a leaf in a submessage only if the
   * whole top-level field is in the mask. An exclusive mask hides what it names, and nothing else.
   */
  predicate IsShown(maskMode: MaskMode, mask: seq<seq<nat>>, a: seq<nat>)
    requires a != []
  {
    match maskMode
    case NoMask => true
    case Inclusive =>
      if |a| == 1 then exists k :: 0 <= k < |mask| && Comparable(mask[k], a) else Covers(mask, a[..1])
    case Exclusive => forall k :: 0 <= k < |mask| ==> !Comparable(mask[k], a)
  }

  lemma {:induction false} SurvivesWithoutMask(pass: Pass, schema: Schema, keys: seq<string>, parent: Address)
    requires pass.Decoding? && pass.maskMode == NoMask && IsPath(schema, keys)
    ensures Survives(pass, schema, keys, parent) <==> IsUnfilteredPath(pass, schema, keys)
    decreases |keys|
  {
    hide IsRead;
    if |keys| > 1 {
      var f := schema.fields[keys[0]];
      SurvivesWithoutMask(pass, f.kind.schema, keys[1..], parent + [Some(f.number)]);
    }
  }

  /** Below a field that is in an inclusive mask, nothing is excluded. */
  lemma {:induction false} SurvivesCovered(pass: Pass, schema: Schema, keys: seq<string>, prefix: seq<nat>)
    requires pass.Decoding? && pass.maskMode == Inclusive && IsPath(schema, keys) && Covers(pass.mask, prefix)
    ensures Survives(pass, schema, keys, AddressOf(prefix)) <==> IsUnfilteredPath(pass, schema, keys)
    decreases |keys|
  {
    hide IsRead, Covers, AddressOf;
    var f := schema.fields[keys[0]];
    var a := prefix + [f.number];
    CoversMore(pass.mask, prefix, f.number);
    AddressNext(prefix, f.number);
    IsMatchedExactly(pass.mask, a);
    var k := CoversComparable(pass.mask, a, []);
    assert a + [] == a;
    if |keys| > 1 {
      SurvivesCovered(pass, f.kind.schema, keys[1..], a);
    }
  }

  lemma {:induction false} SurvivesExclusive(pass: Pass, schema: Schema, keys: seq<string>, prefix: seq<nat>)
    requires pass.Decoding? && pass.maskMode == Exclusive && IsPath(schema, keys)
    ensures Survives(pass, schema, keys, AddressOf(prefix)) <==>
            IsUnfilteredPath(pass, schema, keys) && IsShown(Exclusive, pass.mask, prefix + NumbersOf(schema, keys))
    decreases |keys|
  {
    hide IsRead, Covers, AddressOf, Comparable;
    var f := schema.fields[keys[0]];
    var a := prefix + [f.number];
    AddressNext(prefix, f.number);
    IsMatchedExactly(pass.mask, a);
    if |keys| == 1 {
      assert prefix + NumbersOf(schema, keys) == a;
    } else {
      var later := NumbersOf(f.kind.schema, keys[1..]);
      assert prefix + NumbersOf(schema, keys) == a + later;
      SurvivesExclusive(pass, f.kind.schema, keys[1..], a);
      if Covers(pass.mask, a) {
        var k := CoversComparable(pass.mask, a, later);
      }
    }
  }

  lemma SurvivesInclusive(pass: Pass, schema: Schema, keys: seq<string>)
    requires pass.Decoding? && pass.maskMode == Inclusive && IsPath(schema, keys)
    ensures Survives(pass, schema, keys, []) <==>
            IsUnfilteredPath(pass, schema, keys) && IsShown(Inclusive, pass.mask, NumbersOf(schema, keys))
  {
    hide IsRead, Covers, AddressOf, Comparable;
    var f := schema.fields[keys[0]];
    var a := [f.number];
    RootAddress(f.number);
    IsMatchedExactly(pass.mask, a);
    assert NumbersOf(schema, keys)[..1] == a;
    if |keys| == 1 {
      assert NumbersOf(schema, keys) == a;
    } else if Covers(pass.mask, a) {
      SurvivesCovered(pass, f.kind.schema, keys[1..], a);
    }
  }

  lemma RootAddress(number: nat)
    ensures AddressOf([]) == [] && [] + [Some(number)] == AddressOf([number])
  {
  }

  lemma SurvivesExactly(pass: Pass, schema: Schema, keys: seq<string>)
    requires pass.Decoding? && IsPath(schema, keys)
    ensures Survives(pass, schema, keys, []) <==>
            IsUnfilteredPath(pass, schema, keys) && IsShown(pass.maskMode, pass.mask, NumbersOf(schema, keys))
  {
    hide Survives, IsUnfilteredPath;
    match pass.maskMode {
      case NoMask => SurvivesWithoutMask(pass, schema, keys, []);
      case Inclusive => SurvivesInclusive(pass, schema, keys);
      case Exclusive =>
        RootAddress(0);
        SurvivesExclusive(pass, schema, keys, []);
        assert [] + NumbersOf(schema, keys) == NumbersOf(schema, keys);
    }
  }

  /** After decoding with any mask, a value is still there and not blank exactly if the mask shows it. */
  lemma DecodedValueKeptExactly(units: Units, filter: bool, maskMode: MaskMode, mode: ReadMode, mask: seq<seq<nat>>,
                                schema: Schema, content: seq<Entry>, keys: seq<string>)
    requires Decoded(units, filter, maskMode, mode, mask, schema, content).Ok?
    requires LeadsToValue(schema, Dict(content), keys)
    ensures IsPath(schema, keys)
    ensures var pass := Decoding(units, filter, maskMode, mode, mask);
            var r := Dict(Decoded(units, filter, maskMode, mode, mask, schema, content).value.obj);
            IsKept(pass, schema, r, keys) <==>
            IsUnfilteredPath(pass, schema, keys) && IsShown(maskMode, mask, NumbersOf(schema, keys))
  {
    hide WalkDict, Survives, IsKept, LeadsToValue, IsShown, IsUnfilteredPath, IsPath;
    var pass := Decoding(units, filter, maskMode, mode, mask);
    PathToValue(schema, Dict(content), keys);
    KeptExactly(pass, schema, Dict(content), keys, []);
    SurvivesExactly(pass, schema, keys);
  }

  // ---- Masks that were built by encoding -----------------------------------------------------------

  lemma EncodedField(pass: Pass, schema: Schema, v: Value, i: nat, parent: Address, edit: Edit)
    requires pass.Encoding? && v.Dict? && i < |v.entries|
    requires EditAt(pass, schema, v, i, parent) == Ok(edit) && edit.Assign?
    ensures FindElement(schema, v.entries[i].key).Ok? && edit.key in schema.fields
    ensures FindElement(schema, v.entries[i].key).value.field == schema.fields[edit.key]
    ensures IsWritten(pass.filter, schema.fields[edit.key].options) && !v.entries[i].value.Null?
    ensures !IsLeafField(schema.fields[edit.key], v.entries[i].value) ==> v.entries[i].value.Dict?
  {
    hide ParseKey, WalkMessage, WalkMessages, EncodeValue, EncodeItems;
    var f := FindElement(schema, v.entries[i].key).value.field;
    if !IsLeafField(f, v.entries[i].value) {
      NestedIsDict(pass, f, v.entries[i].value, parent + [Some(f.number)]);
    }
  }

  lemma NestedIsDict(pass: Pass, f: Field, v: Value, address: Address)
    requires WalkField(pass, f, v, address).Ok? && !IsLeafField(f, v)
    ensures v.Dict?
  {
    hide WalkDict;
  }

  /** Every value that was sent is a leaf that was kept. */
  lemma {:induction false} SentLeaf(pass: Pass, schema: Schema, v: Value, parent: Address, keys: seq<string>)
    requires pass.Encoding? && WalkMessage(pass, schema, v, parent).Ok? && HasDistinctNames(schema, v)
    requires LeadsToValue(schema, WalkMessage(pass, schema, v, parent).value.value, keys)
    ensures IsPath(schema, keys) && IsLeaf(pass, true, schema, v, NumbersOf(schema, keys))
    decreases |keys|
  {
    hide WalkMessage, EditAt, Get, IsPlainObject, OneNameEach, HasOwnNames, FindElement, IsWritten, HasNoConversion,
      HasDistinctNames;
    var r := WalkMessage(pass, schema, v, parent).value.value;
    LeadsThrough(schema, r, keys);
    NamesAreDistinct(pass, schema, v, parent);
    var i, edit := EncodedFrom(pass, schema, v, parent, keys[0]);
    EncodedField(pass, schema, v, i, parent, edit);
    assert ChildAt(v, i) == v.entries[i].value;
    var f, x := schema.fields[keys[0]], edit.value;
    PathToValue(schema, r, keys);
    if |keys| > 1 {
      LeadsThrough(f.kind.schema, x, keys[1..]);
      SubmessageEdit(pass, schema, v, i, parent, f, edit);
      NestedNames(schema, v, i, f);
      SentLeaf(pass, f.kind.schema, v.entries[i].value, parent + [Some(f.number)], keys[1..]);
      assert NumbersOf(schema, keys)[1..] == NumbersOf(f.kind.schema, keys[1..]);
    }
    assert LeafThrough(pass, true, schema, v, i, NumbersOf(schema, keys));
  }

  lemma NamesAreDistinct(pass: Pass, schema: Schema, v: Value, parent: Address)
    requires WalkMessage(pass, schema, v, parent).Ok? && HasDistinctNames(schema, v)
    ensures OneNameEach(v) && HasDistinctNumbers(schema)
  {
    hide WalkDict, HasOwnNames;
  }

  /** The field at the end of a short path has a value of its own. */
  predicate EndsInLeaf(schema: Schema, keys: seq<string>)
    requires IsPath(schema, keys)
  {
    |keys| == 1 ==> schema.fields[keys[0]].kind.Scalar? || schema.fields[keys[0]].repeated
  }

  /** A mask that was built by encoding shows exactly what belongs to its fields of length one. */
  lemma BuiltMaskShows(units: Units, filter: bool, schema: Schema, content: seq<Entry>, keys: seq<string>)
    requires Encoded(units, filter, Inclusive, schema, content).Ok? && HasDistinctNames(schema, Dict(content))
    requires IsPath(schema, keys) && EndsInLeaf(schema, keys)
    ensures var mask := Encoded(units, filter, Inclusive, schema, content).value.mask;
            IsShown(Inclusive, mask, NumbersOf(schema, keys)) <==> NumbersOf(schema, keys)[..1] in mask
  {
    hide IsLeaf, WalkDict, FindElement, HasDistinctNames;
    var pass := Encoding(units, filter, Inclusive);
    var mask := Encoded(units, filter, Inclusive, schema, content).value.mask;
    var a := NumbersOf(schema, keys);
    NamesAreDistinct(pass, schema, Dict(content), []);
    MaskExactly(units, filter, schema, content);
    NoLeafAtRoot(pass, true, schema, Dict(content));
    forall k | 0 <= k < |mask|
      ensures mask[k] <= a[..1] <==> mask[k] == a[..1]
      ensures |a| == 1 && Comparable(mask[k], a) ==> mask[k] == a
    {
      assert mask[k] in mask;
      if |a| == 1 && Comparable(mask[k], a) {
        var i, f := FirstStep(pass, true, schema, Dict(content), mask[k]);
        FieldOfNumber(schema, content[i].key, keys[0]);
      }
    }
    if a[..1] in mask {
      var k :| 0 <= k < |mask| && mask[k] == a[..1];
      assert Comparable(mask[k], a) && mask[k] <= a[..1];
    }
    if |a| == 1 {
      assert a[..1] == a;
    }
  }

  lemma FieldOfNumber(schema: Schema, key: string, name: string)
    requires HasDistinctNumbers(schema) && FindElement(schema, key).Ok? && name in schema.fields
    requires FindElement(schema, key).value.field.number == schema.fields[name].number
    ensures FindElement(schema, key).value.field == schema.fields[name]
  {
    hide ParseKey;
  }

  lemma ValueEndsInLeaf(schema: Schema, v: Value, keys: seq<string>)
    requires LeadsToValue(schema, v, keys)
    ensures IsPath(schema, keys) && EndsInLeaf(schema, keys)
  {
    hide Get, IsPlainObject, IsPath;
    PathToValue(schema, v, keys);
  }

  /** Any content that is decoded with a mask that was built by encoding. */
  lemma BuiltMaskKeepsExactly(units: Units, sentFilter: bool, sent: seq<Entry>, filter: bool, mode: ReadMode,
                              schema: Schema, content: seq<Entry>, keys: seq<string>)
    requires Encoded(units, sentFilter, Inclusive, schema, sent).Ok? && HasDistinctNames(schema, Dict(sent))
    requires var mask := Encoded(units, sentFilter, Inclusive, schema, sent).value.mask;
             Decoded(units, filter, Inclusive, mode, mask, schema, content).Ok?
    requires LeadsToValue(schema, Dict(content), keys)
    ensures IsPath(schema, keys)
    ensures var mask := Encoded(units, sentFilter, Inclusive, schema, sent).value.mask;
            var pass := Decoding(units, filter, Inclusive, mode, mask);
            var r := Dict(Decoded(units, filter, Inclusive, mode, mask, schema, content).value.obj);
            IsKept(pass, schema, r, keys) <==>
            IsUnfilteredPath(pass, schema, keys) && NumbersOf(schema, keys)[..1] in mask
  {
    hide WalkDict, IsKept, LeadsToValue, IsShown, IsUnfilteredPath, IsPath, EndsInLeaf, HasDistinctNames;
    var mask := Encoded(units, sentFilter, Inclusive, schema, sent).value.mask;
    ValueEndsInLeaf(schema, Dict(content), keys);
    BuiltMaskShows(units, sentFilter, schema, sent, keys);
    DecodedValueKeptExactly(units, filter, Inclusive, mode, mask, schema, content, keys);
  }

  /**
   * Sending values and decoding them with their own mask: every value that was sent is in the mask, but it is still
   * there exactly if no submessage encloses it.
   */
  lemma SentValueKeptExactly(units: Units, sentFilter: bool, sent: seq<Entry>, mode: ReadMode, filter: bool,
                             schema: Schema, keys: seq<string>)
    requires Encoded(units, sentFilter, Inclusive, schema, sent).Ok? && HasDistinctNames(schema, Dict(sent))
    requires var s := Encoded(units, sentFilter, Inclusive, schema, sent).value;
             && LeadsToValue(schema, Dict(s.obj), keys)
             && Decoded(units, filter, Inclusive, mode, s.mask, schema, s.obj).Ok?
    ensures IsPath(schema, keys)
    ensures var s := Encoded(units, sentFilter, Inclusive, schema, sent).value;
            var pass := Decoding(units, filter, Inclusive, mode, s.mask);
            var r := Dict(Decoded(units, filter, Inclusive, mode, s.mask, schema, s.obj).value.obj);
            && NumbersOf(schema, keys) in s.mask
            && (IsKept(pass, schema, r, keys) <==> IsUnfilteredPath(pass, schema, keys) && |keys| == 1)
  {
    hide WalkDict, IsKept, LeadsToValue, IsUnfilteredPath, IsPath, HasDistinctNames, IsLeaf;
    var s := Encoded(units, sentFilter, Inclusive, schema, sent).value;
    SentLeaf(Encoding(units, sentFilter, Inclusive), schema, Dict(sent), [], keys);
    var a := NumbersOf(schema, keys);
    MaskExactly(units, sentFilter, schema, sent);
    MaskIsPrefixFree(units, sentFilter, schema, sent);
    assert Comparable(a[..1], a);
    assert a[..1] in s.mask ==> a[..1] == a;
    assert |a| == 1 ==> a[..1] == a;
    BuiltMaskKeepsExactly(units, sentFilter, sent, filter, mode, schema, s.obj, keys);
  }

  // ---- A nested value is lost ----------------------------------------------------------------------

  const NO_OPTIONS := Options(false, false, false, false, None, None, 0, false, false, false, false)

  const INNER := Schema(map["b" := Field(2, false, Scalar(true), NO_OPTIONS)])

  const OUTER := Schema(map["a" := Field(1, false, Message(INNER), NO_OPTIONS)])

  const CONTENT := [Entry("a", Dict([Entry("b", Int(5))]))]

  lemma OneEntry(pass: Pass, schema: Schema, name: string, x: Value, parent: Address, nested: Walked, y: Value)
    requires IsPlainName(name) && name in schema.fields
    requires var f := schema.fields[name];
             && WalkField(pass, f, x, parent + [Some(f.number)]) == Ok(nested)
             && EditOf(pass, f, name, Key(name, ""), ElementAddress(f, x, parent), nested.value) == Ok(Assign(name, y))
    ensures var f := schema.fields[name];
            WalkDict(pass, schema, Dict([Entry(name, x)]), 1, parent) ==
            Ok(State([Entry(name, y)], {}, nested.mask + MaskOf(pass, f, ElementAddress(f, x, parent))))
  {
    hide EditOf, WalkField, ParseKey, MaskOf, ElementAddress;
    var v := Dict([Entry(name, x)]);
    PlainKey(name);
    NothingWalked(pass, schema, v, parent);
    assert ChildAt(v, 0) == x;
    var f := schema.fields[name];
    var s := State([Entry(name, x)], {}, []);
    assert Assigned(s.obj, name, nested.value) == [Entry(name, nested.value)];
    assert Assigned([Entry(name, nested.value)], name, y) == [Entry(name, y)];
    assert [] + nested.mask == nested.mask;
  }

  lemma InnerSent(units: Units)
    ensures WalkDict(Encoding(units, false, Inclusive), INNER, CONTENT[0].value, 1, [Some(1)]) ==
            Ok(State([Entry("b", Int(5))], {}, [[1, 2]]))
  {
    hide WalkDict;
    var pass := Encoding(units, false, Inclusive);
    var f, address := INNER.fields["b"], [Some(1)] + [Some(2)];
    OneEntry(pass, INNER, "b", Int(5), [Some(1)], Walked(Int(5), []), Int(5));
    assert ElementAddress(f, Int(5), [Some(1)]) == address && IsMaskable(address);
    assert Tags(address) == [1, 2];
    assert MaskOf(pass, f, address) == [[1, 2]];
    assert [] + [[1, 2]] == [[1, 2]];
    assert CONTENT[0].value == Dict([Entry("b", Int(5))]);
  }

  lemma InnerRead(units: Units, mode: ReadMode)
    ensures WalkDict(Decoding(units, false, Inclusive, mode, [[1, 2]]), INNER, CONTENT[0].value, 1, [Some(1)]) ==
            Ok(State([Entry("b", Int(5))], {}, []))
  {
    hide WalkDict;
    var pass := Decoding(units, false, Inclusive, mode, [[1, 2]]);
    assert MatchesAddress(pass.mask[0], [Some(1)] + [Some(2)]);
    OneEntry(pass, INNER, "b", Int(5), [Some(1)], Walked(Int(5), []), Int(5));
    assert CONTENT[0].value == Dict([Entry("b", Int(5))]);
    AddsNoMask(pass, INNER.fields["b"], Int(5), [Some(1)]);
  }

  lemma AddsNoMask(pass: Pass, f: Field, v: Value, parent: Address)
    requires pass.Decoding?
    ensures [] + MaskOf(pass, f, ElementAddress(f, v, parent)) == []
  {
  }

  /** `{a: {b: 5}}` is sent with the mask `[[1, 2]]`, and `{a: null}` is all that is left of it. */
  lemma NestedValueIsLost(units: Units, mode: ReadMode)
    ensures Encoded(units, false, Inclusive, OUTER, CONTENT) == Ok(State(CONTENT, {}, [[1, 2]]))
    ensures Decoded(units, false, Inclusive, mode, [[1, 2]], OUTER, CONTENT) == Ok(State([Entry("a", Null)], {}, []))
  {
    hide WalkDict;
    var enc, dec := Encoding(units, false, Inclusive), Decoding(units, false, Inclusive, mode, [[1, 2]]);
    var inner := CONTENT[0].value;
    InnerSent(units);
    InnerRead(units, mode);
    assert [] + [Some(1)] == [Some(1)];
    var address := [Some(1)] + [None];
    assert address[1] == None;
    assert !IsMaskable(address);
    assert !MatchesAddress([1, 2], address) by { assert [1, 2][1] == 2; }
    OneEntry(enc, OUTER, "a", inner, [], Walked(inner, [[1, 2]]), inner);
    OneEntry(dec, OUTER, "a", inner, [], Walked(inner, []), Null);
    assert CONTENT == [Entry("a", inner)];
    assert MaskOf(enc, OUTER.fields["a"], address) == [];
    assert [[1, 2]] + [] == [[1, 2]];
    AddsNoMask(dec, OUTER.fields["a"], inner, []);
  }
}
