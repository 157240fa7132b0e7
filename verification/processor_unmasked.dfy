/** Values that a mask lets through are decoded as they are without a mask. */
module ProcessorUnmasked {
  import opened Data
  import opened Processor
  import opened ProcessorDicts
  import opened ProcessorExcluded
  import opened ProcessorMasks
  import opened ProcessorShown
  import opened ProcessorValues
  import opened Wrappers

  function Unmasked(pass: Pass): Pass
    requires pass.Decoding?
  {
    pass.(maskMode := NoMask)
  }

  // ---- Walks in which nothing is excluded --------------------------------------------------

  /** The mask excludes neither `address` nor anything inside it. */
  ghost predicate IsOpen(pass: Pass, address: Address)
    requires pass.Decoding?
  {
    forall inside: Address :: !IsExcluded(pass, address + inside)
  }

  lemma OpenInside(pass: Pass, address: Address, more: Address)
    requires pass.Decoding? && IsOpen(pass, address)
    ensures IsOpen(pass, address + more) && !IsExcluded(pass, address + more)
  {
    hide IsExcluded;
    forall inside: Address ensures !IsExcluded(pass, address + more + inside) {
      assert address + more + inside == address + (more + inside);
    }
  }

  lemma OpenElement(pass: Pass, f: Field, v: Value, parent: Address)
    requires pass.Decoding? && IsOpen(pass, parent)
    ensures IsOpen(pass, parent + [Some(f.number)]) && !IsExcluded(pass, ElementAddress(f, v, parent))
  {
    hide IsExcluded, IsOpen;
    OpenInside(pass, parent, [Some(f.number)]);
    OpenInside(pass, parent + [Some(f.number)], [None]);
  }

  lemma OpenStep(pass: Pass, e: Entry, element: Element, parent: Address, s: State, nested: Walked)
    requires pass.Decoding? && !IsExcluded(pass, ElementAddress(element.field, e.value, parent))
    ensures Step(pass, e, element, parent, s, nested) == Step(Unmasked(pass), e, element, parent, s, nested)
  {
    hide DecodeEdit, Applied, Get, Assigned, ElementAddress;
  }

  lemma {:induction false} OpenDict(pass: Pass, schema: Schema, v: Value, n: nat, parent: Address)
    requires pass.Decoding? && IsOpen(pass, parent) && v.Dict? && n <= |v.entries|
    ensures WalkDict(pass, schema, v, n, parent) == WalkDict(Unmasked(pass), schema, v, n, parent)
    decreases v, 1, n
  {
    hide IsOpen, IsExcluded, Step, FindElement, WalkField, ElementAddress;
    if n > 0 {
      OpenDict(pass, schema, v, n - 1, parent);
      var e := v.entries[n - 1];
      assert ChildAt(v, n - 1) == e.value;
      var element, s := FindElement(schema, e.key), WalkDict(pass, schema, v, n - 1, parent);
      if element.Ok? && s.Ok? {
        var f := element.value.field;
        OpenElement(pass, f, e.value, parent);
        OpenField(pass, f, e.value, parent + [Some(f.number)]);
        var nested := WalkField(pass, f, e.value, parent + [Some(f.number)]);
        if nested.Ok? {
          OpenStep(pass, e, element.value, parent, s.value, nested.value);
        }
      }
    }
  }

  lemma OpenMessage(pass: Pass, schema: Schema, v: Value, address: Address)
    requires pass.Decoding? && IsOpen(pass, address)
    ensures WalkMessage(pass, schema, v, address) == WalkMessage(Unmasked(pass), schema, v, address)
    decreases v, 2, 0
  {
    hide IsOpen, WalkDict;
    if v.Dict? {
      OpenDict(pass, schema, v, |v.entries|, address);
    }
  }

  lemma {:induction false} OpenMessages(pass: Pass, schema: Schema, v: Value, n: nat, address: Address)
    requires pass.Decoding? && IsOpen(pass, address) && n <= ChildCount(v)
    ensures WalkMessages(pass, schema, v, n, address) == WalkMessages(Unmasked(pass), schema, v, n, address)
    decreases v, 1, n
  {
    hide IsOpen, WalkMessage;
    if n > 0 {
      OpenMessages(pass, schema, v, n - 1, address);
      OpenMessage(pass, schema, ChildAt(v, n - 1), address);
    }
  }

  lemma OpenField(pass: Pass, f: Field, v: Value, address: Address)
    requires pass.Decoding? && IsOpen(pass, address)
    ensures WalkField(pass, f, v, address) == WalkField(Unmasked(pass), f, v, address)
    decreases v, 3, 0
  {
    hide IsOpen, IsExcluded, WalkMessage, WalkMessages;
    OpenInside(pass, address, [None]);
    if !f.kind.Scalar? && !v.Null? {
      if f.repeated {
        OpenMessages(pass, f.kind.schema, v, ChildCount(v), address + [None]);
      } else {
        OpenMessage(pass, f.kind.schema, v, address);
      }
    }
  }

  // ---- The value at the end of a path ----------------------------------------------------------

  function KeptAt(pass: Pass, schema: Schema, r: Value, keys: seq<string>): Value
    requires pass.Decoding? && IsKept(pass, schema, r, keys)
    decreases |keys|
  {
    var f := schema.fields[keys[0]];
    var x := Get(r.entries, NewKey(pass, f, keys[0])).value;
    if |keys| == 1 then x else KeptAt(pass, f.kind.schema, x, keys[1..])
  }

  /** The leaf holds a plain value, or nothing inside it is excluded. */
  ghost predicate LeafIsOpen(pass: Pass, schema: Schema, keys: seq<string>, parent: Address)
    requires pass.Decoding?
    decreases |keys|
  {
    && IsPath(schema, keys)
    && var f := schema.fields[keys[0]];
       var address := parent + [Some(f.number)];
       if |keys| == 1 then f.kind.Scalar? || IsOpen(pass, address)
       else LeafIsOpen(pass, f.kind.schema, keys[1..], address)
  }

  lemma LeafIsUnmasked(pass: Pass, f: Field, key: string, v: Value, parent: Address, edit: Edit, plain: Edit)
    requires pass.Decoding? && IsLeafField(f, v)
    requires !IsExcluded(pass, parent + [Some(f.number)])
    requires f.kind.Scalar? || IsOpen(pass, parent + [Some(f.number)])
    requires IsDecodedTo(pass, f, key, v, parent, edit) && IsDecodedTo(Unmasked(pass), f, key, v, parent, plain)
    ensures edit == plain
  {
    hide IsOpen, DecodeEdit, WalkMessage, WalkMessages;
    if !f.kind.Scalar? {
      OpenField(pass, f, v, parent + [Some(f.number)]);
    }
  }

  /** A kept value equals the value that is decoded without a mask. */
  lemma {:induction false} KeptIsUnmasked(pass: Pass, schema: Schema, v: Value, keys: seq<string>, parent: Address)
    requires pass.Decoding? && LeadsToValue(schema, v, keys) && LeafIsOpen(pass, schema, keys, parent)
    requires WalkMessage(pass, schema, v, parent).Ok? && WalkMessage(Unmasked(pass), schema, v, parent).Ok?
    requires IsKept(pass, schema, WalkMessage(pass, schema, v, parent).value.value, keys)
    ensures var plain := WalkMessage(Unmasked(pass), schema, v, parent).value.value;
            && IsKept(Unmasked(pass), schema, plain, keys)
            && KeptAt(Unmasked(pass), schema, plain, keys) ==
               KeptAt(pass, schema, WalkMessage(pass, schema, v, parent).value.value, keys)
    decreases |keys|
  {
    hide WalkMessage, IsPlainObject, Get, IsDecodedTo, IsRead, IsExcluded, NewKey, IsBlank, HasValue, IsLeafField;
    hide IsSubmessage, IsOpen;
    LeadsThrough(schema, v, keys);
    KeptExactly(pass, schema, v, keys, parent);
    SameKeysUnmasked(pass, schema.fields[keys[0]], keys[0]);
    var edit := DecodedAt(pass, schema, v, parent, keys[0]);
    var plain := DecodedAt(Unmasked(pass), schema, v, parent, keys[0]);
    var f, x := schema.fields[keys[0]], Get(v.entries, keys[0]).value;
    if |keys| == 1 {
      LeafIsUnmasked(pass, f, keys[0], x, parent, edit, plain);
    } else {
      SubmessageKind(f);
      LeadsThrough(f.kind.schema, x, keys[1..]);
      SubmessageIsDecoded(pass, f, keys[0], x, parent, edit);
      SubmessageIsDecoded(Unmasked(pass), f, keys[0], x, parent, plain);
      KeptIsUnmasked(pass, f.kind.schema, x, keys[1..], parent + [Some(f.number)]);
    }
  }

  lemma SameKeysUnmasked(pass: Pass, f: Field, key: string)
    requires pass.Decoding?
    ensures NewKey(pass, f, key) == NewKey(Unmasked(pass), f, key)
    ensures IsRead(pass, f.options) == IsRead(Unmasked(pass), f.options)
    ensures forall address :: !IsExcluded(Unmasked(pass), address)
  {
  }

  // ---- Masks that open a leaf ----------------------------------------------------------------------

  /** The mask names the leaf or a submessage around it, or names nothing at or inside it if it is exclusive. */
  predicate OpensLeaf(maskMode: MaskMode, mask: seq<seq<nat>>, a: seq<nat>) {
    match maskMode
    case NoMask => true
    case Inclusive => Covers(mask, a)
    case Exclusive => forall k :: 0 <= k < |mask| ==> !Comparable(mask[k], a)
  }

  lemma OpenAddress(pass: Pass, a: seq<nat>)
    requires pass.Decoding? && OpensLeaf(pass.maskMode, pass.mask, a)
    ensures IsOpen(pass, AddressOf(a))
  {
    hide Comparable, MatchesAddress;
    forall inside: Address ensures !IsExcluded(pass, AddressOf(a) + inside) {
      if pass.maskMode == Inclusive {
        var k :| 0 <= k < |pass.mask| && pass.mask[k] <= a;
        PrefixMatches(pass.mask[k], a, inside);
      } else if pass.maskMode == Exclusive {
        forall k | 0 <= k < |pass.mask| ensures !MatchesAddress(pass.mask[k], AddressOf(a) + inside) {
          if MatchesAddress(pass.mask[k], AddressOf(a) + inside) {
            MatchesComparable(pass.mask[k], a, inside);
          }
        }
      }
    }
  }

  lemma PrefixMatches(m: seq<nat>, a: seq<nat>, inside: Address)
    requires m <= a
    ensures MatchesAddress(m, AddressOf(a) + inside)
  {
    forall i | 0 <= i < |m| ensures (AddressOf(a) + inside)[i] == Some(m[i]) {
      assert (AddressOf(a) + inside)[i] == AddressOf(a)[i];
    }
  }

  lemma {:induction false} LeafOpens(pass: Pass, schema: Schema, keys: seq<string>, prefix: seq<nat>)
    requires pass.Decoding? && IsPath(schema, keys)
    requires EndsInScalar(schema, keys) || OpensLeaf(pass.maskMode, pass.mask, prefix + NumbersOf(schema, keys))
    ensures LeafIsOpen(pass, schema, keys, AddressOf(prefix))
    decreases |keys|
  {
    hide IsOpen, OpensLeaf, AddressOf;
    var f := schema.fields[keys[0]];
    var a := prefix + [f.number];
    AddressNext(prefix, f.number);
    if |keys| == 1 {
      assert NumbersOf(schema, keys) == [f.number];
      if !f.kind.Scalar? {
        OpenAddress(pass, a);
      }
    } else {
      var later := NumbersOf(f.kind.schema, keys[1..]);
      assert prefix + NumbersOf(schema, keys) == a + later;
      LeafOpens(pass, f.kind.schema, keys[1..], a);
    }
  }

  predicate EndsInScalar(schema: Schema, keys: seq<string>)
    requires IsPath(schema, keys)
    decreases |keys|
  {
    var f := schema.fields[keys[0]];
    if |keys| == 1 then f.kind.Scalar? else EndsInScalar(f.kind.schema, keys[1..])
  }

  lemma ShownIsOpen(maskMode: MaskMode, mask: seq<seq<nat>>, a: seq<nat>)
    requires a != [] && IsShown(maskMode, mask, a)
    ensures OpensLeaf(maskMode, mask, a) || (maskMode == Inclusive && |a| == 1)
  {
    hide Comparable;
    if maskMode == Inclusive && |a| > 1 {
      var k :| 0 <= k < |mask| && mask[k] <= a[..1];
      assert mask[k] <= a;
    }
  }

  /**
   * A value that is shown equals the value that is decoded without a mask. Only for a repeated message at the root, an
   * inclusive mask has to name the field itself, and not just something inside it.
   */
  lemma ShownValueIsUnmasked(units: Units, filter: bool, maskMode: MaskMode, mode: ReadMode, mask: seq<seq<nat>>,
                             schema: Schema, content: seq<Entry>, keys: seq<string>)
    requires Decoded(units, filter, maskMode, mode, mask, schema, content).Ok?
    requires Decoded(units, filter, NoMask, mode, mask, schema, content).Ok?
    requires LeadsToValue(schema, Dict(content), keys)
    requires var pass := Decoding(units, filter, maskMode, mode, mask);
             IsKept(pass, schema, Dict(Decoded(units, filter, maskMode, mode, mask, schema, content).value.obj), keys)
    ensures IsPath(schema, keys)
    ensures var pass := Decoding(units, filter, maskMode, mode, mask);
            var plain := Decoding(units, filter, NoMask, mode, mask);
            var r := Dict(Decoded(units, filter, maskMode, mode, mask, schema, content).value.obj);
            var s := Dict(Decoded(units, filter, NoMask, mode, mask, schema, content).value.obj);
            EndsInScalar(schema, keys) || |keys| > 1 || OpensLeaf(maskMode, mask, NumbersOf(schema, keys)) ==>
              IsKept(plain, schema, s, keys) && KeptAt(pass, schema, r, keys) == KeptAt(plain, schema, s, keys)
  {
    hide WalkDict, IsKept, KeptAt, LeadsToValue, IsShown, IsUnfilteredPath, IsPath, OpensLeaf, LeafIsOpen;
    var pass := Decoding(units, filter, maskMode, mode, mask);
    var a := PathNumbers(schema, Dict(content), keys);
    DecodedValueKeptExactly(units, filter, maskMode, mode, mask, schema, content, keys);
    ShownIsOpen(maskMode, mask, a);
    if EndsInScalar(schema, keys) || OpensLeaf(maskMode, mask, a) {
      RootAddress(0);
      assert [] + a == a;
      LeafOpens(pass, schema, keys, []);
      KeptIsUnmasked(pass, schema, Dict(content), keys, []);
    }
  }

  lemma PathNumbers(schema: Schema, v: Value, keys: seq<string>) returns (a: seq<nat>)
    requires LeadsToValue(schema, v, keys)
    ensures IsPath(schema, keys) && a == NumbersOf(schema, keys) && |a| == |keys| && a != []
  {
    PathToValue(schema, v, keys);
    a := NumbersOf(schema, keys);
  }

  // ---- A list whose items are emptied -----------------------------------------------------------------

  const LISTED := Schema(map["a" := Field(1, true, Message(INNER), NO_OPTIONS)])

  lemma ItemEmptied(units: Units, mode: ReadMode)
    ensures WalkMessage(Decoding(units, false, Inclusive, mode, [[1, 2]]), INNER, Dict([Entry("b", Int(5))]),
                        [Some(1), None]) == Ok(Walked(Dict([Entry("b", Null)]), []))
  {
    hide WalkDict;
    var pass := Decoding(units, false, Inclusive, mode, [[1, 2]]);
    var address := [Some(1), None] + [Some(2)];
    assert address[1] == None;
    assert !MatchesAddress([1, 2], address) by { assert [1, 2][1] == 2; }
    OneEntry(pass, INNER, "b", Int(5), [Some(1), None], Walked(Int(5), []), Null);
    AddsNoMask(pass, INNER.fields["b"], Int(5), [Some(1), None]);
  }

  lemma ItemsEmptied(units: Units, mode: ReadMode)
    ensures WalkMessages(Decoding(units, false, Inclusive, mode, [[1, 2]]), INNER,
                         List([Dict([Entry("b", Int(5))])]), 1, [Some(1), None]) ==
            Ok(Walked(List([Dict([Entry("b", Null)])]), []))
  {
    hide WalkMessage;
    ItemEmptied(units, mode);
    var pass, v := Decoding(units, false, Inclusive, mode, [[1, 2]]), List([Dict([Entry("b", Int(5))])]);
    assert ChildAt(v, 0) == Dict([Entry("b", Int(5))]);
    assert WalkMessages(pass, INNER, v, 0, [Some(1), None]) == Ok(Walked(v, []));
    var r := WalkMessages(pass, INNER, v, 1, [Some(1), None]).value;
    assert r.mask == [];
    assert r.value == SetChild(v, 0, Dict([Entry("b", Null)]));
    assert v.items[0 := Dict([Entry("b", Null)])] == [Dict([Entry("b", Null)])];
  }

  /** With the mask `[[1, 2]]`, the list in `{a: [{b: 5}]}` is kept, but its item is not what it is without a mask. */
  lemma ItemIsLost(units: Units, mode: ReadMode)
    ensures Decoded(units, false, Inclusive, mode, [[1, 2]], LISTED,
            [Entry("a", List([Dict([Entry("b", Int(5))])]))]) ==
            Ok(State([Entry("a", List([Dict([Entry("b", Null)])]))], {}, []))
  {
    hide WalkDict, WalkMessages;
    var pass := Decoding(units, false, Inclusive, mode, [[1, 2]]);
    var v, w := List([Dict([Entry("b", Int(5))])]), List([Dict([Entry("b", Null)])]);
    ItemsEmptied(units, mode);
    assert [Some(1)] + [None] == [Some(1), None] && [] + [Some(1)] == [Some(1)];
    assert MatchesAddress(pass.mask[0], [Some(1)]);
    ListStays(units, NO_OPTIONS, w.items[0]);
    OneEntry(pass, LISTED, "a", v, [], Walked(w, []), w);
    AddsNoMask(pass, LISTED.fields["a"], v, []);
  }

  lemma ListStays(units: Units, o: Options, item: Value)
    requires HasNoConversion(o) && item.Dict?
    ensures DecodeItems(units, o, Typed, false, [item]) == Ok([item])
    ensures DecodeItems(units, o, Postfix, false, [item]) == Ok([item])
  {
    DecodedObjects(units, o, Typed, false, [item]);
    DecodedObjects(units, o, Postfix, false, [item]);
    assert DecodeItems(units, o, Typed, false, [item]).value == [item];
    assert DecodeItems(units, o, Postfix, false, [item]).value == [item];
  }
}
