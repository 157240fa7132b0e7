/** The patch mask that encoding builds: exactly the leaves that are kept. */
module ProcessorMasks {
  import opened Data
  import opened Processor
  import opened ProcessorDicts
  import opened ProcessorValues
  import opened Wrappers

  // ---- Leaves ---------------------------------------------------------------------------

  /** Scalars, deleted submessages and whole repeated fields. */
  predicate IsLeafField(f: Field, v: Value) {
    f.kind.Scalar? || v.Null? || f.repeated
  }

  /** Writing keeps fields that are not ignored and, when values are filtered, not readonly. */
  predicate IsWritten(filter: bool, o: Options) {
    !o.ignored && (filter ==> !o.readonly)
  }

  lemma WrittenExactly(pass: Pass, o: Options)
    requires pass.Encoding?
    ensures IsWritten(pass.filter, o) <==> !IsFiltered(pass, o)
  {
  }

  /** `address` leads to a leaf through entry `i`; with `kept`, to a leaf whose own field is not filtered. */
  ghost predicate LeafThrough(pass: Pass, kept: bool, schema: Schema, v: Value, i: nat, address: seq<nat>)
    requires i < ChildCount(v)
    decreases v, 0
  {
    v.Dict? &&
    var element := FindElement(schema, v.entries[i].key);
    && element.Ok? && address != [] && address[0] == element.value.field.number
    && var f := element.value.field;
       if IsLeafField(f, ChildAt(v, i)) then |address| == 1 && (kept ==> IsWritten(pass.filter, f.options))
       else IsLeaf(pass, kept, f.kind.schema, ChildAt(v, i), address[1..])
  }

  ghost predicate LeafThroughSome(pass: Pass, kept: bool, schema: Schema, v: Value, n: nat, address: seq<nat>)
    requires n <= ChildCount(v)
    decreases v, 1
  {
    exists i :: 0 <= i < n && LeafThrough(pass, kept, schema, v, i, address)
  }

  /** The address of a leaf outside repeated fields. */
  ghost predicate IsLeaf(pass: Pass, kept: bool, schema: Schema, v: Value, address: seq<nat>)
    decreases v, 2
  {
    LeafThroughSome(pass, kept, schema, v, ChildCount(v), address)
  }

  lemma LeafThroughNext(pass: Pass, kept: bool, schema: Schema, v: Value, n: nat, address: seq<nat>)
    requires n < ChildCount(v)
    ensures LeafThroughSome(pass, kept, schema, v, n + 1, address) <==>
            LeafThroughSome(pass, kept, schema, v, n, address) || LeafThrough(pass, kept, schema, v, n, address)
  {
    hide LeafThrough;
  }

  // ---- Nothing inside repeated fields is masked -------------------------------------------

  lemma Unmaskable(parent: Address, tag: Option<nat>)
    requires !IsMaskable(parent) || tag.None?
    ensures !IsMaskable(parent + [tag])
  {
    if !IsMaskable(parent) {
      var i :| 0 <= i < |parent| && parent[i].None?;
      assert (parent + [tag])[i].None?;
    } else {
      assert (parent + [tag])[|parent|].None?;
    }
  }

  lemma ElementUnmaskable(f: Field, v: Value, parent: Address)
    requires !IsMaskable(parent)
    ensures !IsMaskable(ElementAddress(f, v, parent)) && !IsMaskable(parent + [Some(f.number)])
  {
    hide IsMaskable;
    Unmaskable(parent, Some(f.number));
    Unmaskable(parent + [Some(f.number)], None);
  }

  lemma {:induction false} NoMaskInDict(pass: Pass, schema: Schema, v: Value, n: nat, parent: Address)
    requires v.Dict? && n <= |v.entries| && !IsMaskable(parent) && WalkDict(pass, schema, v, n, parent).Ok?
    ensures WalkDict(pass, schema, v, n, parent).value.mask == []
    decreases v, 1, n
  {
    hide IsMaskable, EditOf, FindElement, WalkField, Applied, ElementAddress;
    if n > 0 {
      NoMaskInDict(pass, schema, v, n - 1, parent);
      var e := v.entries[n - 1];
      var f := FindElement(schema, e.key).value.field;
      assert ChildAt(v, n - 1) == e.value;
      ElementUnmaskable(f, e.value, parent);
      NoMaskInField(pass, f, e.value, parent + [Some(f.number)]);
    }
  }

  lemma NoMaskInMessage(pass: Pass, schema: Schema, v: Value, address: Address)
    requires !IsMaskable(address) && WalkMessage(pass, schema, v, address).Ok?
    ensures WalkMessage(pass, schema, v, address).value.mask == []
    decreases v, 2, 0
  {
    hide WalkDict, IsMaskable;
    NoMaskInDict(pass, schema, v, |v.entries|, address);
  }

  lemma {:induction false} NoMaskInMessages(pass: Pass, schema: Schema, v: Value, n: nat, address: Address)
    requires n <= ChildCount(v) && !IsMaskable(address) && WalkMessages(pass, schema, v, n, address).Ok?
    ensures WalkMessages(pass, schema, v, n, address).value.mask == []
    decreases v, 1, n
  {
    hide IsMaskable, WalkMessage;
    if n > 0 {
      NoMaskInMessages(pass, schema, v, n - 1, address);
      NoMaskInMessage(pass, schema, ChildAt(v, n - 1), address);
    }
  }

  lemma NoMaskInField(pass: Pass, f: Field, v: Value, address: Address)
    requires WalkField(pass, f, v, address).Ok? && (!IsMaskable(address) || IsLeafField(f, v))
    ensures WalkField(pass, f, v, address).value.mask == []
    decreases v, 3, 0
  {
    hide IsMaskable, WalkMessage, WalkMessages;
    if f.kind.Scalar? || v.Null? {
    } else if !f.repeated {
      NoMaskInMessage(pass, f.kind.schema, v, address);
    } else {
      Unmaskable(address, None);
      NoMaskInMessages(pass, f.kind.schema, v, ChildCount(v), address + [None]);
    }
  }

  // ---- What one element adds -----------------------------------------------------------------

  lemma MaskableNext(parent: Address, number: nat)
    requires IsMaskable(parent)
    ensures IsMaskable(parent + [Some(number)])
    ensures Tags(parent + [Some(number)]) == Tags(parent) + [number]
  {
  }

  lemma LeafAddress(f: Field, v: Value, parent: Address)
    requires IsMaskable(parent)
    ensures if IsLeafField(f, v) then ElementAddress(f, v, parent) == parent + [Some(f.number)]
            else !IsMaskable(ElementAddress(f, v, parent))
  {
    hide IsMaskable;
    Unmaskable(parent + [Some(f.number)], None);
  }

  /** `a` continues the address `prefix`. */
  predicate Continues(prefix: seq<nat>, a: seq<nat>) {
    |prefix| < |a| && a[..|prefix|] == prefix
  }

  lemma ContinuesNext(prefix: seq<nat>, number: nat, a: seq<nat>)
    ensures Continues(prefix + [number], a) <==> Continues(prefix, a) && a[|prefix|] == number && |a| > |prefix| + 1
    ensures Continues(prefix, a) ==> a[|prefix|..] != [] && a[|prefix|..][0] == a[|prefix|] &&
                                     a[|prefix|..][1..] == a[|prefix| + 1..]
    ensures Continues(prefix, a) && |a| == |prefix| + 1 && a[|prefix|] == number <==> a == prefix + [number]
  {
    if |a| > |prefix| {
      assert a[..|prefix| + 1] == a[..|prefix|] + [a[|prefix|]];
    }
  }

  /** The mask fields of entry `i`: those nested in it, and its own. */
  ghost predicate ElementMasks(pass: Pass, schema: Schema, v: Value, i: nat, parent: Address, a: seq<nat>)
    requires v.Dict? && i < |v.entries|
  {
    var e := v.entries[i];
    var element := FindElement(schema, e.key);
    && element.Ok?
    && var f := element.value.field;
       var nested := WalkField(pass, f, e.value, parent + [Some(f.number)]);
       nested.Ok? && (a in nested.value.mask || a in MaskOf(pass, f, ElementAddress(f, e.value, parent)))
  }

  lemma StepMasks(pass: Pass, schema: Schema, v: Value, n: nat, parent: Address, a: seq<nat>)
    requires v.Dict? && n < |v.entries| && WalkDict(pass, schema, v, n + 1, parent).Ok?
    ensures WalkDict(pass, schema, v, n, parent).Ok?
    ensures a in WalkDict(pass, schema, v, n + 1, parent).value.mask <==>
            a in WalkDict(pass, schema, v, n, parent).value.mask || ElementMasks(pass, schema, v, n, parent, a)
    ensures var element := FindElement(schema, v.entries[n].key);
            element.Ok? &&
            WalkField(pass, element.value.field, v.entries[n].value, parent + [Some(element.value.field.number)]).Ok?
  {
    hide EditOf, FindElement, WalkField, Applied, ElementAddress, MaskOf;
    assert ChildAt(v, n) == v.entries[n].value;
  }

  /** What `LeafThrough` says about the field of one entry. */
  lemma ThroughElement(pass: Pass, kept: bool, schema: Schema, v: Value, i: nat, prefix: seq<nat>, a: seq<nat>)
    requires v.Dict? && i < |v.entries| && FindElement(schema, v.entries[i].key).Ok?
    ensures var f := FindElement(schema, v.entries[i].key).value.field;
            Continues(prefix, a) && LeafThrough(pass, kept, schema, v, i, a[|prefix|..]) <==>
            if IsLeafField(f, ChildAt(v, i)) then
              a == prefix + [f.number] && (kept ==> IsWritten(pass.filter, f.options))
            else Continues(prefix + [f.number], a)
                 && IsLeaf(pass, kept, f.kind.schema, ChildAt(v, i), a[|prefix| + 1..])
  {
    hide FindElement, IsWritten, IsLeaf;
    var f := FindElement(schema, v.entries[i].key).value.field;
    ContinuesNext(prefix, f.number, a);
    if !IsLeafField(f, ChildAt(v, i)) {
      NoLeafAtRoot(pass, kept, f.kind.schema, ChildAt(v, i));
    }
  }

  lemma NoLeafAtRoot(pass: Pass, kept: bool, schema: Schema, v: Value)
    ensures !IsLeaf(pass, kept, schema, v, [])
  {
    hide FindElement, IsWritten;
    forall i | 0 <= i < ChildCount(v) ensures !LeafThrough(pass, kept, schema, v, i, []) {
    }
    assert !LeafThroughSome(pass, kept, schema, v, ChildCount(v), []);
  }

  lemma LeafMasks(pass: Pass, schema: Schema, v: Value, i: nat, parent: Address, a: seq<nat>, f: Field)
    requires v.Dict? && i < |v.entries| && pass.Encoding? && pass.maskMode == Inclusive && IsMaskable(parent)
    requires var element := FindElement(schema, v.entries[i].key); element.Ok? && element.value.field == f
    requires WalkField(pass, f, v.entries[i].value, parent + [Some(f.number)]).Ok?
    requires IsLeafField(f, v.entries[i].value)
    ensures ElementMasks(pass, schema, v, i, parent, a) <==>
            a == Tags(parent) + [f.number] && IsWritten(pass.filter, f.options)
  {
    hide FindElement, WalkField, IsMaskable, IsWritten, Tags, IsLeafField;
    hide IsFiltered;
    WrittenExactly(pass, f.options);
    MaskableNext(parent, f.number);
    LeafAddress(f, v.entries[i].value, parent);
    NoMaskInField(pass, f, v.entries[i].value, parent + [Some(f.number)]);
  }

  lemma NestedMasks(pass: Pass, schema: Schema, v: Value, i: nat, parent: Address, a: seq<nat>, f: Field)
    requires v.Dict? && i < |v.entries| && IsMaskable(parent)
    requires var element := FindElement(schema, v.entries[i].key); element.Ok? && element.value.field == f
    requires WalkField(pass, f, v.entries[i].value, parent + [Some(f.number)]).Ok?
    requires !IsLeafField(f, v.entries[i].value)
    ensures WalkMessage(pass, f.kind.schema, v.entries[i].value, parent + [Some(f.number)]).Ok?
    ensures ElementMasks(pass, schema, v, i, parent, a) <==>
            a in WalkMessage(pass, f.kind.schema, v.entries[i].value, parent + [Some(f.number)]).value.mask
  {
    hide FindElement, WalkMessage, WalkMessages, IsMaskable, IsWritten, Tags;
    LeafAddress(f, v.entries[i].value, parent);
  }

  lemma ElementMasksExactly(pass: Pass, schema: Schema, v: Value, i: nat, parent: Address, a: seq<nat>)
    requires v.Dict? && i < |v.entries| && pass.Encoding? && pass.maskMode == Inclusive && IsMaskable(parent)
    requires var element := FindElement(schema, v.entries[i].key);
             element.Ok? &&
             WalkField(pass, element.value.field, v.entries[i].value, parent + [Some(element.value.field.number)]).Ok?
    ensures ElementMasks(pass, schema, v, i, parent, a) <==>
            Continues(Tags(parent), a) && LeafThrough(pass, true, schema, v, i, a[|parent|..])
    decreases v, 0, 0
  {
    hide FindElement, WalkField, WalkMessage, IsMaskable, IsWritten, IsLeaf, Tags, LeafThrough, ElementMasks;
    var child := v.entries[i].value;
    assert ChildAt(v, i) == child;
    var f := FindElement(schema, v.entries[i].key).value.field;
    ThroughElement(pass, true, schema, v, i, Tags(parent), a);
    if IsLeafField(f, child) {
      LeafMasks(pass, schema, v, i, parent, a, f);
    } else {
      NestedMasks(pass, schema, v, i, parent, a, f);
      MaskableNext(parent, f.number);
      MessageMasksExactly(pass, f.kind.schema, child, parent + [Some(f.number)], a);
    }
  }

  lemma MessageMasksExactly(pass: Pass, schema: Schema, v: Value, address: Address, a: seq<nat>)
    requires pass.Encoding? && pass.maskMode == Inclusive && IsMaskable(address)
    requires WalkMessage(pass, schema, v, address).Ok?
    ensures a in WalkMessage(pass, schema, v, address).value.mask <==>
            Continues(Tags(address), a) && IsLeaf(pass, true, schema, v, a[|address|..])
    decreases v, 2, 0
  {
    hide WalkDict, IsMaskable, Tags, LeafThroughSome;
    DictMasksExactly(pass, schema, v, |v.entries|, address, a);
  }

  lemma {:induction false} DictMasksExactly(pass: Pass, schema: Schema, v: Value, n: nat, parent: Address, a: seq<nat>)
    requires pass.Encoding? && pass.maskMode == Inclusive && IsMaskable(parent)
    requires v.Dict? && n <= |v.entries| && WalkDict(pass, schema, v, n, parent).Ok?
    ensures a in WalkDict(pass, schema, v, n, parent).value.mask <==>
            Continues(Tags(parent), a) && LeafThroughSome(pass, true, schema, v, n, a[|parent|..])
    decreases v, 1, n
  {
    hide *;
    if n == 0 {
      NothingWalked(pass, schema, v, parent);
      NoLeafBefore(pass, schema, v, a, parent);
    } else {
      DictChildren(v);
      StepMasks(pass, schema, v, n - 1, parent, a);
      DictMasksExactly(pass, schema, v, n - 1, parent, a);
      ElementMasksExactly(pass, schema, v, n - 1, parent, a);
      if Continues(Tags(parent), a) {
        LongEnough(parent, a);
        LeafThroughNext(pass, true, schema, v, n - 1, a[|parent|..]);
      }
    }
  }

  lemma NoLeafBefore(pass: Pass, schema: Schema, v: Value, a: seq<nat>, parent: Address)
    requires IsMaskable(parent)
    ensures Continues(Tags(parent), a) ==> |parent| <= |a| && !LeafThroughSome(pass, true, schema, v, 0, a[|parent|..])
  {
    hide LeafThrough;
  }

  lemma DictChildren(v: Value)
    requires v.Dict?
    ensures ChildCount(v) == |v.entries|
  {
  }

  lemma LongEnough(parent: Address, a: seq<nat>)
    requires IsMaskable(parent) && Continues(Tags(parent), a)
    ensures |parent| <= |a|
  {
  }

  /** An inclusive mask holds exactly the addresses of the leaves whose own field survives filtering. */
  lemma MaskExactly(units: Units, filter: bool, schema: Schema, content: seq<Entry>)
    requires Encoded(units, filter, Inclusive, schema, content).Ok?
    ensures forall a :: a in Encoded(units, filter, Inclusive, schema, content).value.mask <==>
                        IsLeaf(Encoding(units, filter, Inclusive), true, schema, Dict(content), a)
  {
    hide WalkDict, LeafThrough;
    var pass := Encoding(units, filter, Inclusive);
    forall a
      ensures a in Encoded(units, filter, Inclusive, schema, content).value.mask <==>
              IsLeaf(pass, true, schema, Dict(content), a)
    {
      DictMasksExactly(pass, schema, Dict(content), |content|, [], a);
      if a == [] {
        NoLeafAtRoot(pass, true, schema, Dict(content));
      } else {
        assert Continues(Tags([]), a) && a[0..] == a;
      }
    }
  }

  // ---- Masks are prefix-free -----------------------------------------------------------------------

  ghost predicate HasDistinctNumbers(schema: Schema) {
    forall a, b :: a in schema.fields && b in schema.fields && schema.fields[a].number == schema.fields[b].number ==>
      a == b
  }

  /** No field is named twice outside repeated fields. */
  ghost predicate HasDistinctNames(schema: Schema, v: Value)
    decreases v
  {
    && HasDistinctNumbers(schema)
    && (v.Dict? ==> HasOwnNames(v.entries))
    && forall i :: 0 <= i < ChildCount(v) ==>
                     v.Dict? && FindElement(schema, v.entries[i].key).Ok? ==>
                       var f := FindElement(schema, v.entries[i].key).value.field;
                       !IsLeafField(f, ChildAt(v, i)) ==> HasDistinctNames(f.kind.schema, ChildAt(v, i))
  }

  /** One address is a prefix of the other. */
  predicate Comparable(a: seq<nat>, b: seq<nat>) {
    forall i :: 0 <= i < |a| && i < |b| ==> a[i] == b[i]
  }

  lemma SameNumber(schema: Schema, v: Value, i: nat, j: nat)
    requires v.Dict? && i < |v.entries| && j < |v.entries| && HasDistinctNames(schema, v)
    requires FindElement(schema, v.entries[i].key).Ok? && FindElement(schema, v.entries[j].key).Ok?
    requires FindElement(schema, v.entries[i].key).value.field.number ==
             FindElement(schema, v.entries[j].key).value.field.number
    ensures i == j
  {
    hide ParseKey;
    assert Base(v.entries[i].key) == Base(v.entries[j].key);
  }

  /** The entry that a leaf address goes through. */
  lemma FirstStep(pass: Pass, kept: bool, schema: Schema, v: Value, a: seq<nat>) returns (i: nat, f: Field)
    requires IsLeaf(pass, kept, schema, v, a)
    ensures v.Dict? && i < |v.entries| && a != []
    ensures FindElement(schema, v.entries[i].key).Ok? && FindElement(schema, v.entries[i].key).value.field == f
    ensures a[0] == f.number
    ensures IsLeafField(f, ChildAt(v, i)) ==> a == [f.number] && (kept ==> IsWritten(pass.filter, f.options))
    ensures !IsLeafField(f, ChildAt(v, i)) ==> IsLeaf(pass, kept, f.kind.schema, ChildAt(v, i), a[1..])
  {
    hide FindElement, IsWritten;
    assert LeafThroughSome(pass, kept, schema, v, ChildCount(v), a);
    var k :| 0 <= k < ChildCount(v) && LeafThrough(pass, kept, schema, v, k, a);
    i := k;
    f := FindElement(schema, v.entries[i].key).value.field;
  }

  lemma NestedNames(schema: Schema, v: Value, i: nat, f: Field)
    requires HasDistinctNames(schema, v) && v.Dict? && i < |v.entries| && !IsLeafField(f, ChildAt(v, i))
    requires FindElement(schema, v.entries[i].key).Ok? && FindElement(schema, v.entries[i].key).value.field == f
    ensures HasDistinctNames(f.kind.schema, ChildAt(v, i))
  {
    hide FindElement, IsLeafField;
  }

  lemma {:induction false} LeavesArePrefixFree(pass: Pass, kept: bool, schema: Schema, v: Value, a: seq<nat>,
                                               b: seq<nat>)
    requires HasDistinctNames(schema, v) && IsLeaf(pass, kept, schema, v, a) && IsLeaf(pass, false, schema, v, b)
    requires Comparable(a, b)
    ensures a == b
    decreases v
  {
    hide FindElement, IsWritten, IsLeaf, HasDistinctNames;
    var i, f := FirstStep(pass, kept, schema, v, a);
    var j, g := FirstStep(pass, false, schema, v, b);
    SameNumber(schema, v, i, j);
    if !IsLeafField(f, ChildAt(v, i)) {
      NestedNames(schema, v, i, f);
      ComparableTails(a, b);
      LeavesArePrefixFree(pass, kept, f.kind.schema, ChildAt(v, i), a[1..], b[1..]);
      assert a == [a[0]] + a[1..] && b == [b[0]] + b[1..];
    }
  }

  lemma ComparableTails(a: seq<nat>, b: seq<nat>)
    requires a != [] && b != [] && Comparable(a, b)
    ensures Comparable(a[1..], b[1..])
  {
  }

  /** Addresses of elements in a payload without repeated parents. */
  function AddressOf(a: seq<nat>): (address: Address)
    ensures |address| == |a| && forall i :: 0 <= i < |a| ==> address[i] == Some(a[i])
  {
    seq(|a|, i requires 0 <= i < |a| => Some(a[i]))
  }

  predicate IsMatched(mask: seq<seq<nat>>, address: Address) {
    exists k :: 0 <= k < |mask| && MatchesAddress(mask[k], address)
  }

  lemma {:induction false} KeptIsLeaf(pass: Pass, schema: Schema, v: Value, a: seq<nat>)
    requires IsLeaf(pass, true, schema, v, a)
    ensures IsLeaf(pass, false, schema, v, a)
    decreases v
  {
    hide FindElement, IsWritten;
    var i, f := FirstStep(pass, true, schema, v, a);
    if !IsLeafField(f, ChildAt(v, i)) {
      KeptIsLeaf(pass, f.kind.schema, ChildAt(v, i), a[1..]);
    }
    assert LeafThrough(pass, false, schema, v, i, a);
  }

  /** No mask field is a prefix of another, when no field is named twice. */
  lemma MaskIsPrefixFree(units: Units, filter: bool, schema: Schema, content: seq<Entry>)
    requires Encoded(units, filter, Inclusive, schema, content).Ok? && HasDistinctNames(schema, Dict(content))
    ensures var mask := Encoded(units, filter, Inclusive, schema, content).value.mask;
            forall a, b :: a in mask && b in mask && Comparable(a, b) ==> a == b
  {
    hide IsLeaf, HasDistinctNames, WalkDict;
    var pass := Encoding(units, filter, Inclusive);
    var mask := Encoded(units, filter, Inclusive, schema, content).value.mask;
    MaskExactly(units, filter, schema, content);
    forall a, b | a in mask && b in mask && Comparable(a, b) ensures a == b {
      KeptIsLeaf(pass, schema, Dict(content), b);
      LeavesArePrefixFree(pass, true, schema, Dict(content), a, b);
    }
  }

  /**
   * A leaf, or an element inside a repeated field that is a leaf, matches the mask exactly if the leaf was put in it.
   */
  lemma LeafMatchesExactly(units: Units, filter: bool, schema: Schema, content: seq<Entry>, leaf: seq<nat>,
                           inside: Address)
    requires Encoded(units, filter, Inclusive, schema, content).Ok? && HasDistinctNames(schema, Dict(content))
    requires IsLeaf(Encoding(units, filter, Inclusive), false, schema, Dict(content), leaf)
    ensures var mask := Encoded(units, filter, Inclusive, schema, content).value.mask;
            IsMatched(mask, AddressOf(leaf) + inside) <==> leaf in mask
  {
    hide IsLeaf, HasDistinctNames, WalkDict;
    var pass := Encoding(units, filter, Inclusive);
    var mask := Encoded(units, filter, Inclusive, schema, content).value.mask;
    MaskExactly(units, filter, schema, content);
    if IsMatched(mask, AddressOf(leaf) + inside) {
      var k :| 0 <= k < |mask| && MatchesAddress(mask[k], AddressOf(leaf) + inside);
      MatchesComparable(mask[k], leaf, inside);
      assert mask[k] in mask;
      LeavesArePrefixFree(pass, true, schema, Dict(content), mask[k], leaf);
    }
    if leaf in mask {
      var k :| 0 <= k < |mask| && mask[k] == leaf;
      assert MatchesAddress(mask[k], AddressOf(leaf) + inside);
    }
  }

  /**
   * By its own address, a leaf or an element inside it is excluded exactly if the leaf was not put in the mask. Whether
   * it is left in the decoded content also depends on the submessages around it.
   */
  lemma ExcludedExactly(units: Units, filter: bool, mode: ReadMode, schema: Schema, content: seq<Entry>,
                        leaf: seq<nat>, inside: Address)
    requires Encoded(units, filter, Inclusive, schema, content).Ok? && HasDistinctNames(schema, Dict(content))
    requires IsLeaf(Encoding(units, filter, Inclusive), false, schema, Dict(content), leaf)
    ensures var mask := Encoded(units, filter, Inclusive, schema, content).value.mask;
            IsExcluded(Decoding(units, filter, Inclusive, mode, mask), AddressOf(leaf) + inside) <==> leaf !in mask
  {
    hide IsLeaf, HasDistinctNames, WalkDict;
    LeafMatchesExactly(units, filter, schema, content, leaf, inside);
  }

  lemma MatchesComparable(a: seq<nat>, leaf: seq<nat>, inside: Address)
    requires MatchesAddress(a, AddressOf(leaf) + inside)
    ensures Comparable(a, leaf)
  {
    forall i | 0 <= i < |a| && i < |leaf| ensures a[i] == leaf[i] {
      assert (AddressOf(leaf) + inside)[i] == Some(leaf[i]);
    }
  }

  // ---- Fields that are dropped from the content ------------------------------------------------------

  ghost predicate OneNameEach(v: Value) {
    v.Dict? && HasOwnNames(v.entries)
  }

  /** Fields that are set to null, ignored, or readonly when values are filtered. */
  predicate IsDropped(filter: bool, schema: Schema, e: Entry) {
    || e.value.Null?
    || (FindElement(schema, e.key).Ok? &&
        var o := FindElement(schema, e.key).value.field.options;
        o.ignored || (filter && o.readonly))
  }

  lemma EncodedName(pass: Pass, f: Field, key: string, parsed: Key, address: Address, v: Value)
    requires pass.Encoding? && ParseKey(key) == Some(parsed)
    requires EditOf(pass, f, key, parsed, address, v).Ok?
    ensures var edit := EditOf(pass, f, key, parsed, address, v).value;
            && (v.Null? || f.options.ignored || (pass.filter && f.options.readonly) ==> edit == Delete)
            && (edit.Assign? ==> edit.key == parsed.base && Base(edit.key) == Base(key))
  {
    hide EncodeValue, EncodeItems, ParseKey, UntilSymbol;
    BaseIsName(key);
  }

  lemma BaseIsName(key: string)
    requires ParseKey(key).Some?
    ensures Base(ParseKey(key).value.base) == ParseKey(key).value.base
  {
    hide BehindSymbols, UntilComma;
    PlainKey(ParseKey(key).value.base);
  }

  lemma BaseOfBase(key: string)
    ensures Base(Base(key)) == Base(key)
  {
    if ParseKey(key).Some? {
      BaseIsName(key);
    }
  }

  /** Assignments go to the name of the field, and dropped fields are deleted. */
  lemma EncodedEdit(pass: Pass, schema: Schema, v: Value, i: nat, parent: Address)
    requires pass.Encoding? && v.Dict? && i < |v.entries| && EditAt(pass, schema, v, i, parent).Ok?
    ensures var edit := EditAt(pass, schema, v, i, parent).value;
            && (edit.Assign? ==> edit.key == Base(v.entries[i].key) && Base(edit.key) == Base(v.entries[i].key))
            && (IsDropped(pass.filter, schema, v.entries[i]) ==> edit == Delete)
  {
    hide EditOf, WalkMessage, WalkMessages, ParseKey;
    var e := v.entries[i];
    var element := FindElement(schema, e.key).value;
    var nested := WalkField(pass, element.field, e.value, parent + [Some(element.field.number)]).value.value;
    EncodedName(pass, element.field, e.key, element.key, ElementAddress(element.field, e.value, parent), nested);
  }

  lemma EncodingKeepsNames(pass: Pass, schema: Schema, v: Value, parent: Address)
    requires pass.Encoding? && v.Dict?
    ensures KeepsNames(pass, schema, v, parent)
  {
    hide EditAt, Base;
    forall i | 0 <= i < |v.entries| && EditAt(pass, schema, v, i, parent).Ok?
      ensures var edit := EditAt(pass, schema, v, i, parent).value;
              edit.Assign? ==> Base(edit.key) == Base(v.entries[i].key)
    {
      EncodedEdit(pass, schema, v, i, parent);
    }
  }

  lemma OneNameUnique(v: Value)
    requires OneNameEach(v)
    ensures v.Dict? && UniqueKeys(v.entries) && HasOwnNames(v.entries)
  {
    hide Base;
    forall i, j | 0 <= i < j < |v.entries| ensures v.entries[i].key != v.entries[j].key {
      assert Base(v.entries[i].key) != Base(v.entries[j].key);
    }
  }

  /** What is found under the name of an entry after its object was encoded. */
  lemma EncodedAt(pass: Pass, schema: Schema, v: Value, address: Address, i: nat) returns (edit: Edit)
    requires pass.Encoding? && OneNameEach(v) && i < ChildCount(v) && WalkMessage(pass, schema, v, address).Ok?
    ensures v.Dict? && EditAt(pass, schema, v, i, address) == Ok(edit)
    ensures var r := WalkMessage(pass, schema, v, address).value.value;
            r.Dict? && forall key :: Base(key) == Base(v.entries[i].key) && Get(r.entries, key).Some? ==>
                                       edit.Assign? && Get(r.entries, key) == Some(edit.value)
    ensures edit.Assign? ==>
            Get(WalkMessage(pass, schema, v, address).value.value.entries, edit.key) == Some(edit.value)
  {
    hide WalkDict, EditAt, Base, Get, Settled, AreEdits, HasOwnNames, OwnNames, KeepsNames;
    OneNameUnique(v);
    EncodingKeepsNames(pass, schema, v, address);
    var edits := WalkEdits(pass, schema, v, |v.entries|, address);
    EditsAt(pass, schema, v, i, address, edits);
    edit := edits[i];
    SettledAt(v.entries, edits, WalkDict(pass, schema, v, |v.entries|, address).value, i);
  }

  /** The entry that an encoded value comes from. */
  lemma EncodedFrom(pass: Pass, schema: Schema, v: Value, address: Address, key: string) returns (i: nat, edit: Edit)
    requires pass.Encoding? && OneNameEach(v) && WalkMessage(pass, schema, v, address).Ok?
    requires var r := WalkMessage(pass, schema, v, address).value.value; r.Dict? && Get(r.entries, key).Some?
    ensures v.Dict? && i < |v.entries| && EditAt(pass, schema, v, i, address) == Ok(edit)
    ensures edit.Assign? && edit.key == key
    ensures Get(WalkMessage(pass, schema, v, address).value.value.entries, key) == Some(edit.value)
  {
    hide WalkDict, EditAt, Base, Get, AreEdits, HasOwnNames, OwnNames, KeepsNames;
    OneNameUnique(v);
    EncodingKeepsNames(pass, schema, v, address);
    var edits := WalkEdits(pass, schema, v, |v.entries|, address);
    EditsSize(pass, schema, v, address, edits);
    assert IsKeyAfter(v.entries, edits, |edits|, key);
    var k :| 0 <= k < |edits| && edits[k].Assign? && edits[k].key == key;
    i, edit := k, edits[k];
    EditsAt(pass, schema, v, i, address, edits);
  }

  // ---- Along a path of submessages -------------------------------------------------------------------

  /** The value that a path of keys leads to. */
  function ValueAt(v: Value, keys: seq<string>): Option<Value>
    decreases |keys|
  {
    if keys == [] then Some(v)
    else if v.Dict? && Get(v.entries, keys[0]).Some? then ValueAt(Get(v.entries, keys[0]).value, keys[1..])
    else None
  }

  /** The type of the submessage that a path of keys leads to. */
  function SchemaAt(schema: Schema, keys: seq<string>): Option<Schema>
    decreases |keys|
  {
    if keys == [] then Some(schema)
    else
      var element := FindElement(schema, keys[0]);
      if element.Ok? && IsSubmessage(element.value.field) then SchemaAt(element.value.field.kind.schema, keys[1..])
      else None
  }

  predicate IsSubmessage(f: Field) {
    f.kind.Message? && !f.repeated && HasNoConversion(f.options)
  }

  ghost predicate OneNameAlong(v: Value, keys: seq<string>)
    decreases |keys|
  {
    && OneNameEach(v)
    && (keys != [] && Get(v.entries, keys[0]).Some? ==> OneNameAlong(Get(v.entries, keys[0]).value, keys[1..]))
  }

  function Bases(keys: seq<string>): seq<string> {
    if keys == [] then [] else [Base(keys[0])] + Bases(keys[1..])
  }

  /** A submessage that is not dropped is replaced by its edited content. */
  lemma SubmessageEdit(pass: Pass, schema: Schema, v: Value, i: nat, parent: Address, f: Field, edit: Edit)
    requires pass.Encoding? && v.Dict? && i < |v.entries| && v.entries[i].value.Dict?
    requires EditAt(pass, schema, v, i, parent) == Ok(edit) && edit.Assign?
    requires FindElement(schema, v.entries[i].key).Ok? && FindElement(schema, v.entries[i].key).value.field == f
    requires IsSubmessage(f)
    ensures WalkMessage(pass, f.kind.schema, v.entries[i].value, parent + [Some(f.number)]).Ok?
    ensures edit.value == WalkMessage(pass, f.kind.schema, v.entries[i].value, parent + [Some(f.number)]).value.value
  {
    hide FindElement, WalkDict, ElementAddress;
  }

  lemma {:induction false} DroppedAlong(pass: Pass, schema: Schema, v: Value, address: Address, keys: seq<string>,
                                        node: Value, i: nat, key: string)
    requires pass.Encoding? && WalkMessage(pass, schema, v, address).Ok? && OneNameAlong(v, keys)
    requires ValueAt(v, keys) == Some(node) && SchemaAt(schema, keys).Some? && node.Dict? && i < |node.entries|
    requires IsDropped(pass.filter, SchemaAt(schema, keys).value, node.entries[i])
    requires Base(key) == Base(node.entries[i].key)
    ensures ValueAt(WalkMessage(pass, schema, v, address).value.value, Bases(keys) + [key]).None?
    decreases |keys|
  {
    hide WalkMessage, EditAt, Base, Get, IsDropped, OneNameEach, FindElement;
    var r := WalkMessage(pass, schema, v, address).value.value;
    if keys == [] {
      var edit := EncodedAt(pass, schema, v, address, i);
      EncodedEdit(pass, schema, v, i, address);
      assert ([key])[0] == key;
    } else {
      var j := GetPresent(v.entries, keys[0]);
      var edit := EncodedAt(pass, schema, v, address, j);
      BaseOfBase(keys[0]);
      var path := Bases(keys) + [key];
      assert path[0] == Base(keys[0]) && path[1..] == Bases(keys[1..]) + [key];
      if Get(r.entries, path[0]).Some? {
        var f := FindElement(schema, keys[0]).value.field;
        SubmessageEdit(pass, schema, v, j, address, f, edit);
        DroppedAlong(pass, f.kind.schema, v.entries[j].value, address + [Some(f.number)], keys[1..], node, i, key);
      }
    }
  }

  /**
   * Fields that are set to null are masked as leaves, but dropped from the content, like filtered fields: here and in
   * every submessage.
   */
  lemma DroppedIsGone(units: Units, filter: bool, maskMode: MaskMode, schema: Schema, content: seq<Entry>,
                      keys: seq<string>, node: Value, i: nat, key: string)
    requires Encoded(units, filter, maskMode, schema, content).Ok? && OneNameAlong(Dict(content), keys)
    requires ValueAt(Dict(content), keys) == Some(node) && SchemaAt(schema, keys).Some?
    requires node.Dict? && i < |node.entries| && IsDropped(filter, SchemaAt(schema, keys).value, node.entries[i])
    requires key == node.entries[i].key || key == Base(node.entries[i].key)
    ensures ValueAt(Dict(Encoded(units, filter, maskMode, schema, content).value.obj), Bases(keys) + [key]).None?
  {
    hide WalkDict, ValueAt, SchemaAt, OneNameAlong, Base, IsDropped, Bases;
    BaseOfBase(node.entries[i].key);
    DroppedAlong(Encoding(units, filter, maskMode), schema, Dict(content), [], keys, node, i, key);
  }

  // ---- Fields that stay in the content ------------------------------------------------------------------

  /** No submessage on the path is dropped. */
  ghost predicate StaysAlong(filter: bool, schema: Schema, v: Value, keys: seq<string>)
    decreases |keys|
  {
    keys == [] ||
    (v.Dict? && Get(v.entries, keys[0]).Some? && FindElement(schema, keys[0]).Ok? &&
     var f, x := FindElement(schema, keys[0]).value.field, Get(v.entries, keys[0]).value;
     && !x.Null? && !f.options.ignored && !(filter && f.options.readonly) && !f.kind.Scalar?
     && StaysAlong(filter, f.kind.schema, x, keys[1..]))
  }

  lemma {:induction false} MessagesKeepKind(pass: Pass, schema: Schema, v: Value, n: nat, address: Address)
    requires n <= ChildCount(v) && WalkMessages(pass, schema, v, n, address).Ok?
    ensures SameKeys(v, WalkMessages(pass, schema, v, n, address).value.value)
    decreases n
  {
    hide WalkMessage;
    if n > 0 {
      MessagesKeepKind(pass, schema, v, n - 1, address);
    }
  }

  lemma NestedIsNotNull(pass: Pass, f: Field, v: Value, address: Address)
    requires WalkField(pass, f, v, address).Ok? && !v.Null?
    ensures !WalkField(pass, f, v, address).value.value.Null?
  {
    hide WalkDict, WalkMessages;
    if !f.kind.Scalar? && f.repeated {
      MessagesKeepKind(pass, f.kind.schema, v, ChildCount(v), address + [None]);
    }
  }

  /** An entry is deleted exactly if it is dropped. */
  lemma EditedExactly(pass: Pass, schema: Schema, v: Value, i: nat, parent: Address)
    requires pass.Encoding? && v.Dict? && i < |v.entries| && EditAt(pass, schema, v, i, parent).Ok?
    ensures EditAt(pass, schema, v, i, parent).value == Delete <==> IsDropped(pass.filter, schema, v.entries[i])
  {
    hide EditOf, WalkField, ParseKey, FindElement;
    EncodedEdit(pass, schema, v, i, parent);
    var e := v.entries[i];
    var element := FindElement(schema, e.key).value;
    var address := ElementAddress(element.field, e.value, parent);
    var nested := WalkField(pass, element.field, e.value, parent + [Some(element.field.number)]).value.value;
    if !e.value.Null? {
      NestedIsNotNull(pass, element.field, e.value, parent + [Some(element.field.number)]);
      NotDropped(pass, schema, e, address, nested);
    }
  }

  lemma NotDropped(pass: Pass, schema: Schema, e: Entry, address: Address, v: Value)
    requires pass.Encoding? && FindElement(schema, e.key).Ok? && !e.value.Null? && !v.Null?
    requires var element := FindElement(schema, e.key).value;
             EditOf(pass, element.field, e.key, element.key, address, v).Ok?
    ensures var element := FindElement(schema, e.key).value;
            EditOf(pass, element.field, e.key, element.key, address, v).value == Delete ==>
              IsDropped(pass.filter, schema, e)
  {
    hide FindElement, EncodeValue, EncodeItems;
  }

  lemma {:induction false} StaysThrough(pass: Pass, schema: Schema, v: Value, address: Address, keys: seq<string>,
                                        node: Value, i: nat)
    requires pass.Encoding? && WalkMessage(pass, schema, v, address).Ok? && OneNameAlong(v, keys)
    requires ValueAt(v, keys) == Some(node) && SchemaAt(schema, keys).Some? && node.Dict? && i < |node.entries|
    requires OneNameEach(node)
    ensures var sent := WalkMessage(pass, schema, v, address).value.value;
            ValueAt(sent, Bases(keys) + [Base(node.entries[i].key)]).Some? <==>
            StaysAlong(pass.filter, schema, v, keys) &&
            !IsDropped(pass.filter, SchemaAt(schema, keys).value, node.entries[i])
    decreases |keys|
  {
    hide WalkMessage, EditAt, Base, Get, IsDropped, OneNameEach, FindElement;
    var r := WalkMessage(pass, schema, v, address).value.value;
    if keys == [] {
      var edit := EncodedAt(pass, schema, v, address, i);
      EncodedEdit(pass, schema, v, i, address);
      EditedExactly(pass, schema, v, i, address);
      BaseOfBase(node.entries[i].key);
      OneKey(r, Base(node.entries[i].key));
    } else {
      var j := GetPresent(v.entries, keys[0]);
      var edit := EncodedAt(pass, schema, v, address, j);
      EncodedEdit(pass, schema, v, j, address);
      EditedExactly(pass, schema, v, j, address);
      BaseOfBase(keys[0]);
      var f := FindElement(schema, keys[0]).value.field;
      DroppedField(pass.filter, schema, v.entries[j], f);
      SubmessageKindOf(f);
      var path := Bases(keys) + [Base(node.entries[i].key)];
      assert path[0] == Base(keys[0]) && path[1..] == Bases(keys[1..]) + [Base(node.entries[i].key)];
      if edit.Assign? {
        ContainerOnPath(v.entries[j].value, keys[1..], node);
        SubmessageEdit(pass, schema, v, j, address, f, edit);
        StaysThrough(pass, f.kind.schema, v.entries[j].value, address + [Some(f.number)], keys[1..], node, i);
      }
    }
  }

  lemma OneKey(v: Value, key: string)
    ensures ValueAt(v, [] + [key]).Some? <==> v.Dict? && Get(v.entries, key).Some?
  {
    hide Get;
    assert ([] + [key])[0] == key && ([] + [key])[1..] == [];
  }

  lemma ContainerOnPath(v: Value, keys: seq<string>, node: Value)
    requires ValueAt(v, keys) == Some(node) && node.Dict?
    ensures v.Dict?
  {
    hide Get;
  }

  lemma SubmessageKindOf(f: Field)
    requires IsSubmessage(f)
    ensures !f.kind.Scalar?
  {
  }

  lemma DroppedField(filter: bool, schema: Schema, e: Entry, f: Field)
    requires FindElement(schema, e.key).Ok? && FindElement(schema, e.key).value.field == f
    ensures IsDropped(filter, schema, e) <==> e.value.Null? || f.options.ignored || (filter && f.options.readonly)
  {
    hide FindElement;
  }

  /**
   * A field is in the encoded content exactly if neither it nor a submessage around it is set to null, ignored, or
   * readonly when values are filtered.
   */
  lemma StaysExactly(units: Units, filter: bool, maskMode: MaskMode, schema: Schema, content: seq<Entry>,
                     keys: seq<string>, node: Value, i: nat)
    requires Encoded(units, filter, maskMode, schema, content).Ok? && OneNameAlong(Dict(content), keys)
    requires ValueAt(Dict(content), keys) == Some(node) && SchemaAt(schema, keys).Some?
    requires node.Dict? && i < |node.entries| && OneNameEach(node)
    ensures var sent := Dict(Encoded(units, filter, maskMode, schema, content).value.obj);
            ValueAt(sent, Bases(keys) + [Base(node.entries[i].key)]).Some? <==>
            StaysAlong(filter, schema, Dict(content), keys) &&
            !IsDropped(filter, SchemaAt(schema, keys).value, node.entries[i])
  {
    hide WalkDict, ValueAt, SchemaAt, OneNameAlong, OneNameEach, Base, IsDropped, Bases, StaysAlong;
    StaysThrough(Encoding(units, filter, maskMode), schema, Dict(content), [], keys, node, i);
  }
}
