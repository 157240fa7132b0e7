/** Editing the elements of one object, when their names do not collide. */
module ProcessorDicts {
  import opened Data
  import opened Processor
  import opened ProcessorValues
  import opened Wrappers

  // ---- Keys -----------------------------------------------------------------------------

  predicate HasNoSymbol(s: string) {
    forall i :: 0 <= i < |s| ==> !IsSymbol(s[i])
  }

  predicate IsPlainName(s: string) {
    s != "" && HasNoSymbol(s)
  }

  /** Units and object types can be written behind a key. */
  predicate IsPostfix(s: string) {
    HasNoSymbol(s) && ',' !in s
  }

  lemma {:induction false} UntilSymbolOf(s: string, rest: string)
    requires HasNoSymbol(s) && (rest == "" || IsSymbol(rest[0]))
    ensures UntilSymbol(s + rest) == s
  {
    if s == "" {
      assert s + rest == rest;
    } else {
      assert (s + rest)[1..] == s[1..] + rest;
      UntilSymbolOf(s[1..], rest);
      assert s == [s[0]] + s[1..];
    }
  }

  lemma {:induction false} UntilCommaOf(s: string)
    requires ',' !in s
    ensures UntilComma(s) == s
  {
    if s != "" {
      UntilCommaOf(s[1..]);
      assert s == [s[0]] + s[1..];
    }
  }

  lemma PlainKey(key: string)
    requires IsPlainName(key)
    ensures ParseKey(key) == Some(Key(key, ""))
  {
    assert key + "" == key;
    UntilSymbolOf(key, "");
    assert BehindSymbols(key) == key;
  }

  /** A key with a postfix between two symbols. */
  lemma PostfixedKey(key: string, open: char, postfix: string, close: char)
    requires IsPlainName(key) && IsPostfix(postfix) && IsSymbol(open) && IsSymbol(close)
    ensures ParseKey(key + ([open] + (postfix + [close]))) == Some(Key(key, postfix))
  {
    var rest := [open] + (postfix + [close]);
    var s := key + rest;
    assert BehindSymbols(s) == s by { assert s[0] == key[0]; }
    UntilSymbolOf(key, rest);
    assert s[|key| + 1..] == postfix + [close];
    UntilSymbolOf(postfix, [close]);
    UntilCommaOf(postfix);
  }

  predicate AllSymbols(s: string) {
    forall i :: 0 <= i < |s| ==> IsSymbol(s[i])
  }

  /** `postfix` goes up to the next symbol or comma. */
  predicate IsPostfixIn(s: string, postfix: string) {
    IsPostfix(postfix) && postfix <= s && (|postfix| < |s| ==> IsSymbol(s[|postfix|]) || s[|postfix|] == ',')
  }

  predicate IsKeyText(key: string, before: string, behind: string, k: Key) {
    && AllSymbols(before) && IsPlainName(k.base) && key == before + (k.base + behind)
    && if behind == "" then k.postfix == "" else IsSymbol(behind[0]) && IsPostfixIn(behind[1..], k.postfix)
  }

  lemma {:induction false} BehindSymbolsIs(s: string) returns (n: nat)
    ensures n <= |s| && AllSymbols(s[..n]) && BehindSymbols(s) == s[n..] && (n < |s| ==> !IsSymbol(s[n]))
  {
    if s == "" || !IsSymbol(s[0]) {
      n := 0;
    } else {
      var m := BehindSymbolsIs(s[1..]);
      n := m + 1;
      assert s[..n] == [s[0]] + s[1..][..m];
    }
  }

  lemma {:induction false} BehindSymbolsOf(before: string, rest: string)
    requires AllSymbols(before) && rest != "" && !IsSymbol(rest[0])
    ensures BehindSymbols(before + rest) == rest
  {
    if before == "" {
      assert before + rest == rest;
    } else {
      assert (before + rest)[1..] == before[1..] + rest;
      BehindSymbolsOf(before[1..], rest);
    }
  }

  lemma {:induction false} UntilSymbolEnds(s: string)
    ensures |UntilSymbol(s)| < |s| ==> IsSymbol(s[|UntilSymbol(s)|])
  {
    if s != "" && !IsSymbol(s[0]) {
      UntilSymbolEnds(s[1..]);
    }
  }

  lemma {:induction false} UntilCommaEnds(s: string)
    ensures ',' !in UntilComma(s) && (|UntilComma(s)| < |s| ==> s[|UntilComma(s)|] == ',')
  {
    if s != "" && s[0] != ',' {
      UntilCommaEnds(s[1..]);
    }
  }

  lemma PostfixExactly(s: string, postfix: string)
    ensures UntilComma(UntilSymbol(s)) == postfix <==> IsPostfixIn(s, postfix)
  {
    hide UntilSymbol, UntilComma, IsSymbol;
    var found := UntilComma(UntilSymbol(s));
    UntilSymbolEnds(s);
    UntilCommaEnds(UntilSymbol(s));
    assert IsPostfixIn(s, found);
    if IsPostfixIn(s, postfix) {
      SamePostfix(s, postfix, found);
    }
  }

  lemma SamePostfix(s: string, a: string, b: string)
    requires IsPostfixIn(s, a) && IsPostfixIn(s, b)
    ensures a == b
  {
    hide IsSymbol;
  }

  lemma KeyParts(key: string)
    ensures var s := BehindSymbols(key);
            var base := UntilSymbol(s);
            ParseKey(key) ==
            if base == "" then None
            else Some(Key(base, if |base| < |s| then UntilComma(UntilSymbol(s[|base| + 1..])) else ""))
  {
    hide UntilSymbol, UntilComma, BehindSymbols;
    UntilNothing();
  }

  lemma ReadKeyIsText(key: string, k: Key) returns (before: string, behind: string)
    requires ParseKey(key) == Some(k)
    ensures IsKeyText(key, before, behind, k)
  {
    hide UntilSymbol, UntilComma, BehindSymbols, IsSymbol, IsPostfixIn, AllSymbols, ParseKey;
    var n := BehindSymbolsIs(key);
    var s := key[n..];
    KeyParts(key);
    UntilSymbolEnds(s);
    before, behind := key[..n], s[|k.base|..];
    assert key == before + s && s == k.base + behind;
    if |k.base| < |s| {
      PostfixExactly(s[|k.base| + 1..], k.postfix);
      assert behind[1..] == s[|k.base| + 1..];
    }
  }

  lemma TextIsReadKey(key: string, before: string, behind: string, k: Key)
    requires IsKeyText(key, before, behind, k)
    ensures ParseKey(key) == Some(k)
  {
    hide UntilSymbol, UntilComma, BehindSymbols, IsSymbol, IsPostfixIn, AllSymbols, ParseKey;
    KeyParts(key);
    BehindSymbolsOf(before, k.base + behind);
    UntilSymbolOf(k.base, behind);
    if behind != "" {
      PostfixExactly(behind[1..], k.postfix);
      assert (k.base + behind)[|k.base| + 1..] == behind[1..];
    }
  }

  /** A key is read exactly as its name, behind any symbols, and the postfix behind the next symbol. */
  lemma KeyExactly(key: string, k: Key)
    ensures ParseKey(key) == Some(k) <==> exists before, behind :: IsKeyText(key, before, behind, k)
  {
    hide ParseKey, IsKeyText;
    if ParseKey(key) == Some(k) {
      var before, behind := ReadKeyIsText(key, k);
    }
    if before, behind :| IsKeyText(key, before, behind, k) {
      TextIsReadKey(key, before, behind, k);
    }
  }

  lemma UntilNothing()
    ensures UntilComma("") == "" && UntilSymbol("") == ""
  {
  }

  function Base(key: string): string {
    if ParseKey(key).Some? then ParseKey(key).value.base else ""
  }

  /** The key of a decoded element. */
  function NewKey(dec: Pass, f: Field, key: string): string
    requires dec.Decoding?
  {
    DecodedKey(dec.units, f.options, MetadataOf(dec.mode), key)
  }

  // ---- Editing without collisions -----------------------------------------------------------

  /** The edit of element `i`, if no other element has touched its key. */
  function EditAt(pass: Pass, schema: Schema, v: Value, i: nat, parent: Address): Result<Edit, Error>
    requires v.Dict? && i < |v.entries|
  {
    var e := v.entries[i];
    var element :- FindElement(schema, e.key);
    var nested :- WalkField(pass, element.field, e.value, parent + [Some(element.field.number)]);
    EditOf(pass, element.field, e.key, element.key, ElementAddress(element.field, e.value, parent), nested.value)
  }

  /** What the first elements are edited to. */
  ghost predicate AreEdits(pass: Pass, schema: Schema, v: Value, parent: Address, edits: seq<Edit>) {
    && v.Dict? && |edits| <= |v.entries|
    && forall i :: 0 <= i < |edits| ==> EditAt(pass, schema, v, i, parent) == Ok(edits[i])
  }

  ghost predicate HasOwnNames(entries: seq<Entry>) {
    forall i, j :: 0 <= i < j < |entries| ==> Base(entries[i].key) != Base(entries[j].key)
  }

  /** Every element has its own name, and its new key has the same name. */
  ghost predicate OwnNames(entries: seq<Entry>, edits: seq<Edit>) {
    && |edits| <= |entries| && HasOwnNames(entries)
    && forall i :: 0 <= i < |edits| ==> edits[i].Assign? ==> Base(edits[i].key) == Base(entries[i].key)
  }

  /** The keys after `n` edits. */
  ghost predicate IsKeyAfter(entries: seq<Entry>, edits: seq<Edit>, n: nat, key: string)
    requires n <= |edits| <= |entries|
  {
    || (exists i :: 0 <= i < n && edits[i].Assign? && edits[i].key == key)
    || (exists i :: n <= i < |entries| && entries[i].key == key)
  }

  ghost predicate Settled(entries: seq<Entry>, edits: seq<Edit>, n: nat, s: State)
    requires n <= |edits| <= |entries|
  {
    && UniqueKeys(s.obj)
    && (forall i :: 0 <= i < n ==> edits[i].Assign? ==> Get(s.obj, edits[i].key) == Some(edits[i].value))
    && (forall i :: n <= i < |entries| ==>
                      Get(s.obj, entries[i].key) == Some(entries[i].value) && entries[i].key !in s.written)
    && (forall key :: Get(s.obj, key).Some? ==> IsKeyAfter(entries, edits, n, key))
  }

  lemma AppliedGet(obj: seq<Entry>, key: string, nested: Value, edit: Edit, other: string)
    requires UniqueKeys(obj)
    ensures var r := Applied(Assigned(obj, key, nested), key, edit);
            Get(r, other) == if edit.Assign? && other == edit.key then Some(edit.value)
                             else if other == key then None else Get(obj, other)
  {
    hide Get, Assigned, Removed;
    var o := Assigned(obj, key, nested);
    AssignedUnique(obj, key, nested);
    GetAssigned(obj, key, nested, other);
    GetRemoved(o, key, other);
    if edit.Assign? {
      GetAssigned(if edit.key == key then o else Removed(o, key), edit.key, edit.value, other);
    }
  }

  lemma AppliedUnique(obj: seq<Entry>, key: string, nested: Value, edit: Edit)
    requires UniqueKeys(obj)
    ensures UniqueKeys(Applied(Assigned(obj, key, nested), key, edit))
  {
    hide Assigned, Removed;
    var o := Assigned(obj, key, nested);
    AssignedUnique(obj, key, nested);
    RemovedUnique(o, key);
    if edit.Assign? {
      AssignedUnique(if edit.key == key then o else Removed(o, key), edit.key, edit.value);
    }
  }

  lemma StepEdits(pass: Pass, schema: Schema, v: Value, n: nat, parent: Address, s: State, edit: Edit)
    returns (r: State, nested: Value)
    requires v.Dict? && n < |v.entries| && WalkDict(pass, schema, v, n, parent) == Ok(s)
    requires EditAt(pass, schema, v, n, parent) == Ok(edit)
    requires v.entries[n].key !in s.written
    ensures WalkDict(pass, schema, v, n + 1, parent) == Ok(r)
    ensures r.obj == Applied(Assigned(s.obj, v.entries[n].key, nested), v.entries[n].key, edit)
    ensures forall key :: key in r.written ==>
                            key in s.written || (edit.Assign? && key == edit.key && key != v.entries[n].key)
  {
    hide EditOf, WalkField, FindElement;
    var e := v.entries[n];
    assert ChildAt(v, n) == e.value;
    var element := FindElement(schema, e.key).value;
    nested := WalkField(pass, element.field, e.value, parent + [Some(element.field.number)]).value.value;
    GetAssigned(s.obj, e.key, nested, e.key);
    r := WalkDict(pass, schema, v, n + 1, parent).value;
  }

  lemma SettledNext(entries: seq<Entry>, edits: seq<Edit>, n: nat, s: State, r: State, nested: Value)
    requires n < |edits| && OwnNames(entries, edits) && UniqueKeys(entries) && Settled(entries, edits, n, s)
    requires r.obj == Applied(Assigned(s.obj, entries[n].key, nested), entries[n].key, edits[n])
    requires forall key :: key in r.written ==>
                             key in s.written || (edits[n].Assign? && key == edits[n].key && key != entries[n].key)
    ensures Settled(entries, edits, n + 1, r)
  {
    hide Base, Applied, Get, Assigned;
    AppliedUnique(s.obj, entries[n].key, nested, edits[n]);
    forall i | 0 <= i < n + 1 && edits[i].Assign? ensures Get(r.obj, edits[i].key) == Some(edits[i].value) {
      AppliedGet(s.obj, entries[n].key, nested, edits[n], edits[i].key);
    }
    forall i | n + 1 <= i < |entries|
      ensures Get(r.obj, entries[i].key) == Some(entries[i].value) && entries[i].key !in r.written
    {
      AppliedGet(s.obj, entries[n].key, nested, edits[n], entries[i].key);
    }
    forall key | Get(r.obj, key).Some? ensures IsKeyAfter(entries, edits, n + 1, key) {
      AppliedGet(s.obj, entries[n].key, nested, edits[n], key);
      if !(edits[n].Assign? && key == edits[n].key) {
        assert IsKeyAfter(entries, edits, n, key);
      }
    }
  }

  lemma NothingSettled(entries: seq<Entry>, edits: seq<Edit>)
    requires |edits| <= |entries| && UniqueKeys(entries)
    ensures Settled(entries, edits, 0, State(entries, {}, []))
  {
    hide Get;
    forall i | 0 <= i < |entries| ensures Get(entries, entries[i].key) == Some(entries[i].value) {
      GetAt(entries, i);
    }
    forall key | Get(entries, key).Some? ensures IsKeyAfter(entries, edits, 0, key) {
      var i := GetPresent(entries, key);
    }
  }

  lemma UntouchedKey(entries: seq<Entry>, edits: seq<Edit>, n: nat, s: State)
    requires n <= |edits| <= |entries| && n < |entries| && Settled(entries, edits, n, s)
    ensures entries[n].key !in s.written
  {
  }

  lemma EditsAt(pass: Pass, schema: Schema, v: Value, n: nat, parent: Address, edits: seq<Edit>)
    requires AreEdits(pass, schema, v, parent, edits) && n < |edits|
    ensures v.Dict? && |edits| <= |v.entries|
    ensures EditAt(pass, schema, v, n, parent) == Ok(edits[n])
  {
    hide EditAt;
  }

  lemma EditsSize(pass: Pass, schema: Schema, v: Value, parent: Address, edits: seq<Edit>)
    requires AreEdits(pass, schema, v, parent, edits)
    ensures v.Dict? && |edits| <= |v.entries|
  {
    hide EditAt;
  }

  lemma NothingWalked(pass: Pass, schema: Schema, v: Value, parent: Address)
    requires v.Dict?
    ensures WalkDict(pass, schema, v, 0, parent) == Ok(State(v.entries, {}, []))
  {
  }

  /** The elements are edited independently of each other. */
  lemma {:induction false} EditsSettle(pass: Pass, schema: Schema, v: Value, n: nat, parent: Address, edits: seq<Edit>)
    requires AreEdits(pass, schema, v, parent, edits) && n <= |edits|
    requires UniqueKeys(v.entries) && OwnNames(v.entries, edits)
    ensures |edits| <= |v.entries| && WalkDict(pass, schema, v, n, parent).Ok?
    ensures Settled(v.entries, edits, n, WalkDict(pass, schema, v, n, parent).value)
    decreases n
  {
    hide *;
    EditsSize(pass, schema, v, parent, edits);
    if n == 0 {
      NothingWalked(pass, schema, v, parent);
      NothingSettled(v.entries, edits);
    } else {
      EditsAt(pass, schema, v, n - 1, parent, edits);
      EditsSettle(pass, schema, v, n - 1, parent, edits);
      var s := WalkDict(pass, schema, v, n - 1, parent).value;
      UntouchedKey(v.entries, edits, n - 1, s);
      var r, nested := StepEdits(pass, schema, v, n - 1, parent, s, edits[n - 1]);
      SettledNext(v.entries, edits, n - 1, s, r, nested);
    }
  }

  // ---- What a successful walk has done -------------------------------------------------------

  /** New keys have the names of the old ones. */
  ghost predicate KeepsNames(pass: Pass, schema: Schema, v: Value, parent: Address) {
    v.Dict? &&
    forall i :: 0 <= i < |v.entries| ==>
                  var edit := EditAt(pass, schema, v, i, parent);
                  edit.Ok? && edit.value.Assign? ==> Base(edit.value.key) == Base(v.entries[i].key)
  }

  lemma EarlierOk(pass: Pass, schema: Schema, v: Value, n: nat, parent: Address)
    requires v.Dict? && n < |v.entries| && WalkDict(pass, schema, v, n + 1, parent).Ok?
    ensures WalkDict(pass, schema, v, n, parent).Ok?
  {
    hide Step, FindElement, WalkField;
  }

  lemma StepOk(pass: Pass, schema: Schema, v: Value, n: nat, parent: Address, s: State)
    requires v.Dict? && n < |v.entries| && WalkDict(pass, schema, v, n, parent) == Ok(s)
    requires WalkDict(pass, schema, v, n + 1, parent).Ok? && v.entries[n].key !in s.written
    ensures EditAt(pass, schema, v, n, parent).Ok?
  {
    hide EditOf, WalkField, FindElement;
    var e := v.entries[n];
    assert ChildAt(v, n) == e.value;
    var element := FindElement(schema, e.key).value;
    var nested := WalkField(pass, element.field, e.value, parent + [Some(element.field.number)]).value.value;
    GetAssigned(s.obj, e.key, nested, e.key);
  }

  lemma MoreEdits(pass: Pass, schema: Schema, v: Value, parent: Address, edits: seq<Edit>, edit: Edit)
    requires AreEdits(pass, schema, v, parent, edits) && |edits| < |v.entries|
    requires EditAt(pass, schema, v, |edits|, parent) == Ok(edit)
    ensures AreEdits(pass, schema, v, parent, edits + [edit])
  {
    hide EditAt;
  }

  lemma EditsKeepNames(pass: Pass, schema: Schema, v: Value, parent: Address, edits: seq<Edit>)
    requires AreEdits(pass, schema, v, parent, edits)
    requires KeepsNames(pass, schema, v, parent) && HasOwnNames(v.entries)
    ensures OwnNames(v.entries, edits)
  {
    hide EditAt, Base;
  }

  lemma NoEdits(pass: Pass, schema: Schema, v: Value, parent: Address)
    requires v.Dict?
    ensures AreEdits(pass, schema, v, parent, [])
  {
  }

  /** If the walk succeeds, then so did the edits of all elements. */
  lemma {:induction false} WalkEdits(pass: Pass, schema: Schema, v: Value, n: nat, parent: Address)
    returns (edits: seq<Edit>)
    requires v.Dict? && UniqueKeys(v.entries) && HasOwnNames(v.entries) && KeepsNames(pass, schema, v, parent)
    requires n <= |v.entries| && WalkDict(pass, schema, v, n, parent).Ok?
    ensures |edits| == n && AreEdits(pass, schema, v, parent, edits) && OwnNames(v.entries, edits)
    ensures Settled(v.entries, edits, n, WalkDict(pass, schema, v, n, parent).value)
    decreases n
  {
    hide *;
    edits := [];
    NoEdits(pass, schema, v, parent);
    if n > 0 {
      EarlierOk(pass, schema, v, n - 1, parent);
      var earlier := WalkEdits(pass, schema, v, n - 1, parent);
      var s := WalkDict(pass, schema, v, n - 1, parent).value;
      UntouchedKey(v.entries, earlier, n - 1, s);
      StepOk(pass, schema, v, n - 1, parent, s);
      var edit := EditAt(pass, schema, v, n - 1, parent).value;
      MoreEdits(pass, schema, v, parent, earlier, edit);
      edits := earlier + [edit];
    }
    EditsKeepNames(pass, schema, v, parent, edits);
    EditsSettle(pass, schema, v, n, parent, edits);
  }

  /** What is found under the names of edited elements. */
  lemma SettledAt(entries: seq<Entry>, edits: seq<Edit>, s: State, i: nat)
    requires i < |edits| == |entries| && OwnNames(entries, edits) && Settled(entries, edits, |edits|, s)
    ensures UniqueKeys(s.obj)
    ensures edits[i].Assign? ==> Get(s.obj, edits[i].key) == Some(edits[i].value)
    ensures forall key :: Base(key) == Base(entries[i].key) && Get(s.obj, key).Some? ==>
                            edits[i].Assign? && key == edits[i].key
  {
    hide Base, Get;
    forall key | Base(key) == Base(entries[i].key) && Get(s.obj, key).Some?
      ensures edits[i].Assign? && key == edits[i].key
    {
      assert IsKeyAfter(entries, edits, |edits|, key);
      var j :| 0 <= j < |edits| && edits[j].Assign? && edits[j].key == key;
      assert Base(edits[j].key) == Base(entries[j].key);
    }
  }

  /** Edited objects have one key for each name, too. */
  lemma SettledNames(entries: seq<Entry>, edits: seq<Edit>, s: State)
    requires |edits| == |entries| && OwnNames(entries, edits) && Settled(entries, edits, |edits|, s)
    ensures HasOwnNames(s.obj)
  {
    hide Base, Get;
    forall j, k | 0 <= j < k < |s.obj| ensures Base(s.obj[j].key) != Base(s.obj[k].key) {
      var i := SettledFrom(entries, edits, s, j);
      var l := SettledFrom(entries, edits, s, k);
    }
  }

  lemma SettledFrom(entries: seq<Entry>, edits: seq<Edit>, s: State, j: nat) returns (i: nat)
    requires |edits| == |entries| && OwnNames(entries, edits) && Settled(entries, edits, |edits|, s) && j < |s.obj|
    ensures i < |edits| && edits[i] == Assign(s.obj[j].key, s.obj[j].value)
    ensures Base(s.obj[j].key) == Base(entries[i].key)
  {
    hide Base, Get;
    GetAt(s.obj, j);
    assert IsKeyAfter(entries, edits, |edits|, s.obj[j].key);
    var k :| 0 <= k < |edits| && edits[k].Assign? && edits[k].key == s.obj[j].key;
    i := k;
  }

  // ---- Colliding names --------------------------------------------------------------------------

  /** Which element a key names, and why it names none. */
  lemma ElementExactly(schema: Schema, key: string, r: Result<Element, Error>)
    ensures FindElement(schema, key) == r <==>
            match r
            case Ok(element) =>
              ParseKey(key) == Some(element.key) && element.key.base in schema.fields
              && schema.fields[element.key.base] == element.field
            case Err(UnknownField(name)) =>
              name !in schema.fields && ParseKey(key).Some? && ParseKey(key).value.base == name
            case Err(BadKey(bad)) => bad == key && ParseKey(key) == None
            case Err(_) => false
  {
    hide ParseKey;
  }

  /** An element that was deleted under another notation of its name is missing. */
  lemma DeletedIsMissing(pass: Pass, e: Entry, element: Element, parent: Address, s: State, nested: Walked)
    requires e.key in s.written && Get(s.obj, e.key) == None
    ensures Step(pass, e, element, parent, s, nested) == Err(MissingEntry(e.key))
  {
    hide EditOf, ElementAddress, MaskOf;
  }

  lemma FirstOfTwo(pass: Pass, schema: Schema, a: Entry, b: Entry, parent: Address, z: Value)
    requires a.key != b.key && EditAt(pass, schema, Dict([a, b]), 0, parent) == Ok(Assign(b.key, z))
    ensures WalkDict(pass, schema, Dict([a, b]), 1, parent).Ok?
    ensures var s := WalkDict(pass, schema, Dict([a, b]), 1, parent).value;
            s.obj == [Entry(b.key, z)] && s.written == {b.key}
  {
    hide WalkField, EditOf, FindElement, MaskOf;
    var v := Dict([a, b]);
    assert v.entries[0] == a;
    assert WalkDict(pass, schema, v, 0, parent) == Ok(State(v.entries, {}, []));
    var nested := WalkField(pass, FindElement(schema, a.key).value.field, a.value,
                            parent + [Some(FindElement(schema, a.key).value.field.number)]).value;
    assert Assigned([a, b], a.key, nested.value) == [Entry(a.key, nested.value), b];
    assert Get([Entry(a.key, nested.value), b], a.key) == Some(nested.value);
    assert [Entry(a.key, nested.value), b][1..] == [b];
    assert Removed([Entry(a.key, nested.value), b], a.key) == [b];
    assert Assigned([b], b.key, z) == [Entry(b.key, z)];
  }

  /**
   * If the first of two notations of a field is written to the key of the second, the value of the second is lost,
   * and the value of the first is converted once more.
   */
  lemma SecondNotationIsLost(pass: Pass, schema: Schema, a: Entry, b: Entry, parent: Address, z: Value)
    requires a.key != b.key && EditAt(pass, schema, Dict([a, b]), 0, parent) == Ok(Assign(b.key, z))
    requires FindElement(schema, b.key).Ok? && FindElement(schema, b.key).value.field.kind.Scalar?
    ensures var element := FindElement(schema, b.key).value;
            var again := EditOf(pass, element.field, b.key, element.key, parent + [Some(element.field.number)], z);
            match WalkDict(pass, schema, Dict([a, b]), 2, parent)
            case Ok(s) => again.Ok? && s.obj == Applied([Entry(b.key, z)], b.key, again.value)
            case Err(e) => again == Err(e)
  {
    hide EditOf, FindElement, MaskOf, Applied;
    FirstOfTwo(pass, schema, a, b, parent, z);
    assert Dict([a, b]).entries[1] == b;
    assert Get([Entry(b.key, z)], b.key) == Some(z);
  }
}
