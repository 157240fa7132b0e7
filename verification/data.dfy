/** Block data: what JSON can hold, with dict entries in insertion order. */
module Data {
  import opened Wrappers

  datatype Value =
    | Null
    | Bool(b: bool)
    | Int(i: int)
    | Real(r: real)
    | Str(s: string)
    | List(items: seq<Value>)
    | Dict(entries: seq<Entry>)

  datatype Entry = Entry(key: string, value: Value)

  /** `dict.get(key)` */
  function Get(entries: seq<Entry>, key: string): Option<Value> {
    if entries == [] then None
    else if entries[0].key == key then Some(entries[0].value)
    else Get(entries[1..], key)
  }

  /** `dict[key] = value` */
  function Assigned(entries: seq<Entry>, key: string, value: Value): seq<Entry> {
    if entries == [] then [Entry(key, value)]
    else if entries[0].key == key then [Entry(key, value)] + entries[1..]
    else [entries[0]] + Assigned(entries[1..], key, value)
  }

  /** `del dict[key]` */
  function Removed(entries: seq<Entry>, key: string): seq<Entry> {
    if entries == [] then []
    else if entries[0].key == key then entries[1..]
    else [entries[0]] + Removed(entries[1..], key)
  }

  ghost predicate UniqueKeys(entries: seq<Entry>) {
    forall i, j :: 0 <= i < j < |entries| ==> entries[i].key != entries[j].key
  }

  lemma {:induction false} GetAssigned(entries: seq<Entry>, key: string, value: Value, other: string)
    ensures Get(Assigned(entries, key, value), other) == if other == key then Some(value) else Get(entries, other)
  {
    if entries != [] {
      GetAssigned(entries[1..], key, value, other);
    }
  }

  lemma {:induction false} AssignedTwice(entries: seq<Entry>, key: string, a: Value, b: Value)
    ensures Assigned(Assigned(entries, key, a), key, b) == Assigned(entries, key, b)
  {
    if entries != [] {
      AssignedTwice(entries[1..], key, a, b);
    }
  }

  lemma {:induction false} AssignedSame(entries: seq<Entry>, key: string, value: Value)
    requires Get(entries, key).Some?
    ensures Assigned(entries, key, value) == entries <==> Get(entries, key) == Some(value)
  {
    assert entries == [entries[0]] + entries[1..];
    if entries[0].key != key {
      AssignedSame(entries[1..], key, value);
    }
  }

  lemma {:induction false} GetPresent(entries: seq<Entry>, key: string) returns (i: nat)
    requires Get(entries, key).Some?
    ensures i < |entries| && entries[i].key == key && Get(entries, key) == Some(entries[i].value)
  {
    if entries[0].key == key {
      i := 0;
    } else {
      var j := GetPresent(entries[1..], key);
      i := j + 1;
    }
  }

  function IndexOf(entries: seq<Entry>, key: string): (i: nat)
    ensures i <= |entries|
    ensures i < |entries| ==> entries[i].key == key
  {
    if entries == [] || entries[0].key == key then 0 else 1 + IndexOf(entries[1..], key)
  }

  lemma {:induction false} GetByIndex(entries: seq<Entry>, key: string)
    ensures Get(entries, key) ==
            if IndexOf(entries, key) < |entries| then Some(entries[IndexOf(entries, key)].value) else None
  {
    if entries != [] && entries[0].key != key {
      GetByIndex(entries[1..], key);
    }
  }

  lemma {:induction false} SameIndex(a: seq<Entry>, b: seq<Entry>, key: string)
    requires |a| == |b| && forall k :: 0 <= k < |a| ==> a[k].key == b[k].key
    ensures IndexOf(a, key) == IndexOf(b, key)
  {
    if a != [] {
      SameIndex(a[1..], b[1..], key);
    }
  }

  lemma {:induction false} GetAt(entries: seq<Entry>, i: nat)
    requires i < |entries| && UniqueKeys(entries)
    ensures Get(entries, entries[i].key) == Some(entries[i].value)
  {
    if i > 0 {
      GetAt(entries[1..], i - 1);
    }
  }

  lemma {:induction false} AbsentKey(entries: seq<Entry>, key: string)
    ensures Get(entries, key).None? <==> forall i :: 0 <= i < |entries| ==> entries[i].key != key
  {
    if entries != [] {
      AbsentKey(entries[1..], key);
    }
  }

  lemma {:induction false} GetRemoved(entries: seq<Entry>, key: string, other: string)
    requires UniqueKeys(entries)
    ensures Get(Removed(entries, key), other) == if other == key then None else Get(entries, other)
  {
    if entries != [] {
      GetRemoved(entries[1..], key, other);
      AbsentKey(entries[1..], key);
    }
  }

  lemma {:induction false} AssignedUnique(entries: seq<Entry>, key: string, value: Value)
    requires UniqueKeys(entries)
    ensures UniqueKeys(Assigned(entries, key, value))
  {
    if entries != [] && entries[0].key != key {
      var first, later := entries[0], Assigned(entries[1..], key, value);
      AssignedUnique(entries[1..], key, value);
      GetAssigned(entries[1..], key, value, first.key);
      AbsentKey(entries[1..], first.key);
      AbsentKey(later, first.key);
    }
  }

  lemma {:induction false} RemovedUnique(entries: seq<Entry>, key: string)
    requires UniqueKeys(entries)
    ensures UniqueKeys(Removed(entries, key))
  {
    if entries != [] && entries[0].key != key {
      var first, later := entries[0], Removed(entries[1..], key);
      RemovedUnique(entries[1..], key);
      GetRemoved(entries[1..], key, first.key);
      AbsentKey(entries[1..], first.key);
      AbsentKey(later, first.key);
    }
  }

  /** Python's truth value. */
  predicate Truthy(v: Value) {
    match v
    case Null => false
    case Bool(b) => b
    case Int(i) => i != 0
    case Real(r) => r != 0.0
    case Str(s) => s != ""
    case List(items) => items != []
    case Dict(entries) => entries != []
  }

  /** Everything is true but null, false, zero, and what is empty. */
  lemma TruthyExactly(v: Value)
    ensures Truthy(v) <==>
            v != Null && v != Bool(false) && v != Int(0) && v != Real(0.0) && v != Str("") && v != List([])
            && v != Dict([])
  {
  }

  // ---- Objects with a `__bloxtype` -----------------------------------------------

  const BLOXTYPE := "__bloxtype"

  predicate IsBloxfield(v: Value) {
    v.Dict? && Get(v.entries, BLOXTYPE).Some?
  }

  predicate IsLink(v: Value) {
    v.Dict? && Get(v.entries, BLOXTYPE) == Some(Str("Link"))
  }

  predicate HasTruthy(entries: seq<Entry>, key: string) {
    Get(entries, key).Some? && Truthy(Get(entries, key).value)
  }

  predicate IsDefinedLink(v: Value) {
    IsLink(v) && HasTruthy(v.entries, "id") && HasTruthy(v.entries, "type")
  }

  predicate HasEntry(entries: seq<Entry>, key: string, value: Value) {
    exists i :: 0 <= i < |entries| && entries[i] == Entry(key, value)
  }

  lemma GetExactly(entries: seq<Entry>, key: string, value: Value)
    requires UniqueKeys(entries)
    ensures Get(entries, key) == Some(value) <==> HasEntry(entries, key, value)
  {
    hide Get;
    if Get(entries, key) == Some(value) {
      var i := GetPresent(entries, key);
      assert entries[i] == Entry(key, value);
    }
    if i :| 0 <= i < |entries| && entries[i] == Entry(key, value) {
      GetAt(entries, i);
    }
  }

  /** A link that has an ID and a type. */
  ghost predicate HasIdAndType(entries: seq<Entry>) {
    && HasEntry(entries, "__bloxtype", Str("Link"))
    && (exists id :: HasEntry(entries, "id", id) && Truthy(id))
    && (exists linkType :: HasEntry(entries, "type", linkType) && Truthy(linkType))
  }

  /** A bloxfield is a dict that has a type. */
  lemma BloxfieldExactly(v: Value)
    ensures IsBloxfield(v) <==> v.Dict? && exists i :: 0 <= i < |v.entries| && v.entries[i].key == "__bloxtype"
  {
    hide Get;
    if v.Dict? {
      AbsentKey(v.entries, "__bloxtype");
    }
  }

  /** A link is defined exactly if it has an ID and a type. */
  lemma DefinedLinkExactly(entries: seq<Entry>)
    requires UniqueKeys(entries)
    ensures IsDefinedLink(Dict(entries)) <==> HasIdAndType(entries)
  {
    hide Get, HasEntry, UniqueKeys;
    GetExactly(entries, "__bloxtype", Str("Link"));
    forall value ensures Get(entries, "id") == Some(value) <==> HasEntry(entries, "id", value) {
      GetExactly(entries, "id", value);
    }
    forall value ensures Get(entries, "type") == Some(value) <==> HasEntry(entries, "type", value) {
      GetExactly(entries, "type", value);
    }
  }

  // ---- Children of dicts and lists ------------------------------------------------

  predicate IsContainer(v: Value) {
    v.Dict? || v.List?
  }

  function ChildCount(v: Value): nat {
    match v
    case Dict(entries) => |entries|
    case List(items) => |items|
    case _ => 0
  }

  function ChildAt(v: Value, i: nat): (child: Value)
    requires i < ChildCount(v)
    ensures child < v
  {
    if v.Dict? then v.entries[i].value else v.items[i]
  }

  /** `v[i] = child`, by the position of the key in a dict. */
  function SetChild(v: Value, i: nat, child: Value): (r: Value)
    requires i < ChildCount(v)
    ensures ChildCount(r) == ChildCount(v) && ChildAt(r, i) == child && SameKeys(v, r)
    ensures forall k :: 0 <= k < ChildCount(v) && k != i ==> ChildAt(r, k) == ChildAt(v, k)
  {
    if v.Dict? then Dict(v.entries[i := Entry(v.entries[i].key, child)]) else List(v.items[i := child])
  }

  /** The same kind of container with the same keys. */
  predicate SameKeys(v: Value, w: Value) {
    match v
    case Dict(entries) => w.Dict? && |w.entries| == |entries| &&
                          forall k :: 0 <= k < |entries| ==> w.entries[k].key == entries[k].key
    case List(items) => w.List? && |w.items| == |items|
    case _ => v == w
  }

  /** Containers with the same keys and children are equal. */
  lemma SameChildren(v: Value, w: Value)
    requires SameKeys(v, w) && forall i :: 0 <= i < ChildCount(v) ==> ChildAt(v, i) == ChildAt(w, i)
    ensures v == w
  {
    if v.Dict? {
      forall i | 0 <= i < |v.entries| ensures v.entries[i] == w.entries[i] {
        assert ChildAt(v, i) == ChildAt(w, i);
      }
      assert v.entries == w.entries;
    } else if v.List? {
      forall i | 0 <= i < |v.items| ensures v.items[i] == w.items[i] {
        assert ChildAt(v, i) == ChildAt(w, i);
      }
      assert v.items == w.items;
    }
  }
}
