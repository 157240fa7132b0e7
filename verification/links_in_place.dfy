/** Rewriting link IDs in place, in dicts and lists that hold each other. */
module LinksInPlace {
  import opened BlockStore
  import opened Data
  import opened Links
  import opened Wrappers

  /** What a dict or list holds at one place: a plain value, or another dict or list. */
  datatype Slot = Plain(value: Value) | Nested(node: Node)

  class Node {
    const isDict: bool
    const keys: seq<string>
    var slots: seq<Slot>
    ghost var contents: Value
    ghost var Repr: set<object>

    /** The nodes below form a tree, and `contents` is the data they hold. */
    ghost predicate Valid()
      reads this, Repr
      decreases Repr, 1
    {
      && this in Repr
      && IsContainer(contents) && contents.Dict? == isDict && ChildCount(contents) == |slots|
      && (isDict ==> |keys| == |slots| && forall i :: 0 <= i < |slots| ==> contents.entries[i].key == keys[i])
      && (forall i :: 0 <= i < |slots| ==> ValidSlot(slots[i], ChildAt(contents, i)))
      && AllApart(slots)
    }

    ghost predicate ValidSlot(slot: Slot, v: Value)
      requires this in Repr
      reads this, Repr
      decreases Repr, 0
    {
      match slot
      case Plain(x) => x == v && !IsContainer(v)
      case Nested(n) => n in Repr && this !in n.Repr && n.Repr <= Repr && n.Valid() && n.contents == v
    }

    constructor (isDict: bool, keys: seq<string>, slots: seq<Slot>, ghost contents: Value, ghost below: set<object>)
      requires IsContainer(contents) && contents.Dict? == isDict && ChildCount(contents) == |slots|
      requires isDict ==>
                 |keys| == |slots| && forall i :: 0 <= i < |slots| ==> contents.entries[i].key == keys[i]
      requires forall i :: 0 <= i < |slots| ==> Holds(slots[i], ChildAt(contents, i), below)
      requires AllApart(slots)
      ensures Valid() && this.contents == contents && Repr == {this} + below
    {
      this.isDict, this.keys, this.slots := isDict, keys, slots;
      this.contents, this.Repr := contents, {this} + below;
    }

    /** `d[key]` for a key that is present. */
    method Find(key: string) returns (i: nat)
      requires Valid() && isDict
      ensures i == IndexOf(contents.entries, key)
    {
      i := 0;
      while i < |slots| && keys[i] != key
        invariant i <= |slots| && IndexOf(contents.entries, key) == i + IndexOf(contents.entries[i..], key)
      {
        assert contents.entries[i..][1..] == contents.entries[i + 1..];
        i := i + 1;
      }
    }

    /** `bloxfield.is_link` */
    method IsLinkNode() returns (b: bool)
      requires Valid()
      ensures b == IsLink(contents)
    {
      if !isDict {
        return false;
      }
      var i := Find(BLOXTYPE);
      GetByIndex(contents.entries, BLOXTYPE);
      if i == |slots| {
        return false;
      }
      assert ValidSlot(slots[i], ChildAt(contents, i));
      assert slots[i].Nested? ==> slots[i].node.Valid();
      b := slots[i].Plain? && slots[i].value == Str("Link");
    }

    method SetPlain(i: nat, v: Value)
      requires Valid() && i < |slots| && !IsContainer(v)
      modifies this
      ensures Valid() && Repr == old(Repr) && contents == SetChild(old(contents), i, v)
      ensures slots == old(slots)[i := Plain(v)]
    {
      slots := slots[i := Plain(v)];
      contents := SetChild(contents, i, v);
    }

    predicate HasPostfix(i: nat)
    {
      isDict && i < |keys| && keys[i] != "" && keys[i][|keys[i]| - 1] == LINK_POSTFIX
    }

    /** Replaces the ID of a link; it fails before anything is changed. */
    method ResolveId(store: Store, to: Direction) returns (error: Option<Error>)
      requires Valid() && IsLink(contents) && store.Valid() && store !in Repr
      modifies this
      ensures Valid() && Repr == old(Repr)
      ensures match ResolveLink(store.forward, to, old(contents))
              case Ok(v) => error.None? && contents == v
              case Err(e) => error == Some(e) && contents == old(contents)
    {
      var i := Find("id");
      GetByIndex(contents.entries, "id");
      if i == |slots| {
        return Some(MissingId);
      }
      assert ValidSlot(slots[i], ChildAt(contents, i));
      if slots[i].Nested? {
        assert slots[i].node.Valid();
        return Some(UnsupportedId);
      }
      var r := Replace(store, to, slots[i].value);
      if r.Err? {
        return Some(r.error);
      }
      ReplacedIsPlain(store.forward, to, slots[i].value);
      AssignedAt(contents, "id", r.value);
      SetPlain(i, r.value);
      error := None;
    }

    /** `data[k] = replacer(v)`, for a plain value behind a postfixed key. */
    method ResolvePlain(store: Store, to: Direction, i: nat) returns (error: Option<Error>)
      requires Valid() && i < |slots| && slots[i].Plain? && store.Valid() && store !in Repr
      modifies this
      ensures Valid() && Repr == old(Repr) && |slots| == old(|slots|)
      ensures var t := TriedChild(store.forward, to, old(contents), i);
              error == t.error && contents == SetChild(old(contents), i, t.data)
    {
      assert ValidSlot(slots[i], ChildAt(contents, i));
      error := None;
      SameChild(contents, i);
      if HasPostfix(i) {
        var r := Replace(store, to, slots[i].value);
        if r.Err? {
          return Some(r.error);
        }
        ReplacedIsPlain(store.forward, to, slots[i].value);
        SetPlain(i, r.value);
      }
    }

    /** Takes over what a node below now holds. */
    ghost method Follow(i: nat)
      requires this in Repr && IsContainer(contents) && contents.Dict? == isDict && ChildCount(contents) == |slots|
      requires isDict ==> |keys| == |slots| && forall k :: 0 <= k < |slots| ==> contents.entries[k].key == keys[k]
      requires forall k :: 0 <= k < |slots| && k != i ==> ValidSlot(slots[k], ChildAt(contents, k))
      requires AllApart(slots)
      requires i < |slots| && slots[i].Nested? && ValidSlot(slots[i], slots[i].node.contents)
      modifies this`contents
      ensures Valid() && contents == SetChild(old(contents), i, slots[i].node.contents)
    {
      contents := SetChild(contents, i, slots[i].node.contents);
    }

    /** What is held beside a node does not change with it. */
    twostate lemma OthersHold(i: nat)
      requires old(Valid()) && i < old(|slots|) && old(slots[i].Nested?)
      requires old(slots[i].node).Repr == old(slots[i].node.Repr)
      requires forall o :: o in old(Repr) && o !in old(slots[i].node.Repr) ==> unchanged(o)
      ensures slots == old(slots) && contents == old(contents) && Repr == old(Repr) && AllApart(slots)
      ensures forall k :: 0 <= k < |slots| && k != i ==> ValidSlot(slots[k], ChildAt(contents, k))
    {
      assert old(ValidSlot(slots[i], ChildAt(contents, i)));
      assert unchanged(this);
      forall k | 0 <= k < |slots| && k != i
        ensures ValidSlot(slots[k], ChildAt(contents, k))
        ensures slots[k].Nested? ==> slots[k].node.Repr == old(slots[k].node.Repr)
      {
        assert old(ValidSlot(slots[k], ChildAt(contents, k)));
        if slots[k].Nested? {
          var other := slots[k].node;
          assert old(other.Valid()) && other in old(other.Repr) && old(other.Repr) !! old(slots[i].node.Repr);
          assert forall o :: o in old(other.Repr) ==> unchanged(o);
        }
      }
    }

    /** A link object, or another dict or list. */
    method ResolveNested(store: Store, to: Direction, i: nat) returns (error: Option<Error>)
      requires Valid() && i < |slots| && slots[i].Nested? && store.Valid() && store !in Repr
      modifies Repr
      ensures Valid() && Repr == old(Repr) && |slots| == old(|slots|)
      ensures var t := TriedChild(store.forward, to, old(contents), i);
              error == t.error && contents == SetChild(old(contents), i, t.data)
      decreases Repr, 0
    {
      hide TriedChild, ResolveLink, Tried, IsLink;
      assert ValidSlot(slots[i], ChildAt(contents, i));
      var n := slots[i].node;
      NestedChild(store.forward, to, contents, i);
      NodeHolds(n);
      var isLink := n.IsLinkNode();
      if isLink {
        error := n.ResolveId(store, to);
      } else if HasPostfix(i) {
        SameChild(contents, i);
        return Some(UnsupportedId);
      } else {
        error := n.ResolveDataIds(store, to);
      }
      OthersHold(i);
      Follow(i);
    }

    /** The body of the loop for child `i`. */
    method ResolveSlot(store: Store, to: Direction, i: nat) returns (error: Option<Error>)
      requires Valid() && i < |slots| && store.Valid() && store !in Repr
      modifies Repr
      ensures Valid() && Repr == old(Repr) && |slots| == old(|slots|)
      ensures var t := TriedChild(store.forward, to, old(contents), i);
              error == t.error && contents == SetChild(old(contents), i, t.data)
      decreases Repr, 1
    {
      hide TriedChild;
      if slots[i].Plain? {
        error := ResolvePlain(store, to, i);
      } else {
        error := ResolveNested(store, to, i);
      }
    }

    /** `resolve_data_ids`: up to the first failure, which leaves the rest as it was. */
    method ResolveDataIds(store: Store, to: Direction) returns (error: Option<Error>)
      requires Valid() && store.Valid() && store !in Repr
      modifies Repr
      ensures Valid() && Repr == old(Repr)
      ensures Attempt(contents, error) == Tried(store.forward, to, old(contents), ChildCount(old(contents)))
      ensures match Resolve(store.forward, to, old(contents))
              case Ok(v) => error.None? && contents == v
              case Err(e) => error == Some(e)
      decreases Repr, 2
    {
      hide TriedChild, ResolveAll, ValidSlot;
      error := None;
      ghost var m, data := store.forward, contents;
      TriedExactly(m, to, data, ChildCount(data));
      for i := 0 to |slots|
        invariant Valid() && Repr == old(Repr) && |slots| == ChildCount(data)
        invariant store.Valid() && store.forward == m
        invariant error.None? && Tried(m, to, data, i) == Attempt(contents, None)
      {
        SameRest(m, to, data, i);
        error := ResolveSlot(store, to, i);
        if error.Some? {
          TriedStops(m, to, data, i + 1, ChildCount(data));
          return;
        }
      }
    }
  }

  ghost predicate AllApart(slots: seq<Slot>)
    reads set slot | slot in slots && slot.Nested? :: slot.node
  {
    forall i, j :: 0 <= i < j < |slots| && slots[i].Nested? && slots[j].Nested? ==>
                     slots[i].node.Repr !! slots[j].node.Repr
  }

  /** `slot` holds `v`, in nodes among `below`. */
  ghost predicate Holds(slot: Slot, v: Value, below: set<object>)
    reads if slot.Nested? then {slot.node} + slot.node.Repr else {}
  {
    match slot
    case Plain(x) => x == v && !IsContainer(v)
    case Nested(n) => n.Repr <= below && n.Valid() && n.contents == v
  }

  method SlotFor(v: Value) returns (slot: Slot, ghost nodes: set<object>)
    ensures fresh(nodes) && Holds(slot, v, nodes)
    decreases v, 1
  {
    if IsContainer(v) {
      var n := FromData(v);
      slot, nodes := Nested(n), n.Repr;
    } else {
      slot, nodes := Plain(v), {};
    }
  }

  /** Every nested data can be held by nodes. */
  method FromData(v: Value) returns (node: Node)
    requires IsContainer(v)
    ensures fresh(node.Repr) && node.Valid() && node.contents == v
    decreases v, 0
  {
    hide Node.Valid, Node.ValidSlot;
    var slots: seq<Slot> := [];
    ghost var below: set<object> := {};
    for i := 0 to ChildCount(v)
      invariant |slots| == i && fresh(below)
      invariant forall k :: 0 <= k < i ==> Holds(slots[k], ChildAt(v, k), below)
      invariant AllApart(slots)
    {
      var slot, nodes := SlotFor(ChildAt(v, i));
      assert nodes !! below;
      below := below + nodes;
      slots := slots + [slot];
    }
    var keys := KeysOf(v);
    node := new Node(v.Dict?, keys, slots, v, below);
  }

  function KeysOf(v: Value): (keys: seq<string>)
    ensures v.Dict? ==> |keys| == |v.entries| && forall i :: 0 <= i < |keys| ==> keys[i] == v.entries[i].key
  {
    if v.Dict? then seq(|v.entries|, i requires 0 <= i < |v.entries| => v.entries[i].key) else []
  }

  lemma NodeHolds(n: Node)
    requires n.Valid()
    ensures IsContainer(n.contents)
  {
  }

  lemma NestedChild(m: map<Name, nat>, to: Direction, v: Value, i: nat)
    requires i < ChildCount(v)
    ensures var child := ChildAt(v, i);
            IsContainer(child) ==>
              TriedChild(m, to, v, i) ==
              if IsLink(child) then Attempted(child, ResolveLink(m, to, child))
              else if HasLinkKey(v, i) then Attempt(child, Some(UnsupportedId))
              else Tried(m, to, child, ChildCount(child))
  {
    hide ResolveLink, Tried;
  }

  lemma ReplacedIsPlain(m: map<Name, nat>, to: Direction, id: Value)
    requires Replacer(m, to, id).Ok?
    ensures !IsContainer(Replacer(m, to, id).value)
  {
  }

  lemma {:induction false} AssignedEntry(entries: seq<Entry>, key: string, v: Value)
    requires IndexOf(entries, key) < |entries|
    ensures Assigned(entries, key, v) == entries[IndexOf(entries, key) := Entry(key, v)]
  {
    if entries[0].key != key {
      AssignedEntry(entries[1..], key, v);
    }
  }

  lemma AssignedAt(dict: Value, key: string, v: Value)
    requires dict.Dict? && IndexOf(dict.entries, key) < |dict.entries|
    ensures Dict(Assigned(dict.entries, key, v)) == SetChild(dict, IndexOf(dict.entries, key), v)
  {
    AssignedEntry(dict.entries, key, v);
  }

  lemma SameChild(v: Value, i: nat)
    requires i < ChildCount(v)
    ensures SetChild(v, i, ChildAt(v, i)) == v
  {
    SameChildren(SetChild(v, i, ChildAt(v, i)), v);
  }

  /** Children that were not reached yet are as they were. */
  lemma SameRest(m: map<Name, nat>, to: Direction, data: Value, i: nat)
    requires i < ChildCount(data) && Tried(m, to, data, i).error.None?
    ensures var now := Tried(m, to, data, i).data;
            && ChildAt(now, i) == ChildAt(data, i) && TriedChild(m, to, now, i) == TriedChild(m, to, data, i)
            && Tried(m, to, data, i + 1) ==
               Attempt(SetChild(now, i, TriedChild(m, to, data, i).data), TriedChild(m, to, data, i).error)
  {
    hide ResolveChild, ResolveLink, Replacer;
    TriedExactly(m, to, data, i);
    ResolvedChildren(m, to, data, i);
  }
}
