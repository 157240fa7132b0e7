/** Exactly the data whose links survive the rewriting to names and back. */
module LinksRoundTrip {
  import opened Text
  import opened Wrappers
  import opened Data
  import opened BlockStore
  import opened Links

  /** The stored name of a numeric ID is text, and is not read as another number. */
  ghost predicate NameReturns(m: map<Name, nat>, nid: nat) {
    var stored := NameOf(m, nid);
    stored.Some? ==>
      && stored.value.Some?
      && (IsNumeric(stored.value.value) ==> ParseNat(stored.value.value) == nid)
  }

  ghost predicate IdReturns(m: map<Name, nat>, id: Value) {
    id.Int? && id.i >= 0 && (id.i > 0 ==> NameReturns(m, id.i))
  }

  // ---- Single IDs -------------------------------------------------------------------------

  lemma PrintedIntIsNumeric(i: int)
    ensures i >= 0 ==> IsNumeric(PrintInt(i)) && ParseNat(PrintInt(i)) == i
    ensures i < 0 ==> !IsNumeric(PrintInt(i))
  {
    if i >= 0 {
      ParsePrintNat(i);
    } else {
      assert !IsDigit(PrintInt(i)[0]);
    }
  }

  lemma NamedReturns(m: map<Name, nat>, nid: nat)
    requires nid > 0 && NameOf(m, nid).Some?
    ensures FindNid(m, NameValue(NameOf(m, nid).value)) == Ok(Int(nid)) <==> NameReturns(m, nid)
  {
  }

  /** `_find_nid(_find_sid(id)) == id` */
  lemma IdReturnsExactly(m: map<Name, nat>, id: Value)
    ensures (FindSid(m, id).Ok? && FindNid(m, FindSid(m, id).value) == Ok(id)) <==> IdReturns(m, id)
  {
    if id.Int? {
      PrintedIntIsNumeric(id.i);
      if id.i > 0 && NameOf(m, id.i).Some? {
        NamedReturns(m, id.i);
      }
    }
  }

  // ---- Link objects -----------------------------------------------------------------------

  ghost predicate LinkReturns(m: map<Name, nat>, link: Value)
    requires link.Dict?
  {
    Get(link.entries, "id").Some? && IdReturns(m, Get(link.entries, "id").value)
  }

  /** Only the ID of a link changes. */
  lemma ResolvedLink(m: map<Name, nat>, to: Direction, link: Value)
    requires IsLink(link) && ResolveLink(m, to, link).Ok?
    ensures Get(link.entries, "id").Some?
    ensures var r := ResolveLink(m, to, link).value;
            && IsLink(r)
            && Replacer(m, to, Get(link.entries, "id").value) == Ok(IdValue(r))
            && r == Dict(Assigned(link.entries, "id", IdValue(r)))
            && Get(r.entries, "id") == Some(IdValue(r))
  {
    hide Replacer;
    var id := Replacer(m, to, Get(link.entries, "id").value).value;
    GetAssigned(link.entries, "id", id, "id");
    GetAssigned(link.entries, "id", id, BLOXTYPE);
    assert "id"[0] != BLOXTYPE[0];
  }

  function IdValue(link: Value): Value {
    if link.Dict? && Get(link.entries, "id").Some? then Get(link.entries, "id").value else Null
  }

  lemma LinkReturnsExactly(m: map<Name, nat>, link: Value)
    requires IsLink(link)
    ensures (ResolveLink(m, ToSid, link).Ok? &&
             ResolveLink(m, ToNid, ResolveLink(m, ToSid, link).value) == Ok(link)) <==> LinkReturns(m, link)
  {
    hide IdReturns, FindSid, FindNid;
    if Get(link.entries, "id").Some? {
      var id := Get(link.entries, "id").value;
      IdReturnsExactly(m, id);
      if FindSid(m, id).Ok? {
        var named := ResolveLink(m, ToSid, link).value;
        ResolvedLink(m, ToSid, link);
        var back := FindNid(m, IdValue(named));
        if back.Ok? {
          AssignedTwice(link.entries, "id", IdValue(named), back.value);
          AssignedSame(link.entries, "id", back.value);
        }
      }
    }
  }

  // ---- Nested data --------------------------------------------------------------------------

  ghost predicate ChildReturns(m: map<Name, nat>, v: Value, i: nat)
    requires i < ChildCount(v)
    decreases v, 0
  {
    var child := ChildAt(v, i);
    if IsLink(child) then LinkReturns(m, child)
    else if HasLinkKey(v, i) then IdReturns(m, child)
    else if IsContainer(child) then AllReturn(m, child)
    else true
  }

  /** Every link ID in the data returns. */
  ghost predicate AllReturn(m: map<Name, nat>, v: Value)
    decreases v, 1
  {
    forall i :: 0 <= i < ChildCount(v) ==> ChildReturns(m, v, i)
  }

  lemma ContainerStays(m: map<Name, nat>, to: Direction, v: Value)
    requires Resolve(m, to, v).Ok?
    ensures var r := Resolve(m, to, v).value; IsContainer(r) == IsContainer(v) && SameKeys(v, r)
  {
    hide ResolveAll;
    ResolvedChildren(m, to, v, ChildCount(v));
  }

  lemma BloxtypeIsNoLinkKey(v: Value, i: nat)
    requires v.Dict? && i < |v.entries| && v.entries[i].key == BLOXTYPE
    ensures !HasLinkKey(v, i)
  {
    assert BLOXTYPE[|BLOXTYPE| - 1] == 'e';
  }

  lemma PlainChildStays(m: map<Name, nat>, to: Direction, v: Value, i: nat)
    requires i < ChildCount(v) && !HasLinkKey(v, i) && ResolveChild(m, to, v, i).Ok?
    ensures var r := ResolveChild(m, to, v, i).value;
            r == ChildAt(v, i) || (IsContainer(r) && IsContainer(ChildAt(v, i)))
  {
    hide ResolveAll, Replacer;
    if IsLink(ChildAt(v, i)) {
    } else if IsContainer(ChildAt(v, i)) {
      ContainerStays(m, to, ChildAt(v, i));
    }
  }

  /** Rewriting the inside of data does not make it a link. */
  lemma KindOfData(m: map<Name, nat>, to: Direction, v: Value)
    requires Resolve(m, to, v).Ok?
    ensures IsLink(Resolve(m, to, v).value) == IsLink(v)
  {
    hide ResolveAll, ResolveChild;
    var w := Resolve(m, to, v).value;
    ResolvedChildren(m, to, v, ChildCount(v));
    if v.Dict? {
      var k := IndexOf(v.entries, BLOXTYPE);
      SameIndex(v.entries, w.entries, BLOXTYPE);
      GetByIndex(v.entries, BLOXTYPE);
      GetByIndex(w.entries, BLOXTYPE);
      if k < |v.entries| {
        BloxtypeIsNoLinkKey(v, k);
        PlainChildStays(m, to, v, k);
      }
    }
  }

  lemma ReplacedIsNoLink(m: map<Name, nat>, id: Value)
    requires FindSid(m, id).Ok?
    ensures !IsLink(FindSid(m, id).value)
  {
  }

  /** A child and its rewritten form return together. */
  lemma ChildReturnsExactly(m: map<Name, nat>, v: Value, w: Value, i: nat)
    requires i < ChildCount(v) && i < ChildCount(w) && HasLinkKey(w, i) == HasLinkKey(v, i)
    requires ResolveChild(m, ToSid, v, i) == Ok(ChildAt(w, i))
    ensures ResolveChild(m, ToNid, w, i) == Ok(ChildAt(v, i)) <==> ChildReturns(m, v, i)
    decreases v, 0
  {
    hide FindSid, FindNid, IdReturns, LinkReturns, ResolveLink, AllReturn, ResolveAll, IsLink;
    var child, named := ChildAt(v, i), ChildAt(w, i);
    if IsLink(child) {
      ResolvedLink(m, ToSid, child);
      LinkReturnsExactly(m, child);
    } else if HasLinkKey(v, i) {
      ReplacedIsNoLink(m, child);
      IdReturnsExactly(m, child);
    } else if IsContainer(child) {
      KindOfData(m, ToSid, child);
      ContainerStays(m, ToSid, child);
      DataReturnsExactly(m, child);
    }
  }

  lemma {:induction false} AllResolve(m: map<Name, nat>, to: Direction, v: Value, n: nat)
    requires n <= ChildCount(v) && forall i :: 0 <= i < n ==> ResolveChild(m, to, v, i).Ok?
    ensures ResolveAll(m, to, v, n).Ok?
    decreases n
  {
    hide ResolveChild;
    if n > 0 {
      AllResolve(m, to, v, n - 1);
    }
  }

  /** Children that are all rewritten to those of `v` make up `v`. */
  lemma RestoredData(m: map<Name, nat>, v: Value, w: Value)
    requires SameKeys(v, w) && ChildCount(w) == ChildCount(v)
    requires forall i :: 0 <= i < ChildCount(v) ==> ResolveChild(m, ToNid, w, i) == Ok(ChildAt(v, i))
    ensures Resolve(m, ToNid, w) == Ok(v)
  {
    hide ResolveChild, ResolveAll;
    AllResolve(m, ToNid, w, ChildCount(w));
    ResolvedChildren(m, ToNid, w, ChildCount(w));
    SameChildren(v, Resolve(m, ToNid, w).value);
  }

  lemma ReturningResolves(m: map<Name, nat>, v: Value, i: nat)
    requires i < ChildCount(v) && ChildReturns(m, v, i)
    ensures ResolveChild(m, ToSid, v, i).Ok?
    decreases v, 0
  {
    hide FindSid, FindNid, IdReturns, LinkReturns, ResolveLink, AllReturn, ResolveAll;
    var child := ChildAt(v, i);
    if IsLink(child) {
      LinkReturnsExactly(m, child);
    } else if HasLinkKey(v, i) {
      IdReturnsExactly(m, child);
    } else if IsContainer(child) {
      DataReturnsExactly(m, child);
    }
  }

  /** `_find_sid` and then `_find_nid` give the same data exactly if every link ID in it returns. */
  lemma DataReturnsExactly(m: map<Name, nat>, v: Value)
    ensures (Resolve(m, ToSid, v).Ok? && Resolve(m, ToNid, Resolve(m, ToSid, v).value) == Ok(v)) <==> AllReturn(m, v)
    decreases v, 1
  {
    hide ResolveChild, ResolveAll, ChildReturns;
    if AllReturn(m, v) {
      forall i | 0 <= i < ChildCount(v) ensures ResolveChild(m, ToSid, v, i).Ok? {
        ReturningResolves(m, v, i);
      }
      AllResolve(m, ToSid, v, ChildCount(v));
    }
    if Resolve(m, ToSid, v).Ok? {
      var w := Resolve(m, ToSid, v).value;
      ResolvedChildren(m, ToSid, v, ChildCount(v));
      forall i | 0 <= i < ChildCount(v)
        ensures ResolveChild(m, ToNid, w, i) == Ok(ChildAt(v, i)) <==> ChildReturns(m, v, i)
      {
        ChildReturnsExactly(m, v, w, i);
      }
      if AllReturn(m, v) {
        RestoredData(m, v, w);
      } else if Resolve(m, ToNid, w) == Ok(v) {
        ResolvedChildren(m, ToNid, w, ChildCount(w));
      }
    }
  }

  // ---- Everything else stays ------------------------------------------------------------------

  /** The data with all link IDs replaced by null. */
  function ErasedChild(v: Value, i: nat): Value
    requires i < ChildCount(v)
    decreases v, 0, 0
  {
    var child := ChildAt(v, i);
    if IsLink(child) then Dict(Assigned(child.entries, "id", Null))
    else if HasLinkKey(v, i) then Null
    else if IsContainer(child) then Erased(child, ChildCount(child))
    else child
  }

  function Erased(v: Value, n: nat): (r: Value)
    requires n <= ChildCount(v)
    ensures ChildCount(r) == ChildCount(v)
    decreases v, 1, n
  {
    if n == 0 then v else SetChild(Erased(v, n - 1), n - 1, ErasedChild(v, n - 1))
  }

  lemma {:induction false} ErasedChildren(v: Value, n: nat)
    requires n <= ChildCount(v)
    ensures var r := Erased(v, n);
            && SameKeys(v, r)
            && (forall i :: 0 <= i < n ==> ChildAt(r, i) == ErasedChild(v, i))
            && (forall i :: n <= i < ChildCount(v) ==> ChildAt(r, i) == ChildAt(v, i))
    decreases n
  {
    hide ErasedChild;
    if n > 0 {
      ErasedChildren(v, n - 1);
    }
  }

  lemma ErasedChildStays(m: map<Name, nat>, to: Direction, v: Value, w: Value, i: nat)
    requires i < ChildCount(v) && i < ChildCount(w) && HasLinkKey(w, i) == HasLinkKey(v, i)
    requires ResolveChild(m, to, v, i) == Ok(ChildAt(w, i))
    ensures ErasedChild(w, i) == ErasedChild(v, i)
    decreases v, 0
  {
    hide Replacer, ResolveLink, ResolveAll, Erased;
    var child, changed := ChildAt(v, i), ChildAt(w, i);
    if IsLink(child) {
      ResolvedLink(m, to, child);
      AssignedTwice(child.entries, "id", IdValue(changed), Null);
    } else if HasLinkKey(v, i) {
      ReplacedIsScalar(m, to, child);
    } else if IsContainer(child) {
      KindOfData(m, to, child);
      ContainerStays(m, to, child);
      OnlyLinksChange(m, to, child);
    }
  }

  lemma ReplacedIsScalar(m: map<Name, nat>, to: Direction, id: Value)
    requires Replacer(m, to, id).Ok?
    ensures !IsLink(Replacer(m, to, id).value)
  {
  }

  /** Nothing but link IDs changes. */
  lemma OnlyLinksChange(m: map<Name, nat>, to: Direction, v: Value)
    requires Resolve(m, to, v).Ok?
    ensures var w := Resolve(m, to, v).value;
            ChildCount(w) == ChildCount(v) && Erased(w, ChildCount(w)) == Erased(v, ChildCount(v))
    decreases v, 1
  {
    hide ResolveChild, ResolveAll, ErasedChild, Erased;
    var w := Resolve(m, to, v).value;
    ResolvedChildren(m, to, v, ChildCount(v));
    forall i | 0 <= i < ChildCount(v) ensures ErasedChild(w, i) == ErasedChild(v, i) {
      ErasedChildStays(m, to, v, w, i);
    }
    ErasedChildren(v, ChildCount(v));
    ErasedChildren(w, ChildCount(w));
    SameChildren(Erased(v, ChildCount(v)), Erased(w, ChildCount(w)));
  }
}
