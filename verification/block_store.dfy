/** Two-way relations between the names and the numeric IDs of blocks. */
module BlockStore {
  import opened Wrappers

  /** A block name: text, or null. */
  type Name = Option<string>

  datatype Ident = Ident(id: Name, nid: nat)

  /** `store[name] = nid`, dropping other items with the same name or the same numeric ID. */
  function Put(m: map<Name, nat>, name: Name, nid: nat): map<Name, nat> {
    (map k | k in m && m[k] != nid :: m[k])[name := nid]
  }

  function PutAll(m: map<Name, nat>, items: seq<Ident>): map<Name, nat>
    decreases |items|
  {
    if items == [] then m
    else Put(PutAll(m, items[..|items| - 1]), items[|items| - 1].id, items[|items| - 1].nid)
  }

  ghost predicate IsInjective(m: map<Name, nat>) {
    forall a, b :: a in m && b in m && m[a] == m[b] ==> a == b
  }

  lemma PutStaysInjective(m: map<Name, nat>, name: Name, nid: nat)
    requires IsInjective(m)
    ensures IsInjective(Put(m, name, nid))
  {
  }

  class Store {
    var forward: map<Name, nat>
    var inverse: map<nat, Name>

    ghost predicate Valid()
      reads this
    {
      && (forall name :: name in forward ==> forward[name] in inverse && inverse[forward[name]] == name)
      && (forall nid :: nid in inverse ==> inverse[nid] in forward && forward[inverse[nid]] == nid)
    }

    constructor ()
      ensures Valid() && forward == map[]
    {
      forward, inverse := map[], map[];
    }

    method Set(name: Name, nid: nat)
      requires Valid()
      modifies this
      ensures Valid() && forward == Put(old(forward), name, nid)
    {
      if nid in inverse {
        Delete(inverse[nid]);
      }
      ghost var others := map k | k in old(forward) && old(forward)[k] != nid :: old(forward)[k];
      assert forward == others;
      if name in forward {
        Delete(name);
      }
      Add(name, nid);
      assert forward == others[name := nid];
    }

    method Add(name: Name, nid: nat)
      requires Valid() && name !in forward && nid !in inverse
      modifies this
      ensures Valid() && forward == old(forward)[name := nid]
    {
      forward := forward[name := nid];
      inverse := inverse[nid := name];
    }

    method Delete(name: Name)
      requires Valid() && name in forward
      modifies this
      ensures Valid() && forward == old(forward) - {name}
    {
      inverse := inverse - {forward[name]};
      forward := forward - {name};
    }

    method Clear()
      modifies this
      ensures Valid() && forward == map[]
    {
      forward, inverse := map[], map[];
    }

    method Update(items: seq<Ident>)
      requires Valid()
      modifies this
      ensures Valid() && forward == PutAll(old(forward), items)
    {
      for i := 0 to |items|
        invariant Valid() && forward == PutAll(old(forward), items[..i])
      {
        assert items[..i + 1][..i] == items[..i];
        Set(items[i].id, items[i].nid);
      }
      assert items[..|items|] == items;
    }
  }

  /** The name that is stored for a numeric ID. */
  ghost function NameOf(m: map<Name, nat>, nid: nat): (name: Option<Name>)
    ensures name.Some? ==> name.value in m && m[name.value] == nid
    ensures name.None? ==> forall k :: k in m ==> m[k] != nid
  {
    if exists k :: k in m && m[k] == nid then
      var k :| k in m && m[k] == nid;
      Some(k)
    else None
  }

  lemma NameOfInverse(store: Store, nid: nat)
    requires store.Valid()
    ensures NameOf(store.forward, nid) == if nid in store.inverse then Some(store.inverse[nid]) else None
  {
  }
}
