/** The index of block names that the service keeps beside the controller's own name table. */
module BlockIndex {
  import opened Text
  import opened Wrappers
  import opened BlockStore

  /** Names and numeric IDs of system blocks on all platforms. */
  const SYS_BLOCK_IDS := [
    Ident(Some("SysInfo"), 2), Ident(Some("OneWireBus"), 4), Ident(Some("WiFiSettings"), 5),
    Ident(Some("DisplaySettings"), 7), Ident(Some("SparkPins"), 19)]

  // ---- Calls and what they leave in the store --------------------------------------------

  /** An API call that was answered, with the blocks in the controller's replies. */
  datatype Call =
    | Create(block: Ident)
    | Read(block: Ident)
    | Write(block: Ident)
    | ReadAll(blocks: seq<Ident>)
    | Discover(blocks: seq<Ident>)
    | Rename(block: Ident)
    | Delete(nid: nat)
    | Clear(removed: seq<Ident>, names: seq<Ident>)
    | ApplyBackup(removed: seq<Ident>, remaining: seq<Ident>, exported: seq<Ident>, names: seq<Ident>)

  predicate HasName(b: Ident) {
    b.id.Some? && b.id.value != ""
  }

  /** `_sync_block_id` */
  function Sync(m: map<Name, nat>, b: Ident): map<Name, nat> {
    if HasName(b) && b.nid != 0 then Put(m, b.id, b.nid) else m
  }

  function SyncAll(m: map<Name, nat>, blocks: seq<Ident>): map<Name, nat>
    decreases |blocks|
  {
    if blocks == [] then m else Sync(SyncAll(m, blocks[..|blocks| - 1]), blocks[|blocks| - 1])
  }

  /** `d[b.id] = b.nid` for a dict in insertion order. */
  function Assign(d: seq<Ident>, b: Ident): seq<Ident> {
    if d == [] then [b]
    else if d[0].id == b.id then [b] + d[1..]
    else [d[0]] + Assign(d[1..], b)
  }

  /** `{b.id: b.nid for b in blocks}` */
  function DictOf(blocks: seq<Ident>): seq<Ident> {
    if blocks == [] then [] else Assign(DictOf(blocks[..|blocks| - 1]), blocks[|blocks| - 1])
  }

  function Loaded(names: seq<Ident>): map<Name, nat> {
    PutAll(map[], DictOf(names))
  }

  ghost function After(m: map<Name, nat>, call: Call): map<Name, nat> {
    match call
    case Create(b) => Sync(m, b)
    case Read(b) => Sync(m, b)
    case Write(b) => Sync(m, b)
    case ReadAll(blocks) => SyncAll(m, blocks)
    case Discover(blocks) => SyncAll(m, blocks)
    case Rename(b) => Put(m, b.id, b.nid)
    case Delete(nid) => if NameOf(m, nid).Some? then m - {NameOf(m, nid).value} else m
    case Clear(_, names) => Loaded(names)
    case ApplyBackup(_, _, _, names) => Loaded(names)
  }

  // ---- The API -----------------------------------------------------------------------------

  datatype Error = UnknownId(name: Name) | KeyError

  class SparkApi {
    const store: Store

    constructor (store: Store)
      ensures this.store == store
    {
      this.store := store;
    }

    method SyncBlockId(b: Ident)
      requires store.Valid()
      modifies store
      ensures store.Valid() && store.forward == Sync(old(store.forward), b)
      ensures b.id == None || b.id == Some("") || b.nid == 0 ==> store.forward == old(store.forward)
    {
      if HasName(b) && b.nid != 0 {
        store.Set(b.id, b.nid);
      }
    }

    /** The numeric ID that a request is about. */
    method FindBlock(id: Name, nid: Option<nat>) returns (r: Result<nat, Error>)
      requires store.Valid()
      ensures nid.Some? ==> r == Ok(nid.value)
      ensures nid.None? ==>
                r == if id in store.forward then Ok(store.forward[id]) else Err(UnknownId(id))
    {
      if nid.Some? {
        return Ok(nid.value);
      }
      r := if id in store.forward then Ok(store.forward[id]) else Err(UnknownId(id));
    }

    /** `_to_block` looks up the name after it stored the one in the reply, if any. */
    method ToBlock(b: Ident) returns (name: Name)
      requires store.Valid()
      modifies store
      ensures store.Valid() && store.forward == Sync(old(store.forward), b)
      ensures name == NameInReply(store.forward, b)
    {
      SyncBlockId(b);
      SyncAgain(old(store.forward), b);
      SyncBlockId(b);
      NameOfInverse(store, b.nid);
      if HasName(b) {
        name := b.id;
      } else if b.nid == 0 {
        name := None;
      } else {
        name := if b.nid in store.inverse then store.inverse[b.nid] else Some(PrintNat(b.nid));
      }
    }

    method ToBlocks(blocks: seq<Ident>)
      requires store.Valid()
      modifies store
      ensures store.Valid() && store.forward == SyncAll(old(store.forward), blocks)
    {
      for i := 0 to |blocks|
        invariant store.Valid() && store.forward == SyncAll(old(store.forward), blocks[..i])
      {
        assert blocks[..i + 1][..i] == blocks[..i];
        var _ := ToBlock(blocks[i]);
      }
      assert blocks[..|blocks|] == blocks;
    }

    method CreateBlock(reply: Ident) returns (name: Name)
      requires store.Valid()
      modifies store
      ensures store.Valid() && store.forward == After(old(store.forward), Create(reply))
      ensures name == NameInReply(store.forward, reply)
    {
      name := ToBlock(reply);
    }

    method ReadBlock(id: Name, nid: Option<nat>, reply: Ident) returns (r: Result<Name, Error>)
      requires store.Valid()
      modifies store
      ensures store.Valid()
      ensures nid.None? && id !in old(store.forward) ==>
                r == Err(UnknownId(id)) && store.forward == old(store.forward)
      ensures nid.Some? || id in old(store.forward) ==>
                && store.forward == After(old(store.forward), Read(reply))
                && r == Ok(NameInReply(store.forward, reply))
    {
      var found := FindBlock(id, nid);
      if found.Err? {
        return Err(found.error);
      }
      var name := ToBlock(reply);
      r := Ok(name);
    }

    method WriteBlock(id: Name, nid: Option<nat>, reply: Ident) returns (r: Result<Name, Error>)
      requires store.Valid()
      modifies store
      ensures store.Valid()
      ensures nid.None? && id !in old(store.forward) ==>
                r == Err(UnknownId(id)) && store.forward == old(store.forward)
      ensures nid.Some? || id in old(store.forward) ==>
                && store.forward == After(old(store.forward), Write(reply))
                && r == Ok(NameInReply(store.forward, reply))
    {
      var found := FindBlock(id, nid);
      if found.Err? {
        return Err(found.error);
      }
      var name := ToBlock(reply);
      r := Ok(name);
    }

    /** The block is already gone from the controller when its name is looked up. */
    method DeleteBlock(id: Name, nid: Option<nat>) returns (r: Result<Ident, Error>)
      requires store.Valid()
      modifies store
      ensures store.Valid()
      ensures nid.None? && id !in old(store.forward) ==>
                r == Err(UnknownId(id)) && store.forward == old(store.forward)
      ensures nid.Some? || id in old(store.forward) ==>
                var n := if nid.Some? then nid.value else old(store.forward)[id];
                && store.forward == After(old(store.forward), Delete(n))
                && r == if NameOf(old(store.forward), n).Some? then Ok(Ident(NameOf(old(store.forward), n).value, n))
                        else Err(KeyError)
    {
      var found := FindBlock(id, nid);
      if found.Err? {
        return Err(found.error);
      }
      NameOfInverse(store, found.value);
      if found.value !in store.inverse {
        return Err(KeyError);
      }
      var sid := store.inverse[found.value];
      store.Delete(sid);
      r := Ok(Ident(sid, found.value));
    }

    method RenameBlock(existing: Name, reply: Ident) returns (r: Result<Ident, Error>)
      requires store.Valid()
      modifies store
      ensures store.Valid()
      ensures existing !in old(store.forward) ==> r == Err(KeyError) && store.forward == old(store.forward)
      ensures existing in old(store.forward) ==>
                r == Ok(reply) && store.forward == After(old(store.forward), Rename(reply))
    {
      if existing !in store.forward {
        return Err(KeyError);
      }
      store.Set(reply.id, reply.nid);
      r := Ok(reply);
    }

    method LoadBlockNames(names: seq<Ident>)
      requires store.Valid()
      modifies store
      ensures store.Valid() && store.forward == Loaded(names)
    {
      store.Clear();
      store.Update(DictOf(names));
    }

    method ClearBlocks(removed: seq<Ident>, names: seq<Ident>)
      requires store.Valid()
      modifies store
      ensures store.Valid() && store.forward == After(old(store.forward), Clear(removed, names))
    {
      ToBlocks(removed);
      LoadBlockNames(names);
    }

    method ApplyBackupBlocks(removed: seq<Ident>, remaining: seq<Ident>, exported: seq<Ident>, names: seq<Ident>)
      requires store.Valid()
      modifies store
      ensures store.Valid()
      ensures store.forward == After(old(store.forward), ApplyBackup(removed, remaining, exported, names))
    {
      ClearBlocks(removed, remaining);
      store.Update(SYS_BLOCK_IDS);
      store.Update(DictOf(exported));
      LoadBlockNames(names);
    }
  }

  /** The name in a reply, or else the stored one, or else the number. */
  ghost function NameInReply(m: map<Name, nat>, b: Ident): Name {
    if HasName(b) then b.id
    else if b.nid == 0 then None
    else if NameOf(m, b.nid).Some? then NameOf(m, b.nid).value
    else Some(PrintNat(b.nid))
  }

  lemma SyncAgain(m: map<Name, nat>, b: Ident)
    ensures Sync(Sync(m, b), b) == Sync(m, b)
  {
  }

  // ---- The controller --------------------------------------------------------------------------

  /** The names of the blocks on the controller. */
  type Table = map<nat, string>

  ghost predicate IsTable(t: Table) {
    && 0 !in t
    && (forall nid :: nid in t ==> t[nid] != "")
    && forall a, b :: a in t && b in t && t[a] == t[b] ==> a == b
  }

  ghost predicate Describes(t: Table, b: Ident) {
    b.nid in t && b.id == Some(t[b.nid])
  }

  /** Replies about existing blocks may leave out the name. */
  ghost predicate Mentions(t: Table, b: Ident) {
    b.nid in t && (!HasName(b) || b.id == Some(t[b.nid]))
  }

  /** All names on the controller, in any order. */
  ghost predicate Lists(t: Table, names: seq<Ident>) {
    && (forall i :: 0 <= i < |names| ==> Describes(t, names[i]))
    && forall nid :: nid in t ==> exists i :: 0 <= i < |names| && names[i].nid == nid
  }

  /** What the controller does to its names when it answers a call. */
  ghost predicate Answers(t: Table, call: Call, u: Table) {
    && IsTable(u)
    && match call
       case Create(b) => b.nid !in t && b.id.Some? && u == t[b.nid := b.id.value]
       case Read(b) => Mentions(t, b) && u == t
       case Write(b) => Mentions(t, b) && u == t
       case ReadAll(blocks) => u == t && forall i :: 0 <= i < |blocks| ==> Mentions(t, blocks[i])
       case Discover(blocks) =>
         && (forall nid :: nid in t ==> nid in u && u[nid] == t[nid])
         && (forall i :: 0 <= i < |blocks| ==> Describes(u, blocks[i]))
         && (forall nid :: nid in u && nid !in t ==> exists i :: 0 <= i < |blocks| && blocks[i].nid == nid)
       case Rename(b) => b.nid in t && b.id.Some? && u == t[b.nid := b.id.value]
       case Delete(nid) => nid in t && u == t - {nid}
       case Clear(_, names) => Lists(u, names)
       case ApplyBackup(_, _, _, names) => Lists(u, names)
  }

  // ---- Coherence ---------------------------------------------------------------------------------

  /** Every stored name is on the controller. */
  ghost predicate Agrees(m: map<Name, nat>, t: Table) {
    forall name :: name in m ==> m[name] in t && name == Some(t[m[name]])
  }

  ghost predicate Knows(m: map<Name, nat>, t: Table, nid: nat)
    requires nid in t
  {
    Some(t[nid]) in m && m[Some(t[nid])] == nid
  }

  /** The store is the inverse of the controller's table. */
  ghost predicate Coherent(m: map<Name, nat>, t: Table) {
    Agrees(m, t) && forall nid :: nid in t ==> Knows(m, t, nid)
  }

  /** A coherent store is a bijection between the names and the numeric IDs on the controller. */
  lemma CoherentIsBijection(m: map<Name, nat>, t: Table)
    requires IsTable(t) && Coherent(m, t)
    ensures IsInjective(m)
    ensures forall nid :: nid in t <==> NameOf(m, nid).Some?
    ensures forall nid :: nid in t ==> NameOf(m, nid) == Some(Some(t[nid]))
  {
    forall nid | nid in t ensures NameOf(m, nid) == Some(Some(t[nid])) {
      assert Knows(m, t, nid);
    }
  }

  lemma PutAgrees(m: map<Name, nat>, t: Table, b: Ident)
    requires IsTable(t) && Agrees(m, t) && Describes(t, b)
    ensures Agrees(Put(m, b.id, b.nid), t)
    ensures Knows(Put(m, b.id, b.nid), t, b.nid)
    ensures forall nid :: nid in t && Knows(m, t, nid) ==> Knows(Put(m, b.id, b.nid), t, nid)
  {
  }

  lemma SyncAgrees(m: map<Name, nat>, t: Table, b: Ident)
    requires IsTable(t) && Agrees(m, t) && Mentions(t, b)
    ensures Agrees(Sync(m, b), t)
    ensures HasName(b) ==> Knows(Sync(m, b), t, b.nid)
    ensures forall nid :: nid in t && Knows(m, t, nid) ==> Knows(Sync(m, b), t, nid)
  {
    hide Put;
    if HasName(b) {
      PutAgrees(m, t, b);
    }
  }

  lemma {:induction false} SyncAllAgrees(m: map<Name, nat>, t: Table, blocks: seq<Ident>)
    requires IsTable(t) && Agrees(m, t) && forall i :: 0 <= i < |blocks| ==> Mentions(t, blocks[i])
    ensures Agrees(SyncAll(m, blocks), t)
    ensures forall nid :: nid in t && Knows(m, t, nid) ==> Knows(SyncAll(m, blocks), t, nid)
    ensures forall i :: 0 <= i < |blocks| && HasName(blocks[i]) ==>
                          blocks[i].nid in t && Knows(SyncAll(m, blocks), t, blocks[i].nid)
    decreases |blocks|
  {
    hide Sync;
    if blocks != [] {
      var earlier := blocks[..|blocks| - 1];
      SyncAllAgrees(m, t, earlier);
      SyncAgrees(SyncAll(m, earlier), t, blocks[|blocks| - 1]);
      forall i | 0 <= i < |blocks| && HasName(blocks[i])
        ensures Knows(SyncAll(m, blocks), t, blocks[i].nid)
      {
        if i < |earlier| {
          assert earlier[i] == blocks[i];
        }
      }
    }
  }

  lemma {:induction false} PutAllAgrees(m: map<Name, nat>, t: Table, items: seq<Ident>)
    requires IsTable(t) && Agrees(m, t) && forall i :: 0 <= i < |items| ==> Describes(t, items[i])
    ensures Agrees(PutAll(m, items), t)
    ensures forall i :: 0 <= i < |items| ==> items[i].nid in t && Knows(PutAll(m, items), t, items[i].nid)
    decreases |items|
  {
    hide Put;
    if items != [] {
      var earlier := items[..|items| - 1];
      PutAllAgrees(m, t, earlier);
      PutAgrees(PutAll(m, earlier), t, items[|items| - 1]);
      forall i | 0 <= i < |items| ensures Knows(PutAll(m, items), t, items[i].nid) {
        if i < |earlier| {
          assert earlier[i] == items[i];
        }
      }
    }
  }

  lemma {:induction false} AssignKeeps(d: seq<Ident>, b: Ident, t: Table)
    requires Describes(t, b) && forall i :: 0 <= i < |d| ==> Describes(t, d[i])
    ensures forall i :: 0 <= i < |Assign(d, b)| ==> Describes(t, Assign(d, b)[i])
    ensures b in Assign(d, b)
    ensures IsTable(t) ==> forall a :: a in d ==> a in Assign(d, b)
  {
    if d != [] && d[0].id != b.id {
      AssignKeeps(d[1..], b, t);
      assert Assign(d, b)[1..] == Assign(d[1..], b);
      assert d == [d[0]] + d[1..];
    } else if d != [] {
      assert d == [d[0]] + d[1..];
    }
  }

  lemma {:induction false} DictOfKeeps(names: seq<Ident>, t: Table)
    requires IsTable(t) && forall i :: 0 <= i < |names| ==> Describes(t, names[i])
    ensures forall i :: 0 <= i < |DictOf(names)| ==> Describes(t, DictOf(names)[i])
    ensures forall a :: a in names ==> a in DictOf(names)
  {
    hide Assign;
    if names != [] {
      DictOfKeeps(names[..|names| - 1], t);
      AssignKeeps(DictOf(names[..|names| - 1]), names[|names| - 1], t);
      assert names == names[..|names| - 1] + [names[|names| - 1]];
    }
  }

  /** Loading the names makes any store coherent. */
  lemma LoadedIsCoherent(t: Table, names: seq<Ident>)
    requires IsTable(t) && Lists(t, names)
    ensures Coherent(Loaded(names), t)
  {
    hide PutAll, DictOf;
    DictOfKeeps(names, t);
    PutAllAgrees(map[], t, DictOf(names));
    forall nid | nid in t ensures Knows(Loaded(names), t, nid) {
      var i :| 0 <= i < |names| && names[i].nid == nid;
      assert names[i] in DictOf(names);
      var j :| 0 <= j < |DictOf(names)| && DictOf(names)[j] == names[i];
    }
  }

  lemma GrowsCoherent(m: map<Name, nat>, t: Table, blocks: seq<Ident>, u: Table)
    requires IsTable(t) && Coherent(m, t) && Answers(t, Discover(blocks), u)
    ensures Coherent(SyncAll(m, blocks), u)
  {
    hide SyncAll;
    assert Agrees(m, u);
    forall nid | nid in t ensures Knows(m, u, nid) {
      assert Knows(m, t, nid);
    }
    SyncAllAgrees(m, u, blocks);
    forall nid | nid in u ensures Knows(SyncAll(m, blocks), u, nid) {
      if nid !in t {
        var i :| 0 <= i < |blocks| && blocks[i].nid == nid;
        assert HasName(blocks[i]);
      }
    }
  }

  lemma CreatedCoherent(m: map<Name, nat>, t: Table, b: Ident, u: Table)
    requires IsTable(t) && Coherent(m, t) && Answers(t, Create(b), u)
    ensures Coherent(Sync(m, b), u)
  {
    hide Sync;
    assert [b][0].nid == b.nid;
    assert Answers(t, Discover([b]), u);
    GrowsCoherent(m, t, [b], u);
    assert [b][..0] == [];
    assert SyncAll(m, [b]) == Sync(SyncAll(m, []), b);
  }

  lemma RenamedCoherent(m: map<Name, nat>, t: Table, b: Ident, u: Table)
    requires IsTable(t) && Coherent(m, t) && Answers(t, Rename(b), u)
    ensures Coherent(Put(m, b.id, b.nid), u)
  {
    var r := Put(m, b.id, b.nid);
    forall name | name in r ensures r[name] in u && name == Some(u[r[name]]) {
    }
    forall nid | nid in u ensures Knows(r, u, nid) {
      assert Knows(m, t, nid);
      if nid != b.nid {
        assert u[nid] != u[b.nid];
      }
    }
  }

  lemma DeletedCoherent(m: map<Name, nat>, t: Table, nid: nat, u: Table)
    requires IsTable(t) && Coherent(m, t) && Answers(t, Delete(nid), u)
    ensures Coherent(After(m, Delete(nid)), u)
  {
    CoherentIsBijection(m, t);
    forall n | n in u ensures Knows(After(m, Delete(nid)), u, n) {
      assert Knows(m, t, n);
    }
  }

  /** Every answered call keeps the store coherent with the controller. */
  lemma AnswerKeepsCoherent(m: map<Name, nat>, t: Table, call: Call, u: Table)
    requires IsTable(t) && Coherent(m, t) && Answers(t, call, u)
    ensures Coherent(After(m, call), u)
  {
    hide Coherent, Sync, SyncAll, Put, Loaded, Lists;
    match call
    case Create(b) => CreatedCoherent(m, t, b, u);
    case Read(b) => MentionedCoherent(m, t, [b]); OneSync(m, b);
    case Write(b) => MentionedCoherent(m, t, [b]); OneSync(m, b);
    case ReadAll(blocks) => MentionedCoherent(m, t, blocks);
    case Discover(blocks) => GrowsCoherent(m, t, blocks, u);
    case Rename(b) => RenamedCoherent(m, t, b, u);
    case Delete(nid) => DeletedCoherent(m, t, nid, u);
    case Clear(_, names) => LoadedIsCoherent(u, names);
    case ApplyBackup(_, _, _, names) => LoadedIsCoherent(u, names);
  }

  lemma OneSync(m: map<Name, nat>, b: Ident)
    ensures SyncAll(m, [b]) == Sync(m, b)
  {
    hide Sync;
    assert [b][..0] == [];
    assert SyncAll(m, [b]) == Sync(SyncAll(m, []), b);
  }

  lemma MentionedCoherent(m: map<Name, nat>, t: Table, blocks: seq<Ident>)
    requires IsTable(t) && Coherent(m, t) && forall i :: 0 <= i < |blocks| ==> Mentions(t, blocks[i])
    ensures Coherent(SyncAll(m, blocks), t)
  {
    hide SyncAll;
    SyncAllAgrees(m, t, blocks);
  }

  // ---- Runs ------------------------------------------------------------------------------------------

  /** Calls that are answered one after the other, and the controller's table before and after each. */
  ghost predicate IsRun(calls: seq<Call>, tables: seq<Table>) {
    && |tables| == |calls| + 1 && IsTable(tables[0])
    && forall i :: 0 <= i < |calls| ==> Answers(tables[i], calls[i], tables[i + 1])
  }

  ghost function AfterAll(m: map<Name, nat>, calls: seq<Call>): map<Name, nat> {
    if calls == [] then m else After(AfterAll(m, calls[..|calls| - 1]), calls[|calls| - 1])
  }

  /** After every run from loaded names the store is a bijection that equals the controller's table. */
  lemma {:induction false} RunIsCoherent(names: seq<Ident>, calls: seq<Call>, tables: seq<Table>)
    requires IsRun(calls, tables) && Lists(tables[0], names)
    ensures Coherent(AfterAll(Loaded(names), calls), tables[|calls|])
    ensures IsInjective(AfterAll(Loaded(names), calls))
    ensures IsTable(tables[|calls|])
  {
    hide Coherent, After, Lists, Loaded, IsInjective;
    var n := |calls|;
    if n == 0 {
      LoadedIsCoherent(tables[0], names);
    } else {
      RunIsCoherent(names, calls[..n - 1], tables[..n]);
      AnswerKeepsCoherent(AfterAll(Loaded(names), calls[..n - 1]), tables[n - 1], calls[n - 1], tables[n]);
    }
    CoherentIsBijection(AfterAll(Loaded(names), calls), tables[n]);
  }
}
