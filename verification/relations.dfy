/** Relations between blocks: the links in their data. */
module Relations {
  import opened Text
  import opened Wrappers
  import opened Data
  import Claims

  const IGNORED_RELATION_TYPES := ["DisplaySettings"]
  const IGNORED_RELATION_FIELDS := ["claimedBy", "oneWireBusId", "clients"]
  const INVERTED_RELATION_FIELDS := ["inputId", "referenceId", "sensorId", "analog", "digital"]

  datatype Relation = Relation(source: string, target: string, claimed: bool, relation: seq<string>)

  // ---- Traversal ------------------------------------------------------------------

  predicate IsIgnored(path: seq<string>) {
    path != [] && path[|path| - 1] in IGNORED_RELATION_FIELDS
  }

  /** Block ids in links are text. */
  function IdOf(link: Value): string
    requires IsDefinedLink(link)
  {
    var id := Get(link.entries, "id").value;
    if id.Str? then id.s else ""
  }

  function LinkRelation(parent: string, path: seq<string>, link: Value): Relation
    requires IsDefinedLink(link)
  {
    if path != [] && path[0] in INVERTED_RELATION_FIELDS then Relation(IdOf(link), parent, false, path)
    else Relation(parent, IdOf(link), false, path)
  }

  /** List indexes are path elements too. */
  function ChildKey(v: Value, i: nat): string
    requires i < ChildCount(v)
  {
    if v.Dict? then v.entries[i].key else PrintNat(i)
  }

  /** `_find_nested_relations` */
  function NestedRelations(parent: string, path: seq<string>, field: Value): seq<Relation>
    decreases field, 1, 0
  {
    if IsIgnored(path) then []
    else if IsDefinedLink(field) then [LinkRelation(parent, path, field)]
    else if IsBloxfield(field) then []
    else ChildRelations(parent, path, field, ChildCount(field))
  }

  /** The output collected from the first `n` children. */
  function ChildRelations(parent: string, path: seq<string>, field: Value, n: nat): seq<Relation>
    requires n <= ChildCount(field)
    decreases field, 0, n
  {
    if n == 0 then []
    else
      ChildRelations(parent, path, field, n - 1)
      + NestedRelations(parent, path + [ChildKey(field, n - 1)], ChildAt(field, n - 1))
  }

  method FindNestedRelations(parent: string, path: seq<string>, field: Value) returns (output: seq<Relation>)
    ensures output == NestedRelations(parent, path, field)
    decreases field
  {
    output := [];
    if IsIgnored(path) {
      return;
    }
    if IsDefinedLink(field) {
      return [LinkRelation(parent, path, field)];
    }
    if IsBloxfield(field) {
      return;
    }
    for i := 0 to ChildCount(field)
      invariant output == ChildRelations(parent, path, field, i)
    {
      var nested := FindNestedRelations(parent, path + [ChildKey(field, i)], ChildAt(field, i));
      output := output + nested;
    }
  }

  // ---- Which links are relations ----------------------------------------------------

  /** A place in nested data: the child to take at each level. */
  type Position = seq<nat>

  function NodeAt(v: Value, pos: Position): Option<Value> {
    if pos == [] then Some(v)
    else if pos[0] < ChildCount(v) then NodeAt(ChildAt(v, pos[0]), pos[1..])
    else None
  }

  function KeysTo(v: Value, pos: Position): (keys: seq<string>)
    requires NodeAt(v, pos).Some?
    ensures |keys| == |pos|
  {
    if pos == [] then [] else [ChildKey(v, pos[0])] + KeysTo(ChildAt(v, pos[0]), pos[1..])
  }

  /** A path has the keys of dicts and the indexes in lists, as text. */
  lemma {:induction false} PathExactly(v: Value, pos: Position, k: nat)
    requires NodeAt(v, pos).Some? && k < |pos|
    ensures NodeAt(v, pos[..k]).Some?
    ensures match NodeAt(v, pos[..k]).value
            case Dict(entries) => pos[k] < |entries| && KeysTo(v, pos)[k] == entries[pos[k]].key
            case List(items) =>
              pos[k] < |items| && AllDigits(KeysTo(v, pos)[k]) && ParseNat(KeysTo(v, pos)[k]) == pos[k]
            case _ => false
  {
    if k == 0 {
      if v.List? {
        ParsePrintNat(pos[0]);
      }
    } else {
      PathExactly(ChildAt(v, pos[0]), pos[1..], k - 1);
      assert pos[1..][..k - 1] == pos[..k][1..];
    }
  }

  /** A defined link that is not inside another bloxfield and not below an ignored key. */
  ghost predicate IsRelation(v: Value, pos: Position) {
    && NodeAt(v, pos).Some? && IsDefinedLink(NodeAt(v, pos).value)
    && (forall k :: 0 <= k < |pos| ==> NodeAt(v, pos[..k]).Some? && !IsBloxfield(NodeAt(v, pos[..k]).value))
    && (forall k :: 0 <= k < |pos| ==> KeysTo(v, pos)[k] !in ["claimedBy", "oneWireBusId", "clients"])
  }

  /** Document order. */
  predicate Before(a: Position, b: Position) {
    b != [] && (a == [] || a[0] < b[0] || (a[0] == b[0] && Before(a[1..], b[1..])))
  }

  ghost predicate InOrder(ps: seq<Position>) {
    forall i, j :: 0 <= i < j < |ps| ==> Before(ps[i], ps[j])
  }

  // ---- The positions that the traversal reports -------------------------------------

  function Below(i: nat, ps: seq<Position>): (r: seq<Position>)
    ensures |r| == |ps|
  {
    seq(|ps|, k requires 0 <= k < |ps| => [i] + ps[k])
  }

  function Positions(path: seq<string>, field: Value): seq<Position>
    decreases field, 1, 0
  {
    if IsIgnored(path) then []
    else if IsDefinedLink(field) then [[]]
    else if IsBloxfield(field) then []
    else ChildPositions(path, field, ChildCount(field))
  }

  function ChildPositions(path: seq<string>, field: Value, n: nat): seq<Position>
    requires n <= ChildCount(field)
    decreases field, 0, n
  {
    if n == 0 then []
    else
      ChildPositions(path, field, n - 1)
      + Below(n - 1, Positions(path + [ChildKey(field, n - 1)], ChildAt(field, n - 1)))
  }

  /** The link at `pos` is related to `parent`, which is the target if the path starts with a listed key. */
  ghost predicate Relates(parent: string, path: seq<string>, v: Value, pos: Position, r: Relation) {
    && NodeAt(v, pos).Some? && IsDefinedLink(NodeAt(v, pos).value)
    && r.relation == path + KeysTo(v, pos) && !r.claimed
    && forall x :: Get(NodeAt(v, pos).value.entries, "id") == Some(Str(x)) ==>
                     if r.relation != [] && r.relation[0] in ["inputId", "referenceId", "sensorId", "analog", "digital"]
                     then r.source == x && r.target == parent
                     else r.source == parent && r.target == x
  }

  lemma LinkRelates(parent: string, path: seq<string>, link: Value)
    requires IsDefinedLink(link)
    ensures Relates(parent, path, link, [], LinkRelation(parent, path, link))
  {
    hide Get;
    assert path + [] == path;
  }

  ghost predicate AllRelate(parent: string, path: seq<string>, v: Value, ps: seq<Position>, rs: seq<Relation>) {
    |ps| == |rs| && forall k :: 0 <= k < |ps| ==> Relates(parent, path, v, ps[k], rs[k])
  }

  lemma RelatesBelow(parent: string, path: seq<string>, v: Value, i: nat, pos: Position, r: Relation)
    requires i < ChildCount(v) && Relates(parent, path + [ChildKey(v, i)], ChildAt(v, i), pos, r)
    ensures Relates(parent, path, v, [i] + pos, r)
  {
    assert ([i] + pos)[1..] == pos;
    assert path + ([ChildKey(v, i)] + KeysTo(ChildAt(v, i), pos)) ==
      path + [ChildKey(v, i)] + KeysTo(ChildAt(v, i), pos);
  }

  lemma {:induction false} PositionsRelate(parent: string, path: seq<string>, v: Value)
    ensures AllRelate(parent, path, v, Positions(path, v), NestedRelations(parent, path, v))
    decreases v, 1, 0
  {
    if IsIgnored(path) {
    } else if IsDefinedLink(v) {
      LinkRelates(parent, path, v);
    } else if !IsBloxfield(v) {
      ChildPositionsRelate(parent, path, v, ChildCount(v));
    }
  }

  lemma {:induction false} ChildPositionsRelate(parent: string, path: seq<string>, v: Value, n: nat)
    requires n <= ChildCount(v)
    ensures AllRelate(parent, path, v, ChildPositions(path, v, n), ChildRelations(parent, path, v, n))
    decreases v, 0, n
  {
    hide Relates, Positions, NestedRelations, ChildKey;
    if n > 0 {
      ChildPositionsRelate(parent, path, v, n - 1);
      var key, child := ChildKey(v, n - 1), ChildAt(v, n - 1);
      PositionsRelate(parent, path + [key], child);
      var ps, rs := Positions(path + [key], child), NestedRelations(parent, path + [key], child);
      forall k | 0 <= k < |ps| ensures Relates(parent, path, v, Below(n - 1, ps)[k], rs[k]) {
        RelatesBelow(parent, path, v, n - 1, ps[k], rs[k]);
      }
    }
  }

  lemma BelowInOrder(i: nat, ps: seq<Position>)
    requires InOrder(ps)
    ensures InOrder(Below(i, ps))
  {
    var r := Below(i, ps);
    forall a, b | 0 <= a < b < |ps| ensures Before(r[a], r[b]) {
      assert r[a][1..] == ps[a] && r[b][1..] == ps[b];
    }
  }

  lemma {:induction false} PositionsInOrder(path: seq<string>, v: Value)
    ensures InOrder(Positions(path, v))
    decreases v, 1, 0
  {
    if !IsIgnored(path) && !IsDefinedLink(v) && !IsBloxfield(v) {
      ChildPositionsInOrder(path, v, ChildCount(v));
    }
  }

  lemma {:induction false} ChildPositionsInOrder(path: seq<string>, v: Value, n: nat)
    requires n <= ChildCount(v)
    ensures InOrder(ChildPositions(path, v, n))
    ensures forall k :: 0 <= k < |ChildPositions(path, v, n)| ==>
                          ChildPositions(path, v, n)[k] != [] && ChildPositions(path, v, n)[k][0] < n
    decreases v, 0, n
  {
    if n > 0 {
      hide Positions, ChildKey;
      ChildPositionsInOrder(path, v, n - 1);
      PositionsInOrder(path + [ChildKey(v, n - 1)], ChildAt(v, n - 1));
      BelowInOrder(n - 1, Positions(path + [ChildKey(v, n - 1)], ChildAt(v, n - 1)));
    }
  }

  /** `IsRelation`, one level at a time. */
  predicate Visible(path: seq<string>, v: Value, pos: Position)
    decreases |pos|
  {
    && !IsIgnored(path)
    && if pos == [] then IsDefinedLink(v)
       else
         && !IsBloxfield(v) && pos[0] < ChildCount(v)
         && Visible(path + [ChildKey(v, pos[0])], ChildAt(v, pos[0]), pos[1..])
  }

  lemma {:induction false} PositionsVisible(path: seq<string>, v: Value, pos: Position)
    ensures pos in Positions(path, v) <==> Visible(path, v, pos)
    decreases v, 1, 0
  {
    if !IsIgnored(path) && !IsBloxfield(v) {
      ChildPositionsVisible(path, v, ChildCount(v), pos);
    }
  }

  lemma {:induction false} ChildPositionsVisible(path: seq<string>, v: Value, n: nat, pos: Position)
    requires n <= ChildCount(v)
    ensures pos in ChildPositions(path, v, n) <==>
            pos != [] && pos[0] < n && Visible(path + [ChildKey(v, pos[0])], ChildAt(v, pos[0]), pos[1..])
    decreases v, 0, n
  {
    hide Positions, ChildKey, Visible, Below;
    if n > 0 {
      ChildPositionsVisible(path, v, n - 1, pos);
      InBelow(n - 1, Positions(path + [ChildKey(v, n - 1)], ChildAt(v, n - 1)), pos);
      if pos != [] {
        PositionsVisible(path + [ChildKey(v, n - 1)], ChildAt(v, n - 1), pos[1..]);
      }
    }
  }

  lemma InBelow(i: nat, ps: seq<Position>, pos: Position)
    ensures pos in Below(i, ps) <==> pos != [] && pos[0] == i && pos[1..] in ps
  {
    var below := Below(i, ps);
    if pos != [] && pos[0] == i && pos[1..] in ps {
      var k :| 0 <= k < |ps| && ps[k] == pos[1..];
      assert below[k] == pos;
    }
    if pos in below {
      var k :| 0 <= k < |below| && below[k] == pos;
      assert pos[1..] == ps[k];
    }
  }

  lemma {:induction false} VisibleIsRelation(path: seq<string>, v: Value, pos: Position)
    requires !IsIgnored(path)
    ensures Visible(path, v, pos) <==> IsRelation(v, pos)
    decreases |pos|
  {
    if pos != [] {
      if pos[0] < ChildCount(v) {
        var key, child, rest := ChildKey(v, pos[0]), ChildAt(v, pos[0]), pos[1..];
        if !IsIgnored(path + [key]) {
          VisibleIsRelation(path + [key], child, rest);
        }
        RelationStep(v, pos);
      }
    }
  }

  lemma RelationStep(v: Value, pos: Position)
    requires pos != [] && pos[0] < ChildCount(v)
    ensures IsRelation(v, pos) <==>
            !IsBloxfield(v) && ChildKey(v, pos[0]) !in IGNORED_RELATION_FIELDS &&
              IsRelation(ChildAt(v, pos[0]), pos[1..])
  {
    var child, rest := ChildAt(v, pos[0]), pos[1..];
    assert forall k :: 0 < k <= |pos| ==> pos[..k][1..] == rest[..k - 1];
    assert forall k :: 0 < k <= |pos| ==> NodeAt(v, pos[..k]) == NodeAt(child, rest[..k - 1]);
    assert NodeAt(v, pos[..0]) == Some(v);
    if NodeAt(v, pos).Some? {
      assert KeysTo(v, pos) == [ChildKey(v, pos[0])] + KeysTo(child, rest);
    }
    if IsRelation(v, pos) {
      forall k | 0 <= k < |rest|
        ensures NodeAt(child, rest[..k]).Some? && !IsBloxfield(NodeAt(child, rest[..k]).value)
        ensures KeysTo(child, rest)[k] !in IGNORED_RELATION_FIELDS
      {
        assert NodeAt(v, pos[..k + 1]) == NodeAt(child, rest[..k]);
        assert KeysTo(child, rest)[k] == KeysTo(v, pos)[k + 1];
      }
      assert ChildKey(v, pos[0]) == KeysTo(v, pos)[0];
    }
  }

  lemma {:induction false} OrderIsStrict(a: Position)
    ensures !Before(a, a)
  {
    if a != [] {
      OrderIsStrict(a[1..]);
    }
  }

  /**
   * The relations found in a block's data are, in document order and once each, the defined links that are not inside
   * another bloxfield and not below an ignored key.
   */
  lemma RelationsExact(parent: string, v: Value)
    ensures AllRelate(parent, [], v, Positions([], v), NestedRelations(parent, [], v))
    ensures InOrder(Positions([], v))
    ensures forall pos :: pos in Positions([], v) <==> IsRelation(v, pos)
    ensures forall i, j :: 0 <= i < j < |Positions([], v)| ==> Positions([], v)[i] != Positions([], v)[j]
  {
    hide Positions, IsRelation, AllRelate, NestedRelations, Visible;
    PositionsRelate(parent, [], v);
    PositionsInOrder([], v);
    forall i, j | 0 <= i < j < |Positions([], v)| ensures Positions([], v)[i] != Positions([], v)[j] {
      OrderIsStrict(Positions([], v)[i]);
    }
    forall pos ensures pos in Positions([], v) <==> IsRelation(v, pos) {
      PositionsVisible([], v, pos);
      VisibleIsRelation([], v, pos);
    }
  }

  // ---- Relations of a list of blocks ---------------------------------------------------

  function AllRelations(blocks: seq<Claims.Block>): seq<Relation> {
    if blocks == [] then []
    else
      var b := blocks[|blocks| - 1];
      AllRelations(blocks[..|blocks| - 1])
      + if b.blockType in IGNORED_RELATION_TYPES then [] else NestedRelations(b.id, [], Dict(b.data))
  }

  predicate IsPair(r: Relation, source: string, target: string) {
    r.source == source && r.target == target
  }

  /** `k` is the first relation with its source and target. */
  predicate IsFirstPair(rs: seq<Relation>, k: nat)
    requires k < |rs|
  {
    forall j :: 0 <= j < k ==> !IsPair(rs[j], rs[k].source, rs[k].target)
  }

  /** Some block reports the source of `r` as its claimer, and is the target of `r`. */
  predicate IsReported(blocks: seq<Claims.Block>, r: Relation)
    requires Claims.ReadableBlocks(blocks)
  {
    exists b :: 0 <= b < |blocks| && blocks[b].id == r.target
                && Claims.ClaimerOf(Get(blocks[b].data, "claimedBy")) == Some(r.source)
  }

  predicate IsClaimed(blocks: seq<Claims.Block>, rs: seq<Relation>, k: nat)
    requires Claims.ReadableBlocks(blocks) && k < |rs|
  {
    IsFirstPair(rs, k) && IsReported(blocks, rs[k])
  }

  ghost predicate Marked(blocks: seq<Claims.Block>, found: seq<Relation>, rs: seq<Relation>)
    requires Claims.ReadableBlocks(blocks)
  {
    |rs| == |found| && forall k :: 0 <= k < |rs| ==> rs[k] == found[k].(claimed := IsClaimed(blocks, found, k))
  }

  method CollectRelations(blocks: seq<Claims.Block>) returns (relations: seq<Relation>)
    ensures relations == AllRelations(blocks)
  {
    relations := [];
    for i := 0 to |blocks|
      invariant relations == AllRelations(blocks[..i])
    {
      assert blocks[..i + 1][..i] == blocks[..i];
      if blocks[i].blockType !in IGNORED_RELATION_TYPES {
        var found := FindNestedRelations(blocks[i].id, [], Dict(blocks[i].data));
        relations := relations + found;
      }
    }
    assert blocks[..|blocks|] == blocks;
  }

  /** The inner loop: marks the first relation of the pair, if there is one. */
  method MarkFirst(relations: seq<Relation>, source: string, target: string) returns (marked: seq<Relation>)
    ensures |marked| == |relations|
    ensures forall k :: 0 <= k < |relations| ==>
                          marked[k] == if IsPair(relations[k], source, target) && IsFirstPair(relations, k)
                                       then relations[k].(claimed := true) else relations[k]
  {
    marked := relations;
    for k := 0 to |relations|
      invariant marked == relations
      invariant forall j :: 0 <= j < k ==> !IsPair(relations[j], source, target)
    {
      if IsPair(relations[k], source, target) {
        marked := marked[k := relations[k].(claimed := true)];
        return;
      }
    }
  }

  lemma MarkedGrows(blocks: seq<Claims.Block>, i: nat, found: seq<Relation>, rs: seq<Relation>, marked: seq<Relation>)
    requires Claims.ReadableBlocks(blocks) && i < |blocks| && Marked(blocks[..i], found, rs)
    requires var claimer := Claims.ClaimerOf(Get(blocks[i].data, "claimedBy"));
             |marked| == |rs| &&
             forall k :: 0 <= k < |rs| ==>
               marked[k] == if claimer.Some? && IsPair(rs[k], claimer.value, blocks[i].id) && IsFirstPair(rs, k)
                            then rs[k].(claimed := true) else rs[k]
    ensures Marked(blocks[..i + 1], found, marked)
  {
    forall k | 0 <= k < |rs| ensures marked[k] == found[k].(claimed := IsClaimed(blocks[..i + 1], found, k)) {
      assert IsFirstPair(rs, k) == IsFirstPair(found, k) by {
        assert forall j :: 0 <= j <= k ==> rs[j].source == found[j].source && rs[j].target == found[j].target;
      }
      ReportedGrows(blocks, i, found[k]);
    }
  }

  lemma ReportedGrows(blocks: seq<Claims.Block>, i: nat, r: Relation)
    requires Claims.ReadableBlocks(blocks) && i < |blocks|
    ensures IsReported(blocks[..i + 1], r) <==>
            IsReported(blocks[..i], r)
            || (blocks[i].id == r.target && Claims.ClaimerOf(Get(blocks[i].data, "claimedBy")) == Some(r.source))
  {
    var short, long := blocks[..i], blocks[..i + 1];
    assert long[i] == blocks[i];
    assert forall b :: 0 <= b < i ==> long[b] == short[b];
  }

  /** A relation is claimed exactly when it is the first of its pair and a block reports that pair as its claim. */
  method CalculateRelations(blocks: seq<Claims.Block>) returns (relations: seq<Relation>)
    requires Claims.ReadableBlocks(blocks)
    ensures Marked(blocks, AllRelations(blocks), relations)
  {
    hide Marked, AllRelations, Get, Claims.ClaimerOf;
    relations := CollectRelations(blocks);
    ghost var found := relations;
    AllUnclaimed(blocks);
    NothingMarked(blocks, found);
    for i := 0 to |blocks|
      invariant Marked(blocks[..i], found, relations)
    {
      var claimer := Claims.ClaimerOf(Get(blocks[i].data, "claimedBy"));
      ghost var before := relations;
      if claimer.Some? {
        relations := MarkFirst(relations, claimer.value, blocks[i].id);
      }
      MarkedGrows(blocks, i, found, before, relations);
    }
    assert blocks[..|blocks|] == blocks;
  }

  lemma NothingMarked(blocks: seq<Claims.Block>, found: seq<Relation>)
    requires Claims.ReadableBlocks(blocks) && forall k :: 0 <= k < |found| ==> !found[k].claimed
    ensures Marked(blocks[..0], found, found)
  {
    hide Claims.ClaimerOf, Get;
  }

  lemma {:induction false} AllUnclaimed(blocks: seq<Claims.Block>)
    ensures forall k :: 0 <= k < |AllRelations(blocks)| ==> !AllRelations(blocks)[k].claimed
  {
    if blocks != [] {
      var b := blocks[|blocks| - 1];
      AllUnclaimed(blocks[..|blocks| - 1]);
      PositionsRelate(b.id, [], Dict(b.data));
    }
  }
}
