/** Which relations are calculated, in terms of the blocks alone. */
module RelationsExact {
  import opened Claims
  import opened ClaimsExact
  import opened Data
  import opened Relations
  import opened Wrappers

  /** A place in the data of a block. */
  datatype Place = Place(block: nat, pos: Position)

  /** A link that is a relation, in a block that is not of an ignored type. */
  ghost predicate IsPlace(blocks: seq<Block>, p: Place) {
    && p.block < |blocks| && blocks[p.block].blockType != "DisplaySettings"
    && IsRelation(Dict(blocks[p.block].data), p.pos)
  }

  predicate PlaceBefore(a: Place, b: Place) {
    a.block < b.block || (a.block == b.block && Before(a.pos, b.pos))
  }

  ghost predicate PlacesInOrder(ps: seq<Place>) {
    forall i, j :: 0 <= i < j < |ps| ==> PlaceBefore(ps[i], ps[j])
  }

  ghost predicate ArePlaces(blocks: seq<Block>, ps: seq<Place>, rs: seq<Relation>) {
    && |ps| == |rs|
    && forall k :: 0 <= k < |ps| ==>
                     && IsPlace(blocks, ps[k])
                     && Relates(blocks[ps[k].block].id, [], Dict(blocks[ps[k].block].data), ps[k].pos, rs[k])
  }

  ghost predicate HasPlacesBelow(blocks: seq<Block>, ps: seq<Place>, n: nat) {
    && (forall k :: 0 <= k < |ps| ==> ps[k].block < n)
    && forall p :: IsPlace(blocks, p) && p.block < n ==> p in ps
  }

  function PlacesIn(b: nat, positions: seq<Position>): (ps: seq<Place>)
    ensures |ps| == |positions| && forall k :: 0 <= k < |ps| ==> ps[k] == Place(b, positions[k])
  {
    seq(|positions|, k requires 0 <= k < |positions| => Place(b, positions[k]))
  }

  lemma AddRelated(blocks: seq<Block>, ps: seq<Place>, rs: seq<Relation>, n: nat, positions: seq<Position>,
                   found: seq<Relation>)
    requires n < |blocks| && blocks[n].blockType !in IGNORED_RELATION_TYPES && ArePlaces(blocks, ps, rs)
    requires AllRelate(blocks[n].id, [], Dict(blocks[n].data), positions, found)
    requires forall pos :: pos in positions <==> IsRelation(Dict(blocks[n].data), pos)
    ensures ArePlaces(blocks, ps + PlacesIn(n, positions), rs + found)
  {
    hide IsRelation, Relates, PlacesIn;
    var more, all := ps + PlacesIn(n, positions), rs + found;
    forall k | 0 <= k < |more|
      ensures IsPlace(blocks, more[k])
      ensures Relates(blocks[more[k].block].id, [], Dict(blocks[more[k].block].data), more[k].pos, all[k])
    {
      if k < |ps| {
        assert more[k] == ps[k] && all[k] == rs[k];
      } else {
        var i := k - |ps|;
        assert more[k] == Place(n, positions[i]) && all[k] == found[i];
        assert positions[i] in positions;
      }
    }
  }

  lemma AddInOrder(ps: seq<Place>, n: nat, positions: seq<Position>)
    requires PlacesInOrder(ps) && InOrder(positions) && forall k :: 0 <= k < |ps| ==> ps[k].block < n
    ensures PlacesInOrder(ps + PlacesIn(n, positions))
  {
    hide Before, PlacesIn;
    var more := ps + PlacesIn(n, positions);
    forall i, j | 0 <= i < j < |more| ensures PlaceBefore(more[i], more[j]) {
      if |ps| <= i {
        assert Before(positions[i - |ps|], positions[j - |ps|]);
      }
    }
  }

  lemma AddBelow(blocks: seq<Block>, ps: seq<Place>, n: nat, positions: seq<Position>)
    requires n < |blocks| && HasPlacesBelow(blocks, ps, n)
    requires forall pos :: pos in positions <==> IsRelation(Dict(blocks[n].data), pos)
    ensures HasPlacesBelow(blocks, ps + PlacesIn(n, positions), n + 1)
  {
    hide IsRelation, PlacesIn;
    var more := ps + PlacesIn(n, positions);
    forall p | IsPlace(blocks, p) && p.block < n + 1 ensures p in more {
      if p.block == n {
        var k :| 0 <= k < |positions| && positions[k] == p.pos;
        assert more[|ps| + k] == p;
      } else {
        assert p in ps;
      }
    }
  }

  lemma SkipBlock(blocks: seq<Block>, ps: seq<Place>, n: nat)
    requires n < |blocks| && blocks[n].blockType in IGNORED_RELATION_TYPES && HasPlacesBelow(blocks, ps, n)
    ensures HasPlacesBelow(blocks, ps, n + 1)
  {
    hide IsRelation;
  }

  lemma PlacesBelow(blocks: seq<Block>, ps: seq<Place>, n: nat)
    requires HasPlacesBelow(blocks, ps, n)
    ensures forall k :: 0 <= k < |ps| ==> ps[k].block < n
  {
    hide IsRelation;
  }

  lemma NextRelations(blocks: seq<Block>, n: nat)
    requires n < |blocks|
    ensures AllRelations(blocks[..n + 1]) ==
            AllRelations(blocks[..n])
            + if blocks[n].blockType in IGNORED_RELATION_TYPES then []
              else NestedRelations(blocks[n].id, [], Dict(blocks[n].data))
  {
    hide NestedRelations;
    assert blocks[..n + 1][..n] == blocks[..n];
  }

  lemma {:induction false} PlacesOf(blocks: seq<Block>, n: nat) returns (ps: seq<Place>)
    requires n <= |blocks|
    ensures ArePlaces(blocks, ps, AllRelations(blocks[..n])) && PlacesInOrder(ps) && HasPlacesBelow(blocks, ps, n)
    decreases n
  {
    hide IsRelation, Relates, Before, NestedRelations, Positions, AllRelate;
    if n == 0 {
      ps := [];
    } else {
      hide ArePlaces, HasPlacesBelow, PlacesInOrder, AllRelations;
      ps := PlacesOf(blocks, n - 1);
      NextRelations(blocks, n - 1);
      var b, earlier := blocks[n - 1], AllRelations(blocks[..n - 1]);
      if b.blockType in IGNORED_RELATION_TYPES {
        SkipBlock(blocks, ps, n - 1);
        assert earlier + [] == earlier;
      } else {
        var v := Dict(b.data);
        Relations.RelationsExact(b.id, v);
        AddRelated(blocks, ps, earlier, n - 1, Positions([], v), NestedRelations(b.id, [], v));
        PlacesBelow(blocks, ps, n - 1);
        AddInOrder(ps, n - 1, Positions([], v));
        AddBelow(blocks, ps, n - 1, Positions([], v));
        ps := ps + PlacesIn(n - 1, Positions([], v));
      }
    }
  }

  // ---- Claimed relations ------------------------------------------------------------------

  /** Some block with the target's id has a `claimedBy` link that names the source. */
  ghost predicate IsClaimReported(blocks: seq<Block>, r: Relation) {
    exists b :: 0 <= b < |blocks| && blocks[b].id == r.target && BlockNames(blocks[b], r.source)
  }

  lemma ReportedExactly(blocks: seq<Block>, r: Relation)
    requires ReadableBlocks(blocks)
    ensures IsReported(blocks, r) <==> IsClaimReported(blocks, r)
  {
    hide ClaimerOf, BlockNames, IsClaimedBlock, ReadableBlock, Get;
    forall b: nat | b < |blocks|
      ensures ReadableLink(Get(blocks[b].data, "claimedBy"))
      ensures ClaimerOf(Get(blocks[b].data, "claimedBy")) == Some(r.source) <==> BlockNames(blocks[b], r.source)
    {
      BlockClaimer(blocks, b);
    }
  }

  /** No earlier relation has the same source and target. */
  ghost predicate IsFirst(rs: seq<Relation>, k: nat)
    requires k < |rs|
  {
    forall j :: 0 <= j < k ==> rs[j].source != rs[k].source || rs[j].target != rs[k].target
  }

  /**
   * The calculated relations are, in order and once each, those of all defined links in blocks that are not of an
   * ignored type, outside other bloxfields and not below ignored keys. A relation is claimed exactly if it is the first
   * of its pair and its target is claimed by its source.
   */
  lemma CalculatedExactly(blocks: seq<Block>, relations: seq<Relation>) returns (places: seq<Place>)
    requires ReadableBlocks(blocks) && Marked(blocks, AllRelations(blocks), relations)
    ensures |places| == |relations| && PlacesInOrder(places)
    ensures forall k :: 0 <= k < |places| ==>
                          && IsPlace(blocks, places[k])
                          && var b := blocks[places[k].block];
                             Relates(b.id, [], Dict(b.data), places[k].pos, relations[k].(claimed := false))
    ensures forall p :: IsPlace(blocks, p) ==> p in places
    ensures forall i, j :: 0 <= i < j < |places| ==> places[i] != places[j]
    ensures forall k :: 0 <= k < |relations| ==>
                          (relations[k].claimed <==> IsFirst(relations, k) && IsClaimReported(blocks, relations[k]))
  {
    hide IsRelation, AllRelations, IsReported, IsClaimReported, Before, ReadableBlock;
    assert blocks[..|blocks|] == blocks;
    places := PlacesOf(blocks, |blocks|);
    var found := AllRelations(blocks);
    forall k | 0 <= k < |found|
      ensures relations[k].(claimed := false) == found[k]
      ensures relations[k].claimed <==> IsFirst(relations, k) && IsClaimReported(blocks, relations[k])
    {
      assert Relates(blocks[places[k].block].id, [], Dict(blocks[places[k].block].data), places[k].pos, found[k]);
      SameReport(blocks, found[k], relations[k]);
      ReportedExactly(blocks, found[k]);
      assert relations[k].claimed == IsClaimed(blocks, found, k);
      FirstExactly(found, relations, k);
    }
    forall p | IsPlace(blocks, p) ensures p in places {
      PlaceInRange(blocks, p);
    }
    forall i, j | 0 <= i < j < |places| ensures places[i] != places[j] {
      OrderIsStrict(places[i].pos);
    }
  }

  lemma SameReport(blocks: seq<Block>, a: Relation, b: Relation)
    requires a.source == b.source && a.target == b.target
    ensures IsClaimReported(blocks, a) <==> IsClaimReported(blocks, b)
  {
    hide BlockNames;
  }

  lemma FirstExactly(found: seq<Relation>, rs: seq<Relation>, k: nat)
    requires |found| == |rs| && k < |rs|
    requires forall j :: 0 <= j < |rs| ==> rs[j].source == found[j].source && rs[j].target == found[j].target
    ensures IsFirstPair(found, k) <==> IsFirst(rs, k)
  {
    if !IsFirst(rs, k) {
      var j :| 0 <= j < k && rs[j].source == rs[k].source && rs[j].target == rs[k].target;
      assert IsPair(found[j], found[k].source, found[k].target);
    }
  }

  lemma PlaceInRange(blocks: seq<Block>, p: Place)
    requires IsPlace(blocks, p)
    ensures p.block < |blocks|
  {
  }
}
