/** Which claims are calculated, in terms of the blocks alone. */
module ClaimsExact {
  import opened Claims
  import opened Data
  import opened Wrappers

  // ---- Claims in block data ---------------------------------------------------------------

  /** A `claimedBy` link with the text `x` as its id. */
  predicate Names(link: Option<Value>, x: string) {
    link.Some? && link.value.Dict? && Get(link.value.entries, "id") == Some(Str(x)) && x != ""
  }

  lemma ClaimerExactly(link: Option<Value>)
    requires ReadableLink(link)
    ensures forall x :: ClaimerOf(link) == Some(x) <==> Names(link, x)
  {
    forall x ensures ClaimerOf(link) == Some(x) <==> Names(link, x) {
      if Names(link, x) {
        assert link.value.entries != [];
      }
    }
  }

  predicate BlockNames(b: Block, x: string) {
    Names(Get(b.data, "claimedBy"), x)
  }

  ghost predicate IsClaimedBlock(b: Block) {
    exists x :: BlockNames(b, x)
  }

  /** Where a claim comes from. */
  datatype Origin = OfBlock(block: nat) | OfChannel(block: nat, channel: nat)

  ghost predicate IsBlockClaim(blocks: seq<Block>, b: nat, x: string) {
    && b < |blocks| && BlockNames(blocks[b], x)
    && forall j :: b < j < |blocks| && blocks[j].id == blocks[b].id ==> !IsClaimedBlock(blocks[j])
  }

  predicate IsChannelClaim(blocks: seq<Block>, b: nat, c: nat, x: string) {
    && b < |blocks|
    && var channels := Get(blocks[b].data, "channels");
       && channels.Some? && channels.value.List? && c < |channels.value.items| && channels.value.items[c].Dict?
       && Names(Get(channels.value.items[c].entries, "claimedBy"), x)
  }

  /** A channel that is claimed by `x`, or the last listing of a block that is claimed by `x`. */
  ghost predicate IsClaim(blocks: seq<Block>, o: Origin, x: string) {
    match o
    case OfBlock(b) => IsBlockClaim(blocks, b, x)
    case OfChannel(b, c) => IsChannelClaim(blocks, b, c, x)
  }

  lemma BlockClaimer(blocks: seq<Block>, b: nat)
    requires ReadableBlocks(blocks) && b < |blocks|
    ensures ReadableLink(Get(blocks[b].data, "claimedBy"))
    ensures forall x :: ClaimerOf(Get(blocks[b].data, "claimedBy")) == Some(x) <==> BlockNames(blocks[b], x)
    ensures ClaimerOf(Get(blocks[b].data, "claimedBy")).Some? <==> IsClaimedBlock(blocks[b])
  {
    hide Get, ClaimerOf;
    assert ReadableBlock(blocks[b]);
    ClaimerExactly(Get(blocks[b].data, "claimedBy"));
    var claimer := ClaimerOf(Get(blocks[b].data, "claimedBy"));
    if claimer.Some? {
      assert BlockNames(blocks[b], claimer.value);
    }
  }

  // ---- The claim dict ----------------------------------------------------------------------

  /** The last listing of block `id` with a claim names `x`. */
  ghost predicate IsClaimedBy(blocks: seq<Block>, id: string, x: string) {
    exists b: nat :: b < |blocks| && blocks[b].id == id && IsBlockClaim(blocks, b, x)
  }

  predicate MapsTo(g: Graph, id: string, x: string) {
    id in g && g[id] == x
  }

  /** From every claimed block to the claimer in its last listing. */
  ghost predicate IsClaimDict(blocks: seq<Block>, g: Graph) {
    forall id, x :: MapsTo(g, id, x) <==> IsClaimedBy(blocks, id, x)
  }

  lemma EarlierClaim(blocks: seq<Block>, b: nat, x: string)
    requires b + 1 < |blocks|
    ensures var n := |blocks| - 1;
            IsBlockClaim(blocks, b, x) <==>
            IsBlockClaim(blocks[..n], b, x) && (blocks[n].id == blocks[b].id ==> !IsClaimedBlock(blocks[n]))
  {
    hide BlockNames, IsClaimedBlock;
    var n := |blocks| - 1;
    assert forall j :: 0 <= j < n ==> blocks[..n][j] == blocks[j];
  }

  lemma NewestClaim(blocks: seq<Block>, x: string)
    requires blocks != []
    ensures IsBlockClaim(blocks, |blocks| - 1, x) <==> BlockNames(blocks[|blocks| - 1], x)
    ensures BlockNames(blocks[|blocks| - 1], x) ==> IsClaimedBlock(blocks[|blocks| - 1])
  {
    hide BlockNames;
  }

  lemma ClaimedByStep(blocks: seq<Block>, id: string, x: string)
    requires blocks != []
    ensures var n := |blocks| - 1;
            IsClaimedBy(blocks, id, x) <==>
            if IsClaimedBlock(blocks[n]) && blocks[n].id == id then BlockNames(blocks[n], x)
            else IsClaimedBy(blocks[..n], id, x)
  {
    hide IsBlockClaim, BlockNames, IsClaimedBlock;
    var n := |blocks| - 1;
    NewestClaim(blocks, x);
    forall b: nat | b < n
      ensures blocks[..n][b] == blocks[b]
      ensures IsBlockClaim(blocks, b, x) <==>
              IsBlockClaim(blocks[..n], b, x) && (blocks[n].id == blocks[b].id ==> !IsClaimedBlock(blocks[n]))
    {
      EarlierClaim(blocks, b, x);
    }
    if IsClaimedBy(blocks[..n], id, x) {
      var b: nat :| b < n && blocks[..n][b].id == id && IsBlockClaim(blocks[..n], b, x);
      assert blocks[b].id == id;
    }
    if IsClaimedBy(blocks, id, x) {
      var b: nat :| b < |blocks| && blocks[b].id == id && IsBlockClaim(blocks, b, x);
      assert b < n ==> blocks[..n][b].id == id;
    }
  }

  lemma {:induction false} ClaimDictExactly(blocks: seq<Block>)
    requires ReadableBlocks(blocks)
    ensures IsClaimDict(blocks, ClaimDict(blocks))
  {
    hide IsBlockClaim, BlockNames, IsClaimedBlock, IsClaimedBy, Get, ClaimerOf, ReadableBlock;
    if blocks == [] {
      NothingClaimed();
    } else {
      var n := |blocks| - 1;
      ClaimDictExactly(blocks[..n]);
      BlockClaimer(blocks, n);
      forall id, x ensures MapsTo(ClaimDict(blocks), id, x) <==> IsClaimedBy(blocks, id, x) {
        ClaimedByStep(blocks, id, x);
        assert MapsTo(ClaimDict(blocks[..n]), id, x) <==> IsClaimedBy(blocks[..n], id, x);
      }
    }
  }

  lemma NothingClaimed()
    ensures forall id, x :: !IsClaimedBy([], id, x)
  {
  }

  // ---- Claims of channels ---------------------------------------------------------------------

  /** The origins of claims, with the names of the claimers. */
  datatype Origins = Origins(places: seq<Origin>, names: seq<string>)

  ghost predicate AreClaims(blocks: seq<Block>, origins: Origins, cs: seq<Claim>) {
    && |origins.places| == |origins.names| == |cs|
    && forall k :: 0 <= k < |cs| ==>
                     && IsClaim(blocks, origins.places[k], origins.names[k])
                     && origins.places[k].block < |blocks|
                     && cs[k] == Claim(origins.names[k], blocks[origins.places[k].block].id, [])
  }

  predicate ChannelBefore(a: Origin, b: Origin) {
    a.OfChannel? && b.OfChannel? && (a.block < b.block || (a.block == b.block && a.channel < b.channel))
  }

  ghost predicate ChannelsInOrder(places: seq<Origin>) {
    && (forall k :: 0 <= k < |places| ==> places[k].OfChannel?)
    && forall i, j :: 0 <= i < j < |places| ==> ChannelBefore(places[i], places[j])
  }

  ghost predicate HasChannelsUpTo(blocks: seq<Block>, places: seq<Origin>, b: nat, m: nat) {
    && (forall k :: 0 <= k < |places| ==> ChannelBefore(places[k], OfChannel(b, m)))
    && forall i: nat, c: nat, x ::
         IsChannelClaim(blocks, i, c, x) && ChannelBefore(OfChannel(i, c), OfChannel(b, m)) ==>
           OfChannel(i, c) in places
  }

  lemma ChannelClaimer(blocks: seq<Block>, b: nat, c: nat)
    requires ReadableBlocks(blocks) && b < |blocks| && c < |ChannelsOf(blocks[b].data)|
    ensures ReadableChannel(ChannelsOf(blocks[b].data)[c])
    ensures var channel := ChannelsOf(blocks[b].data)[c];
            && channel.Dict? && ReadableLink(Get(channel.entries, "claimedBy"))
            && forall x :: ClaimerOf(Get(channel.entries, "claimedBy")) == Some(x) <==> IsChannelClaim(blocks, b, c, x)
  {
    hide ClaimerOf;
    assert ReadableBlock(blocks[b]);
    ClaimerExactly(Get(ChannelsOf(blocks[b].data)[c].entries, "claimedBy"));
  }

  lemma ChannelInRange(blocks: seq<Block>, b: nat, c: nat, x: string)
    requires IsChannelClaim(blocks, b, c, x)
    ensures b < |blocks| && c < |ChannelsOf(blocks[b].data)|
  {
  }

  lemma NextChannel(blocks: seq<Block>, b: nat, m: nat)
    requires ReadableBlocks(blocks) && b < |blocks| && m < |ChannelsOf(blocks[b].data)|
    ensures var channels := ChannelsOf(blocks[b].data);
            && (forall k :: 0 <= k < |channels| ==> ReadableChannel(channels[k]))
            && var claimer := ClaimerOf(Get(channels[m].entries, "claimedBy"));
               ChannelClaims(blocks[b].id, channels[..m + 1]) ==
               ChannelClaims(blocks[b].id, channels[..m])
               + if claimer.Some? then [Claim(claimer.value, blocks[b].id, [])] else []
  {
    hide ClaimerOf, Get, ReadableChannel, ChannelsOf;
    ReadableChannels(blocks, b);
    assert ChannelsOf(blocks[b].data)[..m + 1][..m] == ChannelsOf(blocks[b].data)[..m];
  }

  lemma ReadableChannels(blocks: seq<Block>, b: nat)
    requires ReadableBlocks(blocks) && b < |blocks|
    ensures forall k :: 0 <= k < |ChannelsOf(blocks[b].data)| ==> ReadableChannel(ChannelsOf(blocks[b].data)[k])
  {
    hide ChannelsOf, ReadableChannel;
    assert ReadableBlock(blocks[b]);
  }

  lemma AddChannel(blocks: seq<Block>, origins: Origins, cs: seq<Claim>, b: nat, m: nat, x: string)
    requires AreClaims(blocks, origins, cs) && ChannelsInOrder(origins.places)
    requires HasChannelsUpTo(blocks, origins.places, b, m) && IsChannelClaim(blocks, b, m, x) && b < |blocks|
    ensures var more := Origins(origins.places + [OfChannel(b, m)], origins.names + [x]);
            && AreClaims(blocks, more, cs + [Claim(x, blocks[b].id, [])]) && ChannelsInOrder(more.places)
            && HasChannelsUpTo(blocks, more.places, b, m + 1)
  {
    hide IsChannelClaim, IsBlockClaim;
    var more := Origins(origins.places + [OfChannel(b, m)], origins.names + [x]);
    forall i: nat, c: nat, y | IsChannelClaim(blocks, i, c, y) && ChannelBefore(OfChannel(i, c), OfChannel(b, m + 1))
      ensures OfChannel(i, c) in more.places
    {
      if i == b && c == m {
        assert more.places[|origins.places|] == OfChannel(i, c);
      } else {
        assert OfChannel(i, c) in origins.places;
      }
    }
  }

  lemma SkipChannel(blocks: seq<Block>, places: seq<Origin>, b: nat, m: nat)
    requires HasChannelsUpTo(blocks, places, b, m) && forall x :: !IsChannelClaim(blocks, b, m, x)
    ensures HasChannelsUpTo(blocks, places, b, m + 1)
  {
    hide IsChannelClaim;
  }

  lemma {:induction false} BlockChannels(blocks: seq<Block>, b: nat, m: nat, before: Origins, cs: seq<Claim>)
    returns (origins: Origins)
    requires ReadableBlocks(blocks) && b < |blocks| && m <= |ChannelsOf(blocks[b].data)|
    requires AreClaims(blocks, before, cs) && ChannelsInOrder(before.places)
    requires HasChannelsUpTo(blocks, before.places, b, 0)
    ensures forall k :: 0 <= k < |ChannelsOf(blocks[b].data)| ==> ReadableChannel(ChannelsOf(blocks[b].data)[k])
    ensures AreClaims(blocks, origins, cs + ChannelClaims(blocks[b].id, ChannelsOf(blocks[b].data)[..m]))
    ensures ChannelsInOrder(origins.places) && HasChannelsUpTo(blocks, origins.places, b, m)
    decreases m
  {
    hide AreClaims, ChannelsInOrder, HasChannelsUpTo, IsChannelClaim, ReadableBlock, ReadableChannel, ClaimerOf, Get,
      ChannelsOf;
    ReadableChannels(blocks, b);
    if m == 0 {
      origins := before;
      assert cs + [] == cs;
    } else {
      origins := BlockChannels(blocks, b, m - 1, before, cs);
      NextChannel(blocks, b, m - 1);
      ChannelClaimer(blocks, b, m - 1);
      var claimer := ClaimerOf(Get(ChannelsOf(blocks[b].data)[m - 1].entries, "claimedBy"));
      var earlier := ChannelClaims(blocks[b].id, ChannelsOf(blocks[b].data)[..m - 1]);
      if claimer.Some? {
        AddChannel(blocks, origins, cs + earlier, b, m - 1, claimer.value);
        origins := Origins(origins.places + [OfChannel(b, m - 1)], origins.names + [claimer.value]);
        assert cs + (earlier + [Claim(claimer.value, blocks[b].id, [])]) ==
               cs + earlier + [Claim(claimer.value, blocks[b].id, [])];
      } else {
        SkipChannel(blocks, origins.places, b, m - 1);
        assert earlier + [] == earlier;
      }
    }
  }

  lemma NextBlock(blocks: seq<Block>, places: seq<Origin>, b: nat)
    requires b < |blocks| && HasChannelsUpTo(blocks, places, b, |ChannelsOf(blocks[b].data)|)
    ensures HasChannelsUpTo(blocks, places, b + 1, 0)
  {
    hide IsChannelClaim, ChannelsOf;
    forall i: nat, c: nat, x | IsChannelClaim(blocks, i, c, x) && ChannelBefore(OfChannel(i, c), OfChannel(b + 1, 0))
      ensures OfChannel(i, c) in places
    {
      ChannelInRange(blocks, i, c, x);
    }
  }

  lemma AllChannelsStep(blocks: seq<Block>, n: nat)
    requires ReadableBlocks(blocks) && n < |blocks|
    ensures forall k :: 0 <= k < |ChannelsOf(blocks[n].data)| ==> ReadableChannel(ChannelsOf(blocks[n].data)[k])
    ensures AllChannelClaims(blocks[..n + 1]) ==
            AllChannelClaims(blocks[..n]) + ChannelClaims(blocks[n].id, ChannelsOf(blocks[n].data))
  {
    hide ChannelsOf, ReadableChannel, ReadableBlock, ChannelClaims;
    ReadableChannels(blocks, n);
    assert blocks[..n + 1][..n] == blocks[..n];
  }

  /** The channel claims are those of all claimed channels, once each and in order. */
  lemma {:induction false} AllChannels(blocks: seq<Block>, n: nat) returns (origins: Origins)
    requires ReadableBlocks(blocks) && n <= |blocks|
    ensures AreClaims(blocks, origins, AllChannelClaims(blocks[..n]))
    ensures ChannelsInOrder(origins.places) && HasChannelsUpTo(blocks, origins.places, n, 0)
    decreases n
  {
    hide IsChannelClaim, ReadableBlock, ChannelsOf, ReadableChannel, ChannelClaims;
    if n == 0 {
      origins := Origins([], []);
    } else {
      hide AreClaims, ChannelsInOrder, HasChannelsUpTo, AllChannelClaims;
      var before := AllChannels(blocks, n - 1);
      var m := |ChannelsOf(blocks[n - 1].data)|;
      origins := BlockChannels(blocks, n - 1, m, before, AllChannelClaims(blocks[..n - 1]));
      AllChannelsStep(blocks, n - 1);
      assert ChannelsOf(blocks[n - 1].data)[..m] == ChannelsOf(blocks[n - 1].data);
      NextBlock(blocks, origins.places, n - 1);
    }
  }

  // ---- Claims of blocks ---------------------------------------------------------------------------

  /** The first listing of its id with a claim. */
  ghost predicate IsFirstListing(blocks: seq<Block>, b: nat) {
    && b < |blocks| && IsClaimedBlock(blocks[b])
    && forall j :: 0 <= j < b && blocks[j].id == blocks[b].id ==> !IsClaimedBlock(blocks[j])
  }

  /** `ids` are those of `firsts`, which are in order and complete among the first `n` blocks. */
  ghost predicate AreFirstListings(blocks: seq<Block>, n: nat, ids: seq<string>, firsts: seq<nat>)
    requires n <= |blocks|
  {
    && |ids| == |firsts|
    && (forall k :: 0 <= k < |firsts| ==>
                      firsts[k] < n && IsFirstListing(blocks, firsts[k]) && blocks[firsts[k]].id == ids[k])
    && (forall i, j :: 0 <= i < j < |firsts| ==> firsts[i] < firsts[j])
    && forall b :: 0 <= b < n && IsClaimedBlock(blocks[b]) ==> blocks[b].id in ids
  }

  lemma ClaimedBlocksStep(blocks: seq<Block>, n: nat)
    requires ReadableBlocks(blocks) && n < |blocks|
    ensures var ids := ClaimedBlocks(blocks[..n]);
            ClaimedBlocks(blocks[..n + 1]) ==
            if IsClaimedBlock(blocks[n]) && blocks[n].id !in ids then ids + [blocks[n].id] else ids
  {
    hide IsClaimedBlock, ClaimerOf, Get, ReadableBlock;
    assert blocks[..n + 1][..n] == blocks[..n];
    BlockClaimer(blocks, n);
  }

  lemma {:induction false} FirstListings(blocks: seq<Block>, n: nat) returns (firsts: seq<nat>)
    requires ReadableBlocks(blocks) && n <= |blocks|
    ensures AreFirstListings(blocks, n, ClaimedBlocks(blocks[..n]), firsts)
    decreases n
  {
    hide IsClaimedBlock, ReadableBlock, ClaimerOf, Get;
    if n == 0 {
      firsts := [];
    } else {
      hide ClaimedBlocks;
      firsts := FirstListings(blocks, n - 1);
      ClaimedBlocksStep(blocks, n - 1);
      var ids := ClaimedBlocks(blocks[..n - 1]);
      if IsClaimedBlock(blocks[n - 1]) && blocks[n - 1].id !in ids {
        AddListing(blocks, n - 1, ids, firsts);
        firsts := firsts + [n - 1];
      }
    }
  }

  lemma AddListing(blocks: seq<Block>, n: nat, ids: seq<string>, firsts: seq<nat>)
    requires n < |blocks| && AreFirstListings(blocks, n, ids, firsts)
    requires IsClaimedBlock(blocks[n]) && blocks[n].id !in ids
    ensures AreFirstListings(blocks, n + 1, ids + [blocks[n].id], firsts + [n])
  {
    hide IsClaimedBlock;
    var more := ids + [blocks[n].id];
    assert more[|ids|] == blocks[n].id;
  }

  lemma BlockOrigin(blocks: seq<Block>, id: string) returns (b: nat)
    requires ReadableBlocks(blocks) && id in ClaimDict(blocks)
    ensures b < |blocks| && blocks[b].id == id && IsBlockClaim(blocks, b, ClaimDict(blocks)[id])
  {
    hide IsBlockClaim, ClaimDict, ReadableBlock;
    ClaimDictExactly(blocks);
    var x := ClaimDict(blocks)[id];
    assert MapsTo(ClaimDict(blocks), id, x);
    assert IsClaimedBy(blocks, id, x);
    b :| b < |blocks| && blocks[b].id == id && IsBlockClaim(blocks, b, x);
  }

  lemma NamedIsClaimed(blocks: seq<Block>, b: nat, x: string)
    requires IsBlockClaim(blocks, b, x)
    ensures b < |blocks| && IsClaimedBlock(blocks[b])
  {
  }

  lemma LastIsUnique(blocks: seq<Block>, b: nat, c: nat, x: string, y: string)
    requires IsBlockClaim(blocks, b, x) && IsBlockClaim(blocks, c, y) && blocks[b].id == blocks[c].id
    ensures b == c
  {
    NamedIsClaimed(blocks, b, x);
    NamedIsClaimed(blocks, c, y);
  }

  function BlockClaims(blocks: seq<Block>): (cs: seq<Claim>)
    requires ReadableBlocks(blocks)
    ensures |cs| == |ClaimedBlocks(blocks)|
  {
    var g, ids := ClaimDict(blocks), ClaimedBlocks(blocks);
    seq(|ids|, k requires 0 <= k < |ids| => Claim(g[ids[k]], ids[k], []))
  }

  ghost predicate HasBlocks(blocks: seq<Block>, places: seq<Origin>) {
    && (forall k :: 0 <= k < |places| ==> places[k].OfBlock?)
    && (forall i, j :: 0 <= i < j < |places| ==> places[i] != places[j])
    && forall b: nat, x :: IsBlockClaim(blocks, b, x) ==> OfBlock(b) in places
  }

  /** The block claims are those of the last listings of all claimed blocks, once each. */
  lemma AllBlocks(blocks: seq<Block>) returns (origins: Origins)
    requires ReadableBlocks(blocks)
    ensures AreClaims(blocks, origins, BlockClaims(blocks)) && HasBlocks(blocks, origins.places)
  {
    hide IsBlockClaim, ReadableBlock, ClaimDict, ClaimerOf, Get, BlockNames, IsClaimedBlock;
    var g, ids := ClaimDict(blocks), ClaimedBlocks(blocks);
    ClaimedBlocksExact(blocks);
    var places: seq<Origin>, names: seq<string> := [], [];
    for k := 0 to |ids|
      invariant |places| == |names| == k
      invariant forall i :: 0 <= i < k ==>
                              && places[i].OfBlock? && places[i].block < |blocks|
                              && blocks[places[i].block].id == ids[i]
                              && names[i] == g[ids[i]] && IsBlockClaim(blocks, places[i].block, names[i])
    {
      var b := BlockOrigin(blocks, ids[k]);
      places, names := places + [OfBlock(b)], names + [g[ids[k]]];
    }
    origins := Origins(places, names);
    forall b: nat, x | IsBlockClaim(blocks, b, x) ensures OfBlock(b) in places {
      NamedIsClaimed(blocks, b, x);
      BlockClaimer(blocks, b);
      assert blocks[b].id in ids;
      var k :| 0 <= k < |ids| && ids[k] == blocks[b].id;
      LastIsUnique(blocks, b, places[k].block, x, names[k]);
      assert places[k] == OfBlock(b);
    }
  }

  // ---- All claims ------------------------------------------------------------------------------------

  /** `r` starts at `a` and goes up along `g`, to the root or until it would meet itself. */
  ghost predicate Extends(g: Graph, a: string, r: Claim) {
    && Distinct(r.intermediate)
    && Path(r)[0] == a
    && (forall k :: 0 <= k < |r.intermediate| ==> MapsTo(g, Path(r)[k], Path(r)[k + 1]))
    && (forall b :: b in Path(r) <==> Reachable(g, a, b))
    && (r.source !in g <==> Acyclic(g, a))
    && (r.source in g ==> g[r.source] in r.intermediate)
  }

  lemma ClaimExtends(g: Graph, a: string, target: string)
    ensures var r := ExtendedClaim(g, Claim(a, target, [])); Extends(g, a, r) && r.target == target
  {
    hide ExtendedClaim, Reachable, Acyclic;
    ExtendedClaimExact(g, a, target);
    var r := ExtendedClaim(g, Claim(a, target, []));
    assert Walk(g, a, 0) == Some(Path(r)[0]);
    forall k | 0 <= k < |r.intermediate| ensures MapsTo(g, Path(r)[k], Path(r)[k + 1]) {
      assert Walk(g, a, k) == Some(Path(r)[k]) && Walk(g, a, k + 1) == Some(Path(r)[k + 1]);
    }
    if r.source in g {
      SourceClosesCycle(g, a, target);
    }
  }

  lemma SourceClosesCycle(g: Graph, a: string, target: string)
    ensures var r := ExtendedClaim(g, Claim(a, target, [])); r.source in g ==> g[r.source] in r.intermediate
  {
    var c := Claim(a, target, []);
    assert Path(c) == [a];
    ExtendedClaimWalks(g, a, c);
  }

  ghost predicate AreCalculated(blocks: seq<Block>, g: Graph, origins: Origins, claims: seq<Claim>) {
    && |origins.places| == |origins.names| == |claims|
    && forall k :: 0 <= k < |claims| ==>
                     && IsClaim(blocks, origins.places[k], origins.names[k]) && origins.places[k].block < |blocks|
                     && claims[k].target == blocks[origins.places[k].block].id
                     && Extends(g, origins.names[k], claims[k])
  }

  /** Block claims come first, ordered by the first claimed listing of each block, and then channel claims, in order. */
  ghost predicate AreOrdered(blocks: seq<Block>, places: seq<Origin>, firsts: seq<nat>) {
    && |firsts| <= |places|
    && (forall k :: 0 <= k < |firsts| ==>
                      && places[k].OfBlock? && IsFirstListing(blocks, firsts[k]) && places[k].block < |blocks|
                      && blocks[firsts[k]].id == blocks[places[k].block].id)
    && (forall i, j :: 0 <= i < j < |firsts| ==> firsts[i] < firsts[j])
    && ChannelsInOrder(places[|firsts|..])
  }

  lemma JoinClaims(blocks: seq<Block>, a: Origins, cs: seq<Claim>, b: Origins, ds: seq<Claim>)
    requires AreClaims(blocks, a, cs) && AreClaims(blocks, b, ds)
    ensures AreClaims(blocks, Origins(a.places + b.places, a.names + b.names), cs + ds)
  {
    hide IsClaim;
  }

  lemma ExtendAll(blocks: seq<Block>, origins: Origins)
    requires ReadableBlocks(blocks) && AreClaims(blocks, origins, DirectClaims(blocks))
    ensures AreCalculated(blocks, ClaimDict(blocks), origins, CalculatedClaims(blocks))
  {
    hide IsClaim, Extends, DirectClaims, ClaimDict, ExtendedClaim;
    forall k | 0 <= k < |origins.places|
      ensures Extends(ClaimDict(blocks), origins.names[k], CalculatedClaims(blocks)[k])
      ensures CalculatedClaims(blocks)[k].target == DirectClaims(blocks)[k].target
    {
      ClaimExtends(ClaimDict(blocks), origins.names[k], DirectClaims(blocks)[k].target);
    }
  }

  lemma DirectParts(blocks: seq<Block>)
    requires ReadableBlocks(blocks)
    ensures DirectClaims(blocks) == BlockClaims(blocks) + AllChannelClaims(blocks)
  {
    hide ClaimDict, ClaimedBlocks, AllChannelClaims;
  }

  lemma AllPlaces(blocks: seq<Block>, places: seq<Origin>, more: seq<Origin>)
    requires HasBlocks(blocks, places) && ChannelsInOrder(more) && HasChannelsUpTo(blocks, more, |blocks|, 0)
    ensures forall o, x :: IsClaim(blocks, o, x) ==> o in places + more
    ensures forall i, j :: 0 <= i < j < |places + more| ==> (places + more)[i] != (places + more)[j]
  {
    hide IsBlockClaim, IsChannelClaim, ChannelsOf;
    forall o, x | IsClaim(blocks, o, x) ensures o in places + more {
      if o.OfBlock? {
        assert o in places;
      } else {
        ChannelInRange(blocks, o.block, o.channel, x);
        assert o in more;
      }
    }
  }

  lemma PlaceIds(blocks: seq<Block>, origins: Origins)
    requires ReadableBlocks(blocks) && AreClaims(blocks, origins, BlockClaims(blocks))
    ensures |origins.places| == |ClaimedBlocks(blocks)|
    ensures forall k :: 0 <= k < |origins.places| ==>
                          && origins.places[k].block < |blocks|
                          && blocks[origins.places[k].block].id == ClaimedBlocks(blocks)[k]
  {
    hide IsClaim, ClaimedBlocks, ClaimDict;
  }

  lemma PlacesInOrder(blocks: seq<Block>, places: seq<Origin>, more: seq<Origin>, ids: seq<string>, firsts: seq<nat>)
    requires |places| == |ids| && (forall k :: 0 <= k < |places| ==> places[k].OfBlock?)
    requires forall k :: 0 <= k < |places| ==> places[k].block < |blocks| && blocks[places[k].block].id == ids[k]
    requires AreFirstListings(blocks, |blocks|, ids, firsts) && ChannelsInOrder(more)
    ensures AreOrdered(blocks, places + more, firsts)
  {
    hide IsClaimedBlock, IsFirstListing;
    assert (places + more)[|firsts|..] == more;
  }

  lemma AreAllOfBlocks(blocks: seq<Block>, places: seq<Origin>)
    requires HasBlocks(blocks, places)
    ensures forall k :: 0 <= k < |places| ==> places[k].OfBlock?
  {
    hide IsBlockClaim;
  }

  /**
   * The calculated claims are those of all claimed channels and of the last listings of all claimed blocks, once each
   * and in order; each starts at the block that its link names and is extended along the links of the last listings.
   */
  lemma ClaimsExactly(blocks: seq<Block>) returns (g: Graph, origins: Origins, firsts: seq<nat>)
    requires ReadableBlocks(blocks)
    ensures IsClaimDict(blocks, g)
    ensures AreCalculated(blocks, g, origins, CalculatedClaims(blocks))
    ensures forall o, x :: IsClaim(blocks, o, x) ==> o in origins.places
    ensures forall i, j :: 0 <= i < j < |origins.places| ==> origins.places[i] != origins.places[j]
    ensures AreOrdered(blocks, origins.places, firsts)
  {
    hide *;
    g := ClaimDict(blocks);
    ClaimDictExactly(blocks);
    assert blocks[..|blocks|] == blocks;
    var whole := AllBlocks(blocks);
    var channels := AllChannels(blocks, |blocks|);
    firsts := FirstListings(blocks, |blocks|);
    JoinClaims(blocks, whole, BlockClaims(blocks), channels, AllChannelClaims(blocks));
    origins := Origins(whole.places + channels.places, whole.names + channels.names);
    DirectParts(blocks);
    ExtendAll(blocks, origins);
    AllPlaces(blocks, whole.places, channels.places);
    PlaceIds(blocks, whole);
    AreAllOfBlocks(blocks, whole.places);
    PlacesInOrder(blocks, whole.places, channels.places, ClaimedBlocks(blocks), firsts);
  }
}
