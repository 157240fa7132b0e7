/** Transitive claims between blocks. */
module Claims {
  import opened Wrappers
  import opened Data

  /** A claim on `target`: the block that holds it, and the blocks passed on the way. */
  datatype Claim = Claim(source: string, target: string, intermediate: seq<string>)

  /** Which block claims which: the claim dict, from target to source. */
  type Graph = map<string, string>

  // ---- Extending one claim ----------------------------------------------------

  predicate Distinct(nodes: seq<string>) {
    forall i, j :: 0 <= i < j < |nodes| ==> nodes[i] != nodes[j]
  }

  /** What holds of every claim that is shifted: its source was not passed, or claims itself. */
  predicate Shifted(g: Graph, c: Claim) {
    && Distinct(c.intermediate)
    && (forall k :: 0 <= k < |c.intermediate| ==> c.intermediate[k] in g)
    && (c.source in c.intermediate ==> c.source in g && g[c.source] in c.intermediate)
  }

  ghost function Passed(nodes: seq<string>): set<string> {
    set x | x in nodes
  }

  function ExtendedClaim(g: Graph, c: Claim): Claim
    requires Shifted(g, c)
    decreases g.Keys - Passed(c.intermediate)
  {
    if c.source !in g then c
    else
      var grand := g[c.source];
      if grand in c.intermediate then c
      else
        assert c.source in (g.Keys - Passed(c.intermediate));
        assert c.source in Passed(c.intermediate + [c.source]);
        ExtendedClaim(g, Claim(grand, c.target, c.intermediate + [c.source]))
  }

  // ---- Walking the graph --------------------------------------------------------

  /** The block reached from `a` by following `n` claims. */
  function Walk(g: Graph, a: string, n: nat): Option<string> {
    if n == 0 then Some(a)
    else
      match Walk(g, a, n - 1)
      case None => None
      case Some(b) => if b in g then Some(g[b]) else None
  }

  ghost predicate Reachable(g: Graph, a: string, b: string) {
    exists n: nat :: Walk(g, a, n) == Some(b)
  }

  /** The claims above `a` end at an unclaimed block. */
  ghost predicate Acyclic(g: Graph, a: string) {
    exists n: nat :: Walk(g, a, n).None?
  }

  /** The nodes of a claim, from the first claimer on. */
  function Path(c: Claim): seq<string> {
    c.intermediate + [c.source]
  }

  ghost predicate OnWalk(g: Graph, a: string, c: Claim) {
    forall k: nat :: k < |Path(c)| ==> Walk(g, a, k) == Some(Path(c)[k])
  }

  lemma {:induction false} ExtendedClaimWalks(g: Graph, a: string, c: Claim)
    requires Shifted(g, c) && OnWalk(g, a, c)
    ensures var r := ExtendedClaim(g, c);
            && r.target == c.target
            && Shifted(g, r) && OnWalk(g, a, r)
            && (r.source in g ==> g[r.source] in r.intermediate)
    decreases g.Keys - Passed(c.intermediate)
  {
    if c.source in g && g[c.source] !in c.intermediate {
      var next := Claim(g[c.source], c.target, c.intermediate + [c.source]);
      assert c.source in (g.Keys - Passed(c.intermediate));
      assert c.source in Passed(next.intermediate);
      forall k: nat | k < |Path(next)| ensures Walk(g, a, k) == Some(Path(next)[k]) {
        if k < |Path(c)| {
          assert Path(next)[k] == Path(c)[k];
        } else {
          assert Path(c)[|Path(c)| - 1] == c.source;
        }
      }
      ExtendedClaimWalks(g, a, next);
    }
  }

  // ---- What an extended claim says ------------------------------------------------

  /** An extended claim that started at block `a`. */
  ghost predicate Finished(g: Graph, a: string, r: Claim) {
    Shifted(g, r) && OnWalk(g, a, r) && (r.source in g ==> g[r.source] in r.intermediate)
  }

  lemma NextOnPath(g: Graph, a: string, r: Claim, k: nat)
    requires Finished(g, a, r) && k < |Path(r)| && Path(r)[k] in g
    ensures g[Path(r)[k]] in Path(r)
  {
    assert Walk(g, a, k) == Some(Path(r)[k]);
    if k < |r.intermediate| {
      assert Walk(g, a, k + 1) == Some(Path(r)[k + 1]);
    } else {
      var j :| 0 <= j < |r.intermediate| && r.intermediate[j] == g[r.source];
      assert Path(r)[j] == g[r.source];
    }
  }

  lemma {:induction false} WalkStaysOnPath(g: Graph, a: string, r: Claim, n: nat)
    requires Finished(g, a, r)
    ensures Walk(g, a, n).Some? ==> Walk(g, a, n).value in Path(r)
    ensures r.source in g ==> Walk(g, a, n).Some?
  {
    if n == 0 {
      assert Walk(g, a, 0) == Some(Path(r)[0]);
    } else {
      WalkStaysOnPath(g, a, r, n - 1);
      if Walk(g, a, n - 1).Some? {
        var k :| 0 <= k < |Path(r)| && Path(r)[k] == Walk(g, a, n - 1).value;
        if Path(r)[k] in g {
          NextOnPath(g, a, r, k);
        }
      }
    }
  }

  /**
   * Extending the claim of `a` on `target`: the intermediates are distinct and in path order, source and intermediates
   * are exactly the blocks reachable from `a`, and the source is unclaimed exactly when the chain has no cycle.
   */
  lemma ExtendedClaimExact(g: Graph, a: string, target: string)
    ensures var r := ExtendedClaim(g, Claim(a, target, []));
            && r.target == target
            && Distinct(r.intermediate)
            && OnWalk(g, a, r)
            && (forall b :: b in Path(r) <==> Reachable(g, a, b))
            && (r.source !in g <==> Acyclic(g, a))
            && (r.source in r.intermediate ==> r.source in g && g[r.source] in r.intermediate)
  {
    var c := Claim(a, target, []);
    assert Path(c) == [a];
    ExtendedClaimWalks(g, a, c);
    var r := ExtendedClaim(g, c);
    assert Finished(g, a, r);
    forall b ensures b in Path(r) <==> Reachable(g, a, b) {
      if b in Path(r) {
        var k: nat :| k < |Path(r)| && Path(r)[k] == b;
        assert Walk(g, a, k) == Some(b);
      }
      if Reachable(g, a, b) {
        var n: nat :| Walk(g, a, n) == Some(b);
        WalkStaysOnPath(g, a, r, n);
      }
    }
    if r.source in g {
      forall n: nat ensures Walk(g, a, n).Some? {
        WalkStaysOnPath(g, a, r, n);
      }
    } else {
      var n := |r.intermediate|;
      assert Walk(g, a, n) == Some(Path(r)[n]);
      assert Walk(g, a, n + 1).None?;
    }
  }

  /** On a chain without cycles no block is passed twice, and the source is the unclaimed root. */
  lemma AcyclicClaim(g: Graph, a: string, target: string)
    requires Acyclic(g, a)
    ensures var r := ExtendedClaim(g, Claim(a, target, []));
            r.source !in g && Distinct(Path(r))
  {
    ExtendedClaimExact(g, a, target);
  }

  // ---- All claims of a list of blocks ----------------------------------------------

  datatype Block = Block(id: string, blockType: string, data: seq<Entry>)

  /** An absent or empty link, or a dict with a text or empty id. */
  predicate ReadableLink(link: Option<Value>) {
    match link
    case None => true
    case Some(v) => Truthy(v) ==> v.Dict? && Get(v.entries, "id").Some? && ReadableId(Get(v.entries, "id").value)
  }

  predicate ReadableId(id: Value) {
    Truthy(id) ==> id.Str?
  }

  /** The block that a `claimedBy` link names. */
  function ClaimerOf(link: Option<Value>): Option<string>
    requires ReadableLink(link)
  {
    if link.Some? && Truthy(link.value) && Truthy(Get(link.value.entries, "id").value)
    then Some(Get(link.value.entries, "id").value.s)
    else None
  }

  predicate ReadableChannel(v: Value) {
    v.Dict? && Get(v.entries, "claimedBy").Some? && ReadableLink(Get(v.entries, "claimedBy"))
  }

  function ChannelsOf(data: seq<Entry>): seq<Value> {
    var channels := Get(data, "channels");
    if channels.Some? && channels.value.List? then channels.value.items else []
  }

  predicate ReadableBlock(b: Block) {
    && ReadableLink(Get(b.data, "claimedBy"))
    && (Get(b.data, "channels").Some? ==> Get(b.data, "channels").value.List?)
    && forall k :: 0 <= k < |ChannelsOf(b.data)| ==> ReadableChannel(ChannelsOf(b.data)[k])
  }

  lemma UnclaimedIsReadable(b: Block)
    requires Get(b.data, "claimedBy").None? && Get(b.data, "channels").None?
    ensures ReadableBlock(b)
  {
  }

  predicate ReadableBlocks(blocks: seq<Block>) {
    forall k :: 0 <= k < |blocks| ==> ReadableBlock(blocks[k])
  }

  /** The claim dict: for each claimed block the claimer that is listed last. */
  function ClaimDict(blocks: seq<Block>): Graph
    requires ReadableBlocks(blocks)
  {
    if blocks == [] then map[]
    else
      var b := blocks[|blocks| - 1];
      var g := ClaimDict(blocks[..|blocks| - 1]);
      var claimer := ClaimerOf(Get(b.data, "claimedBy"));
      if claimer.Some? then g[b.id := claimer.value] else g
  }

  /** The keys of the claim dict, in the order in which they were first inserted. */
  function ClaimedBlocks(blocks: seq<Block>): (ids: seq<string>)
    requires ReadableBlocks(blocks)
    ensures forall k :: 0 <= k < |ids| ==> ids[k] in ClaimDict(blocks)
  {
    if blocks == [] then []
    else
      var b := blocks[|blocks| - 1];
      var ids := ClaimedBlocks(blocks[..|blocks| - 1]);
      if ClaimerOf(Get(b.data, "claimedBy")).Some? && b.id !in ids then ids + [b.id] else ids
  }

  function ChannelClaims(target: string, channels: seq<Value>): seq<Claim>
    requires forall k :: 0 <= k < |channels| ==> ReadableChannel(channels[k])
  {
    if channels == [] then []
    else
      var last := channels[|channels| - 1];
      assert ReadableChannel(last);
      var claimer := ClaimerOf(Get(last.entries, "claimedBy"));
      ChannelClaims(target, channels[..|channels| - 1])
      + if claimer.Some? then [Claim(claimer.value, target, [])] else []
  }

  function AllChannelClaims(blocks: seq<Block>): seq<Claim>
    requires ReadableBlocks(blocks)
  {
    if blocks == [] then []
    else
      var b := blocks[|blocks| - 1];
      AllChannelClaims(blocks[..|blocks| - 1]) + ChannelClaims(b.id, ChannelsOf(b.data))
  }

  /** The claims before they are extended: those of whole blocks, then those of channels. */
  function DirectClaims(blocks: seq<Block>): (cs: seq<Claim>)
    requires ReadableBlocks(blocks)
  {
    var g, ids := ClaimDict(blocks), ClaimedBlocks(blocks);
    seq(|ids|, k requires 0 <= k < |ids| => Claim(g[ids[k]], ids[k], [])) + AllChannelClaims(blocks)
  }

  ghost predicate Direct(cs: seq<Claim>) {
    forall k :: 0 <= k < |cs| ==> cs[k].intermediate == []
  }

  lemma {:induction false} ChannelClaimsDirect(target: string, channels: seq<Value>)
    requires forall k :: 0 <= k < |channels| ==> ReadableChannel(channels[k])
    ensures Direct(ChannelClaims(target, channels))
  {
    if channels != [] {
      ChannelClaimsDirect(target, channels[..|channels| - 1]);
    }
  }

  lemma {:induction false} AllChannelClaimsDirect(blocks: seq<Block>)
    requires ReadableBlocks(blocks)
    ensures Direct(AllChannelClaims(blocks))
  {
    if blocks != [] {
      AllChannelClaimsDirect(blocks[..|blocks| - 1]);
      ChannelClaimsDirect(blocks[|blocks| - 1].id, ChannelsOf(blocks[|blocks| - 1].data));
    }
  }

  /** Every claimed block is listed once. */
  lemma {:induction false} ClaimedBlocksExact(blocks: seq<Block>)
    requires ReadableBlocks(blocks)
    ensures Distinct(ClaimedBlocks(blocks))
    ensures forall id :: id in ClaimedBlocks(blocks) <==> id in ClaimDict(blocks)
    ensures forall id :: id in ClaimDict(blocks) <==>
                           exists k :: 0 <= k < |blocks| && blocks[k].id == id &&
                                        ClaimerOf(Get(blocks[k].data, "claimedBy")).Some?
  {
    hide ClaimerOf, ReadableBlock, ReadableLink, Get;
    if blocks != [] {
      var n := |blocks| - 1;
      assert blocks == blocks[..n] + [blocks[n]];
      ClaimedBlocksExact(blocks[..n]);
    }
  }

  lemma DirectClaimsDirect(blocks: seq<Block>)
    requires ReadableBlocks(blocks)
    ensures Direct(DirectClaims(blocks))
  {
    hide ClaimDict, ClaimedBlocks, AllChannelClaims;
    AllChannelClaimsDirect(blocks);
  }

  function CalculatedClaims(blocks: seq<Block>): (claims: seq<Claim>)
    requires ReadableBlocks(blocks)
    ensures |claims| == |DirectClaims(blocks)|
  {
    var direct := DirectClaims(blocks);
    DirectClaimsDirect(blocks);
    seq(|direct|, k requires 0 <= k < |direct| => ExtendedClaim(ClaimDict(blocks), direct[k]))
  }

  method CalculateClaims(blocks: seq<Block>) returns (claims: seq<Claim>)
    requires ReadableBlocks(blocks)
    ensures claims == CalculatedClaims(blocks)
  {
    hide ExtendedClaim, ClaimDict, ClaimedBlocks, AllChannelClaims;
    AllChannelClaimsDirect(blocks);
    var claimDict, claimed, channelClaims := CollectClaims(blocks);
    var direct := seq(|claimed|, k requires 0 <= k < |claimed| => Claim(claimDict[claimed[k]], claimed[k], []))
                  + channelClaims;
    assert direct == DirectClaims(blocks);
    claims := [];
    for k := 0 to |direct|
      invariant |claims| == k
      invariant forall j :: 0 <= j < k ==> claims[j] == ExtendedClaim(claimDict, direct[j])
    {
      claims := claims + [ExtendedClaim(claimDict, direct[k])];
    }
  }

  method CollectClaims(blocks: seq<Block>) returns (claimDict: Graph, claimed: seq<string>, channelClaims: seq<Claim>)
    requires ReadableBlocks(blocks)
    ensures claimDict == ClaimDict(blocks) && claimed == ClaimedBlocks(blocks)
    ensures channelClaims == AllChannelClaims(blocks)
  {
    claimDict, claimed, channelClaims := map[], [], [];
    for i := 0 to |blocks|
      invariant ReadableBlocks(blocks[..i])
      invariant claimDict == ClaimDict(blocks[..i]) && claimed == ClaimedBlocks(blocks[..i])
      invariant channelClaims == AllChannelClaims(blocks[..i])
    {
      assert blocks[..i + 1][..i] == blocks[..i];
      var link := ClaimerOf(Get(blocks[i].data, "claimedBy"));
      if link.Some? {
        claimDict := claimDict[blocks[i].id := link.value];
        if blocks[i].id !in claimed {
          claimed := claimed + [blocks[i].id];
        }
      }
      var found := CollectChannelClaims(blocks[i]);
      channelClaims := channelClaims + found;
    }
    assert blocks[..|blocks|] == blocks;
  }

  method CollectChannelClaims(block: Block) returns (claims: seq<Claim>)
    requires ReadableBlock(block)
    ensures claims == ChannelClaims(block.id, ChannelsOf(block.data))
  {
    var channels := ChannelsOf(block.data);
    claims := [];
    for i := 0 to |channels|
      invariant claims == ChannelClaims(block.id, channels[..i])
    {
      assert channels[..i + 1][..i] == channels[..i];
      var link := ClaimerOf(Get(channels[i].entries, "claimedBy"));
      if link.Some? {
        claims := claims + [Claim(link.value, block.id, [])];
      }
    }
    assert channels[..|channels|] == channels;
  }
}
