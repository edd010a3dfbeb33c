/** The simulated network's regions (simulations/src/network/regions.rs):
    which nodes live in which region, the network behaviour between two
    regions, and the split of the shuffled node list into regions. A
    network behaviour is carried unchanged, so it is a type parameter;
    the shuffle and the per-region node counts (rounded from `f32`
    fractions) are inputs. */
module Regions {
  import opened SimNode

  datatype Region = NorthAmerica | Europe | Asia | Africa | SouthAmerica | Australia

  datatype RegionsData<B> = RegionsData(
    regions: map<Region, seq<NodeId>>,
    nodeRegion: map<NodeId, Region>,
    regionNetworkBehaviour: map<(Region, Region), B>)

  /** Each node of the regions visited so far, mapped to the last region
      listing it. */
  function NodeRegions(regions: map<Region, seq<NodeId>>, order: seq<Region>): (m: map<NodeId, Region>)
    requires forall i :: 0 <= i < |order| ==> order[i] in regions
    ensures forall n :: n in m ==> m[n] in regions && n in regions[m[n]]
    ensures forall n :: n in m <==> exists i :: 0 <= i < |order| && n in regions[order[i]]
  {
    if |order| == 0 then map[]
    else
      var last := order[|order| - 1];
      var m := NodeRegions(regions, order[..|order| - 1]);
      var m' := m + map n | n in regions[last] :: last;
      assert forall n :: n in m' <==> exists i :: 0 <= i < |order| && n in regions[order[i]] by {
        forall n
          ensures n in m' <==> exists i :: 0 <= i < |order| && n in regions[order[i]]
        {
          if n in m {
            var i :| 0 <= i < |order| - 1 && n in regions[order[..|order| - 1][i]];
            assert order[i] == order[..|order| - 1][i];
          }
          if exists i :: 0 <= i < |order| && n in regions[order[i]] {
            var i :| 0 <= i < |order| && n in regions[order[i]];
            if i < |order| - 1 {
              assert order[..|order| - 1][i] == order[i];
            }
          }
        }
      }
      m'
  }

  /** `RegionsData::new`: the regions and behaviours are kept, and every
      listed node is mapped to a region listing it; `order` is the order in
      which the regions' map is visited. */
  function New<B>(regions: map<Region, seq<NodeId>>, regionNetworkBehaviour: map<(Region, Region), B>,
                  order: seq<Region>): (d: RegionsData<B>)
    requires forall r :: r in regions <==> r in order
    ensures d.regions == regions && d.regionNetworkBehaviour == regionNetworkBehaviour
    ensures forall n :: n in d.nodeRegion <==> exists r :: r in regions && n in regions[r]
    ensures forall n :: n in d.nodeRegion ==> d.nodeRegion[n] in regions && n in regions[d.nodeRegion[n]]
  {
    var m := NodeRegions(regions, order);
    assert forall n :: n in m <==> exists r :: r in regions && n in regions[r] by {
      forall n | exists r :: r in regions && n in regions[r]
        ensures n in m
      {
        var r :| r in regions && n in regions[r];
        var i :| 0 <= i < |order| && order[i] == r;
      }
    }
    RegionsData(regions, m, regionNetworkBehaviour)
  }

  /** A node listed under one region only is mapped to that region. */
  lemma NewNodeRegion<B>(regions: map<Region, seq<NodeId>>, regionNetworkBehaviour: map<(Region, Region), B>,
                         order: seq<Region>, n: NodeId, r: Region)
    requires forall r :: r in regions <==> r in order
    requires r in regions && n in regions[r]
    requires forall r' :: r' in regions && r' != r ==> n !in regions[r']
    ensures NodeRegion(New(regions, regionNetworkBehaviour, order), n) == r
  {
    var d := New(regions, regionNetworkBehaviour, order);
    assert n in d.nodeRegion;
  }

  /** `RegionsData::node_region`: the region of a known node. */
  function NodeRegion<B>(d: RegionsData<B>, nodeId: NodeId): (r: Region)
    requires nodeId in d.nodeRegion
    ensures r == d.nodeRegion[nodeId]
  {
    d.nodeRegion[nodeId]
  }

  /** `RegionsData::network_behaviour`: the behaviour stored for the two
      nodes' regions in that order, or else in the opposite order. */
  function NetworkBehaviour<B>(d: RegionsData<B>, nodeA: NodeId, nodeB: NodeId): (b: B)
    requires nodeA in d.nodeRegion && nodeB in d.nodeRegion
    requires (d.nodeRegion[nodeA], d.nodeRegion[nodeB]) in d.regionNetworkBehaviour
          || (d.nodeRegion[nodeB], d.nodeRegion[nodeA]) in d.regionNetworkBehaviour
    ensures var pair := (d.nodeRegion[nodeA], d.nodeRegion[nodeB]);
      var swapped := (d.nodeRegion[nodeB], d.nodeRegion[nodeA]);
      && (pair in d.regionNetworkBehaviour ==> b == d.regionNetworkBehaviour[pair])
      && (pair !in d.regionNetworkBehaviour ==> b == d.regionNetworkBehaviour[swapped])
  {
    var regionA := d.nodeRegion[nodeA];
    var regionB := d.nodeRegion[nodeB];
    if (regionA, regionB) in d.regionNetworkBehaviour then d.regionNetworkBehaviour[(regionA, regionB)]
    else d.regionNetworkBehaviour[(regionB, regionA)]
  }

  /** The lookup is symmetric when the two orientations of a pair of
      regions do not disagree: when only one is stored, or both hold the
      same behaviour. */
  lemma NetworkBehaviourSymmetric<B>(d: RegionsData<B>, nodeA: NodeId, nodeB: NodeId)
    requires nodeA in d.nodeRegion && nodeB in d.nodeRegion
    requires (d.nodeRegion[nodeA], d.nodeRegion[nodeB]) in d.regionNetworkBehaviour
          || (d.nodeRegion[nodeB], d.nodeRegion[nodeA]) in d.regionNetworkBehaviour
    requires var pair := (d.nodeRegion[nodeA], d.nodeRegion[nodeB]);
      var swapped := (d.nodeRegion[nodeB], d.nodeRegion[nodeA]);
      (pair in d.regionNetworkBehaviour && swapped in d.regionNetworkBehaviour ==>
         d.regionNetworkBehaviour[pair] == d.regionNetworkBehaviour[swapped])
    ensures NetworkBehaviour(d, nodeA, nodeB) == NetworkBehaviour(d, nodeB, nodeA)
  {
  }

  /** `RegionsData::region_nodes`: the nodes stored for the region. */
  function RegionNodes<B>(d: RegionsData<B>, region: Region): (nodes: seq<NodeId>)
    requires region in d.regions
    ensures nodes == d.regions[region]
  {
    d.regions[region]
  }

  /** Where the `i`th region's nodes start in the shuffled list: the sum of
      the counts before it. */
  function Offset(counts: seq<nat>, i: nat): nat
    requires i <= |counts|
  {
    if i == 0 then 0 else Offset(counts, i - 1) + counts[i - 1]
  }

  lemma {:induction false} OffsetMonotone(counts: seq<nat>, i: nat, j: nat)
    requires i <= j <= |counts|
    ensures Offset(counts, i) <= Offset(counts, j)
    decreases j
  {
    if i < j {
      OffsetMonotone(counts, i, j - 1);
    }
  }

  /** Where region `i`'s nodes end in the shuffled list: where the next
      region's start, or the end of the list for the last region. */
  function End(shuffled: seq<NodeId>, counts: seq<nat>, i: nat): nat
    requires i < |counts|
  {
    if i + 1 < |counts| then Offset(counts, i + 1) else |shuffled|
  }

  /** The bounds of every region's share fit the shuffled list. */
  lemma ShareBounds(shuffled: seq<NodeId>, counts: seq<nat>, i: nat)
    requires i < |counts|
    requires Offset(counts, |counts| - 1) <= |shuffled|
    ensures Offset(counts, i) <= End(shuffled, counts, i) <= |shuffled|
  {
    OffsetMonotone(counts, i, |counts| - 1);
    if i + 1 < |counts| {
      OffsetMonotone(counts, i + 1, |counts| - 1);
    }
  }

  /** Region `i`'s share: the next `counts[i]` nodes of the shuffled list,
      or all the nodes left for the last region. */
  function Share(shuffled: seq<NodeId>, counts: seq<nat>, i: nat): seq<NodeId>
    requires i < |counts|
    requires Offset(counts, |counts| - 1) <= |shuffled|
  {
    ShareBounds(shuffled, counts, i);
    shuffled[Offset(counts, i)..End(shuffled, counts, i)]
  }

  /** Every region of the list gets its share, and no other key is
      present. */
  ghost predicate SplitAsCounted(result: map<Region, seq<NodeId>>, shuffled: seq<NodeId>, regions: seq<Region>, counts: seq<nat>)
    requires |regions| == |counts| >= 1
    requires Offset(counts, |counts| - 1) <= |shuffled|
  {
    && (forall r :: r in result <==> r in regions)
    && (forall i :: 0 <= i < |regions| ==> result[regions[i]] == Share(shuffled, counts, i))
  }

  /** `create_regions`: `shuffled` is the node list after the shuffle, and
      `counts[i]` the rounded share of region `i` (the last region's count is
      not used). */
  method CreateRegions(nodeIds: seq<NodeId>, shuffled: seq<NodeId>, regions: seq<Region>, counts: seq<nat>)
    returns (result: map<Region, seq<NodeId>>)
    requires multiset(shuffled) == multiset(nodeIds)
    requires |regions| >= 1 && |counts| == |regions|
    requires forall i, j :: 0 <= i < j < |regions| ==> regions[i] != regions[j]
    requires Offset(counts, |counts| - 1) <= |nodeIds|
    ensures |shuffled| == |nodeIds|
    ensures SplitAsCounted(result, shuffled, regions, counts)
  {
    assert |shuffled| == |multiset(shuffled)| == |nodeIds|;
    var regionNodes := shuffled;
    var lastRegionIndex := |regions| - 1;
    result := map[];
    var i := 0;
    while i < |regions|
      invariant i <= |regions|
      invariant i <= lastRegionIndex ==> Offset(counts, i) <= |shuffled| && regionNodes == shuffled[Offset(counts, i)..]
      invariant forall r :: r in result <==> r in regions[..i]
      invariant forall j :: 0 <= j < i ==> result[regions[j]] == Share(shuffled, counts, j)
    {
      ShareBounds(shuffled, counts, i);
      assert regions[..i + 1] == regions[..i] + [regions[i]];
      if i < lastRegionIndex {
        var nodeCount := counts[i];
        var nodes := regionNodes[..nodeCount];
        assert nodes == Share(shuffled, counts, i);
        regionNodes := regionNodes[nodeCount..];
        result := result[regions[i] := nodes];
      } else {
        assert regionNodes == Share(shuffled, counts, i);
        result := result[regions[i] := regionNodes];
      }
      i := i + 1;
    }
    assert regions[..i] == regions;
  }

  /** The lists of the regions, in region order. */
  function Lists(result: map<Region, seq<NodeId>>, regions: seq<Region>): (ls: seq<seq<NodeId>>)
    requires forall i :: 0 <= i < |regions| ==> regions[i] in result
    ensures |ls| == |regions|
    ensures forall i :: 0 <= i < |regions| ==> ls[i] == result[regions[i]]
  {
    seq(|regions|, i requires 0 <= i < |regions| => result[regions[i]])
  }

  /** The lists one after the other. */
  function Flatten(ls: seq<seq<NodeId>>): seq<NodeId>
  {
    if |ls| == 0 then [] else Flatten(ls[..|ls| - 1]) + ls[|ls| - 1]
  }

  /** The regions' lists, read in region order, are the shuffled list: every
      node is assigned to exactly one region, so their total is the node
      count and they hold the input nodes. */
  lemma RegionsCoverNodes(result: map<Region, seq<NodeId>>, nodeIds: seq<NodeId>, shuffled: seq<NodeId>,
                          regions: seq<Region>, counts: seq<nat>)
    requires multiset(shuffled) == multiset(nodeIds)
    requires |regions| == |counts| >= 1
    requires Offset(counts, |counts| - 1) <= |shuffled|
    requires SplitAsCounted(result, shuffled, regions, counts)
    ensures Flatten(Lists(result, regions)) == shuffled
    ensures |Flatten(Lists(result, regions))| == |nodeIds|
    ensures multiset(Flatten(Lists(result, regions))) == multiset(nodeIds)
  {
    ListsAreShares(result, shuffled, regions, counts);
    JoinAll(Lists(result, regions), shuffled, counts);
    assert |shuffled| == |multiset(shuffled)|;
  }

  /** Region `i`'s list is its share. */
  lemma ListsAreShares(result: map<Region, seq<NodeId>>, shuffled: seq<NodeId>, regions: seq<Region>, counts: seq<nat>)
    requires |regions| == |counts| >= 1
    requires Offset(counts, |counts| - 1) <= |shuffled|
    requires SplitAsCounted(result, shuffled, regions, counts)
    ensures forall i :: 0 <= i < |regions| ==> Lists(result, regions)[i] == Share(shuffled, counts, i)
  {
  }

  /** All the shares, one after the other, are the shuffled list. */
  lemma JoinAll(ls: seq<seq<NodeId>>, shuffled: seq<NodeId>, counts: seq<nat>)
    requires |ls| == |counts| >= 1
    requires Offset(counts, |counts| - 1) <= |shuffled|
    requires forall i :: 0 <= i < |ls| ==> ls[i] == Share(shuffled, counts, i)
    ensures Flatten(ls) == shuffled
  {
    SharesJoin(ls, shuffled, counts, |ls|);
    assert ls[..|ls|] == ls;
    assert shuffled[..End(shuffled, counts, |ls| - 1)] == shuffled;
  }

  /** The shares of the first `k` regions, one after the other, are the
      shuffled list up to where region `k` starts, or all of it. */
  lemma {:induction false} SharesJoin(ls: seq<seq<NodeId>>, shuffled: seq<NodeId>, counts: seq<nat>, k: nat)
    requires |ls| == |counts| >= 1
    requires Offset(counts, |counts| - 1) <= |shuffled|
    requires forall i :: 0 <= i < |ls| ==> ls[i] == Share(shuffled, counts, i)
    requires 1 <= k <= |ls|
    ensures End(shuffled, counts, k - 1) <= |shuffled|
    ensures Flatten(ls[..k]) == shuffled[..End(shuffled, counts, k - 1)]
  {
    ShareBounds(shuffled, counts, k - 1);
    assert ls[..k][..k - 1] == ls[..k - 1];
    if k == 1 {
      assert ls[..0] == [];
      assert Flatten(ls[..1]) == ls[0];
    } else {
      SharesJoin(ls, shuffled, counts, k - 1);
      var a := Offset(counts, k - 1);
      assert End(shuffled, counts, k - 2) == a;
      assert shuffled[..End(shuffled, counts, k - 1)] == shuffled[..a] + shuffled[a..End(shuffled, counts, k - 1)];
    }
  }

  /** A node in region `i`'s share sits at a position of that share. */
  lemma InShare(shuffled: seq<NodeId>, counts: seq<nat>, i: nat, n: NodeId) returns (p: nat)
    requires i < |counts|
    requires Offset(counts, |counts| - 1) <= |shuffled|
    requires n in Share(shuffled, counts, i)
    ensures End(shuffled, counts, i) <= |shuffled|
    ensures Offset(counts, i) <= p < End(shuffled, counts, i) && shuffled[p] == n
  {
    ShareBounds(shuffled, counts, i);
    var s := Share(shuffled, counts, i);
    var q :| 0 <= q < |s| && s[q] == n;
    p := Offset(counts, i) + q;
  }

  /** With no node listed twice, no node is assigned to two regions. */
  lemma RegionsDisjoint(result: map<Region, seq<NodeId>>, shuffled: seq<NodeId>, regions: seq<Region>,
                        counts: seq<nat>, i: nat, j: nat, n: NodeId)
    requires |regions| == |counts| >= 1
    requires Offset(counts, |counts| - 1) <= |shuffled|
    requires SplitAsCounted(result, shuffled, regions, counts)
    requires forall p, q :: 0 <= p < q < |shuffled| ==> shuffled[p] != shuffled[q]
    requires i < j < |regions|
    ensures !(n in result[regions[i]] && n in result[regions[j]])
  {
    if n in result[regions[i]] && n in result[regions[j]] {
      var p := InShare(shuffled, counts, i, n);
      var q := InShare(shuffled, counts, j, n);
      OffsetMonotone(counts, i + 1, j);
      assert false;
    }
  }
}
