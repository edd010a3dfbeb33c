/** The simulator's consensus runner (simulations/src/runner.rs): every node
    of the overlay layout runs the step set of its committee's role, the
    leaders run the leader steps, and the round time is the sum of a reducer
    applied to the step times of each layer and of each leader. A node's
    behaviour (`Node::run_steps`) and the reducer are function parameters:
    running a step set on a node's state gives its new state and the time
    taken. */
module ConsensusRunner {
  import opened SimNode
  import opened TreeOverlay

  /** The step sets of the Carnot node (CARNOT_*_STEPS). */
  datatype StepSet = LeaderSteps | RootSteps | IntermediateSteps | LeafSteps | UnknownMessageReceivedSteps

  /** The step set a layer node runs for its committee's role; a role
      without its own set runs the unknown-message steps. */
  function StepsFor(role: CarnotRole): StepSet
  {
    match role
    case Root => RootSteps
    case Intermediate => IntermediateSteps
    case Leaf => LeafSteps
    case _ => UnknownMessageReceivedSteps
  }

  /** `get_committee_nodes`: one pair of the committee and a node for each
      node of the committee, in order. */
  function GetCommitteeNodes(layout: Layout, committee: nat): (r: seq<(nat, NodeId)>)
    requires committee in layout.committees
    ensures |r| == |layout.committees[committee].nodes|
    ensures forall i :: 0 <= i < |r| ==> r[i] == (committee, layout.committees[committee].nodes[i])
  {
    var nodes := layout.committees[committee].nodes;
    seq(|nodes|, i requires 0 <= i < |nodes| => (committee, nodes[i]))
  }

  /** `get_layer_nodes`: the committee pairs of each committee of the
      layer, one committee after the other. */
  function GetLayerNodes(layout: Layout, committees: seq<nat>): (r: seq<(nat, NodeId)>)
    requires forall i :: 0 <= i < |committees| ==> committees[i] in layout.committees
    ensures forall i :: 0 <= i < |r| ==>
      r[i].0 in committees && r[i].0 in layout.committees && r[i].1 in layout.committees[r[i].0].nodes
  {
    if |committees| == 0 then []
    else
      var last := committees[|committees| - 1];
      GetLayerNodes(layout, committees[..|committees| - 1]) + GetCommitteeNodes(layout, last)
  }

  /** The layer's pairs of two runs of committees are those of the first
      followed by those of the second. */
  lemma {:induction false} LayerNodesAppend(layout: Layout, a: seq<nat>, b: seq<nat>)
    requires forall i :: 0 <= i < |a| ==> a[i] in layout.committees
    requires forall i :: 0 <= i < |b| ==> b[i] in layout.committees
    ensures GetLayerNodes(layout, a + b) == GetLayerNodes(layout, a) + GetLayerNodes(layout, b)
    decreases |b|
  {
    if |b| > 0 {
      var b' := b[..|b| - 1];
      assert (a + b)[..|a + b| - 1] == a + b';
      LayerNodesAppend(layout, a, b');
    } else {
      assert a + b == a;
    }
  }

  /** Every node of every committee of the layer appears paired with its
      committee. */
  lemma {:induction false} LayerNodesComplete(layout: Layout, committees: seq<nat>, c: nat, n: NodeId)
    requires forall i :: 0 <= i < |committees| ==> committees[i] in layout.committees
    requires c in committees && c in layout.committees && n in layout.committees[c].nodes
    ensures (c, n) in GetLayerNodes(layout, committees)
  {
    var last := committees[|committees| - 1];
    var p := committees[..|committees| - 1];
    if c == last {
      var k :| 0 <= k < |layout.committees[c].nodes| && layout.committees[c].nodes[k] == n;
      assert GetCommitteeNodes(layout, last)[k] == (c, n);
    } else {
      assert c in p by {
        var i :| 0 <= i < |committees| && committees[i] == c;
        assert p[i] == c;
      }
      LayerNodesComplete(layout, p, c, n);
    }
  }

  /** The least key of a non-empty set. */
  ghost function MinOf(s: set<nat>): (m: nat)
    requires s != {}
    ensures m in s && forall x :: x in s ==> m <= x
    decreases |s|
  {
    var x :| x in s;
    var rest := s - {x};
    assert forall y :: y in s ==> y == x || y in rest;
    if rest == {} then x
    else
      var m := MinOf(rest);
      if x < m then x else m
  }

  /** The keys of a set in increasing order. The runner visits the layers in
      the order of its `HashMap`, which the model fixes as increasing. */
  ghost function SortedKeys(s: set<nat>): (r: seq<nat>)
    decreases |s|
  {
    if s == {} then []
    else
      var m := MinOf(s);
      [m] + SortedKeys(s - {m})
  }

  /** The sorted keys hold as many entries as the set. */
  lemma {:induction false} SortedKeysLength(s: set<nat>)
    ensures |SortedKeys(s)| == |s|
    decreases |s|
  {
    if s != {} {
      SortedKeysLength(s - {MinOf(s)});
    }
  }

  /** The sorted keys are the set's keys. */
  lemma {:induction false} SortedKeysMembers(s: set<nat>)
    ensures forall k :: k in SortedKeys(s) <==> k in s
    decreases |s|
  {
    if s != {} {
      var m := MinOf(s);
      SortedKeysMembers(s - {m});
      assert SortedKeys(s) == [m] + SortedKeys(s - {m});
    }
  }

  /** The sorted keys increase strictly. */
  lemma {:induction false} SortedKeysIncreasing(s: set<nat>)
    ensures forall i, j :: 0 <= i < j < |SortedKeys(s)| ==> SortedKeys(s)[i] < SortedKeys(s)[j]
    decreases |s|
  {
    if s != {} {
      var m := MinOf(s);
      var rest := s - {m};
      SortedKeysIncreasing(rest);
      SortedKeysMembers(rest);
      var r := SortedKeys(s);
      var t := SortedKeys(rest);
      assert r == [m] + t;
      forall i, j | 0 <= i < j < |r|
        ensures r[i] < r[j]
      {
        if i == 0 {
          assert r[j] == t[j - 1];
          assert t[j - 1] in rest;
        } else {
          assert r[i] == t[i - 1] && r[j] == t[j - 1];
        }
      }
    }
  }

  /** Visiting the least remaining key next keeps to the sorted order. */
  lemma NextKey(remaining: set<nat>, done: seq<nat>, all: set<nat>, k: nat)
    requires k in remaining && forall j :: j in remaining ==> k <= j
    requires done + SortedKeys(remaining) == SortedKeys(all)
    ensures (done + [k]) + SortedKeys(remaining - {k}) == SortedKeys(all)
  {
    assert k == MinOf(remaining);
  }

  /** Every key visited is a layer of the layout. */
  ghost predicate LayerKeysFit(layout: Layout)
  {
    forall i :: 0 <= i < |SortedKeys(layout.layers.Keys)| ==> SortedKeys(layout.layers.Keys)[i] in layout.layers
  }

  /** The keys visited in order are the layers of the layout. */
  lemma LayerKeys(layout: Layout)
    ensures |SortedKeys(layout.layers.Keys)| == |layout.layers|
    ensures LayerKeysFit(layout)
  {
    SortedKeysLength(layout.layers.Keys);
    SortedKeysMembers(layout.layers.Keys);
  }

  /** Step times of one run of steps per scheduled node. Running a node
      replaces its state; the times come in schedule order. */
  function Play<N>(nodes: map<NodeId, N>, runs: seq<(NodeId, StepSet)>, runSteps: (N, StepSet) -> (N, StepTime))
    : (r: (map<NodeId, N>, seq<StepTime>))
    requires forall i :: 0 <= i < |runs| ==> runs[i].0 in nodes
    ensures r.0.Keys == nodes.Keys
    ensures |r.1| == |runs|
  {
    if |runs| == 0 then (nodes, [])
    else
      var last := runs[|runs| - 1];
      var (m, ts) := Play(nodes, runs[..|runs| - 1], runSteps);
      var (node, t) := runSteps(m[last.0], last.1);
      (m[last.0 := node], ts + [t])
  }

  /** A node no run is scheduled on keeps its state. */
  lemma {:induction false} PlayLeavesOthers<N>(nodes: map<NodeId, N>, runs: seq<(NodeId, StepSet)>,
                                              runSteps: (N, StepSet) -> (N, StepTime), n: NodeId)
    requires forall i :: 0 <= i < |runs| ==> runs[i].0 in nodes
    requires n in nodes
    requires forall i :: 0 <= i < |runs| ==> runs[i].0 != n
    ensures Play(nodes, runs, runSteps).0[n] == nodes[n]
  {
    if |runs| > 0 {
      PlayLeavesOthers(nodes, runs[..|runs| - 1], runSteps, n);
    }
  }

  /** One more run: the scheduled node's state is replaced and its time is
      appended. */
  lemma PlayStep<N>(nodes: map<NodeId, N>, runs: seq<(NodeId, StepSet)>, runSteps: (N, StepSet) -> (N, StepTime), j: nat)
    requires j < |runs|
    requires forall i :: 0 <= i < |runs| ==> runs[i].0 in nodes
    ensures runs[j].0 in Play(nodes, runs[..j], runSteps).0
    ensures var (m, ts) := Play(nodes, runs[..j], runSteps);
      var (node, t) := runSteps(m[runs[j].0], runs[j].1);
      Play(nodes, runs[..j + 1], runSteps) == (m[runs[j].0 := node], ts + [t])
  {
    assert runs[..j + 1][..j] == runs[..j];
  }

  /** The leaders each run the leader steps, in order. */
  function LeaderRuns(leaders: seq<NodeId>): (r: seq<(NodeId, StepSet)>)
    ensures |r| == |leaders|
    ensures forall i :: 0 <= i < |r| ==> r[i] == (leaders[i], LeaderSteps)
  {
    seq(|leaders|, i requires 0 <= i < |leaders| => (leaders[i], LeaderSteps))
  }

  /** The layer nodes each run the step set of their committee's role. */
  function LayerRuns(layout: Layout, layerNodes: seq<(nat, NodeId)>): (r: seq<(NodeId, StepSet)>)
    requires forall i :: 0 <= i < |layerNodes| ==> layerNodes[i].0 in layout.committees
    ensures |r| == |layerNodes|
    ensures forall i :: 0 <= i < |r| ==>
      r[i] == (layerNodes[i].1, StepsFor(layout.committees[layerNodes[i].0].role))
  {
    seq(|layerNodes|, i requires 0 <= i < |layerNodes| =>
      (layerNodes[i].1, StepsFor(layout.committees[layerNodes[i].0].role)))
  }

  /** Every committee listed in a layer exists, and every node of every
      committee has a state to run. */
  ghost predicate Runnable(ids: set<NodeId>, layout: Layout)
  {
    && (forall k, i :: k in layout.layers && 0 <= i < |layout.layers[k]| ==> layout.layers[k][i] in layout.committees)
    && (forall c, n :: c in layout.committees && n in layout.committees[c].nodes ==> n in ids)
  }

  /** The step times of the layers with the given keys, one list per layer
      in key order, and the node states after them. */
  ghost function PlayLayers<N>(nodes: map<NodeId, N>, layout: Layout, keys: seq<nat>,
                               runSteps: (N, StepSet) -> (N, StepTime))
    : (r: (map<NodeId, N>, seq<seq<StepTime>>))
    requires Runnable(nodes.Keys, layout)
    requires forall i :: 0 <= i < |keys| ==> keys[i] in layout.layers
    ensures r.0.Keys == nodes.Keys
    ensures |r.1| == |keys|
    ensures forall i :: 0 <= i < |keys| ==> |r.1[i]| == |GetLayerNodes(layout, layout.layers[keys[i]])|
  {
    if |keys| == 0 then (nodes, [])
    else
      var (m, lists) := PlayLayers(nodes, layout, keys[..|keys| - 1], runSteps);
      var layerNodes := GetLayerNodes(layout, layout.layers[keys[|keys| - 1]]);
      var (m', ts) := Play(m, LayerRuns(layout, layerNodes), runSteps);
      (m', lists + [ts])
  }

  /** One more layer: its nodes run on the states the earlier layers left,
      and its list of times is appended. */
  lemma PlayLayersStep<N>(nodes: map<NodeId, N>, layout: Layout, keys: seq<nat>, k: nat,
                          runSteps: (N, StepSet) -> (N, StepTime))
    requires Runnable(nodes.Keys, layout)
    requires forall i :: 0 <= i < |keys| ==> keys[i] in layout.layers
    requires k in layout.layers
    ensures var (m, lists) := PlayLayers(nodes, layout, keys, runSteps);
      var layerNodes := GetLayerNodes(layout, layout.layers[k]);
      var (m', ts) := Play(m, LayerRuns(layout, layerNodes), runSteps);
      PlayLayers(nodes, layout, keys + [k], runSteps) == (m', lists + [ts])
  {
    assert (keys + [k])[..|keys|] == keys;
  }

  /** Each time as a list of its own. */
  function Singletons(ts: seq<StepTime>): (r: seq<seq<StepTime>>)
    ensures |r| == |ts|
    ensures forall i :: 0 <= i < |r| ==> r[i] == [ts[i]]
  {
    seq(|ts|, i requires 0 <= i < |ts| => [ts[i]])
  }

  /** The reducer applied to each list. */
  function Reduced(reducer: seq<StepTime> -> StepTime, lists: seq<seq<StepTime>>): (r: seq<StepTime>)
    ensures |r| == |lists|
    ensures forall i :: 0 <= i < |r| ==> r[i] == reducer(lists[i])
  {
    seq(|lists|, i requires 0 <= i < |lists| => reducer(lists[i]))
  }

  /** A round: the leaders run first, then the layers in key order; the
      time lists are those of the layers followed by one per leader. */
  ghost function RunSpec<N>(nodes: map<NodeId, N>, leaders: seq<NodeId>, layout: Layout,
                            runSteps: (N, StepSet) -> (N, StepTime))
    : (r: (map<NodeId, N>, seq<seq<StepTime>>))
    requires forall i :: 0 <= i < |leaders| ==> leaders[i] in nodes
    requires Runnable(nodes.Keys, layout)
  {
    var (m, leaderTimes) := Play(nodes, LeaderRuns(leaders), runSteps);
    LayerKeys(layout);
    var (m', layerTimes) := PlayLayers(m, layout, SortedKeys(layout.layers.Keys), runSteps);
    (m', layerTimes + Singletons(leaderTimes))
  }

  /** The shape of a round: one time list per layer, holding one time per
      node of the layer, then exactly one single-time list per leader, and
      no node is created or dropped. */
  lemma RunShape<N>(nodes: map<NodeId, N>, leaders: seq<NodeId>, layout: Layout,
                    runSteps: (N, StepSet) -> (N, StepTime))
    requires forall i :: 0 <= i < |leaders| ==> leaders[i] in nodes
    requires Runnable(nodes.Keys, layout)
    ensures var (m, lists) := RunSpec(nodes, leaders, layout, runSteps);
      var keys := SortedKeys(layout.layers.Keys);
      && m.Keys == nodes.Keys
      && |keys| == |layout.layers|
      && |lists| == |layout.layers| + |leaders|
      && (forall i :: 0 <= i < |keys| ==> keys[i] in layout.layers && |lists[i]| == |GetLayerNodes(layout, layout.layers[keys[i]])|)
      && (forall i :: |keys| <= i < |lists| ==> lists[i] == [Play(nodes, LeaderRuns(leaders), runSteps).1[i - |keys|]])
  {
    LayerKeys(layout);
  }

  /** The round time adds the reduced layer lists and the reduced leader
      lists. */
  lemma RoundTimeSplits(reducer: seq<StepTime> -> StepTime, layerTimes: seq<seq<StepTime>>, leaderTimes: seq<seq<StepTime>>)
    ensures SumStepTimesToDuration(Reduced(reducer, layerTimes + leaderTimes))
      == SumStepTimesToDuration(Reduced(reducer, layerTimes)) + SumStepTimesToDuration(Reduced(reducer, leaderTimes))
  {
    assert Reduced(reducer, layerTimes + leaderTimes) == Reduced(reducer, layerTimes) + Reduced(reducer, leaderTimes);
    SumStepTimesAppend(Reduced(reducer, layerTimes), Reduced(reducer, leaderTimes));
  }

  /** The simulation report: the time the round took, in milliseconds. */
  datatype Report = Report(roundTime: nat)

  /** `ConsensusRunner`: the state of every node of the layout, the view's
      leaders and the layout. */
  class Runner<N> {
    var nodes: map<NodeId, N>
    const leaders: seq<NodeId>
    const layout: Layout

    /** `ConsensusRunner::new`: one node per node id of the layout, made by
        `newNode`, which stands for `Node::new` with its settings and random
        source. */
    constructor(layout: Layout, leaders: seq<NodeId>, newNode: NodeId -> N)
      ensures this.layout == layout && this.leaders == leaders
      ensures forall n :: n in nodes <==> exists c :: c in layout.committees && n in layout.committees[c].nodes
      ensures forall n :: n in nodes ==> nodes[n] == newNode(n)
    {
      this.layout := layout;
      this.leaders := leaders;
      nodes := map c, n | c in layout.committees && n in layout.committees[c].nodes :: n := newNode(n);
    }

    /** `ConsensusRunner::run`: plays the round of `RunSpec` on the nodes
        and reports the sum of the reducer over its time lists. */
    method Run(reducer: seq<StepTime> -> StepTime, runSteps: (N, StepSet) -> (N, StepTime)) returns (report: Report)
      requires forall i :: 0 <= i < |leaders| ==> leaders[i] in nodes
      requires Runnable(nodes.Keys, layout)
      modifies this
      ensures nodes == RunSpec(old(nodes), leaders, layout, runSteps).0
      ensures report.roundTime
        == SumStepTimesToDuration(Reduced(reducer, RunSpec(old(nodes), leaders, layout, runSteps).1))
    {
      var leaderTimes := PlayLeaders(runSteps);
      var layerTimes := PlayLayersInOrder(runSteps);
      var lists := layerTimes + leaderTimes;
      report := Report(SumStepTimesToDuration(Reduced(reducer, lists)));
    }

    /** Runs the leader steps on each leader, in order; each leader's time
        is a list of its own. */
    method PlayLeaders(runSteps: (N, StepSet) -> (N, StepTime)) returns (leaderTimes: seq<seq<StepTime>>)
      requires forall i :: 0 <= i < |leaders| ==> leaders[i] in nodes
      modifies this
      ensures nodes == Play(old(nodes), LeaderRuns(leaders), runSteps).0
      ensures leaderTimes == Singletons(Play(old(nodes), LeaderRuns(leaders), runSteps).1)
    {
      var leaderRuns := LeaderRuns(leaders);
      leaderTimes := [];
      ghost var times: seq<StepTime> := [];
      var i := 0;
      while i < |leaders|
        invariant i <= |leaders|
        invariant (nodes, times) == Play(old(nodes), leaderRuns[..i], runSteps)
        invariant leaderTimes == Singletons(times)
      {
        PlayStep(old(nodes), leaderRuns, runSteps, i);
        var (node, t) := runSteps(nodes[leaders[i]], LeaderSteps);
        nodes := nodes[leaders[i] := node];
        leaderTimes := leaderTimes + [[t]];
        times := times + [t];
        i := i + 1;
      }
      assert leaderRuns[..i] == leaderRuns;
    }

    /** Runs the layers in increasing key order, one list of times per
        layer. */
    method PlayLayersInOrder(runSteps: (N, StepSet) -> (N, StepTime)) returns (layerTimes: seq<seq<StepTime>>)
      requires Runnable(nodes.Keys, layout)
      modifies this
      ensures LayerKeysFit(layout)
      ensures (nodes, layerTimes) == PlayLayers(old(nodes), layout, SortedKeys(layout.layers.Keys), runSteps)
    {
      LayerKeys(layout);
      layerTimes := [];
      var remaining := layout.layers.Keys;
      ghost var done: seq<nat> := [];
      while remaining != {}
        invariant remaining <= layout.layers.Keys
        invariant forall i :: 0 <= i < |done| ==> done[i] in layout.layers
        invariant done + SortedKeys(remaining) == SortedKeys(layout.layers.Keys)
        invariant nodes.Keys == old(nodes).Keys
        invariant (nodes, layerTimes) == PlayLayers(old(nodes), layout, done, runSteps)
        decreases |remaining|
      {
        var k :| k in remaining && forall j :: j in remaining ==> k <= j;
        NextKey(remaining, done, layout.layers.Keys, k);
        layerTimes := PlayNextLayer(k, old(nodes), done, layerTimes, runSteps);
        done := done + [k];
        remaining := remaining - {k};
      }
      assert done == SortedKeys(layout.layers.Keys);
    }

    /** Runs the layer with key `k` after the layers `done`. */
    method PlayNextLayer(k: nat, ghost start: map<NodeId, N>, ghost done: seq<nat>, layerTimes: seq<seq<StepTime>>,
                         runSteps: (N, StepSet) -> (N, StepTime))
      returns (layerTimes': seq<seq<StepTime>>)
      requires Runnable(start.Keys, layout)
      requires forall i :: 0 <= i < |done| ==> done[i] in layout.layers
      requires k in layout.layers
      requires (nodes, layerTimes) == PlayLayers(start, layout, done, runSteps)
      modifies this
      ensures (nodes, layerTimes') == PlayLayers(start, layout, done + [k], runSteps)
    {
      PlayLayersStep(start, layout, done, k, runSteps);
      var layerNodes := GetLayerNodes(layout, layout.layers[k]);
      var times := PlayLayer(layerNodes, runSteps);
      layerTimes' := layerTimes + [times];
    }

    /** Runs the step set of its committee's role on each node of a layer,
        in order, and returns their times. */
    method PlayLayer(layerNodes: seq<(nat, NodeId)>, runSteps: (N, StepSet) -> (N, StepTime)) returns (times: seq<StepTime>)
      requires forall i :: 0 <= i < |layerNodes| ==> layerNodes[i].0 in layout.committees
      requires forall i :: 0 <= i < |layerNodes| ==> layerNodes[i].1 in nodes
      modifies this
      ensures (nodes, times) == Play(old(nodes), LayerRuns(layout, layerNodes), runSteps)
    {
      var runs := LayerRuns(layout, layerNodes);
      times := [];
      var j := 0;
      while j < |layerNodes|
        invariant j <= |layerNodes|
        invariant (nodes, times) == Play(old(nodes), runs[..j], runSteps)
      {
        PlayStep(old(nodes), runs, runSteps, j);
        var (committeeId, nodeId) := layerNodes[j];
        var steps := StepsFor(layout.committees[committeeId].role);
        var (node, t) := runSteps(nodes[nodeId], steps);
        nodes := nodes[nodeId := node];
        times := times + [t];
        j := j + 1;
      }
      assert runs[..j] == runs;
    }
  }
}
