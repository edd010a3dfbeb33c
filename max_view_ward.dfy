/** The simulation ward over the nodes' views (simulations/src/warding/ttf.rs).
    The simulation state is the current view of each node, in the order the
    nodes are stored. The runners stop a simulation as soon as one ward's
    `analyze` returns true. */
module MaxViewWard {

  datatype MaxViewWard = MaxViewWard(maxView: nat)

  /** `analyze` as written, read off the nodes in order: the first node at
      or past the maximum view makes it false, and it is true when there is
      none. */
  function AllBelow(ward: MaxViewWard, views: seq<nat>): bool
  {
    if |views| == 0 then true
    else if views[0] >= ward.maxView then false
    else AllBelow(ward, views[1..])
  }

  /** `SimulationWard::analyze` as written: the loop over the nodes returns
      false at the first node at or past the maximum view, and true when
      there is none. */
  method Analyze(ward: MaxViewWard, views: seq<nat>) returns (r: bool)
    ensures r == AllBelow(ward, views)
    ensures r <==> forall i :: 0 <= i < |views| ==> views[i] < ward.maxView
  {
    AllBelowEveryNode(ward, views);
    for i := 0 to |views|
      invariant forall j :: 0 <= j < i ==> views[j] < ward.maxView
    {
      if views[i] >= ward.maxView {
        return false;
      }
    }
    return true;
  }

  /** `analyze` returns true exactly when every node is below the maximum
      view; in particular it does when there are no nodes. */
  lemma {:induction false} AllBelowEveryNode(ward: MaxViewWard, views: seq<nat>)
    ensures AllBelow(ward, views) <==> forall i :: 0 <= i < |views| ==> views[i] < ward.maxView
  {
    if |views| > 0 {
      AllBelowEveryNode(ward, views[1..]);
      assert forall i :: 1 <= i < |views| ==> views[i] == views[1..][i - 1];
    }
  }

  /** `analyze` returns false as soon as one node has reached the maximum
      view, wherever it stands among the nodes. */
  lemma AllBelowFalseAt(ward: MaxViewWard, views: seq<nat>, i: nat)
    requires i < |views| && views[i] >= ward.maxView
    ensures !AllBelow(ward, views)
  {
    AllBelowEveryNode(ward, views);
  }

  /** The ward's own test: with maximum view 10, `analyze` returns true for
      a node at view 9 and false once a node at view 11 is added. */
  lemma RebaseThreshold()
    ensures AllBelow(MaxViewWard(10), [9])
    ensures !AllBelow(MaxViewWard(10), [9, 11])
  {
  }

  /** The verdict as written is the reverse of the ward's purpose: since the
      runners stop on true, a simulation whose nodes are all still at view 0
      is stopped by a ward with maximum view 10, while one with a node past
      view 10 is not. */
  lemma AsWrittenStopsBelowThreshold()
    ensures AllBelow(MaxViewWard(10), [0, 0])
    ensures !Reached(MaxViewWard(10), [0, 0])
    ensures !AllBelow(MaxViewWard(10), [0, 11])
    ensures Reached(MaxViewWard(10), [0, 11])
  {
  }

  /** The intended verdict: the ward triggers once some node has reached
      the maximum view. */
  function Reached(ward: MaxViewWard, views: seq<nat>): bool
  {
    if |views| == 0 then false
    else if views[0] >= ward.maxView then true
    else Reached(ward, views[1..])
  }

  /** The intended `analyze`: the loop over the nodes returns true at the
      first node at or past the maximum view, and false when there is none. */
  method AnalyzeIntended(ward: MaxViewWard, views: seq<nat>) returns (r: bool)
    ensures r == Reached(ward, views)
    ensures r <==> exists i :: 0 <= i < |views| && views[i] >= ward.maxView
  {
    ReachedAt(ward, views);
    for i := 0 to |views|
      invariant forall j :: 0 <= j < i ==> views[j] < ward.maxView
    {
      if views[i] >= ward.maxView {
        return true;
      }
    }
    return false;
  }

  /** The intended ward triggers exactly when some node is at or past the
      maximum view, and never when there are no nodes. */
  lemma {:induction false} ReachedAt(ward: MaxViewWard, views: seq<nat>)
    ensures Reached(ward, views) <==> exists i :: 0 <= i < |views| && views[i] >= ward.maxView
  {
    if |views| > 0 {
      ReachedAt(ward, views[1..]);
      assert forall i :: 1 <= i < |views| ==> views[i] == views[1..][i - 1];
      if views[0] < ward.maxView && Reached(ward, views[1..]) {
        var k :| 0 <= k < |views[1..]| && views[1..][k] >= ward.maxView;
        assert views[k + 1] >= ward.maxView;
      }
    }
  }

  /** The intended verdict is the negation of the verdict as written. */
  lemma ReachedIsNotAllBelow(ward: MaxViewWard, views: seq<nat>)
    ensures Reached(ward, views) <==> !AllBelow(ward, views)
  {
  }
}
