/** Identifiers and step durations of the simulator's nodes
    (simulations/src/node/mod.rs): the `NodeId`, `CommitteeId` and `StepTime`
    newtypes, the three `Sum` implementations, and the counting node used by
    the ward tests. Durations are whole milliseconds. */
module SimNode {

  /** A simulated node, identified by a machine integer. */
  datatype NodeId = NodeId(id: nat) {
    function Inner(): nat { id }
  }

  /** `NodeId::new`: wrapping then unwrapping gives the integer back. */
  function NewNodeId(i: nat): (n: NodeId)
    ensures n.Inner() == i
  {
    NodeId(i)
  }

  /** `From<usize> for NodeId`: the conversion agrees with `NodeId::new`. */
  function NodeIdFrom(i: nat): (n: NodeId)
    ensures n == NewNodeId(i)
  {
    NodeId(i)
  }

  /** A committee of the overlay, identified by a machine integer. */
  datatype CommitteeId = CommitteeId(id: nat)

  /** `CommitteeId::new`. */
  function NewCommitteeId(i: nat): (c: CommitteeId)
    ensures c.id == i
  {
    CommitteeId(i)
  }

  /** `From<usize> for CommitteeId`: agrees with `CommitteeId::new`. */
  function CommitteeIdFrom(i: nat): (c: CommitteeId)
    ensures c == NewCommitteeId(i)
  {
    CommitteeId(i)
  }

  /** The time a simulated step takes; the wrapped `Duration` is kept in
      milliseconds. */
  datatype StepTime = StepTime(millis: nat) {
    function IntoInner(): nat { millis }
  }

  /** `StepTime::new` and `From<Duration> for StepTime`. */
  function NewStepTime(duration: nat): (t: StepTime)
    ensures t.IntoInner() == duration
  {
    StepTime(duration)
  }

  /** `StepTime::from_millis`: the duration of `millis` milliseconds. */
  function StepTimeFromMillis(millis: nat): (t: StepTime)
    ensures t == NewStepTime(millis)
  {
    StepTime(millis)
  }

  /** `StepTime::from_secs`: the duration of `secs` whole seconds. */
  function StepTimeFromSecs(secs: nat): (t: StepTime)
    ensures t == NewStepTime(1000 * secs)
  {
    StepTime(secs * 1000)
  }

  /** The sum of a sequence of durations (`Sum for Duration`). */
  function TotalMillis(ds: seq<nat>): nat
  {
    if |ds| == 0 then 0 else ds[0] + TotalMillis(ds[1..])
  }

  /** The durations wrapped by a sequence of step times. */
  function Durations(ts: seq<StepTime>): (ds: seq<nat>)
    ensures |ds| == |ts|
    ensures forall i :: 0 <= i < |ts| ==> ds[i] == ts[i].IntoInner()
  {
    seq(|ts|, i requires 0 <= i < |ts| => ts[i].millis)
  }

  /** `Sum<StepTime> for StepTime`. */
  function SumStepTimes(ts: seq<StepTime>): (t: StepTime)
    ensures ts == [] ==> t == StepTime(0)
  {
    StepTime(TotalMillis(Durations(ts)))
  }

  /** `Sum<Duration> for StepTime`. */
  function SumDurations(ds: seq<nat>): (t: StepTime)
    ensures ds == [] ==> t == StepTime(0)
  {
    StepTime(TotalMillis(ds))
  }

  /** `Sum<StepTime> for Duration`. */
  function SumStepTimesToDuration(ts: seq<StepTime>): (d: nat)
    ensures ts == [] ==> d == 0
  {
    TotalMillis(Durations(ts))
  }

  /** Adding up two runs of durations one after the other is adding up
      their concatenation. */
  lemma {:induction false} TotalMillisAppend(a: seq<nat>, b: seq<nat>)
    ensures TotalMillis(a + b) == TotalMillis(a) + TotalMillis(b)
  {
    if |a| > 0 {
      assert (a + b)[1..] == a[1..] + b;
      TotalMillisAppend(a[1..], b);
    } else {
      assert a + b == b;
    }
  }

  /** The sum of step times is the step time of the summed durations, the
      three `Sum` implementations agree, and sums split over concatenation. */
  lemma SumStepTimesAppend(a: seq<StepTime>, b: seq<StepTime>)
    ensures SumStepTimes(a + b).IntoInner() == SumStepTimes(a).IntoInner() + SumStepTimes(b).IntoInner()
    ensures SumStepTimes(a) == SumDurations(Durations(a))
    ensures SumStepTimesToDuration(a) == SumStepTimes(a).IntoInner()
  {
    assert Durations(a + b) == Durations(a) + Durations(b);
    TotalMillisAppend(Durations(a), Durations(b));
  }

  /** The node of the ward tests (`impl Node for usize`): the node is its own
      current view, and each step advances it by one. */
  class CountingNode {
    var view: nat

    /** `Node::new` for `usize`: the node starts at the integer of its id. */
    constructor(nodeId: NodeId)
      ensures view == nodeId.Inner()
    {
      view := nodeId.id;
    }

    function Id(): (n: NodeId)
      reads this
      ensures n.Inner() == view
    {
      NodeIdFrom(view)
    }

    function CurrentView(): nat
      reads this
    {
      view
    }

    method Step()
      modifies this
      ensures CurrentView() == old(CurrentView()) + 1
    {
      view := view + 1;
    }
  }
}
