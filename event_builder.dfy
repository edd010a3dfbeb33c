/** The simulator's Carnot event builder
    (simulations/src/node/carnot/event_builder.rs): per-view tallies of
    messages, and `step`, which turns a round's messages into consensus
    events. The engine it consults (`consensus_engine::Carnot`) is not part
    of this model: what `step` reads from it is the value `Carnot` below. */
module EventBuilder {
  import opened Wrappers
  import opened CarnotTypes

  /** The bucket of `view` in a tally cache, empty if the view has none. */
  function Bucket<T>(cache: map<View, set<T>>, view: View): set<T>
  {
    if view in cache then cache[view] else {}
  }

  /** `Tally::tally_by` on the cache as a value: the message joins its
      view's bucket; when the bucket then holds exactly `threshold` messages
      it is removed from the cache and returned. */
  function TallyStep<T>(cache: map<View, set<T>>, view: View, message: T, threshold: nat)
    : (map<View, set<T>>, Option<set<T>>)
  {
    var entries := Bucket(cache, view) + {message};
    if |entries| == threshold then (cache - {view}, Some(entries))
    else (cache[view := entries], Option.None)
  }

  /** A tally fires exactly when the view's bucket, with the message added,
      reaches the threshold; it then hands back that bucket, which holds the
      message, and forgets the view. Otherwise it keeps the grown bucket. */
  lemma TallyStepFires<T>(cache: map<View, set<T>>, view: View, message: T, threshold: nat)
    ensures var (cache', fired) := TallyStep(cache, view, message, threshold);
      && (fired.Some? <==> |Bucket(cache, view) + {message}| == threshold)
      && (fired.Some? ==> fired.value == Bucket(cache, view) + {message} && message in fired.value
                          && view !in cache')
      && (fired.None? ==> view in cache' && cache'[view] == Bucket(cache, view) + {message})
  {
  }

  /** A tally never touches the buckets of other views. */
  lemma TallyStepOtherViews<T>(cache: map<View, set<T>>, view: View, message: T, threshold: nat, other: View)
    requires other != view
    ensures var cache' := TallyStep(cache, view, message, threshold).0;
      && (other in cache' <==> other in cache)
      && (other in cache ==> cache'[other] == cache[other])
  {
  }

  /** Tallying a message already in its bucket does not grow the count: the
      bucket is unchanged, and it fires only if it was already at the
      threshold. */
  lemma TallyStepDuplicate<T>(cache: map<View, set<T>>, view: View, message: T, threshold: nat)
    requires message in Bucket(cache, view)
    ensures var (cache', fired) := TallyStep(cache, view, message, threshold);
      && (fired.Some? <==> |Bucket(cache, view)| == threshold)
      && (fired.None? ==> Bucket(cache', view) == Bucket(cache, view))
  {
    assert Bucket(cache, view) + {message} == Bucket(cache, view);
  }

  /** A tally with threshold zero never fires: a bucket holds at least the
      message just added. */
  lemma ZeroThresholdNeverFires<T>(cache: map<View, set<T>>, view: View, message: T)
    ensures TallyStep(cache, view, message, 0).1 == Option.None
  {
    assert message in Bucket(cache, view) + {message};
  }

  /** Every bucket is below the threshold. */
  predicate BelowThreshold<T>(cache: map<View, set<T>>, threshold: nat)
  {
    forall v :: v in cache ==> |cache[v]| < threshold
  }

  /** With a fixed positive threshold, buckets stay below it: one that
      reaches it is handed back and removed. */
  lemma TallyStepKeepsBelowThreshold<T>(cache: map<View, set<T>>, view: View, message: T, threshold: nat)
    requires threshold > 0
    requires BelowThreshold(cache, threshold)
    ensures BelowThreshold(TallyStep(cache, view, message, threshold).0, threshold)
  {
    var b := Bucket(cache, view);
    assert |b| < threshold;
    assert |b + {message}| <= |b| + 1;
  }

  /** The elements of a sequence. */
  function SetOf<T>(s: seq<T>): set<T>
  {
    set x | x in s
  }

  predicate Distinct<T(==)>(s: seq<T>)
  {
    forall i, j :: 0 <= i < j < |s| ==> s[i] != s[j]
  }

  /** A sequence without repetitions has as many elements as entries. */
  lemma {:induction false} DistinctCard<T>(s: seq<T>)
    requires Distinct(s)
    ensures |SetOf(s)| == |s|
  {
    if |s| > 0 {
      var p := s[..|s| - 1];
      assert Distinct(p);
      DistinctCard(p);
      assert SetOf(s) == SetOf(p) + {s[|s| - 1]};
      assert s[|s| - 1] !in SetOf(p);
    } else {
      assert SetOf(s) == {};
    }
  }

  /** Tallying the messages one after the other on one view, with the same
      threshold: the final cache and what each call returned. */
  function Feed<T>(cache: map<View, set<T>>, view: View, messages: seq<T>, threshold: nat)
    : (r: (map<View, set<T>>, seq<Option<set<T>>>))
    ensures |r.1| == |messages|
  {
    if |messages| == 0 then (cache, [])
    else
      var (c, outs) := Feed(cache, view, messages[..|messages| - 1], threshold);
      var (c', out) := TallyStep(c, view, messages[|messages| - 1], threshold);
      (c', outs + [out])
  }

  lemma MulSplit(a: int, b: int, t: int)
    ensures a * t == (a - b) * t + b * t
  {
  }

  lemma MulAtLeast(d: int, t: int)
    requires d >= 1 && t > 0
    ensures d * t >= t
  {
  }

  /** Quotient and remainder by t are unique. */
  lemma QuotientUnique(q: int, r: int, q': int, r': int, t: int)
    requires t > 0 && 0 <= r < t && 0 <= r' < t
    requires q * t + r == q' * t + r'
    ensures q == q' && r == r'
  {
    if q > q' {
      MulSplit(q, q', t);
      MulAtLeast(q - q', t);
    } else if q < q' {
      MulSplit(q', q, t);
      MulAtLeast(q' - q, t);
    }
  }

  /** The remainder is the only r below t with n = q * t + r. */
  lemma ModUnique(n: nat, t: nat, q: nat, r: nat)
    requires t > 0 && r < t
    requires n == q * t + r
    ensures n % t == r
  {
    QuotientUnique(q, r, n / t, n % t, t);
  }

  /** The remainder of n by t, by repeated subtraction. */
  function Rem(n: nat, t: nat): (r: nat)
    requires t > 0
    ensures r < t && r <= n
    decreases n
  {
    if n < t then n else Rem(n - t, t)
  }

  /** The remainder of n from that of n - 1. */
  lemma {:induction false} RemSucc(n: nat, t: nat)
    requires n > 0 && t > 0
    ensures Rem(n, t) == (if Rem(n - 1, t) + 1 == t then 0 else Rem(n - 1, t) + 1)
    decreases n
  {
    if n > t {
      RemSucc(n - t, t);
    }
  }

  /** Repeated subtraction computes `%`. */
  lemma {:induction false} RemIsMod(n: nat, t: nat)
    requires t > 0
    ensures Rem(n, t) == n % t
    decreases n
  {
    if n < t {
      ModUnique(n, t, 0, n);
    } else {
      RemIsMod(n - t, t);
      var q := (n - t) / t;
      assert n - t == q * t + (n - t) % t;
      assert n == (q + 1) * t + (n - t) % t;
      ModUnique(n, t, q + 1, (n - t) % t);
    }
  }

  /** After tallying `messages` on `view`, the view's bucket holds the
      messages since the last firing, and is absent right after one. */
  ghost predicate BucketSinceFiring<T>(c: map<View, set<T>>, view: View, messages: seq<T>, threshold: nat)
    requires threshold > 0
  {
    && (view in c <==> Rem(|messages|, threshold) != 0)
    && (view in c ==> c[view] == SetOf(messages[|messages| - Rem(|messages|, threshold)..]))
  }

  /** The messages tallied since the last firing, oldest first: a message
      joins them, unless with it they make `threshold`, when they are
      handed back and the run starts afresh. */
  function Since<T>(messages: seq<T>, threshold: nat): (run: seq<T>)
    ensures threshold > 0 ==> |run| < threshold
  {
    if |messages| == 0 then []
    else
      var run := Since(messages[..|messages| - 1], threshold);
      if |run| + 1 == threshold then [] else run + [messages[|messages| - 1]]
  }

  /** A suffix is the entries before the last one, then the last one. */
  lemma SplitLast<T>(s: seq<T>, k: nat)
    requires k < |s|
    ensures s[k..] == s[k..|s| - 1] + [s[|s| - 1]]
  {
  }

  /** A slice of the prefix without the last entry is a slice of the
      sequence. */
  lemma PrefixSlice<T>(s: seq<T>, k: nat)
    requires k < |s|
    ensures s[..|s| - 1][k..] == s[k..|s| - 1]
  {
  }

  /** The run since the last firing is the last `|messages| mod threshold`
      messages. */
  lemma {:induction false} SinceIsSuffix<T>(messages: seq<T>, threshold: nat)
    requires threshold > 0
    ensures |Since(messages, threshold)| == Rem(|messages|, threshold)
    ensures Since(messages, threshold) == messages[|messages| - Rem(|messages|, threshold)..]
  {
    var n := |messages|;
    if n == 0 {
      assert messages[0..] == [];
    } else {
      var p := messages[..n - 1];
      SinceIsSuffix(p, threshold);
      RemSucc(n, threshold);
      var r := Rem(n - 1, threshold);
      if r + 1 != threshold {
        PrefixSlice(messages, n - 1 - r);
        SplitLast(messages, n - 1 - r);
      }
    }
  }

  /** The last message fires exactly when the number of messages is a
      multiple of the threshold, and the run it completes is the last
      `threshold` messages. */
  lemma LastFires<T>(messages: seq<T>, threshold: nat)
    requires threshold > 0 && |messages| > 0
    ensures var n := |messages|; var run := Since(messages[..n - 1], threshold);
      && (|run| + 1 == threshold <==> Rem(n, threshold) == 0)
      && (|run| + 1 == threshold ==> threshold <= n && run + [messages[n - 1]] == messages[n - threshold..])
  {
    var n := |messages|;
    var p := messages[..n - 1];
    SinceIsSuffix(p, threshold);
    RemSucc(n, threshold);
    var r := Rem(n - 1, threshold);
    if r + 1 == threshold {
      PrefixSlice(messages, n - 1 - r);
      SplitLast(messages, n - 1 - r);
    }
  }

  /** In a sequence without repetitions, the last entry is not among the
      entries from `k` before it, and those are all different. */
  lemma DistinctRun<T>(s: seq<T>, k: nat)
    requires k < |s|
    requires Distinct(s)
    ensures s[|s| - 1] !in SetOf(s[k..|s| - 1])
    ensures |SetOf(s[k..|s| - 1])| == |s| - 1 - k
  {
    var run := s[k..|s| - 1];
    forall i, j | 0 <= i < j < |run|
      ensures run[i] != run[j]
    {
      assert run[i] == s[k + i] && run[j] == s[k + j];
    }
    DistinctCard(run);
  }

  /** Among distinct messages, the last one is not in the run before it,
      whose messages are all different. */
  lemma SinceDistinct<T>(messages: seq<T>, threshold: nat)
    requires threshold > 0 && |messages| > 0
    requires Distinct(messages)
    ensures var run := Since(messages[..|messages| - 1], threshold);
      messages[|messages| - 1] !in SetOf(run) && |SetOf(run)| == |run|
  {
    var n := |messages|;
    var p := messages[..n - 1];
    SinceIsSuffix(p, threshold);
    var r := Rem(n - 1, threshold);
    DistinctRun(messages, n - 1 - r);
    PrefixSlice(messages, n - 1 - r);
  }

  /** A prefix of a sequence without repetitions has none either. */
  lemma DistinctPrefix<T>(s: seq<T>, k: nat)
    requires k <= |s|
    requires Distinct(s)
    ensures Distinct(s[..k])
  {
  }

  /** A bucket holding the distinct messages of `run` grows by a message
      not among them. */
  lemma BucketGrows<T>(c: map<View, set<T>>, view: View, run: seq<T>, m: T)
    requires m !in SetOf(run) && |SetOf(run)| == |run|
    requires view in c <==> |run| != 0
    requires view in c ==> c[view] == SetOf(run)
    ensures Bucket(c, view) + {m} == SetOf(run + [m])
    ensures |SetOf(run + [m])| == |run| + 1
  {
    assert Bucket(c, view) == SetOf(run) by {
      if |run| == 0 {
        assert run == [];
      }
    }
    assert SetOf(run + [m]) == SetOf(run) + {m};
  }

  /** Tallying a message not yet in a bucket that holds exactly the
      distinct messages of `run`, fewer than the threshold: it fires exactly
      when that makes `threshold` messages, handing them back and forgetting
      the view; otherwise the bucket grows by it. */
  lemma StepOnRun<T>(c: map<View, set<T>>, view: View, run: seq<T>, m: T, threshold: nat)
    requires |run| < threshold
    requires m !in SetOf(run) && |SetOf(run)| == |run|
    requires view in c <==> |run| != 0
    requires view in c ==> c[view] == SetOf(run)
    ensures var (c', out) := TallyStep(c, view, m, threshold);
      && (out.Some? <==> |run| + 1 == threshold)
      && (out.Some? ==> view !in c' && out == Some(SetOf(run + [m])))
      && (out.None? ==> view in c' && c'[view] == SetOf(run + [m]))
  {
    BucketGrows(c, view, run, m);
  }

  /** Feeding one more message, not in the run before it, onto a bucket
      that holds that run: the bucket then holds the new run, and the call
      hands back the completed run exactly when it reaches the threshold. */
  lemma FeedSinceStep<T>(cache: map<View, set<T>>, view: View, messages: seq<T>, threshold: nat)
    requires threshold > 0 && |messages| > 0
    requires var run := Since(messages[..|messages| - 1], threshold);
      messages[|messages| - 1] !in SetOf(run) && |SetOf(run)| == |run|
    requires var c := Feed(cache, view, messages[..|messages| - 1], threshold).0;
      var run := Since(messages[..|messages| - 1], threshold);
      && (view in c <==> |run| != 0)
      && (view in c ==> c[view] == SetOf(run))
    ensures var (c', outs) := Feed(cache, view, messages, threshold);
      var run := Since(messages[..|messages| - 1], threshold);
      && (view in c' <==> |Since(messages, threshold)| != 0)
      && (view in c' ==> c'[view] == SetOf(Since(messages, threshold)))
      && outs[|messages| - 1] == if |run| + 1 == threshold then Some(SetOf(run + [messages[|messages| - 1]])) else Option.None
  {
    var p := messages[..|messages| - 1];
    StepOnRun(Feed(cache, view, p, threshold).0, view, Since(p, threshold), messages[|messages| - 1], threshold);
  }

  /** Tallying distinct messages of one view from no bucket leaves the
      bucket of the run since the last firing, absent when that is empty. */
  lemma {:induction false} FeedSince<T>(cache: map<View, set<T>>, view: View, messages: seq<T>, threshold: nat)
    requires threshold > 0
    requires view !in cache
    requires Distinct(messages)
    ensures var c := Feed(cache, view, messages, threshold).0;
      && (view in c <==> |Since(messages, threshold)| != 0)
      && (view in c ==> c[view] == SetOf(Since(messages, threshold)))
  {
    var n := |messages|;
    if n > 0 {
      DistinctPrefix(messages, n - 1);
      FeedSince(cache, view, messages[..n - 1], threshold);
      SinceDistinct(messages, threshold);
      FeedSinceStep(cache, view, messages, threshold);
    }
  }

  /** Tallying distinct messages of one view keeps the bucket since the
      last firing. */
  lemma FeedBucket<T>(cache: map<View, set<T>>, view: View, messages: seq<T>, threshold: nat)
    requires threshold > 0
    requires view !in cache
    requires Distinct(messages)
    ensures BucketSinceFiring(Feed(cache, view, messages, threshold).0, view, messages, threshold)
  {
    FeedSince(cache, view, messages, threshold);
    SinceIsSuffix(messages, threshold);
  }

  /** Feeding messages of one view never touches the buckets of other
      views. */
  lemma {:induction false} FeedOtherViews<T>(cache: map<View, set<T>>, view: View, messages: seq<T>, threshold: nat, other: View)
    requires other != view
    ensures var c := Feed(cache, view, messages, threshold).0;
      && (other in c <==> other in cache)
      && (other in cache ==> c[other] == cache[other])
  {
    if |messages| > 0 {
      FeedOtherViews(cache, view, messages[..|messages| - 1], threshold, other);
    }
  }

  /** The first k calls of a feed are a feed of the first k messages. */
  lemma {:induction false} FeedPrefix<T>(cache: map<View, set<T>>, view: View, messages: seq<T>, threshold: nat, k: nat)
    requires k <= |messages|
    ensures Feed(cache, view, messages, threshold).1[..k] == Feed(cache, view, messages[..k], threshold).1
  {
    var n := |messages|;
    if k < n {
      var p := messages[..n - 1];
      FeedPrefix(cache, view, p, threshold, k);
      assert p[..k] == messages[..k];
    } else {
      assert messages[..k] == messages;
    }
  }

  /** The last output of a feed from a view with no bucket fires exactly
      when the number of messages is a multiple of the threshold, carrying
      the last `threshold` messages. */
  lemma FeedLastOutput<T>(cache: map<View, set<T>>, view: View, messages: seq<T>, threshold: nat)
    requires threshold > 0 && |messages| > 0
    requires view !in cache
    requires Distinct(messages)
    ensures var out := Feed(cache, view, messages, threshold).1[|messages| - 1];
      && (out.Some? <==> Rem(|messages|, threshold) == 0)
      && (out.Some? ==> threshold <= |messages|)
      && (out.Some? ==> out == Some(SetOf(messages[|messages| - threshold..])))
  {
    DistinctPrefix(messages, |messages| - 1);
    FeedSince(cache, view, messages[..|messages| - 1], threshold);
    SinceDistinct(messages, threshold);
    FeedSinceStep(cache, view, messages, threshold);
    LastFires(messages, threshold);
  }

  /** The `i`th output of a feed from a view with no bucket fires exactly
      when `i + 1` is a multiple of the threshold, carrying the `threshold`
      messages up to the `i`th. */
  lemma FeedOutputAt<T>(cache: map<View, set<T>>, view: View, messages: seq<T>, threshold: nat, i: nat)
    requires threshold > 0
    requires view !in cache
    requires Distinct(messages)
    requires i < |messages|
    ensures var out := Feed(cache, view, messages, threshold).1[i];
      && (out.Some? <==> (i + 1) % threshold == 0)
      && (out.Some? ==> threshold <= i + 1 && out == Some(SetOf(messages[i + 1 - threshold..i + 1])))
  {
    PrefixLastOutput(cache, view, messages, threshold, i);
    FeedOutputOfPrefix(cache, view, messages, threshold, i);
  }

  /** The last output of the feed of the first `i + 1` distinct messages. */
  lemma PrefixLastOutput<T>(cache: map<View, set<T>>, view: View, messages: seq<T>, threshold: nat, i: nat)
    requires threshold > 0
    requires view !in cache
    requires Distinct(messages)
    requires i < |messages|
    ensures var out := Feed(cache, view, messages[..i + 1], threshold).1[i];
      && (out.Some? <==> Rem(i + 1, threshold) == 0)
      && (out.Some? ==> threshold <= i + 1)
      && (out.Some? ==> out == Some(SetOf(messages[..i + 1][i + 1 - threshold..])))
  {
    DistinctPrefix(messages, i + 1);
    FeedLastOutput(cache, view, messages[..i + 1], threshold);
  }

  /** The `i`th output of a feed is the last output of the feed of the
      first `i + 1` messages. */
  lemma FeedOutputOfPrefix<T>(cache: map<View, set<T>>, view: View, messages: seq<T>, threshold: nat, i: nat)
    requires threshold > 0
    requires i < |messages|
    requires var out := Feed(cache, view, messages[..i + 1], threshold).1[i];
      && (out.Some? <==> Rem(i + 1, threshold) == 0)
      && (out.Some? ==> threshold <= i + 1)
      && (out.Some? ==> out == Some(SetOf(messages[..i + 1][i + 1 - threshold..])))
    ensures var out := Feed(cache, view, messages, threshold).1[i];
      && (out.Some? <==> (i + 1) % threshold == 0)
      && (out.Some? ==> threshold <= i + 1 && out == Some(SetOf(messages[i + 1 - threshold..i + 1])))
  {
    FeedPrefix(cache, view, messages, threshold, i + 1);
    var outs := Feed(cache, view, messages, threshold).1;
    assert outs[i] == outs[..i + 1][i];
    RemIsMod(i + 1, threshold);
    if outs[i].Some? {
      assert messages[..i + 1][i + 1 - threshold..] == messages[i + 1 - threshold..i + 1];
    }
  }

  /** "Fires exactly once, then clears the bucket": tallying distinct
      messages of one view, the i-th call fires exactly when i + 1 is a
      multiple of the threshold, and it hands back the last `threshold`
      messages; in between the bucket holds the messages since the last
      firing. */
  lemma FeedFiresEveryThreshold<T>(cache: map<View, set<T>>, view: View, messages: seq<T>, threshold: nat)
    requires threshold > 0
    requires view !in cache
    requires Distinct(messages)
    ensures BucketSinceFiring(Feed(cache, view, messages, threshold).0, view, messages, threshold)
    ensures var outs := Feed(cache, view, messages, threshold).1;
      forall i :: 0 <= i < |messages| ==> (outs[i].Some? <==> (i + 1) % threshold == 0)
    ensures var outs := Feed(cache, view, messages, threshold).1;
      forall i :: 0 <= i < |messages| && outs[i].Some? ==>
        threshold <= i + 1 && outs[i] == Some(SetOf(messages[i + 1 - threshold..i + 1]))
  {
    FeedBucket(cache, view, messages, threshold);
    forall i | 0 <= i < |messages| {
      FeedOutputAt(cache, view, messages, threshold, i);
    }
  }

  /** `Tally`: a cache of message sets by view, and the threshold `tally`
      uses. */
  class Tally<T(==)> {
    var cache: map<View, set<T>>
    const threshold: nat

    /** `Tally::new`: an empty cache. */
    constructor(threshold: nat)
      ensures cache == map[] && this.threshold == threshold
    {
      cache := map[];
      this.threshold := threshold;
    }

    /** `Tally::default`: an empty cache with threshold zero. */
    static method Default() returns (t: Tally<T>)
      ensures fresh(t)
      ensures t.cache == map[] && t.threshold == 0
    {
      t := new Tally(0);
    }

    /** `Tally::tally_by`. */
    method TallyBy(view: View, message: T, threshold: nat) returns (r: Option<set<T>>)
      modifies this
      ensures (cache, r) == TallyStep(old(cache), view, message, threshold)
    {
      var entries := (if view in cache then cache[view] else {}) + {message};
      cache := cache[view := entries];
      if |entries| == threshold {
        r := Some(cache[view]);
        cache := cache - {view};
        assert cache == old(cache) - {view};
      } else {
        r := Option.None;
      }
    }

    /** `Tally::tally`: `tally_by` with the tally's own threshold. */
    method Tally(view: View, message: T) returns (r: Option<set<T>>)
      modifies this
      ensures (cache, r) == TallyStep(old(cache), view, message, threshold)
    {
      r := TallyBy(view, message, threshold);
    }
  }

  /** What `step` reads from the consensus engine: its highest voted view,
      the members of the leaf and the root committees, whether this node
      leads the next view, the two thresholds, the genesis block and the
      blocks known for each view. */
  datatype Carnot = Carnot(
    highestVotedView: View,
    leafCommittee: set<NodeId>,
    rootCommittee: set<NodeId>,
    isNextLeader: bool,
    superMajorityThreshold: nat,
    leaderSuperMajorityThreshold: nat,
    genesisBlock: Block,
    blocksInView: map<View, seq<Block>>)

  /** `blocks_in_view`: no blocks for a view the engine does not know. */
  function BlocksInView(engine: Carnot, view: View): seq<Block>
  {
    if view in engine.blocksInView then engine.blocksInView[view] else []
  }

  /** `iter().find(|block| block.id == id)`: the first block with that id. */
  function FindBlock(blocks: seq<Block>, id: BlockId): (r: Option<Block>)
    ensures r.Some? ==> r.value in blocks && r.value.id == id
    ensures r.None? <==> forall b :: b in blocks ==> b.id != id
    ensures r.Some? ==>
      exists i :: 0 <= i < |blocks| && blocks[i] == r.value && forall j :: 0 <= j < i ==> blocks[j].id != id
  {
    if |blocks| == 0 then Option.None
    else if blocks[0].id == id then Some(blocks[0])
    else FindBlock(blocks[1..], id)
  }

  /** The messages of a simulated Carnot node. The proposal's chunk is kept
      as bytes: `Block::from_bytes` is not part of this model. */
  datatype CarnotMessage =
    | Proposal(proposalMsg: ProposalChunkMsg)
    | Vote(voteMsg: VoteMsg)
    | TimeoutQc(timeoutQcMsg: TimeoutQcMsg)
    | Timeout(timeoutMsg: TimeoutMsg)
    | NewView(newViewMsg: NewViewMsg)

  /** The events `step` emits. A proposal event carries the chunk the
      source decodes into a block. */
  datatype Event =
    | Proposal(chunk: seq<byte>)
    | Approve(qc: Qc, block: Block, votes: set<CarnotTypes.Vote>)
    | ProposeBlock(qc: Qc)
    | LocalTimeout
    | NewView(timeoutQc: CarnotTypes.TimeoutQc, newViews: set<CarnotTypes.NewView>)
    | TimeoutQc(timeoutQc: CarnotTypes.TimeoutQc)
    | RootTimeout(timeouts: set<CarnotTypes.Timeout>)
    | None

  function VotesOf(msgs: set<VoteMsg>): set<CarnotTypes.Vote>
  {
    set m | m in msgs :: m.vote
  }

  function TimeoutsOf(msgs: set<TimeoutMsg>): set<CarnotTypes.Timeout>
  {
    set m | m in msgs :: m.vote
  }

  function NewViewsOf(msgs: set<NewViewMsg>): set<CarnotTypes.NewView>
  {
    set m | m in msgs :: m.vote
  }

  function Max(a: View, b: View): View
  {
    if a < b then b else a
  }

  /** The state of an `EventBuilder` as a value: the four tally caches, the
      timeout tally's own threshold and the current view. */
  datatype BuilderState = BuilderState(
    leaderVotes: map<View, set<VoteMsg>>,
    votes: map<View, set<VoteMsg>>,
    timeouts: map<View, set<TimeoutMsg>>,
    newViews: map<View, set<NewViewMsg>>,
    timeoutThreshold: nat,
    currentView: View)

  /** What a vote that completed a tally yields: nothing if the engine knows
      no block of that id in the vote's view; otherwise, for a root-committee
      vote at the next leader, a block proposal on the block's QC, and else
      an approval carrying the vote's QC and the tallied votes. */
  function VoteEvents(engine: Carnot, fromRoot: bool, msg: VoteMsg, fired: Option<set<VoteMsg>>): seq<Event>
    requires msg.qc.Some?
  {
    if fired.None? then []
    else match FindBlock(BlocksInView(engine, msg.vote.view), msg.vote.block)
      case None => []
      case Some(block) =>
        if engine.isNextLeader && fromRoot then [ProposeBlock(Standard(StandardQc(block.view, block.id)))]
        else [Approve(msg.qc.value, block, VotesOf(fired.value))]
  }

  /** One message of `step`'s loop. */
  function StepMessage(s: BuilderState, engine: Carnot, message: CarnotMessage): (BuilderState, seq<Event>)
  {
    match message
    case Proposal(msg) => (s, [Event.Proposal(msg.chunk)])
    case TimeoutQc(msg) => (s, [Event.TimeoutQc(msg.qc)])
    case Vote(msg) =>
      if msg.qc.None? then (s, [])
      else
        var fromRoot := msg.voter in engine.rootCommittee;
        var threshold := if fromRoot then engine.leaderSuperMajorityThreshold else engine.superMajorityThreshold;
        var (cache, fired) := TallyStep(if fromRoot then s.leaderVotes else s.votes, msg.vote.view, msg, threshold);
        (if fromRoot then s.(leaderVotes := cache) else s.(votes := cache),
         VoteEvents(engine, fromRoot, msg, fired))
    case Timeout(msg) =>
      var (cache, fired) := TallyStep(s.timeouts, msg.vote.view, msg, s.timeoutThreshold);
      (s.(timeouts := cache), if fired.Some? then [RootTimeout(TimeoutsOf(fired.value))] else [])
    case NewView(msg) =>
      var threshold := if engine.isNextLeader then engine.leaderSuperMajorityThreshold else engine.superMajorityThreshold;
      var (cache, fired) := TallyStep(s.newViews, msg.vote.view, msg, threshold);
      (s.(newViews := cache, currentView := Max(s.currentView, msg.vote.view)),
       if fired.Some? then [Event.NewView(msg.vote.timeoutQc, NewViewsOf(fired.value))] else [])
  }

  /** `step`'s loop over the messages, in order. */
  function Run(s: BuilderState, engine: Carnot, messages: seq<CarnotMessage>): (BuilderState, seq<Event>)
  {
    if |messages| == 0 then (s, [])
    else
      var (s1, events1) := Run(s, engine, messages[..|messages| - 1]);
      var (s2, events2) := StepMessage(s1, engine, messages[|messages| - 1]);
      (s2, events1 + events2)
  }

  /** The genesis approval a leaf-committee node emits while the engine has
      voted in no view yet. */
  function GenesisEvents(id: NodeId, engine: Carnot): seq<Event>
  {
    if engine.highestVotedView == -1 && id in engine.leafCommittee then
      var genesis := engine.genesisBlock;
      [Approve(Standard(StandardQc(genesis.view, genesis.id)), genesis, {})]
    else []
  }

  /** `EventBuilder::step` on the state as a value. */
  function StepSpec(s: BuilderState, id: NodeId, engine: Carnot, messages: seq<CarnotMessage>): (BuilderState, seq<Event>)
  {
    var (s', events) := Run(s, engine, messages);
    (s', GenesisEvents(id, engine) + events)
  }

  /** `step` emits the genesis approval first exactly when the engine has
      voted in no view and this node is in the leaf committee; otherwise
      the events are those of the messages alone. */
  lemma GenesisApprovalFirst(s: BuilderState, id: NodeId, engine: Carnot, messages: seq<CarnotMessage>)
    ensures var events := StepSpec(s, id, engine, messages).1;
      var genesis := engine.genesisBlock;
      && (engine.highestVotedView == -1 && id in engine.leafCommittee ==>
            |events| > 0 && events[0] == Approve(Standard(StandardQc(genesis.view, genesis.id)), genesis, {}))
      && (!(engine.highestVotedView == -1 && id in engine.leafCommittee) ==>
            events == Run(s, engine, messages).1)
  {
  }

  /** A vote without a QC is dropped: no event, no tally touched. */
  lemma VoteWithoutQcIgnored(s: BuilderState, engine: Carnot, msg: VoteMsg)
    requires msg.qc.None?
    ensures StepMessage(s, engine, CarnotMessage.Vote(msg)) == (s, [])
  {
  }

  /** A vote with a QC goes to the leader tally with the leader threshold
      when the voter is in the root committee, and to the vote tally with
      the super-majority threshold otherwise; nothing else changes. */
  lemma VoteRouting(s: BuilderState, engine: Carnot, msg: VoteMsg)
    requires msg.qc.Some?
    ensures var s' := StepMessage(s, engine, CarnotMessage.Vote(msg)).0;
      && s'.timeouts == s.timeouts && s'.newViews == s.newViews
      && s'.timeoutThreshold == s.timeoutThreshold && s'.currentView == s.currentView
      && (msg.voter in engine.rootCommittee ==>
            && s'.votes == s.votes
            && s'.leaderVotes == TallyStep(s.leaderVotes, msg.vote.view, msg, engine.leaderSuperMajorityThreshold).0)
      && (msg.voter !in engine.rootCommittee ==>
            && s'.leaderVotes == s.leaderVotes
            && s'.votes == TallyStep(s.votes, msg.vote.view, msg, engine.superMajorityThreshold).0)
  {
  }

  /** A vote yields at most one event, and only when it completes its
      tally on a block the engine knows in the vote's view: a block proposal
      when this node is the next leader and the vote is from the root
      committee, an approval with the vote's QC otherwise. */
  lemma VoteEventsAtMostOne(s: BuilderState, engine: Carnot, msg: VoteMsg)
    requires msg.qc.Some?
    ensures var events := StepMessage(s, engine, CarnotMessage.Vote(msg)).1;
      var fromRoot := msg.voter in engine.rootCommittee;
      && |events| <= 1
      && (|events| == 1 ==>
            && (exists b :: b in BlocksInView(engine, msg.vote.view) && b.id == msg.vote.block)
            && (events[0].ProposeBlock? <==> engine.isNextLeader && fromRoot)
            && (events[0].Approve? ==> events[0].qc == msg.qc.value && events[0].block.id == msg.vote.block
                                       && events[0].block in BlocksInView(engine, msg.vote.view)))
  {
  }

  /** The chunks of the proposal events, in order. */
  function ProposalEvents(events: seq<Event>): seq<seq<byte>>
  {
    if |events| == 0 then []
    else ProposalEvents(events[..|events| - 1])
         + (if events[|events| - 1].Proposal? then [events[|events| - 1].chunk] else [])
  }

  /** The chunks of the proposal messages, in order. */
  function ProposalMessages(messages: seq<CarnotMessage>): seq<seq<byte>>
  {
    if |messages| == 0 then []
    else ProposalMessages(messages[..|messages| - 1])
         + (if messages[|messages| - 1].Proposal? then [messages[|messages| - 1].proposalMsg.chunk] else [])
  }

  /** The timeout QCs of the timeout-QC events, in order. */
  function TimeoutQcEvents(events: seq<Event>): seq<CarnotTypes.TimeoutQc>
  {
    if |events| == 0 then []
    else TimeoutQcEvents(events[..|events| - 1])
         + (if events[|events| - 1].TimeoutQc? then [events[|events| - 1].timeoutQc] else [])
  }

  /** The timeout QCs of the timeout-QC messages, in order. */
  function TimeoutQcMessages(messages: seq<CarnotMessage>): seq<CarnotTypes.TimeoutQc>
  {
    if |messages| == 0 then []
    else TimeoutQcMessages(messages[..|messages| - 1])
         + (if messages[|messages| - 1].TimeoutQc? then [messages[|messages| - 1].timeoutQcMsg.qc] else [])
  }

  lemma {:induction false} FiltersAppend(a: seq<Event>, b: seq<Event>)
    ensures ProposalEvents(a + b) == ProposalEvents(a) + ProposalEvents(b)
    ensures TimeoutQcEvents(a + b) == TimeoutQcEvents(a) + TimeoutQcEvents(b)
  {
    if |b| > 0 {
      var b' := b[..|b| - 1];
      assert (a + b)[..|a + b| - 1] == a + b';
      FiltersAppend(a, b');
    } else {
      assert a + b == a;
    }
  }

  /** One message yields its chunk as the only proposal event exactly when
      it is a proposal, and its QC as the only timeout-QC event exactly when
      it is a timeout QC. */
  lemma StepMessageFilters(s: BuilderState, engine: Carnot, message: CarnotMessage)
    ensures var events := StepMessage(s, engine, message).1;
      && ProposalEvents(events) == (if message.Proposal? then [message.proposalMsg.chunk] else [])
      && TimeoutQcEvents(events) == (if message.TimeoutQc? then [message.timeoutQcMsg.qc] else [])
  {
    var events := StepMessage(s, engine, message).1;
    assert |events| <= 1;
    if |events| == 1 {
      assert events[..0] == [];
    }
  }

  /** Each proposal message yields exactly one proposal event and each
      timeout-QC message exactly one timeout-QC event, in message order. */
  lemma {:induction false} RunKeepsProposalsAndTimeoutQcs(s: BuilderState, engine: Carnot, messages: seq<CarnotMessage>)
    ensures ProposalEvents(Run(s, engine, messages).1) == ProposalMessages(messages)
    ensures TimeoutQcEvents(Run(s, engine, messages).1) == TimeoutQcMessages(messages)
  {
    if |messages| > 0 {
      var p := messages[..|messages| - 1];
      RunKeepsProposalsAndTimeoutQcs(s, engine, p);
      var (s1, events1) := Run(s, engine, p);
      var events2 := StepMessage(s1, engine, messages[|messages| - 1]).1;
      assert Run(s, engine, messages).1 == events1 + events2;
      FiltersAppend(events1, events2);
      StepMessageFilters(s1, engine, messages[|messages| - 1]);
    }
  }

  /** The same for a whole `step`: the genesis approval adds neither. */
  lemma StepKeepsProposalsAndTimeoutQcs(s: BuilderState, id: NodeId, engine: Carnot, messages: seq<CarnotMessage>)
    ensures ProposalEvents(StepSpec(s, id, engine, messages).1) == ProposalMessages(messages)
    ensures TimeoutQcEvents(StepSpec(s, id, engine, messages).1) == TimeoutQcMessages(messages)
  {
    var events := Run(s, engine, messages).1;
    RunKeepsProposalsAndTimeoutQcs(s, engine, messages);
    FiltersAppend(GenesisEvents(id, engine), events);
    if |GenesisEvents(id, engine)| == 1 {
      assert GenesisEvents(id, engine)[..0] == [];
    }
  }

  /** The run of one more message steps on from the run of those before it. */
  lemma RunOneMore(s: BuilderState, engine: Carnot, messages: seq<CarnotMessage>, i: nat)
    requires i < |messages|
    ensures var (s1, events1) := Run(s, engine, messages[..i]);
      var (s2, events2) := StepMessage(s1, engine, messages[i]);
      Run(s, engine, messages[..i + 1]) == (s2, events1 + events2)
  {
    assert messages[..i + 1][..i] == messages[..i];
  }

  /** Only a new-view message moves the current view, to the larger of it
      and the message's view. */
  lemma StepMessageView(s: BuilderState, engine: Carnot, message: CarnotMessage)
    ensures StepMessage(s, engine, message).0.currentView
      == if message.NewView? then Max(s.currentView, message.newViewMsg.vote.view) else s.currentView
  {
  }

  /** The current view is the largest of the starting view and the views of
      the new-view messages: it never decreases, it reaches every new-view
      message's view, and it is one of those views or the starting one. */
  lemma {:induction false} RunCurrentViewIsMax(s: BuilderState, engine: Carnot, messages: seq<CarnotMessage>)
    ensures var s' := Run(s, engine, messages).0;
      && s'.currentView >= s.currentView
      && (forall i :: 0 <= i < |messages| && messages[i].NewView? ==>
            s'.currentView >= messages[i].newViewMsg.vote.view)
      && (s'.currentView == s.currentView ||
          exists i :: 0 <= i < |messages| && messages[i].NewView? &&
            s'.currentView == messages[i].newViewMsg.vote.view)
  {
    if |messages| > 0 {
      var n := |messages| - 1;
      var p := messages[..n];
      RunCurrentViewIsMax(s, engine, p);
      var s1 := Run(s, engine, p).0;
      RunOneMore(s, engine, messages, n);
      assert messages[..n + 1] == messages;
      StepMessageView(s1, engine, messages[n]);
      assert forall i :: 0 <= i < n ==> p[i] == messages[i];
      if s1.currentView != s.currentView {
        var i :| 0 <= i < |p| && p[i].NewView? && s1.currentView == p[i].newViewMsg.vote.view;
        assert messages[i] == p[i];
      }
    }
  }

  /** One message keeps a zero timeout threshold and then emits no root
      timeout. */
  lemma StepMessageNoRootTimeout(s: BuilderState, engine: Carnot, message: CarnotMessage)
    requires s.timeoutThreshold == 0
    ensures StepMessage(s, engine, message).0.timeoutThreshold == 0
    ensures forall e :: e in StepMessage(s, engine, message).1 ==> !e.RootTimeout?
  {
    if message.Timeout? {
      var msg := message.timeoutMsg;
      ZeroThresholdNeverFires(s.timeouts, msg.vote.view, msg);
    }
  }

  /** The timeout tally keeps its threshold, so with threshold zero (a
      default tally) `step` never emits a root timeout. */
  lemma {:induction false} NoRootTimeoutAtZeroThreshold(s: BuilderState, engine: Carnot, messages: seq<CarnotMessage>)
    requires s.timeoutThreshold == 0
    ensures Run(s, engine, messages).0.timeoutThreshold == 0
    ensures forall e :: e in Run(s, engine, messages).1 ==> !e.RootTimeout?
  {
    if |messages| > 0 {
      var n := |messages| - 1;
      NoRootTimeoutAtZeroThreshold(s, engine, messages[..n]);
      var (s1, events1) := Run(s, engine, messages[..n]);
      StepMessageNoRootTimeout(s1, engine, messages[n]);
      var (s2, events2) := StepMessage(s1, engine, messages[n]);
      assert Run(s, engine, messages) == (s2, events1 + events2);
    }
  }

  /** `EventBuilder`: the node's id, its four tallies and its current
      view. */
  class EventBuilder {
    const id: NodeId
    const leaderVoteMessage: Tally<VoteMsg>
    const voteMessage: Tally<VoteMsg>
    const timeoutMessage: Tally<TimeoutMsg>
    const newViewMessage: Tally<NewViewMsg>
    var currentView: View

    /** The two vote tallies are distinct objects. */
    ghost predicate Valid()
      reads this
    {
      leaderVoteMessage != voteMessage
    }

    function State(): BuilderState
      reads this, leaderVoteMessage, voteMessage, timeoutMessage, newViewMessage
    {
      BuilderState(leaderVoteMessage.cache, voteMessage.cache, timeoutMessage.cache,
                   newViewMessage.cache, timeoutMessage.threshold, currentView)
    }

    /** `EventBuilder::new`: default tallies (threshold zero) and view 0. */
    constructor(id: NodeId)
      ensures Valid() && this.id == id
      ensures State() == BuilderState(map[], map[], map[], map[], 0, 0)
    {
      this.id := id;
      var votes := Tally<VoteMsg>.Default();
      var leaderVotes := Tally<VoteMsg>.Default();
      var timeouts := Tally<TimeoutMsg>.Default();
      var newViews := Tally<NewViewMsg>.Default();
      voteMessage := votes;
      leaderVoteMessage := leaderVotes;
      timeoutMessage := timeouts;
      newViewMessage := newViews;
      currentView := 0;
    }

    /** One message of `step`'s loop. */
    method StepOne(message: CarnotMessage, engine: Carnot) returns (events: seq<Event>)
      requires Valid()
      modifies this, leaderVoteMessage, voteMessage, timeoutMessage, newViewMessage
      ensures Valid()
      ensures (State(), events) == StepMessage(old(State()), engine, message)
    {
      match message
      case Proposal(msg) =>
        events := [Event.Proposal(msg.chunk)];
      case TimeoutQc(msg) =>
        events := [Event.TimeoutQc(msg.qc)];
      case Vote(msg) =>
        var fromRoot := msg.voter in engine.rootCommittee;
        var tally := if fromRoot then leaderVoteMessage else voteMessage;
        if msg.qc.None? {
          events := [];
        } else {
          var threshold := if fromRoot then engine.leaderSuperMajorityThreshold
                           else engine.superMajorityThreshold;
          var votes := tally.TallyBy(msg.vote.view, msg, threshold);
          events := VoteEvents(engine, fromRoot, msg, votes);
        }
      case Timeout(msg) =>
        var timeouts := timeoutMessage.Tally(msg.vote.view, msg);
        events := if timeouts.Some? then [RootTimeout(TimeoutsOf(timeouts.value))] else [];
      case NewView(msg) =>
        currentView := Max(currentView, msg.vote.view);
        var threshold := if engine.isNextLeader then engine.leaderSuperMajorityThreshold
                         else engine.superMajorityThreshold;
        var newViews := newViewMessage.TallyBy(msg.vote.view, msg, threshold);
        events := if newViews.Some? then [Event.NewView(msg.vote.timeoutQc, NewViewsOf(newViews.value))] else [];
    }

    /** `step`'s loop: the messages in order. */
    method StepAll(messages: seq<CarnotMessage>, engine: Carnot) returns (events: seq<Event>)
      requires Valid()
      modifies this, leaderVoteMessage, voteMessage, timeoutMessage, newViewMessage
      ensures Valid()
      ensures (State(), events) == Run(old(State()), engine, messages)
    {
      events := [];
      ghost var s0 := State();
      var i := 0;
      while i < |messages|
        invariant 0 <= i <= |messages|
        invariant Valid()
        invariant (State(), events) == Run(s0, engine, messages[..i])
      {
        var more := StepOne(messages[i], engine);
        assert messages[..i + 1][..i] == messages[..i];
        events := events + more;
        i := i + 1;
      }
      assert messages[..|messages|] == messages;
    }

    /** `EventBuilder::step`: the genesis approval if due, then the events of
      the messages in order. */
    method Step(messages: seq<CarnotMessage>, engine: Carnot) returns (events: seq<Event>)
      requires Valid()
      modifies this, leaderVoteMessage, voteMessage, timeoutMessage, newViewMessage
      ensures Valid()
      ensures (State(), events) == StepSpec(old(State()), id, engine, messages)
    {
      events := [];
      if engine.highestVotedView == -1 && id in engine.leafCommittee {
        var genesis := engine.genesisBlock;
        events := events + [Approve(Standard(StandardQc(genesis.view, genesis.id)), genesis, {})];
      }
      assert events == GenesisEvents(id, engine);
      ghost var s0 := State();
      var more := StepAll(messages, engine);
      assert StepSpec(s0, id, engine, messages) == (State(), events + more);
      events := events + more;
    }
  }
}
