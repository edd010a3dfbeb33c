/** The consensus service's vote tally for the happy path
    (nomos-services/consensus/src/tally/happy.rs): votes for a block are
    read one by one, those for another view or block and those from nodes
    outside the committee are skipped, and a quorum certificate is issued as
    soon as enough distinct voters have been seen. The vote stream is a
    finite sequence. */
module HappyTally {
  import opened Wrappers
  import opened CarnotTypes

  datatype CarnotTallySettings = CarnotTallySettings(threshold: nat, participatingNodes: set<NodeId>)

  datatype CarnotTallyError = InvalidVote(reason: string) | InsufficientVotes | StreamEnded

  datatype CarnotTally = CarnotTally(settings: CarnotTallySettings)

  /** `CarnotTally::new`: the tally keeps its settings. */
  function New(settings: CarnotTallySettings): (t: CarnotTally)
    ensures t.settings == settings
  {
    CarnotTally(settings)
  }

  /** A vote counts when it is for the block's view and id and comes from a
      participating node. */
  predicate Accepted(settings: CarnotTallySettings, block: Block, v: VoteMsg)
  {
    && v.vote.view == block.view
    && v.vote.block == block.id
    && v.voter in settings.participatingNodes
  }

  /** The distinct voters of the accepted votes. */
  function Voters(settings: CarnotTallySettings, block: Block, votes: seq<VoteMsg>): set<NodeId>
  {
    if |votes| == 0 then {}
    else
      var last := votes[|votes| - 1];
      Voters(settings, block, votes[..|votes| - 1])
        + (if Accepted(settings, block, last) then {last.voter} else {})
  }

  /** The votes carried by the accepted vote messages. */
  function Ballots(settings: CarnotTallySettings, block: Block, votes: seq<VoteMsg>): set<Vote>
  {
    if |votes| == 0 then {}
    else
      var last := votes[|votes| - 1];
      Ballots(settings, block, votes[..|votes| - 1])
        + (if Accepted(settings, block, last) then {last.vote} else {})
  }

  /** The certificate for the block itself. */
  function BlockQc(block: Block): Qc
  {
    Standard(StandardQc(block.view, block.id))
  }

  /** The first `k` votes bring the distinct voters to the threshold, and no
      shorter prefix does. */
  ghost predicate FirstReach(settings: CarnotTallySettings, block: Block, votes: seq<VoteMsg>, k: nat)
    requires k <= |votes|
  {
    && settings.threshold <= |Voters(settings, block, votes[..k])|
    && forall j: nat :: j < k ==> |Voters(settings, block, votes[..j])| < settings.threshold
  }

  /** `CarnotTally::tally`. With a zero threshold the certificate for the
      block is returned at once with no votes; otherwise the result is Ok
      exactly when the accepted votes come from at least `threshold`
      distinct voters, and then it is the block's certificate with the votes
      accepted up to the first vote that reached the threshold. A stream
      that ends first gives `StreamEnded`. */
  method Tally(tally: CarnotTally, block: Block, votes: seq<VoteMsg>)
    returns (r: Result<(Qc, set<Vote>), CarnotTallyError>)
    ensures tally.settings.threshold == 0 ==> r == Ok((BlockQc(block), {}))
    ensures tally.settings.threshold > 0 ==>
      (r.Ok? <==> tally.settings.threshold <= |Voters(tally.settings, block, votes)|)
    ensures tally.settings.threshold > 0 && r.Ok? ==>
      exists k: nat :: k <= |votes| && FirstReach(tally.settings, block, votes, k)
        && r.value == (BlockQc(block), Ballots(tally.settings, block, votes[..k]))
    ensures r.Err? ==> r.error == StreamEnded
  {
    var settings := tally.settings;
    var seen: set<NodeId> := {};
    var outcome: set<Vote> := {};
    if settings.threshold == 0 {
      return Ok((Standard(StandardQc(block.view, block.id)), outcome));
    }
    var i := 0;
    while i < |votes|
      invariant i <= |votes|
      invariant seen == Voters(settings, block, votes[..i])
      invariant outcome == Ballots(settings, block, votes[..i])
      invariant forall j: nat :: j <= i ==> |Voters(settings, block, votes[..j])| < settings.threshold
    {
      var vote := votes[i];
      TallyStep(settings, block, votes, i);
      if vote.vote.view != block.view || vote.vote.block != block.id {
        // a vote for another view or block is skipped
      } else if vote.voter !in settings.participatingNodes {
        // a vote from outside the committee is skipped
      } else {
        seen := seen + {vote.voter};
        outcome := outcome + {vote.vote};
        if |seen| >= settings.threshold {
          FirstReachAt(settings, block, votes, i);
          assert FirstReach(settings, block, votes, i + 1);
          return Ok((Standard(StandardQc(vote.vote.view, vote.vote.block)), outcome));
        }
      }
      StillBelow(settings, block, votes, i);
      i := i + 1;
    }
    assert votes[..i] == votes;
    return Err(StreamEnded);
  }

  /** The votes up to `i` stay below the threshold when the next one does
      not reach it. */
  lemma StillBelow(settings: CarnotTallySettings, block: Block, votes: seq<VoteMsg>, i: nat)
    requires i < |votes|
    requires forall j: nat :: j <= i ==> |Voters(settings, block, votes[..j])| < settings.threshold
    requires |Voters(settings, block, votes[..i + 1])| < settings.threshold
    ensures forall j: nat :: j <= i + 1 ==> |Voters(settings, block, votes[..j])| < settings.threshold
  {
  }

  /** One more vote adds its voter and its vote exactly when it is accepted. */
  lemma TallyStep(settings: CarnotTallySettings, block: Block, votes: seq<VoteMsg>, i: nat)
    requires i < |votes|
    ensures Voters(settings, block, votes[..i + 1])
      == Voters(settings, block, votes[..i]) + (if Accepted(settings, block, votes[i]) then {votes[i].voter} else {})
    ensures Ballots(settings, block, votes[..i + 1])
      == Ballots(settings, block, votes[..i]) + (if Accepted(settings, block, votes[i]) then {votes[i].vote} else {})
  {
    assert votes[..i + 1][..i] == votes[..i];
  }

  /** When the votes up to `i` are the first to reach the threshold, the
      whole stream reaches it too. */
  lemma FirstReachAt(settings: CarnotTallySettings, block: Block, votes: seq<VoteMsg>, i: nat)
    requires i < |votes|
    requires forall j: nat :: j <= i ==> |Voters(settings, block, votes[..j])| < settings.threshold
    requires settings.threshold <= |Voters(settings, block, votes[..i + 1])|
    ensures FirstReach(settings, block, votes, i + 1)
    ensures settings.threshold <= |Voters(settings, block, votes)|
  {
    VotersGrow(settings, block, votes, i + 1, |votes|);
    assert votes[..|votes|] == votes;
  }

  /** More votes never lose a voter. */
  lemma {:induction false} VotersGrow(settings: CarnotTallySettings, block: Block, votes: seq<VoteMsg>, j: nat, k: nat)
    requires j <= k <= |votes|
    ensures Voters(settings, block, votes[..j]) <= Voters(settings, block, votes[..k])
    ensures |Voters(settings, block, votes[..j])| <= |Voters(settings, block, votes[..k])|
    decreases k
  {
    if j < k {
      VotersGrow(settings, block, votes, j, k - 1);
      assert votes[..k][..k - 1] == votes[..k - 1];
    }
    assert Voters(settings, block, votes[..j]) <= Voters(settings, block, votes[..k]);
    SubsetCard(Voters(settings, block, votes[..j]), Voters(settings, block, votes[..k]));
  }

  lemma SubsetCard<T>(a: set<T>, b: set<T>)
    requires a <= b
    ensures |a| <= |b|
  {
    assert b == a + (b - a);
  }

  /** Every voter counted is a participating node, and every vote in the
      outcome is for the block's view and id. */
  lemma {:induction false} OutcomeAccepted(settings: CarnotTallySettings, block: Block, votes: seq<VoteMsg>)
    ensures Voters(settings, block, votes) <= settings.participatingNodes
    ensures forall b :: b in Ballots(settings, block, votes) ==> b.view == block.view && b.block == block.id
  {
    if |votes| > 0 {
      OutcomeAccepted(settings, block, votes[..|votes| - 1]);
    }
  }

  /** A voter whose vote has already been counted adds nothing when it votes
      again: counting is by distinct voter. */
  lemma RepeatedVoterNotCounted(settings: CarnotTallySettings, block: Block, votes: seq<VoteMsg>, i: nat, k: nat)
    requires i < k < |votes|
    requires Accepted(settings, block, votes[i])
    requires votes[k].voter == votes[i].voter
    ensures Voters(settings, block, votes[..k + 1]) == Voters(settings, block, votes[..k])
  {
    VoterCounted(settings, block, votes, i, k);
    assert votes[..k + 1][..k] == votes[..k];
  }

  /** An accepted vote among the first `k` has its voter counted. */
  lemma {:induction false} VoterCounted(settings: CarnotTallySettings, block: Block, votes: seq<VoteMsg>, i: nat, k: nat)
    requires i < k <= |votes|
    requires Accepted(settings, block, votes[i])
    ensures votes[i].voter in Voters(settings, block, votes[..k])
    decreases k
  {
    assert votes[..k][..k - 1] == votes[..k - 1];
    if i < k - 1 {
      VoterCounted(settings, block, votes, i, k - 1);
    }
  }
}
