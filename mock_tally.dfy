/** The mock vote tally of nomos-core (nomos-core/src/vote/mock.rs): every
    vote must be for the requested view, votes are counted without
    de-duplication, and a certificate is issued once the count exceeds the
    threshold. The vote stream is a finite sequence. */
module MockTally {
  import opened Wrappers

  datatype MockVote = MockVote(view: int)

  datatype MockQc = MockQc(countVotes: nat) {
    /** `MockQc::votes`. */
    function Votes(): nat { countVotes }
  }

  /** `MockQc::new`: the certificate reports the count it was made with. */
  function NewMockQc(countVotes: nat): (qc: MockQc)
    ensures qc.Votes() == countVotes
  {
    MockQc(countVotes)
  }

  datatype Error = Error(message: string)

  datatype MockTallySettings = MockTallySettings(threshold: nat)

  datatype MockTally = MockTally(threshold: nat)

  /** `MockTally::new`: the threshold is taken from the settings unchanged. */
  function New(settings: MockTallySettings): (t: MockTally)
    ensures t.threshold == settings.threshold
  {
    MockTally(settings.threshold)
  }

  /** `MockTally::tally`. The result is a certificate of exactly
      `threshold + 1` votes when the first `threshold + 1` votes are all for
      `view`; "Invalid vote" when one of them is for another view; and "Not
      enough votes" when the stream ends before that many votes, all for
      `view`, have come. */
  method Tally(tally: MockTally, view: int, votes: seq<MockVote>) returns (r: Result<(MockQc, ()), Error>)
    ensures r.Ok? <==> tally.threshold < |votes| && forall i :: 0 <= i <= tally.threshold ==> votes[i].view == view
    ensures r.Ok? ==> r.value.0.Votes() == tally.threshold + 1
    ensures r == Err(Error("Invalid vote"))
      <==> exists i :: 0 <= i < |votes| && i <= tally.threshold && votes[i].view != view
    ensures r == Err(Error("Not enough votes"))
      <==> |votes| <= tally.threshold && forall i :: 0 <= i < |votes| ==> votes[i].view == view
  {
    var countVotes := 0;
    var i := 0;
    while i < |votes|
      invariant i <= |votes| && i <= tally.threshold
      invariant countVotes == i
      invariant forall j :: 0 <= j < i ==> votes[j].view == view
    {
      var vote := votes[i];
      if vote.view != view {
        return Err(Error("Invalid vote"));
      }
      countVotes := countVotes + 1;
      if countVotes > tally.threshold {
        return Ok((MockQc(countVotes), ()));
      }
      i := i + 1;
    }
    return Err(Error("Not enough votes"));
  }
}
