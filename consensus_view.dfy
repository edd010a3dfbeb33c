/** The view progression of the Carnot consensus service
    (nomos-services/consensus/src/lib.rs): a view carries a 32-byte seed,
    the staking keys and its number; resolving a view yields the block of
    the round and the next view, and the service's run loop moves to that
    view whenever a round resolves. The round's block comes from the
    network and the leadership service, so it is an input. */
module ConsensusView {
  import opened Wrappers
  import CarnotTypes

  newtype u8 = x: int | 0 <= x < 0x100

  newtype u64 = x: int | 0 <= x < 0x1_0000_0000_0000_0000

  /** The 32-byte view seed. */
  type Seed = s: seq<u8> | |s| == 32 witness ZeroSeed()

  function ZeroSeed(): (s: seq<u8>)
    ensures |s| == 32 && forall i :: 0 <= i < 32 ==> s[i] == 0
  {
    seq(32, _ => 0)
  }

  type Stake = nat

  datatype View = View(seed: Seed, stakingKeys: map<CarnotTypes.NodeId, Stake>, viewN: u64)

  /** The view the service starts from: the zero seed, no staking keys,
      view 0. */
  function InitialView(): View
  {
    View(ZeroSeed(), map[], 0)
  }

  /** `View::generate_next_view`: the next view number, the first seed byte
      incremented and the rest of the seed and the staking keys unchanged.
      Both increments are unchecked machine additions, so the caller must
      keep the first seed byte below 255 and the view number below the
      largest `u64`. */
  function GenerateNextView(view: View, block: CarnotTypes.Block): (next: View)
    requires view.seed[0] < 255 && view.viewN < 0xFFFF_FFFF_FFFF_FFFF
    ensures next.viewN == view.viewN + 1
    ensures next.stakingKeys == view.stakingKeys
    ensures next.seed[0] == view.seed[0] + 1
    ensures forall i :: 1 <= i < 32 ==> next.seed[i] == view.seed[i]
  {
    var seed := view.seed[0 := view.seed[0] + 1];
    View(seed, view.stakingKeys, view.viewN + 1)
  }

  /** `View::id`: the view's number. */
  function Id(view: View): (r: u64)
    ensures r == view.viewN
  {
    view.viewN
  }

  /** `View::is_leader`: every node currently takes itself for the leader.
      Like `pipelined_safe_block` below, this is a stub in the source that
      answers true whatever its arguments. */
  function IsLeader(view: View, nodeId: CarnotTypes.NodeId): (r: bool)
    ensures r
  {
    true
  }

  /** `View::pipelined_safe_block`: every block is currently taken as safe.
      The source stubs it to true, with the intended check (the block is
      new and its QC is for its own view) left in a comment. */
  function PipelinedSafeBlock(view: View, block: CarnotTypes.Block): (r: bool)
    ensures r
  {
    true
  }

  /** `View::resolve`: the round yields its block with the next view
      generated from it. The leader's path (taken by everyone, as
      `is_leader` always holds) proposes the block; the other path
      reconstructs it and, when `pipelined_safe_block` holds, forwards an
      approval over the network; both give the same block and next view. */
  function Resolve(view: View, nodeId: CarnotTypes.NodeId, block: CarnotTypes.Block)
    : (r: Result<(CarnotTypes.Block, View), string>)
    requires view.seed[0] < 255 && view.viewN < 0xFFFF_FFFF_FFFF_FFFF
    ensures r.Ok? && r.value.0 == block
    ensures r.value.1 == GenerateNextView(view, block)
    ensures Id(r.value.1) == Id(view) + 1
  {
    Ok((block, GenerateNextView(view, block)))
  }

  /** The view reached after `k` resolved rounds from the initial view. */
  function ViewAfter(k: nat): (v: View)
    requires k < 255
    ensures v.viewN as int == k && v.stakingKeys == map[]
    ensures v.seed[0] as int == k && forall i :: 1 <= i < 32 ==> v.seed[i] == 0
  {
    View(ZeroSeed()[0 := k as u8], map[], k as u64)
  }

  /** The number of rounds that resolved. */
  function Resolved(rounds: seq<Result<CarnotTypes.Block, string>>): (k: nat)
    ensures k <= |rounds|
  {
    if |rounds| == 0 then 0
    else Resolved(rounds[..|rounds| - 1]) + (if rounds[|rounds| - 1].Ok? then 1 else 0)
  }

  /** The service's run loop over a finite run of rounds: a round that
      resolves (`Ok` with its block) moves the node to the view resolving
      gives. An `Err` round models the loop's error arm, which keeps the
      current view; `resolve` as written never takes it, since it always
      returns `Ok` or panics. The node ends in the view of as many steps
      from the initial view as rounds resolved. */
  method RunViews(nodeId: CarnotTypes.NodeId, rounds: seq<Result<CarnotTypes.Block, string>>) returns (curView: View)
    requires Resolved(rounds) < 255
    ensures curView == ViewAfter(Resolved(rounds))
  {
    curView := View(ZeroSeed(), map[], 0);
    var i := 0;
    while i < |rounds|
      invariant i <= |rounds|
      invariant Resolved(rounds[..i]) <= Resolved(rounds)
      invariant curView == ViewAfter(Resolved(rounds[..i]))
    {
      ResolvedPrefix(rounds, i + 1);
      assert rounds[..i + 1][..i] == rounds[..i];
      match rounds[i] {
        case Ok(block) =>
          var r := Resolve(curView, nodeId, block);
          curView := r.value.1;
        case Err(_) =>
      }
      i := i + 1;
    }
    assert rounds[..i] == rounds;
  }

  /** Fewer rounds never resolve more. */
  lemma {:induction false} ResolvedPrefix(rounds: seq<Result<CarnotTypes.Block, string>>, k: nat)
    requires k <= |rounds|
    ensures Resolved(rounds[..k]) <= Resolved(rounds)
    decreases |rounds| - k
  {
    if k < |rounds| {
      ResolvedPrefix(rounds, k + 1);
      assert rounds[..k + 1][..k] == rounds[..k];
    } else {
      assert rounds[..k] == rounds;
    }
  }
}
