/** The value types the consensus service and the simulator exchange: the
    `consensus_engine` types they use (blocks, votes, quorum certificates,
    timeouts and new-view votes, reduced to the fields the modelled code
    reads or passes on) and the network messages of
    nomos-services/consensus/src/network/messages.rs. */
module CarnotTypes {
  import opened Wrappers

  newtype byte = b: int | 0 <= b < 256

  /** A view number (`i64`). */
  type View = int

  /** A node's public key. */
  type NodeId = seq<byte>

  type BlockId = seq<byte>

  datatype Block = Block(id: BlockId, view: View)

  datatype StandardQc = StandardQc(view: View, id: BlockId)

  datatype AggregateQc = AggregateQc(highQc: StandardQc, view: View)

  datatype Qc = Standard(standard: StandardQc) | Aggregated(aggregated: AggregateQc)

  datatype Vote = Vote(view: View, block: BlockId)

  datatype TimeoutQc = TimeoutQc(view: View, highQc: StandardQc, sender: NodeId)

  datatype Timeout = Timeout(view: View, sender: NodeId, highQc: StandardQc, timeoutQc: Option<TimeoutQc>)

  datatype NewView = NewView(view: View, sender: NodeId, timeoutQc: TimeoutQc, highQc: StandardQc)

  datatype ProposalChunkMsg = ProposalChunkMsg(chunk: seq<byte>, proposal: BlockId, view: View)

  datatype VoteMsg = VoteMsg(voter: NodeId, vote: Vote, qc: Option<Qc>)

  datatype NewViewMsg = NewViewMsg(voter: NodeId, vote: NewView)

  datatype TimeoutMsg = TimeoutMsg(voter: NodeId, vote: Timeout)

  datatype TimeoutQcMsg = TimeoutQcMsg(source: NodeId, qc: TimeoutQc)
}
