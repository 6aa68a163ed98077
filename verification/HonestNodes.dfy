/** Nodes that process a contract as they should, and what a quorum of them guarantees whatever the others do. */
module HonestNodes {
  import opened Consensus
  import opened Texts

  /** What every node gets for a contract, since the provenance check and the runtime are deterministic. */
  datatype Round = Round(verified: bool, runtimeHash: string, ack: string)

  /** A halted execution still yields a hash; its status text quotes the acknowledgement. */
  function StatusOf(ack: string): VoteStatus {
    if !Contains(ack, "HALT") then Ok
    else if Contains("EXECUTION_HALT:" + ack, "PROVENANCE_FAILURE") then ProvenanceFailure
    else ExecutionHalt
  }

  /** The attestation of a node; without provenance it signs the empty hash. */
  function Process(nodeId: string, publicKey: string, sign: string -> string, round: Round): Attestation {
    if !round.verified then Attestation(nodeId, "", ProvenanceFailure, sign(""), publicKey)
    else Attestation(nodeId, round.runtimeHash, StatusOf(round.ack), sign(round.runtimeHash), publicKey)
  }

  /** Processed the contract, was not made faulty or missing, and its signature verifies. */
  predicate Honest(check: SignatureCheck, node: Node, round: Round, missing: string, faulty: string) {
    && node.nodeId != missing && node.nodeId != faulty
    && node.attestation == Process(node.nodeId, node.attestation.publicKey, node.sign, round)
    && check(node.attestation)
  }

  /** Whether the contract can be voted for at all. */
  predicate Votable(round: Round) {
    round.verified && round.runtimeHash != "" && !StatusOf(round.ack).ProvenanceFailure?
  }

  ghost predicate MarksHonest(
    check: SignatureCheck, nodes: seq<Node>, honest: seq<bool>, round: Round, missing: string, faulty: string)
  {
    |nodes| == |honest| && forall i :: 0 <= i < |nodes| && honest[i] ==> Honest(check, nodes[i], round, missing, faulty)
  }

  /** What an honest node signs, and when that can count: a halt counts like any result, unless its text mentions a
      provenance failure. */
  lemma ProcessExact(nodeId: string, publicKey: string, sign: string -> string, round: Round)
    ensures var a := Process(nodeId, publicKey, sign, round);
      && a.nodeId == nodeId && a.publicKey == publicKey && a.signature == sign(a.agreementHash)
      && a.agreementHash == (if round.verified then round.runtimeHash else "")
      && (a.status == VoteStatus.Ok <==> round.verified && !Contains(round.ack, "HALT"))
      && (a.status == ProvenanceFailure <==>
            !round.verified
            || (Contains(round.ack, "HALT") && Contains("EXECUTION_HALT:" + round.ack, "PROVENANCE_FAILURE")))
      && (Votable(round) <==> a.agreementHash != "" && a.status != ProvenanceFailure)
  {
    hide Contains;
  }

  /** All honest nodes vote for the runtime's hash, or for none when the contract cannot be voted for. */
  lemma {:induction false} HonestNodesAgree(
    check: SignatureCheck, nodes: seq<Node>, honest: seq<bool>, round: Round, missing: string, faulty: string,
    faultyHash: string, hash: string)
    requires MarksHonest(check, nodes, honest, round, missing, faulty)
    ensures HonestVotes(check, nodes, honest, missing, faulty, faultyHash, hash)
      == if Votable(round) && hash == round.runtimeHash then |nodes| - FaultyNodes(honest) else 0
  {
    hide StatusOf;
    if nodes != [] {
      var last := |nodes| - 1;
      HonestNodesAgree(check, nodes[..last], honest[..last], round, missing, faulty, faultyHash, hash);
    }
  }

  /** With fewer dishonest nodes than a quorum, nothing but the runtime's hash of a contract that can be voted for
      is ever finalised; with a quorum of honest nodes, it always is.  The dishonest nodes may send anything. */
  lemma {:induction false} HonestQuorumDecides(
    check: SignatureCheck, nodes: seq<Node>, honest: seq<bool>, round: Round, missing: string, faulty: string,
    faultyHash: string, threshold: real, hash: string)
    requires 0.5 < threshold <= 1.0 && nodes != [] && DistinctIds(nodes)
    requires MarksHonest(check, nodes, honest, round, missing, faulty)
    ensures var quorum, dishonest := QuorumSize(|nodes|, threshold), FaultyNodes(honest);
      var finalised := Finalised(check, nodes, Collect(nodes, missing, faulty, faultyHash), threshold, hash);
      && (dishonest < quorum && finalised ==> Votable(round) && hash == round.runtimeHash)
      && (|nodes| - dishonest >= quorum ==> (finalised <==> Votable(round) && hash == round.runtimeHash))
  {
    hide StatusOf;
    QuorumBounds(|nodes|, threshold);
    HonestNodesAgree(check, nodes, honest, round, missing, faulty, faultyHash, hash);
    FaultyNodesCannotOverturn(check, nodes, nodes, honest, missing, faulty, faultyHash, threshold, hash);
    hide QuorumSize, Finalised, Collect;
  }
}
