/** Consensus over signed attestations: what is counted, and when a hash is finalised. */
module Consensus {
  import opened Options
  import opened OrderedDicts
  import opened Selections
  import opened Sums

  /** The status of an attestation, and whether it reports a provenance failure or a halted execution. */
  datatype VoteStatus = Ok | ExecutionHalt | ProvenanceFailure

  datatype Attestation = Attestation(
    nodeId: string, agreementHash: string, status: VoteStatus, signature: string, publicKey: string)

  /** A node: its id, what processing the contract gives, and how it signs a hash. */
  datatype Node = Node(nodeId: string, attestation: Attestation, sign: string -> string)

  /** Does the signature of an attestation verify under its public key? */
  type SignatureCheck = Attestation -> bool

  datatype Reason = MissingParticipant | SignatureInvalid | Reported(status: VoteStatus) | DivergentHash(hash: string)

  datatype Proof = Proof(
    participating: seq<string>, finalHash: string, agreement: real, reached: bool, disagreements: Dict<string, Reason>,
    quorumSize: int)

  function Ceil(x: real): int {
    -((-x).Floor)
  }

  function Share(n: nat, threshold: real): real {
    n as real * threshold
  }

  /** `math.ceil(len(nodes) * threshold)` */
  function QuorumSize(n: nat, threshold: real): int {
    Ceil(Share(n, threshold))
  }

  /** `"NO_CONSENSUS"` and the injected wrong hash. */
  const NO_CONSENSUS := "NO_CONSENSUS"

  /** What a node contributes to the collected attestations, given the two fault injections. */
  function Contribution(node: Node, faulty: string, faultyHash: string): Attestation {
    if node.nodeId == faulty then
      Attestation(node.nodeId, faultyHash, node.attestation.status, node.sign(faultyHash), node.attestation.publicKey)
    else node.attestation
  }

  /** Attestations by node id, in the order in which the ids first appeared. */
  function Collect(nodes: seq<Node>, missing: string, faulty: string, faultyHash: string): Dict<string, Attestation> {
    if nodes == [] then []
    else
      var last := nodes[|nodes| - 1];
      var before := Collect(nodes[..|nodes| - 1], missing, faulty, faultyHash);
      if last.nodeId == missing then before else Put(before, last.nodeId, Contribution(last, faulty, faultyHash))
  }

  /** Counts for a hash: signed correctly, not a provenance failure, and not empty. */
  predicate CountsFor(check: SignatureCheck, a: Attestation, hash: string) {
    check(a) && a.agreementHash == hash && hash != "" && !a.status.ProvenanceFailure?
  }

  function Votes(check: SignatureCheck, attestations: Dict<string, Attestation>, hash: string): nat {
    if attestations == [] then 0
    else
      Votes(check, attestations[..|attestations| - 1], hash)
      + if CountsFor(check, attestations[|attestations| - 1].value, hash) then 1 else 0
  }

  /** How often each hash is voted for, in order of first votes. */
  function Counts(check: SignatureCheck, attestations: Dict<string, Attestation>): Dict<string, nat> {
    if attestations == [] then []
    else
      var before := Counts(check, attestations[..|attestations| - 1]);
      var a := attestations[|attestations| - 1].value;
      if CountsFor(check, a, a.agreementHash) then Put(before, a.agreementHash, Get(before, a.agreementHash, 0) + 1)
      else before
  }

  lemma {:induction false} CountsAreVotes(check: SignatureCheck, attestations: Dict<string, Attestation>, hash: string)
    ensures Get(Counts(check, attestations), hash, 0) == Votes(check, attestations, hash)
    ensures Has(Counts(check, attestations), hash) <==> Votes(check, attestations, hash) > 0
    ensures UniqueKeys(Counts(check, attestations))
  {
    if attestations != [] {
      var init, a := attestations[..|attestations| - 1], attestations[|attestations| - 1].value;
      CountsAreVotes(check, init, hash);
      if CountsFor(check, a, a.agreementHash) {
        var n := Get(Counts(check, init), a.agreementHash, 0) + 1;
        PutEffect(Counts(check, init), a.agreementHash, n, hash, 0);
        PutKeepsUnique(Counts(check, init), a.agreementHash, n);
      }
    }
  }

  /** Why a node is listed as disagreeing, if it is; `majority` is absent when no hash has a vote. */
  function Disagreement(check: SignatureCheck, a: Attestation, majority: Option<string>): Option<Reason> {
    if !check(a) then Some(SignatureInvalid)
    else if majority.None? then Some(Reported(a.status))
    else if a.agreementHash != majority.value then
      Some(if a.status.Ok? then DivergentHash(a.agreementHash) else Reported(a.status))
    else None
  }

  /** The unsigned votes first, then the other disagreeing ones. */
  function Listed(
    check: SignatureCheck, attestations: Dict<string, Attestation>, majority: Option<string>, signed: bool,
    base: Dict<string, Reason>): Dict<string, Reason>
  {
    if attestations == [] then base
    else
      var before := Listed(check, attestations[..|attestations| - 1], majority, signed, base);
      var last := attestations[|attestations| - 1];
      var reason := Disagreement(check, last.value, majority);
      if reason.Some? && check(last.value) == signed then Put(before, last.key, reason.value) else before
  }

  function Disagreements(
    check: SignatureCheck, attestations: Dict<string, Attestation>, majority: Option<string>,
    absent: Dict<string, Reason>): Dict<string, Reason>
  {
    Listed(check, attestations, majority, true, Listed(check, attestations, majority, false, absent))
  }

  // ---- The engine ----

  /** Position of the first largest count: `max(hash_counts, key=hash_counts.get)`. */
  method FirstLargest(counts: Dict<string, nat>) returns (k: nat)
    requires counts != []
    ensures k < |counts|
    ensures forall i :: 0 <= i < |counts| ==> counts[i].value <= counts[k].value
    ensures forall i :: 0 <= i < k ==> counts[i].value < counts[k].value
  {
    k := 0;
    for j := 1 to |counts|
      invariant k < j
      invariant forall i :: 0 <= i < j ==> counts[i].value <= counts[k].value
      invariant forall i :: 0 <= i < k ==> counts[i].value < counts[k].value
    {
      if counts[j].value > counts[k].value {
        k := j;
      }
    }
  }

  /** The one node that is simulated as missing is not asked; everybody else takes part. */
  function Absent(nodes: seq<Node>, missing: string): Dict<string, Reason> {
    if exists i :: 0 <= i < |nodes| && nodes[i].nodeId == missing then [Item(missing, MissingParticipant)] else []
  }

  function Participating(nodes: seq<Node>, missing: string): seq<string> {
    if nodes == [] then []
    else
      var last := nodes[|nodes| - 1].nodeId;
      Participating(nodes[..|nodes| - 1], missing) + if last == missing then [] else [last]
  }

  method CollectAttestations(nodes: seq<Node>, missing: string, faulty: string, faultyHash: string)
    returns (attestations: Dict<string, Attestation>, participating: seq<string>, absent: Dict<string, Reason>)
    ensures attestations == Collect(nodes, missing, faulty, faultyHash)
    ensures participating == Participating(nodes, missing) && absent == Absent(nodes, missing)
  {
    attestations, participating, absent := [], [], [];
    for k := 0 to |nodes|
      invariant attestations == Collect(nodes[..k], missing, faulty, faultyHash)
      invariant participating == Participating(nodes[..k], missing) && absent == Absent(nodes[..k], missing)
    {
      assert nodes[..k + 1][..k] == nodes[..k] && nodes[..k + 1][k] == nodes[k];
      var id := nodes[k].nodeId;
      if id == missing {
        absent := Put(absent, id, MissingParticipant);
      } else {
        participating := participating + [id];
        attestations := Put(attestations, id, Contribution(nodes[k], faulty, faultyHash));
      }
    }
    assert nodes[..|nodes|] == nodes;
  }

  method CountVotes(check: SignatureCheck, attestations: Dict<string, Attestation>) returns (counts: Dict<string, nat>)
    ensures counts == Counts(check, attestations)
  {
    counts := [];
    for k := 0 to |attestations|
      invariant counts == Counts(check, attestations[..k])
    {
      assert attestations[..k + 1][..k] == attestations[..k];
      var a := attestations[k].value;
      if check(a) && a.agreementHash != "" && !a.status.ProvenanceFailure? {
        counts := Put(counts, a.agreementHash, Get(counts, a.agreementHash, 0) + 1);
      }
    }
    assert attestations[..|attestations|] == attestations;
  }

  method ListDisagreements(
    check: SignatureCheck, attestations: Dict<string, Attestation>, majority: Option<string>, signed: bool,
    base: Dict<string, Reason>) returns (disagreements: Dict<string, Reason>)
    ensures disagreements == Listed(check, attestations, majority, signed, base)
  {
    disagreements := base;
    for k := 0 to |attestations|
      invariant disagreements == Listed(check, attestations[..k], majority, signed, base)
    {
      assert attestations[..k + 1][..k] == attestations[..k];
      var reason := Disagreement(check, attestations[k].value, majority);
      if reason.Some? && check(attestations[k].value) == signed {
        disagreements := Put(disagreements, attestations[k].key, reason.value);
      }
    }
    assert attestations[..|attestations|] == attestations;
  }

  /** A hash is finalised exactly when it has a quorum of votes, and consensus is reported exactly when the share
      of the leading hash meets the threshold. */
  method RunConsensus(
    nodes: seq<Node>, threshold: real, check: SignatureCheck, missing: string, faulty: string, faultyHash: string)
    returns (proof: Proof)
    requires 0.5 < threshold <= 1.0
    ensures proof.quorumSize == QuorumSize(|nodes|, threshold)
    ensures |nodes| as real * threshold <= proof.quorumSize as real < |nodes| as real * threshold + 1.0
    ensures proof.participating == Participating(nodes, missing)
    ensures var attestations := Collect(nodes, missing, faulty, faultyHash);
      && (forall hash ::
            proof.reached && proof.finalHash == hash <==> Finalised(check, nodes, attestations, threshold, hash))
      && (forall hash ::
            proof.reached && proof.finalHash == hash <==>
              nodes != [] && hash != "" && |Voters(check, attestations, hash)| >= proof.quorumSize)
      && (proof.reached <==> proof.agreement >= threshold)
      && (!proof.reached ==> proof.finalHash == if proof.participating == [] then "" else "NO_CONSENSUS")
      && exists majority ::
           && IsMajority(check, attestations, majority) && IsLeader(Counts(check, attestations), majority)
           && proof.agreement == (if majority.None? then 0.0
                                  else Votes(check, attestations, majority.value) as real / |nodes| as real)
           && proof.disagreements == Disagreements(check, attestations, majority, Absent(nodes, missing))
  {
    hide Collect, Votes, Counts, Listed, Participating, Absent, QuorumSize, IsMajority, Voters;
    var quorumSize := QuorumSize(|nodes|, threshold);
    var attestations, participating, absent := CollectAttestations(nodes, missing, faulty, faultyHash);
    forall hash
      ensures Finalised(check, nodes, attestations, threshold, hash)
        <==> nodes != [] && hash != "" && |Voters(check, attestations, hash)| >= quorumSize
    {
      FinalisedByVoters(check, nodes, attestations, threshold, hash);
    }
    QuorumBounds(|nodes|, threshold);
    if participating == [] {
      NobodyTakesPart(check, nodes, missing, faulty, faultyHash);
      proof := Proof([], "", 0.0, false, absent, quorumSize);
      return;
    }
    SomebodyTakesPart(nodes, missing);
    var counts := CountVotes(check, attestations);
    if counts == [] {
      NobodyVotes(check, attestations);
      var unsigned := ListDisagreements(check, attestations, None, false, absent);
      var disagreements := ListDisagreements(check, attestations, None, true, unsigned);
      proof := Proof(participating, NO_CONSENSUS, 0.0, false, disagreements, quorumSize);
      return;
    }
    var k := FirstLargest(counts);
    var majority := counts[k].key;
    var agreement := counts[k].value as real / |nodes| as real;
    LeaderDecides(check, nodes, missing, faulty, faultyHash, threshold, counts, k);
    UnsignedDoNotDependOnMajority(check, attestations, None, Some(majority), absent);
    var unsigned := ListDisagreements(check, attestations, None, false, absent);
    var disagreements := ListDisagreements(check, attestations, Some(majority), true, unsigned);
    var reached := agreement >= threshold;
    var finalHash := if reached then majority else NO_CONSENSUS;
    proof := Proof(participating, finalHash, agreement, reached, disagreements, quorumSize);
  }

  // ---- Counting ----

  /** Some hash with the most votes, or none if no hash has a vote. */
  ghost predicate IsMajority(check: SignatureCheck, attestations: Dict<string, Attestation>, majority: Option<string>) {
    match majority
    case None => forall hash :: Votes(check, attestations, hash) == 0
    case Some(m) => Votes(check, attestations, m) > 0
                    && forall hash :: Votes(check, attestations, hash) <= Votes(check, attestations, m)
  }

  /** The hash that reached the largest count and got its first vote earliest. */
  ghost predicate IsLeader(counts: Dict<string, nat>, leader: Option<string>) {
    match leader
    case None => counts == []
    case Some(m) => exists k :: 0 <= k < |counts| && counts[k].key == m
                                && (forall i :: 0 <= i < |counts| ==> counts[i].value <= counts[k].value)
                                && (forall i :: 0 <= i < k ==> counts[i].value < counts[k].value)
  }

  ghost predicate Finalised(
    check: SignatureCheck, nodes: seq<Node>, attestations: Dict<string, Attestation>, threshold: real, hash: string)
  {
    nodes != [] && Votes(check, attestations, hash) >= QuorumSize(|nodes|, threshold)
  }

  /** The positions of the attestations with a good signature that name a hash and report no provenance failure. */
  ghost function Voters(check: SignatureCheck, attestations: Dict<string, Attestation>, hash: string): set<int> {
    set i | 0 <= i < |attestations| && check(attestations[i].value) && attestations[i].value.agreementHash == hash
            && !attestations[i].value.status.ProvenanceFailure?
  }

  lemma {:induction false} VotesAreVoters(
    check: SignatureCheck, attestations: Dict<string, Attestation>, hash: string)
    ensures Votes(check, attestations, hash) == if hash == "" then 0 else |Voters(check, attestations, hash)|
  {
    if attestations != [] {
      var n := |attestations| - 1;
      var init := attestations[..n];
      VotesAreVoters(check, init, hash);
      assert forall i :: 0 <= i < n ==> init[i] == attestations[i];
      assert Voters(check, attestations, hash)
        == Voters(check, init, hash) + if n in Voters(check, attestations, hash) then {n} else {};
      assert n !in Voters(check, init, hash);
    }
  }

  /** A hash is finalised exactly when a quorum of attestations with good signatures names it. */
  lemma FinalisedByVoters(
    check: SignatureCheck, nodes: seq<Node>, attestations: Dict<string, Attestation>, threshold: real, hash: string)
    requires 0.5 < threshold <= 1.0
    ensures Finalised(check, nodes, attestations, threshold, hash)
      <==> nodes != [] && hash != "" && |Voters(check, attestations, hash)| >= QuorumSize(|nodes|, threshold)
    ensures Finalised(check, nodes, attestations, threshold, hash) <==>
      nodes != [] && hash != ""
      && |set i | 0 <= i < |attestations| && check(attestations[i].value)
                && attestations[i].value.agreementHash == hash
                && !attestations[i].value.status.ProvenanceFailure? :: i| >= QuorumSize(|nodes|, threshold)
  {
    VotesAreVoters(check, attestations, hash);
    QuorumBounds(|nodes|, threshold);
    assert Voters(check, attestations, hash)
      == set i | 0 <= i < |attestations| && check(attestations[i].value)
               && attestations[i].value.agreementHash == hash
               && !attestations[i].value.status.ProvenanceFailure? :: i;
    hide Votes, Voters, QuorumSize;
  }

  predicate MeetsThreshold(votes: nat, n: nat, threshold: real) {
    votes as real >= Share(n, threshold)
  }

  /** The quorum is the least number of votes whose share meets the threshold, and more than half of the nodes. */
  lemma QuorumBounds(n: nat, threshold: real)
    requires 0.5 < threshold <= 1.0
    ensures forall votes: nat :: MeetsThreshold(votes, n, threshold) <==> votes >= QuorumSize(n, threshold)
    ensures n > 0 ==> 2 * QuorumSize(n, threshold) > n && 0 < QuorumSize(n, threshold) <= n
    ensures n as real * threshold <= QuorumSize(n, threshold) as real < n as real * threshold + 1.0
  {
    assert Share(n, threshold) == n as real * threshold;
    ShareBounds(n, threshold);
    hide Share, Ceil;
    CeilIsLeast(Share(n, threshold), n);
    forall votes: nat
      ensures MeetsThreshold(votes, n, threshold) <==> votes >= QuorumSize(n, threshold)
    {
      CeilIsLeast(Share(n, threshold), votes);
    }
  }

  lemma CeilIsLeast(x: real, k: int)
    ensures k as real >= x <==> k >= Ceil(x)
    ensures x <= Ceil(x) as real < x + 1.0
  {
    var c := Ceil(x);
    assert -x - 1.0 < (-x).Floor as real <= -x;
    if k < c {
      assert k as real <= c as real - 1.0;
    }
  }

  lemma ShareBounds(n: nat, threshold: real)
    requires 0.5 < threshold <= 1.0
    ensures n as real * 0.5 <= Share(n, threshold) <= n as real
    ensures n > 0 ==> n as real * 0.5 < Share(n, threshold)
  {
    var m := n as real;
    Product(m, threshold - 0.5);
    Product(m, 1.0 - threshold);
    assert m * threshold - m * 0.5 == m * (threshold - 0.5);
    assert m - m * threshold == m * (1.0 - threshold);
  }

  lemma Product(a: real, b: real)
    requires a >= 0.0 && b >= 0.0
    ensures a * b >= 0.0
    ensures a > 0.0 && b > 0.0 ==> a * b > 0.0
  {
  }

  lemma ShareMeetsThreshold(votes: nat, n: nat, threshold: real)
    requires n > 0
    ensures votes as real / n as real >= threshold <==> MeetsThreshold(votes, n, threshold)
  {
    var share := votes as real / n as real;
    assert share * n as real == votes as real;
    if share >= threshold {
      assert (share - threshold) * n as real >= 0.0;
    } else {
      assert (threshold - share) * n as real > 0.0;
    }
  }

  lemma {:induction false} TwoHashesShareTheVotes(
    check: SignatureCheck, attestations: Dict<string, Attestation>, a: string, b: string)
    requires a != b
    ensures Votes(check, attestations, a) + Votes(check, attestations, b) <= |attestations|
  {
    if attestations != [] {
      TwoHashesShareTheVotes(check, attestations[..|attestations| - 1], a, b);
    }
  }

  lemma {:induction false} PutGrows<K, V>(d: Dict<K, V>, key: K, value: V)
    ensures |d| <= |Put(d, key, value)| <= |d| + 1
  {
    if d != [] && d[0].key != key {
      PutGrows(d[1..], key, value);
    }
  }

  lemma {:induction false} NoMoreAttestationsThanNodes(
    nodes: seq<Node>, missing: string, faulty: string, faultyHash: string)
    ensures |Collect(nodes, missing, faulty, faultyHash)| <= |nodes|
  {
    if nodes != [] {
      var last := nodes[|nodes| - 1];
      NoMoreAttestationsThanNodes(nodes[..|nodes| - 1], missing, faulty, faultyHash);
      PutGrows(Collect(nodes[..|nodes| - 1], missing, faulty, faultyHash), last.nodeId,
               Contribution(last, faulty, faultyHash));
    }
  }

  /** At most one hash is finalised. */
  lemma {:induction false} FinalisedIsUnique(
    check: SignatureCheck, nodes: seq<Node>, missing: string, faulty: string, faultyHash: string, threshold: real,
    a: string, b: string)
    requires 0.5 < threshold <= 1.0
    requires Finalised(check, nodes, Collect(nodes, missing, faulty, faultyHash), threshold, a)
    requires Finalised(check, nodes, Collect(nodes, missing, faulty, faultyHash), threshold, b)
    ensures a == b
  {
    var attestations := Collect(nodes, missing, faulty, faultyHash);
    hide Collect, Votes, QuorumSize;
    QuorumBounds(|nodes|, threshold);
    NoMoreAttestationsThanNodes(nodes, missing, faulty, faultyHash);
    if a != b {
      TwoHashesShareTheVotes(check, attestations, a, b);
    }
  }

  lemma {:induction false} NobodyTakesPart(
    check: SignatureCheck, nodes: seq<Node>, missing: string, faulty: string, faultyHash: string)
    requires Participating(nodes, missing) == []
    ensures Collect(nodes, missing, faulty, faultyHash) == []
    ensures forall hash :: Votes(check, Collect(nodes, missing, faulty, faultyHash), hash) == 0
    ensures IsMajority(check, Collect(nodes, missing, faulty, faultyHash), None)
    ensures Counts(check, Collect(nodes, missing, faulty, faultyHash)) == []
    ensures forall absent :: Disagreements(check, Collect(nodes, missing, faulty, faultyHash), None, absent) == absent
  {
    if nodes != [] {
      NobodyTakesPart(check, nodes[..|nodes| - 1], missing, faulty, faultyHash);
    }
  }

  lemma {:induction false} SomebodyTakesPart(nodes: seq<Node>, missing: string)
    requires Participating(nodes, missing) != []
    ensures nodes != []
  {
  }

  lemma NobodyVotes(check: SignatureCheck, attestations: Dict<string, Attestation>)
    requires Counts(check, attestations) == []
    ensures forall hash :: Votes(check, attestations, hash) == 0
    ensures IsMajority(check, attestations, None)
  {
    forall hash
      ensures Votes(check, attestations, hash) == 0
    {
      CountsAreVotes(check, attestations, hash);
    }
  }

  lemma {:induction false} UnsignedDoNotDependOnMajority(
    check: SignatureCheck, attestations: Dict<string, Attestation>, a: Option<string>, b: Option<string>,
    base: Dict<string, Reason>)
    ensures Listed(check, attestations, a, false, base) == Listed(check, attestations, b, false, base)
  {
    if attestations != [] {
      UnsignedDoNotDependOnMajority(check, attestations[..|attestations| - 1], a, b, base);
    }
  }

  lemma LargestIsMajority(
    check: SignatureCheck, attestations: Dict<string, Attestation>, counts: Dict<string, nat>, k: nat)
    requires counts == Counts(check, attestations) && k < |counts|
    requires forall i :: 0 <= i < |counts| ==> counts[i].value <= counts[k].value
    ensures counts[k].value == Votes(check, attestations, counts[k].key)
    ensures IsMajority(check, attestations, Some(counts[k].key))
  {
    hide Counts, Votes;
    CountsAreVotes(check, attestations, counts[k].key);
    GetAt(counts, k, 0);
    forall hash
      ensures Votes(check, attestations, hash) <= counts[k].value
    {
      CountsAreVotes(check, attestations, hash);
      if Has(counts, hash) {
        var i :| 0 <= i < |counts| && counts[i].key == hash;
        GetAt(counts, i, 0);
      }
    }
  }

  lemma {:induction false} GetAt<K, V>(d: Dict<K, V>, k: nat, default: V)
    requires UniqueKeys(d) && k < |d|
    ensures Has(d, d[k].key) && Get(d, d[k].key, default) == d[k].value
  {
    if k > 0 {
      assert forall i :: 0 <= i < |d[1..]| ==> d[1..][i] == d[i + 1];
      GetAt(d[1..], k - 1, default);
    }
  }

  lemma LeaderDecides(
    check: SignatureCheck, nodes: seq<Node>, missing: string, faulty: string, faultyHash: string, threshold: real,
    counts: Dict<string, nat>, k: nat)
    requires 0.5 < threshold <= 1.0 && nodes != []
    requires counts == Counts(check, Collect(nodes, missing, faulty, faultyHash)) && k < |counts|
    requires forall i :: 0 <= i < |counts| ==> counts[i].value <= counts[k].value
    ensures var attestations := Collect(nodes, missing, faulty, faultyHash);
      && counts[k].value == Votes(check, attestations, counts[k].key)
      && IsMajority(check, attestations, Some(counts[k].key))
      && (counts[k].value as real / |nodes| as real >= threshold
          <==> Finalised(check, nodes, attestations, threshold, counts[k].key))
      && forall hash :: Finalised(check, nodes, attestations, threshold, hash) ==>
           hash == counts[k].key && counts[k].value as real / |nodes| as real >= threshold
  {
    var attestations := Collect(nodes, missing, faulty, faultyHash);
    hide Collect, Votes, Counts, QuorumSize;
    LargestIsMajority(check, attestations, counts, k);
    QuorumBounds(|nodes|, threshold);
    ShareMeetsThreshold(counts[k].value, |nodes|, threshold);
    forall hash | Finalised(check, nodes, attestations, threshold, hash)
      ensures hash == counts[k].key && Finalised(check, nodes, attestations, threshold, counts[k].key)
    {
      FinalisedIsUnique(check, nodes, missing, faulty, faultyHash, threshold, hash, counts[k].key);
    }
  }

  // ---- Nodes, their order, and faulty ones ----

  predicate DistinctIds(nodes: seq<Node>) {
    forall i, j :: 0 <= i < j < |nodes| ==> nodes[i].nodeId != nodes[j].nodeId
  }

  predicate NodeCounts(
    check: SignatureCheck, missing: string, faulty: string, faultyHash: string, hash: string, node: Node)
  {
    node.nodeId != missing && CountsFor(check, Contribution(node, faulty, faultyHash), hash)
  }

  /** What a node's vote depends on, the injected faults included: a faulty node signs the wrong hash itself. */
  lemma NodeCountsExact(
    check: SignatureCheck, missing: string, faulty: string, faultyHash: string, hash: string, node: Node)
    ensures NodeCounts(check, missing, faulty, faultyHash, hash, node) <==>
      && node.nodeId != missing && hash != "" && !node.attestation.status.ProvenanceFailure?
      && if node.nodeId != faulty then node.attestation.agreementHash == hash && check(node.attestation)
         else
           hash == faultyHash
           && check(Attestation(node.nodeId, hash, node.attestation.status, node.sign(hash),
                                node.attestation.publicKey))
  {
  }

  /** 1 for a node that counts for the hash, 0 for any other. */
  function VoteOf(
    check: SignatureCheck, missing: string, faulty: string, faultyHash: string, hash: string): Node -> real
  {
    (node: Node) => if NodeCounts(check, missing, faulty, faultyHash, hash, node) then 1.0 else 0.0
  }

  lemma {:induction false} CollectedIds(
    nodes: seq<Node>, missing: string, faulty: string, faultyHash: string, id: string)
    ensures Has(Collect(nodes, missing, faulty, faultyHash), id) ==>
      exists i :: 0 <= i < |nodes| && nodes[i].nodeId == id
  {
    if nodes != [] {
      var init, last := nodes[..|nodes| - 1], nodes[|nodes| - 1];
      CollectedIds(init, missing, faulty, faultyHash, id);
      var a := Contribution(last, faulty, faultyHash);
      PutEffect(Collect(init, missing, faulty, faultyHash), last.nodeId, a, id, a);
      assert forall i :: 0 <= i < |init| ==> init[i] == nodes[i];
    }
  }

  lemma LastIsCollected(nodes: seq<Node>, missing: string, faulty: string, faultyHash: string)
    requires DistinctIds(nodes) && nodes != []
    ensures var last := nodes[|nodes| - 1];
      Collect(nodes, missing, faulty, faultyHash)
      == Collect(nodes[..|nodes| - 1], missing, faulty, faultyHash)
         + if last.nodeId == missing then [] else [Item(last.nodeId, Contribution(last, faulty, faultyHash))]
  {
    var init, last := nodes[..|nodes| - 1], nodes[|nodes| - 1];
    CollectedIds(init, missing, faulty, faultyHash, last.nodeId);
    if last.nodeId != missing {
      PutNew(Collect(init, missing, faulty, faultyHash), last.nodeId, Contribution(last, faulty, faultyHash));
    }
  }

  lemma OneMoreVote(
    check: SignatureCheck, attestations: Dict<string, Attestation>, last: Item<string, Attestation>, hash: string)
    ensures Votes(check, attestations + [last], hash)
      == Votes(check, attestations, hash) + if CountsFor(check, last.value, hash) then 1 else 0
  {
    assert (attestations + [last])[..|attestations|] == attestations;
  }

  /** With distinct ids every node but the missing one has its own vote. */
  lemma {:induction false} VotesAreNodes(
    check: SignatureCheck, nodes: seq<Node>, missing: string, faulty: string, faultyHash: string, hash: string)
    requires DistinctIds(nodes)
    ensures Votes(check, Collect(nodes, missing, faulty, faultyHash), hash) as real
      == Sum(nodes, VoteOf(check, missing, faulty, faultyHash, hash))
  {
    if nodes != [] {
      var init, last := nodes[..|nodes| - 1], nodes[|nodes| - 1];
      var before, a := Collect(init, missing, faulty, faultyHash), Contribution(last, faulty, faultyHash);
      VotesAreNodes(check, init, missing, faulty, faultyHash, hash);
      SumSnoc(nodes, VoteOf(check, missing, faulty, faultyHash, hash));
      LastIsCollected(nodes, missing, faulty, faultyHash);
      OneMoreVote(check, before, Item(last.nodeId, a), hash);
      hide Collect, Contribution, CountsFor, Votes, Sum;
      assert before + [] == before;
    }
  }

  /** The finalised hash does not depend on the order of the nodes. */
  lemma {:induction false} NodeOrderIrrelevant(
    check: SignatureCheck, nodes: seq<Node>, others: seq<Node>, missing: string, faulty: string, faultyHash: string,
    threshold: real, hash: string)
    requires DistinctIds(nodes) && DistinctIds(others) && multiset(nodes) == multiset(others)
    ensures Finalised(check, nodes, Collect(nodes, missing, faulty, faultyHash), threshold, hash)
      <==> Finalised(check, others, Collect(others, missing, faulty, faultyHash), threshold, hash)
  {
    VotesAreNodes(check, nodes, missing, faulty, faultyHash, hash);
    VotesAreNodes(check, others, missing, faulty, faultyHash, hash);
    SumPermutation(nodes, others, VoteOf(check, missing, faulty, faultyHash, hash));
    assert |nodes| == |multiset(nodes)| == |multiset(others)| == |others|;
  }

  /** Votes of the nodes at the positions marked honest. */
  function HonestVotes(
    check: SignatureCheck, nodes: seq<Node>, honest: seq<bool>, missing: string, faulty: string, faultyHash: string,
    hash: string): nat
    requires |honest| == |nodes|
  {
    if nodes == [] then 0
    else
      var last := |nodes| - 1;
      HonestVotes(check, nodes[..last], honest[..last], missing, faulty, faultyHash, hash)
      + if honest[last] && NodeCounts(check, missing, faulty, faultyHash, hash, nodes[last]) then 1 else 0
  }

  function FaultyNodes(honest: seq<bool>): nat {
    if honest == [] then 0 else FaultyNodes(honest[..|honest| - 1]) + if honest[|honest| - 1] then 0 else 1
  }

  ghost predicate SameHonestNodes(nodes: seq<Node>, changed: seq<Node>, honest: seq<bool>) {
    |nodes| == |changed| == |honest| && forall i :: 0 <= i < |nodes| && honest[i] ==> changed[i] == nodes[i]
  }

  lemma {:induction false} HonestVotesBound(
    check: SignatureCheck, nodes: seq<Node>, changed: seq<Node>, honest: seq<bool>, missing: string, faulty: string,
    faultyHash: string, hash: string)
    requires SameHonestNodes(nodes, changed, honest)
    ensures var votes := Sum(changed, VoteOf(check, missing, faulty, faultyHash, hash));
      var sure := HonestVotes(check, nodes, honest, missing, faulty, faultyHash, hash);
      sure as real <= votes <= (sure + FaultyNodes(honest)) as real
  {
    if nodes != [] {
      var last := |nodes| - 1;
      HonestVotesBound(check, nodes[..last], changed[..last], honest[..last], missing, faulty, faultyHash, hash);
      SumSnoc(changed, VoteOf(check, missing, faulty, faultyHash, hash));
    }
  }

  /** Whatever the other nodes turn into, a quorum of honest votes finalises a hash, and a hash that the faulty
      nodes together cannot lift to the quorum is not finalised. */
  lemma {:induction false} FaultyNodesCannotOverturn(
    check: SignatureCheck, nodes: seq<Node>, changed: seq<Node>, honest: seq<bool>, missing: string, faulty: string,
    faultyHash: string, threshold: real, hash: string)
    requires SameHonestNodes(nodes, changed, honest) && DistinctIds(changed) && nodes != []
    ensures var quorum, sure := QuorumSize(|nodes|, threshold),
                                HonestVotes(check, nodes, honest, missing, faulty, faultyHash, hash);
      var finalised := Finalised(check, changed, Collect(changed, missing, faulty, faultyHash), threshold, hash);
      && (sure >= quorum ==> finalised)
      && (sure + FaultyNodes(honest) < quorum ==> !finalised)
  {
    HonestVotesBound(check, nodes, changed, honest, missing, faulty, faultyHash, hash);
    VotesAreNodes(check, changed, missing, faulty, faultyHash, hash);
  }

  // ---- Disagreements ----

  lemma {:induction false} ListedExactly(
    check: SignatureCheck, attestations: Dict<string, Attestation>, majority: Option<string>, signed: bool,
    base: Dict<string, Reason>, id: string)
    ensures Has(Listed(check, attestations, majority, signed, base), id) <==>
      || Has(base, id)
      || exists i :: 0 <= i < |attestations| && attestations[i].key == id
                     && check(attestations[i].value) == signed
                     && Disagreement(check, attestations[i].value, majority).Some?
  {
    if attestations != [] {
      var init, last := attestations[..|attestations| - 1], attestations[|attestations| - 1];
      ListedExactly(check, init, majority, signed, base, id);
      assert forall i :: 0 <= i < |init| ==> init[i] == attestations[i];
      var reason := Disagreement(check, last.value, majority);
      if reason.Some? && check(last.value) == signed {
        PutEffect(Listed(check, init, majority, signed, base), last.key, reason.value, id, reason.value);
      }
    }
  }

  /** The disagreements list the missing node, and every other node whose attestation is not a signed one for
      the majority hash. */
  lemma DisagreementsExact(
    check: SignatureCheck, nodes: seq<Node>, missing: string, faulty: string, faultyHash: string,
    majority: Option<string>, id: string)
    ensures var attestations := Collect(nodes, missing, faulty, faultyHash);
      Has(Disagreements(check, attestations, majority, Absent(nodes, missing)), id) <==>
        || (id == missing && exists i :: 0 <= i < |nodes| && nodes[i].nodeId == missing)
        || exists i :: 0 <= i < |attestations| && attestations[i].key == id
                       && !(check(attestations[i].value) && majority == Some(attestations[i].value.agreementHash))
  {
    var attestations := Collect(nodes, missing, faulty, faultyHash);
    var absent := Absent(nodes, missing);
    ListedExactly(check, attestations, majority, false, absent, id);
    ListedExactly(check, attestations, majority, true, Listed(check, attestations, majority, false, absent), id);
    assert absent != [] ==> absent[0].key == missing;
    assert Has(absent, id) <==> id == missing && exists i :: 0 <= i < |nodes| && nodes[i].nodeId == missing;
  }

  lemma {:induction false} CollectKeepsUnique(nodes: seq<Node>, missing: string, faulty: string, faultyHash: string)
    ensures UniqueKeys(Collect(nodes, missing, faulty, faultyHash))
    ensures !Has(Collect(nodes, missing, faulty, faultyHash), missing)
  {
    if nodes != [] {
      var init, last := nodes[..|nodes| - 1], nodes[|nodes| - 1];
      CollectKeepsUnique(init, missing, faulty, faultyHash);
      var a := Contribution(last, faulty, faultyHash);
      PutKeepsUnique(Collect(init, missing, faulty, faultyHash), last.nodeId, a);
      PutEffect(Collect(init, missing, faulty, faultyHash), last.nodeId, a, missing, a);
    }
  }

  lemma {:induction false} ListedReason(
    check: SignatureCheck, attestations: Dict<string, Attestation>, majority: Option<string>, signed: bool,
    base: Dict<string, Reason>, id: string, any: Reason)
    requires UniqueKeys(attestations)
    ensures Get(Listed(check, attestations, majority, signed, base), id, any) ==
      if Has(attestations, id) && check(Get(attestations, id, attestations[0].value)) == signed
         && Disagreement(check, Get(attestations, id, attestations[0].value), majority).Some?
      then Disagreement(check, Get(attestations, id, attestations[0].value), majority).value
      else Get(base, id, any)
  {
    if attestations != [] {
      var init, last := attestations[..|attestations| - 1], attestations[|attestations| - 1];
      assert forall i :: 0 <= i < |init| ==> init[i] == attestations[i];
      ListedReason(check, init, majority, signed, base, id, any);
      var reason := Disagreement(check, last.value, majority);
      if reason.Some? && check(last.value) == signed {
        PutEffect(Listed(check, init, majority, signed, base), last.key, reason.value, id, any);
      }
      GetAt(attestations, |attestations| - 1, attestations[0].value);
      assert Has(attestations, id) <==> Has(init, id) || id == last.key;
      if Has(init, id) {
        var i :| 0 <= i < |init| && init[i].key == id;
        GetAt(attestations, i, attestations[0].value);
        GetAt(init, i, init[0].value);
      }
    }
  }

  /** Why a node is listed: a bad signature before anything else, then its own status or its other hash. */
  lemma DisagreementReasons(
    check: SignatureCheck, nodes: seq<Node>, missing: string, faulty: string, faultyHash: string,
    majority: Option<string>, i: nat, any: Reason)
    requires i < |Collect(nodes, missing, faulty, faultyHash)|
    ensures var attestations := Collect(nodes, missing, faulty, faultyHash);
      var a, id := attestations[i].value, attestations[i].key;
      var reason := Get(Disagreements(check, attestations, majority, Absent(nodes, missing)), id, any);
      && (!check(a) ==> reason == SignatureInvalid)
      && (check(a) && majority == None ==> reason == Reported(a.status))
      && (check(a) && majority.Some? && a.agreementHash != majority.value ==>
            reason == if a.status == VoteStatus.Ok then DivergentHash(a.agreementHash) else Reported(a.status))
    ensures (exists n :: n in nodes && n.nodeId == missing) ==>
      Get(Disagreements(check, Collect(nodes, missing, faulty, faultyHash), majority, Absent(nodes, missing)),
          missing, any) == MissingParticipant
  {
    var attestations, absent := Collect(nodes, missing, faulty, faultyHash), Absent(nodes, missing);
    CollectKeepsUnique(nodes, missing, faulty, faultyHash);
    GetAt(attestations, i, attestations[0].value);
    var unsigned := Listed(check, attestations, majority, false, absent);
    ListedReason(check, attestations, majority, false, absent, attestations[i].key, any);
    ListedReason(check, attestations, majority, true, unsigned, attestations[i].key, any);
    ListedReason(check, attestations, majority, false, absent, missing, any);
    ListedReason(check, attestations, majority, true, unsigned, missing, any);
    hide Collect, Listed, UniqueKeys;
  }

  /** With distinct ids, the attestations are those of all nodes but the missing one, in order. */
  lemma {:induction false} CollectedAre(nodes: seq<Node>, missing: string, faulty: string, faultyHash: string)
    returns (positions: seq<nat>)
    requires DistinctIds(nodes)
    ensures IsSelection(Contributions(nodes, faulty, faultyHash), positions,
                        Collect(nodes, missing, faulty, faultyHash))
    ensures forall i: nat :: i in positions <==> i < |nodes| && nodes[i].nodeId != missing
  {
    positions := [];
    if nodes != [] {
      var n := |nodes| - 1;
      var init, all := nodes[..n], Contributions(nodes, faulty, faultyHash);
      positions := CollectedAre(init, missing, faulty, faultyHash);
      assert all[..n] == Contributions(init, faulty, faultyHash);
      LastIsCollected(nodes, missing, faulty, faultyHash);
      SelectLast(all, positions, Collect(init, missing, faulty, faultyHash), nodes[n].nodeId != missing);
      positions := positions + if nodes[n].nodeId != missing then [n] else [];
    }
  }

  function Contributions(nodes: seq<Node>, faulty: string, faultyHash: string): Dict<string, Attestation> {
    seq(|nodes|, i requires 0 <= i < |nodes| => Item(nodes[i].nodeId, Contribution(nodes[i], faulty, faultyHash)))
  }

  function Ids(nodes: seq<Node>): seq<string> {
    seq(|nodes|, i requires 0 <= i < |nodes| => nodes[i].nodeId)
  }

  lemma {:induction false} ParticipatingAre(nodes: seq<Node>, missing: string) returns (positions: seq<nat>)
    ensures IsSelection(Ids(nodes), positions, Participating(nodes, missing))
    ensures forall i: nat :: i in positions <==> i < |nodes| && nodes[i].nodeId != missing
  {
    positions := [];
    if nodes != [] {
      var n := |nodes| - 1;
      positions := ParticipatingAre(nodes[..n], missing);
      assert Ids(nodes)[..n] == Ids(nodes[..n]);
      SelectLast(Ids(nodes), positions, Participating(nodes[..n], missing), nodes[n].nodeId != missing);
      positions := positions + if nodes[n].nodeId != missing then [n] else [];
    }
  }
}
