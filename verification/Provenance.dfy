/** Checks on single execution records and on their place in a ledger. */
module Provenance {
  import opened Digests
  import opened HashChains
  import opened EvidenceLedger
  import opened Options
  import MerkleTree

  /** The fields that the execution hash covers. */
  datatype BaseFields = BaseFields(
    executionId: string, traceId: string, replayReference: string, executionSequence: int, producerIdentity: string,
    runtimeIdentity: string, governanceIdentity: string, executionStatus: string, runtimeHash: string,
    schemaVersion: string)

  /** `json.dumps` on these fields. */
  type BaseEncoding = BaseFields -> string

  function BaseOf(r: ExecutionRecord): BaseFields {
    BaseFields(r.executionId, r.traceId, r.replayReference, r.executionSequence, r.producerIdentity,
               r.runtimeIdentity, r.governanceIdentity, r.executionStatus, r.runtimeHash, r.schemaVersion)
  }

  predicate VerifyExecution(sha: HashFn, encode: BaseEncoding, record: ExecutionRecord) {
    record.executionHash == sha(encode(BaseOf(record)))
  }

  /** Position of the first record with the given execution id. */
  function IndexOf(records: seq<ExecutionRecord>, executionId: string): Option<nat> {
    if records == [] then None
    else if records[0].executionId == executionId then Some(0)
    else
      match IndexOf(records[1..], executionId)
      case None => None
      case Some(i) => Some(i + 1)
  }

  lemma {:induction false} IndexOfFirst(records: seq<ExecutionRecord>, executionId: string)
    ensures match IndexOf(records, executionId)
      case None => forall i :: 0 <= i < |records| ==> records[i].executionId != executionId
      case Some(k) => k < |records| && records[k].executionId == executionId
                      && forall i :: 0 <= i < k ==> records[i].executionId != executionId
  {
    if records != [] && records[0].executionId != executionId {
      IndexOfFirst(records[1..], executionId);
      assert forall i :: 0 < i < |records| ==> records[i] == records[1..][i - 1];
    }
  }

  /** The stored head before a position. */
  function PreviousHead(sha: HashFn, evidence: seq<Digest>, i: nat): Digest
    requires i <= |evidence|
  {
    if i == 0 then Genesis(sha) else evidence[i - 1]
  }

  predicate LineageHolds(
    sha: HashFn, records: seq<ExecutionRecord>, evidence: seq<Digest>, record: ExecutionRecord)
    requires |records| <= |evidence|
  {
    match IndexOf(records, record.executionId)
    case None => false
    case Some(i) => IndexOfFirst(records, record.executionId);
                    record.previousExecutionHash == PreviousHead(sha, evidence, i)
  }

  method VerifyLineage(record: ExecutionRecord, ledger: EvidenceLedger) returns (ok: bool)
    requires |ledger.records| <= |ledger.evidenceHashes|
    ensures ok <==> LineageHolds(ledger.sha, ledger.records, ledger.evidenceHashes, record)
    ensures ok <==> exists i ::
      && 0 <= i < |ledger.records| && ledger.records[i].executionId == record.executionId
      && (forall j :: 0 <= j < i ==> ledger.records[j].executionId != record.executionId)
      && record.previousExecutionHash == if i == 0 then ledger.sha("GENESIS") else ledger.evidenceHashes[i - 1]
  {
    IndexOfFirst(ledger.records, record.executionId);
    for i := 0 to |ledger.records|
      invariant forall j :: 0 <= j < i ==> ledger.records[j].executionId != record.executionId
    {
      if ledger.records[i].executionId == record.executionId {
        var expected := if i == 0 then ledger.sha("GENESIS") else ledger.evidenceHashes[i - 1];
        return record.previousExecutionHash == expected;
      }
    }
    ok := false;
  }

  datatype Certificate = Certificate(
    record: ExecutionRecord, chainHash: Digest, merkleRoot: Digest, ledgerSequence: nat)

  method ExecutionCertificate(record: ExecutionRecord, ledger: EvidenceLedger)
    returns (certificate: Option<Certificate>)
    requires |ledger.records| <= |ledger.evidenceHashes|
    ensures certificate.None? <==> IndexOf(ledger.records, record.executionId).None?
    ensures certificate.None? <==>
      forall i :: 0 <= i < |ledger.records| ==> ledger.records[i].executionId != record.executionId
    ensures certificate.Some? ==>
      var c, i := certificate.value, IndexOf(ledger.records, record.executionId).value;
      && i < |ledger.records| && c.record == record && c.ledgerSequence == i + 1
      && ledger.records[i].executionId == record.executionId
      && (forall j :: 0 <= j < i ==> ledger.records[j].executionId != record.executionId)
      && c.chainHash
         == ledger.sha((if i == 0 then ledger.sha("GENESIS") else ledger.evidenceHashes[i - 1]) + record.executionHash)
      && c.merkleRoot == MerkleTree.Root(ledger.sha, ledger.evidenceHashes)
  {
    hide MerkleTree.Root;
    IndexOfFirst(ledger.records, record.executionId);
    var index := -1;
    var i := 0;
    while i < |ledger.records| && index == -1
      invariant 0 <= i <= |ledger.records|
      invariant index == -1 ==> forall j :: 0 <= j < i ==> ledger.records[j].executionId != record.executionId
      invariant index != -1 ==> IndexOf(ledger.records, record.executionId) == Some(index)
      decreases |ledger.records| - i, index == -1
    {
      if ledger.records[i].executionId == record.executionId {
        index := i;
      } else {
        i := i + 1;
      }
    }
    if index == -1 {
      return None;
    }
    var previous := if index == 0 then ledger.sha("GENESIS") else ledger.evidenceHashes[index - 1];
    var root := ledger.GetMerkleRoot();
    var chainHash := MerkleTree.Parent(ledger.sha, previous, record.executionHash);
    certificate := Some(Certificate(record, chainHash, root, index + 1));
  }

  // ---- What the checks are worth ----

  ghost predicate UniqueIds(records: seq<ExecutionRecord>) {
    forall i, j :: 0 <= i < j < |records| ==> records[i].executionId != records[j].executionId
  }

  lemma PreviousHeadIsHead(
    sha: HashFn, records: seq<ExecutionRecord>, evidence: seq<Digest>, head: Digest, i: nat)
    requires ChainHolds(sha, records, evidence, head) && i <= |records|
    ensures PreviousHead(sha, evidence, i) == HeadOf(sha, records[..i])
  {
    if i > 0 {
      LinkAt(sha, Pair(), Genesis(sha), Hashes(records), i - 1);
      assert evidence[i - 1] == evidence[..|records|][i - 1];
      assert Hashes(records)[..i] == Hashes(records[..i]);
    }
  }

  /** In a sound ledger with unique ids, the lineage of a stored record holds exactly when it names a head. */
  lemma StoredLineage(
    sha: HashFn, records: seq<ExecutionRecord>, evidence: seq<Digest>, head: Digest, k: nat)
    requires ChainHolds(sha, records, evidence, head) && UniqueIds(records) && k < |records|
    ensures LineageHolds(sha, records, evidence, records[k]) <==> records[k].previousExecutionHash != ""
  {
    IndexOfFirst(records, records[k].executionId);
    PreviousHeadIsHead(sha, records, evidence, head, k);
  }

  /** The chain hash on a certificate is the stored evidence hash exactly when the certified record has the
      execution hash of the stored one. */
  lemma {:induction false} CertificateMatchesEvidence(
    sha: HashFn, records: seq<ExecutionRecord>, evidence: seq<Digest>, head: Digest, k: nat, record: ExecutionRecord)
    requires ChainHolds(sha, records, evidence, head) && UniqueIds(records) && k < |records|
    requires record.executionId == records[k].executionId
    requires InjectiveOn(sha, {PreviousHead(sha, evidence, k) + record.executionHash,
                               PreviousHead(sha, evidence, k) + records[k].executionHash})
    ensures IndexOf(records, record.executionId) == Some(k)
    ensures sha(PreviousHead(sha, evidence, k) + record.executionHash) == evidence[k]
      <==> record.executionHash == records[k].executionHash
  {
    IndexOfFirst(records, record.executionId);
    StoredEvidence(sha, records, evidence, head, k);
    hide ChainHolds;
    if sha(PreviousHead(sha, evidence, k) + record.executionHash) == evidence[k] {
      SplitDigests(PreviousHead(sha, evidence, k), record.executionHash,
                   PreviousHead(sha, evidence, k), records[k].executionHash);
    }
  }

  lemma StoredEvidence(
    sha: HashFn, records: seq<ExecutionRecord>, evidence: seq<Digest>, head: Digest, k: nat)
    requires ChainHolds(sha, records, evidence, head) && k < |records|
    ensures evidence[k] == sha(PreviousHead(sha, evidence, k) + records[k].executionHash)
  {
    PreviousHeadIsHead(sha, records, evidence, head, k);
    PreviousHeadIsHead(sha, records, evidence, head, k + 1);
    assert records[..k + 1] == records[..k] + [records[k]];
    HashesSnoc(sha, records[..k], records[k]);
    hide ChainHolds, HeadOf;
  }

  // ---- Chain and records together ----

  ghost predicate AllVerify(sha: HashFn, encode: BaseEncoding, records: seq<ExecutionRecord>) {
    forall i :: 0 <= i < |records| ==> VerifyExecution(sha, encode, records[i])
  }

  /** The same number of records with the same hashed fields and the same execution hashes. */
  ghost predicate SameContents(a: seq<ExecutionRecord>, b: seq<ExecutionRecord>) {
    && |a| == |b|
    && forall i :: 0 <= i < |a| ==> SameContent(a[i], b[i])
  }

  /** The ten hashed fields and the hash. */
  predicate SameContent(r: ExecutionRecord, s: ExecutionRecord) {
    && r.executionId == s.executionId && r.traceId == s.traceId && r.replayReference == s.replayReference
    && r.executionSequence == s.executionSequence && r.producerIdentity == s.producerIdentity
    && r.runtimeIdentity == s.runtimeIdentity && r.governanceIdentity == s.governanceIdentity
    && r.executionStatus == s.executionStatus && r.runtimeHash == s.runtimeHash
    && r.schemaVersion == s.schemaVersion && r.executionHash == s.executionHash
  }

  /** The strings hashed to check the records themselves. */
  ghost function RecordInputs(encode: BaseEncoding, records: seq<ExecutionRecord>): set<string> {
    set i | 0 <= i < |records| :: encode(BaseOf(records[i]))
  }

  lemma HashesGiveContents(
    sha: HashFn, encode: BaseEncoding, a: seq<ExecutionRecord>, b: seq<ExecutionRecord>, inputs: set<string>)
    requires (forall x, y :: encode(x) == encode(y) ==> x == y) && InjectiveOn(sha, inputs)
    requires RecordInputs(encode, a) + RecordInputs(encode, b) <= inputs
    requires AllVerify(sha, encode, a) && AllVerify(sha, encode, b)
    ensures Hashes(a) == Hashes(b) <==> SameContents(a, b)
  {
    assert |Hashes(a)| == |a| && |Hashes(b)| == |b|;
    if Hashes(a) == Hashes(b) {
      forall i | 0 <= i < |a|
        ensures SameContent(a[i], b[i])
      {
        assert Hashes(a)[i] == Hashes(b)[i];
        assert encode(BaseOf(a[i])) in RecordInputs(encode, a) && encode(BaseOf(b[i])) in RecordInputs(encode, b);
      }
    }
  }

  lemma SameContentsVerify(sha: HashFn, encode: BaseEncoding, a: seq<ExecutionRecord>, b: seq<ExecutionRecord>)
    requires SameContents(a, b) && AllVerify(sha, encode, a)
    ensures AllVerify(sha, encode, b) && Hashes(a) == Hashes(b)
  {
    forall i | 0 <= i < |b|
      ensures VerifyExecution(sha, encode, b[i])
    {
      assert SameContent(a[i], b[i]) && VerifyExecution(sha, encode, a[i]);
    }
  }

  /** Whatever replaces the records of a sound ledger: its chain and all its records verify exactly when the records
      have the same contents as before and the links still fit. */
  lemma ReplacedContentsDetected(
    sha: HashFn, encode: BaseEncoding, original: seq<ExecutionRecord>, evidence: seq<Digest>, head: Digest,
    replaced: seq<ExecutionRecord>)
    requires |original| == |evidence| && ChainHolds(sha, original, evidence, head) && AllVerify(sha, encode, original)
    requires forall x, y :: encode(x) == encode(y) ==> x == y
    requires InjectiveOn(sha, LedgerInputs(sha, original) + LedgerInputs(sha, replaced)
                              + RecordInputs(encode, original) + RecordInputs(encode, replaced))
    ensures ChainHolds(sha, replaced, evidence, head) && AllVerify(sha, encode, replaced)
      <==> SameContents(replaced, original) && Linked(sha, replaced)
  {
    var inputs := LedgerInputs(sha, original) + LedgerInputs(sha, replaced)
                  + RecordInputs(encode, original) + RecordInputs(encode, replaced);
    assert InjectiveOn(sha, LedgerInputs(sha, original) + LedgerInputs(sha, replaced));
    ReplacedRecordsDetected(sha, original, evidence, head, replaced);
    hide ChainHolds, Linked, LedgerInputs, RecordInputs, VerifyExecution, Hashes;
    if AllVerify(sha, encode, replaced) {
      HashesGiveContents(sha, encode, replaced, original, inputs);
    } else if SameContents(replaced, original) {
      SameContentsVerify(sha, encode, original, replaced);
    }
  }
}
