/** The evidence ledger: execution records, a hash chain over their execution hashes, and the checks on both. */
module EvidenceLedger {
  import opened Digests
  import opened HashChains
  import MerkleTree

  datatype ExecutionRecord = ExecutionRecord(
    executionId: string, traceId: string, replayReference: string, executionSequence: int, producerIdentity: string,
    runtimeIdentity: string, governanceIdentity: string, executionStatus: string, runtimeHash: string,
    executionHash: string, previousExecutionHash: string, executionRootHash: string, schemaVersion: string)

  datatype LedgerSnapshot = LedgerSnapshot(sequenceLength: nat, merkleRoot: Digest, latestEvidenceHash: Digest)

  datatype AppendResult = Appended(snapshot: LedgerSnapshot) | InvalidPreviousHash

  /** `_hash_pair` hashes the head and the execution hash one after the other. */
  function Pair(): Encoding<string> {
    (head: string, executionHash: string) => head + executionHash
  }

  function Genesis(sha: HashFn): Digest {
    sha("GENESIS")
  }

  function Hashes(records: seq<ExecutionRecord>): seq<string> {
    seq(|records|, i requires 0 <= i < |records| => records[i].executionHash)
  }

  function HeadOf(sha: HashFn, records: seq<ExecutionRecord>): string {
    Head(sha, Pair(), Genesis(sha), Hashes(records))
  }

  function EvidenceOf(sha: HashFn, records: seq<ExecutionRecord>): seq<Digest> {
    Links(sha, Pair(), Genesis(sha), Hashes(records))
  }

  /** Each record names the head before it, or no head at all. */
  ghost predicate Linked(sha: HashFn, records: seq<ExecutionRecord>) {
    forall i :: 0 <= i < |records| ==>
      records[i].previousExecutionHash == "" || records[i].previousExecutionHash == HeadOf(sha, records[..i])
  }

  /** What `verify_chain` decides about any records, stored evidence hashes and stored head. */
  ghost predicate ChainHolds(sha: HashFn, records: seq<ExecutionRecord>, evidence: seq<Digest>, head: string) {
    && |records| <= |evidence| && Linked(sha, records)
    && evidence[..|records|] == EvidenceOf(sha, records) && head == HeadOf(sha, records)
  }

  lemma HashesSnoc(sha: HashFn, records: seq<ExecutionRecord>, record: ExecutionRecord)
    ensures Hashes(records + [record]) == Hashes(records) + [record.executionHash]
    ensures HeadOf(sha, records + [record]) == sha(HeadOf(sha, records) + record.executionHash)
    ensures EvidenceOf(sha, records + [record])
      == EvidenceOf(sha, records) + [sha(HeadOf(sha, records) + record.executionHash)]
  {
    assert Hashes(records + [record]) == Hashes(records) + [record.executionHash];
    assert (Hashes(records) + [record.executionHash])[..|records|] == Hashes(records);
  }

  class EvidenceLedger {
    const sha: HashFn
    var records: seq<ExecutionRecord>
    var evidenceHashes: seq<Digest>
    var currentHead: Digest

    ghost predicate Valid()
      reads this
    {
      |records| == |evidenceHashes| && ChainHolds(sha, records, evidenceHashes, currentHead)
    }

    constructor (sha: HashFn)
      ensures Valid() && records == [] && this.sha == sha
    {
      this.sha := sha;
      records, evidenceHashes, currentHead := [], [], sha("GENESIS");
    }

    method Append(record: ExecutionRecord) returns (result: AppendResult)
      requires Valid()
      modifies this
      ensures Valid()
      ensures result.InvalidPreviousHash?
        <==> record.previousExecutionHash != "" && record.previousExecutionHash != HeadOf(sha, old(records))
      ensures result.InvalidPreviousHash? ==> unchanged(this)
      ensures result.Appended? ==>
        && records == old(records) + [record]
        && result.snapshot == LedgerSnapshot(|records|, MerkleTree.Root(sha, EvidenceOf(sha, records)), currentHead)
    {
      hide HeadOf, EvidenceOf, Linked, MerkleTree.Root;
      if record.previousExecutionHash != "" && record.previousExecutionHash != currentHead {
        return InvalidPreviousHash;
      }
      assert evidenceHashes[..|records|] == evidenceHashes;
      var chainHash := MerkleTree.Parent(sha, currentHead, record.executionHash);
      HashesSnoc(sha, records, record);
      LinkedSnoc(sha, records, record);
      records := records + [record];
      evidenceHashes := evidenceHashes + [chainHash];
      currentHead := chainHash;
      assert evidenceHashes[..|records|] == evidenceHashes;
      var snapshot := GetSnapshot();
      result := Appended(snapshot);
    }

    /** The root of the tree that a build from scratch gives for the evidence hashes. */
    method GetMerkleRoot() returns (root: Digest)
      ensures root == if evidenceHashes == [] then sha("EMPTY_LEDGER") else MerkleTree.Root(sha, evidenceHashes)
    {
      hide MerkleTree.NextLevel;
      if evidenceHashes == [] {
        return sha("EMPTY_LEDGER");
      }
      var currentLevel := evidenceHashes;
      while |currentLevel| > 1
        invariant |currentLevel| > 0
        invariant MerkleTree.Root(sha, currentLevel) == MerkleTree.Root(sha, evidenceHashes)
        decreases |currentLevel|
      {
        currentLevel := HashLevel(currentLevel);
      }
      root := currentLevel[0];
    }

    method HashLevel(currentLevel: seq<Digest>) returns (nextLevel: seq<Digest>)
      ensures nextLevel == MerkleTree.NextLevel(sha, currentLevel)
    {
      nextLevel := [];
      var i := 0;
      while i < |currentLevel|
        invariant i == 2 * |nextLevel| && |nextLevel| <= (|currentLevel| + 1) / 2
        invariant nextLevel == MerkleTree.FirstParents(sha, currentLevel, |nextLevel|)
      {
        var left := currentLevel[i];
        var right := if i + 1 < |currentLevel| then currentLevel[i + 1] else left;
        nextLevel := nextLevel + [MerkleTree.Parent(sha, left, right)];
        i := i + 2;
      }
    }

    method GetSnapshot() returns (snapshot: LedgerSnapshot)
      ensures snapshot.sequenceLength == |records| && snapshot.latestEvidenceHash == currentHead
      ensures snapshot.merkleRoot
        == if evidenceHashes == [] then sha("EMPTY_LEDGER") else MerkleTree.Root(sha, evidenceHashes)
    {
      var root := GetMerkleRoot();
      snapshot := LedgerSnapshot(|records|, root, currentHead);
    }

    /** Meant for a ledger in any state; only the evidence list must not be too short. */
    method VerifyChain() returns (ok: bool)
      requires |records| <= |evidenceHashes|
      ensures ok <==> ChainHolds(sha, records, evidenceHashes, currentHead)
    {
      hide HeadOf, EvidenceOf, Linked;
      var head: string := sha("GENESIS");
      NothingIsLinked(sha);
      for i := 0 to |records|
        invariant head == HeadOf(sha, records[..i]) && Linked(sha, records[..i])
        invariant evidenceHashes[..i] == EvidenceOf(sha, records[..i])
      {
        var record := records[i];
        assert records[..i + 1] == records[..i] + [record];
        HashesSnoc(sha, records[..i], record);
        if record.previousExecutionHash != "" && record.previousExecutionHash != head {
          if Linked(sha, records) {
            LinkedAt(sha, records, i);
          }
          return false;
        }
        LinkedSnoc(sha, records[..i], record);
        var expectedHash := MerkleTree.Parent(sha, head, record.executionHash);
        if evidenceHashes[i] != expectedHash {
          EvidencePrefix(sha, records, i + 1);
          return false;
        }
        head := expectedHash;
      }
      assert records[..|records|] == records;
      ok := head == currentHead;
    }
  }

  lemma NothingIsLinked(sha: HashFn)
    ensures Linked(sha, []) && EvidenceOf(sha, []) == [] && HeadOf(sha, []) == sha("GENESIS")
  {
  }

  lemma LinkedAt(sha: HashFn, records: seq<ExecutionRecord>, i: nat)
    requires i < |records| && Linked(sha, records)
    ensures records[i].previousExecutionHash == "" || records[i].previousExecutionHash == HeadOf(sha, records[..i])
  {
  }

  lemma LinkedSnoc(sha: HashFn, records: seq<ExecutionRecord>, record: ExecutionRecord)
    requires Linked(sha, records)
    requires record.previousExecutionHash == "" || record.previousExecutionHash == HeadOf(sha, records)
    ensures Linked(sha, records + [record])
  {
    var longer := records + [record];
    forall i | 0 <= i < |longer|
      ensures longer[i].previousExecutionHash == "" || longer[i].previousExecutionHash == HeadOf(sha, longer[..i])
    {
      assert longer[..i] == records[..i];
      assert i == |records| ==> records[..i] == records;
    }
  }

  lemma EvidencePrefix(sha: HashFn, records: seq<ExecutionRecord>, k: nat)
    requires k <= |records|
    ensures EvidenceOf(sha, records)[..k] == EvidenceOf(sha, records[..k])
  {
    forall i | 0 <= i < k
      ensures EvidenceOf(sha, records)[i] == EvidenceOf(sha, records[..k])[i]
    {
      LinkAt(sha, Pair(), Genesis(sha), Hashes(records), i);
      LinkAt(sha, Pair(), Genesis(sha), Hashes(records[..k]), i);
      assert Hashes(records)[..i + 1] == Hashes(records[..k])[..i + 1];
    }
  }

  // ---- What the head is worth ----

  /** The strings hashed for the chain over the given records. */
  ghost function LedgerInputs(sha: HashFn, records: seq<ExecutionRecord>): set<string> {
    {"GENESIS"} + ChainInputs(sha, Pair(), Genesis(sha), Hashes(records))
  }

  lemma {:induction false} InputsAreLong(sha: HashFn, hashes: seq<string>, s: string)
    requires s in ChainInputs(sha, Pair(), Genesis(sha), hashes)
    ensures |s| >= 64
  {
    var init := hashes[..|hashes| - 1];
    HeadIsHead(sha, Pair(), Genesis(sha), init);
    if s in ChainInputs(sha, Pair(), Genesis(sha), init) {
      InputsAreLong(sha, init, s);
    }
  }

  lemma PairDecodable(sha: HashFn)
    ensures Decodable(Pair(), Genesis(sha))
  {
    forall g, h, x, y | IsHead(g, Genesis(sha)) && IsHead(h, Genesis(sha)) && Pair()(g, x) == Pair()(h, y)
      ensures g == h && x == y
    {
      SplitDigests(g, x, h, y);
    }
  }

  /** Two ledgers have the same head exactly when they hold the same execution hashes in the same order. */
  lemma HeadBindsExecutionHashes(sha: HashFn, a: seq<ExecutionRecord>, b: seq<ExecutionRecord>)
    requires InjectiveOn(sha, LedgerInputs(sha, a) + LedgerInputs(sha, b))
    ensures HeadOf(sha, a) == HeadOf(sha, b) <==> Hashes(a) == Hashes(b)
  {
    var inputs := ChainInputs(sha, Pair(), Genesis(sha), Hashes(a)) + ChainInputs(sha, Pair(), Genesis(sha), Hashes(b));
    PairDecodable(sha);
    forall s | s in inputs
      ensures sha(s) != Genesis(sha)
    {
      if s in ChainInputs(sha, Pair(), Genesis(sha), Hashes(a)) {
        InputsAreLong(sha, Hashes(a), s);
      } else {
        InputsAreLong(sha, Hashes(b), s);
      }
      assert s != "GENESIS";
    }
    EqualHeads(sha, Pair(), Genesis(sha), Hashes(a), Hashes(b));
  }

  /** Whatever replaces the records of a sound ledger, its chain is accepted exactly when the execution hashes
      are still all there, in order, and the links to previous heads still fit. */
  lemma ReplacedRecordsDetected(
    sha: HashFn, original: seq<ExecutionRecord>, evidence: seq<Digest>, head: Digest, replaced: seq<ExecutionRecord>)
    requires |original| == |evidence| && ChainHolds(sha, original, evidence, head)
    requires InjectiveOn(sha, LedgerInputs(sha, original) + LedgerInputs(sha, replaced))
    ensures ChainHolds(sha, replaced, evidence, head)
      <==> Hashes(replaced) == Hashes(original) && Linked(sha, replaced)
  {
    HeadBindsExecutionHashes(sha, original, replaced);
    if Hashes(replaced) == Hashes(original) {
      assert |replaced| == |Hashes(replaced)| == |original|;
      assert evidence[..|replaced|] == evidence == evidence[..|original|];
    }
  }
}
