/** Simulated nodes that each chain what they execute, and the agreement check over their ledgers. */
module DistributedSimulation {
  import opened Digests
  import opened HashChains

  /** What a node hashes together with its previous entry. */
  datatype Execution = Execution(traceId: string, payloadHash: string, runtimeHash: string, ack: string)

  const GENESIS: string := "GENESIS"

  class SimulatedNode {
    const sha: HashFn
    const encode: Encoding<Execution>
    var ledger: seq<Digest>
    ghost var executed: seq<Execution>

    /** The ledger is the chain over everything executed so far. */
    ghost predicate Valid()
      reads this
    {
      ledger == Links(sha, encode, GENESIS, executed)
    }

    constructor (sha: HashFn, encode: Encoding<Execution>)
      ensures Valid() && executed == [] && this.sha == sha && this.encode == encode
    {
      this.sha, this.encode := sha, encode;
      ledger, executed := [], [];
    }

    /** `execution` holds the contract's fields and the result that governance and runtime gave for it. */
    method Process(execution: Execution)
      requires Valid()
      modifies this
      ensures Valid() && executed == old(executed) + [execution]
      ensures var previous := if old(ledger) == [] then "GENESIS" else old(ledger[|ledger| - 1]);
        ledger == old(ledger) + [sha(encode(previous, execution))]
    {
      LastLink(sha, encode, executed);
      var previous: string := if ledger != [] then ledger[|ledger| - 1] else GENESIS;
      ledger := ledger + [sha(encode(previous, execution))];
      assert (executed + [execution])[..|executed|] == executed;
      executed := executed + [execution];
    }
  }

  lemma LastLink(sha: HashFn, encode: Encoding<Execution>, executed: seq<Execution>)
    ensures Head(sha, encode, GENESIS, executed)
      == var ledger := Links(sha, encode, GENESIS, executed);
         if ledger != [] then ledger[|ledger| - 1] else GENESIS
  {
    if executed != [] {
      LinkAt(sha, encode, GENESIS, executed, |executed| - 1);
      assert executed[..|executed|] == executed;
    }
  }

  function FinalHash(ledger: seq<Digest>): string {
    if ledger != [] then ledger[|ledger| - 1] else ""
  }

  /** `len(set(final_hashes)) == 1 and final_hashes[0] != ""` */
  predicate HashAgreement(ledgers: seq<seq<Digest>>) {
    |set i | 0 <= i < |ledgers| :: FinalHash(ledgers[i])| == 1 && FinalHash(ledgers[0]) != ""
  }

  ghost predicate LedgerAgreement(ledgers: seq<seq<Digest>>) {
    forall i :: 0 <= i < |ledgers| ==> ledgers[i] == ledgers[0]
  }

  lemma SingletonFinalHash(ledgers: seq<seq<Digest>>)
    ensures HashAgreement(ledgers) <==>
      && |ledgers| > 0 && ledgers[0] != []
      && forall i :: 0 <= i < |ledgers| ==> FinalHash(ledgers[i]) == FinalHash(ledgers[0])
  {
    var finals := set i | 0 <= i < |ledgers| :: FinalHash(ledgers[i]);
    if |ledgers| > 0 {
      assert FinalHash(ledgers[0]) in finals;
      if forall i :: 0 <= i < |ledgers| ==> FinalHash(ledgers[i]) == FinalHash(ledgers[0]) {
        assert finals == {FinalHash(ledgers[0])};
      }
      if |finals| == 1 {
        forall i | 0 <= i < |ledgers|
          ensures FinalHash(ledgers[i]) == FinalHash(ledgers[0])
        {
          assert FinalHash(ledgers[i]) in finals;
          OnlyElement(finals, FinalHash(ledgers[i]), FinalHash(ledgers[0]));
        }
      }
    }
  }

  lemma OnlyElement(s: set<string>, a: string, b: string)
    requires |s| == 1 && a in s && b in s
    ensures a == b
  {
    assert |s - {a}| == 0;
    assert s - {a} == {};
  }

  ghost function AllInputs(sha: HashFn, encode: Encoding<Execution>, runs: seq<seq<Execution>>): set<string> {
    if runs == [] then {}
    else AllInputs(sha, encode, runs[..|runs| - 1]) + ChainInputs(sha, encode, GENESIS, runs[|runs| - 1])
  }

  lemma {:induction false} AllInputsCover(sha: HashFn, encode: Encoding<Execution>, runs: seq<seq<Execution>>, i: nat)
    requires i < |runs|
    ensures ChainInputs(sha, encode, GENESIS, runs[i]) <= AllInputs(sha, encode, runs)
  {
    if i < |runs| - 1 {
      AllInputsCover(sha, encode, runs[..|runs| - 1], i);
    }
  }

  lemma SameFinalHash(
    sha: HashFn, encode: Encoding<Execution>, inputs: set<string>, a: seq<Execution>, b: seq<Execution>)
    requires b != [] && Decodable(encode, GENESIS) && InjectiveOn(sha, inputs)
    requires ChainInputs(sha, encode, GENESIS, a) <= inputs && ChainInputs(sha, encode, GENESIS, b) <= inputs
    ensures FinalHash(Links(sha, encode, GENESIS, a)) == FinalHash(Links(sha, encode, GENESIS, b)) <==> a == b
  {
    hide ChainInputs, Decodable;
    LastLink(sha, encode, a);
    LastLink(sha, encode, b);
    EqualHeads(sha, encode, GENESIS, a, b);
  }

  /** Comparing only the last hashes decides whether all nodes executed the same non-empty history, and hence
      whether their whole ledgers agree. */
  lemma {:induction false} FinalHashesDecideAgreement(
    sha: HashFn, encode: Encoding<Execution>, runs: seq<seq<Execution>>, ledgers: seq<seq<Digest>>)
    requires |runs| == |ledgers|
    requires forall i :: 0 <= i < |runs| ==> ledgers[i] == Links(sha, encode, GENESIS, runs[i])
    requires Decodable(encode, GENESIS) && InjectiveOn(sha, AllInputs(sha, encode, runs))
    ensures HashAgreement(ledgers) <==>
      |runs| > 0 && runs[0] != [] && forall i :: 0 <= i < |runs| ==> runs[i] == runs[0]
    ensures HashAgreement(ledgers) ==> LedgerAgreement(ledgers)
  {
    hide HashAgreement, AllInputs, Decodable, InjectiveOn;
    SingletonFinalHash(ledgers);
    forall i | 0 <= i < |runs| && runs[0] != []
      ensures FinalHash(ledgers[i]) == FinalHash(ledgers[0]) <==> runs[i] == runs[0]
    {
      AllInputsCover(sha, encode, runs, i);
      AllInputsCover(sha, encode, runs, 0);
      SameFinalHash(sha, encode, AllInputs(sha, encode, runs), runs[i], runs[0]);
    }
    hide FinalHash;
    assert |runs| > 0 ==> (ledgers[0] == [] <==> runs[0] == []);
  }
}
