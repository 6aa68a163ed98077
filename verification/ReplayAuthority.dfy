/** The single replay authority: decisions of the registry, with a lineage record for each acceptance. */
module ReplayAuthority {
  import opened OrderedDicts
  import opened Options
  import opened ReplayRegistry
  import opened StableSort

  /** Hash of the canonical fields of a decision and its trace reference. */
  type Fingerprint = (Decision, string) -> string

  /** `parent` is the number before the one in the decision, absent where that is 0 or 1. */
  datatype LineageRecord = LineageRecord(
    messageId: string, sequenceNumber: nat, decision: Status, traceReference: string, parent: Option<nat>,
    verificationHash: string)

  datatype Verdict = Verdict(decision: Decision, lineageRecord: LineageRecord)

  function BuildLineageRecord(fingerprint: Fingerprint, d: Decision, traceReference: string): LineageRecord {
    var parent := if d.sequenceNumber > 1 then Some((d.sequenceNumber - 1) as nat) else None;
    LineageRecord(d.messageId, d.sequenceNumber, d.status, traceReference, parent, fingerprint(d, traceReference))
  }

  // ---- Sorting by sequence number ----

  function ByNumber(): Before<LineageRecord> {
    (a: LineageRecord, b: LineageRecord) => a.sequenceNumber < b.sequenceNumber
  }

  /** `sorted(records, key=sequence_number)` */
  function SortedByNumber(records: seq<LineageRecord>): seq<LineageRecord> {
    Sorted(records, ByNumber())
  }

  lemma NumbersAreSorted(records: seq<LineageRecord>)
    ensures Ascending(SortedByNumber(records), ByNumber())
    ensures multiset(SortedByNumber(records)) == multiset(records)
  {
    SortedIsSorted(records, ByNumber());
  }

  /** The records carry exactly the numbers start+1, start+2, ... in that order, each naming its predecessor. */
  ghost predicate IsLineage(records: seq<LineageRecord>, start: nat) {
    forall i :: 0 <= i < |records| ==>
      && records[i].sequenceNumber == start + 1 + i
      && records[i].decision.Valid?
      && records[i].parent == if start + i == 0 then None else Some(start + i)
  }

  ghost predicate UniqueNumbers(records: seq<LineageRecord>) {
    forall i, j :: 0 <= i < j < |records| ==> records[i].sequenceNumber != records[j].sequenceNumber
  }

  lemma {:induction false} InsertKeepsUnique(record: LineageRecord, sorted: seq<LineageRecord>)
    requires UniqueNumbers(sorted)
    requires forall i :: 0 <= i < |sorted| ==> sorted[i].sequenceNumber != record.sequenceNumber
    ensures UniqueNumbers(Insert(record, sorted, ByNumber()))
  {
    if sorted != [] && record.sequenceNumber >= sorted[0].sequenceNumber {
      var tail := sorted[1..];
      InsertKeepsUnique(record, tail);
      InsertKeeps(record, tail, ByNumber());
      var rest := Insert(record, tail, ByNumber());
      forall j | 0 <= j < |rest|
        ensures sorted[0].sequenceNumber != rest[j].sequenceNumber
      {
        assert rest[j] in multiset(tail) + multiset{record};
      }
    }
  }

  lemma {:induction false} SortedKeepsUnique(records: seq<LineageRecord>)
    requires UniqueNumbers(records)
    ensures UniqueNumbers(SortedByNumber(records))
  {
    if records != [] {
      var init, last := records[..|records| - 1], records[|records| - 1];
      SortedKeepsUnique(init);
      NumbersAreSorted(init);
      var sorted := SortedByNumber(init);
      forall i | 0 <= i < |sorted|
        ensures sorted[i].sequenceNumber != last.sequenceNumber
      {
        assert sorted[i] in multiset(init);
        assert sorted[i] in init;
      }
      InsertKeepsUnique(last, sorted);
    }
  }

  ghost predicate HasRecord(records: seq<LineageRecord>, n: int) {
    exists i :: 0 <= i < |records| && records[i].sequenceNumber == n
  }

  lemma {:induction false} NumbersGrow(records: seq<LineageRecord>, start: nat, i: nat)
    requires Ascending(records, ByNumber()) && UniqueNumbers(records) && i < |records|
    requires forall j :: 0 <= j < |records| ==> start < records[j].sequenceNumber
    ensures records[i].sequenceNumber >= start + 1 + i
  {
    if i > 0 {
      NumbersGrow(records, start, i - 1);
      assert !ByNumber()(records[i], records[i - 1]);
    }
  }

  /** Unique numbers that are exactly start+1..start+m come out of the sort in that order. */
  lemma {:induction false} SortedNumbersAreContiguous(records: seq<LineageRecord>, start: nat, m: nat, k: nat)
    requires Ascending(records, ByNumber()) && UniqueNumbers(records) && k <= m
    requires forall i :: 0 <= i < |records| ==> start < records[i].sequenceNumber <= start + m
    requires forall n :: start < n <= start + m ==> HasRecord(records, n)
    ensures k <= |records| && forall i :: 0 <= i < k ==> records[i].sequenceNumber == start + 1 + i
    ensures k == m ==> |records| == m
  {
    if |records| > 0 {
      NumbersGrow(records, start, |records| - 1);
    }
    if k > 0 {
      SortedNumbersAreContiguous(records, start, m, k - 1);
      var n := start + k;
      assert HasRecord(records, n);
      var p :| 0 <= p < |records| && records[p].sequenceNumber == n;
      assert p >= k - 1;
      assert records[k - 1].sequenceNumber == n by {
        if k > 1 {
          assert records[k - 2].sequenceNumber == n - 1 && !ByNumber()(records[k - 1], records[k - 2]);
        }
      }
    }
  }

  // ---- The authority ----

  function Records(lineage: Dict<string, LineageRecord>): seq<LineageRecord> {
    seq(|lineage|, i requires 0 <= i < |lineage| => lineage[i].value)
  }

  ghost predicate Known(lineage: Dict<string, LineageRecord>, verdicts: Dict<string, Verdict>) {
    forall i :: 0 <= i < |lineage| ==> lineage[i].key == lineage[i].value.messageId && Has(verdicts, lineage[i].key)
  }

  ghost predicate Registered(lineage: Dict<string, LineageRecord>, entries: map<string, Entry>) {
    forall i :: 0 <= i < |lineage| ==> lineage[i].key in entries
  }

  lemma UnregisteredIsNew(lineage: Dict<string, LineageRecord>, entries: map<string, Entry>, messageId: string)
    requires Registered(lineage, entries) && messageId !in entries
    ensures !Has(lineage, messageId)
  {
  }

  lemma StillKnown(
    lineage: Dict<string, LineageRecord>, verdicts: Dict<string, Verdict>, messageId: string, verdict: Verdict)
    requires Known(lineage, verdicts)
    ensures Known(lineage, Put(verdicts, messageId, verdict)) && Has(Put(verdicts, messageId, verdict), messageId)
  {
    PutEffect(verdicts, messageId, verdict, messageId, verdict);
    forall i | 0 <= i < |lineage|
      ensures Has(Put(verdicts, messageId, verdict), lineage[i].key)
    {
      PutEffect(verdicts, messageId, verdict, lineage[i].key, verdict);
    }
  }

  class CanonicalReplayAuthority {
    const registry: ReplayRegistry
    const fingerprint: Fingerprint
    ghost const start: nat
    var lineage: Dict<string, LineageRecord>
    var allVerdicts: Dict<string, Verdict>

    /** Everything accepted since the start, and nothing else, is in the lineage. */
    ghost predicate Valid()
      reads this, registry
    {
      && registry.Valid()
      && registry.counter == start + |lineage| && IsLineage(Records(lineage), start)
      && UniqueKeys(lineage) && UniqueKeys(allVerdicts) && Known(lineage, allVerdicts)
      && Registered(lineage, registry.entries)
    }

    constructor (registry: ReplayRegistry, fingerprint: Fingerprint)
      requires registry.Valid()
      ensures Valid() && this.registry == registry && this.fingerprint == fingerprint
      ensures start == registry.counter && lineage == [] && allVerdicts == []
    {
      this.registry, this.fingerprint := registry, fingerprint;
      start := registry.counter;
      lineage, allVerdicts := [], [];
    }

    /** An empty `traceReference` stands for none and is replaced by the message id. */
    method Submit(messageId: string, issuedAt: Option<real>, now: real, traceReference: string)
      returns (verdict: Verdict)
      requires Valid()
      modifies this, registry
      ensures Valid()
      ensures var issued := if issuedAt.Some? then issuedAt.value else now;
        verdict.decision == if IsStale(registry.ttl, issued, now) then Decision(messageId, 0, Stale)
                            else Decide(old(registry.State()), registry.maxGap, messageId)
      ensures verdict.lineageRecord == BuildLineageRecord(fingerprint, verdict.decision,
                                                          if traceReference == "" then messageId else traceReference)
      ensures var issued := if issuedAt.Some? then issuedAt.value else now;
        && (verdict.decision.status.Stale? <==> now - issued > registry.ttl)
        && (verdict.decision.status.Duplicate? <==>
              now - issued <= registry.ttl && messageId in old(registry.entries))
        && verdict.decision.messageId == messageId
        && (verdict.decision.status.Valid? ==> verdict.decision.sequenceNumber == old(registry.counter) + 1)
      ensures var r, d := verdict.lineageRecord, verdict.decision;
        && r.messageId == messageId && r.sequenceNumber == d.sequenceNumber && r.decision == d.status
        && r.traceReference == (if traceReference != "" then traceReference else messageId)
        && (r.parent.None? <==> d.sequenceNumber <= 1)
        && (r.parent.Some? ==> r.parent.value + 1 == d.sequenceNumber)
        && r.verificationHash == fingerprint(d, r.traceReference)
      ensures allVerdicts == Put(old(allVerdicts), messageId, verdict)
      ensures lineage == if verdict.decision.status.Valid? then old(lineage) + [Item(messageId, verdict.lineageRecord)]
                         else old(lineage)
      ensures registry.State() == if verdict.decision.status.Valid? then
          Accept(old(registry.State()), messageId, if issuedAt.Some? then issuedAt.value else now)
        else old(registry.State())
    {
      hide Consistent, UniqueKeys, Has;
      ghost var entries := registry.entries;
      var decision := registry.Submit(messageId, issuedAt, now);
      var reference := if traceReference == "" then messageId else traceReference;
      var record := BuildLineageRecord(fingerprint, decision, reference);
      verdict := Verdict(decision, record);
      PutKeepsUnique(allVerdicts, messageId, verdict);
      StillKnown(lineage, allVerdicts, messageId, verdict);
      allVerdicts := Put(allVerdicts, messageId, verdict);
      if decision.status.Valid? {
        UnregisteredIsNew(lineage, entries, messageId);
        PutNew(lineage, messageId, record);
        PutKeepsUnique(lineage, messageId, record);
        ghost var before := Records(lineage);
        lineage := Put(lineage, messageId, record);
        assert Records(lineage) == before + [record];
      }
    }

    method Lookup(messageId: string) returns (verdict: Option<Verdict>)
      ensures verdict.None? <==> !Has(allVerdicts, messageId)
      ensures verdict.Some? ==> forall any :: verdict.value == Get(allVerdicts, messageId, any)
    {
      if Has(allVerdicts, messageId) {
        var i :| 0 <= i < |allVerdicts| && allVerdicts[i].key == messageId;
        GetStored(allVerdicts, messageId);
        verdict := Some(Get(allVerdicts, messageId, allVerdicts[i].value));
      } else {
        verdict := None;
      }
    }

    method Lineage() returns (records: seq<LineageRecord>)
      requires Valid()
      ensures records == Records(lineage) && |records| == registry.counter - start && IsLineage(records, start)
    {
      SortedLeavesAscending(Records(lineage), ByNumber());
      records := SortedByNumber(Records(lineage));
    }

    /** `rejected` counts the ids that were never accepted, not the rejected submissions. */
    method VerificationReport() returns (sequenceCounter: nat, submitted: nat, accepted: nat, rejected: int)
      requires Valid()
      ensures sequenceCounter == registry.counter && submitted == |allVerdicts|
      ensures accepted == registry.counter - start
      ensures rejected == |Keys(allVerdicts) - Keys(lineage)|
    {
      sequenceCounter, submitted, accepted := registry.counter, |allVerdicts|, |lineage|;
      rejected := |allVerdicts| - |lineage|;
      hide Consistent;
      KeysMinusKeys(allVerdicts, lineage);
    }
  }
}
