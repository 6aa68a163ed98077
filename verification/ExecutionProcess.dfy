/** The execution process: it takes contract messages from its queue, decides replays, pins producer keys,
    verifies and executes contracts, and records each execution in its ledger. */
module ExecutionProcess {
  import opened Digests
  import opened EvidenceLedger
  import opened Options
  import opened ReplayRegistry
  import opened ReplayAuthority
  import opened ProducerVerification
  import opened Provenance
  import opened Selections

  /** `contract` is absent when the fields do not make up a contract.  `received` and `now` are clock readings,
      and `freshId` is the random id drawn should the contract be executed. */
  datatype Message =
    | ContractMessage(
        traceId: string, contract: Option<Contract>, publicKey: string, issuedAt: Option<real>, received: real,
        now: real, freshId: string)
    | Done
    | Unrecognised

  datatype Ack =
    | HaltReplay(status: Status)
    | HaltInvalidContract
    | HaltKeyMismatch
    | HaltTrust(mode: FailureMode)
    | RuntimeAck(text: string)

  /** `record` is the certified execution record, present when the contract was executed. */
  datatype ExecutionResult = ExecutionResult(traceId: string, ack: Ack, record: Option<ExecutionRecord>)

  datatype RuntimeResult = RuntimeResult(ack: string, runtimeHash: string)

  /** What the message loop delegates to: hashing, encoding, the signature check and the runtime. */
  datatype Environment = Environment(
    sha: HashFn, encode: BaseEncoding, fingerprint: Fingerprint, check: SignatureCheck,
    execute: Contract -> RuntimeResult)

  function MakeRecord(
    env: Environment, m: Message, c: Contract, verdict: Verdict, result: RuntimeResult, head: string): ExecutionRecord
    requires m.ContractMessage?
  {
    var base := BaseFields(m.freshId, c.traceId, verdict.lineageRecord.verificationHash,
                           verdict.decision.sequenceNumber, c.producerId, "RUNTIME_CORE_1", "GOVERNANCE_LAYER",
                           result.ack, result.runtimeHash, "1.0.0");
    ExecutionRecord(base.executionId, base.traceId, base.replayReference, base.executionSequence,
                    base.producerIdentity, base.runtimeIdentity, base.governanceIdentity, base.executionStatus,
                    base.runtimeHash, env.sha(env.encode(base)), head, "", base.schemaVersion)
  }

  /** The producers once the message's producer is known: a new one is pinned to the key at hand and to its type. */
  function AfterContact(producers: map<string, Producer>, c: Contract, publicKey: string): map<string, Producer> {
    if c.producerId in producers then producers
    else
      var identity := NodeIdentity(c.producerId, publicKey, "PRODUCER", "1.0.0", "");
      producers[c.producerId := Producer(identity, {c.producerType})]
  }

  /** The answer to a message, given what was accepted and who was pinned before it. */
  function AckFor(
    env: Environment, decision: Decision, producers: map<string, Producer>, m: Message): Ack
    requires m.ContractMessage?
  {
    if !decision.status.Valid? then HaltReplay(decision.status)
    else if m.contract.None? then HaltInvalidContract
    else
      var c := m.contract.value;
      var pinned := AfterContact(producers, c, m.publicKey);
      if pinned[c.producerId].identity.publicKey != m.publicKey then HaltKeyMismatch
      else
        match Verify(Roster(pinned, {}), env.check, c)
        case Failed(mode) => HaltTrust(mode)
        case Passed => RuntimeAck(env.execute(c).ack)
  }

  /** Which answer a message gets, condition by condition. */
  lemma AckExact(env: Environment, decision: Decision, producers: map<string, Producer>, m: Message)
    requires m.ContractMessage?
    ensures var a := AckFor(env, decision, producers, m);
      && (a.HaltReplay? <==> !decision.status.Valid?) && (a.HaltReplay? ==> a.status == decision.status)
      && (a.HaltInvalidContract? <==> decision.status.Valid? && m.contract.None?)
    ensures decision.status.Valid? && m.contract.Some? ==>
      var a, c := AckFor(env, decision, producers, m), m.contract.value;
      var known := c.producerId in producers;
      var allowed := if known then producers[c.producerId].allowedTypes else {c.producerType};
      var signed := c.producerSignature != "" && c.contractSignature != "" && env.check(c, m.publicKey).Verified?;
      && (a.HaltKeyMismatch? <==> known && producers[c.producerId].identity.publicKey != m.publicKey)
      && (!a.HaltKeyMismatch? ==>
            && (a == HaltTrust(UnverifiedProducer) <==> c.producerId == "")
            && (a == HaltTrust(InvalidSignature) <==> c.producerId != "" && !signed)
            && (a == HaltTrust(TrustFailure) <==> c.producerId != "" && signed && c.producerType !in allowed)
            && (a == RuntimeAck(env.execute(c).ack) <==> c.producerId != "" && signed && c.producerType in allowed))
  {
  }

  function ReplayDecision(registry: Image, ttl: real, maxGap: int, m: Message): Decision
    requires m.ContractMessage?
  {
    var issued := if m.issuedAt.Some? then m.issuedAt.value else m.received;
    if IsStale(ttl, issued, m.now) then Decision(m.traceId, 0, Stale) else Decide(registry, maxGap, m.traceId)
  }

  // ---- What holds between messages ----

  /** One result per contract message, in order. */
  ghost predicate Answered(handled: seq<Message>, outputs: seq<ExecutionResult>) {
    && |handled| == |outputs|
    && forall i :: 0 <= i < |handled| ==>
         handled[i].ContractMessage? && outputs[i].traceId == handled[i].traceId && WellFormed(handled[i])
  }

  /** A contract carries the trace id of its message. */
  predicate WellFormed(m: Message) {
    m.ContractMessage? && m.contract.Some? ==> m.contract.value.traceId == m.traceId
  }

  /** What the record of an execution says, field by field: the contract's producer, the runtime's answer, the number
      and fingerprint of the message's VALID decision, and the hash over all of it. */
  ghost predicate Certifies(env: Environment, m: Message, r: ExecutionRecord) {
    && m.ContractMessage? && m.contract.Some? && r.executionSequence >= 0
    && var result := env.execute(m.contract.value);
       && r.executionId == m.freshId && r.traceId == m.traceId
       && r.replayReference == env.fingerprint(Decision(m.traceId, r.executionSequence, Status.Valid), m.traceId)
       && r.producerIdentity == m.contract.value.producerId
       && r.runtimeIdentity == "RUNTIME_CORE_1" && r.governanceIdentity == "GOVERNANCE_LAYER"
       && r.executionStatus == result.ack && r.runtimeHash == result.runtimeHash
       && r.executionRootHash == "" && r.schemaVersion == "1.0.0"
       && r.executionHash == env.sha(env.encode(BaseFields(
            m.freshId, m.traceId, r.replayReference, r.executionSequence, m.contract.value.producerId,
            "RUNTIME_CORE_1", "GOVERNANCE_LAYER", result.ack, result.runtimeHash, "1.0.0")))
  }

  /** The verdict accepts the message's trace id, and bears the fingerprint of that decision. */
  ghost predicate Accepts(env: Environment, m: Message, verdict: Verdict)
    requires m.ContractMessage?
  {
    && verdict.decision == Decision(m.traceId, verdict.decision.sequenceNumber, Status.Valid)
    && verdict.lineageRecord.verificationHash == env.fingerprint(verdict.decision, m.traceId)
  }

  lemma RecordCertifies(env: Environment, m: Message, c: Contract, verdict: Verdict, head: string)
    requires m.ContractMessage? && m.contract == Some(c) && WellFormed(m) && Accepts(env, m, verdict)
    ensures var r := MakeRecord(env, m, c, verdict, env.execute(c), head);
      && Certifies(env, m, r) && VerifyExecution(env.sha, env.encode, r) && r.previousExecutionHash == head
      && r.traceId == m.traceId && r.executionSequence == verdict.decision.sequenceNumber
      && r.executionStatus == env.execute(c).ack
  {
  }

  lemma AcceptsValid(env: Environment, m: Message, verdict: Verdict)
    requires m.ContractMessage? && Accepts(env, m, verdict)
    ensures verdict.decision.status.Valid?
  {
  }

  /** `sources[k]` is the message whose execution is record k; those and no others were executed. */
  ghost predicate Sourced(
    env: Environment, handled: seq<Message>, outputs: seq<ExecutionResult>, records: seq<ExecutionRecord>,
    sources: seq<nat>)
  {
    && |handled| == |outputs| && |sources| == |records|
    && (forall k :: 0 <= k < |sources| ==>
          && sources[k] < |handled| && handled[sources[k]].ContractMessage?
          && outputs[sources[k]].record == Some(records[k]) && Certifies(env, handled[sources[k]], records[k])
          && outputs[sources[k]].ack == RuntimeAck(records[k].executionStatus))
    && (forall j, k :: 0 <= j < k < |sources| ==> sources[j] < sources[k])
    && (forall i :: 0 <= i < |outputs| && outputs[i].record.Some? ==> i in sources)
  }

  /** Execution sequence numbers are those the registry gave to the trace ids, and they increase. */
  ghost predicate Numbered(records: seq<ExecutionRecord>, image: Image) {
    && (forall k :: 0 <= k < |records| ==>
          && records[k].traceId in image.entries
          && image.entries[records[k].traceId].sequenceNumber == records[k].executionSequence)
    && SequencesIncrease(records)
  }

  ghost predicate SequencesIncrease(records: seq<ExecutionRecord>) {
    forall j, k :: 0 <= j < k < |records| ==> records[j].executionSequence < records[k].executionSequence
  }

  /** The message got past the replay decision with a proper contract, and so to its producer's key. */
  predicate Contacted(m: Message, o: ExecutionResult) {
    m.ContractMessage? && m.contract.Some? && !o.ack.HaltReplay? && !o.ack.HaltInvalidContract?
  }

  predicate SameProducer(m: Message, n: Message) {
    && m.ContractMessage? && n.ContractMessage? && m.contract.Some? && n.contract.Some?
    && m.contract.value.producerId == n.contract.value.producerId
  }

  ghost predicate FirstContact(handled: seq<Message>, outputs: seq<ExecutionResult>, i: nat)
    requires |handled| == |outputs| && i < |handled|
  {
    && Contacted(handled[i], outputs[i])
    && forall j :: 0 <= j < i && Contacted(handled[j], outputs[j]) ==> !SameProducer(handled[j], handled[i])
  }

  /** A producer's key is the one its first contact brought; later messages are halted for their key exactly when
      it is another one. */
  ghost predicate Pinned(
    handled: seq<Message>, outputs: seq<ExecutionResult>, producers: map<string, Producer>)
  {
    && |handled| == |outputs|
    && (forall id :: id in producers ==> HasContacted(handled, outputs, id))
    && (forall i :: 0 <= i < |handled| && Contacted(handled[i], outputs[i]) ==>
          KeyHolds(handled, outputs, producers, i))
  }

  ghost predicate KeyHolds(
    handled: seq<Message>, outputs: seq<ExecutionResult>, producers: map<string, Producer>, i: nat)
    requires |handled| == |outputs| && i < |handled| && Contacted(handled[i], outputs[i])
  {
    var id := handled[i].contract.value.producerId;
    && id in producers
    && (outputs[i].ack.HaltKeyMismatch? <==> producers[id].identity.publicKey != handled[i].publicKey)
    && (FirstContact(handled, outputs, i) ==> producers[id].identity.publicKey == handled[i].publicKey)
  }

  ghost predicate HasContacted(handled: seq<Message>, outputs: seq<ExecutionResult>, id: string)
    requires |handled| == |outputs|
  {
    exists i :: 0 <= i < |handled| && Contacted(handled[i], outputs[i]) && handled[i].contract.value.producerId == id
  }

  ghost predicate RecordsVerify(env: Environment, records: seq<ExecutionRecord>) {
    forall k :: 0 <= k < |records| ==>
      VerifyExecution(env.sha, env.encode, records[k]) && records[k].previousExecutionHash != ""
  }

  function ContractsUntilDone(messages: seq<Message>): seq<Message> {
    if messages == [] || messages[0].Done? then []
    else (if messages[0].ContractMessage? then [messages[0]] else []) + ContractsUntilDone(messages[1..])
  }

  /** The contract messages before the first DONE, each once and in order. */
  lemma {:induction false} ContractsAre(messages: seq<Message>) returns (positions: seq<nat>)
    ensures IsSelection(messages, positions, ContractsUntilDone(messages))
    ensures forall i: nat :: i in positions <==> IsDue(messages, i)
  {
    if messages == [] || messages[0].Done? {
      positions := [];
    } else {
      var keep, tail := messages[0].ContractMessage?, messages[1..];
      var rest := ContractsAre(tail);
      SelectFirst(messages, rest, ContractsUntilDone(tail), keep);
      positions := (if keep then [0] else []) + Shift(rest);
      hide IsSelection, Shift;
      forall i: nat
        ensures i in positions <==> IsDue(messages, i)
      {
        assert i > 0 ==> (IsDue(messages, i) <==> IsDue(tail, i - 1)) by {
          assert forall j :: 0 < j < |messages| ==> messages[j] == tail[j - 1];
        }
      }
    }
  }

  predicate IsDue(messages: seq<Message>, i: nat) {
    i < |messages| && messages[i].ContractMessage? && forall j :: 0 <= j < i ==> !messages[j].Done?
  }

  lemma NextContract(messages: seq<Message>, i: nat)
    requires i < |messages| && !messages[i].Done?
    ensures ContractsUntilDone(messages[i..])
      == (if messages[i].ContractMessage? then [messages[i]] else []) + ContractsUntilDone(messages[i + 1..])
  {
    assert messages[i..][1..] == messages[i + 1..];
  }

  lemma NoContractLeft(messages: seq<Message>, i: nat)
    requires i <= |messages| && (i < |messages| ==> messages[i].Done?)
    ensures ContractsUntilDone(messages[i..]) == []
  {
  }

  // ---- One more message ----

  lemma AnsweredSnoc(handled: seq<Message>, outputs: seq<ExecutionResult>, m: Message, o: ExecutionResult)
    requires Answered(handled, outputs) && m.ContractMessage? && WellFormed(m) && o.traceId == m.traceId
    ensures Answered(handled + [m], outputs + [o])
  {
  }

  lemma SourcedSnoc(
    env: Environment, handled: seq<Message>, outputs: seq<ExecutionResult>, records: seq<ExecutionRecord>,
    sources: seq<nat>, m: Message, o: ExecutionResult)
    requires Sourced(env, handled, outputs, records, sources) && m.ContractMessage?
    requires o.record.Some? ==>
      Certifies(env, m, o.record.value) && o.ack == RuntimeAck(o.record.value.executionStatus)
    ensures match o.record
      case None => Sourced(env, handled + [m], outputs + [o], records, sources)
      case Some(r) => Sourced(env, handled + [m], outputs + [o], records + [r], sources + [|handled|])
  {
    hide Certifies;
  }

  /** Every registered producer stays as it was. */
  ghost predicate Extends(producers: map<string, Producer>, later: map<string, Producer>) {
    forall id :: id in producers ==> id in later && later[id] == producers[id]
  }

  lemma {:induction false} PinnedSnoc(
    handled: seq<Message>, outputs: seq<ExecutionResult>, producers: map<string, Producer>,
    later: map<string, Producer>, m: Message, o: ExecutionResult)
    requires Pinned(handled, outputs, producers) && Extends(producers, later)
    requires !Contacted(m, o) ==> later == producers
    requires Contacted(m, o) ==>
      var id := m.contract.value.producerId;
      && later.Keys == producers.Keys + {id}
      && (o.ack.HaltKeyMismatch? <==> later[id].identity.publicKey != m.publicKey)
      && (id !in producers ==> later[id].identity.publicKey == m.publicKey)
    ensures Pinned(handled + [m], outputs + [o], later)
  {
    var hs, os := handled + [m], outputs + [o];
    forall id | id in later
      ensures HasContacted(hs, os, id)
    {
      if id in producers {
        StillContacted(handled, outputs, m, o, id);
      } else {
        assert hs[|handled|] == m && os[|handled|] == o;
      }
    }
    forall i | 0 <= i < |hs| && Contacted(hs[i], os[i])
      ensures KeyHolds(hs, os, later, i)
    {
      if i < |handled| {
        EarlierKeyHolds(handled, outputs, producers, later, m, o, i);
      } else {
        NotFirstIfRegistered(handled, outputs, producers, m, o);
      }
    }
  }

  lemma StillContacted(
    handled: seq<Message>, outputs: seq<ExecutionResult>, m: Message, o: ExecutionResult, id: string)
    requires |handled| == |outputs| && HasContacted(handled, outputs, id)
    ensures HasContacted(handled + [m], outputs + [o], id)
  {
    var i :| 0 <= i < |handled| && Contacted(handled[i], outputs[i]) && handled[i].contract.value.producerId == id;
    assert (handled + [m])[i] == handled[i] && (outputs + [o])[i] == outputs[i];
  }

  lemma EarlierKeyHolds(
    handled: seq<Message>, outputs: seq<ExecutionResult>, producers: map<string, Producer>,
    later: map<string, Producer>, m: Message, o: ExecutionResult, i: nat)
    requires |handled| == |outputs| && i < |handled| && Contacted(handled[i], outputs[i])
    requires KeyHolds(handled, outputs, producers, i) && Extends(producers, later)
    ensures KeyHolds(handled + [m], outputs + [o], later, i)
  {
    var hs, os := handled + [m], outputs + [o];
    assert forall j :: 0 <= j <= i ==> hs[j] == handled[j] && os[j] == outputs[j];
  }

  lemma NotFirstIfRegistered(
    handled: seq<Message>, outputs: seq<ExecutionResult>, producers: map<string, Producer>, m: Message,
    o: ExecutionResult)
    requires Pinned(handled, outputs, producers) && Contacted(m, o)
    ensures FirstContact(handled + [m], outputs + [o], |handled|) ==> m.contract.value.producerId !in producers
  {
    var id, hs, os := m.contract.value.producerId, handled + [m], outputs + [o];
    if id in producers {
      assert HasContacted(handled, outputs, id);
      var j :| 0 <= j < |handled| && Contacted(handled[j], outputs[j]) && handled[j].contract.value.producerId == id;
      assert Contacted(hs[j], os[j]) && SameProducer(hs[j], hs[|handled|]);
    }
  }

  lemma NumberedAccept(records: seq<ExecutionRecord>, image: Image, id: string, issued: real)
    requires Numbered(records, image) && Consistent(image) && id !in image.entries
    ensures Numbered(records, Accept(image, id, issued))
    ensures forall r: ExecutionRecord :: r.traceId == id && r.executionSequence == image.counter + 1 ==>
      Numbered(records + [r], Accept(image, id, issued))
  {
  }

  lemma RecordsVerifySnoc(env: Environment, records: seq<ExecutionRecord>, r: ExecutionRecord)
    requires RecordsVerify(env, records) && VerifyExecution(env.sha, env.encode, r) && r.previousExecutionHash != ""
    ensures RecordsVerify(env, records + [r])
  {
  }

  class ExecutionProcess {
    const env: Environment
    const authority: CanonicalReplayAuthority
    const ledger: EvidenceLedger
    const trust: ProducerRegistry
    var outputs: seq<ExecutionResult>
    ghost var handled: seq<Message>
    ghost var sources: seq<nat>

    ghost predicate Valid()
      reads this, authority, authority.registry, ledger, trust
    {
      && authority.Valid() && authority.fingerprint == env.fingerprint && ledger.Valid() && ledger.sha == env.sha
      && Trustworthy(trust.State()) && trust.revokedKeys == {}
      && Answered(handled, outputs) && Sourced(env, handled, outputs, ledger.records, sources)
      && Numbered(ledger.records, authority.registry.State())
      && Pinned(handled, outputs, trust.producers) && RecordsVerify(env, ledger.records)
    }

    constructor (env: Environment, ttl: real, maxGap: int)
      ensures Valid() && fresh(authority) && fresh(authority.registry) && fresh(ledger) && fresh(trust)
      ensures this.env == env && outputs == [] && handled == [] && ledger.records == []
    {
      this.env := env;
      var registry := new ReplayRegistry(Absent, ttl, maxGap);
      this.authority := new CanonicalReplayAuthority(registry, env.fingerprint);
      this.ledger := new EvidenceLedger(env.sha);
      this.trust := new ProducerRegistry(Missing);
      outputs, handled, sources := [], [], [];
    }

    /** The message loop: it stops at the first `Done`, which is also what the end of the stream reads as, and
        skips what it does not recognise. */
    method Run(messages: seq<Message>)
      requires Valid() && forall i :: 0 <= i < |messages| ==> WellFormed(messages[i])
      modifies this, authority, authority.registry, ledger, trust
      ensures Valid() && handled == old(handled) + ContractsUntilDone(messages)
      ensures old(outputs) <= outputs && old(ledger.records) <= ledger.records
      ensures Extends(old(trust.producers), trust.producers)
    {
      hide Valid, ContractsUntilDone;
      var i := 0;
      assert messages[0..] == messages;
      while i < |messages| && !messages[i].Done?
        invariant 0 <= i <= |messages| && Valid()
        invariant handled + ContractsUntilDone(messages[i..]) == old(handled) + ContractsUntilDone(messages)
        invariant old(outputs) <= outputs && old(ledger.records) <= ledger.records
        invariant Extends(old(trust.producers), trust.producers)
      {
        NextContract(messages, i);
        if messages[i].ContractMessage? {
          Handle(messages[i]);
        }
        i := i + 1;
      }
      NoContractLeft(messages, i);
    }

    /** Handles one contract message and answers it once. */
    method Handle(m: Message)
      requires Valid() && m.ContractMessage? && WellFormed(m)
      modifies this, authority, authority.registry, ledger, trust
      ensures Valid() && handled == old(handled) + [m]
      ensures |outputs| == |old(outputs)| + 1 && old(outputs) <= outputs && old(ledger.records) <= ledger.records
      ensures outputs[|outputs| - 1].ack == AckFor(
        env, ReplayDecision(old(authority.registry.State()), authority.registry.ttl, authority.registry.maxGap, m),
        old(trust.producers), m)
      ensures outputs[|outputs| - 1].record.Some? <==> outputs[|outputs| - 1].ack.RuntimeAck?
      ensures var ack, issued := outputs[|outputs| - 1].ack, if m.issuedAt.Some? then m.issuedAt.value else m.received;
        && (ack == HaltReplay(Stale) <==> m.now - issued > authority.registry.ttl)
        && (ack == HaltReplay(Duplicate) <==>
              m.now - issued <= authority.registry.ttl && m.traceId in old(authority.registry.entries))
      ensures Extends(old(trust.producers), trust.producers)
    {
      hide Answered, Sourced, Numbered, Pinned, RecordsVerify, Consistent, ChainHolds, Verify, AfterContact;
      var issued := if m.issuedAt.Some? then m.issuedAt.value else m.received;
      ghost var image := authority.registry.State();
      var verdict := authority.Submit(m.traceId, Some(issued), m.now, "");
      if !verdict.decision.status.Valid? {
        Answer(m, HaltReplay(verdict.decision.status));
        return;
      }
      NumberedAccept(ledger.records, image, m.traceId, issued);
      HandleAccepted(m, verdict);
    }

    /** The part of a message's handling that only a first submission of its trace id gets to. */
    method HandleAccepted(m: Message, verdict: Verdict)
      requires m.ContractMessage? && WellFormed(m) && Accepts(env, m, verdict)
      requires ledger.Valid() && ledger.sha == env.sha && RecordsVerify(env, ledger.records)
      requires Trustworthy(trust.State()) && trust.revokedKeys == {}
      requires Answered(handled, outputs) && Sourced(env, handled, outputs, ledger.records, sources)
      requires Pinned(handled, outputs, trust.producers)
      modifies this, ledger, trust
      ensures ledger.Valid() && RecordsVerify(env, ledger.records)
      ensures Trustworthy(trust.State()) && trust.revokedKeys == {}
      ensures Answered(handled, outputs) && Sourced(env, handled, outputs, ledger.records, sources)
      ensures Pinned(handled, outputs, trust.producers) && Extends(old(trust.producers), trust.producers)
      ensures handled == old(handled) + [m] && |outputs| == |old(outputs)| + 1 && old(outputs) <= outputs
      ensures outputs[|outputs| - 1].ack == AckFor(env, verdict.decision, old(trust.producers), m)
      ensures outputs[|outputs| - 1].record.Some? <==> outputs[|outputs| - 1].ack.RuntimeAck?
      ensures || ledger.records == old(ledger.records)
              || exists r: ExecutionRecord ::
                   && ledger.records == old(ledger.records) + [r]
                   && r.traceId == m.traceId && r.executionSequence == verdict.decision.sequenceNumber
    {
      hide Answered, Sourced, Pinned, RecordsVerify, ChainHolds, Verify, Accepts;
      assert verdict.decision.status.Valid? by {
        AcceptsValid(env, m, verdict);
      }
      if m.contract.None? {
        Answer(m, HaltInvalidContract);
        return;
      }
      var c := m.contract.value;
      ghost var producers := trust.producers;
      var matches := Contact(c, m.publicKey);
      assert Extends(producers, trust.producers);
      if matches {
        Execute(m, c, verdict, producers);
      } else {
        PinnedSnoc(handled, outputs, producers, trust.producers, m, ExecutionResult(m.traceId, HaltKeyMismatch, None));
        AddOutput(m, ExecutionResult(m.traceId, HaltKeyMismatch, None));
      }
    }

    /** Verifies and executes a contract whose producer's key is the pinned one. */
    method Execute(m: Message, c: Contract, verdict: Verdict, ghost producers: map<string, Producer>)
      requires m.ContractMessage? && WellFormed(m) && m.contract == Some(c) && Accepts(env, m, verdict)
      requires ledger.Valid() && ledger.sha == env.sha && RecordsVerify(env, ledger.records)
      requires Answered(handled, outputs) && Sourced(env, handled, outputs, ledger.records, sources)
      requires Pinned(handled, outputs, producers) && trust.revokedKeys == {}
      requires trust.producers == AfterContact(producers, c, m.publicKey)
      requires trust.producers[c.producerId].identity.publicKey == m.publicKey
      modifies this, ledger
      ensures ledger.Valid() && RecordsVerify(env, ledger.records)
      ensures Answered(handled, outputs) && Sourced(env, handled, outputs, ledger.records, sources)
      ensures Pinned(handled, outputs, trust.producers) && handled == old(handled) + [m] && old(outputs) <= outputs
      ensures |outputs| == |old(outputs)| + 1
      ensures outputs[|outputs| - 1].ack == match Verify(trust.State(), env.check, c)
                                            case Failed(mode) => HaltTrust(mode)
                                            case Passed => RuntimeAck(env.execute(c).ack)
      ensures outputs[|outputs| - 1].record.Some? <==> outputs[|outputs| - 1].ack.RuntimeAck?
      ensures || ledger.records == old(ledger.records)
              || exists r: ExecutionRecord ::
                   && ledger.records == old(ledger.records) + [r]
                   && r.traceId == m.traceId && r.executionSequence == verdict.decision.sequenceNumber
    {
      hide Answered, Sourced, Pinned, RecordsVerify, ChainHolds, MakeRecord, Certifies, VerifyExecution, Accepts;
      var trusted := Verify(trust.State(), env.check, c);
      if trusted.Failed? {
        var halt := ExecutionResult(m.traceId, HaltTrust(trusted.mode), None);
        PinnedSnoc(handled, outputs, producers, trust.producers, m, halt);
        AddOutput(m, halt);
        return;
      }
      var result := env.execute(c);
      var record := MakeRecord(env, m, c, verdict, result, ledger.currentHead);
      RecordCertifies(env, m, c, verdict, ledger.currentHead);
      var o := ExecutionResult(m.traceId, RuntimeAck(result.ack), Some(record));
      PinnedSnoc(handled, outputs, producers, trust.producers, m, o);
      RecordsVerifySnoc(env, ledger.records, record);
      HeadIsStored(ledger);
      ghost var records := ledger.records;
      var snapshot := ledger.Append(record);
      assert ledger.records == records + [record];
      assert ledger.records[..|ledger.records| - 1] == records;
      AddOutput(m, o);
    }

    lemma HeadIsStored(ledger: EvidenceLedger)
      requires ledger.Valid()
      ensures ledger.currentHead == HeadOf(ledger.sha, ledger.records)
    {
    }

    /** Registers an unknown producer with the key at hand; tells whether a known one's key is the same. */
    method Contact(c: Contract, publicKey: string) returns (matches: bool)
      requires Trustworthy(trust.State()) && trust.revokedKeys == {}
      modifies trust
      ensures Trustworthy(trust.State()) && trust.revokedKeys == {}
      ensures trust.producers == AfterContact(old(trust.producers), c, publicKey)
      ensures matches <==> trust.producers[c.producerId].identity.publicKey == publicKey
      ensures c.producerId in old(trust.producers) ==> trust.producers == old(trust.producers)
      ensures c.producerId !in old(trust.producers) ==>
        && trust.producers.Keys == old(trust.producers).Keys + {c.producerId}
        && trust.producers[c.producerId].allowedTypes == {c.producerType}
        && trust.producers[c.producerId].identity.publicKey == publicKey
        && trust.producers[c.producerId].identity.nodeId == c.producerId
        && trust.producers[c.producerId].identity.nodeRole == "PRODUCER"
        && trust.producers[c.producerId].identity.version == "1.0.0"
    {
      if c.producerId !in trust.producers {
        var saved: bool := *;
        var identity := NodeIdentity(c.producerId, publicKey, "PRODUCER", "1.0.0", "");
        var registered := trust.Register(identity, Some({c.producerType}), saved);
        matches := true;
      } else {
        matches := trust.producers[c.producerId].identity.publicKey == publicKey;
      }
    }

    /** The answer to a message that never got to its producer's key. */
    method Answer(m: Message, ack: Ack)
      requires m.ContractMessage? && WellFormed(m) && (ack.HaltReplay? || ack.HaltInvalidContract?)
      requires Answered(handled, outputs) && Sourced(env, handled, outputs, ledger.records, sources)
      requires Pinned(handled, outputs, trust.producers)
      modifies this
      ensures Answered(handled, outputs) && Sourced(env, handled, outputs, ledger.records, sources)
      ensures Pinned(handled, outputs, trust.producers)
      ensures outputs == old(outputs) + [ExecutionResult(m.traceId, ack, None)] && handled == old(handled) + [m]
    {
      hide Answered, Sourced, Pinned;
      PinnedSnoc(handled, outputs, trust.producers, trust.producers, m, ExecutionResult(m.traceId, ack, None));
      AddOutput(m, ExecutionResult(m.traceId, ack, None));
    }

    method AddOutput(m: Message, o: ExecutionResult)
      requires m.ContractMessage? && WellFormed(m) && o.traceId == m.traceId
      requires o.record.Some? ==>
        Certifies(env, m, o.record.value) && o.ack == RuntimeAck(o.record.value.executionStatus)
      requires Answered(handled, outputs)
      requires match o.record
        case None => Sourced(env, handled, outputs, ledger.records, sources)
        case Some(r) => |ledger.records| > 0 && r == ledger.records[|ledger.records| - 1]
                        && Sourced(env, handled, outputs, ledger.records[..|ledger.records| - 1], sources)
      modifies this
      ensures Answered(handled, outputs) && Sourced(env, handled, outputs, ledger.records, sources)
      ensures outputs == old(outputs) + [o] && handled == old(handled) + [m]
    {
      hide Answered, Sourced;
      AnsweredSnoc(handled, outputs, m, o);
      if o.record.Some? {
        ghost var init := ledger.records[..|ledger.records| - 1];
        SourcedSnoc(env, handled, outputs, init, sources, m, o);
        assert ledger.records == init + [o.record.value];
        sources := sources + [|handled|];
      } else {
        SourcedSnoc(env, handled, outputs, ledger.records, sources, m, o);
      }
      outputs := outputs + [o];
      handled := handled + [m];
    }
  }

  ghost predicate UniqueFreshIds(handled: seq<Message>) {
    forall i, j :: 0 <= i < j < |handled| && handled[i].ContractMessage? && handled[j].ContractMessage?
      ==> handled[i].freshId != handled[j].freshId
  }

  /** After any messages: every contract message has its one answer, in order; no trace id was executed twice;
      sequence numbers increase along the ledger; the chain and every execution hash verify; and with unique
      random ids every record's lineage verifies. */
  lemma {:induction false} ProcessGuarantees(p: ExecutionProcess)
    requires p.Valid()
    ensures |p.outputs| == |p.handled|
    ensures forall i :: 0 <= i < |p.handled| ==> p.outputs[i].traceId == p.handled[i].traceId
    ensures forall i, j ::
      0 <= i < j < |p.outputs| && p.outputs[i].record.Some? && p.outputs[j].record.Some?
      ==> p.outputs[i].traceId != p.outputs[j].traceId
    ensures |p.sources| == |p.ledger.records| && forall k :: 0 <= k < |p.sources| ==> p.sources[k] < |p.handled|
    ensures forall k :: 0 <= k < |p.ledger.records| ==>
      var r, m, o := p.ledger.records[k], p.handled[p.sources[k]], p.outputs[p.sources[k]];
      && o.record == Some(r) && m.ContractMessage? && m.contract.Some? && r.executionSequence >= 0
      && var c, n := m.contract.value, r.executionSequence as nat;
         && r.executionId == m.freshId && r.traceId == c.traceId && r.producerIdentity == c.producerId
         && r.executionStatus == p.env.execute(c).ack && r.runtimeHash == p.env.execute(c).runtimeHash
         && o.ack == RuntimeAck(p.env.execute(c).ack)
         && r.runtimeIdentity == "RUNTIME_CORE_1" && r.governanceIdentity == "GOVERNANCE_LAYER"
         && r.schemaVersion == "1.0.0" && r.executionRootHash == ""
         && r.replayReference == p.env.fingerprint(Decision(m.traceId, n, Status.Valid), m.traceId)
    ensures SequencesIncrease(p.ledger.records)
    ensures ChainHolds(p.env.sha, p.ledger.records, p.ledger.evidenceHashes, p.ledger.currentHead)
    ensures forall k :: 0 <= k < |p.ledger.records| ==> VerifyExecution(p.env.sha, p.env.encode, p.ledger.records[k])
    ensures UniqueFreshIds(p.handled) ==> UniqueIds(p.ledger.records)
    ensures UniqueFreshIds(p.handled) ==>
      forall k :: 0 <= k < |p.ledger.records| ==>
        LineageHolds(p.env.sha, p.ledger.records, p.ledger.evidenceHashes, p.ledger.records[k])
    ensures Pinned(p.handled, p.outputs, p.trust.producers)
  {
    hide Pinned, ChainHolds, Consistent;
    SourcesSay(p.env, p.handled, p.outputs, p.ledger.records, p.sources);
    hide Certifies;
    var records := p.ledger.records;
    forall i, j | 0 <= i < j < |p.outputs| && p.outputs[i].record.Some? && p.outputs[j].record.Some?
      ensures p.outputs[i].traceId != p.outputs[j].traceId
    {
      ExecutedOnce(p.env, p.handled, p.outputs, records, p.sources, p.authority.registry.State(), i, j);
    }
    if UniqueFreshIds(p.handled) {
      forall k | 0 <= k < |records|
        ensures UniqueIds(records) && LineageHolds(p.env.sha, records, p.ledger.evidenceHashes, records[k])
      {
        StoredLineage(p.env.sha, records, p.ledger.evidenceHashes, p.ledger.currentHead, k);
      }
    }
  }

  lemma SourcesSay(
    env: Environment, handled: seq<Message>, outputs: seq<ExecutionResult>, records: seq<ExecutionRecord>,
    sources: seq<nat>)
    requires Answered(handled, outputs) && Sourced(env, handled, outputs, records, sources)
    ensures forall k :: 0 <= k < |records| ==>
      var r, m, o := records[k], handled[sources[k]], outputs[sources[k]];
      && o.record == Some(r) && m.ContractMessage? && m.contract.Some? && r.executionSequence >= 0
      && var c, n := m.contract.value, r.executionSequence as nat;
         && r.executionId == m.freshId && r.traceId == c.traceId && r.producerIdentity == c.producerId
         && r.executionStatus == env.execute(c).ack && r.runtimeHash == env.execute(c).runtimeHash
         && o.ack == RuntimeAck(env.execute(c).ack)
         && r.runtimeIdentity == "RUNTIME_CORE_1" && r.governanceIdentity == "GOVERNANCE_LAYER"
         && r.schemaVersion == "1.0.0" && r.executionRootHash == ""
         && r.replayReference == env.fingerprint(Decision(m.traceId, n, Status.Valid), m.traceId)
  {
  }

  lemma ExecutedOnce(
    env: Environment, handled: seq<Message>, outputs: seq<ExecutionResult>, records: seq<ExecutionRecord>,
    sources: seq<nat>, image: Image, i: nat, j: nat)
    requires Answered(handled, outputs) && Sourced(env, handled, outputs, records, sources) && Numbered(records, image)
    requires i < j < |outputs| && outputs[i].record.Some? && outputs[j].record.Some?
    ensures outputs[i].traceId != outputs[j].traceId
  {
    var a := SourceOf(env, handled, outputs, records, sources, i);
    var b := SourceOf(env, handled, outputs, records, sources, j);
    hide Answered, Sourced, Consistent;
    assert records[a].executionSequence != records[b].executionSequence;
  }

  /** The record of an output, and that different outputs have different ones. */
  lemma SourceOf(
    env: Environment, handled: seq<Message>, outputs: seq<ExecutionResult>, records: seq<ExecutionRecord>,
    sources: seq<nat>, i: nat) returns (k: nat)
    requires Answered(handled, outputs) && Sourced(env, handled, outputs, records, sources)
    requires i < |outputs| && outputs[i].record.Some?
    ensures k < |sources| == |records| && sources[k] == i && records[k].traceId == outputs[i].traceId
  {
    k :| 0 <= k < |sources| && sources[k] == i;
    assert Certifies(env, handled[i], records[k]);
  }
}
