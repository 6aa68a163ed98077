/** Registered producers, revoked keys, their file, and the three-step check of a contract's producer. */
module ProducerVerification {
  import opened Options
  import opened Texts

  datatype NodeIdentity = NodeIdentity(
    nodeId: string, publicKey: string, nodeRole: string, version: string, createdAt: string)

  datatype Producer = Producer(identity: NodeIdentity, allowedTypes: set<string>)

  /** Registered producers by id, and revoked keys; held in memory and written to the file. */
  datatype Roster = Roster(producers: map<string, Producer>, revoked: set<string>)

  datatype RosterFile = Missing | Empty | Garbled | Saved(roster: Roster)

  const NOBODY := Roster(map[], {})

  function LoadRoster(file: RosterFile): Roster {
    if file.Saved? then file.roster else NOBODY
  }

  /** No registered producer holds a revoked key, and producers are filed under their own id. */
  ghost predicate Trustworthy(r: Roster) {
    forall id :: id in r.producers ==>
      r.producers[id].identity.publicKey !in r.revoked && r.producers[id].identity.nodeId == id
  }

  // ---- Roles ----

  function UpperChar(c: char): char {
    if 'a' <= c <= 'z' then c - 'a' + 'A' else c
  }

  /** `str.upper()` on ASCII letters. */
  function Upper(s: string): string {
    seq(|s|, i requires 0 <= i < |s| => UpperChar(s[i]))
  }

  function DefaultTypes(nodeRole: string): set<string> {
    var role := Upper(nodeRole);
    if Contains(role, "QUANTUM") && !Contains(role, "HYBRID") then {"QUANTUM"}
    else if Contains(role, "CLASSICAL") && !Contains(role, "HYBRID") then {"CLASSICAL"}
    else {"HYBRID", "QUANTUM", "CLASSICAL"}
  }

  lemma UpperExact(s: string, i: nat)
    requires i < |s|
    ensures |Upper(s)| == |s| && !('a' <= Upper(s)[i] <= 'z')
    ensures Upper(s)[i] == s[i] || (Upper(s)[i] as int + 32 == s[i] as int && 'a' <= s[i] <= 'z')
  {
  }

  /** QUANTUM in a role excludes the other kinds, and otherwise CLASSICAL does; HYBRID or neither allows all three. */
  lemma DefaultTypesExact(nodeRole: string)
    ensures var role := Upper(nodeRole);
      var quantum, classical := Contains(role, "QUANTUM"), Contains(role, "CLASSICAL");
      var hybrid := Contains(role, "HYBRID");
      && ("QUANTUM" in DefaultTypes(nodeRole) <==> hybrid || quantum || !classical)
      && ("CLASSICAL" in DefaultTypes(nodeRole) <==> hybrid || !quantum)
      && ("HYBRID" in DefaultTypes(nodeRole) <==> hybrid || (!quantum && !classical))
    ensures DefaultTypes(nodeRole) <= {"QUANTUM", "CLASSICAL", "HYBRID"}
  {
  }

  // ---- The registry ----

  function WithProducer(r: Roster, identity: NodeIdentity, types: Option<set<string>>): Roster {
    var allowed := if types.Some? then types.value else DefaultTypes(identity.nodeRole);
    r.(producers := r.producers[identity.nodeId := Producer(identity, allowed)])
  }

  function WithoutKey(r: Roster, publicKey: string): Roster {
    Roster(map id | id in r.producers && r.producers[id].identity.publicKey != publicKey :: r.producers[id],
           r.revoked + {publicKey})
  }

  class ProducerRegistry {
    var producers: map<string, Producer>
    var revokedKeys: set<string>
    var file: RosterFile

    function State(): Roster
      reads this
    {
      Roster(producers, revokedKeys)
    }

    constructor (file: RosterFile)
      ensures State() == LoadRoster(file) && this.file == file
      ensures if file.Saved? then producers == file.roster.producers && revokedKeys == file.roster.revoked
              else producers == map[] && revokedKeys == {}
    {
      this.file := file;
      producers, revokedKeys := map[], {};
      new;
      if file.Saved? {
        producers, revokedKeys := file.roster.producers, file.roster.revoked;
      }
    }

    /** A write that fails raises nothing, and leaves the file as it was. */
    method Save(writable: bool)
      modifies this`file
      ensures file == if writable then Saved(State()) else old(file)
    {
      if writable {
        file := Saved(Roster(producers, revokedKeys));
      }
    }

    /** Refuses a revoked key.  An id that is already registered is given the new identity. */
    method Register(identity: NodeIdentity, types: Option<set<string>>, writable: bool) returns (ok: bool)
      modifies this
      ensures ok <==> identity.publicKey !in old(revokedKeys)
      ensures !ok ==> unchanged(this)
      ensures ok ==>
        && revokedKeys == old(revokedKeys) && producers.Keys == old(producers).Keys + {identity.nodeId}
        && (forall id :: id in producers && id != identity.nodeId ==> producers[id] == old(producers)[id])
        && producers[identity.nodeId].identity == identity
        && producers[identity.nodeId].allowedTypes
           == if types.None? then DefaultTypes(identity.nodeRole) else types.value
      ensures Trust(State(), file) == Step(old(Trust(State(), file)), RegisterProducer(identity, types, writable))
      ensures ok ==> file == if writable then Saved(State()) else old(file)
      ensures old(Trustworthy(State())) ==> Trustworthy(State())
    {
      if identity.publicKey in revokedKeys {
        return false;
      }
      var allowed := if types.Some? then types.value else DefaultTypes(identity.nodeRole);
      producers := producers[identity.nodeId := Producer(identity, allowed)];
      Save(writable);
      ok := true;
    }

    method RevokeKey(publicKey: string, writable: bool)
      modifies this
      ensures revokedKeys == old(revokedKeys) + {publicKey}
      ensures forall id :: id in producers <==>
        id in old(producers) && old(producers)[id].identity.publicKey != publicKey
      ensures forall id :: id in producers ==> producers[id] == old(producers)[id]
      ensures Trust(State(), file) == Step(old(Trust(State(), file)), Revoke(publicKey, writable))
      ensures file == if writable then Saved(State()) else old(file)
      ensures old(Trustworthy(State())) ==> Trustworthy(State())
    {
      revokedKeys := revokedKeys + {publicKey};
      var toRemove := set id | id in producers && producers[id].identity.publicKey == publicKey;
      producers := producers - toRemove;
      assert producers == WithoutKey(old(State()), publicKey).producers;
      Save(writable);
    }
  }

  // ---- Verification ----

  datatype ProvenanceStatus = Verified | Unverified | Tampered

  datatype Contract = Contract(
    traceId: string, producerType: string, producerId: string, producerSignature: string, contractSignature: string,
    body: string)

  /** Signature check of a contract under a public key. */
  type SignatureCheck = (Contract, string) -> ProvenanceStatus

  datatype FailureMode = UnverifiedProducer | InvalidSignature | TrustFailure

  datatype VerificationResult = Passed | Failed(mode: FailureMode)

  function Verify(r: Roster, check: SignatureCheck, c: Contract): VerificationResult {
    if c.producerId == "" || c.producerId !in r.producers then Failed(UnverifiedProducer)
    else
      var producer := r.producers[c.producerId];
      var key := producer.identity.publicKey;
      if key != "" && key in r.revoked then Failed(InvalidSignature)
      else if c.producerSignature == "" || c.contractSignature == "" then Failed(InvalidSignature)
      else if !check(c, key).Verified? then Failed(InvalidSignature)
      else if c.producerType !in producer.allowedTypes then Failed(TrustFailure)
      else Passed
  }

  /** What fails first decides the failure mode. */
  lemma FailuresExact(r: Roster, check: SignatureCheck, c: Contract)
    ensures var known := c.producerId != "" && c.producerId in r.producers;
      && (Verify(r, check, c) == Failed(UnverifiedProducer) <==> !known)
      && (known ==>
            var key := r.producers[c.producerId].identity.publicKey;
            var signed := !(key != "" && key in r.revoked) && c.producerSignature != "" && c.contractSignature != ""
                          && check(c, key) == Verified;
            && (Verify(r, check, c) == Failed(InvalidSignature) <==> !signed)
            && (Verify(r, check, c) == Failed(TrustFailure) <==>
                  signed && c.producerType !in r.producers[c.producerId].allowedTypes)
            && (Verify(r, check, c) == Passed <==>
                  signed && c.producerType in r.producers[c.producerId].allowedTypes))
  {
  }

  // ---- Whole runs ----

  datatype Operation =
    | RegisterProducer(identity: NodeIdentity, types: Option<set<string>>, writable: bool)
    | Revoke(publicKey: string, writable: bool)
    | Reload

  /** The registry in memory together with its file. */
  datatype Trust = Trust(roster: Roster, file: RosterFile)

  function Step(t: Trust, op: Operation): Trust {
    match op
    case RegisterProducer(identity, types, writable) =>
      if identity.publicKey in t.roster.revoked then t
      else Stored(t, WithProducer(t.roster, identity, types), writable)
    case Revoke(key, writable) => Stored(t, WithoutKey(t.roster, key), writable)
    case Reload => t.(roster := LoadRoster(t.file))
  }

  function Stored(t: Trust, r: Roster, writable: bool): Trust {
    Trust(r, if writable then Saved(r) else t.file)
  }

  function Run(t: Trust, ops: seq<Operation>): Trust {
    if ops == [] then t else Step(Run(t, ops[..|ops| - 1]), ops[|ops| - 1])
  }

  ghost predicate Sound(t: Trust) {
    Trustworthy(t.roster) && Trustworthy(LoadRoster(t.file))
  }

  lemma {:induction false} RunIsSound(t: Trust, ops: seq<Operation>)
    requires Sound(t)
    ensures Sound(Run(t, ops))
  {
    if ops != [] {
      RunIsSound(t, ops[..|ops| - 1]);
    }
  }

  /** Whatever is registered, revoked, lost by a failing write or reloaded: a contract only passes under the
      registered key of its producer, and that key is not revoked. */
  lemma PassedUnderUnrevokedKey(t: Trust, ops: seq<Operation>, check: SignatureCheck, c: Contract)
    requires Sound(t)
    ensures var r := Run(t, ops).roster;
      Verify(r, check, c).Passed? <==>
        && c.producerId != "" && c.producerId in r.producers
        && c.producerSignature != "" && c.contractSignature != ""
        && check(c, r.producers[c.producerId].identity.publicKey).Verified?
        && c.producerType in r.producers[c.producerId].allowedTypes
    ensures var r := Run(t, ops).roster;
      Verify(r, check, c).Passed? ==> r.producers[c.producerId].identity.publicKey !in r.revoked
  {
    RunIsSound(t, ops);
  }

  /** A key that is revoked in memory and in the file stays so, whatever follows: registrations, revocations,
      reloads and failing writes. */
  lemma {:induction false} RevokedForever(t: Trust, ops: seq<Operation>, key: string)
    requires key in t.roster.revoked && key in LoadRoster(t.file).revoked
    ensures key in Run(t, ops).roster.revoked && key in LoadRoster(Run(t, ops).file).revoked
  {
    if ops != [] {
      RevokedForever(t, ops[..|ops| - 1], key);
    }
  }

  ghost predicate Synced(t: Trust) {
    LoadRoster(t.file) == t.roster
  }

  predicate WriteFails(op: Operation) {
    (op.RegisterProducer? || op.Revoke?) && !op.writable
  }

  /** Loading what was saved gives the same registry: without failing writes, a reload changes nothing. */
  lemma {:induction false} ReloadIsNeutral(t: Trust, ops: seq<Operation>)
    requires Synced(t) && forall i :: 0 <= i < |ops| ==> !WriteFails(ops[i])
    ensures Synced(Run(t, ops)) && Step(Run(t, ops), Reload) == Run(t, ops)
  {
    if ops != [] {
      ReloadIsNeutral(t, ops[..|ops| - 1]);
    }
  }

  // ---- How long a revocation lasts ----

  predicate NoReload(ops: seq<Operation>) {
    forall i :: 0 <= i < |ops| ==> !ops[i].Reload?
  }

  /** The operation writes the file: a refused registration does not, even if it could. */
  predicate Writes(t: Trust, op: Operation) {
    match op
    case RegisterProducer(identity, _, writable) => writable && identity.publicKey !in t.roster.revoked
    case Revoke(_, writable) => writable
    case Reload => false
  }

  predicate WritesAt(t: Trust, ops: seq<Operation>, i: nat)
    requires i < |ops|
  {
    Writes(Run(t, ops[..i]), ops[i])
  }

  /** Something is written before the first reload. */
  ghost predicate WrittenBeforeReload(t: Trust, ops: seq<Operation>) {
    exists i :: 0 <= i < |ops| && NoReload(ops[..i]) && WritesAt(t, ops, i)
  }

  ghost predicate IsLastRevocation(ops: seq<Operation>, key: string) {
    ops != [] && ops[0].Revoke? && ops[0].publicKey == key
    && forall i :: 0 < i < |ops| ==> !(ops[i].Revoke? && ops[i].publicKey == key)
  }

  lemma WrittenSnoc(t: Trust, ops: seq<Operation>, op: Operation)
    ensures WrittenBeforeReload(t, ops + [op])
      <==> WrittenBeforeReload(t, ops) || (NoReload(ops) && Writes(Run(t, ops), op))
    ensures NoReload(ops + [op]) <==> NoReload(ops) && !op.Reload?
  {
    var longer, n := ops + [op], |ops|;
    assert longer[n] == op && longer[..n] == ops;
    assert forall i :: 0 <= i < n ==> longer[i] == ops[i] && longer[..i] == ops[..i];
    assert WritesAt(t, longer, n) <==> Writes(Run(t, ops), op);
    assert forall i :: 0 <= i < n ==> (WritesAt(t, longer, i) <==> WritesAt(t, ops, i));
    hide Writes, Run, WritesAt;
  }

  /** From its last revocation on, a key stays revoked through any further operations exactly when it was in the
      file before, or nothing was reloaded, or something was written before the first reload. */
  lemma {:induction false} RevocationSurvivesReload(t: Trust, ops: seq<Operation>, key: string)
    requires IsLastRevocation(ops, key)
    ensures key in Run(t, ops).roster.revoked
      <==> NoReload(ops) || key in LoadRoster(t.file).revoked || WrittenBeforeReload(t, ops)
    ensures key in LoadRoster(Run(t, ops).file).revoked
      <==> key in LoadRoster(t.file).revoked || WrittenBeforeReload(t, ops)
  {
    var init, op := ops[..|ops| - 1], ops[|ops| - 1];
    assert ops == init + [op];
    WrittenSnoc(t, init, op);
    NothingWritten(t);
    KeyAfter(Run(t, init), op, key);
    if init != [] {
      assert !(op.Revoke? && op.publicKey == key);
      RevocationSurvivesReload(t, init, key);
    }
    assert Run(t, ops) == Step(Run(t, init), op);
    hide NoReload, WrittenBeforeReload, Writes, Step, IsLastRevocation;
  }

  /** What an operation does to one key: a reload takes it from the file, a write puts it there. */
  lemma KeyAfter(t: Trust, op: Operation, key: string)
    ensures var mem, disk := key in t.roster.revoked, key in LoadRoster(t.file).revoked;
      var revoked := if op.Reload? then disk else mem || (op.Revoke? && op.publicKey == key);
      && (key in Step(t, op).roster.revoked <==> revoked)
      && (key in LoadRoster(Step(t, op).file).revoked <==> if Writes(t, op) then revoked else disk)
  {
  }

  lemma NothingWritten(t: Trust)
    ensures NoReload([]) && !WrittenBeforeReload(t, [])
  {
  }
}
