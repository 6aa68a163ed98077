/** All interleavings of concurrent submissions to one registry, with failing writes, crashes and restarts.

    A submission checks the message's age before it takes the lock; everything up to the release of the lock
    is split at the points where another call, a crash or a failing write can come in between. */
module ReplayRuns {
  import opened Options
  import opened ReplayRegistry
  import StableSort
  import Authority = ReplayAuthority

  datatype Config = Config(ttl: real, maxGap: int)

  datatype Request = Request(messageId: string, issuedAt: real, now: real)

  /** Where a call is.  From `Deciding` to `Replaced` it holds the lock. */
  datatype Phase =
    | Called(req: Request)
    | Waiting(req: Request)
    | Deciding(req: Request)
    | Updated(req: Request, number: nat)    // memory updated, nothing written yet
    | Written(req: Request, number: nat)    // temporary file written, backing file not yet replaced
    | Replaced(req: Request, number: nat)   // backing file replaced, lock still held
    | Returning(decision: Decision)         // lock released, decision not yet seen by the caller

  datatype Event = CallMade(call: nat) | CallReturned(call: nat, decision: Decision)

  /** `memory` is absent while the process is down; `temp` is the temporary file. */
  datatype State = State(
    memory: Option<Image>, file: File, temp: Option<Image>, holder: Option<nat>, calls: map<nat, Phase>,
    nextCall: nat, history: seq<Event>)

  datatype Step =
    | Submit(req: Request)
    | CheckAge(call: nat)
    | Acquire(call: nat)
    | TakeDecision(call: nat)
    | WriteTemp(call: nat)
    | ReplaceFile(call: nat)
    | Release(call: nat)
    | FailWriting(call: nat)
    | Return(call: nat)
    | Crash
    | Restart

  predicate Enabled(s: State, step: Step) {
    match step
    case Submit(req) => s.memory.Some?
    case CheckAge(c) => c in s.calls && s.calls[c].Called?
    case Acquire(c) => c in s.calls && s.calls[c].Waiting? && s.holder.None?
    case TakeDecision(c) => c in s.calls && s.calls[c].Deciding? && s.memory.Some?
    case WriteTemp(c) => c in s.calls && s.calls[c].Updated? && s.memory.Some?
    case ReplaceFile(c) => c in s.calls && s.calls[c].Written? && s.temp.Some?
    case Release(c) => c in s.calls && s.calls[c].Replaced?
    case FailWriting(c) => c in s.calls && (s.calls[c].Updated? || s.calls[c].Written?)
    case Return(c) => c in s.calls && s.calls[c].Returning?
    case Crash => s.memory.Some?
    case Restart => s.memory.None?
  }

  function Apply(cfg: Config, s: State, step: Step): State
    requires Enabled(s, step)
  {
    match step
    case Submit(req) =>
      s.(calls := s.calls[s.nextCall := Called(req)], nextCall := s.nextCall + 1,
         history := s.history + [CallMade(s.nextCall)])
    case CheckAge(c) =>
      var req := s.calls[c].req;
      var stale := IsStale(cfg.ttl, req.issuedAt, req.now);
      s.(calls := s.calls[c := if stale then Returning(Decision(req.messageId, 0, Stale)) else Waiting(req)])
    case Acquire(c) =>
      s.(calls := s.calls[c := Deciding(s.calls[c].req)], holder := Some(c))
    case TakeDecision(c) =>
      var req, image := s.calls[c].req, s.memory.value;
      var d := Decide(image, cfg.maxGap, req.messageId);
      if d.status.Valid? then
        s.(memory := Some(Accept(image, req.messageId, req.issuedAt)),
           calls := s.calls[c := Updated(req, d.sequenceNumber)])
      else s.(calls := s.calls[c := Returning(d)], holder := None)
    case WriteTemp(c) =>
      s.(temp := s.memory, calls := s.calls[c := Written(s.calls[c].req, s.calls[c].number)])
    case ReplaceFile(c) =>
      s.(file := Stored(s.temp.value), calls := s.calls[c := Replaced(s.calls[c].req, s.calls[c].number)])
    case Release(c) =>
      s.(calls := s.calls[c := Returning(Decision(s.calls[c].req.messageId, s.calls[c].number, Valid))],
         holder := None)
    case FailWriting(c) =>
      s.(calls := s.calls - {c}, holder := None) // the caller gets an exception; memory keeps the entry
    case Return(c) =>
      s.(calls := s.calls - {c}, history := s.history + [CallReturned(c, s.calls[c].decision)])
    case Crash =>
      s.(memory := None, holder := None, calls := map[])
    case Restart =>
      s.(memory := Some(Load(s.file)))
  }

  /** A process that has just started on a readable or missing file. */
  ghost predicate Init(s: State) {
    && Consistent(Load(s.file)) && s.memory == Some(Load(s.file))
    && s.holder == None && s.calls == map[] && s.nextCall == 0 && s.history == []
  }

  ghost predicate IsRun(cfg: Config, states: seq<State>, steps: seq<Step>) {
    && |states| == |steps| + 1 && Init(states[0])
    && forall i :: 0 <= i < |steps| ==> Enabled(states[i], steps[i]) && states[i + 1] == Apply(cfg, states[i], steps[i])
  }

  // ---- The invariant ----

  predicate HoldsLock(p: Phase) {
    p.Deciding? || p.Updated? || p.Written? || p.Replaced?
  }

  /** The id and number a call will return as VALID, once it has been given one. */
  function Claim(p: Phase): Option<(string, nat)> {
    match p
    case Updated(req, n) => Some((req.messageId, n))
    case Written(req, n) => Some((req.messageId, n))
    case Replaced(req, n) => Some((req.messageId, n))
    case Returning(d) => if d.status.Valid? then Some((d.messageId, d.sequenceNumber)) else None
    case _ => None
  }

  function ClaimOf(s: State, c: nat): Option<(string, nat)> {
    if c in s.calls then Claim(s.calls[c]) else None
  }

  predicate Accepted(e: Event) {
    e.CallReturned? && e.decision.status.Valid?
  }

  predicate Holds(image: Image, id: string, n: nat) {
    id in image.entries && image.entries[id].sequenceNumber == n
  }

  ghost predicate SubImage(a: Image, b: Image) {
    a.counter <= b.counter && forall id :: id in a.entries ==> id in b.entries && a.entries[id] == b.entries[id]
  }

  ghost predicate StoreInv(s: State) {
    && Consistent(Load(s.file))
    && (s.memory.Some? ==> Consistent(s.memory.value) && SubImage(Load(s.file), s.memory.value))
    && (s.memory.None? ==> s.calls == map[] && s.holder.None?)
  }

  ghost predicate LockInv(s: State) {
    && (forall c :: c in s.calls ==> c < s.nextCall && (HoldsLock(s.calls[c]) <==> s.holder == Some(c)))
    && (s.holder.Some? ==> s.holder.value in s.calls)
    && forall e :: e in s.history ==> e.call < s.nextCall
  }

  ghost predicate CallInv(s: State, c: nat)
    requires c in s.calls && s.memory.Some?
  {
    var p := s.calls[c];
    && (Claim(p).Some? ==> Holds(s.memory.value, Claim(p).value.0, Claim(p).value.1))
    && (p.Written? ==> s.temp == s.memory)
    && (p.Replaced? ==> Load(s.file) == s.memory.value)
    && (p.Returning? && Claim(p).Some? ==> Holds(Load(s.file), Claim(p).value.0, Claim(p).value.1))
  }

  ghost predicate ClaimInv(s: State) {
    && (s.memory.Some? ==> forall c :: c in s.calls ==> CallInv(s, c))
    && (forall e :: e in s.history && Accepted(e) ==>
          Holds(Load(s.file), e.decision.messageId, e.decision.sequenceNumber))
  }

  /** No two calls are given the same id. */
  ghost predicate UniqueInv(s: State) {
    && (forall c, c' :: c != c' && ClaimOf(s, c).Some? && ClaimOf(s, c').Some?
          ==> ClaimOf(s, c).value.0 != ClaimOf(s, c').value.0)
    && (forall c, e :: ClaimOf(s, c).Some? && e in s.history && Accepted(e)
          ==> ClaimOf(s, c).value.0 != e.decision.messageId)
    && NoIdValidTwice(s.history)
  }

  ghost predicate NoIdValidTwice(h: seq<Event>) {
    forall i, j :: 0 <= i < j < |h| && Accepted(h[i]) && Accepted(h[j])
      ==> h[i].decision.messageId != h[j].decision.messageId
  }

  /** A call made after another one returned VALID has, or is going to get, a greater number. */
  ghost predicate OrderInv(s: State) {
    && (forall c, i, j ::
          0 <= i < j < |s.history| && Accepted(s.history[i]) && s.history[j] == CallMade(c) && ClaimOf(s, c).Some?
          ==> s.history[i].decision.sequenceNumber < ClaimOf(s, c).value.1)
    && NumbersFollowCalls(s.history)
  }

  ghost predicate NumbersFollowCalls(h: seq<Event>) {
    forall i, j, k :: 0 <= i < j < k < |h| && Accepted(h[i]) && Accepted(h[k]) && h[j] == CallMade(h[k].call)
      ==> h[i].decision.sequenceNumber < h[k].decision.sequenceNumber
  }

  ghost predicate Inv(s: State) {
    StoreInv(s) && LockInv(s) && ClaimInv(s) && UniqueInv(s) && OrderInv(s)
  }

  lemma StoreStep(cfg: Config, s: State, step: Step)
    requires Inv(s) && Enabled(s, step)
    ensures StoreInv(Apply(cfg, s, step))
  {
    if step.TakeDecision? {
      var req := s.calls[step.call].req;
      if Decide(s.memory.value, cfg.maxGap, req.messageId).status.Valid? {
        AcceptKeepsConsistent(s.memory.value, req.messageId, req.issuedAt);
      }
    } else if step.ReplaceFile? {
      assert CallInv(s, step.call);
    }
  }

  lemma LockStep(cfg: Config, s: State, step: Step)
    requires StoreInv(s) && LockInv(s) && Enabled(s, step)
    ensures LockInv(Apply(cfg, s, step))
  {
    hide Consistent, SubImage;
  }

  lemma {:induction false} CallStep(cfg: Config, s: State, step: Step, c: nat)
    requires StoreInv(s) && LockInv(s) && ClaimInv(s) && Enabled(s, step)
    requires c in Apply(cfg, s, step).calls && Apply(cfg, s, step).memory.Some?
    ensures CallInv(Apply(cfg, s, step), c)
  {
    hide Consistent;
    assert c in s.calls ==> CallInv(s, c);
    if step.ReplaceFile? {
      assert CallInv(s, step.call);
    }
  }

  lemma {:induction false} ClaimStep(cfg: Config, s: State, step: Step)
    requires StoreInv(s) && LockInv(s) && ClaimInv(s) && Enabled(s, step)
    ensures ClaimInv(Apply(cfg, s, step))
  {
    var t := Apply(cfg, s, step);
    forall c | t.memory.Some? && c in t.calls
      ensures CallInv(t, c)
    {
      CallStep(cfg, s, step, c);
    }
    if step.ReplaceFile? || step.Return? {
      assert CallInv(s, step.call);
    }
    hide CallInv, Consistent, LockInv;
  }

  /** Only taking a decision creates a claim. */
  lemma ClaimsShrink(cfg: Config, s: State, step: Step)
    requires Inv(s) && Enabled(s, step) && !step.TakeDecision?
    ensures forall c :: var t := Apply(cfg, s, step); ClaimOf(t, c).Some? ==> ClaimOf(t, c) == ClaimOf(s, c)
  {
  }

  lemma NewClaim(cfg: Config, s: State, c: nat)
    requires Inv(s) && Enabled(s, TakeDecision(c))
    ensures var t := Apply(cfg, s, TakeDecision(c));
      && t.history == s.history
      && (forall c' :: c' != c ==> ClaimOf(t, c') == ClaimOf(s, c'))
      && (ClaimOf(t, c).Some? ==>
            && ClaimOf(t, c).value.0 !in s.memory.value.entries
            && ClaimOf(t, c).value.1 > s.memory.value.counter)
  {
  }

  /** Everything claimed or returned is in memory, and returned numbers do not exceed the counter. */
  lemma ClaimsInMemory(s: State)
    requires Inv(s) && s.memory.Some?
    ensures forall c :: ClaimOf(s, c).Some? ==> ClaimOf(s, c).value.0 in s.memory.value.entries
    ensures forall e :: e in s.history && Accepted(e) ==>
      e.decision.messageId in s.memory.value.entries && e.decision.sequenceNumber <= s.memory.value.counter
  {
    forall c | ClaimOf(s, c).Some?
      ensures ClaimOf(s, c).value.0 in s.memory.value.entries
    {
      assert CallInv(s, c);
    }
  }

  ghost predicate OnlyShrinks(s: State, t: State) {
    forall c :: ClaimOf(t, c).Some? ==> ClaimOf(t, c) == ClaimOf(s, c)
  }

  /** The history gained at most one event, and that one accepts nothing. */
  ghost predicate NothingReturned(s: State, t: State) {
    t.history == s.history || exists c :: t.history == s.history + [CallMade(c)] && ClaimOf(t, c).None?
  }

  ghost predicate ReturnedBy(s: State, t: State, c: nat) {
    && s.history <= t.history
    && |t.history| == |s.history| + 1 && t.history[|s.history|].CallReturned? && t.history[|s.history|].call == c
    && ClaimOf(t, c).None?
    && (Accepted(t.history[|s.history|]) ==>
          var d := t.history[|s.history|].decision;
          ClaimOf(s, c) == Some((d.messageId, d.sequenceNumber)))
  }

  /** Call `c` gets a claim that is new to everything claimed or returned so far. */
  ghost predicate ClaimedBy(s: State, t: State, c: nat) {
    && t.history == s.history && (forall c' :: c' != c ==> ClaimOf(t, c') == ClaimOf(s, c'))
    && (ClaimOf(t, c).Some? ==>
          && (forall c' :: ClaimOf(s, c').Some? ==> ClaimOf(s, c').value.0 != ClaimOf(t, c).value.0)
          && (forall e :: e in s.history && Accepted(e) ==>
                && e.decision.messageId != ClaimOf(t, c).value.0
                && e.decision.sequenceNumber < ClaimOf(t, c).value.1))
  }

  /** How a step changes claims and history. */
  lemma {:induction false} StepKind(cfg: Config, s: State, step: Step)
    requires Inv(s) && Enabled(s, step)
    ensures var t := Apply(cfg, s, step);
      if step.TakeDecision? then ClaimedBy(s, t, step.call)
      else OnlyShrinks(s, t) && if step.Return? then ReturnedBy(s, t, step.call) else NothingReturned(s, t)
  {
    var t := Apply(cfg, s, step);
    if step.TakeDecision? {
      NewClaim(cfg, s, step.call);
      ClaimsInMemory(s);
    } else {
      ClaimsShrink(cfg, s, step);
      if step.Submit? {
        assert t.history == s.history + [CallMade(s.nextCall)] && ClaimOf(t, s.nextCall).None?;
      }
    }
  }

  lemma UniqueStep(s: State, t: State, c: nat)
    requires UniqueInv(s)
    requires ClaimedBy(s, t, c) || (OnlyShrinks(s, t) && (ReturnedBy(s, t, c) || NothingReturned(s, t)))
    ensures UniqueInv(t)
  {
    hide ClaimOf;
    if ClaimedBy(s, t, c) {
    } else if ReturnedBy(s, t, c) {
      assert t.history == s.history + [t.history[|s.history|]];
    } else {
      assert forall e :: e in t.history && Accepted(e) ==> e in s.history;
    }
  }

  lemma OrderStep(s: State, t: State, c: nat)
    requires OrderInv(s)
    requires ClaimedBy(s, t, c) || (OnlyShrinks(s, t) && (ReturnedBy(s, t, c) || NothingReturned(s, t)))
    ensures OrderInv(t)
  {
    hide ClaimOf;
  }

  lemma InvStep(cfg: Config, s: State, step: Step)
    requires Inv(s) && Enabled(s, step)
    ensures Inv(Apply(cfg, s, step))
  {
    StoreStep(cfg, s, step);
    LockStep(cfg, s, step);
    ClaimStep(cfg, s, step);
    StepKind(cfg, s, step);
    var t, c := Apply(cfg, s, step), if step.TakeDecision? || step.Return? then step.call else 0;
    hide Apply, Enabled;
    UniqueStep(s, t, c);
    OrderStep(s, t, c);
  }

  lemma {:induction false} RunKeepsInv(cfg: Config, states: seq<State>, steps: seq<Step>, k: nat)
    requires IsRun(cfg, states, steps) && k < |states|
    ensures Inv(states[k])
  {
    if k > 0 {
      RunKeepsInv(cfg, states, steps, k - 1);
      InvStep(cfg, states[k - 1], steps[k - 1]);
    }
  }

  // ---- Whole runs ----

  /** Between any two acceptances, the second call was made after the first one returned. */
  ghost predicate OneAtATime(h: seq<Event>) {
    forall i, k :: 0 <= i < k < |h| && Accepted(h[i]) && Accepted(h[k]) ==>
      exists j :: i < j < k && h[j] == CallMade(h[k].call)
  }

  ghost predicate NumbersIncrease(h: seq<Event>) {
    forall i, k :: 0 <= i < k < |h| && Accepted(h[i]) && Accepted(h[k]) ==>
      h[i].decision.sequenceNumber < h[k].decision.sequenceNumber
  }

  /** Whatever is interleaved, fails or crashes: no id is answered VALID twice, a call made after a VALID answer
      gets a greater number (so numbers increase when calls are made one at a time), and every id answered
      VALID is in the backing file and in memory with its number. */
  lemma RunsAreSafe(cfg: Config, states: seq<State>, steps: seq<Step>, k: nat)
    requires IsRun(cfg, states, steps) && k < |states|
    ensures NoIdValidTwice(states[k].history)
    ensures NumbersFollowCalls(states[k].history)
    ensures OneAtATime(states[k].history) ==> NumbersIncrease(states[k].history)
    ensures forall e :: e in states[k].history && Accepted(e) ==>
      && Holds(Load(states[k].file), e.decision.messageId, e.decision.sequenceNumber)
      && (states[k].memory.Some? ==>
            Holds(states[k].memory.value, e.decision.messageId, e.decision.sequenceNumber))
    ensures Consistent(Load(states[k].file))
    ensures states[k].memory.Some? ==> Consistent(states[k].memory.value)
  {
    RunKeepsInv(cfg, states, steps, k);
  }

  // ---- Answers and ages ----

  /** The request of each call made so far. */
  type Requests = map<nat, Request>

  function RequestsAfter(s: State, step: Step, requests: Requests): Requests {
    if step.Submit? then requests[s.nextCall := step.req] else requests
  }

  function RequestsOf(states: seq<State>, steps: seq<Step>, k: nat): Requests
    requires k <= |steps| < |states|
  {
    if k == 0 then map[] else RequestsAfter(states[k - 1], steps[k - 1], RequestsOf(states, steps, k - 1))
  }

  /** STALE, with number 0, is the answer to exactly the requests older than the time to live. */
  ghost predicate AnswersInTime(ttl: real, req: Request, d: Decision) {
    && d.messageId == req.messageId && (d.status.Stale? <==> req.now - req.issuedAt > ttl)
    && (d.status.Stale? ==> d.sequenceNumber == 0)
  }

  ghost predicate PhaseInTime(ttl: real, req: Request, p: Phase) {
    match p
    case Called(r) => r == req
    case Returning(d) => AnswersInTime(ttl, req, d)
    case _ => p.req == req && req.now - req.issuedAt <= ttl
  }

  ghost predicate InTime(ttl: real, s: State, requests: Requests) {
    && (forall c :: c in s.calls ==> c in requests && PhaseInTime(ttl, requests[c], s.calls[c]))
    && (forall e :: e in s.history && e.CallReturned? ==>
          e.call in requests && AnswersInTime(ttl, requests[e.call], e.decision))
  }

  lemma InTimeStep(cfg: Config, s: State, step: Step, requests: Requests)
    requires LockInv(s) && InTime(cfg.ttl, s, requests) && Enabled(s, step)
    ensures InTime(cfg.ttl, Apply(cfg, s, step), RequestsAfter(s, step, requests))
  {
    hide Consistent;
  }

  /** In every run, crashes and failing writes included: each answer is one to the request of its call, and it is
      STALE exactly when that request was older than the time to live; so VALID is never the answer to such a one. */
  lemma {:induction false} AnswersAreInTime(cfg: Config, states: seq<State>, steps: seq<Step>, k: nat)
    requires IsRun(cfg, states, steps) && k < |states|
    ensures InTime(cfg.ttl, states[k], RequestsOf(states, steps, k))
    ensures forall e :: e in states[k].history && e.CallReturned? ==>
      && e.call in RequestsOf(states, steps, k)
      && var req := RequestsOf(states, steps, k)[e.call];
         && e.decision.messageId == req.messageId
         && (e.decision.status.Stale? ==> req.now - req.issuedAt > cfg.ttl)
         && (!e.decision.status.Stale? ==> req.now - req.issuedAt <= cfg.ttl)
  {
    if k > 0 {
      AnswersAreInTime(cfg, states, steps, k - 1);
      RunKeepsInv(cfg, states, steps, k - 1);
      InTimeStep(cfg, states[k - 1], steps[k - 1], RequestsOf(states, steps, k - 1));
    }
  }

  /** After a crash the restarted process has an authority of its own, with an empty lineage. */
  predicate Stops(step: Step) {
    step.Crash? || step.Restart?
  }

  predicate Disturbs(step: Step) {
    Stops(step) || step.FailWriting?
  }

  ghost predicate ClaimedOrReturned(s: State, id: string) {
    || (exists c :: ClaimOf(s, c).Some? && ClaimOf(s, c).value.0 == id)
    || (exists e :: e in s.history && Accepted(e) && e.decision.messageId == id)
  }

  /** Ids with the numbers they were given by calls that then failed to write. */
  type Losses = map<string, nat>

  function LostBy(s: State, step: Step, lost: Losses): Losses {
    if step.FailWriting? && ClaimOf(s, step.call).Some? then
      lost[ClaimOf(s, step.call).value.0 := ClaimOf(s, step.call).value.1]
    else lost
  }

  function Lost(states: seq<State>, steps: seq<Step>, k: nat): Losses
    requires k <= |steps| < |states|
  {
    if k == 0 then map[] else LostBy(states[k - 1], steps[k - 1], Lost(states, steps, k - 1))
  }

  /** Relative to the image at the start: every later entry belongs to a call, or was lost by one, with a later
      number; nothing lost is claimed or returned. */
  ghost predicate SinceStart(s: State, start: Image, lost: Losses) {
    && s.memory.Some? && SubImage(start, s.memory.value)
    && (forall id :: id in s.memory.value.entries && id !in start.entries ==> ClaimedOrReturned(s, id) || id in lost)
    && (forall c :: ClaimOf(s, c).Some? ==> ClaimOf(s, c).value.1 > start.counter)
    && (forall e :: e in s.history && Accepted(e) ==> e.decision.sequenceNumber > start.counter)
    && forall id :: id in lost ==>
         Holds(s.memory.value, id, lost[id]) && lost[id] > start.counter && !ClaimedOrReturned(s, id)
  }

  /** No claim gets lost without a disturbance: it stays with its call until the call returns. */
  ghost predicate ClaimsKept(s: State, t: State) {
    forall c :: ClaimOf(s, c).Some? ==>
      || ClaimOf(t, c) == ClaimOf(s, c)
      || exists e :: e in t.history && Accepted(e) && e.decision.messageId == ClaimOf(s, c).value.0
  }

  ghost predicate MemoryGrows(s: State, t: State, c: nat)
    requires s.memory.Some?
  {
    && t.memory.Some? && SubImage(s.memory.value, t.memory.value)
    && forall id :: id in t.memory.value.entries && id !in s.memory.value.entries ==>
         ClaimOf(t, c).Some? && ClaimOf(t, c).value.0 == id
  }

  lemma QuietStepKeepsClaims(cfg: Config, s: State, step: Step)
    requires LockInv(s) && Enabled(s, step) && !Disturbs(step)
    ensures ClaimsKept(s, Apply(cfg, s, step))
    ensures s.history <= Apply(cfg, s, step).history
  {
    var t := Apply(cfg, s, step);
    forall c | ClaimOf(s, c).Some?
      ensures || ClaimOf(t, c) == ClaimOf(s, c)
              || exists e :: e in t.history && Accepted(e) && e.decision.messageId == ClaimOf(s, c).value.0
    {
      if step.Return? && c == step.call {
        assert t.history[|s.history|] in t.history;
      }
    }
  }

  lemma {:induction false} QuietStep(cfg: Config, s: State, step: Step)
    requires Inv(s) && s.memory.Some? && Enabled(s, step) && !Disturbs(step)
    ensures ClaimsKept(s, Apply(cfg, s, step))
    ensures MemoryGrows(s, Apply(cfg, s, step), if step.TakeDecision? then step.call else 0)
    ensures s.history <= Apply(cfg, s, step).history
    ensures step.TakeDecision? && ClaimOf(Apply(cfg, s, step), step.call).Some? ==>
      ClaimOf(Apply(cfg, s, step), step.call).value.1 > s.memory.value.counter
  {
    QuietStepKeepsClaims(cfg, s, step);
    if step.TakeDecision? {
      NewClaim(cfg, s, step.call);
    }
    hide StoreInv, LockInv, ClaimInv, UniqueInv, OrderInv, ClaimsKept;
  }

  lemma {:induction false} SinceStartStep(cfg: Config, s: State, step: Step, start: Image, lost: Losses)
    requires Inv(s) && Enabled(s, step) && SinceStart(s, start, lost) && !Disturbs(step)
    ensures SinceStart(Apply(cfg, s, step), start, lost)
  {
    var t, c := Apply(cfg, s, step), if step.TakeDecision? then step.call else 0;
    StepKind(cfg, s, step);
    QuietStep(cfg, s, step);
    hide Apply, Inv, ClaimOf;
    forall id | id in t.memory.value.entries && id !in start.entries
      ensures ClaimedOrReturned(t, id) || id in lost
    {
      if id in s.memory.value.entries && id !in lost {
        assert ClaimedOrReturned(s, id);
        StillClaimedOrReturned(s, t, id);
      }
    }
    forall id | id in lost
      ensures Holds(t.memory.value, id, lost[id]) && !ClaimedOrReturned(t, id)
    {
      StillUnclaimed(cfg, s, step, id);
    }
    hide ClaimedOrReturned, Enabled;
  }

  /** Once given to a call, an id is never given to another one. */
  lemma StillUnclaimed(cfg: Config, s: State, step: Step, id: string)
    requires Inv(s) && Enabled(s, step) && !Disturbs(step) && s.memory.Some?
    requires id in s.memory.value.entries && !ClaimedOrReturned(s, id)
    ensures !ClaimedOrReturned(Apply(cfg, s, step), id)
  {
    StepKind(cfg, s, step);
    if step.TakeDecision? {
      NewClaim(cfg, s, step.call);
    }
    hide Apply, Inv, ClaimOf;
  }

  /** A failing write takes one claim away and changes neither memory nor history. */
  lemma FailedClaim(cfg: Config, s: State, c: nat)
    requires Inv(s) && s.memory.Some? && Enabled(s, FailWriting(c))
    ensures var t := Apply(cfg, s, FailWriting(c));
      && ClaimOf(t, c).None? && (forall other :: other != c ==> ClaimOf(t, other) == ClaimOf(s, other))
      && t.history == s.history && t.memory == s.memory
      && ClaimOf(s, c).Some? && Holds(s.memory.value, ClaimOf(s, c).value.0, ClaimOf(s, c).value.1)
  {
    assert CallInv(s, c);
  }

  lemma OthersStay(s: State, t: State, c: nat, id: string)
    requires UniqueInv(s) && t.history == s.history && ClaimOf(s, c).Some? && ClaimOf(t, c).None?
    requires forall other :: other != c ==> ClaimOf(t, other) == ClaimOf(s, other)
    ensures ClaimedOrReturned(t, id) <==> ClaimedOrReturned(s, id) && id != ClaimOf(s, c).value.0
  {
    hide ClaimOf;
  }

  lemma LoseClaim(s: State, t: State, c: nat, start: Image, lost: Losses)
    requires UniqueInv(s) && SinceStart(s, start, lost) && t.history == s.history && t.memory == s.memory
    requires ClaimOf(s, c).Some? && ClaimOf(t, c).None?
    requires Holds(s.memory.value, ClaimOf(s, c).value.0, ClaimOf(s, c).value.1)
    requires forall other :: other != c ==> ClaimOf(t, other) == ClaimOf(s, other)
    ensures SinceStart(t, start, lost[ClaimOf(s, c).value.0 := ClaimOf(s, c).value.1])
  {
    forall id
      ensures ClaimedOrReturned(t, id) <==> ClaimedOrReturned(s, id) && id != ClaimOf(s, c).value.0
    {
      OthersStay(s, t, c, id);
    }
    hide ClaimOf, ClaimedOrReturned, Holds, SubImage, UniqueInv;
  }

  lemma {:induction false} FailStep(cfg: Config, s: State, c: nat, start: Image, lost: Losses)
    requires Inv(s) && Enabled(s, FailWriting(c)) && SinceStart(s, start, lost)
    ensures SinceStart(Apply(cfg, s, FailWriting(c)), start, LostBy(s, FailWriting(c), lost))
  {
    FailedClaim(cfg, s, c);
    assert LostBy(s, FailWriting(c), lost) == lost[ClaimOf(s, c).value.0 := ClaimOf(s, c).value.1];
    hide Apply, Enabled, ClaimOf;
    LoseClaim(s, Apply(cfg, s, FailWriting(c)), c, start, lost);
  }

  lemma StillClaimedOrReturned(s: State, t: State, id: string)
    requires ClaimedOrReturned(s, id) && ClaimsKept(s, t) && s.history <= t.history
    ensures ClaimedOrReturned(t, id)
  {
    hide ClaimOf;
    assert forall e :: e in s.history ==> e in t.history;
  }

  lemma LostGrows(s: State, step: Step, lost: Losses)
    requires Enabled(s, step)
    ensures if step.FailWriting? then LostBy(s, step, lost) != map[] else LostBy(s, step, lost) == lost
  {
    if step.FailWriting? {
      assert ClaimOf(s, step.call).value.0 in LostBy(s, step, lost);
    }
  }

  lemma {:induction false} RunSinceStart(cfg: Config, states: seq<State>, steps: seq<Step>, k: nat)
    requires IsRun(cfg, states, steps) && k < |states|
    requires forall i :: 0 <= i < |steps| ==> !Stops(steps[i])
    ensures SinceStart(states[k], Load(states[0].file), Lost(states, steps, k))
    ensures Lost(states, steps, k) == map[] <==> forall i :: 0 <= i < k ==> !steps[i].FailWriting?
  {
    if k > 0 {
      var s, step, start, lost := states[k - 1], steps[k - 1], Load(states[0].file), Lost(states, steps, k - 1);
      RunSinceStart(cfg, states, steps, k - 1);
      RunKeepsInv(cfg, states, steps, k - 1);
      assert Enabled(s, step) && states[k] == Apply(cfg, s, step);
      LostGrows(s, step, lost);
      hide Inv, SinceStart, Apply, Enabled, LostBy;
      if step.FailWriting? {
        FailStep(cfg, s, step.call, start, lost);
      } else {
        SinceStartStep(cfg, s, step, start, lost);
      }
    }
  }

  /** The lineage records that an authority on top of the registry has stored for the answers in `h`. */
  function LineageOf(
    fingerprint: Authority.Fingerprint, trace: Decision -> string, h: seq<Event>): seq<Authority.LineageRecord>
  {
    if h == [] then []
    else
      var e := h[|h| - 1];
      LineageOf(fingerprint, trace, h[..|h| - 1])
      + if Accepted(e) then [Authority.BuildLineageRecord(fingerprint, e.decision, trace(e.decision))] else []
  }

  lemma {:induction false} LineageMembers(
    fingerprint: Authority.Fingerprint, trace: Decision -> string, h: seq<Event>, image: Image)
    requires NoIdValidTwice(h) && Consistent(image)
    requires forall e :: e in h && Accepted(e) ==> Holds(image, e.decision.messageId, e.decision.sequenceNumber)
    ensures var records := LineageOf(fingerprint, trace, h);
      && (forall r :: r in records ==> exists e ::
            e in h && Accepted(e) && r == Authority.BuildLineageRecord(fingerprint, e.decision, trace(e.decision)))
      && (forall e :: e in h && Accepted(e) ==>
            Authority.BuildLineageRecord(fingerprint, e.decision, trace(e.decision)) in records)
      && Authority.UniqueNumbers(records)
  {
    if h != [] {
      var init, e := h[..|h| - 1], h[|h| - 1];
      assert h == init + [e];
      LineageMembers(fingerprint, trace, init, image);
      var records := LineageOf(fingerprint, trace, init);
      if Accepted(e) {
        forall i | 0 <= i < |records|
          ensures records[i].sequenceNumber != e.decision.sequenceNumber
        {
          assert records[i] in records;
          var other :| other in init && Accepted(other)
            && records[i] == Authority.BuildLineageRecord(fingerprint, other.decision, trace(other.decision));
          var j :| 0 <= j < |init| && init[j] == other;
          assert h[j].decision.messageId != h[|h| - 1].decision.messageId;
        }
      }
    }
  }

  /** The records are VALID, in order of their numbers, and each names its predecessor. */
  ghost predicate OrderedRecords(records: seq<Authority.LineageRecord>, start: nat, m: nat) {
    && (forall i :: 0 <= i < |records| ==> RecordInRange(records[i], start, m))
    && forall i, j :: 0 <= i < j < |records| ==> records[i].sequenceNumber < records[j].sequenceNumber
  }

  /** Exactly the numbers after `start` up to the counter that were not lost have a record. */
  ghost predicate RecordsAllButLost(records: seq<Authority.LineageRecord>, start: nat, counter: nat, lost: Losses) {
    && counter >= start && OrderedRecords(records, start, counter - start)
    && forall n :: Authority.HasRecord(records, n) <==> start < n <= counter && n !in lost.Values
  }

  /** In every interleaving, failing writes included, once no call is pending: an authority that started at counter
      k has in its lineage exactly the numbers up to the counter that no failing write lost, in order.  It is the
      whole of k+1..counter exactly when no write failed. */
  lemma {:induction false} LineageIsContiguous(
    cfg: Config, states: seq<State>, steps: seq<Step>, fingerprint: Authority.Fingerprint, trace: Decision -> string)
    requires IsRun(cfg, states, steps)
    requires forall i :: 0 <= i < |steps| ==> !Stops(steps[i])
    requires states[|steps|].calls == map[]
    ensures var start, last, lost := Load(states[0].file).counter, states[|steps|], Lost(states, steps, |steps|);
      var records := Authority.SortedByNumber(LineageOf(fingerprint, trace, last.history));
      && last.memory.Some? && RecordsAllButLost(records, start, last.memory.value.counter, lost)
      && (Authority.IsLineage(records, start) && |records| == last.memory.value.counter - start
          <==> forall i :: 0 <= i < |steps| ==> !steps[i].FailWriting?)
  {
    var last, image, lost := states[|steps|], Load(states[0].file), Lost(states, steps, |steps|);
    RunKeepsInv(cfg, states, steps, |steps|);
    RunSinceStart(cfg, states, steps, |steps|);
    QuiescentLineage(last, image, lost, fingerprint, trace);
    LostAreInRange(last, image, lost);
    var records := Authority.SortedByNumber(LineageOf(fingerprint, trace, last.history));
    hide Inv, SinceStart, LineageOf, Consistent, Authority.SortedByNumber, Authority.ByNumber, IsRun;
    WholeIffNothingLost(records, image.counter, last.memory.value.counter, lost);
  }

  lemma LostAreInRange(last: State, image: Image, lost: Losses)
    requires Inv(last) && SinceStart(last, image, lost)
    ensures forall id :: id in lost ==> image.counter < lost[id] <= last.memory.value.counter
  {
  }

  lemma WholeIffNothingLost(records: seq<Authority.LineageRecord>, start: nat, counter: nat, lost: Losses)
    requires RecordsAllButLost(records, start, counter, lost)
    requires forall id :: id in lost ==> start < lost[id] <= counter
    ensures Authority.IsLineage(records, start) && |records| == counter - start <==> lost == map[]
  {
    if lost == map[] {
      Authority.SortedNumbersAreContiguous(records, start, counter - start, counter - start);
    } else {
      var id :| id in lost;
      assert !Authority.HasRecord(records, lost[id]);
      WholeHasAll(records, start, lost[id]);
    }
  }

  lemma WholeHasAll(records: seq<Authority.LineageRecord>, start: nat, n: int)
    ensures Authority.IsLineage(records, start) && start < n <= start + |records| ==> Authority.HasRecord(records, n)
  {
    if Authority.IsLineage(records, start) && start < n <= start + |records| {
      assert records[n - start - 1].sequenceNumber == n;
    }
  }

  lemma QuiescentLineage(
    last: State, image: Image, lost: Losses, fingerprint: Authority.Fingerprint, trace: Decision -> string)
    requires Inv(last) && SinceStart(last, image, lost) && last.calls == map[] && Consistent(image)
    ensures last.memory.value.counter >= image.counter
    ensures var records := Authority.SortedByNumber(LineageOf(fingerprint, trace, last.history));
      RecordsAllButLost(records, image.counter, last.memory.value.counter, lost)
  {
    var stored := LineageOf(fingerprint, trace, last.history);
    assert last.memory.value.counter >= image.counter;
    var records, start, m := Authority.SortedByNumber(stored), image.counter, last.memory.value.counter - image.counter;
    StoredAreUnique(last, fingerprint, trace);
    hide LineageOf, Inv, SinceStart, Consistent, Authority.HasRecord;
    Authority.NumbersAreSorted(stored);
    Authority.SortedKeepsUnique(stored);
    forall r | r in stored
      ensures RecordInRange(r, start, m) && r.sequenceNumber !in lost.Values
    {
      StoredRecordInRange(last, image, lost, fingerprint, trace, r);
    }
    forall n | start < n <= start + m && n !in lost.Values
      ensures Authority.HasRecord(stored, n)
    {
      NumberIsReturned(last, image, lost, n, fingerprint, trace);
    }
    hide *;
    SortedHasSame(stored);
    InOrder(records, start, m, lost);
  }

  lemma StoredAreUnique(last: State, fingerprint: Authority.Fingerprint, trace: Decision -> string)
    requires Inv(last) && last.memory.Some?
    ensures Authority.UniqueNumbers(LineageOf(fingerprint, trace, last.history))
  {
    LineageMembers(fingerprint, trace, last.history, last.memory.value);
    hide *;
  }

  lemma InOrder(records: seq<Authority.LineageRecord>, start: nat, m: nat, lost: Losses)
    requires StableSort.Ascending(records, Authority.ByNumber()) && Authority.UniqueNumbers(records)
    requires forall r :: r in records ==> RecordInRange(r, start, m) && r.sequenceNumber !in lost.Values
    requires forall n :: start < n <= start + m && n !in lost.Values ==> Authority.HasRecord(records, n)
    ensures RecordsAllButLost(records, start, start + m, lost)
  {
    forall i, j | 0 <= i < j < |records|
      ensures records[i].sequenceNumber < records[j].sequenceNumber
    {
      assert !Authority.ByNumber()(records[j], records[i]);
    }
    hide StableSort.Ascending, Authority.ByNumber, Authority.UniqueNumbers;
    forall i | 0 <= i < |records|
      ensures RecordInRange(records[i], start, m) && records[i].sequenceNumber !in lost.Values
    {
      assert records[i] in records;
    }
  }

  predicate RecordInRange(r: Authority.LineageRecord, start: nat, m: nat) {
    && start < r.sequenceNumber <= start + m && r.decision.Valid?
    && r.parent == if r.sequenceNumber == 1 then None else Some((r.sequenceNumber - 1) as nat)
  }

  lemma SortedHasSame(stored: seq<Authority.LineageRecord>)
    ensures forall r :: r in Authority.SortedByNumber(stored) ==> r in stored
    ensures forall n :: Authority.HasRecord(stored, n) ==> Authority.HasRecord(Authority.SortedByNumber(stored), n)
  {
    var records := Authority.SortedByNumber(stored);
    Authority.NumbersAreSorted(stored);
    forall r | r in records
      ensures r in stored
    {
      assert r in multiset(records);
    }
    forall n | Authority.HasRecord(stored, n)
      ensures Authority.HasRecord(records, n)
    {
      var i :| 0 <= i < |stored| && stored[i].sequenceNumber == n;
      assert stored[i] in multiset(records);
      assert stored[i] in records;
    }
  }

  lemma StoredRecordInRange(
    last: State, image: Image, lost: Losses, fingerprint: Authority.Fingerprint, trace: Decision -> string,
    r: Authority.LineageRecord)
    requires Inv(last) && SinceStart(last, image, lost) && r in LineageOf(fingerprint, trace, last.history)
    ensures RecordInRange(r, image.counter, last.memory.value.counter - image.counter)
    ensures r.sequenceNumber !in lost.Values
  {
    var e := RecordSource(last, fingerprint, trace, r);
    AnswerInRange(last, image, lost, e);
    hide Inv, SinceStart, LineageOf;
  }

  lemma RecordSource(
    last: State, fingerprint: Authority.Fingerprint, trace: Decision -> string, r: Authority.LineageRecord)
    returns (e: Event)
    requires Inv(last) && last.memory.Some? && r in LineageOf(fingerprint, trace, last.history)
    ensures e in last.history && Accepted(e)
    ensures r == Authority.BuildLineageRecord(fingerprint, e.decision, trace(e.decision))
  {
    LineageMembers(fingerprint, trace, last.history, last.memory.value);
    hide *;
    e :| e in last.history && Accepted(e)
      && r == Authority.BuildLineageRecord(fingerprint, e.decision, trace(e.decision));
  }

  lemma AnswerInRange(last: State, image: Image, lost: Losses, e: Event)
    requires Inv(last) && SinceStart(last, image, lost) && e in last.history && Accepted(e)
    ensures image.counter < e.decision.sequenceNumber <= last.memory.value.counter
    ensures e.decision.sequenceNumber !in lost.Values
  {
    ClaimsInMemory(last);
    forall id | id in lost
      ensures lost[id] != e.decision.sequenceNumber
    {
      assert Holds(last.memory.value, e.decision.messageId, e.decision.sequenceNumber);
      assert id == e.decision.messageId ==> ClaimedOrReturned(last, id);
    }
  }

  lemma NumberIsReturned(
    last: State, image: Image, lost: Losses, n: nat, fingerprint: Authority.Fingerprint, trace: Decision -> string)
    requires Inv(last) && SinceStart(last, image, lost) && last.calls == map[] && Consistent(image)
    requires image.counter < n <= last.memory.value.counter && n !in lost.Values
    ensures Authority.HasRecord(LineageOf(fingerprint, trace, last.history), n)
  {
    assert HasNumber(last.memory.value, n);
    var id :| id in last.memory.value.entries && last.memory.value.entries[id].sequenceNumber == n;
    assert id !in lost;
    assert ClaimedOrReturned(last, id);
    var e :| e in last.history && Accepted(e) && e.decision.messageId == id;
    LineageMembers(fingerprint, trace, last.history, last.memory.value);
    assert Holds(Load(last.file), id, e.decision.sequenceNumber);
    assert Authority.BuildLineageRecord(fingerprint, e.decision, trace(e.decision)).sequenceNumber == n;
  }
}
