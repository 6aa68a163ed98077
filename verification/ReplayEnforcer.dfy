/** The in-memory replay cache with a time to live, and its agreement with a cache that never evicts. */
module ReplayEnforcer {
  import opened Options
  import opened StableSort

  /** When the cache reaches this size, expired entries are evicted. */
  const EVICTION_THRESHOLD: nat := 10_000

  /** How many of the oldest entries go when nothing or too little has expired. */
  const FORCED_EVICTIONS: nat := 1_000

  datatype Status = Accepted | RejectedDuplicate | RejectedStale

  datatype ReplayDecision = ReplayDecision(artifactId: string, sequenceId: nat, status: Status)

  /** One cache item; the cache lists its items in insertion order, each id once. */
  datatype Slot = Slot(artifactId: string, sequenceId: nat, issuedAt: real)

  predicate Cached(cache: seq<Slot>, id: string) {
    exists i :: 0 <= i < |cache| && cache[i].artifactId == id
  }

  function SequenceOf(cache: seq<Slot>, id: string): nat
    requires Cached(cache, id)
  {
    if cache[0].artifactId == id then cache[0].sequenceId
    else
      var i :| 0 <= i < |cache| && cache[i].artifactId == id;
      assert cache[1..][i - 1] == cache[i];
      SequenceOf(cache[1..], id)
  }

  predicate Expired(slot: Slot, ttl: real, now: real) {
    now - slot.issuedAt > ttl
  }

  /** What is left after the expired entries are gone. */
  function Live(cache: seq<Slot>, ttl: real, now: real): seq<Slot> {
    if cache == [] then []
    else (if Expired(cache[0], ttl, now) then [] else [cache[0]]) + Live(cache[1..], ttl, now)
  }

  function Older(): Before<Slot> {
    (a: Slot, b: Slot) => a.issuedAt < b.issuedAt
  }

  /** The entries that a forced eviction removes: the first ones in order of issue, ties in insertion order. */
  function Oldest(cache: seq<Slot>): seq<Slot> {
    var sorted := Sorted(cache, Older());
    if |sorted| <= FORCED_EVICTIONS then sorted else sorted[..FORCED_EVICTIONS]
  }

  function Without(cache: seq<Slot>, victims: seq<Slot>): seq<Slot> {
    if cache == [] then []
    else (if Cached(victims, cache[0].artifactId) then [] else [cache[0]]) + Without(cache[1..], victims)
  }

  /** The eviction has to drop entries that have not expired. */
  predicate Forced(cache: seq<Slot>, ttl: real, now: real) {
    |cache| >= EVICTION_THRESHOLD && |Live(cache, ttl, now)| >= EVICTION_THRESHOLD
  }

  function Evict(cache: seq<Slot>, ttl: real, now: real): seq<Slot> {
    if |cache| < EVICTION_THRESHOLD then cache
    else
      var live := Live(cache, ttl, now);
      if |live| >= EVICTION_THRESHOLD then Without(live, Oldest(live)) else live
  }

  /** A submission with its time of issue; `now` is the clock reading. */
  datatype Request = Request(artifactId: string, issuedAt: real, now: real)

  datatype State = State(counter: nat, cache: seq<Slot>)

  function Decide(s: State, ttl: real, r: Request): ReplayDecision {
    if r.now - r.issuedAt > ttl then ReplayDecision(r.artifactId, 0, RejectedStale)
    else if Cached(s.cache, r.artifactId) then
      ReplayDecision(r.artifactId, SequenceOf(s.cache, r.artifactId), RejectedDuplicate)
    else ReplayDecision(r.artifactId, s.counter + 1, Accepted)
  }

  /** The state after an acceptance, before anything is evicted. */
  function Added(s: State, r: Request): State {
    State(s.counter + 1, s.cache + [Slot(r.artifactId, s.counter + 1, r.issuedAt)])
  }

  function Next(evicts: bool, s: State, ttl: real, r: Request): State {
    if !Decide(s, ttl, r).status.Accepted? then s
    else if evicts then State(s.counter + 1, Evict(Added(s, r).cache, ttl, r.now))
    else Added(s, r)
  }

  class ReplayEnforcer {
    const ttl: real
    var counter: nat
    var cache: seq<Slot>

    function Snapshot(): State
      reads this
    {
      State(counter, cache)
    }

    constructor (ttl: real)
      ensures this.ttl == ttl && Snapshot() == State(0, [])
    {
      this.ttl := ttl;
      counter, cache := 0, [];
    }

    /** The time of issue defaults to the clock reading.  The cache stays below the threshold. */
    method Submit(artifactId: string, issuedAt: Option<real>, now: real) returns (decision: ReplayDecision)
      requires |cache| < EVICTION_THRESHOLD
      modifies this
      ensures var r := Request(artifactId, if issuedAt.Some? then issuedAt.value else now, now);
        decision == Decide(old(Snapshot()), ttl, r) && Snapshot() == Next(true, old(Snapshot()), ttl, r)
      ensures var issued := if issuedAt.Some? then issuedAt.value else now;
        && decision.artifactId == artifactId
        && (decision.status.RejectedStale? <==> now - issued > ttl)
        && (decision.status.RejectedDuplicate? <==>
              now - issued <= ttl && exists slot :: slot in old(cache) && slot.artifactId == artifactId)
        && (decision.status.RejectedStale? ==> decision.sequenceId == 0)
        && (decision.status.RejectedDuplicate? ==>
              exists slot :: slot in old(cache) && slot.artifactId == artifactId
                             && slot.sequenceId == decision.sequenceId)
        && (decision.status.Accepted? ==> decision.sequenceId == counter == old(counter) + 1)
        && (!decision.status.Accepted? ==> unchanged(this))
      ensures |cache| < EVICTION_THRESHOLD
    {
      var issued := if issuedAt.Some? then issuedAt.value else now;
      var age := now - issued;
      if age > ttl {
        return ReplayDecision(artifactId, 0, RejectedStale);
      }
      CachedSlot(cache, artifactId);
      if Cached(cache, artifactId) {
        return ReplayDecision(artifactId, SequenceOf(cache, artifactId), RejectedDuplicate);
      }
      counter := counter + 1;
      var sequenceId := counter;
      cache := cache + [Slot(artifactId, sequenceId, issued)];
      EvictIfNeeded(now);
      decision := ReplayDecision(artifactId, sequenceId, Accepted);
    }

    method EvictIfNeeded(now: real)
      requires |cache| <= EVICTION_THRESHOLD
      modifies this`cache
      ensures cache == Evict(old(cache), ttl, now) && |cache| < EVICTION_THRESHOLD
      ensures |old(cache)| < 10_000 ==> cache == old(cache)
      ensures |old(cache)| >= 10_000 ==>
        forall slot :: slot in cache ==> slot in old(cache) && now - slot.issuedAt <= ttl
      ensures |Live(old(cache), ttl, now)| < 10_000 ==>
        forall slot :: slot in old(cache) && now - slot.issuedAt <= ttl ==> slot in cache
      ensures |Live(old(cache), ttl, now)| >= 10_000 && UniqueIds(old(cache)) ==>
        |cache| == |Live(old(cache), ttl, now)| - 1_000
    {
      LiveIsSmaller(cache, ttl, now);
      if |cache| < EVICTION_THRESHOLD {
        return;
      }
      if UniqueIds(cache) {
        LiveKeepsUnique(cache, ttl, now);
        if |Live(cache, ttl, now)| >= 1_000 {
          OldestCount(Live(cache, ttl, now));
        }
      }
      forall slot
        ensures slot in Live(cache, ttl, now) <==> slot in cache && now - slot.issuedAt <= ttl
        ensures slot in Without(Live(cache, ttl, now), Oldest(Live(cache, ttl, now))) ==> slot in Live(cache, ttl, now)
      {
        LiveMembers(cache, ttl, now, slot);
        WithoutMembers(Live(cache, ttl, now), Oldest(Live(cache, ttl, now)), slot);
      }
      cache := Live(cache, ttl, now);
      if |cache| >= EVICTION_THRESHOLD {
        OldestAreRemoved(cache);
        cache := Without(cache, Oldest(cache));
      }
    }
  }

  // ---- What filtering does ----

  lemma {:induction false} CachedSlot(cache: seq<Slot>, id: string)
    ensures Cached(cache, id) <==> exists slot :: slot in cache && slot.artifactId == id
    ensures Cached(cache, id) ==>
      exists slot :: slot in cache && slot.artifactId == id && slot.sequenceId == SequenceOf(cache, id)
  {
    if Cached(cache, id) {
      if cache[0].artifactId != id {
        var i :| 0 <= i < |cache| && cache[i].artifactId == id;
        assert cache[1..][i - 1] == cache[i];
        CachedSlot(cache[1..], id);
        assert cache == [cache[0]] + cache[1..];
      } else {
        assert cache[0] in cache;
      }
    }
  }

  /** A forced eviction removes 1000 entries. */
  lemma OldestCount(cache: seq<Slot>)
    requires UniqueIds(cache) && |cache| >= 1_000
    ensures |Oldest(cache)| == 1_000 && |Without(cache, Oldest(cache))| == |cache| - 1_000
  {
    OlderIsKeyOrder();
    SortedIsSorted(cache, Older());
    var sorted, oldest := Sorted(cache, Older()), Oldest(cache);
    assert oldest == sorted[..1_000];
    SortedIsUnique(cache, sorted);
    var rest := sorted[1_000..];
    assert sorted == oldest + rest;
    hide Sorted, Older, Oldest;
    WithoutIsRest(cache, oldest, rest);
  }

  lemma SortedIsUnique(cache: seq<Slot>, sorted: seq<Slot>)
    requires UniqueIds(cache) && multiset(sorted) == multiset(cache)
    ensures UniqueIds(sorted)
  {
    forall i, j | 0 <= i < j < |sorted|
      ensures sorted[i].artifactId != sorted[j].artifactId
    {
      if sorted[i].artifactId == sorted[j].artifactId {
        TwiceIn(sorted, i, j);
        assert sorted[i] in multiset(cache) && sorted[j] in multiset(cache);
        OnceIn(cache, sorted[i]);
      }
    }
  }

  lemma TwiceIn(s: seq<Slot>, i: nat, j: nat)
    requires i < j < |s|
    ensures s[i] == s[j] ==> multiset(s)[s[i]] >= 2
  {
    assert s == s[..j] + [s[j]] + s[j + 1..];
    assert s[..j][i] == s[i];
  }

  lemma {:induction false} OnceIn(cache: seq<Slot>, slot: Slot)
    requires UniqueIds(cache)
    ensures multiset(cache)[slot] <= 1
  {
    if cache != [] {
      assert cache == [cache[0]] + cache[1..];
      OnceIn(cache[1..], slot);
      assert slot in cache[1..] ==> slot.artifactId != cache[0].artifactId;
    }
  }

  lemma WithoutIsRest(cache: seq<Slot>, victims: seq<Slot>, rest: seq<Slot>)
    requires UniqueIds(cache) && UniqueIds(victims + rest) && multiset(cache) == multiset(victims + rest)
    ensures |Without(cache, victims)| == |rest|
  {
    var left := Without(cache, victims);
    WithoutKeepsUnique(cache, victims);
    forall slot
      ensures multiset(left)[slot] == multiset(rest)[slot]
    {
      WithoutMembers(cache, victims, slot);
      OnceIn(left, slot);
      OnceIn(victims + rest, slot);
      CachedSlot(victims, slot.artifactId);
      assert slot in cache <==> slot in victims + rest by {
        assert slot in multiset(cache) <==> slot in multiset(victims + rest);
      }
      RestIsApart(victims, rest, slot);
    }
    assert multiset(left) == multiset(rest);
    assert |left| == |multiset(left)| == |multiset(rest)| == |rest|;
  }

  lemma RestIsApart(victims: seq<Slot>, rest: seq<Slot>, slot: Slot)
    requires UniqueIds(victims + rest)
    ensures slot in rest ==> !Cached(victims, slot.artifactId)
    ensures multiset(rest)[slot] == if slot in rest then 1 else 0
  {
    var all := victims + rest;
    if slot in rest {
      var j :| 0 <= j < |rest| && rest[j] == slot;
      assert all[|victims| + j] == slot;
      assert forall i :: 0 <= i < |victims| ==> all[i] == victims[i];
    }
    assert forall i :: 0 <= i < |rest| ==> rest[i] == all[|victims| + i];
    OnceIn(rest, slot);
  }

  lemma {:induction false} LiveMembers(cache: seq<Slot>, ttl: real, now: real, slot: Slot)
    ensures slot in Live(cache, ttl, now) <==> slot in cache && !Expired(slot, ttl, now)
  {
    if cache != [] {
      LiveMembers(cache[1..], ttl, now, slot);
      assert cache == [cache[0]] + cache[1..];
    }
  }

  lemma {:induction false} LiveIsSmaller(cache: seq<Slot>, ttl: real, now: real)
    ensures |Live(cache, ttl, now)| <= |cache|
  {
    if cache != [] {
      LiveIsSmaller(cache[1..], ttl, now);
    }
  }

  lemma {:induction false} WithoutMembers(cache: seq<Slot>, victims: seq<Slot>, slot: Slot)
    ensures slot in Without(cache, victims) <==> slot in cache && !Cached(victims, slot.artifactId)
  {
    if cache != [] {
      WithoutMembers(cache[1..], victims, slot);
      assert cache == [cache[0]] + cache[1..];
    }
  }

  lemma {:induction false} WithoutIsSmaller(cache: seq<Slot>, victims: seq<Slot>)
    ensures |Without(cache, victims)| <= |cache|
    ensures (exists i :: 0 <= i < |cache| && Cached(victims, cache[i].artifactId)) ==>
      |Without(cache, victims)| < |cache|
  {
    if cache != [] {
      WithoutIsSmaller(cache[1..], victims);
      assert forall i :: 0 < i < |cache| ==> cache[i] == cache[1..][i - 1];
    }
  }

  lemma {:induction false} WithoutKeepsUnique(cache: seq<Slot>, victims: seq<Slot>)
    requires UniqueIds(cache)
    ensures UniqueIds(Without(cache, victims))
  {
    if cache != [] {
      var tail := cache[1..];
      WithoutKeepsUnique(tail, victims);
      forall slot | slot in Without(tail, victims)
        ensures slot.artifactId != cache[0].artifactId
      {
        WithoutMembers(tail, victims, slot);
      }
    }
  }

  lemma OlderIsKeyOrder()
    ensures IsKeyOrder(Older())
  {
  }

  /** A forced eviction removes something, and nothing it removes is younger than anything it keeps. */
  lemma OldestAreRemoved(cache: seq<Slot>)
    requires cache != []
    ensures |Without(cache, Oldest(cache))| < |cache|
    ensures Oldest(cache) != [] && forall slot :: slot in Oldest(cache) ==> slot in cache
    ensures forall gone, kept :: gone in Oldest(cache) && kept in Without(cache, Oldest(cache)) ==>
      gone.issuedAt <= kept.issuedAt
  {
    OlderIsKeyOrder();
    SortedIsSorted(cache, Older());
    var sorted, oldest := Sorted(cache, Older()), Oldest(cache);
    forall slot | slot in oldest
      ensures slot in cache
    {
      assert slot in multiset(sorted);
    }
    assert oldest[0] in cache && Cached(oldest, oldest[0].artifactId);
    WithoutIsSmaller(cache, oldest);
    forall gone, kept | gone in oldest && kept in Without(cache, oldest)
      ensures gone.issuedAt <= kept.issuedAt
    {
      WithoutMembers(cache, oldest, kept);
      assert kept in multiset(sorted);
      var i :| 0 <= i < |oldest| && oldest[i] == gone;
      var j :| 0 <= j < |sorted| && sorted[j] == kept;
      assert j < |oldest| ==> oldest[j] == kept && Cached(oldest, kept.artifactId);
      assert !Older()(sorted[j], sorted[i]);
    }
  }

  // ---- Agreement with a cache that never evicts ----

  function After(evicts: bool, ttl: real, requests: seq<Request>): State {
    if requests == [] then State(0, [])
    else Next(evicts, After(evicts, ttl, requests[..|requests| - 1]), ttl, requests[|requests| - 1])
  }

  predicate ForcedBy(s: State, ttl: real, r: Request) {
    Decide(s, ttl, r).status.Accepted? && Forced(Added(s, r).cache, ttl, r.now)
  }

  ghost predicate NeverForced(ttl: real, requests: seq<Request>) {
    forall k :: 0 <= k < |requests| ==> !ForcedBy(After(true, ttl, requests[..k]), ttl, requests[k])
  }

  ghost predicate UniqueIds(cache: seq<Slot>) {
    forall i, j :: 0 <= i < j < |cache| ==> cache[i].artifactId != cache[j].artifactId
  }

  predicate Fresh(ttl: real, r: Request) {
    r.now - r.issuedAt <= ttl
  }

  predicate ExpiredBy(ttl: real, r: Request, now: real) {
    now - r.issuedAt > ttl
  }

  /** The first request for its artifact that is not stale. */
  ghost predicate FirstFresh(ttl: real, requests: seq<Request>, i: nat)
    requires i < |requests|
  {
    Fresh(ttl, requests[i])
    && forall h :: 0 <= h < i && requests[h].artifactId == requests[i].artifactId ==> !Fresh(ttl, requests[h])
  }

  ghost predicate Repeats(ttl: real, requests: seq<Request>, i: nat, j: nat)
    requires i < j < |requests|
  {
    FirstFresh(ttl, requests, i) && Fresh(ttl, requests[j]) && requests[i].artifactId == requests[j].artifactId
  }

  /** No artifact comes back fresh once a clock reading has shown its first fresh request to be expired.  So it is
      when the clock never goes back and artifacts keep their time of issue. */
  ghost predicate NoRevival(ttl: real, requests: seq<Request>) {
    forall i, j, m :: 0 <= i < m <= j < |requests| && Repeats(ttl, requests, i, j) ==>
      !ExpiredBy(ttl, requests[i], requests[m].now)
  }

  /** The clock readings come to the lock in order. */
  ghost predicate Clock(requests: seq<Request>) {
    forall i, j :: 0 <= i < j < |requests| ==> requests[i].now <= requests[j].now
  }

  ghost predicate SameIssueTimes(requests: seq<Request>) {
    forall i, j :: 0 <= i < j < |requests| && requests[i].artifactId == requests[j].artifactId ==>
      requests[i].issuedAt == requests[j].issuedAt
  }

  lemma SameIssueTimesReviveNothing(ttl: real, requests: seq<Request>)
    requires Clock(requests) && SameIssueTimes(requests)
    ensures NoRevival(ttl, requests)
  {
  }

  ghost predicate SlotOf(slot: Slot, ttl: real, requests: seq<Request>, i: nat)
    requires i < |requests|
  {
    FirstFresh(ttl, requests, i) && requests[i].artifactId == slot.artifactId && requests[i].issuedAt == slot.issuedAt
  }

  ghost predicate FromFirst(slot: Slot, ttl: real, requests: seq<Request>) {
    exists i :: 0 <= i < |requests| && SlotOf(slot, ttl, requests, i)
  }

  /** Some later clock reading has shown the slot to be expired. */
  ghost predicate SeenExpired(slot: Slot, ttl: real, requests: seq<Request>) {
    exists i, m :: 0 <= i < m < |requests| && SlotOf(slot, ttl, requests, i) && Expired(slot, ttl, requests[m].now)
  }

  /** How the evicting cache `e` and the other one `u` relate: `e` lacks nothing but entries that have expired. */
  ghost predicate Agree(ttl: real, e: State, u: State, requests: seq<Request>) {
    && e.counter == u.counter && UniqueIds(e.cache) && UniqueIds(u.cache)
    && (forall slot :: slot in e.cache ==> slot in u.cache)
    && (forall slot :: slot in u.cache ==> FromFirst(slot, ttl, requests))
    && (forall slot :: slot in u.cache && slot !in e.cache ==> SeenExpired(slot, ttl, requests))
    && (forall h :: 0 <= h < |requests| && Fresh(ttl, requests[h]) ==> Cached(u.cache, requests[h].artifactId))
  }

  lemma {:induction false} SequenceOfSlot(cache: seq<Slot>, slot: Slot)
    requires UniqueIds(cache) && slot in cache
    ensures Cached(cache, slot.artifactId) && SequenceOf(cache, slot.artifactId) == slot.sequenceId
  {
    var i :| 0 <= i < |cache| && cache[i] == slot;
    if i > 0 {
      assert cache[1..][i - 1] == slot;
      SequenceOfSlot(cache[1..], slot);
    }
  }

  lemma MoreRequests(slot: Slot, ttl: real, requests: seq<Request>, r: Request)
    ensures FromFirst(slot, ttl, requests) ==> FromFirst(slot, ttl, requests + [r])
    ensures SeenExpired(slot, ttl, requests) ==> SeenExpired(slot, ttl, requests + [r])
    ensures FromFirst(slot, ttl, requests) && Expired(slot, ttl, r.now) ==> SeenExpired(slot, ttl, requests + [r])
  {
    var all, n := requests + [r], |requests|;
    assert all[n] == r;
    forall i | 0 <= i < n && SlotOf(slot, ttl, requests, i)
      ensures all[i] == requests[i] && SlotOf(slot, ttl, all, i)
    {
    }
    hide SlotOf;
    assert forall i :: 0 <= i < n ==> all[i] == requests[i];
  }

  /** Had the slot been seen to expire, no fresh request for its artifact could follow. */
  lemma NotSeenExpired(slot: Slot, ttl: real, requests: seq<Request>, r: Request)
    requires NoRevival(ttl, requests + [r]) && Fresh(ttl, r) && r.artifactId == slot.artifactId
    ensures !SeenExpired(slot, ttl, requests)
  {
    var all, n := requests + [r], |requests|;
    forall i, m | 0 <= i < m < n && SlotOf(slot, ttl, requests, i)
      ensures !Expired(slot, ttl, requests[m].now)
    {
      assert all[i] == requests[i] && all[m] == requests[m] && all[n] == r;
      assert FirstFresh(ttl, all, i);
      assert Repeats(ttl, all, i, n);
    }
  }

  lemma SameDecision(ttl: real, e: State, u: State, requests: seq<Request>, r: Request)
    requires Agree(ttl, e, u, requests) && NoRevival(ttl, requests + [r])
    ensures Decide(e, ttl, r) == Decide(u, ttl, r)
  {
    forall i | 0 <= i < |e.cache|
      ensures e.cache[i] in u.cache
    {
    }
    if Fresh(ttl, r) && Cached(u.cache, r.artifactId) {
      var i :| 0 <= i < |u.cache| && u.cache[i].artifactId == r.artifactId;
      var slot := u.cache[i];
      NotSeenExpired(slot, ttl, requests, r);
      assert slot in e.cache;
      SequenceOfSlot(e.cache, slot);
      SequenceOfSlot(u.cache, slot);
    }
  }

  lemma {:induction false} LiveKeepsUnique(cache: seq<Slot>, ttl: real, now: real)
    requires UniqueIds(cache)
    ensures UniqueIds(Live(cache, ttl, now))
  {
    if cache != [] {
      var tail := cache[1..];
      LiveKeepsUnique(tail, ttl, now);
      forall slot | slot in Live(tail, ttl, now)
        ensures slot.artifactId != cache[0].artifactId
      {
        LiveMembers(tail, ttl, now, slot);
      }
    }
  }

  lemma RejectedAgree(ttl: real, e: State, u: State, requests: seq<Request>, r: Request)
    requires Agree(ttl, e, u, requests) && (Fresh(ttl, r) ==> Cached(u.cache, r.artifactId))
    ensures Agree(ttl, e, u, requests + [r])
  {
    var all := requests + [r];
    forall slot | slot in u.cache
      ensures FromFirst(slot, ttl, all) && (slot !in e.cache ==> SeenExpired(slot, ttl, all))
    {
      MoreRequests(slot, ttl, requests, r);
    }
    hide FromFirst, SeenExpired, Cached, Fresh;
  }

  lemma NewSlot(ttl: real, u: State, requests: seq<Request>, r: Request)
    requires forall h :: 0 <= h < |requests| && Fresh(ttl, requests[h]) ==> Cached(u.cache, requests[h].artifactId)
    requires Decide(u, ttl, r).status.Accepted?
    ensures FromFirst(Slot(r.artifactId, u.counter + 1, r.issuedAt), ttl, requests + [r])
  {
    var all := requests + [r];
    assert all[|requests|] == r;
    assert forall h :: 0 <= h < |requests| ==> all[h] == requests[h];
    assert SlotOf(Slot(r.artifactId, u.counter + 1, r.issuedAt), ttl, all, |requests|) by {
      hide Cached;
    }
  }

  lemma CachedAdded(u: State, r: Request, id: string)
    ensures Cached(Added(u, r).cache, id) <==> Cached(u.cache, id) || id == r.artifactId
  {
    var cache := Added(u, r).cache;
    assert cache[|u.cache|].artifactId == r.artifactId;
    assert forall i :: 0 <= i < |u.cache| ==> cache[i] == u.cache[i];
  }

  lemma AddedAgree(ttl: real, e: State, u: State, requests: seq<Request>, r: Request)
    requires Agree(ttl, e, u, requests)
    requires Decide(e, ttl, r).status.Accepted? && Decide(u, ttl, r).status.Accepted?
    ensures Agree(ttl, Added(e, r), Added(u, r), requests + [r])
  {
    var all := requests + [r];
    NewSlot(ttl, u, requests, r);
    forall slot | slot in Added(u, r).cache
      ensures FromFirst(slot, ttl, all) && (slot !in Added(e, r).cache ==> SeenExpired(slot, ttl, all))
    {
      MoreRequests(slot, ttl, requests, r);
    }
    forall h | 0 <= h < |all| && Fresh(ttl, all[h])
      ensures Cached(Added(u, r).cache, all[h].artifactId)
    {
      CachedAdded(u, r, all[h].artifactId);
    }
    hide FromFirst, SeenExpired, Fresh;
  }

  lemma DropExpired(slot: Slot, ttl: real, requests: seq<Request>, r: Request)
    requires FromFirst(slot, ttl, requests + [r]) && Fresh(ttl, r) && Expired(slot, ttl, r.now)
    ensures SeenExpired(slot, ttl, requests + [r])
  {
    var all, n := requests + [r], |requests|;
    var i :| 0 <= i < |all| && SlotOf(slot, ttl, all, i);
    assert all[n] == r;
    assert i < n;
  }

  lemma EvictAgree(ttl: real, e: State, u: State, requests: seq<Request>, r: Request)
    requires Agree(ttl, e, u, requests + [r]) && Fresh(ttl, r) && !Forced(e.cache, ttl, r.now)
    ensures Agree(ttl, e.(cache := Evict(e.cache, ttl, r.now)), u, requests + [r])
  {
    var left := Evict(e.cache, ttl, r.now);
    LiveKeepsUnique(e.cache, ttl, r.now);
    EvictMembers(e.cache, ttl, r.now);
    forall slot | slot in u.cache && slot !in left
      ensures SeenExpired(slot, ttl, requests + [r])
    {
      if slot in e.cache {
        DropExpired(slot, ttl, requests, r);
      }
    }
    hide FromFirst, SeenExpired, Fresh, Expired, Cached, Live;
  }

  /** Without force, eviction takes away nothing but expired entries. */
  lemma EvictMembers(cache: seq<Slot>, ttl: real, now: real)
    requires !Forced(cache, ttl, now)
    ensures forall slot :: slot in Evict(cache, ttl, now) ==> slot in cache
    ensures forall slot :: slot in cache && !Expired(slot, ttl, now) ==> slot in Evict(cache, ttl, now)
  {
    forall slot
      ensures slot in Live(cache, ttl, now) <==> slot in cache && !Expired(slot, ttl, now)
    {
      LiveMembers(cache, ttl, now, slot);
    }
  }

  lemma AgreeStep(ttl: real, e: State, u: State, requests: seq<Request>, r: Request)
    requires Agree(ttl, e, u, requests) && NoRevival(ttl, requests + [r]) && !ForcedBy(e, ttl, r)
    ensures Agree(ttl, Next(true, e, ttl, r), Next(false, u, ttl, r), requests + [r])
  {
    SameDecision(ttl, e, u, requests, r);
    hide Agree, NoRevival, Evict, Live, Cached;
    if Decide(e, ttl, r).status.Accepted? {
      AddedAgree(ttl, e, u, requests, r);
      EvictAgree(ttl, Added(e, r), Added(u, r), requests, r);
    } else {
      RejectedAgree(ttl, e, u, requests, r);
    }
  }

  lemma {:induction false} RunsAgree(ttl: real, requests: seq<Request>)
    requires NoRevival(ttl, requests) && NeverForced(ttl, requests)
    ensures Agree(ttl, After(true, ttl, requests), After(false, ttl, requests), requests)
  {
    if requests != [] {
      var n := |requests| - 1;
      var init, r := requests[..n], requests[n];
      assert requests == init + [r];
      NeverForcedPrefix(ttl, requests, n);
      NoRevivalPrefix(ttl, requests, n);
      hide NoRevival, Agree, Next, ForcedBy;
      RunsAgree(ttl, init);
      AgreeStep(ttl, After(true, ttl, init), After(false, ttl, init), init, r);
    }
  }

  lemma NeverForcedPrefix(ttl: real, requests: seq<Request>, n: nat)
    requires NeverForced(ttl, requests) && n <= |requests|
    ensures NeverForced(ttl, requests[..n])
  {
    forall k | 0 <= k < n
      ensures !ForcedBy(After(true, ttl, requests[..n][..k]), ttl, requests[..n][k])
    {
      assert requests[..n][..k] == requests[..k];
    }
  }

  lemma NoRevivalPrefix(ttl: real, requests: seq<Request>, n: nat)
    requires NoRevival(ttl, requests) && n <= |requests|
    ensures NoRevival(ttl, requests[..n])
  {
    var init := requests[..n];
    forall i, j, m | 0 <= i < m <= j < n && Repeats(ttl, init, i, j)
      ensures !ExpiredBy(ttl, init[i], init[m].now)
    {
      assert FirstFresh(ttl, requests, i);
      assert Repeats(ttl, requests, i, j);
    }
  }

  /** The next request gets the same answer from the evicting cache and from the one that never evicts. */
  predicate SameAnswer(ttl: real, requests: seq<Request>, r: Request) {
    Decide(After(true, ttl, requests), ttl, r) == Decide(After(false, ttl, requests), ttl, r)
  }

  lemma VictimIsGone(live: seq<Slot>, victim: Slot)
    requires victim in Oldest(live)
    ensures !Cached(Without(live, Oldest(live)), victim.artifactId)
  {
    var rest := Without(live, Oldest(live));
    forall i | 0 <= i < |rest|
      ensures rest[i].artifactId != victim.artifactId
    {
      WithoutMembers(live, Oldest(live), rest[i]);
      assert rest[i] in rest;
    }
  }

  function Again(slot: Slot, last: Request): Request {
    Request(slot.artifactId, slot.issuedAt, last.now)
  }

  /** A forced eviction drops an entry whose artifact is then accepted again, within its time to live. */
  lemma EvictedIsForgotten(ttl: real, e: State, last: Request) returns (victim: Slot)
    requires ForcedBy(e, ttl, last)
    ensures victim in Added(e, last).cache && !Expired(victim, ttl, last.now)
    ensures Decide(Next(true, e, ttl, last), ttl, Again(victim, last)).status.Accepted?
  {
    var live := Live(Added(e, last).cache, ttl, last.now);
    OldestAreRemoved(live);
    victim := Oldest(live)[0];
    assert victim in live;
    LiveMembers(Added(e, last).cache, ttl, last.now, victim);
    VictimIsGone(live, victim);
    hide Oldest, Live, Without, SequenceOf;
  }

  lemma ForcedStepShows(ttl: real, e: State, u: State, requests: seq<Request>, last: Request) returns (r: Request)
    requires Agree(ttl, e, u, requests) && NoRevival(ttl, requests + [last]) && Clock(requests + [last])
    requires ForcedBy(e, ttl, last)
    ensures NoRevival(ttl, requests + [last] + [r]) && Clock(requests + [last] + [r])
    ensures Decide(Next(true, e, ttl, last), ttl, r) != Decide(Next(false, u, ttl, last), ttl, r)
  {
    SameDecision(ttl, e, u, requests, last);
    hide Agree, NoRevival, Clock, Evict, Live, Forced, SequenceOf, Cached;
    AddedAgree(ttl, e, u, requests, last);
    var victim := EvictedIsForgotten(ttl, e, last);
    r := Again(victim, last);
    StillCached(ttl, e, u, requests, last, victim);
    AgainRevivesNothing(ttl, requests, last, victim);
  }

  /** After a first forced eviction some request that both caches could get next is answered differently. */
  lemma ForcedEvictionShows(ttl: real, requests: seq<Request>, k: nat) returns (r: Request)
    requires NoRevival(ttl, requests) && Clock(requests) && k < |requests| && NeverForced(ttl, requests[..k])
    requires ForcedBy(After(true, ttl, requests[..k]), ttl, requests[k])
    ensures NoRevival(ttl, requests[..k + 1] + [r]) && Clock(requests[..k + 1] + [r])
    ensures !SameAnswer(ttl, requests[..k + 1], r)
  {
    var init, last, all := requests[..k], requests[k], requests[..k + 1];
    assert all == init + [last] && all[..|all| - 1] == init;
    NoRevivalPrefix(ttl, requests, k);
    NoRevivalPrefix(ttl, requests, k + 1);
    assert Clock(all);
    RunsAgree(ttl, init);
    var e, u := After(true, ttl, init), After(false, ttl, init);
    assert After(true, ttl, all) == Next(true, e, ttl, last) && After(false, ttl, all) == Next(false, u, ttl, last);
    hide After, NeverForced, NoRevival, Clock, Agree, ForcedBy, Next, Decide;
    r := ForcedStepShows(ttl, e, u, init, last);
  }

  lemma StillCached(ttl: real, e: State, u: State, requests: seq<Request>, last: Request, slot: Slot)
    requires Agree(ttl, Added(e, last), Added(u, last), requests + [last]) && slot in Added(e, last).cache
    requires !Expired(slot, ttl, last.now)
    ensures FromFirst(slot, ttl, requests + [last])
    ensures Decide(Added(u, last), ttl, Again(slot, last)).status.RejectedDuplicate?
  {
    SequenceOfSlot(Added(u, last).cache, slot);
    hide FromFirst, SequenceOf;
  }

  lemma AgainRevivesNothing(ttl: real, requests: seq<Request>, last: Request, slot: Slot)
    requires NoRevival(ttl, requests + [last]) && Clock(requests + [last]) && FromFirst(slot, ttl, requests + [last])
    requires !Expired(slot, ttl, last.now)
    ensures NoRevival(ttl, requests + [last] + [Again(slot, last)]) && Clock(requests + [last] + [Again(slot, last)])
  {
    var all, r := requests + [last], Again(slot, last);
    var longer, n := all + [r], |all|;
    assert longer[n] == r && all[n - 1] == last && forall i :: 0 <= i < n ==> longer[i] == all[i];
    var first :| 0 <= first < n && SlotOf(slot, ttl, all, first);
    forall i, j, m | 0 <= i < m <= j < |longer| && Repeats(ttl, longer, i, j)
      ensures !ExpiredBy(ttl, longer[i], longer[m].now)
    {
      assert FirstFresh(ttl, all, i);
      if j < n {
        assert Repeats(ttl, all, i, j);
      } else {
        assert i == first by {
          assert i < first || first < i || i == first;
        }
        assert longer[m].now <= last.now;
      }
    }
  }

  lemma {:induction false} FirstForced(ttl: real, requests: seq<Request>) returns (k: nat)
    requires !NeverForced(ttl, requests)
    ensures k < |requests| && NeverForced(ttl, requests[..k])
    ensures ForcedBy(After(true, ttl, requests[..k]), ttl, requests[k])
  {
    hide After, ForcedBy;
    var n := |requests| - 1;
    var init := requests[..n];
    if NeverForced(ttl, init) {
      k := n;
      forall j | 0 <= j < n
        ensures !ForcedBy(After(true, ttl, requests[..j]), ttl, requests[j])
      {
        assert init[..j] == requests[..j] && init[j] == requests[j];
      }
    } else {
      k := FirstForced(ttl, init);
      assert init[..k] == requests[..k] && init[k] == requests[k];
    }
  }

  /** As long as no eviction is forced, a request that revives nothing cannot tell the evicting cache from the other
      one, at any point of a run.  With a clock in order that is exactly when it cannot. */
  lemma {:induction false} UnnoticedIffNeverForced(ttl: real, requests: seq<Request>)
    requires NoRevival(ttl, requests)
    ensures NeverForced(ttl, requests) ==>
      forall k, r :: 0 <= k <= |requests| && NoRevival(ttl, requests[..k] + [r]) ==> SameAnswer(ttl, requests[..k], r)
    ensures Clock(requests) ==>
      (NeverForced(ttl, requests) <==>
        forall k, r :: 0 <= k <= |requests| && NoRevival(ttl, requests[..k] + [r]) && Clock(requests[..k] + [r]) ==>
          SameAnswer(ttl, requests[..k], r))
  {
    if NeverForced(ttl, requests) {
      forall k, r | 0 <= k <= |requests| && NoRevival(ttl, requests[..k] + [r])
        ensures SameAnswer(ttl, requests[..k], r)
      {
        NeverForcedPrefix(ttl, requests, k);
        NoRevivalPrefix(ttl, requests, k);
        RunsAgree(ttl, requests[..k]);
        SameDecision(ttl, After(true, ttl, requests[..k]), After(false, ttl, requests[..k]), requests[..k], r);
      }
    } else if Clock(requests) {
      var k := FirstForced(ttl, requests);
      var r := ForcedEvictionShows(ttl, requests, k);
    }
    hide SameAnswer, NoRevival, NeverForced, Clock;
  }
}
