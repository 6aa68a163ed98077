/** Concrete runs that fill the replay cache, and that make it accept an artifact twice. */
module ReplayBursts {
  import opened ReplayEnforcer
  import opened ReplayLifetimes

  function Name(i: nat): string {
    seq(i, _ => 'a')
  }

  /** New artifacts, all issued and submitted at the same time. */
  function Burst(n: nat, time: real): seq<Request> {
    if n == 0 then [] else Burst(n - 1, time) + [Request(Name(n), time, time)]
  }

  lemma {:induction false} BurstAt(n: nat, time: real)
    ensures |Burst(n, time)| == n
    ensures forall i :: 0 <= i < n ==> Burst(n, time)[i] == Request(Name(i + 1), time, time)
  {
    if n > 0 {
      BurstAt(n - 1, time);
    }
  }

  /** `n` entries, the first ones from before, the others from a burst. */
  ghost predicate Filled(cache: seq<Slot>, before: seq<Slot>, n: nat, time: real) {
    && |cache| == |before| + n && before <= cache
    && forall i :: |before| <= i < |cache| ==>
         cache[i].artifactId == Name(i - |before| + 1) && cache[i].issuedAt == time
  }

  ghost predicate Nameless(cache: seq<Slot>) {
    forall i, n: nat :: 0 <= i < |cache| && n > 0 ==> cache[i].artifactId != Name(n)
  }

  lemma NotYetCached(cache: seq<Slot>, before: seq<Slot>, n: nat, time: real)
    requires Filled(cache, before, n, time) && Nameless(before)
    ensures !Cached(cache, Name(n + 1))
  {
    forall i | 0 <= i < |cache|
      ensures cache[i].artifactId != Name(n + 1)
    {
      if i >= |before| {
        assert |cache[i].artifactId| == i - |before| + 1;
      } else {
        assert cache[i] == before[i];
      }
    }
  }

  lemma FillStep(ttl: real, s: State, before: seq<Slot>, n: nat, time: real)
    requires ttl >= 0.0 && Filled(s.cache, before, n, time) && Nameless(before)
    requires |s.cache| + 1 < EVICTION_THRESHOLD
    ensures var r := Request(Name(n + 1), time, time);
      && Next(true, s, ttl, r) == Added(s, r) && !ForcedBy(s, ttl, r)
      && Filled(Added(s, r).cache, before, n + 1, time)
  {
    NotYetCached(s.cache, before, n, time);
    hide Nameless, Name, Cached, Live;
  }

  lemma {:induction false} BurstFills(ttl: real, earlier: seq<Request>, n: nat, time: real)
    requires ttl >= 0.0 && NeverForced(ttl, earlier) && Nameless(After(true, ttl, earlier).cache)
    requires |After(true, ttl, earlier).cache| + n < EVICTION_THRESHOLD
    ensures Filled(After(true, ttl, earlier + Burst(n, time)).cache, After(true, ttl, earlier).cache, n, time)
    ensures NeverForced(ttl, earlier + Burst(n, time))
  {
    hide *;
    var before := After(true, ttl, earlier).cache;
    if n == 0 {
      NothingFills(earlier, before, time);
    } else {
      var init, r := earlier + Burst(n - 1, time), Request(Name(n), time, time);
      BurstSnoc(earlier, n, time);
      BurstFills(ttl, earlier, n - 1, time);
      AfterSnoc(ttl, init, r);
      FilledCount(After(true, ttl, init).cache, before, n - 1, time);
      FillStep(ttl, After(true, ttl, init), before, n - 1, time);
      NeverForcedSnoc(ttl, init, r);
    }
  }

  lemma NothingFills(earlier: seq<Request>, before: seq<Slot>, time: real)
    ensures earlier + Burst(0, time) == earlier && Filled(before, before, 0, time)
  {
  }

  lemma BurstSnoc(earlier: seq<Request>, n: nat, time: real)
    requires n > 0
    ensures earlier + Burst(n, time) == (earlier + Burst(n - 1, time)) + [Request(Name(n), time, time)]
  {
  }

  lemma FilledCount(cache: seq<Slot>, before: seq<Slot>, n: nat, time: real)
    requires Filled(cache, before, n, time)
    ensures |cache| == |before| + n
  {
  }

  lemma {:induction false} NeverForcedSnoc(ttl: real, requests: seq<Request>, r: Request)
    requires NeverForced(ttl, requests)
    ensures NeverForced(ttl, requests + [r]) <==> !ForcedBy(After(true, ttl, requests), ttl, r)
  {
    hide ForcedBy, After;
    var all, n := requests + [r], |requests|;
    assert all[..n] == requests && all[n] == r;
    assert forall k :: 0 <= k < n ==> all[..k] == requests[..k] && all[k] == requests[k];
  }

  /** Forced evictions do happen: as many artifacts as the cache may hold, all within their time to live. */
  lemma BurstForcesEviction(ttl: real)
    requires ttl >= 0.0
    ensures var run := Burst(10_000, 0.0);
      Clock(run) && SameIssueTimes(run) && !NeverForced(ttl, run)
  {
    var m := EVICTION_THRESHOLD - 1;
    var init, r := Burst(m, 0.0), Request(Name(m + 1), 0.0, 0.0);
    BurstAt(m + 1, 0.0);
    assert [] + init == init;
    BurstFills(ttl, [], m, 0.0);
    var s := After(true, ttl, init);
    NotYetCached(s.cache, [], m, 0.0);
    assert Decide(s, ttl, r).status.Accepted?;
    assert Burst(m + 1, 0.0) == init + [r];
    hide Burst, After, Decide, Cached;
    AllLive(Added(s, r).cache, ttl, 0.0);
    assert ForcedBy(s, ttl, r);
    NeverForcedSnoc(ttl, init, r);
  }

  /** So the promise can be broken, even by a clock in order. */
  lemma PromiseCanBreak(ttl: real) returns (run: seq<Request>)
    requires ttl >= 0.0
    ensures Clock(run) && !OncePerLifetime(ttl, run)
  {
    var burst := Burst(EVICTION_THRESHOLD, 0.0);
    BurstForcesEviction(ttl);
    var k := FirstForced(ttl, burst);
    var r := TwiceIfForced(ttl, burst, k);
    run := burst[..k + 1] + [r];
    hide Burst;
  }

  // ---- Why the clock has to be in order ----

  const LATE_TTL: real := 300.0
  const X := Request("X", 1.0, 1.0)

  /** It has read the clock before the last request of the burst, but gets the lock after it. */
  const LATE := Request("X", 1.0, 300.0)

  function LateRun(): seq<Request> {
    [X] + Burst(EVICTION_THRESHOLD - 1, 302.0)
  }

  lemma XIsCached()
    ensures After(true, LATE_TTL, [X]) == State(1, [Slot("X", 1, 1.0)])
    ensures NeverForced(LATE_TTL, [X]) && Accepts(LATE_TTL, [X], 0)
  {
    assert [X][..0] == [] && After(true, LATE_TTL, []) == State(0, []);
  }

  lemma XIsNoName()
    ensures Nameless([Slot("X", 1, 1.0)])
  {
    forall n: nat | n > 0
      ensures Name(n) != "X"
    {
      assert Name(n)[0] == 'a';
    }
  }

  /** The burst evicts X because it has expired, and keeps everything else. */
  lemma XIsEvicted(s: State, last: Request)
    requires Filled(s.cache, [Slot("X", 1, 1.0)], EVICTION_THRESHOLD - 2, 302.0)
    requires last == Request(Name(EVICTION_THRESHOLD - 1), 302.0, 302.0)
    ensures !ForcedBy(s, LATE_TTL, last) && !Cached(Next(true, s, LATE_TTL, last).cache, "X")
  {
    var before, cache := [Slot("X", 1, 1.0)], Added(s, last).cache;
    XIsNoName();
    NotYetCached(s.cache, before, EVICTION_THRESHOLD - 2, 302.0);
    assert cache[0] == before[0];
    var rest := cache[1..];
    forall i | 0 <= i < |rest|
      ensures rest[i].issuedAt == 302.0 && rest[i].artifactId != "X"
    {
      assert rest[i] == cache[i + 1];
      assert rest[i].artifactId[0] == 'a';
    }
    AllLive(rest, LATE_TTL, 302.0);
    assert Live(cache, LATE_TTL, 302.0) == rest;
    assert Next(true, s, LATE_TTL, last).cache == rest;
  }

  lemma LateTimes()
    ensures SameIssueTimes(LateRun() + [LATE]) && !Clock(LateRun() + [LATE])
  {
    var burst, all, n := Burst(EVICTION_THRESHOLD - 1, 302.0), LateRun() + [LATE], EVICTION_THRESHOLD;
    BurstAt(n - 1, 302.0);
    assert all[0] == X && all[n] == LATE;
    forall i | 0 < i < n
      ensures all[i].issuedAt == 302.0 && all[i].now == 302.0 && all[i].artifactId != "X"
    {
      assert all[i] == burst[i - 1];
      assert all[i].artifactId[0] == 'a';
    }
    assert all[1].now > all[n].now;
    hide Burst, LateRun;
  }

  lemma LateRunLosesX()
    ensures NeverForced(LATE_TTL, LateRun()) && !Cached(After(true, LATE_TTL, LateRun()).cache, "X")
  {
    var m := EVICTION_THRESHOLD - 2;
    var init, last, run := [X] + Burst(m, 302.0), Request(Name(m + 1), 302.0, 302.0), LateRun();
    XIsCached();
    XIsNoName();
    BurstFills(LATE_TTL, [X], m, 302.0);
    assert run == init + [last];
    hide Burst, After, Name, Next, LateRun, Cached, NeverForced, ForcedBy;
    AfterSnoc(LATE_TTL, init, last);
    XIsEvicted(After(true, LATE_TTL, init), last);
    NeverForcedSnoc(LATE_TTL, init, last);
  }

  lemma AcceptedTwice(ttl: real, run: seq<Request>, r: Request)
    requires run != [] && run[0].artifactId == r.artifactId && !ExpiredBy(ttl, run[0], r.now)
    requires Fresh(ttl, run[0]) && Fresh(ttl, r) && !Cached(After(true, ttl, run).cache, r.artifactId)
    ensures !OncePerLifetime(ttl, run + [r])
  {
    var all, n := run + [r], |run|;
    assert all[..n] == run && all[n] == r && all[0] == run[0] && all[..0] == [];
    assert After(true, ttl, []) == State(0, []);
    hide After, Cached, SequenceOf;
    assert Accepts(ttl, all, n);
    NothingIsCached(all[0].artifactId);
    assert Accepts(ttl, all, 0);
    assert AcceptsBoth(ttl, all, 0, n);
  }

  lemma NothingIsCached(id: string)
    ensures !Cached([], id)
  {
  }

  /** A request whose clock reading is older than that of an eviction it waited for is accepted a second time within
      its time to live, although no eviction was forced. */
  lemma ClockOrderMatters()
    ensures SameIssueTimes(LateRun() + [LATE]) && !Clock(LateRun() + [LATE])
    ensures NeverForced(LATE_TTL, LateRun()) && !OncePerLifetime(LATE_TTL, LateRun() + [LATE])
  {
    LateTimes();
    LateRunLosesX();
    assert LateRun() != [] && LateRun()[0] == X;
    hide After, LateRun, Burst, NeverForced, SameIssueTimes, Clock, Cached, OncePerLifetime, ForcedBy;
    AcceptedTwice(LATE_TTL, LateRun(), LATE);
  }
}
