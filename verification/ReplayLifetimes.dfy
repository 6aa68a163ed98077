/** The promise of the replay cache: an artifact that was accepted is not accepted again within its time to live. */
module ReplayLifetimes {
  import opened ReplayEnforcer

  predicate Accepts(ttl: real, requests: seq<Request>, k: nat)
    requires k < |requests|
  {
    Decide(After(true, ttl, requests[..k]), ttl, requests[k]).status.Accepted?
  }

  ghost predicate AcceptsBoth(ttl: real, requests: seq<Request>, i: nat, j: nat)
    requires i < j < |requests|
  {
    Accepts(ttl, requests, i) && Accepts(ttl, requests, j) && requests[i].artifactId == requests[j].artifactId
  }

  /** An artifact is accepted again only after its earlier time of issue has expired. */
  ghost predicate OncePerLifetime(ttl: real, requests: seq<Request>) {
    forall i, j :: 0 <= i < j < |requests| && AcceptsBoth(ttl, requests, i, j) ==>
      ExpiredBy(ttl, requests[i], requests[j].now)
  }

  // ---- What an acceptance leaves in the cache ----

  ghost predicate Remembered(cache: seq<Slot>, r: Request) {
    exists slot :: slot in cache && slot.artifactId == r.artifactId && slot.issuedAt == r.issuedAt
  }

  /** The acceptance is still in the cache, or a later clock reading has shown it to be expired. */
  ghost predicate KeptOrExpired(cache: seq<Slot>, ttl: real, requests: seq<Request>, i: nat)
    requires i < |requests|
  {
    Remembered(cache, requests[i]) || exists m :: i < m < |requests| && ExpiredBy(ttl, requests[i], requests[m].now)
  }

  /** Without force, one more request removes an entry only once it has expired. */
  lemma StepKeeps(ttl: real, s: State, r: Request, earlier: Request)
    requires !ForcedBy(s, ttl, r) && Remembered(s.cache, earlier)
    ensures Remembered(Next(true, s, ttl, r).cache, earlier) || ExpiredBy(ttl, earlier, r.now)
  {
    var slot :| slot in s.cache && slot.artifactId == earlier.artifactId && slot.issuedAt == earlier.issuedAt;
    if Decide(s, ttl, r).status.Accepted? {
      EvictMembers(Added(s, r).cache, ttl, r.now);
      assert slot in Added(s, r).cache;
    }
  }

  lemma StepRemembers(ttl: real, s: State, r: Request)
    requires Decide(s, ttl, r).status.Accepted? && !ForcedBy(s, ttl, r)
    ensures Remembered(Next(true, s, ttl, r).cache, r)
  {
    var slot := Slot(r.artifactId, s.counter + 1, r.issuedAt);
    EvictMembers(Added(s, r).cache, ttl, r.now);
    assert slot in Added(s, r).cache;
  }

  lemma {:induction false} KeptUntilExpired(ttl: real, requests: seq<Request>, i: nat)
    requires i < |requests| && NeverForced(ttl, requests) && Accepts(ttl, requests, i)
    ensures KeptOrExpired(After(true, ttl, requests).cache, ttl, requests, i)
  {
    var n := |requests| - 1;
    var init, r := requests[..n], requests[n];
    var s := After(true, ttl, init);
    assert !ForcedBy(s, ttl, r);
    if i == n {
      StepRemembers(ttl, s, r);
    } else {
      assert init[..i] == requests[..i];
      NeverForcedPrefix(ttl, requests, n);
      KeptUntilExpired(ttl, init, i);
      hide Next, ForcedBy;
      if Remembered(s.cache, requests[i]) {
        StepKeeps(ttl, s, r, requests[i]);
      } else {
        var m :| i < m < |init| && ExpiredBy(ttl, init[i], init[m].now);
        assert requests[m] == init[m];
      }
    }
  }

  /** As long as no eviction is forced, only an artifact that some clock reading in between has shown to be expired
      is accepted again.  Nothing is assumed about times of issue or the order of the clock readings. */
  lemma AcceptedAgainAfterExpiry(ttl: real, requests: seq<Request>, i: nat, j: nat) returns (m: nat)
    requires i < j < |requests| && NeverForced(ttl, requests[..j]) && AcceptsBoth(ttl, requests, i, j)
    ensures i < m < j && ExpiredBy(ttl, requests[i], requests[m].now)
  {
    var init := requests[..j];
    assert init[..i] == requests[..i] && init[i] == requests[i];
    KeptUntilExpired(ttl, init, i);
    var cache := After(true, ttl, init).cache;
    RememberedIsCached(cache, requests[i]);
    assert !Remembered(cache, init[i]);
    m :| i < m < |init| && ExpiredBy(ttl, init[i], init[m].now);
  }

  lemma RememberedIsCached(cache: seq<Slot>, r: Request)
    ensures Remembered(cache, r) ==> Cached(cache, r.artifactId)
  {
  }

  lemma {:induction false} SlotsAreAccepted(ttl: real, requests: seq<Request>, slot: Slot) returns (i: nat)
    requires slot in After(true, ttl, requests).cache
    ensures i < |requests| && Accepts(ttl, requests, i)
    ensures requests[i].artifactId == slot.artifactId && requests[i].issuedAt == slot.issuedAt
  {
    var n := |requests| - 1;
    var init, r := requests[..n], requests[n];
    var s := After(true, ttl, init);
    NextMembers(ttl, s, r, slot);
    hide Next, Decide;
    if slot in s.cache {
      i := SlotsAreAccepted(ttl, init, slot);
      assert init[..i] == requests[..i];
    } else {
      i := n;
    }
  }

  lemma NextMembers(ttl: real, s: State, r: Request, slot: Slot)
    requires slot in Next(true, s, ttl, r).cache
    ensures slot in s.cache || (slot.artifactId == r.artifactId && slot.issuedAt == r.issuedAt
                                && Decide(s, ttl, r).status.Accepted?)
  {
    var cache := Added(s, r).cache;
    var live := Live(cache, ttl, r.now);
    LiveMembers(cache, ttl, r.now, slot);
    WithoutMembers(live, Oldest(live), slot);
  }

  lemma NextKeepsUnique(evicts: bool, ttl: real, s: State, r: Request)
    requires UniqueIds(s.cache)
    ensures UniqueIds(Next(evicts, s, ttl, r).cache)
    ensures Decide(s, ttl, r).status.Accepted? ==> UniqueIds(Added(s, r).cache)
  {
    if Decide(s, ttl, r).status.Accepted? {
      var cache := Added(s, r).cache;
      assert UniqueIds(cache);
      LiveKeepsUnique(cache, ttl, r.now);
      WithoutKeepsUnique(Live(cache, ttl, r.now), Oldest(Live(cache, ttl, r.now)));
      hide UniqueIds, Live, Without, Oldest;
    }
  }

  lemma {:induction false} IdsStayUnique(evicts: bool, ttl: real, requests: seq<Request>)
    ensures UniqueIds(After(evicts, ttl, requests).cache)
  {
    if requests != [] {
      var init := requests[..|requests| - 1];
      IdsStayUnique(evicts, ttl, init);
      NextKeepsUnique(evicts, ttl, After(evicts, ttl, init), requests[|requests| - 1]);
      hide Next, UniqueIds;
    }
  }

  // ---- The exact condition ----

  /** No clock reading comes to the lock more than `d` behind an earlier one. */
  ghost predicate Lagging(d: real, requests: seq<Request>) {
    forall i, j :: 0 <= i < j < |requests| ==> requests[i].now - d <= requests[j].now
  }

  /** The acceptance of request k evicts the slot. */
  ghost predicate Dropped(ttl: real, requests: seq<Request>, k: nat, slot: Slot)
    requires k < |requests|
  {
    var s := After(true, ttl, requests[..k]);
    && Accepts(ttl, requests, k)
    && slot in Added(s, requests[k]).cache && slot !in Next(true, s, ttl, requests[k]).cache
  }

  /** What was issued then has expired for every request to come, however late that one may be. */
  ghost predicate SurelyExpired(ttl: real, d: real, requests: seq<Request>, issuedAt: real) {
    exists h :: 0 <= h < |requests| && requests[h].now - d - issuedAt > ttl
  }

  /** The acceptance of request k evicts something that a late request could still bring in time. */
  ghost predicate EarlyDrop(ttl: real, d: real, requests: seq<Request>, k: nat)
    requires k < |requests|
  {
    exists slot :: Dropped(ttl, requests, k, slot) && !SurelyExpired(ttl, d, requests[..k + 1], slot.issuedAt)
  }

  ghost predicate NoEarlyDrop(ttl: real, d: real, requests: seq<Request>) {
    forall k :: 0 <= k < |requests| ==> !EarlyDrop(ttl, d, requests, k)
  }

  lemma NoEarlyDropPrefix(ttl: real, d: real, requests: seq<Request>, n: nat)
    requires NoEarlyDrop(ttl, d, requests) && n <= |requests|
    ensures NoEarlyDrop(ttl, d, requests[..n])
  {
    var init := requests[..n];
    forall k | 0 <= k < n
      ensures !EarlyDrop(ttl, d, init, k)
    {
      assert init[..k] == requests[..k] && init[..k + 1] == requests[..k + 1] && init[k] == requests[k];
      assert !EarlyDrop(ttl, d, requests, k);
      assert forall slot :: Dropped(ttl, init, k, slot) <==> Dropped(ttl, requests, k, slot);
      hide Dropped;
    }
  }

  /** An entry leaves the cache only by being dropped. */
  lemma KeptOrDropped(ttl: real, requests: seq<Request>, k: nat, slot: Slot)
    requires k < |requests|
    requires || slot in After(true, ttl, requests[..k]).cache
             || (Accepts(ttl, requests, k) && slot in Added(After(true, ttl, requests[..k]), requests[k]).cache)
    ensures slot in After(true, ttl, requests[..k + 1]).cache || Dropped(ttl, requests, k, slot)
  {
    var s, all := After(true, ttl, requests[..k]), requests[..k + 1];
    assert all == requests[..k] + [requests[k]];
    AfterSnoc(ttl, requests[..k], requests[k]);
    hide After, Evict;
  }

  lemma AfterSnoc(ttl: real, requests: seq<Request>, r: Request)
    ensures After(true, ttl, requests + [r]) == Next(true, After(true, ttl, requests), ttl, r)
  {
    assert (requests + [r])[..|requests|] == requests;
  }

  lemma {:induction false} KeptUntilSurelyExpired(ttl: real, d: real, requests: seq<Request>, i: nat, n: nat)
    requires NoEarlyDrop(ttl, d, requests) && i < n <= |requests| && Accepts(ttl, requests, i)
    ensures Remembered(After(true, ttl, requests[..n]).cache, requests[i])
            || SurelyExpired(ttl, d, requests[..n], requests[i].issuedAt)
  {
    var k, r := n - 1, requests[i];
    hide After, Next, Dropped, EarlyDrop;
    if i < k {
      KeptUntilSurelyExpired(ttl, d, requests, i, k);
    }
    var cache := After(true, ttl, requests[..k]).cache;
    if i < k && !Remembered(cache, r) {
      StillSurelyExpired(ttl, d, requests, k, r.issuedAt);
    } else {
      var slot := NewOrRemembered(ttl, requests, i, k);
      KeptOrDropped(ttl, requests, k, slot);
      NoDropUnlessSure(ttl, d, requests, k, slot);
    }
  }

  lemma NewOrRemembered(ttl: real, requests: seq<Request>, i: nat, k: nat) returns (slot: Slot)
    requires i <= k < |requests| && Accepts(ttl, requests, i)
    requires i < k ==> Remembered(After(true, ttl, requests[..k]).cache, requests[i])
    ensures slot.artifactId == requests[i].artifactId && slot.issuedAt == requests[i].issuedAt
    ensures || slot in After(true, ttl, requests[..k]).cache
            || (Accepts(ttl, requests, k) && slot in Added(After(true, ttl, requests[..k]), requests[k]).cache)
  {
    if i == k {
      slot := Slot(requests[k].artifactId, After(true, ttl, requests[..k]).counter + 1, requests[k].issuedAt);
    } else {
      slot :| slot in After(true, ttl, requests[..k]).cache
        && slot.artifactId == requests[i].artifactId && slot.issuedAt == requests[i].issuedAt;
    }
  }

  lemma NoDropUnlessSure(ttl: real, d: real, requests: seq<Request>, k: nat, slot: Slot)
    requires NoEarlyDrop(ttl, d, requests) && k < |requests|
    ensures Dropped(ttl, requests, k, slot) ==> SurelyExpired(ttl, d, requests[..k + 1], slot.issuedAt)
  {
    assert !EarlyDrop(ttl, d, requests, k);
    hide Dropped, SurelyExpired;
  }

  lemma StillSurelyExpired(ttl: real, d: real, requests: seq<Request>, k: nat, issuedAt: real)
    requires k < |requests| && SurelyExpired(ttl, d, requests[..k], issuedAt)
    ensures SurelyExpired(ttl, d, requests[..k + 1], issuedAt)
  {
    var h :| 0 <= h < k && requests[..k][h].now - d - issuedAt > ttl;
    assert requests[..k + 1][h] == requests[..k][h];
  }

  lemma OnceIfNoEarlyDrop(ttl: real, d: real, requests: seq<Request>, r: Request)
    requires NoEarlyDrop(ttl, d, requests) && Lagging(d, requests + [r])
    ensures OncePerLifetime(ttl, requests + [r])
  {
    var all := requests + [r];
    forall i, j | 0 <= i < j < |all| && AcceptsBoth(ttl, all, i, j)
      ensures ExpiredBy(ttl, all[i], all[j].now)
    {
      assert all[..j] == requests[..j] && all[..i] == requests[..i];
      KeptUntilSurelyExpired(ttl, d, requests, i, j);
      RememberedIsCached(After(true, ttl, requests[..j]).cache, requests[i]);
      hide Remembered, NoEarlyDrop;
      assert SurelyExpired(ttl, d, requests[..j], requests[i].issuedAt);
      var h :| 0 <= h < j && requests[..j][h].now - d - requests[i].issuedAt > ttl;
      assert all[h] == requests[h] && all[h].now - d <= all[j].now;
    }
  }

  /** What was dropped is accepted again at the very end of its time to live. */
  lemma AcceptedAgain(ttl: real, requests: seq<Request>, k: nat, slot: Slot)
    requires k < |requests| && Dropped(ttl, requests, k, slot)
    ensures !OncePerLifetime(ttl, requests[..k + 1] + [LastCall(ttl, slot)])
  {
    var init, last, all, r := requests[..k], requests[k], requests[..k + 1], LastCall(ttl, slot);
    var longer, s := all + [r], After(true, ttl, init);
    assert all == init + [last];
    assert longer[..k + 1] == all && longer[k + 1] == r && longer[..k] == init && longer[k] == last;
    AfterSnoc(ttl, init, last);
    IdsStayUnique(true, ttl, init);
    GoneWithItsId(ttl, s, last, slot);
    var i := k;
    if slot in s.cache {
      i := SlotsAreAccepted(ttl, init, slot);
      assert longer[..i] == init[..i] && longer[i] == init[i];
    }
    hide After, Next, Evict, SequenceOf;
    assert AcceptsBoth(ttl, longer, i, k + 1);
  }

  function LastCall(ttl: real, slot: Slot): Request {
    Request(slot.artifactId, slot.issuedAt, slot.issuedAt + ttl)
  }

  lemma GoneWithItsId(ttl: real, s: State, r: Request, slot: Slot)
    requires UniqueIds(s.cache) && Decide(s, ttl, r).status.Accepted?
    requires slot in Added(s, r).cache && slot !in Next(true, s, ttl, r).cache
    ensures !Cached(Next(true, s, ttl, r).cache, slot.artifactId)
  {
    var cache, left := Added(s, r).cache, Next(true, s, ttl, r).cache;
    NextKeepsUnique(true, ttl, s, r);
    forall i | 0 <= i < |left|
      ensures left[i].artifactId != slot.artifactId
    {
      EvictIsSubset(cache, ttl, r.now, left[i]);
      assert left[i] in cache;
    }
  }

  lemma EvictIsSubset(cache: seq<Slot>, ttl: real, now: real, slot: Slot)
    requires slot in Evict(cache, ttl, now)
    ensures slot in cache
  {
    var live := Live(cache, ttl, now);
    LiveMembers(cache, ttl, now, slot);
    WithoutMembers(live, Oldest(live), slot);
  }

  lemma EarlyDropShows(ttl: real, d: real, requests: seq<Request>, k: nat) returns (r: Request)
    requires Lagging(d, requests) && k < |requests| && EarlyDrop(ttl, d, requests, k)
    ensures Lagging(d, requests[..k + 1] + [r]) && !OncePerLifetime(ttl, requests[..k + 1] + [r])
  {
    var slot :| Dropped(ttl, requests, k, slot) && !SurelyExpired(ttl, d, requests[..k + 1], slot.issuedAt);
    r := LastCall(ttl, slot);
    AcceptedAgain(ttl, requests, k, slot);
    var all := requests[..k + 1];
    assert forall h :: 0 <= h <= k ==> all[h] == requests[h] && !(all[h].now - d - slot.issuedAt > ttl);
  }

  /** Whatever the times of issue, and with clock readings up to `d` late at the lock: the promise cannot be broken at
      any point of a run exactly when no acceptance evicts what a late request could still bring in time. */
  lemma {:induction false} OncePerLifetimeIffNoEarlyDrop(ttl: real, d: real, requests: seq<Request>)
    requires Lagging(d, requests)
    ensures NoEarlyDrop(ttl, d, requests) <==>
      forall k, r :: 0 <= k <= |requests| && Lagging(d, requests[..k] + [r]) ==>
        OncePerLifetime(ttl, requests[..k] + [r])
  {
    if NoEarlyDrop(ttl, d, requests) {
      forall k, r | 0 <= k <= |requests| && Lagging(d, requests[..k] + [r])
        ensures OncePerLifetime(ttl, requests[..k] + [r])
      {
        NoEarlyDropPrefix(ttl, d, requests, k);
        OnceIfNoEarlyDrop(ttl, d, requests[..k], r);
      }
    } else {
      var k :| 0 <= k < |requests| && EarlyDrop(ttl, d, requests, k);
      var r := EarlyDropShows(ttl, d, requests, k);
    }
    hide Lagging, OncePerLifetime, NoEarlyDrop;
  }

  // ---- Clock readings in order ----

  lemma InOrderIsNoLag(requests: seq<Request>)
    ensures Clock(requests) <==> Lagging(0.0, requests)
  {
  }

  lemma ForcedIsEarlyDrop(ttl: real, requests: seq<Request>, k: nat)
    requires Clock(requests) && k < |requests|
    ensures EarlyDrop(ttl, 0.0, requests, k) <==> ForcedBy(After(true, ttl, requests[..k]), ttl, requests[k])
  {
    var s, r, all := After(true, ttl, requests[..k]), requests[k], requests[..k + 1];
    assert all[k] == r && forall h :: 0 <= h <= k ==> all[h] == requests[h];
    hide After;
    if ForcedBy(s, ttl, r) {
      var victim := EvictedIsForgotten(ttl, s, r);
      CachedMember(Next(true, s, ttl, r).cache, victim);
      assert Dropped(ttl, requests, k, victim) && !SurelyExpired(ttl, 0.0, all, victim.issuedAt);
    } else if EarlyDrop(ttl, 0.0, requests, k) {
      var slot :| Dropped(ttl, requests, k, slot) && !SurelyExpired(ttl, 0.0, all, slot.issuedAt);
      EvictMembers(Added(s, r).cache, ttl, r.now);
    }
  }

  lemma CachedMember(cache: seq<Slot>, slot: Slot)
    ensures slot in cache ==> Cached(cache, slot.artifactId)
  {
  }

  /** After a forced eviction, some artifact can be accepted again within its time to live. */
  lemma TwiceIfForced(ttl: real, requests: seq<Request>, k: nat) returns (r: Request)
    requires Clock(requests) && k < |requests| && ForcedBy(After(true, ttl, requests[..k]), ttl, requests[k])
    ensures Clock(requests[..k + 1] + [r]) && !OncePerLifetime(ttl, requests[..k + 1] + [r])
  {
    InOrderIsNoLag(requests);
    ForcedIsEarlyDrop(ttl, requests, k);
    hide *;
    r := EarlyDropShows(ttl, 0.0, requests, k);
    InOrderIsNoLag(requests[..k + 1] + [r]);
  }

  /** With a clock in order the early drops are the forced evictions. */
  lemma {:induction false} OncePerLifetimeIffNeverForced(ttl: real, requests: seq<Request>)
    requires Clock(requests)
    ensures NeverForced(ttl, requests) <==>
      forall k, r :: 0 <= k <= |requests| && Clock(requests[..k] + [r]) ==> OncePerLifetime(ttl, requests[..k] + [r])
  {
    InOrderIsNoLag(requests);
    forall k | 0 <= k < |requests|
      ensures EarlyDrop(ttl, 0.0, requests, k) <==> ForcedBy(After(true, ttl, requests[..k]), ttl, requests[k])
    {
      ForcedIsEarlyDrop(ttl, requests, k);
    }
    assert NeverForced(ttl, requests) <==> NoEarlyDrop(ttl, 0.0, requests);
    forall k, r | 0 <= k <= |requests|
      ensures Clock(requests[..k] + [r]) <==> Lagging(0.0, requests[..k] + [r])
    {
      InOrderIsNoLag(requests[..k] + [r]);
    }
    hide *;
    OncePerLifetimeIffNoEarlyDrop(ttl, 0.0, requests);
  }

  // ---- Any clock readings ----

  ghost predicate NothingDropped(ttl: real, requests: seq<Request>) {
    forall k, slot :: 0 <= k < |requests| ==> !Dropped(ttl, requests, k, slot)
  }

  lemma {:induction false} SomeLag(requests: seq<Request>) returns (d: real)
    ensures Lagging(d, requests)
  {
    d := 0.0;
    if requests != [] {
      var n := |requests| - 1;
      var latest := Latest(requests);
      d := SomeLag(requests[..n]);
      d := if latest - requests[n].now > d then latest - requests[n].now else d;
      assert forall i :: 0 <= i < n ==> requests[..n][i] == requests[i];
    }
  }

  lemma {:induction false} Latest(requests: seq<Request>) returns (latest: real)
    ensures forall i :: 0 <= i < |requests| ==> requests[i].now <= latest
  {
    latest := 0.0;
    if requests != [] {
      var n := |requests| - 1;
      latest := Latest(requests[..n]);
      latest := if requests[n].now > latest then requests[n].now else latest;
      assert forall i :: 0 <= i < n ==> requests[..n][i] == requests[i];
    }
  }

  /** With no bound on how late a reading may be: exactly when nothing at all was evicted. */
  lemma {:induction false} OncePerLifetimeIffNothingDropped(ttl: real, requests: seq<Request>)
    ensures NothingDropped(ttl, requests) <==>
      forall k, r :: 0 <= k <= |requests| ==> OncePerLifetime(ttl, requests[..k] + [r])
  {
    if NothingDropped(ttl, requests) {
      forall k, r | 0 <= k <= |requests|
        ensures OncePerLifetime(ttl, requests[..k] + [r])
      {
        var d := SomeLag(requests[..k] + [r]);
        assert NoEarlyDrop(ttl, d, requests);
        NoEarlyDropPrefix(ttl, d, requests, k);
        hide *;
        OnceIfNoEarlyDrop(ttl, d, requests[..k], r);
      }
    } else {
      var k, slot :| 0 <= k < |requests| && Dropped(ttl, requests, k, slot);
      AcceptedAgain(ttl, requests, k, slot);
    }
    hide *;
  }

  // ---- The same answers, whatever the times of issue ----

  lemma {:induction false} AllLive(cache: seq<Slot>, ttl: real, now: real)
    requires forall i :: 0 <= i < |cache| ==> !Expired(cache[i], ttl, now)
    ensures Live(cache, ttl, now) == cache
  {
    if cache != [] {
      assert forall i :: 0 <= i < |cache[1..]| ==> cache[1..][i] == cache[i + 1];
      AllLive(cache[1..], ttl, now);
    }
  }

  lemma LiveDrops(cache: seq<Slot>, ttl: real, now: real) returns (slot: Slot)
    requires UniqueIds(cache) && Live(cache, ttl, now) != cache
    ensures slot in cache && !Cached(Live(cache, ttl, now), slot.artifactId)
  {
    var live := Live(cache, ttl, now);
    if forall i :: 0 <= i < |cache| ==> !Expired(cache[i], ttl, now) {
      AllLive(cache, ttl, now);
    }
    var i :| 0 <= i < |cache| && Expired(cache[i], ttl, now);
    slot := cache[i];
    hide Live, Expired;
    forall j | 0 <= j < |live|
      ensures live[j].artifactId != slot.artifactId
    {
      LiveMembers(cache, ttl, now, live[j]);
      LiveMembers(cache, ttl, now, slot);
      assert live[j] in live;
    }
  }

  /** What eviction removes is gone with its id. */
  lemma EvictDrops(cache: seq<Slot>, ttl: real, now: real) returns (slot: Slot)
    requires UniqueIds(cache) && Evict(cache, ttl, now) != cache
    ensures slot in cache && !Cached(Evict(cache, ttl, now), slot.artifactId)
  {
    var live := Live(cache, ttl, now);
    if |live| >= EVICTION_THRESHOLD {
      OldestAreRemoved(live);
      slot := Oldest(live)[0];
      VictimIsGone(live, slot);
      LiveMembers(cache, ttl, now, slot);
      assert slot in live;
    } else {
      slot := LiveDrops(cache, ttl, now);
    }
    hide Live, Oldest, Without, Cached;
  }

  lemma EvictionShows(ttl: real, requests: seq<Request>, r: Request) returns (next: Request)
    requires After(true, ttl, requests) == After(false, ttl, requests)
    requires After(true, ttl, requests + [r]) != After(false, ttl, requests + [r])
    ensures !SameAnswer(ttl, requests + [r], next)
  {
    var s := After(false, ttl, requests);
    var cache := Added(s, r).cache;
    IdsStayUnique(false, ttl, requests);
    assert (requests + [r])[..|requests|] == requests;
    assert UniqueIds(cache);
    var slot := EvictDrops(cache, ttl, r.now);
    next := Request(slot.artifactId, 0.0, ttl);
    var i :| 0 <= i < |cache| && cache[i] == slot;
    assert Cached(cache, slot.artifactId);
    hide Evict, SequenceOf;
  }

  ghost predicate NothingEvicted(ttl: real, requests: seq<Request>) {
    forall k :: 0 <= k <= |requests| ==> After(true, ttl, requests[..k]) == After(false, ttl, requests[..k])
  }

  lemma {:induction false} NoticedOnceEvicted(ttl: real, requests: seq<Request>)
    requires forall k, r :: 0 <= k <= |requests| ==> SameAnswer(ttl, requests[..k], r)
    ensures NothingEvicted(ttl, requests)
  {
    if requests == [] {
      assert forall k :: 0 <= k <= |requests| ==> requests[..k] == [];
      return;
    }
    var n := |requests| - 1;
    var init, last := requests[..n], requests[n];
    assert forall k :: 0 <= k <= n ==> init[..k] == requests[..k];
    NoticedOnceEvicted(ttl, init);
    assert init[..n] == init && requests[..n + 1] == requests;
    assert After(true, ttl, init) == After(false, ttl, init) && requests == init + [last];
    hide After, SameAnswer;
    if After(true, ttl, requests) != After(false, ttl, requests) {
      var next := EvictionShows(ttl, init, last);
    }
  }

  /** When requests may carry any times of issue, such as the default one, every eviction can be noticed. */
  lemma UnnoticedIffNothingEvicted(ttl: real, requests: seq<Request>)
    ensures NothingEvicted(ttl, requests)
      <==> forall k, r :: 0 <= k <= |requests| ==> SameAnswer(ttl, requests[..k], r)
  {
    if forall k, r :: 0 <= k <= |requests| ==> SameAnswer(ttl, requests[..k], r) {
      NoticedOnceEvicted(ttl, requests);
    }
  }
}
