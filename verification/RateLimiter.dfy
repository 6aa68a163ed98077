/** The gateway's token bucket, and exactly which calls it allows. */
module RateLimiter {

  datatype Bucket = Bucket(tokens: real, last: real)

  /** The tokens that come in over a time: capacity / 60 per second. */
  function Refill(capacity: nat, seconds: real): real {
    seconds * (capacity as real / 60.0)
  }

  lemma RefillAdds(capacity: nat, a: real, b: real)
    ensures Refill(capacity, a + b) == Refill(capacity, a) + Refill(capacity, b)
    ensures Refill(capacity, 0.0) == 0.0
  {
  }

  lemma RefillIsMonotone(capacity: nat, a: real, b: real)
    requires a >= b
    ensures Refill(capacity, a) >= Refill(capacity, b)
    ensures capacity > 0 ==> Refill(capacity, 60.0 / capacity as real) == 1.0
  {
    var rate := capacity as real / 60.0;
    assert (a - b) * rate >= 0.0;
    assert a * rate - b * rate == (a - b) * rate;
  }

  /** The tokens at time `now`, before a call takes one. */
  function Refilled(capacity: nat, b: Bucket, now: real): real {
    var tokens := b.tokens + Refill(capacity, now - b.last);
    if tokens < capacity as real then tokens else capacity as real
  }

  function Take(capacity: nat, b: Bucket, now: real): Bucket {
    var tokens := Refilled(capacity, b, now);
    Bucket(if tokens >= 1.0 then tokens - 1.0 else tokens, now)
  }

  class TokenBucket {
    const capacity: nat
    var bucket: Bucket

    ghost predicate Valid()
      reads this
    {
      0.0 <= bucket.tokens <= capacity as real
    }

    /** Starts full. */
    constructor (perMinute: nat, now: real)
      ensures Valid() && capacity == perMinute && bucket == Bucket(perMinute as real, now)
    {
      capacity := perMinute;
      bucket := Bucket(perMinute as real, now);
    }

    /** `now` comes from a monotonic clock. */
    method Allow(now: real) returns (allowed: bool)
      requires Valid() && now >= bucket.last
      modifies this
      ensures Valid()
      ensures bucket == Take(capacity, old(bucket), now)
      ensures allowed <==> Refilled(capacity, old(bucket), now) >= 1.0
      ensures var refilled := old(bucket.tokens) + (now - old(bucket.last)) * (capacity as real / 60.0);
        && (allowed <==> refilled >= 1.0 && capacity >= 1)
        && bucket.last == now
        && bucket.tokens + (if allowed then 1.0 else 0.0)
           == if refilled <= capacity as real then refilled else capacity as real
    {
      TokensInRange(capacity, bucket, now);
      var tokens := bucket.tokens + Refill(capacity, now - bucket.last);
      if tokens > capacity as real {
        tokens := capacity as real;
      }
      if tokens >= 1.0 {
        bucket := Bucket(tokens - 1.0, now);
        allowed := true;
      } else {
        bucket := Bucket(tokens, now);
        allowed := false;
      }
    }
  }

  lemma TokensInRange(capacity: nat, b: Bucket, now: real)
    requires 0.0 <= b.tokens <= capacity as real && now >= b.last
    ensures b.tokens <= Refilled(capacity, b, now) <= capacity as real
    ensures 0.0 <= Take(capacity, b, now).tokens <= capacity as real
  {
    RefillIsMonotone(capacity, now - b.last, 0.0);
    RefillAdds(capacity, 0.0, 0.0);
    hide Refill;
  }

  // ---- Runs of calls ----

  /** A clock that never goes back, from the time the bucket was created. */
  ghost predicate Clock(start: real, times: seq<real>) {
    && (forall i :: 0 <= i < |times| ==> start <= times[i])
    && (forall i, j :: 0 <= i < j < |times| ==> times[i] <= times[j])
  }

  /** The bucket after all given calls. */
  function After(capacity: nat, start: real, times: seq<real>): Bucket {
    if times == [] then Bucket(capacity as real, start)
    else Take(capacity, After(capacity, start, times[..|times| - 1]), times[|times| - 1])
  }

  function Available(capacity: nat, start: real, times: seq<real>, j: nat): real
    requires j < |times|
  {
    Refilled(capacity, After(capacity, start, times[..j]), times[j])
  }

  predicate Allowed(capacity: nat, start: real, times: seq<real>, j: nat)
    requires j < |times|
  {
    Available(capacity, start, times, j) >= 1.0
  }

  /** How many of the calls i, ..., j-1 were allowed. */
  function Granted(capacity: nat, start: real, times: seq<real>, i: nat, j: nat): nat
    requires i <= j <= |times|
  {
    if i == j then 0
    else Granted(capacity, start, times, i, j - 1) + if Allowed(capacity, start, times, j - 1) then 1 else 0
  }

  /** What the bound for the window from call i to call j leaves for call j. */
  function Allowance(capacity: nat, start: real, times: seq<real>, i: nat, j: nat): real
    requires i <= j < |times|
  {
    capacity as real + Refill(capacity, times[j] - times[i]) - Granted(capacity, start, times, i, j) as real
  }

  lemma {:induction false} BucketInRange(capacity: nat, start: real, times: seq<real>)
    requires Clock(start, times)
    ensures 0.0 <= After(capacity, start, times).tokens <= capacity as real
    ensures After(capacity, start, times).last == if times == [] then start else times[|times| - 1]
  {
    if times != [] {
      var init := times[..|times| - 1];
      BucketInRange(capacity, start, init);
      TokensInRange(capacity, After(capacity, start, init), times[|times| - 1]);
    }
  }

  /** From one call to the next, the available tokens lose what was taken and gain the refill, up to the cap. */
  lemma AvailableStep(capacity: nat, start: real, times: seq<real>, j: nat)
    requires Clock(start, times) && 0 < j < |times|
    ensures var uncapped := Available(capacity, start, times, j - 1)
                            - (if Allowed(capacity, start, times, j - 1) then 1.0 else 0.0)
                            + Refill(capacity, times[j] - times[j - 1]);
      Available(capacity, start, times, j) == if uncapped < capacity as real then uncapped else capacity as real
  {
    hide Refill;
    assert times[..j][..j - 1] == times[..j - 1];
    BucketInRange(capacity, start, times[..j - 1]);
  }

  lemma AvailableFirst(capacity: nat, start: real, times: seq<real>)
    requires Clock(start, times) && |times| > 0
    ensures Available(capacity, start, times, 0) == capacity as real
  {
    RefillIsMonotone(capacity, times[0] - start, 0.0);
    RefillAdds(capacity, 0.0, 0.0);
    hide Refill;
  }

  lemma AllowanceStep(capacity: nat, start: real, times: seq<real>, i: nat, j: nat)
    requires i < j < |times|
    ensures Allowance(capacity, start, times, i, j)
      == Allowance(capacity, start, times, i, j - 1)
         - (if Allowed(capacity, start, times, j - 1) then 1.0 else 0.0)
         + Refill(capacity, times[j] - times[j - 1])
  {
    RefillAdds(capacity, times[j - 1] - times[i], times[j] - times[j - 1]);
    hide Refill, Allowed;
  }

  lemma {:induction false} AvailableIsBounded(capacity: nat, start: real, times: seq<real>, i: nat, j: nat)
    requires Clock(start, times) && i <= j < |times|
    ensures Available(capacity, start, times, j) <= Allowance(capacity, start, times, i, j)
  {
    hide Available, Allowance, Allowed;
    if i < j {
      AvailableIsBounded(capacity, start, times, i, j - 1);
      AvailableStep(capacity, start, times, j);
      AllowanceStep(capacity, start, times, i, j);
    } else {
      AllowanceOfOwnCall(capacity, start, times, j);
    }
  }

  lemma AllowanceOfOwnCall(capacity: nat, start: real, times: seq<real>, j: nat)
    requires Clock(start, times) && j < |times|
    ensures Available(capacity, start, times, j) <= Allowance(capacity, start, times, j, j) == capacity as real
  {
    RefillAdds(capacity, 0.0, 0.0);
    hide Refill;
  }

  /** Some window leaves exactly the tokens that are available. */
  lemma {:induction false} AvailableIsAttained(capacity: nat, start: real, times: seq<real>, j: nat) returns (i: nat)
    requires Clock(start, times) && j < |times|
    ensures i <= j && Available(capacity, start, times, j) == Allowance(capacity, start, times, i, j)
  {
    AllowanceOfOwnCall(capacity, start, times, j);
    hide Available, Allowance, Allowed;
    if j == 0 {
      AvailableFirst(capacity, start, times);
      i := 0;
    } else {
      AvailableStep(capacity, start, times, j);
      if Available(capacity, start, times, j) == capacity as real {
        i := j;
      } else {
        i := AvailableIsAttained(capacity, start, times, j - 1);
        AllowanceStep(capacity, start, times, i, j);
      }
    }
  }

  /** Allowing call j as well would keep the calls i, ..., j within
      capacity + (time between them) * capacity / 60. */
  predicate WindowPermits(capacity: nat, start: real, times: seq<real>, i: nat, j: nat)
    requires i <= j < |times|
  {
    Granted(capacity, start, times, i, j) as real + 1.0 <= capacity as real + Refill(capacity, times[j] - times[i])
  }

  /** A call is allowed exactly when every window that ends with it permits it. */
  lemma AllowedIffWindowsPermit(capacity: nat, start: real, times: seq<real>, j: nat)
    requires Clock(start, times) && j < |times|
    ensures Allowed(capacity, start, times, j) <==>
      forall i :: 0 <= i <= j ==> WindowPermits(capacity, start, times, i, j)
  {
    hide Refill, Available, Granted, Clock;
    if Allowed(capacity, start, times, j) {
      forall i | 0 <= i <= j
        ensures WindowPermits(capacity, start, times, i, j)
      {
        AvailableIsBounded(capacity, start, times, i, j);
      }
    } else {
      var i := AvailableIsAttained(capacity, start, times, j);
      assert !WindowPermits(capacity, start, times, i, j);
    }
  }

  /** Hence no window of calls ever exceeds its bound. */
  lemma WindowBound(capacity: nat, start: real, times: seq<real>, i: nat, j: nat)
    requires Clock(start, times) && i <= j < |times|
    ensures Granted(capacity, start, times, i, j + 1) as real
      <= capacity as real + Refill(capacity, times[j] - times[i])
  {
    hide Refill, After;
    BucketInRange(capacity, start, times[..j]);
    TokensInRange(capacity, After(capacity, start, times[..j]), times[j]);
    AvailableIsBounded(capacity, start, times, i, j);
  }

  /** A caller that waits 60/capacity seconds after the previous call is always allowed, and so is the first one. */
  lemma PatientCallerIsAllowed(capacity: nat, start: real, times: seq<real>, j: nat)
    requires Clock(start, times) && j < |times| && capacity >= 1
    requires j == 0 || times[j] - times[j - 1] >= 60.0 / capacity as real
    ensures Allowed(capacity, start, times, j)
  {
    if j == 0 {
      AvailableFirst(capacity, start, times);
    } else {
      BucketInRange(capacity, start, times[..j]);
      RefillIsMonotone(capacity, times[j] - times[j - 1], 60.0 / capacity as real);
      hide Refill, After;
    }
  }
}
