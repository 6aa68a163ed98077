/** Sums over sequences, which do not depend on the order. */
module Sums {

  function Sum<T>(s: seq<T>, f: T -> real): real {
    if s == [] then 0.0 else f(s[0]) + Sum(s[1..], f)
  }

  lemma {:induction false} SumRemove<T>(s: seq<T>, k: nat, f: T -> real)
    requires k < |s|
    ensures Sum(s, f) == f(s[k]) + Sum(s[..k] + s[k + 1..], f)
  {
    if k == 0 {
      assert s[..0] + s[1..] == s[1..];
    } else {
      SumRemove(s[1..], k - 1, f);
      assert (s[..k] + s[k + 1..])[1..] == s[1..][..k - 1] + s[1..][k..];
    }
  }

  lemma {:induction false} SumSnoc<T>(s: seq<T>, f: T -> real)
    requires s != []
    ensures Sum(s, f) == Sum(s[..|s| - 1], f) + f(s[|s| - 1])
  {
    SumRemove(s, |s| - 1, f);
    assert s[..|s| - 1] + s[|s|..] == s[..|s| - 1];
  }

  lemma MultisetRemove<T>(t: seq<T>, k: nat)
    requires k < |t|
    ensures multiset(t) == multiset(t[..k] + t[k + 1..]) + multiset{t[k]}
  {
    assert t == t[..k] + ([t[k]] + t[k + 1..]);
  }

  lemma {:induction false} SumPermutation<T>(s: seq<T>, t: seq<T>, f: T -> real)
    requires multiset(s) == multiset(t)
    ensures Sum(s, f) == Sum(t, f)
    decreases |s|
  {
    assert |s| == |multiset(s)| == |multiset(t)| == |t|;
    if s != [] {
      assert s[0] in multiset(t);
      var k :| 0 <= k < |t| && t[k] == s[0];
      assert s == [s[0]] + s[1..];
      MultisetRemove(t, k);
      assert multiset(s[1..]) == multiset(s) - multiset{s[0]};
      assert multiset(t[..k] + t[k + 1..]) == multiset(t) - multiset{t[k]};
      SumPermutation(s[1..], t[..k] + t[k + 1..], f);
      SumRemove(t, k, f);
    }
  }
}
