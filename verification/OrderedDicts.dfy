/** Python dictionaries: key-value items in insertion order, each key once. */
module OrderedDicts {

  datatype Item<K, V> = Item(key: K, value: V)

  type Dict<K, V> = seq<Item<K, V>>

  ghost predicate UniqueKeys<K, V>(d: Dict<K, V>) {
    forall i, j :: 0 <= i < j < |d| ==> d[i].key != d[j].key
  }

  predicate Has<K(==), V>(d: Dict<K, V>, key: K) {
    exists i :: 0 <= i < |d| && d[i].key == key
  }

  function Get<K(==), V>(d: Dict<K, V>, key: K, default: V): V {
    if d == [] then default else if d[0].key == key then d[0].value else Get(d[1..], key, default)
  }

  /** Overwrites the value in place, or adds a new item at the end. */
  function Put<K(==), V>(d: Dict<K, V>, key: K, value: V): Dict<K, V> {
    if d == [] then [Item(key, value)]
    else if d[0].key == key then [Item(key, value)] + d[1..]
    else [d[0]] + Put(d[1..], key, value)
  }

  lemma {:induction false} PutEffect<K, V>(d: Dict<K, V>, key: K, value: V, other: K, default: V)
    ensures Has(Put(d, key, value), other) <==> other == key || Has(d, other)
    ensures Get(Put(d, key, value), other, default) == if other == key then value else Get(d, other, default)
  {
    var e := Put(d, key, value);
    if d != [] && d[0].key != key {
      PutEffect(d[1..], key, value, other, default);
      assert d == [d[0]] + d[1..] && e == [d[0]] + e[1..];
      assert Has(e, other) <==> e[0].key == other || Has(e[1..], other);
      assert Has(d, other) <==> d[0].key == other || Has(d[1..], other);
    } else {
      assert e[0] == Item(key, value);
      assert Has(e, other) <==> e[0].key == other || Has(e[1..], other);
      assert d != [] ==> (Has(d, other) <==> d[0].key == other || Has(d[1..], other));
    }
  }

  /** A new key goes to the end. */
  lemma {:induction false} PutNew<K, V>(d: Dict<K, V>, key: K, value: V)
    requires !Has(d, key)
    ensures Put(d, key, value) == d + [Item(key, value)]
  {
    if d != [] {
      assert d[0].key != key;
      assert forall i :: 0 <= i < |d[1..]| ==> d[1..][i] == d[i + 1];
      PutNew(d[1..], key, value);
    }
  }

  /** An overwritten key keeps its place, and so do all others. */
  lemma {:induction false} PutKeepsOrder<K, V>(d: Dict<K, V>, key: K, value: V, i: nat)
    requires i < |d|
    ensures i < |Put(d, key, value)| && Put(d, key, value)[i].key == d[i].key
    ensures |Put(d, key, value)| == if Has(d, key) then |d| else |d| + 1
  {
    if d[0].key != key {
      assert forall j :: 0 < j < |d| ==> d[j] == d[1..][j - 1];
      assert Has(d, key) <==> Has(d[1..], key);
      if |d| > 1 {
        PutKeepsOrder(d[1..], key, value, if i > 0 then i - 1 else 0);
      }
    }
  }

  lemma {:induction false} PutKeepsUnique<K, V>(d: Dict<K, V>, key: K, value: V)
    requires UniqueKeys(d)
    ensures UniqueKeys(Put(d, key, value))
  {
    if d != [] && d[0].key != key {
      PutKeepsUnique(d[1..], key, value);
      var e := Put(d[1..], key, value);
      forall i | 0 <= i < |e|
        ensures e[i].key != d[0].key
      {
        PutEffect(d[1..], key, value, e[i].key, value);
        assert Has(e, e[i].key);
      }
    }
  }

  lemma {:induction false} GetStored<K, V>(d: Dict<K, V>, key: K)
    requires Has(d, key)
    ensures forall a, b :: Get(d, key, a) == Get(d, key, b)
  {
    if d[0].key != key {
      var i :| 0 <= i < |d| && d[i].key == key;
      assert d[1..][i - 1].key == key;
      GetStored(d[1..], key);
    }
  }

  function Keys<K(==), V>(d: Dict<K, V>): set<K> {
    if d == [] then {} else {d[0].key} + Keys(d[1..])
  }

  lemma {:induction false} KeysAreHas<K, V>(d: Dict<K, V>, key: K)
    ensures key in Keys(d) <==> Has(d, key)
  {
    if d != [] {
      KeysAreHas(d[1..], key);
      assert d == [d[0]] + d[1..];
    }
  }

  lemma {:induction false} KeyCount<K, V>(d: Dict<K, V>)
    requires UniqueKeys(d)
    ensures |Keys(d)| == |d|
  {
    if d != [] {
      var tail := d[1..];
      assert forall i :: 0 <= i < |tail| ==> tail[i] == d[i + 1];
      KeyCount(tail);
      KeysAreHas(tail, d[0].key);
    }
  }

  lemma {:induction false} KeysMinusKeys<K, V, W>(all: Dict<K, V>, part: Dict<K, W>)
    requires UniqueKeys(all) && UniqueKeys(part)
    requires forall i :: 0 <= i < |part| ==> Has(all, part[i].key)
    ensures |all| - |part| == |Keys(all) - Keys(part)|
  {
    KeyCount(all);
    KeyCount(part);
    forall key | key in Keys(part)
      ensures key in Keys(all)
    {
      KeysAreHas(part, key);
      KeysAreHas(all, key);
    }
  }

  // ---- Dictionaries of coefficients ----

  type Coefficients<K> = Dict<K, real>

  /** `d[key] += c` when the key is present, `d[key] = c` otherwise. */
  function Accumulate<K(==)>(d: Coefficients<K>, key: K, c: real): Coefficients<K> {
    Put(d, key, if Has(d, key) then Get(d, key, 0.0) + c else c)
  }

  /** Coefficient of a key; a missing key counts as 0. */
  function Coefficient<K(==)>(d: Coefficients<K>, key: K): real {
    Get(d, key, 0.0)
  }

  /** A product under a name, so that a proof about sums can leave it folded. */
  function Times(a: real, b: real): real {
    a * b
  }

  lemma TimesSum(a: real, b: real, c: real)
    ensures Times(a, b + c) == Times(a, b) + Times(a, c)
    ensures Times(b + c, a) == Times(b, a) + Times(c, a)
  {
  }

  /** The weighted sum of all coefficients. */
  function Total<K>(d: Coefficients<K>, weight: K -> real): real {
    if d == [] then 0.0 else Times(d[0].value, weight(d[0].key)) + Total(d[1..], weight)
  }

  lemma {:induction false} MissingIsZero<K>(d: Coefficients<K>, key: K)
    requires !Has(d, key)
    ensures Coefficient(d, key) == 0.0
  {
    if d != [] {
      assert d[0].key != key;
      assert forall i :: 0 <= i < |d[1..]| ==> d[1..][i] == d[i + 1];
      MissingIsZero(d[1..], key);
    }
  }

  lemma {:induction false} TotalPut<K>(d: Coefficients<K>, key: K, c: real, weight: K -> real)
    ensures Total(Put(d, key, Coefficient(d, key) + c), weight) == Total(d, weight) + Times(c, weight(key))
  {
    hide Times;
    if d != [] && d[0].key != key {
      TotalPut(d[1..], key, c, weight);
    } else {
      TimesSum(weight(key), Coefficient(d, key), c);
      TimesZero(weight(key));
    }
  }

  lemma TimesZero(a: real)
    ensures Times(0.0, a) == 0.0
  {
  }

  lemma TotalAccumulate<K>(d: Coefficients<K>, key: K, c: real, weight: K -> real)
    ensures Total(Accumulate(d, key, c), weight) == Total(d, weight) + Times(c, weight(key))
  {
    if !Has(d, key) {
      MissingIsZero(d, key);
    }
    TotalPut(d, key, c, weight);
  }
}
