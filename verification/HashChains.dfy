/** Hash chains: each link hashes the head before it together with one item. */
module HashChains {
  import opened Digests

  /** How a head and the next item are put together before they are hashed. */
  type Encoding<!T> = (string, T) -> string

  function Head<T>(sha: HashFn, encode: Encoding<T>, genesis: string, items: seq<T>): string {
    if items == [] then genesis
    else sha(encode(Head(sha, encode, genesis, items[..|items| - 1]), items[|items| - 1]))
  }

  /** All heads but the genesis. */
  function Links<T>(sha: HashFn, encode: Encoding<T>, genesis: string, items: seq<T>): (links: seq<Digest>)
    ensures |links| == |items|
  {
    if items == [] then []
    else
      var init := items[..|items| - 1];
      Links(sha, encode, genesis, init) + [sha(encode(Head(sha, encode, genesis, init), items[|items| - 1]))]
  }

  ghost function ChainInputs<T>(sha: HashFn, encode: Encoding<T>, genesis: string, items: seq<T>): set<string> {
    if items == [] then {}
    else
      var init := items[..|items| - 1];
      ChainInputs(sha, encode, genesis, init) + {encode(Head(sha, encode, genesis, init), items[|items| - 1])}
  }

  /** Head and item can be read back from their encoding. */
  ghost predicate Decodable<T(!new)>(encode: Encoding<T>, genesis: string) {
    forall g, h, x, y :: IsHead(g, genesis) && IsHead(h, genesis) && encode(g, x) == encode(h, y) ==> g == h && x == y
  }

  predicate IsHead(h: string, genesis: string) {
    h == genesis || IsDigest(h)
  }

  lemma {:induction false} HeadIsHead<T>(sha: HashFn, encode: Encoding<T>, genesis: string, items: seq<T>)
    ensures IsHead(Head(sha, encode, genesis, items), genesis)
  {
  }

  lemma {:induction false} LinkAt<T>(sha: HashFn, encode: Encoding<T>, genesis: string, items: seq<T>, k: nat)
    requires k < |items|
    ensures Links(sha, encode, genesis, items)[k] == Head(sha, encode, genesis, items[..k + 1])
  {
    var init := items[..|items| - 1];
    if k < |init| {
      LinkAt(sha, encode, genesis, init, k);
      assert init[..k + 1] == items[..k + 1];
    } else {
      assert items[..k + 1] == items;
    }
  }

  /** Equal heads mean equal items in equal number. */
  lemma {:induction false} EqualHeads<T(!new)>(
    sha: HashFn, encode: Encoding<T>, genesis: string, a: seq<T>, b: seq<T>)
    requires Decodable(encode, genesis)
    requires InjectiveOn(sha, ChainInputs(sha, encode, genesis, a) + ChainInputs(sha, encode, genesis, b))
    requires forall s :: s in ChainInputs(sha, encode, genesis, a) + ChainInputs(sha, encode, genesis, b) ==>
      sha(s) != genesis
    ensures Head(sha, encode, genesis, a) == Head(sha, encode, genesis, b) <==> a == b
    decreases |a|
  {
    if Head(sha, encode, genesis, a) == Head(sha, encode, genesis, b) && a != [] && b != [] {
      var inits, lasts := (a[..|a| - 1], b[..|b| - 1]), (a[|a| - 1], b[|b| - 1]);
      HeadIsHead(sha, encode, genesis, inits.0);
      HeadIsHead(sha, encode, genesis, inits.1);
      var g, h := Head(sha, encode, genesis, inits.0), Head(sha, encode, genesis, inits.1);
      assert encode(g, lasts.0) == encode(h, lasts.1);
      EqualHeads(sha, encode, genesis, inits.0, inits.1);
      assert a == inits.0 + [lasts.0] && b == inits.1 + [lasts.1];
    } else if a == [] && b != [] {
      assert encode(Head(sha, encode, genesis, b[..|b| - 1]), b[|b| - 1]) in ChainInputs(sha, encode, genesis, b);
    } else if a != [] && b == [] {
      assert encode(Head(sha, encode, genesis, a[..|a| - 1]), a[|a| - 1]) in ChainInputs(sha, encode, genesis, a);
    }
  }
}
