/** SHA-256 hex digests and the hash function that produces them.

    The hash function is a value that every client takes as a parameter.  A result that rests on
    collision resistance assumes injectivity on the finite set of strings that the operations in
    question hash, so two different inputs that slip through would be a collision inside that set. */
module Digests {

  predicate IsHexDigit(c: char) {
    '0' <= c <= '9' || 'a' <= c <= 'f'
  }

  /** What the model uses of the string that `hexdigest()` returns: it has 64 characters and starts
      with a lower-case hexadecimal digit.  Every result therefore holds for a wider class of hash
      functions than SHA-256. */
  predicate IsDigest(s: string) {
    |s| == 64 && IsHexDigit(s[0])
  }

  type Digest = s: string | IsDigest(s) witness seq(64, _ => '0')

  type HashFn = string -> Digest

  ghost predicate InjectiveOn(sha: HashFn, inputs: set<string>) {
    forall a, b :: a in inputs && b in inputs && sha(a) == sha(b) ==> a == b
  }

  /** Concatenated digests can be taken apart again. */
  lemma SplitDigests(a: Digest, b: string, c: Digest, d: string)
    requires a + b == c + d
    ensures a == c && b == d
  {
    assert a == (a + b)[..64] && c == (c + d)[..64];
    assert b == (a + b)[64..] && d == (c + d)[64..];
  }

  /** The text of a JSON object is never two digests put together. */
  lemma ObjectIsNoPair(text: string, a: string, b: string)
    requires |text| > 0 && text[0] == '{' && IsDigest(a)
    ensures text != a + b
  {
    assert (a + b)[0] == a[0];
  }
}
