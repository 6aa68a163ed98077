/** Merkle trees over leaf digests: what a tree, its root and an inclusion proof are. */
module MerkleTree {
  import opened Digests

  function Parent(sha: HashFn, left: string, right: string): Digest {
    sha(left + right)
  }

  /** The node hashed together with node 2*j: its right neighbour, or itself at an odd end. */
  function Partner(level: seq<Digest>, j: nat): Digest
    requires 2 * j < |level|
  {
    if 2 * j + 1 < |level| then level[2 * j + 1] else level[2 * j]
  }

  /** The first `m` nodes of the level above. */
  function FirstParents(sha: HashFn, level: seq<Digest>, m: nat): (parents: seq<Digest>)
    requires m <= (|level| + 1) / 2
    ensures |parents| == m
  {
    if m == 0 then [] else FirstParents(sha, level, m - 1) + [Parent(sha, level[2 * (m - 1)], Partner(level, m - 1))]
  }

  function NextLevel(sha: HashFn, level: seq<Digest>): (above: seq<Digest>)
    ensures |above| == (|level| + 1) / 2
  {
    FirstParents(sha, level, (|level| + 1) / 2)
  }

  lemma {:induction false} FirstParentsAt(sha: HashFn, level: seq<Digest>, m: nat, j: nat)
    requires j < m <= (|level| + 1) / 2
    ensures FirstParents(sha, level, m)[j] == Parent(sha, level[2 * j], Partner(level, j))
  {
    if j < m - 1 {
      FirstParentsAt(sha, level, m - 1, j);
    }
  }

  lemma ParentAt(sha: HashFn, level: seq<Digest>, j: nat)
    requires 2 * j < |level|
    ensures NextLevel(sha, level)[j] == Parent(sha, level[2 * j], Partner(level, j))
  {
    FirstParentsAt(sha, level, (|level| + 1) / 2, j);
  }

  /** A level as it is stored: an odd level other than the root repeats its last node. */
  function Padded(level: seq<Digest>): seq<Digest> {
    if |level| > 1 && |level| % 2 == 1 then level + [level[|level| - 1]] else level
  }

  /** All levels, leaves first. */
  function Tree(sha: HashFn, leaves: seq<Digest>): seq<seq<Digest>>
    decreases |leaves|
  {
    if |leaves| == 0 then []
    else if |leaves| == 1 then [leaves]
    else [Padded(leaves)] + Tree(sha, NextLevel(sha, leaves))
  }

  /** The root alone, without storing levels. */
  function Root(sha: HashFn, leaves: seq<Digest>): Digest
    requires |leaves| > 0
    decreases |leaves|
  {
    if |leaves| == 1 then leaves[0] else Root(sha, NextLevel(sha, leaves))
  }

  /** The k-th level above the leaves, without padding. */
  function Level(sha: HashFn, leaves: seq<Digest>, k: nat): seq<Digest>
    decreases k
  {
    if k == 0 then leaves else Level(sha, NextLevel(sha, leaves), k - 1)
  }

  function CeilLog2(n: nat): nat {
    if n <= 1 then 0 else 1 + CeilLog2((n + 1) / 2)
  }

  function Pow2(k: nat): nat {
    if k == 0 then 1 else 2 * Pow2(k - 1)
  }

  lemma {:induction false} CeilLog2IsCeiling(n: nat)
    requires n >= 1
    ensures n <= Pow2(CeilLog2(n))
    ensures n > 1 ==> Pow2(CeilLog2(n) - 1) < n
  {
    if n > 2 {
      CeilLog2IsCeiling((n + 1) / 2);
    }
  }

  lemma {:induction false} LevelStep(sha: HashFn, leaves: seq<Digest>, k: nat)
    ensures Level(sha, leaves, k + 1) == NextLevel(sha, Level(sha, leaves, k))
    decreases k
  {
    if k > 0 {
      LevelStep(sha, NextLevel(sha, leaves), k - 1);
    }
  }

  /** The number of levels is logarithmic in the number of leaves. */
  lemma {:induction false} TreeHeight(sha: HashFn, leaves: seq<Digest>)
    requires |leaves| > 0
    ensures |Tree(sha, leaves)| == CeilLog2(|leaves|) + 1
    decreases |leaves|
  {
    hide NextLevel;
    if |leaves| > 1 {
      TreeHeight(sha, NextLevel(sha, leaves));
    }
  }

  /** Every stored level is the padded level; only the last one is a single node, the root. */
  lemma {:induction false} TreeLevel(sha: HashFn, leaves: seq<Digest>, k: nat)
    requires |leaves| > 0 && k < |Tree(sha, leaves)|
    ensures Tree(sha, leaves)[k] == Padded(Level(sha, leaves, k))
    ensures k < |Tree(sha, leaves)| - 1 <==> |Level(sha, leaves, k)| > 1
    ensures k == |Tree(sha, leaves)| - 1 ==> Level(sha, leaves, k) == [Root(sha, leaves)]
    decreases k
  {
    hide NextLevel;
    if |leaves| > 1 {
      var above := NextLevel(sha, leaves);
      assert Tree(sha, leaves) == [Padded(leaves)] + Tree(sha, above);
      if k > 0 {
        TreeLevel(sha, above, k - 1);
        assert Tree(sha, leaves)[k] == Tree(sha, above)[k - 1];
      } else {
        TreeHeight(sha, above);
      }
    }
  }

  /** A list of levels with the shape of a tree is the tree. */
  lemma TreeFromLevels(sha: HashFn, leaves: seq<Digest>, levels: seq<seq<Digest>>)
    requires |leaves| > 0 && |levels| > 0
    requires forall k :: 0 <= k < |levels| ==> levels[k] == Padded(Level(sha, leaves, k))
    requires forall k :: 0 <= k < |levels| - 1 ==> |Level(sha, leaves, k)| > 1
    requires |Level(sha, leaves, |levels| - 1)| == 1
    ensures levels == Tree(sha, leaves)
  {
    var tree := Tree(sha, leaves);
    TreeLevel(sha, leaves, if |levels| < |tree| then |levels| - 1 else |tree| - 1);
    assert |levels| == |tree|;
    forall k | 0 <= k < |tree|
      ensures levels[k] == tree[k]
    {
      TreeLevel(sha, leaves, k);
    }
  }

  // ---- Building from scratch ----

  /** The levels below `m` are in their final, padded form and none of them is a root. */
  ghost predicate FinishedBelow(sha: HashFn, leaves: seq<Digest>, levels: seq<seq<Digest>>, m: nat)
    requires m <= |levels|
  {
    forall k :: 0 <= k < m ==> levels[k] == Padded(Level(sha, leaves, k)) && |Level(sha, leaves, k)| > 1
  }

  /** Padding the last level and adding the one above it finishes one more level. */
  lemma PushLevel(sha: HashFn, leaves: seq<Digest>, levels: seq<seq<Digest>>, taller: seq<seq<Digest>>)
    requires 0 < |levels| == |taller| - 1 && FinishedBelow(sha, leaves, levels, |levels| - 1)
    requires levels[|levels| - 1] == Level(sha, leaves, |levels| - 1) && |levels[|levels| - 1]| > 1
    requires forall k :: 0 <= k < |levels| - 1 ==> taller[k] == levels[k]
    requires taller[|levels| - 1] == Padded(levels[|levels| - 1])
    requires taller[|levels|] == NextLevel(sha, levels[|levels| - 1])
    ensures FinishedBelow(sha, leaves, taller, |levels|) && taller[|levels|] == Level(sha, leaves, |levels|)
  {
    hide NextLevel;
    LevelStep(sha, leaves, |levels| - 1);
  }

  lemma {:induction false} FinishedIsTree(sha: HashFn, leaves: seq<Digest>, levels: seq<seq<Digest>>)
    requires |leaves| > 0 && |levels| > 0 && FinishedBelow(sha, leaves, levels, |levels| - 1)
    requires levels[|levels| - 1] == Level(sha, leaves, |levels| - 1) && |levels[|levels| - 1]| == 1
    ensures levels == Tree(sha, leaves)
  {
    TreeFromLevels(sha, leaves, levels);
  }

  method HashPairs(sha: HashFn, ghost level: seq<Digest>, working: seq<Digest>) returns (nextLevel: seq<Digest>)
    requires |level| > 1 && working == Padded(level)
    ensures nextLevel == NextLevel(sha, level)
  {
    nextLevel := [];
    var i := 0;
    while i < |working|
      invariant 0 <= i <= |working| && i == 2 * |nextLevel|
      invariant nextLevel == FirstParents(sha, level, |nextLevel|)
    {
      assert working[i + 1] == Partner(level, |nextLevel|);
      nextLevel := nextLevel + [Parent(sha, working[i], working[i + 1])];
      i := i + 2;
    }
  }

  method BuildMerkleTree(sha: HashFn, leaves: seq<Digest>) returns (levels: seq<seq<Digest>>)
    ensures levels == Tree(sha, leaves)
  {
    hide NextLevel;
    if leaves == [] {
      return [];
    }
    var working := leaves;
    levels := [working];
    while |working| > 1
      invariant 0 < |levels| && |working| > 0
      invariant levels[|levels| - 1] == working == Level(sha, leaves, |levels| - 1)
      invariant FinishedBelow(sha, leaves, levels, |levels| - 1)
      decreases |working|
    {
      ghost var level, lower := working, levels;
      if |working| % 2 == 1 {
        working := working + [working[|working| - 1]];
        levels := levels[|levels| - 1 := working];
      }
      working := HashPairs(sha, level, working);
      PushLevel(sha, leaves, lower, levels + [working]);
      levels := levels + [working];
    }
    FinishedIsTree(sha, leaves, levels);
  }

  // ---- Inclusion proofs ----

  datatype Side = Left | Right

  datatype ProofStep = ProofStep(sibling: string, side: Side)

  /** Every index of a level leads to an index of the level above. */
  ghost predicate Shaped(levels: seq<seq<Digest>>) {
    forall k :: 0 <= k < |levels| - 1 ==> 0 < |levels[k]| <= 2 * |levels[k + 1]|
  }

  function StepAt(level: seq<Digest>, idx: nat): ProofStep
    requires idx < |level|
  {
    if idx % 2 == 0 then ProofStep(Partner(level, idx / 2), Right) else ProofStep(level[idx - 1], Left)
  }

  function ProofPath(levels: seq<seq<Digest>>, idx: nat): seq<ProofStep>
    requires Shaped(levels) && |levels| > 0 && idx < |levels[0]|
    decreases |levels|
  {
    if |levels| == 1 then []
    else
      assert |levels[0]| <= 2 * |levels[1]|;
      [StepAt(levels[0], idx)] + ProofPath(levels[1..], idx / 2)
  }

  method SiblingOf(level: seq<Digest>, idx: nat) returns (step: ProofStep)
    requires idx < |level|
    ensures step == StepAt(level, idx)
  {
    var padded := level;
    if |padded| % 2 == 1 {
      padded := padded + [padded[|padded| - 1]];
    }
    var siblingIdx, side := if idx % 2 == 0 then idx + 1 else idx - 1, if idx % 2 == 0 then Right else Left;
    step := ProofStep(padded[siblingIdx], side);
  }

  method MerkleProof(tree: seq<seq<Digest>>, leafIndex: int) returns (proof: seq<ProofStep>)
    requires Shaped(tree)
    ensures proof == if |tree| > 0 && 0 <= leafIndex < |tree[0]| then ProofPath(tree, leafIndex) else []
  {
    proof := [];
    if tree == [] || leafIndex < 0 || leafIndex >= |tree[0]| {
      return;
    }
    var idx, rest := leafIndex, tree;
    while |rest| > 1
      invariant |rest| > 0 && Shaped(rest) && 0 <= idx < |rest[0]|
      invariant proof + ProofPath(rest, idx) == ProofPath(tree, leafIndex)
      decreases |rest|
    {
      assert |rest[0]| <= 2 * |rest[1]|;
      var step := SiblingOf(rest[0], idx);
      proof, idx, rest := proof + [step], idx / 2, rest[1..];
    }
  }

  function StepInput(current: string, step: ProofStep): string {
    if step.side.Right? then current + step.sibling else step.sibling + current
  }

  function Fold(sha: HashFn, leaf: string, proof: seq<ProofStep>): string
    decreases |proof|
  {
    if proof == [] then leaf else Fold(sha, sha(StepInput(leaf, proof[0])), proof[1..])
  }

  method VerifyMerkleProof(sha: HashFn, leafHash: string, proof: seq<ProofStep>, expectedRoot: string)
    returns (ok: bool)
    ensures ok <==> Fold(sha, leafHash, proof) == expectedRoot
  {
    var current := leafHash;
    for k := 0 to |proof|
      invariant Fold(sha, current, proof[k..]) == Fold(sha, leafHash, proof)
    {
      assert proof[k..][1..] == proof[k + 1..];
      if proof[k].side.Right? {
        current := Parent(sha, current, proof[k].sibling);
      } else {
        current := Parent(sha, proof[k].sibling, current);
      }
    }
    ok := current == expectedRoot;
  }

  lemma {:induction false} TreeIsShaped(sha: HashFn, leaves: seq<Digest>)
    ensures Shaped(Tree(sha, leaves))
    ensures |leaves| > 0 ==> Tree(sha, leaves)[0] == Padded(leaves)
    decreases |leaves|
  {
    hide NextLevel;
    if |leaves| > 1 {
      var tree, above := Tree(sha, leaves), NextLevel(sha, leaves);
      TreeIsShaped(sha, above);
      forall k | 0 <= k < |tree| - 1
        ensures 0 < |tree[k]| <= 2 * |tree[k + 1]|
      {
        assert tree[k + 1] == Tree(sha, above)[k];
        assert k > 0 ==> tree[k] == Tree(sha, above)[k - 1];
      }
    }
  }

  lemma StepClimbs(sha: HashFn, leaves: seq<Digest>, idx: nat)
    requires |leaves| > 1 && idx < |Padded(leaves)|
    ensures idx / 2 < |NextLevel(sha, leaves)|
    ensures sha(StepInput(Padded(leaves)[idx], StepAt(Padded(leaves), idx))) == NextLevel(sha, leaves)[idx / 2]
  {
    ParentAt(sha, leaves, idx / 2);
  }

  /** The generated proof has one step per level below the root and leads from its leaf to the root. */
  lemma {:induction false} GeneratedProofVerifies(sha: HashFn, leaves: seq<Digest>, idx: nat)
    requires |leaves| > 0 && idx < |Padded(leaves)|
    ensures Shaped(Tree(sha, leaves)) && Tree(sha, leaves)[0] == Padded(leaves)
    ensures |ProofPath(Tree(sha, leaves), idx)| == |Tree(sha, leaves)| - 1
    ensures Fold(sha, Padded(leaves)[idx], ProofPath(Tree(sha, leaves), idx)) == Root(sha, leaves)
    decreases |leaves|
  {
    hide NextLevel;
    TreeIsShaped(sha, leaves);
    if |leaves| > 1 {
      var tree, above := Tree(sha, leaves), NextLevel(sha, leaves);
      assert tree == [Padded(leaves)] + Tree(sha, above);
      assert tree[1..] == Tree(sha, above);
      StepClimbs(sha, leaves, idx);
      GeneratedProofVerifies(sha, above, idx / 2);
      assert Padded(above)[idx / 2] == above[idx / 2];
      assert ProofPath(tree, idx) == [StepAt(tree[0], idx)] + ProofPath(tree[1..], idx / 2);
    }
  }

  /** The strings that verifying a proof hashes. */
  function FoldInputs(sha: HashFn, leaf: string, proof: seq<ProofStep>): set<string>
    decreases |proof|
  {
    if proof == [] then {}
    else {StepInput(leaf, proof[0])} + FoldInputs(sha, sha(StepInput(leaf, proof[0])), proof[1..])
  }

  ghost predicate SameSides(p: seq<ProofStep>, q: seq<ProofStep>) {
    |p| == |q| && forall k :: 0 <= k < |p| ==> p[k].side == q[k].side
  }

  /** Two proofs for the same position that reach the same root start at the same leaf and are equal. */
  lemma {:induction false} FoldInjective(
    sha: HashFn, x: Digest, p: seq<ProofStep>, y: Digest, q: seq<ProofStep>)
    requires SameSides(p, q)
    requires Fold(sha, x, p) == Fold(sha, y, q)
    requires InjectiveOn(sha, FoldInputs(sha, x, p) + FoldInputs(sha, y, q))
    ensures x == y && p == q
    decreases |p|
  {
    if p == [] {
    } else {
      var a, b := StepInput(x, p[0]), StepInput(y, q[0]);
      FoldInjective(sha, sha(a), p[1..], sha(b), q[1..]);
      assert a == b;
      if p[0].side.Right? {
        SplitDigests(x, p[0].sibling, y, q[0].sibling);
      } else {
        assert p[0].sibling == a[..|a| - 64] && q[0].sibling == b[..|b| - 64];
        assert x == a[|a| - 64..] && y == b[|b| - 64..];
      }
      assert p == [p[0]] + p[1..] && q == [q[0]] + q[1..];
    }
  }

  function GeneratedProof(sha: HashFn, leaves: seq<Digest>, idx: nat): seq<ProofStep>
    requires idx < |leaves|
  {
    TreeIsShaped(sha, leaves);
    ProofPath(Tree(sha, leaves), idx)
  }

  /** At a given position of a tree, no proof whatsoever is accepted for another leaf. */
  lemma {:induction false} OnlyTheLeafVerifies(
    sha: HashFn, leaves: seq<Digest>, idx: nat, x: Digest, proof: seq<ProofStep>)
    requires idx < |leaves| && SameSides(proof, GeneratedProof(sha, leaves, idx))
    requires InjectiveOn(sha, FoldInputs(sha, x, proof)
                              + FoldInputs(sha, leaves[idx], GeneratedProof(sha, leaves, idx)))
    ensures Fold(sha, x, proof) == Root(sha, leaves)
      <==> x == leaves[idx] && proof == GeneratedProof(sha, leaves, idx)
  {
    GeneratedProofVerifies(sha, leaves, idx);
    if Fold(sha, x, proof) == Root(sha, leaves) {
      FoldInjective(sha, x, proof, leaves[idx], GeneratedProof(sha, leaves, idx));
    }
  }

  // ---- The root determines the leaves ----

  ghost predicate Distinct(level: seq<Digest>) {
    forall i, j :: 0 <= i < j < |level| ==> level[i] != level[j]
  }

  ghost function LevelInputs(level: seq<Digest>): set<string> {
    set j | 0 <= j < (|level| + 1) / 2 :: level[2 * j] + Partner(level, j)
  }

  /** The strings hashed to obtain every node above the leaves. */
  ghost function NodeInputs(sha: HashFn, leaves: seq<Digest>): set<string>
    decreases |leaves|
  {
    if |leaves| <= 1 then {} else LevelInputs(leaves) + NodeInputs(sha, NextLevel(sha, leaves))
  }

  /** Every string hashed to obtain the nodes above `leaves` is one of `inputs`. */
  ghost predicate NodesWithin(sha: HashFn, leaves: seq<Digest>, inputs: set<string>)
    decreases |leaves|
  {
    |leaves| > 1 ==> LevelInputs(leaves) <= inputs && NodesWithin(sha, NextLevel(sha, leaves), inputs)
  }

  lemma {:induction false} NodeInputsCover(sha: HashFn, leaves: seq<Digest>, inputs: set<string>)
    requires NodeInputs(sha, leaves) <= inputs
    ensures NodesWithin(sha, leaves, inputs)
    decreases |leaves|
  {
    if |leaves| > 1 {
      NodeInputsCover(sha, NextLevel(sha, leaves), inputs);
    }
  }

  lemma SameParent(sha: HashFn, inputs: set<string>, s: seq<Digest>, i: nat, t: seq<Digest>, j: nat)
    requires 2 * i < |s| && 2 * j < |t|
    requires LevelInputs(s) <= inputs && LevelInputs(t) <= inputs && InjectiveOn(sha, inputs)
    requires NextLevel(sha, s)[i] == NextLevel(sha, t)[j]
    ensures s[2 * i] == t[2 * j] && Partner(s, i) == Partner(t, j)
  {
    ParentAt(sha, s, i);
    ParentAt(sha, t, j);
    assert s[2 * i] + Partner(s, i) in LevelInputs(s);
    assert t[2 * j] + Partner(t, j) in LevelInputs(t);
    SplitDigests(s[2 * i], Partner(s, i), t[2 * j], Partner(t, j));
  }

  lemma ParentsDistinct(sha: HashFn, inputs: set<string>, s: seq<Digest>)
    requires Distinct(s) && LevelInputs(s) <= inputs && InjectiveOn(sha, inputs)
    ensures Distinct(NextLevel(sha, s))
  {
    var above := NextLevel(sha, s);
    forall i, j | 0 <= i < j < |above|
      ensures above[i] != above[j]
    {
      if above[i] == above[j] {
        SameParent(sha, inputs, s, i, s, j);
      }
    }
  }

  lemma SameParents(sha: HashFn, inputs: set<string>, s: seq<Digest>, t: seq<Digest>)
    requires Distinct(s) && Distinct(t)
    requires LevelInputs(s) <= inputs && LevelInputs(t) <= inputs && InjectiveOn(sha, inputs)
    requires NextLevel(sha, s) == NextLevel(sha, t)
    ensures s == t
  {
    forall j: nat | 2 * j < |s|
      ensures s[2 * j] == t[2 * j] && Partner(s, j) == Partner(t, j)
    {
      SameParent(sha, inputs, s, j, t, j);
    }
    var m := |NextLevel(sha, s)|;
    assert m > 0 ==> s[2 * (m - 1)] == t[2 * (m - 1)] && Partner(s, m - 1) == Partner(t, m - 1);
    assert |s| == |t|;
    forall i | 0 <= i < |s|
      ensures s[i] == t[i]
    {
      assert s[2 * (i / 2)] == t[2 * (i / 2)] && Partner(s, i / 2) == Partner(t, i / 2);
    }
  }

  lemma {:induction false} SameHeightSameRoot(sha: HashFn, inputs: set<string>, s: seq<Digest>, t: seq<Digest>)
    requires |s| > 0 && |t| > 0 && CeilLog2(|s|) == CeilLog2(|t|)
    requires Distinct(s) && Distinct(t)
    requires NodesWithin(sha, s, inputs) && NodesWithin(sha, t, inputs) && InjectiveOn(sha, inputs)
    requires Root(sha, s) == Root(sha, t)
    ensures s == t
    decreases |s|
  {
    hide NextLevel;
    if |s| > 1 {
      ParentsDistinct(sha, inputs, s);
      ParentsDistinct(sha, inputs, t);
      SameHeightSameRoot(sha, inputs, NextLevel(sha, s), NextLevel(sha, t));
      SameParents(sha, inputs, s, t);
    }
  }

  lemma {:induction false} LevelHeight(sha: HashFn, t: seq<Digest>, k: nat)
    requires |t| > 0 && k <= CeilLog2(|t|)
    ensures |Level(sha, t, k)| > 0 && CeilLog2(|Level(sha, t, k)|) == CeilLog2(|t|) - k
    decreases k
  {
    hide NextLevel;
    if k > 0 {
      LevelHeight(sha, NextLevel(sha, t), k - 1);
    }
  }

  lemma {:induction false} LevelKeepsRoot(sha: HashFn, t: seq<Digest>, k: nat)
    requires |t| > 0 && k <= CeilLog2(|t|)
    ensures |Level(sha, t, k)| > 0 && Root(sha, Level(sha, t, k)) == Root(sha, t)
    decreases k
  {
    hide NextLevel;
    if k > 0 {
      LevelKeepsRoot(sha, NextLevel(sha, t), k - 1);
    }
  }

  lemma {:induction false} LevelDistinct(sha: HashFn, inputs: set<string>, t: seq<Digest>, k: nat)
    requires |t| > 0 && k <= CeilLog2(|t|)
    requires Distinct(t) && NodesWithin(sha, t, inputs) && InjectiveOn(sha, inputs)
    ensures Distinct(Level(sha, t, k)) && NodesWithin(sha, Level(sha, t, k), inputs)
    decreases k
  {
    hide NextLevel;
    if k > 0 {
      ParentsDistinct(sha, inputs, t);
      LevelDistinct(sha, inputs, NextLevel(sha, t), k - 1);
    }
  }

  lemma {:induction false} InnerNode(sha: HashFn, inputs: set<string>, t: seq<Digest>, k: nat)
    returns (x: Digest, y: Digest)
    requires |t| > 0 && 0 < k <= CeilLog2(|t|) && NodesWithin(sha, t, inputs)
    ensures |Level(sha, t, k)| > 0 && x + y in inputs && Level(sha, t, k)[0] == sha(x + y)
    decreases k
  {
    if k == 1 {
      x, y := t[0], Partner(t, 0);
      ParentAt(sha, t, 0);
      assert t[2 * 0] + Partner(t, 0) in LevelInputs(t);
    } else {
      x, y := InnerNode(sha, inputs, NextLevel(sha, t), k - 1);
    }
  }

  lemma {:induction false} RootIsInnerNode(sha: HashFn, inputs: set<string>, t: seq<Digest>)
    returns (x: Digest, y: Digest)
    requires |t| > 1 && NodeInputs(sha, t) <= inputs
    ensures x + y in inputs && Root(sha, t) == sha(x + y)
  {
    hide NextLevel;
    NodeInputsCover(sha, t, inputs);
    var top := CeilLog2(|t|);
    x, y := InnerNode(sha, inputs, t, top);
    LevelHeight(sha, t, top);
    LevelKeepsRoot(sha, t, top);
  }

  /** A leaf is never the hash of two digests put together. */
  ghost predicate LeavesApart(sha: HashFn, leaves: seq<Digest>, inputs: set<string>) {
    forall i, x: Digest, y: Digest :: 0 <= i < |leaves| && x + y in inputs ==> leaves[i] != sha(x + y)
  }

  lemma {:induction false} TallerTreeDiffers(sha: HashFn, inputs: set<string>, s: seq<Digest>, t: seq<Digest>)
    requires |s| > 0 && |t| > 0 && CeilLog2(|s|) < CeilLog2(|t|)
    requires Distinct(s) && Distinct(t) && LeavesApart(sha, s, inputs)
    requires NodesWithin(sha, s, inputs) && NodesWithin(sha, t, inputs) && InjectiveOn(sha, inputs)
    ensures Root(sha, s) != Root(sha, t)
  {
    if Root(sha, s) == Root(sha, t) {
      var k := CeilLog2(|t|) - CeilLog2(|s|);
      LevelHeight(sha, t, k);
      LevelKeepsRoot(sha, t, k);
      LevelDistinct(sha, inputs, t, k);
      SameHeightSameRoot(sha, inputs, s, Level(sha, t, k));
      var x, y := InnerNode(sha, inputs, t, k);
    }
  }

  /** Equal roots over distinct leaves mean equal leaf lists, whatever their lengths. */
  lemma {:induction false} RootBindsLeaves(sha: HashFn, inputs: set<string>, s: seq<Digest>, t: seq<Digest>)
    requires |s| > 0 && |t| > 0 && Distinct(s) && Distinct(t)
    requires LeavesApart(sha, s, inputs) && LeavesApart(sha, t, inputs)
    requires NodesWithin(sha, s, inputs) && NodesWithin(sha, t, inputs) && InjectiveOn(sha, inputs)
    ensures Root(sha, s) == Root(sha, t) <==> s == t
  {
    if CeilLog2(|s|) < CeilLog2(|t|) {
      TallerTreeDiffers(sha, inputs, s, t);
    } else if CeilLog2(|t|) < CeilLog2(|s|) {
      TallerTreeDiffers(sha, inputs, t, s);
    } else if Root(sha, s) == Root(sha, t) {
      SameHeightSameRoot(sha, inputs, s, t);
    }
  }
}
