/** Everything that proof verification accepts: any digest, with any siblings on any sides in any number. */
module MerkleAcceptance {
  import opened Digests
  import opened MerkleTree

  /** The strings that verifying a proof hashes, in order. */
  function Hashed(sha: HashFn, x: string, proof: seq<ProofStep>): seq<string>
    decreases |proof|
  {
    if proof == [] then []
    else [StepInput(x, proof[0])] + Hashed(sha, sha(StepInput(x, proof[0])), proof[1..])
  }

  /** What is hashed on the way from node j of a level to the root. */
  function WayUp(sha: HashFn, level: seq<Digest>, j: nat): seq<string>
    requires j < |level|
    decreases |level|
  {
    if |level| == 1 then []
    else [level[2 * (j / 2)] + Partner(level, j / 2)] + WayUp(sha, NextLevel(sha, level), j / 2)
  }

  /** The digest is node j of the k-th level, and the proof hashes what that node's own proof does. */
  ghost predicate IsNode(sha: HashFn, leaves: seq<Digest>, x: Digest, proof: seq<ProofStep>, k: nat, j: nat) {
    var level := Level(sha, leaves, k);
    j < |level| && x == level[j] && Hashed(sha, x, proof) == Hashed(sha, x, GeneratedProof(sha, level, j))
  }

  lemma {:induction false} FoldOfHashed(sha: HashFn, x: string, proof: seq<ProofStep>)
    ensures |Hashed(sha, x, proof)| == |proof|
    ensures Fold(sha, x, proof) == if proof == [] then x else sha(Hashed(sha, x, proof)[|proof| - 1])
    decreases |proof|
  {
    if proof != [] {
      FoldOfHashed(sha, sha(StepInput(x, proof[0])), proof[1..]);
    }
  }

  lemma {:induction false} HashedSnoc(sha: HashFn, x: string, proof: seq<ProofStep>, last: ProofStep)
    ensures Hashed(sha, x, proof + [last]) == Hashed(sha, x, proof) + [StepInput(Fold(sha, x, proof), last)]
    ensures Fold(sha, x, proof + [last]) == sha(StepInput(Fold(sha, x, proof), last))
    decreases |proof|
  {
    if proof == [] {
      assert [last][1..] == [];
    } else {
      assert (proof + [last])[1..] == proof[1..] + [last];
      HashedSnoc(sha, sha(StepInput(x, proof[0])), proof[1..], last);
    }
  }

  lemma {:induction false} FoldInputsAreHashed(sha: HashFn, x: string, proof: seq<ProofStep>, s: string)
    ensures s in FoldInputs(sha, x, proof) <==> s in Hashed(sha, x, proof)
    decreases |proof|
  {
    if proof != [] {
      FoldInputsAreHashed(sha, sha(StepInput(x, proof[0])), proof[1..], s);
    }
  }

  /** A node's own proof hashes the way up from it. */
  lemma {:induction false} OwnProof(sha: HashFn, level: seq<Digest>, j: nat)
    requires j < |level|
    ensures Hashed(sha, level[j], GeneratedProof(sha, level, j)) == WayUp(sha, level, j)
    decreases |level|
  {
    hide NextLevel;
    if |level| > 1 {
      var above := NextLevel(sha, level);
      TreeIsShaped(sha, level);
      TreeIsShaped(sha, above);
      assert Tree(sha, level) == [Padded(level)] + Tree(sha, above);
      assert Tree(sha, level)[1..] == Tree(sha, above);
      StepClimbs(sha, level, j);
      OwnProof(sha, above, j / 2);
      OwnStep(level, j);
      assert GeneratedProof(sha, level, j) == [StepAt(Padded(level), j)] + GeneratedProof(sha, above, j / 2);
    }
  }

  lemma OwnStep(level: seq<Digest>, j: nat)
    requires |level| > 1 && j < |level|
    ensures StepInput(level[j], StepAt(Padded(level), j)) == level[2 * (j / 2)] + Partner(level, j / 2)
  {
  }

  /** Hashing to a node of an upper level takes one of its two children and the other one as sibling. */
  lemma StepDown(sha: HashFn, inputs: set<string>, level: seq<Digest>, j: nat, c: Digest, last: ProofStep)
    returns (i: nat)
    requires |level| > 1 && j < |NextLevel(sha, level)| && LevelInputs(level) <= inputs && InjectiveOn(sha, inputs)
    requires StepInput(c, last) in inputs && sha(StepInput(c, last)) == NextLevel(sha, level)[j]
    ensures i < |level| && i / 2 == j && c == level[i]
    ensures StepInput(c, last) == level[2 * j] + Partner(level, j)
  {
    ParentAt(sha, level, j);
    assert level[2 * j] + Partner(level, j) in LevelInputs(level);
    var pair := level[2 * j] + Partner(level, j);
    assert StepInput(c, last) == pair;
    if last.side.Right? {
      SplitDigests(c, last.sibling, level[2 * j], Partner(level, j));
      i := 2 * j;
    } else {
      assert |last.sibling| == 64;
      assert c == pair[64..] == Partner(level, j);
      i := if 2 * j + 1 < |level| then 2 * j + 1 else 2 * j;
    }
  }

  ghost predicate NoLeafHash(sha: HashFn, leaves: seq<Digest>, strings: seq<string>) {
    forall i, s :: 0 <= i < |leaves| && s in strings ==> leaves[i] != sha(s)
  }

  /** The last step of a fold that reaches node j of level k comes from one of its children. */
  lemma LastStep(
    sha: HashFn, inputs: set<string>, leaves: seq<Digest>, k: nat, j: nat, c: Digest, last: ProofStep)
    returns (i: nat)
    requires leaves != [] && k <= CeilLog2(|leaves|) && j < |Level(sha, leaves, k)|
    requires NodesWithin(sha, leaves, inputs) && InjectiveOn(sha, inputs) && StepInput(c, last) in inputs
    requires NoLeafHash(sha, leaves, [StepInput(c, last)])
    requires sha(StepInput(c, last)) == Level(sha, leaves, k)[j]
    ensures k > 0 && i < |Level(sha, leaves, k - 1)| && c == Level(sha, leaves, k - 1)[i]
    ensures WayUp(sha, Level(sha, leaves, k - 1), i) == [StepInput(c, last)] + WayUp(sha, Level(sha, leaves, k), j)
  {
    hide NextLevel;
    assert StepInput(c, last) in [StepInput(c, last)];
    assert k > 0;
    var level := Level(sha, leaves, k - 1);
    LevelStep(sha, leaves, k - 1);
    LevelInputsWithin(sha, inputs, leaves, k - 1);
    hide Level, LevelInputs, Partner, StepInput, NodesWithin, InjectiveOn, NoLeafHash;
    i := StepDown(sha, inputs, level, j, c, last);
  }

  ghost predicate Within(strings: seq<string>, inputs: set<string>) {
    forall s :: s in strings ==> s in inputs
  }

  lemma SplitHashed(
    sha: HashFn, inputs: set<string>, leaves: seq<Digest>, x: Digest, proof: seq<ProofStep>)
    requires proof != [] && Within(Hashed(sha, x, proof), inputs)
    requires NoLeafHash(sha, leaves, Hashed(sha, x, proof))
    ensures var init, last := proof[..|proof| - 1], proof[|proof| - 1];
      var c := Fold(sha, x, init);
      && IsDigest(c) && Hashed(sha, x, proof) == Hashed(sha, x, init) + [StepInput(c, last)]
      && Fold(sha, x, proof) == sha(StepInput(c, last)) && StepInput(c, last) in inputs
      && Within(Hashed(sha, x, init), inputs)
      && NoLeafHash(sha, leaves, Hashed(sha, x, init)) && NoLeafHash(sha, leaves, [StepInput(c, last)])
  {
    var init, last := proof[..|proof| - 1], proof[|proof| - 1];
    assert proof == init + [last];
    HashedSnoc(sha, x, init, last);
    FoldIsDigest(sha, x, init);
    hide Hashed, Fold, StepInput;
    assert StepInput(Fold(sha, x, init), last) in Hashed(sha, x, proof);
  }

  /** What folds to node j of level k starts at a node below it. */
  lemma {:induction false} FoldsFromBelow(
    sha: HashFn, inputs: set<string>, leaves: seq<Digest>, k: nat, j: nat, x: Digest, proof: seq<ProofStep>)
    returns (k': nat, j': nat)
    requires leaves != [] && k <= CeilLog2(|leaves|) && j < |Level(sha, leaves, k)|
    requires NodesWithin(sha, leaves, inputs) && InjectiveOn(sha, inputs)
    requires Within(Hashed(sha, x, proof), inputs)
    requires NoLeafHash(sha, leaves, Hashed(sha, x, proof))
    requires Fold(sha, x, proof) == Level(sha, leaves, k)[j]
    ensures k' <= k && j' < |Level(sha, leaves, k')| && x == Level(sha, leaves, k')[j']
    ensures Hashed(sha, x, proof) + WayUp(sha, Level(sha, leaves, k), j) == WayUp(sha, Level(sha, leaves, k'), j')
    decreases |proof|
  {
    if proof == [] {
      k', j' := k, j;
      hide WayUp, Level, InjectiveOn, NodesWithin;
      assert [] + WayUp(sha, Level(sha, leaves, k), j) == WayUp(sha, Level(sha, leaves, k), j);
    } else {
      hide *;
      var init, last := proof[..|proof| - 1], proof[|proof| - 1];
      SplitHashed(sha, inputs, leaves, x, proof);
      var c := Fold(sha, x, init);
      var i := LastStep(sha, inputs, leaves, k, j, c, last);
      k', j' := FoldsFromBelow(sha, inputs, leaves, k - 1, i, x, init);
      Regroup(Hashed(sha, x, init), StepInput(c, last), WayUp(sha, Level(sha, leaves, k), j));
    }
  }

  lemma Regroup(a: seq<string>, s: string, b: seq<string>)
    ensures (a + [s]) + b == a + ([s] + b)
  {
  }

  lemma FoldIsDigest(sha: HashFn, x: Digest, proof: seq<ProofStep>)
    ensures IsDigest(Fold(sha, x, proof))
  {
    FoldOfHashed(sha, x, proof);
  }

  lemma {:induction false} LevelInputsWithin(sha: HashFn, inputs: set<string>, leaves: seq<Digest>, k: nat)
    requires leaves != [] && k < CeilLog2(|leaves|) && NodesWithin(sha, leaves, inputs)
    ensures |Level(sha, leaves, k)| > 1 && LevelInputs(Level(sha, leaves, k)) <= inputs
    decreases k
  {
    hide NextLevel;
    if k > 0 {
      LevelInputsWithin(sha, inputs, NextLevel(sha, leaves), k - 1);
    }
  }

  lemma TopIsRoot(sha: HashFn, leaves: seq<Digest>)
    requires leaves != []
    ensures Level(sha, leaves, CeilLog2(|leaves|)) == [Root(sha, leaves)]
  {
    TreeHeight(sha, leaves);
    TreeLevel(sha, leaves, CeilLog2(|leaves|));
  }

  /** Verification accepts exactly the nodes of the tree, each with a proof that hashes what its own proof does: no
      other digest, and nothing of another length.  Only a node that is its own partner may name either side. */
  lemma {:induction false} AcceptedAreNodes(sha: HashFn, leaves: seq<Digest>, x: Digest, proof: seq<ProofStep>)
    requires leaves != [] && InjectiveOn(sha, NodeInputs(sha, leaves) + FoldInputs(sha, x, proof))
    requires NoLeafHash(sha, leaves, Hashed(sha, x, proof))
    ensures Fold(sha, x, proof) == Root(sha, leaves)
      <==> exists k: nat, j: nat :: k <= CeilLog2(|leaves|) && IsNode(sha, leaves, x, proof, k, j)
  {
    hide NextLevel;
    if Fold(sha, x, proof) == Root(sha, leaves) {
      var inputs, top := NodeInputs(sha, leaves) + FoldInputs(sha, x, proof), CeilLog2(|leaves|);
      NodeInputsCover(sha, leaves, inputs);
      TopIsRoot(sha, leaves);
      forall s | s in Hashed(sha, x, proof)
        ensures s in inputs
      {
        FoldInputsAreHashed(sha, x, proof, s);
      }
      var k, j := FoldsFromBelow(sha, inputs, leaves, top, 0, x, proof);
      OwnProof(sha, Level(sha, leaves, k), j);
      assert WayUp(sha, [Root(sha, leaves)], 0) == [];
      assert IsNode(sha, leaves, x, proof, k, j);
    }
    forall k: nat, j: nat | k <= CeilLog2(|leaves|) && IsNode(sha, leaves, x, proof, k, j)
      ensures Fold(sha, x, proof) == Root(sha, leaves)
    {
      NodesAreAccepted(sha, leaves, x, proof, k, j);
    }
  }

  lemma NodesAreAccepted(sha: HashFn, leaves: seq<Digest>, x: Digest, proof: seq<ProofStep>, k: nat, j: nat)
    requires leaves != [] && k <= CeilLog2(|leaves|) && IsNode(sha, leaves, x, proof, k, j)
    ensures Fold(sha, x, proof) == Root(sha, leaves)
  {
    var level := Level(sha, leaves, k);
    LevelKeepsRoot(sha, leaves, k);
    GeneratedProofVerifies(sha, level, j);
    FoldOfHashed(sha, x, proof);
    FoldOfHashed(sha, x, GeneratedProof(sha, level, j));
  }

  lemma {:induction false} OwnSiblings(levels: seq<seq<Digest>>, idx: nat)
    requires Shaped(levels) && |levels| > 0 && idx < |levels[0]|
    ensures forall i :: 0 <= i < |ProofPath(levels, idx)| ==> |ProofPath(levels, idx)[i].sibling| == 64
    decreases |levels|
  {
    if |levels| > 1 {
      assert |levels[0]| <= 2 * |levels[1]|;
      OwnSiblings(levels[1..], idx / 2);
    }
  }

  /** The steps agree, but for the side of a sibling that equals the digest it is hashed with. */
  ghost predicate SameSteps(sha: HashFn, x: Digest, p: seq<ProofStep>, q: seq<ProofStep>) {
    && |p| == |q|
    && forall i :: 0 <= i < |p| ==>
         p[i].sibling == q[i].sibling && (p[i].side == q[i].side || p[i].sibling == Fold(sha, x, p[..i]))
  }

  /** An accepted proof is the node's own one, up to the sides at nodes that are their own partners. */
  lemma AcceptedProofIsOwn(sha: HashFn, leaves: seq<Digest>, x: Digest, proof: seq<ProofStep>, k: nat, j: nat)
    requires IsNode(sha, leaves, x, proof, k, j)
    ensures SameSteps(sha, x, proof, GeneratedProof(sha, Level(sha, leaves, k), j))
  {
    var level := Level(sha, leaves, k);
    TreeIsShaped(sha, level);
    OwnSiblings(Tree(sha, level), j);
    hide *;
    SameHashedSameSteps(sha, x, proof, GeneratedProof(sha, level, j));
  }

  lemma {:induction false} SameHashedSameSteps(sha: HashFn, x: Digest, p: seq<ProofStep>, q: seq<ProofStep>)
    requires Hashed(sha, x, p) == Hashed(sha, x, q) && forall i :: 0 <= i < |q| ==> |q[i].sibling| == 64
    ensures SameSteps(sha, x, p, q)
    decreases |p|
  {
    FoldOfHashed(sha, x, p);
    FoldOfHashed(sha, x, q);
    if p != [] {
      var a := StepInput(x, p[0]);
      assert a == Hashed(sha, x, p)[0] == StepInput(x, q[0]);
      assert Hashed(sha, sha(a), p[1..]) == Hashed(sha, x, p)[1..] == Hashed(sha, sha(a), q[1..]);
      SameHashedSameSteps(sha, sha(a), p[1..], q[1..]);
      SameStep(x, p[0], q[0]);
      forall i | 0 <= i < |p|
        ensures p[i].sibling == q[i].sibling && (p[i].side == q[i].side || p[i].sibling == Fold(sha, x, p[..i]))
      {
        if i > 0 {
          assert p[i] == p[1..][i - 1] && q[i] == q[1..][i - 1];
          assert p[..i][1..] == p[1..][..i - 1] && p[..i][0] == p[0];
        }
      }
    }
  }

  lemma SameStep(x: Digest, s: ProofStep, t: ProofStep)
    requires StepInput(x, s) == StepInput(x, t) && |t.sibling| == 64
    ensures s.sibling == t.sibling && (s.side == t.side || s.sibling == x)
  {
    var a := StepInput(x, s);
    assert |s.sibling| == 64 && |a| == 128;
    assert if s.side.Right? then x == a[..64] && s.sibling == a[64..] else s.sibling == a[..64] && x == a[64..];
    assert if t.side.Right? then x == a[..64] && t.sibling == a[64..] else t.sibling == a[..64] && x == a[64..];
  }
}
