/** Stored hash trees, told from their levels alone. */
module HashTrees {
  import opened Digests
  import opened MerkleTree

  /** A stored tree, told from its levels alone: pairs are hashed left before right, an odd level but the last
      repeats its last node, and the last level is a single node. */
  ghost predicate IsHashTree(sha: HashFn, levels: seq<seq<Digest>>) {
    && (forall k :: 0 <= k < |levels| - 1 ==> PairsHashed(sha, levels[k], levels[k + 1]))
    && (levels != [] ==> |levels[|levels| - 1]| == 1)
  }

  ghost predicate PairsHashed(sha: HashFn, level: seq<Digest>, above: seq<Digest>) {
    && |level| % 2 == 0 && |level| >= 2
    && (|above| == |level| / 2
        || (|above| == |level| / 2 + 1 && |level| > 2 && above[|above| - 1] == above[|above| - 2]))
    && forall j :: 0 <= j < |level| / 2 ==>
         var left: string := level[2 * j];
         above[j] == sha(left + level[2 * j + 1])
  }

  lemma PaddedHashes(sha: HashFn, leaves: seq<Digest>)
    requires |leaves| > 1
    ensures PairsHashed(sha, Padded(leaves), Padded(NextLevel(sha, leaves)))
  {
    var level, above := Padded(leaves), NextLevel(sha, leaves);
    forall j | 0 <= j < |level| / 2
      ensures var left: string := level[2 * j]; Padded(above)[j] == sha(left + level[2 * j + 1])
    {
      ParentAt(sha, leaves, j);
    }
  }

  /** The tree over given leaves is a hash tree with the leaves at the bottom, the last one repeated if their number
      is odd and there are others. */
  lemma {:induction false} TreeIsHashTree(sha: HashFn, leaves: seq<Digest>)
    ensures IsHashTree(sha, Tree(sha, leaves))
    ensures leaves == [] <==> Tree(sha, leaves) == []
    ensures leaves != [] ==>
      Tree(sha, leaves)[0]
      == if |leaves| % 2 == 1 && |leaves| > 1 then leaves + [leaves[|leaves| - 1]] else leaves
    decreases |leaves|
  {
    hide NextLevel, PairsHashed;
    if |leaves| > 1 {
      var above := NextLevel(sha, leaves);
      TreeIsHashTree(sha, above);
      PaddedHashes(sha, leaves);
      assert Tree(sha, leaves) == [Padded(leaves)] + Tree(sha, above);
      hide Tree;
      OneLevelMore(sha, Padded(leaves), Tree(sha, above));
    }
  }

  lemma OneLevelMore(sha: HashFn, level: seq<Digest>, levels: seq<seq<Digest>>)
    requires levels != [] && IsHashTree(sha, levels) && PairsHashed(sha, level, levels[0])
    ensures IsHashTree(sha, [level] + levels)
  {
    hide PairsHashed;
    var taller := [level] + levels;
    forall k | 0 <= k < |taller| - 1
      ensures PairsHashed(sha, taller[k], taller[k + 1])
    {
      assert k > 0 ==> taller[k] == levels[k - 1] && taller[k + 1] == levels[k];
    }
  }
}
