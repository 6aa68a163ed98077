/** The append-only audit trail: a list of entries and a Merkle tree that each append edits in place. */
module AuditTrail {
  import opened Digests
  import opened MerkleTree

  /** The fields of an entry that its leaf hash covers. */
  datatype LeafData = LeafData(sequence: int, eventType: string, eventHash: string, nodeId: string)

  datatype AuditEntry = AuditEntry(leaf: LeafData, eventData: string, timestamp: string)

  /** `json.dumps` on the four leaf fields: a JSON object, from which the fields can be read back. */
  type Canonical = LeafData -> string

  ghost predicate IsObjectEncoding(canonical: Canonical) {
    && (forall l :: |canonical(l)| > 0 && canonical(l)[0] == '{')
    && (forall l, m :: canonical(l) == canonical(m) ==> l == m)
  }

  function LeafHash(sha: HashFn, canonical: Canonical, entry: AuditEntry): Digest {
    sha(canonical(entry.leaf))
  }

  function LeafHashes(sha: HashFn, canonical: Canonical, entries: seq<AuditEntry>): seq<Digest> {
    seq(|entries|, i requires 0 <= i < |entries| => LeafHash(sha, canonical, entries[i]))
  }

  function TrailTree(sha: HashFn, canonical: Canonical, entries: seq<AuditEntry>): seq<seq<Digest>> {
    Tree(sha, LeafHashes(sha, canonical, entries))
  }

  /** A tree with levels has a node in its last one. */
  ghost predicate Rooted(tree: seq<seq<Digest>>) {
    tree != [] ==> tree[|tree| - 1] != []
  }

  function RootHash(tree: seq<seq<Digest>>): string
    requires Rooted(tree)
  {
    if tree == [] then "" else tree[|tree| - 1][0]
  }

  ghost predicate Contiguous(entries: seq<AuditEntry>) {
    forall i :: 0 <= i < |entries| ==> entries[i].leaf.sequence == i
  }

  /** The tree of some non-tampered entries, in which the stored tree of a trail always is. */
  ghost predicate Intact(sha: HashFn, canonical: Canonical, tree: seq<seq<Digest>>, original: seq<AuditEntry>) {
    Contiguous(original) && tree == TrailTree(sha, canonical, original)
  }

  datatype IntegrityError = Gap(index: nat, found: int) | DuplicateSequence | RootMismatch

  function Gaps(entries: seq<AuditEntry>): seq<IntegrityError> {
    if entries == [] then []
    else
      var last := |entries| - 1;
      Gaps(entries[..last])
      + if entries[last].leaf.sequence != last then [Gap(last, entries[last].leaf.sequence)] else []
  }

  function Sequences(entries: seq<AuditEntry>): set<int> {
    set i | 0 <= i < |entries| :: entries[i].leaf.sequence
  }

  function IntegrityErrors(sha: HashFn, canonical: Canonical, entries: seq<AuditEntry>, tree: seq<seq<Digest>>)
    : seq<IntegrityError>
    requires Rooted(tree)
  {
    if entries == [] then []
    else
      Gaps(entries)
      + (if |Sequences(entries)| != |entries| then [DuplicateSequence] else [])
      + (if Root(sha, LeafHashes(sha, canonical, entries)) != RootHash(tree) then [RootMismatch] else [])
  }

  function Leaves(entries: seq<AuditEntry>): seq<LeafData> {
    seq(|entries|, i requires 0 <= i < |entries| => entries[i].leaf)
  }

  /** What `verify_inclusion` computes from the stored entries and the stored tree. */
  ghost predicate InclusionHolds(
    sha: HashFn, canonical: Canonical, entries: seq<AuditEntry>, tree: seq<seq<Digest>>, entry: AuditEntry)
    requires Rooted(tree) && Shaped(tree)
  {
    var i := entry.leaf.sequence;
    && 0 <= i < |entries|
    && LeafHash(sha, canonical, entries[i]) == LeafHash(sha, canonical, entry)
    && var proof := if |tree| > 0 && i < |tree[0]| then ProofPath(tree, i) else [];
       Fold(sha, LeafHash(sha, canonical, entry), proof) == RootHash(tree)
  }

  class MerkleAuditTrail {
    const sha: HashFn
    const canonical: Canonical
    var entries: seq<AuditEntry>
    var tree: seq<seq<Digest>>

    /** Sequence numbers count from 0, and the tree is the one a rebuild from scratch would give. */
    ghost predicate Valid()
      reads this
    {
      Contiguous(entries) && tree == TrailTree(sha, canonical, entries)
    }

    constructor (sha: HashFn, canonical: Canonical)
      ensures Valid() && entries == []
      ensures this.sha == sha && this.canonical == canonical
    {
      this.sha, this.canonical := sha, canonical;
      entries, tree := [], [];
    }

    /** `eventData` is the payload as canonical JSON text and `timestamp` the clock reading. */
    method Append(eventType: string, eventData: string, nodeId: string, timestamp: string)
      returns (entry: AuditEntry, ghost parentHashes: nat)
      requires Valid()
      modifies this
      ensures Valid() && entries == old(entries) + [entry]
      ensures entry.leaf == LeafData(|old(entries)|, eventType, sha(eventData), nodeId)
      ensures entry.eventData == eventData && entry.timestamp == timestamp
      ensures parentHashes == CeilLog2(|entries|) && |tree| == CeilLog2(|entries|) + 1
    {
      entry := AuditEntry(LeafData(|entries|, eventType, sha(eventData), nodeId), eventData, timestamp);
      entries := entries + [entry];
      parentHashes := RebuildTree();
      TreeHeight(sha, LeafHashes(sha, canonical, entries));
    }

    method VerifyInclusion(entry: AuditEntry) returns (ok: bool)
      requires Rooted(tree) && Shaped(tree)
      ensures ok <==> InclusionHolds(sha, canonical, entries, tree, entry)
    {
      var i := entry.leaf.sequence;
      if i < 0 || i >= |entries| || LeafHash(sha, canonical, entries[i]) != LeafHash(sha, canonical, entry) {
        return false;
      }
      var proof := MerkleProof(tree, i);
      ok := VerifyMerkleProof(sha, LeafHash(sha, canonical, entry), proof, RootHash(tree));
    }

    method VerifyIntegrity() returns (passed: bool, errors: seq<IntegrityError>)
      requires Rooted(tree)
      ensures errors == IntegrityErrors(sha, canonical, entries, tree)
      ensures passed <==> errors == []
    {
      hide NextLevel, Gaps, Sequences, Level, Tree, RootHash, LeafHashes;
      errors := [];
      if entries == [] {
        return true, [];
      }
      errors := ListGaps();
      if |entries| != |Sequences(entries)| {
        errors := errors + [DuplicateSequence];
      }
      var leaves := LeafHashes(sha, canonical, entries);
      LeafCount(sha, canonical, entries);
      var rebuilt := BuildMerkleTree(sha, leaves);
      BuiltRoot(sha, leaves);
      if RootHash(rebuilt) != RootHash(tree) {
        errors := errors + [RootMismatch];
      }
      passed := errors == [];
    }

    method ListGaps() returns (errors: seq<IntegrityError>)
      ensures errors == Gaps(entries)
    {
      errors := [];
      for i := 0 to |entries|
        invariant errors == Gaps(entries[..i])
      {
        assert entries[..i + 1][..i] == entries[..i];
        if entries[i].leaf.sequence != i {
          errors := errors + [Gap(i, entries[i].leaf.sequence)];
        }
      }
      assert entries[..|entries|] == entries;
    }

    /** Edits the tree of the entries but the last into the tree of all entries, hashing one node a level. */
    method RebuildTree() returns (ghost parentHashes: nat)
      requires |entries| > 0 && tree == TrailTree(sha, canonical, entries[..|entries| - 1])
      modifies this`tree
      ensures tree == TrailTree(sha, canonical, entries)
      ensures parentHashes == CeilLog2(|entries|)
    {
      hide NextLevel;
      ghost var before := LeafHashes(sha, canonical, entries[..|entries| - 1]);
      ghost var after := LeafHashes(sha, canonical, entries);
      assert after == before + [LeafHash(sha, canonical, entries[|entries| - 1])];
      parentHashes := 0;
      if before != [] {
        TreeHeight(sha, before);
      }
      if tree == [] {
        assert after == [LeafHash(sha, canonical, entries[|entries| - 1])];
        tree := [[LeafHash(sha, canonical, entries[|entries| - 1])]];
        return;
      }
      var leafHash := LeafHash(sha, canonical, entries[|entries| - 1]);
      RemovePadding(|entries| - 1, before);
      tree := tree[0 := tree[0] + [leafHash]];
      parentHashes := UpdatePath(before, after);
      parentHashes := AddRoots(after, parentHashes);
      TreeHeight(sha, after);
    }

    /** Adds levels until the last one is a single node. */
    method AddRoots(ghost after: seq<Digest>, ghost hashed: nat) returns (ghost parentHashes: nat)
      requires |tree| > 0 && FinishedBelow(sha, after, tree, |tree| - 1) && hashed == |tree| - 1 && |after| > 0
      requires tree[|tree| - 1] == Level(sha, after, |tree| - 1) && 1 <= |tree[|tree| - 1]| <= 2
      modifies this`tree
      ensures tree == Tree(sha, after) && parentHashes == |tree| - 1
    {
      hide NextLevel;
      parentHashes := hashed;
      var topLevel := tree[|tree| - 1];
      while |topLevel| > 1
        invariant |tree| > 0 && topLevel == tree[|tree| - 1] == Level(sha, after, |tree| - 1)
        invariant 1 <= |topLevel| <= 2 && FinishedBelow(sha, after, tree, |tree| - 1)
        invariant parentHashes == |tree| - 1
        decreases |topLevel|
      {
        if |topLevel| % 2 == 1 {
          assert false; // the top holds one or two hashes here, so it is never padded
        }
        var newRoot := Parent(sha, topLevel[|topLevel| - 2], topLevel[|topLevel| - 1]);
        PairHasOneParent(sha, topLevel);
        PushLevel(sha, after, tree, tree + [[newRoot]]);
        tree := tree + [[newRoot]];
        topLevel := tree[|tree| - 1];
        parentHashes := parentHashes + 1;
      }
      FinishedIsTree(sha, after, tree);
    }

    method RemovePadding(oldCount: nat, ghost before: seq<Digest>)
      requires |before| == oldCount > 0 && tree == Tree(sha, before)
      modifies this`tree
      ensures |tree| == |Tree(sha, before)| && UnpaddedFrom(sha, before, tree, 0)
    {
      hide NextLevel;
      var count := oldCount;
      for k := 0 to |tree|
        invariant |tree| == |Tree(sha, before)|
        invariant k < |tree| ==> count == |Level(sha, before, k)|
        invariant forall j :: 0 <= j < k ==> tree[j] == Level(sha, before, j)
        invariant forall j :: k <= j < |tree| ==> tree[j] == Tree(sha, before)[j]
      {
        TreeLevel(sha, before, k);
        LevelStep(sha, before, k);
        if count % 2 == 1 && |tree[k]| > count {
          tree := tree[k := tree[k][..|tree[k]| - 1]];
        }
        count := (count + 1) / 2;
      }
    }

    /** Pads each level below the top again and recomputes its last parent. */
    method UpdatePath(ghost before: seq<Digest>, ghost after: seq<Digest>) returns (ghost parentHashes: nat)
      requires |before| > 0 && |tree| == |Tree(sha, before)| && Extends(before, after)
      requires tree[0] == after && UnpaddedFrom(sha, before, tree, 1)
      modifies this`tree
      ensures |tree| == old(|tree|) && FinishedBelow(sha, after, tree, |tree| - 1)
      ensures tree[|tree| - 1] == Level(sha, after, |tree| - 1) && 1 <= |tree[|tree| - 1]| <= 2
      ensures parentHashes == |tree| - 1
    {
      hide NextLevel, Level, Tree, Extends, Padded, FinishedBelow, UnpaddedFrom;
      parentHashes := 0;
      PathStarts(sha, before, after, tree);
      for i := 0 to |tree| - 1
        invariant |tree| == old(|tree|) && parentHashes == i
        invariant FinishedBelow(sha, after, tree, i) && tree[i] == Level(sha, after, i)
        invariant UnpaddedFrom(sha, before, tree, i + 1)
      {
        ghost var start := tree;
        LevelIsReady(sha, before, after, tree, i);
        UpdateLevel(i, Level(sha, before, i));
        PathClimbs(sha, before, after, start, tree, i);
        parentHashes := parentHashes + 1;
      }
      PathEnds(sha, before, after, |tree| - 1);
    }

    method UpdateLevel(i: nat, ghost lower: seq<Digest>)
      requires i + 1 < |tree| && |tree[i]| > 1 && Extends(lower, tree[i]) && tree[i + 1] == NextLevel(sha, lower)
      modifies this`tree
      ensures tree == old(tree)[i := Padded(old(tree)[i])][i + 1 := NextLevel(sha, old(tree)[i])]
    {
      hide NextLevel;
      LastParentSuffices(sha, lower, tree[i]);
      if |tree[i]| % 2 == 1 {
        tree := tree[i := tree[i] + [tree[i][|tree[i]| - 1]]];
      }
      var level, nextLevel := tree[i], tree[i + 1];
      var parentIdx := |level| / 2 - 1;
      var newParent := Parent(sha, level[|level| - 2], level[|level| - 1]);
      if parentIdx < |nextLevel| {
        nextLevel := nextLevel[parentIdx := newParent];
      } else {
        nextLevel := nextLevel + [newParent];
      }
      tree := tree[i + 1 := nextLevel];
    }
  }

  lemma LeafCount(sha: HashFn, canonical: Canonical, entries: seq<AuditEntry>)
    ensures |LeafHashes(sha, canonical, entries)| == |entries|
  {
  }

  lemma BuiltRoot(sha: HashFn, leaves: seq<Digest>)
    requires leaves != []
    ensures Rooted(Tree(sha, leaves)) && RootHash(Tree(sha, leaves)) == Root(sha, leaves)
  {
    hide NextLevel;
    TreeHeight(sha, leaves);
    TreeLevel(sha, leaves, |Tree(sha, leaves)| - 1);
  }

  ghost predicate UnpaddedFrom(sha: HashFn, leaves: seq<Digest>, levels: seq<seq<Digest>>, k: nat) {
    forall j :: k <= j < |levels| ==> levels[j] == Level(sha, leaves, j)
  }

  /** `b` has the elements of `a` up to its own last one, and is at most one longer. */
  ghost predicate Extends(a: seq<Digest>, b: seq<Digest>) {
    0 < |a| <= |b| <= |a| + 1 && a[..|b| - 1] == b[..|b| - 1]
  }

  lemma PathStarts(sha: HashFn, before: seq<Digest>, after: seq<Digest>, levels: seq<seq<Digest>>)
    requires |before| > 0 && |levels| == |Tree(sha, before)| && levels[0] == after
    ensures |levels| > 0 && FinishedBelow(sha, after, levels, 0) && levels[0] == Level(sha, after, 0)
  {
  }

  lemma LevelIsReady(sha: HashFn, before: seq<Digest>, after: seq<Digest>, levels: seq<seq<Digest>>, i: nat)
    requires |before| > 0 && |levels| == |Tree(sha, before)| && Extends(before, after) && i < |levels| - 1
    requires levels[i] == Level(sha, after, i) && UnpaddedFrom(sha, before, levels, i + 1)
    ensures |levels[i]| > 1 && Extends(Level(sha, before, i), levels[i])
    ensures levels[i + 1] == NextLevel(sha, Level(sha, before, i))
  {
    hide NextLevel;
    TreeLevel(sha, before, i);
    LevelExtends(sha, before, after, i);
    LevelStep(sha, before, i);
  }

  lemma PathClimbs(
    sha: HashFn, before: seq<Digest>, after: seq<Digest>, levels: seq<seq<Digest>>, updated: seq<seq<Digest>>, i: nat)
    requires i < |levels| - 1 && FinishedBelow(sha, after, levels, i)
    requires levels[i] == Level(sha, after, i) && |levels[i]| > 1 && UnpaddedFrom(sha, before, levels, i + 1)
    requires updated == levels[i := Padded(levels[i])][i + 1 := NextLevel(sha, levels[i])]
    ensures FinishedBelow(sha, after, updated, i + 1) && updated[i + 1] == Level(sha, after, i + 1)
    ensures UnpaddedFrom(sha, before, updated, i + 2)
  {
    hide NextLevel, Level, Padded;
    LevelStep(sha, after, i);
  }

  lemma PathEnds(sha: HashFn, before: seq<Digest>, after: seq<Digest>, top: nat)
    requires |before| > 0 && |Tree(sha, before)| == top + 1 && Extends(before, after)
    ensures 1 <= |Level(sha, after, top)| <= 2
  {
    hide NextLevel;
    TreeLevel(sha, before, top);
    LevelExtends(sha, before, after, top);
  }

  lemma NextLevelExtends(sha: HashFn, a: seq<Digest>, b: seq<Digest>)
    requires Extends(a, b)
    ensures Extends(NextLevel(sha, a), NextLevel(sha, b))
  {
    forall j | 0 <= j < |NextLevel(sha, b)| - 1
      ensures NextLevel(sha, a)[j] == NextLevel(sha, b)[j]
    {
      ParentAt(sha, a, j);
      ParentAt(sha, b, j);
      assert a[..|b| - 1][2 * j] == b[..|b| - 1][2 * j];
      assert a[..|b| - 1][2 * j + 1] == b[..|b| - 1][2 * j + 1];
    }
  }

  lemma PairHasOneParent(sha: HashFn, level: seq<Digest>)
    requires |level| == 2
    ensures NextLevel(sha, level) == [Parent(sha, level[0], level[1])]
  {
    ParentAt(sha, level, 0);
  }

  /** Replacing or adding one parent turns the level above `a` into the level above `b`. */
  lemma LastParentSuffices(sha: HashFn, a: seq<Digest>, b: seq<Digest>)
    requires Extends(a, b) && |b| > 1
    ensures var padded, upper := Padded(b), NextLevel(sha, a);
      var parent := Parent(sha, padded[|padded| - 2], padded[|padded| - 1]);
      var idx := |padded| / 2 - 1;
      NextLevel(sha, b) == if idx < |upper| then upper[idx := parent] else upper + [parent]
  {
    hide NextLevel;
    NextLevelExtends(sha, a, b);
    ParentAt(sha, b, |NextLevel(sha, b)| - 1);
    var lower, upper := NextLevel(sha, b), NextLevel(sha, a);
    assert lower == lower[..|lower| - 1] + [lower[|lower| - 1]];
    assert upper[..|lower| - 1] == lower[..|lower| - 1];
  }

  lemma {:induction false} LevelExtends(sha: HashFn, a: seq<Digest>, b: seq<Digest>, k: nat)
    requires Extends(a, b)
    ensures Extends(Level(sha, a, k), Level(sha, b, k))
    decreases k
  {
    hide NextLevel;
    if k > 0 {
      NextLevelExtends(sha, a, b);
      LevelExtends(sha, NextLevel(sha, a), NextLevel(sha, b), k - 1);
    }
  }

  // ---- What the checks are worth ----

  lemma IntactIsUsable(sha: HashFn, canonical: Canonical, tree: seq<seq<Digest>>, original: seq<AuditEntry>)
    requires Intact(sha, canonical, tree, original)
    ensures Shaped(tree) && Rooted(tree)
    ensures original != [] ==> RootHash(tree) == Root(sha, LeafHashes(sha, canonical, original))
    ensures original == [] ==> tree == [] && RootHash(tree) == ""
  {
    var leaves := LeafHashes(sha, canonical, original);
    TreeIsShaped(sha, leaves);
    if original != [] {
      TreeHeight(sha, leaves);
      TreeLevel(sha, leaves, |tree| - 1);
    }
  }

  /** Every entry ever appended is included, however much is appended afterwards. */
  lemma AppendedStaysIncluded(
    sha: HashFn, canonical: Canonical, entries: seq<AuditEntry>, later: seq<AuditEntry>, tree: seq<seq<Digest>>,
    k: nat)
    requires entries <= later && k < |entries| && Intact(sha, canonical, tree, later)
    ensures Shaped(tree) && Rooted(tree) && InclusionHolds(sha, canonical, later, tree, entries[k])
  {
    IntactIsUsable(sha, canonical, tree, later);
    var leaves := LeafHashes(sha, canonical, later);
    assert entries[k] == later[k];
    GeneratedProofVerifies(sha, leaves, k);
  }

  /** The strings hashed for the leaves and nodes of a trail. */
  ghost function TrailInputs(sha: HashFn, canonical: Canonical, entries: seq<AuditEntry>): set<string> {
    (set i | 0 <= i < |entries| :: canonical(entries[i].leaf))
    + NodeInputs(sha, LeafHashes(sha, canonical, entries))
  }

  lemma LeavesDistinct(sha: HashFn, canonical: Canonical, entries: seq<AuditEntry>, inputs: set<string>)
    requires Contiguous(entries) && IsObjectEncoding(canonical) && InjectiveOn(sha, inputs)
    requires TrailInputs(sha, canonical, entries) <= inputs
    ensures Distinct(LeafHashes(sha, canonical, entries))
    ensures LeavesApart(sha, LeafHashes(sha, canonical, entries), inputs)
  {
    var leaves := LeafHashes(sha, canonical, entries);
    forall i | 0 <= i < |entries|
      ensures canonical(entries[i].leaf) in inputs && leaves[i] == sha(canonical(entries[i].leaf))
    {
      assert canonical(entries[i].leaf) in TrailInputs(sha, canonical, entries);
    }
    forall i, x: Digest, y: Digest | 0 <= i < |leaves| && x + y in inputs
      ensures leaves[i] != sha(x + y)
    {
      ObjectIsNoPair(canonical(entries[i].leaf), x, y);
    }
  }

  lemma {:induction false} GapsExact(entries: seq<AuditEntry>)
    ensures Gaps(entries) == [] <==> Contiguous(entries)
  {
    if entries != [] {
      var init := entries[..|entries| - 1];
      GapsExact(init);
      assert Contiguous(init) <==> forall i :: 0 <= i < |init| ==> entries[i].leaf.sequence == i;
    }
  }

  ghost predicate IsGap(entries: seq<AuditEntry>, e: IntegrityError) {
    e.Gap? && e.index < |entries| && entries[e.index].leaf.sequence == e.found != e.index
  }

  /** Each entry out of place is reported once, in order, with its index and the number found there. */
  lemma {:induction false} GapsAre(entries: seq<AuditEntry>)
    ensures forall k :: 0 <= k < |Gaps(entries)| ==> IsGap(entries, Gaps(entries)[k])
    ensures forall j, k :: 0 <= j < k < |Gaps(entries)| ==>
      var e, f := Gaps(entries)[j], Gaps(entries)[k];
      e.Gap? && f.Gap? && e.index < f.index
    ensures forall i :: 0 <= i < |entries| && entries[i].leaf.sequence != i ==>
      Gap(i, entries[i].leaf.sequence) in Gaps(entries)
  {
    if entries != [] {
      var n := |entries| - 1;
      GapsAre(entries[..n]);
      assert forall e :: IsGap(entries[..n], e) ==> IsGap(entries, e);
      assert forall i :: 0 <= i < n ==> entries[..n][i] == entries[i];
    }
  }

  ghost predicate Repeated(entries: seq<AuditEntry>) {
    exists i, j :: 0 <= i < j < |entries| && entries[i].leaf.sequence == entries[j].leaf.sequence
  }

  lemma LastSequence(entries: seq<AuditEntry>)
    requires entries != []
    ensures var init, last := entries[..|entries| - 1], entries[|entries| - 1].leaf.sequence;
      && Sequences(entries) == Sequences(init) + {last}
      && (Repeated(entries) <==> Repeated(init) || last in Sequences(init))
  {
    var n := |entries| - 1;
    var init, last := entries[..n], entries[n].leaf.sequence;
    assert forall i :: 0 <= i < n ==> init[i] == entries[i];
    forall x
      ensures x in Sequences(entries) <==> x in Sequences(init) || x == last
    {
      if x in Sequences(init) {
        var i :| 0 <= i < n && init[i].leaf.sequence == x;
        assert entries[i].leaf.sequence == x;
      }
      assert entries[n].leaf.sequence in Sequences(entries);
    }
    if last in Sequences(init) {
      var i :| 0 <= i < n && init[i].leaf.sequence == last;
      assert entries[i].leaf.sequence == entries[n].leaf.sequence;
    }
    forall i, j | 0 <= i < j < |entries| && entries[i].leaf.sequence == entries[j].leaf.sequence
      ensures Repeated(init) || last in Sequences(init)
    {
      if j < n {
        assert init[i].leaf.sequence == init[j].leaf.sequence;
      } else {
        assert init[i].leaf.sequence in Sequences(init);
      }
    }
    if Repeated(init) {
      var i, j :| 0 <= i < j < n && init[i].leaf.sequence == init[j].leaf.sequence;
      assert entries[i].leaf.sequence == entries[j].leaf.sequence;
    }
  }

  lemma {:induction false} DuplicatesExact(entries: seq<AuditEntry>)
    ensures |Sequences(entries)| <= |entries|
    ensures |Sequences(entries)| != |entries| <==> Repeated(entries)
  {
    if entries != [] {
      DuplicatesExact(entries[..|entries| - 1]);
      LastSequence(entries);
      hide Sequences, Repeated;
    }
  }

  /** The report: the gaps, then duplicates if two numbers are equal, then a root that a rebuild does not give. */
  lemma ErrorsExact(sha: HashFn, canonical: Canonical, entries: seq<AuditEntry>, tree: seq<seq<Digest>>)
    requires Rooted(tree) && entries != []
    ensures var errors := IntegrityErrors(sha, canonical, entries, tree);
      var duplicate := exists i, j ::
        0 <= i < j < |entries| && entries[i].leaf.sequence == entries[j].leaf.sequence;
      var rebuilt := Root(sha, LeafHashes(sha, canonical, entries));
      var mismatch := tree == [] || rebuilt != tree[|tree| - 1][0];
      && Gaps(entries) <= errors
      && errors[|Gaps(entries)|..]
         == (if duplicate then [DuplicateSequence] else []) + (if mismatch then [RootMismatch] else [])
  {
    DuplicatesExact(entries);
    RootIsDigest(sha, LeafHashes(sha, canonical, entries));
    hide Root, Gaps;
  }

  lemma RootIsDigest(sha: HashFn, leaves: seq<Digest>)
    requires leaves != []
    ensures Root(sha, leaves) != ""
  {
    assert IsDigest(Root(sha, leaves));
  }

  lemma {:induction false} ContiguousHasNoDuplicates(entries: seq<AuditEntry>)
    requires Contiguous(entries)
    ensures |Sequences(entries)| == |entries|
    ensures forall x :: x in Sequences(entries) <==> 0 <= x < |entries|
  {
    if entries != [] {
      var init := entries[..|entries| - 1];
      ContiguousHasNoDuplicates(init);
      assert entries[|entries| - 1].leaf.sequence in Sequences(entries);
      forall x | x in Sequences(init)
        ensures x in Sequences(entries)
      {
        assert entries[x].leaf.sequence == x;
      }
      assert Sequences(entries) == Sequences(init) + {|entries| - 1};
    }
  }

  /** Whatever list replaces the entries, of whatever length, the integrity check passes exactly when all
      leaf fields are still those that were appended, or when everything was removed.  The payload and the
      timestamp are in no leaf, so changing them goes unnoticed. */
  lemma {:induction false} IntegrityExact(
    sha: HashFn, canonical: Canonical, original: seq<AuditEntry>, tree: seq<seq<Digest>>, replaced: seq<AuditEntry>)
    requires Intact(sha, canonical, tree, original) && Rooted(tree)
    requires IsObjectEncoding(canonical)
    requires InjectiveOn(sha, TrailInputs(sha, canonical, original) + TrailInputs(sha, canonical, replaced))
    ensures IntegrityErrors(sha, canonical, replaced, tree) == []
      <==> replaced == [] || Leaves(replaced) == Leaves(original)
  {
    hide NextLevel;
    if replaced == [] {
      return;
    }
    var inputs := TrailInputs(sha, canonical, original) + TrailInputs(sha, canonical, replaced);
    var s, t := LeafHashes(sha, canonical, replaced), LeafHashes(sha, canonical, original);
    IntactIsUsable(sha, canonical, tree, original);
    GapsExact(replaced);
    if Leaves(replaced) == Leaves(original) {
      SameLeavesSameHashes(sha, canonical, replaced, original);
      ContiguousHasNoDuplicates(replaced);
    } else if IntegrityErrors(sha, canonical, replaced, tree) == [] {
      assert original != [];
      LeavesDistinct(sha, canonical, original, inputs);
      LeavesDistinct(sha, canonical, replaced, inputs);
      NodeInputsCover(sha, s, inputs);
      NodeInputsCover(sha, t, inputs);
      RootBindsLeaves(sha, inputs, s, t);
      SameHashesSameLeaves(sha, canonical, replaced, original, inputs);
    }
  }

  lemma SameLeavesSameHashes(sha: HashFn, canonical: Canonical, a: seq<AuditEntry>, b: seq<AuditEntry>)
    requires Leaves(a) == Leaves(b)
    ensures LeafHashes(sha, canonical, a) == LeafHashes(sha, canonical, b)
    ensures Contiguous(a) <==> Contiguous(b)
  {
    assert |a| == |Leaves(a)| == |b|;
    forall i | 0 <= i < |a|
      ensures a[i].leaf == b[i].leaf
    {
      assert Leaves(a)[i] == Leaves(b)[i];
    }
  }

  lemma {:induction false} SameHashesSameLeaves(
    sha: HashFn, canonical: Canonical, a: seq<AuditEntry>, b: seq<AuditEntry>, inputs: set<string>)
    requires LeafHashes(sha, canonical, a) == LeafHashes(sha, canonical, b)
    requires TrailInputs(sha, canonical, a) <= inputs && TrailInputs(sha, canonical, b) <= inputs
    requires IsObjectEncoding(canonical) && InjectiveOn(sha, inputs)
    ensures Leaves(a) == Leaves(b)
  {
    var s, t := LeafHashes(sha, canonical, a), LeafHashes(sha, canonical, b);
    assert |a| == |s| == |t| == |b|;
    forall i | 0 <= i < |a|
      ensures a[i].leaf == b[i].leaf
    {
      assert s[i] == t[i];
      assert canonical(a[i].leaf) in TrailInputs(sha, canonical, a);
      assert canonical(b[i].leaf) in TrailInputs(sha, canonical, b);
    }
  }

  /** The strings hashed when the inclusion of `entry` is checked, and those behind the stored tree. */
  ghost function InclusionInputs(
    sha: HashFn, canonical: Canonical, original: seq<AuditEntry>, tree: seq<seq<Digest>>, entry: AuditEntry)
    : set<string>
    requires Shaped(tree)
  {
    var i := entry.leaf.sequence;
    TrailInputs(sha, canonical, original) + {canonical(entry.leaf)}
    + if |tree| > 0 && 0 <= i < |tree[0]| then
        FoldInputs(sha, LeafHash(sha, canonical, entry), ProofPath(tree, i))
        + FoldInputs(sha, tree[0][i], ProofPath(tree, i))
      else {}
  }

  /** Even when the stored entries have been replaced, an entry passes the inclusion check exactly when its
      leaf fields are those appended at its position and still stored there. */
  lemma {:induction false} InclusionExact(
    sha: HashFn, canonical: Canonical, original: seq<AuditEntry>, tree: seq<seq<Digest>>, stored: seq<AuditEntry>,
    entry: AuditEntry)
    requires Intact(sha, canonical, tree, original) && Rooted(tree) && Shaped(tree)
    requires IsObjectEncoding(canonical)
    requires InjectiveOn(sha, InclusionInputs(sha, canonical, original, tree, entry)
                              + set i | 0 <= i < |stored| :: canonical(stored[i].leaf))
    ensures InclusionHolds(sha, canonical, stored, tree, entry)
      <==> var i := entry.leaf.sequence;
           0 <= i < |original| && i < |stored| && entry.leaf == original[i].leaf == stored[i].leaf
  {
    hide NextLevel;
    var i := entry.leaf.sequence;
    var inputs := InclusionInputs(sha, canonical, original, tree, entry)
                  + set i | 0 <= i < |stored| :: canonical(stored[i].leaf);
    if 0 <= i < |stored| {
      assert canonical(stored[i].leaf) in inputs;
    }
    if 0 <= i < |original| {
      IncludedIfOriginal(sha, canonical, original, tree, stored, entry);
    }
    hide Intact, TrailInputs, FoldInputs;
    OnlyOriginalIncluded(sha, canonical, original, tree, stored, entry, inputs);
  }

  lemma IncludedIfOriginal(
    sha: HashFn, canonical: Canonical, original: seq<AuditEntry>, tree: seq<seq<Digest>>, stored: seq<AuditEntry>,
    entry: AuditEntry)
    requires Intact(sha, canonical, tree, original) && Rooted(tree) && Shaped(tree)
    requires 0 <= entry.leaf.sequence < |original|
    ensures var i := entry.leaf.sequence;
      i < |stored| && entry.leaf == original[i].leaf == stored[i].leaf
      ==> InclusionHolds(sha, canonical, stored, tree, entry)
  {
    IntactIsUsable(sha, canonical, tree, original);
    GeneratedProofVerifies(sha, LeafHashes(sha, canonical, original), entry.leaf.sequence);
    hide NextLevel, Fold, ProofPath, Shaped, Root;
  }

  lemma {:induction false} OnlyOriginalIncluded(
    sha: HashFn, canonical: Canonical, original: seq<AuditEntry>, tree: seq<seq<Digest>>, stored: seq<AuditEntry>,
    entry: AuditEntry, inputs: set<string>)
    requires Intact(sha, canonical, tree, original) && Rooted(tree) && Shaped(tree)
    requires IsObjectEncoding(canonical) && InjectiveOn(sha, inputs)
    requires InclusionInputs(sha, canonical, original, tree, entry) <= inputs
    requires 0 <= entry.leaf.sequence < |stored| ==> canonical(stored[entry.leaf.sequence].leaf) in inputs
    ensures InclusionHolds(sha, canonical, stored, tree, entry) ==>
      var i := entry.leaf.sequence;
      0 <= i < |original| && i < |stored| && entry.leaf == original[i].leaf == stored[i].leaf
  {
    hide NextLevel;
    var i := entry.leaf.sequence;
    var leaves, x := LeafHashes(sha, canonical, original), LeafHash(sha, canonical, entry);
    IntactIsUsable(sha, canonical, tree, original);
    if InclusionHolds(sha, canonical, stored, tree, entry) {
      assert original != [];
      TreeIsShaped(sha, leaves);
      assert canonical(entry.leaf) in inputs && TrailInputs(sha, canonical, original) <= inputs;
      if i < |tree[0]| {
        OnlyPaddedLeaf(sha, leaves, i, x);
        hide Fold, FoldInputs, ProofPath, Intact, TrailInputs, Root, Tree, InclusionInputs;
        var j := if i < |original| then i else |original| - 1;
        LeafIsInput(sha, canonical, original, j);
        SameLeafHash(sha, canonical, original, inputs, entry, j);
        assert i < |original|;
        SameLeafHash(sha, canonical, stored, inputs, entry, i);
      } else {
        hide Fold, FoldInputs, ProofPath, TrailInputs, Root, Tree, InclusionInputs;
        RootIsNoLeafHash(sha, canonical, original, inputs, entry);
      }
    }
  }

  /** Only the stored leaf, or the padding beside it, folds to the root along the stored path. */
  lemma OnlyPaddedLeaf(sha: HashFn, leaves: seq<Digest>, i: nat, x: Digest)
    requires leaves != [] && i < |Padded(leaves)|
    requires Shaped(Tree(sha, leaves)) && Tree(sha, leaves)[0] == Padded(leaves)
    requires Fold(sha, x, ProofPath(Tree(sha, leaves), i)) == Root(sha, leaves)
    requires InjectiveOn(sha, FoldInputs(sha, x, ProofPath(Tree(sha, leaves), i))
                              + FoldInputs(sha, Padded(leaves)[i], ProofPath(Tree(sha, leaves), i)))
    ensures x == Padded(leaves)[i]
  {
    GeneratedProofVerifies(sha, leaves, i);
    hide Fold, FoldInputs, ProofPath, Root, Tree;
    FoldInjective(sha, x, ProofPath(Tree(sha, leaves), i), Padded(leaves)[i], ProofPath(Tree(sha, leaves), i));
  }

  lemma SameLeafHash(
    sha: HashFn, canonical: Canonical, original: seq<AuditEntry>, inputs: set<string>, entry: AuditEntry, j: nat)
    requires j < |original| && IsObjectEncoding(canonical) && InjectiveOn(sha, inputs)
    requires canonical(entry.leaf) in inputs && canonical(original[j].leaf) in inputs
    requires LeafHash(sha, canonical, entry) == LeafHash(sha, canonical, original[j])
    ensures entry.leaf == original[j].leaf
  {
  }

  lemma LeafIsInput(sha: HashFn, canonical: Canonical, original: seq<AuditEntry>, j: nat)
    requires j < |original|
    ensures canonical(original[j].leaf) in TrailInputs(sha, canonical, original)
  {
  }

  lemma {:induction false} RootIsNoLeafHash(
    sha: HashFn, canonical: Canonical, original: seq<AuditEntry>, inputs: set<string>, entry: AuditEntry)
    requires original != [] && Contiguous(original) && entry.leaf.sequence >= |original|
    requires IsObjectEncoding(canonical) && InjectiveOn(sha, inputs)
    requires canonical(entry.leaf) in inputs && TrailInputs(sha, canonical, original) <= inputs
    ensures LeafHash(sha, canonical, entry) != Root(sha, LeafHashes(sha, canonical, original))
  {
    hide NextLevel;
    var leaves := LeafHashes(sha, canonical, original);
    if |original| == 1 {
      LeafIsInput(sha, canonical, original, 0);
    } else {
      var x, y := RootIsInnerNode(sha, inputs, leaves);
      ObjectIsNoPair(canonical(entry.leaf), x, y);
    }
  }
}
