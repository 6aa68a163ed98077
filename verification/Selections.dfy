/** Subsequences: the elements at some positions, in order. */
module Selections {

  ghost predicate IsSelection<T>(all: seq<T>, positions: seq<nat>, chosen: seq<T>) {
    && |positions| == |chosen|
    && (forall k :: 0 <= k < |positions| ==> positions[k] < |all| && chosen[k] == all[positions[k]])
    && forall j, k :: 0 <= j < k < |positions| ==> positions[j] < positions[k]
  }

  function Shift(positions: seq<nat>): seq<nat> {
    seq(|positions|, k requires 0 <= k < |positions| => positions[k] + 1)
  }

  lemma ShiftMembers(positions: seq<nat>, i: nat)
    ensures i in Shift(positions) <==> i > 0 && i - 1 in positions
  {
    if i > 0 && i - 1 in positions {
      var k :| 0 <= k < |positions| && positions[k] == i - 1;
      assert Shift(positions)[k] == i;
    }
  }

  /** A selection from the tail, with or without the first element. */
  lemma SelectFirst<T>(all: seq<T>, positions: seq<nat>, chosen: seq<T>, keep: bool)
    requires all != [] && IsSelection(all[1..], positions, chosen)
    ensures var first := if keep then [0] else [];
      && IsSelection(all, first + Shift(positions), (if keep then [all[0]] else []) + chosen)
      && forall i: nat :: i in first + Shift(positions) <==> (i == 0 && keep) || (i > 0 && i - 1 in positions)
  {
    var first := if keep then [0] else [];
    forall i: nat
      ensures i in first + Shift(positions) <==> (i == 0 && keep) || (i > 0 && i - 1 in positions)
    {
      ShiftMembers(positions, i);
    }
  }

  /** A selection from all but the last element, with or without that one. */
  lemma SelectLast<T>(all: seq<T>, positions: seq<nat>, chosen: seq<T>, keep: bool)
    requires all != [] && IsSelection(all[..|all| - 1], positions, chosen)
    ensures var last: nat := |all| - 1;
      && IsSelection(all, positions + (if keep then [last] else []), chosen + if keep then [all[last]] else [])
  {
  }
}
