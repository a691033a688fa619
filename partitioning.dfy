/**
 * The greedy column grouping that TaskGenerator performs over a header:
 * walk the column names in order, keep a running memory total for the open
 * group, and close the group before a column whose size would push a
 * non-empty total past half of the memory budget. Both table walks of the
 * generator (over table A and over table B) are this same walk.
 */
module Partitioning {
  import opened Lists

  /** Java's `memoryBudget / 2` on an int: the quotient is truncated toward zero. */
  function Half(budget: int): (h: int)
    ensures 0 <= budget ==> 0 <= h && 2 * h <= budget <= 2 * h + 1
    ensures budget < 0 ==> h <= 0 && 2 * h - 1 <= budget <= 2 * h
  {
    if budget >= 0 then budget / 2 else -((-budget) / 2)
  }

  /**
   * `isInMemoryBudget`: true means "close the open group first", which happens
   * exactly when the open group already uses memory and this column would take
   * it past `half`.
   */
  predicate ClosesGroup(used: int, size: int, half: int)
  {
    used != 0 && used + size > half
  }

  ghost predicate Sized(names: seq<string>, size: map<string, int>)
  {
    forall k :: 0 <= k < |names| ==> names[k] in size
  }

  /** Total memory of the named columns. */
  function Sum(names: seq<string>, size: map<string, int>): int
    requires Sized(names, size)
  {
    if |names| == 0 then 0 else Sum(names[..|names| - 1], size) + size[names[|names| - 1]]
  }

  lemma SumPrefix(g: seq<string>, size: map<string, int>, j: nat)
    requires Sized(g, size) && j < |g|
    ensures Sum(g[..j + 1], size) == Sum(g[..j], size) + size[g[j]]
  {
    assert g[..j + 1][..j] == g[..j];
  }

  /** The state of the walk: the groups closed so far, the open group and its running total. */
  datatype Walk = Walk(closed: seq<seq<string>>, current: seq<string>, used: int)

  /** One column `n` of memory `s` taken by the walk: close the open group first if it does not fit. */
  function WalkStep(w: Walk, n: string, s: int, half: int): Walk
  {
    if ClosesGroup(w.used, s, half) then Walk(w.closed + [w.current], [n], s)
    else Walk(w.closed, w.current + [n], w.used + s)
  }

  /** The walk over `names`, one column at a time, as the generator's header loops perform it. */
  function GreedyWalk(names: seq<string>, size: map<string, int>, half: int): Walk
    requires Sized(names, size)
  {
    if |names| == 0 then Walk([], [], 0)
    else
      var n := names[|names| - 1];
      WalkStep(GreedyWalk(names[..|names| - 1], size, half), n, size[n], half)
  }

  lemma SizedPrefix(names: seq<string>, size: map<string, int>, i: nat)
    requires Sized(names, size) && i <= |names|
    ensures Sized(names[..i], size)
  {
    assert forall k :: 0 <= k < i ==> names[..i][k] == names[k];
  }

  /** The walk after the first `i` columns of `names`. */
  function WalkPrefix(names: seq<string>, i: nat, size: map<string, int>, half: int): Walk
    requires Sized(names, size) && i <= |names|
  {
    SizedPrefix(names, size, i);
    GreedyWalk(names[..i], size, half)
  }

  /** The walk over `i + 1` columns is the walk over `i` columns followed by column `i`. */
  lemma WalkPrefixStep(names: seq<string>, i: nat, size: map<string, int>, half: int)
    requires Sized(names, size) && i < |names|
    ensures names[i] in size
    ensures WalkPrefix(names, i + 1, size, half) == WalkStep(WalkPrefix(names, i, size, half), names[i], size[names[i]], half)
  {
    SizedPrefix(names, size, i + 1);
    assert names[..i + 1][..i] == names[..i];
  }

  lemma WalkPrefixEnds(names: seq<string>, size: map<string, int>, half: int)
    requires Sized(names, size)
    ensures WalkPrefix(names, 0, size, half) == Walk([], [], 0)
    ensures WalkPrefix(names, |names|, size, half) == GreedyWalk(names, size, half)
  {
    assert names[..|names|] == names;
  }

  /** All groups of the walk: the closed ones and the final open one, which the trailing call also emits. */
  function Groups(names: seq<string>, size: map<string, int>, half: int): seq<seq<string>>
    requires Sized(names, size)
  {
    var w := GreedyWalk(names, size, half);
    w.closed + [w.current]
  }

  /**
   * Within a group, every column after the first joined a group whose running
   * total was zero or stays within `half` after the join.
   */
  ghost predicate JoinsWithinHalf(g: seq<string>, size: map<string, int>, half: int)
    requires Sized(g, size)
  {
    forall j :: 1 <= j < |g| ==> Sum(g[..j], size) == 0 || Sum(g[..j + 1], size) <= half
  }

  /** Every group but the last was closed because the next group's first column did not fit. */
  ghost predicate ClosedOnlyWhenFull(gs: seq<seq<string>>, size: map<string, int>, half: int)
    requires forall i :: 0 <= i < |gs| ==> Sized(gs[i], size)
  {
    forall i :: 0 < i < |gs| ==>
      gs[i] != [] && gs[i][0] in size && ClosesGroup(Sum(gs[i - 1], size), size[gs[i][0]], half)
  }

  ghost predicate WalkInvariant(names: seq<string>, w: Walk, size: map<string, int>, half: int)
  {
    && Flatten(w.closed + [w.current]) == names
    && (forall i :: 0 <= i < |w.closed| ==> Sized(w.closed[i], size))
    && Sized(w.current, size)
    && w.used == Sum(w.current, size)
    && (forall i :: 0 <= i < |w.closed| ==> w.closed[i] != [])
    && (names != [] ==> w.current != [])
    && (forall i :: 0 <= i < |w.closed + [w.current]| ==> JoinsWithinHalf((w.closed + [w.current])[i], size, half))
    && ClosedOnlyWhenFull(w.closed + [w.current], size, half)
  }

  lemma SizedGroup(g: seq<string>, size: map<string, int>)
    requires |g| > 0 && g[|g| - 1] in size && Sized(g[..|g| - 1], size)
    ensures Sized(g, size)
  {
    assert forall k :: 0 <= k < |g| - 1 ==> g[k] == g[..|g| - 1][k];
  }

  /** Closing the open group and starting a new one with `n` keeps the invariant. */
  lemma WalkCloseStep(names: seq<string>, w: Walk, n: string, size: map<string, int>, half: int)
    requires n in size
    requires WalkInvariant(names, w, size, half)
    requires ClosesGroup(w.used, size[n], half)
    ensures WalkInvariant(names + [n], Walk(w.closed + [w.current], [n], size[n]), size, half)
  {
    var gs := w.closed + [w.current];
    var gs' := gs + [[n]];
    FlattenSnoc(gs, [n]);
    assert w.current == [] ==> w.used == 0;
    assert Sized([n], size);
    assert Sum([n], size) == size[n] by { assert [n][..0] == []; }
    assert JoinsWithinHalf([n], size, half);
    forall i | 0 <= i < |gs'| ensures JoinsWithinHalf(gs'[i], size, half) {
      if i < |gs| { assert gs'[i] == gs[i]; }
    }
    forall i | 0 < i < |gs'|
      ensures gs'[i] != [] && gs'[i][0] in size && ClosesGroup(Sum(gs'[i - 1], size), size[gs'[i][0]], half)
    {
      if i < |gs| { assert gs'[i - 1] == gs[i - 1] && gs'[i] == gs[i]; }
    }
  }

  /** A column that joins the open group without closing it keeps that group's joins within `half`. */
  lemma JoinSnoc(g: seq<string>, n: string, size: map<string, int>, half: int)
    requires n in size && Sized(g, size) && JoinsWithinHalf(g, size, half)
    requires !ClosesGroup(Sum(g, size), size[n], half)
    ensures Sized(g + [n], size) && Sum(g + [n], size) == Sum(g, size) + size[n]
    ensures JoinsWithinHalf(g + [n], size, half)
  {
    var c := g + [n];
    assert c[..|g|] == g;
    SizedGroup(c, size);
    SumPrefix(c, size, |g|);
    forall j | 1 <= j < |c| ensures Sum(c[..j], size) == 0 || Sum(c[..j + 1], size) <= half {
      if j < |g| {
        assert c[..j] == g[..j] && c[..j + 1] == g[..j + 1];
      } else {
        assert c[..j] == g && c[..j + 1] == c;
      }
    }
  }

  /** Adding `n` to the open group keeps the invariant. */
  lemma WalkJoinStep(names: seq<string>, w: Walk, n: string, size: map<string, int>, half: int)
    requires n in size
    requires WalkInvariant(names, w, size, half)
    requires !ClosesGroup(w.used, size[n], half)
    ensures WalkInvariant(names + [n], Walk(w.closed, w.current + [n], w.used + size[n]), size, half)
  {
    var gs := w.closed + [w.current];
    var c := w.current + [n];
    var gs' := w.closed + [c];
    FlattenSnoc(w.closed, w.current);
    FlattenSnoc(w.closed, c);
    assert JoinsWithinHalf(gs[|w.closed|], size, half);
    JoinSnoc(w.current, n, size, half);
    forall i | 0 <= i < |gs'| ensures JoinsWithinHalf(gs'[i], size, half) {
      if i < |w.closed| { assert gs'[i] == gs[i]; }
    }
    forall i | 0 < i < |gs'|
      ensures gs'[i] != [] && gs'[i][0] in size && ClosesGroup(Sum(gs'[i - 1], size), size[gs'[i][0]], half)
    {
      assert gs'[i - 1] == gs[i - 1];
      if i < |w.closed| {
        assert gs'[i] == gs[i];
      } else {
        assert gs[i] == w.current && w.current != [];
        assert gs'[i][0] == w.current[0];
      }
    }
  }

  lemma {:induction false} GreedyWalkInvariant(names: seq<string>, size: map<string, int>, half: int)
    requires Sized(names, size)
    ensures WalkInvariant(names, GreedyWalk(names, size, half), size, half)
    decreases |names|
  {
    if |names| == 0 {
      var none: seq<seq<string>> := [];
      FlattenSnoc(none, []);
      assert none + [[]] == [[]];
      assert JoinsWithinHalf([], size, half);
    } else {
      var init, n := names[..|names| - 1], names[|names| - 1];
      assert init + [n] == names;
      assert Sized(init, size) by { assert forall k :: 0 <= k < |init| ==> init[k] == names[k]; }
      GreedyWalkInvariant(init, size, half);
      WalkStepInvariant(init, GreedyWalk(init, size, half), n, size, half);
    }
  }

  /** One step of the walk keeps the invariant, whether it closes the open group or not. */
  lemma WalkStepInvariant(names: seq<string>, w: Walk, n: string, size: map<string, int>, half: int)
    requires n in size
    requires WalkInvariant(names, w, size, half)
    ensures WalkInvariant(names + [n], WalkStep(w, n, size[n], half), size, half)
  {
    if ClosesGroup(w.used, size[n], half) {
      WalkCloseStep(names, w, n, size, half);
    } else {
      WalkJoinStep(names, w, n, size, half);
    }
  }

  /**
   * The groups, in order, concatenate to exactly the header. There is always at
   * least one group; an empty header gives the single empty group, and a
   * non-empty header gives only non-empty groups.
   */
  lemma GroupsPartitionHeader(names: seq<string>, size: map<string, int>, half: int)
    requires Sized(names, size)
    ensures Flatten(Groups(names, size, half)) == names
    ensures |Groups(names, size, half)| >= 1
    ensures names == [] ==> Groups(names, size, half) == [[]]
    ensures names != [] ==> forall i :: 0 <= i < |Groups(names, size, half)| ==> Groups(names, size, half)[i] != []
  {
    GreedyWalkInvariant(names, size, half);
  }

  /**
   * The greedy rule on both sides: inside a group every column after the
   * first joined a zero total or kept the total within `half`, and a group was
   * closed only because its total was non-zero and the next column would
   * have taken it past `half`.
   */
  lemma GroupsAreGreedy(names: seq<string>, size: map<string, int>, half: int)
    requires Sized(names, size)
    ensures forall i :: 0 <= i < |Groups(names, size, half)| ==>
      Sized(Groups(names, size, half)[i], size) && JoinsWithinHalf(Groups(names, size, half)[i], size, half)
    ensures ClosedOnlyWhenFull(Groups(names, size, half), size, half)
  {
    GreedyWalkInvariant(names, size, half);
  }

  /** With every column size positive, each group is a single column or fits in `half`. */
  lemma GroupsWithinHalf(names: seq<string>, size: map<string, int>, half: int)
    requires Sized(names, size)
    requires forall k :: 0 <= k < |names| ==> size[names[k]] > 0
    ensures forall i :: 0 <= i < |Groups(names, size, half)| ==>
      Sized(Groups(names, size, half)[i], size) &&
      (|Groups(names, size, half)[i]| <= 1 || Sum(Groups(names, size, half)[i], size) <= half)
  {
    var gs := Groups(names, size, half);
    GreedyWalkInvariant(names, size, half);
    forall i | 0 <= i < |gs| ensures Sized(gs[i], size) && (|gs[i]| <= 1 || Sum(gs[i], size) <= half) {
      var g := gs[i];
      if |g| > 1 {
        assert JoinsWithinHalf(g, size, half);
        var init := g[..|g| - 1];
        forall k | 0 <= k < |init| ensures size[init[k]] > 0 {
          assert init[k] in g;
          FlattenMember(gs, i, init[k]);
        }
        PositiveSum(init, size);
        assert g[..|g|] == g;
      }
    }
  }

  lemma {:induction false} PositiveSum(g: seq<string>, size: map<string, int>)
    requires Sized(g, size) && |g| > 0
    requires forall k :: 0 <= k < |g| ==> size[g[k]] > 0
    ensures Sum(g, size) > 0
    decreases |g|
  {
    if |g| > 1 {
      var init := g[..|g| - 1];
      assert forall k :: 0 <= k < |init| ==> init[k] == g[k];
      PositiveSum(init, size);
    }
  }
}
