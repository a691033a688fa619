/**
 * TaskGenerator.java: cuts table A's header and table B's header into
 * memory-bounded groups (module Partitioning) and emits one Task per pair of
 * an A-group and a B-group.
 *
 * The Java lists `taskHeaderA` and `taskHeaderB` are objects that tasks keep
 * by reference, and `taskHeaderB` is not replaced after the last task of a B
 * pass, so the next pass keeps appending to a list that an earlier task
 * holds. The model keeps that aliasing: list objects live in an arena
 * (`lists`), `taskHeaderA`/`taskHeaderB` are handles into it, and a
 * generated task holds two handles. `Resolve` reads the tasks back through
 * the handles, which is what the caller of `run` sees once generation is
 * over, and `GeneratedTasks` gives the same result in closed form.
 */
module TaskGeneration {
  import opened Lists
  import opened Tasks
  import opened Columns
  import opened Storage
  import opened Partitioning

  /** A generated task as the generator holds it: its column lists are handles into the arena. */
  datatype TaskRef = TaskRef(tableNameA: string, tableNameB: string, columnNamesA: nat, columnNamesB: nat)

  /** The generator's mutable state: every list object created so far, the two open lists and the tasks. */
  datatype Arena = Arena(lists: seq<seq<string>>, taskHeaderA: nat, taskHeaderB: nat, tasks: seq<TaskRef>)

  ghost predicate WellFormed(ar: Arena)
  {
    && ar.taskHeaderA < |ar.lists| && ar.taskHeaderB < |ar.lists|
    && forall i :: 0 <= i < |ar.tasks| ==>
         ar.tasks[i].columnNamesA < |ar.lists| && ar.tasks[i].columnNamesB < |ar.lists|
  }

  /** The tasks with their lists' current contents. */
  function ResolveTasks(lists: seq<seq<string>>, refs: seq<TaskRef>): (ts: seq<Task>)
    requires forall i :: 0 <= i < |refs| ==> refs[i].columnNamesA < |lists| && refs[i].columnNamesB < |lists|
    ensures |ts| == |refs|
    ensures forall i :: 0 <= i < |refs| ==>
      ts[i] == Task(refs[i].tableNameA, refs[i].tableNameB, lists[refs[i].columnNamesA], lists[refs[i].columnNamesB])
  {
    if |refs| == 0 then []
    else
      var r := refs[|refs| - 1];
      ResolveTasks(lists, refs[..|refs| - 1]) + [Task(r.tableNameA, r.tableNameB, lists[r.columnNamesA], lists[r.columnNamesB])]
  }

  function Resolve(ar: Arena): seq<Task>
    requires WellFormed(ar)
  {
    ResolveTasks(ar.lists, ar.tasks)
  }

  /** The state of a fresh generator: two empty lists, A's and B's. */
  const Initial := Arena([[], []], 0, 1, [])

  /** `generateTask`: a task holding the two open lists. */
  function WithTask(ar: Arena, tableNameA: string, tableNameB: string): Arena
  {
    ar.(tasks := ar.tasks + [TaskRef(tableNameA, tableNameB, ar.taskHeaderA, ar.taskHeaderB)])
  }

  /** Task references of one B pass: the first holds the carried B list, the others the lists created from `base` on. */
  function PassRefs(tableNameA: string, tableNameB: string, a: nat, carried: nat, base: nat, count: nat): (rs: seq<TaskRef>)
    ensures |rs| == count
  {
    seq(count, j requires 0 <= j < count => TaskRef(tableNameA, tableNameB, a, if j == 0 then carried else base + j - 1))
  }

  /**
   * A B pass that has reached the groups `gs` (the last one still open): the
   * first group went into the carried B list, every later group into a list
   * of its own, and every group but the open one has its task.
   */
  function BPartial(ar: Arena, tableNameA: string, tableNameB: string, gs: seq<seq<string>>): (r: Arena)
    requires WellFormed(ar) && |gs| >= 1
    ensures WellFormed(r)
    ensures |r.lists| == |ar.lists| + |gs| - 1 && r.taskHeaderA == ar.taskHeaderA
  {
    var base := |ar.lists|;
    Arena(
      ar.lists[ar.taskHeaderB := ar.lists[ar.taskHeaderB] + gs[0]] + gs[1..],
      ar.taskHeaderA,
      if |gs| == 1 then ar.taskHeaderB else base + |gs| - 2,
      ar.tasks + PassRefs(tableNameA, tableNameB, ar.taskHeaderA, ar.taskHeaderB, base, |gs| - 1))
  }

  /** `runTableBGeneration` over the B-groups `gb`: the partial pass over all of them, then the trailing task. */
  function BPass(ar: Arena, tableNameA: string, tableNameB: string, gb: seq<seq<string>>): (r: Arena)
    requires WellFormed(ar) && |gb| >= 1
    ensures WellFormed(r)
  {
    WithTask(BPartial(ar, tableNameA, tableNameB, gb), tableNameA, tableNameB)
  }

  /** The open A list holds `g`. */
  function SetA(ar: Arena, g: seq<string>): (r: Arena)
    requires WellFormed(ar)
    ensures WellFormed(r)
  {
    ar.(lists := ar.lists[ar.taskHeaderA := g])
  }

  /** `taskHeaderA = new ArrayList<>()`. */
  function NewAList(ar: Arena): (r: Arena)
    requires WellFormed(ar)
    ensures WellFormed(r)
  {
    ar.(lists := ar.lists + [[]], taskHeaderA := |ar.lists|)
  }

  /** The state after one B pass per A-group of `ga`, each followed by a fresh A list. */
  function Passes(tableNameA: string, tableNameB: string, ga: seq<seq<string>>, gb: seq<seq<string>>): (r: Arena)
    requires |gb| >= 1
    ensures WellFormed(r)
  {
    if |ga| == 0 then Initial
    else NewAList(BPass(SetA(Passes(tableNameA, tableNameB, ga[..|ga| - 1], gb), ga[|ga| - 1]), tableNameA, tableNameB, gb))
  }

  /** The state `runTableAGeneration` leaves: the trailing B pass runs on the last A-group. */
  function RunArena(tableNameA: string, tableNameB: string, ga: seq<seq<string>>, gb: seq<seq<string>>): (r: Arena)
    requires |ga| >= 1 && |gb| >= 1
    ensures WellFormed(r)
  {
    BPass(SetA(Passes(tableNameA, tableNameB, ga[..|ga| - 1], gb), ga[|ga| - 1]), tableNameA, tableNameB, gb)
  }

  // ---------------------------------------------------------------------------
  // What the tasks finally hold, in closed form.
  // ---------------------------------------------------------------------------

  /**
   * The final B list of task j of pass p (of m passes). With a single B-group
   * every task holds the one shared list, which received that group once per
   * pass. Otherwise the list of the last group of a pass is carried into the
   * next pass and also receives its first group, so it is held by the last
   * task of pass p and the first task of pass p + 1.
   */
  function BFinal(gb: seq<seq<string>>, m: nat, p: nat, j: nat): seq<string>
    requires j < |gb|
  {
    var k := |gb|;
    if k == 1 then Repeat(gb[0], m)
    else if j == 0 && p > 0 then gb[k - 1] + gb[0]
    else if j == k - 1 && p + 1 < m then gb[k - 1] + gb[0]
    else gb[j]
  }

  function PassTasks(tableNameA: string, tableNameB: string, a: seq<string>, gb: seq<seq<string>>, m: nat, p: nat): (ts: seq<Task>)
    ensures |ts| == |gb|
  {
    seq(|gb|, j requires 0 <= j < |gb| => Task(tableNameA, tableNameB, a, BFinal(gb, m, p, j)))
  }

  /** The tasks of the first q passes of m. */
  function TasksUpTo(tableNameA: string, tableNameB: string, ga: seq<seq<string>>, gb: seq<seq<string>>, m: nat, q: nat): seq<Task>
    requires q <= |ga|
  {
    if q == 0 then []
    else TasksUpTo(tableNameA, tableNameB, ga, gb, m, q - 1) + PassTasks(tableNameA, tableNameB, ga[q - 1], gb, m, q - 1)
  }

  /** The tasks `run` returns for A-groups `ga` and B-groups `gb`, with the contents their lists end up holding. */
  function GeneratedTasks(tableNameA: string, tableNameB: string, ga: seq<seq<string>>, gb: seq<seq<string>>): seq<Task>
  {
    TasksUpTo(tableNameA, tableNameB, ga, gb, |ga|, |ga|)
  }

  /** Appending `s` to a task's B list. */
  function BumpB(t: Task, s: seq<string>): Task
  {
    t.(columnNamesB := t.columnNamesB + s)
  }

  /** The effect of the next pass on earlier tasks: those holding the carried list see the first B-group appended. */
  function Bumped(ts: seq<Task>, gb: seq<seq<string>>): (r: seq<Task>)
    requires |gb| >= 1
    ensures |r| == |ts|
  {
    seq(|ts|, i requires 0 <= i < |ts| => if |gb| == 1 || i == |ts| - 1 then BumpB(ts[i], gb[0]) else ts[i])
  }

  lemma {:induction false} TasksUpToRepeat(tableNameA: string, tableNameB: string, ga: seq<seq<string>>, gb: seq<seq<string>>, m: nat, q: nat)
    requires q <= |ga| && |gb| == 1
    ensures TasksUpTo(tableNameA, tableNameB, ga, gb, m + 1, q) == Bumped(TasksUpTo(tableNameA, tableNameB, ga, gb, m, q), gb)
    decreases q
  {
    if q > 0 {
      TasksUpToRepeat(tableNameA, tableNameB, ga, gb, m, q - 1);
      var before := TasksUpTo(tableNameA, tableNameB, ga, gb, m, q - 1);
      var pass := PassTasks(tableNameA, tableNameB, ga[q - 1], gb, m, q - 1);
      var pass' := PassTasks(tableNameA, tableNameB, ga[q - 1], gb, m + 1, q - 1);
      assert pass' == Bumped(pass, gb);
      assert Bumped(before + pass, gb) == Bumped(before, gb) + Bumped(pass, gb);
    }
  }

  lemma {:induction false} TasksUpToStable(tableNameA: string, tableNameB: string, ga: seq<seq<string>>, gb: seq<seq<string>>, m: nat, m': nat, q: nat)
    requires q <= |ga| && |gb| >= 2 && q < m && q < m'
    ensures TasksUpTo(tableNameA, tableNameB, ga, gb, m, q) == TasksUpTo(tableNameA, tableNameB, ga, gb, m', q)
    decreases q
  {
    if q > 0 {
      TasksUpToStable(tableNameA, tableNameB, ga, gb, m, m', q - 1);
      assert PassTasks(tableNameA, tableNameB, ga[q - 1], gb, m, q - 1) == PassTasks(tableNameA, tableNameB, ga[q - 1], gb, m', q - 1);
    }
  }

  /** One more pass changes the tasks of the first q passes exactly as `Bumped` says. */
  lemma TasksUpToNext(tableNameA: string, tableNameB: string, ga: seq<seq<string>>, gb: seq<seq<string>>, q: nat)
    requires 1 <= q <= |ga| && |gb| >= 1
    ensures TasksUpTo(tableNameA, tableNameB, ga, gb, q + 1, q) == Bumped(TasksUpTo(tableNameA, tableNameB, ga, gb, q, q), gb)
  {
    var k := |gb|;
    if k == 1 {
      TasksUpToRepeat(tableNameA, tableNameB, ga, gb, q, q);
    } else {
      TasksUpToStable(tableNameA, tableNameB, ga, gb, q, q + 1, q - 1);
      var before := TasksUpTo(tableNameA, tableNameB, ga, gb, q, q - 1);
      var pass := PassTasks(tableNameA, tableNameB, ga[q - 1], gb, q, q - 1);
      var pass' := PassTasks(tableNameA, tableNameB, ga[q - 1], gb, q + 1, q - 1);
      assert pass' == pass[k - 1 := BumpB(pass[k - 1], gb[0])];
      var all := before + pass;
      assert Bumped(all, gb) == before + pass';
    }
  }

  // ---------------------------------------------------------------------------
  // The arena after q passes resolves to the closed form.
  // ---------------------------------------------------------------------------

  /** The content of the B list carried out of q >= 1 passes. */
  function Carried(gb: seq<seq<string>>, q: nat): seq<string>
    requires |gb| >= 1
  {
    if |gb| == 1 then Repeat(gb[0], q) else gb[|gb| - 1]
  }

  ghost predicate CarryInvariant(ar: Arena, tableNameA: string, tableNameB: string, ga: seq<seq<string>>, gb: seq<seq<string>>, q: nat)
    requires |gb| >= 1
  {
    && WellFormed(ar) && q <= |ga|
    && ar.taskHeaderA != ar.taskHeaderB
    && ar.lists[ar.taskHeaderA] == []
    && (forall i :: 0 <= i < |ar.tasks| ==>
          ar.tasks[i].columnNamesA != ar.taskHeaderA && ar.tasks[i].columnNamesB != ar.taskHeaderA &&
          ar.tasks[i].columnNamesA != ar.taskHeaderB)
    && ar.lists[ar.taskHeaderB] == (if q == 0 then [] else Carried(gb, q))
    && (forall i :: 0 <= i < |ar.tasks| ==>
          (ar.tasks[i].columnNamesB == ar.taskHeaderB <==> |gb| == 1 || i == |ar.tasks| - 1))
    && Resolve(ar) == TasksUpTo(tableNameA, tableNameB, ga, gb, q, q)
  }

  lemma RepeatSnoc<T>(s: seq<T>, q: nat)
    ensures Repeat(s, q + 1) == Repeat(s, q) + s
  {
  }

  /** What one A-group's pass does to the arena, listed field by field. */
  ghost predicate StepShaped(ar: Arena, r: Arena, tableNameA: string, tableNameB: string, a: seq<string>, gb: seq<seq<string>>)
    requires WellFormed(ar) && |gb| >= 1
  {
    var base, k, hA, hB := |ar.lists|, |gb|, ar.taskHeaderA, ar.taskHeaderB;
    && WellFormed(r)
    && |r.lists| == base + k
    && (forall x :: 0 <= x < base && x != hA && x != hB ==> r.lists[x] == ar.lists[x])
    && r.lists[hB] == ar.lists[hB] + gb[0]
    && (forall j :: 1 <= j < k ==> r.lists[base + j - 1] == gb[j])
    && r.lists[base + k - 1] == []
    && r.tasks == ar.tasks + PassRefs(tableNameA, tableNameB, hA, hB, base, k)
    && r.taskHeaderA == base + k - 1
    && r.taskHeaderB == (if k == 1 then hB else base + k - 2)
  }

  lemma StepShape(ar: Arena, tableNameA: string, tableNameB: string, a: seq<string>, gb: seq<seq<string>>)
    requires WellFormed(ar) && |gb| >= 1 && ar.taskHeaderA != ar.taskHeaderB
    ensures StepShaped(ar, NewAList(BPass(SetA(ar, a), tableNameA, tableNameB, gb)), tableNameA, tableNameB, a, gb)
  {
    var k, base := |gb|, |ar.lists|;
    var r := NewAList(BPass(SetA(ar, a), tableNameA, tableNameB, gb));
    assert r.lists == ar.lists[ar.taskHeaderA := a][ar.taskHeaderB := ar.lists[ar.taskHeaderB] + gb[0]] + gb[1..] + [[]];
    assert PassRefs(tableNameA, tableNameB, ar.taskHeaderA, ar.taskHeaderB, base, k)
      == PassRefs(tableNameA, tableNameB, ar.taskHeaderA, ar.taskHeaderB, base, k - 1)
         + [TaskRef(tableNameA, tableNameB, ar.taskHeaderA, if k == 1 then ar.taskHeaderB else base + k - 2)];
  }

  /**
   * After the pass over ga[q], the tasks read back as the earlier tasks,
   * bumped where they hold the carried list, followed by the new pass: the
   * closed form for q + 1 passes.
   */
  lemma ClosedFormStep(tableNameA: string, tableNameB: string, ga: seq<seq<string>>, gb: seq<seq<string>>, q: nat, res: seq<Task>)
    requires |gb| >= 1 && q < |ga|
    requires
      var before, pass := TasksUpTo(tableNameA, tableNameB, ga, gb, q, q), PassTasks(tableNameA, tableNameB, ga[q], gb, q + 1, q);
      && |res| == |before| + |gb|
      && (forall i :: 0 <= i < |before| ==> res[i] == Bumped(before, gb)[i])
      && (forall i :: |before| <= i < |res| ==> res[i] == pass[i - |before|])
    ensures res == TasksUpTo(tableNameA, tableNameB, ga, gb, q + 1, q + 1)
  {
    var before := TasksUpTo(tableNameA, tableNameB, ga, gb, q, q);
    var pass := PassTasks(tableNameA, tableNameB, ga[q], gb, q + 1, q);
    assert TasksUpTo(tableNameA, tableNameB, ga, gb, q + 1, q + 1) == TasksUpTo(tableNameA, tableNameB, ga, gb, q + 1, q) + pass;
    if q > 0 {
      TasksUpToNext(tableNameA, tableNameB, ga, gb, q);
    } else {
      assert before == [];
    }
    JoinedAt(res, Bumped(before, gb), pass);
  }

  /** So the arena after the pass over ga[q] resolves to the closed form for q + 1 passes. */
  lemma CarryResolveStep(ar: Arena, r: Arena, tableNameA: string, tableNameB: string, ga: seq<seq<string>>, gb: seq<seq<string>>, q: nat)
    requires |gb| >= 1 && q < |ga|
    requires CarryInvariant(ar, tableNameA, tableNameB, ga, gb, q)
    requires StepShaped(ar, r, tableNameA, tableNameB, ga[q], gb)
    requires r.lists[ar.taskHeaderA] == ga[q]
    ensures Resolve(r) == TasksUpTo(tableNameA, tableNameB, ga, gb, q + 1, q + 1)
  {
    ResolveEarlierTasks(ar, r, tableNameA, tableNameB, ga, gb, q);
    ResolvePassTasks(ar, r, tableNameA, tableNameB, ga, gb, q);
    ClosedFormStep(tableNameA, tableNameB, ga, gb, q, Resolve(r));
  }

  /** A sequence that agrees with `a` on its first |a| positions and with `b` on the rest is `a + b`. */
  lemma JoinedAt<T>(s: seq<T>, a: seq<T>, b: seq<T>)
    requires |s| == |a| + |b|
    requires forall i :: 0 <= i < |a| ==> s[i] == a[i]
    requires forall i :: |a| <= i < |s| ==> s[i] == b[i - |a|]
    ensures s == a + b
  {
  }

  lemma ResolveEarlierTasks(ar: Arena, r: Arena, tableNameA: string, tableNameB: string, ga: seq<seq<string>>, gb: seq<seq<string>>, q: nat)
    requires |gb| >= 1 && q < |ga|
    requires CarryInvariant(ar, tableNameA, tableNameB, ga, gb, q)
    requires StepShaped(ar, r, tableNameA, tableNameB, ga[q], gb)
    ensures forall i :: 0 <= i < |ar.tasks| ==>
      Resolve(r)[i] == Bumped(TasksUpTo(tableNameA, tableNameB, ga, gb, q, q), gb)[i]
  {
    var before := TasksUpTo(tableNameA, tableNameB, ga, gb, q, q);
    forall i | 0 <= i < |ar.tasks| ensures Resolve(r)[i] == Bumped(before, gb)[i] {
      assert Resolve(ar)[i] == before[i];
      assert r.tasks[i] == ar.tasks[i];
    }
  }

  lemma ResolvePassTask(ar: Arena, r: Arena, tableNameA: string, tableNameB: string, ga: seq<seq<string>>, gb: seq<seq<string>>, q: nat, j: nat)
    requires |gb| >= 1 && q < |ga| && j < |gb|
    requires WellFormed(ar) && ar.taskHeaderA != ar.taskHeaderB
    requires ar.lists[ar.taskHeaderB] == (if q == 0 then [] else Carried(gb, q))
    requires StepShaped(ar, r, tableNameA, tableNameB, ga[q], gb)
    requires r.lists[ar.taskHeaderA] == ga[q]
    ensures Resolve(r)[|ar.tasks| + j] == Task(tableNameA, tableNameB, ga[q], BFinal(gb, q + 1, q, j))
  {
    var k, base, n := |gb|, |ar.lists|, |ar.tasks|;
    var hA, hB := ar.taskHeaderA, ar.taskHeaderB;
    assert r.tasks[n + j] == TaskRef(tableNameA, tableNameB, hA, if j == 0 then hB else base + j - 1);
    if k == 1 {
      RepeatSnoc(gb[0], q);
      if q == 0 { assert Repeat(gb[0], 0) == []; }
    } else if j == 0 && q == 0 {
      assert ar.lists[hB] + gb[0] == gb[0];
    }
  }

  lemma ResolvePassTasks(ar: Arena, r: Arena, tableNameA: string, tableNameB: string, ga: seq<seq<string>>, gb: seq<seq<string>>, q: nat)
    requires |gb| >= 1 && q < |ga|
    requires WellFormed(ar) && ar.taskHeaderA != ar.taskHeaderB
    requires ar.lists[ar.taskHeaderB] == (if q == 0 then [] else Carried(gb, q))
    requires StepShaped(ar, r, tableNameA, tableNameB, ga[q], gb)
    requires r.lists[ar.taskHeaderA] == ga[q]
    ensures |Resolve(r)| == |ar.tasks| + |gb|
    ensures forall i :: |ar.tasks| <= i < |ar.tasks| + |gb| ==>
      Resolve(r)[i] == PassTasks(tableNameA, tableNameB, ga[q], gb, q + 1, q)[i - |ar.tasks|]
  {
    var n := |ar.tasks|;
    forall i | n <= i < n + |gb|
      ensures Resolve(r)[i] == PassTasks(tableNameA, tableNameB, ga[q], gb, q + 1, q)[i - n]
    {
      ResolvePassTask(ar, r, tableNameA, tableNameB, ga, gb, q, i - n);
    }
  }

  /** After the pass over ga[q], the carried list and the fresh A list are where the invariant says. */
  lemma CarryShapeStep(ar: Arena, r: Arena, tableNameA: string, tableNameB: string, ga: seq<seq<string>>, gb: seq<seq<string>>, q: nat)
    requires |gb| >= 1 && q < |ga|
    requires CarryInvariant(ar, tableNameA, tableNameB, ga, gb, q)
    requires StepShaped(ar, r, tableNameA, tableNameB, ga[q], gb)
    ensures r.taskHeaderA != r.taskHeaderB && r.lists[r.taskHeaderA] == []
    ensures forall i :: 0 <= i < |r.tasks| ==>
      r.tasks[i].columnNamesA != r.taskHeaderA && r.tasks[i].columnNamesB != r.taskHeaderA &&
      r.tasks[i].columnNamesA != r.taskHeaderB
    ensures r.lists[r.taskHeaderB] == Carried(gb, q + 1)
    ensures forall i :: 0 <= i < |r.tasks| ==>
      (r.tasks[i].columnNamesB == r.taskHeaderB <==> |gb| == 1 || i == |r.tasks| - 1)
  {
    var k, base, n := |gb|, |ar.lists|, |ar.tasks|;
    if k == 1 {
      RepeatSnoc(gb[0], q);
      if q == 0 { assert Repeat(gb[0], 0) == []; }
    }
    forall i | 0 <= i < |r.tasks|
      ensures r.tasks[i].columnNamesA != r.taskHeaderA && r.tasks[i].columnNamesB != r.taskHeaderA &&
              r.tasks[i].columnNamesA != r.taskHeaderB
      ensures r.tasks[i].columnNamesB == r.taskHeaderB <==> k == 1 || i == |r.tasks| - 1
    {
      if i >= n {
        assert r.tasks[i] == TaskRef(tableNameA, tableNameB, ar.taskHeaderA, if i == n then ar.taskHeaderB else base + i - n - 1);
      } else {
        assert r.tasks[i] == ar.tasks[i];
      }
    }
  }

  /** One pass over A-group ga[q] keeps the invariant, and the tasks resolve to the closed form for q + 1 passes. */
  lemma CarryStep(ar: Arena, tableNameA: string, tableNameB: string, ga: seq<seq<string>>, gb: seq<seq<string>>, q: nat)
    requires |gb| >= 1 && q < |ga|
    requires CarryInvariant(ar, tableNameA, tableNameB, ga, gb, q)
    ensures CarryInvariant(NewAList(BPass(SetA(ar, ga[q]), tableNameA, tableNameB, gb)), tableNameA, tableNameB, ga, gb, q + 1)
  {
    var r := NewAList(BPass(SetA(ar, ga[q]), tableNameA, tableNameB, gb));
    StepShape(ar, tableNameA, tableNameB, ga[q], gb);
    assert r.lists[ar.taskHeaderA] == ga[q];
    CarryResolveStep(ar, r, tableNameA, tableNameB, ga, gb, q);
    CarryShapeStep(ar, r, tableNameA, tableNameB, ga, gb, q);
  }

  /** After the passes over a prefix `closed` of the A-groups, the arena satisfies the carry invariant. */
  lemma {:induction false} PassesResolve(tableNameA: string, tableNameB: string, ga: seq<seq<string>>, gb: seq<seq<string>>, closed: seq<seq<string>>)
    requires |gb| >= 1 && |closed| <= |ga| && closed == ga[..|closed|]
    ensures CarryInvariant(Passes(tableNameA, tableNameB, closed, gb), tableNameA, tableNameB, ga, gb, |closed|)
    decreases |closed|
  {
    if |closed| == 0 {
      InitialCarries(tableNameA, tableNameB, ga, gb);
    } else {
      var init := closed[..|closed| - 1];
      assert init == ga[..|init|];
      PassesResolve(tableNameA, tableNameB, ga, gb, init);
      PassesCarry(tableNameA, tableNameB, ga, gb, closed);
    }
  }

  /** One more pass, over the next A-group, keeps the carry invariant. */
  lemma PassesCarry(tableNameA: string, tableNameB: string, ga: seq<seq<string>>, gb: seq<seq<string>>, closed: seq<seq<string>>)
    requires |gb| >= 1 && 0 < |closed| <= |ga| && closed == ga[..|closed|]
    requires CarryInvariant(Passes(tableNameA, tableNameB, closed[..|closed| - 1], gb), tableNameA, tableNameB, ga, gb, |closed| - 1)
    ensures CarryInvariant(Passes(tableNameA, tableNameB, closed, gb), tableNameA, tableNameB, ga, gb, |closed|)
  {
    var init := closed[..|closed| - 1];
    assert closed[|closed| - 1] == ga[|init|];
    CarryStep(Passes(tableNameA, tableNameB, init, gb), tableNameA, tableNameB, ga, gb, |init|);
  }

  /** Before any pass, nothing is carried and no task exists. */
  lemma InitialCarries(tableNameA: string, tableNameB: string, ga: seq<seq<string>>, gb: seq<seq<string>>)
    requires |gb| >= 1
    ensures CarryInvariant(Initial, tableNameA, tableNameB, ga, gb, 0)
  {
    assert Resolve(Initial) == [];
  }

  /** What `run` hands back, read through the shared lists, is the closed form `GeneratedTasks`. */
  lemma RunArenaResolves(tableNameA: string, tableNameB: string, ga: seq<seq<string>>, gb: seq<seq<string>>)
    requires |ga| >= 1 && |gb| >= 1
    ensures Resolve(RunArena(tableNameA, tableNameB, ga, gb)) == GeneratedTasks(tableNameA, tableNameB, ga, gb)
  {
    assert ga[..|ga|] == ga;
    PassesResolve(tableNameA, tableNameB, ga, gb, ga);
    var run := RunArena(tableNameA, tableNameB, ga, gb);
    var full := Passes(tableNameA, tableNameB, ga, gb);
    assert full == NewAList(run);
    assert Resolve(full) == Resolve(run);
  }

  // ---------------------------------------------------------------------------
  // Properties of the generated tasks.
  // ---------------------------------------------------------------------------

  lemma {:induction false} TasksUpToShape(tableNameA: string, tableNameB: string, ga: seq<seq<string>>, gb: seq<seq<string>>, m: nat, q: nat)
    requires q <= |ga|
    ensures |TasksUpTo(tableNameA, tableNameB, ga, gb, m, q)| == q * |gb|
    ensures forall i :: 0 <= i < |TasksUpTo(tableNameA, tableNameB, ga, gb, m, q)| ==>
      TasksUpTo(tableNameA, tableNameB, ga, gb, m, q)[i].tableNameA == tableNameA &&
      TasksUpTo(tableNameA, tableNameB, ga, gb, m, q)[i].tableNameB == tableNameB
    decreases q
  {
    if q > 0 {
      TasksUpToShape(tableNameA, tableNameB, ga, gb, m, q - 1);
      assert (q - 1) * |gb| + |gb| == q * |gb|;
    }
  }

  /**
   * One task per pair of an A-group and a B-group, so at least one task even
   * for empty headers, and every task names the two tables it was asked for.
   */
  lemma GeneratedTasksShape(tableNameA: string, tableNameB: string, ga: seq<seq<string>>, gb: seq<seq<string>>)
    requires |ga| >= 1 && |gb| >= 1
    ensures |GeneratedTasks(tableNameA, tableNameB, ga, gb)| == |ga| * |gb| >= 1
    ensures forall t :: t in GeneratedTasks(tableNameA, tableNameB, ga, gb) ==>
      t.tableNameA == tableNameA && t.tableNameB == tableNameB
  {
    TasksUpToShape(tableNameA, tableNameB, ga, gb, |ga|, |ga|);
    assert |ga| * |gb| >= 1 * 1;
  }

  /** A final B list only ever holds columns of the B-groups. */
  lemma BFinalDrawsFromGroups(gb: seq<seq<string>>, m: nat, p: nat, j: nat, c: string)
    requires j < |gb| && c in BFinal(gb, m, p, j)
    ensures c in Flatten(gb)
  {
    var k := |gb|;
    if k == 1 {
      RepeatMember(gb[0], m, c);
      FlattenMember(gb, 0, c);
    } else if c in gb[j] {
      FlattenMember(gb, j, c);
    } else if c in gb[k - 1] {
      FlattenMember(gb, k - 1, c);
    } else {
      FlattenMember(gb, 0, c);
    }
  }

  lemma {:induction false} TasksUpToDrawFromGroups(tableNameA: string, tableNameB: string, ga: seq<seq<string>>, gb: seq<seq<string>>, m: nat, q: nat)
    requires q <= |ga|
    ensures forall t, c :: t in TasksUpTo(tableNameA, tableNameB, ga, gb, m, q) && c in t.columnNamesA ==> c in Flatten(ga)
    ensures forall t, c :: t in TasksUpTo(tableNameA, tableNameB, ga, gb, m, q) && c in t.columnNamesB ==> c in Flatten(gb)
    decreases q
  {
    if q > 0 {
      TasksUpToDrawFromGroups(tableNameA, tableNameB, ga, gb, m, q - 1);
      var pass := PassTasks(tableNameA, tableNameB, ga[q - 1], gb, m, q - 1);
      forall t, c | t in pass && c in t.columnNamesA ensures c in Flatten(ga) {
        FlattenMember(ga, q - 1, c);
      }
      forall t, c | t in pass && c in t.columnNamesB ensures c in Flatten(gb) {
        var j :| 0 <= j < |pass| && pass[j] == t;
        BFinalDrawsFromGroups(gb, m, q - 1, j, c);
      }
    }
  }

  /** Every generated task names only columns of the A-groups on side A and of the B-groups on side B. */
  lemma GeneratedTasksDrawFromGroups(tableNameA: string, tableNameB: string, ga: seq<seq<string>>, gb: seq<seq<string>>)
    ensures forall t, c :: t in GeneratedTasks(tableNameA, tableNameB, ga, gb) && c in t.columnNamesA ==> c in Flatten(ga)
    ensures forall t, c :: t in GeneratedTasks(tableNameA, tableNameB, ga, gb) && c in t.columnNamesB ==> c in Flatten(gb)
  {
    TasksUpToDrawFromGroups(tableNameA, tableNameB, ga, gb, |ga|, |ga|);
  }

  /**
   * Completeness of the coverage: every column of an A-group meets every
   * column of a B-group in some task. The task of A-group p and B-group j
   * holds B-group j whatever else its shared list received.
   */
  lemma GeneratedTasksCover(tableNameA: string, tableNameB: string, ga: seq<seq<string>>, gb: seq<seq<string>>, a: string, b: string)
    requires a in Flatten(ga) && b in Flatten(gb)
    ensures exists t :: t in GeneratedTasks(tableNameA, tableNameB, ga, gb) && a in t.columnNamesA && b in t.columnNamesB
  {
    FlattenMemberOf(ga, a);
    FlattenMemberOf(gb, b);
    var p :| 0 <= p < |ga| && a in ga[p];
    var j :| 0 <= j < |gb| && b in gb[j];
    var m := |ga|;
    assert b in BFinal(gb, m, p, j);
    var t := PassTasks(tableNameA, tableNameB, ga[p], gb, m, p)[j];
    assert t in TasksUpTo(tableNameA, tableNameB, ga, gb, m, p + 1);
    TasksUpToPrefix(tableNameA, tableNameB, ga, gb, m, p + 1, m);
    assert t in GeneratedTasks(tableNameA, tableNameB, ga, gb);
  }

  /** With a single A-group there is no carried list: task j holds the A-group and exactly B-group j. */
  lemma SingleAGroupCoversB(tableNameA: string, tableNameB: string, ga: seq<seq<string>>, gb: seq<seq<string>>)
    requires |ga| == 1 && |gb| >= 1
    ensures |GeneratedTasks(tableNameA, tableNameB, ga, gb)| == |gb|
    ensures forall j :: 0 <= j < |gb| ==>
      GeneratedTasks(tableNameA, tableNameB, ga, gb)[j] == Task(tableNameA, tableNameB, ga[0], gb[j])
  {
    assert TasksUpTo(tableNameA, tableNameB, ga, gb, 1, 0) == [];
    assert Repeat(gb[0], 1) == gb[0] by { assert Repeat(gb[0], 0) == []; }
  }

  /**
   * With two or more A-groups and B-groups, the last task of the first pass
   * holds its own B-group followed by the first B-group, which the first task
   * of that pass already covers.
   */
  lemma CarriedListRepeatsFirstGroup(tableNameA: string, tableNameB: string, ga: seq<seq<string>>, gb: seq<seq<string>>)
    requires |ga| >= 2 && |gb| >= 2
    ensures |GeneratedTasks(tableNameA, tableNameB, ga, gb)| >= 2 * |gb|
    ensures GeneratedTasks(tableNameA, tableNameB, ga, gb)[0].columnNamesB == gb[0]
    ensures GeneratedTasks(tableNameA, tableNameB, ga, gb)[|gb| - 1].columnNamesB == gb[|gb| - 1] + gb[0]
    ensures GeneratedTasks(tableNameA, tableNameB, ga, gb)[|gb|].columnNamesB == gb[|gb| - 1] + gb[0]
  {
    var m, k := |ga|, |gb|;
    var p0 := PassTasks(tableNameA, tableNameB, ga[0], gb, m, 0);
    var p1 := PassTasks(tableNameA, tableNameB, ga[1], gb, m, 1);
    var g := GeneratedTasks(tableNameA, tableNameB, ga, gb);
    FirstTwoPasses(tableNameA, tableNameB, ga, gb);
    assert g[0] == p0[0] && g[k - 1] == p0[k - 1] && g[k] == p1[0];
    assert p0[0].columnNamesB == BFinal(gb, m, 0, 0);
    assert p0[k - 1].columnNamesB == BFinal(gb, m, 0, k - 1);
    assert p1[0].columnNamesB == BFinal(gb, m, 1, 0);
  }

  /** The generated tasks start with the tasks of the first two passes. */
  lemma FirstTwoPasses(tableNameA: string, tableNameB: string, ga: seq<seq<string>>, gb: seq<seq<string>>)
    requires |ga| >= 2
    ensures PassTasks(tableNameA, tableNameB, ga[0], gb, |ga|, 0) + PassTasks(tableNameA, tableNameB, ga[1], gb, |ga|, 1)
      <= GeneratedTasks(tableNameA, tableNameB, ga, gb)
  {
    var m := |ga|;
    assert TasksUpTo(tableNameA, tableNameB, ga, gb, m, 0) == [];
    assert TasksUpTo(tableNameA, tableNameB, ga, gb, m, 1) == PassTasks(tableNameA, tableNameB, ga[0], gb, m, 0);
    TasksUpToPrefix(tableNameA, tableNameB, ga, gb, m, 2, m);
  }

  /** With a single B-group every task holds the one shared list, which received that group once per pass. */
  lemma SingleBGroupRepeats(tableNameA: string, tableNameB: string, ga: seq<seq<string>>, gb: seq<seq<string>>)
    requires |ga| >= 1 && |gb| == 1
    ensures forall t :: t in GeneratedTasks(tableNameA, tableNameB, ga, gb) ==> t.columnNamesB == Repeat(gb[0], |ga|)
  {
    SingleBTasks(tableNameA, tableNameB, ga, gb, |ga|, |ga|);
  }

  lemma {:induction false} SingleBTasks(tableNameA: string, tableNameB: string, ga: seq<seq<string>>, gb: seq<seq<string>>, m: nat, q: nat)
    requires q <= |ga| && |gb| == 1
    ensures forall t :: t in TasksUpTo(tableNameA, tableNameB, ga, gb, m, q) ==> t.columnNamesB == Repeat(gb[0], m)
    decreases q
  {
    if q > 0 {
      SingleBTasks(tableNameA, tableNameB, ga, gb, m, q - 1);
    }
  }

  lemma {:induction false} TasksUpToPrefix(tableNameA: string, tableNameB: string, ga: seq<seq<string>>, gb: seq<seq<string>>, m: nat, q: nat, q': nat)
    requires q <= q' <= |ga|
    ensures TasksUpTo(tableNameA, tableNameB, ga, gb, m, q) <= TasksUpTo(tableNameA, tableNameB, ga, gb, m, q')
    decreases q' - q
  {
    if q < q' {
      TasksUpToPrefix(tableNameA, tableNameB, ga, gb, m, q, q' - 1);
    }
  }

  /**
   * Two one-column groups on each side: the B column of the first group is
   * covered twice against the first A column, once alone and once through
   * the carried list.
   */
  lemma DuplicateCoverageExample()
    ensures GeneratedTasks("A", "B", [["a1"], ["a2"]], [["b1"], ["b2"]]) == [
      Task("A", "B", ["a1"], ["b1"]),
      Task("A", "B", ["a1"], ["b2", "b1"]),
      Task("A", "B", ["a2"], ["b2", "b1"]),
      Task("A", "B", ["a2"], ["b2"])]
  {
    var ga: seq<seq<string>> := [["a1"], ["a2"]];
    var gb: seq<seq<string>> := [["b1"], ["b2"]];
    assert TasksUpTo("A", "B", ga, gb, 2, 0) == [];
    var p0 := PassTasks("A", "B", ["a1"], gb, 2, 0);
    var p1 := PassTasks("A", "B", ["a2"], gb, 2, 1);
    assert BFinal(gb, 2, 0, 1) == ["b2", "b1"] && BFinal(gb, 2, 1, 0) == ["b2", "b1"];
    assert BFinal(gb, 2, 0, 0) == ["b1"] && BFinal(gb, 2, 1, 1) == ["b2"];
    assert p0 == [Task("A", "B", ["a1"], ["b1"]), Task("A", "B", ["a1"], ["b2", "b1"])] by {
      assert p0[0] == Task("A", "B", ["a1"], ["b1"]) && p0[1] == Task("A", "B", ["a1"], ["b2", "b1"]);
    }
    assert p1 == [Task("A", "B", ["a2"], ["b2", "b1"]), Task("A", "B", ["a2"], ["b2"])] by {
      assert p1[0] == Task("A", "B", ["a2"], ["b2", "b1"]) && p1[1] == Task("A", "B", ["a2"], ["b2"]);
    }
    assert TasksUpTo("A", "B", ga, gb, 2, 1) == p0;
    assert TasksUpTo("A", "B", ga, gb, 2, 2) == p0 + p1;
  }

  // ---------------------------------------------------------------------------
  // The generator object.
  // ---------------------------------------------------------------------------

  class TaskGenerator {
    const dataStorage: LocalDataStorage
    const memoryBudget: int
    const tableNameA: string
    const tableNameB: string
    const headerA: seq<string>
    const headerB: seq<string>
    /** The memory estimate of every column of table A (of table B), by name. */
    ghost const sizesA: map<string, int>
    ghost const sizesB: map<string, int>

    /** Every list object the generator has created, by handle. */
    var lists: seq<seq<string>>
    var taskHeaderA: nat
    var taskHeaderB: nat
    var generatedTasks: seq<TaskRef>

    ghost function State(): Arena
      reads this
    {
      Arena(lists, taskHeaderA, taskHeaderB, generatedTasks)
    }

    /** Every task refers to lists that exist, and so do the two open lists. */
    ghost predicate Valid()
      reads this
    {
      WellFormed(State())
    }

    /**
     * The generator is outside the storage, the two tables are stored with
     * these headers, and the sizes are the memory estimates of their columns.
     */
    ghost predicate Linked()
      reads dataStorage, dataStorage.Repr
    {
      && this !in dataStorage.Repr
      && dataStorage.TableShaped(tableNameA) && headerA == dataStorage.headerList[tableNameA]
      && dataStorage.TableShaped(tableNameB) && headerB == dataStorage.headerList[tableNameB]
      && (forall n {:trigger sizesA[n]} :: n in sizesA && n in headerA ==>
            sizesA[n] == dataStorage.GetColumn(tableNameA, n).MemorySize())
      && (forall n {:trigger sizesB[n]} :: n in sizesB && n in headerB ==>
            sizesB[n] == dataStorage.GetColumn(tableNameB, n).MemorySize())
    }

    /** Every column of either header has a size. */
    ghost predicate Sizing()
    {
      Sized(headerA, sizesA) && Sized(headerB, sizesB)
    }

    /** The storage facts outlive any change that leaves the storage and its columns alone. */
    twostate lemma StorageKept()
      requires old(Linked())
      requires unchanged(dataStorage) && unchanged(old(dataStorage.Repr))
      ensures Linked()
    {
    }

    /** The greedy groups of table A's header. */
    ghost function GroupsA(): seq<seq<string>>
      requires Sizing()
    {
      Groups(headerA, sizesA, Half(memoryBudget))
    }

    /** The greedy groups of table B's header. */
    ghost function GroupsB(): seq<seq<string>>
      requires Sizing()
    {
      Groups(headerB, sizesB, Half(memoryBudget))
    }

    constructor (dataStorage: LocalDataStorage, memoryBudget: int, tableNameA: string, tableNameB: string)
      requires dataStorage.TableShaped(tableNameA) && dataStorage.TableShaped(tableNameB)
      ensures Valid() && Linked() && Sizing() && State() == Initial
      ensures sizesA == old(dataStorage.ColumnSizes(tableNameA)) && sizesB == old(dataStorage.ColumnSizes(tableNameB))
      ensures this.dataStorage == dataStorage && this.memoryBudget == memoryBudget
      ensures this.tableNameA == tableNameA && this.tableNameB == tableNameB
    {
      this.dataStorage := dataStorage;
      this.memoryBudget := memoryBudget;
      this.tableNameA := tableNameA;
      this.tableNameB := tableNameB;
      this.headerA := dataStorage.headerList[tableNameA];
      this.headerB := dataStorage.headerList[tableNameB];
      this.sizesA := dataStorage.ColumnSizes(tableNameA);
      this.sizesB := dataStorage.ColumnSizes(tableNameB);
      lists := [[], []];
      taskHeaderA := 0;
      taskHeaderB := 1;
      generatedTasks := [];
    }

    /** Records a task holding the two open lists (by handle). */
    method GenerateTask()
      requires Valid()
      modifies this
      ensures Valid() && State() == WithTask(old(State()), tableNameA, tableNameB)
    {
      generatedTasks := generatedTasks + [TaskRef(tableNameA, tableNameB, taskHeaderA, taskHeaderB)];
    }

    /**
     * One greedy walk over table B's header with the A list fixed: a task per
     * closed B-group, a fresh B list after each, and a trailing task for the
     * last group, whose list stays open.
     */
    method RunTableBGeneration()
      requires Valid() && Linked() && Sizing()
      modifies this
      ensures Valid() && |GroupsB()| >= 1
      ensures State() == BPass(old(State()), tableNameA, tableNameB, GroupsB())
    {
      ghost var start := State();
      ghost var half := Half(memoryBudget);
      BPartialStart(start, tableNameA, tableNameB);
      WalkPrefixEnds(headerB, sizesB, half);
      var memoryUsed := 0;
      ghost var w := WalkPrefix(headerB, 0, sizesB, half);
      for i := 0 to |headerB|
        invariant Valid() && Linked() && WellFormed(start)
        invariant w == WalkPrefix(headerB, i, sizesB, half)
        invariant memoryUsed == w.used
        invariant State() == BPartial(start, tableNameA, tableNameB, w.closed + [w.current])
      {
        var columnNameB := headerB[i];
        var size := dataStorage.GetColumn(tableNameB, columnNameB).MemorySize();
        WalkPrefixStep(headerB, i, sizesB, half);
        memoryUsed := TakeColumnB(columnNameB, size, memoryUsed, start, w);
        w := WalkStep(w, columnNameB, size, half);
        StorageKept();
      }
      GroupsPartitionHeader(headerB, sizesB, half);
      GenerateTask();
    }

    /**
     * The body of the B walk for one column of memory `size`: when it does not
     * fit, the open B-group becomes a task and a fresh B list opens; then the
     * column joins the open B list.
     */
    method TakeColumnB(columnNameB: string, size: int, memoryUsed: int, ghost start: Arena, ghost w: Walk)
      returns (used: int)
      requires Valid() && WellFormed(start) && memoryUsed == w.used
      requires State() == BPartial(start, tableNameA, tableNameB, w.closed + [w.current])
      modifies this
      ensures Valid()
      ensures var w' := WalkStep(w, columnNameB, size, Half(memoryBudget));
        used == w'.used && State() == BPartial(start, tableNameA, tableNameB, w'.closed + [w'.current])
    {
      ghost var gs := w.closed + [w.current];
      if ClosesGroup(memoryUsed, size, Half(memoryBudget)) {
        GenerateTask();
        lists := lists + [[]];
        taskHeaderB := |lists| - 1;
        used := 0;
        BPartialClose(start, tableNameA, tableNameB, gs, columnNameB);
      } else {
        BPartialJoin(start, tableNameA, tableNameB, gs, columnNameB);
        assert gs[..|gs| - 1] + [gs[|gs| - 1] + [columnNameB]] == w.closed + [w.current + [columnNameB]];
        used := memoryUsed;
      }
      lists := lists[taskHeaderB := lists[taskHeaderB] + [columnNameB]];
      used := used + size;
    }

    /**
     * The greedy walk over table A's header: a whole B pass for each closed
     * A-group, then a fresh A list; the trailing pass covers the last group.
     */
    method RunTableAGeneration()
      requires Valid() && Linked() && Sizing() && State() == Initial
      modifies this
      ensures Valid() && |GroupsA()| >= 1 && |GroupsB()| >= 1
      ensures State() == RunArena(tableNameA, tableNameB, GroupsA(), GroupsB())
    {
      ghost var half := Half(memoryBudget);
      ghost var gb := GroupsB();
      GroupsPartitionHeader(headerB, sizesB, half);
      WalkPrefixEnds(headerA, sizesA, half);
      PassesNone(tableNameA, tableNameB, gb);
      WalkTableA(gb);
      ghost var w := WalkPrefix(headerA, |headerA|, sizesA, half);
      RunArenaLast(tableNameA, tableNameB, w.closed, w.current, gb);
      RunTableBGeneration();
    }

    /** The loop of `runTableAGeneration` over table A's header. */
    method WalkTableA(ghost gb: seq<seq<string>>)
      requires Valid() && Linked() && Sizing() && gb == GroupsB() && |gb| >= 1
      requires var w := WalkPrefix(headerA, 0, sizesA, Half(memoryBudget));
        State() == SetA(Passes(tableNameA, tableNameB, w.closed, gb), w.current)
      modifies this
      ensures Valid() && Linked()
      ensures var w := WalkPrefix(headerA, |headerA|, sizesA, Half(memoryBudget));
        State() == SetA(Passes(tableNameA, tableNameB, w.closed, gb), w.current)
    {
      ghost var half := Half(memoryBudget);
      var memoryUsed := 0;
      ghost var w := WalkPrefix(headerA, 0, sizesA, half);
      for i := 0 to |headerA|
        invariant Valid() && Linked()
        invariant w == WalkPrefix(headerA, i, sizesA, half)
        invariant memoryUsed == w.used
        invariant State() == SetA(Passes(tableNameA, tableNameB, w.closed, gb), w.current)
      {
        memoryUsed := StepA(i, memoryUsed, w, gb);
        w := WalkPrefix(headerA, i + 1, sizesA, half);
      }
    }

    /** One iteration of the A walk: looks up the size of column `i` of table A and takes it. */
    method StepA(i: nat, memoryUsed: int, ghost w: Walk, ghost gb: seq<seq<string>>) returns (used: int)
      requires Valid() && Linked() && Sizing() && gb == GroupsB() && |gb| >= 1
      requires i < |headerA| && w == WalkPrefix(headerA, i, sizesA, Half(memoryBudget)) && memoryUsed == w.used
      requires State() == SetA(Passes(tableNameA, tableNameB, w.closed, gb), w.current)
      modifies this
      ensures Valid() && Linked()
      ensures var w' := WalkPrefix(headerA, i + 1, sizesA, Half(memoryBudget));
        used == w'.used && State() == SetA(Passes(tableNameA, tableNameB, w'.closed, gb), w'.current)
    {
      var columnNameA := headerA[i];
      var size := dataStorage.GetColumn(tableNameA, columnNameA).MemorySize();
      WalkPrefixStep(headerA, i, sizesA, Half(memoryBudget));
      PassesSnoc(tableNameA, tableNameB, w.closed, w.current, gb);
      used := TakeColumnA(columnNameA, size, memoryUsed, w, Passes(tableNameA, tableNameB, w.closed, gb), gb);
      StorageKept();
    }

    /**
     * The body of the A walk for one column of memory `size`, from the state
     * `ar` left by the closed A-groups: when the column does not fit, the open
     * A-group gets its B pass and a fresh A list opens; then the column joins
     * the open A list.
     */
    method TakeColumnA(columnNameA: string, size: int, memoryUsed: int, ghost w: Walk, ghost ar: Arena, ghost gb: seq<seq<string>>)
      returns (used: int)
      requires Linked() && Sizing() && gb == GroupsB() && |gb| >= 1 && memoryUsed == w.used
      requires WellFormed(ar) && State() == SetA(ar, w.current)
      modifies this
      ensures var w' := WalkStep(w, columnNameA, size, Half(memoryBudget));
        && used == w'.used
        && State() == SetA(if ClosesGroup(memoryUsed, size, Half(memoryBudget)) then NewAList(BPass(SetA(ar, w.current), tableNameA, tableNameB, gb)) else ar, w'.current)
    {
      ghost var w' := WalkStep(w, columnNameA, size, Half(memoryBudget));
      ghost var next := ar;
      ghost var current := w.current;
      if ClosesGroup(memoryUsed, size, Half(memoryBudget)) {
        CloseGroupA(ar, w.current, gb);
        used := 0;
        next := NewAList(BPass(SetA(ar, w.current), tableNameA, tableNameB, gb));
        current := [];
        assert current + [columnNameA] == w'.current;
      } else {
        used := memoryUsed;
      }
      AJoin(next, current, columnNameA);
      lists := lists[taskHeaderA := lists[taskHeaderA] + [columnNameA]];
      used := used + size;
    }

    /** A closed A-group: its B pass runs and a fresh, empty A list opens. */
    method CloseGroupA(ghost ar: Arena, ghost current: seq<string>, ghost gb: seq<seq<string>>)
      requires Linked() && Sizing() && gb == GroupsB() && |gb| >= 1
      requires WellFormed(ar) && State() == SetA(ar, current)
      modifies this
      ensures State() == SetA(NewAList(BPass(SetA(ar, current), tableNameA, tableNameB, gb)), [])
    {
      RunTableBGeneration();
      lists := lists + [[]];
      taskHeaderA := |lists| - 1;
      assert lists[taskHeaderA := []] == lists;
    }

    /**
     * `run`: the generated tasks, each read with the contents its lists hold
     * once generation is over, are `GeneratedTasks` over the greedy groups of
     * both headers.
     */
    static method Run(dataStorage: LocalDataStorage, memoryBudget: int, tableNameA: string, tableNameB: string)
      returns (tasks: seq<Task>)
      requires dataStorage.TableShaped(tableNameA) && dataStorage.TableShaped(tableNameB)
      ensures
        var sizesA, sizesB := old(dataStorage.ColumnSizes(tableNameA)), old(dataStorage.ColumnSizes(tableNameB));
        && Sized(dataStorage.headerList[tableNameA], sizesA) && Sized(dataStorage.headerList[tableNameB], sizesB)
        && tasks == GeneratedTasks(tableNameA, tableNameB,
             Groups(dataStorage.headerList[tableNameA], sizesA, Half(memoryBudget)),
             Groups(dataStorage.headerList[tableNameB], sizesB, Half(memoryBudget)))
    {
      var gen := new TaskGenerator(dataStorage, memoryBudget, tableNameA, tableNameB);
      gen.RunTableAGeneration();
      RunArenaResolves(tableNameA, tableNameB, gen.GroupsA(), gen.GroupsB());
      tasks := ResolveTasks(gen.lists, gen.generatedTasks);
    }
  }

  /** Before the B walk's first column: one open group, empty, held by the carried list. */
  lemma BPartialStart(ar: Arena, tableNameA: string, tableNameB: string)
    requires WellFormed(ar)
    ensures BPartial(ar, tableNameA, tableNameB, [[]]) == ar
  {
    assert ar.lists[ar.taskHeaderB] + [] == ar.lists[ar.taskHeaderB];
    var one: seq<seq<string>> := [[]];
    assert one[1..] == [];
  }

  /** The run ends with the B pass of the last A-group. */
  lemma PassesNone(tableNameA: string, tableNameB: string, gb: seq<seq<string>>)
    requires |gb| >= 1
    ensures SetA(Passes(tableNameA, tableNameB, [], gb), []) == Initial
  {
  }

  lemma RunArenaLast(tableNameA: string, tableNameB: string, closed: seq<seq<string>>, current: seq<string>, gb: seq<seq<string>>)
    requires |gb| >= 1
    ensures RunArena(tableNameA, tableNameB, closed + [current], gb)
      == BPass(SetA(Passes(tableNameA, tableNameB, closed, gb), current), tableNameA, tableNameB, gb)
  {
    assert (closed + [current])[..|closed|] == closed;
  }

  /** One more closed A-group: its B pass, then a fresh A list. */
  lemma PassesSnoc(tableNameA: string, tableNameB: string, closed: seq<seq<string>>, current: seq<string>, gb: seq<seq<string>>)
    requires |gb| >= 1
    ensures Passes(tableNameA, tableNameB, closed + [current], gb)
      == NewAList(BPass(SetA(Passes(tableNameA, tableNameB, closed, gb), current), tableNameA, tableNameB, gb))
  {
    assert (closed + [current])[..|closed|] == closed;
  }

  /** `n` joins the open A-group. */
  lemma AJoin(ar: Arena, current: seq<string>, n: string)
    requires WellFormed(ar)
    ensures
      var c := SetA(ar, current);
      c.(lists := c.lists[c.taskHeaderA := c.lists[c.taskHeaderA] + [n]]) == SetA(ar, current + [n])
  {
  }

  /** A closed group: its task is recorded, a fresh B list opens, and `n` goes into it. */
  lemma BPartialClose(ar: Arena, tableNameA: string, tableNameB: string, gs: seq<seq<string>>, n: string)
    requires WellFormed(ar) && |gs| >= 1
    ensures
      var c := WithTask(BPartial(ar, tableNameA, tableNameB, gs), tableNameA, tableNameB);
      var reopened := c.(lists := c.lists + [[]], taskHeaderB := |c.lists|);
      reopened.(lists := reopened.lists[reopened.taskHeaderB := reopened.lists[reopened.taskHeaderB] + [n]])
        == BPartial(ar, tableNameA, tableNameB, gs + [[n]])
  {
    var base := |ar.lists|;
    var gs' := gs + [[n]];
    assert gs'[0] == gs[0] && gs'[1..] == gs[1..] + [[n]];
    var X := ar.lists[ar.taskHeaderB := ar.lists[ar.taskHeaderB] + gs[0]] + gs[1..];
    assert |X| == base + |gs| - 1;
    var empty: seq<string> := [];
    assert (X + [[]])[|X|] + [n] == [n] by { assert (X + [[]])[|X|] == empty; }
    assert (X + [[]])[|X| := [n]] == X + [[n]];
    assert X + [[n]] == ar.lists[ar.taskHeaderB := ar.lists[ar.taskHeaderB] + gs'[0]] + gs'[1..];
    assert PassRefs(tableNameA, tableNameB, ar.taskHeaderA, ar.taskHeaderB, base, |gs'| - 1)
      == PassRefs(tableNameA, tableNameB, ar.taskHeaderA, ar.taskHeaderB, base, |gs| - 1)
         + [TaskRef(tableNameA, tableNameB, ar.taskHeaderA, if |gs| == 1 then ar.taskHeaderB else base + |gs| - 2)];
  }

  /** `n` joins the open group, whose list is the open B list. */
  lemma BPartialJoin(ar: Arena, tableNameA: string, tableNameB: string, gs: seq<seq<string>>, n: string)
    requires WellFormed(ar) && |gs| >= 1
    ensures
      var c := BPartial(ar, tableNameA, tableNameB, gs);
      c.(lists := c.lists[c.taskHeaderB := c.lists[c.taskHeaderB] + [n]])
        == BPartial(ar, tableNameA, tableNameB, gs[..|gs| - 1] + [gs[|gs| - 1] + [n]])
  {
    var gs' := gs[..|gs| - 1] + [gs[|gs| - 1] + [n]];
    var L := ar.lists;
    var hB := ar.taskHeaderB;
    if |gs| == 1 {
      assert gs'[0] == gs[0] + [n];
      assert (L[hB] + gs[0]) + [n] == L[hB] + (gs[0] + [n]);
    } else {
      assert gs'[0] == gs[0];
      assert gs'[1..] == gs[1..][..|gs| - 2] + [gs[|gs| - 1] + [n]];
    }
  }
}
