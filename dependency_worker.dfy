/**
 * The worker's containment check. A task message carries, for each side,
 * a distinct-value map from column name to the column's distinct values; the
 * worker compares every column of side A with every column of side B and
 * lists an inclusion dependency in each direction where one value set lies
 * inside the other.
 *
 * Maps are given as sequences of entries in the order the map iterates them.
 * Java compares column names with `==`, that is by reference; the names of
 * one table's columns are the strings of that table's header, so reference
 * equality is modelled as equality of (table name, column name).
 */
module DependencyWorker {
  import opened Lists
  import opened Tasks
  import opened InclusionDependencies

  /** The identity of an actor or of a large-message proxy. */
  datatype ActorRef = ActorRef(id: nat)

  /** One entry of a distinct-value map. */
  datatype Entry = Entry(column: string, values: set<string>)

  datatype TaskMessage = TaskMessage(
    minerProxy: ActorRef,
    task: Task,
    distinctA: seq<Entry>,
    distinctB: seq<Entry>)

  /** The completion the worker sends back: its own reference and the dependencies found. */
  datatype CompletionMessage = CompletionMessage(worker: ActorRef, inclusionDeps: seq<InclusionDependency>)

  /** A message handed to the worker's large-message proxy for delivery to `receiver`. */
  datatype Send = Send(message: CompletionMessage, receiver: ActorRef)

  /** The keys of a map are distinct. */
  ghost predicate Keyed(es: seq<Entry>)
  {
    forall p, q :: 0 <= p < q < |es| ==> es[p].column != es[q].column
  }

  predicate SameColumn(t1: string, c1: string, t2: string, c2: string)
  {
    t1 == t2 && c1 == c2
  }

  // ---------------------------------------------------------------------
  // Memory estimate of a message
  // ---------------------------------------------------------------------

  ghost function Pick(s: set<string>): (v: string)
    requires s != {}
    ensures v in s
  {
    var v :| v in s; v
  }

  /** Two bytes per character of every value of the set. */
  ghost function SetMemorySize(s: set<string>): nat
    decreases |s|
  {
    if s == {} then 0 else
      var v := Pick(s);
      2 * |v| + SetMemorySize(s - {v})
  }

  /** The sum does not depend on the order the set is walked in: any value may be counted first. */
  lemma {:induction false} SetMemorySizeRemove(s: set<string>, v: string)
    requires v in s
    ensures SetMemorySize(s) == 2 * |v| + SetMemorySize(s - {v})
    decreases |s|
  {
    var u := Pick(s);
    if u != v {
      SetMemorySizeRemove(s - {u}, v);
      SetMemorySizeRemove(s - {v}, u);
      assert s - {u} - {v} == s - {v} - {u};
    }
  }

  /** Adding a value the set lacks adds two bytes per character of it. */
  lemma SetMemorySizeAdd(s: set<string>, v: string)
    requires v !in s
    ensures SetMemorySize(s + {v}) == SetMemorySize(s) + 2 * |v|
  {
    SetMemorySizeRemove(s + {v}, v);
    assert s + {v} - {v} == s;
  }

  ghost function EntriesMemorySize(es: seq<Entry>): nat
  {
    if |es| == 0 then 0 else EntriesMemorySize(es[..|es| - 1]) + SetMemorySize(es[|es| - 1].values)
  }

  /** The estimate over both maps. */
  ghost function MemorySize(msg: TaskMessage): nat
  {
    EntriesMemorySize(msg.distinctA) + EntriesMemorySize(msg.distinctB)
  }

  /** A map's estimate is the sum over its entries, whatever way the entries are split. */
  lemma {:induction false} EntriesMemorySizeAppend(es: seq<Entry>, fs: seq<Entry>)
    ensures EntriesMemorySize(es + fs) == EntriesMemorySize(es) + EntriesMemorySize(fs)
    decreases |fs|
  {
    if |fs| == 0 {
      assert es + fs == es;
    } else {
      var init := fs[..|fs| - 1];
      assert (es + fs)[..|es + fs| - 1] == es + init;
      EntriesMemorySizeAppend(es, init);
    }
  }

  // ---------------------------------------------------------------------
  // The scan, as a fold over the column pairs
  // ---------------------------------------------------------------------

  /** The dedupe loop's test on one listed dependency. */
  predicate Matches(dep: InclusionDependency, tableA: string, columnA: string, tableB: string, columnB: string)
  {
    SameColumn(dep.dependentTable, dep.dependentColumn, tableA, columnA) &&
    SameColumn(dep.referencedTable, dep.referencedColumn, tableB, columnB)
  }

  predicate Listed(inds: seq<InclusionDependency>, tableA: string, columnA: string, tableB: string, columnB: string)
  {
    exists k :: 0 <= k < |inds| && Matches(inds[k], tableA, columnA, tableB, columnB)
  }

  /** One pair: skipped for the same column or an already listed pair, else the cardinality and containment tests. */
  function Check(inds: seq<InclusionDependency>, tableA: string, tableB: string, a: Entry, b: Entry): seq<InclusionDependency>
  {
    if SameColumn(tableA, a.column, tableB, b.column) || Listed(inds, tableA, a.column, tableB, b.column) then inds
    else
      var withForward :=
        if |a.values| <= |b.values| && a.values <= b.values
        then inds + [InclusionDependency(tableA, tableB, a.column, b.column)]
        else inds;
      if |b.values| <= |a.values| && b.values <= a.values
      then withForward + [InclusionDependency(tableB, tableA, b.column, a.column)]
      else withForward
  }

  /** Column `a` of side A against the first `j` columns of side B. */
  function ScanColumns(inds: seq<InclusionDependency>, tableA: string, tableB: string, a: Entry, bs: seq<Entry>, j: nat): seq<InclusionDependency>
    requires j <= |bs|
  {
    if j == 0 then inds else Check(ScanColumns(inds, tableA, tableB, a, bs, j - 1), tableA, tableB, a, bs[j - 1])
  }

  /** The first `i` columns of side A against all of side B. */
  function ScanRows(msg: TaskMessage, i: nat): seq<InclusionDependency>
    requires i <= |msg.distinctA|
  {
    if i == 0 then []
    else ScanColumns(ScanRows(msg, i - 1), msg.task.tableNameA, msg.task.tableNameB, msg.distinctA[i - 1], msg.distinctB, |msg.distinctB|)
  }

  function Discover(msg: TaskMessage): seq<InclusionDependency>
  {
    ScanRows(msg, |msg.distinctA|)
  }

  // ---------------------------------------------------------------------
  // The handler
  // ---------------------------------------------------------------------

  /** The nested iteration over both maps with the dedupe loop inside. */
  method FindInclusionDependencies(msg: TaskMessage) returns (inds: seq<InclusionDependency>)
    ensures inds == Discover(msg)
  {
    var tableA, tableB := msg.task.tableNameA, msg.task.tableNameB;
    inds := [];
    var i := 0;
    while i < |msg.distinctA|
      invariant i <= |msg.distinctA|
      invariant inds == ScanRows(msg, i)
    {
      var a := msg.distinctA[i];
      ghost var start := inds;
      var j := 0;
      while j < |msg.distinctB|
        invariant j <= |msg.distinctB|
        invariant inds == ScanColumns(start, tableA, tableB, a, msg.distinctB, j)
      {
        var b := msg.distinctB[j];
        if !SameColumn(tableA, a.column, tableB, b.column) {
          var listed := false;
          var k := 0;
          while k < |inds| && !listed
            invariant k <= |inds|
            invariant listed ==> Listed(inds, tableA, a.column, tableB, b.column)
            invariant !listed ==> forall m :: 0 <= m < k ==> !Matches(inds[m], tableA, a.column, tableB, b.column)
          {
            if Matches(inds[k], tableA, a.column, tableB, b.column) {
              listed := true;
            }
            k := k + 1;
          }
          if !listed {
            var cardinalityA, cardinalityB := |a.values|, |b.values|;
            if cardinalityA <= cardinalityB && a.values <= b.values {
              inds := inds + [InclusionDependency(tableA, tableB, a.column, b.column)];
            }
            if cardinalityB <= cardinalityA && b.values <= a.values {
              inds := inds + [InclusionDependency(tableB, tableA, b.column, a.column)];
            }
          }
        }
        j := j + 1;
      }
      i := i + 1;
    }
  }

  /** Handles a task: the completion goes to the miner's proxy with the worker's own reference and the full list. */
  method HandleTask(self: ActorRef, msg: TaskMessage) returns (out: Send)
    ensures out.receiver == msg.minerProxy
    ensures out.message.worker == self
    ensures out.message.inclusionDeps == Discover(msg)
  {
    var inds := FindInclusionDependencies(msg);
    out := Send(CompletionMessage(self, inds), msg.minerProxy);
  }

  // ---------------------------------------------------------------------
  // What one pair contributes
  // ---------------------------------------------------------------------

  lemma {:induction false} SubsetCardinality(s: set<string>, t: set<string>)
    requires s <= t
    ensures |s| <= |t|
    decreases |t|
  {
    if s != {} {
      var v :| v in s;
      SubsetCardinality(s - {v}, t - {v});
    }
  }

  /** The cardinality test is implied by containment, so each direction is emitted exactly when its containment holds. */
  lemma CardinalityRedundant(s: set<string>, t: set<string>)
    ensures (|s| <= |t| && s <= t) <==> s <= t
  {
    if s <= t {
      SubsetCardinality(s, t);
    }
  }

  /** The dedupe test finds exactly the forward dependency of the pair. */
  lemma ListedIsForward(inds: seq<InclusionDependency>, tableA: string, columnA: string, tableB: string, columnB: string)
    ensures Listed(inds, tableA, columnA, tableB, columnB) <==> InclusionDependency(tableA, tableB, columnA, columnB) in inds
  {
    var d := InclusionDependency(tableA, tableB, columnA, columnB);
    if d in inds {
      var k :| 0 <= k < |inds| && inds[k] == d;
      assert Matches(inds[k], tableA, columnA, tableB, columnB);
    }
  }

  /**
   * What checking one pair does: nothing for the same column or when the
   * forward dependency is already listed; otherwise it appends the forward
   * dependency iff a's values lie in b's, then the reverse one iff b's lie
   * in a's.
   */
  lemma CheckEffect(inds: seq<InclusionDependency>, tableA: string, tableB: string, a: Entry, b: Entry)
    ensures SameColumn(tableA, a.column, tableB, b.column) ==> Check(inds, tableA, tableB, a, b) == inds
    ensures InclusionDependency(tableA, tableB, a.column, b.column) in inds ==> Check(inds, tableA, tableB, a, b) == inds
    ensures !SameColumn(tableA, a.column, tableB, b.column) && InclusionDependency(tableA, tableB, a.column, b.column) !in inds ==>
      Check(inds, tableA, tableB, a, b) ==
        inds
        + (if a.values <= b.values then [InclusionDependency(tableA, tableB, a.column, b.column)] else [])
        + (if b.values <= a.values then [InclusionDependency(tableB, tableA, b.column, a.column)] else [])
  {
    ListedIsForward(inds, tableA, a.column, tableB, b.column);
    CardinalityRedundant(a.values, b.values);
    CardinalityRedundant(b.values, a.values);
  }

  // ---------------------------------------------------------------------
  // Soundness, completeness and distinctness of the scan
  // ---------------------------------------------------------------------

  function Forward(msg: TaskMessage, p: nat, q: nat): InclusionDependency
    requires p < |msg.distinctA| && q < |msg.distinctB|
  {
    InclusionDependency(msg.task.tableNameA, msg.task.tableNameB, msg.distinctA[p].column, msg.distinctB[q].column)
  }

  function Reverse(msg: TaskMessage, p: nat, q: nat): InclusionDependency
    requires p < |msg.distinctA| && q < |msg.distinctB|
  {
    InclusionDependency(msg.task.tableNameB, msg.task.tableNameA, msg.distinctB[q].column, msg.distinctA[p].column)
  }

  predicate SamePair(msg: TaskMessage, p: nat, q: nat)
    requires p < |msg.distinctA| && q < |msg.distinctB|
  {
    SameColumn(msg.task.tableNameA, msg.distinctA[p].column, msg.task.tableNameB, msg.distinctB[q].column)
  }

  /** The dependencies pair (p, q) stands for: each direction whose containment holds, unless it is one column. */
  ghost predicate Emits(msg: TaskMessage, p: nat, q: nat, d: InclusionDependency)
    requires p < |msg.distinctA| && q < |msg.distinctB|
  {
    !SamePair(msg, p, q) &&
    ((d == Forward(msg, p, q) && msg.distinctA[p].values <= msg.distinctB[q].values) ||
     (d == Reverse(msg, p, q) && msg.distinctB[q].values <= msg.distinctA[p].values))
  }

  /** Pair (p, q) comes before pair (i, j) in the iteration order. */
  predicate Before(p: nat, q: nat, i: nat, j: nat)
  {
    p < i || (p == i && q < j)
  }

  ghost predicate EmittedBefore(msg: TaskMessage, i: nat, j: nat, d: InclusionDependency)
  {
    exists p: nat, q: nat :: p < |msg.distinctA| && q < |msg.distinctB| && Before(p, q, i, j) && Emits(msg, p, q, d)
  }

  /** The dependencies the maps call for: every direction in which one value set lies inside the other. */
  ghost predicate Expected(msg: TaskMessage, d: InclusionDependency)
  {
    EmittedBefore(msg, |msg.distinctA|, 0, d)
  }

  ghost predicate Sound(msg: TaskMessage, inds: seq<InclusionDependency>, i: nat, j: nat)
  {
    forall d :: d in inds ==> EmittedBefore(msg, i, j, d)
  }

  ghost predicate Covered(msg: TaskMessage, inds: seq<InclusionDependency>, p: nat, q: nat)
    requires p < |msg.distinctA| && q < |msg.distinctB|
  {
    !SamePair(msg, p, q) ==>
      (msg.distinctA[p].values <= msg.distinctB[q].values ==> Forward(msg, p, q) in inds) &&
      (msg.distinctB[q].values <= msg.distinctA[p].values ==> Reverse(msg, p, q) in inds)
  }

  ghost predicate Complete(msg: TaskMessage, inds: seq<InclusionDependency>, i: nat, j: nat)
  {
    forall p: nat, q: nat :: p < |msg.distinctA| && q < |msg.distinctB| && Before(p, q, i, j) ==> Covered(msg, inds, p, q)
  }

  /**
   * The two maps agree where they share a column: keys are distinct and, in a
   * task pairing a table with itself, a column has the same values on both
   * sides. Maps built from one data store have this property.
   */
  ghost predicate Consistent(msg: TaskMessage)
  {
    Keyed(msg.distinctA) && Keyed(msg.distinctB) &&
    (msg.task.tableNameA == msg.task.tableNameB ==>
      forall p, q :: 0 <= p < |msg.distinctA| && 0 <= q < |msg.distinctB| && msg.distinctA[p].column == msg.distinctB[q].column ==>
        msg.distinctA[p].values == msg.distinctB[q].values)
  }

  lemma CheckSound(msg: TaskMessage, inds: seq<InclusionDependency>, i: nat, j: nat)
    requires i < |msg.distinctA| && j < |msg.distinctB|
    requires Sound(msg, inds, i, j)
    ensures Sound(msg, Check(inds, msg.task.tableNameA, msg.task.tableNameB, msg.distinctA[i], msg.distinctB[j]), i, j + 1)
  {
    var r := Check(inds, msg.task.tableNameA, msg.task.tableNameB, msg.distinctA[i], msg.distinctB[j]);
    CheckEffect(inds, msg.task.tableNameA, msg.task.tableNameB, msg.distinctA[i], msg.distinctB[j]);
    forall d | d in r ensures EmittedBefore(msg, i, j + 1, d) {
      if d in inds {
        var p: nat, q: nat :| p < |msg.distinctA| && q < |msg.distinctB| && Before(p, q, i, j) && Emits(msg, p, q, d);
        assert Before(p, q, i, j + 1);
      } else {
        assert Emits(msg, i, j, d);
        assert Before(i, j, i, j + 1);
      }
    }
  }

  lemma CheckComplete(msg: TaskMessage, inds: seq<InclusionDependency>, i: nat, j: nat)
    requires i < |msg.distinctA| && j < |msg.distinctB|
    requires Consistent(msg)
    requires Sound(msg, inds, i, j) && Complete(msg, inds, i, j)
    ensures Complete(msg, Check(inds, msg.task.tableNameA, msg.task.tableNameB, msg.distinctA[i], msg.distinctB[j]), i, j + 1)
  {
    var tA, tB, A, B := msg.task.tableNameA, msg.task.tableNameB, msg.distinctA, msg.distinctB;
    var r := Check(inds, tA, tB, A[i], B[j]);
    CheckEffect(inds, tA, tB, A[i], B[j]);
    assert forall d :: d in inds ==> d in r;
    if !SamePair(msg, i, j) && Forward(msg, i, j) in inds && B[j].values <= A[i].values {
      // The forward dependency was listed by an earlier pair; it can only be
      // the reverse of the mirrored pair, whose sets are then the same.
      var p: nat, q: nat :| p < |A| && q < |B| && Before(p, q, i, j) && Emits(msg, p, q, Forward(msg, i, j));
      assert Forward(msg, i, j) != Forward(msg, p, q) by {
        assert p != i || q != j;
      }
      assert tA == tB && B[q].column == A[i].column && A[p].column == B[j].column;
      assert A[p].values == B[j].values && A[i].values == B[q].values;
      assert Covered(msg, inds, p, q);
      assert Forward(msg, p, q) == Reverse(msg, i, j);
    }
    forall p: nat, q: nat | p < |A| && q < |B| && Before(p, q, i, j + 1) ensures Covered(msg, r, p, q) {
      if Before(p, q, i, j) {
        assert Covered(msg, inds, p, q);
      }
    }
  }

  lemma CheckDistinct(msg: TaskMessage, inds: seq<InclusionDependency>, i: nat, j: nat)
    requires i < |msg.distinctA| && j < |msg.distinctB|
    requires msg.task.tableNameA != msg.task.tableNameB && Keyed(msg.distinctA) && Keyed(msg.distinctB)
    requires Sound(msg, inds, i, j) && NoDuplicates(inds)
    ensures NoDuplicates(Check(inds, msg.task.tableNameA, msg.task.tableNameB, msg.distinctA[i], msg.distinctB[j]))
  {
    var tA, tB, A, B := msg.task.tableNameA, msg.task.tableNameB, msg.distinctA, msg.distinctB;
    CheckEffect(inds, tA, tB, A[i], B[j]);
    // No earlier pair stands for the reverse dependency of this one.
    forall p: nat, q: nat | p < |A| && q < |B| && Before(p, q, i, j)
      ensures Forward(msg, p, q) != Reverse(msg, i, j) && Reverse(msg, p, q) != Reverse(msg, i, j)
    {
      assert p != i || q != j;
    }
    var r := Check(inds, tA, tB, A[i], B[j]);
    forall a, b | 0 <= a < b < |r| ensures r[a] != r[b] {
      if b >= |inds| && a < |inds| {
        assert r[a] in inds;
      }
    }
  }

  /** The bookkeeping of a finished row carries over to the start of the next. */
  lemma NextRow(msg: TaskMessage, inds: seq<InclusionDependency>, i: nat)
    requires i < |msg.distinctA|
    ensures Sound(msg, inds, i, |msg.distinctB|) ==> Sound(msg, inds, i + 1, 0)
    ensures Complete(msg, inds, i, |msg.distinctB|) ==> Complete(msg, inds, i + 1, 0)
  {
    if Sound(msg, inds, i, |msg.distinctB|) {
      forall d | d in inds ensures EmittedBefore(msg, i + 1, 0, d) {
        var p: nat, q: nat :| p < |msg.distinctA| && q < |msg.distinctB| && Before(p, q, i, |msg.distinctB|) && Emits(msg, p, q, d);
        assert Before(p, q, i + 1, 0);
      }
    }
    if Complete(msg, inds, i, |msg.distinctB|) {
      forall p: nat, q: nat | p < |msg.distinctA| && q < |msg.distinctB| && Before(p, q, i + 1, 0) ensures Covered(msg, inds, p, q) {
        assert Before(p, q, i, |msg.distinctB|);
      }
    }
  }

  /** The invariant the fold keeps; `distinct` asks for no duplicates as well. */
  ghost predicate Accounted(msg: TaskMessage, inds: seq<InclusionDependency>, i: nat, j: nat, consistent: bool, distinct: bool)
  {
    Sound(msg, inds, i, j) &&
    (consistent ==> Complete(msg, inds, i, j)) &&
    (distinct ==> NoDuplicates(inds))
  }

  lemma {:induction false} ScanColumnsAccounted(msg: TaskMessage, inds: seq<InclusionDependency>, i: nat, j: nat, consistent: bool, distinct: bool)
    requires i < |msg.distinctA| && j <= |msg.distinctB|
    requires consistent ==> Consistent(msg)
    requires distinct ==> msg.task.tableNameA != msg.task.tableNameB && Keyed(msg.distinctA) && Keyed(msg.distinctB)
    requires Accounted(msg, inds, i, 0, consistent, distinct)
    ensures Accounted(msg, ScanColumns(inds, msg.task.tableNameA, msg.task.tableNameB, msg.distinctA[i], msg.distinctB, j), i, j, consistent, distinct)
    decreases j
  {
    if j > 0 {
      ScanColumnsAccounted(msg, inds, i, j - 1, consistent, distinct);
      var before := ScanColumns(inds, msg.task.tableNameA, msg.task.tableNameB, msg.distinctA[i], msg.distinctB, j - 1);
      CheckSound(msg, before, i, j - 1);
      if consistent {
        CheckComplete(msg, before, i, j - 1);
      }
      if distinct {
        CheckDistinct(msg, before, i, j - 1);
      }
    }
  }

  lemma {:induction false} ScanRowsAccounted(msg: TaskMessage, i: nat, consistent: bool, distinct: bool)
    requires i <= |msg.distinctA|
    requires consistent ==> Consistent(msg)
    requires distinct ==> msg.task.tableNameA != msg.task.tableNameB && Keyed(msg.distinctA) && Keyed(msg.distinctB)
    ensures Accounted(msg, ScanRows(msg, i), i, 0, consistent, distinct)
  {
    if i > 0 {
      ScanRowsAccounted(msg, i - 1, consistent, distinct);
      ScanColumnsAccounted(msg, ScanRows(msg, i - 1), i - 1, |msg.distinctB|, consistent, distinct);
      NextRow(msg, ScanRows(msg, i), i - 1);
    }
  }

  /** Soundness: every listed dependency is one the maps call for; its dependent values lie in its referenced values. */
  lemma DiscoverSound(msg: TaskMessage, d: InclusionDependency)
    requires d in Discover(msg)
    ensures Expected(msg, d)
  {
    ScanRowsAccounted(msg, |msg.distinctA|, false, false);
  }

  /** Completeness: on consistent maps, every dependency the maps call for is listed. */
  lemma DiscoverComplete(msg: TaskMessage, d: InclusionDependency)
    requires Consistent(msg)
    requires Expected(msg, d)
    ensures d in Discover(msg)
  {
    ScanRowsAccounted(msg, |msg.distinctA|, true, false);
    var p: nat, q: nat :| p < |msg.distinctA| && q < |msg.distinctB| && Before(p, q, |msg.distinctA|, 0) && Emits(msg, p, q, d);
    assert Covered(msg, Discover(msg), p, q);
  }

  /** Between two different tables no dependency is listed twice. */
  lemma DiscoverDistinct(msg: TaskMessage)
    requires msg.task.tableNameA != msg.task.tableNameB
    requires Keyed(msg.distinctA) && Keyed(msg.distinctB)
    ensures NoDuplicates(Discover(msg))
  {
    ScanRowsAccounted(msg, |msg.distinctA|, false, true);
  }

  /**
   * Within one table the list can hold a dependency twice: with x's values a
   * strict subset of y's, pair (x, y) lists x ⊆ y forward, and pair (y, x),
   * whose forward dependency y ⊆ x is not listed, adds x ⊆ y again in reverse.
   */
  lemma SelfPairListsTwice()
    ensures var x, y := Entry("x", {"1"}), Entry("y", {"1", "2"});
      var msg := TaskMessage(ActorRef(0), Task("T", "T", ["x", "y"], ["x", "y"]), [x, y], [x, y]);
      Consistent(msg) &&
      Discover(msg) == [InclusionDependency("T", "T", "x", "y"), InclusionDependency("T", "T", "x", "y")]
  {
    var x, y := Entry("x", {"1"}), Entry("y", {"1", "2"});
    var msg := TaskMessage(ActorRef(0), Task("T", "T", ["x", "y"], ["x", "y"]), [x, y], [x, y]);
    var d := InclusionDependency("T", "T", "x", "y");
    var B := [x, y];
    assert "2" in y.values && "2" !in x.values;
    CardinalityRedundant(x.values, y.values);
    assert ScanColumns([], "T", "T", x, B, 1) == Check([], "T", "T", x, x) == [];
    assert ScanColumns([], "T", "T", x, B, 2) == Check([], "T", "T", x, y) == [d];
    assert ScanRows(msg, 1) == [d];
    assert !Matches(d, "T", "y", "T", "x");
    assert ScanColumns([d], "T", "T", y, B, 1) == Check([d], "T", "T", y, x) == [d, d];
    assert ScanColumns([d], "T", "T", y, B, 2) == Check([d, d], "T", "T", y, y) == [d, d];
  }
}
