/**
 * The coordinator. It stores the tables the readers send, turns every pair
 * of fully read tables into tasks, hands tasks to idle workers in queue
 * order, forwards the workers' results and finalizes once everything is read,
 * handed and answered.
 *
 * Each handler runs to completion, so handlers are plain methods. What the
 * coordinator sends (batch requests to readers, tasks to worker proxies,
 * results and the final message to the result collector) is appended to an
 * output log, `outbox`.
 */
module DependencyMining {
  import opened Wrappers
  import opened Lists
  import opened Tasks
  import opened InclusionDependencies
  import opened Columns
  import opened Storage
  import opened Partitioning
  import opened TaskGeneration
  import opened DependencyWorker

  /** The memory budget handed to task generation: 60 MiB. */
  const MemoryBudget: int := 60 * 1024 * 1024

  datatype Outgoing =
    | ReadHeader(reader: nat)
    | ReadBatch(reader: nat)
    | TaskSent(workerProxy: ActorRef, message: TaskMessage)
    | Results(inclusionDeps: seq<InclusionDependency>)
    | Finalize

  // ---------------------------------------------------------------------
  // Delegation: idle workers take tasks from the head of the queue
  // ---------------------------------------------------------------------

  /** Task `task` goes to the worker at position `index`, through the proxy at the same position. */
  datatype Assignment = Assignment(index: nat, worker: ActorRef, proxy: ActorRef, task: Task)

  datatype Board = Board(queue: seq<Task>, busy: map<ActorRef, Task>, handed: seq<Assignment>)

  /** The delegation loop after its first `n` worker positions. */
  function DelegateUpTo(workers: seq<ActorRef>, proxies: seq<ActorRef>, queue: seq<Task>, busy: map<ActorRef, Task>, n: nat): Board
    requires n <= |workers| <= |proxies|
  {
    if n == 0 then Board(queue, busy, [])
    else
      var b := DelegateUpTo(workers, proxies, queue, busy, n - 1);
      var w := workers[n - 1];
      if |b.queue| == 0 || w in b.busy then b
      else Board(b.queue[1..], b.busy[w := b.queue[0]], b.handed + [Assignment(n - 1, w, proxies[n - 1], b.queue[0])])
  }

  function Delegate(workers: seq<ActorRef>, proxies: seq<ActorRef>, queue: seq<Task>, busy: map<ActorRef, Task>): Board
    requires |workers| <= |proxies|
  {
    DelegateUpTo(workers, proxies, queue, busy, |workers|)
  }

  function HandedTasks(handed: seq<Assignment>): (ts: seq<Task>)
    ensures |ts| == |handed|
    ensures forall k :: 0 <= k < |handed| ==> ts[k] == handed[k].task
  {
    seq(|handed|, k requires 0 <= k < |handed| => handed[k].task)
  }

  /** Tasks leave from the head of the queue, in queue order. */
  lemma {:induction false} DelegateFifo(workers: seq<ActorRef>, proxies: seq<ActorRef>, queue: seq<Task>, busy: map<ActorRef, Task>, n: nat)
    requires n <= |workers| <= |proxies|
    ensures var b := DelegateUpTo(workers, proxies, queue, busy, n);
      HandedTasks(b.handed) + b.queue == queue
    decreases n
  {
    if n > 0 {
      DelegateFifo(workers, proxies, queue, busy, n - 1);
      var b := DelegateUpTo(workers, proxies, queue, busy, n - 1);
      if |b.queue| > 0 && workers[n - 1] !in b.busy {
        var a := Assignment(n - 1, workers[n - 1], proxies[n - 1], b.queue[0]);
        assert HandedTasks(b.handed + [a]) == HandedTasks(b.handed) + [b.queue[0]];
        assert [b.queue[0]] + b.queue[1..] == b.queue;
      }
    }
  }

  /** Every assignment names a position below `n`, the worker and the proxy at that position, and positions increase. */
  ghost predicate InOrder(workers: seq<ActorRef>, proxies: seq<ActorRef>, handed: seq<Assignment>, n: nat)
    requires n <= |workers| <= |proxies|
  {
    && (forall k :: 0 <= k < |handed| ==> handed[k].index < n)
    && (forall k :: 0 <= k < |handed| ==>
          handed[k].worker == workers[handed[k].index] && handed[k].proxy == proxies[handed[k].index])
    && (forall k, l :: 0 <= k < l < |handed| ==> handed[k].index < handed[l].index)
  }

  /** Workers are tried in list order, each through the proxy at its own position. */
  lemma {:induction false} DelegateInOrder(workers: seq<ActorRef>, proxies: seq<ActorRef>, queue: seq<Task>, busy: map<ActorRef, Task>, n: nat)
    requires n <= |workers| <= |proxies|
    ensures InOrder(workers, proxies, DelegateUpTo(workers, proxies, queue, busy, n).handed, n)
    decreases n
  {
    if n > 0 {
      DelegateInOrder(workers, proxies, queue, busy, n - 1);
      var b := DelegateUpTo(workers, proxies, queue, busy, n - 1);
      var w := workers[n - 1];
      if |b.queue| > 0 && w !in b.busy {
        var h := b.handed + [Assignment(n - 1, w, proxies[n - 1], b.queue[0])];
        assert DelegateUpTo(workers, proxies, queue, busy, n).handed == h;
        forall k | 0 <= k < |h|
          ensures h[k].index < n && h[k].worker == workers[h[k].index] && h[k].proxy == proxies[h[k].index]
        {
          if k < |b.handed| { assert h[k] == b.handed[k]; }
        }
        forall k, l | 0 <= k < l < |h|
          ensures h[k].index < h[l].index
        {
          assert h[k] == b.handed[k];
          if l < |b.handed| { assert h[l] == b.handed[l]; }
        }
      }
    }
  }

  /**
   * A worker that is busy is skipped, so no worker is handed a second task:
   * every handed worker was idle, the handed workers differ, the busy map
   * keeps its entries and gains exactly one per handed task.
   */
  lemma {:induction false} DelegateKeepsBusy(workers: seq<ActorRef>, proxies: seq<ActorRef>, queue: seq<Task>, busy: map<ActorRef, Task>, n: nat)
    requires n <= |workers| <= |proxies|
    ensures var b := DelegateUpTo(workers, proxies, queue, busy, n);
      && (forall w :: w in busy ==> w in b.busy && b.busy[w] == busy[w])
      && (forall k :: 0 <= k < |b.handed| ==>
            b.handed[k].worker !in busy && b.handed[k].worker in b.busy && b.busy[b.handed[k].worker] == b.handed[k].task)
      && (forall k, l :: 0 <= k < l < |b.handed| ==> b.handed[k].worker != b.handed[l].worker)
      && (forall w :: w in b.busy ==> w in busy || exists k :: 0 <= k < |b.handed| && b.handed[k].worker == w)
    decreases n
  {
    if n > 0 {
      DelegateKeepsBusy(workers, proxies, queue, busy, n - 1);
      var b := DelegateUpTo(workers, proxies, queue, busy, n - 1);
      var w := workers[n - 1];
      if |b.queue| > 0 && w !in b.busy {
        var a := Assignment(n - 1, w, proxies[n - 1], b.queue[0]);
        var b' := Board(b.queue[1..], b.busy[w := b.queue[0]], b.handed + [a]);
        assert DelegateUpTo(workers, proxies, queue, busy, n) == b';
        assert w !in busy;
        forall k | 0 <= k < |b'.handed|
          ensures b'.handed[k].worker !in busy && b'.handed[k].worker in b'.busy && b'.busy[b'.handed[k].worker] == b'.handed[k].task
        {
          if k < |b.handed| {
            assert b'.handed[k] == b.handed[k] && b.handed[k].worker != w;
          }
        }
        forall k, l | 0 <= k < l < |b'.handed| ensures b'.handed[k].worker != b'.handed[l].worker {
          if l == |b.handed| {
            assert b'.handed[k] == b.handed[k] && b.handed[k].worker in b.busy;
          }
        }
        forall v | v in b'.busy ensures v in busy || exists k :: 0 <= k < |b'.handed| && b'.handed[k].worker == v {
          if v == w {
            assert b'.handed[|b.handed|].worker == v;
          } else if v !in busy {
            var k :| 0 <= k < |b.handed| && b.handed[k].worker == v;
            assert b'.handed[k].worker == v;
          }
        }
      }
    }
  }

  /** Once the loop is over, the queue is empty or every worker is busy. */
  lemma {:induction false} DelegateSaturates(workers: seq<ActorRef>, proxies: seq<ActorRef>, queue: seq<Task>, busy: map<ActorRef, Task>, n: nat)
    requires n <= |workers| <= |proxies|
    ensures var b := DelegateUpTo(workers, proxies, queue, busy, n);
      |b.queue| == 0 || forall i :: 0 <= i < n ==> workers[i] in b.busy
    decreases n
  {
    if n > 0 {
      DelegateSaturates(workers, proxies, queue, busy, n - 1);
      var b := DelegateUpTo(workers, proxies, queue, busy, n - 1);
      if |b.queue| > 0 && workers[n - 1] !in b.busy {
        DelegateKeepsBusy(workers, proxies, queue, busy, n - 1);
      }
    }
  }

  /** With the queue empty the remaining positions change nothing, so leaving the loop early is the same. */
  lemma {:induction false} DelegateIdle(workers: seq<ActorRef>, proxies: seq<ActorRef>, queue: seq<Task>, busy: map<ActorRef, Task>, k: nat, n: nat)
    requires k <= n <= |workers| <= |proxies|
    requires |DelegateUpTo(workers, proxies, queue, busy, k).queue| == 0
    ensures DelegateUpTo(workers, proxies, queue, busy, n) == DelegateUpTo(workers, proxies, queue, busy, k)
    decreases n
  {
    if n > k {
      DelegateIdle(workers, proxies, queue, busy, k, n - 1);
    }
  }

  /**
   * A terminated worker leaves the worker list but not the proxy list, so the
   * positions shift: after w0 terminates, w1 is paired with w0's proxy p0
   * though it registered with p1.
   */
  lemma TerminationMisalignsProxies()
    ensures var w0, w1, p0, p1 := ActorRef(0), ActorRef(1), ActorRef(10), ActorRef(11);
      var t := Task("T", "T", [], []);
      && Delegate([w0, w1], [p0, p1], [t, t], map[]).handed == [Assignment(0, w0, p0, t), Assignment(1, w1, p1, t)]
      && Delegate(RemoveFirst([w0, w1], w0), [p0, p1], [t], map[]).handed == [Assignment(0, w1, p0, t)]
  {
    var w0, w1, p0, p1 := ActorRef(0), ActorRef(1), ActorRef(10), ActorRef(11);
    var ws, ps, t := [w0, w1], [p0, p1], Task("T", "T", [], []);
    var b1 := DelegateUpTo(ws, ps, [t, t], map[], 1);
    assert DelegateUpTo(ws, ps, [t, t], map[], 0) == Board([t, t], map[], []);
    assert b1 == Board([t], map[w0 := t], [Assignment(0, w0, p0, t)]);
    assert DelegateUpTo(ws, ps, [t, t], map[], 2).handed == [Assignment(0, w0, p0, t), Assignment(1, w1, p1, t)];
    assert IndexFrom(ws, w0, 0) == Some(0);
    assert RemoveFirst(ws, w0) == [w1];
    assert DelegateUpTo([w1], ps, [t], map[], 0) == Board([t], map[], []);
    assert DelegateUpTo([w1], ps, [t], map[], 1).handed == [Assignment(0, w1, p0, t)];
  }

  // ---------------------------------------------------------------------
  // Which table pairs are turned into tasks
  // ---------------------------------------------------------------------

  /** The flags of `n` readers once the readers in `order` have reported the end of their file. */
  function Marked(order: seq<nat>, n: nat): (f: seq<bool>)
    ensures |f| == n && forall j :: 0 <= j < n ==> (f[j] <==> j in order)
  {
    seq(n, j requires 0 <= j < n => j in order)
  }

  /** The pairs table `id` forms with the finished tables among the first `k`, with `id` on side A. */
  function PairsUpTo(id: nat, finished: seq<bool>, k: nat): seq<(nat, nat)>
    requires k <= |finished|
  {
    if k == 0 then []
    else PairsUpTo(id, finished, k - 1) + (if finished[k - 1] then [(id, k - 1)] else [])
  }

  /** Every pair enqueued when the readers finish in `order`. */
  function Enqueued(order: seq<nat>, n: nat): seq<(nat, nat)>
  {
    if |order| == 0 then []
    else Enqueued(order[..|order| - 1], n) + PairsUpTo(order[|order| - 1], Marked(order, n), n)
  }

  lemma {:induction false} PairsUpToMembers(id: nat, finished: seq<bool>, k: nat)
    requires k <= |finished|
    ensures forall a: nat, b: nat :: (a, b) in PairsUpTo(id, finished, k) <==> a == id && b < k && finished[b]
    ensures NoDuplicates(PairsUpTo(id, finished, k))
    decreases k
  {
    if k > 0 {
      PairsUpToMembers(id, finished, k - 1);
    }
  }

  /** Only finished readers appear in enqueued pairs, on either side. */
  lemma {:induction false} EnqueuedFromOrder(order: seq<nat>, n: nat)
    ensures forall a, b :: (a, b) in Enqueued(order, n) ==> a in order && b in order
    decreases |order|
  {
    if |order| > 0 {
      var init := order[..|order| - 1];
      EnqueuedFromOrder(init, n);
      PairsUpToMembers(order[|order| - 1], Marked(order, n), n);
      assert forall a :: a in init ==> a in order;
    }
  }

  /** When every reader reports the end of its file once, no pair is enqueued twice. */
  lemma {:induction false} EnqueuedDistinct(order: seq<nat>, n: nat)
    requires NoDuplicates(order)
    ensures NoDuplicates(Enqueued(order, n))
    decreases |order|
  {
    if |order| > 0 {
      var init, x := order[..|order| - 1], order[|order| - 1];
      var old_ := Enqueued(init, n);
      var fresh_ := PairsUpTo(x, Marked(order, n), n);
      EnqueuedDistinct(init, n);
      EnqueuedFromOrder(init, n);
      PairsUpToMembers(x, Marked(order, n), n);
      assert x !in init;
      var e := old_ + fresh_;
      forall a, b | 0 <= a < b < |e| ensures e[a] != e[b] {
        if a < |old_| && b >= |old_| {
          assert e[a] in old_ && e[b] in fresh_;
        }
      }
    }
  }

  /**
   * When every reader reports the end of its file once, the pair of the
   * i-th and j-th finisher is enqueued with the i-th on side A exactly when
   * it finished no earlier. So each table is paired with itself once and two
   * different tables are paired once, by the later finisher.
   */
  lemma {:induction false} EnqueuedPairs(order: seq<nat>, n: nat)
    requires NoDuplicates(order)
    requires forall k :: 0 <= k < |order| ==> order[k] < n
    ensures forall i, j :: 0 <= i < |order| && 0 <= j < |order| ==> ((order[i], order[j]) in Enqueued(order, n) <==> j <= i)
    decreases |order|
  {
    if |order| > 0 {
      var init, x := order[..|order| - 1], order[|order| - 1];
      EnqueuedPairs(init, n);
      EnqueuedFromOrder(init, n);
      PairsUpToMembers(x, Marked(order, n), n);
      assert x !in init;
      forall i, j | 0 <= i < |order| && 0 <= j < |order|
        ensures (order[i], order[j]) in Enqueued(order, n) <==> j <= i
      {
        if i < |init| && j < |init| {
          assert init[i] == order[i] && init[j] == order[j];
        } else if i < |init| {
          assert order[i] in init && order[i] != x;
        } else {
          assert order[j] in order;
        }
      }
    }
  }

  // ---------------------------------------------------------------------
  // Distinct-value maps and the task messages built from them
  // ---------------------------------------------------------------------

  function Keys(es: seq<Entry>): set<string>
  {
    set k | 0 <= k < |es| :: es[k].column
  }

  function ColumnsOf(es: seq<Entry>): (cs: seq<string>)
    ensures |cs| == |es| && forall k :: 0 <= k < |es| ==> cs[k] == es[k].column
  {
    seq(|es|, k requires 0 <= k < |es| => es[k].column)
  }

  /** HashMap.put: replaces the value of a present key, or adds the key. */
  function Put(es: seq<Entry>, c: string, v: set<string>): (r: seq<Entry>)
    requires Keyed(es)
    ensures Keyed(r)
    ensures Keys(r) == Keys(es) + {c}
    ensures forall k :: 0 <= k < |r| && r[k].column == c ==> r[k].values == v
    ensures forall k :: 0 <= k < |r| && r[k].column != c ==> r[k] in es
  {
    match IndexOf(ColumnsOf(es), c)
    case Some(i) =>
      var r := es[i := Entry(c, v)];
      assert Keys(r) == Keys(es) by {
        forall d | d in Keys(es) ensures d in Keys(r) {
          var k :| 0 <= k < |es| && es[k].column == d;
          assert r[k].column == d;
        }
      }
      r
    case None =>
      var r := es + [Entry(c, v)];
      assert Keys(r) == Keys(es) + {c} by {
        assert r[|es|].column == c;
        forall d | d in Keys(es) ensures d in Keys(r) {
          var k :| 0 <= k < |es| && es[k].column == d;
          assert r[k].column == d;
        }
      }
      r
  }

  function NameSet(names: seq<string>): set<string>
  {
    set c | c in names
  }

  /** The stored tables as values: each table's header and the rows appended to it. */
  datatype Tables = Tables(headers: map<string, seq<string>>, rows: map<string, seq<seq<string>>>)

  /** What a column reports as its distinct values: the first value seen under each hash code. */
  ghost function DistinctOf(vals: seq<string>): set<string>
  {
    set v | v in Dictionary(vals)
  }

  /** Table `t` is held, with every row as long as its header. */
  ghost predicate Rectangular(tables: Tables, t: string)
  {
    && t in tables.headers && t in tables.rows
    && forall k :: 0 <= k < |tables.rows[t]| ==> |tables.rows[t][k]| == |tables.headers[t]|
  }

  /** The distinct values of column `c` of table `t`, if `tables` holds that column. */
  ghost function ValuesIn(tables: Tables, t: string, c: string): Option<set<string>>
  {
    if Rectangular(tables, t) && c in tables.headers[t]
    then Some(DistinctOf(ColumnOf(tables.rows[t], IndexOf(tables.headers[t], c).value)))
    else None
  }

  /** Column `c` of table `t`: the distinct values its column object reports. */
  function ColumnDistinctValues(st: LocalDataStorage, t: string, c: string): (r: set<string>)
    reads st, st.Repr
    requires st.Valid() && t in st.headerList && c in st.headerList[t]
    ensures ValuesIn(Tables(st.headerList, st.rows), t, c) == Some(r)
  {
    st.ShapedTable(t);
    st.GetColumnHoldsRows(t, c);
    st.GetColumn(t, c).DistinctValues()
  }

  /** `es` maps exactly the names in `names`, each to the distinct values of that column of table `t`. */
  ghost predicate DistinctValuesOf(tables: Tables, t: string, es: seq<Entry>, names: seq<string>)
  {
    && Keyed(es)
    && Keys(es) == NameSet(names)
    && Holds(tables, t, es)
  }

  /** Every entry of `es` holds the distinct values of its column of table `t`. */
  ghost predicate Holds(tables: Tables, t: string, es: seq<Entry>)
  {
    forall k :: 0 <= k < |es| ==> ValuesIn(tables, t, es[k].column) == Some(es[k].values)
  }

  lemma PutHolds(tables: Tables, t: string, es: seq<Entry>, c: string, v: set<string>)
    requires Keyed(es) && Holds(tables, t, es) && ValuesIn(tables, t, c) == Some(v)
    ensures Holds(tables, t, Put(es, c, v))
  {
    var r := Put(es, c, v);
    forall k | 0 <= k < |r| ensures ValuesIn(tables, t, r[k].column) == Some(r[k].values) {
      if r[k].column != c {
        var j :| 0 <= j < |es| && es[j] == r[k];
      }
    }
  }

  lemma PutNext(es: seq<Entry>, names: seq<string>, k: nat, v: set<string>)
    requires Keyed(es) && k < |names| && Keys(es) == NameSet(names[..k])
    ensures Keys(Put(es, names[k], v)) == NameSet(names[..k + 1])
  {
    assert names[..k + 1] == names[..k] + [names[k]];
  }

  /** The distinct values of the named columns of a stored table, keyed by column name. */
  method BuildDistinctValues(st: LocalDataStorage, tableName: string, names: seq<string>) returns (es: seq<Entry>)
    requires st.Valid() && tableName in st.headerList
    requires forall c :: c in names ==> c in st.headerList[tableName]
    ensures DistinctValuesOf(Tables(st.headerList, st.rows), tableName, es, names)
  {
    ghost var tables := Tables(st.headerList, st.rows);
    es := [];
    for k := 0 to |names|
      invariant Keyed(es) && Keys(es) == NameSet(names[..k]) && Holds(tables, tableName, es)
    {
      var c := names[k];
      var values := ColumnDistinctValues(st, tableName, c);
      PutHolds(tables, tableName, es, c, values);
      PutNext(es, names, k, values);
      es := Put(es, c, values);
    }
    assert names[..|names|] == names;
  }

  /** `o` is the task message for `task`, addressed to `proxy`, answered through `minerProxy`, with the values `tables` holds. */
  ghost predicate SentFor(tables: Tables, minerProxy: ActorRef, o: Outgoing, proxy: ActorRef, task: Task)
  {
    && o.TaskSent? && o.workerProxy == proxy
    && o.message.minerProxy == minerProxy && o.message.task == task
    && DistinctValuesOf(tables, task.tableNameA, o.message.distinctA, task.columnNamesA)
    && DistinctValuesOf(tables, task.tableNameB, o.message.distinctB, task.columnNamesB)
  }

  /** The task message for `task`: the distinct values of its columns on both sides, for `workerProxy`. */
  method BuildTaskMessage(st: LocalDataStorage, minerProxy: ActorRef, task: Task, workerProxy: ActorRef) returns (sent: Outgoing)
    requires st.Valid() && Stored(st.headerList, task)
    ensures SentFor(Tables(st.headerList, st.rows), minerProxy, sent, workerProxy, task)
  {
    var distinctValuesA := BuildDistinctValues(st, task.tableNameA, task.columnNamesA);
    var distinctValuesB := BuildDistinctValues(st, task.tableNameB, task.columnNamesB);
    sent := TaskSent(workerProxy, TaskMessage(minerProxy, task, distinctValuesA, distinctValuesB));
  }

  /** `after` is `before` followed by one task message per assignment, in order. */
  ghost predicate Dispatched(tables: Tables, minerProxy: ActorRef, before: seq<Outgoing>, after: seq<Outgoing>, handed: seq<Assignment>)
  {
    && |after| == |before| + |handed|
    && after[..|before|] == before
    && forall k :: 0 <= k < |handed| ==> SentFor(tables, minerProxy, after[|before| + k], handed[k].proxy, handed[k].task)
  }

  lemma DispatchedSnoc(tables: Tables, minerProxy: ActorRef, before: seq<Outgoing>, after: seq<Outgoing>, handed: seq<Assignment>, o: Outgoing, a: Assignment)
    requires Dispatched(tables, minerProxy, before, after, handed)
    requires SentFor(tables, minerProxy, o, a.proxy, a.task)
    ensures Dispatched(tables, minerProxy, before, after + [o], handed + [a])
  {
    var after' := after + [o];
    assert after'[..|before|] == after[..|before|];
    forall k | 0 <= k < |handed| + 1
      ensures SentFor(tables, minerProxy, after'[|before| + k], (handed + [a])[k].proxy, (handed + [a])[k].task)
    {
      if k < |handed| {
        assert after'[|before| + k] == after[|before| + k];
      }
    }
  }

  /** A message built from one snapshot has consistent maps: a column shared by both sides has one value set. */
  lemma SentMessageConsistent(tables: Tables, minerProxy: ActorRef, o: Outgoing, proxy: ActorRef, task: Task)
    requires SentFor(tables, minerProxy, o, proxy, task)
    ensures Consistent(o.message)
  {
    var m := o.message;
    assert Holds(tables, task.tableNameA, m.distinctA) && Holds(tables, task.tableNameB, m.distinctB);
  }

  /** So for a message the coordinator sends, the worker lists exactly the dependencies the maps call for. */
  lemma SentMessageDiscovers(tables: Tables, minerProxy: ActorRef, o: Outgoing, proxy: ActorRef, task: Task, d: InclusionDependency)
    requires SentFor(tables, minerProxy, o, proxy, task)
    ensures d in Discover(o.message) <==> Expected(o.message, d)
  {
    SentMessageConsistent(tables, minerProxy, o, proxy, task);
    if d in Discover(o.message) {
      DiscoverSound(o.message, d);
    }
    if Expected(o.message, d) {
      DiscoverComplete(o.message, d);
    }
  }

  // ---------------------------------------------------------------------
  // Tasks of a table pair
  // ---------------------------------------------------------------------

  /** The task names tables the store holds and only columns of their headers. */
  ghost predicate Stored(headers: map<string, seq<string>>, t: Task)
  {
    && t.tableNameA in headers && t.tableNameB in headers
    && (forall c :: c in t.columnNamesA ==> c in headers[t.tableNameA])
    && (forall c :: c in t.columnNamesB ==> c in headers[t.tableNameB])
  }

  /**
   * A column's memory estimate from its values, value by value: 4 bytes
   * per row, and 2 per character of a value whose hash code is new.
   */
  ghost function Estimate(vals: seq<string>): int
  {
    if |vals| == 0 then 0
    else
      var init, v := vals[..|vals| - 1], vals[|vals| - 1];
      Estimate(init) + 4 + (if HashCode(v) in Hashes(Dictionary(init)) then 0 else 2 * |v|)
  }

  /** In total, 4 bytes per row and 2 per character of each dictionary entry. */
  lemma {:induction false} EstimateTotals(vals: seq<string>)
    ensures Estimate(vals) == 4 * |vals| + 2 * TotalLength(Dictionary(vals))
    decreases |vals|
  {
    if |vals| > 0 {
      var init, v := vals[..|vals| - 1], vals[|vals| - 1];
      EstimateTotals(init);
      var d := Dictionary(init);
      assert (d + [v])[..|d|] == d;
    }
  }

  /** The memory estimate of every column of table `t`, by column name. */
  ghost function SizesIn(tables: Tables, t: string): (sizes: map<string, int>)
    requires Rectangular(tables, t)
    ensures Sized(tables.headers[t], sizes)
    ensures forall n :: n in sizes <==> n in tables.headers[t]
  {
    SizesOf(tables.rows[t], tables.headers[t], tables.headers[t])
  }

  /** The estimate of each column of `names`, built name by name from the rows of a table with header `header`. */
  ghost function SizesOf(rows: seq<seq<string>>, header: seq<string>, names: seq<string>): (sizes: map<string, int>)
    requires forall k :: 0 <= k < |rows| ==> |rows[k]| == |header|
    requires forall n :: n in names ==> n in header
    ensures forall n :: n in sizes <==> n in names
  {
    if |names| == 0 then map[]
    else
      var n := names[|names| - 1];
      SizesOf(rows, header, names[..|names| - 1])[n := Estimate(ColumnOf(rows, IndexOf(header, n).value))]
  }

  lemma {:induction false} SizesOfAt(rows: seq<seq<string>>, header: seq<string>, names: seq<string>, n: string)
    requires forall k :: 0 <= k < |rows| ==> |rows[k]| == |header|
    requires forall n :: n in names ==> n in header
    requires n in names
    ensures SizesOf(rows, header, names)[n] == Estimate(ColumnOf(rows, IndexOf(header, n).value))
    decreases |names|
  {
    var init := names[..|names| - 1];
    if n != names[|names| - 1] {
      assert n in init;
      SizesOfAt(rows, header, init, n);
    }
  }

  /** The store's column estimates are those of the values it holds. */
  lemma ColumnSizesIn(st: LocalDataStorage, t: string)
    requires st.Valid() && t in st.headerList
    ensures Rectangular(Tables(st.headerList, st.rows), t)
    ensures st.TableShaped(t) && st.ColumnSizes(t) == SizesIn(Tables(st.headerList, st.rows), t)
  {
    ColumnSizesAt(st, t);
    SizesAgree(st, t);
  }

  /** The estimates agree column by column. */
  lemma ColumnSizesAt(st: LocalDataStorage, t: string)
    requires st.Valid() && t in st.headerList
    ensures st.TableShaped(t) && Rectangular(Tables(st.headerList, st.rows), t)
    ensures forall n :: n in st.headerList[t] ==> st.ColumnSizes(t)[n] == SizesIn(Tables(st.headerList, st.rows), t)[n]
  {
    st.ShapedTable(t);
    StoredRectangular(st, t);
    forall n | n in st.headerList[t] ensures st.ColumnSizes(t)[n] == SizesIn(Tables(st.headerList, st.rows), t)[n] {
      ColumnSizeAt(st, t, n);
    }
  }

  /** Two estimate maps over the same header that agree column by column are equal. */
  lemma SizesAgree(st: LocalDataStorage, t: string)
    requires st.TableShaped(t) && Rectangular(Tables(st.headerList, st.rows), t)
    requires forall n :: n in st.headerList[t] ==> st.ColumnSizes(t)[n] == SizesIn(Tables(st.headerList, st.rows), t)[n]
    ensures st.ColumnSizes(t) == SizesIn(Tables(st.headerList, st.rows), t)
  {
  }

  /** The estimate of column `n`, from the column object and from the values. */
  lemma ColumnSizeAt(st: LocalDataStorage, t: string, n: string)
    requires st.Valid() && t in st.headerList && n in st.headerList[t]
    requires st.TableShaped(t) && Rectangular(Tables(st.headerList, st.rows), t)
    ensures st.ColumnSizes(t)[n] == SizesIn(Tables(st.headerList, st.rows), t)[n]
  {
    ColumnSizeIn(st, t, n);
    SizesOfAt(st.rows[t], st.headerList[t], st.headerList[t], n);
  }

  /** Every stored row is as long as its table's header. */
  lemma StoredRectangular(st: LocalDataStorage, t: string)
    requires st.Valid() && t in st.headerList
    ensures Rectangular(Tables(st.headerList, st.rows), t)
  {
  }

  lemma ColumnSizeIn(st: LocalDataStorage, t: string, n: string)
    requires st.Valid() && t in st.headerList && n in st.headerList[t]
    ensures st.GetColumn(t, n).MemorySize() == Estimate(ColumnOf(st.rows[t], IndexOf(st.headerList[t], n).value))
  {
    var c := st.GetColumn(t, n);
    st.GetColumnHoldsRows(t, n);
    c.MemoryAccounting();
    EstimateTotals(c.added);
  }

  /** What task generation returns for tables `tableNameA` and `tableNameB`. */
  ghost function PairTasks(tables: Tables, tableNameA: string, tableNameB: string): seq<Task>
    requires Rectangular(tables, tableNameA) && Rectangular(tables, tableNameB)
  {
    GeneratedTasks(tableNameA, tableNameB,
      Groups(tables.headers[tableNameA], SizesIn(tables, tableNameA), Half(MemoryBudget)),
      Groups(tables.headers[tableNameB], SizesIn(tables, tableNameB), Half(MemoryBudget)))
  }

  /** Every generated task names the two tables and only columns of their headers. */
  lemma PairTasksStored(tables: Tables, tableNameA: string, tableNameB: string)
    requires Rectangular(tables, tableNameA) && Rectangular(tables, tableNameB)
    ensures forall t :: t in PairTasks(tables, tableNameA, tableNameB) ==> Stored(tables.headers, t)
  {
    var hA, hB := tables.headers[tableNameA], tables.headers[tableNameB];
    var sA, sB := SizesIn(tables, tableNameA), SizesIn(tables, tableNameB);
    var ga := Groups(hA, sA, Half(MemoryBudget));
    var gb := Groups(hB, sB, Half(MemoryBudget));
    GroupsPartitionHeader(hA, sA, Half(MemoryBudget));
    GroupsPartitionHeader(hB, sB, Half(MemoryBudget));
    GeneratedTasksShape(tableNameA, tableNameB, ga, gb);
    GeneratedTasksDrawFromGroups(tableNameA, tableNameB, ga, gb);
  }

  /** Every column of table A meets every column of table B in some task of the pair. */
  lemma PairTasksCover(tables: Tables, tableNameA: string, tableNameB: string, a: string, b: string)
    requires Rectangular(tables, tableNameA) && Rectangular(tables, tableNameB)
    requires a in tables.headers[tableNameA] && b in tables.headers[tableNameB]
    ensures exists t :: t in PairTasks(tables, tableNameA, tableNameB) && a in t.columnNamesA && b in t.columnNamesB
  {
    var hA, hB := tables.headers[tableNameA], tables.headers[tableNameB];
    var sA, sB := SizesIn(tables, tableNameA), SizesIn(tables, tableNameB);
    GroupsPartitionHeader(hA, sA, Half(MemoryBudget));
    GroupsPartitionHeader(hB, sB, Half(MemoryBudget));
    GeneratedTasksCover(tableNameA, tableNameB, Groups(hA, sA, Half(MemoryBudget)), Groups(hB, sB, Half(MemoryBudget)), a, b);
  }

  /** The tasks of one pair of readers, none where either reader is unknown or its table is not stored. */
  ghost function TasksOfPair(tables: Tables, names: seq<string>, p: (nat, nat)): seq<Task>
  {
    if p.0 < |names| && p.1 < |names| && Rectangular(tables, names[p.0]) && Rectangular(tables, names[p.1])
    then PairTasks(tables, names[p.0], names[p.1]) else []
  }

  /** The tasks of the given reader pairs, in order. */
  ghost function TasksOf(tables: Tables, names: seq<string>, pairs: seq<(nat, nat)>): seq<Task>
  {
    if |pairs| == 0 then []
    else TasksOf(tables, names, pairs[..|pairs| - 1]) + TasksOfPair(tables, names, pairs[|pairs| - 1])
  }

  /**
   * Task generation over the store, with the 60 MiB budget, for the pair
   * of readers (`reader`, `id`), where `tableName` is the table of `reader`:
   * the tasks of that pair, each naming stored columns.
   */
  method GenerateTasks(st: LocalDataStorage, names: seq<string>, tableName: string, ghost reader: nat, id: nat) returns (tasks: seq<Task>)
    requires st.Valid() && reader < |names| && id < |names| && names[reader] == tableName
    requires tableName in st.headerList && names[id] in st.headerList
    ensures tasks == TasksOf(Tables(st.headerList, st.rows), names, [(reader, id)])
    ensures forall t :: t in tasks ==> Stored(st.headerList, t)
  {
    var tables := Tables(st.headerList, st.rows);
    ColumnSizesIn(st, tableName);
    ColumnSizesIn(st, names[id]);
    tasks := TaskGenerator.Run(st, MemoryBudget, tableName, names[id]);
    PairTasksStored(tables, tableName, names[id]);
    TasksOfSnoc(tables, names, [], (reader, id));
  }

  lemma TasksOfSnoc(tables: Tables, names: seq<string>, pairs: seq<(nat, nat)>, p: (nat, nat))
    requires p.0 < |names| && p.1 < |names| && Rectangular(tables, names[p.0]) && Rectangular(tables, names[p.1])
    ensures TasksOf(tables, names, pairs + [p]) == TasksOf(tables, names, pairs) + PairTasks(tables, names[p.0], names[p.1])
  {
    assert (pairs + [p])[..|pairs|] == pairs;
  }

  /** The tasks of two runs of pairs are those of the first run followed by those of the second. */
  lemma TasksOfAppend(tables: Tables, names: seq<string>, a: seq<(nat, nat)>, b: seq<(nat, nat)>)
    ensures TasksOf(tables, names, a + b) == TasksOf(tables, names, a) + TasksOf(tables, names, b)
  {
    var f := p => TasksOfPair(tables, names, p);
    TasksOfFlatMap(tables, names, a + b);
    TasksOfFlatMap(tables, names, a);
    TasksOfFlatMap(tables, names, b);
    FlatMapAppend(f, a, b);
  }

  /** `TasksOf` is the concatenation of the tasks of each pair. */
  lemma {:induction false} TasksOfFlatMap(tables: Tables, names: seq<string>, pairs: seq<(nat, nat)>)
    ensures TasksOf(tables, names, pairs) == FlatMap(p => TasksOfPair(tables, names, p), pairs)
    decreases |pairs|
  {
    if |pairs| > 0 {
      TasksOfFlatMap(tables, names, pairs[..|pairs| - 1]);
    }
  }

  lemma HandedTasksAppend(a: seq<Assignment>, b: seq<Assignment>)
    ensures HandedTasks(a + b) == HandedTasks(a) + HandedTasks(b)
  {
    assert forall k :: 0 <= k < |a| ==> (a + b)[k] == a[k];
    assert forall k :: |a| <= k < |a| + |b| ==> (a + b)[k] == b[k - |a|];
  }

  /** One header request per reader, in reader order. */
  function HeaderRequests(n: nat): (r: seq<Outgoing>)
    ensures |r| == n && forall k :: 0 <= k < n ==> r[k] == ReadHeader(k)
  {
    seq(n, k requires 0 <= k < n => ReadHeader(k))
  }

  /** The pairs enqueued once the last reader of `order` finished: the earlier ones, then those of the last reader. */
  lemma EnqueuedLast(order: seq<nat>, n: nat)
    requires |order| > 0
    ensures Enqueued(order, n) == Enqueued(order[..|order| - 1], n) + PairsUpTo(order[|order| - 1], Marked(order, n), n)
  {
  }

  /** A header added under a new name leaves every stored task stored. */
  lemma StoredAfterNewTable(headers: map<string, seq<string>>, name: string, header: seq<string>, t: Task)
    requires Stored(headers, t) && name !in headers
    ensures Stored(headers[name := header], t)
  {
  }

  // ---------------------------------------------------------------------
  // The coordinator
  // ---------------------------------------------------------------------

  class DependencyMiner {
    /** The names of the input files; reader `id` reads `inputFiles[id]`. */
    const inputFiles: seq<string>
    /** The coordinator's own large-message proxy, through which workers answer. */
    const largeMessageProxy: ActorRef
    const dataStorage: LocalDataStorage
    const finishedReading: array<bool>

    var dependencyWorkers: seq<ActorRef>
    var dependencyWorkerLargeProxies: seq<ActorRef>
    var unassignedTasks: seq<Task>
    var busyWorkers: map<ActorRef, Task>
    /** Everything sent so far, in order. */
    var outbox: seq<Outgoing>

    /** The readers that reported the end of their file, in the order they did. */
    ghost var finishOrder: seq<nat>
    /** The reader pairs turned into tasks so far, in order. */
    ghost var pairs: seq<(nat, nat)>
    /** Every task ever enqueued, and those of them handed to a worker, in order. */
    ghost var generated: seq<Task>
    ghost var handed: seq<Task>

    ghost predicate Frame()
      reads dataStorage
    {
      && finishedReading.Length == |inputFiles|
      && this !in dataStorage.Repr && finishedReading !in dataStorage.Repr
    }

    /** Each worker is listed once, and each has a proxy at its position. */
    ghost predicate Staffed()
      reads this`dependencyWorkers, this`dependencyWorkerLargeProxies
    {
      |dependencyWorkers| <= |dependencyWorkerLargeProxies| && NoDuplicates(dependencyWorkers)
    }

    /** The flags record the finished readers, whose tables are stored. */
    ghost predicate Reading()
      reads this`finishOrder, finishedReading, dataStorage
    {
      && finishedReading[..] == Marked(finishOrder, |inputFiles|)
      && (forall k :: 0 <= k < |finishOrder| ==> finishOrder[k] < |inputFiles| && inputFiles[finishOrder[k]] in dataStorage.headerList)
    }

    /** Queued tasks name stored columns, and every generated task is either handed out or still queued, in order. */
    ghost predicate Queued()
      reads this`unassignedTasks, this`handed, this`generated, dataStorage
    {
      && (forall t :: t in unassignedTasks ==> Stored(dataStorage.headerList, t))
      && handed + unassignedTasks == generated
    }

    /** The invariant that holds between any two steps of a handler. */
    ghost predicate Settled()
      reads this`dependencyWorkers, this`dependencyWorkerLargeProxies, this`finishOrder, this`unassignedTasks, this`handed, this`generated, finishedReading, dataStorage, dataStorage.Repr
    {
      Frame() && dataStorage.Valid() && Staffed() && Reading() && Queued()
    }

    /** What pairing readers relies on: the store, the queue, and that every flagged reader's table is stored. */
    ghost predicate Pairing()
      reads this`unassignedTasks, this`handed, this`generated, finishedReading, dataStorage, dataStorage.Repr
    {
      && Frame() && dataStorage.Valid() && Queued()
      && forall j :: 0 <= j < finishedReading.Length && finishedReading[j] ==> j < |inputFiles| && inputFiles[j] in dataStorage.headerList
    }

    lemma SettledPairing()
      requires Settled()
      ensures Pairing()
    {
      forall j | 0 <= j < finishedReading.Length && finishedReading[j]
        ensures j < |inputFiles| && inputFiles[j] in dataStorage.headerList
      {
        assert finishedReading[..][j];
        var k :| 0 <= k < |finishOrder| && finishOrder[k] == j;
      }
    }

    /** Between messages, moreover, every pair the finished readers formed has been enqueued. */
    ghost predicate Valid()
      reads this`dependencyWorkers, this`dependencyWorkerLargeProxies, this`finishOrder, this`unassignedTasks, this`handed, this`generated, this`pairs, finishedReading, dataStorage, dataStorage.Repr
    {
      Settled() && pairs == Enqueued(finishOrder, |inputFiles|)
    }

    constructor (inputFiles: seq<string>, largeMessageProxy: ActorRef)
      ensures Valid() && fresh(dataStorage) && fresh(finishedReading)
      ensures this.inputFiles == inputFiles && this.largeMessageProxy == largeMessageProxy
      ensures dataStorage.headerList == map[] && finishedReading[..] == Marked([], |inputFiles|)
      ensures dependencyWorkers == [] && dependencyWorkerLargeProxies == []
      ensures unassignedTasks == [] && busyWorkers == map[] && outbox == []
    {
      this.inputFiles := inputFiles;
      this.largeMessageProxy := largeMessageProxy;
      dataStorage := new LocalDataStorage();
      finishedReading := new bool[|inputFiles|](_ => false);
      dependencyWorkers, dependencyWorkerLargeProxies := [], [];
      unassignedTasks, busyWorkers, outbox := [], map[], [];
      finishOrder, pairs, generated, handed := [], [], [], [];
    }

    /** Start: every reader is asked for its header. */
    method HandleStart()
      modifies this`outbox
      ensures outbox == old(outbox) + HeaderRequests(|inputFiles|)
    {
      for id := 0 to |inputFiles|
        invariant outbox == old(outbox) + HeaderRequests(id)
      {
        outbox := outbox + [ReadHeader(id)];
      }
    }

    /**
     * A header: the table is stored under the reader's file name, with no
     * rows yet, and the reader is asked for its first batch.
     */
    method HandleHeader(id: nat, header: seq<string>)
      requires Valid()
      requires id < |inputFiles| && inputFiles[id] !in dataStorage.headerList
      modifies this`outbox, dataStorage
      ensures Valid()
      ensures dataStorage.headerList == old(dataStorage.headerList)[inputFiles[id] := header]
      ensures dataStorage.rows == old(dataStorage.rows)[inputFiles[id] := []]
      ensures outbox == old(outbox) + [ReadBatch(id)]
    {
      var tableName := inputFiles[id];
      ghost var headers := dataStorage.headerList;
      dataStorage.AddTable(tableName, header);
      outbox := outbox + [ReadBatch(id)];
      forall t | t in unassignedTasks ensures Stored(dataStorage.headerList, t) {
        StoredAfterNewTable(headers, tableName, header, t);
      }
    }

    /**
     * Hands the head of the queue to `worker`: the task and the distinct
     * values of its columns go to `workerProxy`, and the worker is busy with
     * the task.
     */
    method AssignTask(worker: ActorRef, workerProxy: ActorRef) returns (ghost sent: Outgoing)
      requires Settled() && |unassignedTasks| > 0
      modifies this`unassignedTasks, this`busyWorkers, this`outbox, this`handed
      ensures Settled()
      ensures unassignedTasks == old(unassignedTasks)[1..]
      ensures busyWorkers == old(busyWorkers)[worker := old(unassignedTasks)[0]]
      ensures handed == old(handed) + [old(unassignedTasks)[0]]
      ensures outbox == old(outbox) + [sent]
      ensures SentFor(Tables(dataStorage.headerList, dataStorage.rows), largeMessageProxy, sent, workerProxy, old(unassignedTasks)[0])
    {
      var task := unassignedTasks[0];
      assert Stored(dataStorage.headerList, task);
      var message := BuildTaskMessage(dataStorage, largeMessageProxy, task, workerProxy);
      unassignedTasks, busyWorkers, outbox, handed := unassignedTasks[1..], busyWorkers[worker := task], outbox + [message], handed + [task];
      sent := message;
      assert handed + unassignedTasks == old(handed) + old(unassignedTasks);
    }

    /**
     * Walks the workers in list order while tasks are queued, handing the
     * head of the queue to each idle one.
     */
    method DelegateTasks()
      requires Settled()
      modifies this`unassignedTasks, this`busyWorkers, this`outbox, this`handed
      ensures Settled()
      ensures var d := Delegate(dependencyWorkers, dependencyWorkerLargeProxies, old(unassignedTasks), old(busyWorkers));
        && unassignedTasks == d.queue && busyWorkers == d.busy
        && handed == old(handed) + HandedTasks(d.handed)
        && Dispatched(Tables(dataStorage.headerList, dataStorage.rows), largeMessageProxy, old(outbox), outbox, d.handed)
    {
      ghost var workers, proxies, queue, busy := dependencyWorkers, dependencyWorkerLargeProxies, unassignedTasks, busyWorkers;
      ghost var tables, outbox0, handed0 := Tables(dataStorage.headerList, dataStorage.rows), outbox, handed;
      ghost var assignments: seq<Assignment> := [];
      var workerIdx := 0;
      while workerIdx < |dependencyWorkers|
        invariant workerIdx <= |dependencyWorkers| && Settled()
        invariant dependencyWorkers == workers && dependencyWorkerLargeProxies == proxies
        invariant DelegateUpTo(workers, proxies, queue, busy, workerIdx) == Board(unassignedTasks, busyWorkers, assignments)
        invariant handed == handed0 + HandedTasks(assignments)
        invariant Tables(dataStorage.headerList, dataStorage.rows) == tables
        invariant Dispatched(tables, largeMessageProxy, outbox0, outbox, assignments)
      {
        if |unassignedTasks| == 0 {
          DelegateIdle(workers, proxies, queue, busy, workerIdx, |workers|);
          break;
        }
        var worker := dependencyWorkers[workerIdx];
        var workerProxy := dependencyWorkerLargeProxies[workerIdx];
        if worker in busyWorkers {
          workerIdx := workerIdx + 1;
          continue;
        }
        ghost var before := outbox;
        ghost var a := Assignment(workerIdx, worker, workerProxy, unassignedTasks[0]);
        ghost var sent := AssignTask(worker, workerProxy);
        DispatchedSnoc(tables, largeMessageProxy, outbox0, before, assignments, sent, a);
        HandedTasksAppend(assignments, [a]);
        assignments := assignments + [a];
        workerIdx := workerIdx + 1;
      }
    }

    /**
     * A batch from reader `id`. An empty batch marks the end of its file:
     * the reader is flagged as finished, its table is paired with every
     * finished table (itself included) in reader order, and the queue is
     * delegated. Otherwise the rows are stored and the reader is asked for
     * the next batch.
     */
    method HandleBatch(id: nat, rows: seq<seq<string>>)
      requires Valid() && id < |inputFiles| && inputFiles[id] in dataStorage.headerList
      requires forall k :: 0 <= k < |rows| ==> |rows[k]| == |dataStorage.headerList[inputFiles[id]]|
      modifies this`finishOrder, this`pairs, this`unassignedTasks, this`generated, this`busyWorkers, this`outbox, this`handed
      modifies finishedReading, dataStorage.Repr
      ensures Valid()
      ensures |rows| == 0 ==>
        var tables := Tables(dataStorage.headerList, dataStorage.rows);
        var formed := PairsUpTo(id, finishedReading[..], |inputFiles|);
        var d := Delegate(dependencyWorkers, dependencyWorkerLargeProxies, old(unassignedTasks) + TasksOf(tables, inputFiles, formed), old(busyWorkers));
        && finishedReading[..] == old(finishedReading[..])[id := true]
        && finishOrder == old(finishOrder) + [id]
        && dataStorage.headerList == old(dataStorage.headerList) && dataStorage.rows == old(dataStorage.rows)
        && generated == old(generated) + TasksOf(tables, inputFiles, formed)
        && unassignedTasks == d.queue && busyWorkers == d.busy
        && Dispatched(tables, largeMessageProxy, old(outbox), outbox, d.handed)
      ensures |rows| > 0 ==>
        && finishedReading[..] == old(finishedReading[..]) && finishOrder == old(finishOrder)
        && dataStorage.headerList == old(dataStorage.headerList)
        && dataStorage.rows == old(dataStorage.rows)[inputFiles[id] := old(dataStorage.rows[inputFiles[id]]) + rows]
        && unassignedTasks == old(unassignedTasks) && busyWorkers == old(busyWorkers) && generated == old(generated)
        && outbox == old(outbox) + [ReadBatch(id)]
    {
      if |rows| == 0 {
        FinishReading(id);
      } else {
        StoreBatch(id, rows);
      }
    }

    /** The rows of a non-empty batch go into the reader's table, and the reader is asked for the next batch. */
    method StoreBatch(id: nat, rows: seq<seq<string>>)
      requires Valid() && id < |inputFiles| && inputFiles[id] in dataStorage.headerList
      requires forall k :: 0 <= k < |rows| ==> |rows[k]| == |dataStorage.headerList[inputFiles[id]]|
      modifies this`outbox, dataStorage.Repr
      ensures Valid()
      ensures dataStorage.headerList == old(dataStorage.headerList)
      ensures dataStorage.rows == old(dataStorage.rows)[inputFiles[id] := old(dataStorage.rows[inputFiles[id]]) + rows]
      ensures outbox == old(outbox) + [ReadBatch(id)]
    {
      var tableName := inputFiles[id];
      dataStorage.AddRows(tableName, rows);
      outbox := outbox + [ReadBatch(id)];
    }

    /**
     * The end of reader `id`'s file: the flag is set, the table is paired
     * with every finished table in reader order, and the queue is delegated.
     */
    method FinishReading(id: nat)
      requires Valid() && id < |inputFiles| && inputFiles[id] in dataStorage.headerList
      modifies this`finishOrder, this`pairs, this`unassignedTasks, this`generated, this`busyWorkers, this`outbox, this`handed
      modifies finishedReading
      ensures Valid()
      ensures
        var tables := Tables(dataStorage.headerList, dataStorage.rows);
        var formed := PairsUpTo(id, finishedReading[..], |inputFiles|);
        var d := Delegate(dependencyWorkers, dependencyWorkerLargeProxies, old(unassignedTasks) + TasksOf(tables, inputFiles, formed), old(busyWorkers));
        && finishedReading[..] == old(finishedReading[..])[id := true]
        && finishOrder == old(finishOrder) + [id]
        && generated == old(generated) + TasksOf(tables, inputFiles, formed)
        && unassignedTasks == d.queue && busyWorkers == d.busy
        && Dispatched(tables, largeMessageProxy, old(outbox), outbox, d.handed)
    {
      RecordFinished(id);
      DelegateTasks();
    }

    /** The bookkeeping of a finished reader before the queue is delegated. */
    method RecordFinished(id: nat)
      requires Valid() && id < |inputFiles| && inputFiles[id] in dataStorage.headerList
      modifies this`finishOrder, this`pairs, this`unassignedTasks, this`generated
      modifies finishedReading
      ensures Valid()
      ensures
        var tables := Tables(dataStorage.headerList, dataStorage.rows);
        var formed := PairsUpTo(id, finishedReading[..], |inputFiles|);
        && finishedReading[..] == old(finishedReading[..])[id := true]
        && finishOrder == old(finishOrder) + [id]
        && unassignedTasks == old(unassignedTasks) + TasksOf(tables, inputFiles, formed)
        && generated == old(generated) + TasksOf(tables, inputFiles, formed)
    {
      MarkFinished(id);
      CreateTasksWithFinished(id);
    }

    /** Sets the flag of reader `id` and records it as the latest to finish. */
    method MarkFinished(id: nat)
      requires Valid() && id < |inputFiles| && inputFiles[id] in dataStorage.headerList
      modifies this`finishOrder, finishedReading
      ensures Settled()
      ensures finishedReading[..] == old(finishedReading[..])[id := true]
      ensures finishOrder == old(finishOrder) + [id]
      ensures pairs == Enqueued(old(finishOrder), |inputFiles|)
    {
      finishedReading[id] := true;
      finishOrder := finishOrder + [id];
    }

    /** The loop over all readers that pairs the table of reader `id` with every finished one. */
    method CreateTasksWithFinished(id: nat)
      requires Settled() && id < |inputFiles| && inputFiles[id] in dataStorage.headerList
      requires |finishOrder| > 0 && finishOrder[|finishOrder| - 1] == id
      requires pairs == Enqueued(finishOrder[..|finishOrder| - 1], |inputFiles|)
      modifies this`unassignedTasks, this`generated, this`pairs
      ensures Valid()
      ensures
        var tables := Tables(dataStorage.headerList, dataStorage.rows);
        var formed := PairsUpTo(id, finishedReading[..], |inputFiles|);
        && unassignedTasks == old(unassignedTasks) + TasksOf(tables, inputFiles, formed)
        && generated == old(generated) + TasksOf(tables, inputFiles, formed)
    {
      SettledPairing();
      PairWithFinished(id);
      EnqueuedLast(finishOrder, |inputFiles|);
    }

    /** Pairs the table of reader `id` with every flagged reader, in reader order. */
    method PairWithFinished(id: nat)
      requires Pairing() && id < |inputFiles| && inputFiles[id] in dataStorage.headerList
      modifies this`unassignedTasks, this`generated, this`pairs
      ensures Pairing()
      ensures
        var tables := Tables(dataStorage.headerList, dataStorage.rows);
        var formed := PairsUpTo(id, finishedReading[..], |inputFiles|);
        && pairs == old(pairs) + formed
        && unassignedTasks == old(unassignedTasks) + TasksOf(tables, inputFiles, formed)
        && generated == old(generated) + TasksOf(tables, inputFiles, formed)
    {
      var tableName := inputFiles[id];
      ghost var tables, finished := Tables(dataStorage.headerList, dataStorage.rows), finishedReading[..];
      ghost var none := PairsUpTo(id, finished, 0);
      assert none == [] && TasksOf(tables, inputFiles, none) == [];
      AppendNil(pairs, none);
      AppendNil(unassignedTasks, TasksOf(tables, inputFiles, none));
      AppendNil(generated, TasksOf(tables, inputFiles, none));
      for j := 0 to |inputFiles|
        invariant Queued()
        invariant tables == Tables(dataStorage.headerList, dataStorage.rows) && finished == finishedReading[..]
        invariant
          var formed := PairsUpTo(id, finished, j);
          && pairs == old(pairs) + formed
          && unassignedTasks == old(unassignedTasks) + TasksOf(tables, inputFiles, formed)
          && generated == old(generated) + TasksOf(tables, inputFiles, formed)
      {
        PairStep(tableName, id, j, tables, finished, old(pairs), old(unassignedTasks), old(generated));
      }
    }

    /** One turn of that loop: the pair (`id`, `j`) joins when reader `j` has finished. */
    method PairStep(tableName: string, id: nat, j: nat, ghost tables: Tables, ghost finished: seq<bool>,
                    ghost pairs0: seq<(nat, nat)>, ghost queue0: seq<Task>, ghost generated0: seq<Task>)
      requires Pairing() && id < |inputFiles| && j < |inputFiles| && inputFiles[id] == tableName && tableName in dataStorage.headerList
      requires tables == Tables(dataStorage.headerList, dataStorage.rows) && finished == finishedReading[..]
      requires
        var formed := PairsUpTo(id, finished, j);
        && pairs == pairs0 + formed
        && unassignedTasks == queue0 + TasksOf(tables, inputFiles, formed)
        && generated == generated0 + TasksOf(tables, inputFiles, formed)
      modifies this`unassignedTasks, this`generated, this`pairs
      ensures Pairing()
      ensures
        var formed := PairsUpTo(id, finished, j + 1);
        && pairs == pairs0 + formed
        && unassignedTasks == queue0 + TasksOf(tables, inputFiles, formed)
        && generated == generated0 + TasksOf(tables, inputFiles, formed)
    {
      ghost var formed := if finished[j] then [(id, j)] else [];
      ghost var before := PairsUpTo(id, finished, j);
      assert PairsUpTo(id, finished, j + 1) == before + formed;
      TasksOfAppend(tables, inputFiles, before, formed);
      CheckAndOptionallyCreateTasks(tableName, j, id);
      AppendAssociative(pairs0, before, formed);
      AppendAssociative(queue0, TasksOf(tables, inputFiles, before), TasksOf(tables, inputFiles, formed));
      AppendAssociative(generated0, TasksOf(tables, inputFiles, before), TasksOf(tables, inputFiles, formed));
    }

    /**
     * If reader `id` has finished, the tasks of the table pair (`tableName`,
     * the table of reader `id`) join the queue; `reader` is the reader whose
     * table is `tableName`.
     */
    method CheckAndOptionallyCreateTasks(tableName: string, id: nat, ghost reader: nat)
      requires Pairing() && id < |inputFiles| && reader < |inputFiles| && inputFiles[reader] == tableName
      requires tableName in dataStorage.headerList
      modifies this`unassignedTasks, this`generated, this`pairs
      ensures Pairing()
      ensures var tables := Tables(dataStorage.headerList, dataStorage.rows);
        var formed := if finishedReading[id] then [(reader, id)] else [];
        && pairs == old(pairs) + formed
        && unassignedTasks == old(unassignedTasks) + TasksOf(tables, inputFiles, formed)
        && generated == old(generated) + TasksOf(tables, inputFiles, formed)
    {
      if finishedReading[id] {
        var tasks := GenerateTasks(dataStorage, inputFiles, tableName, reader, id);
        Enqueue(tasks, (reader, id));
      }
    }

    /** The tasks of one reader pair join the end of the queue. */
    method Enqueue(tasks: seq<Task>, ghost pair: (nat, nat))
      requires Pairing() && forall t :: t in tasks ==> Stored(dataStorage.headerList, t)
      modifies this`unassignedTasks, this`generated, this`pairs
      ensures Pairing()
      ensures unassignedTasks == old(unassignedTasks) + tasks && generated == old(generated) + tasks
      ensures pairs == old(pairs) + [pair]
    {
      unassignedTasks, generated, pairs := unassignedTasks + tasks, generated + tasks, pairs + [pair];
    }

    /**
     * A worker registers, with its large-message proxy. A worker seen
     * before is ignored; a new one is appended, its proxy at the same
     * position, and the queue is delegated.
     */
    method HandleRegistration(worker: ActorRef, workerProxy: ActorRef)
      requires Valid()
      modifies this`dependencyWorkers, this`dependencyWorkerLargeProxies
      modifies this`unassignedTasks, this`busyWorkers, this`outbox, this`handed
      ensures Valid()
      ensures old(worker in dependencyWorkers) ==>
        && dependencyWorkers == old(dependencyWorkers) && dependencyWorkerLargeProxies == old(dependencyWorkerLargeProxies)
        && unassignedTasks == old(unassignedTasks) && busyWorkers == old(busyWorkers)
        && handed == old(handed) && outbox == old(outbox)
      ensures old(worker !in dependencyWorkers) ==>
        var d := Delegate(dependencyWorkers, dependencyWorkerLargeProxies, old(unassignedTasks), old(busyWorkers));
        && dependencyWorkers == old(dependencyWorkers) + [worker]
        && dependencyWorkerLargeProxies == old(dependencyWorkerLargeProxies) + [workerProxy]
        && unassignedTasks == d.queue && busyWorkers == d.busy
        && handed == old(handed) + HandedTasks(d.handed)
        && Dispatched(Tables(dataStorage.headerList, dataStorage.rows), largeMessageProxy, old(outbox), outbox, d.handed)
    {
      if worker !in dependencyWorkers {
        ghost var workers := dependencyWorkers;
        dependencyWorkers := dependencyWorkers + [worker];
        dependencyWorkerLargeProxies := dependencyWorkerLargeProxies + [workerProxy];
        assert NoDuplicates(dependencyWorkers) by {
          forall i, j | 0 <= i < j < |dependencyWorkers| ensures dependencyWorkers[i] != dependencyWorkers[j] {
            if j < |workers| {
              assert dependencyWorkers[i] == workers[i] && dependencyWorkers[j] == workers[j];
            } else {
              assert dependencyWorkers[i] in workers;
            }
          }
        }
        DelegateTasks();
      }
    }

    /** True exactly when every reader has reported the end of its file. */
    method AllReadersFinished() returns (finishedAll: bool)
      ensures finishedAll <==> forall j :: 0 <= j < finishedReading.Length ==> finishedReading[j]
    {
      finishedAll := true;
      var j := 0;
      while j < finishedReading.Length
        invariant 0 <= j <= finishedReading.Length
        invariant finishedAll <==> forall k :: 0 <= k < j ==> finishedReading[k]
      {
        if !finishedReading[j] {
          finishedAll := false;
          break;
        }
        j := j + 1;
      }
    }

    /**
     * A worker's results. Non-empty results are forwarded, the worker
     * becomes idle, the queue is delegated, and the final message follows
     * once every reader has finished, nothing is queued and no worker is
     * busy. `delegated` is the outbox after delegation.
     */
    method HandleCompletion(worker: ActorRef, inds: seq<InclusionDependency>) returns (ghost delegated: seq<Outgoing>)
      requires Valid()
      modifies this`unassignedTasks, this`busyWorkers, this`outbox, this`handed
      ensures Valid()
      ensures var d := Delegate(dependencyWorkers, dependencyWorkerLargeProxies, old(unassignedTasks), old(busyWorkers) - {worker});
        && unassignedTasks == d.queue && busyWorkers == d.busy
        && handed == old(handed) + HandedTasks(d.handed)
        && Dispatched(Tables(dataStorage.headerList, dataStorage.rows), largeMessageProxy,
                      old(outbox) + (if |inds| == 0 then [] else [Results(inds)]), delegated, d.handed)
      ensures var finishing := (forall j :: 0 <= j < |inputFiles| ==> j in finishOrder) && unassignedTasks == [] && busyWorkers == map[];
        outbox == delegated + (if finishing then [Finalize] else [])
      ensures outbox == delegated + [Finalize] ==> handed == generated && forall j :: 0 <= j < |inputFiles| ==> j in finishOrder
    {
      ReleaseWorker(worker, inds);
      DelegateTasks();
      delegated := outbox;
      EndIfDone();
    }

    /** Forwards non-empty results and marks the worker idle. */
    method ReleaseWorker(worker: ActorRef, inds: seq<InclusionDependency>)
      modifies this`busyWorkers, this`outbox
      ensures busyWorkers == old(busyWorkers) - {worker}
      ensures outbox == old(outbox) + (if |inds| == 0 then [] else [Results(inds)])
    {
      if |inds| > 0 {
        outbox := outbox + [Results(inds)];
      }
      busyWorkers := busyWorkers - {worker};
    }

    /**
     * Sends the final message when every reader has finished, nothing is
     * queued and no worker is busy; by then every generated task has been
     * handed out.
     */
    method EndIfDone()
      requires Valid()
      modifies this`outbox
      ensures var finishing := (forall j :: 0 <= j < |inputFiles| ==> j in finishOrder) && unassignedTasks == [] && busyWorkers == map[];
        outbox == old(outbox) + (if finishing then [Finalize] else [])
      ensures outbox == old(outbox) + [Finalize] ==> handed == generated && forall j :: 0 <= j < |inputFiles| ==> j in finishOrder
    {
      var finishedAll := AllReadersFinished();
      assert finishedAll <==> forall j :: 0 <= j < |inputFiles| ==> j in finishOrder by {
        assert finishedReading[..] == Marked(finishOrder, |inputFiles|);
        assert forall j :: 0 <= j < |inputFiles| ==> finishedReading[j] == finishedReading[..][j];
      }
      if finishedAll && |unassignedTasks| == 0 && |busyWorkers| == 0 {
        outbox := outbox + [Finalize];
        assert handed + unassignedTasks == generated;
      }
    }

    /**
     * A watched worker terminated: it leaves the worker list. Its proxy
     * stays in the proxy list and its task, if it had one, stays in the
     * busy map; neither is re-queued.
     */
    method HandleTerminated(worker: ActorRef)
      requires Valid()
      modifies this`dependencyWorkers
      ensures Valid()
      ensures dependencyWorkers == RemoveFirst(old(dependencyWorkers), worker)
      ensures worker !in dependencyWorkers
    {
      RemoveFirstKeepsDistinct(dependencyWorkers, worker);
      dependencyWorkers := RemoveFirst(dependencyWorkers, worker);
    }
  }
}
