# Unary inclusion-dependency discovery, modelled in Dafny

The system finds unary inclusion dependencies (INDs) across a set of CSV
tables. A dependency `A.x ⊆ B.y` holds when every value of column `x` of
table `A` also occurs in column `y` of table `B`. One coordinator, the
`DependencyMiner`, works as follows:

- It asks one reader per input file for the file's header and then its rows, batch by batch.
- It stores the rows column by column in a `LocalDataStorage` of dictionary-encoded `Column`s.
- When a reader reports the end of its file, the coordinator pairs that table with every table already read, itself included.
- For each pair, `TaskGenerator` cuts the two headers into column groups that each stay within half a memory budget or hold a single column (as long as a group's running total stays below 2³¹; see "## Left out"), and each combination of groups becomes a `Task`.
- Tasks are queued. An idle `DependencyWorker` receives a task together with the distinct values of the task's columns.
- The worker compares the value sets pairwise and answers with the INDs it found.
- The coordinator forwards the INDs to the result collector and sends the final message once everything is read, handed out and answered.

The Dafny project has one module per core source file:

| module | file | models |
|---|---|---|
| `Tasks` | `task.dfy` | the task record |
| `InclusionDependencies` | `inclusion_dependency.dfy` | the IND record and its one-line rendering |
| `Columns` | `column.dfy` | a column of one table. Each distinct value is stored once, keyed by its Java `String.hashCode`, and every row holds a position into that dictionary. The model includes a running memory estimate. |
| `Storage` | `local_data_storage.dfy` | the table store: headers and column objects by table name |
| `Partitioning` | `partitioning.dfy` | the greedy walk that cuts a header into groups within half the budget (over unbounded running totals), as a pure specification |
| `TaskGeneration` | `task_generator.dfy` | the generator object. Its list objects are shared between tasks, so they are modelled as handles into an arena. |
| `DependencyWorker` | `dependency_worker.dfy` | the worker's scan over two maps of distinct values |
| `DependencyMining` | `dependency_miner.dfy` | the coordinator object and its message handlers |
| `Lists` | `lists.dfy` | list helpers: `indexOf`, `remove`, flattening |
| `Wrappers` | `wrappers.dfy` | `Option` |

Messages the coordinator sends are appended to an output log (`outbox`), in
order. Received messages become calls of the handler methods. Each handler
runs to completion, as an actor's handler does.

## Model

| member | source | states |
|---|---|---|
| Columns.HashCodeClosedForm | src/main/java/de/ddm/structures/Column.java:24 | The hash code the dictionary is keyed by is Java's documented `String.hashCode`: the sum of `s[i]·31^(n-1-i)` over the characters, reduced to a signed 32-bit int. |
| Columns.HashCollision | src/main/java/de/ddm/structures/Column.java:24 | Two different values ("Aa" and "BB") share a hash code, so a dictionary keyed by hash code cannot tell them apart. |
| Columns.DictionaryHashes | src/main/java/de/ddm/structures/Column.java:24-28 | The dictionary holds one entry per distinct hash code of the added values, and no two entries share a hash code. |
| Columns.DictionaryFirstSeen | src/main/java/de/ddm/structures/Column.java:24-28 | Every dictionary entry is an added value. It is the first added value with its hash code. |
| Columns.AddKnownHash | src/main/java/de/ddm/structures/Column.java:23-31 | Adding a value whose hash code is already known keeps the encoding invariant: the dictionary is unchanged, and the new row points at the entry stored under that hash code. |
| Columns.AddNewHash | src/main/java/de/ddm/structures/Column.java:23-31 | Adding a value with a new hash code keeps the encoding invariant: the value becomes the last dictionary entry, and the new row points at it. |
| Columns.Column.constructor | src/main/java/de/ddm/structures/Column.java:15-21 | A new column has no rows, an empty dictionary and a memory estimate of 0. |
| Columns.Column.Add | src/main/java/de/ddm/structures/Column.java:23-31 | Records the value as the next row. For a known hash code the dictionary is unchanged and the estimate grows by 4. For a new one the value joins the dictionary and the estimate grows by 4 plus 2 per character. Decoding stays valid. |
| Columns.Column.Stream | src/main/java/de/ddm/structures/Column.java:33-36 | Yields, row by row, the dictionary entry of that row's hash code, so a colliding value reads back as the first value seen with its hash code. |
| Columns.DecodedWhenHashInjective | src/main/java/de/ddm/structures/Column.java:33-36 | When the added values have no hash collision, the column reads back exactly the values added, in order. |
| Columns.CollisionReadsBackFirstValue | src/main/java/de/ddm/structures/Column.java:33-36 | After adding "Aa" then "BB", the column reads back "Aa" twice. |
| Columns.Column.Size | src/main/java/de/ddm/structures/Column.java:38-40 | The size is the number of values added. |
| Columns.Column.MemoryAccounting | src/main/java/de/ddm/structures/Column.java:21-44 | The estimate equals 4 bytes per row plus 2 per character of every dictionary entry, so it is at least 4 times the size. |
| Columns.Column.DistinctValues | src/main/java/de/ddm/structures/Column.java:46-48 | A value is reported exactly when it is a dictionary entry, and only added values are reported. |
| Columns.DictionaryCompleteWhenHashInjective | src/main/java/de/ddm/structures/Column.java:46-48 | Without hash collisions the distinct values are exactly the set of added values. |
| Storage.LocalDataStorage.constructor | src/main/java/de/ddm/structures/LocalDataStorage.java:7-10 | A new store holds no tables. |
| Storage.NewColumns | src/main/java/de/ddm/structures/LocalDataStorage.java:15-17 | Yields one fresh, empty, valid column per header entry, all distinct objects. |
| Storage.LocalDataStorage.AddTable | src/main/java/de/ddm/structures/LocalDataStorage.java:12-19 | Registers or overwrites the table: its header is stored, it gets one fresh empty column per header entry and no rows, and no other table changes. |
| Storage.LocalDataStorage.GetTableNames | src/main/java/de/ddm/structures/LocalDataStorage.java:21-27 | Yields each registered table name exactly once, and nothing else. |
| Storage.LocalDataStorage.GetHeader | src/main/java/de/ddm/structures/LocalDataStorage.java:29-31 | Yields the stored header when the table is registered, and None, Java's null, when it is not. |
| Storage.AppendToColumns | src/main/java/de/ddm/structures/LocalDataStorage.java:38-40 | Appends the i-th value to the i-th column and changes no other object. |
| Storage.LocalDataStorage.AddRow | src/main/java/de/ddm/structures/LocalDataStorage.java:33-41 | The row is appended to the table's rows, every column keeps holding its position's value of every row, and no other table changes. |
| Storage.LocalDataStorage.AddRows | src/main/java/de/ddm/structures/LocalDataStorage.java:43-53 | The rows are appended in order, with the same effect as adding each row in turn. |
| Storage.LocalDataStorage.GetColumn | src/main/java/de/ddm/structures/LocalDataStorage.java:55-58 | Returns the column object at the first position of the column name in the table's header. |
| Storage.LocalDataStorage.GetColumnHoldsRows | src/main/java/de/ddm/structures/LocalDataStorage.java:55-58 | That column holds, in row order, that position's value of every row appended to the table. |
| Storage.LocalDataStorage.ColumnsHaveEqualSize | src/main/java/de/ddm/structures/LocalDataStorage.java:33-53 | Every column of a table has one entry per appended row. |
| Lists.IndexOf | src/main/java/de/ddm/structures/LocalDataStorage.java:56 | Returns the first position holding the element, or None when the element is absent. |
| Lists.RemoveFirst | src/main/java/de/ddm/actors/profiling/DependencyMiner.java:291 | A present element loses its first occurrence, and the elements before and after it keep their order. An absent element leaves the list unchanged. |
| Lists.RemoveFirstKeepsDistinct | src/main/java/de/ddm/actors/profiling/DependencyMiner.java:289-293 | Removing from a list without duplicates leaves one without duplicates that no longer holds the element. |
| Partitioning.Half | src/main/java/de/ddm/structures/TaskGenerator.java:67-69 | Half the budget, rounded toward zero as Java's int division does, for negative budgets too. |
| Partitioning.GreedyWalkInvariant | src/main/java/de/ddm/structures/TaskGenerator.java:33-69 | The walk over a header keeps its invariant: the groups concatenate to the header prefix walked, closed groups are nonempty, the running total is the open group's size, and every group is greedy in the sense below. |
| Partitioning.GroupsPartitionHeader | src/main/java/de/ddm/structures/TaskGenerator.java:33-65 | The groups concatenate to the header, in order. An empty header gives a single empty group, and a nonempty header gives only nonempty groups. |
| Partitioning.GroupsAreGreedy | src/main/java/de/ddm/structures/TaskGenerator.java:33-69 | A column joins its group only while the group's total is zero or stays within half the budget, and a group is closed only when the next column would push its nonzero total beyond half the budget. |
| Partitioning.GroupsWithinHalf | src/main/java/de/ddm/structures/TaskGenerator.java:33-69 | When every column size is positive, each group is a single column or totals at most half the budget. |
| TaskGeneration.TaskGenerator.constructor | src/main/java/de/ddm/structures/TaskGenerator.java:18-25 | Starts with one empty list per side, no tasks, and the column estimates the store reports for both tables. |
| TaskGeneration.TaskGenerator.GenerateTask | src/main/java/de/ddm/structures/TaskGenerator.java:27-31 | Adds one task that refers to the current A and B lists themselves, not to copies of them. |
| TaskGeneration.TaskGenerator.TakeColumnB | src/main/java/de/ddm/structures/TaskGenerator.java:35-45 | One column of the B walk: it closes the group (task, then new list) or joins it, as the greedy walk does. |
| TaskGeneration.TaskGenerator.RunTableBGeneration | src/main/java/de/ddm/structures/TaskGenerator.java:33-48 | One pass over table B against the current A list. The pass adds one task per B group, leaves a fresh B list open, and the last task of the pass keeps the list carried into the next pass. |
| TaskGeneration.TaskGenerator.TakeColumnA | src/main/java/de/ddm/structures/TaskGenerator.java:52-63 | One column of the A walk joins the current A list, or first runs a B pass and opens a new A list when the group closes. |
| TaskGeneration.TaskGenerator.WalkTableA | src/main/java/de/ddm/structures/TaskGenerator.java:52-63 | After the whole A header, the arena holds one B pass per closed A group and the last A group open. |
| TaskGeneration.TaskGenerator.RunTableAGeneration | src/main/java/de/ddm/structures/TaskGenerator.java:50-65 | The arena equals the greedy A groups, each followed by a full B pass. |
| TaskGeneration.TaskGenerator.Run | src/main/java/de/ddm/structures/TaskGenerator.java:71-75 | The tasks returned are the closed form `GeneratedTasks` of the greedy groups of both headers over the store's column estimates and half the budget. |
| TaskGeneration.RunArenaResolves | src/main/java/de/ddm/structures/TaskGenerator.java:27-75 | Resolving the shared lists at the end gives the closed form `GeneratedTasks`. |
| TaskGeneration.GeneratedTasksShape | src/main/java/de/ddm/structures/TaskGenerator.java:27-75 | There are exactly as many tasks as A groups times B groups, so at least one even for empty headers. Every task names table A and table B. |
| TaskGeneration.GeneratedTasksDrawFromGroups | src/main/java/de/ddm/structures/TaskGenerator.java:27-75 | Every column a task names on side A lies in an A group, and on side B in a B group. |
| TaskGeneration.GeneratedTasksCover | src/main/java/de/ddm/structures/TaskGenerator.java:27-75 | Conversely, every column of an A group meets every column of a B group in some task, for any number of groups on either side. |
| TaskGeneration.SingleAGroupCoversB | src/main/java/de/ddm/structures/TaskGenerator.java:33-48 | With one A group there is no carried list: task j is exactly the A group against B group j. |
| TaskGeneration.CarriedListRepeatsFirstGroup | src/main/java/de/ddm/structures/TaskGenerator.java:33-65 | With two or more groups on each side, the first task holds the first B group. The last task of the first pass and the first task of the second pass both hold the last B group followed by the first B group, which the first task already covers. |
| TaskGeneration.FirstTwoPasses | src/main/java/de/ddm/structures/TaskGenerator.java:50-65 | Spells out the tasks of the first two passes, which shows the list carried from one pass into the next. |
| TaskGeneration.SingleBGroupRepeats | src/main/java/de/ddm/structures/TaskGenerator.java:33-48 | With one B group, every task holds the B header repeated once per A group, because all tasks share one list. |
| TaskGeneration.DuplicateCoverageExample | src/main/java/de/ddm/structures/TaskGenerator.java:33-65 | For two one-column groups per side, the four generated tasks are spelled out. Column b1 meets a1 twice, once alone and once through the carried list. |
| InclusionDependencies.InclusionDependency.ToString | src/main/java/de/ddm/structures/InclusionDependency.java:20-24 | The rendering starts with the dependent table, ends with the referenced column, and is 8 characters longer than the four names together. |
| InclusionDependencies.RenderParseRoundTrip | src/main/java/de/ddm/structures/InclusionDependency.java:20-24 | When the names hold no separator character, parsing the rendered line gives back the dependency. |
| InclusionDependencies.RenderingInjective | src/main/java/de/ddm/structures/InclusionDependency.java:20-24 | Two such dependencies that render alike are equal. |
| DependencyWorker.SetMemorySizeAdd | src/main/java/de/ddm/actors/profiling/DependencyWorker.java:51-53 | Adding a new value to a set adds twice its length to the set's estimate. |
| DependencyWorker.EntriesMemorySizeAppend | src/main/java/de/ddm/actors/profiling/DependencyWorker.java:55-57 | The message estimate is additive over its map entries. |
| DependencyWorker.CheckEffect | src/main/java/de/ddm/actors/profiling/DependencyWorker.java:113-133 | For one pair of columns: a column compared with itself, or a forward IND already listed, adds nothing. Otherwise the forward IND is appended when A's values lie in B's, followed by the reverse IND when B's values lie in A's. |
| DependencyWorker.ListedIsForward | src/main/java/de/ddm/actors/profiling/DependencyWorker.java:117-122 | The duplicate test by column names matches exactly the forward IND of the pair. |
| DependencyWorker.CardinalityRedundant | src/main/java/de/ddm/actors/profiling/DependencyWorker.java:124-133 | The cardinality test adds nothing to containment: each IND is emitted exactly when its containment holds. |
| DependencyWorker.FindInclusionDependencies | src/main/java/de/ddm/actors/profiling/DependencyWorker.java:111-135 | The nested iteration with its duplicate loop yields exactly the list `Discover` defines. |
| DependencyWorker.HandleTask | src/main/java/de/ddm/actors/profiling/DependencyWorker.java:105-145 | The completion carries the worker's own reference and the discovered list, addressed to the coordinator's proxy named in the task. |
| DependencyWorker.DiscoverSound | src/main/java/de/ddm/actors/profiling/DependencyWorker.java:111-135 | Every listed IND is the forward or reverse IND of a pair of different columns of the two maps, and its dependent values lie within its referenced values. |
| DependencyWorker.DiscoverComplete | src/main/java/de/ddm/actors/profiling/DependencyWorker.java:111-135 | On consistent maps, every such IND is listed. Consistent means each map has one entry per column, and in a self-pair task a column has the same values on both sides. |
| DependencyWorker.DiscoverDistinct | src/main/java/de/ddm/actors/profiling/DependencyWorker.java:111-135 | For two different tables and maps with one entry per column, no IND is listed twice. |
| DependencyWorker.SelfPairListsTwice | src/main/java/de/ddm/actors/profiling/DependencyWorker.java:114-133 | In a task that pairs a table with itself, a strict inclusion is listed twice. |
| DependencyMining.DependencyMiner.constructor | src/main/java/de/ddm/actors/profiling/DependencyMiner.java:88-104 | Starts with an empty store, no finished readers, no workers, no tasks and nothing sent. |
| DependencyMining.HeaderRequests | src/main/java/de/ddm/actors/profiling/DependencyMiner.java:146-153 | Sends one header request per reader, in reader order. |
| DependencyMining.DependencyMiner.HandleStart | src/main/java/de/ddm/actors/profiling/DependencyMiner.java:146-153 | Appends exactly the header requests to what was sent. |
| DependencyMining.DependencyMiner.HandleHeader | src/main/java/de/ddm/actors/profiling/DependencyMiner.java:155-162 | Stores the header under the reader's file name with no rows, asks that reader for a batch and keeps the coordinator's invariant. |
| DependencyMining.DelegateFifo | src/main/java/de/ddm/actors/profiling/DependencyMiner.java:165-184 | The tasks handed out, followed by the remaining queue, are the old queue: tasks leave from the head in order. |
| DependencyMining.DelegateInOrder | src/main/java/de/ddm/actors/profiling/DependencyMiner.java:167-181 | Workers are served in list order, each through the proxy at its own list position. |
| DependencyMining.DelegateKeepsBusy | src/main/java/de/ddm/actors/profiling/DependencyMiner.java:175-181 | Only idle workers get a task, no worker gets two, and the busy map keeps its entries and gains exactly the handed ones. |
| DependencyMining.DelegateSaturates | src/main/java/de/ddm/actors/profiling/DependencyMiner.java:165-184 | Afterwards the queue is empty or every listed worker is busy. |
| DependencyMining.DelegateIdle | src/main/java/de/ddm/actors/profiling/DependencyMiner.java:168-170 | Leaving the loop once the queue is empty changes nothing. |
| DependencyMining.DependencyMiner.DelegateTasks | src/main/java/de/ddm/actors/profiling/DependencyMiner.java:165-184 | The new queue, busy map and sent messages are those of the delegation function `Delegate`, and every task message sent carries the values the store holds. |
| DependencyMining.Put | src/main/java/de/ddm/actors/profiling/DependencyMiner.java:189-196 | A map put: afterwards the key maps to the new value, and the other keys and their values are unchanged. |
| DependencyMining.ColumnDistinctValues | src/main/java/de/ddm/actors/profiling/DependencyMiner.java:189-196 | The distinct values the column object reports are those of the stored column's values. |
| DependencyMining.BuildDistinctValues | src/main/java/de/ddm/actors/profiling/DependencyMiner.java:189-196 | The map holds exactly the task's columns, each with its distinct values. |
| DependencyMining.BuildTaskMessage | src/main/java/de/ddm/actors/profiling/DependencyMiner.java:188-201 | The message carries the task, the coordinator's proxy and both sides' value maps, addressed to the worker's proxy. |
| DependencyMining.DependencyMiner.AssignTask | src/main/java/de/ddm/actors/profiling/DependencyMiner.java:186-204 | The head of the queue goes to the worker, the worker becomes busy with it, and exactly one task message is sent. |
| DependencyMining.SentMessageConsistent | src/main/java/de/ddm/actors/profiling/DependencyMiner.java:186-204 | In a message the coordinator builds, a column named on both sides carries one value set. |
| DependencyMining.SentMessageDiscovers | src/main/java/de/ddm/actors/profiling/DependencyMiner.java:186-204 | A worker answering such a message lists exactly the INDs that hold between its columns. |
| DependencyMining.Marked | src/main/java/de/ddm/actors/profiling/DependencyMiner.java:95 | Reader j's flag is set exactly when j has reported the end of its file. |
| DependencyMining.DependencyMiner.StoreBatch | src/main/java/de/ddm/actors/profiling/DependencyMiner.java:218-223 | A nonempty batch is appended to the reader's table, and the reader is asked for the next batch. |
| DependencyMining.DependencyMiner.RecordFinished | src/main/java/de/ddm/actors/profiling/DependencyMiner.java:208-215 | The end of a file sets the reader's flag and queues the tasks of the table paired with every finished table. |
| DependencyMining.DependencyMiner.PairWithFinished | src/main/java/de/ddm/actors/profiling/DependencyMiner.java:212-215 | Queues the tasks of the pairs (reader, j) for every finished reader j, in reader order. |
| DependencyMining.DependencyMiner.FinishReading | src/main/java/de/ddm/actors/profiling/DependencyMiner.java:208-217 | Combines the two steps above, then delegates the queue. |
| DependencyMining.DependencyMiner.HandleBatch | src/main/java/de/ddm/actors/profiling/DependencyMiner.java:206-226 | An empty batch finishes the reader: it is flagged, its pairs' tasks are queued, and the queue is delegated. A nonempty batch is stored, and the next batch is requested. Either way the invariant holds. |
| DependencyMining.PairsUpToMembers | src/main/java/de/ddm/actors/profiling/DependencyMiner.java:212-215 | The pairs formed are exactly (reader, j) for the finished readers j below the bound, each once. |
| DependencyMining.EnqueuedFromOrder | src/main/java/de/ddm/actors/profiling/DependencyMiner.java:206-240 | Only finished readers appear in queued pairs. |
| DependencyMining.EnqueuedDistinct | src/main/java/de/ddm/actors/profiling/DependencyMiner.java:206-240 | When each reader finishes once, no pair is queued twice. |
| DependencyMining.EnqueuedPairs | src/main/java/de/ddm/actors/profiling/DependencyMiner.java:206-240 | Each table is paired once with itself, and two different tables once, with the later finisher on side A. |
| DependencyMining.DependencyMiner.CheckAndOptionallyCreateTasks | src/main/java/de/ddm/actors/profiling/DependencyMiner.java:228-240 | Queues the generated tasks of the pair exactly when the other reader has finished. Otherwise nothing changes. |
| DependencyMining.GenerateTasks | src/main/java/de/ddm/actors/profiling/DependencyMiner.java:230-235 | Task generation over the store with the 60 MiB budget yields that pair's tasks, each naming stored columns. |
| DependencyMining.EstimateTotals | src/main/java/de/ddm/structures/Column.java:23-31 | A column's estimate from its values totals 4 bytes per row plus 2 per character of each dictionary entry. |
| DependencyMining.ColumnSizesIn | src/main/java/de/ddm/structures/Column.java:42-44 | The estimates the store's column objects report equal those computed from the stored values. |
| DependencyMining.PairTasksCover | src/main/java/de/ddm/actors/profiling/DependencyMiner.java:228-240 | The tasks of a table pair cover the whole cross product: every column of the first table meets every column of the second in some task. |
| DependencyMining.PairTasksStored | src/main/java/de/ddm/actors/profiling/DependencyMiner.java:228-240 | Every generated task names the pair's two tables and only columns of their headers. |
| DependencyMining.TasksOfAppend | src/main/java/de/ddm/actors/profiling/DependencyMiner.java:238 | The tasks of consecutive runs of pairs join the queue one run after another. |
| DependencyMining.DependencyMiner.HandleRegistration | src/main/java/de/ddm/actors/profiling/DependencyMiner.java:242-253 | A known worker changes nothing. A new worker and its proxy are appended and the queue is delegated; the worker list stays free of duplicates. |
| DependencyMining.DependencyMiner.ReleaseWorker | src/main/java/de/ddm/actors/profiling/DependencyMiner.java:256-264 | Forwards nonempty results to the collector and marks the worker idle. |
| DependencyMining.DependencyMiner.AllReadersFinished | src/main/java/de/ddm/actors/profiling/DependencyMiner.java:270-276 | True exactly when every reader's flag is set. |
| DependencyMining.DependencyMiner.EndIfDone | src/main/java/de/ddm/actors/profiling/DependencyMiner.java:270-287 | Sends the final message exactly when all readers have finished, the queue is empty and no worker is busy. By then every generated task has been handed out. |
| DependencyMining.DependencyMiner.HandleCompletion | src/main/java/de/ddm/actors/profiling/DependencyMiner.java:255-281 | Forwards nonempty results, frees the worker and delegates the queue. It finalizes exactly when everything is read, handed out and answered. |
| DependencyMining.DependencyMiner.HandleTerminated | src/main/java/de/ddm/actors/profiling/DependencyMiner.java:289-293 | Removes the worker's first listing from the worker list, after which the worker is no longer listed. |
| DependencyMining.TerminationMisalignsProxies | src/main/java/de/ddm/actors/profiling/DependencyMiner.java:289-293 | After a worker terminates, its successor is paired with the terminated worker's proxy, because the proxy list is not shortened. |

## Left out

- Actors and messaging are left out: Akka's actor system, the receptionist, `watch`, the large-message proxies' chunked transfer and message serialization. A send is an entry appended to `outbox`, and a received message is a handler call.
- The `InputReader` and `ResultCollector` actors, the CSV parsing and the output file are left out. Reader batches and completion lists arrive as parameters.
- Logging and the timing in `end` (`startTime`, `System.currentTimeMillis`) have no effect on state and are left out.
- The worker's receptionist-listing handler (DependencyWorker.java:97-102) only sends a registration to each listed coordinator, and it is left out. Its effect appears in `DependencyMiner.HandleRegistration`.
- The worker's `getMemorySize` (DependencyWorker.java:55-57) is only logged. It is modelled as a ghost function with its additivity lemmas.
- `Task.toString` is only logged and is left out.
- Java `char`s are UTF-16 code units and Dafny `char`s are Unicode scalar values. `HashCode` matches `String.hashCode` only for text in the Basic Multilingual Plane.
- Columns.Column.Add: the memory estimate adds 2 per Unicode scalar value, where Java's `length()` counts UTF-16 code units. Outside the Basic Multilingual Plane the estimate is lower than Java's, so greedy group boundaries can differ. The same holds for `DependencyWorker.SetMemorySize`, which is only logged.
- Partitioning.GroupsWithinHalf: holds only over unbounded running totals. The group's running total in `Partitioning.ClosesGroup`, `TaskGeneration.TaskGenerator.TakeColumnA` and `TaskGeneration.TaskGenerator.TakeColumnB` is an unbounded integer, while Java's `memoryUsed` is an `int` that wraps once the total plus the next column's estimate passes 2³¹−1. For example, estimates of 1,500,000,000 and then 1,000,000,000 sum to a negative `int`, so Java adds the second column to the open group where the model closes the group. The model, and this lemma, cover only headers whose group totals stay below 2³¹.
- Columns.Column.Add: the memory estimate is an unbounded integer. Java's `int` would wrap after 2³¹ bytes, and that overflow is not modelled.
- The iteration order of Java `HashMap`s and `HashSet`s is unspecified.
  - The distinct-value maps are sequences of entries in the task's column order.
  - `GetTableNames` promises its names as a set.
  - `GetColumn` relies on the header order, which is a list.
- DependencyWorker.FindInclusionDependencies: column identity is modelled as equality of (table, column name). The Java code compares `String` references with `==`. Deserialized names are distinct objects, so reference equality can differ from name equality in ways the model does not capture.
- DependencyMining.DependencyMiner.HandleHeader requires the table name to be new. The Java code would overwrite a re-sent header; `AddTable` models that overwrite, but the coordinator's invariant is only kept for new names.
- DependencyMining.DependencyMiner.HandleBatch requires that the reader's header has arrived and that every row has the header's length. A missing header makes the Java code throw, and so does a row longer than the header. The row-length requirement follows the intent of the `assert` at LocalDataStorage.java:35-36 and 46-47. Java assertions are off by default, so a default JVM accepts a short row and appends it to the first columns only, leaving the columns of the table with unequal sizes. The model excludes that case.
- Storage.LocalDataStorage.AddRow and Storage.LocalDataStorage.AddRows require rows of the header's length for the same reason, and so they exclude the short rows a JVM without `-ea` accepts.
- DependencyMining.DependencyMiner.HandleTerminated follows the code: the busy task of a terminated worker is not requeued, and its proxy stays in the proxy list (see `TerminationMisalignsProxies`).
- Re-registering the same table overwrites it, a column pair can be compared twice because B lists are shared (`CarriedListRepeatsFirstGroup`, `DuplicateCoverageExample`), and the same IND can be listed twice in a self-pair task (`SelfPairListsTwice`). In each case the model follows the code, not a deduplicating design.
- The unused fields `discoverNaryDependencies` and the memory usage counter of the coordinator have no effect and are left out.
