/**
 * A unit of comparison work: every column of the A-group is to be checked
 * against every column of the B-group. Task.java keeps its two column lists
 * by reference; the generator that fills them is modelled in module
 * TaskGeneration, and a Task value here holds the contents those lists have
 * once generation is over.
 */
module Tasks {
  datatype Task = Task(
    tableNameA: string,
    tableNameB: string,
    columnNamesA: seq<string>,
    columnNamesB: seq<string>)
}
