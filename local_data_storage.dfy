/**
 * The per-table column store (LocalDataStorage.java): a header and one
 * Column per header entry for every table name. Rows are appended column by
 * column. The ghost map `rows` records every row appended to a table since it
 * was last registered; column i of a table holds exactly the i-th values of
 * those rows.
 */
module Storage {
  import opened Wrappers
  import opened Lists
  import opened Columns

  /** The i-th value of every row. */
  function ColumnOf(rows: seq<seq<string>>, i: nat): (c: seq<string>)
    requires forall k :: 0 <= k < |rows| ==> i < |rows[k]|
    ensures |c| == |rows|
    ensures forall k :: 0 <= k < |rows| ==> c[k] == rows[k][i]
  {
    if |rows| == 0 then [] else ColumnOf(rows[..|rows| - 1], i) + [rows[|rows| - 1][i]]
  }

  /** Every column of every table is its own object. */
  ghost predicate ColumnsDistinct(content: map<string, seq<Column>>)
  {
    forall t, i, u, j ::
      t in content && u in content && 0 <= i < |content[t]| && 0 <= j < |content[u]| && (t != u || i != j)
      ==> content[t][i] != content[u][j]
  }

  /** One fresh, empty column per header entry. */
  method NewColumns(n: nat) returns (content: seq<Column>)
    ensures |content| == n
    ensures forall k :: 0 <= k < n ==> fresh(content[k]) && content[k].Valid() && content[k].added == []
    ensures forall k, l :: 0 <= k < l < n ==> content[k] != content[l]
  {
    content := [];
    while |content| < n
      invariant |content| <= n
      invariant forall k :: 0 <= k < |content| ==> fresh(content[k]) && content[k].Valid() && content[k].added == []
      invariant forall k, l :: 0 <= k < l < |content| ==> content[k] != content[l]
    {
      var column := new Column();
      content := content + [column];
    }
  }

  /** Appends `values[k]` to column k of one table, column by column. */
  method AppendToColumns(content: seq<Column>, values: seq<string>)
    requires |content| == |values|
    requires forall k, l :: 0 <= k < l < |content| ==> content[k] != content[l]
    requires forall k :: 0 <= k < |content| ==> content[k].Valid()
    modifies set k | 0 <= k < |content| :: content[k]
    ensures forall k :: 0 <= k < |content| ==>
      content[k].Valid() && content[k].added == old(content[k].added) + [values[k]]
  {
    var i := 0;
    while i < |values|
      invariant 0 <= i <= |values|
      invariant forall k :: 0 <= k < |content| ==>
        content[k].Valid() && content[k].added == old(content[k].added) + (if k < i then [values[k]] else [])
    {
      ghost var before := content[i];
      assert forall k :: 0 <= k < |content| && k != i ==> content[k] != before;
      content[i].Add(values[i]);
      i := i + 1;
    }
  }

  /** Appending a row appends its i-th value to column i. */
  lemma ColumnOfSnoc(rows: seq<seq<string>>, values: seq<string>)
    requires forall k :: 0 <= k < |rows| ==> |rows[k]| == |values|
    ensures forall i :: 0 <= i < |values| ==> ColumnOf(rows + [values], i) == ColumnOf(rows, i) + [values[i]]
  {
    forall i | 0 <= i < |values|
      ensures ColumnOf(rows + [values], i) == ColumnOf(rows, i) + [values[i]]
    {
      assert (rows + [values])[..|rows|] == rows;
    }
  }

  /** The columns of a table, as a set of objects. */
  function Objects(cs: seq<Column>): (os: set<object>)
    ensures forall k :: 0 <= k < |cs| ==> cs[k] in os
  {
    set k | 0 <= k < |cs| :: cs[k]
  }

  /** Registering fresh, pairwise-distinct columns for a table keeps all columns distinct. */
  lemma ColumnsDistinctUpdate(content: map<string, seq<Column>>, t: string, cs: seq<Column>)
    requires ColumnsDistinct(content)
    requires forall k, l :: 0 <= k < l < |cs| ==> cs[k] != cs[l]
    requires forall k, u, j :: 0 <= k < |cs| && u in content && 0 <= j < |content[u]| ==> cs[k] != content[u][j]
    ensures ColumnsDistinct(content[t := cs])
  {
  }

  class LocalDataStorage {
    var headerList: map<string, seq<string>>
    var contentList: map<string, seq<Column>>
    /** The rows appended to each table since it was registered. */
    ghost var rows: map<string, seq<seq<string>>>
    ghost var Repr: set<object>

    /**
     * Every table has a header, a column per header entry (each in Repr) and
     * rows of header length.
     */
    ghost predicate Shaped()
      reads this
    {
      && headerList.Keys == contentList.Keys == rows.Keys
      && (forall t :: t in contentList ==> |contentList[t]| == |headerList[t]|)
      && (forall t, k :: t in rows && 0 <= k < |rows[t]| ==> |rows[t][k]| == |headerList[t]|)
      && (forall t, i :: t in contentList && 0 <= i < |contentList[t]| ==> contentList[t][i] in Repr)
    }

    /** Table `t` is stored, with one column object per header entry, each in `Repr`. */
    ghost predicate TableShaped(t: string)
      reads this
    {
      && t in headerList && t in contentList && |contentList[t]| == |headerList[t]|
      && forall i :: 0 <= i < |contentList[t]| ==> contentList[t][i] in Repr
    }

    lemma ShapedTable(t: string)
      requires Shaped() && t in headerList
      ensures TableShaped(t)
    {
    }

    /** Column i of table t is a valid column holding the i-th value of each of t's rows. */
    ghost predicate ColumnsHoldRows()
      reads this, Repr
      requires Shaped()
    {
      forall t, i :: t in contentList && 0 <= i < |contentList[t]| ==>
        contentList[t][i].Valid() && contentList[t][i].added == ColumnOf(rows[t], i)
    }

    ghost predicate Valid()
      reads this, Repr
    {
      this in Repr && Shaped() && ColumnsDistinct(contentList) && ColumnsHoldRows()
    }

    constructor ()
      ensures Valid() && fresh(Repr)
      ensures headerList == map[] && contentList == map[] && rows == map[]
    {
      headerList := map[];
      contentList := map[];
      rows := map[];
      Repr := {this};
    }

    /**
     * Registers `tableName` with `header` and one fresh empty column per
     * header entry. A name already present is overwritten, with no error.
     */
    method AddTable(tableName: string, header: seq<string>)
      requires Valid()
      modifies this
      ensures Valid() && fresh(Repr - old(Repr))
      ensures headerList == old(headerList)[tableName := header]
      ensures rows == old(rows)[tableName := []]
      ensures tableName in contentList && |contentList[tableName]| == |header|
      ensures forall i :: 0 <= i < |header| ==> fresh(contentList[tableName][i]) && contentList[tableName][i].added == []
      ensures contentList == old(contentList)[tableName := contentList[tableName]]
    {
      var content := NewColumns(|header|);
      headerList := headerList[tableName := header];
      contentList := contentList[tableName := content];
      rows := rows[tableName := []];
      Repr := Repr + Objects(content);
      Registered(tableName, header, content);
    }

    /** Registering `tableName` with fresh, empty, distinct columns keeps the storage valid. */
    twostate lemma Registered(new tableName: string, new header: seq<string>, new content: seq<Column>)
      requires old(Valid()) && |content| == |header|
      requires headerList == old(headerList)[tableName := header]
      requires contentList == old(contentList)[tableName := content] && rows == old(rows)[tableName := []]
      requires Repr == old(Repr) + Objects(content)
      requires forall k :: 0 <= k < |content| ==> content[k].Valid() && content[k].added == []
      requires forall k, l :: 0 <= k < l < |content| ==> content[k] != content[l]
      requires forall k :: 0 <= k < |content| ==> content[k] !in old(Repr)
      requires unchanged(old(Repr) - {this})
      ensures Valid()
    {
      ColumnsDistinctUpdate(old(contentList), tableName, content);
      assert Shaped();
      forall t, i | t in contentList && 0 <= i < |contentList[t]|
        ensures contentList[t][i].Valid() && contentList[t][i].added == ColumnOf(rows[t], i)
      {
        if t == tableName {
          assert contentList[t][i] == content[i] && rows[t] == [];
        } else {
          assert contentList[t] == old(contentList[t]) && rows[t] == old(rows[t]);
          assert old(contentList[t][i].Valid() && contentList[t][i].added == ColumnOf(rows[t], i));
        }
      }
    }

    /** The registered table names, in the map's (unspecified) iteration order. */
    method GetTableNames() returns (tableNames: seq<string>)
      ensures forall t :: t in tableNames <==> t in headerList
      ensures NoDuplicates(tableNames)
    {
      tableNames := [];
      var keys := headerList.Keys;
      while keys != {}
        invariant keys <= headerList.Keys
        invariant forall t :: t in tableNames <==> t in headerList && t !in keys
        invariant NoDuplicates(tableNames)
        decreases keys
      {
        var key :| key in keys;
        tableNames := tableNames + [key];
        keys := keys - {key};
      }
    }

    /** The header of `tableName`, or None where Java returns null. */
    function GetHeader(tableName: string): (h: Option<seq<string>>)
      reads this
      ensures h.Some? <==> tableName in headerList
      ensures h.Some? ==> h.value == headerList[tableName]
    {
      if tableName in headerList then Some(headerList[tableName]) else None
    }

    /** Appends `values[i]` to column i of `tableName`, and touches no other table. */
    method AddRow(tableName: string, values: seq<string>)
      requires Valid()
      requires tableName in contentList
      requires |values| == |headerList[tableName]|
      modifies Repr
      ensures Valid() && Repr == old(Repr)
      ensures headerList == old(headerList) && contentList == old(contentList)
      ensures rows == old(rows)[tableName := old(rows[tableName]) + [values]]
    {
      var content := contentList[tableName];
      AppendToColumns(content, values);
      rows := rows[tableName := rows[tableName] + [values]];
      RowAppended(tableName, values);
    }

    /** After `values` went into the columns of `tableName`, every column still holds its table's rows. */
    twostate lemma RowAppended(new tableName: string, new values: seq<string>)
      requires old(Valid()) && tableName in old(contentList) && |values| == |old(headerList)[tableName]|
      requires headerList == old(headerList) && contentList == old(contentList) && Repr == old(Repr)
      requires rows == old(rows)[tableName := old(rows[tableName]) + [values]]
      requires forall k :: 0 <= k < |values| ==>
        contentList[tableName][k].Valid() && contentList[tableName][k].added == old(contentList[tableName][k].added) + [values[k]]
      requires unchanged(old(Repr) - Objects(contentList[tableName]) - {this})
      ensures Valid()
    {
      ColumnOfSnoc(old(rows[tableName]), values);
      assert Shaped();
      forall t, i | t in contentList && 0 <= i < |contentList[t]|
        ensures contentList[t][i].Valid() && contentList[t][i].added == ColumnOf(rows[t], i)
      {
        if t != tableName {
          assert contentList[t][i] !in Objects(contentList[tableName]);
        }
      }
    }

    /** Appends every row in order: the same as AddRow applied to each in turn. */
    method AddRows(tableName: string, newRows: seq<seq<string>>)
      requires Valid()
      requires tableName in contentList
      requires forall k :: 0 <= k < |newRows| ==> |newRows[k]| == |headerList[tableName]|
      modifies Repr
      ensures Valid() && Repr == old(Repr)
      ensures headerList == old(headerList) && contentList == old(contentList)
      ensures rows == old(rows)[tableName := old(rows[tableName]) + newRows]
    {
      var k := 0;
      assert old(rows[tableName]) + newRows[..0] == old(rows[tableName]);
      assert old(rows)[tableName := old(rows[tableName]) + newRows[..0]] == old(rows);
      while k < |newRows|
        invariant 0 <= k <= |newRows|
        invariant Valid() && Repr == old(Repr)
        invariant headerList == old(headerList) && contentList == old(contentList)
        invariant rows == old(rows)[tableName := old(rows[tableName]) + newRows[..k]]
      {
        AddRow(tableName, newRows[k]);
        assert newRows[..k + 1] == newRows[..k] + [newRows[k]];
        assert old(rows[tableName]) + newRows[..k + 1] == (old(rows[tableName]) + newRows[..k]) + [newRows[k]];
        k := k + 1;
      }
      assert newRows[..k] == newRows;
    }

    /** The column of `tableName` at the first position of `columnName` in its header. */
    function GetColumn(tableName: string, columnName: string): (c: Column)
      reads this
      requires TableShaped(tableName) && columnName in headerList[tableName]
      ensures IndexOf(headerList[tableName], columnName).Some?
      ensures c == contentList[tableName][IndexOf(headerList[tableName], columnName).value]
      ensures c in Repr
    {
      contentList[tableName][IndexOf(headerList[tableName], columnName).value]
    }

    /** The column `GetColumn` finds holds, in order, that header position's value of every row appended. */
    lemma GetColumnHoldsRows(tableName: string, columnName: string)
      requires Valid()
      requires tableName in headerList && columnName in headerList[tableName]
      ensures GetColumn(tableName, columnName).Valid()
      ensures GetColumn(tableName, columnName).added == ColumnOf(rows[tableName], IndexOf(headerList[tableName], columnName).value)
    {
    }

    /** All columns of a table have one row per appended row. */
    lemma ColumnsHaveEqualSize(tableName: string)
      requires Valid() && tableName in contentList
      ensures forall i :: 0 <= i < |contentList[tableName]| ==> contentList[tableName][i].Size() == |rows[tableName]|
    {
    }

    /** The memory estimate of every column of `tableName`, by column name. */
    ghost function ColumnSizes(tableName: string): (sizes: map<string, int>)
      reads this, Repr
      requires TableShaped(tableName)
      ensures forall n :: n in sizes <==> n in headerList[tableName]
    {
      map n | n in headerList[tableName] :: GetColumn(tableName, n).MemorySize()
    }
  }
}
