/**
 * Grouping the flat column rows by table (GenerateDatabaseDocs.php,
 * lines 64-68): `$tables[$column->table][] = $column` for each row.
 *
 * `$tables` is a PHP ordered array. It is modelled as the sequence of its
 * keys in insertion order plus the map from each key to its column list.
 * TableNames and ColumnsOf give both parts as functions of the input rows;
 * GroupByTable is the loop, proved to build exactly them.
 */
module Grouping {
  import opened Schema

  /** No element occurs twice. */
  predicate Distinct<T(==)>(s: seq<T>)
  {
    forall i, j :: 0 <= i < j < |s| ==> s[i] != s[j]
  }

  /** The keys of `$tables` in insertion order: every table name of the rows, at its first appearance. */
  function TableNames(cols: seq<ColumnInfo>): (names: seq<string>)
  {
    if cols == [] then []
    else
      var prefix := cols[..|cols| - 1];
      var names := TableNames(prefix);
      var t := cols[|cols| - 1].table;
      assert cols == prefix + [cols[|cols| - 1]];
      if t in names then names else names + [t]
  }

  /** `$tables[$t]` after the loop: the rows of table `t`, in input order. */
  function ColumnsOf(cols: seq<ColumnInfo>, t: string): (group: seq<ColumnInfo>)
  {
    if cols == [] then []
    else
      var prefix := cols[..|cols| - 1];
      var last := cols[|cols| - 1];
      assert cols == prefix + [last];
      ColumnsOf(prefix, t) + (if last.table == t then [last] else [])
  }

  /** The positions of the rows of table `t`, ascending. */
  function IndicesOf(cols: seq<ColumnInfo>, t: string): (idx: seq<nat>)
    ensures forall k, l :: 0 <= k < l < |idx| ==> idx[k] < idx[l]
    ensures forall k :: 0 <= k < |idx| ==> idx[k] < |cols|
    ensures forall i :: 0 <= i < |cols| ==> (cols[i].table == t <==> i in idx)
  {
    if cols == [] then []
    else
      var n := |cols| - 1;
      var prefix := IndicesOf(cols[..n], t);
      assert forall i :: 0 <= i < n ==> cols[..n][i] == cols[i];
      prefix + (if cols[n].table == t then [n] else [])
  }

  /** `$tables` as a map, the value side of the ordered array. */
  function GroupMap(cols: seq<ColumnInfo>): (groups: map<string, seq<ColumnInfo>>)
  {
    map t | t in TableNames(cols) :: ColumnsOf(cols, t)
  }

  /** Appending a row adds its table name at the end unless the name is already there. */
  lemma TableNamesStep(p: seq<ColumnInfo>, c: ColumnInfo)
    ensures TableNames(p + [c]) == if c.table in TableNames(p) then TableNames(p) else TableNames(p) + [c.table]
  {
    assert (p + [c])[..|p|] == p;
  }

  /** Appending a row extends the group of its table and no other. */
  lemma ColumnsOfStep(p: seq<ColumnInfo>, c: ColumnInfo, t: string)
    ensures ColumnsOf(p + [c], t) == ColumnsOf(p, t) + (if c.table == t then [c] else [])
  {
    assert (p + [c])[..|p|] == p;
  }

  /** The keys of `$tables` are distinct. */
  lemma {:induction false} TableNamesDistinct(cols: seq<ColumnInfo>)
    ensures Distinct(TableNames(cols))
  {
    if cols != [] {
      var n := |cols| - 1;
      TableNamesDistinct(cols[..n]);
    }
  }

  /** The table of every row is among the keys of `$tables`. */
  lemma {:induction false} RowNameListed(cols: seq<ColumnInfo>, i: int)
    requires 0 <= i < |cols|
    ensures cols[i].table in TableNames(cols)
  {
    var n := |cols| - 1;
    if i < n {
      RowNameListed(cols[..n], i);
    }
  }

  /** The keys of `$tables` are exactly the tables of the rows: no key without a row. */
  lemma {:induction false} NameHasRow(cols: seq<ColumnInfo>, t: string)
    ensures t in TableNames(cols) <==> exists i :: 0 <= i < |cols| && cols[i].table == t
  {
    if cols != [] {
      var n := |cols| - 1;
      NameHasRow(cols[..n], t);
      if t in TableNames(cols[..n]) {
        var i :| 0 <= i < n && cols[..n][i].table == t;
        assert cols[i].table == t;
      }
      if exists i :: 0 <= i < |cols| && cols[i].table == t {
        var i :| 0 <= i < |cols| && cols[i].table == t;
        RowNameListed(cols, i);
      }
    }
  }

  /** A table with rows is among the table names. */
  lemma {:induction false} RowsImplyName(cols: seq<ColumnInfo>, t: string)
    ensures ColumnsOf(cols, t) != [] ==> t in TableNames(cols)
  {
    if cols != [] {
      var n := |cols| - 1;
      RowsImplyName(cols[..n], t);
      if cols[n].table == t {
        RowNameListed(cols, n);
      }
    }
  }

  /** A row of a table already seen extends that table's group. */
  lemma ExtendGroup(done: seq<ColumnInfo>, c: ColumnInfo)
    requires c.table in TableNames(done)
    ensures GroupMap(done + [c]) == GroupMap(done)[c.table := GroupMap(done)[c.table] + [c]]
  {
    var names := TableNames(done);
    var next := GroupMap(done)[c.table := GroupMap(done)[c.table] + [c]];
    TableNamesStep(done, c);
    assert forall t :: t in next <==> t in names;
    forall t | t in names ensures next[t] == ColumnsOf(done + [c], t) {
      ColumnsOfStep(done, c, t);
    }
  }

  /** A row of a table not seen before starts that table's group. */
  lemma StartGroup(done: seq<ColumnInfo>, c: ColumnInfo)
    requires c.table !in TableNames(done)
    ensures GroupMap(done + [c]) == GroupMap(done)[c.table := [c]]
  {
    var names := TableNames(done) + [c.table];
    var next := GroupMap(done)[c.table := [c]];
    TableNamesStep(done, c);
    RowsImplyName(done, c.table);
    assert forall t :: t in next <==> t in names;
    forall t | t in names ensures next[t] == ColumnsOf(done + [c], t) {
      ColumnsOfStep(done, c, t);
    }
  }

  /**
   * The loop of lines 66-68: append each row to the list under its table
   * name; `$tables[$t][] = $column` creates the list when the key is new.
   */
  method GroupByTable(columns: seq<ColumnInfo>) returns (names: seq<string>, groups: map<string, seq<ColumnInfo>>)
    ensures names == TableNames(columns)
    ensures groups == GroupMap(columns)
  {
    names, groups := [], map[];
    for i := 0 to |columns|
      invariant names == TableNames(columns[..i])
      invariant groups == GroupMap(columns[..i])
    {
      var column := columns[i];
      assert columns[..i + 1] == columns[..i] + [column];
      TableNamesStep(columns[..i], column);
      var current := [];
      if column.table in groups {
        ExtendGroup(columns[..i], column);
        current := groups[column.table];
      } else {
        StartGroup(columns[..i], column);
        names := names + [column.table];
      }
      groups := groups[column.table := current + [column]];
    }
    assert columns[..|columns|] == columns;
  }

  /** The group of table `t` is exactly the rows at the positions of table `t`, in increasing position order. */
  lemma {:induction false} GroupIsMatchingRowsInOrder(cols: seq<ColumnInfo>, t: string)
    ensures |ColumnsOf(cols, t)| == |IndicesOf(cols, t)|
    ensures forall k :: 0 <= k < |IndicesOf(cols, t)| ==> ColumnsOf(cols, t)[k] == cols[IndicesOf(cols, t)[k]]
  {
    if cols != [] {
      var n := |cols| - 1;
      var p := cols[..n];
      GroupIsMatchingRowsInOrder(p, t);
      var group, idx := ColumnsOf(p, t), IndicesOf(p, t);
      var extra := if cols[n].table == t then [cols[n]] else [];
      var extraIdx := if cols[n].table == t then [n] else [];
      assert ColumnsOf(cols, t) == group + extra;
      assert IndicesOf(cols, t) == idx + extraIdx;
      forall k | 0 <= k < |idx + extraIdx| ensures (group + extra)[k] == cols[(idx + extraIdx)[k]] {
        if k < |idx| {
          assert p[idx[k]] == cols[idx[k]];
        }
      }
    }
  }

  /** Every row lands in the group of its own table. */
  lemma RowInItsGroup(cols: seq<ColumnInfo>, i: int)
    requires 0 <= i < |cols|
    ensures cols[i] in ColumnsOf(cols, cols[i].table)
    ensures cols[i].table in TableNames(cols)
  {
    var t := cols[i].table;
    GroupIsMatchingRowsInOrder(cols, t);
    var idx := IndicesOf(cols, t);
    var k :| 0 <= k < |idx| && idx[k] == i;
    assert ColumnsOf(cols, t)[k] == cols[i];
    RowNameListed(cols, i);
  }

  /** All rows of the groups listed in `names`, as a multiset. */
  function GroupedRows(cols: seq<ColumnInfo>, names: seq<string>): multiset<ColumnInfo>
  {
    if names == [] then multiset{}
    else GroupedRows(cols, names[..|names| - 1]) + multiset(ColumnsOf(cols, names[|names| - 1]))
  }

  /** The number of rows in the groups listed in `names`. */
  function TotalColumns(cols: seq<ColumnInfo>, names: seq<string>): nat
  {
    if names == [] then 0
    else TotalColumns(cols, names[..|names| - 1]) + |ColumnsOf(cols, names[|names| - 1])|
  }

  lemma {:induction false} GroupedRowsAppend(p: seq<ColumnInfo>, c: ColumnInfo, names: seq<string>)
    requires Distinct(names)
    ensures GroupedRows(p + [c], names)
         == GroupedRows(p, names) + (if c.table in names then multiset{c} else multiset{})
  {
    if names != [] {
      var m := |names| - 1;
      var front, t := names[..m], names[m];
      assert names == front + [t];
      assert Distinct(front);
      assert t !in front;
      GroupedRowsAppend(p, c, front);
      ColumnsOfStep(p, c, t);
      var before := multiset(ColumnsOf(p, t));
      assert GroupedRows(p + [c], names) == GroupedRows(p + [c], front) + multiset(ColumnsOf(p + [c], t));
      assert GroupedRows(p, names) == GroupedRows(p, front) + before;
      if c.table == t {
        assert multiset(ColumnsOf(p + [c], t)) == before + multiset{c};
        assert c.table !in front;
      } else {
        assert multiset(ColumnsOf(p + [c], t)) == before;
        assert c.table in names <==> c.table in front;
      }
    }
  }

  /** Grouping drops and duplicates nothing: the groups together hold exactly the input rows. */
  lemma {:induction false} GroupingKeepsEveryRow(cols: seq<ColumnInfo>)
    ensures GroupedRows(cols, TableNames(cols)) == multiset(cols)
  {
    if cols != [] {
      var n := |cols| - 1;
      var p, c := cols[..n], cols[n];
      assert cols == p + [c];
      GroupingKeepsEveryRow(p);
      var names := TableNames(p);
      TableNamesStep(p, c);
      TableNamesDistinct(p);
      GroupedRowsAppend(p, c, names);
      if c.table !in names {
        NewTableGroup(p, c);
      }
      assert multiset(p + [c]) == multiset(p) + multiset{c};
    }
  }

  /** A row of a table not seen before adds that table's group, holding just the row. */
  lemma NewTableGroup(p: seq<ColumnInfo>, c: ColumnInfo)
    requires c.table !in TableNames(p)
    ensures GroupedRows(p + [c], TableNames(p) + [c.table]) == GroupedRows(p + [c], TableNames(p)) + multiset{c}
  {
    var names := TableNames(p) + [c.table];
    assert names[..|names| - 1] == TableNames(p);
    RowsImplyName(p, c.table);
    ColumnsOfStep(p, c, c.table);
  }

  lemma {:induction false} TotalColumnsIsSize(cols: seq<ColumnInfo>, names: seq<string>)
    ensures TotalColumns(cols, names) == |GroupedRows(cols, names)|
  {
    if names != [] {
      TotalColumnsIsSize(cols, names[..|names| - 1]);
    }
  }

  /** The group sizes add up to the number of input rows. */
  lemma GroupSizesAddUp(cols: seq<ColumnInfo>)
    ensures TotalColumns(cols, TableNames(cols)) == |cols|
  {
    GroupingKeepsEveryRow(cols);
    TotalColumnsIsSize(cols, TableNames(cols));
  }
}
