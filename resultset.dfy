/**
 * The tabular container the executor fills and reshapes (the resultset
 * module). Its internal layout is not part of this model: it is seen through
 * the contract of each resultset_* call. Positions of rows and columns are
 * 1-based and dense; deleting or moving one renumbers the others.
 */
module ResultSets {
  import opened Values
  import opened Names
  import opened Sequences

  datatype Column = Column(table: string, name: string, func: Func, colType: ColType)

  type Row = seq<Value>

  /** One call of resultset_applyFunction: which function, at which column position. */
  datatype Application = Application(func: Func, position: int)

  /** A row holds one value per column, of that column's declared type. */
  predicate RowFits(row: Row, cols: seq<Column>)
  {
    |row| == |cols| && forall k :: 0 <= k < |row| ==> HasType(row[k], cols[k].colType)
  }

  predicate AllRowsHaveLength(rows: seq<Row>, n: nat)
  {
    forall r :: 0 <= r < |rows| ==> |rows[r]| == n
  }

  function DefaultRow(cols: seq<Column>): (row: Row)
    ensures RowFits(row, cols)
  {
    seq(|cols|, k requires 0 <= k < |cols| => Default(cols[k].colType))
  }

  /** Does the column carry this table and column name (case-insensitively)? */
  predicate Identifies(c: Column, tableName: string, colName: string)
  {
    EqualsIgnoreCase(c.table, tableName) && EqualsIgnoreCase(c.name, colName)
  }

  /**
   * What resultset_findColumn answers: the first position at or after
   * startPos whose column carries the names, or -1 when there is none.
   */
  function ColumnPosition(cols: seq<Column>, startPos: int, tableName: string, colName: string): (p: int)
    requires startPos >= 1
    decreases |cols| + 1 - startPos
    ensures p == -1 || (startPos <= p <= |cols| && Identifies(cols[p - 1], tableName, colName))
    ensures p == -1 ==> forall k :: startPos - 1 <= k < |cols| ==> !Identifies(cols[k], tableName, colName)
    ensures p != -1 ==> forall k :: startPos - 1 <= k < p - 1 ==> !Identifies(cols[k], tableName, colName)
  {
    if startPos > |cols| then -1
    else if Identifies(cols[startPos - 1], tableName, colName) then startPos
    else ColumnPosition(cols, startPos + 1, tableName, colName)
  }

  function InsertInRows(rows: seq<Row>, k: nat, v: Value): (r: seq<Row>)
    requires forall i :: 0 <= i < |rows| ==> k <= |rows[i]|
    ensures |r| == |rows| && forall i :: 0 <= i < |rows| ==> r[i] == InsertAt(rows[i], k, v)
  {
    seq(|rows|, i requires 0 <= i < |rows| => InsertAt(rows[i], k, v))
  }

  function DeleteInRows(rows: seq<Row>, k: nat): (r: seq<Row>)
    requires forall i :: 0 <= i < |rows| ==> k < |rows[i]|
    ensures |r| == |rows| && forall i :: 0 <= i < |rows| ==> r[i] == DeleteAt(rows[i], k)
  {
    seq(|rows|, i requires 0 <= i < |rows| => DeleteAt(rows[i], k))
  }

  function MoveInRows(rows: seq<Row>, from: nat, to: nat): (r: seq<Row>)
    requires forall i :: 0 <= i < |rows| ==> from < |rows[i]| && to < |rows[i]|
    ensures |r| == |rows| && forall i :: 0 <= i < |rows| ==> r[i] == Move(rows[i], from, to)
  {
    seq(|rows|, i requires 0 <= i < |rows| => Move(rows[i], from, to))
  }

  function MaskRows(rows: seq<Row>, keep: seq<bool>): (r: seq<Row>)
    requires AllRowsHaveLength(rows, |keep|)
    ensures |r| == |rows| && forall i :: 0 <= i < |rows| ==> r[i] == Mask(rows[i], keep)
  {
    seq(|rows|, i requires 0 <= i < |rows| => Mask(rows[i], keep))
  }

  /** Every row with its first i values masked and the rest as they were. */
  function MaskedRowsUpTo(rows: seq<Row>, keep: seq<bool>, i: nat): (r: seq<Row>)
    requires AllRowsHaveLength(rows, |keep|) && i <= |keep|
    ensures |r| == |rows| && forall k :: 0 <= k < |rows| ==> r[k] == MaskedUpTo(rows[k], keep, i)
  {
    seq(|rows|, k requires 0 <= k < |rows| => MaskedUpTo(rows[k], keep, i))
  }

  /** Masking one more column of every row, as deleting that column where it now stands. */
  lemma MaskedRowsUpToStep(rows: seq<Row>, keep: seq<bool>, i: nat)
    requires AllRowsHaveLength(rows, |keep|) && i < |keep|
    ensures forall r :: 0 <= r < |rows| ==> CountTrue(keep[..i]) < |MaskedRowsUpTo(rows, keep, i)[r]|
    ensures keep[i] ==> MaskedRowsUpTo(rows, keep, i + 1) == MaskedRowsUpTo(rows, keep, i)
    ensures !keep[i] ==> MaskedRowsUpTo(rows, keep, i + 1) == DeleteInRows(MaskedRowsUpTo(rows, keep, i), CountTrue(keep[..i]))
  {
    forall r | 0 <= r < |rows|
      ensures CountTrue(keep[..i]) < |MaskedUpTo(rows[r], keep, i)|
      ensures keep[i] ==> MaskedUpTo(rows[r], keep, i + 1) == MaskedUpTo(rows[r], keep, i)
      ensures !keep[i] ==> MaskedUpTo(rows[r], keep, i + 1) == DeleteAt(MaskedUpTo(rows[r], keep, i), CountTrue(keep[..i]))
    {
      MaskLength(rows[r][..i], keep[..i]);
      MaskedUpToStep(rows[r], keep, i);
    }
  }

  lemma MaskedRowsUpToAll(rows: seq<Row>, keep: seq<bool>)
    requires AllRowsHaveLength(rows, |keep|)
    ensures MaskedRowsUpTo(rows, keep, |keep|) == MaskRows(rows, keep)
  {
    forall r | 0 <= r < |rows|
      ensures MaskedUpTo(rows[r], keep, |keep|) == Mask(rows[r], keep)
    {
      MaskedUpToAll(rows[r], keep);
    }
  }

  lemma MaskedRowsUpToNone(rows: seq<Row>, keep: seq<bool>)
    requires AllRowsHaveLength(rows, |keep|)
    ensures MaskedRowsUpTo(rows, keep, 0) == rows
  {
    forall r | 0 <= r < |rows|
      ensures MaskedUpTo(rows[r], keep, 0) == rows[r]
    {
      assert rows[r][0..] == rows[r];
    }
  }

  function PermuteRows(rows: seq<Row>, p: seq<nat>, n: nat): (r: seq<Row>)
    requires AllRowsHaveLength(rows, n) && forall k :: 0 <= k < |p| ==> p[k] < n
    ensures |r| == |rows| && forall i :: 0 <= i < |rows| ==> r[i] == Permute(rows[i], p)
  {
    seq(|rows|, i requires 0 <= i < |rows| => Permute(rows[i], p))
  }

  /** Moving a column of every permuted row is permuting every row by the moved permutation. */
  lemma MovePermuteRows(rows: seq<Row>, p: seq<nat>, n: nat, from: nat, to: nat)
    requires AllRowsHaveLength(rows, n) && forall k :: 0 <= k < |p| ==> p[k] < n
    requires from < |p| && to < |p|
    ensures forall k :: 0 <= k < |p| ==> Move(p, from, to)[k] < n
    ensures MoveInRows(PermuteRows(rows, p, n), from, to) == PermuteRows(rows, Move(p, from, to), n)
  {
    MoveAt(p, from, to, 0);
    forall k | 0 <= k < |p|
      ensures Move(p, from, to)[k] < n
    {
      MoveAt(p, from, to, k);
    }
    forall r | 0 <= r < |rows|
      ensures Move(Permute(rows[r], p), from, to) == Permute(rows[r], Move(p, from, to))
    {
      MovePermute(rows[r], p, from, to);
    }
  }

  lemma PermuteRowsIota(rows: seq<Row>, n: nat)
    requires AllRowsHaveLength(rows, n)
    ensures PermuteRows(rows, Iota(n), n) == rows
  {
    forall r | 0 <= r < |rows|
      ensures Permute(rows[r], Iota(n)) == rows[r]
    {
      PermuteIota(rows[r]);
    }
  }

  lemma {:induction false} MaskFits(row: Row, cols: seq<Column>, keep: seq<bool>)
    requires RowFits(row, cols) && |keep| == |cols|
    ensures RowFits(Mask(row, keep), Mask(cols, keep))
  {
    if cols != [] {
      var n := |cols| - 1;
      assert RowFits(row[..n], cols[..n]);
      MaskFits(row[..n], cols[..n], keep[..n]);
    }
  }

  lemma MoveFits(row: Row, cols: seq<Column>, from: nat, to: nat)
    requires RowFits(row, cols) && from < |cols| && to < |cols|
    ensures RowFits(Move(row, from, to), Move(cols, from, to))
  {
    forall k | 0 <= k < |cols|
      ensures HasType(Move(row, from, to)[k], Move(cols, from, to)[k].colType)
    {
      MoveAt(row, from, to, k);
      MoveAt(cols, from, to, k);
    }
    MoveAt(row, from, to, 0);
    MoveAt(cols, from, to, 0);
  }

  class ResultSet {
    var columns: seq<Column>
    var rows: seq<Row>
    /** The resultset_applyFunction calls made so far, in order. */
    var applied: seq<Application>

    ghost predicate Valid()
      reads this
    {
      forall r :: 0 <= r < |rows| ==> RowFits(rows[r], columns)
    }

    /** resultset_create */
    constructor ()
      ensures Valid() && columns == [] && rows == [] && applied == []
    {
      columns := [];
      rows := [];
      applied := [];
    }

    /** resultset_insertColumn: the new column takes position pos; rows get a default value there. */
    method InsertColumn(pos: int, tableName: string, colName: string, func: Func, colType: ColType)
      returns (colPos: int)
      requires Valid() && 1 <= pos <= |columns| + 1
      modifies this
      ensures Valid() && colPos == pos && applied == old(applied)
      ensures columns == InsertAt(old(columns), pos - 1, Column(tableName, colName, func, colType))
      ensures rows == InsertInRows(old(rows), pos - 1, Default(colType))
    {
      var c := Column(tableName, colName, func, colType);
      forall r | 0 <= r < |rows|
        ensures RowFits(InsertAt(rows[r], pos - 1, Default(colType)), InsertAt(columns, pos - 1, c))
      {
      }
      rows := InsertInRows(rows, pos - 1, Default(colType));
      columns := InsertAt(columns, pos - 1, c);
      colPos := pos;
    }

    /** resultset_addRow: appends a row of default values and returns its position. */
    method AddRow() returns (rowPos: int)
      requires Valid()
      modifies this
      ensures Valid() && columns == old(columns) && applied == old(applied)
      ensures rows == old(rows) + [DefaultRow(columns)] && rowPos == |rows|
    {
      rows := rows + [DefaultRow(columns)];
      rowPos := |rows|;
    }

    /** resultset_putInt, resultset_putReal, resultset_putString: overwrite one cell. */
    method PutInt(rowPos: int, colPos: int, v: int)
      requires Valid() && 1 <= rowPos <= |rows| && 1 <= colPos <= |columns|
      requires columns[colPos - 1].colType == IntType
      modifies this
      ensures Valid() && columns == old(columns) && applied == old(applied)
      ensures rows == old(rows)[rowPos - 1 := old(rows)[rowPos - 1][colPos - 1 := Int(v)]]
    {
      rows := rows[rowPos - 1 := rows[rowPos - 1][colPos - 1 := Int(v)]];
    }

    method PutReal(rowPos: int, colPos: int, v: real)
      requires Valid() && 1 <= rowPos <= |rows| && 1 <= colPos <= |columns|
      requires columns[colPos - 1].colType == RealType
      modifies this
      ensures Valid() && columns == old(columns) && applied == old(applied)
      ensures rows == old(rows)[rowPos - 1 := old(rows)[rowPos - 1][colPos - 1 := Real(v)]]
    {
      rows := rows[rowPos - 1 := rows[rowPos - 1][colPos - 1 := Real(v)]];
    }

    method PutString(rowPos: int, colPos: int, v: string)
      requires Valid() && 1 <= rowPos <= |rows| && 1 <= colPos <= |columns|
      requires columns[colPos - 1].colType == StrType
      modifies this
      ensures Valid() && columns == old(columns) && applied == old(applied)
      ensures rows == old(rows)[rowPos - 1 := old(rows)[rowPos - 1][colPos - 1 := Str(v)]]
    {
      rows := rows[rowPos - 1 := rows[rowPos - 1][colPos - 1 := Str(v)]];
    }

    /** resultset_getInt, resultset_getReal, resultset_getString: read one cell of the stated type. */
    method GetInt(rowPos: int, colPos: int) returns (v: int)
      requires Valid() && 1 <= rowPos <= |rows| && 1 <= colPos <= |columns|
      requires columns[colPos - 1].colType == IntType
      ensures rows[rowPos - 1][colPos - 1] == Int(v)
    {
      v := rows[rowPos - 1][colPos - 1].i;
    }

    method GetReal(rowPos: int, colPos: int) returns (v: real)
      requires Valid() && 1 <= rowPos <= |rows| && 1 <= colPos <= |columns|
      requires columns[colPos - 1].colType == RealType
      ensures rows[rowPos - 1][colPos - 1] == Real(v)
    {
      v := rows[rowPos - 1][colPos - 1].r;
    }

    method GetString(rowPos: int, colPos: int) returns (v: string)
      requires Valid() && 1 <= rowPos <= |rows| && 1 <= colPos <= |columns|
      requires columns[colPos - 1].colType == StrType
      ensures rows[rowPos - 1][colPos - 1] == Str(v)
    {
      v := rows[rowPos - 1][colPos - 1].s;
    }

    /** resultset_findColumn: a left-to-right search from startPos. */
    method FindColumn(startPos: int, tableName: string, colName: string) returns (colPos: int)
      requires startPos >= 1
      ensures colPos == ColumnPosition(columns, startPos, tableName, colName)
    {
      var p := startPos;
      while p <= |columns|
        invariant startPos <= p && (p <= |columns| + 1 || p == startPos)
        invariant ColumnPosition(columns, p, tableName, colName) == ColumnPosition(columns, startPos, tableName, colName)
      {
        if Identifies(columns[p - 1], tableName, colName) {
          return p;
        }
        p := p + 1;
      }
      colPos := -1;
    }

    /** resultset_deleteRow: later rows move up by one. */
    method DeleteRow(rowPos: int)
      requires Valid() && 1 <= rowPos <= |rows|
      modifies this
      ensures Valid() && columns == old(columns) && applied == old(applied)
      ensures rows == DeleteAt(old(rows), rowPos - 1)
    {
      rows := DeleteAt(rows, rowPos - 1);
    }

    /** resultset_deleteColumn: the column and its value in every row go; later columns move left. */
    method DeleteColumn(colPos: int)
      requires Valid() && 1 <= colPos <= |columns|
      modifies this
      ensures Valid() && applied == old(applied)
      ensures columns == DeleteAt(old(columns), colPos - 1)
      ensures rows == DeleteInRows(old(rows), colPos - 1)
    {
      rows := DeleteInRows(rows, colPos - 1);
      columns := DeleteAt(columns, colPos - 1);
    }

    /** resultset_moveColumn: the column at fromPos is taken out and reinserted at toPos. */
    method MoveColumn(fromPos: int, toPos: int)
      requires Valid() && 1 <= fromPos <= |columns| && 1 <= toPos <= |columns|
      modifies this
      ensures Valid() && applied == old(applied)
      ensures columns == Move(old(columns), fromPos - 1, toPos - 1)
      ensures rows == MoveInRows(old(rows), fromPos - 1, toPos - 1)
    {
      forall r | 0 <= r < |rows|
        ensures RowFits(Move(rows[r], fromPos - 1, toPos - 1), Move(columns, fromPos - 1, toPos - 1))
      {
        MoveFits(rows[r], columns, fromPos - 1, toPos - 1);
      }
      rows := MoveInRows(rows, fromPos - 1, toPos - 1);
      columns := Move(columns, fromPos - 1, toPos - 1);
    }

    /**
     * resultset_applyFunction. What the function does to the column's cells
     * (an aggregate may collapse the rows) is up to the container and is not
     * modelled: the contract promises only that the call is recorded, that
     * the number of columns stays, and that the result set stays well typed.
     */
    method ApplyFunction(func: Func, colPos: int)
      requires Valid() && 1 <= colPos <= |columns|
      modifies this
      ensures Valid() && |columns| == |old(columns)|
      ensures applied == old(applied) + [Application(func, colPos)]
    {
      applied := applied + [Application(func, colPos)];
    }
  }
}
