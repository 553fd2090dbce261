/**
 * The WHERE clause as the executor applies it (check_where and its three
 * compare-and-delete helpers): which comparison a literal and a column type
 * select, which rows survive it, and what is left of the rows afterwards.
 */
module Filters {
  import opened Wrappers
  import opened Values
  import opened Sequences
  import opened Ast
  import opened ResultSets

  /**
   * Does a row survive operator op, given how its value compared with the
   * literal? op indexes {<, <=, >, >=, ==, !=} as 0 .. 5. A code outside
   * 0 .. 5 falls through every case of the switch, so the row stays.
   */
  predicate Satisfies(op: int, c: Ord)
  {
    if op == 0 then c == Lt
    else if op == 1 then c != Gt
    else if op == 2 then c == Gt
    else if op == 3 then c != Lt
    else if op == 4 then c == Eq
    else if op == 5 then c != Eq
    else true
  }

  /** How check_where compares the rows with the literal. */
  datatype Comparison = AsInt | AsReal | AsStr | NoComparison

  /**
   * The dispatch on the literal's kind and the declared type of the WHERE
   * column; colType is None when no column of the result set carries the
   * WHERE column's name.
   */
  function Coercion(kind: LitKind, colType: Option<ColType>): (c: Comparison)
    ensures c == AsInt <==> kind == IntLit && colType == Some(IntType)
    ensures c == AsReal <==> kind == RealLit || (kind == IntLit && colType == Some(RealType))
    ensures c == AsStr <==> kind == StrLit
    ensures c == NoComparison <==> kind == IntLit && colType != Some(IntType) && colType != Some(RealType)
  {
    match kind
    case IntLit =>
      if colType == Some(IntType) then AsInt
      else if colType == Some(RealType) then AsReal
      else NoComparison
    case RealLit => AsReal
    case StrLit => AsStr
  }

  /** The declared type of the column at a 1-based position, None when the position is not a column. */
  function ColumnTypeAt(cols: seq<Column>, pos: int): (t: Option<ColType>)
    ensures t.Some? <==> 1 <= pos <= |cols|
    ensures t.Some? ==> t.value == cols[pos - 1].colType
  {
    if 1 <= pos <= |cols| then Some(cols[pos - 1].colType) else None
  }

  /** The test every row goes through: which operator, at which column position, against which literal. */
  datatype Condition =
    | KeepAll
    | IntTest(op: int, pos: int, intLit: int)
    | RealTest(op: int, pos: int, realLit: real)
    | StrTest(op: int, pos: int, strLit: string)

  /** The row holds a value of the compared kind at the tested position. */
  predicate Fits(c: Condition, row: Row)
  {
    match c
    case KeepAll => true
    case IntTest(_, p, _) => 1 <= p <= |row| && row[p - 1].Int?
    case RealTest(_, p, _) => 1 <= p <= |row| && row[p - 1].Real?
    case StrTest(_, p, _) => 1 <= p <= |row| && row[p - 1].Str?
  }

  /** Every row of the table reads as the condition's kind at its position. */
  predicate ColumnsFit(c: Condition, cols: seq<Column>)
  {
    match c
    case KeepAll => true
    case IntTest(_, p, _) => ColumnTypeAt(cols, p) == Some(IntType)
    case RealTest(_, p, _) => ColumnTypeAt(cols, p) == Some(RealType)
    case StrTest(_, p, _) => ColumnTypeAt(cols, p) == Some(StrType)
  }

  predicate Survives(c: Condition, row: Row)
    requires Fits(c, row)
  {
    match c
    case KeepAll => true
    case IntTest(op, p, lit) => Satisfies(op, CompareInt(row[p - 1].i, lit))
    case RealTest(op, p, lit) => Satisfies(op, CompareReal(row[p - 1].r, lit))
    case StrTest(op, p, lit) => Satisfies(op, StrCmp(row[p - 1].s, lit))
  }

  /** One flag per row: does it survive? */
  function Survivors(rows: seq<Row>, c: Condition): (keep: seq<bool>)
    requires forall r | r in rows :: Fits(c, r)
    ensures |keep| == |rows| && forall k :: 0 <= k < |rows| ==> keep[k] == Survives(c, rows[k])
  {
    seq(|rows|, k requires 0 <= k < |rows| => Survives(c, rows[k]))
  }

  /** The rows that survive the condition, in their original order. */
  function KeepRows(rows: seq<Row>, c: Condition): (r: seq<Row>)
    requires forall r | r in rows :: Fits(c, r)
    ensures |r| <= |rows|
  {
    Mask(rows, Survivors(rows, c))
  }

  /** Columns whose types fit the condition make every well-typed row fit it. */
  lemma ColumnsFitRows(c: Condition, cols: seq<Column>, rows: seq<Row>)
    requires ColumnsFit(c, cols) && forall k :: 0 <= k < |rows| ==> RowFits(rows[k], cols)
    ensures forall r | r in rows :: Fits(c, r)
  {
    forall r | r in rows
      ensures Fits(c, r)
    {
      var k :| 0 <= k < |rows| && rows[k] == r;
      assert RowFits(rows[k], cols);
    }
  }

  /** A row is kept exactly when it was there and survives the test. */
  lemma KeepRowsMembers(rows: seq<Row>, c: Condition, x: Row)
    requires forall r | r in rows :: Fits(c, r)
    ensures x in KeepRows(rows, c) <==> x in rows && Survives(c, x)
  {
    MaskMembers(rows, Survivors(rows, c), x);
  }

  /** Filtering commutes with concatenation: the kept rows keep their relative order. */
  lemma KeepRowsAppend(a: seq<Row>, b: seq<Row>, c: Condition)
    requires forall r | r in a + b :: Fits(c, r)
    ensures KeepRows(a + b, c) == KeepRows(a, c) + KeepRows(b, c)
  {
    assert Survivors(a + b, c) == Survivors(a, c) + Survivors(b, c);
    MaskAppend(a, Survivors(a, c), b, Survivors(b, c));
  }

  /** What is left from row i on: row i if it survives, then what is left after it. */
  lemma KeepRowsFrom(rows: seq<Row>, c: Condition, i: nat)
    requires forall r | r in rows :: Fits(c, r)
    requires i < |rows|
    ensures KeepRows(rows[i..], c) == (if Survives(c, rows[i]) then [rows[i]] else []) + KeepRows(rows[i + 1..], c)
  {
    var keep := Survivors(rows, c);
    assert Survivors(rows[i..], c) == keep[i..];
    assert Survivors(rows[i + 1..], c) == keep[i + 1..];
    MaskFrom(rows, keep, i);
  }

  /**
   * One step of a scan from the last row down: with rows i+1 .. n already
   * filtered (1-based), keeping or deleting row i according to its own test
   * leaves rows i .. n filtered and rows 1 .. i-1 untouched.
   */
  lemma KeepRowsDescend(rows: seq<Row>, c: Condition, i: nat)
    requires forall r | r in rows :: Fits(c, r)
    requires 1 <= i <= |rows|
    ensures i - 1 < |rows[..i] + KeepRows(rows[i..], c)| && (rows[..i] + KeepRows(rows[i..], c))[i - 1] == rows[i - 1]
    ensures Survives(c, rows[i - 1]) ==>
      rows[..i] + KeepRows(rows[i..], c) == rows[..i - 1] + KeepRows(rows[i - 1..], c)
    ensures !Survives(c, rows[i - 1]) ==>
      DeleteAt(rows[..i] + KeepRows(rows[i..], c), i - 1) == rows[..i - 1] + KeepRows(rows[i - 1..], c)
  {
    KeepRowsFrom(rows, c, i - 1);
    assert rows[..i] == rows[..i - 1] + [rows[i - 1]];
  }

  /** Filtering twice with the same condition is filtering once. */
  lemma KeepRowsIdempotent(rows: seq<Row>, c: Condition)
    requires forall r | r in rows :: Fits(c, r)
    ensures forall r | r in KeepRows(rows, c) :: Fits(c, r)
    ensures KeepRows(KeepRows(rows, c), c) == KeepRows(rows, c)
  {
    var kept := KeepRows(rows, c);
    forall r | r in kept
      ensures Fits(c, r) && Survives(c, r)
    {
      KeepRowsMembers(rows, c, r);
    }
    MaskAll(kept, Survivors(kept, c));
  }

  /** Without a test every row stays. */
  lemma KeepRowsKeepAll(rows: seq<Row>)
    ensures KeepRows(rows, KeepAll) == rows
  {
    MaskAll(rows, Survivors(rows, KeepAll));
  }

  /**
   * The test check_where puts the rows through. The WHERE column is looked
   * up by the query's table name and the column's name, from position 1;
   * an integer literal compared as an integer is truncated from atof of its
   * text, any other literal compared as a real is atof of its text.
   */
  function WhereCondition(select: Select, cols: seq<Column>, atof: string -> real): Condition
  {
    match select.where
    case None => KeepAll
    case Some(w) =>
      var pos := ColumnPosition(cols, 1, select.table, w.column);
      TestFor(w, pos, ColumnTypeAt(cols, pos), atof)
  }

  /** The test a WHERE clause puts the rows through, given the position and declared type of its column. */
  function TestFor(w: Where, pos: int, colType: Option<ColType>, atof: string -> real): Condition
  {
    match Coercion(w.kind, colType)
    case AsInt => IntTest(w.op, pos, Trunc(atof(w.value)))
    case AsReal => RealTest(w.op, pos, atof(w.value))
    case AsStr => StrTest(w.op, pos, w.value)
    case NoComparison => KeepAll
  }

  /**
   * Which WHERE clauses the helpers can read: an integer literal always,
   * a real literal only on a REAL column, a string literal only on a STRING
   * column, and nothing at all without a WHERE clause.
   */
  lemma WhereConditionFits(select: Select, cols: seq<Column>, atof: string -> real)
    ensures ColumnsFit(WhereCondition(select, cols, atof), cols) <==>
      match select.where
      case None => true
      case Some(w) =>
        var t := ColumnTypeAt(cols, ColumnPosition(cols, 1, select.table, w.column));
        match w.kind
        case IntLit => true
        case RealLit => t == Some(RealType)
        case StrLit => t == Some(StrType)
  {
  }
}
