/**
 * The SELECT executor (execute.c): it finds the table, builds a result set
 * with one column per catalog column, decodes every record of the table's
 * data file into a row, and then reshapes the result set stage by stage:
 * WHERE filter, projection onto the requested columns, reordering into
 * query order, function calls, and LIMIT. Every stage works in place on the
 * result set through the resultset_* calls.
 */
module Execute {
  import opened Wrappers
  import opened Values
  import opened Names
  import opened CText
  import opened Sequences
  import opened Records
  import opened Ast
  import opened ResultSets
  import opened Filters
  import opened Projection

  /** The table resolver: the first table whose name equals the query's, ignoring case. */
  method FindTable(db: Database, name: string) returns (t: Option<nat>)
    ensures t.Some? ==> t.value < |db.tables| && EqualsIgnoreCase(db.tables[t.value].name, name)
    ensures t.Some? ==> forall k :: 0 <= k < t.value ==> !EqualsIgnoreCase(db.tables[k].name, name)
    ensures t.None? ==> forall k :: 0 <= k < |db.tables| ==> !EqualsIgnoreCase(db.tables[k].name, name)
  {
    var k := 0;
    while k < |db.tables|
      invariant 0 <= k <= |db.tables|
      invariant forall j :: 0 <= j < k ==> !EqualsIgnoreCase(db.tables[j].name, name)
    {
      if EqualsIgnoreCase(db.tables[k].name, name) {
        return Some(k);
      }
      k := k + 1;
    }
    t := None;
  }

  /** Table t is the first whose name equals the given one, ignoring case: the one the resolver picks. */
  predicate FirstTable(db: Database, name: string, t: nat)
  {
    t < |db.tables| && EqualsIgnoreCase(db.tables[t].name, name)
    && forall k :: 0 <= k < t ==> !EqualsIgnoreCase(db.tables[k].name, name)
  }

  /** A name picks at most one table, however many tables share it up to case. */
  lemma FirstTableUnique(db: Database, name: string, t1: nat, t2: nat)
    requires FirstTable(db, name, t1) && FirstTable(db, name, t2)
    ensures t1 == t2
  {
  }

  /** The data file of a table: a file named after the table, with extension .data, in the database's directory. */
  function DataFilePath(dbName: string, tableName: string): (path: string)
    ensures |path| == |dbName| + |tableName| + 6
    ensures path[..|dbName|] == dbName && path[|dbName|] == '/'
    ensures path[|dbName| + 1..|path| - 5] == tableName && path[|path| - 5..] == ".data"
  {
    dbName + "/" + tableName + ".data"
  }

  /** Different databases or tables never share a data file, as long as database names hold no '/'. */
  lemma DataFilePathInjective(db1: string, t1: string, db2: string, t2: string)
    requires '/' !in db1 && '/' !in db2
    requires DataFilePath(db1, t1) == DataFilePath(db2, t2)
    ensures db1 == db2 && t1 == t2
  {
    var p := DataFilePath(db1, t1);
    assert |db1| == |db2|;
    assert db1 == p[..|db1|] == db2;
  }

  /** The columns create_dataset builds for a table: its catalog columns in order, without functions. */
  function CatalogColumns(T: TableMeta): seq<Column>
  {
    seq(|T.columns|, k requires 0 <= k < |T.columns| => Column(T.name, T.columns[k].name, NoFunction, T.columns[k].colType))
  }

  /** create_dataset: an empty result set with one column per catalog column. */
  method CreateDataset(T: TableMeta) returns (rs: ResultSet)
    ensures fresh(rs) && rs.Valid() && rs.rows == [] && rs.applied == []
    ensures |rs.columns| == |T.columns|
    ensures forall k :: 0 <= k < |T.columns| ==>
      rs.columns[k] == Column(T.name, T.columns[k].name, NoFunction, T.columns[k].colType)
    ensures rs.columns == CatalogColumns(T)
  {
    rs := new ResultSet();
    var i := 0;
    while i < |T.columns|
      invariant 0 <= i <= |T.columns|
      invariant fresh(rs) && rs.Valid() && rs.rows == [] && rs.applied == []
      invariant rs.columns == CatalogColumns(T)[..i]
    {
      var column := T.columns[i];
      var pos := i + 1;
      var colPos := rs.InsertColumn(pos, T.name, column.name, NoFunction, column.colType);
      assert CatalogColumns(T)[..i + 1] == CatalogColumns(T)[..i] + [CatalogColumns(T)[i]];
      i := i + 1;
    }
  }

  /** The inner scanning loop of read_dataset: advance from `from` to the first byte c. */
  method SkipTo(buf: array<char>, from: nat, c: char) returns (end: nat)
    requires exists j :: from <= j < buf.Length && buf[j] == c
    ensures from <= end < buf.Length && buf[end] == c
    ensures forall k :: from <= k < end ==> buf[k] != c
  {
    end := from;
    while buf[end] != c
      invariant from <= end < buf.Length
      invariant forall k :: from <= k < end ==> buf[k] != c
      invariant exists j :: end <= j < buf.Length && buf[j] == c
      decreases buf.Length - end
    {
      end := end + 1;
    }
  }

  /** The result set's columns have the table's declared types, position by position. */
  predicate TypedAs(cols: seq<Column>, T: TableMeta)
  {
    |cols| == |T.columns| && forall k :: 0 <= k < |cols| ==> cols[k].colType == T.columns[k].colType
  }

  /**
   * One pass of read_dataset's column loop: decode the field of type t that
   * starts at cp (where end also points) into column col of the row at
   * rowPos, and return where cp and end point next. The byte that ends the
   * field is overwritten with a NUL so that the field reads as a C string.
   */
  method ReadField(rs: ResultSet, rowPos: int, col: nat, t: ColType, buf: array<char>, cp: nat,
                   ghost text: string, ghost sp: Span, atof: string -> real)
    returns (next: nat)
    requires rs.Valid() && 1 <= rowPos <= |rs.rows| && col < |rs.columns| && rs.columns[col].colType == t
    requires |text| == buf.Length && forall k :: cp <= k < buf.Length ==> buf[k] == text[k]
    requires ScanField(text, cp, t) == Some(sp)
    modifies rs, buf
    ensures rs.Valid() && rs.columns == old(rs.columns) && rs.applied == old(rs.applied)
    ensures rs.rows == old(rs.rows)[rowPos - 1 := old(rs.rows)[rowPos - 1][col := FieldValue(text, t, sp, atof)]]
    ensures next == sp.next
    ensures forall k :: 0 <= k < buf.Length ==> buf[k] == old(buf[k]) || (cp <= k < next && buf[k] == '\0')
  {
    if t == IntType {
      next := ReadIntField(rs, rowPos, col, buf, cp, text, sp);
    } else if t == RealType {
      next := ReadRealField(rs, rowPos, col, buf, cp, text, sp, atof);
    } else {
      next := ReadStringField(rs, rowPos, col, buf, cp, text, sp);
    }
  }

  /**
   * Advance from cp to the first byte c, the one FindFrom finds in the text,
   * and overwrite it with a NUL: the bytes from cp up to it are left as the
   * field's C string.
   */
  method Terminate(buf: array<char>, cp: nat, c: char, ghost text: string) returns (end: nat)
    requires |text| == buf.Length && forall k :: cp <= k < buf.Length ==> buf[k] == text[k]
    requires FindFrom(text, cp, c).Some?
    modifies buf
    ensures end == FindFrom(text, cp, c).value
    ensures buf[cp..end] == text[cp..end]
    ensures forall k :: 0 <= k < buf.Length ==> buf[k] == old(buf[k]) || (k == end && buf[k] == '\0')
  {
    ghost var stop := FindFrom(text, cp, c).value;
    assert buf[stop] == c;
    end := SkipTo(buf, cp, c);
    buf[end] := '\0';
    assert forall k :: cp <= k < end ==> buf[k] == text[k];
    assert buf[cp..end] == text[cp..end];
  }

  /** The INT branch: atoi of the bytes up to the next space; decoding resumes after the space. */
  method ReadIntField(rs: ResultSet, rowPos: int, col: nat, buf: array<char>, cp: nat,
                      ghost text: string, ghost sp: Span)
    returns (next: nat)
    requires rs.Valid() && 1 <= rowPos <= |rs.rows| && col < |rs.columns| && rs.columns[col].colType == IntType
    requires |text| == buf.Length && forall k :: cp <= k < buf.Length ==> buf[k] == text[k]
    requires ScanField(text, cp, IntType) == Some(sp)
    modifies rs, buf
    ensures rs.Valid() && rs.columns == old(rs.columns) && rs.applied == old(rs.applied)
    ensures rs.rows == old(rs.rows)[rowPos - 1 := old(rs.rows)[rowPos - 1][col := Int(Atoi(text[sp.start..sp.stop]))]]
    ensures next == sp.next
    ensures forall k :: 0 <= k < buf.Length ==> buf[k] == old(buf[k]) || (cp <= k < next && buf[k] == '\0')
  {
    var end := Terminate(buf, cp, ' ', text);
    var val := Atoi(buf[cp..end]);
    rs.PutInt(rowPos, col + 1, val);
    end := end + 1;
    next := end;
  }

  /** The REAL branch: atof of the bytes up to the next NUL; decoding resumes after the NUL. */
  method ReadRealField(rs: ResultSet, rowPos: int, col: nat, buf: array<char>, cp: nat,
                       ghost text: string, ghost sp: Span, atof: string -> real)
    returns (next: nat)
    requires rs.Valid() && 1 <= rowPos <= |rs.rows| && col < |rs.columns| && rs.columns[col].colType == RealType
    requires |text| == buf.Length && forall k :: cp <= k < buf.Length ==> buf[k] == text[k]
    requires ScanField(text, cp, RealType) == Some(sp)
    modifies rs, buf
    ensures rs.Valid() && rs.columns == old(rs.columns) && rs.applied == old(rs.applied)
    ensures rs.rows == old(rs.rows)[rowPos - 1 := old(rs.rows)[rowPos - 1][col := Real(atof(text[sp.start..sp.stop]))]]
    ensures next == sp.next
    ensures forall k :: 0 <= k < buf.Length ==> buf[k] == old(buf[k]) || (cp <= k < next && buf[k] == '\0')
  {
    var end := Terminate(buf, cp, '\0', text);
    var val := atof(buf[cp..end]);
    rs.PutReal(rowPos, col + 1, val);
    end := end + 1;
    next := end;
  }

  /**
   * Where the text of a STRING field lies: after an opening " or ', up to
   * the next quote of the same kind; a field with no opening quote is empty.
   */
  method FindQuoted(buf: array<char>, cp: nat, ghost text: string, ghost sp: Span) returns (start: nat, end: nat)
    requires |text| == buf.Length && forall k :: cp <= k < buf.Length ==> buf[k] == text[k]
    requires ScanField(text, cp, StrType) == Some(sp)
    ensures start == sp.start && end == sp.stop && sp.next == end + 2
  {
    start := cp;
    end := cp;
    if buf[end] == '"' {
      end := end + 1;
      start := end;
      assert buf[sp.stop] == '"';
      end := SkipTo(buf, end, '"');
    } else if buf[end] == '\'' {
      end := end + 1;
      start := end;
      assert buf[sp.stop] == '\'';
      end := SkipTo(buf, end, '\'');
    }
  }

  /**
   * The STRING branch: the C string between a " or ' and the next quote of
   * the same kind, or the empty string when the field starts with neither;
   * decoding resumes two bytes after the byte that ended the field.
   */
  method ReadStringField(rs: ResultSet, rowPos: int, col: nat, buf: array<char>, cp: nat,
                         ghost text: string, ghost sp: Span)
    returns (next: nat)
    requires rs.Valid() && 1 <= rowPos <= |rs.rows| && col < |rs.columns| && rs.columns[col].colType == StrType
    requires |text| == buf.Length && forall k :: cp <= k < buf.Length ==> buf[k] == text[k]
    requires ScanField(text, cp, StrType) == Some(sp)
    modifies rs, buf
    ensures rs.Valid() && rs.columns == old(rs.columns) && rs.applied == old(rs.applied)
    ensures rs.rows == old(rs.rows)[rowPos - 1 := old(rs.rows)[rowPos - 1][col := Str(CString(text[sp.start..sp.stop]))]]
    ensures next == sp.next
    ensures forall k :: 0 <= k < buf.Length ==> buf[k] == old(buf[k]) || (cp <= k < next && buf[k] == '\0')
  {
    var start, end := FindQuoted(buf, cp, text, sp);
    buf[end] := '\0';
    assert forall k :: start <= k < end ==> buf[k] == text[k];
    assert buf[start..end] == text[start..end];
    rs.PutString(rowPos, col + 1, CString(buf[start..end]));
    end := end + 2;
    next := end;
  }

  /**
   * read_dataset: append one row decoded from the record in buf, field by
   * field in catalog order. A record whose scan runs off the buffer is
   * outside the model.
   */
  method ReadDataset(rs: ResultSet, T: TableMeta, buf: array<char>, atof: string -> real)
    requires rs.Valid() && TypedAs(rs.columns, T)
    requires DecodeRecord(buf[..], Types(T), atof).Some?
    modifies rs, buf
    ensures rs.Valid() && rs.columns == old(rs.columns) && rs.applied == old(rs.applied)
    ensures rs.rows == old(rs.rows) + [DecodeRecord(old(buf[..]), Types(T), atof).value]
    ensures forall k :: 0 <= k < buf.Length ==> buf[k] == old(buf[k]) || buf[k] == '\0'
  {
    ghost var text := buf[..];
    ghost var ts := Types(T);
    ghost var sps := ScanFields(text, 0, ts).value;
    ghost var R0 := rs.rows;
    var rowPos := rs.AddRow();
    var cp: nat := 0;
    var i := 0;
    while i < |T.columns|
      invariant 0 <= i <= |T.columns| == |ts| == |sps| == |rs.columns|
      invariant ScanFields(text, cp, ts[i..]) == Some(sps[i..])
      invariant forall k :: cp <= k < buf.Length ==> buf[k] == text[k]
      invariant forall k :: 0 <= k < buf.Length ==> buf[k] == text[k] || buf[k] == '\0'
      invariant rs.Valid() && rs.columns == old(rs.columns) && rs.applied == old(rs.applied)
      invariant |rs.rows| == |R0| + 1 == rowPos && rs.rows[..|R0|] == R0
      invariant forall k :: 0 <= k < i ==> rs.rows[|R0|][k] == FieldValue(text, ts[k], sps[k], atof)
    {
      ScanFieldsAt(text, cp, ts, sps, i);
      cp := ReadField(rs, rowPos, i, T.columns[i].colType, buf, cp, text, sps[i], atof);
      i := i + 1;
    }
    assert RowFits(rs.rows[|R0|], rs.columns);
    AppendedRecord(rs.rows, R0, text, ts, sps, atof);
  }

  /** Rows that extend R0 by one row holding the decoded fields are R0 plus the decoded record. */
  lemma AppendedRecord(rows: seq<Row>, R0: seq<Row>, text: string, ts: seq<ColType>, sps: seq<Span>, atof: string -> real)
    requires |sps| == |ts| && forall k :: 0 <= k < |ts| ==> sps[k].start <= sps[k].stop <= |text|
    requires |rows| == |R0| + 1 && rows[..|R0|] == R0 && |rows[|R0|]| == |ts|
    requires forall k :: 0 <= k < |ts| ==> rows[|R0|][k] == FieldValue(text, ts[k], sps[k], atof)
    ensures rows == R0 + [FieldValues(text, ts, sps, atof)]
  {
    var row := rows[|R0|];
    forall k | 0 <= k < |ts|
      ensures row[k] == FieldValues(text, ts, sps, atof)[k]
    {
      FieldValuesAt(text, ts, sps, atof, k);
    }
    assert row == FieldValues(text, ts, sps, atof);
    assert rows == rows[..|R0|] + [row];
  }

  /**
   * ints_filter_where: compare the integer at row i, column pos with the
   * literal truncated from atof of its text, and delete the row when the
   * operator's test fails.
   */
  method IntsFilterWhere(rs: ResultSet, w: Where, pos: int, i: int, atof: string -> real)
    requires rs.Valid() && 1 <= i <= |rs.rows| && 1 <= pos <= |rs.columns|
    requires rs.columns[pos - 1].colType == IntType
    modifies rs
    ensures rs.Valid() && rs.columns == old(rs.columns) && rs.applied == old(rs.applied)
    ensures old(rs.rows)[i - 1][pos - 1].Int?
    ensures rs.rows == if Satisfies(w.op, CompareInt(old(rs.rows)[i - 1][pos - 1].i, Trunc(atof(w.value))))
                       then old(rs.rows) else DeleteAt(old(rs.rows), i - 1)
  {
    var rowVal := rs.GetInt(i, pos);
    var whereVal := Trunc(atof(w.value));
    if w.op == 0 {
      if rowVal >= whereVal { rs.DeleteRow(i); }
    } else if w.op == 1 {
      if rowVal > whereVal { rs.DeleteRow(i); }
    } else if w.op == 2 {
      if rowVal <= whereVal { rs.DeleteRow(i); }
    } else if w.op == 3 {
      if rowVal < whereVal { rs.DeleteRow(i); }
    } else if w.op == 4 {
      if rowVal != whereVal { rs.DeleteRow(i); }
    } else if w.op == 5 {
      if rowVal == whereVal { rs.DeleteRow(i); }
    }
  }

  /** filter_reals_where: the same test on the real at row i, column pos, against atof of the literal. */
  method FilterRealsWhere(rs: ResultSet, w: Where, pos: int, i: int, atof: string -> real)
    requires rs.Valid() && 1 <= i <= |rs.rows| && 1 <= pos <= |rs.columns|
    requires rs.columns[pos - 1].colType == RealType
    modifies rs
    ensures rs.Valid() && rs.columns == old(rs.columns) && rs.applied == old(rs.applied)
    ensures old(rs.rows)[i - 1][pos - 1].Real?
    ensures rs.rows == if Satisfies(w.op, CompareReal(old(rs.rows)[i - 1][pos - 1].r, atof(w.value)))
                       then old(rs.rows) else DeleteAt(old(rs.rows), i - 1)
  {
    var rowVal := rs.GetReal(i, pos);
    var whereVal := atof(w.value);
    if w.op == 0 {
      if rowVal >= whereVal { rs.DeleteRow(i); }
    } else if w.op == 1 {
      if rowVal > whereVal { rs.DeleteRow(i); }
    } else if w.op == 2 {
      if rowVal <= whereVal { rs.DeleteRow(i); }
    } else if w.op == 3 {
      if rowVal < whereVal { rs.DeleteRow(i); }
    } else if w.op == 4 {
      if rowVal != whereVal { rs.DeleteRow(i); }
    } else if w.op == 5 {
      if rowVal == whereVal { rs.DeleteRow(i); }
    }
  }

  /** strings_filter_where: the same test on the sign of strcmp of the string at row i, column pos, and the literal's text. */
  method StringsFilterWhere(rs: ResultSet, w: Where, pos: int, i: int)
    requires rs.Valid() && 1 <= i <= |rs.rows| && 1 <= pos <= |rs.columns|
    requires rs.columns[pos - 1].colType == StrType
    modifies rs
    ensures rs.Valid() && rs.columns == old(rs.columns) && rs.applied == old(rs.applied)
    ensures old(rs.rows)[i - 1][pos - 1].Str?
    ensures rs.rows == if Satisfies(w.op, StrCmp(old(rs.rows)[i - 1][pos - 1].s, w.value))
                       then old(rs.rows) else DeleteAt(old(rs.rows), i - 1)
  {
    var rowVal := rs.GetString(i, pos);
    var comp := StrCmp(rowVal, w.value);
    if w.op == 0 {
      if comp == Gt || comp == Eq { rs.DeleteRow(i); }
    } else if w.op == 1 {
      if comp == Gt { rs.DeleteRow(i); }
    } else if w.op == 2 {
      if comp == Lt || comp == Eq { rs.DeleteRow(i); }
    } else if w.op == 3 {
      if comp == Lt { rs.DeleteRow(i); }
    } else if w.op == 4 {
      if comp != Eq { rs.DeleteRow(i); }
    } else if w.op == 5 {
      if comp == Eq { rs.DeleteRow(i); }
    }
  }

  /** check_where's walk along the columns to the WHERE column: its declared type, or None (-1) when there is none at that position. */
  method ColumnTypeOf(rs: ResultSet, whereColIndex: int) returns (curColType: Option<ColType>)
    ensures curColType == ColumnTypeAt(rs.columns, whereColIndex)
  {
    curColType := None;
    var i := 1;
    while i <= |rs.columns|
      invariant 1 <= i <= |rs.columns| + 1
      invariant curColType == None && !(1 <= whereColIndex < i)
    {
      if whereColIndex == i {
        curColType := Some(rs.columns[i - 1].colType);
        break;
      }
      i := i + 1;
    }
  }

  /**
   * The body of check_where's row loop for row i: the helper that the
   * literal's kind and the column's type select tests row i and deletes it
   * if it fails. Rows after i are already filtered, so afterwards rows i
   * onwards are.
   */
  method FilterRow(rs: ResultSet, w: Where, whereColIndex: int, curColType: Option<ColType>, i: int,
                   atof: string -> real, ghost c: Condition, ghost R0: seq<Row>)
    requires rs.Valid() && curColType == ColumnTypeAt(rs.columns, whereColIndex)
    requires c == TestFor(w, whereColIndex, curColType, atof) && ColumnsFit(c, rs.columns)
    requires forall r | r in R0 :: Fits(c, r)
    requires 1 <= i <= |R0| && rs.rows == R0[..i] + KeepRows(R0[i..], c)
    modifies rs
    ensures rs.Valid() && rs.columns == old(rs.columns) && rs.applied == old(rs.applied)
    ensures rs.rows == R0[..i - 1] + KeepRows(R0[i - 1..], c)
  {
    KeepRowsDescend(R0, c, i);
    var litType := w.kind;
    if litType == IntLit && curColType == Some(IntType) {
      IntsFilterWhere(rs, w, whereColIndex, i, atof);
    } else if litType == RealLit || (litType == IntLit && curColType == Some(RealType)) {
      FilterRealsWhere(rs, w, whereColIndex, i, atof);
    } else if litType == StrLit {
      StringsFilterWhere(rs, w, whereColIndex, i);
    }
  }

  /**
   * check_where's row loop: visit the rows from the last to the first, each
   * through the helper that the literal's kind and the column's type select.
   * Deleting row i leaves rows 1 .. i-1 where they were, so each original
   * row is tested once, against its own value, and the survivors keep their
   * order.
   */
  method FilterRows(rs: ResultSet, w: Where, whereColIndex: int, curColType: Option<ColType>,
                    atof: string -> real, ghost c: Condition)
    requires rs.Valid() && curColType == ColumnTypeAt(rs.columns, whereColIndex)
    requires c == TestFor(w, whereColIndex, curColType, atof)
    requires rs.rows != [] ==> ColumnsFit(c, rs.columns)
    modifies rs
    ensures rs.Valid() && rs.columns == old(rs.columns) && rs.applied == old(rs.applied)
    ensures forall r | r in old(rs.rows) :: Fits(c, r)
    ensures rs.rows == KeepRows(old(rs.rows), c)
  {
    ghost var R0 := rs.rows;
    if R0 != [] {
      ColumnsFitRows(c, rs.columns, R0);
    }
    var i := |rs.rows|;
    while i >= 1
      invariant 0 <= i <= |R0|
      invariant rs.Valid() && rs.columns == old(rs.columns) && rs.applied == old(rs.applied)
      invariant rs.rows == R0[..i] + KeepRows(R0[i..], c)
    {
      FilterRow(rs, w, whereColIndex, curColType, i, atof, c, R0);
      i := i - 1;
    }
    assert R0[0..] == R0;
  }

  /**
   * check_where: with a WHERE clause, find its column and that column's
   * declared type, then filter the rows; without one, leave them all.
   */
  method CheckWhere(select: Select, rs: ResultSet, atof: string -> real)
    requires rs.Valid()
    requires rs.rows != [] ==> ColumnsFit(WhereCondition(select, rs.columns, atof), rs.columns)
    modifies rs
    ensures rs.Valid() && rs.columns == old(rs.columns) && rs.applied == old(rs.applied)
    ensures forall r | r in old(rs.rows) :: Fits(WhereCondition(select, old(rs.columns), atof), r)
    ensures rs.rows == KeepRows(old(rs.rows), WhereCondition(select, old(rs.columns), atof))
  {
    if select.where.Some? {
      var w := select.where.value;
      var whereColIndex := rs.FindColumn(1, select.table, w.column);
      var curColType := ColumnTypeOf(rs, whereColIndex);
      FilterRows(rs, w, whereColIndex, curColType, atof, WhereCondition(select, rs.columns, atof));
    } else {
      KeepRowsKeepAll(rs.rows);
    }
  }

  /** The inner loop of filter_col: is the name requested, compared with strcasecmp? */
  method InRequest(req: seq<RequestedColumn>, name: string) returns (inAst: bool)
    ensures inAst == Requested(req, name)
  {
    inAst := false;
    var j := 0;
    while j < |req|
      invariant 0 <= j <= |req|
      invariant inAst == exists k :: 0 <= k < j && EqualsIgnoreCase(name, req[k].name)
    {
      if EqualsIgnoreCase(name, req[j].name) {
        inAst := true;
      }
      j := j + 1;
    }
  }

  /** No two catalog columns have names that differ only in case. */
  predicate DistinctNames(T: TableMeta)
  {
    forall k1, k2 :: 0 <= k1 < k2 < |T.columns| ==> !EqualsIgnoreCase(T.columns[k1].name, T.columns[k2].name)
  }

  /**
   * While filter_col runs, a catalog column it is to delete is found where
   * the columns not yet visited begin: every column kept before it was
   * requested, so its name differs from the unrequested one even ignoring case.
   */
  lemma FindsCatalogColumn(T: TableMeta, req: seq<RequestedColumn>, keep: seq<bool>, i: nat)
    requires keep == Wanted(CatalogColumns(T), req) && i < |T.columns| && !keep[i]
    ensures ColumnPosition(MaskedUpTo(CatalogColumns(T), keep, i), 1, T.name, T.columns[i].name) == CountTrue(keep[..i]) + 1
  {
    var C0 := CatalogColumns(T);
    var cols := MaskedUpTo(C0, keep, i);
    var m := CountTrue(keep[..i]);
    MaskLength(C0[..i], keep[..i]);
    MaskedUpToStep(C0, keep, i);
    EqualsIgnoreCaseReflexive(T.name);
    EqualsIgnoreCaseReflexive(T.columns[i].name);
    assert Identifies(cols[m], T.name, T.columns[i].name);
    forall k | 0 <= k < m
      ensures !Identifies(cols[k], T.name, T.columns[i].name)
    {
      var x := cols[k];
      assert x in Mask(C0[..i], keep[..i]);
      MaskMembers(C0[..i], keep[..i], x);
      var k' :| 0 <= k' < i && keep[..i][k'] && C0[..i][k'] == x;
      assert Requested(req, x.name) && !Requested(req, T.columns[i].name);
      if EqualsIgnoreCase(x.name, T.columns[i].name) {
        RequestedClasses(req, x.name, T.columns[i].name);
      }
    }
  }

  /**
   * One pass of filter_col's loop: a requested catalog column stays where
   * it is; any other is found at the position where the unvisited columns
   * begin, and deleting it there (from the columns and from every row)
   * masks one more catalog column.
   */
  lemma FilterStep(T: TableMeta, req: seq<RequestedColumn>, keep: seq<bool>, R0: seq<Row>, cols: seq<Column>, rows: seq<Row>, i: nat)
    returns (pos: int)
    requires keep == Wanted(CatalogColumns(T), req) && i < |T.columns|
    requires AllRowsHaveLength(R0, |keep|)
    requires cols == MaskedUpTo(CatalogColumns(T), keep, i) && rows == MaskedRowsUpTo(R0, keep, i)
    ensures keep[i] == Requested(req, T.columns[i].name)
    ensures pos == ColumnPosition(cols, 1, T.name, T.columns[i].name)
    ensures keep[i] ==> MaskedUpTo(CatalogColumns(T), keep, i + 1) == cols && MaskedRowsUpTo(R0, keep, i + 1) == rows
    ensures !keep[i] ==> 1 <= pos <= |cols| && (forall r :: 0 <= r < |rows| ==> pos - 1 < |rows[r]|)
    ensures !keep[i] ==> DeleteAt(cols, pos - 1) == MaskedUpTo(CatalogColumns(T), keep, i + 1)
    ensures !keep[i] ==> DeleteInRows(rows, pos - 1) == MaskedRowsUpTo(R0, keep, i + 1)
  {
    var C0 := CatalogColumns(T);
    assert C0[i].name == T.columns[i].name;
    MaskedUpToStep(C0, keep, i);
    MaskedRowsUpToStep(R0, keep, i);
    MaskLength(C0[..i], keep[..i]);
    if !keep[i] {
      FindsCatalogColumn(T, req, keep, i);
    }
    pos := ColumnPosition(cols, 1, T.name, T.columns[i].name);
  }

  /**
   * The body of filter_col's loop for catalog column i: delete it from the
   * result set unless its name is requested.
   */
  method FilterOne(T: TableMeta, select: Select, rs: ResultSet, i: nat, ghost keep: seq<bool>, ghost R0: seq<Row>)
    requires keep == Wanted(CatalogColumns(T), select.columns) && i < |T.columns|
    requires AllRowsHaveLength(R0, |keep|)
    requires rs.Valid() && rs.columns == MaskedUpTo(CatalogColumns(T), keep, i) && rs.rows == MaskedRowsUpTo(R0, keep, i)
    modifies rs
    ensures rs.Valid() && rs.applied == old(rs.applied)
    ensures rs.columns == MaskedUpTo(CatalogColumns(T), keep, i + 1) && rs.rows == MaskedRowsUpTo(R0, keep, i + 1)
  {
    var colmeta := T.columns[i];
    var inAst := InRequest(select.columns, colmeta.name);
    ghost var pos := FilterStep(T, select.columns, keep, R0, rs.columns, rs.rows, i);
    if !inAst {
      var colPos := rs.FindColumn(1, T.name, colmeta.name);
      rs.DeleteColumn(colPos);
    }
  }

  /**
   * filter_col: for each catalog column, in order, whose name is not
   * requested, find it in the result set and delete it. The columns and the
   * row values that remain are exactly the requested ones, in catalog order.
   */
  method FilterCol(T: TableMeta, select: Select, rs: ResultSet)
    requires rs.Valid() && rs.columns == CatalogColumns(T)
    modifies rs
    ensures rs.Valid() && rs.applied == old(rs.applied)
    ensures rs.columns == Projected(old(rs.columns), select.columns)
    ensures AllRowsHaveLength(old(rs.rows), |old(rs.columns)|)
    ensures rs.rows == MaskRows(old(rs.rows), Wanted(old(rs.columns), select.columns))
  {
    ghost var C0 := rs.columns;
    ghost var R0 := rs.rows;
    ghost var keep := Wanted(C0, select.columns);
    MaskedUpToNone(C0, keep);
    MaskedRowsUpToNone(R0, keep);
    var sizeTable := |T.columns|;
    var i := 0;
    while i < sizeTable
      invariant 0 <= i <= sizeTable == |C0| == |keep|
      invariant rs.Valid() && rs.applied == old(rs.applied)
      invariant rs.columns == MaskedUpTo(C0, keep, i)
      invariant rs.rows == MaskedRowsUpTo(R0, keep, i)
    {
      FilterOne(T, select, rs, i, keep, R0);
      i := i + 1;
    }
    MaskedUpToAll(C0, keep);
    MaskedRowsUpToAll(R0, keep);
  }

  /** All columns carry the same table name. */
  predicate OneTable(cols: seq<Column>)
  {
    forall k :: 0 <= k < |cols| ==> cols[k].table == cols[0].table
  }

  /** No two requested columns have names that differ only in case. */
  predicate DistinctRequest(req: seq<RequestedColumn>)
  {
    forall j1, j2 :: 0 <= j1 < j2 < |req| ==> !EqualsIgnoreCase(req[j1].name, req[j2].name)
  }

  /** Some column carries the name, ignoring case. */
  predicate Present(name: string, cols: seq<Column>)
  {
    exists k :: 0 <= k < |cols| && EqualsIgnoreCase(cols[k].name, name)
  }

  /** Every requested name names some column of the result set. */
  predicate AllPresent(req: seq<RequestedColumn>, cols: seq<Column>)
  {
    forall j :: 0 <= j < |req| ==> Present(req[j].name, cols)
  }

  /**
   * While reorder_col runs, the column carrying the next requested name is
   * found at or after that name's position: it is among the columns, which
   * are a permutation of the original ones, and not among the columns
   * already in place, since those carry the earlier, different names.
   */
  lemma LocateRequested(C0: seq<Column>, perm: seq<nat>, req: seq<RequestedColumn>, i: nat)
    requires OneTable(C0) && DistinctRequest(req) && AllPresent(req, C0)
    requires IsPermutation(perm, |C0|) && |perm| == |C0| && forall k :: 0 <= k < |perm| ==> perm[k] < |C0|
    requires i < |req| && i <= |C0|
    requires forall j :: 0 <= j < i ==> EqualsIgnoreCase(Permute(C0, perm)[j].name, req[j].name)
    ensures |C0| > 0
    ensures i + 1 <= ColumnPosition(Permute(C0, perm), 1, Permute(C0, perm)[0].table, req[i].name) <= |C0|
  {
    var cols := Permute(C0, perm);
    var name := req[i].name;
    var k0 :| 0 <= k0 < |C0| && EqualsIgnoreCase(C0[k0].name, name);
    PermutationCovers(perm, |C0|, k0);
    var q :| 0 <= q < |perm| && perm[q] == k0;
    var t0 := cols[0].table;
    EqualsIgnoreCaseReflexive(t0);
    assert Identifies(cols[q], t0, name);
    forall k | 0 <= k < i
      ensures !Identifies(cols[k], t0, name)
    {
      EqualsIgnoreCaseClasses(cols[k].name, req[k].name, name);
    }
  }

  /** No two columns have names that differ only in case. */
  predicate DistinctColumnNames(cols: seq<Column>)
  {
    forall k1, k2 :: 0 <= k1 < k2 < |cols| ==> !EqualsIgnoreCase(cols[k1].name, cols[k2].name)
  }

  /** Every column's name was requested. */
  predicate AllRequested(cols: seq<Column>, req: seq<RequestedColumn>)
  {
    forall k :: 0 <= k < |cols| ==> Requested(req, cols[k].name)
  }

  /**
   * Columns whose names are requested and pairwise different, and whose
   * first |req| names are the requested ones in order, are exactly as many
   * as the request: a further column would repeat one of those names.
   */
  lemma ExactlyRequested(cols: seq<Column>, req: seq<RequestedColumn>)
    requires DistinctColumnNames(cols) && AllRequested(cols, req)
    requires |req| <= |cols| && forall j :: 0 <= j < |req| ==> EqualsIgnoreCase(cols[j].name, req[j].name)
    ensures |cols| == |req|
  {
    if |cols| > |req| {
      RequestedColumnPosition(cols, req, |req|);
    }
  }

  /** Under the same conditions, a column's position is within the request: its name is the request's name there. */
  lemma RequestedColumnPosition(cols: seq<Column>, req: seq<RequestedColumn>, m: nat)
    requires DistinctColumnNames(cols) && AllRequested(cols, req)
    requires |req| <= |cols| && forall j :: 0 <= j < |req| ==> EqualsIgnoreCase(cols[j].name, req[j].name)
    requires m < |cols|
    ensures m < |req|
  {
    assert Requested(req, cols[m].name);
    var j :| 0 <= j < |req| && EqualsIgnoreCase(cols[m].name, req[j].name);
    if m >= |req| {
      assert false;
    }
  }

  /** Permuting columns keeps their names requested and pairwise different. */
  lemma PermutedNames(C0: seq<Column>, perm: seq<nat>, req: seq<RequestedColumn>)
    requires IsPermutation(perm, |C0|) && forall k :: 0 <= k < |perm| ==> perm[k] < |C0|
    requires DistinctColumnNames(C0) && AllRequested(C0, req)
    ensures DistinctColumnNames(Permute(C0, perm)) && AllRequested(Permute(C0, perm), req)
  {
    var cols := Permute(C0, perm);
    forall m1, m2 | 0 <= m1 < m2 < |cols|
      ensures !EqualsIgnoreCase(cols[m1].name, cols[m2].name)
    {
      PermutationInjective(perm, |C0|, m1, m2);
      if perm[m2] < perm[m1] {
        EqualsIgnoreCaseSymmetric(cols[m1].name, cols[m2].name);
      }
    }
  }

  /** filter_col keeps of a catalog without repeated names only requested columns, with pairwise different names. */
  lemma ProjectedExact(T: TableMeta, req: seq<RequestedColumn>)
    requires DistinctNames(T)
    ensures DistinctColumnNames(Projected(CatalogColumns(T), req)) && AllRequested(Projected(CatalogColumns(T), req), req)
  {
    var C := CatalogColumns(T);
    var P := Projected(C, req);
    forall m1, m2 | 0 <= m1 < m2 < |P|
      ensures !EqualsIgnoreCase(P[m1].name, P[m2].name)
    {
      ProjectedOrder(C, req, m1, m2);
      var k1, k2 :| 0 <= k1 < k2 < |C| && P[m1] == C[k1] && P[m2] == C[k2];
    }
    forall m | 0 <= m < |P|
      ensures Requested(req, P[m].name)
    {
      ProjectedMembers(C, req, P[m]);
    }
  }

  /** The first i columns carry the first i requested names. */
  predicate InPlace(cols: seq<Column>, req: seq<RequestedColumn>, i: nat)
  {
    i <= |cols| && i <= |req| && forall j :: 0 <= j < i ==> EqualsIgnoreCase(cols[j].name, req[j].name)
  }

  /** One pass of reorder_col's loop, on the permutation that the columns and rows have gone through so far. */
  lemma ReorderStep(C0: seq<Column>, R0: seq<Row>, perm: seq<nat>, rows: seq<Row>, req: seq<RequestedColumn>, i: nat, from: nat)
    returns (next: seq<nat>)
    requires OneTable(C0) && DistinctRequest(req) && AllPresent(req, C0)
    requires AllRowsHaveLength(R0, |C0|)
    requires IsPermutation(perm, |C0|) && |perm| == |C0| && forall k :: 0 <= k < |perm| ==> perm[k] < |C0|
    requires rows == PermuteRows(R0, perm, |C0|)
    requires i < |req| && InPlace(Permute(C0, perm), req, i)
    requires from + 1 == ColumnPosition(Permute(C0, perm), 1, Permute(C0, perm)[0].table, req[i].name)
    ensures i <= from < |C0|
    ensures IsPermutation(next, |C0|) && |next| == |C0| && forall k :: 0 <= k < |C0| ==> next[k] < |C0|
    ensures Move(Permute(C0, perm), from, i) == Permute(C0, next)
    ensures AllRowsHaveLength(rows, |C0|) && MoveInRows(rows, from, i) == PermuteRows(R0, next, |C0|)
    ensures InPlace(Permute(C0, next), req, i + 1)
  {
    LocateRequested(C0, perm, req, i);
    var cols := Permute(C0, perm);
    MovePermute(C0, perm, from, i);
    MovePermuteRows(R0, perm, |C0|, from, i);
    MoveMultiset(perm, from, i);
    MoveKeepsPrefix(cols, from, i);
    MoveAt(cols, from, i, i);
    next := Move(perm, from, i);
    assert Move(cols, from, i)[..i] == cols[..i];
    forall j | 0 <= j < i + 1
      ensures EqualsIgnoreCase(Move(cols, from, i)[j].name, req[j].name)
    {
      if j < i {
        assert Move(cols, from, i)[j] == Move(cols, from, i)[..i][j] == cols[j];
      }
    }
  }

  /**
   * The body of reorder_col's loop for the i-th requested column (1-based):
   * find the first column carrying its name and move it to position i.
   * With the columns a permutation perm of C0 before, they are the
   * permutation next after, and the first i columns carry the first i names.
   */
  method ReorderOne(req: seq<RequestedColumn>, rs: ResultSet, i: int,
                    ghost C0: seq<Column>, ghost R0: seq<Row>, ghost perm: seq<nat>)
    returns (ghost next: seq<nat>)
    requires OneTable(C0) && DistinctRequest(req) && AllPresent(req, C0) && AllRowsHaveLength(R0, |C0|)
    requires IsPermutation(perm, |C0|) && |perm| == |C0| && forall k :: 0 <= k < |perm| ==> perm[k] < |C0|
    requires 1 <= i <= |req| && rs.Valid()
    requires rs.columns == Permute(C0, perm) && rs.rows == PermuteRows(R0, perm, |C0|) && InPlace(rs.columns, req, i - 1)
    modifies rs
    ensures IsPermutation(next, |C0|) && |next| == |C0| && forall k :: 0 <= k < |C0| ==> next[k] < |C0|
    ensures rs.Valid() && rs.applied == old(rs.applied)
    ensures rs.columns == Permute(C0, next) && rs.rows == PermuteRows(R0, next, |C0|) && InPlace(rs.columns, req, i)
  {
    LocateRequested(C0, perm, req, i - 1);
    var colIndex := rs.FindColumn(1, rs.columns[0].table, req[i - 1].name);
    next := ReorderStep(C0, R0, perm, rs.rows, req, i - 1, colIndex - 1);
    rs.MoveColumn(colIndex, i);
  }

  /**
   * reorder_col: for the i-th requested name, find the first column that
   * carries it (under the first column's table name) and move it to
   * position i. With distinct requested names that are all present, the
   * columns end up permuted so that column i carries the i-th requested name;
   * rows are permuted alongside, so every value stays with its column.
   */
  method ReorderCol(select: Select, rs: ResultSet) returns (ghost perm: seq<nat>)
    requires rs.Valid() && OneTable(rs.columns)
    requires DistinctRequest(select.columns) && AllPresent(select.columns, rs.columns)
    modifies rs
    ensures rs.Valid() && rs.applied == old(rs.applied)
    ensures IsPermutation(perm, |old(rs.columns)|) && |perm| == |old(rs.columns)|
    ensures forall k :: 0 <= k < |perm| ==> perm[k] < |old(rs.columns)|
    ensures rs.columns == Permute(old(rs.columns), perm)
    ensures AllRowsHaveLength(old(rs.rows), |old(rs.columns)|)
    ensures rs.rows == PermuteRows(old(rs.rows), perm, |old(rs.columns)|)
    ensures |select.columns| <= |rs.columns|
    ensures forall j :: 0 <= j < |select.columns| ==> EqualsIgnoreCase(rs.columns[j].name, select.columns[j].name)
    ensures DistinctColumnNames(old(rs.columns)) && AllRequested(old(rs.columns), select.columns) ==>
      |rs.columns| == |select.columns|
  {
    var req := select.columns;
    ghost var C0 := rs.columns;
    ghost var R0 := rs.rows;
    ghost var n := |C0|;
    perm := Iota(n);
    PermuteIota(C0);
    PermuteRowsIota(R0, n);
    var i := 1;
    while i <= |req|
      invariant 1 <= i <= |req| + 1
      invariant IsPermutation(perm, n) && |perm| == n && forall k :: 0 <= k < n ==> perm[k] < n
      invariant rs.Valid() && rs.applied == old(rs.applied)
      invariant rs.columns == Permute(C0, perm)
      invariant rs.rows == PermuteRows(R0, perm, n)
      invariant InPlace(rs.columns, req, i - 1)
    {
      perm := ReorderOne(req, rs, i, C0, R0, perm);
      i := i + 1;
    }
    if DistinctColumnNames(C0) && AllRequested(C0, req) {
      PermutedNames(C0, perm, req);
      ExactlyRequested(rs.columns, req);
    }
  }

  /**
   * app_func: walk the requested columns with a running position and call
   * resultset_applyFunction at every position whose column has a function.
   */
  method AppFunc(select: Select, rs: ResultSet)
    requires rs.Valid()
    requires forall j :: 0 <= j < |select.columns| && select.columns[j].func != NoFunction ==> j < |rs.columns|
    modifies rs
    ensures rs.Valid() && |rs.columns| == |old(rs.columns)|
    ensures rs.applied == old(rs.applied) + AppliedCalls(select.columns)
    ensures AppliedCalls(select.columns) == [] ==> rs.columns == old(rs.columns) && rs.rows == old(rs.rows)
  {
    var req := select.columns;
    var i := 1;
    while i <= |req|
      invariant 1 <= i <= |req| + 1
      invariant rs.Valid() && |rs.columns| == |old(rs.columns)|
      invariant rs.applied == old(rs.applied) + AppliedCalls(req[..i - 1])
      invariant AppliedCalls(req[..i - 1]) == [] ==> rs.columns == old(rs.columns) && rs.rows == old(rs.rows)
    {
      assert req[..i][..i - 1] == req[..i - 1];
      if req[i - 1].func != NoFunction {
        rs.ApplyFunction(req[i - 1].func, i);
      }
      i := i + 1;
    }
    assert req[..|req|] == req;
  }

  function Min(a: int, b: int): int
  {
    if a < b then a else b
  }

  /** check_lim: with a limit N, delete rows from the last down to N + 1; without one, do nothing. */
  method CheckLim(limit: Option<nat>, rs: ResultSet)
    requires rs.Valid()
    modifies rs
    ensures rs.Valid() && rs.columns == old(rs.columns) && rs.applied == old(rs.applied)
    ensures limit.None? ==> rs.rows == old(rs.rows)
    ensures limit.Some? ==> rs.rows == old(rs.rows)[..Min(limit.value, |old(rs.rows)|)]
    ensures limit.Some? ==> |rs.rows| <= limit.value
  {
    if limit.Some? {
      var rowNums := |rs.rows|;
      var i := rowNums;
      while i >= limit.value + 1
        invariant Min(limit.value, rowNums) <= i <= rowNums
        invariant rs.Valid() && rs.columns == old(rs.columns) && rs.applied == old(rs.applied)
        invariant rs.rows == old(rs.rows)[..i]
      {
        rs.DeleteRow(i);
        i := i - 1;
      }
    }
  }

  /** What is left of a list of rows after check_lim. */
  function Limited(rows: seq<Row>, limit: Option<nat>): (r: seq<Row>)
    ensures |r| <= |rows| && r == rows[..|r|]
    ensures limit.None? ==> r == rows
    ensures limit.Some? ==> |r| == Min(limit.value, |rows|)
  {
    match limit
    case None => rows
    case Some(n) => rows[..Min(n, |rows|)]
  }

  /** Every record image of a data file decodes against the table's declared types. */
  predicate Decodable(T: TableMeta, records: seq<string>, atof: string -> real)
  {
    forall k :: 0 <= k < |records| ==> DecodeRecord(records[k], Types(T), atof).Some?
  }

  /** The rows read_dataset appends for the records of a data file, in file order. */
  function DecodedRows(T: TableMeta, records: seq<string>, atof: string -> real): (rows: seq<Row>)
    requires Decodable(T, records, atof)
    ensures |rows| == |records|
  {
    seq(|records|, k requires 0 <= k < |records| => DecodeRecord(records[k], Types(T), atof).value)
  }

  /**
   * What execute_query takes for granted once the query has been analyzed:
   * the table's data file exists, each of its records fills the
   * recordSize + 3 bytes of the input buffer and decodes, the WHERE literal
   * can be compared with its column, the catalog has no two columns of the
   * same name (otherwise both survive filter_col and the answer has more
   * columns than requested names), and the requested columns are distinct
   * catalog columns.
   */
  predicate Executable(db: Database, T: TableMeta, select: Select, files: map<string, seq<string>>, atof: string -> real)
  {
    DataFilePath(db.name, T.name) in files
    && Decodable(T, files[DataFilePath(db.name, T.name)], atof)
    && (forall k :: 0 <= k < |files[DataFilePath(db.name, T.name)]| ==>
          |files[DataFilePath(db.name, T.name)][k]| == T.recordSize + 3)
    && (files[DataFilePath(db.name, T.name)] != [] ==>
          ColumnsFit(WhereCondition(select, CatalogColumns(T), atof), CatalogColumns(T)))
    && DistinctNames(T)
    && DistinctRequest(select.columns)
    && AllPresent(select.columns, CatalogColumns(T))
  }

  /**
   * The result set a SELECT leaves behind, stage by stage: the decoded
   * rows, filtered by the WHERE test, projected onto the requested columns
   * and permuted into query order by perm, which leaves exactly one column
   * per requested name, named as requested; then the function calls of the
   * column list, and the limit. What a function call does to the cells is
   * the container's business, so the final columns and rows are spelled
   * out only for a column list without functions; with functions, the
   * number of columns, the calls made and the limit still hold.
   */
  ghost predicate Answers(T: TableMeta, select: Select, records: seq<string>, atof: string -> real,
                          loaded: seq<Row>, perm: seq<nat>, columns: seq<Column>, rows: seq<Row>, applied: seq<Application>)
  {
    var C := CatalogColumns(T);
    var c := WhereCondition(select, C, atof);
    var keep := Wanted(C, select.columns);
    var P := Projected(C, select.columns);
    Decodable(T, records, atof) && loaded == DecodedRows(T, records, atof)
    && (forall r | r in loaded :: Fits(c, r))
    && AllRowsHaveLength(KeepRows(loaded, c), |keep|)
    && AllRowsHaveLength(MaskRows(KeepRows(loaded, c), keep), |P|)
    && IsPermutation(perm, |P|) && |perm| == |P| && (forall k :: 0 <= k < |perm| ==> perm[k] < |P|)
    && |P| == |select.columns|
    && (forall j :: 0 <= j < |select.columns| ==> EqualsIgnoreCase(Permute(P, perm)[j].name, select.columns[j].name))
    && applied == AppliedCalls(select.columns)
    && |columns| == |select.columns|
    && (select.limit.Some? ==> |rows| <= select.limit.value)
    && (AppliedCalls(select.columns) == [] ==>
          columns == Permute(P, perm)
          && rows == Limited(PermuteRows(MaskRows(KeepRows(loaded, c), keep), perm, |P|), select.limit))
  }

  /**
   * A SELECT's answer row by row: there are no more rows than the limit;
   * for a column list without functions, no more rows than records either,
   * and each row is a record that passes the WHERE test, cut down to the
   * requested fields and put in query order.
   */
  lemma AnswerRows(T: TableMeta, select: Select, records: seq<string>, atof: string -> real,
                   loaded: seq<Row>, perm: seq<nat>, columns: seq<Column>, rows: seq<Row>, applied: seq<Application>)
    requires Answers(T, select, records, atof, loaded, perm, columns, rows, applied)
    ensures select.limit.Some? ==> |rows| <= select.limit.value
    ensures AppliedCalls(select.columns) == [] ==> |rows| <= |records|
    ensures AppliedCalls(select.columns) == [] ==> forall i :: 0 <= i < |rows| ==> exists k ::
      0 <= k < |loaded| && loaded[k] == DecodeRecord(records[k], Types(T), atof).value
      && Survives(WhereCondition(select, CatalogColumns(T), atof), loaded[k])
      && |Mask(loaded[k], Wanted(CatalogColumns(T), select.columns))| == |perm|
      && rows[i] == Permute(Mask(loaded[k], Wanted(CatalogColumns(T), select.columns)), perm)
  {
    if AppliedCalls(select.columns) == [] {
      var C := CatalogColumns(T);
      var c := WhereCondition(select, C, atof);
      var keep := Wanted(C, select.columns);
      var P := Projected(C, select.columns);
      var survivors := Survivors(loaded, c);
      var kept := KeepRows(loaded, c);
      var ordered := PermuteRows(MaskRows(kept, keep), perm, |P|);
      MaskLength(loaded, survivors);
      MaskLength(C, keep);
      forall i | 0 <= i < |rows|
        ensures exists k ::
          0 <= k < |loaded| && loaded[k] == DecodeRecord(records[k], Types(T), atof).value
          && Survives(c, loaded[k]) && |Mask(loaded[k], keep)| == |perm| && rows[i] == Permute(Mask(loaded[k], keep), perm)
      {
        assert rows[i] == ordered[i];
        MaskAt(loaded, survivors, i);
        var k := KeptIndex(survivors, i);
        assert kept[i] == loaded[k];
        MaskLength(loaded[k], keep);
      }
    }
  }

  /**
   * The columns of a SELECT's answer: one per requested column; for a column
   * list without functions, each is the catalog column named by the request
   * at its position, and no two names differ only in case.
   */
  lemma AnswerColumns(T: TableMeta, select: Select, records: seq<string>, atof: string -> real,
                      loaded: seq<Row>, perm: seq<nat>, columns: seq<Column>, rows: seq<Row>, applied: seq<Application>)
    requires Answers(T, select, records, atof, loaded, perm, columns, rows, applied)
    requires DistinctNames(T)
    ensures |columns| == |select.columns|
    ensures AppliedCalls(select.columns) == [] ==> forall m :: 0 <= m < |columns| ==>
      columns[m] in CatalogColumns(T) && EqualsIgnoreCase(columns[m].name, select.columns[m].name)
    ensures AppliedCalls(select.columns) == [] ==> DistinctColumnNames(columns)
  {
    if AppliedCalls(select.columns) == [] {
      var C := CatalogColumns(T);
      var P := Projected(C, select.columns);
      forall m | 0 <= m < |columns|
        ensures columns[m] in C
      {
        ProjectedMembers(C, select.columns, P[perm[m]]);
      }
      ProjectedExact(T, select.columns);
      PermutedNames(P, perm, select.columns);
    }
  }

  /** Stand-in for fgets: the input buffer takes the image of the next record. */
  method NextRecord(buf: array<char>, record: string)
    requires |record| == buf.Length
    modifies buf
    ensures buf[..] == record
  {
    var k := 0;
    while k < buf.Length
      invariant 0 <= k <= buf.Length
      invariant forall j :: 0 <= j < k ==> buf[j] == record[j]
    {
      buf[k] := record[k];
      k := k + 1;
    }
  }

  /** Projecting the catalog keeps columns of the one table it describes. */
  lemma ProjectedOneTable(T: TableMeta, req: seq<RequestedColumn>)
    ensures OneTable(Projected(CatalogColumns(T), req))
  {
    var P := Projected(CatalogColumns(T), req);
    forall k | 0 <= k < |P|
      ensures P[k].table == T.name
    {
      ProjectedMembers(CatalogColumns(T), req, P[k]);
    }
  }

  /** Requested names that name columns still name columns after the projection. */
  lemma ProjectedPresent(cols: seq<Column>, req: seq<RequestedColumn>)
    requires AllPresent(req, cols)
    ensures AllPresent(req, Projected(cols, req))
  {
    forall j | 0 <= j < |req|
      ensures Present(req[j].name, Projected(cols, req))
    {
      var k :| 0 <= k < |cols| && EqualsIgnoreCase(cols[k].name, req[j].name);
      assert Requested(req, cols[k].name);
      ProjectedMembers(cols, req, cols[k]);
      var m :| 0 <= m < |Projected(cols, req)| && Projected(cols, req)[m] == cols[k];
    }
  }

  /** The read loop of execute_query: one row per record of the data file. */
  method ReadAll(rs: ResultSet, T: TableMeta, records: seq<string>, atof: string -> real)
    requires rs.Valid() && rs.columns == CatalogColumns(T) && rs.rows == []
    requires Decodable(T, records, atof) && forall k :: 0 <= k < |records| ==> |records[k]| == T.recordSize + 3
    modifies rs
    ensures rs.Valid() && rs.columns == old(rs.columns) && rs.applied == old(rs.applied)
    ensures rs.rows == DecodedRows(T, records, atof)
  {
    var dataBufferSize := T.recordSize + 3;
    var dataBuffer := new char[dataBufferSize];
    var r := 0;
    while r < |records|
      invariant 0 <= r <= |records|
      invariant rs.Valid() && rs.columns == old(rs.columns) && rs.applied == old(rs.applied)
      invariant |rs.rows| == r && forall k :: 0 <= k < r ==> rs.rows[k] == DecodeRecord(records[k], Types(T), atof).value
    {
      NextRecord(dataBuffer, records[r]);
      ReadDataset(rs, T, dataBuffer, atof);
      r := r + 1;
    }
  }

  /**
   * execute_query for a SELECT: resolve the table, open its data file, read
   * every record into a fresh result set, then WHERE, projection, reorder,
   * functions and LIMIT, in that order.
   */
  method ExecuteSelect(db: Database, select: Select, files: map<string, seq<string>>, atof: string -> real)
    returns (rs: ResultSet, ghost t: nat, ghost loaded: seq<Row>, ghost perm: seq<nat>)
    requires exists t :: 0 <= t < |db.tables| && EqualsIgnoreCase(db.tables[t].name, select.table)
    requires forall t: nat :: FirstTable(db, select.table, t) ==> Executable(db, db.tables[t], select, files, atof)
    ensures fresh(rs) && rs.Valid()
    ensures t < |db.tables| && EqualsIgnoreCase(db.tables[t].name, select.table)
    ensures forall k :: 0 <= k < t ==> !EqualsIgnoreCase(db.tables[k].name, select.table)
    ensures Executable(db, db.tables[t], select, files, atof)
    ensures Answers(db.tables[t], select, files[DataFilePath(db.name, db.tables[t].name)], atof,
                    loaded, perm, rs.columns, rs.rows, rs.applied)
  {
    var found := FindTable(db, select.table);
    if found.None? {
      assert false;
    }
    var ti := found.value;
    t := ti;
    var tablemeta := db.tables[ti];
    var path := DataFilePath(db.name, tablemeta.name);
    var records := files[path];
    rs := CreateDataset(tablemeta);
    ghost var C := rs.columns;
    ReadAll(rs, tablemeta, records, atof);
    loaded := rs.rows;
    ghost var c := WhereCondition(select, C, atof);
    ghost var keep := Wanted(C, select.columns);
    CheckWhere(select, rs, atof);
    ghost var kept := rs.rows;
    FilterCol(tablemeta, select, rs);
    ghost var P := rs.columns;
    ghost var projectedRows := rs.rows;
    ProjectedOneTable(tablemeta, select.columns);
    ProjectedPresent(C, select.columns);
    ProjectedExact(tablemeta, select.columns);
    perm := ReorderCol(select, rs);
    ghost var reordered := rs.columns;
    ghost var ordered := rs.rows;
    AppFunc(select, rs);
    CheckLim(select.limit, rs);
    if AppliedCalls(select.columns) == [] {
      assert rs.rows == Limited(ordered, select.limit);
    }
    StagesAnswer(tablemeta, select, records, atof, loaded, kept, projectedRows, perm, reordered, ordered,
                 rs.columns, rs.rows, rs.applied);
  }

  /** The stages of execute_query, one after the other, leave the result set Answers describes. */
  lemma StagesAnswer(T: TableMeta, select: Select, records: seq<string>, atof: string -> real,
                     loaded: seq<Row>, kept: seq<Row>, projectedRows: seq<Row>, perm: seq<nat>,
                     reordered: seq<Column>, ordered: seq<Row>, columns: seq<Column>, rows: seq<Row>, applied: seq<Application>)
    requires Decodable(T, records, atof) && loaded == DecodedRows(T, records, atof)
    requires forall r | r in loaded :: Fits(WhereCondition(select, CatalogColumns(T), atof), r)
    requires kept == KeepRows(loaded, WhereCondition(select, CatalogColumns(T), atof))
    requires AllRowsHaveLength(kept, |CatalogColumns(T)|)
    requires projectedRows == MaskRows(kept, Wanted(CatalogColumns(T), select.columns))
    requires AllRowsHaveLength(projectedRows, |Projected(CatalogColumns(T), select.columns)|)
    requires IsPermutation(perm, |Projected(CatalogColumns(T), select.columns)|)
    requires |perm| == |Projected(CatalogColumns(T), select.columns)|
    requires forall k :: 0 <= k < |perm| ==> perm[k] < |Projected(CatalogColumns(T), select.columns)|
    requires reordered == Permute(Projected(CatalogColumns(T), select.columns), perm)
    requires ordered == PermuteRows(projectedRows, perm, |Projected(CatalogColumns(T), select.columns)|)
    requires |reordered| == |select.columns|
    requires forall j :: 0 <= j < |select.columns| ==> EqualsIgnoreCase(reordered[j].name, select.columns[j].name)
    requires |columns| == |select.columns| && applied == AppliedCalls(select.columns)
    requires select.limit.Some? ==> |rows| <= select.limit.value
    requires AppliedCalls(select.columns) == [] ==> columns == reordered && rows == Limited(ordered, select.limit)
    ensures Answers(T, select, records, atof, loaded, perm, columns, rows, applied)
  {
    MaskLength(CatalogColumns(T), Wanted(CatalogColumns(T), select.columns));
  }

  /** execute_query: a SELECT is executed; any other query is refused and leaves no result set. */
  method ExecuteQuery(db: Database, query: Query, files: map<string, seq<string>>, atof: string -> real)
    returns (result: Option<ResultSet>, ghost t: nat, ghost loaded: seq<Row>, ghost perm: seq<nat>)
    requires query.SelectQuery? ==> exists t :: 0 <= t < |db.tables| && EqualsIgnoreCase(db.tables[t].name, query.select.table)
    requires query.SelectQuery? ==> forall t: nat :: FirstTable(db, query.select.table, t) ==>
      Executable(db, db.tables[t], query.select, files, atof)
    ensures result.Some? <==> query.SelectQuery?
    ensures result.Some? ==> fresh(result.value) && result.value.Valid()
    ensures result.Some? ==> t < |db.tables| && EqualsIgnoreCase(db.tables[t].name, query.select.table)
    ensures result.Some? ==> forall k :: 0 <= k < t ==> !EqualsIgnoreCase(db.tables[k].name, query.select.table)
    ensures result.Some? ==> Executable(db, db.tables[t], query.select, files, atof)
    ensures result.Some? ==> Answers(db.tables[t], query.select, files[DataFilePath(db.name, db.tables[t].name)], atof,
                                     loaded, perm, result.value.columns, result.value.rows, result.value.applied)
  {
    match query
    case OtherQuery =>
      result, t, loaded, perm := None, 0, [], [];
    case SelectQuery(select) =>
      var rs;
      rs, t, loaded, perm := ExecuteSelect(db, select, files, atof);
      result := Some(rs);
  }
}
