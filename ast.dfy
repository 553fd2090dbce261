/**
 * The read-only inputs of the executor: the database catalog (database
 * module) and the analysed query (ast module), reduced to the fields the
 * executor reads.
 */
module Ast {
  import opened Wrappers
  import opened Values

  datatype ColumnMeta = ColumnMeta(name: string, colType: ColType)

  /** A table: its name, its columns in catalog order, the byte length of one record. */
  datatype TableMeta = TableMeta(name: string, columns: seq<ColumnMeta>, recordSize: nat)

  datatype Database = Database(name: string, tables: seq<TableMeta>)

  /** The lexical kind of a WHERE literal: 0 (integer), 1 (real) or STRING_LITERAL. */
  datatype LitKind = IntLit | RealLit | StrLit

  /**
   * WHERE column op literal. op indexes {<, <=, >, >=, ==, !=} as 0 .. 5;
   * value is the literal's text.
   */
  datatype Where = Where(column: string, op: int, value: string, kind: LitKind)

  datatype RequestedColumn = RequestedColumn(name: string, func: Func)

  datatype Select = Select(
    table: string,
    columns: seq<RequestedColumn>,
    where: Option<Where>,
    limit: Option<nat>)

  datatype Query = SelectQuery(select: Select) | OtherQuery

  /** The declared types of a table's columns, in catalog order. */
  function Types(t: TableMeta): (ts: seq<ColType>)
    ensures |ts| == |t.columns| && forall k :: 0 <= k < |ts| ==> ts[k] == t.columns[k].colType
  {
    seq(|t.columns|, k requires 0 <= k < |t.columns| => t.columns[k].colType)
  }
}
