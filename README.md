# SimpleSQL SELECT executor, modelled in Dafny

This project models the SELECT executor of SimpleSQL (`execute.c`) and
proves properties of it. By the time the executor runs, the query has been
parsed and analyzed. The executor then works in these steps:

- It resolves the table by name, ignoring case.
- It builds the path `<database>/<table>.data`.
- It creates a result set with one column per catalog column.
- It decodes every record of the data file into a row (read_dataset).
- It reshapes the result set in place, stage by stage:
  - check_where deletes the rows that fail the WHERE test;
  - filter_col deletes the columns that were not requested;
  - reorder_col moves the columns into query order;
  - app_func asks the result set to apply each column's function;
  - check_lim deletes the rows past the LIMIT.

The result set is the `ResultSets.ResultSet` class. It has `columns`, `rows`
and `applied` fields, and one method per `resultset_*` call the executor
makes. Each stage is a method on that class, and each method is proved
against a specification function:

| stage | specification function |
|---|---|
| decoding | `Records.DecodeRecord` |
| WHERE | `Filters.KeepRows` of `Filters.WhereCondition` |
| projection | `Projection.Projected` and `ResultSets.MaskRows` |
| reordering | `Sequences.Permute` and `ResultSets.PermuteRows` |
| functions | `Projection.AppliedCalls` |
| LIMIT | a prefix of the rows |

The properties of those functions are proved as lemmas:

- the decoder reads back what the encoder writes;
- the WHERE filter keeps exactly the rows that pass the test;
- projection keeps the requested columns, in order, once each, and is idempotent;
- reordering is a permutation that puts the i-th requested name at position i,
  and leaves exactly one column per requested name;
- function calls are made left to right.

`Execute.ExecuteSelect` composes all the stages. The predicate
`Execute.Answers` describes its result end to end. The cells that a
function call computes are left to the result set and not modelled, so the
final rows are spelled out for column lists without functions.

Modules:

| module | contents |
|---|---|
| `Names` | `strcasecmp` equality |
| `CText` | `atoi`, C strings, scan-to-byte loops |
| `Values` | column types, cell values, the three-way comparisons |
| `Sequences` | deletion, move, masks, permutations |
| `ResultSets` | the result-set class |
| `Records` | the record layout, with its decoder and encoder |
| `Ast` | the analyzed query and the catalog |
| `Filters` | the WHERE semantics |
| `Projection` | the column list semantics |
| `Execute` | the executor's own functions |

The model follows the code as written:

- **Operator codes.** Codes 0..5 delete the rows that fail `<`, `<=`, `>`,
  `>=`, `==` and `!=` respectively, so those are the tests a row must pass.
  Any other code deletes nothing.
- **REAL fields.** A REAL field is read up to the NUL, not up to a space.
  Only a REAL in the last field is therefore meaningful.
- **Integer literals.** An integer literal compared with an INTEGER column
  is `(int)atof(text)`, which truncates toward zero.
- **Unquoted STRING fields.** A STRING field that starts with neither quote
  reads as the empty string, and decoding skips two bytes.
- **Reordering.** `reorder_col` looks columns up under the table name of the
  first column.

## Model

| member | source | states |
|---|---|---|
| Execute.FindTable | execute.c:61-69 | The resolved table is the first one whose name equals the query's table name, ignoring case. Returns None exactly when no table matches. |
| Execute.FirstTable | execute.c:61-68 | Definition, no contract: table t matches the name ignoring case and no earlier table does. |
| Execute.FirstTableUnique | execute.c:61-68 | A name picks at most one table, even when several tables share it up to case. |
| Execute.DataFilePath | execute.c:81-86 | The path is the database name, then `/`, then the table name, then `.data`. Its length is the sum of the three parts plus 6. |
| Execute.DataFilePathInjective | execute.c:81-86 | When the database names contain no `/`, different (database, table) pairs get different data file paths. |
| Execute.CreateDataset | execute.c:148-159 | Returns a fresh, empty result set with one column per catalog column, in catalog order. Each column carries the table name, the column name, no function and the declared type. |
| ResultSets.ResultSet.constructor | execute.c:149 | resultset_create: no columns, no rows, no function calls. |
| ResultSets.ResultSet.InsertColumn | execute.c:155-156 | resultset_insertColumn: the new column takes position pos. Every row gets the column type's default value there. |
| ResultSets.ResultSet.AddRow | execute.c:168 | resultset_addRow: appends a row of default values and returns its 1-based position. |
| ResultSets.ResultSet.PutInt | execute.c:181 | resultset_putInt: exactly one cell changes, to the integer. |
| ResultSets.ResultSet.PutReal | execute.c:191 | resultset_putReal: exactly one cell changes, to the real. |
| ResultSets.ResultSet.PutString | execute.c:210 | resultset_putString: exactly one cell changes, to the string. |
| ResultSets.ResultSet.GetInt | execute.c:268 | resultset_getInt returns the integer held in the cell. |
| ResultSets.ResultSet.GetReal | execute.c:311 | resultset_getReal returns the real held in the cell. |
| ResultSets.ResultSet.GetString | execute.c:354 | resultset_getString returns the string held in the cell. |
| ResultSets.ResultSet.FindColumn | execute.c:228-229 | resultset_findColumn returns the first position at or after the start whose table and column names match, ignoring case, or -1. |
| ResultSets.ColumnPosition | execute.c:228-229 | The answer is -1 with no match at or after the start, or a matching position with no match before it. |
| ResultSets.ResultSet.DeleteRow | execute.c:273 | resultset_deleteRow removes exactly that row. The other rows keep their order. |
| ResultSets.ResultSet.DeleteColumn | execute.c:419 | resultset_deleteColumn removes that column, and that cell from every row. |
| ResultSets.ResultSet.MoveColumn | execute.c:508 | resultset_moveColumn moves a column to a new position. The cells of every row move the same way. |
| ResultSets.ResultSet.ApplyFunction | execute.c:525 | resultset_applyFunction records the call (function, position), keeps the number of columns and leaves the result set well typed. What it does to the cells is not promised. |
| Execute.ReadDataset | execute.c:166-215 | read_dataset appends exactly one row: the decoded record. Columns and function calls are unchanged. Buffer bytes are either untouched or overwritten with NUL. |
| Execute.ReadField | execute.c:171-213 | One pass of the column loop. It stores the decoded value of the field's span in that column of the new row, and returns where the next field starts. |
| Execute.ReadIntField | execute.c:174-184 | An INTEGER field is atoi of the bytes up to the next space. Decoding resumes after the space. |
| Execute.ReadRealField | execute.c:185-194 | A REAL field is atof of the bytes up to the next NUL. Decoding resumes after the NUL. |
| Execute.ReadStringField | execute.c:195-213 | A STRING field is the C string between a matching pair of quotes, or the empty string when there is no opening quote. Decoding resumes two bytes after the field. |
| Execute.Terminate | execute.c:176-179 | The scan stops at the first occurrence of the delimiter and overwrites it with NUL. The field's bytes before it are untouched. |
| Execute.SkipTo | execute.c:199-201 | The scan loop stops at the first occurrence of the byte at or after the start. |
| Execute.FindQuoted | execute.c:196-208 | The opening-quote test and the scan find exactly the span the record layout assigns to a STRING field. |
| Execute.AppendedRecord | execute.c:168-214 | A row appended field by field with the decoded values equals the old rows plus the decoded record. |
| Records.ScanField | execute.c:171-213 | Where one field lies, by type: an INT up to the next space, a REAL up to the NUL, a STRING inside its quotes or empty when unquoted. The span lies in the buffer and the next field starts after it. |
| Records.FieldValue | execute.c:179-210 | The value a field span decodes to (atoi, atof or the C string), always of the column's type. |
| Records.ScanFieldsAt | execute.c:171-214 | Field i's span comes from its own scan. The remaining fields are scanned from where field i ends. |
| Records.DecodeRecord | execute.c:166-215 | A decoded record has one value per column, each of the declared type. |
| Records.RoundTrip | execute.c:166-215 | A record of integers and strings, written in the data-file layout, decodes back to exactly those values, whatever bytes follow it. |
| Records.RoundTripRealLast | execute.c:185-194 | Integers and strings followed by a final REAL, NUL-terminated as fgets leaves it, decode to those values followed by atof of the REAL's text. |
| Records.RealFieldTakesRestOfLine | execute.c:185-194 | A REAL field covers every byte up to the line's NUL terminator. |
| Records.EncodedHasNoNul | execute.c:185-194 | An encoded run of integers and strings holds no NUL, so a REAL placed after it is read from its own text. |
| Records.FieldValuesAppend | execute.c:171-214 | Decoding one more field appends exactly its value. |
| CText.Atoi | execute.c:180 | Definition, no contract: atoi skips leading white space, reads an optional sign and then the longest run of digits. `CText.AtoiShowInt` and `CText.DigitRunIsLongest` state its properties. |
| CText.CString | execute.c:209-210 | Reading a buffer as a C string gives the prefix before the first NUL, which holds no NUL. |
| CText.FindFrom | execute.c:176-207 | The scan loops of read_dataset: the first position at or after the start that holds the byte, or None when there is none. |
| CText.AtoiShowInt | execute.c:180 | atoi reads back every integer written in decimal. |
| CText.CStringOfNulFree | execute.c:209-210 | A string without NUL copies whole as a C string. |
| CText.FindFromPrefix | execute.c:176-178 | A scan for a byte stops at the first occurrence of that byte and depends on nothing after it. |
| CText.DigitRunIsLongest | execute.c:180 | atoi's digit run is the longest run of digits. It stops at the first byte that is not a digit. |
| Names.EqualsIgnoreCase | execute.c:409 | Definition, no contract: strcasecmp returns 0 exactly when the strings have the same length and agree character by character after lower-casing. It is reflexive, symmetric and transitive (`Names.EqualsIgnoreCaseReflexive`, `Names.EqualsIgnoreCaseSymmetric`, `Names.EqualsIgnoreCaseTransitive`). |
| Values.StrCmp | execute.c:356 | The sign of strcmp is Eq exactly when the strings are equal. |
| Values.StrCmpAntisymmetric | execute.c:356 | Swapping strcmp's operands flips the sign. |
| Values.StrCmpTransitive | execute.c:356 | strcmp's order is transitive. |
| Values.CompareInt | execute.c:270-301 | The three-way comparison is Lt, Eq or Gt exactly when the value is <, = or > the literal. |
| Values.CompareReal | execute.c:313-344 | The same three-way comparison, for doubles modelled as reals. |
| Values.Trunc | execute.c:269 | `(int)` of a double truncates toward zero. |
| Filters.Satisfies | execute.c:270-388 | Definition, no contract: codes 0..5 keep the rows whose comparison with the literal is <, <=, >, >=, == and != respectively, since the switch deletes the rest. Any other code keeps every row. The helpers' methods are proved against it. |
| Filters.WhereCondition | execute.c:223-259 | Definition, no contract: no WHERE keeps every row. Otherwise the test applies to the column found under the query's table and the WHERE column's name, with that column's type from the result set. `Filters.WhereConditionFits` states which literals it can read. |
| Filters.TestFor | execute.c:244-256 | Definition, no contract: the dispatch on literal and column type to an integer, real or string test, or none. `Filters.Coercion` states the four cases. |
| Filters.Coercion | execute.c:244-256 | An integer literal on an INTEGER column compares as integers, and on a REAL column as reals; it compares not at all on any other column. A REAL literal always compares as reals. A STRING literal always compares as strings. All four stated as if-and-only-if. |
| Filters.ColumnTypeAt | execute.c:230-243 | The WHERE column's type is found exactly when its position is a column. It is then that column's declared type. |
| Execute.ColumnTypeOf | execute.c:230-243 | The walk over the column list yields the declared type at the WHERE position, or none when the position is -1 or out of range. |
| Filters.Survivors | execute.c:245-257 | One flag per row, telling whether that row passes the test. |
| Filters.KeepRows | execute.c:245-257 | The rows that pass the test, in order, and never more than there were. `Filters.KeepRowsMembers` states which. |
| Filters.KeepRowsMembers | execute.c:245-257 | A row is left after filtering exactly when it was there and passes the test. |
| Filters.KeepRowsAppend | execute.c:245-257 | Filtering commutes with concatenation. Surviving rows keep their relative order. |
| Filters.KeepRowsDescend | execute.c:245-257 | One step of the scan from the last row down. Keeping or deleting row i by its own test leaves the later rows filtered and the earlier rows untouched. Deleting never disturbs an unvisited row. |
| Filters.KeepRowsIdempotent | execute.c:223-259 | Filtering twice with the same test is filtering once. |
| Filters.KeepRowsKeepAll | execute.c:224 | Without a test every row stays. |
| Filters.ColumnsFitRows | execute.c:244-256 | When the column types fit the test, every well-typed row can be tested. |
| Filters.WhereConditionFits | execute.c:244-256 | The helpers can read an integer literal always, a REAL literal only on a REAL column, and a STRING literal only on a STRING column. |
| Execute.IntsFilterWhere | execute.c:266-302 | ints_filter_where deletes row i exactly when its integer fails the test against `(int)atof` of the literal. Otherwise nothing changes. |
| Execute.FilterRealsWhere | execute.c:309-345 | filter_reals_where deletes row i exactly when its real fails the test against atof of the literal. |
| Execute.StringsFilterWhere | execute.c:352-390 | strings_filter_where deletes row i exactly when strcmp of its string with the literal fails the test. |
| Execute.FilterRow | execute.c:246-256 | One iteration of the descending loop. Rows i..n become filtered and rows 1..i-1 stay as they were. |
| Execute.FilterRows | execute.c:245-257 | The descending loop leaves exactly the rows that pass the test, in their original order. |
| Execute.CheckWhere | execute.c:223-259 | check_where leaves exactly the rows that pass the WHERE condition, in order. Without a WHERE clause, rows are unchanged. Columns and function calls are unchanged. |
| Execute.InRequest | execute.c:405-414 | The name is in the request exactly when some requested name equals it, ignoring case. |
| Projection.Wanted | execute.c:403-421 | One flag per column, telling whether its name was requested. |
| Projection.Projected | execute.c:399-422 | Definition, no contract: the columns whose names were requested, in order. `Projection.ProjectedMembers`, `Projection.ProjectedOrder` and `Projection.ProjectedIdempotent` state its properties. |
| Projection.ProjectedMembers | execute.c:403-421 | A column is kept exactly when it was there and its name was requested. |
| Projection.ProjectedOrder | execute.c:403-421 | Kept columns come out in their original order. |
| Projection.ProjectedDistinct | execute.c:403-421 | Columns with distinct names stay distinct. |
| Projection.ProjectedRepeat | execute.c:408-414 | Naming a column twice keeps it once. |
| Projection.ProjectedIdempotent | execute.c:399-422 | Projecting twice keeps what projecting once kept. |
| Execute.FindsCatalogColumn | execute.c:417-418 | While filter_col runs, a catalog column that was not requested is found at its current position: one past the number of kept columns before it. This holds even when catalog names repeat up to case, because every kept column was requested. |
| Projection.RequestedClasses | execute.c:408-411 | Names equal up to case are requested together or not at all. |
| Execute.FilterStep | execute.c:417-420 | A requested column is kept, and a column that was not requested is deleted at its current position. Either way, columns and rows become projected one catalog column further. |
| Execute.FilterOne | execute.c:403-421 | One iteration of filter_col's loop advances the projection by one catalog column. |
| Execute.FilterCol | execute.c:399-422 | filter_col leaves exactly the requested catalog columns, in catalog order. Every row keeps exactly the cells of those columns. Any catalog is accepted, including one whose names repeat up to case. |
| Execute.LocateRequested | execute.c:506-507 | The column carrying the next requested name is found at or after that name's position. |
| Execute.ReorderStep | execute.c:506-508 | Moving the found column to position i keeps a permutation of the original columns and rows, and puts the first i+1 requested names in place. |
| Execute.ReorderOne | execute.c:505-511 | One iteration of reorder_col's loop. |
| Execute.ReorderCol | execute.c:502-512 | Columns and rows are one and the same permutation of the originals, and column j carries the j-th requested name. When the columns' names are requested and pairwise different, there are exactly as many columns as requested names. Needs distinct requested names, all present, from one table. |
| Execute.ExactlyRequested | execute.c:502-512 | Columns whose names are all requested and pairwise different, with the requested names in front, are exactly as many as the request. |
| Execute.RequestedColumnPosition | execute.c:502-512 | Under the same conditions, every column sits within the request's length. |
| Execute.PermutedNames | execute.c:505-511 | Moving columns around keeps their names requested and pairwise different. |
| Execute.ProjectedExact | execute.c:399-422 | filter_col, on a catalog without repeated names, keeps only requested columns, with pairwise different names. |
| Sequences.MovePermute | execute.c:508 | Moving a column of a permuted sequence is permuting by the moved permutation. |
| Sequences.MoveMultiset | execute.c:508 | Moving a column keeps the same multiset of columns. |
| Sequences.PermutationInjective | execute.c:502-512 | A permutation lists no position twice. |
| Execute.AppFunc | execute.c:520-530 | app_func adds exactly the calls for the requested columns that carry a function, at their 1-based positions, left to right. The number of columns stays. With no function requested, columns and rows are unchanged. |
| Projection.AppliedCalls | execute.c:520-530 | Call positions lie within the column list and strictly increase. |
| Projection.AppliedCallsMembers | execute.c:520-530 | A call is made at a position exactly when the requested column there carries a function, and it is made with that function. |
| Execute.CheckLim | execute.c:538-544 | Without a limit, rows are unchanged. With limit N, the first min(N, n) rows remain, unchanged and in order, so there are at most N. |
| Execute.Limited | execute.c:538-544 | The rows left by LIMIT are a prefix: all rows without a limit, min(N, n) of them with limit N. |
| Execute.NextRecord | execute.c:112 | The fgets stand-in: the buffer holds the next record's image. |
| Execute.ReadAll | execute.c:104-117 | The read loop appends one decoded row per record, in file order. |
| Execute.DecodedRows | execute.c:111-116 | There is one decoded row per record of the data file. |
| Execute.ProjectedOneTable | execute.c:507 | After projection all columns still carry the table's name, as reorder_col's lookup assumes. |
| Execute.ProjectedPresent | execute.c:502-512 | Requested names that named catalog columns still name columns after projection. |
| Execute.ExecuteSelect | execute.c:56-130 | Only the table the resolver picks, the first match, must be executable. There is one column per requested name, the function calls are those of the column list, and there are no more rows than the limit. Without functions, the result is the decoded rows, filtered by WHERE, projected, permuted into query order and cut to the limit, and the columns are projected and permuted the same way, so column j carries the j-th requested name. |
| Execute.StagesAnswer | execute.c:99-130 | The stages, each with its own contract, compose into the end-to-end description of the answer. |
| Execute.ExecuteQuery | execute.c:46-139 | A result set exists exactly for a SELECT. Any other query is refused. For a SELECT, only the first matching table must be executable. |
| Execute.CatalogColumns | execute.c:148-159 | Definition, no contract: one column per catalog column, in order, with the table's name, no function and the declared type. Its use is stated by `Execute.CreateDataset`. |
| Execute.Executable | execute.c:58-94 | Definition, no contract: what execute_query takes for granted about the resolved table. Its data file exists, every record fills the buffer and decodes, the WHERE literal can be compared with its column, catalog names differ other than in case, and the requested names are distinct catalog names. |
| Execute.Answers | execute.c:99-130 | Definition, no contract: the end-to-end description of the answer that `Execute.ExecuteSelect` ensures and `Execute.AnswerRows` and `Execute.AnswerColumns` unfold. |
| Execute.AnswerRows | execute.c:99-130 | End to end: there are no more rows than the limit. Without functions, there are no more rows than records either, and each row is a decoded record that passes the WHERE test, cut to the requested fields and put in query order. |
| Execute.AnswerColumns | execute.c:120-126 | End to end: there are exactly as many columns as requested names. Without functions, column j is the catalog column named by the j-th requested name, and no two column names differ only in case. |

## Left out

- File I/O is left out: `fopen`, `fgets`/`feof`, `fclose`, `malloc`/`free`, `resultset_print` and `resultset_destroy`. The data files are a parameter, a map from path to the buffer images of their records. Records are read in file order. `Execute.NextRecord` stands in for `fgets`.
- The failure paths (`db == NULL`, `query == NULL`, a data file that does not open, out of memory) end the process through `panic`. They are preconditions: a table matches, as the C `assert` demands, and the data file of the first matching table is in the map.
- The read loop's end-of-file test is not modelled byte by byte. Each record is taken as one `fgets` result, and the loop stops after the last one. A last line without a newline, which `feof` would skip, is outside the model.
- The overflow of the fixed-size path buffer in execute_query is not modelled. `Execute.DataFilePath` is an unbounded string.
- atof is a parameter (`string -> real`). A C double is a Dafny real. Rounding, NaN and infinities are not modelled.
- CText.Atoi: does not model the 32-bit overflow of atoi, which is undefined behaviour in C. The result is an unbounded integer.
- Values.Trunc: does not model an out-of-range conversion of a double to int, which is undefined behaviour in C.
- The internals of the result set (its linked lists, memory ownership, printing) are not part of this model. The `resultset_*` calls are given the behaviour their names and the executor's use imply. A new row holds 0, 0.0 or "" by type. `resultset_findColumn` matches names ignoring case.
- Execute.IntsFilterWhere / Execute.FilterRealsWhere / Execute.StringsFilterWhere: require the WHERE column to have the type the helper reads. The C code calls `filter_reals_where` for a REAL literal whatever the column's type, and a getter on a cell of another type is behaviour of the result set that is not modelled. `Execute.CheckWhere` therefore requires, when there are rows, that the column types fit the test (`Filters.ColumnsFit`).
- Execute.ReadDataset: requires the record to decode (`Records.DecodeRecord` is Some). A scan that runs off the buffer is undefined behaviour in C, and malformed records are a caller contract.
- Execute.ReorderCol: requires distinct requested names, all naming columns of one table. With a repeated name, `resultset_moveColumn` would be given positions the model does not vouch for.
- Execute.FilterCol: idempotence of projection is stated on `Projection.Projected` (`Projection.ProjectedIdempotent`), not by running `filter_col` twice: a second run would pass -1 to `resultset_deleteColumn`.
- The LIMIT value is a natural number. A negative C `int` limit is outside the model.
- ResultSets.ResultSet.ApplyFunction: what `resultset_applyFunction` does to the cells and the column (an aggregate may collapse the rows) is the container's and is not modelled. The model records each call as (function, position) and promises only that the number of columns stays and the result set stays well typed.
- Execute.ExecuteSelect / Execute.AnswerColumns / Execute.ProjectedExact: require catalog column names that differ other than in case (`Execute.DistinctNames`, part of `Execute.Executable`). Without it the column count is not exact: with catalog columns `a` and `A` and the request `a`, both columns survive filter_col, and the answer has two columns for one requested name.
- Execute.ExecuteSelect: for a column list with functions, promises only the number of columns, the calls made and the LIMIT bound. The final columns and rows are spelled out only for a column list without functions (`Execute.Answers`).
- Execute.AnswerRows: the row-by-row description holds only for a column list without functions. With functions, only the LIMIT bound is promised.
- Execute.AnswerColumns: the column-by-column description holds only for a column list without functions. With functions, only the number of columns is promised.
- The unused helpers `check_dups` and `add_dups` are not modelled: nothing in the executor calls them.
- Characters are Dafny `char`s, not bytes. No encoding or locale is modelled beyond the C-locale `isspace`, `tolower` and byte-wise `strcmp`.
- Execute.FilterRow / Execute.FilterOne / Execute.ReorderOne / Execute.ReadField / Execute.Terminate / Execute.FindQuoted: these are loop bodies of the C functions, factored into methods. The C code has no such functions.
