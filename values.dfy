/**
 * The value vocabulary shared by the catalog, the query plan and the result
 * set: declared column types, tagged cell values, function tags, and the
 * three-way comparisons the WHERE filter uses.
 */
module Values {

  /** Declared column types; the catalog encodes them as 1, 2 and 3. */
  datatype ColType = IntType | RealType | StrType

  /**
   * A cell of the result set. A C double is modelled as a real: values are
   * only ever compared, so no floating-point arithmetic is needed.
   */
  datatype Value = Int(i: int) | Real(r: real) | Str(s: string)

  /** A query column's function tag; only NO_FUNCTION is told apart by the executor. */
  datatype Func = NoFunction | Function(code: int)

  predicate HasType(v: Value, t: ColType)
  {
    match t
    case IntType => v.Int?
    case RealType => v.Real?
    case StrType => v.Str?
  }

  /** The value a freshly added row holds in a column of type t. */
  function Default(t: ColType): (v: Value)
    ensures HasType(v, t)
  {
    match t
    case IntType => Int(0)
    case RealType => Real(0.0)
    case StrType => Str("")
  }

  /** Outcome of comparing a row value with a literal. */
  datatype Ord = Lt | Eq | Gt

  function Flip(c: Ord): Ord
  {
    match c
    case Lt => Gt
    case Eq => Eq
    case Gt => Lt
  }

  /**
   * The integer comparisons of filter_ints_where. An int converts to a real
   * exactly, so they are the real comparisons on the converted values.
   */
  function CompareInt(a: int, b: int): (c: Ord)
    ensures c == Lt <==> a < b
    ensures c == Eq <==> a == b
    ensures c == Gt <==> a > b
  {
    CompareReal(a as real, b as real)
  }

  /** The double comparisons of filter_reals_where, on reals. */
  function CompareReal(a: real, b: real): (c: Ord)
    ensures c == Lt <==> a < b
    ensures c == Eq <==> a == b
    ensures c == Gt <==> a > b
  {
    if a < b then Lt else if a == b then Eq else Gt
  }

  /**
   * The sign of strcmp: byte-wise lexicographic order, a proper prefix
   * ordering first. Both operands are C strings, so neither holds a NUL.
   */
  function StrCmp(a: string, b: string): (c: Ord)
    ensures c == Eq <==> a == b
  {
    if a == [] && b == [] then Eq
    else if a == [] then Lt
    else if b == [] then Gt
    else if a[0] < b[0] then Lt
    else if a[0] > b[0] then Gt
    else
      var c := StrCmp(a[1..], b[1..]);
      assert a == [a[0]] + a[1..] && b == [b[0]] + b[1..];
      c
  }

  /** Swapping the operands of strcmp flips the sign of its result. */
  lemma {:induction false} StrCmpAntisymmetric(a: string, b: string)
    ensures StrCmp(b, a) == Flip(StrCmp(a, b))
  {
    if a != [] && b != [] && a[0] == b[0] {
      StrCmpAntisymmetric(a[1..], b[1..]);
    }
  }

  /** strcmp orders strings transitively. */
  lemma {:induction false} StrCmpTransitive(a: string, b: string, c: string)
    requires StrCmp(a, b) == Lt && StrCmp(b, c) == Lt
    ensures StrCmp(a, c) == Lt
  {
    if a != [] && b != [] && c != [] && a[0] == b[0] && b[0] == c[0] {
      StrCmpTransitive(a[1..], b[1..], c[1..]);
    }
  }

  /** The C conversion of a double to int: truncation toward zero. */
  function Trunc(x: real): (n: int)
    ensures x >= 0.0 ==> n as real <= x < n as real + 1.0
    ensures x < 0.0 ==> n as real - 1.0 < x <= n as real
  {
    if x >= 0.0 then x.Floor else -((-x).Floor)
  }
}
