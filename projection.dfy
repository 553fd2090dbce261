/**
 * What the query's column list does to the result set: which columns
 * filter_col keeps, the order reorder_col puts them in, and the
 * resultset_applyFunction calls app_func makes.
 */
module Projection {
  import opened Values
  import opened Names
  import opened Sequences
  import opened Ast
  import opened ResultSets

  /** Some requested column carries this name, compared case-insensitively (strcasecmp). */
  predicate Requested(req: seq<RequestedColumn>, name: string)
  {
    exists j :: 0 <= j < |req| && EqualsIgnoreCase(name, req[j].name)
  }

  /** Names equal up to case are requested together or not at all. */
  lemma RequestedClasses(req: seq<RequestedColumn>, a: string, b: string)
    requires EqualsIgnoreCase(a, b)
    ensures Requested(req, a) <==> Requested(req, b)
  {
    forall j | 0 <= j < |req|
      ensures EqualsIgnoreCase(a, req[j].name) <==> EqualsIgnoreCase(b, req[j].name)
    {
      EqualsIgnoreCaseClasses(a, b, req[j].name);
    }
  }

  /** One flag per column: is its name requested? */
  function Wanted(cols: seq<Column>, req: seq<RequestedColumn>): (keep: seq<bool>)
    ensures |keep| == |cols| && forall k :: 0 <= k < |cols| ==> keep[k] == Requested(req, cols[k].name)
  {
    seq(|cols|, k requires 0 <= k < |cols| => Requested(req, cols[k].name))
  }

  /** The columns left once every column whose name was not requested is gone. */
  function Projected(cols: seq<Column>, req: seq<RequestedColumn>): seq<Column>
  {
    Mask(cols, Wanted(cols, req))
  }

  /** A column is kept exactly when it was there and its name was requested. */
  lemma ProjectedMembers(cols: seq<Column>, req: seq<RequestedColumn>, c: Column)
    ensures c in Projected(cols, req) <==> c in cols && Requested(req, c.name)
  {
    MaskMembers(cols, Wanted(cols, req), c);
  }

  /** The kept columns come out in the order they had. */
  lemma ProjectedOrder(cols: seq<Column>, req: seq<RequestedColumn>, j1: nat, j2: nat)
    requires j1 < j2 < |Projected(cols, req)|
    ensures exists k1, k2 :: 0 <= k1 < k2 < |cols| && Projected(cols, req)[j1] == cols[k1] && Projected(cols, req)[j2] == cols[k2]
  {
    var keep := Wanted(cols, req);
    MaskLength(cols, keep);
    MaskAt(cols, keep, j1);
    MaskAt(cols, keep, j2);
    KeptIndexIncreasing(keep, j1, j2);
  }

  /** Columns with pairwise different names keep pairwise different names. */
  lemma ProjectedDistinct(cols: seq<Column>, req: seq<RequestedColumn>)
    requires forall k1, k2 :: 0 <= k1 < k2 < |cols| ==> cols[k1].name != cols[k2].name
    ensures forall j1, j2 :: 0 <= j1 < j2 < |Projected(cols, req)| ==> Projected(cols, req)[j1].name != Projected(cols, req)[j2].name
  {
    forall j1, j2 | 0 <= j1 < j2 < |Projected(cols, req)|
      ensures Projected(cols, req)[j1].name != Projected(cols, req)[j2].name
    {
      ProjectedOrder(cols, req, j1, j2);
    }
  }

  /** Only the set of requested names matters: naming a column twice keeps it once. */
  lemma ProjectedRepeat(cols: seq<Column>, req: seq<RequestedColumn>, j: nat)
    requires j < |req|
    ensures Projected(cols, req + [req[j]]) == Projected(cols, req)
  {
    forall k | 0 <= k < |cols|
      ensures Requested(req + [req[j]], cols[k].name) == Requested(req, cols[k].name)
    {
      if Requested(req + [req[j]], cols[k].name) {
        var i :| 0 <= i < |req| + 1 && EqualsIgnoreCase(cols[k].name, (req + [req[j]])[i].name);
        if i == |req| {
          assert EqualsIgnoreCase(cols[k].name, req[j].name);
        } else {
          assert EqualsIgnoreCase(cols[k].name, req[i].name);
        }
      }
      if Requested(req, cols[k].name) {
        var i :| 0 <= i < |req| && EqualsIgnoreCase(cols[k].name, req[i].name);
        assert (req + [req[j]])[i] == req[i];
      }
    }
    assert Wanted(cols, req + [req[j]]) == Wanted(cols, req);
  }

  /** Projecting a second time keeps everything. */
  lemma ProjectedIdempotent(cols: seq<Column>, req: seq<RequestedColumn>)
    ensures Projected(Projected(cols, req), req) == Projected(cols, req)
  {
    var kept := Projected(cols, req);
    forall k | 0 <= k < |kept|
      ensures Wanted(kept, req)[k]
    {
      ProjectedMembers(cols, req, kept[k]);
    }
    MaskAll(kept, Wanted(kept, req));
  }

  /**
   * The calls of resultset_applyFunction for a column list, in the order
   * they are made: one for every requested column with a function, at that
   * column's 1-based position in the list.
   */
  function AppliedCalls(req: seq<RequestedColumn>): (calls: seq<Application>)
    ensures forall k :: 0 <= k < |calls| ==> 1 <= calls[k].position <= |req|
    ensures forall k1, k2 :: 0 <= k1 < k2 < |calls| ==> calls[k1].position < calls[k2].position
  {
    if req == [] then []
    else
      var n := |req| - 1;
      AppliedCalls(req[..n]) + (if req[n].func != NoFunction then [Application(req[n].func, n + 1)] else [])
  }

  /** A call is made at a position exactly when the column there carries a function, and with that function. */
  lemma {:induction false} AppliedCallsMembers(req: seq<RequestedColumn>, a: Application)
    ensures a in AppliedCalls(req) <==> 1 <= a.position <= |req| && a.func == req[a.position - 1].func && a.func != NoFunction
  {
    if req != [] {
      var n := |req| - 1;
      AppliedCallsMembers(req[..n], a);
      if 1 <= a.position <= n {
        assert req[..n][a.position - 1] == req[a.position - 1];
      }
    }
  }
}
