/** Result contexts of the database client, which are freed by draining them or by free_result, and the loops over
    them. */
module Cursor {
  import Persistence

  /** What execute returns for a query with rows.  Every operation requires that the context is still allocated. */
  class Result {
    const rows: seq<string>
    var at: int
    var live: bool
    var frees: nat

    ghost predicate Open()
      reads this
    {
      live && frees == 0 && -1 <= at < |rows|
    }

    /** Freed once, and for good. */
    ghost predicate Released()
      reads this
    {
      !live && frees == 1
    }

    constructor (rows: seq<string>)
      ensures this.rows == rows && Open() && at == -1
    {
      this.rows, at, live, frees := rows, -1, true, 0;
    }

    method NextResult() returns (more: bool)
      requires Open()
      modifies this
      ensures at == old(at) + 1 && (more <==> at < |rows|)
      ensures if more then Open() else Released()
    {
      at := at + 1;
      more := at < |rows|;
      if !more { live, frees := false, frees + 1; }
    }

    method FreeResult()
      requires Open()
      modifies this
      ensures Released()
    {
      live, frees := false, frees + 1;
    }

    method GetString() returns (s: string)
      requires Open() && at >= 0
      ensures s == rows[at]
    {
      s := rows[at];
    }
  }

  /** The loop of search_db and db_row_matches, for any number of rows and any reason to stop early: it finds the first
      row to stop at, or none, and has released the context exactly once when it returns. */
  method FindFirst(ctx: Result, stop: string -> bool) returns (found: bool, k: nat)
    requires ctx.Open() && ctx.at == -1
    modifies ctx
    ensures ctx.Released() && k <= |ctx.rows| && (found <==> k < |ctx.rows|)
    ensures found ==> stop(ctx.rows[k])
    ensures forall i :: 0 <= i < k ==> !stop(ctx.rows[i])
  {
    k := 0;
    var more := ctx.NextResult();
    while more
      invariant k <= |ctx.rows| && ctx.at == k && (more <==> k < |ctx.rows|)
      invariant if more then ctx.Open() else ctx.Released()
      invariant forall i :: 0 <= i < k ==> !stop(ctx.rows[i])
      decreases |ctx.rows| - k
    {
      var s := ctx.GetString();
      if stop(s) {
        ctx.FreeResult();
        return true, k;
      }
      more := ctx.NextResult();
      k := k + 1;
    }
    found := false;
  }

  /** search_db: whether some row's key starts with the given one. */
  method SearchDb(ctx: Result, key: string) returns (r: bool)
    requires ctx.Open() && ctx.at == -1
    modifies ctx
    ensures ctx.Released()
    ensures r <==> Persistence.HasRow((set s | s in ctx.rows), key)
  {
    var k;
    r, k := FindFirst(ctx, (s: string) => key <= s);
    ghost var all := set s | s in ctx.rows;
    if r {
      assert ctx.rows[k] in all && key <= ctx.rows[k];
    } else {
      forall s | s in all ensures !(key <= s) {
        var i :| 0 <= i < |ctx.rows| && ctx.rows[i] == s;
      }
    }
  }

  /** is_table_empty, once the query has returned a context. */
  method IsTableEmpty(ctx: Result) returns (r: bool)
    requires ctx.Open() && ctx.at == -1
    modifies ctx
    ensures ctx.Released() && (r <==> ctx.rows == [])
  {
    var more := ctx.NextResult();
    if more { ctx.FreeResult(); }
    r := !more;
  }

  /** The loops of compare_row and load_table, which drain the context. */
  method AnyRow(ctx: Result, matches: string -> bool) returns (r: bool)
    requires ctx.Open() && ctx.at == -1
    modifies ctx
    ensures ctx.Released() && (r <==> exists s :: s in ctx.rows && matches(s))
  {
    r := false;
    ghost var k := 0;
    var more := ctx.NextResult();
    while more
      invariant k <= |ctx.rows| && ctx.at == k && (more <==> k < |ctx.rows|)
      invariant if more then ctx.Open() else ctx.Released()
      invariant r <==> exists s :: s in ctx.rows[..k] && matches(s)
      decreases |ctx.rows| - k
    {
      var s := ctx.GetString();
      if matches(s) { r := true; }
      assert ctx.rows[..k + 1] == ctx.rows[..k] + [s];
      more := ctx.NextResult();
      k := k + 1;
    }
    assert ctx.rows[..k] == ctx.rows;
  }
}
