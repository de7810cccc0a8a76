/**
 * Paging through a result: what the token a page hands out makes the next request's scope
 * do. The pieces are the page assembler (module Page), the token codec (module Paginator)
 * and the query builder (module Query).
 */
module Traversal {
  import opened Wrappers
  import opened Bytes
  import opened Json
  import opened Paginator
  import opened Query
  import opened Page

  /** A request echoing the unsigned token of `row` seeks forward from it. */
  lemma ForwardFrom(p: Paginator, tf: TimeFormat, row: Row, token: Bytes, size: Int, db: seq<Clause>)
    requires Encodable(p, tf, row) && token == Cursor(p, tf, row)
    ensures var next := Pagination(size, [], token, []);
      var s := ScopeOf(p, tf, Some(next));
      !IsReverse(next) && !s.neg && s.cursor == Some(ReadBack(p, tf, row))
      && Scope(p, tf, Some(next), db) == OrderClauses(s, Forward(s, Limited(Some(next), db)))
  {
    var next := Pagination(size, [], token, []);
    assert Sign(false) + Cursor(p, tf, row) == token;
    ScopeOfToken(p, tf, row, false, size);
    ScopeForward(p, tf, next, db);
  }

  /** A request echoing the signed token of `row` seeks backward from it. */
  lemma BackwardFrom(p: Paginator, tf: TimeFormat, row: Row, token: Bytes, size: Int, db: seq<Clause>)
    requires Encodable(p, tf, row) && token == [Minus] + Cursor(p, tf, row)
    ensures var prev := Pagination(size, [], token, []);
      var s := ScopeOf(p, tf, Some(prev));
      IsReverse(prev) && s.neg && s.cursor == Some(ReadBack(p, tf, row))
      && Scope(p, tf, Some(prev), db) == ReverseClauses(s, Backward(s, Limited(Some(prev), db)))
  {
    var prev := Pagination(size, [], token, []);
    ScopeOfToken(p, tf, row, true, size);
    ScopeBackward(p, tf, prev, db);
  }

  /**
   * A forward page that trims hands out a next-page token; a request that echoes it, with
   * any page size, seeks forward from the row the token was written from: row n-2 of the
   * n fetched, the last row shown (`Page.TokenPlacement`).
   */
  lemma NextPageSeeksForward(p: Paginator, tf: TimeFormat, rows: seq<Row>, pgn: Pagination,
                             size: Int, db: seq<Clause>)
    requires rows != [] && |rows| < 0x8000_0000_0000_0000 && CanPaginate(p, rows, pgn)
    requires Trims(pgn, |rows|) && !IsReverse(pgn) && Encodable(p, tf, rows[|rows| - 2])
    ensures var next := Pagination(size, [], PageOf(p, tf, rows, pgn).NextPageToken, []);
      var s := ScopeOf(p, tf, Some(next));
      !IsReverse(next) && !s.neg
      && s.cursor == Some(ReadBack(p, tf, rows[|rows| - 2]))
      && Scope(p, tf, Some(next), db) == OrderClauses(s, Forward(s, Limited(Some(next), db)))
  {
    ForwardFrom(p, tf, rows[|rows| - 2], PageOf(p, tf, rows, pgn).NextPageToken, size, db);
  }

  /**
   * A backward page that trims hands out a previous-page token; a request that echoes it
   * seeks backward from the row the token was written from, row n-2 of the n fetched, which
   * is the first row shown once the page is reversed (`Page.TokenPlacement`); that
   * request's rows come back in the opposite sorting, which the assembler turns back.
   */
  lemma PrevPageSeeksBackward(p: Paginator, tf: TimeFormat, rows: seq<Row>, pgn: Pagination,
                              size: Int, db: seq<Clause>)
    requires rows != [] && |rows| < 0x8000_0000_0000_0000 && CanPaginate(p, rows, pgn)
    requires Trims(pgn, |rows|) && IsReverse(pgn) && Encodable(p, tf, rows[|rows| - 2])
    ensures var prev := Pagination(size, [], PageOf(p, tf, rows, pgn).PrevPageToken, []);
      var s := ScopeOf(p, tf, Some(prev));
      IsReverse(prev) && s.neg
      && s.cursor == Some(ReadBack(p, tf, rows[|rows| - 2]))
      && Scope(p, tf, Some(prev), db) == ReverseClauses(s, Backward(s, Limited(Some(prev), db)))
  {
    BackwardFrom(p, tf, rows[|rows| - 2], PageOf(p, tf, rows, pgn).PrevPageToken, size, db);
  }
}
