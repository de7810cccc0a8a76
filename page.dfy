/**
 * The page assembler of paginate.go (`Paginate`): it takes the rows fetched with one
 * row more than the page size, drops that probe row, writes the one token that leads
 * past the page, and puts the rows of a backward page back into the configured order by
 * reversing them in place.
 */
module Page {
  import opened Wrappers
  import opened Bytes
  import opened Json
  import opened Paginator

  /**
   * What `Paginate` is given: nil, a value that is not a list of rows, or a slice, that
   * is the first `len` rows of the array `data`.
   */
  datatype Source = Nil | NotList | Slice(data: array<Row>, len: nat)

  /** The elements of `s` in the opposite order. */
  function Reversed<T>(s: seq<T>): (r: seq<T>)
    ensures |r| == |s|
    ensures forall i :: 0 <= i < |s| ==> r[i] == s[|s| - 1 - i]
  {
    if s == [] then [] else Reversed(s[1..]) + [s[0]]
  }

  lemma ReversedTwice<T>(s: seq<T>)
    ensures Reversed(Reversed(s)) == s
  {
    assert forall i :: 0 <= i < |s| ==> Reversed(Reversed(s))[i] == s[i];
  }

  /** Reversing rearranges the elements and loses none. */
  lemma {:induction false} ReversedPermutation<T>(s: seq<T>)
    ensures multiset(Reversed(s)) == multiset(s)
  {
    if s != [] {
      ReversedPermutation(s[1..]);
      assert s == [s[0]] + s[1..];
      assert Reversed(s) == Reversed(s[1..]) + [s[0]];
    }
  }

  /** The page is trimmed: the request has a page size and more rows came back than it. */
  predicate Trims(pgn: Pagination, n: int) {
    pgn.PageSize != 0 && n > pgn.PageSize
  }

  /** The number of rows shown: all of them, or all but the probe row. */
  function Kept(pgn: Pagination, n: nat): (k: nat)
    requires n > 0
    ensures Trims(pgn, n) ==> k == n - 1
    ensures !Trims(pgn, n) ==> k == n
  {
    if Trims(pgn, n) then n - 1 else n
  }

  /**
   * What the source needs to assemble the page: when it trims, a row before the probe
   * row (the source indexes row n-2) with the fields the cursor reads.
   */
  predicate CanPaginate(p: Paginator, rows: seq<Row>, pgn: Pagination) {
    Trims(pgn, |rows|) ==> |rows| >= 2 && HasKeys(p, rows[|rows| - 2])
  }

  /** The rows of the page, in the order they are returned. */
  function PageRows(rows: seq<Row>, pgn: Pagination): (r: seq<Row>)
    requires rows != []
    ensures |r| == Kept(pgn, |rows|)
  {
    var kept := rows[..Kept(pgn, |rows|)];
    if IsReverse(pgn) then Reversed(kept) else kept
  }

  /** The page description returned with the rows of a non-empty result. */
  function PageOf(p: Paginator, tf: TimeFormat, rows: seq<Row>, pgn: Pagination): (r: Pagination)
    requires rows != [] && |rows| < 0x8000_0000_0000_0000 && CanPaginate(p, rows, pgn)
    ensures r.ThisPageToken == pgn.ThisPageToken
    ensures r.PageSize == Kept(pgn, |rows|)
  {
    var n := |rows|;
    var token := if Trims(pgn, n) then Cursor(p, tf, rows[n - 2]) else [];
    Pagination(Kept(pgn, n),
               if Trims(pgn, n) && !IsReverse(pgn) then token else [],
               pgn.ThisPageToken,
               if Trims(pgn, n) && IsReverse(pgn) then [Minus] + token else [])
  }

  /** The cases in which the source returns its input and no page description. */
  predicate PassesThrough(src: Source, pgn: Option<Pagination>) {
    src.Nil? || pgn.None? || src.NotList? || src.len == 0
  }

  /** The swap loop of `Paginate`: reverses the first `n` elements of `a` in place, from the middle out. */
  method ReversePrefix<T>(a: array<T>, n: nat)
    requires n <= a.Length
    modifies a
    ensures a[..n] == Reversed(old(a[..n]))
    ensures a[n..] == old(a[n..])
  {
    ghost var kept := a[..n];
    var i := n / 2 - 1;
    while i >= 0
      invariant -1 <= i <= n / 2 - 1
      invariant a[n..] == old(a[n..])
      invariant forall j :: 0 <= j <= i ==> a[j] == kept[j]
      invariant forall j :: n - 1 - i <= j < n ==> a[j] == kept[j]
      invariant forall j :: i < j < n - 1 - i ==> a[j] == kept[n - 1 - j]
      decreases i + 1
    {
      var opp := n - 1 - i;
      var val := a[opp];
      a[opp] := a[i];
      a[i] := val;
      i := i - 1;
    }
    assert a[..n] == Reversed(kept);
  }

  /**
   * The page description `Paginate` builds field by field for the `len` rows at the start
   * of `a`, and the number of rows it keeps.
   */
  method Describe(p: Paginator, tf: TimeFormat, a: array<Row>, len: nat, q: Pagination)
      returns (r: Pagination, n: nat)
    requires 0 < len <= a.Length && len < 0x8000_0000_0000_0000 && CanPaginate(p, a[..len], q)
    ensures r == PageOf(p, tf, a[..len], q)
    ensures n == Kept(q, len)
  {
    r := Pagination(0, [], q.ThisPageToken, []);
    var reverse := IsReverse(q);
    n := len;
    var destLen := n;
    if n != 0 {
      if q.PageSize != 0 && n > q.PageSize {
        r := r.(PageSize := n - 1);
        assert a[n - 2] == a[..len][n - 2];
        if !reverse {
          r := r.(NextPageToken := Cursor(p, tf, a[n - 2]));
        } else {
          r := r.(PrevPageToken := [Minus] + Cursor(p, tf, a[n - 2]));
        }
        destLen := n - 1;
      }
    }
    n := destLen;
    r := r.(PageSize := n);
  }

  /**
   * `Paginate` on a non-empty slice of the first `len` rows of `a`: the description, and
   * the first `n` rows put in page order in place.
   */
  method PaginateSlice(p: Paginator, tf: TimeFormat, a: array<Row>, len: nat, q: Pagination)
      returns (n: nat, r: Pagination)
    requires 0 < len <= a.Length && len < 0x8000_0000_0000_0000 && CanPaginate(p, a[..len], q)
    modifies a
    ensures n == Kept(q, len)
    ensures r == PageOf(p, tf, old(a[..len]), q)
    ensures a[..n] == PageRows(old(a[..len]), q)
    ensures a[n..] == old(a[n..])
  {
    ghost var rows := a[..len];
    r, n := Describe(p, tf, a, len, q);
    assert a[..n] == rows[..n];
    if IsReverse(q) {
      ReversePrefix(a, n);
    }
  }

  /**
   * `Paginate`. The returned slice shares the array of the input, whose first rows a
   * backward page reverses in place; the probe row stays where it was.
   */
  method Paginate(p: Paginator, tf: TimeFormat, src: Source, pgn: Option<Pagination>)
      returns (dest: Source, res: Option<Pagination>)
    requires src.Slice? ==> src.len <= src.data.Length && src.len < 0x8000_0000_0000_0000
    requires src.Slice? && pgn.Some? && src.len > 0 ==> CanPaginate(p, src.data[..src.len], pgn.value)
    modifies if src.Slice? then {src.data} else {}
    ensures PassesThrough(src, pgn) ==> dest == src && res.None?
    ensures PassesThrough(src, pgn) && src.Slice? ==> src.data[..] == old(src.data[..])
    ensures !PassesThrough(src, pgn) ==>
      var rows := old(src.data[..src.len]);
      dest == Slice(src.data, Kept(pgn.value, src.len))
      && res == Some(PageOf(p, tf, rows, pgn.value))
      && src.data[..dest.len] == PageRows(rows, pgn.value)
      && src.data[dest.len..] == old(src.data[dest.len..])
  {
    if src.Nil? || pgn.None? {
      return src, None;
    }
    if src.NotList? || src.len == 0 {
      return src, None;
    }
    var n, r := PaginateSlice(p, tf, src.data, src.len, pgn.value);
    return Slice(src.data, n), Some(r);
  }

  // ---------------------------------------------------------------------------
  // Properties of the page
  // ---------------------------------------------------------------------------

  /**
   * The trimming rule: exactly the probe row, the last one fetched, is dropped when the
   * page trims, and nothing otherwise; the response page size is the number of rows shown.
   */
  lemma TrimmingRule(p: Paginator, tf: TimeFormat, rows: seq<Row>, pgn: Pagination)
    requires rows != [] && |rows| < 0x8000_0000_0000_0000 && CanPaginate(p, rows, pgn)
    ensures PageOf(p, tf, rows, pgn).PageSize == |PageRows(rows, pgn)|
    ensures Trims(pgn, |rows|) ==> multiset(PageRows(rows, pgn)) + multiset{rows[|rows| - 1]} == multiset(rows)
    ensures !Trims(pgn, |rows|) ==> multiset(PageRows(rows, pgn)) == multiset(rows)
    ensures !Trims(pgn, |rows|) ==>
      PageOf(p, tf, rows, pgn).NextPageToken == [] && PageOf(p, tf, rows, pgn).PrevPageToken == []
  {
    var k := Kept(pgn, |rows|);
    ReversedPermutation(rows[..k]);
    assert multiset(PageRows(rows, pgn)) == multiset(rows[..k]);
    if Trims(pgn, |rows|) {
      assert rows == rows[..k] + [rows[|rows| - 1]];
    } else {
      assert rows[..k] == rows;
    }
  }

  /**
   * Token placement: a forward page that trims leads on with the cursor of its last row
   * and has no previous-page token; a backward page that trims leads back with the signed
   * cursor of its first row and has no next-page token. Both are row n-2, the last row kept.
   */
  lemma TokenPlacement(p: Paginator, tf: TimeFormat, rows: seq<Row>, pgn: Pagination)
    requires rows != [] && |rows| < 0x8000_0000_0000_0000 && CanPaginate(p, rows, pgn)
    requires Trims(pgn, |rows|)
    ensures var page := PageRows(rows, pgn);
      var r := PageOf(p, tf, rows, pgn);
      |page| == |rows| - 1
      && (!IsReverse(pgn) ==>
            page[|page| - 1] == rows[|rows| - 2]
            && r.NextPageToken == Cursor(p, tf, rows[|rows| - 2])
            && r.PrevPageToken == [])
      && (IsReverse(pgn) ==>
            page[0] == rows[|rows| - 2]
            && r.PrevPageToken == [Minus] + Cursor(p, tf, rows[|rows| - 2])
            && r.NextPageToken == [])
  {
    var n := |rows|;
    var page := PageRows(rows, pgn);
    if IsReverse(pgn) {
      assert page[0] == rows[..n - 1][n - 2];
    } else {
      assert page[|page| - 1] == rows[n - 2];
    }
  }

  /** A trimmed page whose boundary row can be written carries exactly one, non-empty, token. */
  lemma OneToken(p: Paginator, tf: TimeFormat, rows: seq<Row>, pgn: Pagination)
    requires rows != [] && |rows| < 0x8000_0000_0000_0000 && CanPaginate(p, rows, pgn)
    requires Trims(pgn, |rows|) && Encodable(p, tf, rows[|rows| - 2])
    ensures var r := PageOf(p, tf, rows, pgn);
      (r.NextPageToken != []) != (r.PrevPageToken != [])
  {
    CursorUnsigned(p, tf, rows[|rows| - 2]);
  }

  /**
   * Backward reversal: a signed request returns the kept rows in the opposite order,
   * a permutation of them, and reversing again gives the kept rows back.
   */
  lemma BackwardReversal(rows: seq<Row>, pgn: Pagination)
    requires rows != [] && IsReverse(pgn)
    ensures var kept := rows[..Kept(pgn, |rows|)];
      PageRows(rows, pgn) == Reversed(kept)
      && multiset(PageRows(rows, pgn)) == multiset(kept)
      && Reversed(PageRows(rows, pgn)) == kept
  {
    var kept := rows[..Kept(pgn, |rows|)];
    ReversedPermutation(kept);
    ReversedTwice(kept);
  }

  /** An unsigned request returns the kept rows as they came. */
  lemma ForwardInOrder(rows: seq<Row>, pgn: Pagination)
    requires rows != [] && !IsReverse(pgn)
    ensures PageRows(rows, pgn) == rows[..Kept(pgn, |rows|)]
  {
  }
}
