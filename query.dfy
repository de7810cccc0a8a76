/**
 * The query a pagination scope adds to a gorm query (paginate.go `order`, `reverse`,
 * `forward`, `backward` and `Scope`), as the list of clauses it appends, with a small
 * in-memory meaning of the seek condition.
 */
module Query {
  import opened Wrappers
  import opened Bytes
  import opened Json
  import opened Paginator

  datatype Dir = Asc | Desc
  datatype Op = Less | Greater

  /**
   * One call on the query object: `Limit(n)`, `Where("col op ?", arg)`,
   * `Or("col = ? AND tie op ?", arg, tieArg)` and `Order("col dir")`.
   */
  datatype Clause =
    | Limit(n: Int)
    | Where(col: string, op: Op, arg: Value)
    | OrTie(col: string, arg: Value, tie: string, tieOp: Op, tieArg: Value)
    | Order(col: string, dir: Dir)

  function Opposite(d: Dir): (r: Dir)
    ensures r != d
  {
    if d == Asc then Desc else Asc
  }

  /** The configured direction: descending when the paginator is reversed. */
  function Direction(s: ScopeState): Dir {
    if s.rev then Desc else Asc
  }

  /** Sorting by the field, then by the tie column when there is one, all in one direction. */
  function OrderBy(s: ScopeState, d: Dir): (r: seq<Clause>)
    ensures |r| == (if s.tie != "" then 2 else 1)
    ensures r[0] == Order(s.field, d)
    ensures s.tie != "" ==> r[1] == Order(s.tie, d)
  {
    [Order(s.field, d)] + (if s.tie != "" then [Order(s.tie, d)] else [])
  }

  /** `order`: the configured sorting. */
  function OrderClauses(s: ScopeState, db: seq<Clause>): (r: seq<Clause>)
    ensures |r| == |db| + (if s.tie != "" then 2 else 1) && r[..|db|] == db
    ensures r[|db|] == Order(s.field, if s.rev then Desc else Asc)
    ensures s.tie != "" ==> r[|db| + 1] == Order(s.tie, if s.rev then Desc else Asc)
  {
    db + OrderBy(s, Direction(s))
  }

  /** `reverse`: the opposite sorting. */
  function ReverseClauses(s: ScopeState, db: seq<Clause>): (r: seq<Clause>)
    ensures |r| == |db| + (if s.tie != "" then 2 else 1) && r[..|db|] == db
    ensures r[|db|] == Order(s.field, if s.rev then Asc else Desc)
    ensures s.tie != "" ==> r[|db| + 1] == Order(s.tie, if s.rev then Asc else Desc)
  {
    db + OrderBy(s, Opposite(Direction(s)))
  }

  /** `cursor[k]` on the scope's cursor; a nil cursor map reads nil too. */
  function CursorAt(s: ScopeState, k: Bytes): Value {
    if s.cursor.None? then Null else Lookup(s.cursor.value, k)
  }

  /** `cursor["t"] != nil`: the cursor carries a tie value. */
  predicate HasTie(s: ScopeState) {
    CursorAt(s, KeyT) != Null
  }

  /** The seek condition past the cursor in the direction `op`: the key, then the tie when the cursor has one. */
  function Seek(s: ScopeState, op: Op, db: seq<Clause>): (r: seq<Clause>)
    ensures |r| == |db| + (if HasTie(s) then 2 else 1) && r[..|db|] == db
    ensures r[|db|] == Where(s.field, op, CursorAt(s, KeyF))
    ensures HasTie(s) ==> r[|db| + 1] == OrTie(s.field, CursorAt(s, KeyF), s.tie, op, CursorAt(s, KeyT))
  {
    db + [Where(s.field, op, CursorAt(s, KeyF))]
       + (if HasTie(s) then [OrTie(s.field, CursorAt(s, KeyF), s.tie, op, CursorAt(s, KeyT))] else [])
  }

  /** The comparison that follows the sorting `d`: "after" is greater when ascending. */
  function After(d: Dir): Op {
    if d == Asc then Greater else Less
  }

  /** `forward`: rows after the cursor in the configured sorting. */
  function Forward(s: ScopeState, db: seq<Clause>): (r: seq<Clause>)
    ensures |r| == |db| + (if HasTie(s) then 2 else 1) && r[..|db|] == db
    ensures r[|db|] == Where(s.field, if s.rev then Less else Greater, CursorAt(s, KeyF))
    ensures HasTie(s) ==>
      r[|db| + 1] == OrTie(s.field, CursorAt(s, KeyF), s.tie, if s.rev then Less else Greater, CursorAt(s, KeyT))
  {
    Seek(s, After(Direction(s)), db)
  }

  /** `backward`: rows before the cursor in the configured sorting. */
  function Backward(s: ScopeState, db: seq<Clause>): (r: seq<Clause>)
    ensures |r| == |db| + (if HasTie(s) then 2 else 1) && r[..|db|] == db
    ensures r[|db|] == Where(s.field, if s.rev then Greater else Less, CursorAt(s, KeyF))
    ensures HasTie(s) ==>
      r[|db| + 1] == OrTie(s.field, CursorAt(s, KeyF), s.tie, if s.rev then Greater else Less, CursorAt(s, KeyT))
  {
    Seek(s, After(Opposite(Direction(s))), db)
  }

  const MaxInt: Int := 0x7FFF_FFFF_FFFF_FFFF
  const MinInt: Int := -0x8000_0000_0000_0000

  /** `int(n) + 1` on a 64-bit `int`: wraps around at the largest value. */
  function Succ(n: Int): (r: Int)
    ensures n < MaxInt ==> r == n + 1
    ensures n == MaxInt ==> r == MinInt
  {
    if n == MaxInt then MinInt else n + 1
  }

  /** The page limit: one row more than the page size, to see whether a further page exists. */
  function Limited(pgn: Option<Pagination>, db: seq<Clause>): (r: seq<Clause>)
    ensures |db| <= |r| <= |db| + 1 && r[..|db|] == db
    ensures |r| > |db| <==> GetPageSize(pgn) != 0
    ensures |r| > |db| ==> r[|db|] == Limit(Succ(GetPageSize(pgn)))
  {
    var n := GetPageSize(pgn);
    if n != 0 then db + [Limit(Succ(n))] else db
  }

  /** `Scope(pgn)` applied to the query `db`. */
  function Scope(p: Paginator, tf: TimeFormat, pgn: Option<Pagination>, db: seq<Clause>): (r: seq<Clause>)
    ensures |r| > |db| && r[..|db|] == db
    ensures r[|r| - 1].Order? && (r[|r| - 1].dir == Desc <==> p.Reverse != ScopeOf(p, tf, pgn).neg)
  {
    Apply(ScopeOf(p, tf, pgn), pgn, db)
  }

  /** What the function `Scope` returns does with the scope `s` of its request. */
  function Apply(s: ScopeState, pgn: Option<Pagination>, db: seq<Clause>): (r: seq<Clause>)
    ensures |r| > |Limited(pgn, db)| && r[..|db|] == db && r[..|Limited(pgn, db)|] == Limited(pgn, db)
    ensures forall i :: |Limited(pgn, db)| <= i < |r| ==> !r[i].Limit?
    ensures r[|r| - 1] == Order(if s.tie != "" then s.tie else s.field, if s.rev != s.neg then Desc else Asc)
    ensures s.neg || s.cursor.Some? ==>
      r[|Limited(pgn, db)|] == Where(s.field, if s.rev == s.neg then Greater else Less, CursorAt(s, KeyF))
    ensures !s.neg && s.cursor.None? ==> forall i :: |db| <= i < |r| ==> !r[i].Where? && !r[i].OrTie?
  {
    var db1 := Limited(pgn, db);
    if s.neg then
      var x := Backward(s, db1);
      PrefixOfPrefix(db, db1, x);
      PrefixOfPrefix(db, x, ReverseClauses(s, x));
      PrefixOfPrefix(db1, x, ReverseClauses(s, x));
      NoLimitAfter(s, db1, x, ReverseClauses(s, x));
      ReverseClauses(s, x)
    else if s.cursor.Some? then
      var x := Forward(s, db1);
      PrefixOfPrefix(db, db1, x);
      PrefixOfPrefix(db, x, OrderClauses(s, x));
      PrefixOfPrefix(db1, x, OrderClauses(s, x));
      NoLimitAfter(s, db1, x, OrderClauses(s, x));
      OrderClauses(s, x)
    else
      PrefixOfPrefix(db, db1, OrderClauses(s, db1));
      NoSeekClauses(s, pgn, db);
      NoLimitAfter(s, db1, db1, OrderClauses(s, db1));
      OrderClauses(s, db1)
  }

  /** A prefix of a prefix is a prefix. */
  lemma PrefixOfPrefix(a: seq<Clause>, b: seq<Clause>, c: seq<Clause>)
    requires |a| <= |b| <= |c| && b[..|a|] == a && c[..|b|] == b
    ensures c[..|a|] == a
  {
    assert c[..|a|] == c[..|b|][..|a|];
  }

  /** Neither the seek nor the sorting adds a `Limit`. */
  lemma NoLimitAfter(s: ScopeState, db1: seq<Clause>, x: seq<Clause>, r: seq<Clause>)
    requires x == db1 || x == Forward(s, db1) || x == Backward(s, db1)
    requires r == OrderClauses(s, x) || r == ReverseClauses(s, x)
    ensures forall i :: |db1| <= i < |r| ==> !r[i].Limit?
  {
    forall i | |db1| <= i < |r| ensures !r[i].Limit? {
      if i < |x| {
        assert r[i] == x[i];
      }
    }
  }

  /** The limit and the sorting hold no condition clause. */
  lemma NoSeekClauses(s: ScopeState, pgn: Option<Pagination>, db: seq<Clause>)
    ensures forall i :: |db| <= i < |OrderClauses(s, Limited(pgn, db))| ==>
      !OrderClauses(s, Limited(pgn, db))[i].Where? && !OrderClauses(s, Limited(pgn, db))[i].OrTie?
  {
    var db1 := Limited(pgn, db);
    var r := OrderClauses(s, db1);
    forall i | |db| <= i < |r| ensures !r[i].Where? && !r[i].OrTie? {
      if i < |db1| {
        assert r[i] == db1[i];
      }
    }
  }

  // ---------------------------------------------------------------------------
  // Shape of the query
  // ---------------------------------------------------------------------------

  /** `reverse` is `order` of the paginator with the opposite configuration. */
  lemma ReverseIsOrderFlipped(s: ScopeState, db: seq<Clause>)
    ensures ReverseClauses(s, db) == OrderClauses(s.(rev := !s.rev), db)
    ensures forall i :: |db| <= i < |ReverseClauses(s, db)| ==>
      ReverseClauses(s, db)[i].dir == Opposite(OrderClauses(s, db)[i].dir)
  {
  }

  /** `backward` is `forward` of the paginator with the opposite configuration. */
  lemma BackwardIsForwardFlipped(s: ScopeState, db: seq<Clause>)
    ensures Backward(s, db) == Forward(s.(rev := !s.rev), db)
  {
  }

  /** The clauses the scope appends after the limit, by case. */
  lemma ApplyCases(s: ScopeState, pgn: Option<Pagination>, db: seq<Clause>)
    ensures Apply(s, pgn, db) ==
        (if s.neg then Limited(pgn, db)
                   + Seek(s, After(Opposite(Direction(s))), []) + OrderBy(s, Opposite(Direction(s)))
         else if s.cursor.Some? then Limited(pgn, db) + Seek(s, After(Direction(s)), []) + OrderBy(s, Direction(s))
         else Limited(pgn, db) + OrderBy(s, Direction(s)))
  {
    var db1 := Limited(pgn, db);
    assert Seek(s, Less, db1) == db1 + Seek(s, Less, []);
    assert Seek(s, Greater, db1) == db1 + Seek(s, Greater, []);
  }

  /** The query keeps what it was given, and only the limit clause is a `Limit`. */
  lemma ApplyLimit(s: ScopeState, pgn: Option<Pagination>, db: seq<Clause>)
    ensures |Apply(s, pgn, db)| > |db| && Apply(s, pgn, db)[..|db|] == db
    ensures GetPageSize(pgn) != 0 ==> Apply(s, pgn, db)[|db|] == Limit(Succ(GetPageSize(pgn)))
    ensures GetPageSize(pgn) == 0 ==>
      forall i :: |db| <= i < |Apply(s, pgn, db)| ==> !Apply(s, pgn, db)[i].Limit?
  {
    var r := Apply(s, pgn, db);
    if GetPageSize(pgn) != 0 {
      assert r[|db|] == r[..|Limited(pgn, db)|][|db|];
    }
  }

  /** A limit of page size plus one is added exactly when the page size is not 0, and first. */
  lemma ScopeLimit(p: Paginator, tf: TimeFormat, pgn: Option<Pagination>, db: seq<Clause>)
    ensures |Scope(p, tf, pgn, db)| > |db| && Scope(p, tf, pgn, db)[..|db|] == db
    ensures GetPageSize(pgn) != 0 ==> Scope(p, tf, pgn, db)[|db|] == Limit(Succ(GetPageSize(pgn)))
    ensures GetPageSize(pgn) == 0 ==>
      forall i :: |db| <= i < |Scope(p, tf, pgn, db)| ==> !Scope(p, tf, pgn, db)[i].Limit?
  {
    ApplyLimit(ScopeOf(p, tf, pgn), pgn, db);
  }

  /** A signed token with a cursor seeks backward and sorts the opposite way. */
  lemma ScopeBackward(p: Paginator, tf: TimeFormat, pgn: Pagination, db: seq<Clause>)
    requires ScopeOf(p, tf, Some(pgn)).neg
    ensures var s := ScopeOf(p, tf, Some(pgn));
      IsReverse(pgn) && s.cursor.Some?
      && Scope(p, tf, Some(pgn), db) == ReverseClauses(s, Backward(s, Limited(Some(pgn), db)))
  {
  }

  /** An unsigned token with a cursor seeks forward in the configured sorting. */
  lemma ScopeForward(p: Paginator, tf: TimeFormat, pgn: Pagination, db: seq<Clause>)
    requires !IsReverse(pgn) && ScopeOf(p, tf, Some(pgn)).cursor.Some?
    ensures var s := ScopeOf(p, tf, Some(pgn));
      Scope(p, tf, Some(pgn), db) == OrderClauses(s, Forward(s, Limited(Some(pgn), db)))
  {
  }

  /** A scope without cursor appends the limit and the sorting, and no condition. */
  lemma ApplyNoCursor(s: ScopeState, pgn: Option<Pagination>, db: seq<Clause>)
    requires s.cursor.None? && !s.neg
    ensures Apply(s, pgn, db) == Limited(pgn, db) + OrderBy(s, Direction(s))
    ensures forall i :: |db| <= i < |Apply(s, pgn, db)| ==> !Apply(s, pgn, db)[i].Where?
  {
    var db1 := Limited(pgn, db);
    var order := OrderBy(s, Direction(s));
    var r := db1 + order;
    assert Apply(s, pgn, db) == r;
    forall i | |db| <= i < |r| ensures !r[i].Where? {
      if i < |db1| {
        assert r[i] == db1[i];
      } else {
        assert r[i] == order[i - |db1|];
      }
    }
  }

  /** Without a cursor only the limit and the configured sorting are added, whatever the sign. */
  lemma ScopeNoCursor(p: Paginator, tf: TimeFormat, pgn: Option<Pagination>, db: seq<Clause>)
    requires ScopeOf(p, tf, pgn).cursor.None?
    ensures var s := ScopeOf(p, tf, pgn);
      Scope(p, tf, pgn, db) == Limited(pgn, db) + OrderBy(s, Direction(s))
      && forall i :: |db| <= i < |Scope(p, tf, pgn, db)| ==> !Scope(p, tf, pgn, db)[i].Where?
  {
    ApplyNoCursor(ScopeOf(p, tf, pgn), pgn, db);
  }

  /** A nil request adds no limit and no condition: the configured sorting only. */
  lemma ScopeNilRequest(p: Paginator, tf: TimeFormat, db: seq<Clause>)
    ensures Scope(p, tf, None, db) == db + OrderBy(ScopeOf(p, tf, None), Direction(ScopeOf(p, tf, None)))
  {
  }

  // ---------------------------------------------------------------------------
  // Meaning of the seek condition
  // ---------------------------------------------------------------------------

  /** The comparison `op` under the database's strict order `less`. */
  predicate Compare(less: (Value, Value) -> bool, op: Op, a: Value, b: Value) {
    if op == Less then less(a, b) else less(b, a)
  }

  /** Whether a row satisfies one condition clause; other clauses constrain nothing. */
  predicate Holds(less: (Value, Value) -> bool, row: Row, c: Clause) {
    match c
    case Where(col, op, v) => col in row && Compare(less, op, row[col], v)
    case OrTie(col, v, tie, op, w) => col in row && tie in row && row[col] == v && Compare(less, op, row[tie], w)
    case _ => true
  }

  /**
   * The condition of a clause list as gorm combines it when these are the query's only
   * conditions: every `Where` holds, or some `Or` holds.
   */
  predicate Selects(less: (Value, Value) -> bool, row: Row, cs: seq<Clause>) {
    (forall i :: 0 <= i < |cs| && cs[i].Where? ==> Holds(less, row, cs[i]))
    || (exists i :: 0 <= i < |cs| && cs[i].OrTie? && Holds(less, row, cs[i]))
  }

  /** A sort key: the key value and the tie value. */
  datatype Key = Key(f: Value, t: Value)

  /** Strict lexicographic order on sort keys. */
  predicate LexLess(less: (Value, Value) -> bool, a: Key, b: Key) {
    less(a.f, b.f) || (a.f == b.f && less(a.t, b.t))
  }

  /** The sort key of a row, for a scope with a tie column. */
  function RowKey(s: ScopeState, row: Row): Key
    requires s.field in row && s.tie in row
  {
    Key(row[s.field], row[s.tie])
  }

  function CursorKey(s: ScopeState): Key {
    Key(CursorAt(s, KeyF), CursorAt(s, KeyT))
  }

  /** `a` comes strictly before `b` in the sorting `d`. */
  predicate Precedes(less: (Value, Value) -> bool, d: Dir, a: Key, b: Key) {
    if d == Asc then LexLess(less, a, b) else LexLess(less, b, a)
  }

  lemma SeekMeaning(less: (Value, Value) -> bool, s: ScopeState, d: Dir, row: Row)
    requires HasTie(s) && s.field in row && s.tie in row
    ensures Selects(less, row, Seek(s, After(d), [])) <==> Precedes(less, d, CursorKey(s), RowKey(s, row))
  {
    var cs := Seek(s, After(d), []);
    assert |cs| == 2;
    if Precedes(less, d, CursorKey(s), RowKey(s, row)) {
      if !Holds(less, row, cs[0]) {
        assert Holds(less, row, cs[1]);
      }
    }
  }

  /**
   * The forward condition is the lexicographic "after the cursor" on (field, tie) in the
   * configured sorting, and the backward condition is "before the cursor".
   */
  lemma ForwardBackwardMeaning(less: (Value, Value) -> bool, s: ScopeState, row: Row)
    requires HasTie(s) && s.field in row && s.tie in row
    ensures Selects(less, row, Forward(s, [])) <==> Precedes(less, Direction(s), CursorKey(s), RowKey(s, row))
    ensures Selects(less, row, Backward(s, [])) <==> Precedes(less, Direction(s), RowKey(s, row), CursorKey(s))
  {
    SeekMeaning(less, s, Direction(s), row);
    SeekMeaning(less, s, Opposite(Direction(s)), row);
  }

  /** Without a tie value in the cursor, the condition compares the key alone. */
  lemma SeekWithoutTie(less: (Value, Value) -> bool, s: ScopeState, row: Row)
    requires !HasTie(s) && s.field in row
    ensures Selects(less, row, Forward(s, [])) <==>
      Compare(less, After(Direction(s)), row[s.field], CursorAt(s, KeyF))
  {
    var cs := Forward(s, []);
    assert |cs| == 1;
  }
}
