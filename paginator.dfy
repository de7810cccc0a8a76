/**
 * The paginator of paginate.go: its configuration, the request/response record, the
 * page cursor written into a token (`cursor`) and the scope read back from a request
 * token (`scope`, `isReverse`).
 */
module Paginator {
  import opened Wrappers
  import opened Bytes
  import Base64
  import opened Json

  /** Go's `int` on a 64-bit platform. */
  type Int = x: int | -0x8000_0000_0000_0000 <= x < 0x8000_0000_0000_0000

  /** The paginator configuration. Field names are the row's field names; the column names equal them. */
  datatype Paginator = Paginator(FieldName: string, TieBreakField: string, Reverse: bool, Debug: bool, IsTime: bool)

  /** A page request as the client sends it, or the page description returned with the rows. */
  datatype Pagination = Pagination(PageSize: Int, NextPageToken: Bytes, ThisPageToken: Bytes, PrevPageToken: Bytes)

  /** A row of the result: the value of each field, by field name. */
  type Row = map<string, Value>

  /** `GetPageSize` on a possibly nil request: a nil request has page size 0. */
  function GetPageSize(pgn: Option<Pagination>): (n: Int)
    ensures pgn.None? ==> n == 0
    ensures pgn.Some? ==> n == pgn.value.PageSize
  {
    match pgn
    case None => 0
    case Some(q) => q.PageSize
  }

  // ---------------------------------------------------------------------------
  // Writing a cursor
  // ---------------------------------------------------------------------------

  /** The row has the fields the cursor reads (a missing field makes the source panic). */
  predicate HasKeys(p: Paginator, row: Row) {
    p.FieldName in row && (p.TieBreakField != "" ==> p.TieBreakField in row)
  }

  /** The tie value the cursor carries: present exactly when a tie-break field is configured. */
  function TieOf(p: Paginator, row: Row): (t: Option<Value>)
    requires HasKeys(p, row)
    ensures t.Some? <==> p.TieBreakField != ""
  {
    if p.TieBreakField != "" then Some(row[p.TieBreakField]) else None
  }

  /** The JSON of the cursor map; empty when marshalling fails, since the error is discarded. */
  function CursorJson(p: Paginator, tf: TimeFormat, row: Row): (jd: Bytes)
    requires HasKeys(p, row)
    ensures jd == [] <==> EncodeValue(tf, row[p.FieldName]).None?
                          || (p.TieBreakField != "" && EncodeValue(tf, row[p.TieBreakField]).None?)
    ensures jd != [] ==> jd[0] == OpenBrace && jd[|jd| - 1] == CloseBrace
  {
    match EncodeCursor(tf, row[p.FieldName], TieOf(p, row))
    case None => []
    case Some(jd) => jd
  }

  /** The token of a row: its cursor JSON, raw in Debug mode, else in unpadded URL-safe base64. */
  function Cursor(p: Paginator, tf: TimeFormat, row: Row): (token: Bytes)
    requires HasKeys(p, row)
    ensures !p.Debug ==> forall i :: 0 <= i < |token| ==> Base64.IsSymbol(token[i])
    ensures p.Debug ==> token == CursorJson(p, tf, row)
  {
    var jd := CursorJson(p, tf, row);
    if p.Debug then jd else Base64.Encode(jd)
  }

  // ---------------------------------------------------------------------------
  // Reading a token
  // ---------------------------------------------------------------------------

  /** `isReverse`: a request asks for the page before its token when the token starts with "-". */
  function IsReverse(pgn: Pagination): (r: bool)
    ensures r <==> pgn.ThisPageToken != [] && pgn.ThisPageToken[0] == Minus
  {
    if pgn.ThisPageToken == [] then false else HasPrefix(pgn.ThisPageToken, [Minus])
  }

  /** The bytes a token carries: one leading "-" removed, then base64 decoded unless in Debug mode. */
  function TokenData(p: Paginator, token: Bytes): (data: Bytes)
    ensures p.Debug && token != [] && token[0] == Minus ==> token == [Minus] + data
    ensures p.Debug && (token == [] || token[0] != Minus) ==> data == token
    ensures !p.Debug ==> 4 * |data| <= 3 * |token|
  {
    var body := TrimPrefix(token, [Minus]);
    if p.Debug then body else Base64.Decode(body)
  }

  /** `cursor["f"]`: a key absent from the map reads as nil. */
  function Lookup(m: map<Bytes, Value>, k: Bytes): (v: Value)
    ensures k !in m ==> v == Null
    ensures k in m ==> v == m[k]
  {
    if k in m then m[k] else Null
  }

  /**
   * The key value re-read as a time: a string is parsed as RFC 3339 text, and anything
   * else parses as the empty string; a parse error gives the zero time.
   */
  function AsTime(tf: TimeFormat, v: Value): (r: Value)
    ensures r.Time?
    ensures v.Str? && tf.parse(v.s).Some? ==> r.at == tf.parse(v.s).value
    ensures !v.Str? && tf.parse([]).Some? ==> r.at == tf.parse([]).value
    ensures (if v.Str? then tf.parse(v.s) else tf.parse([])).None? ==> r.at == tf.zero
  {
    var d := if v.Str? then v.s else [];
    Time(match tf.parse(d) case Some(t) => t case None => tf.zero)
  }

  /** The cursor a token gives the scope: None when the token does not decode to a JSON object. */
  function TokenCursor(p: Paginator, tf: TimeFormat, token: Bytes): (c: Option<map<Bytes, Value>>)
    ensures c.Some? <==> Json.Decode(TokenData(p, token)).Some?
    ensures c.Some? && p.IsTime ==> KeyF in c.value && c.value[KeyF].Time?
  {
    match Json.Decode(TokenData(p, token))
    case None => None
    case Some(m) => Some(if p.IsTime then m[KeyF := AsTime(tf, Lookup(m, KeyF))] else m)
  }

  /** The state `scope` builds: direction, columns and the cursor read from the request. */
  datatype ScopeState = ScopeState(rev: bool, neg: bool, field: string, tie: string, cursor: Option<map<Bytes, Value>>)

  /** The scope of a request: a signed token counts as backward only when it carries a cursor. */
  function ScopeOf(p: Paginator, tf: TimeFormat, pgn: Option<Pagination>): (s: ScopeState)
    ensures s.rev == p.Reverse && s.field == p.FieldName && s.tie == p.TieBreakField
    ensures pgn.None? ==> !s.neg && s.cursor.None?
    ensures s.neg ==> s.cursor.Some?
  {
    var c := if pgn.None? then None else TokenCursor(p, tf, pgn.value.ThisPageToken);
    ScopeState(p.Reverse, pgn.Some? && HasPrefix(pgn.value.ThisPageToken, [Minus]) && c.Some?,
               p.FieldName, p.TieBreakField, c)
  }

  /** `res.cursor["f"]` re-read as a time, as the source does it: the string, else "", parsed. */
  method ReadKeyAsTime(tf: TimeFormat, m: map<Bytes, Value>) returns (m': map<Bytes, Value>)
    ensures m' == m[KeyF := AsTime(tf, Lookup(m, KeyF))]
  {
    var d: Bytes := [];
    var f := Lookup(m, KeyF);
    if f.Str? {
      d := f.s;
    }
    var at := tf.zero;
    if tf.parse(d).Some? {
      at := tf.parse(d).value;
    }
    m' := m[KeyF := Time(at)];
  }

  /** `scope`, step by step as the source assigns the fields of its result. */
  method BuildScope(p: Paginator, tf: TimeFormat, pgn: Option<Pagination>) returns (res: ScopeState)
    ensures res == ScopeOf(p, tf, pgn)
  {
    res := ScopeState(p.Reverse, false, p.FieldName, p.TieBreakField, None);
    if pgn.None? {
      return;
    }
    var token := pgn.value.ThisPageToken;
    res := res.(neg := HasPrefix(token, [Minus]));
    var data: Bytes;
    if p.Debug {
      data := TrimPrefix(token, [Minus]);
    } else {
      data := Base64.Decode(TrimPrefix(token, [Minus]));
    }
    assert data == TokenData(p, token);
    res := res.(cursor := Json.Decode(data));
    if p.IsTime && res.cursor.Some? {
      var m := ReadKeyAsTime(tf, res.cursor.value);
      res := res.(cursor := Some(m));
    }
    assert res.cursor == TokenCursor(p, tf, token);
    res := res.(neg := res.neg && res.cursor.Some?);
  }

  // ---------------------------------------------------------------------------
  // Properties of the codec
  // ---------------------------------------------------------------------------

  /** The row's cursor values can be written, and none is a fraction. */
  predicate Encodable(p: Paginator, tf: TimeFormat, row: Row) {
    HasKeys(p, row)
    && EncodeValue(tf, row[p.FieldName]).Some? && !row[p.FieldName].Frac?
    && (p.TieBreakField != "" ==>
          EncodeValue(tf, row[p.TieBreakField]).Some? && !row[p.TieBreakField].Frac?)
  }

  /** The cursor the scope reads back from a row's token. */
  function ReadBack(p: Paginator, tf: TimeFormat, row: Row): (m: map<Bytes, Value>)
    requires Encodable(p, tf, row)
    ensures KeyF in m && (KeyT in m <==> p.TieBreakField != "")
  {
    var f := Decoded(tf, row[p.FieldName]);
    var f' := if p.IsTime then AsTime(tf, f) else f;
    if p.TieBreakField == "" then map[KeyF := f']
    else map[KeyF := f', KeyT := Decoded(tf, row[p.TieBreakField])]
  }

  lemma CursorJsonRoundTrip(p: Paginator, tf: TimeFormat, row: Row)
    requires Encodable(p, tf, row)
    ensures EncodeCursor(tf, row[p.FieldName], TieOf(p, row)).Some?
    ensures CursorJson(p, tf, row) != [] && CursorJson(p, tf, row)[0] == OpenBrace
    ensures Json.Decode(CursorJson(p, tf, row)) == Some(
      if p.TieBreakField == "" then map[KeyF := Decoded(tf, row[p.FieldName])]
      else map[KeyF := Decoded(tf, row[p.FieldName]), KeyT := Decoded(tf, row[p.TieBreakField])])
  {
    CursorRoundTrip(tf, row[p.FieldName], TieOf(p, row));
  }

  /** The prefix of a signed token. */
  function Sign(signed: bool): Bytes {
    if signed then [Minus] else []
  }

  /** A token whose JSON starts with '{', signed or not, carries that JSON. */
  lemma TokenDataOfJson(p: Paginator, jd: Bytes, signed: bool)
    requires jd != [] && jd[0] == OpenBrace
    ensures TokenData(p, Sign(signed) + (if p.Debug then jd else Base64.Encode(jd))) == jd
  {
    var token := if p.Debug then jd else Base64.Encode(jd);
    if !p.Debug {
      Base64.EncodeFirst(jd);
      Base64.DecodeEncode(jd);
    }
    assert token != [] && token[0] != Minus;
    if signed {
      assert TrimPrefix([Minus] + token, [Minus]) == token by {
        assert ([Minus] + token)[..1] == [Minus];
        assert ([Minus] + token)[1..] == token;
      }
    } else {
      assert [] + token == token;
      assert token[..1] != [Minus] by {
        assert token[..1][0] == token[0];
      }
    }
  }

  /** The data inside a row's token, unsigned or signed, is the cursor JSON. */
  lemma TokenDataOfCursor(p: Paginator, tf: TimeFormat, row: Row, signed: bool)
    requires Encodable(p, tf, row)
    ensures TokenData(p, Sign(signed) + Cursor(p, tf, row)) == CursorJson(p, tf, row)
  {
    CursorJsonRoundTrip(p, tf, row);
    TokenDataOfJson(p, CursorJson(p, tf, row), signed);
  }

  /** What the scope does to a decoded map. */
  lemma TokenCursorOf(p: Paginator, tf: TimeFormat, token: Bytes, m: map<Bytes, Value>)
    requires Json.Decode(TokenData(p, token)) == Some(m)
    ensures TokenCursor(p, tf, token) == Some(if p.IsTime then m[KeyF := AsTime(tf, Lookup(m, KeyF))] else m)
  {
  }

  /** Re-reading the key of a written cursor as a time. */
  lemma ReadBackOf(p: Paginator, tf: TimeFormat, row: Row, m: map<Bytes, Value>)
    requires Encodable(p, tf, row)
    requires m == if p.TieBreakField == "" then map[KeyF := Decoded(tf, row[p.FieldName])]
      else map[KeyF := Decoded(tf, row[p.FieldName]), KeyT := Decoded(tf, row[p.TieBreakField])]
    ensures (if p.IsTime then m[KeyF := AsTime(tf, Lookup(m, KeyF))] else m) == ReadBack(p, tf, row)
  {
    var f := Decoded(tf, row[p.FieldName]);
    if p.IsTime && p.TieBreakField != "" {
      var t := Decoded(tf, row[p.TieBreakField]);
      assert KeyF != KeyT;
      assert Lookup(m, KeyF) == f;
      assert m[KeyF := AsTime(tf, f)] == map[KeyF := AsTime(tf, f), KeyT := t];
    }
  }

  /**
   * Round trip of a token: the scope reads, from the token of a row, a cursor with "f"
   * and, exactly when a tie-break field is configured, "t", holding the row's values
   * (a time as its text, and the key re-read as a time when IsTime is set). A signed
   * token reads the same.
   */
  lemma TokenRoundTrip(p: Paginator, tf: TimeFormat, row: Row, signed: bool)
    requires Encodable(p, tf, row)
    ensures TokenCursor(p, tf, Sign(signed) + Cursor(p, tf, row)) == Some(ReadBack(p, tf, row))
  {
    var token := Sign(signed) + Cursor(p, tf, row);
    var m := if p.TieBreakField == "" then map[KeyF := Decoded(tf, row[p.FieldName])]
      else map[KeyF := Decoded(tf, row[p.FieldName]), KeyT := Decoded(tf, row[p.TieBreakField])];
    TokenDataOfCursor(p, tf, row, signed);
    CursorJsonRoundTrip(p, tf, row);
    TokenCursorOf(p, tf, token, m);
    ReadBackOf(p, tf, row, m);
  }

  /** The key the scope reads back from a row's token. */
  lemma ReadBackKey(p: Paginator, tf: TimeFormat, row: Row)
    requires Encodable(p, tf, row)
    ensures ReadBack(p, tf, row)[KeyF]
         == if p.IsTime then AsTime(tf, Decoded(tf, row[p.FieldName])) else Decoded(tf, row[p.FieldName])
  {
  }

  /** A time key written to a token comes back as the same instant, when parsing inverts formatting. */
  lemma TimeKeyRoundTrip(p: Paginator, tf: TimeFormat, row: Row)
    requires Encodable(p, tf, row) && p.IsTime && ParsesFormatted(tf)
    requires row[p.FieldName].Time?
    ensures ReadBack(p, tf, row)[KeyF] == row[p.FieldName]
  {
    ReadBackKey(p, tf, row);
    var at := row[p.FieldName].at;
    assert Decoded(tf, row[p.FieldName]) == Str(tf.format(at).value);
    assert tf.parse(tf.format(at).value) == Some(at);
  }

  /** With IsTime set, a key that is not a string reads back as the time of the empty text. */
  lemma NonTimeKeyReadsAsTime(p: Paginator, tf: TimeFormat, row: Row)
    requires Encodable(p, tf, row) && p.IsTime
    requires !row[p.FieldName].Time? && !row[p.FieldName].Str?
    ensures ReadBack(p, tf, row)[KeyF] == Time(if tf.parse([]).Some? then tf.parse([]).value else tf.zero)
  {
  }

  /** A row's token is never signed, so a next-page token is read as a forward request. */
  lemma CursorUnsigned(p: Paginator, tf: TimeFormat, row: Row)
    requires Encodable(p, tf, row)
    ensures Cursor(p, tf, row) != [] && Cursor(p, tf, row)[0] != Minus
    ensures !IsReverse(Pagination(0, [], Cursor(p, tf, row), []))
  {
    CursorJsonRoundTrip(p, tf, row);
    if !p.Debug {
      Base64.EncodeFirst(CursorJson(p, tf, row));
    }
  }

  /** When the cursor cannot be marshalled, the token is empty in either mode. */
  lemma MarshalFailureEmptyToken(p: Paginator, tf: TimeFormat, row: Row)
    requires HasKeys(p, row)
    requires EncodeCursor(tf, row[p.FieldName], TieOf(p, row)).None?
    ensures Cursor(p, tf, row) == []
  {
  }

  /** An empty token gives no cursor and a forward request. */
  lemma EmptyTokenNoCursor(p: Paginator, tf: TimeFormat, pgn: Pagination)
    requires pgn.ThisPageToken == []
    ensures ScopeOf(p, tf, Some(pgn)).cursor.None?
    ensures !ScopeOf(p, tf, Some(pgn)).neg && !IsReverse(pgn)
  {
    assert TokenData(p, []) == [] by {
      assert Base64.StripNewlines([]) == [];
    }
    DecodeEmpty();
  }

  /** A signed row token is a backward scope with the row's cursor; an unsigned one is forward. */
  lemma ScopeOfToken(p: Paginator, tf: TimeFormat, row: Row, signed: bool, size: Int)
    requires Encodable(p, tf, row)
    ensures var pgn := Pagination(size, [], Sign(signed) + Cursor(p, tf, row), []);
      ScopeOf(p, tf, Some(pgn)).cursor == Some(ReadBack(p, tf, row))
      && ScopeOf(p, tf, Some(pgn)).neg == signed
      && IsReverse(pgn) == signed
  {
    var token := Sign(signed) + Cursor(p, tf, row);
    TokenRoundTrip(p, tf, row, signed);
    CursorUnsigned(p, tf, row);
    if signed {
      assert token[..1] == [Minus];
    } else {
      assert token == Cursor(p, tf, row);
    }
  }

  /**
   * The direction mismatch: a signed token whose data does not decode to a JSON object
   * reverses the page, but it carries no cursor, so the scope queries forward.
   */
  lemma SignedUndecodable(p: Paginator, tf: TimeFormat, pgn: Pagination)
    requires pgn.ThisPageToken != [] && pgn.ThisPageToken[0] == Minus
    requires Json.Decode(TokenData(p, pgn.ThisPageToken)).None?
    ensures IsReverse(pgn) && !ScopeOf(p, tf, Some(pgn)).neg && ScopeOf(p, tf, Some(pgn)).cursor.None?
  {
  }

  /** The token "-" alone is such a token: its data is empty. */
  lemma SignedWithoutCursor(p: Paginator, tf: TimeFormat, size: Int)
    ensures var pgn := Pagination(size, [], [Minus], []);
      IsReverse(pgn) && !ScopeOf(p, tf, Some(pgn)).neg && ScopeOf(p, tf, Some(pgn)).cursor.None?
  {
    assert TrimPrefix([Minus], [Minus]) == [];
    assert TokenData(p, [Minus]) == [] by {
      assert Base64.StripNewlines([]) == [];
    }
    DecodeEmpty();
    SignedUndecodable(p, tf, Pagination(size, [], [Minus], []));
  }
}
