/**
 * The JSON (RFC 8259) the cursor codec needs: Go's `json.Marshal` of the cursor map
 * `{"f": key, "t": tie}` over the value types a row column can hold, and Go's
 * `json.Unmarshal` of a document into a `map[string]interface{}`.
 */
module Json {
  import opened Wrappers
  import opened Bytes

  /** A point in time, in nanoseconds from an arbitrary origin; `time.Time` in the source. */
  type Instant = int

  /**
   * What the model takes from Go's `time` package, as given functions.
   * `format` is the RFC 3339 text `time.Time.MarshalJSON` writes (section 5.6 of RFC 3339,
   * with nanoseconds); it yields None where MarshalJSON fails (a year outside 0..9999).
   * `parse` is `time.Parse(time.RFC3339Nano, _)`, None on a parse error; `zero` is the
   * zero `time.Time` that `time.Parse` returns with its error.
   */
  datatype TimeFormat = TimeFormat(format: Instant -> Option<Bytes>, parse: Bytes -> Option<Instant>, zero: Instant)

  /** Parsing what was formatted gives back the same instant. */
  ghost predicate ParsesFormatted(tf: TimeFormat) {
    forall t :: tf.format(t).Some? ==> tf.parse(tf.format(t).value) == Some(t)
  }

  /**
   * A value in a row column or in a decoded cursor. `Frac` is a JSON number written with
   * a fraction or an exponent, kept as its literal text.
   */
  datatype Value = Null | Bool(b: bool) | Num(n: int) | Frac(literal: Bytes) | Str(s: Bytes) | Time(at: Instant)

  const Quote: byte := 0x22
  const Backslash: byte := 0x5C
  const Comma: byte := 0x2C
  const Colon: byte := 0x3A
  const OpenBrace: byte := 0x7B
  const CloseBrace: byte := 0x7D

  const LiteralNull: Bytes := ['n' as int, 'u' as int, 'l' as int, 'l' as int]
  const LiteralTrue: Bytes := ['t' as int, 'r' as int, 'u' as int, 'e' as int]
  const LiteralFalse: Bytes := ['f' as int, 'a' as int, 'l' as int, 's' as int, 'e' as int]
  /** `\u202`, the head of the escapes for U+2028 and U+2029. */
  const LineSeparatorEscape: Bytes := [Backslash, 'u' as int, '2' as int, '0' as int, '2' as int]

  predicate IsDigit(c: byte) {
    '0' as int <= c <= '9' as int
  }

  // ---------------------------------------------------------------------------
  // Encoding
  // ---------------------------------------------------------------------------

  /** The lower-case hexadecimal digit for `d` (Go's `hex` table). */
  function HexDigit(d: int): (c: byte)
    requires 0 <= d < 16
  {
    if d < 10 then '0' as int + d else 'a' as int + (d - 10)
  }

  /**
   * The escape Go's encoder writes for one byte of a string, with HTML escaping on:
   * quote and backslash get a backslash, the five control characters with a short form
   * get it, other control characters and `<`, `>`, `&` become `\u00XX`.
   */
  function EscapeByte(c: byte): (e: Bytes)
    ensures e != []
  {
    if c == Quote || c == Backslash then [Backslash, c]
    else if c == 0x08 then [Backslash, 'b' as int]
    else if c == 0x0C then [Backslash, 'f' as int]
    else if c == 0x0A then [Backslash, 'n' as int]
    else if c == 0x0D then [Backslash, 'r' as int]
    else if c == 0x09 then [Backslash, 't' as int]
    else if c < 0x20 || c == '<' as int || c == '>' as int || c == '&' as int then
      [Backslash, 'u' as int, '0' as int, '0' as int, HexDigit(c / 16), HexDigit(c % 16)]
    else [c]
  }

  /** The string starts with the UTF-8 encoding of U+2028 or U+2029. */
  predicate StartsWithLineSeparator(s: Bytes) {
    |s| >= 3 && s[0] == 0xE2 && s[1] == 0x80 && (s[2] == 0xA8 || s[2] == 0xA9)
  }

  /** Escaped string contents; U+2028 and U+2029 become ` ` and ` `. */
  function EscapeBody(s: Bytes): (e: Bytes)
    decreases |s|
  {
    if s == [] then []
    else if StartsWithLineSeparator(s) then
      LineSeparatorEscape + [HexDigit(s[2] as int - 0xA0)] + EscapeBody(s[3..])
    else EscapeByte(s[0]) + EscapeBody(s[1..])
  }

  function QuoteString(s: Bytes): Bytes {
    [Quote] + EscapeBody(s) + [Quote]
  }

  /** Decimal digits of a natural number, without leading zeros. */
  function Decimal(n: nat): (d: Bytes)
    ensures d != []
    ensures n != 0 ==> d[0] != '0' as int
    ensures n == 0 ==> d == ['0' as int]
  {
    if n < 10 then ['0' as int + n] else Decimal(n / 10) + ['0' as int + n % 10]
  }

  function EncodeInt(n: int): Bytes {
    if n < 0 then [Minus] + Decimal(-n) else Decimal(n)
  }

  /** The JSON text of a value, or None where Go's encoder fails (a time it cannot format). */
  function EncodeValue(tf: TimeFormat, v: Value): Option<Bytes> {
    match v
    case Null => Some(LiteralNull)
    case Bool(b) => Some(if b then LiteralTrue else LiteralFalse)
    case Num(n) => Some(EncodeInt(n))
    case Frac(literal) => Some(literal)
    case Str(s) => Some(QuoteString(s))
    case Time(t) => if tf.format(t).Some? then Some(QuoteString(tf.format(t).value)) else None
  }

  const KeyF: Bytes := ['f' as int]
  const KeyT: Bytes := ['t' as int]
  /** `{"f":` and `,"t":` */
  const OpenKeyF: Bytes := [OpenBrace, Quote, 'f' as int, Quote, Colon]
  const CommaKeyT: Bytes := [Comma, Quote, 't' as int, Quote, Colon]

  /**
   * `json.Marshal` of the cursor map: keys in sorted order ("f" before "t"), no spaces.
   * A tie value is present exactly when the paginator has a tie-break field.
   */
  function EncodeCursor(tf: TimeFormat, f: Value, t: Option<Value>): (r: Option<Bytes>)
    ensures r.Some? <==> EncodeValue(tf, f).Some? && (t.Some? ==> EncodeValue(tf, t.value).Some?)
    ensures r.Some? ==> |r.value| > |OpenKeyF| && r.value[..|OpenKeyF|] == OpenKeyF
    ensures r.Some? ==> r.value[|r.value| - 1] == CloseBrace
  {
    var ef := EncodeValue(tf, f);
    if ef.None? then None
    else if t.None? then Some(OpenKeyF + ef.value + [CloseBrace])
    else
      var et := EncodeValue(tf, t.value);
      if et.None? then None
      else Some(OpenKeyF + ef.value + CommaKeyT + et.value + [CloseBrace])
  }

  // ---------------------------------------------------------------------------
  // Decoding. Each parser takes the remaining input and returns what it read together
  // with the input that follows it.
  // ---------------------------------------------------------------------------

  predicate IsWhitespace(c: byte) {
    c == 0x20 || c == 0x09 || c == 0x0A || c == 0x0D
  }

  function SkipWhitespace(t: Bytes): (r: Bytes)
    ensures |r| <= |t| && r == t[|t| - |r|..]
    ensures r != [] ==> !IsWhitespace(r[0])
  {
    if t != [] && IsWhitespace(t[0]) then SkipWhitespace(t[1..]) else t
  }

  /** The value of a hexadecimal digit of either case, or -1. */
  function HexValue(c: byte): (d: int)
    ensures -1 <= d < 16
  {
    if '0' as int <= c <= '9' as int then c - '0' as int
    else if 'a' as int <= c <= 'f' as int then c - 'a' as int + 10
    else if 'A' as int <= c <= 'F' as int then c - 'A' as int + 10
    else -1
  }

  /** A `\uXXXX` escape at the head of the input, as Go's `getu4` reads it. */
  function ParseU4(t: Bytes): (r: Option<int>)
    ensures r.Some? ==> 0 <= r.value < 0x10000
  {
    if |t| < 6 || t[0] != Backslash || t[1] != 'u' as int then None
    else if HexValue(t[2]) < 0 || HexValue(t[3]) < 0 || HexValue(t[4]) < 0 || HexValue(t[5]) < 0 then None
    else Some(((HexValue(t[2]) * 16 + HexValue(t[3])) * 16 + HexValue(t[4])) * 16 + HexValue(t[5]))
  }

  /** The UTF-8 encoding of a code point (Go's `utf8.EncodeRune` on valid input). */
  function Utf8(cp: int): (b: Bytes)
    requires 0 <= cp < 0x110000
    ensures 1 <= |b| <= 4
  {
    if cp < 0x80 then [cp]
    else if cp < 0x800 then [0xC0 + cp / 64, 0x80 + cp % 64]
    else if cp < 0x10000 then [0xE0 + cp / 4096, 0x80 + cp / 64 % 64, 0x80 + cp % 64]
    else [0xF0 + cp / 262144, 0x80 + cp / 4096 % 64, 0x80 + cp / 64 % 64, 0x80 + cp % 64]
  }

  predicate IsSurrogate(cp: int) {
    0xD800 <= cp < 0xE000
  }

  /**
   * One unit of string contents: a plain byte, a short escape, or a `\u` escape (a
   * surrogate pair joined into one code point, a lone surrogate replaced by U+FFFD).
   * None for a control byte or a malformed escape, both syntax errors.
   */
  function StringUnit(t: Bytes): (r: Option<(Bytes, Bytes)>)
    requires t != [] && t[0] != Quote
    ensures r.Some? ==> |r.value.1| < |t|
  {
    if t[0] < 0x20 then None
    else if t[0] != Backslash then Some(([t[0]], t[1..]))
    else if |t| < 2 then None
    else if t[1] == Quote || t[1] == Backslash || t[1] == '/' as int then Some(([t[1]], t[2..]))
    else if t[1] == 'b' as int then Some(([0x08], t[2..]))
    else if t[1] == 'f' as int then Some(([0x0C], t[2..]))
    else if t[1] == 'n' as int then Some(([0x0A], t[2..]))
    else if t[1] == 'r' as int then Some(([0x0D], t[2..]))
    else if t[1] == 't' as int then Some(([0x09], t[2..]))
    else
      var u := ParseU4(t);
      if u.None? then None
      else if !IsSurrogate(u.value) then Some((Utf8(u.value), t[6..]))
      else
        var u2 := ParseU4(t[6..]);
        if u.value < 0xDC00 && u2.Some? && 0xDC00 <= u2.value < 0xE000 then
          Some((Utf8((u.value - 0xD800) * 0x400 + (u2.value - 0xDC00) + 0x10000), t[12..]))
        else Some((Utf8(0xFFFD), t[6..]))
  }

  /** String contents up to and including the closing quote. */
  function StringBody(t: Bytes): (r: Option<(Bytes, Bytes)>)
    ensures r.Some? ==> |r.value.1| < |t|
    decreases |t|
  {
    if t == [] then None
    else if t[0] == Quote then Some(([], t[1..]))
    else
      match StringUnit(t)
      case None => None
      case Some((u, t')) =>
        match StringBody(t')
        case None => None
        case Some((s, rest)) => Some((u + s, rest))
  }

  function ParseString(t: Bytes): (r: Option<(Bytes, Bytes)>)
    ensures r.Some? ==> |r.value.1| < |t|
  {
    if t == [] || t[0] != Quote then None else StringBody(t[1..])
  }

  /** The number of leading decimal digits. */
  function DigitRun(t: Bytes): (n: nat)
    ensures n <= |t|
    ensures n < |t| ==> !IsDigit(t[n])
  {
    if t != [] && IsDigit(t[0]) then 1 + DigitRun(t[1..]) else 0
  }

  predicate AllDigits(d: Bytes) {
    forall i :: 0 <= i < |d| ==> IsDigit(d[i])
  }

  /** The value of a run of decimal digits. */
  function DigitsValue(d: Bytes): int {
    if d == [] then 0
    else
      var last: int := d[|d| - 1];
      DigitsValue(d[..|d| - 1]) * 10 + (last - '0' as int)
  }

  /** Length of an exponent part `[eE][+-]?digits` at the head, 0 if there is none, -1 if malformed. */
  function ExponentLength(t: Bytes): (n: int)
    ensures -1 <= n <= |t|
  {
    if t == [] || (t[0] != 'e' as int && t[0] != 'E' as int) then 0
    else
      var sign := if |t| > 1 && (t[1] == '+' as int || t[1] == '-' as int) then 1 else 0;
      var d := DigitRun(t[1 + sign..]);
      if d == 0 then -1 else 1 + sign + d
  }

  /** Length of the integer part `0|[1-9][0-9]*` at the head. */
  function IntegerLength(u: Bytes): (n: nat)
    requires u != [] && IsDigit(u[0])
    ensures 1 <= n <= |u|
  {
    if u[0] == '0' as int then 1 else 1 + DigitRun(u[1..])
  }

  /** Length of a fraction part `\.[0-9]+` at the head, 0 if there is none, -1 if malformed. */
  function FractionLength(t: Bytes): (n: int)
    ensures -1 <= n <= |t|
  {
    if t != [] && t[0] == '.' as int then
      var d := DigitRun(t[1..]);
      if d == 0 then -1 else 1 + d
    else 0
  }

  /**
   * A number: `-?(0|[1-9][0-9]*)(\.[0-9]+)?([eE][+-]?[0-9]+)?`. An integer literal is
   * read as its value; a literal with a fraction or an exponent is kept as text.
   */
  function ParseNumber(t: Bytes): (r: Option<(Value, Bytes)>)
    ensures r.Some? ==> |r.value.1| < |t|
  {
    var sign := if t != [] && t[0] == Minus then 1 else 0;
    var u := t[sign..];
    if u == [] || !IsDigit(u[0]) then None
    else NumberAfterInteger(t, sign, IntegerLength(u))
  }

  /** The rest of a number once its sign and integer part (of the given lengths) are known. */
  function NumberAfterInteger(t: Bytes, sign: nat, intLen: nat): (r: Option<(Value, Bytes)>)
    requires 0 < sign + intLen <= |t|
    ensures r.Some? ==> |r.value.1| < |t|
  {
    var afterInt := t[sign + intLen..];
    var fracLen := FractionLength(afterInt);
    if fracLen < 0 then None
    else
      var expLen := ExponentLength(afterInt[fracLen..]);
      if expLen < 0 then None
      else if fracLen == 0 && expLen == 0 then Some((Num(IntegerValue(t, sign, intLen)), afterInt))
      else Some((Frac(t[..sign + intLen + fracLen + expLen]), afterInt[fracLen + expLen..]))
  }

  /** The value of an integer literal: its digits, negated after a minus sign. */
  function IntegerValue(t: Bytes, sign: nat, intLen: nat): int
    requires sign + intLen <= |t|
  {
    var magnitude := DigitsValue(t[sign..sign + intLen]);
    if sign == 1 then -magnitude else magnitude
  }

  /** A literal word (`true`, `false`, `null`) at the head of the input. */
  function ParseWord(t: Bytes, word: Bytes, v: Value): (r: Option<(Value, Bytes)>)
    requires word != []
    ensures r.Some? ==> |r.value.1| < |t|
  {
    if HasPrefix(t, word) then Some((v, t[|word|..])) else None
  }

  /**
   * A scalar JSON value. Arrays and objects nested inside the cursor object are not
   * part of this model; an input holding one is reported as undecodable.
   */
  function ParseValue(t: Bytes): (r: Option<(Value, Bytes)>)
    ensures r.Some? ==> |r.value.1| < |t|
  {
    if t == [] then None
    else if t[0] == Quote then
      match ParseString(t)
      case None => None
      case Some((s, rest)) => Some((Str(s), rest))
    else if t[0] == 't' as int then ParseWord(t, LiteralTrue, Bool(true))
    else if t[0] == 'f' as int then ParseWord(t, LiteralFalse, Bool(false))
    else if t[0] == 'n' as int then ParseWord(t, LiteralNull, Null)
    else if t[0] == Minus || IsDigit(t[0]) then ParseNumber(t)
    else None
  }

  /** `"key" : value`, with the whitespace around the colon and after the value. */
  function ParseMember(t: Bytes): (r: Option<((Bytes, Value), Bytes)>)
    ensures r.Some? ==> |r.value.1| < |t|
  {
    match ParseString(t)
    case None => None
    case Some((k, r1)) =>
      var r2 := SkipWhitespace(r1);
      if r2 == [] || r2[0] != Colon then None
      else
        match ParseValue(SkipWhitespace(r2[1..]))
        case None => None
        case Some((v, r3)) => Some(((k, v), SkipWhitespace(r3)))
  }

  /** The members of an object and its closing brace, starting at the first member. */
  function ParseMembers(t: Bytes): (r: Option<(seq<(Bytes, Value)>, Bytes)>)
    ensures r.Some? ==> |r.value.1| < |t|
    decreases |t|
  {
    match ParseMember(t)
    case None => None
    case Some((kv, r1)) =>
      if r1 != [] && r1[0] == CloseBrace then Some(([kv], r1[1..]))
      else if r1 != [] && r1[0] == Comma then
        match ParseMembers(SkipWhitespace(r1[1..]))
        case None => None
        case Some((kvs, rest)) => Some(([kv] + kvs, rest))
      else None
  }

  function ParseObject(t: Bytes): (r: Option<(seq<(Bytes, Value)>, Bytes)>)
    ensures r.Some? ==> |r.value.1| < |t|
  {
    if t == [] || t[0] != OpenBrace then None
    else
      var r1 := SkipWhitespace(t[1..]);
      if r1 != [] && r1[0] == CloseBrace then Some(([], r1[1..]))
      else ParseMembers(r1)
  }

  /** The map the members build when stored in order: a later duplicate key wins. */
  function ToMap(kvs: seq<(Bytes, Value)>): (m: map<Bytes, Value>)
    ensures forall i :: 0 <= i < |kvs| ==> kvs[i].0 in m
    ensures kvs != [] ==> m[kvs[|kvs| - 1].0] == kvs[|kvs| - 1].1
  {
    if kvs == [] then map[] else map[kvs[0].0 := kvs[0].1] + ToMap(kvs[1..])
  }

  /**
   * `json.Unmarshal(data, &m)` for a `map[string]interface{}` m that starts nil, with the
   * error ignored: a document that is one object gives that map; `null`, any other
   * value, a syntax error or empty input leave m nil (None).
   */
  function Decode(data: Bytes): (m: Option<map<Bytes, Value>>)
    ensures m.Some? ==> SkipWhitespace(data) != [] && SkipWhitespace(data)[0] == OpenBrace
  {
    var t := SkipWhitespace(data);
    match ParseObject(t)
    case None => None
    case Some((kvs, rest)) => if SkipWhitespace(rest) == [] then Some(ToMap(kvs)) else None
  }

  // ---------------------------------------------------------------------------
  // Round trip
  // ---------------------------------------------------------------------------

  lemma HexDigitValue(d: int)
    requires 0 <= d < 16
    ensures HexValue(HexDigit(d)) == d
  {
  }

  /** Each escaped byte reads back as that byte. */
  lemma StringUnitEscapeByte(c: byte, rest: Bytes)
    ensures EscapeByte(c)[0] != Quote
    ensures StringUnit(EscapeByte(c) + rest) == Some(([c], rest))
  {
    var e := EscapeByte(c);
    var t := e + rest;
    if |e| == 6 {
      HexDigitValue(c / 16);
      HexDigitValue(c % 16);
      assert t[..6] == e;
      assert ParseU4(t) == Some(c);
      assert t[6..] == rest;
    } else if |e| == 2 {
      assert t[0] == Backslash && t[1] == e[1] && t[2..] == rest;
    } else {
      assert t[0] == c && t[1..] == rest;
    }
  }

  /** ` ` and ` ` read back as the UTF-8 encoding of the separator. */
  lemma StringUnitLineSeparator(s: Bytes, rest: Bytes)
    requires StartsWithLineSeparator(s)
    ensures var e := LineSeparatorEscape + [HexDigit(s[2] as int - 0xA0)];
      StringUnit(e + rest) == Some((s[..3], rest))
  {
    var x: int := s[2] as int - 0xA0;
    var e := LineSeparatorEscape + [HexDigit(x)];
    var t := e + rest;
    HexDigitValue(x);
    assert t[..6] == e;
    assert ParseU4(t) == Some(0x2020 + x);
    assert t[6..] == rest;
    assert Utf8(0x2020 + x) == s[..3];
  }

  /** String contents read one unit at a time. */
  lemma StringBodyStep(t: Bytes, u: Bytes, t': Bytes, body: Bytes, rest: Bytes)
    requires t != [] && t[0] != Quote
    requires StringUnit(t) == Some((u, t'))
    requires StringBody(t') == Some((body, rest))
    ensures StringBody(t) == Some((u + body, rest))
  {
  }

  lemma {:induction false} StringBodyRoundTrip(s: Bytes, rest: Bytes)
    ensures StringBody(EscapeBody(s) + [Quote] + rest) == Some((s, rest))
    decreases |s|
  {
    if s == [] {
      assert EscapeBody(s) + [Quote] + rest == [Quote] + rest;
    } else if StartsWithLineSeparator(s) {
      StringBodyRoundTrip(s[3..], rest);
      LineSeparatorBodyStep(s, rest);
    } else {
      StringBodyRoundTrip(s[1..], rest);
      ByteBodyStep(s, rest);
    }
  }

  /** The round trip of a string body that starts with U+2028 or U+2029, given that of the rest. */
  lemma LineSeparatorBodyStep(s: Bytes, rest: Bytes)
    requires s != [] && StartsWithLineSeparator(s)
    requires StringBody(EscapeBody(s[3..]) + [Quote] + rest) == Some((s[3..], rest))
    ensures StringBody(EscapeBody(s) + [Quote] + rest) == Some((s, rest))
  {
    var e := LineSeparatorEscape + [HexDigit(s[2] as int - 0xA0)];
    var tail := EscapeBody(s[3..]) + [Quote] + rest;
    assert EscapeBody(s) == e + EscapeBody(s[3..]);
    assert EscapeBody(s) + [Quote] + rest == e + tail;
    StringUnitLineSeparator(s, tail);
    StringBodyStep(e + tail, s[..3], tail, s[3..], rest);
    assert s == s[..3] + s[3..];
  }

  /** The round trip of a string body that starts with any other byte, given that of the rest. */
  lemma ByteBodyStep(s: Bytes, rest: Bytes)
    requires s != [] && !StartsWithLineSeparator(s)
    requires StringBody(EscapeBody(s[1..]) + [Quote] + rest) == Some((s[1..], rest))
    ensures StringBody(EscapeBody(s) + [Quote] + rest) == Some((s, rest))
  {
    var e := EscapeByte(s[0]);
    var tail := EscapeBody(s[1..]) + [Quote] + rest;
    assert EscapeBody(s) == e + EscapeBody(s[1..]);
    assert EscapeBody(s) + [Quote] + rest == e + tail;
    StringUnitEscapeByte(s[0], tail);
    StringBodyStep(e + tail, [s[0]], tail, s[1..], rest);
    assert s == [s[0]] + s[1..];
  }

  /** A quoted string reads back as the bytes it was made from. */
  lemma StringRoundTrip(s: Bytes, rest: Bytes)
    ensures ParseString(QuoteString(s) + rest) == Some((s, rest))
  {
    var t := QuoteString(s) + rest;
    assert t[1..] == EscapeBody(s) + [Quote] + rest;
    StringBodyRoundTrip(s, rest);
  }

  lemma {:induction false} DigitRunAppend(d: Bytes, rest: Bytes)
    requires AllDigits(d)
    requires rest == [] || !IsDigit(rest[0])
    ensures DigitRun(d + rest) == |d|
  {
    if d == [] {
      assert d + rest == rest;
    } else {
      assert (d + rest)[1..] == d[1..] + rest;
      assert IsDigit(d[0]);
      assert AllDigits(d[1..]) by {
        forall i | 0 <= i < |d[1..]| ensures IsDigit(d[1..][i]) {
          assert d[1..][i] == d[i + 1];
        }
      }
      DigitRunAppend(d[1..], rest);
    }
  }

  lemma {:induction false} DecimalDigits(n: nat)
    ensures AllDigits(Decimal(n))
  {
    if n >= 10 {
      DecimalDigits(n / 10);
      var d := Decimal(n);
      forall i | 0 <= i < |d| ensures IsDigit(d[i]) {
        if i < |d| - 1 {
          assert d[i] == Decimal(n / 10)[i];
        }
      }
    }
  }

  lemma {:induction false} DecimalValue(n: nat)
    ensures DigitsValue(Decimal(n)) == n
  {
    if n >= 10 {
      var d := Decimal(n);
      assert d[..|d| - 1] == Decimal(n / 10);
      DecimalValue(n / 10);
    }
  }

  /** What a value reads back as: a time comes back as the string it was written as. */
  function Decoded(tf: TimeFormat, v: Value): Value
    requires EncodeValue(tf, v).Some?
  {
    if v.Time? then Str(tf.format(v.at).value) else v
  }

  /** What follows a value inside an object. */
  predicate EndsValue(rest: Bytes) {
    rest != [] && (rest[0] == Comma || rest[0] == CloseBrace)
  }

  /** The pieces of an integer literal's magnitude followed by the end of a value. */
  lemma MagnitudeParts(u: Bytes, d: Bytes, rest: Bytes)
    requires d != [] && AllDigits(d)
    requires d[0] == '0' as int ==> |d| == 1
    requires u == d + rest
    requires EndsValue(rest)
    ensures u != [] && IsDigit(u[0]) && IntegerLength(u) == |d|
    ensures u[..|d|] == d && u[|d|..] == rest
    ensures FractionLength(rest) == 0 && ExponentLength(rest) == 0
  {
    assert u[0] == d[0];
    if d[0] != '0' as int {
      assert u[1..] == d[1..] + rest;
      DigitRunAppend(d[1..], rest);
    }
  }

  /** After the integer part, the end of a value: the literal is an integer. */
  lemma IntegerEnds(t: Bytes, sign: nat, intLen: nat, rest: Bytes)
    requires 0 < sign + intLen <= |t|
    requires t[sign + intLen..] == rest && EndsValue(rest)
    ensures NumberAfterInteger(t, sign, intLen) == Some((Num(IntegerValue(t, sign, intLen)), rest))
  {
    assert FractionLength(rest) == 0;
    assert rest[0..] == rest;
    assert ExponentLength(rest) == 0;
  }

  /** An integer literal followed by the end of a value reads back as its value. */
  lemma UnsignedLiteral(d: Bytes, rest: Bytes)
    requires d != [] && AllDigits(d)
    requires d[0] == '0' as int ==> |d| == 1
    requires EndsValue(rest)
    ensures ParseNumber(d + rest) == Some((Num(DigitsValue(d)), rest))
  {
    var u := d + rest;
    MagnitudeParts(u, d, rest);
    assert u[0..] == u;
    assert u[0..|d|] == d;
    IntegerEnds(u, 0, |d|, rest);
  }

  /** How `ParseNumber` starts: the sign, then the integer part. */
  lemma ParseNumberHead(t: Bytes, sign: nat, intLen: nat)
    requires sign == (if t != [] && t[0] == Minus then 1 else 0)
    requires sign < |t| && IsDigit(t[sign]) && IntegerLength(t[sign..]) == intLen
    ensures ParseNumber(t) == NumberAfterInteger(t, sign, intLen)
  {
  }

  /** Where the sign, the digits and the rest lie in a signed integer literal. */
  lemma SignedLiteralParts(t: Bytes, d: Bytes, rest: Bytes)
    requires d != [] && AllDigits(d)
    requires d[0] == '0' as int ==> |d| == 1
    requires EndsValue(rest)
    requires t != [] && t[0] == Minus && t[1..] == d + rest
    ensures 1 < |t| && IsDigit(t[1]) && IntegerLength(t[1..]) == |d|
    ensures 1 + |d| <= |t| && t[1 + |d|..] == rest && t[1..1 + |d|] == d
  {
    MagnitudeParts(t[1..], d, rest);
    assert t[1..][..|d|] == t[1..1 + |d|];
    assert t[1..][|d|..] == t[1 + |d|..];
  }

  /** A minus sign, an integer literal and the end of a value, at an abstract input `t`. */
  lemma SignedLiteralAt(t: Bytes, d: Bytes, rest: Bytes)
    requires EndsValue(rest) && t != [] && t[0] == Minus
    requires 1 < |t| && IsDigit(t[1]) && IntegerLength(t[1..]) == |d|
    requires 1 + |d| <= |t| && t[1 + |d|..] == rest && t[1..1 + |d|] == d
    ensures ParseNumber(t) == Some((Num(-DigitsValue(d)), rest))
  {
    ParseNumberHead(t, 1, |d|);
    IntegerEnds(t, 1, |d|, rest);
  }

  lemma SignedLiteral(d: Bytes, rest: Bytes)
    requires d != [] && AllDigits(d)
    requires d[0] == '0' as int ==> |d| == 1
    requires EndsValue(rest)
    ensures ParseNumber([Minus] + (d + rest)) == Some((Num(-DigitsValue(d)), rest))
  {
    var t := [Minus] + (d + rest);
    assert t[0] == Minus && t[1..] == d + rest;
    SignedLiteralParts(t, d, rest);
    SignedLiteralAt(t, d, rest);
  }

  lemma NumberRoundTrip(n: int, rest: Bytes)
    requires EndsValue(rest)
    ensures ParseNumber(EncodeInt(n) + rest) == Some((Num(n), rest))
  {
    var m: nat := if n < 0 then -n else n;
    DecimalValue(m);
    DecimalDigits(m);
    if n < 0 {
      assert EncodeInt(n) + rest == [Minus] + (Decimal(m) + rest);
      SignedLiteral(Decimal(m), rest);
    } else {
      UnsignedLiteral(Decimal(m), rest);
    }
  }

  lemma ParseValueNumber(t: Bytes)
    requires t != [] && (t[0] == Minus || IsDigit(t[0]))
    ensures ParseValue(t) == ParseNumber(t)
  {
  }

  lemma ParseValueString(t: Bytes, s: Bytes, rest: Bytes)
    requires ParseString(t) == Some((s, rest))
    ensures ParseValue(t) == Some((Str(s), rest))
  {
  }

  lemma ParseValueWord(t: Bytes, word: Bytes, v: Value, rest: Bytes)
    requires word in {LiteralNull, LiteralTrue, LiteralFalse}
    requires v == (if word == LiteralNull then Null else Bool(word == LiteralTrue))
    requires t == word + rest
    ensures ParseValue(t) == Some((v, rest))
  {
    assert t[..|word|] == word;
    assert t[|word|..] == rest;
  }

  /** Every value the encoder writes, other than a fraction literal, reads back (as Decoded). */
  lemma ValueRoundTrip(tf: TimeFormat, v: Value, rest: Bytes)
    requires EncodeValue(tf, v).Some? && !v.Frac?
    requires EndsValue(rest)
    ensures ParseValue(EncodeValue(tf, v).value + rest) == Some((Decoded(tf, v), rest))
  {
    var e := EncodeValue(tf, v).value;
    match v
    case Null => ParseValueWord(e + rest, LiteralNull, Null, rest);
    case Bool(b) => ParseValueWord(e + rest, e, v, rest);
    case Num(n) =>
      NumberRoundTrip(n, rest);
      assert e == EncodeInt(n);
      assert e != [] && (e[0] == Minus || IsDigit(e[0])) by {
        var m: nat := if n < 0 then -n else n;
        DecimalDigits(m);
      }
      ParseValueNumber(e + rest);
    case Str(s) =>
      StringRoundTrip(s, rest);
      ParseValueString(e + rest, s, rest);
    case Time(t) =>
      StringRoundTrip(tf.format(t).value, rest);
      ParseValueString(e + rest, tf.format(t).value, rest);
  }

  lemma SkipNoWhitespace(t: Bytes)
    requires t != [] && !IsWhitespace(t[0])
    ensures SkipWhitespace(t) == t
  {
  }

  /** A member: after the key, the colon; after the colon, the value. */
  lemma ParseMemberStep(t: Bytes, key: Bytes, r1: Bytes, v: Value, rest: Bytes)
    requires ParseString(t) == Some((key, r1))
    requires r1 != [] && r1[0] == Colon
    requires r1[1..] != [] && !IsWhitespace(r1[1])
    requires ParseValue(r1[1..]) == Some((v, rest))
    requires rest != [] && !IsWhitespace(rest[0])
    ensures ParseMember(t) == Some(((key, v), rest))
  {
    SkipNoWhitespace(r1);
    SkipNoWhitespace(r1[1..]);
    SkipNoWhitespace(rest);
  }

  /** What the encoder writes never starts with whitespace. */
  lemma EncodeValueStart(tf: TimeFormat, v: Value)
    requires EncodeValue(tf, v).Some? && !v.Frac?
    ensures EncodeValue(tf, v).value != [] && !IsWhitespace(EncodeValue(tf, v).value[0])
  {
    if v.Num? {
      var m: nat := if v.n < 0 then -v.n else v.n;
      DecimalDigits(m);
    }
  }

  lemma MemberRoundTrip(tf: TimeFormat, key: Bytes, v: Value, rest: Bytes)
    requires EncodeValue(tf, v).Some? && !v.Frac?
    requires EndsValue(rest)
    ensures ParseMember(QuoteString(key) + [Colon] + EncodeValue(tf, v).value + rest)
         == Some(((key, Decoded(tf, v)), rest))
  {
    ValueRoundTrip(tf, v, rest);
    EncodeValueStart(tf, v);
    MemberOf(key, EncodeValue(tf, v).value, Decoded(tf, v), rest);
  }

  /** A quoted key, a colon and the text of a value read back as one member. */
  lemma MemberOf(key: Bytes, e: Bytes, v: Value, rest: Bytes)
    requires e != [] && !IsWhitespace(e[0])
    requires ParseValue(e + rest) == Some((v, rest))
    requires EndsValue(rest)
    ensures ParseMember(QuoteString(key) + [Colon] + e + rest) == Some(((key, v), rest))
  {
    Regroup(QuoteString(key), [Colon], e, rest);
    HeadOfConcat(e, rest);
    MemberOn(key, e + rest, v, rest);
  }

  // Sequence regrouping only, kept apart so that the solver needs no search for it.
  lemma Regroup(a: Bytes, b: Bytes, c: Bytes, d: Bytes)
    ensures a + b + c + d == a + (b + (c + d))
  {
  }

  // Sequence regrouping only, kept apart so that the solver needs no search for it.
  lemma HeadOfConcat(a: Bytes, b: Bytes)
    requires a != []
    ensures a + b != [] && (a + b)[0] == a[0]
  {
  }

  lemma MemberOn(key: Bytes, u: Bytes, v: Value, rest: Bytes)
    requires u != [] && !IsWhitespace(u[0])
    requires ParseValue(u) == Some((v, rest))
    requires EndsValue(rest)
    ensures ParseMember(QuoteString(key) + ([Colon] + u)) == Some(((key, v), rest))
  {
    var r1 := [Colon] + u;
    assert r1[1..] == u;
    StringRoundTrip(key, r1);
    ParseMemberStep(QuoteString(key) + r1, key, r1, v, rest);
  }

  lemma EscapeKey(c: byte)
    requires 'a' as int <= c <= 'z' as int
    ensures QuoteString([c]) == [Quote, c, Quote]
  {
    assert EscapeBody([c]) == EscapeByte(c) + EscapeBody([]);
  }

  lemma ParseMembersLast(t: Bytes, kv: (Bytes, Value), rest: Bytes)
    requires ParseMember(t) == Some((kv, [CloseBrace] + rest))
    ensures ParseMembers(t) == Some(([kv], rest))
  {
    assert ([CloseBrace] + rest)[1..] == rest;
  }

  /** After a member and a comma, the members that follow the whitespace. */
  lemma ParseMembersStep(t: Bytes, kv: (Bytes, Value), r1: Bytes, kvs: seq<(Bytes, Value)>, rest: Bytes)
    requires ParseMember(t) == Some((kv, r1))
    requires r1 != [] && r1[0] == Comma
    requires ParseMembers(SkipWhitespace(r1[1..])) == Some((kvs, rest))
    ensures ParseMembers(t) == Some(([kv] + kvs, rest))
  {
  }

  lemma ParseMembersCons(t: Bytes, kv: (Bytes, Value), more: Bytes, kvs: seq<(Bytes, Value)>, rest: Bytes)
    requires ParseMember(t) == Some((kv, [Comma] + more))
    requires more != [] && !IsWhitespace(more[0])
    requires ParseMembers(more) == Some((kvs, rest))
    ensures ParseMembers(t) == Some(([kv] + kvs, rest))
  {
    var r1 := [Comma] + more;
    assert r1[1..] == more;
    SkipNoWhitespace(more);
    ParseMembersStep(t, kv, r1, kvs, rest);
  }

  lemma DecodeObject(body: Bytes, kvs: seq<(Bytes, Value)>)
    requires body != [] && body[0] == Quote
    requires ParseMembers(body) == Some((kvs, []))
    ensures Decode([OpenBrace] + body) == Some(ToMap(kvs))
  {
    var doc := [OpenBrace] + body;
    SkipNoWhitespace(doc);
    assert doc[1..] == body;
    SkipNoWhitespace(body);
  }

  /** The map a one-member object builds. */
  lemma ToMapOne(k: Bytes, v: Value)
    ensures ToMap([(k, v)]) == map[k := v]
  {
    assert ToMap([(k, v)][1..]) == map[];
  }

  /** The map a two-member object with distinct keys builds. */
  lemma ToMapTwo(k0: Bytes, v0: Value, k1: Bytes, v1: Value)
    requires k0 != k1
    ensures ToMap([(k0, v0), (k1, v1)]) == map[k0 := v0, k1 := v1]
  {
    assert [(k0, v0), (k1, v1)][1..] == [(k1, v1)];
    ToMapOne(k1, v1);
  }

  /** The fixed parts of the cursor object are the quoted keys followed by colons. */
  lemma CursorPrefixes()
    ensures OpenKeyF == [OpenBrace] + (QuoteString(KeyF) + [Colon])
    ensures CommaKeyT == [Comma] + (QuoteString(KeyT) + [Colon])
  {
    EscapeKey('f' as int);
    EscapeKey('t' as int);
  }

  // Sequence regrouping only, kept apart so that the solver needs no search for it.
  lemma Concat4(a: Bytes, b: Bytes, c: Bytes, d: Bytes)
    ensures a + b + c + d == a + (b + c + d)
  {
  }

  // Sequence regrouping only, kept apart so that the solver needs no search for it.
  lemma Concat7(a: Bytes, b: Bytes, c: Bytes, d: Bytes, e: Bytes, g: Bytes, h: Bytes)
    ensures a + b + c + (d + e) + g + h == a + (b + c + (d + (e + g + h)))
  {
  }

  /** The round trip of a cursor without a tie value. */
  lemma CursorRoundTripKey(tf: TimeFormat, f: Value)
    requires EncodeValue(tf, f).Some? && !f.Frac?
    ensures Decode(EncodeCursor(tf, f, None).value) == Some(map[KeyF := Decoded(tf, f)])
  {
    var ef := EncodeValue(tf, f).value;
    EscapeKey('f' as int);
    var body := QuoteString(KeyF) + [Colon] + ef + [CloseBrace];
    LastMember(tf, KeyF, f);
    DecodeObject(body, [(KeyF, Decoded(tf, f))]);
    ToMapOne(KeyF, Decoded(tf, f));
    assert EncodeCursor(tf, f, None).value == [OpenBrace] + body by {
      CursorPrefixes();
      var qf := QuoteString(KeyF) + [Colon];
      assert EncodeCursor(tf, f, None).value == [OpenBrace] + qf + ef + [CloseBrace];
      assert body == qf + ef + [CloseBrace];
      Concat4([OpenBrace], qf, ef, [CloseBrace]);
    }
  }

  /** The members of a cursor object with a tie value, after its opening brace. */
  function TieBody(tf: TimeFormat, f: Value, t: Value): Bytes
    requires EncodeValue(tf, f).Some? && EncodeValue(tf, t).Some?
  {
    QuoteString(KeyF) + [Colon] + EncodeValue(tf, f).value
      + ([Comma] + (QuoteString(KeyT) + [Colon] + EncodeValue(tf, t).value + [CloseBrace]))
  }

  lemma CursorTieLayout(tf: TimeFormat, f: Value, t: Value)
    requires EncodeValue(tf, f).Some? && EncodeValue(tf, t).Some?
    ensures EncodeCursor(tf, f, Some(t)) == Some([OpenBrace] + TieBody(tf, f, t))
  {
    var ef := EncodeValue(tf, f).value;
    var et := EncodeValue(tf, t).value;
    CursorPrefixes();
    var qf := QuoteString(KeyF) + [Colon];
    var qt := QuoteString(KeyT) + [Colon];
    assert EncodeCursor(tf, f, Some(t)).value
        == [OpenBrace] + qf + ef + ([Comma] + qt) + et + [CloseBrace];
    assert TieBody(tf, f, t) == qf + ef + ([Comma] + (qt + et + [CloseBrace]));
    Concat7([OpenBrace], qf, ef, [Comma], qt, et, [CloseBrace]);
  }

  /** The last member of a cursor object, through its closing brace. */
  lemma LastMember(tf: TimeFormat, key: Bytes, v: Value)
    requires EncodeValue(tf, v).Some? && !v.Frac?
    ensures ParseMembers(QuoteString(key) + [Colon] + EncodeValue(tf, v).value + [CloseBrace])
         == Some(([(key, Decoded(tf, v))], []))
  {
    MemberRoundTrip(tf, key, v, [CloseBrace]);
    LastOf(QuoteString(key) + [Colon] + EncodeValue(tf, v).value, (key, Decoded(tf, v)));
  }

  /** A member followed by the closing brace is the whole list. */
  lemma LastOf(m: Bytes, kv: (Bytes, Value))
    requires ParseMember(m + [CloseBrace]) == Some((kv, [CloseBrace]))
    ensures ParseMembers(m + [CloseBrace]) == Some(([kv], []))
  {
    assert [CloseBrace] == [CloseBrace] + [];
    ParseMembersLast(m + [CloseBrace], kv, []);
  }

  lemma CursorTieMembers(tf: TimeFormat, f: Value, t: Value)
    requires EncodeValue(tf, f).Some? && !f.Frac?
    requires EncodeValue(tf, t).Some? && !t.Frac?
    ensures ParseMembers(TieBody(tf, f, t)) == Some(([(KeyF, Decoded(tf, f)), (KeyT, Decoded(tf, t))], []))
  {
    var first := QuoteString(KeyF) + [Colon] + EncodeValue(tf, f).value;
    var second := QuoteString(KeyT) + [Colon] + EncodeValue(tf, t).value + [CloseBrace];
    LastMember(tf, KeyT, t);
    assert second[0] == Quote;
    MemberRoundTrip(tf, KeyF, f, [Comma] + second);
    assert TieBody(tf, f, t) == first + ([Comma] + second);
    TwoMembers(TieBody(tf, f, t), second, (KeyF, Decoded(tf, f)), (KeyT, Decoded(tf, t)));
  }

  // Sequence regrouping only, kept apart so that the solver needs no search for it.
  lemma PairOf(a: (Bytes, Value), b: (Bytes, Value))
    ensures [a] + [b] == [a, b]
  {
  }

  /** A member, a comma and a last member make a two-member list. */
  lemma TwoMembers(body: Bytes, second: Bytes, kvf: (Bytes, Value), kvt: (Bytes, Value))
    requires ParseMember(body) == Some((kvf, [Comma] + second))
    requires second != [] && second[0] == Quote
    requires ParseMembers(second) == Some(([kvt], []))
    ensures ParseMembers(body) == Some(([kvf, kvt], []))
  {
    ParseMembersCons(body, kvf, second, [kvt], []);
    PairOf(kvf, kvt);
  }

  /** The round trip of a cursor with a tie value. */
  lemma CursorRoundTripKeyTie(tf: TimeFormat, f: Value, t: Value)
    requires EncodeValue(tf, f).Some? && !f.Frac?
    requires EncodeValue(tf, t).Some? && !t.Frac?
    ensures Decode(EncodeCursor(tf, f, Some(t)).value)
         == Some(map[KeyF := Decoded(tf, f), KeyT := Decoded(tf, t)])
  {
    CursorTieLayout(tf, f, t);
    CursorTieMembers(tf, f, t);
    EscapeKey('f' as int);
    DecodeObject(TieBody(tf, f, t), [(KeyF, Decoded(tf, f)), (KeyT, Decoded(tf, t))]);
    assert KeyF != KeyT;
    ToMapTwo(KeyF, Decoded(tf, f), KeyT, Decoded(tf, t));
  }

  /**
   * Round trip of the cursor object: decoding what `EncodeCursor` writes gives the map
   * with "f" and, exactly when a tie value was written, "t".
   */
  lemma CursorRoundTrip(tf: TimeFormat, f: Value, t: Option<Value>)
    requires EncodeCursor(tf, f, t).Some?
    requires !f.Frac? && (t.Some? ==> !t.value.Frac?)
    ensures EncodeValue(tf, f).Some? && (t.Some? ==> EncodeValue(tf, t.value).Some?)
    ensures Decode(EncodeCursor(tf, f, t).value)
         == Some(if t.None? then map[KeyF := Decoded(tf, f)]
                 else map[KeyF := Decoded(tf, f), KeyT := Decoded(tf, t.value)])
  {
    if t.None? {
      CursorRoundTripKey(tf, f);
    } else {
      CursorRoundTripKeyTie(tf, f, t.value);
    }
  }

  /** An empty document has no map: the empty token means "no cursor". */
  lemma DecodeEmpty()
    ensures Decode([]) == None
  {
  }

  lemma {:induction false} ToMapKeys(kvs: seq<(Bytes, Value)>)
    ensures forall k :: k in ToMap(kvs) ==> exists j :: 0 <= j < |kvs| && kvs[j].0 == k
  {
    if kvs != [] {
      ToMapKeys(kvs[1..]);
      forall k | k in ToMap(kvs) ensures exists j :: 0 <= j < |kvs| && kvs[j].0 == k {
        if k != kvs[0].0 {
          assert k in ToMap(kvs[1..]);
          var j :| 0 <= j < |kvs[1..]| && kvs[1..][j].0 == k;
          assert kvs[j + 1].0 == k;
        }
      }
    }
  }

  /**
   * Duplicate keys: Go stores the members in order, so the last member with a key gives
   * that key's value.
   */
  lemma {:induction false} ToMapLastWins(kvs: seq<(Bytes, Value)>, i: nat)
    requires i < |kvs|
    requires forall j :: i < j < |kvs| ==> kvs[j].0 != kvs[i].0
    ensures kvs[i].0 in ToMap(kvs) && ToMap(kvs)[kvs[i].0] == kvs[i].1
  {
    if i > 0 {
      ToMapLastWins(kvs[1..], i - 1);
    } else if |kvs| > 1 {
      ToMapKeys(kvs[1..]);
      forall j | 0 <= j < |kvs[1..]| ensures kvs[1..][j].0 != kvs[0].0 {
        assert kvs[1..][j] == kvs[j + 1];
      }
    }
  }
}
