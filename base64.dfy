/**
 * Base64 in the URL- and filename-safe alphabet of section 5 of RFC 4648, with the
 * padding omitted as section 3.2 of RFC 4648 allows (Go's `base64.RawURLEncoding`).
 * The decoder follows Go's `DecodeString` as the scope builder uses it, with its
 * error ignored: carriage returns and line feeds are skipped, and on malformed input
 * the bytes of the complete quanta decoded before the bad one are what is returned.
 */
module Base64 {
  import opened Bytes

  /** The symbol for sextet `i`: A-Z, a-z, 0-9, then `-` and `_`. */
  function Symbol(i: int): (c: byte)
    requires 0 <= i < 64
  {
    if i < 26 then 'A' as int + i
    else if i < 52 then 'a' as int + (i - 26)
    else if i < 62 then '0' as int + (i - 52)
    else if i == 62 then '-' as int
    else '_' as int
  }

  /** The sextet a symbol stands for, or -1 for a byte outside the alphabet. */
  function Sextet(c: byte): (r: int)
    ensures -1 <= r < 64
    ensures r >= 0 ==> Symbol(r) == c
  {
    if 'A' as int <= c <= 'Z' as int then c - 'A' as int
    else if 'a' as int <= c <= 'z' as int then c - 'a' as int + 26
    else if '0' as int <= c <= '9' as int then c - '0' as int + 52
    else if c == '-' as int then 62
    else if c == '_' as int then 63
    else -1
  }

  predicate IsSymbol(c: byte) {
    Sextet(c) >= 0
  }

  predicate IsNewline(c: byte) {
    c == 0x0A || c == 0x0D
  }

  lemma SextetOfSymbol(i: int)
    requires 0 <= i < 64
    ensures Sextet(Symbol(i)) == i
  {
  }

  /** The four symbols for three bytes, most significant bits first. */
  function EncodeGroup(b0: byte, b1: byte, b2: byte): (s: Bytes)
    ensures |s| == 4 && forall i :: 0 <= i < 4 ==> IsSymbol(s[i])
  {
    [Symbol(b0 / 4), Symbol(b0 % 4 * 16 + b1 / 16), Symbol(b1 % 16 * 4 + b2 / 64), Symbol(b2 % 64)]
  }

  /** Encoding: every three bytes become four symbols; a final one or two bytes become two or three. */
  function Encode(b: Bytes): (s: Bytes)
    ensures |s| == (|b| * 8 + 5) / 6
    ensures forall i :: 0 <= i < |s| ==> IsSymbol(s[i])
  {
    if |b| == 0 then []
    else if |b| == 1 then EncodeGroup(b[0], 0, 0)[..2]
    else if |b| == 2 then EncodeGroup(b[0], b[1], 0)[..3]
    else EncodeGroup(b[0], b[1], b[2]) + Encode(b[3..])
  }

  /** The first, second and third byte a quantum of symbols stands for. */
  function Byte0(s0: byte, s1: byte): int
    requires IsSymbol(s0) && IsSymbol(s1)
  {
    Sextet(s0) * 4 + Sextet(s1) / 16
  }

  function Byte1(s1: byte, s2: byte): int
    requires IsSymbol(s1) && IsSymbol(s2)
  {
    Sextet(s1) % 16 * 16 + Sextet(s2) / 4
  }

  function Byte2(s2: byte, s3: byte): int
    requires IsSymbol(s2) && IsSymbol(s3)
  {
    Sextet(s2) % 4 * 64 + Sextet(s3)
  }

  /** The input with every `\r` and `\n` removed; Go's decoder skips them wherever they stand. */
  function StripNewlines(s: Bytes): (r: Bytes)
    ensures |r| <= |s|
    ensures forall i :: 0 <= i < |r| ==> !IsNewline(r[i])
  {
    if s == [] then []
    else if IsNewline(s[0]) then StripNewlines(s[1..])
    else [s[0]] + StripNewlines(s[1..])
  }

  /**
   * Decoding of newline-free input, quantum by quantum. A quantum holding a byte outside
   * the alphabet, or a final quantum of a single symbol, ends decoding; the bytes of the
   * earlier quanta are kept. Unused low bits of a final short quantum are ignored (Go's
   * non-strict mode).
   */
  function DecodeQuanta(s: Bytes): (data: Bytes)
    ensures 4 * |data| <= 3 * |s|
  {
    if |s| <= 1 then []
    else if !IsSymbol(s[0]) || !IsSymbol(s[1]) then []
    else if |s| == 2 then [Byte0(s[0], s[1])]
    else if !IsSymbol(s[2]) then []
    else if |s| == 3 then [Byte0(s[0], s[1]), Byte1(s[1], s[2])]
    else if !IsSymbol(s[3]) then []
    else [Byte0(s[0], s[1]), Byte1(s[1], s[2]), Byte2(s[2], s[3])] + DecodeQuanta(s[4..])
  }

  /** `base64.RawURLEncoding.DecodeString(s)` with its error discarded. */
  function Decode(s: Bytes): (data: Bytes)
    ensures 4 * |data| <= 3 * |s|
  {
    DecodeQuanta(StripNewlines(s))
  }

  lemma {:induction false} StripNewlinesAppend(a: Bytes, b: Bytes)
    ensures StripNewlines(a + b) == StripNewlines(a) + StripNewlines(b)
  {
    if a == [] {
      assert a + b == b;
    } else {
      assert (a + b)[0] == a[0];
      assert (a + b)[1..] == a[1..] + b;
      StripNewlinesAppend(a[1..], b);
    }
  }

  lemma {:induction false} StripNewlinesKeeps(s: Bytes)
    requires forall i :: 0 <= i < |s| ==> !IsNewline(s[i])
    ensures StripNewlines(s) == s
  {
    if s != [] {
      StripNewlinesKeeps(s[1..]);
    }
  }

  lemma SymbolIsNoNewline(i: int)
    requires 0 <= i < 64
    ensures !IsNewline(Symbol(i))
  {
  }

  /** A quantum of an encoding decodes back to the bytes it came from. */
  lemma GroupRoundTrip(b0: byte, b1: byte, b2: byte)
    ensures var q := EncodeGroup(b0, b1, b2);
      Byte0(q[0], q[1]) == b0 && Byte1(q[1], q[2]) == b1 && Byte2(q[2], q[3]) == b2
  {
    SextetOfSymbol(b0 / 4);
    SextetOfSymbol(b0 % 4 * 16 + b1 / 16);
    SextetOfSymbol(b1 % 16 * 4 + b2 / 64);
    SextetOfSymbol(b2 % 64);
  }

  /** Four symbols in front of the rest decode to their three bytes in front of the rest's decoding. */
  lemma DecodeQuantaCons(q: Bytes, rest: Bytes)
    requires |q| == 4 && forall i :: 0 <= i < 4 ==> IsSymbol(q[i])
    ensures DecodeQuanta(q + rest) == [Byte0(q[0], q[1]), Byte1(q[1], q[2]), Byte2(q[2], q[3])] + DecodeQuanta(rest)
  {
    var s := q + rest;
    assert s[0] == q[0] && s[1] == q[1] && s[2] == q[2] && s[3] == q[3];
    assert s[4..] == rest;
  }

  /** An encoding of three or more bytes starts with the quantum of the first three. */
  lemma EncodeStep(b: Bytes)
    requires |b| >= 3
    ensures Encode(b) == EncodeGroup(b[0], b[1], b[2]) + Encode(b[3..])
  {
  }

  // Sequence regrouping only, kept apart so that the solver needs no search for it.
  lemma SplitThree(b: Bytes)
    requires |b| >= 3
    ensures b == [b[0], b[1], b[2]] + b[3..]
  {
  }

  // Sequence regrouping only, kept apart so that the solver needs no search for it.
  lemma Reassociate(a: Bytes, b: Bytes, c: Bytes)
    ensures a + b + c == a + (b + c)
  {
  }

  /** The quantum of three bytes, in front of anything, decodes to those bytes in front. */
  lemma DecodeGroupCons(b0: byte, b1: byte, b2: byte, rest: Bytes)
    ensures DecodeQuanta(EncodeGroup(b0, b1, b2) + rest) == [b0, b1, b2] + DecodeQuanta(rest)
  {
    GroupRoundTrip(b0, b1, b2);
    DecodeQuantaCons(EncodeGroup(b0, b1, b2), rest);
  }

  lemma {:induction false} DecodeQuantaEncode(b: Bytes)
    ensures DecodeQuanta(Encode(b)) == b
  {
    if |b| == 0 {
    } else if |b| == 1 {
      GroupRoundTrip(b[0], 0, 0);
    } else if |b| == 2 {
      GroupRoundTrip(b[0], b[1], 0);
    } else {
      EncodeStep(b);
      DecodeGroupCons(b[0], b[1], b[2], Encode(b[3..]));
      DecodeQuantaEncode(b[3..]);
      SplitThree(b);
    }
  }

  /** Round trip: decoding an encoding gives back the original bytes. */
  lemma DecodeEncode(b: Bytes)
    ensures Decode(Encode(b)) == b
  {
    var s := Encode(b);
    forall i | 0 <= i < |s| ensures !IsNewline(s[i]) {
      SymbolIsNoNewline(Sextet(s[i]));
    }
    StripNewlinesKeeps(s);
    DecodeQuantaEncode(b);
  }

  /** The encoding uses neither `+`, `/` nor the padding `=`: it is safe in URLs. */
  lemma EncodeIsUrlSafe(b: Bytes)
    ensures forall i :: 0 <= i < |Encode(b)| ==>
      Encode(b)[i] != '+' as int && Encode(b)[i] != '/' as int && Encode(b)[i] != '=' as int
  {
  }

  lemma {:induction false} DecodeQuantaGarbage(b: Bytes, g: Bytes)
    requires |b| % 3 == 0
    requires g != [] && !IsSymbol(g[0])
    ensures DecodeQuanta(Encode(b) + g) == b
  {
    if |b| == 0 {
      assert Encode(b) + g == g;
    } else {
      assert |b| >= 3 && |b[3..]| == |b| - 3 && (|b| - 3) % 3 == 0;
      EncodeStep(b);
      Reassociate(EncodeGroup(b[0], b[1], b[2]), Encode(b[3..]), g);
      DecodeGroupCons(b[0], b[1], b[2], Encode(b[3..]) + g);
      DecodeQuantaGarbage(b[3..], g);
      SplitThree(b);
    }
  }


  /**
   * Since the decoding error is discarded, a token whose whole quanta are followed by
   * a byte outside the alphabet decodes to the bytes of those quanta, as if the rest
   * were absent.
   */
  lemma DecodeIgnoresTrailingGarbage(b: Bytes, g: Bytes)
    requires |b| % 3 == 0
    requires g != [] && !IsSymbol(g[0]) && !IsNewline(g[0])
    ensures Decode(Encode(b) + g) == b
  {
    var s := Encode(b);
    forall i | 0 <= i < |s| ensures !IsNewline(s[i]) {
      SymbolIsNoNewline(Sextet(s[i]));
    }
    StripNewlinesKeeps(s);
    StripNewlinesAppend(s, g);
    assert g == [g[0]] + g[1..];
    StripNewlinesAppend([g[0]], g[1..]);
    DecodeQuantaGarbage(b, StripNewlines(g));
  }

  /** The first symbol carries the top six bits of the first byte. */
  lemma EncodeFirst(b: Bytes)
    requires b != []
    ensures Encode(b) != [] && Encode(b)[0] == Symbol(b[0] / 4)
  {
  }
}
