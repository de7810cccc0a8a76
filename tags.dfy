/**
 * The sort-key configuration that `crud.Basic.Find` (crud/crud.go) reads from the
 * `paginate:"..."` tags of the record type's fields before it builds a query: the tag
 * splitter, and the loop over the fields that fills in a paginator.
 */
module Tags {
  import opened Wrappers
  import opened Paginator

  // ---------------------------------------------------------------------------
  // Splitting a tag on the expression \s*[;,]\s*
  // ---------------------------------------------------------------------------

  /** `\s` of Go's regular expressions: tab, newline, form feed, carriage return and space. */
  predicate IsSpace(c: char) {
    c == ' ' || c == '\t' || c == '\n' || c == '\r' || c as int == 0x0C
  }

  predicate IsSep(c: char) {
    c == ';' || c == ','
  }

  /** The end of the run of spaces that starts at `i`. */
  function SpaceEnd(s: string, i: nat): (j: nat)
    requires i <= |s|
    ensures i <= j <= |s|
    ensures forall k :: i <= k < j ==> IsSpace(s[k])
    ensures j < |s| ==> !IsSpace(s[j])
    decreases |s| - i
  {
    if i < |s| && IsSpace(s[i]) then SpaceEnd(s, i + 1) else i
  }

  /** The expression matches at `i`: spaces, then a separator. */
  predicate MatchesAt(s: string, i: nat)
    requires i <= |s|
  {
    SpaceEnd(s, i) < |s| && IsSep(s[SpaceEnd(s, i)])
  }

  /** Where a match at `i` ends: after the separator and the spaces that follow it. */
  function MatchEnd(s: string, i: nat): (e: nat)
    requires i <= |s| && MatchesAt(s, i)
    ensures i < e <= |s|
  {
    SpaceEnd(s, SpaceEnd(s, i) + 1)
  }

  /**
   * The pieces from `beg` on, searching for the leftmost match from `pos`: each match
   * ends a piece, and the piece after the last match runs to the end.
   */
  function SplitFrom(s: string, beg: nat, pos: nat): (r: seq<string>)
    requires beg <= pos <= |s|
    ensures |r| >= 1
    decreases |s| - pos
  {
    if pos == |s| then [s[beg..]]
    else if MatchesAt(s, pos) then [s[beg..pos]] + SplitFrom(s, MatchEnd(s, pos), MatchEnd(s, pos))
    else SplitFrom(s, beg, pos + 1)
  }

  /** `splitRe.Split(t, -1)`: the pieces between the matches, in order. */
  function Split(s: string): (r: seq<string>)
    ensures |r| >= 1
  {
    SplitFrom(s, 0, 0)
  }

  /** The number of separator characters. */
  function Separators(s: string): nat {
    if s == [] then 0 else (if IsSep(s[0]) then 1 else 0) + Separators(s[1..])
  }

  lemma SeparatorsStep(s: string, i: nat)
    requires i < |s|
    ensures Separators(s[i..]) == (if IsSep(s[i]) then 1 else 0) + Separators(s[i + 1..])
  {
    assert s[i..][1..] == s[i + 1..];
  }

  /** Spaces carry no separator. */
  lemma {:induction false} SeparatorsOfSpaces(s: string, i: nat)
    requires i <= |s|
    ensures Separators(s[i..]) == Separators(s[SpaceEnd(s, i)..])
    decreases |s| - i
  {
    if i < |s| && IsSpace(s[i]) {
      SeparatorsStep(s, i);
      SeparatorsOfSpaces(s, i + 1);
    }
  }

  /** A match holds exactly one separator. */
  lemma MatchSeparators(s: string, i: nat)
    requires i <= |s| && MatchesAt(s, i)
    ensures Separators(s[i..]) == 1 + Separators(s[MatchEnd(s, i)..])
  {
    SeparatorsAround(s, i, SpaceEnd(s, i), MatchEnd(s, i));
  }

  /** Spaces from `i` to `j`, a separator at `j`, spaces from there to `e`: one separator. */
  lemma SeparatorsAround(s: string, i: nat, j: nat, e: nat)
    requires i <= j < |s| && j == SpaceEnd(s, i) && IsSep(s[j]) && e == SpaceEnd(s, j + 1)
    ensures Separators(s[i..]) == 1 + Separators(s[e..])
  {
    SeparatorsOfSpaces(s, i);
    SeparatorsStep(s, j);
    SeparatorsOfSpaces(s, j + 1);
  }

  /** A position that does not match holds no separator. */
  lemma NoMatchNoSeparator(s: string, i: nat)
    requires i < |s| && !MatchesAt(s, i)
    ensures !IsSep(s[i])
  {
  }

  lemma {:induction false} SplitFromCount(s: string, beg: nat, pos: nat)
    requires beg <= pos <= |s|
    ensures |SplitFrom(s, beg, pos)| == 1 + Separators(s[pos..])
    decreases |s| - pos
  {
    if pos == |s| {
      assert s[pos..] == [];
    } else if MatchesAt(s, pos) {
      MatchSeparators(s, pos);
      SplitFromCount(s, MatchEnd(s, pos), MatchEnd(s, pos));
    } else {
      NoMatchNoSeparator(s, pos);
      SeparatorsStep(s, pos);
      SplitFromCount(s, beg, pos + 1);
    }
  }

  /** A tag splits into one piece more than it has separators. */
  lemma SplitCount(s: string)
    ensures |Split(s)| == 1 + Separators(s)
  {
    SplitFromCount(s, 0, 0);
    assert s[0..] == s;
  }

  /** No position in `[beg, pos)` starts a match. */
  predicate NoMatchIn(s: string, beg: nat, pos: nat)
    requires beg <= pos <= |s|
  {
    forall k :: beg <= k < pos ==> !MatchesAt(s, k)
  }

  /** A space before a match extends that match. */
  lemma SpaceBeforeMatch(s: string, i: nat)
    requires i + 1 <= |s| && IsSpace(s[i]) && MatchesAt(s, i + 1)
    ensures MatchesAt(s, i)
  {
  }

  /** A piece holds no separator. */
  predicate CutPiece(piece: string) {
    forall k :: 0 <= k < |piece| ==> !IsSep(piece[k])
  }

  predicate NoLeadingSpace(piece: string) {
    piece == [] || !IsSpace(piece[0])
  }

  predicate NoTrailingSpace(piece: string) {
    piece == [] || !IsSpace(piece[|piece| - 1])
  }

  /**
   * Pieces cut at the separators: none holds a separator, none but the last ends with a
   * space, and none but the first starts with one (the first neither when `lead`).
   */
  predicate WellCut(r: seq<string>, lead: bool) {
    (forall i :: 0 <= i < |r| ==> CutPiece(r[i]))
    && (forall i :: 0 <= i < |r| - 1 ==> NoTrailingSpace(r[i]))
    && (forall i :: 0 <= i < |r| ==> (i > 0 || lead) ==> NoLeadingSpace(r[i]))
  }

  lemma OnePiece(piece: string, lead: bool)
    requires CutPiece(piece) && (lead ==> NoLeadingSpace(piece))
    ensures WellCut([piece], lead)
  {
  }

  lemma ConsPiece(piece: string, rest: seq<string>, lead: bool)
    requires CutPiece(piece) && NoTrailingSpace(piece) && (lead ==> NoLeadingSpace(piece))
    requires WellCut(rest, true)
    ensures WellCut([piece] + rest, lead)
  {
    var r := [piece] + rest;
    assert forall i :: 0 < i < |r| ==> r[i] == rest[i - 1];
  }

  /** The piece from `beg` to a position free of matches, or to the end, holds no separator. */
  lemma PieceCut(s: string, beg: nat, pos: nat)
    requires beg <= pos <= |s| && NoMatchIn(s, beg, pos)
    ensures CutPiece(s[beg..pos])
  {
    forall k | 0 <= k < pos - beg ensures !IsSep(s[beg..pos][k]) {
      NoMatchNoSeparator(s, beg + k);
    }
  }

  /** The piece before a match does not end with a space: the match would have started at it. */
  lemma PieceBeforeMatch(s: string, beg: nat, pos: nat)
    requires beg <= pos < |s| && NoMatchIn(s, beg, pos) && MatchesAt(s, pos)
    ensures NoTrailingSpace(s[beg..pos])
  {
    if beg < pos && IsSpace(s[pos - 1]) {
      SpaceBeforeMatch(s, pos - 1);
      assert false;
    }
  }

  lemma {:induction false} SplitFromPieces(s: string, beg: nat, pos: nat)
    requires beg <= pos <= |s| && NoMatchIn(s, beg, pos)
    requires beg > 0 && beg < |s| ==> !IsSpace(s[beg])
    ensures WellCut(SplitFrom(s, beg, pos), beg > 0)
    decreases |s| - pos
  {
    if pos == |s| {
      PieceCut(s, beg, pos);
      assert s[beg..] == s[beg..pos];
      OnePiece(s[beg..], beg > 0);
    } else if MatchesAt(s, pos) {
      var e := MatchEnd(s, pos);
      PieceCut(s, beg, pos);
      PieceBeforeMatch(s, beg, pos);
      SplitFromPieces(s, e, e);
      ConsPiece(s[beg..pos], SplitFrom(s, e, e), beg > 0);
    } else {
      SplitFromPieces(s, beg, pos + 1);
    }
  }

  /**
   * The pieces of a tag hold no separator, and the spaces around each separator are
   * gone: no piece but the last ends with a space, and no piece but the first starts
   * with one.
   */
  lemma SplitPieces(s: string)
    ensures var r := Split(s);
      (forall i :: 0 <= i < |r| ==> CutPiece(r[i]))
      && (forall i :: 0 <= i < |r| - 1 ==> r[i] == [] || !IsSpace(r[i][|r[i]| - 1]))
      && (forall i :: 0 < i < |r| ==> r[i] == [] || !IsSpace(r[i][0]))
  {
    SplitFromPieces(s, 0, 0);
    assert Split(s) == SplitFrom(s, 0, 0);
  }

  /** A tag without separators is one piece, unchanged. */
  lemma {:induction false} SplitNoSeparator(s: string, pos: nat)
    requires pos <= |s| && forall k :: 0 <= k < |s| ==> !IsSep(s[k])
    ensures SplitFrom(s, 0, pos) == [s]
    decreases |s| - pos
  {
    if pos < |s| {
      var j := SpaceEnd(s, pos);
      assert !MatchesAt(s, pos) by {
        if j < |s| {
          assert !IsSep(s[j]);
        }
      }
      SplitNoSeparator(s, pos + 1);
    }
  }

  // ---------------------------------------------------------------------------
  // Resolving the paginator from the field tags
  // ---------------------------------------------------------------------------

  /** A field of the record type and its `paginate` tag ("" when it has none). */
  datatype Field = Field(name: string, tag: string)

  /** Field names are Go identifiers: never empty. */
  predicate WellNamed(fields: seq<Field>) {
    forall i :: 0 <= i < |fields| ==> fields[i].name != ""
  }

  datatype ResolveError = KeyNotTagged

  /** The field's tag names it the key: its first option is "key". */
  predicate KeyTagged(fd: Field) {
    fd.tag != "" && Split(fd.tag)[0] == "key"
  }

  /** The field's tag names it the tie-break: its first option is "tieBreak". */
  predicate TieTagged(fd: Field) {
    fd.tag != "" && Split(fd.tag)[0] == "tieBreak"
  }

  /** A key field asks for descending order: one of its options is "reverse". */
  predicate ReverseTagged(fd: Field) {
    KeyTagged(fd) && "reverse" in Split(fd.tag)
  }

  /** The name of the last key field, if any. */
  function LastKey(fields: seq<Field>): Option<string> {
    if fields == [] then None
    else if KeyTagged(fields[|fields| - 1]) then Some(fields[|fields| - 1].name)
    else LastKey(fields[..|fields| - 1])
  }

  /** The name of the last tie-break field, or "" if there is none. */
  function LastTie(fields: seq<Field>): string {
    if fields == [] then ""
    else if TieTagged(fields[|fields| - 1]) then fields[|fields| - 1].name
    else LastTie(fields[..|fields| - 1])
  }

  /** Some key field has the "reverse" option. */
  predicate AnyReverse(fields: seq<Field>) {
    exists i :: 0 <= i < |fields| && ReverseTagged(fields[i])
  }

  /** The configuration the tags give, or the error when no field is tagged as the key. */
  function Resolved(debug: bool, fields: seq<Field>): (r: Result<Paginator, ResolveError>)
    ensures r.Err? <==> forall i :: 0 <= i < |fields| ==> !KeyTagged(fields[i])
    ensures r.Ok? ==> exists i :: 0 <= i < |fields| && KeyTagged(fields[i]) && r.value.FieldName == fields[i].name
    ensures r.Ok? ==> r.value.IsTime && r.value.Debug == debug
  {
    LastKeyIsKey(fields);
    match LastKey(fields)
    case None => Err(KeyNotTagged)
    case Some(key) => Ok(Paginator(key, LastTie(fields), AnyReverse(fields), debug, true))
  }

  /** The option loop of a key field: sets Reverse on "reverse" and IsTime on "isTime". */
  method ApplyKeyOptions(p: Paginator, options: seq<string>) returns (q: Paginator)
    ensures q == p.(Reverse := p.Reverse || "reverse" in options, IsTime := p.IsTime || "isTime" in options)
  {
    q := p;
    var j := 0;
    while j < |options|
      invariant 0 <= j <= |options|
      invariant q == p.(Reverse := p.Reverse || "reverse" in options[..j],
                        IsTime := p.IsTime || "isTime" in options[..j])
    {
      assert options[..j + 1] == options[..j] + [options[j]];
      if options[j] == "reverse" {
        q := q.(Reverse := true);
      } else if options[j] == "isTime" {
        q := q.(IsTime := true);
      }
      j := j + 1;
    }
    assert options[..j] == options;
  }

  /** The paginator the tag loop has built once it has seen `fields`. */
  function Partial(debug: bool, fields: seq<Field>): Paginator {
    Paginator(match LastKey(fields) case None => "" case Some(k) => k,
              LastTie(fields), AnyReverse(fields), debug, true)
  }

  lemma PartialStep(debug: bool, fields: seq<Field>, i: nat)
    requires i < |fields|
    ensures LastKey(fields[..i + 1]) == if KeyTagged(fields[i]) then Some(fields[i].name) else LastKey(fields[..i])
    ensures LastTie(fields[..i + 1]) == if TieTagged(fields[i]) then fields[i].name else LastTie(fields[..i])
    ensures AnyReverse(fields[..i + 1]) == (AnyReverse(fields[..i]) || ReverseTagged(fields[i]))
  {
    var pre := fields[..i + 1];
    assert pre[..|pre| - 1] == fields[..i];
    assert pre[|pre| - 1] == fields[i];
    if AnyReverse(pre) && !ReverseTagged(fields[i]) {
      var j :| 0 <= j < |pre| && ReverseTagged(pre[j]);
      assert j < i;
      assert fields[..i][j] == pre[j];
    }
    if AnyReverse(fields[..i]) {
      var j :| 0 <= j < i && ReverseTagged(fields[..i][j]);
      assert pre[j] == fields[..i][j];
    }
  }

  /**
   * The tag loop of `Find` and its final check: the last key field gives FieldName and
   * the last tie-break field TieBreakField; Reverse is set when some key field has the
   * "reverse" option; IsTime is always set and Debug copied; no key field is an error.
   */
  method ResolvePaginator(debug: bool, fields: seq<Field>) returns (r: Result<Paginator, ResolveError>)
    requires WellNamed(fields)
    ensures r == Resolved(debug, fields)
  {
    var p := Paginator("", "", false, debug, true);
    var i := 0;
    while i < |fields|
      invariant 0 <= i <= |fields|
      invariant p == Partial(debug, fields[..i])
    {
      PartialStep(debug, fields, i);
      var f := fields[i].name;
      var t := fields[i].tag;
      if t == "" {
        i := i + 1;
        continue;
      }
      var options := Split(t);
      if options[0] == "key" {
        p := p.(FieldName := f);
        p := ApplyKeyOptions(p, options);
      } else if options[0] == "tieBreak" {
        p := p.(TieBreakField := f);
      }
      i := i + 1;
    }
    assert fields[..i] == fields;
    if p.FieldName == "" {
      assert LastKey(fields).None? by {
        if LastKey(fields).Some? {
          LastKeyIsKey(fields);
        }
      }
      return Err(KeyNotTagged);
    }
    return Ok(p);
  }

  // ---------------------------------------------------------------------------
  // Properties of the resolution
  // ---------------------------------------------------------------------------

  /** The key is the last field tagged as the key, and there is none exactly when LastKey is None. */
  lemma {:induction false} LastKeyIsKey(fields: seq<Field>)
    ensures LastKey(fields).Some? <==> exists i :: 0 <= i < |fields| && KeyTagged(fields[i])
    ensures LastKey(fields).Some? ==>
      exists i :: (0 <= i < |fields| && KeyTagged(fields[i]) && LastKey(fields).value == fields[i].name
                   && forall j :: i < j < |fields| ==> !KeyTagged(fields[j]))
  {
    if fields != [] {
      var pre := fields[..|fields| - 1];
      LastKeyIsKey(pre);
      if !KeyTagged(fields[|fields| - 1]) {
        if exists i :: 0 <= i < |fields| && KeyTagged(fields[i]) {
          var i :| 0 <= i < |fields| && KeyTagged(fields[i]);
          assert pre[i] == fields[i];
        }
        if LastKey(pre).Some? {
          var i :| 0 <= i < |pre| && KeyTagged(pre[i]) && LastKey(pre).value == pre[i].name
            && forall j :: i < j < |pre| ==> !KeyTagged(pre[j]);
          assert fields[i] == pre[i];
          forall j | i < j < |fields| ensures !KeyTagged(fields[j]) {
            if j < |pre| {
              assert fields[j] == pre[j];
            }
          }
        }
      }
    }
  }

  /** The tie-break is the last field tagged "tieBreak", or "" when there is none. */
  lemma {:induction false} LastTieIsTie(fields: seq<Field>)
    requires WellNamed(fields)
    ensures LastTie(fields) == "" <==> forall i :: 0 <= i < |fields| ==> !TieTagged(fields[i])
    ensures LastTie(fields) != "" ==>
      exists i :: (0 <= i < |fields| && TieTagged(fields[i]) && LastTie(fields) == fields[i].name
                   && forall j :: i < j < |fields| ==> !TieTagged(fields[j]))
  {
    if fields != [] {
      var pre := fields[..|fields| - 1];
      assert WellNamed(pre) by {
        forall i | 0 <= i < |pre| ensures pre[i].name != "" {
          assert pre[i] == fields[i];
        }
      }
      LastTieIsTie(pre);
      if !TieTagged(fields[|fields| - 1]) {
        if LastTie(pre) == "" {
          forall i | 0 <= i < |fields| ensures !TieTagged(fields[i]) {
            if i < |pre| {
              assert fields[i] == pre[i];
            }
          }
        } else {
          var i :| 0 <= i < |pre| && TieTagged(pre[i]) && LastTie(pre) == pre[i].name
            && forall j :: i < j < |pre| ==> !TieTagged(pre[j]);
          assert fields[i] == pre[i];
          forall j | i < j < |fields| ensures !TieTagged(fields[j]) {
            if j < |pre| {
              assert fields[j] == pre[j];
            }
          }
        }
      }
    }
  }

  /** What one more field does to the closed forms. */
  lemma AppendField(fields: seq<Field>, fd: Field)
    ensures LastKey(fields + [fd]) == if KeyTagged(fd) then Some(fd.name) else LastKey(fields)
    ensures LastTie(fields + [fd]) == if TieTagged(fd) then fd.name else LastTie(fields)
    ensures AnyReverse(fields + [fd]) == (AnyReverse(fields) || ReverseTagged(fd))
  {
    var all := fields + [fd];
    assert all[..|all| - 1] == fields;
    assert all[|all| - 1] == fd;
    if AnyReverse(all) && !ReverseTagged(fd) {
      var j :| 0 <= j < |all| && ReverseTagged(all[j]);
      assert j < |fields| && all[j] == fields[j];
    }
    if AnyReverse(fields) {
      var j :| 0 <= j < |fields| && ReverseTagged(fields[j]);
      assert all[j] == fields[j];
    }
  }

  /** Fields with an empty tag, or a first option other than "key" and "tieBreak", change nothing. */
  lemma IgnoredField(debug: bool, fields: seq<Field>, fd: Field)
    requires fd.tag == "" || (Split(fd.tag)[0] != "key" && Split(fd.tag)[0] != "tieBreak")
    ensures Resolved(debug, fields + [fd]) == Resolved(debug, fields)
  {
    AppendField(fields, fd);
  }

  /** The options of a tie-break field after the first are ignored. */
  lemma TieOptionsIgnored(debug: bool, fields: seq<Field>, name: string, tag: string)
    requires TieTagged(Field(name, tag))
    ensures Resolved(debug, fields + [Field(name, tag)]) == Resolved(debug, fields + [Field(name, "tieBreak")])
  {
    assert TieTagged(Field(name, "tieBreak")) by {
      TieTagOption();
    }
    AppendField(fields, Field(name, tag));
    AppendField(fields, Field(name, "tieBreak"));
  }

  /** Positions without a match are skipped in one go. */
  lemma {:induction false} SplitSkip(s: string, beg: nat, pos: nat, stop: nat)
    requires beg <= pos <= stop <= |s|
    requires forall k :: pos <= k < stop ==> !MatchesAt(s, k)
    ensures SplitFrom(s, beg, pos) == SplitFrom(s, beg, stop)
    decreases stop - pos
  {
    if pos < stop {
      SplitSkip(s, beg, pos + 1, stop);
    }
  }

  /** A word ended by a separator with no spaces around it is one piece. */
  lemma SplitWord(s: string, beg: nat, sep: nat)
    requires beg <= sep < |s| && IsSep(s[sep])
    requires forall k :: beg <= k < sep ==> !IsSpace(s[k]) && !IsSep(s[k])
    requires sep + 1 < |s| ==> !IsSpace(s[sep + 1])
    ensures SplitFrom(s, beg, beg) == [s[beg..sep]] + SplitFrom(s, sep + 1, sep + 1)
  {
    SplitSkip(s, beg, beg, sep);
    assert MatchEnd(s, sep) == sep + 1;
  }

  /** The rest of a tag, without separators, is its last piece. */
  lemma SplitLast(s: string, start: nat)
    requires start <= |s| && forall k :: start <= k < |s| ==> !IsSep(s[k])
    ensures SplitFrom(s, start, start) == [s[start..]]
  {
    forall k | start <= k < |s| ensures !MatchesAt(s, k) {
    }
    SplitSkip(s, start, start, |s|);
  }

  /** The word has no separator character, checked character by character. */
  predicate NoSeparator(w: string) {
    w == [] || (!IsSep(w[0]) && NoSeparator(w[1..]))
  }

  lemma {:induction false} NoSeparatorAt(w: string)
    requires NoSeparator(w)
    ensures forall k :: 0 <= k < |w| ==> !IsSep(w[k])
  {
    if w != [] {
      NoSeparatorAt(w[1..]);
      assert forall k :: 1 <= k < |w| ==> w[k] == w[1..][k - 1];
    }
  }

  /** The word has neither separators nor spaces, checked character by character. */
  predicate Plain(w: string) {
    w == [] || (!IsSpace(w[0]) && !IsSep(w[0]) && Plain(w[1..]))
  }

  lemma {:induction false} PlainAt(w: string)
    requires Plain(w)
    ensures forall k :: 0 <= k < |w| ==> !IsSpace(w[k]) && !IsSep(w[k])
  {
    if w != [] {
      PlainAt(w[1..]);
      assert forall k :: 1 <= k < |w| ==> w[k] == w[1..][k - 1];
    }
  }

  /** Where the characters of a word, its ";" and the rest lie in a tag that holds them at `beg`. */
  lemma WordLayout(t: string, beg: nat, w: string, rest: string)
    requires beg <= |t| && t[beg..] == w + ";" + rest
    ensures beg + |w| < |t| && t[beg + |w|] == ';'
    ensures forall k :: beg <= k < beg + |w| ==> t[k] == w[k - beg]
    ensures t[beg..beg + |w|] == w
    ensures t[beg + |w| + 1..] == rest
  {
    var u := t[beg..];
    assert u[|w|] == ';';
    assert u[..|w|] == w;
    assert u[|w| + 1..] == rest;
  }

  /** A word and a ";" at `beg`, followed by no space, end a piece. */
  lemma SplitWordAt(t: string, beg: nat, w: string, rest: string)
    requires beg <= |t| && t[beg..] == w + ";" + rest
    requires Plain(w)
    requires rest != [] ==> !IsSpace(rest[0])
    ensures SplitFrom(t, beg, beg) == [w] + SplitFrom(t, beg + |w| + 1, beg + |w| + 1)
    ensures t[beg + |w| + 1..] == rest
  {
    PlainAt(w);
    WordLayout(t, beg, w, rest);
    var sep := beg + |w|;
    assert forall k :: beg <= k < sep ==> !IsSpace(t[k]) && !IsSep(t[k]);
    assert sep + 1 < |t| ==> t[sep + 1] == rest[0];
    SplitWord(t, beg, sep);
  }

  /** The rest of a tag, a word without separators, is its last piece. */
  lemma SplitTail(t: string, start: nat, c: string)
    requires start <= |t| && t[start..] == c && NoSeparator(c)
    ensures SplitFrom(t, start, start) == [c]
  {
    NoSeparatorAt(c);
    forall k | start <= k < |t| ensures !IsSep(t[k]) {
      assert t[k] == c[k - start];
    }
    SplitLast(t, start);
  }

  lemma JoinedHead(a: string, b: string, c: string)
    ensures (a + ";" + b + ";" + c)[0..] == a + ";" + (b + ";" + c)
  {
    assert a + ";" + b + ";" + c == a + ";" + (b + ";" + c);
  }

  /** The first word of a tag of three words joined by ";". */
  lemma JoinedFirst(a: string, b: string, c: string)
    requires Plain(a) && b != [] && !IsSpace(b[0])
    ensures var t := a + ";" + b + ";" + c;
      SplitFrom(t, 0, 0) == [a] + SplitFrom(t, |a| + 1, |a| + 1) && t[|a| + 1..] == b + ";" + c
  {
    var t := a + ";" + b + ";" + c;
    var rest := b + ";" + c;
    assert rest[0] == b[0];
    JoinedHead(a, b, c);
    SplitWordAt(t, 0, a, rest);
  }

  /** A tag made of words joined by ";" splits into those words. */
  lemma SplitJoined(a: string, b: string, c: string)
    requires Plain(a) && Plain(b) && NoSeparator(c)
    requires b != [] && c != [] && !IsSpace(c[0])
    ensures Split(a + ";" + b + ";" + c) == [a, b, c]
  {
    var t := a + ";" + b + ";" + c;
    var j := |a| + 1 + |b| + 1;
    JoinedFirst(a, b, c);
    SplitWordAt(t, |a| + 1, b, c);
    SplitTail(t, j, c);
    assert Split(t) == SplitFrom(t, 0, 0);
  }

  /** The tag of the test record's key field, as its words joined by ";". */
  lemma KeyTagWords()
    ensures "key;isTime;reverse" == "key" + ";" + "isTime" + ";" + "reverse"
  {
  }

  /** The words of the test record's key tag have no separators and no spaces. */
  lemma KeyTagWordsPlain()
    ensures Plain("key") && Plain("isTime") && NoSeparator("reverse") && !IsSpace("reverse"[0])
  {
  }

  lemma KeyTagOptions()
    ensures Split("key;isTime;reverse") == ["key", "isTime", "reverse"]
  {
    KeyTagWords();
    KeyTagWordsPlain();
    SplitJoined("key", "isTime", "reverse");
  }

  /** The tag "tieBreak" is one option. */
  lemma TieTagOption()
    ensures Split("tieBreak") == ["tieBreak"]
  {
    SplitNoSeparator("tieBreak", 0);
  }

  lemma TestTagOptions()
    ensures Split("key;isTime;reverse") == ["key", "isTime", "reverse"]
    ensures Split("tieBreak") == ["tieBreak"]
  {
    KeyTagOptions();
    TieTagOption();
  }


  // ---------------------------------------------------------------------------
  // The splitter against a reference: cut at every separator, then trim spaces
  // ---------------------------------------------------------------------------

  /** The pieces of `s[beg..]` cut at every separator character, searching from `pos`. */
  function SepSplitFrom(s: string, beg: nat, pos: nat): (r: seq<string>)
    requires beg <= pos <= |s|
    ensures |r| >= 1
    decreases |s| - pos
  {
    if pos == |s| then [s[beg..]]
    else if IsSep(s[pos]) then [s[beg..pos]] + SepSplitFrom(s, pos + 1, pos + 1)
    else SepSplitFrom(s, beg, pos + 1)
  }

  /** The pieces between the separator characters, spaces and empty pieces kept. */
  function SepSplit(s: string): seq<string> {
    SepSplitFrom(s, 0, 0)
  }

  /** The piece without its leading spaces. */
  function TrimLeft(p: string): string
    decreases |p|
  {
    if p != [] && IsSpace(p[0]) then TrimLeft(p[1..]) else p
  }

  /** The piece without its trailing spaces. */
  function TrimRight(p: string): string
    decreases |p|
  {
    if p != [] && IsSpace(p[|p| - 1]) then TrimRight(p[..|p| - 1]) else p
  }

  /** A piece without its leading spaces when `left`, and without its trailing ones when `right`. */
  function TrimPiece(p: string, left: bool, right: bool): string {
    var q := if left then TrimLeft(p) else p;
    if right then TrimRight(q) else q
  }

  /**
   * The pieces without the spaces next to a separator: every piece but the last loses
   * its trailing spaces, and every piece but the first (the first too when `lead`) its
   * leading spaces.
   */
  function Trimmed(rs: seq<string>, lead: bool): (r: seq<string>)
    ensures |r| == |rs|
  {
    seq(|rs|, i requires 0 <= i < |rs| => TrimPiece(rs[i], i > 0 || lead, i < |rs| - 1))
  }

  /** The first separator at or after `i`, or the end. */
  function NextSep(s: string, i: nat): (b: nat)
    requires i <= |s|
    ensures i <= b <= |s|
    ensures forall k :: i <= k < b ==> !IsSep(s[k])
    ensures b < |s| ==> IsSep(s[b])
    decreases |s| - i
  {
    if i == |s| || IsSep(s[i]) then i else NextSep(s, i + 1)
  }

  /** Where the run of spaces that ends at `b` starts, but not before `c`. */
  function RunStart(s: string, c: nat, b: nat): (m: nat)
    requires c <= b <= |s|
    ensures c <= m <= b
    ensures forall k :: m <= k < b ==> IsSpace(s[k])
    ensures m > c ==> !IsSpace(s[m - 1])
    decreases b - c
  {
    if b > c && IsSpace(s[b - 1]) then RunStart(s, c, b - 1) else b
  }

  /** Positions without a separator are skipped in one go. */
  lemma {:induction false} SepSkip(s: string, beg: nat, pos: nat, stop: nat)
    requires beg <= pos <= stop <= |s|
    requires forall k :: pos <= k < stop ==> !IsSep(s[k])
    ensures SepSplitFrom(s, beg, pos) == SepSplitFrom(s, beg, stop)
    decreases stop - pos
  {
    if pos < stop {
      SepSkip(s, beg, pos + 1, stop);
    }
  }

  /** The reference's piece from `a` runs to the next separator. */
  lemma SepSplitPiece(s: string, a: nat)
    requires a <= |s|
    ensures var b := NextSep(s, a);
      SepSplitFrom(s, a, a) == if b == |s| then [s[a..]] else [s[a..b]] + SepSplitFrom(s, b + 1, b + 1)
  {
    SepSkip(s, a, a, NextSep(s, a));
  }

  /** A run of spaces from `i` that stops at `j` is what SpaceEnd finds. */
  lemma {:induction false} SpaceEndOfRun(s: string, i: nat, j: nat)
    requires i <= j <= |s|
    requires forall k :: i <= k < j ==> IsSpace(s[k])
    requires j == |s| || !IsSpace(s[j])
    ensures SpaceEnd(s, i) == j
    decreases j - i
  {
    if i < j {
      SpaceEndOfRun(s, i + 1, j);
    }
  }

  /** Trimming the left of a slice moves its start to the end of the spaces. */
  lemma {:induction false} TrimLeftSlice(s: string, a: nat, hi: nat)
    requires a <= hi <= |s| && SpaceEnd(s, a) <= hi
    ensures TrimLeft(s[a..hi]) == s[SpaceEnd(s, a)..hi]
    decreases hi - a
  {
    if a < hi && IsSpace(s[a]) {
      assert s[a..hi][1..] == s[a + 1..hi];
      TrimLeftSlice(s, a + 1, hi);
    }
  }

  /** Trimming the right of a slice moves its end to the start of the spaces. */
  lemma {:induction false} TrimRightSlice(s: string, c: nat, b: nat)
    requires c <= b <= |s|
    ensures TrimRight(s[c..b]) == s[c..RunStart(s, c, b)]
    decreases b - c
  {
    if b > c && IsSpace(s[b - 1]) {
      assert s[c..b][..b - c - 1] == s[c..b - 1];
      TrimRightSlice(s, c, b - 1);
    }
  }

  /**
   * The splitter's piece from `c`, when the next separator is at `b`: it ends where the
   * spaces before the separator start, and the next piece starts after the spaces that
   * follow it.
   */
  lemma SplitPieceAt(s: string, c: nat, b: nat)
    requires c <= b <= |s|
    requires forall k :: c <= k < b ==> !IsSep(s[k])
    requires b < |s| ==> IsSep(s[b])
    ensures b == |s| ==> SplitFrom(s, c, c) == [s[c..]]
    ensures b < |s| ==>
      SplitFrom(s, c, c) == [s[c..RunStart(s, c, b)]] + SplitFrom(s, SpaceEnd(s, b + 1), SpaceEnd(s, b + 1))
  {
    if b == |s| {
      SplitLast(s, c);
    } else {
      var m := RunStart(s, c, b);
      NoMatchBeforeRun(s, c, b);
      SplitSkip(s, c, c, m);
      MatchAtRun(s, c, b);
    }
  }

  /** Before the spaces that precede the separator, nothing matches. */
  lemma NoMatchBeforeRun(s: string, c: nat, b: nat)
    requires c <= b < |s|
    requires forall k :: c <= k < b ==> !IsSep(s[k])
    ensures forall k :: c <= k < RunStart(s, c, b) ==> !MatchesAt(s, k)
  {
    var m := RunStart(s, c, b);
    forall k | c <= k < m ensures !MatchesAt(s, k) {
      assert SpaceEnd(s, k) < m;
    }
  }

  /** The spaces before the separator, the separator and the spaces after it are one match. */
  lemma MatchAtRun(s: string, c: nat, b: nat)
    requires c <= b < |s| && IsSep(s[b])
    ensures MatchesAt(s, RunStart(s, c, b)) && MatchEnd(s, RunStart(s, c, b)) == SpaceEnd(s, b + 1)
  {
    SpaceEndOfRun(s, RunStart(s, c, b), b);
  }

  lemma TrimmedOne(x: string, lead: bool)
    ensures Trimmed([x], lead) == [TrimPiece(x, lead, false)]
  {
  }

  lemma TrimmedCons(x: string, rs: seq<string>, lead: bool)
    requires rs != []
    ensures Trimmed([x] + rs, lead) == [TrimPiece(x, lead, true)] + Trimmed(rs, true)
  {
    var all := [x] + rs;
    assert forall i :: 0 < i < |all| ==> all[i] == rs[i - 1];
  }

  /** The reference's piece from `a` to the next separator `b`, without its leading spaces when `lead`. */
  lemma TrimHead(s: string, a: nat, lead: bool, c: nat, b: nat)
    requires a <= |s| && b == NextSep(s, a) && c == (if lead then SpaceEnd(s, a) else a)
    ensures c <= b && TrimPiece(s[a..b], lead, false) == s[c..b]
  {
    if lead {
      TrimLeftSlice(s, a, b);
    }
  }

  /** The last piece: no separator follows `a`. */
  lemma ReferenceLast(s: string, a: nat, lead: bool, c: nat, b: nat)
    requires a <= |s| && b == NextSep(s, a) && c == (if lead then SpaceEnd(s, a) else a)
    requires b == |s|
    ensures SplitFrom(s, c, c) == Trimmed(SepSplitFrom(s, a, a), lead)
  {
    TrimHead(s, a, lead, c, b);
    SepSplitPiece(s, a);
    SplitPieceAt(s, c, b);
    assert s[a..] == s[a..b] && s[c..] == s[c..b];
    TrimmedOne(s[a..], lead);
  }

  /** A piece ended by the separator at `b`, given the pieces after it. */
  lemma ReferenceCons(s: string, a: nat, lead: bool, c: nat, b: nat)
    requires a <= |s| && b == NextSep(s, a) && c == (if lead then SpaceEnd(s, a) else a)
    requires b < |s|
    requires SplitFrom(s, SpaceEnd(s, b + 1), SpaceEnd(s, b + 1)) == Trimmed(SepSplitFrom(s, b + 1, b + 1), true)
    ensures SplitFrom(s, c, c) == Trimmed(SepSplitFrom(s, a, a), lead)
  {
    var m := RunStart(s, c, b);
    var e := SpaceEnd(s, b + 1);
    var rest := SepSplitFrom(s, b + 1, b + 1);
    assert SplitFrom(s, c, c) == [s[c..m]] + SplitFrom(s, e, e) by {
      TrimHead(s, a, lead, c, b);
      SplitPieceAt(s, c, b);
    }
    assert SepSplitFrom(s, a, a) == [s[a..b]] + rest by {
      SepSplitPiece(s, a);
    }
    assert TrimPiece(s[a..b], lead, true) == s[c..m] by {
      TrimHead(s, a, lead, c, b);
      TrimPieceRight(s[a..b], lead);
      TrimRightSlice(s, c, b);
    }
    TrimmedJoin(SplitFrom(s, c, c), SepSplitFrom(s, a, a), s[c..m], s[a..b], SplitFrom(s, e, e), rest, lead);
  }

  lemma TrimPieceRight(p: string, lead: bool)
    ensures TrimPiece(p, lead, true) == TrimRight(TrimPiece(p, lead, false))
  {
  }

  /** A piece in front of trimmed pieces, trimmed on the right and, when `lead`, on the left. */
  lemma TrimmedJoin(split: seq<string>, cut: seq<string>, piece: string, x: string,
                    rest: seq<string>, cutRest: seq<string>, lead: bool)
    requires split == [piece] + rest && cut == [x] + cutRest && cutRest != []
    requires rest == Trimmed(cutRest, true) && TrimPiece(x, lead, true) == piece
    ensures split == Trimmed(cut, lead)
  {
    TrimmedCons(x, cutRest, lead);
  }

  /**
   * From a point `a` just after a separator (or the start), the splitter, starting after
   * the spaces when `lead`, gives the reference's pieces trimmed.
   */
  lemma {:induction false} SplitFromReference(s: string, a: nat, lead: bool)
    requires a <= |s|
    ensures var c := if lead then SpaceEnd(s, a) else a;
      SplitFrom(s, c, c) == Trimmed(SepSplitFrom(s, a, a), lead)
    decreases |s| - a
  {
    var c := if lead then SpaceEnd(s, a) else a;
    var b := NextSep(s, a);
    if b == |s| {
      ReferenceLast(s, a, lead, c, b);
    } else {
      SplitFromReference(s, b + 1, true);
      ReferenceCons(s, a, lead, c, b);
    }
  }

  /**
   * The splitter is the cut at every `;` and `,` with the spaces next to each separator
   * removed: the trailing spaces of every piece but the last and the leading spaces of
   * every piece but the first.
   */
  lemma SplitIsTrimmedCut(s: string)
    ensures Split(s) == Trimmed(SepSplit(s), false)
  {
    SplitFromReference(s, 0, false);
  }

  /**
   * The record type of the tests: UID tagged "tieBreak", Value untagged and AccessTime
   * tagged "key;isTime;reverse" give key AccessTime, tie-break UID, Reverse and IsTime.
   */
  lemma TestItemTags(debug: bool)
    ensures Resolved(debug, [Field("UID", "tieBreak"), Field("Value", ""), Field("AccessTime", "key;isTime;reverse")])
         == Ok(Paginator("AccessTime", "UID", true, debug, true))
  {
    TestTagOptions();
    var uid := Field("UID", "tieBreak");
    var value := Field("Value", "");
    var access := Field("AccessTime", "key;isTime;reverse");
    var fields := [uid, value, access];
    assert KeyTagged(access) && ReverseTagged(access);
    assert TieTagged(uid) && !TieTagged(value) && !TieTagged(access);
    assert LastKey(fields) == Some("AccessTime");
    assert fields[..2] == [uid, value] && [uid, value][..1] == [uid];
    assert LastTie(fields) == LastTie([uid, value]) == LastTie([uid]) == "UID";
    assert AnyReverse(fields) by {
      assert ReverseTagged(fields[2]);
    }
  }
}
