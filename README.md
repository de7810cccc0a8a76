# Keyset pagination of go-mixins/gorm, in Dafny

This project models the cursor ("keyset") paginator of the Go package `gorm` from go-mixins
(`paginate.go`). It also models the part of `crud.Basic.Find` (`crud/crud.go`) that builds a
paginator from the `paginate:"..."` struct tags of a record type.

How a request is paged:

- A client sends a `Pagination` whose `ThisPageToken` is empty, a cursor token, or a cursor
  token with a leading `-`. A leading `-` asks for the page *before* the cursor.
- `Scope` reads the token back into a cursor map `{"f": key, "t": tie}` and adds clauses to
  the query:
  - a limit of page size + 1;
  - a seek condition past the cursor;
  - the sort order.
- `Paginate` receives the rows. It drops the probe row, writes the one token that leads past
  the page (the cursor of the last row kept), and reverses the rows of a backward page in place.
- A token is the JSON text of the cursor map, written by `json.Marshal`. In Debug mode the
  token is that JSON as is. Otherwise it is the unpadded URL-safe base64 of the JSON
  (section 5 of RFC 4648).

Modules, one file each:

| file | module | models |
|---|---|---|
| `wrappers.dfy` | `Wrappers` | `Option`, `Result` |
| `bytes.dfy` | `Bytes` | octets, `strings.HasPrefix`, `strings.TrimPrefix` |
| `base64.dfy` | `Base64` | `base64.RawURLEncoding` encode and decode |
| `json.dfy` | `Json` | `json.Marshal` of the cursor map; `json.Unmarshal` of a token into `map[string]interface{}` |
| `paginator.dfy` | `Paginator` | `Paginator`, `Pagination`, `GetPageSize`, `cursor`, `isReverse`, `scope` |
| `query.dfy` | `Query` | `order`, `reverse`, `forward`, `backward`, `Scope`, and what the seek condition selects |
| `page.dfy` | `Page` | `Paginate`, over an array of rows, with the in-place swap loop |
| `tags.dfy` | `Tags` | the `\s*[;,]\s*` tag splitter and the tag loop of `Find` |
| `traversal.dfy` | `Traversal` | what the token a page hands out makes the next request do |

How the source is represented:

- A row is a map from field name to `Json.Value`. `ToDBName` is the identity, so a column
  name is the field's name.
- A query is the list of `Clause`s the scope appends to the query it is given.
- The `time` package enters as a parameter `TimeFormat`:
  - `format` is the RFC 3339 text `MarshalJSON` writes; it fails outside years 0..9999;
  - `parse` is `time.Parse(time.RFC3339Nano, _)`;
  - `zero` is the zero time.
- Go's `int` is the subtype `Paginator.Int` of 64-bit values. `int(n) + 1` wraps at the
  largest value (`Query.Succ`).

Where the structure of the proofs is less obvious:

- `scope` and `Paginate` are written step by step as the source assigns fields: the methods
  `Paginator.BuildScope`, `Page.Describe` and `Page.Paginate`. Each is proved equal to a
  specification function (`Paginator.ScopeOf`, `Page.PageOf`, `Page.PageRows`), and the
  properties are proved as lemmas about those functions.
- The swap loop `Page.ReversePrefix` keeps Go's downward index from `n/2 - 1`. It is proved to
  reverse the prefix and leave the rest of the array alone.

## Model

| member | source | states |
|---|---|---|
| `Paginator.CursorJson` | paginate.go:49-55 | the cursor JSON is empty exactly when the key, or the configured tie-break value, cannot be marshalled; otherwise it is an object, from "{" to "}" |
| `Paginator.TokenData` | paginate.go:187-192 | in Debug mode the data is the token with its one leading "-" removed, if any; otherwise at most three bytes come from every four symbols |
| `Paginator.AsTime` | paginate.go:194-196 | the key becomes a time: the one parsed from its string, or from "" when it is not a string, whenever parsing succeeds, and the zero time when it fails |
| `Paginator.GetPageSize` | paginate.go:30-36 | a nil request has page size 0; otherwise the request's own page size |
| `Paginator.Cursor` | paginate.go:44-60 | in Debug mode the token is the cursor JSON itself; otherwise every byte of the token is a symbol of the URL-safe base64 alphabet |
| `Paginator.IsReverse` | paginate.go:108-113 | a request is backward exactly when its token is non-empty and starts with "-" |
| `Paginator.TokenCursor` | paginate.go:186-197 | the scope has a cursor exactly when the token's data decodes to a JSON object; with IsTime that cursor holds "f", and "f" is a time |
| `Paginator.ScopeOf` | paginate.go:177-200 | direction and columns come from the configuration; a nil request has no cursor and is not backward; the scope is backward only when it has a cursor |
| `Paginator.ReadKeyAsTime` | paginate.go:194-196 | "f" is replaced by the time parsed from its string, or from "" when it is not a string, or by the zero time when parsing fails; the other keys are kept |
| `Paginator.BuildScope` | paginate.go:177-200 | the scope built field by field equals the specification `ScopeOf` |
| `Paginator.CursorJsonRoundTrip` | paginate.go:49-55 | the cursor of a writable row is a JSON object that decodes to "f" and, exactly when a tie-break field is configured, "t", with the row's values (a time as its text) |
| `Paginator.TokenDataOfJson` | paginate.go:186-192 | removing the sign and decoding base64 (not in Debug) gives back the JSON the token was made from |
| `Paginator.TokenRoundTrip` | paginate.go:186-197 | the scope reads back, from a row's token with or without "-", exactly the cursor `ReadBack` of that row |
| `Paginator.ReadBack` | paginate.go:194-196 | the read-back cursor holds "f", and holds "t" exactly when a tie-break field is configured |
| `Paginator.ReadBackKey` | paginate.go:194-196 | by definition of `ReadBack`: the key read back is the written key, re-read as a time when IsTime is set |
| `Paginator.TimeKeyRoundTrip` | paginate.go:194-196 | with IsTime, a time key comes back as the same instant whenever parsing inverts formatting |
| `Paginator.NonTimeKeyReadsAsTime` | paginate.go:194-196 | with IsTime, a key that is neither a string nor a time comes back as the time parsed from the empty text |
| `Paginator.CursorUnsigned` | paginate.go:55-59 | a row's token is non-empty and never starts with "-", so a next-page token is read as a forward request |
| `Paginator.MarshalFailureEmptyToken` | paginate.go:55-59 | when the cursor cannot be marshalled the error is dropped and the token is empty in either mode |
| `Paginator.EmptyTokenNoCursor` | paginate.go:186-198 | an empty token gives no cursor and a forward request |
| `Paginator.ScopeOfToken` | paginate.go:186-198 | a signed row token is a backward scope, and an unsigned one a forward scope, with the row's read-back cursor |
| `Paginator.SignedUndecodable` | paginate.go:186-198 | every token that starts with "-" but whose data is not a JSON object makes `isReverse` hold while the scope is not backward and has no cursor |
| `Paginator.SignedWithoutCursor` | paginate.go:198 | the token "-" reverses the page (`isReverse` holds) but the scope is not backward and has no cursor |
| `Bytes.TrimPrefix` | paginate.go:189 | one leading occurrence of the prefix is removed, and the input is unchanged without one |
| `Base64.Encode` | paginate.go:59 | the encoding has ceil(8n/6) symbols, all from the URL-safe alphabet, and no padding |
| `Base64.Sextet` | paginate.go:191 | a symbol decodes to the sextet that encodes to it; anything else is rejected |
| `Base64.EncodeIsUrlSafe` | paginate.go:59 | no "+", "/" or "=" appears in an encoding |
| `Base64.EncodeFirst` | paginate.go:59 | the first symbol comes from the top six bits of the first byte |
| `Base64.Decode` | paginate.go:191 | the decoded data has at most three bytes for every four input bytes |
| `Base64.DecodeEncode` | paginate.go:191 | decoding an encoding gives the bytes back |
| `Base64.DecodeIgnoresTrailingGarbage` | paginate.go:191 | the decoder keeps the bytes of the complete quanta before a bad byte and drops the error |
| `Json.EncodeCursor` | paginate.go:55 | marshalling the cursor fails exactly when the key, or the tie value when there is one, cannot be written; otherwise the text starts with `{"f":` and ends with "}" |
| `Json.EscapeByte` | paginate.go:55 | every byte of a string is written as a non-empty escape |
| `Json.StringRoundTrip` | paginate.go:55 | a quoted string reads back as the bytes it was made from, and the input after it is untouched |
| `Json.NumberRoundTrip` | paginate.go:55 | an integer written in decimal reads back as the same integer |
| `Json.ValueRoundTrip` | paginate.go:55 | every writable value other than a fraction literal reads back before a "," or "}": a time as its text, anything else as itself |
| `Json.CursorRoundTrip` | paginate.go:49-55 | decoding the written cursor object gives "f" and, exactly when a tie value was written, "t" |
| `Json.Decode` | paginate.go:193 | a map comes out only of a document that, after leading whitespace, starts with "{" |
| `Json.ToMap` | paginate.go:193 | every member's key is in the map, and the last member gives its key's value |
| `Json.DecodeEmpty` | paginate.go:193 | the empty document gives no map |
| `Json.ToMapKeys` | paginate.go:193 | every key of the decoded map comes from a member of the object |
| `Json.ToMapLastWins` | paginate.go:193 | with duplicate keys, the last member with a key gives its value |
| `Query.OrderClauses` | paginate.go:115-128 | `order` keeps the query and appends an `Order` on the key, then on the tie column when there is one, descending exactly when Reverse is set |
| `Query.ReverseClauses` | paginate.go:130-143 | `reverse` does the same, ascending exactly when Reverse is set |
| `Query.Forward` | paginate.go:147-160 | `forward` keeps the query and appends `Where key > cursor["f"]` ("<" when Reverse), then, when the cursor has "t", the `Or` on key equality and the tie with the same comparison |
| `Query.Backward` | paginate.go:162-175 | `backward` does the same with the comparisons swapped |
| `Query.Limited` | paginate.go:206-208 | the query is kept, and one clause, `Limit(n + 1)`, is appended exactly when the page size n is not 0 |
| `Query.Apply` | paginate.go:203-219 | the query and the limit come first and no other `Limit` follows; the last clause sorts by the tie column (or the key), descending exactly when Reverse differs from the backward flag; with a cursor or backward, the clause after the limit seeks past the cursor, and without either no condition is added |
| `Query.Scope` | paginate.go:203-219 | the query is kept and the last clause is an `Order`, descending exactly when Reverse differs from the scope's backward flag |
| `Query.OrderBy` | paginate.go:115-128 | the sorting is the key column, then the tie column when there is one, all in one direction |
| `Query.ReverseIsOrderFlipped` | paginate.go:130-143 | `reverse` is `order` with the configured direction flipped, clause for clause |
| `Query.Seek` | paginate.go:147-175 | the seek adds a `Where` on the key, and an `Or` on key equality and the tie exactly when the cursor has a tie value; the earlier clauses are kept |
| `Query.BackwardIsForwardFlipped` | paginate.go:162-175 | `backward` is `forward` with the configured direction flipped |
| `Query.Succ` | paginate.go:207 | page size + 1 on a 64-bit int, wrapping at the largest value |
| `Query.ApplyCases` | paginate.go:209-217 | by definition of `Apply`, case by case: the scope's three cases: backward seek with the opposite sorting, forward seek with the configured sorting, or sorting only |
| `Query.ApplyLimit` | paginate.go:206-208 | the query is kept; a limit of page size + 1 comes first when the page size is not 0, and no limit otherwise |
| `Query.ScopeLimit` | paginate.go:203-208 | the same for `Scope` applied to a request |
| `Query.ScopeBackward` | paginate.go:210-211 | a backward scope is a signed request with a cursor, and it seeks backward and sorts the opposite way |
| `Query.ScopeForward` | paginate.go:212-216 | an unsigned request with a cursor seeks forward and sorts the configured way |
| `Query.ScopeNoCursor` | paginate.go:215-216 | without a cursor only the limit and the configured sorting are added, and no condition is |
| `Query.ApplyNoCursor` | paginate.go:203-216 | a scope with no cursor that is not backward adds the limit and the configured sorting after the query, and no condition |
| `Query.ScopeNilRequest` | paginate.go:203-219 | a nil request adds the configured sorting only |
| `Query.SeekMeaning` | paginate.go:145 | a row passes the seek condition exactly when its (key, tie) comes strictly after the cursor's in the given sorting |
| `Query.ForwardBackwardMeaning` | paginate.go:147-175 | `forward` selects exactly the rows after the cursor in the configured sorting, and `backward` exactly those before it |
| `Query.SeekWithoutTie` | paginate.go:150-157 | without a tie value the condition compares the key alone |
| `Page.Reversed` | paginate.go:95-104 | the reversal has the same length, and element i is element n-1-i of the input |
| `Page.ReversedTwice` | paginate.go:95-104 | reversing twice gives the input back |
| `Page.ReversedPermutation` | paginate.go:95-104 | reversing loses and adds no row |
| `Page.Kept` | paginate.go:83-94 | a page that trims keeps all but one row; any other keeps all rows |
| `Page.PageRows` | paginate.go:90-104 | the page has `Kept` rows |
| `Page.PageOf` | paginate.go:76-94 | the response echoes the request's token, and its page size is the number of rows kept |
| `Page.ReversePrefix` | paginate.go:95-104 | the swap loop reverses the first n elements in place and leaves the others alone |
| `Page.PaginateSlice` | paginate.go:76-104 | on a non-empty list the array's first `Kept` elements become the page `PageRows`, the elements after them are unchanged, and the response is `PageOf` |
| `Page.Describe` | paginate.go:76-94 | the response built field by field equals the specification `PageOf`, and the number kept is `Kept` |
| `Page.Paginate` | paginate.go:63-106 | nil input, a nil request, a non-list or an empty list pass through with no response; otherwise the result is the first `Kept` rows of the same array, in page order, with response `PageOf`, and the probe row is untouched |
| `Page.TrimmingRule` | paginate.go:83-94 | exactly the probe row, the last fetched, is dropped when trimming and nothing otherwise; the response page size is the page's length; an untrimmed page has no tokens |
| `Page.TokenPlacement` | paginate.go:83-91 | when a page trims it keeps all rows but the probe. A forward page ends with row n-2 fetched, its next token is that row's cursor and it has no previous token. A backward page starts with row n-2, its previous token is "-" and that row's cursor and it has no next token |
| `Page.OneToken` | paginate.go:83-91 | a page that trims, with a writable boundary row, carries exactly one non-empty token |
| `Page.BackwardReversal` | paginate.go:95-104 | a backward page holds the kept rows reversed, as a permutation, and reversing it gives them back |
| `Page.ForwardInOrder` | paginate.go:93-105 | a forward page holds the kept rows in the order fetched |
| `Traversal.ForwardFrom` | paginate.go:203-219 | a request whose token is a row's unsigned token is not reversed, and its scope seeks forward from that row's read-back cursor in the configured sorting |
| `Traversal.BackwardFrom` | paginate.go:203-219 | a request whose token is "-" and a row's token is reversed, and its scope seeks backward from that row's read-back cursor, sorted the opposite way |
| `Traversal.NextPageSeeksForward` | paginate.go:85-86 | echoing a trimmed forward page's next token is a forward request that seeks past the cursor of row n-2, the last row shown, in the configured sorting |
| `Traversal.PrevPageSeeksBackward` | paginate.go:87-88 | echoing a trimmed backward page's previous token is a backward request that seeks before the cursor of row n-2, the first row shown, sorted the opposite way |
| `Tags.SpaceEnd` | crud/crud.go:66 | every character from the start of the run to its end is a `\s` character, and the run ends at a non-space or at the end |
| `Tags.Split` | crud/crud.go:86-87 | a tag gives at least one piece, so its first option always exists |
| `Tags.SplitIsTrimmedCut` | crud/crud.go:66 | the splitter equals cutting the tag at every `;` and `,` and removing the `\s` characters on both sides of each separator |
| `Tags.SplitCount` | crud/crud.go:66 | a tag splits into one piece more than it has `;` and `,` characters |
| `Tags.SplitPieces` | crud/crud.go:66 | no piece holds a separator; no piece but the last ends with a space; no piece but the first starts with one |
| `Tags.SplitNoSeparator` | crud/crud.go:86 | a tag without separators is one piece, unchanged |
| `Tags.SplitJoined` | crud/crud.go:86 | three words without spaces or separators, joined by ";", split back into those three words |
| `Tags.ApplyKeyOptions` | crud/crud.go:90-96 | Reverse is set when "reverse" is among the options, and IsTime when "isTime" is; nothing else changes |
| `Tags.AppendField` | crud/crud.go:78-101 | one more field changes the last key only when it is tagged "key", the last tie-break only when it is tagged "tieBreak", and sets the reverse flag only when it is a key field asking for it |
| `Tags.PartialStep` | crud/crud.go:78-101 | each field updates the last key, the last tie-break and the reverse flag as the loop does |
| `Tags.Resolved` | crud/crud.go:73-104 | the error is returned exactly when no field is tagged "key"; otherwise the key is the name of a field tagged "key", IsTime is set and Debug is copied |
| `Tags.ResolvePaginator` | crud/crud.go:73-104 | the loop result is `Resolved`: the last key field, the last tie-break field, Reverse if any key field asks for it, IsTime always and Debug copied, or the error when no field is the key |
| `Tags.LastKeyIsKey` | crud/crud.go:87-89 | there is a key exactly when some field is tagged "key", and it is the last such field |
| `Tags.LastTieIsTie` | crud/crud.go:98-99 | the tie-break is "" exactly when no field is tagged "tieBreak", and otherwise the last such field |
| `Tags.IgnoredField` | crud/crud.go:83-85 | a field with an empty tag, or with a first option other than "key" and "tieBreak", changes nothing |
| `Tags.TieOptionsIgnored` | crud/crud.go:98-99 | the options after "tieBreak" are ignored |
| `Tags.KeyTagOptions` | crud/crud_test.go:25 | the tag "key;isTime;reverse" has the options "key", "isTime" and "reverse" |
| `Tags.TieTagOption` | crud/crud_test.go:23 | the tag "tieBreak" has the one option "tieBreak" |
| `Tags.TestTagOptions` | crud/crud_test.go:23-25 | the test record's tags split into their options |
| `Tags.TestItemTags` | crud/crud_test.go:22-26 | the test record resolves to key AccessTime, tie-break UID, Reverse and IsTime |

## Left out

- Reflection: `Paginate` takes any value. The model distinguishes nil, a non-list and a slice.
  A `*[]T` argument is treated as the slice it refers to. Row fields are looked up by name in a map.
- Arrays passed by value are not modelled. `reflect` cannot slice or assign into such an
  array, so the source panics on it when the page is trimmed (`value.Slice`,
  paginate.go:90) or reversed (paginate.go:101-102). The model treats every list as a slice,
  or an array passed as `*[N]T`, whose storage is shared with the caller.
- `Page.Paginate`: the precondition `CanPaginate` requires that, when the page trims, rows
  contain at least two rows and row n-2 has the configured fields. The source indexes row
  n-2 without this check. With a negative page size and a single row, the index is -1 and
  the source panics. A missing field also makes the source panic. The panic is not modelled.
- The database: the clauses are not run. gorm combines `Where` and `Or` by putting the `Or`
  beside all earlier conditions, and `Query.Selects` gives the seek condition its meaning
  only on its own. The query options a caller of `Find` adds, and the clauses already in
  the query, are not interpreted.
- `Scope` returns a closure over the request. It is modelled as a function of the request
  and the query.
- `ToDBName` is the identity. The field name is used as the column name.
- JSON numbers: Go decodes every number into a `float64`. The model keeps an integer
  literal as its exact value, and any other number as its literal text (`Frac`). Integers
  beyond 2^53 lose precision in Go but not in the model. Writing a `Frac` value is not part
  of the round-trip lemmas.
- JSON arrays and nested objects inside a token are not modelled. Such a token is treated as
  undecodable.
- String contents are not checked for UTF-8 validity, so Go's replacement of invalid bytes is
  not modelled. Key order in the decoded map is irrelevant, because the map is unordered.
- Go-version-dependent escapes: the encoder writes the short forms `\b` and `\f`. Older Go
  versions write `\u0008` and `\u000c`; this does not change what is decoded.
- The `time` package: formatting and parsing are parameters. Only the property "parsing
  inverts formatting" is taken as a hypothesis, and only by `Paginator.TimeKeyRoundTrip`.
- The `hasOffset` field of `scope` is never set or read, and is not modelled.
- `crud.Basic.Find`: finding the fields (`reflections.FieldsDeep`) and reading their tags
  (`reflections.GetFieldTag`) are replaced by a given list of fields. Their errors are not
  modelled. Executing the query and the call to `Paginate` after the tag loop are not
  modelled here; the paginator they use is the one `Tags.ResolvePaginator` returns.
- `crud/crud.go` uses the generic `gorm.Paginator[A]` of `github.com/go-mixins/gorm/v3` over
  `gorm.io/gorm` (crud/crud.go:8-10), whose `Paginate` returns `[]A` (crud/crud.go:112-113).
  Its source is not part of this model. `paginate.go` is the non-generic paginator over
  `github.com/jinzhu/gorm` (paginate.go:10). That the generic one has the same fields and
  behaviour is an assumption of the `Tags` module, not something the model shows.
- The `reverse`/`isTime` options of a key field: `isTime` sets IsTime, which `Find` has
  already set. `Tags.ApplyKeyOptions` models the option loop as written.
- The other files of the repository (`backend.go`, `tx.go`, `log.go`, `errors.go`, the rest of
  `crud/crud.go`) are not part of this model.
