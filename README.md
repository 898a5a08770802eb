# FXQL statement engine, in Dafny

FXQL is a small language for publishing exchange rates. A request holds one
or more statements, each naming a currency pair and its BUY, SELL and CAP
values:

```
USD-GBP {
  BUY 100
  SELL 200
  CAP 93800
}
```

This project models the engine that turns a request into entries: the
`FxqlService` of `src/fxql.service.ts` (`parseFxql`, `splitStatements`,
`parseStatement`, `parseValues`, `isValidCurrency`) and the diagnostics of
`src/utils/parser.utils.ts` (`findPosition`, `getContextSnippet`,
`FxqlParseError`). The model follows the code branch by branch and proves
what the engine guarantees about its output and its errors.

Modules:

- `Results`: `Option` and `Result`.
- `JsStrings`: the JavaScript string built-ins the engine relies on,
  written out: the `\s` whitespace set, `slice` with its index clamping,
  `indexOf`, `split` on a literal separator, `trim`, the global
  replacement of the escape `\n`, and decimal rendering of a number.
- `ParserUtils`: `findPosition` (1-based line and column of an offset),
  `getContextSnippet` (up to 20 characters either side, between
  ellipses) and the `FxqlParseError` record.
- `Splitter`: `splitStatements`. Input with the two-character escape `\n`
  anywhere is split at the escaped blank line and each piece trimmed.
  Other input is split with `/}\s*(?=\w+-\w+|$)/`, written as a
  recogniser proved equal to the expression. Each piece is unescaped and
  trimmed, and empty pieces are dropped.
- `StatementParser`: `parseStatement` and `parseValues`. The pair
  expression `^([A-Z]{3})-([A-Z]{3})\s*{` and the field expression
  `FIELD\s+(\d+(?:\.\d+)?)` are written as recognisers, with their
  leftmost-match search. `parseInt` and `parseFloat` are modelled on
  decimal text. The currency check, the value record with its computed
  property names, and the entry handed to the repository are modelled
  too. `ParseValues` is the field loop as a method, proved equal to the
  function `FieldValues`. `ParseStatement` is only the statement step of
  `ParseFxql`'s loop: a method because it calls `ParseValues`, proved
  equal to `StatementResult`, which carries the promises.
- `PairMaps`: the JavaScript `Map` that de-duplicates the entries, with
  its insertion-order semantics. `OrderedMap` is the value model with its
  lemmas. `PairMap` is a class whose `Set` and `ValueList` update and read
  it in place.
- `FxqlService`: `parseFxql`. `ParseFxql` is a method whose loop fills a
  `PairMap`. It is proved equal to the function `Parsed`, and the
  engine's promises are proved about `Parsed`.

Numbers are exact decimals `Number(mantissa, scale)` standing for
`mantissa / 10^scale`. The repository's `save` is a parameter
`Entry -> Option<string>`: `Some(message)` means the repository threw that
message. That path is the only one that reaches the "Error in statement N"
wrapping.

Behaviours of the code worth knowing:

- The second argument of `parseStatement` is the statement's 0-based
  ordinal in the request. A missing field is
  reported at the line and column of (offset of the field name, or the
  end of the statement) + ordinal, counted inside the statement. Its
  snippet is taken at the offset alone (`StatementParser.MissingFieldError`).
- A pair that appears twice keeps the value of its last statement, but
  sits in the output where it FIRST appeared. `Map.set` on an existing key
  does not move it (`FxqlService.DedupOrder`).
- No rule limits BUY or SELL to four decimal places. Every digit is kept
  (`StatementParser.FieldValueOutcome`).
- The "Invalid currency code" and "Invalid FIELD value" branches can never
  fire. The pair expression only captures valid codes. The field
  expression only captures unsigned decimal literals, so a negative CAP or
  a non-numeric value is reported as a missing field when it is the
  field name's only occurrence.
  (`StatementParser.CurrencyCheckNeverFails`,
  `StatementParser.StatementParseErrors`,
  `StatementParser.NonNumericFieldIsMissing`.)
- Input with the escape `\n` keeps empty statements. Only the
  real-newline branch filters them out
  (`Splitter.EscapedShapeKeepsEmptyStatements`).
- The `replace` of the escape `\n` in the real-newline branch never
  changes anything. That branch runs only on input without an escape, and
  a piece of such input holds none (`Splitter.NewlineShape`,
  `JsStrings.UnescapeIdentity`).

## Model

| member | source | states |
|---|---|---|
| JsStrings.IndexOf | src/fxql.service.ts:123-126 | `indexOf` is -1 exactly when the text does not occur; otherwise the text occurs at the result and at no earlier offset |
| JsStrings.SplitJoin | src/fxql.service.ts:50 | splitting on a literal separator loses nothing but the separators: the pieces joined back are the input, no piece holds the separator, the first cut is at the leftmost occurrence, and every piece but the last, with the separator put back, holds its first occurrence at its end (each cut is the first occurrence after the previous one) |
| JsStrings.SplitUnique | src/fxql.service.ts:50 | the clauses of `SplitJoin` determine the split: any pieces that join back to the input, are each cut at the first occurrence after the previous cut and leave no separator in the last piece are exactly `Split`'s |
| JsStrings.SplitLength | src/fxql.service.ts:50 | `split` gives one piece more than the non-overlapping occurrences it consumes, left to right (`CountSeparators`), and more than one piece exactly when the separator occurs |
| JsStrings.TrimShape | src/fxql.service.ts:50-54 | `trim` keeps a contiguous middle part and cuts whitespace only; the result neither starts nor ends with whitespace, and is empty exactly when the input is all whitespace |
| JsStrings.TrimIdempotent | src/fxql.service.ts:50-54 | trimming a trimmed statement changes nothing |
| JsStrings.UnescapeIdentity | src/fxql.service.ts:54 | replacing escapes in text that holds none leaves it unchanged |
| JsStrings.NatToStringRoundTrip | src/fxql.service.ts:40 | the statement number written into the message reads back as the number |
| JsStrings.NatToString | src/fxql.service.ts:40 | `${n}` is a non-empty string of digits, one digit exactly when n < 10, with no leading zero unless n is 0 |
| JsStrings.Slice | src/utils/parser.utils.ts:8 | `slice` with its index clamping; the text it keeps before an offset is stated by `ParserUtils.TextBefore` |
| JsStrings.Split | src/fxql.service.ts:50 | `split` on a literal separator; always at least one piece; `SplitJoin` and `SplitUnique` together pin every piece |
| JsStrings.Trim | src/fxql.service.ts:50-54 | `trim`; its meaning is stated by `TrimShape` and `TrimIdempotent` |
| JsStrings.Unescape | src/fxql.service.ts:54 | the global replacement of the escape `\n` by a newline; on text without escapes it is the identity (`UnescapeIdentity`) |
| ParserUtils.FindPosition | src/utils/parser.utils.ts:7-13 | the line is one more than the number of newlines before the offset; the column is one more than the length of the last line before it; both are at least 1 |
| ParserUtils.FindPositionEdges | src/utils/parser.utils.ts:7-13 | offset 0 is line 1 column 1; offsets past the end read as the end; negative offsets count back from the end as `slice` does |
| ParserUtils.ContextSnippet | src/utils/parser.utils.ts:15-20 | every snippet starts and ends with `...` |
| ParserUtils.ContextSnippetWindow | src/utils/parser.utils.ts:15-20 | between the ellipses is the input window from offset-20 to offset+20, clipped to the input; at most 40 characters; empty only for empty input or an offset 20 or more past the end |
| Splitter.DelimiterEndMatches | src/fxql.service.ts:53 | the delimiter recogniser accepts at a position, with a given end, exactly when `}\s*(?=\w+-\w+\|$)` matches there with that end |
| Splitter.BraceSplit | src/fxql.service.ts:52-53 | `split` with `/}\s*(?=\w+-\w+\|$)/`: a scan that cuts at each match and resumes after it; always at least one piece; where it cuts is stated by `BraceSplitExact` |
| Splitter.CutSpans | src/fxql.service.ts:52-53 | for any table of matches, the pieces of the scan are the texts of spans that tile the input in order, the first starting where the scan started and the last ending at the end of the input |
| Splitter.CutGaps | src/fxql.service.ts:53 | between two neighbouring spans lies one match of the table, from the end of the one to the start of the next |
| Splitter.CutOnlyAtMatches | src/fxql.service.ts:53 | no offset inside a span, from where the scan started on, holds a match of the table |
| Splitter.BraceSplitExact | src/fxql.service.ts:52-53 | the pieces of the real-newline split are the texts of spans from offset 0 to the end of the input; the gap between two neighbouring spans is one match of `}\s*(?=\w+-\w+\|$)`, and no match begins inside a span |
| Splitter.BraceSplitKeepsAbsence | src/fxql.service.ts:51-54 | a piece of the brace split holds only what the input holds |
| Splitter.DropEmpty | src/fxql.service.ts:55 | `filter(Boolean)`: the statements kept are the non-empty ones, and there are no more of them than went in |
| Splitter.DropEmptyAppend | src/fxql.service.ts:55 | the filter keeps the order: filtering a concatenation concatenates the filtered halves |
| Splitter.DropEmptySingle | src/fxql.service.ts:55 | a single statement is kept exactly when it is non-empty |
| Splitter.SplitStatements | src/fxql.service.ts:48-57 | `splitStatements` itself; its two shapes are stated by `EscapedShape` and `NewlineShape` |
| Splitter.EscapedShape | src/fxql.service.ts:49-50 | with an escape in the input there is one statement per piece between escaped blank lines, each the trimmed piece, and the pieces rejoined are the input |
| Splitter.NewlineShape | src/fxql.service.ts:51-56 | without an escape the statements are the trimmed brace-split pieces with empties dropped; none is empty or starts or ends with whitespace |
| Splitter.EscapedShapeKeepsEmptyStatements | src/fxql.service.ts:49-50 | the escaped branch does not filter: an escaped blank line alone gives two empty statements |
| StatementParser.MatchPair | src/fxql.service.ts:64-65 | the pair expression as a recogniser; what it matches and captures is stated by `MatchPairIff` |
| StatementParser.IsValidCurrency | src/fxql.service.ts:171-173 | `/^[A-Z]{3}$/`: exactly three capital letters |
| StatementParser.MatchPairIff | src/fxql.service.ts:64-65 | the pair recogniser matches exactly the statements that open with three capitals, `-`, three capitals, whitespace and `{`, capturing the two codes at the head |
| StatementParser.CurrencyCheckNeverFails | src/fxql.service.ts:77-92 | after a match both captured codes pass `isValidCurrency`, so the invalid-code error is unreachable |
| StatementParser.MalformedPairsRejected | src/fxql.service.ts:64-75 | a two-letter code, a four-letter code or lower-case letters never match the pair expression |
| StatementParser.FieldMatchAt | src/fxql.service.ts:119-120 | the field expression tried at one offset; `FieldMatchAtIff` states exactly when it matches and what it captures |
| StatementParser.FieldMatchAtIff | src/fxql.service.ts:119-120 | the field expression matches at an offset and captures a literal exactly when the name occurs there, at least one whitespace character follows, and the literal is a decimal literal after the whitespace that the greedy `\d+` and the optional fraction cannot extend |
| StatementParser.ShapeIsFieldMatch | src/fxql.service.ts:119-120 | a name, whitespace and a maximal decimal literal at an offset are matched there, with that literal captured |
| StatementParser.FieldMatchBuyExample | src/fxql.service.ts:119-120 | `BUY 0.85` captures `0.85`, fraction included |
| StatementParser.FieldMatchCapExample | src/fxql.service.ts:119-120 | `CAP  93800` captures `93800`, every digit |
| StatementParser.FindField | src/fxql.service.ts:119-120 | `statement.match` of the field expression: the leftmost match (`FindFieldFromLeftmost`) |
| StatementParser.FindFieldFromLeftmost | src/fxql.service.ts:119-120 | the field search returns the leftmost position where the field expression matches, and nothing only when it matches nowhere |
| StatementParser.FieldLiteralIsNumeric | src/fxql.service.ts:119-120 | what the field expression captures is digits, optionally followed by a dot and more digits |
| StatementParser.NoDigitNoMatch | src/fxql.service.ts:119-120 | a field name followed (after whitespace) by anything but a digit does not match there |
| StatementParser.ParseInt | src/fxql.service.ts:141 | `parseInt(text, 10)` on decimal text: optional whitespace and sign, the leading digits, NaN when there are none; its value on a captured literal is stated by `ParseNumericLiteral` |
| StatementParser.ParseFloat | src/fxql.service.ts:141 | `parseFloat` on decimal text without exponent, as an exact decimal; its value on a captured literal is stated by `ParseNumericLiteral` |
| StatementParser.ParseNumericLiteral | src/fxql.service.ts:140-141 | on a captured literal `parseInt` gives the integer digits' value and `parseFloat` the exact decimal of all its digits; neither is NaN nor negative |
| StatementParser.ValueKey | src/fxql.service.ts:157-165 | the capitalised field name plus `Price` or `Amount` is `BuyPrice`, `SellPrice` and `CapAmount` for the three fields |
| StatementParser.MissingFieldIndex | src/fxql.service.ts:123-126 | the offset of a missing field is the first occurrence of its name, or the length of the statement when the name does not occur |
| StatementParser.MissingFieldError | src/fxql.service.ts:122-138 | "Missing or invalid FIELD value" at the position of that offset plus the ordinal, with the snippet at the offset; when it is the result is stated by `FieldValueOutcome` and `FieldValuesOrder` |
| StatementParser.InvalidFieldError | src/fxql.service.ts:143-154 | "Invalid FIELD value: literal" at the literal's offset plus the ordinal; never produced (`FieldValueOutcome`) |
| StatementParser.FieldValue | src/fxql.service.ts:118-155 | one field: match, parse, check; its outcome is stated by `FieldValueOutcome` |
| StatementParser.FieldValueOutcome | src/fxql.service.ts:119-155 | a field succeeds exactly when its expression matches and otherwise fails with the missing-field error; CAP keeps the integer digits, BUY and SELL keep every decimal |
| StatementParser.NonNumericFieldIsMissing | src/fxql.service.ts:122-138 | when the field name occurs exactly once and is followed, after whitespace, by a sign or letter (`CAP -10000`, `SELL abc`), the field fails as "Missing or invalid FIELD value" at the position of its name plus the ordinal, snippet at its name |
| StatementParser.FieldValues | src/fxql.service.ts:114-169 | successful values carry exactly the keys `BuyPrice`, `SellPrice`, `CapAmount` |
| StatementParser.FieldValuesOrder | src/fxql.service.ts:115-138 | values exist exactly when all three fields match; otherwise the error is that of the first missing field in the order BUY, SELL, CAP |
| StatementParser.ValuesFromFields | src/fxql.service.ts:118-166 | the field loop over BUY, SELL, CAP computes `FieldValues` |
| StatementParser.ParseValues | src/fxql.service.ts:114-169 | the loop filling the values record returns `FieldValues` |
| StatementParser.PairFormatFailure | src/fxql.service.ts:64-75 | a statement fails with "Invalid currency pair format" at line 1 column 1 with the snippet at 0 exactly when it does not open with a pair |
| StatementParser.StatementParseErrors | src/fxql.service.ts:63-111 | every parse error is the pair-format error or a missing BUY, SELL or CAP; a field error after a matched pair is passed on unchanged |
| StatementParser.StatementEntry | src/fxql.service.ts:94-105 | an entry exists only when the pair and all three fields match and the repository accepts it; it carries the head's codes, both valid, and the field values, CAP whole, none negative; once all match, any failure is a bad request |
| StatementParser.StatementAccepted | src/fxql.service.ts:94-110 | once the pair and all three fields match, the entry is built from the head's two codes and the BUY, SELL and CAP values and handed to `save`; the result is that entry when `save` accepts it, and a bad request carrying `save`'s own message when it does not |
| StatementParser.StatementResult | src/fxql.service.ts:59-112 | `parseStatement` as a function of the statement, its ordinal and the repository's `save`; what it promises is stated by `PairFormatFailure`, `StatementParseErrors`, `StatementEntry` and `StatementAccepted` |
| PairMaps.Put | src/fxql.service.ts:34 | `Map.set`: keeps the map well formed; a new key is appended, an existing key keeps its place |
| PairMaps.Values | src/fxql.service.ts:45 | `values()` lists one value per key, each the value stored under the key at that position |
| PairMaps.PutAll | src/fxql.service.ts:26-34 | a map built by `set` calls has distinct keys, exactly those of its entries |
| PairMaps.PutAllHas | src/fxql.service.ts:34 | the map holds a key exactly when some pair set it |
| PairMaps.PutAllLastWins | src/fxql.service.ts:34 | a key holds the value of the last pair that set it |
| PairMaps.PutAllValue | src/fxql.service.ts:34 | every stored value was set by the last pair with its key |
| PairMaps.PutAllOrder | src/fxql.service.ts:34 | keys are ordered by where each was first set |
| PairMaps.PutAllDistinctKeys | src/fxql.service.ts:34 | with no key set twice the keys come out in the order of the pairs |
| PairMaps.PutAllDistinct | src/fxql.service.ts:34-45 | with no key set twice keys and values come out exactly as the pairs went in |
| PairMaps.PairMap.constructor | src/fxql.service.ts:26 | `new Map()` is empty and well formed |
| PairMaps.PairMap.Set | src/fxql.service.ts:34 | `set` keeps the map well formed and changes it as `Put`: a new key is appended, an existing key keeps its place and takes the new value |
| PairMaps.PairMap.ValueList | src/fxql.service.ts:45 | the values are read out in key order, as `Values` |
| FxqlService.StatementError | src/fxql.service.ts:35-42 | a parse error passes unchanged; any other error becomes "Error in statement N: message" with N the 1-based statement number in decimal, without leading zeros |
| FxqlService.ParseAll | src/fxql.service.ts:28-43 | when every statement parses there is one entry per statement |
| FxqlService.ParseAllStops | src/fxql.service.ts:35-42 | once a statement fails, later statements change nothing |
| FxqlService.ParseAllSuccess | src/fxql.service.ts:28-43 | the loop succeeds exactly when every statement parses with its ordinal, and then the entries are those of the statements in order |
| FxqlService.ParseAllFirstFailure | src/fxql.service.ts:28-43 | a failing loop reports the wrapped error of the first failing statement, all before it having parsed |
| FxqlService.PairKey | src/fxql.service.ts:33 | the key `SOURCE-DESTINATION`; what it identifies is stated by `SamePairKey` |
| FxqlService.SamePairKey | src/fxql.service.ts:33 | entries with three-letter source codes share a key exactly when they have the same source and destination codes |
| FxqlService.CollectStep | src/fxql.service.ts:33-34 | storing one more entry is one `set` under its pair key |
| FxqlService.Dedup | src/fxql.service.ts:26-45 | the entries `set` in the map and read back with `values()`; stated by the `Dedup*` lemmas |
| FxqlService.DedupLast | src/fxql.service.ts:26-45 | each output entry is the last entry written for its pair |
| FxqlService.DedupDistinct | src/fxql.service.ts:26-45 | no two output entries share a pair |
| FxqlService.DedupComplete | src/fxql.service.ts:26-45 | the last entry for every pair is in the output |
| FxqlService.DedupOrder | src/fxql.service.ts:26-45 | output pairs are ordered by their first appearance in the request |
| FxqlService.DedupNoRepeats | src/fxql.service.ts:26-45 | without repeated pairs the output is the entries as parsed |
| FxqlService.Parsed | src/fxql.service.ts:15-46 | `parseFxql` as a function of the decoded request and `save`; stated by `LimitRule` and `ParsedOutcome` |
| FxqlService.LimitMessageText | src/fxql.service.ts:20-23 | the limit error's message is exactly "Maximum 1000 currency pairs per request allowed" |
| FxqlService.LimitRule | src/fxql.service.ts:18-24 | the request fails with "Maximum 1000 currency pairs per request allowed" exactly when it splits into more than 1000 statements |
| FxqlService.ParseAllOutcome | src/fxql.service.ts:28-43 | with any statement parser the loop succeeds exactly when every statement parses with its ordinal, and then yields their entries in order; otherwise it fails with the wrapped error of the first failing statement, all before it having parsed |
| FxqlService.ParsedOutcome | src/fxql.service.ts:15-46 | within the limit the request succeeds exactly when every statement parses (`parseStatement` with its ordinal and the repository, `Parsing(save)`), yielding the de-duplicated entries in statement order; otherwise it fails with the first failing statement's wrapped error |
| FxqlService.ParseFxql | src/fxql.service.ts:15-46 | the method (split, limit, loop filling the map, values) returns `Parsed` |

## Left out

- HTML entity decoding (`he.decode`) is not modelled: the request is taken as already decoded.
- The repository is reduced to the outcome of `save`. Generated columns (id, `createdAt`) and `delete entry.createdAt` are not modelled. An entry is its pair and its three values.
- The service is asynchronous. The model runs in sequence, which is the order the `await`s impose.
- The HTTP controller, middleware, configuration, migrations and the entity mapping are outside the engine and not modelled.
- Numbers are exact decimals, not IEEE doubles. Rounding of long BUY/SELL literals is not modelled, and neither are the exponent, `Infinity` and hexadecimal forms of `parseInt`/`parseFloat`.
- Strings are sequences of characters rather than UTF-16 code units. Whitespace is the set `\s` matches.
- The regular expressions are written as recognisers for the patterns the engine uses, not as a general regular-expression engine.
- ContextSnippetWindow: states the snippet window only for offsets 0 or more, the only ones the engine passes. `ContextSnippet` itself accepts any offset.
- PairMaps.PutAll: its own contract states only that the map is well formed. What it holds is stated by the `PutAll*` lemmas.
