# Medicine CSV processing, modelled in Dafny

This project models the two functions at the heart of `process_medicines.js`:

- `parseCSV`, which turns the lines of a medicine CSV export into
  standardized medicine records:
  - the header line is skipped;
  - blank lines are skipped;
  - every other line is split on commas outside double quotes, and each
    field is trimmed;
  - fields are mapped by position, with defaults;
  - a price is extracted from the package-info text;
  - a record is kept only when it has at least eight fields and a name of
    two characters or more.
- `searchMedicines`, the search function that the script writes into the
  generated database file:
  - the query is lower-cased and trimmed, and a term shorter than two
    characters finds nothing;
  - records are scanned in order, and the scan stops as soon as `limit`
    matches are collected;
  - each match is scored 3, 2 or 1;
  - the matches are stably sorted by descending score;
  - the result is sliced to `limit`.

Modules, one per file:

- `Wrappers` (`wrappers.dfy`): `Option`.
- `Text` (`text.dfy`): JavaScript's `trim`, `toLowerCase` on ASCII letters,
  `startsWith` and `includes`.
- `Tokenizer` (`tokenizer.dfy`): the quote-aware character loop of
  `parseCSV`, and its properties: field count, clean fields, and the
  quoted-field round trip.
- `Price` (`price.dfy`): the price pattern, the first-comma `replace`,
  `parseFloat` and the `price || 100` fallback.
- `Parser` (`parser.dfy`): the record mapping and the line loop of
  `parseCSV`.
- `Search` (`search.dfy`): `searchMedicines` and its stable sort.

The three loops of the source, the line loop and the character loop of
`parseCSV` and the early-exit scan loop of `searchMedicines`, are modelled
as methods with loop invariants. Each method is proved against a
left-recursive specification function over the processed prefix:

- `Parser.ParseCsv` against `Records`;
- `Tokenizer.TokenizeLine` against `Fields`;
- `Search.SearchMedicines` against `SearchResult`.

The properties are lemmas about those functions.

The regular expression literal in the source is `à§³`. That is the three
characters U+00E0, U+00A7 and U+00B3, which are the UTF-8 bytes of the taka
sign U+09F3 read back as Latin-1. The model follows the code. So text
written with the taka sign itself does not match (`Price.TakaSignFallsBack`)
and falls back to a price of 100. Text written with the three-character
marker does match (`Price.PriceExample`). The same holds for thousands
separators: the code's `replace(',', '')` drops only the first comma, and
the model does the same. As a result, `1,234,567` reads as 1234
(`Price.SecondCommaStopsParse`).

## Model

| member | source | states |
|---|---|---|
| Text.Lower | process_medicines.js:59 | `toLowerCase` keeps the length; its per-character meaning is in `Text.LowerSpec` |
| Text.Trim | process_medicines.js:26 | the result of `trim()` has no white space at either end and is no longer than its input |
| Text.TrimSpec | process_medicines.js:26 | `trim()` returns the slice between a white-space prefix and a white-space suffix, so every character it returns occurs in the input |
| Text.TrimAt | process_medicines.js:32 | names the position of that slice, with only white space before and after it |
| Text.TrimOfTrimmed | process_medicines.js:26 | trimming a string with no white space at its ends returns it unchanged |
| Text.TrimEmptyIff | process_medicines.js:14 | `trim() === ''` holds exactly for the strings made only of white space |
| Text.LowerSpec | process_medicines.js:59 | `toLowerCase` maps each letter A-Z to its lower-case partner, keeps every other character and leaves no upper-case letter |
| Text.LowerIdempotent | process_medicines.js:93 | lower-casing twice is the same as lower-casing once |
| Text.StartsWith | process_medicines.js:105 | `s.startsWith(t)`: `t` is a prefix of `s` (a definition, used by `Search.Score`) |
| Text.Contains | process_medicines.js:100-101 | `s.includes(t)`: `t` occurs in `s` at some position (a definition, used by `Search.IsMatch`) |
| Text.StartsWithContains | process_medicines.js:105 | a name that starts with the term also contains it, so a score-3 record is always a name match |
| Tokenizer.Step | process_medicines.js:22-30 | one turn of the character loop: `"` flips the quote flag and is dropped, `,` outside quotes closes the trimmed field, any other character is appended (a definition; its effect is stated in `Tokenizer.RunFacts`) |
| Tokenizer.Fields | process_medicines.js:16-32 | the fields of a line, the closed fields followed by the trimmed rest of the buffer, of which there is always at least one |
| Tokenizer.TokenizeLine | process_medicines.js:16-32 | the character loop returns exactly `Fields(line)`, the closed fields followed by the trimmed rest of the buffer |
| Tokenizer.RunFacts | process_medicines.js:21-31 | after any prefix of the line: `inQuotes` equals the parity of the quotes read; one field has been closed per comma read outside quotes; no quote character is in any field or in the buffer |
| Tokenizer.FieldCount | process_medicines.js:16-32 | a line gives one field more than it has commas outside quoted segments |
| Tokenizer.FieldsClean | process_medicines.js:26-32 | every field is trimmed and holds no `"` |
| Tokenizer.RunInsideQuotes | process_medicines.js:23-29 | inside quotes every character except `"`, commas included, is added to the current field |
| Tokenizer.RunAppend | process_medicines.js:21-31 | scanning `a + b` is the same as scanning `a` and then `b` |
| Tokenizer.QuotedRoundTrip | process_medicines.js:20-32 | clean fields, each written in quotes and joined by commas, are read back unchanged even when they contain commas |
| Price.SkipSpace | process_medicines.js:47 | the greedy `\s*` stops at the first character that is not white space |
| Price.PriceRun | process_medicines.js:47 | the greedy `[0-9,.]+` stops at the first character outside the class |
| Price.MatchAt | process_medicines.js:47 | a match at a position needs the marker there, and its capture is a non-empty run of `[0-9,.]` characters |
| Price.MarkerAtIff | process_medicines.js:47 | comparing the marker character by character is the same as comparing it as a substring |
| Price.FindFrom | process_medicines.js:47 | the search for a match from a position on yields a non-empty run of price characters; its leftmost-match meaning is in `Price.FindFromLeftmost` |
| Price.FindFromLeftmost | process_medicines.js:47 | `match` finds nothing exactly when the pattern matches at no position; otherwise it returns the capture at a position before which the pattern matches nowhere |
| Price.FindFromSkip | process_medicines.js:47 | positions where the pattern does not match do not change the leftmost match |
| Price.PriceMatch | process_medicines.js:47 | a capture of `packageInfo.match` is a non-empty run of price characters |
| Price.NoMarkerNoMatch | process_medicines.js:47 | text without U+00E0 never matches |
| Price.MatchAtCaptures | process_medicines.js:47 | the marker, white space, then a maximal run of price characters: the match at the marker captures that run |
| Price.FirstMarkerMatch | process_medicines.js:47 | for text `pre + marker + spaces + g + post`, with no U+00E0 in `pre`, a non-empty price run `g` and `post` not starting with a price character, the capture is `g` |
| Price.RemoveFirstComma | process_medicines.js:50 | `replace(',', '')` leaves a comma-free string unchanged and otherwise removes exactly one character |
| Price.RemoveFirstCommaSplits | process_medicines.js:50 | the character removed is the first comma, and the text on each side of it is kept |
| Price.DigitRun | process_medicines.js:50 | the digit run that `parseFloat` reads stops at the first non-digit |
| Price.ParseFloat | process_medicines.js:50 | on text over `[0-9,.]`, `parseFloat` gives NaN exactly when the text starts with neither a digit nor a point followed by a digit; otherwise the value is non-negative |
| Price.ParseFloatWhole | process_medicines.js:50 | digits followed by neither a digit nor a point read as the integer they spell |
| Price.ParseFloatDecimal | process_medicines.js:50 | whole digits, a point and fraction digits read as `w + f / 10^|f|`; anything after them is ignored |
| Price.BoxPrice | process_medicines.js:46-62 | the box price is always positive; it is 100 when nothing matches, and when the capture, with its first comma removed, reads as NaN or as 0 |
| Price.BoxPriceFrom | process_medicines.js:48-62 | a capture that reads as a non-zero number gives exactly that box price |
| Price.ExampleReading | process_medicines.js:50 | `1,234.50` loses its comma and reads as 1234.5 |
| Price.PriceExample | process_medicines.js:46-62 | the marker, a space and `1,234.50`, with text around them that has no U+00E0 before the marker and no price character right after the number, gives the box price 1234.5 |
| Price.TakaSignFallsBack | process_medicines.js:47 | `Price: ৳ 1,234.50 (strip)`, written with U+09F3, does not match, so the box price is 100 |
| Price.ZeroPriceFallsBack | process_medicines.js:62 | the marker followed by `0`, with text around it as in `Price.PriceExample`, gives the box price 100, since 0 is falsy in `price \|\| 100` |
| Price.SecondCommaStopsParse | process_medicines.js:50 | only the first comma goes, so `1,234,567` reads as 1234 |
| Parser.FieldOr | process_medicines.js:37-43 | `values[k] \|\| d` is the field when it exists and is non-empty, and the default otherwise |
| Parser.BuildRecord | process_medicines.js:35-63 | the record takes its name from field 1, generic from 5, strength from 6 and manufacturer from 7; its type is `tablet` for an empty field 4 and field 4 lower-cased otherwise, with no upper-case letter; `stripsPerBox` and `piecesPerStrip` are 10; its box price is positive, is the price read from field 8 when there is one, and is 100 for an eight-field row |
| Parser.BuildRecordFields | process_medicines.js:54-63 | the whole record of any row of eight or more fields, with the type and box price defaults |
| Parser.PriceDefault | process_medicines.js:43 | a missing package-info field, or one the pattern does not match, gives the box price 100 |
| Parser.RowRecord | process_medicines.js:14-67 | a blank line gives no record; a line with fewer than eight fields gives none; any record given is well formed (name of two or more characters, trimmed and quote-free; 10 strips and 10 pieces; positive price; lower-case type) |
| Parser.RowRecordOfFields | process_medicines.js:34-67 | the record of a non-blank line in terms of its fields: none below eight fields, otherwise the built record when its name is longer than one character |
| Parser.RowRecordFromFields | process_medicines.js:34-67 | a non-blank line with eight or more fields and a name of two or more characters gives the record built from those fields |
| Parser.Records | process_medicines.js:13-69 | the records of the data lines, each line's record (if any) in line order (a definition; its bound and well-formedness are in `Parser.RecordsWellFormed`, its membership in `Parser.RecordsMembership`) |
| Parser.RecordsWellFormed | process_medicines.js:13-69 | there is at most one record per data line, and every record is well formed |
| Parser.ParseCsv | process_medicines.js:8-72 | the line loop returns `Records` of the lines after the header (nothing for no lines), which is at most one record per data line, each well formed |
| Parser.RecordsNext | process_medicines.js:13-69 | one more data line adds its record, if it has one, at the end |
| Parser.RecordsAppend | process_medicines.js:13-69 | the records of two runs of lines are the records of each run, in order |
| Parser.CollectAppend | process_medicines.js:13-69 | the same for any per-line mapping |
| Parser.SkippedLine | process_medicines.js:14 | a line that gives no record (blank, short or with a one-character name) leaves the output as if the line were absent |
| Parser.RecordsMembership | process_medicines.js:13-69 | a record is in the output exactly when some data line gives it |
| Parser.CollectMembership | process_medicines.js:13-69 | the same for any per-line mapping |
| Parser.HeaderIgnored | process_medicines.js:10-13 | the header line never changes the result |
| Parser.QuotedRow | process_medicines.js:20-44 | a line of eight or more quoted clean fields whose name has two or more characters gives the record built from exactly those fields |
| Parser.ExampleFieldsClean | process_medicines.js:26-32 | the fields of the worked example are clean |
| Parser.ExampleForm | process_medicines.js:59 | `Tablet` lower-cases to `tablet` |
| Parser.ExamplePrice | process_medicines.js:47-62 | `Box of 10` has no price, so the box price is 100 |
| Parser.ExampleRecord | process_medicines.js:35-63 | the example fields build the record named `Napa, Extra` with type `tablet`, 10 strips, 10 pieces and the price 100 |
| Search.SearchTerm | process_medicines.js:93 | `query.toLowerCase().trim()` has no white space at either end and is no longer than the query |
| Search.SearchTermLower | process_medicines.js:93 | the normalized term holds no upper-case letter |
| Search.IsMatch | process_medicines.js:100-103 | a record matches when its lower-cased name or its lower-cased generic contains the term (a definition, used by `Search.Matches`) |
| Search.Score | process_medicines.js:105 | the score is 3 exactly when the name starts with the term, 2 exactly when the name contains it but does not start with it, and 1 exactly when the name does not contain it |
| Search.Matches | process_medicines.js:98-107 | the matches in scan order: no more of them than records, each a name or generic match carrying its `Score` |
| Search.Take | process_medicines.js:98 | the first `n` matches (all of them when there are fewer) |
| Search.SliceTo | process_medicines.js:111 | `slice(0, end)` is a prefix of the length the end gives, with a negative end counting from the back |
| Search.WithScore | process_medicines.js:111 | the elements of a given score, in their order (a definition; its membership is in `Search.WithScoreMember`) |
| Search.WithScoreMember | process_medicines.js:111 | a record is in the group of score `v` exactly when it is in the sequence with score `v` |
| Search.WithScoreAppend | process_medicines.js:111 | the groups of a concatenation are the concatenated groups |
| Search.InsertByScore | process_medicines.js:111 | insertion adds exactly one element |
| Search.InsertPerm | process_medicines.js:111 | insertion adds exactly the new element to the multiset |
| Search.InsertSorted | process_medicines.js:111 | insertion keeps the sequence ordered by descending score |
| Search.InsertKeepsBound | process_medicines.js:111 | insertion keeps a lower bound on the scores |
| Search.SortedSnoc | process_medicines.js:111 | appending an element no higher than every other keeps the order |
| Search.InsertStable | process_medicines.js:111 | the inserted element goes after the elements of equal score already there |
| Search.SortByScore | process_medicines.js:111 | sorting keeps the length |
| Search.SortByScoreSpec | process_medicines.js:111 | `sort((a, b) => b.score - a.score)` returns a permutation of its input, ordered by descending score, in which the elements of each score keep their input order |
| Search.SameGroupsSameSorted | process_medicines.js:111 | two sequences ordered by descending score with the same groups are equal |
| Search.StableSortUnique | process_medicines.js:111 | any stable descending sort of the results is `SortByScore` of them, so the sort's outcome is determined |
| Search.SearchResult | process_medicines.js:92-112 | what `searchMedicines` returns: nothing for a short term, otherwise the first `limit` matches sorted by score (a definition; its properties are in `Search.SearchResultFacts` and `Search.ResultsStable`) |
| Search.SearchMedicines | process_medicines.js:92-112 | the scan, the sort and the slice return `SearchResult`: empty for a short term, otherwise a permutation of the first `limit` matches; never more than `limit` entries; ordered by descending score; each entry a match carrying its score |
| Search.SearchMedicinesDefault | process_medicines.js:92 | without a limit, at most 10 results |
| Search.MatchesSnoc | process_medicines.js:98-107 | one more record scanned adds its scored entry exactly when it matches |
| Search.MatchesAppend | process_medicines.js:98-108 | the matches of two runs of records are the matches of each, in order |
| Search.FirstMatches | process_medicines.js:98 | where the loop stops (at the end or once `limit` matches are collected), it holds exactly the first `limit` matches of the whole array |
| Search.SearchResultFacts | process_medicines.js:92-112 | every search result has at most `limit` entries, is ordered by descending score, is a permutation of the first `limit` matches, and each entry is a match carrying its score |
| Search.MatchesMembership | process_medicines.js:98-107 | a scored record is among the matches exactly when its medicine is in the array, its name or generic contains the term, and its score is `Score` |
| Search.ShortQueryFindsNothing | process_medicines.js:93-94 | a query whose lower-cased and trimmed form is shorter than two characters returns nothing |
| Search.ResultsStable | process_medicines.js:111 | within each score, the results keep the order in which the scan found them |
| Search.SearchResultIs | process_medicines.js:111 | any ordering by descending score that keeps each score's matches in scan order is the search result |
| Search.MatchesOfThree | process_medicines.js:98-107 | three matching records scanned in order give their three scored entries in that order |
| Search.GroupsOfThree | process_medicines.js:111 | moving a first element with a different score to the back keeps every group |
| Search.NapaTerm | process_medicines.js:93 | the query `napa` normalizes to itself |
| Search.ExampleScores | process_medicines.js:100-105 | `Napa` and `Napa Extra` score 3 for `napa`, and `Relief Napa` scores 2 |
| Search.RankingExample | process_medicines.js:92-112 | `Relief Napa`, `Napa`, `Napa Extra`, searched for `napa`, come back as `Napa`, `Napa Extra`, `Relief Napa`: ordered by score, with ties in scan order |
| Search.FirstMatchNotBest | process_medicines.js:98 | the early exit means the result is not a top-k by score: with limit 1, a generic-only match found first is returned ahead of a later record that scores 3 |

## Left out

- Reading the CSV file, writing `js/medicine-database.js` and the console messages (lines 5, 121, 123-124) are I/O. They are not modelled.
- The template that emits the generated file (lines 86-118) is not modelled. This covers `JSON.stringify` of the records and the `module.exports` guard. `searchMedicines` is modelled as a function of the record array instead.
- The `searchIndex` array (lines 78-83) is built by the source but used nowhere, so it is not modelled.
- `content.split('\n')` (line 9) is not modelled: `Parser.ParseCsv` takes the sequence of lines. A trailing `\r` from CRLF files is handled, because `trim` strips it from each field.
- The `headers` of line 10 are computed and never used.
- `Parser.ParseCsv` with no lines returns nothing. This case cannot occur in the source, where `split` always returns at least one element.
- The `id` (`parseInt(values[0]) || i`) and `type` (`values[2] || 'allopathic'`) fields of lines 36 and 38 are discarded before the standardized object is built. They are not modelled, and neither is `parseInt`.
- `toLowerCase` is modelled on the ASCII letters A-Z only. Other Unicode case mappings are not captured.
- JavaScript strings are sequences of UTF-16 code units, while here a `char` is a Unicode scalar value. Lengths differ for characters outside the Basic Multilingual Plane: a one-character name written with such a character has `length` 2 in the source.
- `parseFloat` is modelled as an exact decimal (a `real`) on the `[0-9,.]` alphabet that the capture guarantees. Double-precision rounding, overflow and underflow are not modelled, and neither are exponents, which cannot appear in a capture.
- `limit` is modelled as an integer. A non-integer, NaN or non-numeric `limit` is not modelled.
- `Array.prototype.sort` is modelled as a particular stable sort. `Search.StableSortUnique` shows that every stable sort by descending score gives the same result.
- The record object `{ ...med, score }` is modelled as a pair of the record and its score.
- Text.Lower: its contract states only the length. Its character-by-character meaning is stated in `Text.LowerSpec`, so that proofs which do not need it stay small.
- Text.Trim: its contract states trimmedness and a length bound. The slice it takes is stated in `Text.TrimSpec` and `Text.TrimAt`.
- Price.FindFrom: its contract states the shape of the capture. Its leftmost-match meaning is stated in `Price.FindFromLeftmost`.
- Parser.Records: it has no contract of its own. Its bound and well-formedness are stated in `Parser.RecordsWellFormed`, and its membership in `Parser.RecordsMembership`.
- Search.WithScore: it has no contract of its own. Its membership is stated in `Search.WithScoreMember`.
- Search.InsertByScore: its contract states the length. Its permutation, order and stability are stated in `Search.InsertPerm`, `Search.InsertSorted` and `Search.InsertStable`.
- Search.SortByScore: its contract states the length. Its permutation, order and stability are stated in `Search.SortByScoreSpec`.
