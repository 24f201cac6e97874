# Account-id ingestion of the ACCT_Id query app

The desktop app collects account identifiers (ACCT_Id values) from two
places and hands them to `run_ccb_query`, which the app imports from an
external module (a local fallback that only echoes the ids stands in when
that import fails):

- **free text** pasted into a text box, read by `parse_ids_from_text`. The
  text is trimmed and split on runs of commas and whitespace. Each token
  loses its surrounding whitespace and quote characters. Empty tokens are
  dropped and only the first occurrence of each id is kept.
- **a CSV file**, whose account column is found by `pick_acct_column` with
  the header normaliser `normalize_colname`. The cells of that column are
  stripped, blank cells are dropped and duplicates removed. The ids are then
  written one per line into the same text box. Pressing the query button
  parses that text again.

This project models that logic as pure Dafny functions and proves what it
promises:

- the parser returns distinct, non-empty, delimiter-free, quote-trimmed ids,
  in first-seen order, and is idempotent; distinct clean ids (non-empty, with
  no comma or whitespace and no quote at either end) separated by any mix of
  comma and whitespace runs come back as written;
- the split keeps every character: its pieces are exactly the text's
  maximal runs without a comma or whitespace, in order, plus an empty first
  or last piece when the text starts or ends with a comma or whitespace;
- the normaliser returns only lower-case letters and digits, and is
  idempotent;
- the resolver returns the right column, or none, under every iteration
  order of its preferred-name set;
- CSV ids survive the trip through the text box unchanged when no stripped
  cell holds a comma or inner whitespace or starts or ends with a quote; a
  cell `a b`, for instance, loads as one id but re-parses as two.

Modules, one file each:

| file | module | contents |
|---|---|---|
| `wrappers.dfy` | `Wrappers` | `Option` |
| `char_class.dfy` | `CharClass` | whitespace as Python's `str.isspace` sees it, the delimiter class `[,\s]`, quotes, ASCII letters and digits, ASCII lower-casing |
| `text.dfy` | `Text` | `str.strip`, `re.split(r"[,\s]+", …)`, `str.join`, and their laws |
| `unique.dfy` | `Unique` | first-seen deduplication with a `seen` set, and its laws |
| `id_parser.dfy` | `IdParser` | `parse_ids_from_text` |
| `column_resolver.dfy` | `ColumnResolver` | `normalize_colname`, `pick_acct_column` |
| `csv_ids.dfy` | `CsvIds` | the column clean-up of the CSV loader and the re-parse round trip |

`pick_acct_column` first iterates over a Python `set` literal. The order of
that loop depends on the interpreter's string-hash seed. So the model takes
the order as a parameter `order`, which must be some enumeration of the
four spellings (`IsHashOrder`). `AcceptablePick` is the relation that holds
for every such order.

## Model

| member | source | states |
|---|---|---|
| IdParser.ParseIds | acct_id_input_app.py:34-44 | blank (all-whitespace) text gives no ids; the ids are pairwise distinct; each is non-empty, holds no comma or whitespace, and neither starts nor ends with a quote |
| IdParser.ParseIdsFirstSeen | acct_id_input_app.py:38-43 | an id is returned exactly when some cleaned token equals it, and ids come in the order of their first occurrence among the cleaned tokens |
| IdParser.ParseIdsFromText | acct_id_input_app.py:34-44 | the function as written, with its early return for blank text, computes the parse |
| IdParser.CleanAndDedupe | acct_id_input_app.py:38-43 | the loop with its `seen` set and `out` list yields the first-seen deduplication of the non-empty cleaned tokens |
| IdParser.ParseLoopStep | acct_id_input_app.py:39-43 | one loop turn appends the cleaned token exactly when it is non-empty and not yet seen, and otherwise leaves the output alone |
| IdParser.CleanToken | acct_id_input_app.py:40 | a cleaned token never starts or ends with a quote character |
| IdParser.CleanTokenKeepsDelimFree | acct_id_input_app.py:40 | cleaning never introduces a comma or whitespace |
| IdParser.NonEmptyTokensClean | acct_id_input_app.py:40-41 | every kept token is non-empty and quote-trimmed, and is delimiter-free when the raw tokens were |
| IdParser.NonEmptyTokensMembers | acct_id_input_app.py:40-41 | a string is kept exactly when it is non-empty and is the cleaned form of some raw token |
| IdParser.RawTokens | acct_id_input_app.py:37 | the pieces of the split hold no comma or whitespace |
| IdParser.CandidateTokens | acct_id_input_app.py:35-41 | blank text yields no tokens; otherwise every token passed to the dedupe is a clean id |
| IdParser.InnerStripIsNoOp | acct_id_input_app.py:40 | the whitespace `strip()` of each token never changes it, because the split already removed all whitespace |
| IdParser.MismatchedQuotesAreStripped | acct_id_input_app.py:40 | `'abc"` cleans to `abc`: quotes are stripped as a character set, not as matched pairs |
| IdParser.CleanIdsAreKept | acct_id_input_app.py:40-41 | a list of clean ids passes the clean-and-filter step unchanged |
| IdParser.NonEmptyTokens | acct_id_input_app.py:39-41 | the cleaned raw tokens, in order, without those that clean to nothing; its meaning is stated by `NonEmptyTokensClean`, `NonEmptyTokensMembers` and `NonEmptyTokensSnoc` |
| IdParser.ParseJoinRoundTrip | acct_id_input_app.py:34-44 | distinct clean ids, joined by one repeated non-empty run of commas or whitespace and followed by any whitespace, parse back to exactly themselves |
| IdParser.ParseSurroundedJoin | acct_id_input_app.py:34-44 | distinct clean ids joined by one repeated delimiter run, with any runs of commas and whitespace before and after, parse back to exactly those ids |
| IdParser.ParseInterleaved | acct_id_input_app.py:34-44 | clean ids separated by any non-empty delimiter runs, a different run in each gap if need be, with delimiter runs before and after, parse to the ids with repeats dropped, and to exactly the ids when they are distinct |
| IdParser.InterleavedCandidates | acct_id_input_app.py:35-41 | such text yields exactly those ids, in order, as the cleaned non-empty tokens handed to the dedupe |
| IdParser.ParseMixedSeparators | acct_id_input_app.py:34-44 | `"a, b\nc"`, with a comma and a space in one gap and a newline in the other, parses to `a`, `b`, `c` |
| IdParser.DelimsOnly | acct_id_input_app.py:35-43 | text made of commas and whitespace alone, in any mix, parses to no ids, even when it is not blank |
| IdParser.NonEmptyTokensDropEdges | acct_id_input_app.py:41 | the empty first and last pieces a split leaves are dropped, and clean ids between them are kept as they are |
| IdParser.ParseIdsIdempotent | acct_id_input_app.py:34-44 | the parser's output, joined with `","` or with `"\n"`, parses back to itself |
| Text.Strip | acct_id_input_app.py:35-36 | the result has no dropped character at either end, and it is empty exactly when every character of the input is dropped |
| Text.StripIsSlice | acct_id_input_app.py:40 | the result is a contiguous slice of the input, and everything cut off either end is a dropped character |
| Text.StripKeepsAbsence | acct_id_input_app.py:40 | stripping never introduces a character that the input lacked |
| Text.StripPadded | acct_id_input_app.py:40 | a trimmed string with any runs of dropped characters added at each end strips back to itself |
| Text.StripFixedPoint | acct_id_input_app.py:40 | a string strips to itself exactly when it is already trimmed |
| Text.SplitFrom | acct_id_input_app.py:37 | the split yields at least one piece; no piece holds a delimiter; only the first and last piece can be empty, and the first is not when the input starts with a non-delimiter; `SplitCovers` and `SplitInterleave` pin the pieces down |
| Text.SplitOnDelimRuns | acct_id_input_app.py:37 | `re.split(r"[,\s]+", s)`: at least one piece, none holding a delimiter, only the first and last possibly empty |
| Text.SplitCovers | acct_id_input_app.py:37 | the split loses nothing: there are non-empty delimiter runs, one per gap, that put back between the pieces rebuild the text |
| Text.SplitInterleave | acct_id_input_app.py:37 | pieces of that shape, with any non-empty delimiter run in each gap, split back into exactly those pieces; with `SplitCovers` this makes the pieces the maximal delimiter-free runs of the text, in order |
| Text.SplitSurroundedInterleave | acct_id_input_app.py:37 | for non-empty delimiter-free tokens interleaved with delimiter runs, a delimiter run before or after adds exactly one empty piece at that end of the split |
| Text.JoinIsInterleave | acct_id_input_app.py:175 | `sep.join(ts)` is the interleaving of `ts` with `sep` in every gap |
| Text.Join | acct_id_input_app.py:175 | `sep.join(ts)`: the result starts with the first token and ends with the last when they are not empty |
| Text.SplitJoinRoundTrip | acct_id_input_app.py:37 | splitting inverts joining: non-empty delimiter-free tokens joined by a non-empty delimiter run split back into the same tokens |
| Text.SplitSurroundedJoin | acct_id_input_app.py:37 | a delimiter run before or after joined tokens adds exactly one empty piece at that end of the split, and the tokens come back unchanged between them |
| Unique.DedupeFrom | acct_id_input_app.py:38-43 | the output has no repeats and holds exactly the inputs not already in `seen` |
| Unique.Dedupe | acct_id_input_app.py:38-43 | the result has no repeats and holds exactly the elements of the input |
| Unique.DedupeFromFirstSeen | acct_id_input_app.py:38-43 | the output lists elements in the order of their first occurrence in the input |
| Unique.DedupeFromSnoc | acct_id_input_app.py:41-43 | appending one input appends it to the output exactly when it is new |
| Unique.DedupeFixedPoint | acct_id_input_app.py:38-43 | deduplication leaves a list unchanged exactly when it has no repeats |
| Unique.DedupeIdempotent | acct_id_input_app.py:38-43 | deduplicating twice is deduplicating once |
| CharClass.ToLowerAscii | acct_id_input_app.py:48 | an ASCII letter or digit lower-cases to a lower-case letter or digit; upper-case letters move up by 32 in code point; lower-case letters and digits stay |
| ColumnResolver.NormalizeColname | acct_id_input_app.py:46-48 | the normal form is no longer than the name; `NormalizeShape`, `NormalizeAppend` and `NormalizeAllAlnum` say which characters it keeps and how |
| ColumnResolver.NormalizeShape | acct_id_input_app.py:46-48 | the normal form holds only lower-case ASCII letters and digits, is no longer than the name, and is empty exactly when the name has no ASCII letter or digit |
| ColumnResolver.NormalizeAppend | acct_id_input_app.py:48 | normalising distributes over concatenation |
| ColumnResolver.NormalizeAllAlnum | acct_id_input_app.py:48 | a name made only of ASCII letters and digits keeps its length and is lower-cased character by character |
| ColumnResolver.NormalizeGlue | acct_id_input_app.py:48 | a separator holding no ASCII letter or digit vanishes from between two words |
| ColumnResolver.NormalizeFixedPoint | acct_id_input_app.py:46-48 | a name is its own normal form exactly when it holds only lower-case letters and digits |
| ColumnResolver.NormalizeIdempotent | acct_id_input_app.py:46-48 | normalising twice is normalising once |
| ColumnResolver.NormalizeExamples | acct_id_input_app.py:47 | `ACCT_Id` and `ACCT ID` both normalise to `acctid` |
| ColumnResolver.UnderscoredSpellingsNeverMatch | acct_id_input_app.py:52-57 | no normalised header equals `acct_id` or `account_id`, so only `acctid` and `accountid` of the preferred set can ever be found |
| ColumnResolver.NormalizedIndex | acct_id_input_app.py:53 | the header index, built left to right so that a later header overwrites an earlier one; `NormalizedIndexKeys` and `NormalizedIndexRightmost` state its keys and values |
| ColumnResolver.NormalizedIndexKeys | acct_id_input_app.py:53 | the header index has a key for every normalised header and for nothing else |
| ColumnResolver.NormalizedIndexRightmost | acct_id_input_app.py:53 | each key of the index maps to the rightmost header carrying that key: later headers overwrite earlier ones |
| ColumnResolver.FirstPass | acct_id_input_app.py:55-57 | finds nothing exactly when no spelling of the order is a key; otherwise returns the header of the first spelling in the order that is a key |
| ColumnResolver.SecondPass | acct_id_input_app.py:59-63 | finds nothing exactly when no normalised header contains both `acct` and `id`; otherwise returns the leftmost header that does |
| ColumnResolver.PickAcctColumn | acct_id_input_app.py:50-63 | a found column is one of the headers; nothing is found exactly when no header normalises to a preferred spelling and none contains both `acct` and `id`; the answer always satisfies `AcceptablePick` |
| ColumnResolver.AcceptablePick | acct_id_input_app.py:50-63 | what the resolver may return under some hash order: the rightmost header with a preferred key if there is one, else the leftmost header containing `acct` and `id`, else nothing |
| ColumnResolver.AcceptablePickUnique | acct_id_input_app.py:52-57 | unless both `acctid` and `accountid` occur as keys, there is only one acceptable answer |
| ColumnResolver.PickIgnoresOrderUnlessBothKeys | acct_id_input_app.py:52-57 | unless both `acctid` and `accountid` occur as keys, any two hash orders give the same column |
| ColumnResolver.PickSolePreferred | acct_id_input_app.py:52-57 | when exactly one header normalises to a preferred spelling, that header is returned under every hash order |
| ColumnResolver.AcceptablePickReachable | acct_id_input_app.py:50-63 | every acceptable answer is produced by some hash order, so the relation is no looser than the code |
| ColumnResolver.PickAcctIdFirst | acct_id_input_app.py:55-57 | with headers `ACCT_ID` and `AccountID`, an order yielding `acctid` first picks `ACCT_ID` |
| ColumnResolver.PickAccountIdFirst | acct_id_input_app.py:55-57 | with the same headers, an order yielding `accountid` first picks `AccountID` |
| ColumnResolver.ResolverExampleUnderscored | acct_id_input_app.py:50-63 | headers `ACCT_Id`, `Name` resolve to `ACCT_Id` under every hash order |
| ColumnResolver.ResolverExampleMixed | acct_id_input_app.py:50-63 | headers `Account Number`, `AcctID` resolve to `AcctID` under every hash order |
| ColumnResolver.ResolverExampleNone | acct_id_input_app.py:50-63 | headers `foo`, `bar` resolve to nothing under every hash order |
| CsvIds.StrippedValuesMembers | acct_id_input_app.py:165 | every kept cell is non-empty with no whitespace at either end, and the kept cells are exactly the non-blank cells, stripped |
| CsvIds.StrippedValues | acct_id_input_app.py:165 | the non-blank cells, stripped, in column order; its meaning is stated by `StrippedValuesMembers` |
| CsvIds.CleanCsvColumn | acct_id_input_app.py:166-170 | the loaded ids have no repeats |
| CsvIds.CleanCsvColumnMeaning | acct_id_input_app.py:164-170 | the loaded ids are exactly the non-blank cells, stripped, each non-empty and whitespace-trimmed, in first-seen order |
| CsvIds.LoadCsvIds | acct_id_input_app.py:164-170 | the comprehension and the `seen` loop as written compute the cleaned column |
| CsvIds.CsvReparse | acct_id_input_app.py:175-188 | when no stripped cell holds a comma or inner whitespace or starts or ends with a quote, the ids written one per line into the text box (line 175) and parsed again by the query button (line 188) are exactly the loaded ids, whatever trailing whitespace the text box adds |

## Left out

- The Tkinter window, its widgets, dialogs and status messages are user interface, not ingestion logic; so are the empty-CSV warning and the missing-column error dialog shown when the resolver finds nothing.
- Logging and its handler set-up are side effects with no bearing on the ids.
- Reading the CSV (`pandas.read_csv`) and the error dialog around it are file I/O; the model starts from the header row and the column's cells as strings.
- Exporting the results (`to_csv` when the save path ends in `.csv`, otherwise `to_excel`) is file I/O on the query's result, not on the ids.
- `astype(str)` on the column is not modelled: the CSV is read with `dtype=str` and `keep_default_na=False`, so the cells are strings already and an empty cell is the empty string.
- `run_ccb_query` is imported from an external module that is not part of this model; the fallback defined when that import fails only echoes the ids in a table. Query execution, batching, SQL building, aggregation and template writing are not in this code and are not modelled.
- `Text.get("1.0", "end")` is an I/O call; its trailing newline is covered by the `pad` argument of `CsvIds.CsvReparse` and `IdParser.ParseJoinRoundTrip`.
- `str(name)` in `normalize_colname` matters only for headers that are not strings; the model takes headers as strings.
- CharClass.IsWs: lists the code points for which Python's `str.isspace` is true, and both `str.strip()` and the `\s` of `re` are modelled with that one class. The regular-expression engine's own notion of `\s` is not modelled separately.
- Strings are sequences of code points; no Unicode normalisation or case folding is modelled, and `lower()` is modelled on ASCII letters only, which is all the normaliser leaves.
- ColumnResolver.PickAcctColumn: states the result for every possible iteration order of the preferred set rather than for CPython's actual hash order, which depends on the per-process hash seed.
