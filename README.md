# Resolution store of the Discord resolution bot, in Dafny

The bot keeps "resolutions" in a JSON file. Each resolution is a record with a case number and optional descriptive fields. The bot loads the file into memory at start-up. Three slash commands work on it: look up a resolution by case number and show it as an embed, reload the file, and create a new resolution, which is appended and written back. This project models the in-memory collection and the logic around it:

- `wrappers.dfy` (`Wrappers`): `Option`, for absent JSON fields and failed lookups or parses.
- `text.dfy` (`Text`): the string operations the bot uses. These are Python's `str.strip()` with its white-space set written out, `str.split(",")`, `", ".join`, decimal rendering of a number, and Python's lexicographic string order (`LexLe`). Each comes with the lemmas that pin it down: the join of two lists of parts for every separator, split/join round trips for one-character separators, a total order, and what strip removes.
- `resolutions.dfy` (`Resolutions`): the record datatype and the pure queries. These are the first-match lookup (`FindCase`), the stable newest-first ordering by date (`SortByDate`, an insertion sort standing in for Python's stable `sorted(..., reverse=True)`), the truncated listing (`Latest`), parsing of the comma-separated arguments (`ParseList`) and the record the create command builds (`NewRecord`).
- `store.dfy` (`Store`): the class `ResolutionStore`, whose `items` field is the bot's global `resolutions` list. It has lookup, listing, reload (replace on success, keep on failure) and create (refuse a duplicate, otherwise append and hand the whole collection to the write).
- `render.dfy` (`Render`): the lookup reply. It builds the title fallback, the signatory line, the clause text, and the 1024-character chunking into embed fields. `BuildEmbed` is a method with the `add_field` loop.

Reading and writing the file are not modelled. A reload takes the parse result as an `Option<seq<Resolution>>`, where `None` means the file was missing, unreadable or malformed. A create takes a `saveSucceeds` flag that says whether `json.dump` succeeded, and returns `written`, the collection handed to the write.

The comma-separated lists keep empty elements: main.py:126-127 strips each segment but does not filter them out. So `ParseList("")` is `[""]`, and two adjacent commas give an empty element (lemma `ParseListKeepsEmpty`).

The date has two defaults. Sorting treats a missing date as `""` (`DateKey`). The embed shows a missing date as an em dash (`BuildEmbed`).

## Model

| member | source | states |
|---|---|---|
| `Resolutions.FindCase` | main.py:15-16 | `None` exactly when no record has the case number (exact, case-sensitive equality); otherwise the result is the record at the first index holding that case number |
| `Resolutions.FindCaseUnique` | main.py:15-16 | in a collection with unique case numbers, lookup returns a record exactly when that record is in the collection under that key |
| `Resolutions.FindCaseAppendOther` | main.py:15-16 | appending a record does not change the lookup of any other case number |
| `Resolutions.AppendNewCase` | main.py:115-130 | appending a record with a case number not yet present keeps case numbers unique, and lookup of that number then returns the new record |
| `Resolutions.DateKey` | main.py:19 | the sort key is the date when present and `""` when the date is missing |
| `Resolutions.InsertByDate` | main.py:19 | inserting a record yields the old multiset plus that record |
| `Resolutions.SortByDate` | main.py:19 | the sorted sequence has the same length and the same multiset of records as the collection (a permutation) |
| `Resolutions.InsertByDateSorted` | main.py:19 | inserting into a newest-first sequence keeps it newest first |
| `Resolutions.SortByDateSorted` | main.py:19 | the sorted sequence is newest first: every key is at least every later key in string order |
| `Resolutions.InsertByDateWithDate` | main.py:19 | insertion places the record ahead of the equal-date records, so the records of each date keep their relative order |
| `Resolutions.SortByDateStable` | main.py:19 | stability: for every date, the records with that date appear in the sorted sequence in their original order |
| `Resolutions.StableSortUnique` | main.py:19 | two newest-first sequences that agree on the records of every date are equal |
| `Resolutions.StableSortIsSortByDate` | main.py:19 | any newest-first arrangement that keeps the original order within each date is exactly `SortByDate` |
| `Resolutions.MissingDateLast` | main.py:19 | in a newest-first sequence, everything after a record with no date also has key `""`, so undated records come last |
| `Resolutions.Latest` | main.py:18-20 | returns `min(limit, |items|)` records, newest first, each taken from the collection (sub-multiset); the listing is the prefix of the stable newest-first order `SortByDate` that `StableSortIsSortByDate` characterises |
| `Resolutions.LatestAreNewest` | main.py:18-20 | every record left out of the listing is no newer than any record in it |
| `Resolutions.LatestStable` | main.py:18-20 | for each date, the listed records of that date are a prefix of that date's records in original order |
| `Resolutions.LatestAll` | main.py:18-20 | with `limit >= |items|`, the listing is a permutation of the whole collection |
| `Resolutions.ParseList` | main.py:126-127 | the number of elements is the number of commas plus one, and no element contains a comma |
| `Resolutions.ParseListSegments` | main.py:126-127 | for comma-free segments joined by commas, the parsed list has one element per segment, and each element is that segment stripped |
| `Resolutions.ParseListCommaSpace` | main.py:126-127 | for comma-free `a` and `b`, `a + ", " + b` parses to `[Strip(a), Strip(b)]`; so `"A, B"` gives `["A", "B"]` |
| `Resolutions.ParseListTwoNames` | main.py:126 | `"A, B"` parses to `["A", "B"]` |
| `Resolutions.ParseListKeepsEmpty` | main.py:126-127 | empty segments are kept: for comma-free `a` and `b`, `a + ",," + b` gives `[Strip(a), "", Strip(b)]`, and `""` gives `[""]` |
| `Resolutions.NewRecord` | main.py:119-129 | the new record holds every string argument as given, and its signatories and operative clauses are exactly `ParseList` of their comma-separated arguments (one element more than there are commas) |
| `Text.Strip` | main.py:126-127 | the stripped text is no longer than the input and neither starts nor ends with white space |
| `Text.StripIsTrimmedSlice` | main.py:126-127 | the stripped text is a slice of the input with only white space before and after it |
| `Text.StripIdempotent` | main.py:126-127 | stripping twice is stripping once |
| `Text.StripUnpadded` | main.py:126-127 | a string with no white space at either end strips to itself |
| `Text.StripLeadingSpace` | main.py:126-127 | leading white space does not affect the stripped text |
| `Text.StripAllSpace` | main.py:126-127 | an all-white-space (or empty) segment strips to `""` |
| `Text.Split` | main.py:126-127 | the number of segments is the number of separators plus one, and no segment holds the separator |
| `Text.JoinSplit` | main.py:126-127 | joining the segments with the separator gives back the input |
| `Text.SplitJoin` | main.py:126-127 | splitting a join of separator-free parts gives back the parts |
| `Text.Join` | main.py:56-61 | the join begins with the first part and is at least as long as all parts together; pinned down for every separator by `JoinAppend` and `JoinLength`, and for one-character separators also by `JoinSplit` and `SplitJoin` |
| `Text.JoinLength` | main.py:56-61 | a join is as long as its parts plus one separator between each pair of neighbours |
| `Text.JoinAppend` | main.py:56-61 | joining two non-empty lists of parts is joining each and putting one separator between them, for every separator |
| `Text.JoinThree` | main.py:56-61 | three parts join to `a + sep + b + sep + c`, with one separator between neighbours |
| `Text.JoinEmpty` | main.py:56 | joining with a non-empty separator gives `""` exactly for no parts or a single empty part |
| `Text.NatToString` | main.py:61 | the rendering is a non-empty string of decimal digits with no leading zero |
| `Text.DecimalRoundTrip` | main.py:61 | reading the rendered digits back gives the number |
| `Text.LexLeRefl` | main.py:19 | string order is reflexive |
| `Text.LexLeTotal` | main.py:19 | string order is total |
| `Text.LexLeAntisymmetric` | main.py:19 | string order is antisymmetric |
| `Text.LexLeTransitive` | main.py:19 | string order is transitive |
| `Text.LexLeEmpty` | main.py:19 | `""` is the least string and the only one at or below `""` |
| `Store.ResolutionStore.constructor` | main.py:12-13 | the store starts with the collection parsed from the file |
| `Store.ResolutionStore.Get` | main.py:15-16 | the lookup on the current collection |
| `Store.ResolutionStore.ListLatest` | main.py:18-20 | the latest listing of the current collection; a method without `modifies`, so the collection is unchanged |
| `Store.ResolutionStore.Reload` | main.py:79-84 | success exactly when a parse happened; then the collection is the parsed sequence; on failure the collection is as before |
| `Store.ResolutionStore.Create` | main.py:114-137 | a duplicate case number is refused, nothing changes and nothing is written. Otherwise exactly the new record is appended at the end, the whole new collection is written, and the append remains when the write fails (`SaveFailed`) |
| `Render.Title` | main.py:48 | the title is never empty; it is the record's title when present and non-empty, otherwise `"Case " + caseNumber` |
| `Render.SignatoryLine` | main.py:56 | never empty: the dash for no signatories or a single empty one, otherwise the `", "`-join |
| `Render.NumberedLines` | main.py:61 | one line per clause: its 1-based position in decimal, `". "`, then the clause; a line holds a line break exactly when its clause does |
| `Render.RecordClauseText` | main.py:58-61 | the clause text of a record, with no clauses when the field is missing and the dash as a missing conclusion |
| `Render.ClauseText` | main.py:58-61 | the clause text is never empty |
| `Render.ClauseTextJoin` | main.py:61 | for every clause list and conclusion, including ones with line breaks, the clause text is the `"\n"`-join of the numbered clauses (one empty line when there are none), a blank line, `**Conclusion**` and the conclusion |
| `Render.ClauseTextLines` | main.py:58-61 | when clauses and conclusion have no line breaks, the text's lines are the numbered clauses (or one empty line when there are none), a blank line, `**Conclusion**` and the conclusion |
| `Render.Chunks` | main.py:63 | the chunks concatenate to the text; each has 1 to 1024 characters; all but the last have exactly 1024; there are ⌈len/1024⌉ of them |
| `Render.FieldName` | main.py:65 | the name is "Operative Clauses" exactly for the first clause field and "Continued" exactly for every later one |
| `Render.ChunkFields` | main.py:64-65 | one field per chunk, in order: its value is the chunk, its name is `FieldName` of its position, and it is not inline |
| `Render.ClauseFields` | main.py:62-67 | the clause fields spell the text back; each value fits in 1024 characters; none is inline; the first is "Operative Clauses" and the rest are "Continued"; there are ⌈len/1024⌉ of them (one field for text up to 1024 characters) |
| `Render.ClauseFieldsAreChunks` | main.py:62-67 | for non-empty text, both branches of the length test give exactly the chunks as field values |
| `Render.BuildEmbed` | main.py:47-67 | the embed has the title fallback, the preamble (or the dash), the five labelled fields with their defaults in order, then the clause fields of the record's clause text |

## Left out

- Discord session set-up, intents, command sync, slash-command registration and the administrator permission checks (main.py:3-5, 22-44, 75-76, 89-91) are platform glue.
- Sending replies (`interaction.response.send_message`, including the not-found, reload and create messages) is network I/O and is not modelled. Neither are the `async` handlers.
- Reading `DISCORD_TOKEN` from the environment and `bot.run` (main.py:6-9, 140) are process plumbing.
- Opening the file, `json.load` and `json.dump` (main.py:12-13, 80-81, 133-134) are library I/O. A parse result and a write-succeeded flag stand in for them. The JSON round trip (load then dump gives the same document) is not modelled.
- JSON values of the wrong type are not modelled: a `null` or non-string date or title, a non-list signatories field, or a record without `caseNumber` (where `r["caseNumber"]` raises). Record fields are strings, string lists, or absent.
- Embed colour, Discord's limits on the number of fields and on the total embed size, and the exceptions Discord raises when those limits are exceeded are not modelled.
- `list_latest`'s default argument of 10 is not a separate member; `Store.ResolutionStore.ListLatest` takes the limit. The limit is a `nat` because a negative Python slice bound means something else.
- Concurrency: two create commands racing each other, and the lost update from the second full overwrite, are out of scope. The model runs one command at a time.
- Python's sort is Timsort. The model uses a stable insertion sort, and `StableSortIsSortByDate` proves that it is the only stable newest-first order. So the two agree on every input, but the algorithm itself is not modelled.
