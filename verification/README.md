# Miller's CSV reader with mid-stream header changes, in Dafny

This project models the streaming CSV record reader of Miller's C implementation
(`c/input/lrec_reader_stdio_csv.c`). It states properties of that model and proves them.
The reader pulls lines one at a time:

- a header line names the fields;
- each following data line becomes one record, its values paired with the header's names by position;
- a blank line ends the block, and the next non-blank line is a new header.

Headers are kept in a cache keyed by their field-name sequence. A schema seen before re-selects its
existing keeper. A new schema appends one keeper. Nothing is evicted while the reader lives, so
records built against an old header stay valid.

Modules, leaf first:

- `Wrappers`: `Option` and `Result`.
- `Text`: joining fields with a separator, the trailing run of a separator, and collapsing separator
  runs. It also proves that joining is injective on non-empty lists of separator-free fields, which is the reference
  definition the splitters are checked against.
- `FieldSplit`: the two scans in the source.
  - The data-line scan is `DataScan` / `SplitDataLine`.
  - The header-line scan is `HeaderScan` / `SplitHeaderLine`.
  - The two differ. The header scan's extra increment skips the character after each consumed
    separator (see Findings).
  - The header scan reads past the end of a line that ends in a consumed separator. The model proves
    the exact condition for that in closed form: `HeaderLineSafe`. With repeats, the line must not
    end in a separator. Without repeats, its trailing separator run must have even length.
- `DataLine`: zipping header names with data values, and the header/data count mismatch.
- `HeaderCache`: the insertion-ordered keeper cache. A keeper's identity is its position in the cache.
- `CsvReader`: the reader state, its initial state, start-of-file, and the per-call state machine
  `Process` (built from `ReadHeader` and `ReadData`). It also holds the reader invariant, which says
  that whenever no header is expected, a non-empty header is active. Every path preserves it.

Input is a `seq<string>` consumed from the front, and end of stream is the empty sequence.
Each call returns a `Step`: the new state, the lines not yet read, and one `Outcome`. The possible
outcomes are:

- a record;
- end of stream;
- `Mismatch`, where the C prints an error and exits;
- `HeaderOverrun`, where the as-written header scan reads past the string, which is undefined in C;
- `NoActiveHeader`, where the C would dereference a null keeper.

The invariant proves that `NoActiveHeader` never happens.

`Config.headerRule` selects the header split. `AsWritten` is the C scan. `Corrected` is the split the
code evidently intends (see Findings). Every reader property is proved for both rules.

In three places the code behaves in ways a reader might not expect; the model follows the code:

- The header line and the data line are not split by the same rule. Without repeats, the header
  `a,,b` gives `["a", ",b"]`, not `["a", "", "b"]`.
- A blank line read as data when no header is active does not go on to be parsed. The loop at
  lines 94-105 re-reads the next line as data. Only a following non-blank line would meet the null
  header, and the invariant rules that out.
- `ilno` is incremented only for lines read while a header is expected (line 65), not for data lines.

## Model

| member | source | states |
|---|---|---|
| FieldSplit.SkipRepeats | c/input/lrec_reader_stdio_csv.c:169-174 | the next field starts right after the separator, or, when repeats are allowed, at the first non-separator after the run (or the end of the line) |
| FieldSplit.DataScan | c/input/lrec_reader_stdio_csv.c:158-185 | the data scan always yields at least one value (the final one is closed at line 184) |
| FieldSplit.SplitDataLine | c/input/lrec_reader_stdio_csv.c:158-185 | data values never contain the separator; without repeats they join back to the line, so "1,,2" has a middle "" and a trailing separator gives a final ""; with repeats they join to the line with every separator run collapsed to one |
| FieldSplit.SplitDataLineIsJoinInverse | c/input/lrec_reader_stdio_csv.c:158-179 | without repeats, the data split is the unique separator-free field list that joins to the line |
| FieldSplit.RepeatedSeparatorsActAsOne | c/input/lrec_reader_stdio_csv.c:169-174 | with repeats, each run of separators acts as one: the split equals the repeat-free split of the collapsed line |
| FieldSplit.HeaderScan | c/input/lrec_reader_stdio_csv.c:201-215 | when the header scan stays in the string it yields at least one field |
| FieldSplit.HeaderScanDefinedIff | c/input/lrec_reader_stdio_csv.c:202-212 | the header scan stays inside the string exactly when the line does not end in a consumed separator: no trailing separator with repeats, an even-length trailing run without |
| FieldSplit.HeaderScanShape | c/input/lrec_reader_stdio_csv.c:201-215 | every header field after the first is non-empty and has no separator after its first character, which the scan skips; the first field has no separator at all |
| FieldSplit.HeaderScanJoin | c/input/lrec_reader_stdio_csv.c:201-215 | without repeats the header fields join back to the line |
| FieldSplit.HeaderScanMatchesDataScan | c/input/lrec_reader_stdio_csv.c:201-215 | the header scan gives the data-line values whenever the skipped character is never a separator: always with repeats, and without repeats on lines with no two adjacent separators |
| FieldSplit.SplitHeaderLine | c/input/lrec_reader_stdio_csv.c:196-218 | the empty line splits to no fields and any other line to at least one; later fields are non-empty; without repeats the fields join back to the line, the first has no separator and the others none after their first character; with repeats the split equals the data-line split and no field contains the separator |
| FieldSplit.HeaderSplitSkipsCharacter | c/input/lrec_reader_stdio_csv.c:202-212 | without repeats the header "a,,b" splits to ["a", ",b"] while the data split gives ["a", "", "b"]; "a," makes the header scan run past the end |
| FieldSplit.CorrectedSplitHeaderLine | c/input/lrec_reader_stdio_csv.c:196-218 | the corrected header split is total; the empty line gives no fields; fields contain no separator and join back to the line (collapsed, with repeats) |
| FieldSplit.CorrectedSplitAgrees | c/input/lrec_reader_stdio_csv.c:196-218 | the correction changes nothing with repeats, and nothing without repeats on lines without adjacent or trailing separators |
| DataLine.ParseScanZips | c/input/lrec_reader_stdio_csv.c:157-189 | `ParseScan`, the model of the C's walk along the header's keys (`pe`) while it splits the line, fails exactly when the remaining keys and values differ in number (too many values at line 162, a missing key at line 180, keys left over at line 186), and otherwise appends them zipped |
| DataLine.ParseDataLine | c/input/lrec_reader_stdio_csv.c:149-192 | parsing succeeds exactly when the data line has as many values as the header has names; the record's keys are then the header names in header order and its values the split values at the same positions |
| DataLine.EmptyHeaderNeverMatches | c/input/lrec_reader_stdio_csv.c:156-157 | an empty key list is always a mismatch, never a null dereference |
| DataLine.ParsedValuesRejoin | c/input/lrec_reader_stdio_csv.c:158-185 | without repeats a parsed record's values join back to the data line |
| DataLine.EmptyMiddleValue | c/input/lrec_reader_stdio_csv.c:158-185 | "1,,2" against a,b,c gives a=1, b="", c=2 |
| DataLine.EmptyTrailingValue | c/input/lrec_reader_stdio_csv.c:158-185 | "1," against a,b gives a=1, b="" |
| DataLine.RepeatedSeparatorValues | c/input/lrec_reader_stdio_csv.c:169-174 | with repeats "1,,2" against a,b gives a=1, b=2 |
| DataLine.RepeatedSeparatorMismatch | c/input/lrec_reader_stdio_csv.c:180-189 | without repeats "1,,2" against a,b is a header/data mismatch |
| HeaderCache.Lookup | c/input/lrec_reader_stdio_csv.c:76 | lookup finds a keeper with exactly the given field names, and finds none exactly when none is cached |
| HeaderCache.Resolve | c/input/lrec_reader_stdio_csv.c:76-83 | a cached schema selects its keeper and leaves the cache unchanged; a new one appends exactly one keeper holding this line and selects it; the cache only grows and keeps one keeper per schema |
| HeaderCache.ResolveReselects | c/input/lrec_reader_stdio_csv.c:80-83 | in a duplicate-free cache a cached schema resolves to the keeper that holds it |
| HeaderCache.ResolveStable | c/input/lrec_reader_stdio_csv.c:9-17 | once resolved, a schema resolves to the same keeper in every later cache, whatever was read in between |
| CsvReader.Init | c/input/lrec_reader_stdio_csv.c:130-136 | the initial state satisfies the reader invariant, expects a header, has no active header and an empty cache |
| CsvReader.Sof | c/input/lrec_reader_stdio_csv.c:109-114 | start of file resets the counts, expects a header, keeps the cache and the active header, and preserves the reader invariant |
| CsvReader.HeaderFields | c/input/lrec_reader_stdio_csv.c:67 | the header split is undefined only under the as-written rule on unsafe lines; it is empty exactly for the blank line |
| CsvReader.AcceptHeaderLine | c/input/lrec_reader_stdio_csv.c:65-85 | a header-position line counts one input line; a blank one clears the active header and keeps expecting one; any other makes a keeper with its fields active and stops expecting a header; the invariant is preserved and the cache only grows |
| CsvReader.ReadHeader | c/input/lrec_reader_stdio_csv.c:59-87 | reading from the header state satisfies every step fact (see Process) |
| CsvReader.ReadData | c/input/lrec_reader_stdio_csv.c:89-104 | reading from the data state satisfies every step fact (see Process); a non-blank first line is the data line the call returns on |
| CsvReader.Process | c/input/lrec_reader_stdio_csv.c:54-106 | one call: at most one record; the lines read are a prefix of the input, all of it at end of stream; every non-blank line read before the last is a header line, followed by a blank line or by the one data line the call returns on; from the data state a non-blank first line is that data line; so the record count rises by exactly one when a data line is read and never otherwise; the record (or mismatch) is the parse of that line against the header line just before it, or against the header already active; a header overrun is reported on the last line read; the cache only grows and stays duplicate-free; the invariant is preserved, so no data line meets a null header; empty input gives end of stream |
| CsvReader.BlankLineClearsHeader | c/input/lrec_reader_stdio_csv.c:94-99 | a blank line while a header is active clears it and sets expect-header, emitting and counting nothing |
| CsvReader.BlankLineSkipped | c/input/lrec_reader_stdio_csv.c:94-100 | a blank line in the data state with no active header is skipped and the next line is read as data again |
| CsvReader.DataLineParsed | c/input/lrec_reader_stdio_csv.c:101-104 | a non-blank line in the data state with an active header is counted, parsed against that header, and the call returns on it, leaving the remaining lines unread |
| CsvReader.HeaderLineRead | c/input/lrec_reader_stdio_csv.c:59-87 | in the header state a line is taken as a header line (skipped when blank) and reading goes on from the state it leaves |
| CsvReader.HeaderLineOverrun | c/input/lrec_reader_stdio_csv.c:62-67 | in the header state a line the as-written split would overrun is counted and reported, and nothing more is read |
| CsvReader.CachedHeaderReselected | c/input/lrec_reader_stdio_csv.c:76-83 | a header whose fields are cached makes that keeper active and leaves the cache unchanged |
| CsvReader.NewHeaderAppended | c/input/lrec_reader_stdio_csv.c:76-79 | a header with a new schema appends exactly one keeper, holding its line, and makes it active |
| CsvReader.SchemaChangeScenario | c/input/lrec_reader_stdio_csv.c:94-99 | in one file, a blank line ends the first block: the stream a,b,c / 1,2,3 / 4,5,6 / blank / d,e,f,g / 3,4,5,6 yields a=1,b=2,c=3, then a=4,b=5,c=6, then d=3,e=4,f=5,g=6, then end of stream; the record count rises exactly three times and the cache ends with two keepers |
| CsvReader.FileOneRecords | c/input/lrec_reader_stdio_csv.c:31-47 | the first file a,b,c / 1,2,3 / 4,5,6 of the cases in the comment yields a=1,b=2,c=3, then a=4,b=5,c=6, then end of stream, with one keeper |
| CsvReader.SecondFileStarts | c/input/lrec_reader_stdio_csv.c:109-114 | start of the second file resets the counts and expects a header while the first keeper stays cached and active, and the invariant holds |
| CsvReader.SecondFileSameSchema | c/input/lrec_reader_stdio_csv.c:31-47 | case (a): a second file a,b,c / 7,8,9 re-selects the first keeper, adds none, and yields a=7,b=8,c=9 as record 1 of that file, then end of stream |
| CsvReader.SecondFileNewSchema | c/input/lrec_reader_stdio_csv.c:31-47 | case (b): a second file d,e,f,g / 3,4,5,6 adds a second keeper, makes it active, and yields d=3,e=4,f=5,g=6 as record 1 of that file, then end of stream |

## Findings

| source | as written | input that shows it | evidently intended | confidence | as-written member | corrected member |
|---|---|---|---|---|---|---|
| c/input/lrec_reader_stdio_csv.c:202-212 | after consuming a separator (and, with repeats, its run) the `p++` at line 205 is followed by the for-loop's own `p++`, so the next character is never compared with the separator, and a separator consumed at the end of the line moves `p` past the terminating NUL | with ',' and repeats off, "a,,b" splits to ["a", ",b"], and "a," reads past the end of the string | header lines split like data lines: "a,,b" gives ["a", "", "b"], and no line reads past the end | high (not executed) | FieldSplit.HeaderSplitSkipsCharacter | FieldSplit.CorrectedSplitHeaderLine |

`CsvReader` takes the rule as `Config.headerRule`. `AsWritten` models the C code, and it reports
`HeaderOverrun` for header lines whose scan would leave the string. `Corrected` uses
`FieldSplit.CorrectedSplitHeaderLine`. Every reader property above holds under both rules.

## Left out

- The line source: `mlr_get_line`, the `FILE*` handle and the open/close hooks (lines 62, 89, 139-140). Input is a sequence of lines, so read failures are not modelled. The record separator `irs` is kept in the configuration but only the line source uses it.
- Memory management: `free`, `slls_free` and the in-place NUL writes at lines 160 and 204, which become index slicing. Also the teardown `lrec_reader_stdio_csv_free` (lines 117-123), which only releases keepers. Model values never dangle, so keeper lifetime is modelled by the cache only growing.
- `fprintf` and `exit(1)` at lines 163-164, 181-182 and 187-188. They become the `Mismatch` outcome, and the model says nothing about what happens after it.
- The container internals of `lhmslv`, `slls` and `lrec`, which are not part of this model. The hash lookup is a front-to-back search over a duplicate-free sequence. A record is a sequence of pairs. Whatever `lrec_put_no_free` does with repeated keys is not modelled: the record keeps every pair in header order.
- The function-pointer wiring in `lrec_reader_stdio_csv_alloc` (lines 138-143).
- The allocator never sets `ilno` (lines 130-136). The model starts it at 0.
- `long long` overflow of `ifnr` and `ilno`: the counts are unbounded naturals.
- NUL bytes inside a line, and a NUL field separator. Lines are the C strings' contents up to the terminator.
- CsvReader.Process: states only that `ilno` does not decrease, not that it counts exactly the lines read while a header is expected.
