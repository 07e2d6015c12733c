# FlyGuide GBIF preparation step, modelled in Dafny

`flyguide/gbif_prep_from_csv.py` turns a GBIF occurrence or checklist download (CSV or
TSV) into the two inputs of the rest of the pipeline: a sorted list of names to search
for (`OUTPREFIX_species_search.txt`) and a sorted species-to-kingdom table
(`OUTPREFIX_species_kingdom.tsv`). This project models what `main()` does once the file
is open, and proves its rules:

- **Delimiter guess** (`GbifPrep.DetectDelimiter`). The first line decides: tab when
  only tabs occur, comma when only commas occur, otherwise the more frequent of the
  two, with ties going to tab. The first line is what `readline()` returns, line feed
  included, so it is empty only for an empty file, which is the "empty file" error; a
  blank first line is `"\n"` and gives tab.
- **Column resolution** (`GbifPrep.LowerMap`, `GbifPrep.Missing`,
  `GbifPrep.ResolveColumns`). The header is looked up case-insensitively. When two
  headers lower-case to the same name, the last one wins. The required columns that
  are absent are reported in the fixed order `species, genus, kingdom`, and any absent
  column stops the step before a row is read.
- **Row aggregation** (`GbifPrep.Aggregate`). A loop over the rows counts them and
  fills a set of search names and a set of (species, kingdom) pairs. Each cell is
  read as empty when absent or unfilled, then stripped.
- **Emission** (`GbifPrep.EmitSearchList`, `GbifPrep.EmitKingdomTable`). Both sets
  are written in Python's sort order. The search file holds one name per line.
- **The whole step** (`GbifPrep.Run`) chains these. Errors are `Result` values
  rather than messages and exit codes.

Layout:

- `text.dfy` (module `Text`): ASCII models of `str.strip`, `str.lower` and
  `str.count`.
- `order.dfy` (module `Order`): Python's order on strings and on pairs of strings,
  proved to be strict total orders. It also holds `SortSet`, a model of `sorted`
  applied to a set, and the proof that a strictly sorted list is determined by its
  elements.
- `gbif_prep.dfy` (module `GbifPrep`): the file's own logic.

The reader is an input. `Run` receives the first line of the file and a function
`parse` from a delimiter to the table `csv.DictReader` would produce with it
(`fieldnames` and the rows, each row a map from header name to an optional cell).

## Model

| member | source | states |
|---|---|---|
| `GbifPrep.DetectDelimiter` | flyguide/gbif_prep_from_csv.py:38-49 | the first line as `readline()` returns it (empty only for an empty file) gives the `EmptyInput` error when empty and only then; otherwise the delimiter is tab iff the line has at least as many tabs as commas; tab-only gives tab, comma-only gives comma, neither gives tab |
| `Text.Count` | flyguide/gbif_prep_from_csv.py:49 | the count is the number of occurrences of the character (its multiplicity in the string); hence at most the length, and zero iff the character does not occur |
| `Text.Lower` | flyguide/gbif_prep_from_csv.py:54 | the result holds no ASCII capital and differs from the input at most in letter case, position by position; a string without capitals is left as it is |
| `Text.LowerEqualIff` | flyguide/gbif_prep_from_csv.py:54 | two strings lower-case to the same string iff they have the same length and differ at most in ASCII letter case |
| `GbifPrep.HeaderLookupIgnoresCase` | flyguide/gbif_prep_from_csv.py:54-69 | a name without capitals, such as `species`, is a key of the header map iff some header equals it up to letter case |
| `Text.LowerIdempotent` | flyguide/gbif_prep_from_csv.py:54 | lower-casing twice is lower-casing once |
| `GbifPrep.LowerMapKeys` | flyguide/gbif_prep_from_csv.py:54 | the header map has a key iff some header lower-cases to it |
| `GbifPrep.LowerMapLastWins` | flyguide/gbif_prep_from_csv.py:54 | each key of the header map maps to a header that lower-cases to the key and is the last header to do so |
| `GbifPrep.ResolvesToUnique` | flyguide/gbif_prep_from_csv.py:54 | a required name resolves to at most one header |
| `GbifPrep.Missing` | flyguide/gbif_prep_from_csv.py:56-57 | `missing` holds exactly the required names that are not keys of the header map, each as often as in the required list and in its order |
| `GbifPrep.ResolveColumns` | flyguide/gbif_prep_from_csv.py:53-69 | succeeds iff every required name is the lower-casing of some header; on success each column is the last header lower-casing to its name; on failure the error lists exactly the absent names, non-empty, in required order, together with the headers found |
| `Text.StripSpec` | flyguide/gbif_prep_from_csv.py:74-76 | the result is the input with a whitespace prefix and a whitespace suffix cut off, and it neither starts nor ends with whitespace |
| `Text.TrimUnique` | flyguide/gbif_prep_from_csv.py:74-76 | only one string is a trim of a given string in that sense, so `strip` is determined |
| `Text.StripIdempotent` | flyguide/gbif_prep_from_csv.py:74-76 | stripping twice is stripping once |
| `Text.StripEmptyIff` | flyguide/gbif_prep_from_csv.py:74-76 | a cell strips to the empty string iff it is all whitespace |
| `GbifPrep.FieldSpec` | flyguide/gbif_prep_from_csv.py:74-76 | an absent or unfilled cell reads as the empty string; a filled cell reads as its trim; the value never starts or ends with whitespace |
| `GbifPrep.SearchNamesSpec` | flyguide/gbif_prep_from_csv.py:78-87 | a name is in the search set iff some row has it as its non-empty species, or has an empty species and it as its non-empty genus |
| `GbifPrep.KingdomPairsSpec` | flyguide/gbif_prep_from_csv.py:81-84 | a pair is in the pair set iff some row has it as its species and kingdom, both non-empty |
| `GbifPrep.PairSpeciesSearched` | flyguide/gbif_prep_from_csv.py:81-87 | the empty name is never searched for; every pair has a non-empty species and kingdom, and its species is in the search set |
| `GbifPrep.AggregationOrderIndependent` | flyguide/gbif_prep_from_csv.py:71-87 | both sets depend only on which rows occur, not on their order or repetition |
| `GbifPrep.DuplicateRowIgnored` | flyguide/gbif_prep_from_csv.py:71-87 | reading a row again that was already read changes neither set |
| `GbifPrep.ReadRow` | flyguide/gbif_prep_from_csv.py:74-87 | one pass of the loop body adds to the search set the row's species, or its genus when the species is empty, and to the pair set the row's (species, kingdom) when both are non-empty; the sets grow by nothing else |
| `GbifPrep.Aggregate` | flyguide/gbif_prep_from_csv.py:71-87 | the row counter equals the number of data rows, and the two sets are those built by reading the rows in order |
| `Order.StringLessIsStrictTotalOrder` | flyguide/gbif_prep_from_csv.py:91 | Python's string order is irreflexive, transitive and total on distinct strings |
| `Order.PairLessIsStrictTotalOrder` | flyguide/gbif_prep_from_csv.py:97 | Python's order on pairs of strings is a strict total order |
| `Order.SortSet` | flyguide/gbif_prep_from_csv.py:91 | `sorted` of a set gives each of its elements exactly once, in strictly ascending order |
| `Order.SortedUnique` | flyguide/gbif_prep_from_csv.py:91-92 | two strictly sorted lists with the same elements are equal |
| `GbifPrep.EmitSearchList` | flyguide/gbif_prep_from_csv.py:90-92 | the names written are the search set, strictly ascending, one per set element, and the file text is each name followed by a line feed |
| `GbifPrep.SplitRenderRoundTrip` | flyguide/gbif_prep_from_csv.py:91-92 | reading the search file back line by line gives the list written, when no name holds a line feed |
| `GbifPrep.EmitKingdomTable` | flyguide/gbif_prep_from_csv.py:95-98 | the rows written are the pair set, strictly ascending, one per pair |
| `GbifPrep.EmissionDeterministic` | flyguide/gbif_prep_from_csv.py:89-98 | over the same rows, in any order and with any repetitions, both written lists are the same |
| `GbifPrep.Run` | flyguide/gbif_prep_from_csv.py:36-98 | empty input fails with `EmptyInput`; otherwise the table read with the guessed delimiter either fails column resolution, and that error is returned with no row read, or yields the row count, both sets emitted in sorted order, and the search-file text |

## Left out

- Command-line handling, the existence check of the input file, `sys.exit` and the
  messages on standard error (lines 15-28, 40, 59-65, 100-105): errors are `Result`
  values. The counts of the final summary are the report's `rowsRead` and the lengths
  of its two lists.
- Opening and reading files, the `utf-8-sig` decoding with `errors="replace"` and the
  `seek(0)` (lines 37, 51, 90, 95): `Run` receives the first line and the reader's
  output. The first line is taken after decoding, so a byte-order mark is already gone.
- `csv.DictReader` tokenisation and quoting (line 52), including its skipping of
  blank lines and its key for surplus cells: the reader is the parameter `parse`.
- `GbifPrep.EmitKingdomTable`: models the ordered rows handed to `csv.writer`, not
  the file text; its tab-separated quoting and `\r\n` line ends are not modelled.
- `Text.StripSpec`: whitespace is ASCII whitespace only. Python's `strip` also
  removes non-ASCII whitespace, which the model keeps.
- `Text.Lower`: only ASCII capitals are lower-cased. Python's `lower` also maps
  non-ASCII letters, which the model keeps as they are.
- `Order.SortSet`: proves the result of `sorted`, not Python's sorting algorithm.
  Strings are ordered by code point, as Python orders `str`.
- Output file names built from the prefix (lines 30-31): string formatting of paths.
