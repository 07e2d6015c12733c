/** The GBIF preparation step: from an occurrence or checklist table with
    `species`, `genus` and `kingdom` columns, build the sorted list of names
    to search for and the sorted species-to-kingdom table.

    The CSV reader is not modelled: the table arrives already split into a
    header and rows, as `csv.DictReader` would deliver it for the delimiter
    chosen from the first line. */
module GbifPrep {
  import opened Text
  import opened Order

  datatype Option<T> = None | Some(value: T)

  /** Why the step stops without writing anything. */
  datatype PrepError =
    | EmptyInput
    | MissingColumns(missing: seq<string>, found: seq<string>)

  datatype Result<T> = Ok(value: T) | Err(error: PrepError)

  /** One data row: header name to cell. `None` is the filler the reader
      puts in for the columns a short row lacks. */
  type Row = map<string, Option<string>>

  /** What the reader yields: `fieldnames` (absent for a file with no
      header row) and the data rows. */
  datatype Table = Table(fieldnames: Option<seq<string>>, rows: seq<Row>)

  /** The header names in which the three required columns were found. */
  datatype Columns = Columns(species: string, genus: string, kingdom: string)

  /** Everything the step produces: the row count of its summary, the
      search list and the text of its file, and the species-to-kingdom rows. */
  datatype Report = Report(
    rowsRead: nat,
    searchNames: seq<string>,
    searchText: string,
    kingdomTable: seq<(string, string)>)

  const Tab: char := '\t'
  const Comma: char := ','
  const Required: seq<string> := ["species", "genus", "kingdom"]

  // ---------------------------------------------------------------- delimiter

  /** The delimiter guessed from the first line of the file, as `readline()`
      returns it, line feed included: tab when only tabs occur, comma when
      only commas occur, otherwise the more frequent of the two with ties
      going to tab. Only an empty file gives the empty string; a blank first
      line is `"\n"`, which holds neither and gives tab. */
  function DetectDelimiter(firstLine: string): (r: Result<char>)
    ensures r.Err? <==> firstLine == []
    ensures r.Err? ==> r.error == EmptyInput
    ensures r.Ok? ==> r.value == (if Count(firstLine, Tab) >= Count(firstLine, Comma) then Tab else Comma)
    ensures firstLine != [] && Tab in firstLine && Comma !in firstLine ==> r == Ok(Tab)
    ensures firstLine != [] && Comma in firstLine && Tab !in firstLine ==> r == Ok(Comma)
    ensures firstLine != [] && Tab !in firstLine && Comma !in firstLine ==> r == Ok(Tab)
  {
    if firstLine == [] then Err(EmptyInput)
    else if Tab in firstLine && Comma !in firstLine then Ok(Tab)
    else if Comma in firstLine && Tab !in firstLine then Ok(Comma)
    else Ok(if Count(firstLine, Tab) >= Count(firstLine, Comma) then Tab else Comma)
  }

  // ------------------------------------------------------------------ header

  /** `reader.fieldnames or []`. */
  function Header(t: Table): seq<string> {
    match t.fieldnames
    case None => []
    case Some(names) => names
  }

  /** `{name.lower(): name for name in names}`: a later name overwrites an
      earlier one with the same lower-casing. */
  function LowerMap(names: seq<string>): map<string, string>
    decreases |names|
  {
    if names == [] then map[]
    else
      var last := names[|names| - 1];
      LowerMap(names[..|names| - 1])[Lower(last) := last]
  }

  /** Some header lower-cases to `c`. */
  predicate HasColumn(names: seq<string>, c: string) {
    exists i :: 0 <= i < |names| && Lower(names[i]) == c
  }

  /** No later header lower-cases to the same name as header `i`. */
  predicate LastOfItsName(names: seq<string>, i: int)
    requires 0 <= i < |names|
  {
    forall j :: i < j < |names| ==> Lower(names[j]) != Lower(names[i])
  }

  /** Looking `c` up case-insensitively in `names` gives `col`: the last
      header whose lower-casing is `c`. */
  ghost predicate ResolvesTo(names: seq<string>, c: string, col: string) {
    exists i :: 0 <= i < |names| && names[i] == col && Lower(col) == c && LastOfItsName(names, i)
  }

  /** The header map has a key exactly for each lower-cased header. */
  lemma {:induction false} LowerMapKeys(names: seq<string>)
    ensures forall c :: c in LowerMap(names) <==> HasColumn(names, c)
    decreases |names|
  {
    if names != [] {
      var n := |names|;
      var init, last := names[..n - 1], names[n - 1];
      LowerMapKeys(init);
      var m', m := LowerMap(init), LowerMap(names);
      assert m == m'[Lower(last) := last];
      assert forall i :: 0 <= i < n - 1 ==> init[i] == names[i];
      forall c ensures c in m <==> HasColumn(names, c) {
        if HasColumn(names, c) && c != Lower(last) {
          var i :| 0 <= i < n && Lower(names[i]) == c;
          assert i < n - 1 && Lower(init[i]) == c;
          assert HasColumn(init, c);
        }
        if c in m' {
          var i :| 0 <= i < n - 1 && Lower(init[i]) == c;
          assert Lower(names[i]) == c;
        }
        if c == Lower(last) {
          assert Lower(names[n - 1]) == c;
        }
      }
    }
  }

  /** Looking up a name written without capitals, such as `species`, finds
      every header that spells it in any mix of letter case, and only those. */
  lemma HeaderLookupIgnoresCase(names: seq<string>, c: string)
    requires NoCapitals(c)
    ensures c in LowerMap(names) <==> exists i :: 0 <= i < |names| && SameIgnoringCase(names[i], c)
  {
    LowerMapKeys(names);
    assert Lower(c) == c;
    forall i | 0 <= i < |names| ensures Lower(names[i]) == c <==> SameIgnoringCase(names[i], c) {
      LowerEqualIff(names[i], c);
    }
  }

  /** Each key of the header map maps to the last header lower-casing to it. */
  lemma {:induction false} LowerMapLastWins(names: seq<string>)
    ensures forall c :: c in LowerMap(names) ==> ResolvesTo(names, c, LowerMap(names)[c])
    decreases |names|
  {
    if names != [] {
      var n := |names|;
      var init, last := names[..n - 1], names[n - 1];
      LowerMapLastWins(init);
      var m', m := LowerMap(init), LowerMap(names);
      assert m == m'[Lower(last) := last];
      forall c | c in m ensures ResolvesTo(names, c, m[c]) {
        if c == Lower(last) {
          assert names[n - 1] == m[c] && LastOfItsName(names, n - 1);
        } else {
          assert c in m' && m[c] == m'[c] && ResolvesTo(init, c, m'[c]);
          var i :| 0 <= i < n - 1 && init[i] == m'[c] && Lower(m'[c]) == c && LastOfItsName(init, i);
          assert names[i] == init[i];
          assert LastOfItsName(names, i) by {
            forall j | i < j < n ensures Lower(names[j]) != Lower(names[i]) {
              if j < n - 1 {
                assert names[j] == init[j];
              }
            }
          }
        }
      }
    }
  }

  /** A name resolves to at most one header. */
  lemma ResolvesToUnique(names: seq<string>, c: string, a: string, b: string)
    requires ResolvesTo(names, c, a) && ResolvesTo(names, c, b)
    ensures a == b
  {
    var i :| 0 <= i < |names| && names[i] == a && Lower(a) == c && LastOfItsName(names, i);
    var j :| 0 <= j < |names| && names[j] == b && Lower(b) == c && LastOfItsName(names, j);
    assert !(i < j) && !(j < i);
  }

  /** `xs` is `ys` with some elements left out, the rest in the same order. */
  predicate IsSubsequence(xs: seq<string>, ys: seq<string>)
    decreases |ys|
  {
    if xs == [] then true
    else if ys == [] then false
    else if xs[0] == ys[0] then IsSubsequence(xs[1..], ys[1..])
    else IsSubsequence(xs, ys[1..])
  }

  /** `[c for c in required if c not in lowerMap]`. */
  function Missing(required: seq<string>, lowerMap: map<string, string>): (r: seq<string>)
    ensures forall c :: c in r <==> c in required && c !in lowerMap
    ensures forall c :: multiset(r)[c] == if c in lowerMap then 0 else multiset(required)[c]
    ensures IsSubsequence(r, required)
    decreases |required|
  {
    if required == [] then []
    else
      assert required == [required[0]] + required[1..];
      if required[0] !in lowerMap then [required[0]] + Missing(required[1..], lowerMap)
      else Missing(required[1..], lowerMap)
  }

  /** The three required columns, found case-insensitively, or the list of
      those that no header names. */
  function ResolveColumns(fieldnames: seq<string>): (r: Result<Columns>)
    ensures r.Ok? <==> forall c :: c in Required ==> HasColumn(fieldnames, c)
    ensures r.Err? ==>
      && r.error.MissingColumns?
      && r.error.found == fieldnames
      && r.error.missing != []
      && IsSubsequence(r.error.missing, Required)
      && forall c :: c in r.error.missing <==> c in Required && !HasColumn(fieldnames, c)
    ensures r.Ok? ==>
      && ResolvesTo(fieldnames, "species", r.value.species)
      && ResolvesTo(fieldnames, "genus", r.value.genus)
      && ResolvesTo(fieldnames, "kingdom", r.value.kingdom)
  {
    LowerMapKeys(fieldnames);
    LowerMapLastWins(fieldnames);
    var lowerMap := LowerMap(fieldnames);
    var missing := Missing(Required, lowerMap);
    assert "species" in Required && "genus" in Required && "kingdom" in Required;
    if missing != [] then Err(MissingColumns(missing, fieldnames))
    else Ok(Columns(lowerMap["species"], lowerMap["genus"], lowerMap["kingdom"]))
  }

  // ------------------------------------------------------------------- cells

  /** `row.get(col, "") or ""`: an absent or unfilled cell reads as empty. */
  function Cell(row: Row, col: string): string {
    if col !in row then ""
    else match row[col]
      case None => ""
      case Some(s) => s
  }

  /** A cell as the aggregation sees it: read as above, then stripped. */
  function Field(row: Row, col: string): string {
    Strip(Cell(row, col))
  }

  /** An absent or unfilled cell reads as the empty string, a filled one as
      its trim; either way the value neither starts nor ends with whitespace. */
  lemma FieldSpec(row: Row, col: string)
    ensures col !in row || row[col].None? ==> Field(row, col) == ""
    ensures col in row && row[col].Some? ==> IsTrimOf(Field(row, col), row[col].value)
    ensures var v := Field(row, col); v == [] || (!IsSpace(v[0]) && !IsSpace(v[|v| - 1]))
  {
    StripSpec(Cell(row, col));
  }

  // ------------------------------------------------------------- aggregation

  /** What one row adds to the search set. */
  function RowNames(cols: Columns, row: Row): set<string> {
    var sp := Field(row, cols.species);
    var genus := Field(row, cols.genus);
    if sp != "" then {sp} else if genus != "" then {genus} else {}
  }

  /** What one row adds to the species-to-kingdom pairs. */
  function RowPairs(cols: Columns, row: Row): set<(string, string)> {
    var sp := Field(row, cols.species);
    var kingdom := Field(row, cols.kingdom);
    if sp != "" && kingdom != "" then {(sp, kingdom)} else {}
  }

  /** The search set after the rows have been read in order. */
  function SearchNames(cols: Columns, rows: seq<Row>): set<string>
    decreases |rows|
  {
    if rows == [] then {}
    else SearchNames(cols, rows[..|rows| - 1]) + RowNames(cols, rows[|rows| - 1])
  }

  /** The pair set after the rows have been read in order. */
  function KingdomPairs(cols: Columns, rows: seq<Row>): set<(string, string)>
    decreases |rows|
  {
    if rows == [] then {}
    else KingdomPairs(cols, rows[..|rows| - 1]) + RowPairs(cols, rows[|rows| - 1])
  }

  /** The rule for search names: a row names its species when that is
      non-empty, and its genus only when the species is empty and the genus
      is not. */
  predicate NamedBy(cols: Columns, row: Row, x: string) {
    var sp := Field(row, cols.species);
    || (sp != "" && x == sp)
    || (sp == "" && x != "" && x == Field(row, cols.genus))
  }

  /** The rule for pairs: a row pairs its species with its kingdom when
      both are non-empty. */
  predicate PairedBy(cols: Columns, row: Row, p: (string, string)) {
    && p.0 != "" && p.1 != ""
    && p.0 == Field(row, cols.species)
    && p.1 == Field(row, cols.kingdom)
  }

  /** The search set holds exactly the names some row gives by the rule,
      and nothing else. */
  lemma {:induction false} SearchNamesSpec(cols: Columns, rows: seq<Row>)
    ensures forall x :: x in SearchNames(cols, rows) <==> exists row :: row in rows && NamedBy(cols, row, x)
    decreases |rows|
  {
    if rows != [] {
      var init, last := rows[..|rows| - 1], rows[|rows| - 1];
      SearchNamesSpec(cols, init);
      assert rows == init + [last];
      forall x ensures x in RowNames(cols, last) <==> NamedBy(cols, last, x) {
      }
    }
  }

  /** The pair set holds exactly the pairs some row gives by the rule. */
  lemma {:induction false} KingdomPairsSpec(cols: Columns, rows: seq<Row>)
    ensures forall p :: p in KingdomPairs(cols, rows) <==> exists row :: row in rows && PairedBy(cols, row, p)
    decreases |rows|
  {
    if rows != [] {
      var init, last := rows[..|rows| - 1], rows[|rows| - 1];
      KingdomPairsSpec(cols, init);
      assert rows == init + [last];
      forall p ensures p in RowPairs(cols, last) <==> PairedBy(cols, last, p) {
      }
    }
  }

  /** No name is empty, every pair has a non-empty species and kingdom, and
      the species of every pair is also in the search set. */
  lemma PairSpeciesSearched(cols: Columns, rows: seq<Row>)
    ensures "" !in SearchNames(cols, rows)
    ensures forall p :: p in KingdomPairs(cols, rows) ==>
      p.0 != "" && p.1 != "" && p.0 in SearchNames(cols, rows)
  {
    SearchNamesSpec(cols, rows);
    KingdomPairsSpec(cols, rows);
    forall p | p in KingdomPairs(cols, rows) ensures p.0 in SearchNames(cols, rows) {
      var row :| row in rows && PairedBy(cols, row, p);
      assert NamedBy(cols, row, p.0);
    }
  }

  /** Both sets depend only on which rows occur: not on their order and not
      on how often each occurs. */
  lemma AggregationOrderIndependent(cols: Columns, rows: seq<Row>, rows': seq<Row>)
    requires forall row :: row in rows <==> row in rows'
    ensures SearchNames(cols, rows) == SearchNames(cols, rows')
    ensures KingdomPairs(cols, rows) == KingdomPairs(cols, rows')
  {
    SearchNamesSpec(cols, rows);
    SearchNamesSpec(cols, rows');
    KingdomPairsSpec(cols, rows);
    KingdomPairsSpec(cols, rows');
  }

  /** Reading a row again that was already read changes neither set. */
  lemma DuplicateRowIgnored(cols: Columns, rows: seq<Row>, row: Row)
    requires row in rows
    ensures SearchNames(cols, rows + [row]) == SearchNames(cols, rows)
    ensures KingdomPairs(cols, rows + [row]) == KingdomPairs(cols, rows)
  {
    AggregationOrderIndependent(cols, rows + [row], rows);
  }

  lemma ReadOneMoreRow(cols: Columns, rows: seq<Row>, i: nat)
    requires i < |rows|
    ensures SearchNames(cols, rows[..i + 1]) == SearchNames(cols, rows[..i]) + RowNames(cols, rows[i])
    ensures KingdomPairs(cols, rows[..i + 1]) == KingdomPairs(cols, rows[..i]) + RowPairs(cols, rows[i])
  {
    assert rows[..i + 1][..i] == rows[..i];
  }

  /** The body of the loop over the data rows: read the three cells of one
      row and add what they give to the two sets. */
  method ReadRow(cols: Columns, row: Row, search: set<string>, pairs: set<(string, string)>)
    returns (search': set<string>, pairs': set<(string, string)>)
    ensures search' == search + RowNames(cols, row)
    ensures pairs' == pairs + RowPairs(cols, row)
  {
    search', pairs' := search, pairs;
    var sp := Field(row, cols.species);
    var genus := Field(row, cols.genus);
    var kingdom := Field(row, cols.kingdom);
    if sp != "" {
      search' := search' + {sp};
      if kingdom != "" {
        pairs' := pairs' + {(sp, kingdom)};
      }
    } else if genus != "" {
      search' := search' + {genus};
    }
  }

  /** The loop over the data rows: counts every row and fills the search
      set and the pair set. */
  method Aggregate(cols: Columns, rows: seq<Row>)
    returns (search: set<string>, pairs: set<(string, string)>, count: nat)
    ensures count == |rows|
    ensures search == SearchNames(cols, rows)
    ensures pairs == KingdomPairs(cols, rows)
  {
    search, pairs, count := {}, {}, 0;
    for i := 0 to |rows|
      invariant count == i
      invariant search == SearchNames(cols, rows[..i])
      invariant pairs == KingdomPairs(cols, rows[..i])
    {
      count := count + 1;
      search, pairs := ReadRow(cols, rows[i], search, pairs);
      ReadOneMoreRow(cols, rows, i);
    }
    assert rows[..|rows|] == rows;
  }

  // ---------------------------------------------------------------- emission

  /** The search file: each name followed by a line feed. */
  function RenderLines(names: seq<string>): string
    decreases |names|
  {
    if names == [] then "" else names[0] + "\n" + RenderLines(names[1..])
  }

  lemma {:induction false} RenderLinesAppend(names: seq<string>, x: string)
    ensures RenderLines(names + [x]) == RenderLines(names) + x + "\n"
    decreases |names|
  {
    if names != [] {
      assert (names + [x])[1..] == names[1..] + [x];
      RenderLinesAppend(names[1..], x);
    }
  }

  /** Position of the first line feed, or the length when there is none. */
  function LineEnd(s: string): (i: nat)
    ensures i <= |s|
    ensures i < |s| ==> s[i] == '\n'
    ensures forall k :: 0 <= k < i ==> s[k] != '\n'
    decreases |s|
  {
    if s == [] || s[0] == '\n' then 0 else 1 + LineEnd(s[1..])
  }

  /** A text cut into lines at its line feeds, as a reader of the search
      file sees it. */
  function SplitLines(s: string): seq<string>
    decreases |s|
  {
    if s == [] then []
    else
      var i := LineEnd(s);
      if i == |s| then [s] else [s[..i]] + SplitLines(s[i + 1..])
  }

  /** The first line of a text that starts with a line free of line feeds. */
  lemma SplitFirstLine(x: string, rest: string)
    requires '\n' !in x
    ensures SplitLines(x + "\n" + rest) == [x] + SplitLines(rest)
  {
    var s := x + "\n" + rest;
    assert s[|x|] == '\n';
    assert forall k :: 0 <= k < |x| ==> s[k] == x[k];
    assert LineEnd(s) == |x|;
    assert s[..|x|] == x && s[|x| + 1..] == rest;
  }

  /** Reading the search file back line by line gives the list that was
      written, as long as no name holds a line feed. */
  lemma {:induction false} SplitRenderRoundTrip(names: seq<string>)
    requires forall k :: 0 <= k < |names| ==> '\n' !in names[k]
    ensures SplitLines(RenderLines(names)) == names
    decreases |names|
  {
    if names != [] {
      SplitFirstLine(names[0], RenderLines(names[1..]));
      SplitRenderRoundTrip(names[1..]);
      assert names == [names[0]] + names[1..];
    }
  }

  /** `for name in sorted(search): write(name + "\n")`. */
  method EmitSearchList(search: set<string>) returns (names: seq<string>, text: string)
    ensures StrictlySorted(names, StringLess)
    ensures forall x :: x in names <==> x in search
    ensures |names| == |search|
    ensures text == RenderLines(names)
  {
    StringLessIsStrictTotalOrder();
    names := SortSet(search, StringLess);
    text := "";
    for i := 0 to |names|
      invariant text == RenderLines(names[..i])
    {
      RenderLinesAppend(names[..i], names[i]);
      assert names[..i + 1] == names[..i] + [names[i]];
      text := text + names[i] + "\n";
    }
    assert names[..|names|] == names;
  }

  /** `for sp, kd in sorted(pairs): writer.writerow([sp, kd])`: the rows of
      the species-to-kingdom file, in order. */
  method EmitKingdomTable(pairs: set<(string, string)>) returns (table: seq<(string, string)>)
    ensures StrictlySorted(table, PairLess)
    ensures forall p :: p in table <==> p in pairs
    ensures |table| == |pairs|
  {
    PairLessIsStrictTotalOrder();
    table := SortSet(pairs, PairLess);
  }

  /** The emitted lists depend only on which rows occur: any two runs over
      the same rows, in any order and with any repetitions, write the same
      files. */
  lemma EmissionDeterministic(
    cols: Columns, rows: seq<Row>, rows': seq<Row>,
    names: seq<string>, names': seq<string>,
    table: seq<(string, string)>, table': seq<(string, string)>)
    requires forall row :: row in rows <==> row in rows'
    requires StrictlySorted(names, StringLess) && StrictlySorted(names', StringLess)
    requires forall x :: x in names <==> x in SearchNames(cols, rows)
    requires forall x :: x in names' <==> x in SearchNames(cols, rows')
    requires StrictlySorted(table, PairLess) && StrictlySorted(table', PairLess)
    requires forall p :: p in table <==> p in KingdomPairs(cols, rows)
    requires forall p :: p in table' <==> p in KingdomPairs(cols, rows')
    ensures names == names' && table == table'
  {
    AggregationOrderIndependent(cols, rows, rows');
    StringLessIsStrictTotalOrder();
    PairLessIsStrictTotalOrder();
    SortedUnique(names, names', StringLess);
    SortedUnique(table, table', PairLess);
  }

  // -------------------------------------------------------------------- main

  /** `main()` once the file is open: guess the delimiter from the first
      line (what `readline()` returns, so empty only for an empty file), read
      the table with it, resolve the columns and stop if any is
      missing, then aggregate the rows and emit both lists. */
  method Run(firstLine: string, parse: char -> Table) returns (r: Result<Report>)
    ensures firstLine == [] ==> r == Err(EmptyInput)
    ensures firstLine != [] ==>
      var t := parse(DetectDelimiter(firstLine).value);
      var cols := ResolveColumns(Header(t));
      && (cols.Err? ==> r == Err(cols.error))
      && (cols.Ok? ==>
        && r.Ok?
        && r.value.rowsRead == |t.rows|
        && StrictlySorted(r.value.searchNames, StringLess)
        && (forall x :: x in r.value.searchNames <==> x in SearchNames(cols.value, t.rows))
        && |r.value.searchNames| == |SearchNames(cols.value, t.rows)|
        && r.value.searchText == RenderLines(r.value.searchNames)
        && StrictlySorted(r.value.kingdomTable, PairLess)
        && (forall p :: p in r.value.kingdomTable <==> p in KingdomPairs(cols.value, t.rows))
        && |r.value.kingdomTable| == |KingdomPairs(cols.value, t.rows)|)
  {
    var delimiter := DetectDelimiter(firstLine);
    if delimiter.Err? {
      return Err(delimiter.error);
    }
    var t := parse(delimiter.value);
    var cols := ResolveColumns(Header(t));
    if cols.Err? {
      return Err(cols.error);
    }
    var search, pairs, count := Aggregate(cols.value, t.rows);
    var names, text := EmitSearchList(search);
    var table := EmitKingdomTable(pairs);
    r := Ok(Report(count, names, text, table));
  }
}
