/** auto_tagging/table_utils.py: picking the financial-statement tables out of
    a filing, cleaning the parsed grid, and turning table rows into the
    context strings the table tagger reads. */
module TableUtils {
  import opened Wrappers
  import opened Strings
  import opened Utils

  // ---------------------------------------------------------------------------
  // clean_results

  /** Keeps the `{key: label}` pairs whose key is longer than one character,
      in order, so that a lone digit is never searched for in the page. */
  function CleanResults(results: seq<Pair>): (r: seq<Pair>)
    ensures forall p :: p in r <==> p in results && |p.text| > 1
    ensures |r| <= |results|
  {
    if results == [] then []
    else (if |results[0].text| > 1 then [results[0]] else []) + CleanResults(results[1..])
  }

  lemma {:induction false} CleanResultsAppend(a: seq<Pair>, b: seq<Pair>)
    ensures CleanResults(a + b) == CleanResults(a) + CleanResults(b)
    decreases |a|
  {
    if a != [] {
      assert (a + b)[0] == a[0];
      assert (a + b)[1..] == a[1..] + b;
      CleanResultsAppend(a[1..], b);
    } else {
      assert a + b == b;
    }
  }

  /** Cleaning twice is cleaning once. */
  lemma {:induction false} CleanResultsIdempotent(results: seq<Pair>)
    ensures CleanResults(CleanResults(results)) == CleanResults(results)
    decreases |results|
  {
    if results != [] {
      var head := if |results[0].text| > 1 then [results[0]] else [];
      CleanResultsAppend(head, CleanResults(results[1..]));
      CleanResultsIdempotent(results[1..]);
      assert CleanResults(head) == head;
    }
  }

  // ---------------------------------------------------------------------------
  // parse_text

  /** The caption keywords, in the dictionary's iteration order, and the
      statement each one names. */
  const WantedKeys: seq<string> := ["BALANCE", "OPERATIONS", "SHAREHOLDERS’", "CASH FLOW", "EQUITY"]
  const WantedNames: seq<string> := [
    "CONDENSED CONSOLIDATED BALANCE SHEETS",
    "CONSOLIDATED STATEMENTS OF OPERATIONS AND COMPREHENSIVE LOSS",
    "CONSOLIDATED STATEMENTS OF CHANGES IN SHAREHOLDERS’ EQUITY",
    "CONDENSED CONSOLIDATED STATEMENTS OF CASH FLOWS",
    "CONSOLIDATED STATEMENTS OF EQUITY"]
  const Shareholders: string := "CONSOLIDATED STATEMENTS OF CHANGES IN SHAREHOLDERS’ EQUITY"

  /** Newlines and tabs become spaces, each double space (one pass) a single
      space, then everything is upper-cased. */
  function CaptionText(s: string): string
  {
    Upper(Replace(Replace(Replace(s, "\n", " "), "\t", " "), "  ", " "))
  }

  /** The first keyword at or after `j` occurring in `t`. */
  function FirstKey(t: string, j: nat): (r: Option<nat>)
    requires j <= |WantedKeys|
    ensures r.Some? ==> j <= r.value < |WantedKeys| && Contains(t, WantedKeys[r.value])
                        && forall k :: j <= k < r.value ==> !Contains(t, WantedKeys[k])
    ensures r.None? ==> forall k :: j <= k < |WantedKeys| ==> !Contains(t, WantedKeys[k])
    decreases |WantedKeys| - j
  {
    if j == |WantedKeys| then None
    else if Contains(t, WantedKeys[j]) then Some(j)
    else FirstKey(t, j + 1)
  }

  /** The statement named by the first keyword found in the cleaned caption;
      `None` when no keyword occurs. */
  function ParseText(text: string): (r: Option<string>)
    ensures r.Some? <==> exists j :: 0 <= j < |WantedKeys| && Contains(CaptionText(text), WantedKeys[j])
    ensures r.Some? ==> exists j :: 0 <= j < |WantedKeys| && r.value == WantedNames[j]
                          && Contains(CaptionText(text), WantedKeys[j])
                          && forall k :: 0 <= k < j ==> !Contains(CaptionText(text), WantedKeys[k])
  {
    match FirstKey(CaptionText(text), 0)
    case None => None
    case Some(j) => Some(WantedNames[j])
  }

  lemma UpperKeepsCharOut(s: string, c: char)
    requires c !in s && !('A' <= c <= 'Z')
    ensures c !in Upper(s)
  {
    forall i | 0 <= i < |s|
      ensures Upper(s)[i] != c
    {
      assert s[i] != c;
    }
  }

  /** The cleaned caption has no newline and no tab left. */
  lemma CaptionTextClean(s: string)
    ensures '\n' !in CaptionText(s) && '\t' !in CaptionText(s)
  {
    var a := Replace(s, "\n", " ");
    var b := Replace(a, "\t", " ");
    var c := Replace(b, "  ", " ");
    ReplaceRemovesChar(s, '\n', " ");
    ReplaceKeepsCharOut(a, "\t", " ", '\n');
    ReplaceRemovesChar(a, '\t', " ");
    ReplaceKeepsCharOut(b, "  ", " ", '\n');
    ReplaceKeepsCharOut(b, "  ", " ", '\t');
    UpperKeepsCharOut(c, '\n');
    UpperKeepsCharOut(c, '\t');
  }

  // ---------------------------------------------------------------------------
  // The table-selection rule of save_html_statements_tables (comment markers)

  /** What lies between two consecutive page markers: the text outside the
      tables and the tables themselves, in document order. */
  datatype Page<T> = Page(caption: string, tables: seq<T>)

  /** A table chosen for the statement it was found under. Its position in
      the output is the running `table_indx` of its file name. */
  datatype Chosen<T> = Chosen(name: string, table: T)

  /** The pages a filing looks at: all of them for a 10-K, otherwise those
      between the first 15 markers. */
  function UsedPages<T>(pages: seq<Page<T>>, tenK: bool): (r: seq<Page<T>>)
    ensures tenK ==> r == pages
    ensures !tenK ==> r == pages[..Min(|pages|, 14)]
  {
    if tenK then pages else pages[..Min(|pages|, 14)]
  }

  /** A page names a statement when it has a table and a caption of 11 to 499
      characters in which a keyword occurs. */
  predicate Qualifies<T>(p: Page<T>)
  {
    p.tables != [] && 10 < |p.caption| < 500 && ParseText(p.caption).Some?
  }

  /** The tables one page contributes: every table for the shareholders'
      equity statement, only the first for any other statement. */
  function PageTables<T>(p: Page<T>): seq<Chosen<T>>
  {
    if !Qualifies(p) then []
    else
      var name := ParseText(p.caption).value;
      if name == Shareholders then seq(|p.tables|, k requires 0 <= k < |p.tables| => Chosen(name, p.tables[k]))
      else [Chosen(name, p.tables[0])]
  }

  /** Each table a page contributes is one of its own, under the statement
      name its caption gives. */
  lemma PageTablesCount<T>(p: Page<T>)
    ensures !Qualifies(p) ==> PageTables(p) == []
    ensures Qualifies(p) && ParseText(p.caption).value == Shareholders ==> |PageTables(p)| == |p.tables|
    ensures Qualifies(p) && ParseText(p.caption).value != Shareholders ==>
              |PageTables(p)| == 1 && PageTables(p)[0].table == p.tables[0]
  {
  }

  lemma PageTablesFromPage<T>(p: Page<T>, k: nat)
    requires k < |PageTables(p)|
    ensures Qualifies(p) && PageTables(p)[k].name == ParseText(p.caption).value && PageTables(p)[k].table in p.tables
  {
  }

  /** The tables chosen from the first `n` pages. */
  function ChosenTables<T>(pages: seq<Page<T>>, n: nat): seq<Chosen<T>>
    requires n <= |pages|
  {
    if n == 0 then [] else ChosenTables(pages, n - 1) + PageTables(pages[n - 1])
  }

  lemma ChosenTablesUnfold<T>(pages: seq<Page<T>>, n: nat)
    requires n <= |pages|
    ensures ChosenTables(pages, 0) == []
    ensures 0 < n ==> ChosenTables(pages, n) == ChosenTables(pages, n - 1) + PageTables(pages[n - 1])
  {
  }

  /** Every chosen table comes from a qualifying page and carries the
      statement name that page's caption gives. */
  lemma {:induction false} ChosenFromQualifyingPages<T>(pages: seq<Page<T>>, n: nat, k: nat)
    requires n <= |pages| && k < |ChosenTables(pages, n)|
    ensures exists i :: 0 <= i < n && Qualifies(pages[i]) && ChosenTables(pages, n)[k].table in pages[i].tables
                        && ChosenTables(pages, n)[k].name == ParseText(pages[i].caption).value
  {
    // Each page's tables are taken from PageTablesFromPage.
    hide ChosenTables, PageTables;
    ChosenTablesUnfold(pages, n);
    var prev := ChosenTables(pages, n - 1);
    var here := PageTables(pages[n - 1]);
    if k < |prev| {
      ChosenFromQualifyingPages(pages, n - 1, k);
    } else {
      assert ChosenTables(pages, n)[k] == here[k - |prev|];
      PageTablesFromPage(pages[n - 1], k - |prev|);
    }
  }

  function SelectStatementTablesSpec<T>(pages: seq<Page<T>>, tenK: bool): seq<Chosen<T>>
  {
    var used := UsedPages(pages, tenK);
    ChosenTables(used, |used|)
  }

  /** One page of the loop: the caption tests, then every table for the
      shareholders' statement or the first table for any other. */
  method PageStep<T>(p: Page<T>) returns (out: seq<Chosen<T>>)
    ensures out == PageTables(p)
  {
    out := [];
    if p.tables != [] {
      var minimal := |p.caption|;
      if 10 < minimal < 500 {
        var name := ParseText(p.caption);
        if name == Some(Shareholders) {
          var k := 0;
          while k < |p.tables|
            invariant k <= |p.tables|
            invariant out == seq(k, j requires 0 <= j < k => Chosen(name.value, p.tables[j]))
          {
            out := out + [Chosen(name.value, p.tables[k])];
            k := k + 1;
          }
        } else if name.Some? {
          out := [Chosen(name.value, p.tables[0])];
        }
      }
    }
  }

  /** The loop over marker pairs: each qualifying page saves its tables,
      numbering them as it goes. */
  method SelectStatementTables<T>(pages: seq<Page<T>>, tenK: bool) returns (chosen: seq<Chosen<T>>)
    ensures chosen == SelectStatementTablesSpec(pages, tenK)
  {
    // Each turn is matched against one unfolding of ChosenTables.
    hide ChosenTables, PageTables, UsedPages;
    var used := UsedPages(pages, tenK);
    chosen := [];
    ChosenTablesUnfold(used, 0);
    var i := 0;
    while i < |used|
      invariant i <= |used|
      invariant chosen == ChosenTables(used, i)
    {
      var here := PageStep(used[i]);
      ChosenTablesUnfold(used, i + 1);
      chosen := chosen + here;
      i := i + 1;
    }
  }

  /** Outside a 10-K, nothing is taken from a page past the fourteenth
      (the first 15 markers bound 14 pages). */
  lemma OnlyFirstPagesOutsideTenK<T>(pages: seq<Page<T>>, k: nat)
    requires k < |SelectStatementTablesSpec(pages, false)|
    ensures exists i :: 0 <= i < 14 && i < |pages| && Qualifies(pages[i])
                        && SelectStatementTablesSpec(pages, false)[k].table in pages[i].tables
  {
    var used := UsedPages(pages, false);
    var r := ChosenTables(used, |used|);
    ChosenFromQualifyingPages(used, |used|, k);
    var i :| 0 <= i < |used| && Qualifies(used[i]) && r[k].table in used[i].tables
             && r[k].name == ParseText(used[i].caption).value;
    assert used[i] == pages[i];
  }

  // ---------------------------------------------------------------------------
  // The parsed grid: get_table, get_column_df, merge_df, drop_empty_cols,
  // create_header

  /** One DataFrame cell: missing (`NaN`) or a string. */
  datatype Cell = NaN | Str(s: string)

  /** A DataFrame with `width` positional columns. */
  datatype Frame<T> = Frame(width: nat, rows: seq<seq<T>>)
  {
    predicate Valid()
    {
      forall i :: 0 <= i < |rows| ==> |rows[i]| == width
    }
  }

  /** The positions at which `mask` holds, in increasing order. */
  function Indices(mask: seq<bool>): (r: seq<nat>)
    ensures forall k :: 0 <= k < |r| ==> r[k] < |mask| && mask[r[k]]
    ensures forall j :: 0 <= j < |mask| && mask[j] ==> j in r
    ensures forall k, l :: 0 <= k < l < |r| ==> r[k] < r[l]
    decreases |mask|
  {
    if mask == [] then []
    else
      var n := |mask| - 1;
      var prev := Indices(mask[..n]);
      var r := if mask[n] then prev + [n] else prev;
      IndicesStep(mask, prev, r);
      r
  }

  /** The last position extends the positions of the rest of the mask. */
  lemma IndicesStep(mask: seq<bool>, prev: seq<nat>, r: seq<nat>)
    requires mask != [] && r == if mask[|mask| - 1] then prev + [|mask| - 1] else prev
    requires forall k :: 0 <= k < |prev| ==> prev[k] < |mask| - 1 && mask[..|mask| - 1][prev[k]]
    requires forall j :: 0 <= j < |mask| - 1 && mask[..|mask| - 1][j] ==> j in prev
    requires forall k, l :: 0 <= k < l < |prev| ==> prev[k] < prev[l]
    ensures forall k :: 0 <= k < |r| ==> r[k] < |mask| && mask[r[k]]
    ensures forall j :: 0 <= j < |mask| && mask[j] ==> j in r
    ensures forall k, l :: 0 <= k < l < |r| ==> r[k] < r[l]
  {
    var n := |mask| - 1;
    assert forall j :: 0 <= j < n ==> mask[..n][j] == mask[j];
  }

  lemma {:induction false} IndicesNone(mask: seq<bool>)
    requires forall j :: 0 <= j < |mask| ==> !mask[j]
    ensures Indices(mask) == []
    decreases |mask|
  {
    if mask != [] {
      IndicesNone(mask[..|mask| - 1]);
    }
  }

  /** The columns at positions `cols`, renumbered from 0. */
  function Columns<T>(f: Frame<T>, cols: seq<nat>): (r: Frame<T>)
    requires f.Valid() && forall k :: 0 <= k < |cols| ==> cols[k] < f.width
    ensures r.Valid() && r.width == |cols| && |r.rows| == |f.rows|
    ensures forall i, k :: 0 <= i < |r.rows| && 0 <= k < |cols| ==> r.rows[i][k] == f.rows[i][cols[k]]
  {
    Frame(|cols|, seq(|f.rows|, i requires 0 <= i < |f.rows| =>
                        seq(|cols|, k requires 0 <= k < |cols| => f.rows[i][cols[k]])))
  }

  /** The rows at positions `keep`, renumbered from 0. */
  function RowsAt<T>(f: Frame<T>, keep: seq<nat>): (r: Frame<T>)
    requires f.Valid() && forall k :: 0 <= k < |keep| ==> keep[k] < |f.rows|
    ensures r.Valid() && r.width == f.width && |r.rows| == |keep|
    ensures forall k :: 0 <= k < |keep| ==> r.rows[k] == f.rows[keep[k]]
  {
    Frame(f.width, seq(|keep|, k requires 0 <= k < |keep| => f.rows[keep[k]]))
  }

  /** The `str.replace` chain of get_table: `$`, `,` and `)` removed, `(`
      turned into `-`. */
  function Scrub(s: string): (r: string)
    ensures '$' !in r && ',' !in r && ')' !in r && '(' !in r
    ensures |r| <= |s|
  {
    if s == [] then []
    else
      (if s[0] == '$' || s[0] == ',' || s[0] == ')' then []
       else if s[0] == '(' then "-" else [s[0]]) + Scrub(s[1..])
  }

  /** A cleaned cell; one that cleaning empties becomes missing. */
  predicate CellOk(c: Cell)
  {
    c.Str? ==> c.s != [] && '$' !in c.s && ',' !in c.s && ')' !in c.s && '(' !in c.s
  }

  predicate CellsOk(f: Frame<Cell>)
    requires f.Valid()
  {
    forall i, j :: 0 <= i < |f.rows| && 0 <= j < f.width ==> CellOk(f.rows[i][j])
  }

  function CleanCell(c: Cell): (r: Cell)
    ensures CellOk(r)
  {
    match c
    case NaN => NaN
    case Str(s) => if Scrub(s) == [] then NaN else Str(Scrub(s))
  }

  function Scrubbed(f: Frame<Cell>): (r: Frame<Cell>)
    requires f.Valid()
    ensures r.Valid() && r.width == f.width && |r.rows| == |f.rows| && CellsOk(r)
  {
    Frame(f.width, seq(|f.rows|, i requires 0 <= i < |f.rows| =>
                         seq(f.width, j requires 0 <= j < f.width => CleanCell(f.rows[i][j]))))
  }

  predicate ColumnFilled(f: Frame<Cell>, j: nat)
    requires f.Valid() && j < f.width
  {
    exists i :: 0 <= i < |f.rows| && f.rows[i][j] != NaN
  }

  predicate RowFilled(row: seq<Cell>)
  {
    exists j :: 0 <= j < |row| && row[j] != NaN
  }

  /** Filled in some row after the first. */
  predicate BodyFilled(f: Frame<Cell>, j: nat)
    requires f.Valid() && j < f.width
  {
    exists i :: 1 <= i < |f.rows| && f.rows[i][j] != NaN
  }

  /** `dropna(axis=1, how="all")` */
  function DropBlankColumns(f: Frame<Cell>): (r: Frame<Cell>)
    requires f.Valid() && CellsOk(f)
    ensures r.Valid() && |r.rows| == |f.rows| && CellsOk(r)
  {
    Columns(f, Indices(seq(f.width, j requires 0 <= j < f.width => ColumnFilled(f, j))))
  }

  /** `dropna(axis=0, how="all")` */
  function DropBlankRows(f: Frame<Cell>): (r: Frame<Cell>)
    requires f.Valid() && CellsOk(f)
    ensures r.Valid() && r.width == f.width && CellsOk(r)
    ensures forall i :: 0 <= i < |r.rows| ==> RowFilled(r.rows[i])
  {
    var keep := Indices(seq(|f.rows|, i requires 0 <= i < |f.rows| => RowFilled(f.rows[i])));
    RowsAt(f, keep)
  }

  /** The mask step: columns missing in every row after the first go. */
  function DropBodyBlankColumns(f: Frame<Cell>): (r: Frame<Cell>)
    requires f.Valid() && CellsOk(f)
    ensures r.Valid() && |r.rows| == |f.rows| && CellsOk(r)
  {
    Columns(f, Indices(seq(f.width, j requires 0 <= j < f.width => BodyFilled(f, j))))
  }

  /** `fillna("")` */
  function FillNa(f: Frame<Cell>): (r: Frame<string>)
    requires f.Valid()
    ensures r.Valid() && r.width == f.width && |r.rows| == |f.rows|
    ensures forall i, j :: 0 <= i < |r.rows| && 0 <= j < r.width ==>
              r.rows[i][j] == (if f.rows[i][j].Str? then f.rows[i][j].s else "")
  {
    Frame(f.width, seq(|f.rows|, i requires 0 <= i < |f.rows| =>
                         seq(f.width, j requires 0 <= j < f.width =>
                               if f.rows[i][j].Str? then f.rows[i][j].s else "")))
  }

  /** get_table: the first parsed table, cleaned, with blank columns, blank
      rows and then columns blank below the first row dropped, and the
      remaining blanks read as `""`. An empty table list raises. */
  function GetTable(tables: seq<Frame<Cell>>): (r: Result<Frame<string>>)
    requires forall k :: 0 <= k < |tables| ==> tables[k].Valid()
    ensures r.Failure? <==> tables == []
    ensures r.Failure? ==> r.error == IndexError
    ensures r.Success? ==> r.value.Valid()
  {
    if tables == [] then Failure(IndexError)
    else Success(FillNa(Cleaned(tables[0])))
  }

  /** The cleaned frame before `fillna`. */
  function Cleaned(t: Frame<Cell>): (r: Frame<Cell>)
    requires t.Valid()
    ensures r.Valid() && CellsOk(r)
  {
    DropBodyBlankColumns(DropBlankRows(DropBlankColumns(Scrubbed(t))))
  }

  /** Every cell of the cleaned table is free of `$`, `,`, `)` and `(`. */
  lemma GetTableScrubbed(tables: seq<Frame<Cell>>, i: nat, j: nat)
    requires forall k :: 0 <= k < |tables| ==> tables[k].Valid()
    requires GetTable(tables).Success?
    requires i < |GetTable(tables).value.rows| && j < GetTable(tables).value.width
    ensures var c := GetTable(tables).value.rows[i][j];
            '$' !in c && ',' !in c && ')' !in c && '(' !in c
  {
    var f := Cleaned(tables[0]);
    assert CellOk(f.rows[i][j]);
  }

  /** Every column the mask step keeps is filled in some row after the first. */
  lemma BodyColumnsFilled(f: Frame<Cell>, j: nat)
    requires f.Valid() && CellsOk(f) && j < DropBodyBlankColumns(f).width
    ensures exists i :: 1 <= i < |f.rows| && DropBodyBlankColumns(f).rows[i][j] != NaN
  {
    var mask := seq(f.width, j requires 0 <= j < f.width => BodyFilled(f, j));
    var cols := Indices(mask);
    assert DropBodyBlankColumns(f) == Columns(f, cols);
    assert mask[cols[j]];
    var i :| 1 <= i < |f.rows| && f.rows[i][cols[j]] != NaN;
    assert Columns(f, cols).rows[i][j] == f.rows[i][cols[j]];
  }

  /** The mask step keeps a value in every filled row after the first. */
  lemma BodyRowsFilled(f: Frame<Cell>, i: nat)
    requires f.Valid() && CellsOk(f) && 1 <= i < |f.rows| && RowFilled(f.rows[i])
    ensures exists k :: 0 <= k < DropBodyBlankColumns(f).width && DropBodyBlankColumns(f).rows[i][k] != NaN
  {
    var mask := seq(f.width, j requires 0 <= j < f.width => BodyFilled(f, j));
    var cols := Indices(mask);
    assert DropBodyBlankColumns(f) == Columns(f, cols);
    var j0 :| 0 <= j0 < |f.rows[i]| && f.rows[i][j0] != NaN;
    assert BodyFilled(f, j0);
    assert mask[j0];
    var k :| 0 <= k < |cols| && cols[k] == j0;
    assert Columns(f, cols).rows[i][k] == f.rows[i][j0];
  }

  /** A filled cell of a scrubbed frame reads as a non-empty string. */
  lemma FilledCellKept(c: Frame<Cell>, i: nat, j: nat)
    requires c.Valid() && CellsOk(c) && i < |c.rows| && j < c.width && c.rows[i][j] != NaN
    ensures FillNa(c).rows[i][j] != ""
  {
    assert CellOk(c.rows[i][j]);
  }

  /** Every column left has a value in some row after the first. */
  lemma GetTableColumnsFilled(tables: seq<Frame<Cell>>, j: nat)
    requires forall k :: 0 <= k < |tables| ==> tables[k].Valid()
    requires GetTable(tables).Success? && j < GetTable(tables).value.width
    ensures exists i :: 1 <= i < |GetTable(tables).value.rows| && GetTable(tables).value.rows[i][j] != ""
  {
    var c := Cleaned(tables[0]);
    var f3 := DropBlankRows(DropBlankColumns(Scrubbed(tables[0])));
    assert c == DropBodyBlankColumns(f3);
    // Only the contracts of the cleaning steps are needed from here on.
    hide Cleaned, DropBodyBlankColumns, DropBlankRows, DropBlankColumns, Scrubbed, FillNa;
    BodyColumnsFilled(f3, j);
    var i :| 1 <= i < |f3.rows| && c.rows[i][j] != NaN;
    FilledCellKept(c, i, j);
    assert GetTable(tables).value == FillNa(c);
  }

  /** Every row after the first keeps a value. */
  lemma GetTableRowsFilled(tables: seq<Frame<Cell>>, i: nat)
    requires forall k :: 0 <= k < |tables| ==> tables[k].Valid()
    requires GetTable(tables).Success? && 1 <= i < |GetTable(tables).value.rows|
    ensures exists j :: 0 <= j < GetTable(tables).value.width && GetTable(tables).value.rows[i][j] != ""
  {
    var c := Cleaned(tables[0]);
    var f3 := DropBlankRows(DropBlankColumns(Scrubbed(tables[0])));
    assert c == DropBodyBlankColumns(f3);
    // Only the contracts of the cleaning steps are needed from here on.
    hide Cleaned, DropBodyBlankColumns, DropBlankRows, DropBlankColumns, Scrubbed, FillNa;
    BodyRowsFilled(f3, i);
    var k :| 0 <= k < c.width && c.rows[i][k] != NaN;
    FilledCellKept(c, i, k);
    assert GetTable(tables).value == FillNa(c);
  }

  /** A table with at most one row left ends with no columns at all. */
  lemma GetTableOneRowNoColumns(tables: seq<Frame<Cell>>)
    requires forall k :: 0 <= k < |tables| ==> tables[k].Valid()
    requires GetTable(tables).Success? && |GetTable(tables).value.rows| <= 1
    ensures GetTable(tables).value.width == 0
  {
    var f3 := DropBlankRows(DropBlankColumns(Scrubbed(tables[0])));
    var mask := seq(f3.width, j requires 0 <= j < f3.width => BodyFilled(f3, j));
    var cols := Indices(mask);
    assert Cleaned(tables[0]) == Columns(f3, cols);
    assert |f3.rows| <= 1;
    assert forall j :: 0 <= j < f3.width ==> !mask[j];
    IndicesNone(mask);
  }

  /** The first row at or after `i` whose first cell is filled
      (`|fs.rows|` when there is none). */
  function FirstFilledFrom(fs: Frame<string>, i: nat): (r: nat)
    requires fs.Valid() && fs.width > 0 && i <= |fs.rows|
    ensures i <= r <= |fs.rows|
    ensures r < |fs.rows| ==> fs.rows[r][0] != ""
    ensures forall k :: i <= k < r ==> fs.rows[k][0] == ""
    decreases |fs.rows| - i
  {
    if i == |fs.rows| || fs.rows[i][0] != "" then i else FirstFilledFrom(fs, i + 1)
  }

  /** The number of header rows: one past the first filled cell of the
      first column, or 1 when that column is blank or absent. */
  function TargetRow(fs: Frame<string>): (t: nat)
    requires fs.Valid()
    ensures t >= 1
    ensures (fs.width == 0 || forall k :: 0 <= k < |fs.rows| ==> fs.rows[k][0] == "") ==> t == 1
    ensures fs.width > 0 && (exists k :: 0 <= k < |fs.rows| && fs.rows[k][0] != "") ==>
              t - 1 < |fs.rows| && fs.rows[t - 1][0] != ""
    ensures fs.width > 0 ==> forall k :: 0 <= k < t - 1 && k < |fs.rows| ==> fs.rows[k][0] == ""
  {
    if fs.width == 0 then 1
    else
      var r := FirstFilledFrom(fs, 0);
      if r == |fs.rows| then 1
      else
        assert fs.rows[r][0] != "";
        r + 1
  }

  /** The rows above the body: `iloc[:t]`. */
  function Band(fs: Frame<string>, t: nat): seq<seq<string>>
  {
    fs.rows[..Min(t, |fs.rows|)]
  }

  /** One column of the band, merged with `" ".join`. */
  function ColumnText(band: seq<seq<string>>, j: nat): string
    requires forall i :: 0 <= i < |band| ==> j < |band[i]|
  {
    Join(seq(|band|, i requires 0 <= i < |band| => band[i][j]), " ")
  }

  /** The merged header band: one row of the per-column merges, an empty
      merge read as missing, and the row dropped when every merge is
      empty. */
  function HeaderBand(fs: Frame<string>, t: nat): (r: Frame<Cell>)
    requires fs.Valid()
    ensures r.Valid() && r.width == fs.width && |r.rows| <= 1
    ensures |r.rows| == 1 <==> exists j :: 0 <= j < fs.width && ColumnText(Band(fs, t), j) != ""
    ensures |r.rows| == 1 ==> forall j :: 0 <= j < fs.width ==>
              r.rows[0][j] == (if ColumnText(Band(fs, t), j) == "" then NaN else Str(ColumnText(Band(fs, t), j)))
  {
    var band := Band(fs, t);
    var row := seq(fs.width, j requires 0 <= j < fs.width =>
                     if ColumnText(band, j) == "" then NaN else Str(ColumnText(band, j)));
    if RowFilled(row) then Frame(fs.width, [row])
    else
      assert forall j :: 0 <= j < fs.width ==> row[j] == NaN && ColumnText(band, j) == "";
      Frame(fs.width, [])
  }

  /** get_column_df: scans the first column for its first filled cell,
      then merges the rows down to it into one header row. */
  method GetColumnDf(fs: Frame<string>) returns (column: Frame<Cell>, target: nat)
    requires fs.Valid()
    ensures target == TargetRow(fs)
    ensures column == HeaderBand(fs, target)
  {
    target := 0;
    if fs.width > 0 {
      var i := 0;
      while i < |fs.rows|
        invariant i <= |fs.rows|
        invariant forall k :: 0 <= k < i ==> fs.rows[k][0] == ""
        invariant target == 0
      {
        if fs.rows[i][0] != "" {
          target := i;
          break;
        }
        i := i + 1;
      }
    }
    target := target + 1;
    column := HeaderBand(fs, target);
  }

  lemma JoinEmpty(parts: seq<string>, sep: string)
    requires sep != [] && Join(parts, sep) == []
    ensures |parts| == 0 || (|parts| == 1 && parts[0] == [])
  {
  }

  /** When the first column has a filled cell, the header row survives and
      its first cell holds that column's merged text. */
  lemma HeaderKeptWhenLabelled(fs: Frame<string>)
    requires fs.Valid() && fs.width > 0
    requires exists k :: 0 <= k < |fs.rows| && fs.rows[k][0] != ""
    ensures |HeaderBand(fs, TargetRow(fs)).rows| == 1
    ensures HeaderBand(fs, TargetRow(fs)).rows[0][0].Str?
  {
    var t := TargetRow(fs);
    var band := Band(fs, t);
    var parts := seq(|band|, i requires 0 <= i < |band| => band[i][0]);
    assert |band| == t;
    assert parts[t - 1] == fs.rows[t - 1][0] != "";
    if ColumnText(band, 0) == "" {
      JoinEmpty(parts, " ");
      assert false;
    }
  }

  /** The body: the rows from `t` on, all of them strings. */
  function BodyFrame(fs: Frame<string>, t: nat): (r: Frame<Cell>)
    requires fs.Valid()
    ensures r.Valid() && r.width == fs.width && |r.rows| == |fs.rows| - Min(t, |fs.rows|)
    ensures forall i, j :: 0 <= i < |r.rows| && 0 <= j < r.width ==> r.rows[i][j] == Str(fs.rows[Min(t, |fs.rows|) + i][j])
  {
    var start := Min(t, |fs.rows|);
    Frame(fs.width, seq(|fs.rows| - start, i requires 0 <= i < |fs.rows| - start =>
                          seq(fs.width, j requires 0 <= j < fs.width => Str(fs.rows[start + i][j]))))
  }

  /** merge_df: the header frame above the body when there is one. */
  function MergeDf(column: Option<Frame<Cell>>, body: Frame<Cell>): (r: Frame<Cell>)
    requires column.Some? ==> column.value.Valid() && column.value.width == body.width
    requires body.Valid()
    ensures r.Valid() && r.width == body.width
    ensures column.None? ==> r.rows == body.rows
    ensures column.Some? ==> |r.rows| == |column.value.rows| + |body.rows|
    ensures column.Some? ==> r.rows[..|column.value.rows|] == column.value.rows
                             && r.rows[|column.value.rows|..] == body.rows
  {
    match column
    case None => body
    case Some(c) => Frame(body.width, c.rows + body.rows)
  }

  /** `len(str(val))`: a missing cell prints as `nan`. */
  function CellLength(c: Cell): nat
  {
    match c
    case NaN => 3
    case Str(s) => |s|
  }

  /** How many of the first `n` cells of column `j` print longer than one
      character. */
  function FilledCount(f: Frame<Cell>, j: nat, n: nat): (c: nat)
    requires f.Valid() && j < f.width && n <= |f.rows|
    ensures c <= n
  {
    if n == 0 then 0
    else FilledCount(f, j, n - 1) + (if CellLength(f.rows[n - 1][j]) > 1 then 1 else 0)
  }

  /** A column with only one or two such cells. */
  predicate Sparse(f: Frame<Cell>, j: nat)
    requires f.Valid() && j < f.width
  {
    var c := FilledCount(f, j, |f.rows|);
    c == 1 || c == 2
  }

  /** The positions of the columns drop_empty_cols keeps: exactly those that
      are not sparse, in their original order. */
  function KeptColumnIndices(f: Frame<Cell>): (r: seq<nat>)
    requires f.Valid()
    ensures forall j :: 0 <= j < f.width ==> (j in r <==> !Sparse(f, j))
    ensures forall k :: 0 <= k < |r| ==> r[k] < f.width
    ensures forall k, l :: 0 <= k < l < |r| ==> r[k] < r[l]
  {
    var mask := seq(f.width, j requires 0 <= j < f.width => !Sparse(f, j));
    var r := Indices(mask);
    assert forall j :: 0 <= j < f.width ==> mask[j] == !Sparse(f, j);
    r
  }

  /** The frame without its sparse columns: every row kept, and column k of
      the result is the k-th non-sparse column of `f`. */
  function KeptColumns(f: Frame<Cell>): (r: Frame<Cell>)
    requires f.Valid()
    ensures r.Valid() && |r.rows| == |f.rows| && r.width == |KeptColumnIndices(f)|
    ensures forall i, k :: 0 <= i < |r.rows| && 0 <= k < r.width ==> r.rows[i][k] == f.rows[i][KeptColumnIndices(f)[k]]
  {
    Columns(f, KeptColumnIndices(f))
  }

  /** drop_empty_cols: collects the sparse columns, then drops them. */
  method DropEmptyCols(f: Frame<Cell>) returns (r: Frame<Cell>)
    requires f.Valid()
    ensures r == KeptColumns(f)
  {
    ghost var sparse := seq(f.width, j requires 0 <= j < f.width => Sparse(f, j));
    var drop: seq<nat> := [];
    for j := 0 to f.width
      invariant drop == Indices(sparse[..j])
    {
      var count := FilledCount(f, j, |f.rows|);
      assert sparse[..j + 1][..j] == sparse[..j];
      if count == 1 || count == 2 {
        drop := drop + [j];
      }
    }
    assert sparse[..f.width] == sparse;
    var keep := seq(f.width, j requires 0 <= j < f.width => j !in drop);
    assert keep == seq(f.width, j requires 0 <= j < f.width => !Sparse(f, j));
    r := Columns(f, Indices(keep));
  }

  lemma {:induction false} FilledCountSameCells(f: Frame<Cell>, j: nat, g: Frame<Cell>, k: nat, n: nat)
    requires f.Valid() && g.Valid() && j < f.width && k < g.width && n <= |f.rows| && n <= |g.rows|
    requires forall i :: 0 <= i < n ==> f.rows[i][j] == g.rows[i][k]
    ensures FilledCount(f, j, n) == FilledCount(g, k, n)
  {
    if n > 0 {
      FilledCountSameCells(f, j, g, k, n - 1);
    }
  }

  lemma {:induction false} IndicesAll(mask: seq<bool>)
    requires forall j :: 0 <= j < |mask| ==> mask[j]
    ensures Indices(mask) == seq(|mask|, j requires 0 <= j < |mask| => j)
    decreases |mask|
  {
    if mask != [] {
      IndicesAll(mask[..|mask| - 1]);
    }
  }

  /** Dropping the sparse columns leaves no sparse column: a second pass
      changes nothing. */
  lemma DropEmptyColsIdempotent(f: Frame<Cell>)
    requires f.Valid()
    ensures KeptColumns(KeptColumns(f)) == KeptColumns(f)
  {
    var cols := KeptColumnIndices(f);
    var r := KeptColumns(f);
    assert r == Columns(f, cols);
    var mask := seq(r.width, k requires 0 <= k < r.width => !Sparse(r, k));
    forall k | 0 <= k < r.width
      ensures mask[k]
    {
      FilledCountSameCells(f, cols[k], r, k, |f.rows|);
    }
    IndicesAll(mask);
    var r2 := Columns(r, Indices(mask));
    assert r2.width == r.width;
    assert forall i :: 0 <= i < |r.rows| ==> r2.rows[i] == r.rows[i];
  }

  /** A DataFrame whose first row has become the column names. */
  datatype Sheet = Sheet(names: seq<Cell>, body: Frame<Cell>)

  /** `x.str.replace("-", "").replace("—", "")`: every hyphen deleted, then a
      cell that is exactly an em dash blanked. */
  function Undash(c: Cell): (r: Cell)
    ensures c.NaN? <==> r.NaN?
    ensures r.Str? ==> '-' !in r.s && r.s != "—"
  {
    match c
    case NaN => NaN
    case Str(s) => var t := RemoveChar(s, '-'); if t == "—" then Str("") else Str(t)
  }

  /** A cell with no hyphen that is not an em dash passes unchanged. */
  lemma UndashKeepsClean(c: Cell)
    requires c.Str? ==> '-' !in c.s && c.s != "—"
    ensures Undash(c) == c
  {
    if c.Str? {
      RemoveCharAbsent(c.s, '-');
    }
  }

  /** create_header: the first row becomes the column names and the rest are
      undashed; a frame with no rows raises. */
  function CreateHeader(f: Frame<Cell>): (r: Result<Sheet>)
    requires f.Valid()
    ensures r.Failure? <==> f.rows == []
    ensures r.Failure? ==> r.error == IndexError
    ensures r.Success? ==> r.value.names == f.rows[0] && r.value.body.Valid()
                           && r.value.body.width == f.width && |r.value.body.rows| == |f.rows| - 1
    ensures r.Success? ==> forall i, j :: 0 <= i < |r.value.body.rows| && 0 <= j < f.width ==>
              r.value.body.rows[i][j] == Undash(f.rows[i + 1][j])
  {
    if f.rows == [] then Failure(IndexError)
    else
      Success(Sheet(f.rows[0], Frame(f.width, seq(|f.rows| - 1, i requires 0 <= i < |f.rows| - 1 =>
                                                   seq(f.width, j requires 0 <= j < f.width => Undash(f.rows[i + 1][j]))))))
  }

  /** What get_excel_statements_tables hands back: a frame with a header, or
      the frame as it was when making the header raised. */
  datatype Table = Headed(sheet: Sheet) | Headerless(frame: Frame<Cell>)

  /** The header frame above the body. */
  function Merged(fs: Frame<string>): (r: Frame<Cell>)
    requires fs.Valid()
    ensures r.Valid() && r.width == fs.width
  {
    var t := TargetRow(fs);
    MergeDf(Some(HeaderBand(fs, t)), BodyFrame(fs, t))
  }

  function ExcelTable(tables: seq<Frame<Cell>>): Result<Table>
    requires forall k :: 0 <= k < |tables| ==> tables[k].Valid()
  {
    match GetTable(tables)
    case Failure(e) => Failure(e)
    case Success(fs) =>
      var final := KeptColumns(Merged(fs));
      match CreateHeader(final)
      case Failure(_) => Success(Headerless(final))
      case Success(sheet) => Success(Headed(sheet))
  }

  /** get_excel_statements_tables up to the header (the later column
      de-duplication is not part of this model). */
  method GetExcelStatementsTables(tables: seq<Frame<Cell>>) returns (r: Result<Table>)
    requires forall k :: 0 <= k < |tables| ==> tables[k].Valid()
    ensures r == ExcelTable(tables)
  {
    var parsed := GetTable(tables);
    if parsed.Failure? {
      return Failure(parsed.error);
    }
    var fs := parsed.value;
    var column, target := GetColumnDf(fs);
    var body := BodyFrame(fs, target);
    var final := MergeDf(Some(column), body);
    final := DropEmptyCols(final);
    var header := CreateHeader(final);
    if header.Failure? {
      r := Success(Headerless(final));
    } else {
      r := Success(Headed(header.value));
    }
  }

  /** The header fallback happens exactly when nothing is left to make a
      header from: no header text and no body row. */
  lemma ExcelHeaderlessIffEmpty(tables: seq<Frame<Cell>>)
    requires forall k :: 0 <= k < |tables| ==> tables[k].Valid()
    requires tables != []
    ensures ExcelTable(tables).Success?
    ensures ExcelTable(tables).value.Headerless? <==> |Merged(GetTable(tables).value).rows| == 0
    ensures ExcelTable(tables).value.Headed? ==>
              |ExcelTable(tables).value.sheet.body.rows| == |Merged(GetTable(tables).value).rows| - 1
  {
  }

  // ---------------------------------------------------------------------------
  // get_rows_in_table, clean_rows_and_tags

  /** A `<td>`: the text of its first `<span>` when it has one, and its own
      full text. */
  datatype Td = Td(span: Option<string>, text: string)

  /** A `<tr>`: its full text and its cells. */
  datatype Tr = Tr(text: string, cells: seq<Td>)

  function TdText(td: Td): string
  {
    match td.span
    case Some(t) => t
    case None => td.text
  }

  /** `[val.replace("$", "") for val in row_text if val != "$"]` */
  function DropDollars(vals: seq<string>): (r: seq<string>)
    ensures forall k :: 0 <= k < |r| ==> '$' !in r[k]
    ensures |r| <= |vals|
  {
    if vals == [] then []
    else (if vals[0] == "$" then [] else [RemoveChar(vals[0], '$')]) + DropDollars(vals[1..])
  }

  /** A row whose text is not all whitespace, by its cells without lone `$`
      cells; `None` when nothing is left. */
  function RowText(tr: Tr): (r: Option<seq<string>>)
    ensures r.Some? ==> r.value != [] && Strip(tr.text) != []
  {
    if Strip(tr.text) == [] then None
    else
      var row := DropDollars(seq(|tr.cells|, k requires 0 <= k < |tr.cells| => TdText(tr.cells[k])));
      if row == [] then None else Some(row)
  }

  /** A kept row: not empty, and no cell holds `$`. */
  predicate RowOk(row: seq<string>)
  {
    row != [] && forall k :: 0 <= k < |row| ==> '$' !in row[k]
  }

  /** The rows kept from the first `n` table rows. */
  function RowsInTable(trs: seq<Tr>, n: nat): (r: seq<seq<string>>)
    requires n <= |trs|
    ensures |r| <= n
    ensures forall i :: 0 <= i < |r| ==> RowOk(r[i])
  {
    if n == 0 then []
    else
      var prev := RowsInTable(trs, n - 1);
      match RowText(trs[n - 1])
      case None => prev
      case Some(row) =>
        assert RowOk(row);
        prev + [row]
  }

  /** The loop over one row's cells: each cell's span text, or its own
      text when it has no span. */
  method CellTexts(tr: Tr) returns (texts: seq<string>)
    ensures texts == seq(|tr.cells|, k requires 0 <= k < |tr.cells| => TdText(tr.cells[k]))
  {
    texts := [];
    for k := 0 to |tr.cells|
      invariant texts == seq(k, j requires 0 <= j < k => TdText(tr.cells[j]))
    {
      texts := texts + [TdText(tr.cells[k])];
    }
  }

  /** get_rows_in_table */
  method GetRowsInTable(trs: seq<Tr>) returns (rows: seq<seq<string>>)
    ensures rows == RowsInTable(trs, |trs|)
  {
    rows := [];
    for n := 0 to |trs|
      invariant rows == RowsInTable(trs, n)
    {
      var tr := trs[n];
      if Strip(tr.text) != [] {
        var texts := CellTexts(tr);
        var row := DropDollars(texts);
        assert RowText(tr) == (if row == [] then None else Some(row));
        if row != [] {
          rows := rows + [row];
        }
      }
    }
  }

  /** A table row whose text is whitespace only contributes nothing. */
  lemma BlankRowsSkipped(trs: seq<Tr>, n: nat)
    requires n < |trs| && Strip(trs[n].text) == []
    ensures RowsInTable(trs, n + 1) == RowsInTable(trs, n)
  {
  }

  /** `[val for val in row if len(val) > 1]` */
  function LongCells(row: seq<string>): (r: seq<string>)
    ensures forall k :: 0 <= k < |r| ==> |r[k]| > 1
  {
    if row == [] then []
    else (if |row[0]| > 1 then [row[0]] else []) + LongCells(row[1..])
  }

  /** The long cells are exactly the row's cells longer than one
      character. */
  lemma {:induction false} LongCellsMembers(row: seq<string>)
    ensures forall v :: v in LongCells(row) <==> v in row && |v| > 1
  {
    if row != [] {
      LongCellsMembers(row[1..]);
      assert row == [row[0]] + row[1..];
    }
  }

  /** `re.sub("[^0-9.]", "", val)` */
  function DigitsAndDots(s: string): (r: string)
    ensures forall k :: 0 <= k < |r| ==> IsDigit(r[k]) || r[k] == '.'
    ensures |r| <= |s|
  {
    if s == [] then []
    else (if IsDigit(s[0]) || s[0] == '.' then [s[0]] else []) + DigitsAndDots(s[1..])
  }

  /** One value cell as `{value: label}`: a cell of exactly two words is
      the value and its label, any other cell is a value labelled
      "Others". */
  function TagOf(cell: string): (p: Pair)
    ensures forall k :: 0 <= k < |p.text| ==> IsDigit(p.text[k]) || p.text[k] == '.'
  {
    var parts := SplitWs(cell);
    if |parts| == 2 then Pair(DigitsAndDots(parts[0]), parts[1])
    else Pair(DigitsAndDots(cell), "Others")
  }

  /** A cell that is not exactly two words is labelled "Others"; a cell of
      two words carries its second word as the label. */
  lemma TagOfLabel(cell: string)
    ensures |SplitWs(cell)| != 2 ==> TagOf(cell) == Pair(DigitsAndDots(cell), "Others")
    ensures |SplitWs(cell)| == 2 ==> TagOf(cell).tag == SplitWs(cell)[1]
  {
  }

  /** The context after the first `n` values: the row's first cell, then
      `" " + value` for each. */
  function RowContext(first: string, tags: seq<Pair>, n: nat): (r: string)
    requires n <= |tags|
    ensures |first| <= |r| && r[..|first|] == first
  {
    if n == 0 then first else RowContext(first, tags, n - 1) + " " + tags[n - 1].text
  }

  /** One row of clean_rows_and_tags, or `None` when it has fewer than two
      cells longer than one character. */
  function RowEntry(row: seq<string>): (r: Option<Entry>)
    ensures r.Some? <==> |LongCells(row)| > 1
    ensures r.Some? ==> |r.value.items| == |LongCells(row)| - 1
    ensures r.Some? ==> forall k :: 0 <= k < |r.value.items| ==> r.value.items[k] == TagOf(LongCells(row)[k + 1])
  {
    var long := LongCells(row);
    if |long| > 1 then
      var tags := seq(|long| - 1, k requires 0 <= k < |long| - 1 => TagOf(long[k + 1]));
      Some(Entry(RowContext(long[0], tags, |tags|), tags))
    else None
  }

  function CleanedRows(rows: seq<seq<string>>, n: nat): (r: seq<Entry>)
    requires n <= |rows|
    ensures |r| <= n
    ensures forall i :: 0 <= i < |r| ==> r[i].items != []
  {
    if n == 0 then []
    else
      var prev := CleanedRows(rows, n - 1);
      match RowEntry(rows[n - 1])
      case None => prev
      case Some(e) =>
        assert forall i :: 0 <= i < |prev| ==> (prev + [e])[i] == prev[i];
        prev + [e]
  }

  /** `val, usgaap_tag = tag.split()`, falling back to the whole cell and
      "Others" when the split does not give exactly two words. */
  method SplitTag(cell: string) returns (p: Pair)
    ensures p == TagOf(cell)
  {
    var parts := SplitWs(cell);
    var value, usGaapTag;
    if |parts| == 2 {
      value, usGaapTag := parts[0], parts[1];
    } else {
      value, usGaapTag := cell, "Others";
    }
    value := DigitsAndDots(value);
    p := Pair(value, usGaapTag);
  }

  /** The loop over a row's value cells: one tag each, the context
      growing by `" " + value`. */
  method TagCells(row: seq<string>) returns (context: string, tags: seq<Pair>)
    requires |row| > 1
    ensures tags == seq(|row| - 1, j requires 0 <= j < |row| - 1 => TagOf(row[j + 1]))
    ensures context == RowContext(row[0], tags, |tags|)
  {
    context := row[0];
    tags := [];
    for k := 1 to |row|
      invariant tags == seq(k - 1, j requires 0 <= j < k - 1 => TagOf(row[j + 1]))
      invariant context == RowContext(row[0], tags, k - 1)
    {
      var tag := SplitTag(row[k]);
      TagCellsStep(row, k, tags, tag);
      RowContextExtend(row[0], tags, tag);
      tags := tags + [tag];
      context := context + " " + tag.text;
    }
  }

  /** One turn of TagCells: the tags gain the next cell's tag. */
  lemma TagCellsStep(row: seq<string>, k: nat, tags: seq<Pair>, tag: Pair)
    requires 1 <= k < |row| && tag == TagOf(row[k])
    requires tags == seq(k - 1, j requires 0 <= j < k - 1 => TagOf(row[j + 1]))
    ensures tags + [tag] == seq(k, j requires 0 <= j < k => TagOf(row[j + 1]))
  {
    var want := seq(k, j requires 0 <= j < k => TagOf(row[j + 1]));
    forall j | 0 <= j < k
      ensures (tags + [tag])[j] == want[j]
    {
      if j < k - 1 {
        assert (tags + [tag])[j] == tags[j];
      }
    }
  }

  /** Appending a tag appends its text to the context. */
  lemma RowContextExtend(first: string, tags: seq<Pair>, tag: Pair)
    ensures RowContext(first, tags + [tag], |tags| + 1) == RowContext(first, tags, |tags|) + " " + tag.text
  {
    var after := tags + [tag];
    assert after[..|tags|] == tags[..|tags|];
    RowContextPrefix(first, tags, after, |tags|);
  }

  /** One row of clean_rows_and_tags. */
  method CleanRow(row0: seq<string>) returns (r: Option<Entry>)
    ensures r == RowEntry(row0)
  {
    var row := LongCells(row0);
    if |row| <= 1 {
      return None;
    }
    var context, tags := TagCells(row);
    r := Some(Entry(context, tags));
  }

  /** clean_rows_and_tags */
  method CleanRowsAndTags(rows: seq<seq<string>>) returns (out: seq<Entry>)
    ensures out == CleanedRows(rows, |rows|)
  {
    out := [];
    for n := 0 to |rows|
      invariant out == CleanedRows(rows, n)
    {
      var e := CleanRow(rows[n]);
      if e.Some? {
        out := out + [e.value];
      }
    }
  }

  lemma {:induction false} RowContextPrefix(first: string, a: seq<Pair>, b: seq<Pair>, n: nat)
    requires n <= |a| && n <= |b| && a[..n] == b[..n]
    ensures RowContext(first, a, n) == RowContext(first, b, n)
  {
    if n > 0 {
      assert a[..n - 1] == a[..n][..n - 1];
      assert b[..n - 1] == b[..n][..n - 1];
      assert a[n - 1] == a[..n][n - 1];
      assert b[n - 1] == b[..n][n - 1];
      RowContextPrefix(first, a, b, n - 1);
    }
  }

  lemma {:induction false} ContainsAppend(a: string, b: string, pat: string)
    requires Contains(a, pat)
    ensures Contains(a + b, pat)
    decreases |a|
  {
    if !(pat <= a) {
      assert (a + b)[1..] == a[1..] + b;
      ContainsAppend(a[1..], b, pat);
    }
  }

  lemma {:induction false} ContainsSuffix(a: string, b: string)
    ensures Contains(a + b, b)
    decreases |a|
  {
    if a == [] {
      assert a + b == b;
    } else {
      assert (a + b)[1..] == a[1..] + b;
      ContainsSuffix(a[1..], b);
    }
  }

  /** Every value of a row appears in its context, after a space. */
  lemma {:induction false} ContextHoldsValues(first: string, tags: seq<Pair>, n: nat, k: nat)
    requires k < n <= |tags|
    ensures Contains(RowContext(first, tags, n), " " + tags[k].text)
    decreases n
  {
    var prev := RowContext(first, tags, n - 1);
    assert RowContext(first, tags, n) == prev + (" " + tags[n - 1].text);
    if k == n - 1 {
      ContainsSuffix(prev, " " + tags[k].text);
    } else {
      ContextHoldsValues(first, tags, n - 1, k);
      ContainsAppend(prev, " " + tags[n - 1].text, " " + tags[k].text);
    }
  }

  // ---------------------------------------------------------------------------
  // align_context_and_columns_to_data

  /** The value keys of the first `n` extracted rows, in order. */
  function TableValues(text: seq<Entry>, n: nat): (r: seq<string>)
    requires n <= |text|
  {
    if n == 0 then []
    else TableValues(text, n - 1) + seq(|text[n - 1].items|, k requires 0 <= k < |text[n - 1].items| => text[n - 1].items[k].text)
  }

  /** The context in force at cell `j` of a row: `" "` until a cell whose
      value is not a key, then the last such value. */
  function ContextAt(vals: seq<string>, cells: seq<string>, convert: string -> string, j: nat): (r: string)
    requires j <= |cells|
    ensures (forall k :: 0 <= k < j ==> convert(cells[k]) in vals) ==> r == " "
    ensures (exists k :: 0 <= k < j && convert(cells[k]) !in vals) ==>
              exists k :: 0 <= k < j && r == convert(cells[k]) && r !in vals
                          && forall m :: k < m < j ==> convert(cells[m]) in vals
  {
    if j == 0 then " "
    else
      var v := convert(cells[j - 1]);
      if v !in vals then v
      else
        var r := ContextAt(vals, cells, convert, j - 1);
        ContextAtKeyCell(vals, cells, convert, j, r);
        r
  }

  /** A key cell leaves the context as it was. */
  lemma ContextAtKeyCell(vals: seq<string>, cells: seq<string>, convert: string -> string, j: nat, r: string)
    requires 0 < j <= |cells| && convert(cells[j - 1]) in vals
    requires (forall k :: 0 <= k < j - 1 ==> convert(cells[k]) in vals) ==> r == " "
    requires (exists k :: 0 <= k < j - 1 && convert(cells[k]) !in vals) ==>
               exists k :: 0 <= k < j - 1 && r == convert(cells[k]) && r !in vals
                           && forall m :: k < m < j - 1 ==> convert(cells[m]) in vals
    ensures (forall k :: 0 <= k < j ==> convert(cells[k]) in vals) ==> r == " "
    ensures (exists k :: 0 <= k < j && convert(cells[k]) !in vals) ==>
              exists k :: 0 <= k < j && r == convert(cells[k]) && r !in vals
                          && forall m :: k < m < j ==> convert(cells[m]) in vals
  {
    if exists k :: 0 <= k < j && convert(cells[k]) !in vals {
      var k0 :| 0 <= k0 < j && convert(cells[k0]) !in vals;
      assert k0 < j - 1;
      var k :| 0 <= k < j - 1 && r == convert(cells[k]) && r !in vals
               && forall m :: k < m < j - 1 ==> convert(cells[m]) in vals;
      assert forall m :: k < m < j ==> convert(cells[m]) in vals;
    }
  }

  /** One line per key cell among the first `n` cells of a row. */
  function RowLines(vals: seq<string>, names: seq<string>, cells: seq<string>, convert: string -> string, n: nat): (r: seq<string>)
    requires n <= |cells| == |names|
    ensures forall i :: 0 <= i < |r| ==> |r[i]| >= 8 && r[i][|r[i]| - 8..] == "==Others"
  {
    if n == 0 then []
    else
      var prev := RowLines(vals, names, cells, convert, n - 1);
      var v := convert(cells[n - 1]);
      if v in vals then
        var line := ContextAt(vals, cells, convert, n - 1) + " " + names[n - 1] + " " + v + "==Others";
        assert line[|line| - 8..] == "==Others";
        prev + [line]
      else prev
  }

  /** The column name of each key cell among the first `n` cells. */
  function RowColumns(vals: seq<string>, names: seq<string>, cells: seq<string>, convert: string -> string, n: nat): (r: seq<string>)
    requires n <= |cells| == |names|
    ensures forall i :: 0 <= i < |r| ==> r[i] in names
  {
    if n == 0 then []
    else
      var prev := RowColumns(vals, names, cells, convert, n - 1);
      if convert(cells[n - 1]) in vals then prev + [names[n - 1]] else prev
  }

  function AllLines(vals: seq<string>, names: seq<string>, rows: seq<seq<string>>, convert: string -> string, n: nat): (r: seq<string>)
    requires n <= |rows| && forall i :: 0 <= i < |rows| ==> |rows[i]| == |names|
    ensures forall i :: 0 <= i < |r| ==> |r[i]| >= 8 && r[i][|r[i]| - 8..] == "==Others"
  {
    if n == 0 then []
    else AllLines(vals, names, rows, convert, n - 1) + RowLines(vals, names, rows[n - 1], convert, |names|)
  }

  function AllColumns(vals: seq<string>, names: seq<string>, rows: seq<seq<string>>, convert: string -> string, n: nat): (r: seq<string>)
    requires n <= |rows| && forall i :: 0 <= i < |rows| ==> |rows[i]| == |names|
    ensures forall i :: 0 <= i < |r| ==> r[i] in names
  {
    if n == 0 then []
    else AllColumns(vals, names, rows, convert, n - 1) + RowColumns(vals, names, rows[n - 1], convert, |names|)
  }

  lemma AllUnfold(vals: seq<string>, names: seq<string>, rows: seq<seq<string>>, convert: string -> string, n: nat)
    requires n <= |rows| && forall i :: 0 <= i < |rows| ==> |rows[i]| == |names|
    ensures AllLines(vals, names, rows, convert, 0) == [] && AllColumns(vals, names, rows, convert, 0) == []
    ensures 0 < n ==> AllLines(vals, names, rows, convert, n)
                      == AllLines(vals, names, rows, convert, n - 1) + RowLines(vals, names, rows[n - 1], convert, |names|)
    ensures 0 < n ==> AllColumns(vals, names, rows, convert, n)
                      == AllColumns(vals, names, rows, convert, n - 1) + RowColumns(vals, names, rows[n - 1], convert, |names|)
  {
  }

  /** `" ".join([statement_name, row])` for every line. */
  function Prefixed(statement: string, lines: seq<string>): (r: seq<string>)
    ensures |r| == |lines|
    ensures forall i :: 0 <= i < |r| ==> r[i] == statement + " " + lines[i]
  {
    seq(|lines|, i requires 0 <= i < |lines| => statement + " " + lines[i])
  }

  lemma {:induction false} RowLinesColumns(vals: seq<string>, names: seq<string>, cells: seq<string>, convert: string -> string, n: nat)
    requires n <= |cells| == |names|
    ensures |RowLines(vals, names, cells, convert, n)| == |RowColumns(vals, names, cells, convert, n)|
  {
    if n > 0 {
      RowLinesColumns(vals, names, cells, convert, n - 1);
    }
  }

  /** The two lists returned are index-aligned: one column per context. */
  lemma {:induction false} AlignedLengths(vals: seq<string>, names: seq<string>, rows: seq<seq<string>>, convert: string -> string, n: nat)
    requires n <= |rows| && forall i :: 0 <= i < |rows| ==> |rows[i]| == |names|
    ensures |AllLines(vals, names, rows, convert, n)| == |AllColumns(vals, names, rows, convert, n)|
  {
    if n > 0 {
      AlignedLengths(vals, names, rows, convert, n - 1);
      RowLinesColumns(vals, names, rows[n - 1], convert, |names|);
    }
  }

  /** The loop over one row's cells, carrying the running context. */
  method AlignRow(vals: seq<string>, names: seq<string>, cells: seq<string>, convert: string -> string)
    returns (contexts: seq<string>, columns: seq<string>)
    requires |cells| == |names|
    ensures contexts == RowLines(vals, names, cells, convert, |names|)
    ensures columns == RowColumns(vals, names, cells, convert, |names|)
  {
    // Each turn is matched against AlignStep.
    hide RowLines, RowColumns, ContextAt;
    AlignStart(vals, names, cells, convert);
    contexts, columns := [], [];
    var context := " ";
    for j := 0 to |names|
      invariant contexts == RowLines(vals, names, cells, convert, j)
      invariant columns == RowColumns(vals, names, cells, convert, j)
      invariant context == ContextAt(vals, cells, convert, j)
    {
      var value := convert(cells[j]);
      AlignStep(vals, names, cells, convert, j);
      if value !in vals {
        context := value;
      } else {
        var line := context + " " + names[j] + " " + value + "==Others";
        contexts := contexts + [line];
        columns := columns + [names[j]];
      }
    }
  }

  lemma AlignStart(vals: seq<string>, names: seq<string>, cells: seq<string>, convert: string -> string)
    requires |cells| == |names|
    ensures RowLines(vals, names, cells, convert, 0) == [] && RowColumns(vals, names, cells, convert, 0) == []
    ensures ContextAt(vals, cells, convert, 0) == " "
  {
  }

  /** One cell of AlignRow: a key cell adds a line and a column, any other
      cell becomes the context. */
  lemma AlignStep(vals: seq<string>, names: seq<string>, cells: seq<string>, convert: string -> string, j: nat)
    requires j < |cells| == |names|
    ensures var v := convert(cells[j]);
            && RowLines(vals, names, cells, convert, j + 1)
               == (if v in vals then RowLines(vals, names, cells, convert, j)
                                       + [ContextAt(vals, cells, convert, j) + " " + names[j] + " " + v + "==Others"]
                   else RowLines(vals, names, cells, convert, j))
            && RowColumns(vals, names, cells, convert, j + 1)
               == (if v in vals then RowColumns(vals, names, cells, convert, j) + [names[j]]
                   else RowColumns(vals, names, cells, convert, j))
            && ContextAt(vals, cells, convert, j + 1) == (if v in vals then ContextAt(vals, cells, convert, j) else v)
  {
  }

  /** align_context_and_columns_to_data. The dataframe is its column names
      and its rows of cells; `convert` is `str(convert_float_to_int(.))`. */
  method AlignContextAndColumnsToData(text: seq<Entry>, names: seq<string>, rows: seq<seq<string>>, statement: string,
                                      convert: string -> string)
    returns (contexts: seq<string>, columns: seq<string>)
    requires forall i :: 0 <= i < |rows| ==> |rows[i]| == |names|
    ensures var vals := TableValues(text, |text|);
            contexts == Prefixed(Lower(statement), AllLines(vals, names, rows, convert, |rows|))
            && columns == AllColumns(vals, names, rows, convert, |rows|)
    ensures |contexts| == |columns|
  {
    var statementName := Lower(statement);
    var vals := CollectTableValues(text);
    var lines: seq<string>;
    lines, columns := AlignRows(vals, names, rows, convert);
    AlignedLengths(vals, names, rows, convert, |rows|);
    contexts := Prefixed(statementName, lines);
  }

  /** The `values` list: every tagged text of every entry, in order. */
  method CollectTableValues(text: seq<Entry>) returns (vals: seq<string>)
    ensures vals == TableValues(text, |text|)
  {
    vals := [];
    for n := 0 to |text|
      invariant vals == TableValues(text, n)
    {
      var tags := text[n].items;
      vals := vals + seq(|tags|, k requires 0 <= k < |tags| => tags[k].text);
    }
  }

  /** The loop over the rows, appending each row's lines and columns. */
  method AlignRows(vals: seq<string>, names: seq<string>, rows: seq<seq<string>>, convert: string -> string)
    returns (lines: seq<string>, columns: seq<string>)
    requires forall i :: 0 <= i < |rows| ==> |rows[i]| == |names|
    ensures lines == AllLines(vals, names, rows, convert, |rows|)
    ensures columns == AllColumns(vals, names, rows, convert, |rows|)
  {
    // Each turn is matched against one unfolding of AllLines and AllColumns.
    hide AllLines, AllColumns, RowLines, RowColumns;
    AllUnfold(vals, names, rows, convert, 0);
    lines, columns := [], [];
    for i := 0 to |rows|
      invariant lines == AllLines(vals, names, rows, convert, i)
      invariant columns == AllColumns(vals, names, rows, convert, i)
    {
      var rowContexts, rowColumns := AlignRow(vals, names, rows[i], convert);
      RowLinesColumns(vals, names, rows[i], convert, |names|);
      AllUnfold(vals, names, rows, convert, i + 1);
      if rowContexts != [] && rowColumns != [] {
        lines := lines + rowContexts;
        columns := columns + rowColumns;
      }
    }
  }
}
