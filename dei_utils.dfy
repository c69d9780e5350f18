/** auto_tagging/dei_utils.py: harvesting the cover page's text as token
    lists for the cover-page tagger, trimming its predictions, and grouping
    the tagged values under the row they came from. */
module DeiUtils {
  import opened Wrappers
  import opened Strings
  import opened Utils

  /** The two library calls the harvest goes through, left uninterpreted:
      nltk's sentence splitter and the text cleaner. */
  datatype Nlp = Nlp(sentences: string -> seq<string>, clean: string -> string)

  /** An HTML container (a `<div>`, `<p>` or `<table>`) as the harvest sees
      it: its full text, whether it holds a `<span>` or a `<table>`, the
      cell texts of each row of its first table, the texts of its `<p>`
      descendants, and the cell texts of each of its `<tr>` rows. */
  datatype Container = Container(text: string, hasSpan: bool, hasTable: bool,
                                 firstTableRows: seq<seq<string>>, ps: seq<string>,
                                 trRows: seq<seq<string>>)

  predicate AllNonEmpty(lists: seq<seq<string>>)
  {
    forall i :: 0 <= i < |lists| ==> [] !in lists[i]
  }

  lemma AllNonEmptyAppend(a: seq<seq<string>>, b: seq<seq<string>>)
    requires AllNonEmpty(a) && AllNonEmpty(b)
    ensures AllNonEmpty(a + b)
  {
    forall i | 0 <= i < |a + b|
      ensures [] !in (a + b)[i]
    {
      if i < |a| {
        assert (a + b)[i] == a[i];
      } else {
        assert (a + b)[i] == b[i - |a|];
      }
    }
  }

  // ---------------------------------------------------------------------------
  // The sentence step shared by every branch of collect_tokens

  /** `[clean(t) for t in tokens if len(clean(t)) >= 1]` */
  function CleanTokens(nlp: Nlp, tokens: seq<string>): (r: seq<string>)
    ensures forall k :: 0 <= k < |r| ==> r[k] != []
    ensures |r| <= |tokens|
  {
    if tokens == [] then []
    else (if |nlp.clean(tokens[0])| >= 1 then [nlp.clean(tokens[0])] else []) + CleanTokens(nlp, tokens[1..])
  }

  /** One token list per cleaned sentence of `text`, split at single
      spaces. */
  function TextTokens(nlp: Nlp, text: string): (r: seq<seq<string>>)
    ensures |r| == |nlp.sentences(text)|
  {
    var sentences := nlp.sentences(text);
    seq(|sentences|, i requires 0 <= i < |sentences| => CleanTokens(nlp, SplitOn(nlp.clean(sentences[i]), ' ')))
  }

  /** The sentence loop. */
  method SentenceTokens(nlp: Nlp, text: string) returns (ipText: seq<seq<string>>)
    ensures ipText == TextTokens(nlp, text)
  {
    var split := nlp.sentences(text);
    var sentences := seq(|split|, i requires 0 <= i < |split| => nlp.clean(split[i]));
    ipText := [];
    for i := 0 to |sentences|
      invariant ipText == seq(i, j requires 0 <= j < i => CleanTokens(nlp, SplitOn(sentences[j], ' ')))
    {
      var sentenceTokens := SplitOn(sentences[i], ' ');
      ipText := ipText + [CleanTokens(nlp, sentenceTokens)];
    }
  }

  // ---------------------------------------------------------------------------
  // Row mode

  lemma {:induction false} NonEmptySnoc(xs: seq<string>, x: string)
    ensures NonEmpty(xs + [x]) == NonEmpty(xs) + (if x == [] then [] else [x])
    decreases |xs|
  {
    if xs == [] {
      assert xs + [x] == [x];
    } else {
      assert (xs + [x])[1..] == xs[1..] + [x];
      NonEmptySnoc(xs[1..], x);
    }
  }

  /** The token lists of the first `n` rows: each row's non-empty cells
      joined by single spaces, rows with none skipped. */
  function RowsTokens(nlp: Nlp, rows: seq<seq<string>>, n: nat): (r: seq<seq<string>>)
    requires n <= |rows|
  {
    if n == 0 then []
    else
      var prev := RowsTokens(nlp, rows, n - 1);
      var row := NonEmpty(rows[n - 1]);
      if row == [] then prev else prev + TextTokens(nlp, Join(row, " "))
  }

  lemma RowsTokensUnfold(nlp: Nlp, rows: seq<seq<string>>, n: nat)
    requires n <= |rows|
    ensures RowsTokens(nlp, rows, 0) == []
    ensures 0 < n ==> RowsTokens(nlp, rows, n) ==
                        (if NonEmpty(rows[n - 1]) == [] then RowsTokens(nlp, rows, n - 1)
                         else RowsTokens(nlp, rows, n - 1) + TextTokens(nlp, Join(NonEmpty(rows[n - 1]), " ")))
  {
  }

  lemma NonEmptyEmpty()
    ensures NonEmpty([]) == []
  {
  }

  /** A row whose cells are all empty adds nothing. */
  lemma EmptyRowSkipped(nlp: Nlp, rows: seq<seq<string>>, n: nat)
    requires n < |rows| && forall k :: 0 <= k < |rows[n]| ==> rows[n][k] == []
    ensures RowsTokens(nlp, rows, n + 1) == RowsTokens(nlp, rows, n)
  {
    NonEmptyAllEmpty(rows[n]);
  }

  lemma {:induction false} NonEmptyAllEmpty(xs: seq<string>)
    requires forall k :: 0 <= k < |xs| ==> xs[k] == []
    ensures NonEmpty(xs) == []
    decreases |xs|
  {
    if xs != [] {
      NonEmptyAllEmpty(xs[1..]);
    }
  }

  /** The row loop: the cells with text, then the sentence step on their
      join. */
  method RowsStep(nlp: Nlp, rows: seq<seq<string>>) returns (out: seq<seq<string>>)
    ensures out == RowsTokens(nlp, rows, |rows|)
  {
    // Each turn is matched against one unfolding of RowsTokens.
    hide RowsTokens, NonEmpty, TextTokens, Join;
    RowsTokensUnfold(nlp, rows, 0);
    NonEmptyEmpty();
    out := [];
    for n := 0 to |rows|
      invariant out == RowsTokens(nlp, rows, n)
    {
      RowsTokensUnfold(nlp, rows, n + 1);
      var cells := rows[n];
      var row: seq<string> := [];
      for k := 0 to |cells|
        invariant row == NonEmpty(cells[..k])
      {
        NonEmptySnoc(cells[..k], cells[k]);
        assert cells[..k + 1] == cells[..k] + [cells[k]];
        if cells[k] != [] {
          row := row + [cells[k]];
        }
      }
      assert cells[..|cells|] == cells;
      if row != [] {
        var ipText := SentenceTokens(nlp, Join(row, " "));
        out := out + ipText;
      }
    }
  }

  /** The `<p>` texts among the first `n`, one sentence step each. */
  function PTokens(nlp: Nlp, ps: seq<string>, n: nat): (r: seq<seq<string>>)
    requires n <= |ps|
  {
    if n == 0 then [] else PTokens(nlp, ps, n - 1) + TextTokens(nlp, ps[n - 1])
  }

  lemma PTokensUnfold(nlp: Nlp, ps: seq<string>, n: nat)
    requires n <= |ps|
    ensures PTokens(nlp, ps, 0) == []
    ensures 0 < n ==> PTokens(nlp, ps, n) == PTokens(nlp, ps, n - 1) + TextTokens(nlp, ps[n - 1])
  {
  }

  // ---------------------------------------------------------------------------
  // collect_tokens

  /** The first test: a span without a table yields the full text. */
  function SpanText(nlp: Nlp, div: Container): (r: seq<seq<string>>)
  {
    if div.hasSpan && !div.hasTable then TextTokens(nlp, div.text) else []
  }

  /** The second test: a span with a table yields the first table's rows. */
  function SpanTable(nlp: Nlp, div: Container): (r: seq<seq<string>>)
  {
    if div.hasSpan && div.hasTable then RowsTokens(nlp, div.firstTableRows, |div.firstTableRows|) else []
  }

  /** The last test: with a span the full text again; without one the full
      text when there is no `<tr>`, and every row when there is. */
  function LastTest(nlp: Nlp, div: Container): (r: seq<seq<string>>)
  {
    if !div.hasSpan then
      (if div.trRows == [] then TextTokens(nlp, div.text) else RowsTokens(nlp, div.trRows, |div.trRows|))
    else TextTokens(nlp, div.text)
  }

  /** One container, through four independent tests: span without table,
      span with table, any `<p>` descendants (each one), and the last
      test. */
  function DivTokens(nlp: Nlp, div: Container): (r: seq<seq<string>>)
  {
    SpanText(nlp, div) + SpanTable(nlp, div) + PTokens(nlp, div.ps, |div.ps|) + LastTest(nlp, div)
  }

  /** The token lists `f` gives the first `n` items, in order. */
  function Flatten<T>(f: T -> seq<seq<string>>, xs: seq<T>, n: nat): seq<seq<string>>
    requires n <= |xs|
  {
    if n == 0 then [] else Flatten(f, xs, n - 1) + f(xs[n - 1])
  }

  lemma {:induction false} FlattenPrefix<T>(f: T -> seq<seq<string>>, xs: seq<T>, ys: seq<T>, n: nat)
    requires n <= |xs| && n <= |ys| && xs[..n] == ys[..n]
    ensures Flatten(f, xs, n) == Flatten(f, ys, n)
  {
    if n > 0 {
      assert xs[n - 1] == xs[..n][n - 1] == ys[n - 1];
      assert xs[..n - 1] == xs[..n][..n - 1];
      assert ys[..n - 1] == ys[..n][..n - 1];
      FlattenPrefix(f, xs, ys, n - 1);
    }
  }

  lemma {:induction false} FlattenAppend<T>(f: T -> seq<seq<string>>, a: seq<T>, b: seq<T>, n: nat)
    requires n <= |b|
    ensures Flatten(f, a + b, |a| + n) == Flatten(f, a, |a|) + Flatten(f, b, n)
  {
    if n == 0 {
      assert (a + b)[..|a|] == a[..|a|];
      FlattenPrefix(f, a + b, a, |a|);
    } else {
      FlattenAppend(f, a, b, n - 1);
      assert (a + b)[|a| + n - 1] == b[n - 1];
    }
  }

  /** The per-container step `DivTokens` as a function value. */
  function DivStepOf(nlp: Nlp): Container -> seq<seq<string>>
  {
    (d: Container) => DivTokens(nlp, d)
  }

  /** The token lists of the first `n` containers, in document order. */
  function Collected(nlp: Nlp, divs: seq<Container>, n: nat): seq<seq<string>>
    requires n <= |divs|
  {
    Flatten(DivStepOf(nlp), divs, n)
  }

  /** One pass of the container loop, test by test. */
  method DivStep(nlp: Nlp, div: Container) returns (out: seq<seq<string>>)
    ensures out == DivTokens(nlp, div)
  {
    // The token lists are only concatenated here; PTokens unfolds one turn at a time.
    hide TextTokens, RowsTokens, PTokens;
    PTokensUnfold(nlp, div.ps, 0);
    out := [];
    if div.hasSpan && !div.hasTable {
      var ipText := SentenceTokens(nlp, div.text);
      out := out + ipText;
    }
    if div.hasSpan && div.hasTable {
      var rows := RowsStep(nlp, div.firstTableRows);
      out := out + rows;
    }
    if div.ps != [] {
      for k := 0 to |div.ps|
        invariant out == SpanText(nlp, div) + SpanTable(nlp, div) + PTokens(nlp, div.ps, k)
      {
        var ipText := SentenceTokens(nlp, div.ps[k]);
        PTokensUnfold(nlp, div.ps, k + 1);
        out := out + ipText;
      }
    }
    if !div.hasSpan {
      if div.trRows == [] {
        var ipText := SentenceTokens(nlp, div.text);
        out := out + ipText;
      } else {
        var rows := RowsStep(nlp, div.trRows);
        out := out + rows;
      }
    } else {
      var ipText := SentenceTokens(nlp, div.text);
      out := out + ipText;
    }
  }

  /** collect_tokens */
  method CollectTokens(nlp: Nlp, divs: seq<Container>) returns (inputs: seq<seq<string>>)
    ensures inputs == Collected(nlp, divs, |divs|)
  {
    inputs := [];
    for n := 0 to |divs|
      invariant inputs == Collected(nlp, divs, n)
    {
      var tokens := DivStep(nlp, divs[n]);
      inputs := inputs + tokens;
    }
  }

  /** A container with a span, no table and no `<p>` yields its sentences
      twice in a row: the span test and the final `else` both fire. */
  lemma SpanOnlyTwice(nlp: Nlp, div: Container)
    requires div.hasSpan && !div.hasTable && div.ps == []
    ensures DivTokens(nlp, div) == TextTokens(nlp, div.text) + TextTokens(nlp, div.text)
  {
  }

  /** A container with a span and a table yields its first table's rows,
      then its `<p>` texts, then its full text. */
  lemma SpanAndTable(nlp: Nlp, div: Container)
    requires div.hasSpan && div.hasTable
    ensures DivTokens(nlp, div) == RowsTokens(nlp, div.firstTableRows, |div.firstTableRows|)
                                   + PTokens(nlp, div.ps, |div.ps|) + TextTokens(nlp, div.text)
  {
  }

  /** Without a span: the `<p>` texts, then the full text when there is no
      row, or every row. */
  lemma NoSpan(nlp: Nlp, div: Container)
    requires !div.hasSpan
    ensures div.trRows == [] ==> DivTokens(nlp, div) == PTokens(nlp, div.ps, |div.ps|) + TextTokens(nlp, div.text)
    ensures div.trRows != [] ==> DivTokens(nlp, div) == PTokens(nlp, div.ps, |div.ps|) + RowsTokens(nlp, div.trRows, |div.trRows|)
  {
  }

  /** Harvesting two runs of containers is harvesting each in turn. */
  lemma CollectedAppend(nlp: Nlp, a: seq<Container>, b: seq<Container>)
    ensures Collected(nlp, a + b, |a + b|) == Collected(nlp, a, |a|) + Collected(nlp, b, |b|)
  {
    var f := DivStepOf(nlp);
    assert |a + b| == |a| + |b|;
    FlattenAppend(f, a, b, |b|);
  }

  lemma CollectedSnoc(nlp: Nlp, divs: seq<Container>, n: nat)
    requires 0 < n <= |divs|
    ensures Collected(nlp, divs, n) == Collected(nlp, divs, n - 1) + DivTokens(nlp, divs[n - 1])
  {
  }

  lemma TextTokensNonEmpty(nlp: Nlp, text: string)
    ensures AllNonEmpty(TextTokens(nlp, text))
  {
    var r := TextTokens(nlp, text);
    forall i | 0 <= i < |r|
      ensures [] !in r[i]
    {
      var sentence := nlp.clean(nlp.sentences(text)[i]);
      assert r[i] == CleanTokens(nlp, SplitOn(sentence, ' '));
    }
  }

  lemma {:induction false} RowsTokensNonEmpty(nlp: Nlp, rows: seq<seq<string>>, n: nat)
    requires n <= |rows|
    ensures AllNonEmpty(RowsTokens(nlp, rows, n))
  {
    if n > 0 {
      RowsTokensNonEmpty(nlp, rows, n - 1);
      var row := NonEmpty(rows[n - 1]);
      if row != [] {
        TextTokensNonEmpty(nlp, Join(row, " "));
        AllNonEmptyAppend(RowsTokens(nlp, rows, n - 1), TextTokens(nlp, Join(row, " ")));
      }
    }
  }

  lemma {:induction false} PTokensNonEmpty(nlp: Nlp, ps: seq<string>, n: nat)
    requires n <= |ps|
    ensures AllNonEmpty(PTokens(nlp, ps, n))
  {
    if n > 0 {
      PTokensNonEmpty(nlp, ps, n - 1);
      TextTokensNonEmpty(nlp, ps[n - 1]);
      AllNonEmptyAppend(PTokens(nlp, ps, n - 1), TextTokens(nlp, ps[n - 1]));
    }
  }

  lemma DivTokensNonEmpty(nlp: Nlp, div: Container)
    ensures AllNonEmpty(DivTokens(nlp, div))
  {
    TextTokensNonEmpty(nlp, div.text);
    RowsTokensNonEmpty(nlp, div.firstTableRows, |div.firstTableRows|);
    RowsTokensNonEmpty(nlp, div.trRows, |div.trRows|);
    PTokensNonEmpty(nlp, div.ps, |div.ps|);
    var a, b, c, d := SpanText(nlp, div), SpanTable(nlp, div), PTokens(nlp, div.ps, |div.ps|), LastTest(nlp, div);
    AllNonEmptyAppend(a, b);
    AllNonEmptyAppend(a + b, c);
    AllNonEmptyAppend(a + b + c, d);
  }

  /** Every token collect_tokens emits is non-empty: each is a cleaned
      token whose cleaned form has at least one character. */
  lemma {:induction false} CollectedNonEmpty(nlp: Nlp, divs: seq<Container>, n: nat)
    requires n <= |divs|
    ensures AllNonEmpty(Collected(nlp, divs, n))
  {
    // The lists are only passed on; what each holds does not matter here.
    hide Collected, DivTokens;
    if n == 0 {
      CollectedZero(nlp, divs);
    } else {
      CollectedNonEmpty(nlp, divs, n - 1);
      DivTokensNonEmpty(nlp, divs[n - 1]);
      CollectedSnoc(nlp, divs, n);
      AllNonEmptyAppend(Collected(nlp, divs, n - 1), DivTokens(nlp, divs[n - 1]));
    }
  }

  lemma CollectedZero(nlp: Nlp, divs: seq<Container>)
    ensures Collected(nlp, divs, 0) == []
  {
  }

  // ---------------------------------------------------------------------------
  // process_p_tags and the page selection of split_page_and_extract_text

  /** The cover page as the harvest sees it: its `<div>`s, `<p>`s and
      `<table>`s, each in document order. */
  datatype CoverPage = CoverPage(divs: seq<Container>, ps: seq<Container>, tables: seq<Container>)

  /** `xs[1:]` */
  function Tail<T>(xs: seq<T>): seq<T>
  {
    if xs == [] then [] else xs[1..]
  }

  /** process_p_tags: every `<p>` but the first, then every table. */
  function ProcessPTags(nlp: Nlp, page: CoverPage): seq<seq<string>>
  {
    var ps := Tail(page.ps);
    Collected(nlp, ps, |ps|) + Collected(nlp, page.tables, |page.tables|)
  }

  /** The first `<p>` never contributes. */
  lemma ProcessPTagsIgnoresFirst(nlp: Nlp, page: CoverPage, first: Container)
    requires page.ps != []
    ensures ProcessPTags(nlp, page.(ps := [first] + page.ps[1..])) == ProcessPTags(nlp, page)
  {
    assert Tail([first] + page.ps[1..]) == page.ps[1..];
  }

  /** split_page_and_extract_text after parsing. `comments` and `hrs` count
      the page-comment markers and the `<hr>` tags; `page` is what lies
      before the first marker. Only that first page is read, and its first
      `<div>` is skipped. With no comment and a single `<hr>` the result
      variable is never bound. */
  function SplitPageAndExtractText(nlp: Nlp, comments: nat, hrs: nat, page: CoverPage): (r: Result<seq<seq<string>>>)
    ensures r.Failure? <==> comments == 0 && hrs == 1
    ensures r.Failure? ==> r.error == UnboundLocal
    ensures comments == 0 && hrs == 0 ==> r == Success([])
  {
    if comments > 0 then
      var divs := Tail(page.divs);
      if divs != [] && |divs| > 10 then
        var inputs := Collected(nlp, divs, |divs|);
        if inputs == [] then Success(ProcessPTags(nlp, page)) else Success(inputs)
      else if divs != [] && |divs| < 10 then
        Success(ProcessPTags(nlp, page))
      else
        Success(ProcessPTags(nlp, page))
    else if hrs > 0 then
      if hrs > 1 then
        var divs := Tail(page.divs);
        if divs != [] then Success(Collected(nlp, divs, |divs|))
        else
          var ps := Tail(page.ps);
          Success(Collected(nlp, ps, |ps|))
      else Failure(UnboundLocal)
    else Success([])
  }

  /** With page comments, more than ten `<div>`s after the first are
      harvested directly (falling back to the `<p>`s and tables when that
      yields nothing); any other count, ten included, goes to the `<p>`s and
      tables. */
  lemma CommentPageSelection(nlp: Nlp, comments: nat, hrs: nat, page: CoverPage)
    requires comments > 0
    ensures var divs := Tail(page.divs);
            var inputs := Collected(nlp, divs, |divs|);
            SplitPageAndExtractText(nlp, comments, hrs, page) ==
              Success(if |divs| > 10 && inputs != [] then inputs else ProcessPTags(nlp, page))
  {
  }

  // ---------------------------------------------------------------------------
  // remove_unpredicted_rows

  /** `xs[1:-1]` */
  function Inner<T>(xs: seq<T>): (r: seq<T>)
    ensures |r| == if |xs| >= 2 then |xs| - 2 else 0
    ensures forall i :: 0 <= i < |r| ==> r[i] == xs[i + 1]
  {
    if |xs| >= 2 then xs[1..|xs| - 1] else []
  }

  /** The words of a rebuilt sentence without its first and last. */
  function RowWords(sentence: string): seq<string>
  {
    Inner(SplitOn(Strip(sentence), ' '))
  }

  /** A row is kept when its inner words and inner labels are equally many
      and more than one. */
  predicate KeepRow<L>(sentence: string, labels: seq<L>)
  {
    |RowWords(sentence)| == |Inner(labels)| && |RowWords(sentence)| > 1 && |Inner(labels)| > 1
  }

  /** The words and labels kept from the first `n` zipped rows. */
  function KeptRows<L>(sentences: seq<string>, labels: seq<seq<L>>, n: nat): (r: (seq<string>, seq<L>))
    requires n <= |sentences| && n <= |labels|
    ensures |r.0| == |r.1|
  {
    if n == 0 then ([], [])
    else
      var prev := KeptRows(sentences, labels, n - 1);
      if KeepRow(sentences[n - 1], labels[n - 1])
      then (prev.0 + RowWords(sentences[n - 1]), prev.1 + Inner(labels[n - 1]))
      else prev
  }

  /** remove_unpredicted_rows */
  method RemoveUnpredictedRows<L>(sentences: seq<string>, labels: seq<seq<L>>)
    returns (newWords: seq<string>, newLabels: seq<L>)
    ensures (newWords, newLabels) == KeptRows(sentences, labels, Min(|sentences|, |labels|))
    ensures |newWords| == |newLabels|
  {
    newWords, newLabels := [], [];
    var bound := if |sentences| < |labels| then |sentences| else |labels|;
    var n := 0;
    while n < bound
      invariant n <= bound
      invariant newWords == KeptRows(sentences, labels, n).0 && newLabels == KeptRows(sentences, labels, n).1
    {
      KeptRowsStep(sentences, labels, n);
      newWords, newLabels := KeepStep(newWords, newLabels, sentences[n], labels[n]);
      n := n + 1;
    }
  }

  lemma KeptRowsStep<L>(sentences: seq<string>, labels: seq<seq<L>>, n: nat)
    requires n < |sentences| && n < |labels|
    ensures var prev := KeptRows(sentences, labels, n);
            KeptRows(sentences, labels, n + 1)
            == if KeepRow(sentences[n], labels[n]) then (prev.0 + RowWords(sentences[n]), prev.1 + Inner(labels[n])) else prev
  {
  }

  /** One iteration of remove_unpredicted_rows. */
  method KeepStep<L>(words0: seq<string>, labels0: seq<L>, sentence: string, labels: seq<L>)
    returns (newWords: seq<string>, newLabels: seq<L>)
    ensures KeepRow(sentence, labels) ==> newWords == words0 + RowWords(sentence) && newLabels == labels0 + Inner(labels)
    ensures !KeepRow(sentence, labels) ==> newWords == words0 && newLabels == labels0
  {
    newWords, newLabels := words0, labels0;
    var words := RowWords(sentence);
    var rowLabels := Inner(labels);
    if |words| == |rowLabels| {
      if |words| > 1 && |rowLabels| > 1 {
        newWords := newWords + words;
        newLabels := newLabels + rowLabels;
      }
    }
  }

  /** A row of at most three labels (so at most one inner label) is always
      dropped. */
  lemma ShortRowsDropped<L>(sentences: seq<string>, labels: seq<seq<L>>, n: nat)
    requires n < |sentences| && n < |labels| && |labels[n]| <= 3
    ensures KeptRows(sentences, labels, n + 1) == KeptRows(sentences, labels, n)
  {
  }

  // ---------------------------------------------------------------------------
  // format_processed_result

  /** A tagged value goes under a row when its text occurs in the row and is
      longer than one character. */
  predicate Placed(row: string, item: Pair)
  {
    Contains(row, item.text) && |item.text| > 1
  }

  /** The dictionary's invariant: rows distinct, each with at least one item,
      every item placed under its row. */
  predicate DictOk(d: seq<Entry>)
  {
    (forall i, j :: 0 <= i < j < |d| ==> d[i].row != d[j].row)
    && (forall i :: 0 <= i < |d| ==> d[i].items != [])
    && (forall i, k :: 0 <= i < |d| && 0 <= k < |d[i].items| ==> Placed(d[i].row, d[i].items[k]))
  }

  /** The position of `row` among the dictionary's keys. */
  function KeyIndex(d: seq<Entry>, row: string): (r: Option<nat>)
    ensures r.Some? ==> r.value < |d| && d[r.value].row == row
    ensures r.None? ==> forall i :: 0 <= i < |d| ==> d[i].row != row
  {
    if d == [] then None
    else if d[|d| - 1].row == row then Some(|d| - 1)
    else KeyIndex(d[..|d| - 1], row)
  }

  /** `output_dict[row] = [item]`, or `.append(item)` when the row is
      already a key. */
  function AddItem(d: seq<Entry>, row: string, item: Pair): (r: seq<Entry>)
  {
    match KeyIndex(d, row)
    case None => d + [Entry(row, [item])]
    case Some(i) => d[i := Entry(row, d[i].items + [item])]
  }

  lemma AddItemOk(d: seq<Entry>, row: string, item: Pair)
    requires DictOk(d) && Placed(row, item)
    ensures DictOk(AddItem(d, row, item))
  {
    var r := AddItem(d, row, item);
    match KeyIndex(d, row)
    case None =>
    case Some(i) =>
      forall j, k | 0 <= j < |r| && 0 <= k < |r[j].items|
        ensures Placed(r[j].row, r[j].items[k])
      {
        if j == i && k < |d[i].items| {
          assert r[j].items[k] == d[i].items[k];
        }
      }
  }

  /** The dictionary after testing the first `m` items against `row`. */
  function AfterItems(d: seq<Entry>, row: string, items: seq<Pair>, m: nat): seq<Entry>
    requires m <= |items|
  {
    if m == 0 then d
    else
      var prev := AfterItems(d, row, items, m - 1);
      if Placed(row, items[m - 1]) then AddItem(prev, row, items[m - 1]) else prev
  }

  /** The dictionary after the first `n` input rows. */
  function Grouping(inputs: seq<string>, items: seq<Pair>, n: nat): seq<Entry>
    requires n <= |inputs|
  {
    if n == 0 then [] else AfterItems(Grouping(inputs, items, n - 1), inputs[n - 1], items, |items|)
  }

  predicate Filer(row: string)
  {
    Contains(Lower(row), "filer")
  }

  /** The dictionary without the rows mentioning "filer" in any case, of
      its first `n` entries. */
  function WithoutFilers(d: seq<Entry>, n: nat): seq<Entry>
    requires n <= |d|
  {
    if n == 0 then []
    else WithoutFilers(d, n - 1) + (if Filer(d[n - 1].row) then [] else [d[n - 1]])
  }

  function FormatProcessedResultSpec(items: seq<Pair>, inputs: seq<string>): seq<Entry>
  {
    var d := Grouping(inputs, items, |inputs|);
    WithoutFilers(d, |d|)
  }

  /** The inner loop over the tagged values for one row. */
  method GroupRow(d0: seq<Entry>, row: string, items: seq<Pair>) returns (d: seq<Entry>)
    ensures d == AfterItems(d0, row, items, |items|)
  {
    d := d0;
    for m := 0 to |items|
      invariant d == AfterItems(d0, row, items, m)
    {
      var item := items[m];
      if Contains(row, item.text) && |item.text| > 1 {
        match KeyIndex(d, row)
        case None =>
          d := d + [Entry(row, [item])];
        case Some(i) =>
          d := d[i := Entry(row, d[i].items + [item])];
      }
    }
  }

  /** format_processed_result */
  method FormatProcessedResult(items: seq<Pair>, inputs: seq<string>) returns (d: seq<Entry>)
    ensures d == FormatProcessedResultSpec(items, inputs)
  {
    var grouped: seq<Entry> := [];
    for n := 0 to |inputs|
      invariant grouped == Grouping(inputs, items, n)
    {
      grouped := GroupRow(grouped, inputs[n], items);
    }
    d := [];
    for n := 0 to |grouped|
      invariant d == WithoutFilers(grouped, n)
    {
      if !Contains(Lower(grouped[n].row), "filer") {
        d := d + [grouped[n]];
      }
    }
  }

  /** Every key is an input row and every item one of the tagged values. */
  predicate DictFrom(d: seq<Entry>, inputs: seq<string>, items: seq<Pair>)
  {
    forall i :: 0 <= i < |d| ==> d[i].row in inputs && forall k :: 0 <= k < |d[i].items| ==> d[i].items[k] in items
  }

  /** `item` is listed under `row`. */
  predicate HasItem(d: seq<Entry>, row: string, item: Pair)
  {
    exists i :: 0 <= i < |d| && d[i].row == row && item in d[i].items
  }

  lemma AddItemFrom(d: seq<Entry>, row: string, item: Pair, inputs: seq<string>, items: seq<Pair>)
    requires DictFrom(d, inputs, items) && row in inputs && item in items
    ensures DictFrom(AddItem(d, row, item), inputs, items)
  {
    var r := AddItem(d, row, item);
    match KeyIndex(d, row)
    case None =>
    case Some(i) =>
      forall j, k | 0 <= j < |r| && 0 <= k < |r[j].items|
        ensures r[j].items[k] in items
      {
        if j == i && k < |d[i].items| {
          assert r[j].items[k] == d[i].items[k];
        }
      }
  }

  /** Adding keeps what was listed and lists the new item. */
  lemma AddItemHas(d: seq<Entry>, row: string, item: Pair)
    ensures HasItem(AddItem(d, row, item), row, item)
    ensures forall r, x :: HasItem(d, r, x) ==> HasItem(AddItem(d, row, item), r, x)
  {
    var a := AddItem(d, row, item);
    match KeyIndex(d, row)
    case None =>
      assert a[|d|].row == row && item in a[|d|].items;
      forall r, x | HasItem(d, r, x) ensures HasItem(a, r, x)
      {
        var i :| 0 <= i < |d| && d[i].row == r && x in d[i].items;
        assert a[i] == d[i];
      }
    case Some(i) =>
      assert a[i].row == row && item in a[i].items;
      forall r, x | HasItem(d, r, x) ensures HasItem(a, r, x)
      {
        var j :| 0 <= j < |d| && d[j].row == r && x in d[j].items;
        assert a[j].row == r && x in a[j].items;
      }
  }

  lemma {:induction false} AfterItemsOk(d: seq<Entry>, row: string, items: seq<Pair>, m: nat, inputs: seq<string>)
    requires m <= |items|
    requires DictOk(d) && DictFrom(d, inputs, items) && row in inputs
    ensures DictOk(AfterItems(d, row, items, m)) && DictFrom(AfterItems(d, row, items, m), inputs, items)
  {
    if m > 0 {
      AfterItemsOk(d, row, items, m - 1, inputs);
      var prev := AfterItems(d, row, items, m - 1);
      if Placed(row, items[m - 1]) {
        AddItemOk(prev, row, items[m - 1]);
        AddItemFrom(prev, row, items[m - 1], inputs, items);
      }
    }
  }

  /** Testing more items loses nothing, and lists every placed item. */
  lemma {:induction false} AfterItemsHas(d: seq<Entry>, row: string, items: seq<Pair>, m: nat)
    requires m <= |items|
    ensures forall r, x :: HasItem(d, r, x) ==> HasItem(AfterItems(d, row, items, m), r, x)
    ensures forall k :: 0 <= k < m && Placed(row, items[k]) ==> HasItem(AfterItems(d, row, items, m), row, items[k])
  {
    if m > 0 {
      AfterItemsHas(d, row, items, m - 1);
      var prev := AfterItems(d, row, items, m - 1);
      if Placed(row, items[m - 1]) {
        AddItemHas(prev, row, items[m - 1]);
      }
    }
  }

  lemma {:induction false} GroupingOk(inputs: seq<string>, items: seq<Pair>, n: nat)
    requires n <= |inputs|
    ensures DictOk(Grouping(inputs, items, n)) && DictFrom(Grouping(inputs, items, n), inputs, items)
  {
    if n > 0 {
      GroupingOk(inputs, items, n - 1);
      AfterItemsOk(Grouping(inputs, items, n - 1), inputs[n - 1], items, |items|, inputs);
    }
  }

  /** Every placed item of every row read so far is listed under that row. */
  lemma {:induction false} GroupingHas(inputs: seq<string>, items: seq<Pair>, n: nat)
    requires n <= |inputs|
    ensures forall j, k :: 0 <= j < n && 0 <= k < |items| && Placed(inputs[j], items[k]) ==>
              HasItem(Grouping(inputs, items, n), inputs[j], items[k])
  {
    if n > 0 {
      GroupingHas(inputs, items, n - 1);
      var prev := Grouping(inputs, items, n - 1);
      AfterItemsHas(prev, inputs[n - 1], items, |items|);
    }
  }

  /** The filtered dictionary keeps exactly the non-filer entries, in order. */
  lemma {:induction false} WithoutFilersMembers(d: seq<Entry>, n: nat)
    requires n <= |d|
    ensures forall e :: e in WithoutFilers(d, n) <==> e in d[..n] && !Filer(e.row)
  {
    if n > 0 {
      WithoutFilersMembers(d, n - 1);
      assert d[..n] == d[..n - 1] + [d[n - 1]];
    }
  }

  lemma {:induction false} WithoutFilersOk(d: seq<Entry>, n: nat)
    requires n <= |d| && DictOk(d)
    ensures DictOk(WithoutFilers(d, n))
  {
    if n > 0 {
      WithoutFilersOk(d, n - 1);
      WithoutFilersMembers(d, n - 1);
      var prev := WithoutFilers(d, n - 1);
      if !Filer(d[n - 1].row) {
        var r := prev + [d[n - 1]];
        forall i, j | 0 <= i < j < |r| ensures r[i].row != r[j].row
        {
          if j == |prev| {
            assert r[i] in d[..n - 1];
            var i' :| 0 <= i' < n - 1 && d[i'] == r[i];
          }
        }
      }
    }
  }

  /** format_processed_result: rows are distinct input rows, none mentions
      "filer", each lists only tagged values occurring in it, longer than one
      character; and every such value of every non-filer row is listed. */
  lemma FormatProcessedResultCorrect(items: seq<Pair>, inputs: seq<string>)
    ensures var r := FormatProcessedResultSpec(items, inputs);
            DictOk(r) && DictFrom(r, inputs, items)
            && (forall i :: 0 <= i < |r| ==> !Filer(r[i].row))
            && (forall j, k :: 0 <= j < |inputs| && 0 <= k < |items| && Placed(inputs[j], items[k]) && !Filer(inputs[j]) ==>
                  HasItem(r, inputs[j], items[k]))
  {
    // Both loops are used through their lemmas only.
    hide Grouping, WithoutFilers;
    var d := Grouping(inputs, items, |inputs|);
    GroupingOk(inputs, items, |inputs|);
    WithoutFilersOk(d, |d|);
    FormatKeepsInputs(items, inputs);
    FormatKeepsPlaced(items, inputs);
  }

  lemma FormatKeepsInputs(items: seq<Pair>, inputs: seq<string>)
    ensures var r := FormatProcessedResultSpec(items, inputs);
            DictFrom(r, inputs, items) && forall i :: 0 <= i < |r| ==> !Filer(r[i].row)
  {
    hide Grouping, WithoutFilers;
    var d := Grouping(inputs, items, |inputs|);
    var r := WithoutFilers(d, |d|);
    GroupingOk(inputs, items, |inputs|);
    WithoutFilersMembers(d, |d|);
    assert d[..|d|] == d;
    forall i | 0 <= i < |r| ensures !Filer(r[i].row) && r[i].row in inputs
      && forall k :: 0 <= k < |r[i].items| ==> r[i].items[k] in items
    {
      assert r[i] in r;
      var i' :| 0 <= i' < |d| && d[i'] == r[i];
    }
  }

  lemma FormatKeepsPlaced(items: seq<Pair>, inputs: seq<string>)
    ensures var r := FormatProcessedResultSpec(items, inputs);
            forall j, k :: 0 <= j < |inputs| && 0 <= k < |items| && Placed(inputs[j], items[k]) && !Filer(inputs[j]) ==>
              HasItem(r, inputs[j], items[k])
  {
    hide Grouping, WithoutFilers;
    var d := Grouping(inputs, items, |inputs|);
    var r := WithoutFilers(d, |d|);
    GroupingHas(inputs, items, |inputs|);
    WithoutFilersMembers(d, |d|);
    assert d[..|d|] == d;
    forall j, k | 0 <= j < |inputs| && 0 <= k < |items| && Placed(inputs[j], items[k]) && !Filer(inputs[j])
      ensures HasItem(r, inputs[j], items[k])
    {
      var i :| 0 <= i < |d| && d[i].row == inputs[j] && items[k] in d[i].items;
      assert d[i] in r;
      var i' :| 0 <= i' < |r| && r[i'] == d[i];
    }
  }
}
