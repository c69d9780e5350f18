/** The tag injector of auto_tagging/utils.py: `modify_coverpage`,
    `modify_statement_tabels` and `modify_notespages` rewrite an HTML string,
    wrapping each predicted text in an annotation element. Randomness (the
    uuid, the wrapper letters, the placeholder digits) and set iteration
    order are parameters. */
module Injection {
  import opened Strings
  import opened Utils
  import opened Tokens

  // ---------------------------------------------------------------------------
  // Wrappers

  /** `random.choice(string.ascii_letters)` for the draw `k`: the letters
      `a`-`z` then `A`-`Z`, indexed by `k % 52`. */
  function Letter(k: nat): (r: char)
    ensures 'a' <= r <= 'z' || 'A' <= r <= 'Z'
  {
    var i := k % 52;
    if i < 26 then ('a' as int + i) as char else ('A' as int + i - 26) as char
  }

  /** `str(uuid.uuid1()).replace("-", "")` for the uuid text `u`. */
  function RunId(u: string): (r: string)
    ensures '-' !in r
  {
    ReplaceRemovesChar(u, '-', "");
    Replace(u, "-", "")
  }

  const FontPrefix: string := "<font data-autotag=\"true\" id=xdx_90"
  const FontClose: string := "</font>"

  function OpenTag(tag: string, letter: char, runId: string): string
  {
    FontPrefix + [letter] + "_e" + tag + "_" + runId + ">"
  }

  /** The annotation element put around a matched text. */
  function Wrapper(text: string, tag: string, letter: char, runId: string): string
  {
    OpenTag(tag, letter, runId) + text + FontClose
  }

  /** Everything after the first occurrence of `c`. */
  function DropThrough(s: string, c: char): string
  {
    if s == [] then [] else if s[0] == c then s[1..] else DropThrough(s[1..], c)
  }

  /** The text between an element's opening tag and its closing `</font>`. */
  function ContentOf(w: string): string
  {
    var body := DropThrough(w, '>');
    if |body| >= |FontClose| then body[..|body| - |FontClose|] else body
  }

  lemma {:induction false} DropThroughPlain(u: string, v: string, c: char)
    requires c !in u
    ensures DropThrough(u + v, c) == DropThrough(v, c)
    decreases |u|
  {
    if u == [] {
      assert u + v == v;
    } else {
      assert (u + v)[1..] == u[1..] + v;
      DropThroughPlain(u[1..], v, c);
    }
  }

  /** The content of a wrapper is the text it wraps. */
  lemma WrapperContent(text: string, tag: string, letter: char, runId: string)
    requires '>' !in tag && '>' !in runId && letter != '>'
    ensures ContentOf(Wrapper(text, tag, letter, runId)) == text
  {
    var head := FontPrefix + [letter] + "_e" + tag + "_" + runId;
    assert '>' !in FontPrefix;
    assert '>' !in head;
    var w := Wrapper(text, tag, letter, runId);
    assert w == head + (">" + text + FontClose);
    DropThroughPlain(head, ">" + text + FontClose, '>');
    assert DropThrough(">" + text + FontClose, '>') == text + FontClose;
  }

  /** A wrapper is longer than the text it wraps, so a wrapped occurrence
      always changes the buffer. */
  lemma WrapperLonger(text: string, tag: string, letter: char, runId: string)
    ensures |Wrapper(text, tag, letter, runId)| > |text|
  {
  }

  /** The characters of the fixed parts of a wrapper: lower-case letters,
      two digits and a little punctuation. */
  predicate FontChar(x: char)
  {
    ('a' <= x <= 'z') || x == '<' || x == '>' || x == '/' || x == ' ' || x == '='
    || x == '"' || x == '-' || x == '_' || x == '0' || x == '9'
  }

  lemma FontAlphabet()
    ensures forall i :: 0 <= i < |FontPrefix| ==> FontChar(FontPrefix[i])
    ensures forall i :: 0 <= i < |FontClose| ==> FontChar(FontClose[i])
  {
  }

  lemma WrapperAvoids(text: string, tag: string, letter: char, runId: string, c: char)
    requires c !in text && c !in tag && c !in runId && c != letter && !FontChar(c)
    ensures c !in Wrapper(text, tag, letter, runId)
  {
    FontAlphabet();
    assert c !in FontPrefix && c !in FontClose;
    assert "_e>"[0] == '_' && "_e>"[1] == 'e' && "_e>"[2] == '>';
  }

  // ---------------------------------------------------------------------------
  // Rows and the placeholder dict

  /** `[text, tag, wrapper]`, one row of `ml_tags`. */
  datatype Row = Row(text: string, tag: string, markup: string)

  /** The list comprehension that builds the rows: the prefixed tag and one
      wrapper per pair, with a letter drawn per row and one shared run id. */
  function TagRows(pairs: seq<Pair>, prefix: string, letters: nat -> nat, runId: string): (rows: seq<Row>)
    ensures |rows| == |pairs|
    ensures forall i :: 0 <= i < |rows| ==>
      && rows[i].text == pairs[i].text
      && rows[i].tag == prefix + pairs[i].tag
      && rows[i].markup == Wrapper(pairs[i].text, prefix + pairs[i].tag, Letter(letters(i)), runId)
  {
    seq(|pairs|, i requires 0 <= i < |pairs| =>
      Row(pairs[i].text, prefix + pairs[i].tag,
          Wrapper(pairs[i].text, prefix + pairs[i].tag, Letter(letters(i)), runId)))
  }

  /** The `placeholders` dict: its keys in insertion order and its values. */
  datatype Pending = Pending(order: seq<string>, values: map<string, string>)
  {
    predicate Valid()
    {
      && (forall k :: k in order ==> k in values)
      && (forall k :: k in values ==> k in order)
      && (forall i :: 0 <= i < |order| ==> order[i] !in order[..i])
    }

    /** `placeholders[k] = v`: a new key goes last, an existing key keeps its
        place and takes the new value. */
    function Put(k: string, v: string): (r: Pending)
      ensures Valid() ==> r.Valid()
      ensures r.values == values[k := v]
      ensures r.order == if k in values then order else order + [k]
    {
      if k in values then Pending(order, values[k := v]) else Pending(order + [k], values[k := v])
    }
  }

  const NoPending := Pending([], map[])

  // ---------------------------------------------------------------------------
  // The two-pass engine shared by modify_coverpage and modify_statement_tabels

  datatype Pass = Pass(html: string, pending: Pending)

  /** One turn of the first loop: the tag-bounded replacement if it changes
      the buffer, otherwise every plain occurrence goes to a placeholder. */
  function Step(p: Pass, row: Row, placeholder: string): Pass
  {
    var bounded := Replace(p.html, ">" + row.text + "<", ">" + row.markup + "<");
    if bounded != p.html then Pass(bounded, p.pending)
    else Pass(Replace(p.html, row.text, placeholder), p.pending.Put(placeholder, row.markup))
  }

  /** The state after the first `n` rows; newlines become spaces first. */
  function Passes(html: string, rows: seq<Row>, placeholders: nat -> string, n: nat): Pass
    requires n <= |rows|
  {
    if n == 0 then Pass(Replace(html, "\n", " "), NoPending)
    else Step(Passes(html, rows, placeholders, n - 1), rows[n - 1], placeholders(n - 1))
  }

  /** The first loop keeps the dict well formed. */
  lemma {:induction false} PassesValid(html: string, rows: seq<Row>, placeholders: nat -> string, n: nat)
    requires n <= |rows|
    ensures Passes(html, rows, placeholders, n).pending.Valid()
  {
    if n > 0 {
      PassesValid(html, rows, placeholders, n - 1);
    }
  }

  /** The second loop after `n` keys: each placeholder, in insertion order,
      replaced by its wrapper. */
  function Resolved(html: string, pending: Pending, n: nat): string
    requires pending.Valid() && n <= |pending.order|
  {
    if n == 0 then html
    else Replace(Resolved(html, pending, n - 1), pending.order[n - 1], pending.values[pending.order[n - 1]])
  }

  function Injected(html: string, rows: seq<Row>, placeholders: nat -> string): string
  {
    var p := Passes(html, rows, placeholders, |rows|);
    PassesValid(html, rows, placeholders, |rows|);
    Resolved(p.html, p.pending, |p.pending.order|)
  }

  /** The two loops; `placeholders(i)` is the token drawn if row `i` falls
      back. */
  method Inject(html: string, rows: seq<Row>, placeholders: nat -> string) returns (r: string)
    ensures r == Injected(html, rows, placeholders)
  {
    // Each turn is matched against one unfolding of the loop's function.
    hide Replace, Passes, Resolved;
    var buffer := Replace(html, "\n", " ");
    var pending := NoPending;
    PassesZero(html, rows, placeholders);
    var i := 0;
    while i < |rows|
      invariant i <= |rows|
      invariant Passes(html, rows, placeholders, i) == Pass(buffer, pending)
      invariant pending.Valid()
    {
      ghost var before := Pass(buffer, pending);
      var row := rows[i];
      var replaced := Replace(buffer, ">" + row.text + "<", ">" + row.markup + "<");
      if replaced != buffer {
        buffer := replaced;
      } else {
        var placeholder := placeholders(i);
        buffer := Replace(buffer, row.text, placeholder);
        pending := pending.Put(placeholder, row.markup);
      }
      assert Pass(buffer, pending) == Step(before, row, placeholders(i));
      PassesSucc(html, rows, placeholders, i + 1);
      i := i + 1;
    }
    r := buffer;
    ResolvedZero(buffer, pending);
    var j := 0;
    while j < |pending.order|
      invariant j <= |pending.order|
      invariant r == Resolved(buffer, pending, j)
    {
      var key := pending.order[j];
      r := Replace(r, key, pending.values[key]);
      ResolvedSucc(buffer, pending, j + 1);
      j := j + 1;
    }
  }

  /** With a distinct placeholder per row, the dict maps each placeholder
      registered so far to the markup of the row that drew it. */
  lemma {:induction false} PassesOwnMarkup(html: string, rows: seq<Row>, placeholders: nat -> string, n: nat)
    requires n <= |rows|
    requires forall i, j :: 0 <= i < j < |rows| ==> placeholders(i) != placeholders(j)
    ensures var values := Passes(html, rows, placeholders, n).pending.values;
      forall i :: 0 <= i < |rows| && placeholders(i) in values ==>
        i < n && values[placeholders(i)] == rows[i].markup
  {
    hide Replace, Passes;
    if n == 0 {
      PassesZero(html, rows, placeholders);
    } else {
      PassesOwnMarkup(html, rows, placeholders, n - 1);
      PassesSucc(html, rows, placeholders, n);
    }
  }

  lemma PassesZero(html: string, rows: seq<Row>, placeholders: nat -> string)
    ensures Passes(html, rows, placeholders, 0) == Pass(Replace(html, "\n", " "), NoPending)
  {
  }

  lemma PassesSucc(html: string, rows: seq<Row>, placeholders: nat -> string, n: nat)
    requires 0 < n <= |rows|
    ensures Passes(html, rows, placeholders, n) == Step(Passes(html, rows, placeholders, n - 1), rows[n - 1], placeholders(n - 1))
  {
  }

  lemma ResolvedZero(html: string, pending: Pending)
    requires pending.Valid()
    ensures Resolved(html, pending, 0) == html
  {
  }

  lemma ResolvedSucc(html: string, pending: Pending, n: nat)
    requires pending.Valid() && 0 < n <= |pending.order|
    ensures Resolved(html, pending, n) == Replace(Resolved(html, pending, n - 1), pending.order[n - 1], pending.values[pending.order[n - 1]])
  {
  }

  /** The bounded replacement is taken exactly when `>text<` occurs; only
      otherwise is a placeholder registered. */
  lemma StepPrefersBounded(p: Pass, row: Row, placeholder: string)
    requires |row.markup| > |row.text|
    ensures Contains(p.html, ">" + row.text + "<") ==>
      Step(p, row, placeholder) == Pass(Replace(p.html, ">" + row.text + "<", ">" + row.markup + "<"), p.pending)
    ensures !Contains(p.html, ">" + row.text + "<") ==>
      Step(p, row, placeholder) == Pass(Replace(p.html, row.text, placeholder), p.pending.Put(placeholder, row.markup))
  {
    ReplaceChangesIff(p.html, ">" + row.text + "<", ">" + row.markup + "<");
  }

  lemma {:induction false} PassesNoNewline(html: string, rows: seq<Row>, placeholders: nat -> string, n: nat)
    requires n <= |rows|
    requires forall i :: 0 <= i < |rows| ==> '\n' !in rows[i].markup && '\n' !in placeholders(i)
    ensures '\n' !in Passes(html, rows, placeholders, n).html
    ensures forall k :: k in Passes(html, rows, placeholders, n).pending.values ==>
      '\n' !in Passes(html, rows, placeholders, n).pending.values[k]
  {
    if n == 0 {
      ReplaceRemovesChar(html, '\n', " ");
    } else {
      PassesNoNewline(html, rows, placeholders, n - 1);
      var p, row := Passes(html, rows, placeholders, n - 1), rows[n - 1];
      ReplaceKeepsCharOut(p.html, ">" + row.text + "<", ">" + row.markup + "<", '\n');
      ReplaceKeepsCharOut(p.html, row.text, placeholders(n - 1), '\n');
    }
  }

  lemma {:induction false} ResolvedKeepsCharOut(html: string, pending: Pending, n: nat, c: char)
    requires pending.Valid() && n <= |pending.order|
    requires c !in html && forall k :: k in pending.values ==> c !in pending.values[k]
    ensures c !in Resolved(html, pending, n)
  {
    if n > 0 {
      ResolvedKeepsCharOut(html, pending, n - 1, c);
      var k := pending.order[n - 1];
      ReplaceKeepsCharOut(Resolved(html, pending, n - 1), k, pending.values[k], c);
    }
  }

  /** Newlines are turned into spaces first, and nothing put in later holds
      one, so the result has no newline. */
  lemma InjectedNoNewline(html: string, rows: seq<Row>, placeholders: nat -> string)
    requires forall i :: 0 <= i < |rows| ==> '\n' !in rows[i].markup && '\n' !in placeholders(i)
    ensures '\n' !in Injected(html, rows, placeholders)
  {
    var p := Passes(html, rows, placeholders, |rows|);
    PassesValid(html, rows, placeholders, |rows|);
    PassesNoNewline(html, rows, placeholders, |rows|);
    ResolvedKeepsCharOut(p.html, p.pending, |p.pending.order|, '\n');
  }

  // ---------------------------------------------------------------------------
  // No placeholder survives, for placeholders built around a marker

  /** The placeholders of the rows carry a marker `c` found nowhere in the
      buffer, the texts or the wrappers, all have the same length, hold no
      `>`, and no text can match starting inside one of them. */
  predicate FreshPlaceholders(html: string, rows: seq<Row>, placeholders: nat -> string, c: char, len: nat)
  {
    && c !in html && c != ' ' && c != '>' && c != '<'
    && (forall j :: 0 <= j < |rows| ==> rows[j].text != [] && c !in rows[j].text && c !in rows[j].markup)
    && (forall i :: 0 <= i < |rows| ==>
          |placeholders(i)| == len && Marked(placeholders(i), c) && '>' !in placeholders(i))
    && (forall i, j :: 0 <= i < |rows| && 0 <= j < |rows| ==> NoMatchInside(rows[j].text, placeholders(i)))
  }

  /** What the first loop keeps true: the buffer is tokenized by the
      registered placeholders, which keep the freshness conditions, and no
      registered wrapper holds the marker. */
  predicate PassOk(p: Pass, rows: seq<Row>, c: char, len: nat)
  {
    var keys := p.pending.values.Keys;
    && KeysOk(keys, c, len)
    && (forall k :: k in keys ==> '>' !in k && c !in p.pending.values[k])
    && (forall k, j :: k in keys && 0 <= j < |rows| ==> NoMatchInside(rows[j].text, k))
    && Tokenized(p.html, keys, c, len)
  }

  /** The freshness conditions that row `i` and its placeholder meet. */
  predicate FreshStep(rows: seq<Row>, i: nat, placeholder: string, c: char, len: nat)
  {
    && i < |rows| && c != '>' && c != '<'
    && rows[i].text != [] && c !in rows[i].text && c !in rows[i].markup
    && |placeholder| == len && Marked(placeholder, c) && '>' !in placeholder
    && forall j :: 0 <= j < |rows| ==> NoMatchInside(rows[j].text, placeholder)
  }

  lemma StepOk(p: Pass, rows: seq<Row>, i: nat, placeholder: string, c: char, len: nat)
    requires PassOk(p, rows, c, len) && FreshStep(rows, i, placeholder, c, len)
    ensures PassOk(Step(p, rows[i], placeholder), rows, c, len)
  {
    var row := rows[i];
    var keys := p.pending.values.Keys;
    var pat, rep := ">" + row.text + "<", ">" + row.markup + "<";
    if Replace(p.html, pat, rep) != p.html {
      forall k | k in keys
        ensures NoMatchInside(pat, k)
      {
        AngleBoundedNoMatchInside(row.text, k);
      }
      MarkerFreeTokenized(rep, keys, c, len);
      ReplacePlainKeepsTokenized(p.html, pat, rep, keys, c, len);
    } else {
      var more := keys + {placeholder};
      assert p.pending.Put(placeholder, row.markup).values.Keys == more;
      TokenizedMono(p.html, keys, more, c, len);
      KeyTokenized(placeholder, more, c, len);
      ReplacePlainKeepsTokenized(p.html, row.text, placeholder, more, c, len);
    }
  }

  lemma InitialOk(html: string, rows: seq<Row>, c: char, len: nat)
    requires c !in html && c != ' '
    ensures PassOk(Pass(Replace(html, "\n", " "), NoPending), rows, c, len)
  {
    ReplaceKeepsCharOut(html, "\n", " ", c);
    assert NoPending.values.Keys == {};
    MarkerFreeTokenized(Replace(html, "\n", " "), {}, c, len);
  }

  lemma {:induction false} PassesOk(html: string, rows: seq<Row>, placeholders: nat -> string, c: char, len: nat, n: nat)
    requires FreshPlaceholders(html, rows, placeholders, c, len) && n <= |rows|
    ensures PassOk(Passes(html, rows, placeholders, n), rows, c, len)
  {
    // Each fact below is passed on unchanged: no definition needs unfolding.
    hide *;
    if n == 0 {
      PassesZero(html, rows, placeholders);
      FreshPage(html, rows, placeholders, c, len);
      InitialOk(html, rows, c, len);
    } else {
      PassesOk(html, rows, placeholders, c, len, n - 1);
      FreshAt(html, rows, placeholders, c, len, n - 1);
      StepOk(Passes(html, rows, placeholders, n - 1), rows, n - 1, placeholders(n - 1), c, len);
      PassesStepOk(html, rows, placeholders, c, len, n);
    }
  }

  /** The state after `n` rows is one step past the state after `n - 1`. */
  lemma PassesStepOk(html: string, rows: seq<Row>, placeholders: nat -> string, c: char, len: nat, n: nat)
    requires 0 < n <= |rows|
    requires PassOk(Step(Passes(html, rows, placeholders, n - 1), rows[n - 1], placeholders(n - 1)), rows, c, len)
    ensures PassOk(Passes(html, rows, placeholders, n), rows, c, len)
  {
  }

  lemma FreshPage(html: string, rows: seq<Row>, placeholders: nat -> string, c: char, len: nat)
    requires FreshPlaceholders(html, rows, placeholders, c, len)
    ensures c !in html && c != ' '
  {
  }

  lemma FreshAt(html: string, rows: seq<Row>, placeholders: nat -> string, c: char, len: nat, i: nat)
    requires FreshPlaceholders(html, rows, placeholders, c, len) && i < |rows|
    ensures FreshStep(rows, i, placeholders(i), c, len)
  {
  }

  /** The keys of a sequence, as a set. */
  function KeysIn(s: seq<string>): (r: set<string>)
    ensures forall x :: x in r <==> x in s
  {
    if s == [] then {} else KeysIn(s[..|s| - 1]) + {s[|s| - 1]}
  }

  lemma KeysOkSubset(keys: set<string>, more: set<string>, c: char, len: nat)
    requires keys <= more && KeysOk(more, c, len)
    ensures KeysOk(keys, c, len)
  {
  }

  lemma KeysInSnoc(order: seq<string>, n: nat)
    requires 0 < n <= |order|
    ensures KeysIn(order[..n]) == KeysIn(order[..n - 1]) + {order[n - 1]}
  {
    assert order[..n][..n - 1] == order[..n - 1];
  }

  /** One turn of the second loop retires one more key. */
  lemma RetireStep(prev: string, key: string, w: string, keys: set<string>, done: set<string>, c: char, len: nat)
    requires KeysOk(keys, c, len) && key in keys && key !in done && c !in w
    requires Tokenized(prev, keys - done, c, len)
    ensures Tokenized(Replace(prev, key, w), keys - (done + {key}), c, len)
  {
    KeysOkSubset(keys - done, keys, c, len);
    ReplaceKeyRetires(prev, key, w, keys - done, c, len);
    assert keys - done - {key} == keys - (done + {key});
  }

  /** Each resolved key is retired from the tokenization. */
  lemma {:induction false} ResolvedRetires(html: string, pending: Pending, n: nat, c: char, len: nat)
    requires pending.Valid() && n <= |pending.order|
    requires KeysOk(pending.values.Keys, c, len)
    requires forall k :: k in pending.values ==> c !in pending.values[k]
    requires Tokenized(html, pending.values.Keys, c, len)
    ensures Tokenized(Resolved(html, pending, n), pending.values.Keys - KeysIn(pending.order[..n]), c, len)
  {
    if n == 0 {
      assert KeysIn(pending.order[..0]) == {};
      assert pending.values.Keys - {} == pending.values.Keys;
    } else {
      ResolvedRetires(html, pending, n - 1, c, len);
      var key := pending.order[n - 1];
      KeysInSnoc(pending.order, n);
      var prev := Resolved(html, pending, n - 1);
      var done := KeysIn(pending.order[..n - 1]);
      assert Tokenized(prev, pending.values.Keys - done, c, len);
      assert key in pending.values.Keys && key !in done;
      assert c !in pending.values[key];
      RetireStep(prev, key, pending.values[key], pending.values.Keys, done, c, len);
      assert Resolved(html, pending, n) == Replace(prev, key, pending.values[key]);
      assert KeysIn(pending.order[..n]) == done + {key};
    }
  }

  /** With fresh placeholders every registered placeholder is resolved: the
      result holds no marker, so none of the placeholders. */
  lemma NoPlaceholderSurvives(html: string, rows: seq<Row>, placeholders: nat -> string, c: char, len: nat)
    requires FreshPlaceholders(html, rows, placeholders, c, len)
    ensures c !in Injected(html, rows, placeholders)
    ensures forall i :: 0 <= i < |rows| ==> !Contains(Injected(html, rows, placeholders), placeholders(i))
  {
    var p := Passes(html, rows, placeholders, |rows|);
    var out := Injected(html, rows, placeholders);
    PassesOk(html, rows, placeholders, c, len, |rows|);
    PassesValid(html, rows, placeholders, |rows|);
    ResolvedRetires(p.html, p.pending, |p.pending.order|, c, len);
    assert p.pending.order[..|p.pending.order|] == p.pending.order;
    assert p.pending.values.Keys - KeysIn(p.pending.order) == {};
    NoKeysNoMarker(out, c, len);
    forall i | 0 <= i < |rows|
      ensures !Contains(out, placeholders(i))
    {
      assert placeholders(i)[0] in placeholders(i);
      if Contains(out, placeholders(i)) {
        ContainsChar(out, placeholders(i), c);
        assert false;
      }
    }
  }

  // ---------------------------------------------------------------------------
  // modify_coverpage

  /** `sum(coverpage_output.values(), [])` */
  function CoverPairs(result: seq<Entry>): seq<Pair>
  {
    if result == [] then [] else result[0].items + CoverPairs(result[1..])
  }

  /** `list(set(items))`: every distinct item exactly once, in whatever order
      the set yields. */
  predicate SetOrder<T(==)>(order: seq<T>, items: seq<T>)
  {
    && (forall x :: x in order ==> x in items)
    && (forall x :: x in items ==> x in order)
    && (forall i, j :: 0 <= i < j < |order| ==> order[i] != order[j])
  }

  /** `f"__placeholder_{random.randint(1000, 9999)}__"` */
  function CoverPlaceholder(draw: nat): string
  {
    "__placeholder_" + NatToString(1000 + draw % 9000) + "__"
  }

  function CoverPlaceholders(draws: nat -> nat): nat -> string
  {
    (i: nat) => CoverPlaceholder(draws(i))
  }

  function CoverRows(order: seq<Pair>, letters: nat -> nat, uuid: string): seq<Row>
  {
    TagRows(order, "dei:", letters, RunId(uuid))
  }

  function ModifyCoverpageSpec(html: string, order: seq<Pair>, letters: nat -> nat, uuid: string, draws: nat -> nat): string
  {
    Injected(html, CoverRows(order, letters, uuid), CoverPlaceholders(draws))
  }

  /** `modify_coverpage`, with `order` the iteration order of the tuple set. */
  method ModifyCoverpage(html: string, result: seq<Entry>, order: seq<Pair>, letters: nat -> nat, uuid: string, draws: nat -> nat)
    returns (r: string)
    requires SetOrder(order, CoverPairs(result))
    ensures r == ModifyCoverpageSpec(html, order, letters, uuid, draws)
  {
    var rows := TagRows(order, "dei:", letters, RunId(uuid));
    r := Inject(html, rows, CoverPlaceholders(draws));
  }

  /** The injected `(text, "dei:" + label)` rows are the distinct tuples of the
      cover result, each exactly once. */
  lemma CoverRowsAreDistinctTuples(result: seq<Entry>, order: seq<Pair>, letters: nat -> nat, uuid: string)
    requires SetOrder(order, CoverPairs(result))
    ensures forall p :: p in CoverPairs(result) ==>
      exists i :: 0 <= i < |order| && CoverRows(order, letters, uuid)[i].text == p.text
                  && CoverRows(order, letters, uuid)[i].tag == "dei:" + p.tag
    ensures forall i :: 0 <= i < |order| ==>
      Pair(CoverRows(order, letters, uuid)[i].text, CoverRows(order, letters, uuid)[i].tag[4..]) in CoverPairs(result)
    ensures forall i, j :: 0 <= i < j < |order| ==>
      (CoverRows(order, letters, uuid)[i].text, CoverRows(order, letters, uuid)[i].tag)
      != (CoverRows(order, letters, uuid)[j].text, CoverRows(order, letters, uuid)[j].tag)
  {
    var rows := CoverRows(order, letters, uuid);
    forall p | p in CoverPairs(result)
      ensures exists i :: 0 <= i < |order| && rows[i].text == p.text && rows[i].tag == "dei:" + p.tag
    {
      var i :| 0 <= i < |order| && order[i] == p;
      assert rows[i].text == p.text && rows[i].tag == "dei:" + p.tag;
    }
    forall i | 0 <= i < |order|
      ensures Pair(rows[i].text, rows[i].tag[4..]) in CoverPairs(result)
    {
      assert rows[i].tag[4..] == order[i].tag;
      assert Pair(rows[i].text, rows[i].tag[4..]) == order[i];
    }
    forall i, j | 0 <= i < j < |order|
      ensures (rows[i].text, rows[i].tag) != (rows[j].text, rows[j].tag)
    {
      assert rows[i].tag[4..] == order[i].tag && rows[j].tag[4..] == order[j].tag;
      assert order[i] != order[j];
    }
  }

  lemma NatToStringNoNewline(n: nat)
    ensures '\n' !in NatToString(n)
  {
    var d := NatToString(n);
    assert forall i :: 0 <= i < |d| ==> IsDigit(d[i]);
  }

  lemma WrapperNoNewline(text: string, tag: string, letter: char, runId: string)
    requires '\n' !in text && '\n' !in tag && '\n' !in runId && letter != '\n'
    ensures '\n' !in Wrapper(text, tag, letter, runId)
  {
    WrapperAvoids(text, tag, letter, runId, '\n');
  }

  lemma CoverPlaceholderNoNewline(draw: nat)
    ensures '\n' !in CoverPlaceholder(draw)
  {
    NatToStringNoNewline(1000 + draw % 9000);
  }

  lemma CoverRowNoNewline(order: seq<Pair>, letters: nat -> nat, uuid: string, i: nat)
    requires i < |order| && '\n' !in order[i].text && '\n' !in order[i].tag && '\n' !in uuid
    ensures '\n' !in CoverRows(order, letters, uuid)[i].markup
  {
    ReplaceKeepsCharOut(uuid, "-", "", '\n');
    WrapperNoNewline(order[i].text, "dei:" + order[i].tag, Letter(letters(i)), RunId(uuid));
  }

  /** The cover result has no newline when no text, label or uuid holds
      one. */
  lemma CoverpageNoNewline(html: string, order: seq<Pair>, letters: nat -> nat, uuid: string, draws: nat -> nat)
    requires forall p :: p in order ==> '\n' !in p.text && '\n' !in p.tag
    requires '\n' !in uuid
    ensures '\n' !in ModifyCoverpageSpec(html, order, letters, uuid, draws)
  {
    var rows := CoverRows(order, letters, uuid);
    var phs := CoverPlaceholders(draws);
    forall i | 0 <= i < |rows|
      ensures '\n' !in rows[i].markup && '\n' !in phs(i)
    {
      assert order[i] in order;
      CoverRowNoNewline(order, letters, uuid, i);
      CoverPlaceholderNoNewline(draws(i));
    }
    InjectedNoNewline(html, rows, phs);
  }

  // ---------------------------------------------------------------------------
  // modify_statement_tabels

  function Texts(ps: seq<Pair>): (r: seq<string>)
    ensures |r| == |ps| && forall i :: 0 <= i < |ps| ==> r[i] == ps[i].text
  {
    seq(|ps|, i requires 0 <= i < |ps| => ps[i].text)
  }

  /** The first `n` pairs with the later pairs of an already kept text
      dropped: `unique_Table_output2` after `n` turns of its loop. */
  function FirstPerText(pairs: seq<Pair>, n: nat): seq<Pair>
    requires n <= |pairs|
  {
    if n == 0 then []
    else
      var kept := FirstPerText(pairs, n - 1);
      if pairs[n - 1].text in Texts(kept) then kept else kept + [pairs[n - 1]]
  }

  lemma TextsSnoc(ps: seq<Pair>, p: Pair)
    ensures Texts([]) == [] && Texts(ps + [p]) == Texts(ps) + [p.text]
  {
  }

  lemma FirstPerTextZero(pairs: seq<Pair>)
    ensures FirstPerText(pairs, 0) == []
  {
  }

  lemma FirstPerTextSucc(pairs: seq<Pair>, n: nat)
    requires 0 < n <= |pairs|
    ensures FirstPerText(pairs, n) == if pairs[n - 1].text in Texts(FirstPerText(pairs, n - 1))
                                      then FirstPerText(pairs, n - 1)
                                      else FirstPerText(pairs, n - 1) + [pairs[n - 1]]
  {
  }

  /** The position of the first pair with text `t`. */
  function FirstIndex(ps: seq<Pair>, t: string): (r: nat)
    requires t in Texts(ps)
    ensures r < |ps| && ps[r].text == t
    ensures forall j :: 0 <= j < r ==> ps[j].text != t
  {
    if ps[0].text == t then 0
    else
      assert t in Texts(ps[1..]) by {
        var i :| 0 <= i < |ps| && Texts(ps)[i] == t;
        assert i > 0 && Texts(ps[1..])[i - 1] == t;
      }
      1 + FirstIndex(ps[1..], t)
  }

  /** The kept texts are pairwise distinct. */
  lemma {:induction false} FirstPerTextDistinct(pairs: seq<Pair>, n: nat)
    requires n <= |pairs|
    ensures forall i, j :: 0 <= i < j < |FirstPerText(pairs, n)| ==>
      FirstPerText(pairs, n)[i].text != FirstPerText(pairs, n)[j].text
  {
    if n > 0 {
      FirstPerTextDistinct(pairs, n - 1);
      var kept := FirstPerText(pairs, n - 1);
      if pairs[n - 1].text !in Texts(kept) {
        assert forall i :: 0 <= i < |kept| ==> Texts(kept)[i] != pairs[n - 1].text;
      }
    }
  }

  /** Every text among the first `n` pairs is kept. */
  lemma {:induction false} FirstPerTextCovers(pairs: seq<Pair>, n: nat)
    requires n <= |pairs|
    ensures forall j :: 0 <= j < n ==> pairs[j].text in Texts(FirstPerText(pairs, n))
  {
    if n > 0 {
      FirstPerTextCovers(pairs, n - 1);
      var kept := FirstPerText(pairs, n - 1);
      var next := FirstPerText(pairs, n);
      assert forall t :: t in Texts(kept) ==> t in Texts(next) by {
        if pairs[n - 1].text !in Texts(kept) {
          assert Texts(next) == Texts(kept) + [pairs[n - 1].text];
        }
      }
      if pairs[n - 1].text !in Texts(kept) {
        assert Texts(next)[|kept|] == pairs[n - 1].text;
      }
    }
  }

  /** The pair kept for a text is the first pair with that text. */
  lemma {:induction false} FirstPerTextKeepsFirst(pairs: seq<Pair>, n: nat)
    requires n <= |pairs|
    ensures forall i :: 0 <= i < |FirstPerText(pairs, n)| ==>
      && FirstPerText(pairs, n)[i].text in Texts(pairs)
      && FirstPerText(pairs, n)[i] == pairs[FirstIndex(pairs, FirstPerText(pairs, n)[i].text)]
  {
    if n > 0 {
      FirstPerTextKeepsFirst(pairs, n - 1);
      var kept := FirstPerText(pairs, n - 1);
      var p := pairs[n - 1];
      if p.text !in Texts(kept) {
        FirstPerTextCovers(pairs, n - 1);
        assert Texts(pairs)[n - 1] == p.text;
        assert forall j :: 0 <= j < n - 1 ==> pairs[j].text != p.text;
        assert FirstIndex(pairs, p.text) == n - 1;
      }
    }
  }

  /** The random parts of `aa__placeholder_{d}{L}{d}-{L}az__aa`. */
  datatype TableDraw = TableDraw(digit1: nat, letter1: nat, digit2: nat, letter2: nat)

  function TablePlaceholder(d: TableDraw): string
  {
    "aa__placeholder_" + NatToString(d.digit1 % 10) + [Letter(d.letter1)] + NatToString(d.digit2 % 10)
      + "-" + [Letter(d.letter2)] + "az__aa"
  }

  function TablePlaceholders(draws: nat -> TableDraw): nat -> string
  {
    (i: nat) => TablePlaceholder(draws(i))
  }

  /** Table rows carry the raw label, without a prefix. */
  function TableRows(order: seq<Pair>, letters: nat -> nat, uuid: string): seq<Row>
  {
    TagRows(FirstPerText(order, |order|), "", letters, RunId(uuid))
  }

  function ModifyStatementTablesSpec(html: string, order: seq<Pair>, letters: nat -> nat, uuid: string, draws: nat -> TableDraw): string
  {
    Injected(html, TableRows(order, letters, uuid), TablePlaceholders(draws))
  }

  /** `modify_statement_tabels`, with `order` the iteration order of the set
      of distinct pairs. */
  method ModifyStatementTables(html: string, tableOutput: seq<Pair>, order: seq<Pair>, letters: nat -> nat, uuid: string,
                               draws: nat -> TableDraw)
    returns (r: string)
    requires SetOrder(order, tableOutput)
    ensures r == ModifyStatementTablesSpec(html, order, letters, uuid, draws)
  {
    // Each turn is matched against one unfolding of FirstPerText.
    hide FirstPerText, Texts, Injected;
    var kept: seq<Pair> := [];
    var seen: seq<string> := [];
    TextsSnoc([], Pair("", ""));
    FirstPerTextZero(order);
    var i := 0;
    while i < |order|
      invariant i <= |order|
      invariant kept == FirstPerText(order, i) && seen == Texts(kept)
    {
      var pair := order[i];
      FirstPerTextSucc(order, i + 1);
      if pair.text !in seen {
        TextsSnoc(kept, pair);
        seen := seen + [pair.text];
        kept := kept + [pair];
      }
      i := i + 1;
    }
    var rows := TagRows(kept, "", letters, RunId(uuid));
    r := Inject(html, rows, TablePlaceholders(draws));
  }

  /** Each distinct table text is injected by exactly one row, carrying a
      label it had in the input. */
  lemma TableTextsInjectedOnce(tableOutput: seq<Pair>, order: seq<Pair>, letters: nat -> nat, uuid: string)
    requires SetOrder(order, tableOutput)
    ensures forall i, j :: 0 <= i < j < |TableRows(order, letters, uuid)| ==>
      TableRows(order, letters, uuid)[i].text != TableRows(order, letters, uuid)[j].text
    ensures forall p :: p in tableOutput ==>
      exists i :: 0 <= i < |TableRows(order, letters, uuid)| && TableRows(order, letters, uuid)[i].text == p.text
    ensures forall i :: 0 <= i < |TableRows(order, letters, uuid)| ==>
      Pair(TableRows(order, letters, uuid)[i].text, TableRows(order, letters, uuid)[i].tag) in tableOutput
  {
    hide TableRows;
    TableRowsDistinct(order, letters, uuid);
    TableRowsCover(tableOutput, order, letters, uuid);
    TableRowsFromInput(tableOutput, order, letters, uuid);
  }

  lemma TableRowsDistinct(order: seq<Pair>, letters: nat -> nat, uuid: string)
    ensures forall i, j :: 0 <= i < j < |TableRows(order, letters, uuid)| ==>
      TableRows(order, letters, uuid)[i].text != TableRows(order, letters, uuid)[j].text
  {
    hide FirstPerText, Wrapper;
    FirstPerTextDistinct(order, |order|);
  }

  lemma TableRowsCover(tableOutput: seq<Pair>, order: seq<Pair>, letters: nat -> nat, uuid: string)
    requires forall x :: x in tableOutput ==> x in order
    ensures forall p :: p in tableOutput ==>
      exists i :: 0 <= i < |TableRows(order, letters, uuid)| && TableRows(order, letters, uuid)[i].text == p.text
  {
    hide FirstPerText, Wrapper;
    var kept := FirstPerText(order, |order|);
    var rows := TableRows(order, letters, uuid);
    FirstPerTextCovers(order, |order|);
    forall p | p in tableOutput
      ensures exists i :: 0 <= i < |rows| && rows[i].text == p.text
    {
      var j :| 0 <= j < |order| && order[j] == p;
      assert p.text in Texts(kept);
      var i :| 0 <= i < |kept| && Texts(kept)[i] == p.text;
      assert rows[i].text == p.text;
    }
  }

  lemma TableRowsFromInput(tableOutput: seq<Pair>, order: seq<Pair>, letters: nat -> nat, uuid: string)
    requires forall x :: x in order ==> x in tableOutput
    ensures forall i :: 0 <= i < |TableRows(order, letters, uuid)| ==>
      Pair(TableRows(order, letters, uuid)[i].text, TableRows(order, letters, uuid)[i].tag) in tableOutput
  {
    hide FirstPerText, FirstIndex, Wrapper;
    var kept := FirstPerText(order, |order|);
    var rows := TableRows(order, letters, uuid);
    FirstPerTextKeepsFirst(order, |order|);
    forall i | 0 <= i < |rows|
      ensures Pair(rows[i].text, rows[i].tag) in tableOutput
    {
      var f := FirstIndex(order, kept[i].text);
      assert kept[i] == order[f];
      assert "" + kept[i].tag == kept[i].tag;
      assert Pair(rows[i].text, rows[i].tag) == order[f];
    }
  }

  lemma TablePlaceholderNoNewline(d: TableDraw)
    ensures '\n' !in TablePlaceholder(d)
  {
    NatToStringAvoids(d.digit1 % 10, '\n');
    NatToStringAvoids(d.digit2 % 10, '\n');
    assert '\n' !in "aa__placeholder_" && '\n' !in "az__aa";
  }

  lemma TableRowNoNewline(order: seq<Pair>, letters: nat -> nat, uuid: string, i: nat)
    requires forall p :: p in order ==> '\n' !in p.text && '\n' !in p.tag
    requires '\n' !in uuid && i < |TableRows(order, letters, uuid)|
    ensures '\n' !in TableRows(order, letters, uuid)[i].markup
  {
    var kept := FirstPerText(order, |order|);
    FirstPerTextKeepsFirst(order, |order|);
    assert kept[i] == order[FirstIndex(order, kept[i].text)];
    assert kept[i] in order;
    ReplaceKeepsCharOut(uuid, "-", "", '\n');
    WrapperNoNewline(kept[i].text, "" + kept[i].tag, Letter(letters(i)), RunId(uuid));
  }

  /** The table result has no newline when no text, label or uuid holds
      one. */
  lemma StatementTablesNoNewline(html: string, order: seq<Pair>, letters: nat -> nat, uuid: string, draws: nat -> TableDraw)
    requires forall p :: p in order ==> '\n' !in p.text && '\n' !in p.tag
    requires '\n' !in uuid
    ensures '\n' !in ModifyStatementTablesSpec(html, order, letters, uuid, draws)
  {
    var rows := TableRows(order, letters, uuid);
    var phs := TablePlaceholders(draws);
    forall i | 0 <= i < |rows|
      ensures '\n' !in rows[i].markup && '\n' !in phs(i)
    {
      TableRowNoNewline(order, letters, uuid, i);
      TablePlaceholderNoNewline(draws(i));
    }
    InjectedNoNewline(html, rows, phs);
  }

  // ---------------------------------------------------------------------------
  // modify_notespages

  /** The notes pairs whose text no table pair used. */
  function Unexcluded(pairs: seq<Pair>, exclude: seq<string>): (r: seq<Pair>)
    ensures forall p :: p in r <==> p in pairs && p.text !in exclude
  {
    if pairs == [] then []
    else (if pairs[0].text !in exclude then [pairs[0]] else []) + Unexcluded(pairs[1..], exclude)
  }

  function NotesRows(pairs: seq<Pair>, exclude: seq<string>, letters: nat -> nat, uuid: string): seq<Row>
  {
    TagRows(Unexcluded(pairs, exclude), "us-gaap:", letters, RunId(uuid))
  }

  /** The first `n` rows applied with tag-bounded replacement only. */
  function Bounded(html: string, rows: seq<Row>, n: nat): string
    requires n <= |rows|
  {
    if n == 0 then html
    else Replace(Bounded(html, rows, n - 1), ">" + rows[n - 1].text + "<", ">" + rows[n - 1].markup + "<")
  }

  function ModifyNotespagesSpec(html: string, pairs: seq<Pair>, exclude: seq<string>, letters: nat -> nat, uuid: string): string
  {
    var rows := NotesRows(pairs, exclude, letters, uuid);
    Bounded(html, rows, |rows|)
  }

  /** The loop of `modify_notespages` over its rows. */
  method ApplyBounded(html: string, rows: seq<Row>) returns (r: string)
    ensures r == Bounded(html, rows, |rows|)
  {
    r := html;
    var i := 0;
    while i < |rows|
      invariant i <= |rows|
      invariant r == Bounded(html, rows, i)
    {
      var row := rows[i];
      r := Replace(r, ">" + row.text + "<", ">" + row.markup + "<");
      i := i + 1;
    }
  }

  /** `modify_notespages` */
  method ModifyNotespages(html: string, pairs: seq<Pair>, exclude: seq<string>, letters: nat -> nat, uuid: string)
    returns (r: string)
    ensures r == ModifyNotespagesSpec(html, pairs, exclude, letters, uuid)
  {
    var rows := NotesRows(pairs, exclude, letters, uuid);
    r := ApplyBounded(html, rows);
  }

  /** Notes rows are exactly the notes pairs whose text is not excluded,
      labelled `us-gaap:`. */
  lemma NotesSkipExcluded(pairs: seq<Pair>, exclude: seq<string>, letters: nat -> nat, uuid: string)
    ensures forall i :: 0 <= i < |NotesRows(pairs, exclude, letters, uuid)| ==>
      NotesRows(pairs, exclude, letters, uuid)[i].text !in exclude
    ensures forall p :: p in pairs && p.text !in exclude ==>
      exists i :: 0 <= i < |NotesRows(pairs, exclude, letters, uuid)|
        && NotesRows(pairs, exclude, letters, uuid)[i].text == p.text
        && NotesRows(pairs, exclude, letters, uuid)[i].tag == "us-gaap:" + p.tag
  {
    // Only the contracts of Unexcluded and TagRows are needed.
    hide Unexcluded, TagRows, Wrapper, RunId;
    var kept := Unexcluded(pairs, exclude);
    var rows := NotesRows(pairs, exclude, letters, uuid);
    forall i | 0 <= i < |rows|
      ensures rows[i].text !in exclude
    {
      assert kept[i] in kept;
    }
    forall p | p in pairs && p.text !in exclude
      ensures exists i :: 0 <= i < |rows| && rows[i].text == p.text && rows[i].tag == "us-gaap:" + p.tag
    {
      var i :| 0 <= i < |kept| && kept[i] == p;
      assert rows[i].text == p.text && rows[i].tag == "us-gaap:" + p.tag;
    }
  }

  lemma {:induction false} BoundedUnchanged(html: string, rows: seq<Row>, n: nat)
    requires n <= |rows|
    requires forall i :: 0 <= i < |rows| ==> !Contains(html, ">" + rows[i].text + "<")
    ensures Bounded(html, rows, n) == html
  {
    if n > 0 {
      BoundedUnchanged(html, rows, n - 1);
      ReplaceAbsent(html, ">" + rows[n - 1].text + "<", ">" + rows[n - 1].markup + "<");
    }
  }

  /** A notes pass where no kept text occurs between tags leaves the buffer
      as it was (there is no placeholder fallback). */
  lemma NotesUnchangedWithoutMatch(html: string, pairs: seq<Pair>, exclude: seq<string>, letters: nat -> nat, uuid: string)
    requires forall p :: p in pairs && p.text !in exclude ==> !Contains(html, ">" + p.text + "<")
    ensures ModifyNotespagesSpec(html, pairs, exclude, letters, uuid) == html
  {
    var kept := Unexcluded(pairs, exclude);
    var rows := NotesRows(pairs, exclude, letters, uuid);
    forall i | 0 <= i < |rows|
      ensures !Contains(html, ">" + rows[i].text + "<")
    {
      assert kept[i] in kept;
    }
    BoundedUnchanged(html, rows, |rows|);
  }

  // ---------------------------------------------------------------------------
  // Placeholders that a later text can break

  /** A pattern holding a character the buffer lacks leaves it unchanged. */
  lemma ReplaceAbsentChar(s: string, pat: string, rep: string, c: char)
    requires c in pat && c !in s
    ensures Replace(s, pat, rep) == s
  {
    if Contains(s, pat) {
      ContainsChar(s, pat, c);
      assert false;
    }
    ReplaceAbsent(s, pat, rep);
  }

  lemma NatToStringAvoids(n: nat, c: char)
    requires !IsDigit(c)
    ensures c !in NatToString(n)
  {
    var d := NatToString(n);
    assert forall i :: 0 <= i < |d| ==> IsDigit(d[i]);
  }

  // The inputs of the example below: cover text "QQ" then cover text "10"
  // (both longer than one character, as format_processed_result requires),
  // letter draw 0, an empty uuid, placeholder draws 1045 then 2222.
  const LostPage: string := "QQ10"
  const LostOrder: seq<Pair> := [Pair("QQ", "X"), Pair("10", "X")]
  const LostFirst: string := "__placeholder_" + "1045" + "__"
  const LostSecond: string := "__placeholder_" + "2222" + "__"

  function LostLetters(i: nat): nat
  {
    0
  }

  function LostDraws(i: nat): nat
  {
    if i == 0 then 45 else 1222
  }

  lemma LostDigits()
    ensures NatToString(1045) == "1045" && NatToString(2222) == "2222"
  {
    assert NatToString(1) == "1";
    assert NatToString(10) == NatToString(1) + "0";
    assert NatToString(104) == NatToString(10) + "4";
    assert NatToString(1045) == NatToString(104) + "5";
    assert NatToString(2) == "2";
    assert NatToString(22) == NatToString(2) + "2";
    assert NatToString(222) == NatToString(22) + "2";
    assert NatToString(2222) == NatToString(222) + "2";
  }

  lemma LostPlaceholders()
    ensures CoverPlaceholders(LostDraws)(0) == LostFirst
    ensures CoverPlaceholders(LostDraws)(1) == LostSecond
  {
    // The digits come from LostDigits alone.
    hide NatToString;
    LostDigits();
    assert LostDraws(0) == 45 && LostDraws(1) == 1222;
    assert CoverPlaceholders(LostDraws)(0) == CoverPlaceholder(LostDraws(0));
    assert CoverPlaceholders(LostDraws)(1) == CoverPlaceholder(LostDraws(1));
  }

  lemma LostAfterFirstRow()
    ensures Passes(LostPage, CoverRows(LostOrder, LostLetters, ""), CoverPlaceholders(LostDraws), 1)
      == Pass(LostFirst + "10", NoPending.Put(LostFirst, CoverRows(LostOrder, LostLetters, "")[0].markup))
  {
    // The turns are taken from the lemmas about them.
    hide Passes, Replace, NatToString;
    var rows := CoverRows(LostOrder, LostLetters, "");
    var phs := CoverPlaceholders(LostDraws);
    LostPlaceholders();
    PassesZero(LostPage, rows, phs);
    ReplaceAbsentChar(LostPage, "\n", " ", '\n');
    PassesSucc(LostPage, rows, phs, 1);
    assert rows[0].text == "QQ";
    ReplaceAbsentChar(LostPage, ">" + rows[0].text + "<", ">" + rows[0].markup + "<", '>');
    assert Replace(LostPage, "QQ", LostFirst) == LostFirst + "10" by {
      assert "QQ" <= LostPage && LostPage[2..] == "10";
      ReplaceMatchStep(LostPage, "QQ", LostFirst);
      ReplaceAbsentChar("10", "QQ", LostFirst, 'Q');
    }
  }

  lemma LostLiterals()
    ensures LostFirst != LostSecond && '>' !in LostFirst + "10"
  {
    assert LostFirst[14] != LostSecond[14];
    assert '>' !in "__placeholder_" && '>' !in "1045" && '>' !in "__" && '>' !in "10";
  }

  /** The second text rewrites both of its occurrences: the one after the
      first placeholder and the `10` inside it. */
  lemma LostSecondReplace()
    ensures Replace(LostFirst + "10", "10", LostSecond) == "__placeholder_" + LostSecond + "45__" + LostSecond
  {
    hide Replace;
    var head, tail := "__placeholder_", "45__";
    var rest := "10" + (tail + "10");
    assert LostFirst + "10" == head + rest;
    assert '1' !in head && '1' !in tail;
    ReplaceAfterPlain(head, rest, "10", LostSecond);
    ReplaceMatchStep(rest, "10", LostSecond);
    assert rest[2..] == tail + "10";
    ReplaceAfterPlain(tail, "10", "10", LostSecond);
    ReplaceMatchStep("10", "10", LostSecond);
    assert "10"[2..] == [];
    ReplaceAbsent([], "10", LostSecond);
    assert Replace("10", "10", LostSecond) == LostSecond;
    assert Replace(tail + "10", "10", LostSecond) == tail + LostSecond;
    assert Replace(rest, "10", LostSecond) == LostSecond + (tail + LostSecond);
  }

  lemma LostAfterSecondRow()
    ensures var p := Passes(LostPage, CoverRows(LostOrder, LostLetters, ""), CoverPlaceholders(LostDraws), 2);
      && p.html == Replace(LostFirst + "10", "10", LostSecond)
      && p.pending.order == [LostFirst, LostSecond]
      && LostSecond in p.pending.values
      && p.pending.values[LostSecond] == CoverRows(LostOrder, LostLetters, "")[1].markup
  {
    // The turns are taken from the lemmas about them.
    hide Passes, Step, Replace, NatToString;
    var rows := CoverRows(LostOrder, LostLetters, "");
    var phs := CoverPlaceholders(LostDraws);
    var p1 := Passes(LostPage, rows, phs, 1);
    LostAfterFirstRow();
    LostPlaceholders();
    LostLiterals();
    assert p1.pending.order == [LostFirst] && LostFirst in p1.pending.values;
    assert LostSecond !in p1.pending.values;
    PassesSucc(LostPage, rows, phs, 2);
    StepFallback(p1, rows[1], LostSecond);
  }

  /** A row meets a buffer without `>`: it falls back to a new placeholder. */
  lemma StepFallback(p: Pass, row: Row, placeholder: string)
    requires '>' !in p.html && placeholder !in p.pending.values
    ensures Step(p, row, placeholder).html == Replace(p.html, row.text, placeholder)
    ensures Step(p, row, placeholder).pending.order == p.pending.order + [placeholder]
    ensures placeholder in Step(p, row, placeholder).pending.values
    ensures Step(p, row, placeholder).pending.values[placeholder] == row.markup
  {
    ReplaceAbsentChar(p.html, ">" + row.text + "<", ">" + row.markup + "<", '>');
  }

  lemma LostSecondWrapper()
    ensures 'Q' !in CoverRows(LostOrder, LostLetters, "")[1].markup
  {
    var w := CoverRows(LostOrder, LostLetters, "")[1].markup;
    assert LostLetters(1) == 0;
    assert Letter(0) == 'a';
    assert RunId("") == "";
    assert w == Wrapper("10", "dei:X", 'a', "");
    assert 'Q' !in "dei:X";
    WrapperAvoids("10", "dei:X", 'a', "", 'Q');
  }

  /** As written, a fallback text that occurs inside an earlier placeholder
      breaks it. Cover text "QQ" falls back to `__placeholder_1045__`; the
      next text "10" also falls back and rewrites the `10` inside that
      placeholder, so it is never resolved: the page loses "QQ" altogether,
      neither plain nor wrapped. Both texts are longer than one character,
      so the dei step can produce them. */
  lemma CoverTextLost()
    ensures forall p :: p in LostOrder ==> |p.text| > 1
    ensures Contains(LostPage, "QQ")
    ensures 'Q' !in ModifyCoverpageSpec(LostPage, LostOrder, LostLetters, "", LostDraws)
  {
    hide Passes, Replace, NatToString;
    var rows := CoverRows(LostOrder, LostLetters, "");
    var p := Passes(LostPage, rows, CoverPlaceholders(LostDraws), 2);
    assert "QQ" <= LostPage;
    PassesValid(LostPage, rows, CoverPlaceholders(LostDraws), 2);
    LostAfterSecondRow();
    LostBuffer();
    var x := p.html;
    var first := Replace(x, LostFirst, p.pending.values[LostFirst]);
    assert first == x by {
      assert '1' in LostFirst;
      ReplaceAbsentChar(x, LostFirst, p.pending.values[LostFirst], '1');
    }
    assert Resolved(x, p.pending, 1) == x;
    LostSecondWrapper();
    ReplaceKeepsCharOut(x, LostSecond, rows[1].markup, 'Q');
    assert Resolved(x, p.pending, 2) == Replace(x, LostSecond, rows[1].markup);
  }

  /** After both rows no `1` is left (the first placeholder's digits are
      broken), and no `Q` either. */
  lemma LostBuffer()
    ensures var x := Passes(LostPage, CoverRows(LostOrder, LostLetters, ""), CoverPlaceholders(LostDraws), 2).html;
      '1' !in x && 'Q' !in x
  {
    hide Passes, Replace, NatToString;
    LostAfterSecondRow();
    LostSecondReplace();
    assert '1' !in "__placeholder_" && '1' !in LostSecond && '1' !in "45__";
    assert 'Q' !in "__placeholder_" && 'Q' !in LostSecond && 'Q' !in "45__";
  }

  /** A private-use character the documents and predictions do not contain. */
  const PlaceholderMarker: char := '\U{E000}'

  /** Corrected placeholders: the marker followed by one character drawn per
      row. */
  function MarkedPlaceholders(marks: nat -> char): nat -> string
  {
    (i: nat) => [PlaceholderMarker, marks(i)]
  }

  function ModifyCoverpageMarked(html: string, order: seq<Pair>, letters: nat -> nat, uuid: string, marks: nat -> char): string
  {
    Injected(html, CoverRows(order, letters, uuid), MarkedPlaceholders(marks))
  }

  lemma MarkedRowFresh(order: seq<Pair>, letters: nat -> nat, uuid: string, i: nat)
    requires i < |order| && PlaceholderMarker !in order[i].text && PlaceholderMarker !in order[i].tag
    requires PlaceholderMarker !in uuid
    ensures PlaceholderMarker !in CoverRows(order, letters, uuid)[i].markup
  {
    ReplaceKeepsCharOut(uuid, "-", "", PlaceholderMarker);
    WrapperAvoids(order[i].text, "dei:" + order[i].tag, Letter(letters(i)), RunId(uuid), PlaceholderMarker);
  }

  /** With marked placeholders every fallback is resolved: provided the page,
      the predictions and the uuid never hold the marker and no predicted
      text starts with a drawn character, no placeholder survives. */
  lemma MarkedPlaceholdersResolved(html: string, order: seq<Pair>, letters: nat -> nat, uuid: string, marks: nat -> char)
    requires PlaceholderMarker !in html && PlaceholderMarker !in uuid
    requires forall p :: p in order ==> p.text != [] && PlaceholderMarker !in p.text && PlaceholderMarker !in p.tag
    requires forall i :: 0 <= i < |order| ==> marks(i) != PlaceholderMarker && marks(i) != '>'
    requires forall i, j :: 0 <= i < |order| && 0 <= j < |order| ==> order[j].text[0] != marks(i)
    requires forall i, j :: 0 <= i < j < |order| ==> marks(i) != marks(j)
    ensures PlaceholderMarker !in ModifyCoverpageMarked(html, order, letters, uuid, marks)
    ensures forall i :: 0 <= i < |order| ==>
      !Contains(ModifyCoverpageMarked(html, order, letters, uuid, marks), MarkedPlaceholders(marks)(i))
    ensures var values := Passes(html, CoverRows(order, letters, uuid), MarkedPlaceholders(marks), |order|).pending.values;
      forall i :: 0 <= i < |order| && MarkedPlaceholders(marks)(i) in values ==>
        values[MarkedPlaceholders(marks)(i)] == CoverRows(order, letters, uuid)[i].markup
  {
    // The result is taken from NoPlaceholderSurvives and PassesOwnMarkup alone.
    hide Injected;
    var rows := CoverRows(order, letters, uuid);
    var phs := MarkedPlaceholders(marks);
    MarkedDistinct(order, letters, uuid, marks);
    PassesOwnMarkup(html, rows, phs, |rows|);
    MarkedRowsFresh(order, letters, uuid);
    MarkedShape(order, letters, uuid, marks);
    MarkedNoMatchInside(order, letters, uuid, marks);
    NoPlaceholderSurvives(html, rows, phs, PlaceholderMarker, 2);
  }

  lemma MarkedDistinct(order: seq<Pair>, letters: nat -> nat, uuid: string, marks: nat -> char)
    requires forall i, j :: 0 <= i < j < |order| ==> marks(i) != marks(j)
    ensures forall i, j :: 0 <= i < j < |CoverRows(order, letters, uuid)| ==>
      MarkedPlaceholders(marks)(i) != MarkedPlaceholders(marks)(j)
  {
    forall i, j | 0 <= i < j < |order|
      ensures MarkedPlaceholders(marks)(i) != MarkedPlaceholders(marks)(j)
    {
      assert MarkedPlaceholders(marks)(i)[1] == marks(i);
      assert MarkedPlaceholders(marks)(j)[1] == marks(j);
    }
  }

  lemma MarkedRowsFresh(order: seq<Pair>, letters: nat -> nat, uuid: string)
    requires PlaceholderMarker !in uuid
    requires forall p :: p in order ==> p.text != [] && PlaceholderMarker !in p.text && PlaceholderMarker !in p.tag
    ensures forall j :: 0 <= j < |CoverRows(order, letters, uuid)| ==>
      var row := CoverRows(order, letters, uuid)[j];
      row.text != [] && PlaceholderMarker !in row.text && PlaceholderMarker !in row.markup
  {
    forall j | 0 <= j < |order|
      ensures var row := CoverRows(order, letters, uuid)[j];
        row.text != [] && PlaceholderMarker !in row.text && PlaceholderMarker !in row.markup
    {
      assert order[j] in order;
      MarkedRowFresh(order, letters, uuid, j);
    }
  }

  lemma MarkedShape(order: seq<Pair>, letters: nat -> nat, uuid: string, marks: nat -> char)
    requires forall i :: 0 <= i < |order| ==> marks(i) != PlaceholderMarker && marks(i) != '>'
    ensures forall i :: 0 <= i < |CoverRows(order, letters, uuid)| ==>
      var ph := MarkedPlaceholders(marks)(i);
      |ph| == 2 && Marked(ph, PlaceholderMarker) && '>' !in ph
  {
    forall i | 0 <= i < |order|
      ensures var ph := MarkedPlaceholders(marks)(i);
        |ph| == 2 && Marked(ph, PlaceholderMarker) && '>' !in ph
    {
      assert MarkedPlaceholders(marks)(i)[1..] == [marks(i)];
    }
  }

  lemma MarkedNoMatchInside(order: seq<Pair>, letters: nat -> nat, uuid: string, marks: nat -> char)
    requires forall p :: p in order ==> p.text != []
    requires forall i, j :: 0 <= i < |order| && 0 <= j < |order| ==> order[j].text[0] != marks(i)
    ensures forall i, j :: 0 <= i < |CoverRows(order, letters, uuid)| && 0 <= j < |CoverRows(order, letters, uuid)| ==>
      NoMatchInside(CoverRows(order, letters, uuid)[j].text, MarkedPlaceholders(marks)(i))
  {
    var rows := CoverRows(order, letters, uuid);
    forall i, j | 0 <= i < |rows| && 0 <= j < |rows|
      ensures NoMatchInside(rows[j].text, MarkedPlaceholders(marks)(i))
    {
      assert order[j] in order;
      var t := rows[j].text;
      var ph := MarkedPlaceholders(marks)(i);
      assert ph[1..] == [marks(i)];
      assert t[0] != marks(i);
      assert NoMatchFrom(t, ph, 1);
    }
  }
}
