/** The value helpers of auto_tagging/utils.py: restoring thousands separators,
    pulling the first standalone integer out of a table row, realigning
    sub-tokens to word labels, and turning model output into `{text: label}`
    pairs. */
module Utils {
  import opened Wrappers
  import opened Strings

  /** A one-entry dict `{text: label}`, the unit every section hands to the
      injector. */
  datatype Pair = Pair(text: string, tag: string)

  /** One entry of the cover-page result dict: a harvested row and the
      `(text, label)` tuples found in it. */
  datatype Entry = Entry(row: string, items: seq<Pair>)

  // ---------------------------------------------------------------------------
  // add_commas

  /** Thousands grouping written from the left: the independent reference
      definition of what `add_commas` computes. */
  function Grouped(s: string): string
    decreases |s|
  {
    if |s| <= 3 then s else Grouped(s[..|s| - 3]) + "," + s[|s| - 3..]
  }

  /** Grouping of a reversed string: three characters, a comma, the rest. */
  function GroupedRev(t: string): string
    decreases |t|
  {
    if |t| <= 3 then t else t[..3] + "," + GroupedRev(t[3..])
  }

  lemma {:induction false} GroupedRevSnoc(u: string, x: char)
    ensures GroupedRev(u + [x]) == GroupedRev(u) + (if |u| > 0 && |u| % 3 == 0 then "," else "") + [x]
    decreases |u|
  {
    if |u| > 3 {
      GroupedRevSnoc(u[3..], x);
      assert (u + [x])[..3] == u[..3];
      assert (u + [x])[3..] == u[3..] + [x];
    } else if |u| == 3 {
      assert (u + [x])[..3] == u;
      assert (u + [x])[3..] == [x];
    }
  }

  lemma {:induction false} GroupedRevReversed(s: string)
    ensures Reverse(GroupedRev(Reverse(s))) == Grouped(s)
    decreases |s|
  {
    if |s| > 3 {
      var a, b := s[..|s| - 3], s[|s| - 3..];
      assert s == a + b;
      ReverseAppend(a, b);
      var t := Reverse(s);
      assert t[..3] == Reverse(b) && t[3..] == Reverse(a);
      GroupedRevReversed(a);
      ReverseAppend(Reverse(b) + ",", GroupedRev(Reverse(a)));
      ReverseAppend(Reverse(b), ",");
      ReverseReverse(b);
    } else {
      ReverseReverse(s);
    }
  }

  /** `add_commas`: reverse, put a comma after every third character that is
      not the last, reverse back. */
  method AddCommas(s: string) returns (r: string)
    ensures r == Grouped(s)
  {
    var t := Reverse(s);
    var acc: string := [];
    var i := 1;
    while i <= |t|
      invariant 1 <= i <= |t| + 1
      invariant acc == GroupedRev(t[..i - 1]) + (if 1 < i <= |t| && (i - 1) % 3 == 0 then "," else "")
    {
      GroupedRevSnoc(t[..i - 1], t[i - 1]);
      assert t[..i - 1] + [t[i - 1]] == t[..i];
      acc := acc + [t[i - 1]];
      if i < |t| && i % 3 == 0 {
        acc := acc + ",";
      }
      i := i + 1;
    }
    assert t[..|t|] == t;
    GroupedRevReversed(s);
    r := Reverse(acc);
  }

  lemma RemoveCharAppend(a: string, b: string, c: char)
    ensures RemoveChar(a + b, c) == RemoveChar(a, c) + RemoveChar(b, c)
  {
    if a == [] {
      assert a + b == b;
    } else {
      assert (a + b)[1..] == a[1..] + b;
      RemoveCharAppend(a[1..], b, c);
    }
  }

  lemma RemoveCharAbsent(s: string, c: char)
    requires c !in s
    ensures RemoveChar(s, c) == s
  {
    if s != [] {
      RemoveCharAbsent(s[1..], c);
    }
  }

  lemma RemoveCommaJoin(g: string, b: string)
    requires ',' !in b
    ensures RemoveChar(g + "," + b, ',') == RemoveChar(g, ',') + b
  {
    var comma: string := ",";
    assert RemoveChar(comma, ',') == [] by { assert comma[0] == ',' && comma[1..] == []; }
    RemoveCharAppend(g + comma, b, ',');
    RemoveCharAppend(g, comma, ',');
    RemoveCharAbsent(b, ',');
    assert RemoveChar(g + comma, ',') == RemoveChar(g, ',');
  }

  /** Deleting every comma from the output of `add_commas` gives the
      (comma-free) input back. */
  lemma {:induction false} GroupedUncommas(s: string)
    requires ',' !in s
    ensures RemoveChar(Grouped(s), ',') == s
    decreases |s|
  {
    if |s| <= 3 {
      RemoveCharAbsent(s, ',');
    } else {
      var a, b := s[..|s| - 3], s[|s| - 3..];
      assert ',' !in a && ',' !in b;
      assert Grouped(s) == Grouped(a) + "," + b;
      GroupedUncommas(a);
      RemoveCommaJoin(Grouped(a), b);
      assert a + b == s;
    }
  }

  /** For non-empty input of length n the output has n + (n - 1) / 3
      characters. */
  lemma {:induction false} GroupedLength(s: string)
    requires s != []
    ensures |Grouped(s)| == |s| + (|s| - 1) / 3
    decreases |s|
  {
    if |s| > 3 {
      GroupedLength(s[..|s| - 3]);
    }
  }

  /** Counted from the right (k = 0 is the last character), the output holds a
      comma exactly at the positions k with k % 4 == 3; in particular never at
      either end, and one after every third input character. */
  lemma {:induction false} GroupedCommaPositions(s: string, k: nat)
    requires ',' !in s && k < |Grouped(s)|
    ensures Grouped(s)[|Grouped(s)| - 1 - k] == ',' <==> k % 4 == 3
    decreases |s|
  {
    if |s| > 3 {
      var a, b := s[..|s| - 3], s[|s| - 3..];
      assert ',' !in a && ',' !in b;
      var g, ga := Grouped(s), Grouped(a);
      assert g == ga + "," + b;
      assert |g| == |ga| + 4;
      if k >= 4 {
        GroupedCommaPositions(a, k - 4);
        assert g[|g| - 1 - k] == ga[|ga| - 1 - (k - 4)];
      } else if k < 3 {
        assert g[|g| - 1 - k] == b[2 - k];
      } else {
        assert g[|g| - 1 - k] == g[|ga|] == ',';
      }
    } else {
      assert Grouped(s)[|s| - 1 - k] in s;
    }
  }

  // ---------------------------------------------------------------------------
  // extract_number_from_text

  /** The end of the run of digits starting at `i`. */
  function DigitRunEnd(s: string, i: nat): (j: nat)
    requires i <= |s|
    ensures i <= j <= |s|
    ensures forall k :: i <= k < j ==> IsDigit(s[k])
    ensures j == |s| || !IsDigit(s[j])
    decreases |s| - i
  {
    if i < |s| && IsDigit(s[i]) then DigitRunEnd(s, i + 1) else i
  }

  /** `\b\d+\b` matches at `i`: a digit preceded by the start or a non-word
      character, whose maximal digit run ends at the end or before a non-word
      character (ending the match earlier would leave `\b` between two
      digits). */
  predicate StandaloneAt(s: string, i: nat)
  {
    && i < |s| && IsDigit(s[i])
    && (i == 0 || !IsWordChar(s[i - 1]))
    && (DigitRunEnd(s, i) == |s| || !IsWordChar(s[DigitRunEnd(s, i)]))
  }

  /** The leftmost match at or after `from` (what `re.search` finds). */
  function FirstStandalone(s: string, from: nat): (r: Option<nat>)
    ensures r.Some? ==> from <= r.value && StandaloneAt(s, r.value)
    ensures r.Some? ==> forall k :: from <= k < r.value ==> !StandaloneAt(s, k)
    ensures r.None? ==> forall k :: from <= k ==> !StandaloneAt(s, k)
    decreases |s| - from
  {
    if from >= |s| then None
    else if StandaloneAt(s, from) then Some(from)
    else FirstStandalone(s, from + 1)
  }


  function DigitValue(c: char): nat
  {
    if IsDigit(c) then (c as int - '0' as int) else 0
  }

  /** `int(d)` for a string of ASCII digits. */
  function DigitsValue(d: string): nat
  {
    if d == [] then 0 else DigitsValue(d[..|d| - 1]) * 10 + DigitValue(d[|d| - 1])
  }

  /** `str(n)` for a non-negative integer. */
  function NatToString(n: nat): (r: string)
    ensures r != [] && forall i :: 0 <= i < |r| ==> IsDigit(r[i])
    ensures |r| > 1 ==> r[0] != '0'
  {
    if n < 10 then ['0' + n as char]
    else NatToString(n / 10) + ['0' + (n % 10) as char]
  }

  /** `int(str(n)) == n`. */
  lemma {:induction false} NatToStringRoundTrip(n: nat)
    ensures DigitsValue(NatToString(n)) == n
  {
    if n >= 10 {
      NatToStringRoundTrip(n / 10);
      var r := NatToString(n);
      assert r[..|r| - 1] == NatToString(n / 10);
    } else {
      assert NatToString(n)[..0] == [];
    }
  }

  /** The result of `extract_number_from_text`: an int, or the text itself. */
  datatype Extracted = Number(n: nat) | Unchanged(text: string)

  function ExtractNumberFromText(text: string): (r: Extracted)
    ensures r.Number? <==> exists i: nat :: StandaloneAt(text, i)
    ensures r.Number? ==> exists i: nat ::
      && StandaloneAt(text, i)
      && (forall k :: 0 <= k < i ==> !StandaloneAt(text, k))
      && r.n == DigitsValue(text[i..DigitRunEnd(text, i)])
    ensures r.Unchanged? ==> r.text == text
  {
    match FirstStandalone(text, 0)
    case Some(i) => Number(DigitsValue(text[i..DigitRunEnd(text, i)]))
    case None => Unchanged(text)
  }

  /** `int()` drops leading zeros: "007" reads as 7. */
  lemma LeadingZerosLost()
    ensures ExtractNumberFromText("id 007") == Number(7)
  {
    var s := "id 007";
    assert StandaloneAt(s, 3);
    assert !StandaloneAt(s, 0) && !StandaloneAt(s, 1) && !StandaloneAt(s, 2);
    assert DigitRunEnd(s, 3) == 6;
    assert s[3..6] == "007";
    assert "007"[..2] == "00" && "00"[..1] == "0" && "0"[..0] == "";
  }

  // ---------------------------------------------------------------------------
  // post_process

  /** Sub-tokens that open a word: the sentence markers and `Ġ`-prefixed
      pieces. */
  predicate StartsWord(sub: string)
  {
    sub == "<s>" || sub == "</s>" || (sub != [] && sub[0] == 'Ġ')
  }

  /** What one sub-token adds to the reconstructed sentence. */
  function Piece(sub: string): string
  {
    if sub == "<pad>" then []
    else if StartsWord(sub) then " " + RemoveChar(sub, 'Ġ')
    else sub
  }

  function Sentence(subs: seq<string>, n: nat): string
    requires n <= |subs|
  {
    if n == 0 then [] else Sentence(subs, n - 1) + Piece(subs[n - 1])
  }

  function WordLabels<L>(subs: seq<string>, preds: seq<L>, n: nat): seq<L>
    requires n <= |subs| && n <= |preds|
  {
    if n == 0 then []
    else WordLabels(subs, preds, n - 1)
         + (if subs[n - 1] != "<pad>" && StartsWord(subs[n - 1]) then [preds[n - 1]] else [])
  }

  function Min(a: nat, b: nat): nat
  {
    if a < b then a else b
  }

  /** One turn of `post_process`: the sentence and labels grow by what the
      `i`-th sub-token adds. */
  method PostStep<L>(subs: seq<string>, preds: seq<L>, i: nat, sentence0: string, labels0: seq<L>)
    returns (sentence: string, labels: seq<L>)
    requires i < |subs| && i < |preds|
    requires sentence0 == Sentence(subs, i) && labels0 == WordLabels(subs, preds, i)
    ensures sentence == Sentence(subs, i + 1) && labels == WordLabels(subs, preds, i + 1)
  {
    var sub := subs[i];
    sentence, labels := sentence0, labels0;
    if sub != "<pad>" {
      if StartsWord(sub) {
        sentence := sentence0 + (" " + RemoveChar(sub, 'Ġ'));
        labels := labels0 + [preds[i]];
      } else {
        sentence := sentence0 + sub;
      }
    }
  }

  /** `post_process`: zips the sub-tokens with their predictions (extra ones
      on either side are ignored), rebuilding the sentence and keeping one
      label per word. */
  method PostProcess<L>(subs: seq<string>, preds: seq<L>) returns (sentence: string, labels: seq<L>)
    ensures sentence == Sentence(subs, Min(|subs|, |preds|))
    ensures labels == WordLabels(subs, preds, Min(|subs|, |preds|))
  {
    sentence, labels := "", [];
    var n := if |subs| < |preds| then |subs| else |preds|;
    var i := 0;
    while i < n
      invariant i <= n
      invariant sentence == Sentence(subs, i)
      invariant labels == WordLabels(subs, preds, i)
    {
      sentence, labels := PostStep(subs, preds, i, sentence, labels);
      i := i + 1;
    }
  }

  function CountChar(s: string, c: char): nat
  {
    if s == [] then 0 else (if s[0] == c then 1 else 0) + CountChar(s[1..], c)
  }

  lemma CountCharAppend(a: string, b: string, c: char)
    ensures CountChar(a + b, c) == CountChar(a, c) + CountChar(b, c)
  {
    if a == [] {
      assert a + b == b;
    } else {
      assert (a + b)[1..] == a[1..] + b;
      CountCharAppend(a[1..], b, c);
    }
  }

  lemma CountCharAbsent(s: string, c: char)
    requires c !in s
    ensures CountChar(s, c) == 0
  {
    if s != [] {
      CountCharAbsent(s[1..], c);
    }
  }

  lemma RemoveCharKeepsOut(s: string, c: char, d: char)
    requires d !in s
    ensures d !in RemoveChar(s, c)
  {
    if s != [] {
      RemoveCharKeepsOut(s[1..], c, d);
    }
  }

  /** When no sub-token holds a space, the sentence holds exactly one space
      per label: every label opens one space-prefixed word, and `<pad>` and
      continuation pieces add none. */
  lemma {:induction false} OneSpacePerLabel<L>(subs: seq<string>, preds: seq<L>, n: nat)
    requires n <= |subs| && n <= |preds|
    requires forall i :: 0 <= i < n ==> ' ' !in subs[i]
    ensures CountChar(Sentence(subs, n), ' ') == |WordLabels(subs, preds, n)|
  {
    if n > 0 {
      OneSpacePerLabel(subs, preds, n - 1);
      var sub := subs[n - 1];
      CountCharAppend(Sentence(subs, n - 1), Piece(sub), ' ');
      if sub != "<pad>" && StartsWord(sub) {
        RemoveCharKeepsOut(sub, 'Ġ', ' ');
        CountCharAbsent(RemoveChar(sub, 'Ġ'), ' ');
        CountCharAppend(" ", RemoveChar(sub, 'Ġ'), ' ');
      } else if sub != "<pad>" {
        CountCharAbsent(sub, ' ');
      }
    }
  }

  /** Splitting a one-character separator yields one more piece than there
      are separators. */
  lemma {:induction false} SplitOnCount(s: string, d: char)
    ensures |SplitOn(s, d)| == CountChar(s, d) + 1
    decreases |s|
  {
    if s != [] {
      SplitOnCount(s[1..], d);
    }
  }

  // ---------------------------------------------------------------------------
  // process_table_results / process_notes_results

  /** The injection key for one table prediction: the first standalone integer
      of the row once the table and column names are removed, with its
      thousands separators restored (or the whole cleaned row, grouped, when
      there is no integer). */
  function TableKey(tableName: string, column: string, row: string): string
  {
    var line := Replace(Replace(row, tableName, ""), column, "");
    match ExtractNumberFromText(line)
    case Number(n) => Grouped(NatToString(n))
    case Unchanged(t) => Grouped(t)
  }

  /** `process_table_results`: one pair per zipped 4-tuple. */
  function ProcessTableResults(names: seq<string>, columns: seq<string>, inputs: seq<string>, outputs: seq<string>)
    : (r: seq<Pair>)
    ensures |r| == Min(Min(|names|, |columns|), Min(|inputs|, |outputs|))
    ensures forall i :: 0 <= i < |r| ==> r[i] == Pair(TableKey(names[i], columns[i], inputs[i]), outputs[i])
  {
    if names == [] || columns == [] || inputs == [] || outputs == [] then []
    else [Pair(TableKey(names[0], columns[0], inputs[0]), outputs[0])]
         + ProcessTableResults(names[1..], columns[1..], inputs[1..], outputs[1..])
  }

  /** A table key found from a standalone integer reads back as that integer
      once its commas are deleted, and is made of digits and commas only. */
  lemma TableKeyReadsBack(tableName: string, column: string, row: string)
    requires ExtractNumberFromText(Replace(Replace(row, tableName, ""), column, "")).Number?
    ensures DigitsValue(RemoveChar(TableKey(tableName, column, row), ','))
            == ExtractNumberFromText(Replace(Replace(row, tableName, ""), column, "")).n
  {
    var n := ExtractNumberFromText(Replace(Replace(row, tableName, ""), column, "")).n;
    var d := NatToString(n);
    assert ',' !in d by {
      assert forall i :: 0 <= i < |d| ==> d[i] != ',' by {
        assert forall i :: 0 <= i < |d| ==> IsDigit(d[i]);
      }
    }
    GroupedUncommas(d);
    NatToStringRoundTrip(n);
  }

  /** The inner loop of `process_notes_results` for one row: the zipped
      `(word, label)` pairs whose label is not "O". */
  function LabelledWords(words: seq<string>, labels: seq<string>): (r: seq<Pair>)
    ensures forall p :: p in r ==> p.tag != "O"
  {
    if words == [] || labels == [] then []
    else (if labels[0] != "O" then [Pair(words[0], labels[0])] else [])
         + LabelledWords(words[1..], labels[1..])
  }

  /** `process_notes_results` */
  function ProcessNotesResults(inputs: seq<string>, outputs: seq<seq<string>>): (r: seq<Pair>)
    ensures forall p :: p in r ==> p.tag != "O"
  {
    if inputs == [] || outputs == [] then []
    else LabelledWords(SplitWs(inputs[0]), outputs[0]) + ProcessNotesResults(inputs[1..], outputs[1..])
  }

  /** Reference: every zipped `(word, label)` pair, row after row. */
  function Zip(words: seq<string>, labels: seq<string>): seq<Pair>
  {
    if words == [] || labels == [] then [] else [Pair(words[0], labels[0])] + Zip(words[1..], labels[1..])
  }

  function ZippedRows(inputs: seq<string>, outputs: seq<seq<string>>): seq<Pair>
  {
    if inputs == [] || outputs == [] then []
    else Zip(SplitWs(inputs[0]), outputs[0]) + ZippedRows(inputs[1..], outputs[1..])
  }

  function WithoutO(ps: seq<Pair>): seq<Pair>
  {
    if ps == [] then [] else (if ps[0].tag != "O" then [ps[0]] else []) + WithoutO(ps[1..])
  }

  lemma WithoutOAppend(a: seq<Pair>, b: seq<Pair>)
    ensures WithoutO(a + b) == WithoutO(a) + WithoutO(b)
  {
    if a == [] {
      assert a + b == b;
    } else {
      assert (a + b)[1..] == a[1..] + b;
      WithoutOAppend(a[1..], b);
    }
  }

  lemma {:induction false} LabelledWordsIsFilter(words: seq<string>, labels: seq<string>)
    ensures LabelledWords(words, labels) == WithoutO(Zip(words, labels))
    decreases |words|
  {
    if words != [] && labels != [] {
      LabelledWordsIsFilter(words[1..], labels[1..]);
      WithoutOAppend([Pair(words[0], labels[0])], Zip(words[1..], labels[1..]));
    }
  }

  /** `process_notes_results` emits exactly the zipped pairs whose label is
      not "O", in order. */
  lemma {:induction false} ProcessNotesResultsIsFilter(inputs: seq<string>, outputs: seq<seq<string>>)
    ensures ProcessNotesResults(inputs, outputs) == WithoutO(ZippedRows(inputs, outputs))
    decreases |inputs|
  {
    if inputs != [] && outputs != [] {
      ProcessNotesResultsIsFilter(inputs[1..], outputs[1..]);
      LabelledWordsIsFilter(SplitWs(inputs[0]), outputs[0]);
      WithoutOAppend(Zip(SplitWs(inputs[0]), outputs[0]), ZippedRows(inputs[1..], outputs[1..]));
    }
  }
}
