/** auto_tagging/notes_utils.py: cutting the text of the notes sections into
    token lists for the notes tagger, and dropping the sentences it labelled
    all "O". */
module NotesUtils {
  import opened Wrappers
  import opened Strings
  import opened Utils
  import DeiUtils

  // ---------------------------------------------------------------------------
  // process_text

  /** `token.endswith(".")` */
  predicate EndsWithDot(s: string)
  {
    |s| > 0 && s[|s| - 1] == '.'
  }

  /** One token of a sentence: every `$` removed, then every `.` when it
      ends with one. */
  function CleanToken(token: string): (r: string)
    ensures '$' !in r && !EndsWithDot(r)
  {
    var s := RemoveChar(token, '$');
    if EndsWithDot(s) then
      RemoveCharKeepsOut(s, '.', '$');
      RemoveChar(s, '.')
    else s
  }

  /** A token without `$` and not ending in `.` passes through unchanged. */
  lemma CleanTokenPlain(token: string)
    requires '$' !in token && !EndsWithDot(token)
    ensures CleanToken(token) == token
  {
    RemoveCharAbsent(token, '$');
  }

  /** The cleaned tokens of the first `k` space-separated pieces. */
  function CleanTokens(pieces: seq<string>, k: nat): (r: seq<string>)
    requires k <= |pieces|
    ensures |r| == k
  {
    if k == 0 then [] else CleanTokens(pieces, k - 1) + [CleanToken(pieces[k - 1])]
  }

  /** Token `i` is piece `i` cleaned. */
  lemma {:induction false} CleanTokensAt(pieces: seq<string>, k: nat)
    requires k <= |pieces|
    ensures forall i :: 0 <= i < k ==> CleanTokens(pieces, k)[i] == CleanToken(pieces[i])
  {
    if k > 0 {
      CleanTokensAt(pieces, k - 1);
    }
  }

  /** The cleaned tokens of one sentence. */
  function SentenceTokensSpec(sentence: string): (r: seq<string>)
    ensures |r| == |SplitOn(sentence, ' ')|
  {
    CleanTokens(SplitOn(sentence, ' '), |SplitOn(sentence, ' ')|)
  }

  /** No token of a sentence holds a `$` or ends with a `.`. */
  lemma SentenceTokensClean(sentence: string)
    ensures forall i :: 0 <= i < |SentenceTokensSpec(sentence)| ==>
              '$' !in SentenceTokensSpec(sentence)[i] && !EndsWithDot(SentenceTokensSpec(sentence)[i])
  {
    CleanTokensAt(SplitOn(sentence, ' '), |SplitOn(sentence, ' ')|);
  }

  /** `len(set(tokens)) > 1` */
  predicate Varied(tokens: seq<string>)
  {
    |set t | t in tokens| > 1
  }

  /** A sentence is kept exactly when two of its tokens differ. */
  lemma VariedIff(tokens: seq<string>)
    ensures Varied(tokens) <==> exists i, j :: 0 <= i < |tokens| && 0 <= j < |tokens| && tokens[i] != tokens[j]
  {
    var s := set t | t in tokens;
    if exists i, j :: 0 <= i < |tokens| && 0 <= j < |tokens| && tokens[i] != tokens[j] {
      var i, j :| 0 <= i < |tokens| && 0 <= j < |tokens| && tokens[i] != tokens[j];
      assert {tokens[i], tokens[j]} <= s;
      assert |{tokens[i], tokens[j]}| == 2;
      SubsetCard({tokens[i], tokens[j]}, s);
    } else if tokens != [] {
      assert s <= {tokens[0]};
      SubsetCard(s, {tokens[0]});
    } else {
      assert s == {};
    }
  }

  lemma SubsetCard<T>(a: set<T>, b: set<T>)
    requires a <= b
    ensures |a| <= |b|
  {
    assert b == a + (b - a);
  }

  /** The tokens of the first `n` sentences, each sentence's kept only when
      varied. */
  function ProcessTextSpec(sentences: seq<string>, n: nat): (r: seq<string>)
    requires n <= |sentences|
  {
    if n == 0 then []
    else
      var tokens := SentenceTokensSpec(sentences[n - 1]);
      ProcessTextSpec(sentences, n - 1) + (if Varied(tokens) then tokens else [])
  }

  /** No output token holds a `$` or ends with a `.`. */
  lemma {:induction false} ProcessTextTokens(sentences: seq<string>, n: nat)
    requires n <= |sentences|
    ensures forall i :: 0 <= i < |ProcessTextSpec(sentences, n)| ==>
              '$' !in ProcessTextSpec(sentences, n)[i] && !EndsWithDot(ProcessTextSpec(sentences, n)[i])
  {
    if n > 0 {
      ProcessTextTokens(sentences, n - 1);
      SentenceTokensClean(sentences[n - 1]);
    }
  }

  /** Every token equals the first. */
  predicate Uniform(tokens: seq<string>)
  {
    forall i :: 0 <= i < |tokens| ==> tokens[i] == tokens[0]
  }

  /** A sentence whose tokens are all one and the same adds nothing; one
      with two different tokens adds them all. */
  lemma SentenceVerdict(sentences: seq<string>, n: nat)
    requires 0 < n <= |sentences|
    ensures var tokens := SentenceTokensSpec(sentences[n - 1]);
            && (Uniform(tokens) ==> ProcessTextSpec(sentences, n) == ProcessTextSpec(sentences, n - 1))
            && (!Uniform(tokens) ==> ProcessTextSpec(sentences, n) == ProcessTextSpec(sentences, n - 1) + tokens)
  {
    var tokens := SentenceTokensSpec(sentences[n - 1]);
    VariedIff(tokens);
    if !Uniform(tokens) {
      var i :| 0 <= i < |tokens| && tokens[i] != tokens[0];
    }
  }

  /** The cleaned tokens of one sentence. */
  method SentenceTokens(sentence: string) returns (tokens: seq<string>)
    ensures tokens == SentenceTokensSpec(sentence)
  {
    var pieces := SplitOn(sentence, ' ');
    tokens := [];
    for k := 0 to |pieces|
      invariant tokens == CleanTokens(pieces, k)
    {
      var strip := RemoveChar(pieces[k], '$');
      if |strip| > 0 && strip[|strip| - 1] == '.' {
        strip := RemoveChar(strip, '.');
      }
      tokens := tokens + [strip];
    }
  }

  /** process_text, with nltk's sentence splitter already applied. */
  method ProcessText(sentences: seq<string>) returns (ipText: seq<string>)
    ensures ipText == ProcessTextSpec(sentences, |sentences|)
  {
    ipText := [];
    for n := 0 to |sentences|
      invariant ipText == ProcessTextSpec(sentences, n)
    {
      var tokens := SentenceTokens(sentences[n]);
      if Varied(tokens) {
        ipText := ipText + tokens;
      }
    }
  }

  // ---------------------------------------------------------------------------
  // get_NER_Data

  /** The token list one element yields, if any: its sentences' kept tokens
      joined by spaces, cleaned, and split on spaces again. */
  function ElementRow(nlp: DeiUtils.Nlp, text: string): (r: Option<seq<string>>)
    ensures r.Some? ==> |r.value| >= 1
  {
    var ip := ProcessTextSpec(nlp.sentences(text), |nlp.sentences(text)|);
    if ip == [] then None else Some(SplitOn(nlp.clean(Join(ip, " ")), ' '))
  }

  /** The rows of the first `n` elements. */
  function NerRows(nlp: DeiUtils.Nlp, texts: seq<string>, n: nat): (r: seq<seq<string>>)
    requires n <= |texts|
    ensures |r| <= n
  {
    if n == 0 then []
    else
      var prev := NerRows(nlp, texts, n - 1);
      match ElementRow(nlp, texts[n - 1])
      case None => prev
      case Some(row) => prev + [row]
  }

  /** get_NER_Data after the tables are cut out: the `<p>` texts when there
      are any, the `<span>` texts otherwise. */
  function NerData(nlp: DeiUtils.Nlp, ps: seq<string>, spans: seq<string>): seq<seq<string>>
  {
    var texts := if ps != [] then ps else spans;
    NerRows(nlp, texts, |texts|)
  }

  /** One `<p>` is enough for the spans to be ignored. */
  lemma SpansIgnoredWithParagraphs(nlp: DeiUtils.Nlp, ps: seq<string>, spans: seq<string>, other: seq<string>)
    requires ps != []
    ensures NerData(nlp, ps, spans) == NerData(nlp, ps, other)
  {
  }

  /** Every row produced holds at least one token, and each element yields
      at most one row. */
  lemma {:induction false} NerRowsNonEmpty(nlp: DeiUtils.Nlp, texts: seq<string>, n: nat)
    requires n <= |texts|
    ensures forall i :: 0 <= i < |NerRows(nlp, texts, n)| ==> |NerRows(nlp, texts, n)[i]| >= 1
  {
    if n > 0 {
      NerRowsNonEmpty(nlp, texts, n - 1);
    }
  }

  lemma NerRowsUnfold(nlp: DeiUtils.Nlp, texts: seq<string>, n: nat)
    requires n <= |texts|
    ensures NerRows(nlp, texts, 0) == []
    ensures 0 < n ==> NerRows(nlp, texts, n) ==
                        (if ElementRow(nlp, texts[n - 1]).Some?
                         then NerRows(nlp, texts, n - 1) + [ElementRow(nlp, texts[n - 1]).value]
                         else NerRows(nlp, texts, n - 1))
  {
  }

  /** The loop over the chosen elements. */
  method GetNerData(nlp: DeiUtils.Nlp, ps: seq<string>, spans: seq<string>) returns (total: seq<seq<string>>)
    ensures total == NerData(nlp, ps, spans)
  {
    // Each turn is matched against one unfolding of NerRows.
    hide NerRows, ProcessTextSpec, SplitOn, Join;
    var texts := if ps != [] then ps else spans;
    total := [];
    NerRowsUnfold(nlp, texts, 0);
    for n := 0 to |texts|
      invariant total == NerRows(nlp, texts, n)
    {
      var ip := ProcessText(nlp.sentences(texts[n]));
      NerRowsUnfold(nlp, texts, n + 1);
      if ip != [] {
        total := total + [SplitOn(nlp.clean(Join(ip, " ")), ' ')];
      }
    }
  }

  // ---------------------------------------------------------------------------
  // clean_notes_outputs

  /** `list(set(labels))[0]`: which label comes first depends on the set's
      iteration order, given here as `pick`. */
  function FirstLabel(labels: seq<string>, pick: seq<string> -> nat): (r: string)
    requires labels != []
    ensures r in labels
  {
    labels[pick(labels) % |labels|]
  }

  /** Row `i` has no label row, or an empty one: `outputs[index]` or
      `label[0]` raises IndexError. */
  predicate Missing(outputs: seq<seq<string>>, i: nat)
  {
    i >= |outputs| || outputs[i] == []
  }

  /** The rows kept of the first `n` (tokens, labels) pairs; IndexError when
      a label row is missing or empty. */
  function KeptNotes<I>(inputs: seq<I>, outputs: seq<seq<string>>, pick: seq<string> -> nat, n: nat)
    : (r: Result<(seq<I>, seq<seq<string>>)>)
    requires n <= |inputs|
    ensures r.Success? ==> |r.value.0| == |r.value.1|
    ensures r.Failure? ==> r.error == IndexError
  {
    if n == 0 then Success(([], []))
    else
      match KeptNotes(inputs, outputs, pick, n - 1)
      case Failure(e) => Failure(e)
      case Success(prev) =>
        if Missing(outputs, n - 1) then Failure(IndexError)
        else if FirstLabel(outputs[n - 1], pick) != "O" then
          Success((prev.0 + [inputs[n - 1]], prev.1 + [outputs[n - 1]]))
        else Success(prev)
  }

  /** The cleaning fails exactly when some input row lacks a non-empty
      label row. */
  lemma {:induction false} KeptNotesFailsIff<I>(inputs: seq<I>, outputs: seq<seq<string>>, pick: seq<string> -> nat, n: nat)
    requires n <= |inputs|
    ensures KeptNotes(inputs, outputs, pick, n).Failure? <==>
              exists i :: 0 <= i < n && Missing(outputs, i)
  {
    if n > 0 {
      KeptNotesFailsIff(inputs, outputs, pick, n - 1);
      if exists i :: 0 <= i < n && Missing(outputs, i) {
        var i :| 0 <= i < n && Missing(outputs, i);
        if i < n - 1 {
          assert KeptNotes(inputs, outputs, pick, n - 1).Failure?;
        }
      } else {
        assert !Missing(outputs, n - 1);
      }
    }
  }

  /** Every label is "O". */
  predicate AllO(labels: seq<string>)
  {
    forall k :: 0 <= k < |labels| ==> labels[k] == "O"
  }

  /** Whatever the set order: a row labelled all "O" is dropped and a row
      without any "O" is kept, together with its tokens. */
  lemma NotesRowVerdict<I>(inputs: seq<I>, outputs: seq<seq<string>>, pick: seq<string> -> nat, n: nat)
    requires 0 < n <= |inputs| && n <= |outputs| && outputs[n - 1] != []
    requires KeptNotes(inputs, outputs, pick, n - 1).Success?
    ensures var prev := KeptNotes(inputs, outputs, pick, n - 1).value;
            && (AllO(outputs[n - 1]) ==> KeptNotes(inputs, outputs, pick, n) == Success(prev))
            && ("O" !in outputs[n - 1] ==>
                  KeptNotes(inputs, outputs, pick, n) == Success((prev.0 + [inputs[n - 1]], prev.1 + [outputs[n - 1]])))
  {
  }

  /** Each kept row travels with its own labels. */
  lemma {:induction false} KeptNotesAligned<I>(inputs: seq<I>, outputs: seq<seq<string>>, pick: seq<string> -> nat, n: nat)
    requires n <= |inputs|
    requires KeptNotes(inputs, outputs, pick, n).Success?
    ensures var r := KeptNotes(inputs, outputs, pick, n).value;
            forall k :: 0 <= k < |r.0| ==> exists i :: 0 <= i < n && i < |outputs| && r.0[k] == inputs[i] && r.1[k] == outputs[i]
  {
    if n > 0 {
      KeptNotesAligned(inputs, outputs, pick, n - 1);
      var prev := KeptNotes(inputs, outputs, pick, n - 1).value;
      var r := KeptNotes(inputs, outputs, pick, n).value;
      forall k | 0 <= k < |r.0|
        ensures exists i :: 0 <= i < n && i < |outputs| && r.0[k] == inputs[i] && r.1[k] == outputs[i]
      {
        if k < |prev.0| {
          assert r.0[k] == prev.0[k] && r.1[k] == prev.1[k];
          var i :| 0 <= i < n - 1 && i < |outputs| && prev.0[k] == inputs[i] && prev.1[k] == outputs[i];
        } else {
          assert r.0[k] == inputs[n - 1] && r.1[k] == outputs[n - 1];
        }
      }
    }
  }

  /** clean_notes_outputs */
  method CleanNotesOutputs<I>(inputs: seq<I>, outputs: seq<seq<string>>, pick: seq<string> -> nat)
    returns (r: Result<(seq<I>, seq<seq<string>>)>)
    ensures r == KeptNotes(inputs, outputs, pick, |inputs|)
  {
    var newInputs: seq<I> := [];
    var newOutputs: seq<seq<string>> := [];
    for index := 0 to |inputs|
      invariant KeptNotes(inputs, outputs, pick, index) == Success((newInputs, newOutputs))
    {
      if index >= |outputs| || outputs[index] == [] {
        KeptNotesFailsIff(inputs, outputs, pick, |inputs|);
        assert Missing(outputs, index);
        return Failure(IndexError);
      }
      var first := FirstLabel(outputs[index], pick);
      if first != "O" {
        newInputs := newInputs + [inputs[index]];
        newOutputs := newOutputs + [outputs[index]];
      }
    }
    r := Success((newInputs, newOutputs));
  }
}
