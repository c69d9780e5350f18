/** The Python string operations the core relies on, stated exactly
    (`str.replace`, `in`, `split`, `split(" ")`, `strip`, `join`, `upper`,
    `lower`, slicing `[::-1]`), and the facts about them the rest of the model
    uses. */
module Strings {

  /** `pat in s` */
  predicate Contains(s: string, pat: string)
    decreases |s|
  {
    pat <= s || (s != [] && Contains(s[1..], pat))
  }

  /** `s.replace("", rep)`: rep before every character and at the end. */
  function Interleave(s: string, rep: string): string
    decreases |s|
  {
    if s == [] then rep else rep + [s[0]] + Interleave(s[1..], rep)
  }

  /** `s.replace(pat, rep)`: every non-overlapping occurrence of `pat`, found
      left to right, is replaced by `rep`. */
  function Replace(s: string, pat: string, rep: string): string
    decreases |s|
  {
    if pat == [] then Interleave(s, rep)
    else if pat <= s then rep + Replace(s[|pat|..], pat, rep)
    else if s == [] then []
    else [s[0]] + Replace(s[1..], pat, rep)
  }

  /** `s.replace(c, "")` for a single character. */
  function RemoveChar(s: string, c: char): (r: string)
    ensures c !in r
    ensures |r| <= |s|
  {
    if s == [] then []
    else (if s[0] == c then [] else [s[0]]) + RemoveChar(s[1..], c)
  }

  /** Concatenation is associative. */
  lemma AppendAssoc<T>(a: seq<T>, b: seq<T>, c: seq<T>)
    ensures a + (b + c) == (a + b) + c
  {
  }

  // ---------------------------------------------------------------------------
  // Facts about Replace

  lemma {:induction false} ReplaceAbsent(s: string, pat: string, rep: string)
    requires pat != [] && !Contains(s, pat)
    ensures Replace(s, pat, rep) == s
    decreases |s|
  {
    if s != [] {
      ReplaceAbsent(s[1..], pat, rep);
    }
  }

  lemma {:induction false} ReplaceLength(s: string, pat: string, rep: string)
    requires pat != [] && |rep| >= |pat|
    ensures |Replace(s, pat, rep)| >= |s|
    ensures Contains(s, pat) && |rep| > |pat| ==> |Replace(s, pat, rep)| > |s|
    decreases |s|
  {
    if pat <= s {
      ReplaceLength(s[|pat|..], pat, rep);
    } else if s != [] {
      ReplaceLength(s[1..], pat, rep);
    }
  }

  /** With a replacement longer than the pattern, `s.replace(pat, rep) != s`
      exactly when `pat` occurs in `s`: the test the injector branches on. */
  lemma ReplaceChangesIff(s: string, pat: string, rep: string)
    requires pat != [] && |rep| > |pat|
    ensures Replace(s, pat, rep) != s <==> Contains(s, pat)
  {
    ReplaceLength(s, pat, rep);
    if !Contains(s, pat) {
      ReplaceAbsent(s, pat, rep);
    }
  }

  lemma {:induction false} InterleaveEmpty(s: string)
    ensures Interleave(s, []) == s
    decreases |s|
  {
    if s != [] {
      InterleaveEmpty(s[1..]);
    }
  }

  /** `s.replace(pat, "")` with an empty `pat` is `s`. */
  lemma ReplaceEmptyByEmpty(s: string)
    ensures Replace(s, [], []) == s
  {
    InterleaveEmpty(s);
  }

  lemma {:induction false} InterleaveKeepsCharOut(s: string, rep: string, c: char)
    requires c !in s && c !in rep
    ensures c !in Interleave(s, rep)
    decreases |s|
  {
    if s != [] {
      InterleaveKeepsCharOut(s[1..], rep, c);
    }
  }

  /** Replacing never introduces a character absent from both the subject and
      the replacement. */
  lemma {:induction false} ReplaceKeepsCharOut(s: string, pat: string, rep: string, c: char)
    requires c !in s && c !in rep
    ensures c !in Replace(s, pat, rep)
    decreases |s|
  {
    if pat == [] {
      InterleaveKeepsCharOut(s, rep, c);
    } else if pat <= s {
      ReplaceKeepsCharOut(s[|pat|..], pat, rep, c);
    } else if s != [] {
      ReplaceKeepsCharOut(s[1..], pat, rep, c);
    }
  }

  /** `s.replace("\n", " ")` leaves no newline. */
  lemma {:induction false} ReplaceRemovesChar(s: string, c: char, rep: string)
    requires c !in rep
    ensures c !in Replace(s, [c], rep)
    decreases |s|
  {
    if [c] <= s {
      ReplaceRemovesChar(s[1..], c, rep);
    } else if s != [] {
      ReplaceRemovesChar(s[1..], c, rep);
    }
  }

  /** A character of a pattern that occurs in `s` occurs in `s`. */
  lemma {:induction false} ContainsChar(s: string, pat: string, c: char)
    requires Contains(s, pat) && c in pat
    ensures c in s
    decreases |s|
  {
    if pat <= s {
      assert s[..|pat|] == pat;
    } else {
      ContainsChar(s[1..], pat, c);
    }
  }

  /** A prefix free of the pattern's first character is copied through. */
  lemma {:induction false} ReplaceAfterPlain(u: string, v: string, pat: string, rep: string)
    requires pat != [] && pat[0] !in u
    ensures Replace(u + v, pat, rep) == u + Replace(v, pat, rep)
    decreases |u|
  {
    if u == [] {
      assert u + v == v;
    } else {
      var w := u + v;
      assert w[0] == u[0] && w[1..] == u[1..] + v;
      ReplaceHead(w, pat, rep);
      ReplaceAfterPlain(u[1..], v, pat, rep);
      AppendAssoc([u[0]], u[1..], Replace(v, pat, rep));
      assert [u[0]] + u[1..] == u;
    }
  }

  /** A subject whose first character does not start the pattern keeps that
      character and goes on with the rest. */
  lemma ReplaceHead(s: string, pat: string, rep: string)
    requires pat != [] && s != [] && s[0] != pat[0]
    ensures Replace(s, pat, rep) == [s[0]] + Replace(s[1..], pat, rep)
  {
    assert !(pat <= s);
  }

  // ---------------------------------------------------------------------------
  // Whitespace, case, splitting and joining

  /** Python's `str.isspace()` for one character. */
  predicate IsSpace(c: char)
  {
    c == ' ' || ('\t' <= c <= '\r') || ('\U{1C}' <= c <= '\U{1F}')
    || c == '\U{85}' || c == '\U{A0}' || c == '\U{1680}'
    || ('\U{2000}' <= c <= '\U{200A}') || c == '\U{2028}' || c == '\U{2029}'
    || c == '\U{202F}' || c == '\U{205F}' || c == '\U{3000}'
  }

  function StripLeft(s: string): (r: string)
    ensures |r| <= |s| && r == s[|s| - |r|..]
    ensures r != [] ==> !IsSpace(r[0])
    decreases |s|
  {
    if s != [] && IsSpace(s[0]) then StripLeft(s[1..]) else s
  }

  function StripRight(s: string): (r: string)
    ensures |r| <= |s| && r == s[..|r|]
    ensures r != [] ==> !IsSpace(r[|r| - 1])
    decreases |s|
  {
    if s != [] && IsSpace(s[|s| - 1]) then StripRight(s[..|s| - 1]) else s
  }

  /** `s.strip()` */
  function Strip(s: string): (r: string)
    ensures r != [] ==> !IsSpace(r[0]) && !IsSpace(r[|r| - 1])
  {
    StripRight(StripLeft(s))
  }

  predicate AllSpace(s: string)
  {
    forall i :: 0 <= i < |s| ==> IsSpace(s[i])
  }

  lemma {:induction false} StripEmptyIffAllSpace(s: string)
    ensures Strip(s) == [] <==> AllSpace(s)
    decreases |s|
  {
    if s != [] && IsSpace(s[0]) {
      StripEmptyIffAllSpace(s[1..]);
      assert AllSpace(s) <==> AllSpace(s[1..]) by {
        if AllSpace(s[1..]) {
          forall i | 0 <= i < |s| ensures IsSpace(s[i]) {
            if i > 0 { assert s[i] == s[1..][i - 1]; }
          }
        }
      }
      assert StripLeft(s) == StripLeft(s[1..]);
    } else if s != [] {
      assert StripLeft(s) == s;
      assert Strip(s) != [] by {
        var r := StripRight(s);
        StripRightKeepsFirst(s);
      }
    }
  }

  lemma {:induction false} StripRightKeepsFirst(s: string)
    requires s != [] && !IsSpace(s[0])
    ensures StripRight(s) != [] && StripRight(s)[0] == s[0]
    decreases |s|
  {
    if IsSpace(s[|s| - 1]) {
      StripRightKeepsFirst(s[..|s| - 1]);
    }
  }

  /** `s.split(d)` for a one-character separator: always at least one piece. */
  function SplitOn(s: string, d: char): (r: seq<string>)
    ensures |r| >= 1
    ensures forall i :: 0 <= i < |r| ==> d !in r[i]
    decreases |s|
  {
    if s == [] then [[]]
    else
      var rest := SplitOn(s[1..], d);
      if s[0] == d then [[]] + rest
      else [[s[0]] + rest[0]] + rest[1..]
  }

  /** Splitting at every whitespace character, keeping empty pieces. */
  function SplitSpaces(s: string): (r: seq<string>)
    ensures |r| >= 1
    ensures forall i :: 0 <= i < |r| ==> forall j :: 0 <= j < |r[i]| ==> !IsSpace(r[i][j])
    decreases |s|
  {
    if s == [] then [[]]
    else
      var rest := SplitSpaces(s[1..]);
      if IsSpace(s[0]) then [[]] + rest
      else [[s[0]] + rest[0]] + rest[1..]
  }

  function NonEmpty(xs: seq<string>): (r: seq<string>)
    ensures forall i :: 0 <= i < |r| ==> r[i] != []
    ensures forall x :: x in r ==> x in xs
  {
    if xs == [] then []
    else (if xs[0] == [] then [] else [xs[0]]) + NonEmpty(xs[1..])
  }

  /** `s.split()`: the maximal runs of non-whitespace characters. */
  function SplitWs(s: string): (r: seq<string>)
    ensures forall i :: 0 <= i < |r| ==> r[i] != []
  {
    NonEmpty(SplitSpaces(s))
  }

  /** `sep.join(parts)` */
  function Join(parts: seq<string>, sep: string): string
  {
    if parts == [] then []
    else if |parts| == 1 then parts[0]
    else parts[0] + sep + Join(parts[1..], sep)
  }

  /** Concatenation of a list of strings (`"".join(parts)`). */
  function Concat(parts: seq<string>): string
  {
    if parts == [] then [] else parts[0] + Concat(parts[1..])
  }

  lemma {:induction false} ConcatAppend(a: seq<string>, b: seq<string>)
    ensures Concat(a + b) == Concat(a) + Concat(b)
    decreases |a|
  {
    if a == [] {
      assert a + b == b;
    } else {
      assert (a + b)[0] == a[0];
      assert (a + b)[1..] == a[1..] + b;
      ConcatAppend(a[1..], b);
    }
  }

  function UpperChar(c: char): char
  {
    if 'a' <= c <= 'z' then (c as int - 32) as char else c
  }

  function LowerChar(c: char): char
  {
    if 'A' <= c <= 'Z' then (c as int + 32) as char else c
  }

  /** `s.upper()` (letters a-z only; see README) */
  function Upper(s: string): (r: string)
    ensures |r| == |s|
  {
    seq(|s|, i requires 0 <= i < |s| => UpperChar(s[i]))
  }

  /** `s.lower()` (letters A-Z only; see README) */
  function Lower(s: string): (r: string)
    ensures |r| == |s|
  {
    seq(|s|, i requires 0 <= i < |s| => LowerChar(s[i]))
  }

  /** `s[::-1]` */
  function Reverse<T>(s: seq<T>): (r: seq<T>)
    ensures |r| == |s|
    ensures forall i :: 0 <= i < |s| ==> r[i] == s[|s| - 1 - i]
  {
    seq(|s|, i requires 0 <= i < |s| => s[|s| - 1 - i])
  }

  lemma ReverseAppend<T>(a: seq<T>, b: seq<T>)
    ensures Reverse(a + b) == Reverse(b) + Reverse(a)
  {
  }

  lemma ReverseReverse<T>(s: seq<T>)
    ensures Reverse(Reverse(s)) == s
  {
  }

  predicate IsDigit(c: char)
  {
    '0' <= c <= '9'
  }

  /** Python's `\w` on ASCII: letters, digits and underscore. */
  predicate IsWordChar(c: char)
  {
    IsDigit(c) || ('a' <= c <= 'z') || ('A' <= c <= 'Z') || c == '_'
  }
}
