/** When are placeholder tokens safe inside a text buffer?  A buffer is
    *tokenized* by a marker character `c` when every occurrence of `c` starts
    a complete placeholder of the fixed length `len` taken from a key set.
    Replacing text that cannot reach into a placeholder keeps a buffer
    tokenized, and replacing a placeholder by marker-free text retires that
    key; once no keys are left, no marker (and so no placeholder) remains. */
module Tokens {
  import opened Strings

  /** `k` starts with the marker and holds it nowhere else. */
  predicate Marked(k: string, c: char)
  {
    |k| > 0 && k[0] == c && c !in k[1..]
  }

  /** All keys are marked and have length `len`. */
  predicate KeysOk(keys: set<string>, c: char, len: nat)
  {
    forall k :: k in keys ==> |k| == len && Marked(k, c)
  }

  /** Position `i` of `s` either holds no marker or starts a whole key. */
  predicate KeyStartsAt(s: string, i: nat, keys: set<string>, c: char, len: nat)
    requires i < |s|
  {
    s[i] == c ==> i + len <= |s| && s[i..i + len] in keys
  }

  predicate Tokenized(s: string, keys: set<string>, c: char, len: nat)
  {
    forall i: nat :: i < |s| ==> KeyStartsAt(s, i, keys, c, len)
  }

  /** A pattern cannot match starting strictly inside `k`, neither wholly
      within it nor running past its end. */
  predicate NoMatchInside(pat: string, k: string)
  {
    forall i: nat :: 1 <= i < |k| ==> NoMatchFrom(pat, k, i)
  }

  /** `pat` neither matches at position `i` of `k` nor is cut short by its end. */
  predicate NoMatchFrom(pat: string, k: string, i: nat)
    requires i <= |k|
  {
    !(pat <= k[i..]) && !(k[i..] <= pat)
  }

  lemma MarkerFreeTokenized(s: string, keys: set<string>, c: char, len: nat)
    requires c !in s
    ensures Tokenized(s, keys, c, len)
  {
    forall i: nat | i < |s|
      ensures KeyStartsAt(s, i, keys, c, len)
    {
      assert s[i] in s;
    }
  }

  /** With no keys left, the marker does not occur at all. */
  lemma NoKeysNoMarker(s: string, c: char, len: nat)
    requires Tokenized(s, {}, c, len)
    ensures c !in s
  {
    forall i: nat | i < |s|
      ensures s[i] != c
    {
      assert KeyStartsAt(s, i, {}, c, len);
    }
  }

  lemma TokenizedMono(s: string, keys: set<string>, more: set<string>, c: char, len: nat)
    requires Tokenized(s, keys, c, len) && keys <= more
    ensures Tokenized(s, more, c, len)
  {
    forall i: nat | i < |s|
      ensures KeyStartsAt(s, i, more, c, len)
    {
      assert KeyStartsAt(s, i, keys, c, len);
    }
  }

  lemma TokenizedAppend(a: string, b: string, keys: set<string>, c: char, len: nat)
    requires Tokenized(a, keys, c, len) && Tokenized(b, keys, c, len)
    ensures Tokenized(a + b, keys, c, len)
  {
    var ab := a + b;
    forall i: nat | i < |ab|
      ensures KeyStartsAt(ab, i, keys, c, len)
    {
      if i < |a| {
        assert KeyStartsAt(a, i, keys, c, len);
        if a[i] == c {
          assert ab[i..i + len] == a[i..i + len];
        }
      } else {
        var j := i - |a|;
        assert KeyStartsAt(b, j, keys, c, len);
        assert ab[i] == b[j];
        if b[j] == c {
          assert ab[i..i + len] == b[j..j + len];
        }
      }
    }
  }

  /** Any suffix of a tokenized buffer is tokenized. */
  lemma TokenizedDrop(s: string, j: nat, keys: set<string>, c: char, len: nat)
    requires Tokenized(s, keys, c, len) && j <= |s|
    ensures Tokenized(s[j..], keys, c, len)
  {
    var t := s[j..];
    forall i: nat | i < |t|
      ensures KeyStartsAt(t, i, keys, c, len)
    {
      assert KeyStartsAt(s, j + i, keys, c, len);
      if t[i] == c {
        assert t[i..i + len] == s[j + i..j + i + len];
      }
    }
  }

  /** A marked key holds the marker only at its start. */
  lemma MarkedOnlyAtStart(k: string, c: char)
    requires Marked(k, c)
    ensures forall i :: 1 <= i < |k| ==> k[i] != c
  {
    forall i | 1 <= i < |k|
      ensures k[i] != c
    {
      assert k[i] == k[1..][i - 1];
    }
  }

  /** A single key is tokenized by any key set holding it. */
  lemma KeyTokenized(k: string, keys: set<string>, c: char, len: nat)
    requires k in keys && KeysOk(keys, c, len)
    ensures Tokenized(k, keys, c, len)
  {
    MarkedOnlyAtStart(k, c);
    forall i: nat | i < |k|
      ensures KeyStartsAt(k, i, keys, c, len)
    {
      assert k[0..len] == k;
    }
  }

  lemma ReplaceNoMatchStep(s: string, pat: string, rep: string)
    requires pat != [] && s != [] && !(pat <= s)
    ensures Replace(s, pat, rep) == [s[0]] + Replace(s[1..], pat, rep)
  {
  }

  lemma ReplaceMatchStep(s: string, pat: string, rep: string)
    requires pat != [] && pat <= s
    ensures Replace(s, pat, rep) == rep + Replace(s[|pat|..], pat, rep)
  {
  }

  lemma TokenizedPlainCons(x: char, r: string, keys: set<string>, c: char, len: nat)
    requires x != c && Tokenized(r, keys, c, len)
    ensures Tokenized([x] + r, keys, c, len)
  {
    MarkerFreeTokenized([x], keys, c, len);
    TokenizedAppend([x], r, keys, c, len);
  }

  /** A buffer that starts with the marker starts with a whole key. */
  lemma KeyAtStart(s: string, keys: set<string>, c: char, len: nat)
    requires KeysOk(keys, c, len) && Tokenized(s, keys, c, len) && s != [] && s[0] == c
    ensures 0 < len <= |s| && s[..len] in keys
  {
    assert KeyStartsAt(s, 0, keys, c, len);
    assert s[0..len] == s[..len];
  }

  lemma TokenizedKeyCons(k: string, r: string, keys: set<string>, c: char, len: nat)
    requires k in keys && KeysOk(keys, c, len) && Tokenized(r, keys, c, len)
    ensures Tokenized(k + r, keys, c, len)
  {
    KeyTokenized(k, keys, c, len);
    TokenizedAppend(k, r, keys, c, len);
  }

  /** A prefix of `a + b` is a prefix of `a` or has `a` as a prefix. */
  lemma PrefixOfConcat(pat: string, a: string, b: string)
    requires pat <= a + b
    ensures pat <= a || a <= pat
  {
    if |pat| <= |a| {
      assert pat == (a + b)[..|pat|] == a[..|pat|];
    } else {
      assert a == (a + b)[..|a|] == pat[..|a|];
    }
  }

  /** No match of `pat` starts at position `i` (>= 1) inside `k`. */
  lemma NoMatchAt(k: string, i: nat, rest: string, pat: string)
    requires 1 <= i < |k| && NoMatchInside(pat, k)
    ensures !(pat <= k[i..] + rest)
  {
    assert NoMatchFrom(pat, k, i);
    if pat <= k[i..] + rest {
      PrefixOfConcat(pat, k[i..], rest);
      assert false;
    }
  }

  /** Walking through the inside of a key: a pattern that cannot match
      inside it skips it unchanged. */
  lemma {:induction false} ReplaceSkipsTail(k: string, i: nat, rest: string, pat: string, rep: string)
    requires pat != [] && 1 <= i <= |k|
    requires NoMatchInside(pat, k)
    ensures Replace(k[i..] + rest, pat, rep) == k[i..] + Replace(rest, pat, rep)
    decreases |k| - i
  {
    // One character at a time, through ReplaceNoMatchStep.
    hide Replace;
    var u := k[i..];
    if u == [] {
      assert u + rest == rest;
    } else {
      NoMatchAt(k, i, rest, pat);
      ReplaceNoMatchStep(u + rest, pat, rep);
      assert (u + rest)[0] == u[0];
      assert (u + rest)[1..] == k[i + 1..] + rest;
      ReplaceSkipsTail(k, i + 1, rest, pat, rep);
      assert [u[0]] + k[i + 1..] == u;
      assert [u[0]] + (k[i + 1..] + Replace(rest, pat, rep)) == u + Replace(rest, pat, rep);
    }
  }

  /** A key at the front of a buffer is left in place by a pattern that
      cannot reach into it. */
  lemma ReplaceSkipsKey(s: string, pat: string, rep: string, c: char, len: nat)
    requires pat != [] && c !in pat && len <= |s|
    requires Marked(s[..len], c) && NoMatchInside(pat, s[..len])
    ensures Replace(s, pat, rep) == s[..len] + Replace(s[len..], pat, rep)
  {
    hide Replace;
    var k, rest := s[..len], s[len..];
    assert s == k + rest;
    assert pat[0] in pat;
    assert pat[0] != s[0];
    ReplaceNoMatchStep(s, pat, rep);
    assert s[1..] == k[1..] + rest;
    ReplaceSkipsTail(k, 1, rest, pat, rep);
    assert [s[0]] + k[1..] == k;
    assert [s[0]] + (k[1..] + Replace(rest, pat, rep)) == k + Replace(rest, pat, rep);
  }

  /** Replacing a marker-free pattern that cannot reach into any key by a
      tokenized replacement keeps the buffer tokenized. */
  lemma {:induction false} ReplacePlainKeepsTokenized(s: string, pat: string, rep: string, keys: set<string>, c: char, len: nat)
    requires KeysOk(keys, c, len)
    requires Tokenized(s, keys, c, len) && Tokenized(rep, keys, c, len)
    requires pat != [] && c !in pat
    requires forall k :: k in keys ==> NoMatchInside(pat, k)
    ensures Tokenized(Replace(s, pat, rep), keys, c, len)
    decreases |s|
  {
    if s == [] {
    } else if pat <= s {
      ReplaceMatchStep(s, pat, rep);
      assert s[..|pat|] == pat;
      TokenizedDrop(s, |pat|, keys, c, len);
      ReplacePlainKeepsTokenized(s[|pat|..], pat, rep, keys, c, len);
      TokenizedAppend(rep, Replace(s[|pat|..], pat, rep), keys, c, len);
    } else if s[0] != c {
      ReplaceNoMatchStep(s, pat, rep);
      TokenizedDrop(s, 1, keys, c, len);
      ReplacePlainKeepsTokenized(s[1..], pat, rep, keys, c, len);
      TokenizedPlainCons(s[0], Replace(s[1..], pat, rep), keys, c, len);
    } else {
      KeyAtStart(s, keys, c, len);
      var k := s[..len];
      ReplaceSkipsKey(s, pat, rep, c, len);
      TokenizedDrop(s, len, keys, c, len);
      ReplacePlainKeepsTokenized(s[len..], pat, rep, keys, c, len);
      TokenizedKeyCons(k, Replace(s[len..], pat, rep), keys, c, len);
    }
  }

  /** A key at the front of a buffer is left in place when another key is
      being replaced. */
  lemma ReplaceSkipsOtherKey(s: string, p: string, w: string, c: char, len: nat)
    requires len <= |s| && Marked(s[..len], c) && Marked(p, c) && !(p <= s)
    ensures Replace(s, p, w) == s[..len] + Replace(s[len..], p, w)
  {
    var k, rest := s[..len], s[len..];
    assert s == k + rest;
    assert s[1..] == k[1..] + rest;
    ReplaceAfterPlain(k[1..], rest, p, w);
    calc {
      Replace(s, p, w);
      [s[0]] + Replace(k[1..] + rest, p, w);
      [s[0]] + (k[1..] + Replace(rest, p, w));
      { assert [s[0]] + k[1..] == k; }
      k + Replace(rest, p, w);
    }
  }

  /** Replacing one key by marker-free text retires that key. */
  lemma {:induction false} ReplaceKeyRetires(s: string, p: string, w: string, keys: set<string>, c: char, len: nat)
    requires KeysOk(keys, c, len) && p in keys
    requires Tokenized(s, keys, c, len) && c !in w
    ensures Tokenized(Replace(s, p, w), keys - {p}, c, len)
    decreases |s|
  {
    if s == [] {
    } else if p <= s {
      ReplaceMatchStep(s, p, w);
      assert s[..len] == p;
      TokenizedDrop(s, len, keys, c, len);
      ReplaceKeyRetires(s[len..], p, w, keys, c, len);
      MarkerFreeTokenized(w, keys - {p}, c, len);
      TokenizedAppend(w, Replace(s[len..], p, w), keys - {p}, c, len);
    } else if s[0] != c {
      ReplaceNoMatchStep(s, p, w);
      TokenizedDrop(s, 1, keys, c, len);
      ReplaceKeyRetires(s[1..], p, w, keys, c, len);
      TokenizedPlainCons(s[0], Replace(s[1..], p, w), keys - {p}, c, len);
    } else {
      KeyAtStart(s, keys, c, len);
      var k := s[..len];
      assert k != p;
      ReplaceSkipsOtherKey(s, p, w, c, len);
      TokenizedDrop(s, len, keys, c, len);
      ReplaceKeyRetires(s[len..], p, w, keys, c, len);
      TokenizedKeyCons(k, Replace(s[len..], p, w), keys - {p}, c, len);
    }
  }

  /** A pattern that begins with `>` cannot match inside a key free of `>`. */
  lemma AngleBoundedNoMatchInside(t: string, k: string)
    requires '>' !in k
    ensures NoMatchInside(">" + t + "<", k)
  {
    forall i: nat | 1 <= i < |k|
      ensures NoMatchFrom(">" + t + "<", k, i)
    {
      assert k[i..][0] == k[i] != '>';
    }
  }
}
