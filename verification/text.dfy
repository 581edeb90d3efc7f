/**
 Python's whitespace and the two string builtins the segmenter relies on:
 `str.strip()` and `str.split()`, both called without arguments, so both
 use the characters for which `str.isspace()` holds.
 */
module Text {

  /** `c.isspace()` in Python 3. */
  predicate IsSpace(c: char) {
    || ('\t' <= c <= '\r')                  // U+0009 .. U+000D
    || ('\U{1C}' <= c <= ' ')               // U+001C .. U+0020
    || c == '\U{85}' || c == '\U{A0}' || c == '\U{1680}'
    || ('\U{2000}' <= c <= '\U{200A}')
    || c == '\U{2028}' || c == '\U{2029}' || c == '\U{202F}'
    || c == '\U{205F}' || c == '\U{3000}'
  }

  /** Every character of `s` is whitespace (the empty string included). */
  predicate Blank(s: string) {
    forall i :: 0 <= i < |s| ==> IsSpace(s[i])
  }

  /** `s.lstrip()`. */
  function TrimStart(s: string): (r: string)
    ensures |r| <= |s|
  {
    if |s| > 0 && IsSpace(s[0]) then TrimStart(s[1..]) else s
  }

  /** `s.rstrip()`. */
  function TrimEnd(s: string): (r: string)
    ensures |r| <= |s|
  {
    if |s| > 0 && IsSpace(s[|s| - 1]) then TrimEnd(s[..|s| - 1]) else s
  }

  /** `s.strip()`. */
  function Strip(s: string): (r: string) {
    TrimEnd(TrimStart(s))
  }

  /** `s.lstrip()` drops exactly the leading whitespace: what it drops is
      blank, what it keeps starts with a non-space, and it is empty only
      for a blank `s`. */
  lemma {:induction false} TrimStartSpec(s: string)
    ensures var r := TrimStart(s);
      && r == s[|s| - |r|..]
      && Blank(s[..|s| - |r|])
      && (|r| > 0 ==> !IsSpace(r[0]))
      && (|r| == 0 <==> Blank(s))
    decreases |s|
  {
    if |s| > 0 && IsSpace(s[0]) {
      TrimStartSpec(s[1..]);
      var r := TrimStart(s);
      assert s[..|s| - |r|] == [s[0]] + s[1..][..|s| - 1 - |r|];
      assert Blank(s) <==> Blank(s[1..]) by {
        assert forall i :: 0 < i < |s| ==> s[i] == s[1..][i - 1];
      }
    } else if |s| > 0 {
      assert s[..0] == [];
    }
  }

  /** `s.rstrip()` drops exactly the trailing whitespace. */
  lemma {:induction false} TrimEndSpec(s: string)
    ensures var r := TrimEnd(s);
      && r == s[..|r|]
      && Blank(s[|r|..])
      && (|r| > 0 ==> !IsSpace(r[|r| - 1]))
      && (|r| == 0 <==> Blank(s))
    decreases |s|
  {
    if |s| > 0 && IsSpace(s[|s| - 1]) {
      var p := s[..|s| - 1];
      TrimEndSpec(p);
      var r := TrimEnd(s);
      assert r == p[..|r|];
      assert s[|r|..] == p[|r|..] + [s[|s| - 1]];
      assert Blank(s) <==> Blank(p) by {
        assert forall i :: 0 <= i < |s| - 1 ==> s[i] == p[i];
      }
    } else if |s| > 0 {
      assert s[|s|..] == [];
    }
  }

  /** Length of the leading run of non-space characters of `s`. */
  function TokenLength(s: string): (n: nat)
    ensures n <= |s|
  {
    if |s| == 0 || IsSpace(s[0]) then 0 else 1 + TokenLength(s[1..])
  }

  lemma {:induction false} TokenLengthSpec(s: string)
    ensures var n := TokenLength(s);
      && (forall i :: 0 <= i < n ==> !IsSpace(s[i]))
      && (n < |s| ==> IsSpace(s[n]))
    decreases |s|
  {
    if |s| > 0 && !IsSpace(s[0]) {
      TokenLengthSpec(s[1..]);
      assert forall i :: 0 < i < |s| ==> s[i] == s[1..][i - 1];
    }
  }

  /** `s.split()`: the maximal runs of non-space characters, in order. */
  function Words(s: string): (r: seq<string>)
    decreases |s|
  {
    var t := TrimStart(s);
    if |t| == 0 then []
    else
      TrimStartSpec(s);
      TokenLengthSpec(t);
      var n := TokenLength(t);
      [t[..n]] + Words(t[n..])
  }

  /** `s.split()` splits off the leading word of `s.lstrip()`, and it is empty
      exactly for a blank `s`. */
  lemma WordsUnfold(s: string)
    ensures Blank(s) ==> Words(s) == []
    ensures !Blank(s) ==>
      var t := TrimStart(s); var n := TokenLength(t);
      && 0 < n <= |t|
      && Words(s) == [t[..n]] + Words(t[n..])
      && (forall i :: 0 <= i < n ==> !IsSpace(t[i]))
  {
    TrimStartSpec(s);
    var t := TrimStart(s);
    TokenLengthSpec(t);
  }

  /** The last character of `s` that is not whitespace. */
  function LastNonSpace(s: string): (r: char)
    requires !Blank(s)
  {
    if IsSpace(s[|s| - 1]) then
      assert !Blank(s[..|s| - 1]) by {
        var i :| 0 <= i < |s| && !IsSpace(s[i]);
        assert s[..|s| - 1][i] == s[i];
      }
      LastNonSpace(s[..|s| - 1])
    else s[|s| - 1]
  }

  /** Whitespace after the last non-space character does not move it. */
  lemma {:induction false} LastNonSpaceBlankSuffix(a: string, b: string)
    requires !Blank(a) && Blank(b)
    ensures !Blank(a + b) && LastNonSpace(a + b) == LastNonSpace(a)
    decreases |b|
  {
    var i :| 0 <= i < |a| && !IsSpace(a[i]);
    assert (a + b)[i] == a[i];
    if |b| > 0 {
      assert (a + b)[..|a + b| - 1] == a + b[..|b| - 1];
      LastNonSpaceBlankSuffix(a, b[..|b| - 1]);
    } else {
      assert a + b == a;
    }
  }

  /** A suffix holding a non-space character decides the last non-space character. */
  lemma {:induction false} LastNonSpaceSuffix(a: string, b: string)
    requires !Blank(b)
    ensures !Blank(a + b) && LastNonSpace(a + b) == LastNonSpace(b)
    decreases |b|
  {
    var i :| 0 <= i < |b| && !IsSpace(b[i]);
    assert (a + b)[|a| + i] == b[i];
    if IsSpace(b[|b| - 1]) {
      assert i < |b| - 1;
      assert b[..|b| - 1][i] == b[i];
      assert (a + b)[..|a + b| - 1] == a + b[..|b| - 1];
      LastNonSpaceSuffix(a, b[..|b| - 1]);
    }
  }

  /** The last character of the last word of a list of words. */
  function LastWordChar(w: seq<string>): (r: char)
    requires |w| > 0 && |w[|w| - 1]| > 0
  {
    w[|w| - 1][|w[|w| - 1]| - 1]
  }

  /** Leading whitespace does not move the last non-space character. */
  lemma TrimStartKeepsLastNonSpace(s: string)
    requires !Blank(s)
    ensures !Blank(TrimStart(s)) && LastNonSpace(TrimStart(s)) == LastNonSpace(s)
  {
    TrimStartSpec(s);
    var t := TrimStart(s);
    assert !IsSpace(t[0]);
    assert s == s[..|s| - |t|] + t;
    LastNonSpaceSuffix(s[..|s| - |t|], t);
  }

  /** The last non-space character of a string that opens with the word `t[..n]`. */
  lemma LastNonSpaceAfterWord(t: string, n: nat)
    requires 0 < n <= |t|
    requires forall i :: 0 <= i < n ==> !IsSpace(t[i])
    ensures !Blank(t)
    ensures Blank(t[n..]) ==> LastNonSpace(t) == t[n - 1]
    ensures !Blank(t[n..]) ==> LastNonSpace(t) == LastNonSpace(t[n..])
  {
    var head, rest := t[..n], t[n..];
    assert t == head + rest;
    assert !IsSpace(head[0]);
    assert !IsSpace(head[n - 1]);
    if Blank(rest) {
      LastNonSpaceBlankSuffix(head, rest);
    } else {
      LastNonSpaceSuffix(head, rest);
    }
  }

  /** Words in front of the last one do not change its last character. */
  lemma LastWordCharCons(x: string, w: seq<string>)
    requires |w| > 0 && |w[|w| - 1]| > 0
    ensures LastWordChar([x] + w) == LastWordChar(w)
  {
    assert ([x] + w)[|w|] == w[|w| - 1];
  }

  /** `s.split()[-1][-1]` when `s` holds a single word. */
  lemma SingleWordEnd(s: string)
    requires !Blank(s)
    requires Blank(TrimStart(s)[TokenLength(TrimStart(s))..])
    ensures |Words(s)| == 1 && |Words(s)[0]| > 0
    ensures LastWordChar(Words(s)) == LastNonSpace(s)
  {
    var t := TrimStart(s);
    var n := TokenLength(t);
    TrimStartKeepsLastNonSpace(s);
    WordsUnfold(s);
    WordsUnfold(t[n..]);
    LastNonSpaceAfterWord(t, n);
    assert Words(s) == [t[..n]];
    assert t[..n][n - 1] == t[n - 1];
  }

  /** `s.split()[-1][-1]` exists for a non-blank `s` and is its last non-space
      character. */
  lemma {:induction false} LastWordEndsAtLastNonSpace(s: string)
    requires !Blank(s)
    ensures var w := Words(s); |w| > 0 && |w[|w| - 1]| > 0
    ensures LastWordChar(Words(s)) == LastNonSpace(s)
    decreases |s|
  {
    var t := TrimStart(s);
    var n := TokenLength(t);
    WordsUnfold(s);
    if Blank(t[n..]) {
      SingleWordEnd(s);
    } else {
      TrimStartKeepsLastNonSpace(s);
      LastNonSpaceAfterWord(t, n);
      LastWordEndsAtLastNonSpace(t[n..]);
      LastWordCharCons(t[..n], Words(t[n..]));
    }
  }

  /** `s.strip()` keeps the non-space content of `s`: it is blank only if `s` is,
      and it ends on the same last non-space character. */
  lemma StripKeepsLastNonSpace(s: string)
    ensures Blank(Strip(s)) <==> Blank(s)
    ensures !Blank(s) ==> LastNonSpace(Strip(s)) == LastNonSpace(s)
  {
    TrimStartSpec(s);
    var t := TrimStart(s);
    TrimEndSpec(t);
    var r := TrimEnd(t);
    assert Blank(r) <==> |r| == 0 by {
      if |r| > 0 { assert !IsSpace(r[0]); }
    }
    assert Blank(t) <==> |t| == 0 by {
      if |t| > 0 { assert !IsSpace(t[0]); }
    }
    if !Blank(s) {
      var p := s[..|s| - |t|];
      var q := t[|r|..];
      assert s == p + t;
      assert t == r + q;
      LastNonSpaceBlankSuffix(r, q);
      LastNonSpaceSuffix(p, t);
    }
  }

  /** `s.strip()` adds no character that `s` lacks. */
  lemma StripSubset(s: string, c: char)
    requires c !in s
    ensures c !in Strip(s)
  {
    TrimStartSpec(s);
    var t := TrimStart(s);
    TrimEndSpec(t);
  }
}
