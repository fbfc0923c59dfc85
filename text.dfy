/**
 * The string normalisation the quiz applies before comparing answers:
 * `str.lower()`, `str.strip()` and `str.split()` with no argument, over
 * the ASCII range of Python's definitions.
 */
module Text {

  /** Python's ASCII whitespace: \t \n \v \f \r (9-13), the separators 28-31, and space. */
  predicate IsSpace(c: char) {
    9 <= c as int <= 13 || 28 <= c as int <= 32
  }

  predicate AllSpace(s: string) {
    forall i :: 0 <= i < |s| ==> IsSpace(s[i])
  }

  predicate IsUpper(c: char) {
    'A' <= c <= 'Z'
  }

  predicate NoUpper(s: string) {
    forall i :: 0 <= i < |s| ==> !IsUpper(s[i])
  }

  /** `str.lower()` on one character, ASCII letters only. */
  function LowerChar(c: char): (d: char)
    ensures !IsUpper(d)
    ensures IsSpace(d) <==> IsSpace(c)
    ensures !IsUpper(c) ==> d == c
  {
    if IsUpper(c) then (c as int + 32) as char else c
  }

  /** `str.lower()`: the same length, with no upper-case letter left. */
  function Lower(s: string): (r: string)
    ensures |r| == |s| && NoUpper(r)
  {
    seq(|s|, i requires 0 <= i < |s| => LowerChar(s[i]))
  }

  /** Leading whitespace removed: what is removed is all whitespace, and what is left starts with a non-space. */
  function TrimStart(s: string): (r: string)
    ensures |r| <= |s| && r == s[|s| - |r|..]
    ensures AllSpace(s[..|s| - |r|])
    ensures r == [] || !IsSpace(r[0])
    ensures r == [] <==> AllSpace(s)
    decreases |s|
  {
    if |s| > 0 && IsSpace(s[0]) then TrimStart(s[1..]) else s
  }

  /** Trailing whitespace removed: what is removed is all whitespace, and what is left ends with a non-space. */
  function TrimEnd(s: string): (r: string)
    ensures |r| <= |s| && r == s[..|r|]
    ensures AllSpace(s[|r|..])
    ensures r == [] || !IsSpace(r[|r| - 1])
    ensures r == [] <==> AllSpace(s)
    decreases |s|
  {
    if |s| > 0 && IsSpace(s[|s| - 1]) then TrimEnd(s[..|s| - 1]) else s
  }

  /** `str.strip()`: the result is empty exactly for all-whitespace input, and otherwise starts and ends with a non-space. */
  function Strip(s: string): (r: string)
    ensures |r| <= |s|
    ensures r == [] <==> AllSpace(s)
    ensures r == [] || (!IsSpace(r[0]) && !IsSpace(r[|r| - 1]))
  {
    var t := TrimStart(s);
    assert t != [] ==> !AllSpace(t);
    TrimEnd(t)
  }

  /** What `Strip` keeps is a slice of the input with only whitespace before and after it. */
  lemma StripCutsEnds(s: string)
    ensures var r := Strip(s);
            exists k: nat :: k + |r| <= |s| && r == s[k..k + |r|] && AllSpace(s[..k]) && AllSpace(s[k + |r|..])
  {
    var t := TrimStart(s);
    var r := TrimEnd(t);
    var k := |s| - |t|;
    assert t == s[k..];
    assert r == s[k..k + |r|];
    assert s[k + |r|..] == t[|r|..];
    assert AllSpace(s[..k]) && AllSpace(s[k + |r|..]);
  }

  /** Length of the first word: the run of non-space characters at the front. */
  function WordEnd(s: string): (n: nat)
    ensures n <= |s|
    ensures forall i :: 0 <= i < n ==> !IsSpace(s[i])
    ensures n == |s| || IsSpace(s[n])
  {
    if |s| == 0 || IsSpace(s[0]) then 0 else 1 + WordEnd(s[1..])
  }

  /** A word of `str.split()`: non-empty and without whitespace. */
  predicate IsWord(w: string) {
    w != [] && forall i :: 0 <= i < |w| ==> !IsSpace(w[i])
  }

  /** `str.split()` with no separator: the maximal runs of non-space characters, in order. */
  function Split(s: string): (words: seq<string>)
    ensures forall w :: w in words ==> IsWord(w)
    ensures words == [] <==> AllSpace(s)
    decreases |s|
  {
    var t := TrimStart(s);
    if t == [] then
      []
    else
      var n := WordEnd(t);
      assert n >= 1;
      var w := t[..n];
      assert IsWord(w) by {
        forall i | 0 <= i < |w| ensures !IsSpace(w[i]) {
          assert w[i] == t[i];
        }
      }
      [w] + Split(t[n..])
  }

  /** `ans.lower().strip()`, as the verdict normalises an answer. */
  function Normalize(s: string): (r: string)
    ensures |r| <= |s|
  {
    Strip(Lower(s))
  }

  /** `set(ans.lower().strip().split())`, the word set the similarity works on. */
  function Words(s: string): (ws: set<string>) {
    set w | w in Split(Normalize(s))
  }

  /** An all-whitespace string has no words. */
  lemma SplitOfAllSpace(p: string)
    requires AllSpace(p)
    ensures Split(p) == []
  {
  }

  /**
   * `str.split()` word by word: after any run of whitespace, the maximal run
   * of non-space characters `w` that follows is the next word, and splitting
   * goes on from the whitespace (or the end) behind it.
   */
  lemma SplitCons(p: string, w: string, q: string)
    requires AllSpace(p) && IsWord(w)
    requires q == [] || IsSpace(q[0])
    ensures Split(p + w + q) == [w] + Split(q)
  {
    assert p + w + q == p + (w + q);
    TrimStartSkipsSpace(p, w + q);
    WordEndOfWord(w, q);
  }

  /** A word followed by nothing or by whitespace: `Split` reads exactly that word first. */
  lemma WordEndOfWord(w: string, q: string)
    requires IsWord(w)
    requires q == [] || IsSpace(q[0])
    ensures TrimStart(w + q) == w + q
    ensures WordEnd(w + q) == |w|
    ensures (w + q)[..|w|] == w && (w + q)[|w|..] == q
  {
    var t := w + q;
    assert t[0] == w[0];
    TrimStartOfTrimmed(t);
    var n := WordEnd(t);
    if q != [] {
      assert t[|w|] == q[0];
    }
  }

  /** An answer that `if ans.strip()` drops. */
  predicate IsBlank(s: string) {
    Strip(s) == []
  }

  lemma LowerKeepsSpace(s: string)
    ensures AllSpace(Lower(s)) <==> AllSpace(s)
  {
    if !AllSpace(s) {
      var i :| 0 <= i < |s| && !IsSpace(s[i]);
      assert !IsSpace(Lower(s)[i]);
    }
  }

  /** Normalising yields the empty string exactly for the answers `strip()` empties. */
  lemma NormalizeEmptyIffBlank(s: string)
    ensures Normalize(s) == [] <==> IsBlank(s)
  {
    LowerKeepsSpace(s);
  }

  /** An answer has no words exactly when it is blank. */
  lemma WordsEmptyIffBlank(s: string)
    ensures Words(s) == {} <==> IsBlank(s)
  {
    var t := Normalize(s);
    NormalizeEmptyIffBlank(s);
    if t != [] {
      assert !AllSpace(t) by { assert !IsSpace(t[0]); }
      var w := Split(t)[0];
      assert w in Words(s);
    }
  }

  lemma LowerOfNoUpper(s: string)
    requires NoUpper(s)
    ensures Lower(s) == s
  {
  }

  lemma TrimStartKeepsNoUpper(s: string)
    requires NoUpper(s)
    ensures NoUpper(TrimStart(s))
  {
    var r := TrimStart(s);
    forall i | 0 <= i < |r| ensures !IsUpper(r[i]) {
      assert r[i] == s[|s| - |r| + i];
    }
  }

  lemma TrimEndKeepsNoUpper(s: string)
    requires NoUpper(s)
    ensures NoUpper(TrimEnd(s))
  {
    var r := TrimEnd(s);
    forall i | 0 <= i < |r| ensures !IsUpper(r[i]) {
      assert r[i] == s[i];
    }
  }

  lemma TrimStartOfTrimmed(s: string)
    requires s == [] || !IsSpace(s[0])
    ensures TrimStart(s) == s
  {
  }

  lemma TrimEndOfTrimmed(s: string)
    requires s == [] || !IsSpace(s[|s| - 1])
    ensures TrimEnd(s) == s
  {
  }

  /** Stripping twice strips nothing more. */
  lemma StripIdempotent(s: string)
    ensures Strip(Strip(s)) == Strip(s)
  {
    var r := Strip(s);
    assert r == [] || (!IsSpace(r[0]) && !IsSpace(r[|r| - 1]));
    TrimStartOfTrimmed(r);
    TrimEndOfTrimmed(r);
  }

  /** Normalising an answer twice gives the same string as normalising it once. */
  lemma {:induction false} NormalizeIdempotent(s: string)
    ensures Normalize(Normalize(s)) == Normalize(s)
  {
    var l := Lower(s);
    TrimStartKeepsNoUpper(l);
    TrimEndKeepsNoUpper(TrimStart(l));
    LowerOfNoUpper(Strip(l));
    StripIdempotent(l);
  }

  /** The word set of a normalised answer is the word set of the answer. */
  lemma WordsOfNormalized(s: string)
    ensures Words(Normalize(s)) == Words(s)
  {
    NormalizeIdempotent(s);
  }

  /** Normalisation ignores letter case. */
  lemma NormalizeIgnoresCase(s: string)
    ensures Normalize(Lower(s)) == Normalize(s)
  {
    LowerOfNoUpper(Lower(s));
  }

  lemma {:induction false} TrimStartSkipsSpace(p: string, x: string)
    requires AllSpace(p)
    ensures TrimStart(p + x) == TrimStart(x)
    decreases |p|
  {
    if p != [] {
      assert (p + x)[1..] == p[1..] + x;
      TrimStartSkipsSpace(p[1..], x);
    } else {
      assert p + x == x;
    }
  }

  lemma {:induction false} TrimEndSkipsSpace(x: string, q: string)
    requires AllSpace(q)
    ensures TrimEnd(x + q) == TrimEnd(x)
    decreases |q|
  {
    if q != [] {
      assert (x + q)[..|x + q| - 1] == x + q[..|q| - 1];
      TrimEndSkipsSpace(x, q[..|q| - 1]);
    } else {
      assert x + q == x;
    }
  }

  lemma {:induction false} TrimStartAppend(t: string, q: string)
    requires !AllSpace(t)
    ensures TrimStart(t + q) == TrimStart(t) + q
    decreases |t|
  {
    assert t != [];
    if IsSpace(t[0]) {
      assert (t + q)[1..] == t[1..] + q;
      assert !AllSpace(t[1..]) by {
        var i :| 0 <= i < |t| && !IsSpace(t[i]);
        assert t[1..][i - 1] == t[i];
      }
      TrimStartAppend(t[1..], q);
    }
  }

  /** Whitespace added before and after an answer changes nothing once stripped. */
  lemma StripIgnoresPadding(p: string, t: string, q: string)
    requires AllSpace(p) && AllSpace(q)
    ensures Strip(p + t + q) == Strip(t)
  {
    assert p + t + q == p + (t + q);
    TrimStartSkipsSpace(p, t + q);
    if AllSpace(t) {
      assert AllSpace(t + q) by {
        forall i | 0 <= i < |t + q| ensures IsSpace((t + q)[i]) {
          if i < |t| { assert (t + q)[i] == t[i]; } else { assert (t + q)[i] == q[i - |t|]; }
        }
      }
    } else {
      TrimStartAppend(t, q);
      TrimEndSkipsSpace(TrimStart(t), q);
    }
  }

  lemma LowerAppend(a: string, b: string)
    ensures Lower(a + b) == Lower(a) + Lower(b)
  {
  }

  /** Normalisation ignores leading and trailing whitespace. */
  lemma NormalizeIgnoresPadding(p: string, s: string, q: string)
    requires AllSpace(p) && AllSpace(q)
    ensures Normalize(p + s + q) == Normalize(s)
  {
    LowerAppend(p + s, q);
    LowerAppend(p, s);
    LowerKeepsSpace(p);
    LowerKeepsSpace(q);
    StripIgnoresPadding(Lower(p), Lower(s), Lower(q));
  }
}
