/**
 * The pieces of Python string semantics the extractors rely on: the
 * whitespace class shared by `str.strip()` and the `\s` escape of `re`
 * (for `str` patterns both use the interpreter's Unicode whitespace test),
 * `str.strip()` itself, and the substring relation.
 */
module PyText {

  /** Python's `str.isspace()` on one code point (also what `\s` matches). */
  predicate IsSpace(c: char)
  {
    || ('\U{9}' <= c <= '\U{D}')
    || ('\U{1C}' <= c <= '\U{20}')
    || c == '\U{85}' || c == '\U{A0}' || c == '\U{1680}'
    || ('\U{2000}' <= c <= '\U{200A}')
    || c == '\U{2028}' || c == '\U{2029}' || c == '\U{202F}'
    || c == '\U{205F}' || c == '\U{3000}'
  }

  predicate AllSpace(s: string)
  {
    forall i :: 0 <= i < |s| ==> IsSpace(s[i])
  }

  /** No whitespace at either end. */
  predicate Trimmed(s: string)
  {
    s == [] || (!IsSpace(s[0]) && !IsSpace(s[|s| - 1]))
  }

  /** `a` occurs in `b` as a contiguous run. */
  ghost predicate IsSubstring(a: string, b: string)
  {
    exists i :: OccursAt(a, b, i)
  }

  /** `a` occurs in `b` starting at index `i`. */
  predicate OccursAt(a: string, b: string, i: int)
  {
    0 <= i <= |b| - |a| && b[i..i + |a|] == a
  }

  /** The non-whitespace characters of `s`, in order. */
  function NonSpace(s: string): string
  {
    if s == [] then []
    else (if IsSpace(s[0]) then [] else [s[0]]) + NonSpace(s[1..])
  }

  lemma {:induction false} NonSpaceAppend(a: string, b: string)
    ensures NonSpace(a + b) == NonSpace(a) + NonSpace(b)
  {
    if a == [] {
      assert a + b == b;
    } else {
      assert (a + b)[1..] == a[1..] + b;
      NonSpaceAppend(a[1..], b);
    }
  }

  lemma {:induction false} NonSpaceOfSpaces(s: string)
    requires AllSpace(s)
    ensures NonSpace(s) == []
  {
    if s != [] {
      NonSpaceOfSpaces(s[1..]);
    }
  }

  /** The length of the whitespace run that `s` starts with. */
  function LeadingSpaces(s: string): (n: nat)
    ensures n <= |s|
    ensures forall i :: 0 <= i < n ==> IsSpace(s[i])
    ensures n < |s| ==> !IsSpace(s[n])
  {
    if s != [] && IsSpace(s[0]) then 1 + LeadingSpaces(s[1..]) else 0
  }

  /** Leading whitespace removed (the first half of `str.strip()`). */
  function TrimStart(s: string): (r: string)
    ensures |r| <= |s| && r == s[|s| - |r|..]
    ensures AllSpace(s[..|s| - |r|])
    ensures r == [] || !IsSpace(r[0])
  {
    s[LeadingSpaces(s)..]
  }

  /** Trailing whitespace removed (the second half of `str.strip()`). */
  function TrimEnd(s: string): (r: string)
    ensures |r| <= |s| && r == s[..|r|]
    ensures AllSpace(s[|r|..])
    ensures r == [] || !IsSpace(r[|r| - 1])
  {
    if s != [] && IsSpace(s[|s| - 1]) then
      var t := TrimEnd(s[..|s| - 1]);
      assert s[..|s| - 1][..|t|] == s[..|t|];
      SpaceSuffix(s, |t|);
      t
    else s
  }

  /** A whitespace run followed by a whitespace character is a whitespace run. */
  lemma SpaceSuffix(s: string, k: int)
    requires 0 <= k < |s| && IsSpace(s[|s| - 1]) && AllSpace(s[..|s| - 1][k..])
    ensures AllSpace(s[k..])
  {
    forall i | 0 <= i < |s| - k - 1 ensures IsSpace(s[k..][i]) {
      assert s[k..][i] == s[..|s| - 1][k..][i];
    }
  }

  /** `r` is what is left of `s` once a whitespace prefix of length `i` and a whitespace suffix are cut off. */
  predicate CutFrom(s: string, i: int, r: string)
  {
    && 0 <= i <= |s| - |r|
    && r == s[i..i + |r|]
    && AllSpace(s[..i])
    && AllSpace(s[i + |r|..])
  }

  /**
   * Python's `str.strip()` with no argument: the result is the part of `s`
   * between a whitespace prefix and a whitespace suffix, it has no whitespace
   * at either end, and every non-whitespace character of `s` survives.
   */
  function Strip(s: string): (r: string)
    ensures Trimmed(r)
    ensures exists i :: CutFrom(s, i, r)
    ensures NonSpace(r) == NonSpace(s)
  {
    var a := TrimStart(s);
    var r := TrimEnd(a);
    var i := |s| - |a|;
    assert s[i + |r|..] == a[|r|..];
    assert CutFrom(s, i, r);
    CutKeepsNonSpace(s, i, r);
    r
  }

  lemma CutKeepsNonSpace(s: string, i: int, r: string)
    requires CutFrom(s, i, r)
    ensures NonSpace(r) == NonSpace(s)
  {
    assert s == s[..i] + r + s[i + |r|..];
    NonSpaceAppend(s[..i] + r, s[i + |r|..]);
    NonSpaceAppend(s[..i], r);
    NonSpaceOfSpaces(s[..i]);
    NonSpaceOfSpaces(s[i + |r|..]);
  }

  /** Stripping text that has no outer whitespace leaves it as it is. */
  lemma StripTrimmed(s: string)
    requires Trimmed(s)
    ensures Strip(s) == s
  {
    assert LeadingSpaces(s) == 0;
    assert TrimStart(s) == s;
    assert TrimEnd(s) == s;
  }

  /** `str.strip()` is idempotent. */
  lemma StripIdempotent(s: string)
    ensures Strip(Strip(s)) == Strip(s)
  {
    StripTrimmed(Strip(s));
  }

  /** The longest prefix of `s` without whitespace. */
  function TakeWord(s: string): (w: string)
    ensures |w| <= |s| && w == s[..|w|]
    ensures forall i :: 0 <= i < |w| ==> !IsSpace(w[i])
    ensures |w| < |s| ==> IsSpace(s[|w|])
    ensures s != [] && !IsSpace(s[0]) ==> |w| > 0
  {
    if s != [] && !IsSpace(s[0]) then [s[0]] + TakeWord(s[1..]) else []
  }

  /** Any whitespace-free prefix that is followed by whitespace or the end is the one `TakeWord` returns. */
  lemma TakeWordUnique(s: string, n: int)
    requires 0 <= n <= |s|
    requires forall i :: 0 <= i < n ==> !IsSpace(s[i])
    requires n < |s| ==> IsSpace(s[n])
    ensures TakeWord(s) == s[..n]
  {
  }

  /** Python's `s.split()` with no argument: the maximal runs of non-whitespace characters, in order. */
  function Words(s: string): (ws: seq<string>)
    ensures forall k :: 0 <= k < |ws| ==> ws[k] != [] && forall i :: 0 <= i < |ws[k]| ==> !IsSpace(ws[k][i])
    decreases |s|
  {
    if s == [] then []
    else if IsSpace(s[0]) then Words(s[1..])
    else
      var w := TakeWord(s);
      [w] + Words(s[|w|..])
  }

  /** Python's `sep.join(ws)`. */
  function Join(ws: seq<string>, sep: string): string
  {
    if ws == [] then []
    else if |ws| == 1 then ws[0]
    else ws[0] + sep + Join(ws[1..], sep)
  }

  /** A leading whitespace character does not change the words. */
  lemma WordsSkipSpace(s: string)
    requires s != [] && IsSpace(s[0])
    ensures Words(s) == Words(s[1..])
  {
  }

  /** Leading whitespace does not change the words. */
  lemma {:induction false} WordsAfterSpaces(sp: string, x: string)
    requires AllSpace(sp)
    ensures Words(sp + x) == Words(x)
  {
    if sp != [] {
      assert (sp + x)[0] == sp[0] && IsSpace(sp[0]);
      assert (sp + x)[1..] == sp[1..] + x;
      WordsAfterSpaces(sp[1..], x);
    } else {
      assert sp + x == x;
    }
  }

  /** Trailing whitespace does not change the words. */
  lemma {:induction false} WordsBeforeSpaces(x: string, sp: string)
    requires AllSpace(sp)
    ensures Words(x + sp) == Words(x)
    decreases |x|
  {
    if x == [] {
      assert x + sp == sp + x;
      WordsAfterSpaces(sp, x);
    } else if IsSpace(x[0]) {
      assert (x + sp)[1..] == x[1..] + sp;
      WordsBeforeSpaces(x[1..], sp);
    } else {
      var w := TakeWord(x);
      var n := |w|;
      assert n < |x + sp| ==> IsSpace((x + sp)[n]) by {
        if n < |x| {
          assert (x + sp)[n] == x[n];
        } else if n < |x + sp| {
          assert (x + sp)[n] == sp[0];
        }
      }
      TakeWordUnique(x + sp, n);
      assert (x + sp)[..n] == w;
      assert (x + sp)[n..] == x[n..] + sp;
      WordsBeforeSpaces(x[n..], sp);
    }
  }

  /**
   * Putting a non-whitespace character in front of `x` starts a new first
   * word when `x` is empty or starts with whitespace, and otherwise extends
   * the first word of `x`.
   */
  lemma WordsCons(c: char, x: string)
    requires !IsSpace(c)
    ensures x == [] || IsSpace(x[0]) ==> Words([c] + x) == [[c]] + Words(x)
    ensures x != [] && !IsSpace(x[0]) ==> Words(x) != [] && Words([c] + x) == [[c] + Words(x)[0]] + Words(x)[1..]
  {
    var s := [c] + x;
    assert s[1..] == x;
    if x == [] || IsSpace(x[0]) {
      TakeWordUnique(s, 1);
    } else {
      var v := TakeWord(x);
      assert forall i :: 0 <= i < 1 + |v| ==> s[i] == ([c] + v)[i];
      assert 1 + |v| < |s| ==> s[1 + |v|] == x[|v|];
      TakeWordUnique(s, 1 + |v|);
      assert s[..1 + |v|] == [c] + v;
      assert s[1 + |v|..] == x[|v|..];
    }
  }

  /** `a` within `b` within `c` means `a` within `c`. */
  lemma SubstringTransitive(a: string, b: string, c: string)
    requires IsSubstring(a, b) && IsSubstring(b, c)
    ensures IsSubstring(a, c)
  {
    var i :| OccursAt(a, b, i);
    var j :| OccursAt(b, c, j);
    forall k | 0 <= k < |a|
      ensures c[j + i..j + i + |a|][k] == a[k]
    {
      assert a[k] == b[i + k] == c[j + i + k];
    }
    assert OccursAt(a, c, j + i);
  }
}
