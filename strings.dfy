/** Character classes and the two string primitives the interpolator uses:
    `String.Trim('[', ']')` and `StringBuilder.Replace(old, new)`. */
module Strings {

  datatype Option<+T> = None | Some(value: T)

  /** `char.IsWhiteSpace`: the control characters U+0009..U+000D, U+0085 and
      the Unicode space, line and paragraph separators. */
  predicate IsWhiteSpace(c: char)
  {
    ('\t' <= c <= '\r') || c == ' ' || c == '\U{0085}' || c == '\U{00A0}' ||
    c == '\U{1680}' || ('\U{2000}' <= c <= '\U{200A}') || c == '\U{2028}' ||
    c == '\U{2029}' || c == '\U{202F}' || c == '\U{205F}' || c == '\U{3000}'
  }

  /** Every character is white space (true of the empty string). */
  predicate AllWhiteSpace(s: string)
  {
    forall i :: 0 <= i < |s| ==> IsWhiteSpace(s[i])
  }

  /** `string.IsNullOrWhiteSpace`, with `None` standing for `null`. */
  predicate IsNullOrWhiteSpace(s: Option<string>): (r: bool)
    ensures (s.None? || s.value == []) ==> r
  {
    s.None? || AllWhiteSpace(s.value)
  }

  /** A text with a bracket in it is not white space. */
  lemma BracketNotWhiteSpace(s: string, i: nat)
    requires i < |s| && IsBracket(s[i])
    ensures !AllWhiteSpace(s)
  {
    assert !IsWhiteSpace(s[i]);
  }

  predicate IsBracket(c: char)
  {
    c == '[' || c == ']'
  }

  /** No square bracket anywhere in `s`. */
  predicate BracketFree(s: string)
  {
    forall i :: 0 <= i < |s| ==> !IsBracket(s[i])
  }

  /** `pat` occurs in `s` at position `i`. */
  predicate OccursAt(s: string, pat: string, i: nat)
  {
    i + |pat| <= |s| && s[i..i + |pat|] == pat
  }

  ghost predicate Occurs(s: string, pat: string)
  {
    exists i: nat :: OccursAt(s, pat, i)
  }

  // ---------------------------------------------------------------------
  // Trim('[', ']')
  // ---------------------------------------------------------------------

  function TrimStart(s: string): (r: string)
    ensures |r| <= |s| && r == s[|s| - |r|..]
    ensures r == [] || !IsBracket(r[0])
    ensures forall i :: 0 <= i < |s| - |r| ==> IsBracket(s[i])
  {
    if s != [] && IsBracket(s[0]) then TrimStart(s[1..]) else s
  }

  function TrimEnd(s: string): (r: string)
    ensures |r| <= |s| && r == s[..|r|]
    ensures r == [] || !IsBracket(r[|r| - 1])
    ensures forall i :: |r| <= i < |s| ==> IsBracket(s[i])
  {
    if s != [] && IsBracket(s[|s| - 1]) then TrimEnd(s[..|s| - 1]) else s
  }

  /** `s.Trim('[', ']')`: drops every leading and every trailing bracket. */
  function TrimBrackets(s: string): (r: string)
    ensures |r| <= |s|
    ensures r == [] || (!IsBracket(r[0]) && !IsBracket(r[|r| - 1]))
  {
    TrimEnd(TrimStart(s))
  }

  /** `r` is `s` with the brackets s[..i] and s[j..] cut off, and `r`
      neither starts nor ends with a bracket. */
  predicate TrimmedAt(s: string, r: string, i: nat, j: nat)
  {
    i <= j <= |s| && r == s[i..j] &&
    (forall k :: 0 <= k < i ==> IsBracket(s[k])) &&
    (forall k :: j <= k < |s| ==> IsBracket(s[k])) &&
    (r == [] || (!IsBracket(r[0]) && !IsBracket(r[|r| - 1])))
  }

  /** What Trim promises: a run of brackets is cut off each end, and what
      is left neither starts nor ends with a bracket. */
  lemma TrimBracketsSpec(s: string)
    ensures exists i, j :: TrimmedAt(s, TrimBrackets(s), i, j)
  {
    var t := TrimStart(s);
    var r := TrimEnd(t);
    assert r == TrimBrackets(s);
    var i: nat := |s| - |t|;
    TrimmedSuffix(s, t, r);
    assert TrimmedAt(s, r, i, i + |r|);
  }

  lemma TrimmedSuffix(s: string, t: string, r: string)
    requires |t| <= |s| && t == s[|s| - |t|..]
    requires |r| <= |t| && r == t[..|r|]
    requires forall k :: |r| <= k < |t| ==> IsBracket(t[k])
    ensures r == s[|s| - |t|..|s| - |t| + |r|]
    ensures forall k :: |s| - |t| + |r| <= k < |s| ==> IsBracket(s[k])
  {
    var i := |s| - |t|;
    forall k | i + |r| <= k < |s| ensures IsBracket(s[k]) {
      assert s[k] == t[k - i];
    }
  }

  /** A bracket-free key framed by any brackets trims back to itself. */
  lemma {:induction false} TrimFramed(pre: string, key: string, post: string)
    requires forall i :: 0 <= i < |pre| ==> IsBracket(pre[i])
    requires forall i :: 0 <= i < |post| ==> IsBracket(post[i])
    requires key != [] && BracketFree(key)
    ensures TrimBrackets(pre + key + post) == key
  {
    var t := TrimStart(pre + key + post);
    assert t == key + post by {
      assert pre + key + post == pre + (key + post);
      assert !IsBracket((key + post)[0]) by {
        assert (key + post)[0] == key[0];
      }
      TrimStartFramed(pre, key + post);
    }
    assert TrimEnd(t) == key by {
      assert !IsBracket(key[|key| - 1]);
      TrimEndFramed(key, post);
    }
  }

  lemma {:induction false} TrimStartFramed(pre: string, rest: string)
    requires forall i :: 0 <= i < |pre| ==> IsBracket(pre[i])
    requires rest != [] && !IsBracket(rest[0])
    ensures TrimStart(pre + rest) == rest
  {
    if pre != [] {
      assert (pre + rest)[1..] == pre[1..] + rest;
      TrimStartFramed(pre[1..], rest);
    } else {
      assert pre + rest == rest;
    }
  }

  lemma {:induction false} TrimEndFramed(rest: string, post: string)
    requires forall i :: 0 <= i < |post| ==> IsBracket(post[i])
    requires rest != [] && !IsBracket(rest[|rest| - 1])
    ensures TrimEnd(rest + post) == rest
  {
    if post != [] {
      assert (rest + post)[..|rest + post| - 1] == rest + post[..|post| - 1];
      TrimEndFramed(rest, post[..|post| - 1]);
    } else {
      assert rest + post == rest;
    }
  }

  // ---------------------------------------------------------------------
  // StringBuilder.Replace(pat, rep)
  // ---------------------------------------------------------------------

  /** Replaces the occurrences of `pat` found by a left-to-right scan that
      resumes after each replaced occurrence; the inserted text is never
      rescanned. `pat` is never empty where the interpolator calls it. */
  function ReplaceAll(s: string, pat: string, rep: string): (r: string)
    requires pat != []
    ensures |rep| <= |pat| ==> |r| <= |s|
    ensures |rep| == |pat| ==> |r| == |s|
    decreases |s|
  {
    if |s| < |pat| then s
    else if s[..|pat|] == pat then rep + ReplaceAll(s[|pat|..], pat, rep)
    else [s[0]] + ReplaceAll(s[1..], pat, rep)
  }

  /** Text without an occurrence of the pattern is left as it is. */
  lemma {:induction false} ReplaceAllAbsent(s: string, pat: string, rep: string)
    requires pat != [] && !Occurs(s, pat)
    ensures ReplaceAll(s, pat, rep) == s
  {
    if |s| >= |pat| {
      assert !OccursAt(s, pat, 0);
      forall i: nat ensures !OccursAt(s[1..], pat, i) {
        assert !OccursAt(s, pat, i + 1);
      }
      ReplaceAllAbsent(s[1..], pat, rep);
      assert [s[0]] + s[1..] == s;
    }
  }

  /** A prefix that does not contain the pattern's first character is
      copied unchanged, and the scan continues right after it. */
  lemma {:induction false} ReplaceAllSkip(t: string, u: string, pat: string, rep: string)
    requires pat != []
    requires forall i :: 0 <= i < |t| ==> t[i] != pat[0]
    ensures ReplaceAll(t + u, pat, rep) == t + ReplaceAll(u, pat, rep)
  {
    if t != [] {
      var s := t + u;
      assert s[0] == t[0];
      assert s[1..] == t[1..] + u;
      if |s| < |pat| {
        ReplaceAllShort(u, pat, rep);
      } else {
        assert s[..|pat|][0] == t[0];
        ReplaceAllSkip(t[1..], u, pat, rep);
        assert [t[0]] + (t[1..] + ReplaceAll(u, pat, rep)) == t + ReplaceAll(u, pat, rep);
      }
    } else {
      assert t + u == u;
    }
  }

  /** A replacement shorter than the pattern shortens every text in which
      the pattern occurs. */
  lemma {:induction false} ReplaceAllShrinks(s: string, pat: string, rep: string, i: nat)
    requires pat != [] && |rep| < |pat| && OccursAt(s, pat, i)
    ensures |ReplaceAll(s, pat, rep)| < |s|
    decreases |s|
  {
    if s[..|pat|] != pat {
      assert i > 0;
      assert s[1..][i - 1..i - 1 + |pat|] == s[i..i + |pat|];
      ReplaceAllShrinks(s[1..], pat, rep, i - 1);
    }
  }

  lemma ReplaceAllShort(s: string, pat: string, rep: string)
    requires pat != [] && |s| < |pat|
    ensures ReplaceAll(s, pat, rep) == s
  {
  }

  /** Every occurrence is replaced: when the first character of `pat` occurs
      nowhere else in it (a placeholder `[key]` with a bracket-free key), no
      occurrence can straddle the start of another, so the text before an
      occurrence is processed on its own, the occurrence becomes `rep`, and
      the scan resumes right after it. */
  lemma {:induction false} ReplaceAllSplit(a: string, pat: string, c: string, rep: string)
    requires pat != []
    requires forall i :: 0 < i < |pat| ==> pat[i] != pat[0]
    ensures ReplaceAll(a + pat + c, pat, rep) ==
            ReplaceAll(a, pat, rep) + rep + ReplaceAll(c, pat, rep)
    decreases |a|
  {
    if a == [] {
      var s := a + pat + c;
      assert s == pat + c;
      assert s[..|pat|] == pat && s[|pat|..] == c;
      ReplaceAllMatch(s, pat, rep);
    } else {
      if |a| >= |pat| && a[..|pat|] == pat {
        ReplaceAllSplit(a[|pat|..], pat, c, rep);
        SplitAfterMatch(a, pat, c, rep);
      } else if |a| >= |pat| {
        ReplaceAllSplit(a[1..], pat, c, rep);
        SplitAfterMismatch(a, pat, c, rep);
      } else {
        ReplaceAllSplit(a[1..], pat, c, rep);
        SplitShortPrefix(a, pat, c, rep);
      }
    }
  }

  lemma SplitAfterMatch(a: string, pat: string, c: string, rep: string)
    requires pat != [] && |pat| <= |a| && a[..|pat|] == pat
    requires ReplaceAll(a[|pat|..] + pat + c, pat, rep) ==
             ReplaceAll(a[|pat|..], pat, rep) + rep + ReplaceAll(c, pat, rep)
    ensures ReplaceAll(a + pat + c, pat, rep) ==
            ReplaceAll(a, pat, rep) + rep + ReplaceAll(c, pat, rep)
  {
    var s := a + pat + c;
    var t := ReplaceAll(a[|pat|..], pat, rep);
    assert ReplaceAll(s, pat, rep) == rep + ReplaceAll(a[|pat|..] + pat + c, pat, rep) by {
      assert s == a + (pat + c);
      ConcatPrefix(a, pat + c, |pat|);
      assert s[..|pat|] == pat && s[|pat|..] == a[|pat|..] + pat + c;
      ReplaceAllMatch(s, pat, rep);
    }
    assert ReplaceAll(a, pat, rep) == rep + t by {
      ReplaceAllMatch(a, pat, rep);
    }
    AppendAssoc(rep, t, rep, ReplaceAll(c, pat, rep));
  }

  lemma SplitAfterMismatch(a: string, pat: string, c: string, rep: string)
    requires pat != [] && |pat| <= |a| && a[..|pat|] != pat
    requires ReplaceAll(a[1..] + pat + c, pat, rep) ==
             ReplaceAll(a[1..], pat, rep) + rep + ReplaceAll(c, pat, rep)
    ensures ReplaceAll(a + pat + c, pat, rep) ==
            ReplaceAll(a, pat, rep) + rep + ReplaceAll(c, pat, rep)
  {
    MismatchStep(a, pat, c, rep);
    ReplaceAllMismatch(a, pat, rep);
    AppendAssoc([a[0]], ReplaceAll(a[1..], pat, rep), rep, ReplaceAll(c, pat, rep));
  }

  lemma MismatchStep(a: string, pat: string, c: string, rep: string)
    requires pat != [] && |pat| <= |a| && a[..|pat|] != pat
    ensures ReplaceAll(a + pat + c, pat, rep) == [a[0]] + ReplaceAll(a[1..] + pat + c, pat, rep)
  {
    var s := a + pat + c;
    assert s == a + (pat + c);
    ConcatPrefix(a, pat + c, |pat|);
    ConcatPrefix(a, pat + c, 1);
    assert s[0] == a[0] && s[1..] == a[1..] + pat + c;
    ReplaceAllMismatch(s, pat, rep);
  }

  lemma SplitShortPrefix(a: string, pat: string, c: string, rep: string)
    requires pat != [] && 0 < |a| < |pat|
    requires forall i :: 0 < i < |pat| ==> pat[i] != pat[0]
    requires ReplaceAll(a[1..] + pat + c, pat, rep) ==
             ReplaceAll(a[1..], pat, rep) + rep + ReplaceAll(c, pat, rep)
    ensures ReplaceAll(a + pat + c, pat, rep) ==
            ReplaceAll(a, pat, rep) + rep + ReplaceAll(c, pat, rep)
  {
    var s := a + pat + c;
    assert ReplaceAll(s, pat, rep) == [a[0]] + ReplaceAll(a[1..] + pat + c, pat, rep) by {
      assert s[..|pat|] != pat by {
        assert s[..|pat|][|a|] == pat[0];
      }
      assert s == a + (pat + c);
      ConcatPrefix(a, pat + c, 1);
      assert s[0] == a[0] && s[1..] == a[1..] + pat + c;
      ReplaceAllMismatch(s, pat, rep);
    }
    assert ReplaceAll(a[1..], pat, rep) == a[1..] && ReplaceAll(a, pat, rep) == a by {
      ReplaceAllShort(a[1..], pat, rep);
      ReplaceAllShort(a, pat, rep);
    }
    AppendAssoc([a[0]], a[1..], rep, ReplaceAll(c, pat, rep));
    assert [a[0]] + a[1..] == a;
  }

  lemma ConcatPrefix(a: string, b: string, n: nat)
    requires n <= |a|
    ensures (a + b)[..n] == a[..n] && (a + b)[n..] == a[n..] + b
    ensures n < |a| ==> (a + b)[n] == a[n]
  {
  }

  /** `x == a + y`, `y == b` and `t == a + b` give `x == t`; stated over
      plain variables so that the step is taken without unfolding anything. */
  lemma SubstEq<T>(x: seq<T>, a: seq<T>, y: seq<T>, b: seq<T>, t: seq<T>)
    requires x == a + y && y == b && t == a + b
    ensures x == t
  {
  }

  lemma Assoc<T>(x: seq<T>, y: seq<T>, z: seq<T>)
    ensures x + (y + z) == x + y + z
  {
  }

  lemma AppendAssoc(x: string, y: string, z: string, w: string)
    ensures x + (y + z + w) == (x + y) + z + w
  {
  }

  lemma ReplaceAllMatch(s: string, pat: string, rep: string)
    requires pat != [] && |pat| <= |s| && s[..|pat|] == pat
    ensures ReplaceAll(s, pat, rep) == rep + ReplaceAll(s[|pat|..], pat, rep)
  {
  }

  lemma ReplaceAllMismatch(s: string, pat: string, rep: string)
    requires pat != [] && |pat| <= |s| && s[..|pat|] != pat
    ensures ReplaceAll(s, pat, rep) == [s[0]] + ReplaceAll(s[1..], pat, rep)
  {
  }

  /** Where the pattern does not start, the first character is copied. */
  lemma ReplaceAllMiss(s: string, pat: string, rep: string)
    requires pat != [] && s != [] && !(|pat| <= |s| && s[..|pat|] == pat)
    ensures ReplaceAll(s, pat, rep) == [s[0]] + ReplaceAll(s[1..], pat, rep)
  {
    if |s| < |pat| {
      ReplaceAllShort(s[1..], pat, rep);
      assert [s[0]] + s[1..] == s;
    }
  }

  /** Replacing a pattern by itself changes nothing. */
  lemma {:induction false} ReplaceAllIdentity(s: string, pat: string)
    requires pat != []
    ensures ReplaceAll(s, pat, pat) == s
    decreases |s|
  {
    if |s| >= |pat| {
      if s[..|pat|] == pat {
        ReplaceAllIdentity(s[|pat|..], pat);
        assert s[..|pat|] + s[|pat|..] == s;
      } else {
        ReplaceAllIdentity(s[1..], pat);
        assert [s[0]] + s[1..] == s;
      }
    }
  }
}
