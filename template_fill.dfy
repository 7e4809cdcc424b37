/** What one `builder.Replace(match.Value, value)` makes of a working copy
    that is laid out as text and placeholders (the escape pass has already
    turned every `[[key]]` into `[key]`). */
module TemplateFill {
  import opened Strings
  import opened Interpolation
  import opened Templates

  /** No escaped placeholder is left: the shape of the working copy. */
  predicate Plain(ws: seq<Piece>)
  {
    forall i :: 0 <= i < |ws| ==> !ws[i].Escaped?
  }

  /** A placeholder whose key is one of `keys` and has a usable value
      becomes that value; every other piece stays as it is. */
  function FillPiece(p: Piece, keys: set<string>, m: Substitutions): Piece
  {
    if p.Placeholder? && p.key in keys && Usable(m, p.key) then Text(m[p.key].value) else p
  }

  function FillAll(ws: seq<Piece>, keys: set<string>, m: Substitutions): (r: seq<Piece>)
    ensures |r| == |ws|
    decreases |ws|
  {
    if ws == [] then [] else [FillPiece(ws[0], keys, m)] + FillAll(ws[1..], keys, m)
  }

  lemma FillAllCons(ws: seq<Piece>, keys: set<string>, m: Substitutions)
    requires ws != []
    ensures Render(FillAll(ws, keys, m)) == Show(FillPiece(ws[0], keys, m)) + Render(FillAll(ws[1..], keys, m))
  {
    var f := FillAll(ws, keys, m);
    assert f[0] == FillPiece(ws[0], keys, m) && f[1..] == FillAll(ws[1..], keys, m);
  }

  // ---------------------------------------------------------------------
  // Where a token can occur
  // ---------------------------------------------------------------------

  /** The token `[k]` does not occur at the start of a different placeholder
      `[k']`, whatever follows it: the two differ inside the brackets, or
      one closes where the other still has a key character. */
  lemma OtherKeyMiss(k: string, k': string, r: string)
    requires GoodKey(k) && GoodKey(k') && k != k'
    ensures !(|"[" + k + "]"| <= |"[" + k' + "]" + r| && ("[" + k' + "]" + r)[..|"[" + k + "]"|] == "[" + k + "]")
  {
    var pat := "[" + k + "]";
    var s := "[" + k' + "]" + r;
    if |k| == |k'| {
      var q := "[" + k' + "]";
      assert s[..|pat|] == q;
      assert pat[1..|pat| - 1] == k && q[1..|pat| - 1] == k';
    } else if |k| < |k'| {
      assert pat[|k| + 1] == ']' && s[|k| + 1] == k'[|k|];
    } else {
      assert s[|k'| + 1] == ']' && pat[|k'| + 1] == k[|k'|];
    }
  }

  /** The token `[[k]` of an escaped placeholder does not occur at a
      placeholder `[k']`: its second character is `[`, a key's first is not. */
  lemma DoubledMiss(k: string, k': string, r: string)
    requires GoodKey(k')
    ensures !(|"[[" + k + "]"| <= |"[" + k' + "]" + r| && ("[" + k' + "]" + r)[..|"[[" + k + "]"|] == "[[" + k + "]")
  {
    var pat := "[[" + k + "]";
    var s := "[" + k' + "]" + r;
    assert s[1] == k'[0] && pat[1] == '[';
  }

  // ---------------------------------------------------------------------
  // builder.Replace("[k]", value)
  // ---------------------------------------------------------------------

  lemma ReplaceKeyPiece(p: Piece, r: string, k: string, m: Substitutions)
    requires GoodPiece(p) && !p.Escaped? && GoodKey(k) && Usable(m, k)
    ensures ReplaceAll(Show(p) + r, "[" + k + "]", m[k].value) ==
      Show(FillPiece(p, {k}, m)) + ReplaceAll(r, "[" + k + "]", m[k].value)
  {
    var pat, v := "[" + k + "]", m[k].value;
    match p
    case Text(t) =>
      TextKept(t, r, pat, v);
    case Placeholder(k') =>
      if k' == k {
        var s := pat + r;
        assert s[..|pat|] == pat && s[|pat|..] == r;
        ReplaceAllMatch(s, pat, v);
      } else {
        OtherKeyMiss(k, k', r);
        KeptPlaceholder(k', r, pat, v);
      }
  }

  /** Replacing the token of a placeholder whose key has a usable value
      substitutes the value for every placeholder with that key, and for
      nothing else. */
  lemma {:induction false} ReplaceKey(ws: seq<Piece>, k: string, m: Substitutions)
    requires WellFormed(ws) && Plain(ws) && GoodKey(k) && Usable(m, k)
    ensures ReplaceAll(Render(ws), "[" + k + "]", m[k].value) == Render(FillAll(ws, {k}, m))
    decreases |ws|
  {
    var pat, v := "[" + k + "]", m[k].value;
    if ws == [] {
      ReplaceAllShort([], pat, v);
    } else {
      assert GoodPiece(ws[0]) && !ws[0].Escaped?;
      assert WellFormed(ws[1..]) && Plain(ws[1..]);
      ReplaceKey(ws[1..], k, m);
      ReplaceKeyPiece(ws[0], Render(ws[1..]), k, m);
      FillAllCons(ws, {k}, m);
      SubstEq(ReplaceAll(Render(ws), pat, v), Show(FillPiece(ws[0], {k}, m)),
        ReplaceAll(Render(ws[1..]), pat, v), Render(FillAll(ws[1..], {k}, m)), Render(FillAll(ws, {k}, m)));
    }
  }

  // ---------------------------------------------------------------------
  // builder.Replace("[[k]", value)
  // ---------------------------------------------------------------------

  lemma ReplaceDoubledPiece(p: Piece, r: string, k: string, v: string)
    requires GoodPiece(p) && !p.Escaped?
    ensures ReplaceAll(Show(p) + r, "[[" + k + "]", v) == Show(p) + ReplaceAll(r, "[[" + k + "]", v)
  {
    match p
    case Text(t) =>
      TextKept(t, r, "[[" + k + "]", v);
    case Placeholder(k') =>
      DoubledMiss(k, k', r);
      KeptPlaceholder(k', r, "[[" + k + "]", v);
  }

  /** The token `[[k]` of an escaped placeholder no longer occurs once the
      escapes are collapsed, so replacing it changes nothing. */
  lemma {:induction false} ReplaceDoubled(ws: seq<Piece>, k: string, v: string)
    requires WellFormed(ws) && Plain(ws)
    ensures ReplaceAll(Render(ws), "[[" + k + "]", v) == Render(ws)
    decreases |ws|
  {
    var pat := "[[" + k + "]";
    if ws == [] {
      ReplaceAllShort([], pat, v);
    } else {
      assert GoodPiece(ws[0]) && !ws[0].Escaped?;
      assert WellFormed(ws[1..]) && Plain(ws[1..]);
      ReplaceDoubled(ws[1..], k, v);
      ReplaceDoubledPiece(ws[0], Render(ws[1..]), k, v);
      SubstEq(ReplaceAll(Render(ws), pat, v), Show(ws[0]),
        ReplaceAll(Render(ws[1..]), pat, v), Render(ws[1..]), Render(ws));
    }
  }

  // ---------------------------------------------------------------------
  // Filling several keys
  // ---------------------------------------------------------------------

  /** Values are filled in at most once: filling `k1` and then `k2` is
      filling both at once. */
  lemma {:induction false} FillTwice(ws: seq<Piece>, k1: set<string>, k2: set<string>, m: Substitutions)
    ensures FillAll(FillAll(ws, k1, m), k2, m) == FillAll(ws, k1 + k2, m)
    decreases |ws|
  {
    if ws != [] {
      FillTwice(ws[1..], k1, k2, m);
      var f := FillAll(ws, k1, m);
      assert f[0] == FillPiece(ws[0], k1, m) && f[1..] == FillAll(ws[1..], k1, m);
    }
  }

  /** Filling no keys changes nothing. */
  lemma {:induction false} FillNone(ws: seq<Piece>, m: Substitutions)
    ensures FillAll(ws, {}, m) == ws
    decreases |ws|
  {
    if ws != [] {
      FillNone(ws[1..], m);
    }
  }

  /** Keys without a usable value fill nothing. */
  lemma {:induction false} FillUnusable(ws: seq<Piece>, keys: set<string>, m: Substitutions)
    requires forall k :: k in keys ==> !Usable(m, k)
    ensures FillAll(ws, keys, m) == ws
    decreases |ws|
  {
    if ws != [] {
      FillUnusable(ws[1..], keys, m);
    }
  }

  /** Filling keys whose usable values hold no bracket keeps the working
      copy well formed and without escapes. */
  lemma {:induction false} FillWellFormed(ws: seq<Piece>, keys: set<string>, m: Substitutions)
    requires WellFormed(ws) && Plain(ws)
    requires forall k :: k in keys && Usable(m, k) ==> BracketFree(m[k].value)
    ensures WellFormed(FillAll(ws, keys, m)) && Plain(FillAll(ws, keys, m))
    decreases |ws|
  {
    if ws != [] {
      assert GoodPiece(ws[0]) && !ws[0].Escaped?;
      assert WellFormed(ws[1..]) && Plain(ws[1..]);
      FillWellFormed(ws[1..], keys, m);
      var f := FillAll(ws, keys, m);
      assert f[0] == FillPiece(ws[0], keys, m) && f[1..] == FillAll(ws[1..], keys, m);
      forall i | 0 <= i < |f| ensures GoodPiece(f[i]) && !f[i].Escaped? {
        if i > 0 {
          assert f[i] == f[1..][i - 1];
        }
      }
    }
  }
}
