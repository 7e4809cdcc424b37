/** Inputs built from plain text, placeholders `[key]` and escaped
    placeholders `[[key]]`, and what `Interpolate` makes of them. */
module Templates {
  import opened Strings

  /** One piece of a template. */
  datatype Piece = Text(text: string) | Placeholder(key: string) | Escaped(key: string)

  /** The characters a piece stands for. */
  function Show(p: Piece): string
  {
    match p
    case Text(t) => t
    case Placeholder(k) => "[" + k + "]"
    case Escaped(k) => "[[" + k + "]]"
  }

  /** The text of a template. */
  function Render(ps: seq<Piece>): string
    decreases |ps|
  {
    if ps == [] then [] else Show(ps[0]) + Render(ps[1..])
  }

  /** A key the pattern can match inside one pair of brackets. */
  predicate GoodKey(k: string)
  {
    k != [] && BracketFree(k) && forall i :: 0 <= i < |k| ==> k[i] != '\n'
  }

  /** Text has no brackets; every key is a good key. */
  predicate GoodPiece(p: Piece)
  {
    match p
    case Text(t) => BracketFree(t)
    case Placeholder(k) => GoodKey(k)
    case Escaped(k) => GoodKey(k)
  }

  predicate WellFormed(ps: seq<Piece>)
  {
    forall i :: 0 <= i < |ps| ==> GoodPiece(ps[i])
  }

  // ---------------------------------------------------------------------
  // A placeholder under `StringBuilder.Replace`
  // ---------------------------------------------------------------------

  /** Bracket-free text is copied by a replacement whose pattern starts
      with a bracket, and the scan resumes after it. */
  lemma TextKept(t: string, r: string, pat: string, rep: string)
    requires BracketFree(t) && pat != [] && IsBracket(pat[0])
    ensures ReplaceAll(t + r, pat, rep) == t + ReplaceAll(r, pat, rep)
  {
    ReplaceAllSkip(t, r, pat, rep);
  }

  /** A good key and the `]` after it hold no `[`. */
  lemma KeyCloseNoOpen(k: string)
    requires GoodKey(k)
    ensures forall i :: 0 <= i < |k + "]"| ==> (k + "]")[i] != '['
  {
    assert forall i :: 0 <= i < |k| ==> (k + "]")[i] == k[i];
  }

  /** A replacement whose pattern starts with `[` but does not occur at the
      start of a placeholder copies the placeholder and carries on after it. */
  lemma KeptPlaceholder(k: string, r: string, pat: string, rep: string)
    requires GoodKey(k) && pat != [] && pat[0] == '['
    requires !(|pat| <= |"[" + k + "]" + r| && ("[" + k + "]" + r)[..|pat|] == pat)
    ensures ReplaceAll("[" + k + "]" + r, pat, rep) == "[" + k + "]" + ReplaceAll(r, pat, rep)
  {
    var s := "[" + k + "]" + r;
    var c := k + "]";
    var x := ReplaceAll(r, pat, rep);
    ReplaceAllMiss(s, pat, rep);
    assert s[1..] == c + r;
    KeyCloseNoOpen(k);
    ReplaceAllSkip(c, r, pat, rep);
    assert "[" + k + "]" + x == [s[0]] + (c + x);
    SubstEq(ReplaceAll(s, pat, rep), [s[0]], ReplaceAll(s[1..], pat, rep), c + x, "[" + k + "]" + x);
  }
}
