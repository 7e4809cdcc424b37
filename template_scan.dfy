/** What the placeholder scan finds in the text of a template. */
module TemplateScan {
  import opened Strings
  import opened Scanner
  import opened Interpolation
  import opened Templates

  // ---------------------------------------------------------------------
  // What the scan finds
  // ---------------------------------------------------------------------

  /** The match a piece gives, if any: a placeholder matches whole; an
      escaped placeholder `[[k]]` matches as `[[k]`, one `]` short. */
  function TokenOf(p: Piece): string
  {
    match p
    case Text(t) => []
    case Placeholder(k) => "[" + k + "]"
    case Escaped(k) => "[[" + k + "]"
  }

  /** The match of one piece at position `at`, if it has one. */
  function PieceMatches(p: Piece, at: nat): seq<Match>
  {
    if p.Text? then [] else [Match(at, TokenOf(p))]
  }

  /** The matches of the pieces `ps`, laid out from position `at`. */
  function TokenMatches(ps: seq<Piece>, at: nat): (r: seq<Match>)
    ensures NonEmpty(r)
    decreases |ps|
  {
    if ps == [] then [] else PieceMatches(ps[0], at) + TokenMatches(ps[1..], at + |Show(ps[0])|)
  }

  /** `s` holds the pieces `ps` one after the other from position `i` to its end. */
  predicate Layout(s: string, i: nat, ps: seq<Piece>)
    decreases |ps|
  {
    if ps == [] then i == |s|
    else
      var j := i + |Show(ps[0])|;
      j <= |s| && s[i..j] == Show(ps[0]) && Layout(s, j, ps[1..])
  }

  lemma SliceSplit(s: string, i: nat, x: string, y: string)
    requires i <= |s| && s[i..] == x + y
    ensures i + |x| <= |s| && s[i..i + |x|] == x && s[i + |x|..] == y
  {
    assert |s[i..]| == |x| + |y|;
    assert s[i..i + |x|] == s[i..][..|x|];
    assert s[i + |x|..] == s[i..][|x|..];
  }

  lemma LayoutCons(s: string, i: nat, j: nat, ps: seq<Piece>)
    requires ps != [] && j == i + |Show(ps[0])|
    requires j <= |s| && s[i..j] == Show(ps[0]) && Layout(s, j, ps[1..])
    ensures Layout(s, i, ps)
  {
  }

  /** A template's text is laid out piece by piece. */
  lemma {:induction false} RenderLayout(s: string, i: nat, ps: seq<Piece>)
    requires i <= |s| && s[i..] == Render(ps)
    ensures Layout(s, i, ps)
    decreases |ps|
  {
    if ps == [] {
      assert |s[i..]| == 0;
    } else {
      var j := i + |Show(ps[0])|;
      var x, y := Show(ps[0]), Render(ps[1..]);
      assert s[i..] == x + y;
      SliceSplit(s, i, x, y);
      RenderLayout(s, j, ps[1..]);
      LayoutCons(s, i, j, ps);
    }
  }

  /** Positions holding no `[` start no match. */
  lemma {:induction false} ScanText(s: string, from: nat, to: nat)
    requires from <= to <= |s|
    requires forall j :: from <= j < to ==> s[j] != '['
    ensures Scan(s, from) == Scan(s, to)
    decreases |s| - from
  {
    if from < to {
      assert MatchEnd(s, from).None?;
      ScanText(s, from + 1, to);
    }
  }

  lemma ScanTextPiece(s: string, i: nat, t: string)
    requires BracketFree(t) && i + |t| <= |s| && s[i..i + |t|] == t
    ensures Scan(s, i) == Scan(s, i + |t|)
  {
    forall j | i <= j < i + |t| ensures s[j] != '[' {
      assert s[j] == t[j - i];
    }
    ScanText(s, i, i + |t|);
  }

  lemma PlaceholderShape(k: string)
    requires GoodKey(k)
    ensures TokenShape("[" + k + "]")
  {
    var v := "[" + k + "]";
    assert forall j :: 0 < j < |v| - 1 ==> v[j] == k[j - 1];
  }

  lemma EscapedShape(k: string)
    requires GoodKey(k)
    ensures TokenShape("[[" + k + "]")
  {
    var v := "[[" + k + "]";
    assert forall j :: 1 < j < |v| - 1 ==> v[j] == k[j - 2];
  }

  lemma ScanPlaceholderPiece(s: string, i: nat, k: string)
    requires GoodKey(k) && i + |k| + 2 <= |s| && s[i..i + |k| + 2] == "[" + k + "]"
    ensures Scan(s, i) == [Match(i, "[" + k + "]")] + Scan(s, i + |k| + 2)
  {
    PlaceholderShape(k);
    MatchEndSpec(s, i, i + |k| + 2);
  }

  lemma ScanEscapedPiece(s: string, i: nat, k: string)
    requires GoodKey(k) && i + |k| + 4 <= |s| && s[i..i + |k| + 4] == "[[" + k + "]]"
    ensures Scan(s, i) == [Match(i, "[[" + k + "]")] + Scan(s, i + |k| + 4)
  {
    var e := i + |k| + 3;
    var v := s[i..i + |k| + 4];
    assert s[i..e] == v[..|k| + 3];
    assert v[..|k| + 3] == "[[" + k + "]";
    EscapedShape(k);
    MatchEndSpec(s, i, e);
    assert s[e] == v[|k| + 3];
    assert MatchEnd(s, e).None?;
  }

  /** The scan over one piece of text. */
  lemma ScanPiece(s: string, i: nat, p: Piece)
    requires GoodPiece(p) && i + |Show(p)| <= |s| && s[i..i + |Show(p)|] == Show(p)
    ensures Scan(s, i) == PieceMatches(p, i) + Scan(s, i + |Show(p)|)
  {
    match p
    case Text(t) => ScanTextPiece(s, i, t);
    case Placeholder(k) => ScanPlaceholderPiece(s, i, k);
    case Escaped(k) => ScanEscapedPiece(s, i, k);
  }

  /** The scan of laid-out pieces finds exactly one match per placeholder
      and per escaped placeholder, in order. */
  lemma {:induction false} ScanLayout(s: string, i: nat, ps: seq<Piece>)
    requires WellFormed(ps) && Layout(s, i, ps)
    ensures Scan(s, i) == TokenMatches(ps, i)
    decreases |ps|
  {
    if ps == [] {
      assert Scan(s, i) == [];
    } else {
      assert GoodPiece(ps[0]) && WellFormed(ps[1..]);
      ScanLayout(s, i + |Show(ps[0])|, ps[1..]);
      ScanCons(s, i, ps);
    }
  }

  lemma ScanCons(s: string, i: nat, ps: seq<Piece>)
    requires ps != [] && GoodPiece(ps[0])
    requires i + |Show(ps[0])| <= |s| && s[i..i + |Show(ps[0])|] == Show(ps[0])
    requires Scan(s, i + |Show(ps[0])|) == TokenMatches(ps[1..], i + |Show(ps[0])|)
    ensures Scan(s, i) == TokenMatches(ps, i)
  {
    var j := i + |Show(ps[0])|;
    ScanPiece(s, i, ps[0]);
    SubstEq(Scan(s, i), PieceMatches(ps[0], i), Scan(s, j), TokenMatches(ps[1..], j), TokenMatches(ps, i));
  }

  /** The scan of a template's text: matches of its placeholders and
      escaped placeholders at their positions. */
  lemma ScanRender(ps: seq<Piece>)
    requires WellFormed(ps)
    ensures Matches(Render(ps)) == TokenMatches(ps, 0)
  {
    RenderLayout(Render(ps), 0, ps);
    ScanLayout(Render(ps), 0, ps);
  }
}
