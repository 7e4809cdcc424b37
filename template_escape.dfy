/** What the two escape replacements make of the text of a template. */
module TemplateEscape {
  import opened Strings
  import opened Templates

  // ---------------------------------------------------------------------
  // What the escape pass makes of a template
  // ---------------------------------------------------------------------

  /** An escaped placeholder reads, once collapsed, as a placeholder. */
  function Unescape(p: Piece): Piece
  {
    if p.Escaped? then Placeholder(p.key) else p
  }

  function Unescaped(ps: seq<Piece>): (r: seq<Piece>)
    ensures |r| == |ps|
    decreases |ps|
  {
    if ps == [] then [] else [Unescape(ps[0])] + Unescaped(ps[1..])
  }

  /** A piece after `[[` has become `[`, before `]]` becomes `]`. */
  function Opening(p: Piece): string
  {
    if p.Escaped? then "[" + p.key + "]]" else Show(p)
  }

  function Opened(ps: seq<Piece>): string
    decreases |ps|
  {
    if ps == [] then [] else Opening(ps[0]) + Opened(ps[1..])
  }

  lemma OpenPlaceholder(k: string, r: string)
    requires GoodKey(k)
    ensures ReplaceAll("[" + k + "]" + r, "[[", "[") == "[" + k + "]" + ReplaceAll(r, "[[", "[")
  {
    var s := "[" + k + "]" + r;
    assert s[..2] != "[[" by {
      assert s[1] == k[0];
    }
    KeptPlaceholder(k, r, "[[", "[");
  }

  lemma OpenEscaped(k: string, r: string)
    requires GoodKey(k)
    ensures ReplaceAll("[[" + k + "]]" + r, "[[", "[") == "[" + k + "]]" + ReplaceAll(r, "[[", "[")
  {
    var s := "[[" + k + "]]" + r;
    var c := k + "]]";
    var x := ReplaceAll(r, "[[", "[");
    assert s[..2] == "[[" && s[2..] == c + r;
    ReplaceAllMatch(s, "[[", "[");
    assert forall i :: 0 <= i < |c| ==> c[i] != '[' by {
      assert forall i :: 0 <= i < |k| ==> c[i] == k[i];
    }
    ReplaceAllSkip(c, r, "[[", "[");
    assert "[" + k + "]]" + x == "[" + (c + x);
    SubstEq(ReplaceAll(s, "[[", "["), "[", ReplaceAll(s[2..], "[[", "["), c + x, "[" + k + "]]" + x);
  }

  lemma OpenPiece(p: Piece, r: string)
    requires GoodPiece(p)
    ensures ReplaceAll(Show(p) + r, "[[", "[") == Opening(p) + ReplaceAll(r, "[[", "[")
  {
    match p
    case Text(t) => TextKept(t, r, "[[", "[");
    case Placeholder(k) => OpenPlaceholder(k, r);
    case Escaped(k) => OpenEscaped(k, r);
  }

  /** `Replace("[[", "[")` on a template's text. */
  lemma {:induction false} OpenRender(ps: seq<Piece>)
    requires WellFormed(ps)
    ensures ReplaceAll(Render(ps), "[[", "[") == Opened(ps)
    decreases |ps|
  {
    if ps != [] {
      assert GoodPiece(ps[0]) && WellFormed(ps[1..]);
      OpenRender(ps[1..]);
      OpenPiece(ps[0], Render(ps[1..]));
    }
  }

  /** A lone `]` is kept when what follows does not start with `]`. */
  lemma CloseTail(r: string)
    requires r == [] || r[0] != ']'
    ensures ReplaceAll("]" + r, "]]", "]") == "]" + ReplaceAll(r, "]]", "]")
  {
    var s := "]" + r;
    assert s[1..] == r;
    if |s| >= 2 {
      assert s[1] == r[0];
    }
    ReplaceAllMiss(s, "]]", "]");
  }

  /** The opening `[` and a good key hold no `]`. */
  lemma OpenKeyNoClose(k: string)
    requires GoodKey(k)
    ensures forall i :: 0 <= i < |"[" + k| ==> ("[" + k)[i] != "]]"[0]
  {
    assert forall i :: 0 < i < |"[" + k| ==> ("[" + k)[i] == k[i - 1];
  }

  lemma ClosePlaceholder(k: string, r: string)
    requires GoodKey(k) && (r == [] || r[0] != ']')
    ensures ReplaceAll("[" + k + "]" + r, "]]", "]") == "[" + k + "]" + ReplaceAll(r, "]]", "]")
  {
    OpenKeyNoClose(k);
    CloseAfter("[" + k, r);
  }

  /** A `]` after text without `]` and before text not starting with `]` is kept. */
  lemma CloseAfter(a: string, r: string)
    requires forall i :: 0 <= i < |a| ==> a[i] != "]]"[0]
    requires r == [] || r[0] != ']'
    ensures ReplaceAll(a + "]" + r, "]]", "]") == a + "]" + ReplaceAll(r, "]]", "]")
  {
    assert a + "]" + r == a + ("]" + r);
    CloseAfterSplit(a, r, "]" + r);
  }

  lemma CloseAfterSplit(a: string, r: string, u: string)
    requires forall i :: 0 <= i < |a| ==> a[i] != "]]"[0]
    requires r == [] || r[0] != ']'
    requires u == "]" + r
    ensures ReplaceAll(a + u, "]]", "]") == a + "]" + ReplaceAll(r, "]]", "]")
  {
    var x := ReplaceAll(r, "]]", "]");
    ReplaceAllSkip(a, u, "]]", "]");
    CloseTail(r);
    assert a + "]" + x == a + ("]" + x);
    SubstEq(ReplaceAll(a + u, "]]", "]"), a, ReplaceAll(u, "]]", "]"), "]" + x, a + "]" + x);
  }

  lemma CloseEscaped(k: string, r: string)
    requires GoodKey(k)
    ensures ReplaceAll("[" + k + "]]" + r, "]]", "]") == "[" + k + "]" + ReplaceAll(r, "]]", "]")
  {
    var a := "[" + k;
    var u := "]]" + r;
    assert a + "]]" + r == a + u;
    OpenKeyNoClose(k);
    ReplaceAllSkip(a, u, "]]", "]");
    assert u[..2] == "]]" && u[2..] == r;
    ReplaceAllMatch(u, "]]", "]");
  }

  lemma ClosePiece(p: Piece, r: string)
    requires GoodPiece(p) && (r == [] || r[0] != ']')
    ensures ReplaceAll(Opening(p) + r, "]]", "]") == Show(Unescape(p)) + ReplaceAll(r, "]]", "]")
  {
    match p
    case Text(t) => TextKept(t, r, "]]", "]");
    case Placeholder(k) => ClosePlaceholder(k, r);
    case Escaped(k) => CloseEscaped(k, r);
  }

  /** After the first pass no `]` starts the rest of the text. */
  lemma {:induction false} OpenedStart(ps: seq<Piece>)
    requires WellFormed(ps)
    ensures Opened(ps) == [] || Opened(ps)[0] != ']'
    decreases |ps|
  {
    if ps != [] {
      assert GoodPiece(ps[0]) && WellFormed(ps[1..]);
      OpenedStart(ps[1..]);
      if Opening(ps[0]) != [] {
        assert Opened(ps)[0] == Opening(ps[0])[0];
      }
    }
  }

  lemma RenderUnescapedCons(ps: seq<Piece>)
    requires ps != []
    ensures Render(Unescaped(ps)) == Show(Unescape(ps[0])) + Render(Unescaped(ps[1..]))
  {
    var u := Unescaped(ps);
    assert u[0] == Unescape(ps[0]) && u[1..] == Unescaped(ps[1..]);
  }

  /** `Replace("]]", "]")` on the result of the first pass. */
  lemma {:induction false} CloseRender(ps: seq<Piece>)
    requires WellFormed(ps)
    ensures ReplaceAll(Opened(ps), "]]", "]") == Render(Unescaped(ps))
    decreases |ps|
  {
    if ps != [] {
      assert GoodPiece(ps[0]) && WellFormed(ps[1..]);
      CloseRender(ps[1..]);
      OpenedStart(ps[1..]);
      ClosePiece(ps[0], Opened(ps[1..]));
      RenderUnescapedCons(ps);
    }
  }

  /** The escape pass, `Replace("[[", "[")` then `Replace("]]", "]")`, turns
      every `[[key]]` of a template into `[key]` and changes nothing else. */
  lemma EscapeRender(ps: seq<Piece>)
    requires WellFormed(ps)
    ensures ReplaceAll(ReplaceAll(Render(ps), "[[", "["), "]]", "]") == Render(Unescaped(ps))
  {
    OpenRender(ps);
    CloseRender(ps);
  }
}
