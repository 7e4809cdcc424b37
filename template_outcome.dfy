/** What `Interpolate` returns for the text of a template: each piece on its
    own, independent of the order in which the tokens are processed. */
module TemplateOutcome {
  import opened Strings
  import opened Scanner
  import opened Interpolation
  import opened Templates
  import opened TemplateScan
  import opened TemplateEscape
  import opened TemplateFill

  /** The key a piece offers for substitution: a placeholder's own key. */
  function KeysOf(p: Piece): set<string>
  {
    if p.Placeholder? then {p.key} else {}
  }

  /** The keys of the (unescaped) placeholders of a template. */
  function PlaceholderKeys(ps: seq<Piece>): set<string>
    decreases |ps|
  {
    if ps == [] then {} else KeysOf(ps[0]) + PlaceholderKeys(ps[1..])
  }

  /** The usable values of `keys` hold no bracket, so no inserted value can
      form or break a token. */
  predicate Fits(m: Substitutions, keys: set<string>)
  {
    forall k :: k in keys && Usable(m, k) ==> BracketFree(m[k].value)
  }

  /** What a placeholder `[k]` becomes: its key's usable value, or itself. */
  function Filled(m: Substitutions, k: string): string
  {
    if Usable(m, k) then m[k].value else "[" + k + "]"
  }

  /** What becomes of one piece of a template whose placeholder keys are
      `keys`: text stays; a placeholder takes its key's usable value or
      stays as it is; an escaped placeholder `[[k]]` loses one pair of
      brackets, and takes the value of `k` as well when `k` is also the key
      of an unescaped placeholder somewhere in the template. */
  function Outcome(p: Piece, keys: set<string>, m: Substitutions): string
  {
    match p
    case Text(t) => t
    case Placeholder(k) => Filled(m, k)
    case Escaped(k) => if k in keys && Usable(m, k) then m[k].value else "[" + k + "]"
  }

  function Outcomes(ps: seq<Piece>, keys: set<string>, m: Substitutions): string
    decreases |ps|
  {
    if ps == [] then [] else Outcome(ps[0], keys, m) + Outcomes(ps[1..], keys, m)
  }

  /** The expected output for a template. */
  function Expected(ps: seq<Piece>, m: Substitutions): string
  {
    Outcomes(ps, PlaceholderKeys(ps), m)
  }

  /** A template with one more piece in front. */
  lemma Cons(p: Piece, ps: seq<Piece>, keys: set<string>, m: Substitutions)
    ensures Render([p] + ps) == Show(p) + Render(ps)
    ensures PlaceholderKeys([p] + ps) == KeysOf(p) + PlaceholderKeys(ps)
    ensures Outcomes([p] + ps, keys, m) == Outcome(p, keys, m) + Outcomes(ps, keys, m)
  {
    assert ([p] + ps)[1..] == ps;
  }

  // ---------------------------------------------------------------------
  // One match of the loop
  // ---------------------------------------------------------------------

  /** The loop body for the match a piece gives, if it gives one. */
  function StepPiece(w: string, q: Piece, m: Substitutions): string
  {
    if q.Text? then w else Step(w, TokenOf(q), m)
  }

  lemma SubstituteCons(w: string, qs: seq<Piece>, at: nat, m: Substitutions)
    requires qs != []
    ensures Substitute(w, TokenMatches(qs, at), m) ==
      Substitute(StepPiece(w, qs[0], m), TokenMatches(qs[1..], at + |Show(qs[0])|), m)
  {
    var rest := TokenMatches(qs[1..], at + |Show(qs[0])|);
    var all := TokenMatches(qs, at);
    if qs[0].Text? {
      assert all == rest;
    } else {
      assert all == [Match(at, TokenOf(qs[0]))] + rest;
      assert all[0].value == TokenOf(qs[0]) && all[1..] == rest;
    }
  }

  /** The token of a placeholder and of an escaped placeholder trims back to
      the key. */
  lemma TokenKey(q: Piece)
    requires GoodPiece(q) && !q.Text?
    ensures TrimBrackets(TokenOf(q)) == q.key
  {
    var k := q.key;
    if q.Placeholder? {
      assert TokenOf(q) == "[" + k + "]";
      TrimFramed("[", k, "]");
    } else {
      assert TokenOf(q) == "[[" + k + "]";
      TrimFramed("[[", k, "]");
    }
  }

  /** One step of the loop fills the piece's own key, if it has a usable
      value; the step of an escaped placeholder changes nothing. */
  lemma StepFill(ws: seq<Piece>, q: Piece, m: Substitutions)
    requires WellFormed(ws) && Plain(ws) && GoodPiece(q)
    ensures StepPiece(Render(ws), q, m) == Render(FillAll(ws, KeysOf(q), m))
  {
    match q
    case Text(_) =>
      FillNone(ws, m);
    case Placeholder(k) =>
      TokenKey(q);
      if Usable(m, k) {
        ReplaceKey(ws, k, m);
      } else {
        FillUnusable(ws, {k}, m);
      }
    case Escaped(k) =>
      TokenKey(q);
      FillNone(ws, m);
      if Usable(m, k) {
        ReplaceDoubled(ws, k, m[k].value);
      }
  }

  // ---------------------------------------------------------------------
  // The whole loop
  // ---------------------------------------------------------------------

  /** The placeholder keys of a template are those of its first piece and
      those of the rest; so are the keys a usable value must fit. */
  lemma KeysCons(m: Substitutions, qs: seq<Piece>)
    requires qs != [] && Fits(m, PlaceholderKeys(qs))
    ensures PlaceholderKeys(qs) == KeysOf(qs[0]) + PlaceholderKeys(qs[1..])
    ensures Fits(m, KeysOf(qs[0])) && Fits(m, PlaceholderKeys(qs[1..]))
  { }

  /** The loop over the matches of the pieces `qs` fills exactly the
      placeholder keys of `qs` into a working copy of text and placeholders. */
  lemma {:induction false} SubstituteTemplate(ws: seq<Piece>, qs: seq<Piece>, at: nat, m: Substitutions)
    requires WellFormed(ws) && Plain(ws) && WellFormed(qs)
    requires Fits(m, PlaceholderKeys(qs))
    ensures Substitute(Render(ws), TokenMatches(qs, at), m) == Render(FillAll(ws, PlaceholderKeys(qs), m))
    decreases |qs|
  {
    if qs == [] {
      FillNone(ws, m);
    } else {
      var w1, qs1, at1 := FillAll(ws, KeysOf(qs[0]), m), qs[1..], at + |Show(qs[0])|;
      assert WellFormed(w1) && Plain(w1) && WellFormed(qs1) && Fits(m, PlaceholderKeys(qs1)) by {
        StepReady(ws, qs, m);
      }
      SubstituteTemplate(w1, qs1, at1, m);
      SubstituteStep(ws, qs, at, m, w1, TokenMatches(qs1, at1));
    }
  }

  /** What the inductive step of `SubstituteTemplate` needs. */
  lemma StepReady(ws: seq<Piece>, qs: seq<Piece>, m: Substitutions)
    requires qs != [] && WellFormed(ws) && Plain(ws) && WellFormed(qs)
    requires Fits(m, PlaceholderKeys(qs))
    ensures GoodPiece(qs[0]) && WellFormed(qs[1..])
    ensures PlaceholderKeys(qs) == KeysOf(qs[0]) + PlaceholderKeys(qs[1..]) && Fits(m, PlaceholderKeys(qs[1..]))
    ensures WellFormed(FillAll(ws, KeysOf(qs[0]), m)) && Plain(FillAll(ws, KeysOf(qs[0]), m))
  {
    assert GoodPiece(qs[0]) && WellFormed(qs[1..]);
    KeysCons(m, qs);
    FillWellFormed(ws, KeysOf(qs[0]), m);
  }

  /** The inductive step of `SubstituteTemplate`: the first match fills the
      first piece's key, the rest fill the others. */
  lemma SubstituteStep(ws: seq<Piece>, qs: seq<Piece>, at: nat, m: Substitutions, w1: seq<Piece>, tail: seq<Match>)
    requires qs != [] && WellFormed(ws) && Plain(ws) && WellFormed(qs)
    requires Fits(m, PlaceholderKeys(qs))
    requires w1 == FillAll(ws, KeysOf(qs[0]), m) && tail == TokenMatches(qs[1..], at + |Show(qs[0])|)
    requires Substitute(Render(w1), tail, m) == Render(FillAll(w1, PlaceholderKeys(qs[1..]), m))
    ensures Substitute(Render(ws), TokenMatches(qs, at), m) == Render(FillAll(ws, PlaceholderKeys(qs), m))
  {
    StepReady(ws, qs, m);
    StepFill(ws, qs[0], m);
    SubstituteCons(Render(ws), qs, at, m);
    FillTwice(ws, KeysOf(qs[0]), PlaceholderKeys(qs[1..]), m);
  }

  lemma UnescapedPlain(ps: seq<Piece>)
    requires WellFormed(ps)
    ensures WellFormed(Unescaped(ps)) && Plain(Unescaped(ps))
  {
    forall i | 0 <= i < |ps| ensures Unescaped(ps)[i] == Unescape(ps[i]) {
      UnescapedAt(ps, i);
    }
  }

  lemma {:induction false} UnescapedAt(ps: seq<Piece>, i: nat)
    requires i < |ps|
    ensures Unescaped(ps)[i] == Unescape(ps[i])
    decreases i
  {
    if i > 0 {
      UnescapedAt(ps[1..], i - 1);
    }
  }

  /** The filled working copy, piece by piece. */
  lemma {:induction false} FillOutcomes(ps: seq<Piece>, keys: set<string>, m: Substitutions)
    requires PlaceholderKeys(ps) <= keys
    ensures Render(FillAll(Unescaped(ps), keys, m)) == Outcomes(ps, keys, m)
    decreases |ps|
  {
    if ps != [] {
      var u := Unescaped(ps);
      assert u[0] == Unescape(ps[0]) && u[1..] == Unescaped(ps[1..]);
      assert KeysOf(ps[0]) <= keys && PlaceholderKeys(ps[1..]) <= keys;
      FillOutcomes(ps[1..], keys, m);
      FillAllCons(u, keys, m);
      assert Show(FillPiece(u[0], keys, m)) == Outcome(ps[0], keys, m);
    }
  }

  /** The output of `Interpolate` for the text of any well-formed template,
      as long as the usable values of its placeholder keys hold no bracket:
      the argument error for a text of white space only, and otherwise the
      pieces' outcomes one after the other. */
  lemma InterpolateTemplate(ps: seq<Piece>, m: Substitutions)
    requires WellFormed(ps) && Fits(m, PlaceholderKeys(ps))
    ensures Interpolated(Some(Render(ps)), Some(m)) ==
      if AllWhiteSpace(Render(ps)) then InvalidInput else Ok(Expected(ps, m))
  {
    if !AllWhiteSpace(Render(ps)) {
      ScanRender(ps);
      EscapeRender(ps);
      UnescapedPlain(ps);
      SubstituteTemplate(Unescaped(ps), ps, 0, m);
      FillOutcomes(ps, PlaceholderKeys(ps), m);
    }
  }

  // ---------------------------------------------------------------------
  // The escape promise of the doc comment
  // ---------------------------------------------------------------------

  /** What the doc comment of `Interpolate` promises for one piece: an
      escaped placeholder `[[k]]` always reads `[k]`, whatever the
      dictionary holds. */
  function IntendedOutcome(p: Piece, m: Substitutions): string
  {
    match p
    case Text(t) => t
    case Placeholder(k) => Filled(m, k)
    case Escaped(k) => "[" + k + "]"
  }

  /** The output the doc comment promises for a template. */
  function Intended(ps: seq<Piece>, m: Substitutions): string
    decreases |ps|
  {
    if ps == [] then [] else IntendedOutcome(ps[0], m) + Intended(ps[1..], m)
  }

  /** An escaped placeholder whose key is one of `keys`, with a usable value. */
  predicate Clashes(p: Piece, keys: set<string>, m: Substitutions)
  {
    p.Escaped? && p.key in keys && Usable(m, p.key)
  }

  /** No escaped placeholder clashes. */
  predicate NoClash(ps: seq<Piece>, keys: set<string>, m: Substitutions)
  {
    forall i :: 0 <= i < |ps| ==> !Clashes(ps[i], keys, m)
  }

  lemma NoClashCons(ps: seq<Piece>, keys: set<string>, m: Substitutions)
    requires ps != []
    ensures NoClash(ps, keys, m) <==> !Clashes(ps[0], keys, m) && NoClash(ps[1..], keys, m)
  {
    if !Clashes(ps[0], keys, m) && NoClash(ps[1..], keys, m) {
      forall i | 0 < i < |ps| ensures !Clashes(ps[i], keys, m) {
        assert ps[i] == ps[1..][i - 1];
      }
    }
  }

  lemma {:induction false} OutcomesIntended(ps: seq<Piece>, keys: set<string>, m: Substitutions)
    requires NoClash(ps, keys, m)
    ensures Outcomes(ps, keys, m) == Intended(ps, m)
    decreases |ps|
  {
    if ps != [] {
      NoClashCons(ps, keys, m);
      OutcomesIntended(ps[1..], keys, m);
    }
  }

  /** A bracket-free text holds no `[`. */
  lemma NoOpen(v: string)
    requires BracketFree(v)
    ensures multiset(v)['['] == 0
  {
    assert '[' !in v by {
      forall i | 0 <= i < |v| ensures v[i] != '[' {
        assert !IsBracket(v[i]);
      }
    }
  }

  /** One piece: its outcome holds no more `[` than promised, and fewer
      when it clashes. */
  lemma OpenCountPiece(p: Piece, keys: set<string>, m: Substitutions)
    requires Fits(m, keys)
    ensures multiset(Outcome(p, keys, m))['['] <= multiset(IntendedOutcome(p, m))['[']
    ensures Clashes(p, keys, m) ==> multiset(Outcome(p, keys, m))['['] < multiset(IntendedOutcome(p, m))['[']
  {
    if Clashes(p, keys, m) {
      NoOpen(m[p.key].value);
      assert ("[" + p.key + "]")[0] == '[';
    }
  }

  /** The actual outcomes never hold more `[` than the promised ones, and
      hold fewer as soon as an escaped placeholder clashes. */
  lemma {:induction false} OpenCount(ps: seq<Piece>, keys: set<string>, m: Substitutions)
    requires Fits(m, keys)
    ensures multiset(Outcomes(ps, keys, m))['['] <= multiset(Intended(ps, m))['[']
    ensures !NoClash(ps, keys, m) ==> multiset(Outcomes(ps, keys, m))['['] < multiset(Intended(ps, m))['[']
    decreases |ps|
  {
    if ps != [] {
      OpenCount(ps[1..], keys, m);
      OpenCountPiece(ps[0], keys, m);
      NoClashCons(ps, keys, m);
    }
  }

  /** The code keeps the doc comment's promise about escapes exactly when
      no escaped key is also the key of a placeholder with a usable value. */
  lemma InterpolateAsIntended(ps: seq<Piece>, m: Substitutions)
    requires WellFormed(ps) && Fits(m, PlaceholderKeys(ps)) && !AllWhiteSpace(Render(ps))
    ensures Interpolated(Some(Render(ps)), Some(m)) == Ok(Intended(ps, m)) <==>
      NoClash(ps, PlaceholderKeys(ps), m)
  {
    InterpolateTemplate(ps, m);
    if NoClash(ps, PlaceholderKeys(ps), m) {
      OutcomesIntended(ps, PlaceholderKeys(ps), m);
    } else {
      OpenCount(ps, PlaceholderKeys(ps), m);
    }
  }
}
