/** The behaviours the repository's own tests describe, stated for every
    text, key and value of the same shape, with some of the tests' literal
    inputs as instances. */
module Examples {
  import opened Strings
  import opened Scanner
  import opened Interpolation
  import opened Templates
  import opened TemplateScan
  import opened TemplateEscape
  import opened TemplateFill
  import opened TemplateOutcome
  import opened Sentences

  // ---------------------------------------------------------------------
  // Templates of three and five pieces
  // ---------------------------------------------------------------------

  lemma Three(a: Piece, b: Piece, c: Piece, keys: set<string>, m: Substitutions)
    ensures Render([a, b, c]) == Show(a) + Show(b) + Show(c)
    ensures PlaceholderKeys([a, b, c]) == KeysOf(a) + (KeysOf(b) + KeysOf(c))
    ensures Outcomes([a, b, c], keys, m) == Outcome(a, keys, m) + Outcome(b, keys, m) + Outcome(c, keys, m)
  {
    Cons(c, [], keys, m);
    Cons(b, [c], keys, m);
    Cons(a, [b, c], keys, m);
    assert [a] + [b, c] == [a, b, c] && [b] + [c] == [b, c] && [c] + [] == [c];
    assert Show(c) + Render([]) == Show(c) && Outcome(c, keys, m) + Outcomes([], keys, m) == Outcome(c, keys, m);
    Assoc(Show(a), Show(b), Show(c));
    Assoc(Outcome(a, keys, m), Outcome(b, keys, m), Outcome(c, keys, m));
  }

  lemma Five(a: Piece, b: Piece, c: Piece, d: Piece, e: Piece, keys: set<string>, m: Substitutions)
    ensures Render([a, b, c, d, e]) == Show(a) + Show(b) + Show(c) + Show(d) + Show(e)
    ensures PlaceholderKeys([a, b, c, d, e]) == KeysOf(a) + (KeysOf(b) + (KeysOf(c) + (KeysOf(d) + KeysOf(e))))
    ensures Outcomes([a, b, c, d, e], keys, m) ==
      Outcome(a, keys, m) + Outcome(b, keys, m) + Outcome(c, keys, m) + Outcome(d, keys, m) + Outcome(e, keys, m)
  {
    Three(c, d, e, keys, m);
    Cons(b, [c, d, e], keys, m);
    Cons(a, [b, c, d, e], keys, m);
    assert [a] + [b, c, d, e] == [a, b, c, d, e] && [b] + [c, d, e] == [b, c, d, e];
    var x, y := Show(a), Show(b);
    var z := Show(c) + Show(d) + Show(e);
    Assoc(x, y, z);
    Assoc(x + y, Show(c) + Show(d), Show(e));
    Assoc(x + y, Show(c), Show(d));
    var u, v := Outcome(a, keys, m), Outcome(b, keys, m);
    var w := Outcome(c, keys, m) + Outcome(d, keys, m) + Outcome(e, keys, m);
    Assoc(u, v, w);
    Assoc(u + v, Outcome(c, keys, m) + Outcome(d, keys, m), Outcome(e, keys, m));
    Assoc(u + v, Outcome(c, keys, m), Outcome(d, keys, m));
  }

  // ---------------------------------------------------------------------
  // One placeholder
  // ---------------------------------------------------------------------

  /** A placeholder whose key has a usable value becomes that value,
      character for character. */
  lemma OnePlaceholder(pre: string, k: string, post: string, v: string, m: Substitutions)
    requires BracketFree(pre) && BracketFree(post) && GoodKey(k)
    requires BracketFree(v) && !AllWhiteSpace(v) && k in m && m[k] == Some(v)
    ensures Interpolated(Some(pre + ("[" + k + "]") + post), Some(m)) == Ok(pre + v + post)
  {
    var ps := [Text(pre), Placeholder(k), Text(post)];
    Three(Text(pre), Placeholder(k), Text(post), {k}, m);
    assert PlaceholderKeys(ps) == {k};
    assert Expected(ps, m) == pre + v + post;
    assert Render(ps)[|pre|] == '[';
    BracketNotWhiteSpace(Render(ps), |pre|);
    assert WellFormed(ps) && Fits(m, {k});
    InterpolateTemplate(ps, m);
  }

  /** A placeholder whose key is missing, or maps to null, to the empty
      string or to white space, is left as it is. */
  lemma UnusablePlaceholder(pre: string, k: string, post: string, m: Substitutions)
    requires BracketFree(pre) && BracketFree(post) && GoodKey(k)
    requires !Usable(m, k)
    ensures Interpolated(Some(pre + ("[" + k + "]") + post), Some(m)) == Ok(pre + ("[" + k + "]") + post)
  {
    var ps := [Text(pre), Placeholder(k), Text(post)];
    Three(Text(pre), Placeholder(k), Text(post), {k}, m);
    assert PlaceholderKeys(ps) == {k};
    assert Expected(ps, m) == pre + ("[" + k + "]") + post;
    assert Render(ps)[|pre|] == '[';
    BracketNotWhiteSpace(Render(ps), |pre|);
    assert WellFormed(ps) && Fits(m, {k});
    InterpolateTemplate(ps, m);
  }

  // ---------------------------------------------------------------------
  // Two placeholders
  // ---------------------------------------------------------------------

  /** The slots of `[k1]t1[k2]t2`, one at a time. */
  lemma TwoSlots(k1: string, t1: string, k2: string, t2: string, m: Substitutions)
    ensures var slots := [Slot(k1, t1)] + [Slot(k2, t2)];
      Written(slots) == "[" + k1 + "]" + t1 + ("[" + k2 + "]" + t2) &&
      Spoken(slots, m) == Filled(m, k1) + t1 + (Filled(m, k2) + t2)
  {
    var s2 := [Slot(k2, t2)];
    WrittenCons(Slot(k2, t2), []);
    SpokenCons(Slot(k2, t2), [], m);
    assert [Slot(k2, t2)] + [] == s2;
    WrittenCons(Slot(k1, t1), s2);
    SpokenCons(Slot(k1, t1), s2, m);
  }

  /** Two placeholders, each replaced by its own key's value when it has a
      usable one and kept otherwise. */
  lemma TwoPlaceholders(t0: string, k1: string, t1: string, k2: string, t2: string, m: Substitutions)
    requires BracketFree(t0) && BracketFree(t1) && BracketFree(t2) && GoodKey(k1) && GoodKey(k2)
    requires Usable(m, k1) ==> BracketFree(m[k1].value)
    requires Usable(m, k2) ==> BracketFree(m[k2].value)
    ensures var s := t0 + ("[" + k1 + "]" + t1 + ("[" + k2 + "]" + t2));
      Interpolated(Some(s), Some(m)) == Ok(t0 + (Filled(m, k1) + t1 + (Filled(m, k2) + t2)))
  {
    var slots := [Slot(k1, t1)] + [Slot(k2, t2)];
    TwoSlots(k1, t1, k2, t2, m);
    assert slots[0] == Slot(k1, t1) && slots[1] == Slot(k2, t2) && |slots| == 2;
    assert GoodSlots(slots, m);
    Sentence(t0, slots, m);
  }

  /** The same placeholder twice: every occurrence takes the value. */
  lemma Duplicated(t0: string, k: string, t1: string, t2: string, v: string, m: Substitutions)
    requires BracketFree(t0) && BracketFree(t1) && BracketFree(t2) && GoodKey(k)
    requires BracketFree(v) && !AllWhiteSpace(v) && k in m && m[k] == Some(v)
    ensures var s := t0 + ("[" + k + "]") + t1 + ("[" + k + "]") + t2;
      Interpolated(Some(s), Some(m)) == Ok(t0 + v + t1 + v + t2)
  {
    var a, b := Placeholder(k), Text(t1);
    var ps := [Text(t0), a, b, a, Text(t2)];
    Five(Text(t0), a, b, a, Text(t2), {k}, m);
    assert PlaceholderKeys(ps) == {k};
    assert Outcome(a, {k}, m) == v;
    assert Expected(ps, m) == t0 + v + t1 + v + t2;
    assert Render(ps)[|t0|] == '[';
    BracketNotWhiteSpace(Render(ps), |t0|);
    assert WellFormed(ps) && Fits(m, {k});
    InterpolateTemplate(ps, m);
  }

  /** An escaped placeholder `[[e]]` next to a placeholder `[k]` of another
      key loses one pair of brackets and is not substituted, whatever value
      `e` has. */
  lemma EscapedKept(t0: string, k: string, t1: string, e: string, t2: string, m: Substitutions)
    requires BracketFree(t0) && BracketFree(t1) && BracketFree(t2) && GoodKey(k) && GoodKey(e) && k != e
    requires Usable(m, k) ==> BracketFree(m[k].value)
    ensures var s := t0 + ("[" + k + "]") + t1 + ("[[" + e + "]]") + t2;
      Interpolated(Some(s), Some(m)) == Ok(t0 + Filled(m, k) + t1 + ("[" + e + "]") + t2)
  {
    var a, b, d := Placeholder(k), Text(t1), Escaped(e);
    var ps := [Text(t0), a, b, d, Text(t2)];
    Five(Text(t0), a, b, d, Text(t2), {k}, m);
    assert PlaceholderKeys(ps) == {k};
    assert Outcome(a, {k}, m) == Filled(m, k) && Outcome(d, {k}, m) == "[" + e + "]";
    assert Expected(ps, m) == t0 + Filled(m, k) + t1 + ("[" + e + "]") + t2;
    assert Render(ps)[|t0|] == '[';
    BracketNotWhiteSpace(Render(ps), |t0|);
    assert WellFormed(ps) && Fits(m, {k});
    InterpolateTemplate(ps, m);
  }

  /** An escaped placeholder `[[k]]` whose key is also the key of a
      placeholder `[k]` of the same input DOES take the value: the token
      `[k]` found in the input occurs in the escaped working copy twice. */
  lemma EscapedAlsoPlaceholder(t0: string, k: string, t1: string, t2: string, v: string, m: Substitutions)
    requires BracketFree(t0) && BracketFree(t1) && BracketFree(t2) && GoodKey(k)
    requires BracketFree(v) && !AllWhiteSpace(v) && k in m && m[k] == Some(v)
    ensures var s := t0 + ("[[" + k + "]]") + t1 + ("[" + k + "]") + t2;
      Interpolated(Some(s), Some(m)) == Ok(t0 + v + t1 + v + t2)
  {
    var a, b, d := Escaped(k), Text(t1), Placeholder(k);
    var ps := [Text(t0), a, b, d, Text(t2)];
    Five(Text(t0), a, b, d, Text(t2), {k}, m);
    assert PlaceholderKeys(ps) == {k};
    assert Outcome(a, {k}, m) == v && Outcome(d, {k}, m) == v;
    assert Expected(ps, m) == t0 + v + t1 + v + t2;
    assert Render(ps)[|t0|] == '[';
    BracketNotWhiteSpace(Render(ps), |t0|);
    assert WellFormed(ps) && Fits(m, {k});
    InterpolateTemplate(ps, m);
  }

  // ---------------------------------------------------------------------
  // Three and four placeholders
  // ---------------------------------------------------------------------

  /** The slots of `[k1]t1[k2]t2[k3]t3`, one at a time. */
  lemma ThreeSlots(k1: string, t1: string, k2: string, t2: string, k3: string, t3: string, m: Substitutions)
    ensures var slots := [Slot(k1, t1)] + ([Slot(k2, t2)] + [Slot(k3, t3)]);
      Written(slots) == "[" + k1 + "]" + t1 + ("[" + k2 + "]" + t2 + ("[" + k3 + "]" + t3)) &&
      Spoken(slots, m) == Filled(m, k1) + t1 + (Filled(m, k2) + t2 + (Filled(m, k3) + t3))
  {
    var s3 := [Slot(k3, t3)];
    WrittenCons(Slot(k3, t3), []);
    SpokenCons(Slot(k3, t3), [], m);
    assert [Slot(k3, t3)] + [] == s3;
    WrittenCons(Slot(k2, t2), s3);
    SpokenCons(Slot(k2, t2), s3, m);
    WrittenCons(Slot(k1, t1), [Slot(k2, t2)] + s3);
    SpokenCons(Slot(k1, t1), [Slot(k2, t2)] + s3, m);
  }

  /** Three placeholders, some filled and one kept: the missing key's
      placeholder stays with its brackets while the others are filled. */
  lemma MissingAmongFilled(t0: string, k1: string, t1: string, k2: string, t2: string, k3: string, t3: string, m: Substitutions)
    requires BracketFree(t0) && BracketFree(t1) && BracketFree(t2) && BracketFree(t3)
    requires GoodKey(k1) && GoodKey(k2) && GoodKey(k3)
    requires Usable(m, k1) && BracketFree(m[k1].value) && Usable(m, k2) && BracketFree(m[k2].value)
    requires !Usable(m, k3)
    ensures var s := t0 + ("[" + k1 + "]" + t1 + ("[" + k2 + "]" + t2 + ("[" + k3 + "]" + t3)));
      Interpolated(Some(s), Some(m)) == Ok(t0 + (m[k1].value + t1 + (m[k2].value + t2 + ("[" + k3 + "]" + t3))))
  {
    var slots := [Slot(k1, t1)] + ([Slot(k2, t2)] + [Slot(k3, t3)]);
    ThreeSlots(k1, t1, k2, t2, k3, t3, m);
    assert slots[0] == Slot(k1, t1) && slots[1] == Slot(k2, t2) && slots[2] == Slot(k3, t3) && |slots| == 3;
    assert GoodSlots(slots, m);
    Sentence(t0, slots, m);
  }

  /** The slots of `[k1]t1[k2]t2[k3]t3[k4]t4`, one at a time. */
  lemma FourSlots(k1: string, t1: string, k2: string, t2: string, k3: string, t3: string, k4: string, t4: string, m: Substitutions)
    ensures var slots := [Slot(k1, t1)] + ([Slot(k2, t2)] + ([Slot(k3, t3)] + [Slot(k4, t4)]));
      Written(slots) == "[" + k1 + "]" + t1 + ("[" + k2 + "]" + t2 + ("[" + k3 + "]" + t3 + ("[" + k4 + "]" + t4))) &&
      Spoken(slots, m) == Filled(m, k1) + t1 + (Filled(m, k2) + t2 + (Filled(m, k3) + t3 + (Filled(m, k4) + t4)))
  {
    var tail := [Slot(k2, t2)] + ([Slot(k3, t3)] + [Slot(k4, t4)]);
    ThreeSlots(k2, t2, k3, t3, k4, t4, m);
    WrittenCons(Slot(k1, t1), tail);
    SpokenCons(Slot(k1, t1), tail, m);
  }

  /** Four placeholders, each filled with its key's usable value or kept. */
  lemma FourPlaceholders(t0: string, k1: string, t1: string, k2: string, t2: string,
                         k3: string, t3: string, k4: string, t4: string, m: Substitutions)
    requires BracketFree(t0) && BracketFree(t1) && BracketFree(t2) && BracketFree(t3) && BracketFree(t4)
    requires GoodKey(k1) && GoodKey(k2) && GoodKey(k3) && GoodKey(k4)
    requires forall k :: k in {k1, k2, k3, k4} && Usable(m, k) ==> BracketFree(m[k].value)
    ensures var s := t0 + ("[" + k1 + "]" + t1 + ("[" + k2 + "]" + t2 + ("[" + k3 + "]" + t3 + ("[" + k4 + "]" + t4))));
      Interpolated(Some(s), Some(m)) ==
        Ok(t0 + (Filled(m, k1) + t1 + (Filled(m, k2) + t2 + (Filled(m, k3) + t3 + (Filled(m, k4) + t4)))))
  {
    var slots := [Slot(k1, t1)] + ([Slot(k2, t2)] + ([Slot(k3, t3)] + [Slot(k4, t4)]));
    FourSlots(k1, t1, k2, t2, k3, t3, k4, t4, m);
    assert slots[0] == Slot(k1, t1) && slots[1] == Slot(k2, t2) && slots[2] == Slot(k3, t3) && slots[3] == Slot(k4, t4);
    assert GoodSlots(slots, m);
    Sentence(t0, slots, m);
  }

  /** Two keys, each used twice: every occurrence takes its own key's value. */
  lemma TwoKeysTwice(t0: string, a: string, t1: string, b: string, t2: string, t3: string, t4: string,
                     va: string, vb: string, m: Substitutions)
    requires BracketFree(t0) && BracketFree(t1) && BracketFree(t2) && BracketFree(t3) && BracketFree(t4)
    requires GoodKey(a) && GoodKey(b) && a != b
    requires BracketFree(va) && !AllWhiteSpace(va) && BracketFree(vb) && !AllWhiteSpace(vb)
    requires a in m && m[a] == Some(va) && b in m && m[b] == Some(vb)
    ensures var s := t0 + ("[" + a + "]" + t1 + ("[" + b + "]" + t2 + ("[" + a + "]" + t3 + ("[" + b + "]" + t4))));
      Interpolated(Some(s), Some(m)) == Ok(t0 + (va + t1 + (vb + t2 + (va + t3 + (vb + t4)))))
  {
    assert Filled(m, a) == va && Filled(m, b) == vb;
    FourPlaceholders(t0, a, t1, b, t2, a, t3, b, t4, m);
  }

  // ---------------------------------------------------------------------
  // Literal cases
  // ---------------------------------------------------------------------

  /** The literal inputs and outputs below, as the concatenations the
      general lemmas speak of. */
  lemma Texts()
    ensures "Hello " + ("[" + "name" + "]") + "" == "Hello [name]"
    ensures "Hello " + "Jim" + "" == "Hello Jim"
    ensures "Hello " + "标记" + "" == "Hello 标记"
    ensures "The speical character is " + ("[" + "character" + "]") + "" == "The speical character is [character]"
    ensures "" + ("[[" + "name" + "]]") + " " + ("[" + "name" + "]") + "" == "[[name]] [name]"
    ensures "" + "Jim" + " " + "Jim" + "" == "Jim Jim"
  { }

  lemma HelloJim()
    ensures Interpolated(Some("Hello [name]"), Some(map["name" := Some("Jim")])) == Ok("Hello Jim")
  {
    Texts();
    assert !IsWhiteSpace("Jim"[0]);
    OnePlaceholder("Hello ", "name", "", "Jim", map["name" := Some("Jim")]);
  }

  lemma HelloNonEnglish()
    ensures Interpolated(Some("Hello [name]"), Some(map["name" := Some("标记")])) == Ok("Hello 标记")
  {
    Texts();
    assert !IsWhiteSpace("标记"[0]);
    OnePlaceholder("Hello ", "name", "", "标记", map["name" := Some("标记")]);
  }

  /** Any single character other than a bracket or white space is inserted
      as it is. */
  lemma SpecialCharacter(c: char)
    requires !IsBracket(c) && !IsWhiteSpace(c)
    ensures Interpolated(Some("The speical character is [character]"), Some(map["character" := Some([c])]))
      == Ok("The speical character is " + [c])
  {
    Texts();
    assert [c][0] == c;
    OnePlaceholder("The speical character is ", "character", "", [c], map["character" := Some([c])]);
  }

  lemma HelloUnusable(v: Option<string>)
    requires IsNullOrWhiteSpace(v)
    ensures Interpolated(Some("Hello [name]"), Some(map["name" := v])) == Ok("Hello [name]")
  {
    Texts();
    UnusablePlaceholder("Hello ", "name", "", map["name" := v]);
  }

  lemma HelloEmptyKey()
    ensures Interpolated(Some("Hello [name]"), Some(map["" := Some("Jane")])) == Ok("Hello [name]")
  {
    Texts();
    UnusablePlaceholder("Hello ", "name", "", map["" := Some("Jane")]);
  }

  lemma DoubledNamePlaceholder()
    ensures Interpolated(Some("[[name]] [name]"), Some(map["name" := Some("Jim")])) == Ok("Jim Jim")
  {
    Texts();
    assert !IsWhiteSpace("Jim"[0]);
    EscapedAlsoPlaceholder("", "name", " ", "", "Jim", map["name" := Some("Jim")]);
  }

  // ---------------------------------------------------------------------
  // Inputs outside the templates above
  // ---------------------------------------------------------------------

  /** `[][]` is one token (the lazy `.+?` takes the first `]` and then the
      `[`), and its key, every bracket trimmed, is the empty string: an
      entry keyed by the empty string replaces it. */
  lemma EmptyKeyToken(m: Substitutions)
    requires Usable(m, "")
    ensures Interpolated(Some("[][]"), Some(m)) == Ok(m[""].value)
  {
    var s := "[][]";
    EmptyKeyScan();
    EmptyKeyEscape();
    EmptyKeyStep(s, m);
    BracketNotWhiteSpace(s, 0);
  }

  /** The one match of `[][]` replaces the whole text with the value of `""`. */
  lemma EmptyKeyStep(s: string, m: Substitutions)
    requires s == "[][]" && Usable(m, "")
    ensures Substitute(s, [Match(0, s)], m) == m[""].value
  {
    var v, x := m[""].value, Match(0, s);
    EmptyKeyTrim();
    ReplaceAllMatch(s, s, v);
    ReplaceAllShort([], s, v);
    assert s[|s|..] == [] && v + [] == v;
    assert Step(s, s, m) == v;
    assert [x][1..] == [];
  }

  lemma EmptyKeyScan()
    ensures Matches("[][]") == [Match(0, "[][]")]
  {
    var s := "[][]";
    assert CloseFrom(s, 3) == Some(4);
    assert MatchEnd(s, 0) == Some(4);
    assert s[0..4] == s;
  }

  lemma EmptyKeyEscape()
    ensures Escape("[][]") == "[][]"
  {
    var s := "[][]";
    forall i: nat ensures !OccursAt(s, "[[", i) && !OccursAt(s, "]]", i) {
      if i + 2 <= |s| {
        assert s[i..i + 2][0] == s[i] && s[i..i + 2][1] == s[i + 1];
      }
    }
    EscapeAbsent(s);
  }

  lemma EmptyKeyTrim()
    ensures TrimBrackets("[][]") == []
  {
    var s := "[][]";
    assert forall i :: 0 <= i < |s| ==> IsBracket(s[i]);
    assert TrimStart(s) == [];
  }

  /** Two pieces, seen by each function on templates. */
  lemma Two(p: Piece, q: Piece, at: nat, keys: set<string>, m: Substitutions)
    ensures Render([p, q]) == Show(p) + Show(q)
    ensures TokenMatches([p, q], at) == PieceMatches(p, at) + PieceMatches(q, at + |Show(p)|)
    ensures Unescaped([p, q]) == [Unescape(p), Unescape(q)]
    ensures FillAll([p, q], keys, m) == [FillPiece(p, keys, m), FillPiece(q, keys, m)]
  {
    RenderTwo(p, q);
    TokensTwo(p, q, at);
    assert [p, q][1..] == [q] && [q][1..] == [];
  }

  lemma RenderTwo(p: Piece, q: Piece)
    ensures Render([p, q]) == Show(p) + Show(q)
  {
    assert [p, q][1..] == [q] && [q][1..] == [];
    assert Show(q) + Render([]) == Show(q);
  }

  lemma TokensTwo(p: Piece, q: Piece, at: nat)
    ensures TokenMatches([p, q], at) == PieceMatches(p, at) + PieceMatches(q, at + |Show(p)|)
  {
    var j := at + |Show(p)|;
    assert [p, q][1..] == [q] && [q][1..] == [];
    assert TokenMatches([q], j) == PieceMatches(q, j) + TokenMatches([], j + |Show(q)|);
    assert PieceMatches(q, j) + [] == PieceMatches(q, j);
  }

  /** A value holding a token is substituted again by a later match: in
      `[a][b]`, with `a` mapped to `[b]` and `b` to `v`, the first step
      turns the text into `[b][b]` and the second into `v` twice. */
  lemma ValueRescanned(a: string, b: string, v: string, m: Substitutions)
    requires GoodKey(a) && GoodKey(b) && a != b && BracketFree(v)
    requires a in m && m[a] == Some("[" + b + "]") && Usable(m, b) && m[b] == Some(v)
    ensures Interpolated(Some(("[" + a + "]") + ("[" + b + "]")), Some(m)) == Ok(v + v)
  {
    var ta, tb := "[" + a + "]", "[" + b + "]";
    var s := ta + tb;
    RescanScan(a, b);
    RescanSteps(a, b, v, m);
    BracketNotWhiteSpace(s, 0);
  }

  /** The two steps of the loop on `[a][b]`. */
  lemma RescanSteps(a: string, b: string, v: string, m: Substitutions)
    requires GoodKey(a) && GoodKey(b) && a != b && BracketFree(v)
    requires a in m && m[a] == Some("[" + b + "]") && Usable(m, b) && m[b] == Some(v)
    ensures var ta, tb := "[" + a + "]", "[" + b + "]";
      Substitute(ta + tb, [Match(0, ta), Match(|ta|, tb)], m) == v + v
  {
    var ta, tb := "[" + a + "]", "[" + b + "]";
    RescanKeys(a, b);
    assert Usable(m, a) by {
      BracketNotWhiteSpace(tb, 0);
    }
    RescanFirst(a, b);
    StepIs(ta + tb, ta, m, a, tb, tb + tb);
    RescanSecond(b, v);
    StepIs(tb + tb, tb, m, b, v, v + v);
    SubstituteTwo(ta + tb, Match(0, ta), Match(|ta|, tb), m);
  }

  /** One step whose key, value and replacement are known. */
  lemma StepIs(w: string, token: string, m: Substitutions, key: string, value: string, out: string)
    requires token != [] && TrimBrackets(token) == key && Usable(m, key) && m[key].value == value
    requires ReplaceAll(w, token, value) == out
    ensures Step(w, token, m) == out
  { }

  lemma RescanScan(a: string, b: string)
    requires GoodKey(a) && GoodKey(b)
    ensures var ta, tb := "[" + a + "]", "[" + b + "]";
      Matches(ta + tb) == [Match(0, ta), Match(|ta|, tb)] && Escape(ta + tb) == ta + tb
  {
    var pa, pb := Placeholder(a), Placeholder(b);
    var ps := [pa, pb];
    Two(pa, pb, 0, {}, map[]);
    assert WellFormed(ps);
    ScanRender(ps);
    EscapeRender(ps);
  }

  lemma RescanKeys(a: string, b: string)
    requires GoodKey(a) && GoodKey(b)
    ensures TrimBrackets("[" + a + "]") == a && TrimBrackets("[" + b + "]") == b
  {
    TokenKey(Placeholder(a));
    TokenKey(Placeholder(b));
  }

  /** `[a][b]` with `[a]` replaced by `[b]`. */
  lemma RescanFirst(a: string, b: string)
    requires GoodKey(a) && GoodKey(b) && a != b
    ensures var ta, tb := "[" + a + "]", "[" + b + "]";
      ReplaceAll(ta + tb, ta, tb) == tb + tb
  {
    var m := map[a := Some("[" + b + "]")];
    var pa, pb := Placeholder(a), Placeholder(b);
    Two(pa, pb, 0, {a}, m);
    assert !IsWhiteSpace(m[a].value[0]);
    assert WellFormed([pa, pb]) && Plain([pa, pb]);
    ReplaceKey([pa, pb], a, m);
    RenderTwo(Text("[" + b + "]"), pb);
  }

  /** `[b][b]` with `[b]` replaced by `v`. */
  lemma RescanSecond(b: string, v: string)
    requires GoodKey(b) && !AllWhiteSpace(v)
    ensures var tb := "[" + b + "]";
      ReplaceAll(tb + tb, tb, v) == v + v
  {
    var m := map[b := Some(v)];
    var pb := Placeholder(b);
    Two(pb, pb, 0, {b}, m);
    assert WellFormed([pb, pb]) && Plain([pb, pb]);
    ReplaceKey([pb, pb], b, m);
    RenderTwo(Text(v), Text(v));
  }

  /** The loop over two matches. */
  lemma SubstituteTwo(w: string, x: Match, y: Match, m: Substitutions)
    requires x.value != [] && y.value != []
    ensures Substitute(w, [x, y], m) == Step(Step(w, x.value, m), y.value, m)
  {
    var w1 := Step(w, x.value, m);
    assert [x, y][1..] == [y] && [y][1..] == [];
    assert Substitute(w1, [y], m) == Substitute(Step(w1, y.value, m), [], m);
  }
}
