/** Inputs of the shape most of the repository's tests use: a text, then
    any number of placeholders, each followed by a text. */
module Sentences {
  import opened Strings
  import opened Interpolation
  import opened Templates
  import opened TemplateOutcome

  /** A placeholder's key and the text after it. */
  datatype Slot = Slot(key: string, after: string)

  /** The characters `[k1]t1[k2]t2…` of the slots. */
  function Written(slots: seq<Slot>): string
    decreases |slots|
  {
    if slots == [] then [] else "[" + slots[0].key + "]" + slots[0].after + Written(slots[1..])
  }

  /** The slots with every placeholder filled or kept. */
  function Spoken(slots: seq<Slot>, m: Substitutions): string
    decreases |slots|
  {
    if slots == [] then [] else Filled(m, slots[0].key) + slots[0].after + Spoken(slots[1..], m)
  }

  /** The slots as template pieces. */
  function Pieces(slots: seq<Slot>): seq<Piece>
    decreases |slots|
  {
    if slots == [] then [] else [Placeholder(slots[0].key), Text(slots[0].after)] + Pieces(slots[1..])
  }

  /** Every key is good, and every text and every usable value of a key is
      bracket-free. */
  predicate GoodSlots(slots: seq<Slot>, m: Substitutions)
  {
    forall i :: 0 <= i < |slots| ==> GoodSlot(slots[i], m)
  }

  predicate GoodSlot(s: Slot, m: Substitutions)
  {
    GoodKey(s.key) && BracketFree(s.after) && (Usable(m, s.key) ==> BracketFree(m[s.key].value))
  }

  lemma WrittenCons(s: Slot, slots: seq<Slot>)
    ensures Written([s] + slots) == "[" + s.key + "]" + s.after + Written(slots)
  {
    assert ([s] + slots)[1..] == slots;
  }

  lemma SpokenCons(s: Slot, slots: seq<Slot>, m: Substitutions)
    ensures Spoken([s] + slots, m) == Filled(m, s.key) + s.after + Spoken(slots, m)
  {
    assert ([s] + slots)[1..] == slots;
  }

  /** The two pieces of one slot in front of the others. */
  lemma PiecesCons(slots: seq<Slot>, keys: set<string>, m: Substitutions)
    requires slots != []
    ensures Render(Pieces(slots)) == "[" + slots[0].key + "]" + slots[0].after + Render(Pieces(slots[1..]))
    ensures PlaceholderKeys(Pieces(slots)) == {slots[0].key} + PlaceholderKeys(Pieces(slots[1..]))
    ensures Outcomes(Pieces(slots), keys, m) ==
      Filled(m, slots[0].key) + slots[0].after + Outcomes(Pieces(slots[1..]), keys, m)
  {
    var p, t, rest := Placeholder(slots[0].key), Text(slots[0].after), Pieces(slots[1..]);
    assert Pieces(slots) == [p] + ([t] + rest);
    Cons(t, rest, keys, m);
    Cons(p, [t] + rest, keys, m);
    Assoc(Show(p), Show(t), Render(rest));
    Assoc(Outcome(p, keys, m), Outcome(t, keys, m), Outcomes(rest, keys, m));
  }

  lemma {:induction false} PiecesFacts(slots: seq<Slot>, keys: set<string>, m: Substitutions)
    requires GoodSlots(slots, m)
    ensures Render(Pieces(slots)) == Written(slots)
    ensures Outcomes(Pieces(slots), keys, m) == Spoken(slots, m)
    ensures WellFormed(Pieces(slots)) && Fits(m, PlaceholderKeys(Pieces(slots)))
    decreases |slots|
  {
    if slots != [] {
      assert GoodSlot(slots[0], m);
      assert GoodSlots(slots[1..], m) by {
        forall i | 0 <= i < |slots| - 1 ensures GoodSlot(slots[1..][i], m) {
          assert slots[1..][i] == slots[i + 1];
        }
      }
      PiecesFacts(slots[1..], keys, m);
      PiecesCons(slots, keys, m);
      var rest := Pieces(slots[1..]);
      assert Pieces(slots) == [Placeholder(slots[0].key), Text(slots[0].after)] + rest;
      forall i | 0 <= i < |Pieces(slots)| ensures GoodPiece(Pieces(slots)[i]) {
        if i >= 2 {
          assert Pieces(slots)[i] == rest[i - 2];
        }
      }
    }
  }

  /** A text followed by placeholders and texts: every placeholder takes its
      key's usable value or stays as it is, however often keys repeat and
      whichever keys the dictionary has. */
  lemma Sentence(t0: string, slots: seq<Slot>, m: Substitutions)
    requires BracketFree(t0) && GoodSlots(slots, m)
    ensures Interpolated(Some(t0 + Written(slots)), Some(m)) ==
      if slots == [] && AllWhiteSpace(t0) then InvalidInput else Ok(t0 + Spoken(slots, m))
  {
    var ps := [Text(t0)] + Pieces(slots);
    var keys := PlaceholderKeys(ps);
    PiecesFacts(slots, keys, m);
    Cons(Text(t0), Pieces(slots), keys, m);
    forall i | 0 <= i < |ps| ensures GoodPiece(ps[i]) {
      if i > 0 {
        assert ps[i] == Pieces(slots)[i - 1];
      }
    }
    if slots != [] {
      assert Written(slots)[0] == '[';
      assert Render(ps)[|t0|] == '[';
      BracketNotWhiteSpace(Render(ps), |t0|);
    } else {
      assert Render(ps) == t0;
    }
    InterpolateTemplate(ps, m);
  }
}
