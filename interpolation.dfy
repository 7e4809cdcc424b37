/** `Interpolation.Interpolate(input, substitutions)`: checks its arguments,
    collapses the escapes `[[` and `]]` in a working copy, scans the ORIGINAL
    input for placeholder tokens and, for each token whose key has a usable
    value, replaces every occurrence of the token's text in the working copy. */
module Interpolation {
  import opened Strings
  import opened Scanner

  /** The substitutions dictionary; a `None` value is a `null` entry. */
  type Substitutions = map<string, Option<string>>

  /** The returned string, or the exception the method throws. */
  datatype Result = InvalidInput | NullMapping | Ok(value: string)

  /** `substitutions.TryGetValue(key, out v) && !string.IsNullOrWhiteSpace(v)`. */
  predicate Usable(m: Substitutions, key: string): (r: bool)
    ensures r ==> key in m && m[key].Some? && m[key].value != []
  {
    key in m && !IsNullOrWhiteSpace(m[key])
  }

  /** `new StringBuilder(input).Replace("[[", "[").Replace("]]", "]")`. */
  function Escape(s: string): (r: string)
    ensures |r| <= |s|
  {
    ReplaceAll(ReplaceAll(s, "[[", "["), "]]", "]")
  }

  /** The body of the loop for one match: replace every occurrence of the
      token text in the working copy, if its key has a usable value. */
  function Step(w: string, token: string, m: Substitutions): string
    requires token != []
  {
    var key := TrimBrackets(token);
    if Usable(m, key) then ReplaceAll(w, token, m[key].value) else w
  }

  /** Every match has a non-empty text, as every match of the pattern does. */
  predicate NonEmpty(matches: seq<Match>)
  {
    forall k :: 0 <= k < |matches| ==> matches[k].value != []
  }

  /** The loop over the matches, in order. */
  function Substitute(w: string, matches: seq<Match>, m: Substitutions): string
    requires NonEmpty(matches)
    decreases |matches|
  {
    if matches == [] then w else Substitute(Step(w, matches[0].value, m), matches[1..], m)
  }

  /** What `Interpolate` returns or throws. */
  function Interpolated(input: Option<string>, substitutions: Option<Substitutions>): (r: Result)
    ensures r.Ok? <==> !IsNullOrWhiteSpace(input) && substitutions.Some?
  {
    if IsNullOrWhiteSpace(input) then InvalidInput
    else if substitutions.None? then NullMapping
    else Ok(Substitute(Escape(input.value), Matches(input.value), substitutions.value))
  }

  /** The method itself, with the working copy updated in place the way the
      `StringBuilder` is. Both argument errors are raised before any work. */
  method Interpolate(input: Option<string>, substitutions: Option<Substitutions>) returns (r: Result)
    ensures r == InvalidInput <==> IsNullOrWhiteSpace(input)
    ensures r == NullMapping <==> !IsNullOrWhiteSpace(input) && substitutions.None?
    ensures r == Interpolated(input, substitutions)
  {
    if IsNullOrWhiteSpace(input) {
      return InvalidInput;
    }
    if substitutions.None? {
      return NullMapping;
    }
    var s, m := input.value, substitutions.value;
    var builder := ReplaceAll(s, "[[", "[");
    builder := ReplaceAll(builder, "]]", "]");
    var matches := Matches(s);
    ghost var goal := Substitute(builder, matches, m);
    var i := 0;
    assert matches[0..] == matches;
    while i < |matches|
      invariant 0 <= i <= |matches|
      invariant Substitute(builder, matches[i..], m) == goal
    {
      // The pattern has no capture group, so `match.Groups` holds only the
      // whole match: the inner loop of the source runs once per match.
      var value := matches[i].value;
      var key := TrimBrackets(value);
      if key in m && !IsNullOrWhiteSpace(m[key]) {
        builder := ReplaceAll(builder, value, m[key].value);
      }
      i := i + 1;
    }
    assert matches[i..] == [];
    return Ok(builder);
  }

  // ---------------------------------------------------------------------
  // Properties
  // ---------------------------------------------------------------------

  /** The step for `token` cannot change any working copy: its key has no
      usable value, or the value is the token's own text. */
  predicate Fixed(m: Substitutions, token: string)
  {
    !Usable(m, TrimBrackets(token)) || m[TrimBrackets(token)].value == token
  }

  /** One step leaves the working copy as it is when the step is fixed or
      when the token does not occur in the copy. */
  lemma StepFixed(w: string, token: string, m: Substitutions)
    requires token != []
    requires Fixed(m, token) || !Occurs(w, token)
    ensures Step(w, token, m) == w
  {
    var key := TrimBrackets(token);
    if Usable(m, key) {
      if m[key].value == token {
        ReplaceAllIdentity(w, token);
      } else {
        ReplaceAllAbsent(w, token, m[key].value);
      }
    }
  }

  /** Matches whose steps are all fixed leave the working copy alone. */
  lemma {:induction false} SubstituteInert(w: string, matches: seq<Match>, m: Substitutions)
    requires NonEmpty(matches)
    requires forall k :: 0 <= k < |matches| ==> Fixed(m, matches[k].value)
    ensures Substitute(w, matches, m) == w
    decreases |matches|
  {
    if matches != [] {
      StepFixed(w, matches[0].value, m);
      SubstituteInert(w, matches[1..], m);
    }
  }

  /** An empty (but present) dictionary is accepted, and only the escapes
      are collapsed. */
  lemma EmptyMappingOnlyEscapes(s: string)
    requires !AllWhiteSpace(s)
    ensures Interpolated(Some(s), Some(map[])) == Ok(Escape(s))
  {
    SubstituteInert(Escape(s), Matches(s), map[]);
  }

  /** A valid input without escapes comes back exactly as it was when each
      of its tokens has no usable value or is mapped to its own text. */
  lemma UntouchedInput(s: string, m: Substitutions)
    requires !AllWhiteSpace(s)
    requires !Occurs(s, "[[") && !Occurs(s, "]]")
    requires forall k :: 0 <= k < |Matches(s)| ==> Fixed(m, Matches(s)[k].value)
    ensures Interpolated(Some(s), Some(m)) == Ok(s)
  {
    EscapeAbsent(s);
    SubstituteInert(s, Matches(s), m);
  }

  /** With `[[` or `]]` in the text the escape pass shortens it. */
  lemma EscapeShrinks(s: string)
    requires Occurs(s, "[[") || Occurs(s, "]]")
    ensures |Escape(s)| < |s|
  {
    var u := ReplaceAll(s, "[[", "[");
    if Occurs(s, "[[") {
      var i: nat :| OccursAt(s, "[[", i);
      ReplaceAllShrinks(s, "[[", "[", i);
    } else {
      ReplaceAllAbsent(s, "[[", "[");
      var i: nat :| OccursAt(s, "]]", i);
      ReplaceAllShrinks(u, "]]", "]", i);
    }
  }

  /** When no token changes the working copy, the output is the escaped
      copy; so an input that holds `[[` or `]]` then never comes back as it
      was: the output is shorter. */
  lemma EscapesChangeInput(s: string, m: Substitutions)
    requires !AllWhiteSpace(s)
    requires Occurs(s, "[[") || Occurs(s, "]]")
    requires forall k :: 0 <= k < |Matches(s)| ==> Fixed(m, Matches(s)[k].value)
    ensures Interpolated(Some(s), Some(m)) == Ok(Escape(s))
    ensures |Escape(s)| < |s|
  {
    SubstituteInert(Escape(s), Matches(s), m);
    EscapeShrinks(s);
  }

  /** Without `[[` or `]]` the escape pass leaves the text as it is. */
  lemma EscapeAbsent(s: string)
    requires !Occurs(s, "[[") && !Occurs(s, "]]")
    ensures Escape(s) == s
  {
    ReplaceAllAbsent(s, "[[", "[");
    ReplaceAllAbsent(s, "]]", "]");
  }

  /** Without a placeholder token and without escapes, whatever the
      dictionary holds, the output is the input. */
  lemma NoPlaceholderUntouched(s: string, m: Substitutions)
    requires !AllWhiteSpace(s)
    requires !Occurs(s, "[[") && !Occurs(s, "]]")
    requires forall i, e :: 0 <= i <= e <= |s| ==> !TokenShape(s[i..e])
    ensures Interpolated(Some(s), Some(m)) == Ok(s)
  {
    NoMatches(s);
    UntouchedInput(s, m);
  }

  lemma NoMatches(s: string)
    requires forall i, e :: 0 <= i <= e <= |s| ==> !TokenShape(s[i..e])
    ensures Matches(s) == []
  {
    if Matches(s) != [] {
      FirstMatchIsToken(s);
      assert false;
    }
  }

  lemma FirstMatchIsToken(s: string)
    requires Matches(s) != []
    ensures var m := Matches(s)[0]; m.End() <= |s| && TokenShape(s[m.index..m.End()])
  {
    ScanSound(s, 0);
  }

  /** Two dictionaries that agree on the usable value of every token key
      give the same substitutions. */
  lemma {:induction false} SubstituteAgree(w: string, matches: seq<Match>, m1: Substitutions, m2: Substitutions)
    requires NonEmpty(matches)
    requires forall k :: 0 <= k < |matches| ==> Agree(m1, m2, TrimBrackets(matches[k].value))
    ensures Substitute(w, matches, m1) == Substitute(w, matches, m2)
    decreases |matches|
  {
    if matches != [] {
      SubstituteAgree(Step(w, matches[0].value, m1), matches[1..], m1, m2);
    }
  }

  /** Two dictionaries give `key` the same usable value, or none. */
  predicate Agree(m1: Substitutions, m2: Substitutions, key: string)
  {
    Usable(m1, key) == Usable(m2, key) && (Usable(m1, key) ==> m1[key] == m2[key])
  }

  /** An entry is inert, exactly as if it were missing, when its value is
      null, empty or white space, or when its key is not the key of any
      token of the input. */
  lemma EntryInert(input: Option<string>, m: Substitutions, key: string)
    requires !Usable(m, key) ||
      (input.Some? && forall k :: 0 <= k < |Matches(input.value)| ==> TrimBrackets(Matches(input.value)[k].value) != key)
    ensures Interpolated(input, Some(m)) == Interpolated(input, Some(m - {key}))
  {
    if !IsNullOrWhiteSpace(input) {
      var s := input.value;
      var matches := Matches(s);
      forall k | 0 <= k < |matches| ensures Agree(m, m - {key}, TrimBrackets(matches[k].value)) {
        var k' := TrimBrackets(matches[k].value);
        if k' != key {
          assert k' in m <==> k' in m - {key};
        }
      }
      SubstituteAgree(Escape(s), matches, m, m - {key});
    }
  }
}
