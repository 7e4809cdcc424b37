/** The placeholder scan `regex.Matches(input)` for the pattern `\[.+?\]`:
    a `[`, then the lazy `.+?` (at least one character, never a line feed),
    then the first `]` that may end it. Matches are found left to right and
    do not overlap; after a match the scan resumes at its end. */
module Scanner {
  import opened Strings

  /** One element of the match collection: `Match.Index` and `Match.Value`. */
  datatype Match = Match(index: nat, value: string)
  {
    /** The position just after the match. */
    function End(): nat
    {
      index + |value|
    }
  }

  /** The texts the pattern can match: `[`, one or more characters other
      than a line feed, and `]`, where no `]` follows the first of those
      characters before the closing one (the lazy quantifier gives up at
      the first `]` it reaches; the first character itself may be a `]`). */
  predicate TokenShape(v: string)
  {
    |v| >= 3 && v[0] == '[' && v[|v| - 1] == ']' &&
    (forall j :: 0 < j < |v| - 1 ==> v[j] != '\n') &&
    (forall j :: 1 < j < |v| - 1 ==> v[j] != ']')
  }

  /** `m` is a match of the pattern within `s`, at its recorded index. */
  predicate IsMatchIn(s: string, m: Match)
  {
    m.End() <= |s| && s[m.index..m.End()] == m.value && TokenShape(m.value)
  }

  /** The lazy `.+?` has already taken s[i+1..j]; try `]` at `j`, otherwise
      take one more character. Gives the end of the match, if any. */
  function CloseFrom(s: string, j: nat): (r: Option<nat>)
    ensures r.Some? ==> j < r.value <= |s|
    decreases |s| - j
  {
    if j >= |s| then None
    else if s[j] == ']' then Some(j + 1)
    else if s[j] == '\n' then None
    else CloseFrom(s, j + 1)
  }

  /** The end of the match that starts at `i`, if the pattern matches there. */
  function MatchEnd(s: string, i: nat): (r: Option<nat>)
    ensures r.Some? ==> i + 3 <= r.value <= |s|
  {
    if i + 1 < |s| && s[i] == '[' && s[i + 1] != '\n' then CloseFrom(s, i + 2) else None
  }

  /** Left-to-right scan from `from`: a match at the current position is
      taken whole and the scan resumes after it; otherwise it moves on by
      one character. */
  function Scan(s: string, from: nat): (r: seq<Match>)
    ensures forall k :: 0 <= k < |r| ==>
      from <= r[k].index && r[k].End() <= |s| && |r[k].value| >= 3
    decreases |s| - from
  {
    if from >= |s| then []
    else match MatchEnd(s, from)
      case Some(e) => [Match(from, s[from..e])] + Scan(s, e)
      case None => Scan(s, from + 1)
  }

  /** `regex.Matches(input)`. */
  function Matches(s: string): seq<Match>
  {
    Scan(s, 0)
  }

  // ---------------------------------------------------------------------
  // What a match at one position is
  // ---------------------------------------------------------------------

  lemma {:induction false} CloseFromSpec(s: string, j: nat, e: nat)
    ensures CloseFrom(s, j) == Some(e) <==>
      j < e <= |s| && s[e - 1] == ']' &&
      forall k :: j <= k < e - 1 ==> s[k] != '\n' && s[k] != ']'
    decreases |s| - j
  {
    if j < |s| && s[j] != ']' && s[j] != '\n' {
      CloseFromSpec(s, j + 1, e);
    }
  }

  /** The scanner's match at `i` is exactly a substring of token shape
      starting there, and there is at most one such substring. */
  lemma MatchEndSpec(s: string, i: nat, e: nat)
    ensures MatchEnd(s, i) == Some(e) <==> i <= e <= |s| && TokenShape(s[i..e])
  {
    if i <= e <= |s| && |s[i..e]| >= 3 {
      var v := s[i..e];
      assert forall k :: i < k < e ==> s[k] == v[k - i];
    }
    CloseFromSpec(s, i + 2, e);
    if MatchEnd(s, i) == Some(e) {
      var v := s[i..e];
      assert forall k :: 0 <= k < |v| ==> v[k] == s[i + k];
    }
  }

  // ---------------------------------------------------------------------
  // What the whole scan is
  // ---------------------------------------------------------------------

  /** No match in `r` covers position `p`. */
  predicate Uncovered(r: seq<Match>, p: nat)
  {
    forall k :: 0 <= k < |r| ==> p < r[k].index || r[k].End() <= p
  }

  /** The pattern matches nowhere at `p`. */
  predicate NoMatchAt(s: string, p: nat)
  {
    forall e :: p <= e <= |s| ==> !TokenShape(s[p..e])
  }

  lemma NoMatchAtSpec(s: string, p: nat)
    ensures MatchEnd(s, p).None? <==> NoMatchAt(s, p)
  {
    if MatchEnd(s, p).Some? {
      MatchEndSpec(s, p, MatchEnd(s, p).value);
    } else {
      forall e | p <= e <= |s| ensures !TokenShape(s[p..e]) {
        MatchEndSpec(s, p, e);
      }
    }
  }

  /** Every element is a match at or after `from`. */
  predicate Sound(s: string, from: nat, r: seq<Match>)
  {
    forall k :: 0 <= k < |r| ==> from <= r[k].index && IsMatchIn(s, r[k])
  }

  /** The matches are in increasing position order and do not overlap. */
  predicate Ordered(r: seq<Match>)
  {
    forall k, l :: 0 <= k < l < |r| ==> r[k].End() <= r[l].index
  }

  /** No match of the pattern starts at a position, from `from` on, that
      none of the listed matches covers. */
  predicate Leftmost(s: string, from: nat, r: seq<Match>)
  {
    forall p :: from <= p <= |s| && Uncovered(r, p) ==> NoMatchAt(s, p)
  }

  /** Declarative reading of the scan from `from`. */
  predicate IsScanOf(s: string, from: nat, r: seq<Match>)
  {
    Sound(s, from, r) && Ordered(r) && Leftmost(s, from, r)
  }

  lemma {:induction false} ScanSound(s: string, from: nat)
    ensures Sound(s, from, Scan(s, from))
    decreases |s| - from
  {
    if from < |s| {
      match MatchEnd(s, from)
      case Some(e) =>
        ScanSound(s, e);
        MatchEndSpec(s, from, e);
        var r := Scan(s, from);
        assert r == [Match(from, s[from..e])] + Scan(s, e);
        assert IsMatchIn(s, r[0]);
        forall k | 0 < k < |r| ensures from <= r[k].index && IsMatchIn(s, r[k]) {
          assert r[k] == Scan(s, e)[k - 1];
        }
      case None =>
        ScanSound(s, from + 1);
    }
  }

  lemma {:induction false} ScanOrdered(s: string, from: nat)
    ensures Ordered(Scan(s, from))
    decreases |s| - from
  {
    if from < |s| {
      match MatchEnd(s, from)
      case Some(e) =>
        ScanOrdered(s, e);
        var r := Scan(s, from);
        var t := Scan(s, e);
        assert r == [Match(from, s[from..e])] + t;
        forall k, l | 0 <= k < l < |r| ensures r[k].End() <= r[l].index {
          assert r[l] == t[l - 1];
          if k > 0 {
            assert r[k] == t[k - 1];
          }
        }
      case None =>
        ScanOrdered(s, from + 1);
    }
  }

  lemma {:induction false} ScanLeftmost(s: string, from: nat)
    ensures Leftmost(s, from, Scan(s, from))
    decreases |s| - from
  {
    var r := Scan(s, from);
    if from >= |s| {
      forall p | from <= p <= |s| ensures NoMatchAt(s, p) {
        NoMatchAtSpec(s, p);
      }
    } else {
      match MatchEnd(s, from)
      case Some(e) =>
        ScanLeftmost(s, e);
        var t := Scan(s, e);
        assert r == [Match(from, s[from..e])] + t;
        forall p | from <= p <= |s| && Uncovered(r, p) ensures NoMatchAt(s, p) {
          assert r[0].End() == e;
          assert Uncovered(t, p) by {
            forall k | 0 <= k < |t| ensures p < t[k].index || t[k].End() <= p {
              assert t[k] == r[k + 1];
            }
          }
        }
      case None =>
        ScanLeftmost(s, from + 1);
        NoMatchAtSpec(s, from);
    }
  }

  /** The scan is a leftmost, non-overlapping list of matches. */
  lemma ScanIsScan(s: string, from: nat)
    ensures IsScanOf(s, from, Scan(s, from))
  {
    ScanSound(s, from);
    ScanOrdered(s, from);
    ScanLeftmost(s, from);
  }

  /** The scan is the only such list, so `IsScanOf` pins it down. */
  lemma {:induction false} ScanUnique(s: string, from: nat, r: seq<Match>)
    requires IsScanOf(s, from, r)
    ensures r == Scan(s, from)
    decreases |s| - from
  {
    if r != [] {
      assert from <= r[0].index && IsMatchIn(s, r[0]);
    }
    if from < |s| {
      NoMatchAtSpec(s, from);
      match MatchEnd(s, from)
      case Some(e) =>
        assert r != [] && r[0].index == from by {
          if r == [] || r[0].index != from {
            assert Uncovered(r, from);
          }
        }
        MatchEndSpec(s, from, e);
        MatchEndSpec(s, from, r[0].End());
        assert r[0] == Match(from, s[from..e]);
        var t := r[1..];
        assert Sound(s, e, t) by {
          forall k | 0 <= k < |t| ensures e <= t[k].index && IsMatchIn(s, t[k]) {
            assert t[k] == r[k + 1];
          }
        }
        assert Ordered(t) by {
          forall k, l | 0 <= k < l < |t| ensures t[k].End() <= t[l].index {
            assert t[k] == r[k + 1] && t[l] == r[l + 1];
          }
        }
        assert Leftmost(s, e, t) by {
          forall p | e <= p <= |s| && Uncovered(t, p) ensures NoMatchAt(s, p) {
            assert Uncovered(r, p) by {
              forall k | 0 < k < |r| ensures p < r[k].index || r[k].End() <= p {
                assert r[k] == t[k - 1];
              }
            }
          }
        }
        ScanUnique(s, e, t);
        assert r == [r[0]] + t;
      case None =>
        assert r == [] || r[0].index != from;
        assert Sound(s, from + 1, r) by {
          forall k | 0 <= k < |r| ensures from + 1 <= r[k].index {
            if k > 0 {
              assert r[0].End() <= r[k].index;
            }
          }
        }
        ScanUnique(s, from + 1, r);
    }
  }
}
