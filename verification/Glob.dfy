/** Wildcard matching of archive file names: the greedy matcher of the MPQ extractor,
    which keeps a single backtrack point, against the recursive meaning of `*` and `?`. */
module Glob {

  /** The meaning of a pattern: `*` stands for any run of characters, `?` for exactly one. */
  predicate Matches(p: string, s: string)
    decreases |p| + |s|
  {
    if p == [] then s == []
    else if p[0] == '*' then Matches(p[1..], s) || (s != [] && Matches(p, s[1..]))
    else s != [] && Fits(p[0], s[0]) && Matches(p[1..], s[1..])
  }

  /** A pattern character other than `*` against one character of the string. */
  predicate Fits(pc: char, c: char) {
    pc == c || pc == '?'
  }

  // ----- A second, declarative meaning: a cutting of the string into one run per pattern character

  function Join(runs: seq<string>): string {
    if runs == [] then [] else runs[0] + Join(runs[1..])
  }

  /** The run that one pattern character may stand for. */
  predicate Stands(pc: char, run: string) {
    pc == '*' || (|run| == 1 && Fits(pc, run[0]))
  }

  ghost predicate CutBy(p: string, s: string, runs: seq<string>) {
    && |runs| == |p|
    && Join(runs) == s
    && forall k :: 0 <= k < |p| ==> Stands(p[k], runs[k])
  }

  lemma {:induction false} CutOfMatch(p: string, s: string) returns (runs: seq<string>)
    requires Matches(p, s)
    ensures CutBy(p, s, runs)
    decreases |p| + |s|
  {
    if p == [] {
      runs := [];
    } else if p[0] == '*' && Matches(p[1..], s) {
      var rest := CutOfMatch(p[1..], s);
      runs := [""] + rest;
    } else if p[0] == '*' {
      var rest := CutOfMatch(p, s[1..]);
      runs := [[s[0]] + rest[0]] + rest[1..];
      assert Join(runs) == [s[0]] + (rest[0] + Join(rest[1..]));
    } else {
      var rest := CutOfMatch(p[1..], s[1..]);
      runs := [[s[0]]] + rest;
    }
  }

  lemma {:induction false} MatchOfCut(p: string, s: string, runs: seq<string>)
    requires CutBy(p, s, runs)
    ensures Matches(p, s)
    decreases |p|, |s|
  {
    if p != [] {
      var tail := Join(runs[1..]);
      assert s == runs[0] + tail;
      if runs[0] == [] {
        assert s == tail;
        MatchOfCut(p[1..], s, runs[1..]);
      } else if p[0] == '*' {
        var shorter := [runs[0][1..]] + runs[1..];
        assert Join(shorter) == s[1..];
        MatchOfCut(p, s[1..], shorter);
      } else {
        assert s[1..] == tail;
        MatchOfCut(p[1..], s[1..], runs[1..]);
      }
    }
  }

  /** The recursive meaning and the declarative one agree on every pattern and string. */
  lemma {:induction false} MatchesIffCut(p: string, s: string)
    ensures Matches(p, s) <==> exists runs :: CutBy(p, s, runs)
  {
    if Matches(p, s) {
      var runs := CutOfMatch(p, s);
    }
    if runs :| CutBy(p, s, runs) {
      MatchOfCut(p, s, runs);
    }
  }

  // ----- Segments: stretches of a pattern without `*`

  ghost predicate SegmentFits(q: string, t: string) {
    |q| == |t| && forall k :: 0 <= k < |q| ==> q[k] != '*' && Fits(q[k], t[k])
  }

  /** A star-free segment only matches character by character. */
  lemma {:induction false} SegmentThen(q: string, p: string, s: string)
    requires forall k :: 0 <= k < |q| ==> q[k] != '*'
    ensures Matches(q + p, s) <==> |q| <= |s| && SegmentFits(q, s[..|q|]) && Matches(p, s[|q|..])
    decreases |q|
  {
    if q == [] {
      assert q + p == p && s[|q|..] == s;
    } else if s != [] {
      assert (q + p)[1..] == q[1..] + p;
      SegmentThen(q[1..], p, s[1..]);
      if |q| <= |s| {
        assert s[..|q|] == [s[0]] + s[1..][..|q| - 1];
        assert s[1..][|q| - 1..] == s[|q|..];
        assert q == [q[0]] + q[1..];
      }
    }
  }

  lemma {:induction false} StarDrops(p: string, s: string, m: nat)
    requires p != [] && p[0] == '*' && m <= |s|
    requires Matches(p, s[m..])
    ensures Matches(p, s)
    decreases m
  {
    if m == 0 {
      assert s[0..] == s;
    } else {
      assert s[1..][m - 1..] == s[m..];
      StarDrops(p, s[1..], m - 1);
    }
  }

  /** A match of `*` followed by p skips some number of characters before p. */
  lemma {:induction false} StarSkips(p: string, s: string) returns (m: nat)
    requires p != [] && p[0] == '*' && Matches(p, s)
    ensures m <= |s| && Matches(p[1..], s[m..])
    decreases |s|
  {
    if Matches(p[1..], s) {
      m := 0;
      assert s[0..] == s;
    } else {
      var n := StarSkips(p, s[1..]);
      m := n + 1;
      assert s[1..][n..] == s[m..];
    }
  }

  /** The exchange argument. Once the segment q after a star has been matched at its earliest
      place and the next star is reached, the earlier star never has to be revisited. */
  lemma {:induction false} LaterStarSuffices(q: string, p: string, s: string)
    requires p != [] && p[0] == '*'
    requires |q| <= |s| && SegmentFits(q, s[..|q|])
    ensures Matches(['*'] + q + p, s) <==> Matches(p, s[|q|..])
  {
    var whole := ['*'] + q + p;
    assert whole[1..] == q + p;
    SegmentThen(q, p, s);
    if Matches(whole, s) {
      var m := StarSkips(whole, s);
      SegmentThen(q, p, s[m..]);
      assert s[m..][|q|..] == s[|q|..][m..];
      StarDrops(p, s[|q|..], m);
    }
  }

  /** When the string ends inside the attempt at the earliest place, later places have no room. */
  lemma {:induction false} LastSegmentSettles(q: string, p: string, s: string)
    requires SegmentFits(q, s)
    ensures Matches(['*'] + q + p, s) <==> Matches(p, [])
  {
    var whole := ['*'] + q + p;
    assert whole[1..] == q + p;
    assert s[..|q|] == s && s[|q|..] == [];
    SegmentThen(q, p, s);
    if Matches(whole, s) {
      var m := StarSkips(whole, s);
      SegmentThen(q, p, s[m..]);
    }
  }

  /** A failed attempt at one place moves the star on by one character. */
  lemma {:induction false} FailedAttemptAdvances(q: string, p: string, s: string)
    requires |q| < |s| && SegmentFits(q, s[..|q|])
    requires p == [] || (p[0] != '*' && !Fits(p[0], s[|q|]))
    ensures Matches(['*'] + q + p, s) <==> Matches(['*'] + q + p, s[1..])
  {
    var whole := ['*'] + q + p;
    assert whole[1..] == q + p;
    SegmentThen(q, p, s);
  }

  lemma {:induction false} OnlyStarsMatchNothing(p: string)
    ensures Matches(p, []) <==> forall k :: 0 <= k < |p| ==> p[k] == '*'
  {
    if p != [] {
      OnlyStarsMatchNothing(p[1..]);
      assert p == [p[0]] + p[1..];
    }
  }

  /** A pattern without wildcards matches only itself. */
  lemma {:induction false} LiteralMatchesItself(p: string, s: string)
    requires forall k :: 0 <= k < |p| ==> p[k] != '*' && p[k] != '?'
    ensures Matches(p, s) <==> s == p
  {
    SegmentThen(p, [], s);
    assert p + [] == p;
    if |p| <= |s| && SegmentFits(p, s[..|p|]) && Matches([], s[|p|..]) {
      assert s[..|p|] == s;
    }
  }

  // ----- The matcher

  predicate HasWildcard(p: string) {
    exists k :: 0 <= k < |p| && (p[k] == '*' || p[k] == '?')
  }

  /** The call, with the case folding of the runtime library as a parameter. */
  method Match(pattern: string, s: string, caseSensitive: bool, toLower: string -> string) returns (r: bool)
    ensures caseSensitive ==> (r <==> Matches(pattern, s))
    ensures !caseSensitive ==> (r <==> Matches(toLower(pattern), toLower(s)))
  {
    if !caseSensitive {
      r := MatchFolded(toLower(pattern), toLower(s));
    } else {
      r := MatchFolded(pattern, s);
    }
  }

  /** What the main loop keeps: pattern[mp - 1] is the star last passed, the segment after it fits
      the string from cp - 1 up to i, and the whole question has shrunk to that star and place. */
  ghost predicate Attempt(p: string, s: string, i: nat, j: nat, mp: nat, cp: nat) {
    && i <= |s| && mp <= j <= |p|
    && (mp == 0 ==>
          cp == 0 && j < |p| && (i < |s| ==> p[j] == '*') && (Matches(p, s) <==> Matches(p[j..], s[i..])))
    && (mp > 0 ==>
          && p[mp - 1] == '*' && 1 <= cp <= i + 1 && j - mp == i - (cp - 1)
          && SegmentFits(p[mp..j], s[cp - 1..i])
          && (Matches(p, s) <==> Matches(p[mp - 1..], s[cp - 1..])))
  }

  /** The pieces the exchange lemmas speak of. */
  lemma {:induction false} AttemptPieces(p: string, s: string, i: nat, j: nat, mp: nat, cp: nat)
    requires Attempt(p, s, i, j, mp, cp) && mp > 0
    ensures p[mp - 1..] == ['*'] + p[mp..j] + p[j..]
    ensures s[cp - 1..][..j - mp] == s[cp - 1..i] && s[cp - 1..][j - mp..] == s[i..]
    ensures i < |s| ==> s[cp - 1..][1..] == s[cp..]
  {
  }

  lemma {:induction false} AttemptAtStar(p: string, s: string, i: nat, j: nat, mp: nat, cp: nat)
    requires Attempt(p, s, i, j, mp, cp) && i < |s| && j < |p| && p[j] == '*'
    ensures Attempt(p, s, i, j + 1, j + 1, i + 1)
  {
    if mp > 0 {
      AttemptPieces(p, s, i, j, mp, cp);
      LaterStarSuffices(p[mp..j], p[j..], s[cp - 1..]);
    }
  }

  lemma {:induction false} AttemptGoesOn(p: string, s: string, i: nat, j: nat, mp: nat, cp: nat)
    requires Attempt(p, s, i, j, mp, cp) && i < |s| && j < |p| && p[j] != '*' && Fits(p[j], s[i])
    ensures Attempt(p, s, i + 1, j + 1, mp, cp)
  {
    assert p[mp..j + 1] == p[mp..j] + [p[j]];
    assert s[cp - 1..i + 1] == s[cp - 1..i] + [s[i]];
  }

  lemma {:induction false} AttemptFails(p: string, s: string, i: nat, j: nat, mp: nat, cp: nat)
    requires Attempt(p, s, i, j, mp, cp) && i < |s|
    requires j == |p| || (p[j] != '*' && !Fits(p[j], s[i]))
    ensures mp > 0 && cp <= |s| && Attempt(p, s, cp, mp, mp, cp + 1)
  {
    AttemptPieces(p, s, i, j, mp, cp);
    FailedAttemptAdvances(p[mp..j], p[j..], s[cp - 1..]);
  }

  lemma {:induction false} AttemptEnds(p: string, s: string, j: nat, mp: nat, cp: nat)
    requires Attempt(p, s, |s|, j, mp, cp)
    ensures Matches(p, s) <==> forall k :: j <= k < |p| ==> p[k] == '*'
  {
    var rest := p[j..];
    if mp > 0 {
      AttemptPieces(p, s, |s|, j, mp, cp);
      LastSegmentSettles(p[mp..j], rest, s[cp - 1..]);
    }
    OnlyStarsMatchNothing(rest);
    assert forall k :: j <= k < |p| ==> p[k] == rest[k - j];
  }

  /** Up to the first star the pattern is compared character by character. */
  lemma {:induction false} LeadingSegment(p: string, s: string, i: nat)
    requires i <= |s| && i <= |p| && SegmentFits(p[..i], s[..i])
    ensures Matches(p, s) <==> Matches(p[i..], s[i..])
  {
    assert p == p[..i] + p[i..];
    SegmentThen(p[..i], p[i..], s);
  }

  lemma {:induction false} LeadingMismatch(p: string, s: string, i: nat)
    requires i < |s| && i < |p| && SegmentFits(p[..i], s[..i])
    requires p[i] != '*' && !Fits(p[i], s[i])
    ensures !Matches(p, s)
  {
    LeadingSegment(p, s, i);
  }

  method MatchFolded(pattern: string, s: string) returns (r: bool)
    ensures r <==> Matches(pattern, s)
  {
    if !HasWildcard(pattern) {
      LiteralMatchesItself(pattern, s);
      return s == pattern;
    }
    var i, j := 0, 0;
    while i < |s| && j < |pattern| && pattern[j] != '*'
      invariant i == j <= |s| && j <= |pattern|
      invariant SegmentFits(pattern[..j], s[..i])
    {
      if pattern[j] != s[i] && pattern[j] != '?' {
        LeadingMismatch(pattern, s, i);
        return false;
      }
      i := i + 1;
      j := j + 1;
    }
    LeadingSegment(pattern, s, i);
    if j == |pattern| {
      return |s| == |pattern|;
    }

    r := MatchFromStar(pattern, s, i, j);
  }

  /** The main loop, entered at the first star of the pattern. */
  method MatchFromStar(pattern: string, s: string, i0: nat, j0: nat) returns (r: bool)
    requires Attempt(pattern, s, i0, j0, 0, 0)
    ensures r <==> Matches(pattern, s)
  {
    var i, j := i0, j0;
    var cp, mp := 0, 0;
    while i < |s|
      invariant 0 <= i && 0 <= j && 0 <= mp && 0 <= cp
      invariant Attempt(pattern, s, i, j, mp, cp)
      decreases |pattern| - mp, |s| + 1 - cp, |s| - i
    {
      if j < |pattern| && pattern[j] == '*' {
        AttemptAtStar(pattern, s, i, j, mp, cp);
        var atEnd := j >= |pattern|;
        j := j + 1;
        if atEnd {
          return true;
        }
        mp := j;
        cp := i + 1;
      } else if j < |pattern| && (pattern[j] == s[i] || pattern[j] == '?') {
        AttemptGoesOn(pattern, s, i, j, mp, cp);
        j := j + 1;
        i := i + 1;
      } else {
        AttemptFails(pattern, s, i, j, mp, cp);
        j := mp;
        i := cp;
        cp := cp + 1;
      }
    }

    AttemptEnds(pattern, s, j, mp, cp);
    ghost var start := j;
    while j < |pattern| && pattern[j] == '*'
      invariant start <= j <= |pattern|
      invariant forall k :: start <= k < j ==> pattern[k] == '*'
    {
      j := j + 1;
    }
    return j >= |pattern|;
  }
}
