/**
 * The `*` / `?` matcher of the file collector (crates/glpi-collect/src/file.rs).
 *
 * `Matches` is the meaning of a glob. `Greedy` is what a pass with a single
 * backtrack point computes. The loop is proved to compute `Greedy`, and
 * `Greedy` is compared with `Matches`: it never accepts too much, and it
 * accepts enough exactly as long as no `*` of the pattern can be consumed by a
 * `*` of the text.
 */
module Glob {
  import opened Common

  const STAR := '*'

  predicate CharMatches(pc: char, tc: char) {
    pc == '?' || pc == tc
  }

  /** Declarative semantics: `*` stands for any run, `?` for any one character. */
  ghost predicate Matches(p: string, t: string)
    decreases |p|
  {
    if p == [] then t == []
    else if p[0] == STAR then exists k | 0 <= k <= |t| :: Matches(p[1..], t[k..])
    else t != [] && CharMatches(p[0], t[0]) && Matches(p[1..], t[1..])
  }

  /** How many characters the pattern from `i` and the text from `j` agree on. */
  function Run(p: string, t: string, i: nat, j: nat): (n: nat)
    requires i <= |p| && j <= |t|
    ensures i + n <= |p| && j + n <= |t|
    decreases |p| - i
  {
    if i == |p| || j == |t| || !CharMatches(p[i], t[j]) then 0 else 1 + Run(p, t, i + 1, j + 1)
  }

  /** Only stars are left in the pattern from `i`. */
  predicate StarsFrom(p: string, i: nat)
    requires i <= |p|
    decreases |p| - i
  {
    i == |p| || (p[i] == STAR && StarsFrom(p, i + 1))
  }

  /**
   * Whether the pattern from `i` is found in the text from `j`: segment by
   * segment, each at the first place where it fits. Without `slide` the first
   * segment has to stand at `j`.
   */
  predicate Seek(p: string, t: string, i: nat, j: nat, slide: bool)
    requires i <= |p| && j <= |t|
    decreases |p| - i, |t| - j
  {
    var n := Run(p, t, i, j);
    if j + n == |t| then StarsFrom(p, i + n)
    else if i + n < |p| && p[i + n] == STAR then Seek(p, t, i + n + 1, j + n, true)
    else slide && Seek(p, t, i, j + 1, true)
  }

  predicate Greedy(p: string, t: string) {
    Seek(p, t, 0, 0, false)
  }

  lemma {:induction false} RunIs(p: string, t: string, i: nat, j: nat, n: nat)
    requires i + n <= |p| && j + n <= |t|
    requires forall m | i <= m < i + n :: CharMatches(p[m], t[j + m - i])
    requires i + n < |p| && j + n < |t| ==> !CharMatches(p[i + n], t[j + n])
    ensures Run(p, t, i, j) == n
    decreases n
  {
    if n > 0 {
      assert CharMatches(p[i], t[j + i - i]);
      RunIs(p, t, i + 1, j + 1, n - 1);
    }
  }

  /** A run can be entered anywhere, and where it ends the next characters differ. */
  lemma {:induction false} RunSplits(p: string, t: string, i: nat, j: nat, n: nat)
    requires i <= |p| && j <= |t| && n <= Run(p, t, i, j)
    ensures Run(p, t, i, j) == n + Run(p, t, i + n, j + n)
    decreases n
  {
    if n > 0 { RunSplits(p, t, i + 1, j + 1, n - 1); }
  }

  /** The two-pointer loop: where the pattern stands once the text is used up, if it gets there. */
  method ConsumeText(p: string, t: string) returns (end: Option<nat>)
    ensures end.None? ==> !Greedy(p, t)
    ensures end.Some? ==> end.value <= |p| && Greedy(p, t) == StarsFrom(p, end.value)
  {
    var pi, ti := 0, 0;
    var star: Option<nat>, mark := None, 0;
    ghost var s := 0;  // where the segment being matched starts in the pattern
    while ti < |t|
      invariant 0 <= mark <= ti <= |t| && 0 <= s <= pi <= |p|
      invariant pi - s == ti - mark <= Run(p, t, s, mark)
      invariant star.Some? ==> s == star.value + 1
      invariant Greedy(p, t) == Seek(p, t, s, mark, star.Some?)
      decreases |p| - s, |t| - mark, |t| - ti
    {
      RunSplits(p, t, s, mark, ti - mark);
      if pi < |p| && (p[pi] == '?' || p[pi] == t[ti]) {
        pi := pi + 1;
        ti := ti + 1;
      } else if pi < |p| && p[pi] == STAR {
        star := Some(pi);
        mark := ti;
        pi := pi + 1;
        s := pi;
      } else if star.Some? {
        pi := star.value + 1;
        mark := mark + 1;
        ti := mark;
      } else {
        return None;
      }
    }
    RunSplits(p, t, s, mark, ti - mark);
    return Some(pi);
  }

  /** The matcher: the loop over the text, then the loop over trailing stars. */
  method GlobMatch(pattern: string, text: string) returns (matched: bool)
    ensures matched == Greedy(pattern, text)
    ensures matched ==> Matches(pattern, text)
    ensures NoStarCollision(pattern, text) ==> (matched <==> Matches(pattern, text))
  {
    GreedyVersusMatches(pattern, text);
    var end := ConsumeText(pattern, text);
    if end.None? {
      return false;
    }
    var pi := end.value;
    while pi < |pattern| && pattern[pi] == STAR
      invariant 0 <= pi <= |pattern|
      invariant Greedy(pattern, text) == StarsFrom(pattern, pi)
    {
      pi := pi + 1;
    }
    return pi == |pattern|;
  }

  // ---- Greedy against Matches ------------------------------------------------

  lemma {:induction false} StarsMatchNothing(p: string, i: nat)
    requires i <= |p|
    ensures StarsFrom(p, i) <==> Matches(p[i..], [])
    decreases |p| - i
  {
    if i < |p| {
      StarsMatchNothing(p, i + 1);
      assert p[i..][1..] == p[i + 1..];
      if p[i] == STAR && Matches(p[i + 1..], []) { assert Matches(p[i..][1..], ""[0..]); }
    }
  }

  /** A run of agreeing characters may be put in front of a match. */
  lemma {:induction false} ExtendMatch(p: string, t: string, i: nat, j: nat, n: nat)
    requires i <= |p| && j <= |t| && n <= Run(p, t, i, j)
    requires Matches(p[i + n..], t[j + n..])
    ensures Matches(p[i..], t[j..])
    decreases n
  {
    if n > 0 {
      ExtendMatch(p, t, i + 1, j + 1, n - 1);
      assert p[i..][1..] == p[i + 1..] && t[j..][1..] == t[j + 1..];
    }
  }

  /** A star-free piece of the pattern consumes exactly its own length. */
  lemma {:induction false} StripMatch(p: string, t: string, i: nat, j: nat, n: nat)
    requires i + n <= |p| && j <= |t| && STAR !in p[i..i + n]
    requires Matches(p[i..], t[j..])
    ensures j + n <= |t| && Matches(p[i + n..], t[j + n..]) && n <= Run(p, t, i, j)
    decreases n
  {
    if n > 0 {
      assert p[i] == p[i..i + n][0] && p[i + 1..i + n] == p[i..i + n][1..];
      assert p[i..][1..] == p[i + 1..] && t[j..][1..] == t[j + 1..];
      StripMatch(p, t, i + 1, j + 1, n - 1);
    }
  }

  lemma {:induction false} SeekSound(p: string, t: string, i: nat, j: nat, slide: bool) returns (k: nat)
    requires i <= |p| && j <= |t| && Seek(p, t, i, j, slide)
    ensures j <= k <= |t| && Matches(p[i..], t[k..])
    ensures !slide ==> k == j
    decreases |p| - i, |t| - j
  {
    var n := Run(p, t, i, j);
    k := j;
    if j + n == |t| {
      StarsMatchNothing(p, i + n);
      assert t[j + n..] == [];
      ExtendMatch(p, t, i, j, n);
    } else if i + n < |p| && p[i + n] == STAR {
      var k' := SeekSound(p, t, i + n + 1, j + n, true);
      assert p[i + n..][1..] == p[i + n + 1..] && t[j + n..][k' - (j + n)..] == t[k'..];
      assert Matches(p[i + n..][1..], t[j + n..][k' - (j + n)..]);
      ExtendMatch(p, t, i, j, n);
    } else {
      k := SeekSound(p, t, i, j + 1, true);
    }
  }

  /** No `*` of the pattern can meet a `*` of the text. */
  predicate NoStarCollision(p: string, t: string) {
    STAR !in p || STAR !in t
  }

  lemma {:induction false} RunIsStarFree(p: string, t: string, i: nat, j: nat)
    requires i <= |p| && j <= |t| && NoStarCollision(p, t)
    ensures STAR !in p[i..i + Run(p, t, i, j)]
    decreases |p| - i
  {
    var n := Run(p, t, i, j);
    if n > 0 {
      RunIsStarFree(p, t, i + 1, j + 1);
      assert p[i..i + n] == [p[i]] + p[i + 1..i + n];
      assert p[i] in p && t[j] in t;
    }
  }

  lemma StarChoice(p: string, t: string, i: nat, k: nat) returns (k': nat)
    requires i < |p| && k <= |t| && p[i] == STAR && Matches(p[i..], t[k..])
    ensures k <= k' <= |t| && Matches(p[i + 1..], t[k'..])
  {
    var rest, tail := p[i + 1..], t[k..];
    assert p[i..][1..] == rest;
    var d :| 0 <= d <= |tail| && Matches(rest, tail[d..]);
    assert tail[d..] == t[k + d..];
    k' := k + d;
  }

  lemma FirstOfMatch(p: string, t: string, i: nat, k: nat)
    requires i <= |p| && k <= |t| && Matches(p[i..], t[k..])
    requires i < |p| ==> p[i] != STAR
    ensures if i == |p| then k == |t| else k < |t| && CharMatches(p[i], t[k])
  {
  }

  lemma SeekEnds(p: string, t: string, i: nat, j: nat, slide: bool, k: nat, n: nat)
    requires i <= |p| && j <= k <= |t| && NoStarCollision(p, t)
    requires Matches(p[i..], t[k..])
    requires n == Run(p, t, i, j) && j + n == |t|
    ensures Seek(p, t, i, j, slide)
  {
    RunIsStarFree(p, t, i, j);
    StripMatch(p, t, i, k, n);
    assert t[k + n..] == [];
    StarsMatchNothing(p, i + n);
  }

  /** Past the run of agreeing characters the match goes on: at a star, or it starts later. */
  lemma AfterRun(p: string, t: string, i: nat, j: nat, k: nat, n: nat) returns (k': nat)
    requires i <= |p| && j <= k <= |t| && NoStarCollision(p, t)
    requires Matches(p[i..], t[k..])
    requires n == Run(p, t, i, j) && j + n < |t|
    ensures if i + n < |p| && p[i + n] == STAR
      then j + n <= k' <= |t| && Matches(p[i + n + 1..], t[k'..])
      else j < k
  {
    RunIsStarFree(p, t, i, j);
    StripMatch(p, t, i, k, n);
    k' := k;
    if i + n < |p| && p[i + n] == STAR {
      k' := StarChoice(p, t, i + n, k + n);
    } else {
      FirstOfMatch(p, t, i + n, k + n);
      RunSplits(p, t, i, j, n);
    }
  }

  lemma {:induction false} SeekComplete(p: string, t: string, i: nat, j: nat, slide: bool, k: nat)
    requires i <= |p| && j <= k <= |t| && NoStarCollision(p, t)
    requires Matches(p[i..], t[k..]) && (!slide ==> k == j)
    ensures Seek(p, t, i, j, slide)
    decreases |p| - i, |t| - j
  {
    var n := Run(p, t, i, j);
    if j + n == |t| {
      SeekEnds(p, t, i, j, slide, k, n);
    } else {
      var k' := AfterRun(p, t, i, j, k, n);
      if i + n < |p| && p[i + n] == STAR {
        SeekComplete(p, t, i + n + 1, j + n, true, k');
      } else {
        SeekComplete(p, t, i, j + 1, true, k);
      }
    }
  }

  /** Never a false match; every true match found while stars cannot collide. */
  lemma GreedyVersusMatches(p: string, t: string)
    ensures Greedy(p, t) ==> Matches(p, t)
    ensures NoStarCollision(p, t) ==> (Greedy(p, t) <==> Matches(p, t))
  {
    assert p[0..] == p && t[0..] == t;
    if Greedy(p, t) { var _ := SeekSound(p, t, 0, 0, false); }
    if NoStarCollision(p, t) && Matches(p, t) { SeekComplete(p, t, 0, 0, false, 0); }
  }

  // ---- The star-free condition is exact --------------------------------------

  lemma {:induction false} EveryTextMatchesItself(t: string)
    ensures Matches(t, t)
  {
    if t != [] {
      EveryTextMatchesItself(t[1..]);
      if t[0] == STAR { assert Matches(t[1..], t[1..]); }
    }
  }

  lemma {:induction false} AnyCharsMatch(q: string, t: string)
    requires |q| == |t| && forall i | 0 <= i < |q| :: q[i] == '?'
    ensures Matches(q, t)
  {
    if t != [] { AnyCharsMatch(q[1..], t[1..]); }
  }

  /** A text with a `*` at `k` is missed by this pattern, although it matches. */
  lemma MissedPattern(t: string, k: nat) returns (p: string)
    requires k < |t| && t[k] == STAR
    ensures Matches(p, t) && !Greedy(p, t)
  {
    var q := seq(|t| - k, _ => '?');
    p := t[..k] + [STAR] + q;
    RunIs(p, t, 0, 0, |t|);
    assert p[|t|] == '?';
    AnyCharsMatch(q, t[k..]);
    assert p[k..][1..] == q && t[k..][0..] == t[k..];
    assert Matches(p[k..], t[k..]);
    ExtendMatch(p, t, 0, 0, k);
    assert p[0..] == p && t[0..] == t;
  }

  /** A star may skip `n` characters when the text ends like the pattern after it. */
  lemma StarBefore(p: string, t: string, k: nat, n: nat)
    requires k < |p| && p[k] == STAR && k + n <= |t| && t[k + n..] == p[k + 1..]
    ensures Matches(p[k..], t[k..])
  {
    EveryTextMatchesItself(p[k + 1..]);
    assert p[k..][1..] == p[k + 1..] && t[k..][n..] == t[k + n..];
  }

  /** The pattern is used up by its own copy, with no star taken as a star. */
  lemma LongerIsRefused(p: string, more: string)
    requires more != []
    ensures Run(p, p + more, 0, 0) == |p| && !Greedy(p, p + more)
  {
    var t := p + more;
    forall m | 0 <= m < |p| ensures CharMatches(p[m], t[m]) {}
    RunIs(p, t, 0, 0, |p|);
  }

  /** A pattern with a `*` misses this text, although the text matches it. */
  lemma MissedText(p: string, k: nat) returns (t: string)
    requires k < |p| && p[k] == STAR && STAR !in p[k + 1..]
    ensures Matches(p, t) && !Greedy(p, t)
  {
    var more := if k + 1 == |p| then "a" else p[k + 1..];
    t := p + more;
    LongerIsRefused(p, more);
    StarBefore(p, t, k, if k + 1 == |p| then |t| - k else |p| - k);
    ExtendMatch(p, t, 0, 0, k);
    assert p[0..] == p && t[0..] == t;
  }

  lemma LastStar(p: string) returns (k: nat)
    requires STAR in p
    ensures k < |p| && p[k] == STAR && STAR !in p[k + 1..]
  {
    k := |p| - 1;
    while p[k] != STAR
      invariant k < |p| && STAR !in p[k + 1..]
      decreases k
    {
      assert p == p[..k] + [p[k]] + p[k + 1..];
      k := k - 1;
    }
  }

  /** The matcher is right about a text under every pattern iff the text has no `*`. */
  lemma TextIsSafeIff(t: string)
    ensures (forall p: string :: Greedy(p, t) == Matches(p, t)) <==> STAR !in t
  {
    if STAR in t {
      var k :| 0 <= k < |t| && t[k] == STAR;
      var p := MissedPattern(t, k);
      assert Greedy(p, t) != Matches(p, t);
    } else {
      forall p: string ensures Greedy(p, t) == Matches(p, t) { GreedyVersusMatches(p, t); }
    }
  }

  /** The matcher is right about a pattern on every text iff the pattern has no `*`. */
  lemma PatternIsSafeIff(p: string)
    ensures (forall t: string :: Greedy(p, t) == Matches(p, t)) <==> STAR !in p
  {
    if STAR in p {
      var k := LastStar(p);
      var t := MissedText(p, k);
      assert Greedy(p, t) != Matches(p, t);
    } else {
      forall t: string ensures Greedy(p, t) == Matches(p, t) { GreedyVersusMatches(p, t); }
    }
  }

  // ---- The laws of globs ---------------------------------------------------------

  /** A pattern without wildcards matches itself only; `?` any one character; `*` anything. */
  lemma WildcardsMean(p: string, t: string)
    ensures '*' !in p && '?' !in p ==> (Matches(p, t) <==> t == p)
    ensures Matches("?", t) <==> |t| == 1
    ensures Matches("*", t)
  {
    if '*' !in p && '?' !in p { PlainMatchesItself(p, t); }
    assert "?"[1..] == [] && "*"[1..] == [];
    assert t[|t|..] == [];
    if t != [] { assert t == [t[0]] + t[1..]; }
  }

  lemma {:induction false} PlainMatchesItself(p: string, t: string)
    requires '*' !in p && '?' !in p
    ensures Matches(p, t) <==> t == p
    decreases |p|
  {
    if p != [] {
      assert p[0] in p && p == [p[0]] + p[1..];
      if t != [] {
        assert t == [t[0]] + t[1..];
        PlainMatchesItself(p[1..], t[1..]);
      }
    }
  }

  /** Patterns side by side match texts side by side: with the above, this is all that globs mean. */
  lemma {:induction false} ConcatMatchesIff(p: string, q: string, t: string)
    ensures Matches(p + q, t) <==> exists n :: 0 <= n <= |t| && Matches(p, t[..n]) && Matches(q, t[n..])
    decreases |p|
  {
    if p == [] {
      assert p + q == q && t[0..] == t && t[..0] == [];
    } else {
      assert (p + q)[0] == p[0] && (p + q)[1..] == p[1..] + q;
      if Matches(p + q, t) { var n := SplitMatch(p, q, t); }
      if n :| 0 <= n <= |t| && Matches(p, t[..n]) && Matches(q, t[n..]) { JoinMatch(p, q, t, n); }
    }
  }

  lemma {:induction false} SplitMatch(p: string, q: string, t: string) returns (n: nat)
    requires p != [] && Matches(p + q, t)
    ensures n <= |t| && Matches(p, t[..n]) && Matches(q, t[n..])
    decreases |p|, 0
  {
    assert (p + q)[0] == p[0] && (p + q)[1..] == p[1..] + q;
    if p[0] == STAR {
      var k :| 0 <= k <= |t| && Matches(p[1..] + q, t[k..]);
      ConcatMatchesIff(p[1..], q, t[k..]);
      var m :| 0 <= m <= |t[k..]| && Matches(p[1..], t[k..][..m]) && Matches(q, t[k..][m..]);
      n := k + m;
      assert t[..n][k..] == t[k..][..m] && t[k..][m..] == t[n..];
    } else {
      ConcatMatchesIff(p[1..], q, t[1..]);
      var m :| 0 <= m <= |t[1..]| && Matches(p[1..], t[1..][..m]) && Matches(q, t[1..][m..]);
      n := m + 1;
      assert t[..n][1..] == t[1..][..m] && t[1..][m..] == t[n..];
    }
  }

  lemma {:induction false} JoinMatch(p: string, q: string, t: string, n: nat)
    requires p != [] && n <= |t| && Matches(p, t[..n]) && Matches(q, t[n..])
    ensures Matches(p + q, t)
    decreases |p|, 0
  {
    assert (p + q)[0] == p[0] && (p + q)[1..] == p[1..] + q;
    if p[0] == STAR {
      var k :| 0 <= k <= n && Matches(p[1..], t[..n][k..]);
      assert t[k..][..n - k] == t[..n][k..] && t[k..][n - k..] == t[n..];
      ConcatMatchesIff(p[1..], q, t[k..]);
    } else {
      assert t[1..][..n - 1] == t[..n][1..] && t[1..][n - 1..] == t[n..];
      ConcatMatchesIff(p[1..], q, t[1..]);
    }
  }
}
