/** The wildcard matcher of the policy engine: greedy, with one backtracking point. */
module Glob {
  /** What a pattern means: `*` stands for any run of characters, `?` for any one, others for themselves. */
  ghost predicate Matches(p: string, v: string)
    decreases |p|
  {
    if p == "" then v == ""
    else if p[0] == '*' then exists k: nat :: k <= |v| && Matches(p[1..], v[k..])
    else v != "" && (p[0] == '?' || p[0] == v[0]) && Matches(p[1..], v[1..])
  }

  /** The last `*` that was tried: its place in the pattern and the end of the run it stands for. */
  datatype Star = NoStar | Star(pi: nat, vi: nat)

  predicate Fits(p: string, v: string, pi: nat, vi: nat, star: Star) {
    && pi <= |p| && vi <= |v|
    && (star.Star? ==> star.pi < pi && star.vi <= vi)
  }

  predicate OnlyStars(p: string, from: nat)
    requires from <= |p|
  {
    forall i :: from <= i < |p| ==> p[i] == '*'
  }

  /** The states that the loop goes through, as a function of its four variables. */
  function Run(p: string, v: string, pi: nat, vi: nat, star: Star): bool
    requires Fits(p, v, pi, vi, star)
    decreases if star.Star? then |v| - star.vi else |v| + 1, |v| - vi, |p| - pi
  {
    if vi == |v| then OnlyStars(p, pi)
    else if pi < |p| && (p[pi] == v[vi] || p[pi] == '?') then Run(p, v, pi + 1, vi + 1, star)
    else if pi < |p| && p[pi] == '*' then Run(p, v, pi + 1, vi, Star(pi, vi))
    else if star.Star? then Run(p, v, star.pi + 1, star.vi + 1, Star(star.pi, star.vi + 1))
    else false
  }

  function GlobMatches(p: string, v: string): bool {
    Run(p, v, 0, 0, NoStar)
  }

  /** `glob_match`, with its two loops. It terminates on the lexicographic measure of its variables. */
  method GlobMatch(p: string, v: string) returns (r: bool)
    ensures r == GlobMatches(p, v)
    ensures r ==> Matches(p, v)
    ensures '*' !in v ==> (r <==> Matches(p, v))
  {
    Sound(p, v);
    if '*' !in v {
      Complete(p, v);
    }
    var pi: nat, vi: nat, star := 0, 0, NoStar;
    while vi < |v|
      invariant Fits(p, v, pi, vi, star)
      invariant Run(p, v, pi, vi, star) == GlobMatches(p, v)
      decreases if star.Star? then |v| - star.vi else |v| + 1, |v| - vi, |p| - pi
    {
      if pi < |p| && (p[pi] == v[vi] || p[pi] == '?') {
        pi, vi := pi + 1, vi + 1;
      } else if pi < |p| && p[pi] == '*' {
        star := Star(pi, vi);
        pi := pi + 1;
      } else if star.Star? {
        pi, vi, star := star.pi + 1, star.vi + 1, Star(star.pi, star.vi + 1);
      } else {
        return false;
      }
    }
    ghost var from := pi;
    while pi < |p| && p[pi] == '*'
      invariant from <= pi <= |p|
      invariant forall i :: from <= i < pi ==> p[i] == '*'
    {
      pi := pi + 1;
    }
    return pi == |p|;
  }

  // ---------------------------------------------------------------- soundness

  lemma {:induction false} StarsMatchNothing(p: string, from: nat)
    requires from <= |p|
    ensures OnlyStars(p, from) <==> Matches(p[from..], "")
    decreases |p| - from
  {
    if from < |p| {
      StarsMatchNothing(p, from + 1);
      var rest := p[from..];
      assert rest[1..] == p[from + 1..];
      var none := "";
      assert none[0..] == none;
      if p[from] == '*' && Matches(rest, "") {
        var k: nat :| k <= |none| && Matches(rest[1..], none[k..]);
      }
    }
  }

  /** A `*` may stand for any number of the characters that follow. */
  lemma StarTakes(p: string, v: string, pi: nat, vi: nat, k: nat)
    requires pi < |p| && p[pi] == '*' && vi <= k <= |v|
    requires Matches(p[pi + 1..], v[k..])
    ensures Matches(p[pi..], v[vi..])
  {
    var rest := p[pi..];
    assert rest[1..] == p[pi + 1..];
    assert v[vi..][k - vi..] == v[k..];
  }

  lemma EmptyPattern(p: string, w: string)
    ensures Matches(p[|p|..], w) <==> w == ""
  {
    assert p[|p|..] == "";
  }

  /** And a match of a pattern that starts with `*` says how many it stands for. */
  lemma StarTook(p: string, v: string, pi: nat, vi: nat) returns (k: nat)
    requires pi < |p| && p[pi] == '*' && vi <= |v|
    requires Matches(p[pi..], v[vi..])
    ensures vi <= k <= |v| && Matches(p[pi + 1..], v[k..])
  {
    var w := v[vi..];
    assert p[pi..][1..] == p[pi + 1..];
    var j: nat :| j <= |w| && Matches(p[pi + 1..], w[j..]);
    k := vi + j;
    assert w[j..] == v[k..];
  }

  lemma OneTakes(p: string, v: string, pi: nat, vi: nat)
    requires pi < |p| && vi < |v| && p[pi] != '*'
    ensures Matches(p[pi..], v[vi..]) <==> (p[pi] == '?' || p[pi] == v[vi]) && Matches(p[pi + 1..], v[vi + 1..])
  {
    assert p[pi..][1..] == p[pi + 1..];
    assert v[vi..][1..] == v[vi + 1..];
  }

  /** A match that uses the backtracking point: the last star swallows more than it has so far. */
  ghost predicate Later(p: string, v: string, star: Star)
    requires star.Star? ==> star.pi < |p|
  {
    star.Star? && exists k: nat :: star.vi < k <= |v| && Matches(p[star.pi + 1..], v[k..])
  }

  lemma {:induction false} RunIsSound(p: string, v: string, pi: nat, vi: nat, star: Star)
    requires Fits(p, v, pi, vi, star) && (star.Star? ==> p[star.pi] == '*')
    requires Run(p, v, pi, vi, star)
    ensures Matches(p[pi..], v[vi..]) || Later(p, v, star)
    decreases if star.Star? then |v| - star.vi else |v| + 1, |v| - vi, |p| - pi
  {
    hide Matches;
    if vi == |v| {
      StarsMatchNothing(p, pi);
      assert v[vi..] == "";
    } else if pi < |p| && (p[pi] == v[vi] || p[pi] == '?') {
      RunIsSound(p, v, pi + 1, vi + 1, star);
      if !Later(p, v, star) {
        if p[pi] == '*' {
          StarTakes(p, v, pi, vi, vi + 1);
        } else {
          OneTakes(p, v, pi, vi);
        }
      }
    } else if pi < |p| && p[pi] == '*' {
      RunIsSound(p, v, pi + 1, vi, Star(pi, vi));
      var k: nat :| vi <= k <= |v| && Matches(p[pi + 1..], v[k..]);
      StarTakes(p, v, pi, vi, k);
    } else {
      RunIsSound(p, v, star.pi + 1, star.vi + 1, Star(star.pi, star.vi + 1));
      var k: nat :| star.vi < k <= |v| && Matches(p[star.pi + 1..], v[k..]);
    }
  }

  /** What `glob_match` accepts, the pattern matches. */
  lemma Sound(p: string, v: string)
    ensures GlobMatches(p, v) ==> Matches(p, v)
  {
    if GlobMatches(p, v) {
      RunIsSound(p, v, 0, 0, NoStar);
      assert p[0..] == p && v[0..] == v;
    }
  }

  // ---------------------------------------------------------------- completeness

  /** Between the last star and the current position the pattern has matched character by character. */
  ghost predicate Aligned(p: string, pi: nat, vi: nat, star: Star)
    requires pi <= |p| && (star.Star? ==> star.pi < pi)
  {
    star.Star? ==>
      && p[star.pi] == '*'
      && vi - star.vi == pi - star.pi - 1
      && forall i :: star.pi < i < pi ==> p[i] != '*'
  }

  /** Star-free pattern text takes exactly as many characters as it has. */
  lemma {:induction false} LiteralSpan(p: string, from: nat, n: nat, w: string)
    requires from + n <= |p| && (forall i :: from <= i < from + n ==> p[i] != '*')
    requires Matches(p[from..], w)
    ensures n <= |w| && Matches(p[from + n..], w[n..])
    decreases n
  {
    if n > 0 {
      assert p[from..][1..] == p[from + 1..];
      LiteralSpan(p, from + 1, n - 1, w[1..]);
      assert w[1..][n - 1..] == w[n..];
    } else {
      assert w[0..] == w;
    }
  }

  /** Giving up an older star for a newer one loses no match: the newer one reaches all the older one did. */
  lemma NewerStarSuffices(p: string, v: string, pi: nat, vi: nat, star: Star)
    requires Fits(p, v, pi, vi, star) && pi < |p| && p[pi] == '*' && Aligned(p, pi, vi, star) && Later(p, v, star)
    ensures Matches(p[pi..], v[vi..])
  {
    hide Matches;
    var k: nat :| star.vi < k <= |v| && Matches(p[star.pi + 1..], v[k..]);
    var n := pi - star.pi - 1;
    LiteralSpan(p, star.pi + 1, n, v[k..]);
    assert v[k..][n..] == v[k + n..];
    var j := StarTook(p, v, pi, k + n);
    StarTakes(p, v, pi, vi, j);
  }

  lemma NoLaterAtEnd(p: string, v: string, pi: nat, star: Star)
    requires Fits(p, v, pi, |v|, star) && Aligned(p, pi, |v|, star)
    ensures !Later(p, v, star)
  {
    if Later(p, v, star) {
      var k: nat :| star.vi < k <= |v| && Matches(p[star.pi + 1..], v[k..]);
      LiteralSpan(p, star.pi + 1, pi - star.pi - 1, v[k..]);
    }
  }

  lemma {:induction false} RunIsComplete(p: string, v: string, pi: nat, vi: nat, star: Star)
    requires Fits(p, v, pi, vi, star) && Aligned(p, pi, vi, star) && '*' !in v
    requires Matches(p[pi..], v[vi..]) || Later(p, v, star)
    ensures Run(p, v, pi, vi, star)
    decreases if star.Star? then |v| - star.vi else |v| + 1, |v| - vi, |p| - pi
  {
    hide Matches;
    if vi == |v| {
      NoLaterAtEnd(p, v, pi, star);
      StarsMatchNothing(p, pi);
      assert v[vi..] == "";
    } else if pi < |p| && (p[pi] == v[vi] || p[pi] == '?') {
      assert v[vi] in v;
      OneTakes(p, v, pi, vi);
      RunIsComplete(p, v, pi + 1, vi + 1, star);
    } else if pi < |p| && p[pi] == '*' {
      if !Matches(p[pi..], v[vi..]) {
        NewerStarSuffices(p, v, pi, vi, star);
      }
      var k := StarTook(p, v, pi, vi);
      RunIsComplete(p, v, pi + 1, vi, Star(pi, vi));
    } else {
      if pi < |p| {
        OneTakes(p, v, pi, vi);
      } else {
        EmptyPattern(p, v[vi..]);
      }
      assert Later(p, v, star);
      var k: nat :| star.vi < k <= |v| && Matches(p[star.pi + 1..], v[k..]);
      RunIsComplete(p, v, star.pi + 1, star.vi + 1, Star(star.pi, star.vi + 1));
    }
  }

  /** On a value without `*`, everything the pattern matches is accepted. */
  lemma Complete(p: string, v: string)
    requires '*' !in v
    ensures Matches(p, v) ==> GlobMatches(p, v)
  {
    if Matches(p, v) {
      assert p[0..] == p && v[0..] == v;
      RunIsComplete(p, v, 0, 0, NoStar);
    }
  }

  // ---------------------------------------------------------------- exactly when it is right

  function Questions(n: nat): (q: string)
    ensures |q| == n && forall i :: 0 <= i < n ==> q[i] == '?'
  {
    seq(n, _ => '?')
  }

  /** As long as pattern and value agree, the loop walks along both without setting a star. */
  lemma {:induction false} WalksAlong(p: string, v: string, i: nat, n: nat)
    requires i <= n && n <= |v| && n <= |p|
    requires forall j :: i <= j < n ==> p[j] == v[j] || p[j] == '?'
    ensures Run(p, v, i, i, NoStar) == Run(p, v, n, n, NoStar)
    decreases n - i
  {
    if i < n {
      WalksAlong(p, v, i + 1, n);
    }
  }

  /** A star at the end of the pattern swallows whatever is left, stars included. */
  lemma {:induction false} FinalStarSwallows(p: string, v: string, vi: nat)
    requires p != "" && p[|p| - 1] == '*' && vi <= |v|
    ensures Run(p, v, |p|, vi, Star(|p| - 1, vi))
    decreases |v| - vi
  {
    if vi < |v| {
      FinalStarSwallows(p, v, vi + 1);
    }
  }

  lemma {:induction false} SelfMatch(a: string, p: string, w: string)
    requires '*' !in a && Matches(p, w)
    ensures Matches(a + p, a + w)
    decreases |a|
  {
    if a == "" {
      assert a + p == p && a + w == w;
    } else {
      assert a[0] in a;
      assert forall c :: c in a[1..] ==> c in a;
      SelfMatch(a[1..], p, w);
      assert (a + p)[1..] == a[1..] + p && (a + w)[1..] == a[1..] + w;
    }
  }

  lemma {:induction false} QuestionsMatch(w: string)
    ensures Matches(Questions(|w|), w)
    decreases |w|
  {
    if w != "" {
      QuestionsMatch(w[1..]);
      assert Questions(|w|)[1..] == Questions(|w| - 1);
    }
  }

  /** For v = a * b, the pattern a * ?...? with one `?` more than b is long matches v and is rejected. */
  lemma RejectsAMatch(a: string, b: string)
    requires '*' !in a
    ensures var p, v := a + "*" + Questions(|b| + 1), a + "*" + b;
            Matches(p, v) && !GlobMatches(p, v)
  {
    var qs := Questions(|b| + 1);
    var p, v := a + "*" + qs, a + "*" + b;
    var w := "*" + b;
    QuestionsMatch(w);
    assert w[0..] == w && ("*" + qs)[1..] == qs;
    assert Matches("*" + qs, w);
    SelfMatch(a, "*" + qs, w);
    assert p == a + ("*" + qs) && v == a + w;
    WalksAlong(p, v, 0, |v|);
    assert p[|v|] == '?';
  }

  /**
   The literal test comes before the star test, so a `*` in the value is taken literally. The matcher
   decides every pattern correctly on a value if and only if the value contains no `*`.
   */
  lemma CorrectOnValueIff(v: string)
    ensures (forall p :: GlobMatches(p, v) <==> Matches(p, v)) <==> '*' !in v
  {
    if '*' in v {
      var i := FirstStar(v);
      var a, b := v[..i], v[i + 1..];
      assert v == a + "*" + b;
      RejectsAMatch(a, b);
    } else {
      forall p
        ensures GlobMatches(p, v) <==> Matches(p, v)
      {
        Sound(p, v);
        Complete(p, v);
      }
    }
  }

  lemma {:induction false} FirstStar(v: string) returns (i: nat)
    requires '*' in v
    ensures i < |v| && v[i] == '*' && '*' !in v[..i]
    decreases |v|
  {
    if v[0] == '*' {
      i := 0;
    } else {
      assert '*' in v[1..];
      var j := FirstStar(v[1..]);
      i := j + 1;
      assert v[..i] == [v[0]] + v[1..][..j];
    }
  }
}
