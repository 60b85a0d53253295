/** The LIKE predicate of include/filter/attribute.h: a two-pointer scan that remembers only the
    last `%`, against the recursive meaning of the pattern. */
module LikeMatch {

  /** Section 8.5 (like predicate) of ISO/IEC 9075-2 without an escape character: `%` stands for
      any string, `_` for any one character, anything else for itself. */
  ghost predicate Matches(s: string, p: string)
    decreases |p|, |s|
  {
    if p == "" then s == ""
    else if p[0] == '%' then Matches(s, p[1..]) || (s != "" && Matches(s[1..], p))
    else s != "" && (p[0] == '_' || p[0] == s[0]) && Matches(s[1..], p[1..])
  }

  predicate PercentFree(s: string) {
    '%' !in s
  }

  /** The remembered position after the last `%`, and where in the subject it was met. */
  datatype Star = NoStar | Star(next: nat, mark: nat)

  predicate Agrees(s: string, p: string, i: nat, j: nat)
    requires i < |s|
  {
    j < |p| && (p[j] == '_' || p[j] == s[i])
  }

  /** A scan position the loop can be in. */
  predicate Position(s: string, p: string, i: nat, j: nat, star: Star) {
    && i <= |s| && j <= |p|
    && (star.Star? ==> star.next <= j && star.mark <= i)
  }

  /** The loop, as a tail-recursive function of its four variables. */
  function Scan(s: string, p: string, i: nat, j: nat, star: Star): bool
    requires Position(s, p, i, j, star)
    decreases |p| - (if star.Star? then star.next else 0), |s| - (if star.Star? then star.mark else 0), star.NoStar?, |s| - i
  {
    if i == |s| then Trailing(p, j)
    else if Agrees(s, p, i, j) then Scan(s, p, i + 1, j + 1, star)
    else if j < |p| && p[j] == '%' then Scan(s, p, i, j + 1, Star(j + 1, i))
    else if star.Star? then Scan(s, p, star.mark + 1, star.next, Star(star.next, star.mark + 1))
    else false
  }

  /** Only `%` is left of the pattern. */
  predicate Trailing(p: string, j: nat)
    requires j <= |p|
    decreases |p| - j
  {
    j == |p| || (p[j] == '%' && Trailing(p, j + 1))
  }

  /** The scan with its two loops. */
  method LikeMatch(s: string, p: string) returns (r: bool)
    ensures r == Scan(s, p, 0, 0, NoStar)
    ensures PercentFree(s) ==> r == Matches(s, p)
  {
    if PercentFree(s) {
      ScanIsMatches(s, p);
    }
    var i, j, star, mark := 0, 0, -1, 0;
    ghost var found := NoStar;
    while i < |s|
      invariant 0 <= i <= |s| && 0 <= j <= |p| && -1 <= star < j && 0 <= mark <= i
      invariant star == -1 ==> mark == 0
      invariant found == if star == -1 then NoStar else Star(star + 1, mark)
      invariant Scan(s, p, 0, 0, NoStar) == Scan(s, p, i, j, found)
      decreases |p| - star, |s| - mark, |s| - i
    {
      if j < |p| && (p[j] == '_' || p[j] == s[i]) {
        i, j := i + 1, j + 1;
      } else if j < |p| && p[j] == '%' {
        star, mark := j, i;
        j := j + 1;
        found := Star(star + 1, mark);
      } else if star != -1 {
        j, mark := star + 1, mark + 1;
        i := mark;
        found := Star(star + 1, mark);
      } else {
        return false;
      }
    }
    while j < |p| && p[j] == '%'
      invariant 0 <= j <= |p|
      invariant Scan(s, p, 0, 0, NoStar) == Trailing(p, j)
    {
      j := j + 1;
    }
    r := j == |p|;
  }

  // ----- the scan is exact on subjects without a percent sign -----

  lemma {:induction false} TrailingIsMatches(p: string, j: nat)
    requires j <= |p|
    ensures Trailing(p, j) <==> Matches("", p[j..])
    decreases |p| - j
  {
    if j < |p| {
      TrailingIsMatches(p, j + 1);
      assert p[j..][0] == p[j] && p[j..][1..] == p[j + 1..];
    }
  }

  /** Some later starting point of the rest of the pattern after the remembered `%` works. */
  ghost predicate LaterStart(s: string, p: string, star: Star) {
    star.Star? && star.next <= |p| && exists k :: star.mark < k <= |s| && Matches(s[k..], p[star.next..])
  }

  /** A match after `%` is a match from some later point on. */
  lemma {:induction false} PercentMatches(s: string, p: string, i: nat, j: nat)
    requires i <= |s| && j < |p| && p[j] == '%'
    ensures Matches(s[i..], p[j..]) <==> exists k :: i <= k <= |s| && Matches(s[k..], p[j + 1..])
    decreases |s| - i
  {
    assert p[j..][0] == '%' && p[j..][1..] == p[j + 1..];
    if i < |s| {
      assert s[i..][1..] == s[i + 1..];
      PercentMatches(s, p, i + 1, j);
    }
  }

  /** One agreeing character. */
  lemma StepMatches(s: string, p: string, i: nat, j: nat)
    requires i <= |s| && j < |p| && p[j] != '%'
    ensures Matches(s[i..], p[j..]) <==> i < |s| && Agrees(s, p, i, j) && Matches(s[i + 1..], p[j + 1..])
  {
    assert p[j..][0] == p[j] && p[j..][1..] == p[j + 1..];
    if i < |s| {
      assert s[i..][0] == s[i] && s[i..][1..] == s[i + 1..];
    }
  }

  /** Between the remembered `%` and the current position the pattern has no `%`: it took one
      character of the subject for each of its own. */
  ghost predicate InStep(p: string, i: nat, j: nat, star: Star) {
    star.Star? ==>
      && star.next <= j <= |p| && star.mark <= i
      && j - star.next == i - star.mark
      && forall m | star.next <= m < j :: p[m] != '%'
  }

  /** A fixed stretch of pattern uses up as many characters as it has. */
  lemma {:induction false} StretchMatches(s: string, p: string, k: nat, from: nat, to: nat)
    requires k <= |s| && from <= to <= |p| && (forall m | from <= m < to :: p[m] != '%')
    requires Matches(s[k..], p[from..])
    ensures k + (to - from) <= |s| && Matches(s[k + (to - from)..], p[to..])
    decreases |p| - from
  {
    if from < to {
      StepMatches(s, p, k, from);
      StretchMatches(s, p, k + 1, from + 1, to);
    }
  }

  /** A second `%` makes every later start of the first one unnecessary. */
  lemma NewStarSuffices(s: string, p: string, i: nat, j: nat, star: Star)
    requires Position(s, p, i, j, star) && InStep(p, i, j, star) && j < |p| && p[j] == '%'
    requires LaterStart(s, p, star)
    ensures Matches(s[i..], p[j..])
  {
    var k :| star.mark < k <= |s| && Matches(s[k..], p[star.next..]);
    StretchMatches(s, p, k, star.next, j);
    var k' := k + (j - star.next);
    PercentMatches(s, p, k', j);
    var m :| k' <= m <= |s| && Matches(s[m..], p[j + 1..]);
    PercentMatches(s, p, i, j);
  }

  lemma {:induction false} ScanSound(s: string, p: string, i: nat, j: nat, star: Star)
    requires PercentFree(s) && Position(s, p, i, j, star) && InStep(p, i, j, star)
    ensures Scan(s, p, i, j, star) <==> Matches(s[i..], p[j..]) || LaterStart(s, p, star)
    decreases |p| - (if star.Star? then star.next else 0), |s| - (if star.Star? then star.mark else 0), star.NoStar?, |s| - i
  {
    if i == |s| {
      TrailingIsMatches(p, j);
      assert s[i..] == "";
      NoLaterStart(s, p, j, star);
    } else if Agrees(s, p, i, j) {
      StepMatches(s, p, i, j);
      ScanSound(s, p, i + 1, j + 1, star);
    } else if j < |p| && p[j] == '%' {
      ScanSound(s, p, i, j + 1, Star(j + 1, i));
      PercentMatches(s, p, i, j);
      if LaterStart(s, p, star) {
        NewStarSuffices(s, p, i, j, star);
      }
    } else {
      if j < |p| {
        StepMatches(s, p, i, j);
      } else {
        assert p[j..] == "";
      }
      if star.Star? {
        ScanSound(s, p, star.mark + 1, star.next, Star(star.next, star.mark + 1));
      }
    }
  }

  /** At the end of the subject a later start would not leave enough characters. */
  lemma NoLaterStart(s: string, p: string, j: nat, star: Star)
    requires Position(s, p, |s|, j, star) && InStep(p, |s|, j, star)
    ensures !LaterStart(s, p, star)
  {
    if LaterStart(s, p, star) {
      var k :| star.mark < k <= |s| && Matches(s[k..], p[star.next..]);
      StretchMatches(s, p, k, star.next, j);
      assert false;
    }
  }

  /** Exactness, for every pattern. */
  lemma ScanIsMatches(s: string, p: string)
    requires PercentFree(s)
    ensures Scan(s, p, 0, 0, NoStar) == Matches(s, p)
  {
    ScanSound(s, p, 0, 0, NoStar);
    assert s[0..] == s && p[0..] == p;
  }

  // ----- and only on those -----

  lemma {:induction false} ScanLiteral(s: string, p: string, m: nat, k: nat)
    requires m <= k <= |s| && k <= |p| && forall i | m <= i < k :: p[i] == s[i]
    ensures Scan(s, p, m, m, NoStar) == Scan(s, p, k, k, NoStar)
    decreases |s| - m
  {
    if m < k {
      ScanLiteral(s, p, m + 1, k);
    }
  }

  lemma {:induction false} LiteralMatches(s: string, p: string, m: nat, k: nat)
    requires m <= k <= |s| && k <= |p| && forall i | m <= i < k :: p[i] == s[i] != '%'
    requires Matches(s[k..], p[k..])
    ensures Matches(s[m..], p[m..])
    decreases |s| - m
  {
    if m < k {
      LiteralMatches(s, p, m + 1, k);
      StepMatches(s, p, m, m);
    }
  }

  /** A percent sign in the subject is compared as a literal before it is tried as a wildcard, and
      then some pattern that should match is refused. */
  lemma PercentBreaks(s: string) returns (p: string)
    requires !PercentFree(s)
    ensures Matches(s, p) && !Scan(s, p, 0, 0, NoStar)
  {
    var k := FirstPercent(s);
    p := s[..k] + if k + 1 < |s| then "%" else "%_";
    ScanLiteral(s, p, 0, k + 1);
    PercentMatches(s, p, k, k);
    if k + 1 < |s| {
      assert s[|s|..] == "" && p[k + 1..] == "";
      assert Matches(s[|s|..], p[k + 1..]);
    } else {
      assert s[k..] == "%" && p[k + 1..] == "_";
      assert Matches(s[k..], p[k + 1..]);
    }
    LiteralMatches(s, p, 0, k);
    assert s[0..] == s && p[0..] == p;
  }

  function FirstPercent(s: string): (k: nat)
    requires !PercentFree(s)
    ensures k < |s| && s[k] == '%' && forall i | 0 <= i < k :: s[i] != '%'
  {
    if s[0] == '%' then 0 else 1 + FirstPercent(s[1..])
  }

  /** The scan decides LIKE for every pattern exactly when the subject has no percent sign. */
  lemma ExactIffPercentFree(s: string)
    ensures (forall p :: Scan(s, p, 0, 0, NoStar) == Matches(s, p)) <==> PercentFree(s)
  {
    if PercentFree(s) {
      forall p ensures Scan(s, p, 0, 0, NoStar) == Matches(s, p) {
        ScanIsMatches(s, p);
      }
    } else {
      var p := PercentBreaks(s);
    }
  }

  /** A literal matches itself alone. */
  lemma {:induction false} LiteralIs(s: string, p: string)
    requires '%' !in p && '_' !in p
    ensures Matches(s, p) <==> s == p
    decreases |p|
  {
    if p != "" {
      if s != "" {
        assert p[0] in p && forall c :: c in p[1..] ==> c in p;
        LiteralIs(s[1..], p[1..]);
        assert s == [s[0]] + s[1..] && p == [p[0]] + p[1..];
      } else {
        assert p[0] in p;
      }
    }
  }
}
