/** Lists of vector ids: sorting, and the two merges of include/filter/filter_utils.h. */
module SortedIds {

  import opened Lists

  /** Ascending, each id once. */
  ghost predicate Strict(s: seq<nat>) {
    forall i, j | 0 <= i < j < |s| :: s[i] < s[j]
  }

  /** A strictly ascending list is determined by its members. */
  lemma {:induction false} StrictUnique(a: seq<nat>, b: seq<nat>)
    requires Strict(a) && Strict(b) && forall x :: x in a <==> x in b
    ensures a == b
    decreases |a|
  {
    assert (a != [] ==> a[0] in b) && (b != [] ==> b[0] in a);
    if a != [] {
      var m, n := |a| - 1, |b| - 1;
      assert a[m] in b && b[n] in a;
      assert a[m] == b[n];
      var c, d := a[..m], b[..n];
      forall x ensures x in c <==> x in d {
        assert x in c <==> x in a && x != a[m];
        assert x in d <==> x in b && x != b[n];
      }
      StrictUnique(c, d);
    }
  }

  /** Putting two lists one behind the other. */
  lemma Join(a: seq<nat>, b: seq<nat>)
    requires Strict(a) && Strict(b) && (a != [] && b != [] ==> a[|a| - 1] < b[0])
    ensures Strict(a + b) && forall x :: x in a + b <==> x in a || x in b
  {
    var c := a + b;
    forall i, j | 0 <= i < j < |c| ensures c[i] < c[j] {
      if i < |a| <= j {
        assert a[i] <= a[|a| - 1] < b[0] <= b[j - |a|];
      }
    }
  }

  /** Puts x in its place. */
  method Place(s: seq<nat>, x: nat) returns (r: seq<nat>)
    requires Strict(s) && x !in s
    ensures Strict(r) && forall y :: y in r <==> y in s || y == x
  {
    var i := |s|;
    while i > 0 && s[i - 1] > x
      invariant 0 <= i <= |s| && (i < |s| ==> s[i] > x)
    {
      i := i - 1;
    }
    assert i > 0 ==> s[i - 1] != x;
    Inserted(s, x, i);
    r := s[..i] + [x] + s[i..];
  }

  lemma Inserted(s: seq<nat>, x: nat, i: nat)
    requires Strict(s) && i <= |s| && (i > 0 ==> s[i - 1] < x) && (i < |s| ==> x < s[i])
    ensures var r := s[..i] + [x] + s[i..]; Strict(r) && forall y :: y in r <==> y in s || y == x
  {
    Between(s[..i], x, s[i..]);
    assert s == s[..i] + s[i..];
  }

  lemma Between(a: seq<nat>, x: nat, b: seq<nat>)
    requires Strict(a) && Strict(b) && (a != [] ==> a[|a| - 1] < x) && (b != [] ==> x < b[0])
    ensures Strict(a + [x] + b) && forall y :: y in a + [x] + b <==> y in a + b || y == x
  {
    Join(a, [x]);
    Join(a + [x], b);
  }

  /** Sorts distinct ids. */
  method Sort(raw: seq<nat>) returns (r: seq<nat>)
    requires Distinct(raw)
    ensures Strict(r) && forall x :: x in r <==> x in raw
  {
    r := [];
    for i := 0 to |raw|
      invariant Strict(r) && forall x :: x in r <==> x in raw[..i]
    {
      assert raw[..i + 1] == raw[..i] + [raw[i]];
      assert raw[i] !in raw[..i];
      r := Place(r, raw[i]);
    }
    assert raw[..|raw|] == raw;
  }

  /** Sorts ids and keeps one of each. */
  method SortUnique(raw: seq<nat>) returns (r: seq<nat>)
    ensures Strict(r) && forall x :: x in r <==> x in raw
  {
    r := [];
    for i := 0 to |raw|
      invariant Strict(r) && forall x :: x in r <==> x in raw[..i]
    {
      assert raw[..i + 1] == raw[..i] + [raw[i]];
      if raw[i] !in r {
        r := Place(r, raw[i]);
      }
    }
    assert raw[..|raw|] == raw;
  }

  /** The union of two lists, each id once. */
  method OrSortedUnique(a: seq<nat>, b: seq<nat>) returns (r: seq<nat>)
    requires Strict(a) && Strict(b)
    ensures Strict(r) && forall x :: x in r <==> x in a || x in b
  {
    r := [];
    var i, j := 0, 0;
    while i < |a| && j < |b|
      invariant i <= |a| && j <= |b| && Below(r, a, i) && Below(r, b, j)
      invariant Strict(r) && forall x :: x in r <==> x in a[..i] || x in b[..j]
    {
      assert a[..i + 1] == a[..i] + [a[i]] && b[..j + 1] == b[..j] + [b[j]];
      Join(r, [if a[i] < b[j] then a[i] else b[j]]);
      if a[i] < b[j] {
        r, i := r + [a[i]], i + 1;
      } else if b[j] < a[i] {
        r, j := r + [b[j]], j + 1;
      } else {
        r, i, j := r + [a[i]], i + 1, j + 1;
      }
    }
    Rest(r, a, i, b, j);
    r := r + a[i..] + b[j..];
  }

  /** All of r comes before the rest of s. */
  ghost predicate Below(r: seq<nat>, s: seq<nat>, i: nat) {
    i <= |s| && (r != [] && i < |s| ==> r[|r| - 1] < s[i])
  }

  lemma Rest(r: seq<nat>, a: seq<nat>, i: nat, b: seq<nat>, j: nat)
    requires Strict(a) && Strict(b) && Strict(r) && Below(r, a, i) && Below(r, b, j) && (i == |a| || j == |b|)
    requires forall x :: x in r <==> x in a[..i] || x in b[..j]
    ensures var t := r + a[i..] + b[j..]; Strict(t) && forall x :: x in t <==> x in a || x in b
  {
    assert a == a[..i] + a[i..] && b == b[..j] + b[j..];
    Join(r, a[i..]);
    Join(r + a[i..], b[j..]);
  }

  /** r is what the first i of a and the first j of b have in common, and the rests lie behind. */
  ghost predicate Common(a: seq<nat>, b: seq<nat>, i: nat, j: nat, r: seq<nat>) {
    && i <= |a| && j <= |b| && Below(r, a, i) && Below(r, b, j) && Strict(r)
    && (forall x :: x in r <==> x in a[..i] && x in b[..j])
    && (i > 0 && j < |b| ==> a[i - 1] < b[j]) && (j > 0 && i < |a| ==> b[j - 1] < a[i])
  }

  lemma CommonSkip(a: seq<nat>, b: seq<nat>, i: nat, j: nat, r: seq<nat>)
    requires Strict(a) && Strict(b) && Common(a, b, i, j, r) && i < |a| && j < |b| && a[i] < b[j]
    ensures Common(a, b, i + 1, j, r)
  {
    assert a[..i + 1] == a[..i] + [a[i]];
    assert a[i] !in b[..j];
  }

  lemma CommonTake(a: seq<nat>, b: seq<nat>, i: nat, j: nat, r: seq<nat>)
    requires Strict(a) && Strict(b) && Common(a, b, i, j, r) && i < |a| && j < |b| && a[i] == b[j]
    ensures Common(a, b, i + 1, j + 1, r + [a[i]])
  {
    assert a[..i + 1] == a[..i] + [a[i]] && b[..j + 1] == b[..j] + [b[j]];
    assert a[i] !in b[..j] && a[i] !in a[..i];
    Join(r, [a[i]]);
  }

  lemma CommonSwap(a: seq<nat>, b: seq<nat>, i: nat, j: nat, r: seq<nat>)
    requires Common(a, b, i, j, r)
    ensures Common(b, a, j, i, r)
  {
  }

  lemma CommonAll(a: seq<nat>, b: seq<nat>, i: nat, j: nat, r: seq<nat>)
    requires Strict(a) && Strict(b) && Common(a, b, i, j, r) && i == |a|
    ensures forall x :: x in r <==> x in a && x in b
  {
    assert a[..i] == a && b == b[..j] + b[j..];
    assert forall x | x in a :: x !in b[j..];
  }

  /** The ids in both lists. */
  method AndSortedUnique(a: seq<nat>, b: seq<nat>) returns (r: seq<nat>)
    requires Strict(a) && Strict(b)
    ensures Strict(r) && forall x :: x in r <==> x in a && x in b
  {
    r := [];
    var i, j := 0, 0;
    while i < |a| && j < |b|
      invariant Common(a, b, i, j, r)
      decreases |a| - i + |b| - j
    {
      if a[i] < b[j] {
        CommonSkip(a, b, i, j, r);
        i := i + 1;
      } else if b[j] < a[i] {
        CommonSwap(a, b, i, j, r);
        CommonSkip(b, a, j, i, r);
        CommonSwap(b, a, j + 1, i, r);
        j := j + 1;
      } else {
        CommonTake(a, b, i, j, r);
        r, i, j := r + [a[i]], i + 1, j + 1;
      }
    }
    if i == |a| {
      CommonAll(a, b, i, j, r);
    } else {
      CommonSwap(a, b, i, j, r);
      CommonAll(b, a, j, i, r);
    }
  }
}
