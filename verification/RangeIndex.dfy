/** The sorted range index of include/filter/attribute.h: a sorted file of (value, id) entries, a
    histogram that samples it, and a map of values inserted since. */
module RangeIndex {

  import opened Bounds
  import opened IdMaps
  import opened Remainders
  import opened Search
  import opened Lists
  import opened SortedIds

  datatype Entry = Entry(value: nat, id: nat)

  /** One key of the ordered map of pending inserts. */
  datatype Bucket = Bucket(value: nat, ids: seq<nat>)

  const HISTOGRAM_BUCKETS := 1000
  const WORDS_PER_SECTOR := 1024
  const DELTA_BYTES := 4 * 1024 * 1024

  // ----- entries -----

  predicate Before(a: Entry, b: Entry) {
    a.value < b.value || (a.value == b.value && a.id <= b.id)
  }

  ghost predicate Sorted(es: seq<Entry>) {
    forall i, j | 0 <= i < j < |es| :: Before(es[i], es[j])
  }

  /** The pending entries in the order of the map. */
  function Flat(delta: seq<Bucket>): seq<Entry> {
    if delta == [] then [] else Flat(delta[..|delta| - 1]) + Tagged(delta[|delta| - 1])
  }

  function Tagged(b: Bucket): (es: seq<Entry>)
    ensures |es| == |b.ids| && forall i | 0 <= i < |es| :: es[i] == Entry(b.value, b.ids[i])
  {
    seq(|b.ids|, i requires 0 <= i < |b.ids| => Entry(b.value, b.ids[i]))
  }

  function Ids(es: seq<Entry>): (ids: seq<nat>)
    ensures |ids| == |es| && forall i | 0 <= i < |es| :: ids[i] == es[i].id
  {
    seq(|es|, i requires 0 <= i < |es| => es[i].id)
  }

  /** The entries hold exactly the pairs of m, each once. */
  ghost predicate Represents(es: seq<Entry>, m: map<nat, nat>) {
    && Distinct(Ids(es))
    && (forall i | 0 <= i < |es| :: es[i].id in m && m[es[i].id] == es[i].value)
    && (forall id | id in m :: id in Ids(es))
  }

  /** The ids of the entries with a value in [l, r), in order. */
  ghost function Matching(es: seq<Entry>, l: nat, r: nat): seq<nat> {
    if es == [] then []
    else
      var last := es[|es| - 1];
      Matching(es[..|es| - 1], l, r) + if l <= last.value < r then [last.id] else []
  }

  lemma {:induction false} MatchingConcat(a: seq<Entry>, b: seq<Entry>, l: nat, r: nat)
    ensures Matching(a + b, l, r) == Matching(a, l, r) + Matching(b, l, r)
    decreases |b|
  {
    if b == [] {
      assert a + b == a;
    } else {
      var n := |b| - 1;
      assert (a + b)[..|a + b| - 1] == a + b[..n];
      MatchingConcat(a, b[..n], l, r);
    }
  }

  lemma {:induction false} MatchingAll(es: seq<Entry>, l: nat, r: nat)
    requires forall i | 0 <= i < |es| :: l <= es[i].value < r
    ensures Matching(es, l, r) == Ids(es)
    decreases |es|
  {
    if es != [] {
      MatchingAll(es[..|es| - 1], l, r);
    }
  }

  lemma {:induction false} MatchingNone(es: seq<Entry>, l: nat, r: nat)
    requires forall i | 0 <= i < |es| :: !(l <= es[i].value < r)
    ensures Matching(es, l, r) == []
    decreases |es|
  {
    if es != [] {
      MatchingNone(es[..|es| - 1], l, r);
    }
  }

  lemma {:induction false} MatchingIs(es: seq<Entry>, l: nat, r: nat, id: nat)
    ensures id in Matching(es, l, r) <==> exists i :: 0 <= i < |es| && es[i].id == id && l <= es[i].value < r
    decreases |es|
  {
    if es != [] {
      var n := |es| - 1;
      MatchingIs(es[..n], l, r, id);
      assert forall i | 0 <= i < n :: es[..n][i] == es[i];
      if id in Matching(es, l, r) && id !in Matching(es[..n], l, r) {
        assert es[n].id == id;
      }
    }
  }

  lemma {:induction false} MatchingDistinct(es: seq<Entry>, l: nat, r: nat)
    requires Distinct(Ids(es))
    ensures Distinct(Matching(es, l, r))
    decreases |es|
  {
    if es != [] {
      var n := |es| - 1;
      assert Ids(es[..n]) == Ids(es)[..n];
      MatchingDistinct(es[..n], l, r);
      MatchingIs(es[..n], l, r, es[n].id);
      assert forall i | 0 <= i < n :: es[i].id == Ids(es)[i] != Ids(es)[n];
    }
  }

  /** What is read off the entries is the answer over the map. */
  lemma MatchingAnswers(es: seq<Entry>, m: map<nat, nat>, l: nat, r: nat)
    requires Represents(es, m)
    ensures Distinct(Matching(es, l, r))
    ensures forall id :: id in Matching(es, l, r) <==> id in m && l <= m[id] < r
  {
    MatchingDistinct(es, l, r);
    forall id ensures id in Matching(es, l, r) <==> id in m && l <= m[id] < r {
      MatchingIs(es, l, r, id);
      if id in m {
        var i :| 0 <= i < |Ids(es)| && Ids(es)[i] == id;
        assert es[i].id == id;
      }
    }
  }

  // ----- searching -----

  ghost predicate Ascending(a: seq<nat>) {
    forall i, j | 0 <= i < j < |a| :: a[i] <= a[j]
  }

  /** k is the number of elements below x. */
  ghost predicate IsLowerBound(a: seq<nat>, x: nat, k: nat) {
    k <= |a| && (forall i | 0 <= i < k :: a[i] < x) && (forall i | k <= i < |a| :: a[i] >= x)
  }

  method LowerBound(a: seq<nat>, x: nat) returns (k: nat)
    requires Ascending(a)
    ensures IsLowerBound(a, x, k)
  {
    k := PartitionPoint(a, y => y < x);
  }

  function Values(es: seq<Entry>): (vs: seq<nat>)
    ensures |vs| == |es| && forall i | 0 <= i < |es| :: vs[i] == es[i].value
  {
    seq(|es|, i requires 0 <= i < |es| => es[i].value)
  }

  lemma ValuesAscend(es: seq<Entry>)
    requires Sorted(es)
    ensures Ascending(Values(es))
  {
  }

  /** The histogram holds the value of every stride-th entry. */
  ghost predicate Sampled(hist: seq<nat>, es: seq<Entry>, stride: nat) {
    && stride > 0 && |es| <= |hist| * stride
    && forall k | 0 <= k < |hist| :: SampleAt(hist, es, stride, k)
  }

  ghost predicate SampleAt(hist: seq<nat>, es: seq<Entry>, stride: nat, k: nat)
    requires k < |hist|
  {
    k * stride < |es| && hist[k] == es[k * stride].value
  }

  lemma HistAscends(hist: seq<nat>, es: seq<Entry>, stride: nat)
    requires Sampled(hist, es, stride) && Sorted(es)
    ensures Ascending(hist)
  {
    forall i, j | 0 <= i < j < |hist| ensures hist[i] <= hist[j] {
      assert SampleAt(hist, es, stride, i) && SampleAt(hist, es, stride, j);
      MulMonotone(i, j, stride);
    }
  }

  /** Everything before a lies below l and everything from b on lies at r or above. */
  ghost predicate IsWindow(es: seq<Entry>, a: nat, b: nat, l: nat, r: nat) {
    && a <= b <= |es|
    && (forall i | 0 <= i < a :: es[i].value < l) && (forall i | b <= i < |es| :: es[i].value >= r)
  }

  /** The samples around a range cut out a window of the file that contains the whole range. */
  lemma SampledWindow(hist: seq<nat>, es: seq<Entry>, stride: nat, l: nat, r: nat, k1: nat, k2: nat)
    requires Sampled(hist, es, stride) && Sorted(es) && l <= r
    requires IsLowerBound(hist, l, k1) && IsLowerBound(hist, r, k2)
    ensures var a := if k1 == 0 then 0 else (k1 - 1) * stride; var b := if k2 * stride < |es| then k2 * stride else |es|;
      IsWindow(es, a, b, l, r)
  {
    var a := if k1 == 0 then 0 else (k1 - 1) * stride;
    var b := if k2 * stride < |es| then k2 * stride else |es|;
    if k1 > 0 {
      assert SampleAt(hist, es, stride, k1 - 1);
      BoundsOrdered(hist, l, r, k1, k2);
      MulMonotone(k1 - 1, k2, stride);
    }
    if k2 * stride < |es| {
      if k2 == |hist| {
        assert false;
      }
      assert SampleAt(hist, es, stride, k2);
    }
  }

  /** The window has less than a stride too much at either end. */
  ghost predicate IsTight(es: seq<Entry>, stride: nat, a: nat, b: nat, l: nat, r: nat) {
    && (forall i | 0 <= i < |es| && a + stride <= i :: es[i].value >= l)
    && (forall i | 0 <= i < |es| && i + stride <= b :: es[i].value < r)
  }

  lemma SampledTight(hist: seq<nat>, es: seq<Entry>, stride: nat, l: nat, r: nat, k1: nat, k2: nat)
    requires Sampled(hist, es, stride) && Sorted(es)
    requires IsLowerBound(hist, l, k1) && IsLowerBound(hist, r, k2)
    ensures IsTight(es, stride, if k1 == 0 then 0 else (k1 - 1) * stride, k2 * stride, l, r)
  {
    if k1 < |hist| {
      assert SampleAt(hist, es, stride, k1);
      assert k1 > 0 ==> (k1 - 1) * stride + stride == k1 * stride;
    }
    if k2 > 0 {
      assert SampleAt(hist, es, stride, k2 - 1);
      assert (k2 - 1) * stride + stride == k2 * stride;
    }
  }

  lemma BoundsOrdered(a: seq<nat>, x: nat, y: nat, i: nat, j: nat)
    requires IsLowerBound(a, x, i) && IsLowerBound(a, y, j) && x <= y
    ensures i <= j
  {
    assert j == |a| || a[j] >= y;
  }

  lemma MatchingSplit(es: seq<Entry>, a: nat, b: nat, l: nat, r: nat)
    requires a <= b <= |es|
    ensures Matching(es, l, r) == Matching(es[..a], l, r) + Matching(es[a..b], l, r) + Matching(es[b..], l, r)
  {
    MatchingConcat(es[..a], es[a..b], l, r);
    MatchingConcat(es[..a] + es[a..b], es[b..], l, r);
    assert es == es[..a] + es[a..b] + es[b..];
  }

  /** Within a window, two more searches find the range exactly. */
  lemma WindowMatches(es: seq<Entry>, a: nat, b: nat, l: nat, r: nat, s: nat, e: nat)
    requires Sorted(es) && l <= r && IsWindow(es, a, b, l, r)
    requires IsLowerBound(Values(es[a..b]), l, s) && IsLowerBound(Values(es[a..b]), r, e)
    ensures s <= e <= b - a && Matching(es, l, r) == Ids(es[a..b][s..e])
  {
    var w := es[a..b];
    BoundsOrdered(Values(w), l, r, s, e);
    InnerMatches(w, s, e, l, r);
    MatchingSplit(w, s, e, l, r);
    WindowOutside(es, a, b, l, r);
    MatchingSplit(es, a, b, l, r);
  }

  lemma WindowOutside(es: seq<Entry>, a: nat, b: nat, l: nat, r: nat)
    requires IsWindow(es, a, b, l, r)
    ensures Matching(es[..a], l, r) == [] && Matching(es[b..], l, r) == []
  {
    MatchingNone(es[..a], l, r);
    MatchingNone(es[b..], l, r);
  }

  lemma InnerMatches(w: seq<Entry>, s: nat, e: nat, l: nat, r: nat)
    requires s <= e <= |w| && IsLowerBound(Values(w), l, s) && IsLowerBound(Values(w), r, e)
    ensures Matching(w[..s], l, r) == [] && Matching(w[s..e], l, r) == Ids(w[s..e]) && Matching(w[e..], l, r) == []
  {
    var vs := Values(w);
    assert forall i | 0 <= i < |w| :: vs[i] == w[i].value;
    MatchingNone(w[..s], l, r);
    MatchingAll(w[s..e], l, r);
    MatchingNone(w[e..], l, r);
  }

  // ----- the pending inserts -----

  function Keys(delta: seq<Bucket>): (vs: seq<nat>)
    ensures |vs| == |delta| && forall i | 0 <= i < |delta| :: vs[i] == delta[i].value
  {
    seq(|delta|, i requires 0 <= i < |delta| => delta[i].value)
  }

  /** What the first i keys add to an answer. */
  lemma FlatNext(delta: seq<Bucket>, i: nat, l: nat, r: nat)
    requires i < |delta|
    ensures Matching(Flat(delta[..i + 1]), l, r)
         == Matching(Flat(delta[..i]), l, r) + if l <= delta[i].value < r then delta[i].ids else []
  {
    FlatSnoc(delta, i);
    MatchingConcat(Flat(delta[..i]), Tagged(delta[i]), l, r);
    TaggedMatching(delta[i], l, r);
  }

  lemma FlatSnoc(delta: seq<Bucket>, i: nat)
    requires i < |delta|
    ensures Flat(delta[..i + 1]) == Flat(delta[..i]) + Tagged(delta[i])
  {
    var d := delta[..i + 1];
    assert d[..|d| - 1] == delta[..i] && d[i] == delta[i];
  }

  lemma TaggedMatching(b: Bucket, l: nat, r: nat)
    ensures Matching(Tagged(b), l, r) == if l <= b.value < r then b.ids else []
  {
    var es := Tagged(b);
    if l <= b.value < r {
      MatchingAll(es, l, r);
      assert Ids(es) == b.ids;
    } else {
      MatchingNone(es, l, r);
    }
  }

  lemma {:induction false} FlatNone(delta: seq<Bucket>, lo: nat, hi: nat, l: nat, r: nat)
    requires lo <= hi <= |delta| && forall i | lo <= i < hi :: !(l <= delta[i].value < r)
    ensures Matching(Flat(delta[..hi]), l, r) == Matching(Flat(delta[..lo]), l, r)
    decreases hi
  {
    if lo < hi {
      FlatNone(delta, lo, hi - 1, l, r);
      FlatNext(delta, hi - 1, l, r);
    }
  }

  // ----- inserting -----

  /** Which entries there are, in any order. */
  ghost predicate Holds(es: seq<Entry>, m: map<nat, nat>) {
    forall e :: e in es <==> e.id in m && m[e.id] == e.value
  }

  lemma RepresentsIff(es: seq<Entry>, m: map<nat, nat>)
    ensures Represents(es, m) <==> Distinct(Ids(es)) && Holds(es, m)
  {
    var ids := Ids(es);
    if Represents(es, m) {
      forall e: Entry | e.id in m && m[e.id] == e.value ensures e in es {
        var i :| 0 <= i < |ids| && ids[i] == e.id;
        assert es[i] == e;
      }
    }
    if Holds(es, m) {
      forall i | 0 <= i < |es| ensures es[i].id in m && m[es[i].id] == es[i].value {
        assert es[i] in es;
      }
      forall id | id in m ensures id in ids {
        var e := Entry(m[id], id);
        assert e in es;
        var i :| 0 <= i < |es| && es[i] == e;
        assert ids[i] == id;
      }
    }
  }

  lemma {:induction false} FlatConcat(a: seq<Bucket>, b: seq<Bucket>)
    ensures Flat(a + b) == Flat(a) + Flat(b)
    decreases |b|
  {
    if b == [] {
      assert a + b == a;
    } else {
      var n := |b| - 1;
      assert (a + b)[..|a + b| - 1] == a + b[..n];
      FlatConcat(a, b[..n]);
      Regrouped(Flat(a), Flat(b[..n]), [], Tagged(b[n]));
    }
  }

  lemma FlatAround(a: seq<Bucket>, b: Bucket, c: seq<Bucket>)
    ensures Flat(a + [b] + c) == Flat(a) + Tagged(b) + Flat(c)
  {
    FlatConcat(a + [b], c);
    FlatConcat(a, [b]);
    assert Flat([b]) == Tagged(b) by {
      assert [b][..0] == [];
    }
  }

  /** One more entry, wherever it goes. */
  lemma RepresentsMore(a: seq<Entry>, b: seq<Entry>, m: map<nat, nat>, e: Entry)
    requires Represents(a + b, m) && e.id !in m
    ensures Represents(a + [e] + b, m[e.id := e.value])
  {
    RepresentsIff(a + b, m);
    DistinctIdsMore(a, b, m, e);
    HoldsMore(a, b, m, e);
    RepresentsIff(a + [e] + b, m[e.id := e.value]);
  }

  lemma HoldsMore(a: seq<Entry>, b: seq<Entry>, m: map<nat, nat>, e: Entry)
    requires Holds(a + b, m) && e.id !in m
    ensures Holds(a + [e] + b, m[e.id := e.value])
  {
    assert forall x :: x in a + [e] + b <==> x in a + b || x == e;
  }

  lemma DistinctIdsMore(a: seq<Entry>, b: seq<Entry>, m: map<nat, nat>, e: Entry)
    requires Represents(a + b, m) && e.id !in m
    ensures Distinct(Ids(a + [e] + b))
  {
    var was := a + b;
    assert Ids(was) == Ids(a) + Ids(b) && Ids(a + [e] + b) == Ids(a) + [e.id] + Ids(b);
    assert forall i | 0 <= i < |was| :: Ids(was)[i] == was[i].id && was[i].id in m;
    DistinctMore(Ids(a), Ids(b), e.id);
  }

  lemma DistinctMore(a: seq<nat>, b: seq<nat>, x: nat)
    requires Distinct(a + b) && x !in a + b
    ensures Distinct(a + [x] + b)
  {
    var was, now := a + b, a + [x] + b;
    assert forall i | 0 <= i < |a| :: now[i] == was[i];
    assert forall i | |a| < i < |now| :: now[i] == was[i - 1];
  }

  // ----- merging -----

  /** An entry under an id map; an empty map stands for the identity, a missing id is dropped. */
  function Mapped(es: seq<Entry>, idMap: map<nat, nat>): seq<Entry> {
    if es == [] then []
    else Mapped(es[..|es| - 1], idMap) + MappedOne(es[|es| - 1], idMap)
  }

  function MappedOne(e: Entry, idMap: map<nat, nat>): seq<Entry> {
    if idMap == map[] then [e] else if e.id in idMap then [Entry(e.value, idMap[e.id])] else []
  }

  lemma {:induction false} MappedConcat(a: seq<Entry>, b: seq<Entry>, idMap: map<nat, nat>)
    ensures Mapped(a + b, idMap) == Mapped(a, idMap) + Mapped(b, idMap)
    decreases |b|
  {
    if b == [] {
      assert a + b == a;
    } else {
      var n := |b| - 1;
      assert (a + b)[..|a + b| - 1] == a + b[..n];
      MappedConcat(a, b[..n], idMap);
    }
  }

  lemma {:induction false} MappedIs(es: seq<Entry>, idMap: map<nat, nat>, x: Entry)
    requires idMap != map[]
    ensures x in Mapped(es, idMap) <==> exists e :: e in es && e.id in idMap && x == Entry(e.value, idMap[e.id])
    decreases |es|
  {
    if es != [] {
      var n := |es| - 1;
      MappedIs(es[..n], idMap, x);
      assert forall e :: e in es <==> e in es[..n] || e == es[n] by {
        assert es == es[..n] + [es[n]];
      }
      if x in Mapped(es, idMap) && x !in Mapped(es[..n], idMap) {
        assert x in MappedOne(es[n], idMap) && es[n] in es;
      }
    }
  }

  lemma {:induction false} MappedSame(es: seq<Entry>)
    ensures Mapped(es, map[]) == es
    decreases |es|
  {
    if es != [] {
      MappedSame(es[..|es| - 1]);
    }
  }

  lemma {:induction false} MappedDistinct(es: seq<Entry>, idMap: map<nat, nat>)
    requires idMap != map[] && Injective(idMap) && Distinct(Ids(es))
    ensures Distinct(Ids(Mapped(es, idMap)))
    decreases |es|
  {
    if es != [] {
      var n := |es| - 1;
      assert Ids(es)[..n] == Ids(es[..n]);
      MappedDistinct(es[..n], idMap);
      var front, last := Mapped(es[..n], idMap), MappedOne(es[n], idMap);
      assert Ids(front + last) == Ids(front) + Ids(last);
      forall i | 0 <= i < |front| && last != [] ensures front[i].id != last[0].id {
        LastIsNew(es, idMap, front[i]);
      }
    }
  }

  /** The last entry gets another new id than those before it. */
  lemma LastIsNew(es: seq<Entry>, idMap: map<nat, nat>, x: Entry)
    requires idMap != map[] && Injective(idMap) && Distinct(Ids(es)) && es != []
    requires x in Mapped(es[..|es| - 1], idMap) && MappedOne(es[|es| - 1], idMap) != []
    ensures x.id != MappedOne(es[|es| - 1], idMap)[0].id
  {
    var n := |es| - 1;
    MappedIs(es[..n], idMap, x);
    var e :| e in es[..n] && e.id in idMap && x == Entry(e.value, idMap[e.id]);
    var j :| 0 <= j < n && es[..n][j] == e;
    assert Ids(es)[j] == e.id && Ids(es)[n] == es[n].id;
  }

  /** Renaming the entries is renaming the map. */
  lemma MappedRepresents(es: seq<Entry>, m: map<nat, nat>, idMap: map<nat, nat>)
    requires Represents(es, m) && Injective(idMap)
    ensures Represents(Mapped(es, idMap), Renamed(m, idMap))
  {
    if idMap == map[] {
      MappedSame(es);
    } else {
      MappedDistinct(es, idMap);
      RepresentsIff(es, m);
      var r := Renamed(m, idMap);
      forall x: Entry ensures x in Mapped(es, idMap) <==> x.id in r && r[x.id] == x.value {
        MappedIs(es, idMap, x);
        if x.id in r && r[x.id] == x.value {
          var id :| id in idMap && id in m && idMap[id] == x.id;
          assert Entry(m[id], id) in es;
        }
      }
      RepresentsIff(Mapped(es, idMap), r);
    }
  }

  /** As many entries as ids. */
  lemma {:induction false} CountEntries(es: seq<Entry>, m: map<nat, nat>, n: nat)
    requires Represents(es, m) && forall id: nat :: id in m <==> id < n
    ensures |es| == n
  {
    var ids := Ids(es);
    forall x: nat ensures x in ids <==> x < n {
      if x in ids {
        var i :| 0 <= i < |ids| && ids[i] == x;
        assert es[i].id == x;
      }
    }
    CountDistinct(ids, n);
  }

  lemma {:induction false} CountDistinct(ids: seq<nat>, n: nat)
    requires Distinct(ids) && forall x: nat :: x in ids <==> x < n
    ensures |ids| == n
  {
    assert ids != [] ==> ids[0] in ids;
    if n > 0 {
      assert n - 1 in ids;
      var k :| 0 <= k < |ids| && ids[k] == n - 1;
      var rest := ids[..k] + ids[k + 1..];
      assert forall i | 0 <= i < k :: rest[i] == ids[i];
      assert forall i | k <= i < |rest| :: rest[i] == ids[i + 1];
      assert ids == ids[..k] + [n - 1] + ids[k + 1..];
      assert forall x :: x in ids <==> x in rest || x == n - 1;
      assert n - 1 !in rest;
      CountDistinct(rest, n - 1);
    }
  }

  // ----- the index -----

  lemma MappedNext(es: seq<Entry>, i: nat, idMap: map<nat, nat>)
    requires i < |es|
    ensures Mapped(es[..i + 1], idMap) == Mapped(es[..i], idMap) + MappedOne(es[i], idMap)
  {
    var f := es[..i + 1];
    assert f[..|f| - 1] == es[..i] && f[i] == es[i];
  }

  /** Appends entries under their new ids. */
  method Remap(data0: seq<Entry>, es: seq<Entry>, idMap: map<nat, nat>) returns (data: seq<Entry>)
    ensures data == data0 + Mapped(es, idMap)
  {
    data := data0;
    for i := 0 to |es|
      invariant data == data0 + Mapped(es[..i], idMap)
    {
      MappedNext(es, i, idMap);
      Regrouped(data0, Mapped(es[..i], idMap), [], MappedOne(es[i], idMap));
      data := data + MappedOne(es[i], idMap);
    }
    assert es[..|es|] == es;
  }

  ghost function Collected(disk: seq<Entry>, delta: seq<Bucket>, i: nat, idMap: map<nat, nat>): seq<Entry>
    requires i <= |delta|
  {
    Mapped(disk + Flat(delta[..i]), idMap)
  }

  lemma CollectStart(disk: seq<Entry>, delta: seq<Bucket>, idMap: map<nat, nat>)
    ensures Collected(disk, delta, 0, idMap) == Mapped(disk, idMap)
  {
    assert disk + Flat(delta[..0]) == disk;
  }

  lemma CollectNext(disk: seq<Entry>, delta: seq<Bucket>, i: nat, idMap: map<nat, nat>)
    requires i < |delta|
    ensures Collected(disk, delta, i + 1, idMap) == Collected(disk, delta, i, idMap) + Mapped(Tagged(delta[i]), idMap)
  {
    FlatSnoc(delta, i);
    Regrouped(disk, Flat(delta[..i]), [], Tagged(delta[i]));
    MappedConcat(disk + Flat(delta[..i]), Tagged(delta[i]), idMap);
  }

  /** The new names are those of stored ids, and are 0, 1, 2, ... */
  ghost predicate OntoDense(idMap: map<nat, nat>, m: map<nat, nat>) {
    && Injective(idMap) && (forall id | id in idMap :: id in m)
    && forall x: nat :: x < |idMap| <==> Names(idMap, x)
  }

  ghost predicate Names(idMap: map<nat, nat>, x: nat) {
    exists id :: id in idMap && idMap[id] == x
  }

  lemma RenamedDense(m: map<nat, nat>, n: nat, idMap: map<nat, nat>)
    requires (forall id: nat :: id in m <==> id < n) && (idMap == map[] || OntoDense(idMap, m))
    ensures var k := if idMap == map[] then n else |idMap|; forall x: nat :: x in Renamed(m, idMap) <==> x < k
  {
    if idMap != map[] {
      forall x: nat ensures x in Renamed(m, idMap) <==> x < |idMap| {
        assert x < |idMap| <==> Names(idMap, x);
      }
    }
  }

  /** Puts an entry in its place. */
  method PlaceEntry(s: seq<Entry>, x: Entry) returns (r: seq<Entry>)
    requires Sorted(s) && Distinct(Ids(s)) && x.id !in Ids(s)
    ensures Sorted(r) && Distinct(Ids(r)) && forall y :: y in r <==> y in s || y == x
    ensures forall i :: i in Ids(r) <==> i in Ids(s) || i == x.id
  {
    var k := |s|;
    while k > 0 && !Before(s[k - 1], x)
      invariant 0 <= k <= |s| && forall i | k <= i < |s| :: !Before(s[i], x)
    {
      k := k - 1;
    }
    EntryPlaced(s, x, k);
    r := s[..k] + [x] + s[k..];
  }

  lemma EntryPlaced(s: seq<Entry>, x: Entry, k: nat)
    requires Sorted(s) && Distinct(Ids(s)) && x.id !in Ids(s) && k <= |s|
    requires (k > 0 ==> Before(s[k - 1], x)) && forall i | k <= i < |s| :: !Before(s[i], x)
    ensures var r := s[..k] + [x] + s[k..];
      && Sorted(r) && Distinct(Ids(r)) && (forall y :: y in r <==> y in s || y == x)
      && (forall i :: i in Ids(r) <==> i in Ids(s) || i == x.id)
  {
    var a, b := s[..k], s[k..];
    assert s == a + b;
    IdsPlaced(a, x, b);
    forall i | 0 <= i < k ensures Before(a[i], x) {
      assert i < k - 1 ==> Before(s[i], s[k - 1]);
    }
    SortedBetween(a, x, b);
  }

  lemma IdsPlaced(a: seq<Entry>, x: Entry, b: seq<Entry>)
    requires Distinct(Ids(a + b)) && x.id !in Ids(a + b)
    ensures Distinct(Ids(a + [x] + b)) && (forall y :: y in a + [x] + b <==> y in a + b || y == x)
    ensures forall i :: i in Ids(a + [x] + b) <==> i in Ids(a + b) || i == x.id
  {
    assert Ids(a + b) == Ids(a) + Ids(b) && Ids(a + [x] + b) == Ids(a) + [x.id] + Ids(b);
    DistinctMore(Ids(a), Ids(b), x.id);
  }

  lemma SortedBetween(a: seq<Entry>, x: Entry, b: seq<Entry>)
    requires Sorted(a + b) && (forall i | 0 <= i < |a| :: Before(a[i], x)) && (forall i | 0 <= i < |b| :: Before(x, b[i]))
    ensures Sorted(a + [x] + b)
  {
    var s, r, k := a + b, a + [x] + b, |a|;
    forall i, j | 0 <= i < j < |r| ensures Before(r[i], r[j]) {
      assert r[i] == if i < k then s[i] else if i == k then x else s[i - 1];
      assert r[j] == if j < k then s[j] else if j == k then x else s[j - 1];
      assert i < k ==> s[i] == a[i];
      assert j > k ==> s[j - 1] == b[j - 1 - k];
    }
  }

  /** Sorts entries with distinct ids by value, then id. */
  method SortEntries(es: seq<Entry>, ghost m: map<nat, nat>) returns (r: seq<Entry>)
    requires Represents(es, m)
    ensures Sorted(r) && Represents(r, m)
  {
    r := [];
    for i := 0 to |es|
      invariant Sorted(r) && Distinct(Ids(r)) && forall y :: y in r <==> y in es[..i]
      invariant forall x :: x in Ids(r) <==> x in Ids(es)[..i]
    {
      assert es[..i + 1] == es[..i] + [es[i]] && Ids(es)[..i + 1] == Ids(es)[..i] + [es[i].id];
      assert Ids(es)[i] !in Ids(es)[..i];
      r := PlaceEntry(r, es[i]);
    }
    assert es[..|es|] == es;
    RepresentsIff(es, m);
    RepresentsIff(r, m);
  }

  /** x rounded up to a multiple of n. */
  function RoundUp(x: nat, n: nat): (r: nat)
    requires n > 0
    ensures x <= r < x + n && exists k: nat :: r == Times(k, n)
  {
    var k := (x + n - 1) / n;
    assert Times(k, n) == k * n;
    k * n
  }

  function Times(k: nat, n: nat): nat {
    k * n
  }

  /** The distance between samples: every entry of a small file; for others a number of whole sectors
      that leaves about a thousand samples. */
  ghost predicate IsStride(stride: nat, n: nat) {
    if n < HISTOGRAM_BUCKETS then stride == 1
    else
      && (exists k: nat :: stride == Times(k, WORDS_PER_SECTOR))
      && n / HISTOGRAM_BUCKETS <= stride < n / HISTOGRAM_BUCKETS + WORDS_PER_SECTOR
  }

  /** The sampling loop: one value from every stride-th entry. */
  method Sample(es: seq<Entry>, n: nat) returns (hist: seq<nat>, stride: nat)
    requires n == |es|
    ensures Sampled(hist, es, stride) && IsStride(stride, n)
  {
    stride := RoundUp(n / HISTOGRAM_BUCKETS, WORDS_PER_SECTOR);
    if stride == 0 {
      stride := 1;
    }
    hist := [];
    var i := 0;
    while i < n
      invariant i == |hist| * stride && forall k | 0 <= k < |hist| :: SampleAt(hist, es, stride, k)
      decreases n - i
    {
      SampleMore(hist, es, stride);
      hist := hist + [es[i].value];
      i := i + stride;
    }
  }

  lemma SampleMore(hist: seq<nat>, es: seq<Entry>, stride: nat)
    requires stride > 0 && |hist| * stride < |es| && forall k | 0 <= k < |hist| :: SampleAt(hist, es, stride, k)
    ensures var more := hist + [es[|hist| * stride].value];
      |more| * stride == |hist| * stride + stride && forall k | 0 <= k < |more| :: SampleAt(more, es, stride, k)
  {
    var more := hist + [es[|hist| * stride].value];
    forall k | 0 <= k < |more| ensures SampleAt(more, es, stride, k) {
      if k < |hist| {
        assert SampleAt(hist, es, stride, k);
      }
    }
  }

  function Rows(rows: seq<nat>): (es: seq<Entry>)
    ensures |es| == |rows| && forall i | 0 <= i < |rows| :: es[i] == Entry(rows[i], i)
  {
    seq(|rows|, i requires 0 <= i < |rows| => Entry(rows[i], i))
  }

  lemma RowsRepresent(rows: seq<nat>)
    ensures Represents(Rows(rows), Numbered(rows))
  {
    var ids := Ids(Rows(rows));
    forall id | id in Numbered(rows) ensures id in ids {
      assert ids[id] == id;
    }
  }

  /** Keys are ascending: the map is iterated in their order. */
  ghost predicate KeysAscend(delta: seq<Bucket>) {
    forall i, j | 0 <= i < j < |delta| :: delta[i].value < delta[j].value
  }

  /** The pending map with one more id under a value. */
  function Pushed(delta: seq<Bucket>, k: nat, value: nat, id: nat): seq<Bucket>
    requires k <= |delta|
  {
    if k < |delta| && delta[k].value == value then
      delta[..k] + [Bucket(value, delta[k].ids + [id])] + delta[k + 1..]
    else
      delta[..k] + [Bucket(value, [id])] + delta[k..]
  }

  lemma PushedAscends(delta: seq<Bucket>, k: nat, value: nat, id: nat)
    requires KeysAscend(delta) && IsLowerBound(Keys(delta), value, k)
    ensures KeysAscend(Pushed(delta, k, value, id))
  {
    var vs, d := Keys(delta), Pushed(delta, k, value, id);
    assert forall i | 0 <= i < k :: vs[i] == delta[i].value < value;
    assert k < |delta| ==> vs[k] == delta[k].value >= value;
    if k < |delta| && delta[k].value == value {
      SameKeys(delta, d);
    } else {
      KeysBetween(delta[..k], Bucket(value, [id]), delta[k..]);
    }
  }

  lemma SameKeys(a: seq<Bucket>, b: seq<Bucket>)
    requires KeysAscend(a) && |a| == |b| && forall i | 0 <= i < |a| :: b[i].value == a[i].value
    ensures KeysAscend(b)
  {
  }

  lemma KeysBetween(a: seq<Bucket>, b: Bucket, c: seq<Bucket>)
    requires KeysAscend(a) && KeysAscend(c)
    requires (forall i | 0 <= i < |a| :: a[i].value < b.value) && (forall i | 0 <= i < |c| :: b.value < c[i].value)
    ensures KeysAscend(a + [b] + c)
  {
    var d := a + [b] + c;
    forall i, j | 0 <= i < j < |d| ensures d[i].value < d[j].value {
      assert d[i] == if i < |a| then a[i] else if i == |a| then b else c[i - |a| - 1];
      assert d[j] == if j < |a| then a[j] else if j == |a| then b else c[j - |a| - 1];
      if i < |a| < j {
        assert a[i].value < b.value < c[j - |a| - 1].value;
      }
    }
  }

  lemma SplitInto(delta: seq<Bucket>, k: nat)
    requires k < |delta|
    ensures delta[..k] + [delta[k]] + delta[k + 1..] == delta
  {
  }

  lemma SplitNew(delta: seq<Bucket>, k: nat)
    requires k <= |delta|
    ensures delta[..k] + delta[k..] == delta
  {
  }

  lemma PushedRepresents(disk: seq<Entry>, delta: seq<Bucket>, k: nat, value: nat, id: nat, m: map<nat, nat>)
    requires k <= |delta| && Represents(disk + Flat(delta), m) && id !in m
    ensures Represents(disk + Flat(Pushed(delta, k, value, id)), m[id := value])
  {
    if k < |delta| && delta[k].value == value {
      SplitInto(delta, k);
      PushedInto(disk, delta[..k], delta[k], delta[k + 1..], id, m);
    } else {
      SplitNew(delta, k);
      PushedNew(disk, delta[..k], delta[k..], value, id, m);
    }
  }

  /** One more is pending. */
  lemma PushedCount(delta: seq<Bucket>, k: nat, value: nat, id: nat)
    requires k <= |delta|
    ensures |Flat(Pushed(delta, k, value, id))| == |Flat(delta)| + 1
  {
    if k < |delta| && delta[k].value == value {
      SplitInto(delta, k);
      FlatAround(delta[..k], delta[k], delta[k + 1..]);
      FlatAround(delta[..k], Bucket(value, delta[k].ids + [id]), delta[k + 1..]);
    } else {
      SplitNew(delta, k);
      FlatConcat(delta[..k], delta[k..]);
      FlatAround(delta[..k], Bucket(value, [id]), delta[k..]);
    }
  }

  lemma PushedKeeps(disk: seq<Entry>, delta: seq<Bucket>, k: nat, value: nat, id: nat, m: map<nat, nat>)
    requires KeysAscend(delta) && IsLowerBound(Keys(delta), value, k) && Represents(disk + Flat(delta), m) && id !in m
    ensures k <= |delta| && KeysAscend(Pushed(delta, k, value, id)) && |Flat(Pushed(delta, k, value, id))| == |Flat(delta)| + 1
    ensures Represents(disk + Flat(Pushed(delta, k, value, id)), m[id := value])
  {
    PushedAscends(delta, k, value, id);
    PushedCount(delta, k, value, id);
    PushedRepresents(disk, delta, k, value, id, m);
  }

  /** The id joins those under its value. */
  method PushPending(delta: seq<Bucket>, value: nat, id: nat, ghost disk: seq<Entry>, ghost m: map<nat, nat>) returns (more: seq<Bucket>)
    requires KeysAscend(delta) && Represents(disk + Flat(delta), m) && id !in m
    ensures KeysAscend(more) && |Flat(more)| == |Flat(delta)| + 1 && Represents(disk + Flat(more), m[id := value])
  {
    assert Ascending(Keys(delta));
    var k := LowerBound(Keys(delta), value);
    PushedKeeps(disk, delta, k, value, id, m);
    more := Pushed(delta, k, value, id);
  }

  lemma PushedInto(disk: seq<Entry>, left: seq<Bucket>, b: Bucket, right: seq<Bucket>, id: nat, m: map<nat, nat>)
    requires Represents(disk + Flat(left + [b] + right), m) && id !in m
    ensures Represents(disk + Flat(left + [Bucket(b.value, b.ids + [id])] + right), m[id := b.value])
  {
    var c, e := Bucket(b.value, b.ids + [id]), Entry(b.value, id);
    FlatAround(left, b, right);
    FlatAround(left, c, right);
    assert Tagged(c) == Tagged(b) + [e];
    Regroup(disk, Flat(left), Tagged(b), [], Flat(right));
    Regroup(disk, Flat(left), Tagged(b), [e], Flat(right));
    RepresentsMore(disk + Flat(left) + Tagged(b), Flat(right), m, e);
  }

  lemma Regroup(d: seq<Entry>, l: seq<Entry>, t: seq<Entry>, e: seq<Entry>, r: seq<Entry>)
    ensures d + (l + (t + e) + r) == d + l + t + e + r && t + [] == t && d + l + t + [] == d + l + t
  {
  }

  lemma Regrouped(d: seq<Entry>, l: seq<Entry>, e: seq<Entry>, r: seq<Entry>)
    ensures d + (l + r) == d + l + r && d + (l + e + r) == d + l + e + r
  {
  }

  lemma PushedNew(disk: seq<Entry>, left: seq<Bucket>, right: seq<Bucket>, value: nat, id: nat, m: map<nat, nat>)
    requires Represents(disk + Flat(left + right), m) && id !in m
    ensures Represents(disk + Flat(left + [Bucket(value, [id])] + right), m[id := value])
  {
    var e := Entry(value, id);
    FlatConcat(left, right);
    FlatAround(left, Bucket(value, [id]), right);
    assert Tagged(Bucket(value, [id])) == [e];
    Regrouped(disk, Flat(left), [e], Flat(right));
    RepresentsMore(disk + Flat(left), Flat(right), m, e);
  }

  /** The state of the loop over the pending keys: the first `it` of them are done. */
  ghost predicate DeltaDone(delta: seq<Bucket>, it: nat, l: nat, r: nat, ids: seq<nat>, result: seq<nat>) {
    && it <= |delta| && result == ids + Matching(Flat(delta[..it]), l, r)
    && forall i | it <= i < |delta| :: delta[i].value >= l
  }

  lemma DeltaStart(delta: seq<Bucket>, it: nat, l: nat, r: nat, ids: seq<nat>)
    requires IsLowerBound(Keys(delta), l, it)
    ensures DeltaDone(delta, it, l, r, ids, ids)
  {
    var vs := Keys(delta);
    assert forall i | 0 <= i < |delta| :: vs[i] == delta[i].value;
    FlatNone(delta, 0, it, l, r);
    assert ids + [] == ids;
  }

  lemma DeltaStep(delta: seq<Bucket>, it: nat, l: nat, r: nat, ids: seq<nat>, result: seq<nat>)
    requires DeltaDone(delta, it, l, r, ids, result) && it < |delta| && delta[it].value < r
    ensures DeltaDone(delta, it + 1, l, r, ids, result + delta[it].ids)
  {
    FlatNext(delta, it, l, r);
    Associate(ids, Matching(Flat(delta[..it]), l, r), delta[it].ids);
  }

  lemma Associate(a: seq<nat>, b: seq<nat>, c: seq<nat>)
    ensures a + b + c == a + (b + c)
  {
  }

  lemma DeltaEnd(delta: seq<Bucket>, it: nat, l: nat, r: nat, ids: seq<nat>, result: seq<nat>)
    requires KeysAscend(delta) && DeltaDone(delta, it, l, r, ids, result) && (it == |delta| || delta[it].value >= r)
    ensures result == ids + Matching(Flat(delta), l, r)
  {
    FlatNone(delta, it, |delta|, l, r);
    assert delta[..|delta|] == delta;
  }

  class RangeIndex {
    var disk: seq<Entry>
    var histogram: seq<nat>
    var stride: nat
    var delta: seq<Bucket>
    var pending: nat
    var nVectors: nat
    ghost var contents: map<nat, nat>

    /** The file and the pending inserts together hold the map; ids are dense. */
    ghost predicate Valid()
      reads this
    {
      && Sorted(disk) && Sampled(histogram, disk, stride) && KeysAscend(delta)
      && Represents(disk + Flat(delta), contents) && pending == |Flat(delta)|
      && forall id: nat :: id in contents <==> id < nVectors
    }

    /** Built from one value per vector. */
    constructor (rows: seq<nat>)
      ensures Valid() && contents == Numbered(rows)
    {
      RowsRepresent(rows);
      var sorted := SortEntries(Rows(rows), Numbered(rows));
      CountEntries(sorted, Numbered(rows), |rows|);
      var hist, step := Sample(sorted, |rows|);
      assert sorted + Flat([]) == sorted;
      disk, delta, pending, nVectors, histogram, stride := sorted, [], 0, |rows|, hist, step;
      contents := Numbered(rows);
    }

    /** The window of the file that the histogram leaves, [a, b). */
    method GetWindow(l: nat, r: nat) returns (a: nat, b: nat)
      requires Sorted(disk) && Sampled(histogram, disk, stride) && l <= r
      ensures IsWindow(disk, a, b, l, r) && IsTight(disk, stride, a, b, l, r)
    {
      HistAscends(histogram, disk, stride);
      var it1 := LowerBound(histogram, l);
      var it2 := LowerBound(histogram, r);
      SampledWindow(histogram, disk, stride, l, r, it1, it2);
      SampledTight(histogram, disk, stride, l, r, it1, it2);
      if it1 != 0 {
        it1 := it1 - 1;
      }
      a, b := it1 * stride, it2 * stride;
      if b > |disk| {
        b := |disk|;
      }
    }

    /** The ids that the file holds for the range. */
    method FromDisk(l: nat, r: nat) returns (ids: seq<nat>)
      requires Sorted(disk) && Sampled(histogram, disk, stride) && l <= r
      ensures ids == Matching(disk, l, r)
    {
      var a, b := GetWindow(l, r);
      var buf := disk[a..b];
      ValuesAscend(buf);
      var s := LowerBound(Values(buf), l);
      var e := LowerBound(Values(buf), r);
      WindowMatches(disk, a, b, l, r, s, e);
      ids := Ids(buf[s..e]);
    }

    /** The loop over the pending keys from the first at l or above. */
    method FromDelta(l: nat, r: nat, ids: seq<nat>) returns (result: seq<nat>)
      requires KeysAscend(delta)
      ensures result == ids + Matching(Flat(delta), l, r)
    {
      var it := LowerBound(Keys(delta), l);
      result := ids;
      DeltaStart(delta, it, l, r, ids);
      while it < |delta| && delta[it].value < r
        invariant DeltaDone(delta, it, l, r, ids, result)
      {
        DeltaStep(delta, it, l, r, ids, result);
        result := result + delta[it].ids;
        it := it + 1;
      }
      DeltaEnd(delta, it, l, r, ids, result);
    }

    /** The query: the ids with a value in [l, r), ascending. */
    method PreFilter(l: nat, r: nat) returns (result: seq<nat>)
      requires Valid() && l <= r
      ensures Strict(result) && forall id :: id in result <==> id in contents && l <= contents[id] < r
    {
      var raw := FromDisk(l, r);
      raw := FromDelta(l, r, raw);
      MatchingConcat(disk, Flat(delta), l, r);
      MatchingAnswers(disk + Flat(delta), contents, l, r);
      result := Sort(raw);
    }

    /** A new id, the next in line, with its value; the pending map is merged when it is large. */
    method Insert(id: nat, value: nat)
      requires Valid() && id == nVectors
      modifies this
      ensures Valid() && contents == old(contents)[id := value]
      ensures var full := 8 * (|Flat(old(delta))| + 1) >= Max(DELTA_BYTES, |old(disk)|);
        if full then delta == [] else disk == old(disk) && |Flat(delta)| == |Flat(old(delta))| + 1
    {
      Push(id, value);
      if 8 * pending >= Max(DELTA_BYTES, 8 * |disk| / 8) {
        DoMerge(map[]);
      }
    }

    method Push(id: nat, value: nat)
      requires Valid() && id == nVectors
      modifies `delta, `contents, `pending, `nVectors
      ensures Valid() && contents == old(contents)[id := value] && pending == old(pending) + 1
    {
      delta := PushPending(delta, value, id, disk, contents);
      contents := contents[id := value];
      pending := pending + 1;
      nVectors := Max(nVectors, id + 1);
    }

    /** The two loops that collect the entries under their new ids. */
    method Collect(idMap: map<nat, nat>) returns (data: seq<Entry>)
      ensures data == Mapped(disk + Flat(delta), idMap)
    {
      data := Remap([], disk, idMap);
      assert [] + Mapped(disk, idMap) == Mapped(disk, idMap);
      CollectStart(disk, delta, idMap);
      for i := 0 to |delta|
        invariant data == Collected(disk, delta, i, idMap)
      {
        CollectNext(disk, delta, i, idMap);
        data := Remap(data, Tagged(delta[i]), idMap);
      }
      assert delta[..|delta|] == delta;
    }

    /** The file is rewritten with the pending entries in their places, and sampled anew. An empty id
        map keeps every id; otherwise it renames the survivors onto 0, 1, 2, ... */
    method DoMerge(idMap: map<nat, nat>)
      requires Valid() && (idMap == map[] || OntoDense(idMap, contents))
      modifies this
      ensures Valid() && delta == [] && contents == Renamed(old(contents), idMap)
    {
      ghost var m := Renamed(contents, idMap);
      MappedRepresents(disk + Flat(delta), contents, idMap);
      RenamedDense(contents, nVectors, idMap);
      var data := Collect(idMap);
      var sorted := SortEntries(data, m);
      var merged := if idMap == map[] then nVectors else |idMap|;
      CountEntries(sorted, m, merged);
      var hist, step := Sample(sorted, merged);
      assert sorted + Flat([]) == sorted;
      disk, delta, pending, nVectors, histogram, stride := sorted, [], 0, merged, hist, step;
      contents := m;
    }
  }
}
