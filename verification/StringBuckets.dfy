/** The bucket filter of the string index (include/filter/attribute.h): 256 boundary keys and a
    bucket number per vector, and the test that a vector may lie in a range of keys. */
module StringBuckets {

  import opened Remainders
  import opened Search
  import opened StringFiles
  import opened StringKeys

  const BUCKETS := 256

  /** The entry whose key is boundary b. */
  function BoundaryIndex(b: nat, n: nat): (k: nat)
    requires n > 0
    ensures k < n
  {
    var k := b * n / BUCKETS;
    if k < n - 1 then k else n - 1
  }

  /** The bucket of entry i. */
  function BucketOf(i: nat, n: nat): (b: nat)
    requires i < n
    ensures b < BUCKETS
  {
    var b := i * BUCKETS / n;
    if b < BUCKETS - 1 then b else BUCKETS - 1
  }

  /** Each entry lies between its own bucket's boundary and the next. */
  lemma BetweenBoundaries(i: nat, n: nat)
    requires i < n
    ensures var b := BucketOf(i, n); BoundaryIndex(b, n) <= i <= BoundaryIndex(b + 1, n)
  {
    var b := i * BUCKETS / n;
    assert b * n <= i * BUCKETS < b * n + n;
    if b >= BUCKETS {
      MulMonotone(BUCKETS, b, n);
      assert false;
    }
    assert (b + 1) * n == b * n + n;
  }

  ghost predicate BoundariesAre(bs: seq<Str>, es: seq<Entry>) {
    && |es| > 0 && |bs| == BUCKETS + 1
    && forall b | 0 <= b <= BUCKETS :: bs[b] == es[BoundaryIndex(b, |es|)].key
  }

  /** The loop that lays down the boundaries. */
  method Boundaries(es: seq<Entry>) returns (bs: seq<Str>)
    requires |es| > 0
    ensures BoundariesAre(bs, es)
  {
    bs := [];
    for b := 0 to BUCKETS + 1
      invariant |bs| == b && forall c | 0 <= c < b :: bs[c] == es[BoundaryIndex(c, |es|)].key
    {
      bs := bs + [es[BoundaryIndex(b, |es|)].key];
    }
  }

  /** The id has the bucket of one of its positions among the first n. */
  ghost predicate InBucket(ids: seq<nat>, es: seq<Entry>, n: nat, id: nat)
    requires n <= |es|
  {
    id < |ids| && exists j :: 0 <= j < n && es[j].id == id && ids[id] == BucketOf(j, |es|)
  }

  ghost predicate BucketsAre(ids: seq<nat>, es: seq<Entry>, n: nat) {
    n <= |es| && forall i | 0 <= i < n :: InBucket(ids, es, n, es[i].id)
  }

  lemma BucketsMore(ids: seq<nat>, es: seq<Entry>, i: nat)
    requires i < |es| && BucketsAre(ids, es, i) && es[i].id < |ids|
    ensures BucketsAre(ids[es[i].id := BucketOf(i, |es|)], es, i + 1)
  {
    var more := ids[es[i].id := BucketOf(i, |es|)];
    forall k | 0 <= k < i + 1 ensures InBucket(more, es, i + 1, es[k].id) {
      if es[k].id == es[i].id {
        assert more[es[k].id] == BucketOf(i, |es|);
      } else {
        var j :| 0 <= j < i && es[j].id == es[k].id && ids[es[k].id] == BucketOf(j, |es|);
        assert more[es[k].id] == BucketOf(j, |es|);
      }
    }
  }

  /** The boundary keys, and the bucket of every vector. */
  datatype Table = Table(bounds: seq<Str>, ids: seq<nat>)

  /** The table was laid out for these entries. */
  ghost predicate Laid(t: Table, es: seq<Entry>) {
    match t
    case Table(bounds, ids) => if es == [] then bounds == [] else BoundariesAre(bounds, es) && BucketsAre(ids, es, |es|)
  }

  /** Laying down boundaries and buckets anew. */
  method RebuildBuckets(es: seq<Entry>, nVectors: nat) returns (t: Table)
    requires forall e | e in es :: e.id < nVectors
    ensures |t.ids| == nVectors && Laid(t, es)
    ensures forall id | 0 <= id < nVectors && (forall e | e in es :: e.id != id) :: t.ids[id] == 0
  {
    var ids: seq<nat> := seq(nVectors, _ => 0);
    if es == [] {
      return Table([], ids);
    }
    var bs := Boundaries(es);
    for i := 0 to |es|
      invariant |ids| == nVectors && BucketsAre(ids, es, i)
      invariant forall id | 0 <= id < nVectors && (forall e | e in es :: e.id != id) :: ids[id] == 0
    {
      assert es[i] in es;
      BucketsMore(ids, es, i);
      ids := ids[es[i].id := BucketOf(i, |es|)];
    }
    t := Table(bs, ids);
  }

  /** The first and the last bucket that a range of keys can touch. */
  function FirstBucket(l: nat): nat {
    if l == 0 then 0 else l - 1
  }

  function LastBucket(r: nat): nat {
    if r + 1 < BUCKETS - 1 then r + 1 else BUCKETS - 1
  }

  /** l and r are where a range starts and ends among the boundaries. */
  ghost predicate IsSpan(bs: seq<Str>, lo: Str, hi: Str, l: nat, r: nat) {
    IsLowerBound(bs, lo, l) && if hi == [] then r == |bs| else IsLowerBound(bs, hi, r)
  }

  /** The bucket of the id is one that the range touches, or there is nothing to go by. */
  ghost predicate MayLie(t: Table, id: nat, lo: Str, hi: Str) {
    id >= |t.ids| || t.bounds == [] || exists l, r :: IsSpan(t.bounds, lo, hi, l, r) && FirstBucket(l) <= t.ids[id] <= LastBucket(r)
  }

  /** May the string of `id`, read in the direction of the boundaries, start with `lo`? */
  method IsMemberApprox(t: Table, id: nat, lo: Str) returns (may: bool)
    requires Ascending(t.bounds)
    ensures may <==> MayLie(t, id, lo, Next(lo))
  {
    if id >= |t.ids| || |t.bounds| == 0 {
      return true;
    }
    var hi := NextPrefix(lo);
    var l := LowerBound(t.bounds, lo);
    var r := |t.bounds|;
    if hi != [] {
      r := LowerBound(t.bounds, hi);
    }
    may := FirstBucket(l) <= t.ids[id] <= LastBucket(r);
    SpanUnique(t.bounds, lo, hi, l, r);
  }

  lemma SpanUnique(bs: seq<Str>, lo: Str, hi: Str, l: nat, r: nat)
    requires IsSpan(bs, lo, hi, l, r)
    ensures forall i, j | IsSpan(bs, lo, hi, i, j) :: i == l && j == r
  {
    forall i, j | IsSpan(bs, lo, hi, i, j) ensures i == l && j == r {
      SameBound(bs, lo, i, l);
      if hi != [] {
        SameBound(bs, hi, j, r);
      }
    }
  }

  lemma SameBound(bs: seq<Str>, x: Str, i: nat, j: nat)
    requires IsLowerBound(bs, x, i) && IsLowerBound(bs, x, j)
    ensures i == j
  {
    PointUnique(bs, y => Less(y, x), i, j);
  }

  lemma SpanExists(bs: seq<Str>, lo: Str, hi: Str) returns (l: nat, r: nat)
    requires Ascending(bs)
    ensures IsSpan(bs, lo, hi, l, r)
  {
    SplitsBelow(bs, lo);
    SplitsBelow(bs, hi);
    l := PointExists(bs, y => Less(y, lo));
    r := PointExists(bs, y => Less(y, hi));
    if hi == [] {
      r := |bs|;
    }
  }

  lemma BoundariesAscend(bs: seq<Str>, es: seq<Entry>)
    requires BoundariesAre(bs, es) && Sorted(es)
    ensures Ascending(bs)
  {
    forall i, j | 0 <= i < j < |bs| ensures !Less(bs[j], bs[i]) {
      MulMonotone(i, j, |es|);
      IndexMonotone(i, j, |es|);
      var a, b := BoundaryIndex(i, |es|), BoundaryIndex(j, |es|);
      if a == b {
        LessIrreflexive(es[a].key);
      }
    }
  }

  lemma IndexMonotone(i: nat, j: nat, n: nat)
    requires n > 0 && i * n <= j * n
    ensures BoundaryIndex(i, n) <= BoundaryIndex(j, n)
  {
  }

  /** What the test rejects, in terms of the keys. With boundaries for all buckets, an id of bucket b is
      accepted exactly if the next boundary is not below the range and the boundary two before is. */
  lemma MayLieIff(t: Table, id: nat, lo: Str, hi: Str)
    requires |t.bounds| == BUCKETS + 1 && Ascending(t.bounds) && id < |t.ids| && t.ids[id] < BUCKETS
    ensures var b := t.ids[id];
      MayLie(t, id, lo, hi) <==> !Less(t.bounds[b + 1], lo) && (b < 2 || hi == [] || Less(t.bounds[b - 2], hi))
  {
    var l, r := SpanExists(t.bounds, lo, hi);
    SpanUnique(t.bounds, lo, hi, l, r);
  }

  /** No entry whose key lies in the range is rejected, however many entries there are. */
  lemma NeverRejects(bs: seq<Str>, es: seq<Entry>, i: nat, lo: Str, hi: Str, l: nat, r: nat)
    requires BoundariesAre(bs, es) && Sorted(es) && i < |es| && InRange(es[i].key, lo, hi)
    requires IsSpan(bs, lo, hi, l, r)
    ensures FirstBucket(l) <= BucketOf(i, |es|) <= LastBucket(r)
  {
    var n, b := |es|, BucketOf(i, |es|);
    BetweenBoundaries(i, n);
    var x, y := BoundaryIndex(b, n), BoundaryIndex(b + 1, n);
    NotBelow(es, i, y, lo);
    assert bs[b + 1] == es[y].key;
    if hi != [] {
      NotAbove(es, x, i, hi);
      assert bs[b] == es[x].key;
    }
  }

  lemma NotBelow(es: seq<Entry>, i: nat, y: nat, lo: Str)
    requires Sorted(es) && i <= y < |es| && !Less(es[i].key, lo)
    ensures !Less(es[y].key, lo)
  {
    if i < y {
      NotLessTransitive(lo, es[i].key, es[y].key);
    }
  }

  lemma NotAbove(es: seq<Entry>, x: nat, i: nat, hi: Str)
    requires Sorted(es) && x <= i < |es| && Less(es[i].key, hi)
    ensures Less(es[x].key, hi)
  {
    if x < i {
      LeastLess(es[x].key, es[i].key, hi);
    }
  }

  /** The test accepts every id that the table was laid out for and whose key starts with the query. */
  lemma StoredAccepted(t: Table, es: seq<Entry>, i: nat, p: Str)
    requires Sorted(es) && Laid(t, es) && i < |es| && IsStr(p) && IsStr(es[i].key) && p <= es[i].key
    requires forall j | 0 <= j < |es| && es[j].id == es[i].id :: es[j].key == es[i].key
    ensures MayLie(t, es[i].id, p, Next(p))
  {
    var id := es[i].id;
    assert InBucket(t.ids, es, |es|, id);
    var j :| 0 <= j < |es| && es[j].id == id && t.ids[id] == BucketOf(j, |es|);
    BoundariesAscend(t.bounds, es);
    PrefixIsRange(p, es[j].key);
    var l, r := SpanExists(t.bounds, p, Next(p));
    NeverRejects(t.bounds, es, j, p, Next(p), l, r);
  }

  // ----- strings inserted since -----

  ghost predicate IsUpperBound(bs: seq<Str>, x: Str, u: nat) {
    u <= |bs| && (forall i | 0 <= i < u :: !Less(x, bs[i])) && (forall i | u <= i < |bs| :: Less(x, bs[i]))
  }

  /** The bucket of a key with u boundaries at or below it. */
  function BucketAt(u: nat): (b: nat)
    ensures b < BUCKETS
  {
    if u == 0 then 0 else if u < BUCKETS then u - 1 else BUCKETS - 1
  }

  /** The id has the bucket that an insertion gives its key. */
  ghost predicate InsertedAs(t: Table, id: nat, key: Str) {
    id < |t.ids| && (t.bounds != [] ==> exists u :: IsUpperBound(t.bounds, key, u) && t.ids[id] == BucketAt(u))
  }

  method UpperBound(bs: seq<Str>, x: Str) returns (u: nat)
    requires Ascending(bs)
    ensures IsUpperBound(bs, x, u)
  {
    forall i, j | 0 <= i < j < |bs| && !Less(x, bs[j]) ensures !Less(x, bs[i]) {
      if Less(x, bs[i]) {
        LessLeast(x, bs[i], bs[j]);
      }
    }
    u := PartitionPoint(bs, y => !Less(x, y));
  }

  /** Gives an inserted key its bucket; the table grows if need be. */
  method EnsureBucket(t: Table, id: nat, key: Str) returns (r: Table)
    requires Ascending(t.bounds)
    ensures r.bounds == t.bounds && |r.ids| >= |t.ids| && InsertedAs(r, id, key)
    ensures forall k | 0 <= k < |t.ids| && k != id :: r.ids[k] == t.ids[k]
    ensures id < |t.ids| ==> |r.ids| == |t.ids|
    ensures id >= |t.ids| ==> 1024 <= |r.ids| && 3 * id / 2 < |r.ids| <= 2 * id + 1024 && forall k | |t.ids| <= k < |r.ids| && k != id :: r.ids[k] == 0
  {
    var ids := t.ids;
    if id >= |ids| {
      var size := if 3 * (id + 1) / 2 < 1024 then 1024 else 3 * (id + 1) / 2;
      ids := ids + seq(size - |ids|, _ => 0);
    }
    if t.bounds == [] {
      return Table([], ids);
    }
    var u := UpperBound(t.bounds, key);
    r := Table(t.bounds, ids[id := BucketAt(u)]);
  }

  /** An inserted key that starts with the query is accepted unless the query lies beyond the last
      boundary. Then the first bucket of the range is one past the largest bucket number. */
  lemma InsertedBucketIff(bs: seq<Str>, key: Str, u: nat, p: Str, l: nat, r: nat)
    requires |bs| == BUCKETS + 1 && IsUpperBound(bs, key, u) && IsStr(p) && IsStr(key) && p <= key
    requires IsSpan(bs, p, Next(p), l, r)
    ensures FirstBucket(l) <= BucketAt(u) <= LastBucket(r) <==> !Less(bs[BUCKETS], p)
  {
    PrefixIsRange(p, key);
    if u < l {
      LessTransitive(key, bs[u], p);
    }
    if Next(p) != [] && r < u {
      LessLeast(key, Next(p), bs[r]);
    }
    assert l == BUCKETS + 1 <==> Less(bs[BUCKETS], p);
  }

  lemma InsertedAcceptedIff(t: Table, id: nat, key: Str, p: Str)
    requires |t.bounds| == BUCKETS + 1 && Ascending(t.bounds) && InsertedAs(t, id, key) && IsStr(p) && IsStr(key) && p <= key
    ensures MayLie(t, id, p, Next(p)) <==> !Less(t.bounds[BUCKETS], p)
  {
    var u :| IsUpperBound(t.bounds, key, u) && t.ids[id] == BucketAt(u);
    var l, r := SpanExists(t.bounds, p, Next(p));
    InsertedBucketIff(t.bounds, key, u, p, l, r);
    SpanUnique(t.bounds, p, Next(p), l, r);
  }

  /** Inserting an id that is not among the entries leaves their buckets alone. */
  lemma LaidStays(t: Table, es: seq<Entry>, r: Table, id: nat)
    requires Laid(t, es) && r.bounds == t.bounds && |r.ids| >= |t.ids| && forall e | e in es :: e.id != id
    requires forall k | 0 <= k < |t.ids| && k != id :: r.ids[k] == t.ids[k]
    ensures Laid(r, es)
  {
    if es != [] {
      forall i | 0 <= i < |es| ensures InBucket(r.ids, es, |es|, es[i].id) {
        assert InBucket(t.ids, es, |es|, es[i].id) && es[i] in es;
      }
    }
  }
}
