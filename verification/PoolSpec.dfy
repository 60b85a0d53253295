/** The candidate pool as a value: what one insertion does, what a run of insertions does, and
    a description of the outcome that mentions neither an order nor an algorithm. */
module PoolSpec {

  import opened Bounds

  /** One search candidate (include/utils.h). `flag`: its read has not been issued.
      `visited`: it has been handed out for expansion. */
  datatype Neighbor = Neighbor(id: nat, distance: real, flag: bool, visited: bool)

  /** A candidate as it enters the pool. */
  function NewNeighbor(id: nat, distance: real): Neighbor {
    Neighbor(id, distance, true, false)
  }

  predicate Less(a: Neighbor, b: Neighbor) {
    a.distance < b.distance || (a.distance == b.distance && a.id < b.id)
  }

  predicate SameKey(a: Neighbor, b: Neighbor) {
    a.distance == b.distance && a.id == b.id
  }

  predicate Sorted(s: seq<Neighbor>) {
    forall i, j | 0 <= i < j < |s| :: Less(s[i], s[j])
  }

  ghost function Elements(s: seq<Neighbor>): set<Neighbor> {
    set x | x in s
  }

  ghost function Ids(s: seq<Neighbor>): set<nat> {
    set x | x in s :: x.id
  }

  /** No id stands for two different entries, so `Less` is total on the set. */
  ghost predicate OneEntryPerId(entries: set<Neighbor>) {
    forall a, b | a in entries && b in entries && a.id == b.id :: a == b
  }

  ghost predicate DistinctIds(s: seq<Neighbor>) {
    forall i, j | 0 <= i < j < |s| :: s[i].id != s[j].id
  }

  /** No entry of `entries` carries the id of x. */
  ghost predicate FreshFor(entries: set<Neighbor>, x: Neighbor) {
    forall y | y in entries :: y.id != x.id
  }

  /** How many leading entries are closer than x: its insertion point in a sorted list. */
  function Rank(s: seq<Neighbor>, x: Neighbor): (p: nat)
    ensures p <= |s|
    ensures forall i | 0 <= i < p :: Less(s[i], x)
    ensures p < |s| ==> !Less(s[p], x)
  {
    if s == [] || !Less(s[0], x) then 0 else 1 + Rank(s[1..], x)
  }

  /** Rank is the only split point of a sorted list around x. */
  lemma RankUnique(s: seq<Neighbor>, x: Neighbor, p: nat)
    requires Sorted(s) && p <= |s|
    requires p > 0 ==> Less(s[p - 1], x)
    requires p < |s| ==> !Less(s[p], x)
    ensures Rank(s, x) == p
  {
    var q := Rank(s, x);
    assert q < p - 1 ==> Less(s[q], s[p - 1]);
  }

  /** The pool: the live entries in order, and the two frontier markers. */
  datatype Pool = Pool(items: seq<Neighbor>, firstUnvisited: nat, sendMarker: nat)

  ghost predicate WellFormed(p: Pool, limit: nat) {
    && 1 <= limit
    && |p.items| <= limit
    && Sorted(p.items)
    && OneEntryPerId(Elements(p.items))
    && p.firstUnvisited <= |p.items|
    && p.sendMarker <= |p.items|
  }

  /** Everything before a marker is settled: expanded, respectively read. */
  ghost predicate MarkersSettled(p: Pool) {
    && (forall i | 0 <= i < p.firstUnvisited && i < |p.items| :: p.items[i].visited)
    && (forall i | 0 <= i < p.sendMarker && i < |p.items| :: !p.items[i].flag)
  }

  function Truncate(s: seq<Neighbor>, limit: nat): seq<Neighbor> {
    if |s| > limit then s[..limit] else s
  }

  function Place(s: seq<Neighbor>, r: nat, x: Neighbor): seq<Neighbor>
    requires r <= |s|
  {
    s[..r] + [x] + s[r..]
  }

  predicate CutOff(s: seq<Neighbor>, limit: nat, x: Neighbor) {
    0 < |s| == limit && !Less(x, s[|s| - 1])
  }

  /** One insertion of a candidate whose id is not in the pool. */
  function InsertOne(p: Pool, limit: nat, x: Neighbor): Pool {
    if p.items == [] then Pool([x], 0, 0)
    else if CutOff(p.items, limit, x) then p
    else
      var r := Rank(p.items, x);
      Pool(Truncate(Place(p.items, r, x), limit), Min(p.firstUnvisited, r), Min(p.sendMarker, r))
  }

  /** Insertions one at a time, first to last. */
  function InsertAll(p: Pool, limit: nat, xs: seq<Neighbor>): Pool
    decreases |xs|
  {
    if xs == [] then p else InsertAll(InsertOne(p, limit, xs[0]), limit, xs[1..])
  }

  /** Index of the closest new entry, or the length if there is none. */
  ghost function FirstNew(s: seq<Neighbor>, added: set<Neighbor>): (k: nat)
    ensures k <= |s|
    ensures forall i | 0 <= i < k :: s[i] !in added
    ensures k < |s| ==> s[k] in added
  {
    if s == [] || s[0] in added then 0 else 1 + FirstNew(s[1..], added)
  }

  lemma FirstNewIs(s: seq<Neighbor>, added: set<Neighbor>, k: nat)
    requires k <= |s|
    requires forall i | 0 <= i < k :: s[i] !in added
    requires k < |s| ==> s[k] in added
    ensures FirstNew(s, added) == k
  {
  }

  /** `s` holds the `limit` closest of `all`, in order. */
  ghost predicate IsClosest(s: seq<Neighbor>, limit: nat, all: set<Neighbor>) {
    && Sorted(s)
    && Elements(s) <= all
    && |s| == Min(limit, |all|)
    && forall x, y | x in all && x !in s && y in s :: Less(y, x)
  }

  /** What merging `added` into `before` must give: the closest entries of the union, and each
      marker lowered to the closest entry that came from `added`. */
  ghost predicate IsMerged(before: Pool, limit: nat, added: set<Neighbor>, after: Pool) {
    && IsClosest(after.items, limit, Elements(before.items) + added)
    && after.firstUnvisited == Min(before.firstUnvisited, FirstNew(after.items, added))
    && after.sendMarker == Min(before.sendMarker, FirstNew(after.items, added))
  }

  // ----- the outcome is determined -----

  lemma SortedSize(s: seq<Neighbor>)
    requires Sorted(s)
    ensures |Elements(s)| == |s|
  {
    if s == [] {
      assert Elements(s) == {};
    } else {
      SortedSize(s[1..]);
      assert s[0] !in s[1..];
      assert Elements(s) == {s[0]} + Elements(s[1..]);
    }
  }

  lemma SortedHead(a: seq<Neighbor>, b: seq<Neighbor>)
    requires Sorted(a) && Sorted(b) && a != [] && b != []
    requires Elements(a) == Elements(b)
    ensures a[0] == b[0]
    ensures Elements(a[1..]) == Elements(b[1..])
  {
    assert a[0] in Elements(b) && b[0] in Elements(a);
    assert Elements(a[1..]) == Elements(a) - {a[0]} by { assert a[0] !in a[1..]; }
    assert Elements(b[1..]) == Elements(b) - {b[0]} by { assert b[0] !in b[1..]; }
  }

  lemma {:induction false} SortedUnique(a: seq<Neighbor>, b: seq<Neighbor>)
    requires Sorted(a) && Sorted(b)
    requires Elements(a) == Elements(b)
    ensures a == b
  {
    SortedSize(a);
    SortedSize(b);
    if a != [] {
      SortedHead(a, b);
      SortedUnique(a[1..], b[1..]);
      assert a == [a[0]] + a[1..] && b == [b[0]] + b[1..];
    }
  }

  lemma SubsetSmaller(a: set<Neighbor>, b: set<Neighbor>)
    requires a <= b && |b| <= |a|
    ensures a == b
  {
    assert b == a + (b - a);
  }

  lemma ClosestUnique(a: seq<Neighbor>, b: seq<Neighbor>, limit: nat, all: set<Neighbor>)
    requires IsClosest(a, limit, all) && IsClosest(b, limit, all)
    ensures a == b
  {
    SortedSize(a);
    SortedSize(b);
    if !(Elements(a) <= Elements(b)) && !(Elements(b) <= Elements(a)) {
      var x :| x in Elements(a) && x !in Elements(b);
      var y :| y in Elements(b) && y !in Elements(a);
      assert false;
    }
    if Elements(a) <= Elements(b) {
      SubsetSmaller(Elements(a), Elements(b));
    } else {
      SubsetSmaller(Elements(b), Elements(a));
    }
    SortedUnique(a, b);
  }

  /** The outcome of a merge is determined: there is at most one. */
  lemma MergedUnique(before: Pool, limit: nat, added: set<Neighbor>, a: Pool, b: Pool)
    requires IsMerged(before, limit, added, a) && IsMerged(before, limit, added, b)
    ensures a == b
  {
    ClosestUnique(a.items, b.items, limit, Elements(before.items) + added);
  }

  // ----- one insertion is a merge step -----

  lemma PlaceSorted(s: seq<Neighbor>, x: Neighbor)
    requires Sorted(s) && FreshFor(Elements(s), x)
    ensures Sorted(Place(s, Rank(s, x), x))
  {
    var r := Rank(s, x);
    var t := Place(s, r, x);
    forall i, j | 0 <= i < j < |t| ensures Less(t[i], t[j]) {
      if i == r {
        assert s[r] in Elements(s);
        assert Less(x, s[r]);
      }
    }
  }

  lemma PlaceElements(s: seq<Neighbor>, r: nat, x: Neighbor)
    requires r <= |s|
    ensures Elements(Place(s, r, x)) == Elements(s) + {x}
  {
    var t := Place(s, r, x);
    forall y | y in Elements(s) + {x} ensures y in t {
      if y in s {
        var i :| 0 <= i < |s| && s[i] == y;
        assert t[if i < r then i else i + 1] == y;
      } else {
        assert t[r] == x;
      }
    }
  }

  lemma ClosestAfterPlace(s: seq<Neighbor>, limit: nat, all: set<Neighbor>, x: Neighbor)
    requires 0 < limit && |s| < limit && IsClosest(s, limit, all) && FreshFor(all, x)
    ensures IsClosest(Place(s, Rank(s, x), x), limit, all + {x})
  {
    SortedSize(s);
    SubsetSmaller(Elements(s), all);
    PlaceSorted(s, x);
    PlaceElements(s, Rank(s, x), x);
    assert forall y | y in all + {x} :: y in Elements(Place(s, Rank(s, x), x));
  }

  lemma {:induction false} ClosestAfterEvict(s: seq<Neighbor>, limit: nat, all: set<Neighbor>, x: Neighbor)
    requires 0 < limit == |s| && IsClosest(s, limit, all) && FreshFor(all, x)
    requires Less(x, s[limit - 1])
    ensures IsClosest(Place(s, Rank(s, x), x)[..limit], limit, all + {x})
  {
    var r := Rank(s, x);
    var t, last := Place(s, r, x), s[limit - 1];
    PlaceSorted(s, x);
    PlaceElements(s, r, x);
    var u := t[..limit];
    assert t[limit] == last && t == u + [last];
    assert Elements(u) <= Elements(t) <= all + {x};
    forall y, z | y in all + {x} && y !in u && z in u ensures Less(z, y) {
      assert Less(z, last);
      if y in t {
        assert y == last;
      } else {
        assert y in all && y !in Elements(s);
        assert Less(last, y);
      }
    }
  }

  lemma {:induction false} FirstNewAfterPlace(s: seq<Neighbor>, limit: nat, added: set<Neighbor>, x: Neighbor)
    requires |s| <= limit && FreshFor(Elements(s), x) && Rank(s, x) < limit
    ensures FirstNew(Truncate(Place(s, Rank(s, x), x), limit), added + {x}) == Min(FirstNew(s, added), Rank(s, x))
  {
    var r := Rank(s, x);
    assert forall i | 0 <= i < |s| :: s[i] in Elements(s);
    FirstNewIs(Truncate(Place(s, r, x), limit), added + {x}, Min(FirstNew(s, added), r));
  }

  lemma ClosestAfterCutOff(s: seq<Neighbor>, limit: nat, all: set<Neighbor>, x: Neighbor)
    requires IsClosest(s, limit, all) && CutOff(s, limit, x) && FreshFor(all, x)
    ensures IsClosest(s, limit, all + {x})
  {
    assert s[|s| - 1] in Elements(s);
    assert Less(s[|s| - 1], x);
  }

  lemma ClosestAfterFirst(limit: nat, all: set<Neighbor>, x: Neighbor)
    requires 0 < limit && IsClosest([], limit, all)
    ensures IsClosest([x], limit, all + {x})
  {
    assert all == {};
    assert Elements([x]) == {x};
  }

  lemma ClosestStep(s: seq<Neighbor>, limit: nat, all: set<Neighbor>, x: Neighbor)
    requires 0 < limit && IsClosest(s, limit, all) && FreshFor(all, x)
    ensures IsClosest(InsertOne(Pool(s, 0, 0), limit, x).items, limit, all + {x})
  {
    if s == [] {
      ClosestAfterFirst(limit, all, x);
    } else if CutOff(s, limit, x) {
      ClosestAfterCutOff(s, limit, all, x);
    } else if |s| < limit {
      ClosestAfterPlace(s, limit, all, x);
    } else {
      ClosestAfterEvict(s, limit, all, x);
    }
  }

  lemma FirstNewStep(p: Pool, limit: nat, added: set<Neighbor>, x: Neighbor)
    requires WellFormed(p, limit) && FreshFor(Elements(p.items), x)
    ensures FirstNew(InsertOne(p, limit, x).items, added + {x})
         == if p.items == [] then 0
            else if CutOff(p.items, limit, x) then FirstNew(p.items, added)
            else Min(FirstNew(p.items, added), Rank(p.items, x))
  {
    if p.items == [] {
      FirstNewIs([x], added + {x}, 0);
    } else if CutOff(p.items, limit, x) {
      assert forall i | 0 <= i < |p.items| :: p.items[i] in Elements(p.items);
      FirstNewIs(p.items, added + {x}, FirstNew(p.items, added));
    } else {
      FirstNewAfterPlace(p.items, limit, added, x);
    }
  }

  /** Adding x to what has been merged so far merges one entry more. */
  lemma MergeStep(before: Pool, limit: nat, added: set<Neighbor>, p: Pool, x: Neighbor)
    requires WellFormed(p, limit)
    requires IsMerged(before, limit, added, p)
    requires FreshFor(Elements(before.items) + added, x)
    ensures IsMerged(before, limit, added + {x}, InsertOne(p, limit, x))
  {
    var all := Elements(before.items) + added;
    assert Elements(before.items) + (added + {x}) == all + {x};
    assert FreshFor(Elements(p.items), x);
    ClosestStep(p.items, limit, all, x);
    assert InsertOne(Pool(p.items, 0, 0), limit, x).items == InsertOne(p, limit, x).items;
    FirstNewStep(p, limit, added, x);
  }

  lemma InsertOneWellFormed(p: Pool, limit: nat, x: Neighbor)
    requires WellFormed(p, limit) && FreshFor(Elements(p.items), x)
    ensures WellFormed(InsertOne(p, limit, x), limit)
  {
    if p.items != [] && !CutOff(p.items, limit, x) {
      var r := Rank(p.items, x);
      PlaceSorted(p.items, x);
      TruncateSorted(Place(p.items, r, x), limit);
      PlaceOneEach(p.items, r, x, limit);
    }
  }

  lemma TruncateSorted(t: seq<Neighbor>, limit: nat)
    requires Sorted(t)
    ensures Sorted(Truncate(t, limit))
  {
  }

  lemma PlaceOneEach(s: seq<Neighbor>, r: nat, x: Neighbor, limit: nat)
    requires r <= |s| && OneEntryPerId(Elements(s)) && FreshFor(Elements(s), x)
    ensures OneEntryPerId(Elements(Truncate(Place(s, r, x), limit)))
  {
    var t := Place(s, r, x);
    PlaceElements(s, r, x);
    assert OneEntryPerId(Elements(s) + {x});
    TruncateElements(t, limit);
  }

  lemma TruncateElements(t: seq<Neighbor>, limit: nat)
    ensures Elements(Truncate(t, limit)) <= Elements(t)
  {
  }

  /** An insertion never leaves an unexpanded entry before the calc frontier, nor an unread one
      before the read frontier. */
  lemma InsertOneSettled(p: Pool, limit: nat, x: Neighbor)
    requires WellFormed(p, limit) && MarkersSettled(p)
    ensures MarkersSettled(InsertOne(p, limit, x))
  {
    if p.items != [] && !CutOff(p.items, limit, x) {
      var r := Rank(p.items, x);
      assert forall i | 0 <= i < r :: Place(p.items, r, x)[i] == p.items[i];
    }
  }

  lemma NothingAdded(p: Pool, limit: nat)
    requires WellFormed(p, limit)
    ensures IsMerged(p, limit, {}, p)
  {
    SortedSize(p.items);
    FirstNewIs(p.items, {}, |p.items|);
    assert Elements(p.items) + {} == Elements(p.items);
  }

  lemma MergeStepWellFormed(before: Pool, limit: nat, added: set<Neighbor>, p: Pool, x: Neighbor)
    requires WellFormed(p, limit)
    requires IsMerged(before, limit, added, p)
    requires FreshFor(Elements(before.items) + added, x)
    ensures WellFormed(InsertOne(p, limit, x), limit)
    ensures IsMerged(before, limit, added + {x}, InsertOne(p, limit, x))
  {
    MergeStep(before, limit, added, p, x);
    assert FreshFor(Elements(p.items), x);
    InsertOneWellFormed(p, limit, x);
  }

  lemma FreshForRest(all: set<Neighbor>, added: set<Neighbor>, xs: seq<Neighbor>)
    requires xs != [] && DistinctIds(xs)
    requires forall x | x in xs :: FreshFor(all + added, x)
    ensures DistinctIds(xs[1..])
    ensures forall x | x in xs[1..] :: FreshFor(all + (added + {xs[0]}), x)
    ensures added + {xs[0]} + Elements(xs[1..]) == added + Elements(xs)
  {
    forall x | x in xs[1..] ensures FreshFor(all + (added + {xs[0]}), x) {
      assert x in xs;
      assert FreshFor(all + added, x);
    }
    assert Elements(xs) == {xs[0]} + Elements(xs[1..]);
  }

  lemma {:induction false} InsertAllMergesFrom(before: Pool, limit: nat, added: set<Neighbor>, p: Pool, xs: seq<Neighbor>)
    requires WellFormed(p, limit)
    requires IsMerged(before, limit, added, p)
    requires DistinctIds(xs)
    requires forall x | x in xs :: FreshFor(Elements(before.items) + added, x)
    ensures IsMerged(before, limit, added + Elements(xs), InsertAll(p, limit, xs))
    decreases |xs|
  {
    if xs == [] {
      assert added + Elements(xs) == added;
    } else {
      MergeStepWellFormed(before, limit, added, p, xs[0]);
      FreshForRest(Elements(before.items), added, xs);
      InsertAllMergesFrom(before, limit, added + {xs[0]}, InsertOne(p, limit, xs[0]), xs[1..]);
    }
  }

  /** A batch the pool may take: ids distinct and not in the pool. */
  ghost predicate FreshBatch(p: Pool, xs: seq<Neighbor>) {
    && DistinctIds(xs)
    && forall x | x in xs :: FreshFor(Elements(p.items), x)
  }

  /** Any run of insertions of new ids is a merge. */
  lemma InsertAllMerges(p: Pool, limit: nat, xs: seq<Neighbor>)
    requires WellFormed(p, limit) && FreshBatch(p, xs)
    ensures IsMerged(p, limit, Elements(xs), InsertAll(p, limit, xs))
  {
    NothingAdded(p, limit);
    assert Elements(p.items) + {} == Elements(p.items);
    InsertAllMergesFrom(p, limit, {}, p, xs);
    assert {} + Elements(xs) == Elements(xs);
  }

  /** A run of insertions of new ids keeps the pool well formed and its markers honest. */
  lemma {:induction false} InsertAllKeeps(p: Pool, limit: nat, xs: seq<Neighbor>)
    requires WellFormed(p, limit) && MarkersSettled(p) && FreshBatch(p, xs)
    ensures WellFormed(InsertAll(p, limit, xs), limit) && MarkersSettled(InsertAll(p, limit, xs))
    decreases |xs|
  {
    if xs != [] {
      InsertOneWellFormed(p, limit, xs[0]);
      InsertOneSettled(p, limit, xs[0]);
      FreshBatchRest(p, limit, xs);
      InsertAllKeeps(InsertOne(p, limit, xs[0]), limit, xs[1..]);
    }
  }

  lemma FreshBatchRest(p: Pool, limit: nat, xs: seq<Neighbor>)
    requires xs != [] && FreshBatch(p, xs)
    ensures FreshBatch(InsertOne(p, limit, xs[0]), xs[1..])
  {
    var q := InsertOne(p, limit, xs[0]);
    PlaceElements(p.items, Rank(p.items, xs[0]), xs[0]);
    assert Elements(q.items) <= Elements(p.items) + {xs[0]};
    forall x | x in xs[1..] ensures FreshFor(Elements(q.items), x) {
      assert x in xs;
      assert FreshFor(Elements(p.items), x);
    }
  }

  /** The order of the insertions does not matter, neither for the entries nor for the markers. */
  lemma InsertOrderIrrelevant(p: Pool, limit: nat, xs: seq<Neighbor>, ys: seq<Neighbor>)
    requires WellFormed(p, limit) && FreshBatch(p, xs)
    requires multiset(xs) == multiset(ys)
    ensures InsertAll(p, limit, xs) == InsertAll(p, limit, ys)
  {
    SameMultiset(xs, ys);
    assert forall y | y in ys :: y in Elements(ys);
    InsertAllMerges(p, limit, xs);
    InsertAllMerges(p, limit, ys);
    MergedUnique(p, limit, Elements(xs), InsertAll(p, limit, xs), InsertAll(p, limit, ys));
  }

  lemma SameMultiset(xs: seq<Neighbor>, ys: seq<Neighbor>)
    requires DistinctIds(xs) && multiset(xs) == multiset(ys)
    ensures Elements(xs) == Elements(ys) && DistinctIds(ys)
  {
    assert forall x :: x in xs <==> x in multiset(xs);
    assert forall x :: x in ys <==> x in multiset(ys);
    forall i, j | 0 <= i < j < |ys| ensures ys[i].id != ys[j].id {
      assert ys[i] in multiset(ys) && ys[j] in multiset(ys);
      assert ys[i] != ys[j] by {
        AtMostOnce(xs, ys[i]);
        assert ys == ys[..i] + [ys[i]] + ys[i + 1..j] + [ys[j]] + ys[j + 1..];
      }
    }
  }

  lemma AtMostOnce(xs: seq<Neighbor>, x: Neighbor)
    requires DistinctIds(xs)
    ensures multiset(xs)[x] <= 1
  {
    if xs != [] {
      assert xs == [xs[0]] + xs[1..];
      AtMostOnce(xs[1..], x);
      if x == xs[0] {
        assert x !in xs[1..];
        assert multiset(xs[1..])[x] == 0;
      }
    }
  }
}
