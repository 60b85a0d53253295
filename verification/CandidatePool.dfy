/** The bounded sorted candidate array of include/candidate_pool.h, updated in place. */
module CandidatePool {
  import opened Bounds
  import opened PoolSpec

  /** The duplicate test of the binary search: an exact tie, or the same id on either side of an
      interior insertion point. The two ends are taken without a test. */
  predicate DuplicateSeen(s: seq<Neighbor>, x: Neighbor) {
    var p := Rank(s, x);
    p < |s| && (SameKey(s[p], x) || (p > 0 && (s[p - 1].id == x.id || s[p].id == x.id)))
  }

  /** A call that reaches the search and meets a duplicate. */
  predicate Rejects(p: Pool, limit: nat, x: Neighbor) {
    p.items != [] && !CutOff(p.items, limit, x) && DuplicateSeen(p.items, x)
  }

  /** The pool after any call of insert. A rejected duplicate still advances the size of a pool
      that is not full, which exposes the storage slot after the last entry. */
  function InsertCall(p: Pool, limit: nat, x: Neighbor, slot: Neighbor): Pool {
    if !Rejects(p, limit, x) then InsertOne(p, limit, x)
    else if |p.items| < limit then p.(items := p.items + [slot])
    else p
  }

  function InsertResult(p: Pool, limit: nat, x: Neighbor): nat {
    if p.items == [] then 0
    else if CutOff(p.items, limit, x) then limit
    else if DuplicateSeen(p.items, x) then |p.items| + 1
    else Rank(p.items, x)
  }

  /** With the id not in the pool, which the callers' visited sets ensure, nothing is rejected. */
  lemma FreshNeverRejected(p: Pool, limit: nat, x: Neighbor)
    requires FreshFor(Elements(p.items), x)
    ensures !Rejects(p, limit, x)
  {
    assert forall i | 0 <= i < |p.items| :: p.items[i] in Elements(p.items);
  }

  lemma InsertCallFresh(p: Pool, limit: nat, x: Neighbor, slot: Neighbor)
    requires WellFormed(p, limit) && MarkersSettled(p)
    ensures FreshFor(Elements(p.items), x) ==>
              && InsertCall(p, limit, x, slot) == InsertOne(p, limit, x)
              && WellFormed(InsertOne(p, limit, x), limit)
              && MarkersSettled(InsertOne(p, limit, x))
  {
    if FreshFor(Elements(p.items), x) {
      FreshNeverRejected(p, limit, x);
      InsertOneWellFormed(p, limit, x);
      InsertOneSettled(p, limit, x);
    }
  }

  /** A rejected duplicate leaves the pool as it was exactly when the pool is full. */
  lemma RejectedUnchangedIffFull(p: Pool, limit: nat, x: Neighbor, slot: Neighbor)
    requires WellFormed(p, limit) && Rejects(p, limit, x)
    ensures InsertCall(p, limit, x, slot) == p <==> |p.items| == limit
  {
    assert |p.items + [slot]| != |p.items|;
  }

  /** One entry, room for two, the same entry again: the size grows to two. */
  lemma RejectedGrowsExample(slot: Neighbor)
    ensures var x := NewNeighbor(7, 1.0); var p := Pool([x], 0, 0);
      WellFormed(p, 2) && Rejects(p, 2, x) && InsertCall(p, 2, x, slot) == Pool([x, slot], 0, 0)
  {
    var x := NewNeighbor(7, 1.0);
    assert Rank([x], x) == 0;
    assert [x] + [slot] == [x, slot];
  }

  lemma InsertMarkers(p: Pool, limit: nat, x: Neighbor, slot: Neighbor)
    requires WellFormed(p, limit) && p.items != [] && !CutOff(p.items, limit, x)
    ensures var q, r := InsertCall(p, limit, x, slot), InsertResult(p, limit, x);
            q.firstUnvisited == Min(p.firstUnvisited, r) && q.sendMarker == Min(p.sendMarker, r)
  {
  }

  /** The sentinels never look like an insertion before a live entry. */
  lemma RejectionPastTheEnd(p: Pool, limit: nat, x: Neighbor)
    requires WellFormed(p, limit)
    ensures p.items != [] && (CutOff(p.items, limit, x) || DuplicateSeen(p.items, x)) ==> |p.items| <= InsertResult(p, limit, x)
    ensures !Rejects(p, limit, x) && !CutOff(p.items, limit, x) ==>
              var r := InsertResult(p, limit, x);
              r < |InsertOne(p, limit, x).items| && InsertOne(p, limit, x).items[r] == x
  {
    if p.items != [] && !CutOff(p.items, limit, x) && |p.items| == limit {
      assert Rank(p.items, x) < limit;
    }
  }

  /** Places nn into the sorted array addr[..k] at its rank, or reports a duplicate as k + 1. */
  method InsertIntoPool(addr: array<Neighbor>, k: nat, nn: Neighbor) returns (r: nat)
    requires 1 <= k < addr.Length && Sorted(addr[..k])
    modifies addr
    ensures DuplicateSeen(old(addr[..k]), nn) ==> r == k + 1 && addr[..] == old(addr[..])
    ensures !DuplicateSeen(old(addr[..k]), nn) ==>
              && r == Rank(old(addr[..k]), nn)
              && addr[..k + 1] == Place(old(addr[..k]), r, nn)
              && addr[k + 1..] == old(addr[k + 1..])
  {
    ghost var s := addr[..k];
    var left, right := 0, k - 1;
    if Less(nn, addr[left]) {
      RankUnique(s, nn, 0);
      ShiftInto(addr, k, left, nn);
      return left;
    }
    if Less(addr[right], nn) {
      RankUnique(s, nn, k);
      ShiftInto(addr, k, k, nn);
      return k;
    }
    while right > 1 && left < right - 1
      invariant 0 <= left <= right < k && (k > 1 ==> left < right)
      invariant !Less(nn, addr[left]) && !Less(addr[right], nn)
      invariant addr[..] == old(addr[..])
      decreases right - left
    {
      var mid := (left + right) / 2;
      if Less(nn, addr[mid]) {
        right := mid;
      } else {
        left := mid;
      }
    }
    assert s[left] == addr[left] && s[right] == addr[right];
    RankBetween(s, nn, left, right);
    ghost var l0 := left;
    while left > 0
      invariant 0 <= left <= l0
      invariant left < l0 ==> !Less(s[l0], nn) && s[l0].id != nn.id
      invariant addr[..] == old(addr[..])
      decreases left
    {
      if Less(addr[left], nn) {
        break;
      }
      if addr[left].id == nn.id {
        return k + 1;
      }
      left := left - 1;
    }
    if left < l0 {
      assert false;
    }
    if addr[left].id == nn.id || addr[right].id == nn.id {
      return k + 1;
    }
    ShiftInto(addr, k, right, nn);
    r := right;
  }

  /** Moves addr[r..k] up by one slot and puts nn into the gap. */
  method ShiftInto(addr: array<Neighbor>, k: nat, r: nat, nn: Neighbor)
    requires r <= k < addr.Length
    modifies addr
    ensures addr[..k + 1] == Place(old(addr[..k]), r, nn)
    ensures addr[k + 1..] == old(addr[k + 1..])
  {
    ghost var s := addr[..];
    forall i | r <= i < k {
      addr[i + 1] := addr[i];
    }
    addr[r] := nn;
    GapFilled(addr[..], s, k, r, nn);
  }

  lemma RankBetween(s: seq<Neighbor>, x: Neighbor, left: nat, right: nat)
    requires Sorted(s) && left <= right < |s| && right <= left + 1 && (|s| > 1 ==> left < right)
    requires left == right ==> left == 0
    requires !Less(x, s[left]) && !Less(s[right], x)
    ensures DuplicateSeen(s, x) <==> s[left].id == x.id || s[right].id == x.id
    ensures !DuplicateSeen(s, x) ==> Rank(s, x) == right
  {
    if Less(s[left], x) {
      RankUnique(s, x, right);
    } else {
      RankUnique(s, x, left);
    }
  }

  // ----- the pieces of a batch insertion -----

  /** The candidates held as two parallel arrays. */
  function Zip(ids: seq<nat>, dists: seq<real>): (s: seq<Neighbor>)
    requires |ids| == |dists|
    ensures |s| == |ids| && forall i | 0 <= i < |s| :: s[i] == NewNeighbor(ids[i], dists[i])
  {
    seq(|ids|, i requires 0 <= i < |ids| => NewNeighbor(ids[i], dists[i]))
  }

  function KeepCloser(s: seq<Neighbor>, worst: Neighbor): seq<Neighbor> {
    if s == [] then []
    else
      var last := s[|s| - 1];
      KeepCloser(s[..|s| - 1], worst) + if Less(last, worst) then [last] else []
  }

  lemma {:induction false} KeepCloserMember(s: seq<Neighbor>, worst: Neighbor, x: Neighbor)
    ensures x in KeepCloser(s, worst) <==> x in s && Less(x, worst)
  {
    if s != [] {
      var rest, last := s[..|s| - 1], s[|s| - 1];
      KeepCloserMember(rest, worst, x);
      assert s == rest + [last];
    }
  }

  lemma {:induction false} KeepCloserDistinct(s: seq<Neighbor>, worst: Neighbor)
    requires DistinctIds(s)
    ensures DistinctIds(KeepCloser(s, worst)) && |KeepCloser(s, worst)| <= |s|
  {
    if s != [] {
      var rest, last := s[..|s| - 1], s[|s| - 1];
      KeepCloserDistinct(rest, worst);
      var k := KeepCloser(rest, worst);
      forall i | 0 <= i < |k| ensures k[i].id != last.id {
        KeepCloserMember(rest, worst, k[i]);
      }
    }
  }

  /** Compacts away, in place, the candidates that are no better than `worst`. */
  method DropBeyondWorst(ids: array<nat>, dists: array<real>, n: nat, worst: Neighbor) returns (k: nat)
    requires n <= ids.Length && n <= dists.Length
    modifies ids, dists
    ensures k <= n
    ensures Zip(ids[..k], dists[..k]) == KeepCloser(old(Zip(ids[..n], dists[..n])), worst)
  {
    ghost var z := Zip(ids[..n], dists[..n]);
    k := 0;
    for i := 0 to n
      invariant Dropping(ids[..], dists[..], z, k, i, worst)
    {
      DropStep(ids[..], dists[..], z, k, i, worst);
      if Less(NewNeighbor(ids[i], dists[i]), worst) {
        ghost var us, ws := ids[..], dists[..];
        ids[k] := ids[i];
        dists[k] := dists[i];
        assert ids[..] == us[k := us[i]] && dists[..] == ws[k := ws[i]];
        k := k + 1;
      }
    }
    assert z[..n] == z;
  }

  /** Where the compaction stands: the first k of the first i are those kept, the rest is untouched. */
  ghost predicate Dropping(ids: seq<nat>, dists: seq<real>, z: seq<Neighbor>, k: nat, i: nat, worst: Neighbor) {
    && k <= i <= |z| <= |ids| && |z| <= |dists|
    && (forall m | i <= m < |z| :: z[m] == NewNeighbor(ids[m], dists[m]))
    && Zip(ids[..k], dists[..k]) == KeepCloser(z[..i], worst)
  }

  lemma DropStep(ids: seq<nat>, dists: seq<real>, z: seq<Neighbor>, k: nat, i: nat, worst: Neighbor)
    requires Dropping(ids, dists, z, k, i, worst) && i < |z|
    ensures if Less(NewNeighbor(ids[i], dists[i]), worst) then Dropping(ids[k := ids[i]], dists[k := dists[i]], z, k + 1, i + 1, worst)
            else Dropping(ids, dists, z, k, i + 1, worst)
  {
    KeepCloserStep(z, i, worst);
    if Less(z[i], worst) {
      var us, ws := ids[k := ids[i]], dists[k := dists[i]];
      assert us[..k] == ids[..k] && ws[..k] == dists[..k];
      ZipMore(us[..k + 1], ws[..k + 1], Zip(ids[..k], dists[..k]), z[i]);
    }
  }

  lemma KeepCloserStep(z: seq<Neighbor>, i: nat, worst: Neighbor)
    requires i < |z|
    ensures KeepCloser(z[..i + 1], worst) == KeepCloser(z[..i], worst) + if Less(z[i], worst) then [z[i]] else []
  {
    assert z[..i + 1][..i] == z[..i];
  }

  lemma ZipMore(ids: seq<nat>, dists: seq<real>, z: seq<Neighbor>, x: Neighbor)
    requires |ids| == |dists| == |z| + 1
    requires forall i | 0 <= i < |z| :: z[i] == NewNeighbor(ids[i], dists[i])
    requires x == NewNeighbor(ids[|z|], dists[|z|])
    ensures Zip(ids, dists) == z + [x]
  {
  }

  /** One outer step of the co-sort: moves candidate i down to its place among the first i. */
  method SiftDown(ids: array<nat>, dists: array<real>, i: nat)
    requires i < ids.Length && i < dists.Length
    requires Sorted(Zip(ids[..i], dists[..i]))
    requires FreshFor(Elements(Zip(ids[..i], dists[..i])), NewNeighbor(ids[i], dists[i]))
    modifies ids, dists
    ensures var z, x := old(Zip(ids[..i], dists[..i])), NewNeighbor(old(ids[i]), old(dists[i]));
            Zip(ids[..i + 1], dists[..i + 1]) == Place(z, Rank(z, x), x)
    ensures ids[i + 1..] == old(ids[i + 1..]) && dists[i + 1..] == old(dists[i + 1..])
  {
    ghost var ids0, dists0, z := ids[..], dists[..], Zip(ids[..i], dists[..i]);
    var id, d := ids[i], dists[i];
    var j := OpenGap(ids, dists, i, id, d);
    dists[j] := d;
    ids[j] := id;
    SiftedRank(z, NewNeighbor(id, d), j);
    GapFilled(ids[..], ids0, i, j, id);
    GapFilled(dists[..], dists0, i, j, d);
    SiftedZip(ids0[..i], dists0[..i], j, id, d);
  }

  /** `a` is `s` with s[j..i] moved up by one. */
  ghost predicate GapAt<T(!new)>(a: seq<T>, s: seq<T>, i: nat, j: nat)
    requires j <= i < |s| == |a|
  {
    && (forall k | 0 <= k < j :: a[k] == s[k])
    && (forall k | j <= k < i :: a[k + 1] == s[k])
    && (forall k | i < k < |s| :: a[k] == s[k])
  }

  lemma GapFilled<T(!new)>(a: seq<T>, s: seq<T>, i: nat, j: nat, x: T)
    requires j <= i < |s| == |a| && GapAt(a, s, i, j) && a[j] == x
    ensures a[..i + 1] == s[..i][..j] + [x] + s[..i][j..]
    ensures a[i + 1..] == s[i + 1..]
  {
    var t := s[..i][..j] + [x] + s[..i][j..];
    forall k | 0 <= k <= i ensures a[k] == t[k] {
      if k < j {
        assert t[k] == s[..i][..j][k];
      } else if k > j {
        assert t[k] == s[..i][j..][k - j - 1] == s[k - 1];
        assert a[(k - 1) + 1] == s[k - 1];
      }
    }
    assert a[..i + 1] == t;
  }

  /** The inner loop of the co-sort: moves every farther candidate up. */
  method OpenGap(ids: array<nat>, dists: array<real>, i: nat, id: nat, d: real) returns (j: nat)
    requires i < ids.Length && i < dists.Length
    modifies ids, dists
    ensures j <= i && GapAt(ids[..], old(ids[..]), i, j) && GapAt(dists[..], old(dists[..]), i, j)
    ensures var z := old(Zip(ids[..i], dists[..i]));
            (j < i ==> Less(NewNeighbor(id, d), z[j])) && (j > 0 ==> !Less(NewNeighbor(id, d), z[j - 1]))
  {
    j := i;
    ghost var ids0, dists0 := ids[..], dists[..];
    while j > 0 && (dists[j - 1] > d || (dists[j - 1] == d && ids[j - 1] > id))
      invariant 0 <= j <= i
      invariant GapAt(ids[..], ids0, i, j) && GapAt(dists[..], dists0, i, j)
      invariant j < i ==> dists0[j] > d || (dists0[j] == d && ids0[j] > id)
    {
      dists[j] := dists[j - 1];
      ids[j] := ids[j - 1];
      j := j - 1;
    }
  }

  lemma SiftedRank(z: seq<Neighbor>, x: Neighbor, j: nat)
    requires Sorted(z) && FreshFor(Elements(z), x) && j <= |z|
    requires j < |z| ==> Less(x, z[j])
    requires j > 0 ==> !Less(x, z[j - 1])
    ensures Rank(z, x) == j
  {
    assert j > 0 ==> z[j - 1] in Elements(z);
    RankUnique(z, x, j);
  }

  lemma SiftedZip(ids: seq<nat>, dists: seq<real>, j: nat, id: nat, d: real)
    requires |ids| == |dists| && j <= |ids|
    ensures Zip(ids[..j] + [id] + ids[j..], dists[..j] + [d] + dists[j..]) == Place(Zip(ids, dists), j, NewNeighbor(id, d))
  {
  }

  /** The insertion co-sort of the two arrays. */
  method CoSort(ids: array<nat>, dists: array<real>, n: nat)
    requires 0 < n <= ids.Length && n <= dists.Length
    requires DistinctIds(Zip(ids[..n], dists[..n]))
    modifies ids, dists
    ensures Sorted(Zip(ids[..n], dists[..n]))
    ensures Elements(Zip(ids[..n], dists[..n])) == Elements(old(Zip(ids[..n], dists[..n])))
  {
    ghost var z := Zip(ids[..n], dists[..n]);
    assert Zip(ids[..1], dists[..1]) == z[..1];
    for i := 1 to n
      invariant CoSorting(ids[..], dists[..], z, i)
    {
      ghost var us, ws := ids[..], dists[..];
      SortStep(z, i, Zip(us[..i], ws[..i]));
      assert us[..i] == ids[..i] && ws[..i] == dists[..i];
      SiftDown(ids, dists, i);
      CoSortStep(us, ws, z, i, ids[..], dists[..]);
    }
    assert ids[..][..n] == ids[..n] && dists[..][..n] == dists[..n];
    assert z[..n] == z;
  }

  /** Where the sort stands: the first i pairs are in order, the rest is untouched. */
  ghost predicate CoSorting(ids: seq<nat>, dists: seq<real>, z: seq<Neighbor>, i: nat) {
    && i <= |z| <= |ids| && |z| <= |dists|
    && Sorted(Zip(ids[..i], dists[..i])) && Elements(Zip(ids[..i], dists[..i])) == Elements(z[..i])
    && forall m | i <= m < |z| :: z[m] == NewNeighbor(ids[m], dists[m])
  }

  lemma CoSortStep(ids: seq<nat>, dists: seq<real>, z: seq<Neighbor>, i: nat, us: seq<nat>, ws: seq<real>)
    requires DistinctIds(z) && CoSorting(ids, dists, z, i) && i < |z| && |us| == |ids| && |ws| == |dists|
    requires var before := Zip(ids[..i], dists[..i]); Zip(us[..i + 1], ws[..i + 1]) == Place(before, Rank(before, z[i]), z[i])
    requires us[i + 1..] == ids[i + 1..] && ws[i + 1..] == dists[i + 1..]
    ensures CoSorting(us, ws, z, i + 1)
  {
    SortStep(z, i, Zip(ids[..i], dists[..i]));
    forall m | i < m < |z| ensures z[m] == NewNeighbor(us[m], ws[m]) {
      assert us[m] == us[i + 1..][m - i - 1] && ws[m] == ws[i + 1..][m - i - 1];
    }
  }

  lemma SortStep(z: seq<Neighbor>, i: nat, before: seq<Neighbor>)
    requires DistinctIds(z) && i < |z| && Sorted(before) && Elements(before) == Elements(z[..i])
    ensures FreshFor(Elements(before), z[i])
    ensures var after := Place(before, Rank(before, z[i]), z[i]);
            Sorted(after) && Elements(after) == Elements(z[..i + 1])
  {
    PrefixFresh(z, i);
    PlaceSorted(before, z[i]);
    PlaceElements(before, Rank(before, z[i]), z[i]);
    assert z[..i + 1] == z[..i] + [z[i]];
  }

  lemma PrefixFresh(z: seq<Neighbor>, i: nat)
    requires DistinctIds(z) && i < |z|
    ensures FreshFor(Elements(z[..i]), z[i])
  {
  }

  /** Keeping items[..re] and batch[..ne] keeps what is closer than everything dropped. */
  ghost predicate CutApart(items: seq<Neighbor>, re: nat, batch: seq<Neighbor>, ne: nat)
    requires re <= |items| && ne <= |batch|
  {
    && (forall i, j | 0 <= i < re && ne <= j < |batch| :: Less(items[i], batch[j]))
    && (forall i, j | re <= i < |items| && 0 <= j < ne :: Less(batch[j], items[i]))
  }

  lemma CutKeepsClosest(items: seq<Neighbor>, re: nat, batch: seq<Neighbor>, ne: nat)
    requires re <= |items| && ne <= |batch| && Sorted(items) && Sorted(batch) && CutApart(items, re, batch, ne)
    ensures forall x, y | x in Elements(items) + Elements(batch) && x !in Elements(items[..re]) + Elements(batch[..ne]) &&
                          y in Elements(items[..re]) + Elements(batch[..ne]) :: Less(y, x)
  {
    forall x, y | x in Elements(items) + Elements(batch) && x !in Elements(items[..re]) + Elements(batch[..ne]) &&
                  y in Elements(items[..re]) + Elements(batch[..ne])
      ensures Less(y, x)
    {
      assert items == items[..re] + items[re..] && batch == batch[..ne] + batch[ne..];
      assert x in items[re..] || x in batch[ne..];
    }
  }

  lemma DisjointSize(items: seq<Neighbor>, batch: seq<Neighbor>)
    requires Sorted(items) && Sorted(batch) && forall x | x in batch :: FreshFor(Elements(items), x)
    ensures |Elements(items) + Elements(batch)| == |items| + |batch|
  {
    SortedSize(items);
    SortedSize(batch);
    assert Elements(items) !! Elements(batch) by {
      forall x | x in Elements(batch) ensures x !in Elements(items) {
        assert FreshFor(Elements(items), x);
      }
    }
  }

  lemma CutIsClosest(items: seq<Neighbor>, re: nat, batch: seq<Neighbor>, ne: nat, limit: nat, after: seq<Neighbor>)
    requires re <= |items| && ne <= |batch| && re + ne == Min(limit, |items| + |batch|)
    requires Sorted(items) && Sorted(batch) && forall x | x in batch :: FreshFor(Elements(items), x)
    requires CutApart(items, re, batch, ne)
    requires Sorted(after) && |after| == re + ne && Elements(after) == Elements(items[..re]) + Elements(batch[..ne])
    ensures IsClosest(after, limit, Elements(items) + Elements(batch))
  {
    DisjointSize(items, batch);
    CutKeepsClosest(items, re, batch, ne);
    assert Elements(items[..re]) <= Elements(items) && Elements(batch[..ne]) <= Elements(batch);
    assert forall x :: x in after <==> x in Elements(after);
  }

  /** The part of the merged array that is already in place: everything from items[seg..re] and
      batch[j..ne], in order, and farther than all that is still to be placed. */
  ghost predicate TailPlaced(items: seq<Neighbor>, re: nat, batch: seq<Neighbor>, ne: nat, seg: nat, j: nat, tail: seq<Neighbor>)
    requires seg <= re <= |items| && j <= ne <= |batch|
  {
    && |tail| == re - seg + ne - j
    && Sorted(tail)
    && Elements(tail) == Elements(items[seg..re]) + Elements(batch[j..ne])
    && (forall i, k | 0 <= i < seg && 0 <= k < |tail| :: Less(items[i], tail[k]))
    && (forall i, k | 0 <= i < j && 0 <= k < |tail| :: Less(batch[i], tail[k]))
    && (j < ne ==> tail[0] == batch[j])
  }

  lemma TailStart(items: seq<Neighbor>, re: nat, batch: seq<Neighbor>, ne: nat)
    requires re <= |items| && ne <= |batch|
    ensures TailPlaced(items, re, batch, ne, re, ne, [])
  {
  }

  lemma TailStep(items: seq<Neighbor>, re: nat, batch: seq<Neighbor>, ne: nat, seg: nat, j: nat, tail: seq<Neighbor>, pj: nat)
    requires pj <= seg <= re <= |items| && 0 < j <= ne <= |batch|
    requires Sorted(items) && Sorted(batch) && FreshFor(Elements(items), batch[j - 1])
    requires TailPlaced(items, re, batch, ne, seg, j, tail)
    requires pj > 0 ==> !Less(batch[j - 1], items[pj - 1])
    requires pj < seg ==> Less(batch[j - 1], items[pj])
    ensures TailPlaced(items, re, batch, ne, pj, j - 1, [batch[j - 1]] + items[pj..seg] + tail)
  {
    var nn := batch[j - 1];
    var t := [nn] + items[pj..seg] + tail;
    TailStepSorted(items, batch, seg, j, tail, pj);
    TailStepElements(items, re, batch, ne, seg, j, tail, pj);
    assert pj > 0 ==> items[pj - 1] in Elements(items);
    forall i | 0 <= i < pj ensures Less(items[i], nn) {
      assert i < pj - 1 ==> Less(items[i], items[pj - 1]);
    }
    AllBefore(items[..pj], nn, items[pj..seg], tail);
    AllBefore(batch[..j - 1], nn, items[pj..seg], tail);
  }

  /** What comes before nn comes before everything that follows nn. */
  lemma AllBefore(front: seq<Neighbor>, nn: Neighbor, mid: seq<Neighbor>, tail: seq<Neighbor>)
    requires Sorted([nn] + mid + tail) && forall i | 0 <= i < |front| :: Less(front[i], nn)
    ensures forall i, k | 0 <= i < |front| && 0 <= k < |[nn] + mid + tail| :: Less(front[i], ([nn] + mid + tail)[k])
  {
    var t := [nn] + mid + tail;
    forall i, k | 0 <= i < |front| && 0 <= k < |t| ensures Less(front[i], t[k]) {
      assert k > 0 ==> Less(t[0], t[k]);
    }
  }

  lemma TailStepElements(items: seq<Neighbor>, re: nat, batch: seq<Neighbor>, ne: nat, seg: nat, j: nat, tail: seq<Neighbor>, pj: nat)
    requires pj <= seg <= re <= |items| && 0 < j <= ne <= |batch|
    requires Elements(tail) == Elements(items[seg..re]) + Elements(batch[j..ne])
    ensures Elements([batch[j - 1]] + items[pj..seg] + tail) == Elements(items[pj..re]) + Elements(batch[j - 1..ne])
  {
    var nn := batch[j - 1];
    assert batch[j - 1..ne] == [nn] + batch[j..ne];
    assert items[pj..re] == items[pj..seg] + items[seg..re];
    assert Elements([nn] + items[pj..seg] + tail) == {nn} + Elements(items[pj..seg]) + Elements(tail);
  }

  lemma TailStepSorted(items: seq<Neighbor>, batch: seq<Neighbor>, seg: nat, j: nat, tail: seq<Neighbor>, pj: nat)
    requires pj <= seg <= |items| && 0 < j <= |batch| && Sorted(items) && Sorted(tail)
    requires forall i, k | 0 <= i < seg && 0 <= k < |tail| :: Less(items[i], tail[k])
    requires forall i, k | 0 <= i < j && 0 <= k < |tail| :: Less(batch[i], tail[k])
    requires pj < seg ==> Less(batch[j - 1], items[pj])
    ensures Sorted([batch[j - 1]] + items[pj..seg] + tail)
  {
    var nn := batch[j - 1];
    var t := [nn] + items[pj..seg] + tail;
    forall i, k | 0 <= i < k < |t| ensures Less(t[i], t[k]) {
      if i == 0 && k <= seg - pj {
        assert t[k] == items[pj + k - 1];
      }
    }
  }

  /** The whole array once nothing is left to place. */
  lemma TailComplete(items: seq<Neighbor>, re: nat, batch: seq<Neighbor>, ne: nat, seg: nat, tail: seq<Neighbor>)
    requires seg <= re <= |items| && ne <= |batch| && Sorted(items)
    requires TailPlaced(items, re, batch, ne, seg, 0, tail)
    ensures Sorted(items[..seg] + tail)
    ensures Elements(items[..seg] + tail) == Elements(items[..re]) + Elements(batch[..ne])
  {
    assert items[..re] == items[..seg] + items[seg..re];
    assert batch[0..ne] == batch[..ne];
    assert Elements(items[..seg] + tail) == Elements(items[..seg]) + Elements(tail);
  }

  /** Before the cutoff or after it, the merge has the same outcome: what a full pool refuses
      outright cannot rank inside the pool. */
  lemma CutOffIrrelevant(before: Pool, limit: nat, xs: seq<Neighbor>, after: Pool)
    requires WellFormed(before, limit) && |before.items| == limit && FreshBatch(before, xs)
    requires IsMerged(before, limit, Elements(KeepCloser(xs, before.items[limit - 1])), after)
    ensures IsMerged(before, limit, Elements(xs), after)
  {
    var worst := before.items[limit - 1];
    var kept, all, items := Elements(KeepCloser(xs, worst)), Elements(before.items) + Elements(xs), after.items;
    var some := Elements(before.items) + kept;
    forall x ensures x in kept <==> x in xs && Less(x, worst) {
      KeepCloserMember(xs, worst, x);
    }
    SortedSize(before.items);
    assert Elements(before.items) <= some <= all;
    SizeMonotone(Elements(before.items), some);
    SizeMonotone(some, all);
    DroppedIsFarther(before.items, limit, xs, kept, items);
    assert forall x | x in items :: x in Elements(items);
    forall i | 0 <= i < FirstNew(items, kept) ensures items[i] !in Elements(xs) {
      assert items[i] in Elements(items);
    }
    FirstNewIs(items, Elements(xs), FirstNew(items, kept));
  }

  lemma SizeMonotone(a: set<Neighbor>, b: set<Neighbor>)
    requires a <= b
    ensures |a| <= |b|
  {
    assert b == a + (b - a);
  }

  /** Merging only tightens the cut: no entry ends up beyond the old worst. */
  lemma WorstStaysWorst(pool: seq<Neighbor>, limit: nat, all: set<Neighbor>, items: seq<Neighbor>, y: Neighbor)
    requires 0 < |pool| == limit && Sorted(pool) && Elements(pool) <= all
    requires IsClosest(items, limit, all) && y in items
    ensures !Less(pool[limit - 1], y)
  {
    var worst := pool[limit - 1];
    assert worst in Elements(pool);
    assert forall p | p in pool :: !Less(worst, p);
    assert y in Elements(items);
    if Less(worst, y) {
      forall p | p in Elements(pool) ensures p in Elements(items) {
        assert !Less(worst, p);
        assert worst in items;
      }
      SortedSize(pool);
      SortedSize(items);
      SizeMonotone(Elements(items), all);
      SubsetSmaller(Elements(pool), Elements(items));
      assert false;
    }
  }

  /** A candidate dropped at the cutoff is farther than every entry of the merged pool. */
  lemma DroppedIsFarther(pool: seq<Neighbor>, limit: nat, xs: seq<Neighbor>, kept: set<Neighbor>, items: seq<Neighbor>)
    requires 0 < |pool| == limit && Sorted(pool)
    requires forall x | x in xs :: FreshFor(Elements(pool), x)
    requires forall x | x in xs && Less(x, pool[limit - 1]) :: x in kept
    requires IsClosest(items, limit, Elements(pool) + kept)
    ensures forall x, y | x in Elements(pool) + Elements(xs) && x !in items && y in items :: Less(y, x)
  {
    var worst := pool[limit - 1];
    assert worst in Elements(pool);
    forall x, y | x in Elements(pool) + Elements(xs) && x !in items && y in items ensures Less(y, x) {
      if x !in Elements(pool) + kept {
        assert FreshFor(Elements(pool), x);
        WorstStaysWorst(pool, limit, Elements(pool) + kept, items, y);
      }
    }
  }

  /** The first position of a[..end] whose entry is farther than x. */
  method UpperBound(a: array<Neighbor>, end: nat, x: Neighbor) returns (p: nat)
    requires end <= a.Length && Sorted(a[..end])
    ensures p <= end
    ensures p > 0 ==> !Less(x, a[p - 1])
    ensures p < end ==> Less(x, a[p])
  {
    ghost var s := a[..end];
    p := 0;
    var hi := end;
    while p < hi
      invariant p <= hi <= end
      invariant p > 0 ==> !Less(x, a[p - 1])
      invariant hi < end ==> Less(x, a[hi])
    {
      var mid := (p + hi) / 2;
      if Less(x, a[mid]) {
        hi := mid;
      } else {
        p := mid + 1;
      }
    }
  }

  class CandidatePool {
    var retset: array<Neighbor>
    var curListSize: nat
    var lPool: nat
    var firstUnvisited: nat
    var sendMarker: nat

    ghost function Abs(): Pool
      requires curListSize <= retset.Length
      reads this, retset
    {
      Pool(retset[..curListSize], firstUnvisited, sendMarker)
    }

    ghost predicate Valid()
      reads this, retset
    {
      && lPool < retset.Length
      && curListSize <= retset.Length
      && WellFormed(Abs(), lPool)
      && MarkersSettled(Abs())
    }

    /** The placeholder of an unused slot. */
    static const UNUSED := Neighbor(0, 340282346638528859811704183484516925440.0, true, false)

    constructor (limit: nat, capacity: nat)
      requires 1 <= limit
      ensures Valid() && lPool == limit && Abs() == Pool([], 0, 0) && fresh(retset)
      ensures retset.Length >= capacity && forall i | 0 <= i < retset.Length :: retset[i] == UNUSED
    {
      lPool := limit;
      curListSize, firstUnvisited, sendMarker := 0, 0, 0;
      retset := new Neighbor[if capacity > limit + 1 then capacity else limit + 1](_ => UNUSED);
    }

    /** Past the two early exits: the entry goes to its rank, or the search finds a duplicate. */
    method InsertAtRank(nn: Neighbor) returns (r: nat)
      requires Valid() && curListSize > 0 && !CutOff(Abs().items, lPool, nn)
      modifies this`curListSize, this`firstUnvisited, this`sendMarker, retset
      ensures r == InsertResult(old(Abs()), lPool, nn)
      ensures curListSize <= retset.Length
      ensures Abs().items == InsertCall(old(Abs()), lPool, nn, old(retset[curListSize])).items
      ensures firstUnvisited == Min(old(firstUnvisited), r) && sendMarker == Min(old(sendMarker), r)
    {
      ghost var k := curListSize;
      r := InsertIntoPool(retset, curListSize, nn);
      assert retset[..k + 1][..k] == retset[..k];
      if curListSize < lPool {
        curListSize := curListSize + 1;
      }
      if r < firstUnvisited {
        firstUnvisited := r;
      }
      sendMarker := Min(sendMarker, r);
    }

    /** One candidate. `Valid` survives exactly the calls the callers make: ids not in the pool. */
    method Insert(nn: Neighbor) returns (r: nat)
      requires Valid()
      modifies this`curListSize, this`firstUnvisited, this`sendMarker, retset
      ensures curListSize <= retset.Length
      ensures Abs() == InsertCall(old(Abs()), lPool, nn, old(retset[curListSize]))
      ensures r == InsertResult(old(Abs()), lPool, nn)
      ensures FreshFor(Elements(old(Abs()).items), nn) ==> Valid() && Abs() == InsertOne(old(Abs()), lPool, nn)
    {
      ghost var before, slot := Abs(), retset[curListSize];
      if curListSize == 0 {
        retset[0] := nn;
        curListSize, firstUnvisited, sendMarker := 1, 0, 0;
        assert retset[..1] == [nn];
        r := 0;
      } else if !Less(nn, retset[curListSize - 1]) && curListSize == lPool {
        r := lPool;
      } else {
        r := InsertAtRank(nn);
        InsertMarkers(before, lPool, nn, slot);
      }
      assert Abs() == InsertCall(before, lPool, nn, slot);
      InsertCallFresh(before, lPool, nn, slot);
    }

    /** How much of the pool and of the sorted batch survives: from both ends, drop the farther. */
    method Trim(ids: array<nat>, dists: array<real>, n: nat) returns (retsetEnd: nat, newEnd: nat)
      requires Valid() && n <= ids.Length && n <= dists.Length
      requires Sorted(Zip(ids[..n], dists[..n]))
      requires forall x | x in Zip(ids[..n], dists[..n]) :: FreshFor(Elements(Abs().items), x)
      ensures retsetEnd <= curListSize && newEnd <= n
      ensures retsetEnd + newEnd == Min(lPool, curListSize + n)
      ensures CutApart(Abs().items, retsetEnd, Zip(ids[..n], dists[..n]), newEnd)
    {
      retsetEnd, newEnd := curListSize, n;
      var tot := curListSize + n;
      ghost var items, batch := Abs().items, Zip(ids[..n], dists[..n]);
      while tot > lPool
        invariant retsetEnd <= curListSize && newEnd <= n && tot == retsetEnd + newEnd
        invariant tot >= Min(lPool, curListSize + n)
        invariant CutApart(items, retsetEnd, batch, newEnd)
      {
        if newEnd == 0 || (retsetEnd > 0 && !Less(retset[retsetEnd - 1], NewNeighbor(ids[newEnd - 1], dists[newEnd - 1]))) {
          if newEnd > 0 {
            DropPoolEnd(items, retsetEnd, batch, newEnd);
          }
          retsetEnd := retsetEnd - 1;
        } else {
          newEnd := newEnd - 1;
        }
        tot := tot - 1;
      }
    }

    /** Merges the surviving batch prefix into the surviving pool prefix from the top down, moving
        each pool segment once. Returns the position of the closest batch element. */
    method MergeDown(ids: array<nat>, dists: array<real>, n: nat, retsetEnd: nat, newEnd: nat) returns (lowest: nat)
      requires Valid() && n <= ids.Length && n <= dists.Length
      requires Sorted(Zip(ids[..n], dists[..n]))
      requires forall x | x in Zip(ids[..n], dists[..n]) :: FreshFor(Elements(Abs().items), x)
      requires retsetEnd <= curListSize && 0 < newEnd <= n && retsetEnd + newEnd <= lPool
      modifies retset
      ensures lowest <= retsetEnd
      ensures retset[..lowest] == old(Abs()).items[..lowest]
      ensures TailPlaced(old(Abs()).items, retsetEnd, Zip(ids[..n], dists[..n]), newEnd, lowest, 0, retset[lowest..retsetEnd + newEnd])
    {
      ghost var items, batch := Abs().items, Zip(ids[..n], dists[..n]);
      var segEnd, j := retsetEnd, newEnd;
      ghost var end := retsetEnd + newEnd;
      TailStart(items, retsetEnd, batch, newEnd);
      assert retset[end..end] == [];
      while j > 0
        invariant 0 <= segEnd <= retsetEnd && 0 <= j <= newEnd
        invariant retset[..segEnd] == items[..segEnd]
        invariant TailPlaced(items, retsetEnd, batch, newEnd, segEnd, j, retset[segEnd + j..end])
      {
        ghost var tail := retset[segEnd + j..end];
        j := j - 1;
        assert FreshFor(Elements(items), batch[j]);
        segEnd := PlaceFromTop(NewNeighbor(ids[j], dists[j]), segEnd, j, items, retsetEnd, batch, newEnd, tail);
      }
      lowest := segEnd;
    }

    /** One step of the merge: batch element j and the pool segment above it reach their places. */
    method PlaceFromTop(nn: Neighbor, segEnd: nat, j: nat, ghost items: seq<Neighbor>, ghost re: nat,
                        ghost batch: seq<Neighbor>, ghost ne: nat, ghost tail: seq<Neighbor>) returns (pj: nat)
      requires segEnd <= re <= |items| && j < ne <= |batch| && re + ne <= retset.Length
      requires Sorted(items) && Sorted(batch) && nn == batch[j] && FreshFor(Elements(items), nn)
      requires retset[..segEnd] == items[..segEnd]
      requires tail == retset[segEnd + j + 1..re + ne] && TailPlaced(items, re, batch, ne, segEnd, j + 1, tail)
      modifies retset
      ensures pj <= segEnd
      ensures retset[..pj] == items[..pj]
      ensures TailPlaced(items, re, batch, ne, pj, j, retset[pj + j..re + ne])
    {
      ghost var was := retset[..];
      PrefixSorted(items, segEnd);
      pj := UpperBound(retset, segEnd, nn);
      PrefixAgrees(was, items, segEnd);
      TailStep(items, re, batch, ne, segEnd, j + 1, tail, pj);
      MoveSegment(pj, segEnd, j, nn);
      SegmentSlices(was, retset[..], pj, segEnd, j, nn, re + ne);
      SegmentOf(was, items, segEnd, pj);
    }

    /** The merge and the markers, once it is known what survives. */
    method MergeSurvivors(ids: array<nat>, dists: array<real>, n: nat, retsetEnd: nat, newEnd: nat)
      requires Valid() && n <= ids.Length && n <= dists.Length
      requires Sorted(Zip(ids[..n], dists[..n]))
      requires forall x | x in Zip(ids[..n], dists[..n]) :: FreshFor(Elements(Abs().items), x)
      requires retsetEnd <= curListSize && 0 < newEnd <= n && retsetEnd + newEnd <= lPool
      modifies this`curListSize, this`firstUnvisited, this`sendMarker, retset
      ensures curListSize <= retset.Length
      ensures AreSurvivors(old(Abs()), Zip(ids[..n], dists[..n]), retsetEnd, newEnd, Abs())
    {
      ghost var before, batch := Abs(), Zip(ids[..n], dists[..n]);
      var lowest := MergeHere(ids, dists, n, retsetEnd, newEnd);
      SetEnds(lowest, retsetEnd + newEnd);
      assert Zip(ids[..n], dists[..n]) == batch;
    }

    method MergeHere(ids: array<nat>, dists: array<real>, n: nat, retsetEnd: nat, newEnd: nat) returns (lowest: nat)
      requires Valid() && n <= ids.Length && n <= dists.Length
      requires Sorted(Zip(ids[..n], dists[..n]))
      requires forall x | x in Zip(ids[..n], dists[..n]) :: FreshFor(Elements(Abs().items), x)
      requires retsetEnd <= curListSize && 0 < newEnd <= n && retsetEnd + newEnd <= lPool
      modifies retset
      ensures retsetEnd + newEnd <= retset.Length
      ensures AreSurvivors(old(Abs()), Zip(ids[..n], dists[..n]), retsetEnd, newEnd,
                           Pool(retset[..][..retsetEnd + newEnd], Min(firstUnvisited, lowest), Min(sendMarker, lowest)))
    {
      ghost var before, batch := Abs(), Zip(ids[..n], dists[..n]);
      lowest := MergeDown(ids, dists, n, retsetEnd, newEnd);
      SurvivorsHere(before, batch, retsetEnd, newEnd, retset[..], lowest);
    }

    /** The new size, and the markers lowered to the closest new entry. */
    method SetEnds(lowest: nat, size: nat)
      requires size <= retset.Length
      modifies this`curListSize, this`firstUnvisited, this`sendMarker
      ensures curListSize == size && Abs() == Pool(retset[..][..size], Min(old(firstUnvisited), lowest), Min(old(sendMarker), lowest))
    {
      curListSize := size;
      if lowest < firstUnvisited {
        firstUnvisited := lowest;
      }
      sendMarker := Min(sendMarker, lowest);
    }

    /** The batch once sorted: trim, merge, lower the markers. */
    method MergeSorted(ids: array<nat>, dists: array<real>, n: nat)
      requires Valid() && 0 < n <= ids.Length && n <= dists.Length
      requires Sorted(Zip(ids[..n], dists[..n])) && FreshBatch(Abs(), Zip(ids[..n], dists[..n]))
      modifies this`curListSize, this`firstUnvisited, this`sendMarker, retset
      ensures curListSize <= retset.Length
      ensures Abs() == InsertAll(old(Abs()), lPool, Zip(ids[..n], dists[..n]))
    {
      ghost var before, batch := Abs(), Zip(ids[..n], dists[..n]);
      var retsetEnd, newEnd := Trim(ids, dists, n);
      assert CutApart(before.items, retsetEnd, batch, newEnd);
      if newEnd == 0 {
        NothingSurvives(before, lPool, batch);
        InsertAllIs(before, lPool, batch, before);
      } else {
        MergeSurvivors(ids, dists, n, retsetEnd, newEnd);
        SurvivorsMerged(before, lPool, batch, retsetEnd, newEnd, Abs());
        InsertAllIs(before, lPool, batch, Abs());
      }
    }

    /** A batch of candidates in parallel arrays, ids distinct and not in the pool: the same pool
        and the same markers as inserting them one at a time. */
    method InsertBatch(ids: array<nat>, dists: array<real>, n: nat)
      requires Valid() && n <= ids.Length && n <= dists.Length
      requires FreshBatch(Abs(), Zip(ids[..n], dists[..n]))
      modifies this`curListSize, this`firstUnvisited, this`sendMarker, retset, ids, dists
      ensures Valid()
      ensures Abs() == InsertAll(old(Abs()), lPool, old(Zip(ids[..n], dists[..n])))
    {
      ghost var before, xs := Abs(), Zip(ids[..n], dists[..n]);
      InsertAllKeeps(before, lPool, xs);
      var worst := if curListSize == 0 then UNUSED else retset[curListSize - 1];
      var m := PrepareBatch(ids, dists, n, curListSize == lPool, worst);
      ghost var batch := Zip(ids[..m], dists[..m]);
      PreparedSame(before, lPool, xs, worst, batch);
      if m != 0 {
        MergeSorted(ids, dists, m);
      } else {
        assert batch == [];
      }
    }

    /** Moves the calc frontier over the expanded prefix. True once everything is expanded. */
    method AllVisited() returns (done: bool)
      requires Valid()
      modifies this`firstUnvisited
      ensures Valid()
      ensures done <==> forall x | x in Abs().items :: x.visited
      ensures firstUnvisited == FirstUnvisited(Abs().items)
    {
      while firstUnvisited < curListSize && retset[firstUnvisited].visited
        invariant firstUnvisited <= curListSize
        invariant Valid()
        decreases curListSize - firstUnvisited
      {
        firstUnvisited := firstUnvisited + 1;
      }
      assert forall i | 0 <= i < firstUnvisited :: Abs().items[i].visited;
      FirstUnvisitedIs(Abs().items, firstUnvisited);
      done := firstUnvisited >= curListSize;
    }

    /** Hands out the closest unexpanded candidate and marks it expanded. */
    method NextUnvisited() returns (found: bool, at: nat)
      requires Valid()
      modifies this`firstUnvisited, retset
      ensures Valid()
      ensures found <==> exists x :: x in old(Abs()).items && !x.visited
      ensures at == FirstUnvisited(old(Abs()).items)
      ensures !found ==> Abs().items == old(Abs()).items
      ensures found ==> at < |old(Abs()).items| && Abs() == MarkExpanded(old(Abs()), at).(firstUnvisited := at)
      ensures found ==> at < |Abs().items| && Abs().items[at].visited
    {
      ghost var items := Abs().items;
      var done := AllVisited();
      at := firstUnvisited;
      if done {
        return false, at;
      }
      retset[firstUnvisited] := retset[firstUnvisited].(visited := true);
      assert retset[..curListSize] == items[at := items[at].(visited := true)];
      MarkKeeps(Pool(items, firstUnvisited, sendMarker), lPool, at, items[at].(visited := true));
      found := true;
    }

    /** Hands out the closest unexpanded candidate whose page has landed. The scan starts at the
        calc frontier, and still none of the whole pool is closer. */
    method NextCalcNbr(ready: nat -> bool) returns (found: bool, at: nat)
      requires Valid()
      modifies retset
      ensures Valid()
      ensures found <==> exists x :: x in old(Abs()).items && !x.visited && ready(x.id)
      ensures !found ==> Abs() == old(Abs())
      ensures found ==>
                && at < |old(Abs()).items|
                && !old(Abs()).items[at].visited && ready(old(Abs()).items[at].id)
                && (forall i | 0 <= i < at :: old(Abs()).items[i].visited || !ready(old(Abs()).items[i].id))
                && Abs() == MarkRead(MarkExpanded(old(Abs()), at), at)
                && |Abs().items| == |old(Abs()).items| && Abs().items[at].visited && !Abs().items[at].flag
    {
      ghost var before := Abs();
      var marker := firstUnvisited;
      while marker < curListSize
        invariant firstUnvisited <= marker <= curListSize
        invariant forall i | 0 <= i < marker :: before.items[i].visited || !ready(before.items[i].id)
      {
        if !retset[marker].visited && ready(retset[marker].id) {
          assert before.items[marker] == retset[marker];
          retset[marker] := retset[marker].(flag := false, visited := true);
          assert retset[..curListSize] == before.items[marker := before.items[marker].(flag := false, visited := true)];
          MarkKeeps(before, lPool, marker, before.items[marker].(flag := false, visited := true));
          return true, marker;
        }
        assert before.items[marker] == retset[marker];
        marker := marker + 1;
      }
      found, at := false, marker;
    }

    /** The read frontier: the closest candidate of the whole pool whose read is not issued. */
    method AdvanceToFlagged() returns (at: nat)
      requires Valid()
      modifies this`sendMarker
      ensures Valid() && sendMarker == at
      ensures at == FirstFlagged(Abs().items)
    {
      while sendMarker < curListSize && !retset[sendMarker].flag
        invariant sendMarker <= curListSize
        invariant Valid()
        decreases curListSize - sendMarker
      {
        sendMarker := sendMarker + 1;
      }
      assert forall i | 0 <= i < sendMarker :: !Abs().items[i].flag;
      FirstFlaggedIs(Abs().items, sendMarker);
      at := sendMarker;
    }

    method Frontier() returns (at: nat)
      requires Valid()
      modifies this`firstUnvisited, this`sendMarker
      ensures Valid()
      ensures firstUnvisited == FirstUnvisited(Abs().items)
      ensures at == sendMarker == FirstFlagged(Abs().items)
    {
      var _ := AllVisited();
      at := AdvanceToFlagged();
    }

    /** Shifts retset[pj..segEnd] right by j + 1 and puts nn in front of it. */
    method MoveSegment(pj: nat, segEnd: nat, j: nat, nn: Neighbor)
      requires pj <= segEnd && segEnd + j < retset.Length
      modifies retset
      ensures SegmentMoved(old(retset[..]), retset[..], pj, segEnd, j, nn)
    {
      forall i | pj <= i < segEnd {
        retset[i + j + 1] := retset[i];
      }
      retset[pj + j] := nn;
    }
  }

  ghost predicate SegmentMoved(a: seq<Neighbor>, b: seq<Neighbor>, pj: nat, segEnd: nat, j: nat, nn: Neighbor)
    requires pj <= segEnd && segEnd + j < |a| == |b|
  {
    && b[pj + j] == nn
    && (forall i | 0 <= i < pj :: b[i] == a[i])
    && (forall i | pj <= i < segEnd :: b[i + j + 1] == a[i])
    && (forall i | segEnd + j < i < |a| :: b[i] == a[i])
  }

  lemma PrefixAgrees(a: seq<Neighbor>, items: seq<Neighbor>, end: nat)
    requires end <= |a| && end <= |items| && a[..end] == items[..end]
    ensures forall i | 0 <= i < end :: a[i] == items[i]
  {
    assert forall i | 0 <= i < end :: a[..end][i] == items[..end][i];
  }

  lemma PrefixSorted(items: seq<Neighbor>, end: nat)
    requires end <= |items| && Sorted(items)
    ensures Sorted(items[..end])
  {
  }

  lemma SegmentOf(a: seq<Neighbor>, items: seq<Neighbor>, segEnd: nat, pj: nat)
    requires pj <= segEnd <= |a| && segEnd <= |items| && a[..segEnd] == items[..segEnd]
    ensures a[pj..segEnd] == items[pj..segEnd] && a[..pj] == items[..pj]
  {
    assert a[pj..segEnd] == a[..segEnd][pj..] && items[pj..segEnd] == items[..segEnd][pj..];
    assert a[..pj] == a[..segEnd][..pj] && items[..pj] == items[..segEnd][..pj];
  }

  lemma SegmentSlices(a: seq<Neighbor>, b: seq<Neighbor>, pj: nat, segEnd: nat, j: nat, nn: Neighbor, end: nat)
    requires pj <= segEnd && segEnd + j < end <= |a| == |b|
    requires SegmentMoved(a, b, pj, segEnd, j, nn)
    ensures b[..pj] == a[..pj]
    ensures b[pj + j..end] == [nn] + a[pj..segEnd] + a[segEnd + j + 1..end]
  {
    var t := [nn] + a[pj..segEnd] + a[segEnd + j + 1..end];
    forall k | 0 <= k < |t| ensures b[pj + j + k] == t[k] {
      if 0 < k <= segEnd - pj {
        var i := pj + k - 1;
        assert t[k] == a[i];
        assert b[i + j + 1] == a[i];
      }
    }
  }

  lemma DropPoolEnd(items: seq<Neighbor>, re: nat, batch: seq<Neighbor>, ne: nat)
    requires 0 < re <= |items| && 0 < ne <= |batch| && Sorted(batch)
    requires forall x | x in batch :: FreshFor(Elements(items), x)
    requires CutApart(items, re, batch, ne) && !Less(items[re - 1], batch[ne - 1])
    ensures CutApart(items, re - 1, batch, ne)
  {
    assert items[re - 1] in Elements(items) && FreshFor(Elements(items), batch[ne - 1]);
    assert Less(batch[ne - 1], items[re - 1]);
    assert forall j | 0 <= j < ne - 1 :: Less(batch[j], batch[ne - 1]);
  }

  lemma SliceSplit(s: seq<Neighbor>, k: nat, end: nat)
    requires k <= end <= |s|
    ensures s[..end] == s[..k] + s[k..end]
  {
  }

  lemma NothingSurvives(p: Pool, limit: nat, batch: seq<Neighbor>)
    requires WellFormed(p, limit) && batch != [] && Sorted(batch) && |p.items| == Min(limit, |p.items| + |batch|)
    requires forall x | x in batch :: FreshFor(Elements(p.items), x)
    requires CutApart(p.items, |p.items|, batch, 0)
    ensures IsMerged(p, limit, Elements(batch), p)
  {
    assert p.items[..|p.items|] == p.items && batch[..0] == [];
    assert Elements(p.items) + Elements(batch[..0]) == Elements(p.items);
    CutIsClosest(p.items, |p.items|, batch, 0, limit, p.items);
    NoneNew(p.items, |p.items|, batch);
    FirstNewIs(p.items, Elements(batch), |p.items|);
  }

  lemma NoneNew(items: seq<Neighbor>, k: nat, batch: seq<Neighbor>)
    requires k <= |items| && forall x | x in batch :: FreshFor(Elements(items), x)
    ensures forall i | 0 <= i < k :: items[i] !in Elements(batch)
  {
    forall i | 0 <= i < k ensures items[i] !in Elements(batch) {
      assert items[i] in Elements(items);
      assert !FreshFor(Elements(items), items[i]);
    }
  }

  lemma MergedTail(before: Pool, limit: nat, batch: seq<Neighbor>, re: nat, ne: nat, lowest: nat, tail: seq<Neighbor>, after: Pool)
    requires WellFormed(before, limit) && Sorted(batch)
    requires forall x | x in batch :: FreshFor(Elements(before.items), x)
    requires lowest <= re <= |before.items| && 0 < ne <= |batch| && re + ne == Min(limit, |before.items| + |batch|)
    requires CutApart(before.items, re, batch, ne) && TailPlaced(before.items, re, batch, ne, lowest, 0, tail)
    requires after.items == before.items[..lowest] + tail
    requires after.firstUnvisited == Min(before.firstUnvisited, lowest)
    requires after.sendMarker == Min(before.sendMarker, lowest)
    ensures IsMerged(before, limit, Elements(batch), after)
  {
    TailComplete(before.items, re, batch, ne, lowest, tail);
    CutIsClosest(before.items, re, batch, ne, limit, after.items);
    NoneNew(before.items, lowest, batch);
    assert after.items[lowest] == batch[0];
    FirstNewIs(after.items, Elements(batch), lowest);
  }

  /** What the cutoff and the co-sort leave of a batch. */
  ghost predicate Prepared(xs: seq<Neighbor>, full: bool, worst: Neighbor, batch: seq<Neighbor>) {
    && Sorted(batch)
    && Elements(batch) == Elements(if full then KeepCloser(xs, worst) else xs)
  }

  /** The cutoff, only against a full pool, and the co-sort. */
  method PrepareBatch(ids: array<nat>, dists: array<real>, n: nat, full: bool, worst: Neighbor) returns (m: nat)
    requires n <= ids.Length && n <= dists.Length && DistinctIds(Zip(ids[..n], dists[..n]))
    modifies ids, dists
    ensures m <= n
    ensures Prepared(old(Zip(ids[..n], dists[..n])), full, worst, Zip(ids[..m], dists[..m]))
  {
    ghost var xs := Zip(ids[..n], dists[..n]);
    m := n;
    if full {
      m := DropBeyondWorst(ids, dists, n, worst);
      KeepCloserDistinct(xs, worst);
    }
    if m > 0 {
      CoSort(ids, dists, m);
    }
  }

  lemma PreparedFresh(p: Pool, limit: nat, xs: seq<Neighbor>, batch: seq<Neighbor>)
    requires WellFormed(p, limit) && FreshBatch(p, xs) && Sorted(batch) && Elements(batch) <= Elements(xs)
    ensures FreshBatch(p, batch)
  {
    forall x | x in batch ensures x in xs && FreshFor(Elements(p.items), x) {
      assert x in Elements(batch);
      assert x in xs;
    }
    forall i, j | 0 <= i < j < |batch| ensures batch[i].id != batch[j].id {
      assert batch[i] in xs && batch[j] in xs && Less(batch[i], batch[j]);
    }
  }

  lemma PreparedSubset(xs: seq<Neighbor>, full: bool, worst: Neighbor, batch: seq<Neighbor>)
    requires Prepared(xs, full, worst, batch)
    ensures Elements(batch) <= Elements(xs)
  {
    forall x | x in Elements(batch) ensures x in Elements(xs) {
      KeepCloserMember(xs, worst, x);
    }
  }

  lemma PreparedMerged(p: Pool, limit: nat, xs: seq<Neighbor>, worst: Neighbor, batch: seq<Neighbor>, after: Pool)
    requires WellFormed(p, limit) && FreshBatch(p, xs)
    requires Prepared(xs, |p.items| == limit, worst, batch) && (p.items != [] ==> worst == p.items[|p.items| - 1])
    requires IsMerged(p, limit, Elements(batch), after)
    ensures IsMerged(p, limit, Elements(xs), after)
  {
    if |p.items| == limit {
      assert worst == p.items[limit - 1] && Elements(batch) == Elements(KeepCloser(xs, worst));
      CutOffIrrelevant(p, limit, xs, after);
    }
  }

  /** Preparing a batch changes nothing about the outcome. */
  lemma PreparedSame(p: Pool, limit: nat, xs: seq<Neighbor>, worst: Neighbor, batch: seq<Neighbor>)
    requires WellFormed(p, limit) && FreshBatch(p, xs)
    requires Prepared(xs, |p.items| == limit, worst, batch) && (p.items != [] ==> worst == p.items[|p.items| - 1])
    ensures FreshBatch(p, batch) && Sorted(batch)
    ensures InsertAll(p, limit, batch) == InsertAll(p, limit, xs)
  {
    PreparedSubset(xs, |p.items| == limit, worst, batch);
    PreparedFresh(p, limit, xs, batch);
    InsertAllMerges(p, limit, batch);
    PreparedMerged(p, limit, xs, worst, batch, InsertAll(p, limit, batch));
    InsertAllIs(p, limit, xs, InsertAll(p, limit, batch));
  }

  lemma InsertAllIs(p: Pool, limit: nat, xs: seq<Neighbor>, after: Pool)
    requires WellFormed(p, limit) && FreshBatch(p, xs) && IsMerged(p, limit, Elements(xs), after)
    ensures after == InsertAll(p, limit, xs)
  {
    InsertAllMerges(p, limit, xs);
    MergedUnique(p, limit, Elements(xs), after, InsertAll(p, limit, xs));
  }

  ghost predicate SurvivorsAt(before: Pool, batch: seq<Neighbor>, re: nat, ne: nat, after: Pool, lowest: nat, tail: seq<Neighbor>)
    requires re <= |before.items| && ne <= |batch|
  {
    && lowest <= re
    && TailPlaced(before.items, re, batch, ne, lowest, 0, tail)
    && after == Pool(before.items[..lowest] + tail, Min(before.firstUnvisited, lowest), Min(before.sendMarker, lowest))
  }

  ghost predicate AreSurvivors(before: Pool, batch: seq<Neighbor>, re: nat, ne: nat, after: Pool)
    requires re <= |before.items| && ne <= |batch|
  {
    match after
    case Pool(_, _, _) => exists lowest, tail :: SurvivorsAt(before, batch, re, ne, after, lowest, tail)
  }

  lemma SurvivorsHere(before: Pool, batch: seq<Neighbor>, re: nat, ne: nat, s: seq<Neighbor>, lowest: nat)
    requires re <= |before.items| && ne <= |batch| && lowest <= re && re + ne <= |s| && s[..lowest] == before.items[..lowest]
    requires TailPlaced(before.items, re, batch, ne, lowest, 0, s[lowest..re + ne])
    ensures AreSurvivors(before, batch, re, ne, Pool(s[..re + ne], Min(before.firstUnvisited, lowest), Min(before.sendMarker, lowest)))
  {
    SliceSplit(s, lowest, re + ne);
    assert SurvivorsAt(before, batch, re, ne, Pool(s[..re + ne], Min(before.firstUnvisited, lowest), Min(before.sendMarker, lowest)), lowest,
                       s[lowest..re + ne]);
  }

  lemma SurvivorsMerged(before: Pool, limit: nat, batch: seq<Neighbor>, re: nat, ne: nat, after: Pool)
    requires WellFormed(before, limit) && Sorted(batch)
    requires forall x | x in batch :: FreshFor(Elements(before.items), x)
    requires re <= |before.items| && 0 < ne <= |batch| && re + ne == Min(limit, |before.items| + |batch|)
    requires CutApart(before.items, re, batch, ne) && AreSurvivors(before, batch, re, ne, after)
    ensures IsMerged(before, limit, Elements(batch), after)
  {
    var lowest, tail :| SurvivorsAt(before, batch, re, ne, after, lowest, tail);
    MergedTail(before, limit, batch, re, ne, lowest, tail, after);
  }

  // ----- the frontiers -----

  function FirstUnvisited(s: seq<Neighbor>): (k: nat)
    ensures k <= |s|
    ensures forall i | 0 <= i < k :: s[i].visited
    ensures k < |s| ==> !s[k].visited
  {
    if s == [] || !s[0].visited then 0 else 1 + FirstUnvisited(s[1..])
  }

  lemma FirstUnvisitedIs(s: seq<Neighbor>, k: nat)
    requires k <= |s| && (forall i | 0 <= i < k :: s[i].visited) && (k < |s| ==> !s[k].visited)
    ensures FirstUnvisited(s) == k
  {
  }

  function FirstFlagged(s: seq<Neighbor>): (k: nat)
    ensures k <= |s|
    ensures forall i | 0 <= i < k :: !s[i].flag
    ensures k < |s| ==> s[k].flag
  {
    if s == [] || s[0].flag then 0 else 1 + FirstFlagged(s[1..])
  }

  lemma FirstFlaggedIs(s: seq<Neighbor>, k: nat)
    requires k <= |s| && (forall i | 0 <= i < k :: !s[i].flag) && (k < |s| ==> s[k].flag)
    ensures FirstFlagged(s) == k
  {
  }

  function MarkExpanded(p: Pool, at: nat): Pool
    requires at < |p.items|
  {
    p.(items := p.items[at := p.items[at].(visited := true)])
  }

  function MarkRead(p: Pool, at: nat): Pool
    requires at < |p.items|
  {
    p.(items := p.items[at := p.items[at].(flag := false)])
  }

  /** Setting `visited` or clearing `flag` of one entry moves nothing. */
  lemma {:induction false} MarkKeeps(p: Pool, limit: nat, at: nat, x: Neighbor)
    requires WellFormed(p, limit) && MarkersSettled(p) && at < |p.items|
    requires SameKey(p.items[at], x) && x.visited && (!p.items[at].flag ==> !x.flag)
    ensures WellFormed(p.(items := p.items[at := x]), limit)
    ensures MarkersSettled(p.(items := p.items[at := x]))
  {
    var s, t := p.items, p.items[at := x];
    assert forall i | 0 <= i < |s| :: SameKey(s[i], t[i]);
    forall a, b | a in Elements(t) && b in Elements(t) && a.id == b.id ensures a == b {
      var i :| 0 <= i < |t| && t[i] == a;
      var j :| 0 <= j < |t| && t[j] == b;
      assert s[i] in Elements(s) && s[j] in Elements(s);
      assert s[i] == s[j];
    }
  }
}
