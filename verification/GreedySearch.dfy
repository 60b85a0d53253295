/** The greedy graph search of src/index.cpp (iterate_to_fixed_point): expand the closest
    unexpanded candidate until the pool holds none. */
module GreedySearch {
  import opened Bounds
  import opened Lists
  import opened PoolSpec
  import opened CandidatePool
  import opened VisitedSet

  type Graph = seq<seq<nat>>

  /** The pool entry of an id, given the ids expanded so far. */
  ghost function Entry(dist: nat -> real, expanded: set<nat>, id: nat): Neighbor {
    Neighbor(id, dist(id), true, id in expanded)
  }

  ghost function Entries(dist: nat -> real, expanded: set<nat>, seen: set<nat>): set<Neighbor> {
    set id | id in seen :: Entry(dist, expanded, id)
  }

  /** Closer to the query, ties broken by id. */
  predicate Closer(dist: nat -> real, a: nat, b: nat) {
    dist(a) < dist(b) || (dist(a) == dist(b) && a < b)
  }

  /** `items` lists the `limit` closest of the ids in `seen`, each marked iff it was expanded. */
  ghost predicate HoldsClosest(dist: nat -> real, items: seq<Neighbor>, limit: nat, seen: set<nat>, expanded: set<nat>) {
    && Sorted(items)
    && (forall x | x in items :: x.id in seen && x == Entry(dist, expanded, x.id))
    && |items| == Min(limit, |seen|)
    && (forall id, y | id in seen && id !in Ids(items) && y in items :: Closer(dist, y.id, id))
  }

  /** Everything the search has looked at after expanding these nodes from this entry point. */
  ghost function Seen(graph: Graph, ep: nat, expanded: set<nat>): set<nat>
    requires forall x | x in expanded :: x < |graph|
  {
    {ep} + set x, y | x in expanded && y in graph[x] :: y
  }

  lemma EntriesSize(dist: nat -> real, expanded: set<nat>, seen: set<nat>)
    ensures |Entries(dist, expanded, seen)| == |seen|
  {
    if seen == {} {
      assert Entries(dist, expanded, seen) == {};
    } else {
      var id :| id in seen;
      EntriesSize(dist, expanded, seen - {id});
      assert Entries(dist, expanded, seen) == Entries(dist, expanded, seen - {id}) + {Entry(dist, expanded, id)};
    }
  }

  lemma ClosestToHolds(dist: nat -> real, items: seq<Neighbor>, limit: nat, seen: set<nat>, expanded: set<nat>)
    requires IsClosest(items, limit, Entries(dist, expanded, seen))
    ensures HoldsClosest(dist, items, limit, seen, expanded)
  {
    EntriesSize(dist, expanded, seen);
    forall x | x in items ensures x.id in seen && x == Entry(dist, expanded, x.id) {
      assert x in Elements(items);
    }
    forall id, y | id in seen && id !in Ids(items) && y in items ensures Closer(dist, y.id, id) {
      var x := Entry(dist, expanded, id);
      assert x in Entries(dist, expanded, seen);
      assert x in items ==> x.id in Ids(items);
      assert Less(y, x);
    }
  }

  lemma HoldsToClosest(dist: nat -> real, items: seq<Neighbor>, limit: nat, seen: set<nat>, expanded: set<nat>)
    requires HoldsClosest(dist, items, limit, seen, expanded)
    ensures IsClosest(items, limit, Entries(dist, expanded, seen))
  {
    EntriesSize(dist, expanded, seen);
    forall x, y | x in Entries(dist, expanded, seen) && x !in items && y in items ensures Less(y, x) {
      assert x.id !in Ids(items);
      assert Closer(dist, y.id, x.id);
    }
  }

  /** Expanding one candidate changes its mark and nothing else. */
  lemma {:induction false} HoldsAfterMark(dist: nat -> real, items: seq<Neighbor>, limit: nat, seen: set<nat>, expanded: set<nat>, at: nat)
    requires HoldsClosest(dist, items, limit, seen, expanded) && at < |items| && OneEntryPerId(Elements(items))
    ensures HoldsClosest(dist, items[at := items[at].(visited := true)], limit, seen, expanded + {items[at].id})
  {
    var t := items[at := items[at].(visited := true)];
    assert forall i | 0 <= i < |items| :: SameKey(items[i], t[i]);
    assert forall i | 0 <= i < |items| :: items[i] in Elements(items);
    SameIds(items, t);
    forall x | x in t ensures x.id in seen && x == Entry(dist, expanded + {items[at].id}, x.id) {
      var i :| 0 <= i < |t| && t[i] == x;
      assert items[i] in items;
    }
    forall id, y | id in seen && id !in Ids(t) && y in t ensures Closer(dist, y.id, id) {
      var i :| 0 <= i < |t| && t[i] == y;
      assert items[i] in items;
    }
  }

  lemma SameIds(s: seq<Neighbor>, t: seq<Neighbor>)
    requires |s| == |t| && forall i | 0 <= i < |s| :: s[i].id == t[i].id
    ensures Ids(s) == Ids(t)
  {
    forall id ensures id in Ids(s) <==> id in Ids(t) {
      if id in Ids(s) {
        var i :| 0 <= i < |s| && s[i].id == id;
        assert t[i] in t;
      }
      if id in Ids(t) {
        var i :| 0 <= i < |t| && t[i].id == id;
        assert s[i] in s;
      }
    }
  }

  /** The closest of what was kept and what is new are the closest of everything. */
  lemma ClosestCompose(s: seq<Neighbor>, limit: nat, all: set<Neighbor>, added: set<Neighbor>, t: seq<Neighbor>)
    requires IsClosest(s, limit, all) && IsClosest(t, limit, Elements(s) + added)
    ensures IsClosest(t, limit, all + added)
  {
    SortedSize(s);
    SortedSize(t);
    var some := Elements(s) + added;
    if |s| < limit {
      SubsetSmaller(Elements(s), all);
    } else {
      SizeMonotone(Elements(s), some);
      SizeMonotone(Elements(s), all + added);
      forall x, y | x in all + added && x !in t && y in t ensures Less(y, x) {
        if x !in some {
          ThroughKept(s, limit, all, added, t, x, y);
        }
      }
    }
  }

  lemma ThroughKept(s: seq<Neighbor>, limit: nat, all: set<Neighbor>, added: set<Neighbor>, t: seq<Neighbor>, x: Neighbor, y: Neighbor)
    requires IsClosest(s, limit, all) && IsClosest(t, limit, Elements(s) + added)
    requires |s| == |t| && x in all && x !in s && y in t
    ensures Less(y, x)
  {
    SortedSize(s);
    SortedSize(t);
    assert y in Elements(t);
    if y !in s {
      if Elements(s) <= Elements(t) {
        SubsetSmaller(Elements(s), Elements(t));
        assert false;
      }
      var z :| z in Elements(s) && z !in Elements(t);
      assert Less(y, z) && Less(z, x);
    }
  }

  // ----- one expansion -----

  /** Of the first m ids, those not seen before, each once, in order. */
  function Unseen(before: set<nat>, ids: seq<nat>, m: nat): seq<nat>
    requires m <= |ids|
  {
    if m == 0 then []
    else
      var des := Unseen(before, ids, m - 1);
      if ids[m - 1] in before || ids[m - 1] in ids[..m - 1] then des else des + [ids[m - 1]]
  }

  lemma {:induction false} UnseenIs(before: set<nat>, ids: seq<nat>, m: nat)
    requires m <= |ids|
    ensures Distinct(Unseen(before, ids, m))
    ensures ToSet(Unseen(before, ids, m)) == ToSet(ids[..m]) - before
  {
    if m == 0 {
    } else {
      UnseenIs(before, ids, m - 1);
      var des, id := Unseen(before, ids, m - 1), ids[m - 1];
      assert ids[..m] == ids[..m - 1] + [id];
      assert id in ids[..m - 1] <==> id in ToSet(ids[..m - 1]);
      if id !in before && id !in ids[..m - 1] {
        assert id !in ToSet(des);
        assert ToSet(des + [id]) == ToSet(des) + {id};
      }
    }
  }

  /** The position of the first id that is not a location of the index. */
  function FirstBad(ids: seq<nat>, bound: nat): (k: nat)
    ensures k <= |ids|
    ensures k < |ids| ==> ids[k] >= bound
  {
    if ids == [] || ids[0] >= bound then 0 else 1 + FirstBad(ids[1..], bound)
  }

  predicate AllBelow(ids: seq<nat>, bound: nat) {
    FirstBad(ids, bound) == |ids|
  }

  lemma BeforeBad(ids: seq<nat>, bound: nat, m: nat)
    requires m < FirstBad(ids, bound)
    ensures ids[m] < bound
  {
    if m > 0 {
      BeforeBad(ids[1..], bound, m - 1);
    }
  }

  /** Collects the neighbours of a node that were not seen before, and records them as seen. An
      edge that leaves the index stops the program. */
  method CollectUnseen(nbrs: seq<nat>, maxPoints: nat, visited: FlatVisitedSet) returns (ok: bool, des: seq<nat>)
    requires maxPoints <= ID_LIMIT && visited.Valid()
    modifies visited, visited.slots
    ensures visited.Valid() && (visited.slots == old(visited.slots) || fresh(visited.slots))
    ensures ok <==> AllBelow(nbrs, maxPoints)
    ensures ok ==> visited.contents == old(visited.contents) + ToSet(nbrs)
    ensures ok ==> des == Unseen(old(visited.contents), nbrs, |nbrs|)
  {
    des := [];
    ghost var stop := FirstBad(nbrs, maxPoints);
    ghost var before := visited.contents;
    CollectedStart(before, nbrs);
    for m := 0 to |nbrs|
      invariant visited.Valid() && (visited.slots == old(visited.slots) || fresh(visited.slots))
      invariant m <= stop && Collected(before, nbrs, m, visited.contents, des)
    {
      ok, des := CollectNext(nbrs, m, maxPoints, visited, des, before);
      if !ok {
        return;
      }
    }
    CollectedAll(before, nbrs, visited.contents, des);
    ok := true;
  }

  /** One neighbour: not a location of the index, or recorded and listed if it is new. */
  method CollectNext(nbrs: seq<nat>, m: nat, maxPoints: nat, visited: FlatVisitedSet, des: seq<nat>, ghost before: set<nat>)
    returns (ok: bool, more: seq<nat>)
    requires maxPoints <= ID_LIMIT && visited.Valid() && m < |nbrs| && m <= FirstBad(nbrs, maxPoints)
    requires Collected(before, nbrs, m, visited.contents, des)
    modifies visited, visited.slots
    ensures visited.Valid() && (visited.slots == old(visited.slots) || fresh(visited.slots))
    ensures ok <==> m < FirstBad(nbrs, maxPoints)
    ensures ok ==> Collected(before, nbrs, m + 1, visited.contents, more)
  {
    if m < FirstBad(nbrs, maxPoints) {
      BeforeBad(nbrs, maxPoints, m);
    }
    if nbrs[m] >= maxPoints {
      return false, des;
    }
    ghost var now, next := CollectedStep(before, nbrs, m, visited.contents, des);
    more := Visit(nbrs[m], visited, des);
    ok := true;
  }

  /** The first m ids have been recorded, and the new ones among them listed. */
  ghost predicate Collected(before: set<nat>, ids: seq<nat>, m: nat, now: set<nat>, des: seq<nat>) {
    m <= |ids| && now == before + ToSet(ids[..m]) && des == Unseen(before, ids, m)
  }

  lemma CollectedStart(before: set<nat>, ids: seq<nat>)
    ensures Collected(before, ids, 0, before, [])
  {
    assert ToSet(ids[..0]) == {};
  }

  lemma CollectedStep(before: set<nat>, ids: seq<nat>, m: nat, now: set<nat>, des: seq<nat>) returns (next: set<nat>, more: seq<nat>)
    requires m < |ids| && Collected(before, ids, m, now, des)
    ensures next == now + {ids[m]} && more == (if ids[m] in now then des else des + [ids[m]])
    ensures Collected(before, ids, m + 1, next, more)
  {
    UnseenStep(before, ids, m, now);
    next, more := now + {ids[m]}, if ids[m] in now then des else des + [ids[m]];
  }

  lemma CollectedAll(before: set<nat>, ids: seq<nat>, now: set<nat>, des: seq<nat>)
    requires Collected(before, ids, |ids|, now, des)
    ensures now == before + ToSet(ids) && des == Unseen(before, ids, |ids|)
  {
    assert ids[..|ids|] == ids;
  }

  lemma UnseenStep(before: set<nat>, ids: seq<nat>, m: nat, now: set<nat>)
    requires m < |ids| && now == before + ToSet(ids[..m])
    ensures Unseen(before, ids, m + 1) == if ids[m] in now then Unseen(before, ids, m) else Unseen(before, ids, m) + [ids[m]]
    ensures now + {ids[m]} == before + ToSet(ids[..m + 1])
  {
    assert ids[..m + 1] == ids[..m] + [ids[m]];
    assert ids[m] in ToSet(ids[..m]) <==> ids[m] in ids[..m];
  }

  /** Records one id as seen and appends it if it is new. */
  method Visit(id: nat, visited: FlatVisitedSet, des: seq<nat>) returns (more: seq<nat>)
    requires visited.Valid() && id < ID_LIMIT
    modifies visited, visited.slots
    ensures visited.Valid() && (visited.slots == old(visited.slots) || fresh(visited.slots))
    ensures visited.contents == old(visited.contents) + {id}
    ensures more == if id in old(visited.contents) then des else des + [id]
  {
    more := des + [id];
    var isNew := visited.Insert(id);
    if !isNew {
      more := des;
    }
  }

  /** The distances of a list of ids. */
  method ComputeDistances(dist: nat -> real, des: seq<nat>) returns (ids: array<nat>, distances: array<real>)
    ensures fresh(ids) && fresh(distances) && ids.Length == distances.Length == |des|
    ensures Zip(ids[..|des|], distances[..|des|]) == Candidates(dist, des)
  {
    ids := new nat[|des|](i requires 0 <= i < |des| => des[i]);
    distances := new real[|des|](i requires 0 <= i < |des| => dist(des[i]));
  }

  function Candidates(dist: nat -> real, des: seq<nat>): (s: seq<Neighbor>)
    ensures |s| == |des| && forall i | 0 <= i < |s| :: s[i] == NewNeighbor(des[i], dist(des[i]))
  {
    seq(|des|, i requires 0 <= i < |des| => NewNeighbor(des[i], dist(des[i])))
  }

  lemma CandidatesAreEntries(dist: nat -> real, des: seq<nat>, expanded: set<nat>)
    requires ToSet(des) !! expanded
    ensures Elements(Candidates(dist, des)) == Entries(dist, expanded, ToSet(des))
  {
    var c := Candidates(dist, des);
    forall x | x in Entries(dist, expanded, ToSet(des)) ensures x in c {
      var i :| 0 <= i < |des| && des[i] == x.id;
      assert c[i] == x;
    }
    forall x | x in c ensures x in Entries(dist, expanded, ToSet(des)) {
      var i :| 0 <= i < |c| && c[i] == x;
      assert des[i] in ToSet(des);
      assert x == Entry(dist, expanded, des[i]);
    }
  }

  lemma CandidatesFresh(dist: nat -> real, p: Pool, seen: set<nat>, des: seq<nat>)
    requires Distinct(des) && ToSet(des) !! seen && forall x | x in p.items :: x.id in seen
    ensures FreshBatch(p, Candidates(dist, des))
  {
    var c := Candidates(dist, des);
    forall x | x in c ensures FreshFor(Elements(p.items), x) {
      var i :| 0 <= i < |c| && c[i] == x;
      assert des[i] in ToSet(des);
    }
  }

  /** After merging the unseen neighbours the pool holds the closest of all seen so far. */
  lemma HoldsAfterMerge(dist: nat -> real, p: Pool, limit: nat, seen: set<nat>, expanded: set<nat>, des: seq<nat>)
    requires WellFormed(p, limit) && HoldsClosest(dist, p.items, limit, seen, expanded) && expanded <= seen
    requires Distinct(des) && ToSet(des) !! seen
    ensures FreshBatch(p, Candidates(dist, des))
    ensures HoldsClosest(dist, InsertAll(p, limit, Candidates(dist, des)).items, limit, seen + ToSet(des), expanded)
  {
    var c := Candidates(dist, des);
    var q := InsertAll(p, limit, c);
    CandidatesFresh(dist, p, seen, des);
    CandidatesAreEntries(dist, des, expanded);
    InsertAllMerges(p, limit, c);
    HoldsToClosest(dist, p.items, limit, seen, expanded);
    ClosestCompose(p.items, limit, Entries(dist, expanded, seen), Elements(c), q.items);
    assert Entries(dist, expanded, seen) + Entries(dist, expanded, ToSet(des)) == Entries(dist, expanded, seen + ToSet(des));
    ClosestToHolds(dist, q.items, limit, seen + ToSet(des), expanded);
  }

  lemma BoundedSize(s: set<nat>, n: nat)
    requires forall x | x in s :: x < n
    ensures |s| <= n
  {
    if n == 0 {
      assert s == {};
    } else {
      BoundedSize(s - {n - 1}, n - 1);
      assert s <= (s - {n - 1}) + {n - 1};
      SizeOfExtra(s, n - 1);
    }
  }

  lemma SizeOfExtra(s: set<nat>, x: nat)
    ensures |s| <= |s - {x}| + 1
  {
    if x in s {
      assert s == (s - {x}) + {x};
    } else {
      assert s == s - {x};
    }
  }

  lemma SeenGrows(graph: Graph, ep: nat, expanded: set<nat>, n: nat)
    requires n < |graph| && forall x | x in expanded :: x < |graph|
    ensures Seen(graph, ep, expanded + {n}) == Seen(graph, ep, expanded) + ToSet(graph[n])
  {
  }

  // ----- the whole search, as a state machine -----

  datatype SearchState = SearchState(pool: Pool, seen: set<nat>, expanded: seq<Neighbor>)

  function Start(dist: nat -> real, ep: nat): SearchState {
    SearchState(Pool([NewNeighbor(ep, dist(ep))], 0, 0), {ep}, [])
  }

  /** Nothing left to expand. */
  predicate Done(s: SearchState) {
    FirstUnvisited(s.pool.items) == |s.pool.items|
  }

  /** The node the search expands next. */
  function Next(s: SearchState): nat
    requires !Done(s)
  {
    s.pool.items[FirstUnvisited(s.pool.items)].id
  }

  /** The next node has an edge that leaves the index: the program logs the id and aborts. */
  predicate Crashes(graph: Graph, s: SearchState) {
    !Done(s) && (Next(s) >= |graph| || !AllBelow(graph[Next(s)], |graph|))
  }

  /** The pool with the next node handed out. */
  function Taken(s: SearchState): Pool
    requires !Done(s)
  {
    var at := FirstUnvisited(s.pool.items);
    MarkExpanded(s.pool, at).(firstUnvisited := at)
  }

  /** The candidates that expanding the next node brings. */
  function Brought(graph: Graph, dist: nat -> real, s: SearchState): seq<Neighbor>
    requires !Done(s) && Next(s) < |graph|
  {
    Candidates(dist, Unseen(s.seen, graph[Next(s)], |graph[Next(s)]|))
  }

  /** One expansion. */
  function Expand(graph: Graph, dist: nat -> real, limit: nat, s: SearchState): SearchState
    requires !Done(s) && Next(s) < |graph|
  {
    SearchState(InsertAll(Taken(s), limit, Brought(graph, dist, s)),
                s.seen + (set y | y in graph[Next(s)]),
                s.expanded + [Taken(s).items[FirstUnvisited(s.pool.items)]])
  }

  /** The state after k expansions, or after the last one. */
  ghost function After(graph: Graph, dist: nat -> real, limit: nat, ep: nat, k: nat): SearchState {
    if k == 0 then Start(dist, ep) else Advance(graph, dist, limit, After(graph, dist, limit, ep, k - 1))
  }

  ghost function Advance(graph: Graph, dist: nat -> real, limit: nat, s: SearchState): SearchState {
    if Done(s) || Crashes(graph, s) then s else Expand(graph, dist, limit, s)
  }

  /** The seen ids are the entry point and all neighbours of expanded nodes. */
  ghost predicate SeenOk(graph: Graph, ep: nat, seen: set<nat>, expanded: set<nat>) {
    && expanded <= seen
    && (forall x | x in seen :: x < |graph|)
    && seen == Seen(graph, ep, expanded)
  }

  /** What holds between two expansions. */
  ghost predicate Between(graph: Graph, dist: nat -> real, ep: nat, limit: nat, s: SearchState) {
    && WellFormed(s.pool, limit) && MarkersSettled(s.pool)
    && HoldsClosest(dist, s.pool.items, limit, s.seen, Ids(s.expanded))
    && SeenOk(graph, ep, s.seen, Ids(s.expanded))
    && |s.expanded| == |Ids(s.expanded)|
  }

  lemma BetweenStart(graph: Graph, dist: nat -> real, ep: nat, limit: nat)
    requires 1 <= limit && ep < |graph|
    ensures Between(graph, dist, ep, limit, Start(dist, ep))
  {
  }

  lemma TakenKeeps(limit: nat, s: SearchState)
    requires WellFormed(s.pool, limit) && MarkersSettled(s.pool) && !Done(s)
    ensures WellFormed(Taken(s), limit) && MarkersSettled(Taken(s))
  {
    var at := FirstUnvisited(s.pool.items);
    MarkKeeps(s.pool.(firstUnvisited := at), limit, at, s.pool.items[at].(visited := true));
  }

  lemma NextIsNew(graph: Graph, dist: nat -> real, ep: nat, limit: nat, s: SearchState)
    requires Between(graph, dist, ep, limit, s) && !Done(s)
    ensures Next(s) in s.seen && Next(s) < |graph| && Next(s) !in Ids(s.expanded)
  {
    assert s.pool.items[FirstUnvisited(s.pool.items)] in s.pool.items;
  }

  lemma TakenIds(graph: Graph, dist: nat -> real, ep: nat, limit: nat, s: SearchState)
    requires Between(graph, dist, ep, limit, s) && !Done(s)
    ensures forall x | x in Taken(s).items :: x.id in s.seen
  {
    forall x | x in Taken(s).items ensures x.id in s.seen {
      var i :| 0 <= i < |Taken(s).items| && Taken(s).items[i] == x;
      assert s.pool.items[i] in s.pool.items;
    }
  }

  /** What an expansion brings is a batch the pool may take in one go. */
  lemma BroughtFresh(graph: Graph, dist: nat -> real, ep: nat, limit: nat, s: SearchState)
    requires Between(graph, dist, ep, limit, s) && !Done(s)
    ensures Next(s) < |graph|
    ensures FreshBatch(Taken(s), Brought(graph, dist, s))
  {
    NextIsNew(graph, dist, ep, limit, s);
    TakenIds(graph, dist, ep, limit, s);
    var nbrs := graph[Next(s)];
    UnseenIs(s.seen, nbrs, |nbrs|);
    CandidatesFresh(dist, Taken(s), s.seen, Unseen(s.seen, nbrs, |nbrs|));
  }

  lemma SeenStep(graph: Graph, ep: nat, seen: set<nat>, expanded: set<nat>, n: nat)
    requires SeenOk(graph, ep, seen, expanded) && n in seen && AllBelow(graph[n], |graph|)
    ensures SeenOk(graph, ep, seen + ToSet(graph[n]), expanded + {n})
    ensures seen + ToSet(graph[n]) == seen + ToSet(Unseen(seen, graph[n], |graph[n]|))
  {
    UnseenIs(seen, graph[n], |graph[n]|);
    forall i | 0 <= i < |graph[n]| ensures graph[n][i] < |graph| {
      BeforeBad(graph[n], |graph|, i);
    }
    assert graph[n][..|graph[n]|] == graph[n];
    SeenGrows(graph, ep, expanded, n);
  }

  lemma HoldsAfterExpand(dist: nat -> real, limit: nat, p: Pool, seen: set<nat>, expanded: set<nat>, at: nat, q: Pool, des: seq<nat>)
    requires WellFormed(p, limit) && HoldsClosest(dist, p.items, limit, seen, expanded) && expanded <= seen
    requires at < |p.items| && WellFormed(q, limit) && q.items == p.items[at := p.items[at].(visited := true)]
    requires Distinct(des) && ToSet(des) !! seen
    ensures p.items[at].id in seen
    ensures HoldsClosest(dist, InsertAll(q, limit, Candidates(dist, des)).items, limit, seen + ToSet(des), expanded + {p.items[at].id})
  {
    assert p.items[at] in p.items;
    HoldsAfterMark(dist, p.items, limit, seen, expanded, at);
    HoldsAfterMerge(dist, q, limit, seen, expanded + {p.items[at].id}, des);
  }

  lemma IdsOfMore(s: seq<Neighbor>, x: Neighbor)
    ensures Ids(s + [x]) == Ids(s) + {x.id}
  {
    assert forall y :: y in s + [x] <==> y in s || y == x;
    forall id | id in Ids(s) + {x.id} ensures id in Ids(s + [x]) {
      if id == x.id {
        assert x in s + [x];
      } else {
        var y :| y in s && y.id == id;
        assert y in s + [x];
      }
    }
  }

  lemma ExpandedPool(graph: Graph, dist: nat -> real, ep: nat, limit: nat, s: SearchState)
    requires Between(graph, dist, ep, limit, s) && !Done(s) && Next(s) < |graph|
    ensures WellFormed(Expand(graph, dist, limit, s).pool, limit) && MarkersSettled(Expand(graph, dist, limit, s).pool)
  {
    BroughtFresh(graph, dist, ep, limit, s);
    TakenKeeps(limit, s);
    InsertAllKeeps(Taken(s), limit, Brought(graph, dist, s));
  }

  lemma ExpandedHolds(graph: Graph, dist: nat -> real, ep: nat, limit: nat, s: SearchState)
    requires Between(graph, dist, ep, limit, s) && !Done(s) && Next(s) < |graph|
    ensures HoldsClosest(dist, Expand(graph, dist, limit, s).pool.items, limit,
                         s.seen + ToSet(Unseen(s.seen, graph[Next(s)], |graph[Next(s)]|)), Ids(s.expanded) + {Next(s)})
  {
    TakenKeeps(limit, s);
    var nbrs := graph[Next(s)];
    UnseenIs(s.seen, nbrs, |nbrs|);
    HoldsAfterExpand(dist, limit, s.pool, s.seen, Ids(s.expanded), FirstUnvisited(s.pool.items), Taken(s),
                     Unseen(s.seen, nbrs, |nbrs|));
  }

  /** Every expansion keeps it. */
  lemma BetweenStep(graph: Graph, dist: nat -> real, ep: nat, limit: nat, s: SearchState)
    requires Between(graph, dist, ep, limit, s) && !Done(s) && !Crashes(graph, s)
    ensures Between(graph, dist, ep, limit, Expand(graph, dist, limit, s))
  {
    NextIsNew(graph, dist, ep, limit, s);
    var t, ids, n := Expand(graph, dist, limit, s), Ids(s.expanded), Next(s);
    assert t.seen == s.seen + ToSet(graph[n]);
    assert Ids(t.expanded) == ids + {n} by {
      IdsOfMore(s.expanded, Taken(s).items[FirstUnvisited(s.pool.items)]);
    }
    SeenStep(graph, ep, s.seen, ids, n);
    ExpandedPool(graph, dist, ep, limit, s);
    ExpandedHolds(graph, dist, ep, limit, s);
  }

  lemma {:induction false} AfterBetween(graph: Graph, dist: nat -> real, ep: nat, limit: nat, k: nat)
    requires 1 <= limit && ep < |graph|
    ensures Between(graph, dist, ep, limit, After(graph, dist, limit, ep, k))
  {
    if k == 0 {
      BetweenStart(graph, dist, ep, limit);
    } else {
      AfterBetween(graph, dist, ep, limit, k - 1);
      var s := After(graph, dist, limit, ep, k - 1);
      if !Done(s) && !Crashes(graph, s) {
        BetweenStep(graph, dist, ep, limit, s);
      }
    }
  }

  /** Expansions never repeat a node, so there are at most as many as nodes. */
  lemma AfterBounded(graph: Graph, dist: nat -> real, ep: nat, limit: nat, k: nat)
    requires 1 <= limit && ep < |graph|
    ensures var s := After(graph, dist, limit, ep, k);
            && |s.expanded| <= |graph|
            && (!Done(s) ==> |s.expanded| < |graph|)
  {
    AfterBetween(graph, dist, ep, limit, k);
    var s := After(graph, dist, limit, ep, k);
    BoundedSize(Ids(s.expanded), |graph|);
    if !Done(s) {
      NextIsNew(graph, dist, ep, limit, s);
      BoundedSize(Ids(s.expanded) + {Next(s)}, |graph|);
    }
  }

  /** Expanding the next node needs no more than this. */
  lemma AfterCanExpand(graph: Graph, dist: nat -> real, ep: nat, limit: nat, k: nat)
    requires 1 <= limit && ep < |graph|
    ensures var s := After(graph, dist, limit, ep, k);
            !Done(s) ==> Next(s) < |graph| && FreshBatch(Taken(s), Brought(graph, dist, s))
  {
    AfterBetween(graph, dist, ep, limit, k);
    var s := After(graph, dist, limit, ep, k);
    if !Done(s) {
      BroughtFresh(graph, dist, ep, limit, s);
    }
  }

  /** Computes the distances of the new ids and merges them into the pool. */
  method AddCandidates(pool: CandidatePool, dist: nat -> real, des: seq<nat>)
    requires pool.Valid() && FreshBatch(pool.Abs(), Candidates(dist, des))
    modifies pool`curListSize, pool`firstUnvisited, pool`sendMarker, pool.retset
    ensures pool.Valid()
    ensures pool.Abs() == InsertAll(old(pool.Abs()), pool.lPool, Candidates(dist, des))
  {
    var ids, distances := ComputeDistances(dist, des);
    pool.InsertBatch(ids, distances, |des|);
  }

  /** The body of the loop: merges the unseen neighbours of the candidate just taken. */
  method ExpandTaken(graph: Graph, dist: nat -> real, pool: CandidatePool, visited: FlatVisitedSet, n: nat, ghost s: SearchState)
    returns (ok: bool, count: nat)
    requires pool.Valid() && visited.Valid() && |graph| <= ID_LIMIT
    requires !Done(s) && pool.Abs() == Taken(s) && visited.contents == s.seen && n == Next(s) < |graph|
    requires FreshBatch(Taken(s), Brought(graph, dist, s))
    modifies pool`curListSize, pool`firstUnvisited, pool`sendMarker, pool.retset, visited, visited.slots
    ensures pool.Valid() && visited.Valid() && (visited.slots == old(visited.slots) || fresh(visited.slots))
    ensures ok <==> !Crashes(graph, s)
    ensures ok ==> pool.Abs() == Expand(graph, dist, pool.lPool, s).pool
    ensures ok ==> visited.contents == Expand(graph, dist, pool.lPool, s).seen
    ensures ok ==> count == |Brought(graph, dist, s)|
  {
    var des;
    ok, des := CollectUnseen(graph[n], |graph|, visited);
    count := 0;
    if ok {
      AddCandidates(pool, dist, des);
      count := |des|;
    }
  }

  /** What the search returns, in terms of the graph and the nodes it expanded: the closest of
      everything seen, all of it expanded. */
  ghost predicate IsSearchResult(graph: Graph, dist: nat -> real, ep: nat, limit: nat, expanded: set<nat>, best: seq<Neighbor>) {
    && (forall x | x in expanded :: x < |graph|)
    && SeenOk(graph, ep, Seen(graph, ep, expanded), expanded)
    && HoldsClosest(dist, best, limit, Seen(graph, ep, expanded), expanded)
    && Ids(best) <= expanded
  }

  lemma ResultAtEnd(graph: Graph, dist: nat -> real, ep: nat, limit: nat, k: nat)
    requires 1 <= limit && ep < |graph|
    ensures var s := After(graph, dist, limit, ep, k);
            Done(s) ==>
              && SeenOk(graph, ep, s.seen, Ids(s.expanded)) && s.seen == Seen(graph, ep, Ids(s.expanded))
              && |s.expanded| == |Ids(s.expanded)|
              && IsSearchResult(graph, dist, ep, limit, Ids(s.expanded), s.pool.items)
  {
    AfterBetween(graph, dist, ep, limit, k);
    var s := After(graph, dist, limit, ep, k);
    if Done(s) {
      forall id | id in Ids(s.pool.items) ensures id in Ids(s.expanded) {
        var x :| x in s.pool.items && x.id == id;
        assert x.visited;
      }
    }
  }

  lemma AfterNext(graph: Graph, dist: nat -> real, ep: nat, limit: nat, k: nat, s: SearchState)
    requires s == After(graph, dist, limit, ep, k) && !Done(s) && !Crashes(graph, s)
    ensures After(graph, dist, limit, ep, k + 1) == Expand(graph, dist, limit, s)
  {
  }

  /** The size of what was seen grows by what each expansion brings. */
  lemma ExpandSeenSize(graph: Graph, dist: nat -> real, limit: nat, s: SearchState)
    requires !Done(s) && Next(s) < |graph|
    ensures |Expand(graph, dist, limit, s).seen| == |s.seen| + |Brought(graph, dist, s)|
  {
    var nbrs := graph[Next(s)];
    UnseenIs(s.seen, nbrs, |nbrs|);
    assert nbrs[..|nbrs|] == nbrs;
    var des := Unseen(s.seen, nbrs, |nbrs|);
    assert s.seen + (set y | y in nbrs) == s.seen + ToSet(des);
    DistinctSize(des);
  }

  // ----- greed -----

  /** These are the `limit` closest of the seen ids. */
  ghost predicate ClosestSet(dist: nat -> real, limit: nat, seen: set<nat>, ids: set<nat>) {
    ids <= seen && |ids| == Min(limit, |seen|) && forall x, y | x in ids && y in seen && y !in ids :: Closer(dist, x, y)
  }

  /** Of the closest ids seen after expanding these nodes, the closest that is not among them. */
  ghost predicate GreedyPick(graph: Graph, dist: nat -> real, ep: nat, limit: nat, before: set<nat>, id: nat) {
    && (forall x | x in before :: x < |graph|)
    && exists ids :: ClosestSet(dist, limit, Seen(graph, ep, before), ids) && id in ids && id !in before
         && forall y | y in ids && y !in before && y != id :: Closer(dist, id, y)
  }

  /** Each node was the greedy pick when it was expanded, and is listed with its distance. */
  ghost predicate GreedyRun(graph: Graph, dist: nat -> real, ep: nat, limit: nat, expanded: seq<Neighbor>) {
    forall k | 0 <= k < |expanded| ::
      IsListed(dist, expanded[k]) && GreedyPick(graph, dist, ep, limit, Ids(expanded[..k]), expanded[k].id)
  }

  lemma {:induction false} IdsSize(s: seq<Neighbor>)
    requires Sorted(s) && OneEntryPerId(Elements(s))
    ensures |Ids(s)| == |s|
  {
    if s == [] {
      assert Ids(s) == {};
    } else {
      var rest := s[1..];
      assert s == [s[0]] + rest;
      assert Elements(rest) <= Elements(s);
      IdsSize(rest);
      forall x | x in rest ensures x.id != s[0].id {
        assert Less(s[0], x);
        assert x in Elements(s) && s[0] in Elements(s);
      }
      assert Ids(s) == {s[0].id} + Ids(rest);
    }
  }

  lemma {:induction false} IdsClosest(dist: nat -> real, items: seq<Neighbor>, limit: nat, seen: set<nat>, expanded: set<nat>)
    requires HoldsClosest(dist, items, limit, seen, expanded) && OneEntryPerId(Elements(items))
    ensures ClosestSet(dist, limit, seen, Ids(items))
  {
    IdsSize(items);
    forall x, y | x in Ids(items) && y in seen && y !in Ids(items) ensures Closer(dist, x, y) {
      var e :| e in items && e.id == x;
    }
  }

  /** The first unexpanded entry is closer than every other unexpanded one. */
  lemma {:induction false} FirstIsClosest(dist: nat -> real, items: seq<Neighbor>, limit: nat, seen: set<nat>, expanded: set<nat>, y: nat)
    requires HoldsClosest(dist, items, limit, seen, expanded) && FirstUnvisited(items) < |items|
    requires y in Ids(items) && y !in expanded && y != items[FirstUnvisited(items)].id
    ensures Closer(dist, items[FirstUnvisited(items)].id, y)
  {
    var at := FirstUnvisited(items);
    var e :| e in items && e.id == y;
    var k :| 0 <= k < |items| && items[k] == e;
    assert items[at] in items && items[k] in items;
    assert !items[k].visited && at <= k;
    assert Less(items[at], items[k]);
  }

  lemma {:induction false} PickIsGreedy(graph: Graph, dist: nat -> real, ep: nat, limit: nat, s: SearchState)
    requires Between(graph, dist, ep, limit, s) && !Done(s)
    ensures IsListed(dist, Taken(s).items[FirstUnvisited(s.pool.items)]) && Taken(s).items[FirstUnvisited(s.pool.items)].id == Next(s)
    ensures GreedyPick(graph, dist, ep, limit, Ids(s.expanded), Next(s))
  {
    var items, at, before := s.pool.items, FirstUnvisited(s.pool.items), Ids(s.expanded);
    assert items[at] in items;
    IdsClosest(dist, items, limit, s.seen, before);
    forall y | y in Ids(items) && y !in before && y != Next(s) ensures Closer(dist, Next(s), y) {
      FirstIsClosest(dist, items, limit, s.seen, before, y);
    }
  }

  /** An entry as the search lists it: with its distance, marked. */
  ghost predicate IsListed(dist: nat -> real, x: Neighbor) {
    x == Neighbor(x.id, dist(x.id), true, true)
  }

  type Rule = (seq<Neighbor>, Neighbor) -> bool

  /** Each entry stands in this relation to those before it. */
  ghost predicate Follows(rule: Rule, xs: seq<Neighbor>)
    decreases |xs|
  {
    xs == [] || (Follows(rule, xs[..|xs| - 1]) && rule(xs[..|xs| - 1], xs[|xs| - 1]))
  }

  lemma {:induction false} FollowsMore(rule: Rule, xs: seq<Neighbor>, x: Neighbor)
    requires Follows(rule, xs) && rule(xs, x)
    ensures Follows(rule, xs + [x])
  {
    assert (xs + [x])[..|xs|] == xs;
  }

  lemma {:induction false} FollowsEach(rule: Rule, xs: seq<Neighbor>, k: nat)
    requires Follows(rule, xs) && k < |xs|
    ensures rule(xs[..k], xs[k])
    decreases |xs|
  {
    var front := xs[..|xs| - 1];
    if k < |front| {
      FollowsEach(rule, front, k);
      assert front[..k] == xs[..k];
    }
  }

  /** The entry handed out next. */
  ghost function Handed(s: SearchState): Neighbor
    requires !Done(s)
  {
    Taken(s).items[FirstUnvisited(s.pool.items)]
  }

  ghost predicate HandsOut(graph: Graph, dist: nat -> real, ep: nat, limit: nat, s: SearchState) {
    match s
    case SearchState(_, _, _) => Between(graph, dist, ep, limit, s) && !Done(s)
  }

  lemma CanHandOut(graph: Graph, dist: nat -> real, ep: nat, limit: nat, k: nat)
    requires 1 <= limit && ep < |graph|
    ensures var s := After(graph, dist, limit, ep, k); !Done(s) ==> HandsOut(graph, dist, ep, limit, s)
  {
    AfterBetween(graph, dist, ep, limit, k);
  }

  /** What every entry is when it is handed out, the expanded ones are at every point of the run. */
  lemma {:induction false} AfterFollows(graph: Graph, dist: nat -> real, ep: nat, limit: nat, k: nat, rule: Rule)
    requires 1 <= limit && ep < |graph| && forall s | HandsOut(graph, dist, ep, limit, s) :: rule(s.expanded, Handed(s))
    ensures Follows(rule, After(graph, dist, limit, ep, k).expanded)
  {
    if k > 0 {
      AfterFollows(graph, dist, ep, limit, k - 1, rule);
      CanHandOut(graph, dist, ep, limit, k - 1);
      AdvanceFollows(graph, dist, ep, limit, After(graph, dist, limit, ep, k - 1), rule);
    }
  }

  lemma {:induction false} AdvanceFollows(graph: Graph, dist: nat -> real, ep: nat, limit: nat, s: SearchState, rule: Rule)
    requires Follows(rule, s.expanded) && (!Done(s) ==> HandsOut(graph, dist, ep, limit, s))
    requires forall s | HandsOut(graph, dist, ep, limit, s) :: rule(s.expanded, Handed(s))
    ensures Follows(rule, Advance(graph, dist, limit, s).expanded)
  {
    if !Done(s) && !Crashes(graph, s) {
      FollowsMore(rule, s.expanded, Handed(s));
    }
  }

  /** The run is greedy. */
  lemma {:induction false} AfterGreedy(graph: Graph, dist: nat -> real, ep: nat, limit: nat, k: nat)
    requires 1 <= limit && ep < |graph|
    ensures GreedyRun(graph, dist, ep, limit, After(graph, dist, limit, ep, k).expanded)
  {
    var rule: Rule := (before, x) => IsListed(dist, x) && GreedyPick(graph, dist, ep, limit, Ids(before), x.id);
    forall s | HandsOut(graph, dist, ep, limit, s) ensures rule(s.expanded, Handed(s)) {
      PickIsGreedy(graph, dist, ep, limit, s);
    }
    AfterFollows(graph, dist, ep, limit, k, rule);
    var xs := After(graph, dist, limit, ep, k).expanded;
    forall i | 0 <= i < |xs| ensures IsListed(dist, xs[i]) && GreedyPick(graph, dist, ep, limit, Ids(xs[..i]), xs[i].id) {
      FollowsEach(rule, xs, i);
    }
  }

  /** One round of the loop: takes the closest unexpanded candidate and expands it. */
  method ExpandNext(graph: Graph, dist: nat -> real, pool: CandidatePool, visited: FlatVisitedSet, ghost s: SearchState)
    returns (found: bool, ok: bool, cur: Neighbor, count: nat)
    requires pool.Valid() && visited.Valid() && |graph| <= ID_LIMIT
    requires pool.Abs() == s.pool && visited.contents == s.seen
    requires !Done(s) ==> Next(s) < |graph| && FreshBatch(Taken(s), Brought(graph, dist, s))
    modifies pool`curListSize, pool`firstUnvisited, pool`sendMarker, pool.retset, visited, visited.slots
    ensures pool.Valid() && visited.Valid() && (visited.slots == old(visited.slots) || fresh(visited.slots))
    ensures found <==> !Done(s)
    ensures !found ==> ok && pool.Abs().items == s.pool.items
    ensures found ==> cur == Taken(s).items[FirstUnvisited(s.pool.items)] && (ok <==> !Crashes(graph, s))
    ensures found && ok ==> pool.Abs() == Expand(graph, dist, pool.lPool, s).pool
    ensures found && ok ==> visited.contents == Expand(graph, dist, pool.lPool, s).seen
    ensures found && ok ==> count == |Brought(graph, dist, s)|
  {
    var at;
    found, at := pool.NextUnvisited();
    ok, cur, count := true, CandidatePool.UNUSED, 0;
    if !found {
      assert forall x | x in s.pool.items :: x.visited;
      return;
    }
    assert !Done(s) && pool.Abs() == Taken(s);
    cur := pool.retset[at];
    assert cur == pool.Abs().items[at];
    ok, count := ExpandTaken(graph, dist, pool, visited, cur.id, s);
  }

  method Seed(dist: nat -> real, lsize: nat, ep: nat) returns (pool: CandidatePool, visited: FlatVisitedSet)
    requires ep < ID_LIMIT && 1 <= lsize
    ensures fresh(pool) && fresh(visited) && fresh(pool.retset) && fresh(visited.slots)
    ensures pool.Valid() && visited.Valid() && pool.lPool == lsize
    ensures pool.Abs() == Start(dist, ep).pool && visited.contents == Start(dist, ep).seen
  {
    visited := new FlatVisitedSet(8192);
    var _ := visited.Insert(ep);
    pool := new CandidatePool(lsize, lsize + 1);
    var _ := pool.Insert(NewNeighbor(ep, dist(ep)));
  }

  /** What the loop has reached: the state s, and what it returns so far. */
  ghost predicate Tracks(graph: Graph, dist: nat -> real, limit: nat, ep: nat, s: SearchState,
                         found: bool, ok: bool, expanded: seq<Neighbor>, cmps: nat) {
    && s == After(graph, dist, limit, ep, |s.expanded|)
    && |s.expanded| <= |graph|
    && cmps + 1 == |s.seen|
    && (!found ==> ok && Done(s))
    && (if ok then expanded == s.expanded else Crashes(graph, s))
  }

  lemma TracksNext(graph: Graph, dist: nat -> real, limit: nat, ep: nat, s: SearchState, expanded: seq<Neighbor>, cmps: nat)
    requires 1 <= limit && ep < |graph| && Tracks(graph, dist, limit, ep, s, true, true, expanded, cmps)
    ensures !Done(s) ==> |s.expanded| < |graph| && Next(s) < |graph| && FreshBatch(Taken(s), Brought(graph, dist, s))
    ensures !Done(s) && !Crashes(graph, s) ==>
              var cur := Taken(s).items[FirstUnvisited(s.pool.items)];
              Tracks(graph, dist, limit, ep, Expand(graph, dist, limit, s), true, true, expanded + [cur], cmps + |Brought(graph, dist, s)|)
    ensures Done(s) ==> Tracks(graph, dist, limit, ep, s, false, true, expanded, cmps)
    ensures Crashes(graph, s) ==> forall e :: Tracks(graph, dist, limit, ep, s, true, false, e, cmps)
  {
    TracksReady(graph, dist, limit, ep, s, expanded, cmps);
    if !Done(s) && !Crashes(graph, s) {
      TracksExpand(graph, dist, limit, ep, s, expanded, cmps);
    }
  }

  lemma TracksReady(graph: Graph, dist: nat -> real, limit: nat, ep: nat, s: SearchState, expanded: seq<Neighbor>, cmps: nat)
    requires 1 <= limit && ep < |graph| && Tracks(graph, dist, limit, ep, s, true, true, expanded, cmps)
    ensures !Done(s) ==> |s.expanded| < |graph| && Next(s) < |graph| && FreshBatch(Taken(s), Brought(graph, dist, s))
  {
    AfterBounded(graph, dist, ep, limit, |s.expanded|);
    AfterCanExpand(graph, dist, ep, limit, |s.expanded|);
  }

  lemma TracksExpand(graph: Graph, dist: nat -> real, limit: nat, ep: nat, s: SearchState, expanded: seq<Neighbor>, cmps: nat)
    requires 1 <= limit && ep < |graph| && Tracks(graph, dist, limit, ep, s, true, true, expanded, cmps)
    requires !Done(s) && !Crashes(graph, s) && |s.expanded| < |graph| && Next(s) < |graph|
    ensures var cur := Taken(s).items[FirstUnvisited(s.pool.items)];
            Tracks(graph, dist, limit, ep, Expand(graph, dist, limit, s), true, true, expanded + [cur], cmps + |Brought(graph, dist, s)|)
  {
    AfterNext(graph, dist, ep, limit, |s.expanded|, s);
    ExpandSeenSize(graph, dist, limit, s);
  }

  /** The loop, step for step the state machine above. It ends on every graph. */
  method RunSearch(graph: Graph, dist: nat -> real, lsize: nat, ep: nat)
    returns (ok: bool, best: seq<Neighbor>, expanded: seq<Neighbor>, cmps: nat, ghost s: SearchState)
    requires ep < |graph| <= ID_LIMIT && 1 <= lsize
    ensures ok ==> best == s.pool.items
    ensures Tracks(graph, dist, lsize, ep, s, !ok, ok, expanded, cmps)
  {
    var pool, visited := Seed(dist, lsize, ep);
    ok, best, expanded, cmps := true, [], [], 0;
    s := Start(dist, ep);
    var found := true;
    while found && ok
      invariant fresh(visited) && fresh(pool) && fresh(visited.slots) && fresh(pool.retset) && pool.lPool == lsize
      invariant pool.Valid() && visited.Valid()
      invariant Tracks(graph, dist, lsize, ep, s, found, ok, expanded, cmps)
      invariant ok ==> pool.Abs().items == s.pool.items
      invariant found && ok ==> pool.Abs() == s.pool && visited.contents == s.seen
      decreases |graph| - |s.expanded|, ok, found
    {
      TracksNext(graph, dist, lsize, ep, s, expanded, cmps);
      var cur, count;
      found, ok, cur, count := ExpandNext(graph, dist, pool, visited, s);
      if found {
        expanded := expanded + [cur];
        if ok {
          cmps := cmps + count;
          s := Expand(graph, dist, lsize, s);
        }
      }
    }
    best := pool.retset[..pool.curListSize];
  }

  /** The search. Unless it meets an edge that leaves the index, the pool it returns is the closest
      part of everything it saw, and all of that part was expanded. */
  method IterateToFixedPoint(graph: Graph, dist: nat -> real, lsize: nat, ep: nat)
    returns (ok: bool, best: seq<Neighbor>, expanded: seq<Neighbor>, hops: nat, cmps: nat)
    requires ep < |graph| <= ID_LIMIT && 1 <= lsize
    ensures ok ==> IsSearchResult(graph, dist, ep, lsize, Ids(expanded), best)
    ensures ok ==> hops == |expanded| == |Ids(expanded)| <= |graph| && cmps + 1 == |Seen(graph, ep, Ids(expanded))|
    ensures ok ==> GreedyRun(graph, dist, ep, lsize, expanded)
    ensures !ok ==> exists k :: Crashes(graph, After(graph, dist, lsize, ep, k))
    ensures !ok ==> exists x, y :: 0 <= x < |graph| && y in graph[x] && y >= |graph|
  {
    ghost var s;
    ok, best, expanded, cmps, s := RunSearch(graph, dist, lsize, ep);
    hops := |expanded|;
    ResultAtEnd(graph, dist, ep, lsize, |s.expanded|);
    AfterGreedy(graph, dist, ep, lsize, |s.expanded|);
    assert !ok ==> Crashes(graph, After(graph, dist, lsize, ep, |s.expanded|));
    if !ok {
      CrashMeans(graph, dist, ep, lsize, |s.expanded|);
    }
  }

  /** The search stops only on an edge that leaves the index. */
  lemma CrashMeans(graph: Graph, dist: nat -> real, ep: nat, limit: nat, k: nat)
    requires 1 <= limit && ep < |graph| && Crashes(graph, After(graph, dist, limit, ep, k))
    ensures exists x, y :: 0 <= x < |graph| && y in graph[x] && y >= |graph|
  {
    var s := After(graph, dist, limit, ep, k);
    AfterNextSeen(graph, dist, ep, limit, k);
    var x := Next(s);
    var bad := FirstBad(graph[x], |graph|);
    assert graph[x][bad] in graph[x];
  }

  // ----- what the result means -----

  /** A neighbour of a returned node is returned too, or the pool is full and every returned node
      is closer to the query. */
  lemma NoCloserNeighbour(graph: Graph, dist: nat -> real, ep: nat, limit: nat, expanded: set<nat>, best: seq<Neighbor>,
                          x: Neighbor, y: nat)
    requires IsSearchResult(graph, dist, ep, limit, expanded, best)
    requires x in best && x.id < |graph| && y in graph[x.id]
    ensures y in Ids(best) || (|best| == limit && forall z | z in best :: Closer(dist, z.id, y))
  {
    assert x.id in Ids(best);
    var seen := Seen(graph, ep, expanded);
    assert y in seen;
    if y !in Ids(best) && |best| < limit {
      AllReturned(dist, best, limit, seen, expanded);
      assert false;
    }
  }

  lemma AllReturned(dist: nat -> real, best: seq<Neighbor>, limit: nat, seen: set<nat>, expanded: set<nat>)
    requires HoldsClosest(dist, best, limit, seen, expanded) && |best| < limit
    ensures Ids(best) == seen
  {
    SortedSize(best);
    EntriesSize(dist, expanded, seen);
    assert Elements(best) <= Entries(dist, expanded, seen);
    SubsetSmaller(Elements(best), Entries(dist, expanded, seen));
    forall id | id in seen ensures id in Ids(best) {
      assert Entry(dist, expanded, id) in Entries(dist, expanded, seen);
      assert Entry(dist, expanded, id) in Elements(best);
    }
  }

  /** Following edges never leaves the set. */
  ghost predicate Closed(graph: Graph, c: set<nat>) {
    forall x, y | x in c && x < |graph| && y in graph[x] :: y in c
  }

  lemma AfterNextSeen(graph: Graph, dist: nat -> real, ep: nat, limit: nat, k: nat)
    requires 1 <= limit && ep < |graph|
    ensures var s := After(graph, dist, limit, ep, k);
            !Done(s) ==> Next(s) in s.seen && Next(s) < |graph|
  {
    AfterBetween(graph, dist, ep, limit, k);
    var s := After(graph, dist, limit, ep, k);
    if !Done(s) {
      NextIsNew(graph, dist, ep, limit, s);
    }
  }

  lemma {:induction false} SeenStaysIn(graph: Graph, dist: nat -> real, ep: nat, limit: nat, k: nat, c: set<nat>)
    requires 1 <= limit && ep < |graph| && ep in c && Closed(graph, c)
    ensures After(graph, dist, limit, ep, k).seen <= c
  {
    if k > 0 {
      SeenStaysIn(graph, dist, ep, limit, k - 1, c);
      AfterNextSeen(graph, dist, ep, limit, k - 1);
    }
  }

  /** A search that ends with room in the pool has found exactly what the entry point reaches: the
      result is closed under edges, and it lies inside every closed set with the entry point. */
  lemma UnfilledIsWholeComponent(graph: Graph, dist: nat -> real, ep: nat, limit: nat, k: nat)
    requires 1 <= limit && ep < |graph|
    requires Done(After(graph, dist, limit, ep, k)) && |After(graph, dist, limit, ep, k).pool.items| < limit
    ensures var found := Ids(After(graph, dist, limit, ep, k).pool.items);
            && ep in found && Closed(graph, found)
            && forall c | ep in c && Closed(graph, c) :: found <= c
  {
    var s := After(graph, dist, limit, ep, k);
    ResultAtEnd(graph, dist, ep, limit, k);
    AllReturned(dist, s.pool.items, limit, s.seen, Ids(s.expanded));
    forall c | ep in c && Closed(graph, c) ensures s.seen <= c {
      SeenStaysIn(graph, dist, ep, limit, k, c);
    }
  }
}
