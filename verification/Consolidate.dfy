/** Deletion and consolidation of the in-memory index (src/index.cpp): tags map to locations and
    back; consolidation drops deleted locations, repairs the edges that went through them, and
    moves graph rows and vectors down in place. */
module Consolidate {
  import opened Lists
  import opened PoolSpec
  import opened PruneNeighbors

  const INVALID_ID: nat := 0xFFFF_FFFF

  // ----- renumbering -----

  /** How many live locations lie below n: the new location of n if n is live. */
  ghost function NewId(live: set<nat>, n: nat): (k: nat)
    ensures k <= n
  {
    if n == 0 then 0 else NewId(live, n - 1) + if n - 1 in live then 1 else 0
  }

  lemma {:induction false} NewIdMonotone(live: set<nat>, a: nat, b: nat)
    requires a < b
    ensures NewId(live, a) <= NewId(live, b)
    ensures a in live ==> NewId(live, a) < NewId(live, b)
    decreases b
  {
    if a < b - 1 {
      NewIdMonotone(live, a, b - 1);
    }
  }

  lemma NewIdInjective(live: set<nat>, a: nat, b: nat)
    requires a in live && b in live && NewId(live, a) == NewId(live, b)
    ensures a == b
  {
    if a < b {
      NewIdMonotone(live, a, b);
    } else if b < a {
      NewIdMonotone(live, b, a);
    }
  }

  /** Every new location comes from a live one. */
  lemma {:induction false} NewIdOnto(live: set<nat>, bound: nat, n: nat) returns (old_id: nat)
    requires n < NewId(live, bound)
    ensures old_id < bound && old_id in live && NewId(live, old_id) == n
    decreases bound
  {
    if bound - 1 in live && n == NewId(live, bound - 1) {
      old_id := bound - 1;
    } else {
      old_id := NewIdOnto(live, bound - 1, n);
    }
  }

  ghost function MapOf(live: set<nat>, n: nat): nat {
    if n in live then NewId(live, n) else INVALID_ID
  }

  ghost predicate IsIdMap(live: set<nat>, idMap: seq<nat>) {
    forall n | 0 <= n < |idMap| :: idMap[n] == MapOf(live, n)
  }

  /** Step 1: new locations in ascending order of the old ones. */
  method BuildIdMap<Tag>(locationToTag: map<nat, Tag>, maxPoints: nat) returns (idMap: seq<nat>, newNd: nat)
    ensures |idMap| == maxPoints && IsIdMap(locationToTag.Keys, idMap)
    ensures newNd == NewId(locationToTag.Keys, maxPoints)
  {
    idMap, newNd := [], 0;
    for n := 0 to maxPoints
      invariant |idMap| == n && IsIdMap(locationToTag.Keys, idMap) && newNd == NewId(locationToTag.Keys, n)
    {
      if n in locationToTag {
        idMap := idMap + [newNd];
        newNd := newNd + 1;
      } else {
        idMap := idMap + [INVALID_ID];
      }
    }
  }

  // ----- repairing a row -----

  type Graph = seq<seq<nat>>

  ghost predicate InRange(graph: Graph) {
    forall n, m | 0 <= n < |graph| && 0 <= m < |graph[n]| :: graph[n][m] < |graph|
  }

  /** What one neighbour contributes: itself if it is live, else its live neighbours other than the
      node itself. */
  ghost function Contribution(graph: Graph, live: set<nat>, node: nat, nbr: nat): set<nat>
    requires nbr < |graph|
  {
    if nbr in live then {nbr} else set x | x in graph[nbr] && x in live && x != node
  }

  /** The live neighbours, and the live neighbours of the deleted ones. */
  ghost function Repaired(graph: Graph, live: set<nat>, node: nat, m: nat): set<nat>
    requires InRange(graph) && node < |graph| && m <= |graph[node]|
  {
    if m == 0 then {} else Repaired(graph, live, node, m - 1) + Contribution(graph, live, node, graph[node][m - 1])
  }

  lemma {:induction false} RepairedIs(graph: Graph, live: set<nat>, node: nat, m: nat, x: nat)
    requires InRange(graph) && node < |graph| && m <= |graph[node]|
    ensures x in Repaired(graph, live, node, m) <==>
              x in live && exists k :: 0 <= k < m && (graph[node][k] == x || (graph[node][k] !in live && x in graph[graph[node][k]] && x != node))
  {
    if m > 0 {
      RepairedIs(graph, live, node, m - 1, x);
      var nbr := graph[node][m - 1];
      if x in Contribution(graph, live, node, nbr) {
        assert graph[node][m - 1] == x || (graph[node][m - 1] !in live && x in graph[graph[node][m - 1]] && x != node);
      }
    }
  }

  /** Adds to a list, each id once. */
  method AddOnce(nbrs: seq<nat>, x: nat) returns (more: seq<nat>)
    requires Distinct(nbrs)
    ensures Distinct(more) && ToSet(more) == ToSet(nbrs) + {x}
  {
    more := if x in nbrs then nbrs else nbrs + [x];
  }

  method AddLive(list: seq<nat>, idMap: seq<nat>, node: nat, nbrs: seq<nat>, ghost live: set<nat>) returns (more: seq<nat>)
    requires Distinct(nbrs) && IsIdMap(live, idMap) && |idMap| < INVALID_ID && forall k | 0 <= k < |list| :: list[k] < |idMap|
    ensures Distinct(more) && ToSet(more) == ToSet(nbrs) + set x | x in list && x in live && x != node
  {
    more := nbrs;
    for k := 0 to |list|
      invariant Distinct(more) && ToSet(more) == ToSet(nbrs) + set x | x in list[..k] && x in live && x != node
    {
      var x := list[k];
      assert list[..k + 1] == list[..k] + [x];
      if idMap[x] != INVALID_ID && x != node {
        more := AddOnce(more, x);
      }
    }
    assert list[..|list|] == list;
  }

  /** Step 2, first half: the repaired neighbours of one live node. */
  method Repair(graph: Graph, idMap: seq<nat>, node: nat, ghost live: set<nat>) returns (nbrs: seq<nat>)
    requires InRange(graph) && node < |graph| == |idMap| < INVALID_ID && IsIdMap(live, idMap)
    ensures Distinct(nbrs) && ToSet(nbrs) == Repaired(graph, live, node, |graph[node]|)
  {
    nbrs := [];
    for m := 0 to |graph[node]|
      invariant Distinct(nbrs) && ToSet(nbrs) == Repaired(graph, live, node, m)
    {
      var nbr := graph[node][m];
      if idMap[nbr] == INVALID_ID {
        nbrs := AddLive(graph[nbr], idMap, node, nbrs, live);
      } else {
        nbrs := AddOnce(nbrs, nbr);
      }
    }
  }

  /** How rows are pruned: the parameters, the distances, and how strongly entries occlude others. */
  datatype Pruning = Pruning(params: Params, dist: (nat, nat) -> real, occlude: (Neighbor, Neighbor) -> real)

  /** Each of these ids once, at its distance from the node. */
  ghost predicate IsPoolOf(pool: seq<Neighbor>, ids: set<nat>, node: nat, dist: (nat, nat) -> real) {
    && DistinctIds(pool) && Ids(pool) == ids
    && forall i | 0 <= i < |pool| :: pool[i] == NewNeighbor(pool[i].id, dist(node, pool[i].id))
  }

  /** What pruning leaves of these neighbours of the node. */
  ghost predicate IsPruned(all: set<nat>, node: nat, pr: Pruning, ids: seq<nat>) {
    exists pool, kept :: IsPoolOf(pool, all, node, pr.dist) && AreKept(pool, pr.params.C, kept) && WellPruned(kept, pr.params, pr.occlude, ids)
  }

  ghost predicate IsRenumbered(live: set<nat>, ids: seq<nat>, row: seq<nat>) {
    |row| == |ids| && forall k | 0 <= k < |row| :: row[k] == NewId(live, ids[k])
  }

  /** A row of the new graph for a live node: new locations, none twice, at most R; all of the
      repaired neighbours when they fit, and else what pruning leaves of them. */
  ghost predicate RowFor(graph: Graph, live: set<nat>, node: nat, pr: Pruning, row: seq<nat>)
    requires InRange(graph) && node < |graph|
  {
    match pr
    case Pruning(_, _, _) => IsRowFor(Repaired(graph, live, node, |graph[node]|), live, node, pr, row)
  }

  ghost predicate IsRowFor(repaired: set<nat>, live: set<nat>, node: nat, pr: Pruning, row: seq<nat>) {
    && Distinct(row) && |row| <= pr.params.R
    && ToSet(row) <= (set x | x in repaired :: NewId(live, x))
    && (|repaired| <= pr.params.R ==> ToSet(row) == set x | x in repaired :: NewId(live, x))
    && (|repaired| > pr.params.R ==> exists ids :: IsPruned(repaired, node, pr, ids) && IsRenumbered(live, ids, row))
  }

  /** Too many neighbours, pruned. */
  method Pruned(all: seq<nat>, node: nat, pr: Pruning) returns (nbrs: seq<nat>)
    requires Distinct(all) && |all| > pr.params.R && pr.params.alpha < FLOAT_MAX
    ensures Distinct(nbrs) && |nbrs| <= pr.params.R && ToSet(nbrs) <= ToSet(all) && IsPruned(ToSet(all), node, pr, nbrs)
  {
    var pool := seq(|all|, i requires 0 <= i < |all| => NewNeighbor(all[i], pr.dist(node, all[i])));
    forall i | 0 <= i < |all| ensures pool[i].id == all[i] && pool[i].distance == pr.dist(node, all[i]) {
      assert pool[i] == NewNeighbor(all[i], pr.dist(node, all[i]));
    }
    PoolIds(all, pool);
    nbrs := PruneNeighbors.PruneNeighbors(pool, all, pr.params, pr.occlude);
    assert IsPoolOf(pool, ToSet(all), node, pr.dist);
  }

  /** Step 2: repair, prune if there are too many, renumber. */
  method NewRow(graph: Graph, idMap: seq<nat>, node: nat, pr: Pruning, ghost live: set<nat>) returns (row: seq<nat>)
    requires InRange(graph) && node < |graph| == |idMap| < INVALID_ID && IsIdMap(live, idMap)
    requires pr.params.alpha < FLOAT_MAX
    ensures RowFor(graph, live, node, pr, row)
  {
    var nbrs := Repair(graph, idMap, node, live);
    ghost var repaired := Repaired(graph, live, node, |graph[node]|);
    ghost var all := nbrs;
    DistinctSize(nbrs);
    RepairedLive(graph, live, node);
    if |nbrs| > pr.params.R {
      nbrs := Pruned(nbrs, node, pr);
    }
    forall k | 0 <= k < |nbrs| ensures nbrs[k] in repaired {
      assert nbrs[k] in ToSet(nbrs);
    }
    row := seq(|nbrs|, i requires 0 <= i < |nbrs| => idMap[nbrs[i]]);
    Renumbered(live, nbrs, row, repaired, |all| <= pr.params.R);
    assert IsRenumbered(live, nbrs, row);
  }

  lemma PoolIds(nbrs: seq<nat>, pool: seq<Neighbor>)
    requires Distinct(nbrs) && |pool| == |nbrs| && forall i | 0 <= i < |nbrs| :: pool[i].id == nbrs[i]
    ensures DistinctIds(pool) && Ids(pool) == ToSet(nbrs)
  {
    forall id | id in ToSet(nbrs) ensures id in Ids(pool) {
      var i :| 0 <= i < |nbrs| && nbrs[i] == id;
      assert pool[i] in pool;
    }
  }

  lemma RepairedLive(graph: Graph, live: set<nat>, node: nat)
    requires InRange(graph) && node < |graph|
    ensures forall x | x in Repaired(graph, live, node, |graph[node]|) :: x in live && x < |graph|
  {
    forall x | x in Repaired(graph, live, node, |graph[node]|) ensures x in live && x < |graph| {
      RepairedIs(graph, live, node, |graph[node]|, x);
    }
  }

  lemma Renumbered(live: set<nat>, nbrs: seq<nat>, row: seq<nat>, repaired: set<nat>, whole: bool)
    requires Distinct(nbrs) && |row| == |nbrs| && ToSet(nbrs) <= repaired && (whole ==> ToSet(nbrs) == repaired)
    requires forall x | x in repaired :: x in live
    requires forall k | 0 <= k < |nbrs| :: nbrs[k] in repaired && row[k] == NewId(live, nbrs[k])
    ensures Distinct(row)
    ensures ToSet(row) <= (set x | x in repaired :: NewId(live, x))
    ensures whole ==> ToSet(row) == set x | x in repaired :: NewId(live, x)
  {
    forall i, j | 0 <= i < j < |row| ensures row[i] != row[j] {
      if row[i] == row[j] {
        NewIdInjective(live, nbrs[i], nbrs[j]);
      }
    }
    if whole {
      forall y | y in (set x | x in repaired :: NewId(live, x)) ensures y in row {
        var x :| x in repaired && y == NewId(live, x);
        assert x in ToSet(nbrs);
        var k :| 0 <= k < |nbrs| && nbrs[k] == x;
        assert row[k] == y;
      }
    }
  }

  // ----- all rows, in place -----

  /** Rows that the repair of a node looks at: its own and those of deleted nodes. */
  ghost predicate SameForRepair(a: Graph, b: Graph, live: set<nat>, from: nat) {
    |a| == |b| && forall n | 0 <= n < |a| && (n !in live || n >= from) :: a[n] == b[n]
  }

  /** The rows already rewritten are not looked at again, so the order of the nodes does not
      matter and they can be processed in parallel. */
  lemma {:induction false} RepairedSame(a: Graph, b: Graph, live: set<nat>, node: nat, m: nat)
    requires InRange(a) && InRange(b) && SameForRepair(a, b, live, node) && node < |a| && m <= |a[node]|
    ensures Repaired(a, live, node, m) == Repaired(b, live, node, m)
  {
    if m > 0 {
      RepairedSame(a, b, live, node, m - 1);
    }
  }

  lemma RowForSame(a: Graph, b: Graph, live: set<nat>, node: nat, pr: Pruning, row: seq<nat>)
    requires InRange(a) && InRange(b) && SameForRepair(a, b, live, node) && node < |a| && RowFor(a, live, node, pr, row)
    ensures RowFor(b, live, node, pr, row)
  {
    RepairedSame(a, b, live, node, |a[node]|);
  }

  lemma RowForBound(graph: Graph, live: set<nat>, node: nat, pr: Pruning, row: seq<nat>)
    requires InRange(graph) && node < |graph| && RowFor(graph, live, node, pr, row)
    ensures forall k | 0 <= k < |row| :: row[k] < NewId(live, |graph|) <= |graph|
  {
    RepairedLive(graph, live, node);
    forall k | 0 <= k < |row| ensures row[k] < NewId(live, |graph|) {
      assert row[k] in ToSet(row);
      var x :| x in Repaired(graph, live, node, |graph[node]|) && row[k] == NewId(live, x);
      NewIdMonotone(live, x, |graph|);
    }
  }

  /** Every live row is rewritten; deleted rows are as before. */
  ghost predicate RowsUpTo(before: Graph, live: set<nat>, pr: Pruning, n: nat, now: Graph) {
    match pr
    case Pruning(_, _, _) => AreRowsUpTo(before, live, pr, n, now)
  }

  ghost predicate AreRowsUpTo(before: Graph, live: set<nat>, pr: Pruning, n: nat, now: Graph) {
    && InRange(before) && InRange(now) && SameForRepair(now, before, live, n)
    && forall x | 0 <= x < n && x < |before| && x in live :: RowFor(before, live, x, pr, now[x])
  }

  lemma RowsStep(before: Graph, live: set<nat>, pr: Pruning, n: nat, now: Graph, row: seq<nat>)
    requires RowsUpTo(before, live, pr, n, now) && n < |before| && n in live && RowFor(now, live, n, pr, row)
    ensures RowsUpTo(before, live, pr, n + 1, now[n := row])
  {
    RowForSame(now, before, live, n, pr, row);
    RowForBound(before, live, n, pr, row);
  }

  /** Deleted rows stay as they are. */
  lemma RowsSkip(before: Graph, live: set<nat>, pr: Pruning, n: nat, now: Graph)
    requires RowsUpTo(before, live, pr, n, now) && n < |before| && n !in live
    ensures RowsUpTo(before, live, pr, n + 1, now)
  {
  }

  lemma RowsStart(before: Graph, live: set<nat>, pr: Pruning)
    requires InRange(before)
    ensures RowsUpTo(before, live, pr, 0, before)
  {
  }

  /** What the loop may rely on. */
  lemma RowsInRange(before: Graph, live: set<nat>, pr: Pruning, n: nat, now: Graph)
    requires RowsUpTo(before, live, pr, n, now)
    ensures InRange(now) && |now| == |before|
  {
  }

  /** Step 2 over the whole graph. */
  method UpdateRows(graph: array<seq<nat>>, idMap: seq<nat>, pr: Pruning, ghost live: set<nat>)
    requires InRange(graph[..]) && graph.Length == |idMap| < INVALID_ID && IsIdMap(live, idMap) && pr.params.alpha < FLOAT_MAX
    modifies graph
    ensures RowsUpTo(old(graph[..]), live, pr, graph.Length, graph[..])
  {
    ghost var before := graph[..];
    RowsStart(before, live, pr);
    for n := 0 to graph.Length
      invariant RowsUpTo(before, live, pr, n, graph[..])
    {
      ghost var now := graph[..];
      RowsInRange(before, live, pr, n, now);
      if idMap[n] == INVALID_ID {
        RowsSkip(before, live, pr, n, now);
      } else {
        var row := NewRow(graph[..], idMap, n, pr, live);
        RowsStep(before, live, pr, n, now, row);
        graph[n] := row;
        assert graph[..] == now[n := row];
      }
    }
  }

  // ----- compaction -----

  /** Live entries below n have moved to their new places; entries from n on are untouched. */
  ghost predicate MovedUpTo<T(!new)>(before: seq<T>, live: set<nat>, n: nat, now: seq<T>) {
    && |now| == |before| && n <= |before|
    && (forall x | 0 <= x < n && x in live :: now[NewId(live, x)] == before[x])
    && (forall x | n <= x < |before| :: now[x] == before[x])
  }

  lemma MoveStep<T(!new)>(before: seq<T>, live: set<nat>, n: nat, now: seq<T>, filler: T)
    requires MovedUpTo(before, live, n, now) && n < |before|
    ensures n !in live ==> MovedUpTo(before, live, n + 1, now)
    ensures n in live && NewId(live, n) == n ==> MovedUpTo(before, live, n + 1, now)
    ensures n in live ==> MovedUpTo(before, live, n + 1, now[NewId(live, n) := before[n]])
    ensures n in live && NewId(live, n) != n ==> MovedUpTo(before, live, n + 1, now[NewId(live, n) := before[n]][n := filler])
  {
    if n in live {
      MoveLive(before, live, n, now, filler);
    }
  }

  lemma MoveLive<T(!new)>(before: seq<T>, live: set<nat>, n: nat, now: seq<T>, filler: T)
    requires MovedUpTo(before, live, n, now) && n < |before| && n in live
    ensures MovedUpTo(before, live, n + 1, now[NewId(live, n) := before[n]])
    ensures NewId(live, n) != n ==> MovedUpTo(before, live, n + 1, now[NewId(live, n) := before[n]][n := filler])
  {
    var k := NewId(live, n);
    var t := now[k := before[n]];
    forall x | 0 <= x < n && x in live ensures NewId(live, x) < k && t[NewId(live, x)] == before[x] {
      NewIdMonotone(live, x, n);
    }
    assert forall x | n < x < |before| :: t[x] == now[x] == before[x];
  }

  /** Phase 2: graph rows and vectors move down together. A moved row leaves its old place empty. */
  method Compact<V(!new)>(graph: array<seq<nat>>, vectors: array<V>, idMap: seq<nat>, ghost live: set<nat>)
    requires graph.Length == vectors.Length == |idMap| < INVALID_ID && IsIdMap(live, idMap)
    requires graph as object != vectors as object
    modifies graph, vectors
    ensures MovedUpTo(old(graph[..]), live, graph.Length, graph[..])
    ensures MovedUpTo(old(vectors[..]), live, graph.Length, vectors[..])
  {
    ghost var g, v := graph[..], vectors[..];
    for n := 0 to graph.Length
      invariant MovedUpTo(g, live, n, graph[..]) && MovedUpTo(v, live, n, vectors[..])
    {
      ghost var g', v' := graph[..], vectors[..];
      MoveStep(g, live, n, g', []);
      MoveStep(v, live, n, v', v[n]);
      var k := idMap[n];
      assert graph[n] == g[n] && vectors[n] == v[n] && k == MapOf(live, n);
      if k != INVALID_ID && k != n {
        graph[k] := graph[n];
        graph[n] := [];
        vectors[k] := vectors[n];
        assert graph[..] == g'[k := g[n]][n := []];
        assert vectors[..] == v'[k := v[n]];
      }
    }
  }

  method ClearFrom(graph: array<seq<nat>>, newNd: nat)
    requires newNd <= graph.Length
    modifies graph
    ensures forall n | 0 <= n < newNd :: graph[n] == old(graph[n])
    ensures forall n | newNd <= n < graph.Length :: graph[n] == []
  {
    for n := newNd to graph.Length
      invariant forall x | 0 <= x < newNd :: graph[x] == old(graph[x])
      invariant forall x | newNd <= x < n :: graph[x] == []
    {
      graph[n] := [];
    }
  }

  // ----- tags -----

  /** The two tag maps are inverse to each other. */
  ghost predicate TagsInverse<Tag>(tagToLocation: map<Tag, nat>, locationToTag: map<nat, Tag>) {
    && (forall t | t in tagToLocation :: tagToLocation[t] in locationToTag && locationToTag[tagToLocation[t]] == t)
    && (forall n | n in locationToTag :: locationToTag[n] in tagToLocation && tagToLocation[locationToTag[n]] == n)
  }

  /** Tags and locations correspond; the used locations are split into live and deleted ones. */
  ghost predicate TagState<Tag>(tagToLocation: map<Tag, nat>, locationToTag: map<nat, Tag>, deleteSet: set<nat>, nd: nat) {
    && TagsInverse(tagToLocation, locationToTag)
    && locationToTag.Keys !! deleteSet
    && (forall n | 0 <= n < nd :: n in locationToTag || n in deleteSet)
    && (forall n | n in locationToTag || n in deleteSet :: n < nd)
  }

  lemma RemapStep<Tag(!new)>(tags: map<Tag, nat>, live: set<nat>, tagTo: map<Tag, nat>, toTag: map<nat, Tag>, tag: Tag)
    requires TagsInverse(tagTo, toTag) && tag in tags && tag !in tagTo
    requires forall t | t in tags :: tags[t] in live
    requires forall t, u | t in tags && u in tags && t != u :: tags[t] != tags[u]
    requires forall t | t in tagTo :: t in tags && tagTo[t] == NewId(live, tags[t])
    ensures var n := NewId(live, tags[tag]);
            n !in toTag && TagsInverse(tagTo[tag := n], toTag[n := tag])
  {
    var n := NewId(live, tags[tag]);
    if n in toTag {
      NewIdInjective(live, tags[toTag[n]], tags[tag]);
    }
  }

  /** Step 3: every tag follows its location. */
  method RemapTags<Tag(==,!new)>(tagToLocation: map<Tag, nat>, idMap: seq<nat>, ghost live: set<nat>)
    returns (tagTo: map<Tag, nat>, toTag: map<nat, Tag>)
    requires IsIdMap(live, idMap) && |idMap| < INVALID_ID
    requires forall t | t in tagToLocation :: tagToLocation[t] in live && tagToLocation[t] < |idMap|
    requires forall t, u | t in tagToLocation && u in tagToLocation && t != u :: tagToLocation[t] != tagToLocation[u]
    ensures tagTo == Followed(live, tagToLocation)
    ensures TagsInverse(tagTo, toTag)
  {
    tagTo, toTag := map[], map[];
    var todo := tagToLocation.Keys;
    while todo != {}
      invariant todo <= tagToLocation.Keys
      invariant tagTo == map t | t in tagToLocation && t !in todo :: NewId(live, tagToLocation[t])
      invariant TagsInverse(tagTo, toTag)
      decreases |todo|
    {
      var tag :| tag in todo;
      var n := idMap[tagToLocation[tag]];
      assert n == NewId(live, tagToLocation[tag]);
      RemapStep(tagToLocation, live, tagTo, toTag, tag);
      if n != INVALID_ID {
        tagTo := tagTo[tag := n];
        toTag := toTag[n := tag];
      }
      todo := todo - {tag};
    }
  }

  // ----- the index -----

  lemma ReservedState<Tag(!new)>(tags: map<Tag, nat>, toTag: map<nat, Tag>, deleted: set<nat>, nd: nat, tag: Tag)
    requires TagState(tags, toTag, deleted, nd) && tag !in tags
    ensures TagState(tags[tag := nd], toTag[nd := tag], deleted, nd + 1)
  {
    assert nd !in toTag;
  }

  /** The capacity that a full index grows to. */
  function Grown(maxPoints: nat): nat {
    if maxPoints * 3 / 2 < 50000 then 50000 else maxPoints * 3 / 2
  }

  /** The node drawn among the first n; with none left, the bounds wrap and it can be anything. */
  ghost predicate Draws(draw: nat -> nat) {
    forall n: nat | n > 0 :: draw(n) < n
  }

  /** A longer copy, blank at the end. */
  method Widened<T>(a: array<T>, size: nat, blank: T) returns (b: array<T>)
    requires a.Length <= size
    ensures fresh(b) && b.Length == size && b[..a.Length] == a[..] && forall n | a.Length <= n < size :: b[n] == blank
  {
    b := new T[size](_ => blank);
    for i := 0 to a.Length
      invariant b[..i] == a[..i] && forall n | i <= n < size :: b[n] == blank
    {
      b[i] := a[i];
    }
  }

  lemma WidenedInRange(rows: Graph, more: Graph)
    requires InRange(rows) && |rows| <= |more| && more[..|rows|] == rows && forall n | |rows| <= n < |more| :: more[n] == []
    ensures InRange(more)
  {
    forall n, k | 0 <= n < |more| && 0 <= k < |more[n]| ensures more[n][k] < |more| {
      assert more[n] == more[..|rows|][n];
    }
  }

  class MemIndex<V(0,!new), Tag(==,!new)> {
    var graph: array<seq<nat>>
    var vectors: array<V>
    var tagToLocation: map<Tag, nat>
    var locationToTag: map<nat, Tag>
    var deleteSet: set<nat>
    var nd: nat
    var ep: nat

    ghost predicate Valid()
      reads this, graph
    {
      && graph as object != vectors as object
      && graph.Length == vectors.Length < INVALID_ID
      && nd <= graph.Length
      && TagState(tagToLocation, locationToTag, deleteSet, nd)
      && InRange(graph[..])
    }

    /** Marks a location deleted and drops its tag. Unknown tags are reported. */
    method LazyDelete(tag: Tag) returns (ok: bool)
      requires Valid()
      modifies this`tagToLocation, this`locationToTag, this`deleteSet
      ensures Valid()
      ensures ok <==> tag in old(tagToLocation)
      ensures tagToLocation == old(tagToLocation) - {tag}
      ensures deleteSet == old(deleteSet) + if ok then {old(tagToLocation)[tag]} else {}
    {
      if tag !in tagToLocation {
        return false;
      }
      var n := tagToLocation[tag];
      deleteSet := deleteSet + {n};
      locationToTag := locationToTag - {n};
      tagToLocation := tagToLocation - {tag};
      ok := true;
    }

    /** More room, everything in its place. */
    method Resize()
      requires Valid() && graph.Length <= Grown(graph.Length) < INVALID_ID
      modifies this`graph, this`vectors
      ensures Valid() && fresh(graph) && fresh(vectors) && graph.Length == Grown(old(graph.Length))
      ensures graph[..old(graph.Length)] == old(graph[..]) && vectors[..old(vectors.Length)] == old(vectors[..])
      ensures forall n | old(graph.Length) <= n < graph.Length :: graph[n] == []
    {
      var size, blank: V := Grown(graph.Length), *;
      ghost var was := graph[..];
      var rows := Widened(graph, size, []);
      var data := Widened(vectors, size, blank);
      WidenedInRange(was, rows[..]);
      graph, vectors := rows, data;
    }

    /** The tag part of an insertion: a tag that was in use moves to the new location and its old
        location is deleted. A full index grows first. */
    method ReserveFor(tag: Tag) returns (location: nat)
      requires Valid() && (nd < graph.Length || graph.Length < Grown(graph.Length) < INVALID_ID)
      modifies this`tagToLocation, this`locationToTag, this`deleteSet, this`nd, this`graph, this`vectors
      ensures Valid() && location == old(nd) && nd == old(nd) + 1
      ensures tagToLocation == old(tagToLocation)[tag := location]
      ensures deleteSet == old(deleteSet) + if tag in old(tagToLocation) then {old(tagToLocation)[tag]} else {}
      ensures old(nd) < old(graph.Length) ==> graph == old(graph) && vectors == old(vectors)
      ensures graph[..old(nd)] == old(graph[..nd]) && vectors[..old(nd)] == old(vectors[..nd])
    {
      MakeRoom();
      location := Retake(tag);
    }

    /** A full index grows. */
    method MakeRoom()
      requires Valid() && (nd < graph.Length || graph.Length < Grown(graph.Length) < INVALID_ID)
      modifies this`graph, this`vectors
      ensures Valid() && nd < graph.Length && (old(nd) < old(graph.Length) ==> graph == old(graph) && vectors == old(vectors))
      ensures graph[..nd] == old(graph[..nd]) && vectors[..nd] == old(vectors[..nd])
    {
      if nd >= graph.Length {
        ghost var rows, data := graph[..], vectors[..];
        Resize();
        assert graph[..nd] == rows && vectors[..nd] == data;
      }
    }

    method Retake(tag: Tag) returns (location: nat)
      requires Valid() && nd < graph.Length
      modifies this`tagToLocation, this`locationToTag, this`deleteSet, this`nd
      ensures Valid() && location == old(nd) && nd == old(nd) + 1
      ensures tagToLocation == old(tagToLocation)[tag := location]
      ensures deleteSet == old(deleteSet) + if tag in old(tagToLocation) then {old(tagToLocation)[tag]} else {}
    {
      if tag in tagToLocation {
        var _ := LazyDelete(tag);
      }
      ReservedState(tagToLocation, locationToTag, deleteSet, nd, tag);
      location := nd;
      nd := nd + 1;
      tagToLocation := tagToLocation[tag := location];
      locationToTag := locationToTag[location := tag];
    }

    /** Drops the deleted locations. `draw` gives the node drawn when the entry point was deleted. The
        new entry point is one of the remaining locations exactly if there are any. */
    method Consolidate(pr: Pruning, draw: nat -> nat)
      requires Valid() && pr.params.alpha < FLOAT_MAX && ep < graph.Length && Draws(draw)
      modifies this`tagToLocation, this`locationToTag, this`deleteSet, this`nd, this`ep, graph, vectors
      ensures Valid() && deleteSet == {}
      ensures old(deleteSet) == {} ==>
                && nd == old(nd) && ep == old(ep) && tagToLocation == old(tagToLocation)
                && graph[..] == old(graph[..]) && vectors[..] == old(vectors[..])
      ensures old(deleteSet) != {} ==>
                && Rebuilt(old(graph[..]), old(vectors[..]), old(locationToTag).Keys, old(tagToLocation), pr,
                           graph[..], vectors[..], tagToLocation, nd)
                && EntryIs(old(locationToTag).Keys, old(ep), nd, draw, ep)
                && (nd > 0 <==> old(tagToLocation) != map[]) && (nd > 0 ==> ep < nd)
    {
      if deleteSet != {} {
        var idMap, newNd := BuildIdMap(locationToTag, graph.Length);
        ghost var live, m := locationToTag.Keys, graph.Length;
        var e := idMap[ep];
        Rebuild(idMap, newNd, pr);
        EntryLeft(live, m, ep, e, draw);
        SetEntry(e, draw);
      }
    }

    /** The entry point stays where it went, or is drawn. */
    method SetEntry(e: nat, draw: nat -> nat)
      requires Valid()
      modifies this`ep
      ensures Valid() && ep == if e != INVALID_ID then e else draw(nd)
    {
      ep := if e != INVALID_ID then e else draw(nd);
    }

    method Rebuild(idMap: seq<nat>, newNd: nat, pr: Pruning)
      requires Valid() && pr.params.alpha < FLOAT_MAX && |idMap| == graph.Length && IsIdMap(locationToTag.Keys, idMap)
      requires newNd == NewId(locationToTag.Keys, graph.Length)
      modifies this`tagToLocation, this`locationToTag, this`deleteSet, this`nd, graph, vectors
      ensures Valid() && deleteSet == {} && nd == newNd
      ensures Rebuilt(old(graph[..]), old(vectors[..]), old(locationToTag).Keys, old(tagToLocation), pr,
                      graph[..], vectors[..], tagToLocation, nd)
      ensures nd > 0 <==> old(tagToLocation) != map[]
    {
      ghost var live, g := locationToTag.Keys, graph[..];
      Move(idMap, newNd, pr);
      CompactedInRange(g, live, pr, graph[..]);
      Retag(idMap, newNd);
      SomethingLeft(tagToLocation, locationToTag, nd);
    }

    /** Step 3: tags, counts and the set of deletions. */
    method Retag(idMap: seq<nat>, newNd: nat)
      requires TagState(tagToLocation, locationToTag, deleteSet, nd) && nd <= |idMap| < INVALID_ID
      requires IsIdMap(locationToTag.Keys, idMap) && newNd == NewId(locationToTag.Keys, |idMap|)
      modifies this`tagToLocation, this`locationToTag, this`deleteSet, this`nd
      ensures TagState(tagToLocation, locationToTag, deleteSet, nd) && deleteSet == {} && nd == newNd
      ensures tagToLocation == Followed(old(locationToTag).Keys, old(tagToLocation))
    {
      ghost var t2l, l2t := tagToLocation, locationToTag;
      TagsApart(t2l, l2t);
      tagToLocation, locationToTag := RemapTags(tagToLocation, idMap, l2t.Keys);
      TagsCover(t2l, l2t, tagToLocation, locationToTag, |idMap|);
      nd, deleteSet := newNd, {};
    }

    /** Steps 2 and its compaction: graph rows and vectors. */
    method Move(idMap: seq<nat>, newNd: nat, pr: Pruning)
      requires Valid() && pr.params.alpha < FLOAT_MAX && |idMap| == graph.Length && IsIdMap(locationToTag.Keys, idMap)
      requires newNd == NewId(locationToTag.Keys, graph.Length)
      modifies graph, vectors
      ensures Compacted(old(graph[..]), locationToTag.Keys, pr, graph[..])
      ensures VectorsKept(old(vectors[..]), tagToLocation, vectors[..], Followed(locationToTag.Keys, tagToLocation))
    {
      ghost var live, g, v := locationToTag.Keys, graph[..], vectors[..];
      UpdateRows(graph, idMap, pr, live);
      ghost var rows := graph[..];
      Compact(graph, vectors, idMap, live);
      ghost var moved := graph[..];
      ClearFrom(graph, newNd);
      RowsMoved(g, live, pr, rows, moved, graph[..]);
      VectorsMoved(v, live, tagToLocation, vectors[..]);
    }
  }

  /** Graph, vectors and tags after a consolidation. */
  ghost predicate Rebuilt<V(!new), Tag(!new)>(g: Graph, v: seq<V>, live: set<nat>, tags: map<Tag, nat>, pr: Pruning,
                                              rows: Graph, data: seq<V>, newTags: map<Tag, nat>, nd: nat) {
    && nd == NewId(live, |g|) && newTags == Followed(live, tags)
    && Compacted(g, live, pr, rows) && VectorsKept(v, tags, data, newTags)
  }

  /** The entry point follows its location, or is drawn. */
  ghost predicate EntryIs(live: set<nat>, ep: nat, nd: nat, draw: nat -> nat, newEp: nat) {
    newEp == if ep in live then NewId(live, ep) else draw(nd)
  }

  lemma EntryLeft(live: set<nat>, bound: nat, ep: nat, e: nat, draw: nat -> nat)
    requires ep < bound < INVALID_ID && e == MapOf(live, ep) && Draws(draw)
    ensures var n := NewId(live, bound); var newEp := if e != INVALID_ID then e else draw(n);
      EntryIs(live, ep, n, draw, newEp) && (n > 0 ==> newEp < n)
  {
    if ep in live {
      NewIdMonotone(live, ep, bound);
    }
  }

  lemma SomethingLeft<Tag>(tags: map<Tag, nat>, toTag: map<nat, Tag>, nd: nat)
    requires TagState(tags, toTag, {}, nd)
    ensures nd > 0 <==> tags != map[]
  {
    if nd > 0 {
      assert toTag[0] in tags;
    }
    if tags != map[] {
      var t :| t in tags;
      assert tags[t] < nd;
    }
  }

  /** Every tag at the new place of its location. */
  ghost function Followed<Tag(!new)>(live: set<nat>, tagToLocation: map<Tag, nat>): map<Tag, nat> {
    map t | t in tagToLocation :: NewId(live, tagToLocation[t])
  }

  /** Each surviving tag still has its vector. */
  ghost predicate VectorsKept<V(!new), Tag(!new)>(before: seq<V>, tags: map<Tag, nat>, after: seq<V>, newTags: map<Tag, nat>) {
    forall t | t in tags :: t in newTags && tags[t] < |before| && newTags[t] < |after| && after[newTags[t]] == before[tags[t]]
  }

  /** The new graph: the repaired row of every live node at its new place, nothing beyond. */
  ghost predicate Compacted(before: Graph, live: set<nat>, pr: Pruning, after: Graph) {
    && InRange(before) && |after| == |before|
    && (forall x | x in live && x < |before| :: NewId(live, x) < |before| && RowFor(before, live, x, pr, after[NewId(live, x)]))
    && (forall n, k | 0 <= n < |after| && 0 <= k < |after[n]| :: after[n][k] < NewId(live, |before|) <= |after|)
    && (forall n | NewId(live, |before|) <= n < |after| :: after[n] == [])
  }

  lemma RowsMoved(g: Graph, live: set<nat>, pr: Pruning, rows: Graph, moved: Graph, after: Graph)
    requires RowsUpTo(g, live, pr, |g|, rows) && MovedUpTo(rows, live, |rows|, moved) && |after| == |moved|
    requires forall n | 0 <= n < NewId(live, |g|) :: after[n] == moved[n]
    requires forall n | NewId(live, |g|) <= n < |after| :: after[n] == []
    ensures Compacted(g, live, pr, after)
  {
    forall x | x in live && x < |g| ensures NewId(live, x) < |g| && RowFor(g, live, x, pr, after[NewId(live, x)]) {
      NewIdMonotone(live, x, |g|);
      assert moved[NewId(live, x)] == rows[x];
    }
    forall n, k | 0 <= n < |after| && 0 <= k < |after[n]| ensures after[n][k] < NewId(live, |g|) <= |after| {
      assert n < NewId(live, |g|);
      var x := NewIdOnto(live, |g|, n);
      RowForBound(g, live, x, pr, after[n]);
    }
  }

  lemma VectorsMoved<V(!new), Tag(!new)>(v: seq<V>, live: set<nat>, tags: map<Tag, nat>, after: seq<V>)
    requires MovedUpTo(v, live, |v|, after) && forall t | t in tags :: tags[t] in live && tags[t] < |v|
    ensures VectorsKept(v, tags, after, Followed(live, tags))
  {
  }

  lemma CompactedInRange(g: Graph, live: set<nat>, pr: Pruning, after: Graph)
    requires Compacted(g, live, pr, after)
    ensures InRange(after)
  {
  }

  lemma TagsApart<Tag(!new)>(tags: map<Tag, nat>, toTag: map<nat, Tag>)
    requires TagsInverse(tags, toTag)
    ensures forall t, u | t in tags && u in tags && t != u :: tags[t] != tags[u]
  {
  }

  /** Every new location below the new count has a tag. */
  lemma TagsCover<Tag(!new)>(tags: map<Tag, nat>, toTag: map<nat, Tag>, newTags: map<Tag, nat>, newToTag: map<nat, Tag>, bound: nat)
    requires TagsInverse(tags, toTag) && forall n | n in toTag :: n < bound
    requires newTags == Followed(toTag.Keys, tags) && TagsInverse(newTags, newToTag)
    ensures TagState(newTags, newToTag, {}, NewId(toTag.Keys, bound))
  {
    var live := toTag.Keys;
    forall n | 0 <= n < NewId(live, bound) ensures n in newToTag {
      var x := NewIdOnto(live, bound, n);
      assert newTags[toTag[x]] == n;
    }
    forall n | n in newToTag ensures n < NewId(live, bound) {
      var t := newToTag[n];
      NewIdMonotone(live, tags[t], bound);
    }
  }
}
