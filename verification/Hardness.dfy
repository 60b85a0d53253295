/** NGFix hardness (src/index.cpp, ngfix_calc_hardness): Warshall's closure over bitset rows of the
    subgraph on the closest S nodes, recording when each pair first becomes connected. */
module Hardness {
  import opened Bounds
  import opened Lists

  /** Row i is the set of ranks that rank i has an edge to; every rank has an edge to itself. */
  type Rows = seq<set<nat>>

  ghost predicate IsRows(e: Rows) {
    forall i | 0 <= i < |e| :: i in e[i] && forall j | j in e[i] :: j < |e|
  }

  const EH_INF: nat := 65535
  const MAX_S: nat := 200

  // ----- what is to be computed: paths and their highest rank -----

  /** A walk along edges with at least two ends. */
  ghost predicate IsPath(e: Rows, p: seq<nat>, i: nat, j: nat) {
    && |p| >= 2 && p[0] == i && p[|p| - 1] == j
    && (forall m | 0 <= m < |p| :: p[m] < |e|)
    && forall m | 0 <= m < |p| - 1 :: p[m + 1] in e[p[m]]
  }

  ghost predicate InnerBelow(p: seq<nat>, k: nat) {
    forall m | 0 < m < |p| - 1 :: p[m] < k
  }

  /** i reaches j inside the subgraph on ranks 0..h, both ends included. */
  ghost predicate ReachesWithin(e: Rows, i: nat, j: nat, h: nat) {
    exists p :: IsPath(e, p, i, j) && forall m | 0 <= m < |p| :: p[m] <= h
  }

  // ----- the closure, stage by stage -----

  /** The row of i after stage k: what i reaches with all inner ranks below k. */
  ghost function Stage(e: Rows, k: nat, i: nat): set<nat>
    requires k <= |e| && i < |e|
  {
    if k == 0 then e[i]
    else Stage(e, k - 1, i) + if k - 1 in Stage(e, k - 1, i) then Stage(e, k - 1, k - 1) else {}
  }

  /** The hardness entry after stage k. */
  ghost function HardAt(e: Rows, k: nat, i: nat, j: nat): nat
    requires k <= |e| && i < |e|
  {
    if j !in Stage(e, k, i) then EH_INF
    else if k == 0 then Max(i, j)
    else if j in Stage(e, k - 1, i) then HardAt(e, k - 1, i, j)
    else Max(Max(i, j), k - 1)
  }

  lemma {:induction false} StageBounds(e: Rows, k: nat, i: nat)
    requires IsRows(e) && k <= |e| && i < |e|
    ensures i in Stage(e, k, i) && forall j | j in Stage(e, k, i) :: j < |e|
  {
    if k > 0 {
      StageBounds(e, k - 1, i);
      StageBounds(e, k - 1, k - 1);
    }
  }

  lemma {:induction false} StageMonotone(e: Rows, k: nat, l: nat, i: nat)
    requires k <= l <= |e| && i < |e|
    ensures Stage(e, k, i) <= Stage(e, l, i)
    decreases l
  {
    if k < l {
      StageMonotone(e, k, l - 1, i);
    }
  }

  /** The row of rank h does not change in stage h, so the order of the rows does not matter. */
  lemma PivotRowStays(e: Rows, h: nat)
    requires h < |e|
    ensures Stage(e, h + 1, h) == Stage(e, h, h)
  {
  }

  lemma Joined(e: Rows, p: seq<nat>, q: seq<nat>, i: nat, m: nat, j: nat)
    requires IsPath(e, p, i, m) && IsPath(e, q, m, j)
    ensures IsPath(e, p + q[1..], i, j)
  {
    var r := p + q[1..];
    forall x | 0 <= x < |r| - 1 ensures r[x + 1] in e[r[x]] {
      if x >= |p| - 1 {
        assert r[x] == q[x - (|p| - 1)] && r[x + 1] == q[x - (|p| - 1) + 1];
      }
    }
  }

  /** Everything in a row is reached by a path of the right kind. */
  lemma {:induction false} StageHasPath(e: Rows, k: nat, i: nat, j: nat) returns (p: seq<nat>)
    requires IsRows(e) && k <= |e| && i < |e| && j in Stage(e, k, i)
    ensures IsPath(e, p, i, j) && InnerBelow(p, k)
    decreases k
  {
    if k == 0 {
      p := [i, j];
    } else if j in Stage(e, k - 1, i) {
      p := StageHasPath(e, k - 1, i, j);
    } else {
      var a := StageHasPath(e, k - 1, i, k - 1);
      var b := StageHasPath(e, k - 1, k - 1, j);
      Joined(e, a, b, i, k - 1, j);
      p := a + b[1..];
    }
  }

  /** Every path of the right kind ends inside the row. */
  lemma {:induction false} PathInStage(e: Rows, k: nat, p: seq<nat>, i: nat, j: nat)
    requires IsRows(e) && k <= |e| && IsPath(e, p, i, j) && InnerBelow(p, k)
    ensures j in Stage(e, k, i)
    decreases k, |p|
  {
    if |p| == 2 {
      StageMonotone(e, 0, k, i);
    } else if exists m :: 0 < m < |p| - 1 && p[m] == k - 1 {
      var m :| 0 < m < |p| - 1 && p[m] == k - 1;
      FirstVisit(e, k, p, i, j, m);
    } else {
      assert k > 0 by { assert p[1] < k; }
      assert InnerBelow(p, k - 1);
      PathInStage(e, k - 1, p, i, j);
    }
  }

  lemma {:induction false} FirstVisit(e: Rows, k: nat, p: seq<nat>, i: nat, j: nat, m: nat)
    requires IsRows(e) && 0 < k <= |e| && IsPath(e, p, i, j) && InnerBelow(p, k)
    requires 0 < m < |p| - 1 && p[m] == k - 1
    ensures j in Stage(e, k, i)
    decreases k, |p|, 0
  {
    var a, b := p[..m + 1], p[m..];
    PathInStage(e, k, a, i, k - 1);
    PathInStage(e, k, b, k - 1, j);
    PivotRowStays(e, k - 1);
    PivotColumnStays(e, k - 1, i);
  }

  /** Whether rank h is in a row does not change in stage h either. */
  lemma PivotColumnStays(e: Rows, h: nat, i: nat)
    requires IsRows(e) && h < |e| && i < |e|
    ensures h in Stage(e, h + 1, i) <==> h in Stage(e, h, i)
  {
  }

  /** The closure and the paths agree. */
  lemma StageIsPaths(e: Rows, k: nat, i: nat, j: nat)
    requires IsRows(e) && k <= |e| && i < |e|
    ensures j in Stage(e, k, i) <==> exists p :: IsPath(e, p, i, j) && InnerBelow(p, k)
  {
    if j in Stage(e, k, i) {
      var p := StageHasPath(e, k, i, j);
    }
    if p :| IsPath(e, p, i, j) && InnerBelow(p, k) {
      PathInStage(e, k, p, i, j);
    }
  }

  lemma WithinIsStage(e: Rows, i: nat, j: nat, h: nat)
    requires IsRows(e) && h < |e| && i < |e|
    ensures ReachesWithin(e, i, j, h) <==> i <= h && j <= h && j in Stage(e, h + 1, i)
  {
    StageIsPaths(e, h + 1, i, j);
    if ReachesWithin(e, i, j, h) {
      var p :| IsPath(e, p, i, j) && forall m | 0 <= m < |p| :: p[m] <= h;
      assert InnerBelow(p, h + 1);
    }
    if i <= h && j <= h && j in Stage(e, h + 1, i) {
      var p := StageHasPath(e, h + 1, i, j);
      forall m | 0 <= m < |p| ensures p[m] <= h {
        assert m == 0 || m == |p| - 1 || p[m] < h + 1;
      }
    }
  }

  lemma {:induction false} HardAtIs(e: Rows, k: nat, i: nat, j: nat, h: nat)
    requires IsRows(e) && |e| <= MAX_S && k <= |e| && i < |e| && h < k
    ensures HardAt(e, k, i, j) <= h <==> i <= h && j <= h && j in Stage(e, h + 1, i)
    decreases k
  {
    StageBounds(e, k, i);
    StageMonotone(e, h + 1, k, i);
    if j in Stage(e, k, i) {
      if j in Stage(e, k - 1, i) {
        if h < k - 1 {
          HardAtIs(e, k - 1, i, j, h);
        } else {
          HardAtBound(e, k - 1, i, j);
        }
      } else if h < k - 1 {
        StageMonotone(e, h + 1, k - 1, i);
      }
    }
  }

  /** A finite entry is one of the two ends or a pivot already used. */
  lemma {:induction false} HardAtBound(e: Rows, k: nat, i: nat, j: nat)
    requires IsRows(e) && |e| <= MAX_S && k <= |e| && i < |e| && j in Stage(e, k, i)
    ensures Max(i, j) <= HardAt(e, k, i, j) < |e| && (k > 0 ==> HardAt(e, k, i, j) <= Max(Max(i, j), k - 1))
    ensures k == 0 ==> HardAt(e, k, i, j) == Max(i, j)
    decreases k
  {
    StageBounds(e, k, i);
    if k > 0 && j in Stage(e, k - 1, i) {
      HardAtBound(e, k - 1, i, j);
    }
  }

  /** The final entry is the least h such that the pair is connected inside ranks 0..h, and it is
      EH_INF exactly when the pair is not connected at all. */
  lemma HardnessIsLeast(e: Rows, i: nat, j: nat)
    requires IsRows(e) && |e| <= MAX_S && i < |e| && j < |e|
    ensures forall h | 0 <= h < |e| :: HardAt(e, |e|, i, j) <= h <==> ReachesWithin(e, i, j, h)
    ensures HardAt(e, |e|, i, j) == EH_INF <==> !ReachesWithin(e, i, j, |e| - 1)
    ensures HardAt(e, |e|, i, j) != EH_INF ==> HardAt(e, |e|, i, j) < |e|
  {
    forall h | 0 <= h < |e| ensures HardAt(e, |e|, i, j) <= h <==> ReachesWithin(e, i, j, h) {
      HardAtIs(e, |e|, i, j, h);
      WithinIsStage(e, i, j, h);
    }
    if j in Stage(e, |e|, i) {
      HardAtBound(e, |e|, i, j);
    }
  }

  // ----- the same over ids -----

  /** A walk over ids of the list, along the edges, from a to b; it may stay where it is. */
  ghost predicate IsWalk(edge: (nat, nat) -> bool, among: seq<nat>, w: seq<nat>, a: nat, b: nat) {
    && |w| >= 1 && w[0] == a && w[|w| - 1] == b && (forall k | 0 <= k < |w| :: w[k] in among)
    && forall k | 0 <= k < |w| - 1 :: edge(w[k], w[k + 1])
  }

  ghost predicate Walks(edge: (nat, nat) -> bool, among: seq<nat>, a: nat, b: nat) {
    exists w :: IsWalk(edge, among, w, a, b)
  }

  /** The rows are the edges between the listed ids, by rank. */
  ghost predicate Mirrors(g: Rows, gt: seq<nat>, edge: (nat, nat) -> bool) {
    |g| <= |gt| && forall i, j | 0 <= i < |g| && 0 <= j < |g| :: j in g[i] <==> i == j || edge(gt[i], gt[j])
  }

  lemma {:induction false} WalkOfPath(g: Rows, gt: seq<nat>, edge: (nat, nat) -> bool, p: seq<nat>, h: nat, i: nat, j: nat) returns (w: seq<nat>)
    requires IsRows(g) && Mirrors(g, gt, edge) && IsPath(g, p, i, j) && h < |g| && forall m | 0 <= m < |p| :: p[m] <= h
    ensures IsWalk(edge, gt[..h + 1], w, gt[i], gt[j])
    decreases |p|
  {
    var next := p[1];
    assert next in g[i];
    assert gt[..h + 1][i] == gt[i] && gt[..h + 1][next] == gt[next];
    if |p| == 2 {
      w := if i == j then [gt[i]] else [gt[i], gt[j]];
    } else {
      assert IsPath(g, p[1..], next, j);
      var rest := WalkOfPath(g, gt, edge, p[1..], h, next, j);
      w := if next == i then rest else [gt[i]] + rest;
    }
  }

  lemma RankOf(gt: seq<nat>, n: nat, h: nat, i: nat)
    requires h < n <= |gt| && Distinct(gt[..n]) && i < n && gt[i] in gt[..h + 1]
    ensures i <= h
  {
    var m :| 0 <= m <= h && gt[..h + 1][m] == gt[i];
    assert gt[..n][m] == gt[..n][i];
  }

  lemma {:induction false} PathOfWalk(g: Rows, gt: seq<nat>, edge: (nat, nat) -> bool, w: seq<nat>, h: nat, i: nat, j: nat) returns (p: seq<nat>)
    requires IsRows(g) && Mirrors(g, gt, edge) && Distinct(gt[..|g|]) && h < |g| && i < |g| && j < |g|
    requires IsWalk(edge, gt[..h + 1], w, gt[i], gt[j])
    ensures IsPath(g, p, i, j) && forall m | 0 <= m < |p| :: p[m] <= h
    decreases |w|
  {
    RankOf(gt, |g|, h, i);
    RankOf(gt, |g|, h, j);
    if |w| == 1 {
      assert gt[..|g|][i] == gt[..|g|][j];
      p := [i, i];
    } else {
      var next :| 0 <= next <= h && gt[..h + 1][next] == w[1];
      assert edge(w[0], w[1]);
      assert IsWalk(edge, gt[..h + 1], w[1..], gt[next], gt[j]);
      var rest := PathOfWalk(g, gt, edge, w[1..], h, next, j);
      p := [i] + rest;
    }
  }

  /** Paths of ranks are walks over ids. */
  lemma WithinIsWalk(g: Rows, gt: seq<nat>, edge: (nat, nat) -> bool, h: nat, i: nat, j: nat)
    requires IsRows(g) && Mirrors(g, gt, edge) && Distinct(gt[..|g|]) && h < |g| && i < |g| && j < |g|
    ensures ReachesWithin(g, i, j, h) <==> Walks(edge, gt[..h + 1], gt[i], gt[j])
  {
    if ReachesWithin(g, i, j, h) {
      var p :| IsPath(g, p, i, j) && forall m | 0 <= m < |p| :: p[m] <= h;
      var w := WalkOfPath(g, gt, edge, p, h, i, j);
    }
    if Walks(edge, gt[..h + 1], gt[i], gt[j]) {
      var w :| IsWalk(edge, gt[..h + 1], w, gt[i], gt[j]);
      var p := PathOfWalk(g, gt, edge, w, h, i, j);
    }
  }

  ghost function Links(nbrs: nat -> seq<nat>): (nat, nat) -> bool {
    (a: nat, b: nat) => b in nbrs(a)
  }

  /** v is the least h such that a walk along the neighbour lists leads from gt[i] to gt[j] among the
      first h + 1 ids, and infinite exactly if none does among the first n. */
  ghost predicate IsHardness(nbrs: nat -> seq<nat>, gt: seq<nat>, n: nat, i: nat, j: nat, v: nat)
    requires i < n <= |gt| && j < n
  {
    && (forall h | 0 <= h < n :: v <= h <==> WalksUpTo(nbrs, gt, h, i, j))
    && (v == EH_INF <==> !WalksUpTo(nbrs, gt, n - 1, i, j))
    && (v != EH_INF ==> v < n)
  }

  ghost predicate WalksUpTo(nbrs: nat -> seq<nat>, gt: seq<nat>, h: nat, i: nat, j: nat)
    requires h < |gt| && i < |gt| && j < |gt|
  {
    Walks(Links(nbrs), gt[..h + 1], gt[i], gt[j])
  }

  // ----- the computation -----

  /** The subgraph on the first n of the given ids, by rank. */
  ghost function Induced(nbrs: nat -> seq<nat>, gt: seq<nat>, n: nat): (e: Rows)
    requires n <= |gt|
    ensures |e| == n && IsRows(e)
  {
    seq(n, i requires 0 <= i < n => Row(nbrs, gt, n, i))
  }

  ghost function Row(nbrs: nat -> seq<nat>, gt: seq<nat>, n: nat, i: nat): set<nat>
    requires i < n <= |gt|
  {
    set j | 0 <= j < n && (j == i || gt[j] in nbrs(gt[i]))
  }

  ghost predicate IsRank(gt: seq<nat>, n: nat, rank: map<nat, nat>)
    requires n <= |gt|
  {
    && (forall i | 0 <= i < n :: gt[i] in rank && rank[gt[i]] == i)
    && forall v | v in rank :: rank[v] < n && gt[rank[v]] == v
  }

  method RankMap(gt: seq<nat>, n: nat) returns (rank: map<nat, nat>)
    requires n <= |gt| && Distinct(gt[..n])
    ensures IsRank(gt, n, rank)
  {
    rank := map[];
    for i := 0 to n
      invariant IsRank(gt, i, rank)
    {
      rank := rank[gt[i] := i];
    }
  }

  /** Row i of the matrix and of the hardness, from the neighbour list of gt[i]. */
  ghost function Listed(gt: seq<nat>, n: nat, list: seq<nat>): set<nat>
    requires n <= |gt|
  {
    set j | 0 <= j < n && gt[j] in list
  }

  method AddEdges(gt: seq<nat>, n: nat, nq: nat, rank: map<nat, nat>, i: nat, list: seq<nat>, f: array<set<nat>>, H: array2<nat>)
    requires i < n <= |gt| && nq <= n && IsRank(gt, n, rank)
    requires f.Length == n && H.Length0 == H.Length1 == nq
    modifies f, H
    ensures f[i] == old(f[i]) + Listed(gt, n, list)
    ensures forall x | 0 <= x < n && x != i :: f[x] == old(f[x])
    ensures forall x, y | 0 <= x < nq && 0 <= y < nq :: H[x, y] == if x == i && y in Listed(gt, n, list) then Max(i, y) else old(H[x, y])
  {
    assert list[..0] == [];
    for k := 0 to |list|
      invariant f[i] == old(f[i]) + Listed(gt, n, list[..k])
      invariant forall x | 0 <= x < n && x != i :: f[x] == old(f[x])
      invariant forall x, y | 0 <= x < nq && 0 <= y < nq :: H[x, y] == if x == i && y in Listed(gt, n, list[..k]) then Max(i, y) else old(H[x, y])
    {
      ListedMore(gt, n, rank, list, k);
      if list[k] in rank {
        var j := rank[list[k]];
        f[i] := f[i] + {j};
        if i < nq && j < nq {
          H[i, j] := Max(i, j);
        }
      }
    }
    assert list[..|list|] == list;
  }

  lemma ListedMore(gt: seq<nat>, n: nat, rank: map<nat, nat>, list: seq<nat>, k: nat)
    requires n <= |gt| && IsRank(gt, n, rank) && k < |list|
    ensures Listed(gt, n, list[..k + 1]) == Listed(gt, n, list[..k]) + if list[k] in rank then {rank[list[k]]} else {}
  {
    assert list[..k + 1] == list[..k] + [list[k]];
  }

  /** The rows and the hardness before the first stage. */
  ghost predicate Started(e: Rows, nq: nat, f: seq<set<nat>>, H: array2<nat>)
    requires nq <= |e| && H.Length0 == H.Length1 == nq
    reads H
  {
    f == e && forall x, y | 0 <= x < nq && 0 <= y < nq :: H[x, y] == HardAt(e, 0, x, y)
  }

  method Start(nbrs: nat -> seq<nat>, gt: seq<nat>, nq: nat, n: nat) returns (f: array<set<nat>>, H: array2<nat>)
    requires nq <= n <= |gt| && Distinct(gt[..n])
    ensures fresh(f) && fresh(H) && H.Length0 == H.Length1 == nq
    ensures Started(Induced(nbrs, gt, n), nq, f[..], H)
  {
    var rank := RankMap(gt, n);
    f := new set<nat>[n](i => {i});
    H := new nat[nq, nq]((x, y) => if x == y then x else EH_INF);
    ghost var e := Induced(nbrs, gt, n);
    for i := 0 to n
      invariant forall x | 0 <= x < i :: f[x] == e[x]
      invariant forall x | i <= x < n :: f[x] == {x}
      invariant forall x, y | 0 <= x < nq && 0 <= y < nq ::
        H[x, y] == if x < i then HardAt(e, 0, x, y) else if x == y then x else EH_INF
    {
      AddEdges(gt, n, nq, rank, i, nbrs(gt[i]), f, H);
      assert e[i] == {i} + Listed(gt, n, nbrs(gt[i]));
    }
    assert f[..] == e;
  }

  /** Rows below i have been through stage h, the others not yet. */
  ghost predicate MidStage(e: Rows, nq: nat, h: nat, i: nat, f: seq<set<nat>>, H: array2<nat>)
    requires nq <= |e| && h <= |e| && (i > 0 ==> h < |e|) && |f| == |e| && H.Length0 == H.Length1 == nq
    reads H
  {
    && (forall x | 0 <= x < |e| :: f[x] == Stage(e, if x < i then h + 1 else h, x))
    && forall x, y | 0 <= x < nq && 0 <= y < nq :: H[x, y] == HardAt(e, if x < i then h + 1 else h, x, y)
  }

  /** Writes the hardness of the pairs that row i has just gained. */
  method Record(H: array2<nat>, nq: nat, i: nat, h: nat, gained: set<nat>)
    requires H.Length0 == H.Length1 == nq && i < nq
    modifies H
    ensures forall x, y | 0 <= x < nq && 0 <= y < nq :: H[x, y] == if x == i && y in gained then Max(Max(i, y), h) else old(H[x, y])
  {
    for j := 0 to nq
      invariant forall x, y | 0 <= x < nq && 0 <= y < nq :: H[x, y] == if x == i && y < j && y in gained then Max(Max(i, y), h) else old(H[x, y])
    {
      if j in gained {
        H[i, j] := Max(Max(i, j), h);
      }
    }
  }

  /** One row of one stage. */
  method ThroughPivot(f: array<set<nat>>, H: array2<nat>, nq: nat, h: nat, i: nat, ghost e: Rows)
    requires IsRows(e) && f.Length == |e| && nq <= |e| && h < |e| && i < |e| && H.Length0 == H.Length1 == nq
    requires MidStage(e, nq, h, i, f[..], H)
    modifies f, H
    ensures MidStage(e, nq, h, i + 1, f[..], H)
  {
    ghost var was := f[..];
    PivotRowStays(e, h);
    if h in f[i] {
      var last := f[i];
      f[i] := f[i] + f[h];
      if i < nq {
        Record(H, nq, i, h, f[i] - last);
      }
      assert f[..] == was[i := Stage(e, h + 1, i)];
    }
  }

  /** The hardness of every pair among the first nq ids. */
  method CalcHardness(nbrs: nat -> seq<nat>, gt: seq<nat>, nq: nat, n: nat) returns (H: array2<nat>)
    requires nq <= n <= |gt| && n <= MAX_S && Distinct(gt[..n])
    ensures fresh(H) && H.Length0 == H.Length1 == nq
    ensures forall i, j | 0 <= i < nq && 0 <= j < nq :: H[i, j] == HardAt(Induced(nbrs, gt, n), n, i, j)
    ensures forall i, j | 0 <= i < nq && 0 <= j < nq :: IsHardness(nbrs, gt, n, i, j, H[i, j])
  {
    H := Closure(nbrs, gt, nq, n);
    forall i, j | 0 <= i < nq && 0 <= j < nq ensures IsHardness(nbrs, gt, n, i, j, H[i, j]) {
      InducedHardness(nbrs, gt, n, i, j);
    }
  }

  /** The stages, one pivot after the other. */
  method Closure(nbrs: nat -> seq<nat>, gt: seq<nat>, nq: nat, n: nat) returns (H: array2<nat>)
    requires nq <= n <= |gt| && n <= MAX_S && Distinct(gt[..n])
    ensures fresh(H) && H.Length0 == H.Length1 == nq
    ensures forall i, j | 0 <= i < nq && 0 <= j < nq :: H[i, j] == HardAt(Induced(nbrs, gt, n), n, i, j)
  {
    var f;
    f, H := Start(nbrs, gt, nq, n);
    ghost var e := Induced(nbrs, gt, n);
    for h := 0 to n
      invariant MidStage(e, nq, h, 0, f[..], H)
    {
      for i := 0 to n
        invariant MidStage(e, nq, h, i, f[..], H)
      {
        ThroughPivot(f, H, nq, h, i, e);
      }
    }
  }

  lemma InducedMirrors(nbrs: nat -> seq<nat>, gt: seq<nat>, n: nat)
    requires n <= |gt|
    ensures Mirrors(Induced(nbrs, gt, n), gt, Links(nbrs))
  {
  }

  /** What the recurrence computes, over ids. */
  lemma InducedHardness(nbrs: nat -> seq<nat>, gt: seq<nat>, n: nat, i: nat, j: nat)
    requires n <= |gt| && n <= MAX_S && Distinct(gt[..n]) && i < n && j < n
    ensures IsHardness(nbrs, gt, n, i, j, HardAt(Induced(nbrs, gt, n), n, i, j))
  {
    var e := Induced(nbrs, gt, n);
    InducedMirrors(nbrs, gt, n);
    HardnessIsLeast(e, i, j);
    forall h | 0 <= h < n ensures ReachesWithin(e, i, j, h) <==> WalksUpTo(nbrs, gt, h, i, j) {
      WithinIsWalk(e, gt, Links(nbrs), h, i, j);
    }
  }
}
