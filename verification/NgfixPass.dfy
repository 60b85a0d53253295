/** NGFix edge selection (src/index.cpp, ngfix_pass): from the hardness of the closest nodes, pick
    edges, closest pair first, until every pair is connected. */
module NgfixPass {
  import opened Hardness
  import opened Lists

  // ----- reachability, and what one new edge adds to it -----

  ghost predicate Reaches(g: Rows, i: nat, j: nat) {
    exists p :: IsPath(g, p, i, j)
  }

  datatype Edge = Edge(from: nat, to: nat)

  ghost function With(g: Rows, c: Edge): Rows
    requires c.from < |g|
  {
    g[c.from := g[c.from] + {c.to}]
  }

  ghost predicate EdgesIn(cs: seq<Edge>, n: nat) {
    forall k | 0 <= k < |cs| :: cs[k].from < n && cs[k].to < n
  }

  /** The graph with all these edges added. */
  ghost function WithAll(g: Rows, cs: seq<Edge>): (r: Rows)
    requires IsRows(g) && EdgesIn(cs, |g|)
    ensures |r| == |g| && IsRows(r)
  {
    if cs == [] then g else With(WithAll(g, cs[..|cs| - 1]), cs[|cs| - 1])
  }

  lemma ReachesSelf(g: Rows, i: nat)
    requires IsRows(g) && i < |g|
    ensures Reaches(g, i, i)
  {
    assert IsPath(g, [i, i], i, i);
  }

  lemma ReachesJoin(g: Rows, i: nat, m: nat, j: nat)
    requires Reaches(g, i, m) && Reaches(g, m, j)
    ensures Reaches(g, i, j)
  {
    var p :| IsPath(g, p, i, m);
    var q :| IsPath(g, q, m, j);
    Joined(g, p, q, i, m, j);
  }

  lemma WithKeeps(g: Rows, c: Edge, i: nat, j: nat)
    requires c.from < |g| && Reaches(g, i, j)
    ensures Reaches(With(g, c), i, j)
  {
    var p :| IsPath(g, p, i, j);
    assert IsPath(With(g, c), p, i, j);
  }

  /** A path in the larger graph either avoids the new edge or can be cut at it. */
  lemma {:induction false} PathCut(g: Rows, c: Edge, p: seq<nat>, i: nat, j: nat)
    requires IsRows(g) && c.from < |g| && c.to < |g| && IsPath(With(g, c), p, i, j)
    ensures Reaches(g, i, j) || (Reaches(g, i, c.from) && Reaches(g, c.to, j))
    decreases |p|
  {
    ReachesSelf(g, i);
    ReachesSelf(g, j);
    var next := p[1];
    assert next in With(g, c)[i];
    if |p| > 2 {
      assert IsPath(With(g, c), p[1..], next, j);
      PathCut(g, c, p[1..], next, j);
    } else {
      ReachesSelf(g, next);
    }
    if next in g[i] {
      assert IsPath(g, [i, next], i, next);
      if Reaches(g, next, j) {
        ReachesJoin(g, i, next, j);
      } else {
        ReachesJoin(g, i, next, c.from);
      }
    }
  }

  /** Exactly what one edge adds. */
  lemma WithReaches(g: Rows, c: Edge, i: nat, j: nat)
    requires IsRows(g) && c.from < |g| && c.to < |g|
    ensures Reaches(With(g, c), i, j) <==> Reaches(g, i, j) || (Reaches(g, i, c.from) && Reaches(g, c.to, j))
  {
    if Reaches(With(g, c), i, j) {
      var p :| IsPath(With(g, c), p, i, j);
      PathCut(g, c, p, i, j);
    }
    if Reaches(g, i, j) {
      WithKeeps(g, c, i, j);
    }
    if Reaches(g, i, c.from) && Reaches(g, c.to, j) {
      WithKeeps(g, c, i, c.from);
      WithKeeps(g, c, c.to, j);
      assert IsPath(With(g, c), [c.from, c.to], c.from, c.to);
      ReachesJoin(With(g, c), i, c.from, c.to);
      ReachesJoin(With(g, c), i, c.to, j);
    }
  }

  // ----- the starting point -----

  /** The edges between ranks 0..kh, the part of the subgraph that counts as connected. */
  ghost function Restrict(e: Rows, kh: nat): (g: Rows)
    requires IsRows(e)
    ensures |g| == |e| && IsRows(g)
  {
    seq(|e|, i requires 0 <= i < |e| => set j | j in e[i] && (j == i || (i <= kh && j <= kh)))
  }

  lemma RestrictReaches(e: Rows, kh: nat, i: nat, j: nat)
    requires IsRows(e) && i <= kh && i < |e|
    ensures Reaches(Restrict(e, kh), i, j) <==> ReachesWithin(e, i, j, kh)
  {
    var g := Restrict(e, kh);
    if ReachesWithin(e, i, j, kh) {
      var p :| IsPath(e, p, i, j) && forall m | 0 <= m < |p| :: p[m] <= kh;
      assert IsPath(g, p, i, j);
    }
    if p :| IsPath(g, p, i, j) {
      StaysLow(e, kh, p, i, j);
    }
  }

  lemma StaysLow(e: Rows, kh: nat, p: seq<nat>, i: nat, j: nat)
    requires IsRows(e) && IsPath(Restrict(e, kh), p, i, j) && i <= kh
    ensures IsPath(e, p, i, j) && forall m | 0 <= m < |p| :: p[m] <= kh
  {
    var g := Restrict(e, kh);
    forall m | 0 <= m < |p| ensures p[m] <= kh {
      LowUpTo(e, kh, p, i, j, m);
    }
    forall m | 0 <= m < |p| - 1 ensures p[m + 1] in e[p[m]] {
      assert p[m + 1] in g[p[m]];
    }
  }

  lemma {:induction false} LowUpTo(e: Rows, kh: nat, p: seq<nat>, i: nat, j: nat, m: nat)
    requires IsRows(e) && IsPath(Restrict(e, kh), p, i, j) && i <= kh && m < |p|
    ensures p[m] <= kh
  {
    if m > 0 {
      LowUpTo(e, kh, p, i, j, m - 1);
      assert p[(m - 1) + 1] in Restrict(e, kh)[p[m - 1]];
    }
  }

  /** Row i of the matrix the pass starts from. */
  ghost function Connected(e: Rows, nq: nat, kh: nat, i: nat): set<nat>
    requires nq <= |e| && i < nq
  {
    set j | 0 <= j < nq && HardAt(e, |e|, i, j) <= kh
  }

  /** The matrix says exactly what the graph g connects among the first nq ranks. */
  ghost predicate Exact(f: Rows, nq: nat, g: Rows) {
    |f| == nq && forall x, y | 0 <= x < nq && 0 <= y < nq :: y in f[x] <==> Reaches(g, x, y)
  }

  /** The matrix claims no more than the graph g connects. */
  ghost predicate Sound(f: Rows, nq: nat, g: Rows) {
    |f| == nq && forall x, y | 0 <= x < nq && 0 <= y < nq && y in f[x] :: Reaches(g, x, y)
  }

  ghost function StartRows(e: Rows, nq: nat, kh: nat): Rows
    requires nq <= |e|
  {
    seq(nq, i requires 0 <= i < nq => Connected(e, nq, kh, i))
  }

  lemma ConnectedMeans(e: Rows, nq: nat, kh: nat, i: nat, j: nat)
    requires IsRows(e) && |e| <= MAX_S && nq <= |e| && i < nq && j < nq && kh < EH_INF
    ensures j in Connected(e, nq, kh, i) <==> i <= kh && Reaches(Restrict(e, kh), i, j)
  {
    HardnessIsLeast(e, i, j);
    var top := if kh < |e| then kh else |e| - 1;
    assert HardAt(e, |e|, i, j) <= kh <==> HardAt(e, |e|, i, j) <= top;
    if i <= kh {
      RestrictReaches(e, kh, i, j);
      if kh >= |e| {
        WithinAll(e, i, j, kh);
      }
    } else {
      NeedsLowEnds(e, i, j, top);
    }
  }

  lemma WithinAll(e: Rows, i: nat, j: nat, kh: nat)
    requires IsRows(e) && |e| > 0 && kh >= |e|
    ensures ReachesWithin(e, i, j, kh) <==> ReachesWithin(e, i, j, |e| - 1)
  {
    if p :| IsPath(e, p, i, j) && forall m | 0 <= m < |p| :: p[m] <= kh {
      assert forall m | 0 <= m < |p| :: p[m] <= |e| - 1;
    }
  }

  lemma NeedsLowEnds(e: Rows, i: nat, j: nat, h: nat)
    requires i > h
    ensures !ReachesWithin(e, i, j, h)
  {
  }

  lemma StartSound(e: Rows, nq: nat, kh: nat)
    requires IsRows(e) && |e| <= MAX_S && nq <= |e| && kh < EH_INF
    ensures Sound(StartRows(e, nq, kh), nq, Restrict(e, kh))
  {
    forall x, y | 0 <= x < nq && 0 <= y < nq && y in StartRows(e, nq, kh)[x] ensures Reaches(Restrict(e, kh), x, y) {
      ConnectedMeans(e, nq, kh, x, y);
    }
  }

  /** Against the edges among ranks 0..kh, the start is exact precisely when all the ranks concerned
      are within kh; the callers pass kh equal to nq. */
  lemma StartExactBelow(e: Rows, nq: nat, kh: nat)
    requires IsRows(e) && |e| <= MAX_S && nq <= |e| && kh < EH_INF
    ensures Exact(StartRows(e, nq, kh), nq, Restrict(e, kh)) <==> nq <= kh + 1
  {
    if nq <= kh + 1 {
      forall x, y | 0 <= x < nq && 0 <= y < nq ensures y in StartRows(e, nq, kh)[x] <==> Reaches(Restrict(e, kh), x, y) {
        ConnectedMeans(e, nq, kh, x, y);
      }
    } else {
      ConnectedMeans(e, nq, kh, nq - 1, nq - 1);
      ReachesSelf(Restrict(e, kh), nq - 1);
    }
  }

  /** Every pair that is connected at all is connected within ranks 0..kh. */
  ghost predicate Settled(e: Rows, nq: nat, kh: nat)
    requires nq <= |e|
  {
    forall i, j | 0 <= i < nq && 0 <= j < nq :: HardAt(e, |e|, i, j) <= kh || HardAt(e, |e|, i, j) == EH_INF
  }

  lemma HardIffReached(e: Rows, i: nat, j: nat)
    requires IsRows(e) && |e| <= MAX_S && i < |e| && j < |e|
    ensures Reaches(e, i, j) <==> HardAt(e, |e|, i, j) != EH_INF
  {
    HardnessIsLeast(e, i, j);
    if p :| IsPath(e, p, i, j) {
      assert forall m | 0 <= m < |p| :: p[m] <= |e| - 1;
    }
  }

  /** Against all edges of the subgraph, the start is exact precisely when no connected pair needs a
      rank beyond kh. */
  lemma StartExactIff(e: Rows, nq: nat, kh: nat)
    requires IsRows(e) && |e| <= MAX_S && nq <= |e| && kh < EH_INF
    ensures Exact(StartRows(e, nq, kh), nq, e) <==> Settled(e, nq, kh)
  {
    forall x, y | 0 <= x < nq && 0 <= y < nq
      ensures Reaches(e, x, y) <==> HardAt(e, |e|, x, y) != EH_INF
      ensures y in StartRows(e, nq, kh)[x] <==> HardAt(e, |e|, x, y) <= kh
    {
      HardIffReached(e, x, y);
    }
  }

  /** In particular when kh covers all ranks. */
  lemma AllRanksSettled(e: Rows, nq: nat, kh: nat)
    requires IsRows(e) && |e| <= MAX_S && nq <= |e| <= kh + 1
    ensures Settled(e, nq, kh)
  {
    forall i, j | 0 <= i < nq && 0 <= j < nq ensures HardAt(e, |e|, i, j) <= kh || HardAt(e, |e|, i, j) == EH_INF {
      HardnessIsLeast(e, i, j);
    }
  }

  // ----- picking edges -----

  /** The matrix after an edge has been picked: whatever reached its start also reaches what its
      end reached. */
  ghost function AfterPick(f: Rows, c: Edge): (r: Rows)
    requires c.from < |f| && c.to < |f|
    ensures |r| == |f|
  {
    var f1 := f[c.from := f[c.from] + {c.to}];
    seq(|f|, k requires 0 <= k < |f| => f1[k] + if c.from in f1[k] then f1[c.to] else {})
  }

  /** The update, row by row in place. */
  method Pick(f: array<set<nat>>, c: Edge)
    requires c.from < f.Length && c.to < f.Length
    modifies f
    ensures f[..] == AfterPick(old(f[..]), c)
  {
    ghost var f0 := f[..];
    f[c.from] := f[c.from] + {c.to};
    ghost var f1 := f[..];
    for k := 0 to f.Length
      invariant forall x | 0 <= x < k :: f[x] == AfterPick(f0, c)[x]
      invariant forall x | k <= x < f.Length :: f[x] == f1[x]
      invariant f[c.to] == f1[c.to]
    {
      if c.from in f[k] {
        f[k] := f[k] + f[c.to];
      }
    }
  }

  lemma PickExact(f: Rows, nq: nat, g: Rows, c: Edge)
    requires IsRows(g) && nq <= |g| && c.from < nq && c.to < nq && Exact(f, nq, g) && c.to !in f[c.from]
    ensures Exact(AfterPick(f, c), nq, With(g, c))
  {
    ReachesSelf(g, c.from);
    ReachesSelf(g, c.to);
    forall x, y | 0 <= x < nq && 0 <= y < nq ensures y in AfterPick(f, c)[x] <==> Reaches(With(g, c), x, y) {
      WithReaches(g, c, x, y);
    }
  }

  lemma PickSound(f: Rows, nq: nat, g: Rows, c: Edge)
    requires IsRows(g) && nq <= |g| && c.from < nq && c.to < nq && Sound(f, nq, g)
    ensures Sound(AfterPick(f, c), nq, With(g, c))
  {
    ReachesSelf(g, c.from);
    ReachesSelf(g, c.to);
    forall x, y | 0 <= x < nq && 0 <= y < nq && y in AfterPick(f, c)[x] ensures Reaches(With(g, c), x, y) {
      WithReaches(g, c, x, y);
    }
  }

  lemma PickGrows(f: Rows, c: Edge, x: nat)
    requires c.from < |f| && c.to < |f| && x < |f|
    ensures f[x] <= AfterPick(f, c)[x] && (x == c.from ==> c.to in AfterPick(f, c)[x])
  {
  }

  /** No edge was already implied by the graph and the edges picked before it. */
  ghost predicate NoneImplied(g: Rows, cs: seq<Edge>)
    requires IsRows(g) && EdgesIn(cs, |g|)
  {
    forall t | 0 <= t < |cs| :: !Reaches(WithAll(g, cs[..t]), cs[t].from, cs[t].to)
  }

  /** What holds after some candidates: the matrix, the picked edges, and what is already covered. */
  ghost predicate Picking(g: Rows, nq: nat, exact: bool, f0: Rows, f: Rows, chosen: seq<Edge>, done: seq<Edge>) {
    && IsRows(g) && nq <= |g| && |f| == |f0| == nq && EdgesIn(chosen, nq) && EdgesIn(done, nq)
    && Sound(f, nq, WithAll(g, chosen))
    && (exact ==> Exact(f, nq, WithAll(g, chosen)) && NoneImplied(g, chosen))
    && (forall x | 0 <= x < nq :: f0[x] <= f[x])
    && (forall k | 0 <= k < |done| :: done[k].to in f[done[k].from])
  }

  lemma PickingStart(g: Rows, nq: nat, exact: bool, f0: Rows)
    requires IsRows(g) && nq <= |g| && Sound(f0, nq, g) && (exact ==> Exact(f0, nq, g))
    ensures Picking(g, nq, exact, f0, f0, [], [])
  {
  }

  lemma PickingSkip(g: Rows, nq: nat, exact: bool, f0: Rows, f: Rows, chosen: seq<Edge>, done: seq<Edge>, c: Edge)
    requires Picking(g, nq, exact, f0, f, chosen, done) && c.from < nq && c.to < nq && c.to in f[c.from]
    ensures Picking(g, nq, exact, f0, f, chosen, done + [c])
  {
  }

  lemma PickingPick(g: Rows, nq: nat, exact: bool, f0: Rows, f: Rows, chosen: seq<Edge>, done: seq<Edge>, c: Edge)
    requires Picking(g, nq, exact, f0, f, chosen, done) && c.from < nq && c.to < nq && c.to !in f[c.from]
    ensures Picking(g, nq, exact, f0, AfterPick(f, c), chosen + [c], done + [c])
  {
    var cs, now := chosen + [c], WithAll(g, chosen);
    assert cs[..|chosen|] == chosen;
    assert WithAll(g, cs) == With(now, c);
    PickSound(f, nq, now, c);
    if exact {
      PickExact(f, nq, now, c);
      NoneImpliedMore(g, chosen, c);
    }
    forall x | 0 <= x < nq ensures f[x] <= AfterPick(f, c)[x] && (x == c.from ==> c.to in AfterPick(f, c)[x]) {
      PickGrows(f, c, x);
    }
  }

  lemma NoneImpliedMore(g: Rows, cs: seq<Edge>, c: Edge)
    requires IsRows(g) && EdgesIn(cs, |g|) && c.from < |g| && c.to < |g| && NoneImplied(g, cs)
    requires !Reaches(WithAll(g, cs), c.from, c.to)
    ensures NoneImplied(g, cs + [c])
  {
    forall t | 0 <= t < |cs + [c]| ensures !Reaches(WithAll(g, (cs + [c])[..t]), (cs + [c])[t].from, (cs + [c])[t].to) {
      assert (cs + [c])[..t] == cs[..t];
      assert cs[..|cs|] == cs;
    }
  }

  /** The matrix and the picked edges after these candidates, in this order. */
  ghost function Run(f: Rows, vs: seq<Edge>): (r: (Rows, seq<Edge>))
    requires EdgesIn(vs, |f|)
    ensures |r.0| == |f|
  {
    if vs == [] then (f, []) else
      var (g, cs) := Run(f, vs[..|vs| - 1]);
      var c := vs[|vs| - 1];
      if c.to in g[c.from] then (g, cs) else (AfterPick(g, c), cs + [c])
  }

  /** One pass over candidate edges, in whatever order they come. */
  method Greedy(f: array<set<nat>>, vs: seq<Edge>) returns (chosen: seq<Edge>)
    requires EdgesIn(vs, f.Length)
    modifies f
    ensures Run(old(f[..]), vs) == (f[..], chosen)
  {
    chosen := [];
    ghost var f0 := f[..];
    for k := 0 to |vs|
      invariant Run(f0, vs[..k]) == (f[..], chosen)
    {
      var c := vs[k];
      assert vs[..k + 1][..k] == vs[..k];
      if c.to !in f[c.from] {
        chosen := chosen + [c];
        Pick(f, c);
      }
    }
    assert vs[..|vs|] == vs;
  }

  /** Whatever graph the start is sound for, the picked edges connect the candidates in it; if the
      start is exact for it, no picked edge was implied. */
  lemma {:induction false} RunPicks(g: Rows, nq: nat, exact: bool, f: Rows, vs: seq<Edge>)
    requires IsRows(g) && nq <= |g| && EdgesIn(vs, nq) && Sound(f, nq, g) && (exact ==> Exact(f, nq, g))
    ensures Picking(g, nq, exact, f, Run(f, vs).0, Run(f, vs).1, vs)
    decreases |vs|
  {
    if vs == [] {
      PickingStart(g, nq, exact, f);
    } else {
      var before, c := vs[..|vs| - 1], vs[|vs| - 1];
      RunPicks(g, nq, exact, f, before);
      assert vs == before + [c];
      var (h, cs) := Run(f, before);
      if c.to in h[c.from] {
        PickingSkip(g, nq, exact, f, h, cs, before, c);
      } else {
        PickingPick(g, nq, exact, f, h, cs, before, c);
      }
    }
  }

  // ----- the candidates -----

  /** Exactly the pairs that the matrix leaves unconnected, each once. */
  ghost predicate AreCandidates(f: Rows, nq: nat, vs: seq<Edge>) {
    && |f| == nq && EdgesIn(vs, nq) && Distinct(vs)
    && forall x, y | 0 <= x < nq && 0 <= y < nq :: y !in f[x] <==> Edge(x, y) in vs
  }

  predicate Precedes(c: Edge, i: nat, j: nat) {
    c.from < i || (c.from == i && c.to < j)
  }

  /** The unconnected pairs before (i, j), row by row. */
  ghost predicate Listing(f: Rows, vs: seq<Edge>, i: nat, j: nat) {
    && Distinct(vs)
    && (forall c | c in vs :: c.from < |f| && c.to < |f| && c.to !in f[c.from] && Precedes(c, i, j))
    && (forall x, y | 0 <= x < |f| && 0 <= y < |f| && y !in f[x] && Precedes(Edge(x, y), i, j) :: Edge(x, y) in vs)
  }

  lemma ListingStep(f: Rows, vs: seq<Edge>, i: nat, j: nat)
    requires Listing(f, vs, i, j) && i < |f| && j < |f|
    ensures Listing(f, if j in f[i] then vs else vs + [Edge(i, j)], i, j + 1)
  {
    assert Edge(i, j) !in vs;
  }

  lemma ListingRow(f: Rows, vs: seq<Edge>, i: nat)
    requires Listing(f, vs, i, |f|)
    ensures Listing(f, vs, i + 1, 0)
  {
  }

  lemma ListingEnd(f: Rows, vs: seq<Edge>)
    requires Listing(f, vs, |f|, 0)
    ensures AreCandidates(f, |f|, vs)
  {
    forall k | 0 <= k < |vs| ensures vs[k].from < |f| && vs[k].to < |f| {
      assert vs[k] in vs;
    }
    forall x, y | 0 <= x < |f| && 0 <= y < |f| ensures y !in f[x] <==> Edge(x, y) in vs {
      assert Precedes(Edge(x, y), |f|, 0);
    }
  }

  method Candidates(f: array<set<nat>>) returns (vs: seq<Edge>)
    ensures AreCandidates(f[..], f.Length, vs)
  {
    vs := [];
    for i := 0 to f.Length
      invariant Listing(f[..], vs, i, 0)
    {
      for j := 0 to f.Length
        invariant Listing(f[..], vs, i, j)
      {
        ListingStep(f[..], vs, i, j);
        if j !in f[i] {
          vs := vs + [Edge(i, j)];
        }
      }
      ListingRow(f[..], vs, i);
    }
    ListingEnd(f[..], vs);
  }

  /** Closest pairs first; the order of equally distant pairs is left open. */
  ghost predicate ByDistance(dist: (nat, nat) -> real, gt: seq<nat>, vs: seq<Edge>)
    requires EdgesIn(vs, |gt|)
  {
    forall a, b | 0 <= a < b < |vs| :: dist(gt[vs[a].from], gt[vs[a].to]) <= dist(gt[vs[b].from], gt[vs[b].to])
  }

  method SortByDistance(dist: (nat, nat) -> real, gt: seq<nat>, vs: seq<Edge>) returns (r: seq<Edge>)
    requires EdgesIn(vs, |gt|)
    ensures EdgesIn(r, |gt|) && ByDistance(dist, gt, r) && multiset(r) == multiset(vs)
  {
    r := [];
    for k := 0 to |vs|
      invariant EdgesIn(r, |gt|) && ByDistance(dist, gt, r)
      invariant multiset(r) == multiset(vs[..k])
    {
      var at := PlaceFor(dist, gt, r, vs[k]);
      PutAt(dist, gt, r, at, vs[k]);
      SameElements(r, at, vs[k], vs, k);
      r := r[..at] + [vs[k]] + r[at..];
    }
    assert vs[..|vs|] == vs;
  }

  method PlaceFor(dist: (nat, nat) -> real, gt: seq<nat>, r: seq<Edge>, c: Edge) returns (at: nat)
    requires EdgesIn(r, |gt|) && c.from < |gt| && c.to < |gt|
    ensures at <= |r|
    ensures at > 0 ==> dist(gt[r[at - 1].from], gt[r[at - 1].to]) <= dist(gt[c.from], gt[c.to])
    ensures at < |r| ==> dist(gt[c.from], gt[c.to]) <= dist(gt[r[at].from], gt[r[at].to])
  {
    var d := dist(gt[c.from], gt[c.to]);
    at := |r|;
    while at > 0 && dist(gt[r[at - 1].from], gt[r[at - 1].to]) > d
      invariant 0 <= at <= |r|
      invariant at < |r| ==> dist(gt[r[at].from], gt[r[at].to]) > d
    {
      at := at - 1;
    }
  }

  lemma SameElements(r: seq<Edge>, at: nat, c: Edge, vs: seq<Edge>, k: nat)
    requires at <= |r| && k < |vs| && c == vs[k] && multiset(r) == multiset(vs[..k])
    ensures multiset(r[..at] + [c] + r[at..]) == multiset(vs[..k + 1])
  {
    assert r == r[..at] + r[at..];
    assert vs[..k + 1] == vs[..k] + [vs[k]];
  }

  lemma PutAt(dist: (nat, nat) -> real, gt: seq<nat>, r: seq<Edge>, at: nat, c: Edge)
    requires EdgesIn(r, |gt|) && ByDistance(dist, gt, r) && at <= |r| && c.from < |gt| && c.to < |gt|
    requires at > 0 ==> dist(gt[r[at - 1].from], gt[r[at - 1].to]) <= dist(gt[c.from], gt[c.to])
    requires at < |r| ==> dist(gt[c.from], gt[c.to]) <= dist(gt[r[at].from], gt[r[at].to])
    ensures EdgesIn(r[..at] + [c] + r[at..], |gt|) && ByDistance(dist, gt, r[..at] + [c] + r[at..])
  {
    var t := r[..at] + [c] + r[at..];
    forall a, b | 0 <= a < b < |t| ensures dist(gt[t[a].from], gt[t[a].to]) <= dist(gt[t[b].from], gt[t[b].to]) {
      if a < at - 1 && b == at {
        assert dist(gt[r[a].from], gt[r[a].to]) <= dist(gt[r[at - 1].from], gt[r[at - 1].to]);
      } else if a == at && b > at + 1 {
        assert dist(gt[r[at].from], gt[r[at].to]) <= dist(gt[r[b - 1].from], gt[r[b - 1].to]);
      }
    }
  }

  // ----- the pass -----

  /** What the picked edges achieve: with them every two of the first nq ranks reach each other. No
      picked edge was implied by the subgraph and those picked before it if every connected pair is
      connected within ranks 0..kh, in particular if those are all; and none by the edges among those
      ranks if the first nq are. */
  ghost predicate FixesDefects(e: Rows, nq: nat, kh: nat, chosen: seq<Edge>) {
    && IsRows(e) && nq <= |e| && EdgesIn(chosen, nq)
    && (forall x, y | 0 <= x < nq && 0 <= y < nq :: Reaches(WithAll(e, chosen), x, y))
    && (Settled(e, nq, kh) || |e| <= kh + 1 ==> NoneImplied(e, chosen))
    && (nq <= kh + 1 ==> NoneImplied(Restrict(e, kh), chosen))
  }

  lemma StartSoundAll(e: Rows, nq: nat, kh: nat)
    requires IsRows(e) && |e| <= MAX_S && nq <= |e| && kh < EH_INF
    ensures Sound(StartRows(e, nq, kh), nq, e)
  {
    forall x, y | 0 <= x < nq && 0 <= y < nq && y in StartRows(e, nq, kh)[x] ensures Reaches(e, x, y) {
      HardIffReached(e, x, y);
    }
  }

  lemma PickedEnough(e: Rows, nq: nat, kh: nat, vs: seq<Edge>)
    requires IsRows(e) && |e| <= MAX_S && nq <= |e| && kh < EH_INF && AreCandidates(StartRows(e, nq, kh), nq, vs)
    ensures FixesDefects(e, nq, kh, Run(StartRows(e, nq, kh), vs).1)
  {
    var f0 := StartRows(e, nq, kh);
    var (f, chosen) := Run(f0, vs);
    StartSoundAll(e, nq, kh);
    StartExactIff(e, nq, kh);
    RunPicks(e, nq, Settled(e, nq, kh), f0, vs);
    if |e| <= kh + 1 {
      AllRanksSettled(e, nq, kh);
    }
    StartSound(e, nq, kh);
    StartExactBelow(e, nq, kh);
    RunPicks(Restrict(e, kh), nq, nq <= kh + 1, f0, vs);
    forall x, y | 0 <= x < nq && 0 <= y < nq ensures Reaches(WithAll(e, chosen), x, y) {
      if y !in f0[x] {
        var k :| 0 <= k < |vs| && vs[k] == Edge(x, y);
      }
      assert y in f[x];
    }
  }

  // ----- when picked edges are superfluous -----

  /** A first candidate that the subgraph already connects is picked all the same. */
  lemma {:induction false} FirstPicked(f: Rows, vs: seq<Edge>)
    requires EdgesIn(vs, |f|) && vs != [] && vs[0].to !in f[vs[0].from]
    ensures Run(f, vs).1 != [] && Run(f, vs).1[0] == vs[0]
    decreases |vs|
  {
    if |vs| > 1 {
      FirstPicked(f, vs[..|vs| - 1]);
    } else {
      assert Run(f, vs[..0]) == (f, []);
    }
  }

  lemma FirstImplied(e: Rows, nq: nat, f: Rows, vs: seq<Edge>)
    requires IsRows(e) && nq <= |e| && |f| == nq && EdgesIn(vs, nq) && vs != []
    requires Reaches(e, vs[0].from, vs[0].to) && vs[0].to !in f[vs[0].from]
    ensures EdgesIn(Run(f, vs).1, |e|) ==> !NoneImplied(e, Run(f, vs).1)
  {
    FirstPicked(f, vs);
    var cs := Run(f, vs).1;
    if EdgesIn(cs, |e|) {
      assert cs[..0] == [];
      assert WithAll(e, cs[..0]) == e;
    }
  }

  /** The candidates in an order that sorting them by distance can leave. */
  ghost predicate SortedCandidates(dist: (nat, nat) -> real, gt: seq<nat>, f: Rows, nq: nat, vs: seq<Edge>) {
    AreCandidates(f, nq, vs) && nq <= |gt| && EdgesIn(vs, |gt|) && ByDistance(dist, gt, vs)
  }

  ghost predicate IsMetric(dist: (nat, nat) -> real) {
    && (forall a, b :: dist(a, b) == dist(b, a) >= 0.0 && (dist(a, b) == 0.0 <==> a == b))
    && (forall a, b, c :: dist(a, c) <= dist(a, b) + dist(b, c))
  }

  /** u and v are one apart, all other nodes two. */
  ghost function Near(u: nat, v: nat): (nat, nat) -> real {
    (a: nat, b: nat) => if a == b then 0.0 else if (a == u && b == v) || (a == v && b == u) then 1.0 else 2.0
  }

  lemma NearIsMetric(u: nat, v: nat)
    ensures IsMetric(Near(u, v))
  {
  }

  /** With the candidates in this order, no picked edge was implied. */
  ghost predicate PicksNeeded(e: Rows, nq: nat, kh: nat, vs: seq<Edge>)
    requires IsRows(e) && nq <= |e|
  {
    var f := StartRows(e, nq, kh);
    EdgesIn(vs, |f|) && EdgesIn(Run(f, vs).1, |e|) && NoneImplied(e, Run(f, vs).1)
  }

  /** The edge back, picked first, does not keep the edge from being picked. */
  lemma {:induction false} SecondPicked(f: Rows, vs: seq<Edge>)
    requires EdgesIn(vs, |f|) && |vs| >= 2 && vs[0] == Edge(vs[1].to, vs[1].from) && vs[1].from != vs[1].to
    requires vs[0].to !in f[vs[0].from] && vs[1].to !in f[vs[1].from]
    ensures |Run(f, vs).1| >= 2 && Run(f, vs).1[..2] == vs[..2]
    decreases |vs|
  {
    if |vs| > 2 {
      SecondPicked(f, vs[..|vs| - 1]);
      assert vs[..|vs| - 1][..2] == vs[..2];
    } else {
      var first := vs[..1];
      assert first[..0] == [] && first[0] == vs[0];
      assert Run(f, first[..0]) == (f, []);
      assert Run(f, first) == (AfterPick(f, vs[0]), [] + [vs[0]]);
    }
  }

  lemma SecondImplied(e: Rows, nq: nat, f: Rows, vs: seq<Edge>)
    requires IsRows(e) && nq <= |e| && |f| == nq && EdgesIn(vs, nq) && |vs| >= 2
    requires vs[0] == Edge(vs[1].to, vs[1].from) && vs[1].from != vs[1].to && Reaches(e, vs[1].from, vs[1].to)
    requires vs[0].to !in f[vs[0].from] && vs[1].to !in f[vs[1].from]
    ensures EdgesIn(Run(f, vs).1, |e|) ==> !NoneImplied(e, Run(f, vs).1)
  {
    SecondPicked(f, vs);
    var cs := Run(f, vs).1;
    assert cs[0] == cs[..2][0] && cs[1] == cs[..2][1];
    if EdgesIn(cs, |e|) {
      assert cs[..1] == [cs[0]];
      assert cs[..1][..0] == [];
      assert WithAll(e, cs[..1]) == With(e, cs[0]);
      WithKeeps(e, cs[0], cs[1].from, cs[1].to);
    }
  }

  /** A pair that is a candidate although the subgraph connects it: one node with itself if there is
      such a pair, or else two nodes. */
  lemma UnsettledPair(e: Rows, nq: nat, kh: nat) returns (x: nat, y: nat)
    requires IsRows(e) && |e| <= MAX_S && nq <= |e| && kh < EH_INF && !Settled(e, nq, kh)
    ensures x < nq && y < nq && Reaches(e, x, y) && y !in StartRows(e, nq, kh)[x]
    ensures x != y ==> forall z | 0 <= z < nq :: z in StartRows(e, nq, kh)[z]
  {
    if z :| 0 <= z < nq && z !in StartRows(e, nq, kh)[z] {
      x, y := z, z;
      ReachesSelf(e, z);
    } else {
      x, y :| 0 <= x < nq && 0 <= y < nq && kh < HardAt(e, |e|, x, y) && HardAt(e, |e|, x, y) != EH_INF;
      HardIffReached(e, x, y);
    }
  }

  /** The candidate in front is at least as close as any other. */
  lemma FrontIsClosest(dist: (nat, nat) -> real, gt: seq<nat>, f: Rows, nq: nat, vs: seq<Edge>, c: Edge)
    requires SortedCandidates(dist, gt, f, nq, vs) && c in vs
    ensures |vs| > 0 && dist(gt[vs[0].from], gt[vs[0].to]) <= dist(gt[c.from], gt[c.to])
  {
    var k :| 0 <= k < |vs| && vs[k] == c;
  }

  /** With the two nodes of such a pair closest to each other, every order of the candidates makes the
      pass pick an edge that the subgraph implies. */
  lemma NearFails(e: Rows, nq: nat, kh: nat, gt: seq<nat>, x: nat, y: nat, vs: seq<Edge>)
    requires IsRows(e) && nq <= |e| && nq <= |gt| && Distinct(gt[..nq]) && x < nq && y < nq && Reaches(e, x, y)
    requires y !in StartRows(e, nq, kh)[x] && (x != y ==> forall z | 0 <= z < nq :: z in StartRows(e, nq, kh)[z])
    requires SortedCandidates(Near(gt[x], gt[y]), gt, StartRows(e, nq, kh), nq, vs)
    ensures !PicksNeeded(e, nq, kh, vs)
  {
    var dist, f := Near(gt[x], gt[y]), StartRows(e, nq, kh);
    FrontIsClosest(dist, gt, f, nq, vs, Edge(x, y));
    var c := vs[0];
    CandidateOpen(f, nq, vs, 0);
    if c.from == c.to {
      ReachesSelf(e, c.from);
      FirstImplied(e, nq, f, vs);
    } else if c == Edge(x, y) {
      FirstImplied(e, nq, f, vs);
    } else {
      NearPairs(gt, nq, x, y, c);
      SecondIs(gt, f, nq, vs, x, y);
      CandidateOpen(f, nq, vs, 1);
      SecondImplied(e, nq, f, vs);
    }
  }

  lemma CandidateOpen(f: Rows, nq: nat, vs: seq<Edge>, k: nat)
    requires AreCandidates(f, nq, vs) && k < |vs|
    ensures vs[k].from < nq && vs[k].to < nq && vs[k].to !in f[vs[k].from]
  {
    assert vs[k] in vs && vs[k] == Edge(vs[k].from, vs[k].to);
  }

  /** Two ranks that are one apart or less are x and y, or the same. */
  lemma NearPairs(gt: seq<nat>, nq: nat, x: nat, y: nat, c: Edge)
    requires nq <= |gt| && Distinct(gt[..nq]) && x < nq && y < nq && c.from < nq && c.to < nq && c.from != c.to
    requires Near(gt[x], gt[y])(gt[c.from], gt[c.to]) <= Near(gt[x], gt[y])(gt[x], gt[y])
    ensures x != y && (c == Edge(x, y) || c == Edge(y, x))
  {
    assert gt[c.from] != gt[c.to];
    assert c.from != x ==> gt[c.from] != gt[x];
    assert c.from != y ==> gt[c.from] != gt[y];
    assert c.to != x ==> gt[c.to] != gt[x];
    assert c.to != y ==> gt[c.to] != gt[y];
  }

  /** If the pair the other way round is in front, the pair comes next. */
  lemma SecondIs(gt: seq<nat>, f: Rows, nq: nat, vs: seq<Edge>, x: nat, y: nat)
    requires nq <= |gt| && Distinct(gt[..nq]) && x < nq && y < nq && x != y && |f| == nq && y !in f[x]
    requires forall z | 0 <= z < nq :: z in f[z]
    requires SortedCandidates(Near(gt[x], gt[y]), gt, f, nq, vs) && |vs| > 0 && vs[0] == Edge(y, x)
    ensures |vs| >= 2 && vs[1] == Edge(x, y)
  {
    assert Edge(x, y) in vs;
    var k :| 0 <= k < |vs| && vs[k] == Edge(x, y);
    assert k > 0;
    CandidateOpen(f, nq, vs, 1);
    NearPairs(gt, nq, x, y, vs[1]);
    assert vs[0] != vs[1];
  }

  /** There is an order that sorting can leave. */
  lemma {:induction false} SortedExists(dist: (nat, nat) -> real, gt: seq<nat>, vs: seq<Edge>) returns (r: seq<Edge>)
    requires EdgesIn(vs, |gt|)
    ensures EdgesIn(r, |gt|) && ByDistance(dist, gt, r) && multiset(r) == multiset(vs)
    decreases |vs|
  {
    r := [];
    if vs != [] {
      var k := |vs| - 1;
      var s := SortedExists(dist, gt, vs[..k]);
      var at := PlaceExists(dist, gt, s, vs[k]);
      PutAt(dist, gt, s, at, vs[k]);
      SameElements(s, at, vs[k], vs, k);
      assert vs[..k + 1] == vs;
      r := s[..at] + [vs[k]] + s[at..];
    }
  }

  lemma PlaceExists(dist: (nat, nat) -> real, gt: seq<nat>, r: seq<Edge>, c: Edge) returns (at: nat)
    requires EdgesIn(r, |gt|) && c.from < |gt| && c.to < |gt|
    ensures at <= |r|
    ensures at > 0 ==> dist(gt[r[at - 1].from], gt[r[at - 1].to]) <= dist(gt[c.from], gt[c.to])
    ensures at < |r| ==> dist(gt[c.from], gt[c.to]) <= dist(gt[r[at].from], gt[r[at].to])
  {
    at := |r|;
    while at > 0 && dist(gt[r[at - 1].from], gt[r[at - 1].to]) > dist(gt[c.from], gt[c.to])
      invariant 0 <= at <= |r|
      invariant at < |r| ==> dist(gt[r[at].from], gt[r[at].to]) > dist(gt[c.from], gt[c.to])
    {
      at := at - 1;
    }
  }

  /** The unconnected pairs with a start below m, or in row m with an end below k. */
  ghost function OpenPairs(f: Rows, m: nat, k: nat): (r: seq<Edge>)
    requires k <= |f| && m <= |f| && (m == |f| ==> k == 0)
    ensures Listing(f, r, m, k)
    decreases m, k
  {
    if k > 0 then
      var r := OpenPairs(f, m, k - 1);
      ListingStep(f, r, m, k - 1);
      if k - 1 in f[m] then r else r + [Edge(m, k - 1)]
    else if m > 0 then
      var r := OpenPairs(f, m - 1, |f|);
      ListingRow(f, r, m - 1);
      r
    else []
  }

  lemma CandidatesExist(dist: (nat, nat) -> real, gt: seq<nat>, f: Rows, nq: nat) returns (vs: seq<Edge>)
    requires |f| == nq <= |gt|
    ensures SortedCandidates(dist, gt, f, nq, vs)
  {
    var all := OpenPairs(f, nq, 0);
    ListingEnd(f, all);
    vs := SortedExists(dist, gt, all);
    SameCandidates(f, nq, all, vs);
  }

  /** No picked edge is superfluous, whatever the distances and however ties are broken, if and only if
      no connected pair needs a rank beyond kh; otherwise some distances make every order fail. */
  lemma NoneSuperfluousIff(e: Rows, nq: nat, kh: nat, gt: seq<nat>)
    requires IsRows(e) && |e| <= MAX_S && nq <= |e| && kh < EH_INF && nq <= |gt| && Distinct(gt[..nq])
    ensures Settled(e, nq, kh) <==>
      forall dist, vs | IsMetric(dist) && SortedCandidates(dist, gt, StartRows(e, nq, kh), nq, vs) :: PicksNeeded(e, nq, kh, vs)
    ensures !Settled(e, nq, kh) ==> exists dist :: IsMetric(dist) && FailsAlways(dist, gt, e, nq, kh)
  {
    var f := StartRows(e, nq, kh);
    if Settled(e, nq, kh) {
      forall dist, vs | IsMetric(dist) && SortedCandidates(dist, gt, f, nq, vs) ensures PicksNeeded(e, nq, kh, vs) {
        PickedEnough(e, nq, kh, vs);
      }
    } else {
      var x, y := UnsettledPair(e, nq, kh);
      var dist := Near(gt[x], gt[y]);
      NearIsMetric(gt[x], gt[y]);
      forall vs | SortedCandidates(dist, gt, f, nq, vs) ensures !PicksNeeded(e, nq, kh, vs) {
        NearFails(e, nq, kh, gt, x, y, vs);
      }
      assert FailsAlways(dist, gt, e, nq, kh);
      var vs := CandidatesExist(dist, gt, f, nq);
    }
  }

  /** In every order that sorting can leave, some picked edge was implied. */
  ghost predicate FailsAlways(dist: (nat, nat) -> real, gt: seq<nat>, e: Rows, nq: nat, kh: nat)
    requires IsRows(e) && nq <= |e|
  {
    forall vs | SortedCandidates(dist, gt, StartRows(e, nq, kh), nq, vs) :: !PicksNeeded(e, nq, kh, vs)
  }

  /** With kh equal to nq, as the callers pass it: rank 0 reaches rank 1 over rank 3, which is beyond
      kh, and the edge from 0 to 1 is picked all the same, whatever the distances. */
  lemma SuperfluousExample(vs: seq<Edge>)
    requires AreCandidates(StartRows([{0, 3}, {1}, {2}, {3, 1}], 2, 2), 2, vs)
    ensures var e: Rows := [{0, 3}, {1}, {2}, {3, 1}];
      IsRows(e) && Reaches(e, 0, 1) && Edge(0, 1) in Run(StartRows(e, 2, 2), vs).1
  {
    var e: Rows := [{0, 3}, {1}, {2}, {3, 1}];
    var f := StartRows(e, 2, 2);
    assert IsPath(e, [0, 3, 1], 0, 1);
    HardIffReached(e, 0, 1);
    HardnessIsLeast(e, 0, 1);
    HardnessIsLeast(e, 0, 0);
    assert IsPath(e, [0, 0], 0, 0);
    assert ReachesWithin(e, 0, 0, 0);
    LowStays(e, 1);
    assert 1 !in f[0] && Edge(0, 1) in vs;
    RunPicksOpen(f, vs);
  }

  lemma LowStays(e: Rows, j: nat)
    requires e == [{0, 3}, {1}, {2}, {3, 1}]
    ensures ReachesWithin(e, 0, j, 2) ==> j == 0
  {
    if ReachesWithin(e, 0, j, 2) {
      var p :| IsPath(e, p, 0, j) && forall m | 0 <= m < |p| :: p[m] <= 2;
      StaysAtZero(e, p, j, |p| - 1);
    }
  }

  /** Of two ranks, an edge from 0 to 1 that is a candidate is picked. */
  lemma {:induction false} RunPicksOpen(f: Rows, vs: seq<Edge>)
    requires |f| == 2 && EdgesIn(vs, 2) && 1 !in f[0]
    ensures Edge(0, 1) in vs <==> Edge(0, 1) in Run(f, vs).1
    ensures Edge(0, 1) !in vs ==> 1 !in Run(f, vs).0[0]
    decreases |vs|
  {
    if vs != [] {
      var before, c := vs[..|vs| - 1], vs[|vs| - 1];
      assert vs == before + [c];
      RunPicksOpen(f, before);
    }
  }

  lemma {:induction false} StaysAtZero(e: Rows, p: seq<nat>, j: nat, m: nat)
    requires e == [{0, 3}, {1}, {2}, {3, 1}] && IsPath(e, p, 0, j) && (forall k | 0 <= k < |p| :: p[k] <= 2) && m < |p|
    ensures p[m] == 0
  {
    if m > 0 {
      StaysAtZero(e, p, j, m - 1);
      assert p[(m - 1) + 1] in e[p[m - 1]];
    }
  }

  lemma SameCandidates(f: Rows, nq: nat, vs: seq<Edge>, ws: seq<Edge>)
    requires AreCandidates(f, nq, vs) && multiset(vs) == multiset(ws)
    ensures AreCandidates(f, nq, ws)
  {
    SameDistinct(vs, ws);
    forall c ensures c in vs <==> c in ws {
      assert c in vs <==> c in multiset(vs);
      assert c in ws <==> c in multiset(ws);
    }
    forall k | 0 <= k < |ws| ensures ws[k].from < nq && ws[k].to < nq {
      assert ws[k] in vs;
    }
  }

  // ----- the same over ids -----

  /** The neighbour lists and these edges between the listed ids. */
  ghost function WithPicks(nbrs: nat -> seq<nat>, gt: seq<nat>, cs: seq<Edge>): (nat, nat) -> bool {
    (a: nat, b: nat) => b in nbrs(a) || IsPick(gt, cs, a, b)
  }

  ghost predicate IsPick(gt: seq<nat>, cs: seq<Edge>, a: nat, b: nat) {
    exists k :: 0 <= k < |cs| && cs[k].from < |gt| && cs[k].to < |gt| && a == gt[cs[k].from] && b == gt[cs[k].to]
  }

  lemma {:induction false} WithAllHas(g: Rows, cs: seq<Edge>, i: nat, j: nat)
    requires IsRows(g) && EdgesIn(cs, |g|) && i < |g|
    ensures j in WithAll(g, cs)[i] <==> j in g[i] || Edge(i, j) in cs
    decreases |cs|
  {
    if cs != [] {
      var k := |cs| - 1;
      WithAllHas(g, cs[..k], i, j);
      assert cs == cs[..k] + [cs[k]];
    }
  }

  lemma PicksMirror(nbrs: nat -> seq<nat>, gt: seq<nat>, n: nat, cs: seq<Edge>)
    requires n <= |gt| && Distinct(gt[..n]) && EdgesIn(cs, n)
    ensures Mirrors(WithAll(Induced(nbrs, gt, n), cs), gt, WithPicks(nbrs, gt, cs))
  {
    var e, g := Induced(nbrs, gt, n), WithAll(Induced(nbrs, gt, n), cs);
    InducedMirrors(nbrs, gt, n);
    forall i, j | 0 <= i < n && 0 <= j < n ensures j in g[i] <==> i == j || WithPicks(nbrs, gt, cs)(gt[i], gt[j]) {
      WithAllHas(e, cs, i, j);
      PickIsEdge(gt, n, cs, i, j);
    }
  }

  lemma PickIsEdge(gt: seq<nat>, n: nat, cs: seq<Edge>, i: nat, j: nat)
    requires n <= |gt| && Distinct(gt[..n]) && EdgesIn(cs, n) && i < n && j < n
    ensures Edge(i, j) in cs <==> IsPick(gt, cs, gt[i], gt[j])
  {
    if Edge(i, j) in cs {
      var k :| 0 <= k < |cs| && cs[k] == Edge(i, j);
      assert cs[k].from == i && cs[k].to == j;
    }
    if IsPick(gt, cs, gt[i], gt[j]) {
      var k :| 0 <= k < |cs| && cs[k].from < |gt| && cs[k].to < |gt| && gt[i] == gt[cs[k].from] && gt[j] == gt[cs[k].to];
      var s := gt[..n];
      assert s[i] == s[cs[k].from] && s[j] == s[cs[k].to];
      assert cs[k] == Edge(i, j);
    }
  }

  lemma ReachesIsWalk(g: Rows, gt: seq<nat>, edge: (nat, nat) -> bool, i: nat, j: nat)
    requires IsRows(g) && Mirrors(g, gt, edge) && Distinct(gt[..|g|]) && i < |g| && j < |g|
    ensures Reaches(g, i, j) <==> Walks(edge, gt[..|g|], gt[i], gt[j])
  {
    WithinIsWalk(g, gt, edge, |g| - 1, i, j);
    if p :| IsPath(g, p, i, j) {
      assert forall m | 0 <= m < |p| :: p[m] <= |g| - 1;
    }
  }

  /** Along neighbour lists and picks a walk leads from each of the first nq ids to each other, among
      the first n. */
  ghost predicate Connects(nbrs: nat -> seq<nat>, gt: seq<nat>, n: nat, nq: nat, cs: seq<Edge>)
    requires nq <= n <= |gt|
  {
    forall x, y | 0 <= x < nq && 0 <= y < nq :: Walks(WithPicks(nbrs, gt, cs), gt[..n], gt[x], gt[y])
  }

  /** No pick joins two ids that a walk already joined when it was made. */
  ghost predicate NoneWalked(nbrs: nat -> seq<nat>, gt: seq<nat>, n: nat, cs: seq<Edge>)
    requires n <= |gt| && EdgesIn(cs, n)
  {
    forall t | 0 <= t < |cs| :: !Walks(WithPicks(nbrs, gt, cs[..t]), gt[..n], gt[cs[t].from], gt[cs[t].to])
  }

  lemma FixedOverIds(nbrs: nat -> seq<nat>, gt: seq<nat>, n: nat, nq: nat, kh: nat, cs: seq<Edge>)
    requires nq <= n <= |gt| && Distinct(gt[..n]) && FixesDefects(Induced(nbrs, gt, n), nq, kh, cs)
    ensures Connects(nbrs, gt, n, nq, cs) && EdgesIn(cs, n)
    ensures NoneImplied(Induced(nbrs, gt, n), cs) ==> NoneWalked(nbrs, gt, n, cs)
  {
    var e := Induced(nbrs, gt, n);
    forall x, y | 0 <= x < nq && 0 <= y < nq ensures Walks(WithPicks(nbrs, gt, cs), gt[..n], gt[x], gt[y]) {
      PicksMirror(nbrs, gt, n, cs);
      ReachesIsWalk(WithAll(e, cs), gt, WithPicks(nbrs, gt, cs), x, y);
    }
    if NoneImplied(e, cs) {
      forall t | 0 <= t < |cs| ensures !Walks(WithPicks(nbrs, gt, cs[..t]), gt[..n], gt[cs[t].from], gt[cs[t].to]) {
        PicksMirror(nbrs, gt, n, cs[..t]);
        ReachesIsWalk(WithAll(e, cs[..t]), gt, WithPicks(nbrs, gt, cs[..t]), cs[t].from, cs[t].to);
      }
    }
  }

  /** Every walk between the first nq ids has one among the first kh + 1, if those are not all. */
  ghost predicate SettledWalks(nbrs: nat -> seq<nat>, gt: seq<nat>, n: nat, nq: nat, kh: nat)
    requires nq <= n <= |gt|
  {
    forall i, j | 0 <= i < nq && 0 <= j < nq :: WalksUpTo(nbrs, gt, n - 1, i, j) ==> kh >= n || WalksUpTo(nbrs, gt, kh, i, j)
  }

  lemma SettledOverIds(nbrs: nat -> seq<nat>, gt: seq<nat>, n: nat, nq: nat, kh: nat)
    requires nq <= n <= |gt| && n <= MAX_S && Distinct(gt[..n]) && kh < EH_INF
    ensures Settled(Induced(nbrs, gt, n), nq, kh) <==> SettledWalks(nbrs, gt, n, nq, kh)
  {
    var e := Induced(nbrs, gt, n);
    forall i, j | 0 <= i < nq && 0 <= j < nq
      ensures (HardAt(e, n, i, j) <= kh || HardAt(e, n, i, j) == EH_INF) <==>
        (WalksUpTo(nbrs, gt, n - 1, i, j) ==> kh >= n || WalksUpTo(nbrs, gt, kh, i, j))
    {
      InducedHardness(nbrs, gt, n, i, j);
    }
  }

  /** The pass, up to handing the picked edges to the graph. More than 200 nodes are ignored. */
  method Pass(nbrs: nat -> seq<nat>, gt: seq<nat>, nq: nat, kh: nat, dist: (nat, nat) -> real) returns (chosen: seq<Edge>)
    requires kh < EH_INF
    requires nq <= MAX_S ==> var n := if MAX_S < 2 * nq then MAX_S else 2 * nq; n <= |gt| && Distinct(gt[..n])
    ensures nq > MAX_S ==> chosen == []
    ensures nq <= MAX_S ==> var n := if MAX_S < 2 * nq then MAX_S else 2 * nq;
                            var e := Induced(nbrs, gt, n);
                            && FixesDefects(e, nq, kh, chosen)
                            && Connects(nbrs, gt, n, nq, chosen)
                            && (SettledWalks(nbrs, gt, n, nq, kh) ==> NoneWalked(nbrs, gt, n, chosen))
                            && exists vs :: SortedCandidates(dist, gt, StartRows(e, nq, kh), nq, vs) && Run(StartRows(e, nq, kh), vs).1 == chosen
  {
    if nq > MAX_S {
      return [];
    }
    var n := if MAX_S < 2 * nq then MAX_S else 2 * nq;
    var H := CalcHardness(nbrs, gt, nq, n);
    ghost var e := Induced(nbrs, gt, n);
    var f := FirstMatrix(H, nq, kh, e);
    var vs := Candidates(f);
    var sorted := SortByDistance(dist, gt, vs);
    SameCandidates(f[..], nq, vs, sorted);
    chosen := Greedy(f, sorted);
    PickedEnough(e, nq, kh, sorted);
    FixedOverIds(nbrs, gt, n, nq, kh, chosen);
    SettledOverIds(nbrs, gt, n, nq, kh);
  }

  method FirstMatrix(H: array2<nat>, nq: nat, kh: nat, ghost e: Rows) returns (f: array<set<nat>>)
    requires H.Length0 == H.Length1 == nq <= |e|
    requires forall i, j | 0 <= i < nq && 0 <= j < nq :: H[i, j] == HardAt(e, |e|, i, j)
    ensures fresh(f) && f.Length == nq && f[..] == StartRows(e, nq, kh)
  {
    f := new set<nat>[nq](_ => {});
    for i := 0 to nq
      invariant forall x | 0 <= x < i :: f[x] == Connected(e, nq, kh, x)
    {
      f[i] := RowBelow(H, nq, kh, i);
    }
  }

  /** Row i of the matrix the pass starts from: the pairs of hardness at most kh. */
  function RowBelow(H: array2<nat>, nq: nat, kh: nat, i: nat): set<nat>
    requires H.Length0 == H.Length1 == nq && i < nq
    reads H
  {
    set j | 0 <= j < nq && H[i, j] <= kh
  }
}
