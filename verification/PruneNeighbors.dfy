/** Neighbour pruning (include/utils/prune_neighbors.h): sort, truncate, select in rounds of
    growing alpha, then fill up. */
module PruneNeighbors {
  import opened Bounds
  import opened Lists
  import opened PoolSpec

  datatype Params = Params(R: nat, C: nat, alpha: real, saturateGraph: bool)

  const FLOAT_MAX: real := 340282346638528859811704183484516925440.0

  ghost predicate AllFrom(ids: seq<nat>, from: set<nat>) {
    forall i | 0 <= i < |ids| :: ids[i] in from
  }

  /** What entries are compared by, and what tells them apart in an ordered set. */
  function Key(x: Neighbor): (real, nat) {
    (x.distance, x.id)
  }

  // ----- sorting -----

  /** Ascending; entries with the same key stand side by side. */
  ghost predicate Ordered(s: seq<Neighbor>) {
    forall i, j | 0 <= i < j < |s| :: !Less(s[j], s[i])
  }

  lemma PlaceOrdered(s: seq<Neighbor>, x: Neighbor)
    requires Ordered(s)
    ensures Ordered(Place(s, Rank(s, x), x))
  {
    var p := Rank(s, x);
    forall i | p <= i < |s| ensures !Less(s[i], x) {
      assert p < i ==> !Less(s[i], s[p]);
    }
  }

  lemma PlaceSame(s: seq<Neighbor>, at: nat, pool: seq<Neighbor>, k: nat)
    requires at <= |s| && k < |pool| && multiset(s) == multiset(pool[..k])
    ensures multiset(Place(s, at, pool[k])) == multiset(pool[..k + 1])
  {
    assert s == s[..at] + s[at..];
    assert pool[..k + 1] == pool[..k] + [pool[k]];
  }

  /** The pool in ascending order, repeated entries included. */
  method SortPool(pool: seq<Neighbor>) returns (r: seq<Neighbor>)
    ensures Ordered(r) && multiset(r) == multiset(pool)
  {
    r := [];
    for k := 0 to |pool|
      invariant Ordered(r) && multiset(r) == multiset(pool[..k])
    {
      var at := Rank(r, pool[k]);
      PlaceOrdered(r, pool[k]);
      PlaceSame(r, at, pool, k);
      r := Place(r, at, pool[k]);
    }
    assert pool[..|pool|] == pool;
  }

  // ----- what the rounds select -----

  /** The keys of the selected positions: what the result holds. */
  ghost function Taken(kept: seq<Neighbor>, selected: set<nat>): set<(real, nat)> {
    set p | p in selected && p < |kept| :: Key(kept[p])
  }

  lemma TakenMore(kept: seq<Neighbor>, selected: set<nat>, t: nat)
    requires t < |kept|
    ensures Taken(kept, selected + {t}) == Taken(kept, selected) + {Key(kept[t])}
  {
  }

  /** Position t may join at level c: nothing closer that was selected occludes it beyond c. */
  ghost predicate Open(kept: seq<Neighbor>, t: nat, selected: set<nat>, c: real, occlude: (Neighbor, Neighbor) -> real)
    requires t < |kept|
  {
    t !in selected && forall p | p in selected && p < t :: occlude(kept[p], kept[t]) <= c
  }

  ghost function Joining(kept: seq<Neighbor>, t: nat, c: real, occlude: (Neighbor, Neighbor) -> real, selected: set<nat>): set<nat>
    requires t < |kept|
  {
    if Open(kept, t, selected, c, occlude) then selected + {t} else selected
  }

  /** One round at level c from position t on: whatever is open joins, while there is room. */
  ghost function Joined(kept: seq<Neighbor>, t: nat, range: nat, c: real, occlude: (Neighbor, Neighbor) -> real, selected: set<nat>): set<nat>
    decreases |kept| - t
  {
    if t >= |kept| || |Taken(kept, selected)| >= range then selected
    else Joined(kept, t + 1, range, c, occlude, Joining(kept, t, c, occlude, selected))
  }

  /** A bound on the levels from c to alpha. */
  ghost function Levels(alpha: real, c: real): nat {
    if c > alpha then 0 else ((alpha - c) * 5.0).Floor + 1
  }

  /** Each round raises alpha by at least a fifth, so there are finitely many. */
  lemma StepDown(alpha: real, curAlpha: real)
    requires 1.0 <= curAlpha <= alpha
    ensures Levels(alpha, curAlpha * 1.2) < Levels(alpha, curAlpha)
  {
    assert (alpha - curAlpha * 1.2) * 5.0 <= (alpha - curAlpha) * 5.0 - 1.0;
  }

  /** All rounds from level c on, each a fifth above the one before, up to alpha. */
  ghost function Selection(kept: seq<Neighbor>, range: nat, c: real, alpha: real, occlude: (Neighbor, Neighbor) -> real,
                           selected: set<nat>): set<nat>
    requires c >= 1.0
    decreases Levels(alpha, c)
  {
    if c > alpha || |Taken(kept, selected)| >= range then selected
    else
      StepDown(alpha, c);
      Selection(kept, range, c * 1.2, alpha, occlude, Joined(kept, 0, range, c, occlude, selected))
  }

  ghost predicate InBounds(kept: seq<Neighbor>, selected: set<nat>, range: nat) {
    (forall t | t in selected :: t < |kept|) && |Taken(kept, selected)| <= range
  }

  lemma {:induction false} JoinedGrows(kept: seq<Neighbor>, t: nat, range: nat, c: real, occlude: (Neighbor, Neighbor) -> real, selected: set<nat>)
    requires InBounds(kept, selected, range)
    ensures var r := Joined(kept, t, range, c, occlude, selected); selected <= r && InBounds(kept, r, range)
    decreases |kept| - t
  {
    if t < |kept| && |Taken(kept, selected)| < range {
      TakenMore(kept, selected, t);
      JoinedGrows(kept, t + 1, range, c, occlude, Joining(kept, t, c, occlude, selected));
    }
  }

  lemma {:induction false} SelectionGrows(kept: seq<Neighbor>, range: nat, c: real, alpha: real, occlude: (Neighbor, Neighbor) -> real, selected: set<nat>)
    requires c >= 1.0 && InBounds(kept, selected, range)
    ensures var r := Selection(kept, range, c, alpha, occlude, selected); selected <= r && InBounds(kept, r, range)
    decreases Levels(alpha, c)
  {
    if c <= alpha && |Taken(kept, selected)| < range {
      StepDown(alpha, c);
      JoinedGrows(kept, 0, range, c, occlude, selected);
      SelectionGrows(kept, range, c * 1.2, alpha, occlude, Joined(kept, 0, range, c, occlude, selected));
    }
  }

  /** The closest entry is always selected. */
  lemma ClosestSelected(kept: seq<Neighbor>, range: nat, alpha: real, occlude: (Neighbor, Neighbor) -> real)
    requires kept != [] && range > 0 && alpha >= 1.0
    ensures 0 in Selection(kept, range, 1.0, alpha, occlude, {})
  {
    assert Taken(kept, {}) == {};
    assert Open(kept, 0, {}, 1.0, occlude);
    TakenMore(kept, {}, 0);
    JoinedGrows(kept, 1, range, 1.0, occlude, {} + {0});
    StepDown(alpha, 1.0);
    SelectionGrows(kept, range, 1.0 * 1.2, alpha, occlude, Joined(kept, 0, range, 1.0, occlude, {}));
  }

  /** Something selected and closer occludes t beyond c. */
  ghost predicate Occluded(kept: seq<Neighbor>, t: nat, selected: set<nat>, c: real, occlude: (Neighbor, Neighbor) -> real)
    requires t < |kept|
  {
    exists p :: p in selected && p < t && occlude(kept[p], kept[t]) > c
  }

  /** A round that leaves room leaves out only what is occluded. */
  lemma {:induction false} JoinedMaximal(kept: seq<Neighbor>, t: nat, range: nat, c: real, occlude: (Neighbor, Neighbor) -> real,
                                         selected: set<nat>, u: nat)
    requires InBounds(kept, selected, range) && t <= u < |kept|
    ensures var r := Joined(kept, t, range, c, occlude, selected);
      |Taken(kept, r)| < range && u !in r ==> Occluded(kept, u, r, c, occlude)
    decreases |kept| - t
  {
    if |Taken(kept, selected)| < range {
      var more := Joining(kept, t, c, occlude, selected);
      TakenMore(kept, selected, t);
      JoinedGrows(kept, t + 1, range, c, occlude, more);
      if t < u {
        JoinedMaximal(kept, t + 1, range, c, occlude, more, u);
      }
    }
  }

  /** With room left at the end, whatever was not selected is occluded, by so much that it would have
      to wait for a level beyond alpha. */
  lemma {:induction false} SelectionMaximal(kept: seq<Neighbor>, range: nat, c: real, alpha: real, occlude: (Neighbor, Neighbor) -> real,
                                            selected: set<nat>, u: nat)
    requires 1.0 <= c <= alpha && InBounds(kept, selected, range) && u < |kept|
    ensures var r := Selection(kept, range, c, alpha, occlude, selected);
      |Taken(kept, r)| < range && u !in r ==> Occluded(kept, u, r, alpha / 1.2, occlude)
    decreases Levels(alpha, c)
  {
    if |Taken(kept, selected)| < range {
      StepDown(alpha, c);
      var more := Joined(kept, 0, range, c, occlude, selected);
      JoinedGrows(kept, 0, range, c, occlude, selected);
      JoinedMaximal(kept, 0, range, c, occlude, selected, u);
      if c * 1.2 <= alpha {
        SelectionMaximal(kept, range, c * 1.2, alpha, occlude, more, u);
      }
    }
  }

  /** An order of selection in which nothing was occluded beyond alpha, when its turn came, by
      something closer that had been selected. */
  ghost predicate Unoccluded(kept: seq<Neighbor>, order: seq<nat>, alpha: real, occlude: (Neighbor, Neighbor) -> real) {
    && (forall a | 0 <= a < |order| :: order[a] < |kept|)
    && forall a, b | 0 <= a < b < |order| && order[a] < order[b] :: occlude(kept[order[a]], kept[order[b]]) <= alpha
  }

  ghost predicate InOrder(order: seq<nat>, selected: set<nat>) {
    (forall a | 0 <= a < |order| :: order[a] in selected) && forall t | t in selected :: t in order
  }

  lemma {:induction false} JoinedOrder(kept: seq<Neighbor>, t: nat, range: nat, c: real, alpha: real, occlude: (Neighbor, Neighbor) -> real,
                                       selected: set<nat>, order: seq<nat>) returns (r: seq<nat>)
    requires c <= alpha && InOrder(order, selected) && Unoccluded(kept, order, alpha, occlude)
    ensures InOrder(r, Joined(kept, t, range, c, occlude, selected)) && Unoccluded(kept, r, alpha, occlude)
    decreases |kept| - t
  {
    if t >= |kept| || |Taken(kept, selected)| >= range {
      r := order;
    } else if Open(kept, t, selected, c, occlude) {
      r := JoinedOrder(kept, t + 1, range, c, alpha, occlude, selected + {t}, order + [t]);
    } else {
      r := JoinedOrder(kept, t + 1, range, c, alpha, occlude, selected, order);
    }
  }

  /** Nothing is selected that was occluded beyond alpha at the time. */
  lemma {:induction false} SelectionOrder(kept: seq<Neighbor>, range: nat, c: real, alpha: real, occlude: (Neighbor, Neighbor) -> real,
                                          selected: set<nat>, order: seq<nat>) returns (r: seq<nat>)
    requires c >= 1.0 && InOrder(order, selected) && Unoccluded(kept, order, alpha, occlude)
    ensures InOrder(r, Selection(kept, range, c, alpha, occlude, selected)) && Unoccluded(kept, r, alpha, occlude)
    decreases Levels(alpha, c)
  {
    if c > alpha || |Taken(kept, selected)| >= range {
      r := order;
    } else {
      StepDown(alpha, c);
      r := JoinedOrder(kept, 0, range, c, alpha, occlude, selected, order);
      r := SelectionOrder(kept, range, c * 1.2, alpha, occlude, Joined(kept, 0, range, c, occlude, selected), r);
    }
  }

  // ----- how the code gets there -----

  /** What a factor says of position t. A selected position carries the largest float. An open one has
      a factor beyond alpha, for good, or one that covers every selected closer position; and a factor
      other than zero comes from one of those. */
  ghost predicate Covers(x: real, kept: seq<Neighbor>, t: nat, selected: set<nat>, alpha: real, occlude: (Neighbor, Neighbor) -> real)
    requires t < |kept|
  {
    if t in selected then x == FLOAT_MAX
    else
      && (x > alpha || forall p | p in selected && p < t :: occlude(kept[p], kept[t]) <= x)
      && (x == 0.0 || exists p :: p in selected && p < t && occlude(kept[p], kept[t]) == x)
  }

  ghost predicate Marked(factor: seq<real>, kept: seq<Neighbor>, selected: set<nat>, alpha: real, occlude: (Neighbor, Neighbor) -> real) {
    |factor| == |kept| && alpha < FLOAT_MAX && forall t | 0 <= t < |factor| :: Covers(factor[t], kept, t, selected, alpha, occlude)
  }

  /** The factor of position t after `start` has been selected. */
  ghost function Raised(x: real, kept: seq<Neighbor>, t: nat, start: nat, alpha: real, occlude: (Neighbor, Neighbor) -> real): real
    requires t < |kept| && start < |kept|
  {
    if t == start then FLOAT_MAX
    else if t > start && x <= alpha && occlude(kept[start], kept[t]) > x then occlude(kept[start], kept[t])
    else x
  }

  lemma RaisedCovers(x: real, kept: seq<Neighbor>, t: nat, start: nat, selected: set<nat>, alpha: real, occlude: (Neighbor, Neighbor) -> real)
    requires t < |kept| && start < |kept| && start !in selected && alpha < FLOAT_MAX && Covers(x, kept, t, selected, alpha, occlude)
    ensures Covers(Raised(x, kept, t, start, alpha, occlude), kept, t, selected + {start}, alpha, occlude)
  {
  }

  lemma RaisedMarked(factor: seq<real>, kept: seq<Neighbor>, start: nat, selected: set<nat>, alpha: real,
                     occlude: (Neighbor, Neighbor) -> real, next: seq<real>)
    requires Marked(factor, kept, selected, alpha, occlude) && start < |kept| && start !in selected && |next| == |factor|
    requires forall t | 0 <= t < |next| :: next[t] == Raised(factor[t], kept, t, start, alpha, occlude)
    ensures Marked(next, kept, selected + {start}, alpha, occlude)
  {
    forall t | 0 <= t < |next| ensures Covers(next[t], kept, t, selected + {start}, alpha, occlude) {
      RaisedCovers(factor[t], kept, t, start, selected, alpha, occlude);
    }
  }

  /** Selecting position `start` raises the factor of every later candidate that is still open. */
  method Select(factor: array<real>, kept: seq<Neighbor>, start: nat, alpha: real, occlude: (Neighbor, Neighbor) -> real, ghost selected: set<nat>)
    requires start < |kept| && start !in selected && Marked(factor[..], kept, selected, alpha, occlude)
    modifies factor
    ensures Marked(factor[..], kept, selected + {start}, alpha, occlude)
  {
    ghost var was := factor[..];
    factor[start] := FLOAT_MAX;
    for t := start + 1 to factor.Length
      invariant forall x | 0 <= x < t :: factor[x] == Raised(was[x], kept, x, start, alpha, occlude)
      invariant forall x | t <= x < factor.Length :: factor[x] == was[x]
    {
      if factor[t] <= alpha && occlude(kept[start], kept[t]) > factor[t] {
        factor[t] := occlude(kept[start], kept[t]);
      }
    }
    RaisedMarked(was, kept, start, selected, alpha, occlude, factor[..]);
  }

  /** The factor tells whether a position is open. */
  lemma OpenIff(factor: seq<real>, kept: seq<Neighbor>, selected: set<nat>, c: real, alpha: real, occlude: (Neighbor, Neighbor) -> real, t: nat)
    requires Marked(factor, kept, selected, alpha, occlude) && t < |factor| && 1.0 <= c <= alpha
    ensures factor[t] <= c <==> Open(kept, t, selected, c, occlude)
  {
    assert Covers(factor[t], kept, t, selected, alpha, occlude);
  }

  /** One round over the pool with the current alpha. `result` is the set of entries taken so far. */
  method Round(factor: array<real>, kept: seq<Neighbor>, range: nat, curAlpha: real, alpha: real, occlude: (Neighbor, Neighbor) -> real,
               result: set<(real, nat)>, ghost selected: set<nat>) returns (more: set<(real, nat)>, ghost joined: set<nat>)
    requires Marked(factor[..], kept, selected, alpha, occlude) && 1.0 <= curAlpha <= alpha && result == Taken(kept, selected)
    modifies factor
    ensures Marked(factor[..], kept, joined, alpha, occlude) && more == Taken(kept, joined)
    ensures joined == Joined(kept, 0, range, curAlpha, occlude, selected)
  {
    more, joined := result, selected;
    var start := 0;
    while |more| < range && start < |kept|
      invariant start <= |kept| && Marked(factor[..], kept, joined, alpha, occlude) && more == Taken(kept, joined)
      invariant Joined(kept, 0, range, curAlpha, occlude, selected) == Joined(kept, start, range, curAlpha, occlude, joined)
      decreases |kept| - start
    {
      OpenIff(factor[..], kept, joined, curAlpha, alpha, occlude, start);
      if factor[start] <= curAlpha {
        Select(factor, kept, start, alpha, occlude, joined);
        TakenMore(kept, joined, start);
        more, joined := more + {Key(kept[start])}, joined + {start};
      }
      start := start + 1;
    }
  }

  /** Where the rounds stand: the factors are in step and the rest of the rounds leads to the end. */
  ghost predicate Underway(factor: seq<real>, kept: seq<Neighbor>, range: nat, c: real, alpha: real, occlude: (Neighbor, Neighbor) -> real,
                           selected: set<nat>) {
    && c >= 1.0 && Marked(factor, kept, selected, alpha, occlude)
    && Selection(kept, range, 1.0, alpha, occlude, {}) == Selection(kept, range, c, alpha, occlude, selected)
  }

  lemma UnderwayStart(factor: seq<real>, kept: seq<Neighbor>, range: nat, alpha: real, occlude: (Neighbor, Neighbor) -> real)
    requires |factor| == |kept| && alpha < FLOAT_MAX && forall t | 0 <= t < |factor| :: factor[t] == 0.0
    ensures Underway(factor, kept, range, 1.0, alpha, occlude, {}) && Taken(kept, {}) == {}
  {
  }

  lemma UnderwayStep(factor: seq<real>, kept: seq<Neighbor>, range: nat, c: real, alpha: real, occlude: (Neighbor, Neighbor) -> real,
                     selected: set<nat>, next: seq<real>)
    requires Underway(factor, kept, range, c, alpha, occlude, selected) && c <= alpha && |Taken(kept, selected)| < range
    requires Marked(next, kept, Joined(kept, 0, range, c, occlude, selected), alpha, occlude)
    ensures Underway(next, kept, range, c * 1.2, alpha, occlude, Joined(kept, 0, range, c, occlude, selected))
    ensures Levels(alpha, c * 1.2) < Levels(alpha, c)
  {
    StepDown(alpha, c);
  }

  lemma UnderwayEnd(factor: seq<real>, kept: seq<Neighbor>, range: nat, c: real, alpha: real, occlude: (Neighbor, Neighbor) -> real, selected: set<nat>)
    requires Underway(factor, kept, range, c, alpha, occlude, selected) && (c > alpha || |Taken(kept, selected)| >= range)
    ensures selected == Selection(kept, range, 1.0, alpha, occlude, {})
  {
  }

  /** The entries kept by the alpha rounds. */
  method Rounds(kept: seq<Neighbor>, range: nat, alpha: real, occlude: (Neighbor, Neighbor) -> real) returns (result: set<(real, nat)>)
    requires alpha < FLOAT_MAX
    ensures result == Taken(kept, Selection(kept, range, 1.0, alpha, occlude, {}))
  {
    var factor := new real[|kept|](_ => 0.0);
    ghost var selected: set<nat> := {};
    result := {};
    var curAlpha := 1.0;
    UnderwayStart(factor[..], kept, range, alpha, occlude);
    while curAlpha <= alpha && |result| < range
      invariant Underway(factor[..], kept, range, curAlpha, alpha, occlude, selected) && result == Taken(kept, selected)
      decreases Levels(alpha, curAlpha)
    {
      ghost var was, before := factor[..], selected;
      result, selected := Round(factor, kept, range, curAlpha, alpha, occlude, result, selected);
      UnderwayStep(was, kept, range, curAlpha, alpha, occlude, before, factor[..]);
      curAlpha := curAlpha * 1.2;
    }
    UnderwayEnd(factor[..], kept, range, curAlpha, alpha, occlude, selected);
  }

  // ----- the list -----

  /** Position t shows an entry of the result for the first time. */
  predicate Shows(kept: seq<Neighbor>, result: set<(real, nat)>, t: nat)
    requires t < |kept|
  {
    Key(kept[t]) in result && (t == 0 || Key(kept[t - 1]) != Key(kept[t]))
  }

  /** The ids of the result among the first t entries, in order, one per key. */
  ghost function Listed(kept: seq<Neighbor>, result: set<(real, nat)>, t: nat): seq<nat>
    requires t <= |kept|
  {
    if t == 0 then [] else Listed(kept, result, t - 1) + if Shows(kept, result, t - 1) then [kept[t - 1].id] else []
  }

  lemma {:induction false} ListedHas(kept: seq<Neighbor>, result: set<(real, nat)>, t: nat, k: nat)
    requires k < t <= |kept| && Key(kept[k]) in result
    ensures kept[k].id in Listed(kept, result, t)
  {
    if k < t - 1 {
      ListedHas(kept, result, t - 1, k);
    } else if !Shows(kept, result, k) {
      ListedHas(kept, result, k, k - 1);
    }
  }

  lemma {:induction false} ListedFrom(kept: seq<Neighbor>, result: set<(real, nat)>, t: nat, id: nat) returns (k: nat)
    requires t <= |kept| && id in Listed(kept, result, t)
    ensures k < t && Key(kept[k]) in result && kept[k].id == id
  {
    if id in Listed(kept, result, t - 1) {
      k := ListedFrom(kept, result, t - 1, id);
    } else {
      k := t - 1;
    }
  }

  /** The keys of the result among the first t entries. */
  ghost function Seen(kept: seq<Neighbor>, result: set<(real, nat)>, t: nat): set<(real, nat)>
    requires t <= |kept|
  {
    set k | 0 <= k < t && Key(kept[k]) in result :: Key(kept[k])
  }

  lemma {:induction false} ListedSize(kept: seq<Neighbor>, result: set<(real, nat)>, t: nat)
    requires Ordered(kept) && t <= |kept|
    ensures |Listed(kept, result, t)| == |Seen(kept, result, t)|
  {
    if t > 0 {
      ListedSize(kept, result, t - 1);
      SeenMore(kept, result, t - 1);
      if Shows(kept, result, t - 1) {
        assert |Seen(kept, result, t)| == |Seen(kept, result, t - 1)| + 1;
      }
    }
  }

  lemma SeenMore(kept: seq<Neighbor>, result: set<(real, nat)>, t: nat)
    requires Ordered(kept) && t < |kept|
    ensures Shows(kept, result, t) ==>
      Key(kept[t]) !in Seen(kept, result, t) && Seen(kept, result, t + 1) == Seen(kept, result, t) + {Key(kept[t])}
    ensures !Shows(kept, result, t) ==> Seen(kept, result, t + 1) == Seen(kept, result, t)
  {
    var now := Seen(kept, result, t);
    if Shows(kept, result, t) {
      forall k | 0 <= k < t ensures Key(kept[k]) != Key(kept[t]) {
        assert k < t - 1 ==> !Less(kept[t - 1], kept[k]);
        assert !Less(kept[t], kept[t - 1]);
      }
      assert Seen(kept, result, t + 1) == now + {Key(kept[t])};
    } else {
      assert Key(kept[t]) in result ==> Key(kept[t - 1]) in now;
      assert Seen(kept, result, t + 1) == now;
    }
  }

  lemma {:induction false} ListedOnce(kept: seq<Neighbor>, result: set<(real, nat)>, t: nat)
    requires DistinctIds(kept) && t <= |kept|
    ensures Distinct(Listed(kept, result, t))
  {
    if t > 0 {
      ListedOnce(kept, result, t - 1);
      if kept[t - 1].id in Listed(kept, result, t - 1) {
        var k := ListedFrom(kept, result, t - 1, kept[t - 1].id);
      }
    }
  }

  /** The ids stand at the positions `at` among the first t entries: closest first, one for each key of
      the result and no other. */
  ghost predicate ClosestFirst(kept: seq<Neighbor>, result: set<(real, nat)>, t: nat, at: seq<nat>, ids: seq<nat>) {
    && |at| == |ids| && t <= |kept|
    && (forall i | 0 <= i < |at| :: at[i] < t && kept[at[i]].id == ids[i] && Key(kept[at[i]]) in result)
    && (forall i, j | 0 <= i < j < |at| :: Less(kept[at[i]], kept[at[j]]))
    && forall p | 0 <= p < t && Key(kept[p]) in result :: StandsIn(kept, at, Key(kept[p]))
  }

  ghost predicate StandsIn(kept: seq<Neighbor>, at: seq<nat>, key: (real, nat)) {
    exists i :: 0 <= i < |at| && at[i] < |kept| && Key(kept[at[i]]) == key
  }

  lemma StandsStill(kept: seq<Neighbor>, at: seq<nat>, t: nat, key: (real, nat))
    requires t < |kept| && (StandsIn(kept, at, key) || key == Key(kept[t]))
    ensures StandsIn(kept, at + [t], key)
  {
    var more := at + [t];
    if key == Key(kept[t]) {
      assert more[|at|] == t;
    } else {
      var i :| 0 <= i < |at| && at[i] < |kept| && Key(kept[at[i]]) == key;
      assert more[i] == at[i];
    }
  }

  lemma {:induction false} ListedAt(kept: seq<Neighbor>, result: set<(real, nat)>, t: nat) returns (at: seq<nat>)
    requires Ordered(kept) && t <= |kept|
    ensures ClosestFirst(kept, result, t, at, Listed(kept, result, t))
  {
    if t == 0 {
      at := [];
    } else {
      var before := ListedAt(kept, result, t - 1);
      if Shows(kept, result, t - 1) {
        at := before + [t - 1];
        ShownLast(kept, result, t - 1, before, at);
      } else {
        at := before;
        forall p | 0 <= p < t && Key(kept[p]) in result ensures StandsIn(kept, at, Key(kept[p])) {
          var q := if p == t - 1 then p - 1 else p;
          assert Key(kept[q]) == Key(kept[p]);
        }
      }
    }
  }

  /** An entry that shows for the first time is farther than all listed before it. */
  lemma ShownIsFarther(kept: seq<Neighbor>, result: set<(real, nat)>, t: nat, p: nat)
    requires Ordered(kept) && p < t < |kept| && Shows(kept, result, t) && Key(kept[p]) in result
    ensures Less(kept[p], kept[t])
  {
    SeenMore(kept, result, t);
    assert Key(kept[p]) in Seen(kept, result, t);
    assert !Less(kept[t], kept[p]);
  }

  lemma ShownAscends(kept: seq<Neighbor>, result: set<(real, nat)>, t: nat, before: seq<nat>, at: seq<nat>)
    requires Ordered(kept) && t < |kept| && Shows(kept, result, t) && at == before + [t]
    requires forall i | 0 <= i < |before| :: before[i] < t && Key(kept[before[i]]) in result
    requires forall i, j | 0 <= i < j < |before| :: Less(kept[before[i]], kept[before[j]])
    ensures forall i, j | 0 <= i < j < |at| :: Less(kept[at[i]], kept[at[j]])
  {
    forall i, j | 0 <= i < j < |at| ensures Less(kept[at[i]], kept[at[j]]) {
      if j == |before| {
        ShownIsFarther(kept, result, t, before[i]);
      } else {
        assert at[i] == before[i] && at[j] == before[j];
      }
    }
  }

  lemma ShownLast(kept: seq<Neighbor>, result: set<(real, nat)>, t: nat, before: seq<nat>, at: seq<nat>)
    requires Ordered(kept) && t < |kept| && Shows(kept, result, t) && at == before + [t]
    requires ClosestFirst(kept, result, t, before, Listed(kept, result, t))
    ensures ClosestFirst(kept, result, t + 1, at, Listed(kept, result, t + 1))
  {
    ShownAscends(kept, result, t, before, at);
    ShownListed(kept, result, t, before, at, Listed(kept, result, t), Listed(kept, result, t + 1));
  }

  lemma ShownListed(kept: seq<Neighbor>, result: set<(real, nat)>, t: nat, before: seq<nat>, at: seq<nat>, ids: seq<nat>, more: seq<nat>)
    requires t < |kept| && Key(kept[t]) in result && at == before + [t] && more == ids + [kept[t].id]
    requires ClosestFirst(kept, result, t, before, ids) && forall i, j | 0 <= i < j < |at| :: at[i] < |kept| && at[j] < |kept| && Less(kept[at[i]], kept[at[j]])
    ensures ClosestFirst(kept, result, t + 1, at, more)
  {
    forall i | 0 <= i < |at| ensures at[i] < t + 1 && kept[at[i]].id == more[i] && Key(kept[at[i]]) in result {
      if i < |before| {
        assert at[i] == before[i] && more[i] == ids[i];
      }
    }
    forall p | 0 <= p < t + 1 && Key(kept[p]) in result ensures StandsIn(kept, at, Key(kept[p])) {
      StandsStill(kept, before, t, Key(kept[p]));
    }
  }

  /** The result as a list, closest first. */
  method Collect(kept: seq<Neighbor>, result: set<(real, nat)>) returns (ids: seq<nat>)
    ensures ids == Listed(kept, result, |kept|)
  {
    ids := [];
    for t := 0 to |kept|
      invariant ids == Listed(kept, result, t)
    {
      if Shows(kept, result, t) {
        ids := ids + [kept[t].id];
      }
    }
  }

  // ----- filling up -----

  /** ids0 with ids of the `stop` closest entries behind it, all of which are there. */
  ghost predicate FilledTo(kept: seq<Neighbor>, ids0: seq<nat>, ids: seq<nat>, stop: nat) {
    && stop <= |kept| && ids0 <= ids
    && (forall k | 0 <= k < stop :: kept[k].id in ids)
    && (forall m | |ids0| <= m < |ids| :: exists k :: 0 <= k < stop && kept[k].id == ids[m])
  }

  ghost predicate ClosestAdded(kept: seq<Neighbor>, ids0: seq<nat>, ids: seq<nat>) {
    exists stop :: FilledTo(kept, ids0, ids, stop)
  }

  lemma FilledMore(kept: seq<Neighbor>, ids0: seq<nat>, ids: seq<nat>, stop: nat)
    requires FilledTo(kept, ids0, ids, stop) && stop < |kept|
    ensures FilledTo(kept, ids0, if kept[stop].id in ids then ids else ids + [kept[stop].id], stop + 1)
  {
    var more := if kept[stop].id in ids then ids else ids + [kept[stop].id];
    forall m | |ids0| <= m < |more| ensures exists k :: 0 <= k < stop + 1 && kept[k].id == more[m] {
      if m < |ids| {
        var k :| 0 <= k < stop && kept[k].id == ids[m];
        assert kept[k].id == more[m];
      } else {
        assert kept[stop].id == more[m];
      }
    }
  }

  /** Fills up with the closest entries that were not selected. */
  method Saturate(kept: seq<Neighbor>, range: nat, ids0: seq<nat>) returns (ids: seq<nat>)
    requires |ids0| <= range
    ensures |ids| <= range && ClosestAdded(kept, ids0, ids)
    ensures Distinct(ids0) ==> Distinct(ids)
    ensures |ids| == range || Ids(kept) <= ToSet(ids)
  {
    ids := ids0;
    var i := 0;
    while i < |kept| && |ids| < range
      invariant FilledTo(kept, ids0, ids, i) && |ids| <= range
      invariant Distinct(ids0) ==> Distinct(ids)
    {
      FilledMore(kept, ids0, ids, i);
      if kept[i].id !in ids {
        ids := ids + [kept[i].id];
      }
      i := i + 1;
    }
  }

  // ----- the whole -----

  /** The C closest entries of the pool, in order: the only ones considered. */
  ghost predicate AreKept(pool: seq<Neighbor>, c: nat, kept: seq<Neighbor>) {
    exists sorted :: Ordered(sorted) && multiset(sorted) == multiset(pool) && kept == Truncate(sorted, c)
  }

  /** What the rounds select. */
  ghost function Chosen(kept: seq<Neighbor>, params: Params, occlude: (Neighbor, Neighbor) -> real): seq<nat> {
    Listed(kept, Taken(kept, Selection(kept, params.R, 1.0, params.alpha, occlude, {})), |kept|)
  }

  predicate Saturates(params: Params) {
    params.saturateGraph && params.alpha > 1.0
  }

  /** Whatever is missing is occluded by something closer that is there. */
  ghost predicate DropsOccluded(kept: seq<Neighbor>, alpha: real, occlude: (Neighbor, Neighbor) -> real, ids: seq<nat>) {
    forall t | 0 <= t < |kept| && kept[t].id !in ids ::
      exists p :: 0 <= p < |kept| && kept[p].id in ids && Less(kept[p], kept[t]) && occlude(kept[p], kept[t]) > alpha / 1.2
  }

  /** What the rounds take was not occluded, when its turn came, by something closer taken before. */
  ghost predicate TakesUnoccluded(kept: seq<Neighbor>, params: Params, occlude: (Neighbor, Neighbor) -> real) {
    exists order ::
      InOrder(order, Selection(kept, params.R, 1.0, params.alpha, occlude, {})) && Unoccluded(kept, order, params.alpha, occlude)
  }

  /** What the rounds select is listed closest first, each entry once. */
  ghost predicate ListsClosestFirst(kept: seq<Neighbor>, params: Params, occlude: (Neighbor, Neighbor) -> real) {
    exists at :: ClosestFirst(kept, Taken(kept, Selection(kept, params.R, 1.0, params.alpha, occlude, {})), |kept|, at, Chosen(kept, params, occlude))
  }

  /** The result is what the rounds select, closest first, and when saturating the closest of the rest
      behind it, as many as there can be. With room left, only entries that a closer entry of the
      result occludes were dropped. */
  ghost predicate WellPruned(kept: seq<Neighbor>, params: Params, occlude: (Neighbor, Neighbor) -> real, ids: seq<nat>) {
    && |ids| <= params.R && (DistinctIds(kept) ==> Distinct(ids))
    && TakesUnoccluded(kept, params, occlude) && ListsClosestFirst(kept, params, occlude)
    && (if Saturates(params) then
          ClosestAdded(kept, Chosen(kept, params, occlude), ids) && (|ids| == params.R || Ids(kept) <= ToSet(ids))
        else ids == Chosen(kept, params, occlude))
    && (1.0 <= params.alpha && |ids| < params.R ==> DropsOccluded(kept, params.alpha, occlude, ids))
  }

  /** `occlude(a, b)` gives how strongly candidate a occludes candidate b. An empty pool leaves the
      caller's list alone. Entries may repeat. */
  method PruneNeighbors(pool: seq<Neighbor>, pruned: seq<nat>, params: Params, occlude: (Neighbor, Neighbor) -> real)
    returns (ids: seq<nat>)
    requires params.alpha < FLOAT_MAX
    ensures pool == [] ==> ids == pruned
    ensures pool != [] ==> AllFrom(ids, Ids(pool)) && |ids| <= params.R && (DistinctIds(pool) ==> Distinct(ids))
    ensures pool != [] ==> exists kept :: AreKept(pool, params.C, kept) && WellPruned(kept, params, occlude, ids)
  {
    if pool == [] {
      return pruned;
    }
    var sorted := SortPool(pool);
    var kept := Truncate(sorted, params.C);
    KeptFromPool(pool, sorted, params.C);
    ids := PruneKept(kept, params, occlude);
  }

  method PruneKept(kept: seq<Neighbor>, params: Params, occlude: (Neighbor, Neighbor) -> real) returns (ids: seq<nat>)
    requires Ordered(kept) && params.alpha < FLOAT_MAX
    ensures AllFrom(ids, Ids(kept)) && WellPruned(kept, params, occlude, ids)
  {
    var result := Rounds(kept, params.R, params.alpha, occlude);
    ids := Collect(kept, result);
    ChosenIs(kept, params, occlude);
    if Saturates(params) {
      ghost var chosen := ids;
      ids := Saturate(kept, params.R, ids);
      FilledFrom(kept, chosen, ids);
    }
  }

  lemma FilledFrom(kept: seq<Neighbor>, chosen: seq<nat>, ids: seq<nat>)
    requires AllFrom(chosen, Ids(kept)) && ClosestAdded(kept, chosen, ids)
    ensures AllFrom(ids, Ids(kept))
    ensures Ids(kept) <= ToSet(ids) ==> forall t | 0 <= t < |kept| :: kept[t].id in ids
  {
    var stop :| FilledTo(kept, chosen, ids, stop);
    forall m | 0 <= m < |ids| ensures ids[m] in Ids(kept) {
      if m < |chosen| {
        assert ids[m] == chosen[m];
      } else {
        var k :| 0 <= k < stop && kept[k].id == ids[m];
        assert kept[k] in kept;
      }
    }
    if Ids(kept) <= ToSet(ids) {
      forall t | 0 <= t < |kept| ensures kept[t].id in ids {
        assert kept[t] in kept;
        assert kept[t].id in ToSet(ids);
      }
    }
  }

  /** What the rounds select comes from the entries, fits, repeats nothing that does not repeat, and
      with room left drops only what it occludes. */
  lemma ChosenIs(kept: seq<Neighbor>, params: Params, occlude: (Neighbor, Neighbor) -> real)
    requires Ordered(kept)
    ensures var ids := Chosen(kept, params, occlude);
      && AllFrom(ids, Ids(kept)) && |ids| <= params.R && (DistinctIds(kept) ==> Distinct(ids))
      && TakesUnoccluded(kept, params, occlude) && ListsClosestFirst(kept, params, occlude)
      && (1.0 <= params.alpha && |ids| < params.R ==> DropsOccluded(kept, params.alpha, occlude, ids))
  {
    var ids := Chosen(kept, params, occlude);
    var selected := Selection(kept, params.R, 1.0, params.alpha, occlude, {});
    var result := Taken(kept, selected);
    assert Taken(kept, {}) == {};
    SelectionGrows(kept, params.R, 1.0, params.alpha, occlude, {});
    ListedSize(kept, result, |kept|);
    var at := ListedAt(kept, result, |kept|);
    assert Seen(kept, result, |kept|) == result;
    var order := SelectionOrder(kept, params.R, 1.0, params.alpha, occlude, {}, []);
    forall i | 0 <= i < |ids| ensures ids[i] in Ids(kept) {
      var k := ListedFrom(kept, result, |kept|, ids[i]);
      assert kept[k] in kept;
    }
    if DistinctIds(kept) {
      ListedOnce(kept, result, |kept|);
    }
    if 1.0 <= params.alpha && |ids| < params.R {
      DropsOnly(kept, params, occlude);
    }
  }

  lemma DropsOnly(kept: seq<Neighbor>, params: Params, occlude: (Neighbor, Neighbor) -> real)
    requires Ordered(kept) && 1.0 <= params.alpha
    requires |Taken(kept, Selection(kept, params.R, 1.0, params.alpha, occlude, {}))| < params.R
    ensures DropsOccluded(kept, params.alpha, occlude, Chosen(kept, params, occlude))
  {
    var ids := Chosen(kept, params, occlude);
    var selected := Selection(kept, params.R, 1.0, params.alpha, occlude, {});
    var result := Taken(kept, selected);
    assert Taken(kept, {}) == {};
    forall t | 0 <= t < |kept| && kept[t].id !in ids
      ensures exists p :: 0 <= p < |kept| && kept[p].id in ids && Less(kept[p], kept[t]) && occlude(kept[p], kept[t]) > params.alpha / 1.2
    {
      if Key(kept[t]) in result {
        ListedHas(kept, result, |kept|, t);
      }
      SelectionMaximal(kept, params.R, 1.0, params.alpha, occlude, {}, t);
      var p :| p in selected && p < t && occlude(kept[p], kept[t]) > params.alpha / 1.2;
      ListedHas(kept, result, |kept|, p);
      assert Key(kept[p]) in result && !Less(kept[t], kept[p]);
    }
  }

  lemma KeptFromPool(pool: seq<Neighbor>, sorted: seq<Neighbor>, c: nat)
    requires Ordered(sorted) && multiset(sorted) == multiset(pool)
    ensures var kept := Truncate(sorted, c);
      Ordered(kept) && Ids(kept) <= Ids(pool) && AreKept(pool, c, kept) && (DistinctIds(pool) ==> DistinctIds(kept))
  {
    var kept := Truncate(sorted, c);
    forall x | x in kept ensures x in pool {
      assert x in multiset(sorted);
    }
    if DistinctIds(pool) {
      SameDistinct(pool, sorted);
    }
  }

  /** Distinct ids stay distinct in any other order. */
  lemma SameDistinct(a: seq<Neighbor>, b: seq<Neighbor>)
    requires DistinctIds(a) && multiset(a) == multiset(b)
    ensures DistinctIds(b)
  {
    forall i, j | 0 <= i < j < |b| ensures b[i].id != b[j].id {
      if b[i].id == b[j].id {
        assert b == b[..i] + [b[i]] + b[i + 1..];
        assert b[j] == b[i + 1..][j - i - 1];
        assert b[i] in multiset(b) && b[j] in multiset(b);
        var x :| 0 <= x < |a| && a[x] == b[i];
        var y :| 0 <= y < |a| && a[y] == b[j];
        assert b[i] == b[j];
        assert multiset(b)[b[i]] >= 2;
        OnlyOnce(a, x);
      }
    }
  }

  lemma OnlyOnce(a: seq<Neighbor>, x: nat)
    requires DistinctIds(a) && x < |a|
    ensures multiset(a)[a[x]] == 1
  {
    assert a == a[..x] + [a[x]] + a[x + 1..];
    assert a[x] !in a[..x] && a[x] !in a[x + 1..];
  }

  /** For entries with different ids, the ones considered are the C closest of the pool. */
  lemma KeptAreClosest(pool: seq<Neighbor>, c: nat, kept: seq<Neighbor>)
    requires DistinctIds(pool) && AreKept(pool, c, kept)
    ensures IsClosest(kept, c, Elements(pool))
  {
    var sorted: seq<Neighbor> :| Ordered(sorted) && multiset(sorted) == multiset(pool) && kept == Truncate(sorted, c);
    SameDistinct(pool, sorted);
    assert Sorted(sorted) by {
      forall i, j | 0 <= i < j < |sorted| ensures Less(sorted[i], sorted[j]) {
        assert !Less(sorted[j], sorted[i]) && sorted[i].id != sorted[j].id;
      }
    }
    forall x ensures x in sorted <==> x in pool {
      assert x in sorted <==> x in multiset(sorted);
      assert x in pool <==> x in multiset(pool);
    }
    assert Elements(sorted) == Elements(pool);
    SortedSize(sorted);
    assert sorted == kept + sorted[|kept|..];
  }

  /** For entries with different ids, a saturated list is as long as can be. */
  lemma SaturatedSize(kept: seq<Neighbor>, range: nat, ids: seq<nat>)
    requires DistinctIds(kept) && Distinct(ids) && AllFrom(ids, Ids(kept)) && |ids| <= range
    requires |ids| == range || Ids(kept) <= ToSet(ids)
    ensures |ids| == Min(range, |kept|)
  {
    IdsSize(kept);
    DistinctSize(ids);
    var s := ToSet(ids);
    assert s <= Ids(kept);
    assert Ids(kept) == s + (Ids(kept) - s);
  }

  lemma {:induction false} IdsSize(pool: seq<Neighbor>)
    requires DistinctIds(pool)
    ensures |Ids(pool)| == |pool|
  {
    if pool == [] {
      assert Ids(pool) == {};
    } else {
      IdsSize(pool[1..]);
      assert pool == [pool[0]] + pool[1..];
      assert pool[0].id !in Ids(pool[1..]);
      assert Ids(pool) == {pool[0].id} + Ids(pool[1..]);
    }
  }
}
