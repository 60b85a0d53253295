/** The selector algebra of include/filter/selector.h: AND, OR and NOT over leaves that answer from an
    attribute index. */
module Selector {

  import opened SortedIds

  /** A tree over leaves; each branch of an AND carries its estimated selectivity. */
  datatype Tree<L> = Leaf(leaf: L) | And(branches: seq<Branch<L>>) | Or(parts: seq<Tree<L>>) | Not(inner: Tree<L>)

  datatype Branch<L> = Branch(tree: Tree<L>, selectivity: real)

  /** Branches less selective than this are skipped unless the answer must be exact. */
  const THRESHOLD := 0.1

  /** What the tree means. */
  ghost predicate Member<L>(t: Tree<L>, test: (L, nat) -> bool, id: nat) {
    match t
    case Leaf(l) => test(l, id)
    case And(bs) => forall i | 0 <= i < |bs| :: Member(bs[i].tree, test, id)
    case Or(ps) => exists i :: 0 <= i < |ps| && Member(ps[i], test, id)
    case Not(x) => !Member(x, test, id)
  }

  /** The exact check, with its early exits. */
  method IsMember<L>(t: Tree<L>, test: (L, nat) -> bool, id: nat) returns (r: bool)
    ensures r == Member(t, test, id)
    decreases t
  {
    match t
    case Leaf(l) => r := test(l, id);
    case And(bs) =>
      for i := 0 to |bs|
        invariant forall j | 0 <= j < i :: Member(bs[j].tree, test, id)
      {
        var b := IsMember(bs[i].tree, test, id);
        if !b {
          return false;
        }
      }
      r := true;
    case Or(ps) =>
      for i := 0 to |ps|
        invariant forall j | 0 <= j < i :: !Member(ps[j], test, id)
      {
        var b := IsMember(ps[i], test, id);
        if b {
          return true;
        }
      }
      r := false;
    case Not(x) =>
      r := IsMember(x, test, id);
      r := !r;
  }

  /** Every AND has a first branch. */
  ghost predicate Proper<L>(t: Tree<L>) {
    match t
    case Leaf(_) => true
    case And(bs) => |bs| > 0 && forall i | 0 <= i < |bs| :: Proper(bs[i].tree)
    case Or(ps) => forall i | 0 <= i < |ps| :: Proper(ps[i])
    case Not(x) => Proper(x)
  }

  /** Is branch i of an AND intersected? The first always is. */
  predicate Taken(i: nat, selectivity: real, strict: bool) {
    i == 0 || strict || selectivity <= THRESHOLD
  }

  /** What the scan of the indexes finds, among the ids below n. */
  ghost predicate Found<L>(t: Tree<L>, test: (L, nat) -> bool, n: nat, strict: bool, id: nat) {
    match t
    case Leaf(l) => id < n && test(l, id)
    case And(bs) => forall i | 0 <= i < |bs| && Taken(i, bs[i].selectivity, strict) :: Found(bs[i].tree, test, n, strict, id)
    case Or(ps) => exists i :: 0 <= i < |ps| && Found(ps[i], test, n, strict, id)
    case Not(x) => id < n && !Found(x, test, n, strict, id)
  }

  lemma {:induction false} FoundBelow<L>(t: Tree<L>, test: (L, nat) -> bool, n: nat, strict: bool, id: nat)
    requires Proper(t) && Found(t, test, n, strict, id)
    ensures id < n
    decreases t
  {
    match t
    case Leaf(_) =>
    case And(bs) => FoundBelow(bs[0].tree, test, n, strict, id);
    case Or(ps) =>
      var i :| 0 <= i < |ps| && Found(ps[i], test, n, strict, id);
      FoundBelow(ps[i], test, n, strict, id);
    case Not(_) =>
  }

  /** The leaf's index answers with the ids of `hit`, in ascending order. These may be more than the
      ids that pass the leaf's own test. */
  ghost predicate Answers<L>(answer: L -> seq<nat>, hit: (L, nat) -> bool, n: nat, l: L) {
    Strict(answer(l)) && forall id: nat :: id in answer(l) <==> id < n && hit(l, id)
  }

  /** The ids below n that the list leaves out. */
  method Complement(excluded: seq<nat>, n: nat) returns (r: seq<nat>)
    requires Strict(excluded) && forall x | x in excluded :: x < n
    ensures Strict(r) && forall id: nat :: id in r <==> id < n && id !in excluded
  {
    r := [];
    var start: nat := 0;
    for i := 0 to |excluded|
      invariant Gaps(excluded, i, r, start) && start <= n
    {
      assert excluded[i] in excluded;
      assert excluded[..i + 1] == excluded[..i] + [excluded[i]];
      r := Fill(r, start, excluded[i]);
      start := excluded[i] + 1;
    }
    assert excluded[..|excluded|] == excluded;
    r := Fill(r, start, n);
  }

  /** r holds the ids below `start` that are not among the first i excluded ones. */
  ghost predicate Gaps(excluded: seq<nat>, i: nat, r: seq<nat>, start: nat) {
    && i <= |excluded| && Strict(r) && (forall id: nat :: id in r <==> id < start && id !in excluded[..i])
    && (forall x | x in excluded[..i] :: x < start) && (forall k | i <= k < |excluded| :: excluded[k] >= start)
  }

  /** Appends start, start + 1, ..., stop - 1. */
  method Fill(r0: seq<nat>, start: nat, stop: nat) returns (r: seq<nat>)
    requires Strict(r0) && start <= stop && forall x | x in r0 :: x < start
    ensures Strict(r) && forall x: nat :: x in r <==> x in r0 || start <= x < stop
  {
    r := r0;
    for id := start to stop
      invariant Strict(r) && forall x: nat :: x in r <==> x in r0 || start <= x < id
    {
      assert r != [] ==> r[|r| - 1] in r;
      Join(r, [id]);
      r := r + [id];
    }
  }

  /** The scan: lists from the leaves, merged. */
  method PreFilter<L(!new)>(t: Tree<L>, answer: L -> seq<nat>, ghost hit: (L, nat) -> bool, n: nat, strict: bool) returns (r: seq<nat>)
    requires Proper(t) && forall l :: Answers(answer, hit, n, l)
    ensures Strict(r) && forall id: nat :: id in r <==> Found(t, hit, n, strict, id)
    ensures strict ==> forall id: nat :: id in r <==> id < n && Member(t, hit, id)
    decreases t
  {
    forall id: nat ensures Found(t, hit, n, true, id) <==> id < n && Member(t, hit, id) {
      StrictExact(t, hit, n, id);
    }
    match t
    case Leaf(l) =>
      assert Answers(answer, hit, n, l);
      r := answer(l);
    case And(bs) =>
      r := PreFilter(bs[0].tree, answer, hit, n, strict);
      for i := 1 to |bs|
        invariant Strict(r) && forall id: nat :: id in r <==>
          forall j | 0 <= j < i && Taken(j, bs[j].selectivity, strict) :: Found(bs[j].tree, hit, n, strict, id)
      {
        if strict || bs[i].selectivity <= THRESHOLD {
          var cur := PreFilter(bs[i].tree, answer, hit, n, strict);
          r := AndSortedUnique(r, cur);
        }
      }
    case Or(ps) =>
      r := [];
      for i := 0 to |ps|
        invariant Strict(r) && forall id: nat :: id in r <==> exists j :: 0 <= j < i && Found(ps[j], hit, n, strict, id)
      {
        var cur := PreFilter(ps[i], answer, hit, n, strict);
        r := OrSortedUnique(r, cur);
      }
    case Not(x) =>
      var excluded := PreFilter(x, answer, hit, n, strict);
      forall y | y in excluded ensures y < n {
        FoundBelow(x, hit, n, strict, y);
      }
      r := Complement(excluded, n);
  }

  // ----- when the scan is exact -----

  /** A strict scan finds exactly the members. */
  lemma {:induction false} StrictExact<L>(t: Tree<L>, test: (L, nat) -> bool, n: nat, id: nat)
    requires Proper(t)
    ensures Found(t, test, n, true, id) <==> id < n && Member(t, test, id)
    decreases t
  {
    match t
    case Leaf(_) =>
    case And(bs) =>
      forall i | 0 <= i < |bs| ensures Found(bs[i].tree, test, n, true, id) <==> id < n && Member(bs[i].tree, test, id) {
        StrictExact(bs[i].tree, test, n, id);
      }
      if Found(t, test, n, true, id) {
        assert Found(bs[0].tree, test, n, true, id);
      }
    case Or(ps) =>
      forall i | 0 <= i < |ps| ensures Found(ps[i], test, n, true, id) <==> id < n && Member(ps[i], test, id) {
        StrictExact(ps[i], test, n, id);
      }
    case Not(x) => StrictExact(x, test, n, id);
  }

  // ----- which way a scan can be wrong -----

  /** The answers of the leaves: those of a wide leaf may hold more than pass its test. */
  ghost predicate Compatible<L(!new)>(wide: L -> bool, test: (L, nat) -> bool, hit: (L, nat) -> bool, id: nat) {
    forall l: L :: (test(l, id) ==> hit(l, id)) && (!wide(l) ==> hit(l, id) == test(l, id))
  }

  /** Among the branches that the scan visits, wide leaves and skipped branches occur only under an
      even (odd) number of NOTs. */
  ghost predicate WidensOnly<L>(t: Tree<L>, wide: L -> bool, strict: bool, even: bool) {
    match t
    case Leaf(l) => even || !wide(l)
    case And(bs) => forall i | 0 <= i < |bs| ::
      if Taken(i, bs[i].selectivity, strict) then WidensOnly(bs[i].tree, wide, strict, even) else even
    case Or(ps) => forall i | 0 <= i < |ps| :: WidensOnly(ps[i], wide, strict, even)
    case Not(x) => WidensOnly(x, wide, strict, !even)
  }

  /** Under an even number of NOTs both can only add ids, under an odd number only lose them. */
  lemma {:induction false} ScanBounds<L(!new)>(t: Tree<L>, wide: L -> bool, test: (L, nat) -> bool, hit: (L, nat) -> bool,
                                       n: nat, strict: bool, id: nat, even: bool)
    requires Proper(t) && WidensOnly(t, wide, strict, even) && Compatible(wide, test, hit, id) && id < n
    ensures even && Member(t, test, id) ==> Found(t, hit, n, strict, id)
    ensures !even && Found(t, hit, n, strict, id) ==> Member(t, test, id)
    decreases t
  {
    match t
    case Leaf(l) => assert (test(l, id) ==> hit(l, id)) && (!wide(l) ==> hit(l, id) == test(l, id));
    case And(bs) =>
      forall i | 0 <= i < |bs| && Taken(i, bs[i].selectivity, strict)
        ensures even && Member(bs[i].tree, test, id) ==> Found(bs[i].tree, hit, n, strict, id)
        ensures !even && Found(bs[i].tree, hit, n, strict, id) ==> Member(bs[i].tree, test, id)
      {
        ScanBounds(bs[i].tree, wide, test, hit, n, strict, id, even);
      }
    case Or(ps) =>
      forall i | 0 <= i < |ps|
        ensures even && Member(ps[i], test, id) ==> Found(ps[i], hit, n, strict, id)
        ensures !even && Found(ps[i], hit, n, strict, id) ==> Member(ps[i], test, id)
      {
        ScanBounds(ps[i], wide, test, hit, n, strict, id, even);
      }
    case Not(x) => ScanBounds(x, wide, test, hit, n, strict, id, !even);
  }

  ghost predicate HasNoNot<L>(t: Tree<L>) {
    match t
    case Leaf(_) => true
    case And(bs) => forall i | 0 <= i < |bs| :: HasNoNot(bs[i].tree)
    case Or(ps) => forall i | 0 <= i < |ps| :: HasNoNot(ps[i])
    case Not(_) => false
  }

  lemma {:induction false} NoNotWidensUp<L>(t: Tree<L>, wide: L -> bool, strict: bool)
    requires HasNoNot(t)
    ensures WidensOnly(t, wide, strict, true)
    decreases t
  {
    match t
    case Leaf(_) =>
    case And(bs) =>
      forall i | 0 <= i < |bs| ensures WidensOnly(bs[i].tree, wide, strict, true) {
        NoNotWidensUp(bs[i].tree, wide, strict);
      }
    case Or(ps) =>
      forall i | 0 <= i < |ps| ensures WidensOnly(ps[i], wide, strict, true) {
        NoNotWidensUp(ps[i], wide, strict);
      }
    case Not(_) =>
  }

  /** Without NOT a scan finds every member, whatever it skips and however wide the leaves are. */
  lemma LooseSuperset<L(!new)>(t: Tree<L>, wide: L -> bool, test: (L, nat) -> bool, hit: (L, nat) -> bool, n: nat, strict: bool, id: nat)
    requires Proper(t) && HasNoNot(t) && Compatible(wide, test, hit, id) && id < n && Member(t, test, id)
    ensures Found(t, hit, n, strict, id)
  {
    NoNotWidensUp(t, wide, strict);
    ScanBounds(t, wide, test, hit, n, strict, id, true);
  }

  // ----- and when it is -----

  ghost predicate HasLeaf<L>(t: Tree<L>, l: L) {
    match t
    case Leaf(m) => m == l
    case And(bs) => exists i :: 0 <= i < |bs| && HasLeaf(bs[i].tree, l)
    case Or(ps) => exists i :: 0 <= i < |ps| && HasLeaf(ps[i], l)
    case Not(x) => HasLeaf(x, l)
  }

  ghost predicate Disjoint<L(!new)>(a: Tree<L>, b: Tree<L>) {
    forall l :: HasLeaf(a, l) ==> !HasLeaf(b, l)
  }

  /** No leaf occurs twice. */
  ghost predicate LeavesOnce<L(!new)>(t: Tree<L>) {
    match t
    case Leaf(_) => true
    case And(bs) =>
      && (forall i | 0 <= i < |bs| :: LeavesOnce(bs[i].tree))
      && forall i, j | 0 <= i < |bs| && 0 <= j < |bs| && i != j :: Disjoint(bs[i].tree, bs[j].tree)
    case Or(ps) =>
      && (forall i | 0 <= i < |ps| :: LeavesOnce(ps[i]))
      && forall i, j | 0 <= i < |ps| && 0 <= j < |ps| && i != j :: Disjoint(ps[i], ps[j])
    case Not(x) => LeavesOnce(x)
  }

  ghost predicate NoEmptyOr<L>(t: Tree<L>) {
    match t
    case Leaf(_) => true
    case And(bs) => forall i | 0 <= i < |bs| :: NoEmptyOr(bs[i].tree)
    case Or(ps) => |ps| > 0 && forall i | 0 <= i < |ps| :: NoEmptyOr(ps[i])
    case Not(x) => NoEmptyOr(x)
  }

  /** The value of the tree can be set at will by its leaves. */
  ghost predicate ReadOnce<L(!new)>(t: Tree<L>) {
    LeavesOnce(t) && NoEmptyOr(t)
  }

  /** The value of leaf l in an assignment that gives the whole tree the value v. */
  ghost predicate Setting<L(!new)>(t: Tree<L>, v: bool, l: L) {
    match t
    case Leaf(_) => v
    case And(bs) => exists i :: 0 <= i < |bs| && HasLeaf(bs[i].tree, l) && Setting(bs[i].tree, v, l)
    case Or(ps) => exists i :: 0 <= i < |ps| && HasLeaf(ps[i], l) && Setting(ps[i], v, l)
    case Not(x) => Setting(x, !v, l)
  }

  /** The leaves of t have these values. */
  ghost predicate Set<L(!new)>(t: Tree<L>, v: bool, test: (L, nat) -> bool, id: nat) {
    forall l | HasLeaf(t, l) :: test(l, id) == Setting(t, v, l)
  }

  /** Every tree can be made found and member, or neither. */
  lemma {:induction false} SettingWorks<L(!new)>(t: Tree<L>, v: bool, test: (L, nat) -> bool, hit: (L, nat) -> bool, n: nat, strict: bool, id: nat)
    requires Proper(t) && ReadOnce(t) && id < n && Set(t, v, test, id) && Set(t, v, hit, id)
    ensures Member(t, test, id) == v && Found(t, hit, n, strict, id) == v
    decreases t
  {
    match t
    case Leaf(l) => assert HasLeaf(t, l);
    case And(bs) =>
      forall i | 0 <= i < |bs| ensures Member(bs[i].tree, test, id) == v && Found(bs[i].tree, hit, n, strict, id) == v {
        SetInAnd(bs, v, test, id, i);
        SetInAnd(bs, v, hit, id, i);
        SettingWorks(bs[i].tree, v, test, hit, n, strict, id);
      }
      assert Member(bs[0].tree, test, id) == v && Found(bs[0].tree, hit, n, strict, id) == v;
    case Or(ps) =>
      forall i | 0 <= i < |ps| ensures Member(ps[i], test, id) == v && Found(ps[i], hit, n, strict, id) == v {
        SetInOr(ps, v, test, id, i);
        SetInOr(ps, v, hit, id, i);
        SettingWorks(ps[i], v, test, hit, n, strict, id);
      }
      assert Member(ps[0], test, id) == v && Found(ps[0], hit, n, strict, id) == v;
    case Not(x) => SettingWorks(x, !v, test, hit, n, strict, id);
  }

  lemma SetInAnd<L(!new)>(bs: seq<Branch<L>>, v: bool, test: (L, nat) -> bool, id: nat, i: nat)
    requires ReadOnce(And(bs)) && Set(And(bs), v, test, id) && i < |bs|
    ensures Set(bs[i].tree, v, test, id)
  {
    forall l | HasLeaf(bs[i].tree, l) ensures test(l, id) == Setting(bs[i].tree, v, l) {
      assert HasLeaf(And(bs), l);
      if Setting(And(bs), v, l) {
        var j :| 0 <= j < |bs| && HasLeaf(bs[j].tree, l) && Setting(bs[j].tree, v, l);
        assert i != j ==> Disjoint(bs[i].tree, bs[j].tree);
      }
    }
  }

  lemma SetInOr<L(!new)>(ps: seq<Tree<L>>, v: bool, test: (L, nat) -> bool, id: nat, i: nat)
    requires ReadOnce(Or(ps)) && Set(Or(ps), v, test, id) && i < |ps|
    ensures Set(ps[i], v, test, id)
  {
    forall l | HasLeaf(ps[i], l) ensures test(l, id) == Setting(ps[i], v, l) {
      assert HasLeaf(Or(ps), l);
      if Setting(Or(ps), v, l) {
        var j :| 0 <= j < |ps| && HasLeaf(ps[j], l) && Setting(ps[j], v, l);
        assert i != j ==> Disjoint(ps[i], ps[j]);
      }
    }
  }

  /** Branch i lets the scan of the AND go wrong. */
  ghost predicate WeakBranch<L>(bs: seq<Branch<L>>, wide: L -> bool, strict: bool, even: bool, i: nat)
    requires i < |bs|
  {
    if Taken(i, bs[i].selectivity, strict) then !WidensOnly(bs[i].tree, wide, strict, even) else !even
  }

  ghost function WeakIn<L>(bs: seq<Branch<L>>, wide: L -> bool, strict: bool, even: bool): (w: nat)
    requires !WidensOnly(And(bs), wide, strict, even)
    ensures w < |bs| && WeakBranch(bs, wide, strict, even, w)
  {
    assert exists w :: 0 <= w < |bs| && WeakBranch(bs, wide, strict, even, w) by {
      if forall w | 0 <= w < |bs| :: !WeakBranch(bs, wide, strict, even, w) {
        forall i | 0 <= i < |bs|
          ensures if Taken(i, bs[i].selectivity, strict) then WidensOnly(bs[i].tree, wide, strict, even) else even
        {
          assert !WeakBranch(bs, wide, strict, even, i);
        }
        assert WidensOnly(And(bs), wide, strict, even);
      }
    }
    var w :| 0 <= w < |bs| && WeakBranch(bs, wide, strict, even, w);
    w
  }

  ghost function WeakPart<L>(ps: seq<Tree<L>>, wide: L -> bool, strict: bool, even: bool): (w: nat)
    requires !WidensOnly(Or(ps), wide, strict, even)
    ensures w < |ps| && !WidensOnly(ps[w], wide, strict, even)
  {
    var w :| 0 <= w < |ps| && !WidensOnly(ps[w], wide, strict, even);
    w
  }

  /** The value of leaf l, in the test or in the answer, in an assignment on which the scan goes
      wrong: one weak part does, and the rest leave the decision to it. */
  ghost predicate Failing<L(!new)>(t: Tree<L>, wide: L -> bool, strict: bool, even: bool, answer: bool, l: L)
    requires !WidensOnly(t, wide, strict, even)
  {
    match t
    case Leaf(_) => answer
    case And(bs) =>
      var w := WeakIn(bs, wide, strict, even);
      if HasLeaf(bs[w].tree, l) then
        if Taken(w, bs[w].selectivity, strict) then Failing(bs[w].tree, wide, strict, even, answer, l) else Setting(bs[w].tree, false, l)
      else exists i :: 0 <= i < |bs| && HasLeaf(bs[i].tree, l) && Setting(bs[i].tree, true, l)
    case Or(ps) =>
      var w := WeakPart(ps, wide, strict, even);
      if HasLeaf(ps[w], l) then Failing(ps[w], wide, strict, even, answer, l)
      else exists i :: 0 <= i < |ps| && HasLeaf(ps[i], l) && Setting(ps[i], false, l)
    case Not(x) => Failing(x, wide, strict, !even, answer, l)
  }

  ghost predicate Fails<L(!new)>(t: Tree<L>, wide: L -> bool, strict: bool, even: bool, answer: bool, test: (L, nat) -> bool, id: nat)
    requires !WidensOnly(t, wide, strict, even)
  {
    forall l | HasLeaf(t, l) :: test(l, id) == Failing(t, wide, strict, even, answer, l)
  }

  lemma FailingInAnd<L(!new)>(bs: seq<Branch<L>>, wide: L -> bool, strict: bool, even: bool, answer: bool, test: (L, nat) -> bool, id: nat, i: nat)
    requires ReadOnce(And(bs)) && !WidensOnly(And(bs), wide, strict, even) && i < |bs|
    requires Fails(And(bs), wide, strict, even, answer, test, id)
    ensures var w := WeakIn(bs, wide, strict, even);
      if i != w then Set(bs[i].tree, true, test, id)
      else if Taken(w, bs[w].selectivity, strict) then Fails(bs[w].tree, wide, strict, even, answer, test, id)
      else Set(bs[w].tree, false, test, id)
  {
    var w := WeakIn(bs, wide, strict, even);
    forall l | HasLeaf(bs[i].tree, l)
      ensures i != w ==> test(l, id) == Setting(bs[i].tree, true, l)
      ensures i == w && Taken(w, bs[w].selectivity, strict) ==> test(l, id) == Failing(bs[w].tree, wide, strict, even, answer, l)
      ensures i == w && !Taken(w, bs[w].selectivity, strict) ==> test(l, id) == Setting(bs[w].tree, false, l)
    {
      assert HasLeaf(And(bs), l);
      if i != w {
        assert Disjoint(bs[i].tree, bs[w].tree);
        assert forall j | 0 <= j < |bs| && i != j :: Disjoint(bs[i].tree, bs[j].tree);
      }
    }
  }

  lemma FailingInOr<L(!new)>(ps: seq<Tree<L>>, wide: L -> bool, strict: bool, even: bool, answer: bool, test: (L, nat) -> bool, id: nat, i: nat)
    requires ReadOnce(Or(ps)) && !WidensOnly(Or(ps), wide, strict, even) && i < |ps|
    requires Fails(Or(ps), wide, strict, even, answer, test, id)
    ensures var w := WeakPart(ps, wide, strict, even);
      if i != w then Set(ps[i], false, test, id) else Fails(ps[w], wide, strict, even, answer, test, id)
  {
    var w := WeakPart(ps, wide, strict, even);
    forall l | HasLeaf(ps[i], l)
      ensures test(l, id) == if i != w then Setting(ps[i], false, l) else Failing(ps[w], wide, strict, even, answer, l)
    {
      assert HasLeaf(Or(ps), l);
      if i != w {
        assert Disjoint(ps[i], ps[w]);
        assert forall j | 0 <= j < |ps| && i != j :: Disjoint(ps[i], ps[j]);
      }
    }
  }

  /** The scan loses the id, under an even number of NOTs, or finds it although it is not a member. */
  lemma {:induction false} FailingWorks<L(!new)>(t: Tree<L>, wide: L -> bool, test: (L, nat) -> bool, hit: (L, nat) -> bool,
                                         n: nat, strict: bool, id: nat, even: bool)
    requires Proper(t) && ReadOnce(t) && id < n && !WidensOnly(t, wide, strict, even)
    requires Fails(t, wide, strict, even, false, test, id) && Fails(t, wide, strict, even, true, hit, id)
    ensures Member(t, test, id) == even && Found(t, hit, n, strict, id) == !even
    decreases t
  {
    match t
    case Leaf(l) => assert HasLeaf(t, l);
    case And(bs) =>
      var w := WeakIn(bs, wide, strict, even);
      forall i | 0 <= i < |bs| && i != w ensures Member(bs[i].tree, test, id) && Found(bs[i].tree, hit, n, strict, id) {
        FailingInAnd(bs, wide, strict, even, false, test, id, i);
        FailingInAnd(bs, wide, strict, even, true, hit, id, i);
        SettingWorks(bs[i].tree, true, test, hit, n, strict, id);
      }
      FailingInAnd(bs, wide, strict, even, false, test, id, w);
      FailingInAnd(bs, wide, strict, even, true, hit, id, w);
      if Taken(w, bs[w].selectivity, strict) {
        FailingWorks(bs[w].tree, wide, test, hit, n, strict, id, even);
      } else {
        SettingWorks(bs[w].tree, false, test, hit, n, strict, id);
      }
    case Or(ps) =>
      var w := WeakPart(ps, wide, strict, even);
      forall i | 0 <= i < |ps| && i != w ensures !Member(ps[i], test, id) && !Found(ps[i], hit, n, strict, id) {
        FailingInOr(ps, wide, strict, even, false, test, id, i);
        FailingInOr(ps, wide, strict, even, true, hit, id, i);
        SettingWorks(ps[i], false, test, hit, n, strict, id);
      }
      FailingInOr(ps, wide, strict, even, false, test, id, w);
      FailingInOr(ps, wide, strict, even, true, hit, id, w);
      FailingWorks(ps[w], wide, test, hit, n, strict, id, even);
    case Not(x) => FailingWorks(x, wide, test, hit, n, strict, id, !even);
  }

  /** The two assignments differ only in wide leaves. */
  lemma {:induction false} FailingCompatible<L(!new)>(t: Tree<L>, wide: L -> bool, strict: bool, even: bool, l: L)
    requires !WidensOnly(t, wide, strict, even) && HasLeaf(t, l)
    ensures Failing(t, wide, strict, even, false, l) ==> Failing(t, wide, strict, even, true, l)
    ensures !wide(l) ==> Failing(t, wide, strict, even, false, l) == Failing(t, wide, strict, even, true, l)
    decreases t
  {
    match t
    case Leaf(_) =>
    case And(bs) =>
      var w := WeakIn(bs, wide, strict, even);
      if HasLeaf(bs[w].tree, l) && Taken(w, bs[w].selectivity, strict) {
        FailingCompatible(bs[w].tree, wide, strict, even, l);
      }
    case Or(ps) =>
      var w := WeakPart(ps, wide, strict, even);
      if HasLeaf(ps[w], l) {
        FailingCompatible(ps[w], wide, strict, even, l);
      }
    case Not(x) => FailingCompatible(x, wide, strict, !even, l);
  }

  /** An assignment and answers on which the scan goes wrong. */
  lemma FailingAnswers<L(!new)>(t: Tree<L>, wide: L -> bool, n: nat, strict: bool, id: nat, even: bool)
    returns (test: (L, nat) -> bool, hit: (L, nat) -> bool)
    requires Proper(t) && ReadOnce(t) && id < n && !WidensOnly(t, wide, strict, even)
    ensures Compatible(wide, test, hit, id) && Member(t, test, id) == even && Found(t, hit, n, strict, id) == !even
  {
    test := (l: L, _: nat) => HasLeaf(t, l) && Failing(t, wide, strict, even, false, l);
    hit := (l: L, _: nat) => HasLeaf(t, l) && Failing(t, wide, strict, even, true, l);
    forall l: L ensures (test(l, id) ==> hit(l, id)) && (!wide(l) ==> hit(l, id) == test(l, id)) {
      if HasLeaf(t, l) {
        FailingCompatible(t, wide, strict, even, l);
      }
    }
    FailingWorks(t, wide, test, hit, n, strict, id, even);
  }

  /** A scan never loses a member, whatever the leaves test and answer, if and only if wide leaves and
      skipped branches occur only under an even number of NOTs. */
  lemma NeverLosesIff<L(!new)>(t: Tree<L>, wide: L -> bool, n: nat, strict: bool, id: nat)
    requires Proper(t) && ReadOnce(t) && id < n
    ensures WidensOnly(t, wide, strict, true) <==>
      forall test, hit | Compatible(wide, test, hit, id) :: Member(t, test, id) ==> Found(t, hit, n, strict, id)
  {
    if WidensOnly(t, wide, strict, true) {
      forall test, hit | Compatible(wide, test, hit, id) && Member(t, test, id) ensures Found(t, hit, n, strict, id) {
        ScanBounds(t, wide, test, hit, n, strict, id, true);
      }
    } else {
      var test, hit := FailingAnswers(t, wide, n, strict, id, true);
    }
  }

  /** And it never finds anything but members if and only if they occur only under an odd number. */
  lemma NeverAddsIff<L(!new)>(t: Tree<L>, wide: L -> bool, n: nat, strict: bool, id: nat)
    requires Proper(t) && ReadOnce(t) && id < n
    ensures WidensOnly(t, wide, strict, false) <==>
      forall test, hit | Compatible(wide, test, hit, id) :: Found(t, hit, n, strict, id) ==> Member(t, test, id)
  {
    if WidensOnly(t, wide, strict, false) {
      forall test, hit | Compatible(wide, test, hit, id) && Found(t, hit, n, strict, id) ensures Member(t, test, id) {
        ScanBounds(t, wide, test, hit, n, strict, id, false);
      }
    } else {
      var test, hit := FailingAnswers(t, wide, n, strict, id, false);
    }
  }

  /** NOT (a AND b) where b is skipped loses every id with a but not b. The in-memory check of NOT is
      this very scan, so it rejects them too. */
  lemma NotLosesMembers<L>(a: L, b: L, test: (L, nat) -> bool, n: nat, id: nat)
    requires id < n && test(a, id) && !test(b, id)
    ensures var t := Not(And([Branch(Leaf(a), 0.05), Branch(Leaf(b), 0.5)]));
      Proper(t) && Member(t, test, id) && !Found(t, test, n, false, id)
  {
    var bs := [Branch(Leaf(a), 0.05), Branch(Leaf(b), 0.5)];
    assert !Member(bs[1].tree, test, id);
    assert Found(bs[0].tree, test, n, false, id) && !Taken(1, bs[1].selectivity, false);
    assert Found(And(bs), test, n, false, id);
  }

  /** A leaf for string equality: the vectors with the string, and those that its index answers with,
      which are all with a string that starts with it. */
  ghost function EqualTest(m: map<nat, string>): (string, nat) -> bool {
    (q, id) => id in m && m[id] == q
  }

  ghost function PrefixAnswer(m: map<nat, string>): (string, nat) -> bool {
    (q, id) => id in m && q <= m[id]
  }

  /** NOT over it loses, even in a strict scan, exactly the vectors whose string goes on behind the
      query. */
  lemma NotEqualLosesIff(m: map<nat, string>, q: string, n: nat, id: nat)
    requires id < n
    ensures Compatible((_: string) => true, EqualTest(m), PrefixAnswer(m), id)
    ensures Member(Not(Leaf(q)), EqualTest(m), id) && !Found(Not(Leaf(q)), PrefixAnswer(m), n, true, id) <==> id in m && q < m[id]
  {
    var t := Not(Leaf(q));
    assert Member(t, EqualTest(m), id) <==> !(id in m && m[id] == q);
    assert Found(t, PrefixAnswer(m), n, true, id) <==> !(id in m && q <= m[id]);
  }
}
