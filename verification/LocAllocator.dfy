/** The location allocator of the SSD index (src/ssd_index.cpp): which record slot on disk holds
    which id. A slot is free, reserved or occupied; pages are runs of `npp` slots. */
module LocAllocator {

  import opened Lists
  import opened Remainders

  /** The marks that loc2id uses for a free and for a reserved slot. */
  const INVALID: nat := 0xFFFF_FFFF
  const ALLOCATED: nat := 0xFFFF_FFFE

  const INDEX_SIZE_FACTOR := 2

  type Slots = seq<nat>

  // ----- pages -----

  /** The first slot of a page; pages count from one, page zero is metadata. */
  function Start(npp: nat, page: nat): nat {
    if page == 0 then 0 else (page - 1) * npp
  }

  function SectorOf(npp: nat, loc: nat): nat
    requires npp > 0
  {
    1 + loc / npp
  }

  ghost predicate OnPage(npp: nat, page: nat, loc: nat) {
    page >= 1 && Start(npp, page) <= loc < Start(npp, page) + npp
  }

  /** The page number of a slot and the first slot of a page are inverse. */
  lemma PageIs(npp: nat, page: nat, loc: nat)
    requires npp > 0
    ensures OnPage(npp, page, loc) <==> page == SectorOf(npp, loc)
  {
    var q := loc / npp;
    assert q * npp <= loc < q * npp + npp;
    if OnPage(npp, page, loc) {
      SameRun(npp, page - 1, q, loc);
    }
  }

  lemma OnePage(npp: nat, p: nat, q: nat, loc: nat)
    requires OnPage(npp, p, loc) && OnPage(npp, q, loc)
    ensures p == q
  {
    PageIs(npp, p, loc);
    PageIs(npp, q, loc);
  }

  ghost predicate PageIn(npp: nat, page: nat, tail: nat) {
    page >= 1 && Start(npp, page) + npp <= tail
  }

  /** Every slot of the page is free. */
  ghost predicate PageFree(npp: nat, s: Slots, page: nat) {
    forall l: nat | OnPage(npp, page, l) :: l < |s| && s[l] == INVALID
  }

  /** No slot of the page is free. */
  ghost predicate PageFull(npp: nat, s: Slots, page: nat) {
    forall l: nat | OnPage(npp, page, l) :: l < |s| && s[l] != INVALID
  }

  // ----- what an allocation has done so far -----

  /** s is s0 with exactly the slots `ret` reserved, all of which were free and before the tail. */
  ghost predicate Reserved(s0: Slots, s: Slots, ret: seq<nat>, tail: nat) {
    && tail <= |s0| == |s| && Distinct(ret)
    && (forall l | l in ret :: l < tail && s0[l] == INVALID)
    && (forall l | 0 <= l < |s0| :: s[l] == if l in ret then ALLOCATED else s0[l])
  }

  lemma ReserveOne(s0: Slots, s: Slots, ret: seq<nat>, tail: nat, l: nat)
    requires Reserved(s0, s, ret, tail) && l < tail && s[l] == INVALID
    ensures Reserved(s0, s[l := ALLOCATED], ret + [l], tail)
    ensures s0[l] == INVALID && l !in ret
  {
  }

  /** Queued pages are distinct, before the tail and wholly free. */
  ghost predicate QueueOk(npp: nat, s: Slots, tail: nat, queue: seq<nat>) {
    Distinct(queue) && forall p | p in queue :: PageIn(npp, p, tail) && PageFree(npp, s, p)
  }

  /** Slots taken so far lie on pages that have no free slot left. */
  ghost predicate FilledUp(npp: nat, s: Slots, ret: seq<nat>) {
    forall l, p | l in ret && OnPage(npp, p, l) :: PageFull(npp, s, p)
  }

  /** The page holds something before the tail. */
  ghost predicate HoldsSome(npp: nat, s0: Slots, tail: nat, page: nat)
    requires tail <= |s0|
  {
    exists l: nat :: OnPage(npp, page, l) && l < tail && s0[l] != INVALID
  }

  ghost predicate Gets(npp: nat, ret: seq<nat>, page: nat) {
    exists l: nat :: l in ret && OnPage(npp, page, l)
  }

  /** The pages to read before they are written are those that get a slot and held something. */
  ghost predicate NeedIs(npp: nat, s0: Slots, tail: nat, ret: seq<nat>, need0: set<nat>, need: set<nat>)
    requires tail <= |s0|
  {
    forall p :: p in need <==> p in need0 || (Gets(npp, ret, p) && HoldsSome(npp, s0, tail, p))
  }

  /** The number of free slots between a and b. */
  function Holes(s: Slots, a: nat, b: nat): (n: nat)
    requires a <= b <= |s|
    ensures n <= b - a
    ensures n == 0 <==> forall l | a <= l < b :: s[l] != INVALID
    ensures n == b - a <==> forall l | a <= l < b :: s[l] == INVALID
    decreases b
  {
    if a == b then 0 else Holes(s, a, b - 1) + if s[b - 1] == INVALID then 1 else 0
  }

  /** Slots outside of a page keep what they hold when the new slots all lie on it. */
  lemma OffPage(npp: nat, s0: Slots, s: Slots, t: Slots, ret: seq<nat>, out: seq<nat>, tail: nat, page: nat)
    requires Reserved(s0, s, ret, tail) && Reserved(s0, t, out, tail) && |ret| <= |out| && ret == out[..|ret|]
    requires forall l | l in out[|ret|..] :: OnPage(npp, page, l)
    ensures forall l: nat | l < |s| && !OnPage(npp, page, l) :: t[l] == s[l]
    ensures forall l | l in out :: l in ret || OnPage(npp, page, l)
  {
    assert forall l | l in out :: l in ret || l in out[|ret|..] by {
      assert out == out[..|ret|] + out[|ret|..];
    }
    assert forall l | l in ret :: l in out;
  }

  /** Taking slots of one page leaves the other pages of the queue free. */
  lemma QueueKept(npp: nat, s: Slots, t: Slots, tail: nat, queue: seq<nat>, page: nat)
    requires QueueOk(npp, s, tail, queue) && page !in queue && |t| == |s|
    requires forall l: nat | l < |s| && !OnPage(npp, page, l) :: t[l] == s[l]
    ensures QueueOk(npp, t, tail, queue)
  {
    forall p, l: nat | p in queue && OnPage(npp, p, l) ensures l < |t| && t[l] == INVALID {
      assert !OnPage(npp, page, l) by {
        if OnPage(npp, page, l) {
          OnePage(npp, p, page, l);
        }
      }
    }
  }

  /** A page that is full, and pages that were, stay full. */
  lemma FilledKept(npp: nat, s: Slots, t: Slots, ret: seq<nat>, out: seq<nat>, page: nat)
    requires FilledUp(npp, s, ret) && |t| == |s| && PageFull(npp, t, page)
    requires forall l: nat | l < |s| && !OnPage(npp, page, l) :: t[l] == s[l]
    requires forall l | l in out :: l in ret || OnPage(npp, page, l)
    ensures FilledUp(npp, t, out)
  {
    forall l: nat, p | l in out && OnPage(npp, p, l) ensures PageFull(npp, t, p) {
      if p != page {
        if OnPage(npp, page, l) {
          OnePage(npp, p, page, l);
        }
        assert PageFull(npp, s, p);
        OtherPageFull(npp, s, t, page, p);
      }
    }
  }

  lemma OtherPageFull(npp: nat, s: Slots, t: Slots, page: nat, p: nat)
    requires p != page && PageFull(npp, s, p) && |t| == |s|
    requires forall l: nat | l < |s| && !OnPage(npp, page, l) :: t[l] == s[l]
    ensures PageFull(npp, t, p)
  {
    forall l: nat | OnPage(npp, p, l) ensures l < |t| && t[l] != INVALID {
      if OnPage(npp, page, l) {
        OnePage(npp, p, page, l);
      }
    }
  }

  /** Slots of wholly free pages need no page to be read. */
  lemma NeedKeptFree(npp: nat, s0: Slots, tail: nat, ret: seq<nat>, out: seq<nat>, page: nat, need0: set<nat>, need: set<nat>)
    requires tail <= |s0| && NeedIs(npp, s0, tail, ret, need0, need) && PageFree(npp, s0, page)
    requires forall l | l in ret :: l in out
    requires forall l | l in out :: l in ret || OnPage(npp, page, l)
    ensures NeedIs(npp, s0, tail, out, need0, need)
  {
    forall p ensures Gets(npp, out, p) && HoldsSome(npp, s0, tail, p) <==> Gets(npp, ret, p) && HoldsSome(npp, s0, tail, p) {
      if Gets(npp, out, p) && HoldsSome(npp, s0, tail, p) {
        var l: nat :| l in out && OnPage(npp, p, l);
        if OnPage(npp, page, l) {
          OnePage(npp, p, page, l);
        }
      }
    }
  }

  /** Slots of a page that held something: that page, and no other, is added. */
  lemma NeedAdded(npp: nat, s0: Slots, tail: nat, ret: seq<nat>, out: seq<nat>, page: nat, need0: set<nat>, need: set<nat>)
    requires tail <= |s0| && NeedIs(npp, s0, tail, ret, need0, need) && HoldsSome(npp, s0, tail, page) && Gets(npp, out, page)
    requires forall l | l in ret :: l in out
    requires forall l | l in out :: l in ret || OnPage(npp, page, l)
    ensures NeedIs(npp, s0, tail, out, need0, need + {page})
  {
    forall p ensures p in need + {page} <==> p in need0 || (Gets(npp, out, p) && HoldsSome(npp, s0, tail, p)) {
      if Gets(npp, out, p) && p != page {
        var l: nat :| l in out && OnPage(npp, p, l);
        if OnPage(npp, page, l) {
          OnePage(npp, p, page, l);
        }
        assert Gets(npp, ret, p);
      }
      if Gets(npp, ret, p) {
        var l: nat :| l in ret && OnPage(npp, p, l);
        assert Gets(npp, out, p);
      }
    }
  }

  /** One page of the queue is used up. */
  lemma PageTaken(npp: nat, s0: Slots, s: Slots, t: Slots, ret: seq<nat>, out: seq<nat>, tail: nat, page: nat, queue: seq<nat>, need0: set<nat>, need: set<nat>)
    requires Reserved(s0, s, ret, tail) && Reserved(s0, t, out, tail) && |ret| <= |out| && ret == out[..|ret|]
    requires forall l | l in out[|ret|..] :: OnPage(npp, page, l)
    requires QueueOk(npp, s, tail, [page] + queue) && PageFree(npp, s0, page) && NeedIs(npp, s0, tail, ret, need0, need)
    ensures QueueOk(npp, t, tail, queue) && NeedIs(npp, s0, tail, out, need0, need)
    ensures forall l: nat | l < |s| && !OnPage(npp, page, l) :: t[l] == s[l]
    ensures forall l | l in out :: l in ret || OnPage(npp, page, l)
  {
    OffPage(npp, s0, s, t, ret, out, tail, page);
    var all := [page] + queue;
    assert forall i | 0 <= i < |queue| :: queue[i] == all[i + 1];
    assert page == all[0];
    QueueKept(npp, s, t, tail, queue, page);
    assert forall l | l in ret :: l in out;
    NeedKeptFree(npp, s0, tail, ret, out, page, need0, need);
  }

  /** At least half of the slots are free, rounded up. */
  ghost predicate HalfFree(npp: nat, s: Slots, page: nat) {
    PageIn(npp, page, |s|) && 2 * Holes(s, Start(npp, page), Start(npp, page) + npp) >= npp
  }

  /** A page with free slots has none of the slots taken so far: it is as it was. */
  lemma Untouched(npp: nat, s0: Slots, s: Slots, ret: seq<nat>, tail: nat, page: nat, cnt: nat)
    requires npp > 0 && Reserved(s0, s, ret, tail) && FilledUp(npp, s, ret) && PageIn(npp, page, tail)
    requires cnt == Holes(s, Start(npp, page), Start(npp, page) + npp) && cnt >= (npp + 1) / 2
    ensures !Gets(npp, ret, page) && HalfFree(npp, s0, page)
    ensures (cnt == npp <==> PageFree(npp, s0, page)) && (cnt < npp <==> HoldsSome(npp, s0, tail, page))
  {
    var st := Start(npp, page);
    var h: nat :| st <= h < st + npp && s[h] == INVALID;
    assert OnPage(npp, page, h);
    if Gets(npp, ret, page) {
      GetsFull(npp, s, ret, page);
      assert false;
    }
    assert forall l: nat | OnPage(npp, page, l) :: s0[l] == s[l];
    SameHoles(s0, s, st, st + npp);
    if cnt < npp {
      var l: nat :| st <= l < st + npp && s[l] != INVALID;
      assert OnPage(npp, page, l);
    }
  }

  lemma GetsFull(npp: nat, s: Slots, ret: seq<nat>, page: nat)
    requires FilledUp(npp, s, ret) && Gets(npp, ret, page)
    ensures PageFull(npp, s, page)
  {
    var l: nat :| l in ret && OnPage(npp, page, l);
  }

  lemma {:induction false} SameHoles(s: Slots, t: Slots, a: nat, b: nat)
    requires a <= b <= |s| == |t| && forall l | a <= l < b :: s[l] == t[l]
    ensures Holes(s, a, b) == Holes(t, a, b)
    decreases b
  {
    if a < b {
      SameHoles(s, t, a, b - 1);
    }
  }

  /** One hint page is used. */
  lemma HintTaken(npp: nat, s0: Slots, s: Slots, t: Slots, ret: seq<nat>, out: seq<nat>, tail: nat, page: nat, cnt: nat, base: set<nat>, need: set<nat>)
    requires npp > 0 && Reserved(s0, s, ret, tail) && Reserved(s0, t, out, tail) && |ret| < |out| && ret == out[..|ret|]
    requires forall l | l in out[|ret|..] :: OnPage(npp, page, l)
    requires (cnt == npp <==> PageFree(npp, s0, page)) && (cnt < npp <==> HoldsSome(npp, s0, tail, page)) && cnt <= npp
    requires exists was :: NeedIs(npp, s0, tail, ret, base, was) && need == if cnt < npp then was + {page} else was
    ensures NeedIs(npp, s0, tail, out, base, need)
    ensures forall l: nat | l < |s| && !OnPage(npp, page, l) :: t[l] == s[l]
    ensures forall l | l in out :: l in ret || OnPage(npp, page, l)
  {
    OffPage(npp, s0, s, t, ret, out, tail, page);
    assert forall l | l in ret :: l in out;
    var was :| NeedIs(npp, s0, tail, ret, base, was) && need == if cnt < npp then was + {page} else was;
    if cnt < npp {
      assert out[|ret|..][0] == out[|ret|];
      assert out[|ret|] in out && OnPage(npp, page, out[|ret|]);
      NeedAdded(npp, s0, tail, ret, out, page, base, was);
    } else {
      NeedKeptFree(npp, s0, tail, ret, out, page, base, was);
    }
  }

  // ----- that what can be used is used -----

  /** Of the first i hint pages, those that were at least half free have no free slot left. */
  ghost predicate HintsFull(npp: nat, s0: Slots, s: Slots, hints: seq<nat>, i: nat) {
    i <= |hints| && forall j | 0 <= j < i && HalfFree(npp, s0, hints[j]) :: PageFull(npp, s, hints[j])
  }

  /** A page that was half free and is not any more has been used up. */
  lemma UsedUp(npp: nat, s0: Slots, s: Slots, ret: seq<nat>, tail: nat, page: nat)
    requires npp > 0 && Reserved(s0, s, ret, tail) && FilledUp(npp, s, ret) && PageIn(npp, page, tail)
    requires HalfFree(npp, s0, page) && Holes(s, Start(npp, page), Start(npp, page) + npp) < (npp + 1) / 2
    ensures PageFull(npp, s, page)
  {
    var st := Start(npp, page);
    if Gets(npp, ret, page) {
      GetsFull(npp, s, ret, page);
    } else {
      forall l | st <= l < st + npp ensures s[l] == s0[l] {
        assert OnPage(npp, page, l);
      }
      SameHoles(s0, s, st, st + npp);
      assert false;
    }
  }

  lemma HintSkipped(npp: nat, s0: Slots, s: Slots, hints: seq<nat>, i: nat, ret: seq<nat>, tail: nat)
    requires npp > 0 && Reserved(s0, s, ret, tail) && FilledUp(npp, s, ret) && HintsFull(npp, s0, s, hints, i)
    requires i < |hints| && PageIn(npp, hints[i], tail) && Holes(s, Start(npp, hints[i]), Start(npp, hints[i]) + npp) < (npp + 1) / 2
    ensures HintsFull(npp, s0, s, hints, i + 1)
  {
    if HalfFree(npp, s0, hints[i]) {
      UsedUp(npp, s0, s, ret, tail, hints[i]);
    }
  }

  lemma HintUsed(npp: nat, s0: Slots, s: Slots, t: Slots, hints: seq<nat>, i: nat)
    requires HintsFull(npp, s0, s, hints, i) && i < |hints| && |t| == |s| && PageFull(npp, t, hints[i])
    requires forall l: nat | l < |s| && !OnPage(npp, hints[i], l) :: t[l] == s[l]
    ensures HintsFull(npp, s0, t, hints, i + 1)
  {
    forall j | 0 <= j < i + 1 && HalfFree(npp, s0, hints[j]) ensures PageFull(npp, t, hints[j]) {
      if hints[j] != hints[i] {
        assert PageFull(npp, s, hints[j]);
        OtherPageFull(npp, s, t, hints[i], hints[j]);
      }
    }
  }

  /** The slots come from the first k pages of the queue, some from each. */
  ghost predicate TakenFrom(npp: nat, queue: seq<nat>, k: nat, ret: seq<nat>) {
    && k <= |queue| && (forall j | 0 <= j < k :: Gets(npp, ret, queue[j]))
    && forall l | l in ret :: OnSome(npp, queue, k, l)
  }

  ghost predicate OnSome(npp: nat, queue: seq<nat>, k: nat, l: nat)
    requires k <= |queue|
  {
    exists j :: 0 <= j < k && OnPage(npp, queue[j], l)
  }

  ghost predicate FullUpTo(npp: nat, s: Slots, queue: seq<nat>, k: nat) {
    k <= |queue| && forall j | 0 <= j < k :: PageFull(npp, s, queue[j])
  }

  lemma TakenMore(npp: nat, queue: seq<nat>, k: nat, ret: seq<nat>, out: seq<nat>)
    requires TakenFrom(npp, queue, k, ret) && k < |queue| && |ret| < |out| && ret == out[..|ret|]
    requires forall l | l in out[|ret|..] :: OnPage(npp, queue[k], l)
    ensures TakenFrom(npp, queue, k + 1, out)
  {
    assert out == ret + out[|ret|..];
    assert out[|ret|] == out[|ret|..][0];
    forall j | 0 <= j < k + 1 ensures Gets(npp, out, queue[j]) {
      if j < k {
        assert Gets(npp, ret, queue[j]);
        var l: nat :| l in ret && OnPage(npp, queue[j], l);
        assert l in out;
      } else {
        assert out[|ret|] in out;
      }
    }
    forall l | l in out ensures OnSome(npp, queue, k + 1, l) {
      if l in ret {
        assert OnSome(npp, queue, k, l);
        var j :| 0 <= j < k && OnPage(npp, queue[j], l);
      }
    }
  }

  /** Pages that were full stay full when the slots taken lie elsewhere. */
  lemma FullStays(npp: nat, s: Slots, t: Slots, queue: seq<nat>, k: nat)
    requires FullUpTo(npp, s, queue, k) && k < |queue| && Distinct(queue) && |t| == |s|
    requires forall l: nat | l < |s| && !OnPage(npp, queue[k], l) :: t[l] == s[l]
    ensures FullUpTo(npp, t, queue, k) && (PageFull(npp, t, queue[k]) ==> FullUpTo(npp, t, queue, k + 1))
  {
    forall j | 0 <= j < k ensures PageFull(npp, t, queue[j]) {
      assert PageFull(npp, s, queue[j]) && queue[j] != queue[k];
      OtherPageFull(npp, s, t, queue[k], queue[j]);
    }
  }

  /** Where the slots of an allocation come from: from queued pages; with the queue empty, from hint
      pages that were half free or from beyond the tail. */
  ghost predicate ComesFrom(npp: nat, s0: Slots, tail: nat, queue: seq<nat>, k: nat, hints: seq<nat>, l: nat)
    requires k <= |queue|
  {
    OnSome(npp, queue, k, l) || (k == |queue| && (l >= tail || exists p :: p in hints && OnPage(npp, p, l) && HalfFree(npp, s0, p)))
  }

  /** The queued pages that were used: k of them, all but the last used up. The tail moves only when no
      half-free hint page has a slot left. */
  ghost predicate UsesAll(npp: nat, s0: Slots, tail0: nat, queue: seq<nat>, hints: seq<nat>, s: Slots, tail: nat, k: nat, ret: seq<nat>) {
    && k <= |queue| && (forall j | 0 <= j < k :: Gets(npp, ret, queue[j])) && (k > 0 ==> FullUpTo(npp, s, queue, k - 1))
    && (forall l | l in ret :: ComesFrom(npp, s0, tail0, queue, k, hints, l))
    && (tail > tail0 ==> HintsFull(npp, s0, s, hints, |hints|))
  }

  lemma QueueSufficed(npp: nat, s0: Slots, tail: nat, queue: seq<nat>, hints: seq<nat>, s: Slots, k: nat, ret: seq<nat>)
    requires TakenFrom(npp, queue, k, ret) && (k > 0 ==> FullUpTo(npp, s, queue, k - 1))
    ensures UsesAll(npp, s0, tail, queue, hints, s, tail, k, ret)
  {
  }

  /** After the queue, slots of hint pages and of the tail were added. */
  lemma MoreWasUsed(npp: nat, s0: Slots, tail0: nat, queue: seq<nat>, hints: seq<nat>, s: Slots, t: Slots, tail: nat, ret: seq<nat>, out: seq<nat>)
    requires TakenFrom(npp, queue, |queue|, ret) && FullUpTo(npp, s, queue, |queue|) && tail0 <= |s| && tail0 <= |t|
    requires forall l: nat | l < tail0 && s[l] != INVALID :: t[l] != INVALID
    requires forall p | p in queue :: PageIn(npp, p, tail0)
    requires (forall l | l in ret :: l in out) && forall l | l in out && l !in ret :: ComesFrom(npp, s0, tail0, queue, |queue|, hints, l)
    requires tail > tail0 ==> HintsFull(npp, s0, t, hints, |hints|)
    ensures UsesAll(npp, s0, tail0, queue, hints, t, tail, |queue|, out)
  {
    forall j | 0 <= j < |queue| ensures Gets(npp, out, queue[j]) && PageFull(npp, t, queue[j]) {
      assert Gets(npp, ret, queue[j]);
      var l: nat :| l in ret && OnPage(npp, queue[j], l);
      assert l in out && queue[j] in queue && PageFull(npp, s, queue[j]);
    }
  }

  /** New slots at the tail leave the pages before it full. */
  lemma HintsStayFull(npp: nat, s0: Slots, s: Slots, t: Slots, tail: nat, hints: seq<nat>)
    requires HintsFull(npp, s0, s, hints, |hints|) && (forall p | p in hints :: PageIn(npp, p, tail)) && tail <= |s| && tail <= |t|
    requires forall l: nat | l < tail && s[l] != INVALID :: t[l] != INVALID
    ensures HintsFull(npp, s0, t, hints, |hints|)
  {
    forall j | 0 <= j < |hints| && HalfFree(npp, s0, hints[j]) ensures PageFull(npp, t, hints[j]) {
      assert hints[j] in hints && PageFull(npp, s, hints[j]);
    }
  }

  /** The length that the table is grown to: one and a half times the slot, rounded down. */
  function Grown(loc: nat): nat {
    3 * loc / 2
  }

  /** The grown table has the slot exactly from slot two on. */
  lemma GrownEnough(loc: nat)
    ensures loc < Grown(loc) <==> loc >= 2
  {
  }

  /** The outcome of an allocation: old slots are reserved or untouched, new ones reserved or free. */
  ghost predicate Allocated(s0: Slots, tail0: nat, s: Slots, tail: nat, ret: seq<nat>) {
    && tail0 <= |s0| && tail0 <= tail <= |s| && Distinct(ret)
    && (forall l | l in ret :: l < tail && (l < tail0 ==> s0[l] == INVALID))
    && (forall l | 0 <= l < tail0 :: s[l] == if l in ret then ALLOCATED else s0[l])
    && (forall l | tail0 <= l < tail :: s[l] == if l in ret then ALLOCATED else INVALID)
  }

  lemma AllocatedMore(s0: Slots, tail0: nat, s: Slots, t: Slots, tail: nat, ret: seq<nat>, taken: bool)
    requires Allocated(s0, tail0, s, tail, ret) && tail < |t| && |s| <= |t|
    requires t[tail] == if taken then ALLOCATED else INVALID
    requires forall l | 0 <= l < |s| && l != tail :: t[l] == s[l]
    ensures Allocated(s0, tail0, t, tail + 1, if taken then ret + [tail] else ret)
  {
    var out := if taken then ret + [tail] else ret;
    assert tail !in ret;
    assert forall l | l != tail :: l in out <==> l in ret;
  }

  lemma RoundedUp(x: nat, n: nat)
    requires n > 0
    ensures x % n != 0 ==> (x + (n - x % n)) % n == 0
  {
    if x % n != 0 {
      var q := x / n;
      assert x + (n - x % n) == (q + 1) * n;
      Remainder(q + 1, n, 0);
    }
  }

  /** How far it is to the next page boundary. */
  ghost function Gap(x: nat, n: nat): (g: nat)
    requires n > 0
    ensures g < n && (g == 0 <==> x % n == 0)
  {
    if x % n == 0 then 0 else n - x % n
  }

  lemma NextGap(x: nat, n: nat)
    requires n > 0 && x % n != 0
    ensures Gap(x + 1, n) == Gap(x, n) - 1
  {
    NextRemainder(x, n);
  }

  /** ret is ret0 followed by slots from `tail` on. */
  ghost predicate Extends(ret0: seq<nat>, ret: seq<nat>, tail: nat) {
    |ret0| <= |ret| && (forall i | 0 <= i < |ret0| :: ret[i] == ret0[i]) && (forall i | |ret0| <= i < |ret| :: ret[i] >= tail)
  }

  lemma ReservedAllocated(s0: Slots, s: Slots, ret: seq<nat>, tail: nat)
    requires Reserved(s0, s, ret, tail)
    ensures Allocated(s0, tail, s, tail, ret)
  {
  }

  /** A page boundary: no page has slots on both sides. */
  lemma PageBeforeTail(npp: nat, tail: nat, loc: nat)
    requires npp > 0 && tail % npp == 0 && loc < tail
    ensures PageIn(npp, SectorOf(npp, loc), tail) && OnPage(npp, SectorOf(npp, loc), loc)
  {
    PageIs(npp, SectorOf(npp, loc), loc);
    var q, k := loc / npp, tail / npp;
    assert tail == k * npp && q * npp <= loc;
    if q >= k {
      MulMonotone(k, q, npp);
      assert false;
    }
    MulMonotone(q + 1, k, npp);
    assert (q + 1) * npp == q * npp + npp;
  }

  /** Slots behind the tail lie on pages that held nothing. */
  lemma NeedKeptTail(npp: nat, s0: Slots, tail: nat, ret0: seq<nat>, ret: seq<nat>, need0: set<nat>, need: set<nat>)
    requires npp > 0 && tail <= |s0| && tail % npp == 0 && NeedIs(npp, s0, tail, ret0, need0, need) && Extends(ret0, ret, tail)
    ensures NeedIs(npp, s0, tail, ret, need0, need)
  {
    assert forall l | l in ret0 :: l in ret by {
      forall l | l in ret0 ensures l in ret {
        var i :| 0 <= i < |ret0| && ret0[i] == l;
        assert ret[i] == l;
      }
    }
    forall p ensures Gets(npp, ret, p) && HoldsSome(npp, s0, tail, p) <==> Gets(npp, ret0, p) && HoldsSome(npp, s0, tail, p) {
      if Gets(npp, ret, p) && HoldsSome(npp, s0, tail, p) {
        var l: nat :| l in ret && OnPage(npp, p, l);
        var m: nat :| OnPage(npp, p, m) && m < tail && s0[m] != INVALID;
        PageBeforeTail(npp, tail, m);
        OnePage(npp, p, SectorOf(npp, m), m);
        var i :| 0 <= i < |ret| && ret[i] == l;
        assert i < |ret0| && ret0[i] == l;
        assert Gets(npp, ret0, p);
      }
    }
  }

  /** A page with an occupied slot is not queued, so it can be queued when that slot is freed. */
  lemma EraseQueue(npp: nat, s: Slots, tail: nat, queue: seq<nat>, loc: nat)
    requires npp > 0 && tail <= |s| && QueueOk(npp, s, tail, queue) && loc < tail && s[loc] != INVALID && tail % npp == 0
    ensures var page, t := SectorOf(npp, loc), s[loc := INVALID];
      && QueueOk(npp, t, tail, queue) && page !in queue
      && (PageFree(npp, t, page) ==> QueueOk(npp, t, tail, queue + [page]))
  {
    PageBeforeTail(npp, tail, loc);
    var page, t := SectorOf(npp, loc), s[loc := INVALID];
    assert page !in queue;
    assert QueueOk(npp, t, tail, queue);
  }

  ghost predicate TailState(s0: Slots, tail0: nat, s: Slots, tail: nat, ret0: seq<nat>, ret: seq<nat>) {
    Extends(ret0, ret, tail0) && Allocated(s0, tail0, s, tail, ret)
  }

  lemma TailStep(s0: Slots, tail0: nat, s: Slots, t: Slots, tail: nat, ret0: seq<nat>, ret: seq<nat>)
    requires TailState(s0, tail0, s, tail, ret0, ret) && tail < |t| && |s| <= |t| && t[tail] == ALLOCATED
    requires forall l | 0 <= l < |s| && l != tail :: t[l] == s[l]
    ensures TailState(s0, tail0, t, tail + 1, ret0, ret + [tail])
  {
    AllocatedMore(s0, tail0, s, t, tail, ret, true);
  }

  // ----- moving records -----

  /** What a slot holds once the new slots are written and the first k of the old ones freed. */
  ghost predicate Moved(s: Slots, t: Slots, olds: seq<nat>, news: seq<nat>, ids: seq<nat>)
    requires |news| <= |ids|
  {
    && |s| == |t|
    && (forall i | 0 <= i < |news| :: news[i] < |t| && t[news[i]] == ids[i])
    && (forall l | 0 <= l < |s| && l !in news :: t[l] == if l in olds then INVALID else s[l])
  }

  /** What erase_and_set_loc asks for: reserved slots to write, occupied ones to free. */
  ghost predicate CanMove(s: Slots, tail: nat, olds: seq<nat>, news: seq<nat>, ids: seq<nat>) {
    && tail <= |s| && |news| <= |ids| && Distinct(olds) && Distinct(news)
    && (forall l | l in news :: l < tail && s[l] == ALLOCATED)
    && (forall l | l in olds :: l < tail && s[l] != INVALID && l !in news)
    && (forall i | 0 <= i < |ids| :: ids[i] < ALLOCATED)
  }

  lemma MovedSet(s: Slots, t: Slots, tail: nat, olds: seq<nat>, news: seq<nat>, ids: seq<nat>, i: nat)
    requires CanMove(s, tail, olds, news, ids) && i < |news| && Moved(s, t, [], news[..i], ids)
    ensures news[i] < |t| && t[news[i]] == ALLOCATED && Moved(s, t[news[i] := ids[i]], [], news[..i + 1], ids)
  {
    var l := news[i];
    assert l in news;
    assert news[..i + 1] == news[..i] + [l];
    assert l !in news[..i];
  }

  lemma MovedErase(s: Slots, t: Slots, tail: nat, olds: seq<nat>, news: seq<nat>, ids: seq<nat>, i: nat)
    requires CanMove(s, tail, olds, news, ids) && i < |olds| && Moved(s, t, olds[..i], news, ids)
    ensures olds[i] < tail && t[olds[i]] != INVALID && Moved(s, t[olds[i] := INVALID], olds[..i + 1], news, ids)
  {
    var l := olds[i];
    assert l in olds;
    assert olds[..i + 1] == olds[..i] + [l];
    assert l !in olds[..i];
    assert forall j | 0 <= j < |news| :: news[j] in news;
  }

  /** Overwriting a reserved slot frees no page and takes no free slot. */
  lemma SetQueue(npp: nat, s: Slots, tail: nat, queue: seq<nat>, loc: nat, id: nat)
    requires QueueOk(npp, s, tail, queue) && loc < |s| && s[loc] != INVALID
    ensures QueueOk(npp, s[loc := id], tail, queue)
  {
  }

  /** The pages queued: those queued before, and those that held an erased slot and are free now. */
  ghost predicate QueueIs(npp: nat, t: Slots, queue0: seq<nat>, queue: seq<nat>, erased: seq<nat>) {
    && queue0 <= queue
    && forall p :: p in queue <==> p in queue0 || (PageFree(npp, t, p) && Gets(npp, erased, p))
  }

  lemma QueueStart(npp: nat, t: Slots, queue: seq<nat>)
    ensures QueueIs(npp, t, queue, queue, [])
  {
  }

  lemma QueueMore(npp: nat, t: Slots, tail: nat, queue0: seq<nat>, queue: seq<nat>, erased: seq<nat>, loc: nat)
    requires npp > 0 && tail % npp == 0 && tail <= |t| && loc < tail && t[loc] != INVALID && QueueIs(npp, t, queue0, queue, erased)
    ensures var u, page := t[loc := INVALID], SectorOf(npp, loc);
      QueueIs(npp, u, queue0, queue + (if PageFree(npp, u, page) then [page] else []), erased + [loc])
  {
    var u, page, now := t[loc := INVALID], SectorOf(npp, loc), erased + [loc];
    PageBeforeTail(npp, tail, loc);
    assert loc in now && Gets(npp, now, page);
    forall p | p != page ensures PageFree(npp, t, p) <==> PageFree(npp, u, p) {
      assert !OnPage(npp, p, loc) by {
        if OnPage(npp, p, loc) {
          OnePage(npp, p, page, loc);
        }
      }
    }
    forall p | p != page ensures Gets(npp, now, p) <==> Gets(npp, erased, p) {
      if Gets(npp, now, p) {
        var l: nat :| l in now && OnPage(npp, p, l);
        assert l != loc by {
          if l == loc {
            OnePage(npp, p, page, loc);
          }
        }
        assert l in erased;
      }
      if Gets(npp, erased, p) {
        var l: nat :| l in erased && OnPage(npp, p, l);
        assert l in now;
      }
    }
    assert !PageFree(npp, t, page);
  }

  // ----- ids and locations -----

  /** The two tables are inverse: each id is at its location, and each occupied slot before the tail
      is where its id is said to be. */
  ghost predicate Linked(id2loc: map<nat, nat>, s: Slots, tail: nat) {
    && tail <= |s|
    && (forall id | id in id2loc :: id < ALLOCATED && id2loc[id] < tail && s[id2loc[id]] == id)
    && (forall l | 0 <= l < tail && s[l] < ALLOCATED :: s[l] in id2loc && id2loc[s[l]] == l)
  }

  /** An allocation reserves free slots only: it leaves every id where it was. */
  lemma AllocatedLinked(id2loc: map<nat, nat>, s0: Slots, tail0: nat, s: Slots, tail: nat, ret: seq<nat>)
    requires Linked(id2loc, s0, tail0) && Allocated(s0, tail0, s, tail, ret)
    ensures Linked(id2loc, s, tail)
  {
  }

  /** Every listed id is at its listed slot, the others are where they were. */
  ghost predicate Relocated(m: map<nat, nat>, r: map<nat, nat>, ids: seq<nat>, news: seq<nat>)
    requires |ids| <= |news|
  {
    && r.Keys == m.Keys + (set id | id in ids)
    && (forall i | 0 <= i < |ids| :: ids[i] in r && r[ids[i]] == news[i])
    && (forall id | id in m && id !in ids :: id in r && r[id] == m[id])
  }

  lemma RelocateOne(m: map<nat, nat>, r: map<nat, nat>, ids: seq<nat>, news: seq<nat>, i: nat)
    requires |ids| <= |news| && Distinct(ids) && i < |ids| && Relocated(m, r, ids[..i], news)
    ensures Relocated(m, r[ids[i] := news[i]], ids[..i + 1], news)
  {
    assert ids[..i + 1] == ids[..i] + [ids[i]];
    assert ids[i] !in ids[..i];
  }

  /** The first i ids have moved, and their old locations are listed. */
  ghost predicate Repointing(m: map<nat, nat>, r: map<nat, nat>, ids: seq<nat>, news: seq<nat>, i: nat, olds: seq<nat>) {
    && i <= |ids| <= |news| && Relocated(m, r, ids[..i], news) && |olds| == i
    && (forall j | 0 <= j < |ids| :: ids[j] in m) && (forall j | 0 <= j < i :: olds[j] == m[ids[j]])
  }

  lemma RepointStep(m: map<nat, nat>, r: map<nat, nat>, ids: seq<nat>, news: seq<nat>, i: nat, olds: seq<nat>)
    requires Distinct(ids) && i < |ids| && Repointing(m, r, ids, news, i, olds)
    ensures ids[i] in r && Repointing(m, r[ids[i] := news[i]], ids, news, i + 1, olds + [r[ids[i]]])
  {
    assert ids[i] !in ids[..i];
    RelocateOne(m, r, ids, news, i);
  }

  lemma Relocation(m: map<nat, nat>, r: map<nat, nat>, nhood: seq<nat>, target: nat, locs: seq<nat>)
    requires |locs| == |nhood| + 1 && target !in m && (forall id | id in nhood :: id in m)
    requires Relocated(m[target := locs[|nhood|]], r, nhood, locs)
    ensures Relocated(m, r, nhood + [target], locs)
  {
    var ids := nhood + [target];
    assert target !in nhood;
    assert forall id :: id in ids <==> id in nhood || id == target;
  }

  /** The slots that the neighbours leave are occupied, distinct and none of the reserved ones. */
  lemma OldsMove(m: map<nat, nat>, s: Slots, tail: nat, olds: seq<nat>, nhood: seq<nat>, target: nat, locs: seq<nat>)
    requires Linked(m, s, tail) && Distinct(nhood) && (forall id | id in nhood :: id in m) && target !in m && target < ALLOCATED
    requires |locs| == |nhood| + 1 && Distinct(locs) && forall l | l in locs :: l < tail && s[l] == ALLOCATED
    requires |olds| == |nhood| && forall j | 0 <= j < |nhood| :: olds[j] == m[nhood[j]]
    ensures var ids := nhood + [target];
      && CanMove(s, tail, olds, locs, ids) && Distinct(ids)
      && (forall id | id in ids && id in m :: m[id] in olds) && (forall l | l in olds :: s[l] in ids)
  {
    var ids := nhood + [target];
    assert forall j | 0 <= j < |nhood| :: nhood[j] in nhood && s[olds[j]] == nhood[j] && ids[j] == nhood[j];
    forall l | l in olds ensures l < tail && s[l] < ALLOCATED && s[l] in ids {
      var j :| 0 <= j < |olds| && olds[j] == l;
      assert ids[j] == s[l];
    }
    forall id | id in ids && id in m ensures m[id] in olds {
      var j :| 0 <= j < |nhood| && nhood[j] == id;
      assert olds[j] == m[id];
    }
  }

  /** Relocating ids whose old slots are freed keeps the two tables inverse. */
  lemma MovedLinked(m: map<nat, nat>, r: map<nat, nat>, s: Slots, t: Slots, tail: nat, olds: seq<nat>, news: seq<nat>, ids: seq<nat>)
    requires Linked(m, s, tail) && CanMove(s, tail, olds, news, ids) && |news| == |ids| && Distinct(ids)
    requires Moved(s, t, olds, news, ids) && Relocated(m, r, ids, news)
    requires forall id | id in ids && id in m :: m[id] in olds
    requires forall l | l in olds :: s[l] in ids
    ensures Linked(r, t, tail)
  {
    forall id | id in r ensures id < ALLOCATED && r[id] < tail && t[r[id]] == id {
      if id in ids {
        var i :| 0 <= i < |ids| && ids[i] == id;
        assert news[i] in news;
      } else {
        assert id in m && s[m[id]] == id && m[id] !in olds && m[id] !in news;
      }
    }
    forall l | 0 <= l < tail && t[l] < ALLOCATED ensures t[l] in r && r[t[l]] == l {
      if l in news {
        var i :| 0 <= i < |news| && news[i] == l;
        assert ids[i] in ids;
      } else {
        assert l !in olds && t[l] == s[l];
        assert s[l] in m && m[s[l]] == l;
        assert s[l] !in ids;
      }
    }
  }

  function Identity(n: nat): (m: map<nat, nat>)
    ensures (forall i: nat :: i in m <==> i < n) && forall i: nat | i in m :: m[i] == i
  {
    if n == 0 then map[] else Identity(n - 1)[n - 1 := n - 1]
  }

  class Allocator {
    const npp: nat
    var loc2id: Slots
    var empty: seq<nat>
    var curLoc: nat
    var id2loc: map<nat, nat>

    /** The tail is page-aligned, and queued pages are wholly free and queued once. */
    ghost predicate Valid()
      reads this
    {
      && npp > 0 && 2 <= curLoc <= |loc2id| && curLoc % npp == 0
      && QueueOk(npp, loc2id, curLoc, empty)
    }

    /** Loading: each of the first points is at the slot of its own number, the tail is rounded up. */
    constructor (npp: nat, npoints: nat)
      requires npp > 0 && 2 <= npoints <= ALLOCATED
      ensures Valid() && Linked(id2loc, loc2id, curLoc) && this.npp == npp
      ensures forall id: nat :: id in id2loc <==> id < npoints
    {
      this.npp := npp;
      var tail := npoints + if npoints % npp != 0 then npp - npoints % npp else 0;
      RoundedUp(npoints, npp);
      curLoc := tail;
      empty := [];
      id2loc := Identity(npoints);
      loc2id := seq(tail, i => if i < npoints then i else INVALID);
    }

    /** The second loop over a hint page: take its free slots, in order, until n are taken. */
    method TakeHoles(page: nat, n: nat, ret: seq<nat>, ghost s0: Slots) returns (out: seq<nat>)
      requires PageIn(npp, page, curLoc) && Reserved(s0, loc2id, ret, curLoc) && |ret| < n
      modifies `loc2id
      ensures |ret| < |out| || old(PageFull(npp, loc2id, page))
      ensures Reserved(s0, loc2id, out, curLoc) && |ret| <= |out| <= n && ret == out[..|ret|]
      ensures forall l | l in out[|ret|..] :: OnPage(npp, page, l)
      ensures |out| == n || PageFull(npp, loc2id, page)
    {
      out := ret;
      var st := Start(npp, page);
      for i := st to st + npp
        invariant Reserved(s0, loc2id, out, curLoc) && |ret| <= |out| < n && ret == out[..|ret|]
        invariant forall l | l in out[|ret|..] :: OnPage(npp, page, l)
        invariant forall l | st <= l < i :: loc2id[l] != INVALID
        invariant |out| == |ret| ==> loc2id == old(loc2id)
      {
        if loc2id[i] == INVALID {
          ReserveOne(s0, loc2id, out, curLoc, i);
          loc2id := loc2id[i := ALLOCATED];
          out := out + [i];
          if |out| == n {
            return;
          }
        }
      }
    }

    /** The loop over a page from the queue, with its check that the page is empty. */
    method TakeWhole(page: nat, n: nat, ret: seq<nat>, ghost s0: Slots) returns (out: seq<nat>)
      requires PageIn(npp, page, curLoc) && Reserved(s0, loc2id, ret, curLoc) && |ret| < n
      requires npp > 0 && PageFree(npp, loc2id, page)
      modifies `loc2id
      ensures Reserved(s0, loc2id, out, curLoc) && |ret| < |out| <= n && ret == out[..|ret|]
      ensures forall l | l in out[|ret|..] :: OnPage(npp, page, l)
      ensures |out| == n || PageFull(npp, loc2id, page)
    {
      out := ret;
      var st := Start(npp, page);
      for i := st to st + npp
        invariant Reserved(s0, loc2id, out, curLoc) && |ret| <= |out| < n && ret == out[..|ret|]
        invariant forall l | l in out[|ret|..] :: OnPage(npp, page, l)
        invariant forall l | st <= l < i :: loc2id[l] != INVALID
        invariant forall l | i <= l < st + npp :: loc2id[l] == INVALID
        invariant i > st ==> |out| > |ret|
      {
        if loc2id[i] != INVALID {
          assert false;
        }
        ReserveOne(s0, loc2id, out, curLoc, i);
        loc2id := loc2id[i := ALLOCATED];
        out := out + [i];
        if |out| == n {
          return;
        }
      }
    }

    /** The first phase: pages from the queue, until n slots are taken or the queue is empty. */
    method UseEmpty(n: nat, ghost need: set<nat>) returns (ret: seq<nat>)
      requires Valid() && n >= 1
      modifies `loc2id, `empty
      ensures Reserved(old(loc2id), loc2id, ret, curLoc) && |ret| <= n
      ensures QueueOk(npp, loc2id, curLoc, empty) && |empty| <= |old(empty)| && empty == old(empty)[|old(empty)| - |empty|..]
      ensures |ret| == n || (empty == [] && FilledUp(npp, loc2id, ret))
      ensures NeedIs(npp, old(loc2id), curLoc, ret, need, need)
      ensures var k := |old(empty)| - |empty|;
        && TakenFrom(npp, old(empty), k, ret) && (|ret| == n ==> k > 0)
        && FullUpTo(npp, loc2id, old(empty), if |ret| == n then k - 1 else k)
    {
      ret := [];
      ghost var s0, q0, k := loc2id, empty, 0;
      while |empty| > 0
        invariant Reserved(s0, loc2id, ret, curLoc) && |ret| < n
        invariant QueueOk(npp, loc2id, curLoc, empty) && |empty| <= |q0| && empty == q0[|q0| - |empty|..]
        invariant FilledUp(npp, loc2id, ret)
        invariant NeedIs(npp, s0, curLoc, ret, need, need)
        invariant k == |q0| - |empty| && TakenFrom(npp, q0, k, ret) && FullUpTo(npp, loc2id, q0, k)
      {
        var page := empty[0];
        assert page == q0[k];
        assert page in q0;
        assert empty == [page] + empty[1..];
        empty := empty[1..];
        ghost var s, was := loc2id, ret;
        ret := TakeWhole(page, n, ret, s0);
        PageTaken(npp, s0, s, loc2id, was, ret, curLoc, page, empty, need, need);
        TakenMore(npp, q0, k, was, ret);
        FullStays(npp, s, loc2id, q0, k);
        k := k + 1;
        if |ret| == n {
          return;
        }
        FilledKept(npp, s, loc2id, was, ret, page);
      }
    }

    /** The first loop over a hint page. */
    method CountHoles(page: nat) returns (cnt: nat)
      requires PageIn(npp, page, |loc2id|)
      ensures cnt == Holes(loc2id, Start(npp, page), Start(npp, page) + npp)
    {
      cnt := 0;
      var st := Start(npp, page);
      for i := st to st + npp
        invariant cnt == Holes(loc2id, st, i)
      {
        if loc2id[i] == INVALID {
          cnt := cnt + 1;
        }
      }
    }

    /** The second phase: pages that the search has read and at least half of whose slots are free. */
    method UseHints(hints: seq<nat>, n: nat, ret0: seq<nat>, need0: set<nat>, ghost s0: Slots, ghost base: set<nat>)
      returns (ret: seq<nat>, need: set<nat>)
      requires npp > 0 && (forall p | p in hints :: PageIn(npp, p, curLoc)) && |ret0| < n
      requires Reserved(s0, loc2id, ret0, curLoc) && FilledUp(npp, loc2id, ret0) && NeedIs(npp, s0, curLoc, ret0, base, need0)
      modifies `loc2id
      ensures Reserved(s0, loc2id, ret, curLoc) && |ret0| <= |ret| <= n
      ensures NeedIs(npp, s0, curLoc, ret, base, need)
      ensures (forall l | l in ret0 :: l in ret)
        && forall l | l in ret && l !in ret0 :: exists p :: p in hints && OnPage(npp, p, l) && HalfFree(npp, s0, p)
      ensures |ret| == n || HintsFull(npp, s0, loc2id, hints, |hints|)
    {
      ret, need := ret0, need0;
      var threshold := (npp + INDEX_SIZE_FACTOR - 1) / INDEX_SIZE_FACTOR;
      for i := 0 to |hints|
        invariant Reserved(s0, loc2id, ret, curLoc) && |ret0| <= |ret| < n
        invariant FilledUp(npp, loc2id, ret) && NeedIs(npp, s0, curLoc, ret, base, need)
        invariant (forall l | l in ret0 :: l in ret)
          && forall l | l in ret && l !in ret0 :: exists p :: p in hints && OnPage(npp, p, l) && HalfFree(npp, s0, p)
        invariant HintsFull(npp, s0, loc2id, hints, i)
      {
        var page := hints[i];
        assert page in hints;
        var cnt := CountHoles(page);
        if cnt >= threshold {
          Untouched(npp, s0, loc2id, ret, curLoc, page, cnt);
          if cnt < npp {
            need := need + {page};
          }
          ghost var s, was := loc2id, ret;
          ret := TakeHoles(page, n, ret, s0);
          HintTaken(npp, s0, s, loc2id, was, ret, curLoc, page, cnt, base, need);
          if |ret| == n {
            return;
          }
          FilledKept(npp, s, loc2id, was, ret, page);
          HintUsed(npp, s0, s, loc2id, hints, i);
        } else {
          HintSkipped(npp, s0, loc2id, hints, i, ret, curLoc);
        }
      }
    }

    /** Writing a slot, growing the table when it is too short. */
    method SetLoc2id(loc: nat, id: nat)
      requires loc < |loc2id| || loc >= 2
      modifies `loc2id
      ensures |loc2id| >= |old(loc2id)| && loc < |loc2id| && loc2id[loc] == id
      ensures loc < |old(loc2id)| ==> |loc2id| == |old(loc2id)|
      ensures forall l | 0 <= l < |old(loc2id)| && l != loc :: loc2id[l] == old(loc2id)[l]
    {
      if loc >= |loc2id| {
        loc2id := loc2id + seq(Grown(loc) - |loc2id|, _ => 0);
      }
      loc2id := loc2id[loc := id];
    }

    /** The third phase: new slots at the tail, which is then brought back to a page boundary. */
    method UseTail(n: nat, ret0: seq<nat>, ghost s0: Slots) returns (ret: seq<nat>)
      requires npp > 0 && curLoc >= 2 && Reserved(s0, loc2id, ret0, curLoc) && |ret0| <= n
      modifies `loc2id, `curLoc
      ensures |ret| == n && Allocated(s0, old(curLoc), loc2id, curLoc, ret)
      ensures Extends(ret0, ret, old(curLoc))
      ensures curLoc % npp == 0 && n - |ret0| <= curLoc - old(curLoc) < n - |ret0| + npp
    {
      ret := ret0;
      ghost var tail := curLoc;
      var remaining := n - |ret|;
      for i := 0 to remaining
        invariant curLoc == tail && |ret| == |ret0| + i
        invariant TailState(s0, tail, loc2id, tail + i, ret0, ret)
      {
        ghost var s := loc2id;
        SetLoc2id(curLoc + i, ALLOCATED);
        TailStep(s0, tail, s, loc2id, curLoc + i, ret0, ret);
        ret := ret + [curLoc + i];
      }
      curLoc := curLoc + remaining;
      AlignTail(s0, tail, ret);
    }

    /** The loop that marks the rest of the last page free. */
    method AlignTail(ghost s0: Slots, ghost tail0: nat, ghost ret: seq<nat>)
      requires npp > 0 && curLoc >= 2 && Allocated(s0, tail0, loc2id, curLoc, ret)
      modifies `loc2id, `curLoc
      ensures Allocated(s0, tail0, loc2id, curLoc, ret)
      ensures curLoc % npp == 0 && 0 <= curLoc - old(curLoc) < npp
    {
      while curLoc % npp != 0
        invariant curLoc >= 2 && Allocated(s0, tail0, loc2id, curLoc, ret)
        invariant old(curLoc) <= curLoc && curLoc + Gap(curLoc, npp) < old(curLoc) + npp
        decreases Gap(curLoc, npp)
      {
        ghost var s := loc2id;
        SetLoc2id(curLoc, INVALID);
        AllocatedMore(s0, tail0, s, loc2id, curLoc, ret, false);
        NextGap(curLoc, npp);
        curLoc := curLoc + 1;
      }
    }

    /** The allocation of n slots. */
    method AllocLoc(n: nat, hints: seq<nat>, need0: set<nat>) returns (ret: seq<nat>, need: set<nat>)
      requires Valid() && n >= 1 && forall p | p in hints :: PageIn(npp, p, curLoc)
      modifies `loc2id, `empty, `curLoc
      ensures Valid() && |ret| == n
      ensures Allocated(old(loc2id), old(curLoc), loc2id, curLoc, ret)
      ensures NeedIs(npp, old(loc2id), old(curLoc), ret, need0, need)
      ensures |empty| <= |old(empty)| && empty == old(empty)[|old(empty)| - |empty|..]
      ensures old(curLoc) <= curLoc < old(curLoc) + n + npp && (curLoc > old(curLoc) ==> empty == [])
      ensures UsesAll(npp, old(loc2id), old(curLoc), old(empty), hints, loc2id, curLoc, |old(empty)| - |empty|, ret)
    {
      ghost var s0, tail, q0 := loc2id, curLoc, empty;
      need := need0;
      ret := UseEmpty(n, need0);
      if |ret| == n {
        ReservedAllocated(s0, loc2id, ret, tail);
        QueueSufficed(npp, s0, tail, q0, hints, loc2id, |q0| - |empty|, ret);
        return;
      }
      ghost var s1, ret1 := loc2id, ret;
      ret, need := UseHints(hints, n, ret, need, s0, need0);
      if |ret| == n {
        ReservedAllocated(s0, loc2id, ret, tail);
        MoreWasUsed(npp, s0, tail, q0, hints, s1, loc2id, tail, ret1, ret);
        return;
      }
      ghost var s2, ret2 := loc2id, ret;
      ret := UseTail(n, ret, s0);
      NeedKeptTail(npp, s0, tail, ret2, ret, need0, need);
      HintsStayFull(npp, s0, s2, loc2id, tail, hints);
      MoreWasUsed(npp, s0, tail, q0, hints, s1, loc2id, curLoc, ret1, ret);
    }

    /** Freeing a slot; a page that becomes wholly free is queued. */
    method EraseLoc2id(loc: nat)
      requires Valid() && loc < curLoc && loc2id[loc] != INVALID
      modifies `loc2id, `empty
      ensures Valid() && loc2id == old(loc2id)[loc := INVALID]
      ensures var page := SectorOf(npp, loc); empty == old(empty) + if PageFree(npp, loc2id, page) then [page] else []
    {
      ghost var s := loc2id;
      loc2id := loc2id[loc := INVALID];
      var page := SectorOf(npp, loc);
      var st := Start(npp, page);
      PageBeforeTail(npp, curLoc, loc);
      EraseQueue(npp, s, curLoc, empty, loc);
      var free := true;
      var i := st;
      while i < st + npp
        invariant st <= i <= st + npp && free && forall l | st <= l < i :: loc2id[l] == INVALID
      {
        if loc2id[i] != INVALID {
          assert OnPage(npp, page, i);
          free := false;
          break;
        }
        i := i + 1;
      }
      if free {
        empty := empty + [page];
      }
    }

    /** Moving records: the new slots get their ids, then the old ones are freed. */
    method EraseAndSetLoc(olds: seq<nat>, news: seq<nat>, ids: seq<nat>)
      requires Valid() && CanMove(loc2id, curLoc, olds, news, ids)
      modifies `loc2id, `empty
      ensures Valid() && Moved(old(loc2id), loc2id, olds, news, ids)
      ensures QueueIs(npp, loc2id, old(empty), empty, olds)
    {
      ghost var s, q := loc2id, empty;
      assert forall l | l in news :: l < |loc2id|;
      for i := 0 to |news|
        invariant Valid() && empty == q && Moved(s, loc2id, [], news[..i], ids)
      {
        MovedSet(s, loc2id, curLoc, olds, news, ids, i);
        ghost var t := loc2id;
        assert news[i] in news;
        SetQueue(npp, t, curLoc, empty, news[i], ids[i]);
        SetLoc2id(news[i], ids[i]);
        assert loc2id == t[news[i] := ids[i]];
      }
      assert news[..|news|] == news && olds[..0] == [];
      QueueStart(npp, loc2id, empty);
      for i := 0 to |olds|
        invariant Valid() && Moved(s, loc2id, olds[..i], news, ids)
        invariant QueueIs(npp, loc2id, q, empty, olds[..i])
      {
        MovedErase(s, loc2id, curLoc, olds, news, ids, i);
        QueueMore(npp, loc2id, curLoc, q, empty, olds[..i], olds[i]);
        EraseLoc2id(olds[i]);
        assert olds[..i + 1] == olds[..i] + [olds[i]];
      }
      assert olds[..|olds|] == olds;
    }

    /** The id table: the new record and its neighbours point to their new slots. */
    method Repoint(nhood: seq<nat>, target: nat, locs: seq<nat>) returns (olds: seq<nat>)
      requires Distinct(nhood) && (forall id | id in nhood :: id in id2loc) && target !in id2loc && |locs| == |nhood| + 1
      modifies `id2loc
      ensures |olds| == |nhood| && forall j | 0 <= j < |nhood| :: nhood[j] in old(id2loc) && olds[j] == old(id2loc)[nhood[j]]
      ensures Relocated(old(id2loc), id2loc, nhood + [target], locs)
    {
      ghost var m := id2loc;
      id2loc := id2loc[target := locs[|nhood|]];
      ghost var first := id2loc;
      assert forall j | 0 <= j < |nhood| :: nhood[j] in nhood;
      olds := [];
      for i := 0 to |nhood|
        invariant Repointing(first, id2loc, nhood, locs, i, olds)
      {
        RepointStep(first, id2loc, nhood, locs, i, olds);
        olds := olds + [id2loc[nhood[i]]];
        id2loc := id2loc[nhood[i] := locs[i]];
      }
      assert nhood[..|nhood|] == nhood;
      Relocation(m, id2loc, nhood, target, locs);
    }

    /** The end of an insertion: the new record and its rewritten neighbours take the reserved slots,
        and the slots that the neighbours leave are freed. */
    method Commit(nhood: seq<nat>, target: nat, locs: seq<nat>)
      requires Valid() && Linked(id2loc, loc2id, curLoc)
      requires Distinct(nhood) && (forall id | id in nhood :: id in id2loc) && target !in id2loc && target < ALLOCATED
      requires |locs| == |nhood| + 1 && Distinct(locs) && forall l | l in locs :: l < curLoc && loc2id[l] == ALLOCATED
      modifies `loc2id, `empty, `id2loc
      ensures Valid() && Linked(id2loc, loc2id, curLoc)
      ensures Relocated(old(id2loc), id2loc, nhood + [target], locs)
    {
      ghost var m, s := id2loc, loc2id;
      var olds := Repoint(nhood, target, locs);
      var ids := nhood + [target];
      OldsMove(m, s, curLoc, olds, nhood, target, locs);
      EraseAndSetLoc(olds, locs, ids);
      MovedLinked(m, id2loc, s, loc2id, curLoc, olds, locs, ids);
    }
  }
}
