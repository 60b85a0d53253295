/** The threads that share the index lock table (src/ssd_index.cpp): searches take read locks one at
    a time and may wait while they hold others; updates take write locks through lock_idx, which
    tries, and gives everything back when one try fails. */
module LockIdx {

  import opened LockTable

  /** Where a thread stands. `got` lists its tickets on the ids of this call, in order.
      Grabbing: in the loop that tries. Undoing: in the loop that releases, last one first.
      Owning: lock_idx has returned; unlock_idx releases, first one first. */
  datatype Pc =
    | Searching
    | Grabbing(ids: seq<Key>, got: seq<Id>)
    | Undoing(ids: seq<Key>, got: seq<Id>)
    | Owning(ids: seq<Key>, got: seq<Id>)

  datatype System = System(table: Table, pc: map<Thread, Pc>) {
    function At(t: Thread): Pc {
      if t in pc then pc[t] else Searching
    }
  }

  const START := System(EMPTY, map[])

  ghost predicate Owns(tb: Table, t: Thread, id: Id) {
    id in tb.tickets && tb.tickets[id].thread == t
  }

  /** A thread does one thing at a time: it neither waits nor runs an erase callback. */
  ghost predicate Idle(tb: Table, t: Thread) {
    forall id | Owns(tb, t, id) :: tb.tickets[id].stage.Holding?
  }

  /** The list that lock_idx works on: ascending and without repetition. */
  predicate Ascending(ids: seq<Key>) {
    forall i, j | 0 <= i < j < |ids| :: ids[i] < ids[j]
  }

  datatype Move =
    | Read(step: Step)
    | Begin(ids: seq<Key>)
    | Grab(id: Id, spare: Ptr)
    | Fail
    | Done
    | Undo(step: Step)
    | Retry
    | GiveBack(step: Step)
    | Leave

  ghost predicate Unlocks(step: Step, id: Id) {
    (step.Load? || step.Release? || step.Finish?) && step.id == id
  }

  ghost function Try(t: Thread, pc: Pc, m: Move): Step
    requires pc.Grabbing? && m.Grab? && |pc.got| < |pc.ids|
  {
    TryLock(m.id, t, pc.ids[|pc.got|], true, m.spare)
  }

  ghost predicate Can(s: System, t: Thread, m: Move) {
    var pc := s.At(t);
    match m
    case Read(step) =>
      && pc.Searching? && Enabled(s.table, step)
      && (step.Pin? ==> step.thread == t && !step.write && Idle(s.table, t))
      && (step.Load? ==> Idle(s.table, t))
      && !step.TryLock? && (!step.Pin? ==> Owns(s.table, t, step.id))
    case Begin(ids) => pc.Searching? && Ascending(ids) && forall id :: !Owns(s.table, t, id)
    case Grab(id, spare) => pc.Grabbing? && |pc.got| < |pc.ids| && Enabled(s.table, Try(t, pc, m))
    case Fail => pc.Grabbing? && |pc.got| < |pc.ids| && pc.ids[|pc.got|] in s.table.entries
    case Done => pc.Grabbing? && |pc.got| == |pc.ids|
    case Undo(step) => pc.Undoing? && |pc.got| > 0 && Unlocks(step, pc.got[|pc.got| - 1]) && Enabled(s.table, step)
    case Retry => pc.Undoing? && pc.got == []
    case GiveBack(step) => pc.Owning? && |pc.got| > 0 && Unlocks(step, pc.got[0]) && Enabled(s.table, step)
    case Leave => pc.Owning? && pc.got == []
  }

  ghost function NextPc(s: System, t: Thread, m: Move): Pc
    requires Can(s, t, m)
  {
    var pc := s.At(t);
    match m
    case Read(_) => Searching
    case Begin(ids) => Grabbing(ids, [])
    case Grab(id, _) => Grabbing(pc.ids, pc.got + [id])
    case Fail => Undoing(pc.ids, pc.got)
    case Done => Owning(pc.ids, pc.got)
    case Undo(step) => if step.Finish? then Undoing(pc.ids, pc.got[..|pc.got| - 1]) else pc
    case Retry => Grabbing(pc.ids, [])
    case GiveBack(step) => if step.Finish? then Owning(pc.ids, pc.got[1..]) else pc
    case Leave => Searching
  }

  /** The moves that make a step in the table, and which step. */
  predicate Touches(m: Move) {
    m.Read? || m.Grab? || m.Undo? || m.GiveBack?
  }

  ghost function StepOf(s: System, t: Thread, m: Move): (step: Step)
    requires Can(s, t, m) && Touches(m)
    ensures Enabled(s.table, step)
  {
    if m.Grab? then Try(t, s.At(t), m) else m.step
  }

  ghost function NextTable(s: System, t: Thread, m: Move): Table
    requires Can(s, t, m)
  {
    if Touches(m) then Apply(s.table, StepOf(s, t, m)) else s.table
  }

  ghost function Next(s: System, t: Thread, m: Move): System
    requires Can(s, t, m)
  {
    System(NextTable(s, t, m), s.pc[t := NextPc(s, t, m)])
  }

  // ----- what every move keeps -----

  /** t's tickets are exactly those listed. */
  ghost predicate Exactly(tb: Table, t: Thread, got: seq<Id>) {
    && (forall i | 0 <= i < |got| :: Owns(tb, t, got[i]))
    && (forall id | Owns(tb, t, id) :: id in got)
    && (forall i, j | 0 <= i < j < |got| :: got[i] != got[j])
  }

  /** The listed tickets hold the given ids for writing, all but the one at `busy`, which may be on
      its way out. */
  ghost predicate HeldFor(tb: Table, got: seq<Id>, ids: seq<Key>, busy: int) {
    && |got| == |ids|
    && forall i | 0 <= i < |got| ::
         && got[i] in tb.tickets && tb.tickets[got[i]].write && tb.tickets[got[i]].key == ids[i]
         && !tb.tickets[got[i]].stage.Waiting? && (i != busy ==> tb.tickets[got[i]].stage.Holding?)
  }

  ghost predicate ThreadInv(tb: Table, t: Thread, pc: Pc) {
    match pc
    case Searching =>
      && (forall id | Owns(tb, t, id) :: !tb.tickets[id].write)
      && (forall i, j | Owns(tb, t, i) && Owns(tb, t, j) && !tb.tickets[i].stage.Holding? && !tb.tickets[j].stage.Holding? :: i == j)
    case Grabbing(ids, got) => |got| <= |ids| && Exactly(tb, t, got) && HeldFor(tb, got, ids[..|got|], -1)
    case Undoing(ids, got) => |got| <= |ids| && Exactly(tb, t, got) && HeldFor(tb, got, ids[..|got|], |got| - 1)
    case Owning(ids, got) => |got| <= |ids| && Exactly(tb, t, got) && HeldFor(tb, got, ids[|ids| - |got|..], 0)
  }

  ghost predicate SysInv(s: System) {
    Inv(s.table) && forall t :: ThreadInv(s.table, t, s.At(t))
  }

  lemma StartInv()
    ensures SysInv(START)
  {
    EmptyInv();
  }

  /** The other tickets of the table are untouched by a step. */
  ghost predicate OnlyChanges(tb: Table, r: Table, id: Id) {
    && (forall i | i in r.tickets && i != id :: i in tb.tickets && r.tickets[i] == tb.tickets[i])
    && (forall i | i in tb.tickets && i != id :: i in r.tickets)
  }

  lemma StepChanges(tb: Table, step: Step)
    requires Enabled(tb, step)
    ensures OnlyChanges(tb, Apply(tb, step), step.id)
  {
  }

  /** What a step does to the ticket it names. */
  lemma StepTicket(tb: Table, step: Step)
    requires Enabled(tb, step)
    ensures var r := Apply(tb, step);
      && (step.Pin? || step.TryLock? <==> step.id !in tb.tickets)
      && (step.id in r.tickets <==> !step.Finish?)
      && (step.Pin? ==> r.tickets[step.id].thread == step.thread && r.tickets[step.id].write == step.write)
      && (step.TryLock? ==> r.tickets[step.id] == Ticket(step.thread, step.key, step.write, Holding))
      && (step.Acquire? || step.Load? || step.Release? ==>
           && r.tickets[step.id] == tb.tickets[step.id].(stage := r.tickets[step.id].stage)
           && !r.tickets[step.id].stage.Waiting?)
  {
  }

  /** A thread whose tickets a step does not touch stands as before. */
  lemma OtherThread(tb: Table, r: Table, id: Id, t: Thread, pc: Pc)
    requires ThreadInv(tb, t, pc) && OnlyChanges(tb, r, id) && !Owns(tb, t, id) && !Owns(r, t, id)
    ensures ThreadInv(r, t, pc)
  {
    assert forall i :: Owns(tb, t, i) <==> Owns(r, t, i);
    assert forall i | Owns(tb, t, i) :: r.tickets[i] == tb.tickets[i];
    if !pc.Searching? {
      SameListed(tb, r, t, pc.got);
    }
  }

  lemma SameListed(tb: Table, r: Table, t: Thread, got: seq<Id>)
    requires Exactly(tb, t, got)
    requires forall i :: Owns(tb, t, i) <==> Owns(r, t, i)
    requires forall i | Owns(tb, t, i) :: i in r.tickets && r.tickets[i] == tb.tickets[i]
    ensures Exactly(r, t, got)
    ensures forall i | 0 <= i < |got| :: got[i] in r.tickets && r.tickets[got[i]] == tb.tickets[got[i]]
  {
  }

  lemma MoveKeeps(s: System, t: Thread, m: Move)
    requires SysInv(s) && Can(s, t, m)
    ensures SysInv(Next(s, t, m))
  {
    var r := Next(s, t, m);
    if Touches(m) {
      Keeps(s.table, StepOf(s, t, m));
    }
    forall u ensures ThreadInv(r.table, u, r.At(u)) {
      assert ThreadInv(s.table, u, s.At(u)) && ThreadInv(s.table, t, s.At(t));
      if u == t {
        OwnKept(s, t, m);
      } else if Touches(m) {
        StrangerKept(s, t, m, u);
      }
    }
  }

  lemma StrangerKept(s: System, t: Thread, m: Move, u: Thread)
    requires ThreadInv(s.table, t, s.At(t)) && ThreadInv(s.table, u, s.At(u)) && Can(s, t, m) && Touches(m) && u != t
    ensures ThreadInv(NextTable(s, t, m), u, s.At(u))
  {
    var step := StepOf(s, t, m);
    StepChanges(s.table, step);
    StepTicket(s.table, step);
    assert !Owns(s.table, u, step.id) by {
      if m.Undo? || m.GiveBack? {
        assert Owns(s.table, t, step.id);
      }
    }
    OtherThread(s.table, Apply(s.table, step), step.id, u, s.At(u));
  }

  lemma {:induction false} OwnKept(s: System, t: Thread, m: Move)
    requires ThreadInv(s.table, t, s.At(t)) && Can(s, t, m)
    ensures ThreadInv(NextTable(s, t, m), t, NextPc(s, t, m))
  {
    var tb, pc := s.table, s.At(t);
    match m
    case Read(step) =>
      StepChanges(tb, step);
      StepTicket(tb, step);
    case Begin(ids) =>
    case Grab(id, spare) => GrabKept(tb, t, pc.ids, pc.got, Try(t, pc, m));
    case Fail =>
    case Done => assert pc.ids[..|pc.got|] == pc.ids == pc.ids[0..];
    case Undo(step) => UndoKept(tb, t, pc.ids, pc.got, step);
    case Retry =>
    case GiveBack(step) => GiveBackKept(tb, t, pc.ids, pc.got, step);
    case Leave =>
  }

  lemma {:induction false} GrabKept(tb: Table, t: Thread, ids: seq<Key>, got: seq<Id>, step: Step)
    requires ThreadInv(tb, t, Grabbing(ids, got)) && Enabled(tb, step) && |got| < |ids|
    requires step.TryLock? && step.thread == t && step.key == ids[|got|] && step.write
    ensures ThreadInv(Apply(tb, step), t, Grabbing(ids, got + [step.id]))
  {
    StepChanges(tb, step);
    StepTicket(tb, step);
    var r, now := Apply(tb, step), got + [step.id];
    assert forall id | Owns(r, t, id) :: id == step.id || Owns(tb, t, id);
  }

  /** A ticket on its way out stays in the list until it is gone. */
  lemma StillListed(tb: Table, t: Thread, got: seq<Id>, ids: seq<Key>, busy: nat, step: Step)
    requires busy < |got| && Exactly(tb, t, got) && HeldFor(tb, got, ids, busy)
    requires Enabled(tb, step) && (step.Load? || step.Release?) && step.id == got[busy]
    ensures Exactly(Apply(tb, step), t, got) && HeldFor(Apply(tb, step), got, ids, busy)
  {
    StepChanges(tb, step);
    StepTicket(tb, step);
    var r := Apply(tb, step);
    assert forall id :: Owns(r, t, id) <==> Owns(tb, t, id);
  }

  lemma UndoKept(tb: Table, t: Thread, ids: seq<Key>, got: seq<Id>, step: Step)
    requires ThreadInv(tb, t, Undoing(ids, got)) && |got| > 0 && Enabled(tb, step) && Unlocks(step, got[|got| - 1])
    ensures ThreadInv(Apply(tb, step), t, Undoing(ids, if step.Finish? then got[..|got| - 1] else got))
  {
    if step.Finish? {
      StepChanges(tb, step);
      StepTicket(tb, step);
      var r, now := Apply(tb, step), got[..|got| - 1];
      forall id | Owns(r, t, id) ensures id in now {
        assert Owns(tb, t, id);
        var i :| 0 <= i < |got| && got[i] == id;
        assert now[i] == id;
      }
    } else {
      StillListed(tb, t, got, ids[..|got|], |got| - 1, step);
    }
  }

  lemma GiveBackKept(tb: Table, t: Thread, ids: seq<Key>, got: seq<Id>, step: Step)
    requires ThreadInv(tb, t, Owning(ids, got)) && |got| > 0 && Enabled(tb, step) && Unlocks(step, got[0])
    ensures ThreadInv(Apply(tb, step), t, Owning(ids, if step.Finish? then got[1..] else got))
  {
    if step.Finish? {
      StepChanges(tb, step);
      StepTicket(tb, step);
      var r, now := Apply(tb, step), got[1..];
      forall id | Owns(r, t, id) ensures id in now {
        assert Owns(tb, t, id);
        var i :| 0 <= i < |got| && got[i] == id;
        assert now[i - 1] == id;
      }
      assert HeldFor(r, now, ids[|ids| - |now|..], 0);
    } else {
      StillListed(tb, t, got, ids[|ids| - |got|..], 0, step);
    }
  }

  // ----- runs -----

  ghost predicate IsHistory(run: seq<System>) {
    && |run| > 0 && run[0] == START
    && forall i | 0 <= i < |run| - 1 :: Moves(run[i], run[i + 1])
  }

  ghost predicate Moves(s: System, r: System) {
    exists t, m :: Can(s, t, m) && r == Next(s, t, m)
  }

  lemma {:induction false} HistoryInv(run: seq<System>, i: nat)
    requires IsHistory(run) && i < |run|
    ensures SysInv(run[i])
  {
    if i == 0 {
      StartInv();
    } else {
      HistoryInv(run, i - 1);
      assert Moves(run[i - 1], run[i - 1 + 1]);
      var t, m :| Can(run[i - 1], t, m) && run[i] == Next(run[i - 1], t, m);
      MoveKeeps(run[i - 1], t, m);
    }
  }

  /** When lock_idx returns, the thread holds every id of its list for writing, and nothing else. */
  lemma AllOrNothing(run: seq<System>, i: nat, t: Thread)
    requires IsHistory(run) && i < |run| && Can(run[i], t, Done)
    ensures var tb, ids := run[i].table, run[i].At(t).ids;
      && (forall k | k in ids :: exists id :: Owns(tb, t, id) && tb.tickets[id] == Ticket(t, k, true, Holding))
      && (forall id | Owns(tb, t, id) :: tb.tickets[id].key in ids)
  {
    HistoryInv(run, i);
    var tb, pc := run[i].table, run[i].At(t);
    assert ThreadInv(tb, t, pc);
    assert pc.ids[..|pc.got|] == pc.ids;
    forall k | k in pc.ids ensures exists id :: Owns(tb, t, id) && tb.tickets[id] == Ticket(t, k, true, Holding) {
      var j :| 0 <= j < |pc.ids| && pc.ids[j] == k;
      assert Owns(tb, t, pc.got[j]) && tb.tickets[pc.got[j]] == Ticket(t, k, true, Holding);
    }
  }

  // ----- no waiting in a circle -----

  ghost predicate IsWaiting(s: System, t: Thread, key: Key) {
    exists id :: Owns(s.table, t, id) && s.table.tickets[id].stage.Waiting? && s.table.tickets[id].key == key
  }

  /** u holds the key in a way that keeps t out. */
  ghost predicate Blocks(s: System, u: Thread, key: Key, write: bool) {
    exists id :: Owns(s.table, u, id) && Holds(s.table.tickets[id]) && s.table.tickets[id].key == key
      && (write || s.table.tickets[id].write)
  }

  /** t cannot go on before u gives something back: either t waits for a read lock that u holds for
      writing, or t is between two rounds of lock_idx and u holds one of its ids. */
  ghost predicate WaitsFor(s: System, t: Thread, u: Thread) {
    || (exists key :: IsWaiting(s, t, key) && Blocks(s, u, key, false))
    || (s.At(t).Grabbing? && s.At(t).got == [] && exists key :: key in s.At(t).ids && Blocks(s, u, key, true))
  }

  ghost function Rank(s: System, t: Thread): nat {
    if s.At(t).Grabbing? && s.At(t).got == [] then 2 else if exists key :: IsWaiting(s, t, key) then 1 else 0
  }

  lemma WaiterSearches(s: System, t: Thread, key: Key)
    requires SysInv(s) && IsWaiting(s, t, key)
    ensures s.At(t).Searching?
  {
    var id :| Owns(s.table, t, id) && s.table.tickets[id].stage.Waiting? && s.table.tickets[id].key == key;
    assert ThreadInv(s.table, t, s.At(t));
  }

  lemma HolderRank(s: System, u: Thread, key: Key, write: bool)
    requires SysInv(s) && Blocks(s, u, key, write)
    ensures Rank(s, u) <= 1 && (!write ==> Rank(s, u) == 0 && !s.At(u).Searching?)
  {
    var id :| Owns(s.table, u, id) && Holds(s.table.tickets[id]) && s.table.tickets[id].key == key
      && (write || s.table.tickets[id].write);
    assert ThreadInv(s.table, u, s.At(u));
    if !write {
      assert !s.At(u).Searching?;
      if k :| IsWaiting(s, u, k) {
        WaiterSearches(s, u, k);
      }
    }
  }

  lemma WaitDescends(s: System, t: Thread, u: Thread)
    requires SysInv(s) && WaitsFor(s, t, u)
    ensures Rank(s, u) < Rank(s, t) <= 2
  {
    if key :| IsWaiting(s, t, key) && Blocks(s, u, key, false) {
      WaiterSearches(s, t, key);
      HolderRank(s, u, key, false);
    } else {
      var key :| key in s.At(t).ids && Blocks(s, u, key, true);
      HolderRank(s, u, key, true);
    }
  }

  ghost predicate IsChain(s: System, path: seq<Thread>) {
    forall i | 0 <= i < |path| - 1 :: WaitsFor(s, path[i], path[i + 1])
  }

  lemma {:induction false} ChainRank(s: System, path: seq<Thread>, i: nat)
    requires SysInv(s) && IsChain(s, path) && i < |path|
    ensures Rank(s, path[i]) + i <= Rank(s, path[0])
  {
    if i > 0 {
      ChainRank(s, path, i - 1);
      assert WaitsFor(s, path[i - 1], path[i - 1 + 1]);
      WaitDescends(s, path[i - 1], path[i]);
    }
  }

  /** In every state of every run, chains of waiting threads are at most three long and never close. */
  lemma NoCircularWait(run: seq<System>, i: nat, path: seq<Thread>)
    requires IsHistory(run) && i < |run| && IsChain(run[i], path) && |path| > 1
    ensures |path| <= 3 && path[0] != path[|path| - 1]
  {
    HistoryInv(run, i);
    ChainRank(run[i], path, |path| - 1);
  }

  // ----- and somebody can always go on -----

  ghost predicate GoesOn(s: System, v: Thread) {
    (exists m :: Can(s, v, m)) && forall w :: !WaitsFor(s, v, w)
  }

  lemma RankZeroGoes(s: System, v: Thread, m: Move)
    requires SysInv(s) && Rank(s, v) == 0 && Can(s, v, m)
    ensures GoesOn(s, v)
  {
    forall w ensures !WaitsFor(s, v, w) {
      if WaitsFor(s, v, w) {
        WaitDescends(s, v, w);
      }
    }
  }

  lemma NotWaiting(s: System, v: Thread)
    requires !(s.At(v).Grabbing? && s.At(v).got == [])
    requires forall id | Owns(s.table, v, id) :: !s.table.tickets[id].stage.Waiting?
    ensures Rank(s, v) == 0
  {
  }

  /** A thread inside an erase callback finishes it. */
  lemma BusyGoes(s: System, b: Id)
    requires SysInv(s) && b in s.table.tickets && (s.table.tickets[b].stage.Loaded? || s.table.tickets[b].stage.Released?)
    ensures GoesOn(s, s.table.tickets[b].thread)
  {
    var tb, t := s.table, s.table.tickets[b];
    var v := t.thread;
    assert KeyInv(tb, t.key) && b in Among(tb.tickets, t.key, Any);
    var step := if t.stage.Loaded? then Release(b) else Finish(b);
    assert Enabled(tb, step) && Owns(tb, v, b) && ThreadInv(tb, v, s.At(v));
    NotWaiting(s, v);
    RankZeroGoes(s, v, if s.At(v).Searching? then Read(step) else if s.At(v).Undoing? then Undo(step) else GiveBack(step));
  }

  ghost predicate Quiet(s: System) {
    forall id | id in s.table.tickets :: s.table.tickets[id].stage.Holding? || s.table.tickets[id].stage.Waiting?
  }

  lemma CanLoad(s: System, id: Id)
    requires SysInv(s) && Quiet(s) && id in s.table.tickets && s.table.tickets[id].stage.Holding?
    ensures Enabled(s.table, Load(id))
  {
    var key := s.table.tickets[id].key;
    assert KeyInv(s.table, key) && id in Among(s.table.tickets, key, Any);
    assert Among(s.table.tickets, key, Busy) == {};
  }

  /** A thread that holds something and waits for nothing has a move. */
  lemma HolderGoes(s: System, v: Thread, id: Id)
    requires SysInv(s) && Quiet(s) && Rank(s, v) == 0 && Owns(s.table, v, id)
    ensures GoesOn(s, v)
  {
    var tb, pc := s.table, s.At(v);
    assert ThreadInv(tb, v, pc);
    if pc.Searching? {
      forall i | Owns(tb, v, i) ensures tb.tickets[i].stage.Holding? {
        var key := tb.tickets[i].key;
        assert !IsWaiting(s, v, key);
      }
      CanLoad(s, id);
      RankZeroGoes(s, v, Read(Load(id)));
    } else if pc.Grabbing? {
      GrabberGoes(s, v);
    } else {
      assert |pc.got| > 0;
      var b := pc.got[if pc.Undoing? then |pc.got| - 1 else 0];
      CanLoad(s, b);
      RankZeroGoes(s, v, if pc.Undoing? then Undo(Load(b)) else GiveBack(Load(b)));
    }
  }

  lemma GrabberGoes(s: System, v: Thread)
    requires SysInv(s) && Quiet(s) && Rank(s, v) == 0 && s.At(v).Grabbing?
    ensures GoesOn(s, v)
  {
    var tb, pc := s.table, s.At(v);
    assert ThreadInv(tb, v, pc);
    if |pc.got| == |pc.ids| {
      RankZeroGoes(s, v, Done);
    } else if pc.ids[|pc.got|] in tb.entries {
      RankZeroGoes(s, v, Fail);
    } else {
      var id, spare := Unused(tb.tickets.Keys), Unused(tb.heap.Keys);
      assert Among(tb.tickets, pc.ids[|pc.got|], Busy) == {};
      RankZeroGoes(s, v, Grab(id, spare));
    }
  }

  ghost function Unused(used: set<nat>): (n: nat)
    ensures n !in used
  {
    UnusedExists(used);
    var n :| n !in used;
    n
  }

  lemma {:induction false} UnusedExists(used: set<nat>)
    ensures exists n: nat :: n !in used
  {
    if forall n: nat :: n in used {
      SubsetOf(used, |used| + 1);
      assert false;
    }
  }

  lemma {:induction false} SubsetOf(used: set<nat>, n: nat)
    requires forall i: nat | i < n :: i in used
    ensures n <= |used|
  {
    if n > 0 {
      SubsetOf(used - {n - 1}, n - 1);
    }
  }

  /** Whenever one thread waits for another, some thread that waits for nobody has a move. */
  lemma SomeoneGoesOn(run: seq<System>, i: nat, t: Thread, u: Thread)
    requires IsHistory(run) && i < |run| && WaitsFor(run[i], t, u) && |run[i].table.tickets| < MAX_READERS
    ensures exists v :: GoesOn(run[i], v)
  {
    HistoryInv(run, i);
    var s := run[i];
    if b :| b in s.table.tickets && (s.table.tickets[b].stage.Loaded? || s.table.tickets[b].stage.Released?) {
      BusyGoes(s, b);
    } else {
      assert Quiet(s);
      var id := Blocker(s, t, u);
      if Rank(s, u) == 0 {
        HolderGoes(s, u, id);
      } else {
        WaitDescends(s, t, u);
        var key :| IsWaiting(s, u, key);
        ReaderGoes(s, u, key);
      }
    }
  }

  lemma Blocker(s: System, t: Thread, u: Thread) returns (id: Id)
    requires WaitsFor(s, t, u)
    ensures Owns(s.table, u, id)
  {
    if key :| IsWaiting(s, t, key) && Blocks(s, u, key, false) {
      id :| Owns(s.table, u, id) && Holds(s.table.tickets[id]) && s.table.tickets[id].key == key && s.table.tickets[id].write;
    } else {
      var key :| key in s.At(t).ids && Blocks(s, u, key, true);
      id :| Owns(s.table, u, id) && Holds(s.table.tickets[id]) && s.table.tickets[id].key == key;
    }
  }

  /** A waiting reader either gets in or waits for a writer that goes on. */
  lemma ReaderGoes(s: System, u: Thread, key: Key)
    requires SysInv(s) && Quiet(s) && IsWaiting(s, u, key) && |s.table.tickets| < MAX_READERS
    ensures exists v :: GoesOn(s, v)
  {
    WaiterSearches(s, u, key);
    var tb := s.table;
    var id :| Owns(tb, u, id) && tb.tickets[id].stage.Waiting? && tb.tickets[id].key == key;
    assert ThreadInv(tb, u, s.At(u)) && KeyInv(tb, key) && id in Among(tb.tickets, key, Any);
    if w :| w in Among(tb.tickets, key, Writer) {
      var v := tb.tickets[w].thread;
      assert Owns(tb, v, w) && Blocks(s, v, key, false);
      HolderRank(s, v, key, false);
      HolderGoes(s, v, w);
    } else {
      FewReaders(tb.tickets, key);
      assert Among(tb.tickets, key, Writer) == {};
      assert Can(s, u, Read(Acquire(id)));
      OnlyReads(s, u, id, key);
    }
  }

  lemma FewReaders(tickets: map<Id, Ticket>, key: Key)
    ensures |Among(tickets, key, Reader)| <= |tickets|
  {
    var readers := Among(tickets, key, Reader);
    assert readers <= tickets.Keys;
    Smaller(readers, tickets.Keys);
  }

  lemma {:induction false} Smaller(a: set<Id>, b: set<Id>)
    requires a <= b
    ensures |a| <= |b|
  {
    assert |b| == |a| + |b - a| by {
      assert b == a + (b - a);
    }
  }

  lemma WriterCounts(tb: Table, o: Id, key: Key)
    requires o in tb.tickets && Holds(tb.tickets[o]) && tb.tickets[o].key == key && tb.tickets[o].write
    ensures Among(tb.tickets, key, Writer) != {}
  {
    assert o in Among(tb.tickets, key, Writer);
  }

  /** A reader whose key has no writer waits for nobody. */
  lemma OnlyReads(s: System, u: Thread, id: Id, key: Key)
    requires SysInv(s) && s.At(u).Searching? && Can(s, u, Read(Acquire(id))) && s.table.tickets[id].key == key
    requires Among(s.table.tickets, key, Writer) == {}
    ensures GoesOn(s, u)
  {
    var tb := s.table;
    forall w ensures !WaitsFor(s, u, w) {
      if k :| IsWaiting(s, u, k) && Blocks(s, w, k, false) {
        var i :| Owns(tb, u, i) && tb.tickets[i].stage.Waiting? && tb.tickets[i].key == k;
        assert ThreadInv(tb, u, s.At(u));
        assert i == id;
        var o :| Owns(tb, w, o) && Holds(tb.tickets[o]) && tb.tickets[o].key == k && tb.tickets[o].write;
        WriterCounts(tb, o, key);
        assert false;
      }
    }
  }

  /** The end of get_to_lock_idx: of a sorted list, one of each. */
  method Unique(sorted: seq<Key>) returns (ids: seq<Key>)
    requires forall i, j | 0 <= i < j < |sorted| :: sorted[i] <= sorted[j]
    ensures Ascending(ids) && forall k :: k in ids <==> k in sorted
  {
    ids := [];
    for i := 0 to |sorted|
      invariant Ascending(ids) && forall k :: k in ids <==> k in sorted[..i]
      invariant |ids| > 0 <==> i > 0
      invariant i > 0 ==> ids[|ids| - 1] == sorted[i - 1]
    {
      assert sorted[..i + 1] == sorted[..i] + [sorted[i]];
      if i == 0 || sorted[i - 1] != sorted[i] {
        ids := ids + [sorted[i]];
      }
    }
    assert sorted[..|sorted|] == sorted;
  }
}
