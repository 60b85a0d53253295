/** The reference-counted reader/writer lock table of include/utils/lock_table.h as a machine whose
    steps are the atomic actions of the code. A ticket stands for one request from the moment it is
    counted in the table until the moment it is uncounted. */
module LockTable {

  type Key = nat
  type Thread = nat
  type Id = nat
  type Ptr = nat

  /** The largest number of readers that the 32-bit state can count. */
  const MAX_READERS := 2147483647

  /** Waiting: pinned, spinning on the lock it points to. Holding: acquired. Loaded: inside the erase
      callback, having read the state. Released: the lock word is updated, the count not yet. */
  datatype Stage = Waiting(lock: Ptr) | Holding | Loaded(state: int) | Released

  datatype Ticket = Ticket(thread: Thread, key: Key, write: bool, stage: Stage)

  datatype Entry = Entry(lock: Ptr, count: nat)

  /** The map, the lock words that are allocated, and the requests under way. */
  datatype Table = Table(entries: map<Key, Entry>, heap: map<Ptr, int>, tickets: map<Id, Ticket>)

  const EMPTY := Table(map[], map[], map[])

  // ----- counting tickets -----

  datatype Kind = Any | Reader | Writer | Busy

  /** Any: counted on the key. Reader, Writer: the lock word is held for it. Busy: inside the map's
      bucket. */
  predicate Fits(t: Ticket, key: Key, kind: Kind) {
    && t.key == key
    && match kind
       case Any => true
       case Reader => !t.write && (t.stage.Holding? || t.stage.Loaded?)
       case Writer => t.write && (t.stage.Holding? || t.stage.Loaded?)
       case Busy => t.stage.Loaded? || t.stage.Released?
  }

  ghost function Among(tickets: map<Id, Ticket>, key: Key, kind: Kind): set<Id> {
    set id | id in tickets && Fits(tickets[id], key, kind)
  }

  lemma Put(tickets: map<Id, Ticket>, id: Id, t: Ticket, key: Key, kind: Kind)
    ensures var was := Among(tickets, key, kind);
      Among(tickets[id := t], key, kind) == if Fits(t, key, kind) then was + {id} else was - {id}
  {
    var now := tickets[id := t];
    assert forall i | i in now && i != id :: i in tickets && now[i] == tickets[i];
  }

  lemma Drop(tickets: map<Id, Ticket>, id: Id, key: Key, kind: Kind)
    ensures Among(tickets - {id}, key, kind) == Among(tickets, key, kind) - {id}
  {
  }

  // ----- the steps of the table -----

  datatype Step =
    | Pin(id: Id, thread: Thread, key: Key, write: bool, spare: Ptr)
    | Acquire(id: Id)
    | TryLock(id: Id, thread: Thread, key: Key, write: bool, spare: Ptr)
    | Load(id: Id)
    | Release(id: Id)
    | Finish(id: Id)

  /** Can the lock word be taken now? */
  predicate Free(word: int, write: bool) {
    if write then word == 0 else 0 <= word < MAX_READERS
  }

  function Taken(word: int, write: bool): int {
    if write then -1 else word + 1
  }

  /** The map can be entered at the key: no erase callback is running on it. */
  ghost predicate Open(tb: Table, key: Key) {
    Among(tb.tickets, key, Busy) == {}
  }

  ghost predicate Enabled(tb: Table, step: Step) {
    match step
    case Pin(id, _, key, _, spare) => id !in tb.tickets && spare !in tb.heap && Open(tb, key)
    case Acquire(id) =>
      && id in tb.tickets && tb.tickets[id].stage.Waiting? && tb.tickets[id].stage.lock in tb.heap
      && Free(tb.heap[tb.tickets[id].stage.lock], tb.tickets[id].write)
    case TryLock(id, _, key, write, spare) =>
      && id !in tb.tickets && spare !in tb.heap && Open(tb, key)
      && (key in tb.entries ==> tb.entries[key].lock in tb.heap && Free(tb.heap[tb.entries[key].lock], write))
    case Load(id) =>
      && id in tb.tickets && tb.tickets[id].stage.Holding? && Open(tb, tb.tickets[id].key)
      && tb.tickets[id].key in tb.entries && tb.entries[tb.tickets[id].key].lock in tb.heap
    case Release(id) =>
      && id in tb.tickets && tb.tickets[id].stage.Loaded?
      && tb.tickets[id].key in tb.entries && tb.entries[tb.tickets[id].key].lock in tb.heap
    case Finish(id) =>
      && id in tb.tickets && tb.tickets[id].stage.Released? && tb.tickets[id].key in tb.entries
  }

  /** The upsert: a new entry gets a new lock, with count zero and state zero. */
  ghost function Upserted(tb: Table, key: Key, spare: Ptr): (r: Table)
    ensures key in r.entries
  {
    if key in tb.entries then tb
    else tb.(entries := tb.entries[key := Entry(spare, 0)], heap := tb.heap[spare := 0])
  }

  ghost function Counted(tb: Table, key: Key): Table
    requires key in tb.entries
  {
    tb.(entries := tb.entries[key := tb.entries[key].(count := tb.entries[key].count + 1)])
  }

  ghost function Apply(tb: Table, step: Step): Table
    requires Enabled(tb, step)
  {
    match step
    case Pin(id, thread, key, write, spare) =>
      var u := Counted(Upserted(tb, key, spare), key);
      u.(tickets := tb.tickets[id := Ticket(thread, key, write, Waiting(u.entries[key].lock))])
    case Acquire(id) =>
      var t := tb.tickets[id];
      tb.(heap := tb.heap[t.stage.lock := Taken(tb.heap[t.stage.lock], t.write)],
          tickets := tb.tickets[id := t.(stage := Holding)])
    case TryLock(id, thread, key, write, spare) =>
      var u := Counted(Upserted(tb, key, spare), key);
      var lock := u.entries[key].lock;
      u.(heap := u.heap[lock := Taken(u.heap[lock], write)], tickets := tb.tickets[id := Ticket(thread, key, write, Holding)])
    case Load(id) =>
      var t := tb.tickets[id];
      tb.(tickets := tb.tickets[id := t.(stage := Loaded(tb.heap[tb.entries[t.key].lock]))])
    case Release(id) =>
      var t := tb.tickets[id];
      var lock := tb.entries[t.key].lock;
      tb.(heap := tb.heap[lock := if t.stage.state == -1 then 0 else tb.heap[lock] - 1],
          tickets := tb.tickets[id := t.(stage := Released)])
    case Finish(id) =>
      var key := tb.tickets[id].key;
      var e := tb.entries[key];
      if e.count == 1 then
        Table(tb.entries - {key}, tb.heap - {e.lock}, tb.tickets - {id})
      else
        tb.(entries := tb.entries[key := e.(count := if e.count == 0 then 0 else e.count - 1)], tickets := tb.tickets - {id})
  }

  // ----- what every step keeps -----

  /** The lock word says who holds the lock: minus one for a writer alone, else the number of readers. */
  ghost predicate WordIs(tickets: map<Id, Ticket>, key: Key, word: int) {
    var writers, readers := Among(tickets, key, Writer), Among(tickets, key, Reader);
    if writers == {} then word == |readers| else word == -1 && |writers| == 1 && readers == {}
  }

  ghost predicate TicketOk(t: Ticket, lock: Ptr) {
    match t.stage
    case Waiting(l) => l == lock
    case Loaded(state) => state == -1 <==> t.write
    case _ => true
  }

  /** What holds of one key. */
  ghost predicate KeyInv(tb: Table, key: Key) {
    var all := Among(tb.tickets, key, Any);
    && (key in tb.entries <==> all != {})
    && |Among(tb.tickets, key, Busy)| <= 1
    && (key in tb.entries ==>
         var e := tb.entries[key];
         && e.count == |all| && e.lock in tb.heap && WordIs(tb.tickets, key, tb.heap[e.lock])
         && TicketsOk(tb.tickets, key, e.lock))
  }

  ghost predicate TicketsOk(tickets: map<Id, Ticket>, key: Key, lock: Ptr) {
    forall id | id in tickets && tickets[id].key == key :: TicketOk(tickets[id], lock)
  }

  /** Each key has its own lock, and every lock allocated belongs to a key. */
  ghost predicate HeapInv(tb: Table) {
    && (forall j, k | j in tb.entries && k in tb.entries && tb.entries[j].lock == tb.entries[k].lock :: j == k)
    && (forall p | p in tb.heap :: exists k :: k in tb.entries && tb.entries[k].lock == p)
  }

  ghost predicate Inv(tb: Table) {
    HeapInv(tb) && forall key :: KeyInv(tb, key)
  }

  lemma EmptyInv()
    ensures Inv(EMPTY)
  {
    forall key ensures KeyInv(EMPTY, key) {
      assert Among(EMPTY.tickets, key, Any) == {} && Among(EMPTY.tickets, key, Busy) == {};
    }
  }

  /** Nothing that key's invariant speaks of has changed. */
  ghost predicate KeySame(tb: Table, r: Table, key: Key) {
    && (key in tb.entries <==> key in r.entries)
    && (key in tb.entries ==> tb.entries[key] == r.entries[key] && WordSame(tb.heap, r.heap, tb.entries[key].lock))
    && (forall id | id in r.tickets && r.tickets[id].key == key :: id in tb.tickets && tb.tickets[id] == r.tickets[id])
    && (forall id | id in tb.tickets && tb.tickets[id].key == key :: id in r.tickets && tb.tickets[id] == r.tickets[id])
  }

  ghost predicate WordSame(heap: map<Ptr, int>, now: map<Ptr, int>, lock: Ptr) {
    lock in heap ==> lock in now && heap[lock] == now[lock]
  }

  lemma KeyFrame(tb: Table, r: Table, key: Key)
    requires KeyInv(tb, key) && KeySame(tb, r, key)
    ensures KeyInv(r, key)
  {
    AmongSame(tb, r, key, Any);
    AmongSame(tb, r, key, Busy);
    AmongSame(tb, r, key, Reader);
    AmongSame(tb, r, key, Writer);
  }

  lemma AmongSame(tb: Table, r: Table, key: Key, kind: Kind)
    requires KeySame(tb, r, key)
    ensures Among(tb.tickets, key, kind) == Among(r.tickets, key, kind)
  {
  }

  /** Every step keeps the invariant at its own key, at the other keys and in the heap. */
  lemma Keeps(tb: Table, step: Step)
    requires Inv(tb) && Enabled(tb, step)
    ensures Inv(Apply(tb, step))
  {
    match step
    case Pin(id, thread, key, write, spare) => PinKeeps(tb, step);
    case Acquire(id) => AcquireKeeps(tb, step);
    case TryLock(id, thread, key, write, spare) => TryKeeps(tb, step);
    case Load(id) => LoadKeeps(tb, step);
    case Release(id) => ReleaseKeeps(tb, step);
    case Finish(id) => FinishKeeps(tb, step);
  }

  /** The four counts of a key after one ticket is written. */
  lemma PutAll(tickets: map<Id, Ticket>, id: Id, t: Ticket)
    ensures forall kind ::
      var was := Among(tickets, t.key, kind);
      Among(tickets[id := t], t.key, kind) == if Fits(t, t.key, kind) then was + {id} else was - {id}
  {
    forall kind ensures var was := Among(tickets, t.key, kind);
      Among(tickets[id := t], t.key, kind) == if Fits(t, t.key, kind) then was + {id} else was - {id}
    {
      Put(tickets, id, t, t.key, kind);
    }
  }

  /** A ticket whose key had no other change: the entries and words of the other keys are the same. */
  lemma OthersKept(tb: Table, r: Table, key: Key)
    requires Inv(tb)
    requires forall k | k != key :: KeySame(tb, r, k)
    requires KeyInv(r, key) && HeapInv(r)
    ensures Inv(r)
  {
    forall k ensures KeyInv(r, k) {
      if k != key {
        assert KeyInv(tb, k);
        KeyFrame(tb, r, k);
      }
    }
  }

  /** Steps that neither add nor remove entries or locks. */
  lemma HeapFrame(tb: Table, r: Table)
    requires HeapInv(tb) && r.entries == tb.entries && r.heap.Keys == tb.heap.Keys
    ensures HeapInv(r)
  {
  }

  lemma WordKept(tb: Table, r: Table, key: Key, lock: Ptr, k: Key)
    requires Inv(tb) && key in tb.entries && tb.entries[key].lock == lock && k != key
    requires forall p | p in tb.heap && p != lock :: p in r.heap && r.heap[p] == tb.heap[p]
    ensures k in tb.entries ==> WordSame(tb.heap, r.heap, tb.entries[k].lock)
  {
    assert KeyInv(tb, k);
  }

  // pinning

  lemma UpsertHeap(tb: Table, key: Key, spare: Ptr)
    requires HeapInv(tb) && spare !in tb.heap && forall k | k in tb.entries :: tb.entries[k].lock in tb.heap
    ensures HeapInv(Upserted(tb, key, spare)) && HeapInv(Counted(Upserted(tb, key, spare), key))
  {
    var u := Upserted(tb, key, spare);
    forall p | p in u.heap ensures exists k :: k in u.entries && u.entries[k].lock == p {
      if p in tb.heap {
        var k :| k in tb.entries && tb.entries[k].lock == p;
        assert k in u.entries && u.entries[k].lock == p;
      } else {
        assert key in u.entries && u.entries[key].lock == p;
      }
    }
    CountedHeap(u, key);
  }

  lemma CountedHeap(tb: Table, key: Key)
    requires HeapInv(tb) && key in tb.entries
    ensures HeapInv(Counted(tb, key))
  {
    var u := Counted(tb, key);
    assert forall k | k in tb.entries :: k in u.entries && u.entries[k].lock == tb.entries[k].lock;
  }

  lemma LocksLive(tb: Table)
    requires Inv(tb)
    ensures forall k | k in tb.entries :: tb.entries[k].lock in tb.heap
  {
    forall k | k in tb.entries ensures tb.entries[k].lock in tb.heap {
      assert KeyInv(tb, k);
    }
  }

  lemma PinKeeps(tb: Table, step: Step)
    requires Inv(tb) && step.Pin? && Enabled(tb, step)
    ensures Inv(Apply(tb, step))
  {
    var r := Apply(tb, step);
    LocksLive(tb);
    UpsertHeap(tb, step.key, step.spare);
    HeapFrame(Counted(Upserted(tb, step.key, step.spare), step.key), r);
    PinKey(tb, step);
    forall k | k != step.key ensures KeySame(tb, r, k) {
      PinSame(tb, step, k);
    }
    OthersKept(tb, r, step.key);
  }

  lemma PinSame(tb: Table, step: Step, k: Key)
    requires Inv(tb) && step.Pin? && Enabled(tb, step) && k != step.key
    ensures KeySame(tb, Apply(tb, step), k)
  {
    assert KeyInv(tb, k);
  }

  lemma PinKey(tb: Table, step: Step)
    requires Inv(tb) && step.Pin? && Enabled(tb, step)
    ensures KeyInv(Apply(tb, step), step.key)
  {
    var r := Apply(tb, step);
    var t := r.tickets[step.id];
    assert KeyInv(tb, step.key);
    NewKeySame(tb.tickets, step.key);
    var word := if step.key in tb.entries then tb.heap[tb.entries[step.key].lock] else 0;
    WordPinned(tb.tickets, step.id, t, word);
    KeyGrown(tb, r, step.id, t, word);
  }

  lemma WordPinned(tickets: map<Id, Ticket>, id: Id, t: Ticket, word: int)
    requires t.stage.Waiting? && id !in tickets && WordIs(tickets, t.key, word)
    ensures WordIs(tickets[id := t], t.key, word)
  {
    Put(tickets, id, t, t.key, Reader);
    Put(tickets, id, t, t.key, Writer);
  }

  /** A new ticket on a key that no callback runs on. */
  lemma KeyGrown(tb: Table, r: Table, id: Id, t: Ticket, word: int)
    requires KeyInv(tb, t.key) && Open(tb, t.key) && id !in tb.tickets && r.tickets == tb.tickets[id := t]
    requires t.stage.Waiting? || t.stage.Holding?
    requires t.key in r.entries && r.entries[t.key].lock in r.heap && r.heap[r.entries[t.key].lock] == word
    requires WordIs(r.tickets, t.key, word) && TicketOk(t, r.entries[t.key].lock)
    requires r.entries[t.key].count == 1 + if t.key in tb.entries then tb.entries[t.key].count else 0
    requires t.key in tb.entries ==> r.entries[t.key].lock == tb.entries[t.key].lock
    ensures KeyInv(r, t.key)
  {
    Put(tb.tickets, id, t, t.key, Any);
    Put(tb.tickets, id, t, t.key, Busy);
    assert id !in Among(tb.tickets, t.key, Any);
    TicketsGrown(tb, id, t, r.entries[t.key].lock);
  }

  lemma TicketsGrown(tb: Table, id: Id, t: Ticket, lock: Ptr)
    requires KeyInv(tb, t.key) && id !in tb.tickets && TicketOk(t, lock)
    requires t.key in tb.entries ==> lock == tb.entries[t.key].lock
    ensures TicketsOk(tb.tickets[id := t], t.key, lock)
  {
    assert forall i | i in tb.tickets && tb.tickets[i].key == t.key :: i in Among(tb.tickets, t.key, Any);
  }

  /** No ticket on a key means no holder of it. */
  lemma NewKeySame(tickets: map<Id, Ticket>, key: Key)
    ensures Among(tickets, key, Reader) <= Among(tickets, key, Any)
    ensures Among(tickets, key, Writer) <= Among(tickets, key, Any)
  {
  }

  // taking the lock word

  lemma AcquireKeeps(tb: Table, step: Step)
    requires Inv(tb) && step.Acquire? && Enabled(tb, step)
    ensures Inv(Apply(tb, step))
  {
    var r, t := Apply(tb, step), tb.tickets[step.id];
    AcquireKey(tb, step);
    HeapFrame(tb, r);
    forall k | k != t.key ensures KeySame(tb, r, k) {
      WordKept(tb, r, t.key, t.stage.lock, k);
    }
    OthersKept(tb, r, t.key);
  }

  lemma AcquireKey(tb: Table, step: Step)
    requires Inv(tb) && step.Acquire? && Enabled(tb, step)
    ensures var t := tb.tickets[step.id]; t.key in tb.entries && tb.entries[t.key].lock == t.stage.lock
    ensures KeyInv(Apply(tb, step), tb.tickets[step.id].key)
  {
    var r, t := Apply(tb, step), tb.tickets[step.id];
    assert KeyInv(tb, t.key);
    assert step.id in Among(tb.tickets, t.key, Any);
    AllSame(tb.tickets, step.id, r.tickets[step.id]);
    WordTaken(tb.tickets, step.id, r.tickets[step.id], tb.heap[t.stage.lock]);
  }

  /** A free word taken for a ticket that held nothing. */
  lemma WordTaken(tickets: map<Id, Ticket>, id: Id, t: Ticket, word: int)
    requires t.stage.Holding? && Free(word, t.write) && WordIs(tickets, t.key, word)
    requires id !in Among(tickets, t.key, Reader) && id !in Among(tickets, t.key, Writer)
    ensures WordIs(tickets[id := t], t.key, Taken(word, t.write))
  {
    Put(tickets, id, t, t.key, Reader);
    Put(tickets, id, t, t.key, Writer);
  }

  lemma TryKeeps(tb: Table, step: Step)
    requires Inv(tb) && step.TryLock? && Enabled(tb, step)
    ensures Inv(Apply(tb, step))
  {
    var r := Apply(tb, step);
    LocksLive(tb);
    UpsertHeap(tb, step.key, step.spare);
    HeapFrame(Counted(Upserted(tb, step.key, step.spare), step.key), r);
    TryKey(tb, step);
    forall k | k != step.key ensures KeySame(tb, r, k) {
      TrySame(tb, step, k);
    }
    OthersKept(tb, r, step.key);
  }

  lemma TrySame(tb: Table, step: Step, k: Key)
    requires Inv(tb) && step.TryLock? && Enabled(tb, step) && k != step.key
    ensures KeySame(tb, Apply(tb, step), k)
  {
    TryWord(tb, step, k);
  }

  lemma TryWord(tb: Table, step: Step, k: Key)
    requires Inv(tb) && step.TryLock? && Enabled(tb, step) && k != step.key
    ensures k in tb.entries ==> WordSame(tb.heap, Apply(tb, step).heap, tb.entries[k].lock)
  {
    if step.key in tb.entries {
      WordKept(tb, Apply(tb, step), step.key, tb.entries[step.key].lock, k);
    }
  }

  lemma TryKey(tb: Table, step: Step)
    requires Inv(tb) && step.TryLock? && Enabled(tb, step)
    ensures KeyInv(Apply(tb, step), step.key)
  {
    var r := Apply(tb, step);
    var t := r.tickets[step.id];
    assert KeyInv(tb, step.key);
    NewKeySame(tb.tickets, step.key);
    var word := if step.key in tb.entries then tb.heap[tb.entries[step.key].lock] else 0;
    WordTaken(tb.tickets, step.id, t, word);
    KeyGrown(tb, r, step.id, t, Taken(word, t.write));
  }

  // giving it back

  lemma LoadKeeps(tb: Table, step: Step)
    requires Inv(tb) && step.Load? && Enabled(tb, step)
    ensures Inv(Apply(tb, step))
  {
    var r, t := Apply(tb, step), tb.tickets[step.id];
    LoadKey(tb, step);
    HeapFrame(tb, r);
    OthersKept(tb, r, t.key);
  }

  lemma LoadKey(tb: Table, step: Step)
    requires Inv(tb) && step.Load? && Enabled(tb, step)
    ensures KeyInv(Apply(tb, step), tb.tickets[step.id].key)
  {
    var r, t := Apply(tb, step), tb.tickets[step.id];
    assert KeyInv(tb, t.key);
    assert step.id in Among(tb.tickets, t.key, Any);
    assert step.id in Among(tb.tickets, t.key, if t.write then Writer else Reader);
    PutAll(tb.tickets, step.id, r.tickets[step.id]);
    AllSame(tb.tickets, step.id, r.tickets[step.id]);
  }

  /** Rewriting a ticket that is counted leaves the counts it stays in. */
  lemma AllSame(tickets: map<Id, Ticket>, id: Id, t: Ticket)
    requires id in tickets && tickets[id].key == t.key
    ensures forall kind | Fits(t, t.key, kind) && Fits(tickets[id], t.key, kind) ::
      Among(tickets[id := t], t.key, kind) == Among(tickets, t.key, kind)
    ensures forall kind | !Fits(t, t.key, kind) && !Fits(tickets[id], t.key, kind) ::
      Among(tickets[id := t], t.key, kind) == Among(tickets, t.key, kind)
  {
    PutAll(tickets, id, t);
  }

  lemma ReleaseKeeps(tb: Table, step: Step)
    requires Inv(tb) && step.Release? && Enabled(tb, step)
    ensures Inv(Apply(tb, step))
  {
    var r, t := Apply(tb, step), tb.tickets[step.id];
    ReleaseKey(tb, step);
    HeapFrame(tb, r);
    forall k | k != t.key ensures KeySame(tb, r, k) {
      WordKept(tb, r, t.key, tb.entries[t.key].lock, k);
    }
    OthersKept(tb, r, t.key);
  }

  lemma ReleaseKey(tb: Table, step: Step)
    requires Inv(tb) && step.Release? && Enabled(tb, step)
    ensures KeyInv(Apply(tb, step), tb.tickets[step.id].key)
  {
    var r, t := Apply(tb, step), tb.tickets[step.id];
    assert KeyInv(tb, t.key);
    assert step.id in Among(tb.tickets, t.key, Any);
    WordReleased(tb.tickets, step.id, r.tickets[step.id], tb.heap[tb.entries[t.key].lock]);
    AllSame(tb.tickets, step.id, r.tickets[step.id]);
    assert Fits(t, t.key, Any) && Fits(t, t.key, Busy);
  }

  /** The word after a release: zero for the writer, one reader fewer otherwise. */
  lemma WordReleased(tickets: map<Id, Ticket>, id: Id, t: Ticket, word: int)
    requires id in tickets && tickets[id].stage.Loaded? && t == tickets[id].(stage := Released)
    requires WordIs(tickets, t.key, word)
    ensures WordIs(tickets[id := t], t.key, if t.write then 0 else word - 1)
  {
    Put(tickets, id, t, t.key, Reader);
    Put(tickets, id, t, t.key, Writer);
    assert id in Among(tickets, t.key, if t.write then Writer else Reader);
    if t.write {
      OnlyOne(Among(tickets, t.key, Writer), id);
    }
  }

  lemma OnlyOne(s: set<Id>, id: Id)
    requires |s| <= 1 && id in s
    ensures s == {id}
  {
    assert |s - {id}| == 0;
  }

  lemma FinishKeeps(tb: Table, step: Step)
    requires Inv(tb) && step.Finish? && Enabled(tb, step)
    ensures Inv(Apply(tb, step))
  {
    var r, key := Apply(tb, step), tb.tickets[step.id].key;
    FinishKey(tb, step);
    FinishHeap(tb, step);
    forall k | k != key ensures KeySame(tb, r, k) {
      assert KeyInv(tb, k);
    }
    OthersKept(tb, r, key);
  }

  lemma FinishHeap(tb: Table, step: Step)
    requires Inv(tb) && step.Finish? && Enabled(tb, step)
    ensures HeapInv(Apply(tb, step))
  {
    var r := Apply(tb, step);
    forall p | p in r.heap ensures exists k :: k in r.entries && r.entries[k].lock == p {
      var k :| k in tb.entries && tb.entries[k].lock == p;
      assert k in r.entries && r.entries[k].lock == p;
    }
  }

  lemma FinishKey(tb: Table, step: Step)
    requires Inv(tb) && step.Finish? && Enabled(tb, step)
    ensures KeyInv(Apply(tb, step), tb.tickets[step.id].key)
  {
    var t := tb.tickets[step.id];
    assert KeyInv(tb, t.key);
    assert step.id in Among(tb.tickets, t.key, Any) && step.id in Among(tb.tickets, t.key, Busy);
    assert step.id !in Among(tb.tickets, t.key, Reader) && step.id !in Among(tb.tickets, t.key, Writer);
    Drop(tb.tickets, step.id, t.key, Any);
    Drop(tb.tickets, step.id, t.key, Busy);
    Drop(tb.tickets, step.id, t.key, Reader);
    Drop(tb.tickets, step.id, t.key, Writer);
    if tb.entries[t.key].count == 1 {
      OnlyOne(Among(tb.tickets, t.key, Any), step.id);
    }
  }

  // ----- what holds in every state of every run -----

  /** Each state follows from the one before by a step; a run starts with the empty table. */
  ghost predicate IsRun(run: seq<Table>) {
    && |run| > 0 && run[0] == EMPTY
    && forall i | 0 <= i < |run| - 1 :: Follows(run[i], run[i + 1])
  }

  ghost predicate Follows(tb: Table, r: Table) {
    exists step :: Enabled(tb, step) && r == Apply(tb, step)
  }

  lemma {:induction false} RunInv(run: seq<Table>, i: nat)
    requires IsRun(run) && i < |run|
    ensures Inv(run[i])
  {
    if i == 0 {
      EmptyInv();
    } else {
      RunInv(run, i - 1);
      assert Follows(run[i - 1], run[i - 1 + 1]);
      var step :| Enabled(run[i - 1], step) && run[i] == Apply(run[i - 1], step);
      Keeps(run[i - 1], step);
    }
  }

  /** An entry exists exactly while a request is under way on its key, its count is the number of
      those requests, and the locks allocated are exactly those of the entries. */
  lemma EntryWhileCounted(run: seq<Table>, i: nat, key: Key)
    requires IsRun(run) && i < |run|
    ensures var tb := run[i];
      && (key in tb.entries <==> exists id :: id in tb.tickets && tb.tickets[id].key == key)
      && (key in tb.entries ==> tb.entries[key].count == |Among(tb.tickets, key, Any)| > 0)
      && (forall p :: p in tb.heap <==> exists k :: k in tb.entries && tb.entries[k].lock == p)
  {
    RunInv(run, i);
    var tb := run[i];
    LocksLive(tb);
    assert KeyInv(tb, key);
    if key in tb.entries {
      var id :| id in Among(tb.tickets, key, Any);
      assert id in tb.tickets && tb.tickets[id].key == key;
    }
    if id :| id in tb.tickets && tb.tickets[id].key == key {
      assert id in Among(tb.tickets, key, Any);
    }
  }

  ghost predicate Holds(t: Ticket) {
    t.stage.Holding? || t.stage.Loaded?
  }

  /** A writer excludes every other holder. */
  lemma WriterExcludes(run: seq<Table>, i: nat, w: Id, o: Id)
    requires IsRun(run) && i < |run| && w in run[i].tickets && o in run[i].tickets
    requires var t, u := run[i].tickets[w], run[i].tickets[o]; t.key == u.key && t.write && Holds(t) && Holds(u)
    ensures w == o
  {
    RunInv(run, i);
    var tickets := run[i].tickets;
    var key := tickets[w].key;
    assert KeyInv(run[i], key);
    assert w in Among(tickets, key, Any) && w in Among(tickets, key, Writer);
    assert o in Among(tickets, key, if tickets[o].write then Writer else Reader);
    OnlyOne(Among(tickets, key, Writer), w);
  }

  /** The pointer a waiter spins on is alive, and is the lock of its key. The word lets it in exactly
      when no holder stands in its way (and the reader count has not reached its limit). */
  lemma WaiterSafe(run: seq<Table>, i: nat, id: Id)
    requires IsRun(run) && i < |run| && id in run[i].tickets && run[i].tickets[id].stage.Waiting?
    ensures var tb, t := run[i], run[i].tickets[id];
      && t.key in tb.entries && t.stage.lock == tb.entries[t.key].lock && t.stage.lock in tb.heap
      && (Free(tb.heap[t.stage.lock], t.write) <==>
           && Among(tb.tickets, t.key, Writer) == {}
           && (if t.write then Among(tb.tickets, t.key, Reader) == {} else |Among(tb.tickets, t.key, Reader)| < MAX_READERS))
  {
    RunInv(run, i);
    assert KeyInv(run[i], run[i].tickets[id].key);
    assert id in Among(run[i].tickets, run[i].tickets[id].key, Any);
  }

  /** A lock is freed only by the last request on its key, when its word is back to zero; and an
      unlock never finds a count of zero. */
  lemma FreedAtZero(run: seq<Table>, i: nat, step: Step)
    requires IsRun(run) && i < |run| && Enabled(run[i], step)
    ensures var tb, r := run[i], Apply(run[i], step);
      && (step.Finish? ==> tb.entries[tb.tickets[step.id].key].count > 0)
      && forall p | p in tb.heap && p !in r.heap ::
           && step.Finish? && tb.heap[p] == 0 && tb.entries[tb.tickets[step.id].key].lock == p
           && Among(tb.tickets, tb.tickets[step.id].key, Any) == {step.id}
  {
    RunInv(run, i);
    var tb := run[i];
    if step.Finish? {
      var key := tb.tickets[step.id].key;
      assert KeyInv(tb, key);
      assert step.id in Among(tb.tickets, key, Any);
      if tb.entries[key].count == 1 {
        OnlyOne(Among(tb.tickets, key, Any), step.id);
        NewKeySame(tb.tickets, key);
        assert step.id !in Among(tb.tickets, key, Reader) && step.id !in Among(tb.tickets, key, Writer);
        assert Among(tb.tickets, key, Reader) == {} && Among(tb.tickets, key, Writer) == {};
      }
    }
  }
}
