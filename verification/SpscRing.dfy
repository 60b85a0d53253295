/** The lock-free rings of include/utils/concurrent_queue.h as a machine: one producer and one
    consumer, whose loads, slot accesses and stores interleave in any order. */
module SpscRing {

  import opened Remainders

  /** Where the producer stands in push: it has loaded the tail, it has seen room, it has written. */
  datatype Producer<T> = Resting | Loaded(t: nat, x: T) | Room(t: nat, next: nat, x: T) | Written(t: nat, next: nat, x: T)

  /** Where the consumer stands: it has loaded the head, or it is taking slots between the head and
      the tail it loaded. `whole` tells pop_all_fn, which takes them all, from pop, which takes one. */
  datatype Consumer<T> = Waiting | Headed(h: nat, whole: bool) | Taking(h: nat, t: nat, whole: bool, taken: seq<T>)

  /** The ring and the two published indices; `pushed` and `popped` list what was published. */
  datatype Ring<T> = Ring(cap: nat, data: seq<T>, head: nat, tail: nat, producer: Producer<T>, consumer: Consumer<T>,
                          pushed: seq<T>, popped: seq<T>)

  datatype Step<T> =
    | LoadTail(x: T)
    | CheckRoom
    | WriteSlot
    | PublishTail
    | LoadHead(whole: bool)
    | CheckAny
    | ReadSlot
    | PublishHead

  predicate IsEmpty<T>(q: Ring<T>) {
    && q.cap >= 1 && |q.data| == q.cap && q.head == 0 && q.tail == 0
    && q.producer == Resting && q.consumer == Waiting && q.pushed == [] && q.popped == []
  }

  predicate Enabled<T>(q: Ring<T>, step: Step<T>) {
    match step
    case LoadTail(_) => q.producer.Resting?
    case CheckRoom => q.producer.Loaded?
    case WriteSlot => q.producer.Room?
    case PublishTail => q.producer.Written?
    case LoadHead(_) => q.consumer.Waiting?
    case CheckAny => q.consumer.Headed?
    case ReadSlot => q.consumer.Taking? && q.consumer.h != q.consumer.t && (q.consumer.whole || |q.consumer.taken| == 0)
    case PublishHead => q.consumer.Taking? && if q.consumer.whole then q.consumer.h == q.consumer.t else |q.consumer.taken| == 1
  }

  /** Slots are in range; the machine never leaves it. */
  predicate InRange<T>(q: Ring<T>) {
    && q.cap >= 1 && |q.data| == q.cap
    && (q.producer.Room? ==> q.producer.t < q.cap) && (q.consumer.Taking? ==> q.consumer.h < q.cap)
  }

  function Apply<T>(q: Ring<T>, step: Step<T>): Ring<T>
    requires InRange(q) && Enabled(q, step)
  {
    match step
    case LoadTail(x) => q.(producer := Loaded(q.tail, x))
    case CheckRoom =>
      var next := (q.producer.t + 1) % q.cap;
      if next == q.head then q.(producer := Resting) else q.(producer := Room(q.producer.t, next, q.producer.x))
    case WriteSlot =>
      q.(data := q.data[q.producer.t := q.producer.x], producer := Written(q.producer.t, q.producer.next, q.producer.x))
    case PublishTail => q.(tail := q.producer.next, producer := Resting, pushed := q.pushed + [q.producer.x])
    case LoadHead(whole) => q.(consumer := Headed(q.head, whole))
    case CheckAny =>
      if q.consumer.h == q.tail then q.(consumer := Waiting)
      else q.(consumer := Taking(q.consumer.h, q.tail, q.consumer.whole, []))
    case ReadSlot =>
      var c := q.consumer;
      q.(consumer := c.(h := (c.h + 1) % q.cap, taken := c.taken + [q.data[c.h]]))
    case PublishHead => q.(head := q.consumer.h, consumer := Waiting, popped := q.popped + q.consumer.taken)
  }

  // ----- the invariant -----

  /** The indices count what was published, around the ring; what is published and not given back is
      in its slots; and the ring never holds more than one less than its size. */
  ghost predicate Counts<T>(q: Ring<T>) {
    && InRange(q) && |q.popped| <= |q.pushed| < |q.popped| + q.cap
    && q.head == |q.popped| % q.cap && q.tail == |q.pushed| % q.cap
    && q.popped == q.pushed[..|q.popped|]
    && forall i | |q.popped| <= i < |q.pushed| :: q.data[i % q.cap] == q.pushed[i]
  }

  ghost predicate ProducerOk<T>(q: Ring<T>) {
    var p, n := q.producer, |q.pushed|;
    match p
    case Resting => true
    case Loaded(t, _) => t == q.tail
    case Room(t, next, _) => t == q.tail && q.cap >= 1 && next == (n + 1) % q.cap && n + 1 < |q.popped| + q.cap
    case Written(t, next, x) =>
      t == q.tail < |q.data| && q.cap >= 1 && next == (n + 1) % q.cap && n + 1 < |q.popped| + q.cap && q.data[t] == x
  }

  /** What the consumer has taken so far is the stretch that follows what it has given back. */
  ghost predicate TakingOk<T>(q: Ring<T>, upTo: nat) {
    var c, n := q.consumer, |q.popped|;
    && c.Taking? && q.cap >= 1 && n + |c.taken| <= upTo <= |q.pushed| < n + q.cap && n < upTo && (c.whole || |c.taken| <= 1)
    && c.t == upTo % q.cap && c.h == (n + |c.taken|) % q.cap
    && c.taken == q.pushed[n..n + |c.taken|]
  }

  ghost predicate ConsumerOk<T>(q: Ring<T>) {
    match q.consumer
    case Waiting => true
    case Headed(h, _) => h == q.head
    case Taking(_, _, _, _) => exists upTo :: TakingOk(q, upTo)
  }

  ghost predicate Inv<T>(q: Ring<T>) {
    Counts(q) && ProducerOk(q) && ConsumerOk(q)
  }

  lemma EmptyInv<T>(q: Ring<T>)
    requires IsEmpty(q)
    ensures Inv(q)
  {
    Remainder(0, q.cap, 0);
  }

  lemma Keeps<T>(q: Ring<T>, step: Step<T>)
    requires Inv(q) && Enabled(q, step)
    ensures Inv(Apply(q, step))
  {
    match step
    case LoadTail(_) => Kept(q, Apply(q, step));
    case CheckRoom => RoomKeeps(q);
    case WriteSlot => WriteKeeps(q);
    case PublishTail => PublishTailKeeps(q);
    case LoadHead(_) =>
    case CheckAny => AnyKeeps(q);
    case ReadSlot => ReadKeeps(q);
    case PublishHead => PublishHeadKeeps(q);
  }

  /** A step of the producer that publishes nothing leaves the consumer as it was. */
  lemma Kept<T>(q: Ring<T>, r: Ring<T>)
    requires ConsumerOk(q) && r.consumer == q.consumer && r.cap == q.cap && r.popped == q.popped && r.head == q.head && r.pushed == q.pushed
    ensures ConsumerOk(r)
  {
    if q.consumer.Taking? {
      var upTo :| TakingOk(q, upTo);
      assert TakingOk(r, upTo);
    }
  }

  lemma RoomKeeps<T>(q: Ring<T>)
    requires Inv(q) && q.producer.Loaded?
    ensures Inv(Apply(q, CheckRoom))
    ensures Apply(q, CheckRoom).producer.Resting? <==> |q.pushed| == |q.popped| + q.cap - 1
  {
    var n, m := |q.pushed|, |q.popped|;
    NextAround(n, q.cap);
    if (n + 1) % q.cap == m % q.cap {
      if n + 1 < m + q.cap {
        SameRemainder(m, n + 1, q.cap);
      }
    } else if n + 1 == m + q.cap {
      Around(m, q.cap);
    }
    Kept(q, Apply(q, CheckRoom));
  }

  lemma Around(m: nat, cap: nat)
    requires cap > 0
    ensures (m + cap) % cap == m % cap
  {
    var p := m / cap;
    assert m + cap == (p + 1) * cap + m % cap;
    Remainder(p + 1, cap, m % cap);
  }

  /** The slot that the producer writes holds nothing that may still be read. */
  lemma WriteSafe<T>(q: Ring<T>, i: nat)
    requires Inv(q) && q.producer.Room? && |q.popped| <= i < |q.pushed|
    ensures i % q.cap != q.producer.t
  {
    if i % q.cap == q.producer.t {
      SameRemainder(i, |q.pushed|, q.cap);
    }
  }

  lemma WriteKeeps<T>(q: Ring<T>)
    requires Inv(q) && q.producer.Room?
    ensures Inv(Apply(q, WriteSlot))
  {
    var r := Apply(q, WriteSlot);
    forall i | |r.popped| <= i < |r.pushed| ensures r.data[i % r.cap] == r.pushed[i] {
      WriteSafe(q, i);
    }
    Kept(q, r);
  }

  lemma PublishTailKeeps<T>(q: Ring<T>)
    requires Inv(q) && q.producer.Written?
    ensures Inv(Apply(q, PublishTail))
  {
    var r := Apply(q, PublishTail);
    assert r.pushed[..|r.popped|] == q.pushed[..|q.popped|];
    if q.consumer.Taking? {
      var upTo :| TakingOk(q, upTo);
      var n, k := |q.popped|, |q.consumer.taken|;
      assert r.pushed[n..n + k] == q.pushed[n..n + k];
      assert TakingOk(r, upTo);
    }
  }

  lemma AnyKeeps<T>(q: Ring<T>)
    requires Inv(q) && q.consumer.Headed?
    ensures Inv(Apply(q, CheckAny))
    ensures Apply(q, CheckAny).consumer.Waiting? <==> |q.pushed| == |q.popped|
  {
    var r, n, m := Apply(q, CheckAny), |q.pushed|, |q.popped|;
    if q.consumer.h == q.tail {
      SameRemainder(m, n, q.cap);
    } else {
      assert r.consumer.taken == [] == r.pushed[m..m];
      assert TakingOk(r, n);
    }
  }

  lemma ReadTakes<T>(q: Ring<T>, upTo: nat)
    requires Inv(q) && Enabled(q, ReadSlot) && TakingOk(q, upTo)
    ensures TakingOk(Apply(q, ReadSlot), upTo)
  {
    var r, c, n := Apply(q, ReadSlot), q.consumer, |q.popped|;
    var at := n + |c.taken|;
    NextAround(at, q.cap);
    assert q.data[at % q.cap] == q.pushed[at];
    assert r.pushed[n..at + 1] == q.pushed[n..at] + [q.pushed[at]];
  }

  lemma ReadKeeps<T>(q: Ring<T>)
    requires Inv(q) && Enabled(q, ReadSlot)
    ensures Inv(Apply(q, ReadSlot))
    ensures |q.popped| + |q.consumer.taken| < |q.pushed| && q.data[q.consumer.h] == q.pushed[|q.popped| + |q.consumer.taken|]
  {
    var r, c, n := Apply(q, ReadSlot), q.consumer, |q.popped|;
    var upTo :| TakingOk(q, upTo);
    ReadTakes(q, upTo);
    var at := n + |c.taken|;
    assert q.data[at % q.cap] == q.pushed[at];
  }

  lemma PublishHeadKeeps<T>(q: Ring<T>)
    requires Inv(q) && Enabled(q, PublishHead)
    ensures Inv(Apply(q, PublishHead))
  {
    var r, n := Apply(q, PublishHead), |q.popped|;
    var upTo :| TakingOk(q, upTo);
    var k := n + |q.consumer.taken|;
    assert q.pushed[..k] == q.pushed[..n] + q.pushed[n..k];
  }

  // ----- runs of one ring -----

  ghost predicate IsRun<T(!new)>(run: seq<Ring<T>>) {
    && |run| > 0 && IsEmpty(run[0])
    && forall i | 0 <= i < |run| - 1 :: Follows(run[i], run[i + 1])
  }

  ghost predicate Follows<T(!new)>(q: Ring<T>, r: Ring<T>) {
    InRange(q) && exists step :: Enabled(q, step) && r == Apply(q, step)
  }

  lemma {:induction false} RunInv<T(!new)>(run: seq<Ring<T>>, i: nat)
    requires IsRun(run) && i < |run|
    ensures Inv(run[i])
  {
    if i == 0 {
      EmptyInv(run[0]);
    } else {
      RunInv(run, i - 1);
      assert Follows(run[i - 1], run[i - 1 + 1]);
      FollowsKeeps(run[i - 1], run[i]);
    }
  }

  lemma FollowsKeeps<T(!new)>(q: Ring<T>, r: Ring<T>)
    requires Inv(q) && Follows(q, r)
    ensures Inv(r)
  {
    var step :| Enabled(q, step) && r == Apply(q, step);
    Keeps(q, step);
  }

  /** The values taken out of the ring, those of the pop under way included. */
  function Consumed<T>(q: Ring<T>): seq<T> {
    q.popped + if q.consumer.Taking? then q.consumer.taken else []
  }

  /** The values published and not yet taken, read from their slots. */
  ghost function Unread<T>(q: Ring<T>): (u: seq<T>)
    requires q.cap >= 1 && |q.data| == q.cap && |Consumed(q)| <= |q.pushed|
    ensures |u| == |q.pushed| - |Consumed(q)|
    ensures forall i | 0 <= i < |u| :: u[i] == q.data[(|Consumed(q)| + i) % q.cap]
  {
    var k := |Consumed(q)|;
    seq(|q.pushed| - k, i requires 0 <= i => q.data[(k + i) % q.cap])
  }

  /** In every state of every run, what was consumed followed by what the ring holds is what was
      pushed, in order, and the ring holds less than its size. */
  lemma Fifo<T(!new)>(run: seq<Ring<T>>, i: nat)
    requires IsRun(run) && i < |run|
    ensures var q := run[i];
      && q.cap >= 1 && |q.data| == q.cap && |Consumed(q)| <= |q.pushed|
      && Consumed(q) + Unread(q) == q.pushed && |Unread(q)| <= q.cap - 1
  {
    RunInv(run, i);
    var q := run[i];
    ConsumedIs(q);
    var k, u := |Consumed(q)|, Unread(q);
    forall j | 0 <= j < |u| ensures u[j] == q.pushed[k..][j] {
      var at := k + j;
      assert q.data[at % q.cap] == q.pushed[at];
    }
    assert q.pushed == q.pushed[..k] + q.pushed[k..];
  }

  lemma ConsumedIs<T>(q: Ring<T>)
    requires Inv(q)
    ensures |q.popped| <= |Consumed(q)| <= |q.pushed| && Consumed(q) == q.pushed[..|Consumed(q)|]
  {
    if q.consumer.Taking? {
      var upTo :| TakingOk(q, upTo);
      var n, k := |q.popped|, |Consumed(q)|;
      assert q.pushed[..k] == q.pushed[..n] + q.pushed[n..k];
    }
  }

  /** A push fails exactly when the ring held all it can at the moment of the check, a pop exactly
      when it held nothing. */
  lemma FailsIff<T(!new)>(run: seq<Ring<T>>, i: nat)
    requires IsRun(run) && i < |run|
    ensures var q := run[i];
      && InRange(q)
      && (Enabled(q, CheckRoom) ==> (Apply(q, CheckRoom).producer.Resting? <==> |q.pushed| - |q.popped| == q.cap - 1))
      && (Enabled(q, CheckAny) ==> (Apply(q, CheckAny).consumer.Waiting? <==> |q.pushed| == |q.popped|))
  {
    RunInv(run, i);
    if Enabled(run[i], CheckRoom) {
      RoomKeeps(run[i]);
    }
    if Enabled(run[i], CheckAny) {
      AnyKeeps(run[i]);
    }
  }

  ghost predicate ExactlyOne(a: bool, b: bool, c: bool, d: bool) {
    (a || b || c || d) && !(a && b) && !(a && c) && !(a && d) && !(b && c) && !(b && d) && !(c && d)
  }

  /** Neither side is ever stuck or has a choice: in every state of every run exactly one step of the
      producer and one of the consumer can be taken. */
  lemma EachGoesOn<T(!new)>(run: seq<Ring<T>>, i: nat, x: T, whole: bool)
    requires IsRun(run) && i < |run|
    ensures var q := run[i];
      && ExactlyOne(Enabled(q, LoadTail(x)), Enabled(q, CheckRoom), Enabled(q, WriteSlot), Enabled(q, PublishTail))
      && ExactlyOne(Enabled(q, LoadHead(whole)), Enabled(q, CheckAny), Enabled(q, ReadSlot), Enabled(q, PublishHead))
  {
    RunInv(run, i);
    if run[i].consumer.Taking? {
      PopGoesOn(run[i]);
    }
  }

  lemma PopGoesOn<T>(q: Ring<T>)
    requires Inv(q) && q.consumer.Taking?
    ensures Enabled(q, ReadSlot) <==> !Enabled(q, PublishHead)
  {
    var upTo :| TakingOk(q, upTo);
    if q.consumer.h == q.consumer.t {
      SameRemainder(|q.popped| + |q.consumer.taken|, upTo, q.cap);
    }
  }

  /** The pop that looks at the tail in state i is still under way in state j. */
  ghost predicate Popping<T(!new)>(run: seq<Ring<T>>, i: nat, j: nat) {
    i < j < |run| && run[i].consumer.Headed? && forall k | i < k <= j :: run[k].consumer.Taking?
  }

  /** The ring as a pop leaves it that looked in state p and has not ended in state q. */
  ghost predicate Since<T>(p: Ring<T>, q: Ring<T>) {
    match p.consumer
    case Headed(_, whole) => q.popped == p.popped && p.pushed <= q.pushed && TakingOk(q, |p.pushed|) && q.consumer.whole == whole
    case _ => false
  }

  lemma PopStarts<T(!new)>(p: Ring<T>, q: Ring<T>)
    requires Inv(p) && Follows(p, q) && p.consumer.Headed? && q.consumer.Taking?
    ensures Since(p, q)
  {
    var step :| Enabled(p, step) && q == Apply(p, step);
    assert q.pushed[|p.popped|..|p.popped|] == [];
  }

  /** A push that is published meanwhile leaves the pop as it was. */
  lemma PushStays<T>(q: Ring<T>, upTo: nat)
    requires Inv(q) && q.producer.Written? && TakingOk(q, upTo)
    ensures TakingOk(Apply(q, PublishTail), upTo)
  {
    var r, n, k := Apply(q, PublishTail), |q.popped|, |q.consumer.taken|;
    PublishTailKeeps(q);
    assert r.pushed[n..n + k] == q.pushed[n..n + k];
  }

  lemma SameStays<T>(q: Ring<T>, r: Ring<T>, upTo: nat)
    requires TakingOk(q, upTo) && r.cap == q.cap && r.consumer == q.consumer && r.pushed == q.pushed && r.popped == q.popped
    ensures TakingOk(r, upTo)
  {
  }

  lemma PopStays<T(!new)>(p: Ring<T>, q: Ring<T>, r: Ring<T>)
    requires Inv(q) && Since(p, q) && Follows(q, r) && r.consumer.Taking?
    ensures Since(p, r)
  {
    var step :| Enabled(q, step) && r == Apply(q, step);
    if step.ReadSlot? {
      ReadTakes(q, |p.pushed|);
    } else if step.PublishTail? {
      PushStays(q, |p.pushed|);
    } else {
      SameStays(q, r, |p.pushed|);
    }
  }

  lemma {:induction false} PopUnderWay<T(!new)>(run: seq<Ring<T>>, i: nat, j: nat)
    requires IsRun(run) && Popping(run, i, j)
    ensures Since(run[i], run[j])
    decreases j
  {
    var k := j - 1;
    RunInv(run, k);
    assert Follows(run[k], run[k + 1]);
    if k == i {
      PopStarts(run[i], run[j]);
    } else {
      PopUnderWay(run, i, k);
      PopStays(run[i], run[k], run[j]);
    }
  }

  /** Whatever is pushed meanwhile, pop ends with the oldest value, pop_all_fn with exactly the values
      that the ring held when it looked. */
  lemma PopTakes<T(!new)>(run: seq<Ring<T>>, i: nat, j: nat)
    requires IsRun(run) && Popping(run, i, j) && Enabled(run[j], PublishHead)
    ensures |run[i].popped| < |run[i].pushed|
    ensures run[j].consumer.taken == if run[i].consumer.whole then run[i].pushed[|run[i].popped|..] else [run[i].pushed[|run[i].popped|]]
  {
    PopUnderWay(run, i, j);
    RunInv(run, j);
    var p, q := run[i], run[j];
    var n := |p.popped|;
    if p.consumer.whole {
      SameRemainder(n + |q.consumer.taken|, |p.pushed|, q.cap);
      assert q.pushed[n..|p.pushed|] == p.pushed[n..];
    } else {
      assert q.pushed[n..n + 1] == [p.pushed[n]];
    }
  }

  // ----- many producers -----

  /** One ring per producer; `log` lists what the consumer has taken, with the producer it came from. */
  datatype Rings<T> = Rings(rings: seq<Ring<T>>, log: seq<(nat, T)>)

  function ApplyAt<T>(m: Rings<T>, p: nat, step: Step<T>): Rings<T>
    requires p < |m.rings| && InRange(m.rings[p]) && Enabled(m.rings[p], step)
  {
    var q := m.rings[p];
    Rings(m.rings[p := Apply(q, step)], if step.ReadSlot? then m.log + [(p, q.data[q.consumer.h])] else m.log)
  }

  /** What the log says of one producer. */
  ghost function From<T>(log: seq<(nat, T)>, p: nat): seq<T> {
    if log == [] then []
    else
      var last := log[|log| - 1];
      From(log[..|log| - 1], p) + if last.0 == p then [last.1] else []
  }

  ghost predicate RingsInv<T>(m: Rings<T>) {
    forall p | 0 <= p < |m.rings| :: Inv(m.rings[p]) && From(m.log, p) == Consumed(m.rings[p])
  }

  lemma RingsKeep<T>(m: Rings<T>, p: nat, step: Step<T>)
    requires RingsInv(m) && p < |m.rings| && Enabled(m.rings[p], step)
    ensures RingsInv(ApplyAt(m, p, step))
  {
    var r := ApplyAt(m, p, step);
    var q := m.rings[p];
    Keeps(q, step);
    ConsumedStep(q, step);
    if step.ReadSlot? {
      assert r.log[..|r.log| - 1] == m.log;
      forall o | 0 <= o < |m.rings| ensures From(r.log, o) == From(m.log, o) + if o == p then [q.data[q.consumer.h]] else [] {
      }
    }
  }

  lemma ConsumedStep<T>(q: Ring<T>, step: Step<T>)
    requires Inv(q) && Enabled(q, step)
    ensures Consumed(Apply(q, step)) == Consumed(q) + if step.ReadSlot? then [q.data[q.consumer.h]] else []
  {
  }

  ghost predicate IsHistory<T(!new)>(run: seq<Rings<T>>) {
    && |run| > 0 && run[0].log == [] && (forall q | q in run[0].rings :: IsEmpty(q))
    && forall i | 0 <= i < |run| - 1 :: Moves(run[i], run[i + 1])
  }

  ghost predicate Moves<T(!new)>(m: Rings<T>, r: Rings<T>) {
    exists p: nat, step ::
      p < |m.rings| && InRange(m.rings[p]) && Enabled(m.rings[p], step) && r == ApplyAt(m, p, step)
  }

  lemma {:induction false} HistoryInv<T(!new)>(run: seq<Rings<T>>, i: nat)
    requires IsHistory(run) && i < |run|
    ensures RingsInv(run[i])
  {
    if i == 0 {
      forall p | 0 <= p < |run[0].rings| ensures Inv(run[0].rings[p]) && From(run[0].log, p) == Consumed(run[0].rings[p]) {
        assert run[0].rings[p] in run[0].rings;
        EmptyInv(run[0].rings[p]);
      }
    } else {
      HistoryInv(run, i - 1);
      assert Moves(run[i - 1], run[i - 1 + 1]);
      var m := run[i - 1];
      var p: nat, step :| p < |m.rings| && InRange(m.rings[p]) && Enabled(m.rings[p], step) && run[i] == ApplyAt(m, p, step);
      RingsKeep(m, p, step);
    }
  }

  /** However the rings interleave, the consumer sees each producer's values in the order pushed. */
  lemma FifoPerProducer<T(!new)>(run: seq<Rings<T>>, i: nat, p: nat)
    requires IsHistory(run) && i < |run| && p < |run[i].rings|
    ensures From(run[i].log, p) <= run[i].rings[p].pushed
  {
    HistoryInv(run, i);
    ConsumedIs(run[i].rings[p]);
  }
}
