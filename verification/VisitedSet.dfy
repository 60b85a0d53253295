/** The open-addressing id set of include/utils/visited_set.h: linear probing in a table whose
    size is a power of two, kept at most half full. */
module VisitedSet {

  import opened Powers
  import opened Remainders

  /** Ids are 32-bit; the largest one doubles as the empty-slot marker. */
  const ID_LIMIT: nat := 0x1_0000_0000
  const EMPTY: nat := 0xFFFF_FFFF

  /** Bitwise conjunction, bit by bit. */
  function BitAnd(a: nat, b: nat): (r: nat)
    ensures r <= a && r <= b
    decreases a + b
  {
    if a == 0 || b == 0 then 0 else (if a % 2 == 1 && b % 2 == 1 then 1 else 0) + 2 * BitAnd(a / 2, b / 2)
  }

  lemma BitAndOddMask(a: nat, h: nat)
    requires h > 0
    ensures BitAnd(a, 2 * h - 1) == a % 2 + 2 * BitAnd(a / 2, h - 1)
  {
    assert (2 * h - 1) / 2 == h - 1 && (2 * h - 1) % 2 == 1;
  }

  /** Masking with a power of two less one takes the remainder. */
  lemma {:induction false} MaskIsRemainder(a: nat, k: nat)
    ensures BitAnd(a, Pow2(k) - 1) == a % Pow2(k)
  {
    if k > 0 {
      var h := Pow2(k - 1);
      calc {
        BitAnd(a, Pow2(k) - 1);
        { BitAndOddMask(a, h); }
        a % 2 + 2 * BitAnd(a / 2, h - 1);
        { MaskIsRemainder(a / 2, k - 1); }
        a % 2 + 2 * (a / 2 % h);
        { RemainderOfDouble(a, h); }
        a % (2 * h);
      }
    }
  }

  lemma RemainderOfDouble(a: nat, h: nat)
    requires h > 0
    ensures a % (2 * h) == a % 2 + 2 * (a / 2 % h)
  {
    var q, r := a / 2 / h, a / 2 % h;
    assert a / 2 == q * h + r;
    assert a == 2 * (q * h + r) + a % 2;
    var m := a % 2 + 2 * r;
    assert 0 <= m < 2 * h;
    assert a == q * (2 * h) + m;
    Remainder(q, 2 * h, m);
  }

  /** Fibonacci hashing in 32-bit arithmetic, masked to the table. */
  function Home(key: nat, cap: nat): (i: nat)
    requires cap > 0
    ensures i < cap
  {
    BitAnd(key * 0x9E37_79B1 % ID_LIMIT, cap - 1)
  }

  /** The table as a value: the stored keys, wherever they are. */
  ghost function Keys(slots: seq<nat>): set<nat> {
    set v | v in slots && v != EMPTY
  }

  /** How far slot j lies behind slot i, going round. */
  function Distance(i: nat, j: nat, cap: nat): nat
    requires i < cap && j < cap
  {
    if i <= j then j - i else j + cap - i
  }

  /** Slot k lies on the probe path of the key in slot j, before it. */
  predicate OnPath(slots: seq<nat>, k: nat, j: nat)
    requires k < |slots| && j < |slots|
  {
    var h := Home(slots[j], |slots|);
    Distance(h, k, |slots|) < Distance(h, j, |slots|)
  }

  /** Every key is reached from its home by stepping over occupied slots only. */
  ghost predicate Reachable(slots: seq<nat>) {
    forall j, k | 0 <= j < |slots| && 0 <= k < |slots| && OnPath(slots, k, j) && slots[j] != EMPTY :: slots[k] != EMPTY
  }

  predicate Twins(slots: seq<nat>, i: nat, j: nat)
    requires i < |slots| && j < |slots|
  {
    slots[i] != EMPTY && slots[i] == slots[j]
  }

  ghost predicate StoredOnce(slots: seq<nat>) {
    forall i, j | 0 <= i < j < |slots| :: !Twins(slots, i, j)
  }

  ghost predicate IsPow2(cap: nat) {
    exists k: nat :: cap == Pow2(k)
  }

  ghost predicate Table(slots: seq<nat>) {
    8 <= |slots| && Reachable(slots) && StoredOnce(slots)
  }

  /** A table that does not hold as many keys as it has slots has an empty slot. */
  lemma HasEmpty(slots: seq<nat>)
    requires StoredOnce(slots) && |Keys(slots)| < |slots|
    ensures EMPTY in slots
  {
    if EMPTY !in slots {
      AllStored(slots);
    }
  }

  lemma {:induction false} AllStored(slots: seq<nat>)
    requires StoredOnce(slots) && EMPTY !in slots
    ensures |Keys(slots)| == |slots|
  {
    if slots == [] {
      assert Keys(slots) == {};
    } else {
      var v, rest := slots[0], slots[1..];
      assert forall i, j | 0 <= i < j < |rest| :: Twins(rest, i, j) == Twins(slots, i + 1, j + 1);
      assert forall j | 0 <= j < |rest| :: rest[j] == v ==> Twins(slots, 0, j + 1);
      AllStored(rest);
      assert slots == [v] + rest;
      assert v !in rest;
      assert Keys(slots) == {v} + Keys(rest);
    }
  }

  /** Slots are told apart by their distance from any one slot. */
  lemma DistanceInjective(h: nat, i: nat, j: nat, cap: nat)
    requires h < cap && i < cap && j < cap && Distance(h, i, cap) == Distance(h, j, cap)
    ensures i == j
  {
  }

  /** The slot after i, going round. */
  function Next(i: nat, cap: nat): nat
    requires i < cap
  {
    if i + 1 == cap then 0 else i + 1
  }

  lemma DistanceStep(h: nat, i: nat, e: nat, cap: nat)
    requires h < cap && i < cap && e < cap && Distance(h, i, cap) < Distance(h, e, cap)
    ensures Distance(h, Next(i, cap), cap) == Distance(h, i, cap) + 1
  {
  }

  /** The masked increment goes round. */
  lemma StepIsNext(i: nat, k: nat)
    requires i < Pow2(k)
    ensures BitAnd(i + 1, Pow2(k) - 1) == Next(i, Pow2(k))
  {
    MaskIsRemainder(i + 1, k);
    if i + 1 == Pow2(k) {
      Remainder(1, Pow2(k), 0);
    } else {
      Remainder(0, Pow2(k), i + 1);
    }
  }

  /** All slots from h up to, but not including, slot i hold other keys. */
  ghost predicate PathTaken(slots: seq<nat>, h: nat, key: nat, i: nat)
    requires h < |slots| && i < |slots|
  {
    forall k | 0 <= k < |slots| && Distance(h, k, |slots|) < Distance(h, i, |slots|) :: slots[k] != EMPTY && slots[k] != key
  }

  /** A key whose probe path meets an empty slot before the key is not in the table. */
  lemma MissedMeansAbsent(slots: seq<nat>, key: nat, i: nat)
    requires Table(slots) && key != EMPTY && i < |slots| && slots[i] == EMPTY
    requires PathTaken(slots, Home(key, |slots|), key, i)
    ensures key !in slots
  {
    var h, cap := Home(key, |slots|), |slots|;
    forall j | 0 <= j < cap ensures slots[j] != key {
      assert OnPath(slots, i, j) ==> slots[j] == EMPTY;
      if slots[j] == key && Distance(h, j, cap) == Distance(h, i, cap) {
        DistanceInjective(h, i, j, cap);
      }
    }
  }

  /** Storing a new key in the empty slot that ends its probe path keeps the table in order. */
  lemma StoreKeeps(slots: seq<nat>, key: nat, i: nat)
    requires Table(slots) && key != EMPTY && key !in slots && i < |slots| && slots[i] == EMPTY
    requires PathTaken(slots, Home(key, |slots|), key, i)
    ensures Table(slots[i := key]) && Keys(slots[i := key]) == Keys(slots) + {key}
    ensures |Keys(slots[i := key])| == |Keys(slots)| + 1
  {
    var t := slots[i := key];
    StoreReachable(slots, key, i);
    forall a, b | 0 <= a < b < |t| ensures !Twins(t, a, b) {
      assert !Twins(slots, a, b);
    }
    StoreKeys(slots, key, i);
  }

  lemma StoreReachable(slots: seq<nat>, key: nat, i: nat)
    requires Reachable(slots) && key != EMPTY && i < |slots| && slots[i] == EMPTY
    requires PathTaken(slots, Home(key, |slots|), key, i)
    ensures Reachable(slots[i := key])
  {
    var t := slots[i := key];
    forall j, k | 0 <= j < |t| && 0 <= k < |t| && OnPath(t, k, j) && t[j] != EMPTY ensures t[k] != EMPTY {
      if j != i {
        assert OnPath(slots, k, j);
      }
    }
  }

  lemma StoreKeys(slots: seq<nat>, key: nat, i: nat)
    requires i < |slots| && slots[i] == EMPTY && key != EMPTY && key !in slots
    ensures Keys(slots[i := key]) == Keys(slots) + {key}
    ensures |Keys(slots[i := key])| == |Keys(slots)| + 1
  {
    var t := slots[i := key];
    forall v | v in Keys(slots) + {key} ensures v in t {
      if v == key {
        assert t[i] == key;
      } else {
        var j :| 0 <= j < |slots| && slots[j] == v;
        assert t[j] == v;
      }
    }
    assert Keys(t) == Keys(slots) + {key};
  }

  lemma PathStep(slots: seq<nat>, h: nat, key: nat, i: nat, e: nat)
    requires h < |slots| && i < |slots| && e < |slots| && slots[e] == EMPTY
    requires PathTaken(slots, h, key, i) && slots[i] != EMPTY && slots[i] != key
    requires Distance(h, i, |slots|) <= Distance(h, e, |slots|)
    ensures var n := Next(i, |slots|);
            && PathTaken(slots, h, key, n)
            && Distance(h, n, |slots|) == Distance(h, i, |slots|) + 1
            && Distance(h, n, |slots|) <= Distance(h, e, |slots|)
  {
    var cap := |slots|;
    if Distance(h, i, cap) == Distance(h, e, cap) {
      DistanceInjective(h, i, e, cap);
    }
    DistanceStep(h, i, e, cap);
    forall k | 0 <= k < cap && Distance(h, k, cap) < Distance(h, i, cap) + 1 ensures slots[k] != EMPTY && slots[k] != key {
      if Distance(h, k, cap) == Distance(h, i, cap) {
        DistanceInjective(h, i, k, cap);
      }
    }
  }

  /** The next probe position. */
  function Step(i: nat, mask: nat): nat {
    BitAnd(i + 1, mask)
  }

  /** Walks from the home of the key to the key or to the first empty slot. It always gets there,
      because the table is never full. */
  method Probe(slots: array<nat>, mask: nat, key: nat) returns (i: nat)
    requires slots.Length > 0 && mask == slots.Length - 1 && IsPow2(slots.Length)
    requires EMPTY in slots[..] && key != EMPTY
    ensures i < slots.Length
    ensures slots[i] == key || slots[i] == EMPTY
    ensures PathTaken(slots[..], Home(key, slots.Length), key, i)
  {
    ghost var t := slots[..];
    ghost var e :| 0 <= e < |t| && t[e] == EMPTY;
    ghost var k :| slots.Length == Pow2(k);
    ghost var h := Home(key, slots.Length);
    i := Home(key, slots.Length);
    while slots[i] != key && slots[i] != EMPTY
      invariant i < slots.Length && t == slots[..]
      invariant PathTaken(t, h, key, i)
      invariant Distance(h, i, |t|) <= Distance(h, e, |t|)
      decreases |t| - Distance(h, i, |t|)
    {
      StepIsNext(i, k);
      PathStep(t, h, key, i, e);
      i := Step(i, mask);
    }
  }

  class FlatVisitedSet {
    var slots: array<nat>
    var mask: nat
    var size: nat
    var hasEmptyKey: bool

    /** The set of ids. */
    ghost var contents: set<nat>

    /** The table is in order and at most half full. */
    ghost predicate Sound()
      reads this, slots
    {
      && IsPow2(slots.Length) && mask == slots.Length - 1
      && Table(slots[..])
      && size == |Keys(slots[..])|
      && 2 * size <= slots.Length
    }

    ghost predicate Valid()
      reads this, slots
    {
      && Sound()
      && contents == Keys(slots[..]) + if hasEmptyKey then {EMPTY} else {}
    }

    constructor (minCapacity: nat)
      ensures Valid() && contents == {} && fresh(slots) && slots.Length >= minCapacity
      ensures slots.Length == 8 || slots.Length < 2 * minCapacity
    {
      var cap := 8;
      ghost var k: nat := 3;
      assert Pow2(3) == 8;
      while cap < minCapacity
        invariant 8 <= cap == Pow2(k) && (cap == 8 || cap < 2 * minCapacity)
      {
        cap := 2 * cap;
        k := k + 1;
      }
      slots := new nat[cap](_ => EMPTY);
      mask, size, hasEmptyKey, contents := cap - 1, 0, false, {};
      new;
      assert Keys(slots[..]) == {};
    }

    method Clear()
      requires Valid()
      modifies this`size, this`hasEmptyKey, this`contents, slots
      ensures Valid() && contents == {}
    {
      if size != 0 {
        forall i | 0 <= i < slots.Length {
          slots[i] := EMPTY;
        }
      }
      assert Keys(slots[..]) == {};
      size, hasEmptyKey, contents := 0, false, {};
    }

    /** Adds a key. True exactly when it was not there. */
    method Insert(key: nat) returns (isNew: bool)
      requires Valid() && key < ID_LIMIT
      modifies this, slots
      ensures Valid() && (slots == old(slots) || fresh(slots))
      ensures isNew <==> key !in old(contents)
      ensures contents == old(contents) + {key}
      ensures slots.Length == if isNew && key != EMPTY && 2 * (old(size) + 1) > old(slots.Length) then 2 * old(slots.Length) else old(slots.Length)
    {
      if key == EMPTY {
        isNew := InsertMarker();
      } else {
        ContentsWith(Keys(slots[..]), hasEmptyKey, key, contents, slots[..]);
        isNew := InsertKey(key);
        contents := contents + {key};
      }
    }

    /** The key that marks empty slots is kept in a flag. */
    method InsertMarker() returns (isNew: bool)
      requires Valid()
      modifies this`hasEmptyKey, this`contents
      ensures Valid() && (isNew <==> EMPTY !in old(contents)) && contents == old(contents) + {EMPTY}
    {
      ContentsWith(Keys(slots[..]), hasEmptyKey, EMPTY, contents, slots[..]);
      isNew := !hasEmptyKey;
      hasEmptyKey := true;
      contents := contents + {EMPTY};
    }

    method InsertKey(key: nat) returns (isNew: bool)
      requires Valid() && key != EMPTY
      modifies this`slots, this`mask, this`size, slots
      ensures Sound() && (slots == old(slots) || fresh(slots))
      ensures isNew <==> key !in old(slots[..])
      ensures Keys(slots[..]) == old(Keys(slots[..])) + {key}
      ensures slots.Length == if isNew && 2 * (old(size) + 1) > old(slots.Length) then 2 * old(slots.Length) else old(slots.Length)
    {
      HasEmpty(slots[..]);
      var i := Probe(slots, mask, key);
      if slots[i] == key {
        assert slots[..][i] == key;
        return false;
      }
      MissedMeansAbsent(slots[..], key, i);
      Store(key, i);
      if 2 * size > slots.Length {
        Grow();
      }
      isNew := true;
    }

    /** Puts a missing key into the empty slot where its probe ended. */
    method Store(key: nat, i: nat)
      requires Sound() && key != EMPTY && key !in slots[..] && i < slots.Length && slots[i] == EMPTY
      requires PathTaken(slots[..], Home(key, slots.Length), key, i)
      modifies this`size, slots
      ensures Table(slots[..]) && Keys(slots[..]) == old(Keys(slots[..])) + {key}
      ensures size == old(size) + 1 == |Keys(slots[..])|
    {
      ghost var t := slots[..];
      StoreKeeps(t, key, i);
      slots[i] := key;
      assert slots[..] == t[i := key];
      size := size + 1;
    }

    /** Doubles the table and stores every key again. */
    method Grow()
      requires IsPow2(slots.Length) && mask == slots.Length - 1 && Table(slots[..])
      requires size == |Keys(slots[..])| <= slots.Length
      modifies this`slots, this`mask
      ensures Sound() && fresh(slots) && Keys(slots[..]) == old(Keys(slots[..]))
      ensures slots.Length == 2 * old(slots.Length)
    {
      var was := slots;
      ghost var t := was[..];
      ghost var k: nat :| was.Length == Pow2(k);
      assert 2 * was.Length == Pow2(k + 1);
      slots := new nat[2 * was.Length](_ => EMPTY);
      mask := slots.Length - 1;
      assert Keys(slots[..]) == Keys(t[..0]) == {};
      for n := 0 to was.Length
        invariant slots.Length == 2 * was.Length && mask == slots.Length - 1 && fresh(slots)
        invariant was[..] == t
        invariant Table(slots[..]) && Keys(slots[..]) == Keys(t[..n])
        invariant |Keys(slots[..])| <= n
      {
        KeysExtend(t, n);
        if was[n] != EMPTY {
          Rehash(was[n]);
        }
      }
      assert t[..|t|] == t;
    }

    /** Stores a key that is known to be missing. */
    method Rehash(v: nat)
      requires slots.Length > 0 && mask == slots.Length - 1 && IsPow2(slots.Length) && Table(slots[..])
      requires |Keys(slots[..])| < slots.Length && v != EMPTY && v !in Keys(slots[..])
      modifies slots
      ensures Table(slots[..]) && Keys(slots[..]) == old(Keys(slots[..])) + {v}
      ensures |Keys(slots[..])| == |old(Keys(slots[..]))| + 1
    {
      ghost var u := slots[..];
      HasEmpty(u);
      var i := Probe(slots, mask, v);
      assert u[i] == slots[i];
      StoreKeeps(u, v, i);
      slots[i] := v;
      assert slots[..] == u[i := v];
    }
  }

  lemma ContentsWith(keys: set<nat>, hasEmpty: bool, key: nat, contents: set<nat>, slots: seq<nat>)
    requires keys == Keys(slots) && contents == keys + if hasEmpty then {EMPTY} else {}
    ensures key in contents <==> if key == EMPTY then hasEmpty else key in slots
    ensures contents + {key} == if key == EMPTY then keys + {EMPTY} else keys + {key} + if hasEmpty then {EMPTY} else {}
  {
  }

  lemma KeysExtend(t: seq<nat>, n: nat)
    requires n < |t| && StoredOnce(t)
    ensures Keys(t[..n + 1]) == if t[n] == EMPTY then Keys(t[..n]) else Keys(t[..n]) + {t[n]}
    ensures t[n] !in Keys(t[..n])
  {
    assert t[..n + 1] == t[..n] + [t[n]];
    forall i | 0 <= i < n && t[n] != EMPTY ensures t[i] != t[n] {
      assert !Twins(t, i, n);
    }
  }
}
