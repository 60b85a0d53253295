/** The string index of include/filter/attribute.h: one file sorted by string and one sorted by
    reversed string, the strings inserted since, and a bucket table for each direction. */
module StringIndex {

  import opened IdMaps
  import Selector
  import opened SortedIds
  import opened StringBuckets
  import opened StringFiles
  import opened StringKeys

  const DELTA_BYTES := 4 * 1024 * 1024

  /** The pairs of m are the entries. */
  ghost predicate PairsOf(es: seq<Entry>, m: map<nat, Str>) {
    forall e: Entry :: e in es <==> e.id in m && m[e.id] == e.key
  }

  ghost predicate IdsBelow(m: map<nat, Str>, n: nat) {
    forall id | id in m :: id < n
  }

  /** Every string that is not in the file has the bucket that its insertion gave it. */
  ghost predicate PendingIn(t: Table, es: seq<Entry>, m: map<nat, Str>) {
    forall id | id in m && Entry(m[id], id) !in es :: InsertedAs(t, id, m[id])
  }

  /** The two directions, the entries of their files, and the strings. */
  datatype Sides = Sides(prefix: Side, suffix: Side, es: seq<Entry>, back: seq<Entry>, m: map<nat, Str>)

  datatype Tables = Tables(p: Table, q: Table, n: nat, es: seq<Entry>, back: seq<Entry>, m: map<nat, Str>)

  /** One side agrees with the strings, the other with the strings reversed, and the two files hold
      the same vectors. */
  ghost predicate SidesOk(s: Sides) {
    match s
    case Sides(prefix, suffix, es, back, m) => SideOk(prefix, es, m) && SideOk(suffix, back, Backwards(m)) && Mirrored(es, back)
  }

  /** The tables are laid out for the files, and the one for prefixes also has the pending strings. */
  ghost predicate TablesOk(t: Tables) {
    match t
    case Tables(p, q, n, es, back, m) => IdsBelow(m, n) && Laid(p, es) && Laid(q, back) && PendingIn(p, es, m)
  }

  /** An entry of the file says what the map says. */
  lemma StoredPair(side: Side, es: seq<Entry>, m: map<nat, Str>, e: Entry)
    requires SideOk(side, es, m) && e in es
    ensures e.id in m && m[e.id] == e.key
  {
    assert Entry(e.key, e.id) in es;
  }

  lemma StoredIds(side: Side, es: seq<Entry>, m: map<nat, Str>, id: nat)
    requires SideOk(side, es, m) && id !in m
    ensures forall e | e in es :: e.id != id
  {
    forall e | e in es ensures e.id != id {
      StoredPair(side, es, m, e);
    }
  }

  lemma BoundsAscend(t: Table, side: Side, es: seq<Entry>, m: map<nat, Str>)
    requires Laid(t, es) && SideOk(side, es, m)
    ensures Ascending(t.bounds)
  {
    if es != [] {
      BoundariesAscend(t.bounds, es);
    }
  }

  /** A stored string that starts with p is accepted. */
  lemma AcceptsStored(t: Table, side: Side, es: seq<Entry>, m: map<nat, Str>, id: nat, p: Str)
    requires Laid(t, es) && SideOk(side, es, m) && id in m && Entry(m[id], id) in es && IsStr(p) && p <= m[id]
    ensures MayLie(t, id, p, Next(p))
  {
    var i :| 0 <= i < |es| && es[i] == Entry(m[id], id);
    forall j | 0 <= j < |es| && es[j].id == id ensures es[j].key == es[i].key {
      assert es[j] in es;
      StoredPair(side, es, m, es[j]);
    }
    StoredAccepted(t, es, i, p);
  }

  /** Pending strings keep their buckets, and one more gets its own. */
  lemma PendingMore(t: Table, r: Table, side: Side, es: seq<Entry>, m: map<nat, Str>, id: nat, s: Str)
    requires SideOk(side, es, m) && PendingIn(t, es, m) && id !in m && r.bounds == t.bounds && |r.ids| >= |t.ids| && InsertedAs(r, id, s)
    requires forall k | 0 <= k < |t.ids| && k != id :: r.ids[k] == t.ids[k]
    ensures PendingIn(r, es, m[id := s])
  {
    var more := m[id := s];
    forall k | k in more && Entry(more[k], k) !in es ensures InsertedAs(r, k, more[k]) {
      if k != id {
        assert InsertedAs(t, k, m[k]);
      }
    }
  }

  lemma RenamedBelow(m: map<nat, Str>, idMap: map<nat, nat>, n: nat)
    requires Injective(idMap) && IdsBelow(m, n) && FitsSize(idMap)
    ensures IdsBelow(Renamed(m, idMap), if idMap == map[] then n else |idMap|)
  {
  }

  /** The new ids are below the number of survivors, for whom alone there is room afterwards. */
  ghost predicate FitsSize(idMap: map<nat, nat>) {
    forall id | id in idMap :: idMap[id] < |idMap|
  }

  class StringIndex {
    var prefix: Side
    var suffix: Side
    var prefixTable: Table
    var suffixTable: Table
    var deltaBytes: nat
    var nVectors: nat
    ghost var forwards: seq<Entry>
    ghost var backwards: seq<Entry>
    ghost var contents: map<nat, Str>

    ghost predicate Valid()
      reads this
    {
      SidesOk(Sides(prefix, suffix, forwards, backwards, contents)) && TablesOk(Tables(prefixTable, suffixTable, nVectors, forwards, backwards, contents))
    }

    ghost predicate Stored(id: nat)
      requires id in contents
      reads this
    {
      Entry(contents[id], id) in forwards
    }

    /** Built from one string per vector. */
    constructor (rows: seq<Str>)
      requires forall i | 0 <= i < |rows| :: IsStr(rows[i])
      ensures Valid() && contents == Numbered(rows) && deltaBytes == 0
      ensures PairsOf(forwards, contents)
    {
      prefix, suffix, deltaBytes := Side(File(0, [], 0, [], []), []), Side(File(0, [], 0, [], []), []), 0;
      prefixTable, suffixTable, nVectors := Table([], []), Table([], []), |rows|;
      new;
      RowsHold(rows);
      Rewrite(Rows(rows), |rows|, Numbered(rows));
    }

    /** The ids whose string starts with the query. */
    method PreFilterPrefix(query: Str) returns (result: seq<nat>)
      requires Valid() && IsStr(query)
      ensures Strict(result) && forall id :: id in result <==> id in contents && query <= contents[id]
    {
      result := Query(prefix, query, forwards, contents);
    }

    /** The ids whose string ends with the query. */
    method PreFilterSuffix(query: Str) returns (result: seq<nat>)
      requires Valid() && IsStr(query)
      ensures Strict(result) && forall id :: id in result <==> id in contents && EndsWith(contents[id], query)
    {
      result := Query(suffix, Reverse(query), backwards, Backwards(contents));
      forall id | id in contents ensures EndsWith(contents[id], query) <==> Reverse(query) <= Backwards(contents)[id] {
        SuffixIsPrefix(query, contents[id]);
      }
    }

    /** The in-memory test for a prefix. It accepts every stored string with the prefix, and a pending
        one exactly if the prefix does not lie beyond all stored strings. */
    method MayStartWith(id: nat, query: Str) returns (may: bool)
      requires Valid() && IsStr(query)
      ensures id in contents && query <= contents[id] ==>
        (may <==> Stored(id) || prefixTable.bounds == [] || !Less(prefixTable.bounds[|prefixTable.bounds| - 1], query))
    {
      BoundsAscend(prefixTable, prefix, forwards, contents);
      may := IsMemberApprox(prefixTable, id, query);
      if id in contents && query <= contents[id] {
        if Stored(id) {
          AcceptsStored(prefixTable, prefix, forwards, contents, id, query);
        } else if prefixTable.bounds != [] {
          InsertedAcceptedIff(prefixTable, id, contents[id], query);
        }
      }
    }

    /** The in-memory test for a suffix. It accepts every stored string with the suffix, and every
        pending one with an id beyond the table, which insertions do not extend. */
    method MayEndWith(id: nat, query: Str) returns (may: bool)
      requires Valid() && IsStr(query)
      ensures id in contents && EndsWith(contents[id], query) && (Stored(id) || id >= |suffixTable.ids|) ==> may
    {
      BoundsAscend(suffixTable, suffix, backwards, Backwards(contents));
      may := IsMemberApprox(suffixTable, id, Reverse(query));
      if id in contents && EndsWith(contents[id], query) && Stored(id) {
        SuffixIsPrefix(query, contents[id]);
        AcceptsStored(suffixTable, suffix, backwards, Backwards(contents), id, Reverse(query));
      }
    }

    /** A new id with its string; pending strings are merged when they are many. */
    method Insert(id: nat, s: Str)
      requires Valid() && IsStr(s) && id !in contents
      modifies this
      ensures Valid() && contents == old(contents)[id := s]
      ensures old(deltaBytes) + 8 + 4 * |Pack(s)| < DELTA_BYTES ==>
        && forwards == old(forwards) && prefixTable.bounds == old(prefixTable).bounds && suffixTable == old(suffixTable)
      ensures old(deltaBytes) + 8 + 4 * |Pack(s)| >= DELTA_BYTES ==> prefix.delta == [] && suffix.delta == [] && PairsOf(forwards, contents)
      ensures deltaBytes == if old(deltaBytes) + 8 + 4 * |Pack(s)| < DELTA_BYTES then old(deltaBytes) + 8 + 4 * |Pack(s)| else 0
    {
      PushBoth(id, s);
      if deltaBytes >= DELTA_BYTES {
        Merge(map[]);
      }
    }

    method PushBoth(id: nat, s: Str)
      requires Valid() && IsStr(s) && id !in contents
      modifies `prefix, `suffix, `deltaBytes, `contents, `nVectors, `prefixTable
      ensures Valid() && contents == old(contents)[id := s]
      ensures deltaBytes == old(deltaBytes) + 8 + 4 * |Pack(s)| && prefixTable.bounds == old(prefixTable).bounds
      ensures nVectors >= old(nVectors) && nVectors > id && (nVectors == old(nVectors) || nVectors == id + 1)
    {
      ghost var m := contents;
      var t, n := PushTable(id, s);
      prefixTable, nVectors := t, n;
      PushSides(id, s);
      assert contents == m[id := s];
    }

    method PushTable(id: nat, s: Str) returns (t: Table, n: nat)
      requires Valid() && IsStr(s) && id !in contents
      ensures t.bounds == prefixTable.bounds && TablesOk(Tables(t, suffixTable, n, forwards, backwards, contents[id := s]))
      ensures n >= nVectors && n > id && (n == nVectors || n == id + 1)
    {
      BoundsAscend(prefixTable, prefix, forwards, contents);
      t := EnsureBucket(prefixTable, id, s);
      n := if nVectors < id + 1 then id + 1 else nVectors;
      StoredIds(prefix, forwards, contents, id);
      LaidStays(prefixTable, forwards, t, id);
      PendingMore(prefixTable, t, prefix, forwards, contents, id, s);
    }

    method PushSides(id: nat, s: Str)
      requires SidesOk(Sides(prefix, suffix, forwards, backwards, contents)) && IsStr(s) && id !in contents
      modifies `prefix, `suffix, `deltaBytes, `contents
      ensures SidesOk(Sides(prefix, suffix, forwards, backwards, contents)) && contents == old(contents)[id := s] && deltaBytes == old(deltaBytes) + 8 + 4 * |Pack(s)|
    {
      var p := Push(prefix, s, id, forwards, contents);
      var q := Push(suffix, Reverse(s), id, backwards, Backwards(contents));
      BackwardsPut(contents, id, s);
      prefix, suffix, deltaBytes := p, q, deltaBytes + 8 + 4 * |Pack(s)|;
      contents := contents[id := s];
    }

    /** Both files are rewritten with the pending strings in their places, ids renamed, and both tables
        laid out anew. */
    method Merge(idMap: map<nat, nat>)
      requires Valid() && Injective(idMap) && FitsSize(idMap)
      modifies this
      ensures Valid() && contents == Renamed(old(contents), idMap) && prefix.delta == [] && suffix.delta == [] && deltaBytes == 0
      ensures PairsOf(forwards, contents)
      ensures nVectors == |prefixTable.ids| == |suffixTable.ids| == if idMap == map[] then old(nVectors) else |idMap|
    {
      ghost var m := Renamed(contents, idMap);
      var data := Collect(prefix, idMap, forwards);
      forall x: Entry ensures x in data <==> x.id in m && m[x.id] == x.key {
        CollectedIs(forwards, prefix.delta, contents, idMap, x);
      }
      RenamedBelow(contents, idMap, nVectors);
      StringsRenamed(contents, idMap);
      Rewrite(data, if idMap == map[] then nVectors else |idMap|, m);
    }

    /** Both files and both tables are made anew. */
    method Rewrite(data: seq<Entry>, n: nat, ghost m: map<nat, Str>)
      requires PairsOf(data, m) && IdsBelow(m, n) && forall id | id in m :: IsStr(m[id])
      modifies this
      ensures Valid() && contents == m && prefix.delta == [] && suffix.delta == [] && deltaBytes == 0
      ensures PairsOf(forwards, contents) && nVectors == |prefixTable.ids| == |suffixTable.ids| == n
    {
      var f, es, g, back := WriteBoth(data, m);
      IdsOfPairs(es, m, n);
      IdsOfPairs(back, Backwards(m), n);
      var p := RebuildBuckets(es, n);
      var q := RebuildBuckets(back, n);
      NothingPending(p, q, n, es, back, m);
      Adopt(Side(f, []), Side(g, []), p, q, n, es, back, m);
    }

    method Adopt(f: Side, g: Side, p: Table, q: Table, n: nat, ghost es: seq<Entry>, ghost back: seq<Entry>, ghost m: map<nat, Str>)
      requires SidesOk(Sides(f, g, es, back, m)) && TablesOk(Tables(p, q, n, es, back, m))
      modifies this
      ensures Valid() && prefix == f && suffix == g && contents == m && forwards == es && deltaBytes == 0
      ensures nVectors == n && prefixTable == p && suffixTable == q
    {
      prefix, suffix, deltaBytes, nVectors := f, g, 0, n;
      prefixTable, suffixTable := p, q;
      forwards, backwards, contents := es, back, m;
    }
  }

  /** The two files. */
  method WriteBoth(data: seq<Entry>, ghost m: map<nat, Str>) returns (f: File, es: seq<Entry>, g: File, back: seq<Entry>)
    requires PairsOf(data, m) && forall id | id in m :: IsStr(m[id])
    ensures SidesOk(Sides(Side(f, []), Side(g, []), es, back, m))
    ensures PairsOf(es, m) && PairsOf(back, Backwards(m))
  {
    f, es := WriteSortedFile(data);
    var rev := ReverseAll(es);
    ReversedHold(es, rev, m);
    g, back := WriteSortedFile(rev);
    FreshSide(f, es, m);
    FreshSide(g, back, Backwards(m));
    MirroredFiles(es, back, m);
  }

  lemma IdsOfPairs(es: seq<Entry>, m: map<nat, Str>, n: nat)
    requires PairsOf(es, m) && IdsBelow(m, n)
    ensures forall e | e in es :: e.id < n
  {
  }

  lemma NothingPending(p: Table, q: Table, n: nat, es: seq<Entry>, back: seq<Entry>, m: map<nat, Str>)
    requires PairsOf(es, m) && IdsBelow(m, n) && Laid(p, es) && Laid(q, back)
    ensures TablesOk(Tables(p, q, n, es, back, m))
  {
    forall id | id in m ensures Entry(m[id], id) in es {
    }
  }

  lemma StringsRenamed(m: map<nat, Str>, idMap: map<nat, nat>)
    requires Injective(idMap) && forall id | id in m :: IsStr(m[id])
    ensures forall id | id in Renamed(m, idMap) :: IsStr(Renamed(m, idMap)[id])
  {
  }

  /** The scan for NOT (field = q), as the selectors make it: the ids that the index does not answer
      with. It loses exactly the strings that go on behind q. */
  method ScanNotEqual(ix: StringIndex, q: Str) returns (r: seq<nat>)
    requires ix.Valid() && IsStr(q)
    ensures Strict(r) && forall id: nat :: id in r <==> id < ix.nVectors && !(id in ix.contents && q <= ix.contents[id])
    ensures forall id | id in ix.contents && ix.contents[id] != q :: id !in r <==> q < ix.contents[id]
  {
    var answered := ix.PreFilterPrefix(q);
    AnsweredBelow(answered, ix.contents, ix.nVectors);
    r := Selector.Complement(answered, ix.nVectors);
    Lost(r, ix.contents, ix.nVectors, q);
  }

  lemma AnsweredBelow(ids: seq<nat>, m: map<nat, Str>, n: nat)
    requires IdsBelow(m, n) && forall id | id in ids :: id in m
    ensures forall id | id in ids :: id < n
  {
  }

  lemma Lost(r: seq<nat>, m: map<nat, Str>, n: nat, q: Str)
    requires IdsBelow(m, n) && forall id: nat :: id in r <==> id < n && !(id in m && q <= m[id])
    ensures forall id | id in m && m[id] != q :: id !in r <==> q < m[id]
  {
  }

  /** A string inserted beyond the only stored one is rejected when it is asked for. */
  method PendingRejected(a: Str, b: Str) returns (ix: StringIndex, may: bool)
    requires IsStr(a) && IsStr(b) && Less(a, b) && |b| <= 1000000
    ensures 1 in ix.contents && ix.contents[1] == b && !may
  {
    ix := OnePending(a, b);
    may := ix.MayStartWith(1, b);
    BeyondMeans(ix.prefixTable, ix.forwards, ix.contents, b);
  }

  method OnePending(a: Str, b: Str) returns (ix: StringIndex)
    requires IsStr(a) && IsStr(b) && Less(a, b) && |b| <= 1000000
    ensures ix.Valid() && Beyond(ix.prefixTable, ix.forwards, ix.contents, b)
  {
    ix := OneStored(a);
    ghost var m, es, t := ix.contents, ix.forwards, ix.prefixTable;
    ix.Insert(1, b);
    OnlyBeyond(t, ix.prefixTable, es, m, a, b);
  }

  /** Vector 1 has key b, which is pending and lies beyond the last boundary. */
  ghost predicate Beyond(t: Table, es: seq<Entry>, m: map<nat, Str>, b: Str) {
    match t
    case Table(bounds, _) => 1 in m && m[1] == b && Entry(b, 1) !in es && bounds != [] && Less(bounds[|bounds| - 1], b)
  }

  lemma BeyondMeans(t: Table, es: seq<Entry>, m: map<nat, Str>, b: Str)
    requires Beyond(t, es, m, b)
    ensures 1 in m && m[1] == b && b <= m[1] && Entry(m[1], 1) !in es && t.bounds != [] && Less(t.bounds[|t.bounds| - 1], b)
  {
  }

  lemma OnlyBeyond(t: Table, r: Table, es: seq<Entry>, m: map<nat, Str>, a: Str, b: Str)
    requires OnlyStored(t, es, a) && Less(a, b) && r.bounds == t.bounds
    ensures Beyond(r, es, m[1 := b], b)
  {
  }

  /** The file holds vector 0 alone, with this key, which is the last boundary. */
  ghost predicate OnlyStored(t: Table, es: seq<Entry>, a: Str) {
    match t
    case Table(bounds, _) => bounds != [] && bounds[|bounds| - 1] == a && forall e | e in es :: e.id == 0
  }

  method OneStored(a: Str) returns (ix: StringIndex)
    requires IsStr(a)
    ensures fresh(ix) && ix.Valid() && ix.deltaBytes == 0 && 1 !in ix.contents && OnlyStored(ix.prefixTable, ix.forwards, a)
  {
    ix := new StringIndex([a]);
    LastBoundary(ix.prefixTable, ix.forwards, ix.contents, a);
  }

  lemma LastBoundary(t: Table, es: seq<Entry>, m: map<nat, Str>, a: Str)
    requires Laid(t, es) && PairsOf(es, m) && m == Numbered([a])
    ensures OnlyStored(t, es, a)
  {
    assert Entry(a, 0) in es;
    assert es[BoundaryIndex(BUCKETS, |es|)] in es;
  }
}
