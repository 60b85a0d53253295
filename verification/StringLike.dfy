/** LIKE queries on the string index (include/filter/attribute.h): the literal ends of a pattern
    bound the part of the file to scan. */
module StringLike {

  import opened SortedIds
  import opened StringKeys
  import opened StringFiles
  import opened StringIndex
  import FilterExpr
  import LikeMatch

  predicate Wild(c: char) {
    c == '%' || c == '_'
  }

  /** The literal start of a pattern. */
  function FixedPrefix(p: Str): (q: Str)
    ensures q <= p && (forall i | 0 <= i < |q| :: !Wild(q[i])) && (|q| < |p| ==> Wild(p[|q|]))
  {
    if p == [] || Wild(p[0]) then [] else [p[0]] + FixedPrefix(p[1..])
  }

  /** The literal end of a pattern. */
  function FixedSuffix(p: Str): (q: Str)
    ensures |q| <= |p| && p[|p| - |q|..] == q && (forall i | 0 <= i < |q| :: !Wild(q[i]))
  {
    if p == [] || Wild(p[|p| - 1]) then [] else FixedSuffix(p[..|p| - 1]) + [p[|p| - 1]]
  }

  /** A match of two patterns one behind the other splits. */
  lemma {:induction false} SplitMatch(s: Str, p: Str, q: Str) returns (k: nat)
    requires LikeMatch.Matches(s, p + q)
    ensures k <= |s| && LikeMatch.Matches(s[k..], q)
    decreases |p|, |s|
  {
    if p == [] {
      k := 0;
      assert p + q == q && s[0..] == s;
    } else {
      assert (p + q)[0] == p[0] && (p + q)[1..] == p[1..] + q;
      if LikeMatch.Matches(s, p[1..] + q) && p[0] == '%' {
        k := SplitMatch(s, p[1..], q);
      } else {
        var j := SplitMatch(s[1..], if p[0] == '%' then p else p[1..], q);
        k := j + 1;
        assert s[1..][j..] == s[k..];
      }
    }
  }

  /** Everything that matches starts with the pattern's literal start, */
  lemma {:induction false} MatchStarts(s: Str, p: Str)
    requires LikeMatch.Matches(s, p)
    ensures FixedPrefix(p) <= s
  {
    if p != [] && !Wild(p[0]) {
      MatchStarts(s[1..], p[1..]);
      assert s == [s[0]] + s[1..];
    }
  }

  /** and ends with its literal end. */
  lemma MatchEnds(s: Str, p: Str)
    requires LikeMatch.Matches(s, p)
    ensures EndsWith(s, FixedSuffix(p))
  {
    var q := FixedSuffix(p);
    assert p == p[..|p| - |q|] + q;
    var k := SplitMatch(s, p[..|p| - |q|], q);
    assert '%' !in q && '_' !in q;
    LikeMatch.LiteralIs(s[k..], q);
  }

  /** Which file a pattern is looked up in, and under which prefix. */
  predicate UsesSuffix(p: Str) {
    p != [] && Wild(p[0]) && !Wild(p[|p| - 1])
  }

  function RangeKey(p: Str): Str {
    if UsesSuffix(p) then Reverse(FixedSuffix(p)) else FixedPrefix(p)
  }

  /** The upper end of the range; none when there is no literal end. */
  function RangeEnd(p: Str): Str {
    if RangeKey(p) == [] then [] else Next(RangeKey(p))
  }

  lemma RangeEndIs(p: Str)
    ensures RangeEnd(p) == Next(RangeKey(p))
  {
  }

  /** A match lies in the range, read in the direction of the file. */
  lemma MatchInRange(s: Str, p: Str)
    requires IsStr(s) && IsStr(p) && LikeMatch.Matches(s, p)
    ensures InRange(if UsesSuffix(p) then Reverse(s) else s, RangeKey(p), RangeEnd(p))
  {
    var key := RangeKey(p);
    if UsesSuffix(p) {
      MatchEnds(s, p);
      SuffixIsPrefix(FixedSuffix(p), s);
      PrefixIsRange(key, Reverse(s));
    } else {
      MatchStarts(s, p);
      PrefixIsRange(key, s);
    }
  }

  // ----- the query -----

  /** Parsing the words between two entry starts. */
  method ScanEntries(words: seq<Cell>, begin: nat, end: nat, ghost es: seq<Entry>, ghost base: nat, ghost a: nat, ghost b: nat)
    returns (r: seq<Entry>)
    requires IsFile(words, base, es) && a <= b <= |es| && begin == Pos(es, base, a) && end == Pos(es, base, b)
    ensures r == es[a..b]
  {
    r := [];
    var off: nat := begin;
    ghost var i: nat := a;
    while off + 2 <= end
      invariant Listed(es, base, a, i, b, off, r)
      decreases end - off
    {
      r, off := ListOne(words, off, end, r, es, base, a, i, b);
      i := i + 1;
    }
    PosMonotone(es, base, i, b);
  }

  method ListOne(words: seq<Cell>, off: nat, end: nat, r: seq<Entry>, ghost es: seq<Entry>, ghost base: nat, ghost a: nat, ghost i: nat, ghost b: nat)
    returns (more: seq<Entry>, next: nat)
    requires IsFile(words, base, es) && Listed(es, base, a, i, b, off, r) && end == Pos(es, base, b) && off + 2 <= end
    ensures i < b && Listed(es, base, a, i + 1, b, next, more) && off < next
  {
    ListNext(es, base, a, i, b, off, r);
    var e: Entry;
    e, next := ReadNext(words, off, es, base, i);
    more := r + [e];
  }

  /** The state of the scan: entries a to i are listed, the next one starts at `off`. */
  ghost predicate Listed(es: seq<Entry>, base: nat, a: nat, i: nat, b: nat, off: nat, r: seq<Entry>) {
    a <= i <= b <= |es| && off == Pos(es, base, i) && r == es[a..i]
  }

  lemma ListNext(es: seq<Entry>, base: nat, a: nat, i: nat, b: nat, off: nat, r: seq<Entry>)
    requires Listed(es, base, a, i, b, off, r) && off + 2 <= Pos(es, base, b)
    ensures i < b && Listed(es, base, a, i + 1, b, off + Size(es[i]), r + [es[i]])
  {
    PosNext(es, base, i, b);
    assert es[a..i + 1] == es[a..i] + [es[i]];
  }

  /** No stored string has a percent sign, and the pattern is a string. */
  ghost predicate Plain(m: map<nat, Str>) {
    forall id | id in m :: IsStr(m[id]) && LikeMatch.PercentFree(m[id])
  }

  /** A key as it was before it was turned round. */
  function Original(key: Str, backwards: bool): Str {
    if backwards then Reverse(key) else key
  }

  ghost predicate Hit(e: Entry, p: Str, backwards: bool) {
    LikeMatch.Matches(Original(e.key, backwards), p)
  }

  ghost predicate HasHit(es: seq<Entry>, p: Str, backwards: bool, id: nat) {
    exists i :: 0 <= i < |es| && es[i].id == id && Hit(es[i], p, backwards)
  }

  ghost predicate PlainKeys(es: seq<Entry>, backwards: bool) {
    forall i | 0 <= i < |es| :: IsStr(Original(es[i].key, backwards)) && LikeMatch.PercentFree(Original(es[i].key, backwards))
  }

  /** The callback of the scan. */
  method KeepHits(found: seq<Entry>, p: Str, backwards: bool) returns (ids: seq<nat>)
    requires PlainKeys(found, backwards)
    ensures forall id :: id in ids <==> HasHit(found, p, backwards, id)
  {
    ids := [];
    for i := 0 to |found|
      invariant forall id :: id in ids <==> HasHit(found[..i], p, backwards, id)
    {
      var hit := LikeMatch.LikeMatch(Original(found[i].key, backwards), p);
      HitNext(found, p, backwards, i);
      if hit {
        ids := ids + [found[i].id];
      }
    }
    assert found[..|found|] == found;
  }

  lemma HitNext(found: seq<Entry>, p: Str, backwards: bool, i: nat)
    requires i < |found|
    ensures forall id :: (HasHit(found[..i + 1], p, backwards, id)
      <==> HasHit(found[..i], p, backwards, id) || (found[i].id == id && Hit(found[i], p, backwards)))
  {
    forall id ensures HasHit(found[..i + 1], p, backwards, id)
      <==> HasHit(found[..i], p, backwards, id) || (found[i].id == id && Hit(found[i], p, backwards))
    {
      if HasHit(found[..i], p, backwards, id) {
        var j :| 0 <= j < i && found[..i][j].id == id && Hit(found[..i][j], p, backwards);
        assert found[..i + 1][j] == found[..i][j];
      }
      if found[i].id == id && Hit(found[i], p, backwards) {
        assert found[..i + 1][i] == found[i];
      }
      if HasHit(found[..i + 1], p, backwards, id) {
        var j :| 0 <= j < i + 1 && found[..i + 1][j].id == id && Hit(found[..i + 1][j], p, backwards);
        assert j < i ==> found[..i][j] == found[..i + 1][j];
      }
    }
  }

  /** The entries of the file that match. */
  method MatchingStored(side: Side, p: Str, backwards: bool, ghost es: seq<Entry>) returns (ids: seq<nat>)
    requires Holds(side.file, es) && IsStr(p) && backwards == UsesSuffix(p) && PlainKeys(es, backwards)
    ensures forall id :: id in ids <==> HasHit(es, p, backwards, id)
  {
    var found, a, b := ScanWindow(side.file, p, es);
    PlainPart(es, a, b, backwards);
    ids := KeepHits(found, p, backwards);
    WindowHits(es, a, b, p, backwards);
  }

  /** The entries of the part of the file that the range of the pattern cuts out. */
  method ScanWindow(f: File, p: Str, ghost es: seq<Entry>) returns (found: seq<Entry>, ghost a: nat, ghost b: nat)
    requires Holds(f, es) && IsStr(p)
    ensures IsWindow(es, a, b, RangeKey(p), RangeEnd(p)) && found == es[a..b]
  {
    KeyIsStr(p);
    var lo, hi := RangeKey(p), RangeEnd(p);
    PrefixIsRange(lo, lo);
    RangeEndIs(p);
    var begin, end;
    begin, end, a, b := ByteRange(f, lo, hi, es);
    found := [];
    if begin < end {
      found := ScanEntries(f.words, begin, end, es, f.base, a, b);
    }
  }

  lemma PlainPart(es: seq<Entry>, a: nat, b: nat, backwards: bool)
    requires a <= b <= |es| && PlainKeys(es, backwards)
    ensures PlainKeys(es[a..b], backwards)
  {
  }

  lemma KeyIsStr(p: Str)
    requires IsStr(p)
    ensures IsStr(RangeKey(p))
  {
    var q := FixedSuffix(p);
    assert forall i | 0 <= i < |q| :: q[i] == p[|p| - |q|..][i];
  }

  /** A hit lies in the window. */
  lemma HitInWindow(es: seq<Entry>, a: nat, b: nat, p: Str, backwards: bool, i: nat)
    requires IsWindow(es, a, b, RangeKey(p), RangeEnd(p)) && IsStr(p) && backwards == UsesSuffix(p) && PlainKeys(es, backwards)
    requires i < |es| && Hit(es[i], p, backwards)
    ensures a <= i < b
  {
    MatchInRange(Original(es[i].key, backwards), p);
    ReverseTwice(es[i].key);
  }

  /** No hit lies outside the window. */
  lemma WindowHits(es: seq<Entry>, a: nat, b: nat, p: Str, backwards: bool)
    requires IsWindow(es, a, b, RangeKey(p), RangeEnd(p)) && IsStr(p) && backwards == UsesSuffix(p) && PlainKeys(es, backwards)
    ensures forall id :: HasHit(es[a..b], p, backwards, id) <==> HasHit(es, p, backwards, id)
  {
    forall id ensures HasHit(es[a..b], p, backwards, id) <==> HasHit(es, p, backwards, id) {
      if HasHit(es, p, backwards, id) {
        var i :| 0 <= i < |es| && es[i].id == id && Hit(es[i], p, backwards);
        HitInWindow(es, a, b, p, backwards, i);
        assert es[a..b][i - a] == es[i];
      }
    }
  }

  /** An id among the first n pending keys that are in range and match. */
  ghost predicate HasPending(delta: seq<Bucket>, n: nat, p: Str, id: nat)
    requires n <= |delta|
  {
    exists i :: 0 <= i < n && InRange(delta[i].key, RangeKey(p), RangeEnd(p)) && LikeMatch.Matches(delta[i].key, p) && id in delta[i].ids
  }

  /** The pending keys between the two ends of the range. */
  lemma SpanIsRange(delta: seq<Bucket>, lo: Str, hi: Str, a: nat, b: nat)
    requires IsLowerBound(Keys(delta), lo, a) && (if hi == [] then b == |delta| else IsLowerBound(Keys(delta), hi, b))
    ensures forall i | 0 <= i < |delta| :: a <= i < b <==> InRange(delta[i].key, lo, hi)
  {
    var ks := Keys(delta);
    assert forall i | 0 <= i < |delta| :: ks[i] == delta[i].key;
  }

  /** The scan of the pending strings, which are those of the forward direction. */
  method MatchingPending(delta: seq<Bucket>, p: Str, ids: seq<nat>) returns (result: seq<nat>)
    requires KeysAscend(delta) && forall i | 0 <= i < |delta| && delta[i].ids != [] :: LikeMatch.PercentFree(delta[i].key)
    ensures forall id :: id in result <==> id in ids || HasPending(delta, |delta|, p, id)
  {
    KeysSorted(delta);
    var lo, hi := RangeKey(p), RangeEnd(p);
    var it := LowerBound(Keys(delta), lo);
    var end := |delta|;
    if hi != [] {
      end := LowerBound(Keys(delta), hi);
    }
    SpanIsRange(delta, lo, hi, it, end);
    result := ids;
    while it < end
      invariant it <= |delta| && (forall id :: id in result <==> id in ids || HasPending(delta, it, p, id))
    {
      var hit := LikeMatch.LikeMatch(delta[it].key, p);
      PendingNext(delta, it, p);
      if hit {
        result := result + delta[it].ids;
      }
      it := it + 1;
    }
    PendingRest(delta, it, p);
  }

  lemma PendingNext(delta: seq<Bucket>, i: nat, p: Str)
    requires i < |delta|
    ensures var key := delta[i].key; var hit := InRange(key, RangeKey(p), RangeEnd(p)) && LikeMatch.Matches(key, p);
      forall id :: HasPending(delta, i + 1, p, id) <==> HasPending(delta, i, p, id) || (hit && id in delta[i].ids)
  {
  }

  lemma PendingRest(delta: seq<Bucket>, n: nat, p: Str)
    requires n <= |delta| && forall i | n <= i < |delta| :: !InRange(delta[i].key, RangeKey(p), RangeEnd(p))
    ensures forall id :: (HasPending(delta, |delta|, p, id) <==> HasPending(delta, n, p, id))
  {
  }

  // ----- the whole query -----

  /** A string that the query overlooks: it is still pending, the pattern is looked up by its literal
      end, and the string itself does not lie in the range of that end read backwards. */
  ghost predicate Overlooked(stored: seq<Entry>, s: Str, id: nat, p: Str) {
    UsesSuffix(p) && Entry(s, id) !in stored && !InRange(s, RangeKey(p), RangeEnd(p))
  }

  /** The LIKE query: the ids that match, but for those overlooked. */
  method PreFilterLike(ix: StringIndex, p: Str) returns (result: seq<nat>)
    requires ix.Valid() && IsStr(p) && Plain(ix.contents)
    ensures Strict(result)
    ensures forall id :: id in result <==>
      id in ix.contents && LikeMatch.Matches(ix.contents[id], p) && !Overlooked(ix.forwards, ix.contents[id], id, p)
  {
    ghost var m := ix.contents;
    var ids: seq<nat>;
    PendingPlain(ix.prefix, ix.forwards, m);
    if UsesSuffix(p) {
      StoredPlain(ix.suffix, ix.backwards, m, Backwards(m), true);
      ids := MatchingStored(ix.suffix, p, true, ix.backwards);
    } else {
      StoredPlain(ix.prefix, ix.forwards, m, m, false);
      ids := MatchingStored(ix.prefix, p, false, ix.forwards);
    }
    var raw := MatchingPending(ix.prefix.delta, p, ids);
    forall id ensures id in raw <==> id in m && LikeMatch.Matches(m[id], p) && !Overlooked(ix.forwards, m[id], id, p) {
      LikeExact(ix.prefix.delta, ix.forwards, if UsesSuffix(p) then ix.backwards else ix.forwards, m, p, id);
    }
    result := SortUnique(raw);
  }

  lemma StoredPlain(side: Side, es: seq<Entry>, m: map<nat, Str>, k: map<nat, Str>, backwards: bool)
    requires SideOk(side, es, k) && Plain(m) && k == if backwards then Backwards(m) else m
    ensures PlainKeys(es, backwards)
  {
    forall i | 0 <= i < |es| ensures IsStr(Original(es[i].key, backwards)) && LikeMatch.PercentFree(Original(es[i].key, backwards)) {
      assert Entry(es[i].key, es[i].id) == es[i];
      assert es[i].id in k && k[es[i].id] == es[i].key;
      ReverseTwice(m[es[i].id]);
    }
  }

  lemma PendingPlain(side: Side, es: seq<Entry>, m: map<nat, Str>)
    requires SideOk(side, es, m) && Plain(m)
    ensures forall i | 0 <= i < |side.delta| && side.delta[i].ids != [] :: LikeMatch.PercentFree(side.delta[i].key)
  {
    forall i | 0 <= i < |side.delta| && side.delta[i].ids != [] ensures LikeMatch.PercentFree(side.delta[i].key) {
      var key, id := side.delta[i].key, side.delta[i].ids[0];
      assert Pending(side.delta, key, id);
    }
  }

  /** What the two scans find, id by id. */
  lemma LikeExact(delta: seq<Bucket>, es: seq<Entry>, scanned: seq<Entry>, m: map<nat, Str>, p: Str, id: nat)
    requires Agrees(es, delta, m) && Plain(m) && IsStr(p)
    requires if UsesSuffix(p) then Mirrored(es, scanned) else scanned == es
    ensures HasHit(scanned, p, UsesSuffix(p), id) || HasPending(delta, |delta|, p, id)
      <==> id in m && LikeMatch.Matches(m[id], p) && !Overlooked(es, m[id], id, p)
  {
    if HasHit(scanned, p, UsesSuffix(p), id) {
      HitIsStored(es, scanned, p, id);
      var s :| Entry(s, id) in es && LikeMatch.Matches(s, p);
      assert id in m && m[id] == s;
    }
    if HasPending(delta, |delta|, p, id) {
      var i :| 0 <= i < |delta| && InRange(delta[i].key, RangeKey(p), RangeEnd(p)) && LikeMatch.Matches(delta[i].key, p) && id in delta[i].ids;
      assert Pending(delta, delta[i].key, id);
    }
    if id in m && LikeMatch.Matches(m[id], p) && !Overlooked(es, m[id], id, p) {
      if Entry(m[id], id) in es {
        StoredIsHit(es, scanned, m[id], p, id);
      } else {
        assert Pending(delta, m[id], id);
        MatchInRange(m[id], p);
      }
    }
  }

  lemma HitIsStored(es: seq<Entry>, scanned: seq<Entry>, p: Str, id: nat)
    requires HasHit(scanned, p, UsesSuffix(p), id) && if UsesSuffix(p) then Mirrored(es, scanned) else scanned == es
    ensures exists s :: Entry(s, id) in es && LikeMatch.Matches(s, p)
  {
    var i :| 0 <= i < |scanned| && scanned[i].id == id && Hit(scanned[i], p, UsesSuffix(p));
    var s := Original(scanned[i].key, UsesSuffix(p));
    ReverseTwice(scanned[i].key);
    assert scanned[i] == Entry(scanned[i].key, id);
    assert Entry(s, id) in es;
  }

  lemma StoredIsHit(es: seq<Entry>, scanned: seq<Entry>, s: Str, p: Str, id: nat)
    requires Entry(s, id) in es && LikeMatch.Matches(s, p) && if UsesSuffix(p) then Mirrored(es, scanned) else scanned == es
    ensures HasHit(scanned, p, UsesSuffix(p), id)
  {
    var e := Entry(if UsesSuffix(p) then Reverse(s) else s, id);
    ReverseTwice(s);
    assert e in scanned;
    var i :| 0 <= i < |scanned| && scanned[i] == e;
    assert Hit(scanned[i], p, UsesSuffix(p));
  }

  // ----- what is overlooked -----

  /** A match outside the range that the pending strings are cut down to. */
  ghost predicate Outside(s: Str, p: Str) {
    IsStr(s) && IsStr(p) && LikeMatch.PercentFree(s) && LikeMatch.Matches(s, p) && UsesSuffix(p) && !InRange(s, RangeKey(p), RangeEnd(p))
  }

  /** Every such string, inserted into an empty index and asked for, is not found. */
  method OverlookedRun(s: Str, p: Str) returns (ix: StringIndex, result: seq<nat>)
    requires Outside(s, p) && |s| <= 1000000
    ensures 0 in ix.contents && ix.contents[0] == s && 0 !in result
  {
    ix := OnlyPending(s);
    SingleMeans(ix.forwards, ix.contents, s);
    result := PreFilterLike(ix, p);
    SingleOverlooked(ix.forwards, ix.contents, s, p);
  }

  method OnlyPending(s: Str) returns (ix: StringIndex)
    requires IsStr(s) && LikeMatch.PercentFree(s) && |s| <= 1000000
    ensures ix.Valid() && Single(ix.forwards, ix.contents, s)
  {
    ix := Empty();
    ix.Insert(0, s);
    SingleIs(ix.forwards, ix.contents, s);
  }

  method Empty() returns (ix: StringIndex)
    ensures fresh(ix) && ix.Valid() && ix.deltaBytes == 0 && ix.contents == map[] && NoEntry(ix.forwards)
  {
    ix := new StringIndex([]);
    NoPairs(ix.forwards, ix.contents);
  }

  ghost predicate NoEntry(es: seq<Entry>) {
    forall e: Entry :: e !in es
  }

  lemma NoPairs(es: seq<Entry>, m: map<nat, Str>)
    requires PairsOf(es, m) && m == map[]
    ensures NoEntry(es)
  {
  }

  /** One string, pending. */
  ghost predicate Single(es: seq<Entry>, m: map<nat, Str>, s: Str) {
    NoEntry(es) && m == map[0 := s] && Plain(m)
  }

  lemma SingleIs(es: seq<Entry>, m: map<nat, Str>, s: Str)
    requires NoEntry(es) && m == map[][0 := s] && IsStr(s) && LikeMatch.PercentFree(s)
    ensures Single(es, m, s)
  {
  }

  lemma SingleMeans(es: seq<Entry>, m: map<nat, Str>, s: Str)
    requires Single(es, m, s)
    ensures Plain(m) && 0 in m && m[0] == s
  {
  }

  lemma SingleOverlooked(es: seq<Entry>, m: map<nat, Str>, s: Str, p: Str)
    requires Single(es, m, s) && Outside(s, p)
    ensures 0 in m && Overlooked(es, m[0], 0, p)
  {
  }

  /** For instance `ab` for the pattern `_b`, which the parser leaves a LIKE. */
  lemma OverlookedExample()
    ensures Outside("ab", "_b") && FilterExpr.LikeClause("_b") == FilterExpr.Like(FilterExpr.Quoted("_b"))
  {
    LikeMatch.LiteralIs("b", "b");
    assert "_b"[1..] == "b" && "ab"[1..] == "b";
    EndOfExample();
    assert Less("ab", "b");
  }

  lemma EndOfExample()
    ensures RangeKey("_b") == "b" && UsesSuffix("_b")
  {
    assert "_b"[..1] == "_";
    assert FixedSuffix("_") == "" && FixedSuffix("_b") == "b";
    assert Reverse("b") == "b";
  }
}
