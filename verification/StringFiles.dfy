/** The files of the string index of include/filter/attribute.h: sorted by key, sampled every thousand
    entries, with the strings inserted since beside them. */
module StringFiles {

  import opened IdMaps
  import opened Search
  import opened SortedIds
  import opened StringKeys

  const SAMPLE_RATE := 1000

  datatype Entry = Entry(key: Str, id: nat)

  // ----- the file -----

  /** The words an entry takes: id, length and packed key. */
  function Size(e: Entry): (n: nat)
    ensures n >= 2
  {
    2 + |Pack(e.key)|
  }

  /** Where entry i starts, for entries that start at `base`. */
  function Pos(es: seq<Entry>, base: nat, i: nat): (p: nat)
    requires i <= |es|
    ensures p >= base + 2 * i
  {
    if i == 0 then base else Pos(es, base, i - 1) + Size(es[i - 1])
  }

  lemma {:induction false} PosMonotone(es: seq<Entry>, base: nat, i: nat, j: nat)
    requires i <= j <= |es|
    ensures Pos(es, base, i) + 2 * (j - i) <= Pos(es, base, j)
    decreases j
  {
    if i < j {
      PosMonotone(es, base, i, j - 1);
    }
  }

  ghost predicate EntryAt(words: seq<Cell>, p: nat, e: Entry) {
    && p + Size(e) <= |words|
    && words[p] == Num(e.id) && words[p + 1] == Num(|Pack(e.key)|) && words[p + 2..p + Size(e)] == Pack(e.key)
  }

  /** The words from `base` on are the entries, one behind the other. */
  ghost predicate IsFile(words: seq<Cell>, base: nat, es: seq<Entry>) {
    |words| == Pos(es, base, |es|) && AreAt(words, base, es, |es|)
  }

  ghost predicate AreAt(words: seq<Cell>, base: nat, es: seq<Entry>, n: nat)
    requires n <= |es|
  {
    n == 0 || (AreAt(words, base, es, n - 1) && EntryAt(words, Pos(es, base, n - 1), es[n - 1]) && IsStr(es[n - 1].key))
  }

  lemma {:induction false} IsAt(words: seq<Cell>, base: nat, es: seq<Entry>, n: nat, i: nat)
    requires i < n <= |es| && AreAt(words, base, es, n)
    ensures EntryAt(words, Pos(es, base, i), es[i]) && IsStr(es[i].key)
  {
    if i < n - 1 {
      IsAt(words, base, es, n - 1, i);
    }
  }

  ghost predicate Sorted(es: seq<Entry>) {
    forall i, j | 0 <= i < j < |es| :: !Less(es[j].key, es[i].key)
  }

  /** A file in memory terms: how many entries it has, its words, where the entries start, and the samples. */
  datatype File = File(n: nat, words: seq<Cell>, base: nat, offsets: seq<nat>, histogram: seq<Str>)

  /** Sample k is entry k * 1000: its key and where it starts. */
  ghost predicate SampleIs(offsets: seq<nat>, histogram: seq<Str>, es: seq<Entry>, base: nat, k: nat)
    requires k < |offsets| == |histogram|
  {
    k * SAMPLE_RATE < |es| && histogram[k] == es[k * SAMPLE_RATE].key && offsets[k] == Pos(es, base, k * SAMPLE_RATE)
  }

  ghost predicate AreSamples(offsets: seq<nat>, histogram: seq<Str>, es: seq<Entry>, base: nat) {
    |offsets| == |histogram| && forall k | 0 <= k < |offsets| :: SampleIs(offsets, histogram, es, base, k)
  }

  /** The words before the entries: how many entries and samples there are, and where each sample
      starts, a number of two words. */
  ghost predicate HasHeader(f: File) {
    match f
    case File(n, words, base, offsets, _) =>
      && base == 2 + 2 * |offsets| <= |words| && words[0] == Num(n) && words[1] == Num(|offsets|)
      && forall k | 0 <= k < |offsets| :: WideAt(words, 2 + 2 * k, offsets[k])
  }

  ghost predicate WideAt(words: seq<Cell>, p: nat, x: nat) {
    p + 1 < |words| && words[p] == Num(x) && words[p + 1] == Num(0)
  }

  /** The file holds these entries, sorted, with a sample from every thousandth. */
  ghost predicate Holds(f: File, es: seq<Entry>) {
    && f.n == |es| && IsFile(f.words, f.base, es) && Sorted(es) && HasHeader(f)
    && |es| <= |f.offsets| * SAMPLE_RATE && AreSamples(f.offsets, f.histogram, es, f.base)
  }

  // ----- scanning -----

  /** The ids of entries a to b whose key is in range, in order. */
  ghost function Matching(es: seq<Entry>, a: nat, b: nat, lo: Str, hi: Str): seq<nat>
    requires a <= b <= |es|
    decreases b
  {
    if a == b then []
    else Matching(es, a, b - 1, lo, hi) + if InRange(es[b - 1].key, lo, hi) then [es[b - 1].id] else []
  }

  lemma {:induction false} MatchingIs(es: seq<Entry>, a: nat, b: nat, lo: Str, hi: Str, id: nat)
    requires a <= b <= |es|
    ensures id in Matching(es, a, b, lo, hi) <==> exists i :: a <= i < b && es[i].id == id && InRange(es[i].key, lo, hi)
    decreases b
  {
    if a < b {
      MatchingIs(es, a, b - 1, lo, hi, id);
      if id in Matching(es, a, b, lo, hi) && id !in Matching(es, a, b - 1, lo, hi) {
        assert es[b - 1].id == id && InRange(es[b - 1].key, lo, hi);
      }
    }
  }

  /** Parsing one entry. */
  method ReadEntry(words: seq<Cell>, off: nat, ghost e: Entry) returns (id: nat, klen: nat, key: Str)
    requires EntryAt(words, off, e) && IsStr(e.key)
    ensures id == e.id && key == e.key && 2 + klen == Size(e)
  {
    id, klen := words[off].n, words[off + 1].n;
    ViewOfPacked(e.key);
    key := View(words[off + 2..off + 2 + klen]);
  }

  /** The entry that starts at `off`, and where the next one does. */
  method ReadNext(words: seq<Cell>, off: nat, ghost es: seq<Entry>, ghost base: nat, ghost i: nat) returns (e: Entry, next: nat)
    requires IsFile(words, base, es) && i < |es| && off == Pos(es, base, i)
    ensures e == es[i] && next == off + Size(es[i])
  {
    IsAt(words, base, es, |es|, i);
    var id, klen, key := ReadEntry(words, off, es[i]);
    e, next := Entry(key, id), off + 2 + klen;
  }

  /** The state of the scan: entries a to i are done, the next one starts at `off`. */
  ghost predicate Scanned(es: seq<Entry>, base: nat, a: nat, i: nat, b: nat, off: nat, lo: Str, hi: Str, ids: seq<nat>) {
    a <= i <= b <= |es| && off == Pos(es, base, i) && ids == Matching(es, a, i, lo, hi)
  }

  lemma ScanNext(es: seq<Entry>, base: nat, a: nat, i: nat, b: nat, off: nat, lo: Str, hi: Str, ids: seq<nat>)
    requires Scanned(es, base, a, i, b, off, lo, hi, ids) && off + 2 <= Pos(es, base, b)
    ensures i < b && off + Size(es[i]) <= Pos(es, base, b)
    ensures Scanned(es, base, a, i + 1, b, off + Size(es[i]), lo, hi, if InRange(es[i].key, lo, hi) then ids + [es[i].id] else ids)
  {
    PosNext(es, base, i, b);
    assert ids + [] == ids;
  }

  lemma PosNext(es: seq<Entry>, base: nat, i: nat, b: nat)
    requires i <= b <= |es| && Pos(es, base, i) + 2 <= Pos(es, base, b)
    ensures i < b && Pos(es, base, i + 1) == Pos(es, base, i) + Size(es[i]) <= Pos(es, base, b)
  {
    if i < b {
      PosMonotone(es, base, i + 1, b);
    }
  }

  lemma ScanEnd(es: seq<Entry>, base: nat, a: nat, i: nat, b: nat, off: nat, lo: Str, hi: Str, ids: seq<nat>)
    requires Scanned(es, base, a, i, b, off, lo, hi, ids) && off + 2 > Pos(es, base, b)
    ensures i == b
  {
    PosMonotone(es, base, i, b);
  }

  /** One entry of the scan. The entry never reaches beyond the end. */
  method ScanOne(words: seq<Cell>, off: nat, end: nat, lo: Str, hi: Str, ids: seq<nat>,
                 ghost es: seq<Entry>, ghost base: nat, ghost a: nat, ghost i: nat, ghost b: nat) returns (more: seq<nat>, next: nat)
    requires IsFile(words, base, es) && Scanned(es, base, a, i, b, off, lo, hi, ids) && end == Pos(es, base, b) && off + 2 <= end
    ensures i < b && Scanned(es, base, a, i + 1, b, next, lo, hi, more) && off < next <= end
  {
    ScanNext(es, base, a, i, b, off, lo, hi, ids);
    var e: Entry;
    e, next := ReadNext(words, off, es, base, i);
    more := if InRange(e.key, lo, hi) then ids + [e.id] else ids;
  }

  /** Parsing the words between two entry starts, keeping the ids whose key is in range. */
  method ScanRange(words: seq<Cell>, begin: nat, end: nat, lo: Str, hi: Str, ghost es: seq<Entry>, ghost base: nat, ghost a: nat, ghost b: nat)
    returns (ids: seq<nat>)
    requires IsFile(words, base, es) && a <= b <= |es| && begin == Pos(es, base, a) && end == Pos(es, base, b)
    ensures ids == Matching(es, a, b, lo, hi)
  {
    ids := [];
    var off: nat := begin;
    ghost var i: nat := a;
    while off + 2 <= end
      invariant Scanned(es, base, a, i, b, off, lo, hi, ids)
      decreases end - off
    {
      ids, off := ScanOne(words, off, end, lo, hi, ids, es, base, a, i, b);
      i := i + 1;
    }
    ScanEnd(es, base, a, i, b, off, lo, hi, ids);
  }

  // ----- which part of the file to scan -----

  ghost predicate Ascending(h: seq<Str>) {
    forall i, j | 0 <= i < j < |h| :: !Less(h[j], h[i])
  }

  ghost predicate IsLowerBound(h: seq<Str>, x: Str, k: nat) {
    k <= |h| && (forall i | 0 <= i < k :: Less(h[i], x)) && (forall i | k <= i < |h| :: !Less(h[i], x))
  }

  method LowerBound(h: seq<Str>, x: Str) returns (k: nat)
    requires Ascending(h)
    ensures IsLowerBound(h, x, k)
  {
    SplitsBelow(h, x);
    k := PartitionPoint(h, y => Less(y, x));
  }

  lemma SplitsBelow(h: seq<Str>, x: Str)
    requires Ascending(h)
    ensures Partitioned(h, y => Less(y, x))
  {
    forall i, j | 0 <= i < j < |h| && Less(h[j], x) ensures Less(h[i], x) {
      LeastLess(h[i], h[j], x);
    }
  }

  lemma BoundsOrdered(h: seq<Str>, lo: Str, hi: Str, i: nat, j: nat)
    requires IsLowerBound(h, lo, i) && IsLowerBound(h, hi, j) && Less(lo, hi)
    ensures i <= j
  {
    if j < i {
      LessTransitive(h[j], lo, hi);
    }
  }

  lemma HistogramAscends(f: File, es: seq<Entry>)
    requires Holds(f, es)
    ensures Ascending(f.histogram)
  {
    var h := f.histogram;
    forall i, j | 0 <= i < j < |h| ensures !Less(h[j], h[i]) {
      assert SampleIs(f.offsets, f.histogram, es, f.base, i) && SampleIs(f.offsets, f.histogram, es, f.base, j);
    }
  }

  /** Entries before a are below the range, those from b on above it. */
  ghost predicate IsWindow(es: seq<Entry>, a: nat, b: nat, lo: Str, hi: Str) {
    && a <= b <= |es|
    && (forall i | 0 <= i < a :: Less(es[i].key, lo))
    && (forall i | b <= i < |es| :: hi != [] && !Less(es[i].key, hi))
  }

  /** All matches lie in the window. */
  lemma WindowHasAll(es: seq<Entry>, a: nat, b: nat, lo: Str, hi: Str, id: nat)
    requires IsWindow(es, a, b, lo, hi)
    ensures id in Matching(es, a, b, lo, hi) <==> exists i :: 0 <= i < |es| && es[i].id == id && InRange(es[i].key, lo, hi)
  {
    MatchingIs(es, a, b, lo, hi, id);
  }

  lemma BelowSample(es: seq<Entry>, p: nat, lo: Str)
    requires Sorted(es) && p < |es| && Less(es[p].key, lo)
    ensures forall i | 0 <= i < p :: Less(es[i].key, lo)
  {
    forall i | 0 <= i < p ensures Less(es[i].key, lo) {
      LeastLess(es[i].key, es[p].key, lo);
    }
  }

  lemma AboveSample(es: seq<Entry>, p: nat, hi: Str)
    requires Sorted(es) && p < |es| && !Less(es[p].key, hi)
    ensures forall i | p <= i < |es| :: !Less(es[i].key, hi)
  {
    forall i | p < i < |es| ensures !Less(es[i].key, hi) {
      NotLessTransitive(hi, es[p].key, es[i].key);
    }
  }

  /** The window starts less than a stride too early and ends less than two too late. */
  ghost predicate IsTight(es: seq<Entry>, a: nat, b: nat, lo: Str, hi: Str) {
    && (forall i | 0 <= i < |es| && a + SAMPLE_RATE <= i :: !Less(es[i].key, lo))
    && (hi != [] ==> forall i | 0 <= i < |es| && i + 2 * SAMPLE_RATE <= b :: Less(es[i].key, hi))
  }

  lemma TightBelow(f: File, es: seq<Entry>, lo: Str, k1: nat)
    requires Holds(f, es) && IsLowerBound(f.histogram, lo, k1)
    ensures forall i | 0 <= i < |es| && k1 * SAMPLE_RATE <= i :: !Less(es[i].key, lo)
  {
    if k1 < |f.histogram| {
      assert SampleIs(f.offsets, f.histogram, es, f.base, k1);
      AboveSample(es, k1 * SAMPLE_RATE, lo);
    }
  }

  lemma TightAbove(f: File, es: seq<Entry>, hi: Str, k2: nat)
    requires Holds(f, es) && IsLowerBound(f.histogram, hi, k2)
    ensures forall i | 0 <= i < |es| && i + SAMPLE_RATE <= k2 * SAMPLE_RATE :: Less(es[i].key, hi)
  {
    if k2 > 0 {
      assert SampleIs(f.offsets, f.histogram, es, f.base, k2 - 1);
      BelowSample(es, (k2 - 1) * SAMPLE_RATE, hi);
    }
  }

  /** The words to scan for a range: from the last sample below it to one past the first above. */
  method ByteRange(f: File, lo: Str, hi: Str, ghost es: seq<Entry>) returns (begin: nat, end: nat, ghost a: nat, ghost b: nat)
    requires Holds(f, es) && (hi == [] || Less(lo, hi))
    ensures IsWindow(es, a, b, lo, hi) && (begin < end ==> begin == Pos(es, f.base, a) && end == Pos(es, f.base, b))
    ensures (begin >= end ==> a == b) && IsTight(es, a, b, lo, hi)
  {
    if |f.histogram| == 0 {
      begin, end, a, b := 0, 0, 0, 0;
      return;
    }
    HistogramAscends(f, es);
    var k1 := LowerBound(f.histogram, lo);
    var l := if k1 == 0 then 0 else k1 - 1;
    var r := |f.offsets|;
    ghost var k2 := |f.offsets|;
    if hi != [] {
      r := LowerBound(f.histogram, hi);
      k2 := r;
      BoundsOrdered(f.histogram, lo, hi, k1, k2);
      if r < |f.offsets| {
        r := r + 1;
      }
    }
    begin := f.offsets[l];
    end := if r >= |f.offsets| then |f.words| else f.offsets[r];
    a := l * SAMPLE_RATE;
    b := if r >= |f.offsets| then |es| else r * SAMPLE_RATE;
    assert SampleIs(f.offsets, f.histogram, es, f.base, l);
    assert r < |f.offsets| ==> SampleIs(f.offsets, f.histogram, es, f.base, r);
    PosMonotone(es, f.base, a, b);
    WindowBelow(f, es, lo, k1);
    TightBelow(f, es, lo, k1);
    if hi != [] {
      TightAbove(f, es, hi, k2);
    }
    WindowAbove(f, es, hi, k2, r);
  }

  lemma WindowBelow(f: File, es: seq<Entry>, lo: Str, k1: nat)
    requires Holds(f, es) && IsLowerBound(f.histogram, lo, k1)
    ensures k1 > 0 ==> forall i | 0 <= i < (k1 - 1) * SAMPLE_RATE :: i < |es| && Less(es[i].key, lo)
  {
    if k1 > 0 {
      assert SampleIs(f.offsets, f.histogram, es, f.base, k1 - 1);
      BelowSample(es, (k1 - 1) * SAMPLE_RATE, lo);
    }
  }

  lemma WindowAbove(f: File, es: seq<Entry>, hi: Str, k2: nat, r: nat)
    requires Holds(f, es) && r <= |f.offsets|
    requires r < |f.offsets| ==> hi != [] && IsLowerBound(f.histogram, hi, k2) && r == k2 + 1
    ensures r < |f.offsets| ==> forall i | r * SAMPLE_RATE <= i < |es| :: !Less(es[i].key, hi)
  {
    if r < |f.offsets| {
      assert SampleIs(f.offsets, f.histogram, es, f.base, r);
      AboveSample(es, r * SAMPLE_RATE, hi);
    }
  }

  // ----- writing the file -----

  lemma EntryGrows(words: seq<Cell>, more: seq<Cell>, p: nat, e: Entry)
    requires EntryAt(words, p, e)
    ensures EntryAt(words + more, p, e)
  {
    assert (words + more)[p + 2..p + Size(e)] == words[p + 2..p + Size(e)];
  }

  lemma {:induction false} FileGrows(words: seq<Cell>, more: seq<Cell>, base: nat, es: seq<Entry>, n: nat)
    requires n <= |es| && AreAt(words, base, es, n)
    ensures AreAt(words + more, base, es, n)
  {
    if n > 0 {
      FileGrows(words, more, base, es, n - 1);
      EntryGrows(words, more, Pos(es, base, n - 1), es[n - 1]);
    }
  }

  function Encoded(e: Entry): seq<Cell> {
    [Num(e.id), Num(|Pack(e.key)|)] + Pack(e.key)
  }

  lemma EncodedAt(words: seq<Cell>, e: Entry)
    ensures EntryAt(words + Encoded(e), |words|, e)
  {
    var w, n := words + Encoded(e), |words|;
    assert w[n + 2..n + Size(e)] == Pack(e.key);
  }

  ghost predicate AllStr(es: seq<Entry>) {
    forall e | e in es :: IsStr(e.key)
  }

  /** The loop that writes the entries behind the header. */
  method WriteEntries(header: seq<Cell>, es: seq<Entry>) returns (words: seq<Cell>)
    requires AllStr(es)
    ensures IsFile(words, |header|, es) && header <= words
  {
    words := header;
    for i := 0 to |es|
      invariant |words| == Pos(es, |header|, i) && AreAt(words, |header|, es, i) && header <= words
    {
      assert es[i] in es;
      FileGrows(words, Encoded(es[i]), |header|, es, i);
      EncodedAt(words, es[i]);
      words := words + Encoded(es[i]);
    }
  }

  ghost predicate OffsetAt(offs: seq<nat>, es: seq<Entry>, base: nat, i: nat)
    requires |offs| <= |es|
  {
    i < |offs| && offs[i] == Pos(es, base, i)
  }

  ghost predicate AreOffsets(offs: seq<nat>, es: seq<Entry>, base: nat) {
    |offs| <= |es| && forall i | 0 <= i < |offs| :: OffsetAt(offs, es, base, i)
  }

  lemma OffsetsMore(offs: seq<nat>, es: seq<Entry>, base: nat)
    requires AreOffsets(offs, es, base) && |offs| < |es|
    ensures AreOffsets(offs + [Pos(es, base, |offs|)], es, base)
  {
    var more := offs + [Pos(es, base, |offs|)];
    forall i | 0 <= i < |more| ensures OffsetAt(more, es, base, i) {
      assert i < |offs| ==> OffsetAt(offs, es, base, i);
    }
  }

  /** The loop that finds where each entry will start. */
  method EntryOffsets(es: seq<Entry>, base: nat) returns (offs: seq<nat>)
    ensures |offs| == |es| && AreOffsets(offs, es, base)
  {
    offs := [];
    var cur: nat := base;
    for i := 0 to |es|
      invariant |offs| == i && cur == Pos(es, base, i) && AreOffsets(offs, es, base)
    {
      OffsetsMore(offs, es, base);
      offs := offs + [cur];
      cur := cur + Size(es[i]);
    }
  }

  predicate Before(a: Entry, b: Entry) {
    Less(a.key, b.key) || (!Less(b.key, a.key) && a.id <= b.id)
  }

  /** Puts an entry in its place: behind all that do not come after it. */
  method PlaceEntry(s: seq<Entry>, x: Entry) returns (r: seq<Entry>)
    requires Sorted(s)
    ensures Sorted(r) && forall y :: y in r <==> y in s || y == x
  {
    var k := |s|;
    while k > 0 && !Before(s[k - 1], x)
      invariant 0 <= k <= |s| && (k < |s| ==> !Less(s[k].key, x.key))
    {
      assert !Less(s[k - 1].key, x.key);
      k := k - 1;
    }
    if k > 0 && Less(s[k - 1].key, x.key) {
      LessAsymmetric(s[k - 1].key, x.key);
    }
    EntryPlaced(s, x, k);
    r := s[..k] + [x] + s[k..];
  }

  lemma EntryPlaced(s: seq<Entry>, x: Entry, k: nat)
    requires Sorted(s) && k <= |s| && (k > 0 ==> !Less(x.key, s[k - 1].key)) && (k < |s| ==> !Less(s[k].key, x.key))
    ensures var r := s[..k] + [x] + s[k..]; Sorted(r) && forall y :: y in r <==> y in s || y == x
  {
    var a, b := s[..k], s[k..];
    assert s == a + b;
    forall i | 0 <= i < k ensures !Less(x.key, a[i].key) {
      if i < k - 1 {
        NotLessTransitive(a[i].key, s[k - 1].key, x.key);
      }
    }
    forall i | 0 <= i < |b| ensures !Less(b[i].key, x.key) {
      if i > 0 {
        NotLessTransitive(x.key, s[k].key, b[i].key);
      }
    }
    SortedBetween(a, x, b);
  }

  lemma SortedBetween(a: seq<Entry>, x: Entry, b: seq<Entry>)
    requires Sorted(a + b) && (forall i | 0 <= i < |a| :: !Less(x.key, a[i].key)) && (forall i | 0 <= i < |b| :: !Less(b[i].key, x.key))
    ensures Sorted(a + [x] + b)
  {
    var s, r, k := a + b, a + [x] + b, |a|;
    forall i, j | 0 <= i < j < |r| ensures !Less(r[j].key, r[i].key) {
      assert r[i] == if i < k then s[i] else if i == k then x else s[i - 1];
      assert r[j] == if j < k then s[j] else if j == k then x else s[j - 1];
      assert i < k ==> s[i] == a[i];
      assert j > k ==> s[j - 1] == b[j - 1 - k];
    }
  }

  method SortEntries(es: seq<Entry>) returns (r: seq<Entry>)
    ensures Sorted(r) && forall y :: y in r <==> y in es
  {
    r := [];
    for i := 0 to |es|
      invariant Sorted(r) && forall y :: y in r <==> y in es[..i]
    {
      assert es[..i + 1] == es[..i] + [es[i]];
      r := PlaceEntry(r, es[i]);
    }
    assert es[..|es|] == es;
  }

  function HeaderOf(n: nat, offsets: seq<nat>): (h: seq<Cell>)
    ensures |h| == 2 + 2 * |offsets|
  {
    [Num(n), Num(|offsets|)] + seq(2 * |offsets|, i requires 0 <= i < 2 * |offsets| => if i % 2 == 0 then Num(offsets[i / 2]) else Num(0))
  }

  lemma HeaderStands(n: nat, offsets: seq<nat>, words: seq<Cell>, histogram: seq<Str>)
    requires HeaderOf(n, offsets) <= words
    ensures HasHeader(File(n, words, 2 + 2 * |offsets|, offsets, histogram))
  {
    var h := HeaderOf(n, offsets);
    forall k | 0 <= k < |offsets| ensures WideAt(words, 2 + 2 * k, offsets[k]) {
      assert words[2 + 2 * k] == h[2 + 2 * k] && words[3 + 2 * k] == h[3 + 2 * k];
      assert 2 * k % 2 == 0 && 2 * k / 2 == k && (2 * k + 1) % 2 == 1;
    }
    assert words[0] == h[0] && words[1] == h[1];
  }

  /** Sorting the entries, sampling them and writing them out. */
  method WriteSortedFile(entries: seq<Entry>) returns (f: File, es: seq<Entry>)
    requires AllStr(entries)
    ensures Holds(f, es) && forall e :: e in es <==> e in entries
  {
    es := SortEntries(entries);
    var n := |es|;
    var ns := (n + SAMPLE_RATE - 1) / SAMPLE_RATE;
    var base := 2 + 2 * ns;
    var entryOffsets := EntryOffsets(es, base);
    var offsets, histogram := TakeSamples(es, base, ns, entryOffsets);
    var words := WriteEntries(HeaderOf(n, offsets), es);
    HeaderStands(n, offsets, words, histogram);
    f := File(n, words, base, offsets, histogram);
  }

  lemma SamplesMore(offsets: seq<nat>, histogram: seq<Str>, es: seq<Entry>, base: nat, offs: seq<nat>)
    requires AreSamples(offsets, histogram, es, base) && AreOffsets(offs, es, base) && |offs| == |es| && |offsets| * SAMPLE_RATE < |es|
    ensures var p := |offsets| * SAMPLE_RATE; AreSamples(offsets + [offs[p]], histogram + [es[p].key], es, base)
  {
    var p := |offsets| * SAMPLE_RATE;
    var o, h := offsets + [offs[p]], histogram + [es[p].key];
    forall k | 0 <= k < |o| ensures SampleIs(o, h, es, base, k) {
      if k < |offsets| {
        assert SampleIs(offsets, histogram, es, base, k);
      } else {
        assert OffsetAt(offs, es, base, p);
      }
    }
  }

  /** The two sampling loops. */
  method TakeSamples(es: seq<Entry>, base: nat, ns: nat, entryOffsets: seq<nat>) returns (offsets: seq<nat>, histogram: seq<Str>)
    requires ns == (|es| + SAMPLE_RATE - 1) / SAMPLE_RATE && |entryOffsets| == |es| && AreOffsets(entryOffsets, es, base)
    ensures |offsets| == ns && AreSamples(offsets, histogram, es, base)
  {
    offsets, histogram := [], [];
    for i := 0 to ns
      invariant |offsets| == i && AreSamples(offsets, histogram, es, base)
    {
      SamplesMore(offsets, histogram, es, base, entryOffsets);
      offsets := offsets + [entryOffsets[i * SAMPLE_RATE]];
      histogram := histogram + [es[i * SAMPLE_RATE].key];
    }
  }

  // ----- pending strings -----

  /** One key of the ordered map of pending inserts. */
  datatype Bucket = Bucket(key: Str, ids: seq<nat>)

  ghost predicate KeysAscend(delta: seq<Bucket>) {
    forall i, j | 0 <= i < j < |delta| :: Less(delta[i].key, delta[j].key)
  }

  function Keys(delta: seq<Bucket>): (ks: seq<Str>)
    ensures |ks| == |delta| && forall i | 0 <= i < |delta| :: ks[i] == delta[i].key
  {
    seq(|delta|, i requires 0 <= i < |delta| => delta[i].key)
  }

  lemma KeysSorted(delta: seq<Bucket>)
    requires KeysAscend(delta)
    ensures Ascending(Keys(delta))
  {
    var ks := Keys(delta);
    forall i, j | 0 <= i < j < |ks| ensures !Less(ks[j], ks[i]) {
      LessAsymmetric(delta[i].key, delta[j].key);
    }
  }

  ghost predicate Pending(delta: seq<Bucket>, key: Str, id: nat) {
    exists i :: 0 <= i < |delta| && delta[i].key == key && id in delta[i].ids
  }

  /** The first n keys of the map that are in range have been collected. */
  ghost predicate CollectedTo(delta: seq<Bucket>, n: nat, lo: Str, hi: Str, ids: seq<nat>, result: seq<nat>) {
    && n <= |delta|
    && forall id :: id in result <==> id in ids || exists i :: 0 <= i < n && InRange(delta[i].key, lo, hi) && id in delta[i].ids
  }

  /** The loop over the pending keys from the first that is not below the range. */
  method FromDelta(delta: seq<Bucket>, lo: Str, hi: Str, ids: seq<nat>) returns (result: seq<nat>)
    requires KeysAscend(delta)
    ensures CollectedTo(delta, |delta|, lo, hi, ids, result)
  {
    KeysSorted(delta);
    var it := LowerBound(Keys(delta), lo);
    result := ids;
    SkipBelow(delta, it, lo, hi, ids);
    while it < |delta| && (hi == [] || Less(delta[it].key, hi))
      invariant CollectedTo(delta, it, lo, hi, ids, result)
      invariant forall i | it <= i < |delta| :: !Less(delta[i].key, lo)
    {
      result := result + delta[it].ids;
      it := it + 1;
    }
    SkipAbove(delta, it, lo, hi, ids, result);
  }

  lemma SkipBelow(delta: seq<Bucket>, it: nat, lo: Str, hi: Str, ids: seq<nat>)
    requires IsLowerBound(Keys(delta), lo, it)
    ensures CollectedTo(delta, it, lo, hi, ids, ids) && forall i | it <= i < |delta| :: !Less(delta[i].key, lo)
  {
    var ks := Keys(delta);
    assert forall i | 0 <= i < |delta| :: ks[i] == delta[i].key;
  }

  lemma SkipAbove(delta: seq<Bucket>, it: nat, lo: Str, hi: Str, ids: seq<nat>, result: seq<nat>)
    requires KeysAscend(delta) && CollectedTo(delta, it, lo, hi, ids, result)
    requires it < |delta| ==> hi != [] && !Less(delta[it].key, hi)
    ensures CollectedTo(delta, |delta|, lo, hi, ids, result)
  {
    forall i | it <= i < |delta| ensures !InRange(delta[i].key, lo, hi) {
      if i > it && Less(delta[i].key, hi) {
        LessTransitive(delta[it].key, delta[i].key, hi);
      }
    }
  }

  // ----- one direction -----

  /** A file with its pending strings. */
  datatype Side = Side(file: File, delta: seq<Bucket>)

  /** File and pending strings together hold exactly the pairs of m. */
  ghost predicate Agrees(es: seq<Entry>, delta: seq<Bucket>, m: map<nat, Str>) {
    forall key, id: nat :: Entry(key, id) in es || Pending(delta, key, id) <==> id in m && m[id] == key
  }

  ghost predicate SideOk(side: Side, es: seq<Entry>, m: map<nat, Str>) {
    match side
    case Side(file, delta) =>
      && Holds(file, es) && KeysAscend(delta) && Agrees(es, delta, m)
      && forall id | id in m :: IsStr(m[id])
  }

  /** The ids whose key starts with p. */
  method Query(side: Side, p: Str, ghost es: seq<Entry>, ghost m: map<nat, Str>) returns (result: seq<nat>)
    requires SideOk(side, es, m) && IsStr(p)
    ensures Strict(result) && forall id :: id in result <==> id in m && p <= m[id]
  {
    var hi := NextPrefix(p);
    PrefixIsRange(p, p);
    var begin, end, a, b := ByteRange(side.file, p, hi, es);
    var ids: seq<nat> := [];
    if begin < end {
      ids := ScanRange(side.file.words, begin, end, p, hi, es, side.file.base, a, b);
    }
    var raw := FromDelta(side.delta, p, hi, ids);
    QueryExact(side, es, m, p, a, b, ids, raw);
    result := SortUnique(raw);
  }

  lemma QueryExact(side: Side, es: seq<Entry>, m: map<nat, Str>, p: Str, a: nat, b: nat, ids: seq<nat>, raw: seq<nat>)
    requires SideOk(side, es, m) && IsStr(p) && IsWindow(es, a, b, p, Next(p)) && ids == Matching(es, a, b, p, Next(p))
    requires CollectedTo(side.delta, |side.delta|, p, Next(p), ids, raw)
    ensures forall id :: id in raw <==> id in m && p <= m[id]
  {
    forall id ensures id in raw <==> id in m && p <= m[id] {
      WindowHasAll(es, a, b, p, Next(p), id);
      if id in raw {
        Found(side, es, m, p, ids, raw, id);
      }
      if id in m {
        PrefixIsRange(p, m[id]);
        if p <= m[id] {
          Included(side, es, m, p, ids, raw, id);
        }
      }
    }
  }

  lemma Found(side: Side, es: seq<Entry>, m: map<nat, Str>, p: Str, ids: seq<nat>, raw: seq<nat>, id: nat)
    requires SideOk(side, es, m) && IsStr(p) && CollectedTo(side.delta, |side.delta|, p, Next(p), ids, raw) && id in raw
    requires id in ids <==> exists i :: 0 <= i < |es| && es[i].id == id && InRange(es[i].key, p, Next(p))
    ensures id in m && p <= m[id]
  {
    var key: Str;
    if id in ids {
      var i :| 0 <= i < |es| && es[i].id == id && InRange(es[i].key, p, Next(p));
      key := es[i].key;
      assert Entry(key, id) == es[i];
    } else {
      var i :| 0 <= i < |side.delta| && InRange(side.delta[i].key, p, Next(p)) && id in side.delta[i].ids;
      key := side.delta[i].key;
      assert Pending(side.delta, key, id);
    }
    PrefixIsRange(p, m[id]);
  }

  lemma Included(side: Side, es: seq<Entry>, m: map<nat, Str>, p: Str, ids: seq<nat>, raw: seq<nat>, id: nat)
    requires SideOk(side, es, m) && id in m && InRange(m[id], p, Next(p)) && CollectedTo(side.delta, |side.delta|, p, Next(p), ids, raw)
    requires id in ids <==> exists i :: 0 <= i < |es| && es[i].id == id && InRange(es[i].key, p, Next(p))
    ensures id in raw
  {
    var e := Entry(m[id], id);
    if e in es {
      var i :| 0 <= i < |es| && es[i] == e;
    } else {
      assert Pending(side.delta, m[id], id);
    }
  }

  // ----- inserting -----

  function Pushed(delta: seq<Bucket>, k: nat, key: Str, id: nat): seq<Bucket>
    requires k <= |delta|
  {
    if k < |delta| && delta[k].key == key then delta[k := Bucket(key, delta[k].ids + [id])]
    else delta[..k] + [Bucket(key, [id])] + delta[k..]
  }

  lemma PushedAscends(delta: seq<Bucket>, k: nat, key: Str, id: nat)
    requires KeysAscend(delta) && IsLowerBound(Keys(delta), key, k)
    ensures KeysAscend(Pushed(delta, k, key, id))
  {
    var ks, d := Keys(delta), Pushed(delta, k, key, id);
    assert forall i | 0 <= i < |delta| :: ks[i] == delta[i].key;
    if !(k < |delta| && delta[k].key == key) {
      forall i | k <= i < |delta| ensures Less(key, delta[i].key) {
        if !Less(key, delta[i].key) {
          LessTotal(key, delta[i].key);
          LessIrreflexive(key);
        }
      }
      KeysBetween(delta[..k], Bucket(key, [id]), delta[k..]);
    }
  }

  lemma KeysBetween(a: seq<Bucket>, b: Bucket, c: seq<Bucket>)
    requires KeysAscend(a) && KeysAscend(c)
    requires (forall i | 0 <= i < |a| :: Less(a[i].key, b.key)) && (forall i | 0 <= i < |c| :: Less(b.key, c[i].key))
    ensures KeysAscend(a + [b] + c)
  {
    var d, k := a + [b] + c, |a|;
    forall i, j | 0 <= i < j < |d| ensures Less(d[i].key, d[j].key) {
      assert d[i] == if i < k then a[i] else if i == k then b else c[i - k - 1];
      assert d[j] == if j < k then a[j] else if j == k then b else c[j - k - 1];
      if i < k < j {
        LessTransitive(a[i].key, b.key, c[j - k - 1].key);
      }
    }
  }

  lemma PushedPending(delta: seq<Bucket>, k: nat, key: Str, id: nat, x: Str, y: nat)
    requires k <= |delta|
    ensures Pending(Pushed(delta, k, key, id), x, y) <==> Pending(delta, x, y) || (x == key && y == id)
  {
    var d := Pushed(delta, k, key, id);
    var grown := k < |delta| && delta[k].key == key;
    assert forall i | 0 <= i < k :: d[i] == delta[i];
    assert d[k].key == key && id in d[k].ids;
    assert grown ==> forall i | k < i < |delta| :: d[i] == delta[i];
    assert !grown ==> forall i | k <= i < |delta| :: d[i + 1] == delta[i];
    if Pending(delta, x, y) {
      var i :| 0 <= i < |delta| && delta[i].key == x && y in delta[i].ids;
      var j := if i < k || grown then i else i + 1;
      assert d[j].key == x && y in d[j].ids;
    }
    if Pending(d, x, y) {
      var j :| 0 <= j < |d| && d[j].key == x && y in d[j].ids;
      if j != k {
        var i := if j < k || grown then j else j - 1;
        assert delta[i] == d[j];
      } else if grown && y != id {
        assert y in delta[k].ids;
      }
    }
  }

  /** A pending string is pushed under its key. */
  method Push(side: Side, key: Str, id: nat, ghost es: seq<Entry>, ghost m: map<nat, Str>) returns (r: Side)
    requires SideOk(side, es, m) && IsStr(key) && id !in m
    ensures SideOk(r, es, m[id := key]) && r.file == side.file
  {
    KeysSorted(side.delta);
    var k := LowerBound(Keys(side.delta), key);
    PushedAscends(side.delta, k, key, id);
    r := side.(delta := Pushed(side.delta, k, key, id));
    forall x, y: nat ensures Entry(x, y) in es || Pending(r.delta, x, y) <==> y in m[id := key] && m[id := key][y] == x {
      PushedPending(side.delta, k, key, id, x, y);
    }
  }

  // ----- merging -----

  /** An entry under an id map; an empty map stands for the identity. */
  predicate RenamesTo(e: Entry, idMap: map<nat, nat>, x: Entry) {
    x.key == e.key && if idMap == map[] then x.id == e.id else e.id in idMap && x.id == idMap[e.id]
  }

  /** Appends entries under their new ids; those without one are dropped. */
  method Remap(data0: seq<Entry>, es: seq<Entry>, idMap: map<nat, nat>) returns (data: seq<Entry>)
    ensures forall x :: x in data <==> x in data0 || exists e :: e in es && RenamesTo(e, idMap, x)
  {
    data := data0;
    for i := 0 to |es|
      invariant forall x :: x in data <==> x in data0 || exists e :: e in es[..i] && RenamesTo(e, idMap, x)
    {
      assert forall e :: e in es[..i + 1] <==> e in es[..i] || e == es[i] by {
        assert es[..i + 1] == es[..i] + [es[i]];
      }
      ghost var was := data;
      if idMap == map[] {
        data := data + [es[i]];
      } else if es[i].id in idMap {
        data := data + [Entry(es[i].key, idMap[es[i].id])];
      }
      assert forall x :: x in data <==> x in was || RenamesTo(es[i], idMap, x);
    }
    assert es[..|es|] == es;
  }

  function Tagged(b: Bucket): (es: seq<Entry>)
    ensures |es| == |b.ids| && forall i | 0 <= i < |es| :: es[i] == Entry(b.key, b.ids[i])
  {
    seq(|b.ids|, i requires 0 <= i < |b.ids| => Entry(b.key, b.ids[i]))
  }

  /** Reading the whole file back. */
  method ReadAll(words: seq<Cell>, base: nat, n: nat, ghost es: seq<Entry>) returns (r: seq<Entry>)
    requires IsFile(words, base, es) && n == |es|
    ensures r == es
  {
    r := [];
    var off: nat := base;
    for i := 0 to n
      invariant off == Pos(es, base, i) && r == es[..i]
    {
      var e, next := ReadNext(words, off, es, base, i);
      assert es[..i + 1] == es[..i] + [es[i]];
      r, off := r + [e], next;
    }
    assert es[..|es|] == es;
  }

  /** x comes from the first n pending keys or from the entries. */
  ghost predicate ComesFrom(es: seq<Entry>, delta: seq<Bucket>, n: nat, idMap: map<nat, nat>, x: Entry)
    requires n <= |delta|
  {
    || (exists e :: e in es && RenamesTo(e, idMap, x))
    || (exists i, e :: 0 <= i < n && e in Tagged(delta[i]) && RenamesTo(e, idMap, x))
  }

  /** The entries of the file and the pending ones, under their new ids. */
  method Collect(side: Side, idMap: map<nat, nat>, ghost es: seq<Entry>) returns (data: seq<Entry>)
    requires IsFile(side.file.words, side.file.base, es) && side.file.n == |es|
    ensures forall x :: x in data <==> ComesFrom(es, side.delta, |side.delta|, idMap, x)
  {
    var stored := ReadAll(side.file.words, side.file.base, side.file.n, es);
    data := Remap([], stored, idMap);
    for i := 0 to |side.delta|
      invariant forall x :: x in data <==> ComesFrom(es, side.delta, i, idMap, x)
    {
      ghost var was := data;
      data := Remap(data, Tagged(side.delta[i]), idMap);
      forall x ensures x in data <==> ComesFrom(es, side.delta, i + 1, idMap, x) {
        FromNext(es, side.delta, i, idMap, x);
      }
    }
  }

  lemma FromNext(es: seq<Entry>, delta: seq<Bucket>, i: nat, idMap: map<nat, nat>, x: Entry)
    requires i < |delta|
    ensures ComesFrom(es, delta, i + 1, idMap, x)
       <==> ComesFrom(es, delta, i, idMap, x) || exists e :: e in Tagged(delta[i]) && RenamesTo(e, idMap, x)
  {
  }

  /** What is collected are the pairs of the renamed map. */
  lemma CollectedIs(es: seq<Entry>, delta: seq<Bucket>, m: map<nat, Str>, idMap: map<nat, nat>, x: Entry)
    requires Agrees(es, delta, m) && Injective(idMap)
    ensures ComesFrom(es, delta, |delta|, idMap, x) <==> var r := Renamed(m, idMap); x.id in r && r[x.id] == x.key
  {
    var r := Renamed(m, idMap);
    if ComesFrom(es, delta, |delta|, idMap, x) {
      var e := Origin(es, delta, idMap, x);
      assert Entry(e.key, e.id) == e;
      assert e.id in m && m[e.id] == e.key;
    }
    if x.id in r && r[x.id] == x.key {
      var id :| id in m && m[id] == x.key && (if idMap == map[] then id == x.id else id in idMap && idMap[id] == x.id);
      var e := Entry(m[id], id);
      assert RenamesTo(e, idMap, x);
      if e !in es {
        assert Pending(delta, m[id], id);
        var i :| 0 <= i < |delta| && delta[i].key == m[id] && id in delta[i].ids;
        var j :| 0 <= j < |delta[i].ids| && delta[i].ids[j] == id;
        assert Tagged(delta[i])[j] == e;
      }
    }
  }

  lemma Origin(es: seq<Entry>, delta: seq<Bucket>, idMap: map<nat, nat>, x: Entry) returns (e: Entry)
    requires ComesFrom(es, delta, |delta|, idMap, x)
    ensures RenamesTo(e, idMap, x) && (e in es || Pending(delta, e.key, e.id))
  {
    if exists e :: e in es && RenamesTo(e, idMap, x) {
      e :| e in es && RenamesTo(e, idMap, x);
    } else {
      var i;
      i, e :| 0 <= i < |delta| && e in Tagged(delta[i]) && RenamesTo(e, idMap, x);
      var j :| 0 <= j < |delta[i].ids| && Tagged(delta[i])[j] == e;
      assert delta[i].ids[j] == e.id;
    }
  }

  /** A file of exactly the pairs of m, with nothing pending. */
  lemma FreshSide(f: File, es: seq<Entry>, m: map<nat, Str>)
    requires Holds(f, es) && (forall e: Entry :: e in es <==> e.id in m && m[e.id] == e.key) && forall id | id in m :: IsStr(m[id])
    ensures SideOk(Side(f, []), es, m)
  {
    forall key, id: nat ensures Entry(key, id) in es || Pending([], key, id) <==> id in m && m[id] == key {
      assert Entry(key, id) in es <==> id in m && m[id] == key;
    }
  }

  /** Every key reversed. */
  ghost function Backwards(m: map<nat, Str>): map<nat, Str> {
    map id | id in m :: Reverse(m[id])
  }

  /** The two files hold the same vectors. */
  ghost predicate Mirrored(es: seq<Entry>, back: seq<Entry>) {
    forall key, id: nat :: Entry(key, id) in es <==> Entry(Reverse(key), id) in back
  }

  lemma MirroredFiles(es: seq<Entry>, back: seq<Entry>, m: map<nat, Str>)
    requires forall e: Entry :: e in es <==> e.id in m && m[e.id] == e.key
    requires forall e: Entry :: e in back <==> e.id in Backwards(m) && Backwards(m)[e.id] == e.key
    ensures Mirrored(es, back)
  {
    forall key, id: nat ensures Entry(key, id) in es <==> Entry(Reverse(key), id) in back {
      ReverseTwice(key);
      if id in m {
        ReverseTwice(m[id]);
      }
      assert Entry(Reverse(key), id) in back <==> id in m && Reverse(m[id]) == Reverse(key);
      assert Entry(key, id) in es <==> id in m && m[id] == key;
    }
  }

  lemma BackwardsPut(m: map<nat, Str>, id: nat, s: Str)
    ensures Backwards(m[id := s]) == Backwards(m)[id := Reverse(s)]
  {
  }

  method ReverseAll(es: seq<Entry>) returns (r: seq<Entry>)
    ensures |r| == |es| && forall i | 0 <= i < |es| :: r[i] == Entry(Reverse(es[i].key), es[i].id)
  {
    r := [];
    for i := 0 to |es|
      invariant |r| == i && forall j | 0 <= j < i :: r[j] == Entry(Reverse(es[j].key), es[j].id)
    {
      r := r + [Entry(Reverse(es[i].key), es[i].id)];
    }
  }

  lemma ReversedHold(es: seq<Entry>, r: seq<Entry>, m: map<nat, Str>)
    requires |r| == |es| && forall i | 0 <= i < |es| :: r[i] == Entry(Reverse(es[i].key), es[i].id)
    requires (forall e: Entry :: e in es <==> e.id in m && m[e.id] == e.key) && forall id | id in m :: IsStr(m[id])
    ensures (forall e: Entry :: e in r <==> e.id in Backwards(m) && Backwards(m)[e.id] == e.key) && AllStr(r)
    ensures forall id | id in m :: IsStr(Backwards(m)[id])
  {
    var b := Backwards(m);
    forall e: Entry ensures e in r <==> e.id in b && b[e.id] == e.key {
      if e in r {
        var i :| 0 <= i < |r| && r[i] == e;
        assert es[i] in es;
      }
      if e.id in b && b[e.id] == e.key {
        var x := Entry(m[e.id], e.id);
        assert x in es;
        var i :| 0 <= i < |es| && es[i] == x;
        assert r[i] == e;
      }
    }
    forall e | e in r ensures IsStr(e.key) {
      assert e.id in b && b[e.id] == e.key;
    }
  }

  function Rows(rows: seq<Str>): (es: seq<Entry>)
    ensures |es| == |rows| && forall i | 0 <= i < |rows| :: es[i] == Entry(rows[i], i)
  {
    seq(|rows|, i requires 0 <= i < |rows| => Entry(rows[i], i))
  }

  lemma RowsHold(rows: seq<Str>)
    ensures forall e: Entry :: e in Rows(rows) <==> e.id in Numbered(rows) && Numbered(rows)[e.id] == e.key
  {
    var es := Rows(rows);
    forall e: Entry ensures e in es <==> e.id in Numbered(rows) && Numbered(rows)[e.id] == e.key {
      if e.id < |rows| && rows[e.id] == e.key {
        assert es[e.id] == e;
      }
    }
  }
}
