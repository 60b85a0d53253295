/** Reopening the string index of include/filter/attribute.h: the header and the strings are read back
    from the words of a file. */
module StringLoad {

  import opened StringFiles
  import opened StringIndex
  import opened StringKeys

  /** The offsets of the samples, two words each. */
  method ReadOffsets(words: seq<Cell>, ns: nat, ghost f: File) returns (offsets: seq<nat>)
    requires HasHeader(f) && words == f.words && ns == |f.offsets|
    ensures offsets == f.offsets
  {
    offsets := [];
    for k := 0 to ns
      invariant offsets == f.offsets[..k]
    {
      assert WideAt(words, 2 + 2 * k, f.offsets[k]);
      offsets := offsets + [words[2 + 2 * k].n];
    }
  }

  /** The keys at the sampled offsets. */
  method ReadSamples(words: seq<Cell>, offsets: seq<nat>, ghost f: File, ghost es: seq<Entry>) returns (histogram: seq<Str>)
    requires Holds(f, es) && words == f.words && offsets == f.offsets
    ensures histogram == f.histogram
  {
    histogram := [];
    for k := 0 to |offsets|
      invariant histogram == f.histogram[..k]
    {
      assert SampleIs(f.offsets, f.histogram, es, f.base, k);
      var e, _ := ReadNext(words, offsets[k], es, f.base, k * SAMPLE_RATE);
      histogram := histogram + [e.key];
    }
  }

  /** Reading the header of a file that was written gives what the writer had in memory. */
  method LoadHeader(words: seq<Cell>, ghost f: File, ghost es: seq<Entry>) returns (r: File)
    requires Holds(f, es) && words == f.words
    ensures r == f
  {
    assert HasHeader(f);
    var n, ns := words[0].n, words[1].n;
    var offsets := ReadOffsets(words, ns, f);
    var histogram := ReadSamples(words, offsets, f, es);
    r := File(n, words, 2 + 2 * ns, offsets, histogram);
  }

  /** The key of the last of the first n entries that has the id; the empty string if none has. */
  ghost function LastKey(es: seq<Entry>, n: nat, id: nat): Str
    requires n <= |es|
  {
    if n == 0 then [] else if es[n - 1].id == id then es[n - 1].key else LastKey(es, n - 1, id)
  }

  ghost predicate AreLoaded(strings: seq<Str>, es: seq<Entry>, n: nat) {
    && n <= |es| && (forall i | 0 <= i < n :: es[i].id < |strings|)
    && forall id | 0 <= id < |strings| :: strings[id] == LastKey(es, n, id)
  }

  /** The loop over all entries; the table of strings grows to the largest id. */
  method LoadAttrs(f: File, nVectors: nat, ghost es: seq<Entry>) returns (strings: seq<Str>)
    requires Holds(f, es)
    ensures AreLoaded(strings, es, |es|) && |strings| >= nVectors
    ensures |strings| == nVectors || exists e :: e in es && |strings| == e.id + 1
  {
    strings := seq(nVectors, _ => []);
    var off := f.base;
    for i := 0 to f.n
      invariant AreLoaded(strings, es, i) && |strings| >= nVectors && off == Pos(es, f.base, i)
      invariant |strings| == nVectors || exists e :: e in es && |strings| == e.id + 1
    {
      var e, next := ReadNext(f.words, off, es, f.base, i);
      assert e in es;
      if e.id >= |strings| {
        Widened(strings, es, i, e.id + 1 - |strings|);
        strings := strings + seq(e.id + 1 - |strings|, _ => []);
      }
      strings := strings[e.id := e.key];
      off := next;
    }
  }

  lemma Widened(strings: seq<Str>, es: seq<Entry>, n: nat, more: nat)
    requires AreLoaded(strings, es, n)
    ensures AreLoaded(strings + seq(more, _ => []), es, n)
  {
    NoneBeyond(strings, es, n);
  }

  /** No entry so far has an id beyond the table. */
  lemma NoneBeyond(strings: seq<Str>, es: seq<Entry>, n: nat)
    requires AreLoaded(strings, es, n)
    ensures forall id | id >= |strings| :: LastKey(es, n, id) == []
  {
    forall id: nat | id >= |strings| ensures LastKey(es, n, id) == [] {
      NeverListed(es, n, id);
    }
  }

  lemma {:induction false} NeverListed(es: seq<Entry>, n: nat, id: nat)
    requires n <= |es| && forall i | 0 <= i < n :: es[i].id != id
    ensures LastKey(es, n, id) == []
  {
    if n > 0 {
      NeverListed(es, n - 1, id);
    }
  }

  lemma {:induction false} ListedKey(es: seq<Entry>, n: nat, id: nat, key: Str)
    requires n <= |es| && (forall i | 0 <= i < n && es[i].id == id :: es[i].key == key) && exists i :: 0 <= i < n && es[i].id == id
    ensures LastKey(es, n, id) == key
  {
    if es[n - 1].id != id {
      ListedKey(es, n - 1, id, key);
    }
  }

  /** Reopening an index gives back both files and, for every id, its string if it is in the file and
      the empty string if it is not. */
  method Reopen(ix: StringIndex) returns (prefix: File, suffix: File, strings: seq<Str>)
    requires ix.Valid()
    ensures prefix == ix.prefix.file && suffix == ix.suffix.file
    ensures forall id | id in ix.contents && ix.Stored(id) :: id < |strings| && strings[id] == ix.contents[id]
    ensures forall id | 0 <= id < |strings| && !(id in ix.contents && ix.Stored(id)) :: strings[id] == []
  {
    prefix := LoadHeader(ix.prefix.file.words, ix.prefix.file, ix.forwards);
    suffix := LoadHeader(ix.suffix.file.words, ix.suffix.file, ix.backwards);
    strings := LoadAttrs(prefix, ix.nVectors, ix.forwards);
    ghost var es, m := ix.forwards, ix.contents;
    forall id | id in m && ix.Stored(id) ensures id < |strings| && strings[id] == m[id] {
      StoredLoads(ix.prefix, es, m, id, strings);
    }
    forall id | 0 <= id < |strings| && !(id in m && ix.Stored(id)) ensures strings[id] == [] {
      MissingLoads(ix.prefix, es, m, id, strings);
    }
  }

  lemma StoredLoads(side: Side, es: seq<Entry>, m: map<nat, Str>, id: nat, strings: seq<Str>)
    requires SideOk(side, es, m) && AreLoaded(strings, es, |es|) && id in m && Entry(m[id], id) in es
    ensures id < |strings| && strings[id] == m[id]
  {
    var i :| 0 <= i < |es| && es[i] == Entry(m[id], id);
    forall j | 0 <= j < |es| && es[j].id == id ensures es[j].key == m[id] {
      StoredPair(side, es, m, es[j]);
    }
    ListedKey(es, |es|, id, m[id]);
  }

  lemma MissingLoads(side: Side, es: seq<Entry>, m: map<nat, Str>, id: nat, strings: seq<Str>)
    requires SideOk(side, es, m) && AreLoaded(strings, es, |es|) && id < |strings| && !(id in m && Entry(m[id], id) in es)
    ensures strings[id] == []
  {
    forall i | 0 <= i < |es| ensures es[i].id != id {
      StoredPair(side, es, m, es[i]);
    }
    NeverListed(es, |es|, id);
  }
}
