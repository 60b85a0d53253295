/** String attributes (include/filter/attribute.h): NUL-free byte strings, compared byte by byte,
    packed four to a word for storage. */
module StringKeys {

  type Str = string

  /** The largest byte. */
  const LAST: char := 255 as char

  /** Bytes from 1 to 255. */
  ghost predicate IsStr(s: Str) {
    forall i | 0 <= i < |s| :: '\0' < s[i] <= LAST
  }

  function Succ(c: char): (d: char)
    requires c < LAST
    ensures d as int == c as int + 1
  {
    (c as int + 1) as char
  }

  // ----- order -----

  /** The order of strcmp. */
  predicate Less(a: Str, b: Str) {
    b != [] && (a == [] || a[0] < b[0] || (a[0] == b[0] && Less(a[1..], b[1..])))
  }

  lemma {:induction false} LessIrreflexive(a: Str)
    ensures !Less(a, a)
  {
    if a != [] {
      LessIrreflexive(a[1..]);
    }
  }

  lemma {:induction false} LessTransitive(a: Str, b: Str, c: Str)
    requires Less(a, b) && Less(b, c)
    ensures Less(a, c)
  {
    if a != [] && a[0] == b[0] == c[0] {
      LessTransitive(a[1..], b[1..], c[1..]);
    }
  }

  lemma LessAsymmetric(a: Str, b: Str)
    requires Less(a, b)
    ensures !Less(b, a)
  {
    if Less(b, a) {
      LessTransitive(a, b, a);
      LessIrreflexive(a);
    }
  }

  lemma {:induction false} LessTotal(a: Str, b: Str)
    requires !Less(a, b) && !Less(b, a)
    ensures a == b
  {
    if a != [] && b != [] {
      LessTotal(a[1..], b[1..]);
      assert a == [a[0]] + a[1..] && b == [b[0]] + b[1..];
    }
  }

  /** Not below is transitive too. */
  lemma LeastLess(a: Str, b: Str, c: Str)
    requires !Less(b, a) && Less(b, c)
    ensures Less(a, c)
  {
    if Less(a, b) {
      LessTransitive(a, b, c);
    } else {
      LessTotal(a, b);
    }
  }

  lemma LessLeast(a: Str, b: Str, c: Str)
    requires Less(a, b) && !Less(c, b)
    ensures Less(a, c)
  {
    if Less(b, c) {
      LessTransitive(a, b, c);
    } else {
      LessTotal(b, c);
    }
  }

  lemma NotLessTransitive(a: Str, b: Str, c: Str)
    requires !Less(b, a) && !Less(c, b)
    ensures !Less(c, a)
  {
    if Less(c, a) {
      LeastLess(b, c, a);
    }
  }

  // ----- the successor of a prefix -----

  /** The least string above every string with the prefix; empty when there is none. */
  function Next(p: Str): (r: Str) {
    if p == [] then []
    else
      var n := |p| - 1;
      if p[n] < LAST then p[..n] + [Succ(p[n])] else Next(p[..n])
  }

  /** The loop that computes it. */
  method NextPrefix(p: Str) returns (r: Str)
    ensures r == Next(p)
  {
    var i := |p| - 1;
    assert p[..i + 1] == p;
    while i >= 0
      invariant -1 <= i < |p| && Next(p) == Next(p[..i + 1])
    {
      var q := p[..i + 1];
      assert q[..|q| - 1] == p[..i];
      if p[i] < LAST {
        return p[..i] + [Succ(p[i])];
      }
      i := i - 1;
    }
    return [];
  }

  /** A range of keys; an empty upper end means no upper end. */
  predicate InRange(key: Str, lo: Str, hi: Str) {
    !Less(key, lo) && (hi == [] || Less(key, hi))
  }

  lemma {:induction false} PrefixNotLess(p: Str, s: Str)
    requires p <= s
    ensures !Less(s, p)
  {
    if p != [] {
      PrefixNotLess(p[1..], s[1..]);
    }
  }

  /** A string below p[..n] + [x] and not below p, where p agrees on the first n. */
  lemma {:induction false} Squeeze(p: Str, n: nat, s: Str)
    requires n < |p| && p[n] < LAST && !Less(s, p) && Less(s, p[..n] + [Succ(p[n])])
    ensures |s| > n && p[..n + 1] <= s && !Less(s[n + 1..], p[n + 1..])
    decreases n
  {
    if n == 0 {
      assert p[..0] + [Succ(p[0])] == [Succ(p[0])];
      assert s[1..] == s[0 + 1..] && p[..1] == [p[0]] && s[..1] == [s[0]];
    } else {
      var q := p[..n] + [Succ(p[n])];
      assert q[1..] == p[1..][..n - 1] + [Succ(p[1..][n - 1])];
      assert s != [] && s[0] == p[0];
      Squeeze(p[1..], n - 1, s[1..]);
      assert p[..n + 1] == [p[0]] + p[1..][..n] && s[..n + 1] == [s[0]] + s[1..][..n];
      assert s[1..][n..] == s[n + 1..] && p[1..][n..] == p[n + 1..];
    }
  }

  /** Of strings of bytes, those not below a run of 255 start with it. */
  lemma {:induction false} AboveLast(p: Str, s: Str)
    requires IsStr(s) && !Less(s, p) && forall i | 0 <= i < |p| :: p[i] == LAST
    ensures p <= s
    decreases |p|
  {
    if p != [] {
      AboveLast(p[1..], s[1..]);
      assert p == [p[0]] + p[1..] && s == [s[0]] + s[1..];
    }
  }

  /** Where the successor is taken: after position n there are only 255s. */
  lemma {:induction false} NextIs(p: Str) returns (n: int)
    requires IsStr(p)
    ensures -1 <= n < |p| && forall i | n < i < |p| :: p[i] == LAST
    ensures n < 0 ==> Next(p) == []
    ensures n >= 0 ==> p[n] < LAST && Next(p) == p[..n] + [Succ(p[n])]
    decreases |p|
  {
    if p == [] {
      n := -1;
    } else if p[|p| - 1] < LAST {
      n := |p| - 1;
    } else {
      var q := p[..|p| - 1];
      n := NextIs(q);
      assert n >= 0 ==> q[..n] == p[..n];
    }
  }

  lemma {:induction false} BelowNext(p: Str, n: nat, s: Str)
    requires n < |p| && p[n] < LAST && p <= s
    ensures Less(s, p[..n] + [Succ(p[n])])
    decreases n
  {
    var q := p[..n] + [Succ(p[n])];
    if n > 0 {
      assert q[1..] == p[1..][..n - 1] + [Succ(p[1..][n - 1])];
      BelowNext(p[1..], n - 1, s[1..]);
    }
  }

  /** The range rule: p is a prefix of s exactly when s lies between p and its successor. */
  lemma {:induction false} PrefixIsRange(p: Str, s: Str)
    requires IsStr(p) && IsStr(s)
    ensures p <= s <==> InRange(s, p, Next(p))
  {
    var n := NextIs(p);
    if p <= s {
      PrefixNotLess(p, s);
      if n >= 0 {
        BelowNext(p, n, s);
      }
    }
    if InRange(s, p, Next(p)) {
      if n < 0 {
        AboveLast(p, s);
      } else {
        Squeeze(p, n, s);
        AboveLast(p[n + 1..], s[n + 1..]);
        assert p == p[..n + 1] + p[n + 1..] && s == s[..n + 1] + s[n + 1..];
      }
    }
  }

  // ----- reversal -----

  function Reverse(s: Str): (r: Str)
    ensures |r| == |s| && forall i | 0 <= i < |s| :: r[i] == s[|s| - 1 - i]
  {
    seq(|s|, i requires 0 <= i < |s| => s[|s| - 1 - i])
  }

  lemma ReverseTwice(s: Str)
    ensures Reverse(Reverse(s)) == s
  {
  }

  ghost predicate EndsWith(s: Str, p: Str) {
    |s| >= |p| && s[|s| - |p|..] == p
  }

  /** A suffix is a prefix read backwards. */
  lemma SuffixIsPrefix(p: Str, s: Str)
    ensures EndsWith(s, p) <==> Reverse(p) <= Reverse(s)
  {
    var r, t := Reverse(p), Reverse(s);
    if EndsWith(s, p) {
      assert forall i | 0 <= i < |p| :: t[i] == s[|s| - 1 - i] == s[|s| - |p|..][|p| - 1 - i];
    }
    if r <= t {
      var w := s[|s| - |p|..];
      forall i | 0 <= i < |p| ensures w[i] == p[i] {
        assert r[|p| - 1 - i] == t[|p| - 1 - i];
      }
    }
  }

  // ----- packing -----

  /** A 32-bit word of memory: a number, or four bytes. */
  datatype Cell = Num(n: nat) | Chars(b0: char, b1: char, b2: char, b3: char)

  function ByteAt(s: Str, i: nat): char {
    if i < |s| then s[i] else '\0'
  }

  /** Four bytes to a word, the last word filled up with zeros. */
  function Pack(s: Str): (cells: seq<Cell>)
    ensures |cells| == (|s| + 3) / 4
    decreases |s|
  {
    if s == [] then []
    else [Chars(ByteAt(s, 0), ByteAt(s, 1), ByteAt(s, 2), ByteAt(s, 3))] + Pack(if |s| <= 4 then [] else s[4..])
  }

  function Bytes(cells: seq<Cell>): Str {
    if cells == [] then []
    else (match cells[0]
          case Num(_) => []
          case Chars(b0, b1, b2, b3) => [b0, b1, b2, b3]) + Bytes(cells[1..])
  }

  /** The bytes before the first zero. */
  function Cut(s: Str): Str {
    if s == [] || s[0] == '\0' then [] else [s[0]] + Cut(s[1..])
  }

  function View(cells: seq<Cell>): Str {
    Cut(Bytes(cells))
  }

  lemma {:induction false} CutKeeps(s: Str, t: Str)
    requires IsStr(s) && (t == [] || t[0] == '\0')
    ensures Cut(s + t) == s
  {
    if s == [] {
      assert s + t == t;
    } else {
      assert (s + t)[1..] == s[1..] + t;
      CutKeeps(s[1..], t);
    }
  }

  /** The bytes of a packed string are the string and at most three zeros. */
  lemma {:induction false} BytesOfPacked(s: Str) returns (pad: Str)
    ensures Bytes(Pack(s)) == s + pad && |pad| < 4 && forall i | 0 <= i < |pad| :: pad[i] == '\0'
    decreases |s|
  {
    if |s| <= 4 {
      pad := LastWord(s);
    } else {
      var first := [s[0], s[1], s[2], s[3]];
      pad := BytesOfPacked(s[4..]);
      assert Pack(s)[1..] == Pack(s[4..]);
      assert Bytes(Pack(s)) == first + Bytes(Pack(s[4..]));
      assert first + (s[4..] + pad) == s + pad;
    }
  }

  lemma LastWord(s: Str) returns (pad: Str)
    requires |s| <= 4
    ensures Bytes(Pack(s)) == s + pad && |pad| < 4 && forall i | 0 <= i < |pad| :: pad[i] == '\0'
  {
    if s == [] {
      pad := [];
    } else {
      var first := [ByteAt(s, 0), ByteAt(s, 1), ByteAt(s, 2), ByteAt(s, 3)];
      var cells := Pack(s);
      assert Pack([]) == [] && cells[1..] == [];
      assert Bytes(cells) == first + [] == first;
      pad := first[|s|..];
      assert first == s + pad;
    }
  }

  /** Unpacking undoes packing. */
  lemma ViewOfPacked(s: Str)
    requires IsStr(s)
    ensures View(Pack(s)) == s
  {
    var pad := BytesOfPacked(s);
    CutKeeps(s, pad);
  }
}
