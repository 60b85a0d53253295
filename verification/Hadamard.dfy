/** The block Hadamard transform of include/nbr/rabitq_quantizer.h over the reals: in-place
    butterflies on power-of-two blocks that tile the vector, with sign flips before or after. */
module Hadamard {

  import opened Powers

  type Vec = seq<real>

  // ----- Sylvester's matrix applied to a stretch of a vector -----

  /** Entry i of the unscaled transform of the 2^k numbers that start at `lo`: the matrix of order
      2h is [[H, H], [H, -H]] for H the matrix of order h. */
  ghost function Entry(v: Vec, lo: nat, k: nat, i: nat): real
    requires i < Pow2(k) && lo + Pow2(k) <= |v|
    decreases k
  {
    if k == 0 then v[lo]
    else
      var h := Pow2(k - 1);
      if i < h then Entry(v, lo, k - 1, i) + Entry(v, lo + h, k - 1, i)
      else Entry(v, lo, k - 1, i - h) - Entry(v, lo + h, k - 1, i - h)
  }

  /** From `lo` on, u is the sum (or difference) of two stretches of v. */
  ghost predicate IsSum(u: Vec, lo: nat, v: Vec, a: nat, b: nat, n: nat, plus: bool)
    requires lo + n <= |u| && a + n <= |v| && b + n <= |v|
  {
    forall p | lo <= p < lo + n :: u[p] == Plus(v[p - lo + a], v[p - lo + b], plus)
  }

  ghost function Plus(x: real, y: real, plus: bool): real {
    if plus then x + y else x - y
  }

  /** The transform respects sums and differences. */
  lemma {:induction false} EntrySum(u: Vec, lo: nat, v: Vec, a: nat, b: nat, k: nat, plus: bool, i: nat)
    requires lo + Pow2(k) <= |u| && a + Pow2(k) <= |v| && b + Pow2(k) <= |v| && i < Pow2(k)
    requires IsSum(u, lo, v, a, b, Pow2(k), plus)
    ensures Entry(u, lo, k, i) == Plus(Entry(v, a, k, i), Entry(v, b, k, i), plus)
    decreases k
  {
    if k > 0 {
      var h := Pow2(k - 1);
      var j := if i < h then i else i - h;
      SumHalf(u, lo, v, a, b, h, plus);
      EntrySum(u, lo, v, a, b, k - 1, plus, j);
      EntrySum(u, lo + h, v, a + h, b + h, k - 1, plus, j);
    }
  }

  lemma SumHalf(u: Vec, lo: nat, v: Vec, a: nat, b: nat, h: nat, plus: bool)
    requires lo + 2 * h <= |u| && a + 2 * h <= |v| && b + 2 * h <= |v| && IsSum(u, lo, v, a, b, 2 * h, plus)
    ensures IsSum(u, lo, v, a, b, h, plus) && IsSum(u, lo + h, v, a + h, b + h, h, plus)
  {
    forall p | lo + h <= p < lo + 2 * h ensures u[p] == Plus(v[p - (lo + h) + (a + h)], v[p - (lo + h) + (b + h)], plus) {
      assert u[p] == Plus(v[p - lo + a], v[p - lo + b], plus);
    }
  }

  /** g respects sums and differences, as a scaling does. */
  ghost predicate Additive(g: real -> real) {
    forall x, y :: Distributes(g, x, y)
  }

  ghost predicate Distributes(g: real -> real, x: real, y: real) {
    g(x + y) == g(x) + g(y) && g(x - y) == g(x) - g(y)
  }

  ghost function Scaling(f: real): (g: real -> real)
    ensures Additive(g)
  {
    var g := x => x * f;
    ScalingAdds(f, g);
    g
  }

  lemma ScalingAdds(f: real, g: real -> real)
    requires forall x :: g(x) == x * f
    ensures Additive(g)
  {
    forall x, y ensures Distributes(g, x, y) {
      Distribute(f, x, y);
    }
  }

  lemma Distribute(f: real, x: real, y: real)
    ensures (x + y) * f == x * f + y * f && (x - y) * f == x * f - y * f
  {
  }

  /** From lo to hi, u is v under g. */
  ghost predicate IsMapped(v: Vec, u: Vec, lo: nat, hi: nat, g: real -> real)
    requires hi <= |v| == |u|
  {
    forall p | lo <= p < hi :: u[p] == g(v[p])
  }

  /** The transform respects scaling. */
  lemma {:induction false} EntryMapped(v: Vec, u: Vec, lo: nat, k: nat, g: real -> real, i: nat)
    requires lo + Pow2(k) <= |v| == |u| && i < Pow2(k) && Additive(g) && IsMapped(v, u, lo, lo + Pow2(k), g)
    ensures Entry(u, lo, k, i) == g(Entry(v, lo, k, i))
    decreases k
  {
    if k > 0 {
      var h := Pow2(k - 1);
      var j := if i < h then i else i - h;
      EntryMapped(v, u, lo, k - 1, g, j);
      EntryMapped(v, u, lo + h, k - 1, g, j);
      assert Distributes(g, Entry(v, lo, k - 1, j), Entry(v, lo + h, k - 1, j));
    }
  }

  /** u holds, at `lo`, the unscaled transform of the 2^k numbers that v holds there. */
  ghost predicate IsBlock(v: Vec, u: Vec, lo: nat, k: nat)
    requires lo + Pow2(k) <= |v| == |u|
  {
    forall p | lo <= p < lo + Pow2(k) :: u[p] == Entry(v, lo, k, p - lo)
  }

  lemma BlockAt(v: Vec, u: Vec, lo: nat, k: nat, i: nat)
    requires lo + Pow2(k) <= |v| == |u| && IsBlock(v, u, lo, k) && i < Pow2(k)
    ensures u[lo + i] == Entry(v, lo, k, i)
  {
    var p := lo + i;
    assert u[p] == Entry(v, lo, k, p - lo);
  }

  /** The two halves of a block transformed, before the butterfly that joins them. */
  ghost function Halves(v: Vec, lo: nat, k: nat): (m: Vec)
    requires k > 0 && lo + Pow2(k) <= |v|
    ensures |m| == |v| && IsBlock(v, m, lo, k - 1) && IsBlock(v, m, lo + Pow2(k - 1), k - 1)
  {
    var h := Pow2(k - 1);
    seq(|v|, p requires 0 <= p < |v| =>
      if lo <= p < lo + h then Entry(v, lo, k - 1, p - lo)
      else if lo + h <= p < lo + h + h then Entry(v, lo + h, k - 1, p - (lo + h)) else 0.0)
  }

  /** x doubled k times. */
  ghost function Doubled(k: nat, x: real): real {
    if k == 0 then x else Doubled(k - 1, x) + Doubled(k - 1, x)
  }

  lemma {:induction false} DoubledIs(k: nat, x: real)
    ensures Doubled(k, x) == Pow2(k) as real * x
  {
    if k > 0 {
      DoubledIs(k - 1, x);
    }
  }

  /** The transform of a transform is the vector times its length. */
  lemma {:induction false} EntryTwice(v: Vec, u: Vec, lo: nat, k: nat, i: nat)
    requires lo + Pow2(k) <= |v| == |u| && IsBlock(v, u, lo, k) && i < Pow2(k)
    ensures Entry(u, lo, k, i) == Doubled(k, v[lo + i])
    decreases k
  {
    if k == 0 {
      BlockAt(v, u, lo, 0, 0);
    } else {
      var h, m := Pow2(k - 1), Halves(v, lo, k);
      var x := TwiceHalf(v, u, lo, k, i);
      if i < h {
        EntryTwice(v, m, lo, k - 1, i);
      } else {
        EntryTwice(v, m, lo + h, k - 1, i - h);
      }
    }
  }

  /** Of the two halves, the one that i lies in adds up and the other cancels. */
  lemma {:induction false} TwiceHalf(v: Vec, u: Vec, lo: nat, k: nat, i: nat) returns (x: real)
    requires k > 0 && lo + Pow2(k) <= |v| == |u| && IsBlock(v, u, lo, k) && i < Pow2(k)
    ensures var h, m := Pow2(k - 1), Halves(v, lo, k);
      x == (if i < h then Entry(m, lo, k - 1, i) else Entry(m, lo + h, k - 1, i - h)) && Entry(u, lo, k, i) == x + x
  {
    var h, m := Pow2(k - 1), Halves(v, lo, k);
    var j := if i < h then i else i - h;
    HalvesSum(v, u, lo, k);
    EntrySum(u, lo, m, lo, lo + h, k - 1, true, j);
    EntrySum(u, lo + h, m, lo, lo + h, k - 1, false, j);
    x := if i < h then Entry(m, lo, k - 1, i) else Entry(m, lo + h, k - 1, i - h);
  }

  lemma {:induction false} HalvesSum(v: Vec, u: Vec, lo: nat, k: nat)
    requires k > 0 && lo + Pow2(k) <= |v| == |u| && IsBlock(v, u, lo, k)
    ensures var h, m := Pow2(k - 1), Halves(v, lo, k);
      IsSum(u, lo, m, lo, lo + h, h, true) && IsSum(u, lo + h, m, lo, lo + h, h, false)
  {
    var h, m := Pow2(k - 1), Halves(v, lo, k);
    forall p | lo <= p < lo + h ensures u[p] == Plus(m[p - lo + lo], m[p - lo + (lo + h)], true) {
      HalvesAt(v, u, lo, k, m, p - lo);
    }
    forall p | lo + h <= p < lo + h + h ensures u[p] == Plus(m[p - (lo + h) + lo], m[p - (lo + h) + (lo + h)], false) {
      HalvesAt(v, u, lo, k, m, p - (lo + h));
    }
  }

  lemma HalvesAt(v: Vec, u: Vec, lo: nat, k: nat, m: Vec, j: nat)
    requires k > 0 && lo + Pow2(k) <= |v| == |u| == |m| && IsBlock(v, u, lo, k) && j < Pow2(k - 1)
    requires IsBlock(v, m, lo, k - 1) && IsBlock(v, m, lo + Pow2(k - 1), k - 1)
    ensures var h := Pow2(k - 1); u[lo + j] == m[lo + j] + m[lo + h + j] && u[lo + h + j] == m[lo + j] - m[lo + h + j]
  {
    var h := Pow2(k - 1);
    BlockAt(v, m, lo, k - 1, j);
    BlockAt(v, m, lo + h, k - 1, j);
    BlockAt(v, u, lo, k, j);
    BlockAt(v, u, lo, k, h + j);
  }

  // ----- the loops over one block -----

  /** Between lo and hi, u holds the unscaled transforms of consecutive blocks of 2^j numbers of v. */
  ghost predicate IsRow(v: Vec, u: Vec, lo: nat, hi: nat, j: nat)
    requires lo <= hi <= |v| == |u|
    decreases hi - lo
  {
    lo == hi || (lo + Pow2(j) <= hi && IsBlock(v, u, lo, j) && IsRow(v, u, lo + Pow2(j), hi, j))
  }

  /** u and t agree from lo to hi. */
  ghost predicate Same(u: Vec, t: Vec, lo: nat, hi: nat)
    requires hi <= |u| == |t|
  {
    forall p | lo <= p < hi :: t[p] == u[p]
  }

  lemma {:induction false} RowStart(v: Vec, u: Vec, lo: nat, hi: nat)
    requires lo <= hi <= |v| == |u| && Same(v, u, lo, hi)
    ensures IsRow(v, u, lo, hi, 0)
    decreases hi - lo
  {
    if lo < hi {
      RowStart(v, u, lo + 1, hi);
    }
  }

  lemma {:induction false} RowKept(v: Vec, u: Vec, t: Vec, lo: nat, hi: nat, j: nat)
    requires lo <= hi <= |v| == |u| == |t| && Same(u, t, lo, hi) && IsRow(v, u, lo, hi, j)
    ensures IsRow(v, t, lo, hi, j)
    decreases hi - lo
  {
    if lo < hi {
      RowKept(v, u, t, lo + Pow2(j), hi, j);
    }
  }

  lemma {:induction false} RowMore(v: Vec, u: Vec, lo: nat, mid: nat, j: nat)
    requires lo <= mid && mid + Pow2(j) <= |v| == |u| && IsRow(v, u, lo, mid, j) && IsBlock(v, u, mid, j)
    ensures IsRow(v, u, lo, mid + Pow2(j), j)
    decreases mid - lo
  {
    if lo < mid {
      RowMore(v, u, lo + Pow2(j), mid, j);
    } else {
      assert IsRow(v, u, mid + Pow2(j), mid + Pow2(j), j);
    }
  }

  lemma RowLonger(v: Vec, u: Vec, t: Vec, lo: nat, mid: nat, j: nat)
    requires lo <= mid && mid + Pow2(j) <= |v| == |u| == |t| && Same(u, t, 0, mid)
    requires IsRow(v, u, lo, mid, j) && IsBlock(v, t, mid, j)
    ensures IsRow(v, t, lo, mid + Pow2(j), j)
  {
    RowKept(v, u, t, lo, mid, j);
    RowMore(v, t, lo, mid, j);
  }

  lemma RowOne(v: Vec, u: Vec, lo: nat, k: nat)
    requires lo + Pow2(k) <= |v| == |u| && IsRow(v, u, lo, lo + Pow2(k), k)
    ensures IsBlock(v, u, lo, k)
  {
  }

  lemma RowTwo(v: Vec, u: Vec, base: nat, hi: nat, j: nat)
    requires base + 2 * Pow2(j) <= hi <= |v| == |u| && IsRow(v, u, base, hi, j)
    ensures IsBlock(v, u, base, j) && IsBlock(v, u, base + Pow2(j), j) && IsRow(v, u, base + 2 * Pow2(j), hi, j)
  {
    var mid := base + Pow2(j);
    assert IsRow(v, u, mid, hi, j);
    assert mid + Pow2(j) == base + 2 * Pow2(j);
  }

  /** What position p holds once the first j pairs of the butterfly of width w at `base` are done. */
  ghost function Cross(v: Vec, base: nat, w: nat, j: nat, p: nat): real
    requires base + 2 * w <= |v| && j <= w && p < |v|
  {
    if base <= p < base + j then v[p] + v[p + w] else if base + w <= p < base + w + j then v[p - w] - v[p] else v[p]
  }

  ghost predicate Crossed(v: Vec, u: Vec, base: nat, w: nat, j: nat)
    requires base + 2 * w <= |v| == |u| && j <= w
  {
    forall p | 0 <= p < |v| :: u[p] == Cross(v, base, w, j, p)
  }

  lemma CrossedStep(v: Vec, u: Vec, base: nat, w: nat, j: nat)
    requires base + 2 * w <= |v| == |u| && j < w && Crossed(v, u, base, w, j)
    ensures Crossed(v, u[base + j := u[base + j] + u[base + j + w]][base + j + w := u[base + j] - u[base + j + w]], base, w, j + 1)
  {
    var l, r := base + j, base + j + w;
    var t := u[l := u[l] + u[r]][r := u[l] - u[r]];
    assert u[l] == v[l] && u[r] == v[r];
    forall p | 0 <= p < |v| ensures t[p] == Cross(v, base, w, j + 1, p) {
      assert u[p] == Cross(v, base, w, j, p);
    }
  }

  lemma CrossedOutside(v: Vec, u: Vec, base: nat, w: nat)
    requires base + 2 * w <= |v| == |u| && Crossed(v, u, base, w, w)
    ensures Same(v, u, 0, base) && Same(v, u, base + 2 * w, |v|)
  {
  }

  /** A butterfly joins two neighbouring blocks into one of twice the length. */
  lemma BlockJoined(v: Vec, u: Vec, t: Vec, base: nat, j: nat)
    requires base + 2 * Pow2(j) <= |v| == |u| == |t| && Crossed(u, t, base, Pow2(j), Pow2(j))
    requires IsBlock(v, u, base, j) && IsBlock(v, u, base + Pow2(j), j)
    ensures IsBlock(v, t, base, j + 1)
  {
    forall p | base <= p < base + Pow2(j + 1) ensures t[p] == Entry(v, base, j + 1, p - base) {
      EntryJoined(v, u, t, base, j, p - base);
    }
  }

  lemma EntryJoined(v: Vec, u: Vec, t: Vec, base: nat, j: nat, i: nat)
    requires base + 2 * Pow2(j) <= |v| == |u| == |t| && Crossed(u, t, base, Pow2(j), Pow2(j))
    requires IsBlock(v, u, base, j) && IsBlock(v, u, base + Pow2(j), j) && i < 2 * Pow2(j)
    ensures t[base + i] == Entry(v, base, j + 1, i)
  {
    var w := Pow2(j);
    var c := if i < w then i else i - w;
    BlockAt(v, u, base, j, c);
    BlockAt(v, u, base + w, j, c);
  }

  /** The state of the middle loop: blocks of 2^(j+1) before base, blocks of 2^j behind it, s elsewhere. */
  ghost predicate MidRow(v: Vec, s: Vec, u: Vec, lo: nat, base: nat, hi: nat, j: nat) {
    && lo <= base <= hi <= |v| == |u| == |s| && Tiles(Pow2(j + 1), hi - base)
    && IsRow(v, u, lo, base, j + 1) && IsRow(v, u, base, hi, j)
    && Same(s, u, 0, lo) && Same(s, u, hi, |s|)
  }

  lemma {:induction false} MidStep(v: Vec, s: Vec, u: Vec, t: Vec, lo: nat, base: nat, hi: nat, j: nat)
    requires MidRow(v, s, u, lo, base, hi, j) && base < hi && |t| == |u|
    requires base + 2 * Pow2(j) <= |u| && Crossed(u, t, base, Pow2(j), Pow2(j))
    ensures MidRow(v, s, t, lo, base + 2 * Pow2(j), hi, j)
  {
    var w := Pow2(j);
    assert Pow2(j + 1) == 2 * w;
    CrossedOutside(u, t, base, w);
    RowTwo(v, u, base, hi, j);
    BlockJoined(v, u, t, base, j);
    RowKept(v, u, t, base + 2 * w, hi, j);
    RowLonger(v, u, t, lo, base, j + 1);
  }

  /** n is a multiple of w. */
  ghost predicate Tiles(w: nat, n: nat)
    requires w > 0
    decreases n
  {
    n == 0 || (n >= w && Tiles(w, n - w))
  }

  lemma {:induction false} TilesDouble(w: nat, n: nat)
    requires w > 0 && Tiles(w, n)
    ensures Tiles(w, 2 * n)
    decreases n
  {
    if n > 0 {
      TilesDouble(w, n - w);
      assert Tiles(w, 2 * n - w);
    }
  }

  lemma {:induction false} Pow2Tiles(j: nat, k: nat)
    requires j <= k
    ensures Tiles(Pow2(j), Pow2(k))
  {
    if j < k {
      Pow2Tiles(j, k - 1);
      TilesDouble(Pow2(j), Pow2(k - 1));
    }
  }

  /** The innermost loop: one pair at a time. */
  method CrossAt(x: array<real>, base: nat, w: nat)
    requires base + 2 * w <= x.Length
    modifies x
    ensures Crossed(old(x[..]), x[..], base, w, w)
  {
    ghost var v := x[..];
    for j := 0 to w
      invariant Crossed(v, x[..], base, w, j)
    {
      CrossedStep(v, x[..], base, w, j);
      var a, b := x[base + j], x[base + j + w];
      ghost var u := x[..][base + j := a + b][base + j + w := a - b];
      x[base + j] := a + b;
      x[base + j + w] := a - b;
      assert x[..] == u;
    }
  }

  /** The middle loop: all butterflies of width 2^j. */
  method CrossAll(x: array<real>, off: nat, n: nat, w: nat, ghost v: Vec, ghost j: nat)
    requires off + n <= x.Length == |v| && w == Pow2(j) && Tiles(2 * w, n) && IsRow(v, x[..], off, off + n, j)
    modifies x
    ensures IsRow(v, x[..], off, off + n, j + 1)
    ensures Same(old(x[..]), x[..], 0, off) && Same(old(x[..]), x[..], off + n, x.Length)
  {
    ghost var s := x[..];
    var base := 0;
    assert MidRow(v, s, s, off, off, off + n, j);
    while base < n
      invariant base <= n
      invariant MidRow(v, s, x[..], off, off + base, off + n, j)
    {
      ghost var u := x[..];
      assert n - base >= 2 * w;
      CrossAt(x, off + base, w);
      MidStep(v, s, u, x[..], off, off + base, off + n, j);
      base := base + 2 * w;
    }
  }

  /** The scaling loop. */
  method ScaleAt(x: array<real>, off: nat, n: nat, f: real)
    requires off + n <= x.Length
    modifies x
    ensures IsMapped(old(x[..]), x[..], off, off + n, Scaling(f))
    ensures Same(old(x[..]), x[..], 0, off) && Same(old(x[..]), x[..], off + n, x.Length)
  {
    ghost var s := x[..];
    for i := 0 to n
      invariant IsMapped(s, x[..], off, off + i, Scaling(f))
      invariant Same(s, x[..], 0, off) && Same(s, x[..], off + i, x.Length)
    {
      x[off + i] := x[off + i] * f;
    }
  }

  /** u holds, at `lo`, the transform of the 2^k numbers that v holds there, scaled by g. */
  ghost predicate IsFwht(v: Vec, u: Vec, lo: nat, k: nat, g: real -> real)
    requires lo + Pow2(k) <= |v| == |u|
  {
    forall p | lo <= p < lo + Pow2(k) :: u[p] == g(Entry(v, lo, k, p - lo))
  }

  lemma FwhtIs(v: Vec, m: Vec, u: Vec, lo: nat, k: nat, g: real -> real)
    requires lo + Pow2(k) <= |v| == |u| == |m| && IsBlock(v, m, lo, k) && IsMapped(m, u, lo, lo + Pow2(k), g)
    ensures IsFwht(v, u, lo, k, g)
  {
  }

  /** The outer loop: the width of the butterflies doubles until it is the block length. */
  method Butterflies(x: array<real>, off: nat, n: nat, ghost k: nat, ghost v: Vec)
    requires off + n <= x.Length == |v| && n == Pow2(k) && Same(v, x[..], off, off + n)
    modifies x
    ensures IsBlock(v, x[..], off, k)
    ensures Same(old(x[..]), x[..], 0, off) && Same(old(x[..]), x[..], off + n, x.Length)
  {
    ghost var s := x[..];
    RowStart(v, s, off, off + n);
    var width := 1;
    ghost var j := 0;
    while width < n
      invariant j <= k && width == Pow2(j) <= n
      invariant IsRow(v, x[..], off, off + n, j)
      invariant Same(s, x[..], 0, off) && Same(s, x[..], off + n, x.Length)
      decreases n - width
    {
      Pow2Grows(j, k);
      Pow2Tiles(j + 1, k);
      CrossAll(x, off, n, width, v, j);
      width := 2 * width;
      j := j + 1;
    }
    Pow2Same(j, k);
    RowOne(v, x[..], off, k);
  }

  /** The transform of the block of n numbers at `off`, which v holds too; f is the scaling that the
      code derives from n. */
  method FwhtInPlace(x: array<real>, off: nat, n: nat, f: real, ghost k: nat, ghost v: Vec)
    requires off + n <= x.Length == |v| && n == Pow2(k) && Same(v, x[..], off, off + n)
    modifies x
    ensures IsFwht(v, x[..], off, k, Scaling(f))
    ensures Same(old(x[..]), x[..], 0, off) && Same(old(x[..]), x[..], off + n, x.Length)
  {
    Butterflies(x, off, n, k, v);
    ghost var m := x[..];
    ScaleAt(x, off, n, f);
    FwhtIs(v, m, x[..], off, k, Scaling(f));
  }

  lemma Pow2Grows(j: nat, k: nat)
    requires j <= k && Pow2(j) < Pow2(k)
    ensures j < k && Pow2(j + 1) <= Pow2(k)
  {
    Pow2Monotone(j + 1, k);
  }

  lemma Pow2Same(j: nat, k: nat)
    requires j <= k && Pow2(j) >= Pow2(k)
    ensures j == k
  {
    if j < k {
      Pow2Monotone(j + 1, k);
    }
  }

  // ----- one block, there and back -----

  /** What scaling by one over the square root of 2^k means. */
  ghost predicate InvertsLength(f: real, k: nat) {
    f * f * Pow2(k) as real == 1.0
  }

  lemma ScaledBack(f: real, k: nat, x: real)
    requires InvertsLength(f, k)
    ensures Scaling(f)(Scaling(f)(Doubled(k, x))) == x
  {
    DoubledIs(k, x);
    Cancel(f, Pow2(k) as real, x);
  }

  lemma Cancel(f: real, n: real, x: real)
    requires f * f * n == 1.0
    ensures n * x * f * f == x
  {
    assert n * x * f * f == f * f * n * x;
  }

  /** The transform of one block undoes itself. */
  lemma FwhtTwice(v: Vec, u: Vec, t: Vec, lo: nat, k: nat, f: real)
    requires lo + Pow2(k) <= |v| == |u| == |t| && InvertsLength(f, k)
    requires IsFwht(v, u, lo, k, Scaling(f)) && IsFwht(u, t, lo, k, Scaling(f))
    ensures Same(v, t, lo, lo + Pow2(k))
  {
    var m := Transformed(v, lo, k);
    var g := Scaling(f);
    assert IsMapped(m, u, lo, lo + Pow2(k), g);
    forall p | lo <= p < lo + Pow2(k) ensures t[p] == v[p] {
      EntryMapped(m, u, lo, k, g, p - lo);
      EntryTwice(v, m, lo, k, p - lo);
      ScaledBack(f, k, v[p]);
    }
  }

  ghost function Transformed(v: Vec, lo: nat, k: nat): (m: Vec)
    requires lo + Pow2(k) <= |v|
    ensures |m| == |v| && IsBlock(v, m, lo, k)
  {
    seq(|v|, p requires 0 <= p < |v| => if lo <= p < lo + Pow2(k) then Entry(v, lo, k, p - lo) else 0.0)
  }

  // ----- the whole vector -----

  /** The exponent of the largest power of two that fits in m. */
  ghost function Log2(m: nat): (k: nat)
    requires m > 0
    ensures Pow2(k) <= m < 2 * Pow2(k)
  {
    if m == 1 then 0 else Log2(m / 2) + 1
  }

  /** From lo to hi, u holds the transforms of consecutive blocks of v; each block is the longest
      power of two that fits in what is left of the vector. */
  ghost predicate IsTiled(v: Vec, u: Vec, lo: nat, hi: nat, invSqrt: nat -> real)
    requires lo <= hi <= |v| == |u|
    decreases hi - lo
  {
    lo == hi || (
      var k := Log2(|v| - lo);
      && lo + Pow2(k) <= hi
      && IsFwht(v, u, lo, k, Scaling(invSqrt(Pow2(k))))
      && IsTiled(v, u, lo + Pow2(k), hi, invSqrt))
  }

  /** u is v with every block of the tiling transformed. */
  ghost predicate IsTransformed(v: Vec, u: Vec, invSqrt: nat -> real) {
    |u| == |v| && IsTiled(v, u, 0, |v|, invSqrt)
  }

  /** invSqrt is one over the square root, at every power of two. */
  ghost predicate IsInvSqrt(invSqrt: nat -> real) {
    forall k: nat :: InvertsAt(invSqrt, k)
  }

  ghost predicate InvertsAt(invSqrt: nat -> real, k: nat) {
    InvertsLength(invSqrt(Pow2(k)), k)
  }

  /** The tiling depends on the length alone, and each block undoes itself. */
  lemma {:induction false} TiledTwice(v: Vec, u: Vec, t: Vec, lo: nat, invSqrt: nat -> real)
    requires lo <= |v| == |u| == |t| && IsInvSqrt(invSqrt)
    requires IsTiled(v, u, lo, |v|, invSqrt) && IsTiled(u, t, lo, |v|, invSqrt)
    ensures Same(v, t, lo, |v|)
    decreases |v| - lo
  {
    if lo < |v| {
      var e := FirstTileTwice(v, u, t, lo, invSqrt);
      TiledTwice(v, u, t, e, invSqrt);
    }
  }

  lemma FirstTileTwice(v: Vec, u: Vec, t: Vec, lo: nat, invSqrt: nat -> real) returns (e: nat)
    requires lo < |v| == |u| == |t| && IsInvSqrt(invSqrt)
    requires IsTiled(v, u, lo, |v|, invSqrt) && IsTiled(u, t, lo, |v|, invSqrt)
    ensures lo < e <= |v| && Same(v, t, lo, e) && IsTiled(v, u, e, |v|, invSqrt) && IsTiled(u, t, e, |v|, invSqrt)
  {
    e := lo + Pow2(Log2(|v| - lo));
    FirstTile(v, u, lo, |v|, invSqrt);
    FirstTile(u, t, lo, |v|, invSqrt);
    BlockTwice(v, u, t, lo, Log2(|v| - lo), invSqrt);
  }

  lemma FirstTile(v: Vec, u: Vec, lo: nat, hi: nat, invSqrt: nat -> real)
    requires lo < hi <= |v| == |u| && IsTiled(v, u, lo, hi, invSqrt)
    ensures var k := Log2(|v| - lo); var n := Pow2(k);
      lo + n <= hi && IsFwht(v, u, lo, k, Scaling(invSqrt(n))) && IsTiled(v, u, lo + n, hi, invSqrt)
  {
  }

  lemma BlockTwice(v: Vec, u: Vec, t: Vec, lo: nat, k: nat, invSqrt: nat -> real)
    requires lo + Pow2(k) <= |v| == |u| == |t| && IsInvSqrt(invSqrt)
    requires var g := Scaling(invSqrt(Pow2(k))); IsFwht(v, u, lo, k, g) && IsFwht(u, t, lo, k, g)
    ensures Same(v, t, lo, lo + Pow2(k))
  {
    assert InvertsAt(invSqrt, k);
    FwhtTwice(v, u, t, lo, k, invSqrt(Pow2(k)));
  }

  lemma {:induction false} TiledKept(v: Vec, u: Vec, t: Vec, lo: nat, hi: nat, invSqrt: nat -> real)
    requires lo <= hi <= |v| == |u| == |t| && Same(u, t, 0, hi) && IsTiled(v, u, lo, hi, invSqrt)
    ensures IsTiled(v, t, lo, hi, invSqrt)
    decreases hi - lo
  {
    if lo < hi {
      TiledKept(v, u, t, lo + Pow2(Log2(|v| - lo)), hi, invSqrt);
    }
  }

  lemma {:induction false} TiledMore(v: Vec, u: Vec, lo: nat, mid: nat, invSqrt: nat -> real)
    requires lo <= mid < |v| == |u| && IsTiled(v, u, lo, mid, invSqrt)
    requires var k := Log2(|v| - mid); IsFwht(v, u, mid, k, Scaling(invSqrt(Pow2(k))))
    ensures IsTiled(v, u, lo, mid + Pow2(Log2(|v| - mid)), invSqrt)
    decreases mid - lo
  {
    var e := mid + Pow2(Log2(|v| - mid));
    if lo < mid {
      TiledMore(v, u, lo + Pow2(Log2(|v| - lo)), mid, invSqrt);
    } else {
      assert IsTiled(v, u, e, e, invSqrt);
    }
  }

  /** The state of the loop over the blocks: transformed before `offset`, untouched behind it. */
  ghost predicate TiledUpTo(v: Vec, u: Vec, offset: nat, invSqrt: nat -> real) {
    offset <= |v| == |u| && IsTiled(v, u, 0, offset, invSqrt) && Same(v, u, offset, |v|)
  }

  /** The next block is still untouched. */
  lemma {:induction false} TiledNext(v: Vec, u: Vec, offset: nat, k: nat, n: nat, invSqrt: nat -> real)
    requires TiledUpTo(v, u, offset, invSqrt) && offset < |v| && k == Log2(|v| - offset) && n == Pow2(k)
    ensures offset + n <= |v| == |u| && Same(v, u, offset, offset + n)
  {
  }

  lemma {:induction false} TiledStep(v: Vec, u: Vec, t: Vec, offset: nat, k: nat, n: nat, invSqrt: nat -> real)
    requires TiledUpTo(v, u, offset, invSqrt) && offset < |v| == |t| && k == Log2(|v| - offset) && n == Pow2(k)
    requires offset + n <= |v| && IsFwht(v, t, offset, k, Scaling(invSqrt(n))) && Same(u, t, 0, offset) && Same(u, t, offset + n, |u|)
    ensures TiledUpTo(v, t, offset + n, invSqrt)
  {
    TiledKept(v, u, t, 0, offset, invSqrt);
    TiledMore(v, t, 0, offset, invSqrt);
  }

  /** The loop that finds the next block length. */
  method BlockLength(m: nat) returns (n: nat)
    requires m > 0
    ensures n == Pow2(Log2(m))
  {
    n := 1;
    ghost var k := 0;
    while n <= m / 2
      invariant n == Pow2(k) <= m
      decreases m - n
    {
      n := 2 * n;
      k := k + 1;
    }
    SamePower(k, Log2(m), m);
  }

  lemma SamePower(j: nat, k: nat, m: nat)
    requires Pow2(j) <= m < 2 * Pow2(j) && Pow2(k) <= m < 2 * Pow2(k)
    ensures j == k
  {
    if j != k {
      var lo, hi := if j < k then j else k, if j < k then k else j;
      Pow2Monotone(lo + 1, hi);
      assert false;
    }
  }

  /** The loop over the blocks. */
  method TransformBlocks(x: array<real>, invSqrt: nat -> real)
    modifies x
    ensures IsTransformed(old(x[..]), x[..], invSqrt)
  {
    ghost var v := x[..];
    var offset := 0;
    while offset < x.Length
      invariant TiledUpTo(v, x[..], offset, invSqrt)
    {
      offset := TransformNext(x, offset, invSqrt, v);
    }
  }

  /** The block at `offset`, and where the next one starts. */
  method TransformNext(x: array<real>, offset: nat, invSqrt: nat -> real, ghost v: Vec) returns (next: nat)
    requires offset < x.Length && TiledUpTo(v, x[..], offset, invSqrt)
    modifies x
    ensures offset < next && TiledUpTo(v, x[..], next, invSqrt)
  {
    ghost var u := x[..];
    var n := BlockLength(x.Length - offset);
    ghost var k := Log2(x.Length - offset);
    TiledNext(v, u, offset, k, n, invSqrt);
    FwhtInPlace(x, offset, n, invSqrt(n), k, v);
    TiledStep(v, u, x[..], offset, k, n, invSqrt);
    next := offset + n;
  }

  /** u is v with each entry multiplied by its sign. */
  ghost predicate IsSigned(signs: Vec, v: Vec, u: Vec) {
    |signs| == |v| == |u| && forall p | 0 <= p < |v| :: u[p] == v[p] * signs[p]
  }

  /** The sign loop. */
  method ApplySigns(x: array<real>, signs: array<real>)
    requires x.Length == signs.Length && x != signs
    modifies x
    ensures IsSigned(signs[..], old(x[..]), x[..])
  {
    ghost var s := x[..];
    for i := 0 to x.Length
      invariant forall p | 0 <= p < i :: x[p] == s[p] * signs[p]
      invariant forall p | i <= p < x.Length :: x[p] == s[p]
    {
      x[i] := x[i] * signs[i];
    }
  }

  /** b is a rotated: signs first, then the blocks. */
  ghost predicate IsRotated(signs: Vec, invSqrt: nat -> real, a: Vec, b: Vec) {
    exists m :: IsSigned(signs, a, m) && IsTransformed(m, b, invSqrt)
  }

  /** b is a rotated back: the blocks first, then the signs. */
  ghost predicate IsRotatedBack(signs: Vec, invSqrt: nat -> real, a: Vec, b: Vec) {
    exists m :: IsTransformed(a, m, invSqrt) && IsSigned(signs, m, b)
  }

  /** The whole transform, in either direction. */
  method Transform(x: array<real>, signs: array<real>, invSqrt: nat -> real, inverse: bool)
    requires x.Length == signs.Length && x != signs
    modifies x
    ensures !inverse ==> IsRotated(signs[..], invSqrt, old(x[..]), x[..])
    ensures inverse ==> IsRotatedBack(signs[..], invSqrt, old(x[..]), x[..])
  {
    ghost var a := x[..];
    if !inverse {
      ApplySigns(x, signs);
    }
    ghost var m := x[..];
    TransformBlocks(x, invSqrt);
    ghost var t := x[..];
    if inverse {
      ApplySigns(x, signs);
    }
    assert !inverse ==> IsSigned(signs[..], a, m) && IsTransformed(m, t, invSqrt);
    assert inverse ==> IsTransformed(a, t, invSqrt) && IsSigned(signs[..], t, x[..]);
  }

  ghost predicate AreSigns(signs: Vec) {
    forall p | 0 <= p < |signs| :: signs[p] == 1.0 || signs[p] == -1.0
  }

  lemma SignedTwice(signs: Vec, v: Vec, u: Vec, t: Vec)
    requires AreSigns(signs) && IsSigned(signs, v, u) && IsSigned(signs, u, t)
    ensures t == v
  {
    forall p | 0 <= p < |v| ensures t[p] == v[p] {
      assert t[p] == v[p] * signs[p] * signs[p];
    }
  }

  lemma TransformedTwice(v: Vec, u: Vec, t: Vec, invSqrt: nat -> real)
    requires IsInvSqrt(invSqrt) && IsTransformed(v, u, invSqrt) && IsTransformed(u, t, invSqrt)
    ensures t == v
  {
    TiledTwice(v, u, t, 0, invSqrt);
  }

  /** Rotating and rotating back is the identity at every dimension. */
  lemma RotateThenBack(signs: Vec, invSqrt: nat -> real, a: Vec, b: Vec, c: Vec)
    requires AreSigns(signs) && IsInvSqrt(invSqrt)
    requires IsRotated(signs, invSqrt, a, b) && IsRotatedBack(signs, invSqrt, b, c)
    ensures c == a
  {
    var m :| IsSigned(signs, a, m) && IsTransformed(m, b, invSqrt);
    var n :| IsTransformed(b, n, invSqrt) && IsSigned(signs, n, c);
    TransformedTwice(m, b, n, invSqrt);
    SignedTwice(signs, a, m, c);
  }

  /** So is rotating back and rotating again. */
  lemma BackThenRotate(signs: Vec, invSqrt: nat -> real, a: Vec, b: Vec, c: Vec)
    requires AreSigns(signs) && IsInvSqrt(invSqrt)
    requires IsRotatedBack(signs, invSqrt, a, b) && IsRotated(signs, invSqrt, b, c)
    ensures c == a
  {
    var m :| IsTransformed(a, m, invSqrt) && IsSigned(signs, m, b);
    var n :| IsSigned(signs, b, n) && IsTransformed(n, c, invSqrt);
    SignedTwice(signs, m, b, n);
    TransformedTwice(a, m, c, invSqrt);
  }
}
