/** The filter compiler of include/filter/dsl_compiler.h: a filter becomes a tree of selectors and a
    table of query values; each leaf reads its own slot of the table. */
module FilterCompiler {

  import opened Bounds
  import opened StringKeys
  import opened FilterExpr
  import LikeMatch
  import Selector

  datatype Result<T> = Built(value: T) | Refused

  /** A query value or a stored value: numbers, or packed bytes, in words. */
  type Attr = seq<Cell>

  datatype LeafKind = LabelOr | LabelAnd | RangeLeaf | StringEq | StringPrefix | StringSuffix | StringLike

  datatype LeafSel = LeafSel(kind: LeafKind, slot: nat, key: nat)

  type Sel = Selector.Tree<LeafSel>

  // ----- string records -----

  /** Each record is its length in words and the words. */
  function Records(q: Attr): (rs: seq<Attr>) {
    if q == [] || !q[0].Num? || 1 + q[0].n > |q| then []
    else [q[1..1 + q[0].n]] + Records(q[1 + q[0].n..])
  }

  function AppendRecord(dest: Attr, bare: Attr): Attr {
    dest + [Cell.Num(|bare|)] + bare
  }

  function Encoded(rs: seq<Attr>): Attr {
    if rs == [] then [] else AppendRecord(Encoded(rs[..|rs| - 1]), rs[|rs| - 1])
  }

  lemma {:induction false} RecordsAppended(rs: seq<Attr>, tail: Attr)
    ensures Records(Encoded(rs) + tail) == rs + Records(tail)
    decreases |rs|
  {
    if rs == [] {
      assert Encoded(rs) + tail == tail;
    } else {
      var front, last := rs[..|rs| - 1], rs[|rs| - 1];
      var more := [Cell.Num(|last|)] + last + tail;
      assert Encoded(rs) + tail == Encoded(front) + more;
      RecordsAppended(front, more);
      assert more[1..1 + |last|] == last && more[1 + |last|..] == tail;
      assert rs == front + [last];
    }
  }

  /** Reading the records back. */
  lemma RecordsOf(rs: seq<Attr>)
    ensures Records(Encoded(rs)) == rs
  {
    RecordsAppended(rs, []);
    assert Encoded(rs) + [] == Encoded(rs);
  }

  // ----- the leaves -----

  ghost predicate HasRecord(q: Attr, accepts: Attr -> bool) {
    exists i :: 0 <= i < |Records(q)| && accepts(Records(q)[i])
  }

  /** A query value against a stored value. */
  ghost predicate Matches(kind: LeafKind, q: Attr, t: Attr) {
    match kind
    case LabelOr => exists i :: 0 <= i < |q| && q[i] in t
    case LabelAnd => forall i | 0 <= i < |q| :: q[i] in t
    case RangeLeaf => |q| > 0 && q[0].Num? && (|q| > 1 ==> q[1].Num?) && |t| > 0 && t[0].Num?
      && q[0].n <= t[0].n < if |q| > 1 then q[1].n else q[0].n + 1
    case StringEq => HasRecord(q, r => r == t)
    case StringPrefix => HasRecord(q, r => View(r) <= View(t))
    case StringSuffix => HasRecord(q, r => EndsWith(View(t), View(r)))
    case StringLike => HasRecord(q, r => LikeMatch.Scan(View(t), View(r), 0, 0, LikeMatch.NoStar))
  }

  /** The exact check of a leaf: the query value in its slot against the stored value of its field. */
  ghost predicate LeafMember(l: LeafSel, query: seq<Attr>, record: map<nat, Attr>) {
    l.key in record && l.slot < |query| && Matches(l.kind, query[l.slot], record[l.key])
  }

  ghost function Test(query: seq<Attr>, record: map<nat, Attr>): (LeafSel, nat) -> bool {
    (l, _) => LeafMember(l, query, record)
  }

  /** The compiled filter on one vector. */
  ghost predicate Accepts(s: Sel, query: seq<Attr>, record: map<nat, Attr>) {
    Selector.Member(s, Test(query, record), 0)
  }

  // ----- stored values -----

  function Numbers(ns: seq<nat>): (q: Attr)
    ensures |q| == |ns| && forall i | 0 <= i < |ns| :: q[i] == Cell.Num(ns[i])
  {
    seq(|ns|, i requires 0 <= i < |ns| => Cell.Num(ns[i]))
  }

  /** How a field value is laid out in a vector's record. */
  function Layout(x: Stored): Attr {
    match x
    case Labels(ls) => Numbers(ls)
    case Scalar(n) => [Cell.Num(n)]
    case Chars(t) => Pack(t)
  }

  /** The record holds the row, each field under its key. */
  ghost predicate Holds(schema: Schema, row: Row, record: map<nat, Attr>) {
    && TypedRow(schema, row)
    && forall name | name in schema :: (name in row <==> schema[name].key in record) && (name in row ==> record[schema[name].key] == Layout(row[name]))
  }

  // ----- what each leaf means -----

  /** On every value that the field can store, the leaf decides the condition. */
  ghost predicate Decides(kind: LeafKind, q: Attr, field: Kind, c: Clause) {
    forall x | Storable(x, field) && Plain(x, c) :: Matches(kind, q, Layout(x)) <==> Satisfies(x, c)
  }

  function NumbersOf(vs: seq<Value>): (ns: seq<nat>)
    requires forall i | 0 <= i < |vs| :: vs[i].Number?
    ensures |ns| == |vs| && forall i | 0 <= i < |vs| :: ns[i] == vs[i].n
  {
    seq(|vs|, i requires 0 <= i < |vs| => vs[i].n)
  }

  lemma LabelsAgree(ls: seq<nat>, n: nat)
    ensures Cell.Num(n) in Numbers(ls) <==> n in ls
  {
    var t := Numbers(ls);
    if n in ls {
      var i :| 0 <= i < |ls| && ls[i] == n;
      assert t[i] == Cell.Num(n);
    }
  }

  lemma LabelsDecide(vs: seq<Value>)
    requires forall i | 0 <= i < |vs| :: vs[i].Number?
    ensures Decides(LabelOr, Numbers(NumbersOf(vs)), Label, In(vs))
    ensures Decides(LabelAnd, Numbers(NumbersOf(vs)), Label, All(vs))
  {
    var q := Numbers(NumbersOf(vs));
    forall x, i | Storable(x, Label) && 0 <= i < |vs| ensures q[i] in Layout(x) <==> Equals(x, vs[i]) {
      LabelsAgree(x.labels, vs[i].n);
    }
    forall x | Storable(x, Label) ensures Matches(LabelOr, q, Layout(x)) <==> Satisfies(x, In(vs)) {
      if Satisfies(x, In(vs)) {
        var i :| 0 <= i < |vs| && Equals(x, vs[i]);
        assert q[i] in Layout(x);
      }
    }
  }

  lemma LabelDecides(v: Value)
    requires v.Number?
    ensures Decides(LabelOr, [Cell.Num(v.n)], Label, Is(v))
  {
    var q := [Cell.Num(v.n)];
    forall x | Storable(x, Label) ensures Matches(LabelOr, q, Layout(x)) <==> Satisfies(x, Is(v)) {
      LabelsAgree(x.labels, v.n);
      assert q[0] in Layout(x) <==> v.n in x.labels;
    }
  }

  ghost predicate AllCompare(ops: seq<(Comparator, Value)>, n: nat, x: nat)
    requires n <= |ops|
  {
    forall i | 0 <= i < n :: ops[i].1.Number? && Compares(x, ops[i].0, ops[i].1.n)
  }

  lemma RangeDecides(lo: nat, hi: nat, c: Clause)
    requires forall y: nat | y < MAX :: Satisfies(Scalar(y), c) <==> lo <= y < hi
    ensures Decides(RangeLeaf, [Cell.Num(lo), Cell.Num(hi)], Range, c)
  {
    forall x | Storable(x, Range) ensures Matches(RangeLeaf, [Cell.Num(lo), Cell.Num(hi)], Layout(x)) <==> Satisfies(x, c) {
      assert x == Scalar(x.x);
    }
  }

  /** The packed strings of a list of values. */
  function Packs(vs: seq<Value>): (rs: seq<Attr>)
    requires forall i | 0 <= i < |vs| :: !vs[i].Number?
    ensures |rs| == |vs| && forall i | 0 <= i < |vs| :: rs[i] == Pack(vs[i].s)
  {
    seq(|vs|, i requires 0 <= i < |vs| => Pack(vs[i].s))
  }

  lemma PackInjective(s: string, t: string)
    requires IsStr(s) && IsStr(t)
    ensures Pack(s) == Pack(t) <==> s == t
  {
    ViewOfPacked(s);
    ViewOfPacked(t);
  }

  lemma StringsDecide(vs: seq<Value>)
    requires forall i | 0 <= i < |vs| :: vs[i].Quoted? && IsStr(vs[i].s)
    ensures Decides(StringEq, Encoded(Packs(vs)), Text, In(vs))
  {
    var q := Encoded(Packs(vs));
    RecordsOf(Packs(vs));
    forall x | Storable(x, Text) ensures Matches(StringEq, q, Layout(x)) <==> Satisfies(x, In(vs)) {
      forall i | 0 <= i < |vs| ensures Records(q)[i] == Layout(x) <==> Equals(x, vs[i]) {
        PackInjective(vs[i].s, x.t);
      }
    }
  }

  /** A query of one string. */
  function OneString(s: string): Attr {
    AppendRecord([], Pack(s))
  }

  lemma OneRecord(s: string, accepts: Attr -> bool)
    ensures HasRecord(OneString(s), accepts) <==> accepts(Pack(s))
  {
    RecordsOf([Pack(s)]);
    assert [Pack(s)][..0] == [];
    assert Records(OneString(s))[0] == Pack(s);
  }

  lemma EqualDecides(v: Value)
    requires v.Quoted? && IsStr(v.s)
    ensures Decides(StringEq, OneString(v.s), Text, Is(v))
  {
    forall x | Storable(x, Text) ensures Matches(StringEq, OneString(v.s), Layout(x)) <==> Satisfies(x, Is(v)) {
      var t := Layout(x);
      OneRecord(v.s, r => r == t);
      PackInjective(v.s, x.t);
    }
  }

  lemma PrefixDecides(v: Value)
    requires v.Quoted? && IsStr(v.s)
    ensures Decides(StringPrefix, OneString(v.s), Text, Prefix(v))
  {
    ViewOfPacked(v.s);
    forall x | Storable(x, Text) ensures Matches(StringPrefix, OneString(v.s), Layout(x)) <==> Satisfies(x, Prefix(v)) {
      var t := Layout(x);
      OneRecord(v.s, r => View(r) <= View(t));
      ViewOfPacked(x.t);
    }
  }

  lemma SuffixDecides(v: Value)
    requires v.Quoted? && IsStr(v.s)
    ensures Decides(StringSuffix, OneString(v.s), Text, Suffix(v))
  {
    ViewOfPacked(v.s);
    forall x | Storable(x, Text) ensures Matches(StringSuffix, OneString(v.s), Layout(x)) <==> Satisfies(x, Suffix(v)) {
      var t := Layout(x);
      OneRecord(v.s, r => EndsWith(View(t), View(r)));
      ViewOfPacked(x.t);
    }
  }

  lemma LikeDecides(v: Value)
    requires v.Quoted? && IsStr(v.s)
    ensures Decides(StringLike, OneString(v.s), Text, Like(v))
  {
    ViewOfPacked(v.s);
    forall x | Storable(x, Text) && Plain(x, Like(v)) ensures Matches(StringLike, OneString(v.s), Layout(x)) <==> Satisfies(x, Like(v)) {
      var t := Layout(x);
      OneRecord(v.s, r => LikeMatch.Scan(View(t), View(r), 0, 0, LikeMatch.NoStar));
      ViewOfPacked(x.t);
      LikeMatch.ScanIsMatches(x.t, v.s);
    }
  }

  // ----- compiling one condition -----

  /** The numbers that pass the first n comparators are those between lo and hi. */
  ghost predicate IsInterval(ops: seq<(Comparator, Value)>, n: nat, lo: nat, hi: nat) {
    n <= |ops| && forall y: nat | y <= MAX :: AllCompare(ops, n, y) <==> lo <= y < hi
  }

  lemma IntervalStep(ops: seq<(Comparator, Value)>, i: nat, lo: nat, hi: nat)
    requires i < |ops| && ops[i].1.Number? && IsInterval(ops, i, lo, hi)
    ensures IsInterval(ops, i + 1, Raised(lo, ops[i].0, ops[i].1.n), Lowered(hi, ops[i].0, ops[i].1.n))
  {
    var op, n, k := ops[i].0, ops[i].1.n, i + 1;
    forall y: nat | y <= MAX ensures AllCompare(ops, k, y) <==> Raised(lo, op, n) <= y < Lowered(hi, op, n) {
      assert AllCompare(ops, i, y) <==> lo <= y < hi;
      OneMore(ops, i, y);
    }
  }

  lemma OneMore(ops: seq<(Comparator, Value)>, i: nat, y: nat)
    requires i < |ops| && ops[i].1.Number?
    ensures AllCompare(ops, i + 1, y) <==> AllCompare(ops, i, y) && Compares(y, ops[i].0, ops[i].1.n)
  {
  }

  /** The bounds after one more comparator. */
  function Raised(lo: nat, op: Comparator, n: nat): nat {
    match op
    case Gt => Max(lo, n + 1)
    case Ge => Max(lo, n)
    case _ => lo
  }

  function Lowered(hi: nat, op: Comparator, n: nat): nat {
    match op
    case Lt => Min(hi, n)
    case Le => Min(hi, n + 1)
    case _ => hi
  }

  /** The comparators as one interval: the largest lower bound and the smallest upper bound. */
  method Interval(ops: seq<(Comparator, Value)>) returns (lo: nat, hi: nat)
    requires forall i | 0 <= i < |ops| :: ops[i].1.Number? && ops[i].1.n <= MAX
    ensures forall y: nat | y <= MAX :: lo <= y < hi <==> AllCompare(ops, |ops|, y) && y != MAX
    ensures lo <= MAX && hi <= MAX
  {
    lo, hi := 0, MAX + 1;
    for i := 0 to |ops|
      invariant IsInterval(ops, i, lo, hi)
    {
      var n := ops[i].1.n;
      IntervalStep(ops, i, lo, hi);
      lo, hi := Raised(lo, ops[i].0, n), Lowered(hi, ops[i].0, n);
    }
    lo, hi := Min(lo, MAX), Min(hi, MAX);
  }

  /** A literal as a 32-bit number. */
  function ToU32(v: Value): nat
    requires v.Number?
  {
    v.n % (MAX + 1)
  }

  /** The condition compiles: no conversion of a literal throws, and string conditions are on strings. */
  predicate Compiles(kind: Kind, c: Clause) {
    match c
    case Is(v) => ValueCompiles(kind, v)
    case Eq(v) => ValueCompiles(kind, v)
    case Ne(v) => ValueCompiles(kind, v)
    case In(vs) => kind != Range && forall i | 0 <= i < |vs| :: Converts(kind, vs[i])
    case Nin(vs) => kind != Range && forall i | 0 <= i < |vs| :: Converts(kind, vs[i])
    case All(vs) => forall i | 0 <= i < |vs| :: vs[i].Number?
    case InFrom(v) => kind == Label && IsPlaceholder(v)
    case AllFrom(v) => IsPlaceholder(v)
    case Prefix(v) => kind == Text && !v.Number?
    case Suffix(v) => kind == Text && !v.Number?
    case Like(v) => kind == Text && !v.Number?
    case Compare(ops) => forall i | 0 <= i < |ops| :: ops[i].1.Number?
  }

  predicate Converts(kind: Kind, v: Value) {
    if kind == Text then !v.Number? else v.Number?
  }

  /** A single placeholder gets an empty slot, whatever the field. */
  predicate ValueCompiles(kind: Kind, v: Value) {
    IsPlaceholder(v) || Converts(kind, v)
  }

  /** Whatever is added to the table later, the leaf decides the condition on its field. */
  ghost predicate LeafMeans(s: Sel, template: seq<Attr>, info: FieldInfo, c: Clause) {
    && s.Leaf? && s.leaf.key == info.key && s.leaf.slot < |template|
    && Decides(s.leaf.kind, template[s.leaf.slot], info.kind, c)
  }

  lemma LeafMore(s: Sel, template: seq<Attr>, more: seq<Attr>, info: FieldInfo, c: Clause)
    requires LeafMeans(s, template, info, c) && template <= more
    ensures LeafMeans(s, more, info, c)
  {
  }

  /** A leaf's verdict on a record is the condition's verdict on the row. */
  lemma LeafVerdict(s: Sel, template: seq<Attr>, schema: Schema, name: string, c: Clause, query: seq<Attr>, record: map<nat, Attr>, row: Row)
    requires name in schema && LeafMeans(s, template, schema[name], c) && template <= query && Holds(schema, row, record) && !Negative(c)
    requires name in row ==> Plain(row[name], c)
    ensures Accepts(s, query, record) <==> HoldsOf(row, name, c)
  {
    LeafMore(s, template, query, schema[name], c);
    if name in row {
      assert Storable(row[name], schema[name].kind);
    }
  }

  /** Whatever is added to the table later, the tree accepts a record exactly when the filter holds of
      the row in it, provided that patterns meet strings without a percent sign. */
  ghost predicate Means(s: Sel, template: seq<Attr>, schema: Schema, node: Node) {
    forall query, record, row | template <= query && Holds(schema, row, record) && PlainRow(node, row) ::
      Accepts(s, query, record) <==> Eval(node, row)
  }

  ghost predicate MemberMeans(s: Sel, template: seq<Attr>, schema: Schema, m: Member) {
    forall query, record, row | template <= query && Holds(schema, row, record) && PlainMember(m, row) ::
      Accepts(s, query, record) <==> EvalMember(m, row)
  }

  ghost predicate NodeCompiles(schema: Schema, node: Node)
    decreases node
  {
    forall i | 0 <= i < |node.members| :: MemberCompiles(schema, node.members[i])
  }

  ghost predicate MemberCompiles(schema: Schema, m: Member)
    decreases m
  {
    match m
    case Conj(ns) => forall i | 0 <= i < |ns| :: NodeCompiles(schema, ns[i])
    case Disj(ns) => forall i | 0 <= i < |ns| :: NodeCompiles(schema, ns[i])
    case Neg(n) => NodeCompiles(schema, n)
    case Field(name, c) => !IsConnective(name) && name in schema && Compiles(schema[name].kind, c)
  }

  /** Every child means its own part, and keeps its meaning when the table grows. */
  ghost predicate AllMean(ss: seq<Sel>, template: seq<Attr>, schema: Schema, ns: seq<Node>) {
    |ss| <= |ns| && forall i | 0 <= i < |ss| :: Means(ss[i], template, schema, ns[i])
  }

  ghost predicate AllMembersMean(ss: seq<Sel>, template: seq<Attr>, schema: Schema, ms: seq<Member>) {
    |ss| <= |ms| && forall i | 0 <= i < |ss| :: MemberMeans(ss[i], template, schema, ms[i])
  }

  lemma AllMeanMore(ss: seq<Sel>, template: seq<Attr>, more: seq<Attr>, schema: Schema, ns: seq<Node>)
    requires AllMean(ss, template, schema, ns) && template <= more
    ensures AllMean(ss, more, schema, ns)
  {
    forall i | 0 <= i < |ss| ensures Means(ss[i], more, schema, ns[i]) {
      assert Means(ss[i], template, schema, ns[i]);
    }
  }

  lemma AllMembersMore(ss: seq<Sel>, template: seq<Attr>, more: seq<Attr>, schema: Schema, ms: seq<Member>)
    requires AllMembersMean(ss, template, schema, ms) && template <= more
    ensures AllMembersMean(ss, more, schema, ms)
  {
    forall i | 0 <= i < |ss| ensures MemberMeans(ss[i], more, schema, ms[i]) {
      assert MemberMeans(ss[i], template, schema, ms[i]);
    }
  }

  /** Children of an AND start with selectivity one. */
  function Branches(ss: seq<Sel>): (bs: seq<Selector.Branch<LeafSel>>)
    ensures |bs| == |ss| && forall i | 0 <= i < |ss| :: bs[i] == Selector.Branch(ss[i], 1.0)
  {
    seq(|ss|, i requires 0 <= i < |ss| => Selector.Branch(ss[i], 1.0))
  }

  lemma ConjMeans(ss: seq<Sel>, template: seq<Attr>, schema: Schema, ns: seq<Node>)
    requires AllMean(ss, template, schema, ns) && |ss| == |ns|
    ensures MemberMeans(Selector.And(Branches(ss)), template, schema, Conj(ns))
    ensures MemberMeans(Selector.Or(ss), template, schema, Disj(ns))
  {
    var bs := Branches(ss);
    forall query, record, row | template <= query && Holds(schema, row, record) && forall i | 0 <= i < |ns| :: PlainRow(ns[i], row)
      ensures Accepts(Selector.And(bs), query, record) <==> EvalMember(Conj(ns), row)
      ensures Accepts(Selector.Or(ss), query, record) <==> EvalMember(Disj(ns), row)
    {
      forall i | 0 <= i < |ss| ensures Accepts(ss[i], query, record) <==> Eval(ns[i], row) {
        assert Means(ss[i], template, schema, ns[i]);
      }
      JoinedAccepts(ss, query, record);
    }
  }

  lemma JoinedAccepts(ss: seq<Sel>, query: seq<Attr>, record: map<nat, Attr>)
    ensures Accepts(Selector.And(Branches(ss)), query, record) <==> forall i | 0 <= i < |ss| :: Accepts(ss[i], query, record)
    ensures Accepts(Selector.Or(ss), query, record) <==> exists i :: 0 <= i < |ss| && Accepts(ss[i], query, record)
  {
    var bs, test := Branches(ss), Test(query, record);
    assert forall i | 0 <= i < |ss| :: bs[i].tree == ss[i];
  }

  lemma NegMeans(s: Sel, template: seq<Attr>, schema: Schema, node: Node)
    requires Means(s, template, schema, node)
    ensures MemberMeans(Selector.Not(s), template, schema, Neg(node))
  {
    forall query, record, row | template <= query && Holds(schema, row, record) && PlainRow(node, row)
      ensures Accepts(Selector.Not(s), query, record) <==> EvalMember(Neg(node), row)
    {
      assert Accepts(Selector.Not(s), query, record) <==> !Accepts(s, query, record);
      assert Accepts(s, query, record) <==> Eval(node, row);
    }
  }

  /** All members together: a single child stands for itself, several are joined by AND. */
  lemma NodeMeans(ss: seq<Sel>, template: seq<Attr>, schema: Schema, node: Node)
    requires AllMembersMean(ss, template, schema, node.members) && |ss| == |node.members|
    ensures Means(if |ss| == 1 then ss[0] else Selector.And(Branches(ss)), template, schema, node)
  {
    var s := if |ss| == 1 then ss[0] else Selector.And(Branches(ss));
    forall query, record, row | template <= query && Holds(schema, row, record) && PlainRow(node, row)
      ensures Accepts(s, query, record) <==> Eval(node, row)
    {
      forall i | 0 <= i < |ss| ensures Accepts(ss[i], query, record) <==> EvalMember(node.members[i], row) {
        assert MemberMeans(ss[i], template, schema, node.members[i]);
      }
      JoinedAccepts(ss, query, record);
    }
  }

  /** The condition without its negation, which the caller adds. */
  function Positive(c: Clause): (p: Clause)
    ensures !Negative(p)
  {
    match c
    case Ne(v) => Is(v)
    case Nin(vs) => In(vs)
    case _ => c
  }

  lemma FieldMeans(s: Sel, template: seq<Attr>, schema: Schema, name: string, c: Clause)
    requires name in schema && LeafMeans(s, template, schema[name], Positive(c))
    ensures MemberMeans(if Negative(c) then Selector.Not(s) else s, template, schema, Field(name, c))
  {
    var t := if Negative(c) then Selector.Not(s) else s;
    forall query, record, row | template <= query && Holds(schema, row, record) && PlainMember(Field(name, c), row)
      ensures Accepts(t, query, record) <==> EvalMember(Field(name, c), row)
    {
      LeafVerdict(s, template, schema, name, Positive(c), query, record, row);
      assert Negative(c) ==> (HoldsOf(row, name, c) <==> !HoldsOf(row, name, Positive(c)));
      assert Negative(c) ==> (Accepts(t, query, record) <==> !Accepts(s, query, record));
    }
  }

  ghost predicate AllNumbers(vs: seq<Value>) {
    forall i | 0 <= i < |vs| :: vs[i].Number?
  }

  ghost predicate NoNumbers(vs: seq<Value>) {
    forall i | 0 <= i < |vs| :: !vs[i].Number?
  }

  /** The list of numbers of a clause. */
  method CollectNumbers(vs: seq<Value>) returns (r: Result<Attr>)
    ensures r.Built? <==> AllNumbers(vs)
    ensures r.Built? && (forall i | 0 <= i < |vs| :: vs[i].n <= MAX) ==> r.value == Numbers(NumbersOf(vs))
  {
    var q: Attr := [];
    for i := 0 to |vs|
      invariant |q| == i && forall j | 0 <= j < i :: vs[j].Number? && q[j] == Cell.Num(ToU32(vs[j]))
    {
      if !vs[i].Number? {
        return Refused;
      }
      q := q + [Cell.Num(ToU32(vs[i]))];
    }
    r := Built(q);
  }

  lemma {:induction false} EncodedMore(vs: seq<Value>, i: nat)
    requires i < |vs| && NoNumbers(vs[..i]) && !vs[i].Number?
    ensures NoNumbers(vs[..i + 1]) && Encoded(Packs(vs[..i + 1])) == AppendRecord(Encoded(Packs(vs[..i])), Pack(vs[i].s))
  {
    assert vs[..i + 1] == vs[..i] + [vs[i]];
    assert Packs(vs[..i + 1])[..i] == Packs(vs[..i]);
  }

  /** The list of strings of a clause, as records. */
  method CollectStrings(vs: seq<Value>) returns (r: Result<Attr>)
    ensures r.Built? <==> NoNumbers(vs)
    ensures r.Built? ==> r.value == Encoded(Packs(vs))
  {
    var q: Attr := [];
    for i := 0 to |vs|
      invariant NoNumbers(vs[..i]) && q == Encoded(Packs(vs[..i]))
    {
      if vs[i].Number? {
        return Refused;
      }
      EncodedMore(vs, i);
      q := AppendRecord(q, Pack(vs[i].s));
    }
    assert vs[..|vs|] == vs;
    r := Built(q);
  }

  /** The literals of the comparators, as 32-bit numbers. */
  method CheckNumbers(ops: seq<(Comparator, Value)>) returns (r: Result<seq<(Comparator, Value)>>)
    ensures r.Built? <==> forall i | 0 <= i < |ops| :: ops[i].1.Number?
    ensures r.Built? ==> |r.value| == |ops| && forall i | 0 <= i < |ops| :: r.value[i].1.Number? && r.value[i].1.n <= MAX
    ensures r.Built? && (forall i | 0 <= i < |ops| :: ops[i].1.n <= MAX) ==> r.value == ops
  {
    var out: seq<(Comparator, Value)> := [];
    for i := 0 to |ops|
      invariant |out| == i
      invariant forall j | 0 <= j < i :: ops[j].1.Number? && out[j] == (ops[j].0, Number(ToU32(ops[j].1)))
    {
      if !ops[i].1.Number? {
        return Refused;
      }
      out := out + [(ops[i].0, Number(ToU32(ops[i].1)))];
    }
    r := Built(out);
  }

  lemma CompareDecides(ops: seq<(Comparator, Value)>, lo: nat, hi: nat)
    requires Typed(Range, Compare(ops))
    requires forall y: nat | y <= MAX :: lo <= y < hi <==> AllCompare(ops, |ops|, y) && y != MAX
    ensures Decides(RangeLeaf, [Cell.Num(lo), Cell.Num(hi)], Range, Compare(ops))
  {
    forall y: nat | y < MAX ensures Satisfies(Scalar(y), Compare(ops)) <==> lo <= y < hi {
      assert AllCompare(ops, |ops|, y) <==> Satisfies(Scalar(y), Compare(ops));
    }
    RangeDecides(lo, hi, Compare(ops));
  }

  // ----- each leaf has a slot of its own -----

  /** No leaf occurs twice, and all slots lie between a and b. */
  ghost predicate OwnSlots(s: Sel, a: nat, b: nat) {
    Selector.LeavesOnce(s) && forall l | Selector.HasLeaf(s, l) :: a <= l.slot < b
  }

  ghost predicate AllOwn(ss: seq<Sel>, a: nat, b: nat) {
    && (forall i | 0 <= i < |ss| :: OwnSlots(ss[i], a, b))
    && forall i, j | 0 <= i < |ss| && 0 <= j < |ss| && i != j :: Selector.Disjoint(ss[i], ss[j])
  }

  lemma {:induction false} AllOwnMore(ss: seq<Sel>, a: nat, b: nat, s: Sel, c: nat)
    requires AllOwn(ss, a, b) && OwnSlots(s, b, c) && a <= b <= c
    ensures AllOwn(ss + [s], a, c)
  {
    var all := ss + [s];
    forall i | 0 <= i < |all| ensures OwnSlots(all[i], a, c) {
      assert i < |ss| ==> OwnSlots(ss[i], a, b);
    }
    forall i, j | 0 <= i < |all| && 0 <= j < |all| && i != j ensures Selector.Disjoint(all[i], all[j]) {
      if i < |ss| && j < |ss| {
        assert Selector.Disjoint(ss[i], ss[j]);
      } else if i < |ss| {
        assert OwnSlots(ss[i], a, b);
      } else {
        assert OwnSlots(ss[j], a, b);
      }
    }
  }

  lemma {:induction false} JoinedOwn(ss: seq<Sel>, a: nat, b: nat)
    requires AllOwn(ss, a, b)
    ensures OwnSlots(Selector.And(Branches(ss)), a, b) && OwnSlots(Selector.Or(ss), a, b)
  {
    var bs := Branches(ss);
    forall i | 0 <= i < |ss| ensures OwnSlots(ss[i], a, b) && bs[i].tree == ss[i] {
    }
    forall l | Selector.HasLeaf(Selector.And(bs), l) ensures a <= l.slot < b {
      var i :| 0 <= i < |bs| && Selector.HasLeaf(bs[i].tree, l);
      assert OwnSlots(ss[i], a, b);
    }
    forall l | Selector.HasLeaf(Selector.Or(ss), l) ensures a <= l.slot < b {
      var i :| 0 <= i < |ss| && Selector.HasLeaf(ss[i], l);
      assert OwnSlots(ss[i], a, b);
    }
  }

  lemma {:induction false} NotOwn(s: Sel, a: nat, b: nat)
    requires OwnSlots(s, a, b)
    ensures OwnSlots(Selector.Not(s), a, b)
  {
  }

  class CompiledFilter {
    var template: seq<Attr>

    constructor ()
      ensures template == []
    {
      template := [];
    }

    /** A new slot behind all others. */
    method AllocSlot(value: Attr) returns (slot: nat)
      modifies this
      ensures template == old(template) + [value] && slot == |old(template)|
    {
      slot := |template|;
      template := template + [value];
    }

    /** A leaf that reads a slot of its own. */
    method NewLeaf(kind: LeafKind, value: Attr, info: FieldInfo, ghost c: Clause) returns (s: Sel)
      modifies this
      ensures template == old(template) + [value] && OwnSlots(s, |old(template)|, |template|)
      ensures Decides(kind, value, info.kind, c) ==> LeafMeans(s, template, info, c)
    {
      var slot := AllocSlot(value);
      s := Selector.Leaf(LeafSel(kind, slot, info.key));
    }

    /** A literal: a label, an interval of one number, or a string. */
    method CompileValue(info: FieldInfo, v: Value) returns (r: Result<Sel>)
      modifies this
      ensures old(template) <= template && (r.Built? <==> ValueCompiles(info.kind, v))
      ensures r.Built? ==> OwnSlots(r.value, |old(template)|, |template|)
      ensures r.Built? && Typed(info.kind, Is(v)) ==> LeafMeans(r.value, template, info, Is(v))
      ensures r.Built? && info.kind == Range ==> |template| > 0 && forall x | x in template[|template| - 1] :: x.Num? && x.n <= MAX
    {
      if IsPlaceholder(v) {
        var kind := match info.kind case Label => LabelOr case Range => RangeLeaf case Text => StringEq;
        var hole := NewLeaf(kind, [], info, Is(v));
        return Built(hole);
      }
      if !Converts(info.kind, v) {
        return Refused;
      }
      var s: Sel;
      match info.kind {
        case Label =>
          LabelDecides(v);
          s := NewLeaf(LabelOr, [Cell.Num(ToU32(v))], info, Is(v));
        case Range =>
          var n := ToU32(v);
          var hi := if n == MAX then n else n + 1;
          if v.n <= MAX {
            RangeDecides(n, hi, Is(v));
          }
          s := NewLeaf(RangeLeaf, [Cell.Num(n), Cell.Num(hi)], info, Is(v));
        case Text =>
          if Fits(v, Text) {
            EqualDecides(v);
          }
          s := NewLeaf(StringEq, OneString(v.s), info, Is(v));
      }
      r := Built(s);
    }

    /** One of a list of values. */
    method CompileIn(info: FieldInfo, vs: seq<Value>) returns (r: Result<Sel>)
      modifies this
      ensures old(template) <= template && (r.Built? <==> Compiles(info.kind, In(vs)))
      ensures r.Built? ==> OwnSlots(r.value, |old(template)|, |template|)
      ensures r.Built? && Typed(info.kind, In(vs)) ==> LeafMeans(r.value, template, info, In(vs))
    {
      if info.kind == Label {
        var q := CollectNumbers(vs);
        if q.Refused? {
          return Refused;
        }
        LabelsDecide(vs);
        var s := NewLeaf(LabelOr, q.value, info, In(vs));
        return Built(s);
      }
      var q := CollectStrings(vs);
      if q.Refused? || info.kind != Text {
        return Refused;
      }
      if Typed(info.kind, In(vs)) {
        StringsDecide(vs);
      }
      var s := NewLeaf(StringEq, q.value, info, In(vs));
      return Built(s);
    }

    /** All of a list of labels. */
    method CompileAll(info: FieldInfo, vs: seq<Value>) returns (r: Result<Sel>)
      modifies this
      ensures old(template) <= template && (r.Built? <==> Compiles(info.kind, All(vs)))
      ensures r.Built? ==> OwnSlots(r.value, |old(template)|, |template|)
      ensures r.Built? && Typed(info.kind, All(vs)) ==> LeafMeans(r.value, template, info, All(vs))
    {
      var q := CollectNumbers(vs);
      if q.Refused? {
        return Refused;
      }
      LabelsDecide(vs);
      var s := NewLeaf(LabelAnd, q.value, info, All(vs));
      return Built(s);
    }

    /** A list to be bound later. */
    method CompileHole(kind: LeafKind, info: FieldInfo, c: Clause) returns (r: Result<Sel>)
      requires (c.InFrom? && kind == LabelOr) || (c.AllFrom? && kind == LabelAnd)
      modifies this
      ensures old(template) <= template && (r.Built? <==> Compiles(info.kind, c))
      ensures r.Built? ==> OwnSlots(r.value, |old(template)|, |template|)
    {
      if !IsPlaceholder(c.v) || (c.InFrom? && info.kind != Label) {
        return Refused;
      }
      var s := NewLeaf(kind, [], info, c);
      return Built(s);
    }

    /** A prefix, a suffix or a pattern. */
    method CompileString(info: FieldInfo, c: Clause) returns (r: Result<Sel>)
      requires c.Prefix? || c.Suffix? || c.Like?
      modifies this
      ensures old(template) <= template && (r.Built? <==> Compiles(info.kind, c))
      ensures r.Built? ==> OwnSlots(r.value, |old(template)|, |template|)
      ensures r.Built? && Typed(info.kind, c) ==> LeafMeans(r.value, template, info, c)
    {
      if c.v.Number? || info.kind != Text {
        return Refused;
      }
      if Fits(c.v, Text) {
        PrefixDecides(c.v);
        SuffixDecides(c.v);
        LikeDecides(c.v);
      }
      var kind := if c.Prefix? then StringPrefix else if c.Suffix? then StringSuffix else StringLike;
      var s := NewLeaf(kind, OneString(c.v.s), info, c);
      return Built(s);
    }

    /** Comparators, as one interval. */
    method CompileCompare(info: FieldInfo, ops: seq<(Comparator, Value)>) returns (r: Result<Sel>)
      modifies this
      ensures old(template) <= template && (r.Built? <==> Compiles(info.kind, Compare(ops)))
      ensures r.Built? ==> OwnSlots(r.value, |old(template)|, |template|)
      ensures r.Built? && Typed(info.kind, Compare(ops)) ==> LeafMeans(r.value, template, info, Compare(ops))
    {
      var checked := CheckNumbers(ops);
      if checked.Refused? {
        return Refused;
      }
      var lo, hi := Interval(checked.value);
      if Typed(info.kind, Compare(ops)) {
        CompareDecides(ops, lo, hi);
      }
      var s := NewLeaf(RangeLeaf, [Cell.Num(lo), Cell.Num(hi)], info, Compare(ops));
      return Built(s);
    }

    /** One condition on one field. */
    method CompileClause(info: FieldInfo, c: Clause) returns (r: Result<Sel>)
      requires !Negative(c)
      modifies this
      ensures old(template) <= template && (r.Built? <==> Compiles(info.kind, c))
      ensures r.Built? ==> OwnSlots(r.value, |old(template)|, |template|)
      ensures r.Built? && Typed(info.kind, c) ==> LeafMeans(r.value, template, info, c)
    {
      match c {
        case Is(v) => r := CompileValue(info, v);
        case Eq(v) => r := CompileValue(info, v);
        case In(vs) => r := CompileIn(info, vs);
        case All(vs) => r := CompileAll(info, vs);
        case InFrom(v) => r := CompileHole(LabelOr, info, c);
        case AllFrom(v) => r := CompileHole(LabelAnd, info, c);
        case Prefix(_) => r := CompileString(info, c);
        case Suffix(_) => r := CompileString(info, c);
        case Like(_) => r := CompileString(info, c);
        case Compare(ops) => r := CompileCompare(info, ops);
      }
    }

    /** A member of an object: a connective over objects, or a field with its condition. */
    method CompileMember(m: Member, schema: Schema) returns (r: Result<Sel>)
      modifies this
      ensures old(template) <= template && (r.Built? <==> MemberCompiles(schema, m))
      ensures r.Built? ==> OwnSlots(r.value, |old(template)|, |template|)
      ensures r.Built? && MemberTyped(schema, m) ==> MemberMeans(r.value, template, schema, m)
      decreases m
    {
      match m {
        case Conj(ns) =>
          var ss := CompileAllNodes(ns, schema, m);
          if ss.Refused? {
            return Refused;
          }
          JoinedOwn(ss.value, |old(template)|, |template|);
          r := Built(Selector.And(Branches(ss.value)));
          if MemberTyped(schema, m) {
            ConjMeans(ss.value, template, schema, ns);
          }
        case Disj(ns) =>
          var ss := CompileAllNodes(ns, schema, m);
          if ss.Refused? {
            return Refused;
          }
          JoinedOwn(ss.value, |old(template)|, |template|);
          r := Built(Selector.Or(ss.value));
          if MemberTyped(schema, m) {
            ConjMeans(ss.value, template, schema, ns);
          }
        case Neg(n) =>
          var s := CompileNode(n, schema);
          if s.Refused? {
            return Refused;
          }
          NotOwn(s.value, |old(template)|, |template|);
          r := Built(Selector.Not(s.value));
          if MemberTyped(schema, m) {
            NegMeans(s.value, template, schema, n);
          }
        case Field(name, c) =>
          if IsConnective(name) || name !in schema {
            return Refused;
          }
          var s := CompileClause(schema[name], Positive(c));
          if s.Refused? {
            return Refused;
          }
          NotOwn(s.value, |old(template)|, |template|);
          r := Built(if Negative(c) then Selector.Not(s.value) else s.value);
          if MemberTyped(schema, m) {
            FieldMeans(s.value, template, schema, name, c);
          }
      }
    }

    /** The objects of a connective, one after the other. */
    method CompileAllNodes(ns: seq<Node>, schema: Schema, ghost m: Member) returns (r: Result<seq<Sel>>)
      requires (m.Conj? || m.Disj?) && m.nodes == ns
      modifies this
      ensures old(template) <= template && (r.Built? <==> forall i | 0 <= i < |ns| :: NodeCompiles(schema, ns[i]))
      ensures r.Built? ==> |r.value| == |ns| && AllOwn(r.value, |old(template)|, |template|)
      ensures r.Built? && (forall i | 0 <= i < |ns| :: WellTyped(schema, ns[i])) ==> AllMean(r.value, template, schema, ns)
      decreases m, 0
    {
      var ss: seq<Sel> := [];
      ghost var typed := forall i | 0 <= i < |ns| :: WellTyped(schema, ns[i]);
      for i := 0 to |ns|
        invariant old(template) <= template && |ss| == i && forall j | 0 <= j < i :: NodeCompiles(schema, ns[j])
        invariant AllOwn(ss, |old(template)|, |template|)
        invariant typed ==> AllMean(ss, template, schema, ns)
      {
        ghost var was := template;
        var s := CompileNode(ns[i], schema);
        if s.Refused? {
          return Refused;
        }
        if typed {
          AllMeanMore(ss, was, template, schema, ns);
        }
        AllOwnMore(ss, |old(template)|, |was|, s.value, |template|);
        ss := ss + [s.value];
      }
      r := Built(ss);
    }

    /** A filter: its members, joined. */
    method CompileNode(node: Node, schema: Schema) returns (r: Result<Sel>)
      modifies this
      ensures old(template) <= template && (r.Built? <==> NodeCompiles(schema, node))
      ensures r.Built? ==> OwnSlots(r.value, |old(template)|, |template|)
      ensures r.Built? && WellTyped(schema, node) ==> Means(r.value, template, schema, node)
      decreases node
    {
      var ss: seq<Sel> := [];
      ghost var typed := WellTyped(schema, node);
      for i := 0 to |node.members|
        invariant old(template) <= template && |ss| == i && forall j | 0 <= j < i :: MemberCompiles(schema, node.members[j])
        invariant AllOwn(ss, |old(template)|, |template|)
        invariant typed ==> AllMembersMean(ss, template, schema, node.members)
      {
        ghost var was := template;
        var s := CompileMember(node.members[i], schema);
        if s.Refused? {
          return Refused;
        }
        if typed {
          AllMembersMore(ss, was, template, schema, node.members);
        }
        AllOwnMore(ss, |old(template)|, |was|, s.value, |template|);
        ss := ss + [s.value];
      }
      if typed {
        NodeMeans(ss, template, schema, node);
      }
      JoinedOwn(ss, |old(template)|, |template|);
      r := Built(if |ss| == 1 then ss[0] else Selector.And(Branches(ss)));
    }
  }
}
