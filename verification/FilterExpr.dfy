/** Filter expressions as they stand between parsing and compilation (include/filter/dsl_compiler.h),
    and what they mean for a row of field values. */
module FilterExpr {

  import opened StringKeys
  import LikeMatch

  /** The largest unsigned 32-bit number. */
  const MAX := 0xFFFF_FFFF

  datatype Kind = Label | Range | Text

  datatype FieldInfo = FieldInfo(key: nat, kind: Kind)

  type Schema = map<string, FieldInfo>

  /** A literal: a number, a string, or a placeholder such as `$$x`, whose value is bound later. */
  datatype Value = Number(n: nat) | Quoted(s: string) | Hole(s: string)

  /** Strings and placeholders are told apart by their text alone. */
  predicate IsPlaceholder(v: Value) {
    !v.Number? && |v.s| >= 3 && v.s[0] == '$' && v.s[1] == '$'
  }

  /** Names that an object of the intermediate form reads as connectives. */
  predicate IsConnective(name: string) {
    name == "$and" || name == "$or" || name == "$not"
  }

  datatype Comparator = Gt | Ge | Lt | Le

  /** The condition on one field. `InFrom` and `AllFrom` have one word in the place of the list. */
  datatype Clause =
    | Is(v: Value)
    | Eq(v: Value)
    | Ne(v: Value)
    | In(vs: seq<Value>)
    | Nin(vs: seq<Value>)
    | All(vs: seq<Value>)
    | InFrom(v: Value)
    | AllFrom(v: Value)
    | Prefix(v: Value)
    | Suffix(v: Value)
    | Like(v: Value)
    | Compare(ops: seq<(Comparator, Value)>)

  /** An object of the intermediate form: all of its members must hold. */
  datatype Node = Node(members: seq<Member>)

  datatype Member =
    | Conj(nodes: seq<Node>)
    | Disj(nodes: seq<Node>)
    | Neg(node: Node)
    | Field(name: string, clause: Clause)

  // ----- meaning -----

  /** What a vector stores in a field. */
  datatype Stored = Labels(labels: seq<nat>) | Scalar(x: nat) | Chars(t: string)

  type Row = map<string, Stored>

  predicate Compares(x: nat, op: Comparator, n: nat) {
    match op
    case Gt => x > n
    case Ge => x >= n
    case Lt => x < n
    case Le => x <= n
  }

  predicate Equals(x: Stored, v: Value) {
    match x
    case Labels(ls) => v.Number? && v.n in ls
    case Scalar(y) => v.Number? && v.n == y
    case Chars(t) => v.Quoted? && v.s == t
  }

  /** A stored value against a condition, taken at its word. */
  ghost predicate Satisfies(x: Stored, c: Clause) {
    match c
    case Is(v) => Equals(x, v)
    case Eq(v) => Equals(x, v)
    case Ne(v) => !Equals(x, v)
    case In(vs) => exists i :: 0 <= i < |vs| && Equals(x, vs[i])
    case Nin(vs) => forall i | 0 <= i < |vs| :: !Equals(x, vs[i])
    case All(vs) => forall i | 0 <= i < |vs| :: Equals(x, vs[i])
    case InFrom(v) => Equals(x, v)
    case AllFrom(v) => Equals(x, v)
    case Prefix(v) => x.Chars? && v.Quoted? && v.s <= x.t
    case Suffix(v) => x.Chars? && v.Quoted? && EndsWith(x.t, v.s)
    case Like(v) => x.Chars? && v.Quoted? && LikeMatch.Matches(x.t, v.s)
    case Compare(ops) => x.Scalar? && forall i | 0 <= i < |ops| :: ops[i].1.Number? && Compares(x.x, ops[i].0, ops[i].1.n)
  }

  predicate Negative(c: Clause) {
    c.Ne? || c.Nin?
  }

  /** A missing field satisfies the negative conditions and no other. */
  ghost predicate HoldsOf(row: Row, name: string, c: Clause) {
    if name in row then Satisfies(row[name], c) else Negative(c)
  }

  ghost predicate Eval(node: Node, row: Row)
    decreases node
  {
    forall i | 0 <= i < |node.members| :: EvalMember(node.members[i], row)
  }

  ghost predicate EvalMember(m: Member, row: Row)
    decreases m
  {
    match m
    case Conj(ns) => forall i | 0 <= i < |ns| :: Eval(ns[i], row)
    case Disj(ns) => exists i :: 0 <= i < |ns| && Eval(ns[i], row)
    case Neg(n) => !Eval(n, row)
    case Field(name, c) => HoldsOf(row, name, c)
  }

  // ----- types -----

  predicate Fits(v: Value, kind: Kind) {
    if kind == Text then v.Quoted? && forall i | 0 <= i < |v.s| :: '\0' < v.s[i] <= LAST else v.Number? && v.n <= MAX
  }

  /** The condition makes sense for a field of this kind, and waits for no value. A string that looks
      like a placeholder is one where a single literal stands. */
  ghost predicate Typed(kind: Kind, c: Clause) {
    match c
    case Is(v) => Fits(v, kind) && !IsPlaceholder(v)
    case Eq(v) => Fits(v, kind) && !IsPlaceholder(v)
    case Ne(v) => Fits(v, kind) && !IsPlaceholder(v)
    case In(vs) => kind != Range && forall i | 0 <= i < |vs| :: Fits(vs[i], kind)
    case Nin(vs) => kind != Range && forall i | 0 <= i < |vs| :: Fits(vs[i], kind)
    case All(vs) => kind == Label && forall i | 0 <= i < |vs| :: Fits(vs[i], kind)
    case InFrom(_) => false
    case AllFrom(_) => false
    case Prefix(v) => kind == Text && Fits(v, kind)
    case Suffix(v) => kind == Text && Fits(v, kind)
    case Like(v) => kind == Text && Fits(v, kind)
    case Compare(ops) => kind == Range && forall i | 0 <= i < |ops| :: Fits(ops[i].1, kind)
  }

  ghost predicate WellTyped(schema: Schema, node: Node)
    decreases node
  {
    forall i | 0 <= i < |node.members| :: MemberTyped(schema, node.members[i])
  }

  ghost predicate MemberTyped(schema: Schema, m: Member)
    decreases m
  {
    match m
    case Conj(ns) => forall i | 0 <= i < |ns| :: WellTyped(schema, ns[i])
    case Disj(ns) => forall i | 0 <= i < |ns| :: WellTyped(schema, ns[i])
    case Neg(n) => WellTyped(schema, n)
    case Field(name, c) => !IsConnective(name) && name in schema && Typed(schema[name].kind, c)
  }

  /** What a field of this kind can store: strings without NUL, numbers that a range can end behind. */
  ghost predicate Storable(x: Stored, kind: Kind) {
    match kind
    case Label => x.Labels?
    case Range => x.Scalar? && x.x < MAX
    case Text => x.Chars? && IsStr(x.t)
  }

  /** The scan of a pattern is exact on strings without a percent sign. */
  ghost predicate Plain(x: Stored, c: Clause) {
    c.Like? && x.Chars? ==> LikeMatch.PercentFree(x.t)
  }

  /** The strings that patterns are matched against have no percent sign. */
  ghost predicate PlainRow(node: Node, row: Row)
    decreases node
  {
    forall i | 0 <= i < |node.members| :: PlainMember(node.members[i], row)
  }

  ghost predicate PlainMember(m: Member, row: Row)
    decreases m
  {
    match m
    case Conj(ns) => forall i | 0 <= i < |ns| :: PlainRow(ns[i], row)
    case Disj(ns) => forall i | 0 <= i < |ns| :: PlainRow(ns[i], row)
    case Neg(n) => PlainRow(n, row)
    case Field(name, c) => name in row ==> Plain(row[name], c)
  }

  ghost predicate TypedRow(schema: Schema, row: Row) {
    forall name | name in row && name in schema :: Storable(row[name], schema[name].kind)
  }

  // ----- the rewriting of LIKE -----

  /** How the parser turns a pattern into a clause. */
  function LikeClause(p: string): Clause {
    var n := |p|;
    if n > 0 && p[n - 1] == '%' && '%' !in p[..n - 1] && '_' !in p then Prefix(Quoted(p[..n - 1]))
    else if n > 0 && p[0] == '%' && '%' !in p[1..] && '_' !in p then Suffix(Quoted(p[1..]))
    else if '%' !in p && '_' !in p then Is(Quoted(p))
    else Like(Quoted(p))
  }

  /** A literal followed by `%` matches what it starts. */
  lemma {:induction false} StartMatches(s: string, q: string)
    requires '%' !in q && '_' !in q
    ensures LikeMatch.Matches(s, q + "%") <==> q <= s
    decreases |q|
  {
    if q == "" {
      assert q + "%" == "%" && "%"[1..] == "";
      AnyMatches(s);
    } else {
      assert (q + "%")[0] == q[0] && (q + "%")[1..] == q[1..] + "%";
      assert q[0] in q && forall c :: c in q[1..] ==> c in q;
      if s != "" {
        StartMatches(s[1..], q[1..]);
        assert s == [s[0]] + s[1..] && q == [q[0]] + q[1..];
      }
    }
  }

  lemma {:induction false} AnyMatches(s: string)
    ensures LikeMatch.Matches(s, "%")
  {
    assert "%"[1..] == "";
    if s != "" {
      AnyMatches(s[1..]);
    }
  }

  /** A literal after `%` matches what it ends. */
  lemma {:induction false} EndMatches(s: string, q: string)
    requires '%' !in q && '_' !in q
    ensures LikeMatch.Matches(s, "%" + q) <==> EndsWith(s, q)
    decreases |s|
  {
    assert ("%" + q)[1..] == q;
    LikeMatch.LiteralIs(s, q);
    if s != "" {
      EndMatches(s[1..], q);
      if |s| > |q| {
        assert s[1..][|s| - 1 - |q|..] == s[|s| - |q|..];
      }
    }
  }

  /** The rewritten clause means the pattern, for every stored string. */
  lemma LikeRewriteKeeps(x: Stored, p: string)
    ensures Satisfies(x, LikeClause(p)) <==> Satisfies(x, Like(Quoted(p)))
  {
    if x.Chars? {
      var n := |p|;
      if n > 0 && p[n - 1] == '%' && '%' !in p[..n - 1] && '_' !in p {
        assert p == p[..n - 1] + "%";
        StartMatches(x.t, p[..n - 1]);
      } else if n > 0 && p[0] == '%' && '%' !in p[1..] && '_' !in p {
        assert p == "%" + p[1..];
        EndMatches(x.t, p[1..]);
      } else if '%' !in p && '_' !in p {
        LikeMatch.LiteralIs(x.t, p);
      }
    }
  }
}
