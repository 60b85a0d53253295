/** What a filter says of a row of field values, and that parsing and compiling it keeps that. */
module FilterMeaning {

  import opened FilterExpr
  import opened FilterParser
  import opened FilterGrammar
  import opened FilterCompiler
  import LikeMatch

  // ----- what they say -----

  /** A comparison, taken at its word: the field must be there, unless the comparison is negative. */
  ghost predicate CmpHolds(c: Cmp, row: Row)
    requires c.Test? ==> IsOperator(c.op)
  {
    match c
    case Test(f, neg, op, v) => neg != TestHolds(f, op, v, row)
    case Between(f, neg, lo, hi) =>
      neg != (f in row && row[f].Scalar? && lo.Number? && hi.Number? && lo.n <= row[f].x <= hi.n)
    case Among(f, neg, vs) => neg != (f in row && exists i :: 0 <= i < |vs| && Equals(row[f], vs[i]))
    case LikeP(f, neg, p) => neg != (f in row && row[f].Chars? && LikeMatch.Matches(row[f].t, p))
    case Contains(f, v) => f in row && Equals(row[f], v)
    case ContainsAll(f, vs) => f in row && forall i | 0 <= i < |vs| :: Equals(row[f], vs[i])
    case ContainsAny(f, vs) => f in row && exists i :: 0 <= i < |vs| && Equals(row[f], vs[i])
    case ContainsAllFrom(f, v) => f in row && Equals(row[f], v)
    case ContainsAnyFrom(f, v) => f in row && Equals(row[f], v)
  }

  ghost predicate TestHolds(f: string, op: string, v: Value, row: Row)
    requires IsOperator(op)
  {
    if op == "=" || op == "==" then f in row && Equals(row[f], v)
    else if op == "!=" || op == "<>" then !(f in row && Equals(row[f], v))
    else
      && f in row && row[f].Scalar? && v.Number?
      && (if op == ">" then row[f].x > v.n
          else if op == ">=" then row[f].x >= v.n
          else if op == "<" then row[f].x < v.n
          else row[f].x <= v.n)
  }

  ghost predicate UnaryHolds(u: Unary, row: Row)
    requires IsUnary(u)
    decreases u
  {
    match u
    case NotU(x) => !UnaryHolds(x, row)
    case Group(e) => OrHolds(e, row)
    case Atom(c) => CmpHolds(c, row)
  }

  ghost predicate AndHolds(e: AndE, row: Row)
    requires IsAnd(e)
    decreases e
  {
    forall i | 0 <= i < |e.factors| :: UnaryHolds(e.factors[i], row)
  }

  ghost predicate OrHolds(e: OrE, row: Row)
    requires IsOr(e)
    decreases e
  {
    exists i :: 0 <= i < |e.terms| && AndHolds(e.terms[i], row)
  }

  // ----- and that nodes say the same -----

  lemma FieldSays(name: string, c: Clause, row: Row)
    ensures Eval(FieldNode(name, c), row) <==> HoldsOf(row, name, c)
  {
    var n := FieldNode(name, c);
    assert n.members[0] == Field(name, c);
    assert Eval(n, row) <==> EvalMember(n.members[0], row);
  }

  lemma NotSays(n: Node, row: Row)
    ensures Eval(NotNode(n), row) <==> !Eval(n, row)
  {
    var m := NotNode(n);
    assert m.members[0] == Neg(n);
    assert Eval(m, row) <==> EvalMember(m.members[0], row);
  }

  lemma NegatedSays(negate: bool, n: Node, row: Row)
    ensures Eval(Negated(negate, n), row) <==> negate != Eval(n, row)
  {
    NotSays(n, row);
  }

  lemma JoinSays(ns: seq<Node>, row: Row)
    ensures Eval(OrNode(ns), row) <==> exists i :: 0 <= i < |ns| && Eval(ns[i], row)
    ensures Eval(AndNode(ns), row) <==> forall i | 0 <= i < |ns| :: Eval(ns[i], row)
  {
    if |ns| != 1 {
      var d, c := Node([Disj(ns)]), Node([Conj(ns)]);
      assert Eval(d, row) <==> EvalMember(d.members[0], row);
      assert Eval(c, row) <==> EvalMember(c.members[0], row);
    }
  }

  lemma InSays(f: string, vs: seq<Value>, row: Row)
    ensures Eval(InNode(f, vs), row) <==> f in row && exists i :: 0 <= i < |vs| && Equals(row[f], vs[i])
  {
    if AllNumeric(vs) {
      var ns := EqNodes(f, vs);
      forall i | 0 <= i < |vs| ensures Eval(ns[i], row) <==> f in row && Equals(row[f], vs[i]) {
        FieldSays(f, Is(vs[i]), row);
      }
      JoinSays(ns, row);
    } else {
      FieldSays(f, In(vs), row);
    }
  }

  lemma TestSays(f: string, op: string, v: Value, row: Row)
    requires IsOperator(op)
    ensures HoldsOf(row, f, OpClause(op, v)) <==> TestHolds(f, op, v, row)
  {
    var c := OpClause(op, v);
    if c.Compare? && f in row {
      assert Satisfies(row[f], c) <==> row[f].Scalar? && c.ops[0].1.Number? && Compares(row[f].x, c.ops[0].0, c.ops[0].1.n);
    }
  }

  lemma BetweenSays(f: string, lo: Value, hi: Value, row: Row)
    ensures HoldsOf(row, f, Compare([(Ge, lo), (Le, hi)]))
      <==> f in row && row[f].Scalar? && lo.Number? && hi.Number? && lo.n <= row[f].x <= hi.n
  {
    var ops := [(Ge, lo), (Le, hi)];
    if HoldsOf(row, f, Compare(ops)) {
      assert Compares(row[f].x, ops[0].0, ops[0].1.n) && Compares(row[f].x, ops[1].0, ops[1].1.n);
    }
  }

  lemma CmpSays(c: Cmp, row: Row)
    requires c.Test? ==> IsOperator(c.op)
    ensures Eval(CmpNode(c), row) <==> CmpHolds(c, row)
  {
    match c
    case Test(f, neg, op, v) =>
      NegatedSays(neg, FieldNode(f, OpClause(op, v)), row);
      FieldSays(f, OpClause(op, v), row);
      TestSays(f, op, v, row);
    case Between(f, neg, lo, hi) =>
      var clause := Compare([(Ge, lo), (Le, hi)]);
      NegatedSays(neg, FieldNode(f, clause), row);
      FieldSays(f, clause, row);
      BetweenSays(f, lo, hi, row);
    case Among(f, neg, vs) =>
      NegatedSays(neg, InNode(f, vs), row);
      InSays(f, vs, row);
    case LikeP(f, neg, p) =>
      NegatedSays(neg, FieldNode(f, LikeClause(p)), row);
      FieldSays(f, LikeClause(p), row);
      if f in row {
        LikeRewriteKeeps(row[f], p);
      }
    case Contains(f, v) => FieldSays(f, Is(v), row);
    case ContainsAll(f, vs) => FieldSays(f, All(vs), row);
    case ContainsAny(f, vs) => FieldSays(f, In(vs), row);
    case ContainsAllFrom(f, v) => FieldSays(f, AllFrom(v), row);
    case ContainsAnyFrom(f, v) => FieldSays(f, InFrom(v), row);
  }

  lemma {:induction false} UnarySays(u: Unary, row: Row)
    requires IsUnary(u)
    ensures Eval(UnaryNode(u), row) <==> UnaryHolds(u, row)
    decreases u
  {
    match u
    case NotU(x) =>
      UnarySays(x, row);
      NotSays(UnaryNode(x), row);
    case Group(e) => OrSays(e, row);
    case Atom(c) => CmpSays(c, row);
  }

  lemma {:induction false} AndSays(e: AndE, row: Row)
    requires IsAnd(e)
    ensures Eval(AndNode(AndNodes(e, |e.factors|)), row) <==> AndHolds(e, row)
    decreases e
  {
    var ns := AndNodes(e, |e.factors|);
    JoinSays(ns, row);
    forall i | 0 <= i < |e.factors| ensures Eval(ns[i], row) <==> UnaryHolds(e.factors[i], row) {
      AndNodeAt(e, |e.factors|, i);
      UnarySays(e.factors[i], row);
    }
  }

  lemma {:induction false} OrSays(e: OrE, row: Row)
    requires IsOr(e)
    ensures Eval(NodeOf(e), row) <==> OrHolds(e, row)
    decreases e
  {
    var ns := OrNodes(e, |e.terms|);
    JoinSays(ns, row);
    forall i | 0 <= i < |e.terms| ensures Eval(ns[i], row) <==> AndHolds(e.terms[i], row) {
      OrNodeAt(e, |e.terms|, i);
      AndSays(e.terms[i], row);
    }
  }

  // ----- which of them make sense -----

  /** The field is known, is no connective, and the literals are of its kind and wait for no value. */
  ghost predicate CmpTyped(schema: Schema, c: Cmp)
    requires c.Test? ==> IsOperator(c.op)
  {
    && !IsConnective(c.field) && c.field in schema
    && var kind := schema[c.field].kind;
      match c
      case Test(_, _, op, v) => Fits(v, kind) && if OpClause(op, v).Compare? then kind == Range else !IsPlaceholder(v)
      case Between(_, _, lo, hi) => kind == Range && Fits(lo, kind) && Fits(hi, kind)
      case Among(_, _, vs) => forall i | 0 <= i < |vs| :: Fits(vs[i], kind)
      case LikeP(_, _, p) => kind == Text && Fits(Quoted(p), kind) && ('%' in p || '_' in p || !IsPlaceholder(Quoted(p)))
      case Contains(_, v) => Fits(v, kind) && !IsPlaceholder(v)
      case ContainsAll(_, vs) => kind == Label && forall i | 0 <= i < |vs| :: Fits(vs[i], kind)
      case ContainsAny(_, vs) => kind != Range && forall i | 0 <= i < |vs| :: Fits(vs[i], kind)
      case _ => false
  }

  ghost predicate UnaryTyped(schema: Schema, u: Unary)
    requires IsUnary(u)
    decreases u
  {
    match u
    case NotU(x) => UnaryTyped(schema, x)
    case Group(e) => OrTyped(schema, e)
    case Atom(c) => CmpTyped(schema, c)
  }

  ghost predicate AndTyped(schema: Schema, e: AndE)
    requires IsAnd(e)
    decreases e
  {
    forall i | 0 <= i < |e.factors| :: UnaryTyped(schema, e.factors[i])
  }

  ghost predicate OrTyped(schema: Schema, e: OrE)
    requires IsOr(e)
    decreases e
  {
    forall i | 0 <= i < |e.terms| :: AndTyped(schema, e.terms[i])
  }

  lemma {:induction false} FieldFits(schema: Schema, name: string, c: Clause)
    requires !IsConnective(name) && name in schema && Typed(schema[name].kind, c)
    ensures WellTyped(schema, FieldNode(name, c))
  {
    var n := FieldNode(name, c);
    assert MemberTyped(schema, n.members[0]);
  }

  lemma {:induction false} NegatedFits(schema: Schema, negate: bool, n: Node)
    requires WellTyped(schema, n)
    ensures WellTyped(schema, NotNode(n)) && WellTyped(schema, Negated(negate, n))
  {
    var m := NotNode(n);
    assert MemberTyped(schema, m.members[0]);
  }

  lemma {:induction false} JoinFits(schema: Schema, ns: seq<Node>)
    requires forall i | 0 <= i < |ns| :: WellTyped(schema, ns[i])
    ensures WellTyped(schema, OrNode(ns)) && WellTyped(schema, AndNode(ns))
  {
    if |ns| != 1 {
      var d, c := Node([Disj(ns)]), Node([Conj(ns)]);
      assert MemberTyped(schema, d.members[0]) && MemberTyped(schema, c.members[0]);
    }
  }

  lemma {:induction false} InFits(schema: Schema, f: string, vs: seq<Value>)
    requires !IsConnective(f) && f in schema && forall i | 0 <= i < |vs| :: Fits(vs[i], schema[f].kind)
    ensures WellTyped(schema, InNode(f, vs))
  {
    if AllNumeric(vs) {
      var ns := EqNodes(f, vs);
      forall i | 0 <= i < |ns| ensures WellTyped(schema, ns[i]) {
        FieldFits(schema, f, Is(vs[i]));
      }
      JoinFits(schema, ns);
    } else {
      FieldFits(schema, f, In(vs));
    }
  }

  lemma {:induction false} LikeFits(schema: Schema, f: string, p: string)
    requires !IsConnective(f) && f in schema && schema[f].kind == Text && Fits(Quoted(p), Text)
    requires '%' in p || '_' in p || !IsPlaceholder(Quoted(p))
    ensures WellTyped(schema, FieldNode(f, LikeClause(p)))
  {
    FieldFits(schema, f, LikeClause(p));
  }

  lemma {:induction false} CmpFits(schema: Schema, c: Cmp)
    requires (c.Test? ==> IsOperator(c.op)) && CmpTyped(schema, c)
    ensures WellTyped(schema, CmpNode(c))
  {
    match c
    case Test(f, neg, op, v) =>
      FieldFits(schema, f, OpClause(op, v));
      NegatedFits(schema, neg, FieldNode(f, OpClause(op, v)));
    case Between(f, neg, lo, hi) =>
      var clause := Compare([(Ge, lo), (Le, hi)]);
      FieldFits(schema, f, clause);
      NegatedFits(schema, neg, FieldNode(f, clause));
    case Among(f, neg, vs) =>
      InFits(schema, f, vs);
      NegatedFits(schema, neg, InNode(f, vs));
    case LikeP(f, neg, p) =>
      LikeFits(schema, f, p);
      NegatedFits(schema, neg, FieldNode(f, LikeClause(p)));
    case Contains(f, v) => FieldFits(schema, f, Is(v));
    case ContainsAll(f, vs) => FieldFits(schema, f, All(vs));
    case ContainsAny(f, vs) => FieldFits(schema, f, In(vs));
  }

  lemma {:induction false} UnaryFits(schema: Schema, u: Unary)
    requires IsUnary(u) && UnaryTyped(schema, u)
    ensures WellTyped(schema, UnaryNode(u))
    decreases u
  {
    match u
    case NotU(x) =>
      UnaryFits(schema, x);
      NegatedFits(schema, true, UnaryNode(x));
    case Group(e) => OrFits(schema, e);
    case Atom(c) => CmpFits(schema, c);
  }

  lemma {:induction false} AndFits(schema: Schema, e: AndE)
    requires IsAnd(e) && AndTyped(schema, e)
    ensures WellTyped(schema, AndNode(AndNodes(e, |e.factors|)))
    decreases e
  {
    var ns := AndNodes(e, |e.factors|);
    forall i | 0 <= i < |ns| ensures WellTyped(schema, ns[i]) {
      AndNodeAt(e, |e.factors|, i);
      UnaryFits(schema, e.factors[i]);
    }
    JoinFits(schema, ns);
  }

  /** A typed expression has a typed node. */
  lemma {:induction false} OrFits(schema: Schema, e: OrE)
    requires IsOr(e) && OrTyped(schema, e)
    ensures WellTyped(schema, NodeOf(e))
    decreases e
  {
    var ns := OrNodes(e, |e.terms|);
    forall i | 0 <= i < |ns| ensures WellTyped(schema, ns[i]) {
      OrNodeAt(e, |e.terms|, i);
      AndFits(schema, e.terms[i]);
    }
    JoinFits(schema, ns);
  }

  /** What is typed compiles. */
  lemma {:induction false} TypedCompiles(schema: Schema, node: Node)
    requires WellTyped(schema, node)
    ensures NodeCompiles(schema, node)
    decreases node
  {
    forall i | 0 <= i < |node.members| ensures MemberCompiles(schema, node.members[i]) {
      assert MemberTyped(schema, node.members[i]);
      MemberTypedCompiles(schema, node.members[i]);
    }
  }

  lemma {:induction false} MemberTypedCompiles(schema: Schema, m: Member)
    requires MemberTyped(schema, m)
    ensures MemberCompiles(schema, m)
    decreases m
  {
    match m
    case Conj(ns) =>
      forall i | 0 <= i < |ns| ensures NodeCompiles(schema, ns[i]) {
        TypedCompiles(schema, ns[i]);
      }
    case Disj(ns) =>
      forall i | 0 <= i < |ns| ensures NodeCompiles(schema, ns[i]) {
        TypedCompiles(schema, ns[i]);
      }
    case Neg(n) => TypedCompiles(schema, n);
    case Field(_, _) =>
  }

  // ----- the strings that patterns meet -----

  /** If the pattern is not rewritten away, the string it is matched against has no percent sign. */
  ghost predicate CmpPlain(c: Cmp, row: Row) {
    c.LikeP? && c.field in row ==> Plain(row[c.field], LikeClause(c.p))
  }

  ghost predicate UnaryPlain(u: Unary, row: Row)
    decreases u
  {
    match u
    case NotU(x) => UnaryPlain(x, row)
    case Group(e) => OrPlain(e, row)
    case Atom(c) => CmpPlain(c, row)
  }

  ghost predicate AndPlain(e: AndE, row: Row)
    decreases e
  {
    forall i | 0 <= i < |e.factors| :: UnaryPlain(e.factors[i], row)
  }

  ghost predicate OrPlain(e: OrE, row: Row)
    decreases e
  {
    forall i | 0 <= i < |e.terms| :: AndPlain(e.terms[i], row)
  }

  lemma {:induction false} FieldPlain(name: string, c: Clause, row: Row)
    requires name in row ==> Plain(row[name], c)
    ensures PlainRow(FieldNode(name, c), row)
  {
    var n := FieldNode(name, c);
    assert PlainMember(n.members[0], row);
  }

  lemma {:induction false} NegatedPlain(negate: bool, n: Node, row: Row)
    requires PlainRow(n, row)
    ensures PlainRow(NotNode(n), row) && PlainRow(Negated(negate, n), row)
  {
    var m := NotNode(n);
    assert PlainMember(m.members[0], row);
  }

  lemma {:induction false} JoinPlain(ns: seq<Node>, row: Row)
    requires forall i | 0 <= i < |ns| :: PlainRow(ns[i], row)
    ensures PlainRow(OrNode(ns), row) && PlainRow(AndNode(ns), row)
  {
    if |ns| != 1 {
      var d, c := Node([Disj(ns)]), Node([Conj(ns)]);
      assert PlainMember(d.members[0], row) && PlainMember(c.members[0], row);
    }
  }

  lemma {:induction false} InPlain(f: string, vs: seq<Value>, row: Row)
    ensures PlainRow(InNode(f, vs), row)
  {
    if AllNumeric(vs) {
      var ns := EqNodes(f, vs);
      forall i | 0 <= i < |ns| ensures PlainRow(ns[i], row) {
        FieldPlain(f, Is(vs[i]), row);
      }
      JoinPlain(ns, row);
    } else {
      FieldPlain(f, In(vs), row);
    }
  }

  lemma {:induction false} CmpKeepsPlain(c: Cmp, row: Row)
    requires (c.Test? ==> IsOperator(c.op)) && CmpPlain(c, row)
    ensures PlainRow(CmpNode(c), row)
  {
    match c
    case Test(f, neg, op, v) =>
      FieldPlain(f, OpClause(op, v), row);
      NegatedPlain(neg, FieldNode(f, OpClause(op, v)), row);
    case Between(f, neg, lo, hi) =>
      var clause := Compare([(Ge, lo), (Le, hi)]);
      FieldPlain(f, clause, row);
      NegatedPlain(neg, FieldNode(f, clause), row);
    case Among(f, neg, vs) =>
      InPlain(f, vs, row);
      NegatedPlain(neg, InNode(f, vs), row);
    case LikeP(f, neg, p) =>
      FieldPlain(f, LikeClause(p), row);
      NegatedPlain(neg, FieldNode(f, LikeClause(p)), row);
    case Contains(f, v) => FieldPlain(f, Is(v), row);
    case ContainsAll(f, vs) => FieldPlain(f, All(vs), row);
    case ContainsAny(f, vs) => FieldPlain(f, In(vs), row);
    case ContainsAllFrom(f, v) => FieldPlain(f, AllFrom(v), row);
    case ContainsAnyFrom(f, v) => FieldPlain(f, InFrom(v), row);
  }

  lemma {:induction false} UnaryKeepsPlain(u: Unary, row: Row)
    requires IsUnary(u) && UnaryPlain(u, row)
    ensures PlainRow(UnaryNode(u), row)
    decreases u
  {
    match u
    case NotU(x) =>
      UnaryKeepsPlain(x, row);
      NegatedPlain(true, UnaryNode(x), row);
    case Group(e) => OrKeepsPlain(e, row);
    case Atom(c) => CmpKeepsPlain(c, row);
  }

  lemma {:induction false} AndKeepsPlain(e: AndE, row: Row)
    requires IsAnd(e) && AndPlain(e, row)
    ensures PlainRow(AndNode(AndNodes(e, |e.factors|)), row)
    decreases e
  {
    var ns := AndNodes(e, |e.factors|);
    forall i | 0 <= i < |ns| ensures PlainRow(ns[i], row) {
      AndNodeAt(e, |e.factors|, i);
      UnaryKeepsPlain(e.factors[i], row);
    }
    JoinPlain(ns, row);
  }

  lemma {:induction false} OrKeepsPlain(e: OrE, row: Row)
    requires IsOr(e) && OrPlain(e, row)
    ensures PlainRow(NodeOf(e), row)
    decreases e
  {
    var ns := OrNodes(e, |e.terms|);
    forall i | 0 <= i < |ns| ensures PlainRow(ns[i], row) {
      OrNodeAt(e, |e.terms|, i);
      AndKeepsPlain(e.terms[i], row);
    }
    JoinPlain(ns, row);
  }

  // ----- the whole way -----

  /** The compiled filter accepts a record exactly when the expression holds of the row in it, whatever
      is added to the query table later, provided that patterns meet strings without a percent sign. */
  ghost predicate Says(s: Sel, template: seq<Attr>, schema: Schema, e: OrE)
    requires IsOr(e)
  {
    forall query, record, row | template <= query && Holds(schema, row, record) && OrPlain(e, row) ::
      Accepts(s, query, record) <==> OrHolds(e, row)
  }

  lemma {:induction false} MeansSays(s: Sel, template: seq<Attr>, schema: Schema, e: OrE)
    requires IsOr(e) && Means(s, template, schema, NodeOf(e))
    ensures Says(s, template, schema, e)
  {
    forall query, record, row | template <= query && Holds(schema, row, record) && OrPlain(e, row)
      ensures Accepts(s, query, record) <==> OrHolds(e, row)
    {
      OrKeepsPlain(e, row);
      OrSays(e, row);
    }
  }

  /** The text is this expression, and the expression makes sense for the schema. */
  ghost predicate WrittenFor(toks: Toks, schema: Schema, e: OrE) {
    IsOr(e) && Written(toks, e) && OrTyped(schema, e)
  }

  /** Compiling the text of a filter, from end to end: it succeeds exactly on texts of expressions that
      compile, which typed ones do, and the result says what the expression says. */
  method CompileText(toks: Toks, schema: Schema) returns (r: Result<Sel>, cf: CompiledFilter)
    ensures r.Built? <==> exists e :: IsOr(e) && Written(toks, e) && NodeCompiles(schema, NodeOf(e))
    ensures forall e | WrittenFor(toks, schema, e) :: r.Built? && Says(r.value, cf.template, schema, e)
    ensures r.Built? ==> OwnSlots(r.value, 0, |cf.template|)
  {
    cf := new CompiledFilter();
    var n := ParseFilter(toks);
    if n.Error? {
      ParsesIffWritten(toks);
      return Refused, cf;
    }
    r := cf.CompileNode(n.value, schema);
    ghost var e0 := ParseReads(toks);
    forall e | IsOr(e) && Written(toks, e) ensures NodeOf(e) == n.value {
      ParseWritten(toks, e);
    }
    forall e | WrittenFor(toks, schema, e) ensures r.Built? && Says(r.value, cf.template, schema, e) {
      OrFits(schema, e);
      TypedCompiles(schema, NodeOf(e));
      MeansSays(r.value, cf.template, schema, e);
    }
  }
}
