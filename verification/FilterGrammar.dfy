/** The filter language: expressions with NOT over AND over OR, how they are written, and that the
    parser accepts exactly what is written so and gives the expressions back. */
module FilterGrammar {

  import opened FilterExpr
  import opened FilterParser

  // ----- expressions -----

  datatype OrE = OrE(terms: seq<AndE>)

  datatype AndE = AndE(factors: seq<Unary>)

  datatype Unary = NotU(u: Unary) | Group(e: OrE) | Atom(c: Cmp)

  datatype Cmp =
    | Test(field: string, negate: bool, op: string, v: Value)
    | Between(field: string, negate: bool, lo: Value, hi: Value)
    | Among(field: string, negate: bool, vs: seq<Value>)
    | LikeP(field: string, negate: bool, p: string)
    | Contains(field: string, v: Value)
    | ContainsAll(field: string, vs: seq<Value>)
    | ContainsAny(field: string, vs: seq<Value>)
    | ContainsAllFrom(field: string, v: Value)
    | ContainsAnyFrom(field: string, v: Value)

  predicate IsContains(c: Cmp) {
    c.Contains? || c.ContainsAll? || c.ContainsAny? || c.ContainsAllFrom? || c.ContainsAnyFrom?
  }

  predicate IsOperator(op: string) {
    op == "=" || op == "==" || op == "!=" || op == "<>" || op == ">" || op == ">=" || op == "<" || op == "<="
  }

  /** Operators are known, and no comparison starts with a field called NOT. */
  ghost predicate IsCmp(c: Cmp) {
    (IsContains(c) || !ReadsAs(c.field, "not")) && (c.Test? ==> IsOperator(c.op))
  }

  /** Operands are there. */
  ghost predicate IsOr(e: OrE)
    decreases e
  {
    |e.terms| > 0 && forall i | 0 <= i < |e.terms| :: IsAnd(e.terms[i])
  }

  ghost predicate IsAnd(e: AndE)
    decreases e
  {
    |e.factors| > 0 && forall i | 0 <= i < |e.factors| :: IsUnary(e.factors[i])
  }

  ghost predicate IsUnary(u: Unary)
    decreases u
  {
    match u
    case NotU(x) => IsUnary(x)
    case Group(e) => IsOr(e)
    case Atom(c) => IsCmp(c)
  }

  // ----- how they are written -----

  /** What may stand in one place: a keyword in any case, one token, a literal however it is written,
      or a literal written as a word. */
  datatype Pat = Word(kw: string) | Exact(t: Tok) | Lit(v: Value) | WordLit(v: Value)

  type Pats = seq<Pat>

  const SMALL := "abcdefghijklmnopqrstuvwxyz"
  const CAPITAL := "ABCDEFGHIJKLMNOPQRSTUVWXYZ"

  /** c is the character d, which is no capital, or the capital of d. */
  ghost predicate IsLetter(c: char, d: char) {
    (c == d && d !in CAPITAL) || exists k :: 0 <= k < 26 && c == CAPITAL[k] && d == SMALL[k]
  }

  /** The word, in whatever case. */
  ghost predicate ReadsAs(text: string, word: string) {
    |text| == |word| && forall i | 0 <= i < |text| :: IsLetter(text[i], word[i])
  }

  /** The values that a token writes. */
  ghost predicate Writes(t: Tok, v: Value) {
    match t
    case Num(n) => v == Number(n)
    case Str(s) => v == Quoted(s)
    case Ident(text) =>
      || (ReadsAs(text, "true") && v == Number(1))
      || (ReadsAs(text, "false") && v == Number(0))
      || (|text| >= 3 && text[..2] == "$$" && v == Hole(text))
    case _ => false
  }

  ghost predicate Spells(t: Tok, p: Pat) {
    match p
    case Word(kw) => t.Ident? && ReadsAs(t.text, kw)
    case Exact(u) => t == u
    case Lit(v) => Writes(t, v)
    case WordLit(v) => t.Ident? && Writes(t, v)
  }

  /** The parser takes the token for that. */
  predicate Takes(t: Tok, p: Pat) {
    match p
    case Word(kw) => Keyword(t, kw)
    case Exact(u) => t == u
    case Lit(v) => Literal(t) == Some(v)
    case WordLit(v) => t.Ident? && Literal(t) == Some(v)
  }

  lemma {:induction false} Alphabet(k: nat)
    requires k < 26
    ensures CAPITAL[k] as int == 65 + k && SMALL[k] as int == 97 + k
  {
  }

  lemma {:induction false} CapitalsAre(c: char)
    ensures c in CAPITAL <==> 'A' <= c <= 'Z'
  {
    if 'A' <= c <= 'Z' {
      Alphabet(c as int - 65);
      assert CAPITAL[c as int - 65] == c;
    }
    if c in CAPITAL {
      var k :| 0 <= k < 26 && CAPITAL[k] == c;
      Alphabet(k);
    }
  }

  lemma {:induction false} LetterIff(c: char, d: char)
    ensures LowerChar(c) == d <==> IsLetter(c, d)
  {
    CapitalsAre(c);
    CapitalsAre(d);
    if 'A' <= c <= 'Z' {
      var k := c as int - 65;
      Alphabet(k);
      assert LowerChar(c) == SMALL[k];
      forall m | 0 <= m < 26 && c == CAPITAL[m] ensures m == k {
        Alphabet(m);
      }
    } else {
      forall m | 0 <= m < 26 ensures c != CAPITAL[m] {
        assert CAPITAL[m] in CAPITAL;
      }
    }
  }

  /** Comparing in lower case is reading the word in whatever case. */
  lemma {:induction false} LowerIff(text: string, word: string)
    ensures Lower(text) == word <==> ReadsAs(text, word)
  {
    forall i | 0 <= i < |text| && i < |word| ensures LowerChar(text[i]) == word[i] <==> IsLetter(text[i], word[i]) {
      LetterIff(text[i], word[i]);
    }
    if ReadsAs(text, word) {
      assert forall i | 0 <= i < |text| :: Lower(text)[i] == word[i];
    }
    if Lower(text) == word {
      assert forall i | 0 <= i < |text| :: LowerChar(text[i]) == word[i];
    }
  }

  /** The parser reads the literal that is written. */
  lemma {:induction false} LiteralIff(t: Tok, v: Value)
    ensures Literal(t) == Some(v) <==> Writes(t, v)
  {
    if t.Ident? {
      LowerIff(t.text, "true");
      LowerIff(t.text, "false");
      assert |t.text| >= 3 ==> (t.text[..2] == "$$" <==> t.text[0] == '$' && t.text[1] == '$');
      DollarIsNoLetter(t.text);
      assert Lower(t.text) == "true" ==> |t.text| == 4;
      assert Lower(t.text) == "false" ==> |t.text| == 5;
    }
  }

  lemma {:induction false} DollarIsNoLetter(text: string)
    ensures |text| > 0 && text[0] == '$' ==> !ReadsAs(text, "true") && !ReadsAs(text, "false")
  {
    if |text| > 0 && text[0] == '$' {
      LetterIff('$', 't');
      LetterIff('$', 'f');
    }
  }

  lemma {:induction false} TakesIff(t: Tok, p: Pat)
    ensures Takes(t, p) <==> Spells(t, p)
  {
    match p
    case Word(kw) =>
      if t.Ident? {
        LowerIff(t.text, kw);
      }
    case Exact(_) =>
    case Lit(v) => LiteralIff(t, v);
    case WordLit(v) => LiteralIff(t, v);
  }

  function RestToks(vs: seq<Value>, k: nat): Pats
    decreases |vs| - k
  {
    if k >= |vs| then [] else [Exact(Comma), Lit(vs[k])] + RestToks(vs, k + 1)
  }

  function ListToks(vs: seq<Value>): Pats {
    [Exact(LBrack)] + (if vs == [] then [] else [Lit(vs[0])] + RestToks(vs, 1)) + [Exact(RBrack)]
  }

  function FieldToks(field: string, negate: bool): Pats {
    if negate then [Exact(Ident(field)), Word("not")] else [Exact(Ident(field))]
  }

  function CallToks(name: string, field: string): Pats {
    [Word(name), Exact(LParen), Exact(Ident(field)), Exact(Comma)]
  }

  function CmpToks(c: Cmp): Pats {
    match c
    case Test(f, neg, op, v) => FieldToks(f, neg) + [Exact(Op(op)), Lit(v)]
    case Between(f, neg, lo, hi) => FieldToks(f, neg) + [Word("between"), Lit(lo), Word("and"), Lit(hi)]
    case Among(f, neg, vs) => FieldToks(f, neg) + ([Word("in")] + ListToks(vs))
    case LikeP(f, neg, p) => FieldToks(f, neg) + [Word("like"), Exact(Str(p))]
    case Contains(f, v) => CallToks("array_contains", f) + [Lit(v), Exact(RParen)]
    case ContainsAll(f, vs) => CallToks("array_contains_all", f) + (ListToks(vs) + [Exact(RParen)])
    case ContainsAny(f, vs) => CallToks("array_contains_any", f) + (ListToks(vs) + [Exact(RParen)])
    case ContainsAllFrom(f, v) => CallToks("array_contains_all", f) + [WordLit(v), Exact(RParen)]
    case ContainsAnyFrom(f, v) => CallToks("array_contains_any", f) + [WordLit(v), Exact(RParen)]
  }

  function UnaryToks(u: Unary): Pats
    decreases u
  {
    match u
    case NotU(x) => [Word("not")] + UnaryToks(x)
    case Group(e) => [Exact(LParen)] + (OrToks(e, 0) + [Exact(RParen)])
    case Atom(c) => CmpToks(c)
  }

  /** The factors from k on, each but the first of all behind AND. */
  function AndToks(e: AndE, k: nat): Pats
    decreases e, |e.factors| - k
  {
    if k >= |e.factors| then []
    else (if k == 0 then [] else [Word("and")]) + UnaryToks(e.factors[k]) + AndToks(e, k + 1)
  }

  function OrToks(e: OrE, k: nat): Pats
    decreases e, |e.terms| - k
  {
    if k >= |e.terms| then []
    else (if k == 0 then [] else [Word("or")]) + AndToks(e.terms[k], 0) + OrToks(e, k + 1)
  }

  // ----- the nodes they stand for -----

  function CmpNode(c: Cmp): Node
    requires c.Test? ==> IsOperator(c.op)
  {
    match c
    case Test(f, neg, op, v) => Negated(neg, FieldNode(f, OpClause(op, v)))
    case Between(f, neg, lo, hi) => Negated(neg, FieldNode(f, Compare([(Ge, lo), (Le, hi)])))
    case Among(f, neg, vs) => Negated(neg, InNode(f, vs))
    case LikeP(f, neg, p) => Negated(neg, FieldNode(f, LikeClause(p)))
    case Contains(f, v) => FieldNode(f, Is(v))
    case ContainsAll(f, vs) => FieldNode(f, All(vs))
    case ContainsAny(f, vs) => FieldNode(f, In(vs))
    case ContainsAllFrom(f, v) => FieldNode(f, AllFrom(v))
    case ContainsAnyFrom(f, v) => FieldNode(f, InFrom(v))
  }

  ghost function UnaryNode(u: Unary): Node
    requires IsUnary(u)
    decreases u
  {
    match u
    case NotU(x) => NotNode(UnaryNode(x))
    case Group(e) => OrNode(OrNodes(e, |e.terms|))
    case Atom(c) => CmpNode(c)
  }

  ghost function AndNodes(e: AndE, k: nat): (ns: seq<Node>)
    requires IsAnd(e) && k <= |e.factors|
    ensures |ns| == k
    decreases e, k
  {
    if k == 0 then [] else AndNodes(e, k - 1) + [UnaryNode(e.factors[k - 1])]
  }

  ghost function OrNodes(e: OrE, k: nat): (ns: seq<Node>)
    requires IsOr(e) && k <= |e.terms|
    ensures |ns| == k
    decreases e, k
  {
    if k == 0 then [] else OrNodes(e, k - 1) + [TermNode(e, k - 1)]
  }

  ghost function TermNode(e: OrE, k: nat): Node
    requires IsOr(e) && k < |e.terms|
    decreases e, 0
  {
    AndNode(AndNodes(e.terms[k], |e.terms[k].factors|))
  }

  ghost function NodeOf(e: OrE): Node
    requires IsOr(e)
  {
    OrNode(OrNodes(e, |e.terms|))
  }

  // ----- parsing what is written -----

  /** The tokens from position i on are written so. */
  ghost predicate Stands(ts: Toks, i: nat, ps: Pats) {
    i + |ps| <= |ts| && forall k | 0 <= k < |ps| :: Takes(ts[i + k], ps[k])
  }

  lemma {:induction false} StandsBoth(ts: Toks, i: nat, a: Pats, b: Pats)
    ensures Stands(ts, i, a + b) <==> Stands(ts, i, a) && Stands(ts, i + |a|, b)
  {
    var ps := a + b;
    if Stands(ts, i, ps) {
      forall k | 0 <= k < |a| ensures Takes(ts[i + k], a[k]) {
        assert ps[k] == a[k];
      }
      forall k | 0 <= k < |b| ensures Takes(ts[i + |a| + k], b[k]) {
        var m := |a| + k;
        assert ps[m] == b[k] && Takes(ts[i + m], ps[m]);
      }
    }
    if Stands(ts, i, a) && Stands(ts, i + |a|, b) {
      forall k | 0 <= k < |ps| ensures Takes(ts[i + k], ps[k]) {
        if k >= |a| {
          var m := k - |a|;
          assert Takes(ts[i + |a| + m], b[m]);
        }
      }
    }
  }

  lemma {:induction false} StandsAt(ts: Toks, i: nat, ps: Pats, k: nat)
    requires Stands(ts, i, ps) && k < |ps|
    ensures i + k < |ts| && Takes(At(ts, i + k), ps[k])
  {
  }

  lemma {:induction false} StandsThree(ts: Toks, i: nat, a: Pats, b: Pats, c: Pats)
    ensures Stands(ts, i, a + b + c) <==> Stands(ts, i, a) && Stands(ts, i + |a|, b) && Stands(ts, i + |a| + |b|, c)
  {
    StandsBoth(ts, i, a + b, c);
    StandsBoth(ts, i, a, b);
  }

  lemma {:induction false} StandsOne(ts: Toks, i: nat, p: Pat)
    ensures i < |ts| ==> (Stands(ts, i, [p]) <==> Takes(At(ts, i), p))
    ensures Stands(ts, i, [p]) ==> i < |ts|
  {
    if i < |ts| {
      assert Stands(ts, i, [p]) <==> Takes(ts[i + 0], [p][0]);
    }
  }

  /** Two, three and four places at once. */
  lemma {:induction false} StandsTwo(ts: Toks, i: nat, p: Pat, q: Pat)
    ensures i + 1 < |ts| ==> (Stands(ts, i, [p, q]) <==> Takes(At(ts, i), p) && Takes(At(ts, i + 1), q))
    ensures Stands(ts, i, [p, q]) ==> i + 1 < |ts|
  {
    assert [p, q] == [p] + [q];
    StandsBoth(ts, i, [p], [q]);
    StandsOne(ts, i, p);
    StandsOne(ts, i + 1, q);
  }

  lemma {:induction false} StandsFour(ts: Toks, i: nat, p: Pat, q: Pat, r: Pat, s: Pat)
    ensures i + 3 < |ts| ==> (Stands(ts, i, [p, q, r, s]) <==>
      Takes(At(ts, i), p) && Takes(At(ts, i + 1), q) && Takes(At(ts, i + 2), r) && Takes(At(ts, i + 3), s))
    ensures Stands(ts, i, [p, q, r, s]) ==> i + 3 < |ts|
  {
    assert [p, q, r, s] == [p, q] + [r, s];
    StandsBoth(ts, i, [p, q], [r, s]);
    StandsTwo(ts, i, p, q);
    StandsTwo(ts, i + 2, r, s);
  }

  lemma {:induction false} RestParses(ts: Toks, i: nat, vs: seq<Value>, k: nat)
    requires 1 <= k <= |vs| && Stands(ts, i, RestToks(vs, k)) && At(ts, i + |RestToks(vs, k)|) == RBrack
    ensures MoreValuesAt(ts, i, vs[..k]) == Ok(vs, i + |RestToks(vs, k)|)
    decreases |vs| - k
  {
    if k == |vs| {
      assert vs[..k] == vs;
    } else {
      StandsBoth(ts, i, [Exact(Comma), Lit(vs[k])], RestToks(vs, k + 1));
      StandsTwo(ts, i, Exact(Comma), Lit(vs[k]));
      RestParses(ts, i + 2, vs, k + 1);
      assert vs[..k + 1] == vs[..k] + [vs[k]];
    }
  }

  lemma {:induction false} ListParses(ts: Toks, i: nat, vs: seq<Value>)
    requires Stands(ts, i, ListToks(vs))
    ensures ListAt(ts, i) == Ok(vs, i + |ListToks(vs)|)
  {
    var body := if vs == [] then [] else [Lit(vs[0])] + RestToks(vs, 1);
    StandsThree(ts, i, [Exact(LBrack)], body, [Exact(RBrack)]);
    StandsOne(ts, i, Exact(LBrack));
    StandsOne(ts, i + 1 + |body|, Exact(RBrack));
    if vs != [] {
      FirstParses(ts, i + 1, vs);
    }
  }

  lemma {:induction false} FirstParses(ts: Toks, i: nat, vs: seq<Value>)
    requires vs != [] && Stands(ts, i, [Lit(vs[0])] + RestToks(vs, 1)) && At(ts, i + 1 + |RestToks(vs, 1)|) == RBrack
    ensures ValueAt(ts, i) == Ok(vs[0], i + 1) && MoreValuesAt(ts, i + 1, [vs[0]]) == Ok(vs, i + 1 + |RestToks(vs, 1)|)
    ensures At(ts, i) != RBrack
  {
    StandsBoth(ts, i, [Lit(vs[0])], RestToks(vs, 1));
    StandsOne(ts, i, Lit(vs[0]));
    assert vs[..1] == [vs[0]];
    RestParses(ts, i + 1, vs, 1);
  }

  /** The field and an optional NOT are read off, whatever test follows. */
  lemma {:induction false} FieldParses(ts: Toks, i: nat, f: string, negate: bool)
    requires Stands(ts, i, FieldToks(f, negate))
    requires var t := At(ts, i + |FieldToks(f, negate)|); t != LParen && !Keyword(t, "not")
    ensures CmpAt(ts, i) == TestAt(ts, i + |FieldToks(f, negate)|, f, negate)
  {
    StandsAt(ts, i, FieldToks(f, negate), 0);
    if negate {
      StandsAt(ts, i, FieldToks(f, negate), 1);
    }
  }

  lemma {:induction false} TestParses(ts: Toks, i: nat, c: Cmp)
    requires c.Test? && IsOperator(c.op) && Stands(ts, i, CmpToks(c))
    ensures CmpAt(ts, i) == Ok(CmpNode(c), i + |CmpToks(c)|)
  {
    var head, tail := FieldToks(c.field, c.negate), [Exact(Op(c.op)), Lit(c.v)];
    StandsBoth(ts, i, head, tail);
    StandsTwo(ts, i + |head|, Exact(Op(c.op)), Lit(c.v));
    FieldParses(ts, i, c.field, c.negate);
  }

  lemma {:induction false} BetweenParses(ts: Toks, i: nat, c: Cmp)
    requires c.Between? && Stands(ts, i, CmpToks(c))
    ensures CmpAt(ts, i) == Ok(CmpNode(c), i + |CmpToks(c)|)
  {
    var head, tail := FieldToks(c.field, c.negate), [Word("between"), Lit(c.lo), Word("and"), Lit(c.hi)];
    StandsBoth(ts, i, head, tail);
    StandsFour(ts, i + |head|, Word("between"), Lit(c.lo), Word("and"), Lit(c.hi));
    FieldParses(ts, i, c.field, c.negate);
  }

  lemma {:induction false} AmongParses(ts: Toks, i: nat, c: Cmp)
    requires c.Among? && Stands(ts, i, CmpToks(c))
    ensures CmpAt(ts, i) == Ok(CmpNode(c), i + |CmpToks(c)|)
  {
    var head := FieldToks(c.field, c.negate);
    StandsBoth(ts, i, head, [Word("in")] + ListToks(c.vs));
    StandsBoth(ts, i + |head|, [Word("in")], ListToks(c.vs));
    StandsOne(ts, i + |head|, Word("in"));
    FieldParses(ts, i, c.field, c.negate);
    ListParses(ts, i + |head| + 1, c.vs);
  }

  lemma {:induction false} LikeParses(ts: Toks, i: nat, c: Cmp)
    requires c.LikeP? && Stands(ts, i, CmpToks(c))
    ensures CmpAt(ts, i) == Ok(CmpNode(c), i + |CmpToks(c)|)
  {
    var head, tail := FieldToks(c.field, c.negate), [Word("like"), Exact(Str(c.p))];
    StandsBoth(ts, i, head, tail);
    StandsTwo(ts, i + |head|, Word("like"), Exact(Str(c.p)));
    FieldParses(ts, i, c.field, c.negate);
  }

  /** The start of a call. */
  lemma {:induction false} CallStarts(ts: Toks, i: nat, name: string, field: string)
    ensures i + 3 < |ts| ==> (Stands(ts, i, CallToks(name, field)) <==>
      Keyword(At(ts, i), name) && At(ts, i + 1) == LParen && At(ts, i + 2) == Ident(field) && At(ts, i + 3) == Comma)
    ensures Stands(ts, i, CallToks(name, field)) ==> i + 3 < |ts|
  {
    StandsFour(ts, i, Word(name), Exact(LParen), Exact(Ident(field)), Exact(Comma));
  }

  predicate IsCallName(name: string) {
    name in ["array_contains", "array_contains_all", "array_contains_any"]
  }

  lemma {:induction false} CallHead(ts: Toks, i: nat, name: string, f: string)
    requires IsCallName(name) && Stands(ts, i, CallToks(name, f))
    ensures i + 3 < |ts| && ts[i].Ident? && Lower(ts[i].text) == name && CmpAt(ts, i) == CallAt(ts, i)
    ensures At(ts, i + 2) == Ident(f) && At(ts, i + 3) == Comma
  {
    CallStarts(ts, i, name, f);
  }

  /** A call with one literal. */
  lemma {:induction false} WordParses(ts: Toks, i: nat, c: Cmp, name: string, lit: Pat)
    requires
      || (c.Contains? && name == "array_contains" && lit == Lit(c.v))
      || (c.ContainsAllFrom? && name == "array_contains_all" && lit == WordLit(c.v))
      || (c.ContainsAnyFrom? && name == "array_contains_any" && lit == WordLit(c.v))
    requires Stands(ts, i, CallToks(name, c.field) + [lit, Exact(RParen)])
    ensures CmpAt(ts, i) == Ok(CmpNode(c), i + 6)
  {
    StandsBoth(ts, i, CallToks(name, c.field), [lit, Exact(RParen)]);
    CallHead(ts, i, name, c.field);
    StandsTwo(ts, i + 4, lit, Exact(RParen));
    assert ValueAt(ts, i + 4) == Ok(c.v, i + 5);
  }

  /** A call with a list. */
  lemma {:induction false} CallParses(ts: Toks, i: nat, c: Cmp, name: string)
    requires (c.ContainsAll? && name == "array_contains_all") || (c.ContainsAny? && name == "array_contains_any")
    requires Stands(ts, i, CallToks(name, c.field) + (ListToks(c.vs) + [Exact(RParen)]))
    ensures CmpAt(ts, i) == Ok(CmpNode(c), i + 5 + |ListToks(c.vs)|)
  {
    var list := ListToks(c.vs);
    StandsBoth(ts, i, CallToks(name, c.field), list + [Exact(RParen)]);
    CallHead(ts, i, name, c.field);
    ListEnds(ts, i + 4, c.vs);
  }

  /** A list and the parenthesis behind it. */
  lemma {:induction false} ListEnds(ts: Toks, i: nat, vs: seq<Value>)
    requires Stands(ts, i, ListToks(vs) + [Exact(RParen)])
    ensures !At(ts, i).Ident? && ListAt(ts, i) == Ok(vs, i + |ListToks(vs)|) && At(ts, i + |ListToks(vs)|) == RParen
  {
    var list := ListToks(vs);
    StandsBoth(ts, i, list, [Exact(RParen)]);
    StandsOne(ts, i + |list|, Exact(RParen));
    StandsAt(ts, i, list, 0);
    ListParses(ts, i, vs);
  }

  lemma {:induction false} CmpParses(ts: Toks, i: nat, c: Cmp)
    requires IsCmp(c) && Stands(ts, i, CmpToks(c))
    ensures CmpAt(ts, i) == Ok(CmpNode(c), i + |CmpToks(c)|)
  {
    match c
    case Test(_, _, _, _) => TestParses(ts, i, c);
    case Between(_, _, _, _) => BetweenParses(ts, i, c);
    case Among(_, _, _) => AmongParses(ts, i, c);
    case LikeP(_, _, _) => LikeParses(ts, i, c);
    case ContainsAll(_, _) => CallParses(ts, i, c, "array_contains_all");
    case ContainsAny(_, _) => CallParses(ts, i, c, "array_contains_any");
    case Contains(_, v) => WordParses(ts, i, c, "array_contains", Lit(v));
    case ContainsAllFrom(_, v) => WordParses(ts, i, c, "array_contains_all", WordLit(v));
    case ContainsAnyFrom(_, v) => WordParses(ts, i, c, "array_contains_any", WordLit(v));
  }

  /** The first token of a comparison is a word that is not NOT. */
  lemma {:induction false} CmpStarts(ts: Toks, i: nat, c: Cmp)
    requires IsCmp(c) && Stands(ts, i, CmpToks(c))
    ensures At(ts, i) != LParen && !Keyword(At(ts, i), "not")
  {
    LowerIff(c.field, "not");
    StandsAt(ts, i, CmpToks(c), 0);
  }

  lemma {:induction false} AndAtFirst(ts: Toks, i: nat, n: Node, j: nat)
    requires UnaryAt(ts, i) == Ok(n, j)
    ensures AndAt(ts, i) == AndRestAt(ts, j, [n])
  {
  }

  lemma {:induction false} AndRestNext(ts: Toks, i: nat, ns: seq<Node>, n: Node, j: nat)
    requires i <= |ts| && Keyword(At(ts, i), "and") && UnaryAt(ts, i + 1) == Ok(n, j)
    ensures AndRestAt(ts, i, ns) == AndRestAt(ts, j, ns + [n])
  {
  }

  lemma {:induction false} AndRestEnds(ts: Toks, i: nat, ns: seq<Node>)
    requires i <= |ts| && !Keyword(At(ts, i), "and")
    ensures AndRestAt(ts, i, ns) == Ok(AndNode(ns), i)
  {
  }

  lemma {:induction false} OrRestEnds(ts: Toks, i: nat, ns: seq<Node>)
    requires i <= |ts| && !Keyword(At(ts, i), "or")
    ensures OrRestAt(ts, i, ns) == Ok(OrNode(ns), i)
  {
  }

  lemma {:induction false} OrAtFirst(ts: Toks, i: nat, n: Node, j: nat)
    requires AndAt(ts, i) == Ok(n, j)
    ensures OrAt(ts, i) == OrRestAt(ts, j, [n])
  {
  }

  lemma {:induction false} OrRestNext(ts: Toks, i: nat, ns: seq<Node>, n: Node, j: nat)
    requires i <= |ts| && Keyword(At(ts, i), "or") && AndAt(ts, i + 1) == Ok(n, j)
    ensures OrRestAt(ts, i, ns) == OrRestAt(ts, j, ns + [n])
  {
  }

  lemma {:induction false} UnaryParses(ts: Toks, i: nat, u: Unary)
    requires IsUnary(u) && Stands(ts, i, UnaryToks(u))
    ensures UnaryAt(ts, i) == Ok(UnaryNode(u), i + |UnaryToks(u)|)
    decreases u
  {
    match u
    case NotU(x) =>
      NotStands(ts, i, x);
      UnaryParses(ts, i + 1, x);
    case Group(e) =>
      GroupStands(ts, i, e);
      OrParses(ts, i + 1, e, i + 1 + |OrToks(e, 0)|);
    case Atom(c) =>
      CmpStarts(ts, i, c);
      CmpParses(ts, i, c);
  }

  lemma {:induction false} NotStands(ts: Toks, i: nat, x: Unary)
    ensures Stands(ts, i, UnaryToks(NotU(x))) <==> Keyword(At(ts, i), "not") && Stands(ts, i + 1, UnaryToks(x))
    ensures |UnaryToks(NotU(x))| == 1 + |UnaryToks(x)|
  {
    StandsBoth(ts, i, [Word("not")], UnaryToks(x));
    StandsOne(ts, i, Word("not"));
  }

  lemma {:induction false} GroupStands(ts: Toks, i: nat, e: OrE)
    ensures Stands(ts, i, UnaryToks(Group(e))) <==>
      At(ts, i) == LParen && Stands(ts, i + 1, OrToks(e, 0)) && At(ts, i + 1 + |OrToks(e, 0)|) == RParen
    ensures |UnaryToks(Group(e))| == |OrToks(e, 0)| + 2
  {
    var body := OrToks(e, 0);
    StandsBoth(ts, i, [Exact(LParen)], body + [Exact(RParen)]);
    StandsBoth(ts, i + 1, body, [Exact(RParen)]);
    StandsOne(ts, i, Exact(LParen));
    StandsOne(ts, i + 1 + |body|, Exact(RParen));
  }

  lemma {:induction false} AndParses(ts: Toks, i: nat, e: AndE, stop: nat)
    requires IsAnd(e) && Stands(ts, i, AndToks(e, 0)) && stop == i + |AndToks(e, 0)| && !Keyword(At(ts, stop), "and")
    ensures AndAt(ts, i) == Ok(AndNode(AndNodes(e, |e.factors|)), stop)
    decreases e, |e.factors| + 1
  {
    var j := AndFirst(ts, i, e);
    UnaryParses(ts, i, e.factors[0]);
    AndAtFirst(ts, i, UnaryNode(e.factors[0]), j);
    AndRestParses(ts, j, e, 1, stop);
  }

  lemma {:induction false} AndFirst(ts: Toks, i: nat, e: AndE) returns (j: nat)
    requires IsAnd(e)
    ensures j == i + |UnaryToks(e.factors[0])| && i + |AndToks(e, 0)| == j + |AndToks(e, 1)|
    ensures Stands(ts, i, AndToks(e, 0)) <==> Stands(ts, i, UnaryToks(e.factors[0])) && Stands(ts, j, AndToks(e, 1))
    ensures AndNodes(e, 1) == [UnaryNode(e.factors[0])]
  {
    var first, rest := UnaryToks(e.factors[0]), AndToks(e, 1);
    assert [] + first + rest == first + rest;
    StandsBoth(ts, i, first, rest);
    j := i + |first|;
  }

  lemma {:induction false} AndStep(ts: Toks, i: nat, e: AndE, k: nat) returns (j: nat)
    requires 1 <= k < |e.factors|
    ensures j == i + 1 + |UnaryToks(e.factors[k])| && i + |AndToks(e, k)| == j + |AndToks(e, k + 1)|
    ensures Stands(ts, i, AndToks(e, k)) <==>
      Keyword(At(ts, i), "and") && Stands(ts, i + 1, UnaryToks(e.factors[k])) && Stands(ts, j, AndToks(e, k + 1))
  {
    StandsThree(ts, i, [Word("and")], UnaryToks(e.factors[k]), AndToks(e, k + 1));
    StandsOne(ts, i, Word("and"));
    j := i + 1 + |UnaryToks(e.factors[k])|;
  }

  lemma {:induction false} AndRestParses(ts: Toks, i: nat, e: AndE, k: nat, stop: nat)
    requires IsAnd(e) && 1 <= k <= |e.factors| && Stands(ts, i, AndToks(e, k))
    requires stop == i + |AndToks(e, k)| && !Keyword(At(ts, stop), "and")
    ensures AndRestAt(ts, i, AndNodes(e, k)) == Ok(AndNode(AndNodes(e, |e.factors|)), stop)
    decreases e, |e.factors| - k
  {
    if k < |e.factors| {
      var j := AndStep(ts, i, e, k);
      UnaryParses(ts, i + 1, e.factors[k]);
      AndRestNext(ts, i, AndNodes(e, k), UnaryNode(e.factors[k]), j);
      AndRestParses(ts, j, e, k + 1, stop);
      assert AndNodes(e, k + 1) == AndNodes(e, k) + [UnaryNode(e.factors[k])];
    } else {
      AndRestEnds(ts, i, AndNodes(e, k));
    }
  }

  lemma {:induction false} OrParses(ts: Toks, i: nat, e: OrE, stop: nat)
    requires IsOr(e) && Stands(ts, i, OrToks(e, 0)) && stop == i + |OrToks(e, 0)|
    requires !Keyword(At(ts, stop), "or") && !Keyword(At(ts, stop), "and")
    ensures OrAt(ts, i) == Ok(NodeOf(e), stop)
    decreases e, |e.terms| + 1
  {
    var j := OrFirst(ts, i, e);
    OrNext(ts, j, e, 1, stop);
    AndParses(ts, i, e.terms[0], j);
    OrAtFirst(ts, i, TermNode(e, 0), j);
    OrRestParses(ts, j, e, 1, stop);
  }

  lemma {:induction false} OrFirst(ts: Toks, i: nat, e: OrE) returns (j: nat)
    requires IsOr(e)
    ensures j == i + |AndToks(e.terms[0], 0)| && i + |OrToks(e, 0)| == j + |OrToks(e, 1)|
    ensures Stands(ts, i, OrToks(e, 0)) <==> Stands(ts, i, AndToks(e.terms[0], 0)) && Stands(ts, j, OrToks(e, 1))
    ensures OrNodes(e, 1) == [TermNode(e, 0)]
  {
    var first, rest := AndToks(e.terms[0], 0), OrToks(e, 1);
    assert [] + first + rest == first + rest;
    StandsBoth(ts, i, first, rest);
    j := i + |first|;
  }

  /** Behind a term comes OR or the end of the expression. */
  lemma {:induction false} OrNext(ts: Toks, i: nat, e: OrE, k: nat, stop: nat)
    requires 1 <= k <= |e.terms| && Stands(ts, i, OrToks(e, k)) && stop == i + |OrToks(e, k)| && !Keyword(At(ts, stop), "and")
    ensures !Keyword(At(ts, i), "and")
  {
    if k < |e.terms| {
      StandsAt(ts, i, OrToks(e, k), 0);
    }
  }

  lemma {:induction false} OrStep(ts: Toks, i: nat, e: OrE, k: nat) returns (j: nat)
    requires 1 <= k < |e.terms|
    ensures j == i + 1 + |AndToks(e.terms[k], 0)| && i + |OrToks(e, k)| == j + |OrToks(e, k + 1)|
    ensures Stands(ts, i, OrToks(e, k)) <==>
      Keyword(At(ts, i), "or") && Stands(ts, i + 1, AndToks(e.terms[k], 0)) && Stands(ts, j, OrToks(e, k + 1))
  {
    StandsThree(ts, i, [Word("or")], AndToks(e.terms[k], 0), OrToks(e, k + 1));
    StandsOne(ts, i, Word("or"));
    j := i + 1 + |AndToks(e.terms[k], 0)|;
  }

  lemma {:induction false} OrRestParses(ts: Toks, i: nat, e: OrE, k: nat, stop: nat)
    requires IsOr(e) && 1 <= k <= |e.terms| && Stands(ts, i, OrToks(e, k)) && stop == i + |OrToks(e, k)|
    requires !Keyword(At(ts, stop), "or") && !Keyword(At(ts, stop), "and")
    ensures OrRestAt(ts, i, OrNodes(e, k)) == Ok(NodeOf(e), stop)
    decreases e, |e.terms| - k
  {
    if k < |e.terms| {
      var j := OrStep(ts, i, e, k);
      OrNext(ts, j, e, k + 1, stop);
      AndParses(ts, i + 1, e.terms[k], j);
      OrRestNext(ts, i, OrNodes(e, k), TermNode(e, k), j);
      OrRestParses(ts, j, e, k + 1, stop);
      assert OrNodes(e, k + 1) == OrNodes(e, k) + [TermNode(e, k)];
    } else {
      OrRestEnds(ts, i, OrNodes(e, k));
    }
  }

  /** The tokens, up to the end of the input, are the expression written down. */
  ghost predicate Written(ts: Toks, e: OrE) {
    var ps := OrToks(e, 0);
    |ps| <= |ts| && (forall k | 0 <= k < |ps| :: Spells(ts[k], ps[k])) && (|ps| < |ts| ==> ts[|ps|] == End)
  }

  lemma {:induction false} WrittenStands(ts: Toks, e: OrE)
    ensures Written(ts, e) <==> Stands(ts, 0, OrToks(e, 0)) && At(ts, |OrToks(e, 0)|) == End
  {
    var ps := OrToks(e, 0);
    if |ps| <= |ts| {
      forall k | 0 <= k < |ps| ensures Takes(ts[0 + k], ps[k]) <==> Spells(ts[k], ps[k]) {
        TakesIff(ts[k], ps[k]);
      }
    }
  }

  /** Writing an expression down and parsing it gives back its node. */
  lemma {:induction false} ParseWritten(ts: Toks, e: OrE)
    requires IsOr(e) && Written(ts, e)
    ensures Parse(ts) == Ok(NodeOf(e), |OrToks(e, 0)|)
  {
    WrittenStands(ts, e);
    OrParses(ts, 0, e, |OrToks(e, 0)|);
  }

  // ----- and the other way: what parses was written so -----

  lemma {:induction false} RestReads(ts: Toks, i: nat, first: seq<Value>)
    requires MoreValuesAt(ts, i, first).Ok?
    ensures var r := MoreValuesAt(ts, i, first);
      first <= r.value && Stands(ts, i, RestToks(r.value, |first|)) && r.pos == i + |RestToks(r.value, |first|)|
    decreases |ts| - i
  {
    if At(ts, i) == Comma {
      var v := ValueAt(ts, i + 1);
      RestReads(ts, v.pos, first + [v.value]);
      var vs, k := MoreValuesAt(ts, i, first).value, |first|;
      assert vs[k] == (first + [v.value])[k];
      StandsBoth(ts, i, [Exact(Comma), Lit(vs[k])], RestToks(vs, k + 1));
      StandsTwo(ts, i, Exact(Comma), Lit(vs[k]));
    }
  }

  lemma {:induction false} FirstReads(ts: Toks, i: nat)
    requires ValueAt(ts, i).Ok? && MoreValuesAt(ts, i + 1, [ValueAt(ts, i).value]).Ok?
    ensures var r := MoreValuesAt(ts, i + 1, [ValueAt(ts, i).value]); var body := [Lit(ValueAt(ts, i).value)] + RestToks(r.value, 1);
      && r.value != [] && r.value[0] == ValueAt(ts, i).value && Stands(ts, i, body) && r.pos == i + |body|
  {
    var v := ValueAt(ts, i).value;
    RestReads(ts, i + 1, [v]);
    var vs := MoreValuesAt(ts, i + 1, [v]).value;
    assert vs[0] == [v][0];
    StandsBoth(ts, i, [Lit(v)], RestToks(vs, 1));
    StandsOne(ts, i, Lit(v));
  }

  lemma {:induction false} ListJoins(ts: Toks, i: nat, body: Pats)
    requires At(ts, i) == LBrack && Stands(ts, i + 1, body) && At(ts, i + 1 + |body|) == RBrack
    ensures Stands(ts, i, [Exact(LBrack)] + body + [Exact(RBrack)])
  {
    StandsThree(ts, i, [Exact(LBrack)], body, [Exact(RBrack)]);
    StandsOne(ts, i, Exact(LBrack));
    StandsOne(ts, i + 1 + |body|, Exact(RBrack));
  }

  lemma {:induction false} ListReads(ts: Toks, i: nat)
    requires ListAt(ts, i).Ok?
    ensures var r := ListAt(ts, i); Stands(ts, i, ListToks(r.value)) && r.pos == i + |ListToks(r.value)|
  {
    var vs := ListAt(ts, i).value;
    if At(ts, i + 1) == RBrack {
      ListJoins(ts, i, []);
    } else {
      FirstReads(ts, i + 1);
      ListJoins(ts, i, [Lit(vs[0])] + RestToks(vs, 1));
    }
  }

  /** c is what stands at position i, and parses to its node. */
  ghost predicate ReadsCmp(ts: Toks, i: nat, c: Cmp) {
    IsCmp(c) && Stands(ts, i, CmpToks(c)) && CmpAt(ts, i) == Ok(CmpNode(c), i + |CmpToks(c)|)
  }

  /** A test behind a field, whatever it is. */
  lemma {:induction false} TailStands(ts: Toks, h: nat, f: string, negate: bool, tail: Pats)
    requires Stands(ts, h, FieldToks(f, negate)) && Stands(ts, h + |FieldToks(f, negate)|, tail)
    ensures Stands(ts, h, FieldToks(f, negate) + tail)
  {
    StandsBoth(ts, h, FieldToks(f, negate), tail);
  }

  lemma {:induction false} BetweenReads(ts: Toks, i: nat, f: string, negate: bool) returns (c: Cmp)
    requires Keyword(At(ts, i), "between") && TestAt(ts, i, f, negate).Ok?
    ensures c.Between? && c.field == f && c.negate == negate
    ensures Stands(ts, i, [Word("between"), Lit(c.lo), Word("and"), Lit(c.hi)])
  {
    var lo, hi := ValueAt(ts, i + 1).value, ValueAt(ts, i + 3).value;
    c := Between(f, negate, lo, hi);
    StandsFour(ts, i, Word("between"), Lit(lo), Word("and"), Lit(hi));
  }

  lemma {:induction false} AmongReads(ts: Toks, i: nat, f: string, negate: bool) returns (c: Cmp)
    requires Keyword(At(ts, i), "in") && TestAt(ts, i, f, negate).Ok?
    ensures c.Among? && c.field == f && c.negate == negate && Stands(ts, i, [Word("in")] + ListToks(c.vs))
  {
    var vs := ListAt(ts, i + 1).value;
    c := Among(f, negate, vs);
    ListReads(ts, i + 1);
    StandsOne(ts, i, Word("in"));
    StandsBoth(ts, i, [Word("in")], ListToks(vs));
  }

  lemma {:induction false} LikeReads(ts: Toks, i: nat, f: string, negate: bool) returns (c: Cmp)
    requires Keyword(At(ts, i), "like") && TestAt(ts, i, f, negate).Ok?
    ensures c.LikeP? && c.field == f && c.negate == negate && Stands(ts, i, [Word("like"), Exact(Str(c.p))])
  {
    var p := ValueAt(ts, i + 1).value.s;
    c := LikeP(f, negate, p);
    StandsTwo(ts, i, Word("like"), Exact(Str(p)));
  }

  lemma {:induction false} OpReads(ts: Toks, i: nat, f: string, negate: bool) returns (c: Cmp)
    requires At(ts, i).Op? && TestAt(ts, i, f, negate).Ok?
    ensures c.Test? && c.field == f && c.negate == negate && IsOperator(c.op) && Stands(ts, i, [Exact(Op(c.op)), Lit(c.v)])
  {
    var op, v := At(ts, i).op, ValueAt(ts, i + 1).value;
    c := Test(f, negate, op, v);
    StandsTwo(ts, i, Exact(Op(op)), Lit(v));
  }

  lemma {:induction false} TestReads(ts: Toks, i: nat, h: nat, f: string, negate: bool) returns (c: Cmp)
    requires Lower(f) != "not" && Stands(ts, h, FieldToks(f, negate)) && i == h + |FieldToks(f, negate)|
    requires TestAt(ts, i, f, negate).Ok?
    ensures IsCmp(c) && Stands(ts, h, CmpToks(c))
  {
    LowerIff(f, "not");
    if Keyword(At(ts, i), "between") {
      c := BetweenReads(ts, i, f, negate);
      TailStands(ts, h, f, negate, [Word("between"), Lit(c.lo), Word("and"), Lit(c.hi)]);
    } else if Keyword(At(ts, i), "in") {
      c := AmongReads(ts, i, f, negate);
      TailStands(ts, h, f, negate, [Word("in")] + ListToks(c.vs));
    } else if Keyword(At(ts, i), "like") {
      c := LikeReads(ts, i, f, negate);
      TailStands(ts, h, f, negate, [Word("like"), Exact(Str(c.p))]);
    } else {
      c := OpReads(ts, i, f, negate);
      TailStands(ts, h, f, negate, [Exact(Op(c.op)), Lit(c.v)]);
    }
  }

  lemma {:induction false} WordReads(ts: Toks, i: nat, name: string, f: string, lit: Pat)
    requires Stands(ts, i, CallToks(name, f)) && Takes(At(ts, i + 4), lit) && At(ts, i + 5) == RParen
    ensures Stands(ts, i, CallToks(name, f) + [lit, Exact(RParen)])
  {
    StandsTwo(ts, i + 4, lit, Exact(RParen));
    StandsBoth(ts, i, CallToks(name, f), [lit, Exact(RParen)]);
  }

  lemma {:induction false} ListCallReads(ts: Toks, i: nat, name: string, f: string)
    requires Stands(ts, i, CallToks(name, f)) && ListAt(ts, i + 4).Ok? && At(ts, ListAt(ts, i + 4).pos) == RParen
    ensures Stands(ts, i, CallToks(name, f) + (ListToks(ListAt(ts, i + 4).value) + [Exact(RParen)]))
  {
    var list := ListToks(ListAt(ts, i + 4).value);
    ListReads(ts, i + 4);
    StandsOne(ts, i + 4 + |list|, Exact(RParen));
    StandsBoth(ts, i + 4, list, [Exact(RParen)]);
    StandsBoth(ts, i, CallToks(name, f), list + [Exact(RParen)]);
  }

  lemma {:induction false} CallReads(ts: Toks, i: nat) returns (c: Cmp)
    requires i < |ts| && ts[i].Ident? && IsCall(ts[i].text) && At(ts, i + 1) == LParen && CallAt(ts, i).Ok?
    ensures IsCmp(c) && Stands(ts, i, CmpToks(c))
  {
    var f, name := ts[i + 2].text, Lower(ts[i].text);
    CallStarts(ts, i, name, f);
    if name == "array_contains" || At(ts, i + 4).Ident? {
      c := WordCall(name, f, ValueAt(ts, i + 4).value);
      WordReads(ts, i, name, f, if name == "array_contains" then Lit(c.v) else WordLit(c.v));
    } else {
      c := ListCall(name, f, ListAt(ts, i + 4).value);
      ListCallReads(ts, i, name, f);
    }
  }

  ghost function WordCall(name: string, f: string, v: Value): (c: Cmp)
    requires IsCallName(name)
    ensures IsCmp(c) && (c.Contains? || c.ContainsAllFrom? || c.ContainsAnyFrom?) && c.v == v
    ensures CmpToks(c) == CallToks(name, f) + [if name == "array_contains" then Lit(v) else WordLit(v), Exact(RParen)]
  {
    if name == "array_contains" then Contains(f, v)
    else if name == "array_contains_all" then ContainsAllFrom(f, v)
    else ContainsAnyFrom(f, v)
  }

  ghost function ListCall(name: string, f: string, vs: seq<Value>): (c: Cmp)
    requires IsCallName(name) && name != "array_contains"
    ensures IsCmp(c) && CmpToks(c) == CallToks(name, f) + (ListToks(vs) + [Exact(RParen)])
  {
    if name == "array_contains_all" then ContainsAll(f, vs) else ContainsAny(f, vs)
  }

  lemma {:induction false} CmpReads(ts: Toks, i: nat) returns (c: Cmp)
    requires CmpAt(ts, i).Ok? && !Keyword(At(ts, i), "not")
    ensures ReadsCmp(ts, i, c)
  {
    if IsCall(ts[i].text) && At(ts, i + 1) == LParen {
      c := CallReads(ts, i);
    } else {
      var f, negate := ts[i].text, Keyword(At(ts, i + 1), "not");
      StandsOne(ts, i, Exact(Ident(f)));
      if negate {
        StandsTwo(ts, i, Exact(Ident(f)), Word("not"));
      }
      c := TestReads(ts, if negate then i + 2 else i + 1, i, f, negate);
    }
    CmpParses(ts, i, c);
  }

  lemma {:induction false} AndNodeAt(e: AndE, k: nat, i: nat)
    requires IsAnd(e) && i < k <= |e.factors|
    ensures AndNodes(e, k)[i] == UnaryNode(e.factors[i])
  {
    if i < k - 1 {
      AndNodeAt(e, k - 1, i);
    }
  }

  lemma {:induction false} OrNodeAt(e: OrE, k: nat, i: nat)
    requires IsOr(e) && i < k <= |e.terms|
    ensures OrNodes(e, k)[i] == TermNode(e, i)
  {
    if i < k - 1 {
      OrNodeAt(e, k - 1, i);
    }
  }

  /** The nodes of these factors. */
  ghost predicate FactorsAre(us: seq<Unary>, ns: seq<Node>) {
    |us| == |ns| && forall j | 0 <= j < |us| :: IsUnary(us[j]) && ns[j] == UnaryNode(us[j])
  }

  lemma {:induction false} FactorNodes(us: seq<Unary>, ns: seq<Node>)
    requires FactorsAre(us, ns) && us != []
    ensures IsAnd(AndE(us)) && AndNodes(AndE(us), |us|) == ns
  {
    forall j | 0 <= j < |us| ensures AndNodes(AndE(us), |us|)[j] == ns[j] {
      AndNodeAt(AndE(us), |us|, j);
    }
  }

  ghost predicate TermsAre(es: seq<AndE>, ns: seq<Node>) {
    |es| == |ns| && forall j | 0 <= j < |es| :: IsAnd(es[j]) && ns[j] == AndNode(AndNodes(es[j], |es[j].factors|))
  }

  lemma {:induction false} TermNodes(es: seq<AndE>, ns: seq<Node>)
    requires TermsAre(es, ns) && es != []
    ensures IsOr(OrE(es)) && OrNodes(OrE(es), |es|) == ns
  {
    forall j | 0 <= j < |es| ensures OrNodes(OrE(es), |es|)[j] == ns[j] {
      OrNodeAt(OrE(es), |es|, j);
    }
  }

  lemma {:induction false} UnaryReads(ts: Toks, i: nat) returns (u: Unary)
    requires UnaryAt(ts, i).Ok?
    ensures IsUnary(u) && Stands(ts, i, UnaryToks(u)) && UnaryAt(ts, i) == Ok(UnaryNode(u), i + |UnaryToks(u)|)
    decreases |ts| - i, 1
  {
    if Keyword(At(ts, i), "not") {
      var x := UnaryReads(ts, i + 1);
      NotStands(ts, i, x);
      u := NotU(x);
    } else if At(ts, i) == LParen {
      var e := OrReads(ts, i + 1);
      GroupStands(ts, i, e);
      u := Group(e);
    } else {
      var c := CmpReads(ts, i);
      u := Atom(c);
    }
  }

  /** From position i on, the factors of e behind the first ones are written, and parse to its node. */
  ghost predicate ReadsFactors(ts: Toks, i: nat, us: seq<Unary>, ns: seq<Node>, e: AndE) {
    && i <= |ts| && us <= e.factors && IsAnd(e) && Stands(ts, i, AndToks(e, |us|))
    && AndRestAt(ts, i, ns) == Ok(AndNode(AndNodes(e, |e.factors|)), i + |AndToks(e, |us|)|)
  }

  lemma {:induction false} FactorJoins(ts: Toks, i: nat, us: seq<Unary>, u: Unary, ns: seq<Node>, n: Node, j: nat, e: AndE)
    requires i <= |ts| && us != [] && Keyword(At(ts, i), "and") && UnaryAt(ts, i + 1) == Ok(n, j)
    requires Stands(ts, i + 1, UnaryToks(u)) && j == i + 1 + |UnaryToks(u)| && ReadsFactors(ts, j, us + [u], ns + [n], e)
    ensures ReadsFactors(ts, i, us, ns, e)
  {
    Grown(us, u, e.factors);
    assert |us + [u]| == |us| + 1;
    AndJoins(ts, i, e, |us|, j);
    AndRestNext(ts, i, ns, n, j);
  }

  lemma {:induction false} AndJoins(ts: Toks, i: nat, e: AndE, k: nat, j: nat)
    requires 1 <= k < |e.factors| && Keyword(At(ts, i), "and") && Stands(ts, i + 1, UnaryToks(e.factors[k]))
    requires j == i + 1 + |UnaryToks(e.factors[k])| && Stands(ts, j, AndToks(e, k + 1))
    ensures Stands(ts, i, AndToks(e, k)) && i + |AndToks(e, k)| == j + |AndToks(e, k + 1)|
  {
    var _ := AndStep(ts, i, e, k);
  }

  lemma {:induction false} AndReads(ts: Toks, i: nat) returns (e: AndE)
    requires AndAt(ts, i).Ok?
    ensures IsAnd(e) && Stands(ts, i, AndToks(e, 0)) && AndAt(ts, i) == Ok(AndNode(AndNodes(e, |e.factors|)), i + |AndToks(e, 0)|)
    decreases |ts| - i, 2
  {
    var first := UnaryAt(ts, i);
    var u := UnaryReads(ts, i);
    e := AndRestReads(ts, first.pos, [u], [first.value]);
    assert e.factors[0] == [u][0];
    var _ := AndFirst(ts, i, e);
  }

  lemma {:induction false} AndRestReads(ts: Toks, i: nat, us: seq<Unary>, ns: seq<Node>) returns (e: AndE)
    requires i <= |ts| && AndRestAt(ts, i, ns).Ok? && us != [] && FactorsAre(us, ns)
    ensures ReadsFactors(ts, i, us, ns, e)
    decreases |ts| - i, 3
  {
    if Keyword(At(ts, i), "and") {
      var next := UnaryAt(ts, i + 1);
      var u := UnaryReads(ts, i + 1);
      e := AndRestReads(ts, next.pos, us + [u], ns + [next.value]);
      FactorJoins(ts, i, us, u, ns, next.value, next.pos, e);
    } else {
      e := AndE(us);
      FactorNodes(us, ns);
      AndRestEnds(ts, i, ns);
    }
  }

  ghost predicate ReadsTerms(ts: Toks, i: nat, es: seq<AndE>, ns: seq<Node>, e: OrE) {
    && i <= |ts| && es <= e.terms && IsOr(e) && Stands(ts, i, OrToks(e, |es|))
    && OrRestAt(ts, i, ns) == Ok(NodeOf(e), i + |OrToks(e, |es|)|)
  }

  lemma {:induction false} TermJoins(ts: Toks, i: nat, es: seq<AndE>, a: AndE, ns: seq<Node>, n: Node, j: nat, e: OrE)
    requires i <= |ts| && es != [] && Keyword(At(ts, i), "or") && AndAt(ts, i + 1) == Ok(n, j)
    requires Stands(ts, i + 1, AndToks(a, 0)) && j == i + 1 + |AndToks(a, 0)| && ReadsTerms(ts, j, es + [a], ns + [n], e)
    ensures ReadsTerms(ts, i, es, ns, e)
  {
    Grown(es, a, e.terms);
    assert |es + [a]| == |es| + 1;
    OrJoins(ts, i, e, |es|, j);
    OrRestNext(ts, i, ns, n, j);
  }

  lemma {:induction false} OrJoins(ts: Toks, i: nat, e: OrE, k: nat, j: nat)
    requires 1 <= k < |e.terms| && Keyword(At(ts, i), "or") && Stands(ts, i + 1, AndToks(e.terms[k], 0))
    requires j == i + 1 + |AndToks(e.terms[k], 0)| && Stands(ts, j, OrToks(e, k + 1))
    ensures Stands(ts, i, OrToks(e, k)) && i + |OrToks(e, k)| == j + |OrToks(e, k + 1)|
  {
    var _ := OrStep(ts, i, e, k);
  }

  lemma {:induction false} Grown<T>(a: seq<T>, x: T, all: seq<T>)
    requires a + [x] <= all
    ensures a <= all && |a| < |all| && all[|a|] == x
  {
    assert all[|a|] == (a + [x])[|a|];
    assert all[..|a|] == (a + [x])[..|a|] == a;
  }

  lemma {:induction false} OrReads(ts: Toks, i: nat) returns (e: OrE)
    requires OrAt(ts, i).Ok?
    ensures IsOr(e) && Stands(ts, i, OrToks(e, 0)) && OrAt(ts, i) == Ok(NodeOf(e), i + |OrToks(e, 0)|)
    decreases |ts| - i, 4
  {
    var first := AndAt(ts, i);
    var a := AndReads(ts, i);
    e := OrRestReads(ts, first.pos, [a], [first.value]);
    assert e.terms[0] == [a][0];
    var _ := OrFirst(ts, i, e);
  }

  lemma {:induction false} OrRestReads(ts: Toks, i: nat, es: seq<AndE>, ns: seq<Node>) returns (e: OrE)
    requires i <= |ts| && OrRestAt(ts, i, ns).Ok? && es != [] && TermsAre(es, ns)
    ensures ReadsTerms(ts, i, es, ns, e)
    decreases |ts| - i, 5
  {
    if Keyword(At(ts, i), "or") {
      var next := AndAt(ts, i + 1);
      var a := AndReads(ts, i + 1);
      e := OrRestReads(ts, next.pos, es + [a], ns + [next.value]);
      TermJoins(ts, i, es, a, ns, next.value, next.pos, e);
    } else {
      e := OrE(es);
      TermNodes(es, ns);
      OrRestEnds(ts, i, ns);
    }
  }

  /** Whatever the parser accepts is an expression written down. */
  lemma {:induction false} ParseReads(ts: Toks) returns (e: OrE)
    requires Parse(ts).Ok?
    ensures IsOr(e) && Written(ts, e) && Parse(ts) == Ok(NodeOf(e), |OrToks(e, 0)|)
  {
    e := OrReads(ts, 0);
    WrittenStands(ts, e);
  }

  /** The parser accepts exactly the expressions. */
  lemma {:induction false} ParsesIffWritten(ts: Toks)
    ensures Parse(ts).Ok? <==> exists e :: IsOr(e) && Written(ts, e)
  {
    if Parse(ts).Ok? {
      var e := ParseReads(ts);
    }
    if e :| IsOr(e) && Written(ts, e) {
      ParseWritten(ts, e);
    }
  }

  /** No text can be read as two expressions that differ in their nodes. */
  lemma {:induction false} Unambiguous(ts: Toks, a: OrE, b: OrE)
    requires IsOr(a) && IsOr(b) && Written(ts, a) && Written(ts, b)
    ensures NodeOf(a) == NodeOf(b)
  {
    ParseWritten(ts, a);
    ParseWritten(ts, b);
  }
}
