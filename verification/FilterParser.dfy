/** The recursive-descent parser of include/filter/dsl_compiler.h, from tokens to filters. */
module FilterParser {

  import opened FilterExpr

  datatype Tok = End | Ident(text: string) | Num(n: nat) | Str(s: string) | LParen | RParen | LBrack | RBrack | Comma | Op(op: string)

  type Toks = seq<Tok>

  /** A value and the position behind it, or the parse error. */
  datatype Parsed<T> = Ok(value: T, pos: nat) | Err

  function At(ts: Toks, i: nat): Tok {
    if i < |ts| then ts[i] else End
  }

  function LowerChar(c: char): char {
    if 'A' <= c <= 'Z' then (c as int + 32) as char else c
  }

  function Lower(s: string): (r: string)
    ensures |r| == |s| && forall i | 0 <= i < |s| :: r[i] == LowerChar(s[i])
  {
    seq(|s|, i requires 0 <= i < |s| => LowerChar(s[i]))
  }

  predicate Keyword(t: Tok, kw: string) {
    t.Ident? && Lower(t.text) == kw
  }

  // ----- the nodes that the parser builds -----

  function FieldNode(name: string, c: Clause): Node {
    Node([Field(name, c)])
  }

  function NotNode(n: Node): Node {
    Node([Neg(n)])
  }

  function Negated(negate: bool, n: Node): Node {
    if negate then NotNode(n) else n
  }

  /** One node stands for itself, several are joined. */
  function OrNode(ns: seq<Node>): Node {
    if |ns| == 1 then ns[0] else Node([Disj(ns)])
  }

  function AndNode(ns: seq<Node>): Node {
    if |ns| == 1 then ns[0] else Node([Conj(ns)])
  }

  predicate AllNumeric(vs: seq<Value>) {
    forall i | 0 <= i < |vs| :: !vs[i].Quoted?
  }

  function EqNodes(name: string, vs: seq<Value>): (ns: seq<Node>)
    ensures |ns| == |vs| && forall i | 0 <= i < |vs| :: ns[i] == FieldNode(name, Is(vs[i]))
  {
    seq(|vs|, i requires 0 <= i < |vs| => FieldNode(name, Is(vs[i])))
  }

  /** A list without strings becomes a disjunction of equalities, any other list one condition. */
  function InNode(name: string, vs: seq<Value>): Node {
    if AllNumeric(vs) then OrNode(EqNodes(name, vs)) else FieldNode(name, In(vs))
  }

  predicate IsComparison(op: string) {
    op in ["=", "==", "!=", "<>", ">", ">=", "<", "<="]
  }

  function OpClause(op: string, v: Value): Clause
    requires IsComparison(op)
  {
    if op == "=" || op == "==" then Is(v)
    else if op == "!=" || op == "<>" then Ne(v)
    else Compare([(if op == ">" then Gt else if op == ">=" then Ge else if op == "<" then Lt else Le, v)])
  }

  // ----- parsing, by position -----

  datatype Option<T> = Some(value: T) | None

  /** The literal that a token stands for. */
  function Literal(t: Tok): Option<Value> {
    match t
    case Str(s) => Some(Quoted(s))
    case Num(n) => Some(Number(n))
    case Ident(text) =>
      if Lower(text) == "true" then Some(Number(1))
      else if Lower(text) == "false" then Some(Number(0))
      else if IsPlaceholder(Hole(text)) then Some(Hole(text))
      else None
    case _ => None
  }

  function ValueAt(ts: Toks, i: nat): (r: Parsed<Value>)
    ensures r.Ok? ==> r.pos == i + 1 <= |ts|
  {
    match Literal(At(ts, i))
    case Some(v) => Ok(v, i + 1)
    case None => Err
  }

  /** The values after the first, each behind a comma. */
  function MoreValuesAt(ts: Toks, i: nat, vs: seq<Value>): (r: Parsed<seq<Value>>)
    ensures r.Ok? ==> i <= r.pos <= |ts|
    decreases |ts| - i
  {
    if At(ts, i) != Comma then (if i <= |ts| then Ok(vs, i) else Err)
    else
      var v := ValueAt(ts, i + 1);
      if v.Err? then Err else MoreValuesAt(ts, v.pos, vs + [v.value])
  }

  /** A list in brackets, possibly empty. */
  function ListAt(ts: Toks, i: nat): (r: Parsed<seq<Value>>)
    ensures r.Ok? ==> i < r.pos <= |ts|
  {
    if At(ts, i) != LBrack then Err
    else if At(ts, i + 1) == RBrack then Ok([], i + 2)
    else
      var v := ValueAt(ts, i + 1);
      if v.Err? then Err
      else
        var r := MoreValuesAt(ts, v.pos, [v.value]);
        if r.Err? || At(ts, r.pos) != RBrack then Err else Ok(r.value, r.pos + 1)
  }

  predicate IsCall(text: string) {
    Lower(text) in ["array_contains", "array_contains_all", "array_contains_any"]
  }

  /** A function call: name, parenthesis, field, comma, argument, parenthesis. */
  function CallAt(ts: Toks, i: nat): (r: Parsed<Node>)
    requires i < |ts| && ts[i].Ident?
    ensures r.Ok? ==> i < r.pos <= |ts|
  {
    var f := Lower(ts[i].text);
    if !At(ts, i + 2).Ident? || At(ts, i + 3) != Comma then Err
    else
      var name := ts[i + 2].text;
      if f == "array_contains" then
        var v := ValueAt(ts, i + 4);
        if v.Err? || At(ts, v.pos) != RParen then Err else Ok(FieldNode(name, Is(v.value)), v.pos + 1)
      else if At(ts, i + 4).Ident? then
        var v := ValueAt(ts, i + 4);
        if v.Err? || At(ts, v.pos) != RParen then Err
        else Ok(FieldNode(name, if f == "array_contains_all" then AllFrom(v.value) else InFrom(v.value)), v.pos + 1)
      else
        var vs := ListAt(ts, i + 4);
        if vs.Err? || At(ts, vs.pos) != RParen then Err
        else Ok(FieldNode(name, if f == "array_contains_all" then All(vs.value) else In(vs.value)), vs.pos + 1)
  }

  /** A comparison: a field, perhaps NOT, and one of BETWEEN, IN, LIKE or an operator. */
  function CmpAt(ts: Toks, i: nat): (r: Parsed<Node>)
    ensures r.Ok? ==> i < r.pos <= |ts|
  {
    if !At(ts, i).Ident? then Err
    else if IsCall(ts[i].text) && At(ts, i + 1) == LParen then CallAt(ts, i)
    else
      var negate := Keyword(At(ts, i + 1), "not");
      TestAt(ts, if negate then i + 2 else i + 1, ts[i].text, negate)
  }

  function TestAt(ts: Toks, i: nat, name: string, negate: bool): (r: Parsed<Node>)
    ensures r.Ok? ==> i < r.pos <= |ts|
  {
    var t := At(ts, i);
    if Keyword(t, "between") then
      var lo := ValueAt(ts, i + 1);
      if lo.Err? || !Keyword(At(ts, i + 2), "and") then Err
      else
        var hi := ValueAt(ts, i + 3);
        if hi.Err? then Err
        else Ok(Negated(negate, FieldNode(name, Compare([(Ge, lo.value), (Le, hi.value)]))), hi.pos)
    else if Keyword(t, "in") then
      var vs := ListAt(ts, i + 1);
      if vs.Err? then Err else Ok(Negated(negate, InNode(name, vs.value)), vs.pos)
    else if Keyword(t, "like") then
      var v := ValueAt(ts, i + 1);
      if v.Err? || !v.value.Quoted? then Err
      else Ok(Negated(negate, FieldNode(name, LikeClause(v.value.s))), v.pos)
    else if !t.Op? then Err
    else
      var v := ValueAt(ts, i + 1);
      if v.Err? || !IsComparison(t.op) then Err
      else Ok(Negated(negate, FieldNode(name, OpClause(t.op, v.value))), v.pos)
  }

  function OrAt(ts: Toks, i: nat): (r: Parsed<Node>)
    ensures r.Ok? ==> i < r.pos <= |ts|
    decreases |ts| - i, 4
  {
    if i >= |ts| then Err
    else
      var first := AndAt(ts, i);
      if first.Err? then Err else OrRestAt(ts, first.pos, [first.value])
  }

  function OrRestAt(ts: Toks, i: nat, ns: seq<Node>): (r: Parsed<Node>)
    requires i <= |ts|
    ensures r.Ok? ==> i <= r.pos <= |ts|
    decreases |ts| - i, 5
  {
    if !Keyword(At(ts, i), "or") then Ok(OrNode(ns), i)
    else
      var next := AndAt(ts, i + 1);
      if next.Err? then Err else OrRestAt(ts, next.pos, ns + [next.value])
  }

  function AndAt(ts: Toks, i: nat): (r: Parsed<Node>)
    ensures r.Ok? ==> i < r.pos <= |ts|
    decreases |ts| - i, 2
  {
    if i >= |ts| then Err
    else
      var first := UnaryAt(ts, i);
      if first.Err? then Err else AndRestAt(ts, first.pos, [first.value])
  }

  function AndRestAt(ts: Toks, i: nat, ns: seq<Node>): (r: Parsed<Node>)
    requires i <= |ts|
    ensures r.Ok? ==> i <= r.pos <= |ts|
    decreases |ts| - i, 3
  {
    if !Keyword(At(ts, i), "and") then Ok(AndNode(ns), i)
    else
      var next := UnaryAt(ts, i + 1);
      if next.Err? then Err else AndRestAt(ts, next.pos, ns + [next.value])
  }

  function UnaryAt(ts: Toks, i: nat): (r: Parsed<Node>)
    ensures r.Ok? ==> i < r.pos <= |ts|
    decreases |ts| - i, 1
  {
    if Keyword(At(ts, i), "not") then
      var n := UnaryAt(ts, i + 1);
      if n.Err? then Err else Ok(NotNode(n.value), n.pos)
    else if At(ts, i) == LParen then
      var n := OrAt(ts, i + 1);
      if n.Err? || At(ts, n.pos) != RParen then Err else Ok(n.value, n.pos + 1)
    else CmpAt(ts, i)
  }

  /** The whole input. */
  function Parse(ts: Toks): Parsed<Node> {
    var r := OrAt(ts, 0);
    if r.Err? || At(ts, r.pos) != End then Err else r
  }

  // ----- the parser itself -----

  datatype Outcome<T> = Done(value: T) | Error

  /** The outcome and the position reached are those of the grammar. */
  ghost predicate Agree<T>(o: Outcome<T>, pos: nat, p: Parsed<T>) {
    match p
    case Ok(v, i) => o == Done(v) && pos == i
    case Err => o == Error
  }

  class SqlParser {
    const toks: Toks
    var pos: nat

    constructor (toks: Toks)
      ensures this.toks == toks && pos == 0
    {
      this.toks := toks;
      pos := 0;
    }

    function Tok(): Tok
      reads this
    {
      At(toks, pos)
    }

    method ParseValue() returns (r: Outcome<Value>)
      modifies this
      ensures Agree(r, pos, ValueAt(toks, old(pos)))
    {
      var v := ValueAt(toks, pos);
      if v.Err? {
        return Error;
      }
      pos := pos + 1;
      return Done(v.value);
    }

    /** Values behind commas, as long as there are commas. */
    method ParseMoreValues(first: seq<Value>) returns (r: Outcome<seq<Value>>)
      requires pos <= |toks|
      modifies this
      ensures Agree(r, pos, MoreValuesAt(toks, old(pos), first))
    {
      var vs := first;
      while Tok() == Comma
        invariant pos <= |toks| && MoreValuesAt(toks, pos, vs) == MoreValuesAt(toks, old(pos), first)
        decreases |toks| - pos
      {
        pos := pos + 1;
        var v := ParseValue();
        if v.Error? {
          return Error;
        }
        vs := vs + [v.value];
      }
      return Done(vs);
    }

    method ParseList() returns (r: Outcome<seq<Value>>)
      modifies this
      ensures Agree(r, pos, ListAt(toks, old(pos)))
    {
      if Tok() != LBrack {
        return Error;
      }
      pos := pos + 1;
      if Tok() == RBrack {
        pos := pos + 1;
        return Done([]);
      }
      var v := ParseValue();
      if v.Error? {
        return Error;
      }
      var vs := ParseMoreValues([v.value]);
      if vs.Error? || Tok() != RBrack {
        return Error;
      }
      pos := pos + 1;
      return Done(vs.value);
    }

    method ParseOr() returns (r: Outcome<Node>)
      modifies this
      ensures Agree(r, pos, OrAt(toks, old(pos)))
      decreases |toks| - pos, 4
    {
      if pos >= |toks| {
        return Error;
      }
      ghost var start := pos;
      var n := ParseAnd();
      if n.Error? {
        return Error;
      }
      var ns := [n.value];
      while Keyword(Tok(), "or")
        invariant start < pos <= |toks| && OrRestAt(toks, pos, ns) == OrAt(toks, start)
        decreases |toks| - pos
      {
        pos := pos + 1;
        n := ParseAnd();
        if n.Error? {
          return Error;
        }
        ns := ns + [n.value];
      }
      return Done(OrNode(ns));
    }

    method ParseAnd() returns (r: Outcome<Node>)
      modifies this
      ensures Agree(r, pos, AndAt(toks, old(pos)))
      decreases |toks| - pos, 2
    {
      if pos >= |toks| {
        return Error;
      }
      ghost var start := pos;
      var n := ParseUnary();
      if n.Error? {
        return Error;
      }
      var ns := [n.value];
      while Keyword(Tok(), "and")
        invariant start < pos <= |toks| && AndRestAt(toks, pos, ns) == AndAt(toks, start)
        decreases |toks| - pos
      {
        pos := pos + 1;
        n := ParseUnary();
        if n.Error? {
          return Error;
        }
        ns := ns + [n.value];
      }
      return Done(AndNode(ns));
    }

    method ParseUnary() returns (r: Outcome<Node>)
      modifies this
      ensures Agree(r, pos, UnaryAt(toks, old(pos)))
      decreases |toks| - pos, 1
    {
      if Keyword(Tok(), "not") {
        pos := pos + 1;
        var n := ParseUnary();
        if n.Error? {
          return Error;
        }
        return Done(NotNode(n.value));
      }
      if Tok() == LParen {
        pos := pos + 1;
        var n := ParseOr();
        if n.Error? || Tok() != RParen {
          return Error;
        }
        pos := pos + 1;
        return Done(n.value);
      }
      r := ParseCmp();
    }

    method ParseCmp() returns (r: Outcome<Node>)
      modifies this
      ensures Agree(r, pos, CmpAt(toks, old(pos)))
      decreases |toks| - pos, 0
    {
      if !Tok().Ident? {
        return Error;
      }
      var name := Tok().text;
      pos := pos + 1;
      if IsCall(name) && Tok() == LParen {
        r := ParseCall(Lower(name));
        return;
      }
      var negate := Keyword(Tok(), "not");
      if negate {
        pos := pos + 1;
      }
      r := ParseTest(name, negate);
    }

    /** From the parenthesis on. */
    method ParseCall(f: string) returns (r: Outcome<Node>)
      requires 0 < pos < |toks| && toks[pos - 1].Ident? && f == Lower(toks[pos - 1].text)
      modifies this
      ensures Agree(r, pos, CallAt(toks, old(pos) - 1))
    {
      pos := pos + 1;
      if !Tok().Ident? {
        return Error;
      }
      var name := Tok().text;
      pos := pos + 1;
      if Tok() != Comma {
        return Error;
      }
      pos := pos + 1;
      var c: Clause;
      if f == "array_contains" {
        var v := ParseValue();
        if v.Error? {
          return Error;
        }
        c := Is(v.value);
      } else if Tok().Ident? {
        var v := ParseValue();
        if v.Error? {
          return Error;
        }
        c := if f == "array_contains_all" then AllFrom(v.value) else InFrom(v.value);
      } else {
        var vs := ParseList();
        if vs.Error? {
          return Error;
        }
        c := if f == "array_contains_all" then All(vs.value) else In(vs.value);
      }
      if Tok() != RParen {
        return Error;
      }
      pos := pos + 1;
      return Done(FieldNode(name, c));
    }

    method ParseTest(name: string, negate: bool) returns (r: Outcome<Node>)
      modifies this
      ensures Agree(r, pos, TestAt(toks, old(pos), name, negate))
    {
      if Keyword(Tok(), "between") {
        pos := pos + 1;
        var lo := ParseValue();
        if lo.Error? || !Keyword(Tok(), "and") {
          return Error;
        }
        pos := pos + 1;
        var hi := ParseValue();
        if hi.Error? {
          return Error;
        }
        return Done(Negated(negate, FieldNode(name, Compare([(Ge, lo.value), (Le, hi.value)]))));
      }
      if Keyword(Tok(), "in") {
        pos := pos + 1;
        var vs := ParseList();
        if vs.Error? {
          return Error;
        }
        return Done(Negated(negate, InNode(name, vs.value)));
      }
      if Keyword(Tok(), "like") {
        pos := pos + 1;
        var v := ParseValue();
        if v.Error? || !v.value.Quoted? {
          return Error;
        }
        return Done(Negated(negate, FieldNode(name, LikeClause(v.value.s))));
      }
      if !Tok().Op? {
        return Error;
      }
      var op := Tok().op;
      pos := pos + 1;
      var v := ParseValue();
      if v.Error? || !IsComparison(op) {
        return Error;
      }
      return Done(Negated(negate, FieldNode(name, OpClause(op, v.value))));
    }
  }

  /** The whole input must be one expression. */
  method ParseFilter(toks: Toks) returns (r: Outcome<Node>)
    ensures match Parse(toks) case Ok(n, _) => r == Done(n) case Err => r == Error
  {
    var p := new SqlParser(toks);
    r := p.ParseOr();
    if r.Done? && p.Tok() != End {
      r := Error;
    }
  }
}
