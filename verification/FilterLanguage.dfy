/** The filter language of the dashboard: its recursive-descent parser, its grammar, and its meaning. */
module FilterLanguage {
  import opened Bytes

  datatype Regex = Regex(source: string, caseless: bool)

  datatype Token = Word(word: string) | Pattern(regex: Regex) | Literal(text: string) | Open | Close | Bad

  type Record = map<string, string>

  /** The regular expression engine. */
  type Engine = (Regex, string) -> bool

  const FIELDS: set<string> := {
    "account", "asn", "class", "gecos", "host", "ip", "mask", "nick", "org", "reason", "server", "user" }

  const AND: Token := Word("and")
  const OR: Token := Word("or")
  const NOT: Token := Word("not")

  // ------------------------------------------------------------ grammar

  datatype Disjunct = One(c: Conjunct) | Or(c: Conjunct, rest: Disjunct)
  datatype Conjunct = Single(a: Atom) | And(a: Atom, rest: Conjunct)
  datatype Atom =
    | Group(d: Disjunct)
    | Not(a: Atom)
    | Matches(field: string, regex: Regex)
    | Equals(field: string, text: string)

  predicate DisjunctOk(d: Disjunct) {
    match d
    case One(c) => ConjunctOk(c)
    case Or(c, rest) => ConjunctOk(c) && DisjunctOk(rest)
  }

  predicate ConjunctOk(c: Conjunct) {
    match c
    case Single(a) => AtomOk(a)
    case And(a, rest) => AtomOk(a) && ConjunctOk(rest)
  }

  predicate AtomOk(a: Atom) {
    match a
    case Group(d) => DisjunctOk(d)
    case Not(b) => AtomOk(b)
    case Matches(f, _) => f in FIELDS
    case Equals(f, _) => f in FIELDS
  }

  /** The tokens of a tree. */
  function DisjunctTokens(d: Disjunct): seq<Token> {
    match d
    case One(c) => ConjunctTokens(c)
    case Or(c, rest) => ConjunctTokens(c) + [OR] + DisjunctTokens(rest)
  }

  function ConjunctTokens(c: Conjunct): seq<Token> {
    match c
    case Single(a) => AtomTokens(a)
    case And(a, rest) => AtomTokens(a) + [AND] + ConjunctTokens(rest)
  }

  function AtomTokens(a: Atom): seq<Token> {
    match a
    case Group(d) => [Open] + DisjunctTokens(d) + [Close]
    case Not(b) => [NOT] + AtomTokens(b)
    case Matches(f, r) => [Word(f), Pattern(r)]
    case Equals(f, s) => [Word(f), Literal(s)]
  }

  function Field(x: Record, f: string): string {
    if f in x then x[f] else ""
  }

  /** The boolean meaning of a tree. */
  predicate DisjunctHolds(d: Disjunct, exec: Engine, x: Record) {
    match d
    case One(c) => ConjunctHolds(c, exec, x)
    case Or(c, rest) => ConjunctHolds(c, exec, x) || DisjunctHolds(rest, exec, x)
  }

  predicate ConjunctHolds(c: Conjunct, exec: Engine, x: Record) {
    match c
    case Single(a) => AtomHolds(a, exec, x)
    case And(a, rest) => AtomHolds(a, exec, x) && ConjunctHolds(rest, exec, x)
  }

  predicate AtomHolds(a: Atom, exec: Engine, x: Record) {
    match a
    case Group(d) => DisjunctHolds(d, exec, x)
    case Not(b) => !AtomHolds(b, exec, x)
    case Matches(f, r) => exec(r, Field(x, f))
    case Equals(f, s) => Field(x, f) == s
  }

  // ------------------------------------------------------------ parsing to trees

  datatype Parsed<T> = Failed | Parsed(tree: T, rest: seq<Token>)

  function ParseAtom(ts: seq<Token>): (r: Parsed<Atom>)
    ensures r.Parsed? ==> |r.rest| < |ts|
    decreases |ts|, 0
  {
    if ts == [] then Failed
    else if ts[0].Open? then
      var body := ParseDisjunct(ts[1..]);
      if body.Parsed? && body.rest != [] && body.rest[0].Close? then Parsed(Group(body.tree), body.rest[1..])
      else Failed
    else if ts[0] == NOT then
      var body := ParseAtom(ts[1..]);
      if body.Parsed? then Parsed(Not(body.tree), body.rest) else Failed
    else if ts[0].Word? && ts[0].word in FIELDS && |ts| > 1 then
      (if ts[1].Pattern? then Parsed(Matches(ts[0].word, ts[1].regex), ts[2..])
       else if ts[1].Literal? then Parsed(Equals(ts[0].word, ts[1].text), ts[2..])
       else Failed)
    else Failed
  }

  function ParseConjunct(ts: seq<Token>): (r: Parsed<Conjunct>)
    ensures r.Parsed? ==> |r.rest| < |ts|
    decreases |ts|, 1
  {
    var lhs := ParseAtom(ts);
    if lhs.Failed? then Failed
    else if lhs.rest != [] && lhs.rest[0] == AND then
      var rhs := ParseConjunct(lhs.rest[1..]);
      if rhs.Parsed? then Parsed(And(lhs.tree, rhs.tree), rhs.rest) else Failed
    else Parsed(Single(lhs.tree), lhs.rest)
  }

  function ParseDisjunct(ts: seq<Token>): (r: Parsed<Disjunct>)
    ensures r.Parsed? ==> |r.rest| < |ts|
    decreases |ts|, 2
  {
    var lhs := ParseConjunct(ts);
    if lhs.Failed? then Failed
    else if lhs.rest != [] && lhs.rest[0] == OR then
      var rhs := ParseDisjunct(lhs.rest[1..]);
      if rhs.Parsed? then Parsed(Or(lhs.tree, rhs.tree), rhs.rest) else Failed
    else Parsed(One(lhs.tree), lhs.rest)
  }

  // ------------------------------------------------------------ the parser as it runs

  type Filter = Record -> bool

  /** The lexer's tokens and the current one; `None` stands for an error raised. */
  class Parser {
    const tokens: seq<Token>
    const exec: Engine
    var pos: nat

    ghost predicate Valid()
      reads this
    {
      pos <= |tokens|
    }

    ghost function Rest(): seq<Token>
      reads this
      requires Valid()
    {
      tokens[pos..]
    }

    constructor (tokens: seq<Token>, exec: Engine)
      ensures Valid() && Rest() == tokens && this.exec == exec && this.tokens == tokens
    {
      this.tokens, this.exec, pos := tokens, exec, 0;
    }

    method Atom() returns (r: Option<Filter>)
      requires Valid()
      modifies this
      ensures Valid() && (r.Some? <==> ParseAtom(old(Rest())).Parsed?)
      ensures r.Some? ==> Rest() == ParseAtom(old(Rest())).rest
      ensures r.Some? ==> forall x :: r.value(x) == AtomHolds(ParseAtom(old(Rest())).tree, exec, x)
      decreases |tokens| - pos, 0
    {
      hide ParseConjunct, ParseDisjunct, ConjunctHolds, DisjunctHolds;
      ghost var ts := Rest();
      if pos == |tokens| {
        return None;
      }
      var token := tokens[pos];
      assert ts[0] == token && ts[1..] == tokens[pos + 1..];
      if token.Open? {
        pos := pos + 1;
        var body := Disjunct();
        if body.None? || pos == |tokens| || !tokens[pos].Close? {
          return None;
        }
        pos := pos + 1;
        return body;
      }
      if token == NOT {
        pos := pos + 1;
        var body := Atom();
        if body.None? {
          return None;
        }
        var b := body.value;
        return Some((x: Record) => !b(x));
      }
      if token.Word? && token.word in FIELDS {
        var field, ex := token.word, exec;
        pos := pos + 1;
        if pos < |tokens| {
          var next := tokens[pos];
          assert next == ts[1] && ts[2..] == tokens[pos + 1..];
          if next.Pattern? {
            var regex := next.regex;
            pos := pos + 1;
            return Some((x: Record) => ex(regex, Field(x, field)));
          } else if next.Literal? {
            var text := next.text;
            pos := pos + 1;
            return Some((x: Record) => Field(x, field) == text);
          }
        }
      }
      r := None;
    }

    method Conjunct() returns (r: Option<Filter>)
      requires Valid()
      modifies this
      ensures Valid() && (r.Some? <==> ParseConjunct(old(Rest())).Parsed?)
      ensures r.Some? ==> Rest() == ParseConjunct(old(Rest())).rest
      ensures r.Some? ==> forall x :: r.value(x) == ConjunctHolds(ParseConjunct(old(Rest())).tree, exec, x)
      decreases |tokens| - pos, 1
    {
      hide ParseAtom, ParseDisjunct, AtomHolds, DisjunctHolds;
      r := Atom();
      if r.Some? && pos < |tokens| && tokens[pos] == AND {
        var lhs := r.value;
        pos := pos + 1;
        r := Conjunct();
        if r.Some? {
          var rhs := r.value;
          r := Some((x: Record) => lhs(x) && rhs(x));
        }
      }
    }

    method Disjunct() returns (r: Option<Filter>)
      requires Valid()
      modifies this
      ensures Valid() && (r.Some? <==> ParseDisjunct(old(Rest())).Parsed?)
      ensures r.Some? ==> Rest() == ParseDisjunct(old(Rest())).rest
      ensures r.Some? ==> forall x :: r.value(x) == DisjunctHolds(ParseDisjunct(old(Rest())).tree, exec, x)
      decreases |tokens| - pos, 2
    {
      hide ParseAtom, ParseConjunct, AtomHolds, ConjunctHolds;
      r := Conjunct();
      if r.Some? && pos < |tokens| && tokens[pos] == OR {
        var lhs := r.value;
        pos := pos + 1;
        r := Disjunct();
        if r.Some? {
          var rhs := r.value;
          r := Some((x: Record) => lhs(x) || rhs(x));
        }
      }
    }
  }

  /** The whole input: accepted exactly when it is the tokens of some tree, and then with that tree's meaning. */
  method Compile(tokens: seq<Token>, exec: Engine) returns (r: Option<Filter>)
    ensures r.Some? <==> exists d :: DisjunctOk(d) && DisjunctTokens(d) == tokens
    ensures r.Some? ==>
      forall d, x :: DisjunctOk(d) && DisjunctTokens(d) == tokens ==> r.value(x) == DisjunctHolds(d, exec, x)
  {
    var p := new Parser(tokens, exec);
    r := p.Disjunct();
    if p.pos < |tokens| {
      r := None;
    }
    Accepts(tokens);
  }

  // ------------------------------------------------------------ the parser against the grammar

  lemma {:induction false} AtomSound(ts: seq<Token>)
    ensures var r := ParseAtom(ts); r.Parsed? ==> AtomOk(r.tree) && AtomTokens(r.tree) + r.rest == ts
    decreases |ts|, 0
  {
    if ts != [] {
      if ts[0].Open? {
        var body := ParseDisjunct(ts[1..]);
        DisjunctSound(ts[1..]);
        if body.Parsed? && body.rest != [] && body.rest[0].Close? {
          assert body.rest == [Close] + body.rest[1..];
          assert [Open] + DisjunctTokens(body.tree) + [Close] + body.rest[1..] ==
            [Open] + (DisjunctTokens(body.tree) + body.rest);
        }
      } else if ts[0] == NOT {
        AtomSound(ts[1..]);
        var body := ParseAtom(ts[1..]);
        if body.Parsed? {
          assert [NOT] + AtomTokens(body.tree) + body.rest == [NOT] + (AtomTokens(body.tree) + body.rest);
        }
      }
    }
  }

  lemma {:induction false} ConjunctSound(ts: seq<Token>)
    ensures var r := ParseConjunct(ts); r.Parsed? ==> ConjunctOk(r.tree) && ConjunctTokens(r.tree) + r.rest == ts
    decreases |ts|, 1
  {
    AtomSound(ts);
    var lhs := ParseAtom(ts);
    if lhs.Parsed? && lhs.rest != [] && lhs.rest[0] == AND {
      var rhs := ParseConjunct(lhs.rest[1..]);
      ConjunctSound(lhs.rest[1..]);
      if rhs.Parsed? {
        Split3(AtomTokens(lhs.tree), AND, ConjunctTokens(rhs.tree), rhs.rest, lhs.rest);
      }
    }
  }

  lemma {:induction false} DisjunctSound(ts: seq<Token>)
    ensures var r := ParseDisjunct(ts); r.Parsed? ==> DisjunctOk(r.tree) && DisjunctTokens(r.tree) + r.rest == ts
    decreases |ts|, 2
  {
    ConjunctSound(ts);
    var lhs := ParseConjunct(ts);
    if lhs.Parsed? && lhs.rest != [] && lhs.rest[0] == OR {
      var rhs := ParseDisjunct(lhs.rest[1..]);
      DisjunctSound(lhs.rest[1..]);
      if rhs.Parsed? {
        Split3(ConjunctTokens(lhs.tree), OR, DisjunctTokens(rhs.tree), rhs.rest, lhs.rest);
      }
    }
  }

  lemma Split3(a: seq<Token>, t: Token, b: seq<Token>, rest: seq<Token>, after: seq<Token>)
    requires after != [] && after[0] == t && after[1..] == b + rest
    ensures a + [t] + b + rest == a + after
  {
    assert after == [t] + (b + rest);
  }

  predicate StartsWith(ts: seq<Token>, t: Token) {
    ts != [] && ts[0] == t
  }

  lemma {:induction false} AtomComplete(a: Atom, rest: seq<Token>)
    requires AtomOk(a)
    ensures ParseAtom(AtomTokens(a) + rest) == Parsed(a, rest)
    decreases a, 0
  {
    hide ParseConjunct, ParseDisjunct, ConjunctTokens, DisjunctTokens, ConjunctOk, DisjunctOk;
    var ts := AtomTokens(a) + rest;
    match a
    case Group(d) =>
      DisjunctComplete(d, [Close] + rest);
      assert ts[1..] == DisjunctTokens(d) + ([Close] + rest);
      assert ([Close] + rest)[1..] == rest;
    case Not(b) =>
      AtomComplete(b, rest);
      assert ts[1..] == AtomTokens(b) + rest;
    case Matches(f, r) =>
      FieldsAreNotKeywords(f);
      assert ts[2..] == rest;
    case Equals(f, s) =>
      FieldsAreNotKeywords(f);
      assert ts[2..] == rest;
  }

  /** The words that can be tested. */
  lemma FieldTests(f: string, regex: Regex, text: string)
    ensures (ParseAtom([Word(f), Pattern(regex)]) == Parsed(Matches(f, regex), []) <==>
            f in ["account", "asn", "class", "gecos", "host", "ip", "mask", "nick", "org", "reason", "server", "user"])
    ensures ParseAtom([Word(f), Literal(text)]).Parsed? <==> ParseAtom([Word(f), Pattern(regex)]).Parsed?
  {
    assert f in FIELDS ==> Word(f) != NOT;
  }

  lemma FieldsAreNotKeywords(f: string)
    requires f in FIELDS
    ensures f != "not" && f != "and" && f != "or"
  {
  }

  lemma {:induction false} ConjunctComplete(c: Conjunct, rest: seq<Token>)
    requires ConjunctOk(c) && !StartsWith(rest, AND)
    ensures ParseConjunct(ConjunctTokens(c) + rest) == Parsed(c, rest)
    decreases c, 1
  {
    hide ParseAtom, ParseDisjunct, AtomTokens, DisjunctTokens, AtomOk, DisjunctOk;
    match c
    case Single(a) =>
      AtomComplete(a, rest);
    case And(a, more) =>
      ConjunctComplete(more, rest);
      var after := [AND] + (ConjunctTokens(more) + rest);
      AtomComplete(a, after);
      assert ConjunctTokens(c) + rest == AtomTokens(a) + after;
      assert after[1..] == ConjunctTokens(more) + rest;
  }

  lemma {:induction false} DisjunctComplete(d: Disjunct, rest: seq<Token>)
    requires DisjunctOk(d) && !StartsWith(rest, AND) && !StartsWith(rest, OR)
    ensures ParseDisjunct(DisjunctTokens(d) + rest) == Parsed(d, rest)
    decreases d, 2
  {
    hide ParseAtom, ParseConjunct, AtomTokens, ConjunctTokens, AtomOk, ConjunctOk;
    match d
    case One(c) =>
      ConjunctComplete(c, rest);
    case Or(c, more) =>
      DisjunctComplete(more, rest);
      var after := [OR] + (DisjunctTokens(more) + rest);
      ConjunctComplete(c, after);
      assert DisjunctTokens(d) + rest == ConjunctTokens(c) + after;
      assert after[1..] == DisjunctTokens(more) + rest;
  }

  /** The parser accepts exactly the token lists of the grammar, each with its one tree. */
  lemma Accepts(tokens: seq<Token>)
    ensures var r := ParseDisjunct(tokens);
      && ((r.Parsed? && r.rest == []) <==> exists d :: DisjunctOk(d) && DisjunctTokens(d) == tokens)
      && (forall d :: DisjunctOk(d) && DisjunctTokens(d) == tokens ==> r == Parsed(d, []))
  {
    var r := ParseDisjunct(tokens);
    DisjunctSound(tokens);
    if r.Parsed? && r.rest == [] {
      assert DisjunctTokens(r.tree) + [] == DisjunctTokens(r.tree);
    }
    forall d | DisjunctOk(d) && DisjunctTokens(d) == tokens ensures r == Parsed(d, []) {
      DisjunctComplete(d, []);
      assert DisjunctTokens(d) + [] == DisjunctTokens(d);
    }
  }

  // ------------------------------------------------------------ printing

  datatype Expr =
    | Either(l: Expr, r: Expr)
    | Both(l: Expr, r: Expr)
    | Negated(e: Expr)
    | Match(field: string, regex: Regex)
    | Equal(field: string, text: string)

  predicate ExprOk(e: Expr) {
    match e
    case Either(l, r) => ExprOk(l) && ExprOk(r)
    case Both(l, r) => ExprOk(l) && ExprOk(r)
    case Negated(b) => ExprOk(b)
    case Match(f, _) => f in FIELDS
    case Equal(f, _) => f in FIELDS
  }

  /** The meaning of an expression: a field that a record lacks is like an empty one. */
  predicate Holds(e: Expr, exec: Engine, x: Record) {
    match e
    case Either(l, r) => Holds(l, exec, x) || Holds(r, exec, x)
    case Both(l, r) => Holds(l, exec, x) && Holds(r, exec, x)
    case Negated(b) => !Holds(b, exec, x)
    case Match(f, re) => if f in x then exec(re, x[f]) else exec(re, "")
    case Equal(f, s) => if f in x then x[f] == s else s == ""
  }

  /** Parentheses only where a looser operator stands inside a tighter one: level 0 is `or`, 1 is `and`, 2 is `not`. */
  function Print(e: Expr, level: nat): seq<Token>
    decreases e, 1
  {
    var bare := PrintBare(e);
    if (e.Either? && level > 0) || (e.Both? && level > 1) then [Open] + bare + [Close] else bare
  }

  function PrintBare(e: Expr): seq<Token>
    decreases e, 0
  {
    match e
    case Either(l, r) => Print(l, 0) + [Word("or")] + Print(r, 0)
    case Both(l, r) => Print(l, 1) + [Word("and")] + Print(r, 1)
    case Negated(b) => [Word("not")] + Print(b, 2)
    case Match(f, re) => [Word(f), Pattern(re)]
    case Equal(f, s) => [Word(f), Literal(s)]
  }

  function Chain(a: Disjunct, b: Disjunct): Disjunct {
    match a
    case One(c) => Or(c, b)
    case Or(c, rest) => Or(c, Chain(rest, b))
  }

  function Join(a: Conjunct, b: Conjunct): Conjunct {
    match a
    case Single(t) => And(t, b)
    case And(t, rest) => And(t, Join(rest, b))
  }

  /** The trees the parser finds in printed expressions: operators lean to the right, whatever the expression does. */
  function ToDisjunct(e: Expr): Disjunct
    decreases e, 2
  {
    if e.Either? then Chain(ToDisjunct(e.l), ToDisjunct(e.r)) else One(ToConjunct(e))
  }

  function ToConjunct(e: Expr): Conjunct
    decreases e, 1
  {
    match e
    case Both(l, r) => Join(ToConjunct(l), ToConjunct(r))
    case Either(l, r) => Single(Group(Chain(ToDisjunct(l), ToDisjunct(r))))
    case _ => Single(ToAtom(e))
  }

  function ToAtom(e: Expr): Atom
    decreases e, 0
  {
    match e
    case Either(l, r) => Group(Chain(ToDisjunct(l), ToDisjunct(r)))
    case Both(l, r) => Group(One(Join(ToConjunct(l), ToConjunct(r))))
    case Negated(b) => Not(ToAtom(b))
    case Match(f, re) => Matches(f, re)
    case Equal(f, s) => Equals(f, s)
  }

  lemma {:induction false} ChainIs(a: Disjunct, b: Disjunct)
    ensures DisjunctTokens(Chain(a, b)) == DisjunctTokens(a) + [OR] + DisjunctTokens(b)
    ensures DisjunctOk(Chain(a, b)) <==> DisjunctOk(a) && DisjunctOk(b)
    ensures forall exec, x ::
      DisjunctHolds(Chain(a, b), exec, x) <==> DisjunctHolds(a, exec, x) || DisjunctHolds(b, exec, x)
  {
    if a.Or? {
      ChainIs(a.rest, b);
      var t, u, v := ConjunctTokens(a.c), DisjunctTokens(a.rest), DisjunctTokens(b);
      assert t + [OR] + (u + [OR] + v) == (t + [OR] + u) + [OR] + v;
    }
  }

  lemma {:induction false} JoinIs(a: Conjunct, b: Conjunct)
    ensures ConjunctTokens(Join(a, b)) == ConjunctTokens(a) + [AND] + ConjunctTokens(b)
    ensures ConjunctOk(Join(a, b)) <==> ConjunctOk(a) && ConjunctOk(b)
    ensures forall exec, x ::
      ConjunctHolds(Join(a, b), exec, x) <==> ConjunctHolds(a, exec, x) && ConjunctHolds(b, exec, x)
  {
    if a.And? {
      JoinIs(a.rest, b);
      var t, u, v := AtomTokens(a.a), ConjunctTokens(a.rest), ConjunctTokens(b);
      assert t + [AND] + (u + [AND] + v) == (t + [AND] + u) + [AND] + v;
    }
  }

  lemma {:induction false} TreesOf(e: Expr)
    requires ExprOk(e)
    ensures DisjunctTokens(ToDisjunct(e)) == Print(e, 0) && DisjunctOk(ToDisjunct(e))
    ensures ConjunctTokens(ToConjunct(e)) == Print(e, 1) && ConjunctOk(ToConjunct(e))
    ensures AtomTokens(ToAtom(e)) == Print(e, 2) && AtomOk(ToAtom(e))
  {
    match e
    case Either(l, r) =>
      TreesOf(l);
      TreesOf(r);
      ChainIs(ToDisjunct(l), ToDisjunct(r));
    case Both(l, r) =>
      TreesOf(l);
      TreesOf(r);
      JoinIs(ToConjunct(l), ToConjunct(r));
    case Negated(b) =>
      TreesOf(b);
      AtomTree(e);
    case _ =>
      AtomTree(e);
  }

  lemma AtomTree(e: Expr)
    requires !e.Either? && !e.Both?
    ensures ToDisjunct(e) == One(Single(ToAtom(e))) && ToConjunct(e) == Single(ToAtom(e))
    ensures DisjunctTokens(ToDisjunct(e)) == AtomTokens(ToAtom(e)) == ConjunctTokens(ToConjunct(e))
    ensures DisjunctOk(ToDisjunct(e)) == AtomOk(ToAtom(e)) == ConjunctOk(ToConjunct(e))
    ensures Print(e, 0) == Print(e, 1) == Print(e, 2) == PrintBare(e)
    ensures forall exec, x :: DisjunctHolds(ToDisjunct(e), exec, x) == AtomHolds(ToAtom(e), exec, x)
    ensures forall exec, x :: ConjunctHolds(ToConjunct(e), exec, x) == AtomHolds(ToAtom(e), exec, x)
  {
  }

  lemma {:induction false} TreesMean(e: Expr, exec: Engine, x: Record)
    ensures DisjunctHolds(ToDisjunct(e), exec, x) == Holds(e, exec, x)
    ensures ConjunctHolds(ToConjunct(e), exec, x) == Holds(e, exec, x)
    ensures AtomHolds(ToAtom(e), exec, x) == Holds(e, exec, x)
  {
    match e
    case Either(l, r) =>
      TreesMean(l, exec, x);
      TreesMean(r, exec, x);
      ChainIs(ToDisjunct(l), ToDisjunct(r));
    case Both(l, r) =>
      TreesMean(l, exec, x);
      TreesMean(r, exec, x);
      JoinIs(ToConjunct(l), ToConjunct(r));
    case Negated(b) =>
      TreesMean(b, exec, x);
      AtomTree(e);
    case _ =>
      AtomTree(e);
  }

  /** Every expression, printed with precedence-based parentheses and compiled, gives a filter with its meaning. */
  method PrintThenCompile(e: Expr, exec: Engine) returns (r: Option<Filter>)
    requires ExprOk(e)
    ensures r.Some? && forall x :: r.value(x) == Holds(e, exec, x)
  {
    TreesOf(e);
    r := Compile(Print(e, 0), exec);
    forall x ensures r.value(x) == Holds(e, exec, x) {
      TreesMean(e, exec, x);
    }
  }
}
