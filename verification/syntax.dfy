/** The trees lang.py builds: `Fact` (lang.py:11-15) and `Expression` (lang.py:5-9),
    plus the right-hand side and statement that parse_assignment returns. Python's
    single `Fact` class with optional fields becomes one constructor per shape the
    parser fills in: an int value, a str value, a unary sign with an inner fact, or
    an Expression value. */
module Syntax {
  import opened Lexer

  datatype Fact =
    | Lit(value: nat)
    | Ident(name: string)
    | Unary(sign: char, inner: Fact)
    | Paren(exp: Expression)

  datatype Expression = Expression(left: Fact, op: char, right: Fact)

  /** parse_assignment returns either the Expression of parse_exp or the Fact of parse_fact. */
  datatype Rhs = ExpRhs(exp: Expression) | FactRhs(fact: Fact)

  datatype Statement = Assign(name: string, rhs: Rhs)

  predicate IsSign(c: char) {
    c == '+' || c == '-'
  }

  /** `[*+-]` */
  predicate IsOperator(c: char) {
    c == '*' || c == '+' || c == '-'
  }

  /** Every sign is `+`/`-` and every operator one of `*`, `+`, `-`. */
  predicate WellFormed(f: Fact) {
    match f
    case Lit(_) => true
    case Ident(_) => true
    case Unary(s, g) => IsSign(s) && WellFormed(g)
    case Paren(Expression(l, op, r)) => IsOperator(op) && WellFormed(l) && WellFormed(r)
  }

  /** The trees parse_fact can produce: well-formed, identifiers that match the
      identifier pattern, and no parenthesised group inside another one (`nested`
      says whether the fact sits inside a group already). */
  predicate Printable(f: Fact, nested: bool) {
    match f
    case Lit(_) => true
    case Ident(x) => IsIdentifier(x)
    case Unary(s, g) => IsSign(s) && Printable(g, nested)
    case Paren(Expression(l, op, r)) =>
      !nested && IsOperator(op) && Printable(l, true) && Printable(r, true)
  }

  predicate PrintableExp(e: Expression, nested: bool) {
    IsOperator(e.op) && Printable(e.left, nested) && Printable(e.right, nested)
  }

  predicate PrintableRhs(rhs: Rhs) {
    match rhs
    case ExpRhs(e) => PrintableExp(e, false)
    case FactRhs(f) => Printable(f, false)
  }

  predicate PrintableStatement(s: Statement) {
    IsIdentifier(s.name) && PrintableRhs(s.rhs)
  }

  /** Source text of a fact, written without spaces, the way the parser reads it. */
  function ShowFact(f: Fact): string {
    match f
    case Lit(v) => ShowNat(v)
    case Ident(x) => x
    case Unary(s, g) => [s] + ShowFact(g)
    case Paren(Expression(l, op, r)) => "(" + ShowFact(l) + [op] + ShowFact(r) + ")"
  }

  function ShowExp(e: Expression): string {
    ShowFact(e.left) + [e.op] + ShowFact(e.right)
  }

  function ShowRhs(rhs: Rhs): string {
    match rhs
    case ExpRhs(e) => ShowExp(e)
    case FactRhs(f) => ShowFact(f)
  }

  function ShowStatement(s: Statement): string {
    s.name + " = " + ShowRhs(s.rhs) + ";"
  }

  /** The characters a printed fact may contain: no newline anywhere, and no
      parenthesis at all inside a group. */
  lemma {:induction false} ShowFactChars(f: Fact, nested: bool)
    requires Printable(f, nested)
    ensures |ShowFact(f)| >= 1
    ensures '\n' !in ShowFact(f)
    ensures nested ==> ')' !in ShowFact(f) && '(' !in ShowFact(f)
  {
    match f
    case Lit(v) =>
      assert forall c | c in ShowNat(v) :: IsDigit(c);
    case Ident(x) =>
      assert forall c | c in x :: IsIdentChar(c);
    case Unary(s, g) =>
      ShowFactChars(g, nested);
    case Paren(Expression(l, op, r)) =>
      ShowFactChars(l, true);
      ShowFactChars(r, true);
  }

  /** The first character of a printed fact decides which branch of parse_fact reads it. */
  lemma ShowFactFirst(f: Fact, nested: bool)
    requires Printable(f, nested)
    ensures |ShowFact(f)| >= 1
    ensures f.Lit? <==> IsDigit(ShowFact(f)[0])
    ensures f.Ident? <==> IsIdentStart(ShowFact(f)[0])
    ensures f.Unary? <==> IsSign(ShowFact(f)[0])
    ensures f.Paren? <==> ShowFact(f)[0] == '('
  {
    ShowFactChars(f, nested);
  }

  /** The trees the parser can produce are well-formed. */
  lemma {:induction false} PrintableWellFormed(f: Fact, nested: bool)
    requires Printable(f, nested)
    ensures WellFormed(f)
  {
    match f
    case Lit(_) =>
    case Ident(_) =>
    case Unary(_, g) => PrintableWellFormed(g, nested);
    case Paren(Expression(l, _, r)) =>
      PrintableWellFormed(l, true);
      PrintableWellFormed(r, true);
  }
}
