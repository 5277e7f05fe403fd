/** resolve_fact of lang.py: the value of a fact under a map from identifiers to
    integers. Python integers are unbounded, as Dafny's `int` is. */
module Evaluator {
  import opened Results
  import opened Syntax

  /** What escapes from resolve_fact: the KeyError of a lookup of an unbound
      identifier, or the ValueError raised for an operator outside `*`, `+`, `-`. */
  datatype EvalError =
    | UndefinedVariable(name: string)
    | ImpossibleState

  type Env = map<string, int>

  /** The identifiers of a fact in the order resolve_fact looks them up. */
  function Names(f: Fact): seq<string> {
    match f
    case Lit(_) => []
    case Ident(x) => [x]
    case Unary(_, g) => Names(g)
    case Paren(Expression(l, _, r)) => Names(l) + Names(r)
  }

  /** The first of `names` that `env` does not bind. */
  function FirstMissing(env: Env, names: seq<string>): (r: Option<string>)
    ensures r.None? <==> forall i | 0 <= i < |names| :: names[i] in env
    ensures r.Some? ==> r.value in names && r.value !in env
  {
    if |names| == 0 then None
    else if names[0] !in env then Some(names[0])
    else FirstMissing(env, names[1..])
  }

  /** resolve_fact: a literal is its value, an identifier is looked up, `-` negates
      and any other sign leaves the value alone, and a group evaluates its left
      operand, then its right one, then applies the operator. */
  function Resolve(env: Env, f: Fact): (r: Result<int, EvalError>)
    ensures r.Err? && r.error.UndefinedVariable? ==>
      r.error.name in Names(f) && r.error.name !in env
    ensures r.Err? && r.error.ImpossibleState? ==> !WellFormed(f)
  {
    match f
    case Lit(v) => Ok(v)
    case Ident(x) => if x in env then Ok(env[x]) else Err(UndefinedVariable(x))
    case Unary(s, g) =>
      (match Resolve(env, g)
       case Err(e) => Err(e)
       case Ok(v) => if s == '-' then Ok(-v) else Ok(v))
    case Paren(Expression(l, op, r)) =>
      match Resolve(env, l)
      case Err(e) => Err(e)
      case Ok(a) =>
        match Resolve(env, r)
        case Err(e) => Err(e)
        case Ok(b) =>
          if op == '-' then Ok(a - b)
          else if op == '+' then Ok(a + b)
          else if op == '*' then Ok(a * b)
          else Err(ImpossibleState)
  }

  lemma {:induction false} FirstMissingAppend(env: Env, a: seq<string>, b: seq<string>)
    ensures FirstMissing(env, a + b)
      == if FirstMissing(env, a).Some? then FirstMissing(env, a) else FirstMissing(env, b)
  {
    if |a| > 0 {
      assert (a + b)[1..] == a[1..] + b;
      FirstMissingAppend(env, a[1..], b);
    } else {
      assert a + b == b;
    }
  }

  /** A well-formed fact evaluates exactly when every identifier in it is bound,
      and otherwise fails with a KeyError for the first unbound one it meets. */
  lemma {:induction false} ResolveDefined(env: Env, f: Fact)
    requires WellFormed(f)
    ensures Resolve(env, f).Ok? <==> FirstMissing(env, Names(f)).None?
    ensures Resolve(env, f).Err? ==>
      Resolve(env, f) == Err(UndefinedVariable(FirstMissing(env, Names(f)).value))
  {
    match f
    case Lit(_) =>
    case Ident(x) =>
    case Unary(_, g) =>
      ResolveDefined(env, g);
    case Paren(Expression(l, _, r)) =>
      ResolveDefined(env, l);
      ResolveDefined(env, r);
      FirstMissingAppend(env, Names(l), Names(r));
  }

  /** Only the identifiers of a fact matter: two maps that agree on them give the
      same outcome. */
  lemma {:induction false} ResolveFrame(env1: Env, env2: Env, f: Fact)
    requires forall x | x in Names(f) :: (x in env1 <==> x in env2)
    requires forall x | x in Names(f) && x in env1 :: env1[x] == env2[x]
    ensures Resolve(env1, f) == Resolve(env2, f)
  {
    match f
    case Lit(_) =>
    case Ident(x) =>
      assert x in Names(f);
    case Unary(_, g) =>
      ResolveFrame(env1, env2, g);
    case Paren(Expression(l, _, r)) =>
      ResolveFrame(env1, env2, l);
      ResolveFrame(env1, env2, r);
  }

  /** The "impossible state" of resolve_fact is unreachable for facts the parser
      returns. */
  lemma ParsedNeverImpossible(env: Env, f: Fact, nested: bool)
    requires Printable(f, nested)
    ensures Resolve(env, f) != Err(ImpossibleState)
  {
    PrintableWellFormed(f, nested);
  }
}
