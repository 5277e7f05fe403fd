/** The program loop of lang.py: each line is parsed as an assignment and its value
    is bound under the assigned identifier, in a map that starts empty. */
module Driver {
  import opened Results
  import opened Syntax
  import opened Parser
  import opened ParserProperties
  import opened Evaluator

  /** How a run stops early: a line that does not parse (the program prints
      "error" and exits with status 1), the IndexError of the parser, or an
      exception from resolve_fact. */
  datatype Failure =
    | SyntaxError
    | ParserCrash
    | EvalFailure(error: EvalError)

  /** A bare expression on the right-hand side is evaluated as a parenthesised fact. */
  function AsFact(rhs: Rhs): (f: Fact)
    ensures Names(f) == match rhs
      case ExpRhs(e) => Names(e.left) + Names(e.right)
      case FactRhs(g) => Names(g)
  {
    match rhs
    case ExpRhs(e) => Paren(e)
    case FactRhs(g) => g
  }

  /** What the parser returns as a right-hand side evaluates without the
      ValueError of resolve_fact. */
  lemma AsFactWellFormed(rhs: Rhs)
    requires PrintableRhs(rhs)
    ensures WellFormed(AsFact(rhs))
  {
    match rhs
    case ExpRhs(e) =>
      PrintableWellFormed(e.left, false);
      PrintableWellFormed(e.right, false);
    case FactRhs(g) =>
      PrintableWellFormed(g, false);
  }

  /** One line of the program: parse it, evaluate its right-hand side in the current
      bindings, and bind the value to the identifier it assigns. */
  function Step(env: Env, line: string): (r: Result<Env, Failure>)
    ensures r == Err(SyntaxError) <==> ParseAssignment(line).NoParse?
    ensures r == Err(ParserCrash) <==> ParseAssignment(line).Crash?
    ensures r.Ok? ==>
      && ParseAssignment(line).Parsed?
      && r.value.Keys == env.Keys + {ParseAssignment(line).value.name}
      && forall x | x in env && x != ParseAssignment(line).value.name :: r.value[x] == env[x]
  {
    match ParseAssignment(line)
    case NoParse => Err(SyntaxError)
    case Crash => Err(ParserCrash)
    case Parsed(s, _) =>
      match Resolve(env, AsFact(s.rhs))
      case Err(e) => Err(EvalFailure(e))
      case Ok(v) => Ok(env[s.name := v])
  }

  /** The identifiers a sequence of lines assigns, as far as they parse. */
  function Assigned(lines: seq<string>): set<string> {
    if |lines| == 0 then {}
    else
      (if ParseAssignment(lines[0]).Parsed? then {ParseAssignment(lines[0]).value.name} else {})
      + Assigned(lines[1..])
  }

  /** The loop over the program's lines, from the given bindings; the first failing
      line stops it. */
  function RunFrom(env: Env, lines: seq<string>): (r: Result<Env, Failure>)
    ensures r.Ok? ==> env.Keys <= r.value.Keys
    decreases |lines|
  {
    if |lines| == 0 then Ok(env)
    else
      match Step(env, lines[0])
      case Err(e) => Err(e)
      case Ok(next) => RunFrom(next, lines[1..])
  }

  /** lang.py's whole run: the loop from an empty map. */
  function Run(lines: seq<string>): (r: Result<Env, Failure>)
    ensures r.Ok? ==> r.value.Keys == Assigned(lines)
  {
    RunKeys(map[], lines);
    RunFrom(map[], lines)
  }

  /** A completed run binds exactly the identifiers it started with plus the ones
      its lines assign, and leaves every other binding alone. */
  lemma {:induction false} RunKeys(env: Env, lines: seq<string>)
    ensures RunFrom(env, lines).Ok? ==>
      && RunFrom(env, lines).value.Keys == env.Keys + Assigned(lines)
      && forall x | x in env && x !in Assigned(lines) :: RunFrom(env, lines).value[x] == env[x]
    decreases |lines|
  {
    if |lines| > 0 && Step(env, lines[0]).Ok? {
      RunKeys(Step(env, lines[0]).value, lines[1..]);
    }
  }

  /** Running two programs one after the other is running their concatenation. */
  lemma {:induction false} RunAppend(env: Env, a: seq<string>, b: seq<string>)
    ensures RunFrom(env, a + b) == match RunFrom(env, a)
      case Err(e) => Err(e)
      case Ok(next) => RunFrom(next, b)
    decreases |a|
  {
    if |a| == 0 {
      assert a + b == b;
    } else {
      assert (a + b)[0] == a[0];
      assert (a + b)[1..] == a[1..] + b;
      if Step(env, a[0]).Ok? {
        RunAppend(Step(env, a[0]).value, a[1..], b);
      }
    }
  }

  /** A line that begins with a printable statement's rendering binds the value of
      its right-hand side, or fails with a KeyError for the first unbound identifier
      on that side. */
  lemma StepRendered(env: Env, s: Statement, line: string)
    requires PrintableStatement(s) && StartsWith(line, ShowStatement(s))
    ensures Step(env, line).Ok? <==> FirstMissing(env, Names(AsFact(s.rhs))).None?
    ensures Step(env, line).Ok? ==>
      && Resolve(env, AsFact(s.rhs)).Ok?
      && Step(env, line).value == env[s.name := Resolve(env, AsFact(s.rhs)).value]
    ensures Step(env, line).Err? ==>
      && FirstMissing(env, Names(AsFact(s.rhs))).Some?
      && Step(env, line) == Err(EvalFailure(UndefinedVariable(FirstMissing(env, Names(AsFact(s.rhs))).value)))
  {
    AssignmentRoundTrip(s, line);
    StepParsed(env, line, s, |ShowStatement(s)|);
  }

  /** Whatever a parsed line assigns, the line binds the value of its right-hand
      side, or fails with a KeyError for the first unbound identifier on that side;
      this covers lines the printer never produces, such as `x = (1+2 ;)`. */
  lemma StepParsed(env: Env, line: string, s: Statement, n: nat)
    requires ParseAssignment(line) == Parsed(s, n)
    ensures Step(env, line).Ok? <==> FirstMissing(env, Names(AsFact(s.rhs))).None?
    ensures Step(env, line).Ok? ==>
      Step(env, line).value == env[s.name := Resolve(env, AsFact(s.rhs)).value]
    ensures Step(env, line).Err? ==>
      Step(env, line) == Err(EvalFailure(UndefinedVariable(FirstMissing(env, Names(AsFact(s.rhs))).value)))
  {
    ParseAssignmentSound(line, s, n);
    AsFactWellFormed(s.rhs);
    ResolveDefined(env, AsFact(s.rhs));
  }

  /** The ValueError of resolve_fact never escapes from a line: whatever the
      parser returns is well-formed. */
  lemma StepNeverImpossible(env: Env, line: string)
    ensures Step(env, line) != Err(EvalFailure(ImpossibleState))
  {
    if ParseAssignment(line).Parsed? {
      ParseAssignmentSound(line, ParseAssignment(line).value, ParseAssignment(line).length);
      AsFactWellFormed(ParseAssignment(line).value.rhs);
    }
  }
}
