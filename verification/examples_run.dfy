/** Whole runs of the program loop on concrete lines, among them the sample program
    that lang.py carries. */
module ProgramExamples {
  import opened Results
  import opened Lexer
  import opened Syntax
  import opened Evaluator
  import opened Driver
  import opened ParserExamples

  /** `(x+y)` */
  function SumXY(): Fact {
    Paren(Expression(Ident("x"), '+', Ident("y")))
  }

  /** `(x+-y)` */
  function DiffXY(): Fact {
    Paren(Expression(Ident("x"), '+', Unary('-', Ident("y"))))
  }

  /** `z = ---(x+y)*(x+-y);` as the parser reads it. */
  function SampleZ(): Statement {
    Assign("z", ExpRhs(Expression(Unary('-', Unary('-', Unary('-', SumXY()))), '*', DiffXY())))
  }

  lemma SampleZRendering()
    ensures PrintableStatement(SampleZ())
    ensures ShowStatement(SampleZ()) == "z = ---(x+y)*(x+-y);"
  {
    assert IsIdentifier("x") && IsIdentifier("y") && IsIdentifier("z");
    assert ShowFact(SumXY()) == "(x+y)";
    assert ShowFact(DiffXY()) == "(x+-y)";
  }

  lemma LiteralStatement(name: string, v: nat, line: string)
    requires IsIdentifier(name)
    requires line == name + " = " + ShowNat(v) + ";"
    ensures PrintableStatement(Assign(name, FactRhs(Lit(v))))
    ensures ShowStatement(Assign(name, FactRhs(Lit(v)))) == line
  {
  }

  /** A line `name = v;` binds `v` under `name`, whatever was bound before. */
  lemma LiteralStep(env: Env, name: string, v: nat, line: string)
    requires IsIdentifier(name)
    requires line == name + " = " + ShowNat(v) + ";"
    ensures Step(env, line) == Ok(env[name := v])
  {
    LiteralStatement(name, v, line);
    StepRendered(env, Assign(name, FactRhs(Lit(v))), line);
  }

  /** One successful line, then the rest of the program. */
  lemma RunStep(env: Env, lines: seq<string>, next: Env)
    requires |lines| > 0 && Step(env, lines[0]) == Ok(next)
    ensures RunFrom(env, lines) == RunFrom(next, lines[1..])
  {
  }

  lemma SampleZValue(env: Env)
    requires env == map["x" := 1, "y" := 2]
    ensures Resolve(env, AsFact(SampleZ().rhs)) == Ok(3)
  {
    assert Resolve(env, SumXY()) == Ok(3);
    assert Resolve(env, Unary('-', SumXY())) == Ok(-3);
    assert Resolve(env, Unary('-', Unary('-', SumXY()))) == Ok(3);
    assert Resolve(env, Unary('-', Unary('-', Unary('-', SumXY())))) == Ok(-3);
    assert Resolve(env, Unary('-', Ident("y"))) == Ok(-2);
    assert Resolve(env, DiffXY()) == Ok(-1);
  }

  lemma SampleZStep(env: Env, line: string)
    requires env == map["x" := 1, "y" := 2]
    requires line == ShowStatement(SampleZ())
    ensures Step(env, line) == Ok(env["z" := 3])
  {
    SampleZRendering();
    SampleZValue(env);
    StepRendered(env, SampleZ(), line);
  }

  /** A line `c = d;` with a one-letter identifier and a nonzero digit binds `d`. */
  lemma BindDigit(env: Env, c: char, d: nat, line: string)
    requires IsIdentStart(c) && 1 <= d <= 9
    requires line == [c, ' ', '=', ' ', DigitChar(d), ';']
    ensures Step(env, line) == Ok(env[[c] := d])
  {
    assert IsIdentifier([c]);
    assert line == [c] + " = " + ShowNat(d) + ";";
    LiteralStep(env, [c], d, line);
  }

  /** The sample program binds x to 1, y to 2 and z to (-(-(-(1+2)))) * (1+-2) = 3. */
  lemma SampleProgram(lines: seq<string>)
    requires lines == ["x = 1;", "y = 2;", "z = ---(x+y)*(x+-y);"]
    ensures Run(lines) == Ok(map["x" := 1, "y" := 2, "z" := 3])
  {
    var env1 := map["x" := 1];
    var env2 := env1["y" := 2];
    BindDigit(map[], 'x', 1, lines[0]);
    RunStep(map[], lines, env1);
    BindDigit(env1, 'y', 2, lines[1]);
    RunStep(env1, lines[1..], env2);
    SampleZRendering();
    SampleZStep(env2, lines[2]);
    RunStep(env2, lines[2..], env2["z" := 3]);
    assert lines[2..][1..] == [];
  }

  lemma Overwrite(env: Env, x: string, a: int, b: int)
    ensures env[x := a][x := b] == env[x := b]
  {
  }

  /** A later assignment to the same identifier replaces the earlier binding. */
  lemma Rebinding(lines: seq<string>)
    requires lines == ["x = 1;", "x = 2;"]
    ensures Run(lines) == Ok(map["x" := 2])
  {
    var env1 := map["x" := 1];
    BindDigit(map[], 'x', 1, lines[0]);
    RunStep(map[], lines, env1);
    BindDigit(env1, 'x', 2, lines[1]);
    RunStep(env1, lines[1..], env1["x" := 2]);
    Overwrite(map[], "x", 1, 2);
    assert lines[1..][1..] == [];
  }

  lemma OnePlusTwo(f: Fact)
    requires f == Paren(Expression(Lit(1), '+', Lit(2)))
    ensures Resolve(map[], f) == Ok(3)
  {
  }

  /** The line `x = (1+2 ;)`, whose group is never checked for its `)`, still binds
      x to 1+2. */
  lemma QuirkStep(line: string)
    requires line == "x = (1+2 ;)"
    ensures Step(map[], line) == Ok(map["x" := 3])
  {
    var f := Paren(Expression(Lit(1), '+', Lit(2)));
    UncheckedCloseQuirk();
    OnePlusTwo(f);
    StepParsed(map[], line, Assign("x", FactRhs(f)), 10);
  }

  /** A right-hand side is evaluated before its identifier is bound, so a line that
      mentions an identifier not assigned earlier stops the run with a KeyError. */
  lemma ForwardReference(lines: seq<string>)
    requires lines == ["x = y;", "y = 1;"]
    ensures Run(lines) == Err(EvalFailure(UndefinedVariable("y")))
  {
    assert IsIdentifier("x") && IsIdentifier("y");
    var s := Assign("x", FactRhs(Ident("y")));
    assert ShowStatement(s) == lines[0];
    StepRendered(map[], s, lines[0]);
  }
}
