/** The recursive-descent parsers of lang.py: parse_fact, parse_exp and
    parse_assignment. Each returns the tree it read and the number of characters it
    consumed, Python's `None`, or a crash: parse_fact indexes `text[0]` without
    checking for an empty string, so an IndexError escapes from every parser that
    reaches an empty suffix (`x = -`, `x = a+`). */
module Parser {
  import opened Results
  import opened Lexer
  import opened Syntax

  datatype Parse<+T> =
    | Parsed(value: T, length: nat)
    | NoParse
    | Crash

  predicate StartsWith(s: string, prefix: string) {
    |prefix| <= |s| && s[..|prefix|] == prefix
  }

  /** `j` closes the group that `^\((.+?)\)` matches at the start of `text` when
      scanning from index `i`: `j` is the first `)` at index 2 or later, and `.`
      has met no newline on the way. */
  ghost predicate ClosesFrom(text: string, i: nat, j: nat) {
    && i <= j < |text|
    && 2 <= j
    && text[j] == ')'
    && '\n' !in text[i..j]
    && ')' !in text[if i < 2 then 2 else i..j]
  }

  ghost predicate ClosesGroup(text: string, j: nat) {
    |text| > 0 && text[0] == '(' && ClosesFrom(text, 1, j)
  }

  /** The first `)` at index 2 or later, scanning from `i`; none once a newline is met. */
  function FindClose(text: string, i: nat): (r: Option<nat>)
    ensures r.Some? ==> i <= r.value < |text| && 2 <= r.value && text[r.value] == ')'
    decreases |text| - i
  {
    if i >= |text| then None
    else if text[i] == ')' && 2 <= i then Some(i)
    else if text[i] == '\n' then None
    else FindClose(text, i + 1)
  }

  /** The lazy group of lang.py:92: the index `j` of its closing `)`, so that the
      group is `text[1..j]`. */
  function GroupEnd(text: string): (r: Option<nat>)
    ensures r.Some? ==> 2 <= r.value < |text| && text[0] == '(' && text[r.value] == ')'
  {
    if |text| == 0 || text[0] != '(' then None else FindClose(text, 1)
  }

  lemma {:induction false} FindCloseMatches(text: string, i: nat)
    ensures FindClose(text, i).Some? ==> ClosesFrom(text, i, FindClose(text, i).value)
    ensures FindClose(text, i).None? ==> forall j :: !ClosesFrom(text, i, j)
    decreases |text| - i
  {
    if i < |text| {
      if text[i] == ')' && 2 <= i {
        assert text[i..i] == [];
      } else if text[i] == '\n' {
        forall j | i < j
          ensures !ClosesFrom(text, i, j)
        {
          if j < |text| {
            assert text[i..j][0] == '\n';
          }
        }
      } else {
        FindCloseMatches(text, i + 1);
        forall j: nat | ClosesFrom(text, i, j)
          ensures ClosesFrom(text, i + 1, j)
        {
          assert text[i..j] == [text[i]] + text[i + 1..j];
          if i >= 2 {
            assert text[i..j] == [text[i]] + text[i + 1..j];
          } else if i + 1 == 2 {
            assert text[if i + 1 < 2 then 2 else i + 1..j] == text[2..j];
          }
        }
      }
    }
  }

  /** GroupEnd finds exactly the group `^\((.+?)\)` matches, and fails exactly
      when that pattern does not match. */
  lemma GroupEndMatches(text: string)
    ensures GroupEnd(text).Some? ==> ClosesGroup(text, GroupEnd(text).value)
    ensures GroupEnd(text).None? ==> forall j :: !ClosesGroup(text, j)
  {
    if |text| > 0 && text[0] == '(' {
      FindCloseMatches(text, 1);
    }
  }

  /** parse_fact: a parenthesised expression, a signed fact, an integer literal or
      an identifier, tried in that order. */
  function ParseFact(text: string): (r: Parse<Fact>)
    ensures r.Parsed? ==> 1 <= r.length <= |text|
    ensures |text| == 0 ==> r == Crash
    decreases |text|, 1
  {
    match GroupEnd(text)
    case Some(j) => ParseGroup(text, j)
    case None => ParseUngrouped(text)
  }

  /** The first branch of parse_fact, once the group `text[1..j]` has matched: the
      branch is committed, so a group that is not an expression fails the whole
      fact, and the length is the one the inner parse reports plus two. */
  function ParseGroup(text: string, j: nat): (r: Parse<Fact>)
    requires 2 <= j < |text|
    ensures r.Parsed? ==> 1 <= r.length <= |text| && r.value.Paren?
    ensures r.Parsed? <==> ParseExp(text[1..j]).Parsed?
    ensures r.Crash? <==> ParseExp(text[1..j]).Crash?
    ensures r.Parsed? ==> r.length == ParseExp(text[1..j]).length + 2
    decreases |text|, 0
  {
    match ParseExp(text[1..j])
    case Parsed(e, n) => Parsed(Paren(e), n + 2)
    case NoParse => NoParse
    case Crash => Crash
  }

  /** The other branches of parse_fact: `text[0]` is read unguarded here, so an
      empty text crashes; a sign recurses on the rest. */
  function ParseUngrouped(text: string): (r: Parse<Fact>)
    ensures r.Parsed? ==> 1 <= r.length <= |text| && !r.value.Paren?
    ensures |text| == 0 ==> r == Crash
    decreases |text|, 0
  {
    if |text| == 0 then Crash
    else if IsSign(text[0]) then
      match ParseFact(text[1..])
      case Parsed(g, n) => Parsed(Unary(text[0], g), n + 1)
      case NoParse => NoParse
      case Crash => Crash
    else ParseAtom(text)
  }

  /** The last two branches of parse_fact: an integer literal, else an identifier. */
  function ParseAtom(text: string): (r: Parse<Fact>)
    ensures r.Parsed? ==> 1 <= r.length <= |text|
    ensures r.Crash? == false
  {
    match ScanLiteral(text)
    case Some((v, k)) => Parsed(Lit(v), k)
    case None =>
      match ScanIdent(text)
      case Some((x, k)) => Parsed(Ident(x), k)
      case None => NoParse
  }

  /** parse_exp: a fact, one operator, a fact; no spaces and no chaining. */
  function ParseExp(text: string): (r: Parse<Expression>)
    ensures r.Parsed? ==> 3 <= r.length <= |text|
    decreases |text|, 2
  {
    match ParseFact(text)
    case Crash => Crash
    case NoParse => NoParse
    case Parsed(a, na) =>
      if na < |text| && IsOperator(text[na]) then
        match ParseFact(text[na + 1..])
        case Parsed(b, nb) => Parsed(Expression(a, text[na], b), na + 1 + nb)
        case NoParse => NoParse
        case Crash => Crash
      else NoParse
  }

  /** The right-hand side of parse_assignment: an expression, or else a single fact. */
  function ParseRhs(text: string): (r: Parse<Rhs>)
    ensures r.Parsed? ==> 1 <= r.length <= |text|
    ensures r.Crash? <==> ParseExp(text).Crash?
    ensures r.Parsed? && r.value.FactRhs? ==> ParseExp(text).NoParse?
  {
    match ParseExp(text)
    case Parsed(e, n) => Parsed(ExpRhs(e), n)
    case Crash => Crash
    case NoParse =>
      // parse_exp began with this very parse_fact, so the retry cannot crash.
      match ParseFact(text)
      case Parsed(f, n) => Parsed(FactRhs(f), n)
      case NoParse => NoParse
      case Crash => assert false; Crash
  }

  /** parse_assignment: identifier, exactly " = ", right-hand side, `;`.
      Whatever follows the `;` is not looked at. */
  function ParseAssignment(text: string): (r: Parse<Statement>)
    ensures r.Parsed? ==>
      && 6 <= r.length <= |text|
      && IsIdentifier(r.value.name)
      && StartsWith(text, r.value.name + " = ")
      && text[r.length - 1] == ';'
    ensures ScanIdent(text).None? ==> r == NoParse
  {
    match ScanIdent(text)
    case None => NoParse
    case Some((name, k)) =>
      if !StartsWith(text[k..], " = ") then NoParse
      else
        var rest := text[k + 3..];
        match ParseRhs(rest)
        case Crash => Crash
        case NoParse => NoParse
        case Parsed(rhs, m) =>
          if m < |rest| && rest[m] == ';' then
            assert text[..k + 3] == name + " = ";
            Parsed(Assign(name, rhs), k + 3 + m + 1)
          else NoParse
  }
}
