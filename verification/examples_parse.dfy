/** The behaviour of lang.py's parsers on concrete lines, quirks included. */
module ParserExamples {
  import opened Results
  import opened Lexer
  import opened Syntax
  import opened Parser
  import opened ParserProperties

  /** A leading zero is a literal on its own: `0` is read, the rest is left. */
  lemma LeadingZeroStandsAlone()
    ensures ScanLiteral("007") == Some((0, 1))
    ensures ScanLiteral("0abc") == Some((0, 1))
  {
  }

  lemma LiteralStopsAtNonDigit()
    ensures ScanLiteral("123;") == Some((123, 3))
  {
    assert ShowNat(123) == "123";
    ScanLiteralOf("123;", 123);
  }

  lemma IdentStopsAtSpace()
    ensures ScanIdent("x1 = ") == Some(("x1", 2))
  {
    assert IsIdentifier("x1");
    assert "x1 = "[..2] == "x1";
    ScanIdentOf("x1 = ", "x1");
  }

  /** A sign applies to the fact that follows it. */
  lemma SignedIdentifier()
    ensures ParseFact("-x") == Parsed(Unary('-', Ident("x")), 2)
  {
    var f := Unary('-', Ident("x"));
    assert ShowFact(f) == "-x";
    assert Printable(f, false) by {
      assert IsIdentifier("x");
    }
    FactRoundTrip(f, false, "-x");
  }

  lemma IdentifierFact()
    ensures ParseFact("x") == Parsed(Ident("x"), 1)
  {
    assert IsIdentifier("x");
    FactRoundTrip(Ident("x"), false, "x");
  }

  /** Parentheses hold an expression, never a lone fact: `(x)` is not a fact. */
  lemma ParenthesisedFactRejected()
    ensures ParseFact("(x)") == NoParse
  {
    assert GroupEnd("(x)") == Some(2);
    assert "(x)"[1..2] == "x";
    IdentifierFact();
    assert ParseExp("x") == NoParse;
  }

  /** A group closes at its first `)`, so groups do not nest. */
  lemma NestedGroupRejected()
    ensures ParseFact("(x+(y+z))") == NoParse
  {
    var text := "(x+(y+z))";
    assert GroupEnd(text) == Some(7);
    var group := text[1..7];
    assert group == "x+(y+z";
    assert IsIdentifier("x");
    assert group[..1] == "x";
    FactRoundTrip(Ident("x"), false, group);
    assert group[2..] == "(y+z";
    assert GroupEnd("(y+z") == None;
    assert ParseFact("(y+z") == NoParse;
  }

  /** The right-hand side runs out after a sign: parse_fact indexes an empty string. */
  lemma DanglingSignCrashes()
    ensures ParseAssignment("x = -") == Crash
  {
    var text := "x = -";
    assert IsIdentifier("x");
    assert text[..1] == "x";
    ScanIdentOf(text, "x");
    assert text[1..][..3] == " = ";
    assert text[4..] == "-";
    assert "-"[1..] == "";
    assert ParseFact("-") == Crash;
  }

  /** An operator with nothing after it crashes the same way. */
  lemma DanglingOperatorCrashes()
    ensures ParseAssignment("x = a+") == Crash
  {
    var text := "x = a+";
    assert IsIdentifier("x") && IsIdentifier("a");
    assert text[..1] == "x";
    ScanIdentOf(text, "x");
    assert text[1..][..3] == " = ";
    var rest := text[4..];
    assert rest == "a+";
    assert rest[..1] == "a";
    FactRoundTrip(Ident("a"), false, rest);
    assert rest[2..] == "";
  }

  /** The separator is exactly " = ": `x=5;` is not an assignment. */
  lemma SpacesRequired()
    ensures ParseAssignment("x=5;") == NoParse
  {
    var text := "x=5;";
    assert IsIdentifier("x");
    assert text[..1] == "x";
    ScanIdentOf(text, "x");
    assert text[1..] == "=5;";
  }

  /** A literal right-hand side, and whatever follows the `;` is ignored. */
  lemma LiteralAssignment()
    ensures ParseAssignment("x = 5;") == Parsed(Assign("x", FactRhs(Lit(5))), 6)
    ensures ParseAssignment("x = 5; y") == Parsed(Assign("x", FactRhs(Lit(5))), 6)
  {
    var s := Assign("x", FactRhs(Lit(5)));
    assert IsIdentifier("x");
    assert ShowNat(5) == "5";
    assert ShowStatement(s) == "x = 5;";
    AssignmentRoundTrip(s, "x = 5;");
    assert "x = 5; y"[..6] == "x = 5;";
    AssignmentRoundTrip(s, "x = 5; y");
  }

  /** The character where a group's `)` should stand is never checked: in
      `x = (1+2 ;)` the group is `1+2 ;`, the expression inside it ends at the
      space, and the statement ends at the `;` inside the parentheses. */
  lemma UncheckedCloseQuirk()
    ensures ParseAssignment("x = (1+2 ;)")
      == Parsed(Assign("x", FactRhs(Paren(Expression(Lit(1), '+', Lit(2))))), 10)
  {
    var text := "x = (1+2 ;)";
    assert IsIdentifier("x");
    assert text[..1] == "x";
    ScanIdentOf(text, "x");
    assert text[1..][..3] == " = ";
    assert text[4..] == "(1+2 ;)";
    QuirkGroup();
  }

  lemma QuirkGroup()
    ensures ParseRhs("(1+2 ;)") == Parsed(FactRhs(Paren(Expression(Lit(1), '+', Lit(2)))), 5)
  {
    var rest := "(1+2 ;)";
    assert GroupEnd(rest) == Some(6);
    var group := rest[1..6];
    assert group == "1+2 ;";
    var e := Expression(Lit(1), '+', Lit(2));
    assert ShowNat(1) == "1" && ShowNat(2) == "2";
    assert ShowExp(e) == "1+2";
    assert group[..3] == "1+2";
    ExpRoundTrip(e, true, group);
    assert ParseFact(rest) == Parsed(Paren(e), 5);
  }

  /** A nested group leaves the statement unparsed. */
  lemma NestedGroupStatementRejected()
    ensures ParseAssignment("x = (1+(2+3));") == NoParse
  {
    var text := "x = (1+(2+3));";
    assert IsIdentifier("x");
    assert text[..1] == "x";
    ScanIdentOf(text, "x");
    assert text[1..][..3] == " = ";
    var rest := text[4..];
    assert rest == "(1+(2+3));";
    assert GroupEnd("(1+(2+3));") == Some(7);
    var group := rest[1..7];
    assert group == "1+(2+3";
    assert ShowNat(1) == "1";
    assert group[..1] == "1";
    FactRoundTrip(Lit(1), false, group);
    assert group[2..] == "(2+3";
    assert GroupEnd("(2+3") == None;
    assert ParseFact("(2+3") == NoParse;
    assert ParseFact(rest) == NoParse;
  }
}
