/** What the parsers of lang.py accept and what they return: every tree they
    produce is one the printer renders, read from text that matches that rendering
    except for the unchecked closing character of a group; every printable tree is
    read back from its rendering; and the documented quirks on concrete input. */
module ParserProperties {
  import opened Results
  import opened Lexer
  import opened Syntax
  import opened Parser

  /** No `)` after the first character: true of every suffix of a parenthesised group. */
  ghost predicate NoClose(s: string) {
    |s| == 0 || ')' !in s[1..]
  }

  /** `text` is exactly what the parser consumed for `f`: the rendering of `f`,
      except that the character closing a group may be anything. */
  ghost predicate Reads(text: string, f: Fact) {
    match f
    case Lit(v) => text == ShowNat(v)
    case Ident(x) => text == x
    case Unary(s, g) => |text| >= 1 && text[0] == s && Reads(text[1..], g)
    case Paren(Expression(l, op, r)) =>
      var k := |ShowFact(l)|;
      && |text| >= k + 3
      && text[0] == '('
      && Reads(text[1..k + 1], l)
      && text[k + 1] == op
      && Reads(text[k + 2..|text| - 1], r)
  }

  ghost predicate ReadsExp(text: string, e: Expression) {
    var k := |ShowFact(e.left)|;
    && |text| >= k + 1
    && Reads(text[..k], e.left)
    && text[k] == e.op
    && Reads(text[k + 1..], e.right)
  }

  lemma {:induction false} ReadsLength(text: string, f: Fact)
    requires Reads(text, f)
    ensures |text| == |ShowFact(f)|
  {
    match f
    case Lit(_) =>
    case Ident(_) =>
    case Unary(s, g) => ReadsLength(text[1..], g);
    case Paren(Expression(l, op, r)) =>
      var k := |ShowFact(l)|;
      ReadsLength(text[1..k + 1], l);
      ReadsLength(text[k + 2..|text| - 1], r);
  }

  /** Without groups nothing goes unchecked: the consumed text is the rendering. */
  lemma {:induction false} ReadsIsShow(text: string, f: Fact)
    requires Reads(text, f) && Printable(f, true)
    ensures text == ShowFact(f)
  {
    match f
    case Lit(_) =>
    case Ident(_) =>
    case Unary(s, g) =>
      ReadsIsShow(text[1..], g);
      assert text == [s] + text[1..];
  }

  // ---------------------------------------------------------------------------
  // Soundness: what the parsers return.

  lemma GroupNoClose(text: string, j: nat)
    requires GroupEnd(text) == Some(j)
    ensures NoClose(text[1..j])
  {
    GroupEndMatches(text);
    assert text[1..j][1..] == text[2..j];
  }

  lemma SuffixNoClose(s: string, k: nat)
    requires NoClose(s) && 1 <= k <= |s|
    ensures NoClose(s[k..])
  {
    if |s[k..]| > 0 {
      assert s[k..][1..] == s[1..][k..];
    }
  }

  /** Every fact parse_fact returns is printable, and its rendering has exactly the
      consumed length; read from a group it contains no group itself. */
  lemma {:induction false} ParseFactShape(text: string)
    ensures ParseFact(text).Parsed? ==>
      && Printable(ParseFact(text).value, false)
      && ParseFact(text).length == |ShowFact(ParseFact(text).value)|
      && (NoClose(text) ==> Printable(ParseFact(text).value, true))
    decreases |text|, 1
  {
    if ParseFact(text).Parsed? {
      match GroupEnd(text)
      case Some(j) =>
        assert ParseFact(text) == ParseGroup(text, j);
        GroupNoClose(text, j);
        ParseExpShape(text[1..j]);
        assert text[1..][j - 1] == ')';
      case None =>
        assert ParseFact(text) == ParseUngrouped(text);
        if IsSign(text[0]) {
          ParseFactShape(text[1..]);
          if NoClose(text) && |text| > 1 {
            SuffixNoClose(text, 1);
          }
        } else {
          assert ParseUngrouped(text) == ParseAtom(text);
          if ScanLiteral(text).Some? {
            ScanLiteralCanonical(text);
          }
        }
    }
  }

  lemma {:induction false} ParseExpShape(text: string)
    ensures ParseExp(text).Parsed? ==>
      && PrintableExp(ParseExp(text).value, false)
      && ParseExp(text).length == |ShowExp(ParseExp(text).value)|
      && (NoClose(text) ==> PrintableExp(ParseExp(text).value, true))
    decreases |text|, 2
  {
    if ParseExp(text).Parsed? {
      var na := ParseFact(text).length;
      ParseFactShape(text);
      ParseFactShape(text[na + 1..]);
      if NoClose(text) {
        SuffixNoClose(text, na + 1);
      }
    }
  }

  /** The group branch commits: once `^\((.+?)\)` matches, the fact is the group's
      expression or nothing, with the inner length plus two; and only that branch
      yields a parenthesised fact. */
  lemma GroupCommits(text: string)
    ensures GroupEnd(text).Some? ==>
      var inner := ParseExp(text[1..GroupEnd(text).value]);
      && (ParseFact(text).Parsed? <==> inner.Parsed?)
      && (inner.Parsed? ==> ParseFact(text) == Parsed(Paren(inner.value), inner.length + 2))
    ensures ParseFact(text).Parsed? && ParseFact(text).value.Paren? ==> GroupEnd(text).Some?
  {
    match GroupEnd(text)
    case Some(j) =>
      assert ParseFact(text) == ParseGroup(text, j);
    case None =>
      assert ParseFact(text) == ParseUngrouped(text);
  }

  /** A fact read without any group is exactly the rendering of what was read. */
  lemma UngroupedReadsRendering(text: string)
    requires ParseFact(text).Parsed? && Printable(ParseFact(text).value, true)
    ensures text[..ParseFact(text).length] == ShowFact(ParseFact(text).value)
  {
    ParseFactReads(text);
    ReadsIsShow(text[..ParseFact(text).length], ParseFact(text).value);
  }

  /** The text parse_fact consumed reads as the fact it returned; nothing but the
      closing character of a group goes unchecked. */
  lemma {:induction false} ParseFactReads(text: string)
    ensures ParseFact(text).Parsed? ==> Reads(text[..ParseFact(text).length], ParseFact(text).value)
    decreases |text|, 0
  {
    if ParseFact(text).Parsed? {
      match GroupEnd(text)
      case Some(j) =>
        assert ParseFact(text) == ParseGroup(text, j);
        ParseExpReads(text[1..j]);
        GroupReads(text, j);
      case None =>
        assert ParseFact(text) == ParseUngrouped(text);
        if IsSign(text[0]) {
          ParseFactReads(text[1..]);
          UnaryReads(text);
        } else {
          assert ParseUngrouped(text) == ParseAtom(text);
          if ScanLiteral(text).Some? {
            ScanLiteralCanonical(text);
          }
        }
    }
  }

  /** A group reads as its expression between a `(` and one more character. */
  lemma ParenReads(t: string, g: string, e: Expression)
    requires |t| == |g| + 2 && t[0] == '(' && t[1..|t| - 1] == g
    requires ReadsExp(g, e)
    ensures Reads(t, Paren(e))
  {
    var k := |ShowFact(e.left)|;
    assert g[..k] == t[1..k + 1];
    assert g[k + 1..] == t[k + 2..|t| - 1];
  }

  lemma GroupReads(text: string, j: nat)
    requires 2 <= j < |text| && text[0] == '('
    requires ParseExp(text[1..j]).Parsed?
    requires ReadsExp(text[1..j][..ParseExp(text[1..j]).length], ParseExp(text[1..j]).value)
    ensures ParseGroup(text, j).Parsed?
    ensures Reads(text[..ParseGroup(text, j).length], ParseGroup(text, j).value)
  {
    var group := text[1..j];
    var m := ParseExp(group).length;
    var t := text[..m + 2];
    assert t[1..m + 1] == group[..m];
    ParenReads(t, group[..m], ParseExp(group).value);
  }

  lemma UnaryReads(text: string)
    requires |text| > 0 && IsSign(text[0])
    requires ParseFact(text[1..]).Parsed?
    requires Reads(text[1..][..ParseFact(text[1..]).length], ParseFact(text[1..]).value)
    ensures ParseUngrouped(text).Parsed?
    ensures Reads(text[..ParseUngrouped(text).length], ParseUngrouped(text).value)
  {
    var n := ParseUngrouped(text).length;
    assert text[..n][1..] == text[1..][..n - 1];
  }

  lemma {:induction false} ParseExpReads(text: string)
    ensures ParseExp(text).Parsed? ==> ReadsExp(text[..ParseExp(text).length], ParseExp(text).value)
    decreases |text|, 1
  {
    if ParseExp(text).Parsed? {
      var e, n := ParseExp(text).value, ParseExp(text).length;
      var na := ParseFact(text).length;
      var tail := text[na + 1..];
      var nb := ParseFact(tail).length;
      ParseFactReads(text);
      ParseFactReads(tail);
      ParseFactShape(text);
      var t := text[..n];
      assert t[..na] == text[..na];
      assert t[na + 1..] == tail[..nb];
    }
  }

  // ---------------------------------------------------------------------------
  // Completeness: printable trees are read back from their renderings.

  lemma ScanIdentOf(text: string, name: string)
    requires IsIdentifier(name) && StartsWith(text, name)
    requires |text| == |name| || !IsIdentChar(text[|name|])
    ensures ScanIdent(text) == Some((name, |name|))
  {
    assert text[0] == name[0];
    var k := ScanIdent(text).value.1;
    assert k <= |name| by {
      forall i | 1 <= i < k
        ensures IsIdentChar(text[i])
      {
        assert text[..k][i] == text[i];
      }
    }
  }

  lemma ScanLiteralOf(text: string, v: nat)
    requires StartsWith(text, ShowNat(v))
    requires |text| == |ShowNat(v)| || !IsDigit(text[|ShowNat(v)|])
    ensures ScanLiteral(text) == Some((v, |ShowNat(v)|))
  {
    var s := ShowNat(v);
    var rest := text[|s|..];
    assert text == s + rest;
    ScanLiteralShowNat(v, rest);
  }

  /** parse_exp succeeds only as a fact, one operator right after it, and a fact
      right after that; the length is the sum of the three. */
  lemma ExpParts(text: string)
    ensures ParseExp(text).Parsed? ==>
      var (a, na) := (ParseFact(text).value, ParseFact(text).length);
      && ParseFact(text).Parsed?
      && na < |text| && IsOperator(text[na])
      && ParseFact(text[na + 1..]).Parsed?
      && ParseExp(text).value == Expression(a, text[na], ParseFact(text[na + 1..]).value)
      && ParseExp(text).length == na + 1 + ParseFact(text[na + 1..]).length
  {
  }

  /** Conversely, those three parts always make an expression. */
  lemma ExpStep(text: string, l: Fact, n: nat, r: Fact, m: nat)
    requires ParseFact(text) == Parsed(l, n) && n < |text| && IsOperator(text[n])
    requires ParseFact(text[n + 1..]) == Parsed(r, m)
    ensures ParseExp(text) == Parsed(Expression(l, text[n], r), n + 1 + m)
  {
  }

  /** The characters of a rendered group, positionally. */
  lemma ParenLayout(text: string, l: Fact, op: char, r: Fact)
    requires Printable(l, true) && Printable(r, true)
    requires StartsWith(text, ShowFact(Paren(Expression(l, op, r))))
    ensures var (L, R) := (ShowFact(l), ShowFact(r));
      && text[0] == '('
      && text[1..1 + |L|] == L
      && text[1 + |L|] == op
      && text[2 + |L|..2 + |L| + |R|] == R
      && text[2 + |L| + |R|] == ')'
      && (forall i | 1 <= i < 1 + |L| :: text[i] == L[i - 1])
      && (forall i | 2 + |L| <= i < 2 + |L| + |R| :: text[i] == R[i - 2 - |L|])
  {
    var L, R := ShowFact(l), ShowFact(r);
    var S := ShowFact(Paren(Expression(l, op, r)));
    assert S == "(" + L + [op] + R + ")";
    assert text[..|S|] == S;
    assert forall i | 0 <= i < |S| :: text[i] == S[i];
    assert text[1..1 + |L|] == S[1..1 + |L|];
    assert text[2 + |L|..2 + |L| + |R|] == S[2 + |L|..2 + |L| + |R|];
  }

  lemma GroupOfRendering(text: string, l: Fact, op: char, r: Fact)
    requires Printable(l, true) && Printable(r, true) && IsOperator(op)
    requires StartsWith(text, ShowFact(Paren(Expression(l, op, r))))
    ensures GroupEnd(text) == Some(2 + |ShowFact(l)| + |ShowFact(r)|)
  {
    var L, R := ShowFact(l), ShowFact(r);
    ParenLayout(text, l, op, r);
    ShowFactChars(l, true);
    ShowFactChars(r, true);
    var j := 2 + |L| + |R|;
    assert ClosesGroup(text, j);
    GroupEndMatches(text);
  }

  /** Round trip: parse_fact reads a printable fact back from the start of any text
      that begins with its rendering, provided the next character cannot extend a
      literal or an identifier. */
  lemma {:induction false} FactRoundTrip(f: Fact, nested: bool, text: string)
    requires Printable(f, nested)
    requires StartsWith(text, ShowFact(f))
    requires |text| == |ShowFact(f)| || !IsIdentChar(text[|ShowFact(f)|])
    ensures ParseFact(text) == Parsed(f, |ShowFact(f)|)
    decreases f
  {
    ShowFactFirst(f, nested);
    assert text[0] == ShowFact(f)[0];
    match f
    case Lit(v) =>
      ScanLiteralOf(text, v);
    case Ident(x) =>
      ScanIdentOf(text, x);
    case Unary(s, g) =>
      var G := ShowFact(g);
      assert text[1..][..|G|] == text[..1 + |G|][1..];
      FactRoundTrip(g, nested, text[1..]);
    case Paren(e) =>
      var j := 1 + |ShowExp(e)|;
      GroupOfParen(text, e);
      ExpRoundTrip(e, true, text[1..j]);
      GroupStep(text, j, e, |ShowExp(e)|);
  }

  /** A rendered group: GroupEnd finds its `)`, and the text between the
      parentheses is the rendering of the expression. */
  lemma GroupOfParen(text: string, e: Expression)
    requires Printable(Paren(e), false)
    requires StartsWith(text, ShowFact(Paren(e)))
    ensures GroupEnd(text) == Some(1 + |ShowExp(e)|)
    ensures text[1..1 + |ShowExp(e)|] == ShowExp(e)
  {
    var L, R := ShowFact(e.left), ShowFact(e.right);
    GroupOfRendering(text, e.left, e.op, e.right);
    ParenLayout(text, e.left, e.op, e.right);
    var g := text[1..1 + |ShowExp(e)|];
    assert g[..|L|] == L;
    assert g[1 + |L|..] == R;
  }

  lemma GroupStep(text: string, j: nat, e: Expression, m: nat)
    requires GroupEnd(text) == Some(j)
    requires ParseExp(text[1..j]) == Parsed(e, m)
    ensures ParseFact(text) == Parsed(Paren(e), m + 2)
  {
    assert ParseFact(text) == ParseGroup(text, j);
  }

  lemma ExpLayout(text: string, e: Expression)
    requires StartsWith(text, ShowExp(e))
    ensures StartsWith(text, ShowFact(e.left))
    ensures text[|ShowFact(e.left)|] == e.op
    ensures StartsWith(text[|ShowFact(e.left)| + 1..], ShowFact(e.right))
  {
    var L, R := ShowFact(e.left), ShowFact(e.right);
    var S := ShowExp(e);
    assert text[..|S|] == L + [e.op] + R;
    assert text[..|L|] == text[..|S|][..|L|];
    assert text[|L|] == text[..|S|][|L|];
    assert text[|L| + 1..][..|R|] == text[..|S|][|L| + 1..];
  }

  /** Round trip for parse_exp. */
  lemma {:induction false} ExpRoundTrip(e: Expression, nested: bool, text: string)
    requires PrintableExp(e, nested)
    requires StartsWith(text, ShowExp(e))
    requires |text| == |ShowExp(e)| || !IsIdentChar(text[|ShowExp(e)|])
    ensures ParseExp(text) == Parsed(e, |ShowExp(e)|)
    decreases e
  {
    var L, R := ShowFact(e.left), ShowFact(e.right);
    ExpLayout(text, e);
    ShowFactFirst(e.right, nested);
    FactRoundTrip(e.left, nested, text);
    var tail := text[|L| + 1..];
    FactRoundTrip(e.right, nested, tail);
    ExpStep(text, e.left, |L|, e.right, |R|);
  }

  ghost predicate ReadsRhs(text: string, rhs: Rhs) {
    match rhs
    case ExpRhs(e) => ReadsExp(text, e)
    case FactRhs(f) => Reads(text, f)
  }

  /** `text` is what parse_assignment consumed for `s`: the identifier, " = ", the
      right-hand side as read, and the `;`. */
  ghost predicate ReadsStatement(text: string, s: Statement) {
    var k := |s.name|;
    && |text| >= k + 4
    && text[..k + 3] == s.name + " = "
    && ReadsRhs(text[k + 3..|text| - 1], s.rhs)
    && text[|text| - 1] == ';'
  }

  lemma ParseRhsShape(text: string, rhs: Rhs, m: nat)
    requires ParseRhs(text) == Parsed(rhs, m)
    ensures PrintableRhs(rhs)
    ensures m == |ShowRhs(rhs)|
    ensures ReadsRhs(text[..m], rhs)
  {
    ParseExpShape(text);
    ParseExpReads(text);
    ParseFactShape(text);
    ParseFactReads(text);
  }

  /** Soundness of parse_assignment: the statement it returns is printable, its
      rendering is as long as the text consumed, and the consumed text reads as it. */
  lemma ParseAssignmentSound(text: string, s: Statement, n: nat)
    requires ParseAssignment(text) == Parsed(s, n)
    ensures PrintableStatement(s)
    ensures n == |ShowStatement(s)|
    ensures ReadsStatement(text[..n], s)
  {
    AssignmentParts(text);
    StatementFromParts(text, s, n);
  }

  /** How a parsed statement was assembled: the identifier, " = ", what ParseRhs
      read after them, and a `;`. */
  lemma AssignmentParts(text: string)
    requires ParseAssignment(text).Parsed?
    ensures var (s, n) := (ParseAssignment(text).value, ParseAssignment(text).length);
      && IsIdentifier(s.name)
      && |s.name| + 4 <= n <= |text|
      && text[..|s.name| + 3] == s.name + " = "
      && ParseRhs(text[|s.name| + 3..]) == Parsed(s.rhs, n - |s.name| - 4)
      && text[n - 1] == ';'
  {
  }

  lemma StatementFromParts(text: string, s: Statement, n: nat)
    requires IsIdentifier(s.name)
    requires |s.name| + 4 <= n <= |text|
    requires text[..|s.name| + 3] == s.name + " = "
    requires ParseRhs(text[|s.name| + 3..]) == Parsed(s.rhs, n - |s.name| - 4)
    requires text[n - 1] == ';'
    ensures PrintableStatement(s)
    ensures n == |ShowStatement(s)|
    ensures ReadsStatement(text[..n], s)
  {
    var k := |s.name|;
    var rest := text[k + 3..];
    var m := n - k - 4;
    ParseRhsShape(rest, s.rhs, m);
    var t := text[..n];
    assert t[..k + 3] == text[..k + 3];
    assert t[k + 3..n - 1] == rest[..m];
  }

  /** The right-hand side is read back from its rendering when a `;` follows. */
  lemma RhsRoundTrip(rhs: Rhs, text: string)
    requires PrintableRhs(rhs)
    requires StartsWith(text, ShowRhs(rhs))
    requires |ShowRhs(rhs)| < |text| && text[|ShowRhs(rhs)|] == ';'
    ensures ParseRhs(text) == Parsed(rhs, |ShowRhs(rhs)|)
  {
    match rhs
    case ExpRhs(e) =>
      ExpRoundTrip(e, false, text);
    case FactRhs(f) =>
      FactRoundTrip(f, false, text);
  }

  lemma StatementLayout(text: string, s: Statement)
    requires StartsWith(text, ShowStatement(s))
    ensures var (k, R) := (|s.name|, ShowRhs(s.rhs));
      && StartsWith(text, s.name)
      && text[k] == ' '
      && StartsWith(text[k..], " = ")
      && StartsWith(text[k + 3..], R)
      && k + 3 + |R| < |text|
      && text[k + 3..][|R|] == ';'
  {
    var k, R := |s.name|, ShowRhs(s.rhs);
    var S := ShowStatement(s);
    assert text[..|S|] == S;
    assert text[..k] == S[..k];
    assert text[k..][..3] == S[k..k + 3];
    assert text[k + 3..][..|R|] == S[k + 3..k + 3 + |R|];
    assert text[k + 3..][|R|] == S[k + 3 + |R|];
  }

  /** Round trip for parse_assignment: a printable statement is read back from the
      start of any line that begins with its rendering; what follows the `;` does not
      matter. */
  lemma AssignmentRoundTrip(s: Statement, text: string)
    requires PrintableStatement(s)
    requires StartsWith(text, ShowStatement(s))
    ensures ParseAssignment(text) == Parsed(s, |ShowStatement(s)|)
  {
    StatementLayout(text, s);
    ScanIdentOf(text, s.name);
    RhsRoundTrip(s.rhs, text[|s.name| + 3..]);
  }

  /** A parsed statement is also read back from its own canonical rendering. */
  lemma ParseAssignmentCanonical(text: string)
    ensures ParseAssignment(text).Parsed? ==>
      var s := ParseAssignment(text).value;
      ParseAssignment(ShowStatement(s)) == Parsed(s, ParseAssignment(text).length)
  {
    if ParseAssignment(text).Parsed? {
      var s := ParseAssignment(text).value;
      ParseAssignmentSound(text, s, ParseAssignment(text).length);
      AssignmentRoundTrip(s, ShowStatement(s));
    }
  }
}
