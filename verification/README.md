# lang.py in Dafny

`lang.py` is a tiny interpreter for one-line assignments such as
`z = ---(x+y)*(x+-y);`. A recursive-descent parser turns each line into an
identifier and a right-hand side. `resolve_fact` evaluates that side against the
bindings made so far, and a loop binds the result under the identifier.

This project models that core in Dafny:

- `Lexer` (lexer.dfy): the identifier and integer-literal patterns, written as
  explicit scanners that take the longest anchored match. It also holds the
  decimal value of a digit string and its inverse, `ShowNat`.
- `Syntax` (syntax.dfy): the trees. A `Fact` is `Lit`, `Ident`, `Unary` (a sign
  applied to a fact) or `Paren` (a parenthesised `Expression`). An `Expression`
  is a fact, one operator and a fact. A `Statement` is an identifier and its
  right-hand side. The module also has a printer (`ShowFact`, `ShowExp`,
  `ShowStatement`) that writes a tree back as the text the parser reads.
- `Parser` (parser.dfy): `parse_fact`, `parse_exp` and `parse_assignment`. Each
  returns `Parsed(tree, length)`, `NoParse` (Python's `None`) or `Crash` (the
  `IndexError` of `text[0]` on an empty string). A `RecursionError` on deeply
  nested input is not among these outcomes; see "Left out".
- `ParserProperties` (parser_props.dfy): what the parsers promise. This is
  soundness (every tree they return is printable, and the consumed text reads as
  that tree) and completeness (every printable tree is read back from its
  rendering).
- `ParserExamples` (examples_parse.dfy): the behaviour of lang.py's parsers on
  concrete lines, quirks included.
- `Evaluator` (evaluator.dfy): `resolve_fact`, with the `KeyError` and the
  "impossible state" `ValueError` as explicit errors.
- `Driver` (driver.dfy): the loop that binds each line's value, as a fold from
  the empty map.
- `ProgramExamples` (examples_run.dfy): whole runs, including the sample program
  of lang.py.
- `Results` (results.dfy): `Option` and `Result`.

Quirks of the code that the model keeps as written:

- An empty suffix crashes. `x = -` and `x = a+` end in an `IndexError`.
- A group closes at its first `)`, so nested parentheses are rejected.
- A group's length is the inner parsed length plus two. Nothing checks that the
  inner expression used the whole group, or that a `)` stands where the length
  says it does. `x = (1+2 ;)` is therefore accepted: the statement ends at the
  `;` inside the parentheses, and the space takes the place of the `)`.
- Text after the `;` is never examined.

Nothing checks that a group is consumed completely; the model follows the code
(`Parser.ParseGroup`, `ParserExamples.UncheckedCloseQuirk`,
`ProgramExamples.QuirkStep`).

## Model

| member | source | states |
|---|---|---|
| Lexer.ScanIdent | lang.py:17-23 | The identifier pattern matches exactly when the first character is a letter or `_`. The match is a prefix of length at least 1 that is an identifier, and the next character cannot extend it. |
| Lexer.ScanIdentLongest | lang.py:19 | No longer prefix is an identifier, and when the scan fails no prefix is one: the match is the longest anchored one. |
| Lexer.ScanLiteral | lang.py:107-110 | The literal pattern matches exactly when the first character is a digit. The match is `0` alone when it starts with `0` (so `007` gives 1 character), otherwise a maximal run of digits. The value is the decimal value of the matched text. |
| Lexer.ScanLiteralLongest | lang.py:107 | No longer prefix is a literal, and when the scan fails no prefix is one. |
| Lexer.LiteralIdentDisjoint | lang.py:107-115 | The literal and identifier patterns never both match the same text, so trying the literal first decides nothing by order. |
| Lexer.ShowNat | lang.py:109 | The canonical decimal text of a natural: only digits, a literal, `"0"` exactly for 0, and otherwise no leading zero. |
| Lexer.DigitsValue | lang.py:109 | `int()` of a run of `k` digits is below 10 to the `k`, and at least 10 to the `k - 1` when the first digit is not `0`: the value has as many digits as the text. |
| Lexer.DigitsValueShowNat | lang.py:109 | `int()` of the canonical text of `n` is `n`. |
| Lexer.ShowNatDigitsValue | lang.py:107-109 | A literal is the canonical text of its own value. |
| Lexer.ScanLiteralShowNat | lang.py:107-110 | The literal scanner reads `n` back from its canonical text, followed by anything that is not a digit. |
| Lexer.ScanLiteralCanonical | lang.py:107-110 | The text the literal scanner consumed is the canonical text of the value it returns. |
| Parser.FindClose | lang.py:92 | The lazy scan for the group's `)` from a start index: any index it returns is at or after the start, at least 2, inside the text, and holds a `)`. |
| Parser.GroupEnd | lang.py:92 | The group pattern `^\((.+?)\)`: when it matches, the text starts with `(` and the returned index, at least 2, holds a `)`, so the captured group is non-empty. |
| Parser.FindCloseMatches | lang.py:92 | The scan for `)` finds the first `)` at index 2 or later, with no newline before it. When there is none, no index closes the group. |
| Parser.GroupEndMatches | lang.py:92 | `GroupEnd` finds the group of `^\((.+?)\)` exactly when the pattern matches, and then at the index where the lazy match closes. |
| Parser.ParseFact | lang.py:89-115 | A parsed fact consumes between 1 character and the whole text. The empty text crashes. |
| Parser.ParseGroup | lang.py:92-98 | A matched group parses exactly when its captured text parses as an expression, and crashes exactly when that parse crashes. A parsed group is a parenthesised fact whose length is the inner parsed length plus two. |
| Parser.ParseUngrouped | lang.py:100-105 | The sign branch and the atoms never yield a parenthesised fact. Reading `text[0]` of an empty text crashes. |
| Parser.ParseAtom | lang.py:107-115 | A literal or an identifier consumes between 1 character and the whole text, and never crashes. |
| Parser.ParseExp | lang.py:57-87 | A parsed expression consumes at least 3 characters and at most the whole text. |
| Parser.ParseRhs | lang.py:41-50 | The retry as a single fact never crashes. It crashes exactly when parse_exp does, and a bare fact is returned only when parse_exp gave `None`. |
| Parser.ParseAssignment | lang.py:25-55 | A parsed statement consumes at least 6 characters. It starts with an identifier followed by `" = "` and ends with `;`. Text that does not start with an identifier gives `None`. |
| ParserProperties.ParseFactShape | lang.py:89-115 | Every fact parse_fact returns is printable and as long as its rendering. Read from inside a group, it contains no group. |
| ParserProperties.ParseExpShape | lang.py:57-87 | Every expression parse_exp returns is printable and as long as its rendering. |
| ParserProperties.GroupCommits | lang.py:92-98 | Once the group pattern matches, the fact is that group's expression (length plus two) or nothing, with no fall-through to the other forms. Only this branch yields a parenthesised fact. |
| ParserProperties.ParseFactReads | lang.py:89-115 | The consumed text reads as the returned fact. The only unchecked character is the one closing a group. |
| ParserProperties.GroupReads | lang.py:92-98 | A parsed group reads as `(`, its expression and one unchecked character. |
| ParserProperties.UnaryReads | lang.py:100-105 | A signed fact reads as its sign followed by the inner fact. |
| ParserProperties.ParseExpReads | lang.py:57-87 | The consumed text reads as the left fact, the operator and the right fact. |
| ParserProperties.UngroupedReadsRendering | lang.py:100-115 | A fact without groups consumed exactly its own rendering. |
| ParserProperties.ScanIdentOf | lang.py:17-23 | The identifier scanner reads an identifier back from any text that starts with it and does not continue it. |
| ParserProperties.ScanLiteralOf | lang.py:107-110 | The literal scanner reads `n` back from any text that starts with its canonical text and does not continue it with a digit. |
| ParserProperties.GroupOfParen | lang.py:92 | In a rendered group, the lazy group pattern closes at the group's own `)`, and what it captures is the rendered expression. |
| ParserProperties.FactRoundTrip | lang.py:89-115 | parse_fact reads every printable fact back from any text that begins with its rendering, provided the next character cannot extend a literal or identifier. |
| ParserProperties.ExpRoundTrip | lang.py:57-87 | parse_exp reads every printable expression back from its rendering under the same proviso. |
| ParserProperties.RhsRoundTrip | lang.py:41-50 | A printable right-hand side followed by `;` is read back, as an expression or as a single fact as it was written. |
| ParserProperties.AssignmentRoundTrip | lang.py:25-55 | parse_assignment reads every printable statement back from any line that begins with its rendering, whatever follows the `;`. |
| ParserProperties.ParseRhsShape | lang.py:41-50 | A parsed right-hand side is printable, as long as its rendering, and the consumed text reads as it. |
| ParserProperties.StatementFromParts | lang.py:41-55 | Those parts make a printable statement that is as long as its rendering and reads as the consumed text. |
| ParserProperties.ParseAssignmentSound | lang.py:25-55 | A parsed statement is printable and as long as its rendering, and the consumed text reads as it. |
| ParserProperties.ParseAssignmentCanonical | lang.py:25-55 | A parsed statement is read back, with the same length, from its own rendering. |
| ParserExamples.LeadingZeroStandsAlone | lang.py:107 | `007` and `0abc` consume only the `0`. |
| ParserExamples.LiteralStopsAtNonDigit | lang.py:107-110 | `123;` is the literal 123 of length 3. |
| ParserExamples.IdentStopsAtSpace | lang.py:17-23 | `x1 = ` scans the identifier `x1` of length 2. |
| ParserExamples.SignedIdentifier | lang.py:100-105 | `-x` is `Unary('-', Ident "x")` of length 2. |
| ParserExamples.ParenthesisedFactRejected | lang.py:92-98 | `(x)` is not a fact: a group must hold an expression. |
| ParserExamples.NestedGroupRejected | lang.py:92-98 | `(x+(y+z))` is not a fact: the group closes at the first `)`. |
| ParserExamples.DanglingSignCrashes | lang.py:100 | `x = -` crashes on the empty text after the sign. |
| ParserExamples.DanglingOperatorCrashes | lang.py:79 | `x = a+` crashes on the empty text after the operator. |
| ParserExamples.SpacesRequired | lang.py:37-39 | `x=5;` is rejected: the separator must be exactly `" = "`. |
| ParserExamples.LiteralAssignment | lang.py:25-55 | `x = 5;` is `x` bound to the literal 5, of length 6, and so is `x = 5; y`. |
| ParserExamples.UncheckedCloseQuirk | lang.py:94-98 | `x = (1+2 ;)` is accepted as `x = (1+2)` of length 10: the group's close is never checked. |
| ParserExamples.QuirkGroup | lang.py:92-98 | `(1+2 ;)` parses as the group `(1+2)` of length 5, as a single fact. |
| ParserExamples.NestedGroupStatementRejected | lang.py:92-98 | `x = (1+(2+3));` is rejected. |
| Evaluator.FirstMissing | lang.py:121 | The first unbound identifier: none exactly when every identifier is bound, and otherwise one that occurs and is unbound. |
| Evaluator.Resolve | lang.py:117-135 | A `KeyError` names an identifier of the fact that is unbound. The impossible-state error arises only for a fact that is not well-formed. |
| Evaluator.FirstMissingAppend | lang.py:126-127 | The left operand's identifiers are looked up before the right one's. |
| Evaluator.ResolveDefined | lang.py:117-128 | A well-formed fact evaluates exactly when all its identifiers are bound. Otherwise it fails with a `KeyError` for the first unbound one in evaluation order. |
| Evaluator.ResolveFrame | lang.py:117-135 | Only the bindings of a fact's own identifiers affect its value. |
| Evaluator.ParsedNeverImpossible | lang.py:135 | The `raise` is unreachable for any fact the parser can produce. |
| Driver.AsFact | lang.py:152-153 | Wrapping a bare expression keeps its identifiers, left operand first. |
| Driver.AsFactWellFormed | lang.py:152-153 | A printable right-hand side becomes a well-formed fact, so it never reaches the `raise` of resolve_fact. |
| Driver.Step | lang.py:146-154 | A line is a syntax error exactly when it does not parse, and a crash exactly when the parser crashes. When it succeeds, it binds the statement's own identifier and leaves every other binding unchanged. |
| Driver.RunFrom | lang.py:145-154 | A completed run keeps every identifier it started with bound. |
| Driver.Run | lang.py:144-154 | A completed run from the empty map binds exactly the identifiers its lines assign. |
| Driver.RunKeys | lang.py:145-154 | A completed run binds the starting identifiers plus the assigned ones, and leaves every binding not assigned on any line unchanged. |
| Driver.RunAppend | lang.py:145-154 | Running two lists of lines in turn is running their concatenation, and a failure in the first stops both. |
| Driver.StepRendered | lang.py:146-154 | A line that renders a printable statement binds the value of its right-hand side, or fails with a `KeyError` for the first unbound identifier. |
| Driver.StepParsed | lang.py:146-154 | Every line that parses, including lines the printer never writes, succeeds exactly when all identifiers of its right-hand side are bound. It then binds the value of that side, and otherwise fails with a `KeyError` for the first unbound identifier. |
| Driver.StepNeverImpossible | lang.py:135 | No line ever ends in the impossible-state error. |
| ProgramExamples.SampleZRendering | lang.py:141 | `z = ---(x+y)*(x+-y);` is the rendering of the printable statement with three nested signs over `(x+y)`, times `(x+-y)`. |
| ProgramExamples.LiteralStep | lang.py:146-154 | A line `name = v;` binds `v` under `name` and changes nothing else. |
| ProgramExamples.SampleZValue | lang.py:117-135 | With x = 1 and y = 2, the third line's right-hand side is 3. |
| ProgramExamples.SampleZStep | lang.py:146-154 | The third line of the sample binds z to 3. |
| ProgramExamples.QuirkStep | lang.py:146-154 | From the empty map, `x = (1+2 ;)` binds x to 3. |
| ProgramExamples.SampleProgram | lang.py:138-154 | The sample program ends with x = 1, y = 2, z = 3. |
| ProgramExamples.Rebinding | lang.py:154 | A second assignment to `x` overwrites the first. |
| ProgramExamples.ForwardReference | lang.py:120-121 | A line that uses an identifier before it is assigned stops the run with a `KeyError` for that identifier. |

## Left out

- Printing: the `print("error")`, the `exit(1)` and the final output loop (lang.py:147-149, 156-157). A failed line is a `Driver.Failure` value instead.
- The order in which Python dicts iterate, since it only affects the printed output.
- Splitting the program into lines (`program.strip().split("\n")`): the driver takes the list of lines.
- The `re` engine. The patterns are written as explicit ASCII character classes with the same anchored, longest-match behaviour. The `.` of the group pattern is modelled exactly: it stops at a newline.
- Recursion depth. parse_fact calls itself once per sign (lang.py:101), and resolve_fact once per sign and once per group operand (lang.py:121-128). CPython stops such recursion with a `RecursionError` after about 1000 frames, so a line with very many signs fails in Python. The model has no depth limit: there every such line parses and evaluates.
- Unicode digits: Python's `\d` and `int()` also accept non-ASCII decimal digits. The model accepts only `0`-`9`.
- The shape of Python's `Fact` objects (`unary`, `exp`, `value` fields that can hold any combination). The model has one constructor per form the parser builds. A `Fact` with none of the fields set, which reaches the same `raise`, cannot be expressed.
