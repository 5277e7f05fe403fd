/** The anchored scanners of lang.py: the identifier pattern `[a-zA-Z_][a-zA-Z_0-9]*`
    (parse_ident and the last branch of parse_fact) and the integer-literal pattern
    `0|[1-9]\d*` (the third branch of parse_fact), with Python's `int()` on the match. */
module Lexer {
  import opened Results

  /** `\d`, restricted to ASCII. */
  predicate IsDigit(c: char) {
    '0' <= c <= '9'
  }

  predicate IsNonZeroDigit(c: char) {
    '1' <= c <= '9'
  }

  /** `[a-zA-Z_]` */
  predicate IsIdentStart(c: char) {
    ('a' <= c <= 'z') || ('A' <= c <= 'Z') || c == '_'
  }

  /** `[a-zA-Z_0-9]` */
  predicate IsIdentChar(c: char) {
    IsIdentStart(c) || IsDigit(c)
  }

  predicate AllDigits(s: string) {
    forall i | 0 <= i < |s| :: IsDigit(s[i])
  }

  /** The strings the identifier pattern matches in full. */
  predicate IsIdentifier(s: string) {
    |s| > 0 && IsIdentStart(s[0]) && forall i | 1 <= i < |s| :: IsIdentChar(s[i])
  }

  /** The strings the literal pattern matches in full: `0`, or digits without a leading zero. */
  predicate IsLiteral(s: string) {
    s == "0" || (|s| > 0 && IsNonZeroDigit(s[0]) && forall i | 1 <= i < |s| :: IsDigit(s[i]))
  }

  /** Length of the longest prefix of `s` whose characters all lie in `inClass`:
      what a greedy `*` over a character class consumes. */
  function Span(s: string, inClass: char -> bool): (k: nat)
    ensures k <= |s|
    ensures forall i | 0 <= i < k :: inClass(s[i])
    ensures k == |s| || !inClass(s[k])
  {
    if |s| == 0 || !inClass(s[0]) then 0 else 1 + Span(s[1..], inClass)
  }

  /** parse_ident: the longest identifier at the start of `text` and its length. */
  function ScanIdent(text: string): (r: Option<(string, nat)>)
    ensures r.Some? <==> |text| > 0 && IsIdentStart(text[0])
    ensures r.Some? ==>
      && 1 <= r.value.1 <= |text|
      && r.value.0 == text[..r.value.1]
      && IsIdentifier(r.value.0)
      && (r.value.1 == |text| || !IsIdentChar(text[r.value.1]))
  {
    if |text| == 0 || !IsIdentStart(text[0]) then None
    else
      var tail := Span(text[1..], IsIdentChar);
      assert forall i | 1 <= i < 1 + tail :: text[i] == text[1..][i - 1];
      Some((text[..1 + tail], 1 + tail))
  }

  function DigitValue(c: char): (d: nat)
    requires IsDigit(c)
    ensures d < 10
  {
    (c as int) - ('0' as int)
  }

  function DigitChar(d: nat): (c: char)
    requires d < 10
    ensures IsDigit(c)
  {
    (('0' as int) + d) as char
  }

  function Pow10(k: nat): (p: nat)
    ensures p >= 1
  {
    if k == 0 then 1 else 10 * Pow10(k - 1)
  }

  /** Python's `int()` on a run of decimal digits: a value below 10 to the number of
      digits, and with a nonzero leading digit no smaller than 10 to one digit fewer. */
  function DigitsValue(s: string): (v: nat)
    requires AllDigits(s)
    ensures v < Pow10(|s|)
    ensures |s| > 0 && IsNonZeroDigit(s[0]) ==> Pow10(|s| - 1) <= v
  {
    if |s| == 0 then 0 else 10 * DigitsValue(s[..|s| - 1]) + DigitValue(s[|s| - 1])
  }

  /** Decimal rendering of a natural number, the inverse of DigitsValue on literals. */
  function ShowNat(n: nat): (s: string)
    ensures AllDigits(s) && IsLiteral(s)
    ensures n == 0 <==> s == "0"
    ensures n > 0 ==> IsNonZeroDigit(s[0])
  {
    if n < 10 then [DigitChar(n)] else ShowNat(n / 10) + [DigitChar(n % 10)]
  }

  /** The literal branch of parse_fact: the value and length of the literal match. */
  function ScanLiteral(text: string): (r: Option<(nat, nat)>)
    ensures r.Some? <==> |text| > 0 && IsDigit(text[0])
    ensures r.Some? ==>
      && 1 <= r.value.1 <= |text|
      && AllDigits(text[..r.value.1])
      && IsLiteral(text[..r.value.1])
      && r.value.0 == DigitsValue(text[..r.value.1])
    ensures r.Some? && text[0] == '0' ==> r.value.1 == 1
    ensures r.Some? && text[0] != '0' ==> r.value.1 == |text| || !IsDigit(text[r.value.1])
  {
    if |text| == 0 || !IsDigit(text[0]) then None
    else if text[0] == '0' then
      assert text[..1] == "0";
      Some((0, 1))
    else
      var k := 1 + Span(text[1..], IsDigit);
      assert forall i | 1 <= i < k :: text[i] == text[1..][i - 1];
      Some((DigitsValue(text[..k]), k))
  }

  /** re.match with a greedy pattern returns the longest match: no longer prefix
      of `text` is an identifier, and there is none at all exactly when the scan fails. */
  lemma ScanIdentLongest(text: string)
    ensures ScanIdent(text).None? ==> forall k | 1 <= k <= |text| :: !IsIdentifier(text[..k])
    ensures ScanIdent(text).Some? ==>
      forall k | ScanIdent(text).value.1 < k <= |text| :: !IsIdentifier(text[..k])
  {
    if ScanIdent(text).Some? {
      var n := ScanIdent(text).value.1;
      forall k | n < k <= |text|
        ensures !IsIdentifier(text[..k])
      {
        assert text[..k][n] == text[n];
      }
    } else {
      forall k | 1 <= k <= |text|
        ensures !IsIdentifier(text[..k])
      {
        assert text[..k][0] == text[0];
      }
    }
  }

  /** Same for the literal pattern: a literal at the start is matched in full,
      and a literal led by `0` is only that `0`. */
  lemma ScanLiteralLongest(text: string)
    ensures ScanLiteral(text).None? ==> forall k | 1 <= k <= |text| :: !IsLiteral(text[..k])
    ensures ScanLiteral(text).Some? ==>
      forall k | ScanLiteral(text).value.1 < k <= |text| :: !IsLiteral(text[..k])
  {
    if ScanLiteral(text).Some? {
      var n := ScanLiteral(text).value.1;
      forall k | n < k <= |text|
        ensures !IsLiteral(text[..k])
      {
        assert text[..k][0] == text[0];
        assert text[..k][n] == text[n];
      }
    } else {
      forall k | 1 <= k <= |text|
        ensures !IsLiteral(text[..k])
      {
        assert text[..k][0] == text[0];
      }
    }
  }

  /** Literal and identifier matches never start on the same character, so trying
      the literal first (lang.py:107 before lang.py:112) never hides an identifier. */
  lemma LiteralIdentDisjoint(text: string)
    ensures !(ScanLiteral(text).Some? && ScanIdent(text).Some?)
  {
  }

  lemma {:induction false} DigitsValueShowNat(n: nat)
    ensures DigitsValue(ShowNat(n)) == n
  {
    if n >= 10 {
      var s := ShowNat(n);
      assert s[..|s| - 1] == ShowNat(n / 10);
      DigitsValueShowNat(n / 10);
    }
  }

  /** Every literal is the rendering of its own value: `int()` and `str()` are inverse
      on the strings the literal pattern matches. */
  lemma {:induction false} ShowNatDigitsValue(s: string)
    requires IsLiteral(s)
    ensures AllDigits(s) && ShowNat(DigitsValue(s)) == s
  {
    if |s| > 1 {
      var p := s[..|s| - 1];
      assert p[0] == s[0];
      assert IsLiteral(p);
      ShowNatDigitsValue(p);
      var v := DigitsValue(s);
      assert v / 10 == DigitsValue(p);
      assert v % 10 == DigitValue(s[|s| - 1]);
      assert s == p + [s[|s| - 1]];
    }
  }

  /** Scanning the rendering of `n`, followed by anything that does not continue a
      digit run, yields `n` back with the rendering's length. */
  lemma ScanLiteralShowNat(n: nat, rest: string)
    requires rest == [] || !IsDigit(rest[0])
    ensures ScanLiteral(ShowNat(n) + rest) == Some((n, |ShowNat(n)|))
  {
    var s := ShowNat(n);
    var text := s + rest;
    assert text[0] == s[0];
    var k := ScanLiteral(text).value.1;
    if n == 0 {
      assert k == 1;
    } else {
      assert !(k < |s|);
      forall i | 0 <= i < k
        ensures IsDigit(text[i])
      {
        assert text[..k][i] == text[i];
      }
      assert |s| < |text| ==> text[|s|] == rest[0];
      assert k <= |s|;
    }
    assert text[..k] == s;
    DigitsValueShowNat(n);
  }

  /** The value scanned is exactly the one the matched text renders. */
  lemma ScanLiteralCanonical(text: string)
    requires ScanLiteral(text).Some?
    ensures ShowNat(ScanLiteral(text).value.0) == text[..ScanLiteral(text).value.1]
  {
    ShowNatDigitsValue(text[..ScanLiteral(text).value.1]);
  }
}
