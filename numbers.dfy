/**
 * Python's `float(token)` on the tokens the score pattern captures: strings
 * over the characters `-0123456789.`. On that alphabet `float` accepts exactly
 * an optional leading minus sign, then digits with at most one decimal point
 * and at least one digit; anything else raises `ValueError`. Values are exact
 * decimals (`real`), not binary floating point.
 */
module Numbers {
  import opened Wrappers

  predicate IsDigit(c: char) {
    '0' <= c <= '9'
  }

  /** The characters of the regular-expression class `[-0-9.]`. */
  predicate IsNumeralChar(c: char) {
    c == '-' || c == '.' || IsDigit(c)
  }

  predicate AllDigits(s: string) {
    forall k :: 0 <= k < |s| ==> IsDigit(s[k])
  }

  predicate AllNumeralChars(s: string) {
    forall k :: 0 <= k < |s| ==> IsNumeralChar(s[k])
  }

  /** The parts of a decimal literal: sign, digits before the point, and the point with the digits after it. */
  datatype DecimalLiteral = DecimalLiteral(negative: bool, whole: string, fraction: Option<string>)

  function FractionDigits(d: DecimalLiteral): string {
    match d.fraction
    case None => []
    case Some(f) => f
  }

  /** Only digits in both parts, and at least one digit in all (so `"."`, `"-"` and `"-."` are not literals). */
  predicate WellFormed(d: DecimalLiteral) {
    && AllDigits(d.whole)
    && AllDigits(FractionDigits(d))
    && |d.whole| + |FractionDigits(d)| > 0
  }

  /** The text after the sign of a literal. */
  function Unsigned(d: DecimalLiteral): string {
    d.whole + (match d.fraction case None => "" case Some(f) => "." + f)
  }

  /** The text of a literal. */
  function Render(d: DecimalLiteral): string {
    (if d.negative then "-" else "") + Unsigned(d)
  }

  /** The index of the first `.` in `s`, or `|s|` when there is none. */
  function PointIndex(s: string): (k: nat)
    ensures k <= |s|
    ensures forall j :: 0 <= j < k ==> s[j] != '.'
    ensures k < |s| ==> s[k] == '.'
  {
    if s == [] || s[0] == '.' then 0
    else
      var k := 1 + PointIndex(s[1..]);
      assert forall j :: 1 <= j < k ==> s[j] == s[1..][j - 1];
      k
  }

  /** Cuts a body at its first point: the text before it and, when there is one, the text after it. */
  function Cut(negative: bool, body: string): DecimalLiteral {
    var k := PointIndex(body);
    DecimalLiteral(negative, body[..k], if k == |body| then None else Some(body[k + 1..]))
  }

  /** Cuts a token into a sign, the text up to the first point and the text after it. */
  function Parts(tok: string): DecimalLiteral {
    if |tok| > 0 && tok[0] == '-' then Cut(true, tok[1..]) else Cut(false, tok)
  }

  /** Reads a token as a decimal literal, when its parts make one. */
  function Lex(tok: string): Option<DecimalLiteral> {
    var d := Parts(tok);
    if WellFormed(d) then Some(d) else None
  }

  lemma PointIndexAfterDigits(whole: string, rest: string)
    requires AllDigits(whole)
    requires rest == [] || rest[0] == '.'
    ensures PointIndex(whole + rest) == |whole|
  {
    var s := whole + rest;
    assert forall j :: 0 <= j < |whole| ==> s[j] == whole[j];
    assert |whole| < |s| ==> s[|whole|] == rest[0];
  }

  /** Cutting a body of digits, maybe a point and digits, gives those parts back. */
  lemma {:induction false} PointSplitsUnsigned(d: DecimalLiteral)
    requires WellFormed(d)
    ensures Cut(d.negative, Unsigned(d)) == d
  {
    match d.fraction
    case None =>
      assert Unsigned(d) == d.whole + "";
      PointIndexAfterDigits(d.whole, "");
      assert (d.whole + "")[..|d.whole|] == d.whole;
    case Some(f) =>
      var body := d.whole + ("." + f);
      assert Unsigned(d) == body;
      PointIndexAfterDigits(d.whole, "." + f);
      assert body[..|d.whole|] == d.whole;
      assert body[|d.whole| + 1..] == f;
  }

  lemma UnsignedStartsWell(d: DecimalLiteral)
    requires WellFormed(d)
    ensures Unsigned(d) != [] && Unsigned(d)[0] != '-'
  {
    if d.whole != [] {
      assert Unsigned(d)[0] == d.whole[0];
    } else {
      assert Unsigned(d)[0] == '.';
    }
  }

  /** Rendering a well-formed literal and cutting the text gives the literal back. */
  lemma {:induction false} PartsOfRender(d: DecimalLiteral)
    requires WellFormed(d)
    ensures Parts(Render(d)) == d
  {
    var body := Unsigned(d);
    UnsignedStartsWell(d);
    PointSplitsUnsigned(d);
    if d.negative {
      var tok := "-" + body;
      assert Render(d) == tok;
      assert tok[0] == '-' && tok[1..] == body;
    } else {
      assert Render(d) == body;
    }
  }

  /** Cutting a body and putting the parts back together gives the body back. */
  lemma UnsignedOfCut(negative: bool, body: string)
    ensures Unsigned(Cut(negative, body)) == body
  {
    var k := PointIndex(body);
    if k == |body| {
      assert body[..k] == body;
    } else {
      assert body == body[..k] + ("." + body[k + 1..]);
    }
  }

  /** Cutting a token and rendering the parts gives the token back. */
  lemma {:induction false} RenderOfParts(tok: string)
    ensures Render(Parts(tok)) == tok
  {
    if |tok| > 0 && tok[0] == '-' {
      UnsignedOfCut(true, tok[1..]);
      assert tok == "-" + tok[1..];
    } else {
      UnsignedOfCut(false, tok);
    }
  }

  /** Rendering a well-formed literal and lexing the text gives the literal back. */
  lemma LexOfRender(d: DecimalLiteral)
    requires WellFormed(d)
    ensures Lex(Render(d)) == Some(d)
  {
    PartsOfRender(d);
  }

  /** What a token lexes to is well formed, and its text is the token. */
  lemma RenderOfLex(tok: string)
    requires Lex(tok).Some?
    ensures WellFormed(Lex(tok).value) && Render(Lex(tok).value) == tok
  {
    RenderOfParts(tok);
  }

  /** Lexing and rendering are inverse: a token lexes to a literal exactly when it is that literal's text. */
  lemma LexRender(tok: string, d: DecimalLiteral)
    ensures Lex(tok) == Some(d) <==> WellFormed(d) && Render(d) == tok
  {
    if WellFormed(d) && Render(d) == tok {
      LexOfRender(d);
    }
    if Lex(tok) == Some(d) {
      RenderOfLex(tok);
    }
  }

  /** The number a string of decimal digits denotes. */
  function DigitsValue(s: string): nat
    requires AllDigits(s)
  {
    if s == [] then 0 else 10 * DigitsValue(s[..|s| - 1]) + (s[|s| - 1] as int - '0' as int)
  }

  function Pow10(n: nat): (p: nat)
    ensures p >= 1
  {
    if n == 0 then 1 else 10 * Pow10(n - 1)
  }

  /** The exact value of a literal: whole part plus fraction digits over a power of ten, negated for a minus sign. */
  function Value(d: DecimalLiteral): real
    requires WellFormed(d)
  {
    var f := FractionDigits(d);
    var magnitude := DigitsValue(d.whole) as real + DigitsValue(f) as real / Pow10(|f|) as real;
    if d.negative then -magnitude else magnitude
  }

  /** `float(tok)` for a token over `-0123456789.`: the value it denotes, or None where Python raises `ValueError`. */
  function ParseFloat(tok: string): Option<real>
    requires AllNumeralChars(tok)
  {
    match Lex(tok)
    case None => None
    case Some(d) => Some(Value(d))
  }

  lemma RenderIsNumeral(d: DecimalLiteral)
    requires WellFormed(d)
    ensures AllNumeralChars(Render(d))
  {
  }

  /** Every well-formed literal is accepted, with the value it denotes. */
  lemma ParseFloatAccepts(d: DecimalLiteral)
    requires WellFormed(d)
    ensures AllNumeralChars(Render(d)) && ParseFloat(Render(d)) == Some(Value(d))
  {
    RenderIsNumeral(d);
    LexRender(Render(d), d);
  }

  /** A token that is the text of no well-formed literal is rejected. */
  lemma ParseFloatRejects(tok: string)
    requires AllNumeralChars(tok)
    requires forall d :: WellFormed(d) ==> Render(d) != tok
    ensures ParseFloat(tok) == None
  {
    if Lex(tok).Some? {
      LexRender(tok, Lex(tok).value);
    }
  }

  /** In the text of a literal, a `-` can only lead and the only `.` follows the whole part. */
  lemma RenderAt(d: DecimalLiteral, i: nat)
    requires WellFormed(d) && i < |Render(d)|
    ensures Render(d)[i] == '-' <==> i == 0 && d.negative
    ensures Render(d)[i] == '.' <==> i == (if d.negative then 1 else 0) + |d.whole|
  {
    var off := if d.negative then 1 else 0;
    var f := FractionDigits(d);
    if i < off {
      assert Render(d)[i] == '-';
    } else if i < off + |d.whole| {
      assert Render(d)[i] == d.whole[i - off];
    } else if i == off + |d.whole| {
      assert Render(d)[i] == '.';
    } else {
      assert Render(d)[i] == f[i - off - |d.whole| - 1];
    }
  }

  /** The text of a literal holds a digit. */
  lemma RenderHasDigit(d: DecimalLiteral) returns (i: nat)
    requires WellFormed(d)
    ensures i < |Render(d)| && IsDigit(Render(d)[i])
  {
    var off := if d.negative then 1 else 0;
    if d.whole != [] {
      i := off;
      assert Render(d)[i] == d.whole[0];
    } else {
      i := off + 1;
      assert Render(d)[i] == FractionDigits(d)[0];
    }
  }

  /** A `-` anywhere but in front makes `float` raise. */
  lemma MisplacedSignRejected(tok: string, i: nat)
    requires AllNumeralChars(tok) && 0 < i < |tok| && tok[i] == '-'
    ensures ParseFloat(tok) == None
  {
    if Lex(tok).Some? {
      RenderOfLex(tok);
      RenderAt(Lex(tok).value, i);
    }
  }

  /** A second `.` makes `float` raise. */
  lemma TwoPointsRejected(tok: string, i: nat, j: nat)
    requires AllNumeralChars(tok) && i < j < |tok| && tok[i] == '.' && tok[j] == '.'
    ensures ParseFloat(tok) == None
  {
    if Lex(tok).Some? {
      RenderOfLex(tok);
      RenderAt(Lex(tok).value, i);
      RenderAt(Lex(tok).value, j);
    }
  }

  /** A token without a digit makes `float` raise. */
  lemma NoDigitRejected(tok: string)
    requires AllNumeralChars(tok) && forall k :: 0 <= k < |tok| ==> !IsDigit(tok[k])
    ensures ParseFloat(tok) == None
  {
    if Lex(tok).Some? {
      RenderOfLex(tok);
      var i := RenderHasDigit(Lex(tok).value);
    }
  }

  /** A lone sign or a lone point: the pattern can capture these, but `float` refuses them. */
  lemma DigitlessTokens()
    ensures ParseFloat("-") == None
    ensures ParseFloat(".") == None
  {
    NoDigitRejected("-");
    NoDigitRejected(".");
  }

  /** A second decimal point is refused. */
  lemma TwoPointsToken()
    ensures ParseFloat("1.2.3") == None
  {
    TwoPointsRejected("1.2.3", 1, 3);
  }

  /** A minus sign anywhere but first is refused. */
  lemma MisplacedSignTokens()
    ensures ParseFloat("--5") == None
    ensures ParseFloat("5-") == None
  {
    MisplacedSignRejected("--5", 1);
    MisplacedSignRejected("5-", 1);
  }

  /** `-7.20` is the text of a well-formed literal whose value is -7.2. */
  lemma MinusSevenPointTwoLiteral()
    ensures var d := DecimalLiteral(true, "7", Some("20")); WellFormed(d) && Render(d) == "-7.20" && Value(d) == -7.2
  {
    assert DigitsValue("2") == 2;
    assert DigitsValue("20") == 20;
  }

  /** The score a rank-1 line `-7.20 kcal/mol` carries. */
  lemma ScoreMinusSevenPointTwo()
    ensures ParseFloat("-7.20") == Some(-7.2)
  {
    var d := DecimalLiteral(true, "7", Some("20"));
    MinusSevenPointTwoLiteral();
    ParseFloatAccepts(d);
  }

  lemma MinusPointFiveLiteral()
    ensures var d := DecimalLiteral(true, "", Some("5")); WellFormed(d) && Render(d) == "-.5" && Value(d) == -0.5
  {
    assert DigitsValue("5") == 5;
  }

  /** A literal with no whole part. */
  lemma NoWholePart()
    ensures ParseFloat("-.5") == Some(-0.5)
  {
    var d := DecimalLiteral(true, "", Some("5"));
    MinusPointFiveLiteral();
    ParseFloatAccepts(d);
  }

  lemma TwelvePointLiteral()
    ensures var d := DecimalLiteral(false, "12", Some("")); WellFormed(d) && Render(d) == "12." && Value(d) == 12.0
  {
    assert DigitsValue("1") == 1;
    assert DigitsValue("12") == 12;
  }

  /** A literal with a point and no digits after it. */
  lemma NoFractionDigits()
    ensures ParseFloat("12.") == Some(12.0)
  {
    var d := DecimalLiteral(false, "12", Some(""));
    TwelvePointLiteral();
    ParseFloatAccepts(d);
  }
}
