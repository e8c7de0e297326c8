/** Number literals of the expression parser: which texts are numbers, and what number each one is.

    A literal is a sign, digits, and for a float a point with more digits behind it; digits may be left off on one
    side of the point.  The value of a float literal is given without division: times the power of ten for its
    decimal places, it is its digits read as one whole number. */
module NumericLiterals {
  import opened Numerals
  import opened NumericParser
  import opened Options
  import Powers

  predicate IsSignText(sign: string) { sign == "" || sign == "+" || sign == "-" }

  function Signed(sign: string, n: int): int { if sign == "-" then -n else n }

  predicate IsFloatText(text: string, sign: string, w: string, f: string) {
    IsSignText(sign) && AreDigits(w) && AreDigits(f) && w + f != "" && text == sign + (w + ("." + f))
  }

  predicate IsIntText(text: string, sign: string, w: string) {
    IsSignText(sign) && AreDigits(w) && w != "" && text == sign + w
  }

  lemma DigitsOf(a: string, w: string, b: string)
    requires AreDigits(w) && (b == "" || !IsDigit(b[0]))
    ensures Digits(a + (w + b), |a|) == |a| + |w|
  {
    var s := a + (w + b);
    assert forall i :: 0 <= i < |w| ==> s[|a| + i] == w[i];
    assert s[|a| + |w|..] == b;
  }

  lemma SignOf(sign: string, rest: string)
    requires IsSignText(sign) && (rest == "" || !IsSign(rest[0]))
    ensures PastSign(sign + rest, 0) == |sign|
  {
    assert sign == "" ==> sign + rest == rest;
  }

  lemma NoSign(w: string, rest: string)
    requires AreDigits(w) && (rest == "" || !IsSign(rest[0]))
    ensures w + rest == "" || !IsSign((w + rest)[0])
  {
    assert w == "" ==> w + rest == rest;
  }

  lemma FloatEndOf(text: string, sign: string, w: string, f: string)
    requires IsFloatText(text, sign, w, f)
    ensures FloatEnd(text, 0) == Some(|text|)
    ensures Digits(text, PastSign(text, 0)) == |sign| + |w|
  {
    hide Digits, AreDigits, PastSign, FloatEnd, IsSignText;
    NoSign(w, "." + f);
    SignOf(sign, w + ("." + f));
    DigitsOf(sign, w, "." + f);
    PointAt(sign, w, f);
    DigitsOf(sign + w + ".", f, "");
    assert w == "" ==> f != "";
    FloatEndIs(text, |sign|, |sign| + |w|);
  }

  lemma PointAt(sign: string, w: string, f: string)
    ensures var text := sign + (w + ("." + f)); text == (sign + w + ".") + (f + "") && text[|sign| + |w|] == '.'
  {
  }

  lemma FloatEndIs(s: string, a: nat, b: nat)
    requires a == PastSign(s, 0) && b == Digits(s, a) && b < |s| && s[b] == '.'
    requires Digits(s, b + 1) == |s| && (b > a || |s| > b + 1)
    ensures FloatEnd(s, 0) == Some(|s|)
  {
    hide Digits, PastSign;
  }

  lemma IntOfDigits(sign: string, w: string)
    requires IsSignText(sign) && AreDigits(w)
    ensures IntOf(sign + w) == Signed(sign, Value(w))
  {
    assert sign != "" ==> (sign + w)[1..] == w;
    assert sign == "" ==> sign + w == w;
  }

  lemma TenthsUndone(k: nat)
    ensures Powers.RealPow(10, 0 - k) * Powers.Pow(10, k) as real == 1.0
  {
    hide *;
    Powers.Whole(10, k);
    var down := 0 - k;
    Powers.Inverse(10, down);
    assert -down == k;
  }

  lemma OneLeft(x: real, y: real, z: real)
    requires y * z == 1.0
    ensures x * y * z == x
  {
    Powers.Assoc(x, y, z);
  }

  lemma FloatFound(text: string, sign: string, w: string, f: string)
    requires IsFloatText(text, sign, w, f)
    ensures NumberAt(text, 0) == Some((Float(FloatOf(text)), |text|))
  {
    hide Digits, FloatOf, FloatEnd, IsFloatText;
    FloatEndOf(text, sign, w, f);
    assert text[0..|text|] == text;
  }

  lemma FloatOfDigits(text: string, sign: string, w: string, f: string)
    requires IsFloatText(text, sign, w, f)
    ensures FloatOf(text) == Signed(sign, Value(w + f)) as real * Powers.RealPow(10, 0 - |f|)
  {
    hide Digits, Value, FloatEnd, IntOf, Powers.RealPow, IsFloatText;
    FloatEndOf(text, sign, w, f);
    WithoutPoint(text, sign, w, f);
    FloatParts(text, sign, w, f);
    IntOfDigits(sign, w + f);
  }

  lemma FloatParts(text: string, sign: string, w: string, f: string)
    requires IsFloatText(text, sign, w, f)
    ensures IsSignText(sign) && AreDigits(w + f) && |text| == |sign| + |w| + 1 + |f|
  {
  }

  lemma WithoutPoint(text: string, sign: string, w: string, f: string)
    requires IsFloatText(text, sign, w, f)
    ensures |sign| + |w| < |text| && text[..|sign| + |w|] + text[|sign| + |w| + 1..] == sign + (w + f)
  {
    var k := |sign| + |w|;
    assert text[..k] == sign + w && text[k + 1..] == f;
  }

  /** A text with a point is a float: its digits as a whole number, over a power of ten. */
  lemma FloatLiteral(text: string, sign: string, w: string, f: string)
    requires IsFloatText(text, sign, w, f)
    ensures NumberAt(text, 0) == Some((Float(FloatOf(text)), |text|))
    ensures var p := Powers.Pow(10, |f|);
      FloatOf(text) * p as real == Signed(sign, Value(w) * p + Value(f)) as real
  {
    hide *;
    FloatFound(text, sign, w, f);
    FloatOfDigits(text, sign, w, f);
    ValueOfDigits(w, f);
    TenthsUndone(|f|);
    OneLeft(Signed(sign, Value(w + f)) as real, Powers.RealPow(10, 0 - |f|), Powers.Pow(10, |f|) as real);
  }

  /** A text without a point is a whole number. */
  lemma IntLiteral(text: string, sign: string, w: string)
    requires IsIntText(text, sign, w)
    ensures NumberAt(text, 0) == Some((Int(Signed(sign, Value(w))), |text|))
  {
    hide Digits, Value;
    SignOf(sign, w);
    assert text == sign + (w + "");
    DigitsOf(sign, w, "");
    IntOfDigits(sign, w);
    assert text[0..|text|] == text;
  }

  /** There are no other numbers. */
  lemma NumberText(text: string) returns (sign: string, w: string, f: string)
    requires NumberAt(text, 0).Some? && NumberAt(text, 0).value.1 == |text|
    ensures if NumberAt(text, 0).value.0.Float? then IsFloatText(text, sign, w, f) else IsIntText(text, sign, w)
  {
    hide Digits, FloatOf, IntOf, IsFloatText, IsIntText;
    var a := PastSign(text, 0);
    var b := Digits(text, a);
    sign, w := text[..a], text[a..b];
    f := if b < |text| then text[b + 1..] else "";
    if NumberAt(text, 0).value.0.Float? {
      FloatTextOf(text, a, b);
    } else {
      IntTextOf(text, a);
    }
  }

  lemma FloatTextOf(text: string, a: nat, b: nat)
    requires a == PastSign(text, 0) && b == Digits(text, a) && FloatEnd(text, 0) == Some(|text|)
    ensures b < |text| && IsFloatText(text, text[..a], text[a..b], text[b + 1..])
  {
    SignFrom(text);
    hide Digits, AreDigits, PastSign, IsSignText;
    var w, f := text[a..b], text[b + 1..];
    DigitsFrom(text, a, b);
    DigitsFrom(text, b + 1, |text|);
    assert f == text[b + 1..|text|] && |w + f| > 0;
    assert text == text[..a] + (w + ("." + f));
  }

  lemma SignFrom(text: string)
    ensures IsSignText(text[..PastSign(text, 0)])
  {
  }

  lemma DigitsFrom(s: string, a: nat, b: nat)
    requires a <= b <= |s| && Digits(s, a) == b
    ensures AreDigits(s[a..b])
  {
  }

  lemma IntTextOf(text: string, a: nat)
    requires a == PastSign(text, 0) && IntEnd(text, 0) == Some(|text|)
    ensures Digits(text, a) == |text| && IsIntText(text, text[..a], text[a..|text|])
  {
    hide Digits, AreDigits;
    DigitsFrom(text, a, |text|);
  }

  lemma Negated(x: real, y: real)
    ensures x * -y == -(x * y) && x * y == y * x && x * -y == -y * x
  {
  }

  /** The sign in front of a float literal is that of its value. */
  lemma SignOfFloat(w: string, f: string)
    requires AreDigits(w) && AreDigits(f) && w + f != ""
    ensures FloatOf("-" + (w + ("." + f))) == -FloatOf(w + ("." + f))
    ensures FloatOf("+" + (w + ("." + f))) == FloatOf(w + ("." + f))
  {
    hide FloatOf, NumberAt, Value, Powers.Pow;
    var t := w + ("." + f);
    var p := Powers.Pow(10, |f|) as real;
    assert "" + t == t;
    FloatLiteral(t, "", w, f);
    FloatLiteral("-" + t, "-", w, f);
    FloatLiteral("+" + t, "+", w, f);
    Negated(p, FloatOf(t));
    Negated(p, FloatOf("-" + t));
    Negated(p, FloatOf("+" + t));
    Powers.Same(p, FloatOf("-" + t), -FloatOf(t));
    Powers.Same(p, FloatOf("+" + t), FloatOf(t));
  }
}
