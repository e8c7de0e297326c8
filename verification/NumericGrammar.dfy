/** The language of the numeric expression parser: its grammar, and the proof that the parser accepts exactly
    the texts the grammar gives, with operators of one rank grouped from the left and * and / before + and -.

    A `Sum` is a text's structure with every blank and parenthesis in it; `Text` writes it out and `Tree` is
    what it stands for. */
module NumericGrammar {
  import opened Numerals
  import opened NumericLiterals
  import opened NumericParser
  import opened Options
  import Powers

  datatype Fac = Literal(blank: string, text: string) | Paren(blank: string, inner: Sum, close: string)

  datatype Product = One(f: Fac) | Times(left: Product, blank: string, op: char, right: Fac)

  datatype Sum = Just(t: Product) | Plus(left: Sum, blank: string, op: char, right: Product)

  predicate Blanks(s: string) {
    forall i :: 0 <= i < |s| ==> s[i] == ' ' || s[i] == '\t' || s[i] == '\n'
  }

  predicate IsNumber(text: string) { NumberAt(text, 0).Some? && NumberAt(text, 0).value.1 == |text| }

  predicate WfFac(f: Fac) {
    match f
    case Literal(blank, text) => Blanks(blank) && IsNumber(text)
    case Paren(blank, inner, close) => Blanks(blank) && WfSum(inner) && Blanks(close)
  }

  predicate WfProduct(t: Product) {
    match t
    case One(f) => WfFac(f)
    case Times(left, blank, op, right) => WfProduct(left) && Blanks(blank) && (op == '*' || op == '/') && WfFac(right)
  }

  predicate WfSum(e: Sum) {
    match e
    case Just(t) => WfProduct(t)
    case Plus(left, blank, op, right) => WfSum(left) && Blanks(blank) && (op == '+' || op == '-') && WfProduct(right)
  }

  function FacText(f: Fac): string {
    match f
    case Literal(blank, text) => blank + text
    case Paren(blank, inner, close) => blank + ("(" + (SumText(inner) + (close + ")")))
  }

  function ProductText(t: Product): string {
    match t
    case One(f) => FacText(f)
    case Times(left, blank, op, right) => ProductText(left) + (blank + ([op] + FacText(right)))
  }

  function SumText(e: Sum): string {
    match e
    case Just(t) => ProductText(t)
    case Plus(left, blank, op, right) => SumText(left) + (blank + ([op] + ProductText(right)))
  }

  function FacTree(f: Fac): Node
    requires WfFac(f)
  {
    match f
    case Literal(_, text) => Leaf(NumberAt(text, 0).value.0)
    case Paren(_, inner, _) => SumTree(inner)
  }

  function ProductTree(t: Product): Node
    requires WfProduct(t)
  {
    match t
    case One(f) => FacTree(f)
    case Times(left, _, op, right) => Operation(if op == '*' then Mul else Div, ProductTree(left), FacTree(right))
  }

  function SumTree(e: Sum): Node
    requires WfSum(e)
  {
    match e
    case Just(t) => ProductTree(t)
    case Plus(left, _, op, right) => Operation(if op == '+' then Add else Sub, SumTree(left), ProductTree(right))
  }

  // ---------------------------------------------------------------------------------------------
  // Texts at a place in a text
  // ---------------------------------------------------------------------------------------------

  predicate At(s: string, p: nat, t: string) { p + |t| <= |s| && s[p..p + |t|] == t }

  lemma AtParts(s: string, p: nat, a: string, b: string)
    requires At(s, p, a + b)
    ensures At(s, p, a) && At(s, p + |a|, b)
  {
    assert s[p..p + |a|] == (a + b)[..|a|];
    assert s[p + |a|..p + |a| + |b|] == (a + b)[|a|..];
  }

  lemma AtJoined(s: string, p: nat, a: string, b: string)
    requires At(s, p, a) && At(s, p + |a|, b)
    ensures At(s, p, a + b)
  {
    assert s[p..p + |a + b|] == s[p..p + |a|] + s[p + |a|..p + |a| + |b|];
  }

  lemma {:induction false} SkipBlanks(s: string, p: nat, blank: string)
    requires At(s, p, blank) && Blanks(blank)
    ensures Skip(s, p) == Skip(s, p + |blank|)
    decreases |blank|
  {
    if blank != "" {
      var rest := blank[1..];
      assert blank == [blank[0]] + rest;
      AtParts(s, p, [blank[0]], rest);
      assert s[p] == s[p..p + |blank|][0];
      assert forall i :: 0 <= i < |rest| ==> rest[i] == blank[i + 1];
      SkipBlanks(s, p + 1, rest);
    }
  }

  /** A number may end here. */
  predicate Ends(s: string, q: nat) { q <= |s| && (q < |s| ==> !IsDigit(s[q]) && s[q] != '.') }

  lemma {:induction false} DigitsShift(s: string, p: nat, text: string, i: nat)
    requires At(s, p, text) && i <= |text| && Ends(s, p + |text|)
    ensures Digits(s, p + i) == p + Digits(text, i)
    decreases |text| - i
  {
    if i < |text| {
      assert s[p + i] == s[p..p + |text|][i] == text[i];
      if IsDigit(text[i]) {
        DigitsShift(s, p, text, i + 1);
      }
    }
  }

  /** A number is read the same wherever it stands. */
  lemma NumberShift(s: string, p: nat, text: string)
    requires At(s, p, text) && Ends(s, p + |text|) && IsNumber(text)
    ensures NumberAt(s, p) == Some((NumberAt(text, 0).value.0, p + |text|))
  {
    hide Digits, FloatOf, IntOf;
    assert forall i :: 0 <= i < |text| ==> text[i] == s[p..p + |text|][i];
    var a := PastSign(text, 0);
    var b := Digits(text, a);
    DigitsShift(s, p, text, a);
    if b < |text| {
      DigitsShift(s, p, text, b + 1);
    }
    assert text[0..|text|] == text;
  }

  // ---------------------------------------------------------------------------------------------
  // The parser accepts what the grammar gives
  // ---------------------------------------------------------------------------------------------

  predicate NoMulOpAt(s: string, q: nat)
    requires q <= |s|
  {
    Skip(s, q) < |s| ==> MulOp(s[Skip(s, q)]).None?
  }

  /** What stands before an operator or a closing parenthesis. */
  lemma BeforeMark(s: string, p: nat, blank: string, c: char)
    requires At(s, p, blank) && Blanks(blank) && At(s, p + |blank|, [c]) && !Blank(c) && !IsDigit(c) && c != '.'
    ensures Skip(s, p) == p + |blank| < |s| && s[p + |blank|] == c && Ends(s, p)
  {
    SkipBlanks(s, p, blank);
    assert s[p + |blank|] == s[p + |blank|..p + |blank| + 1][0];
    if blank != "" {
      assert s[p] == s[p..p + |blank|][0] == blank[0];
    }
  }

  lemma FactorOfLiteral(s: string, p: nat, f: Fac)
    requires f.Literal? && WfFac(f) && At(s, p, FacText(f)) && Ends(s, p + |FacText(f)|)
    ensures Factor(s, p) == Ok((FacTree(f), p + |FacText(f)|))
  {
    hide NumberAt, At, Ends, Skip, Blanks, Factor;
    Within(s, p, FacText(f));
    AtParts(s, p, f.blank, f.text);
    SkipBlanks(s, p, f.blank);
    NumberShift(s, p + |f.blank|, f.text);
    NumberStart(s, p + |f.blank|);
    FactorOfNumber(s, p, NumberAt(f.text, 0).value.0, p + |FacText(f)|);
  }

  lemma FactorOfNumber(s: string, p: nat, number: Number, end: nat)
    requires p <= |s| && NumberAt(s, Skip(s, p)) == Some((number, end))
    ensures Factor(s, p) == Ok((Leaf(number), end))
  {
  }

  lemma NumberStart(s: string, p: nat)
    requires p <= |s| && NumberAt(s, p).Some?
    ensures p < |s| && !Blank(s[p]) && Skip(s, p) == p && s[p] != '('
  {
  }

  lemma FactorOfParen(s: string, p: nat, blank: string, node: Node, end: nat)
    requires At(s, p, blank) && Blanks(blank) && At(s, p + |blank|, "(")
    requires Expression(s, p + |blank| + 1) == Ok((node, end))
    requires end <= |s| && Skip(s, end) < |s| && s[Skip(s, end)] == ')'
    ensures Factor(s, p) == Ok((node, Skip(s, end) + 1))
  {
    hide Expression, Skip, NumberAt;
    BeforeMark(s, p, blank, '(');
    NoNumber(s, p + |blank|);
  }

  lemma NoNumber(s: string, p: nat)
    requires p < |s| && s[p] == '('
    ensures NumberAt(s, p).None?
  {
  }

  lemma ParenParts(s: string, p: nat, blank: string, inner: string, close: string, node: Node)
    requires At(s, p, blank + ("(" + (inner + (close + ")")))) && Blanks(close)
    ensures At(s, p, blank) && At(s, p + |blank|, "(") && At(s, p + |blank| + 1, inner)
    ensures var end := p + |blank| + 1 + |inner|;
      && end + |close| < |s| && Ends(s, end) && NoMulOpAt(s, end)
      && Skip(s, end + |close|) == end + |close| && s[end + |close|] == ')'
      && Terms(s, node, end) == Ok((node, end + |close|))
  {
    hide At, Skip, Ends, Blanks;
    AtParts(s, p, blank, "(" + (inner + (close + ")")));
    AtParts(s, p + |blank|, "(", inner + (close + ")"));
    AtParts(s, p + |blank| + 1, inner, close + ")");
    var end := p + |blank| + 1 + |inner|;
    AtParts(s, end, close, ")");
    BeforeMark(s, end, close, ')');
    TermsEnd(s, node, end);
    SkipTwice(s, end);
  }

  lemma {:induction false} FacAt(s: string, p: nat, f: Fac)
    requires WfFac(f) && At(s, p, FacText(f)) && Ends(s, p + |FacText(f)|)
    ensures Factor(s, p) == Ok((FacTree(f), p + |FacText(f)|))
    decreases f
  {
    hide Factor, Expression, Terms, Skip, At, Ends, SumText, SumTree, Blanks, NoMulOpAt;
    match f
    case Literal(_, _) => FactorOfLiteral(s, p, f);
    case Paren(blank, inner, close) =>
      ParenParts(s, p, blank, SumText(inner), close, SumTree(inner));
      SumAt(s, p + |blank| + 1, inner);
      FactorOfParen(s, p, blank, SumTree(inner), p + |blank| + 1 + |SumText(inner)| + |close|);
  }

  lemma SkipTwice(s: string, p: nat)
    requires p <= |s|
    ensures Skip(s, Skip(s, p)) == Skip(s, p)
  {
  }

  lemma TermsEnd(s: string, node: Node, p: nat)
    requires p <= |s| && (Skip(s, p) < |s| ==> AddOp(s[Skip(s, p)]).None?)
    ensures Terms(s, node, p) == Ok((node, Skip(s, p)))
  {
  }

  lemma FactorsEnd(s: string, node: Node, p: nat)
    requires p <= |s| && NoMulOpAt(s, p)
    ensures Factors(s, node, p) == Ok((node, Skip(s, p)))
  {
  }

  lemma TermsSkip(s: string, node: Node, p: nat)
    requires p <= |s|
    ensures Terms(s, node, Skip(s, p)) == Terms(s, node, p)
  {
    SkipTwice(s, p);
  }

  lemma OperatorIsMark(op: char)
    requires MulOp(op).Some? || AddOp(op).Some?
    ensures !Blank(op) && !IsDigit(op) && op != '.'
  {
  }

  lemma TimesStep(s: string, p: nat, node: Node, q: nat, blank: string, op: char, right: Node, end: nat)
    requires p <= |s| && q + |blank| < |s| && MulOp(op).Some?
    requires Term(s, p) == Factors(s, node, q)
    requires At(s, q, blank) && Blanks(blank) && At(s, q + |blank|, [op])
    requires end <= |s| && Factor(s, q + |blank| + 1) == Ok((right, end))
    ensures Term(s, p) == Factors(s, Operation(MulOp(op).value, node, right), end)
  {
    hide Term, Factor, Factors, Skip, At, Blanks;
    OperatorIsMark(op);
    BeforeMark(s, q, blank, op);
    FactorsStep(s, node, q);
  }

  lemma PlusStep(s: string, p: nat, node: Node, q: nat, blank: string, op: char, right: Node, end: nat)
    requires p <= |s| && q + |blank| < |s| && AddOp(op).Some?
    requires Expression(s, p) == Terms(s, node, q)
    requires At(s, q, blank) && Blanks(blank) && At(s, q + |blank|, [op])
    requires end <= |s| && Term(s, q + |blank| + 1) == Factors(s, right, end) && NoMulOpAt(s, end)
    ensures Expression(s, p) == Terms(s, Operation(AddOp(op).value, node, right), end)
  {
    hide Term, Terms, Factors, Expression, Skip, NoMulOpAt, At, Blanks;
    OperatorIsMark(op);
    BeforeMark(s, q, blank, op);
    TermsStep(s, node, q);
    FactorsEnd(s, right, end);
    TermsSkip(s, Operation(AddOp(op).value, node, right), end);
  }

  lemma FirstTerm(s: string, p: nat, node: Node, q: nat)
    requires p <= |s| && q <= |s| && Term(s, p) == Factors(s, node, q) && NoMulOpAt(s, q)
    ensures Expression(s, p) == Terms(s, node, q)
  {
    hide Term, Terms, Factors, Skip, NoMulOpAt;
    FactorsEnd(s, node, q);
    TermsSkip(s, node, q);
  }

  /** An operator ends what stands before it. */
  lemma OperatorAfter(s: string, q: nat, blank: string, op: char, right: string)
    requires At(s, q, blank + ([op] + right)) && Blanks(blank) && (MulOp(op).Some? || AddOp(op).Some?)
    ensures At(s, q, blank) && At(s, q + |blank|, [op]) && At(s, q + |blank| + 1, right)
    ensures Ends(s, q) && (AddOp(op).Some? ==> NoMulOpAt(s, q))
  {
    AtParts(s, q, blank, [op] + right);
    AtParts(s, q + |blank|, [op], right);
    BeforeMark(s, q, blank, op);
  }

  lemma TimesParts(s: string, p: nat, t: Product)
    requires t.Times? && WfProduct(t) && At(s, p, ProductText(t))
    ensures var q := p + |ProductText(t.left)|;
      && At(s, p, ProductText(t.left)) && At(s, q, t.blank) && At(s, q + |t.blank|, [t.op])
      && At(s, q + |t.blank| + 1, FacText(t.right)) && Ends(s, q)
      && p + |ProductText(t)| == q + |t.blank| + 1 + |FacText(t.right)| <= |s|
  {
    hide At, Ends, NoMulOpAt;
    Within(s, p, ProductText(t));
    AtParts(s, p, ProductText(t.left), t.blank + ([t.op] + FacText(t.right)));
    OperatorAfter(s, p + |ProductText(t.left)|, t.blank, t.op, FacText(t.right));
  }

  lemma {:induction false} ProductAt(s: string, p: nat, t: Product)
    requires WfProduct(t) && At(s, p, ProductText(t)) && Ends(s, p + |ProductText(t)|)
    ensures Term(s, p) == Factors(s, ProductTree(t), p + |ProductText(t)|)
    decreases t
  {
    hide Factor, Factors, Skip, Ends, NoMulOpAt, At, FacText, FacTree, WfFac, Blanks;
    match t
    case One(f) =>
      Within(s, p, ProductText(t));
      FacAt(s, p, f);
    case Times(left, blank, op, right) =>
      hide Term, ProductText;
      var q := p + |ProductText(left)|;
      TimesParts(s, p, t);
      ProductAt(s, p, left);
      FacAt(s, q + |blank| + 1, right);
      TimesStep(s, p, ProductTree(left), q, blank, op, FacTree(right), p + |ProductText(t)|);
  }

  lemma Within(s: string, p: nat, t: string)
    requires At(s, p, t)
    ensures p + |t| <= |s|
  {
  }

  lemma {:induction false} SumAt(s: string, p: nat, e: Sum)
    requires WfSum(e) && At(s, p, SumText(e)) && Ends(s, p + |SumText(e)|) && NoMulOpAt(s, p + |SumText(e)|)
    ensures Expression(s, p) == Terms(s, SumTree(e), p + |SumText(e)|)
    decreases e
  {
    hide Expression, Term, Terms, Factors, Skip, Ends, NoMulOpAt, At;
    Within(s, p, SumText(e));
    var end := p + |SumText(e)|;
    match e
    case Just(t) =>
      ProductAt(s, p, t);
      FirstTerm(s, p, ProductTree(t), end);
    case Plus(left, blank, op, right) =>
      hide ProductText, ProductTree, WfProduct, Blanks;
      AtParts(s, p, SumText(left), blank + ([op] + ProductText(right)));
      var q := p + |SumText(left)|;
      OperatorAfter(s, q, blank, op, ProductText(right));
      SumAt(s, p, left);
      ProductAt(s, q + |blank| + 1, right);
      Within(s, q + |blank| + 1, ProductText(right));
      PlusStep(s, p, SumTree(left), q, blank, op, ProductTree(right), end);
  }

  /** Every text of the grammar is parsed to the tree it stands for, whatever blanks it has. */
  lemma ParsesToItsTree(e: Sum, trailing: string)
    requires WfSum(e) && Blanks(trailing)
    ensures Parse(SumText(e) + trailing) == Ok(SumTree(e))
  {
    hide Expression, Terms, SumText, SumTree;
    var s := SumText(e) + trailing;
    var q := |SumText(e)|;
    assert At(s, 0, SumText(e)) && At(s, q, trailing);
    SkipBlanks(s, q, trailing);
    assert q < |s| ==> s[q] == trailing[0];
    SumAt(s, 0, e);
    TermsEnd(s, SumTree(e), q);
  }

  // ---------------------------------------------------------------------------------------------
  // The parser accepts nothing else
  // ---------------------------------------------------------------------------------------------

  lemma {:induction false} DigitsCut(s: string, p: nat, end: nat, i: nat)
    requires p + i <= end <= |s| && Digits(s, p + i) <= end
    ensures Digits(s[p..end], i) == Digits(s, p + i) - p
    decreases end - p - i
  {
    if p + i < end && IsDigit(s[p + i]) {
      DigitsCut(s, p, end, i + 1);
    }
  }

  lemma FloatCut(s: string, p: nat)
    requires p <= |s| && FloatEnd(s, p).Some?
    ensures FloatEnd(s[p..FloatEnd(s, p).value], 0) == Some(FloatEnd(s, p).value - p)
  {
    hide Digits;
    var end := FloatEnd(s, p).value;
    var a := PastSign(s, p);
    DigitsCut(s, p, end, a - p);
    DigitsCut(s, p, end, Digits(s, a) + 1 - p);
  }

  lemma IntCut(s: string, p: nat)
    requires p <= |s| && IntEnd(s, p).Some?
    ensures var text := s[p..IntEnd(s, p).value]; IntEnd(text, 0) == Some(|text|) && FloatEnd(text, 0) == None
  {
    hide Digits;
    DigitsCut(s, p, IntEnd(s, p).value, PastSign(s, p) - p);
  }

  lemma NumberCut(s: string, p: nat)
    requires p <= |s| && NumberAt(s, p).Some?
    ensures var (number, end) := NumberAt(s, p).value; NumberAt(s[p..end], 0) == Some((number, end - p))
  {
    hide FloatEnd, IntEnd, FloatOf, IntOf;
    var text := s[p..NumberAt(s, p).value.1];
    if FloatEnd(s, p).Some? {
      FloatCut(s, p);
    } else {
      IntCut(s, p);
    }
    assert text[0..|text|] == text;
  }

  lemma BlanksCut(s: string, p: nat)
    requires p <= |s|
    ensures Blanks(s[p..Skip(s, p)]) && At(s, p, s[p..Skip(s, p)])
  {
    var blank := s[p..Skip(s, p)];
    assert forall i :: 0 <= i < |blank| ==> blank[i] == s[p + i];
  }

  lemma LiteralFrom(s: string, p: nat) returns (f: Fac)
    requires p <= |s| && NumberAt(s, Skip(s, p)).Some?
    ensures WfFac(f) && At(s, p, FacText(f)) && Factor(s, p) == Ok((FacTree(f), p + |FacText(f)|))
  {
    hide NumberAt, Skip;
    var q := Skip(s, p);
    var (number, end) := NumberAt(s, q).value;
    NumberCut(s, q);
    BlanksCut(s, p);
    f := Literal(s[p..q], s[q..end]);
    AtJoined(s, p, s[p..q], s[q..end]);
  }

  /** The text of a parenthesis, put together. */
  lemma ParenJoined(s: string, p: nat, blank: string, inner: string, close: string)
    requires At(s, p, blank) && At(s, p + |blank|, "(") && At(s, p + |blank| + 1, inner)
    requires At(s, p + |blank| + 1 + |inner|, close) && At(s, p + |blank| + 1 + |inner| + |close|, ")")
    ensures At(s, p, blank + ("(" + (inner + (close + ")"))))
  {
    hide At;
    AtJoined(s, p + |blank| + 1 + |inner|, close, ")");
    AtJoined(s, p + |blank| + 1, inner, close + ")");
    AtJoined(s, p + |blank|, "(", inner + (close + ")"));
    AtJoined(s, p, blank, "(" + (inner + (close + ")")));
  }

  lemma {:induction false} FacFrom(s: string, p: nat) returns (f: Fac)
    requires p <= |s| && Factor(s, p).Ok?
    ensures WfFac(f) && At(s, p, FacText(f)) && Factor(s, p) == Ok((FacTree(f), p + |FacText(f)|))
    decreases |s| - p, 0
  {
    hide Factor, Skip, Expression, NumberAt, At;
    var q := Skip(s, p);
    if NumberAt(s, q).Some? {
      f := LiteralFrom(s, p);
    } else {
      var close := ParenAt(s, p);
      var e, m := SumFrom(s, q + 1);
      SkipTwice(s, m);
      BlanksCut(s, p);
      BlanksCut(s, m);
      f := Paren(s[p..q], e, s[m..close]);
      ParenJoined(s, p, s[p..q], SumText(e), s[m..close]);
    }
  }

  /** A factor that is not a number is a parenthesis. */
  lemma ParenAt(s: string, p: nat) returns (close: nat)
    requires p <= |s| && Factor(s, p).Ok? && NumberAt(s, Skip(s, p)).None?
    ensures var q := Skip(s, p);
      && q < |s| && At(s, q, "(") && Expression(s, q + 1).Ok?
      && close == Skip(s, Expression(s, q + 1).value.1) < |s| && At(s, close, ")")
      && Factor(s, p) == Ok((Expression(s, q + 1).value.0, close + 1))
  {
    hide NumberAt, Expression;
    close := Skip(s, Expression(s, Skip(s, p) + 1).value.1);
  }

  lemma {:induction false} ProductFrom(s: string, p: nat) returns (t: Product, m: nat)
    requires p <= |s| && Term(s, p).Ok?
    ensures WfProduct(t) && At(s, p, ProductText(t)) && m == p + |ProductText(t)|
    ensures m <= |s| && Term(s, p) == Ok((ProductTree(t), Skip(s, m)))
    decreases |s| - p, 1
  {
    hide Factor, Factors, Skip;
    var f := FacFrom(s, p);
    t, m := FactorsFrom(s, p, One(f), p + |FacText(f)|);
  }

  lemma {:induction false} FactorsFrom(s: string, p: nat, t0: Product, q: nat) returns (t: Product, m: nat)
    requires WfProduct(t0) && At(s, p, ProductText(t0)) && q == p + |ProductText(t0)|
    requires Factors(s, ProductTree(t0), q).Ok?
    ensures WfProduct(t) && At(s, p, ProductText(t)) && m == p + |ProductText(t)|
    ensures m <= |s| && Factors(s, ProductTree(t0), q) == Ok((ProductTree(t), Skip(s, m)))
    decreases |s| - q, 1
  {
    hide Factor, Factors, Skip, At, FacText, FacTree, WfFac;
    FactorsStep(s, ProductTree(t0), q);
    var op := Skip(s, q);
    if op == |s| || MulOp(s[op]).None? {
      t, m := t0, q;
    } else {
      var f := FacFrom(s, op + 1);
      var t1 := Times(t0, s[q..op], s[op], f);
      BlanksCut(s, q);
      OperatorJoined(s, p, ProductText(t0), op, FacText(f));
      t, m := FactorsFrom(s, p, t1, op + 1 + |FacText(f)|);
    }
  }

  lemma OperatorJoined(s: string, p: nat, left: string, op: nat, right: string)
    requires At(s, p, left) && p + |left| <= op < |s| && At(s, op + 1, right)
    ensures At(s, p, left + (s[p + |left|..op] + ([s[op]] + right)))
  {
    var q := p + |left|;
    AtJoined(s, op, [s[op]], right);
    AtJoined(s, q, s[q..op], [s[op]] + right);
    AtJoined(s, p, left, s[q..op] + ([s[op]] + right));
  }

  lemma {:induction false} SumFrom(s: string, p: nat) returns (e: Sum, m: nat)
    requires p <= |s| && Expression(s, p).Ok?
    ensures WfSum(e) && At(s, p, SumText(e)) && m == p + |SumText(e)|
    ensures m <= |s| && Expression(s, p) == Ok((SumTree(e), Skip(s, m)))
    decreases |s| - p, 3
  {
    hide Term, Terms, Skip;
    var t, q := ProductFrom(s, p);
    TermsSkip(s, ProductTree(t), q);
    e, m := TermsFrom(s, p, Just(t), q);
  }

  lemma {:induction false} TermsFrom(s: string, p: nat, e0: Sum, q: nat) returns (e: Sum, m: nat)
    requires WfSum(e0) && At(s, p, SumText(e0)) && q == p + |SumText(e0)|
    requires Terms(s, SumTree(e0), q).Ok?
    ensures WfSum(e) && At(s, p, SumText(e)) && m == p + |SumText(e)|
    ensures m <= |s| && Terms(s, SumTree(e0), q) == Ok((SumTree(e), Skip(s, m)))
    decreases |s| - q, 2
  {
    hide Term, Terms, Skip, At, ProductText, ProductTree, WfProduct;
    TermsStep(s, SumTree(e0), q);
    var op := Skip(s, q);
    if op == |s| || AddOp(s[op]).None? {
      e, m := e0, q;
    } else {
      var t, q1 := ProductFrom(s, op + 1);
      var e1 := Plus(e0, s[q..op], s[op], t);
      BlanksCut(s, q);
      OperatorJoined(s, p, SumText(e0), op, ProductText(t));
      TermsSkip(s, SumTree(e1), q1);
      e, m := TermsFrom(s, p, e1, q1);
    }
  }

  /** The text is a sum, with blanks at its end. */
  predicate Written(s: string, e: Sum, trailing: string) {
    WfSum(e) && Blanks(trailing) && s == SumText(e) + trailing
  }

  /** The structure of a text that parses. */
  lemma StructureOf(s: string) returns (e: Sum, trailing: string)
    requires Parse(s).Ok?
    ensures Written(s, e, trailing) && Parse(s) == Ok(SumTree(e))
  {
    hide Expression, Skip;
    var m;
    e, m := SumFrom(s, 0);
    BlanksCut(s, m);
    trailing := s[m..];
    assert s == s[..m] + s[m..];
  }

  ghost predicate IsTextOf(s: string, node: Node) {
    exists e, trailing :: Written(s, e, trailing) && SumTree(e) == node
  }

  /** The parser returns a tree just when the whole text is a sum of the grammar that stands for it; the
      blanks do not matter, and no text stands for two trees. */
  lemma ParserIsTheGrammar(s: string, node: Node)
    ensures Parse(s) == Ok(node) <==> IsTextOf(s, node)
  {
    hide Parse, SumText, SumTree, WfSum;
    if Parse(s) == Ok(node) {
      var e, trailing := StructureOf(s);
      assert Written(s, e, trailing) && SumTree(e) == node;
    }
    if IsTextOf(s, node) {
      var e, trailing :| Written(s, e, trailing) && SumTree(e) == node;
      ParsesToItsTree(e, trailing);
    }
  }

  // ---------------------------------------------------------------------------------------------
  // Texts that are not parsed
  // ---------------------------------------------------------------------------------------------

  /** A parenthesis that is not closed. */
  lemma MissingParenthesis(e: Sum)
    requires WfSum(e)
    ensures Parse("(" + SumText(e)) == Err(NoClosingParenthesis)
  {
    hide SumText, SumTree, WfSum, Expression, NumberAt, Terms;
    var s := "(" + SumText(e);
    assert At(s, 1, SumText(e));
    SumAt(s, 1, e);
    TermsEnd(s, SumTree(e), |s|);
    NoNumber(s, 0);
    UnclosedFactor(s, SumTree(e));
    NoFactorNoSum(s, NoClosingParenthesis);
  }

  lemma UnclosedFactor(s: string, node: Node)
    requires s != "" && s[0] == '(' && NumberAt(s, 0).None? && Expression(s, 1) == Ok((node, |s|))
    ensures Factor(s, 0) == Err(NoClosingParenthesis)
  {
  }

  lemma NoFactorNoSum(s: string, e: ParseError)
    requires Factor(s, 0) == Err(e)
    ensures Parse(s) == Err(e)
  {
    assert Term(s, 0) == Err(e) && Expression(s, 0) == Err(e);
  }

  /** A sign with no term behind it. */
  lemma MissingTerm(e: Sum, sign: char)
    requires WfSum(e) && (sign == '+' || sign == '-')
    ensures Parse(SumText(e) + [sign]) == Err(NoFactor)
  {
    hide SumText, SumTree, WfSum, Expression, Terms;
    var s, q := SumText(e) + [sign], |SumText(e)|;
    assert At(s, 0, SumText(e)) && s[q] == sign;
    SumAt(s, 0, e);
    TermsStep(s, SumTree(e), q);
    NothingThere(s);
  }

  lemma NothingThere(s: string)
    ensures Term(s, |s|) == Err(NoFactor)
  {
    assert Factor(s, |s|) == Err(NoFactor);
  }

  /** Something behind a sum that cannot belong to it. */
  lemma SomethingBehind(e: Sum, c: char, rest: string)
    requires WfSum(e) && !Blank(c) && !IsDigit(c) && c != '.' && MulOp(c).None? && AddOp(c).None?
    ensures Parse(SumText(e) + ([c] + rest)) == Err(NotAllConsumed)
  {
    hide SumText, SumTree, WfSum, Expression, Terms;
    var s, q := SumText(e) + ([c] + rest), |SumText(e)|;
    assert At(s, 0, SumText(e)) && s[q] == c;
    SumAt(s, 0, e);
    TermsEnd(s, SumTree(e), q);
  }

  // ---------------------------------------------------------------------------------------------
  // Writing a tree with no more parentheses than it needs
  // ---------------------------------------------------------------------------------------------

  /** A whole number, or one that a point and decimal places can write. */
  ghost predicate IsFinite(number: Number) {
    number.Float? ==> exists n, k :: IsDecimal(number.r, n, k)
  }

  predicate IsDecimal(r: real, n: int, k: nat) { r * Powers.Pow(10, k) as real == n as real }

  ghost predicate Finite(node: Node) {
    match node
    case Leaf(number) => IsFinite(number)
    case Operation(_, left, right) => Finite(left) && Finite(right)
  }

  predicate IsMul(op: Op) { op == Mul || op == Div }

  function Minus(n: int): string { if n < 0 then "-" else "" }

  function Size(n: int): nat { if n < 0 then -n else n }

  function Divided(n: nat, p: nat): (r: (nat, nat))
    requires p > 0
    ensures r.0 * p + r.1 == n && r.1 < p
  {
    (n / p, n % p)
  }

  function ShowDecimal(n: int, k: nat): string {
    var (whole, places) := Divided(Size(n), Powers.Pow(10, k));
    Minus(n) + (ShowDigits(whole) + ("." + ShowPlaces(places, k)))
  }

  ghost function Show(number: Number): string
    requires IsFinite(number)
  {
    match number
    case Int(n) => Minus(n) + ShowDigits(Size(n))
    case Float(r) => var n, k :| IsDecimal(r, n, k); ShowDecimal(n, k)
  }

  lemma ShowIsNumber(number: Number)
    requires IsFinite(number)
    ensures NumberAt(Show(number), 0) == Some((number, |Show(number)|))
  {
    hide ShowDigits, NumberAt, ShowDecimal, IsDecimal;
    if number.Int? {
      ShowIsInt(number.n);
    } else {
      var n, k :| IsDecimal(number.r, n, k) && Show(number) == ShowDecimal(n, k);
      ShowIsFloat(number.r, n, k);
    }
  }

  lemma DigitsShown(n: nat)
    ensures AreDigits(ShowDigits(n)) && ShowDigits(n) != "" && Value(ShowDigits(n)) == n
  {
    var s := ShowDigits(n);
    assert forall i :: 0 <= i < |s| ==> s[i] in s;
  }

  lemma ShowIsInt(n: int)
    ensures var text := Minus(n) + ShowDigits(Size(n)); NumberAt(text, 0) == Some((Int(n), |text|))
  {
    hide ShowDigits, NumberAt, AreDigits;
    DigitsShown(Size(n));
    IntLiteral(Minus(n) + ShowDigits(Size(n)), Minus(n), ShowDigits(Size(n)));
  }

  lemma ShowIsFloat(r: real, n: int, k: nat)
    requires IsDecimal(r, n, k)
    ensures NumberAt(ShowDecimal(n, k), 0) == Some((Float(r), |ShowDecimal(n, k)|))
  {
    hide *;
    var text := ShowDecimal(n, k);
    DecimalShown(n, k);
    SameDecimal(FloatOf(text), r, n, k);
  }

  lemma DecimalShown(n: int, k: nat)
    ensures var text := ShowDecimal(n, k);
      NumberAt(text, 0) == Some((Float(FloatOf(text)), |text|)) && IsDecimal(FloatOf(text), n, k)
  {
    hide ShowDigits, NumberAt, ShowPlaces, FloatOf, Powers.Pow, AreDigits, Value, Divided;
    var (whole, places) := Divided(Size(n), Powers.Pow(10, k));
    DigitsShown(whole);
    FloatLiteral(ShowDecimal(n, k), Minus(n), ShowDigits(whole), ShowPlaces(places, k));
  }

  lemma SameDecimal(x: real, y: real, n: int, k: nat)
    requires IsDecimal(x, n, k) && IsDecimal(y, n, k)
    ensures x == y
  {
    hide Powers.Pow;
    var p := Powers.Pow(10, k) as real;
    Commute(x, p);
    Commute(y, p);
    Powers.Same(p, x, y);
  }

  lemma Commute(x: real, y: real)
    ensures x * y == y * x
  {
  }

  /** Every number that can be written is one of these. */
  lemma LiteralIsFinite(text: string)
    requires IsNumber(text)
    ensures IsFinite(NumberAt(text, 0).value.0)
  {
    hide NumberAt, IsFloatText, IsIntText, IsDecimal;
    var sign, w, f := NumberText(text);
    if NumberAt(text, 0).value.0.Float? {
      FloatIsDecimal(text, sign, w, f);
    }
  }

  lemma FloatIsDecimal(text: string, sign: string, w: string, f: string)
    requires IsFloatText(text, sign, w, f)
    ensures NumberAt(text, 0) == Some((Float(FloatOf(text)), |text|))
    ensures IsDecimal(FloatOf(text), Signed(sign, Value(w) * Powers.Pow(10, |f|) + Value(f)), |f|)
  {
    hide NumberAt, FloatOf, Value, Powers.Pow, IsFloatText, Signed;
    FloatLiteral(text, sign, w, f);
  }

  lemma {:induction false} TreeOfFac(f: Fac)
    requires WfFac(f)
    ensures Finite(FacTree(f))
    decreases f
  {
    match f
    case Literal(_, text) => LiteralIsFinite(text);
    case Paren(_, inner, _) => TreeOfSum(inner);
  }

  lemma {:induction false} TreeOfProduct(t: Product)
    requires WfProduct(t)
    ensures Finite(ProductTree(t))
    decreases t
  {
    match t
    case One(f) => TreeOfFac(f);
    case Times(left, _, _, right) => TreeOfProduct(left); TreeOfFac(right);
  }

  /** The trees the parser makes have whole numbers and finite decimals for leaves. */
  lemma {:induction false} TreeOfSum(e: Sum)
    requires WfSum(e)
    ensures Finite(SumTree(e))
    decreases e
  {
    match e
    case Just(t) => TreeOfProduct(t);
    case Plus(left, _, _, right) => TreeOfSum(left); TreeOfProduct(right);
  }

  /** One number for a leaf, one for a product, one for a sum. */
  function Rank(node: Node, leaf: nat, product: nat, sum: nat): nat {
    if node.Leaf? then leaf else if IsMul(node.op) then product else sum
  }

  ghost function FacOf(node: Node): Fac
    requires Finite(node)
    decreases node, Rank(node, 0, 2, 1)
  {
    match node
    case Leaf(number) => Literal("", Show(number))
    case Operation(_, _, _) => Paren("", SumOf(node), "")
  }

  ghost function ProductOf(node: Node): Product
    requires Finite(node)
    decreases node, Rank(node, 1, 0, 2)
  {
    match node
    case Operation(op, left, right) =>
      if IsMul(op) then Times(ProductOf(left), "", if op == Mul then '*' else '/', FacOf(right)) else One(FacOf(node))
    case Leaf(_) => One(FacOf(node))
  }

  ghost function SumOf(node: Node): Sum
    requires Finite(node)
    decreases node, Rank(node, 2, 1, 0)
  {
    match node
    case Operation(op, left, right) =>
      if IsMul(op) then Just(ProductOf(node))
      else Plus(SumOf(left), "", if op == Add then '+' else '-', ProductOf(right))
    case Leaf(_) => Just(ProductOf(node))
  }

  lemma {:induction false} FacOfTree(node: Node)
    requires Finite(node)
    ensures WfFac(FacOf(node)) && FacTree(FacOf(node)) == node
    decreases node, Rank(node, 0, 2, 1)
  {
    if node.Leaf? {
      ShowIsNumber(node.number);
    } else {
      SumOfTree(node);
    }
  }

  lemma {:induction false} ProductOfTree(node: Node)
    requires Finite(node)
    ensures WfProduct(ProductOf(node)) && ProductTree(ProductOf(node)) == node
    decreases node, Rank(node, 1, 0, 2)
  {
    if node.Operation? && IsMul(node.op) {
      ProductOfTree(node.left);
      FacOfTree(node.right);
    } else {
      FacOfTree(node);
    }
  }

  lemma {:induction false} SumOfTree(node: Node)
    requires Finite(node)
    ensures WfSum(SumOf(node)) && SumTree(SumOf(node)) == node
    decreases node, Rank(node, 2, 1, 0)
  {
    if node.Operation? && !IsMul(node.op) {
      SumOfTree(node.left);
      ProductOfTree(node.right);
    } else {
      ProductOfTree(node);
    }
  }

  /** Writing a tree and parsing the text gives the tree back, whatever whole numbers and finite decimals are in
      it; and other trees are not parsed from any text. */
  lemma WrittenTreeComesBack(node: Node)
    ensures Finite(node) ==> Parse(SumText(SumOf(node))) == Ok(node)
    ensures Finite(node) <==> exists s :: Parse(s) == Ok(node)
  {
    hide SumText, SumTree, Finite, Parse;
    if Finite(node) {
      SumOfTree(node);
      ParsesToItsTree(SumOf(node), "");
      assert SumText(SumOf(node)) + "" == SumText(SumOf(node));
    }
    if s :| Parse(s) == Ok(node) {
      var e, trailing := StructureOf(s);
      TreeOfSum(e);
    }
  }

  function FacParens(f: Fac): nat { if f.Literal? then 0 else 1 + SumParens(f.inner) }

  function ProductParens(t: Product): nat {
    match t
    case One(f) => FacParens(f)
    case Times(left, _, _, right) => ProductParens(left) + FacParens(right)
  }

  function SumParens(e: Sum): nat {
    match e
    case Just(t) => ProductParens(t)
    case Plus(left, _, _, right) => SumParens(left) + ProductParens(right)
  }

  /** Where a whole sum may stand, parentheses cost at most one pair. */
  lemma ParensByRank(node: Node)
    requires Finite(node)
    ensures SumParens(SumOf(node)) <= ProductParens(ProductOf(node)) <= FacParens(FacOf(node))
    ensures FacParens(FacOf(node)) <= 1 + SumParens(SumOf(node))
  {
  }

  lemma {:induction false} FewestInFac(f: Fac)
    requires WfFac(f)
    ensures Finite(FacTree(f)) && FacParens(FacOf(FacTree(f))) <= FacParens(f)
    decreases f
  {
    match f
    case Literal(_, text) =>
      LiteralIsFinite(text);
    case Paren(_, inner, _) =>
      FewestInSum(inner);
      ParensByRank(SumTree(inner));
  }

  lemma {:induction false} FewestInProduct(t: Product)
    requires WfProduct(t)
    ensures Finite(ProductTree(t)) && ProductParens(ProductOf(ProductTree(t))) <= ProductParens(t)
    decreases t
  {
    match t
    case One(f) =>
      FewestInFac(f);
      ParensByRank(FacTree(f));
    case Times(left, _, _, right) =>
      FewestInProduct(left);
      FewestInFac(right);
  }

  /** No text that parses to a tree has fewer parentheses than the one `SumOf` writes. */
  lemma {:induction false} FewestInSum(e: Sum)
    requires WfSum(e)
    ensures Finite(SumTree(e)) && SumParens(SumOf(SumTree(e))) <= SumParens(e)
    decreases e
  {
    match e
    case Just(t) =>
      FewestInProduct(t);
      ParensByRank(ProductTree(t));
    case Plus(left, _, _, right) =>
      FewestInSum(left);
      FewestInProduct(right);
  }

  // ---------------------------------------------------------------------------------------------
  // Values
  // ---------------------------------------------------------------------------------------------

  /** The terms of a sum, in order, each with the sign before it. */
  function SignedTerms(e: Sum): seq<(char, Option<real>)>
    requires WfSum(e)
  {
    match e
    case Just(t) => [('+', Eval(ProductTree(t)))]
    case Plus(left, _, op, right) => SignedTerms(left) + [(op, Eval(ProductTree(right)))]
  }

  /** The factors of a product, in order, each with the mark before it. */
  function SignedFactors(t: Product): seq<(char, Option<real>)>
    requires WfProduct(t)
  {
    match t
    case One(f) => [('*', Eval(FacTree(f)))]
    case Times(left, _, op, right) => SignedFactors(left) + [(op, Eval(FacTree(right)))]
  }

  /** The terms added up or taken away one after the other, from zero on. */
  function RunningTotal(terms: seq<(char, Option<real>)>): Option<real> {
    if terms == [] then Some(0.0)
    else
      var (sign, term) := terms[|terms| - 1];
      match (RunningTotal(terms[..|terms| - 1]), term)
      case (Some(total), Some(x)) => Some(if sign == '-' then total - x else total + x)
      case _ => None
  }

  /** Multiplied or divided by the factors one after the other, from one on; none for a division by zero. */
  function RunningProduct(factors: seq<(char, Option<real>)>): Option<real> {
    if factors == [] then Some(1.0)
    else
      var (mark, factor) := factors[|factors| - 1];
      OneFactorMore(RunningProduct(factors[..|factors| - 1]), mark, factor)
  }

  function OneFactorMore(product: Option<real>, mark: char, factor: Option<real>): Option<real> {
    if product.None? || factor.None? || (mark == '/' && factor.value == 0.0) then None
    else if mark == '/' then Some(product.value / factor.value)
    else Some(product.value * factor.value)
  }

  lemma MarkApplies(product: Option<real>, mark: char, factor: Option<real>)
    requires MulOp(mark).Some?
    ensures Apply(MulOp(mark).value, product, factor) == OneFactorMore(product, mark, factor)
    ensures OneFactorMore(Some(1.0), '*', factor) == factor
  {
  }

  /** The value of a sum is the running total of its terms from the left, and that of a product the running
      product of its factors: operators of a rank group from the left, and products come first. */
  lemma {:induction false} SumIsRunningTotal(e: Sum)
    requires WfSum(e)
    ensures Eval(SumTree(e)) == RunningTotal(SignedTerms(e))
  {
    match e
    case Just(t) =>
      assert SignedTerms(e)[..0] == [];
    case Plus(left, _, op, right) =>
      SumIsRunningTotal(left);
      assert SignedTerms(e)[..|SignedTerms(left)|] == SignedTerms(left);
  }

  lemma {:induction false} ProductIsRunningProduct(t: Product)
    requires WfProduct(t)
    ensures Eval(ProductTree(t)) == RunningProduct(SignedFactors(t))
  {
    hide Apply, OneFactorMore;
    match t
    case One(f) =>
      MarkApplies(Some(1.0), '*', Eval(FacTree(f)));
      assert SignedFactors(t)[..0] == [];
    case Times(left, _, op, right) =>
      MarkApplies(Eval(ProductTree(left)), op, Eval(FacTree(right)));
      ProductIsRunningProduct(left);
      assert SignedFactors(t)[..|SignedFactors(left)|] == SignedFactors(left);
  }
}
