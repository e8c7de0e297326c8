/** The numeric expression parser (`parser.py`): recursive descent over a moving cursor, with loops for the
    operators of one rank.

    `Expression`, `Term` and `Factor` say what the methods of the class compute.  A `Sum`, with its blanks and
    parentheses, is a text's structure by the grammar; the lemmas show that the parser accepts exactly the
    texts that have one, and returns the tree it stands for. */
module NumericParser {
  import opened Numerals
  import opened Options
  import Powers

  // ---------------------------------------------------------------------------------------------
  // Trees
  // ---------------------------------------------------------------------------------------------

  datatype Op = Mul | Div | Add | Sub

  datatype Number = Int(n: int) | Float(r: real)

  datatype Node = Leaf(number: Number) | Operation(op: Op, left: Node, right: Node)

  datatype ParseError = NoFactor | NoClosingParenthesis | NotAllConsumed

  function Amount(number: Number): real { if number.Int? then number.n as real else number.r }

  /** The result of an operation, without floating-point rounding; none for a division by zero. */
  function Apply(op: Op, l: Option<real>, r: Option<real>): Option<real> {
    if l.None? || r.None? then None
    else
      match op
      case Mul => Some(l.value * r.value)
      case Div => if r.value == 0.0 then None else Some(l.value / r.value)
      case Add => Some(l.value + r.value)
      case Sub => Some(l.value - r.value)
  }

  /** The value of a tree. */
  function Eval(node: Node): Option<real> {
    match node
    case Leaf(number) => Some(Amount(number))
    case Operation(op, left, right) => Apply(op, Eval(left), Eval(right))
  }

  // ---------------------------------------------------------------------------------------------
  // Scanning
  // ---------------------------------------------------------------------------------------------

  predicate Blank(c: char) { c == ' ' || c == '\t' || c == '\n' }

  /** Past the blanks. */
  function Skip(s: string, p: nat): (q: nat)
    requires p <= |s|
    ensures p <= q <= |s| && (q < |s| ==> !Blank(s[q])) && forall i :: p <= i < q ==> Blank(s[i])
    decreases |s| - p
  {
    if p < |s| && Blank(s[p]) then Skip(s, p + 1) else p
  }

  predicate IsSign(c: char) { c == '+' || c == '-' }

  function PastSign(s: string, p: nat): (q: nat)
    requires p <= |s|
    ensures p <= q <= |s|
  {
    if p < |s| && IsSign(s[p]) then p + 1 else p
  }

  /** Where a float at p ends: a sign, and digits with a point among or beside them. */
  function FloatEnd(s: string, p: nat): (q: Option<nat>)
    requires p <= |s|
    ensures q.Some? ==> p < q.value <= |s|
  {
    var a := PastSign(s, p);
    var b := Digits(s, a);
    if b < |s| && s[b] == '.' then
      var c := Digits(s, b + 1);
      if c > b + 1 || b > a then Some(c) else None
    else None
  }

  /** Where an integer at p ends. */
  function IntEnd(s: string, p: nat): (q: Option<nat>)
    requires p <= |s|
    ensures q.Some? ==> p < q.value <= |s|
  {
    var a := PastSign(s, p);
    if Digits(s, a) > a then Some(Digits(s, a)) else None
  }

  /** The two expressions for numbers. */
  datatype Regex = FloatRx | IntRx

  function MatchEnd(rx: Regex, s: string, p: nat): (q: Option<nat>)
    requires p <= |s|
    ensures q.Some? ==> p < q.value <= |s|
  {
    if rx.FloatRx? then FloatEnd(s, p) else IntEnd(s, p)
  }

  /** `int(text)` */
  function IntOf(text: string): int {
    if text != [] && text[0] == '-' then -(Value(text[1..]) as int)
    else if text != [] && text[0] == '+' then Value(text[1..])
    else Value(text)
  }

  /** `float(text)`, without rounding: the digits as an integer, times a tenth for each place. */
  function FloatOf(text: string): real {
    var p := Digits(text, PastSign(text, 0));
    if p < |text| then IntOf(text[..p] + text[p + 1..]) as real * Powers.RealPow(10, p + 1 - |text|)
    else IntOf(text) as real
  }

  /** A number at p, a float if it can be one, and where it ends. */
  function NumberAt(s: string, p: nat): (r: Option<(Number, nat)>)
    requires p <= |s|
    ensures r.Some? ==> p < r.value.1 <= |s|
  {
    match FloatEnd(s, p)
    case Some(q) => Some((Float(FloatOf(s[p..q])), q))
    case None =>
      match IntEnd(s, p)
      case Some(q) => Some((Int(IntOf(s[p..q])), q))
      case None => None
  }

  function MulOp(c: char): Option<Op> { if c == '*' then Some(Mul) else if c == '/' then Some(Div) else None }

  function AddOp(c: char): Option<Op> { if c == '+' then Some(Add) else if c == '-' then Some(Sub) else None }

  // ---------------------------------------------------------------------------------------------
  // Parsing
  // ---------------------------------------------------------------------------------------------

  type Parsed = Result<(Node, nat), ParseError>

  function Factor(s: string, p: nat): (r: Parsed)
    requires p <= |s|
    ensures r.Ok? ==> p < r.value.1 <= |s|
    decreases |s| - p, 0
  {
    var q := Skip(s, p);
    match NumberAt(s, q)
    case Some((number, end)) => Ok((Leaf(number), end))
    case None =>
      if q == |s| || s[q] != '(' then Err(NoFactor)
      else
        match Expression(s, q + 1)
        case Err(e) => Err(e)
        case Ok((node, end)) =>
          var close := Skip(s, end);
          if close == |s| || s[close] != ')' then Err(NoClosingParenthesis) else Ok((node, close + 1))
  }

  function Term(s: string, p: nat): (r: Parsed)
    requires p <= |s|
    ensures r.Ok? ==> p < r.value.1 <= |s|
    decreases |s| - p, 1
  {
    match Factor(s, p)
    case Err(e) => Err(e)
    case Ok((node, q)) => Factors(s, node, q)
  }

  /** The factors still to come, each joined to the node before it. */
  function Factors(s: string, node: Node, p: nat): (r: Parsed)
    requires p <= |s|
    ensures r.Ok? ==> p <= r.value.1 <= |s|
    decreases |s| - p, 1
  {
    var q := Skip(s, p);
    if q == |s| || MulOp(s[q]).None? then Ok((node, q))
    else
      match Factor(s, q + 1)
      case Err(e) => Err(e)
      case Ok((right, end)) => Factors(s, Operation(MulOp(s[q]).value, node, right), end)
  }

  function Expression(s: string, p: nat): (r: Parsed)
    requires p <= |s|
    ensures r.Ok? ==> p < r.value.1 <= |s|
    decreases |s| - p, 3
  {
    match Term(s, p)
    case Err(e) => Err(e)
    case Ok((node, q)) => Terms(s, node, q)
  }

  function Terms(s: string, node: Node, p: nat): (r: Parsed)
    requires p <= |s|
    ensures r.Ok? ==> p <= r.value.1 <= |s|
    decreases |s| - p, 2
  {
    var q := Skip(s, p);
    if q == |s| || AddOp(s[q]).None? then Ok((node, q))
    else
      match Term(s, q + 1)
      case Err(e) => Err(e)
      case Ok((right, end)) => Terms(s, Operation(AddOp(s[q]).value, node, right), end)
  }

  function Parse(s: string): Result<Node, ParseError> {
    match Expression(s, 0)
    case Err(e) => Err(e)
    case Ok((node, q)) => if q < |s| then Err(NotAllConsumed) else Ok(node)
  }

  lemma FactorsStep(s: string, node: Node, p: nat)
    requires p <= |s|
    ensures var q := Skip(s, p);
      Factors(s, node, p)
      == if q == |s| || MulOp(s[q]).None? then Ok((node, q))
         else
           var right := Factor(s, q + 1);
           if right.Err? then right
           else Factors(s, Operation(MulOp(s[q]).value, node, right.value.0), right.value.1)
  {
  }

  lemma TermsStep(s: string, node: Node, p: nat)
    requires p <= |s|
    ensures var q := Skip(s, p);
      Terms(s, node, p)
      == if q == |s| || AddOp(s[q]).None? then Ok((node, q))
         else
           var right := Term(s, q + 1);
           if right.Err? then right
           else Terms(s, Operation(AddOp(s[q]).value, node, right.value.0), right.value.1)
  {
  }

  // ---------------------------------------------------------------------------------------------
  // The parser's cursor
  // ---------------------------------------------------------------------------------------------

  class SourceString {
    const str: string
    var currpos: nat

    constructor (s: string)
      ensures str == s && currpos == 0
    {
      str, currpos := s, 0;
    }

    predicate Eoi()
      reads this
    {
      currpos >= |str|
    }

    method EatWhitespace()
      requires currpos <= |str|
      modifies this
      ensures currpos == Skip(str, old(currpos))
    {
      while !Eoi() && Blank(str[currpos])
        invariant currpos <= |str| && Skip(str, currpos) == Skip(str, old(currpos))
        decreases |str| - currpos
      {
        currpos := currpos + 1;
      }
    }

    /** Match one character, past any blanks. */
    method MatchStr(c: char) returns (matched: bool)
      requires currpos <= |str|
      modifies this
      ensures var q := Skip(str, old(currpos));
        matched == (q < |str| && str[q] == c) && currpos == if matched then q + 1 else q
    {
      EatWhitespace();
      matched := !Eoi() && str[currpos] == c;
      if matched {
        currpos := currpos + 1;
      }
    }

    method MatchRegex(rx: Regex) returns (text: Option<string>)
      requires currpos <= |str|
      modifies this
      ensures var q := Skip(str, old(currpos));
        match MatchEnd(rx, str, q)
        case Some(end) => text == Some(str[q..end]) && currpos == end
        case None => text == None && currpos == q
    {
      EatWhitespace();
      if Eoi() {
        return None;
      }
      var m := MatchEnd(rx, str, currpos);
      if m.None? {
        return None;
      }
      text := Some(str[currpos..m.value]);
      currpos := m.value;
    }
  }

  class Parser {
    const numExpr: SourceString

    constructor (text: string)
      ensures numExpr.str == text && numExpr.currpos == 0 && fresh(numExpr)
    {
      numExpr := new SourceString(text);
    }

    method MatchNumber() returns (number: Option<Number>)
      requires numExpr.currpos <= |numExpr.str|
      modifies numExpr
      ensures var q := Skip(numExpr.str, old(numExpr.currpos));
        match NumberAt(numExpr.str, q)
        case None => number == None && numExpr.currpos == q
        case Some((value, end)) => number == Some(value) && numExpr.currpos == end
    {
      var m1 := numExpr.MatchRegex(FloatRx);
      if m1.Some? {
        return Some(Float(FloatOf(m1.value)));
      }
      var m2 := numExpr.MatchRegex(IntRx);
      if m2.Some? {
        return Some(Int(IntOf(m2.value)));
      }
      return None;
    }

    method MatchMulOp() returns (op: Option<Op>)
      requires numExpr.currpos <= |numExpr.str|
      modifies numExpr
      ensures var q := Skip(numExpr.str, old(numExpr.currpos));
        && op == (if q < |numExpr.str| then MulOp(numExpr.str[q]) else None)
        && numExpr.currpos == if op.Some? then q + 1 else q
    {
      var m1 := numExpr.MatchStr('*');
      if m1 {
        return Some(Mul);
      }
      var m2 := numExpr.MatchStr('/');
      return if m2 then Some(Div) else None;
    }

    method MatchAddOp() returns (op: Option<Op>)
      requires numExpr.currpos <= |numExpr.str|
      modifies numExpr
      ensures var q := Skip(numExpr.str, old(numExpr.currpos));
        && op == (if q < |numExpr.str| then AddOp(numExpr.str[q]) else None)
        && numExpr.currpos == if op.Some? then q + 1 else q
    {
      var m1 := numExpr.MatchStr('+');
      if m1 {
        return Some(Add);
      }
      var m2 := numExpr.MatchStr('-');
      return if m2 then Some(Sub) else None;
    }

    /** What a parsing method returns, and where it leaves the cursor. */
    predicate Follows(r: Result<Node, ParseError>, parsed: Parsed)
      reads numExpr
    {
      match parsed
      case Err(e) => r == Err(e)
      case Ok((node, end)) => r == Ok(node) && numExpr.currpos == end
    }

    method ParseFactor() returns (r: Result<Node, ParseError>)
      requires numExpr.currpos <= |numExpr.str|
      modifies numExpr
      ensures Follows(r, Factor(numExpr.str, old(numExpr.currpos)))
      decreases |numExpr.str| - numExpr.currpos, 0
    {
      hide NumberAt, Skip, Expression;
      var number := MatchNumber();
      if number.Some? {
        return Ok(Leaf(number.value));
      }
      var open := numExpr.MatchStr('(');
      if !open {
        return Err(NoFactor);
      }
      var m1 := ParseExpression();
      if m1.Err? {
        return m1;
      }
      var close := numExpr.MatchStr(')');
      r := if close then m1 else Err(NoClosingParenthesis);
    }

    method ParseTerm() returns (r: Result<Node, ParseError>)
      requires numExpr.currpos <= |numExpr.str|
      modifies numExpr
      ensures Follows(r, Term(numExpr.str, old(numExpr.currpos)))
      decreases |numExpr.str| - numExpr.currpos, 1
    {
      hide Factor, Factors, Skip, MulOp;
      r := ParseFactor();
      if r.Err? {
        return;
      }
      var node := r.value;
      while true
        invariant old(numExpr.currpos) < numExpr.currpos <= |numExpr.str|
        invariant Term(numExpr.str, old(numExpr.currpos)) == Factors(numExpr.str, node, numExpr.currpos)
        decreases |numExpr.str| - numExpr.currpos
      {
        FactorsStep(numExpr.str, node, numExpr.currpos);
        var op := MatchMulOp();
        if op.None? {
          return Ok(node);
        }
        var right := ParseFactor();
        if right.Err? {
          return right;
        }
        node := Operation(op.value, node, right.value);
      }
    }

    method ParseExpression() returns (r: Result<Node, ParseError>)
      requires numExpr.currpos <= |numExpr.str|
      modifies numExpr
      ensures Follows(r, Expression(numExpr.str, old(numExpr.currpos)))
      decreases |numExpr.str| - numExpr.currpos, 2
    {
      hide Term, Terms, Skip, AddOp;
      r := ParseTerm();
      if r.Err? {
        return;
      }
      var node := r.value;
      while true
        invariant old(numExpr.currpos) < numExpr.currpos <= |numExpr.str|
        invariant Expression(numExpr.str, old(numExpr.currpos)) == Terms(numExpr.str, node, numExpr.currpos)
        decreases |numExpr.str| - numExpr.currpos
      {
        TermsStep(numExpr.str, node, numExpr.currpos);
        var op := MatchAddOp();
        if op.None? {
          return Ok(node);
        }
        var right := ParseTerm();
        if right.Err? {
          return right;
        }
        node := Operation(op.value, node, right.value);
      }
    }

    method ParseAll() returns (r: Result<Node, ParseError>)
      requires numExpr.currpos == 0
      modifies numExpr
      ensures r == Parse(numExpr.str)
    {
      var exp := ParseExpression();
      if exp.Err? {
        return exp;
      }
      if !numExpr.Eoi() {
        return Err(NotAllConsumed);
      }
      r := exp;
    }
  }
}
