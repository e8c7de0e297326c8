/** Exact decimal numbers as digit lists (`db/target_types.py`, `types.py`): tests on the digits stand in for
    arithmetic on n * 10^e, so that no number is ever expanded or rounded to answer a question about it.

    `Value` is what a digit list means.  The lemmas say that each test on the digits answers the question
    about the number, and that a parameter bound for a database has exactly the value it was given. */
module Decimals {
  import opened Options
  import opened Powers

  // ---------------------------------------------------------------------------------------------
  // Digit lists and their value
  // ---------------------------------------------------------------------------------------------

  type Digit = d: nat | d < 10

  /** A finite decimal; its digits do not begin with 0, unless 0 is the only digit. */
  datatype Decimal = Decimal(negative: bool, digits: seq<Digit>, exponent: int) {
    predicate Valid() { digits != [] && (digits[0] == 0 ==> |digits| == 1) }

    predicate Zero() { digits == [0] }

    /** The exponent of the first digit. */
    function Adjusted(): int { |digits| - 1 + exponent }

    ghost function Coefficient(): int { if negative then -(Number(digits) as int) else Number(digits) }

    ghost function Value(): real { Scaled(Coefficient(), exponent) }
  }

  function Number(digits: seq<Digit>): nat {
    if digits == [] then 0 else 10 * Number(digits[..|digits| - 1]) + digits[|digits| - 1]
  }

  ghost function Ten(k: int): real { RealPow(10, k) }

  /** n * 10^e */
  ghost function Scaled(n: int, e: int): real { Times(n as real, Ten(e)) }

  function Abs(x: real): real { if x < 0.0 then -x else x }

  ghost predicate IsMultiple(v: real, k: int) { exists m: int :: v == Scaled(m, k) }

  predicate AllZero(digits: seq<Digit>) { forall d <- digits :: d == 0 }

  lemma {:induction false} NumberBelow(digits: seq<Digit>)
    ensures Number(digits) < Pow(10, |digits|)
  {
    if digits != [] {
      NumberBelow(digits[..|digits| - 1]);
    }
  }

  lemma {:induction false} NumberAtLeast(digits: seq<Digit>)
    requires digits != [] && digits[0] != 0
    ensures Pow(10, |digits| - 1) <= Number(digits)
  {
    if |digits| > 1 {
      NumberAtLeast(digits[..|digits| - 1]);
    }
  }

  lemma {:induction false} NumberOfParts(a: seq<Digit>, b: seq<Digit>)
    ensures Number(a + b) == Number(a) * Pow(10, |b|) + Number(b)
  {
    if b == [] {
      assert a + b == a;
    } else {
      var n := |b| - 1;
      assert (a + b)[..|a| + n] == a + b[..n];
      NumberOfParts(a, b[..n]);
      Distribute(Number(a), Pow(10, n), Number(b[..n]));
    }
  }

  lemma Distribute(x: int, p: int, y: int)
    ensures 10 * (x * p + y) == x * (10 * p) + 10 * y
  {
  }

  lemma {:induction false} NumberOfZeros(digits: seq<Digit>)
    ensures Number(digits) == 0 <==> AllZero(digits)
  {
    if digits != [] {
      var n := |digits| - 1;
      NumberOfZeros(digits[..n]);
      assert forall d <- digits :: d in digits[..n] || d == digits[n];
      assert digits[n] in digits && forall d <- digits[..n] :: d in digits;
    }
  }

  /** Zeros put before or after the digits. */
  lemma NumberPadded(zeros: seq<Digit>, digits: seq<Digit>)
    requires AllZero(zeros)
    ensures Number(zeros + digits) == Number(digits)
    ensures Number(digits + zeros) == Number(digits) * Pow(10, |zeros|)
  {
    NumberOfParts(zeros, digits);
    NumberOfParts(digits, zeros);
    NumberOfZeros(zeros);
  }

  // ---------------------------------------------------------------------------------------------
  // n * 10^e
  // ---------------------------------------------------------------------------------------------

  /** n * 10^e == (n * 10^j) * 10^(e - j) */
  lemma Rescaled(n: int, e: int, j: nat)
    ensures Scaled(n, e) == Scaled(n * Pow(10, j), e - j)
  {
    hide RealPow, Pow;
    Whole(10, j);
    ProductOfWholes(n, Pow(10, j));
    Add(10, j, e - j);
    Assoc(n as real, Ten(j), Ten(e - j));
  }

  lemma SameScaled(m: int, n: int, e: int)
    requires Scaled(m, e) == Scaled(n, e)
    ensures m == n
  {
    hide RealPow;
    Same(Ten(e), m as real, n as real);
  }

  /** Whether a number is a multiple of a power of ten shows in its coefficient. */
  lemma MultipleIff(n: int, e: int, k: int)
    ensures IsMultiple(Scaled(n, e), k) <==> (k <= e || n % Pow(10, k - e) == 0)
  {
    hide RealPow, Pow, Scaled;
    if k <= e {
      Rescaled(n, e, e - k);
    } else {
      var p := Pow(10, k - e);
      if IsMultiple(Scaled(n, e), k) {
        var m: int :| Scaled(n, e) == Scaled(m, k);
        Rescaled(m, k, k - e);
        SameScaled(n, m * p, e);
        ExactMultiple(m, p);
      }
      if n % p == 0 {
        assert n == n / p * p;
        Rescaled(n / p, k, k - e);
      }
    }
  }

  lemma ExactMultiple(m: int, p: int)
    requires p > 0
    ensures m * p % p == 0 && m * p / p == m
  {
    assert m * p == p * m + 0;
    DivMod(m * p, p, m, 0);
  }

  lemma DivMod(x: int, p: int, q: int, r: int)
    requires p > 0 && 0 <= r < p && x == p * q + r
    ensures x / p == q && x % p == r
  {
    var q', r' := x / p, x % p;
    assert p * q' + r' == x;
    if q < q' {
      AtLeastOnce(p, q, q');
    } else if q > q' {
      AtLeastOnce(p, q', q);
    }
  }

  lemma AtLeastOnce(p: int, a: int, b: int)
    requires p > 0 && a < b
    ensures p * a + p <= p * b
  {
    var d := b - a - 1;
    NotNegative(p, d);
    assert p * b == p * a + p + p * d;
  }

  lemma NotNegative(x: int, y: int)
    requires x >= 0 && y >= 0
    ensures x * y >= 0
  {
  }

  /** |n * 10^e| < 10^k if |n| < 10^(k - e). */
  lemma ScaledBelow(n: int, e: int, k: int)
    requires e <= k && -(Pow(10, k - e) as int) < n < Pow(10, k - e)
    ensures Abs(Scaled(n, e)) < Ten(k)
  {
    hide RealPow, Pow, Times;
    var p: int := Pow(10, k - e);
    Whole(10, k - e);
    TenAdd(k - e, e);
    AsReals(n, p);
    TimesBelow(n as real, p as real, Ten(e));
  }

  lemma TenAdd(j: int, k: int)
    ensures Ten(j + k) == Times(Ten(j), Ten(k))
  {
    hide RealPow;
    Add(10, j, k);
  }

  lemma AsReals(n: int, p: int)
    requires -p < n < p
    ensures -(p as real) < n as real < p as real
  {
  }

  lemma TimesBelow(x: real, y: real, z: real)
    requires -y < x < y && z > 0.0
    ensures Abs(Times(x, z)) < Times(y, z)
  {
    assert (y - x) * z > 0.0;
    assert (y + x) * z > 0.0;
  }

  // ---------------------------------------------------------------------------------------------
  // The scale of a column
  // ---------------------------------------------------------------------------------------------

  datatype LoadError = WouldRound | TooManyDigits | Unreadable

  /** `_check_decimal_scale`: whether the value would be rounded, told by the digits past the scale. */
  predicate WouldBeRounded(number: Decimal, scale: Option<int>)
    requires number.Valid()
  {
    if scale.None? || number.Zero() then false
    else
      var discarded := -scale.value - number.exponent;
      discarded > 0
      && (discarded >= |number.digits|
          || exists i :: |number.digits| - discarded <= i < |number.digits| && number.digits[i] != 0)
  }

  lemma ZeroIff(d: Decimal)
    requires d.Valid()
    ensures d.Zero() <==> d.Coefficient() == 0
  {
    NumberOfZeros(d.digits);
    assert d.digits[0] in d.digits;
  }

  /** The last digits of a number are zeros just when a power of ten divides it. */
  lemma LastDigits(digits: seq<Digit>, k: nat)
    requires k <= |digits|
    ensures Number(digits) % Pow(10, k) == 0 <==> AllZero(digits[|digits| - k..])
  {
    hide Pow, Number;
    var a, b := digits[..|digits| - k], digits[|digits| - k..];
    assert a + b == digits;
    NumberOfParts(a, b);
    NumberBelow(b);
    Commute(Number(a), Pow(10, k));
    DivMod(Number(digits), Pow(10, k), Number(a), Number(b));
    NumberOfZeros(b);
  }

  lemma Commute(x: int, y: int)
    ensures x * y == y * x
  {
  }

  lemma NegatedMod(n: int, p: int)
    requires p > 0
    ensures n % p == 0 <==> -n % p == 0
  {
    if n % p == 0 {
      NegatedMultiple(n, p);
    }
    if -n % p == 0 {
      NegatedMultiple(-n, p);
    }
  }

  lemma NegatedMultiple(n: int, p: int)
    requires p > 0 && n % p == 0
    ensures -n % p == 0
  {
    var q := n / p;
    assert n == p * q;
    assert -n == p * -q + 0;
    DivMod(-n, p, -q, 0);
  }

  /** The check refuses a value if and only if it is not a multiple of 10^-scale, for any digits, exponent and
      scale, negative ones included. */
  lemma ScaleCheckIsExact(number: Decimal, scale: int)
    requires number.Valid()
    ensures WouldBeRounded(number, Some(scale)) <==> !IsMultiple(number.Value(), -scale)
  {
    hide Pow, Scaled, IsMultiple;
    var n, e := number.Coefficient(), number.exponent;
    MultipleIff(n, e, -scale);
    ZeroIff(number);
    var discarded := -scale - e;
    if discarded > 0 && !number.Zero() {
      var digits := number.digits;
      NegatedMod(Number(digits), Pow(10, discarded));
      if discarded < |digits| {
        LastDigits(digits, discarded);
        LastAreZero(digits, discarded);
      } else {
        NumberBelow(digits);
        PowGrows(|digits|, discarded);
        SmallMod(Number(digits), Pow(10, discarded));
      }
    }
  }

  lemma LastAreZero(digits: seq<Digit>, k: nat)
    requires k <= |digits|
    ensures AllZero(digits[|digits| - k..]) <==> !exists i :: |digits| - k <= i < |digits| && digits[i] != 0
  {
    var last := digits[|digits| - k..];
    assert forall i :: |digits| - k <= i < |digits| ==> digits[i] == last[i - (|digits| - k)] && digits[i] in last;
  }

  lemma SmallMod(n: nat, p: nat)
    requires n < p
    ensures n % p == n
  {
  }

  lemma {:induction false} PowGrows(j: nat, k: nat)
    requires j <= k
    ensures Pow(10, j) <= Pow(10, k)
  {
    if j < k {
      PowGrows(j, k - 1);
    }
  }

  // ---------------------------------------------------------------------------------------------
  // Decimal parameters
  // ---------------------------------------------------------------------------------------------

  /** A number as text: its digits before and after the point, and an exponent after E. */
  datatype NumberText = NumberText(negative: bool, whole: seq<Digit>, fraction: seq<Digit>, exponent: int) {
    ghost function Value(): real {
      var n := Number(whole + fraction);
      Scaled(if negative then -(n as int) else n, exponent - |fraction|)
    }
  }

  function Zeros(k: nat): (z: seq<Digit>)
    ensures |z| == k && AllZero(z)
  {
    seq(k, _ => 0)
  }

  /** The digits with the point put after digit `place`, which may be outside them. */
  function WithPoint(number: Decimal, place: int, exponent: int): NumberText {
    var digits := number.digits;
    if place <= 0 then NumberText(number.negative, [0], Zeros(-place) + digits, exponent)
    else if place >= |digits| then NumberText(number.negative, digits + Zeros(place - |digits|), [], exponent)
    else NumberText(number.negative, digits[..place], digits[place..], exponent)
  }

  /** `format(number, "f")`: never an exponent. */
  function Fixed(number: Decimal): NumberText {
    WithPoint(number, number.exponent + |number.digits|, 0)
  }

  /** `str(number)`: an exponent if the point would stand right of the digits or far left of them. */
  function Scientific(number: Decimal): NumberText {
    var left := number.exponent + |number.digits|;
    var place := if number.exponent <= 0 && left > -6 then left else 1;
    WithPoint(number, place, left - place)
  }

  /** Moving the point and the exponent together keeps the value. */
  lemma PointKeepsValue(number: Decimal, place: int)
    ensures WithPoint(number, place, number.exponent + |number.digits| - place).Value() == number.Value()
  {
    hide Pow, Scaled, Number;
    var digits, t := number.digits, WithPoint(number, place, number.exponent + |number.digits| - place);
    if place <= 0 {
      assert t.whole + t.fraction == Zeros(1 - place) + digits;
      NumberPadded(Zeros(1 - place), digits);
    } else if place >= |digits| {
      assert t.whole + t.fraction == digits + Zeros(place - |digits|);
      NumberPadded(Zeros(place - |digits|), digits);
      Rescaled(number.Coefficient(), number.exponent, place - |digits|);
      NegatedTimes(Number(digits), Pow(10, place - |digits|));
    } else {
      assert t.whole + t.fraction == digits;
    }
  }

  lemma NegatedTimes(x: int, y: int)
    ensures -x * y == -(x * y)
  {
  }

  datatype Parameter = Native(number: Decimal) | AsText(text: NumberText)

  /** How many digits a database needs for the coefficient and the places before its first digit. */
  function NativeWidth(number: Decimal): int {
    if -number.exponent > |number.digits| then -number.exponent + 1 else |number.digits|
  }

  /** `decimal_parameter`. */
  function DecimalParameter(number: Decimal, precision: Option<nat>): Result<Parameter, LoadError> {
    if precision.None? then Ok(Native(number))
    else if number.Zero() then Ok(Native(Decimal(number.negative, [0], 0)))
    else if number.exponent > 0 then
      if number.Adjusted() >= precision.value then Err(TooManyDigits)
      else
        var text := Fixed(number);
        Ok(Native(Decimal(text.negative, text.whole, 0)))
    else if NativeWidth(number) > precision.value then
      Ok(AsText(if number.exponent + precision.value >= 0 then Fixed(number) else Scientific(number)))
    else Ok(Native(number))
  }

  /** What is bound has the number's value.  A Decimal that is bound needs no more than the database's digits,
      and a text has no exponent within the database's largest scale; the capacity, never the number's
      exponent, limits how long either gets.  A number is refused just when it is written with a positive
      exponent and has more digits than the database holds; a text is bound just when a number without one needs
      more digits, those right behind the point and one before it included. */
  lemma BindingIsExact(number: Decimal, precision: nat)
    requires number.Valid() && precision >= 1
    ensures match DecimalParameter(number, Some(precision))
            case Err(e) => e == TooManyDigits && number.exponent > 0 && Abs(number.Value()) >= Ten(precision)
            case Ok(Native(n)) =>
              && n.Valid() && n.Value() == number.Value()
              && n.exponent <= 0 && NativeWidth(n) <= precision && |n.digits| <= precision
            case Ok(AsText(t)) =>
              && t.Value() == number.Value() && (number.exponent + precision >= 0 ==> t.exponent == 0)
              && |t.whole| + |t.fraction|
                 <= if precision + 1 < |number.digits| + 6 then |number.digits| + 6 else precision + 1
    ensures number.exponent > 0 && Abs(number.Value()) >= Ten(precision) ==>
              DecimalParameter(number, Some(precision)).Err?
    ensures number.exponent <= 0 && !number.Zero() ==>
              if |number.digits| <= precision && (-number.exponent > |number.digits| ==> -number.exponent < precision)
              then DecimalParameter(number, Some(precision)) == Ok(Native(number))
              else DecimalParameter(number, Some(precision)).Ok?
                   && DecimalParameter(number, Some(precision)).value.AsText?
  {
    hide RealPow, Pow, Number, Scaled;
    ZeroIff(number);
    if number.Zero() {
      ScaledZero(number.exponent);
      ScaledZero(0);
      assert Abs(number.Value()) == 0.0;
    } else if number.exponent > 0 {
      PointKeepsValue(number, number.exponent + |number.digits|);
      Width(number, precision);
      var text := Fixed(number);
      assert text.whole + text.fraction == text.whole;
    } else {
      var left := number.exponent + |number.digits|;
      PointKeepsValue(number, left);
      PointKeepsValue(number, 1);
    }
  }

  lemma ScaledZero(e: int)
    ensures Scaled(0, e) == 0.0
  {
  }

  /** The digits tell which power of ten a number reaches. */
  lemma Width(d: Decimal, k: int)
    requires d.Valid() && !d.Zero()
    ensures d.Adjusted() >= k <==> Abs(d.Value()) >= Ten(k)
  {
    hide RealPow, Pow, Number;
    var n := Number(d.digits);
    NumberBelow(d.digits);
    NumberAtLeast(d.digits);
    if d.Adjusted() >= k {
      Reaches(n, |d.digits| - 1, d.exponent);
      AbsScaled(n, d.exponent);
      Grows(10, k, d.Adjusted());
    } else {
      ScaledBelow(d.Coefficient(), d.exponent, |d.digits| + d.exponent);
      Grows(10, |d.digits| + d.exponent, k);
    }
  }

  lemma Reaches(n: nat, j: nat, e: int)
    requires Pow(10, j) <= n
    ensures Ten(j + e) <= Scaled(n, e)
  {
    hide RealPow, Pow;
    Whole(10, j);
    Add(10, j, e);
    var least, most, unit := Pow(10, j) as real, n as real, Ten(e);
    TimesAtLeast(least, most, unit);
  }

  lemma AbsScaled(n: int, e: int)
    requires n >= 0
    ensures Abs(Scaled(n, e)) == Abs(Scaled(-n, e)) == Scaled(n, e)
  {
    hide RealPow;
    TimesAtLeast(0.0, n as real, Ten(e));
    assert (-n) as real == -(n as real);
    assert Times(-(n as real), Ten(e)) == -(n as real * Ten(e));
  }

  lemma TimesAtLeast(x: real, y: real, z: real)
    requires 0.0 <= x <= y && z > 0.0
    ensures 0.0 <= x * z <= y * z && -y * z == -(y * z)
  {
    assert (y - x) * z >= 0.0;
  }

  // ---------------------------------------------------------------------------------------------
  // Converters for columns of an existing table
  // ---------------------------------------------------------------------------------------------

  /** A number read from text, from a float (whose value is some decimal) or given as a Decimal; NaN and the
      infinities are not finite. */
  datatype Numeral = Finite(number: Decimal) | NotFinite

  datatype Value =
    | Flag(b: bool) | Int(n: int) | Float(f: Numeral) | Dec(d: Numeral) | Words(text: string) | Else(id: nat)

  /** How texts are read: `_INTEGER_TEXT` with `int`, `_NUMBER_TEXT` with `Decimal`, which may refuse an
      exponent that is out of its range. */
  datatype Reader = Reader(whole: string -> Option<int>, number: string -> Option<Option<Numeral>>)

  datatype Converted = Default | IntegerOf(n: int) | ParameterOf(p: Parameter)

  const MAX_INTEGER_DIGITS := 40

  predicate Readable(v: Numeral) { v.Finite? ==> v.number.Valid() }

  ghost predicate ReadsValidly(read: Reader) {
    && (forall t :: read.number(t).Some? && read.number(t).value.Some? ==> Readable(read.number(t).value.value))
    && (forall t :: read.whole(t).Some? ==>
          read.number(t).Some? && read.number(t).value.Some? && read.number(t).value.value.Finite?
          && read.number(t).value.value.number.Value() == read.whole(t).value as real)
  }

  /** The number a value stands for, if it is a finite one. */
  function Source(v: Value, read: Reader): Option<Decimal> {
    match v
    case Float(Finite(d)) => Some(d)
    case Dec(Finite(d)) => Some(d)
    case Words(t) => if read.number(t).Some? && read.number(t).value.Some? && read.number(t).value.value.Finite?
                     then Some(read.number(t).value.value.number) else None
    case _ => None
  }

  /** `number == number.to_integral_value()` */
  predicate IsWhole(number: Decimal) {
    number.exponent >= 0 || Number(number.digits) % Pow(10, -number.exponent) == 0
  }

  /** `int(number)`: towards zero. */
  function IntegerPart(number: Decimal): int {
    var n := if number.exponent >= 0 then Number(number.digits) * Pow(10, number.exponent)
             else Number(number.digits) / Pow(10, -number.exponent);
    if number.negative then -(n as int) else n
  }

  /** `_whole_number_converter`. */
  function WholeNumber(v: Value, read: Reader): Result<Converted, LoadError> {
    match v
    case Flag(_) => Ok(Default)
    case Int(n) => Ok(IntegerOf(n))
    case Else(_) => Ok(Default)
    case _ =>
      if v.Words? && read.whole(v.text).Some? then Ok(IntegerOf(read.whole(v.text).value))
      else if v.Words? && read.number(v.text) == Some(None) then Err(Unreadable)
      else
        match Source(v, read)
        case None => Ok(Default)
        case Some(number) =>
          if number.Adjusted() >= MAX_INTEGER_DIGITS then Ok(Default)
          else if IsWhole(number) then Ok(IntegerOf(IntegerPart(number)))
          else Err(WouldRound)
  }

  lemma WholeIff(number: Decimal)
    ensures IsWhole(number) <==> IsMultiple(number.Value(), 0)
    ensures IsWhole(number) ==> number.Value() == IntegerPart(number) as real
  {
    hide RealPow, Pow, Number, Scaled, IsMultiple;
    if number.exponent >= 0 {
      MultipleIff(number.Coefficient(), number.exponent, 0);
      Rescaled(number.Coefficient(), number.exponent, number.exponent);
      UnitScale(IntegerPart(number));
      NegatedTimes(Number(number.digits), Pow(10, number.exponent));
    } else {
      WholeWithPlaces(number);
    }
  }

  lemma WholeWithPlaces(number: Decimal)
    requires number.exponent < 0
    ensures IsWhole(number) <==> IsMultiple(number.Value(), 0)
    ensures IsWhole(number) ==> number.Value() == IntegerPart(number) as real
  {
    hide RealPow, Pow, Number, Scaled, IsMultiple, IntegerPart;
    MultipleIff(number.Coefficient(), number.exponent, 0);
    NegatedMod(Number(number.digits), Pow(10, -number.exponent));
    if IsWhole(number) {
      IntegerPartTimes(number);
      Rescaled(IntegerPart(number), 0, -number.exponent);
      UnitScale(IntegerPart(number));
    }
  }

  lemma IntegerPartTimes(number: Decimal)
    requires number.exponent < 0 && IsWhole(number)
    ensures IntegerPart(number) * Pow(10, -number.exponent) == number.Coefficient()
  {
    ExactQuotient(Number(number.digits), Pow(10, -number.exponent));
  }

  lemma ExactQuotient(m: nat, p: nat)
    requires p > 0 && m % p == 0
    ensures m / p * p == m && -((m / p) as int) * p == -(m as int)
  {
  }

  lemma UnitScale(n: int)
    ensures Scaled(n, 0) == n as real
  {
  }

  /** An integer that is loaded equals the number it came from; a number is refused just when it is not whole,
      and one of more than 40 digits is left to the database. */
  lemma WholeNumberNeverRounds(v: Value, read: Reader)
    requires ReadsValidly(read)
    ensures match WholeNumber(v, read)
            case Ok(IntegerOf(n)) =>
              v == Int(n) || (Source(v, read).Some? && Source(v, read).value.Value() == n as real)
            case Err(Unreadable) => v.Words? && read.number(v.text) == Some(None)
            case Err(_) => Source(v, read).Some? && !IsMultiple(Source(v, read).value.Value(), 0)
            case Ok(_) => true
    ensures Source(v, read).Some? && !IsMultiple(Source(v, read).value.Value(), 0)
            && Source(v, read).value.Adjusted() < 40
            ==> WholeNumber(v, read) == Err(WouldRound)
    ensures Source(v, read).Some? && IsMultiple(Source(v, read).value.Value(), 0)
            && Source(v, read).value.Adjusted() < 40
            ==> WholeNumber(v, read).Ok? && WholeNumber(v, read).value.IntegerOf?
    ensures v.Int? ==> WholeNumber(v, read) == Ok(IntegerOf(v.n))
    ensures Source(v, read).None? && !v.Int? && !v.Words? ==> WholeNumber(v, read) == Ok(Default)
  {
    hide IsWhole, IntegerPart, IsMultiple;
    if Source(v, read).Some? {
      WholeIff(Source(v, read).value);
      if v.Words? && read.whole(v.text).Some? {
        UnitScale(read.whole(v.text).value);
        MultipleIff(read.whole(v.text).value, 0, 0);
      }
    }
  }

  /** `_exact_decimal_converter`. */
  function ExactDecimal(v: Value, read: Reader, precision: Option<nat>, scale: Option<int>)
    : Result<Converted, LoadError>
    requires ReadsValidly(read) && (v.Dec? ==> Readable(v.d))
  {
    match v
    case Int(n) =>
      if WouldBeRounded(OfInteger(n), scale) then Err(WouldRound) else Ok(IntegerOf(n))
    case Dec(Finite(_)) => Exactly(Source(v, read).value, precision, scale)
    case Words(_) =>
      if Source(v, read).Some? then Exactly(Source(v, read).value, precision, scale) else Ok(Default)
    case _ => Ok(Default)
  }

  function Exactly(number: Decimal, precision: Option<nat>, scale: Option<int>): Result<Converted, LoadError>
    requires number.Valid()
  {
    if WouldBeRounded(number, scale) then Err(WouldRound)
    else match DecimalParameter(number, precision)
         case Ok(p) => Ok(ParameterOf(p))
         case Err(e) => Err(e)
  }

  function DigitsOf(n: nat): (digits: seq<Digit>)
    ensures digits != [] && (digits[0] == 0 ==> n == 0 && |digits| == 1) && Number(digits) == n
  {
    if n < 10 then [n] else DigitsOf(n / 10) + [n % 10]
  }

  /** `Decimal(n)` */
  function OfInteger(n: int): (d: Decimal)
    ensures d.Valid() && d.exponent == 0
  {
    Decimal(n < 0, DigitsOf(if n < 0 then -n else n), 0)
  }

  lemma OfIntegerValue(n: int)
    ensures OfInteger(n).Coefficient() == n && OfInteger(n).Value() == n as real
  {
    UnitScale(n);
  }

  ghost function ParameterValue(p: Parameter): real {
    match p
    case Native(d) => d.Value()
    case AsText(t) => t.Value()
  }

  /** A number that is loaded into a decimal column has its exact value there: it is a multiple of the column's
      unit and is bound without change.  It is refused if it is not a multiple, or if it has too many digits. */
  lemma ExactDecimalKeepsValue(v: Value, read: Reader, precision: nat, scale: int)
    requires ReadsValidly(read) && (v.Dec? ==> Readable(v.d)) && precision >= 1
    ensures match ExactDecimal(v, read, Some(precision), Some(scale))
            case Ok(IntegerOf(n)) => v == Int(n) && IsMultiple(n as real, -scale)
            case Ok(ParameterOf(p)) =>
              && Source(v, read).Some? && ParameterValue(p) == Source(v, read).value.Value()
              && IsMultiple(ParameterValue(p), -scale)
            case Ok(Default) => !v.Int? && (v.Flag? || v.Float? || v.Else? || Source(v, read).None?)
            case Err(WouldRound) =>
              if v.Int? then !IsMultiple(v.n as real, -scale)
              else Source(v, read).Some? && !IsMultiple(Source(v, read).value.Value(), -scale)
            case Err(TooManyDigits) =>
              Source(v, read).Some? && Abs(Source(v, read).value.Value()) >= Ten(precision)
            case Err(Unreadable) => false
  {
    hide WouldBeRounded, DecimalParameter, IsMultiple, RealPow;
    if v.Int? {
      ScaleCheckIsExact(OfInteger(v.n), scale);
      OfIntegerValue(v.n);
    } else if Source(v, read).Some? && !v.Float? {
      ScaleCheckIsExact(Source(v, read).value, scale);
      BindingIsExact(Source(v, read).value, precision);
    }
  }

  // ---------------------------------------------------------------------------------------------
  // Precision and scale
  // ---------------------------------------------------------------------------------------------

  datatype Size = Size(precision: int, scale: int)

  /** `DT_Decimal.set_scale_prec`, for a finite number: as many digits behind the point as it is written with,
      and as many before it as it has, but one if zeros stand right behind the point. */
  function SizeOf(d: Decimal): (size: Size)
    requires d.Valid()
    ensures 0 <= size.scale && size.scale <= size.precision && 1 <= size.precision
    ensures size.scale == if d.exponent < 0 then -d.exponent else 0
    ensures size.precision - size.scale == if d.Adjusted() >= -1 then d.Adjusted() + 1 else 1
  {
    var digits := |d.digits|;
    if d.exponent > 0 then Size(digits + d.exponent, 0)
    else Size(if d.exponent < 0 && -d.exponent > digits then -d.exponent + 1 else digits, -d.exponent)
  }

  /** Whether a DECIMAL(p, s) column holds the number unchanged. */
  ghost predicate Holds(p: int, s: int, v: real) {
    Abs(v) < Ten(p - s) && IsMultiple(v, -s)
  }

  /** A number fits the size found for it, and any larger one: more digits before the point, or after it. */
  lemma SizeHolds(d: Decimal, p: int, s: int)
    requires d.Valid() && SizeOf(d).scale <= s && SizeOf(d).precision - SizeOf(d).scale <= p - s
    ensures Holds(p, s, d.Value())
  {
    hide RealPow, Pow, Number, Scaled;
    NumberBelow(d.digits);
    ScaledBelow(d.Coefficient(), d.exponent, |d.digits| + d.exponent);
    Grows(10, |d.digits| + d.exponent, p - s);
    MultipleIff(d.Coefficient(), d.exponent, -s);
  }

  /** Exactly the sizes that hold a number written without needless zeros: those with all its digits behind the
      point and all before it. */
  lemma SizeHoldsIff(d: Decimal, p: int, s: int)
    requires d.Valid() && d.digits[|d.digits| - 1] != 0
    ensures Holds(p, s, d.Value()) <==> -d.exponent <= s && d.Adjusted() < p - s
  {
    hide RealPow, Scaled, IsMultiple;
    Width(d, p - s);
    ScaleCheckIsExact(d, s);
  }
}
