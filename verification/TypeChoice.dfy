/** What the type found for a column is, in terms of the column's values: the first type in the order of
    `models.py` that takes them all, declared no larger than they need.

    The order is written out here type by type (`Earlier`), and what a type takes value by value (`Takes`). */
module TypeChoice {
  import opened Common
  import opened Decimals
  import opened Inference
  import opened Options

  // ---------------------------------------------------------------------------------------------
  // What a type takes
  // ---------------------------------------------------------------------------------------------

  /** The type may be tried on every value and matches every one.  A fixed-length text type takes texts of one
      length (but for the empty values before the first other one); a decimal type leaves numbers of several scales
      to the float type, unless the setting forbids it or some number needs more than 15 digits. */
  ghost predicate Takes(m: Matchers, k: Kind, infer: bool, values: seq<Cell>, exactDecimals: bool) {
    && (forall v <- values :: TriedOn(k, infer, v) && Accepts(m, k, v))
    && (k == Character ==> SameLengths(m, values))
    && (k == Numeric ==> exactDecimals || SameScales(m, values) || exists v <- values :: Precision(m, v) > 15)
  }

  predicate TriedOn(k: Kind, infer: bool, v: Cell) {
    !infer ==> (v.Text? ==> k in {Character, Varchar, Unbounded})
               && (v.Bytes? ==> k in {Binary, Character, Varchar, Unbounded})
  }

  ghost predicate SameLengths(m: Matchers, values: seq<Cell>) {
    forall i, j :: 0 <= i < j < |values| && !EmptyUpTo(m, values, i) ==> m.length(values[j]) == m.length(values[i])
  }

  function Precision(m: Matchers, v: Cell): int {
    if m.decimal(v).Some? then SizeOf(m.decimal(v).value).precision else 0
  }

  function Scale(m: Matchers, v: Cell): int {
    if m.decimal(v).Some? then SizeOf(m.decimal(v).value).scale else 0
  }

  predicate SameScales(m: Matchers, values: seq<Cell>) {
    forall u <- values, v <- values :: Scale(m, u) == Scale(m, v)
  }

  // ---------------------------------------------------------------------------------------------
  // The statistics, in terms of the values
  // ---------------------------------------------------------------------------------------------

  lemma {:induction false} AllMatched(m: Matchers, k: Kind, infer: bool, values: seq<Cell>)
    ensures var s := Naive(m, k, infer, values);
      && s.count <= |values|
      && (!s.failed && s.count == |values| <==> forall v <- values :: TriedOn(k, infer, v) && Accepts(m, k, v))
  {
    if values != [] {
      var n := |values| - 1;
      AllMatched(m, k, infer, values[..n]);
      assert forall v <- values :: v in values[..n] || v == values[n];
      assert values[n] in values && forall v <- values[..n] :: v in values;
    }
  }

  lemma LengthsAgree(m: Matchers, k: Kind, infer: bool, values: seq<Cell>)
    requires var s := Naive(m, k, infer, values); !s.failed && s.count == |values|
    ensures !Naive(m, k, infer, values).varLen <==> SameLengths(m, values)
  {
    hide Naive;
    VarLenIff(m, k, infer, values);
    AllCovered(m, k, infer, values);
    LongestIsReached(m, k, infer, values);
    var longest := Naive(m, k, infer, values).maxLen;
    assert forall v <- values :: Covered(m, k, Naive(m, k, infer, values), v);
    OneLengthIff(m, values, longest);
  }

  lemma OneLengthIff(m: Matchers, values: seq<Cell>, longest: nat)
    requires forall v <- values :: m.length(v) <= longest
    requires longest == 0 || exists v <- values :: m.length(v) == longest
    ensures OneLength(m, values, longest) <==> SameLengths(m, values)
  {
    if SameLengths(m, values) && longest > 0 {
      var v :| v in values && m.length(v) == longest;
      var p :| 0 <= p < |values| && values[p] == v;
      assert !EmptyUpTo(m, values, p);
      forall i | 0 <= i < |values| && !EmptyUpTo(m, values, i)
        ensures m.length(values[i]) == longest
      {
      }
    }
  }

  /** The statistics of a column of decimals are attained by its values, and their scales differ or not. */
  lemma {:induction false} DecimalStatistics(m: Matchers, infer: bool, values: seq<Cell>)
    requires values != []
    requires var s := Naive(m, Numeric, infer, values); !s.failed && s.count == |values|
    ensures var s := Naive(m, Numeric, infer, values);
      && s.sizes.Some? && var z := s.sizes.value;
      && z.scale == Scale(m, values[0]) && (z.varScale <==> exists v <- values :: Scale(m, v) != z.scale)
      && (exists v <- values :: Precision(m, v) == z.maxPrecision)
      && (exists v <- values :: Scale(m, v) == z.maxScale)
      && (exists v <- values :: Precision(m, v) - Scale(m, v) == z.maxIntDigits)
  {
    hide Naive, Scale, Precision;
    var n := |values| - 1;
    LastDecimal(m, infer, values);
    if n == 0 {
      assert values[0] in values && forall v <- values :: v == values[0];
    } else {
      DecimalStatistics(m, infer, values[..n]);
      assert values[..n][0] == values[0];
      assert forall v <- values :: v in values[..n] || v == values[n];
      assert values[n] in values && forall v <- values[..n] :: v in values;
    }
  }

  /** What the last value does to them. */
  lemma LastDecimal(m: Matchers, infer: bool, values: seq<Cell>)
    requires values != []
    requires var s := Naive(m, Numeric, infer, values); !s.failed && s.count == |values|
    ensures var n := |values| - 1;
      var before, s := Naive(m, Numeric, infer, values[..n]), Naive(m, Numeric, infer, values);
      && !before.failed && before.count == n
      && s.sizes == WithSize(before.sizes, Size(Precision(m, values[n]), Scale(m, values[n])))
      && (n == 0 ==> before.sizes == None)
  {
    hide SizeOf, WithSize, Covered;
    var n := |values| - 1;
    AllCovered(m, Numeric, infer, values[..n]);
    if n == 0 {
      assert values[..n] == [];
    }
  }

  lemma TakesIffFits(m: Matchers, k: Kind, infer: bool, values: seq<Cell>, exactDecimals: bool)
    requires values != []
    ensures Takes(m, k, infer, values, exactDecimals)
       <==> Fits(k, Naive(m, k, infer, values), |values|, exactDecimals)
  {
    hide Naive, Accepts, TriedOn, SameLengths, SameScales, Scale, Precision;
    var s := Naive(m, k, infer, values);
    AllMatched(m, k, infer, values);
    if !s.failed && s.count == |values| {
      if k == Character {
        LengthsAgree(m, k, infer, values);
      }
      if k == Numeric {
        FloatsChosen(m, infer, values, exactDecimals);
      }
    }
  }

  lemma FloatsChosen(m: Matchers, infer: bool, values: seq<Cell>, exactDecimals: bool)
    requires values != []
    requires var s := Naive(m, Numeric, infer, values); !s.failed && s.count == |values|
    ensures Naive(m, Numeric, infer, values).sizes.Some?
    ensures ChoosesFloat(Naive(m, Numeric, infer, values), exactDecimals) <==>
            !exactDecimals && !SameScales(m, values) && forall v <- values :: Precision(m, v) <= 15
  {
    hide Naive;
    var s := Naive(m, Numeric, infer, values);
    DecimalStatistics(m, infer, values);
    AllCovered(m, Numeric, infer, values);
    assert forall v <- values :: Covered(m, Numeric, s, v);
    assert values[0] in values;
  }

  // ---------------------------------------------------------------------------------------------
  // The order of the types
  // ---------------------------------------------------------------------------------------------

  predicate IsDateOrBoolean(k: Kind) { k in {TimestampTZ, Timestamp, Date, Time, Boolean} }

  /** Type `a` comes before type `b`: dates, times and booleans, then numbers, then texts; bytes come after the texts,
      or, for values that are not read as something else, before them. */
  predicate Earlier(a: Kind, b: Kind, infer: bool) {
    match b
    case TimestampTZ => false
    case Timestamp => a == TimestampTZ
    case Date => a in {TimestampTZ, Timestamp}
    case Time => a in {TimestampTZ, Timestamp, Date}
    case Boolean => a in {TimestampTZ, Timestamp, Date, Time}
    case Integer => IsDateOrBoolean(a)
    case Long => IsDateOrBoolean(a) || a == Integer
    case Numeric => IsDateOrBoolean(a) || a in {Integer, Long}
    case Double => IsDateOrBoolean(a) || a in {Integer, Long, Numeric}
    case Character => !(a in {Character, Varchar, Unbounded}) && (a == Binary ==> !infer)
    case Varchar => !(a in {Varchar, Unbounded}) && (a == Binary ==> !infer)
    case Unbounded => a != Unbounded && (a == Binary ==> !infer)
    case Binary => a != Binary && (a in {Character, Varchar, Unbounded} ==> infer)
  }

  /** The types that the settings leave. */
  predicate Allowed(k: Kind, onlyStrings: bool) { onlyStrings ==> k in {Character, Varchar, Unbounded} }

  /** The type found for a column takes all its values, and no type before it in the order does; there is none if
      no type takes them.  A column of NULLs is text. */
  lemma MostSpecificType(m: Matchers, conf: Settings, infer: bool, column: seq<Cell>)
    ensures var values := CleanedAll(m, conf, column);
      var nulls := |values| < |column|;
      if values == [] then
        TypeOfColumn(m, conf, infer, column) == Some(ColumnType.ColumnType(Unbounded, None, nulls, None))
      else
        match TypeOfColumn(m, conf, infer, column)
        case None => forall k: Kind :: Allowed(k, conf.onlyStrings) ==> !Takes(m, k, infer, values, conf.exactDecimals)
        case Some(t) =>
          && t.nulls == nulls
          && Allowed(t.kind, conf.onlyStrings) && Takes(m, t.kind, infer, values, conf.exactDecimals)
          && forall k: Kind :: Allowed(k, conf.onlyStrings) && Earlier(k, t.kind, infer) ==>
            !Takes(m, k, infer, values, conf.exactDecimals)
  {
    hide Kinds, Naive, Takes, Fits, Earlier, Allowed, CleanedAll;
    var values, exact := CleanedAll(m, conf, column), conf.exactDecimals;
    var kinds := Kinds(conf.onlyStrings, infer);
    if values != [] {
      FirstFitFits(m, kinds, infer, values, |values| < |column|, exact);
      forall k: Kind
        ensures Takes(m, k, infer, values, exact) <==> Fits(k, Naive(m, k, infer, values), |values|, exact)
      {
        TakesIffFits(m, k, infer, values, exact);
      }
      AllowedAreTried(conf.onlyStrings, infer);
      forall i, k: Kind | 0 <= i < |kinds| && Allowed(k, conf.onlyStrings) && Earlier(k, kinds[i], infer)
        ensures k in kinds[..i]
      {
        EarlierAreTriedFirst(conf.onlyStrings, infer, i, k);
      }
    }
  }

  lemma AllowedAreTried(onlyStrings: bool, infer: bool)
    ensures forall k: Kind :: k in Kinds(onlyStrings, infer) <==> Allowed(k, onlyStrings)
  {
    forall k: Kind | Allowed(k, onlyStrings)
      ensures k in Kinds(onlyStrings, infer)
    {
      assert Kinds(onlyStrings, infer)[Place(k, onlyStrings, infer)] == k;
    }
  }

  /** The place of a type in the list. */
  function Place(k: Kind, onlyStrings: bool, infer: bool): nat {
    var texts := if onlyStrings then 0 else if infer then 9 else 10;
    match k
    case TimestampTZ => 0 case Timestamp => 1 case Date => 2 case Time => 3 case Boolean => 4 case Integer => 5
    case Long => 6 case Numeric => 7 case Double => 8 case Character => texts case Varchar => texts + 1
    case Unbounded => texts + 2 case Binary => if infer then 12 else 9
  }

  lemma EarlierAreTriedFirst(onlyStrings: bool, infer: bool, i: nat, k: Kind)
    requires i < |Kinds(onlyStrings, infer)| && Allowed(k, onlyStrings)
    requires Earlier(k, Kinds(onlyStrings, infer)[i], infer)
    ensures k in Kinds(onlyStrings, infer)[..i]
  {
    hide Earlier;
    var kinds := Kinds(onlyStrings, infer);
    assert Place(kinds[i], onlyStrings, infer) == i;
    EarlierPlace(k, kinds[i], onlyStrings, infer);
    var j := Place(k, onlyStrings, infer);
    assert kinds[j] == k && kinds[..i][j] == k;
  }

  lemma EarlierPlace(a: Kind, b: Kind, onlyStrings: bool, infer: bool)
    requires Allowed(a, onlyStrings) && Allowed(b, onlyStrings)
    ensures Earlier(a, b, infer) <==> Place(a, onlyStrings, infer) < Place(b, onlyStrings, infer)
  {
  }

  // ---------------------------------------------------------------------------------------------
  // The declaration
  // ---------------------------------------------------------------------------------------------

  lemma {:induction false} SizesOfNumbersOnly(m: Matchers, k: Kind, infer: bool, values: seq<Cell>)
    requires k != Numeric
    ensures Naive(m, k, infer, values).sizes == None && DeclaredSize(Naive(m, k, infer, values)) == None
  {
    if values != [] {
      hide Accepts, Tried;
      SizesOfNumbersOnly(m, k, infer, values[..|values| - 1]);
    }
  }

  /** A length is declared for the two types that have one, a precision and scale for decimals; and no more than the
      values need: some value is as long, some has as many digits before the point, some as many behind it. */
  lemma DeclaredAsNeeded(m: Matchers, conf: Settings, infer: bool, column: seq<Cell>)
    requires CleanedAll(m, conf, column) != [] && TypeOfColumn(m, conf, infer, column).Some?
    ensures var values, t := CleanedAll(m, conf, column), TypeOfColumn(m, conf, infer, column).value;
      && (t.maxLen.Some? <==> t.kind in {Character, Varchar})
      && (t.maxLen.Some? ==> IsGreatest(t.maxLen.value, v => m.length(v), values))
      && (t.size.Some? <==> t.kind == Numeric)
      && (t.size.Some? ==>
            && IsGreatest(t.size.value.scale, v => Scale(m, v), values)
            && IsGreatest(t.size.value.precision - t.size.value.scale, v => Precision(m, v) - Scale(m, v), values))
  {
    hide Kinds, Naive, CleanedAll, Scale, Precision, DeclaredSize;
    var values, t := CleanedAll(m, conf, column), TypeOfColumn(m, conf, infer, column).value;
    FirstFitFits(m, Kinds(conf.onlyStrings, infer), infer, values, |values| < |column|, conf.exactDecimals);
    var s := Naive(m, t.kind, infer, values);
    AllCovered(m, t.kind, infer, values);
    assert forall v <- values :: Covered(m, t.kind, s, v);
    assert values[0] in values;
    if t.kind == Numeric {
      SizeAsNeeded(m, infer, values);
    } else {
      SizesOfNumbersOnly(m, t.kind, infer, values);
      LongestIsReached(m, t.kind, infer, values);
    }
  }

  lemma SizeAsNeeded(m: Matchers, infer: bool, values: seq<Cell>)
    requires values != []
    requires var s := Naive(m, Numeric, infer, values); !s.failed && s.count == |values|
    ensures var size := DeclaredSize(Naive(m, Numeric, infer, values));
      && size.Some? && IsGreatest(size.value.scale, v => Scale(m, v), values)
      && IsGreatest(size.value.precision - size.value.scale, v => Precision(m, v) - Scale(m, v), values)
  {
    hide Naive, Scale, Precision, Covered;
    AllCovered(m, Numeric, infer, values);
    DecimalStatistics(m, infer, values);
    ScalesBelow(m, Naive(m, Numeric, infer, values), values);
  }

  predicate IsGreatest(n: int, of: Cell -> int, values: seq<Cell>) {
    (forall v <- values :: of(v) <= n) && exists v <- values :: of(v) == n
  }

  lemma ScalesBelow(m: Matchers, s: Stats, values: seq<Cell>)
    requires s.sizes.Some? && forall v <- values :: Covered(m, Numeric, s, v)
    ensures forall v <- values ::
              Scale(m, v) <= s.sizes.value.maxScale && Precision(m, v) - Scale(m, v) <= s.sizes.value.maxIntDigits
  {
    forall v <- values
      ensures Scale(m, v) <= s.sizes.value.maxScale && Precision(m, v) - Scale(m, v) <= s.sizes.value.maxIntDigits
    {
      assert Covered(m, Numeric, s, v);
    }
  }

  // ---------------------------------------------------------------------------------------------
  // The values
  // ---------------------------------------------------------------------------------------------

  /** A text as the settings have it. */
  function TextOf(m: Matchers, conf: Settings, text: string): string {
    CleanText(text, conf.trimStrings, m.strip, conf.replaceNewlines, m.onOneLine)
  }

  /** The values of a column are its cells in order, texts cleaned; a NULL is none, nor is, unless the settings keep
      it, a text of which nothing is left. */
  lemma {:induction false} ValuesOfColumn(m: Matchers, conf: Settings, column: seq<Cell>)
    ensures var at := ValueCells(m, conf, column); var values := CleanedAll(m, conf, column);
      && |values| == |at|
      && forall k :: 0 <= k < |at| ==>
        values[k] == if column[at[k]].Text? then Text(TextOf(m, conf, column[at[k]].text)) else column[at[k]]
  {
    if column != [] {
      hide Cleaned, ValueCells, IsValue, TextOf;
      var n := |column| - 1;
      ValuesOfColumn(m, conf, column[..n]);
      ValueCellsLast(m, conf, column);
      CleanedCell(m, conf, column[n]);
    }
  }

  lemma CleanedCell(m: Matchers, conf: Settings, cell: Cell)
    ensures Cleaned(m, conf, cell) ==
            if !IsValue(m, conf, cell) then None
            else if cell.Text? then Some(Text(TextOf(m, conf, cell.text)))
            else Some(cell)
  {
  }

  predicate IsValue(m: Matchers, conf: Settings, cell: Cell) {
    cell != Null && (cell.Text? && !conf.emptyStrings ==> m.strip(TextOf(m, conf, cell.text)) != "")
  }

  /** Where the cells are that hold a value, in ascending order. */
  function ValueCells(m: Matchers, conf: Settings, column: seq<Cell>): (at: seq<nat>)
    ensures |at| <= |column|
    ensures forall k :: 0 <= k < |at| ==> at[k] < |column| && IsValue(m, conf, column[at[k]])
    ensures forall i :: 0 <= i < |column| && IsValue(m, conf, column[i]) ==> i in at
    ensures forall j, k :: 0 <= j < k < |at| ==> at[j] < at[k]
  {
    Where(seq(|column|, i requires 0 <= i < |column| => IsValue(m, conf, column[i])))
  }

  lemma ValueCellsLast(m: Matchers, conf: Settings, column: seq<Cell>)
    requires column != []
    ensures var n := |column| - 1;
      ValueCells(m, conf, column)
      == ValueCells(m, conf, column[..n]) + if IsValue(m, conf, column[n]) then [n] else []
  {
    hide IsValue;
    var n := |column| - 1;
    assert seq(|column|, i requires 0 <= i < |column| => IsValue(m, conf, column[i]))[..n]
        == seq(n, i requires 0 <= i < n => IsValue(m, conf, column[..n][i]));
  }
}
