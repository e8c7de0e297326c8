/** Finding the type of a column from its values (`models.py`, with the matchers of `types.py`).

    `Naive` checks every value against every type.  The class `Column` stops trying a type once it has failed,
    and its date matcher reorders its formats as it goes; it is proved to find the same statistics, and so the
    same type.  The lemmas say what the type that is found promises about the values. */
module Inference {
  import opened Common
  import opened Decimals
  import opened FloatExact
  import opened Options

  // ---------------------------------------------------------------------------------------------
  // Values and types
  // ---------------------------------------------------------------------------------------------

  datatype Cell = Null | Text(text: string) | Bytes(id: nat) | DateObject(id: nat) | Other(id: nat)

  datatype Kind =
    | TimestampTZ | Timestamp | Date | Time | Boolean | Integer | Long | Numeric | Double
    | Character | Varchar | Unbounded | Binary

  type ValidDecimal = d: Decimal | d.Valid() witness Decimal(false, [0], 0)

  /** What the matchers answer: `fits` for a type other than dates and decimals, `dateFormats` and whether one
      of them reads a text, `decimal` for the number a value is; and a value's length as text, and the texts'
      clean-up. */
  datatype Matchers = Matchers(fits: (Kind, Cell) -> bool,
                               dateFormats: seq<string>, readsDate: (string, string) -> bool,
                               decimal: Cell -> Option<ValidDecimal>, length: Cell -> nat,
                               strip: string -> string, onOneLine: string -> string)

  predicate LenSpec(k: Kind) { k == Character || k == Varchar }
  predicate VarLen(k: Kind) { k == Varchar }
  predicate PrecSpec(k: Kind) { k == Numeric }
  predicate IsText(k: Kind) { k == Character || k == Varchar || k == Unbounded }

  predicate Accepts(m: Matchers, k: Kind, v: Cell) {
    match k
    case Date => v.DateObject? || (v.Text? && exists f <- m.dateFormats :: m.readsDate(f, v.text))
    case Numeric => m.decimal(v).Some?
    case _ => m.fits(k, v)
  }

  /** A type's matcher.  A date format that matched is tried first the next time. */
  class DataType {
    const m: Matchers
    const kind: Kind
    var dateFormats: seq<string>
    var size: Option<Size>

    constructor (m: Matchers, kind: Kind)
      ensures this.m == m && this.kind == kind && Valid() && size == None
    {
      this.m, this.kind, dateFormats, size := m, kind, m.dateFormats, None;
    }

    ghost predicate Valid()
      reads this
    {
      multiset(dateFormats) == multiset(m.dateFormats)
    }

    /** Whether some format reads the text; the one that does moves to the front. */
    method MatchDate(text: string) returns (r: bool)
      requires Valid()
      modifies this`dateFormats
      ensures Valid() && r == exists f <- m.dateFormats :: m.readsDate(f, text)
    {
      SameFormats(dateFormats, m.dateFormats);
      var i := 0;
      while i < |dateFormats| && !m.readsDate(dateFormats[i], text)
        invariant 0 <= i <= |dateFormats|
        invariant forall j :: 0 <= j < i ==> !m.readsDate(dateFormats[j], text)
      {
        i := i + 1;
      }
      if i == |dateFormats| {
        return false;
      }
      assert dateFormats[i] in m.dateFormats;
      if i > 0 {
        var f := dateFormats[i];
        MovedToFront(dateFormats, i);
        dateFormats := [f] + dateFormats[..i] + dateFormats[i + 1..];
      }
      r := true;
    }

    /** Whether the value matches.  The formats are only ever permuted, so the answer depends on no value
        before. */
    method IsMatch(v: Cell) returns (r: bool)
      requires Valid()
      modifies this
      ensures Valid() && r == Accepts(m, kind, v)
      ensures kind == Date ==>
                (r <==> v.DateObject? || (v.Text? && exists f <- m.dateFormats :: m.readsDate(f, v.text)))
      ensures kind == Numeric ==> (r <==> m.decimal(v).Some?)
      ensures kind != Date && kind != Numeric ==> r == m.fits(kind, v)
      ensures size == if kind == Numeric && r then Some(SizeOf(m.decimal(v).value)) else old(size)
    {
      match kind {
        case Date =>
          if v.DateObject? {
            return true;
          }
          if !v.Text? {
            return false;
          }
          r := MatchDate(v.text);
        case Numeric =>
          var d := m.decimal(v);
          if d.Some? {
            size := Some(SizeOf(d.value));
          }
          r := d.Some?;
        case _ =>
          r := m.fits(kind, v);
      }
    }
  }

  lemma MovedToFront(formats: seq<string>, i: nat)
    requires i < |formats|
    ensures multiset([formats[i]] + formats[..i] + formats[i + 1..]) == multiset(formats)
  {
    assert formats == formats[..i] + [formats[i]] + formats[i + 1..];
  }

  lemma SameFormats(formats: seq<string>, all: seq<string>)
    requires multiset(formats) == multiset(all)
    ensures forall f :: f in formats <==> f in all
  {
    assert forall f :: f in formats <==> f in multiset(formats);
    assert forall f :: f in all <==> f in multiset(all);
  }

  // ---------------------------------------------------------------------------------------------
  // Statistics of one type
  // ---------------------------------------------------------------------------------------------

  datatype Sizes = Sizes(maxPrecision: int, scale: int, varScale: bool, maxScale: int, maxIntDigits: int)

  datatype Stats = Stats(failed: bool, count: nat, maxLen: nat, varLen: bool, sizes: Option<Sizes>)

  const FRESH := Stats(false, 0, 0, false, None)

  function WithSize(sizes: Option<Sizes>, size: Size): Option<Sizes> {
    var intDigits := size.precision - size.scale;
    match sizes
    case None => Some(Sizes(size.precision, size.scale, false, size.scale, intDigits))
    case Some(z) =>
      Some(Sizes(Max(size.precision, z.maxPrecision), z.scale, z.varScale || size.scale != z.scale,
                 Max(size.scale, z.maxScale), Max(intDigits, z.maxIntDigits)))
  }

  /** `record` */
  function Recorded(s: Stats, length: nat, size: Option<Size>): Stats {
    Stats(s.failed, s.count + 1, Max(length, s.maxLen), s.varLen || (s.maxLen > 0 && length != s.maxLen),
          if size.Some? then WithSize(s.sizes, size.value) else s.sizes)
  }

  function SizeFor(m: Matchers, k: Kind, v: Cell): Option<Size> {
    if k == Numeric && m.decimal(v).Some? then Some(SizeOf(m.decimal(v).value)) else None
  }

  /** `check` */
  function Check(m: Matchers, k: Kind, s: Stats, v: Cell): Stats {
    if s.failed then s
    else if Accepts(m, k, v) then Recorded(s, m.length(v), SizeFor(m, k, v))
    else s.(failed := true)
  }

  /** Values from a database cursor are not read as something else: a text is tried as text only, bytes as
      bytes or text. */
  predicate Tried(k: Kind, infer: bool, v: Cell) {
    infer || (if v.Text? then IsText(k) else if v.Bytes? then k == Binary || IsText(k) else true)
  }

  /** The statistics of a type after all the values, every value checked. */
  function Naive(m: Matchers, k: Kind, infer: bool, values: seq<Cell>): Stats {
    if values == [] then FRESH
    else
      var s, v := Naive(m, k, infer, values[..|values| - 1]), values[|values| - 1];
      if Tried(k, infer, v) then Check(m, k, s, v) else s
  }

  predicate ChoosesFloat(s: Stats, exactDecimals: bool) {
    s.sizes.Some? && s.sizes.value.varScale && !exactDecimals && s.sizes.value.maxPrecision <= 15
  }

  class Accum {
    const dt: DataType
    const exactDecimals: bool
    var failed: bool
    var count: nat
    var maxLen: nat
    var varLen: bool
    var maxPrecision: Option<int>
    var scale: Option<int>
    var varScale: bool
    var maxScale: Option<int>
    var maxIntDigits: Option<int>

    constructor (dt: DataType, exactDecimals: bool)
      ensures this.dt == dt && this.exactDecimals == exactDecimals && State() == FRESH && Valid()
    {
      this.dt, this.exactDecimals := dt, exactDecimals;
      failed, count, maxLen, varLen := false, 0, 0, false;
      maxPrecision, scale, varScale, maxScale, maxIntDigits := None, None, false, None, None;
    }

    ghost predicate Valid()
      reads this
    {
      maxPrecision.Some? == scale.Some? == maxScale.Some? == maxIntDigits.Some? && (varScale ==> maxPrecision.Some?)
    }

    ghost function State(): Stats
      reads this
    {
      Stats(failed, count, maxLen, varLen,
            if maxPrecision.Some? && scale.Some? && maxScale.Some? && maxIntDigits.Some?
            then Some(Sizes(maxPrecision.value, scale.value, varScale, maxScale.value, maxIntDigits.value)) else None)
    }

    /** Count a value that the type has just matched. */
    method Record(length: nat)
      requires Valid()
      modifies this
      ensures Valid() && State() == Recorded(old(State()), length, dt.size)
    {
      count := count + 1;
      if maxLen > 0 && length != maxLen {
        varLen := true;
      }
      if length > maxLen {
        maxLen := length;
      }
      if dt.size.Some? {
        var precision, digits := dt.size.value.precision, dt.size.value.scale;
        var intDigits := precision - digits;
        if maxPrecision.None? {
          maxPrecision, scale, maxScale, maxIntDigits := Some(precision), Some(digits), Some(digits), Some(intDigits);
        } else {
          maxPrecision := Some(Max(precision, maxPrecision.value));
          if digits != scale.value {
            varScale := true;
          }
          maxScale := Some(Max(digits, maxScale.value));
          maxIntDigits := Some(Max(intDigits, maxIntDigits.value));
        }
      }
    }

    /** The declaration this type makes. */
    function TypeOfIt(nulls: bool): (t: ColumnType)
      requires Valid()
      reads this
      ensures t == TypeOf(dt.kind, State(), nulls)
    {
      ColumnType(dt.kind, if LenSpec(dt.kind) then Some(maxLen) else None, nulls,
                 if maxIntDigits.Some? && maxScale.Some?
                 then Some(Size(maxIntDigits.value + maxScale.value, maxScale.value))
                 else None)
    }

    predicate PrefersFloat()
      requires Valid()
      reads this
      ensures PrefersFloat() == ChoosesFloat(State(), exactDecimals)
    {
      varScale && !exactDecimals && maxPrecision.Some? && maxPrecision.value <= 15
    }
  }

  // ---------------------------------------------------------------------------------------------
  // Columns
  // ---------------------------------------------------------------------------------------------

  /** The types to try, the most specific first. */
  function Kinds(onlyStrings: bool, infer: bool): seq<Kind> {
    if onlyStrings then [Character, Varchar, Unbounded]
    else if infer then
      [TimestampTZ, Timestamp, Date, Time, Boolean, Integer, Long, Numeric, Double, Character, Varchar, Unbounded,
          Binary]
    else
      [TimestampTZ, Timestamp, Date, Time, Boolean, Integer, Long, Numeric, Double, Binary, Character, Varchar,
          Unbounded]
  }

  datatype Settings = Settings(onlyStrings: bool, exactDecimals: bool, trimStrings: bool, replaceNewlines: bool,
                               emptyStrings: bool)

  datatype ColumnType = ColumnType(kind: Kind, maxLen: Option<nat>, nulls: bool, size: Option<Size>)

  /** The size to declare: as many digits before the point, and after it, as any value needs. */
  function DeclaredSize(s: Stats): Option<Size> {
    match s.sizes
    case None => None
    case Some(z) => Some(Size(z.maxIntDigits + z.maxScale, z.maxScale))
  }

  /** Whether a type that every value matched is the one to use. */
  predicate Suits(k: Kind, s: Stats, exactDecimals: bool) {
    if LenSpec(k) then VarLen(k) || !s.varLen
    else if PrecSpec(k) then s.sizes.Some? && !ChoosesFloat(s, exactDecimals)
    else true
  }

  predicate Fits(k: Kind, s: Stats, values: nat, exactDecimals: bool) {
    !s.failed && s.count == values && Suits(k, s, exactDecimals)
  }

  function TypeOf(k: Kind, s: Stats, nulls: bool): ColumnType {
    ColumnType(k, if LenSpec(k) then Some(s.maxLen) else None, nulls, DeclaredSize(s))
  }

  /** The first type that fits, with the statistics of every value against every type. */
  function NaiveType(m: Matchers, kinds: seq<Kind>, infer: bool, values: seq<Cell>, nulls: bool, exactDecimals: bool)
    : Option<ColumnType>
  {
    if values == [] then Some(TypeOf(Unbounded, FRESH, nulls))
    else FirstFit(m, kinds, infer, values, nulls, exactDecimals)
  }

  function FirstFit(m: Matchers, kinds: seq<Kind>, infer: bool, values: seq<Cell>, nulls: bool, exactDecimals: bool)
    : Option<ColumnType>
  {
    if kinds == [] then None
    else
      var s := Naive(m, kinds[0], infer, values);
      if Fits(kinds[0], s, |values|, exactDecimals) then Some(TypeOf(kinds[0], s, nulls))
      else FirstFit(m, kinds[1..], infer, values, nulls, exactDecimals)
  }

  /** The value as it is checked; none if it counts as NULL. */
  function Cleaned(m: Matchers, conf: Settings, v: Cell): Option<Cell> {
    if v.Text? then
      var t1 := if conf.trimStrings then m.strip(v.text) else v.text;
      var t2 := if conf.replaceNewlines then m.onOneLine(t1) else t1;
      if !conf.emptyStrings && m.strip(t2) == "" then None else Some(Text(t2))
    else if v.Null? then None
    else Some(v)
  }

  ghost predicate NoRepeats(list: seq<Accum>) {
    forall i, j :: 0 <= i < j < |list| ==> list[i] != list[j] && list[i].dt != list[j].dt
  }

  ghost predicate Sound(a: Accum, m: Matchers)
    reads a, a.dt
  {
    && a.Valid() && a.dt.Valid() && a.dt.m == m && (a.dt.kind != Numeric ==> a.dt.size == None)
    && (a.dt.size.Some? <==> a.maxPrecision.Some?)
  }

  method NewAccums(m: Matchers, kinds: seq<Kind>, exactDecimals: bool) returns (accums: seq<Accum>)
    ensures |accums| == |kinds| && NoRepeats(accums)
    ensures forall i :: 0 <= i < |kinds| ==> fresh(accums[i]) && fresh(accums[i].dt) && accums[i].dt.kind == kinds[i]
    ensures forall a <- accums :: Sound(a, m) && a.State() == FRESH && a.exactDecimals == exactDecimals
  {
    accums := [];
    while |accums| < |kinds|
      invariant |accums| <= |kinds| && NoRepeats(accums)
      invariant forall i :: 0 <= i < |accums| ==>
                  fresh(accums[i]) && fresh(accums[i].dt) && accums[i].dt.kind == kinds[i]
      invariant forall a <- accums :: Sound(a, m) && a.State() == FRESH && a.exactDecimals == exactDecimals
    {
      var dt := new DataType(m, kinds[|accums|]);
      var a := new Accum(dt, exactDecimals);
      accums := accums + [a];
    }
  }

  /** Check one type that has not failed; the length is found when it is first needed. */
  method CheckOne(a: Accum, m: Matchers, v: Cell, length: Option<nat>) returns (l: Option<nat>)
    requires Sound(a, m) && !a.failed && (length.Some? ==> length.value == m.length(v))
    modifies a, a.dt
    ensures Sound(a, m) && a.State() == Check(m, a.dt.kind, old(a.State()), v)
    ensures l.Some? ==> l.value == m.length(v)
  {
    l := length;
    var matched := a.dt.IsMatch(v);
    if matched {
      if l.None? {
        l := Some(m.length(v));
      }
      a.Record(l.value);
    } else {
      a.failed := true;
    }
  }

  lemma Distinct(list: seq<Accum>)
    requires NoRepeats(list)
    ensures forall i, j :: 0 <= i < j < |list| ==> list[i] != list[j] && list[i].dt != list[j].dt
  {
  }

  /** Check a value against the types in the list, none of which has failed. */
  method CheckEach(list: seq<Accum>, m: Matchers, v: Cell) returns (anyFailed: bool)
    requires NoRepeats(list) && forall a <- list :: Sound(a, m) && !a.failed
    modifies list, set a <- list :: a.dt
    ensures forall a <- list :: Sound(a, m) && a.State() == Check(m, a.dt.kind, old(a.State()), v)
    ensures anyFailed <==> exists a <- list :: a.failed
  {
    hide *;
    Distinct(list);
    anyFailed := false;
    var length: Option<nat> := None;
    var i := 0;
    while i < |list|
      invariant 0 <= i <= |list|
      invariant forall j :: 0 <= j < |list| ==> Sound(list[j], m)
      invariant forall j :: 0 <= j < i ==> list[j].State() == Check(m, list[j].dt.kind, old(list[j].State()), v)
      invariant forall j :: i <= j < |list| ==> list[j].State() == old(list[j].State()) && !list[j].failed
      invariant anyFailed <==> exists j :: 0 <= j < i && list[j].failed
      invariant length.Some? ==> length.value == m.length(v)
    {
      length := CheckOne(list[i], m, v, length);
      if list[i].failed {
        anyFailed := true;
      }
      i := i + 1;
    }
  }

  /** The types that have failed. */
  ghost function Failed(accums: seq<Accum>): set<Accum>
    reads accums
  {
    set a <- accums | a.failed
  }

  /** The list holds types of a group, and at least those that have not failed. */
  ghost predicate Covers(list: seq<Accum>, accums: seq<Accum>, group: Kind -> bool, failed: set<Accum>) {
    && NoRepeats(list) && (forall a <- list :: a in accums && group(a.dt.kind))
    && (forall a <- accums :: a !in failed && group(a.dt.kind) ==> a in list)
  }

  /** The list holds the types in a group that have not failed. */
  ghost predicate LiveIn(live: seq<Accum>, accums: seq<Accum>, group: Kind -> bool, failed: set<Accum>) {
    Covers(live, accums, group, failed) && forall a <- live :: a !in failed
  }

  method StillLive(list: seq<Accum>, ghost accums: seq<Accum>, ghost group: Kind -> bool, ghost before: set<Accum>)
    returns (live: seq<Accum>)
    requires Covers(list, accums, group, before) && before <= Failed(accums)
    ensures LiveIn(live, accums, group, Failed(accums))
  {
    live := [];
    var i := 0;
    while i < |list|
      invariant 0 <= i <= |list| && NoRepeats(live)
      invariant forall a :: a in live <==> a in list[..i] && !a.failed
    {
      if !list[i].failed {
        assert forall a <- live :: a in list[..i];
        assert forall j :: 0 <= j < |live| ==> live[j] in live;
        live := live + [list[i]];
      }
      i := i + 1;
    }
  }

  predicate Any(k: Kind) { true }
  predicate IsBytes(k: Kind) { k == Binary || IsText(k) }

  lemma TheirKinds(accums: seq<Accum>, kinds: seq<Kind>)
    requires |accums| == |kinds| && forall i :: 0 <= i < |kinds| ==> accums[i].dt.kind == kinds[i]
    ensures KindsOf(accums) == kinds
  {
  }

  /** The lists of a new column: all types, those for text and those for bytes. */
  method StartLists(accums: seq<Accum>) returns (live: seq<Accum>, liveStr: seq<Accum>, liveBytes: seq<Accum>)
    requires NoRepeats(accums) && forall a <- accums :: a.State() == FRESH
    ensures LiveIn(live, accums, Any, Failed(accums)) && LiveIn(liveStr, accums, IsText, Failed(accums))
    ensures LiveIn(liveBytes, accums, IsBytes, Failed(accums))
  {
    hide NoRepeats, LiveIn, Failed;
    live := accums;
    liveStr := InGroup(accums, IsText);
    liveBytes := InGroup(accums, IsBytes);
    AllLive(live, accums, Any);
    AllLive(liveStr, accums, IsText);
    AllLive(liveBytes, accums, IsBytes);
  }

  lemma AllLive(list: seq<Accum>, accums: seq<Accum>, group: Kind -> bool)
    requires NoRepeats(list) && forall a <- accums :: a.State() == FRESH
    requires forall a :: a in list <==> a in accums && group(a.dt.kind)
    ensures LiveIn(list, accums, group, Failed(accums))
  {
    forall a <- accums ensures !a.failed {
      FailedIs(a);
    }
  }

  class Column {
    const m: Matchers
    const conf: Settings
    const infer: bool
    const accums: seq<Accum>
    var live: seq<Accum>
    var liveStr: seq<Accum>
    var liveBytes: seq<Accum>
    var rowCount: nat
    var nullRows: nat
    var found: Option<ColumnType>
    /** The values seen, cleaned, without NULLs. */
    ghost var seen: seq<Cell>

    ghost predicate Valid()
      reads this, accums, set a <- accums :: a.dt
    {
      && Tracks() && rowCount == nullRows + |seen|
      && (found.Some? ==> found == Type())
    }

    /** The statistics are those of trying every value against every type; the lists hold what has not
        failed. */
    ghost predicate Tracks()
      reads this`live, this`liveStr, this`liveBytes, this`seen, accums, set a <- accums :: a.dt
    {
      NoRepeats(accums) && Counts(seen) && Lists(Failed(accums))
    }

    ghost predicate Counts(values: seq<Cell>)
      reads accums, set a <- accums :: a.dt
    {
      && KindsOf(accums) == Kinds(conf.onlyStrings, infer)
      && (forall a <- accums :: Sound(a, m) && a.exactDecimals == conf.exactDecimals)
      && (forall a <- accums :: a.State() == Naive(m, a.dt.kind, infer, values))
    }

    ghost predicate Lists(failed: set<Accum>)
      reads this`live, this`liveStr, this`liveBytes
    {
      && LiveIn(live, accums, Any, failed) && LiveIn(liveStr, accums, IsText, failed)
      && LiveIn(liveBytes, accums, IsBytes, failed)
    }

    ghost function Type(): Option<ColumnType>
      reads this
    {
      NaiveType(m, Kinds(conf.onlyStrings, infer), infer, seen, nullRows > 0, conf.exactDecimals)
    }

    constructor (m: Matchers, conf: Settings, infer: bool)
      ensures Valid() && this.m == m && this.conf == conf && this.infer == infer && seen == [] && rowCount == 0
      ensures fresh(accums) && forall a <- accums :: fresh(a.dt)
    {
      hide Sound, Kinds, NaiveType, NoRepeats, LiveIn, KindsOf, Failed;
      this.m, this.conf, this.infer := m, conf, infer;
      var acs := NewAccums(m, Kinds(conf.onlyStrings, infer), conf.exactDecimals);
      accums := acs;
      TheirKinds(acs, Kinds(conf.onlyStrings, infer));
      var all, str, bytes := StartLists(acs);
      live, liveStr, liveBytes := all, str, bytes;
      rowCount, nullRows, found, seen := 0, 0, None, [];
    }

    /** Evaluate which types the value matches.  Only types that have not failed are tried; the statistics
        are those of trying all. */
    method EvalTypes(value: Cell)
      requires Valid()
      modifies this, accums, set a <- accums :: a.dt
      ensures Valid() && rowCount == old(rowCount) + 1
      ensures seen == old(seen) + match Cleaned(m, conf, value) case None => [] case Some(v) => [v]
    {
      hide Sound, KindsOf, Kinds, Naive, LiveIn, NoRepeats, NaiveType;
      found := None;
      rowCount := rowCount + 1;
      var v := value;
      if v.Text? {
        if conf.trimStrings {
          v := Text(m.strip(v.text));
        }
        if conf.replaceNewlines {
          v := Text(m.onOneLine(v.text));
        }
      }
      if v.Null? || (!conf.emptyStrings && v.Text? && |m.strip(v.text)| == 0) {
        nullRows := nullRows + 1;
        return;
      }
      Tally(v);
    }

    method Tally(v: Cell)
      requires Tracks()
      modifies this`live, this`liveStr, this`liveBytes, this`seen, accums, set a <- accums :: a.dt
      ensures Tracks() && seen == old(seen) + [v]
    {
      hide NoRepeats, LiveIn, Tried, Lists, Counts;
      var list := ListFor(v);
      ghost var failed := Failed(accums);
      var anyFailed := CountIn(list, v);
      if anyFailed {
        Prune(failed);
      }
    }

    method CountIn(list: seq<Accum>, v: Cell) returns (anyFailed: bool)
      requires NoRepeats(accums) && NoRepeats(list) && forall a <- list :: a in accums
      requires forall a <- accums :: a in list <==> !a.failed && Tried(a.dt.kind, infer, v)
      requires Counts(seen)
      modifies this`seen, accums, set a <- accums :: a.dt
      ensures Counts(seen) && seen == old(seen) + [v]
      ensures old(Failed(accums)) <= Failed(accums) && (!anyFailed ==> Failed(accums) == old(Failed(accums)))
    {
      hide NoRepeats, Tried, Counts, Failed;
      anyFailed := CheckAll(list, v);
      seen := seen + [v];
    }

    method ListFor(v: Cell) returns (list: seq<Accum>)
      requires Lists(Failed(accums))
      ensures NoRepeats(list) && (forall a <- list :: a in accums)
      ensures forall a <- accums :: a in list <==> !a.failed && Tried(a.dt.kind, infer, v)
    {
      if !infer && v.Text? {
        list := liveStr;
      } else if !infer && v.Bytes? {
        list := liveBytes;
      } else {
        list := live;
      }
    }

    method Prune(ghost before: set<Accum>)
      requires Lists(before) && before <= Failed(accums)
      modifies this`live, this`liveStr, this`liveBytes
      ensures Lists(Failed(accums))
    {
      live := StillLive(live, accums, Any, before);
      liveStr := StillLive(liveStr, accums, IsText, before);
      liveBytes := StillLive(liveBytes, accums, IsBytes, before);
    }

    /** The column's type: the first, of those that matched every value, that suits them.  It is the type that
        trying every value against every type gives. */
    method ColumnType() returns (t: Option<ColumnType>)
      requires Valid()
      modifies this`found
      ensures Valid() && t == Type()
    {
      hide Tracks, Naive, FirstFit, Kinds;
      if found.Some? {
        return found;
      }
      if nullRows == rowCount {
        t := Some(TypeOf(Unbounded, FRESH, nullRows > 0));
      } else {
        t := FirstOf();
      }
      found := t;
    }

    method FirstOf() returns (t: Option<ColumnType>)
      requires Tracks() && rowCount == nullRows + |seen|
      ensures t == FirstFit(m, Kinds(conf.onlyStrings, infer), infer, seen, nullRows > 0, conf.exactDecimals)
    {
      hide Kinds, Lists, Naive;
      var i := 0;
      ghost var kinds := KindsOf(accums);
      while i < |accums|
        invariant 0 <= i <= |accums|
        invariant FirstFit(m, kinds, infer, seen, nullRows > 0, conf.exactDecimals)
               == FirstFit(m, kinds[i..], infer, seen, nullRows > 0, conf.exactDecimals)
      {
        var ac := accums[i];
        assert ac in accums && Sound(ac, m) && ac.State() == Naive(m, ac.dt.kind, infer, seen);
        assert kinds[i..][0] == ac.dt.kind && kinds[i..][1..] == kinds[i + 1..];
        if !ac.failed && ac.count == rowCount - nullRows {
          var suits := true;
          if LenSpec(ac.dt.kind) {
            if !VarLen(ac.dt.kind) {
              suits := !ac.varLen;
            }
          } else if PrecSpec(ac.dt.kind) {
            suits := ac.dt.size.Some? && !ac.PrefersFloat();
          }
          if suits {
            return Some(ac.TypeOfIt(nullRows > 0));
          }
        }
        i := i + 1;
      }
      assert kinds[i..] == [];
      t := None;
    }

    /** The types in the list are checked, and the others stay as they are. */
    method CheckListed(list: seq<Accum>, v: Cell) returns (anyFailed: bool)
      requires NoRepeats(accums) && NoRepeats(list) && forall a <- list :: a in accums && !a.failed
      requires forall a <- accums :: Sound(a, m)
      modifies accums, set a <- accums :: a.dt
      ensures forall a <- accums :: Sound(a, m)
      ensures forall a <- accums ::
                a.State() == if a in list then Check(m, a.dt.kind, old(a.State()), v) else old(a.State())
      ensures anyFailed <==> exists a <- list :: a.failed
    {
      Separate(accums);
      hide Sound, NoRepeats, Check;
      ghost var dts := set b <- accums :: b.dt;
      forall a | a in list ensures a in accums && a.dt in dts {
        assert a in accums;
      }
      assert (set a <- list :: a.dt) <= dts;
      anyFailed := CheckEach(list, m, v);
    }

    /** A type that is not in the list has failed already, or is not for such a value. */
    method CheckAll(list: seq<Accum>, v: Cell) returns (anyFailed: bool)
      requires NoRepeats(accums) && NoRepeats(list) && forall a <- list :: a in accums
      requires forall a <- accums :: a in list <==> !a.failed && Tried(a.dt.kind, infer, v)
      requires Counts(seen)
      modifies accums, set a <- accums :: a.dt
      ensures Counts(seen + [v])
      ensures old(Failed(accums)) <= Failed(accums) && (!anyFailed ==> Failed(accums) == old(Failed(accums)))
    {
      hide Sound, Naive, NoRepeats, Check, Tried, Kinds, KindsOf;
      anyFailed := CheckListed(list, v);
      forall a <- accums
        ensures a.State() == Naive(m, a.dt.kind, infer, seen + [v]) && Sound(a, m)
        ensures old(a.failed) ==> a.failed
        ensures !anyFailed ==> a.failed == old(a.failed)
      {
        Counted(m, a.dt.kind, infer, seen, v, old(a.State()), a.State(), a in list);
        FailedIs(a);
      }
    }
  }

  lemma FailedIs(a: Accum)
    ensures a.State().failed == a.failed
  {
  }

  lemma Separate(accums: seq<Accum>)
    requires NoRepeats(accums)
    ensures forall a <- accums, b <- accums :: a != b ==> a.dt != b.dt
  {
  }

  lemma Counted(m: Matchers, k: Kind, infer: bool, values: seq<Cell>, v: Cell, before: Stats, after: Stats,
          checked: bool)
    requires before == Naive(m, k, infer, values)
    requires checked <==> !before.failed && Tried(k, infer, v)
    requires after == if checked then Check(m, k, before, v) else before
    ensures after == Naive(m, k, infer, values + [v]) && (before.failed ==> after.failed)
  {
    OneMore(m, k, infer, values, v);
  }

  lemma OneMore(m: Matchers, k: Kind, infer: bool, values: seq<Cell>, v: Cell)
    ensures var s := Naive(m, k, infer, values);
      Naive(m, k, infer, values + [v]) == if Tried(k, infer, v) then Check(m, k, s, v) else s
  {
    assert (values + [v])[..|values|] == values;
  }

  function KindsOf(accums: seq<Accum>): seq<Kind> {
    seq(|accums|, i requires 0 <= i < |accums| => accums[i].dt.kind)
  }

  method InGroup(list: seq<Accum>, group: Kind -> bool) returns (some: seq<Accum>)
    requires NoRepeats(list)
    ensures NoRepeats(some) && forall a :: a in some <==> a in list && group(a.dt.kind)
  {
    some := [];
    var i := 0;
    while i < |list|
      invariant 0 <= i <= |list| && NoRepeats(some)
      invariant forall a :: a in some <==> a in list[..i] && group(a.dt.kind)
    {
      if group(list[i].dt.kind) {
        assert forall j :: 0 <= j < |some| ==> some[j] in some;
        some := some + [list[i]];
      }
      i := i + 1;
    }
  }

  /** The values of a column as they are checked, without NULLs. */
  function CleanedAll(m: Matchers, conf: Settings, column: seq<Cell>): seq<Cell> {
    if column == [] then []
    else
      CleanedAll(m, conf, column[..|column| - 1])
      + match Cleaned(m, conf, column[|column| - 1]) case None => [] case Some(v) => [v]
  }

  /** The type of a column of a table, every value checked against every type. */
  function TypeOfColumn(m: Matchers, conf: Settings, infer: bool, column: seq<Cell>): Option<ColumnType> {
    var values := CleanedAll(m, conf, column);
    NaiveType(m, Kinds(conf.onlyStrings, infer), infer, values, |values| < |column|, conf.exactDecimals)
  }

  /** Scan a column of a table: the pruned scan finds the type of the naive one. */
  method ScanColumn(m: Matchers, conf: Settings, infer: bool, column: seq<Cell>) returns (t: Option<ColumnType>)
    ensures t == TypeOfColumn(m, conf, infer, column)
  {
    hide NaiveType, Kinds, Cleaned, Column.Tracks;
    var col := new Column(m, conf, infer);
    var i := 0;
    while i < |column|
      invariant 0 <= i <= |column| && col.Valid() && col.rowCount == i
      invariant col.seen == CleanedAll(m, conf, column[..i])
      invariant fresh(col) && fresh(col.accums) && forall a <- col.accums :: fresh(a.dt)
    {
      col.EvalTypes(column[i]);
      assert column[..i + 1][..i] == column[..i];
      i := i + 1;
    }
    assert column[..i] == column;
    t := col.ColumnType();
  }

  // ---------------------------------------------------------------------------------------------
  // What the type promises
  // ---------------------------------------------------------------------------------------------

  /** What the statistics of a type that has not failed say of each value. */
  predicate Covered(m: Matchers, k: Kind, s: Stats, v: Cell) {
    && Accepts(m, k, v) && m.length(v) <= s.maxLen
    && (k == Numeric ==>
          && s.sizes.Some?
          && var size, z := SizeOf(m.decimal(v).value), s.sizes.value;
             size.scale <= z.maxScale && size.precision - size.scale <= z.maxIntDigits
                 && size.precision <= z.maxPrecision)
  }

  lemma CheckCovers(m: Matchers, k: Kind, s: Stats, v: Cell)
    requires !Check(m, k, s, v).failed
    ensures Covered(m, k, Check(m, k, s, v), v)
    ensures forall u :: Covered(m, k, s, u) ==> Covered(m, k, Check(m, k, s, v), u)
  {
  }

  lemma {:induction false} AllCovered(m: Matchers, k: Kind, infer: bool, values: seq<Cell>)
    ensures var s := Naive(m, k, infer, values);
      s.count <= |values| && (!s.failed && s.count == |values| ==> forall v <- values :: Covered(m, k, s, v))
  {
    if values != [] {
      hide Covered;
      var n := |values| - 1;
      AllCovered(m, k, infer, values[..n]);
      var before, s := Naive(m, k, infer, values[..n]), Naive(m, k, infer, values);
      if !s.failed && s.count == |values| {
        CheckCovers(m, k, before, values[n]);
        assert forall v <- values :: v in values[..n] || v == values[n];
      }
    }
  }

  /** The type that is found is that of the first kind that fits. */
  lemma {:induction false} FirstFitFits(m: Matchers, kinds: seq<Kind>, infer: bool, values: seq<Cell>, nulls: bool,
                                        exactDecimals: bool)
    ensures match FirstFit(m, kinds, infer, values, nulls, exactDecimals)
            case None => forall k <- kinds :: !Fits(k, Naive(m, k, infer, values), |values|, exactDecimals)
            case Some(t) =>
              && t.kind in kinds && Fits(t.kind, Naive(m, t.kind, infer, values), |values|, exactDecimals)
              && t == TypeOf(t.kind, Naive(m, t.kind, infer, values), nulls)
              && exists i :: 0 <= i < |kinds| && kinds[i] == t.kind
                             && forall k <- kinds[..i] :: !Fits(k, Naive(m, k, infer, values), |values|, exactDecimals)
  {
    if kinds != [] {
      hide Fits, Naive;
      var rest := kinds[1..];
      FirstFitFits(m, rest, infer, values, nulls, exactDecimals);
      var t := FirstFit(m, kinds, infer, values, nulls, exactDecimals);
      if Fits(kinds[0], Naive(m, kinds[0], infer, values), |values|, exactDecimals) {
        assert kinds[0] == t.value.kind && kinds[..0] == [];
      } else if t.Some? {
        var i :| 0 <= i < |rest| && rest[i] == t.value.kind
                 && forall k <- rest[..i] :: !Fits(k, Naive(m, k, infer, values), |values|, exactDecimals);
        assert kinds[i + 1] == t.value.kind && kinds[..i + 1] == [kinds[0]] + rest[..i];
      }
    }
  }

  /** The type that is found takes every value; a length is enough for every text, and a DECIMAL(p, s) holds
      every number exactly. */
  lemma TypeHoldsAllValues(m: Matchers, kinds: seq<Kind>, infer: bool, values: seq<Cell>, nulls: bool,
                           exactDecimals: bool, v: Cell)
    requires v in values && NaiveType(m, kinds, infer, values, nulls, exactDecimals).Some?
    ensures var t := NaiveType(m, kinds, infer, values, nulls, exactDecimals).value;
      && Accepts(m, t.kind, v)
      && (t.maxLen.Some? ==> m.length(v) <= t.maxLen.value)
      && (t.kind == Numeric ==> t.size.Some? && Holds(t.size.value.precision, t.size.value.scale,
                                                      m.decimal(v).value.Value()))
  {
    hide Naive, Holds;
    FirstFitFits(m, kinds, infer, values, nulls, exactDecimals);
    var t := NaiveType(m, kinds, infer, values, nulls, exactDecimals).value;
    AllCovered(m, t.kind, infer, values);
    var s := Naive(m, t.kind, infer, values);
    assert Covered(m, t.kind, s, v);
    if t.kind == Numeric {
      SizeHolds(m.decimal(v).value, t.size.value.precision, t.size.value.scale);
    }
  }

  /** A column of decimals that becomes a float column loses nothing: the double nearest to a value is nearer
      to it than to any other number of as many places. */
  lemma FloatColumnLosesNothing(m: Matchers, infer: bool, values: seq<Cell>, exactDecimals: bool, v: Cell, x: real,
          k: int)
    requires var s := Naive(m, Numeric, infer, values);
      !s.failed && s.count == |values| && ChoosesFloat(s, exactDecimals)
    requires v in values
    requires m.decimal(v).Some? ==> Nearest(x, m.decimal(v).value.Value()) && k != m.decimal(v).value.Coefficient()
    ensures m.decimal(v).Some?
    ensures var d := m.decimal(v).value; Decimals.Abs(x - d.Value()) < Decimals.Abs(x - Scaled(k, d.exponent))
  {
    hide Naive, Nearest, Scaled;
    AllCovered(m, Numeric, infer, values);
    assert Covered(m, Numeric, Naive(m, Numeric, infer, values), v);
    DecimalSurvivesDouble(m.decimal(v).value, x, k);
  }

  // ---------------------------------------------------------------------------------------------
  // Texts of one length
  // ---------------------------------------------------------------------------------------------

  ghost predicate EmptyUpTo(m: Matchers, values: seq<Cell>, i: nat)
    requires i < |values|
  {
    forall j :: 0 <= j <= i ==> m.length(values[j]) == 0
  }

  ghost predicate OneLength(m: Matchers, values: seq<Cell>, length: nat) {
    forall i :: 0 <= i < |values| ==> m.length(values[i]) == length || EmptyUpTo(m, values, i)
  }

  /** What `varLen` really tells: it stays off exactly when every value has the greatest length, but for empty
      values before the first other one. */
  lemma {:induction false} VarLenIff(m: Matchers, k: Kind, infer: bool, values: seq<Cell>)
    requires var s := Naive(m, k, infer, values); !s.failed && s.count == |values|
    ensures var s := Naive(m, k, infer, values); !s.varLen <==> OneLength(m, values, s.maxLen)
    ensures Naive(m, k, infer, values).maxLen == 0 <==> forall v <- values :: m.length(v) == 0
  {
    if values != [] {
      var n := |values| - 1;
      AllCovered(m, k, infer, values[..n]);
      VarLenIff(m, k, infer, values[..n]);
      var before, s := Naive(m, k, infer, values[..n]), Naive(m, k, infer, values);
      OneLengthStep(m, values, before.maxLen, s.maxLen);
      assert forall v <- values :: v in values[..n] || v == values[n];
      assert values[n] in values && forall v <- values[..n] :: v in values;
    }
  }

  lemma OneLengthStep(m: Matchers, values: seq<Cell>, before: nat, after: nat)
    requires values != []
    requires var n := |values| - 1; after == Max(m.length(values[n]), before)
    requires before == 0 <==> forall v <- values[..|values| - 1] :: m.length(v) == 0
    requires forall v <- values[..|values| - 1] :: m.length(v) <= before
    ensures OneLength(m, values, after) <==>
            OneLength(m, values[..|values| - 1], before) && !(before > 0 && m.length(values[|values| - 1]) != before)
  {
    var n := |values| - 1;
    var first := values[..n];
    assert forall i :: 0 <= i < n ==> first[i] == values[i] && values[i] in first;
    assert forall i :: 0 <= i < n ==> EmptyUpTo(m, first, i) == EmptyUpTo(m, values, i);
  }

  /** A fixed-length type is therefore right if the first value is not empty. */
  lemma FixedLengthIfFirstIsNotEmpty(m: Matchers, k: Kind, infer: bool, values: seq<Cell>)
    requires values != [] && m.length(values[0]) > 0
    requires var s := Naive(m, k, infer, values); !s.failed && s.count == |values|
    ensures !Naive(m, k, infer, values).varLen <==> forall v <- values :: m.length(v) == m.length(values[0])
  {
    hide Naive;
    VarLenIff(m, k, infer, values);
    AllCovered(m, k, infer, values);
    LongestIsReached(m, k, infer, values);
    forall i | 0 <= i < |values| ensures !EmptyUpTo(m, values, i) {
      NotEmptyUpTo(m, values, i);
    }
  }

  lemma NotEmptyUpTo(m: Matchers, values: seq<Cell>, i: nat)
    requires i < |values| && m.length(values[0]) > 0
    ensures !EmptyUpTo(m, values, i)
  {
  }

  lemma {:induction false} LongestIsReached(m: Matchers, k: Kind, infer: bool, values: seq<Cell>)
    requires var s := Naive(m, k, infer, values); !s.failed && s.count == |values|
    ensures Naive(m, k, infer, values).maxLen == 0
            || exists v <- values :: m.length(v) == Naive(m, k, infer, values).maxLen
  {
    if values != [] {
      var n := |values| - 1;
      AllCovered(m, k, infer, values[..n]);
      LongestIsReached(m, k, infer, values[..n]);
      assert values[n] in values && forall v <- values[..n] :: v in values;
    }
  }

  /** It is wrong for an empty text followed by a longer one: with only the string types to choose from, both go
      into a CHARACTER(3) column. */
  lemma EmptyFirstValueIsMissed(m: Matchers)
    requires m.length(Text("")) == 0 && m.length(Text("abc")) == 3
    requires m.fits(Character, Text("")) && m.fits(Character, Text("abc"))
    ensures NaiveType(m, Kinds(true, true), true, [Text(""), Text("abc")], false, false)
         == Some(ColumnType.ColumnType(Character, Some(3), false, None))
  {
    var values := [Text(""), Text("abc")];
    assert values[..1] == [Text("")] && values[..1][..0] == [];
    assert Naive(m, Character, true, values[..1]) == Stats(false, 1, 0, false, None);
    assert Naive(m, Character, true, values) == Stats(false, 2, 3, false, None);
  }
}
