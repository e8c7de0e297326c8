/** `E'...'` literals kept out of the SQL formatter's way: `_protect_estrings` puts a placeholder for each,
    and `_restore_estrings` puts the literals back.

    `MasksComeBack` says exactly when the two undo each other and `WrongTextIff` what comes of every other text;
    `RestoredHasEveryLiteral` says what is sure of any text in between, whatever the formatter made of it. */
module EStringMasks {
  import opened Numerals
  import opened Options
  import opened SqlSpans

  const MARK := "execsqlestr"

  function Placeholder(n: nat): string { "'" + MARK + ShowDigits(n) + "'" }

  // ---------------------------------------------------------------------------------------------
  // Masking
  // ---------------------------------------------------------------------------------------------

  /** Spans one after the other within the text, from `last` on. */
  predicate InOrder(spans: seq<Span>, last: nat, length: nat) {
    if spans == [] then last <= length
    else last <= spans[0].start <= spans[0].stop <= length && InOrder(spans[1..], spans[0].stop, length)
  }

  /** The text from `last` on with the escape strings masked, the first of them as number `n`. */
  function Masked(sql: string, spans: seq<Span>, last: nat, n: nat): string
    requires InOrder(spans, last, |sql|)
    decreases |spans|
  {
    if spans == [] then sql[last..]
    else if !spans[0].kind.EString? then (InOrderSkip(spans, last, |sql|); Masked(sql, spans[1..], last, n))
    else sql[last..spans[0].start] + (Placeholder(n) + Masked(sql, spans[1..], spans[0].stop, n + 1))
  }

  function Originals(sql: string, spans: seq<Span>): seq<string> {
    if spans == [] then []
    else
      (if spans[0].kind.EString? && spans[0].start <= spans[0].stop <= |sql|
       then [sql[spans[0].start..spans[0].stop]] else [])
      + Originals(sql, spans[1..])
  }

  lemma InOrderSkip(spans: seq<Span>, last: nat, length: nat)
    requires spans != [] && InOrder(spans, last, length)
    ensures InOrder(spans[1..], last, length)
  {
    if |spans| > 1 {
      assert spans[1..][0] == spans[1];
    }
  }

  /** The scan's spans come in order. */
  lemma {:induction false} SpansInOrder(m: Mode, start: nat, s: string, pos: nat)
    requires ModeOk(m) && start <= pos
    ensures InOrder(Spans(m, start, s, pos), if m.Code? then pos else start, pos + |s|)
    ensures var r := Spans(m, start, s, pos); !m.Code? ==> r != [] && r[0].start == start
    decreases |s|
  {
    hide Next;
    if s != "" {
      var mv := Next(m, s);
      SpansInOrder(mv.mode, if m.Code? || mv.mode.Code? then pos else start, s[mv.n..], pos + mv.n);
    }
  }

  /** `_protect_estrings`. */
  method ProtectEStrings(sql: string) returns (protected: string, originals: seq<string>)
    ensures InOrder(AllSpans(sql), 0, |sql|)
    ensures protected == Masked(sql, AllSpans(sql), 0, 0) && originals == Originals(sql, AllSpans(sql))
  {
    hide Spans, Placeholder;
    SpansInOrder(Code(false), 0, sql, 0);
    var spans := IterSqlSpans(sql);
    originals := [];
    var out := "";
    var last: nat := 0;
    var i: nat := 0;
    assert spans[0..] == spans;
    while i < |spans|
      invariant i <= |spans| && InOrder(spans[i..], last, |sql|)
      invariant out + Masked(sql, spans[i..], last, |originals|) == Masked(sql, spans, 0, 0)
      invariant originals + Originals(sql, spans[i..]) == Originals(sql, spans)
    {
      var rest := spans[i..];
      assert rest[0] == spans[i] && rest[1..] == spans[i + 1..];
      var sp := spans[i];
      if !sp.kind.EString? {
        InOrderSkip(rest, last, |sql|);
        assert Originals(sql, rest) == Originals(sql, rest[1..]);
      } else {
        Regroup(out, sql[last..sp.start], Placeholder(|originals|), Masked(sql, rest[1..], sp.stop, |originals| + 1));
        out := out + sql[last..sp.start];
        out := out + Placeholder(|originals|);
        RegroupTexts(originals, sql[sp.start..sp.stop], Originals(sql, rest[1..]));
        originals := originals + [sql[sp.start..sp.stop]];
        last := sp.stop;
      }
      i := i + 1;
    }
    assert spans[i..] == [];
    if originals == [] {
      NothingMasked(sql, spans, 0, 0);
      return sql, [];
    }
    out := out + sql[last..];
    protected := out;
  }

  lemma Regroup(a: string, b: string, c: string, d: string)
    ensures a + (b + (c + d)) == a + b + c + d
  {
  }

  lemma RegroupTexts(a: seq<string>, b: string, c: seq<string>)
    ensures a + ([b] + c) == a + [b] + c
  {
  }

  lemma {:induction false} NothingMasked(sql: string, spans: seq<Span>, last: nat, n: nat)
    requires InOrder(spans, last, |sql|) && Originals(sql, spans) == []
    ensures Masked(sql, spans, last, n) == sql[last..]
    decreases |spans|
  {
    if spans != [] {
      InOrderSkip(spans, last, |sql|);
      NothingMasked(sql, spans[1..], last, n);
    }
  }

  // ---------------------------------------------------------------------------------------------
  // Putting the literals back
  // ---------------------------------------------------------------------------------------------

  /** Where a placeholder at the start of the text ends, if there is one. */
  function PlaceholderEnd(s: string): (r: Option<nat>)
    ensures r.Some? ==> |MARK| + 3 <= r.value <= |s|
  {
    if !("'" + MARK <= s) then None
    else
      var e := Digits(s, |MARK| + 1);
      if e > |MARK| + 1 && e < |s| && s[e] == '\'' then Some(e + 1) else None
  }

  function PlaceholderNumber(s: string): nat
    requires PlaceholderEnd(s).Some?
  {
    Value(s[|MARK| + 1..PlaceholderEnd(s).value - 1])
  }

  /** How much of the text the first step of putting back takes: a placeholder, or one character. */
  function Width(s: string): (n: nat)
    requires s != ""
    ensures 0 < n <= |s|
  {
    if PlaceholderEnd(s).Some? then PlaceholderEnd(s).value else 1
  }

  /** The number of the literal a text starts with a placeholder of. */
  function LiteralHere(s: string, count: nat): (r: Option<nat>)
    ensures r.Some? ==> r.value < count
  {
    if PlaceholderEnd(s).Some? && PlaceholderNumber(s) < count then Some(PlaceholderNumber(s)) else None
  }

  /** What the first step puts down. */
  function Put(s: string, originals: seq<string>): string
    requires s != ""
  {
    match LiteralHere(s, |originals|)
    case Some(n) => originals[n]
    case None => s[..Width(s)]
  }

  /** The number of the literal the first step puts back. */
  function Noted(s: string, count: nat): set<nat> {
    match LiteralHere(s, count)
    case Some(n) => {n}
    case None => {}
  }

  /** Every placeholder that has a literal replaced by it, from left to right. */
  function Replaced(s: string, originals: seq<string>): string
    decreases |s|
  {
    if s == "" then "" else Put(s, originals) + Replaced(s[Width(s)..], originals)
  }

  /** The numbers of the literals that were put back. */
  function Seen(s: string, count: nat): set<nat>
    decreases |s|
  {
    if s == "" then {} else Noted(s, count) + Seen(s[Width(s)..], count)
  }

  predicate Contains(s: string, t: string) {
    exists i :: 0 <= i <= |s| && StandsIn(s, t, i)
  }

  predicate StandsIn(s: string, t: string, i: int) { 0 <= i && i + |t| <= |s| && s[i..i + |t|] == t }

  /** `_restore_estrings`: none if a literal went missing, or if the placeholders' word is left anywhere. */
  function Restored(sql: string, originals: seq<string>): Option<string> {
    if originals == [] then Some(sql)
    else if |Seen(sql, |originals|)| != |originals| || Contains(Replaced(sql, originals), MARK) then None
    else Some(Replaced(sql, originals))
  }

  /** The nested `replace` at the start of a text; what is no placeholder is copied. */
  method ReplaceHere(s: string, originals: seq<string>, seen: set<nat>) returns (put: string, seen': set<nat>)
    requires s != ""
    ensures put == Put(s, originals) && seen' == seen + Noted(s, |originals|)
  {
    var m := PlaceholderEnd(s);
    if m.None? {
      return [s[0]], seen;
    }
    var idx := PlaceholderNumber(s);
    if idx >= |originals| {
      return s[..m.value], seen;
    }
    seen' := seen + {idx};
    put := originals[idx];
  }

  /** One round of the substitution: the placeholder or the character at `i`. */
  method SubstituteNext(sql: string, originals: seq<string>, restored: string, seen: set<nat>, i: nat)
    returns (restored': string, seen': set<nat>, i': nat)
    requires i < |sql| && SoFar(sql, originals, i, restored, seen)
    ensures i < i' <= |sql| && SoFar(sql, originals, i', restored', seen')
  {
    hide *;
    RestoreMove(sql, originals, i, restored, seen);
    var put;
    put, seen' := ReplaceHere(sql[i..], originals, seen);
    restored', i' := restored + put, i + Width(sql[i..]);
  }

  /** `_restore_estrings`. */
  method RestoreEStrings(sql: string, originals: seq<string>) returns (r: Option<string>)
    ensures r == Restored(sql, originals)
  {
    if originals == [] {
      return Some(sql);
    }
    hide *;
    RestoreStarts(sql, originals);
    var seen: set<nat> := {};
    var restored := "";
    var i: nat := 0;
    while i < |sql|
      invariant i <= |sql| && SoFar(sql, originals, i, restored, seen)
    {
      restored, seen, i := SubstituteNext(sql, originals, restored, seen, i);
    }
    RestoreEnds(sql, originals, restored, seen);
    if |seen| != |originals| || Contains(restored, MARK) {
      return None;
    }
    r := Some(restored);
  }

  /** What has been restored, and what is still to come. */
  ghost predicate SoFar(sql: string, originals: seq<string>, i: nat, restored: string, seen: set<nat>) {
    && i <= |sql| && restored + Replaced(sql[i..], originals) == Replaced(sql, originals)
    && seen + Seen(sql[i..], |originals|) == Seen(sql, |originals|)
  }

  lemma RestoreMove(sql: string, originals: seq<string>, i: nat, restored: string, seen: set<nat>)
    requires i < |sql| && SoFar(sql, originals, i, restored, seen)
    ensures var s := sql[i..];
      SoFar(sql, originals, i + Width(s), restored + Put(s, originals), seen + Noted(s, |originals|))
  {
    hide Width, Put, Noted;
    var s := sql[i..];
    assert s[Width(s)..] == sql[i + Width(s)..];
    RegroupBack(restored, Put(s, originals), Replaced(s[Width(s)..], originals));
    RegroupSets(seen, Noted(s, |originals|), Seen(s[Width(s)..], |originals|));
  }

  lemma RestoreStarts(sql: string, originals: seq<string>)
    ensures SoFar(sql, originals, 0, "", {})
  {
    hide Replaced, Seen;
    assert sql[0..] == sql;
    assert "" + Replaced(sql, originals) == Replaced(sql, originals);
  }

  lemma RestoreEnds(sql: string, originals: seq<string>, restored: string, seen: set<nat>)
    requires originals != [] && SoFar(sql, originals, |sql|, restored, seen)
    ensures Restored(sql, originals)
         == if |seen| != |originals| || Contains(restored, MARK) then None else Some(restored)
  {
    hide Replaced, Seen, Contains;
    NothingReplaced(originals);
    assert sql[|sql|..] == "";
    assert restored + "" == restored && seen + {} == seen;
  }

  lemma RegroupSets(a: set<nat>, b: set<nat>, c: set<nat>)
    ensures a + (b + c) == a + b + c
  {
  }

  lemma RegroupBack(a: string, b: string, c: string)
    ensures a + (b + c) == a + b + c
  {
  }

  // ---------------------------------------------------------------------------------------------
  // Where the scan finds an escape string
  // ---------------------------------------------------------------------------------------------

  predicate OpensEString(sql: string, start: nat) {
    && start + 2 <= |sql| && (sql[start] == 'e' || sql[start] == 'E') && sql[start + 1] == '\''
    && (start > 0 ==> !IsDigit(sql[start - 1]))
  }

  /** An escape string as the scan reports it: never behind a digit, and closed unless it is the text's end. */
  predicate IsEString(sql: string, sp: Span) {
    && OpensEString(sql, sp.start) && sp.start + 2 <= sp.stop <= |sql|
    && (sp.stop < |sql| ==> sql[sp.stop - 1] == '\'')
  }

  ghost predicate EStringsIn(sql: string, spans: seq<Span>) {
    forall sp <- spans :: sp.kind.EString? ==> IsEString(sql, sp)
  }

  /** What the scan knows of the text it has passed. */
  ghost predicate Knows(sql: string, m: Mode, start: nat, pos: nat)
    requires pos <= |sql|
  {
    && (m == Code(false) && pos > 0 ==> !IsDigit(sql[pos - 1]))
    && (m.InEString? ==> OpensEString(sql, start) && start + 2 <= pos)
  }

  lemma KnowsNext(sql: string, m: Mode, start: nat, s: string, pos: nat)
    requires ModeOk(m) && s != "" && pos <= |sql| && sql[pos..] == s && Knows(sql, m, start, pos)
    ensures var mv := Next(m, s);
      && Knows(sql, mv.mode, if m.Code? then pos else start, pos + mv.n)
      && (m.InEString? && mv.mode.Code? ==> sql[pos + mv.n - 1] == '\'')
  {
    hide DollarTag;
    assert sql[pos] == s[0] && (|s| >= 2 ==> sql[pos + 1] == s[1]);
  }

  lemma {:induction false} ScanFindsEStrings(sql: string, m: Mode, start: nat, s: string, pos: nat)
    requires ModeOk(m) && pos <= |sql| && sql[pos..] == s && Knows(sql, m, start, pos)
    ensures EStringsIn(sql, Spans(m, start, s, pos))
    decreases |s|
  {
    hide Next, OpensEString, Spans, IsDigit;
    if s == "" {
      SpansAtEnd(m, start, pos);
    } else {
      var mv := Next(m, s);
      KnowsNext(sql, m, start, s, pos);
      SpansMove(m, start, s, pos);
      ScanFindsEStrings(sql, mv.mode, if m.Code? || mv.mode.Code? then pos else start, s[mv.n..], pos + mv.n);
    }
  }

  lemma SpansAtEnd(m: Mode, start: nat, pos: nat)
    requires ModeOk(m)
    ensures Spans(m, start, "", pos) == if m.Code? then [] else [Span(start, pos, KindOf(m))]
  {
  }

  // ---------------------------------------------------------------------------------------------
  // There and back
  // ---------------------------------------------------------------------------------------------

  lemma {:induction false} DigitsWithin(a: string, b: string, p: nat)
    requires p <= |a| && (Digits(a, p) < |a| || b == "" || !IsDigit(b[0]))
    ensures Digits(a + b, p) == Digits(a, p)
    decreases |a| - p
  {
    if p < |a| && IsDigit(a[p]) {
      DigitsWithin(a, b, p + 1);
    }
  }

  /** A part of the text that no placeholder reaches out of. */
  predicate Apart(a: string, b: string) {
    (a == "" || !IsDigit(a[|a| - 1])) && (b == "" || b[0] == '\'')
  }

  lemma MarkWithin(a: string, b: string)
    requires a != "" && Apart(a, b)
    ensures "'" + MARK <= a + b <==> "'" + MARK <= a
  {
    var s, p := a + b, "'" + MARK;
    assert forall i :: 0 < i < |p| ==> p[i] != '\'';
    assert |a| < |s| ==> s[|a|] == b[0];
    assert |a| < |p| && |a| < |s| ==> s[|a|] != p[|a|];
  }

  lemma PlaceholderWithin(a: string, b: string)
    requires a != "" && Apart(a, b)
    ensures PlaceholderEnd(a + b) == PlaceholderEnd(a)
    ensures PlaceholderEnd(a).Some? ==> PlaceholderNumber(a + b) == PlaceholderNumber(a)
  {
    hide Value;
    var k := |MARK| + 1;
    MarkWithin(a, b);
    if "'" + MARK <= a {
      DigitsWithin(a, b, k);
      var e := Digits(a, k);
      assert e < |a| ==> (a + b)[e] == a[e];
      assert (a + b)[k..e] == a[k..e];
    }
  }

  lemma StepWithin(a: string, b: string, originals: seq<string>)
    requires a != "" && Apart(a, b)
    ensures Width(a + b) == Width(a) && Put(a + b, originals) == Put(a, originals)
    ensures Noted(a + b, |originals|) == Noted(a, |originals|)
  {
    hide PlaceholderEnd, PlaceholderNumber, Apart;
    PlaceholderWithin(a, b);
    assert (a + b)[..Width(a)] == a[..Width(a)];
  }

  /** Putting back goes part by part. */
  lemma {:induction false} ReplacedPart(a: string, b: string, originals: seq<string>)
    requires Apart(a, b)
    ensures Replaced(a + b, originals) == Replaced(a, originals) + Replaced(b, originals)
    ensures Seen(b, |originals|) <= Seen(a + b, |originals|)
    decreases |a|
  {
    hide Width, Put, Noted, IsDigit;
    if a == "" {
      assert a + b == b;
    } else {
      StepWithin(a, b, originals);
      var e := Width(a);
      assert (a + b)[e..] == a[e..] + b;
      assert |a| > e ==> a[e..][|a| - e - 1] == a[|a| - 1];
      ReplacedPart(a[e..], b, originals);
      RegroupBack(Put(a, originals), Replaced(a[e..], originals), Replaced(b, originals));
    }
  }

  lemma MarkInTail(a: string, k: nat)
    requires k <= |a| && Contains(a[k..], MARK)
    ensures Contains(a, MARK)
  {
    var i :| 0 <= i <= |a[k..]| && StandsIn(a[k..], MARK, i);
    assert a[i + k..i + k + |MARK|] == a[k..][i..i + |MARK|];
    assert StandsIn(a, MARK, i + k);
  }

  /** Without the word nothing is replaced. */
  lemma {:induction false} NothingLike(a: string, originals: seq<string>)
    requires !Contains(a, MARK)
    ensures Replaced(a, originals) == a
    decreases |a|
  {
    hide PlaceholderNumber, Contains;
    if a != "" {
      if PlaceholderEnd(a).Some? {
        assert a[1..1 + |MARK|] == MARK;
        MarkBehindQuote(a);
      }
      if Contains(a[1..], MARK) {
        MarkInTail(a, 1);
      }
      NothingLike(a[1..], originals);
    }
  }

  lemma MarkBehindQuote(a: string)
    requires |a| > |MARK| && a[1..1 + |MARK|] == MARK
    ensures Contains(a, MARK)
  {
    assert StandsIn(a, MARK, 1);
  }

  lemma PlaceholderHere(n: nat, rest: string)
    ensures var s := Placeholder(n) + rest;
      && PlaceholderEnd(s) == Some(|Placeholder(n)|) && PlaceholderNumber(s) == n && s[|Placeholder(n)|..] == rest
  {
    hide ShowDigits;
    var d, k := ShowDigits(n), |MARK| + 1;
    var s := Placeholder(n) + rest;
    assert s[..k] == "'" + MARK;
    assert s[k..k + |d|] == d && s[k + |d|] == '\'';
    DigitsHere(s, k, k + |d|);
    assert d[0] in d;
  }

  lemma {:induction false} DigitsHere(s: string, p: nat, q: nat)
    requires p <= q < |s| && (forall c <- s[p..q] :: IsDigit(c)) && !IsDigit(s[q])
    ensures Digits(s, p) == q
    decreases q - p
  {
    if p < q {
      assert s[p] == s[p..q][0] && s[p + 1..q] == s[p..q][1..];
      DigitsHere(s, p + 1, q);
    }
  }

  lemma PlaceholderFirst(n: nat, rest: string, originals: seq<string>)
    requires n < |originals|
    ensures Placeholder(n) + rest != "" && (Placeholder(n) + rest)[0] == '\''
    ensures Replaced(Placeholder(n) + rest, originals) == originals[n] + Replaced(rest, originals)
    ensures Seen(Placeholder(n) + rest, |originals|) == {n} + Seen(rest, |originals|)
  {
    hide PlaceholderEnd, PlaceholderNumber;
    PlaceholderHere(n, rest);
  }

  /** The originals from number `n` on. */
  predicate Numbered(sql: string, spans: seq<Span>, n: nat, originals: seq<string>) {
    n <= |originals| && originals[n..] == Originals(sql, spans)
  }

  /** The numbers from `n` on. */
  function Upto(n: nat, count: nat): (r: set<nat>)
    ensures forall i :: i in r <==> n <= i < count
    decreases count - n
  {
    if n >= count then {} else {n} + Upto(n + 1, count)
  }

  /** The text from `last` on with the escape strings as they were, and everything between them that looks like
      a placeholder replaced. */
  function Swapped(sql: string, spans: seq<Span>, last: nat, originals: seq<string>): string
    requires InOrder(spans, last, |sql|)
    decreases |spans|
  {
    if spans == [] then Replaced(sql[last..], originals)
    else if !spans[0].kind.EString? then (InOrderSkip(spans, last, |sql|); Swapped(sql, spans[1..], last, originals))
    else
      Replaced(sql[last..spans[0].start], originals)
      + (sql[spans[0].start..spans[0].stop] + Swapped(sql, spans[1..], spans[0].stop, originals))
  }

  lemma PartApart(sql: string, last: nat, sp: Span, rest: string)
    requires last <= sp.start && IsEString(sql, sp) && rest != "" && rest[0] == '\''
    ensures Apart(sql[last..sp.start], rest)
  {
  }

  /** Every escape string comes back, with whatever the lookalikes between them became. */
  lemma {:induction false} MaskedIsSwapped(sql: string, spans: seq<Span>, last: nat, n: nat, originals: seq<string>)
    requires InOrder(spans, last, |sql|) && Numbered(sql, spans, n, originals) && EStringsIn(sql, spans)
    ensures Replaced(Masked(sql, spans, last, n), originals) == Swapped(sql, spans, last, originals)
    ensures Upto(n, |originals|) <= Seen(Masked(sql, spans, last, n), |originals|)
    decreases |spans|
  {
    hide Contains, Replaced, Seen, Placeholder, IsEString, Apart;
    assert spans != [] ==> forall sp <- spans[1..] :: sp in spans;
    if spans == [] {
    } else if !spans[0].kind.EString? {
      InOrderSkip(spans, last, |sql|);
      MaskedIsSwapped(sql, spans[1..], last, n, originals);
    } else {
      var sp := spans[0];
      var rest := Masked(sql, spans[1..], sp.stop, n + 1);
      assert sp in spans;
      assert originals[n..][0] == sql[sp.start..sp.stop] && originals[n..][1..] == originals[n + 1..];
      PlaceholderFirst(n, rest, originals);
      PartApart(sql, last, sp, Placeholder(n) + rest);
      ReplacedPart(sql[last..sp.start], Placeholder(n) + rest, originals);
      MaskedIsSwapped(sql, spans[1..], sp.stop, n + 1, originals);
    }
  }

  lemma PartHasNoMark(sql: string, from: nat, to: nat)
    requires from <= to <= |sql| && !Contains(sql, MARK)
    ensures !Contains(sql[from..to], MARK)
  {
    if Contains(sql[from..to], MARK) {
      var i :| 0 <= i <= to - from && StandsIn(sql[from..to], MARK, i);
      SliceOfSlice(sql, from, to - from, i, |MARK|);
      assert StandsIn(sql, MARK, from + i);
    }
  }

  lemma {:induction false} SwappedIsSame(sql: string, spans: seq<Span>, last: nat, originals: seq<string>)
    requires InOrder(spans, last, |sql|) && !Contains(sql, MARK)
    ensures Swapped(sql, spans, last, originals) == sql[last..]
    decreases |spans|
  {
    hide Contains, Replaced;
    if spans == [] {
      PartHasNoMark(sql, last, |sql|);
      assert sql[last..|sql|] == sql[last..];
      NothingLike(sql[last..], originals);
    } else if !spans[0].kind.EString? {
      InOrderSkip(spans, last, |sql|);
      SwappedIsSame(sql, spans[1..], last, originals);
    } else {
      var sp := spans[0];
      PartHasNoMark(sql, last, sp.start);
      NothingLike(sql[last..sp.start], originals);
      SwappedIsSame(sql, spans[1..], sp.stop, originals);
      assert sql[last..sp.start] + (sql[sp.start..sp.stop] + sql[sp.stop..]) == sql[last..];
    }
  }

  lemma {:induction false} UptoSize(n: nat, count: nat)
    requires n <= count
    ensures |Upto(n, count)| == count - n
    decreases count - n
  {
    if n < count {
      UptoSize(n + 1, count);
    }
  }

  /** What is put back of a masked text: every number is seen, so only the word can make the result none. */
  lemma RestoredIsSwapped(sql: string)
    ensures var spans := AllSpans(sql);
      && InOrder(spans, 0, |sql|) && EStringsIn(sql, spans)
      && var originals := Originals(sql, spans); var swapped := Swapped(sql, spans, 0, originals);
      && (originals != [] ==>
            && Restored(Masked(sql, spans, 0, 0), originals)
               == (if Contains(swapped, MARK) then None else Some(swapped))
            && swapped == Replaced(Masked(sql, spans, 0, 0), originals)
            && Seen(Masked(sql, spans, 0, 0), |originals|) == Upto(0, |originals|))
  {
    hide Contains, Masked, Spans, Originals, Seen, Replaced, Swapped, EStringsIn;
    assert sql[0..] == sql;
    SpansInOrder(Code(false), 0, sql, 0);
    ScanFindsEStrings(sql, Code(false), 0, sql, 0);
    var spans := AllSpans(sql);
    var originals := Originals(sql, spans);
    assert originals[0..] == originals;
    MaskedIsSwapped(sql, spans, 0, 0, originals);
    SeenIsUpto(Masked(sql, spans, 0, 0), |originals|);
    UptoSize(0, |originals|);
    assert Seen(Masked(sql, spans, 0, 0), |originals|) == Upto(0, |originals|);
  }

  /** Masking and putting back is the identity exactly when the text has no escape string or does not hold the
      placeholders' word. */
  lemma MasksComeBack(sql: string)
    ensures InOrder(AllSpans(sql), 0, |sql|)
    ensures var spans := AllSpans(sql); var originals := Originals(sql, spans);
      Restored(Masked(sql, spans, 0, 0), originals) == Some(sql) <==> originals == [] || !Contains(sql, MARK)
  {
    hide Contains, Masked, AllSpans, Originals, Seen, Replaced, Swapped, EStringsIn;
    RestoredIsSwapped(sql);
    var spans := AllSpans(sql);
    var originals := Originals(sql, spans);
    if originals == [] {
      NothingMasked(sql, spans, 0, 0);
    } else if !Contains(sql, MARK) {
      SwappedIsSame(sql, spans, 0, originals);
    }
    assert sql[0..] == sql;
  }

  lemma {:induction false} SeenIsUpto(s: string, count: nat)
    ensures Seen(s, count) <= Upto(0, count)
    decreases |s|
  {
    if s != "" {
      SeenIsUpto(s[Width(s)..], count);
    }
  }

  lemma ContainsBehind(a: string, b: string, t: string)
    ensures Contains(b, t) ==> Contains(a + b, t)
    ensures Contains(a, t) ==> Contains(a + b, t)
  {
    if Contains(b, t) {
      var i :| 0 <= i <= |b| && StandsIn(b, t, i);
      assert (a + b)[|a| + i..|a| + i + |t|] == b[i..i + |t|];
      assert StandsIn(a + b, t, |a| + i);
    }
    if Contains(a, t) {
      var i :| 0 <= i <= |a| && StandsIn(a, t, i);
      assert (a + b)[i..i + |t|] == a[i..i + |t|];
      assert StandsIn(a + b, t, i);
    }
  }

  lemma {:induction false} SeenIsThere(s: string, originals: seq<string>, n: nat)
    requires n in Seen(s, |originals|)
    ensures n < |originals| && Contains(Replaced(s, originals), originals[n])
    decreases |s|
  {
    hide Contains, Width, LiteralHere;
    if n in Noted(s, |originals|) {
      ContainsItself(originals[n]);
    } else {
      SeenIsThere(s[Width(s)..], originals, n);
    }
    ContainsBehind(Put(s, originals), Replaced(s[Width(s)..], originals), originals[n]);
  }

  lemma ContainsItself(t: string)
    ensures Contains(t, t)
  {
    assert StandsIn(t, t, 0);
  }

  /** Whatever the formatter makes of the masked text, a result holds every literal unchanged and no part of a
      placeholder. */
  lemma RestoredHasEveryLiteral(text: string, originals: seq<string>)
    requires originals != [] && Restored(text, originals).Some?
    ensures forall t <- originals :: Contains(Restored(text, originals).value, t)
    ensures !Contains(Restored(text, originals).value, MARK)
  {
    hide Contains, Seen, Replaced;
    var count := |originals|;
    SeenIsUpto(text, count);
    UptoSize(0, count);
    SameSize(Seen(text, count), Upto(0, count));
    forall n | 0 <= n < count ensures Contains(Replaced(text, originals), originals[n]) {
      SeenIsThere(text, originals, n);
    }
  }

  lemma SameSize(a: set<nat>, b: set<nat>)
    requires a <= b && |a| == |b|
    ensures a == b
  {
    assert b == a + (b - a);
    assert |b| == |a| + |b - a|;
  }

  // ---------------------------------------------------------------------------------------------
  // Another text, or none
  // ---------------------------------------------------------------------------------------------

  /** The word begins in `a` and ends in `b`. */
  predicate Joins(a: string, b: string) { exists k :: 0 < k < |MARK| && JoinsAt(a, b, k) }

  predicate JoinsAt(a: string, b: string, k: nat)
    requires k <= |MARK|
  {
    k <= |a| && a[|a| - k..] == MARK[..k] && MARK[k..] <= b
  }

  lemma ContainsEither(a: string, b: string)
    ensures Contains(a + b, MARK) <==> Contains(a, MARK) || Contains(b, MARK) || Joins(a, b)
  {
    hide MARK;
    ContainsBehind(a, b, MARK);
    if Contains(a + b, MARK) {
      var i :| 0 <= i <= |a + b| && StandsIn(a + b, MARK, i);
      WhereItStands(a, b, MARK, i);
      if i < |a| < i + |MARK| {
        assert JoinsAt(a, b, |a| - i);
      }
    }
    if Joins(a, b) {
      var k :| 0 < k < |MARK| && JoinsAt(a, b, k);
      JoinedStands(a, b, MARK, k);
    }
  }

  lemma WhereItStands(a: string, b: string, t: string, i: nat)
    requires StandsIn(a + b, t, i)
    ensures i + |t| <= |a| ==> StandsIn(a, t, i)
    ensures i >= |a| ==> StandsIn(b, t, i - |a|)
    ensures i < |a| < i + |t| ==> var k := |a| - i; a[i..] == t[..k] && t[k..] <= b
  {
    var s, n := a + b, |t|;
    if i + n <= |a| {
      assert a[i..i + n] == s[i..i + n];
    } else if i >= |a| {
      assert b[i - |a|..i - |a| + n] == s[i..i + n];
    } else {
      ItStandsAcross(a, b, t, i);
    }
  }

  lemma ItStandsAcross(a: string, b: string, t: string, i: nat)
    requires i < |a| < i + |t| <= |a| + |b| && (a + b)[i..i + |t|] == t
    ensures var k := |a| - i; a[i..] == t[..k] && t[k..] <= b
  {
    var k := |a| - i;
    assert (a + b)[i..i + |t|] == a[i..] + b[..|t| - k];
    assert t[..k] == a[i..];
    assert t[k..] == b[..|t| - k];
  }

  lemma JoinedStands(a: string, b: string, t: string, k: nat)
    requires k <= |t| && k <= |a| && a[|a| - k..] == t[..k] && t[k..] <= b
    ensures StandsIn(a + b, t, |a| - k)
  {
    var i := |a| - k;
    assert (a + b)[i..i + |t|] == a[i..] + b[..|t| - k];
    assert b[..|t| - k] == t[k..];
    assert t == t[..k] + t[k..];
  }

  /** A letter of the word from `k` on is no quote, and the last one does not start an escape string. */
  lemma MarkEnds(k: nat, t: string)
    requires k < |MARK| && StartsEString(t)
    ensures !(MARK[k..] <= t)
  {
    assert MARK[k..][0] == MARK[k] && (k + 1 < |MARK| ==> MARK[k..][1] == MARK[k + 1] != '\'');
    assert k + 1 == |MARK| ==> MARK[k] == 'r';
  }

  lemma NoJoin(a: string, b: string)
    requires StartsEString(b) || b == "" || (a != "" && a[|a| - 1] == '\'')
    ensures !Joins(a, b)
  {
    forall k | 0 < k < |MARK| ensures !JoinsAt(a, b, k) {
      assert MARK[k..] != "";
      if StartsEString(b) {
        MarkEnds(k, b);
      } else if b != "" {
        assert k <= |a| ==> a[|a| - k..][k - 1] == '\'';
        assert MARK[..k][k - 1] == MARK[k - 1] != '\'';
      }
    }
  }

  /** Putting back leaves the end of the word, where it stands at the start of a text. */
  lemma {:induction false} MarkAtStart(k: nat, s: string, originals: seq<string>)
    requires k <= |MARK| && forall t <- originals :: StartsEString(t)
    ensures MARK[k..] <= Replaced(s, originals) <==> MARK[k..] <= s
    decreases |MARK| - k
  {
    hide PlaceholderNumber, StartsEString;
    if k < |MARK| && s != "" {
      if PlaceholderEnd(s).Some? {
        MarkHasNoQuote(k, s);
        MarkHasNoQuote(k, s[..Width(s)] + Replaced(s[Width(s)..], originals));
        if LiteralHere(s, |originals|).Some? {
          StartsWithout(k, Put(s, originals), Replaced(s[Width(s)..], originals));
        }
      } else {
        assert s == [s[0]] + s[1..] && s[..1] == [s[0]];
        MarkFirst(k, s[0], s[1..]);
        MarkFirst(k, s[0], Replaced(s[1..], originals));
        MarkAtStart(k + 1, s[1..], originals);
      }
    }
  }

  lemma MarkHasNoQuote(k: nat, s: string)
    requires k < |MARK| && s != "" && s[0] == '\''
    ensures !(MARK[k..] <= s)
  {
    assert MARK[k..][0] == MARK[k] != '\'';
  }

  lemma MarkFirst(k: nat, c: char, t: string)
    requires k < |MARK|
    ensures MARK[k..] <= [c] + t <==> c == MARK[k] && MARK[k + 1..] <= t
  {
    FirstThenRest(MARK[k], MARK[k + 1..], c, t);
    assert MARK[k..] == [MARK[k]] + MARK[k + 1..];
  }

  lemma StartsWithout(k: nat, t: string, more: string)
    requires k < |MARK| && StartsEString(t)
    ensures !(MARK[k..] <= t + more)
  {
    assert (t + more)[0] == t[0] && (t + more)[1] == t[1];
    MarkEnds(k, t + more);
  }

  lemma FirstThenRest(x: char, xs: string, y: char, ys: string)
    ensures [x] + xs <= [y] + ys <==> x == y && xs <= ys
  {
    var p, s := [x] + xs, [y] + ys;
    if p <= s {
      assert s[..|p|] == p && p[0] == s[0] && s[..|p|][1..] == ys[..|xs|] && p[1..] == xs;
    }
    if x == y && xs <= ys {
      assert s[..|p|] == [y] + ys[..|xs|] && ys[..|xs|] == xs;
    }
  }

  lemma JoinsWhatIsThere(a: string, s: string, originals: seq<string>)
    requires forall t <- originals :: StartsEString(t)
    ensures Joins(a, Replaced(s, originals)) <==> Joins(a, s)
  {
    hide Replaced;
    forall k: nat | k < |MARK| ensures MARK[k..] <= Replaced(s, originals) <==> MARK[k..] <= s {
      MarkAtStart(k, s, originals);
    }
    if Joins(a, Replaced(s, originals)) {
      var k :| 0 < k < |MARK| && JoinsAt(a, Replaced(s, originals), k);
      assert JoinsAt(a, s, k);
    }
    if Joins(a, s) {
      var k :| 0 < k < |MARK| && JoinsAt(a, s, k);
      assert JoinsAt(a, Replaced(s, originals), k);
    }
  }

  /** The word stands in a part of the text outside the lookalikes that have a literal, or such a literal put in
      for one makes it together with what follows. */
  predicate WordLeft(s: string, originals: seq<string>)
    decreases |s|
  {
    s != "" &&
    match LiteralHere(s, |originals|)
    case None => MARK <= s || WordLeft(s[1..], originals)
    case Some(n) => Joins(originals[n], s[Width(s)..]) || WordLeft(s[Width(s)..], originals)
  }

  predicate WordLeftBetween(sql: string, spans: seq<Span>, last: nat, originals: seq<string>)
    requires InOrder(spans, last, |sql|)
    decreases |spans|
  {
    if spans == [] then WordLeft(sql[last..], originals)
    else if !spans[0].kind.EString? then
      (InOrderSkip(spans, last, |sql|); WordLeftBetween(sql, spans[1..], last, originals))
    else
      WordLeft(sql[last..spans[0].start], originals) || WordLeftBetween(sql, spans[1..], spans[0].stop, originals)
  }

  ghost predicate Harmless(originals: seq<string>) {
    forall t <- originals :: StartsEString(t) && !Contains(t, MARK)
  }

  lemma ContainsFirst(c: char, s: string)
    ensures Contains([c] + s, MARK) <==> MARK <= [c] + s || Contains(s, MARK)
  {
    var cs := [c] + s;
    if Contains(cs, MARK) && !(MARK <= cs) {
      var i :| 0 <= i <= |cs| && StandsIn(cs, MARK, i);
      assert s[i - 1..i - 1 + |MARK|] == cs[i..i + |MARK|];
      assert StandsIn(s, MARK, i - 1);
    }
    ContainsBehind([c], s, MARK);
    if MARK <= cs {
      assert StandsIn(cs, MARK, 0);
    }
  }

  lemma {:induction false} WordLeftIff(s: string, originals: seq<string>)
    requires Harmless(originals)
    ensures Contains(Replaced(s, originals), MARK) <==> WordLeft(s, originals)
    decreases |s|
  {
    hide PlaceholderEnd, PlaceholderNumber, Contains, Joins, StartsEString;
    if s == "" {
      NoMarkShort("");
    } else if LiteralHere(s, |originals|).Some? {
      var put, more := Put(s, originals), s[Width(s)..];
      assert put in originals;
      ContainsEither(put, Replaced(more, originals));
      JoinsWhatIsThere(put, more, originals);
      WordLeftIff(more, originals);
    } else if PlaceholderEnd(s).Some? {
      LookalikeHasWord(s, originals);
      ContainsEither(s[..Width(s)], Replaced(s[Width(s)..], originals));
    } else {
      MarkAtStart(0, s, originals);
      assert MARK[0..] == MARK && s[..1] == [s[0]];
      ContainsFirst(s[0], Replaced(s[1..], originals));
      WordLeftIff(s[1..], originals);
    }
  }

  lemma LookalikeHasWord(s: string, originals: seq<string>)
    requires PlaceholderEnd(s).Some?
    ensures Contains(s[..PlaceholderEnd(s).value], MARK) && WordLeft(s[1..], originals)
  {
    var t := s[..PlaceholderEnd(s).value];
    assert t[1..1 + |MARK|] == s[..|MARK| + 1][1..] == MARK;
    MarkBehindQuote(t);
    assert s[1..][0] == MARK[0];
  }

  lemma EStringText(sql: string, sp: Span)
    requires IsEString(sql, sp)
    ensures var t := sql[sp.start..sp.stop]; StartsEString(t) && (sp.stop < |sql| ==> t[|t| - 1] == '\'')
  {
  }

  lemma {:induction false} WordLeftBetweenIff(sql: string, spans: seq<Span>, last: nat, originals: seq<string>)
    requires InOrder(spans, last, |sql|) && EStringsIn(sql, spans) && Harmless(originals)
    requires forall t <- Originals(sql, spans) :: t in originals
    ensures Contains(Swapped(sql, spans, last, originals), MARK) <==> WordLeftBetween(sql, spans, last, originals)
    decreases |spans|
  {
    hide Replaced, Contains, Joins, StartsEString, WordLeft, IsEString;
    assert spans != [] ==> forall sp <- spans[1..] :: sp in spans;
    if spans == [] {
      WordLeftIff(sql[last..], originals);
    } else if !spans[0].kind.EString? {
      InOrderSkip(spans, last, |sql|);
      WordLeftBetweenIff(sql, spans[1..], last, originals);
    } else {
      var sp := spans[0];
      var part, t := sql[last..sp.start], sql[sp.start..sp.stop];
      var more := Swapped(sql, spans[1..], sp.stop, originals);
      assert sp in spans;
      EStringText(sql, sp);
      assert Originals(sql, spans)[0] == t && Originals(sql, spans)[1..] == Originals(sql, spans[1..]);
      assert t in originals;
      if sp.stop == |sql| {
        NothingSwapped(sql, spans[1..], originals);
      }
      WordLeftIff(part, originals);
      WordLeftBetweenIff(sql, spans[1..], sp.stop, originals);
      NoJoins(Replaced(part, originals), t, more);
    }
  }

  lemma NoJoins(a: string, t: string, more: string)
    requires StartsEString(t) && (more != "" ==> t[|t| - 1] == '\'')
    ensures Contains(a + (t + more), MARK) <==> Contains(a, MARK) || Contains(t, MARK) || Contains(more, MARK)
  {
    hide Contains, Joins, StartsEString;
    StartsBefore(t, more);
    NoJoin(t, more);
    NoJoin(a, t + more);
    ContainsEither(t, more);
    ContainsEither(a, t + more);
  }

  lemma StartsBefore(t: string, more: string)
    requires StartsEString(t)
    ensures StartsEString(t + more) && t != ""
  {
  }

  lemma {:induction false} NothingSwapped(sql: string, spans: seq<Span>, originals: seq<string>)
    requires InOrder(spans, |sql|, |sql|) && EStringsIn(sql, spans)
    ensures Swapped(sql, spans, |sql|, originals) == ""
    decreases |spans|
  {
    if spans != [] {
      assert spans[0] in spans && forall sp <- spans[1..] :: sp in spans;
      InOrderSkip(spans, |sql|, |sql|);
      NothingSwapped(sql, spans[1..], originals);
    }
  }

  lemma {:induction false} OriginalsStart(sql: string, spans: seq<Span>)
    requires EStringsIn(sql, spans)
    ensures forall t <- Originals(sql, spans) :: StartsEString(t)
  {
    if spans != [] {
      assert spans[0] in spans && forall sp <- spans[1..] :: sp in spans;
      OriginalsStart(sql, spans[1..]);
    }
  }

  lemma SliceOfSlice(s: string, i: nat, n: nat, j: nat, m: nat)
    requires i + n <= |s| && j + m <= n
    ensures s[i..i + n][j..j + m] == s[i + j..i + j + m]
  {
    var u, v := s[i..i + n][j..j + m], s[i + j..i + j + m];
    forall x | 0 <= x < m ensures u[x] == v[x] {
      assert s[i..i + n][j + x] == s[i + j + x];
    }
  }

  lemma ContainsIn(s: string, t: string, u: string)
    requires Contains(s, t) && Contains(t, u)
    ensures Contains(s, u)
  {
    var i :| 0 <= i <= |s| && StandsIn(s, t, i);
    var j :| 0 <= j <= |t| && StandsIn(t, u, j);
    SliceOfSlice(s, i, |t|, j, |u|);
    assert StandsIn(s, u, i + j);
  }

  /** What comes of masking a text with escape strings and putting them back: nothing if the word is in one of
      them, or is left between them once the lookalikes are replaced; the text itself if it does not hold the
      word; and in every other case a wrong text, the one with the lookalikes replaced. */
  lemma WrongTextIff(sql: string)
    ensures InOrder(AllSpans(sql), 0, |sql|)
    ensures var spans := AllSpans(sql); var originals := Originals(sql, spans);
      var r := Restored(Masked(sql, spans, 0, 0), originals);
      var stays := (exists t <- originals :: Contains(t, MARK)) || WordLeftBetween(sql, spans, 0, originals);
      originals != [] ==>
        && (r == None <==> stays)
        && (r == Some(sql) <==> !Contains(sql, MARK))
        && (r.Some? && r != Some(sql) <==> Contains(sql, MARK) && !stays)
        && (r.Some? ==> r == Some(Swapped(sql, spans, 0, originals)))
  {
    hide Contains, Masked, AllSpans, Originals, Seen, Replaced, Swapped, EStringsIn, WordLeftBetween, StartsEString;
    RestoredIsSwapped(sql);
    MasksComeBack(sql);
    var spans := AllSpans(sql);
    var originals := Originals(sql, spans);
    OriginalsStart(sql, spans);
    if t :| t in originals && Contains(t, MARK) {
      var n :| 0 <= n < |originals| && originals[n] == t;
      SeenIsThere(Masked(sql, spans, 0, 0), originals, n);
      ContainsIn(Swapped(sql, spans, 0, originals), t, MARK);
    } else {
      WordLeftBetweenIff(sql, spans, 0, originals);
    }
  }

  lemma {:induction false} PlainToQuote(start: nat, u: string, pos: nat)
    requires '\'' !in u
    ensures Spans(InPlain, start, u + "'", pos) == [Span(start, pos + |u| + 1, Plain)]
    decreases |u|
  {
    hide Spans;
    var s := u + "'";
    SpansMove(InPlain, start, s, pos);
    if u == "" {
      SpansAtEnd(Code(false), pos, pos + 1);
      assert s[1..] == "";
    } else {
      assert s[0] == u[0] && s[0] in u && s[1..] == u[1..] + "'";
      assert forall c <- u[1..] :: c in u;
      PlainToQuote(start, u[1..], pos + 1);
    }
  }

  /** The move that opens an escape string or a plain one, or passes a space. */
  lemma CodeMoves(start: nat, rest: string, pos: nat)
    ensures Spans(Code(false), start, "E'" + rest, pos) == Spans(InEString, pos, rest, pos + 2)
    ensures Spans(Code(false), start, "'" + rest, pos) == Spans(InPlain, pos, rest, pos + 1)
    ensures Spans(Code(false), start, " " + rest, pos) == Spans(Code(false), pos, rest, pos + 1)
  {
    hide Spans;
    assert ("E'" + rest)[0] == 'E' && ("E'" + rest)[1] == '\'' && ("E'" + rest)[2..] == rest;
    assert ("'" + rest)[1..] == rest && (" " + rest)[1..] == rest;
    SpansMove(Code(false), start, "E'" + rest, pos);
    SpansMove(Code(false), start, "'" + rest, pos);
    SpansMove(Code(false), start, " " + rest, pos);
  }

  lemma EStringMoves(start: nat, rest: string, pos: nat)
    ensures Spans(InEString, start, "a" + rest, pos) == Spans(InEString, start, rest, pos + 1)
    ensures (rest == "" || rest[0] != '\'') ==>
              Spans(InEString, start, "'" + rest, pos)
              == [Span(start, pos + 1, EString)] + Spans(Code(false), pos, rest, pos + 1)
  {
    hide Spans;
    assert ("a" + rest)[1..] == rest && ("'" + rest)[1..] == rest;
    SpansMove(InEString, start, "a" + rest, pos);
    SpansMove(InEString, start, "'" + rest, pos);
  }

  const LOOKALIKE := "E'a' 'execsqlestr0'"

  lemma ScanOfLookalike()
    ensures AllSpans(LOOKALIKE) == [Span(0, 4, EString), Span(5, 19, Plain)]
  {
    hide Spans;
    var u := "execsqlestr0" + "'";
    assert LOOKALIKE == "E'" + ("a" + ("'" + (" " + ("'" + u))));
    CodeMoves(0, "a" + ("'" + (" " + ("'" + u))), 0);
    EStringMoves(0, "'" + (" " + ("'" + u)), 2);
    EStringMoves(0, " " + ("'" + u), 3);
    CodeMoves(3, "'" + u, 4);
    CodeMoves(4, u, 5);
    PlainToQuote(5, "execsqlestr0", 6);
  }

  lemma MaskOfLookalike()
    ensures var spans := AllSpans(LOOKALIKE);
      && InOrder(spans, 0, |LOOKALIKE|) && Originals(LOOKALIKE, spans) == ["E'a'"]
      && Masked(LOOKALIKE, spans, 0, 0) == Placeholder(0) + (" " + Placeholder(0))
  {
    hide Spans, Placeholder;
    ScanOfLookalike();
    SpansInOrder(Code(false), 0, LOOKALIKE, 0);
    var spans, later := AllSpans(LOOKALIKE), [Span(5, 19, Plain)];
    assert spans[1..] == later && later[1..] == [];
    assert Originals(LOOKALIKE, later) == [];
    assert LOOKALIKE[0..4] == "E'a'" && LOOKALIKE[4..] == " " + "'execsqlestr0'";
    assert Masked(LOOKALIKE, later, 4, 1) == LOOKALIKE[4..];
    PlaceholderZero();
  }

  /** One escape string and an ordinary literal that looks like its placeholder: the literal is replaced too. */
  lemma LookalikeIsReplaced()
    ensures LOOKALIKE == "E'a' 'execsqlestr0'" && InOrder(AllSpans(LOOKALIKE), 0, |LOOKALIKE|)
    ensures var spans := AllSpans(LOOKALIKE);
      && Masked(LOOKALIKE, spans, 0, 0) == "'execsqlestr0' 'execsqlestr0'"
      && Restored(Masked(LOOKALIKE, spans, 0, 0), Originals(LOOKALIKE, spans)) == Some("E'a' E'a'")
  {
    hide Contains, Replaced, Seen, AllSpans, Originals, Masked, Placeholder;
    MaskOfLookalike();
    PlaceholderZero();
    assert "'execsqlestr0'" + (" " + "'execsqlestr0'") == "'execsqlestr0' 'execsqlestr0'";
    RestoredLookalike();
    assert "E'a'" + (" " + ("E'a'" + "")) == "E'a' E'a'";
  }

  lemma PlaceholderZero()
    ensures Placeholder(0) == "'execsqlestr0'"
  {
  }

  lemma RestoredLookalike()
    ensures Restored(Placeholder(0) + (" " + Placeholder(0)), ["E'a'"]) == Some("E'a'" + (" " + ("E'a'" + "")))
  {
    hide Contains, Replaced, Seen, Placeholder;
    var p, originals := Placeholder(0), ["E'a'"];
    assert p + "" == p;
    PlaceholderFirst(0, "", originals);
    NothingReplaced(originals);
    NoMarkShort(" ");
    NothingLike(" ", originals);
    ReplacedPart(" ", p, originals);
    PlaceholderFirst(0, " " + p, originals);
    NoMarkShort("E'a'" + (" " + ("E'a'" + "")));
    SeenIsUpto(p + (" " + p), 1);
    UptoSize(0, 1);
    assert Seen(p + (" " + p), 1) == Upto(0, 1);
  }

  lemma NothingReplaced(originals: seq<string>)
    ensures Replaced("", originals) == "" && Seen("", |originals|) == {}
  {
  }

  lemma NoMarkShort(s: string)
    requires |s| < |MARK|
    ensures !Contains(s, MARK)
  {
  }
}
