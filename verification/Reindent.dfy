/** `format_sql_block` without SQL formatting: a block of SQL lines is moved to the depth of the
    metacommand around it.  Only leading whitespace may change, and none of it inside a literal, so
    the strings the database receives stay what they were (`ReindentKeepsLiterals`), and a block that
    was formatted once stays as it is (`ReindentIsIdempotent`). */
module Reindent {
  import opened SqlSpans
  import opened Layout

  function Spaces(n: int): (r: string)
    ensures |r| == (if n < 0 then 0 else n) && forall i :: 0 <= i < |r| ==> r[i] == ' '
  {
    seq(if n < 0 then 0 else n, i => ' ')
  }

  predicate IsLayout(lines: seq<string>, interior: set<nat>, i: nat)
    requires i < |lines|
  {
    !IsBlank(lines[i]) && i !in interior
  }

  /** The least indentation of the layout lines from `i` on; -1 when there is none. */
  function LeastIndent(lines: seq<string>, interior: set<nat>, i: nat): (r: int)
    requires i <= |lines|
    ensures r == -1 || exists k: nat :: i <= k < |lines| && IsLayout(lines, interior, k) && r == Indent(lines[k])
    ensures forall k: nat :: i <= k < |lines| && IsLayout(lines, interior, k) ==> 0 <= r <= Indent(lines[k])
    decreases |lines| - i
  {
    if i == |lines| then -1
    else
      var r := LeastIndent(lines, interior, i + 1);
      if IsLayout(lines, interior, i) && (r < 0 || Indent(lines[i]) < r) then Indent(lines[i]) else r
  }

  function Base(lines: seq<string>): nat {
    var r := LeastIndent(lines, InteriorLines(lines), 0);
    if r < 0 then 0 else r
  }

  /** The line that replaces line `i`. */
  function Moved(lines: seq<string>, prefix: string, i: nat): string
    requires i < |lines|
  {
    if i in InteriorLines(lines) then lines[i]
    else if IsBlank(lines[i]) then ""
    else
      assert IsLayout(lines, InteriorLines(lines), i);
      prefix + lines[i][Base(lines)..]
  }

  /** The block with every line moved: the meaning of `format_sql_block`. */
  function Reindented(lines: seq<string>, prefix: string): seq<string> {
    seq(|lines|, i requires 0 <= i < |lines| => Moved(lines, prefix, i))
  }

  method BaseIndent(lines: seq<string>, interior: set<nat>) returns (base: nat)
    requires interior == InteriorLines(lines)
    ensures base == Base(lines)
  {
    hide InteriorLines, Indent;
    var least: int := -1;
    for i := |lines| downto 0
      invariant least == LeastIndent(lines, interior, i)
    {
      if !IsBlank(lines[i]) && i !in interior && (least < 0 || Indent(lines[i]) < least) {
        least := Indent(lines[i]);
      }
    }
    base := if least < 0 then 0 else least;
  }

  lemma BaseFits(lines: seq<string>, i: nat)
    requires i < |lines| && IsLayout(lines, InteriorLines(lines), i)
    ensures Base(lines) <= Indent(lines[i])
    ensures IsBlank(lines[i][Base(lines)..]) == IsBlank(lines[i])
  {
    IndentAfter(lines[i], Base(lines));
  }

  /** `format_sql_block` with `use_sql` off. */
  method FormatSqlBlock(lines: seq<string>, depth: int, indent: int) returns (rebased: seq<string>)
    ensures rebased == Reindented(lines, Spaces(depth * indent))
  {
    hide InteriorLines, Base, Indent, IsBlank, Spaces;
    if |lines| == 0 {
      return lines;
    }
    var allBlank := true;
    for i := 0 to |lines|
      invariant allBlank <==> forall k :: 0 <= k < i ==> IsBlank(lines[k])
    {
      allBlank := allBlank && IsBlank(lines[i]);
    }
    if allBlank {
      BlankLinesHoldNoLiteral(lines);
      return seq(|lines|, i => "");
    }
    var interior := LiteralInteriorLines(lines);
    var base := BaseIndent(lines, interior);
    var prefix := Spaces(depth * indent);
    forall k: nat | k < |lines| && IsLayout(lines, interior, k) ensures base <= |lines[k]| {
      BaseFits(lines, k);
    }
    rebased := [];
    for i := 0 to |lines|
      invariant |rebased| == i
      invariant forall k :: 0 <= k < i ==>
                  rebased[k] == if k in interior then lines[k] else if IsBlank(lines[k]) then "" else lines[k][base..]
    {
      var line := lines[i];
      if i in interior {
        rebased := rebased + [line];
      } else if !IsBlank(line) {
        rebased := rebased + [line[base..]];
      } else {
        rebased := rebased + [""];
      }
    }
    ghost var shifted := rebased;
    for i := 0 to |rebased|
      invariant |rebased| == |shifted|
      invariant forall k :: i <= k < |rebased| ==> rebased[k] == shifted[k]
      invariant forall k :: 0 <= k < i ==> rebased[k] == Moved(lines, prefix, k)
    {
      if i !in interior {
        if !IsBlank(lines[i]) {
          BaseFits(lines, i);
        } else {
          EmptyIsBlank();
        }
        if !IsBlank(rebased[i]) {
          rebased := rebased[i := prefix + rebased[i]];
        }
      }
    }
  }

  // ---------------------------------------------------------------------------------------------
  // The block
  // ---------------------------------------------------------------------------------------------

  lemma LineStartModes(lines: seq<string>, i: nat)
    requires i < |lines|
    ensures LineStartMode(ModeAt(Code(false), lines, i)) <==> !IsLiteralMode(ModeAt(Code(false), lines, i))
  {
    ModeAtLineStart(lines, i);
  }

  /** Inside a literal, only a last empty line is not an interior line, and it stays empty. */
  lemma MovedInLiteral(lines: seq<string>, prefix: string, i: nat)
    requires i < |lines| && IsLiteralMode(ModeAt(Code(false), lines, i))
    ensures Moved(lines, prefix, i) == lines[i]
  {
    InteriorByMode(lines, i);
    if i !in InteriorLines(lines) {
      assert lines[i..][0] == lines[i];
      assert lines[i] == "";
    }
  }

  lemma MovedIsLayout(lines: seq<string>, prefix: string, i: nat)
    requires i < |lines| && AllSpace(prefix) && i !in InteriorLines(lines)
    ensures SameBut(lines[i], Moved(lines, prefix, i), true, false)
    ensures IsBlank(Moved(lines, prefix, i)) == IsBlank(lines[i])
    ensures IsBlank(lines[i]) ==> Moved(lines, prefix, i) == ""
    ensures !IsBlank(lines[i]) ==>
              && Base(lines) <= Indent(lines[i])
              && Moved(lines, prefix, i) == prefix + lines[i][Base(lines)..]
              && Indent(Moved(lines, prefix, i)) == |prefix| + Indent(lines[i]) - Base(lines)
  {
    hide InteriorLines, Indent, IsSpace, SameBut;
    if IsBlank(lines[i]) {
      BlankIsLayout(lines[i]);
    } else {
      assert IsLayout(lines, InteriorLines(lines), i);
      ShiftedIsLayout(lines[i], Base(lines), prefix);
    }
  }

  lemma BlankIsLayout(a: string)
    requires IsBlank(a)
    ensures SameBut(a, "", true, false) && IsBlank("")
  {
    hide Indent, IsSpace;
    EmptyIsBlank();
    assert a[..|a|] == a;
    assert Cut(a, a, "", "") && Cut("", "", "", "");
  }

  lemma ShiftedIsLayout(a: string, base: nat, prefix: string)
    requires !IsBlank(a) && base <= Indent(a) && AllSpace(prefix)
    ensures var b := prefix + a[base..];
      SameBut(a, b, true, false) && !IsBlank(b) && Indent(b) == |prefix| + Indent(a) - base
  {
    hide Indent, IsSpace;
    IndentOf(prefix, a[base..]);
    IndentAfter(a, base);
    var b := prefix + a[base..];
    assert forall k :: 0 <= k < base ==> a[k] == a[..Indent(a)][k];
    assert Cut(a, a[..base], a[base..], "") && Cut(b, prefix, a[base..], "");
  }

  lemma SameButWeaker(a: string, b: string, atEnd: bool)
    requires SameBut(a, b, true, false)
    ensures SameBut(a, b, true, atEnd)
  {
    var f, g, core, h, k :| Cut(a, f, core, h) && Cut(b, g, core, k) && h == k == "";
  }

  lemma ReindentSameLayout(lines: seq<string>, prefix: string)
    requires AllSpace(prefix)
    ensures SameLayout(Code(false), lines, Reindented(lines, prefix), true)
  {
    hide Moved, EndMode, SameBut;
    var out := Reindented(lines, prefix);
    forall i: nat | i < |lines|
      ensures SameLayoutAt(Code(false), lines, out, true, i)
    {
      var atStart, atEnd := LineStartMode(ModeAt(Code(false), lines, i)), EndFree(Code(false), lines, i, true);
      LineStartModes(lines, i);
      if IsLiteralMode(ModeAt(Code(false), lines, i)) {
        MovedInLiteral(lines, prefix, i);
        SameLine(lines[i], out[i], atStart, atEnd);
      } else {
        InteriorByMode(lines, i);
        MovedIsLayout(lines, prefix, i);
        SameButWeaker(lines[i], out[i], atEnd);
      }
    }
  }

  lemma SpacesAreSpace(n: int)
    ensures AllSpace(Spaces(n))
  {}

  /** Whatever the block, no string literal in it is changed by re-indenting, terminated or not, for every
      list of lines, depth and indent. */
  lemma ReindentKeepsLiterals(lines: seq<string>, depth: int, indent: int)
    ensures LiteralTexts(Join(Reindented(lines, Spaces(depth * indent)))) == LiteralTexts(Join(lines))
  {
    hide Kept, Texts, Reindented, SameLayout;
    var out := Reindented(lines, Spaces(depth * indent));
    SpacesAreSpace(depth * indent);
    ReindentSameLayout(lines, Spaces(depth * indent));
    SameLayoutSameScan(Code(false), lines, out, true);
    LiteralTextsAreKept(Join(lines));
    LiteralTextsAreKept(Join(out));
  }

  lemma JoinEmpty(lines: seq<string>)
    requires lines != []
    ensures Join(lines) == "" <==> lines == [""]
  {}

  lemma SameInterior(lines: seq<string>, prefix: string)
    requires AllSpace(prefix)
    ensures InteriorLines(Reindented(lines, prefix)) == InteriorLines(lines)
  {
    hide Kept, EndMode, BeginsInside, SameLayout;
    var out := Reindented(lines, prefix);
    ReindentSameLayout(lines, prefix);
    SameLayoutSameScan(Code(false), lines, out, true);
    forall i: nat | i < |lines| ensures i in InteriorLines(out) <==> i in InteriorLines(lines) {
      InteriorByMode(lines, i);
      InteriorByMode(out, i);
      if IsLiteralMode(ModeAt(Code(false), lines, i)) {
        MovedInLiteral(lines, prefix, i);
        assert lines[i..][0] == out[i..][0];
        JoinEmpty(lines[i..]);
        JoinEmpty(out[i..]);
      }
    }
  }

  /** The base indentation of a block that was moved is the length of its prefix. */
  lemma BaseOfReindented(lines: seq<string>, prefix: string, i: nat)
    requires AllSpace(prefix) && i < |lines| && IsLayout(lines, InteriorLines(lines), i)
    ensures Base(Reindented(lines, prefix)) == |prefix|
  {
    hide InteriorLines, Moved;
    var out, interior := Reindented(lines, prefix), InteriorLines(lines);
    SameInterior(lines, prefix);
    forall k: nat | k < |lines| && k !in interior
      ensures IsLayout(out, interior, k) == IsLayout(lines, interior, k)
      ensures IsLayout(lines, interior, k) ==> Indent(out[k]) == |prefix| + Indent(lines[k]) - Base(lines)
    {
      MovedIsLayout(lines, prefix, k);
    }
    assert IsLayout(out, interior, i);
    var least := LeastIndent(lines, interior, 0);
    var k: nat :| k < |lines| && IsLayout(lines, interior, k) && least == Indent(lines[k]);
    assert IsLayout(out, interior, k) && Indent(out[k]) == |prefix|;
    var r := LeastIndent(out, interior, 0);
    var j: nat :| j < |out| && IsLayout(out, interior, j) && r == Indent(out[j]);
    assert IsLayout(lines, interior, j);
  }

  /** Formatting a block a second time changes nothing. */
  lemma ReindentIsIdempotent(lines: seq<string>, depth: int, indent: int)
    ensures var prefix := Spaces(depth * indent);
            Reindented(Reindented(lines, prefix), prefix) == Reindented(lines, prefix)
  {
    hide InteriorLines, Moved, Base;
    var prefix := Spaces(depth * indent);
    SpacesAreSpace(depth * indent);
    var out := Reindented(lines, prefix);
    SameInterior(lines, prefix);
    forall i: nat | i < |lines| ensures Moved(out, prefix, i) == out[i] {
      MovedTwice(lines, prefix, i);
    }
    assert forall i :: 0 <= i < |out| ==> Reindented(out, prefix)[i] == out[i];
  }

  lemma MovedTwice(lines: seq<string>, prefix: string, i: nat)
    requires AllSpace(prefix) && i < |lines|
    ensures var out := Reindented(lines, prefix); Moved(out, prefix, i) == out[i]
  {
    hide InteriorLines, Base;
    var out := Reindented(lines, prefix);
    SameInterior(lines, prefix);
    if i !in InteriorLines(lines) {
      MovedIsLayout(lines, prefix, i);
      if !IsBlank(lines[i]) {
        BaseOfReindented(lines, prefix, i);
        assert out[i][|prefix|..] == lines[i][Base(lines)..];
      }
    }
  }

  lemma EmptyIsBlank()
    ensures IsBlank("")
  {}

  lemma BlankLinesHoldNoLiteral(lines: seq<string>)
    requires forall k :: 0 <= k < |lines| ==> IsBlank(lines[k])
    ensures forall prefix, i: nat :: i < |lines| ==> Moved(lines, prefix, i) == ""
  {
    hide InteriorLines;
    forall prefix, i: nat | i < |lines| ensures Moved(lines, prefix, i) == "" {
      if i in InteriorLines(lines) {
        BlankModes(Code(false), lines, i);
        InteriorByMode(lines, i);
      }
    }
  }

  lemma {:induction false} BlankModes(m: Mode, lines: seq<string>, i: nat)
    requires i <= |lines| && LineStartMode(m)
    requires forall k :: 0 <= k < |lines| ==> IsBlank(lines[k])
    ensures ModeAt(m, lines, i) == m
    decreases i
  {
    if i > 0 {
      SkipFiller(m, lines[0] + "\n", "");
      assert lines[0] + "\n" + "" == lines[0] + "\n";
      BlankModes(m, lines[1..], i - 1);
    }
  }
}
