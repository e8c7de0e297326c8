/** Small functions that several modules share. */
module Common {
  function Max(a: int, b: int): int { if a < b then b else a }

  function Concat<T>(parts: seq<seq<T>>): seq<T> {
    if parts == [] then [] else Concat(parts[..|parts| - 1]) + parts[|parts| - 1]
  }

  /** A text trimmed first and put on one line then, each if it is asked for. */
  function CleanText(text: string, trim: bool, strip: string -> string, oneLine: bool, onOneLine: string -> string)
    : (t: string)
    ensures !trim && !oneLine ==> t == text
    ensures trim && !oneLine ==> t == strip(text)
    ensures !trim && oneLine ==> t == onOneLine(text)
    ensures trim && oneLine ==> t == onOneLine(strip(text))
  {
    var trimmed := if trim then strip(text) else text;
    if oneLine then onOneLine(trimmed) else trimmed
  }

  /** Where the flags are set, in ascending order. */
  function Where(flags: seq<bool>): (at: seq<nat>)
    ensures |at| <= |flags|
    ensures forall k :: 0 <= k < |at| ==> at[k] < |flags| && flags[at[k]]
    ensures forall i :: 0 <= i < |flags| && flags[i] ==> i in at
    ensures forall j, k :: 0 <= j < k < |at| ==> at[j] < at[k]
  {
    if flags == [] then []
    else
      var n := |flags| - 1;
      Where(flags[..n]) + if flags[n] then [n] else []
  }
}
