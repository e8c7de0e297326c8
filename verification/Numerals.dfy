/** Whole numbers as text. */
module Numerals {
  import Powers

  predicate IsDigit(c: char) { '0' <= c <= '9' }

  /** Past the digits. */
  function Digits(s: string, p: nat): (q: nat)
    requires p <= |s|
    ensures p <= q <= |s| && (q < |s| ==> !IsDigit(s[q])) && forall i :: p <= i < q ==> IsDigit(s[i])
    decreases |s| - p
  {
    if p < |s| && IsDigit(s[p]) then Digits(s, p + 1) else p
  }

  function Value(digits: string): nat {
    if digits == [] then 0
    else 10 * Value(digits[..|digits| - 1])
         + (if IsDigit(digits[|digits| - 1]) then digits[|digits| - 1] as int - '0' as int else 0)
  }

  function ShowDigits(n: nat): (s: string)
    ensures s != [] && (forall c <- s :: IsDigit(c)) && Value(s) == n
  {
    if n < 10 then ['0' + n as char]
    else
      var s := ShowDigits(n / 10) + ['0' + (n % 10) as char];
      assert s[..|s| - 1] == ShowDigits(n / 10);
      s
  }

  lemma {:induction false} AllDigits(s: string, p: nat)
    requires p <= |s| && forall i :: p <= i < |s| ==> IsDigit(s[i])
    ensures Digits(s, p) == |s|
    decreases |s| - p
  {
    if p < |s| {
      AllDigits(s, p + 1);
    }
  }

  predicate AreDigits(s: string) { forall i :: 0 <= i < |s| ==> '0' <= s[i] <= '9' }

  /** What digits stand for: each its own number, and ten times as much for each place further left. */
  lemma {:induction false} ValueOfDigits(w: string, f: string)
    ensures Value(w + f) == Value(w) * Powers.Pow(10, |f|) + Value(f)
    ensures |f| == 1 && AreDigits(f) ==> Value(f) == f[0] as int - '0' as int
    decreases |f|
  {
    if f == "" {
      assert w + f == w;
    } else {
      var n := |f| - 1;
      assert (w + f)[..|w + f| - 1] == w + f[..n];
      ValueOfDigits(w, f[..n]);
      TenTimes(Value(w), Powers.Pow(10, n));
      if n == 0 {
        assert f[..0] == "";
      }
    }
  }

  lemma TenTimes(v: int, p: int)
    ensures 10 * (v * p) == v * (10 * p)
  {
  }

  /** `k` digits for a number below the k-th power of ten. */
  function ShowPlaces(n: nat, k: nat): (s: string)
    requires n < Powers.Pow(10, k)
    ensures |s| == k && AreDigits(s) && Value(s) == n
  {
    if k == 0 then ""
    else
      var s := ShowPlaces(n / 10, k - 1) + ['0' + (n % 10) as char];
      assert s[..|s| - 1] == ShowPlaces(n / 10, k - 1);
      s
  }
}
