/** Powers of a whole base, as integers and as real numbers. */
module Powers {
  function Pow(b: nat, k: nat): (p: nat)
    ensures b > 0 ==> p > 0
  {
    if k == 0 then 1 else b * Pow(b, k - 1)
  }

  /** b to any power, negative ones included. */
  function RealPow(b: nat, k: int): (p: real)
    requires b > 0
    ensures p > 0.0
    decreases if k < 0 then -k else k
  {
    if k == 0 then 1.0
    else if k > 0 then Times(b as real, RealPow(b, k - 1))
    else Times(1.0 / b as real, RealPow(b, k + 1))
  }

  function Times(x: real, y: real): (z: real)
    ensures z == x * y
    ensures x > 0.0 && y > 0.0 ==> z > 0.0
  {
    x * y
  }

  lemma Up(b: nat, k: int)
    requires b > 0
    ensures RealPow(b, k + 1) == b as real * RealPow(b, k)
  {
    if k < 0 {
      Cancel(b as real, RealPow(b, k + 1));
    }
  }

  lemma Zero(b: nat)
    requires b > 0
    ensures RealPow(b, 0) == 1.0
  {
  }

  lemma Cancel(x: real, y: real)
    requires x > 0.0
    ensures x * (1.0 / x * y) == y
  {
    Assoc(x, 1.0 / x, y);
  }

  lemma Assoc(x: real, y: real, z: real)
    ensures x * (y * z) == x * y * z
  {
  }

  lemma {:induction false} Add(b: nat, j: int, k: int)
    requires b > 0
    ensures RealPow(b, j + k) == RealPow(b, j) * RealPow(b, k)
    decreases if k < 0 then -k else k
  {
    hide RealPow, Times;
    Zero(b);
    if k > 0 {
      Add(b, j, k - 1);
      Up(b, j + k - 1);
      Up(b, k - 1);
      Swap(RealPow(b, j), b as real, RealPow(b, k - 1));
    } else if k < 0 {
      Add(b, j, k + 1);
      Up(b, j + k);
      Up(b, k);
      Swap(RealPow(b, j), b as real, RealPow(b, k));
      Same(b as real, RealPow(b, j + k), RealPow(b, j) * RealPow(b, k));
    }
  }

  lemma Swap(x: real, y: real, z: real)
    ensures x * (y * z) == y * (x * z)
  {
  }

  lemma Same(x: real, y: real, z: real)
    requires x > 0.0 && x * y == x * z
    ensures y == z
  {
    var d := y - z;
    assert x * d == x * y - x * z;
    if d > 0.0 {
      assert x * d > 0.0;
    } else if d < 0.0 {
      assert x * -d > 0.0;
    }
  }

  lemma {:induction false} Whole(b: nat, k: nat)
    requires b > 0
    ensures RealPow(b, k) == Pow(b, k) as real
  {
    if k > 0 {
      Whole(b, k - 1);
      ProductOfWholes(b, Pow(b, k - 1));
    }
  }

  lemma ProductOfWholes(m: int, n: int)
    ensures (m * n) as real == m as real * n as real
  {
  }

  lemma Inverse(b: nat, k: int)
    requires b > 0
    ensures RealPow(b, k) * RealPow(b, -k) == 1.0
  {
    hide RealPow;
    Zero(b);
    Add(b, k, -k);
  }

  lemma GrowsOnce(b: nat, k: int)
    requires b > 0
    ensures RealPow(b, k) <= RealPow(b, k + 1)
  {
    hide RealPow;
    Up(b, k);
    var p := RealPow(b, k);
    assert RealPow(b, k + 1) == Times(b as real, p);
    hide Times;
    AtLeast(b as real, p);
  }

  lemma {:induction false} Grows(b: nat, j: int, k: int)
    requires b > 0 && j <= k
    ensures RealPow(b, j) <= RealPow(b, k)
    decreases k - j
  {
    hide RealPow, Times;
    if j < k {
      Grows(b, j, k - 1);
      GrowsOnce(b, k - 1);
    }
  }

  lemma AtLeast(x: real, y: real)
    requires x >= 1.0 && y > 0.0
    ensures Times(x, y) >= y
  {
    assert (x - 1.0) * y >= 0.0;
  }

  lemma {:induction false} PowAdd(b: nat, j: nat, k: nat)
    ensures Pow(b, j + k) == Pow(b, j) * Pow(b, k)
  {
    if j > 0 {
      PowAdd(b, j - 1, k);
      IntAssoc(b, Pow(b, j - 1), Pow(b, k));
    }
  }

  lemma IntAssoc(x: int, y: int, z: int)
    ensures x * (y * z) == x * y * z
  {
  }
}
