// Bitwise AND on natural numbers.
module Bits {

  function Pow2(n: nat): (p: nat)
    ensures p >= 1
  {
    if n == 0 then 1 else 2 * Pow2(n - 1)
  }

  function And(x: nat, y: nat): nat {
    if x == 0 || y == 0 then 0
    else 2 * And(x / 2, y / 2) + (if x % 2 == 1 && y % 2 == 1 then 1 else 0)
  }

  // BitScanForward64: the index of the lowest bit that is set.
  function LowestBit(m: nat): (k: nat)
    requires m > 0
  {
    if m % 2 == 1 then 0 else 1 + LowestBit(m / 2)
  }

  // x with its low k bits cleared.
  function ClearLow(x: nat, k: nat): nat
    decreases k
  {
    if k == 0 then x else 2 * ClearLow(x / 2, k - 1)
  }

  predicate Bit(x: nat, j: nat)
    decreases j
  {
    if j == 0 then x % 2 == 1 else Bit(x / 2, j - 1)
  }

  // x with bit j inverted.
  function Flip(x: nat, j: nat): nat
    decreases j
  {
    if j == 0 then (if x % 2 == 1 then x - 1 else x + 1)
    else 2 * Flip(x / 2, j - 1) + x % 2
  }

  // The mask that selects bits k to w - 1.
  function ContiguousMask(w: nat, k: nat): nat
    requires k <= w
  {
    Pow2Monotonic(k, w);
    Pow2(w) - Pow2(k)
  }

  lemma {:induction false} Pow2Monotonic(k: nat, w: nat)
    requires k <= w
    ensures Pow2(k) <= Pow2(w)
    decreases w
  {
    if k < w {
      Pow2Monotonic(k, w - 1);
    }
  }

  // ANDing with a contiguous mask clears the low bits.
  lemma {:induction false} AndContiguous(x: nat, w: nat, k: nat)
    requires k <= w && x < Pow2(w)
    ensures And(x, ContiguousMask(w, k)) == ClearLow(x, k)
    decreases w
  {
    var m := ContiguousMask(w, k);
    if w > 0 {
      if k == 0 {
        AndContiguous(x / 2, w - 1, 0);
        assert m / 2 == ContiguousMask(w - 1, 0);
      } else {
        AndContiguous(x / 2, w - 1, k - 1);
        assert m / 2 == ContiguousMask(w - 1, k - 1);
        AndZero(x, m);
      }
    }
  }

  lemma AndZero(x: nat, m: nat)
    requires m % 2 == 0
    ensures And(x, m) == 2 * And(x / 2, m / 2)
  {
  }

  lemma {:induction false} ClearLowBounds(x: nat, k: nat)
    ensures ClearLow(x, k) <= x < ClearLow(x, k) + Pow2(k)
    ensures ClearLow(ClearLow(x, k), k) == ClearLow(x, k)
    decreases k
  {
    if k > 0 {
      var half := x / 2;
      ClearLowBounds(half, k - 1);
      ClearLowHalf(x, k);
      ClearLowHalf(ClearLow(x, k), k);
      hide ClearLow, Pow2;
      assert ClearLow(x, k) / 2 == ClearLow(half, k - 1);
      assert 2 * half <= x <= 2 * half + 1;
    }
  }

  lemma ClearLowHalf(x: nat, k: nat)
    requires k > 0
    ensures ClearLow(x, k) == 2 * ClearLow(x / 2, k - 1) && Pow2(k) == 2 * Pow2(k - 1)
  {
  }

  // x with its low bits cleared is the only aligned number within reach below x.
  lemma {:induction false} ClearLowUnique(x: nat, b: nat, k: nat)
    requires ClearLow(b, k) == b && b <= x < b + Pow2(k)
    ensures ClearLow(x, k) == b
    decreases k
  {
    if k > 0 {
      ClearLowUnique(x / 2, b / 2, k - 1);
    }
  }

  // Bits below the lowest bit of the mask do not matter.
  lemma {:induction false} AndIgnoresLow(x: nat, m: nat)
    requires m > 0
    ensures And(ClearLow(x, LowestBit(m)), m) == And(x, m)
    decreases m
  {
    if m % 2 == 0 {
      AndIgnoresLow(x / 2, m / 2);
      AndZero(x, m);
      AndZero(ClearLow(x, LowestBit(m)), m);
    }
  }

  // Nor does a bit that the mask does not select.
  lemma {:induction false} AndIgnoresUnselected(x: nat, m: nat, j: nat)
    requires !Bit(m, j)
    ensures And(Flip(x, j), m) == And(x, m)
    decreases j
  {
    if j > 0 {
      AndIgnoresUnselected(x / 2, m / 2, j - 1);
    }
  }

  lemma {:induction false} FlipDistance(x: nat, j: nat, w: nat)
    requires j < w && x < Pow2(w)
    ensures Flip(x, j) < Pow2(w)
    ensures Flip(x, j) == x + Pow2(j) || Flip(x, j) == x - Pow2(j)
    decreases j
  {
    if j > 0 {
      FlipDistance(x / 2, j - 1, w - 1);
      FlipHalf(x, j, w);
      hide Flip, Pow2;
      var half, rest := x / 2, x % 2;
      assert x == 2 * half + rest;
    }
  }

  lemma FlipHalf(x: nat, j: nat, w: nat)
    requires 0 < j < w && x < Pow2(w)
    ensures Flip(x, j) == 2 * Flip(x / 2, j - 1) + x % 2
    ensures Pow2(j) == 2 * Pow2(j - 1) && Pow2(w) == 2 * Pow2(w - 1) && x / 2 < Pow2(w - 1)
  {
  }

  // A mask that is not contiguous up to bit w - 1 has a hole above its lowest bit.
  lemma {:induction false} Hole(m: nat, w: nat) returns (j: nat)
    requires 0 < m < Pow2(w) && LowestBit(m) <= w
    requires m != ContiguousMask(w, LowestBit(m))
    ensures LowestBit(m) < j < w && !Bit(m, j)
    decreases w
  {
    assert w > 0;
    if m % 2 == 0 {
      assert m / 2 != ContiguousMask(w - 1, LowestBit(m / 2)) by {
        assert ContiguousMask(w, LowestBit(m)) == 2 * ContiguousMask(w - 1, LowestBit(m / 2));
      }
      j := Hole(m / 2, w - 1);
      j := j + 1;
    } else {
      j := ZeroBit(m / 2, w - 1);
      j := j + 1;
    }
  }

  lemma {:induction false} ZeroBit(m: nat, w: nat) returns (j: nat)
    requires m < Pow2(w) && m != Pow2(w) - 1
    ensures j < w && !Bit(m, j)
    decreases w
  {
    if m % 2 == 0 {
      j := 0;
    } else {
      j := ZeroBit(m / 2, w - 1);
      j := j + 1;
    }
  }

  lemma {:induction false} LowestBitBelow(m: nat, w: nat)
    requires 0 < m < Pow2(w)
    ensures LowestBit(m) < w
    decreases w
  {
    if m % 2 == 0 {
      LowestBitBelow(m / 2, w - 1);
    }
  }

  lemma {:induction false} ClearLowIsMod(x: nat, k: nat)
    ensures x % Pow2(k) == x - ClearLow(x, k)
    decreases k
  {
    ClearLowBounds(x, k);
    var q := ClearLowIsMultiple(x, k);
    ModUnique(x, q, Pow2(k), x - ClearLow(x, k));
  }

  lemma {:induction false} ClearLowIsMultiple(x: nat, k: nat) returns (q: nat)
    ensures ClearLow(x, k) == q * Pow2(k)
    decreases k
  {
    if k == 0 {
      q := x;
    } else {
      q := ClearLowIsMultiple(x / 2, k - 1);
      MulDouble(q, Pow2(k - 1));
    }
  }

  lemma MulDouble(a: nat, b: nat)
    ensures a * (2 * b) == 2 * (a * b)
  {
  }

  lemma {:induction false} ModUnique(x: nat, q: nat, m: nat, r: nat)
    requires r < m && x == q * m + r
    ensures x % m == r
  {
    MultipleOutOfReach(x / m - q, m);
    assert (x / m - q) * m == r - x % m;
  }

  lemma MultipleOutOfReach(d: int, m: int)
    requires m >= 0
    ensures d >= 1 ==> d * m >= m
    ensures d <= -1 ==> d * m <= -m
  {
  }
}
