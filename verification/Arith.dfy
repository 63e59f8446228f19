// Powers of two, Fibonacci numbers and the fixed integer widths the coder relies on.
module Arith {

  const TWO_8: nat := 0x100
  const TWO_16: nat := 0x1_0000
  const TWO_32: nat := 0x1_0000_0000

  // Fib(34) and Fib(35): from so many symbols on a code of 32, or 33, bits can arise.
  const FIB_34: nat := 5702887
  const FIB_35: nat := 9227465

  // The 32-bit value left of x (Low32IsMod), written without the solver's modulus.
  function Low32(x: nat): (r: nat)
    ensures r < TWO_32
  {
    if x < TWO_32 then x else Low32(x - TWO_32)
  }

  lemma {:induction false} Low32IsMod(x: nat)
    ensures Low32(x) == x % TWO_32
  {
    if x >= TWO_32 {
      Low32IsMod(x - TWO_32);
    }
  }

  lemma {:induction false} Low32Add(x: nat, y: nat)
    ensures Low32(Low32(x) + y) == Low32(x + y)
  {
    if x >= TWO_32 {
      Low32Add(x - TWO_32, y);
    }
  }

  lemma {:induction false} Low32Twice(x: nat)
    ensures Low32(2 * Low32(x)) == Low32(2 * x)
  {
    if x >= TWO_32 {
      Low32Twice(x - TWO_32);
      assert Low32(2 * x) == Low32(2 * x - TWO_32) == Low32(2 * x - TWO_32 - TWO_32);
    }
  }

  function Min(a: nat, b: nat): nat {
    if a <= b then a else b
  }

  function Max(a: int, b: int): int {
    if a >= b then a else b
  }

  // Flat index of entry (l, i) in rows of length nc.
  function Cell(nc: nat, l: nat, i: nat): nat {
    l * nc + i
  }

  lemma CellBound(m: nat, nc: nat, l: nat, i: nat)
    requires l < m && i < nc
    ensures Cell(nc, l, i) < m * nc
  {
    assert (m - l - 1) * nc >= 0;
    assert m * nc == (m - l - 1) * nc + l * nc + nc;
  }

  lemma DivUnique(v: nat, d: nat, q: nat, r: nat)
    requires d >= 1 && v == q * d + r && r < d
    ensures v / d == q
  {
    var q', r' := v / d, v % d;
    assert q' * d + r' == q * d + r;
    if q' > q {
      Gap(q', q, d);
    } else if q' < q {
      Gap(q, q', d);
    }
  }

  lemma Gap(a: nat, b: nat, d: nat)
    requires a > b
    ensures a * d >= b * d + d
  {
    assert (a - b - 1) * d >= 0;
    assert a * d == (a - b - 1) * d + b * d + d;
  }

  lemma DivDiv(v: nat, p: nat)
    requires p >= 1
    ensures v / 2 / p == v / (2 * p)
  {
    var q := v / 2 / p;
    var r := v / 2 - q * p;
    assert v / 2 == q * p + r && 0 <= r < p;
    assert v == q * (2 * p) + (2 * r + v % 2);
    DivUnique(v, 2 * p, q, 2 * r + v % 2);
  }

  function Pow2(n: nat): (r: nat)
    ensures r >= 1
  {
    if n == 0 then 1 else 2 * Pow2(n - 1)
  }

  lemma {:induction false} Pow2Add(a: nat, b: nat)
    ensures Pow2(a + b) == Pow2(a) * Pow2(b)
  {
    if a > 0 {
      Pow2Add(a - 1, b);
      assert Pow2(a + b) == 2 * (Pow2(a - 1) * Pow2(b));
    }
  }

  lemma {:induction false} Pow2Mono(a: nat, b: nat)
    requires a <= b
    ensures Pow2(a) <= Pow2(b)
  {
    if a < b {
      Pow2Mono(a, b - 1);
    }
  }

  lemma Pow2At32()
    ensures Pow2(32) == TWO_32
  {
    assert Pow2(8) == 256;
    Pow2Add(8, 8);
    Pow2Add(16, 16);
  }

  lemma {:induction false} Pow2High(m: nat)
    requires m >= 32
    ensures Low32(Pow2(m)) == 0
  {
    if m == 32 {
      Pow2At32();
    } else {
      Pow2High(m - 1);
      Low32Twice(Pow2(m - 1));
    }
  }

  // Fib(1) == Fib(2) == 1.
  function Fib(n: nat): nat {
    if n == 0 then 0 else if n == 1 then 1 else Fib(n - 1) + Fib(n - 2)
  }

  lemma {:induction false} FibMono(a: nat, b: nat)
    requires a <= b
    ensures Fib(a) <= Fib(b)
    decreases b - a
  {
    if a < b {
      FibMono(a, b - 1);
    }
  }

  // The pair (Fib(n+8), Fib(n+9)) from the pair eight places below.
  lemma FibSkip8(n: nat)
    ensures Fib(n + 8) == 13 * Fib(n) + 21 * Fib(n + 1)
    ensures Fib(n + 9) == 21 * Fib(n) + 34 * Fib(n + 1)
  {
    assert Fib(n + 2) == Fib(n) + Fib(n + 1);
    assert Fib(n + 3) == Fib(n) + 2 * Fib(n + 1);
    assert Fib(n + 4) == 2 * Fib(n) + 3 * Fib(n + 1);
    assert Fib(n + 5) == 3 * Fib(n) + 5 * Fib(n + 1);
    assert Fib(n + 6) == 5 * Fib(n) + 8 * Fib(n + 1);
    assert Fib(n + 7) == 8 * Fib(n) + 13 * Fib(n + 1);
  }

  // The table totals from which codes of 32, 33, 46 and 48 bits become possible.
  lemma FibAt34(n: nat)
    requires n == 2
    ensures Fib(n + 32) == FIB_34 && Fib(n + 33) == FIB_35
  {
    FibSkip8(n);
    FibSkip8(n + 8);
    FibSkip8(n + 16);
    FibSkip8(n + 24);
  }

  lemma FibAt48(n: nat)
    requires n == 2
    ensures Fib(n + 46) > TWO_32
  {
    FibAt34(n);
    FibSkip8(n + 32);
    FibStep5(n + 41);
    assert Fib(n + 42) == Fib(n + 41) + Fib(n + 40);
  }

  lemma FibAt50(n: nat)
    requires n == 2
    ensures Fib(n + 48) > 2 * TWO_32
  {
    FibAt34(n);
    FibSkip8(n + 32);
    FibSkip8(n + 40);
  }

  lemma FibStep5(n: nat)
    ensures Fib(n + 5) == 3 * Fib(n) + 5 * Fib(n + 1)
  {
    assert Fib(n + 2) == Fib(n) + Fib(n + 1);
    assert Fib(n + 3) == Fib(n) + 2 * Fib(n + 1);
    assert Fib(n + 4) == 2 * Fib(n) + 3 * Fib(n + 1);
  }
}
