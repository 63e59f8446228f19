// Real vectors of a fixed dimension: sums, inner products and linear combinations.
module Vectors {

  type Vec = seq<real>

  // The product, named so that running sums can be compared without unfolding it.
  function Times(a: real, b: real): real {
    a * b
  }

  lemma TimesPositive(x: real, y: real)
    requires x > 0.0 && y > 0.0
    ensures Times(x, y) > 0.0
  {
  }

  lemma TimesSigns(x: real)
    ensures Times(-x, -x) == Times(x, x) && Times(0.0, 0.0) == 0.0
  {
  }

  lemma SquarePositive(x: real)
    ensures x != 0.0 ==> Times(x, x) > 0.0
    ensures x == 0.0 ==> Times(x, x) == 0.0
  {
    hide Times;
    TimesSigns(x);
    if x > 0.0 {
      TimesPositive(x, x);
    } else if x < 0.0 {
      TimesPositive(-x, -x);
    }
  }

  function Zero(d: nat): (r: Vec)
    ensures |r| == d
  {
    seq(d, _ => 0.0)
  }

  function Add(a: Vec, b: Vec): (r: Vec)
    requires |a| == |b|
    ensures |r| == |a|
  {
    seq(|a|, i requires 0 <= i < |a| => a[i] + b[i])
  }

  function Sub(a: Vec, b: Vec): (r: Vec)
    requires |a| == |b|
    ensures |r| == |a|
  {
    seq(|a|, i requires 0 <= i < |a| => a[i] - b[i])
  }

  function Scale(s: real, a: Vec): (r: Vec)
    ensures |r| == |a|
  {
    seq(|a|, i requires 0 <= i < |a| => s * a[i])
  }

  function Dot(a: Vec, b: Vec): real
    requires |a| == |b|
  {
    if a == [] then 0.0 else a[0] * b[0] + Dot(a[1..], b[1..])
  }

  function Norm2(a: Vec): real {
    Dot(a, a)
  }

  // ---- Algebra ----

  lemma Distribute(x: real, y: real, z: real)
    ensures (x + y) * z == x * z + y * z
  {
  }

  lemma Associate(s: real, x: real, y: real)
    ensures s * x * y == s * (x * y)
  {
  }

  lemma SubCancels(x: Vec, y: Vec, l: Vec)
    requires |x| == |y| == |l|
    ensures Sub(Add(x, l), Add(y, l)) == Sub(x, y)
  {
  }

  lemma {:induction false} DotAdd(a: Vec, b: Vec, c: Vec)
    requires |a| == |b| == |c|
    ensures Dot(Add(a, b), c) == Dot(a, c) + Dot(b, c)
  {
    if a != [] {
      DotAdd(a[1..], b[1..], c[1..]);
      assert Add(a, b)[1..] == Add(a[1..], b[1..]);
      Distribute(a[0], b[0], c[0]);
    }
  }

  lemma ScaleTail(s: real, a: Vec)
    requires a != []
    ensures Scale(s, a)[1..] == Scale(s, a[1..]) && Scale(s, a)[0] == s * a[0]
  {
    forall i | 0 <= i < |a| - 1
      ensures Scale(s, a)[1..][i] == Scale(s, a[1..])[i]
    {
      assert a[1..][i] == a[i + 1];
    }
  }

  lemma {:induction false} DotScale(s: real, a: Vec, c: Vec)
    requires |a| == |c|
    ensures Dot(Scale(s, a), c) == s * Dot(a, c)
  {
    hide Scale;
    if a != [] {
      DotScale(s, a[1..], c[1..]);
      ScaleTail(s, a);
      Associate(s, a[0], c[0]);
      Distribute(a[0] * c[0], Dot(a[1..], c[1..]), s);
    }
  }

  lemma {:induction false} DotCommutes(a: Vec, b: Vec)
    requires |a| == |b|
    ensures Dot(a, b) == Dot(b, a)
  {
    if a != [] {
      DotCommutes(a[1..], b[1..]);
    }
  }

  lemma {:induction false} DotZero(d: nat, c: Vec)
    requires |c| == d
    ensures Dot(Zero(d), c) == 0.0
  {
    if d > 0 {
      DotZero(d - 1, c[1..]);
      assert Zero(d)[1..] == Zero(d - 1);
    }
  }

  lemma {:induction false} NormNonNegative(a: Vec)
    ensures Norm2(a) >= 0.0
  {
    if a != [] {
      NormNonNegative(a[1..]);
    }
  }

  lemma NormOfSum(a: Vec, b: Vec)
    requires |a| == |b|
    ensures Norm2(Add(a, b)) == Norm2(a) + Norm2(b) + 2.0 * Dot(b, a)
  {
    DotAdd(a, b, Add(a, b));
    DotCommutes(a, Add(a, b));
    DotCommutes(b, Add(a, b));
    DotAdd(a, b, a);
    DotAdd(a, b, b);
    DotCommutes(a, b);
  }

  lemma NormOfScale(s: real, a: Vec)
    ensures Norm2(Scale(s, a)) == s * s * Norm2(a)
  {
    DotScale(s, a, Scale(s, a));
    DotCommutes(a, Scale(s, a));
    DotScale(s, a, a);
    Associate(s, s, Norm2(a));
  }

  // The squared distance from norms and the inner product.
  lemma DistanceIdentity(q: Vec, x: Vec)
    requires |q| == |x|
    ensures Norm2(Sub(q, x)) == Norm2(q) + Norm2(x) - 2.0 * Dot(q, x)
  {
    var n := Scale(-1.0, x);
    assert Sub(q, x) == Add(q, n);
    NormOfSum(q, n);
    NormOfScale(-1.0, x);
    DotScale(-1.0, x, q);
    DotCommutes(q, x);
  }

  // ---- Linear combinations ----

  ghost predicate Columns(cols: seq<Vec>, d: nat) {
    forall k | 0 <= k < |cols| :: |cols[k]| == d
  }

  function Combo(d: nat, b: seq<real>, cols: seq<Vec>): (r: Vec)
    requires |b| == |cols| && Columns(cols, d)
    ensures |r| == d
  {
    if b == [] then Zero(d) else Add(Scale(b[0], cols[0]), Combo(d, b[1..], cols[1..]))
  }

  lemma {:induction false} ComboSnoc(d: nat, b: seq<real>, cols: seq<Vec>, x: real, c: Vec)
    requires |b| == |cols| && Columns(cols, d) && |c| == d
    ensures Columns(cols + [c], d)
    ensures Combo(d, b + [x], cols + [c]) == Add(Combo(d, b, cols), Scale(x, c))
  {
    if b == [] {
      assert b + [x] == [x] && cols + [c] == [c];
      assert Combo(d, [x][1..], [c][1..]) == Zero(d);
      assert Add(Scale(x, c), Zero(d)) == Add(Zero(d), Scale(x, c));
    } else {
      ComboSnoc(d, b[1..], cols[1..], x, c);
      assert (b + [x])[1..] == b[1..] + [x] && (cols + [c])[1..] == cols[1..] + [c];
      var rest := Combo(d, b[1..], cols[1..]);
      assert Add(Scale(b[0], cols[0]), Add(rest, Scale(x, c))) == Add(Add(Scale(b[0], cols[0]), rest), Scale(x, c));
    }
  }

  // Sum of b[k] * v[k].
  function Weighted(b: seq<real>, v: seq<real>): real
    requires |b| == |v|
  {
    if b == [] then 0.0 else Times(b[0], v[0]) + Weighted(b[1..], v[1..])
  }

  lemma {:induction false} WeightedSnoc(b: seq<real>, v: seq<real>, x: real, y: real)
    requires |b| == |v|
    ensures Weighted(b + [x], v + [y]) == Weighted(b, v) + Times(x, y)
  {
    hide Times;
    if b == [] {
      assert b + [x] == [x] && v + [y] == [y];
      assert Weighted([x][1..], [y][1..]) == 0.0;
    } else {
      WeightedSnoc(b[1..], v[1..], x, y);
      assert (b + [x])[1..] == b[1..] + [x] && (v + [y])[1..] == v[1..] + [y];
    }
  }

  lemma WeightedTake(b: seq<real>, v: seq<real>, n: nat)
    requires |b| == |v| && n < |b|
    ensures Weighted(b[..n + 1], v[..n + 1]) == Weighted(b[..n], v[..n]) + Times(b[n], v[n])
    ensures Weighted(b[..0], v[..0]) == 0.0
  {
    assert b[..n + 1] == b[..n] + [b[n]] && v[..n + 1] == v[..n] + [v[n]];
    WeightedSnoc(b[..n], v[..n], b[n], v[n]);
  }

  lemma WeightedEmpty(b: seq<real>, v: seq<real>)
    requires |b| == |v|
    ensures Weighted(b[..0], v[..0]) == 0.0
  {
  }

  // One more term x == v[n] of a running sum r.
  lemma Accumulate(b: seq<real>, v: seq<real>, n: nat, r: real, x: real)
    requires |b| == |v| && n < |b| && r == Weighted(b[..n], v[..n]) && x == v[n]
    ensures r + Times(b[n], x) == Weighted(b[..n + 1], v[..n + 1])
  {
    hide Times;
    WeightedTake(b, v, n);
  }

  function Dots(cols: seq<Vec>, x: Vec): (r: seq<real>)
    requires Columns(cols, |x|)
    ensures |r| == |cols| && forall k | 0 <= k < |r| :: r[k] == Dot(cols[k], x)
  {
    seq(|cols|, k requires 0 <= k < |cols| => Dot(cols[k], x))
  }

  lemma DotScaleTimes(s: real, a: Vec, c: Vec)
    requires |a| == |c|
    ensures Dot(Scale(s, a), c) == Times(s, Dot(a, c))
  {
    DotScale(s, a, c);
  }

  // A table of inner products replaces the vectors.
  lemma {:induction false} DotCombo(d: nat, b: seq<real>, cols: seq<Vec>, x: Vec)
    requires |b| == |cols| && Columns(cols, d) && |x| == d
    ensures Dot(Combo(d, b, cols), x) == Weighted(b, Dots(cols, x))
  {
    if b == [] {
      DotZero(d, x);
    } else {
      hide Dot, Add, Scale;
      DotCombo(d, b[1..], cols[1..], x);
      DotAdd(Scale(b[0], cols[0]), Combo(d, b[1..], cols[1..]), x);
      DotScaleTimes(b[0], cols[0], x);
      hide Times;
      assert Dots(cols, x)[1..] == Dots(cols[1..], x);
    }
  }

  // ---- Sums over coordinates ----

  function SumTo(f: nat -> real, n: nat): real {
    if n == 0 then 0.0 else SumTo(f, n - 1) + f(n - 1)
  }

  lemma {:induction false} SumAgrees(f: nat -> real, g: nat -> real, n: nat)
    requires forall k: nat | k < n :: f(k) == g(k)
    ensures SumTo(f, n) == SumTo(g, n)
  {
    if n > 0 {
      SumAgrees(f, g, n - 1);
    }
  }

  lemma {:induction false} SumFirst(f: nat -> real, n: nat)
    ensures SumTo(f, n + 1) == f(0) + SumTo((k: nat) => f(k + 1), n)
  {
    if n == 0 {
      assert SumTo(f, 1) == SumTo(f, 0) + f(0);
    } else {
      SumFirst(f, n - 1);
    }
  }

  function DotTerm(a: Vec, b: Vec): nat -> real {
    (k: nat) => if k < |a| && k < |b| then Times(a[k], b[k]) else 0.0
  }

  lemma DotHead(a: Vec, b: Vec)
    requires |a| == |b| > 0
    ensures Dot(a, b) == Times(a[0], b[0]) + Dot(a[1..], b[1..])
  {
  }

  // The inner product is the sum of the products of the coordinates.
  lemma {:induction false} DotIsSum(a: Vec, b: Vec)
    requires |a| == |b|
    ensures Dot(a, b) == SumTo(DotTerm(a, b), |a|)
  {
    hide Times;
    if a != [] {
      hide Dot;
      DotHead(a, b);
      DotIsSum(a[1..], b[1..]);
      SumFirst(DotTerm(a, b), |a| - 1);
      SumAgrees(DotTerm(a[1..], b[1..]), (k: nat) => DotTerm(a, b)(k + 1), |a| - 1);
    }
  }

  function WeightTerm(b: seq<real>, v: seq<real>): nat -> real {
    (k: nat) => if k < |b| && k < |v| then Times(b[k], v[k]) else 0.0
  }

  lemma {:induction false} WeightedIsSum(b: seq<real>, v: seq<real>)
    requires |b| == |v|
    ensures Weighted(b, v) == SumTo(WeightTerm(b, v), |b|)
  {
    hide Times;
    if b != [] {
      WeightedIsSum(b[1..], v[1..]);
      SumFirst(WeightTerm(b, v), |b| - 1);
      SumAgrees(WeightTerm(b[1..], v[1..]), (k: nat) => WeightTerm(b, v)(k + 1), |b| - 1);
    }
  }

  function ComboTerm(b: seq<real>, cols: seq<Vec>, r: nat): nat -> real {
    (k: nat) => if k < |b| && k < |cols| && r < |cols[k]| then Times(b[k], cols[k][r]) else 0.0
  }

  lemma ComboStep(d: nat, b: seq<real>, cols: seq<Vec>, r: nat)
    requires |b| == |cols| > 0 && Columns(cols, d) && r < d
    ensures Combo(d, b, cols)[r] == Times(b[0], cols[0][r]) + Combo(d, b[1..], cols[1..])[r]
  {
  }

  // A combination, coordinate by coordinate.
  lemma {:induction false} ComboAt(d: nat, b: seq<real>, cols: seq<Vec>, r: nat)
    requires |b| == |cols| && Columns(cols, d) && r < d
    ensures Combo(d, b, cols)[r] == SumTo(ComboTerm(b, cols, r), |b|)
  {
    hide Times;
    if b != [] {
      ComboStep(d, b, cols, r);
      ComboAt(d, b[1..], cols[1..], r);
      SumFirst(ComboTerm(b, cols, r), |b| - 1);
      SumAgrees(ComboTerm(b[1..], cols[1..], r), (k: nat) => ComboTerm(b, cols, r)(k + 1), |b| - 1);
    }
  }
}
