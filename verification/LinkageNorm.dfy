// Squared norms of all reconstructions in a cluster from Gram tables and an ancestor walk.
module LinkageNorm {
  import opened Vectors
  import opened Linkage

  const MAX_SUPPORTED_M: nat := 20

  type Table = seq<seq<real>>

  // The product transpose(A) * B of two column lists.
  function Gram(a: seq<Vec>, b: seq<Vec>, d: nat): (r: Table)
    requires Columns(a, d) && Columns(b, d)
    ensures |r| == |a| && forall i | 0 <= i < |a| :: |r[i]| == |b|
    ensures forall i, j | 0 <= i < |a| && 0 <= j < |b| :: r[i][j] == Dot(a[i], b[j])
  {
    seq(|a|, i requires 0 <= i < |a| => seq(|b|, j requires 0 <= j < |b| => Dot(a[i], b[j])))
  }

  function Pick(flat: seq<Vec>, idx: seq<nat>): (r: seq<Vec>)
    requires forall k | 0 <= k < |idx| :: idx[k] < |flat|
    ensures |r| == |idx| && forall k | 0 <= k < |r| :: r[k] == flat[idx[k]]
  {
    seq(|idx|, k requires 0 <= k < |idx| => flat[idx[k]])
  }

  // Adding one more vector to a combination, for the norm.
  lemma NormStep(x: real, c: Vec, rest: Vec)
    requires |c| == |rest|
    ensures Norm2(Add(Scale(x, c), rest))
         == Times(Times(x, x), Norm2(c)) + Times(Times(2.0, x), Dot(rest, c)) + Norm2(rest)
  {
    hide Dot;
    NormOfSum(Scale(x, c), rest);
    NormOfScale(x, c);
    DotCommutes(rest, Scale(x, c));
    DotScale(x, c, rest);
    DotCommutes(c, rest);
    Associate(2.0, x, Dot(rest, c));
  }

  // Sum of b[k] * t[idx[k]]: the inner product of a combination with the vector behind t.
  method TableDot(b: seq<real>, idx: seq<nat>, t: seq<real>, ghost flat: seq<Vec>, ghost x: Vec) returns (r: real)
    requires |b| == |idx| && |t| == |flat| && (forall k | 0 <= k < |idx| :: idx[k] < |t|)
    requires Columns(flat, |x|) && forall k | 0 <= k < |flat| :: t[k] == Dot(x, flat[k])
    ensures r == Dot(Combo(|x|, b, Pick(flat, idx)), x)
  {
    hide Dot, Weighted, Combo, Times;
    r := 0.0;
    ghost var dots := Dots(Pick(flat, idx), x);
    WeightedEmpty(b, dots);
    for k := 0 to |b|
      invariant r == Weighted(b[..k], dots[..k])
    {
      DotCommutes(x, flat[idx[k]]);
      assert Pick(flat, idx)[k] == flat[idx[k]];
      Accumulate(b, dots, k, r, t[idx[k]]);
      r := r + Times(b[k], t[idx[k]]);
    }
    assert b[..|b|] == b && dots[..|b|] == dots;
    DotCombo(|x|, b, Pick(flat, idx), x);
  }

  // Squared norm of a combination from the Gram table: diagonal terms and doubled cross terms.
  method GramNorm(d: nat, b: seq<real>, idx: seq<nat>, t: Table, ghost flat: seq<Vec>) returns (r: real)
    requires |b| == |idx| && |t| == |flat| && Columns(flat, d) && (forall k | 0 <= k < |idx| :: idx[k] < |t|)
    requires t == Gram(flat, flat, d)
    ensures r == Norm2(Combo(d, b, Pick(flat, idx)))
  {
    hide Dot, Norm2, Combo, Gram;
    ghost var cols := Pick(flat, idx);
    r := 0.0;
    assert b[0..] == b && cols[0..] == cols;
    for j := 0 to |b|
      invariant r + Norm2(Combo(d, b[j..], cols[j..])) == Norm2(Combo(d, b, cols))
    {
      var row := GramRow(d, b, idx, t, flat, j);
      r := r + row;
    }
    EmptyNorm(d, b[|b|..], cols[|b|..]);
  }

  lemma EmptyNorm(d: nat, b: seq<real>, cols: seq<Vec>)
    requires b == [] && cols == []
    ensures Norm2(Combo(d, b, cols)) == 0.0
  {
    DotZero(d, Zero(d));
  }

  // The terms of index j against itself and every later index.
  method GramRow(d: nat, b: seq<real>, idx: seq<nat>, t: Table, ghost flat: seq<Vec>, j: nat) returns (r: real)
    requires |b| == |idx| && j < |b| && |t| == |flat| && Columns(flat, d) && (forall k | 0 <= k < |idx| :: idx[k] < |t|)
    requires t == Gram(flat, flat, d)
    ensures r + Norm2(Combo(d, b[j + 1..], Pick(flat, idx)[j + 1..])) == Norm2(Combo(d, b[j..], Pick(flat, idx)[j..]))
  {
    hide Dot, Norm2, Combo, Gram, Weighted, Times;
    var aj, fj := b[j], idx[j];
    ghost var cols := Pick(flat, idx);
    ghost var rest, cj := cols[j + 1..], flat[fj];
    ghost var dots := Dots(rest, cj);
    ghost var bs := b[j + 1..];
    GramEntry(flat, d, fj, fj);
    r := Times(Times(aj, aj), t[fj][fj]);
    ghost var diag := r;
    WeightedEmpty(bs, dots);
    ScaleTerm(Times(2.0, aj), 0.0, 0.0, 0.0);
    for k := j + 1 to |b|
      invariant r == diag + Times(Times(2.0, aj), Weighted(bs[..k - j - 1], dots[..k - j - 1]))
    {
      ghost var i := k - j - 1;
      WeightedTake(bs, dots, i);
      GramEntry(flat, d, fj, idx[k]);
      DotCommutes(cj, flat[idx[k]]);
      assert dots[i] == t[fj][idx[k]] && bs[i] == b[k];
      ScaleTerm(Times(2.0, aj), Weighted(bs[..i], dots[..i]), b[k], t[fj][idx[k]]);
      r := r + Times(Times(Times(2.0, aj), b[k]), t[fj][idx[k]]);
    }
    assert bs[..|b| - j - 1] == bs && dots[..|b| - j - 1] == dots;
    DotCombo(d, bs, rest, cj);
    ComboHead(d, b[j..], cols[j..]);
    assert b[j..][1..] == bs && cols[j..][1..] == rest;
    NormStep(aj, cj, Combo(d, bs, rest));
    NormIsDot(cj);
  }

  lemma NormIsDot(c: Vec)
    ensures Norm2(c) == Dot(c, c)
  {
  }

  lemma GramEntry(flat: seq<Vec>, d: nat, i: nat, j: nat)
    requires Columns(flat, d) && i < |flat| && j < |flat|
    ensures var t := Gram(flat, flat, d); |t| == |flat| && |t[i]| == |flat| && t[i][j] == Dot(flat[i], flat[j])
  {
  }

  lemma ComboHead(d: nat, b: seq<real>, cols: seq<Vec>)
    requires |b| == |cols| > 0 && Columns(cols, d)
    ensures Combo(d, b, cols) == Add(Scale(b[0], cols[0]), Combo(d, b[1..], cols[1..]))
  {
  }

  // As TableDot, with every term scaled by a.
  method ScaledTableDot(a: real, b: seq<real>, idx: seq<nat>, t: seq<real>, ghost flat: seq<Vec>, ghost x: Vec)
    returns (r: real)
    requires |b| == |idx| && |t| == |flat| && (forall k | 0 <= k < |idx| :: idx[k] < |t|)
    requires Columns(flat, |x|) && forall k | 0 <= k < |flat| :: t[k] == Dot(x, flat[k])
    ensures r == Times(a, Dot(Combo(|x|, b, Pick(flat, idx)), x))
  {
    hide Dot, Weighted, Combo, Times;
    r := 0.0;
    ghost var dots := Dots(Pick(flat, idx), x);
    WeightedEmpty(b, dots);
    ScaleTerm(a, 0.0, 0.0, 0.0);
    for k := 0 to |b|
      invariant r == Times(a, Weighted(b[..k], dots[..k]))
    {
      WeightedTake(b, dots, k);
      DotCommutes(x, flat[idx[k]]);
      assert Pick(flat, idx)[k] == flat[idx[k]];
      ScaleTerm(a, Weighted(b[..k], dots[..k]), b[k], t[idx[k]]);
      r := r + Times(Times(a, b[k]), t[idx[k]]);
    }
    assert b[..|b|] == b && dots[..|b|] == dots;
    DotCombo(|x|, b, Pick(flat, idx), x);
  }

  lemma ScaleTerm(a: real, w: real, x: real, y: real)
    ensures Times(a, w + Times(x, y)) == Times(a, w) + Times(Times(a, x), y)
    ensures Times(a, 0.0) == 0.0
  {
  }

  lemma DotsOfGram(a: seq<Vec>, b: seq<Vec>, d: nat, i: nat)
    requires Columns(a, d) && Columns(b, d) && i < |a|
    ensures var t := Gram(a, b, d); |t| == |a| && |t[i]| == |b| && forall k | 0 <= k < |b| :: t[i][k] == Dot(a[i], b[k])
  {
  }

  class LinkageNormProviderLookup {
    const books: Books
    const drr: Table
    const doo: Table
    const dro: Table

    ghost predicate Valid() {
      && Columns(books.root0, books.d) && Columns(books.small, books.d) && Columns(books.one, books.d)
      && drr == Gram(books.small, books.small, books.d)
      && doo == Gram(books.one, books.one, books.d)
      && dro == Gram(books.small, books.one, books.d)
    }

    constructor (b: Books)
      requires Columns(b.root0, b.d) && Columns(b.small, b.d) && Columns(b.one, b.d)
      ensures Valid() && books == b
    {
      books := b;
      drr := Gram(b.small, b.small, b.d);
      doo := Gram(b.one, b.one, b.d);
      dro := Gram(b.small, b.one, b.d);
    }

    // Layers 1 and up of a root: flat columns and coefficients.
    method ReadRoot(cv: Cluster, local: nat) returns (idx: seq<nat>, a: seq<real>)
      requires Valid() && Covers(books, cv) && local < Nodes(cv)
      ensures |idx| == |a| == cv.m - 1
      ensures forall k | 0 <= k < |idx| :: idx[k] == RootIndex(books, cv, k + 1, local) < |books.small|
      ensures a == RootCoefs(cv, local)[1..] && Pick(books.small, idx) == RootCols(books, cv, local)[1..]
    {
      idx, a := [], [];
      for l := 1 to cv.m
        invariant |idx| == |a| == l - 1
        invariant forall k | 0 <= k < |idx| ::
          idx[k] == RootIndex(books, cv, k + 1, local) && a[k] == RootCoef(cv, k + 1, local)
      {
        assert RootIndex(books, cv, l, local) < |books.small|;
        idx := idx + [books.smallOffset[l - 1] + CodeAt(cv, local, l)];
        a := a + [RootCoef(cv, l, local)];
      }
    }

    // All layers of a linkage node.
    method ReadLink(cv: Cluster, local: nat) returns (idx: seq<nat>, b: seq<real>)
      requires Valid() && Covers(books, cv) && cv.nVirt <= local < Nodes(cv)
      ensures |idx| == |b| == cv.m && (forall k | 0 <= k < |idx| :: idx[k] < |books.one|)
      ensures b == LinkCoefs(cv, local) && Pick(books.one, idx) == LinkCols(books, cv, local)
    {
      idx, b := [books.oneOffset[0] + cv.code0[local - cv.nVirt]], [LinkCoef(cv, 0, local)];
      assert idx[0] == LinkIndex(books, cv, 0, local);
      for l := 1 to cv.m
        invariant |idx| == |b| == l
        invariant forall k | 0 <= k < |idx| ::
          idx[k] == LinkIndex(books, cv, k, local) && b[k] == LinkCoef(cv, k, local)
      {
        assert LinkIndex(books, cv, l, local) < |books.one|;
        idx := idx + [books.oneOffset[l] + CodeAt(cv, local, l)];
        b := b + [LinkCoef(cv, l, local)];
      }
    }

    // compute_root_norm2.
    method RootNorm(cv: Cluster, local: nat, c0Norm: real, c0DotRoot: seq<real>) returns (r: real)
      requires Valid() && Covers(books, cv) && local < Nodes(cv)
      requires c0Norm == Norm2(books.root0[cv.cid]) && |c0DotRoot| == |books.small|
      requires forall k | 0 <= k < |books.small| :: c0DotRoot[k] == Dot(books.root0[cv.cid], books.small[k])
      ensures r == Norm2(RootVec(books, cv, local))
    {
      hide Dot, Norm2, Combo, Gram, Weighted, CodeAt, RootCoef, Times;
      ghost var c0 := books.root0[cv.cid];
      var idx, a := ReadRoot(cv, local);
      var a0 := RootCoef(cv, 0, local);
      var cross0 := TableDot(a, idx, c0DotRoot, books.small, c0);
      var small := GramNorm(books.d, a, idx, drr, books.small);
      r := Times(Times(a0, a0), c0Norm) + Times(Times(2.0, a0), cross0) + small;
      ComboHead(books.d, RootCoefs(cv, local), RootCols(books, cv, local));
      NormStep(a0, c0, Combo(books.d, a, Pick(books.small, idx)));
    }

    // What a root ancestor adds to the cross term.
    method CrossRoot(cv: Cluster, a: nat, idx: seq<nat>, b: seq<real>, c0DotOne: seq<real>, ghost v: Vec)
      returns (r: real)
      requires Valid() && Covers(books, cv) && a < Nodes(cv)
      requires |idx| == |b| && (forall k | 0 <= k < |idx| :: idx[k] < |books.one|)
      requires |v| == books.d && v == Combo(books.d, b, Pick(books.one, idx)) && |c0DotOne| == |books.one|
      requires forall k | 0 <= k < |books.one| :: c0DotOne[k] == Dot(books.root0[cv.cid], books.one[k])
      ensures r == Dot(RootVec(books, cv, a), v)
    {
      hide Dot, Combo, Gram, Weighted, CodeAt, RootCoef, LinkIndex, Times;
      ghost var coefs, dots := RootCoefs(cv, a), Dots(RootCols(books, cv, a), v);
      WeightedEmpty(coefs, dots);
      var dot0 := TableDot(b, idx, c0DotOne, books.one, books.root0[cv.cid]);
      DotCommutes(v, books.root0[cv.cid]);
      Accumulate(coefs, dots, 0, 0.0, dot0);
      r := Times(RootCoef(cv, 0, a), dot0);
      for l := 1 to cv.m
        invariant r == Weighted(coefs[..l], dots[..l])
      {
        var rs := RootIndex(books, cv, l, a);
        DotsOfGram(books.small, books.one, books.d, rs);
        var acc := TableDot(b, idx, dro[rs], books.one, books.small[rs]);
        DotCommutes(v, books.small[rs]);
        Accumulate(coefs, dots, l, r, acc);
        r := r + Times(RootCoef(cv, l, a), acc);
      }
      assert coefs[..cv.m] == coefs && dots[..cv.m] == dots;
      DotCombo(books.d, coefs, RootCols(books, cv, a), v);
    }

    // What a linkage ancestor adds to the cross term.
    method CrossLink(cv: Cluster, u: nat, idx: seq<nat>, b: seq<real>, ghost v: Vec) returns (r: real)
      requires Valid() && Covers(books, cv) && cv.nVirt <= u < Nodes(cv)
      requires |idx| == |b| && (forall k | 0 <= k < |idx| :: idx[k] < |books.one|)
      requires |v| == books.d && v == Combo(books.d, b, Pick(books.one, idx))
      ensures r == Dot(LinkVec(books, cv, u), v)
    {
      hide Dot, Combo, Gram, Weighted, Covers, Times;
      var idxU, bU := ReadLink(cv, u);
      ghost var dots := Dots(LinkCols(books, cv, u), v);
      WeightedEmpty(bU, dots);
      r := 0.0;
      for j := 0 to cv.m
        invariant r == Weighted(bU[..j], dots[..j])
      {
        var fj := idxU[j];
        DotsOfGram(books.one, books.one, books.d, fj);
        var row := ScaledTableDot(bU[j], b, idx, doo[fj], books.one, books.one[fj]);
        DotCommutes(v, books.one[fj]);
        assert Pick(books.one, idxU)[j] == books.one[fj];
        Accumulate(bU, dots, j, r, Dot(v, books.one[fj]));
        r := r + row;
      }
      assert bU[..cv.m] == bU && dots[..cv.m] == dots;
      DotCombo(books.d, bU, LinkCols(books, cv, u), v);
    }

    // The ancestor walk: the inner product of the node's own part with its parent's vector.
    method CrossWalk(cv: Cluster, p: int, idx: seq<nat>, b: seq<real>, c0DotOne: seq<real>, ghost v: Vec)
      returns (cross: real)
      requires Valid() && Covers(books, cv) && Ordered(cv) && -1 <= p < Nodes(cv)
      requires |idx| == |b| && (forall k | 0 <= k < |idx| :: idx[k] < |books.one|)
      requires |v| == books.d && v == Combo(books.d, b, Pick(books.one, idx)) && |c0DotOne| == |books.one|
      requires forall k | 0 <= k < |books.one| :: c0DotOne[k] == Dot(books.root0[cv.cid], books.one[k])
      ensures cross == if p < 0 then 0.0 else Dot(Recon(books, cv, p, LinkOnly), v)
    {
      hide Dot, Combo, Gram, RootVec, LinkVec, RootIndex, LinkIndex;
      cross := 0.0;
      var a: int := p;
      while a >= 0
        invariant -1 <= a < Nodes(cv)
        invariant cross + (if a < 0 then 0.0 else Dot(Recon(books, cv, a, LinkOnly), v))
               == if p < 0 then 0.0 else Dot(Recon(books, cv, p, LinkOnly), v)
        decreases a
      {
        if a < cv.nVirt + cv.nRootReal {
          var part := CrossRoot(cv, a, idx, b, c0DotOne, v);
          cross := cross + part;
          break;
        }
        var part := CrossLink(cv, a, idx, b, v);
        WalkStep(cv, a, v);
        cross := cross + part;
        a := cv.parent[a - cv.nVirt] as int - 1;
      }
    }

    lemma WalkStep(cv: Cluster, a: nat, v: Vec)
      requires Covers(books, cv) && Ordered(cv) && a < Nodes(cv) && !IsRoot(cv, a) && |v| == books.d
      ensures 0 <= cv.parent[a - cv.nVirt] <= a
      ensures Dot(Recon(books, cv, a, LinkOnly), v)
           == Dot(LinkVec(books, cv, a), v)
            + (if cv.parent[a - cv.nVirt] == 0 then 0.0
               else Dot(Recon(books, cv, cv.parent[a - cv.nVirt] - 1, LinkOnly), v))
    {
      hide Dot, RootVec, LinkVec;
      var p := cv.parent[a - cv.nVirt];
      if p != 0 {
        DotAdd(Recon(books, cv, p - 1, LinkOnly), LinkVec(books, cv, a), v);
      }
    }

    // One linkage node: parent norm + residual norm + 2 * cross.
    method LinkNorm(cv: Cluster, pos: nat, norms: seq<real>, c0DotOne: seq<real>) returns (r: real)
      requires Valid() && Covers(books, cv) && Ordered(cv) && cv.nRootReal <= pos < cv.nReal
      requires |norms| == cv.nVirt + pos
      requires forall u | 0 <= u < |norms| :: norms[u] == Norm2(Recon(books, cv, u, LinkOnly))
      requires |c0DotOne| == |books.one|
      requires forall k | 0 <= k < |books.one| :: c0DotOne[k] == Dot(books.root0[cv.cid], books.one[k])
      ensures r == Norm2(Recon(books, cv, cv.nVirt + pos, LinkOnly))
    {
      hide Dot, Norm2, Combo, Gram, RootVec, RootIndex, LinkIndex;
      var local := cv.nVirt + pos;
      var p: int := cv.parent[pos] as int - 1;
      ghost var v := LinkVec(books, cv, local);
      var idx, b := ReadLink(cv, local);
      var res := GramNorm(books.d, b, idx, doo, books.one);
      var cross := CrossWalk(cv, p, idx, b, c0DotOne, v);
      var parentNorm := if p >= 0 then norms[p] else 0.0;
      r := parentNorm + res + 2.0 * cross;
      if p >= 0 {
        var parent := Recon(books, cv, p, LinkOnly);
        NormOfSum(parent, v);
        DotCommutes(parent, v);
      }
    }

    // False exactly for the dimensions and sizes the source rejects; otherwise the squared norm of
    // every real node's reconstruction.
    method ComputeNorm2(cv: Cluster) returns (ok: bool, out: seq<real>)
      requires Valid()
      requires Accepted(cv) ==> Covers(books, cv) && Ordered(cv)
      ensures ok <==> books.d > 0 && 1 < cv.m <= 20 && cv.cid < |books.root0| && cv.nReal > 0
      ensures ok ==> |out| == cv.nReal
      ensures ok ==> forall pos | 0 <= pos < cv.nReal :: out[pos] == Norm2(Recon(books, cv, cv.nVirt + pos, LinkOnly))
    {
      hide Dot, Norm2, Combo, Gram, RootVec, LinkVec, RootIndex, LinkIndex;
      out := [];
      if books.d == 0 || cv.m <= 1 || cv.m > MAX_SUPPORTED_M || cv.cid >= |books.root0| || cv.nReal == 0 {
        return false, out;
      }
      assert Accepted(cv);
      var c0 := books.root0[cv.cid];
      var c0Norm := Norm2(c0);
      var c0DotRoot := seq(|books.small|, j requires 0 <= j < |books.small| => Dot(c0, books.small[j]));
      var c0DotOne := seq(|books.one|, k requires 0 <= k < |books.one| => Dot(c0, books.one[k]));
      var norms := [];
      for local := 0 to cv.nVirt + cv.nRootReal
        invariant |norms| == local
        invariant forall u | 0 <= u < local :: norms[u] == Norm2(Recon(books, cv, u, LinkOnly))
      {
        var r := RootNorm(cv, local, c0Norm, c0DotRoot);
        norms := norms + [r];
      }
      for pos := cv.nRootReal to cv.nReal
        invariant |norms| == cv.nVirt + pos
        invariant forall u | 0 <= u < |norms| :: norms[u] == Norm2(Recon(books, cv, u, LinkOnly))
      {
        var r := LinkNorm(cv, pos, norms, c0DotOne);
        norms := norms + [r];
      }
      ok, out := true, norms[cv.nVirt..];
    }

    predicate Accepted(cv: Cluster) {
      books.d > 0 && 1 < cv.m <= MAX_SUPPORTED_M && cv.cid < |books.root0| && cv.nReal > 0
    }
  }
}
