// Linkage nodes without a parent. Whatever is stored, the exported distance of a real node is exact,
// and its error is never clamped, exactly when the node's parent path ends in a true root.
module Orphans {
  import opened Arith
  import opened Vectors
  import opened Linkage
  import opened QueryAdc

  // The same nodes and parents; codes, coefficients and scales may differ.
  predicate SameShape(c: Cluster, cv: Cluster) {
    && c.cid == cv.cid && c.m == cv.m && c.nVirt == cv.nVirt && c.nReal == cv.nReal
    && c.nRootReal == cv.nRootReal && c.parent == cv.parent
  }

  predicate Bytes(codes: seq<nat>) {
    forall k | 0 <= k < |codes| :: codes[k] < 256
  }

  // What the export and the norm provider accept: two layers or more, int8 coefficients and byte
  // codes, and columns of its own for every layer.
  ghost predicate Exportable(b: Books, cv: Cluster) {
    && Covers(b, cv) && Ordered(cv) && cv.m > 1 && cv.coeffs.Quantised?
    && (forall p | 0 <= p < |cv.coeffs.q| :: -128 <= cv.coeffs.q[p] <= 127)
    && Bytes(cv.codes) && Bytes(cv.code0) && Bytes(cv.virtCodes)
    && (forall l, k | 0 <= l < k < cv.m - 1 :: b.smallOffset[l] < b.smallOffset[k])
    && (forall l, k | 0 <= l < k < cv.m :: b.oneOffset[l] < b.oneOffset[k])
  }

  lemma ExportableSized(b: Books, cv: Cluster)
    requires Exportable(b, cv)
    ensures Covers(b, cv) && Sized(cv) && Ordered(cv) && cv.m > 1
  {
  }

  // ---- What the gap decides ----

  ghost predicate ExactFor(b: Books, cv: Cluster, pos: nat, q: Vec)
    requires Covers(b, cv) && Ordered(cv) && pos < cv.nReal && |q| == b.d
  {
    ExportedDistance(b, cv, pos, q) == Norm2(Sub(q, Recon(b, cv, cv.nVirt + pos, RootAndLink)))
  }

  ghost predicate AlwaysExact(b: Books, cv: Cluster, pos: nat)
    requires Covers(b, cv) && Ordered(cv) && pos < cv.nReal
  {
    forall q: Vec | |q| == b.d :: ExactFor(b, cv, pos, q)
  }

  // With the norm the provider computes, no base vector makes the clamp act on the node.
  ghost predicate ClampDead(b: Books, cv: Cluster, pos: nat)
    requires Covers(b, cv) && Ordered(cv) && pos < cv.nReal
  {
    NeverClamped(Recon(b, cv, cv.nVirt + pos, RootAndLink), Norm2(Recon(b, cv, cv.nVirt + pos, LinkOnly)))
  }

  // The gap decides both: it is what every distance is off by, and the clamp can act when it is positive.
  lemma GapDecides(b: Books, cv: Cluster, pos: nat)
    requires Covers(b, cv) && Ordered(cv) && pos < cv.nReal
    ensures AlwaysExact(b, cv, pos) <==> NormGap(b, cv, cv.nVirt + pos) == 0.0
    ensures ClampDead(b, cv, pos) <==> NormGap(b, cv, cv.nVirt + pos) <= 0.0
  {
    hide Recon, Norm2, NormGap, Covers, NeverClamped, PathEnd, IsRoot, AlwaysExact, Dot, Sub, Add, OrphanRoot, SseRaw;
    var local := cv.nVirt + pos;
    GapOfReadings(b, cv, local);
    ClampIff(Recon(b, cv, local, RootAndLink), Norm2(Recon(b, cv, local, LinkOnly)));
    if NormGap(b, cv, local) == 0.0 {
      NoGapIsExact(b, cv, pos);
    } else {
      GapIsNotExact(b, cv, pos);
    }
  }

  lemma NoGapIsExact(b: Books, cv: Cluster, pos: nat)
    requires Covers(b, cv) && Ordered(cv) && pos < cv.nReal && NormGap(b, cv, cv.nVirt + pos) == 0.0
    ensures AlwaysExact(b, cv, pos)
  {
    hide Recon, Dot, Norm2, Sub, NormGap, ExportedDistance, Covers, PathEnd, IsRoot;
    forall q: Vec | |q| == b.d
      ensures ExactFor(b, cv, pos, q)
    {
      AdcOfNode(b, cv, pos, q);
    }
  }

  lemma GapIsNotExact(b: Books, cv: Cluster, pos: nat)
    requires Covers(b, cv) && Ordered(cv) && pos < cv.nReal && NormGap(b, cv, cv.nVirt + pos) != 0.0
    ensures !AlwaysExact(b, cv, pos)
  {
    hide Recon, Dot, Norm2, Sub, NormGap, ExportedDistance, Covers, PathEnd, IsRoot;
    AdcOfNode(b, cv, pos, Zero(b.d));
    assert !ExactFor(b, cv, pos, Zero(b.d));
  }

  // ---- Clusters with given parts ----

  // Every node has the same root part and every real node the same linkage part.
  ghost predicate HasParts(b: Books, cv: Cluster, root: Vec, link: Vec)
    requires Covers(b, cv)
  {
    && (forall local | 0 <= local < Nodes(cv) :: RootVec(b, cv, local) == root)
    && (forall local | cv.nVirt <= local < Nodes(cv) :: LinkVec(b, cv, local) == link)
  }

  // One column for every layer: the given vectors for layer 0, zero after it.
  ghost predicate PartBooks(b: Books, cid: nat, m: nat, root: Vec, link: Vec)
    requires |root| == |link| && m > 1
  {
    && b.d == |root| && |b.root0| == cid + 1 && (forall k | 0 <= k <= cid :: b.root0[k] == root)
    && |b.small| == |b.smallOffset| == m - 1 && |b.one| == |b.oneOffset| == m && b.one[0] == link
    && (forall l | 0 <= l < m - 1 :: b.small[l] == Zero(b.d) && b.smallOffset[l] == l)
    && (forall l | 1 <= l < m :: b.one[l] == Zero(b.d))
    && (forall l | 0 <= l < m :: b.oneOffset[l] == l)
  }

  predicate All<T(==)>(s: seq<T>, n: nat, x: T) {
    |s| == n && forall k | 0 <= k < n :: s[k] == x
  }

  // Every coefficient is 1 and every code 0.
  ghost predicate Uniform(cv: Cluster) {
    && cv.m > 1 && cv.nRootReal <= cv.nReal && |cv.parent| == cv.nReal && cv.coeffs.Quantised?
    && All(cv.coeffs.q, cv.m * Nodes(cv), 1) && All(cv.coeffs.scalesRoot, cv.m, 1.0)
    && All(cv.coeffs.scalesLinkage, cv.m, 1.0) && All(cv.code0, cv.nReal, 0)
    && All(cv.codes, cv.nReal * (cv.m - 1), 0) && All(cv.virtCodes, cv.nVirt * (cv.m - 1), 0)
  }

  lemma UniformEntries(cv: Cluster, local: nat, l: nat)
    requires Uniform(cv) && Sized(cv) && local < Nodes(cv) && l < cv.m
    ensures RootCoef(cv, l, local) == LinkCoef(cv, l, local) == 1.0
    ensures l > 0 ==> CodeAt(cv, local, l) == 0
  {
    CellBound(cv.m, Nodes(cv), l, local);
    ScaledOne(cv.coeffs.scalesRoot[l], cv.coeffs.q[l * Nodes(cv) + local]);
    ScaledOne(cv.coeffs.scalesLinkage[l], cv.coeffs.q[l * Nodes(cv) + local]);
    if l > 0 {
      UniformCode(cv, local, l);
    }
  }

  lemma ScaledOne(s: real, q: int)
    requires s == 1.0 && q == 1
    ensures s * (q as real) == 1.0
  {
  }

  lemma UniformCode(cv: Cluster, local: nat, l: nat)
    requires Uniform(cv) && Sized(cv) && local < Nodes(cv) && 1 <= l < cv.m
    ensures CodeAt(cv, local, l) == 0
  {
    if local < cv.nVirt {
      CellBound(cv.nVirt, cv.m - 1, local, l - 1);
    } else {
      CellBound(cv.nReal, cv.m - 1, local - cv.nVirt, l - 1);
    }
  }

  lemma UniformColumns(b: Books, cv: Cluster, root: Vec, link: Vec)
    requires |root| == |link| && Uniform(cv) && PartBooks(b, cv.cid, cv.m, root, link)
    ensures Sized(cv) && Covers(b, cv)
    ensures forall l, local | 1 <= l < cv.m && 0 <= local < Nodes(cv) :: RootIndex(b, cv, l, local) == l - 1
    ensures forall l, local | 0 <= l < cv.m && cv.nVirt <= local < Nodes(cv) :: LinkIndex(b, cv, l, local) == l
  {
    hide CodeAt;
    assert Sized(cv);
    forall l, local | 0 <= l < cv.m && 0 <= local < Nodes(cv)
      ensures l > 0 ==> CodeAt(cv, local, l) == 0
    {
      UniformEntries(cv, local, l);
    }
  }

  lemma {:induction false} ZeroCombo(d: nat, b: seq<real>, cols: seq<Vec>)
    requires |b| == |cols| && Columns(cols, d) && forall k | 0 <= k < |cols| :: cols[k] == Zero(d)
    ensures Combo(d, b, cols) == Zero(d)
  {
    if b != [] {
      ZeroCombo(d, b[1..], cols[1..]);
      assert cols[0] == Zero(d);
      assert Add(Scale(b[0], Zero(d)), Zero(d)) == Zero(d);
    }
  }

  lemma LeadCombo(d: nat, b: seq<real>, cols: seq<Vec>)
    requires |b| == |cols| > 0 && Columns(cols, d) && b[0] == 1.0
    requires forall k | 1 <= k < |cols| :: cols[k] == Zero(d)
    ensures Combo(d, b, cols) == cols[0]
  {
    ZeroCombo(d, b[1..], cols[1..]);
    assert Add(Scale(1.0, cols[0]), Zero(d)) == cols[0];
  }

  lemma UniformParts(b: Books, cv: Cluster, root: Vec, link: Vec, local: nat)
    requires |root| == |link| && Uniform(cv) && PartBooks(b, cv.cid, cv.m, root, link)
    requires Covers(b, cv) && local < Nodes(cv)
    ensures RootVec(b, cv, local) == root
    ensures cv.nVirt <= local ==> LinkVec(b, cv, local) == link
  {
    hide Combo, RootIndex, LinkIndex, Uniform, RootCoef, LinkCoef;
    UniformColumns(b, cv, root, link);
    UniformEntries(cv, local, 0);
    LeadCombo(b.d, RootCoefs(cv, local), RootCols(b, cv, local));
    if cv.nVirt <= local {
      LeadCombo(b.d, LinkCoefs(cv, local), LinkCols(b, cv, local));
    }
  }

  // Whatever the shape of a cluster, its nodes may have any parts.
  lemma PartsExist(cv: Cluster, root: Vec, link: Vec) returns (b: Books, c: Cluster)
    requires cv.m > 1 && Sized(cv) && Ordered(cv) && |root| == |link|
    ensures Exportable(b, c) && SameShape(c, cv) && b.d == |root|
    ensures HasParts(b, c, root, link)
  {
    var d, m := |root|, cv.m;
    var zeros := seq(m - 1, _ => Zero(d));
    b := Books(d, seq(cv.cid + 1, _ => root), zeros, seq(m - 1, l => l), [link] + zeros, seq(m, l => l));
    var ones := seq(m, _ => 1.0);
    c := cv.(coeffs := Quantised(seq(m * Nodes(cv), _ => 1), ones, ones), code0 := seq(cv.nReal, _ => 0),
             codes := seq(cv.nReal * (m - 1), _ => 0), virtCodes := seq(cv.nVirt * (m - 1), _ => 0));
    assert PartBooks(b, cv.cid, m, root, link);
    assert Uniform(c);
    UniformColumns(b, c, root, link);
    hide Covers, RootVec, LinkVec;
    forall local | 0 <= local < Nodes(c)
      ensures RootVec(b, c, local) == root && (c.nVirt <= local ==> LinkVec(b, c, local) == link)
    {
      UniformParts(b, c, root, link, local);
    }
  }

  // The three readings of an orphan are the sum of its parts, its linkage part and its root part. Its
  // exported distance is off by |root|^2 + 2 <root, link>; when that is positive the clamp can act.
  lemma OrphanMatters(b: Books, cv: Cluster, pos: nat, root: Vec, link: Vec)
    requires Exportable(b, cv) && HasParts(b, cv, root, link) && |root| == |link| == b.d
    requires cv.nRootReal <= pos < cv.nReal && cv.parent[pos] == 0
    ensures var local := cv.nVirt + pos;
      && Recon(b, cv, local, RootAndLink) == Add(root, link) && Recon(b, cv, local, LinkOnly) == link
      && Recon(b, cv, local, RootOnly) == root
      && NormGap(b, cv, local) == Norm2(root) + 2.0 * Dot(root, link)
      && (ClampDead(b, cv, pos) <==> Norm2(root) + 2.0 * Dot(root, link) <= 0.0)
  {
    hide Exportable, Covers, RootVec, LinkVec, Dot, Norm2, Add, AlwaysExact, ClampDead;
    ExportableSized(b, cv);
    GapDecides(b, cv, pos);
  }

  // ---- The exact condition ----

  lemma {:induction false} SameEnd(c: Cluster, cv: Cluster, local: nat)
    requires Sized(c) && Ordered(c) && Sized(cv) && Ordered(cv) && SameShape(c, cv) && local < Nodes(cv)
    ensures PathEnd(c, local) == PathEnd(cv, local)
    decreases local
  {
    if !IsRoot(cv, local) && cv.parent[local - cv.nVirt] != 0 {
      SameEnd(c, cv, cv.parent[local - cv.nVirt] - 1);
    }
  }

  // Without linkage parts, the path of an orphan is zero for the norms.
  lemma {:induction false} ZeroPath(b: Books, cv: Cluster, root: Vec, local: nat)
    requires Covers(b, cv) && Ordered(cv) && local < Nodes(cv) && !IsRoot(cv, PathEnd(cv, local))
    requires HasParts(b, cv, root, Zero(b.d))
    ensures Recon(b, cv, local, LinkOnly) == Zero(b.d)
    decreases local
  {
    hide LinkVec, RootVec, RootIndex, LinkIndex;
    if cv.parent[local - cv.nVirt] != 0 {
      ZeroPath(b, cv, root, cv.parent[local - cv.nVirt] - 1);
    }
  }

  function Unit(d: nat): (r: Vec)
    requires d > 0
    ensures |r| == d
  {
    [1.0] + Zero(d - 1)
  }

  // A path that ends in an orphan has a positive gap for some codebooks and codes.
  lemma GapExists(cv: Cluster, d: nat, pos: nat) returns (b: Books, c: Cluster)
    requires cv.m > 1 && Sized(cv) && Ordered(cv) && pos < cv.nReal && d > 0
    requires !IsRoot(cv, PathEnd(cv, cv.nVirt + pos))
    ensures Exportable(b, c) && SameShape(c, cv) && b.d == d && NormGap(b, c, cv.nVirt + pos) > 0.0
  {
    hide Recon, RootVec, LinkVec, Dot, Norm2, Covers, Exportable;
    b, c := PartsExist(cv, Unit(d), Zero(d));
    var local := cv.nVirt + pos;
    ExportableSized(b, c);
    SameEnd(c, cv, local);
    ZeroPath(b, c, Unit(d), local);
    assert Unit(d)[0] != Zero(d)[0];
    NormPositive(Unit(d));
    DotCommutes(Unit(d), Zero(d));
    DotZero(d, Unit(d));
  }

  // The distances of a node are exact for all codebooks, codes, coefficients and queries if and only
  // if its parent path ends in a true root.
  lemma ExactIffRooted(cv: Cluster, d: nat, pos: nat)
    requires cv.m > 1 && Sized(cv) && Ordered(cv) && pos < cv.nReal && d > 0
    ensures (forall b, c | Exportable(b, c) && SameShape(c, cv) && b.d == d :: AlwaysExact(b, c, pos))
       <==> IsRoot(cv, PathEnd(cv, cv.nVirt + pos))
  {
    hide Recon, Dot, Norm2, Sub, NormGap, ExportedDistance, Covers;
    var local := cv.nVirt + pos;
    if IsRoot(cv, PathEnd(cv, local)) {
      forall b, c | Exportable(b, c) && SameShape(c, cv) && b.d == d
        ensures AlwaysExact(b, c, pos)
      {
        RootedIsExact(b, c, cv, pos);
      }
    } else {
      var b, c := GapExists(cv, d, pos);
      GapIsInexact(b, c, pos);
    }
  }

  lemma RootedIsExact(b: Books, c: Cluster, cv: Cluster, pos: nat)
    requires Exportable(b, c) && Sized(cv) && Ordered(cv) && SameShape(c, cv) && pos < cv.nReal
    requires IsRoot(cv, PathEnd(cv, cv.nVirt + pos))
    ensures AlwaysExact(b, c, pos) && ClampDead(b, c, pos)
  {
    hide Recon, Dot, Norm2, NormGap, Covers, Exportable, Sized, AlwaysExact, ClampDead, PathEnd;
    ExportableSized(b, c);
    SameEnd(c, cv, c.nVirt + pos);
    GapOfReadings(b, c, c.nVirt + pos);
    GapDecides(b, c, pos);
  }

  lemma GapIsInexact(b: Books, c: Cluster, pos: nat)
    requires Exportable(b, c) && pos < c.nReal && NormGap(b, c, c.nVirt + pos) > 0.0
    ensures !AlwaysExact(b, c, pos) && !ClampDead(b, c, pos)
  {
    hide NormGap, Covers, Exportable, Sized, AlwaysExact, ClampDead;
    ExportableSized(b, c);
    GapDecides(b, c, pos);
  }

  // The same condition decides whether the clamp can act on a node for some base vector.
  lemma ClampDeadIffRooted(cv: Cluster, d: nat, pos: nat)
    requires cv.m > 1 && Sized(cv) && Ordered(cv) && pos < cv.nReal && d > 0
    ensures (forall b, c | Exportable(b, c) && SameShape(c, cv) && b.d == d :: ClampDead(b, c, pos))
       <==> IsRoot(cv, PathEnd(cv, cv.nVirt + pos))
  {
    hide Recon, NormGap, Norm2, NeverClamped, Covers, ClampDead;
    if IsRoot(cv, PathEnd(cv, cv.nVirt + pos)) {
      forall b, c | Exportable(b, c) && SameShape(c, cv) && b.d == d
        ensures ClampDead(b, c, pos)
      {
        RootedIsExact(b, c, cv, pos);
      }
    } else {
      var b, c := GapExists(cv, d, pos);
      GapIsInexact(b, c, pos);
    }
  }
}
