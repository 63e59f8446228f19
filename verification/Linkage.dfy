// A cluster: virtual roots, real roots, then linkage nodes that each refine a parent. The vector
// of a node is the sum of contributions along its parent path.
module Linkage {
  import opened Arith
  import opened Vectors

  // Codebooks by flat column; smallOffset[l - 1] and oneOffset[l] start layer l.
  datatype Books = Books(d: nat, root0: seq<Vec>, small: seq<Vec>, smallOffset: seq<nat>,
                         one: seq<Vec>, oneOffset: seq<nat>)

  // Either int8 codes with per-layer scales (layer-major), or plain coefficients.
  datatype Coeffs =
    | Quantised(q: seq<int>, scalesRoot: seq<real>, scalesLinkage: seq<real>)
    | Plain(a0: seq<real>, small: seq<real>, virtA0: seq<real>, virtSmall: seq<real>)

  // Locals 0..nVirt are virtual roots; local nVirt + pos is the real node at pos. Parents are
  // 1-based locals, 0 for none, and matter from pos nRootReal on.
  datatype Cluster = Cluster(cid: nat, m: nat, nVirt: nat, nReal: nat, nRootReal: nat, coeffs: Coeffs,
                             codes: seq<nat>, code0: seq<nat>, virtCodes: seq<nat>, parent: seq<nat>)

  function Nodes(cv: Cluster): nat {
    cv.nVirt + cv.nReal
  }

  predicate IsRoot(cv: Cluster, local: nat) {
    local < cv.nVirt + cv.nRootReal
  }

  predicate Sized(cv: Cluster) {
    && cv.m >= 1 && cv.nRootReal <= cv.nReal
    && |cv.parent| == |cv.code0| == cv.nReal
    && |cv.codes| == cv.nReal * (cv.m - 1) && |cv.virtCodes| == cv.nVirt * (cv.m - 1)
    && match cv.coeffs
       case Quantised(q, sr, sl) => |q| == cv.m * Nodes(cv) && |sr| == |sl| == cv.m
       case Plain(a0, small, va0, vsmall) =>
         && |a0| == cv.nReal && |small| == cv.nReal * (cv.m - 1)
         && |va0| == cv.nVirt && |vsmall| == cv.nVirt * (cv.m - 1)
  }

  // Parents come before their children.
  predicate Ordered(cv: Cluster)
    requires Sized(cv)
  {
    forall pos | cv.nRootReal <= pos < cv.nReal :: cv.parent[pos] <= cv.nVirt + pos
  }

  // ---- Stored entries ----

  function CodeAt(cv: Cluster, local: nat, l: nat): nat
    requires Sized(cv) && local < Nodes(cv) && 1 <= l < cv.m
  {
    if local < cv.nVirt then
      CellBound(cv.nVirt, cv.m - 1, local, l - 1);
      cv.virtCodes[local * (cv.m - 1) + (l - 1)]
    else
      CellBound(cv.nReal, cv.m - 1, local - cv.nVirt, l - 1);
      cv.codes[(local - cv.nVirt) * (cv.m - 1) + (l - 1)]
  }

  function RootCoef(cv: Cluster, l: nat, local: nat): real
    requires Sized(cv) && local < Nodes(cv) && l < cv.m
  {
    match cv.coeffs
    case Quantised(q, sr, _) =>
      CellBound(cv.m, Nodes(cv), l, local);
      sr[l] * (q[l * Nodes(cv) + local] as real)
    case Plain(_, _, _, _) => PlainCoef(cv, l, local)
  }

  function LinkCoef(cv: Cluster, l: nat, local: nat): real
    requires Sized(cv) && local < Nodes(cv) && l < cv.m
  {
    match cv.coeffs
    case Quantised(q, _, sl) =>
      CellBound(cv.m, Nodes(cv), l, local);
      sl[l] * (q[l * Nodes(cv) + local] as real)
    case Plain(_, _, _, _) => PlainCoef(cv, l, local)
  }

  function PlainCoef(cv: Cluster, l: nat, local: nat): real
    requires Sized(cv) && cv.coeffs.Plain? && local < Nodes(cv) && l < cv.m
  {
    if local < cv.nVirt then
      if l == 0 then cv.coeffs.virtA0[local]
      else
        CellBound(cv.nVirt, cv.m - 1, local, l - 1);
        cv.coeffs.virtSmall[local * (cv.m - 1) + (l - 1)]
    else
      if l == 0 then cv.coeffs.a0[local - cv.nVirt]
      else
        CellBound(cv.nReal, cv.m - 1, local - cv.nVirt, l - 1);
        cv.coeffs.small[(local - cv.nVirt) * (cv.m - 1) + (l - 1)]
  }

  // Flat column of layer l: for l >= 1 in `small` on a root, in `one` on a linkage node.
  function RootIndex(b: Books, cv: Cluster, l: nat, local: nat): nat
    requires Sized(cv) && |b.smallOffset| == cv.m - 1 && local < Nodes(cv) && 1 <= l < cv.m
  {
    b.smallOffset[l - 1] + CodeAt(cv, local, l)
  }

  function LinkIndex(b: Books, cv: Cluster, l: nat, local: nat): nat
    requires Sized(cv) && |b.oneOffset| == cv.m && cv.nVirt <= local < Nodes(cv) && l < cv.m
  {
    b.oneOffset[l] + (if l == 0 then cv.code0[local - cv.nVirt] else CodeAt(cv, local, l))
  }

  // The codebooks cover every stored code.
  ghost predicate Covers(b: Books, cv: Cluster) {
    && Sized(cv) && |b.smallOffset| == cv.m - 1 && |b.oneOffset| == cv.m && cv.cid < |b.root0|
    && Columns(b.root0, b.d) && Columns(b.small, b.d) && Columns(b.one, b.d)
    && (forall l, local | 1 <= l < cv.m && 0 <= local < Nodes(cv) :: RootIndex(b, cv, l, local) < |b.small|)
    && (forall l, local | 0 <= l < cv.m && cv.nVirt <= local < Nodes(cv) :: LinkIndex(b, cv, l, local) < |b.one|)
  }

  // ---- Contributions ----

  function RootCoefs(cv: Cluster, local: nat): (r: seq<real>)
    requires Sized(cv) && local < Nodes(cv)
    ensures |r| == cv.m && forall l | 0 <= l < cv.m :: r[l] == RootCoef(cv, l, local)
  {
    seq(cv.m, l requires 0 <= l < cv.m => RootCoef(cv, l, local))
  }

  function RootCols(b: Books, cv: Cluster, local: nat): (r: seq<Vec>)
    requires Covers(b, cv) && local < Nodes(cv)
    ensures |r| == cv.m && Columns(r, b.d)
    ensures r[0] == b.root0[cv.cid] && forall l | 1 <= l < cv.m :: r[l] == b.small[RootIndex(b, cv, l, local)]
  {
    seq(cv.m, l requires 0 <= l < cv.m => if l == 0 then b.root0[cv.cid] else b.small[RootIndex(b, cv, l, local)])
  }

  function LinkCoefs(cv: Cluster, local: nat): (r: seq<real>)
    requires Sized(cv) && local < Nodes(cv)
    ensures |r| == cv.m && forall l | 0 <= l < cv.m :: r[l] == LinkCoef(cv, l, local)
  {
    seq(cv.m, l requires 0 <= l < cv.m => LinkCoef(cv, l, local))
  }

  function LinkCols(b: Books, cv: Cluster, local: nat): (r: seq<Vec>)
    requires Covers(b, cv) && cv.nVirt <= local < Nodes(cv)
    ensures |r| == cv.m && Columns(r, b.d)
    ensures forall l | 0 <= l < cv.m :: r[l] == b.one[LinkIndex(b, cv, l, local)]
  {
    seq(cv.m, l requires 0 <= l < cv.m => b.one[LinkIndex(b, cv, l, local)])
  }

  function RootVec(b: Books, cv: Cluster, local: nat): (r: Vec)
    requires Covers(b, cv) && local < Nodes(cv)
    ensures |r| == b.d
  {
    Combo(b.d, RootCoefs(cv, local), RootCols(b, cv, local))
  }

  function LinkVec(b: Books, cv: Cluster, local: nat): (r: Vec)
    requires Covers(b, cv) && cv.nVirt <= local < Nodes(cv)
    ensures |r| == b.d
  {
    Combo(b.d, LinkCoefs(cv, local), LinkCols(b, cv, local))
  }

  // ---- Reconstruction ----

  // A linkage node without a parent (1-based parent 0) is read in three ways by the source:
  // as a root and a linkage node at once (export, self dot), as its linkage part alone (norms),
  // and as a root alone (the per-cluster DP).
  datatype Orphan = RootAndLink | LinkOnly | RootOnly

  function OrphanVec(b: Books, cv: Cluster, local: nat, o: Orphan): (r: Vec)
    requires Covers(b, cv) && cv.nVirt <= local < Nodes(cv)
    ensures |r| == b.d
  {
    match o
    case RootAndLink => Add(RootVec(b, cv, local), LinkVec(b, cv, local))
    case LinkOnly => LinkVec(b, cv, local)
    case RootOnly => RootVec(b, cv, local)
  }

  function Recon(b: Books, cv: Cluster, local: nat, o: Orphan): (r: Vec)
    requires Covers(b, cv) && Ordered(cv) && local < Nodes(cv)
    ensures |r| == b.d
    decreases local
  {
    if IsRoot(cv, local) then RootVec(b, cv, local)
    else if cv.parent[local - cv.nVirt] == 0 then OrphanVec(b, cv, local, o)
    else Add(Recon(b, cv, cv.parent[local - cv.nVirt] - 1, o), LinkVec(b, cv, local))
  }

  // The last node on the parent path.
  function PathEnd(cv: Cluster, local: nat): (e: nat)
    requires Sized(cv) && Ordered(cv) && local < Nodes(cv)
    ensures e <= local && (IsRoot(cv, e) || cv.parent[e - cv.nVirt] == 0)
    decreases local
  {
    if IsRoot(cv, local) || cv.parent[local - cv.nVirt] == 0 then local
    else PathEnd(cv, cv.parent[local - cv.nVirt] - 1)
  }

  // How far two readings differ: only in what they make of an orphan at the end of the path.
  lemma {:induction false} ReadingsDiffer(b: Books, cv: Cluster, local: nat, o: Orphan, o': Orphan)
    requires Covers(b, cv) && Ordered(cv) && local < Nodes(cv)
    ensures var e := PathEnd(cv, local);
      Sub(Recon(b, cv, local, o), Recon(b, cv, local, o'))
        == if IsRoot(cv, e) then Zero(b.d) else Sub(OrphanVec(b, cv, e, o), OrphanVec(b, cv, e, o'))
    decreases local
  {
    hide RootVec, LinkVec, Add, Sub, OrphanVec;
    if !IsRoot(cv, local) && cv.parent[local - cv.nVirt] != 0 {
      var p := cv.parent[local - cv.nVirt] - 1;
      ReadingsDiffer(b, cv, p, o, o');
      SubCancels(Recon(b, cv, p, o), Recon(b, cv, p, o'), LinkVec(b, cv, local));
    } else if IsRoot(cv, local) {
      SubZero(RootVec(b, cv, local), RootVec(b, cv, local));
    }
  }

  // The readings agree on a node exactly when its path ends in a true root, or the orphan at its
  // end is read alike.
  lemma ReadingsAgreeIff(b: Books, cv: Cluster, local: nat, o: Orphan, o': Orphan)
    requires Covers(b, cv) && Ordered(cv) && local < Nodes(cv)
    ensures var e := PathEnd(cv, local);
      Recon(b, cv, local, o) == Recon(b, cv, local, o') <==>
        (IsRoot(cv, e) || OrphanVec(b, cv, e, o) == OrphanVec(b, cv, e, o'))
  {
    ReadingsDiffer(b, cv, local, o, o');
    var e := PathEnd(cv, local);
    SubZero(Recon(b, cv, local, o), Recon(b, cv, local, o'));
    if !IsRoot(cv, e) {
      SubZero(OrphanVec(b, cv, e, o), OrphanVec(b, cv, e, o'));
    }
  }

  lemma SubZero(a: Vec, b: Vec)
    requires |a| == |b|
    ensures Sub(a, b) == Zero(|a|) <==> a == b
  {
    if Sub(a, b) == Zero(|a|) {
      forall i | 0 <= i < |a|
        ensures a[i] == b[i]
      {
        assert Sub(a, b)[i] == Zero(|a|)[i];
      }
    }
  }
}
