// From the quantiser to the reader: what is read for a node is its group's scale times the code stored for
// it, and the error of what is read is the error the quantiser minimised.
module StoredCoeffs {
  import opened Arith
  import opened Vectors
  import opened Linkage
  import opened ClusterCodec
  import opened Quantizer
  import CQ = ClusterQuantizer

  // The cluster holds what the quantiser returned for the input: the codes, the scales of both groups, and
  // nodes marked as linkage nodes exactly when they are read as such.
  ghost predicate HoldsQuantised(cv: Cluster, x: CQ.Input, q: seq<int>, root: seq<Stats>, linkage: seq<Stats>) {
    && CQ.Shaped(x) && CQ.GoodBits(x) && |q| == |x.a| && |root| == |linkage| == x.m
    && CQ.LayersDone(x, false, x.m, root, q) && CQ.LayersDone(x, true, x.m, linkage, q)
    && Sized(cv) && cv.m == x.m && Nodes(cv) == x.nc
    && cv.coeffs == Quantised(q, CQ.ScalesOf(root), CQ.ScalesOf(linkage))
    && forall i | 0 <= i < x.nc :: IsLinkage(x.mask, i) <==> !IsRoot(cv, i)
  }

  // The coefficient the readers use for layer l of a node.
  function ReadCoef(cv: Cluster, l: nat, local: nat): real
    requires Sized(cv) && local < Nodes(cv) && l < cv.m
  {
    if IsRoot(cv, local) then RootCoef(cv, l, local) else LinkCoef(cv, l, local)
  }

  // What is read for the k-th member of a group is the group's scale times the k-th of the codes stored for
  // it, and the member is read as one of its group.
  lemma ReadsStored(cv: Cluster, x: CQ.Input, q: seq<int>, root: seq<Stats>, linkage: seq<Stats>, isLink: bool,
                    l: nat, k: nat)
    requires HoldsQuantised(cv, x, q, root, linkage) && l < x.m && k < |Members(x.nc, x.mask, isLink)|
    ensures var idx, st := Members(x.nc, x.mask, isLink), if isLink then linkage[l] else root[l];
      var cells := Row(x.nc, idx, l);
      && Within(cells, |q|) && IsRoot(cv, idx[k]) == !isLink
      && ReadCoef(cv, l, idx[k]) == Times(st.scale, Gathered(q, cells)[k] as real)
  {
    hide CQ.LayersDone, CQ.GoodBits, CodeAt, PlainCoef, Members;
    var idx := Members(x.nc, x.mask, isLink);
    RowWithin(x.m, x.nc, idx, l);
    MemberRole(x.nc, x.mask, isLink, k);
    CellBound(x.m, x.nc, l, idx[k]);
  }

  lemma {:induction false} MemberRole(n: nat, mask: seq<nat>, linkage: bool, k: nat)
    requires k < |Members(n, mask, linkage)|
    ensures Members(n, mask, linkage)[k] < n && IsLinkage(mask, Members(n, mask, linkage)[k]) == linkage
  {
    if k < |Members(n - 1, mask, linkage)| {
      MemberRole(n - 1, mask, linkage, k);
    }
  }

  // Weighted squared error of approximations c.
  function ReadError(w: seq<real>, a: seq<real>, c: seq<real>): real
    requires |w| == |a| == |c|
  {
    if w == [] then 0.0 else
      var n := |w| - 1;
      ReadError(w[..n], a[..n], c[..n]) + Times(w[n], Times(a[n] - c[n], a[n] - c[n]))
  }

  lemma {:induction false} ErrorIsSse(w: seq<real>, a: seq<real>, q: seq<real>, s: real, c: seq<real>)
    requires |w| == |a| == |q| == |c| && forall k | 0 <= k < |c| :: c[k] == Times(s, q[k])
    ensures ReadError(w, a, c) == Sse(w, a, q, s)
  {
    hide Times;
    if w != [] {
      var n := |w| - 1;
      ErrorIsSse(w[..n], a[..n], q[..n], s, c[..n]);
    }
  }

  // The coefficients read for a group's layer, in the order of its members.
  function ReadAt(cv: Cluster, l: nat, idx: seq<nat>): (r: seq<real>)
    requires Sized(cv) && l < cv.m && Indices(idx, Nodes(cv))
    ensures |r| == |idx| && forall k | 0 <= k < |r| :: r[k] == ReadCoef(cv, l, idx[k])
  {
    seq(|idx|, k requires 0 <= k < |idx| => ReadCoef(cv, l, idx[k]))
  }

  // With a fitted scale no accepted candidate, at any scale whatsoever, approximates a group's samples of a
  // layer better than the coefficients that are read back for its members.
  lemma ReadOptimum(cv: Cluster, x: CQ.Input, q: seq<int>, root: seq<Stats>, linkage: seq<Stats>, isLink: bool,
                    l: nat, i: nat, scale: real)
    requires HoldsQuantised(cv, x, q, root, linkage) && l < x.m && x.cfg.fitScale
    requires Members(x.nc, x.mask, isLink) != [] && i < |x.candidates[l]| && CQ.BitsAt(x, l) >= 1
    requires Within(Row(x.nc, Members(x.nc, x.mask, isLink), l), |x.a|)
    requires Accepted(Samples(x, isLink, l), x.cfg, QFromBits(CQ.BitsAt(x, l)), x.candidates[l][i])
    ensures var idx, s := Members(x.nc, x.mask, isLink), Samples(x, isLink, l);
      && |s.xs| == |s.ws| == |idx| && s.xs == SamplesAt(x.a, Row(x.nc, idx, l)) && Indices(idx, Nodes(cv))
      && ReadError(s.ws, s.xs, ReadAt(cv, l, idx))
         <= Sse(s.ws, s.xs, CandidateCodes(s, x.cfg, QFromBits(CQ.BitsAt(x, l)), x.candidates[l][i]), scale)
  {
    hide Sse, Accepted, CandidateCodes, Prepare, WeightsAt, LayerResult, ReadError, ReadCoef, Times, SamplesAt;
    var idx, s := Members(x.nc, x.mask, isLink), Samples(x, isLink, l);
    var st := if isLink then linkage[l] else root[l];
    var cells := Row(x.nc, idx, l);
    PrepareKeeps(SamplesAt(x.a, cells), Weights(x, isLink, l));
    assert CQ.LayerDone(x, isLink, l, st, q);
    LayerOptimum(s, x.cfg, QFromBits(CQ.BitsAt(x, l)), x.candidates[l], st, Gathered(q, cells), i, scale);
    forall k | 0 <= k < |idx|
      ensures ReadAt(cv, l, idx)[k] == Times(st.scale, Reals(Gathered(q, cells))[k])
    {
      ReadsStored(cv, x, q, root, linkage, isLink, l, k);
    }
    ErrorIsSse(s.ws, s.xs, Reals(Gathered(q, cells)), st.scale, ReadAt(cv, l, idx));
  }

  // The samples and weights of a group's layer.
  function Weights(x: CQ.Input, isLink: bool, l: nat): (r: seq<real>)
    requires CQ.Shaped(x) && l < x.m && Within(Row(x.nc, Members(x.nc, x.mask, isLink), l), |x.a|)
    ensures |r| == |Members(x.nc, x.mask, isLink)|
  {
    WeightsAt(x.cfg, l, x.codes, Row(x.nc, Members(x.nc, x.mask, isLink), l),
              if isLink then x.linkageNorms else x.rootNorms)
  }

  function Samples(x: CQ.Input, isLink: bool, l: nat): (s: Quantizer.Samples)
    requires CQ.Shaped(x) && l < x.m && Within(Row(x.nc, Members(x.nc, x.mask, isLink), l), |x.a|)
    ensures |s.xs| == |s.ws| == |s.sorted| == |s.cumw| == |Members(x.nc, x.mask, isLink)|
  {
    Prepare(SamplesAt(x.a, Row(x.nc, Members(x.nc, x.mask, isLink), l)), Weights(x, isLink, l))
  }
}
