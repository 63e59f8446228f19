// Where the stored entries of a cluster lie: which code, coefficient and codebook column belongs to a
// layer of a node.
module Layout {
  import opened Vectors
  import opened Linkage

  // ---- Rows one after another ----

  function Joined<T>(rows: seq<seq<T>>): seq<T> {
    if rows == [] then [] else Joined(rows[..|rows| - 1]) + rows[|rows| - 1]
  }

  ghost predicate AllOf<T>(rows: seq<seq<T>>, count: nat, width: nat) {
    |rows| == count && forall r | 0 <= r < count :: |rows[r]| == width
  }

  lemma {:induction false} JoinedAt<T>(rows: seq<seq<T>>, width: nat, r: nat, i: nat)
    requires AllOf(rows, |rows|, width) && r < |rows| && i < width
    ensures |Joined(rows)| == |rows| * width && r * width + i < |Joined(rows)|
    ensures Joined(rows)[r * width + i] == rows[r][i]
  {
    var n := |rows| - 1;
    JoinedSize(rows[..n], width);
    assert |rows| * width == n * width + width;
    if r < n {
      JoinedAt(rows[..n], width, r, i);
    }
  }

  lemma {:induction false} JoinedSize<T>(rows: seq<seq<T>>, width: nat)
    requires AllOf(rows, |rows|, width)
    ensures |Joined(rows)| == |rows| * width
  {
    if rows != [] {
      var n := |rows| - 1;
      JoinedSize(rows[..n], width);
      assert |rows| * width == n * width + width;
    }
  }

  // ---- Codes: a row per node, virtual nodes in a table of their own ----

  ghost predicate CodeRows(cv: Cluster, rows: seq<seq<nat>>) {
    && cv.m >= 1 && AllOf(rows, Nodes(cv), cv.m - 1)
    && cv.virtCodes == Joined(rows[..cv.nVirt]) && cv.codes == Joined(rows[cv.nVirt..])
  }

  lemma CodeRead(cv: Cluster, rows: seq<seq<nat>>, local: nat, l: nat)
    requires Sized(cv) && CodeRows(cv, rows) && local < Nodes(cv) && 1 <= l < cv.m
    ensures CodeAt(cv, local, l) == rows[local][l - 1]
  {
    if local < cv.nVirt {
      JoinedAt(rows[..cv.nVirt], cv.m - 1, local, l - 1);
    } else {
      JoinedAt(rows[cv.nVirt..], cv.m - 1, local - cv.nVirt, l - 1);
    }
  }

  // ---- Coefficients: int8 codes layer by layer, plain ones node by node ----

  ghost predicate CoefLayers(cv: Cluster, layers: seq<seq<int>>) {
    cv.coeffs.Quantised? && AllOf(layers, cv.m, Nodes(cv)) && cv.coeffs.q == Joined(layers)
  }

  lemma CoefRead(cv: Cluster, layers: seq<seq<int>>, local: nat, l: nat)
    requires Sized(cv) && CoefLayers(cv, layers) && local < Nodes(cv) && l < cv.m
    ensures RootCoef(cv, l, local) == Times(cv.coeffs.scalesRoot[l], layers[l][local] as real)
    ensures LinkCoef(cv, l, local) == Times(cv.coeffs.scalesLinkage[l], layers[l][local] as real)
  {
    JoinedAt(layers, Nodes(cv), l, local);
  }

  lemma PlainRead(cv: Cluster, rows: seq<seq<real>>, local: nat, l: nat)
    requires Sized(cv) && cv.coeffs.Plain? && local < Nodes(cv) && l < cv.m && AllOf(rows, Nodes(cv), cv.m - 1)
    requires cv.coeffs.virtSmall == Joined(rows[..cv.nVirt]) && cv.coeffs.small == Joined(rows[cv.nVirt..])
    ensures RootCoef(cv, l, local) == LinkCoef(cv, l, local) ==
      if l > 0 then rows[local][l - 1]
      else if local < cv.nVirt then cv.coeffs.virtA0[local] else cv.coeffs.a0[local - cv.nVirt]
  {
    if l > 0 && local < cv.nVirt {
      JoinedAt(rows[..cv.nVirt], cv.m - 1, local, l - 1);
    } else if l > 0 {
      JoinedAt(rows[cv.nVirt..], cv.m - 1, local - cv.nVirt, l - 1);
    }
  }

  // ---- Parts ----

  // A root part: the cluster's centre and the layers' columns in the root codebooks, each times the root
  // scale of its layer and the node's code.
  lemma RootPart(b: Books, cv: Cluster, rows: seq<seq<nat>>, layers: seq<seq<int>>, local: nat, coefs: seq<real>,
                 cols: seq<Vec>)
    requires Covers(b, cv) && CodeRows(cv, rows) && CoefLayers(cv, layers) && local < Nodes(cv)
    requires |coefs| == |cols| == cv.m && cols[0] == b.root0[cv.cid]
    requires forall l | 0 <= l < cv.m :: coefs[l] == Times(cv.coeffs.scalesRoot[l], layers[l][local] as real)
    requires forall l | 1 <= l < cv.m ::
      var i := b.smallOffset[l - 1] + rows[local][l - 1];
      i < |b.small| && cols[l] == b.small[i]
    ensures Columns(cols, b.d) && RootVec(b, cv, local) == Combo(b.d, coefs, cols)
  {
    hide CodeAt, RootCoef, Combo, Joined, AllOf;
    forall l | 0 <= l < cv.m
      ensures coefs[l] == RootCoefs(cv, local)[l] && cols[l] == RootCols(b, cv, local)[l]
    {
      CoefRead(cv, layers, local, l);
      if l > 0 {
        CodeRead(cv, rows, local, l);
      }
    }
    assert coefs == RootCoefs(cv, local) && cols == RootCols(b, cv, local);
  }

  // A linkage part: the columns of all layers in the linkage codebooks, likewise with the linkage scales;
  // the code of layer 0 is stored apart.
  lemma LinkPart(b: Books, cv: Cluster, rows: seq<seq<nat>>, layers: seq<seq<int>>, pos: nat, coefs: seq<real>,
                 cols: seq<Vec>)
    requires Covers(b, cv) && CodeRows(cv, rows) && CoefLayers(cv, layers) && pos < cv.nReal
    requires |coefs| == |cols| == cv.m
    requires forall l | 0 <= l < cv.m ::
      coefs[l] == Times(cv.coeffs.scalesLinkage[l], layers[l][cv.nVirt + pos] as real)
    requires forall l | 0 <= l < cv.m ::
      var i := b.oneOffset[l] + (if l == 0 then cv.code0[pos] else rows[cv.nVirt + pos][l - 1]);
      i < |b.one| && cols[l] == b.one[i]
    ensures Columns(cols, b.d) && LinkVec(b, cv, cv.nVirt + pos) == Combo(b.d, coefs, cols)
  {
    hide CodeRows, Combo, Joined, Times, RootIndex, LinkIndex, Columns;
    LinkCoefsAre(cv, layers, pos, coefs);
    forall l | 0 <= l < cv.m
      ensures cols[l] == LinkCols(b, cv, cv.nVirt + pos)[l]
    {
      LinkColumn(b, cv, rows, pos, l);
    }
    assert cols == LinkCols(b, cv, cv.nVirt + pos);
  }

  lemma LinkCoefsAre(cv: Cluster, layers: seq<seq<int>>, pos: nat, coefs: seq<real>)
    requires Sized(cv) && CoefLayers(cv, layers) && pos < cv.nReal && |coefs| == cv.m
    requires forall l | 0 <= l < cv.m ::
      coefs[l] == Times(cv.coeffs.scalesLinkage[l], layers[l][cv.nVirt + pos] as real)
    ensures LinkCoefs(cv, cv.nVirt + pos) == coefs
  {
    hide Times, Joined, LinkCoef;
    forall l | 0 <= l < cv.m
      ensures coefs[l] == LinkCoefs(cv, cv.nVirt + pos)[l]
    {
      CoefRead(cv, layers, cv.nVirt + pos, l);
    }
  }

  lemma LinkColumn(b: Books, cv: Cluster, rows: seq<seq<nat>>, pos: nat, l: nat)
    requires Covers(b, cv) && CodeRows(cv, rows) && pos < cv.nReal && l < cv.m
    ensures LinkIndex(b, cv, l, cv.nVirt + pos)
         == b.oneOffset[l] + (if l == 0 then cv.code0[pos] else rows[cv.nVirt + pos][l - 1])
  {
    if l > 0 {
      CodeRead(cv, rows, cv.nVirt + pos, l);
    }
  }
}
