// Path reconstruction, the table-based inner product and the ADC distance of a real node.
module QueryAdc {
  import opened Vectors
  import opened Linkage

  // dst += alpha * src.
  method AddScaledVector(alpha: real, src: Vec, dst: array<real>)
    requires |src| == dst.Length
    modifies dst
    ensures dst[..] == Add(old(dst[..]), Scale(alpha, src))
  {
    ghost var goal := Add(dst[..], Scale(alpha, src));
    for r := 0 to dst.Length
      invariant forall i | 0 <= i < r :: dst[i] == goal[i]
      invariant forall i | r <= i < dst.Length :: dst[i] == old(dst[i])
    {
      dst[r] := dst[r] + alpha * src[r];
    }
  }

  // The nodes of the parent path in walking order: everything above the end, then the end itself,
  // which an orphan occupies twice (once as the end, once as a linkage node).
  function Path(cv: Cluster, local: nat): (r: seq<nat>)
    requires Sized(cv) && Ordered(cv) && local < Nodes(cv)
    ensures forall k | 0 <= k < |r| :: cv.nVirt <= r[k] < Nodes(cv)
    decreases local
  {
    if IsRoot(cv, local) then []
    else if cv.parent[local - cv.nVirt] == 0 then [local]
    else [local] + Path(cv, cv.parent[local - cv.nVirt] - 1)
  }

  lemma PathStep(cv: Cluster, local: nat)
    requires Sized(cv) && Ordered(cv) && local < Nodes(cv)
    ensures IsRoot(cv, local) ==> Path(cv, local) == [] && PathEnd(cv, local) == local
    ensures !IsRoot(cv, local) ==>
      var p := cv.parent[local - cv.nVirt];
      && p <= local
      && (p == 0 ==> Path(cv, local) == [local] && PathEnd(cv, local) == local)
      && (p > 0 ==> Path(cv, local) == [local] + Path(cv, p - 1) && PathEnd(cv, local) == PathEnd(cv, p - 1))
  {
  }

  // The path in terms of the stored parents, which are local numbers plus one: every node but the last
  // names the next one; the last one names the end, a true root, or no parent and is the end itself.
  ghost predicate ParentChain(cv: Cluster, s: seq<nat>, local: nat, e: nat) {
    && (forall k | 0 <= k < |s| - 1 :: Names(cv, s[k], s[k + 1] + 1))
    && if s == [] then e == local < cv.nVirt + cv.nRootReal
       else
         && s[0] == local
         && if e < cv.nVirt + cv.nRootReal then Names(cv, s[|s| - 1], e + 1)
            else e == s[|s| - 1] && Names(cv, e, 0)
  }

  // The stored parent of a linkage node.
  ghost predicate Names(cv: Cluster, local: nat, parent: nat) {
    cv.nVirt + cv.nRootReal <= local < cv.nVirt + |cv.parent| && cv.parent[local - cv.nVirt] == parent
  }

  lemma {:induction false} PathMeans(cv: Cluster, local: nat)
    requires Sized(cv) && Ordered(cv) && local < Nodes(cv)
    ensures ParentChain(cv, Path(cv, local), local, PathEnd(cv, local))
    decreases local
  {
    hide Path, PathEnd, ParentChain;
    PathStep(cv, local);
    if !IsRoot(cv, local) && cv.parent[local - cv.nVirt] > 0 {
      var p := cv.parent[local - cv.nVirt] - 1;
      PathMeans(cv, p);
      LongerChain(cv, Path(cv, p), local, p, PathEnd(cv, p));
    } else {
      ShortChain(cv, local);
    }
  }

  lemma ShortChain(cv: Cluster, local: nat)
    requires Sized(cv) && local < Nodes(cv)
    ensures IsRoot(cv, local) ==> ParentChain(cv, [], local, local)
    ensures !IsRoot(cv, local) && cv.parent[local - cv.nVirt] == 0 ==> ParentChain(cv, [local], local, local)
  {
  }

  lemma LongerChain(cv: Cluster, s: seq<nat>, local: nat, p: nat, e: nat)
    requires Names(cv, local, p + 1) && ParentChain(cv, s, p, e)
    ensures ParentChain(cv, [local] + s, local, e)
  {
    hide Names;
    var longer := [local] + s;
    forall k | 0 <= k < |longer| - 1
      ensures Names(cv, longer[k], longer[k + 1] + 1)
    {
      assert k > 0 ==> longer[k] == s[k - 1] && longer[k + 1] == s[k];
    }
    assert s == [] ==> longer == [local];
  }

  lemma Reassociate(a: seq<nat>, x: nat, b: seq<nat>)
    ensures a + ([x] + b) == a + [x] + b
  {
  }

  // The walk both methods share: pushes the linkage nodes and stops at the end of the path.
  method CollectPath(cv: Cluster, start: nat) returns (stack: seq<nat>, end: nat)
    requires Sized(cv) && Ordered(cv) && start < Nodes(cv)
    ensures stack == Path(cv, start) && end == PathEnd(cv, start)
  {
    hide Path, PathEnd;
    stack := [];
    assert stack + Path(cv, start) == Path(cv, start);
    var local: nat := start;
    while true
      invariant local < Nodes(cv) && stack + Path(cv, local) == Path(cv, start)
      invariant PathEnd(cv, local) == PathEnd(cv, start)
      decreases local
    {
      PathStep(cv, local);
      if local < cv.nVirt {
        break;
      }
      var pos := local - cv.nVirt;
      if pos < cv.nRootReal {
        break;
      }
      ghost var before := stack;
      stack := stack + [local];
      var p1 := cv.parent[pos];
      if p1 == 0 {
        end := local;
        return;
      }
      Reassociate(before, local, Path(cv, p1 - 1));
      local := p1 - 1;
    }
    end := local;
  }

  // The end of the path as a root, then the linkage parts from the top of the stack down.
  function Unwound(b: Books, cv: Cluster, end: nat, stack: seq<nat>): (r: Vec)
    requires Covers(b, cv) && end < Nodes(cv) && forall k | 0 <= k < |stack| :: cv.nVirt <= stack[k] < Nodes(cv)
    ensures |r| == b.d
  {
    if stack == [] then RootVec(b, cv, end)
    else Add(Unwound(b, cv, end, stack[1..]), LinkVec(b, cv, stack[0]))
  }

  // Unwinding the stack rebuilds the recursive reconstruction.
  lemma {:induction false} UnwoundIsRecon(b: Books, cv: Cluster, local: nat)
    requires Covers(b, cv) && Ordered(cv) && local < Nodes(cv)
    ensures Unwound(b, cv, PathEnd(cv, local), Path(cv, local)) == Recon(b, cv, local, RootAndLink)
    decreases local
  {
    hide RootVec, LinkVec;
    var s := Path(cv, local);
    if !IsRoot(cv, local) {
      var p := cv.parent[local - cv.nVirt];
      if p == 0 {
        assert s[1..] == [];
      } else {
        assert s[1..] == Path(cv, p - 1);
        UnwoundIsRecon(b, cv, p - 1);
      }
    }
  }

  lemma ComboTake(d: nat, b: seq<real>, cols: seq<Vec>, n: nat)
    requires |b| == |cols| && Columns(cols, d) && n < |b|
    ensures Combo(d, b[..n + 1], cols[..n + 1]) == Add(Combo(d, b[..n], cols[..n]), Scale(b[n], cols[n]))
    ensures Combo(d, b[..0], cols[..0]) == Zero(d)
  {
    assert b[..n + 1] == b[..n] + [b[n]] && cols[..n + 1] == cols[..n] + [cols[n]];
    ComboSnoc(d, b[..n], cols[..n], b[n], cols[n]);
  }

  lemma AddAssociates(x: Vec, y: Vec, z: Vec)
    requires |x| == |y| == |z|
    ensures Add(Add(x, y), z) == Add(x, Add(y, z))
    ensures Add(x, Zero(|x|)) == x
  {
  }

  // Adds a combination to dst column by column.
  method AddCombo(d: nat, coefs: seq<real>, cols: seq<Vec>, dst: array<real>)
    requires |coefs| == |cols| && Columns(cols, d) && dst.Length == d
    modifies dst
    ensures dst[..] == Add(old(dst[..]), Combo(d, coefs, cols))
  {
    hide Combo, Add, Scale;
    ghost var start := dst[..];
    ComboNone(d, coefs, cols);
    AddAssociates(start, start, start);
    for l := 0 to |coefs|
      invariant dst[..] == Add(start, Combo(d, coefs[..l], cols[..l]))
    {
      ComboTake(d, coefs, cols, l);
      AddAssociates(start, Combo(d, coefs[..l], cols[..l]), Scale(coefs[l], cols[l]));
      AddScaledVector(coefs[l], cols[l], dst);
    }
    assert coefs[..|coefs|] == coefs && cols[..|cols|] == cols;
  }

  lemma ComboNone(d: nat, coefs: seq<real>, cols: seq<Vec>)
    requires |coefs| == |cols| && Columns(cols, d)
    ensures Combo(d, coefs[..0], cols[..0]) == Zero(d)
  {
  }

  // False for a position out of range; otherwise xhat becomes the reconstruction.
  method ReconstructRealNode(b: Books, cv: Cluster, localPos: int) returns (ok: bool, xhat: array<real>)
    requires Covers(b, cv) && Ordered(cv)
    ensures fresh(xhat) && (ok <==> 0 <= localPos < cv.nReal)
    ensures ok ==> xhat[..] == Recon(b, cv, cv.nVirt + localPos, RootAndLink)
  {
    hide RootCoef, LinkCoef, RootIndex, LinkIndex, Combo;
    if localPos < 0 || localPos >= cv.nReal {
      xhat := new real[0];
      return false, xhat;
    }
    var local := cv.nVirt + localPos;
    var stack, end := CollectPath(cv, local);
    ghost var path := stack;
    xhat := new real[b.d](_ => 0.0);
    assert xhat[..] == Zero(b.d);
    AddCombo(b.d, RootCoefs(cv, end), RootCols(b, cv, end), xhat);
    assert Add(Zero(b.d), RootVec(b, cv, end)) == RootVec(b, cv, end);
    var n := |stack|;
    assert path[n..] == [];
    while n > 0
      invariant n <= |path| && fresh(xhat) && xhat.Length == b.d
      invariant xhat[..] == Unwound(b, cv, end, path[n..])
    {
      n := n - 1;
      var child := stack[n];
      AddCombo(b.d, LinkCoefs(cv, child), LinkCols(b, cv, child), xhat);
      assert path[n..][1..] == path[n + 1..] && path[n..][0] == child;
    }
    assert path[0..] == path;
    UnwoundIsRecon(b, cv, local);
    ok := true;
  }

  // The query's inner products with every codebook column.
  datatype QueryTables = QueryTables(root0: seq<real>, small: seq<real>, one: seq<real>)

  function Tables(b: Books, q: Vec): (t: QueryTables)
    requires Columns(b.root0, |q|) && Columns(b.small, |q|) && Columns(b.one, |q|)
    ensures t.root0 == Dots(b.root0, q) && t.small == Dots(b.small, q) && t.one == Dots(b.one, q)
  {
    QueryTables(Dots(b.root0, q), Dots(b.small, q), Dots(b.one, q))
  }

  method RootDot(b: Books, cv: Cluster, local: nat, t: QueryTables, ghost q: Vec) returns (dot: real)
    requires Covers(b, cv) && local < Nodes(cv) && |q| == b.d && t == Tables(b, q)
    ensures dot == Dot(RootVec(b, cv, local), q)
  {
    hide Dot, Weighted, Combo, RootCoef, LinkIndex, Times;
    ghost var coefs, dots := RootCoefs(cv, local), Dots(RootCols(b, cv, local), q);
    WeightedEmpty(coefs, dots);
    Accumulate(coefs, dots, 0, 0.0, t.root0[cv.cid]);
    dot := Times(RootCoef(cv, 0, local), t.root0[cv.cid]);
    for l := 1 to cv.m
      invariant dot == Weighted(coefs[..l], dots[..l])
    {
      Accumulate(coefs, dots, l, dot, t.small[RootIndex(b, cv, l, local)]);
      dot := dot + Times(RootCoef(cv, l, local), t.small[RootIndex(b, cv, l, local)]);
    }
    assert coefs[..cv.m] == coefs && dots[..cv.m] == dots;
    DotCombo(b.d, coefs, RootCols(b, cv, local), q);
  }

  method LinkDot(b: Books, cv: Cluster, local: nat, t: QueryTables, ghost q: Vec) returns (dot: real)
    requires Covers(b, cv) && cv.nVirt <= local < Nodes(cv) && |q| == b.d && t == Tables(b, q)
    ensures dot == Dot(LinkVec(b, cv, local), q)
  {
    hide Dot, Weighted, Combo, LinkCoef, RootIndex, Times;
    ghost var coefs, dots := LinkCoefs(cv, local), Dots(LinkCols(b, cv, local), q);
    WeightedEmpty(coefs, dots);
    dot := 0.0;
    for l := 0 to cv.m
      invariant dot == Weighted(coefs[..l], dots[..l])
    {
      Accumulate(coefs, dots, l, dot, t.one[LinkIndex(b, cv, l, local)]);
      dot := dot + Times(LinkCoef(cv, l, local), t.one[LinkIndex(b, cv, l, local)]);
    }
    assert coefs[..cv.m] == coefs && dots[..cv.m] == dots;
    DotCombo(b.d, coefs, LinkCols(b, cv, local), q);
  }

  datatype Maybe = NaN | Value(x: real)

  // NaN for a position out of range or fewer than two layers.
  method DotHatRealByPath(b: Books, cv: Cluster, localPos: int, t: QueryTables, ghost q: Vec) returns (r: Maybe)
    requires Covers(b, cv) && Ordered(cv) && |q| == b.d && t == Tables(b, q)
    ensures r.NaN? <==> localPos < 0 || localPos >= cv.nReal || cv.m <= 1
    ensures r.Value? ==> r.x == Dot(Recon(b, cv, cv.nVirt + localPos, RootAndLink), q)
  {
    hide Dot, RootVec, LinkVec, RootIndex, LinkIndex, Tables;
    if localPos < 0 || localPos >= cv.nReal || cv.m <= 1 {
      return NaN;
    }
    var local := cv.nVirt + localPos;
    var stack, end := CollectPath(cv, local);
    var dot := RootDot(b, cv, end, t, q);
    var n := |stack|;
    assert stack[n..] == [];
    while n > 0
      invariant n <= |stack| && dot == Dot(Unwound(b, cv, end, stack[n..]), q)
    {
      n := n - 1;
      var part := LinkDot(b, cv, stack[n], t, q);
      assert stack[n..][1..] == stack[n + 1..] && stack[n..][0] == stack[n];
      DotAdd(Unwound(b, cv, end, stack[n + 1..]), LinkVec(b, cv, stack[n]), q);
      dot := dot + part;
    }
    assert stack[0..] == stack;
    UnwoundIsRecon(b, cv, local);
    r := Value(dot);
  }

  // ComputeSelfDotInt8: the same inner product, accumulated on the way up.
  method ComputeSelfDot(b: Books, cv: Cluster, pos: nat, x: Vec) returns (dot: real)
    requires Covers(b, cv) && Ordered(cv) && pos < cv.nReal && |x| == b.d
    ensures dot == Dot(Recon(b, cv, cv.nVirt + pos, RootAndLink), x)
  {
    hide Dot, RootVec, LinkVec, RootIndex, LinkIndex;
    var t := Tables(b, x);
    dot := 0.0;
    var local: nat := cv.nVirt + pos;
    ghost var goal := Dot(Recon(b, cv, local, RootAndLink), x);
    while true
      invariant local < Nodes(cv) && dot + Dot(Recon(b, cv, local, RootAndLink), x) == goal
      decreases local
    {
      if local < cv.nVirt || local - cv.nVirt < cv.nRootReal {
        var part := RootDot(b, cv, local, t, x);
        return dot + part;
      }
      var inc := LinkDot(b, cv, local, t, x);
      var p1 := cv.parent[local - cv.nVirt];
      UpStep(b, cv, local, x);
      dot := dot + inc;
      if p1 == 0 {
        var part := RootDot(b, cv, local, t, x);
        return dot + part;
      }
      local := p1 - 1;
    }
  }

  lemma UpStep(b: Books, cv: Cluster, local: nat, x: Vec)
    requires Covers(b, cv) && Ordered(cv) && local < Nodes(cv) && !IsRoot(cv, local) && |x| == b.d
    ensures var p := cv.parent[local - cv.nVirt];
      p <= local &&
      Dot(Recon(b, cv, local, RootAndLink), x) == Dot(LinkVec(b, cv, local), x)
        + Dot(if p == 0 then RootVec(b, cv, local) else Recon(b, cv, p - 1, RootAndLink), x)
  {
    hide Dot, RootVec, LinkVec;
    var p := cv.parent[local - cv.nVirt];
    DotAdd(if p == 0 then RootVec(b, cv, local) else Recon(b, cv, p - 1, RootAndLink), LinkVec(b, cv, local), x);
  }

  // ---- Distances ----

  function AdcDistance(qNorm2: real, normHat: real, dotHat: real): real {
    qNorm2 + normHat - 2.0 * dotHat
  }

  // With the exact norm, the ADC formula is the squared distance to the reconstruction.
  lemma AdcIsDistance(q: Vec, xhat: Vec)
    requires |q| == |xhat|
    ensures AdcDistance(Norm2(q), Norm2(xhat), Dot(xhat, q)) == Norm2(Sub(q, xhat))
  {
    DistanceIdentity(q, xhat);
    DotCommutes(q, xhat);
  }

  // A stored norm off by e moves the distance by e, no matter the query.
  lemma AdcError(q: Vec, xhat: Vec, normHat: real)
    requires |q| == |xhat|
    ensures AdcDistance(Norm2(q), normHat, Dot(xhat, q)) - Norm2(Sub(q, xhat)) == normHat - Norm2(xhat)
  {
    AdcIsDistance(q, xhat);
  }

  // ---- An orphan at the end of the path ----

  // The root part that the norms leave out: the orphan's at the end of the path, if there is one.
  function OrphanRoot(b: Books, cv: Cluster, local: nat): (r: Vec)
    requires Covers(b, cv) && Ordered(cv) && local < Nodes(cv)
    ensures |r| == b.d
  {
    var e := PathEnd(cv, local);
    if IsRoot(cv, e) then Zero(b.d) else RootVec(b, cv, e)
  }

  // By how much the squared norm of the walked vector exceeds the one the norm provider computes.
  function NormGap(b: Books, cv: Cluster, local: nat): real
    requires Covers(b, cv) && Ordered(cv) && local < Nodes(cv)
  {
    var r := OrphanRoot(b, cv, local);
    Norm2(r) + 2.0 * Dot(r, Recon(b, cv, local, LinkOnly))
  }

  lemma SubRestores(x: Vec, y: Vec, d: Vec)
    requires |x| == |y| == |d| && Sub(x, y) == d
    ensures x == Add(y, d)
  {
    forall i | 0 <= i < |x|
      ensures x[i] == Add(y, d)[i]
    {
      assert Sub(x, y)[i] == d[i];
    }
  }

  lemma SubOfSum(x: Vec, y: Vec)
    requires |x| == |y|
    ensures Sub(Add(x, y), y) == x
  {
  }

  lemma GapOfReadings(b: Books, cv: Cluster, local: nat)
    requires Covers(b, cv) && Ordered(cv) && local < Nodes(cv)
    ensures Recon(b, cv, local, RootAndLink) == Add(Recon(b, cv, local, LinkOnly), OrphanRoot(b, cv, local))
    ensures Norm2(Recon(b, cv, local, RootAndLink)) == Norm2(Recon(b, cv, local, LinkOnly)) + NormGap(b, cv, local)
    ensures IsRoot(cv, PathEnd(cv, local)) ==> NormGap(b, cv, local) == 0.0
  {
    hide Dot, Norm2, Recon, RootVec, LinkVec, Add, Sub;
    var e, r := PathEnd(cv, local), OrphanRoot(b, cv, local);
    var x, y := Recon(b, cv, local, RootAndLink), Recon(b, cv, local, LinkOnly);
    ReadingsDiffer(b, cv, local, RootAndLink, LinkOnly);
    if IsRoot(cv, e) {
      DotZero(b.d, y);
      NormOfZero(b.d);
    } else {
      SubOfSum(RootVec(b, cv, e), LinkVec(b, cv, e));
    }
    SubRestores(x, y, r);
    NormOfSum(y, r);
  }

  lemma NormOfZero(d: nat)
    ensures Norm2(Zero(d)) == 0.0
  {
    DotZero(d, Zero(d));
  }

  // The exported distance of a real node: its norm comes from the norm provider, its inner product
  // from the path walk.
  function ExportedDistance(b: Books, cv: Cluster, pos: nat, q: Vec): real
    requires Covers(b, cv) && Ordered(cv) && pos < cv.nReal && |q| == b.d
  {
    var local := cv.nVirt + pos;
    AdcDistance(Norm2(q), Norm2(Recon(b, cv, local, LinkOnly)), Dot(Recon(b, cv, local, RootAndLink), q))
  }

  // It misses the true distance to the reconstruction by the gap, for every query: by nothing when
  // the path ends in a true root.
  lemma AdcOfNode(b: Books, cv: Cluster, pos: nat, q: Vec)
    requires Covers(b, cv) && Ordered(cv) && pos < cv.nReal && |q| == b.d
    ensures var local := cv.nVirt + pos;
      var exact := Norm2(Sub(q, Recon(b, cv, local, RootAndLink)));
      && ExportedDistance(b, cv, pos, q) == exact - NormGap(b, cv, local)
      && (IsRoot(cv, PathEnd(cv, local)) ==> ExportedDistance(b, cv, pos, q) == exact)
  {
    hide Dot, Norm2, Recon, Sub, NormGap;
    var local := cv.nVirt + pos;
    AdcError(q, Recon(b, cv, local, RootAndLink), Norm2(Recon(b, cv, local, LinkOnly)));
    GapOfReadings(b, cv, local);
  }

  // ---- The clamp on squared errors ----

  // The raw squared error, before negative results are clamped.
  function SseRaw(xNorm: real, rNorm2: real, dot: real): real {
    xNorm + rNorm2 - 2.0 * dot
  }

  // No vector of the base makes the clamp act.
  ghost predicate NeverClamped(xhat: Vec, n: real) {
    forall x: Vec | |x| == |xhat| :: SseRaw(Norm2(x), n, Dot(xhat, x)) >= 0.0
  }

  // With a norm n the raw error can be negative exactly when n is below the true norm; with the norm
  // computed from the stored vector itself it is the squared distance.
  lemma ClampIff(xhat: Vec, n: real)
    ensures NeverClamped(xhat, n) <==> n >= Norm2(xhat)
    ensures forall x: Vec | |x| == |xhat| :: SseRaw(Norm2(x), Norm2(xhat), Dot(xhat, x)) == Norm2(Sub(x, xhat)) >= 0.0
  {
    hide Dot, Sub;
    forall x: Vec | |x| == |xhat|
      ensures SseRaw(Norm2(x), Norm2(xhat), Dot(xhat, x)) == Norm2(Sub(x, xhat)) >= 0.0
    {
      AdcIsDistance(x, xhat);
      NormNonNegative(Sub(x, xhat));
    }
    if NeverClamped(xhat, n) {
      assert SseRaw(Norm2(xhat), n, Dot(xhat, xhat)) >= 0.0;
    }
  }

  // Where the self distance finds a node's norm: as computed, by a table of centres, or nowhere.
  datatype NormStore =
    | Computed(norms: seq<real>)
    | Table(codes: seq<nat>, centers: seq<real>)
    | NoNorms

  predicate StoresAll(s: NormStore, n: nat) {
    match s
    case Computed(norms) => |norms| == n
    case Table(codes, centers) => |codes| == n && forall i | 0 <= i < n :: codes[i] < |centers|
    case NoNorms => true
  }

  function ReadSelfNorm2(s: NormStore, n: nat, pos: nat): real
    requires StoresAll(s, n) && pos < n
  {
    match s
    case Computed(norms) => norms[pos]
    case Table(codes, centers) => centers[codes[pos]]
    case NoNorms => 0.0
  }

  // The error of a real node takes its inner product from the walk and its norm from storage. The
  // clamp never acts exactly when the stored norm reaches the true one; for the norm the provider
  // computes, when the gap is not positive; without norms, only for the zero vector.
  lemma ClampOfNode(b: Books, cv: Cluster, pos: nat, s: NormStore)
    requires Covers(b, cv) && Ordered(cv) && pos < cv.nReal && StoresAll(s, cv.nReal)
    ensures var local := cv.nVirt + pos;
      var xhat, n := Recon(b, cv, local, RootAndLink), ReadSelfNorm2(s, cv.nReal, pos);
      && (NeverClamped(xhat, n) <==> n >= Norm2(xhat))
      && (n == Norm2(Recon(b, cv, local, LinkOnly)) ==> (NeverClamped(xhat, n) <==> NormGap(b, cv, local) <= 0.0))
      && (s.NoNorms? ==> (NeverClamped(xhat, n) <==> xhat == Zero(b.d)))
  {
    hide Recon, NormGap, Norm2, NeverClamped, Dot, Sub, Add, OrphanRoot, Covers, PathEnd;
    var local := cv.nVirt + pos;
    var xhat := Recon(b, cv, local, RootAndLink);
    ClampIff(xhat, ReadSelfNorm2(s, cv.nReal, pos));
    GapOfReadings(b, cv, local);
    NormPositive(xhat);
  }

  lemma NormHead(a: Vec)
    requires a != []
    ensures Norm2(a) == Times(a[0], a[0]) + Norm2(a[1..])
  {
  }

  lemma {:induction false} NormPositive(a: Vec)
    ensures Norm2(a) >= 0.0
    ensures a != Zero(|a|) ==> Norm2(a) > 0.0
    ensures a == Zero(|a|) ==> Norm2(a) == 0.0
  {
    hide Norm2, Times;
    if a == Zero(|a|) {
      NormOfZero(|a|);
    } else {
      NormPositive(a[1..]);
      SquarePositive(a[0]);
      NormHead(a);
      if a[0] == 0.0 {
        assert a == [a[0]] + a[1..] && Zero(|a|) == [0.0] + Zero(|a| - 1);
      }
    }
  }
}
