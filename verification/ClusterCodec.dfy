// Lossless coding of a cluster's int8 coefficient matrix, split into a root group and a linkage
// group and coded per cluster or per layer.
module ClusterCodec {
  import opened Arith
  import opened BitIo
  import opened HuffmanForest
  import opened HuffmanLengths
  import opened CanonicalCode
  import opened CanonicalDecode
  import opened CanonicalModel

  datatype Granularity = AllLayers | PerLayer

  datatype HuffmanConfig = HuffmanConfig(alphabetSize: int, granularity: Granularity)

  datatype Error =
    | InvalidDims | QSizeMismatch | ScaleSizeMismatch | QuantiseError
    | ModelError(error: BuildError) | WriteError(w: WriteResult)

  // models are never changed once their tables are built, so sharing stands for copying.
  datatype Group = Group(models: seq<HuffmanCanonicalModel>, serialized: seq<seq<nat>>,
                         payloads: seq<seq<nat>>, numSymbols: seq<nat>)

  const EMPTY_GROUP: Group := Group([], [], [], [])

  // The payloads as bit streams.
  function Streams(payloads: seq<seq<nat>>): (r: seq<seq<bool>>)
    ensures |r| == |payloads| && forall i | 0 <= i < |r| :: r[i] == BitsOf(payloads[i])
  {
    seq(|payloads|, i requires 0 <= i < |payloads| => BitsOf(payloads[i]))
  }

  datatype Compressed = Compressed(clusterId: nat, nInCluster: nat, nRoot: nat, nLinkage: nat,
                                   scaleRoot: seq<real>, scaleLinkage: seq<real>, root: Group, linkage: Group)

  datatype Result = Ok(comp: Compressed) | Err(error: Error)

  // ---- Symbols ----

  function QFromBits(bits: int): int
    requires bits >= 1
  {
    Pow2(bits - 1) - 1
  }

  function QMax(bitsPerLayer: seq<int>): nat
    requires forall i | 0 <= i < |bitsPerLayer| :: bitsPerLayer[i] >= 1
  {
    if bitsPerLayer == [] then 0
    else Max(QMax(bitsPerLayer[..|bitsPerLayer| - 1]), QFromBits(bitsPerLayer[|bitsPerLayer| - 1]))
  }

  function AlphabetSize(cfg: HuffmanConfig, qmax: nat): nat {
    if cfg.alphabetSize > 0 then cfg.alphabetSize else 2 * qmax + 1
  }

  function EncoderBase(size: nat, qmax: nat): nat {
    if size == 256 then 128 else qmax
  }

  // The base DecodeClusterCoeffs recomputes from the model's alphabet.
  function DecoderBase(size: nat): nat {
    if size == 256 then 128 else size / 2
  }

  // The bits per layer are defined shifts, and the alphabet has a 16-bit size.
  ghost predicate Configured(bitsPerLayer: seq<int>, cfg: HuffmanConfig) {
    && (forall k | 0 <= k < |bitsPerLayer| :: 1 <= bitsPerLayer[k] <= 31)
    && 0 < AlphabetSize(cfg, QMax(bitsPerLayer)) < TWO_16
  }

  // The alphabet and the base the encoder codes with.
  function SizeOf(bitsPerLayer: seq<int>, cfg: HuffmanConfig): (size: nat)
    requires Configured(bitsPerLayer, cfg)
    ensures 0 < size < TWO_16
  {
    AlphabetSize(cfg, QMax(bitsPerLayer))
  }

  function BaseOf(bitsPerLayer: seq<int>, cfg: HuffmanConfig): nat
    requires Configured(bitsPerLayer, cfg)
  {
    EncoderBase(SizeOf(bitsPerLayer, cfg), QMax(bitsPerLayer))
  }

  function SymFromQ(q: int, base: nat): int {
    q + base
  }

  // Conversion to int8 keeps the low eight bits.
  function Int8(x: int): int {
    (x + 128) % 256 - 128
  }

  function QFromSym(sym: nat, base: nat): int {
    Int8(sym - base)
  }

  ghost predicate Int8s(q: seq<int>) {
    forall p | 0 <= p < |q| :: -128 <= q[p] <= 127
  }

  // The letters are the symbols that int8 codes have in the alphabet: LetterCount of them, from
  // FirstLetter on.
  function FirstLetter(base: nat): nat {
    if base <= 128 then 0 else base - 128
  }

  function LetterCount(base: nat, size: nat): (n: nat)
    ensures n <= size && n <= 256
  {
    var end := Min(size, base + 128);
    if FirstLetter(base) < end then end - FirstLetter(base) else 0
  }

  lemma LettersAre(base: nat, size: nat, s: int)
    ensures 0 <= s < size && -128 <= s - base <= 127
       <==> FirstLetter(base) <= s < FirstLetter(base) + LetterCount(base, size)
  {
  }

  // A layer of n bits has 2^n - 1 codes, as many above zero as below.
  lemma CodesOfBits(bits: int)
    requires bits >= 1
    ensures 2 * QFromBits(bits) + 1 == Pow2(bits) - 1 && QFromBits(8) == 127
  {
    assert Pow2(7) == 128;
  }

  // Without a configured size the alphabet holds exactly the codes of the widest layer, and of 256 it
  // holds exactly the int8 values. With any other size symbol 0 is the lowest code of the widest layer.
  lemma AlphabetHolds(q: int, bitsPerLayer: seq<int>, cfg: HuffmanConfig)
    requires Configured(bitsPerLayer, cfg)
    ensures var sym := SymFromQ(q, BaseOf(bitsPerLayer, cfg));
      && (cfg.alphabetSize <= 0 ==>
            (0 <= sym < SizeOf(bitsPerLayer, cfg)
             <==> q == 0 || exists k :: 0 <= k < |bitsPerLayer| && Max(q, -q) < Pow2(bitsPerLayer[k] - 1)))
      && (cfg.alphabetSize == 256 ==> (0 <= sym < SizeOf(bitsPerLayer, cfg) <==> -128 <= q <= 127))
      && (cfg.alphabetSize > 0 ==> SizeOf(bitsPerLayer, cfg) == cfg.alphabetSize)
      && (cfg.alphabetSize > 0 && cfg.alphabetSize != 256 ==> sym == q + QMax(bitsPerLayer))
  {
    QMaxReached(bitsPerLayer, q);
  }

  // The largest code is that of some layer.
  lemma {:induction false} QMaxReached(bitsPerLayer: seq<int>, q: int)
    requires forall k | 0 <= k < |bitsPerLayer| :: bitsPerLayer[k] >= 1
    ensures Max(q, -q) <= QMax(bitsPerLayer)
       <==> q == 0 || exists k :: 0 <= k < |bitsPerLayer| && Max(q, -q) < Pow2(bitsPerLayer[k] - 1)
  {
    hide Max, QFromBits;
    MaxSign(q);
    if bitsPerLayer != [] {
      var n := |bitsPerLayer| - 1;
      QMaxReached(bitsPerLayer[..n], q);
      QMaxLast(bitsPerLayer, Max(q, -q));
      if exists k :: 0 <= k < |bitsPerLayer| && Max(q, -q) < Pow2(bitsPerLayer[k] - 1) {
        var k :| 0 <= k < |bitsPerLayer| && Max(q, -q) < Pow2(bitsPerLayer[k] - 1);
        assert k < n ==> bitsPerLayer[..n][k] == bitsPerLayer[k];
      }
    }
  }

  lemma MaxSign(q: int)
    ensures Max(q, -q) >= 0 && (Max(q, -q) == 0 <==> q == 0)
  {
  }

  lemma QMaxLast(bits: seq<int>, x: int)
    requires bits != [] && forall k | 0 <= k < |bits| :: bits[k] >= 1
    ensures x <= QMax(bits) <==> x <= QMax(bits[..|bits| - 1]) || x < Pow2(bits[|bits| - 1] - 1)
  {
  }

  // ---- Groups and cells ----

  predicate IsLinkage(mask: seq<nat>, i: nat) {
    i < |mask| && mask[i] != 0
  }

  function Members(n: nat, mask: seq<nat>, linkage: bool): (r: seq<nat>)
    ensures forall k | 0 <= k < |r| :: r[k] < n
    ensures |r| <= n
  {
    if n == 0 then []
    else Members(n - 1, mask, linkage) + (if IsLinkage(mask, n - 1) == linkage then [n - 1] else [])
  }

  lemma {:induction false} MembersCover(n: nat, mask: seq<nat>, i: nat)
    requires i < n
    ensures i in Members(n, mask, false) || i in Members(n, mask, true)
  {
    if i < n - 1 {
      MembersCover(n - 1, mask, i);
    }
  }

  // One layer's cells of a group, in coding order; then those of the first l layers.
  function Row(nc: nat, idx: seq<nat>, l: nat): (r: seq<nat>)
    ensures |r| == |idx|
    ensures forall k | 0 <= k < |r| :: r[k] == Cell(nc, l, idx[k])
  {
    seq(|idx|, k requires 0 <= k < |idx| => Cell(nc, l, idx[k]))
  }

  function Cells(nc: nat, idx: seq<nat>, l: nat): (r: seq<nat>)
  {
    if l == 0 then [] else Cells(nc, idx, l - 1) + Row(nc, idx, l - 1)
  }

  ghost predicate Within(cells: seq<nat>, n: nat) {
    forall k | 0 <= k < |cells| :: cells[k] < n
  }

  ghost predicate Indices(idx: seq<nat>, nc: nat) {
    forall k | 0 <= k < |idx| :: idx[k] < nc
  }

  lemma RowWithin(m: nat, nc: nat, idx: seq<nat>, l: nat)
    requires l < m && Indices(idx, nc)
    ensures Within(Row(nc, idx, l), m * nc)
  {
    forall k | 0 <= k < |idx|
      ensures Cell(nc, l, idx[k]) < m * nc
    {
      CellBound(m, nc, l, idx[k]);
    }
  }

  lemma {:induction false} CellsWithin(m: nat, nc: nat, idx: seq<nat>, l: nat)
    requires l <= m && Indices(idx, nc)
    ensures Within(Cells(nc, idx, l), m * nc) && |Cells(nc, idx, l)| == l * |idx|
  {
    if l > 0 {
      CellsWithin(m, nc, idx, l - 1);
      RowWithin(m, nc, idx, l - 1);
      assert l * |idx| == (l - 1) * |idx| + |idx|;
    }
  }

  lemma {:induction false} CellsHold(nc: nat, idx: seq<nat>, m: nat, l: nat, k: nat)
    requires l < m && k < |idx|
    ensures Cell(nc, l, idx[k]) in Cells(nc, idx, m)
  {
    if l == m - 1 {
      assert Row(nc, idx, l)[k] in Row(nc, idx, l);
    } else {
      CellsHold(nc, idx, m - 1, l, k);
    }
  }

  // Every coefficient belongs to a cell of one of the two groups.
  lemma {:induction false} CellsCover(nc: nat, mask: seq<nat>, m: nat, p: nat)
    requires p < m * nc
    ensures p in Cells(nc, Members(nc, mask, false), m) || p in Cells(nc, Members(nc, mask, true), m)
  {
    assert m * nc == (m - 1) * nc + nc;
    if p < (m - 1) * nc {
      CellsCover(nc, mask, m - 1, p);
    } else {
      var i := p - (m - 1) * nc;
      MembersCover(nc, mask, i);
      var idx := Members(nc, mask, i !in Members(nc, mask, false));
      var k :| 0 <= k < |idx| && idx[k] == i;
      CellsHold(nc, idx, m, m - 1, k);
    }
  }

  // ---- Symbol lists ----

  ghost predicate Codable(q: seq<int>, base: nat, size: nat) {
    forall p | 0 <= p < |q| :: 0 <= SymFromQ(q[p], base) < size
  }

  function SymAt(q: seq<int>, c: nat, base: nat): nat {
    if c < |q| && SymFromQ(q[c], base) >= 0 then SymFromQ(q[c], base) else 0
  }

  function SymsAt(q: seq<int>, cells: seq<nat>, base: nat): (r: seq<nat>)
    ensures |r| == |cells| && forall k | 0 <= k < |cells| :: r[k] == SymAt(q, cells[k], base)
  {
    seq(|cells|, k requires 0 <= k < |cells| => SymAt(q, cells[k], base))
  }

  // The stream of a group holds layer after layer, and in each layer its members in order.
  lemma {:induction false} StreamOrder(q: seq<int>, nc: nat, idx: seq<nat>, m: nat, l: nat, k: nat, base: nat)
    requires l < m && k < |idx| && Within(Cells(nc, idx, m), |q|)
    requires l * nc + idx[k] < |q| && q[l * nc + idx[k]] + base >= 0
    ensures var syms := SymsAt(q, Cells(nc, idx, m), base);
      |syms| == m * |idx| && l * |idx| + k < |syms| && syms[l * |idx| + k] == q[l * nc + idx[k]] + base
  {
    CellsOrder(nc, idx, m, l, k);
  }

  lemma {:induction false} CellsOrder(nc: nat, idx: seq<nat>, m: nat, l: nat, k: nat)
    requires l < m && k < |idx|
    ensures |Cells(nc, idx, m)| == m * |idx| && l * |idx| + k < m * |idx|
    ensures Cells(nc, idx, m)[l * |idx| + k] == l * nc + idx[k]
  {
    CellsSize(nc, idx, m - 1);
    assert m * |idx| == (m - 1) * |idx| + |idx|;
    if l < m - 1 {
      CellsOrder(nc, idx, m - 1, l, k);
    } else {
      assert Row(nc, idx, l)[k] == Cell(nc, l, idx[k]);
    }
  }

  lemma {:induction false} CellsSize(nc: nat, idx: seq<nat>, m: nat)
    ensures |Cells(nc, idx, m)| == m * |idx|
  {
    if m > 0 {
      CellsSize(nc, idx, m - 1);
      assert m * |idx| == (m - 1) * |idx| + |idx|;
    }
  }

  lemma SymsConcat(q: seq<int>, a: seq<nat>, b: seq<nat>, base: nat)
    ensures SymsAt(q, a + b, base) == SymsAt(q, a, base) + SymsAt(q, b, base)
  {
  }

  function Occurs(syms: seq<nat>, s: nat): (n: nat)
    ensures n <= |syms|
  {
    if syms == [] then 0
    else Occurs(syms[..|syms| - 1], s) + (if syms[|syms| - 1] == s then 1 else 0)
  }

  // The frequency table after counting the list with 32-bit counters.
  function Histogram(syms: seq<nat>, size: nat): (f: seq<nat>)
    ensures |f| == size && forall s | 0 <= s < size :: f[s] == Low32(Occurs(syms, s))
  {
    seq(size, s requires 0 <= s => Low32(Occurs(syms, s)))
  }

  // Entry s counts the occurrences of s, in 32 bits.
  lemma HistogramCounts(syms: seq<nat>, size: nat, s: nat)
    requires s < size
    ensures Histogram(syms, size)[s] == multiset(syms)[s] % 0x1_0000_0000
  {
    OccursCounts(syms, s);
    Low32IsMod(Occurs(syms, s));
  }

  lemma {:induction false} OccursCounts(syms: seq<nat>, s: nat)
    ensures Occurs(syms, s) == multiset(syms)[s]
  {
    if syms != [] {
      var n := |syms| - 1;
      OccursCounts(syms[..n], s);
      assert syms == syms[..n] + [syms[n]];
    }
  }

  lemma HistogramStep(syms: seq<nat>, s: nat, size: nat)
    requires s < size
    ensures Histogram(syms + [s], size) == Histogram(syms, size)[s := Low32(Histogram(syms, size)[s] + 1)]
  {
    assert (syms + [s])[..|syms|] == syms;
    Low32Add(Occurs(syms, s), 1);
  }

  lemma {:induction false} TotalUpdate(f: seq<nat>, s: nat, x: nat)
    requires s < |f|
    ensures Total(f[s := x]) + f[s] == Total(f) + x
  {
    var n := |f| - 1;
    if s < n {
      TotalUpdate(f[..n], s, x);
      assert f[s := x][..n] == f[..n][s := x];
    } else {
      assert f[s := x][..n] == f[..n];
    }
  }

  lemma {:induction false} TotalZeros(n: nat)
    ensures Total(Zeros(n)) == 0
  {
    if n > 0 {
      TotalZeros(n - 1);
      assert Zeros(n)[..n - 1] == Zeros(n - 1);
    }
  }

  lemma {:induction false} HistogramTotal(syms: seq<nat>, size: nat)
    requires |syms| < TWO_32 && forall k | 0 <= k < |syms| :: syms[k] < size
    ensures Total(Histogram(syms, size)) == |syms|
  {
    if syms == [] {
      assert Histogram(syms, size) == Zeros(size);
      TotalZeros(size);
    } else {
      var n := |syms| - 1;
      var s := syms[n];
      HistogramTotal(syms[..n], size);
      HistogramStep(syms[..n], s, size);
      assert syms == syms[..n] + [s];
      TotalUpdate(Histogram(syms[..n], size), s, Histogram(syms[..n], size)[s] + 1);
    }
  }

  lemma {:induction false} OccursPositive(syms: seq<nat>, k: nat)
    requires k < |syms|
    ensures Occurs(syms, syms[k]) > 0
  {
    if k < |syms| - 1 {
      OccursPositive(syms[..|syms| - 1], k);
    }
  }

  // ---- What a coded symbol list satisfies ----

  ghost predicate Listed(syms: seq<nat>, size: nat) {
    0 < |syms| < TWO_32 && 0 < size < TWO_16 && forall k | 0 <= k < |syms| :: syms[k] < size
  }

  function TableOf(syms: seq<nat>, size: nat): seq<nat> {
    CodeLengths(Histogram(syms, size))
  }

  lemma UsedCountPositive(f: seq<nat>, s: nat)
    requires s < |f| && f[s] > 0
    ensures UsedCount(f) >= 1
    decreases |f|
  {
    if s < |f| - 1 {
      UsedCountPositive(f[..|f| - 1], s);
    }
  }

  // The table built from a non-empty list is never empty, and every listed symbol has a code.
  lemma ListedTable(syms: seq<nat>, size: nat)
    requires Listed(syms, size)
    ensures var len := TableOf(syms, size);
      && |len| == size && KraftLe(len) && MaxLen(len) > 0
      && forall k | 0 <= k < |syms| :: len[syms[k]] > 0
  {
    var f := Histogram(syms, size);
    assert Coded(f) == f;
    HistogramTotal(syms, size);
    ShallowTables(f);
    forall k | 0 <= k < |syms|
      ensures f[syms[k]] > 0 && TableOf(syms, size)[syms[k]] > 0
    {
      OccursPositive(syms, k);
      UsedIffCoded(f, syms[k]);
    }
    UsedCountPositive(f, syms[0]);
    TableIsKraft(f);
  }

  lemma {:induction false} UsedWithin(f: seq<nat>, lo: nat, n: nat)
    requires forall s | 0 <= s < |f| && f[s] > 0 :: lo <= s < lo + n
    ensures UsedCount(f) <= n && (|f| <= lo + n ==> UsedCount(f) <= if |f| <= lo then 0 else |f| - lo)
  {
    if f != [] {
      UsedWithin(f[..|f| - 1], lo, n);
    }
  }

  // A stream of int8 codes uses letters only.
  lemma LettersUsed(q: seq<int>, cells: seq<nat>, base: nat, size: nat)
    requires Int8s(q) && Codable(q, base, size) && Within(cells, |q|)
    ensures UsedCount(Histogram(SymsAt(q, cells, base), size)) <= LetterCount(base, size)
  {
    hide UsedCount, LetterCount, FirstLetter;
    var syms := SymsAt(q, cells, base);
    var f := Histogram(syms, size);
    forall s | 0 <= s < size && f[s] > 0
      ensures FirstLetter(base) <= s < FirstLetter(base) + LetterCount(base, size)
    {
      OccursListed(syms, s);
      var k :| 0 <= k < |syms| && syms[k] == s;
      assert s == q[cells[k]] + base;
      LettersAre(base, size, s);
    }
    UsedWithin(f, FirstLetter(base), LetterCount(base, size));
  }

  // Fewer than Fib(34) symbols, or at most 32 different ones, never need more than 31 bits each.
  lemma ShortListTable(syms: seq<nat>, size: nat)
    requires Listed(syms, size) && (UsedCount(Histogram(syms, size)) <= 32 || |syms| < FIB_34)
    ensures MaxLen(TableOf(syms, size)) <= 31
  {
    hide CodeLengths, Histogram, UsedCount;
    var f := Histogram(syms, size);
    assert Coded(f) == f;
    HistogramTotal(syms, size);
    ListedTable(syms, size);
    var s := MaxLenAttained(TableOf(syms, size));
    if UsedCount(f) <= 32 {
      FewCodesAreShort(f, s);
    } else {
      ShortCodes(f, s);
    }
  }

  // Fewer than Fib(35) symbols, or at most 33 different ones, never need more than the 32 bits that
  // WriteBits accepts.
  lemma WritableListTable(syms: seq<nat>, size: nat)
    requires Listed(syms, size) && (UsedCount(Histogram(syms, size)) <= 33 || |syms| < FIB_35)
    ensures MaxLen(TableOf(syms, size)) <= 32
  {
    hide CodeLengths, Histogram, UsedCount, Fib;
    var f, n := Histogram(syms, size), 2;
    assert Coded(f) == f;
    HistogramTotal(syms, size);
    ListedTable(syms, size);
    var s := MaxLenAttained(TableOf(syms, size));
    if UsedCount(f) <= 33 {
      FewCodesAreShort(f, s);
    } else if TableOf(syms, size)[s] >= 33 {
      if UsedCount(f) >= 2 {
        DepthBound(f, s);
        FibAt34(n);
        FibMono(n + 33, TableOf(syms, size)[s] + 2);
      } else {
        FewCodesAreShort(f, s);
      }
    }
  }

  lemma {:induction false} OccursListed(syms: seq<nat>, s: nat)
    requires Occurs(syms, s) > 0
    ensures s in syms
  {
    var n := |syms| - 1;
    if syms[n] != s {
      OccursListed(syms[..n], s);
    }
  }

  // Only listed symbols have codes, so the longest code is a listed symbol's.
  lemma LongestIsListed(syms: seq<nat>, size: nat) returns (k: nat)
    requires Listed(syms, size)
    ensures |TableOf(syms, size)| == size && k < |syms| && TableOf(syms, size)[syms[k]] == MaxLen(TableOf(syms, size))
  {
    var f := Histogram(syms, size);
    assert Coded(f) == f;
    HistogramTotal(syms, size);
    ShallowTables(f);
    ListedTable(syms, size);
    var s := MaxLenAttained(TableOf(syms, size));
    UsedIffCoded(f, s);
    OccursListed(syms, s);
    k :| 0 <= k < |syms| && syms[k] == s;
  }

  // A payload that carries the list decodes to the list.
  lemma ListDecodes(syms: seq<nat>, size: nat, payload: seq<bool>)
    requires Listed(syms, size) && MaxLen(TableOf(syms, size)) <= 31
    requires |TableOf(syms, size)| == size && Encode(TableOf(syms, size), syms) <= payload
    ensures DecodeMany(TableOf(syms, size), payload, |syms|)
         == Symbols(syms, |Encode(TableOf(syms, size), syms)|)
  {
    var len := TableOf(syms, size);
    ListedTable(syms, size);
    var pad := payload[|Encode(len, syms)|..];
    assert payload == Encode(len, syms) + pad;
    StreamRoundTrip(len, syms, pad);
  }

  // The streams whose codes WriteBits accepts: none longer than 32 bits.
  ghost predicate StreamFits(q: seq<int>, cells: seq<nat>, base: nat, size: nat) {
    MaxLen(TableOf(SymsAt(q, cells, base), size)) <= 32
  }

  ghost predicate LayersFit(q: seq<int>, m: nat, nc: nat, idx: seq<nat>, base: nat, size: nat) {
    forall l | 0 <= l < m :: StreamFits(q, Row(nc, idx, l), base, size)
  }

  ghost predicate GroupFits(q: seq<int>, m: nat, nc: nat, idx: seq<nat>, base: nat, size: nat,
                            granularity: Granularity)
  {
    idx == [] ||
    if granularity == AllLayers then StreamFits(q, Cells(nc, idx, m), base, size)
    else LayersFit(q, m, nc, idx, base, size)
  }

  ghost predicate ClusterFits(q: seq<int>, m: nat, nc: nat, mask: seq<nat>, base: nat, size: nat, g: Granularity) {
    && GroupFits(q, m, nc, Members(nc, mask, false), base, size, g)
    && GroupFits(q, m, nc, Members(nc, mask, true), base, size, g)
  }

  // ---- Writing decoded symbols back ----

  function Scatter(out: seq<int>, cells: seq<nat>, syms: seq<nat>, base: nat): (r: seq<int>)
    requires |cells| == |syms| && Within(cells, |out|)
    ensures |r| == |out|
  {
    if cells == [] then out
    else
      var n := |cells| - 1;
      Scatter(out, cells[..n], syms[..n], base)[cells[n] := QFromSym(syms[n], base)]
  }

  // What a cell holds after coding with one base and decoding with another.
  function Shifted(q: int, base: nat, base': nat): int {
    Int8(q + base - base')
  }

  lemma {:induction false} ScatterGathered(out: seq<int>, q: seq<int>, cells: seq<nat>, base: nat, base': nat, p: nat)
    requires |out| == |q| && p < |q|
    requires Within(cells, |q|) && forall k | 0 <= k < |q| :: SymFromQ(q[k], base) >= 0
    ensures Scatter(out, cells, SymsAt(q, cells, base), base')[p]
         == if p in cells then Shifted(q[p], base, base') else out[p]
  {
    if cells != [] {
      var n := |cells| - 1;
      ScatterGathered(out, q, cells[..n], base, base', p);
      assert SymsAt(q, cells, base)[..n] == SymsAt(q, cells[..n], base);
      assert cells == cells[..n] + [cells[n]];
    }
  }

  // ---- Decoding a group, on values ----

  datatype Outcome = Matrix(q: seq<int>) | Truncated

  function DecodedAt(out: seq<int>, len: seq<nat>, payload: seq<bool>, cells: seq<nat>): (r: Outcome)
    requires Within(cells, |out|)
    ensures r.Matrix? ==> |r.q| == |out|
  {
    RepeatSize(Reader(len, payload), MaxLen(len), |cells|);
    match DecodeMany(len, payload, |cells|)
    case Symbols(syms, _) => Matrix(Scatter(out, cells, syms, DecoderBase(|len|)))
    case Exhausted => Truncated
  }

  lemma {:induction false} RepeatSize(next: nat -> Decoded, skip: nat, n: nat)
    ensures Repeat(next, skip, n).Symbols? ==> |Repeat(next, skip, n).syms| == n
  {
    if n > 0 {
      RepeatSize(next, skip, n - 1);
    }
  }

  function LayersDecoded(out: seq<int>, lens: seq<seq<nat>>, payloads: seq<seq<bool>>, nc: nat, idx: seq<nat>,
                         l: nat): (r: Outcome)
    requires l <= |lens| && l <= |payloads| && forall j | 0 <= j < l :: Within(Row(nc, idx, j), |out|)
    ensures r.Matrix? ==> |r.q| == |out|
  {
    if l == 0 then Matrix(out)
    else
      match LayersDecoded(out, lens, payloads, nc, idx, l - 1)
      case Truncated => Truncated
      case Matrix(q) => DecodedAt(q, lens[l - 1], payloads[l - 1], Row(nc, idx, l - 1))
  }

  // decode_group: one payload covers all layers, several cover one layer each.
  function GroupDecoded(out: seq<int>, lens: seq<seq<nat>>, payloads: seq<seq<bool>>, m: nat, nc: nat,
                        idx: seq<nat>): (r: Outcome)
    requires |out| == m * nc && Indices(idx, nc) && (|payloads| > 1 ==> |lens| >= m && |payloads| >= m)
    ensures r.Matrix? ==> |r.q| == |out|
  {
    CellsWithin(m, nc, idx, m);
    RowsWithin(m, nc, idx);
    if idx == [] || payloads == [] || lens == [] then Matrix(out)
    else if |payloads| == 1 then DecodedAt(out, lens[0], payloads[0], Cells(nc, idx, m))
    else LayersDecoded(out, lens, payloads, nc, idx, m)
  }

  lemma RowsWithin(m: nat, nc: nat, idx: seq<nat>)
    requires Indices(idx, nc)
    ensures forall l | 0 <= l < m :: Within(Row(nc, idx, l), m * nc)
  {
    forall l | 0 <= l < m
      ensures Within(Row(nc, idx, l), m * nc)
    {
      RowWithin(m, nc, idx, l);
    }
  }

  // ---- The round trip ----

  // The model is the one built from the list, and the payload starts with the coded list.
  ghost predicate Carries(len: seq<nat>, payload: seq<bool>, syms: seq<nat>, size: nat) {
    Listed(syms, size) && len == TableOf(syms, size) && |len| == size && Encode(len, syms) <= payload
  }

  ghost predicate GroupCarries(lens: seq<seq<nat>>, payloads: seq<seq<bool>>, q: seq<int>, m: nat, nc: nat,
                               idx: seq<nat>, base: nat, size: nat, granularity: Granularity)
  {
    if idx == [] then lens == [] && payloads == []
    else if granularity == AllLayers then
      |lens| == |payloads| == 1 && Carries(lens[0], payloads[0], SymsAt(q, Cells(nc, idx, m), base), size)
    else
      |lens| == |payloads| == m
      && forall l | 0 <= l < m :: Carries(lens[l], payloads[l], SymsAt(q, Row(nc, idx, l), base), size)
  }

  // The cells hold q displaced by the difference of the bases; everything else is as in out.
  ghost predicate Restored(d: Outcome, out: seq<int>, q: seq<int>, cells: seq<nat>, base: nat, base': nat) {
    && d.Matrix? && |d.q| == |q| == |out|
    && forall p | 0 <= p < |q| :: d.q[p] == if p in cells then Shifted(q[p], base, base') else out[p]
  }

  ghost predicate ShortModels(lens: seq<seq<nat>>) {
    forall i | 0 <= i < |lens| :: MaxLen(lens[i]) <= 31
  }

  lemma CellsDecode(out: seq<int>, q: seq<int>, len: seq<nat>, payload: seq<bool>, cells: seq<nat>, base: nat,
                    size: nat)
    requires |out| == |q| && Within(cells, |q|) && Codable(q, base, size)
    requires Carries(len, payload, SymsAt(q, cells, base), size) && MaxLen(len) <= 31
    ensures Restored(DecodedAt(out, len, payload, cells), out, q, cells, base, DecoderBase(size))
  {
    var syms := SymsAt(q, cells, base);
    ListDecodes(syms, size, payload);
    forall p | 0 <= p < |q|
      ensures Scatter(out, cells, syms, DecoderBase(size))[p]
           == if p in cells then Shifted(q[p], base, DecoderBase(size)) else out[p]
    {
      ScatterGathered(out, q, cells, base, DecoderBase(size), p);
    }
  }

  lemma NothingRestored(out: seq<int>, q: seq<int>, base: nat, base': nat)
    requires |out| == |q|
    ensures Restored(Matrix(out), out, q, [], base, base')
  {
  }

  lemma RestoredIsMatrix(d: Outcome, out: seq<int>, q: seq<int>, cells: seq<nat>, base: nat, base': nat)
    requires Restored(d, out, q, cells, base, base')
    ensures d.Matrix? && |d.q| == |q| == |out|
  {
  }

  lemma RestoredNext(d: Outcome, done: Outcome, out: seq<int>, q: seq<int>, cells: seq<nat>, row: seq<nat>,
                     base: nat, base': nat)
    requires Restored(done, out, q, cells, base, base') && Restored(d, done.q, q, row, base, base')
    ensures Restored(d, out, q, cells + row, base, base')
  {
    hide Shifted;
  }

  lemma {:induction false} LayersRoundTrip(out: seq<int>, q: seq<int>, lens: seq<seq<nat>>, payloads: seq<seq<bool>>,
                                           m: nat, nc: nat, idx: seq<nat>, base: nat, size: nat, l: nat)
    requires l <= m == |lens| == |payloads| && |out| == |q| == m * nc && Indices(idx, nc)
    requires forall j | 0 <= j < m :: Within(Row(nc, idx, j), m * nc)
    requires Codable(q, base, size) && ShortModels(lens)
    requires forall j | 0 <= j < m :: Carries(lens[j], payloads[j], SymsAt(q, Row(nc, idx, j), base), size)
    ensures Restored(LayersDecoded(out, lens, payloads, nc, idx, l), out, q, Cells(nc, idx, l), base, DecoderBase(size))
  {
    hide Carries, Shifted, Codable, SymsAt, DecodedAt, Row, DecoderBase, Restored;
    if l == 0 {
      NothingRestored(out, q, base, DecoderBase(size));
    } else {
      LayersRoundTrip(out, q, lens, payloads, m, nc, idx, base, size, l - 1);
      var done := LayersDecoded(out, lens, payloads, nc, idx, l - 1);
      RestoredIsMatrix(done, out, q, Cells(nc, idx, l - 1), base, DecoderBase(size));
      CellsDecode(done.q, q, lens[l - 1], payloads[l - 1], Row(nc, idx, l - 1), base, size);
      RestoredNext(DecodedAt(done.q, lens[l - 1], payloads[l - 1], Row(nc, idx, l - 1)), done, out, q,
                   Cells(nc, idx, l - 1), Row(nc, idx, l - 1), base, DecoderBase(size));
    }
  }

  lemma GroupRoundTrip(out: seq<int>, q: seq<int>, lens: seq<seq<nat>>, payloads: seq<seq<bool>>, m: nat, nc: nat,
                       idx: seq<nat>, base: nat, size: nat, granularity: Granularity)
    requires m >= 1 && |out| == |q| == m * nc && Indices(idx, nc) && Codable(q, base, size)
    requires GroupCarries(lens, payloads, q, m, nc, idx, base, size, granularity) && ShortModels(lens)
    ensures Restored(GroupDecoded(out, lens, payloads, m, nc, idx), out, q, Cells(nc, idx, m), base, DecoderBase(size))
  {
    hide Carries, Shifted, Codable, SymsAt, DecodedAt;
    CellsWithin(m, nc, idx, m);
    RowsWithin(m, nc, idx);
    if idx == [] {
      assert m * |idx| == 0;
    } else if granularity == AllLayers {
      CellsDecode(out, q, lens[0], payloads[0], Cells(nc, idx, m), base, size);
    } else {
      LayersRoundTrip(out, q, lens, payloads, m, nc, idx, base, size, m);
      if m == 1 {
        assert Cells(nc, idx, 1) == Row(nc, idx, 0);
        CellsDecode(out, q, lens[0], payloads[0], Cells(nc, idx, m), base, size);
      }
    }
  }

  function Cleared(n: nat): (r: seq<int>)
    ensures |r| == n && forall p | 0 <= p < n :: r[p] == 0
  {
    seq(n, _ => 0)
  }

  // DecodeClusterCoeffs on values: the root group, then the linkage group, over zeros.
  function ClusterDecoded(rootLens: seq<seq<nat>>, root: seq<seq<bool>>, linkageLens: seq<seq<nat>>,
                          linkage: seq<seq<bool>>, m: nat, nc: nat, mask: seq<nat>): Outcome
    requires |root| > 1 ==> |rootLens| >= m && |root| >= m
    requires |linkage| > 1 ==> |linkageLens| >= m && |linkage| >= m
  {
    match GroupDecoded(Cleared(m * nc), rootLens, root, m, nc, Members(nc, mask, false))
    case Truncated => Truncated
    case Matrix(q) => GroupDecoded(q, linkageLens, linkage, m, nc, Members(nc, mask, true))
  }

  // Decoding both groups gives every coefficient back, displaced by the difference of the bases.
  lemma ClusterRoundTrip(q: seq<int>, rootLens: seq<seq<nat>>, root: seq<seq<bool>>, linkageLens: seq<seq<nat>>,
                         linkage: seq<seq<bool>>, m: nat, nc: nat, mask: seq<nat>, base: nat, size: nat, g: Granularity)
    requires m >= 1 && |q| == m * nc && Codable(q, base, size)
    requires GroupCarries(rootLens, root, q, m, nc, Members(nc, mask, false), base, size, g)
    requires GroupCarries(linkageLens, linkage, q, m, nc, Members(nc, mask, true), base, size, g)
    requires ShortModels(rootLens) && ShortModels(linkageLens)
    ensures var d := ClusterDecoded(rootLens, root, linkageLens, linkage, m, nc, mask);
      d.Matrix? && |d.q| == |q| && forall p | 0 <= p < |q| :: d.q[p] == Shifted(q[p], base, DecoderBase(size))
  {
    hide GroupDecoded, GroupCarries, Carries, Codable, Members, Cells, Shifted, DecoderBase, ShortModels;
    var zero: seq<int> := Cleared(m * nc);
    var rootIdx, linkageIdx := Members(nc, mask, false), Members(nc, mask, true);
    CarriedSizes(rootLens, root, q, m, nc, rootIdx, base, size, g);
    CarriedSizes(linkageLens, linkage, q, m, nc, linkageIdx, base, size, g);
    GroupRoundTrip(zero, q, rootLens, root, m, nc, rootIdx, base, size, g);
    var first := GroupDecoded(zero, rootLens, root, m, nc, rootIdx).q;
    GroupRoundTrip(first, q, linkageLens, linkage, m, nc, linkageIdx, base, size, g);
    forall p | 0 <= p < |q|
      ensures p in Cells(nc, rootIdx, m) || p in Cells(nc, linkageIdx, m)
    {
      CellsCover(nc, mask, m, p);
    }
  }

  lemma CarriedSizes(lens: seq<seq<nat>>, payloads: seq<seq<bool>>, q: seq<int>, m: nat, nc: nat,
                     idx: seq<nat>, base: nat, size: nat, g: Granularity)
    requires GroupCarries(lens, payloads, q, m, nc, idx, base, size, g)
    ensures |lens| == |payloads| && (|payloads| > 1 ==> |payloads| == m)
  {
  }

  // How many symbols a stream of a group holds.
  function StreamLength(m: nat, members: nat, g: Granularity): nat {
    if g == AllLayers then m * members else members
  }

  predicate StreamsBelow(m: nat, nc: nat, mask: seq<nat>, g: Granularity, limit: nat) {
    && StreamLength(m, |Members(nc, mask, false)|, g) < limit
    && StreamLength(m, |Members(nc, mask, true)|, g) < limit
  }

  // Every stream's codes have at most 31 bits: there are few letters or the streams are short.
  predicate Readable(m: nat, nc: nat, mask: seq<nat>, base: nat, size: nat, g: Granularity) {
    LetterCount(base, size) <= 32 || StreamsBelow(m, nc, mask, g, FIB_34)
  }

  // Likewise with the 32 bits that can be written.
  predicate Sendable(m: nat, nc: nat, mask: seq<nat>, base: nat, size: nat, g: Granularity) {
    LetterCount(base, size) <= 33 || StreamsBelow(m, nc, mask, g, FIB_35)
  }

  lemma ReadableIsSendable(m: nat, nc: nat, mask: seq<nat>, base: nat, size: nat, g: Granularity)
    requires Readable(m, nc, mask, base, size, g)
    ensures Sendable(m, nc, mask, base, size, g)
  {
  }

  // With agreeing bases and readable streams the matrix comes back unchanged.
  lemma CodecRoundTrip(q: seq<int>, rootLens: seq<seq<nat>>, root: seq<seq<bool>>, linkageLens: seq<seq<nat>>,
                       linkage: seq<seq<bool>>, m: nat, nc: nat, mask: seq<nat>, base: nat, size: nat, g: Granularity)
    requires m >= 1 && |q| == m * nc && Codable(q, base, size) && Readable(m, nc, mask, base, size, g)
    requires Int8s(q) && (base - DecoderBase(size)) % 256 == 0
    requires GroupCarries(rootLens, root, q, m, nc, Members(nc, mask, false), base, size, g)
    requires GroupCarries(linkageLens, linkage, q, m, nc, Members(nc, mask, true), base, size, g)
    ensures ClusterDecoded(rootLens, root, linkageLens, linkage, m, nc, mask) == Matrix(q)
  {
    hide ClusterDecoded, GroupCarries, Members, Shifted, Codable, DecoderBase, ShortModels, LetterCount;
    GroupIsShort(rootLens, root, q, m, nc, Members(nc, mask, false), base, size, g);
    GroupIsShort(linkageLens, linkage, q, m, nc, Members(nc, mask, true), base, size, g);
    ClusterRoundTrip(q, rootLens, root, linkageLens, linkage, m, nc, mask, base, size, g);
    forall p | 0 <= p < |q|
      ensures Shifted(q[p], base, DecoderBase(size)) == q[p]
    {
      BasesAgree(q[p], base, DecoderBase(size));
    }
  }

  lemma GroupIsShort(lens: seq<seq<nat>>, payloads: seq<seq<bool>>, q: seq<int>, m: nat, nc: nat,
                     idx: seq<nat>, base: nat, size: nat, g: Granularity)
    requires m >= 1 && |q| == m * nc && Int8s(q) && Codable(q, base, size) && Indices(idx, nc)
    requires LetterCount(base, size) <= 32 || StreamLength(m, |idx|, g) < FIB_34
    requires GroupCarries(lens, payloads, q, m, nc, idx, base, size, g)
    ensures ShortModels(lens)
  {
    hide TableOf, MaxLen, Cells, LetterCount, Histogram, Codable, Int8s;
    CellsWithin(m, nc, idx, m);
    RowsWithin(m, nc, idx);
    forall i | 0 <= i < |lens|
      ensures MaxLen(lens[i]) <= 31
    {
      var cells := if g == AllLayers then Cells(nc, idx, m) else Row(nc, idx, i);
      LettersUsed(q, cells, base, size);
      ShortListTable(SymsAt(q, cells, base), size);
    }
  }

  lemma ClusterIsWritable(q: seq<int>, m: nat, nc: nat, mask: seq<nat>, base: nat, size: nat, g: Granularity)
    requires m >= 1 && |q| == m * nc < TWO_32 && 0 < size < TWO_16 && Int8s(q) && Codable(q, base, size)
    requires Sendable(m, nc, mask, base, size, g)
    ensures ClusterFits(q, m, nc, mask, base, size, g)
  {
    hide GroupFits, Codable, Int8s, LetterCount;
    GroupIsWritable(q, m, nc, Members(nc, mask, false), base, size, g);
    GroupIsWritable(q, m, nc, Members(nc, mask, true), base, size, g);
  }

  lemma GroupIsWritable(q: seq<int>, m: nat, nc: nat, idx: seq<nat>, base: nat, size: nat, g: Granularity)
    requires m >= 1 && |q| == m * nc < TWO_32 && 0 < size < TWO_16 && Int8s(q) && Codable(q, base, size)
    requires Indices(idx, nc) && |idx| <= nc
    requires LetterCount(base, size) <= 33 || StreamLength(m, |idx|, g) < FIB_35
    ensures GroupFits(q, m, nc, idx, base, size, g)
  {
    hide TableOf, MaxLen, Cells, LetterCount, Histogram, Int8s, UsedCount;
    if idx != [] {
      CellsWithin(m, nc, idx, m);
      CellBudget(m, nc, |idx|);
      CellBudget(m, |idx|, |idx|);
      if g == AllLayers {
        LettersUsed(q, Cells(nc, idx, m), base, size);
        WritableListTable(SymsAt(q, Cells(nc, idx, m), base), size);
      } else {
        forall l | 0 <= l < m
          ensures StreamFits(q, Row(nc, idx, l), base, size)
        {
          RowWithin(m, nc, idx, l);
          LettersUsed(q, Row(nc, idx, l), base, size);
          WritableListTable(SymsAt(q, Row(nc, idx, l), base), size);
        }
      }
    }
  }

  lemma CellBudget(m: nat, nc: nat, k: nat)
    requires k <= nc && m >= 1
    ensures m * k <= m * nc && k <= m * nc
  {
    assert m * (nc - k) >= 0 && (m - 1) * nc >= 0;
  }

  // The decoder takes the middle symbol for zero, the upper one of two.
  lemma DecoderMiddle(size: nat)
    ensures 2 * DecoderBase(size) <= size < 2 * DecoderBase(size) + 2
  {
  }

  // The displacement vanishes exactly when the two bases agree modulo 256.
  lemma BasesAgree(q: int, base: nat, base': nat)
    requires -128 <= q <= 127
    ensures Shifted(q, base, base') == q <==> (base - base') % 256 == 0
  {
  }

  // They agree for every configuration the encoder derives from Qmax itself.
  lemma DerivedBases(cfg: HuffmanConfig, qmax: nat)
    requires cfg.alphabetSize <= 0 || cfg.alphabetSize == 256 || cfg.alphabetSize == 2 * qmax + 1
    ensures EncoderBase(AlphabetSize(cfg, qmax), qmax) == DecoderBase(AlphabetSize(cfg, qmax))
  {
  }
}
