// Exactly when lists of symbols, and whole coefficient matrices, survive coding.
module CodecThreshold {
  import opened Arith
  import opened HuffmanForest
  import opened HuffmanLengths
  import opened HuffmanExtremes
  import opened CanonicalCode
  import opened CanonicalDecode
  import opened CanonicalModel
  import opened ClusterCodec
  import opened ClusterCodecRun

  // ---- A list with given counts ----

  lemma {:induction false} OccursConcat(a: seq<nat>, b: seq<nat>, s: nat)
    ensures Occurs(a + b, s) == Occurs(a, s) + Occurs(b, s)
  {
    if b == [] {
      assert a + b == a;
    } else {
      var n := |b| - 1;
      OccursConcat(a, b[..n], s);
      assert (a + b)[..|a| + n] == a + b[..n];
    }
  }

  function Copies(x: nat, n: nat): (r: seq<nat>)
    ensures |r| == n && forall k | 0 <= k < n :: r[k] == x
  {
    seq(n, _ => x)
  }

  lemma {:induction false} OccursCopies(x: nat, n: nat, s: nat)
    ensures Occurs(Copies(x, n), s) == if x == s then n else 0
  {
    if n > 0 {
      OccursCopies(x, n - 1, s);
      assert Copies(x, n)[..n - 1] == Copies(x, n - 1);
    }
  }

  function ListOf(f: seq<nat>): seq<nat> {
    if f == [] then [] else ListOf(f[..|f| - 1]) + Copies(|f| - 1, f[|f| - 1])
  }

  lemma {:induction false} ListCounts(f: seq<nat>, s: nat)
    ensures Occurs(ListOf(f), s) == (if s < |f| then f[s] else 0) && |ListOf(f)| == Total(f)
    ensures forall k | 0 <= k < |ListOf(f)| :: ListOf(f)[k] < |f|
  {
    if f != [] {
      var n := |f| - 1;
      ListCounts(f[..n], s);
      OccursConcat(ListOf(f[..n]), Copies(n, f[n]), s);
      OccursCopies(n, f[n], s);
    }
  }

  // A list that starts with s and has the given counts.
  lemma ListFrom(f: seq<nat>, s: nat) returns (syms: seq<nat>)
    requires Words(f) && s < |f| && f[s] > 0
    ensures |syms| == Total(f) && syms != [] && syms[0] == s && Histogram(syms, |f|) == f
    ensures forall k | 0 <= k < |syms| :: syms[k] < |f|
  {
    var g := f[s := f[s] - 1];
    syms := [s] + ListOf(g);
    TotalUpdate(f, s, f[s] - 1);
    ListCounts(g, 0);
    forall u | 0 <= u < |f|
      ensures Occurs(syms, u) == f[u]
    {
      ListCounts(g, u);
      OccursConcat([s], ListOf(g), u);
      assert [s][..0] == [] && Occurs([s], u) == if s == u then 1 else 0;
    }
    assert Histogram(syms, |f|) == f;
  }

  // ---- Lists ----

  // Coding the list with its own table and decoding as many symbols gives the list back.
  ghost predicate Survives(syms: seq<nat>, size: nat)
    requires Listed(syms, size) && |TableOf(syms, size)| == size
  {
    var len := TableOf(syms, size);
    var d := DecodeMany(len, Encode(len, syms), |syms|);
    d.Symbols? && d.syms == syms
  }

  // Whatever follows the symbol's codeword, the decoder returns something else.
  ghost predicate NeverDecodes(len: seq<nat>, s: nat) {
    s < |len| && forall rest: seq<bool> :: Value(Decode(len, Codeword(len, s) + rest)) != s
  }

  lemma FirstStep(bits: seq<bool>, len: seq<nat>, total: nat)
    requires total > 0 && DecodeMany(len, bits, total).Symbols?
    ensures var d := DecodeMany(len, bits, total); |d.syms| == total && d.syms[0] == Value(Decode(len, bits))
  {
    hide Decode, MaxLen;
    RunStep(Reader(len, bits), MaxLen(len), 0, total);
    assert Ahead(bits, 0) == bits;
  }

  lemma SplitFirst(len: seq<nat>, syms: seq<nat>)
    requires syms != [] && forall k | 0 <= k < |syms| :: syms[k] < |len|
    ensures forall k | 0 <= k < |syms[1..]| :: syms[1..][k] < |len|
    ensures Encode(len, syms) == Codeword(len, syms[0]) + Encode(len, syms[1..])
  {
    hide Codeword, Encode;
    var one, rest := [syms[0]], syms[1..];
    assert one + rest == syms;
    EncodeConcat(len, one, rest);
    assert one[..0] == [];
    EncodeLast(len, one);
    EncodeNil(len);
  }

  // A stream that starts with such a symbol does not give it back.
  lemma FirstIsLost(len: seq<nat>, syms: seq<nat>, payload: seq<bool>)
    requires syms != [] && (forall k | 0 <= k < |syms| :: syms[k] < |len|) && NeverDecodes(len, syms[0])
    requires Encode(len, syms) <= payload && DecodeMany(len, payload, |syms|).Symbols?
    ensures var d := DecodeMany(len, payload, |syms|);
      |d.syms| == |syms| && d.syms[0] == Value(Decode(len, payload)) != syms[0]
  {
    hide Decode, MaxLen, Codeword, Encode, DecodeMany;
    FirstStep(payload, len, |syms|);
    SplitFirst(len, syms);
    var word := Codeword(len, syms[0]);
    assert payload == word + payload[|word|..];
  }

  lemma {:induction false} ListedOccurs(f: seq<nat>, syms: seq<nat>, k: nat)
    requires k < |syms| < TWO_32 && syms[k] < |f| && Histogram(syms, |f|) == f
    ensures f[syms[k]] > 0
  {
    OccursPositive(syms, k);
  }

  // For every total from Fib(34) on there is a list, over any 33 consecutive symbols, that can be
  // written but not read back; its first symbol, which is lost, is not a multiple of 256.
  lemma LongListLost(n: nat, size: nat, off: nat) returns (syms: seq<nat>)
    requires FIB_34 <= n < TWO_32 && off + 33 <= size < TWO_16
    ensures |syms| == n && Listed(syms, size) && |TableOf(syms, size)| == size
    ensures MaxLen(TableOf(syms, size)) == 32 && NeverDecodes(TableOf(syms, size), syms[0]) && syms[0] % 256 != 0
    ensures forall k | 0 <= k < n :: off <= syms[k] <= off + 32
    ensures forall u | 0 <= u < size :: TableOf(syms, size)[u] > 0 ==> off <= u <= off + 32
  {
    hide CodeLengths, Histogram, Fib, Decode, UsedCount;
    var two := 2;
    FibAt34(two);
    FibSmall(two);
    var freq, deep := DepthIsReached(32, n - FIB_34, size, off);
    var len := CodeLengths(freq);
    DepthIsMax(len, deep, 32);
    TableIsKraft(freq);
    var s, t := LongCodeLost(len);
    UsedIffCoded(freq, s);
    UsedIffCoded(freq, t);
    NotBoth(s, t);
    var first := if s % 256 != 0 then s else t;
    syms := ListFrom(freq, first);
    forall k | 0 <= k < n
      ensures off <= syms[k] <= off + 32
    {
      ListedOccurs(freq, syms, k);
    }
    forall u | 0 <= u < size && len[u] > 0
      ensures off <= u <= off + 32
    {
      UsedIffCoded(freq, u);
    }
  }

  lemma NotBoth(s: nat, t: nat)
    requires s < t <= s + 32
    ensures s % 256 != 0 || t % 256 != 0
  {
  }

  lemma FibSmall(n: nat)
    requires n == 2
    ensures Fib(n + 30) < Fib(n + 32)
  {
    FibMono(n + 30, n + 31);
    FibPositive(n + 30);
  }

  lemma DepthIsMax(len: seq<nat>, s: nat, depth: nat)
    requires s < |len| && len[s] == depth > 0 && forall u | 0 <= u < |len| :: len[u] <= depth
    ensures MaxLen(len) == depth
  {
    MaxLenBounds(len, s);
    var t := MaxLenAttained(len);
  }

  // Every list of n symbols survives coding exactly when n is below Fib(34) == 5702887 or the
  // alphabet has at most 32 symbols.
  lemma RoundTripThreshold(n: nat, size: nat)
    requires 0 < n < TWO_32 && 0 < size < TWO_16
    ensures (forall syms | |syms| == n && Listed(syms, size) :: |TableOf(syms, size)| == size && Survives(syms, size))
       <==> size <= 32 || n < FIB_34
  {
    hide TableOf, Encode, DecodeMany;
    if size <= 32 || n < FIB_34 {
      forall syms: seq<nat> | |syms| == n && Listed(syms, size)
        ensures |TableOf(syms, size)| == size && Survives(syms, size)
      {
        ListedTable(syms, size);
        UsedBelowSize(Histogram(syms, size));
        ShortListTable(syms, size);
        ListDecodes(syms, size, Encode(TableOf(syms, size), syms));
      }
    } else {
      var syms := LongListLost(n, size, 0);
      if Survives(syms, size) {
        FirstIsLost(TableOf(syms, size), syms, Encode(TableOf(syms, size), syms));
      }
    }
  }

  // Every list of n symbols can be written exactly when n is below Fib(35) == 9227465 or the
  // alphabet has at most 33 symbols.
  lemma WriteThreshold(n: nat, size: nat)
    requires 0 < n < TWO_32 && 0 < size < TWO_16
    ensures (forall syms | |syms| == n && Listed(syms, size) :: MaxLen(TableOf(syms, size)) <= 32)
       <==> size <= 33 || n < FIB_35
  {
    hide CodeLengths, Histogram, Fib, UsedCount;
    if size <= 33 || n < FIB_35 {
      forall syms: seq<nat> | |syms| == n && Listed(syms, size)
        ensures MaxLen(TableOf(syms, size)) <= 32
      {
        UsedBelowSize(Histogram(syms, size));
        WritableListTable(syms, size);
      }
    } else {
      var two := 2;
      FibAt34(two);
      FibStepDown(two);
      var freq, deep := DepthIsReached(33, n - FIB_35, size, 0);
      DepthIsMax(CodeLengths(freq), deep, 33);
      UsedIffCoded(freq, deep);
      var syms := ListFrom(freq, deep);
      assert Listed(syms, size) && MaxLen(TableOf(syms, size)) == 33;
    }
  }

  lemma FibStepDown(n: nat)
    requires n == 2
    ensures Fib(n + 31) < Fib(n + 33)
  {
    FibMono(n + 31, n + 32);
    FibPositive(n + 31);
  }

  // ---- Cells of a group ----

  ghost predicate Ascending(s: seq<nat>) {
    forall i, j | 0 <= i < j < |s| :: s[i] < s[j]
  }

  lemma {:induction false} MembersAre(n: nat, mask: seq<nat>, linkage: bool, i: nat)
    ensures i in Members(n, mask, linkage) <==> i < n && IsLinkage(mask, i) == linkage
    ensures Ascending(Members(n, mask, linkage))
  {
    hide IsLinkage, Ascending;
    if n > 0 {
      MembersAre(n - 1, mask, linkage, i);
      AscendingMore(Members(n - 1, mask, linkage), n - 1);
    } else {
      AscendingMore([], 0);
    }
  }

  lemma AscendingMore(s: seq<nat>, x: nat)
    requires (s == [] || Ascending(s)) && forall k | 0 <= k < |s| :: s[k] < x
    ensures Ascending(s) && Ascending(s + [x]) && Ascending(s + [])
  {
    assert s + [] == s;
  }

  lemma RowAscends(nc: nat, idx: seq<nat>, l: nat)
    requires Ascending(idx)
    ensures Ascending(Row(nc, idx, l))
  {
  }

  lemma {:induction false} CellsAscend(nc: nat, idx: seq<nat>, l: nat)
    requires Ascending(idx) && Indices(idx, nc)
    ensures Ascending(Cells(nc, idx, l))
  {
    if l > 0 {
      CellsAscend(nc, idx, l - 1);
      CellsWithin(l - 1, nc, idx, l - 1);
      RowAscends(nc, idx, l - 1);
    }
  }

  // A cell lies in the column of its member.
  lemma {:induction false} CellsColumn(nc: nat, idx: seq<nat>, l: nat, p: nat)
    requires nc > 0 && Indices(idx, nc) && p in Cells(nc, idx, l)
    ensures p % nc in idx
  {
    if p in Row(nc, idx, l - 1) {
      var k :| 0 <= k < |idx| && Row(nc, idx, l - 1)[k] == p;
      ColumnOf(nc, l - 1, idx[k]);
    } else {
      CellsColumn(nc, idx, l - 1, p);
    }
  }

  lemma ColumnOf(nc: nat, l: nat, i: nat)
    requires i < nc
    ensures Cell(nc, l, i) % nc == i
  {
    var p := l * nc + i;
    DivUnique(p, nc, l, i);
    assert p == p / nc * nc + p % nc;
  }

  lemma GroupsApart(m: nat, nc: nat, mask: seq<nat>, p: nat)
    requires nc > 0 && p in Cells(nc, Members(nc, mask, false), m)
    ensures p !in Cells(nc, Members(nc, mask, true), m)
  {
    hide Members, Cells, IsLinkage;
    CellsColumn(nc, Members(nc, mask, false), m, p);
    MembersAre(nc, mask, false, p % nc);
    MembersAre(nc, mask, true, p % nc);
    if p in Cells(nc, Members(nc, mask, true), m) {
      CellsColumn(nc, Members(nc, mask, true), m, p);
    }
  }

  // ---- Decoding writes the given cells only ----

  lemma {:induction false} ScatterFrame(out: seq<int>, cells: seq<nat>, syms: seq<nat>, base: nat, p: nat)
    requires |cells| == |syms| && Within(cells, |out|) && p < |out| && p !in cells
    ensures Scatter(out, cells, syms, base)[p] == out[p]
  {
    if cells != [] {
      var n := |cells| - 1;
      assert cells[n] in cells && forall c | c in cells[..n] :: c in cells;
      ScatterFrame(out, cells[..n], syms[..n], base, p);
    }
  }

  lemma {:induction false} ScatterFirst(out: seq<int>, cells: seq<nat>, syms: seq<nat>, base: nat)
    requires |cells| == |syms| > 0 && Within(cells, |out|) && Ascending(cells)
    ensures Scatter(out, cells, syms, base)[cells[0]] == QFromSym(syms[0], base)
  {
    var n := |cells| - 1;
    if n > 0 {
      ScatterFirst(out, cells[..n], syms[..n], base);
    }
  }

  // A decoded matrix that differs from out at most in the given cells.
  ghost predicate Frames(d: Outcome, out: seq<int>, p: nat) {
    d.Matrix? ==> |d.q| == |out| && (p < |out| ==> d.q[p] == out[p])
  }

  lemma DecodedFrame(out: seq<int>, len: seq<nat>, payload: seq<bool>, cells: seq<nat>, p: nat)
    requires Within(cells, |out|) && p < |out| && p !in cells
    ensures Frames(DecodedAt(out, len, payload, cells), out, p)
  {
    hide Scatter, Repeat;
    RepeatSize(Reader(len, payload), MaxLen(len), |cells|);
    match DecodeMany(len, payload, |cells|)
    case Symbols(syms, _) => ScatterFrame(out, cells, syms, DecoderBase(|len|), p);
    case Exhausted =>
  }

  lemma {:induction false} LayersFrame(out: seq<int>, lens: seq<seq<nat>>, payloads: seq<seq<bool>>, nc: nat,
                                       idx: seq<nat>, l: nat, p: nat)
    requires l <= |lens| && l <= |payloads| && p < |out|
    requires forall j | 0 <= j < l :: Within(Row(nc, idx, j), |out|) && p !in Row(nc, idx, j)
    ensures Frames(LayersDecoded(out, lens, payloads, nc, idx, l), out, p)
  {
    hide DecodedAt, Row, Within;
    if l > 0 {
      LayersFrame(out, lens, payloads, nc, idx, l - 1, p);
      match LayersDecoded(out, lens, payloads, nc, idx, l - 1)
      case Truncated =>
      case Matrix(q) => DecodedFrame(q, lens[l - 1], payloads[l - 1], Row(nc, idx, l - 1), p);
    }
  }

  lemma GroupFrame(out: seq<int>, lens: seq<seq<nat>>, payloads: seq<seq<bool>>, m: nat, nc: nat, idx: seq<nat>, p: nat)
    requires |out| == m * nc && Indices(idx, nc) && (|payloads| > 1 ==> |lens| >= m && |payloads| >= m)
    requires p < |out| && p !in Cells(nc, idx, m)
    ensures Frames(GroupDecoded(out, lens, payloads, m, nc, idx), out, p)
  {
    hide DecodedAt, LayersDecoded, Row, Cells;
    CellsWithin(m, nc, idx, m);
    RowsWithin(m, nc, idx);
    forall j | 0 <= j < m
      ensures p !in Row(nc, idx, j)
    {
      RowInCells(nc, idx, m, j, p);
    }
    if idx == [] || payloads == [] || lens == [] {
    } else if |payloads| == 1 {
      DecodedFrame(out, lens[0], payloads[0], Cells(nc, idx, m), p);
    } else {
      LayersFrame(out, lens, payloads, nc, idx, m, p);
    }
  }

  lemma RowInCells(nc: nat, idx: seq<nat>, m: nat, l: nat, p: nat)
    requires l < m
    ensures p in Row(nc, idx, l) ==> p in Cells(nc, idx, m)
  {
    if p in Row(nc, idx, l) {
      var k :| 0 <= k < |idx| && Row(nc, idx, l)[k] == p;
      CellsHold(nc, idx, m, l, k);
    }
  }

  // ---- A stream that is not given back ----

  // The cells of a group's last stream.
  function LastStream(m: nat, nc: nat, idx: seq<nat>, g: Granularity): seq<nat>
    requires m >= 1
  {
    if g == AllLayers then Cells(nc, idx, m) else Row(nc, idx, m - 1)
  }

  // A list over 33 consecutive symbols whose first symbol never decodes to itself, nor to one with the
  // same low byte: neither to another listed symbol nor to 0.
  ghost predicate Lost(syms: seq<nat>, size: nat, off: nat) {
    && Listed(syms, size) && |TableOf(syms, size)| == size && NeverDecodes(TableOf(syms, size), syms[0])
    && syms[0] % 256 != 0 && (forall k | 0 <= k < |syms| :: off <= syms[k] <= off + 32)
    && forall u | 0 <= u < size && TableOf(syms, size)[u] > 0 :: off <= u <= off + 32
  }

  lemma ValueWithin(len: seq<nat>, payload: seq<bool>, off: nat)
    requires forall u | 0 <= u < |len| && len[u] > 0 :: off <= u <= off + 32
    ensures var v := Value(Decode(len, payload)); v == 0 || off <= v <= off + 32
  {
    HitHasLength(len, payload, 0, 0);
  }

  lemma Congruent(s: nat, t: nat, off: nat, base: nat, base': nat)
    requires (s == 0 || off <= s <= off + 32) && off <= t <= off + 32 && s != t && t % 256 != 0
    requires (base - base') % 256 == 0
    ensures QFromSym(s, base') != QFromSym(t, base)
  {
    if s == 0 {
      ByteApart(t - base + 128, 0 - base' + 128, base' - base, t);
    } else {
      ByteClasses(s - base' + 128, t - base + 128, base - base', s - t);
    }
  }

  lemma ByteApart(x: int, y: int, shift: int, t: nat)
    requires x - y == shift + t && shift % 256 == 0 && t % 256 != 0
    ensures x % 256 != y % 256
  {
    var i, j, k, r := x / 256, y / 256, shift / 256, t / 256;
    assert x == 256 * i + x % 256 && y == 256 * j + y % 256 && shift == 256 * k && t == 256 * r + t % 256;
    assert x % 256 - y % 256 - t % 256 == 256 * (k + r + j - i);
  }

  // Two numbers whose difference is a multiple of 256 off a small one have different low bytes.
  lemma ByteClasses(x: int, y: int, shift: int, small: int)
    requires x - y == shift + small && shift % 256 == 0 && small != 0 && -256 < small < 256
    ensures x % 256 != y % 256
  {
    var i, j, k := x / 256, y / 256, shift / 256;
    assert x == 256 * i + x % 256 && y == 256 * j + y % 256 && shift == 256 * k;
    assert x % 256 - y % 256 == small + 256 * (k - i + j);
  }

  lemma CellsLose(out: seq<int>, q: seq<int>, syms: seq<nat>, payload: seq<bool>, cells: seq<nat>, base: nat, size: nat,
                  off: nat)
    requires |out| == |q| && Within(cells, |out|) && Ascending(cells) && |cells| == |syms| && Lost(syms, size, off)
    requires Encode(TableOf(syms, size), syms) <= payload && (base - DecoderBase(size)) % 256 == 0
    requires q[cells[0]] == QFromSym(syms[0], base)
    ensures var d := DecodedAt(out, TableOf(syms, size), payload, cells);
      d.Matrix? ==> |d.q| == |q| && d.q[cells[0]] != q[cells[0]]
  {
    hide Decode, MaxLen, TableOf, Encode, Repeat, Scatter, QFromSym, NeverDecodes;
    var len := TableOf(syms, size);
    var d := DecodeMany(len, payload, |cells|);
    if d.Symbols? {
      FirstIsLost(len, syms, payload);
      ValueWithin(len, payload, off);
      ScatterFirst(out, cells, d.syms, DecoderBase(size));
      Congruent(d.syms[0], syms[0], off, base, DecoderBase(size));
    }
  }

  lemma GroupLoses(out: seq<int>, q: seq<int>, lens: seq<seq<nat>>, payloads: seq<seq<bool>>, m: nat, nc: nat,
                   idx: seq<nat>, base: nat, size: nat, g: Granularity, syms: seq<nat>, off: nat)
    requires m >= 1 && |out| == |q| == m * nc && Indices(idx, nc) && Ascending(idx) && idx != []
    requires GroupCarries(lens, payloads, q, m, nc, idx, base, size, g) && (base - DecoderBase(size)) % 256 == 0
    requires Lost(syms, size, off) && SymsAt(q, LastStream(m, nc, idx, g), base) == syms
    requires var c := LastStream(m, nc, idx, g)[0]; c < |q| && q[c] == QFromSym(syms[0], base)
    ensures var d := GroupDecoded(out, lens, payloads, m, nc, idx);
      var c := LastStream(m, nc, idx, g)[0];
      d.Matrix? ==> |d.q| == |q| && d.q[c] != q[c]
  {
    hide DecodedAt, TableOf, Encode, Lost, Row, Cells, QFromSym, SymsAt;
    CellsWithin(m, nc, idx, m);
    RowsWithin(m, nc, idx);
    var cells := LastStream(m, nc, idx, g);
    CellsAscend(nc, idx, m);
    RowAscends(nc, idx, m - 1);
    if g == AllLayers {
      CellsLose(out, q, syms, payloads[0], cells, base, size, off);
    } else {
      OneRow(nc, idx);
      match if m == 1 then Matrix(out) else LayersDecoded(out, lens, payloads, nc, idx, m - 1)
      case Truncated =>
      case Matrix(mid) => CellsLose(mid, q, syms, payloads[m - 1], cells, base, size, off);
    }
  }

  lemma OneRow(nc: nat, idx: seq<nat>)
    ensures Cells(nc, idx, 1) == Row(nc, idx, 0)
  {
    assert Cells(nc, idx, 0) == [];
  }

  // ---- The whole matrix ----

  // The streams can be written, and decoding whatever carries them gives the matrix back.
  ghost predicate ComesBack(q: seq<int>, m: nat, nc: nat, mask: seq<nat>, base: nat, size: nat, g: Granularity)
    requires m >= 1
  {
    && ClusterFits(q, m, nc, mask, base, size, g)
    && forall rootLens, root, linkageLens, linkage |
         && GroupCarries(rootLens, root, q, m, nc, Members(nc, mask, false), base, size, g)
         && GroupCarries(linkageLens, linkage, q, m, nc, Members(nc, mask, true), base, size, g) ::
         ClusterDecoded(rootLens, root, linkageLens, linkage, m, nc, mask) == Matrix(q)
  }

  lemma GroupCarried(q: seq<int>, m: nat, nc: nat, idx: seq<nat>, base: nat, size: nat, g: Granularity)
    returns (lens: seq<seq<nat>>, payloads: seq<seq<bool>>)
    requires m >= 1 && |q| == m * nc < TWO_32 && Indices(idx, nc) && |idx| <= nc
    requires 0 < size < TWO_16 && Codable(q, base, size)
    ensures GroupCarries(lens, payloads, q, m, nc, idx, base, size, g)
  {
    hide TableOf, SymsAt, Row, Cells, Codable, Listed, Encode;
    if idx == [] {
      return [], [];
    }
    if g == AllLayers {
      CellsListed(m, nc, q, idx, base, size);
      var len, payload := Carrier(SymsAt(q, Cells(nc, idx, m), base), size);
      return [len], [payload];
    }
    lens, payloads := [], [];
    for l := 0 to m
      invariant |lens| == |payloads| == l
      invariant forall j | 0 <= j < l :: Carries(lens[j], payloads[j], SymsAt(q, Row(nc, idx, j), base), size)
    {
      RowListed(m, nc, q, idx, l, base, size);
      var len, payload := Carrier(SymsAt(q, Row(nc, idx, l), base), size);
      lens, payloads := lens + [len], payloads + [payload];
    }
  }

  lemma Carrier(syms: seq<nat>, size: nat) returns (len: seq<nat>, payload: seq<bool>)
    requires Listed(syms, size)
    ensures Carries(len, payload, syms, size)
  {
    ListedTable(syms, size);
    len := TableOf(syms, size);
    payload := Encode(len, syms);
  }

  // The matrix that holds the list in the given cells and the first letter elsewhere.
  function Placed(n: nat, cells: seq<nat>, syms: seq<nat>, base: nat): (q: seq<int>)
    requires |cells| == |syms| && Within(cells, n)
    ensures |q| == n
  {
    Scatter(Constant(n, FirstLetter(base) - base), cells, syms, base)
  }

  function Constant(n: nat, x: int): (q: seq<int>)
    ensures |q| == n && forall p | 0 <= p < n :: q[p] == x
  {
    seq(n, _ => x)
  }

  lemma LetterCode(s: nat, base: nat, size: nat)
    requires FirstLetter(base) <= s < FirstLetter(base) + LetterCount(base, size)
    ensures QFromSym(s, base) == s - base && -128 <= s - base <= 127 && s < size
  {
    LettersAre(base, size, s);
  }

  lemma {:induction false} PlacedHolds(out: seq<int>, cells: seq<nat>, syms: seq<nat>, base: nat, size: nat)
    requires |cells| == |syms| && Within(cells, |out|) && Ascending(cells)
    requires Int8s(out) && Codable(out, base, size)
    requires forall k | 0 <= k < |syms| :: FirstLetter(base) <= syms[k] < FirstLetter(base) + LetterCount(base, size)
    ensures Int8s(Scatter(out, cells, syms, base)) && Codable(Scatter(out, cells, syms, base), base, size)
    ensures forall k | 0 <= k < |cells| :: Scatter(out, cells, syms, base)[cells[k]] == syms[k] - base
  {
    hide FirstLetter, LetterCount, QFromSym;
    if cells != [] {
      var n := |cells| - 1;
      PlacedHolds(out, cells[..n], syms[..n], base, size);
      LetterCode(syms[n], base, size);
    }
  }

  lemma PlacedSyms(n: nat, cells: seq<nat>, syms: seq<nat>, base: nat, size: nat)
    requires |cells| == |syms| > 0 && Within(cells, n) && Ascending(cells) && LetterCount(base, size) > 0
    requires forall k | 0 <= k < |syms| :: FirstLetter(base) <= syms[k] < FirstLetter(base) + LetterCount(base, size)
    ensures var q := Placed(n, cells, syms, base);
      && Int8s(q) && Codable(q, base, size) && SymsAt(q, cells, base) == syms
      && q[cells[0]] == QFromSym(syms[0], base)
  {
    hide Scatter, LetterCount, FirstLetter, QFromSym;
    LetterCode(FirstLetter(base), base, size);
    PlacedHolds(Constant(n, FirstLetter(base) - base), cells, syms, base, size);
    LetterCode(syms[0], base, size);
  }

  // One group with a long stream is enough to lose a matrix.
  lemma LongStreamLost(m: nat, nc: nat, mask: seq<nat>, base: nat, size: nat, g: Granularity, linkage: bool)
    returns (q: seq<int>)
    requires m >= 1 && m * nc < TWO_32 && size < TWO_16 && LetterCount(base, size) >= 33
    requires (base - DecoderBase(size)) % 256 == 0
    requires StreamLength(m, |Members(nc, mask, linkage)|, g) >= FIB_34
    ensures |q| == m * nc && Int8s(q) && Codable(q, base, size) && !ComesBack(q, m, nc, mask, base, size, g)
  {
    hide Members, Cells, Row, Placed, Lost, Codable, Int8s, SymsAt, GroupDecoded, GroupCarries, QFromSym,
      FirstLetter, LetterCount;
    var idx := Members(nc, mask, linkage);
    CellsWithin(m, nc, idx, m);
    RowsWithin(m, nc, idx);
    CellBudget(m, nc, |idx|);
    MembersAre(nc, mask, linkage, 0);
    CellsAscend(nc, idx, m);
    RowAscends(nc, idx, m - 1);
    var cells := LastStream(m, nc, idx, g);
    var off := FirstLetter(base);
    LettersAre(base, size, off + 32);
    var syms := LostList(|cells|, size, off);
    LostWithin(syms, size, off);
    q := Placed(m * nc, cells, syms, base);
    PlacedSyms(m * nc, cells, syms, base, size);
    var rootLens, root := GroupCarried(q, m, nc, Members(nc, mask, false), base, size, g);
    var linkageLens, linkageStreams := GroupCarried(q, m, nc, Members(nc, mask, true), base, size, g);
    ClusterLoses(q, rootLens, root, linkageLens, linkageStreams, m, nc, mask, base, size, g, linkage, syms, off);
  }

  lemma LostList(n: nat, size: nat, off: nat) returns (syms: seq<nat>)
    requires FIB_34 <= n < TWO_32 && off + 33 <= size < TWO_16
    ensures |syms| == n && Lost(syms, size, off)
  {
    hide TableOf, NeverDecodes;
    syms := LongListLost(n, size, off);
  }

  lemma LostWithin(syms: seq<nat>, size: nat, off: nat)
    requires Lost(syms, size, off)
    ensures forall k | 0 <= k < |syms| :: off <= syms[k] <= off + 32
  {
  }

  lemma ClusterLoses(q: seq<int>, rootLens: seq<seq<nat>>, root: seq<seq<bool>>, linkageLens: seq<seq<nat>>,
                     linkageStreams: seq<seq<bool>>, m: nat, nc: nat, mask: seq<nat>, base: nat, size: nat,
                     g: Granularity, linkage: bool, syms: seq<nat>, off: nat)
    requires m >= 1 && |q| == m * nc && (base - DecoderBase(size)) % 256 == 0
    requires GroupCarries(rootLens, root, q, m, nc, Members(nc, mask, false), base, size, g)
    requires GroupCarries(linkageLens, linkageStreams, q, m, nc, Members(nc, mask, true), base, size, g)
    requires var idx := Members(nc, mask, linkage);
      && idx != [] && Lost(syms, size, off) && SymsAt(q, LastStream(m, nc, idx, g), base) == syms
      && LastStream(m, nc, idx, g)[0] < |q| && q[LastStream(m, nc, idx, g)[0]] == QFromSym(syms[0], base)
    ensures !ComesBack(q, m, nc, mask, base, size, g)
  {
    hide Members, Cells, Row, Lost, SymsAt, GroupDecoded, GroupCarries, QFromSym, ClusterFits, LastStream, DecoderBase,
      Ascending, Indices;
    var rootIdx, linkageIdx := Members(nc, mask, false), Members(nc, mask, true);
    MembersAre(nc, mask, linkage, 0);
    MembersIndex(nc, mask);
    CarriedSizes(rootLens, root, q, m, nc, rootIdx, base, size, g);
    CarriedSizes(linkageLens, linkageStreams, q, m, nc, linkageIdx, base, size, g);
    var zero: seq<int> := Cleared(m * nc);
    match GroupDecoded(zero, rootLens, root, m, nc, rootIdx)
    case Truncated =>
    case Matrix(first) =>
      if linkage {
        GroupLoses(first, q, linkageLens, linkageStreams, m, nc, linkageIdx, base, size, g, syms, off);
      } else {
        GroupLoses(zero, q, rootLens, root, m, nc, rootIdx, base, size, g, syms, off);
        FirstCell(m, nc, rootIdx, g);
        var c := LastStream(m, nc, rootIdx, g)[0];
        GroupsApart(m, nc, mask, c);
        GroupFrame(first, linkageLens, linkageStreams, m, nc, linkageIdx, c);
      }
  }

  lemma MembersIndex(nc: nat, mask: seq<nat>)
    ensures Indices(Members(nc, mask, false), nc) && Indices(Members(nc, mask, true), nc)
  {
  }

  lemma FirstCell(m: nat, nc: nat, idx: seq<nat>, g: Granularity)
    requires m >= 1 && idx != [] && Indices(idx, nc)
    ensures LastStream(m, nc, idx, g) != [] && LastStream(m, nc, idx, g)[0] in Cells(nc, idx, m)
  {
    CellsHold(nc, idx, m, m - 1, 0);
    CellsHold(nc, idx, m, 0, 0);
  }

  // ---- Disagreeing bases ----

  lemma {:induction false} NoneOccurs(syms: seq<nat>, s: nat)
    requires s !in syms
    ensures Occurs(syms, s) == 0
  {
    if syms != [] {
      NoneOccurs(syms[..|syms| - 1], s);
    }
  }

  lemma {:induction false} OnlyOneUsed(f: seq<nat>, x: nat)
    requires forall s | 0 <= s < |f| && s != x :: f[s] == 0
    ensures UsedCount(f) <= if x < |f| then 1 else 0
  {
    if f != [] {
      OnlyOneUsed(f[..|f| - 1], x);
    }
  }

  lemma ConstantTable(syms: seq<nat>, size: nat, x: nat)
    requires Listed(syms, size) && forall k | 0 <= k < |syms| :: syms[k] == x
    ensures MaxLen(TableOf(syms, size)) <= 1
  {
    hide CodeLengths;
    var f := Histogram(syms, size);
    assert Coded(f) == f;
    forall s | 0 <= s < size && s != x
      ensures f[s] == 0
    {
      NoneOccurs(syms, s);
    }
    OnlyOneUsed(f, x);
    ListedTable(syms, size);
    var s := MaxLenAttained(TableOf(syms, size));
    FewCodesAreShort(f, s);
  }

  lemma ConstantSyms(q: seq<int>, cells: seq<nat>, base: nat, x: nat)
    requires Within(cells, |q|) && forall p | 0 <= p < |q| :: q[p] == x - base
    ensures forall k | 0 <= k < |SymsAt(q, cells, base)| :: SymsAt(q, cells, base)[k] == x
  {
  }

  lemma ConstantGroup(q: seq<int>, lens: seq<seq<nat>>, payloads: seq<seq<bool>>, m: nat, nc: nat, idx: seq<nat>,
                      base: nat, size: nat, g: Granularity, x: nat)
    requires |q| == m * nc && Indices(idx, nc) && GroupCarries(lens, payloads, q, m, nc, idx, base, size, g)
    requires forall p | 0 <= p < |q| :: q[p] == x - base
    ensures ShortModels(lens)
  {
    hide TableOf, MaxLen, Encode, Cells, Row, SymsAt, SymAt;
    CellsWithin(m, nc, idx, m);
    RowsWithin(m, nc, idx);
    forall i | 0 <= i < |lens|
      ensures MaxLen(lens[i]) <= 31
    {
      var cells := if g == AllLayers then Cells(nc, idx, m) else Row(nc, idx, i);
      ConstantSyms(q, cells, base, x);
      ConstantTable(SymsAt(q, cells, base), size, x);
    }
  }

  lemma MismatchLost(m: nat, nc: nat, mask: seq<nat>, base: nat, size: nat, g: Granularity) returns (q: seq<int>)
    requires m >= 1 && 0 < m * nc < TWO_32 && 0 < size < TWO_16 && LetterCount(base, size) > 0
    requires (base - DecoderBase(size)) % 256 != 0
    ensures |q| == m * nc && Int8s(q) && Codable(q, base, size) && !ComesBack(q, m, nc, mask, base, size, g)
  {
    hide Members, GroupCarries, GroupDecoded, ClusterDecoded, ClusterFits, ShortModels, Shifted, FirstLetter,
      LetterCount;
    var x := FirstLetter(base);
    LetterCode(x, base, size);
    q := Constant(m * nc, x - base);
    MembersIndex(nc, mask);
    var rootLens, root := GroupCarried(q, m, nc, Members(nc, mask, false), base, size, g);
    var linkageLens, linkage := GroupCarried(q, m, nc, Members(nc, mask, true), base, size, g);
    ConstantGroup(q, rootLens, root, m, nc, Members(nc, mask, false), base, size, g, x);
    ConstantGroup(q, linkageLens, linkage, m, nc, Members(nc, mask, true), base, size, g, x);
    CarriedSizes(rootLens, root, q, m, nc, Members(nc, mask, false), base, size, g);
    CarriedSizes(linkageLens, linkage, q, m, nc, Members(nc, mask, true), base, size, g);
    ClusterRoundTrip(q, rootLens, root, linkageLens, linkage, m, nc, mask, base, size, g);
    BasesAgree(q[0], base, DecoderBase(size));
  }

  // ---- The threshold ----

  lemma ReadableComesBack(q: seq<int>, m: nat, nc: nat, mask: seq<nat>, base: nat, size: nat, g: Granularity)
    requires m >= 1 && |q| == m * nc < TWO_32 && 0 < size < TWO_16 && Int8s(q) && Codable(q, base, size)
    requires (base - DecoderBase(size)) % 256 == 0 && Readable(m, nc, mask, base, size, g)
    ensures ComesBack(q, m, nc, mask, base, size, g)
  {
    hide Members, GroupCarries, ClusterDecoded, ClusterFits, Codable, StreamsBelow;
    ReadableIsSendable(m, nc, mask, base, size, g);
    ClusterIsWritable(q, m, nc, mask, base, size, g);
    forall rootLens, root, linkageLens, linkage |
      && GroupCarries(rootLens, root, q, m, nc, Members(nc, mask, false), base, size, g)
      && GroupCarries(linkageLens, linkage, q, m, nc, Members(nc, mask, true), base, size, g)
      ensures (|root| > 1 ==> |rootLens| >= m && |root| >= m)
           && (|linkage| > 1 ==> |linkageLens| >= m && |linkage| >= m)
           && ClusterDecoded(rootLens, root, linkageLens, linkage, m, nc, mask) == Matrix(q)
    {
      CarriedSizes(rootLens, root, q, m, nc, Members(nc, mask, false), base, size, g);
      CarriedSizes(linkageLens, linkage, q, m, nc, Members(nc, mask, true), base, size, g);
      CodecRoundTrip(q, rootLens, root, linkageLens, linkage, m, nc, mask, base, size, g);
    }
  }

  lemma EmptyComesBack(q: seq<int>, m: nat, mask: seq<nat>, base: nat, size: nat, g: Granularity)
    requires m >= 1 && q == []
    ensures ComesBack(q, m, 0, mask, base, size, g)
  {
    assert Members(0, mask, false) == [] && Members(0, mask, true) == [];
    assert Cleared(m * 0) == q;
  }

  // Every codable int8 matrix of a shape comes back if and only if it is empty, there are no letters at
  // all, or the two bases agree modulo 256 and there are at most 32 letters or each stream has fewer
  // than Fib(34) == 5702887 symbols.
  lemma ClusterThreshold(m: nat, nc: nat, mask: seq<nat>, base: nat, size: nat, g: Granularity)
    requires m >= 1 && m * nc < TWO_32 && 0 < size < TWO_16
    ensures (forall q | |q| == m * nc && Int8s(q) && Codable(q, base, size) :: ComesBack(q, m, nc, mask, base, size, g))
       <==> nc == 0 || LetterCount(base, size) == 0
            || ((base - DecoderBase(size)) % 256 == 0 && Readable(m, nc, mask, base, size, g))
  {
    hide Int8s, Codable, ComesBack, LetterCount;
    if nc == 0 {
      forall q: seq<int> | |q| == m * nc && Int8s(q) && Codable(q, base, size)
        ensures ComesBack(q, m, nc, mask, base, size, g)
      {
        EmptyComesBack(q, m, mask, base, size, g);
      }
      return;
    }
    CellBound(m, nc, 0, 0);
    if LetterCount(base, size) == 0 {
      forall q: seq<int> | |q| == m * nc
        ensures !(Int8s(q) && Codable(q, base, size))
      {
        NoLetters(q, base, size);
      }
    } else if (base - DecoderBase(size)) % 256 != 0 {
      var q := MismatchLost(m, nc, mask, base, size, g);
    } else if Readable(m, nc, mask, base, size, g) {
      forall q: seq<int> | |q| == m * nc && Int8s(q) && Codable(q, base, size)
        ensures ComesBack(q, m, nc, mask, base, size, g)
      {
        ReadableComesBack(q, m, nc, mask, base, size, g);
      }
    } else {
      var linkage := StreamLength(m, |Members(nc, mask, false)|, g) < FIB_34;
      var q := LongStreamLost(m, nc, mask, base, size, g, linkage);
    }
  }

  lemma NoLetters(q: seq<int>, base: nat, size: nat)
    requires q != [] && LetterCount(base, size) == 0
    ensures !(Int8s(q) && Codable(q, base, size))
  {
    if Int8s(q) && Codable(q, base, size) {
      LettersAre(base, size, q[0] + base);
      assert false;
    }
  }
}
