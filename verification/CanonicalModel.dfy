// HuffmanCanonicalModel as the source keeps it: tables filled in place by BuildDerivedTables and
// read by EncodeSymbol and DecodeSymbol.
module CanonicalModel {
  import opened Arith
  import opened BitIo
  import opened Sorting
  import opened HuffmanForest
  import opened HuffmanOptimality
  import opened HuffmanLengths
  import opened HuffmanBuild
  import opened CanonicalCode
  import opened CanonicalDecode

  // ---- syms_sorted: sorting the used symbols by (length, symbol) gives the blocks in order ----

  function LengthOf(len: seq<nat>, s: nat): nat {
    if s < |len| then len[s] else 0
  }

  function ByLength(len: seq<nat>): (nat, nat) -> bool {
    (a: nat, b: nat) => LengthOf(len, a) < LengthOf(len, b) || (LengthOf(len, a) == LengthOf(len, b) && a < b)
  }

  function UsedList(len: seq<nat>): seq<nat> {
    if len == [] then []
    else UsedList(len[..|len| - 1]) + (if len[|len| - 1] > 0 then [|len| - 1] else [])
  }

  // The symbols of at most b bits, and of b bits, as multisets; and what the last entry adds to them.
  function HeldUpTo(len: seq<nat>, b: nat): multiset<nat> {
    multiset(SymsUpTo(len, b))
  }

  function HeldAt(len: seq<nat>, b: nat): multiset<nat> {
    multiset(SymsOfLen(len, b))
  }

  function LastUpTo(len: seq<nat>, b: nat): multiset<nat>
    requires len != []
  {
    if 0 < len[|len| - 1] <= b then multiset{|len| - 1} else multiset{}
  }

  function LastAt(len: seq<nat>, b: nat): multiset<nat>
    requires len != []
  {
    if len[|len| - 1] == b then multiset{|len| - 1} else multiset{}
  }

  lemma {:induction false} BlockGrows(len: seq<nat>, b: nat)
    requires len != []
    ensures HeldUpTo(len, b) == HeldUpTo(len[..|len| - 1], b) + LastUpTo(len, b)
  {
    hide HeldUpTo, HeldAt, LastUpTo, LastAt;
    var less := len[..|len| - 1];
    if b == 0 {
      NoBlocks(len);
    } else {
      BlockGrows(len, b - 1);
      BlockSplit(len, b);
      BlockSplit(less, b);
      BlockAdds(len, b);
      LastSplit(len, b);
      Regroup(HeldUpTo(less, b - 1), LastUpTo(len, b - 1), HeldAt(less, b), LastAt(len, b));
    }
  }

  lemma NoBlocks(len: seq<nat>)
    requires len != []
    ensures HeldUpTo(len, 0) == HeldUpTo(len[..|len| - 1], 0) + LastUpTo(len, 0)
  {
  }

  lemma BlockSplit(len: seq<nat>, b: nat)
    requires b > 0
    ensures HeldUpTo(len, b) == HeldUpTo(len, b - 1) + HeldAt(len, b)
  {
    hide SymsOfLen;
  }

  lemma BlockAdds(len: seq<nat>, b: nat)
    requires len != []
    ensures HeldAt(len, b) == HeldAt(len[..|len| - 1], b) + LastAt(len, b)
  {
  }

  lemma LastSplit(len: seq<nat>, b: nat)
    requires len != [] && b > 0
    ensures LastUpTo(len, b) == LastUpTo(len, b - 1) + LastAt(len, b)
  {
  }

  lemma Regroup(a: multiset<nat>, x: multiset<nat>, b: multiset<nat>, y: multiset<nat>)
    ensures (a + x) + (b + y) == (a + b) + (x + y)
  {
  }

  lemma {:induction false} BlocksHoldUsed(len: seq<nat>, b: nat)
    requires forall s | 0 <= s < |len| :: len[s] <= b
    ensures multiset(SymsUpTo(len, b)) == multiset(UsedList(len))
  {
    if len == [] {
      EmptyBlocks(len, b);
    } else {
      BlocksHoldUsed(len[..|len| - 1], b);
      BlockGrows(len, b);
    }
  }

  lemma {:induction false} EmptyBlocks(len: seq<nat>, b: nat)
    requires len == []
    ensures SymsUpTo(len, b) == []
  {
    if b > 0 {
      EmptyBlocks(len, b - 1);
    }
  }

  // Position k of the block list: which length and rank it holds.
  lemma {:induction false} BlockOf(len: seq<nat>, b: nat, k: nat)
    requires k < |SymsUpTo(len, b)|
    ensures var s := SymsUpTo(len, b)[k];
      s < |len| && 1 <= len[s] <= b && k == FirstSym(len, len[s]) + Rank(len, s) && Rank(len, s) < BlCount(len, len[s])
  {
    if k < |SymsUpTo(len, b - 1)| {
      BlockOf(len, b - 1, k);
    } else {
      var r := k - |SymsUpTo(len, b - 1)|;
      SymsOfLenAt(len, b, r);
      RankOf(len, b, r);
    }
  }

  lemma RankOf(len: seq<nat>, b: nat, k: nat)
    requires k < Count(len, b) && SymsOfLen(len, b)[k] < |len| && len[SymsOfLen(len, b)[k]] == b
    ensures Rank(len, SymsOfLen(len, b)[k]) == k
  {
    var s := SymsOfLen(len, b)[k];
    RankFinds(len, s);
    var r := Rank(len, s);
    if r < k {
      SymsOfLenOrder(len, b, r, k);
    } else if k < r {
      SymsOfLenOrder(len, b, k, r);
    }
  }

  lemma BlocksSorted(len: seq<nat>, b: nat)
    ensures Sorted(ByLength(len), SymsUpTo(len, b))
  {
    var r := SymsUpTo(len, b);
    forall i, j | 0 <= i < j < |r|
      ensures !ByLength(len)(r[j], r[i])
    {
      BlockOf(len, b, i);
      BlockOf(len, b, j);
      if len[r[j]] < len[r[i]] {
        FirstSymGap(len, len[r[j]], len[r[i]]);
      } else if len[r[j]] == len[r[i]] && r[j] < r[i] {
        RankOrder(len, r[j], r[i]);
      }
    }
  }

  lemma {:induction false} FirstSymGap(len: seq<nat>, a: nat, b: nat)
    requires 1 <= a < b
    ensures FirstSym(len, b) >= FirstSym(len, a) + BlCount(len, a)
    decreases b - a
  {
    if b > a + 1 {
      FirstSymGap(len, a, b - 1);
    }
  }

  lemma SortedSyms(len: seq<nat>)
    ensures Sort(ByLength(len), UsedList(len)) == SymsUpTo(len, MaxLen(len))
  {
    var less := ByLength(len);
    SortSorts(less, UsedList(len));
    SortPermutes(less, UsedList(len));
    AllWithinMax(len);
    BlocksHoldUsed(len, MaxLen(len));
    BlocksSorted(len, MaxLen(len));
    SortedUnique(less, Sort(less, UsedList(len)), SymsUpTo(len, MaxLen(len)));
  }

  lemma UsedAppears(len: seq<nat>, s: nat)
    requires s < |len| && len[s] > 0
    ensures s in SymsUpTo(len, MaxLen(len))
  {
    RankFinds(len, s);
    MaxLenBounds(len, s);
    BlockBounds(len, len[s], Rank(len, s));
  }

  lemma BlockBounds(len: seq<nat>, b: nat, k: nat)
    requires 1 <= b <= MaxLen(len) && k < BlCount(len, b)
    ensures FirstSym(len, b) + k < |SymsUpTo(len, MaxLen(len))|
    ensures SymsUpTo(len, MaxLen(len))[FirstSym(len, b) + k] == SymsOfLen(len, b)[k]
  {
    BlockInPrefix(len, b, MaxLen(len), k);
  }

  // ---- The model ----

  datatype BuildError = EmptyAlphabet | SizeMismatch | EmptyModel
  datatype WriteResult = Written | ZeroLength | BadBitCount
  datatype BuildResult = Built | Failed(error: BuildError)

  // The derived tables are those of the length table.
  ghost predicate TablesOf(len: seq<nat>, maxLen: nat, blCount: seq<nat>, firstCode: seq<nat>,
                           symsSorted: seq<nat>, firstSym: seq<nat>, code: seq<nat>)
  {
    && maxLen == MaxLen(len) > 0
    && |blCount| == |firstCode| == |firstSym| == maxLen + 1
    && (forall b | 0 <= b <= maxLen :: blCount[b] == BlCount(len, b) && firstCode[b] == FirstCode(len, b))
    && (forall b | 1 <= b <= maxLen :: firstSym[b] == FirstSym(len, b))
    && symsSorted == SymsUpTo(len, maxLen)
    && |code| == |len| && (forall s | 0 <= s < |len| :: code[s] == Code(len, s))
  }

  class HuffmanCanonicalModel {
    var S: nat
    var len: seq<nat>
    var maxLen: nat
    var blCount: seq<nat>
    var firstCode: seq<nat>
    var symsSorted: seq<nat>
    var firstSym: seq<nat>
    var code: seq<nat>

    constructor (size: nat, lengths: seq<nat>)
      ensures S == size && len == lengths
    {
      S, len := size, lengths;
      maxLen := 0;
      blCount, firstCode, symsSorted, firstSym, code := [], [], [], [], [];
    }

    ghost predicate Ready()
      reads this
    {
      S == |len| > 0 && TablesOf(len, maxLen, blCount, firstCode, symsSorted, firstSym, code)
    }

    method BuildDerivedTables() returns (r: BuildResult)
      requires |len| < TWO_16
      modifies this
      ensures S == old(S) && len == old(len)
      ensures r == if S == 0 then Failed(EmptyAlphabet) else if |len| != S then Failed(SizeMismatch)
                   else if MaxLen(len) == 0 then Failed(EmptyModel) else Built
      ensures r.Built? ==> Ready()
    {
      if S == 0 {
        return Failed(EmptyAlphabet);
      }
      if |len| != S {
        return Failed(SizeMismatch);
      }
      ComputeMaxLen();
      if maxLen == 0 {
        return Failed(EmptyModel);
      }
      CountLengths();
      ComputeFirstCodes();
      SortSymbols();
      ComputeFirstSyms();
      AssignCodes();
      return Built;
    }

    method ComputeMaxLen()
      modifies `maxLen
      ensures maxLen == MaxLen(len)
    {
      maxLen := 0;
      for i := 0 to |len|
        invariant maxLen == MaxLen(len[..i])
      {
        assert len[..i + 1][..i] == len[..i];
        if len[i] > 0 {
          maxLen := if len[i] > maxLen then len[i] else maxLen;
        }
      }
      assert len[..|len|] == len;
    }

    method CountLengths()
      requires maxLen == MaxLen(len)
      modifies `blCount
      ensures |blCount| == maxLen + 1
      ensures forall b | 0 <= b <= maxLen :: blCount[b] == BlCount(len, b)
    {
      blCount := Zeros(maxLen + 1);
      AllWithinMax(len);
      for i := 0 to |len|
        invariant |blCount| == maxLen + 1
        invariant forall b | 0 <= b <= maxLen :: blCount[b] == BlCount(len[..i], b)
      {
        assert len[..i + 1][..i] == len[..i];
        if len[i] > 0 {
          blCount := blCount[len[i] := blCount[len[i]] + 1];
        }
      }
      assert len[..|len|] == len;
    }

    method ComputeFirstCodes()
      requires |blCount| == maxLen + 1 && forall b | 0 <= b <= maxLen :: blCount[b] == BlCount(len, b)
      modifies `firstCode
      ensures |firstCode| == maxLen + 1
      ensures forall b | 0 <= b <= maxLen :: firstCode[b] == FirstCode(len, b)
    {
      hide Doubled, BlCount;
      firstCode := Zeros(maxLen + 1);
      var codeVal := 0;
      for bits := 1 to maxLen + 1
        invariant |firstCode| == maxLen + 1 && codeVal == FirstCode(len, bits - 1)
        invariant forall b | 0 <= b < bits :: firstCode[b] == FirstCode(len, b)
      {
        codeVal := Doubled(codeVal, blCount[bits - 1]);
        firstCode := firstCode[bits := codeVal];
      }
    }

    method SortSymbols()
      requires maxLen == MaxLen(len)
      modifies `symsSorted
      ensures symsSorted == SymsUpTo(len, maxLen)
    {
      symsSorted := [];
      for sym := 0 to |len|
        invariant symsSorted == UsedList(len[..sym])
      {
        assert len[..sym + 1][..sym] == len[..sym];
        if len[sym] > 0 {
          symsSorted := symsSorted + [sym];
        }
      }
      assert len[..|len|] == len;
      SortedSyms(len);
      symsSorted := Sort(ByLength(len), symsSorted);
    }

    method ComputeFirstSyms()
      requires |blCount| == maxLen + 1 && forall b | 0 <= b <= maxLen :: blCount[b] == BlCount(len, b)
      modifies `firstSym
      ensures |firstSym| == maxLen + 1
      ensures forall b | 1 <= b <= maxLen :: firstSym[b] == FirstSym(len, b)
    {
      firstSym := Zeros(maxLen + 1);
      var pos := 0;
      for bits := 1 to maxLen + 1
        invariant |firstSym| == maxLen + 1 && pos == FirstSym(len, bits)
        invariant forall b | 1 <= b < bits :: firstSym[b] == FirstSym(len, b)
      {
        firstSym := firstSym[bits := pos];
        pos := pos + blCount[bits];
      }
    }

    method AssignCodes()
      requires S == |len| && maxLen == MaxLen(len) && symsSorted == SymsUpTo(len, maxLen)
      requires |firstCode| == maxLen + 1 && forall b | 0 <= b <= maxLen :: firstCode[b] == FirstCode(len, b)
      modifies `code
      ensures |code| == S && (forall s | 0 <= s < S :: code[s] == Code(len, s))
    {
      code := Zeros(S);
      var nextCode := firstCode;
      for k := 0 to |symsSorted|
        invariant |nextCode| == maxLen + 1
        invariant forall b | 1 <= b <= maxLen :: nextCode[b] == NextCode(len, b, k)
        invariant CodesSoFar(len, code, k)
      {
        nextCode := AssignOne(k, nextCode);
      }
      CodesComplete(len, code);
    }

    // code[sym] = next_code[L]; next_code[L] += 1 for the k-th sorted symbol.
    method AssignOne(k: nat, nextCode: seq<nat>) returns (next: seq<nat>)
      requires maxLen == MaxLen(len) && symsSorted == SymsUpTo(len, maxLen) && k < |symsSorted|
      requires |nextCode| == maxLen + 1 && CodesSoFar(len, code, k)
      requires forall b | 1 <= b <= maxLen :: nextCode[b] == NextCode(len, b, k)
      modifies `code
      ensures CodesSoFar(len, code, k + 1)
      ensures |next| == maxLen + 1 && forall b | 1 <= b <= maxLen :: next[b] == NextCode(len, b, k + 1)
    {
      hide SymsUpTo, MaxLen, NextCode, Code, Low32;
      var sym := symsSorted[k];
      NextCodeOwn(len, k, sym);
      NextCodeOthers(len, k, sym);
      CodesGrow(len, code, k, sym);
      code := code[sym := nextCode[len[sym]]];
      next := nextCode[len[sym] := Low32(nextCode[len[sym]] + 1)];
    }

    // Appends the symbol's code; a symbol without a code, or with one of more than 32 bits, is an
    // error and nothing is written.
    method EncodeSymbol(bw: BitWriter, sym: nat) returns (w: WriteResult)
      requires Ready() && sym < S && bw.Valid()
      modifies bw
      ensures bw.Valid()
      ensures w == if len[sym] == 0 then ZeroLength else if len[sym] > 32 then BadBitCount else Written
      ensures bw.bits == old(bw.bits) + (if w == Written then Codeword(len, sym) else [])
    {
      if len[sym] == 0 {
        return ZeroLength;
      }
      var ok := bw.WriteBits(code[sym], len[sym]);
      return if ok then Written else BadBitCount;
    }

    // The table test for a value of b bits.
    method Lookup(b: nat, v: nat) returns (found: bool, sym: nat)
      requires Ready() && 1 <= b <= maxLen
      ensures MatchAt(len, b, v) == if found then Found(sym) else NoMatch
    {
      hide MaxLen, BlCount, FirstCode, FirstSym, SymsUpTo, Low32, MatchAt, Code;
      var first, count := firstCode[b], blCount[b];
      LookupMeans(len, b, v, first, count);
      if first <= v < Low32(first + count) {
        return true, symsSorted[firstSym[b] + (v - first)];
      }
      return false, 0;
    }

    // One symbol and its exact length; 0 after maxLen bits if nothing matched.
    method DecodeSymbol(br: BitReader) returns (sym: nat)
      requires Ready() && br.Valid()
      modifies br
      ensures br.Valid()
      ensures match Next(len, br.bits, old(br.pos))
        case Hit(s, used) => sym == s && br.pos == old(br.pos) + used
        case Miss => sym == 0 && br.pos == old(br.pos) + maxLen
        case Starved => true
    {
      var codeVal: nat := 0;
      ghost var start, ahead := br.pos, Ahead(br.bits, br.pos);
      ghost var d := Decode(len, ahead);
      for bits := 1 to maxLen + 1
        invariant br.Valid() && br.pos == start + bits - 1
        invariant DecodesTo(len, ahead, bits - 1, codeVal, d)
      {
        var bit := br.ReadBit();
        ReadOne(len, ahead, bits - 1, codeVal, bit, d);
        codeVal := Shift(codeVal, bit);
        var found;
        found, sym := Lookup(bits, codeVal);
        if found {
          return;
        }
      }
      return 0;
    }
  }

  lemma LookupMeans(len: seq<nat>, b: nat, v: nat, first: nat, count: nat)
    requires 1 <= b <= MaxLen(len) && first == FirstCode(len, b) && count == BlCount(len, b)
    ensures first <= v < Low32(first + count) ==>
      var i := FirstSym(len, b) + (v - first);
      i < |SymsUpTo(len, MaxLen(len))| && MatchAt(len, b, v) == Found(SymsUpTo(len, MaxLen(len))[i])
    ensures !(first <= v < Low32(first + count)) ==> MatchAt(len, b, v) == NoMatch
  {
    hide MaxLen, FirstCode, FirstSym, SymsUpTo, SymsOfLen;
    Low32Below(first + count);
    if first <= v < Low32(first + count) {
      BlockBounds(len, b, v - first);
    }
  }

  lemma Low32Below(x: nat)
    ensures Low32(x) <= x
  {
  }

  // The loop of DecodeSymbol after b bits: the rest of the run gives d, or the stream has ended.
  ghost predicate DecodesTo(len: seq<nat>, bits: seq<bool>, b: nat, val: nat, d: Decoded)
    requires b <= MaxLen(len)
  {
    if b <= |bits| then DecodeFrom(len, bits, b, val) == d else d == Starved
  }

  lemma ReadOne(len: seq<nat>, bits: seq<bool>, b: nat, val: nat, bit: bool, d: Decoded)
    requires b < MaxLen(len) && DecodesTo(len, bits, b, val, d) && (b < |bits| ==> bit == bits[b])
    ensures MatchAt(len, b + 1, Shift(val, bit)).Found? ==>
      d == Starved || d == Hit(MatchAt(len, b + 1, Shift(val, bit)).sym, b + 1)
    ensures MatchAt(len, b + 1, Shift(val, bit)).NoMatch? ==> DecodesTo(len, bits, b + 1, Shift(val, bit), d)
  {
  }

  // ---- The running next_code table ----

  function Clamp(x: int, hi: nat): nat {
    if x <= 0 then 0 else if x >= hi then hi else x
  }

  // next_code[b] once the first k sorted symbols have their codes.
  function NextCode(len: seq<nat>, b: nat, k: nat): nat {
    Low32(FirstCode(len, b) + Clamp(k - FirstSym(len, b), BlCount(len, b)))
  }

  lemma NextCodeOwn(len: seq<nat>, k: nat, s: nat)
    requires k < |SymsUpTo(len, MaxLen(len))| && s == SymsUpTo(len, MaxLen(len))[k]
    ensures s < |len| && 1 <= len[s] <= MaxLen(len) && NextCode(len, len[s], k) == Code(len, s)
    ensures NextCode(len, len[s], k + 1) == Low32(NextCode(len, len[s], k) + 1)
  {
    BlockOf(len, MaxLen(len), k);
    OwnCode(len, k, s, len[s]);
  }

  lemma OwnCode(len: seq<nat>, k: nat, s: nat, b: nat)
    requires s < |len| && len[s] == b >= 1 && k == FirstSym(len, b) + Rank(len, s) && Rank(len, s) < BlCount(len, b)
    ensures NextCode(len, b, k) == Code(len, s)
    ensures NextCode(len, b, k + 1) == Low32(NextCode(len, b, k) + 1)
  {
    InsideBlock(len, b, k, Rank(len, s));
  }

  lemma InsideBlock(len: seq<nat>, b: nat, k: nat, r: nat)
    requires r < BlCount(len, b) && k == FirstSym(len, b) + r
    ensures NextCode(len, b, k) == Low32(FirstCode(len, b) + r)
    ensures NextCode(len, b, k + 1) == Low32(NextCode(len, b, k) + 1)
  {
    Low32Add(FirstCode(len, b) + r, 1);
  }

  lemma NextCodeOthers(len: seq<nat>, k: nat, s: nat)
    requires k < |SymsUpTo(len, MaxLen(len))| && s == SymsUpTo(len, MaxLen(len))[k] && s < |len|
    ensures forall b | 1 <= b <= MaxLen(len) && b != len[s] :: NextCode(len, b, k + 1) == NextCode(len, b, k)
  {
    BlockOf(len, MaxLen(len), k);
    forall b | 1 <= b <= MaxLen(len) && b != len[s]
      ensures NextCode(len, b, k + 1) == NextCode(len, b, k)
    {
      OutsideBlock(len, len[s], b, k, Rank(len, s));
    }
  }

  lemma OutsideBlock(len: seq<nat>, own: nat, b: nat, k: nat, r: nat)
    requires own >= 1 && b >= 1 && b != own && r < BlCount(len, own) && k == FirstSym(len, own) + r
    ensures NextCode(len, b, k + 1) == NextCode(len, b, k)
  {
    hide Low32, FirstCode, FirstSym, BlCount;
    if b < own {
      FirstSymGap(len, b, own);
    } else {
      FirstSymGap(len, own, b);
    }
  }

  // The first k sorted symbols have their codes, the others still 0.
  ghost predicate CodesSoFar(len: seq<nat>, code: seq<nat>, k: nat)
    requires k <= |SymsUpTo(len, MaxLen(len))|
  {
    && |code| == |len|
    && forall s | 0 <= s < |len| :: code[s] == if s in SymsUpTo(len, MaxLen(len))[..k] then Code(len, s) else 0
  }

  lemma CodesGrow(len: seq<nat>, code: seq<nat>, k: nat, s: nat)
    requires k < |SymsUpTo(len, MaxLen(len))| && s == SymsUpTo(len, MaxLen(len))[k] && s < |len|
    requires CodesSoFar(len, code, k)
    ensures CodesSoFar(len, code[s := Code(len, s)], k + 1)
  {
    var r := SymsUpTo(len, MaxLen(len));
    assert r[..k + 1] == r[..k] + [s];
  }

  lemma CodesComplete(len: seq<nat>, code: seq<nat>)
    requires CodesSoFar(len, code, |SymsUpTo(len, MaxLen(len))|)
    ensures forall s | 0 <= s < |len| :: code[s] == Code(len, s)
  {
    var r := SymsUpTo(len, MaxLen(len));
    assert r[..|r|] == r;
    forall s | 0 <= s < |len| && len[s] > 0
      ensures s in r
    {
      UsedAppears(len, s);
    }
  }

  // ---- BuildHuffmanCanonicalModel ----

  lemma {:induction false} SameMask(f: seq<nat>, g: seq<nat>, h: nat -> nat)
    requires |f| == |g| && forall s | 0 <= s < |f| :: f[s] > 0 <==> g[s] > 0
    ensures UsedSum(f, h) == UsedSum(g, h)
  {
    if f != [] {
      SameMask(f[..|f| - 1], g[..|g| - 1], h);
    }
  }

  lemma KraftOfTable(freq: seq<nat>, cap: nat)
    requires Shallow(Coded(freq))
    ensures Kraft(CodeLengths(freq), CodeLengths(freq), cap) == Kraft(Coded(freq), CodeLengths(freq), cap)
  {
    forall s | 0 <= s < |Coded(freq)|
      ensures CodeLengths(freq)[s] > 0 <==> Coded(freq)[s] > 0
    {
      UsedIffCoded(freq, s);
    }
    SameMask(Coded(freq), CodeLengths(freq), KraftTerm(CodeLengths(freq), cap));
  }

  // A frequency table with a used symbol gives a decodable code, complete from two symbols on.
  lemma TableIsKraft(freq: seq<nat>)
    requires Shallow(Coded(freq)) && UsedCount(Coded(freq)) >= 1
    ensures KraftLe(CodeLengths(freq)) && MaxLen(CodeLengths(freq)) > 0
    ensures UsedCount(Coded(freq)) >= 2 ==> KraftEq(CodeLengths(freq))
  {
    var len := CodeLengths(freq);
    KraftOfTable(freq, MaxLen(len));
    AllWithinMax(len);
    if UsedCount(Coded(freq)) >= 2 {
      KraftEquality(freq, MaxLen(len));
      var d := RootHeight(freq);
    } else {
      OneSymbolTable(freq);
    }
  }

  lemma {:induction false} AllOnes(f: seq<nat>, len: seq<nat>)
    requires |f| <= |len| && forall s | 0 <= s < |f| && f[s] > 0 :: len[s] == 1
    ensures UsedSum(f, KraftTerm(len, 1)) == UsedCount(f)
  {
    if f != [] {
      AllOnes(f[..|f| - 1], len);
    }
  }

  lemma OneSymbolTable(freq: seq<nat>)
    requires Shallow(Coded(freq)) && UsedCount(Coded(freq)) == 1
    ensures MaxLen(CodeLengths(freq)) == 1
    ensures Kraft(Coded(freq), CodeLengths(freq), 1) == 1
  {
    var f, len := Coded(freq), CodeLengths(freq);
    QueueSize(f);
    forall s | 0 <= s < |f|
      ensures len[s] == if f[s] > 0 then 1 else 0
    {
      FewUsed(f, s);
    }
    AllOnes(f, len);
    var q := LeafQueue(f);
    LeafQueueHolds(f);
    assert Proper(q[0], f);
    MaxLenBounds(len, q[0].sym);
    if MaxLen(len) > 0 {
      var d := MaxLenAttained(len);
    }
  }

  method BuildHuffmanCanonicalModel(freq: seq<nat>) returns (model: HuffmanCanonicalModel, r: BuildResult)
    requires forall s | 0 <= s < |freq| :: freq[s] < TWO_32
    ensures fresh(model) && model.len == CodeLengths(freq)
    ensures r == if |freq| % TWO_16 == 0 then Failed(EmptyAlphabet)
                 else if MaxLen(CodeLengths(freq)) == 0 then Failed(EmptyModel) else Built
    ensures r.Built? ==> model.Ready()
  {
    var len := HuffmanBuild.HuffmanCodeLengths(freq);
    model := new HuffmanCanonicalModel(|freq| % TWO_16, len[..]);
    r := model.BuildDerivedTables();
  }
}
