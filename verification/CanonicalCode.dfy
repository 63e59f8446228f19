// The canonical code of section 3.2.2 of RFC 1951 as the derived tables hold it: specification
// functions over a length table (0 = symbol unused), with the source's 32-bit arithmetic.
module CanonicalCode {
  import opened Arith
  import opened BitIo
  import opened HuffmanOptimality

  function MaxLen(len: seq<nat>): nat {
    if len == [] then 0
    else
      var m := MaxLen(len[..|len| - 1]);
      if len[|len| - 1] > m then len[|len| - 1] else m
  }

  lemma {:induction false} MaxLenBounds(len: seq<nat>, s: nat)
    requires s < |len|
    ensures len[s] <= MaxLen(len)
  {
    if s < |len| - 1 {
      MaxLenBounds(len[..|len| - 1], s);
    }
  }

  lemma AllWithinMax(len: seq<nat>)
    ensures forall s | 0 <= s < |len| :: len[s] <= MaxLen(len)
  {
    forall s | 0 <= s < |len|
      ensures len[s] <= MaxLen(len)
    {
      MaxLenBounds(len, s);
    }
  }

  lemma {:induction false} MaxLenAttained(len: seq<nat>) returns (s: nat)
    requires MaxLen(len) > 0
    ensures s < |len| && len[s] == MaxLen(len)
  {
    var n := |len| - 1;
    if len[n] > MaxLen(len[..n]) {
      s := n;
    } else {
      s := MaxLenAttained(len[..n]);
    }
  }

  function Count(len: seq<nat>, b: nat): (c: nat)
    ensures c <= |len|
  {
    if len == [] then 0
    else Count(len[..|len| - 1], b) + (if len[|len| - 1] == b then 1 else 0)
  }

  // bl_count: unused symbols are not counted.
  function BlCount(len: seq<nat>, b: nat): nat {
    if b == 0 then 0 else Count(len, b)
  }

  // The first code of b bits, in exact arithmetic and as the 32-bit value the table stores.
  function First(len: seq<nat>, b: nat): nat {
    if b == 0 then 0 else 2 * (First(len, b - 1) + BlCount(len, b - 1))
  }

  function FirstCode(len: seq<nat>, b: nat): nat {
    if b == 0 then 0 else Doubled(FirstCode(len, b - 1), BlCount(len, b - 1))
  }

  // (code_val + count) << 1 in 32 bits.
  function Doubled(codeVal: nat, count: nat): nat {
    Low32(2 * Low32(codeVal + count))
  }

  // One past the last code of b bits, exactly.
  function Past(len: seq<nat>, b: nat): nat {
    First(len, b) + BlCount(len, b)
  }

  function SymsOfLen(len: seq<nat>, b: nat): (r: seq<nat>)
    ensures |r| == Count(len, b)
  {
    if len == [] then []
    else
      var s := |len| - 1;
      var p := SymsOfLen(len[..s], b);
      if len[s] == b then p + [s] else p
  }

  // syms_sorted, block by block: all codes of at most b bits.
  function SymsUpTo(len: seq<nat>, b: nat): (r: seq<nat>)
    ensures |r| == FirstSym(len, b + 1)
  {
    if b == 0 then [] else SymsUpTo(len, b - 1) + SymsOfLen(len, b)
  }

  // Where the block of b-bit codes starts in syms_sorted.
  function FirstSym(len: seq<nat>, b: nat): nat {
    if b <= 1 then 0 else FirstSym(len, b - 1) + BlCount(len, b - 1)
  }

  function Rank(len: seq<nat>, s: nat): (r: nat)
    requires s < |len|
  {
    Count(len[..s], len[s])
  }

  function Code(len: seq<nat>, s: nat): nat
    requires s < |len|
  {
    if len[s] == 0 then 0 else Low32(FirstCode(len, len[s]) + Rank(len, s))
  }

  // What EncodeSymbol appends.
  function Codeword(len: seq<nat>, s: nat): seq<bool>
    requires s < |len|
  {
    Bits(Code(len, s), len[s])
  }

  datatype Decoded =
    | Hit(sym: nat, used: nat)
    | Miss      // no code of any length matched: DecodeSymbol falls through
    | Starved   // the stream ended first

  datatype Match = Found(sym: nat) | NoMatch

  // The test DecodeSymbol makes after reading b bits into v, in 32-bit arithmetic.
  function MatchAt(len: seq<nat>, b: nat, v: nat): Match
    requires b >= 1
  {
    var first, count := FirstCode(len, b), BlCount(len, b);
    if first <= v < Low32(first + count) then
      Found(SymsOfLen(len, b)[v - first])
    else NoMatch
  }

  // (code_val << 1) | bit in 32 bits.
  function Shift(val: nat, bit: bool): nat {
    Low32(2 * val + (if bit then 1 else 0))
  }

  // DecodeSymbol from the point where b bits have been read into val.
  function DecodeFrom(len: seq<nat>, bits: seq<bool>, b: nat, val: nat): Decoded
    requires b <= MaxLen(len)
    decreases MaxLen(len) - b
  {
    if b == MaxLen(len) then Miss
    else if b >= |bits| then Starved
    else
      var v := Shift(val, bits[b]);
      match MatchAt(len, b + 1, v)
      case Found(s) => Hit(s, b + 1)
      case NoMatch => DecodeFrom(len, bits, b + 1, v)
  }

  function Decode(len: seq<nat>, bits: seq<bool>): Decoded {
    DecodeFrom(len, bits, 0, 0)
  }

  lemma {:induction false} BlockInPrefix(len: seq<nat>, b: nat, top: nat, k: nat)
    requires 1 <= b <= top && k < BlCount(len, b)
    ensures FirstSym(len, b) + k < |SymsUpTo(len, top)|
    ensures SymsUpTo(len, top)[FirstSym(len, b) + k] == SymsOfLen(len, b)[k]
  {
    if b < top {
      BlockInPrefix(len, b, top - 1, k);
    }
  }

  lemma {:induction false} SymsOfLenAt(len: seq<nat>, b: nat, k: nat)
    requires k < Count(len, b)
    ensures SymsOfLen(len, b)[k] < |len| && len[SymsOfLen(len, b)[k]] == b
  {
    var n := |len| - 1;
    if k < Count(len[..n], b) {
      SymsOfLenAt(len[..n], b, k);
    }
  }

  lemma {:induction false} SymsOfLenOrder(len: seq<nat>, b: nat, j: nat, k: nat)
    requires j < k < Count(len, b)
    ensures SymsOfLen(len, b)[j] < SymsOfLen(len, b)[k]
  {
    var n := |len| - 1;
    if k < Count(len[..n], b) {
      SymsOfLenOrder(len[..n], b, j, k);
    } else {
      SymsOfLenAt(len[..n], b, j);
    }
  }

  // ---- Counting and ranks ----

  lemma {:induction false} CountSplit(len: seq<nat>, s: nat, b: nat)
    requires s <= |len|
    ensures Count(len[..s], b) <= Count(len, b)
    ensures s < |len| && len[s] == b ==> Count(len[..s], b) < Count(len, b)
  {
    if s == |len| {
      assert len[..s] == len;
    } else {
      var n := |len| - 1;
      CountSplit(len[..n], s, b);
      assert len[..n][..s] == len[..s];
    }
  }

  lemma {:induction false} RankFinds(len: seq<nat>, s: nat)
    requires s < |len|
    ensures Rank(len, s) < Count(len, len[s]) && SymsOfLen(len, len[s])[Rank(len, s)] == s
  {
    CountSplit(len, s, len[s]);
    var n := |len| - 1;
    if s < n {
      RankFinds(len[..n], s);
      assert len[..n][..s] == len[..s];
    }
  }

  lemma {:induction false} RankOrder(len: seq<nat>, s: nat, t: nat)
    requires s < t < |len| && len[s] == len[t]
    ensures Rank(len, s) < Rank(len, t)
  {
    CountSplit(len[..t], s, len[s]);
    assert len[..t][..s] == len[..s];
  }

  // ---- Kraft's sum in terms of the tables ----

  // Codes of at most b bits, scaled to b bits.
  function KraftUpTo(len: seq<nat>, b: nat): nat {
    if len == [] then 0
    else
      var n := len[|len| - 1];
      KraftUpTo(len[..|len| - 1], b) + (if 0 < n <= b then Pow2(b - n) else 0)
  }

  lemma {:induction false} KraftUpToStep(len: seq<nat>, b: nat)
    requires b > 0
    ensures KraftUpTo(len, b) == 2 * KraftUpTo(len, b - 1) + Count(len, b)
  {
    if len != [] {
      KraftUpToStep(len[..|len| - 1], b);
    }
  }

  lemma {:induction false} KraftUpToZero(len: seq<nat>)
    ensures KraftUpTo(len, 0) == 0
  {
    if len != [] {
      KraftUpToZero(len[..|len| - 1]);
    }
  }

  lemma {:induction false} PastIsKraft(len: seq<nat>, b: nat)
    ensures Past(len, b) == KraftUpTo(len, b)
  {
    if b == 0 {
      KraftUpToZero(len);
    } else {
      PastIsKraft(len, b - 1);
      KraftUpToStep(len, b);
    }
  }

  lemma {:induction false} KraftIsKraftUpTo(len: seq<nat>, cap: nat)
    requires forall s | 0 <= s < |len| :: len[s] <= cap
    ensures Kraft(len, len, cap) == KraftUpTo(len, cap)
  {
    if len != [] {
      var n := |len| - 1;
      KraftIsKraftUpTo(len[..n], cap);
      UsedSumAgree(len[..n], KraftTerm(len, cap), KraftTerm(len[..n], cap));
    }
  }

  // Kraft's inequality and equality for a table.
  ghost predicate KraftLe(len: seq<nat>) {
    Kraft(len, len, MaxLen(len)) <= Pow2(MaxLen(len))
  }

  ghost predicate KraftEq(len: seq<nat>) {
    Kraft(len, len, MaxLen(len)) == Pow2(MaxLen(len))
  }

  lemma DoubleLe(first: nat, x: nat, y: nat)
    requires first >= x * y
    ensures 2 * first >= x * (2 * y)
  {
    assert x * (2 * y) == 2 * (x * y);
  }

  lemma {:induction false} PastGrows(len: seq<nat>, a: nat, b: nat)
    requires a < b
    ensures First(len, b) >= Past(len, a) * Pow2(b - a)
    decreases b - a
  {
    if b == a + 1 {
      assert Pow2(1) == 2;
    } else {
      PastGrows(len, a, b - 1);
      DoubleLe(First(len, b - 1), Past(len, a), Pow2(b - 1 - a));
    }
  }

  lemma {:induction false} PastBounded(len: seq<nat>, b: nat)
    requires KraftLe(len) && b <= MaxLen(len)
    ensures Past(len, b) <= Pow2(b)
    decreases MaxLen(len) - b
  {
    if b == MaxLen(len) {
      PastIsKraft(len, b);
      AllWithinMax(len);
      KraftIsKraftUpTo(len, b);
    } else {
      PastBounded(len, b + 1);
    }
  }

  // With at most 32 bits no first code wraps: the stored ones are the exact ones. The end of a
  // block stays within 32 bits too, except that of the 32-bit codes in a complete code.
  lemma {:induction false} FirstExact(len: seq<nat>, b: nat)
    requires KraftLe(len) && b <= MaxLen(len) <= 32
    ensures FirstCode(len, b) == First(len, b) < TWO_32 && Past(len, b) <= Pow2(b)
    ensures b <= 31 ==> Pow2(b) < TWO_32
  {
    hide KraftLe, MaxLen, BlCount, Pow2, Low32;
    PastBounded(len, b);
    if b <= 31 {
      Pow2Below(b);
    } else {
      LastBlockBounded(len);
    }
    if b > 0 {
      FirstExact(len, b - 1);
      SmallDouble(FirstCode(len, b - 1) + BlCount(len, b - 1));
    }
  }

  lemma LastBlockBounded(len: seq<nat>)
    requires KraftLe(len) && MaxLen(len) == 32
    ensures First(len, 32) < TWO_32
  {
    var s := MaxLenAttained(len);
    RankFinds(len, s);
    PastBounded(len, 32);
    Pow2At32();
  }

  lemma Pow2Below(b: nat)
    requires b <= 31
    ensures 2 * Pow2(b) <= TWO_32
  {
    Pow2Mono(b + 1, 32);
    Pow2At32();
  }

  lemma SmallDouble(x: nat)
    requires 2 * x < TWO_32
    ensures Low32(2 * Low32(x)) == 2 * x
  {
  }

  // In general they are the exact ones modulo 2^32.
  lemma {:induction false} FirstModulo(len: seq<nat>, b: nat)
    ensures FirstCode(len, b) == Low32(First(len, b))
  {
    hide BlCount;
    if b > 0 {
      FirstModulo(len, b - 1);
      Low32Add(First(len, b - 1), BlCount(len, b - 1));
      Low32Twice(Past(len, b - 1));
    }
  }

  // ---- The rule for all codes at once ----

  // Over the first n symbols: one unit of len[s] bits for every code that comes before that of s, shorter
  // codes scaled up. Codes are ordered by length, ties by symbol.
  function Earlier(len: seq<nat>, s: nat, n: nat): nat
    requires s < |len| && n <= |len|
  {
    if n == 0 then 0
    else
      var u := n - 1;
      Earlier(len, s, u)
        + (if 0 < len[u] < len[s] || (0 < len[u] == len[s] && u < s) then Pow2(len[s] - len[u]) else 0)
  }

  lemma {:induction false} EarlierSplits(len: seq<nat>, s: nat, n: nat)
    requires s < |len| && len[s] > 0 && n <= |len|
    ensures Earlier(len, s, n) + Count(len[..n], len[s])
         == KraftUpTo(len[..n], len[s]) + Count(len[..Min(n, s)], len[s])
  {
    if n == 0 {
      assert len[..0] == [];
    } else {
      EarlierSplits(len, s, n - 1);
      assert len[..n][..n - 1] == len[..n - 1];
      assert Pow2(0) == 1;
      if n <= s {
        assert Min(n, s) == n;
      }
    }
  }

  // A symbol's code is the room that all earlier codes take, in units of its own length: an independent
  // statement of the canonical rule, exact up to the 32 bits a code is stored in.
  lemma CodeIsRoomBefore(len: seq<nat>, s: nat)
    requires s < |len| && len[s] > 0
    ensures Code(len, s) == Earlier(len, s, |len|) % 0x1_0000_0000
  {
    hide Low32, KraftUpTo, Count, Earlier;
    var b := len[s];
    EarlierSplits(len, s, |len|);
    assert len[..|len|] == len && Min(|len|, s) == s;
    PastIsKraft(len, b);
    FirstModulo(len, b);
    Low32Add(First(len, b), Rank(len, s));
    Low32IsMod(Earlier(len, s, |len|));
  }

  // ---- Bits ----

  lemma {:induction false} BitsPrefix(v: nat, n: nat, b: nat)
    requires b <= n
    ensures Bits(v, n)[..b] == Bits(v / Pow2(n - b), b)
  {
    if b < n {
      BitsPrefix(v / 2, n - 1, b);
      assert Bits(v, n)[..b] == Bits(v / 2, n - 1)[..b];
      DivDiv(v, Pow2(n - 1 - b));
    } else {
      assert v / 1 == v;
    }
  }

  // The bits of a number that fits determine it.
  lemma {:induction false} BitsInjective(v: nat, w: nat, n: nat)
    requires v < Pow2(n) && w < Pow2(n) && Bits(v, n) == Bits(w, n)
    ensures v == w
  {
    if n > 0 {
      assert Bits(v, n)[..n - 1] == Bits(v / 2, n - 1) && Bits(w, n)[..n - 1] == Bits(w / 2, n - 1);
      BitsInjective(v / 2, w / 2, n - 1);
      assert Bits(v, n)[n - 1] == (v % 2 == 1) && Bits(w, n)[n - 1] == (w % 2 == 1);
    }
  }

  lemma DivDiv'(v: nat, p: nat)
    requires p >= 1
    ensures v / p / 2 == v / (2 * p)
  {
    var q := v / p / 2;
    var t := v / p - 2 * q;
    var r := v - v / p * p;
    assert v == (2 * q + t) * p + r && 0 <= r < p && 0 <= t < 2;
    assert (2 * q + t) * p == q * (2 * p) + t * p;
    assert t * p <= p;
    DivUnique(v, 2 * p, q, t * p + r);
  }

  // The number formed by the first b of the n bits of v.
  function TopBits(v: nat, n: nat, b: nat): nat
    requires b <= n
  {
    Quotient(v, Pow2(n - b))
  }

  function Quotient(v: nat, d: nat): nat
    requires d >= 1
  {
    v / d
  }

  lemma BitsAt(v: nat, n: nat, b: nat)
    requires b < n
    ensures TopBits(v, n, b + 1) == 2 * TopBits(v, n, b) + (if Bits(v, n)[b] then 1 else 0)
    ensures TopBits(v, n, n) == v
  {
    BitsPrefix(v, n, b + 1);
    assert Bits(v, n)[..b + 1][b] == Bits(v, n)[b];
    DivDiv'(v, Pow2(n - b - 1));
  }
}
