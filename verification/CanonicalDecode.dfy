// What the canonical tables promise: prefix-free codes, exact decoding, and precisely when the
// 32-bit decode loop can be trusted.
module CanonicalDecode {
  import opened Arith
  import opened BitIo
  import opened CanonicalCode

  // ---- Decoding a codeword ----

  // The loop passes every shorter length: the value read so far is beyond that block.
  lemma PassShorter(len: seq<nat>, s: nat, b: nat)
    requires KraftLe(len) && MaxLen(len) <= 31 && s < |len| && 1 <= b < len[s]
    ensures Code(len, s) / Pow2(len[s] - b) >= Past(len, b)
  {
    var n := len[s];
    CodeExact(len, s, len[s]);
    PastGrows(len, b, n);
    DivLower(Code(len, s), Pow2(n - b), Past(len, b));
  }

  lemma DivLower(v: nat, d: nat, x: nat)
    requires d >= 1 && v >= x * d
    ensures v / d >= x
  {
    if v / d < x {
      Gap(x, v / d, d);
    }
  }

  lemma CodeSum(len: seq<nat>, s: nat, n: nat, first: nat, rank: nat)
    requires s < |len| && len[s] == n > 0
    requires first == FirstCode(len, n) && rank == Rank(len, s) && first + rank < TWO_32
    ensures Code(len, s) == first + rank
  {
  }

  lemma CodeExact(len: seq<nat>, s: nat, n: nat)
    requires KraftLe(len) && MaxLen(len) <= 31 && s < |len| && len[s] == n > 0
    ensures Code(len, s) == First(len, n) + Rank(len, s) < Pow2(n)
    ensures Rank(len, s) < BlCount(len, n)
  {
    RankFinds(len, s);
    MaxLenBounds(len, s);
    FirstExact(len, n);
    CodeSum(len, s, n, First(len, n), Rank(len, s));
  }

  // When nothing wraps the test finds exactly the codes of the block.
  lemma MatchExact(len: seq<nat>, b: nat, v: nat)
    requires KraftLe(len) && MaxLen(len) <= 31 && 1 <= b <= MaxLen(len)
    ensures First(len, b) <= v < Past(len, b) ==> MatchAt(len, b, v) == Found(SymsOfLen(len, b)[v - First(len, b)])
    ensures !(First(len, b) <= v < Past(len, b)) ==> MatchAt(len, b, v) == NoMatch
  {
    FirstExact(len, b);
  }

  lemma DivZero(v: nat, p: nat)
    requires v < p
    ensures v / p == 0
  {
  }

  lemma ShiftExact(val: nat, bit: bool, b: nat)
    requires val < Pow2(b) && b < 31
    ensures Shift(val, bit) == 2 * val + (if bit then 1 else 0) < Pow2(b + 1)
  {
    Pow2Below(b + 1);
  }

  // The test at the symbol's own length finds it; the tests before find nothing.
  lemma MatchCodeword(len: seq<nat>, s: nat, n: nat, b: nat)
    requires KraftLe(len) && MaxLen(len) <= 31 && s < |len| && len[s] == n && 1 <= b <= n
    ensures MatchAt(len, b, TopBits(Code(len, s), n, b)) == if b == n then Found(s) else NoMatch
  {
    if b < n {
      MatchShorter(len, s, n, b);
    } else {
      BitsAt(Code(len, s), n, n - 1);
      MatchOwn(len, s, n);
    }
  }

  lemma MatchShorter(len: seq<nat>, s: nat, n: nat, b: nat)
    requires KraftLe(len) && MaxLen(len) <= 31 && s < |len| && len[s] == n && 1 <= b < n
    ensures MatchAt(len, b, TopBits(Code(len, s), n, b)) == NoMatch
  {
    MaxLenBounds(len, s);
    PassShorter(len, s, b);
    MatchExact(len, b, TopBits(Code(len, s), n, b));
  }

  lemma MatchOwn(len: seq<nat>, s: nat, n: nat)
    requires KraftLe(len) && MaxLen(len) <= 31 && s < |len| && len[s] == n >= 1
    ensures MatchAt(len, n, Code(len, s)) == Found(s)
  {
    MaxLenBounds(len, s);
    MatchExact(len, n, Code(len, s));
    CodeExact(len, s, n);
    RankFinds(len, s);
  }

  lemma {:induction false} DecodeCodewordFrom(len: seq<nat>, s: nat, n: nat, bits: seq<bool>, b: nat, val: nat)
    requires KraftLe(len) && n <= MaxLen(len) <= 31 && s < |len| && len[s] == n > b
    requires |bits| >= n && bits[..n] == Codeword(len, s)
    requires val == TopBits(Code(len, s), n, b) < Pow2(b)
    ensures DecodeFrom(len, bits, b, val) == Hit(s, n)
    decreases n - b
  {
    var v := TopBits(Code(len, s), n, b + 1);
    assert bits[b] == bits[..n][b];
    BitsAt(Code(len, s), n, b);
    ShiftExact(val, bits[b], b);
    MatchCodeword(len, s, n, b + 1);
    if b + 1 < n {
      DecodeCodewordFrom(len, s, n, bits, b + 1, v);
    }
  }

  // Decoding any stream that starts with a symbol's codeword returns the symbol and consumes
  // exactly its length.
  lemma DecodeCodeword(len: seq<nat>, s: nat, rest: seq<bool>)
    requires KraftLe(len) && MaxLen(len) <= 31 && s < |len| && len[s] > 0
    ensures Decode(len, Codeword(len, s) + rest) == Hit(s, len[s])
  {
    CodeExact(len, s, len[s]);
    MaxLenBounds(len, s);
    DivZero(Code(len, s), Pow2(len[s]));
    DecodeCodewordFrom(len, s, len[s], Codeword(len, s) + rest, 0, 0);
  }

  // Any stream that starts with word yields s and moves past word.
  ghost predicate Yields(len: seq<nat>, word: seq<bool>, s: nat) {
    forall rest: seq<bool> :: Decode(len, word + rest) == Hit(s, |word|)
  }

  lemma CodewordYields(len: seq<nat>, s: nat)
    requires KraftLe(len) && MaxLen(len) <= 31 && s < |len| && len[s] > 0
    ensures Yields(len, Codeword(len, s), s)
  {
    forall rest: seq<bool>
      ensures Decode(len, Codeword(len, s) + rest) == Hit(s, len[s])
    {
      DecodeCodeword(len, s, rest);
    }
  }

  // Every code that can be written is exact: its value fits its length.
  lemma WordExact(len: seq<nat>, s: nat, n: nat)
    requires KraftLe(len) && MaxLen(len) <= 32 && s < |len| && len[s] == n > 0
    ensures Code(len, s) == First(len, n) + Rank(len, s) < Past(len, n) <= Pow2(n)
  {
    RankFinds(len, s);
    MaxLenBounds(len, s);
    FirstExact(len, n);
    Pow2Mono(n, 32);
    Pow2At32();
    CodeSum(len, s, n, First(len, n), Rank(len, s));
  }

  lemma QuotientBelow(v: nat, d: nat, x: nat)
    requires d >= 1 && v < x * d
    ensures Quotient(v, d) < x
  {
    var q := v / d;
    assert (x - q) * d > 0;
  }

  lemma QuotientFloor(v: nat, d: nat, x: nat)
    requires d >= 1 && v >= x * d
    ensures Quotient(v, d) >= x
  {
    DivLower(v, d, x);
  }

  lemma PrefixBits(w: nat, m: nat, n: nat)
    requires n <= m
    ensures Bits(w, m)[..n] == Bits(Quotient(w, Pow2(m - n)), n)
  {
    BitsPrefix(w, m, n);
  }

  // The first n of the m bits of w are those of v exactly when they form the number v.
  lemma PrefixValue(v: nat, n: nat, w: nat, m: nat)
    requires n <= m && v < Pow2(n) && w < Pow2(m) && Bits(w, m)[..n] == Bits(v, n)
    ensures Quotient(w, Pow2(m - n)) == v
  {
    hide Quotient, Bits, Pow2;
    PrefixBits(w, m, n);
    Pow2Add(n, m - n);
    QuotientBelow(w, Pow2(m - n), Pow2(n));
    BitsInjective(Quotient(w, Pow2(m - n)), v, n);
  }

  // No codeword is a prefix of another, as long as every code fits the 32 bits WriteBits takes.
  lemma PrefixFree(len: seq<nat>, s: nat, t: nat)
    requires KraftLe(len) && MaxLen(len) <= 32
    requires s < |len| && t < |len| && s != t && len[s] > 0 && len[t] > 0
    ensures !(Codeword(len, s) <= Codeword(len, t))
  {
    hide Quotient, Pow2, KraftLe, MaxLen, Code, Bits;
    var n, m, v := len[s], len[t], Code(len, t);
    WordExact(len, s, n);
    WordExact(len, t, m);
    if n > m {
    } else if n == m {
      RankOrder(len, if s < t then s else t, if s < t then t else s);
      if Bits(v, n) == Bits(Code(len, s), n) {
        BitsInjective(v, Code(len, s), n);
      }
    } else {
      PastGrows(len, n, m);
      QuotientFloor(v, Pow2(m - n), Past(len, n));
      if Bits(v, m)[..n] == Bits(Code(len, s), n) {
        PrefixValue(Code(len, s), n, v, m);
      }
    }
  }

  // ---- Completeness ----

  // A value that has passed every block so far is at least the end of the last one.
  lemma {:induction false} CompleteFrom(len: seq<nat>, bits: seq<bool>, b: nat, val: nat)
    requires KraftEq(len) && MaxLen(len) <= 31 && b <= MaxLen(len) <= |bits|
    requires Past(len, b) <= val < Pow2(b)
    ensures DecodeFrom(len, bits, b, val).Hit?
    decreases MaxLen(len) - b
  {
    if b == MaxLen(len) {
      PastIsKraft(len, b);
      AllWithinMax(len);
      KraftIsKraftUpTo(len, b);
    } else {
      var v := 2 * val + (if bits[b] then 1 else 0);
      ShiftExact(val, bits[b], b);
      MatchExact(len, b + 1, v);
      if v >= Past(len, b + 1) {
        CompleteFrom(len, bits, b + 1, v);
      }
    }
  }

  lemma OnesPass(len: seq<nat>, b: nat)
    requires KraftLe(len) && !KraftEq(len) && MaxLen(len) <= 31 && b < MaxLen(len)
    ensures Shift(Pow2(b) - 1, true) == Pow2(b + 1) - 1
    ensures MatchAt(len, b + 1, Pow2(b + 1) - 1) == NoMatch
  {
    ShiftExact(Pow2(b) - 1, true, b);
    RoomAbove(len, b + 1);
    MatchExact(len, b + 1, Pow2(b + 1) - 1);
  }

  lemma {:induction false} OnesMissFrom(len: seq<nat>, bits: seq<bool>, b: nat)
    requires KraftLe(len) && !KraftEq(len) && MaxLen(len) <= 31 && b <= MaxLen(len) <= |bits|
    requires forall i | 0 <= i < |bits| :: bits[i]
    ensures DecodeFrom(len, bits, b, Pow2(b) - 1) == Miss
    decreases MaxLen(len) - b
  {
    if b < MaxLen(len) {
      OnesPass(len, b);
      OnesMissFrom(len, bits, b + 1);
    }
  }

  lemma {:induction false} RoomAbove(len: seq<nat>, b: nat)
    requires KraftLe(len) && !KraftEq(len) && b <= MaxLen(len)
    ensures Past(len, b) < Pow2(b)
    decreases MaxLen(len) - b
  {
    if b == MaxLen(len) {
      PastIsKraft(len, b);
      AllWithinMax(len);
      KraftIsKraftUpTo(len, b);
    } else {
      RoomAbove(len, b + 1);
    }
  }

  // The fall-through of DecodeSymbol is unreachable on every stream exactly when Kraft's sum
  // is one.
  lemma CompleteIffKraftEq(len: seq<nat>)
    requires KraftLe(len) && MaxLen(len) <= 31
    ensures (forall bits: seq<bool> | |bits| >= MaxLen(len) :: Decode(len, bits).Hit?) <==> KraftEq(len)
  {
    if KraftEq(len) {
      forall bits: seq<bool> | |bits| >= MaxLen(len)
        ensures Decode(len, bits).Hit?
      {
        CompleteFrom(len, bits, 0, 0);
      }
    } else {
      var ones := seq(MaxLen(len), _ => true);
      OnesMissFrom(len, ones, 0);
    }
  }

  // ---- Where 32 bits stop being enough ----

  lemma MatchHasLength(len: seq<nat>, b: nat, v: nat)
    requires b >= 1
    ensures var m := MatchAt(len, b, v); m.Found? ==> m.sym < |len| && len[m.sym] == b
  {
    if MatchAt(len, b, v).Found? {
      SymsOfLenAt(len, b, v - FirstCode(len, b));
    }
  }

  // Whatever the arithmetic does, a hit after b bits is a symbol of length b.
  lemma {:induction false} HitHasLength(len: seq<nat>, bits: seq<bool>, b: nat, val: nat)
    requires b <= MaxLen(len)
    ensures var d := DecodeFrom(len, bits, b, val);
      d.Hit? ==> d.sym < |len| && len[d.sym] == d.used && b < d.used <= MaxLen(len)
    decreases MaxLen(len) - b
  {
    if b < MaxLen(len) && b < |bits| {
      var v := Shift(val, bits[b]);
      MatchHasLength(len, b + 1, v);
      HitHasLength(len, bits, b + 1, v);
    }
  }

  lemma {:induction false} TopBlockEmpty(len: seq<nat>)
    requires KraftEq(len) && MaxLen(len) >= 32
    ensures Low32(FirstCode(len, MaxLen(len)) + BlCount(len, MaxLen(len))) == 0
  {
    var m := MaxLen(len);
    FirstModulo(len, m);
    Low32Add(First(len, m), BlCount(len, m));
    PastIsKraft(len, m);
    AllWithinMax(len);
    KraftIsKraftUpTo(len, m);
    Pow2High(m);
  }

  lemma {:induction false} NeverLongest(len: seq<nat>, bits: seq<bool>, b: nat, val: nat)
    requires KraftEq(len) && MaxLen(len) >= 32 && b <= MaxLen(len)
    ensures var d := DecodeFrom(len, bits, b, val); d.Hit? ==> d.used < MaxLen(len)
    decreases MaxLen(len) - b
  {
    if b < MaxLen(len) && b < |bits| {
      TopBlockEmpty(len);
      NeverLongest(len, bits, b + 1, Shift(val, bits[b]));
    }
  }

  // DecodeSymbol's return value; the fall-through returns 0.
  function Value(d: Decoded): nat {
    if d.Hit? then d.sym else 0
  }

  lemma {:induction false} CountEven(len: seq<nat>)
    requires KraftEq(len) && MaxLen(len) > 0
    ensures BlCount(len, MaxLen(len)) >= 2
  {
    var m := MaxLen(len);
    PastIsKraft(len, m);
    AllWithinMax(len);
    KraftIsKraftUpTo(len, m);
    var s := MaxLenAttained(len);
    RankFinds(len, s);
  }

  // A complete code of 32 bits or more has at least two longest symbols and loses each of them but
  // symbol 0, which is what a miss returns: the end of their block wraps to 0, so no code of that
  // length ever matches.
  lemma LongCodeLost(len: seq<nat>) returns (s: nat, t: nat)
    requires KraftEq(len) && MaxLen(len) >= 32
    ensures s < t < |len| && len[s] == len[t] == MaxLen(len)
    ensures forall u, rest: seq<bool> | 0 < u < |len| && len[u] == MaxLen(len) ::
      Value(Decode(len, Codeword(len, u) + rest)) != u
  {
    var m := MaxLen(len);
    CountEven(len);
    var block := SymsOfLen(len, m);
    s, t := block[0], block[1];
    SymsOfLenOrder(len, m, 0, 1);
    SymsOfLenAt(len, m, 0);
    SymsOfLenAt(len, m, 1);
    forall u, rest: seq<bool> | 0 < u < |len| && len[u] == m
      ensures Value(Decode(len, Codeword(len, u) + rest)) != u
    {
      NeverLongest(len, Codeword(len, u) + rest, 0, 0);
      HitHasLength(len, Codeword(len, u) + rest, 0, 0);
    }
  }

  ghost predicate DecodesAll(len: seq<nat>) {
    forall s, rest: seq<bool> | 0 <= s < |len| && len[s] > 0 ::
      Value(Decode(len, Codeword(len, s) + rest)) == s
  }

  // For complete codes, decoding is right for every symbol exactly when no code exceeds 31 bits.
  lemma DecodesAllIff(len: seq<nat>)
    requires KraftEq(len)
    ensures DecodesAll(len) <==> MaxLen(len) <= 31
  {
    if MaxLen(len) <= 31 {
      forall s, rest: seq<bool> | 0 <= s < |len| && len[s] > 0
        ensures Value(Decode(len, Codeword(len, s) + rest)) == s
      {
        DecodeCodeword(len, s, rest);
      }
    } else {
      var s, t := LongCodeLost(len);
      assert Value(Decode(len, Codeword(len, t) + [])) != t;
    }
  }

  // ---- Streams ----

  function Encode(len: seq<nat>, syms: seq<nat>): seq<bool>
    requires forall k | 0 <= k < |syms| :: syms[k] < |len|
  {
    if syms == [] then [] else Encode(len, syms[..|syms| - 1]) + Codeword(len, syms[|syms| - 1])
  }

  // n calls of DecodeSymbol on one reader: the symbols and the final position.
  datatype Decoding = Symbols(syms: seq<nat>, pos: nat) | Exhausted

  function Ahead(bits: seq<bool>, pos: nat): seq<bool> {
    if pos <= |bits| then bits[pos..] else []
  }

  function Next(len: seq<nat>, bits: seq<bool>, pos: nat): Decoded {
    Decode(len, Ahead(bits, pos))
  }

  // The reader as a function of its position.
  function Reader(len: seq<nat>, bits: seq<bool>): nat -> Decoded {
    (pos: nat) => Next(len, bits, pos)
  }

  function Repeat(next: nat -> Decoded, skip: nat, n: nat): Decoding {
    if n == 0 then Symbols([], 0)
    else
      match Repeat(next, skip, n - 1)
      case Exhausted => Exhausted
      case Symbols(done, pos) =>
        match next(pos)
        case Hit(s, used) => Symbols(done + [s], pos + used)
        case Miss => Symbols(done + [0], pos + skip)
        case Starved => Exhausted
  }

  function DecodeMany(len: seq<nat>, bits: seq<bool>, n: nat): Decoding {
    Repeat(Reader(len, bits), MaxLen(len), n)
  }

  lemma {:induction false} EncodePrefix(len: seq<nat>, syms: seq<nat>, n: nat)
    requires n <= |syms| && forall k | 0 <= k < |syms| :: syms[k] < |len|
    ensures Encode(len, syms[..n]) <= Encode(len, syms)
  {
    if n == |syms| {
      assert syms[..n] == syms;
    } else {
      var k := |syms| - 1;
      EncodePrefix(len, syms[..k], n);
      assert syms[..k][..n] == syms[..n];
    }
  }

  lemma NextWord(len: seq<nat>, bits: seq<bool>, pos: nat, word: seq<bool>, s: nat)
    requires Yields(len, word, s) && pos + |word| <= |bits| && bits[pos..pos + |word|] == word
    ensures Next(len, bits, pos) == Hit(s, |word|)
  {
    assert Ahead(bits, pos) == word + bits[pos + |word|..];
  }

  lemma EncodeSplit(len: seq<nat>, syms: seq<nat>, n: nat)
    requires n < |syms| && forall k | 0 <= k < |syms| :: syms[k] < |len|
    ensures Encode(len, syms[..n + 1]) == Encode(len, syms[..n]) + Codeword(len, syms[n])
    ensures Encode(len, syms[..n + 1]) <= Encode(len, syms)
  {
    EncodePrefix(len, syms, n + 1);
    assert syms[..n + 1][..n] == syms[..n];
  }

  // Where the n-th codeword lies in the stream.
  lemma WordAt(len: seq<nat>, syms: seq<nat>, n: nat, bits: seq<bool>)
    requires n < |syms| && forall k | 0 <= k < |syms| :: syms[k] < |len|
    requires Encode(len, syms) <= bits
    ensures var pos, word := |Encode(len, syms[..n])|, Codeword(len, syms[n]);
      pos + |word| <= |bits| && bits[pos..pos + |word|] == word && |Encode(len, syms[..n + 1])| == pos + |word|
  {
    EncodeSplit(len, syms, n);
    var done, word := Encode(len, syms[..n]), Codeword(len, syms[n]);
    assert done + word <= bits;
  }

  lemma NothingDecoded(next: nat -> Decoded, skip: nat)
    ensures Repeat(next, skip, 0) == Symbols([], 0)
  {
  }

  lemma NothingEncoded(len: seq<nat>, syms: seq<nat>)
    requires forall k | 0 <= k < |syms| :: syms[k] < |len|
    ensures syms[..0] == [] && Encode(len, syms[..0]) == []
  {
  }

  lemma {:induction false} StreamPrefix(len: seq<nat>, syms: seq<nat>, n: nat, bits: seq<bool>)
    requires n <= |syms| && forall k | 0 <= k < |syms| :: syms[k] < |len|
    requires forall k | 0 <= k < n :: Yields(len, Codeword(len, syms[k]), syms[k])
    requires Encode(len, syms) <= bits
    ensures DecodeMany(len, bits, n) == Symbols(syms[..n], |Encode(len, syms[..n])|)
  {
    hide Codeword, Encode, Yields, Next, MaxLen, Repeat;
    if n == 0 {
      NothingDecoded(Reader(len, bits), MaxLen(len));
      NothingEncoded(len, syms);
    } else {
      var pos, s := |Encode(len, syms[..n - 1])|, syms[n - 1];
      StreamPrefix(len, syms, n - 1, bits);
      NextAt(len, syms, n - 1, bits, pos, s);
      OneMore(Reader(len, bits), MaxLen(len), n, syms[..n - 1], syms[..n], pos, s, len[s]);
    }
  }

  lemma NextAt(len: seq<nat>, syms: seq<nat>, n: nat, bits: seq<bool>, pos: nat, s: nat)
    requires n < |syms| && forall k | 0 <= k < |syms| :: syms[k] < |len|
    requires s == syms[n] && pos == |Encode(len, syms[..n])|
    requires Yields(len, Codeword(len, s), s) && Encode(len, syms) <= bits
    ensures Reader(len, bits)(pos) == Hit(s, len[s]) && |Encode(len, syms[..n + 1])| == pos + len[s]
  {
    WordAt(len, syms, n, bits);
    NextWord(len, bits, pos, Codeword(len, s), s);
  }

  lemma OneMore(next: nat -> Decoded, skip: nat, n: nat, done: seq<nat>, done': seq<nat>, pos: nat, s: nat, used: nat)
    requires n > 0 && |done| == n - 1 && |done'| == n && done'[..n - 1] == done && done'[n - 1] == s
    requires Repeat(next, skip, n - 1) == Symbols(done, pos) && next(pos) == Hit(s, used)
    ensures Repeat(next, skip, n) == Symbols(done', pos + used)
  {
    assert done' == done + [s];
  }

  // Encoding then decoding gives the symbols back, whatever padding follows the stream.
  lemma StreamRoundTrip(len: seq<nat>, syms: seq<nat>, pad: seq<bool>)
    requires KraftLe(len) && MaxLen(len) <= 31
    requires forall k | 0 <= k < |syms| :: syms[k] < |len| && len[syms[k]] > 0
    ensures DecodeMany(len, Encode(len, syms) + pad, |syms|) == Symbols(syms, |Encode(len, syms)|)
  {
    forall k | 0 <= k < |syms|
      ensures Yields(len, Codeword(len, syms[k]), syms[k])
    {
      CodewordYields(len, syms[k]);
    }
    StreamPrefix(len, syms, |syms|, Encode(len, syms) + pad);
    assert syms[..|syms|] == syms;
  }
}
