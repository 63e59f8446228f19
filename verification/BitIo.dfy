// Bit streams packed into bytes, most significant bit first.
module BitIo {
  import opened Arith

  // The low n bits of v, most significant first.
  function Bits(v: nat, n: nat): (r: seq<bool>)
    ensures |r| == n
  {
    if n == 0 then [] else Bits(v / 2, n - 1) + [v % 2 == 1]
  }

  // The bit stream of a byte string.
  function BitsOf(bytes: seq<nat>): (r: seq<bool>)
    ensures |r| == 8 * |bytes|
  {
    if bytes == [] then [] else BitsOf(bytes[..|bytes| - 1]) + Bits(bytes[|bytes| - 1], 8)
  }

  ghost predicate Bytes(s: seq<nat>) {
    forall k | 0 <= k < |s| :: s[k] < TWO_8
  }

  // v >> i, (v >> i) & 1 and v << k.
  function Shr(v: nat, i: nat): nat {
    if i == 0 then v else Shr(v / 2, i - 1)
  }

  function BitAt(v: nat, i: nat): nat {
    Shr(v, i) % 2
  }

  function Shl(v: nat, k: nat): nat {
    if k == 0 then v else 2 * Shl(v, k - 1)
  }

  function BitValue(bit: bool): nat {
    if bit then 1 else 0
  }

  // ---- Bits one at a time ----

  lemma BitsMore(v: nat, n: nat, bit: bool)
    ensures Bits(2 * v + BitValue(bit), n + 1) == Bits(v, n) + [bit]
  {
  }

  lemma NoBits(v: nat)
    ensures Bits(v, 0) == []
  {
  }

  lemma BitsTop(v: nat, i: nat, n: nat)
    ensures Bits(Shr(v, i), n + 1) == Bits(Shr(v, i + 1), n) + [BitAt(v, i) == 1]
  {
    ShrStep(v, i);
  }

  lemma {:induction false} ShrStep(v: nat, i: nat)
    ensures Shr(v, i) / 2 == Shr(v, i + 1)
  {
    if i > 0 {
      ShrStep(v / 2, i - 1);
    }
  }

  lemma ShrNone(v: nat)
    ensures Shr(v, 0) == v
  {
  }

  lemma {:induction false} BitsIndex(v: nat, n: nat, j: nat)
    requires j < n
    ensures Bits(v, n)[j] == (BitAt(v, n - 1 - j) == 1)
  {
    if j < n - 1 {
      BitsIndex(v / 2, n - 1, j);
    }
  }

  // Bit j of n is the binary digit of weight 2^(n - 1 - j).
  lemma {:induction false} BitIsDigit(v: nat, n: nat, j: nat)
    requires j < n
    ensures Bits(v, n)[j] <==> v / Pow2(n - 1 - j) % 2 == 1
  {
    if j < n - 1 {
      BitIsDigit(v / 2, n - 1, j);
      DivDiv(v, Pow2(n - 2 - j));
    }
  }

  // Shifting left appends zeros.
  lemma {:induction false} BitsPadded(v: nat, n: nat, k: nat)
    ensures Bits(Shl(v, k), n + k) == Bits(v, n) + Nothing(k)
  {
    if k > 0 {
      BitsPadded(v, n, k - 1);
      BitsMore(Shl(v, k - 1), n + k - 1, false);
    }
  }

  function Nothing(k: nat): seq<bool> {
    seq(k, _ => false)
  }

  lemma {:induction false} BitsOfAt(bytes: seq<nat>, k: nat, j: nat)
    requires k < |bytes| && j < 8
    ensures BitsOf(bytes)[8 * k + j] == (BitAt(bytes[k], 7 - j) == 1)
  {
    var n := |bytes| - 1;
    if k < n {
      BitsOfAt(bytes[..n], k, j);
    } else {
      BitsIndex(bytes[k], 8, j);
    }
  }

  // Bit p of a byte string is that of weight 2^(7 - p % 8) in byte p / 8.
  lemma {:induction false} ByteDigit(bytes: seq<nat>, p: nat)
    requires p < 8 * |bytes|
    ensures BitsOf(bytes)[p] <==> bytes[p / 8] / Pow2(7 - p % 8) % 2 == 1
  {
    var n := |bytes| - 1;
    if p < 8 * n {
      ByteDigit(bytes[..n], p);
    } else {
      DivUnique(p, 8, n, p - 8 * n);
      BitIsDigit(bytes[n], 8, p - 8 * n);
    }
  }

  lemma BitsOfMore(bytes: seq<nat>, b: nat)
    ensures BitsOf(bytes + [b]) == BitsOf(bytes) + Bits(b, 8)
  {
    assert (bytes + [b])[..|bytes|] == bytes;
  }

  lemma {:induction false} ShlBound(v: nat, n: nat, k: nat)
    requires v < Pow2(n)
    ensures Shl(v, k) < Pow2(n + k)
  {
    if k > 0 {
      ShlBound(v, n, k - 1);
    }
  }

  // Filling the last byte with zeros keeps the stream in front of it.
  lemma LastByte(buf: seq<nat>, cur: nat, nbits: nat)
    requires 0 < nbits < 8 && cur < Pow2(nbits)
    ensures Shl(cur, 8 - nbits) < TWO_8
    ensures BitsOf(buf + [Shl(cur, 8 - nbits)]) == BitsOf(buf) + Bits(cur, nbits) + Nothing(8 - nbits)
  {
    hide Bits, BitsOf, Shl;
    BitsPadded(cur, nbits, 8 - nbits);
    ShlBound(cur, nbits, 8 - nbits);
    BitsOfMore(buf, Shl(cur, 8 - nbits));
    assert Pow2(8) == TWO_8;
    JoinedThrice(BitsOf(buf), Bits(cur, nbits), Nothing(8 - nbits));
  }

  lemma JoinedThrice(a: seq<bool>, b: seq<bool>, c: seq<bool>)
    ensures a + (b + c) == a + b + c
  {
  }

  // ---- The writer ----

  class BitWriter {
    var buf: seq<nat>
    var cur: nat
    var nbits: nat
    ghost var bits: seq<bool>

    // Whole bytes, then fewer than eight pending bits.
    ghost predicate Valid()
      reads this
    {
      nbits < 8 && cur < Pow2(nbits) && Bytes(buf) && bits == BitsOf(buf) + Bits(cur, nbits)
    }

    constructor ()
      ensures Valid() && bits == []
    {
      buf, cur, nbits, bits := [], 0, 0, [];
    }

    method Reset()
      modifies this
      ensures Valid() && bits == []
    {
      buf, cur, nbits, bits := [], 0, 0, [];
    }

    // cur = (cur << 1) | b, and a full byte moves to the buffer.
    method PushBit(bit: bool)
      requires Valid()
      modifies this
      ensures Valid() && bits == old(bits) + [bit]
    {
      hide Bits, BitsOf;
      BitsMore(cur, nbits, bit);
      NoBits(0);
      bits := bits + [bit];
      cur := 2 * cur + BitValue(bit);
      nbits := nbits + 1;
      if nbits == 8 {
        assert Pow2(8) == TWO_8;
        BitsOfMore(buf, cur);
        buf := buf + [cur];
        cur, nbits := 0, 0;
      }
    }

    // Appends the low n bits of v, most significant first; refuses a count outside 0..32.
    method WriteBits(v: nat, n: int) returns (ok: bool)
      requires Valid()
      modifies this
      ensures Valid() && (ok <==> 0 <= n <= 32)
      ensures bits == old(bits) + (if 0 <= n <= 32 then Bits(v, n) else [])
    {
      if n < 0 || n > 32 {
        return false;
      }
      hide Bits, Shr, BitAt;
      ghost var start := bits;
      var i: nat := n;
      NoBits(Shr(v, n));
      while i > 0
        invariant i <= n && Valid() && bits == start + Bits(Shr(v, i), n - i)
      {
        i := i - 1;
        BitsTop(v, i, n - i - 1);
        PushBit(BitAt(v, i) == 1);
      }
      ShrNone(v);
      ok := true;
    }

    // Fills the last byte with zeros and hands the bytes over.
    method Finish() returns (payload: seq<nat>)
      requires Valid()
      modifies this
      ensures Bytes(payload) && old(bits) <= BitsOf(payload) && 8 * |payload| < |old(bits)| + 8
      ensures forall i | |old(bits)| <= i < 8 * |payload| :: !BitsOf(payload)[i]
    {
      hide Bits, BitsOf, Shl, Pow2;
      NoBits(cur);
      if nbits > 0 {
        LastByte(buf, cur, nbits);
        cur := Shl(cur, 8 - nbits);
        buf := buf + [cur];
        cur, nbits := 0, 0;
      }
      payload := buf;
      buf := [];
    }
  }

  // ---- The reader ----

  class BitReader {
    const data: seq<nat>
    var bytePos: nat
    var bitPos: nat
    ghost const bits: seq<bool>
    ghost var pos: nat

    ghost predicate Valid()
      reads this
    {
      bits == BitsOf(data) && bitPos < 8 && pos == 8 * bytePos + bitPos
    }

    constructor (payload: seq<nat>)
      ensures Valid() && data == payload && bits == BitsOf(payload) && pos == 0
    {
      data, bits := payload, BitsOf(payload);
      bytePos, bitPos, pos := 0, 0, 0;
    }

    // The next bit; past the last byte it is arbitrary.
    method ReadBit() returns (bit: bool)
      requires Valid()
      modifies this
      ensures Valid() && pos == old(pos) + 1
      ensures old(pos) < |bits| ==> bit == bits[old(pos)]
    {
      var byte: nat := *;
      if bytePos < |data| {
        byte := data[bytePos];
        BitsOfAt(data, bytePos, bitPos);
      }
      bit := BitAt(byte, 7 - bitPos) == 1;
      bitPos, pos := bitPos + 1, pos + 1;
      if bitPos == 8 {
        bitPos, bytePos := 0, bytePos + 1;
      }
    }
  }
}
