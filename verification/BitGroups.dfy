/**
 Bytes and symbols of `w` bits: the whole input is one string of bits, padded with
 zero bits at the end and read `w` at a time (sections 4 and 6 of RFC 4648). The
 coders, which shift and mask group by group, are measured against this.
 */
module BitGroups {
  import opened Common
  import opened Positional

  ghost predicate IsBits(s: seq<int>) { Digits(s, 2) }

  /** The `w` low bits of a number, highest first. */
  function Unpack(x: int, w: nat): (s: seq<int>)
    ensures |s| == w
    decreases w
  {
    if w == 0 then [] else Unpack(x / 2, w - 1) + [x % 2]
  }

  lemma {:induction false} UnpackIsBits(x: int, w: nat)
    ensures IsBits(Unpack(x, w))
    decreases w
  {
    if w > 0 { UnpackIsBits(x / 2, w - 1); }
  }

  function Pack(bits: seq<int>): int { Value(bits, 2) }

  lemma {:induction false} PackUnpack(x: int, w: nat)
    requires 0 <= x < Pow(2, w)
    ensures Pack(Unpack(x, w)) == x
  {
    if w > 0 {
      PackUnpack(x / 2, w - 1);
      assert Unpack(x, w)[..w - 1] == Unpack(x / 2, w - 1);
    }
  }

  lemma {:induction false} UnpackPack(bits: seq<int>)
    requires IsBits(bits)
    ensures Unpack(Pack(bits), |bits|) == bits && 0 <= Pack(bits) < Pow(2, |bits|)
  {
    if bits != [] {
      UnpackPack(bits[..|bits| - 1]);
    }
  }

  /** All bits of symbols of `w` bits each. */
  function Bits(s: seq<int>, w: nat): seq<int> {
    if s == [] then [] else Bits(s[..|s| - 1], w) + Unpack(s[|s| - 1], w)
  }

  lemma {:induction false} BitsAreBits(s: seq<int>, w: nat)
    ensures IsBits(Bits(s, w))
  {
    if s != [] {
      BitsAreBits(s[..|s| - 1], w);
      UnpackIsBits(s[|s| - 1], w);
    }
  }

  lemma {:induction false} BitsLength(s: seq<int>, w: nat)
    ensures |Bits(s, w)| == w * |s|
  {
    if s != [] {
      BitsLength(s[..|s| - 1], w);
      assert w * |s| == w * (|s| - 1) + w;
    }
  }

  lemma BitsSnoc(s: seq<int>, x: int, w: nat)
    ensures Bits(s + [x], w) == Bits(s, w) + Unpack(x, w)
  {
  }

  lemma {:induction false} BitsConcat(s: seq<int>, t: seq<int>, w: nat)
    ensures Bits(s + t, w) == Bits(s, w) + Bits(t, w)
  {
    if t == [] {
      assert s + t == s;
    } else {
      var init, x := t[..|t| - 1], t[|t| - 1];
      BitsConcat(s, init, w);
      assert (s + init) + [x] == s + t && init + [x] == t;
      BitsSnoc(s + init, x, w);
      BitsSnoc(init, x, w);
      hide Bits, Unpack;
      Regroup(Bits(s, w), Bits(init, w), Unpack(x, w));
    }
  }

  lemma BitsCons(x: int, s: seq<int>, w: nat)
    ensures Bits([x] + s, w) == Unpack(x, w) + Bits(s, w)
  {
    assert Bits([], w) == [] && [] + [x] == [x];
    hide Bits, Unpack;
    BitsSnoc([], x, w);
    BitsConcat([x], s, w);
    assert [] + Unpack(x, w) == Unpack(x, w);
  }

  /** Read `w` bits at a time; what is left at the end is dropped. */
  function Chunks(bits: seq<int>, w: nat): (s: seq<int>)
    requires w > 0
  {
    if |bits| < w then [] else [Pack(bits[..w])] + Chunks(bits[w..], w)
  }

  lemma {:induction false} ChunksLength(bits: seq<int>, w: nat)
    requires w > 0
    ensures |Chunks(bits, w)| == |bits| / w
  {
    if |bits| >= w {
      ChunksLength(bits[w..], w);
      assert |Chunks(bits, w)| == 1 + |Chunks(bits[w..], w)|;
      hide *;
      DivStep(|bits| - w, w);
    } else {
      DivMod(0, |bits|, w);
    }
  }

  lemma DivStep(n: nat, w: nat)
    requires w > 0
    ensures (n + w) / w == n / w + 1
  {
    var q, r := n / w, n % w;
    assert n + w == (q + 1) * w + r by { assert n == q * w + r; }
    DivMod(q + 1, r, w);
  }

  lemma {:induction false} ChunksDigits(bits: seq<int>, w: nat)
    requires w > 0 && IsBits(bits)
    ensures Digits(Chunks(bits, w), Pow(2, w))
  {
    if |bits| >= w {
      UnpackPack(bits[..w]);
      ChunksDigits(bits[w..], w);
    }
  }

  lemma ChunksCons(u: seq<int>, more: seq<int>, w: nat)
    requires w > 0 && |u| == w
    ensures Chunks(u + more, w) == [Pack(u)] + Chunks(more, w)
  {
  }

  /** Symbols spread out as bits are read back, and then what follows them. */
  lemma {:induction false} ChunksOfBits(s: seq<int>, tail: seq<int>, w: nat)
    requires w > 0 && Digits(s, Pow(2, w))
    ensures Chunks(Bits(s, w) + tail, w) == s + Chunks(tail, w)
  {
    if s == [] {
      assert Bits(s, w) + tail == tail;
    } else {
      var x, rest := s[0], s[1..];
      PackUnpack(x, w);
      ChunksOfBits(rest, tail, w);
      hide *;
      assert s == [x] + rest;
      BitsCons(x, rest, w);
      Regroup(Unpack(x, w), Bits(rest, w), tail);
      ChunksCons(Unpack(x, w), Bits(rest, w) + tail, w);
      Regroup([x], rest, Chunks(tail, w));
    }
  }

  lemma OneLess(q: nat, w: nat)
    requires q > 0
    ensures q * w - w == (q - 1) * w >= 0
  {
    MulUp(w, 0, q - 1);
  }

  lemma CutBits(bits: seq<int>, w: nat)
    requires IsBits(bits) && w <= |bits|
    ensures IsBits(bits[..w]) && IsBits(bits[w..]) && bits == bits[..w] + bits[w..]
  {
  }

  /** `q` symbols' worth of bits are all there again. */
  lemma {:induction false} BitsOfChunks(bits: seq<int>, w: nat, q: nat)
    requires w > 0 && IsBits(bits) && |bits| == q * w
    ensures Bits(Chunks(bits, w), w) == bits
  {
    if q == 0 {
      assert bits == [];
    } else {
      OneLess(q, w);
      var head, rest := bits[..w], bits[w..];
      CutBits(bits, w);
      hide *;
      BitsOfChunks(rest, w, q - 1);
      UnpackPack(head);
      ChunksCons(head, rest, w);
      BitsCons(Pack(head), Chunks(rest, w), w);
    }
  }

  lemma {:induction false} ChunksConcat(a: seq<int>, b: seq<int>, w: nat, q: nat)
    requires w > 0 && |a| == q * w
    ensures Chunks(a + b, w) == Chunks(a, w) + Chunks(b, w)
  {
    if q == 0 {
      assert a + b == b && a == [];
    } else {
      OneLess(q, w);
      var head, rest := a[..w], a[w..];
      hide *;
      ChunksConcat(rest, b, w, q - 1);
      assert a == head + rest && a + b == head + (rest + b);
      ChunksCons(head, rest, w);
      ChunksCons(head, rest + b, w);
      Regroup([Pack(head)], Chunks(rest, w), Chunks(b, w));
    }
  }

  // ---- The two directions ---------------------------------------------------------

  /** Five bits in base32, six in base64. */
  predicate Width(w: nat) { w == 5 || w == 6 }

  /** Bytes that fill their symbols exactly: 40 bits make eight symbols of base32, 24 make four of base64. */
  predicate Whole(n: nat, w: nat) { if w == 5 then n % 5 == 0 else n % 3 == 0 }

  /** Zero bits added at the end. */
  function Padding(n: nat, w: nat): (p: nat)
    requires Width(w)
    ensures p < w
  {
    if w == 5 then 2 * (n % 5) % 5 else 4 * (n % 3) % 6
  }

  function SymbolCount(n: nat, w: nat): nat
    requires Width(w)
  {
    if w == 5 then (8 * n + 4) / 5 else (8 * n + 5) / 6
  }

  lemma PaddingFits(n: nat, w: nat)
    requires Width(w)
    ensures 8 * n + Padding(n, w) == SymbolCount(n, w) * w
  {
    if w == 5 { FiveFits(n, n / 5, n % 5); } else { SixFits(n, n / 3, n % 3); }
  }

  lemma FiveFits(n: nat, q: nat, r: nat)
    requires n == 5 * q + r && r < 5
    ensures (8 * n + 4) / 5 * 5 == 8 * n + 2 * r % 5
  {
    if r == 0 { DivMod(8 * q, 4, 5); }
    else if r == 1 { DivMod(8 * q + 2, 2, 5); }
    else if r == 2 { DivMod(8 * q + 4, 0, 5); }
    else if r == 3 { DivMod(8 * q + 5, 3, 5); }
    else { DivMod(8 * q + 7, 1, 5); }
  }

  lemma SixFits(n: nat, q: nat, r: nat)
    requires n == 3 * q + r && r < 3
    ensures (8 * n + 5) / 6 * 6 == 8 * n + 4 * r % 6
  {
    if r == 0 { DivMod(4 * q, 5, 6); }
    else if r == 1 { DivMod(4 * q + 2, 1, 6); }
    else { DivMod(4 * q + 3, 3, 6); }
  }

  lemma PaddingAfter(n: nat, k: nat, w: nat)
    requires Width(w) && Whole(n, w)
    ensures Padding(n, w) == 0 && Padding(n + k, w) == Padding(k, w)
  {
    if w == 5 {
      SameRemainder(n / 5, k, 5);
    } else {
      SameRemainder(n / 3, k, 3);
    }
  }

  lemma SameRemainder(q: nat, k: nat, b: nat)
    requires b > 0
    ensures (b * q + k) % b == k % b
  {
    assert b * q + k == (q + k / b) * b + k % b by {
      assert (q + k / b) * b == q * b + k / b * b;
    }
    DivMod(q + k / b, k % b, b);
  }

  function Padded(bytes: seq<u8>, w: nat): seq<int>
    requires Width(w)
  {
    Bits(bytes, 8) + Zeros(Padding(|bytes|, w))
  }

  function Symbols(bytes: seq<u8>, w: nat): seq<int>
    requires Width(w)
  {
    Chunks(Padded(bytes, w), w)
  }

  /** Whole bytes only; the bits that are left over are dropped. */
  function Octets(s: seq<int>, w: nat): seq<int> { Chunks(Bits(s, w), 8) }

  lemma PowEight()
    ensures Pow(2, 8) == 256
  {
  }

  lemma OctetsAreBytes(s: seq<int>, w: nat)
    ensures forall i :: 0 <= i < |Octets(s, w)| ==> 0 <= Octets(s, w)[i] < 256
  {
    hide Bits, Chunks;
    PowEight();
    BitsAreBits(s, w);
    ChunksDigits(Bits(s, w), 8);
  }

  lemma SymbolsShape(bytes: seq<u8>, w: nat)
    requires Width(w)
    ensures |Symbols(bytes, w)| == SymbolCount(|bytes|, w) && Digits(Symbols(bytes, w), Pow(2, w))
  {
    PaddingFits(|bytes|, w);
    BitsLength(bytes, 8);
    BitsAreBits(bytes, 8);
    ChunksLength(Padded(bytes, w), w);
    ChunksDigits(Padded(bytes, w), w);
    hide Bits, Chunks, SymbolCount, Padding, Pow;
    DivMod(SymbolCount(|bytes|, w), 0, w);
    assert |Padded(bytes, w)| == SymbolCount(|bytes|, w) * w;
  }

  /** Every byte string comes back from its symbols. */
  lemma OctetsOfSymbols(bytes: seq<u8>, w: nat)
    requires Width(w)
    ensures Octets(Symbols(bytes, w), w) == bytes
  {
    var n, pad := |bytes|, Zeros(Padding(|bytes|, w));
    PaddingFits(n, w);
    BitsLength(bytes, 8);
    PowEight();
    assert Chunks(pad, 8) == [];
    hide Pow, Bits, Chunks, Padding, SymbolCount;
    BitsAreBits(bytes, 8);
    assert IsBits(Padded(bytes, w));
    BitsOfChunks(Padded(bytes, w), w, SymbolCount(n, w));
    ChunksOfBits(bytes, pad, 8);
    assert bytes + [] == bytes;
  }

  /** After bytes that fill their symbols exactly, encoding starts afresh. */
  lemma SymbolsConcat(a: seq<u8>, b: seq<u8>, w: nat)
    requires Width(w) && Whole(|a|, w)
    ensures Symbols(a + b, w) == Symbols(a, w) + Symbols(b, w)
  {
    hide Bits, Padding, SymbolCount, Whole, Chunks;
    PaddedConcat(a, b, w);
    WholeLength(a, w);
    ChunksConcat(Bits(a, 8), Padded(b, w), w, SymbolCount(|a|, w));
  }

  lemma WholeLength(a: seq<u8>, w: nat)
    requires Width(w) && Whole(|a|, w)
    ensures |Bits(a, 8)| == SymbolCount(|a|, w) * w
  {
    hide Bits, Padding, SymbolCount, Whole;
    PaddingAfter(|a|, 0, w);
    PaddingFits(|a|, w);
    BitsLength(a, 8);
  }

  lemma PaddedConcat(a: seq<u8>, b: seq<u8>, w: nat)
    requires Width(w) && Whole(|a|, w)
    ensures Padded(a, w) == Bits(a, 8) && Padded(a + b, w) == Bits(a, 8) + Padded(b, w)
  {
    hide Bits, Padding, Whole, Zeros;
    PaddingAfter(|a|, |b|, w);
    BitsConcat(a, b, 8);
    NoZeros(Bits(a, 8));
    Regroup(Bits(a, 8), Bits(b, 8), Zeros(Padding(|b|, w)));
  }

  lemma NoZeros(s: seq<int>)
    ensures s + Zeros(0) == s
  {
  }

  /** And so does decoding after symbols that fill their bytes exactly. */
  lemma OctetsConcat(s: seq<int>, t: seq<int>, w: nat, q: nat)
    requires w * |s| == 8 * q
    ensures Octets(s + t, w) == Octets(s, w) + Octets(t, w)
  {
    BitsLength(s, w);
    BitsConcat(s, t, w);
    ChunksConcat(Bits(s, w), Bits(t, w), 8, q);
  }

  // ---- Pieces of a byte -----------------------------------------------------------

  lemma {:induction false} UnpackSplit(x: int, i: nat, j: nat)
    requires x >= 0
    ensures Pow(2, j) > 0 && Unpack(x, i + j) == Unpack(x / Pow(2, j), i) + Unpack(x, j)
  {
    PowPositive(2, j);
    if j > 0 {
      UnpackSplit(x / 2, i, j - 1);
      HalveFirst(x, Pow(2, j - 1));
    } else {
      assert Pow(2, 0) == 1;
    }
  }

  lemma HalveFirst(x: int, p: int)
    requires x >= 0 && p > 0
    ensures x / 2 / p == x / (2 * p)
  {
    var q, r := x / 2 / p, x / 2 % p;
    assert x / 2 == q * p + r;
    assert x == q * (2 * p) + (2 * r + x % 2) by {
      Assoc(q, 2, p);
    }
    DivMod(q, 2 * r + x % 2, 2 * p);
  }

  /** Dropping high bits is a remainder. */
  lemma {:induction false} UnpackLow(x: int, w: nat)
    requires x >= 0
    ensures Pow(2, w) > 0 && Pack(Unpack(x, w)) == x % Pow(2, w)
  {
    PowPositive(2, w);
    if w > 0 {
      var p := Pow(2, w - 1);
      UnpackLow(x / 2, w - 1);
      assert Unpack(x, w)[..w - 1] == Unpack(x / 2, w - 1);
      HalveMod(x, p);
    }
  }

  lemma HalveMod(x: int, p: int)
    requires x >= 0 && p > 0
    ensures x % (2 * p) == 2 * (x / 2 % p) + x % 2
  {
    HalveFirst(x, p);
    assert x / 2 == x / 2 / p * p + x / 2 % p;
    assert x == x / (2 * p) * (2 * p) + x % (2 * p);
    Assoc(x / (2 * p), 2, p);
  }
}
