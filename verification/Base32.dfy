/** Base32 without padding characters: `encode_sequence`, `decode_sequence` and the loops over groups. */
module Base32 {
  import opened Common
  import opened Positional
  import opened BitGroups

  /** The alphabet, letters first; `c & 0x1F` picks an entry. */
  function EncodeChar(c: int, upper: bool): char {
    var v := c % 32;
    if v >= 26 then ('2' as int + (v - 26)) as char
    else if upper then ('A' as int + v) as char
    else ('a' as int + v) as char
  }

  function DecodeChar(ch: char, upper: bool): int {
    if '2' <= ch <= '7' then ch as int - '2' as int + 26
    else if upper && 'A' <= ch <= 'Z' then ch as int - 'A' as int
    else if !upper && 'a' <= ch <= 'z' then ch as int - 'a' as int
    else -1
  }

  /** Symbols and their characters undo each other. */
  lemma CharsInverse(v: int, ch: char, upper: bool)
    requires 0 <= v < 32
    ensures DecodeChar(EncodeChar(v, upper), upper) == v
    ensures DecodeChar(ch, upper) >= 0 ==> DecodeChar(ch, upper) < 32 && EncodeChar(DecodeChar(ch, upper), upper) == ch
  {
  }

  /** The alphabet of section 6 of RFC 4648: letters of one case and then the digits 2 to 7, in order. */
  lemma AlphabetIff(c: char, upper: bool)
    ensures DecodeChar(c, upper) >= 0 <==> '2' <= c <= '7' || (if upper then 'A' <= c <= 'Z' else 'a' <= c <= 'z')
  {
  }

  lemma AlphabetOrder(c: char, d: char, upper: bool)
    requires DecodeChar(c, upper) >= 0 && DecodeChar(d, upper) >= 0
    requires (c > '7' && d <= '7') || ((c <= '7' <==> d <= '7') && c < d)
    ensures DecodeChar(c, upper) < DecodeChar(d, upper)
  {
  }

  function Text(s: seq<int>, upper: bool): (t: string)
    ensures |t| == |s| && forall i :: 0 <= i < |s| ==> t[i] == EncodeChar(s[i], upper)
  {
    seq(|s|, i requires 0 <= i < |s| => EncodeChar(s[i], upper))
  }

  predicate Readable(t: string, upper: bool) {
    forall i :: 0 <= i < |t| ==> DecodeChar(t[i], upper) >= 0
  }

  function Values(t: string, upper: bool): (s: seq<int>)
    ensures |s| == |t| && forall i :: 0 <= i < |s| ==> s[i] == DecodeChar(t[i], upper)
  {
    seq(|t|, i requires 0 <= i < |t| => DecodeChar(t[i], upper))
  }

  // ---- Reference --------------------------------------------------------------------

  function Encode(bytes: seq<u8>, upper: bool): string { Text(Symbols(bytes, 5), upper) }

  function Decode(t: string, upper: bool): Option<seq<u8>> {
    if Readable(t, upper) then OctetsAreBytes(Values(t, upper), 5); Some(Octets(Values(t, upper), 5)) else None
  }

  lemma PowFive()
    ensures Pow(2, 5) == 32
  {
  }

  /** Every byte string is read back, from exactly ceil(8n/5) characters. */
  lemma DecodeEncode(bytes: seq<u8>, upper: bool)
    ensures Decode(Encode(bytes, upper), upper) == Some(bytes)
    ensures |Encode(bytes, upper)| == (8 * |bytes| + 4) / 5
  {
    var s := Symbols(bytes, 5);
    SymbolsShape(bytes, 5);
    OctetsOfSymbols(bytes, 5);
    PowFive();
    hide Symbols, Octets, Pow;
    var t := Text(s, upper);
    forall i | 0 <= i < |s| ensures DecodeChar(t[i], upper) == s[i] {
      CharsInverse(s[i], t[i], upper);
    }
    assert Values(t, upper) == s;
  }

  // ---- Shifts and masks ---------------------------------------------------------------

  function GetByte(block: nat): nat { block * 5 / 8 }

  function GetBit(block: nat): int { 8 - 5 - block * 5 % 8 }

  /** Places between -8 and 8; a shift to the left keeps eight bits. */
  function ShiftRight(byte: u8, offset: int): u8 {
    if offset > 0 then PowPositive(2, offset); Quotient(byte, Pow(2, offset)) else byte * Pow(2, -offset) % 256
  }

  function Quotient(byte: u8, p: int): u8
    requires p > 0
  {
    QuotientSmall(byte, p);
    byte / p
  }

  lemma QuotientSmall(x: u8, p: int)
    requires p > 0
    ensures 0 <= x / p < 256
  {
  }

  function ShiftLeft(byte: u8, offset: int): u8 { ShiftRight(byte, -offset) }

  /** Bitwise or. */
  function Or(a: nat, b: nat): nat
    decreases a + b
  {
    if a == 0 && b == 0 then 0 else 2 * Or(a / 2, b / 2) + Max(a % 2, b % 2)
  }

  /** Of numbers without a common bit it is the sum. */
  lemma {:induction false} OrDisjoint(a: nat, b: nat, k: nat)
    requires Pow(2, k) > 0 && a % Pow(2, k) == 0 && b < Pow(2, k)
    ensures Or(a, b) == a + b
    decreases k
  {
    if k == 0 {
      OrZero(a);
    } else {
      var p := Pow(2, k - 1);
      PowPositive(2, k - 1);
      HalveMod(a, p);
      hide Pow;
      OrDisjoint(a / 2, b / 2, k - 1);
    }
  }

  lemma {:induction false} OrZero(a: nat)
    ensures Or(a, 0) == a
  {
    if a > 0 { OrZero(a / 2); }
  }

  /** `x >> k`. */
  function Shr(x: int, k: nat): int {
    PowPositive(2, k);
    x / Pow(2, k)
  }

  /** The low `k` bits. */
  function Low(x: int, k: nat): int {
    PowPositive(2, k);
    x % Pow(2, k)
  }

  /** Bits `i` to `j` of a byte. */
  lemma ByteSlice(x: u8, i: nat, j: nat)
    requires i <= j <= 8
    ensures Unpack(x, 8)[i..j] == Unpack(Shr(x, 8 - j), j - i)
    ensures Pack(Unpack(x, 8)[i..j]) == Low(Shr(x, 8 - j), j - i)
  {
    hide Unpack, Pow, Value;
    var y, n := Shr(x, 8 - j), j - i;
    assert y >= 0 by { PowPositive(2, 8 - j); QuotientSmall(x, Pow(2, 8 - j)); }
    UnpackSplit(x, j, 8 - j);
    assert Unpack(x, 8) == Unpack(y, j) + Unpack(x, 8 - j);
    UnpackSplit(y, i, n);
    UnpackLow(y, n);
    hide Shr, Low;
    assert Unpack(x, 8)[i..j] == Unpack(y, n);
  }

  lemma ShiftInside(x: u8, off: nat)
    requires off <= 3
    ensures ShiftRight(x, 3 - off) == Shr(x, 3 - off)
  {
  }

  /** What the source's shifts come to, and that a whole byte is its own quotient. */
  lemma ShiftFacts(x: u8, off: nat)
    requires 4 <= off <= 7
    ensures ShiftRight(x, 11 - off) == Shr(x, 11 - off)
    ensures ShiftRight(x, 3 - off) == x * Pow(2, off - 3) % 256
    ensures Shr(x, 0) == x
  {
  }

  // ---- Encoding a group ------------------------------------------------------------------

  /** The `w` bits from position `i`, zeros beyond the end. */
  ghost function Window(bits: seq<int>, i: nat, w: nat): (s: seq<int>)
    requires i <= |bits|
    ensures |s| == w
  {
    (bits + Zeros(w))[i..i + w]
  }

  /** The numeral of group `k`, which starts at position `at`. */
  lemma {:induction false} ChunkAt(bits: seq<int>, w: nat, k: nat, at: nat)
    requires w > 0 && at == w * k && at + w <= |bits|
    ensures k < |Chunks(bits, w)| && Chunks(bits, w)[k] == Pack(bits[at..at + w])
    decreases k
  {
    ChunksFirst(bits, w);
    hide Chunks, Pack;
    if k > 0 {
      assert at - w == w * (k - 1) by { Distributes(w, k); }
      Shifted(bits, w, at);
      ChunkAt(bits[w..], w, k - 1, at - w);
    }
  }

  lemma Distributes(w: int, k: int)
    ensures w * (k - 1) == w * k - w
  {
  }

  lemma ChunksFirst(bits: seq<int>, w: nat)
    requires 0 < w <= |bits|
    ensures Chunks(bits, w) == [Pack(bits[..w])] + Chunks(bits[w..], w)
    ensures bits[0..w] == bits[..w]
  {
  }

  lemma Shifted(bits: seq<int>, w: nat, at: nat)
    requires w <= at && at + w <= |bits|
    ensures bits[w..][at - w..at - w + w] == bits[at..at + w]
  {
  }

  /** Eight bits of the bytes are one byte. */
  lemma {:induction false} BitsOfByte(bytes: seq<u8>, i: nat)
    requires i < |bytes|
    ensures |Bits(bytes, 8)| == 8 * |bytes| && Bits(bytes, 8)[8 * i..8 * i + 8] == Unpack(bytes[i], 8)
  {
    hide *;
    BitsLength(bytes, 8);
    BitsLength(bytes[..i], 8);
    assert bytes == bytes[..i] + ([bytes[i]] + bytes[i + 1..]);
    BitsConcat(bytes[..i], [bytes[i]] + bytes[i + 1..], 8);
    BitsCons(bytes[i], bytes[i + 1..], 8);
    Middle(Bits(bytes[..i], 8), Unpack(bytes[i], 8), Bits(bytes[i + 1..], 8));
  }

  lemma Middle(a: seq<int>, b: seq<int>, c: seq<int>)
    ensures (a + (b + c))[|a|..|a| + |b|] == b
  {
  }

  lemma WindowInside(bits: seq<int>, start: nat, off: nat, w: nat)
    requires start + 8 <= |bits| && off + w <= 8
    ensures Window(bits, start + off, w) == bits[start..start + 8][off..off + w]
  {
    var a, b := Window(bits, start + off, w), bits[start..start + 8][off..off + w];
    forall i | 0 <= i < w ensures a[i] == b[i] {
      assert a[i] == bits[start + off + i];
      assert b[i] == bits[start..start + 8][off + i] == bits[start + off + i];
    }
  }

  lemma WindowAcross(bits: seq<int>, start: nat, off: nat, w: nat)
    requires start + 8 <= |bits| && off <= 8 < off + w
    ensures Window(bits, start + off, w) == bits[start..start + 8][off..] + Window(bits, start + 8, w - (8 - off))
  {
  }

  /** What the loop computes for one block: the high part of a symbol, and the low part if a byte supplies it. */
  function Block(plain: seq<u8>, block: nat): int
    requires GetByte(block) < |plain|
  {
    var byte, bit := GetByte(block), GetBit(block);
    var c := ShiftRight(plain[byte], bit);
    if bit < 0 && byte < |plain| - 1 then Or(c, ShiftRight(plain[byte + 1], 8 + bit)) else c
  }

  /** The low bits of one byte and the high bits of the next. */
  lemma TwoParts(x: u8, y: u8, off: nat)
    requires 4 <= off <= 7
    ensures var a, b := x * Pow(2, off - 3) % 256, Shr(y, 11 - off);
            a >= 0 && b >= 0 && Or(a, b) == a + b
            && (a + b) % 32 == Low(x, 8 - off) * Pow(2, off - 3) + b
    ensures Low(Shr(y, 11 - off), off - 3) == Shr(y, 11 - off)
  {
    ShrSmall(y, off);
    var p, q := Pow(2, off - 3), Pow(2, 8 - off);
    var a, b := x * p % 256, Shr(y, 11 - off);
    assert p > 0 && q > 0 && p * q == 32 by { SmallPowers(); hide Pow; }
    assert Low(x, 8 - off) == x % q;
    hide Pow, Shr, Low;
    Parts(x, b, p, q);
    OrDisjoint(a, b, off - 3);
  }

  lemma ShrSmall(y: u8, off: nat)
    requires 4 <= off <= 7
    ensures 0 <= Shr(y, 11 - off) < Pow(2, off - 3) && Low(Shr(y, 11 - off), off - 3) == Shr(y, 11 - off)
  {
    SmallPowers();
    hide Pow;
  }

  lemma Parts(x: nat, b: nat, p: nat, q: nat)
    requires p > 0 && q > 0 && p * q == 32 && b < p
    ensures x * p % 256 % p == 0 && (x * p % 256 + b) % 32 == x % q * p + b
  {
    var a, k := x * p % 256, x * p / 256;
    assert a == x * p - 256 * k;
    assert x == x / q * q + x % q;
    PartsSum(a, b, p, q, k, x / q, x % q);
    PartsMultiple(a, p, q, k, x);
  }

  lemma PartsSum(a: int, b: nat, p: nat, q: nat, k: int, h: int, l: nat)
    requires p > 0 && p * q == 32 && b < p && l < q && a == (h * q + l) * p - 256 * k
    ensures (a + b) % 32 == l * p + b
  {
    assert (h * q + l) * p == h * 32 + l * p by {
      Assoc(h, q, p);
      assert (h * q + l) * p == (h * q) * p + l * p;
    }
    MulUp(p, l, q - 1);
    MulUp(p, 0, l);
    DivMod(h - 8 * k, l * p + b, 32);
  }

  lemma PartsMultiple(a: int, p: nat, q: nat, k: int, x: int)
    requires p > 0 && p * q == 32 && a == x * p - 256 * k
    ensures a % p == 0
  {
    var m := 8 * k;
    assert 256 * k == m * q * p by { Assoc(m, q, p); }
    assert (x - m * q) * p == x * p - m * q * p;
    DivMod(x - m * q, 0, p);
  }

  lemma SmallPowers()
    ensures Pow(2, 0) == 1 && Pow(2, 1) == 2 && Pow(2, 2) == 4 && Pow(2, 3) == 8 && Pow(2, 4) == 16
    ensures Pow(2, 5) == 32 && Pow(2, 6) == 64 && Pow(2, 7) == 128 && Pow(2, 8) == 256
  {
  }

  /** Each block's symbol is the five bits it stands for. */
  lemma BlockValue(plain: seq<u8>, block: nat)
    requires GetByte(block) < |plain|
    ensures 5 * block <= |Bits(plain, 8)| && Block(plain, block) % 32 == Pack(Window(Bits(plain, 8), 5 * block, 5))
  {
    var i, off := GetByte(block), block * 5 % 8;
    assert 5 * block == 8 * i + off && GetBit(block) == 3 - off;
    hide *;
    if off <= 3 {
      BlockInside(plain, block, i, off);
      LowFive(Block(plain, block));
    } else {
      BlockAcross(plain, block, i, off);
    }
  }

  lemma BlockInside(plain: seq<u8>, block: nat, i: nat, off: nat)
    requires i == GetByte(block) < |plain| && GetBit(block) == 3 - off && off <= 3
    ensures 8 * i + off <= |Bits(plain, 8)| && Low(Block(plain, block), 5) == Pack(Window(Bits(plain, 8), 8 * i + off, 5))
  {
    hide *;
    BlockHigh(plain, block, off);
    InsideBits(plain, i, off);
  }

  /** Bits within one byte. */
  lemma InsideBits(plain: seq<u8>, i: nat, off: nat)
    requires i < |plain| && off <= 3
    ensures 8 * i + off <= |Bits(plain, 8)|
    ensures Pack(Window(Bits(plain, 8), 8 * i + off, 5)) == Low(Shr(plain[i], 3 - off), 5)
  {
    hide *;
    BitsOfByte(plain, i);
    WindowInside(Bits(plain, 8), 8 * i, off, 5);
    ByteSlice(plain[i], off, off + 5);
  }

  lemma BlockHigh(plain: seq<u8>, block: nat, off: nat)
    requires GetByte(block) < |plain| && off <= 3 && GetBit(block) == 3 - off
    ensures Block(plain, block) == Shr(plain[GetByte(block)], 3 - off)
  {
    hide ShiftRight, Or, GetByte, GetBit, Shr;
    ShiftInside(plain[GetByte(block)], off);
  }

  lemma LowFive(y: int)
    ensures Low(y, 5) == y % 32
  {
    PowFive();
  }

  lemma BlockAcross(plain: seq<u8>, block: nat, i: nat, off: nat)
    requires i == GetByte(block) < |plain| && GetBit(block) == 3 - off && 4 <= off <= 7
    ensures 8 * i + off <= |Bits(plain, 8)| && Block(plain, block) % 32 == Pack(Window(Bits(plain, 8), 8 * i + off, 5))
  {
    var x := plain[i];
    var y := if i + 1 < |plain| then plain[i + 1] else 0;
    hide *;
    AcrossBits(plain, i, off);
    LowBits(x, off);
    NextBits(plain, i, off - 3);
    AcrossSum(Unpack(x, 8)[off..], Window(Bits(plain, 8), 8 * i + 8, off - 3), x, y, off);
    AcrossBlock(plain, block, y, off);
  }

  /** Bits on both sides of a byte's end. */
  lemma AcrossBits(plain: seq<u8>, i: nat, off: nat)
    requires i < |plain| && 4 <= off <= 7
    ensures 8 * i + 8 <= |Bits(plain, 8)|
    ensures Window(Bits(plain, 8), 8 * i + off, 5) == Unpack(plain[i], 8)[off..] + Window(Bits(plain, 8), 8 * i + 8, off - 3)
  {
    hide *;
    BitsOfByte(plain, i);
    WindowAcross(Bits(plain, 8), 8 * i, off, 5);
  }

  lemma LowBits(x: u8, off: nat)
    requires off <= 8
    ensures Pack(Unpack(x, 8)[off..]) == Low(x, 8 - off)
  {
    assert Shr(x, 0) == x;
    hide *;
    ByteSlice(x, off, 8);
    assert Unpack(x, 8)[off..8] == Unpack(x, 8)[off..];
  }

  lemma AcrossSum(u: seq<int>, v: seq<int>, x: u8, y: u8, off: nat)
    requires 4 <= off <= 7 && |v| == off - 3 && Pack(u) == Low(x, 8 - off) && Pack(v) == Shr(y, 11 - off)
    ensures var a, b := ShiftRight(x, 3 - off), Shr(y, 11 - off);
            b >= 0 && Or(a, b) % 32 == Pack(u + v)
  {
    ValueConcat(u, v, 2);
    hide Pow, Shr, Low, ShiftRight, Or, Value;
    ShiftFacts(x, off);
    TwoParts(x, y, off);
  }

  lemma AcrossBlock(plain: seq<u8>, block: nat, y: u8, off: nat)
    requires GetByte(block) < |plain| && GetBit(block) == 3 - off && 4 <= off <= 7
    requires y == if GetByte(block) + 1 < |plain| then plain[GetByte(block) + 1] else 0
    ensures Shr(y, 11 - off) >= 0
    ensures Block(plain, block) == Or(ShiftRight(plain[GetByte(block)], 3 - off), Shr(y, 11 - off))
  {
    hide ShiftRight, GetByte, GetBit, Or, Shr;
    ShiftFacts(y, off);
    if GetByte(block) + 1 == |plain| {
      ShrZero(11 - off);
      OrZero(ShiftRight(plain[GetByte(block)], 3 - off));
    }
  }

  lemma ShrZero(k: nat)
    ensures Shr(0, k) == 0
  {
    PowPositive(2, k);
    DivMod(0, 0, Pow(2, k));
  }

  /** The bits after a byte: the next one's, or zeros. */
  lemma NextBits(plain: seq<u8>, i: nat, k: nat)
    requires i < |plain| && 1 <= k <= 4
    ensures 8 * i + 8 <= |Bits(plain, 8)|
    ensures var y := if i + 1 < |plain| then plain[i + 1] else 0;
            Pack(Window(Bits(plain, 8), 8 * i + 8, k)) == Shr(y, 8 - k)
  {
    hide Pow, Bits, Unpack, Shr, Low;
    BitsLength(plain, 8);
    var bits := Bits(plain, 8);
    if i + 1 < |plain| {
      hide Pack, Window;
      BitsOfByte(plain, i + 1);
      WindowInside(bits, 8 * i + 8, 0, k);
      ByteSlice(plain[i + 1], 0, k);
      TwoParts(0, plain[i + 1], k + 3);
    } else {
      assert Window(bits, 8 * i + 8, k) == Zeros(k);
      ValueZeros(Zeros(k), 2);
      ShrZero(8 - k);
    }
  }

  lemma SymbolAt(plain: seq<u8>, block: nat)
    requires GetByte(block) < |plain|
    ensures block < |Symbols(plain, 5)| && Symbols(plain, 5)[block] == Block(plain, block) % 32
  {
    hide Bits, Chunks, Block, Padded, Symbols, Window, GetByte, Value;
    PaddedBits(plain, block);
    BlockValue(plain, block);
    SymbolsOf(plain);
    ChunkAt(Padded(plain, 5), 5, block, 5 * block);
  }

  lemma SymbolsOf(plain: seq<u8>)
    ensures Symbols(plain, 5) == Chunks(Padded(plain, 5), 5)
  {
  }

  /** The padding completes every symbol that has begun. */
  lemma PaddedBits(plain: seq<u8>, block: nat)
    requires GetByte(block) < |plain|
    ensures 5 * block <= |Bits(plain, 8)| && 5 * block + 5 <= |Padded(plain, 5)|
    ensures Padded(plain, 5)[5 * block..5 * block + 5] == Window(Bits(plain, 8), 5 * block, 5)
  {
    var bits, pad := Bits(plain, 8), Padding(|plain|, 5);
    assert Padded(plain, 5) == bits + Zeros(pad);
    hide Bits, Padded, Padding, Window, GetByte, Zeros;
    BitsLength(plain, 8);
    RoomForFive(|plain|, block);
    PaddedWindow(bits, pad, 5 * block);
  }

  lemma RoomForFive(n: nat, block: nat)
    requires GetByte(block) < n
    ensures 5 * block < 8 * n && 5 * block + 5 <= 8 * n + Padding(n, 5) && Padding(n, 5) < 5
  {
    StartsInside(n, block);
    PaddingFits(n, 5);
    hide GetByte, Padding, SymbolCount;
    var count := SymbolCount(n, 5);
    assert block < count;
  }

  lemma StartsInside(n: nat, block: nat)
    requires GetByte(block) < n
    ensures 5 * block < 8 * n
  {
  }

  lemma PaddedWindow(bits: seq<int>, pad: nat, i: nat)
    requires i <= |bits| && pad < 5 && i + 5 <= |bits| + pad
    ensures (bits + Zeros(pad))[i..i + 5] == Window(bits, i, 5)
  {
  }

  lemma SymbolChar(plain: seq<u8>, block: nat, upper: bool)
    requires GetByte(block) < |plain|
    ensures block < |Encode(plain, upper)| && Encode(plain, upper)[block] == EncodeChar(Block(plain, block), upper)
  {
    hide Block, Symbols, GetByte;
    SymbolAt(plain, block);
  }

  lemma EncodeLength(bytes: seq<u8>, upper: bool)
    ensures |Encode(bytes, upper)| == (8 * |bytes| + 4) / 5
  {
    hide Symbols;
    SymbolsShape(bytes, 5);
  }

  method EncodeSequence(plain: seq<u8>, coded: array<char>, at: nat, upper: bool) returns (n: nat)
    requires |plain| <= 5 && at + 8 <= coded.Length
    modifies coded
    ensures n == |Encode(plain, upper)| <= 8
    ensures coded[at..at + n] == Encode(plain, upper) && coded[..at] == old(coded[..at])
  {
    hide Encode, Or, ShiftRight, EncodeChar;
    ghost var text := Encode(plain, upper);
    EncodeLength(plain, upper);
    var block := 0;
    while block < 8
      invariant block <= 8 && block <= |text| && coded[..at] == old(coded[..at])
      invariant block > 0 ==> GetByte(block - 1) < |plain|
      invariant coded[at..at + block] == text[..block]
    {
      var byte := GetByte(block);
      var bit := GetBit(block);
      if byte >= |plain| {
        assert text[..block] == text;
        return block;
      }
      SymbolChar(plain, block, upper);
      var c := ShiftRight(plain[byte], bit);
      var sym: int := c;
      if bit < 0 && byte < |plain| - 1 {
        sym := Or(c, ShiftRight(plain[byte + 1], 8 + bit));
      }
      coded[at + block] := EncodeChar(sym, upper);
      assert coded[at + block] == text[block];
      block := block + 1;
    }
    assert text[..8] == text;
    return 8;
  }

  /** A group of five bytes makes eight characters of its own. */
  lemma EncodeMore(bytes: seq<u8>, i: nat, k: nat, upper: bool)
    requires i <= k <= |bytes| && i % 5 == 0
    ensures Encode(bytes[..k], upper) == Encode(bytes[..i], upper) + Encode(bytes[i..k], upper)
    ensures |Encode(bytes[..i], upper)| * 5 == 8 * i && |Encode(bytes[i..k], upper)| == (8 * (k - i) + 4) / 5
  {
    hide Symbols, EncodeChar;
    var a, b := bytes[..i], bytes[i..k];
    assert bytes[..k] == a + b;
    SymbolsConcat(a, b, 5);
    assert Text(Symbols(a, 5) + Symbols(b, 5), upper) == Text(Symbols(a, 5), upper) + Text(Symbols(b, 5), upper);
    EncodeLength(a, upper);
    EncodeLength(b, upper);
  }

  /** The source's indices are `i = 5 * g` and `j = 8 * g`. */
  method EncodeBase32(bytes: seq<u8>, upper: bool) returns (text: string)
    ensures text == Encode(bytes, upper)
  {
    hide Encode, Writing;
    var groups := if |bytes| % 5 == 0 then |bytes| / 5 else |bytes| / 5 + 1;
    var result := new char[groups * 8](_ => ' ');
    var size: nat := result.Length;
    var g: nat := 0;
    WritingStart(result[..], bytes, groups, upper);
    while 5 * g < |bytes|
      invariant Writing(result[..], bytes, g, groups, size, upper)
      decreases |bytes| - 5 * g
    {
      size := WriteGroup(bytes, g, groups, result, size, upper);
      g := g + 1;
    }
    WritingEnd(result[..], bytes, g, groups, size, upper);
    text := result[..size];
  }

  /** After `g` of the groups: the part of `out` that counts is the text so far. */
  ghost predicate Writing(out: string, bytes: seq<u8>, g: nat, groups: nat, size: nat, upper: bool) {
    && g <= groups && |out| == 8 * groups && |bytes| <= 5 * groups < |bytes| + 5
    && if 5 * g <= |bytes| then size == |out| && out[..8 * g] == Encode(bytes[..5 * g], upper)
       else size <= |out| && out[..size] == Encode(bytes, upper)
  }

  lemma WritingStart(out: string, bytes: seq<u8>, groups: nat, upper: bool)
    requires |out| == 8 * groups && |bytes| <= 5 * groups < |bytes| + 5
    ensures Writing(out, bytes, 0, groups, |out|, upper)
  {
    EncodeLength(bytes[..0], upper);
    hide Encode;
  }

  lemma WritingEnd(out: string, bytes: seq<u8>, g: nat, groups: nat, size: nat, upper: bool)
    requires Writing(out, bytes, g, groups, size, upper) && 5 * g >= |bytes|
    ensures size <= |out| && out[..size] == Encode(bytes, upper)
  {
    hide Encode;
    assert bytes[..|bytes|] == bytes;
  }

  method WriteGroup(bytes: seq<u8>, g: nat, groups: nat, result: array<char>, size: nat, upper: bool) returns (size': nat)
    requires 5 * g < |bytes| && Writing(result[..], bytes, g, groups, size, upper)
    modifies result
    ensures Writing(result[..], bytes, g + 1, groups, size', upper)
  {
    hide Encode;
    var i, j := 5 * g, 8 * g;
    var k := i + Min(|bytes| - i, 5);
    assert result[..][..j] == result[..j];
    var n := EncodeGroup(bytes, i, k, result, j, upper);
    size' := size;
    if n < 8 {
      size' := size - (8 - n);
    }
    assert result[..][..j + n] == result[..j + n];
    assert k == |bytes| ==> bytes[..k] == bytes;
  }

  method EncodeGroup(bytes: seq<u8>, i: nat, k: nat, result: array<char>, j: nat, upper: bool) returns (n: nat)
    requires i <= k <= |bytes| && k <= i + 5 && i % 5 == 0 && j + 8 <= result.Length
    requires result[..j] == Encode(bytes[..i], upper)
    modifies result
    ensures n == (8 * (k - i) + 4) / 5 <= 8 && result[..j + n] == Encode(bytes[..k], upper)
  {
    hide Encode;
    EncodeMore(bytes, i, k, upper);
    ghost var done := result[..j];
    n := EncodeSequence(bytes[i..k], result, j, upper);
    assert result[..j + n] == done + result[j..j + n];
  }

  // ---- Decoding a group ----------------------------------------------------------------------

  /** Byte `i` of a string of bits, as far as it goes. */
  ghost function ByteAt(bits: seq<int>, i: nat): int
    requires 8 * i <= |bits|
  {
    Pack(Window(bits, 8 * i, 8))
  }

  lemma PackZeros(h: seq<int>, k: nat)
    ensures Pack(h + Zeros(k)) == Pack(h) * Pow(2, k)
  {
    ValueConcat(h, Zeros(k), 2);
    ValueZeros(Zeros(k), 2);
  }

  /** Bits written into the free end of a byte are or-ed to it. */
  lemma FillByte(h: seq<int>, x: seq<int>)
    requires IsBits(h) && IsBits(x)
    ensures Pack(h + Zeros(|x|)) >= 0 && Pack(x) >= 0
    ensures Pack(h + x) == Or(Pack(h + Zeros(|x|)), Pack(x))
    ensures 0 <= Pack(h + x) < Pow(2, |h| + |x|)
  {
    hide Or, Value, Pow, Unpack;
    UnpackPack(x);
    UnpackPack(h);
    UnpackPack(h + x);
    PackZeros(h, |x|);
    ValueConcat(h, x, 2);
    PowPositive(2, |x|);
    MulUp(Pow(2, |x|), 0, Pack(h));
    DivMod(Pack(h), 0, Pow(2, |x|));
    OrDisjoint(Pack(h + Zeros(|x|)), Pack(x), |x|);
  }

  /** The part of a symbol that goes into the current byte. */
  ghost function Head(c: int, off: nat): (s: seq<int>)
    requires off <= 7
    ensures |s| == 8 - off && IsBits(s)
  {
    if off <= 3 then Unpack(c, 5) + Zeros(3 - off) else Unpack(c, 5)[..8 - off]
  }

  lemma HeadValue(c: u8, off: nat)
    requires c < 32 && off <= 7
    ensures Pack(Head(c, off)) == ShiftLeft(c, 3 - off)
  {
    hide Pow, Unpack, Value, Shr, ShiftRight;
    SymbolShifts(c, off);
    if off <= 3 {
      PackZeros(Unpack(c, 5), 3 - off);
      PackUnpack(c, 5);
    } else {
      SplitSymbol(c, off);
      PackUnpack(Shr(c, off - 3), 8 - off);
    }
  }

  lemma SplitSymbol(c: u8, off: nat)
    requires 4 <= off <= 7
    ensures Unpack(c, 5)[..8 - off] == Unpack(Shr(c, off - 3), 8 - off) && Unpack(c, 5)[8 - off..] == Unpack(c, off - 3)
  {
    UnpackSplit(c, 8 - off, off - 3);
    hide Pow, Unpack;
  }

  lemma SymbolShifts(c: u8, off: nat)
    requires c < 32 && off <= 7
    ensures c < Pow(2, 5)
    ensures off <= 3 ==> ShiftLeft(c, 3 - off) == c * Pow(2, 3 - off)
    ensures off >= 4 ==> ShiftLeft(c, 3 - off) == Shr(c, off - 3) && 0 <= Shr(c, off - 3) < Pow(2, 8 - off)
    ensures off >= 4 ==> ShiftLeft(c, 11 - off) == c * Pow(2, 11 - off) % 256
    ensures off >= 4 ==> Pow(2, 11 - off) > 0 && Pow(2, off - 3) > 0 && Pow(2, 11 - off) * Pow(2, off - 3) == 256
  {
  }

  lemma TailValue(c: u8, off: nat)
    requires c < 32 && 4 <= off <= 7
    ensures Pack(Unpack(c, 5)[8 - off..] + Zeros(11 - off)) == ShiftLeft(c, 11 - off)
  {
    hide Pow, Unpack, Value, Shr, ShiftRight;
    SymbolShifts(c, off);
    SplitSymbol(c, off);
    UnpackLow(c, off - 3);
    PackZeros(Unpack(c, off - 3), 11 - off);
    Wrap(c, Pow(2, 11 - off), Pow(2, off - 3));
  }

  lemma Wrap(c: nat, p: nat, q: nat)
    requires p > 0 && q > 0 && p * q == 256
    ensures c * p % 256 == c % q * p
  {
    var h, l := c / q, c % q;
    assert c * p == h * 256 + l * p by {
      assert c == h * q + l;
      Assoc(h, q, p);
      assert (h * q + l) * p == (h * q) * p + l * p;
    }
    MulUp(p, l, q - 1);
    MulUp(p, 0, l);
    DivMod(h, l * p, 256);
  }

  /** One more symbol: full bytes stay, the current one is filled up, the next one is begun. */
  lemma DecodeStep(bits: seq<int>, c: u8, byte: nat, off: nat)
    requires IsBits(bits) && c < 32 && off <= 7 && |bits| == 8 * byte + off
    ensures var bits' := bits + Unpack(c, 5);
            && (forall i :: 0 <= i < byte ==> ByteAt(bits', i) == ByteAt(bits, i))
            && 0 <= ByteAt(bits, byte) && ByteAt(bits', byte) == Or(ByteAt(bits, byte), ShiftLeft(c, 3 - off)) < 256
            && (off >= 4 ==> ByteAt(bits', byte + 1) == ShiftLeft(c, 11 - off))
  {
    hide Pow, Unpack, Value, Shr, ShiftRight, Or;
    var bits' := bits + Unpack(c, 5);
    forall i | 0 <= i < byte ensures ByteAt(bits', i) == ByteAt(bits, i) {
      WindowInside(bits, 8 * i, 0, 8);
      WindowInside(bits', 8 * i, 0, 8);
      assert bits'[8 * i..8 * i + 8] == bits[8 * i..8 * i + 8];
    }
    CurrentByte(bits, c, byte, off);
    if off >= 4 {
      TailValue(c, off);
      NextWindow(bits, Unpack(c, 5), byte, off);
    }
  }

  lemma NextWindow(bits: seq<int>, u: seq<int>, byte: nat, off: nat)
    requires 4 <= off <= 7 && |bits| == 8 * byte + off && |u| == 5
    ensures Window(bits + u, 8 * (byte + 1), 8) == u[8 - off..] + Zeros(11 - off)
  {
  }

  lemma CurrentByte(bits: seq<int>, c: u8, byte: nat, off: nat)
    requires IsBits(bits) && c < 32 && off <= 7 && |bits| == 8 * byte + off
    ensures 0 <= ByteAt(bits, byte)
    ensures ByteAt(bits + Unpack(c, 5), byte) == Or(ByteAt(bits, byte), ShiftLeft(c, 3 - off)) < 256
  {
    PowEight();
    hide Pow, Unpack, Value, Shr, ShiftRight, Or;
    HeadValue(c, off);
    var h, x := bits[8 * byte..], Head(c, off);
    FillByte(h, x);
    CurrentWindow(bits, Unpack(c, 5), byte, off);
  }

  lemma CurrentWindow(bits: seq<int>, u: seq<int>, byte: nat, off: nat)
    requires off <= 7 && |bits| == 8 * byte + off && |u| == 5
    ensures Window(bits, 8 * byte, 8) == bits[8 * byte..] + Zeros(8 - off)
    ensures Window(bits + u, 8 * byte, 8) == bits[8 * byte..] + if off <= 3 then u + Zeros(3 - off) else u[..8 - off]
  {
  }

  /** The whole bytes among those written. */
  lemma WholeBytes(bits: seq<int>, i: nat)
    requires 8 * i + 8 <= |bits|
    ensures i < |Chunks(bits, 8)| && Chunks(bits, 8)[i] == ByteAt(bits, i)
  {
    hide Chunks, Value;
    ChunkAt(bits, 8, i, 8 * i);
    WindowInside(bits, 8 * i, 0, 8);
    assert bits[8 * i..8 * i + 8][0..8] == bits[8 * i..8 * i + 8];
  }

  /** The bytes begun so far agree with the bits read. */
  ghost predicate Filled(bytes: seq<u8>, bits: seq<int>) {
    |bytes| == 5 && |bits| <= 40 && forall i :: 0 <= i < 5 && (8 * i < |bits| || i == 0) ==> bytes[i] == ByteAt(bits, i)
  }

  lemma FilledStart(bytes: seq<u8>)
    requires |bytes| == 5 && bytes[0] == 0
    ensures Filled(bytes, [])
  {
    assert Window([], 0, 8) == Zeros(8);
    ValueZeros(Zeros(8), 2);
  }

  lemma FilledStep(bytes: seq<u8>, bytes': seq<u8>, bits: seq<int>, c: u8, block: nat)
    requires Filled(bytes, bits) && IsBits(bits) && |bits| == 5 * block && block < 8 && c < 32 && |bytes'| == 5
    requires var byte, bit := GetByte(block), GetBit(block);
             && bytes'[byte] == Or(bytes[byte], ShiftLeft(c, bit))
             && (bit < 0 ==> byte < 4 && bytes'[byte + 1] == ShiftLeft(c, 8 + bit))
             && (forall i :: 0 <= i < byte ==> bytes'[i] == bytes[i])
    ensures Filled(bytes', bits + Unpack(c, 5))
  {
    var byte, off := GetByte(block), 5 * block % 8;
    BlockPlace(block);
    hide Or, ShiftRight, GetByte, GetBit, ByteAt, Unpack, Digits;
    DecodeStep(bits, c, byte, off);
    var bits' := bits + Unpack(c, 5);
    forall i | 0 <= i < 5 && (8 * i < |bits'| || i == 0) ensures bytes'[i] == ByteAt(bits', i) {
      assert i < byte ==> bytes[i] == ByteAt(bits, i);
      assert bytes[byte] == ByteAt(bits, byte);
      hide Filled, ShiftLeft;
      assert i <= byte + 1 && (i == byte + 1 ==> off >= 4);
    }
  }

  lemma BlockPlace(block: nat)
    requires block < 8
    ensures var byte, off := GetByte(block), 5 * block % 8;
            && 5 * block == 8 * byte + off && GetBit(block) == 3 - off
            && byte <= 4 && off <= 7 && (off == 0 ==> byte == 0) && (byte == 4 ==> off <= 3)
  {
  }

  lemma FilledDone(bytes: seq<u8>, bits: seq<int>, n: nat)
    requires Filled(bytes, bits) && n == |bits| / 8
    ensures bytes[..n] == Chunks(bits, 8)
  {
    hide Chunks, ByteAt;
    ChunksLength(bits, 8);
    var all := Chunks(bits, 8);
    assert 8 * n <= |bits| && n <= 5;
    forall i | 0 <= i < n ensures bytes[..n][i] == all[i] {
      WholeBytes(bits, i);
    }
  }

  method DecodeSequence(coded: string, plain: array<u8>, at: nat, upper: bool) returns (r: Option<nat>)
    requires |coded| <= 8 && at + 5 <= plain.Length
    modifies plain
    ensures r == if Readable(coded, upper) then Some(5 * |coded| / 8) else None
    ensures plain[..at] == old(plain[..at])
    ensures r.Some? ==> plain[at..at + r.value] == Octets(Values(coded, upper), 5)
  {
    plain[at] := 0;
    ReadNothing(plain[at..at + 5], coded, upper);
    hide Read, Or, ShiftRight, DecodeChar, GetBit, Readable, Octets, Values;
    var block := 0;
    while block < 8
      invariant block <= 8 && block <= |coded| && plain[..at] == old(plain[..at])
      invariant Read(plain[at..at + 5], coded, block, upper)
    {
      var byte := GetByte(block);
      if block >= |coded| {
        ReadAll(plain[at..at + 5], coded, byte, upper);
        return Some(byte);
      }
      var c := DecodeChar(coded[block], upper);
      if c < 0 {
        Unreadable(coded, block, upper);
        return None;
      }
      Put(plain, at, coded, block, upper);
      block := block + 1;
    }
    ReadAll(plain[at..at + 5], coded, 5, upper);
    return Some(5);
  }

  /** The first `block` characters have been read into the five bytes. */
  ghost predicate Read(bytes: seq<u8>, coded: string, block: nat, upper: bool)
    requires block <= |coded|
  {
    Readable(coded[..block], upper) && Filled(bytes, Bits(Values(coded[..block], upper), 5))
  }

  lemma ReadNothing(bytes: seq<u8>, coded: string, upper: bool)
    requires |bytes| == 5 && bytes[0] == 0
    ensures Read(bytes, coded, 0, upper)
  {
    assert Values(coded[..0], upper) == [];
    assert Bits([], 5) == [];
    FilledStart(bytes);
  }

  lemma ReadAll(bytes: seq<u8>, coded: string, n: nat, upper: bool)
    requires |coded| <= 8 && Read(bytes, coded, |coded|, upper) && n == 5 * |coded| / 8
    ensures Readable(coded, upper) && |bytes| == 5 && n <= 5 && bytes[..n] == Octets(Values(coded, upper), 5)
  {
    hide Bits, ByteAt, Chunks, Values;
    assert coded[..|coded|] == coded;
    BitsLength(Values(coded, upper), 5);
    FilledDone(bytes, Bits(Values(coded, upper), 5), n);
  }

  lemma Unreadable(coded: string, block: nat, upper: bool)
    requires block < |coded| && DecodeChar(coded[block], upper) < 0
    ensures !Readable(coded, upper)
  {
  }

  lemma ReadMore(bytes: seq<u8>, bytes': seq<u8>, coded: string, block: nat, upper: bool)
    requires block < |coded| && block < 8 && Read(bytes, coded, block, upper) && 0 <= DecodeChar(coded[block], upper)
    requires var bits := Bits(Values(coded[..block], upper), 5);
             Filled(bytes', bits + Unpack(DecodeChar(coded[block], upper), 5))
    ensures Read(bytes', coded, block + 1, upper)
  {
    hide Bits, Filled, Unpack, DecodeChar;
    assert coded[..block + 1] == coded[..block] + [coded[block]];
    var vs, c := Values(coded[..block], upper), DecodeChar(coded[block], upper);
    assert Values(coded[..block + 1], upper) == vs + [c];
    BitsSnoc(vs, c, 5);
  }

  lemma {:induction false} OrBound(a: nat, b: nat, k: nat)
    requires a < Pow(2, k) && b < Pow(2, k)
    ensures Or(a, b) < Pow(2, k)
    decreases k
  {
    if k > 0 && (a > 0 || b > 0) { OrBound(a / 2, b / 2, k - 1); }
  }

  /** One symbol or-ed into place. */
  function Placed(bytes: seq<u8>, c: u8, block: nat): (bytes': seq<u8>)
    requires |bytes| == 5 && block < 8
    ensures |bytes'| == 5
  {
    var bit, byte := GetBit(block), GetByte(block);
    PowEight();
    OrBound(bytes[byte], ShiftLeft(c, bit), 8);
    var filled := bytes[byte := Or(bytes[byte], ShiftLeft(c, bit))];
    if bit < 0 then filled[byte + 1 := ShiftLeft(c, 8 + bit)] else filled
  }

  lemma PlacedRead(bytes: seq<u8>, coded: string, block: nat, upper: bool)
    requires block < |coded| && block < 8 && 0 <= DecodeChar(coded[block], upper) < 32
    requires Read(bytes, coded, block, upper)
    ensures |bytes| == 5 && Read(Placed(bytes, DecodeChar(coded[block], upper), block), coded, block + 1, upper)
  {
    hide ByteAt, Unpack, DecodeChar, Or, ShiftRight, Values, Readable, Bits;
    var c := DecodeChar(coded[block], upper);
    BitsLength(Values(coded[..block], upper), 5);
    BitsAreBits(Values(coded[..block], upper), 5);
    FilledStep(bytes, Placed(bytes, c, block), Bits(Values(coded[..block], upper), 5), c, block);
    ReadMore(bytes, Placed(bytes, c, block), coded, block, upper);
  }

  lemma PlacedParts(bytes: seq<u8>, c: u8, block: nat)
    requires |bytes| == 5 && block < 8
    ensures var bit, byte := GetBit(block), GetByte(block);
            && byte < 5 && (bit < 0 ==> byte < 4)
            && var v, w := Or(bytes[byte], ShiftLeft(c, bit)), ShiftLeft(c, 8 + bit);
               && 0 <= v < 256
               && Placed(bytes, c, block) == if bit < 0 then bytes[byte := v][byte + 1 := w] else bytes[byte := v]
  {
    hide Or, ShiftRight, Pow;
    PowEight();
    OrBound(bytes[GetByte(block)], ShiftLeft(c, GetBit(block)), 8);
  }

  /** The body of the loop. */
  method Put(plain: array<u8>, at: nat, coded: string, block: nat, upper: bool)
    requires at + 5 <= plain.Length && block < |coded| && block < 8 && DecodeChar(coded[block], upper) >= 0
    requires Read(plain[at..at + 5], coded, block, upper)
    modifies plain
    ensures Read(plain[at..at + 5], coded, block + 1, upper) && plain[..at] == old(plain[..at])
  {
    hide *;
    CharsInverse(0, coded[block], upper);
    var c: u8 := DecodeChar(coded[block], upper);
    ghost var before := plain[at..at + 5];
    PlacedRead(before, coded, block, upper);
    var bit, byte := GetBit(block), GetByte(block);
    PlacedParts(before, c, block);
    var v: u8, w := Or(plain[at + byte], ShiftLeft(c, bit)), ShiftLeft(c, 8 + bit);
    PutByte(plain, at, byte, v);
    if bit < 0 {
      PutByte(plain, at, byte + 1, w);
    }
  }

  method PutByte(plain: array<u8>, at: nat, byte: nat, v: u8)
    requires at + 5 <= plain.Length && byte < 5
    modifies plain
    ensures plain[at..at + 5] == old(plain[at..at + 5])[byte := v] && plain[..at] == old(plain[..at])
  {
    plain[at + byte] := v;
  }

  /** What a readable text decodes to. */
  ghost function Plain(t: string, upper: bool): seq<int> { Octets(Values(t, upper), 5) }

  /** Eight characters make five bytes of their own. */
  lemma DecodeMore(t: string, g: nat, i: nat, k: nat, upper: bool)
    requires i == 8 * g && i <= k <= |t|
    ensures Plain(t[..k], upper) == Plain(t[..i], upper) + Plain(t[i..k], upper)
    ensures Readable(t[..k], upper) <==> Readable(t[..i], upper) && Readable(t[i..k], upper)
  {
    assert t[..k] == t[..i] + t[i..k];
    hide *;
    SplitText(t[..i], t[i..k], upper);
    OctetsConcat(Values(t[..i], upper), Values(t[i..k], upper), 5, 5 * g);
    PlainOf(t[..i], upper);
    PlainOf(t[i..k], upper);
    PlainOf(t[..k], upper);
  }

  lemma SplitText(a: string, b: string, upper: bool)
    ensures Values(a + b, upper) == Values(a, upper) + Values(b, upper)
    ensures Readable(a + b, upper) <==> Readable(a, upper) && Readable(b, upper)
  {
    hide DecodeChar;
    assert forall i :: 0 <= i < |b| ==> (a + b)[|a| + i] == b[i];
    assert forall i :: 0 <= i < |a| ==> (a + b)[i] == a[i];
  }

  lemma PlainOf(t: string, upper: bool)
    ensures Plain(t, upper) == Octets(Values(t, upper), 5)
  {
  }

  /** The first `i` characters are decoded. */
  ghost predicate Decoded(out: seq<u8>, t: string, i: nat, upper: bool)
    requires i <= |t|
  {
    Readable(t[..i], upper) && out == Plain(t[..i], upper)
  }

  method DecodeGroup(t: string, ghost g: nat, i: nat, k: nat, result: array<u8>, j: nat, upper: bool) returns (n: Option<nat>)
    requires i == 8 * g && i <= k <= |t| && k <= i + 8 && j + 5 <= result.Length && Decoded(result[..j], t, i, upper)
    modifies result
    ensures n.None? ==> !Readable(t, upper)
    ensures n.Some? ==> n.value == 5 * (k - i) / 8 <= 5 && Decoded(result[..j + n.value], t, k, upper)
  {
    hide Octets, Readable, Values;
    DecodeMore(t, g, i, k, upper);
    PrefixReadable(t, k, upper);
    ghost var done := result[..j];
    n := DecodeSequence(t[i..k], result, j, upper);
    if n.Some? {
      assert result[..j + n.value] == done + result[j..j + n.value];
    }
  }

  lemma PrefixReadable(t: string, k: nat, upper: bool)
    requires k <= |t|
    ensures Readable(t, upper) ==> Readable(t[..k], upper)
  {
  }

  lemma DecodedAll(out: seq<u8>, t: string, upper: bool)
    ensures Decoded(out, t, |t|, upper) ==> Decode(t, upper) == Some(out)
  {
    assert t[..|t|] == t;
  }

  /** After `g` of the groups: the part of `out` that counts is the text read so far. */
  ghost predicate Going(out: seq<u8>, t: string, g: nat, groups: nat, size: nat, upper: bool) {
    && g <= groups && |out| == 5 * groups && |t| <= 8 * groups < |t| + 8
    && if 8 * g <= |t| then size == |out| && Decoded(out[..5 * g], t, 8 * g, upper)
       else size <= |out| && Decoded(out[..size], t, |t|, upper)
  }

  method NextGroup(t: string, g: nat, groups: nat, result: array<u8>, size: nat, upper: bool) returns (ok: bool, size': nat)
    requires 8 * g < |t| && Going(result[..], t, g, groups, size, upper)
    modifies result
    ensures if ok then Going(result[..], t, g + 1, groups, size', upper) else !Readable(t, upper)
  {
    hide Decoded, Readable;
    var i, j := 8 * g, 5 * g;
    var k := i + Min(|t| - i, 8);
    assert result[..][..j] == result[..j];
    var n := DecodeGroup(t, g, i, k, result, j, upper);
    ok, size' := n.Some?, size;
    if ok && n.value < 5 {
      size' := size - (5 - n.value);
    }
    if ok {
      assert result[..][..j + n.value] == result[..j + n.value];
    }
  }

  /** The source's indices are `i = 8 * g` and `j = 5 * g`. */
  method DecodeBase32(t: string, upper: bool) returns (r: Option<seq<u8>>)
    ensures r == Decode(t, upper)
  {
    assert !Readable(t, upper) ==> Decode(t, upper) == None;
    hide Going, Readable, Decode;
    var groups := if |t| % 8 == 0 then |t| / 8 else |t| / 8 + 1;
    var result := new u8[groups * 5](_ => 0);
    var size: nat := result.Length;
    var g: nat := 0;
    GoingStart(result[..], t, groups, upper);
    while 8 * g < |t|
      invariant Going(result[..], t, g, groups, size, upper)
      decreases |t| - 8 * g
    {
      var ok;
      ok, size := NextGroup(t, g, groups, result, size, upper);
      if !ok {
        return None;
      }
      g := g + 1;
    }
    GoingEnd(result[..], t, g, groups, size, upper);
    r := Some(result[..][..size]);
  }

  lemma GoingStart(out: seq<u8>, t: string, groups: nat, upper: bool)
    requires groups == (if |t| % 8 == 0 then |t| / 8 else |t| / 8 + 1) && |out| == groups * 5
    ensures Going(out, t, 0, groups, |out|, upper)
  {
  }

  lemma GoingEnd(out: seq<u8>, t: string, g: nat, groups: nat, size: nat, upper: bool)
    requires Going(out, t, g, groups, size, upper) && 8 * g >= |t|
    ensures size <= |out| && Decode(t, upper) == Some(out[..size])
  {
    hide Decoded, Decode;
    if 8 * g == |t| { assert g == groups && out[..5 * g] == out[..size]; }
    DecodedAll(out[..size], t, upper);
  }
}
