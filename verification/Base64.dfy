/** Base64 with padding: the loops of `encodeImpl` and `decodeImpl`. */
module Base64 {
  import opened Common
  import opened Positional
  import opened BitGroups
  import Base58

  /** The alphabet; only six-bit values are ever looked up. */
  function EncodeChar(v: int): char {
    if 0 <= v < 26 then ('A' as int + v) as char
    else if 26 <= v < 52 then ('a' as int + (v - 26)) as char
    else if 52 <= v < 62 then ('0' as int + (v - 52)) as char
    else if v == 62 then '+'
    else '/'
  }

  /** The inverse table; -1 for characters outside the alphabet. */
  function DecodeChar(c: char): int {
    if 'A' <= c <= 'Z' then c as int - 'A' as int
    else if 'a' <= c <= 'z' then c as int - 'a' as int + 26
    else if '0' <= c <= '9' then c as int - '0' as int + 52
    else if c == '+' then 62
    else if c == '/' then 63
    else -1
  }

  lemma CharsInverse(v: int, c: char)
    requires 0 <= v < 64
    ensures DecodeChar(EncodeChar(v)) == v && EncodeChar(v) != '=' && EncodeChar(v) != '\0'
    ensures DecodeChar(c) >= 0 ==> DecodeChar(c) < 64 && EncodeChar(DecodeChar(c)) == c
  {
  }

  /** Capitals, small letters, digits, plus and slash. */
  function CharClass(c: char): int {
    if 'A' <= c <= 'Z' then 0
    else if 'a' <= c <= 'z' then 1
    else if '0' <= c <= '9' then 2
    else if c == '+' then 3
    else if c == '/' then 4
    else 5
  }

  /** The alphabet of section 4 of RFC 4648: those classes one after the other, each in order. */
  lemma AlphabetIff(c: char)
    ensures DecodeChar(c) >= 0 <==> CharClass(c) < 5
  {
  }

  lemma AlphabetOrder(c: char, d: char)
    requires DecodeChar(c) >= 0 && DecodeChar(d) >= 0
    requires CharClass(c) < CharClass(d) || (CharClass(c) == CharClass(d) && c < d)
    ensures DecodeChar(c) < DecodeChar(d)
  {
  }

  // ---- Three bytes and four symbols ------------------------------------------------------

  lemma SmallPowers()
    ensures Pow(2, 2) == 4 && Pow(2, 4) == 16 && Pow(2, 6) == 64 && Pow(2, 8) == 256
  {
  }

  /** A byte in two parts. */
  lemma ByteParts(x: u8)
    ensures Unpack(x, 8) == Unpack(x / 4, 6) + Unpack(x, 2)
    ensures Unpack(x, 8) == Unpack(x / 16, 4) + Unpack(x, 4)
    ensures Unpack(x, 8) == Unpack(x / 64, 2) + Unpack(x, 6)
    ensures Pack(Unpack(x / 4, 6)) == x / 4 && Pack(Unpack(x, 2)) == x % 4
    ensures Pack(Unpack(x / 16, 4)) == x / 16 && Pack(Unpack(x, 4)) == x % 16
    ensures Pack(Unpack(x / 64, 2)) == x / 64 && Pack(Unpack(x, 6)) == x % 64
  {
    SmallPowers();
    hide Unpack, Pack, Pow;
    UnpackSplit(x, 6, 2);
    UnpackSplit(x, 4, 4);
    UnpackSplit(x, 2, 6);
    PackUnpack(x / 4, 6);
    PackUnpack(x / 16, 4);
    PackUnpack(x / 64, 2);
    UnpackLow(x, 2);
    UnpackLow(x, 4);
    UnpackLow(x, 6);
  }

  lemma PackTwo(u: seq<int>, v: seq<int>)
    ensures |v| == 2 ==> Pack(u + v) == Pack(u) * 4 + Pack(v)
    ensures |v| == 4 ==> Pack(u + v) == Pack(u) * 16 + Pack(v)
    ensures |v| == 6 ==> Pack(u + v) == Pack(u) * 64 + Pack(v)
  {
    SmallPowers();
    hide Pow;
    ValueConcat(u, v, 2);
  }

  lemma BitsOne(a: int, w: nat)
    ensures Bits([a], w) == Unpack(a, w)
  {
  }

  lemma BitsTwo(a: int, b: int, w: nat)
    ensures Bits([a, b], w) == Unpack(a, w) + Unpack(b, w)
  {
    hide Bits, Unpack;
    BitsOne(b, w);
    BitsCons(a, [b], w);
    assert [a] + [b] == [a, b];
  }

  lemma BitsThree(a: int, b: int, c: int, w: nat)
    ensures Bits([a, b, c], w) == Unpack(a, w) + (Unpack(b, w) + Unpack(c, w))
  {
    hide Bits, Unpack;
    BitsTwo(b, c, w);
    BitsCons(a, [b, c], w);
    assert [a] + [b, c] == [a, b, c];
  }

  lemma ChunkOne(u: seq<int>, w: nat)
    requires |u| == w > 0
    ensures Chunks(u, w) == [Pack(u)]
  {
    ChunksCons(u, [], w);
    assert u + [] == u;
  }

  lemma SymbolsAre(bytes: seq<u8>, pad: nat)
    requires |bytes| <= 3 && pad == 4 * (|bytes| % 3) % 6
    ensures Symbols(bytes, 6) == Chunks(Bits(bytes, 8) + Zeros(pad), 6)
  {
  }

  lemma OctetsAre(v: seq<int>)
    ensures Octets(v, 6) == Chunks(Bits(v, 6), 8)
  {
  }

  /** The symbols that straddle two bytes. */
  lemma Straddle(a: u8, b: u8)
    ensures Pack(Unpack(a, 2) + Unpack(b / 16, 4)) == a % 4 * 16 + b / 16
    ensures Pack(Unpack(a, 4) + Unpack(b / 64, 2)) == a % 16 * 4 + b / 64
  {
    hide *;
    ByteParts(a);
    ByteParts(b);
    PackTwo(Unpack(a, 2), Unpack(b / 16, 4));
    PackTwo(Unpack(a, 4), Unpack(b / 64, 2));
  }

  /** Four symbols from three bytes. */
  lemma Triple(a: u8, b: u8, c: u8)
    ensures Symbols([a, b, c], 6) == [a / 4, a % 4 * 16 + b / 16, b % 16 * 4 + c / 64, c % 64]
  {
    TripleBits(a, b, c, a / 4, b / 16, c / 64);
    hide *;
    Straddle(a, b);
    Straddle(b, c);
    ByteEnds(a);
    ByteEnds(c);
  }

  lemma ByteEnds(x: u8)
    ensures Pack(Unpack(x / 4, 6)) == x / 4 && Pack(Unpack(x, 6)) == x % 64
  {
    hide *;
    ByteParts(x);
  }

  lemma TripleBits(a: u8, b: u8, c: u8, x: int, y: int, z: int)
    requires x == a / 4 && y == b / 16 && z == c / 64
    ensures Symbols([a, b, c], 6) ==
            [Pack(Unpack(x, 6)), Pack(Unpack(a, 2) + Unpack(y, 4)), Pack(Unpack(b, 4) + Unpack(z, 2)), Pack(Unpack(c, 6))]
  {
    hide *;
    SymbolsAre([a, b, c], 0);
    NoZeros(Bits([a, b, c], 8));
    BitsThree(a, b, c, 8);
    SplitAfterSix(a);
    SplitAfterFour(b);
    SplitAfterTwo(c);
    FourGroups(Unpack(x, 6), Unpack(a, 2), Unpack(y, 4), Unpack(b, 4), Unpack(z, 2), Unpack(c, 6));
  }

  lemma SplitAfterSix(x: u8)
    ensures Unpack(x, 8) == Unpack(x / 4, 6) + Unpack(x, 2)
  {
    hide *;
    ByteParts(x);
  }

  lemma SplitAfterFour(x: u8)
    ensures Unpack(x, 8) == Unpack(x / 16, 4) + Unpack(x, 4)
  {
    hide *;
    ByteParts(x);
  }

  lemma SplitAfterTwo(x: u8)
    ensures Unpack(x, 8) == Unpack(x / 64, 2) + Unpack(x, 6)
  {
    hide *;
    ByteParts(x);
  }

  lemma FourGroups(p: seq<int>, q: seq<int>, r: seq<int>, s: seq<int>, t: seq<int>, u: seq<int>)
    requires |p| == 6 && |q| + |r| == 6 && |s| + |t| == 6 && |u| == 6
    ensures Chunks((p + q) + ((r + s) + (t + u)), 6) == [Pack(p), Pack(q + r), Pack(s + t), Pack(u)]
  {
    hide *;
    ThreeGroups(p, q, r, s, t + u);
    Regroup(s, t, u);
    ChunksCons(s + t, u, 6);
    ChunkOne(u, 6);
  }

  /** Two groups of six, and what follows. */
  lemma ThreeGroups(p: seq<int>, q: seq<int>, r: seq<int>, s: seq<int>, t: seq<int>)
    requires |p| == 6 && |q| + |r| == 6
    ensures Chunks((p + q) + ((r + s) + t), 6) == [Pack(p)] + ([Pack(q + r)] + Chunks(s + t, 6))
  {
    hide *;
    Regroup(p, q, (r + s) + t);
    Regroup(r, s, t);
    Regroup(q, r, s + t);
    ChunksCons(p, (q + r) + (s + t), 6);
    ChunksCons(q + r, s + t, 6);
  }

  lemma PackZeros(u: seq<int>)
    ensures Pack(u + Zeros(2)) == Pack(u) * 4 && Pack(u + Zeros(4)) == Pack(u) * 16
  {
    ValueZeros(Zeros(2), 2);
    ValueZeros(Zeros(4), 2);
    hide Value;
    PackTwo(u, Zeros(2));
    PackTwo(u, Zeros(4));
  }

  /** Three symbols from two bytes. */
  lemma Pair(a: u8, b: u8)
    ensures Symbols([a, b], 6) == [a / 4, a % 4 * 16 + b / 16, b % 16 * 4]
  {
    PairBits(a, b, a / 4, b / 16);
    hide *;
    Straddle(a, b);
    ByteEnds(a);
    LowFour(b);
  }

  lemma LowFour(b: u8)
    ensures Pack(Unpack(b, 4) + Zeros(2)) == b % 16 * 4
  {
    hide *;
    PackZeros(Unpack(b, 4));
    ByteParts(b);
  }

  lemma PairBits(a: u8, b: u8, x: int, y: int)
    requires x == a / 4 && y == b / 16
    ensures Symbols([a, b], 6) == [Pack(Unpack(x, 6)), Pack(Unpack(a, 2) + Unpack(y, 4)), Pack(Unpack(b, 4) + Zeros(2))]
  {
    hide *;
    SymbolsAre([a, b], 2);
    BitsTwo(a, b, 8);
    SplitAfterSix(a);
    SplitAfterFour(b);
    var p, q, r, s := Unpack(x, 6), Unpack(a, 2), Unpack(y, 4), Unpack(b, 4);
    Regroup(p + q, r + s, Zeros(2));
    ThreeGroups(p, q, r, s, Zeros(2));
    ChunkOne(s + Zeros(2), 6);
  }

  /** Two symbols from one byte. */
  lemma Single(a: u8)
    ensures Symbols([a], 6) == [a / 4, a % 4 * 16]
  {
    SymbolsAre([a], 4);
    hide *;
    BitsOne(a, 8);
    ByteParts(a);
    var p, q := Unpack(a / 4, 6), Unpack(a, 2);
    Regroup(p, q, Zeros(4));
    ChunksCons(p, q + Zeros(4), 6);
    ChunkOne(q + Zeros(4), 6);
    PackZeros(q);
  }

  /** A symbol in two parts. */
  lemma SymbolParts(x: int)
    requires 0 <= x < 64
    ensures Unpack(x, 6) == Unpack(x / 16, 2) + Unpack(x, 4)
    ensures Unpack(x, 6) == Unpack(x / 4, 4) + Unpack(x, 2)
    ensures Pack(Unpack(x, 6)) == x
    ensures Pack(Unpack(x / 16, 2)) == x / 16 && Pack(Unpack(x, 4)) == x % 16
    ensures Pack(Unpack(x / 4, 4)) == x / 4 && Pack(Unpack(x, 2)) == x % 4
  {
    SmallPowers();
    hide Unpack, Pack, Pow;
    UnpackSplit(x, 2, 4);
    UnpackSplit(x, 4, 2);
    PackUnpack(x, 6);
    PackUnpack(x / 16, 2);
    PackUnpack(x / 4, 4);
    UnpackLow(x, 4);
    UnpackLow(x, 2);
  }

  lemma {:induction false} NoChunk(u: seq<int>, w: nat)
    requires |u| < w
    ensures Chunks(u, w) == []
  {
  }

  /** One byte, and the bits that follow it. */
  lemma FirstByte(x: int, y: int, rest: seq<int>)
    requires 0 <= x < 64 && 0 <= y < 64
    ensures Chunks(Unpack(x, 6) + (Unpack(y, 6) + rest), 8) == [x * 4 + y / 16] + Chunks(Unpack(y, 4) + rest, 8)
  {
    hide *;
    SymbolParts(x);
    SymbolParts(y);
    Regroup(Unpack(y / 16, 2), Unpack(y, 4), rest);
    Regroup(Unpack(x, 6), Unpack(y / 16, 2), Unpack(y, 4) + rest);
    ChunksCons(Unpack(x, 6) + Unpack(y / 16, 2), Unpack(y, 4) + rest, 8);
    PackTwo(Unpack(x, 6), Unpack(y / 16, 2));
  }

  lemma SecondByte(x: int, y: int, rest: seq<int>)
    requires 0 <= x < 64 && 0 <= y < 64
    ensures Chunks(Unpack(x, 4) + (Unpack(y, 6) + rest), 8) == [x % 16 * 16 + y / 4] + Chunks(Unpack(y, 2) + rest, 8)
  {
    hide *;
    SymbolParts(x);
    SymbolParts(y);
    Regroup(Unpack(y / 4, 4), Unpack(y, 2), rest);
    Regroup(Unpack(x, 4), Unpack(y / 4, 4), Unpack(y, 2) + rest);
    ChunksCons(Unpack(x, 4) + Unpack(y / 4, 4), Unpack(y, 2) + rest, 8);
    PackTwo(Unpack(x, 4), Unpack(y / 4, 4));
  }

  /** What `decodeImpl` puts together from the symbols of one group, whole or cut short. */
  function Assemble(c4: seq<int>): seq<int>
    requires |c4| == 4
  {
    [c4[0] * 4 + c4[1] / 16, c4[1] % 16 * 16 + c4[2] / 4, c4[2] % 4 * 64 + c4[3]]
  }

  lemma Quad(v: seq<int>)
    requires |v| == 4 && forall i :: 0 <= i < 4 ==> 0 <= v[i] < 64
    ensures Octets(v, 6) == Assemble(v)
  {
    var w, x, y, z := v[0], v[1], v[2], v[3];
    assert v == [w, x, y, z];
    QuadBits(w, x, y, z);
    hide Octets;
  }

  lemma QuadBits(w: int, x: int, y: int, z: int)
    requires 0 <= w < 64 && 0 <= x < 64 && 0 <= y < 64 && 0 <= z < 64
    ensures Octets([w, x, y, z], 6) == [w * 4 + x / 16, x % 16 * 16 + y / 4, y % 4 * 64 + z]
  {
    hide *;
    OctetsAre([w, x, y, z]);
    BitsThree(x, y, z, 6);
    BitsCons(w, [x, y, z], 6);
    assert [w] + [x, y, z] == [w, x, y, z];
    FirstByte(w, x, Unpack(y, 6) + Unpack(z, 6));
    SecondByte(x, y, Unpack(z, 6));
    LastByte(y, z);
  }

  lemma LastByte(y: int, z: int)
    requires 0 <= y < 64 && 0 <= z < 64
    ensures Chunks(Unpack(y, 2) + Unpack(z, 6), 8) == [y % 4 * 64 + z]
  {
    hide *;
    SymbolParts(y);
    SymbolParts(z);
    ChunkOne(Unpack(y, 2) + Unpack(z, 6), 8);
    PackTwo(Unpack(y, 2), Unpack(z, 6));
  }

  /** One to three symbols give all but one as many bytes. */
  lemma Leftover(v: seq<int>, c4: seq<int>)
    requires 1 <= |v| <= 3 && (forall i :: 0 <= i < |v| ==> 0 <= v[i] < 64) && |c4| == 4 && c4[..|v|] == v
    ensures Octets(v, 6) == Assemble(c4)[..|v| - 1]
  {
    hide Bits, Unpack, Chunks, Pack;
    assert forall i :: 0 <= i < |v| ==> c4[i] == v[i];
    var w := v[0];
    if |v| == 1 {
      assert v == [w];
      BitsOne(w, 6);
      NoChunk(Unpack(w, 6), 8);
    } else if |v| == 2 {
      var x := v[1];
      assert v == [w, x];
      BitsTwo(w, x, 6);
      assert Unpack(x, 6) + [] == Unpack(x, 6) && Unpack(x, 4) + [] == Unpack(x, 4);
      FirstByte(w, x, []);
      NoChunk(Unpack(x, 4), 8);
    } else {
      var x, y := v[1], v[2];
      assert v == [w, x, y];
      BitsThree(w, x, y, 6);
      assert Unpack(y, 6) + [] == Unpack(y, 6) && Unpack(y, 2) + [] == Unpack(y, 2);
      FirstByte(w, x, Unpack(y, 6));
      SecondByte(x, y, []);
      NoChunk(Unpack(y, 2), 8);
    }
  }

  // ---- Reference ----------------------------------------------------------------------------

  function Text(s: seq<int>): (t: string)
    ensures |t| == |s| && forall i :: 0 <= i < |s| ==> t[i] == EncodeChar(s[i])
  {
    seq(|s|, i requires 0 <= i < |s| => EncodeChar(s[i]))
  }

  function Equals(n: nat): (t: string)
    ensures |t| == n && forall i :: 0 <= i < n ==> t[i] == '='
  {
    seq(n, _ => '=')
  }

  lemma SymbolsSmall(bytes: seq<u8>)
    ensures |Symbols(bytes, 6)| == (8 * |bytes| + 5) / 6
    ensures forall i :: 0 <= i < |Symbols(bytes, 6)| ==> 0 <= Symbols(bytes, 6)[i] < 64
  {
    SymbolsShape(bytes, 6);
    SmallPowers();
    hide Symbols, Pow;
  }

  /** Number of '=' after the symbols of `n` bytes. */
  function Missing(n: nat): nat { (3 - n % 3) % 3 }

  /** The symbols, filled up with '=' to a multiple of four characters. */
  function Encode(bytes: seq<u8>): string {
    Text(Symbols(bytes, 6)) + Equals(Missing(|bytes|))
  }

  predicate Readable(t: string) { forall i :: 0 <= i < |t| ==> DecodeChar(t[i]) >= 0 }

  function Values(t: string): (s: seq<int>)
    ensures |s| == |t| && forall i :: 0 <= i < |s| ==> s[i] == DecodeChar(t[i])
  {
    seq(|t|, i requires 0 <= i < |t| => DecodeChar(t[i]))
  }

  /** Characters before the first '='. */
  function BodySize(t: string): (n: nat)
    ensures n <= |t| && (n < |t| ==> t[n] == '=') && forall i :: 0 <= i < n ==> t[i] != '='
  {
    if t == [] || t[0] == '=' then 0 else 1 + BodySize(t[1..])
  }

  /** The regular expression: alphabet characters and then at most two '='. */
  predicate Matches(t: string) {
    var n := BodySize(t);
    Readable(t[..n]) && |t| <= n + 2 && forall i :: n <= i < |t| ==> t[i] == '='
  }

  function DecodeBody(t: string): Option<seq<u8>> {
    var body := t[..BodySize(t)];
    if Readable(body) then OctetsAreBytes(Values(body), 6); Some(Octets(Values(body), 6)) else None
  }

  /** The expression is matched against a C string, that is up to a NUL; the loop reads on from there. */
  function Decode(t: string): Option<seq<u8>> {
    if |t| % 4 != 0 || !Matches(t[..Base58.StrLen(t)]) then None else DecodeBody(t)
  }

  lemma {:induction false} NoNul(t: string)
    requires '\0' !in t
    ensures Base58.StrLen(t) == |t|
  {
  }

  /** Accepted are whole groups of four characters of the alphabet, the last two of which may be '='. */
  lemma AcceptedIff(t: string)
    requires '\0' !in t
    ensures Decode(t).Some? <==> |t| % 4 == 0 && (Padded(t, 0) || Padded(t, 1) || Padded(t, 2))
  {
    NoNul(t);
    assert t[..|t|] == t;
    assert Decode(t).Some? <==> |t| % 4 == 0 && Matches(t);
    hide *;
    MatchesIff(t);
  }

  lemma MatchesIff(t: string)
    ensures Matches(t) <==> Padded(t, 0) || Padded(t, 1) || Padded(t, 2)
  {
    if Matches(t) {
      var p := |t| - BodySize(t);
      assert Padded(t, p) && 0 <= p <= 2;
    }
    hide *;
    if Padded(t, 0) { PaddedMatches(t, 0); }
    if Padded(t, 1) { PaddedMatches(t, 1); }
    if Padded(t, 2) { PaddedMatches(t, 2); }
  }

  predicate Padded(t: string, p: nat) {
    p <= |t| && Readable(t[..|t| - p]) && forall i :: |t| - p <= i < |t| ==> t[i] == '='
  }

  lemma PaddedMatches(t: string, p: nat)
    requires Padded(t, p) && p <= 2
    ensures Matches(t)
  {
    var body := t[..|t| - p];
    forall i | 0 <= i < |body| ensures t[i] != '=' {
      assert DecodeChar(body[i]) >= 0;
    }
    assert p > 0 ==> t[|t| - p] == '=';
    assert BodySize(t) == |t| - p;
  }

  lemma BodyBefore(s: string, n: nat)
    requires forall i :: 0 <= i < |s| ==> s[i] != '='
    ensures BodySize(s + Equals(n)) == |s|
  {
    var t := s + Equals(n);
    assert n > 0 ==> t[|s|] == '=';
    assert forall i :: 0 <= i < |s| ==> t[i] == s[i];
  }

  /** Every byte string is read back, from exactly 4 * ceil(n / 3) characters. */
  lemma DecodeEncode(bytes: seq<u8>)
    ensures Decode(Encode(bytes)) == Some(bytes) && |Encode(bytes)| == 4 * ((|bytes| + 2) / 3)
  {
    var s, pad := Symbols(bytes, 6), Missing(|bytes|);
    assert Encode(bytes) == Text(s) + Equals(pad);
    hide *;
    SymbolsSmall(bytes);
    EncodedLength(|bytes|);
    DecodeText(s, pad, (|bytes| + 2) / 3);
    OctetsOfSymbols(bytes, 6);
  }

  lemma DecodeText(s: seq<int>, n: nat, groups: nat)
    requires (forall i :: 0 <= i < |s| ==> 0 <= s[i] < 64) && n <= 2 && |s| + n == 4 * groups
    ensures Decode(Text(s) + Equals(n)) == Some(Octets(s, 6))
  {
    TextReads(s);
    hide Octets, EncodeChar, DecodeChar, Text, Values, Readable;
    ReadBody(Text(s), n, groups);
  }

  lemma ReadBody(body: string, n: nat, groups: nat)
    requires Readable(body) && n <= 2 && |body| + n == 4 * groups
    requires forall i :: 0 <= i < |body| ==> body[i] != '=' && body[i] != '\0'
    ensures Decode(body + Equals(n)).Some? && Decode(body + Equals(n)).value == Octets(Values(body), 6)
  {
    var t := body + Equals(n);
    BodyBefore(body, n);
    hide Octets, DecodeChar, BodySize, Values, Readable;
    assert t[..|t|] == t && t[..|body|] == body;
    assert Matches(t);
    hide Matches;
    NoNul(t);
    hide Base58.StrLen;
    assert |t| % 4 == 0;
  }

  lemma TextReads(s: seq<int>)
    requires forall i :: 0 <= i < |s| ==> 0 <= s[i] < 64
    ensures Values(Text(s)) == s && Readable(Text(s))
    ensures forall i :: 0 <= i < |s| ==> Text(s)[i] != '=' && Text(s)[i] != '\0'
  {
    var body := Text(s);
    forall i | 0 <= i < |s| ensures DecodeChar(body[i]) == s[i] && body[i] != '=' && body[i] != '\0' {
      CharsInverse(s[i], body[i]);
    }
    hide EncodeChar, DecodeChar, Text;
  }

  lemma EncodedLength(n: nat)
    ensures (8 * n + 5) / 6 + Missing(n) == 4 * ((n + 2) / 3) && Missing(n) <= 2
  {
    var q, r := n / 3, n % 3;
    assert n == 3 * q + r;
    if r == 0 { DivMod(4 * q, 5, 6); }
    else if r == 1 { DivMod(4 * q + 2, 1, 6); }
    else { DivMod(4 * q + 3, 3, 6); }
  }

  // ---- The loops ------------------------------------------------------------------------------

  ghost function Written(bytes: seq<u8>): string { Text(Symbols(bytes, 6)) }

  /** A group of three bytes makes four characters of its own. */
  lemma WriteMore(bytes: seq<u8>, i: nat, k: nat, s: seq<int>)
    requires i <= k <= |bytes| && i % 3 == 0 && Symbols(bytes[i..k], 6) == s
    ensures Written(bytes[..k]) == Written(bytes[..i]) + Text(s)
  {
    hide Symbols;
    assert bytes[..k] == bytes[..i] + bytes[i..k];
    SymbolsConcat(bytes[..i], bytes[i..k], 6);
  }

  method EncodeBase64(bytes: seq<u8>) returns (out: string)
    ensures out == Encode(bytes)
  {
    hide Symbols, EncodeChar;
    out := "";
    var pos := 0;
    ghost var g := 0;
    SymbolsSmall(bytes[..0]);
    var n := |bytes| / 3;
    while n > 0
      invariant 0 <= n && pos == 3 * g && pos + 3 * n <= |bytes| < pos + 3 * n + 3
      invariant out == Written(bytes[..pos])
    {
      var four := WholeGroup(bytes, pos);
      out := out + four;
      pos := pos + 3;
      g := g + 1;
      n := n - 1;
    }
    var last := LastGroup(bytes, pos);
    out := out + last;
  }

  /** The four characters of three bytes. */
  method WholeGroup(bytes: seq<u8>, i: nat) returns (four: string)
    requires i + 3 <= |bytes| && i % 3 == 0
    ensures Written(bytes[..i + 3]) == Written(bytes[..i]) + four
  {
    var a, b, c := bytes[i], bytes[i + 1], bytes[i + 2];
    four := [EncodeChar(a / 4), EncodeChar(a % 4 * 16 + b / 16), EncodeChar(c / 64 + b % 16 * 4), EncodeChar(c % 64)];
    ghost var s := [a / 4, a % 4 * 16 + b / 16, b % 16 * 4 + c / 64, c % 64];
    assert four == Text(s);
    hide Symbols, EncodeChar, Written;
    assert bytes[i..i + 3] == [a, b, c];
    Triple(a, b, c);
    WriteMore(bytes, i, i + 3, s);
  }

  /** The bytes after the last whole group, with their padding. */
  method LastGroup(bytes: seq<u8>, i: nat) returns (last: string)
    requires i <= |bytes| < i + 3 && i % 3 == 0
    ensures Written(bytes[..i]) + last == Encode(bytes)
  {
    hide Symbols, Written, Encode;
    var left := |bytes| - i;
    if left == 2 {
      Pair(bytes[i], bytes[i + 1]);
      assert bytes[i..] == [bytes[i], bytes[i + 1]];
      var x, y, z := bytes[i] / 4, bytes[i] % 4 * 16 + bytes[i + 1] / 16, bytes[i + 1] % 16 * 4;
      LastSome(bytes, i, [x, y, z], 1);
      hide EncodeChar;
      last := [EncodeChar(x), EncodeChar(y), EncodeChar(z), '='];
      assert last == Text([x, y, z]) + Equals(1);
    } else if left == 1 {
      Single(bytes[i]);
      assert bytes[i..] == [bytes[i]];
      var x, y := bytes[i] / 4, bytes[i] % 4 * 16;
      LastSome(bytes, i, [x, y], 2);
      hide EncodeChar;
      last := [EncodeChar(x), EncodeChar(y), '=', '='];
      assert last == Text([x, y]) + Equals(2);
    } else {
      Filled(bytes, 0);
      last := "";
      assert bytes[..i] == bytes;
    }
  }

  lemma Filled(bytes: seq<u8>, pad: nat)
    requires pad == Missing(|bytes|)
    ensures Encode(bytes) == Written(bytes) + Equals(pad)
    ensures pad == 0 ==> Encode(bytes) == Written(bytes) + ""
  {
  }

  lemma LastSome(bytes: seq<u8>, i: nat, s: seq<int>, pad: nat)
    requires i <= |bytes| && i % 3 == 0 && Symbols(bytes[i..], 6) == s && pad == Missing(|bytes|)
    ensures Written(bytes[..i]) + (Text(s) + Equals(pad)) == Encode(bytes)
  {
    hide *;
    Filled(bytes, pad);
    assert bytes[i..|bytes|] == bytes[i..] && bytes[..|bytes|] == bytes;
    WriteMore(bytes, i, |bytes|, s);
    Regroup(Written(bytes[..i]), Text(s), Equals(pad));
  }

  /** Four symbols give three bytes, whatever came before. */
  lemma ReadMore(vs: seq<int>, four: seq<int>, g: nat)
    requires |vs| == 4 * g && |four| == 4 && forall i :: 0 <= i < 4 ==> 0 <= four[i] < 64
    ensures Octets(vs + four, 6) == Octets(vs, 6) + Assemble(four)
  {
    hide Octets, Assemble;
    OctetsConcat(vs, four, 6, 3 * g);
    Quad(four);
  }

  lemma ReadLast(vs: seq<int>, v: seq<int>, c4: seq<int>, g: nat)
    requires |vs| == 4 * g && 1 <= |v| <= 3 && (forall i :: 0 <= i < |v| ==> 0 <= v[i] < 64)
    requires |c4| == 4 && c4[..|v|] == v
    ensures Octets(vs + v, 6) == Octets(vs, 6) + Assemble(c4)[..|v| - 1]
  {
    hide Octets, Assemble;
    OctetsConcat(vs, v, 6, 3 * g);
    Leftover(v, c4);
  }

  /** The symbols read so far: `g` whole groups written out, `i` more in the scratch array. */
  ghost predicate Holds(vs: seq<int>, g: nat, i: nat, c4: seq<int>, out: seq<int>) {
    && |vs| == 4 * g + i && i < 4 && |c4| == 4 && c4[..i] == vs[4 * g..] && out == Octets(vs[..4 * g], 6)
    && forall k :: 0 <= k < |vs| ==> 0 <= vs[k] < 64
  }

  lemma HoldsStep(vs: seq<int>, v: int, g: nat, i: nat, c4: seq<int>, out: seq<int>)
    requires Holds(vs, g, i, c4, out) && 0 <= v < 64
    ensures if i < 3 then Holds(vs + [v], g, i + 1, c4[i := v], out)
            else Holds(vs + [v], g + 1, 0, c4[i := v], out + Assemble(c4[i := v]))
  {
    hide Octets, Assemble;
    var vs', c4' := vs + [v], c4[i := v];
    assert vs'[4 * g..] == vs[4 * g..] + [v] && vs'[..4 * g] == vs[..4 * g];
    assert c4'[..i + 1] == c4[..i] + [v];
    if i == 3 {
      assert c4'[..4] == c4' && vs' == vs[..4 * g] + c4';
      ReadMore(vs[..4 * g], c4', g);
      assert vs'[..4 * (g + 1)] == vs' && vs'[4 * (g + 1)..] == [] && c4'[..0] == [];
    }
  }

  /** The loop's state after `pos` characters. */
  ghost predicate Reading(src: string, pos: nat, g: nat, i: nat, c4: seq<int>, out: seq<int>) {
    pos <= |src| && Readable(src[..pos]) && Holds(Values(src[..pos]), g, i, c4, out)
  }

  lemma ReadingStep(src: string, pos: nat, g: nat, i: nat, c4: seq<int>, out: seq<int>)
    requires Reading(src, pos, g, i, c4, out) && pos < |src| && 0 <= DecodeChar(src[pos]) < 64 && i < 4 == |c4|
    ensures var c4' := c4[i := DecodeChar(src[pos])];
            if i < 3 then Reading(src, pos + 1, g, i + 1, c4', out)
            else Reading(src, pos + 1, g + 1, 0, c4', out + Assemble(c4'))
  {
    hide Holds, Assemble, DecodeChar;
    var v := DecodeChar(src[pos]);
    HoldsStep(Values(src[..pos]), v, g, i, c4, out);
    assert src[..pos + 1] == src[..pos] + [src[pos]];
    assert Values(src[..pos + 1]) == Values(src[..pos]) + [v];
  }

  /** The characters up to a '='; `n / 4 * 3` bytes of room, which the caller's length test makes enough. */
  method DecodeImpl(src: string) returns (r: Option<seq<u8>>)
    requires 6 * BodySize(src) / 8 <= |src| / 4 * 3
    ensures r == DecodeBody(src)
  {
    hide Reading, Assemble, DecodeChar, DecodeBody, BodySize, Readable, Before;
    var room := |src| / 4 * 3;
    var out := new int[room](_ => 0);
    var c4 := [0, 0, 0, 0];
    var i, pos, bytesPos := 0, 0, 0;
    ghost var g: nat := 0;
    ReadingStart(src, c4);
    assert out[..0] == [];
    while pos < |src| && src[pos] != '='
      invariant 0 <= i < 4 && pos == 4 * g + i && bytesPos == 3 * g && pos <= |src|
      invariant |c4| == 4 && bytesPos <= room && Reading(src, pos, g, i, c4, out[..bytesPos]) && Before(src, pos)
    {
      BeforeMore(src, pos);
      var v := DecodeChar(src[pos]);
      if v == -1 {
        return None;
      }
      RoomLeft(BodySize(src), g, i);
      c4, i, bytesPos, g := NextChar(src, pos, c4, i, out, bytesPos, g);
      pos := pos + 1;
    }
    BodyEnds(src, pos);
    RoomLeft(pos, g, i);
    r := Finish(src, pos, c4, i, out, bytesPos, g);
  }

  /** Bytes of `n` symbols: three for each whole group, one less than the symbols left. */
  lemma RoomLeft(n: nat, g: nat, i: nat)
    requires i < 4
    ensures 4 * g + i < n && i == 3 ==> 3 * g + 3 <= 6 * n / 8
    ensures 4 * g + i == n ==> 6 * n / 8 == 3 * g + if i > 0 then i - 1 else 0
  {
  }

  /** There is no '=' among the first characters. */
  ghost predicate Before(src: string, pos: nat) {
    pos <= |src| && forall k :: 0 <= k < pos ==> src[k] != '='
  }

  lemma BeforeMore(src: string, pos: nat)
    requires Before(src, pos) && pos < |src| && src[pos] != '='
    ensures Before(src, pos + 1) && pos < BodySize(src) && (DecodeChar(src[pos]) == -1 ==> DecodeBody(src) == None)
  {
  }

  /** One character into the scratch array, which is written out when it is full. */
  method NextChar(src: string, pos: nat, c4: seq<int>, i: nat, out: array<int>, bytesPos: nat, ghost g: nat)
    returns (c4': seq<int>, i': nat, bytesPos': nat, ghost g': nat)
    requires pos < |src| && DecodeChar(src[pos]) != -1 && |c4| == 4 && i < 4 && bytesPos <= out.Length
    requires i == 3 ==> bytesPos + 3 <= out.Length
    requires Reading(src, pos, g, i, c4, out[..bytesPos])
    modifies out
    ensures if i == 3 then i' == 0 && bytesPos' == bytesPos + 3 && g' == g + 1 else i' == i + 1 && bytesPos' == bytesPos && g' == g
    ensures |c4'| == 4 && Reading(src, pos + 1, g', i', c4', out[..bytesPos'])
  {
    NotBad(src[pos]);
    ReadingStep(src, pos, g, i, c4, out[..bytesPos]);
    hide Reading, DecodeChar;
    c4', i', bytesPos', g' := c4[i := DecodeChar(src[pos])], i + 1, bytesPos, g;
    if i' == 4 {
      var three := Assemble(c4');
      hide Assemble;
      Flush(out, bytesPos, three);
      bytesPos' := bytesPos + 3;
      i' := 0;
      g' := g + 1;
    }
  }

  lemma ReadingStart(src: string, c4: seq<int>)
    requires |c4| == 4
    ensures Reading(src, 0, 0, 0, c4, []) && Before(src, 0)
  {
  }

  lemma NotBad(c: char)
    requires DecodeChar(c) != -1
    ensures 0 <= DecodeChar(c) < 64
  {
  }

  lemma BodyEnds(src: string, pos: nat)
    requires Before(src, pos) && (pos < |src| ==> src[pos] == '=')
    ensures BodySize(src) == pos
  {
  }

  method Flush(out: array<int>, at: nat, three: seq<int>)
    requires at + |three| <= out.Length
    modifies out
    ensures out[..at + |three|] == old(out[..at]) + three
  {
    var j := 0;
    while j < |three|
      invariant j <= |three| && out[..at + j] == old(out[..at]) + three[..j]
    {
      out[at + j] := three[j];
      assert out[..at + j + 1] == out[..at + j] + [three[j]];
      j := j + 1;
    }
  }

  /** What is left in the scratch array makes one byte less than it has symbols. */
  method Finish(src: string, pos: nat, c4: seq<int>, i: nat, out: array<int>, bytesPos: nat, ghost g: nat) returns (r: Option<seq<u8>>)
    requires pos == BodySize(src) && |c4| == 4 && i < 4 && bytesPos + (if i > 0 then i - 1 else 0) <= out.Length
    requires Reading(src, pos, g, i, c4, out[..bytesPos])
    modifies out
    ensures r == DecodeBody(src)
  {
    FinishValue(src, pos, g, i, c4, out[..bytesPos]);
    hide Reading, Assemble, BodySize, DecodeBody;
    var size := bytesPos;
    if i > 0 {
      Flush(out, bytesPos, Assemble(c4)[..i - 1]);
      size := bytesPos + (i - 1);
    }
    assert out[..size] == DecodeBody(src).value;
    r := Some(out[..size]);
  }

  lemma FinishValue(src: string, pos: nat, g: nat, i: nat, c4: seq<int>, out: seq<int>)
    requires pos == BodySize(src) && |c4| == 4 && i < 4 && Reading(src, pos, g, i, c4, out)
    ensures DecodeBody(src).Some? && DecodeBody(src).value == if i > 0 then out + Assemble(c4)[..i - 1] else out
  {
    hide Octets, Assemble, DecodeChar, BodySize, Values, Holds;
    assert DecodeBody(src) == Some(Octets(Values(src[..pos]), 6));
    hide Readable, DecodeBody;
    LastRead(Values(src[..pos]), g, i, c4, out);
  }

  lemma LastRead(vs: seq<int>, g: nat, i: nat, c4: seq<int>, out: seq<int>)
    requires Holds(vs, g, i, c4, out)
    ensures Octets(vs, 6) == if i > 0 then out + Assemble(c4)[..i - 1] else out
  {
    hide Octets, Assemble;
    if i > 0 {
      assert vs == vs[..4 * g] + vs[4 * g..];
      ReadLast(vs[..4 * g], vs[4 * g..], c4, g);
    } else {
      assert vs[..4 * g] == vs;
    }
  }

  method DecodeBase64(t: string) returns (r: Option<seq<u8>>)
    ensures r == Decode(t)
  {
    hide DecodeBody, Matches;
    if |t| % 4 != 0 || !Matches(t[..Base58.StrLen(t)]) {
      return None;
    }
    r := DecodeImpl(t);
  }
}
