/** Multihashes, and content identifiers of both versions with their text form. */
module Cids {
  import opened Common
  import opened Positional
  import opened Varint
  import Base32
  import Base58
  import Base58Bounds
  import Base64

  // ---- Multihash ----------------------------------------------------------------------

  /** The type of the hash function and the digest; `create` admits at most 127 bytes. */
  datatype Multihash = Multihash(kind: u64, hash: seq<u8>)

  const MAX_HASH_LENGTH := 127
  const SHA256: u64 := 0x12
  const DAG_PB: int32 := 0x70

  datatype Error =
    | InputTooShort | InputTooLong | ZeroInputLength | InconsistentLength
    | InvalidContentType | InvalidHashType | InvalidHashLength
    | EmptyVersion | EmptyMulticodec | MalformedVersion | ReservedVersion
    | CidTooShort | UnsupportedBase | InvalidBaseInput

  function Create(kind: u64, hash: seq<u8>): Result<Multihash, Error> {
    if |hash| > MAX_HASH_LENGTH then Err(InputTooLong) else Ok(Multihash(kind, hash))
  }

  /** `toBuffer`: type, length byte, digest. */
  function Buffer(m: Multihash): seq<u8>
    requires |m.hash| <= 255
  {
    Encode(m.kind) + [|m.hash|] + m.hash
  }

  /** `createFromBytes`. */
  function FromBytes(b: seq<u8>): Result<Multihash, Error> {
    var vr := Meaning(b);
    if vr.state != Ready || vr.got > |b| then Err(InputTooShort)
    else
      var rest := b[vr.got..];
      if rest == [] then Err(InputTooShort)
      else
        var length, hash := rest[0], rest[1..];
        if length == 0 then Err(ZeroInputLength)
        else if |hash| != length then Err(InconsistentLength)
        else Create(vr.value, hash)
  }

  /** A multihash is read back unless its digest is empty. */
  lemma BufferRoundTrip(m: Multihash)
    requires |m.hash| <= MAX_HASH_LENGTH
    ensures FromBytes(Buffer(m)) == if m.hash == [] then Err(ZeroInputLength) else Ok(m)
  {
    var tail := [|m.hash|] + m.hash;
    assert Buffer(m) == Encode(m.kind) + tail;
    EncodeDecodes(m.kind, tail);
    hide Encode, Meaning;
    assert (Encode(m.kind) + tail)[|Encode(m.kind)|..] == tail;
  }

  /** Bytes are read as a multihash exactly when they are a varint for the type, the length of the digest and the digest. */
  lemma MultihashIff(b: seq<u8>, m: Multihash)
    ensures FromBytes(b) == Ok(m) <==> 1 <= |m.hash| <= MAX_HASH_LENGTH && exists k :: Spelled(b, m, k)
  {
    ReadyIff(b);
    var n := SizeOf(b);
    if n > 0 {
      DecodersAgree(b, n);
      SizeOfIff(b, n);
      assert b[n..] == [|m.hash|] + m.hash ==> b[n..][1..] == m.hash;
      assert b[n..] != [] ==> b[n..] == [b[n..][0]] + b[n..][1..];
    }
    hide Meaning, Leb;
    forall k | Spelled(b, m, k) ensures n == k {
      SizeOfIff(b, k);
    }
    hide SizeOf;
    if FromBytes(b) == Ok(m) {
      assert Spelled(b, m, n);
    }
  }

  ghost predicate Spelled(b: seq<u8>, m: Multihash, k: int) {
    0 < k <= |b| && IsVarint(b[..k]) && Leb(b[..k]) == m.kind && |m.hash| <= 255 && b[k..] == [|m.hash|] + m.hash
  }

  /** And why other bytes are not: nothing after the type, no length, a wrong one, or one that is too large. */
  lemma MultihashFaults(kind: u64, n: u8, hash: seq<u8>)
    ensures FromBytes([]) == Err(InputTooShort) && FromBytes(Encode(kind)) == Err(InputTooShort)
    ensures FromBytes(Encode(kind) + ([n] + hash)) ==
            if n == 0 then Err(ZeroInputLength)
            else if n != |hash| then Err(InconsistentLength)
            else if n > 127 then Err(InputTooLong)
            else Ok(Multihash(kind, hash))
  {
    assert Meaning([]).state != Ready;
    EncodeDecodes(kind, []);
    EncodeDecodes(kind, [n] + hash);
    hide Meaning, Encode, SizeOf, Leb;
    var e := Encode(kind);
    assert e + [] == e && e[|e|..] == [];
    assert (e + ([n] + hash))[|e|..] == [n] + hash && ([n] + hash)[1..] == hash;
  }

  /** Constructor of `Multihash::Data`. */
  method WriteMultihash(m: Multihash) returns (bytes: seq<u8>)
    requires |m.hash| <= MAX_HASH_LENGTH
    ensures bytes == Buffer(m)
  {
    bytes := AppendVarint([], m.kind);
    bytes := bytes + [|m.hash|];
    bytes := bytes + m.hash;
  }

  /** `createFromBytes` with the byte reader it uses. */
  method ReadMultihash(b: seq<u8>) returns (r: Result<Multihash, Error>)
    ensures r == FromBytes(b)
  {
    assert Meaning([]) == Reader(0, Underflow, 0);
    hide Meaning, SizeOf;
    ReadyIff(b);
    hide Leb;
    var vr := new VarintPrefixReader();
    assert [] + b == b;
    var s, rest := vr.ConsumeBuffer(b, []);
    if s != Ready {
      return Err(InputTooShort);
    }
    if rest == [] {
      return Err(InputTooShort);
    }
    var length, hash := rest[0], rest[1..];
    if length == 0 {
      return Err(ZeroInputLength);
    }
    if |hash| != length {
      return Err(InconsistentLength);
    }
    return Create(vr.value, hash);
  }

  // ---- Content identifiers -------------------------------------------------------------

  /** Content types are an enumeration over 32-bit integers. */
  type int32 = x: int | -0x8000_0000 <= x < 0x8000_0000

  datatype Version = V0 | V1

  datatype Cid = Cid(version: Version, contentType: int32, address: Multihash)

  /** Conversion to `uint64_t` extends the sign; conversion back keeps 32 bits. */
  function Widen(x: int32): u64 { if x < 0 then x + WORD else x }

  function Narrow(x: u64): int32 {
    var low := x % 0x1_0000_0000;
    if low < 0x8000_0000 then low else low - 0x1_0000_0000
  }

  function EncodeCid(cid: Cid): Result<seq<u8>, Error>
    requires |cid.address.hash| <= MAX_HASH_LENGTH
  {
    match cid.version
    case V1 => Ok(Encode(1) + Encode(Widen(cid.contentType)) + Buffer(cid.address))
    case V0 =>
      if cid.contentType != DAG_PB then Err(InvalidContentType)
      else if cid.address.kind != SHA256 then Err(InvalidHashType)
      else if |cid.address.hash| != 32 then Err(InvalidHashLength)
      else Ok(Buffer(cid.address))
  }

  method WriteCid(cid: Cid) returns (r: Result<seq<u8>, Error>)
    requires |cid.address.hash| <= MAX_HASH_LENGTH
    ensures r == EncodeCid(cid)
  {
    hide Encode;
    var buffer := WriteMultihash(cid.address);
    if cid.version == V1 {
      var bytes := AppendVarint([], 1);
      bytes := AppendVarint(bytes, Widen(cid.contentType));
      assert bytes == Encode(1) + Encode(Widen(cid.contentType));
      return Ok(bytes + buffer);
    }
    if cid.contentType != DAG_PB {
      return Err(InvalidContentType);
    }
    if cid.address.kind != SHA256 {
      return Err(InvalidHashType);
    }
    if |cid.address.hash| != 32 {
      return Err(InvalidHashLength);
    }
    return Ok(buffer);
  }

  function DecodeCid(b: seq<u8>): Result<Cid, Error> {
    if |b| == 34 && b[0] == 0x12 && b[1] == 0x20 then Located(V0, DAG_PB, FromBytes(b))
    else
      var k := SizeOf(b);
      if k == 0 then Err(EmptyVersion)
      else
        var version, rest := Leb(b[..k]), b[k..];
        if version == 1 then
          var j := SizeOf(rest);
          if j == 0 then Err(EmptyMulticodec)
          else
            SizeOfIff(rest, j);
            Located(V1, Narrow(Leb(rest[..j])), FromBytes(rest[j..]))
        else if version <= 0 then Err(MalformedVersion)
        else Err(ReservedVersion)
  }

  function Located(version: Version, contentType: int32, address: Result<Multihash, Error>): Result<Cid, Error> {
    match address
    case Ok(m) => Ok(Cid(version, contentType, m))
    case Err(e) => Err(e)
  }

  /** Every encoded identifier is read back, except that an empty digest is refused. */
  lemma DecodeEncodeCid(cid: Cid)
    requires |cid.address.hash| <= MAX_HASH_LENGTH && EncodeCid(cid).Ok?
    ensures DecodeCid(EncodeCid(cid).value) ==
            if cid.address.hash == [] then Err(ZeroInputLength) else Ok(cid)
  {
    hide FromBytes, DecodeCid, Buffer, Widen, Narrow, Encode;
    BufferRoundTrip(cid.address);
    match cid.version
    case V0 => DecodeV0(cid.address);
    case V1 =>
      DecodeV1(Widen(cid.contentType), Buffer(cid.address));
      NarrowWiden(cid.contentType);
  }

  /** A sha2-256 of a protobuf node, version 1: four bytes and the digest. */
  lemma V1Bytes(cid: Cid)
    requires cid.version == V1 && cid.contentType == DAG_PB && cid.address.kind == SHA256 && |cid.address.hash| == 32
    ensures EncodeCid(cid) == Ok([0x01, 0x70, 0x12, 0x20] + cid.address.hash)
  {
    assert Encode(1) == [1] && Encode(0x70) == [0x70] && Encode(0x12) == [0x12];
    hide Encode;
    assert [1] + [0x70] + ([0x12] + [0x20] + cid.address.hash) == [0x01, 0x70, 0x12, 0x20] + cid.address.hash;
  }

  lemma NarrowWiden(x: int32)
    ensures Narrow(Widen(x)) == x
  {
  }

  lemma DecodeV0(m: Multihash)
    requires m.kind == SHA256 && |m.hash| == 32
    ensures DecodeCid(Buffer(m)) == Located(V0, DAG_PB, FromBytes(Buffer(m)))
    ensures Buffer(m) == [0x12, 0x20] + m.hash
  {
  }

  lemma DecodeV1(code: u64, buffer: seq<u8>)
    ensures DecodeCid(Encode(1) + Encode(code) + buffer) == Located(V1, Narrow(code), FromBytes(buffer))
  {
    var rest := Encode(code) + buffer;
    var b := Encode(1) + rest;
    assert Encode(1) == [1];
    hide Encode, SizeOf, Leb, Meaning, FromBytes;
    assert Encode(1) + Encode(code) + buffer == b && b[1..] == rest && b[0] == 1;
    EncodeDecodes(1, rest);
    EncodeDecodes(code, buffer);
    assert rest[|Encode(code)|..] == buffer;
  }

  /** Why bytes are not an identifier: no version, an unknown one, or no content type. */
  lemma CidFaults(version: u64, rest: seq<u8>)
    requires |Encode(version) + rest| != 34 || version != 0x12
    ensures DecodeCid([]) == Err(EmptyVersion) && DecodeCid([1]) == Err(EmptyMulticodec)
    ensures version != 1 ==> DecodeCid(Encode(version) + rest) == Err(if version == 0 then MalformedVersion else ReservedVersion)
  {
    assert SizeOf([]) == 0;
    assert Encode(1) == [1] && (version < 128 ==> Encode(version) == [version]);
    assert version >= 128 ==> Encode(version)[0] >= 128;
    EncodeDecodes(1, []);
    EncodeDecodes(version, rest);
    hide Encode, SizeOf, Leb, FromBytes;
    assert [1] + [] == [1] && [1][1..] == [];
  }

  /** Version 0 is for one type of content, one hash function and one length. */
  lemma V0Iff(cid: Cid)
    requires |cid.address.hash| <= MAX_HASH_LENGTH && cid.version == V0
    ensures EncodeCid(cid).Ok? <==> cid.contentType == 0x70 && cid.address.kind == 0x12 && |cid.address.hash| == 32
    ensures EncodeCid(cid).Err? ==>
              EncodeCid(cid).error == if cid.contentType != 0x70 then InvalidContentType
                                      else if cid.address.kind != 0x12 then InvalidHashType else InvalidHashLength
  {
    hide Buffer;
  }

  // ---- Text ------------------------------------------------------------------------------

  /** The decoders this model does not look into: both cases of base16. */
  type OtherBases = (char, string) -> Option<seq<u8>>

  function Decoded(o: Option<seq<u8>>): Result<seq<u8>, Error> {
    match o
    case Some(b) => Ok(b)
    case None => Err(InvalidBaseInput)
  }

  /** `MultibaseCodecImpl::decode`: the first character names the base. */
  function MultibaseDecode(others: OtherBases, s: string): Result<seq<u8>, Error> {
    if |s| < 2 then Err(InputTooShort)
    else
      var base, rest := s[0], s[1..];
      if base == 'b' || base == 'B' then Decoded(Base32.Decode(rest, base == 'B'))
      else if base == 'z' then Decoded(Base58.DecodeBytes(rest))
      else if base == 'm' then Decoded(Base64.Decode(rest))
      else if base == 'f' || base == 'F' then Decoded(others(base, rest))
      else Err(UnsupportedBase)
  }

  function ToString(cid: Cid): Result<string, Error>
    requires |cid.address.hash| <= MAX_HASH_LENGTH
  {
    match EncodeCid(cid)
    case Err(e) => Err(e)
    case Ok(b) => Ok(if cid.version == V0 then Base58.Encode(b) else "b" + Base32.Encode(b, false))
  }

  function FromString(others: OtherBases, s: string): Result<Cid, Error> {
    if |s| < 2 then Err(CidTooShort)
    else
      var bytes := if |s| == 46 && s[..2] == "Qm" then Decoded(Base58.DecodeBytes(s)) else MultibaseDecode(others, s);
      match bytes
      case Err(e) => Err(e)
      case Ok(b) => DecodeCid(b)
  }

  /** The first character selects the base; the bytes come back through any of them. */
  lemma AnyBase(others: OtherBases, b: seq<u8>, upper: bool)
    requires b != []
    ensures MultibaseDecode(others, "z" + Base58.Encode(b)) == Ok(b)
    ensures MultibaseDecode(others, (if upper then "B" else "b") + Base32.Encode(b, upper)) == Ok(b)
    ensures MultibaseDecode(others, "m" + Base64.Encode(b)) == Ok(b)
  {
    hide Base58.Encode, Base58.DecodeBytes, Base32.Encode, Base32.Decode, Base64.Encode, Base64.Decode;
    Base58.RoundTrip(b);
    Base32.DecodeEncode(b, upper);
    Base64.DecodeEncode(b);
    EmptyTexts();
    Behind("z", Base58.Encode(b));
    Behind(if upper then "B" else "b", Base32.Encode(b, upper));
    Behind("m", Base64.Encode(b));
  }

  lemma Behind(prefix: string, t: string)
    requires |prefix| == 1
    ensures (prefix + t)[0] == prefix[0] && (prefix + t)[1..] == t && |prefix + t| == 1 + |t|
  {
  }

  lemma EmptyTexts()
    ensures Base58.DecodeBytes([]) == Some([])
    ensures Base32.Decode([], true) == Base32.Decode([], false) == Some([])
    ensures Base64.Decode([]) == Some([])
  {
    EmptyBase58();
    EmptyBase32(true);
    EmptyBase32(false);
    EmptyBase64();
  }

  lemma EmptyBase58()
    ensures Base58.DecodeBytes([]) == Some([])
  {
    assert Base58.Encode([]) == [];
    Base58.RoundTrip([]);
  }

  lemma EmptyBase32(upper: bool)
    ensures Base32.Decode([], upper) == Some([])
  {
    Base32.DecodeEncode([], upper);
    hide Base32.Decode;
    assert |Base32.Encode([], upper)| == 0;
  }

  lemma EmptyBase64()
    ensures Base64.Decode([]) == Some([])
  {
    Base64.DecodeEncode([]);
    hide Base64.Decode;
    assert |Base64.Encode([])| == 0;
  }

  /** Anything else is refused, and so is a text without a digit. */
  lemma NoBase(others: OtherBases, s: string)
    ensures |s| < 2 ==> MultibaseDecode(others, s) == Err(InputTooShort)
    ensures |s| >= 2 && s[0] !in ['b', 'B', 'z', 'm', 'f', 'F'] ==> MultibaseDecode(others, s) == Err(UnsupportedBase)
    ensures |s| < 2 ==> FromString(others, s) == Err(CidTooShort)
  {
    hide Base58.DecodeBytes, Base32.Decode, Base64.Decode;
  }

  ghost predicate Within(v: int, q: int, p: int) { q * p <= v < (q + 1) * p }

  lemma WithinDown(v: int, q: int, b: int, k: nat)
    requires b >= 2 && q > 0 && Within(v, q, Pow(b, k))
    ensures v > 0 && if k == 0 then v == q else Within(v / b, q, Pow(b, k - 1))
  {
    PowPositive(b, k);
    MulUp(Pow(b, k), 1, q);
    if k > 0 {
      assert Pow(b, k) == b * Pow(b, k - 1);
      hide Pow;
      Scaled(v, q, Pow(b, k - 1), b);
    }
  }

  lemma Scaled(v: int, q: int, p: int, b: int)
    requires b >= 2 && q * (b * p) <= v < (q + 1) * (b * p)
    ensures q * p <= v / b < (q + 1) * p
  {
    assert q * (b * p) == (q * p) * b;
    assert (q + 1) * (b * p) == ((q + 1) * p) * b;
    Between(v, q * p, (q + 1) * p, b);
  }

  /** A number between two neighbouring multiples of a power starts with the digits of the lower one. */
  lemma {:induction false} CanonHead(v: int, q: int, b: int, k: nat)
    requires b >= 2 && q > 0 && Within(v, q, Pow(b, k))
    ensures v > 0 && |Canon(v, b)| == |Canon(q, b)| + k && Canon(v, b)[..|Canon(q, b)|] == Canon(q, b)
    decreases k
  {
    WithinDown(v, q, b, k);
    hide Pow, Canon, Within;
    if k > 0 {
      CanonHead(v / b, q, b, k - 1);
      CanonLast(v, b);
    }
  }

  lemma CanonLast(v: int, b: int)
    requires b >= 2 && v > 0
    ensures v / b >= 0 && Canon(v, b) == Canon(v / b, b) + [v % b]
  {
  }

  lemma Between(v: int, lo: int, hi: int, b: int)
    requires b >= 2 && lo * b <= v < hi * b
    ensures lo <= v / b < hi
  {
    var d := v / b;
    assert v == d * b + v % b;
    if d < lo { MulUp(b, d, lo - 1); }
    if d >= hi { MulUp(b, hi, d); }
  }

  /** 0x1220 followed by 32 bytes lies between 23 * 58 + 44 and the next multiple of 58^44. */
  lemma V0Range()
    ensures 1378 * Pow(58, 44) <= 0x1220 * Pow(256, 32) && 0x1221 * Pow(256, 32) <= 1379 * Pow(58, 44)
  {
    Base58Bounds.SmallPowers();
    PowAdd(58, 5, 5); PowAdd(58, 10, 10); PowAdd(58, 20, 20); PowAdd(58, 2, 2); PowAdd(58, 40, 4);
    PowAdd(256, 4, 4); PowAdd(256, 8, 8); PowAdd(256, 16, 16);
    assert Pow(58, 10) == 430804206899405824;
    assert Pow(58, 20) == 430804206899405824 * 430804206899405824;
    assert Pow(58, 4) == 3364 * 3364;
    hide Pow;
  }

  lemma V0Value(hash: seq<u8>)
    requires |hash| == 32
    ensures var v := Value([0x12, 0x20] + hash, 256);
            Within(v, 1378, Pow(58, 44))
  {
    V0Range();
    ValueConcat([0x12, 0x20], hash, 256);
    ValueBound(hash, 256);
    assert [0x12, 0x20][..1] == [0x12] && [0x12][..0] == [];
    assert Value([], 256) == 0 && Value([0x12], 256) == 0x12 && Value([0x12, 0x20], 256) == 0x1220;
    hide Pow, Value;
  }

  lemma TwoDigits()
    ensures Canon(1378, 58) == [23, 44]
  {
  }

  /** The text of a version 0 identifier is 46 characters long and starts with "Qm". */
  lemma V0Text(m: Multihash)
    requires m.kind == SHA256 && |m.hash| == 32
    ensures var s := Base58.Encode(Buffer(m)); |s| == 46 && s[..2] == "Qm"
  {
    DecodeV0(m);
    V0Value(m.hash);
    var b, v := Buffer(m), Value(Buffer(m), 256);
    hide Pow, Value, Buffer;
    CanonHead(v, 1378, 58, 44);
    TwoDigits();
    hide Canon;
    var ds := Canon(v, 58);
    assert Base58.LeadingZeros(b) == 0;
    assert Zeros(0) + ds == ds;
    assert ds[..2] == [23, 44] && ds[0] == 23 && ds[1] == 44;
  }

  /** The text of that identifier has 59 characters and starts with the base32 prefix. */
  lemma V1Text(cid: Cid)
    requires cid.version == V1 && cid.contentType == DAG_PB && cid.address.kind == SHA256 && |cid.address.hash| == 32
    ensures ToString(cid).Ok? && |ToString(cid).value| == 59 && ToString(cid).value[0] == 'b'
  {
    V1Bytes(cid);
    var b := [0x01, 0x70, 0x12, 0x20] + cid.address.hash;
    assert |b| == 36;
    Base32Length(b);
    hide EncodeCid, Base32.Encode;
  }

  lemma Base32Length(b: seq<u8>)
    requires |b| == 36
    ensures |Base32.Encode(b, false)| == 58
  {
    hide *;
    Base32.DecodeEncode(b, false);
  }

  /** Text and identifier undo each other; only an empty digest, which the reader refuses, does not come back. */
  lemma TextRoundTrip(cid: Cid, others: OtherBases)
    requires |cid.address.hash| <= MAX_HASH_LENGTH && ToString(cid).Ok?
    ensures FromString(others, ToString(cid).value) ==
            if cid.address.hash == [] then Err(ZeroInputLength) else Ok(cid)
  {
    DecodeEncodeCid(cid);
    var b := EncodeCid(cid).value;
    match cid.version
    case V0 =>
      V0Text(cid.address);
      Base58.RoundTrip(b);
      hide Base58.Encode, DecodeCid, Buffer, MultibaseDecode;
    case V1 =>
      Base32.DecodeEncode(b, false);
      V1NotEmpty(cid);
      hide Base32.Encode, Base32.Decode, DecodeCid, Buffer, Encode;
      var t := Base32.Encode(b, false);
      assert ("b" + t)[1..] == t && ("b" + t)[0] == 'b';
      assert ("b" + t)[..2] != "Qm" by { assert ("b" + t)[..2][0] == 'b'; }
  }

  lemma V1NotEmpty(cid: Cid)
    requires |cid.address.hash| <= MAX_HASH_LENGTH && cid.version == V1
    ensures |EncodeCid(cid).value| >= 2
  {
  }
}
