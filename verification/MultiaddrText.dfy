/** Words of a multiaddress text: escapes, port numbers and the split at slashes. */
module MultiaddrText {
  import opened Common
  import opened Positional
  import Base58

  /** A `std::string`: characters are bytes. */
  type Text = seq<u8>

  const SLASH: u8 := 47
  const PERCENT: u8 := 37

  function Chars(t: Text): (s: string)
    ensures |s| == |t| && forall i :: 0 <= i < |t| ==> s[i] == t[i] as char
  {
    seq(|t|, i requires 0 <= i < |t| => t[i] as char)
  }

  function Ascii(s: string): (t: Text)
    ensures |t| == |s| && forall i :: 0 <= i < |s| ==> t[i] == if s[i] as int < 256 then s[i] as int else 63
  {
    seq(|s|, i requires 0 <= i < |s| => if s[i] as int < 256 then s[i] as int else 63)
  }

  // ---- Percent escapes ------------------------------------------------------------------

  /** Bit `c` of the source's four mask words, for a seven-bit character. */
  function MaskBit(c: u8): int {
    var word :=
      if c < 32 then 0xffffffff else if c < 64 then 0xd000802d else if c < 96 then 0 else 0xa8000001;
    PowPositive(2, c % 32);
    word / Pow(2, c % 32) % 2
  }

  predicate Escaped(c: u8) { c > 0x7f || MaskBit(c) != 0 }

  lemma EscapedSigns()
    ensures Escaped(PERCENT) && Escaped(SLASH)
  {
    assert Pow(2, 5) == 32 && Pow(2, 15) == 32768;
  }

  predicate Sign(c: u8) { c <= 32 || c >= 127 || c in [34, 35, 37, 47, 60, 62, 63, 96, 123, 125] }

  /** Powers of two below 2^32. */
  lemma Powers()
    ensures Pow(2, 0) == 0x1 && Pow(2, 1) == 0x2 && Pow(2, 2) == 0x4 && Pow(2, 3) == 0x8 && Pow(2, 4) == 0x10 && Pow(2, 5) == 0x20 && Pow(2, 6) == 0x40 && Pow(2, 7) == 0x80
    ensures Pow(2, 8) == 0x100 && Pow(2, 9) == 0x200 && Pow(2, 10) == 0x400 && Pow(2, 11) == 0x800 && Pow(2, 12) == 0x1000 && Pow(2, 13) == 0x2000 && Pow(2, 14) == 0x4000 && Pow(2, 15) == 0x8000
    ensures Pow(2, 16) == 0x10000 && Pow(2, 17) == 0x20000 && Pow(2, 18) == 0x40000 && Pow(2, 19) == 0x80000 && Pow(2, 20) == 0x100000 && Pow(2, 21) == 0x200000 && Pow(2, 22) == 0x400000 && Pow(2, 23) == 0x800000
    ensures Pow(2, 24) == 0x1000000 && Pow(2, 25) == 0x2000000 && Pow(2, 26) == 0x4000000 && Pow(2, 27) == 0x8000000 && Pow(2, 28) == 0x10000000 && Pow(2, 29) == 0x20000000 && Pow(2, 30) == 0x40000000 && Pow(2, 31) == 0x80000000
  {
    PowAdd(2, 8, 8);
    PowAdd(2, 16, 8);
  }

  /** The mask, as far as the `n` characters from `c` go. */
  predicate MaskRight(c: nat, n: nat) {
    n == 0 || (c + n <= 128 && (Escaped(c + n - 1) <==> Sign(c + n - 1)) && MaskRight(c, n - 1))
  }

  lemma {:induction false} MaskAt(c: nat, n: nat, d: u8)
    requires MaskRight(c, n) && c <= d < c + n
    ensures Escaped(d) <==> Sign(d)
  {
    hide Escaped, Sign;
    if d < c + n - 1 { MaskAt(c, n - 1, d); }
  }

  /** The characters that are escaped: controls, blank, delete, everything beyond ASCII and ten signs. */
  lemma EscapedIff(c: u8)
    ensures Escaped(c) <==> Sign(c)
  {
    if c >= 128 {
      assert Escaped(c) && Sign(c);
    } else if 64 <= c < 96 {
      NoMask(c);
    } else {
      hide *;
      if c < 32 { Controls(c); } else if c < 64 { Signs(c); } else { Braces(c); }
    }
  }

  lemma NoMask(c: u8)
    requires 64 <= c < 96
    ensures Escaped(c) <==> Sign(c)
  {
    Powers();
    hide Pow;
  }

  lemma Controls(c: u8)
    requires 0 <= c < 32
    ensures Escaped(c) <==> Sign(c)
  {
    hide *;
    if c < 8 { Mask0(); MaskAt(0, 8, c); }
    else if c < 16 { Mask8(); MaskAt(8, 8, c); }
    else if c < 24 { Mask16(); MaskAt(16, 8, c); }
    else { Mask24(); MaskAt(24, 8, c); }
  }

  lemma Signs(c: u8)
    requires 32 <= c < 64
    ensures Escaped(c) <==> Sign(c)
  {
    hide *;
    if c < 36 { Mask32(); MaskAt(32, 4, c); }
    else if c < 40 { Mask36(); MaskAt(36, 4, c); }
    else if c < 44 { Mask40(); MaskAt(40, 4, c); }
    else if c < 48 { Mask44(); MaskAt(44, 4, c); }
    else if c < 52 { Mask48(); MaskAt(48, 4, c); }
    else if c < 56 { Mask52(); MaskAt(52, 4, c); }
    else if c < 60 { Mask56(); MaskAt(56, 4, c); }
    else { Mask60(); MaskAt(60, 4, c); }
  }

  lemma Braces(c: u8)
    requires 96 <= c < 128
    ensures Escaped(c) <==> Sign(c)
  {
    hide *;
    if c < 100 { Mask96(); MaskAt(96, 4, c); }
    else if c < 104 { Mask100(); MaskAt(100, 4, c); }
    else if c < 108 { Mask104(); MaskAt(104, 4, c); }
    else if c < 112 { Mask108(); MaskAt(108, 4, c); }
    else if c < 116 { Mask112(); MaskAt(112, 4, c); }
    else if c < 120 { Mask116(); MaskAt(116, 4, c); }
    else if c < 124 { Mask120(); MaskAt(120, 4, c); }
    else { Mask124(); MaskAt(124, 4, c); }
  }

  lemma Mask0() ensures MaskRight(0, 8) { Powers(); hide Pow; }
  lemma Mask8() ensures MaskRight(8, 8) { Powers(); hide Pow; }
  lemma Mask16() ensures MaskRight(16, 8) { Powers(); hide Pow; }
  lemma Mask24() ensures MaskRight(24, 8) { Powers(); hide Pow; }

  lemma Mask32() ensures MaskRight(32, 4) { Powers(); hide Pow; }
  lemma Mask36() ensures MaskRight(36, 4) { Powers(); hide Pow; }
  lemma Mask40() ensures MaskRight(40, 4) { Powers(); hide Pow; }
  lemma Mask44() ensures MaskRight(44, 4) { Powers(); hide Pow; }
  lemma Mask48() ensures MaskRight(48, 4) { Powers(); hide Pow; }
  lemma Mask52() ensures MaskRight(52, 4) { Powers(); hide Pow; }
  lemma Mask56() ensures MaskRight(56, 4) { Powers(); hide Pow; }
  lemma Mask60() ensures MaskRight(60, 4) { Powers(); hide Pow; }

  lemma Mask96() ensures MaskRight(96, 4) { Powers(); hide Pow; }
  lemma Mask100() ensures MaskRight(100, 4) { Powers(); hide Pow; }
  lemma Mask104() ensures MaskRight(104, 4) { Powers(); hide Pow; }
  lemma Mask108() ensures MaskRight(108, 4) { Powers(); hide Pow; }
  lemma Mask112() ensures MaskRight(112, 4) { Powers(); hide Pow; }
  lemma Mask116() ensures MaskRight(116, 4) { Powers(); hide Pow; }
  lemma Mask120() ensures MaskRight(120, 4) { Powers(); hide Pow; }
  lemma Mask124() ensures MaskRight(124, 4) { Powers(); hide Pow; }

  function HexDigit(d: int): u8
    requires 0 <= d < 16
  {
    if d < 10 then 48 + d else 65 + d - 10
  }

  function HexValue(c: u8): Option<int> {
    if 48 <= c <= 57 then Some(c - 48)
    else if 65 <= c <= 70 then Some(c - 65 + 10)
    else if 97 <= c <= 102 then Some(c - 97 + 10)
    else None
  }

  /** Hexadecimal digits of either case are read, and nothing else. */
  lemma HexIff(c: u8, d: int)
    requires 0 <= d < 16
    ensures HexValue(c) == Some(d) <==> c as int == "0123456789ABCDEF"[d] as int || c as int == "0123456789abcdef"[d] as int
    ensures HexValue(c).Some? ==> 0 <= HexValue(c).value < 16
  {
    assert "0123456789ABCDEF"[..10] == "0123456789abcdef"[..10] == "0123456789";
    assert d < 10 ==> "0123456789"[d] as int == 48 + d;
    assert d >= 10 ==> "0123456789ABCDEF"[d] as int == 65 + d - 10 && "0123456789abcdef"[d] as int == 97 + d - 10;
  }

  function EscapeOne(c: u8): Text {
    if Escaped(c) then [PERCENT, HexDigit(c / 16), HexDigit(c % 16)] else [c]
  }

  function PercentEncode(t: Text): Text {
    if t == [] then [] else PercentEncode(t[..|t| - 1]) + EscapeOne(t[|t| - 1])
  }

  function PercentDecode(t: Text): Text {
    if t == [] then []
    else if t[0] == PERCENT && |t| >= 3 && HexValue(t[1]).Some? && HexValue(t[2]).Some? then
      [HexValue(t[1]).value * 16 + HexValue(t[2]).value] + PercentDecode(t[3..])
    else [t[0]] + PercentDecode(t[1..])
  }

  method PercentEncodeInto(out: Text, t: Text) returns (out': Text)
    ensures out' == out + PercentEncode(t)
  {
    out' := out;
    for i := 0 to |t|
      invariant out' == out + PercentEncode(t[..i])
    {
      assert t[..i + 1][..i] == t[..i];
      if Escaped(t[i]) {
        out' := out' + [PERCENT, HexDigit(t[i] / 16), HexDigit(t[i] % 16)];
      } else {
        out' := out' + [t[i]];
      }
    }
    assert t[..|t|] == t;
  }

  method PercentDecodeAll(t: Text) returns (out: Text)
    ensures out == PercentDecode(t)
  {
    out := [];
    var str := t;
    while str != []
      invariant PercentDecode(t) == out + PercentDecode(str)
      decreases |str|
    {
      ghost var before := str;
      var c, skip := str[0], 1;
      if str[0] == PERCENT && |str| >= 3 {
        var x1, x2 := HexValue(str[1]), HexValue(str[2]);
        if x1.Some? && x2.Some? {
          c, skip := x1.value * 16 + x2.value, 3;
        }
      }
      str := str[skip..];
      assert PercentDecode(before) == [c] + PercentDecode(str);
      hide PercentDecode;
      Regroup(out, [c], PercentDecode(str));
      out := out + [c];
    }
  }

  lemma UndoOne(c: u8, e: Text)
    ensures PercentDecode(EscapeOne(c) + e) == [c] + PercentDecode(e)
  {
    EscapedSigns();
    hide Escaped;
    var t := EscapeOne(c) + e;
    if Escaped(c) {
      HexUndone(c / 16);
      HexUndone(c % 16);
      assert t[0] == PERCENT && t[1] == HexDigit(c / 16) && t[2] == HexDigit(c % 16) && t[3..] == e;
      hide HexDigit, HexValue;
    } else {
      assert t[0] == c != PERCENT && t[1..] == e;
    }
  }

  lemma HexUndone(d: int)
    requires 0 <= d < 16
    ensures HexValue(HexDigit(d)) == Some(d)
  {
  }

  /** Escaping loses nothing. */
  lemma {:induction false} EscapesUndone(t: Text)
    ensures PercentDecode(PercentEncode(t)) == t
  {
    FrontEncode(t);
    if t != [] {
      hide PercentEncode, PercentDecode, EscapeOne;
      EscapesUndone(t[1..]);
      UndoOne(t[0], PercentEncode(t[1..]));
    }
  }

  lemma {:induction false} FrontEncode(t: Text)
    ensures t == [] ==> PercentEncode(t) == []
    ensures t != [] ==> PercentEncode(t) == EscapeOne(t[0]) + PercentEncode(t[1..])
  {
    if |t| > 1 {
      var init := t[..|t| - 1];
      FrontEncode(init);
      assert init[1..] == t[1..][..|t| - 2];
      hide EscapeOne;
    }
  }

  /** The text of an escaped name has no slash and is as little empty as the name. */
  lemma {:induction false} EscapedWord(t: Text)
    ensures SLASH !in PercentEncode(t) && (t != [] ==> PercentEncode(t) != [])
  {
    if t != [] {
      EscapedWord(t[..|t| - 1]);
      EscapedSigns();
      hide Escaped;
      assert SLASH !in EscapeOne(t[|t| - 1]);
    }
  }

  /** Text without a percent sign stays, and escapes of either case are read wherever they stand. */
  lemma {:induction false} DecodesPlain(t: Text, u: Text)
    requires PERCENT !in t
    ensures PercentDecode(t + u) == t + PercentDecode(u)
  {
    if t == [] {
      assert t + u == u;
    } else {
      assert (t + u)[1..] == t[1..] + u;
      DecodesPlain(t[1..], u);
      hide PercentDecode;
      assert [t[0]] + (t[1..] + PercentDecode(u)) == t + PercentDecode(u);
    }
  }

  lemma DecodesEscape(x: u8, y: u8, u: Text)
    ensures HexValue(x).Some? && HexValue(y).Some? ==>
              PercentDecode([PERCENT, x, y] + u) == [HexValue(x).value * 16 + HexValue(y).value] + PercentDecode(u)
    ensures HexValue(x).None? || HexValue(y).None? ==> PercentDecode([PERCENT, x, y] + u) == [PERCENT] + PercentDecode([x, y] + u)
    ensures PercentDecode([PERCENT]) == [PERCENT] && PercentDecode([PERCENT, x]) == [PERCENT] + PercentDecode([x])
  {
    var t := [PERCENT, x, y] + u;
    assert t[3..] == u && t[1..] == [x, y] + u;
    assert [PERCENT, x][1..] == [x] && [PERCENT][1..] == [];
    hide HexValue;
  }

  // ---- Port numbers -------------------------------------------------------------------------

  function Decimal(n: nat): Text {
    var ds := Canon(n, 10);
    if n == 0 then [48] else seq(|ds|, i requires 0 <= i < |ds| => 48 + ds[i])
  }

  predicate IsNumber(t: Text) { t != [] && forall i :: 0 <= i < |t| ==> 48 <= t[i] <= 57 }

  function DigitValues(t: Text): (ds: seq<int>)
    ensures |ds| == |t| && forall i :: 0 <= i < |t| ==> ds[i] == t[i] as int - 48
  {
    seq(|t|, i requires 0 <= i < |t| => t[i] as int - 48)
  }

  /** Digits only, a value that fits 16 bits, big-endian. */
  function PortBytes(t: Text): Option<seq<u8>> {
    if !IsNumber(t) then None
    else
      var v := Value(DigitValues(t), 10);
      if 0 <= v <= 65535 then Some([v / 256, v % 256]) else None
  }

  /** What `stoi` reads; the source has tested the digits before. */
  method Number(t: Text) returns (v: int)
    requires IsNumber(t)
    ensures v == Value(DigitValues(t), 10)
  {
    ghost var ds := DigitValues(t);
    v := 0;
    for i := 0 to |t|
      invariant v == Value(ds[..i], 10)
    {
      assert ds[..i + 1][..i] == ds[..i];
      v := v * 10 + (t[i] as int - 48);
    }
    assert ds[..|t|] == ds;
  }

  lemma PortRoundTrip(hi: u8, lo: u8)
    ensures var t := Decimal(hi * 256 + lo);
            IsNumber(t) && SLASH !in t && PortBytes(t) == Some([hi, lo])
  {
    var n := hi * 256 + lo;
    hide Canon, Value;
    DecimalValue(n);
    assert n / 256 == hi && n % 256 == lo;
  }

  lemma DecimalValue(n: nat)
    ensures IsNumber(Decimal(n)) && Value(DigitValues(Decimal(n)), 10) == n
  {
    CanonValue(n, 10);
    if n == 0 {
      assert DigitValues([48]) == [0];
      assert Value([0], 10) == 0 by { assert [0][..0] == []; assert Value([], 10) == 0; }
    } else {
      hide Value;
      assert DigitValues(Decimal(n)) == Canon(n, 10);
    }
  }

  /** The decimal numeral of `n`, with any number of zeros before it. */
  ghost predicate Numeral(t: Text, n: nat) {
    exists z: nat :: t == Naughts(z) + Decimal(n)
  }

  function Naughts(z: nat): (t: Text)
    ensures |t| == z && forall i :: 0 <= i < z ==> t[i] == 48
  {
    seq(z, _ => 48)
  }

  /** A port is read from exactly the numerals of the numbers below 65536, as their two bytes. */
  lemma PortIff(t: Text, hi: u8, lo: u8)
    ensures PortBytes(t).Some? ==> |PortBytes(t).value| == 2
    ensures PortBytes(t) == Some([hi, lo]) <==> Numeral(t, hi * 256 + lo)
  {
    PortIs(t, hi, lo);
    hide PortBytes, Value, IsNumber, Numeral;
    if IsNumber(t) {
      NumberIsNumeral(t);
    }
    if Numeral(t, hi * 256 + lo) {
      NumeralNumber(t, hi * 256 + lo);
    }
  }

  lemma PortIs(t: Text, hi: u8, lo: u8)
    ensures PortBytes(t).Some? ==> |PortBytes(t).value| == 2
    ensures PortBytes(t) == Some([hi, lo]) <==> IsNumber(t) && Value(DigitValues(t), 10) == hi * 256 + lo
  {
    hide IsNumber;
    if IsNumber(t) {
      var v := Value(DigitValues(t), 10);
      hide Value;
      TwoBytes(v, hi, lo);
      assert [v / 256, v % 256] == [hi, lo] <==> v / 256 == hi && v % 256 == lo;
    }
  }

  lemma TwoBytes(v: int, hi: u8, lo: u8)
    ensures v == hi * 256 + lo <==> 0 <= v <= 65535 && v / 256 == hi && v % 256 == lo
  {
  }

  lemma NumeralNumber(t: Text, n: nat)
    requires Numeral(t, n)
    ensures IsNumber(t) && Value(DigitValues(t), 10) == n
  {
    hide Value, Decimal, IsNumber;
    var z: nat :| t == Naughts(z) + Decimal(n);
    NumeralValue(z, n);
  }

  lemma NumeralValue(z: nat, n: nat)
    ensures var t := Naughts(z) + Decimal(n); IsNumber(t) && Value(DigitValues(t), 10) == n
  {
    DecimalValue(n);
    hide Value, Decimal;
    ValueLeading(z, DigitValues(Decimal(n)), 10);
    assert DigitValues(Naughts(z) + Decimal(n)) == Zeros(z) + DigitValues(Decimal(n));
  }

  lemma NumberIsNumeral(t: Text)
    requires IsNumber(t)
    ensures Value(DigitValues(t), 10) >= 0 && Numeral(t, Value(DigitValues(t), 10))
  {
    var ds := DigitValues(t);
    Base58.SplitZeros(ds, 10);
    var z, v := Base58.LeadingZeros(ds), Value(ds, 10);
    hide Value, Canon, Base58.LeadingZeros;
    if v == 0 {
      assert Canon(v, 10) == [];
      assert ds == Zeros(z);
      AllZeros(t, z);
      assert t == Naughts(z - 1) + Decimal(0);
    } else {
      assert Canon(v, 10) != [];
      NotAllZeros(t, z, v);
      assert t == Naughts(z) + Decimal(v);
    }
  }

  lemma AllZeros(t: Text, z: nat)
    requires IsNumber(t) && DigitValues(t) == Zeros(z)
    ensures z > 0 && t == Naughts(z - 1) + Decimal(0)
  {
    hide Canon;
    var u := Naughts(z - 1) + [48];
    forall i | 0 <= i < |t| ensures t[i] == u[i] {
      assert DigitValues(t)[i] == 0;
    }
  }

  lemma NotAllZeros(t: Text, z: nat, v: nat)
    requires v > 0 && DigitValues(t) == Zeros(z) + Canon(v, 10)
    ensures t == Naughts(z) + Decimal(v)
  {
    hide Canon;
    var u, ds := Naughts(z) + Decimal(v), DigitValues(t);
    forall i | 0 <= i < |t| ensures t[i] == u[i] {
      assert ds[i] == (Zeros(z) + Canon(v, 10))[i];
    }
  }

  // ---- Base58 words ---------------------------------------------------------------------------

  lemma PeerWord(data: seq<u8>)
    ensures var t := Ascii(Base58.Encode(data));
            Base58.DecodeBytes(Chars(t)) == Some(data) && SLASH !in t && (data != [] ==> t != [])
  {
    var s := Base58.Encode(data);
    Base58.DecodeEncode(data);
    Base58.RoundTrip(data);
    hide Base58.Encode, Base58.DecodeBytes, Base58.DecodeDigits;
    forall i | 0 <= i < |s| ensures s[i] as int < 128 && s[i] as int != 47 {
      assert Base58.Index(s[i]) >= 0;
    }
    assert Chars(Ascii(s)) == s;
    if data != [] && s == [] { EmptyDecodesEmpty(); }
  }

  lemma EmptyDecodesEmpty()
    ensures Base58.DecodeBytes([]) == Some([])
  {
    Base58.RoundTrip([]);
    assert Base58.Encode([]) == [] by { assert Value([], 256) == 0; }
  }

  lemma {:induction false} CanonLength(v: int, b: int, k: nat)
    requires b >= 2 && 0 <= v < Pow(b, k)
    ensures |Canon(v, b)| <= k
    decreases k
  {
    if v > 0 {
      DivShrinks(v, b);
      assert k > 0;
      assert v / b < Pow(b, k - 1) by {
        if v / b >= Pow(b, k - 1) { MulUp(b, Pow(b, k - 1), v / b); }
      }
      CanonLength(v / b, b, k - 1);
    }
  }

  lemma {:induction false} PowBases(a: int, b: int, k: nat)
    requires 0 <= a <= b
    ensures 0 <= Pow(a, k) <= Pow(b, k)
  {
    if k > 0 {
      PowBases(a, b, k - 1);
      MulUp(a, Pow(a, k - 1), Pow(b, k - 1));
      MulUp(Pow(b, k - 1), a, b);
      MulUp(a, 0, Pow(a, k - 1));
    }
  }

  /** Base58 text is never shorter than its bytes. */
  lemma ShorterBytes(s: string)
    ensures Base58.DecodeBytes(s).Some? ==> |Base58.DecodeBytes(s).value| <= |s|
  {
    if Base58.DecodeBytes(s).Some? {
      var t := s[..Base58.StrLen(s)];
      var u := t[Base58.SpaceRun(t)..];
      ShorterDigits(u[..Base58.WordRun(u)]);
      hide Base58.DecodeDigits, Base58.StrLen, Base58.SpaceRun, Base58.WordRun, Base58.InAlphabet;
    }
  }

  lemma ShorterDigits(w: string)
    requires Base58.InAlphabet(w)
    ensures |Base58.DecodeDigits(w)| <= |w|
  {
    var ds := Base58.Indices(w);
    var z := Base58.LeadingZeros(ds);
    Base58.ValueIndices(w);
    assert ds == Zeros(z) + ds[z..];
    ValueLeading(z, ds[z..], 58);
    ValueBound(ds[z..], 58);
    PowBases(58, 256, |ds| - z);
    CanonLength(Value(ds, 58), 256, |ds| - z);
    hide Pow, Value, Canon;
  }

  lemma {:induction false} DecodedShorter(t: Text)
    ensures |PercentDecode(t)| <= |t|
    decreases |t|
  {
    if t != [] {
      if |t| >= 3 { DecodedShorter(t[3..]); }
      DecodedShorter(t[1..]);
    }
  }

  // ---- Splitting at slashes ---------------------------------------------------------------------

  /** `boost::algorithm::split` at every slash; the empty text has one empty word. */
  function Split(t: Text): (words: seq<Text>)
    ensures words != []
  {
    if t == [] then [[]]
    else
      var rest := Split(t[1..]);
      if t[0] == SLASH then [[]] + rest else [[t[0]] + rest[0]] + rest[1..]
  }

  lemma {:induction false} SplitShorter(t: Text)
    ensures forall i :: 0 <= i < |Split(t)| ==> |Split(t)[i]| <= |t|
  {
    if t != [] { SplitShorter(t[1..]); }
  }

  /** Every word preceded by a slash. */
  function Join(words: seq<Text>): Text {
    if words == [] then [] else [SLASH] + words[0] + Join(words[1..])
  }

  lemma {:induction false} SplitWord(w: Text, rest: Text)
    requires SLASH !in w && (rest == [] || rest[0] == SLASH)
    ensures Split(w + rest) == [w] + if rest == [] then [] else Split(rest[1..])
  {
    var t := w + rest;
    if w == [] {
      assert t == rest;
    } else {
      assert t[1..] == w[1..] + rest;
      SplitWord(w[1..], rest);
      assert [w[0]] + w[1..] == w;
    }
  }

  /** Words without slashes come apart as they were put together. */
  lemma {:induction false} SplitJoin(words: seq<Text>)
    requires words != [] && forall i :: 0 <= i < |words| ==> SLASH !in words[i]
    ensures Join(words) != [] && Join(words)[0] == SLASH && Split(Join(words)[1..]) == words
  {
    var w, more := words[0], words[1..];
    JoinFirst(words);
    assert words == [w] + more && SLASH !in w;
    assert forall i :: 0 <= i < |more| ==> more[i] == words[i + 1];
    hide *;
    if more != [] {
      SplitJoin(more);
    }
    SplitWord(w, Join(more));
  }

  lemma {:induction false} JoinFirst(words: seq<Text>)
    requires words != []
    ensures Join(words) != [] && Join(words)[0] == SLASH && Join(words)[1..] == words[0] + Join(words[1..])
    ensures words[1..] == [] ==> Join(words[1..]) == []
  {
    var rest := Join(words[1..]);
    assert Join(words) == [SLASH] + words[0] + rest;
    hide Join;
    assert ([SLASH] + words[0] + rest)[1..] == words[0] + rest;
  }

  lemma {:induction false} JoinConcat(a: seq<Text>, b: seq<Text>)
    ensures Join(a + b) == Join(a) + Join(b)
  {
    if a == [] {
      assert a + b == b;
    } else {
      assert (a + b)[1..] == a[1..] + b;
      JoinConcat(a[1..], b);
    }
  }

  /** A text that ends in a word does not end in a slash. */
  lemma {:induction false} JoinLast(words: seq<Text>)
    requires words != [] && forall i :: 0 <= i < |words| ==> SLASH !in words[i] && words[i] != []
    ensures |Join(words)| > 1 && Join(words)[|Join(words)| - 1] != SLASH
  {
    if |words| > 1 {
      JoinLast(words[1..]);
    } else {
      var w := words[0];
      assert Join(words) == [SLASH] + w + [];
      assert w[|w| - 1] in w;
    }
  }
}
