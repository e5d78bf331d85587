/**
 Unsigned LEB128 integers: the encoder loops, the two decoders (`UVarint` over a
 whole buffer and `VarintPrefixReader` byte by byte), and one meaning for all.
 */
module Varint {
  import opened Common
  import opened Positional

  const WORD := 0x1_0000_0000_0000_0000

  /** `uint64_t`. */
  type u64 = x: int | 0 <= x < 0x1_0000_0000_0000_0000

  // ---- Meaning --------------------------------------------------------------

  predicate More(byte: u8) { byte >= 128 }

  /** Seven bits from each byte, least significant group first. */
  function Leb(b: seq<u8>): nat {
    if b == [] then 0
    else
      PowPositive(128, |b| - 1);
      MulUp(Pow(128, |b| - 1), 0, b[|b| - 1] % 128);
      Leb(b[..|b| - 1]) + b[|b| - 1] % 128 * Pow(128, |b| - 1)
  }

  predicate Continues(b: seq<u8>) {
    forall i :: 0 <= i < |b| ==> More(b[i])
  }

  /** A whole varint: only the last byte ends it, and it fits a 64-bit word. */
  predicate IsVarint(b: seq<u8>) {
    b != [] && Continues(b[..|b| - 1]) && !More(b[|b| - 1]) && |b| <= 10 && Leb(b) < WORD
  }

  lemma PowNine()
    ensures Pow(128, 9) == 0x8000_0000_0000_0000
  {
  }

  lemma LebSnoc(b: seq<u8>, x: u8)
    ensures Leb(b + [x]) == Leb(b) + x % 128 * Pow(128, |b|)
  {
  }

  lemma {:induction false} LebCons(x: u8, b: seq<u8>)
    ensures Leb([x] + b) == x % 128 + 128 * Leb(b)
  {
    if b == [] {
      assert [x] + b == [] + [x];
      LebSnoc([], x);
    } else {
      var init, y := b[..|b| - 1], b[|b| - 1];
      assert [x] + b == ([x] + init) + [y];
      LebCons(x, init);
      LebSnoc([x] + init, y);
      Assoc(128, y % 128, Pow(128, |init|));
      Assoc(y % 128, 128, Pow(128, |init|));
    }
  }

  lemma {:induction false} LebBound(b: seq<u8>)
    ensures Leb(b) < Pow(128, |b|)
  {
    if b != [] {
      LebBound(b[..|b| - 1]);
      MulUp(Pow(128, |b| - 1), b[|b| - 1] % 128, 127);
    }
  }

  /** Up to nine bytes always fit; the tenth may only carry one bit. */
  lemma Fits(b: seq<u8>, x: u8)
    requires |b| <= 9
    ensures Leb(b + [x]) < WORD <==> |b| < 9 || x % 128 <= 1
  {
    if |b| < 9 {
      assert |b + [x]| <= 9;
      PowNine();
      hide Pow, Leb;
      NineFit(b + [x]);
    } else {
      hide *;
      TenthFits(b, x);
    }
  }

  lemma TenthFits(b: seq<u8>, x: u8)
    requires |b| == 9
    ensures Leb(b + [x]) < WORD <==> x % 128 <= 1
  {
    PowNine();
    hide Pow, Leb;
    LebSnoc(b, x);
    NineFit(b);
    TopDigit(Leb(b), x % 128, Pow(128, |b|));
  }

  lemma NineFit(b: seq<u8>)
    requires |b| <= 9
    ensures 0 <= Leb(b) < Pow(128, 9)
  {
    hide *;
    LebBound(b);
    PowMonotone(128, |b|, 9);
  }

  lemma TopDigit(low: int, d: int, p: int)
    requires 0 <= low < p && 0 <= d
    ensures low + d * p < 2 * p <==> d <= 1
  {
    if d >= 2 { MulUp(p, 2, d); }
  }

  // ---- Encoding -------------------------------------------------------------

  function Encode(n: nat): (b: seq<u8>)
    ensures b != []
  {
    if n < 128 then [n] else [n % 128 + 128] + Encode(n / 128)
  }

  /** Encoding keeps the value and uses as few bytes as the value allows. */
  lemma {:induction false} EncodeMeaning(n: nat)
    ensures Leb(Encode(n)) == n
    ensures Continues(Encode(n)[..|Encode(n)| - 1]) && !More(Encode(n)[|Encode(n)| - 1])
    ensures |Encode(n)| > 1 || n > 0 ==> Encode(n)[|Encode(n)| - 1] != 0
  {
    if n < 128 {
      assert [] + [n] == [n];
      LebSnoc([], n);
    } else {
      EncodeMeaning(n / 128);
      EncodeMore(n);
      hide *;
      LebCons(n % 128 + 128, Encode(n / 128));
      MoreInFront(n % 128 + 128, Encode(n / 128));
    }
  }

  lemma EncodeMore(n: nat)
    requires n >= 128
    ensures var x := n % 128 + 128;
            Encode(n) == [x] + Encode(n / 128) && More(x) && x % 128 + 128 * (n / 128) == n && n / 128 > 0
  {
  }

  lemma MoreInFront(x: u8, rest: seq<u8>)
    requires More(x) && rest != [] && Continues(rest[..|rest| - 1])
    ensures var b := [x] + rest;
            Continues(b[..|b| - 1]) && b[|b| - 1] == rest[|rest| - 1]
  {
    var b := [x] + rest;
    assert b[..|b| - 1] == [x] + rest[..|rest| - 1];
  }

  lemma {:induction false} EncodeLength(n: nat, k: nat)
    requires k >= 1
    ensures |Encode(n)| <= k <==> n < Pow(128, k)
  {
    if n < 128 {
      PowMonotone(128, 1, k);
      assert Pow(128, 1) == 128;
    } else if k == 1 {
      assert Pow(128, 1) == 128;
    } else {
      EncodeLength(n / 128, k - 1);
      DivBelow(n, Pow(128, k - 1));
    }
  }

  lemma DivBelow(n: nat, p: int)
    ensures n / 128 < p <==> n < 128 * p
  {
  }

  /** What any of the encoders writes is a varint of at most ten bytes for the number it was given. */
  lemma EncodeIsVarint(n: u64)
    ensures IsVarint(Encode(n)) && Leb(Encode(n)) == n
  {
    EncodeMeaning(n);
    EncodeLength(n, 10);
    PowNine();
    assert Pow(128, 10) == 128 * Pow(128, 9);
    hide Pow;
  }

  /** A varint is what the encoder writes for its value unless it ends in a superfluous zero byte. */
  lemma CanonicalIff(b: seq<u8>)
    requires IsVarint(b)
    ensures Encode(Leb(b)) == b <==> |b| == 1 || b[|b| - 1] != 0
  {
    if |b| == 1 || b[|b| - 1] != 0 {
      Shortest(b);
    } else {
      EncodeMeaning(Leb(b));
    }
  }

  lemma {:induction false} Shortest(b: seq<u8>)
    requires b != [] && Continues(b[..|b| - 1]) && !More(b[|b| - 1])
    requires |b| == 1 || b[|b| - 1] != 0
    ensures Encode(Leb(b)) == b && (|b| > 1 || b[0] > 0 ==> Leb(b) > 0)
  {
    var x, rest := b[0], b[1..];
    assert b == [x] + rest;
    LebCons(x, rest);
    if rest != [] {
      assert forall i :: 0 <= i < |rest| ==> rest[i] == b[i + 1];
      assert More(b[..|b| - 1][0]);
      assert Continues(rest[..|rest| - 1]) by {
        assert forall i {:trigger rest[i]} :: 0 <= i < |rest| - 1 ==> rest[i] == b[..|b| - 1][i + 1];
      }
      Shortest(rest);
      assert Leb(rest) > 0;
      hide Leb;
      assert x % 128 + 128 == x && (x % 128 + 128 * Leb(rest)) / 128 == Leb(rest);
    }
  }

  /** The examples of the unsigned varint specification. */
  lemma KnownVarints()
    ensures Encode(1) == [0x01] && Encode(127) == [0x7f] && Encode(128) == [0x80, 0x01]
    ensures Encode(255) == [0xff, 0x01] && Encode(300) == [0xac, 0x02] && Encode(16384) == [0x80, 0x80, 0x01]
  {
  }

  /** `appendVarint`, and the constructor of `UVarint` with an empty buffer. */
  method AppendVarint(buffer: seq<u8>, number: nat) returns (out: seq<u8>)
    ensures out == buffer + Encode(number)
  {
    out := buffer;
    var n := number;
    var again := true;
    while again
      invariant buffer + Encode(number) == out + (if again then Encode(n) else [])
      decreases again, n
    {
      EncodeGroup(out, n);
      var byte: u8 := n % 128;
      n := n / 128;
      if n != 0 { byte := byte + 128; }
      out := out + [byte];
      again := n != 0;
    }
  }

  /** The bytes still to come while `n` is left. */
  function Rest(n: nat): seq<u8> { if n == 0 then [] else Encode(n) }

  function Group(n: nat): u8 { if n / 128 != 0 then n % 128 + 128 else n % 128 }

  /** Seven bits moved from the number to the output. */
  lemma EncodeGroup(done: seq<u8>, n: nat)
    ensures done + Encode(n) == (done + [Group(n)]) + Rest(n / 128)
  {
  }

  /** `EncodeVarint`: the same bytes in an array of ten, which they never outgrow. */
  method EncodeVarint(value: u64) returns (buffer: array<u8>, size: nat)
    ensures fresh(buffer) && buffer.Length == 10 && size <= 10 && buffer[..size] == Encode(value)
  {
    hide *;
    buffer := new u8[10](_ => 0);
    EmitStart(value);
    var n: u64 := value;
    size := 0;
    var again := true;
    assert buffer[..0] == [];
    while again
      invariant size <= 10 && Emitting(value, buffer[..size], n, again)
      decreases again, n
    {
      EmitGroup(value, buffer[..size], n);
      var byte: u8 := n % 128;
      n := n / 128;
      if n != 0 { byte := byte + 128; }
      Store(buffer, size, byte);
      size := size + 1;
      again := n != 0;
    }
    Emitted(value, buffer[..size], n);
  }

  /** What is written, and then the bytes of what is left, are the encoding. */
  ghost predicate Emitting(value: nat, out: seq<u8>, n: nat, again: bool) {
    Encode(value) == out + if again then Encode(n) else []
  }

  lemma EmitStart(value: u64)
    ensures |Encode(value)| <= 10 && Emitting(value, [], value, true)
  {
    EncodeIsVarint(value);
    hide Encode, Leb;
  }

  lemma EmitGroup(value: nat, out: seq<u8>, n: nat)
    requires Emitting(value, out, n, true)
    ensures |out| < |Encode(value)|
    ensures Emitting(value, out + [if n / 128 != 0 then n % 128 + 128 else n % 128], n / 128, n / 128 != 0)
  {
    EncodeGroup(out, n);
    hide Encode;
  }

  lemma Emitted(value: nat, out: seq<u8>, n: nat)
    requires Emitting(value, out, n, false)
    ensures out == Encode(value)
  {
  }

  method Store(buffer: array<u8>, i: nat, byte: u8)
    requires i < buffer.Length
    modifies buffer
    ensures buffer[..i + 1] == old(buffer[..i]) + [byte]
  {
    buffer[i] := byte;
  }

  // ---- Decoding a buffer: UVarint ---------------------------------------------

  /** The number of bytes up to the first that ends a varint; zero when none does. */
  function FirstEnd(b: seq<u8>): (k: nat)
    ensures k <= |b| && (k > 0 ==> !More(b[k - 1]) && Continues(b[..k - 1])) && (k == 0 ==> Continues(b))
  {
    if b == [] then 0
    else if !More(b[0]) then 1
    else
      var k := FirstEnd(b[1..]);
      assert forall i :: 1 <= i < |b| ==> b[i] == b[1..][i - 1];
      if k == 0 then 0
      else
        assert forall i :: 1 <= i < k ==> b[i] == b[1..][..k - 1][i - 1];
        k + 1
  }

  /** The size of the varint a buffer starts with, zero when it starts with none. */
  function SizeOf(b: seq<u8>): nat {
    var k := FirstEnd(b);
    if k <= 10 && Leb(b[..k]) < WORD then k else 0
  }

  lemma SizeOfIff(b: seq<u8>, k: nat)
    requires 0 < k <= |b|
    ensures SizeOf(b) == k <==> IsVarint(b[..k])
  {
    var e := FirstEnd(b);
    if e > 0 {
      assert b[..e][..e - 1] == b[..e - 1];
    }
    if IsVarint(b[..k]) {
      EndsHere(b, k);
    }
  }

  lemma EndsHere(b: seq<u8>, k: nat)
    requires 0 < k <= |b| && Continues(b[..k][..k - 1]) && !More(b[k - 1])
    ensures FirstEnd(b) == k
  {
    var e := FirstEnd(b);
    assert forall i :: 0 <= i < k - 1 ==> b[..k][..k - 1][i] == b[i];
    assert e > 0 ==> forall i :: 0 <= i < e - 1 ==> b[..e - 1][i] == b[i];
  }

  /** Shifts of a 64-bit word by fewer than 64 places. */
  function ShiftLeft(x: u64, places: nat): u64 { x * Pow(2, places) % WORD }

  function ShiftRight(x: u64, places: nat): int
    requires Pow(2, places) > 0
  {
    x / Pow(2, places)
  }

  lemma {:induction false} SevenBits(i: nat)
    ensures Pow(2, 7 * i) == Pow(128, i)
  {
    if i > 0 {
      SevenBits(i - 1);
      PowAdd(2, 7, 7 * (i - 1));
      assert Pow(2, 7) == 128;
    }
  }

  lemma SmallPowers(i: nat)
    requires i <= 8
    ensures 0 < Pow(128, i) <= 0x100_0000_0000_0000
  {
    PowPositive(128, i);
    PowMonotone(128, i, 8);
    assert Pow(128, 9) == 128 * Pow(128, 8);
    PowNine();
    hide Pow;
  }

  /** Shifting left and back loses nothing exactly when the byte fits there. */
  lemma ShiftTest(slice: u64, i: nat)
    requires slice < 128 && i <= 9
    ensures Pow(2, 7 * i) > 0
    ensures ShiftRight(ShiftLeft(slice, 7 * i), 7 * i) == slice <==> i < 9 || slice <= 1
    ensures i < 9 || slice <= 1 ==> ShiftLeft(slice, 7 * i) == slice * Pow(128, i)
  {
    SevenBits(i);
    if i < 9 {
      SmallPowers(i);
      hide Pow;
      RoundTripBelow(slice, Pow(128, i));
    } else {
      PowNine();
      hide Pow;
      TopBit(slice);
    }
  }

  lemma RoundTripBelow(slice: u64, p: int)
    requires slice < 128 && 0 < p <= 0x100_0000_0000_0000
    ensures slice * p % WORD == slice * p && slice * p / p == slice
  {
    MulUp(p, slice, 127);
    MulUp(p, 0, slice);
    DivMod(slice, 0, p);
  }

  lemma TopBit(slice: u64)
    requires slice < 128
    ensures slice * 0x8000_0000_0000_0000 % WORD == slice % 2 * 0x8000_0000_0000_0000
  {
  }

  method CalculateSize(b: seq<u8>) returns (size: nat)
    ensures size == SizeOf(b)
  {
    size := 0;
    var shift := 0;
    var found := false;
    var i := 0;
    while i < |b|
      invariant i <= |b| && size == i && shift == 7 * i && i <= 10 && Continues(b[..i]) && !found
    {
      size := size + 1;
      var slice: u64 := b[i] % 128;
      if shift < 64 {
        ShiftTest(slice, i);
        Fits(b[..i], b[i]);
      }
      hide Leb;
      if shift >= 64 || ShiftRight(ShiftLeft(slice, shift), shift) != slice {
        size := 0;
        TooLong(b, i);
        break;
      }
      assert b[..i + 1] == b[..i] + [b[i]];
      if !More(b[i]) {
        found := true;
        assert b[..i + 1][..i] == b[..i];
        SizeOfIff(b, i + 1);
        break;
      }
      shift := shift + 7;
      i := i + 1;
    }
    if !found {
      if i == |b| { assert b[..i] == b; Endless(b); }
      size := 0;
    }
  }

  lemma Endless(b: seq<u8>)
    requires Continues(b)
    ensures SizeOf(b) == 0
  {
  }

  /** Ten bytes that continue, or a tenth that does not fit, cannot start a varint. */
  lemma TooLong(b: seq<u8>, i: nat)
    requires i < |b| && Continues(b[..i]) && (i >= 10 || (i == 9 && Leb(b[..i] + [b[i]]) >= WORD))
    ensures SizeOf(b) == 0
  {
    var e := FirstEnd(b);
    assert forall j :: 0 <= j < i ==> b[..i][j] == b[j];
    if e == 10 {
      assert b[..10] == b[..9] + [b[9]];
    }
  }

  /**
   The loop of `toUInt64`. The bytes are those of a `UVarint`: a varint, or none for an
   invalid input; at most ten in any case, so every shift stays below 64.
   */
  method ToUInt64(b: seq<u8>) returns (res: u64)
    requires |b| <= 10
    ensures res == Leb(b) % WORD && (IsVarint(b) ==> res == Leb(b))
  {
    res := 0;
    var index := 0;
    var i := 0;
    while i < |b|
      invariant i <= |b| && index == 7 * i && res == Leb(b[..i]) % WORD
    {
      AddGroup(b, i);
      hide *;
      var slice: u64 := b[i] % 128;
      res := (res + ShiftLeft(slice, index)) % WORD;
      index := index + 7;
      i := i + 1;
    }
    assert b[..i] == b;
  }

  lemma AddGroup(b: seq<u8>, i: nat)
    requires i < |b|
    ensures (Leb(b[..i]) % WORD + ShiftLeft(b[i] % 128, 7 * i)) % WORD == Leb(b[..i + 1]) % WORD
  {
    assert b[..i + 1] == b[..i] + [b[i]];
    LebSnoc(b[..i], b[i]);
    SevenBits(i);
    hide Leb, Pow;
    AddModulo(Leb(b[..i]), b[i] % 128 * Pow(128, i));
  }

  lemma AddModulo(x: int, y: int)
    ensures (x % WORD + y % WORD) % WORD == (x + y) % WORD
  {
  }

  // ---- Decoding byte by byte: VarintPrefixReader ------------------------------

  datatype State = Underflow | Ready | Overflow | Error

  /** The fields of a reader. */
  datatype Reader = Reader(value: u64, state: State, got: nat)

  /** What the reader holds after a run of bytes; once it has left underflow nothing changes it. */
  function Meaning(b: seq<u8>): Reader
    decreases |b|
  {
    if Continues(b) && |b| <= 9 then Fits9(b); Reader(Leb(b), Underflow, |b|)
    else if IsVarint(b) then Reader(Leb(b), Ready, |b|)
    else if |b| == 10 && Continues(b[..9]) then Fits9(b[..9]); Reader(Leb(b[..9]), Overflow, 10)
    else Meaning(b[..|b| - 1])
  }

  lemma Fits9(b: seq<u8>)
    requires |b| <= 9
    ensures Leb(b) < WORD
  {
    if b != [] {
      assert b == b[..|b| - 1] + [b[|b| - 1]];
      Fits(b[..|b| - 1], b[|b| - 1]);
    }
  }

  /** A reader in underflow has only seen bytes that continue, nine at most. */
  lemma {:induction false} StillUnderflow(b: seq<u8>)
    ensures Meaning(b).state == Underflow <==> Continues(b) && |b| <= 9
    ensures Meaning(b).state != Error
  {
    if !(Continues(b) && |b| <= 9) && !IsVarint(b) && !(|b| == 10 && Continues(b[..9])) {
      var init, x := b[..|b| - 1], b[|b| - 1];
      assert b == init + [x];
      StillUnderflow(init);
      assert |b| == 10 ==> init == b[..9];
      if Continues(init) && |init| <= 9 {
        Fits(init, x);
        assert false;
      }
    }
  }

  /** What one more byte does. */
  lemma NextMeaning(b: seq<u8>, byte: u8)
    ensures var r, r', slice := Meaning(b), Meaning(b + [byte]), byte % 128;
            if r.state != Underflow then r' == r
            else
              && r.got <= 9
              && if r.got == 9 && (slice > 1 || More(byte)) then r' == Reader(r.value, Overflow, 10)
                 else r'.got == r.got + 1 && r'.value == r.value + slice * Pow(128, r.got)
                      && r'.state == if More(byte) then Underflow else Ready
  {
    var c := b + [byte];
    assert c[..|b|] == b;
    StillUnderflow(b);
    StillUnderflow(c);
    LebSnoc(b, byte);
    if Meaning(b).state == Underflow {
      Fits(b, byte);
      assert |b| == 9 ==> c[..9] == b;
      hide Leb;
    } else {
      assert !Continues(c) || |c| > 9;
      assert |c| == 10 ==> c[..9] == b;
      hide Leb;
    }
  }

  lemma {:induction false} Settled(b: seq<u8>, more: seq<u8>)
    requires Meaning(b).state != Underflow || more == []
    ensures Meaning(b + more) == Meaning(b)
  {
    if more == [] {
      assert b + more == b;
    } else {
      var init, x := more[..|more| - 1], more[|more| - 1];
      Settled(b, init);
      NextMeaning(b + init, x);
      assert (b + init) + [x] == b + more;
    }
  }

  // ---- The two decoders -------------------------------------------------------

  /**
   On every byte sequence: the buffer decoder finds a varint of `k` bytes exactly when
   a new reader becomes ready at byte `k`, and both then hold the same number.
   */
  lemma DecodersAgree(b: seq<u8>, k: nat)
    requires 0 < k <= |b|
    ensures SizeOf(b) == k <==> Meaning(b[..k - 1]).state == Underflow && Meaning(b[..k]).state == Ready
    ensures SizeOf(b) == k ==> Meaning(b) == Reader(Leb(b[..k]), Ready, k)
  {
    hide *;
    var init, x := b[..k - 1], b[k - 1];
    assert b[..k] == init + [x] && b[..k] + b[k..] == b;
    SizeOfIff(b, k);
    ReadyAt(init, x);
    if SizeOf(b) == k {
      Settled(b[..k], b[k..]);
    }
  }

  lemma ReadyAt(b: seq<u8>, x: u8)
    ensures IsVarint(b + [x]) <==> Meaning(b).state == Underflow && Meaning(b + [x]).state == Ready
    ensures IsVarint(b + [x]) ==> Meaning(b + [x]) == Reader(Leb(b + [x]), Ready, |b| + 1)
  {
  }

  /** The buffer decoder finds a varint exactly when the reader ends up ready. */
  lemma ReadyIff(b: seq<u8>)
    ensures SizeOf(b) > 0 <==> Meaning(b).state == Ready
    ensures SizeOf(b) > 0 ==> Meaning(b).got == SizeOf(b)
  {
    if SizeOf(b) > 0 {
      DecodersAgree(b, SizeOf(b));
    } else if Meaning(b).state == Ready {
      ReadyHasVarint(b);
    }
  }

  lemma {:induction false} ReadyHasVarint(b: seq<u8>)
    requires Meaning(b).state == Ready
    ensures SizeOf(b) > 0
  {
    if IsVarint(b) {
      assert b[..|b|] == b;
      SizeOfIff(b, |b|);
    } else {
      var init := b[..|b| - 1];
      ReadyHasVarint(init);
      var k := SizeOf(init);
      SizeOfIff(init, k);
      assert b[..k] == init[..k];
      SizeOfIff(b, k);
    }
  }

  /** Whatever follows it, an encoded number is read back by both decoders, in as many bytes as were written. */
  lemma EncodeDecodes(n: u64, tail: seq<u8>)
    ensures var b := Encode(n) + tail;
            && |Encode(n)| <= 10
            && SizeOf(b) == |Encode(n)| && Leb(b[..SizeOf(b)]) == n
            && Meaning(b) == Reader(n, Ready, |Encode(n)|)
  {
    var b, k := Encode(n) + tail, |Encode(n)|;
    EncodeIsVarint(n);
    assert b[..k] == Encode(n);
    SizeOfIff(b, k);
    DecodersAgree(b, k);
  }

  function Joined(chunks: seq<seq<u8>>): seq<u8> {
    if chunks == [] then [] else Joined(chunks[..|chunks| - 1]) + chunks[|chunks| - 1]
  }

  /** However the bytes are cut into pieces, the reader ends as it would on the whole. */
  method ReadInChunks(chunks: seq<seq<u8>>) returns (r: Reader)
    ensures r == Meaning(Joined(chunks))
  {
    var reader := new VarintPrefixReader();
    hide Meaning;
    var i := 0;
    while i < |chunks|
      invariant i <= |chunks| && reader.View() == Meaning(Joined(chunks[..i]))
    {
      assert chunks[..i + 1][..i] == chunks[..i];
      var s, rest := reader.ConsumeBuffer(chunks[i], Joined(chunks[..i]));
      i := i + 1;
    }
    assert chunks[..i] == chunks;
    r := reader.View();
  }

  /** A group of seven bits that fits is added in its place. */
  lemma AddShifted(value: u64, slice: u64, i: nat)
    requires slice < 128 && i <= 9
    ensures (i < 9 || slice <= 1) && value + slice * Pow(128, i) < WORD ==>
              (value + ShiftLeft(slice, 7 * i)) % WORD == value + slice * Pow(128, i)
    ensures slice * Pow(128, 0) == slice
  {
    ShiftTest(slice, i);
    assert Pow(128, 0) == 1;
    hide Pow;
  }

  class VarintPrefixReader {
    var value: u64
    var state: State
    var got: nat

    function View(): Reader
      reads this
    {
      Reader(value, state, got)
    }

    constructor ()
      ensures View() == Meaning([])
    {
      value, state, got := 0, Underflow, 0;
    }

    method Reset()
      modifies this
      ensures View() == Meaning([])
    {
      value, state, got := 0, Underflow, 0;
    }

    /** One byte more; `fed` is everything since the last reset. */
    method ConsumeByte(byte: u8, ghost fed: seq<u8>) returns (s: State)
      requires View() == Meaning(fed)
      modifies this
      ensures View() == Meaning(fed + [byte])
      ensures s == if old(state) == Ready then Error else state
    {
      NextMeaning(fed, byte);
      if state == Underflow {
        AddShifted(value, byte % 128, got);
        hide Meaning, Leb, Pow, ShiftLeft;
        var more := More(byte);
        var tmp: u64 := byte % 128;
        got := got + 1;
        if got == 1 {
        } else {
          if got == 10 && (tmp > 1 || more) {
            state := Overflow;
            return state;
          }
          tmp := ShiftLeft(tmp, 7 * (got - 1));
        }
        value := (value + tmp) % WORD;
        if !more {
          state := Ready;
        }
      } else if state == Ready {
        return Error;
      }
      return state;
    }

    /** Bytes of a buffer up to the end of the varint; what is left of the buffer is returned. */
    method ConsumeBuffer(buffer: seq<u8>, ghost fed: seq<u8>) returns (s: State, rest: seq<u8>)
      requires View() == Meaning(fed)
      modifies this
      ensures View() == Meaning(fed + buffer)
      ensures s == if old(state) == Ready && buffer != [] then Error else state
      ensures old(state) == Underflow && state != Overflow ==> 0 <= got - old(got) <= |buffer|
      ensures rest == if old(state) == Underflow && state != Overflow then buffer[got - old(got)..] else buffer
    {
      StillUnderflow(fed);
      hide Meaning;
      s := state;
      var consumed := 0;
      assert fed + buffer[..0] == fed;
      while consumed < |buffer| && (consumed == 0 || s == Underflow)
        invariant consumed <= |buffer| && View() == Meaning(fed + buffer[..consumed])
        invariant consumed == 0 ==> s == state == old(state) && got == old(got)
        invariant consumed > 0 ==> s == if old(state) == Ready then Error else state
        invariant old(state) == Underflow && state != Overflow ==> got == old(got) + consumed
        invariant old(state) == Overflow ==> state == Overflow
        invariant old(state) == Ready ==> state == Ready
      {
        assert (fed + buffer[..consumed]) + [buffer[consumed]] == fed + buffer[..consumed + 1];
        s := Bite(buffer[consumed], fed + buffer[..consumed]);
        consumed := consumed + 1;
      }
      StillUnderflow(fed + buffer[..consumed]);
      Settled(fed + buffer[..consumed], buffer[consumed..]);
      assert (fed + buffer[..consumed]) + buffer[consumed..] == fed + buffer;
      assert buffer[0..] == buffer;
      rest := if consumed > 0 && (s == Ready || s == Underflow) then buffer[consumed..] else buffer;
    }

    method Bite(byte: u8, ghost fed: seq<u8>) returns (s: State)
      requires View() == Meaning(fed)
      modifies this
      ensures View() == Meaning(fed + [byte])
      ensures s == if old(state) == Ready then Error else state
      ensures old(state) != Underflow ==> View() == old(View())
      ensures old(state) == Underflow ==> got == old(got) + 1
    {
      NextMeaning(fed, byte);
      hide Meaning;
      s := ConsumeByte(byte, fed);
    }
  }
}
