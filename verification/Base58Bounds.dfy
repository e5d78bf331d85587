/** Size of a number in another base: the two constants in base58.cpp are large enough. */
module Base58Bounds {
  import opened Positional

  lemma SmallPowers()
    ensures Pow(58, 2) == 3364 && Pow(58, 3) == 195112 && Pow(58, 5) == 656356768
    ensures Pow(256, 2) == 65536 && Pow(256, 3) == 0x1_00_00_00 && Pow(256, 4) == 0x1_0000_0000
  {
  }

  /** 256^8 <= 58^11, the step of 8 bytes that 138/100 pays for. */
  lemma EightBytes()
    ensures Pow(256, 8) <= Pow(58, 11)
  {
  }

  lemma FewBytes(n: nat)
    requires n < 8
    ensures Pow(256, n) <= Pow(58, n * 138 / 100 + 1)
  {
    SmallPowers();
    PowAdd(256, 4, 1); PowAdd(256, 4, 2); PowAdd(256, 4, 3);
    PowAdd(58, 5, 1); PowAdd(58, 5, 2); PowAdd(58, 5, 5); PowAdd(58, 5, 4);
    assert Pow(58, 1) == 58 && Pow(256, 1) == 256;
    assert Pow(58, 4) == 58 * Pow(58, 3);
    if n == 0 {} else if n == 1 {} else if n == 2 {} else if n == 3 {}
    else if n == 4 {} else if n == 5 {} else if n == 6 {} else {}
  }

  lemma PowProduct(a: int, k: nat, m: nat, b: int, i: nat, j: nat)
    requires Pow(a, k) <= Pow(b, i) && Pow(a, m) <= Pow(b, j) && Pow(a, m) >= 0 && Pow(b, i) >= 0
    ensures Pow(a, k + m) <= Pow(b, i + j)
  {
    PowAdd(a, k, m);
    PowAdd(b, i, j);
    hide Pow;
    MulUp(Pow(a, m), Pow(a, k), Pow(b, i));
    MulUp(Pow(b, i), Pow(a, m), Pow(b, j));
  }

  /** The encoder's buffer of `n * 138 / 100 + 1` base-58 digits holds every `n`-byte number. */
  lemma {:induction false} EncoderRoom(n: nat)
    ensures Pow(256, n) <= Pow(58, n * 138 / 100 + 1)
  {
    if n < 8 {
      FewBytes(n);
    } else {
      var room := (n - 8) * 138 / 100 + 1;
      EncoderRoom(n - 8);
      EightBytes();
      hide Pow;
      PowPositive(256, n - 8);
      PowPositive(58, 11);
      PowProduct(256, 8, n - 8, 58, 11, room);
      PowMonotone(58, 11 + room, n * 138 / 100 + 1);
    }
  }

  /** 58^71 <= 256^52, the step of 71 characters that 733/1000 pays for. */
  lemma SeventyOneChars()
    ensures Pow(58, 71) <= Pow(256, 52)
  {
    SmallPowers();
    PowAdd(58, 5, 5); PowAdd(58, 10, 10); PowAdd(58, 20, 20); PowAdd(58, 40, 20); PowAdd(58, 60, 10); PowAdd(58, 1, 70);
    PowAdd(256, 4, 4); PowAdd(256, 8, 8); PowAdd(256, 16, 16); PowAdd(256, 32, 16); PowAdd(256, 48, 4);
    assert Pow(58, 1) == 58 * Pow(58, 0);
    assert Pow(58, 10) == 430804206899405824;
    assert Pow(58, 20) == 430804206899405824 * 430804206899405824;
  }

  /** 58^k <= 256^(k*733/1000 + 1) for a handful of characters; at k = 15 with nothing to spare. */
  lemma FewChars(n: nat)
    requires n <= 15
    ensures Pow(58, n) <= Pow(256, n * 733 / 1000 + 1)
  {
    SmallPowers();
    PowAdd(256, 4, 1); PowAdd(256, 4, 2); PowAdd(256, 4, 3); PowAdd(256, 4, 4);
    PowAdd(256, 8, 1); PowAdd(256, 8, 2); PowAdd(256, 8, 3);
    assert Pow(58, 1) == 58 && Pow(256, 1) == 256;
    assert Pow(58, 4) == 58 * Pow(58, 3);
    PowAdd(58, 5, 1); PowAdd(58, 5, 2); PowAdd(58, 5, 3); PowAdd(58, 5, 4); PowAdd(58, 5, 5);
    PowAdd(58, 10, 1); PowAdd(58, 10, 2); PowAdd(58, 10, 3); PowAdd(58, 10, 4); PowAdd(58, 10, 5);
    if n == 0 {} else if n == 1 {} else if n == 2 {} else if n == 3 {}
    else if n == 4 {} else if n == 5 {} else if n == 6 {} else if n == 7 {}
    else if n == 8 {} else if n == 9 {} else if n == 10 {} else if n == 11 {}
    else if n == 12 {} else if n == 13 {} else if n == 14 {} else {}
  }

  lemma DecoderStep(k: nat, bytes: nat, m: nat)
    requires Pow(58, k) <= Pow(256, bytes)
    requires Pow(58, m) <= Pow(256, m * 733 / 1000 + 1)
    requires bytes + m * 733 / 1000 <= (k + m) * 733 / 1000
    ensures Pow(58, k + m) <= Pow(256, (k + m) * 733 / 1000 + 1)
  {
    hide Pow;
    var room := m * 733 / 1000 + 1;
    PowPositive(58, m);
    PowPositive(256, bytes);
    PowProduct(58, k, m, 256, bytes, room);
    PowMonotone(256, bytes + room, (k + m) * 733 / 1000 + 1);
  }

  /** Fifteen more characters are worth eleven more bytes, except from zero. */
  lemma FifteenMore(m: nat)
    requires 1 <= m <= 55
    ensures 11 + m * 733 / 1000 <= (15 + m) * 733 / 1000
  {
    var q := m * 733 / 1000;
    var left, k := m * 733 - 1000 * q, 397 * q - 291 * m;
    assert 0 <= left < 1000 && m == 397 * left + 1000 * k;
    assert left >= 5 by {
      if left == 0 {} else if left == 1 {} else if left == 2 {} else if left == 3 {} else if left == 4 {}
    }
  }

  lemma SeventyOneMore(m: nat)
    ensures 52 + m * 733 / 1000 <= (71 + m) * 733 / 1000
  {
  }

  /** The decoder's buffer of `n * 733 / 1000 + 1` bytes holds every `n`-character number. */
  lemma {:induction false} DecoderRoom(n: nat)
    ensures Pow(58, n) <= Pow(256, n * 733 / 1000 + 1)
  {
    hide Pow;
    if n <= 15 {
      FewChars(n);
    } else if n <= 70 {
      DecoderRoom(n - 15);
      FewChars(15);
      FifteenMore(n - 15);
      DecoderStep(15, 11, n - 15);
    } else {
      DecoderRoom(n - 71);
      SeventyOneChars();
      SeventyOneMore(n - 71);
      DecoderStep(71, 52, n - 71);
    }
  }
}
