/** The base58 codec of src/multi/multibase_codec/codecs/base58.cpp. */
module Base58 {
  import opened Common
  import opened Positional
  import opened Base58Bounds

  /** The inverse table `mapBase58`. */
  function Index(c: char): int {
    if '1' <= c <= '9' then c as int - '1' as int
    else if 'A' <= c <= 'H' then c as int - 'A' as int + 9
    else if 'J' <= c <= 'N' then c as int - 'J' as int + 17
    else if 'P' <= c <= 'Z' then c as int - 'P' as int + 22
    else if 'a' <= c <= 'k' then c as int - 'a' as int + 33
    else if 'm' <= c <= 'z' then c as int - 'm' as int + 44
    else -1
  }

  /** All alphanumeric characters except "0", "I", "O" and "l", in `pszBase58` order. */
  function Letter(d: int): char
    requires 0 <= d < 58
  {
    if d < 9 then ('1' as int + d) as char
    else if d < 17 then ('A' as int + d - 9) as char
    else if d < 22 then ('J' as int + d - 17) as char
    else if d < 33 then ('P' as int + d - 22) as char
    else if d < 44 then ('a' as int + d - 33) as char
    else ('m' as int + d - 44) as char
  }

  /** The two tables are inverse to each other. */
  lemma LetterIndex(d: int)
    requires 0 <= d < 58
    ensures Index(Letter(d)) == d
    ensures d == 0 <==> Letter(d) == '1'
  {
  }

  lemma IndexLetter(c: char)
    requires Index(c) >= 0
    ensures Index(c) < 58 && Letter(Index(c)) == c
  {
  }

  /** The alphabet is the letters and digits without the four that are easily mistaken. */
  lemma AlphabetIff(c: char)
    ensures Index(c) >= 0 <==>
            ('0' <= c <= '9' || 'A' <= c <= 'Z' || 'a' <= c <= 'z') && c != '0' && c != 'I' && c != 'O' && c != 'l'
  {
  }

  /** Its order is that of the character codes. */
  lemma AlphabetOrder(c: char, d: char)
    requires Index(c) >= 0 && Index(d) >= 0 && c < d
    ensures Index(c) < Index(d)
  {
  }

  predicate InAlphabet(s: string) { forall i :: 0 <= i < |s| ==> Index(s[i]) >= 0 }

  predicate IsSpace(c: char) {
    c == ' ' || c == '\U{0C}' || c == '\n' || c == '\r' || c == '\t' || c == '\U{0B}'
  }

  /** White space is the blank and the codes 9 to 13. */
  lemma SpaceIff(c: char)
    ensures IsSpace(c) <==> c as int == 32 || 9 <= c as int <= 13
  {
  }

  // ---- What the codec computes ---------------------------------------------

  function LeadingZeros(b: seq<int>): (n: nat)
    ensures n <= |b| && (forall i :: 0 <= i < n ==> b[i] == 0) && (n < |b| ==> b[n] != 0)
  {
    if b == [] || b[0] != 0 then 0 else 1 + LeadingZeros(b[1..])
  }

  function Letters(ds: seq<int>): (s: string)
    requires forall i :: 0 <= i < |ds| ==> 0 <= ds[i] < 58
    ensures |s| == |ds| && forall i :: 0 <= i < |ds| ==> s[i] == Letter(ds[i])
  {
    seq(|ds|, i requires 0 <= i < |ds| => Letter(ds[i]))
  }

  function Indices(s: string): (ds: seq<int>)
    ensures |ds| == |s| && forall i :: 0 <= i < |s| ==> ds[i] == Index(s[i])
  {
    seq(|s|, i requires 0 <= i < |s| => Index(s[i]))
  }

  /** Leading zero bytes become '1's; the rest is the number written in base 58. */
  function Encode(b: seq<u8>): string {
    Letters(Zeros(LeadingZeros(b)) + Canon(ByteValue(b), 58))
  }

  function ByteValue(b: seq<u8>): (v: int)
    ensures v >= 0
  {
    ValueBound(b, 256);
    Value(b, 256)
  }

  /** The bytes behind a string of base58 digits. */
  function DecodeDigits(s: string): seq<int>
    requires InAlphabet(s)
  {
    var ds := Indices(s);
    ValueIndices(s);
    Zeros(LeadingZeros(ds)) + Canon(Value(ds, 58), 256)
  }

  lemma ValueIndices(s: string)
    requires InAlphabet(s)
    ensures Digits(Indices(s), 58) && Value(Indices(s), 58) >= 0
  {
    forall i | 0 <= i < |s| ensures 0 <= Index(s[i]) < 58 { IndexLetter(s[i]); }
    ValueBound(Indices(s), 58);
  }

  // ---- The two directions undo each other ----------------------------------

  lemma LeadingZerosOf(z: nat, s: seq<int>)
    requires s == [] || s[0] != 0
    ensures LeadingZeros(Zeros(z) + s) == z
  {
    var t := Zeros(z) + s;
    assert s != [] ==> t[z] == s[0];
  }

  /** A digit string splits into its leading zeros and a shortest numeral of its value. */
  lemma SplitZeros(s: seq<int>, b: int)
    requires b >= 2 && Digits(s, b)
    ensures Value(s, b) >= 0 && s == Zeros(LeadingZeros(s)) + Canon(Value(s, b), b)
  {
    var z := LeadingZeros(s);
    assert s == Zeros(z) + s[z..];
    ValueLeading(z, s[z..], b);
    CanonUnique(s[z..], b);
  }

  lemma IndicesLetters(ds: seq<int>)
    requires forall i :: 0 <= i < |ds| ==> 0 <= ds[i] < 58
    ensures Indices(Letters(ds)) == ds && InAlphabet(Letters(ds))
  {
    forall i | 0 <= i < |ds| ensures Indices(Letters(ds))[i] == ds[i] && Index(Letters(ds)[i]) >= 0 { LetterIndex(ds[i]); }
  }

  lemma LettersIndices(s: string)
    requires InAlphabet(s)
    ensures Digits(Indices(s), 58) && Letters(Indices(s)) == s
  {
    forall i | 0 <= i < |s| ensures 0 <= Index(s[i]) < 58 && Letter(Index(s[i])) == s[i] { IndexLetter(s[i]); }
  }

  /** decode(encode(b)) = b for every byte string, leading zeros included. */
  lemma DecodeEncode(b: seq<u8>)
    ensures InAlphabet(Encode(b)) && DecodeDigits(Encode(b)) == b
  {
    var z, v := LeadingZeros(b), ByteValue(b);
    var ds := Zeros(z) + Canon(v, 58);
    IndicesLetters(ds);
    LeadingZerosOf(z, Canon(v, 58));
    ValueLeading(z, Canon(v, 58), 58);
    CanonValue(v, 58);
    SplitZeros(b, 256);
  }

  /** encode(decode(s)) = s for every string over the alphabet. */
  lemma EncodeDecode(s: string)
    requires InAlphabet(s)
    ensures Digits(DecodeDigits(s), 256) && Encode(DecodeDigits(s)) == s
  {
    var ds := Indices(s);
    LettersIndices(s);
    ValueIndices(s);
    var z, v := LeadingZeros(ds), Value(ds, 58);
    LeadingZerosOf(z, Canon(v, 256));
    ValueLeading(z, Canon(v, 256), 256);
    CanonValue(v, 256);
    SplitZeros(ds, 58);
  }

  // ---- The in-place carry loops --------------------------------------------

  lemma CarryStep(v: int, d: int, mult: int, carry: int, base: int, p: int, rest: int)
    requires base >= 2
    ensures var c := carry + mult * d;
            ((v * base + d) * mult + carry) * p + rest ==
            (v * mult + c / base) * (base * p) + (c % base * p + rest)
  {
  }

  /** The running carry stays below the multiplier, so the source's `int` never overflows. */
  lemma CarrySmall(carry: int, mult: int, d: int, base: int)
    requires 0 <= carry < mult && 0 <= d < base
    ensures 0 <= (carry + mult * d) / base < mult
  {
    MulUp(mult, 0, d);
    MulUp(mult, d, base - 1);
    var c := carry + mult * d;
    assert c < mult * base;
    assert c == base * (c / base) + c % base;
    if c / base >= mult { MulUp(base, mult, c / base); }
  }

  /** The number being computed when the last `i` digits of `was` have been rewritten to those of `now`. */
  ghost function Held(was: seq<int>, now: seq<int>, i: nat, mult: int, carry: int, base: int): int
    requires i <= |was| == |now|
  {
    var k := |was| - i;
    (Value(was[..k], base) * mult + carry) * Pow(base, i) + Value(now[k..], base)
  }

  lemma HeldStart(was: seq<int>, mult: int, digit: int, base: int)
    ensures Held(was, was, 0, mult, digit, base) == Value(was, base) * mult + digit
  {
    assert was[..|was|] == was && was[|was|..] == [];
  }

  lemma HeldStep(was: seq<int>, now: seq<int>, i: nat, mult: int, carry: int, base: int)
    requires base >= 2 && i < |was| == |now|
    ensures var k := |was| - i - 1; var sum := carry + mult * was[k];
            Held(was, now[k := sum % base], i + 1, mult, sum / base, base) == Held(was, now, i, mult, carry, base)
  {
    var k := |was| - i - 1;
    var sum := carry + mult * was[k];
    var now' := now[k := sum % base];
    assert was[..k + 1][..k] == was[..k];
    assert now'[k..] == [sum % base] + now[k + 1..];
    ValueConcat([sum % base], now[k + 1..], base);
    ValueOne(sum % base, base);
    CarryStep(Value(was[..k], base), was[k], mult, carry, base, Pow(base, i), Value(now[k + 1..], base));
  }

  lemma ValueOne(d: int, b: int)
    ensures Value([d], b) == d
  {
  }

  /** When the loop stops, what it holds is the buffer plus what was carried out of it. */
  lemma HeldEnd(was: seq<int>, now: seq<int>, i: nat, mult: int, carry: int, base: int)
    requires i <= |was| == |now| && (i < |was| ==> carry == 0)
    requires forall j :: 0 <= j < |was| - i ==> was[j] == 0 && now[j] == 0
    ensures Held(was, now, i, mult, carry, base) == carry * Pow(base, |was|) + Value(now, base)
  {
    var k := |was| - i;
    var p, v := Pow(base, i), Value(now[k..], base);
    ValueZeros(was[..k], base);
    assert Held(was, now, i, mult, carry, base) == (0 * mult + carry) * p + v;
    assert Value(now, base) == v by {
      assert now == Zeros(k) + now[k..];
      ValueLeading(k, now[k..], base);
    }
    hide *;
    assert (0 * mult + carry) * p == carry * p;
    if k > 0 { assert carry == 0; }
  }

  /** The inner loop of both directions: `buffer = buffer * mult + digit`, from the right, in place. */
  method MulAdd(a: array<int>, base: int, mult: int, digit: int, length: nat) returns (used: nat, ghost carried: int)
    requires base >= 2 && 0 <= digit < mult && length <= a.Length && Digits(a[..], base)
    requires forall i :: 0 <= i < a.Length - length ==> a[i] == 0
    modifies a
    ensures used <= a.Length && Digits(a[..], base) && forall i :: 0 <= i < a.Length - used ==> a[i] == 0
    ensures carried >= 0
    ensures Value(old(a[..]), base) * mult + digit == carried * Pow(base, a.Length) + Value(a[..], base)
  {
    ghost var was := a[..];
    var n := a.Length;
    var carry, i := digit, 0;
    HeldStart(was, mult, digit, base);
    hide Held, Value, Pow;
    while (carry != 0 || i < length) && i < n
      invariant i <= n && 0 <= carry < mult
      invariant forall j :: 0 <= j < n - i ==> a[j] == was[j]
      invariant forall j :: 0 <= j < n ==> 0 <= a[j] < base
      invariant Held(was, a[..], i, mult, carry, base) == Value(was, base) * mult + digit
      decreases n - i
    {
      var k := n - 1 - i;
      CarrySmall(carry, mult, a[k], base);
      HeldStep(was, a[..], i, mult, carry, base);
      var sum := carry + mult * a[k];
      ghost var now := a[..];
      a[k] := sum % base;
      assert a[..] == now[k := sum % base];
      carry, i := sum / base, i + 1;
    }
    used, carried := i, carry;
    HeldEnd(was, a[..], i, mult, carry, base);
  }

  /** With room for the result nothing is carried out of the buffer. */
  lemma NothingCarried(total: int, carried: int, rest: int, room: int)
    requires total == carried * room + rest && carried >= 0 && rest >= 0 && room > 0 && total < room
    ensures carried == 0 && total == rest
  {
  }

  // ---- encodeImpl ----------------------------------------------------------

  /** The loop over the bytes; afterwards the buffer holds their number. */
  method FillBase58(b: seq<u8>, a: array<int>) returns (length: nat)
    requires a.Length == |b| * 138 / 100 + 1 && forall i :: 0 <= i < a.Length ==> a[i] == 0
    modifies a
    ensures length <= a.Length && Digits(a[..], 58) && Value(a[..], 58) == Value(b, 256)
    ensures forall i :: 0 <= i < a.Length - length ==> a[i] == 0
  {
    length := 0;
    ValueZeros(a[..], 58);
    var j := 0;
    while j < |b|
      invariant j <= |b| && length <= a.Length && Digits(a[..], 58)
      invariant Value(a[..], 58) == Value(b[..j], 256)
      invariant forall i :: 0 <= i < a.Length - length ==> a[i] == 0
    {
      ghost var carried;
      length, carried := MulAdd(a, 58, 256, b[j], length);
      assert b[..j + 1][..j] == b[..j];
      EncoderFits(b, j + 1, a.Length);
      ValueBound(a[..], 58);
      PowPositive(58, a.Length);
      NothingCarried(Value(b[..j + 1], 256), carried, Value(a[..], 58), Pow(58, a.Length));
      j := j + 1;
    }
    assert b[..j] == b;
  }

  lemma EncoderFits(b: seq<u8>, j: nat, size: nat)
    requires j <= |b| && size == |b| * 138 / 100 + 1
    ensures Value(b[..j], 256) < Pow(58, size)
  {
    ValueBound(b[..j], 256);
    EncoderRoom(j);
    PowMonotone(58, j * 138 / 100 + 1, size);
  }

  method SkipZeros(b: seq<int>, from: nat) returns (k: nat)
    requires from <= |b| && forall i :: 0 <= i < from ==> b[i] == 0
    ensures k == LeadingZeros(b)
  {
    k := from;
    while k < |b| && b[k] == 0
      invariant from <= k <= |b| && forall i :: 0 <= i < k ==> b[i] == 0
    {
      k := k + 1;
    }
    assert b == Zeros(k) + b[k..];
    LeadingZerosOf(k, b[k..]);
  }

  method Translate(zeroes: nat, digits: seq<int>, from: nat) returns (s: string)
    requires from <= |digits| && Digits(digits, 58)
    ensures s == Letters(Zeros(zeroes) + digits[from..])
  {
    s := Repeat('1', zeroes);
    var it := from;
    while it < |digits|
      invariant from <= it <= |digits| && |s| == zeroes + it - from
      invariant forall i :: 0 <= i < zeroes ==> s[i] == '1'
      invariant forall i :: from <= i < it ==> s[zeroes + i - from] == Letter(digits[i])
    {
      s := s + [Letter(digits[it])];
      it := it + 1;
    }
  }

  method EncodeImpl(bytes: seq<u8>) returns (s: string)
    ensures s == Encode(bytes)
  {
    var zeroes := SkipZeros(bytes, 0);
    var rest := bytes[zeroes..];
    var size := |rest| * 138 / 100 + 1;
    var b58 := new int[size](_ => 0);
    var length := FillBase58(rest, b58);
    var digits := b58[..];
    var it := SkipZeros(digits, size - length);
    s := Translate(zeroes, digits, it);
    assert Canon(ByteValue(bytes), 58) == digits[it..] by {
      assert bytes == Zeros(zeroes) + rest;
      ValueLeading(zeroes, rest, 256);
      SplitZeros(digits, 58);
    }
  }

  function Repeat(c: char, n: nat): (s: string)
    ensures |s| == n && forall i :: 0 <= i < n ==> s[i] == c
  {
    seq(n, _ => c)
  }

  // ---- decodeImpl ----------------------------------------------------------

  /** `strlen`: the text ends at the first NUL, or where the string does. */
  function StrLen(s: string): (n: nat)
    ensures n <= |s| && (n < |s| ==> s[n] == '\0') && forall i :: 0 <= i < n ==> s[i] != '\0'
  {
    if s == [] || s[0] == '\0' then 0 else 1 + StrLen(s[1..])
  }

  /** Length of the longest prefix of white space. */
  function SpaceRun(s: string): (n: nat)
    ensures n <= |s| && (forall i :: 0 <= i < n ==> IsSpace(s[i])) && (n < |s| ==> !IsSpace(s[n]))
  {
    if s == [] || !IsSpace(s[0]) then 0 else 1 + SpaceRun(s[1..])
  }

  /** Length of the longest prefix without white space. */
  function WordRun(s: string): (n: nat)
    ensures n <= |s| && (forall i :: 0 <= i < n ==> !IsSpace(s[i])) && (n < |s| ==> IsSpace(s[n]))
  {
    if s == [] || IsSpace(s[0]) then 0 else 1 + WordRun(s[1..])
  }

  /** What the decoder accepts: one word over the alphabet, with white space around it. */
  function DecodeText(text: string): Option<seq<int>> {
    var s := text[..StrLen(text)];
    var u := s[SpaceRun(s)..];
    var n := WordRun(u);
    if InAlphabet(u[..n]) && n + SpaceRun(u[n..]) == |u| then Some(DecodeDigits(u[..n])) else None
  }

  /** The same as bytes. */
  function DecodeBytes(text: string): Option<seq<u8>> {
    var o := DecodeText(text);
    if o.Some? then Some(o.value) else None
  }

  /** A bare word over the alphabet is decoded as such. */
  lemma DecodeWord(s: string)
    requires InAlphabet(s)
    ensures DecodeText(s) == Some(DecodeDigits(s))
  {
    forall i | 0 <= i < |s| ensures s[i] != '\0' && !IsSpace(s[i]) {}
    assert StrLen(s) == |s| && s[..|s|] == s;
    assert SpaceRun(s) == 0 && s[0..] == s;
    assert WordRun(s) == |s|;
  }

  /** Text and bytes undo each other through the functions callers use. */
  lemma RoundTrip(b: seq<u8>)
    ensures DecodeText(Encode(b)) == Some(b) == DecodeBytes(Encode(b))
  {
    DecodeEncode(b);
    DecodeWord(Encode(b));
  }

  predicate AllSpace(s: string) { forall i :: 0 <= i < |s| ==> IsSpace(s[i]) }

  /** A word with nothing but white space around it, up to a NUL or to the end. */
  ghost predicate Surrounded(text: string, w: string) {
    exists i, j, k :: WordAt(text, w, i, j, k)
  }

  ghost predicate WordAt(text: string, w: string, i: int, j: int, k: int) {
    && 0 <= i <= j <= k <= |text| && text[i..j] == w && '\0' !in text[..k] && (k < |text| ==> text[k] == '\0')
    && AllSpace(text[..i]) && AllSpace(text[j..k])
  }

  /** The texts read as `b` are exactly those with the encoding of `b` between white space. */
  lemma AcceptedIff(text: string, b: seq<u8>)
    ensures DecodeText(text) == Some(b) <==> Surrounded(text, Encode(b))
  {
    if DecodeText(text) == Some(b) {
      AcceptedAt(text, b);
    }
    if Surrounded(text, Encode(b)) {
      var i, j, k :| WordAt(text, Encode(b), i, j, k);
      WordIsRead(text, b, i, j, k);
    }
  }

  /** The bounds the decoder finds. */
  function Bounds(text: string): (b: (nat, nat, nat))
    ensures b.0 <= b.1 <= b.2 == StrLen(text)
  {
    var k := StrLen(text);
    var i := SpaceRun(text[..k]);
    (i, i + WordRun(text[i..k]), k)
  }

  lemma BoundsRead(text: string)
    ensures var (i, j, k) := Bounds(text);
            DecodeText(text) == if InAlphabet(text[i..j]) && AllSpace(text[j..k]) then Some(DecodeDigits(text[i..j])) else None
  {
    hide DecodeDigits, InAlphabet, StrLen, SpaceRun, WordRun, AllSpace;
    var (i, j, k) := Bounds(text);
    Cuts(text, i, j, k);
    AllSpaceIff(text[j..k]);
  }

  lemma Cuts(text: string, i: nat, j: nat, k: nat)
    requires i <= j <= k <= |text|
    ensures text[..k][i..] == text[i..k] && text[i..k][..j - i] == text[i..j] && text[i..k][j - i..] == text[j..k]
    ensures text[..k][..i] == text[..i] && text[..k][i..j] == text[i..j] && text[..k][j..] == text[j..k]
  {
  }

  lemma AllSpaceIff(s: string)
    ensures AllSpace(s) <==> SpaceRun(s) == |s|
  {
    hide IsSpace;
  }

  lemma BoundsAt(text: string)
    ensures var (i, j, k) := Bounds(text); AllSpace(text[j..k]) ==> WordAt(text, text[i..j], i, j, k)
  {
    var (i, j, k) := Bounds(text);
    Cuts(text, i, j, k);
    SpaceBefore(text[..k]);
    hide SpaceRun, WordRun, AllSpace;
  }

  lemma SpaceBefore(s: string)
    ensures AllSpace(s[..SpaceRun(s)])
  {
  }

  lemma AcceptedAt(text: string, b: seq<u8>)
    requires DecodeText(text) == Some(b)
    ensures Surrounded(text, Encode(b))
  {
    var (i, j, k) := Bounds(text);
    hide *;
    BoundsRead(text);
    BoundsAt(text);
    EncodeDecode(text[i..j]);
    SurroundedAt(text, text[i..j], i, j, k);
  }

  lemma SurroundedAt(text: string, w: string, i: int, j: int, k: int)
    requires WordAt(text, w, i, j, k)
    ensures Surrounded(text, w)
  {
  }

  lemma WordIsRead(text: string, b: seq<u8>, i: int, j: int, k: int)
    requires WordAt(text, Encode(b), i, j, k)
    ensures DecodeText(text) == Some(b)
  {
    hide *;
    DecodeEncode(b);
    BoundsRead(text);
    OnlyBounds(text, Encode(b), i, j, k);
  }

  /** A word over the alphabet is found where it stands. */
  lemma OnlyBounds(text: string, w: string, i: int, j: int, k: int)
    requires WordAt(text, w, i, j, k) && InAlphabet(w)
    ensures var (i', j', k') := Bounds(text); text[i'..j'] == w && AllSpace(text[j'..k'])
  {
    assert StrLen(text) == k;
    Cuts(text, i, j, k);
    RunsOf(text[..k], i, j, w);
    var (i', j', k') := Bounds(text);
    Cuts(text, i', j', k);
    hide StrLen, SpaceRun, WordRun, AllSpace, InAlphabet;
  }

  lemma RunsOf(s: string, i: int, j: int, w: string)
    requires 0 <= i <= j <= |s| && AllSpace(s[..i]) && AllSpace(s[j..]) && s[i..j] == w && InAlphabet(w)
    ensures var z := SpaceRun(s); var n := WordRun(s[z..]); s[z..][..n] == w && AllSpace(s[z..][n..])
  {
    hide WordRun, SpaceRun, AllSpace, InAlphabet;
    var before, more := s[..i], s[j..];
    assert s == before + (w + more);
    SpaceThen(before, w, more);
    if w == [] {
      assert s[|s|..] == [];
      assert more[..0] == [];
    } else {
      assert s[i..] == w + more;
      WordThen(w, more);
      assert (w + more)[..|w|] == w && (w + more)[|w|..] == more;
    }
  }

  lemma SpaceThen(before: string, w: string, more: string)
    requires AllSpace(before) && InAlphabet(w) && AllSpace(more)
    ensures SpaceRun(before + (w + more)) == if w == [] then |before| + |more| else |before|
    ensures w == [] ==> AllSpace([]) && WordRun([]) == 0
  {
    hide SpaceRun;
    if w == [] {
      assert w + more == more;
      AllSpaceConcat(before, more);
      AllSpaceIff(before + more);
    } else {
      FirstWord(w, more);
      SpaceStops(before, w + more);
    }
  }

  lemma FirstWord(w: string, more: string)
    requires InAlphabet(w) && w != []
    ensures !IsSpace((w + more)[0])
  {
    assert (w + more)[0] == w[0];
  }

  lemma AllSpaceConcat(a: string, b: string)
    requires AllSpace(a) && AllSpace(b)
    ensures AllSpace(a + b)
  {
    hide IsSpace;
  }

  lemma SpaceStops(a: string, b: string)
    requires AllSpace(a) && b != [] && !IsSpace(b[0])
    ensures SpaceRun(a + b) == |a|
  {
    hide IsSpace;
    var s := a + b;
    assert forall m :: 0 <= m < |a| ==> s[m] == a[m];
    assert s[|a|] == b[0];
  }

  lemma WordThen(w: string, more: string)
    requires InAlphabet(w) && AllSpace(more)
    ensures WordRun(w + more) == |w|
  {
    var s := w + more;
    assert forall m :: 0 <= m < |w| ==> s[m] == w[m] && !IsSpace(w[m]);
    assert more != [] ==> s[|w|] == more[0] && IsSpace(more[0]);
  }

  lemma DecoderFits(ds: seq<int>, j: nat, size: nat)
    requires j <= |ds| && Digits(ds[..j], 58) && size >= |ds| * 733 / 1000 + 1
    ensures Value(ds[..j], 58) < Pow(256, size)
  {
    ValueBound(ds[..j], 58);
    DecoderRoom(j);
    PowMonotone(256, j * 733 / 1000 + 1, size);
  }

  /** `*psz` at offset `i` of a NUL-terminated text. */
  function At(s: string, i: nat): char { if i < |s| then s[i] else '\0' }

  /**
   The loop over the characters up to white space or the end, `j` of them; the buffer is sized
   for all of `u`. The source also gives up when a carry is left over; the buffer bound shows
   that never happens.
   */
  method FillBase256(u: string, a: array<int>) returns (ok: bool, length: nat, j: nat)
    requires '\0' !in u && a.Length >= |u| * 733 / 1000 + 1 && forall i :: 0 <= i < a.Length ==> a[i] == 0
    modifies a
    ensures ok == InAlphabet(u[..WordRun(u)])
    ensures ok ==> j == WordRun(u) && length <= a.Length && Digits(a[..], 256)
    ensures ok ==> Value(a[..], 256) == Value(Indices(u[..WordRun(u)]), 58)
    ensures ok ==> forall i :: 0 <= i < a.Length - length ==> a[i] == 0
  {
    ghost var w := u[..WordRun(u)];
    ghost var ds := Indices(w);
    RoomForPart(|w|, |u|);
    length, j := 0, 0;
    ValueZeros(a[..], 256);
    assert Value(ds[..0], 58) == 0 && InAlphabet(w[..0]);
    hide Value, Pow, Index, InAlphabet, WordRun, IsSpace;
    while At(u, j) != '\0' && !IsSpace(At(u, j))
      invariant j <= |w| && length <= a.Length && Digits(a[..], 256) && InAlphabet(w[..j])
      invariant Value(a[..], 256) == Value(ds[..j], 58)
      invariant forall i :: 0 <= i < a.Length - length ==> a[i] == 0
      decreases |u| - j
    {
      WithinWord(u, j);
      var digit := Index(u[j]);
      OneMoreLetter(w, j);
      if digit == -1 {
        return false, 0, 0;
      }
      ghost var carried;
      ghost var was := a[..];
      length, carried := MulAdd(a, 256, 58, digit, length);
      FilledOne(w, j, was, a[..], carried);
      j := j + 1;
    }
    WordEnds(u, j);
    assert ds[..j] == ds && w[..j] == w;
    ok := true;
  }

  lemma RoomForPart(m: nat, n: nat)
    requires m <= n
    ensures m * 733 / 1000 <= n * 733 / 1000
  {
  }

  lemma WithinWord(u: string, j: nat)
    requires j <= WordRun(u) && At(u, j) != '\0' && !IsSpace(At(u, j))
    ensures j < WordRun(u) && u[..WordRun(u)][j] == u[j]
  {
  }

  lemma WordEnds(u: string, j: nat)
    requires '\0' !in u && j <= WordRun(u) && !(At(u, j) != '\0' && !IsSpace(At(u, j)))
    ensures j == WordRun(u)
  {
    if j < |u| { assert u[j] in u; }
  }

  lemma OneMoreLetter(w: string, j: nat)
    requires j < |w| && InAlphabet(w[..j])
    ensures -1 <= Index(w[j]) < 58
    ensures InAlphabet(w[..j + 1]) <==> Index(w[j]) >= 0
    ensures Index(w[j]) < 0 ==> !InAlphabet(w)
  {
    assert -1 <= Index(w[j]) < 58;
    assert w[..j + 1] == w[..j] + [w[j]];
    hide Index;
  }

  lemma ValueMore(ds: seq<int>, j: nat, b: int)
    requires j < |ds|
    ensures Value(ds[..j + 1], b) == Value(ds[..j], b) * b + ds[j]
  {
    assert ds[..j + 1][..j] == ds[..j];
  }

  /** After one more character the buffer holds the number of the characters so far. */
  lemma FilledOne(w: string, j: nat, was: seq<int>, now: seq<int>, carried: int)
    requires j < |w| && InAlphabet(w[..j + 1]) && |now| >= |w| * 733 / 1000 + 1 && Digits(now, 256) && carried >= 0
    requires Value(was, 256) == Value(Indices(w)[..j], 58)
    requires Value(was, 256) * 58 + Index(w[j]) == carried * Pow(256, |now|) + Value(now, 256)
    ensures Value(now, 256) == Value(Indices(w)[..j + 1], 58)
  {
    var ds := Indices(w);
    assert ds[j] == Index(w[j]);
    hide *;
    ValueMore(ds, j, 58);
    ValueIndices(w[..j + 1]);
    assert Indices(w[..j + 1]) == ds[..j + 1];
    DecoderFits(ds, j + 1, |now|);
    ValueBound(now, 256);
    PowPositive(256, |now|);
    NothingCarried(Value(ds[..j + 1], 58), carried, Value(now, 256), Pow(256, |now|));
  }

  method SkipSpaces(s: string, from: nat) returns (k: nat)
    requires from <= |s|
    ensures k == from + SpaceRun(s[from..])
  {
    k := from;
    while IsSpace(At(s, k))
      invariant from <= k <= |s| && from + SpaceRun(s[from..]) == k + SpaceRun(s[k..])
      decreases |s| - k
    {
      assert s[k..][1..] == s[k + 1..];
      k := k + 1;
    }
  }

  method CountOnes(u: string) returns (zeroes: nat)
    ensures zeroes <= |u| && (forall i :: 0 <= i < zeroes ==> u[i] == '1') && (zeroes < |u| ==> u[zeroes] != '1')
  {
    zeroes := 0;
    while At(u, zeroes) == '1'
      invariant zeroes <= |u| && forall i :: 0 <= i < zeroes ==> u[i] == '1'
      decreases |u| - zeroes
    {
      zeroes := zeroes + 1;
    }
  }

  /** The text ends at its first NUL, as the C string it is passed as. */
  method DecodeImpl(text: string) returns (r: Option<seq<int>>)
    ensures r == DecodeText(text)
  {
    var s := text[..StrLen(text)];
    hide StrLen;
    var start := SkipSpaces(s, 0);
    assert s[0..] == s;
    r := DecodeFrom(s[start..]);
  }

  /** From the first character that is not white space. */
  method DecodeFrom(u: string) returns (r: Option<seq<int>>)
    requires '\0' !in u
    ensures var n := WordRun(u);
            r == if InAlphabet(u[..n]) && n + SpaceRun(u[n..]) == |u| then Some(DecodeDigits(u[..n])) else None
  {
    hide *;
    var zeroes := CountOnes(u);
    var v := u[zeroes..];
    StillNoNul(u, zeroes);
    PastOnes(u, zeroes);
    r := DecodeRest(v);
    if r.Some? {
      WordBytes(u[..WordRun(u)], zeroes);
      r := Some(Zeros(zeroes) + r.value);
    }
  }

  lemma StillNoNul(u: string, k: nat)
    requires k <= |u| && '\0' !in u
    ensures '\0' !in u[k..]
  {
  }

  /** The number after the leading '1's, in its fewest bytes. */
  method DecodeRest(v: string) returns (r: Option<seq<int>>)
    requires '\0' !in v
    ensures var n := WordRun(v);
            if InAlphabet(v[..n]) && n + SpaceRun(v[n..]) == |v|
            then 0 <= Value(Indices(v[..n]), 58) && r == Some(Canon(Value(Indices(v[..n]), 58), 256))
            else r == None
  {
    hide *;
    var size := |v| * 733 / 1000 + 1;
    var b256 := new int[size](_ => 0);
    var ok, length, j := FillBase256(v, b256);
    if !ok {
      return None;
    }
    var stop := SkipSpaces(v, j);
    if stop != |v| {
      return None;
    }
    var digits := b256[..];
    var it := SkipZeros(digits, size - length);
    SplitZeros(digits, 256);
    r := Some(digits[it..]);
  }

  /** Leading '1's belong to the word, and what follows them ends as it does. */
  lemma PastOnes(u: string, zeroes: nat)
    requires zeroes <= |u| && forall i :: 0 <= i < zeroes ==> u[i] == '1'
    ensures var n, v := WordRun(u), u[zeroes..];
            && zeroes <= n && WordRun(v) == n - zeroes
            && v[..n - zeroes] == u[..n][zeroes..] && v[n - zeroes..] == u[n..]
            && (InAlphabet(u[..n]) <==> InAlphabet(v[..n - zeroes]))
            && forall i :: 0 <= i < n ==> u[..n][i] == u[i]
  {
    hide *;
    OnesInWord(u, zeroes);
    Slices(u, zeroes, WordRun(u));
    OnesInAlphabet(u[..WordRun(u)], zeroes);
  }

  lemma {:induction false} OnesInWord(u: string, z: nat)
    requires z <= |u| && forall i :: 0 <= i < z ==> u[i] == '1'
    ensures z <= WordRun(u) && WordRun(u[z..]) == WordRun(u) - z
    decreases z
  {
    if z == 0 {
      assert u[0..] == u;
    } else {
      assert WordRun(u) == 1 + WordRun(u[1..]);
      hide WordRun;
      assert u[1..][z - 1..] == u[z..];
      OnesInWord(u[1..], z - 1);
    }
  }

  lemma Slices(u: string, z: nat, n: nat)
    requires z <= n <= |u|
    ensures u[z..][..n - z] == u[..n][z..] && u[z..][n - z..] == u[n..]
    ensures forall i :: 0 <= i < n ==> u[..n][i] == u[i]
  {
  }

  lemma OnesInAlphabet(word: string, z: nat)
    requires z <= |word| && forall i :: 0 <= i < z ==> word[i] == '1'
    ensures InAlphabet(word) <==> InAlphabet(word[z..])
  {
    assert Index('1') == 0;
    hide Index;
    assert forall i :: z <= i < |word| ==> word[i] == word[z..][i - z];
  }

  /** Leading '1's followed by the rest of the word give its bytes. */
  lemma WordBytes(word: string, zeroes: nat)
    requires InAlphabet(word) && zeroes <= |word|
    requires (forall i :: 0 <= i < zeroes ==> word[i] == '1') && (zeroes < |word| ==> word[zeroes] != '1')
    ensures Value(Indices(word[zeroes..]), 58) >= 0
    ensures DecodeDigits(word) == Zeros(zeroes) + Canon(Value(Indices(word[zeroes..]), 58), 256)
  {
    var ds := Indices(word);
    assert ds == Zeros(zeroes) + Indices(word[zeroes..]);
    ValueIndices(word[zeroes..]);
    ValueLeading(zeroes, Indices(word[zeroes..]), 58);
    if zeroes < |word| { IndexLetter(word[zeroes]); }
    LeadingZerosOf(zeroes, Indices(word[zeroes..]));
  }
}
