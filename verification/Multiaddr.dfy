/**
 Multiaddresses: a list of protocols with their values, as text and as bytes. The
 conversions of `converter_utils.cpp` are modelled for any table of protocols with
 distinct names and codes.
 */
module Multiaddr {
  import opened Common
  import opened Varint
  import opened MultiaddrText
  import Base58

  datatype Protocol = Protocol(code: u64, size: int, name: Text)

  type Table = seq<Protocol>

  datatype Error = NoLeadingSlash | EmptyProtocol | NoSuchProtocol | EmptyAddress | InvalidAddress | NotImplemented

  /** Text and bytes of IP addresses of one family; the conversions belong to another library. */
  datatype IpText = IpText(show: seq<u8> -> Text, parse: Text -> Option<seq<u8>>)

  datatype Env = Env(table: Table, ip4: IpText, ip6: IpText)

  /** Addresses print as words, and are read back. */
  ghost predicate Faithful(ip: IpText, n: nat) {
    forall b: seq<u8> :: |b| == n ==>
      ip.parse(ip.show(b)) == Some(b) && ip.show(b) != [] && SLASH !in ip.show(b)
  }

  // ---- The table of protocols ------------------------------------------------------------

  function FindName(table: Table, name: Text): Option<Protocol> {
    if table == [] then None
    else if table[0].name == name then Some(table[0])
    else FindName(table[1..], name)
  }

  /** "ipfs" is a legacy name of "p2p". */
  function ByName(table: Table, name: Text): Option<Protocol> {
    FindName(table, if name == Ascii("ipfs") then Ascii("p2p") else name)
  }

  function ByCode(table: Table, code: u64): Option<Protocol> {
    if table == [] then None
    else if table[0].code == code then Some(table[0])
    else ByCode(table[1..], code)
  }

  ghost predicate WellFormed(table: Table) {
    && (forall p :: p in table ==> p.name != [] && SLASH !in p.name && p.name != Ascii("ipfs"))
    && (forall i, j :: 0 <= i < j < |table| ==> table[i].name != table[j].name && table[i].code != table[j].code)
  }

  /** In such a table each entry is the one found under its name and under its code. */
  lemma {:induction false} FindsOwn(table: Table, p: Protocol)
    requires WellFormed(table) && p in table
    ensures ByName(table, p.name) == Some(p) && ByCode(table, p.code) == Some(p)
  {
    if table[0] != p {
      var i :| 0 <= i < |table| && table[i] == p;
      assert table[0].name != table[i].name && table[0].code != table[i].code;
      assert p == table[1..][i - 1];
      FindsOwn(table[1..], p);
    }
  }

  // ---- Values -----------------------------------------------------------------------------

  const IP4 := 4
  const TCP := 6
  const IP6 := 41
  const DNS := 53
  const DNS4 := 54
  const DNS6 := 55
  const DNS_ADDR := 56
  const UDP := 273
  const UNIX := 400
  const P2P := 421
  const X_PARITY_WS := 4770
  const X_PARITY_WSS := 4780

  /** Codes that `addressToBytes` names only to refuse them. */
  predicate Refused(code: u64) {
    code in {42, 445, 446, 460, 477, 478, 479, 277, 276, 290}
  }

  datatype Kind = NoValue | Ip4 | Ip6 | Port | Peer | Host | Path | Other

  /** The kinds of value that both directions handle. */
  function KindOf(p: Protocol): Kind {
    if p.size == 0 then NoValue
    else if p.code == IP4 then Ip4
    else if p.code == IP6 then Ip6
    else if p.code == TCP || p.code == UDP then Port
    else if p.code == P2P then Peer
    else if p.code == DNS || p.code == DNS4 || p.code == DNS6 || p.code == DNS_ADDR then Host
    else if p.code == X_PARITY_WS || p.code == X_PARITY_WSS then Path
    else Other
  }

  function Prefixed(data: seq<u8>): seq<u8> { Encode(|data|) + data }

  function OrInvalid(o: Option<seq<u8>>): Result<seq<u8>, Error> {
    match o
    case Some(b) => Ok(b)
    case None => Err(InvalidAddress)
  }

  /** `addressToBytes`, called only for protocols that have a value. */
  function AddressToBytes(env: Env, p: Protocol, word: Text): Result<seq<u8>, Error> {
    match KindOf(p)
    case Ip4 => OrInvalid(env.ip4.parse(word))
    case Ip6 => OrInvalid(env.ip6.parse(word))
    case Port => OrInvalid(PortBytes(word))
    case Peer =>
      if word == [] then Err(InvalidAddress)
      else
        (match Base58.DecodeBytes(Chars(word))
         case Some(b) => Ok(Prefixed(b))
         case None => Err(InvalidAddress))
    case Host => Ok(Prefixed(word))
    case Path => Ok(Prefixed(PercentDecode(word)))
    case _ =>
      if p.code == UNIX then Ok(Prefixed(word))
      else if Refused(p.code) then Err(NotImplemented)
      else Err(NoSuchProtocol)
  }

  predicate HostChar(c: u8) { 48 <= c <= 57 || 65 <= c <= 90 || 97 <= c <= 122 || c == 45 || c == 46 }

  predicate HostName(data: seq<u8>) { forall i :: 0 <= i < |data| ==> HostChar(data[i]) }

  /** Text of a value that has been read. */
  function ValueText(env: Env, p: Protocol, data: seq<u8>): Text
    requires KindOf(p) == Port ==> |data| == 2
  {
    match KindOf(p)
    case Ip4 => env.ip4.show(data)
    case Ip6 => env.ip6.show(data)
    case Port => Decimal(data[0] as int * 256 + data[1] as int)
    case Peer => Ascii(Base58.Encode(data))
    case Host => data
    case Path => PercentEncode(data)
    case _ => []
  }

  /** Bytes of a fixed-size value; the others carry their length. */
  function FixedSize(k: Kind): Option<nat> {
    match k
    case Ip4 => Some(4)
    case Ip6 => Some(16)
    case Port => Some(2)
    case _ => None
  }

  /** A value cut off the front of the bytes: the value and the rest. */
  function TakeData(k: Kind, b: seq<u8>): Option<(seq<u8>, seq<u8>)> {
    match FixedSize(k)
    case Some(n) => if n > |b| then None else Some((b[..n], b[n..]))
    case None =>
      var m := SizeOf(b);
      if m == 0 then None
      else
        var n := Leb(b[..m]);
        if n > |b| - m then None else Some((b[m..m + n], b[m + n..]))
  }

  /** What one turn of the reading loop appends, and the bytes it leaves. */
  function TakeValue(env: Env, p: Protocol, b: seq<u8>): Result<(Text, seq<u8>), Error> {
    var k := KindOf(p);
    if k == NoValue then Ok(([], b))
    else if k == Other then Err(NotImplemented)
    else
      match TakeData(k, b)
      case None => Err(InvalidAddress)
      case Some((data, rest)) =>
        if k == Host && !HostName(data) then Err(InvalidAddress)
        else Ok(([SLASH] + ValueText(env, p, data), rest))
  }

  function Prepend(t: Text, r: Result<Text, Error>): Result<Text, Error> {
    match r
    case Ok(u) => Ok(t + u)
    case Err(e) => Err(e)
  }

  /** One protocol and its value from the front of the bytes. */
  function TakeOne(env: Env, b: seq<u8>): Result<(Text, seq<u8>), Error> {
    var k := SizeOf(b);
    if k == 0 then Err(InvalidAddress)
    else
      SizeOfIff(b, k);
      match ByCode(env.table, Leb(b[..k]))
      case None => Err(NoSuchProtocol)
      case Some(p) =>
        (match TakeValue(env, p, b[k..])
         case Err(e) => Err(e)
         case Ok((t, rest)) => Ok(([SLASH] + p.name + t, rest)))
  }

  lemma TakesSome(env: Env, b: seq<u8>)
    requires TakeOne(env, b).Ok?
    ensures |TakeOne(env, b).value.1| < |b|
  {
  }

  /** `bytesToMultiaddrString`. */
  function BytesToText(env: Env, b: seq<u8>): Result<Text, Error>
    decreases |b|
  {
    if b == [] then Ok([])
    else
      match TakeOne(env, b)
      case Err(e) => Err(e)
      case Ok((t, rest)) =>
        TakesSome(env, b);
        Prepend(t, BytesToText(env, rest))
  }

  // ---- Bytes appended to an address ------------------------------------------------------

  lemma SizeOfExtends(b: seq<u8>, tail: seq<u8>)
    requires SizeOf(b) > 0
    ensures var k := SizeOf(b); SizeOf(b + tail) == k && (b + tail)[..k] == b[..k] && (b + tail)[k..] == b[k..] + tail
  {
    var k := SizeOf(b);
    SizeOfIff(b, k);
    assert (b + tail)[..k] == b[..k];
    SizeOfIff(b + tail, k);
    hide SizeOf;
  }

  lemma TakeDataExtends(k: Kind, b: seq<u8>, tail: seq<u8>)
    requires TakeData(k, b).Some?
    ensures var (data, rest) := TakeData(k, b).value; TakeData(k, b + tail) == Some((data, rest + tail))
  {
    hide SizeOf, Leb;
    match FixedSize(k)
    case Some(n) => CutExtends(b, tail, 0, n);
    case None =>
      SizeOfExtends(b, tail);
      var m := SizeOf(b);
      CutExtends(b, tail, m, m + Leb(b[..m]));
  }

  lemma CutExtends(b: seq<u8>, tail: seq<u8>, i: nat, j: nat)
    requires i <= j <= |b|
    ensures (b + tail)[i..j] == b[i..j] && (b + tail)[j..] == b[j..] + tail && (b + tail)[..j] == b[..j]
  {
  }

  lemma TakeOneExtends(env: Env, b: seq<u8>, tail: seq<u8>)
    requires TakeOne(env, b).Ok?
    ensures var (t, rest) := TakeOne(env, b).value; TakeOne(env, b + tail) == Ok((t, rest + tail))
  {
    var k := SizeOf(b);
    assert 0 < k <= |b|;
    SizeOfIff(b, k);
    SizeOfExtends(b, tail);
    hide SizeOf, Leb, ByCode, TakeData;
    var p := ByCode(env.table, Leb(b[..k])).value;
    var kind := KindOf(p);
    if kind != NoValue {
      TakeDataExtends(kind, b[k..], tail);
    }
  }

  /**
   The text of two addresses put together is the two texts put together: for all bytes `b`
   that are an address, and any bytes after them.
   */
  lemma {:induction false} TextOfConcat(env: Env, b: seq<u8>, tail: seq<u8>)
    requires BytesToText(env, b).Ok?
    ensures BytesToText(env, b + tail) == Prepend(BytesToText(env, b).value, BytesToText(env, tail))
    decreases |b|
  {
    if b == [] {
      assert b + tail == tail;
      PrependNothing(BytesToText(env, tail));
    } else {
      var (t, rest) := TakeOne(env, b).value;
      TakesSome(env, b);
      TakeOneExtends(env, b, tail);
      TextOfConcat(env, rest, tail);
      hide TakeOne;
      PrependTwice(t, BytesToText(env, rest).value, BytesToText(env, tail));
    }
  }

  lemma PrependNothing(r: Result<Text, Error>)
    ensures Prepend([], r) == r
  {
    if r.Ok? { assert [] + r.value == r.value; }
  }

  lemma PrependTwice(t: Text, u: Text, r: Result<Text, Error>)
    ensures Prepend(t, Prepend(u, r)) == Prepend(t + u, r)
  {
    if r.Ok? { assert t + (u + r.value) == (t + u) + r.value; }
  }

  // ---- Lists of components ------------------------------------------------------------------

  datatype Component = Component(proto: Protocol, data: seq<u8>)

  /** Protocols of the table with values that the bytes can carry. */
  ghost predicate Carried(env: Env, c: Component) {
    && c.proto in env.table && |c.data| < WORD
    && match KindOf(c.proto)
       case NoValue => c.data == []
       case Ip4 => |c.data| == 4
       case Ip6 => |c.data| == 16
       case Port => |c.data| == 2
       case Peer => true
       case Host => HostName(c.data)
       case Path => true
       case Other => false
  }

  /** Those that the text can carry too: no value is empty. */
  ghost predicate Supported(env: Env, c: Component) {
    Carried(env, c) && (KindOf(c.proto) != NoValue ==> c.data != [])
  }

  function Payload(c: Component): seq<u8> {
    var k := KindOf(c.proto);
    if k == NoValue then [] else if FixedSize(k).Some? then c.data else Prefixed(c.data)
  }

  function Binary(c: Component): seq<u8> { Encode(c.proto.code) + Payload(c) }

  function Words(env: Env, c: Component): seq<Text>
    requires KindOf(c.proto) == Port ==> |c.data| == 2
  {
    [c.proto.name] + if KindOf(c.proto) == NoValue then [] else [ValueText(env, c.proto, c.data)]
  }

  ghost predicate AllCarried(env: Env, cs: seq<Component>) {
    forall i :: 0 <= i < |cs| ==> Carried(env, cs[i])
  }

  ghost predicate AllSupported(env: Env, cs: seq<Component>) {
    forall i :: 0 <= i < |cs| ==> Supported(env, cs[i])
  }

  function BinaryAll(cs: seq<Component>): seq<u8> {
    if cs == [] then [] else Binary(cs[0]) + BinaryAll(cs[1..])
  }

  function WordsAll(env: Env, cs: seq<Component>): seq<Text>
    requires forall i :: 0 <= i < |cs| && KindOf(cs[i].proto) == Port ==> |cs[i].data| == 2
  {
    if cs == [] then [] else Words(env, cs[0]) + WordsAll(env, cs[1..])
  }

  /** The text form: every word after a slash. */
  function TextAll(env: Env, cs: seq<Component>): Text
    requires forall i :: 0 <= i < |cs| && KindOf(cs[i].proto) == Port ==> |cs[i].data| == 2
  {
    Join(WordsAll(env, cs))
  }

  // ---- Reading the bytes of a list ------------------------------------------------------------

  lemma TakePayload(env: Env, c: Component, tail: seq<u8>)
    requires Carried(env, c)
    ensures TakeValue(env, c.proto, Payload(c) + tail) ==
            Ok((if KindOf(c.proto) == NoValue then [] else [SLASH] + ValueText(env, c.proto, c.data), tail))
  {
    var k := KindOf(c.proto);
    hide ValueText;
    if k == NoValue {
      assert [] + tail == tail;
    } else if FixedSize(k).Some? {
      TakeFixed(k, c.data, tail);
      hide TakeData;
    } else {
      TakePrefixed(k, c.data, tail);
      hide TakeData, Prefixed;
    }
  }

  lemma TakeFixed(k: Kind, data: seq<u8>, tail: seq<u8>)
    requires FixedSize(k) == Some(|data|)
    ensures TakeData(k, data + tail) == Some((data, tail))
  {
    assert (data + tail)[..|data|] == data && (data + tail)[|data|..] == tail;
  }

  lemma TakePrefixed(k: Kind, data: seq<u8>, tail: seq<u8>)
    requires FixedSize(k) == None && |data| < WORD
    ensures TakeData(k, Prefixed(data) + tail) == Some((data, tail))
  {
    var e := Encode(|data|);
    EncodeDecodes(|data|, data + tail);
    hide Encode, SizeOf, Leb;
    var b := Prefixed(data) + tail;
    PrefixCut(e, data, tail);
    assert b == e + (data + tail);
    assert FixedSize(k) == None;
    hide Prefixed, FixedSize;
  }

  lemma PrefixCut(e: seq<u8>, data: seq<u8>, tail: seq<u8>)
    ensures var b := e + (data + tail);
            && b == (e + data) + tail && b[|e|..|e| + |data|] == data && b[|e| + |data|..] == tail
  {
  }

  lemma JoinOne(env: Env, c: Component)
    requires KindOf(c.proto) == Port ==> |c.data| == 2
    ensures Join(Words(env, c)) ==
            [SLASH] + c.proto.name + if KindOf(c.proto) == NoValue then [] else [SLASH] + ValueText(env, c.proto, c.data)
  {
    hide ValueText;
    var ws := Words(env, c);
    if KindOf(c.proto) != NoValue {
      var more := ws[1..];
      assert |more| == 1 && more[0] == ws[1] && |more[1..]| == 0;
      assert Join(more) == [SLASH] + ws[1] + Join(more[1..]);
    }
  }

  lemma TakeBinary(env: Env, c: Component, tail: seq<u8>)
    requires WellFormed(env.table) && Carried(env, c)
    ensures TakeOne(env, Binary(c) + tail) == Ok((Join(Words(env, c)), tail))
  {
    var rest := Payload(c) + tail;
    var b := Encode(c.proto.code) + rest;
    assert Binary(c) + tail == b;
    EncodeDecodes(c.proto.code, rest);
    assert b[|Encode(c.proto.code)|..] == rest;
    FindsOwn(env.table, c.proto);
    TakePayload(env, c, tail);
    JoinOne(env, c);
    hide Encode, SizeOf, Leb, ByCode, ByName, WellFormed, ValueText, TakeValue, Payload, Join, KindOf;
  }

  /** The bytes of a list of components print as the text of that list. */
  lemma {:induction false} BytesPrint(env: Env, cs: seq<Component>)
    requires WellFormed(env.table) && AllCarried(env, cs)
    ensures BytesToText(env, BinaryAll(cs)) == Ok(TextAll(env, cs))
  {
    if cs != [] {
      var c, rest := cs[0], cs[1..];
      BytesPrint(env, rest);
      TakeBinary(env, c, BinaryAll(rest));
      JoinConcat(Words(env, c), WordsAll(env, rest));
      BinaryNotEmpty(c);
      hide Binary, Words, TakeOne, Join, WellFormed;
    }
  }

  lemma BinaryNotEmpty(c: Component)
    ensures Binary(c) != []
  {
  }

  // ---- Parsing text -----------------------------------------------------------------------------

  function PrependBytes(b: seq<u8>, r: Result<seq<u8>, Error>): Result<seq<u8>, Error> {
    match r
    case Ok(c) => Ok(b + c)
    case Err(e) => Err(e)
  }

  /** The words in turn; `pending` is the protocol whose value comes next, if any. */
  function ParseWords(env: Env, words: seq<Text>, pending: Option<Protocol>): Result<seq<u8>, Error> {
    if words == [] then if pending.Some? then Err(EmptyAddress) else Ok([])
    else
      var word, rest := words[0], words[1..];
      match pending
      case None =>
        if word == [] then Err(EmptyProtocol)
        else
          (match ByName(env.table, word)
           case None => Err(NoSuchProtocol)
           case Some(p) => PrependBytes(Encode(p.code), ParseWords(env, rest, if p.size != 0 then Some(p) else None)))
      case Some(p) =>
        if word == [] then Err(EmptyAddress)
        else
          match AddressToBytes(env, p, word)
          case Err(e) => Err(e)
          case Ok(b) => PrependBytes(b, ParseWords(env, rest, None))
  }

  /** `multiaddrToBytes`. */
  function TextToBytes(env: Env, t: Text): Result<seq<u8>, Error> {
    if t == [] || t[0] != SLASH then Err(NoLeadingSlash)
    else
      var u := t[1..];
      if u == [] then Err(EmptyProtocol)
      else ParseWords(env, Split(if u[|u| - 1] == SLASH then u[..|u| - 1] else u), None)
  }

  ghost predicate IpFaithful(env: Env) { Faithful(env.ip4, 4) && Faithful(env.ip6, 16) }

  /** The text of a value is a word, and gives the value back. */
  lemma ValueWord(env: Env, c: Component)
    requires IpFaithful(env) && Supported(env, c) && KindOf(c.proto) != NoValue
    ensures var w := ValueText(env, c.proto, c.data);
            w != [] && SLASH !in w && AddressToBytes(env, c.proto, w) == Ok(Payload(c))
  {
    hide Encode, Base58.Encode, Base58.DecodeBytes, PercentEncode, PercentDecode, Decimal, PortBytes, Ascii, Chars;
    match KindOf(c.proto)
    case Ip4 => assert |c.data| == 4;
    case Ip6 => assert |c.data| == 16;
    case Port => PortRoundTrip(c.data[0], c.data[1]); assert c.data == [c.data[0], c.data[1]];
    case Peer => PeerWord(c.data);
    case Host =>
    case Path => EscapesUndone(c.data); EscapedWord(c.data);
  }

  ghost predicate Wordlike(w: Text) { w != [] && SLASH !in w }

  lemma ParseOne(env: Env, c: Component, rest: seq<Text>)
    requires WellFormed(env.table) && IpFaithful(env) && Supported(env, c)
    ensures ParseWords(env, Words(env, c) + rest, None) == PrependBytes(Binary(c), ParseWords(env, rest, None))
    ensures forall i :: 0 <= i < |Words(env, c)| ==> Wordlike(Words(env, c)[i])
  {
    hide WellFormed, IpFaithful, Encode, ParseWords, ByName, AddressToBytes, ValueText;
    var p := c.proto;
    FindsOwn(env.table, p);
    NameIsWord(env.table, p);
    if p.size == 0 {
      assert Words(env, c) == [p.name] && Binary(c) == Encode(p.code);
      ParseBare(env, p.name, p, rest);
    } else {
      ParseValue(env, c, rest);
    }
  }

  lemma NameIsWord(table: Table, p: Protocol)
    requires WellFormed(table) && p in table
    ensures Wordlike(p.name)
  {
  }

  lemma ParseValue(env: Env, c: Component, rest: seq<Text>)
    requires IpFaithful(env) && Supported(env, c) && c.proto.size != 0
    requires ByName(env.table, c.proto.name) == Some(c.proto) && Wordlike(c.proto.name)
    ensures ParseWords(env, Words(env, c) + rest, None) == PrependBytes(Binary(c), ParseWords(env, rest, None))
    ensures forall i :: 0 <= i < |Words(env, c)| ==> Wordlike(Words(env, c)[i])
  {
    WordsOfValue(env, c);
    var p, w := c.proto, ValueText(env, c.proto, c.data);
    hide *;
    ValueWord(env, c);
    assert Wordlike(w) by { WordOf(w); }
    ParsePair(env, p.name, p, w, Payload(c), rest);
    BinaryOf(c);
  }

  lemma WordsOfValue(env: Env, c: Component)
    requires Carried(env, c) && c.proto.size != 0
    ensures KindOf(c.proto) != NoValue && (KindOf(c.proto) == Port ==> |c.data| == 2)
    ensures Words(env, c) == [c.proto.name, ValueText(env, c.proto, c.data)]
  {
    hide ValueText, HostName;
  }

  lemma WordOf(w: Text)
    requires w != [] && SLASH !in w
    ensures Wordlike(w)
  {
  }

  lemma BinaryOf(c: Component)
    ensures Binary(c) == Encode(c.proto.code) + Payload(c)
  {
  }

  lemma ParseBare(env: Env, name: Text, p: Protocol, rest: seq<Text>)
    requires ByName(env.table, name) == Some(p) && name != [] && p.size == 0
    ensures ParseWords(env, [name] + rest, None) == PrependBytes(Encode(p.code), ParseWords(env, rest, None))
  {
    hide Encode, ByName, AddressToBytes;
    assert ([name] + rest)[1..] == rest;
  }

  lemma ParsePair(env: Env, name: Text, p: Protocol, w: Text, b: seq<u8>, rest: seq<Text>)
    requires ByName(env.table, name) == Some(p) && name != [] && p.size != 0
    requires w != [] && AddressToBytes(env, p, w) == Ok(b)
    ensures ParseWords(env, [name, w] + rest, None) == PrependBytes(Encode(p.code) + b, ParseWords(env, rest, None))
  {
    hide Encode, ByName, AddressToBytes;
    var words, tail := [name, w] + rest, ParseWords(env, rest, None);
    var more := words[1..];
    assert more[0] == w && more[1..] == rest;
    assert ParseWords(env, more, Some(p)) == PrependBytes(b, tail);
    PrependBytesTwice(Encode(p.code), b, tail);
  }

  lemma PrependBytesTwice(a: seq<u8>, b: seq<u8>, r: Result<seq<u8>, Error>)
    ensures PrependBytes(a, PrependBytes(b, r)) == PrependBytes(a + b, r)
  {
    if r.Ok? { assert a + (b + r.value) == (a + b) + r.value; }
  }

  lemma {:induction false} ParseAll(env: Env, cs: seq<Component>)
    requires WellFormed(env.table) && IpFaithful(env) && AllSupported(env, cs)
    ensures ParseWords(env, WordsAll(env, cs), None) == Ok(BinaryAll(cs))
    ensures forall i :: 0 <= i < |WordsAll(env, cs)| ==> Wordlike(WordsAll(env, cs)[i])
    ensures cs != [] ==> WordsAll(env, cs) != []
  {
    if cs != [] {
      ParseAll(env, cs[1..]);
      ParseOne(env, cs[0], WordsAll(env, cs[1..]));
      hide Words, Binary, WellFormed, IpFaithful, Wordlike;
    }
  }

  /** The text of a list of components is parsed to the bytes of that list. */
  lemma TextParses(env: Env, cs: seq<Component>)
    requires WellFormed(env.table) && IpFaithful(env) && AllSupported(env, cs) && cs != []
    ensures TextToBytes(env, TextAll(env, cs)) == Ok(BinaryAll(cs))
  {
    ParseAll(env, cs);
    var words := WordsAll(env, cs);
    hide *;
    JoinedParse(env, words);
  }

  lemma JoinedParse(env: Env, words: seq<Text>)
    requires words != [] && forall i :: 0 <= i < |words| ==> Wordlike(words[i])
    ensures TextToBytes(env, Join(words)) == ParseWords(env, words, None)
  {
    hide ParseWords, Split, Join;
    JoinLast(words);
    SplitJoin(words);
  }

  /** Text and bytes of every non-empty list of supported components undo each other. */
  lemma RoundTrips(env: Env, cs: seq<Component>)
    requires WellFormed(env.table) && IpFaithful(env) && AllSupported(env, cs) && cs != []
    ensures BytesToText(env, BinaryAll(cs)) == Ok(TextAll(env, cs))
    ensures TextToBytes(env, TextAll(env, cs)) == Ok(BinaryAll(cs))
    ensures TextToBytes(env, BytesToText(env, BinaryAll(cs)).value) == Ok(BinaryAll(cs))
    ensures BytesToText(env, TextToBytes(env, TextAll(env, cs)).value) == Ok(TextAll(env, cs))
  {
    BytesPrint(env, cs);
    TextParses(env, cs);
    hide *;
  }

  // ---- When the parsed bytes print again ----------------------------------------------------------

  /** The parsers of the other library return addresses of their family's size. */
  ghost predicate IpSized(env: Env) {
    && (forall t: Text :: env.ip4.parse(t).Some? ==> |env.ip4.parse(t).value| == 4)
    && (forall t: Text :: env.ip6.parse(t).Some? ==> |env.ip6.parse(t).value| == 16)
  }

  /** A value that parses, and whose bytes print. */
  ghost predicate Printable(p: Protocol, word: Text) {
    KindOf(p) != Other && (KindOf(p) == Host ==> HostName(word))
  }

  /** The same of every value among the words. */
  ghost predicate AllPrintable(env: Env, words: seq<Text>, pending: Option<Protocol>) {
    if words == [] then true
    else
      match pending
      case None =>
        (match ByName(env.table, words[0])
         case None => false
         case Some(p) => AllPrintable(env, words[1..], if p.size != 0 then Some(p) else None))
      case Some(p) => Printable(p, words[0]) && AllPrintable(env, words[1..], None)
  }

  lemma ParsedValue(env: Env, p: Protocol, word: Text, tail: seq<u8>)
    requires IpSized(env) && p.size != 0 && |word| < WORD && AddressToBytes(env, p, word).Ok?
    ensures var v := AddressToBytes(env, p, word).value; var r := TakeValue(env, p, v + tail);
            if Printable(p, word) then r.Ok? && r.value.1 == tail else r.Err?
  {
    var k, v := KindOf(p), AddressToBytes(env, p, word).value;
    hide ValueText, TakeData, Prefixed, Base58.DecodeBytes, PercentDecode;
    match k
    case Peer =>
      ShorterBytes(Chars(word));
      TakePrefixed(k, Base58.DecodeBytes(Chars(word)).value, tail);
    case Host => TakePrefixed(k, word, tail);
    case Path =>
      DecodedShorter(word);
      TakePrefixed(k, PercentDecode(word), tail);
    case Ip4 => TakeFixed(k, v, tail);
    case Ip6 => TakeFixed(k, v, tail);
    case Port => TakeFixed(k, v, tail);
    case Other =>
  }

  lemma ByNameInTable(table: Table, name: Text)
    requires ByName(table, name).Some?
    ensures ByName(table, name).value in table
  {
    FoundInTable(table, if name == Ascii("ipfs") then Ascii("p2p") else name);
  }

  lemma {:induction false} FoundInTable(table: Table, name: Text)
    requires FindName(table, name).Some?
    ensures FindName(table, name).value in table
  {
    if table[0].name != name { FoundInTable(table[1..], name); }
  }

  /** One protocol with the bytes of its value, as `multiaddrToBytes` writes them. */
  lemma TakeParsed(env: Env, p: Protocol, value: seq<u8>, tail: seq<u8>)
    requires WellFormed(env.table) && p in env.table
    ensures var r, one := TakeValue(env, p, value + tail), TakeOne(env, Encode(p.code) + value + tail);
            one.Ok? == r.Ok? && (r.Ok? ==> one.value.1 == r.value.1)
  {
    var rest := value + tail;
    EncodeDecodes(p.code, rest);
    FindsOwn(env.table, p);
    hide Encode, SizeOf, Leb, ByCode, ByName, WellFormed, TakeValue;
    assert Encode(p.code) + value + tail == Encode(p.code) + rest;
    assert (Encode(p.code) + rest)[|Encode(p.code)|..] == rest;
  }

  /**
   `create` from text asserts that the bytes it has parsed print. They do exactly when every
   host name is made of letters, digits, hyphens and dots, and no value is of a kind that
   only the parser knows, such as a unix path.
   */
  lemma {:induction false} PrintsIff(env: Env, words: seq<Text>)
    requires WellFormed(env.table) && IpSized(env) && ParseWords(env, words, None).Ok?
    requires forall i :: 0 <= i < |words| ==> |words[i]| < WORD
    ensures BytesToText(env, ParseWords(env, words, None).value).Ok? <==> AllPrintable(env, words, None)
    decreases |words|
  {
    if words != [] {
      var p := ByName(env.table, words[0]).value;
      if p.size == 0 {
        PrintsIff(env, words[1..]);
        PrintsBare(env, p, words);
      } else {
        var rest := words[1..];
        assert rest != [];
        assert words[2..] == rest[1..];
        PrintsIff(env, words[2..]);
        PrintsValue(env, p, words);
      }
      hide *;
    }
  }

  lemma PrintsBare(env: Env, p: Protocol, words: seq<Text>)
    requires WellFormed(env.table) && words != [] && words[0] != [] && ByName(env.table, words[0]) == Some(p) && p.size == 0
    requires ParseWords(env, words[1..], None).Ok?
    requires BytesToText(env, ParseWords(env, words[1..], None).value).Ok? <==> AllPrintable(env, words[1..], None)
    ensures ParseWords(env, words, None).Ok?
    ensures BytesToText(env, ParseWords(env, words, None).value).Ok? <==> AllPrintable(env, words, None)
  {
    var tail := ParseWords(env, words[1..], None).value;
    assert ParseWords(env, words, None) == Ok(Encode(p.code) + tail);
    assert AllPrintable(env, words, None) == AllPrintable(env, words[1..], None);
    ByNameInTable(env.table, words[0]);
    hide *;
    NoValueTaken(env, p, tail);
    TakeParsed(env, p, [], tail);
    assert Encode(p.code) + [] == Encode(p.code);
    PrintsStep(env, Encode(p.code), tail);
  }

  lemma PrintsValue(env: Env, p: Protocol, words: seq<Text>)
    requires WellFormed(env.table) && IpSized(env) && |words| >= 2 && words[0] != [] && words[1] != [] && |words[1]| < WORD
    requires ByName(env.table, words[0]) == Some(p) && p.size != 0
    requires AddressToBytes(env, p, words[1]).Ok? && ParseWords(env, words[2..], None).Ok?
    requires BytesToText(env, ParseWords(env, words[2..], None).value).Ok? <==> AllPrintable(env, words[2..], None)
    ensures ParseWords(env, words, None).Ok?
    ensures BytesToText(env, ParseWords(env, words, None).value).Ok? <==> AllPrintable(env, words, None)
  {
    var name, word, later := words[0], words[1], words[2..];
    var value, tail := AddressToBytes(env, p, word).value, ParseWords(env, later, None).value;
    var head := Encode(p.code) + value;
    assert words == [name, word] + later && head != [];
    PrependOk(head, tail);
    hide *;
    ParsePair(env, name, p, word, value, later);
    PrintablePair(env, name, p, word, later);
    ByNameInTable(env.table, name);
    ParsedValue(env, p, word, tail);
    TakeParsed(env, p, value, tail);
    Regroup(Encode(p.code), value, tail);
    PrintsStep(env, head, tail);
  }

  lemma PrependOk(head: seq<u8>, tail: seq<u8>)
    ensures PrependBytes(head, Ok(tail)) == Ok(head + tail)
  {
  }

  lemma PrintablePair(env: Env, name: Text, p: Protocol, w: Text, rest: seq<Text>)
    requires ByName(env.table, name) == Some(p) && p.size != 0
    ensures AllPrintable(env, [name, w] + rest, None) == (Printable(p, w) && AllPrintable(env, rest, None))
  {
    hide ByName, Printable;
    var words := [name, w] + rest;
    var more := words[1..];
    assert more[0] == w && more[1..] == rest;
    assert AllPrintable(env, more, Some(p)) == (Printable(p, w) && AllPrintable(env, rest, None));
  }

  lemma NoValueTaken(env: Env, p: Protocol, tail: seq<u8>)
    requires p.size == 0
    ensures TakeValue(env, p, [] + tail) == Ok(([], tail))
  {
    assert [] + tail == tail;
  }

  lemma PrintsStep(env: Env, head: seq<u8>, tail: seq<u8>)
    requires head != [] && (TakeOne(env, head + tail).Ok? ==> TakeOne(env, head + tail).value.1 == tail)
    ensures BytesToText(env, head + tail).Ok? <==> TakeOne(env, head + tail).Ok? && BytesToText(env, tail).Ok?
  {
  }

  /** The words `multiaddrToBytes` sees. */
  function WordsOf(t: Text): seq<Text> {
    if t == [] then [[]]
    else
      var u := t[1..];
      Split(if u != [] && u[|u| - 1] == SLASH then u[..|u| - 1] else u)
  }

  /** Concretely: a host name with an underscore parses and does not print. */
  lemma UnderscoreFails(env: Env, p: Protocol)
    requires WellFormed(env.table) && IpSized(env) && p in env.table && KindOf(p) == Host
    ensures var t := Join([p.name, [95]]);
            TextToBytes(env, t).Ok? && BytesToText(env, TextToBytes(env, t).value).Err?
  {
    var words := [p.name, [95]];
    var t := Join(words);
    SplitJoin(words);
    JoinLast(words);
    FindsOwn(env.table, p);
    NotPrintable(env, p);
    hide Join, Split, WellFormed, IpSized, ByName;
    assert t[1..][|t| - 2] == t[|t| - 1];
    assert TextToBytes(env, t) == ParseWords(env, words, None);
  }

  lemma NotPrintable(env: Env, p: Protocol)
    requires WellFormed(env.table) && IpSized(env) && p in env.table && KindOf(p) == Host
    ensures var words := [p.name, [95]];
            ParseWords(env, words, None).Ok? && BytesToText(env, ParseWords(env, words, None).value).Err?
  {
    var words: seq<Text> := [p.name, [95]];
    FindsOwn(env.table, p);
    assert |words[2..]| == 0 && words[1] == [95] && words[0] == p.name;
    assert !HostName([95]) by { assert !HostChar([95][0]); }
    assert AddressToBytes(env, p, [95]).Ok? && !Printable(p, [95]);
    var rest := words[1..];
    assert rest[0] == [95] && rest[1..] == words[2..];
    assert !AllPrintable(env, rest, Some(p));
    PrintsValue(env, p, words);
  }

  // ---- The loops ---------------------------------------------------------------------------------

  /** `ProtocolList::get`. */
  method GetByName(table: Table, name: Text) returns (r: Option<Protocol>)
    ensures r == ByName(table, name)
  {
    var key := name;
    if name == Ascii("ipfs") {
      key := Ascii("p2p");
    }
    var i := 0;
    assert table[0..] == table;
    while i < |table|
      invariant i <= |table| && FindName(table, key) == FindName(table[i..], key)
    {
      assert table[i..][0] == table[i] && table[i..][1..] == table[i + 1..];
      if table[i].name == key {
        return Some(table[i]);
      }
      i := i + 1;
    }
    return None;
  }

  method GetByCode(table: Table, code: u64) returns (r: Option<Protocol>)
    ensures r == ByCode(table, code)
  {
    var i := 0;
    assert table[0..] == table;
    while i < |table|
      invariant i <= |table| && ByCode(table, code) == ByCode(table[i..], code)
    {
      assert table[i..][0] == table[i] && table[i..][1..] == table[i + 1..];
      if table[i].code == code {
        return Some(table[i]);
      }
      i := i + 1;
    }
    return None;
  }

  /** `DnsConverter::addressToBytes`, and the end of `IpfsConverter::addressToBytes`. */
  method PrefixedBytes(data: seq<u8>) returns (b: seq<u8>)
    ensures b == Prefixed(data)
  {
    hide Encode;
    b := AppendVarint([], |data|);
    b := b + data;
  }

  /** `IpfsConverter::addressToBytes`; the multibase codec refuses an empty text. */
  method PeerBytes(word: Text) returns (r: Result<seq<u8>, Error>)
    ensures r == if word == [] then Err(InvalidAddress)
                 else match Base58.DecodeBytes(Chars(word))
                      case Some(b) => Ok(Prefixed(b))
                      case None => Err(InvalidAddress)
  {
    if word == [] {
      return Err(InvalidAddress);
    }
    hide Prefixed;
    var decoded := Base58.DecodeImpl(Chars(word));
    if decoded.None? {
      return Err(InvalidAddress);
    }
    hide Base58.DecodeText;
    var b := PrefixedBytes(decoded.value);
    return Ok(b);
  }

  /** `TcpConverter::addressToBytes`; `stoi` gives the value of the digits, or throws when it is too large. */
  method PortOf(word: Text) returns (r: Option<seq<u8>>)
    ensures r == PortBytes(word)
  {
    var i := 0;
    while i < |word|
      invariant i <= |word| && forall j :: 0 <= j < i ==> 48 <= word[j] <= 57
    {
      if !(48 <= word[i] <= 57) {
        return None;
      }
      i := i + 1;
    }
    if word == [] {
      return None;
    }
    var port := Number(word);
    if 0 <= port <= 65535 {
      return Some([port / 256, port % 256]);
    }
    return None;
  }

  method AddressBytes(env: Env, p: Protocol, word: Text) returns (r: Result<seq<u8>, Error>)
    requires p.size != 0
    ensures r == AddressToBytes(env, p, word)
  {
    hide Prefixed, Base58.DecodeBytes, PercentDecode, PortBytes;
    var c := p.code;
    if c == IP4 {
      return OrInvalid(env.ip4.parse(word));
    } else if c == IP6 {
      return OrInvalid(env.ip6.parse(word));
    } else if c == TCP || c == UDP {
      var port := PortOf(word);
      return OrInvalid(port);
    } else if c == P2P {
      r := PeerBytes(word);
    } else if c == DNS || c == DNS4 || c == DNS6 || c == DNS_ADDR || c == UNIX {
      var b := PrefixedBytes(word);
      return Ok(b);
    } else if c == X_PARITY_WS || c == X_PARITY_WSS {
      var decoded := PercentDecodeAll(word);
      var b := PrefixedBytes(decoded);
      return Ok(b);
    } else if Refused(c) {
      return Err(NotImplemented);
    } else {
      return Err(NoSuchProtocol);
    }
  }

  method MultiaddrToBytes(env: Env, t: Text) returns (r: Result<seq<u8>, Error>)
    ensures r == TextToBytes(env, t)
  {
    if t == [] || t[0] != SLASH {
      return Err(NoLeadingSlash);
    }
    var str := t[1..];
    if str == [] {
      return Err(EmptyProtocol);
    }
    if str[|str| - 1] == SLASH {
      str := str[..|str| - 1];
    }
    var tokens := Split(str);
    r := ParseTokens(env, tokens);
  }

  method ParseTokens(env: Env, tokens: seq<Text>) returns (r: Result<seq<u8>, Error>)
    ensures r == ParseWords(env, tokens, None)
  {
    hide Encode, ByName, AddressToBytes;
    var processed: seq<u8> := [];
    var protx: Option<Protocol> := None;
    var i := 0;
    assert tokens[0..] == tokens;
    assert ParseWords(env, tokens, None) == PrependBytes([], ParseWords(env, tokens, None)) by {
      PrependNoBytes(ParseWords(env, tokens, None));
    }
    while i < |tokens|
      invariant i <= |tokens| && (protx.Some? ==> protx.value.size != 0)
      invariant ParseWords(env, tokens, None) == PrependBytes(processed, ParseWords(env, tokens[i..], protx))
    {
      var word := tokens[i];
      assert tokens[i..][0] == word && tokens[i..][1..] == tokens[i + 1..];
      ghost var later := tokens[i + 1..];
      if protx.None? {
        if word == [] {
          return Err(EmptyProtocol);
        }
        var p := GetByName(env.table, word);
        if p.None? {
          return Err(NoSuchProtocol);
        }
        protx := if p.value.size != 0 then p else None;
        PrependBytesTwice(processed, Encode(p.value.code), ParseWords(env, later, protx));
        processed := AppendVarint(processed, p.value.code);
      } else {
        if word == [] {
          return Err(EmptyAddress);
        }
        var bytes := AddressBytes(env, protx.value, word);
        if bytes.Err? {
          return bytes;
        }
        PrependBytesTwice(processed, bytes.value, ParseWords(env, later, None));
        processed := processed + bytes.value;
        protx := None;
      }
      i := i + 1;
    }
    assert tokens[i..] == [] && processed + [] == processed;
    if protx.Some? {
      return Err(EmptyAddress);
    }
    return Ok(processed);
  }

  lemma PrependNoBytes(r: Result<seq<u8>, Error>)
    ensures PrependBytes([], r) == r
  {
    if r.Ok? { assert [] + r.value == r.value; }
  }

  method BytesToMultiaddrString(env: Env, bytes: seq<u8>) returns (r: Result<Text, Error>)
    ensures r == BytesToText(env, bytes)
  {
    hide TakeOne;
    var results: Text := [];
    var b := bytes;
    PrependNothing(BytesToText(env, bytes));
    while b != []
      invariant BytesToText(env, bytes) == Prepend(results, BytesToText(env, b))
      decreases |b|
    {
      var one := ReadOne(env, b);
      if one.Err? {
        return Err(one.error);
      }
      TakesSome(env, b);
      PrependTwice(results, one.value.0, BytesToText(env, one.value.1));
      results := results + one.value.0;
      b := one.value.1;
    }
    assert results + [] == results;
    return Ok(results);
  }

  /** The lambda `read_uvar`: a length and that many bytes. */
  method ReadPrefixed(k: Kind, b: seq<u8>) returns (r: Option<(seq<u8>, seq<u8>)>)
    requires FixedSize(k) == None
    ensures r == TakeData(k, b)
  {
    var m := CalculateSize(b);
    if m == 0 {
      return None;
    }
    SizeOfIff(b, m);
    hide SizeOf, Leb;
    var n := ToUInt64(b[..m]);
    if n > |b| - m {
      return None;
    }
    return Some((b[m..m + n], b[m + n..]));
  }

  /** The lambda `read`: a fixed number of bytes. */
  method ReadFixed(k: Kind, n: nat, b: seq<u8>) returns (r: Option<(seq<u8>, seq<u8>)>)
    requires FixedSize(k) == Some(n)
    ensures r == TakeData(k, b)
  {
    if n > |b| {
      return None;
    }
    return Some((b[..n], b[n..]));
  }

  method IsHostName(data: seq<u8>) returns (ok: bool)
    ensures ok == HostName(data)
  {
    var i := 0;
    while i < |data|
      invariant i <= |data| && forall j :: 0 <= j < i ==> HostChar(data[j])
    {
      if !HostChar(data[i]) {
        return false;
      }
      i := i + 1;
    }
    return true;
  }

  /** What the switch of the loop reads for each protocol with a value. */
  method ReadData(p: Protocol, b: seq<u8>) returns (r: Option<(seq<u8>, seq<u8>)>)
    requires KindOf(p) != NoValue && KindOf(p) != Other
    ensures r == TakeData(KindOf(p), b)
  {
    hide TakeData;
    var k, c := KindOf(p), p.code;
    if c == IP4 {
      r := ReadFixed(k, 4, b);
    } else if c == IP6 {
      r := ReadFixed(k, 16, b);
    } else if c == TCP || c == UDP {
      r := ReadFixed(k, 2, b);
    } else {
      r := ReadPrefixed(k, b);
    }
  }

  /** And what it writes. */
  method ShowValue(env: Env, p: Protocol, data: seq<u8>) returns (text: Text)
    requires KindOf(p) != NoValue && KindOf(p) != Other && (KindOf(p) == Port ==> |data| == 2)
    ensures text == ValueText(env, p, data)
  {
    hide Base58.Encode, PercentEncode, Decimal;
    var c := p.code;
    if c == IP4 {
      text := env.ip4.show(data);
    } else if c == IP6 {
      text := env.ip6.show(data);
    } else if c == TCP || c == UDP {
      text := Decimal(data[0] as int * 256 + data[1] as int);
    } else if c == P2P {
      var word := Base58.EncodeImpl(data);
      text := Ascii(word);
    } else if c == X_PARITY_WS || c == X_PARITY_WSS {
      text := PercentEncodeInto([], data);
      assert [] + PercentEncode(data) == PercentEncode(data);
    } else {
      text := data;
    }
  }

  method ReadValue(env: Env, p: Protocol, b: seq<u8>) returns (r: Result<(Text, seq<u8>), Error>)
    ensures r == TakeValue(env, p, b)
  {
    var k := KindOf(p);
    TakenSize(k, b);
    assert k == Port ==> FixedSize(k) == Some(2);
    hide TakeData, HostName, ValueText, KindOf, FixedSize;
    if k == NoValue {
      return Ok(([], b));
    }
    if k == Other {
      return Err(NotImplemented);
    }
    var taken := ReadData(p, b);
    if taken.None? {
      return Err(InvalidAddress);
    }
    var data := taken.value.0;
    if k == Host {
      var ok := IsHostName(data);
      if !ok {
        return Err(InvalidAddress);
      }
    }
    var text := ShowValue(env, p, data);
    return Ok(([SLASH] + text, taken.value.1));
  }

  lemma TakenSize(k: Kind, b: seq<u8>)
    ensures TakeData(k, b).Some? && FixedSize(k).Some? ==> |TakeData(k, b).value.0| == FixedSize(k).value
  {
  }

  /** One turn of the loop. */
  method ReadOne(env: Env, b: seq<u8>) returns (r: Result<(Text, seq<u8>), Error>)
    ensures r == TakeOne(env, b)
  {
    var k := CalculateSize(b);
    if k == 0 {
      return Err(InvalidAddress);
    }
    assert k <= |b|;
    SizeOfIff(b, k);
    hide SizeOf, ByCode, TakeValue, Leb;
    var code := ToUInt64(b[..k]);
    var p := GetByCode(env.table, code);
    if p.None? {
      return Err(NoSuchProtocol);
    }
    var value := ReadValue(env, p.value, b[k..]);
    if value.Err? {
      return Err(value.error);
    }
    return Ok(([SLASH] + p.value.name + value.value.0, value.value.1));
  }

  // ---- The class -----------------------------------------------------------------------------------

  class Multiaddress {
    const env: Env
    var text: Text
    var bytes: seq<u8>

    /** The two stored forms are of the same address. */
    ghost predicate Valid()
      reads this
    {
      BytesToText(env, bytes) == Ok(text)
    }

    constructor (env: Env, text: Text, bytes: seq<u8>)
      requires BytesToText(env, bytes) == Ok(text)
      ensures Valid() && this.env == env && this.text == text && this.bytes == bytes
    {
      this.env, this.text, this.bytes := env, text, bytes;
    }

    /** Also of an address in itself, where the model copies the bytes before it inserts them. */
    method Encapsulate(other: Multiaddress)
      requires Valid() && other.Valid() && env == other.env
      modifies this
      ensures Valid() && text == old(text) + old(other.text) && bytes == old(bytes) + old(other.bytes)
    {
      TextOfConcat(env, bytes, other.bytes);
      hide BytesToText;
      var otherBytes := other.bytes;
      text := text + other.text;
      bytes := bytes + otherBytes;
    }
  }

  /** What `create` from text does: an error, an address, or a failed assertion. */
  datatype Creation = Refusal(error: Error) | Made(address: Multiaddress) | AssertionFails

  method CreateFromText(env: Env, t: Text) returns (r: Creation)
    ensures match TextToBytes(env, t)
            case Err(e) => r == Refusal(e)
            case Ok(b) =>
              if BytesToText(env, b).Ok? then
                r.Made? && fresh(r.address) && r.address.Valid() && r.address.env == env && r.address.bytes == b
              else r == AssertionFails
    ensures WellFormed(env.table) && IpSized(env) && TextToBytes(env, t).Ok? && |t| < WORD ==>
              (r.Made? <==> AllPrintable(env, WordsOf(t), None))
  {
    if TextToBytes(env, t).Ok? && WellFormed(env.table) && IpSized(env) && |t| < WORD {
      ShortWords(t);
      PrintsIff(env, WordsOf(t));
    }
    hide BytesToText, WordsOf, AllPrintable, WellFormed, IpSized, TextToBytes;
    var bytes := MultiaddrToBytes(env, t);
    if bytes.Err? {
      return Refusal(bytes.error);
    }
    var str := BytesToMultiaddrString(env, bytes.value);
    if str.Err? {
      return AssertionFails;
    }
    var m := new Multiaddress(env, str.value, bytes.value);
    return Made(m);
  }

  lemma ShortWords(t: Text)
    ensures forall i :: 0 <= i < |WordsOf(t)| ==> |WordsOf(t)[i]| <= |t|
  {
    if t != [] {
      var u := t[1..];
      SplitShorter(if u != [] && u[|u| - 1] == SLASH then u[..|u| - 1] else u);
    }
  }

  /** `create` from bytes. */
  method CreateFromBytes(env: Env, bytes: seq<u8>) returns (r: Option<Multiaddress>)
    ensures r.Some? <==> BytesToText(env, bytes).Ok?
    ensures r.Some? ==> fresh(r.value) && r.value.Valid() && r.value.env == env && r.value.bytes == bytes
  {
    var t := BytesToMultiaddrString(env, bytes);
    if t.Err? {
      return None;
    }
    var m := new Multiaddress(env, t.value, bytes);
    return Some(m);
  }
}
