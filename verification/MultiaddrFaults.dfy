/** Which words are read as values, which texts are refused, and for what reason. */
module MultiaddrFaults {
  import opened Common
  import opened Varint
  import opened MultiaddrText
  import opened Multiaddr
  import Base58

  /** A value of its kind as a user may write it. */
  ghost predicate Denotes(env: Env, p: Protocol, w: Text, data: seq<u8>) {
    match KindOf(p)
    case Ip4 => env.ip4.parse(w) == Some(data)
    case Ip6 => env.ip6.parse(w) == Some(data)
    case Port => |data| == 2 && Numeral(w, data[0] as int * 256 + data[1] as int)
    case Peer => w != [] && Base58.Surrounded(Chars(w), Base58.Encode(data))
    case Host => w == data
    case Path => PercentDecode(w) == data
    case _ => p.code == UNIX && w == data
  }

  /** How a value is laid out: the fixed-size ones bare, the others behind their length. */
  function Laid(p: Protocol, data: seq<u8>): seq<u8> {
    if KindOf(p) in {Ip4, Ip6, Port} then data else Encode(|data|) + data
  }

  /** A word is turned into bytes exactly when it denotes a value, and then into that value's. */
  lemma ReadsIff(env: Env, p: Protocol, w: Text, b: seq<u8>)
    ensures AddressToBytes(env, p, w) == Ok(b) <==> exists data :: Denotes(env, p, w, data) && b == Laid(p, data)
  {
    if AddressToBytes(env, p, w).Ok? {
      var data := DataOf(env, p, w);
      assert Denotes(env, p, w, data) && AddressToBytes(env, p, w) == Ok(Laid(p, data));
    }
    hide AddressToBytes, Laid;
    forall data | Denotes(env, p, w, data) ensures AddressToBytes(env, p, w) == Ok(Laid(p, data)) {
      ReadsValue(env, p, w, data);
    }
  }

  lemma DataOf(env: Env, p: Protocol, w: Text) returns (data: seq<u8>)
    requires AddressToBytes(env, p, w).Ok?
    ensures Denotes(env, p, w, data) && AddressToBytes(env, p, w) == Ok(Laid(p, data))
  {
    hide PercentDecode, Encode, Base58.DecodeText, Numeral, PortBytes, Base58.Surrounded, Base58.Encode;
    match KindOf(p)
    case Ip4 => data := env.ip4.parse(w).value;
    case Ip6 => data := env.ip6.parse(w).value;
    case Port =>
      data := PortBytes(w).value;
      PortIff(w, 0, 0);
      PortIff(w, data[0], data[1]);
      assert data == [data[0], data[1]];
    case Peer =>
      data := Base58.DecodeBytes(Chars(w)).value;
      Base58.AcceptedIff(Chars(w), data);
    case Host => data := w;
    case Path => data := PercentDecode(w);
    case _ => data := w;
  }

  lemma ReadsValue(env: Env, p: Protocol, w: Text, data: seq<u8>)
    requires Denotes(env, p, w, data)
    ensures AddressToBytes(env, p, w) == Ok(Laid(p, data))
  {
    hide PercentDecode, Encode, Base58.DecodeText, Numeral, PortBytes, Base58.Surrounded, Base58.Encode;
    match KindOf(p)
    case Port =>
      PortIff(w, data[0], data[1]);
      assert data == [data[0], data[1]];
    case Peer => Base58.AcceptedIff(Chars(w), data);
    case _ =>
  }

  /** The reason for which a word is refused depends on the protocol alone. */
  lemma RefusedFor(env: Env, p: Protocol, w: Text)
    requires AddressToBytes(env, p, w).Err?
    ensures AddressToBytes(env, p, w).error ==
            if KindOf(p) != Other && KindOf(p) != NoValue then InvalidAddress
            else if p.code in {42, 276, 277, 290, 445, 446, 460, 477, 478, 479} then NotImplemented
            else NoSuchProtocol
    ensures KindOf(p) != Host && KindOf(p) != Path && p.code != UNIX
  {
    hide PercentDecode, Encode, Base58.DecodeBytes, PortBytes;
  }

  /** "ipfs" is read as "p2p" wherever a protocol is expected. */
  lemma IpfsIsP2p(env: Env, rest: seq<Text>)
    ensures ParseWords(env, [Ascii("ipfs")] + rest, None) == ParseWords(env, [Ascii("p2p")] + rest, None)
    ensures forall p :: WellFormed(env.table) && p in env.table && p.name == Ascii("p2p") ==> ByName(env.table, Ascii("ipfs")) == Some(p)
  {
    assert Ascii("ipfs") != [] && Ascii("p2p") != [] && |Ascii("ipfs")| != |Ascii("p2p")|;
    assert ([Ascii("ipfs")] + rest)[1..] == rest == ([Ascii("p2p")] + rest)[1..];
    hide Ascii, FindName;
    forall p | WellFormed(env.table) && p in env.table && p.name == Ascii("p2p") ensures ByName(env.table, Ascii("ipfs")) == Some(p) {
      FindsOwn(env.table, p);
    }
  }

  // ---- The first fault ------------------------------------------------------------------

  /** Whether a word names a protocol. */
  ghost predicate Names(table: Table, w: Text, p: Protocol) {
    p in table && (p.name == w || (w == Ascii("ipfs") && p.name == Ascii("p2p")))
  }

  /** The fault of words whose first one ought to be a protocol: what is missing or wrong. */
  ghost predicate Fault(env: Env, words: seq<Text>, e: Error) {
    && words != []
    && match e
       case EmptyProtocol => words[0] == []
       case NoSuchProtocol =>
         && words[0] != []
         && (|| (forall p :: !Names(env.table, words[0], p))
             || exists p :: Names(env.table, words[0], p) && BadValue(env, p, words, e))
       case EmptyAddress => exists p :: Names(env.table, words[0], p) && p.size != 0 && (|words| == 1 || words[1] == [])
       case _ => exists p :: Names(env.table, words[0], p) && BadValue(env, p, words, e)
  }

  ghost predicate BadValue(env: Env, p: Protocol, words: seq<Text>, e: Error) {
    p.size != 0 && |words| > 1 && words[1] != [] && AddressToBytes(env, p, words[1]) == Err(e)
  }

  lemma NamesFound(table: Table, w: Text, p: Protocol)
    requires WellFormed(table) && Names(table, w, p)
    ensures ByName(table, w) == Some(p)
  {
    FindsOwn(table, p);
    assert Ascii("p2p") != Ascii("ipfs") by { assert |Ascii("ipfs")| != |Ascii("p2p")|; }
    hide Ascii, FindName;
  }

  lemma NoneNamed(table: Table, w: Text)
    requires forall p :: !Names(table, w, p)
    ensures ByName(table, w) == None
  {
    FoundName(table, if w == Ascii("ipfs") then Ascii("p2p") else w);
    hide Ascii, FindName;
    assert forall p :: ByName(table, w) == Some(p) ==> Names(table, w, p);
  }

  lemma {:induction false} FoundName(table: Table, key: Text)
    ensures FindName(table, key).Some? ==> FindName(table, key).value.name == key && FindName(table, key).value in table
  {
    if table != [] { FoundName(table[1..], key); }
  }

  /** After any number of sound components, the first fault is the one reported. */
  lemma FirstFault(env: Env, cs: seq<Component>, words: seq<Text>, e: Error)
    requires WellFormed(env.table) && IpFaithful(env) && AllSupported(env, cs) && Fault(env, words, e)
    ensures ParseWords(env, WordsAll(env, cs) + words, None) == Err(e)
  {
    FaultFound(env, words, e);
    hide Fault;
    AfterSound(env, cs, words);
  }

  lemma {:induction false} AfterSound(env: Env, cs: seq<Component>, words: seq<Text>)
    requires WellFormed(env.table) && IpFaithful(env) && AllSupported(env, cs)
    ensures ParseWords(env, WordsAll(env, cs) + words, None) == PrependBytes(BinaryAll(cs), ParseWords(env, words, None))
  {
    hide WellFormed, IpFaithful, ParseWords, Words, Binary;
    if cs == [] {
      assert WordsAll(env, cs) + words == words;
      PrependNoBytes(ParseWords(env, words, None));
    } else {
      var c, rest := cs[0], cs[1..];
      assert Supported(env, c) && AllSupported(env, rest);
      assert WordsAll(env, cs) == Words(env, c) + WordsAll(env, rest) && BinaryAll(cs) == Binary(c) + BinaryAll(rest);
      hide AllSupported, WordsAll, BinaryAll, Supported;
      AfterSound(env, rest, words);
      var more := WordsAll(env, rest) + words;
      ParseOne(env, c, more);
      assert (Words(env, c) + WordsAll(env, rest)) + words == Words(env, c) + more;
      PrependBytesTwice(Binary(c), BinaryAll(rest), ParseWords(env, words, None));
    }
  }

  lemma FaultFound(env: Env, words: seq<Text>, e: Error)
    requires WellFormed(env.table) && Fault(env, words, e)
    ensures ParseWords(env, words, None) == Err(e)
  {
    var w := words[0];
    hide WellFormed, ByName, Names, AddressToBytes, Encode;
    if w == [] {
    } else if forall p :: !Names(env.table, w, p) {
      NoneNamed(env.table, w);
    } else {
      var p :| Names(env.table, w, p) && p.size != 0 && (|words| == 1 || words[1] == [] || BadValue(env, p, words, e));
      NamesFound(env.table, w, p);
      assert ParseWords(env, words, None) == PrependBytes(Encode(p.code), ParseWords(env, words[1..], Some(p)));
      if |words| > 1 { assert words[1..][0] == words[1]; }
    }
  }

  /** A text is taken apart at its slashes; one at the front is required, one at the end is ignored. */
  lemma TextForm(env: Env, words: seq<Text>)
    requires words != [] && forall i :: 0 <= i < |words| ==> Wordlike(words[i])
    ensures TextToBytes(env, Join(words)) == ParseWords(env, words, None)
    ensures TextToBytes(env, Join(words) + [SLASH]) == ParseWords(env, words, None)
    ensures TextToBytes(env, []) == Err(NoLeadingSlash) && TextToBytes(env, [SLASH]) == Err(EmptyProtocol)
    ensures forall t: Text :: t != [] && t[0] != SLASH ==> TextToBytes(env, t) == Err(NoLeadingSlash)
  {
    JoinLast(words);
    SplitJoin(words);
    hide ParseWords, Split;
    var t := Join(words);
    assert (t + [SLASH])[1..] == t[1..] + [SLASH];
    assert (t[1..] + [SLASH])[..|t| - 1] == t[1..];
  }

  // ---- Bytes that are no address --------------------------------------------------------------

  lemma HostCharIff(c: char)
    requires c as int < 256
    ensures HostChar(c as int) <==> '0' <= c <= '9' || 'A' <= c <= 'Z' || 'a' <= c <= 'z' || c == '-' || c == '.'
  {
  }

  /** What can be wrong with bytes that begin with a protocol's code. */
  ghost predicate ByteFault(env: Env, code: u64, more: seq<u8>, e: Error) {
    match e
    case NoSuchProtocol => forall p :: p in env.table ==> p.code != code
    case NotImplemented => exists p :: p in env.table && p.code == code && KindOf(p) == Other
    case InvalidAddress => exists p :: p in env.table && p.code == code && BadData(KindOf(p), more)
    case _ => false
  }

  /** Too few bytes for the value, no length or one that is too large, or a host name with a foreign character. */
  ghost predicate BadData(k: Kind, more: seq<u8>) {
    match k
    case NoValue => false
    case Other => false
    case Ip4 => |more| < 4
    case Ip6 => |more| < 16
    case Port => |more| < 2
    case _ => SizeOf(more) == 0 || BadPrefixed(k, more)
  }

  ghost predicate BadPrefixed(k: Kind, more: seq<u8>) {
    exists n, d :: BadLength(k, more, n, d)
  }

  ghost predicate BadLength(k: Kind, more: seq<u8>, n: u64, d: seq<u8>) {
    more == Encode(n) + d && (|d| < n || (k == Host && n <= |d| && !HostName(d[..n])))
  }

  /** After any number of sound components, the first fault of the bytes is the one reported. */
  lemma FirstByteFault(env: Env, cs: seq<Component>, code: u64, more: seq<u8>, e: Error)
    requires WellFormed(env.table) && AllCarried(env, cs) && ByteFault(env, code, more, e)
    ensures BytesToText(env, BinaryAll(cs) + (Encode(code) + more)) == Err(e)
  {
    ByteFaultFound(env, code, more, e);
    BytesPrint(env, cs);
    TextOfConcat(env, BinaryAll(cs), Encode(code) + more);
    hide BytesToText, BinaryAll, Encode, WellFormed, ByteFault;
  }

  /** So is a code that does not end. */
  lemma EndlessCode(env: Env, cs: seq<Component>, tail: seq<u8>)
    requires WellFormed(env.table) && AllCarried(env, cs) && tail != [] && SizeOf(tail) == 0
    ensures BytesToText(env, BinaryAll(cs) + tail) == Err(InvalidAddress)
  {
    assert BytesToText(env, tail) == Err(InvalidAddress);
    BytesPrint(env, cs);
    TextOfConcat(env, BinaryAll(cs), tail);
    hide BytesToText, BinaryAll, WellFormed;
  }

  lemma ByteFaultFound(env: Env, code: u64, more: seq<u8>, e: Error)
    requires WellFormed(env.table) && ByteFault(env, code, more, e)
    ensures BytesToText(env, Encode(code) + more) == Err(e)
  {
    var b, k := Encode(code) + more, |Encode(code)|;
    EncodeDecodes(code, more);
    assert b[k..] == more && b != [];
    hide Encode, SizeOf, Leb, WellFormed, ByCode, TakeValue, BadData;
    if e == NoSuchProtocol {
      NoCode(env.table, code);
    } else {
      var p :| p in env.table && p.code == code
               && if e == NotImplemented then KindOf(p) == Other else e == InvalidAddress && BadData(KindOf(p), more);
      FindsOwn(env.table, p);
      BadValueRefused(env, p, more, e);
    }
  }

  lemma {:induction false} NoCode(table: Table, code: u64)
    requires forall p :: p in table ==> p.code != code
    ensures ByCode(table, code) == None
  {
    if table != [] {
      assert table[0] in table;
      NoCode(table[1..], code);
    }
  }

  lemma BadValueRefused(env: Env, p: Protocol, more: seq<u8>, e: Error)
    requires if e == NotImplemented then KindOf(p) == Other else e == InvalidAddress && BadData(KindOf(p), more)
    ensures TakeValue(env, p, more) == Err(e)
  {
    var k := KindOf(p);
    hide ValueText, SizeOf, Leb, HostName;
    if e == InvalidAddress && FixedSize(k).None? && SizeOf(more) != 0 {
      hide TakeData;
      BadPrefixRefused(k, more);
    }
  }

  lemma BadPrefixRefused(k: Kind, more: seq<u8>)
    requires FixedSize(k).None? && BadPrefixed(k, more)
    ensures TakeData(k, more).Some? ==> k == Host && !HostName(TakeData(k, more).value.0)
  {
    hide Encode, HostName, TakeData, FixedSize;
    var n, d :| BadLength(k, more, n, d);
    TakeBehindLength(k, n, d);
  }

  lemma TakeBehindLength(k: Kind, n: u64, d: seq<u8>)
    requires FixedSize(k).None?
    ensures TakeData(k, Encode(n) + d) == if n > |d| then None else Some((d[..n], d[n..]))
  {
    if n > |d| {
      EncodeDecodes(n, d);
      hide Encode, SizeOf, Leb;
    } else {
      TakePrefixed(k, d[..n], d[n..]);
      Regrouped(Encode(n), d, n);
      hide TakeData, Encode;
    }
  }

  lemma Regrouped(e: seq<u8>, d: seq<u8>, n: nat)
    requires n <= |d|
    ensures (e + d[..n]) + d[n..] == e + d
  {
  }
}
