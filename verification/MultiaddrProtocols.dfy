/** The table of `multiaddress_protocol_list.hpp`, shown to be one the conversions work for. */
module MultiaddrProtocols {
  import opened Common
  import opened Varint
  import opened MultiaddrText
  import opened Multiaddr
  import opened MultiaddrCanonical

  const COUNT := 35

  datatype Entry = Entry(code: u64, size: int, name: string)

  /** The rows in order; the size is in bits, -1 when it varies. */
  function Row(i: nat): Entry {
    if i == 0 then Entry(4, 32, "ip4")
    else if i == 1 then Entry(6, 16, "tcp")
    else if i == 2 then Entry(273, 16, "udp")
    else if i == 3 then Entry(33, 16, "dccp")
    else if i == 4 then Entry(41, 128, "ip6")
    else if i == 5 then Entry(42, -1, "ip6zone")
    else if i == 6 then Entry(53, -1, "dns")
    else if i == 7 then Entry(54, -1, "dns4")
    else if i == 8 then Entry(55, -1, "dns6")
    else if i == 9 then Entry(56, -1, "dnsaddr")
    else if i == 10 then Entry(132, 16, "sctp")
    else if i == 11 then Entry(301, 0, "udt")
    else if i == 12 then Entry(302, 0, "utp")
    else if i == 13 then Entry(400, -1, "unix")
    else if i == 14 then Entry(421, -1, "p2p")
    else if i == 15 then Entry(444, 96, "onion")
    else if i == 16 then Entry(445, 296, "onion3")
    else if i == 17 then Entry(446, -1, "garlic64")
    else if i == 18 then Entry(460, 0, "quic")
    else if i == 19 then Entry(461, 0, "quic-v1")
    else if i == 20 then Entry(480, 0, "http")
    else if i == 21 then Entry(443, 0, "https")
    else if i == 22 then Entry(477, 0, "ws")
    else if i == 23 then Entry(478, 0, "wss")
    else if i == 24 then Entry(479, 0, "p2p-websocket-star")
    else if i == 25 then Entry(277, 0, "p2p-stardust")
    else if i == 26 then Entry(275, 0, "p2p-webrtc-star")
    else if i == 27 then Entry(276, 0, "p2p-webrtc-direct")
    else if i == 28 then Entry(290, 0, "p2p-circuit")
    else if i == 29 then Entry(4770, -1, "x-parity-ws")
    else if i == 30 then Entry(4780, -1, "x-parity-wss")
    else if i == 31 then Entry(0x3DEAD1, 0, "_dummy_proto_1")
    else if i == 32 then Entry(0x3DEAD2, 0, "_dummy_proto_2")
    else if i == 33 then Entry(0x3DEAD3, -1, "_dummy_proto_3")
    else Entry(0x3DEAD4, -1, "_dummy_proto_4")
  }

  function PROTOCOLS(): (table: Table)
    ensures |table| == COUNT
    ensures forall i :: 0 <= i < COUNT ==> table[i] == Protocol(Row(i).code, Row(i).size, Ascii(Row(i).name))
  {
    seq(COUNT, i requires 0 <= i < COUNT => Protocol(Row(i).code, Row(i).size, Ascii(Row(i).name)))
  }

  // ---- Names and codes are distinct ------------------------------------------------

  /** A name that can be written between slashes, its first two characters and its last in ASCII. */
  predicate Plain(s: string) {
    |s| >= 2 && '/' !in s && s[0] as int < 128 && s[1] as int < 128 && s[|s| - 1] as int < 128
  }

  /** Different in length or in one of those characters. */
  predicate Unlike(s: string, t: string)
    requires |s| >= 2 && |t| >= 2
  {
    |s| != |t| || s[0] != t[0] || s[1] != t[1] || s[|s| - 1] != t[|t| - 1]
  }

  predicate Fit(s: string) { Plain(s) && Unlike(s, "ipfs") }

  lemma CodesApart(k: nat, l: nat)
    requires l < k < COUNT
    ensures Row(k).code != Row(l).code
  {
  }

  lemma NameFits(k: nat)
    requires k < COUNT
    ensures Fit(Row(k).name)
  {
    hide *;
    if k < 10 { FirstNames(k); } else if k < 20 { SecondNames(k); } else if k < 25 { ThirdNames(k); }
    else if k < 30 { FourthNames(k); } else { FifthNames(k); }
  }

  lemma FirstNames(k: nat)
    requires k < 10
    ensures Fit(Row(k).name)
  {
  }

  lemma SecondNames(k: nat)
    requires 10 <= k < 20
    ensures Fit(Row(k).name)
  {
  }

  lemma ThirdNames(k: nat)
    requires 20 <= k < 25
    ensures Fit(Row(k).name)
  {
  }

  lemma FourthNames(k: nat)
    requires 25 <= k < 30
    ensures Fit(Row(k).name)
  {
  }

  lemma FifthNames(k: nat)
    requires 30 <= k < COUNT
    ensures Fit(Row(k).name)
  {
  }

  lemma NamesApart(k: nat, l: nat)
    requires l < k < COUNT && Fit(Row(k).name) && Fit(Row(l).name)
    ensures Unlike(Row(k).name, Row(l).name)
  {
    hide *;
    if k < 20 { FirstApart(k, l); } else if k < 26 { SecondApart(k, l); }
    else if k < 31 { ThirdApart(k, l); } else { FourthApart(k, l); }
  }

  lemma FirstApart(k: nat, l: nat)
    requires l < k && k < 20 && Fit(Row(k).name) && Fit(Row(l).name)
    ensures Unlike(Row(k).name, Row(l).name)
  {
    hide Fit;
  }

  lemma SecondApart(k: nat, l: nat)
    requires l < k && 20 <= k < 26 && Fit(Row(k).name) && Fit(Row(l).name)
    ensures Unlike(Row(k).name, Row(l).name)
  {
    hide Fit;
  }

  lemma ThirdApart(k: nat, l: nat)
    requires l < k && 26 <= k < 31 && Fit(Row(k).name) && Fit(Row(l).name)
    ensures Unlike(Row(k).name, Row(l).name)
  {
    hide Fit;
  }

  lemma FourthApart(k: nat, l: nat)
    requires l < k && 31 <= k < COUNT && Fit(Row(k).name) && Fit(Row(l).name)
    ensures Unlike(Row(k).name, Row(l).name)
  {
    hide Fit;
  }

  lemma AsciiWord(s: string)
    requires Plain(s)
    ensures Ascii(s) != [] && SLASH !in Ascii(s)
  {
  }

  lemma AsciiUnlike(s: string, t: string)
    requires Plain(s) && Plain(t) && Unlike(s, t)
    ensures Ascii(s) != Ascii(t)
  {
  }

  /** Names and codes in the table are distinct, and every name can be written between slashes. */
  lemma TableWellFormed()
    ensures WellFormed(PROTOCOLS())
  {
    hide Row, Plain, Unlike;
    var table := PROTOCOLS();
    forall k | 0 <= k < COUNT
      ensures table[k].name != [] && SLASH !in table[k].name && table[k].name != Ascii("ipfs")
    {
      NameFits(k);
      AsciiWord(Row(k).name);
      IpfsPlain();
      AsciiUnlike(Row(k).name, "ipfs");
    }
    forall l, k | 0 <= l < k < COUNT ensures table[l].name != table[k].name && table[l].code != table[k].code {
      CodesApart(k, l);
      NameFits(k);
      NameFits(l);
      NamesApart(k, l);
      AsciiUnlike(Row(k).name, Row(l).name);
    }
  }

  lemma IpfsPlain()
    ensures Plain("ipfs")
  {
  }

  // ---- On the wire ------------------------------------------------------------------

  /** The row of that name starts its component with these bytes, as the multicodec table lists them, and has that kind of value. */
  ghost predicate Wire(i: nat, name: string, bytes: seq<u8>, kind: Kind) {
    var e := Row(i);
    e.name == name && Encode(e.code) == bytes && KindOf(Protocol(e.code, e.size, [])) == kind
  }

  lemma Wire0To4()
    ensures Wire(0, "ip4", [0x04], Ip4)
    ensures Wire(1, "tcp", [0x06], Port)
    ensures Wire(2, "udp", [0x91, 0x02], Port)
    ensures Wire(3, "dccp", [0x21], Other)
    ensures Wire(4, "ip6", [0x29], Ip6)
  {
  }

  lemma Wire5To9()
    ensures Wire(5, "ip6zone", [0x2a], Other)
    ensures Wire(6, "dns", [0x35], Host)
    ensures Wire(7, "dns4", [0x36], Host)
    ensures Wire(8, "dns6", [0x37], Host)
    ensures Wire(9, "dnsaddr", [0x38], Host)
  {
  }

  lemma Wire10To14()
    ensures Wire(10, "sctp", [0x84, 0x01], Other)
    ensures Wire(11, "udt", [0xad, 0x02], NoValue)
    ensures Wire(12, "utp", [0xae, 0x02], NoValue)
    ensures Wire(13, "unix", [0x90, 0x03], Other)
    ensures Wire(14, "p2p", [0xa5, 0x03], Peer)
  {
  }

  lemma Wire15To19()
    ensures Wire(15, "onion", [0xbc, 0x03], Other)
    ensures Wire(16, "onion3", [0xbd, 0x03], Other)
    ensures Wire(17, "garlic64", [0xbe, 0x03], Other)
    ensures Wire(18, "quic", [0xcc, 0x03], NoValue)
    ensures Wire(19, "quic-v1", [0xcd, 0x03], NoValue)
  {
  }

  lemma Wire20To24()
    ensures Wire(20, "http", [0xe0, 0x03], NoValue)
    ensures Wire(21, "https", [0xbb, 0x03], NoValue)
    ensures Wire(22, "ws", [0xdd, 0x03], NoValue)
    ensures Wire(23, "wss", [0xde, 0x03], NoValue)
    ensures Wire(24, "p2p-websocket-star", [0xdf, 0x03], NoValue)
  {
  }

  lemma Wire25To29()
    ensures Wire(25, "p2p-stardust", [0x95, 0x02], NoValue)
    ensures Wire(26, "p2p-webrtc-star", [0x93, 0x02], NoValue)
    ensures Wire(27, "p2p-webrtc-direct", [0x94, 0x02], NoValue)
    ensures Wire(28, "p2p-circuit", [0xa2, 0x02], NoValue)
    ensures Wire(29, "x-parity-ws", [0xa2, 0x25], Path)
  {
  }

  lemma Wire30To31()
    ensures Wire(30, "x-parity-wss", [0xac, 0x25], Path)
    ensures Wire(31, "_dummy_proto_1", [0xd1, 0xd5, 0xf7, 0x01], NoValue)
  {
  }

  lemma Wire32To34()
    ensures Wire(32, "_dummy_proto_2", [0xd2, 0xd5, 0xf7, 0x01], NoValue)
    ensures Wire(33, "_dummy_proto_3", [0xd3, 0xd5, 0xf7, 0x01], Other)
    ensures Wire(34, "_dummy_proto_4", [0xd4, 0xd5, 0xf7, 0x01], Other)
  {
  }

  /** A value of fixed size has as many bits as its row says, and one that carries its length has none. */
  lemma SizesFit(i: nat)
    requires i < COUNT
    ensures var e := Row(i); var k := KindOf(Protocol(e.code, e.size, []));
            && (FixedSize(k).Some? ==> e.size == 8 * FixedSize(k).value)
            && (k == Peer || k == Host || k == Path ==> e.size == -1)
  {
  }

  // ---- The results at this table --------------------------------------------------

  /** The source's conversions undo each other on every non-empty list of supported components. */
  lemma SourceRoundTrips(env: Env, cs: seq<Component>)
    requires env.table == PROTOCOLS() && IpFaithful(env) && AllSupported(env, cs) && cs != []
    ensures BytesToText(env, BinaryAll(cs)) == Ok(TextAll(env, cs))
    ensures TextToBytes(env, TextAll(env, cs)) == Ok(BinaryAll(cs))
  {
    hide *;
    TableWellFormed();
    RoundTrips(env, cs);
  }

  /** What `create` asserts of a text it has parsed holds exactly when its words are printable. */
  lemma SourcePrintsIff(env: Env, t: Text)
    requires env.table == PROTOCOLS() && IpSized(env) && |t| < WORD && TextToBytes(env, t).Ok?
    ensures BytesToText(env, TextToBytes(env, t).value).Ok? <==> AllPrintable(env, WordsOf(t), None)
  {
    assert TextToBytes(env, t) == ParseWords(env, WordsOf(t), None);
    hide *;
    TableWellFormed();
    ShortWords(t);
    PrintsIff(env, WordsOf(t));
  }

  /** The text "/dns/_" parses and then trips the assertion. */
  lemma DnsUnderscoreFails(env: Env)
    requires env.table == PROTOCOLS() && IpSized(env)
    ensures var t := Ascii("/dns/_");
            TextToBytes(env, t).Ok? && BytesToText(env, TextToBytes(env, t).value).Err?
  {
    var p := Protocol(53, -1, Ascii("dns"));
    hide *;
    DnsRow(p);
    DnsUnderscore();
    TableWellFormed();
    UnderscoreFails(env, p);
  }

  lemma DnsRow(p: Protocol)
    requires p == Protocol(53, -1, Ascii("dns"))
    ensures p in PROTOCOLS() && KindOf(p) == Host
  {
    assert PROTOCOLS()[6] == p by { assert Row(6) == Entry(53, -1, "dns"); }
    hide Row;
  }

  lemma DnsUnderscore()
    ensures Join([Ascii("dns"), [95]]) == Ascii("/dns/_")
  {
    hide *;
    WrittenOut("dns", '_');
    assert ['/'] + "dns" + ['/', '_'] == "/dns/_";
  }

  /** A protocol and a value of one character, written out. */
  lemma WrittenOut(name: string, c: char)
    requires c as int < 128
    ensures Join([Ascii(name), [c as int]]) == Ascii(['/'] + name + ['/', c])
  {
    var word: Text := [c as int];
    var words, text := [Ascii(name), word], ['/'] + name + ['/', c];
    assert words == [Ascii(name)] + [word];
    JoinConcat([Ascii(name)], [word]);
    JoinSingle(Ascii(name));
    JoinSingle(word);
    hide Join;
    var t, u := Ascii(text), [SLASH] + Ascii(name) + ([SLASH] + word);
    assert |t| == |u|;
    forall i | 0 <= i < |t| ensures t[i] == u[i] {
      if 1 <= i <= |name| { assert text[i] == name[i - 1]; }
    }
  }

  /** The string `create` stores is read back as the bytes it stores exactly when no p2p value is blank. */
  lemma SourceTextParsesIff(env: Env, t: Text)
    requires env.table == PROTOCOLS() && IpFaithful(env) && IpSized(env) && |t| < WORD
    requires TextToBytes(env, t).Ok? && BytesToText(env, TextToBytes(env, t).value).Ok?
    ensures var b := TextToBytes(env, t).value; var text := BytesToText(env, b).value;
            TextToBytes(env, text) == Ok(b) <==> AllSolid(env, WordsOf(t))
  {
    hide *;
    TableWellFormed();
    StoredTextParsesIff(env, t);
  }

  /** It is not for the text "/p2p/ ". */
  lemma SourceSpaceIsLost(env: Env)
    requires env.table == PROTOCOLS() && IpFaithful(env) && IpSized(env)
    ensures var t := Ascii("/p2p/ ");
            && TextToBytes(env, t).Ok?
            && var b := TextToBytes(env, t).value;
               BytesToText(env, b).Ok? && TextToBytes(env, BytesToText(env, b).value) != Ok(b)
  {
    var p := Protocol(421, -1, Ascii("p2p"));
    hide *;
    P2pRow(p);
    P2pSpace();
    TableWellFormed();
    SpaceIsLost(env, p);
  }

  lemma P2pRow(p: Protocol)
    requires p == Protocol(421, -1, Ascii("p2p"))
    ensures p in PROTOCOLS() && KindOf(p) == Peer && |p.name| < 100
  {
    assert PROTOCOLS()[14] == p by { assert Row(14) == Entry(421, -1, "p2p"); }
    hide Row;
  }

  lemma P2pSpace()
    ensures Join([Ascii("p2p"), [32]]) == Ascii("/p2p/ ")
  {
    hide *;
    WrittenOut("p2p", ' ');
    assert ['/'] + "p2p" + ['/', ' '] == "/p2p/ ";
  }
}
