/** Whether the text an address stores would be read back as the bytes it stores. */
module MultiaddrCanonical {
  import opened Common
  import opened Varint
  import opened MultiaddrText
  import opened Multiaddr
  import Base58

  // ---- Blank words ---------------------------------------------------------------

  /** Nothing but white space up to the end of the C string. */
  predicate Blank(word: Text) {
    var s := Chars(word);
    forall i :: 0 <= i < Base58.StrLen(s) ==> Base58.IsSpace(s[i])
  }

  lemma {:induction false} SpacesAll(s: string)
    ensures Base58.SpaceRun(s) == |s| <==> forall i :: 0 <= i < |s| ==> Base58.IsSpace(s[i])
  {
    if s != [] {
      SpacesAll(s[1..]);
      assert forall i :: 1 <= i < |s| ==> s[i] == s[1..][i - 1];
    }
  }

  /** A base58 word decodes to nothing exactly when it is blank. */
  lemma NothingIffBlank(word: Text)
    ensures Base58.DecodeBytes(Chars(word)) == Some([]) <==> Blank(word)
  {
    var text := Chars(word);
    var s := text[..Base58.StrLen(text)];
    var u := s[Base58.SpaceRun(s)..];
    var n := Base58.WordRun(u);
    SpacesAll(s);
    assert u == [] <==> Blank(word);
    assert n == 0 <==> u == [];
    NothingIsEmpty(u[..n]);
    hide Base58.StrLen, Base58.DecodeDigits, Base58.InAlphabet;
    assert u == [] ==> u[..n] == [] && u[n..] == [];
  }

  lemma NothingIsEmpty(w: string)
    ensures w == [] ==> Base58.InAlphabet(w)
    ensures Base58.InAlphabet(w) ==> (Base58.DecodeDigits(w) == [] <==> w == [])
  {
    if Base58.InAlphabet(w) {
      Base58.EncodeDecode(w);
      EmptyEncodesEmpty();
      hide Base58.Encode;
      if w == [] {
        EmptyDecodesEmpty();
        Base58.DecodeWord(w);
      }
    }
  }

  lemma EmptyEncodesEmpty()
    ensures Base58.Encode([]) == []
  {
    EmptyDecodesEmpty();
    Base58.DecodeEncode([]);
  }

  // ---- The components behind accepted words --------------------------------------------

  /** The value a word stands for. */
  function DataOf(env: Env, p: Protocol, word: Text): seq<u8> {
    match KindOf(p)
    case Ip4 => Bytes(env.ip4.parse(word))
    case Ip6 => Bytes(env.ip6.parse(word))
    case Port => Bytes(PortBytes(word))
    case Peer => Bytes(Base58.DecodeBytes(Chars(word)))
    case Host => word
    case Path => PercentDecode(word)
    case _ => []
  }

  function Bytes(o: Option<seq<u8>>): seq<u8> { if o.Some? then o.value else [] }

  function ComponentsOf(env: Env, words: seq<Text>): seq<Component> {
    if words == [] then []
    else
      match ByName(env.table, words[0])
      case None => []
      case Some(p) =>
        if p.size == 0 then [Component(p, [])] + ComponentsOf(env, words[1..])
        else if |words| == 1 then []
        else [Component(p, DataOf(env, p, words[1]))] + ComponentsOf(env, words[2..])
  }

  /** No p2p value is blank. */
  ghost predicate Solid(p: Protocol, word: Text) { KindOf(p) == Peer ==> !Blank(word) }

  ghost predicate AllSolid(env: Env, words: seq<Text>) {
    if words == [] then true
    else
      match ByName(env.table, words[0])
      case None => true
      case Some(p) =>
        if p.size == 0 then AllSolid(env, words[1..])
        else if |words| == 1 then true
        else Solid(p, words[1]) && AllSolid(env, words[2..])
  }

  /** A printable word stands for a value the bytes can carry; it is empty only for a blank p2p word. */
  lemma WordValue(env: Env, p: Protocol, word: Text)
    requires IpSized(env) && p in env.table && p.size != 0 && word != [] && |word| < WORD
    requires AddressToBytes(env, p, word).Ok? && Printable(p, word)
    ensures var c := Component(p, DataOf(env, p, word));
            && Carried(env, c) && AddressToBytes(env, p, word) == Ok(Payload(c))
            && (c.data == [] <==> !Solid(p, word))
  {
    hide Encode, Base58.DecodeBytes, PercentDecode, PortBytes, Blank;
    match KindOf(p)
    case Ip4 =>
    case Ip6 =>
    case Port => PortSize(word);
    case Peer =>
      ShorterBytes(Chars(word));
      NothingIffBlank(word);
    case Host =>
    case Path =>
      DecodedShorter(word);
      DecodedSome(word);
  }

  lemma PortSize(word: Text)
    ensures PortBytes(word).Some? ==> |PortBytes(word).value| == 2
  {
  }

  lemma DecodedSome(t: Text)
    requires t != []
    ensures PercentDecode(t) != []
  {
  }

  /** Accepted words are those of a list of components, and blank values are its empty ones. */
  lemma {:induction false} WordsAreComponents(env: Env, words: seq<Text>)
    requires WellFormed(env.table) && IpSized(env) && ParseWords(env, words, None).Ok? && AllPrintable(env, words, None)
    requires forall i :: 0 <= i < |words| ==> |words[i]| < WORD
    ensures var cs := ComponentsOf(env, words);
            && AllCarried(env, cs) && ParseWords(env, words, None) == Ok(BinaryAll(cs))
            && (AllSolid(env, words) <==> AllSupported(env, cs)) && (words != [] ==> cs != [])
    decreases |words|
  {
    if words != [] {
      var p := ByName(env.table, words[0]).value;
      if p.size == 0 {
        WordsAreComponents(env, words[1..]);
        BareStep(env, p, words);
      } else {
        var rest := words[1..];
        assert rest != [] && words[2..] == rest[1..] && rest[0] == words[1];
        WordsAreComponents(env, words[2..]);
        ValueStep(env, p, words);
      }
      hide *;
    }
  }

  /** What one step of the parse contributes: a protocol without a value. */
  lemma BareStep(env: Env, p: Protocol, words: seq<Text>)
    requires words != [] && words[0] != [] && ByName(env.table, words[0]) == Some(p) && p.size == 0
    requires ParseWords(env, words[1..], None) == Ok(BinaryAll(ComponentsOf(env, words[1..])))
    requires AllCarried(env, ComponentsOf(env, words[1..]))
    requires AllSolid(env, words[1..]) <==> AllSupported(env, ComponentsOf(env, words[1..]))
    ensures var cs := ComponentsOf(env, words);
            && AllCarried(env, cs) && ParseWords(env, words, None) == Ok(BinaryAll(cs))
            && (AllSolid(env, words) <==> AllSupported(env, cs)) && cs != []
  {
    var c, rest := Component(p, []), ComponentsOf(env, words[1..]);
    ByNameInTable(env.table, words[0]);
    assert ComponentsOf(env, words) == [c] + rest;
    assert ParseWords(env, words, None) == Ok(Encode(p.code) + BinaryAll(rest));
    assert Carried(env, c) && Supported(env, c) && Binary(c) == Encode(p.code) + [];
    hide Encode, ByName, ParseWords, Carried, Supported, Binary;
    assert Encode(p.code) + [] == Encode(p.code);
    AddFirst(env, c, rest);
  }

  /** And one with its value. */
  lemma ValueStep(env: Env, p: Protocol, words: seq<Text>)
    requires IpSized(env) && |words| >= 2 && words[0] != [] && words[1] != [] && |words[1]| < WORD
    requires ByName(env.table, words[0]) == Some(p) && p.size != 0
    requires AddressToBytes(env, p, words[1]).Ok? && Printable(p, words[1])
    requires ParseWords(env, words[2..], None) == Ok(BinaryAll(ComponentsOf(env, words[2..])))
    requires AllCarried(env, ComponentsOf(env, words[2..]))
    requires AllSolid(env, words[2..]) <==> AllSupported(env, ComponentsOf(env, words[2..]))
    ensures var cs := ComponentsOf(env, words);
            && AllCarried(env, cs) && ParseWords(env, words, None) == Ok(BinaryAll(cs))
            && (AllSolid(env, words) <==> AllSupported(env, cs)) && cs != []
  {
    var word, rest := words[1], ComponentsOf(env, words[2..]);
    var c := Component(p, DataOf(env, p, word));
    ByNameInTable(env.table, words[0]);
    WordValue(env, p, word);
    assert ComponentsOf(env, words) == [c] + rest;
    var more := words[1..];
    assert more[0] == word && more[1..] == words[2..];
    assert ParseWords(env, more, Some(p)) == Ok(Payload(c) + BinaryAll(rest));
    assert ParseWords(env, words, None) == Ok(Encode(p.code) + (Payload(c) + BinaryAll(rest)));
    assert Supported(env, c) <==> Solid(p, word);
    hide Encode, ByName, ParseWords, Carried, Supported, Payload, AddressToBytes, DataOf, Solid, IpSized;
    Regroup(Encode(p.code), Payload(c), BinaryAll(rest));
    AddFirst(env, c, rest);
  }

  lemma AddFirst(env: Env, c: Component, rest: seq<Component>)
    ensures BinaryAll([c] + rest) == Binary(c) + BinaryAll(rest)
    ensures AllCarried(env, [c] + rest) <==> Carried(env, c) && AllCarried(env, rest)
    ensures AllSupported(env, [c] + rest) <==> Supported(env, c) && AllSupported(env, rest)
  {
    hide Carried, Supported, Binary;
    var cs := [c] + rest;
    assert cs[0] == c && cs[1..] == rest;
    assert forall i :: 0 <= i < |rest| ==> rest[i] == cs[i + 1];
  }

  // ---- Text with an empty value -------------------------------------------------------------

  /** A value the bytes carry and the text does not is empty, and so is its text. */
  lemma EmptyText(env: Env, c: Component)
    requires Carried(env, c) && !Supported(env, c)
    ensures KindOf(c.proto) != NoValue && ValueText(env, c.proto, c.data) == []
  {
    EmptyEncodesEmpty();
    hide Base58.Encode;
  }

  ghost predicate Slashless(words: seq<Text>) { forall i :: 0 <= i < |words| ==> SLASH !in words[i] }

  /** The words do not parse, not even without an empty last one. */
  ghost predicate Unreadable(env: Env, words: seq<Text>) {
    && words != [] && words[0] != [] && Slashless(words) && ParseWords(env, words, None).Err?
    && (words[|words| - 1] == [] ==> ParseWords(env, words[..|words| - 1], None).Err?)
  }

  lemma {:induction false} EmptyValueUnreadable(env: Env, cs: seq<Component>)
    requires WellFormed(env.table) && IpFaithful(env) && AllCarried(env, cs) && !AllSupported(env, cs)
    ensures Unreadable(env, WordsAll(env, cs))
  {
    var c, rest := cs[0], cs[1..];
    assert Carried(env, c);
    if Supported(env, c) {
      assert cs == [c] + rest;
      AddFirst(env, c, rest);
      EmptyValueUnreadable(env, rest);
      hide WellFormed, IpFaithful, Supported, Carried, AllSupported, AllCarried, ParseWords;
      ReadableFirst(env, c, WordsAll(env, rest));
    } else {
      AllSlashless(env, rest);
      hide WellFormed, IpFaithful;
      EmptyFirst(env, c, WordsAll(env, rest));
    }
  }

  lemma ReadableFirst(env: Env, c: Component, rest: seq<Text>)
    requires WellFormed(env.table) && IpFaithful(env) && Supported(env, c) && Unreadable(env, rest)
    ensures Unreadable(env, Words(env, c) + rest)
  {
    ParseOne(env, c, rest);
    ParseOne(env, c, rest[..|rest| - 1]);
    hide WellFormed, IpFaithful, Supported, ParseWords, Binary, KindOf, ValueText, Wordlike;
    WordsInFront(env, Words(env, c), rest);
  }

  lemma WordsInFront(env: Env, ws: seq<Text>, rest: seq<Text>)
    requires ws != [] && (forall i :: 0 <= i < |ws| ==> Wordlike(ws[i])) && rest != [] && Slashless(rest)
    requires ParseWords(env, ws + rest, None).Err?
    requires rest[|rest| - 1] == [] ==> ParseWords(env, ws + rest[..|rest| - 1], None).Err?
    ensures Unreadable(env, ws + rest)
  {
    hide ParseWords;
    var all := ws + rest;
    assert all[|all| - 1] == rest[|rest| - 1];
    assert all[..|all| - 1] == ws + rest[..|rest| - 1];
    assert Wordlike(ws[0]) && all[0] == ws[0];
    forall i | 0 <= i < |all| ensures SLASH !in all[i] {
      if i < |ws| { assert Wordlike(ws[i]); } else { assert all[i] == rest[i - |ws|]; }
    }
  }

  lemma EmptyFirst(env: Env, c: Component, rest: seq<Text>)
    requires WellFormed(env.table) && Carried(env, c) && !Supported(env, c) && Slashless(rest)
    ensures Unreadable(env, Words(env, c) + rest)
  {
    var p, tail := c.proto, [[]] + rest;
    EmptyText(env, c);
    FindsOwn(env.table, p);
    assert Wordlike(p.name) && p.size != 0;
    hide WellFormed, Carried, Supported, ByName, KindOf, ValueText, ParseWords, Wordlike;
    assert Words(env, c) + rest == [p.name] + tail;
    ValueMissing(env, p, tail);
    ValueMissing(env, p, tail[..|tail| - 1]);
    assert Slashless(tail) by {
      assert forall i :: 1 <= i < |tail| ==> tail[i] == rest[i - 1];
    }
    WordsInFront(env, [p.name], tail);
  }

  /** A protocol that wants a value does not parse before an empty word or the end. */
  lemma ValueMissing(env: Env, p: Protocol, tail: seq<Text>)
    requires ByName(env.table, p.name) == Some(p) && Wordlike(p.name) && p.size != 0
    requires tail == [] || tail[0] == []
    ensures ParseWords(env, [p.name] + tail, None).Err?
  {
    hide ByName;
    var words := [p.name] + tail;
    assert words[0] == p.name && words[1..] == tail;
    assert ParseWords(env, tail, Some(p)).Err?;
  }

  lemma {:induction false} AllSlashless(env: Env, cs: seq<Component>)
    requires WellFormed(env.table) && IpFaithful(env) && AllCarried(env, cs)
    ensures Slashless(WordsAll(env, cs))
  {
    if cs != [] {
      var c := cs[0];
      AllSlashless(env, cs[1..]);
      assert Carried(env, c);
      OneSlashless(env, c);
      hide WellFormed, IpFaithful, Carried, Words;
    }
  }

  lemma OneSlashless(env: Env, c: Component)
    requires WellFormed(env.table) && IpFaithful(env) && Carried(env, c)
    ensures Slashless(Words(env, c))
  {
    if KindOf(c.proto) != NoValue {
      if Supported(env, c) { ValueWord(env, c); } else { EmptyText(env, c); }
    }
    hide IpFaithful, ValueText, KindOf, Carried, Supported;
  }

  lemma UnreadableText(env: Env, words: seq<Text>)
    requires Unreadable(env, words)
    ensures TextToBytes(env, Join(words)).Err?
  {
    var n := |words|;
    var init, last := words[..n - 1], words[n - 1];
    assert words == init + [last];
    JoinConcat(init, [last]);
    JoinSingle(last);
    var t := Join(words);
    assert t == Join(init) + ([SLASH] + last);
    SplitJoin(words);
    hide Join, Split, ParseWords;
    if last == [] {
      assert init != [] && init[0] == words[0];
      SplitJoin(init);
      assert t[1..][..|t| - 2] == Join(init)[1..];
    } else {
      assert last[|last| - 1] in last;
      assert t[|t| - 1] == last[|last| - 1] != SLASH;
    }
  }

  lemma JoinSingle(w: Text)
    ensures Join([w]) == [SLASH] + w
  {
    assert Join([w][1..]) == [];
  }

  // ---- Main result ---------------------------------------------------------------------------

  /**
   For every text that `create` accepts, the string it stores parses to the bytes it stores
   exactly when no p2p value is blank. A blank one decodes to nothing and prints as nothing.
   */
  lemma StoredTextParsesIff(env: Env, t: Text)
    requires WellFormed(env.table) && IpFaithful(env) && IpSized(env) && |t| < WORD
    requires TextToBytes(env, t).Ok? && BytesToText(env, TextToBytes(env, t).value).Ok?
    ensures var b := TextToBytes(env, t).value; var text := BytesToText(env, b).value;
            TextToBytes(env, text) == Ok(b) <==> AllSolid(env, WordsOf(t))
  {
    var words := WordsOf(t);
    ParsesWords(env, t);
    ShortWords(t);
    hide *;
    PrintsIff(env, words);
    WordsAreComponents(env, words);
    var cs := ComponentsOf(env, words);
    BytesPrint(env, cs);
    ListParsesIff(env, cs);
  }

  /** The text of a list of components is read back exactly when no value is empty. */
  lemma ListParsesIff(env: Env, cs: seq<Component>)
    requires WellFormed(env.table) && IpFaithful(env) && cs != [] && AllCarried(env, cs)
    ensures TextToBytes(env, TextAll(env, cs)) == Ok(BinaryAll(cs)) <==> AllSupported(env, cs)
  {
    hide WellFormed, IpFaithful, AllSupported, TextAll, WordsAll, BinaryAll, TextToBytes, Unreadable;
    if AllSupported(env, cs) {
      TextParses(env, cs);
    } else {
      EmptyValueUnreadable(env, cs);
      UnreadableText(env, WordsAll(env, cs));
      AsText(env, cs);
    }
  }

  lemma ParsesWords(env: Env, t: Text)
    requires TextToBytes(env, t).Ok?
    ensures TextToBytes(env, t) == ParseWords(env, WordsOf(t), None) && WordsOf(t) != []
  {
    hide ParseWords;
  }

  lemma AsText(env: Env, cs: seq<Component>)
    requires AllCarried(env, cs)
    ensures TextAll(env, cs) == Join(WordsAll(env, cs))
  {
  }

  /** Concretely: a p2p value of one space is accepted, and the stored string is not an address any more. */
  lemma SpaceIsLost(env: Env, p: Protocol)
    requires WellFormed(env.table) && IpFaithful(env) && IpSized(env) && p in env.table && KindOf(p) == Peer
    requires |p.name| < 100
    ensures var t := Join([p.name, [32]]);
            && TextToBytes(env, t).Ok?
            && var b := TextToBytes(env, t).value;
               BytesToText(env, b).Ok? && TextToBytes(env, BytesToText(env, b).value) != Ok(b)
  {
    var words: seq<Text> := [p.name, [32]];
    var t := Join(words);
    assert p.name != [] && SLASH !in p.name;
    SplitJoin(words);
    JoinLast(words);
    SpaceWords(env, p);
    TwoWords(p.name, [32]);
    assert WordsOf(t) == words && TextToBytes(env, t) == ParseWords(env, words, None);
    hide *;
    ShortWords(t);
    PrintsIff(env, words);
    StoredTextParsesIff(env, t);
  }

  lemma TwoWords(a: Text, b: Text)
    ensures |Join([a, b])| == |a| + |b| + 2
  {
    assert [a, b] == [a] + [b];
    JoinConcat([a], [b]);
    JoinSingle(a);
    JoinSingle(b);
  }

  lemma SpaceWords(env: Env, p: Protocol)
    requires WellFormed(env.table) && p in env.table && KindOf(p) == Peer
    ensures var words := [p.name, [32]];
            ParseWords(env, words, None).Ok? && AllPrintable(env, words, None) && !AllSolid(env, words)
  {
    var word: Text := [32];
    hide ParseWords, AllPrintable, AllSolid, WellFormed, ByName;
    FindsOwn(env.table, p);
    NameIsWord(env.table, p);
    assert p.name != [] && p.size != 0;
    SpaceIsBlank(env, p, word);
    hide AddressToBytes, KindOf, Printable, Solid, Prefixed, Wordlike;
    PairOfWords(env, p, word, Prefixed([]));
  }

  lemma SpaceIsBlank(env: Env, p: Protocol, word: Text)
    requires KindOf(p) == Peer && word == [32]
    ensures Printable(p, word) && !Solid(p, word) && AddressToBytes(env, p, word) == Ok(Prefixed([]))
  {
    assert Blank(word) by { assert Base58.IsSpace(Chars(word)[0]); }
    hide Blank, Base58.DecodeBytes;
    NothingIffBlank(word);
  }

  lemma PairOfWords(env: Env, p: Protocol, word: Text, b: seq<u8>)
    requires ByName(env.table, p.name) == Some(p) && p.name != [] && p.size != 0
    requires word != [] && AddressToBytes(env, p, word) == Ok(b) && Printable(p, word) && !Solid(p, word)
    ensures var words := [p.name, word];
            ParseWords(env, words, None).Ok? && AllPrintable(env, words, None) && !AllSolid(env, words)
  {
    hide ByName, AddressToBytes, Printable, Solid;
    var words := [p.name, word];
    assert words == words + [];
    ParsePair(env, p.name, p, word, b, []);
    var rest := words[1..];
    assert rest[0] == word && |rest[1..]| == 0;
    assert AllPrintable(env, rest, Some(p));
  }
}
