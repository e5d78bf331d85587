/** `selectOneOf` at one end of a stream. */
module MultiselectEnds {
  import opened Common
  import opened Varint
  import opened MultiselectFrames

  datatype Config = Config(protocols: seq<Name>, initiator: bool, handshake: bool)

  /** What an end is waiting for, or how it finished. */
  datatype Phase = Hello | Answer | Done(name: Name) | Failed(error: Error)

  /** An end: its phase and every name it has written. */
  datatype End = End(phase: Phase, sent: seq<Name>)

  predicate Finished(e: End) { e.phase.Done? || e.phase.Failed? }

  function Greeting(c: Config): seq<Name> { if c.handshake then [PROTOCOL_ID] else [] }

  /** Up to the first read. */
  function Begin(c: Config): End {
    var waiting := if c.handshake then Hello else Answer;
    if c.protocols == [] then End(Failed(NegotiationFailed), [])
    else if !c.initiator then End(waiting, Greeting(c))
    else if !Writable(c.protocols[0]) then End(Failed(Thrown), Greeting(c))
    else End(waiting, Greeting(c) + [c.protocols[0]])
  }

  /** From one read to the next. */
  function Receive(c: Config, e: End, name: Name): End
    requires c.protocols != []
  {
    if Finished(e) then e
    else if e.phase == Hello then
      e.(phase := if name == PROTOCOL_ID then Answer else Failed(ProtocolViolation))
    else if c.initiator then ReceiveReply(c, e, name)
    else ReceiveProposal(c, e, name)
  }

  /** After a refusal the next name is written, and then the refusal is compared with it. */
  function ReceiveReply(c: Config, e: End, name: Name): End
    requires c.protocols != []
  {
    if name != NA then
      e.(phase := if name == c.protocols[0] then Done(name) else Failed(ProtocolViolation))
    else if |c.protocols| == 1 then e.(phase := Failed(NegotiationFailed))
    else if !Writable(c.protocols[1]) then e.(phase := Failed(Thrown))
    else End(if name == c.protocols[1] then Done(name) else Failed(ProtocolViolation), e.sent + [c.protocols[1]])
  }

  function ReceiveProposal(c: Config, e: End, name: Name): End {
    if name !in c.protocols then e.(sent := e.sent + [NA])
    else if !Writable(name) then e.(phase := Failed(Thrown))
    else End(Done(name), e.sent + [name])
  }

  function Replay(c: Config, got: seq<Name>): End {
    if got == [] || c.protocols == [] then Begin(c)
    else Receive(c, Replay(c, got[..|got| - 1]), got[|got| - 1])
  }

  function Frames(names: seq<Name>): seq<u8> {
    if names == [] then [] else Frames(names[..|names| - 1]) + Frame(names[|names| - 1])
  }

  lemma FramesSnoc(names: seq<Name>, name: Name)
    ensures Frames(names + [name]) == Frames(names) + Frame(name)
  {
  }

  /** These pieces of the input were read as these names, each as soon as it was complete. */
  ghost predicate ReadAs(pieces: seq<seq<u8>>, got: seq<Name>) {
    |pieces| == |got| && forall i :: 0 <= i < |got| ==> Reads(pieces[i], got[i])
  }

  ghost predicate Reads(piece: seq<u8>, name: Name) { Pending(piece, |piece|) && Progress(piece) == Got(name) }

  /** The next read of this input fails for this reason. */
  ghost predicate FailsWith(rest: seq<u8>, error: Error) { exists k :: FailsAt(rest, k, error) }

  ghost predicate FailsAt(rest: seq<u8>, k: nat, error: Error) {
    && Pending(rest, k)
    && match Progress(rest[..k])
       case Got(_) => false
       case Bad(e) => error == e
       case Need(_) => error == Closed && k == |rest|
  }

  lemma ReadAsSnoc(pieces: seq<seq<u8>>, got: seq<Name>, piece: seq<u8>, name: Name)
    requires ReadAs(pieces, got) && Reads(piece, name)
    ensures ReadAs(pieces + [piece], got + [name])
    ensures Joined(pieces + [piece]) == Joined(pieces) + piece
  {
    hide Reads;
  }

  /** What `selectOneOf` returns in a phase; in the middle of a run only a failed read of the rest can end it. */
  ghost predicate Verdict(e: End, r: Result<Name, Error>, rest: seq<u8>) {
    match e.phase
    case Done(name) => r == Ok(name)
    case Failed(error) => r == Err(error)
    case _ => r.Err? && FailsWith(rest, r.error)
  }

  /** No name is read once the end has finished. */
  ghost predicate Needed(c: Config, got: seq<Name>) {
    forall i :: 0 <= i < |got| ==> !Finished(Replay(c, got[..i]))
  }

  lemma NeededSnoc(c: Config, got: seq<Name>, name: Name)
    requires Needed(c, got) && !Finished(Replay(c, got))
    ensures Needed(c, got + [name])
  {
    hide Replay, Finished;
    var more := got + [name];
    forall i | 0 <= i < |more| ensures !Finished(Replay(c, more[..i])) {
      assert more[..i] == if i < |got| then got[..i] else got;
    }
  }

  /** The answer of an end that has finished. */
  function Concluded(e: End): Result<Name, Error>
    requires Finished(e)
  {
    if e.phase.Done? then Ok(e.phase.name) else Err(e.phase.error)
  }

  /** What is left after those pieces. */
  ghost function Rest(all: seq<u8>, pieces: seq<seq<u8>>): seq<u8> {
    if Joined(pieces) <= all then all[|Joined(pieces)|..] else []
  }

  /**
   One end over a stream whose input is `conn.incoming` and then ends: it writes the frames,
   and returns the verdict, that `Replay` gives for the names it read. A name too long to
   frame ends it with an exception, which the result shows as `Err(Thrown)`.
   */
  method SelectOneOf(c: Config, conn: Connection) returns (r: Result<Name, Error>, ghost got: seq<Name>, ghost pieces: seq<seq<u8>>)
    modifies conn
    ensures ReadAs(pieces, got) && Joined(pieces) <= old(conn.incoming)
    ensures conn.outgoing == old(conn.outgoing) + Frames(Replay(c, got).sent)
    ensures Verdict(Replay(c, got), r, Rest(old(conn.incoming), pieces)) && Needed(c, got)
    ensures Finished(Replay(c, got)) ==> conn.incoming == Rest(old(conn.incoming), pieces)
  {
    got, pieces := [], [];
    ghost var all, out := conn.incoming, conn.outgoing;
    Untouched(c, all, out);
    hide *;
    if c.protocols == [] {
      return Err(NegotiationFailed), got, pieces;
    }
    var ok := Open(c, conn);
    if !ok {
      return Err(Thrown), got, pieces;
    }
    if c.handshake {
      r, got, pieces := Greet(c, conn, all);
      if r.Err? {
        return;
      }
    }
    if c.initiator {
      r, got, pieces := Propose(c, conn, got, pieces, all, out);
    } else {
      r, got, pieces := Respond(c, conn, got, pieces, all, out);
    }
  }

  /** Before the first read. */
  lemma Untouched(c: Config, all: seq<u8>, out: seq<u8>)
    ensures Needed(c, []) && ReadAs([], []) && Joined([]) == [] && Rest(all, []) == all && [] + all == all && Replay(c, []) == Begin(c) && [] <= all
    ensures c.protocols == [] ==> Verdict(Begin(c), Err(NegotiationFailed), Rest(all, [])) && out + Frames(Begin(c).sent) == out
    ensures Begin(c).phase == Failed(Thrown) ==> Verdict(Begin(c), Err(Thrown), Rest(all, []))
    ensures c.protocols != [] && !Begin(c).phase.Failed? ==> Begin(c).phase == (if c.handshake then Hello else Answer) && !Finished(Begin(c))
  {
  }

  /** The other end's greeting, or the verdict without it. */
  method Greet(c: Config, conn: Connection, ghost all: seq<u8>)
    returns (r: Result<Name, Error>, ghost got: seq<Name>, ghost pieces: seq<seq<u8>>)
    requires c.protocols != [] && c.handshake && Begin(c).phase == Hello && conn.incoming == all
    modifies conn`incoming
    ensures ReadAs(pieces, got) && Joined(pieces) <= all && Replay(c, got).sent == Begin(c).sent && Needed(c, got)
    ensures Finished(Replay(c, got)) ==> conn.incoming == Rest(all, pieces)
    ensures r.Ok? ==> all == Joined(pieces) + conn.incoming && Replay(c, got).phase == Answer
    ensures r.Err? ==> Verdict(Replay(c, got), r, Rest(all, pieces))
  {
    Untouched(c, all, []);
    hide ReadAs, Joined, Progress, Replay, Writable, Begin, FailsWith, Rest, Needed;
    r, got, pieces := Take(c, conn, [], [], all);
    if r.Ok? && r.value != PROTOCOL_ID {
      r := Err(ProtocolViolation);
    }
  }

  /** The writes before the first read. */
  method Open(c: Config, conn: Connection) returns (ok: bool)
    requires c.protocols != []
    modifies conn`outgoing
    ensures conn.outgoing == old(conn.outgoing) + Frames(Begin(c).sent)
    ensures ok == !Begin(c).phase.Failed? && (!ok ==> Begin(c).phase == Failed(Thrown))
  {
    OpeningWrites(c);
    hide *;
    ghost var out := conn.outgoing;
    ok := true;
    if c.handshake {
      ok := conn.WriteOne(PROTOCOL_ID);
    }
    assert conn.outgoing == out + HelloFrame(c);
    if c.initiator {
      Regroup(out, HelloFrame(c), Frame(c.protocols[0]));
      ok := conn.WriteOne(c.protocols[0]);
    }
  }

  function HelloFrame(c: Config): seq<u8> { if c.handshake then Frame(PROTOCOL_ID) else [] }

  /** What the writes before the first read come to. */
  lemma OpeningWrites(c: Config)
    requires c.protocols != []
    ensures Writable(PROTOCOL_ID) && HelloFrame(c) == if c.handshake then Frame(PROTOCOL_ID) else []
    ensures Begin(c).phase.Failed? <==> c.initiator && !Writable(c.protocols[0])
    ensures Begin(c).phase.Failed? ==> Begin(c).phase == Failed(Thrown)
    ensures Frames(Begin(c).sent) ==
            if c.initiator && Writable(c.protocols[0]) then HelloFrame(c) + Frame(c.protocols[0]) else HelloFrame(c)
  {
    hide Frame, Writable, Frames, Greeting;
    IdWritable();
    GreetingFrames(c);
    FramesSnoc(Greeting(c), c.protocols[0]);
  }

  lemma IdWritable()
    ensures Writable(PROTOCOL_ID)
  {
    assert |PROTOCOL_ID| == 18;
  }

  lemma GreetingFrames(c: Config)
    ensures Frames(Greeting(c)) == HelloFrame(c)
  {
    hide Frame;
    assert Frames([]) == [];
    FramesSnoc([], PROTOCOL_ID);
    assert [] + [PROTOCOL_ID] == [PROTOCOL_ID];
    hide Frames;
  }

  lemma ReplaySnoc(c: Config, got: seq<Name>, name: Name)
    requires c.protocols != []
    ensures Replay(c, got + [name]) == Receive(c, Replay(c, got), name)
  {
    hide Receive;
    assert (got + [name])[..|got|] == got;
  }

  lemma RestIs(all: seq<u8>, pieces: seq<seq<u8>>, rest: seq<u8>)
    requires all == Joined(pieces) + rest
    ensures Joined(pieces) <= all && Rest(all, pieces) == rest
  {
    hide Joined;
  }

  lemma WholePiece(all: seq<u8>, k: nat, name: Name)
    requires Pending(all, k) && Progress(all[..k]) == Got(name)
    ensures Reads(all[..k], name)
  {
    hide Progress;
    assert forall j :: 0 <= j < k ==> all[..k][..j] == all[..j];
  }

  /** A read, recorded. */
  method Take(c: Config, conn: Connection, ghost got: seq<Name>, ghost pieces: seq<seq<u8>>, ghost all: seq<u8>)
    returns (r: Result<Name, Error>, ghost got': seq<Name>, ghost pieces': seq<seq<u8>>)
    requires c.protocols != [] && ReadAs(pieces, got) && all == Joined(pieces) + conn.incoming
    requires Needed(c, got) && !Finished(Replay(c, got))
    modifies conn`incoming
    ensures ReadAs(pieces', got') && Joined(pieces') <= all && Needed(c, got')
    ensures r.Ok? ==> conn.incoming == Rest(all, pieces')
    ensures r.Ok? ==> |conn.incoming| < |old(conn.incoming)| && all == Joined(pieces') + conn.incoming
    ensures got' == if r.Ok? then got + [r.value] else got
    ensures r.Err? ==> FailsWith(Rest(all, pieces'), r.error)
    ensures r.Ok? ==> Replay(c, got') == Receive(c, Replay(c, got), r.value)
  {
    hide *;
    ghost var before := conn.incoming;
    ghost var used;
    r, used := conn.ReadOne();
    got', pieces' := got, pieces;
    RestIs(all, pieces, before);
    OneRead(before, used, r);
    if r.Ok? {
      Recorded(c, got, pieces, all, before, used, r.value);
      NeededSnoc(c, got, r.value);
      got', pieces' := got + [r.value], pieces + [before[..used]];
      RestIs(all, pieces', conn.incoming);
    }
  }

  /** One read as the records see it. */
  lemma OneRead(all: seq<u8>, k: nat, r: Result<Name, Error>)
    requires Pending(all, k)
    requires match Progress(all[..k])
             case Got(name) => r == Ok(name) && k > 0
             case Bad(e) => r == Err(e)
             case Need(_) => r == Err(Closed) && k == |all|
    ensures k <= |all| && (r.Ok? ==> k > 0 && Reads(all[..k], r.value)) && (r.Err? ==> FailsWith(all, r.error))
  {
    if r.Ok? {
      WholePiece(all, k, r.value);
    } else {
      assert FailsAt(all, k, r.error);
    }
    hide Progress;
  }

  lemma Recorded(c: Config, got: seq<Name>, pieces: seq<seq<u8>>, all: seq<u8>, before: seq<u8>, used: nat, name: Name)
    requires c.protocols != [] && ReadAs(pieces, got) && all == Joined(pieces) + before && used <= |before| && Reads(before[..used], name)
    ensures ReadAs(pieces + [before[..used]], got + [name]) && all == Joined(pieces + [before[..used]]) + before[used..]
    ensures Joined(pieces + [before[..used]]) <= all
    ensures Replay(c, got + [name]) == Receive(c, Replay(c, got), name)
  {
    hide *;
    ReadAsSnoc(pieces, got, before[..used], name);
    ReplaySnoc(c, got, name);
    assert before == before[..used] + before[used..];
    Regroup(Joined(pieces), before[..used], before[used..]);
  }

  /** The initiator's loop, whose body never comes round again. */
  method Propose(c: Config, conn: Connection, ghost got: seq<Name>, ghost pieces: seq<seq<u8>>, ghost all: seq<u8>, ghost out: seq<u8>)
    returns (r: Result<Name, Error>, ghost got': seq<Name>, ghost pieces': seq<seq<u8>>)
    requires c.protocols != [] && c.initiator && Replay(c, got).phase == Answer
    requires ReadAs(pieces, got) && all == Joined(pieces) + conn.incoming && conn.outgoing == out + Frames(Replay(c, got).sent)
    requires Needed(c, got)
    modifies conn
    ensures ReadAs(pieces', got') && Joined(pieces') <= all && Needed(c, got')
    ensures Finished(Replay(c, got')) ==> conn.incoming == Rest(all, pieces')
    ensures conn.outgoing == out + Frames(Replay(c, got').sent) && Verdict(Replay(c, got'), r, Rest(all, pieces'))
  {
    StillWaiting(Replay(c, got));
    hide *;
    var i := 0;
    r, got', pieces' := Take(c, conn, got, pieces, all);
    ghost var e, e', rest := Replay(c, got), Replay(c, got'), Rest(all, pieces');
    if r.Err? {
      Interrupted(e', r, rest);
      return;
    }
    var name := r.value;
    ReplyIs(c, e, name, rest);
    if name == NA {
      i := i + 1;
      if i >= |c.protocols| {
        return Err(NegotiationFailed), got', pieces';
      }
      FramesSnoc(e.sent, c.protocols[i]);
      Regroup(out, Frames(e.sent), Frame(c.protocols[i]));
      var ok := conn.WriteOne(c.protocols[i]);
      if !ok {
        return Err(Thrown), got', pieces';
      }
    }
    if name != c.protocols[i] {
      return Err(ProtocolViolation), got', pieces';
    }
  }

  lemma Interrupted(e: End, r: Result<Name, Error>, rest: seq<u8>)
    requires e.phase == Answer && r.Err? && FailsWith(rest, r.error)
    ensures Verdict(e, r, rest) && !Finished(e)
  {
    hide FailsWith;
  }

  lemma StillWaiting(e: End)
    requires e.phase == Answer
    ensures !Finished(e)
  {
  }

  /** What the initiator writes and returns on each reply. */
  lemma ReplyIs(c: Config, e: End, name: Name, rest: seq<u8>)
    requires c.protocols != [] && c.initiator && e.phase == Answer
    ensures var e' := Receive(c, e, name);
            && (name != NA ==> e'.sent == e.sent && Verdict(e', if name == c.protocols[0] then Ok(name) else Err(ProtocolViolation), rest))
            && (name == NA && |c.protocols| == 1 ==> e'.sent == e.sent && Verdict(e', Err(NegotiationFailed), rest))
            && (name == NA && |c.protocols| > 1 && !Writable(c.protocols[1]) ==> e'.sent == e.sent && Verdict(e', Err(Thrown), rest))
            && (name == NA && |c.protocols| > 1 && Writable(c.protocols[1]) ==>
                  && e'.sent == e.sent + [c.protocols[1]]
                  && Verdict(e', if name == c.protocols[1] then Ok(name) else Err(ProtocolViolation), rest))
  {
    hide FailsWith, Writable;
  }

  method Respond(c: Config, conn: Connection, ghost got: seq<Name>, ghost pieces: seq<seq<u8>>, ghost all: seq<u8>, ghost out: seq<u8>)
    returns (r: Result<Name, Error>, ghost got': seq<Name>, ghost pieces': seq<seq<u8>>)
    requires c.protocols != [] && !c.initiator && Replay(c, got).phase == Answer
    requires ReadAs(pieces, got) && all == Joined(pieces) + conn.incoming && conn.outgoing == out + Frames(Replay(c, got).sent)
    requires Needed(c, got)
    modifies conn
    ensures ReadAs(pieces', got') && Joined(pieces') <= all && Needed(c, got')
    ensures Finished(Replay(c, got')) ==> conn.incoming == Rest(all, pieces')
    ensures conn.outgoing == out + Frames(Replay(c, got').sent) && Verdict(Replay(c, got'), r, Rest(all, pieces'))
  {
    hide Frames, ReadAs, Replay, Joined, FailsWith, Rest, Needed;
    got', pieces' := got, pieces;
    while true
      invariant Replay(c, got').phase == Answer && Needed(c, got')
      invariant ReadAs(pieces', got') && all == Joined(pieces') + conn.incoming
      invariant conn.outgoing == out + Frames(Replay(c, got').sent)
      decreases |conn.incoming|
    {
      ghost var e := Replay(c, got');
      r, got', pieces' := Take(c, conn, got', pieces', all);
      if r.Err? {
        return;
      }
      var done;
      done, r := Reply(c, conn, r.value, e, out);
      if done {
        return;
      }
    }
  }

  /** The responder's answer to one proposal. */
  method Reply(c: Config, conn: Connection, name: Name, ghost e: End, ghost out: seq<u8>)
    returns (done: bool, r: Result<Name, Error>)
    requires c.protocols != [] && !c.initiator && e.phase == Answer && conn.outgoing == out + Frames(e.sent)
    modifies conn`outgoing
    ensures conn.outgoing == out + Frames(Receive(c, e, name).sent) && done == Finished(Receive(c, e, name))
    ensures if done then r == Concluded(Receive(c, e, name)) else Receive(c, e, name).phase == Answer
  {
    hide Frames;
    r := Ok(name);
    done := name in c.protocols;
    FramesSnoc(e.sent, name);
    FramesSnoc(e.sent, NA);
    if done {
      var ok := conn.WriteOne(name);
      if !ok {
        r := Err(Thrown);
      }
    } else {
      var ok := conn.WriteOne(NA);
    }
  }

  // ---- The input decides -------------------------------------------------------------

  /** What `SelectOneOf` promises of its reads and its result. */
  ghost predicate Outcome(c: Config, all: seq<u8>, r: Result<Name, Error>, got: seq<Name>, pieces: seq<seq<u8>>) {
    ReadAs(pieces, got) && Joined(pieces) <= all && Needed(c, got) && Verdict(Replay(c, got), r, Rest(all, pieces))
  }

  lemma {:induction false} JoinedPart(pieces: seq<seq<u8>>, k: nat)
    requires k <= |pieces|
    ensures Joined(pieces[..k]) <= Joined(pieces)
    ensures k < |pieces| ==> Joined(pieces[..k + 1]) == Joined(pieces[..k]) + pieces[k]
    decreases |pieces|
  {
    assert pieces[..|pieces|] == pieces;
    if k < |pieces| {
      var init := pieces[..|pieces| - 1];
      JoinedPart(init, k);
      assert init[..k] == pieces[..k];
      assert pieces[..k + 1][..k] == pieces[..k];
    }
  }

  lemma SamePiece(rest: seq<u8>, p: seq<u8>, m: Name, q: seq<u8>, n: Name)
    requires p <= rest && q <= rest && Reads(p, m) && Reads(q, n)
    ensures p == q && m == n
  {
    OnePrefix(rest, p, q);
    OnePrefix(rest, q, p);
    hide Progress;
  }

  lemma OnePrefix(rest: seq<u8>, p: seq<u8>, q: seq<u8>)
    requires p <= rest && q <= rest
    ensures |p| <= |q| ==> q[..|p|] == p
  {
  }

  lemma NoFailure(rest: seq<u8>, p: seq<u8>, m: Name, error: Error)
    requires p <= rest && Reads(p, m)
    ensures !FailsWith(rest, error)
  {
    forall k: nat ensures !FailsAt(rest, k, error) {
      if k < |p| {
        assert rest[..k] == p[..k];
      } else {
        assert rest[..|p|] == p;
      }
    }
    hide Progress;
  }

  lemma SameFailure(rest: seq<u8>, e: Error, e': Error)
    requires FailsWith(rest, e) && FailsWith(rest, e')
    ensures e == e'
  {
    var k :| FailsAt(rest, k, e);
    var k' :| FailsAt(rest, k', e');
    hide Progress;
  }

  lemma NextPiece(all: seq<u8>, pieces: seq<seq<u8>>, k: nat)
    requires Joined(pieces) <= all && k < |pieces|
    ensures Joined(pieces[..k]) <= all && pieces[k] <= Rest(all, pieces[..k])
  {
    JoinedPart(pieces, k);
    JoinedPart(pieces, k + 1);
    hide Joined;
    CutBetween(all, Joined(pieces), Joined(pieces[..k]), pieces[k]);
  }

  lemma CutBetween(all: seq<u8>, joined: seq<u8>, a: seq<u8>, p: seq<u8>)
    requires a + p <= joined <= all
    ensures a <= all && p <= all[|a|..]
  {
    assert all[..|a + p|] == a + p;
    assert all[..|a|] == (a + p)[..|a|] == a;
    assert all[|a|..][..|p|] == all[|a|..|a| + |p|] == (a + p)[|a|..] == p;
  }

  lemma {:induction false} SameStart(all: seq<u8>, got: seq<Name>, pieces: seq<seq<u8>>, got': seq<Name>, pieces': seq<seq<u8>>, k: nat)
    requires ReadAs(pieces, got) && Joined(pieces) <= all && ReadAs(pieces', got') && Joined(pieces') <= all
    requires k <= |got| && k <= |got'|
    ensures |pieces| == |got| && |pieces'| == |got'| && pieces[..k] == pieces'[..k] && got[..k] == got'[..k]
  {
    if k > 0 {
      SameStart(all, got, pieces, got', pieces', k - 1);
      var i := k - 1;
      assert Reads(pieces[i], got[i]) && Reads(pieces'[i], got'[i]);
      hide *;
      NextPiece(all, pieces, i);
      NextPiece(all, pieces', i);
      SamePiece(Rest(all, pieces[..i]), pieces[i], got[i], pieces'[i], got'[i]);
      LongerBoth(pieces, pieces', i);
      LongerBoth(got, got', i);
    }
  }

  lemma LongerBoth<T>(s: seq<T>, t: seq<T>, i: nat)
    requires i < |s| && i < |t| && s[..i] == t[..i] && s[i] == t[i]
    ensures s[..i + 1] == t[..i + 1]
  {
    assert s[..i + 1] == s[..i] + [s[i]] && t[..i + 1] == t[..i] + [t[i]];
  }

  /** One run cannot have read fewer names than another of the same input. */
  lemma NotFewer(c: Config, all: seq<u8>, r: Result<Name, Error>, got: seq<Name>, pieces: seq<seq<u8>>,
                 r': Result<Name, Error>, got': seq<Name>, pieces': seq<seq<u8>>)
    requires Outcome(c, all, r, got, pieces) && Outcome(c, all, r', got', pieces')
    ensures |got| >= |got'|
  {
    if |got| < |got'| {
      var k := |got|;
      SameStart(all, got, pieces, got', pieces', k);
      assert got[..k] == got && pieces[..k] == pieces;
      assert !Finished(Replay(c, got'[..k])) && Reads(pieces'[k], got'[k]);
      hide Needed, Reads, Rest, FailsWith;
      NextPiece(all, pieces', k);
      NoFailure(Rest(all, pieces), pieces'[k], got'[k], r.error);
    }
  }

  /** The bytes that arrive decide what an end reads and returns, however they are cut. */
  lemma InputDecides(c: Config, all: seq<u8>, r: Result<Name, Error>, got: seq<Name>, pieces: seq<seq<u8>>,
                     r': Result<Name, Error>, got': seq<Name>, pieces': seq<seq<u8>>)
    requires Outcome(c, all, r, got, pieces) && Outcome(c, all, r', got', pieces')
    ensures r == r' && got == got' && pieces == pieces'
  {
    NotFewer(c, all, r, got, pieces, r', got', pieces');
    NotFewer(c, all, r', got', pieces', r, got, pieces);
    var k := |got|;
    SameStart(all, got, pieces, got', pieces', k);
    assert got[..k] == got && got'[..k] == got' && pieces[..k] == pieces && pieces'[..k] == pieces';
    hide Needed, ReadAs, Rest, FailsWith, Replay;
    if !Finished(Replay(c, got)) {
      SameFailure(Rest(all, pieces), r.error, r'.error);
    }
  }
}
