/** Both ends over a stream, their steps and the pieces of every read interleaved at will. */
module MultiselectRuns {
  import opened Common
  import opened Varint
  import opened MultiselectFrames
  import opened MultiselectEnds

  /**
   One direction of the stream. `sent` and `got` are the names written and read so far;
   `partial` is what the current read has, `flight` what was written and not read yet.
   */
  datatype Channel = Channel(sent: seq<Name>, got: seq<Name>, partial: seq<u8>, flight: seq<u8>)

  /** One end, once it has begun, with the channel that leads to it. */
  datatype Side = Side(config: Config, end: Option<End>, inbox: Channel)

  datatype World = World(initiator: Side, responder: Side)

  /** An end begins, or a read returns with `k` bytes. */
  datatype Action = Start | Read(k: nat)

  datatype Event = Event(initiator: bool, action: Action)

  predicate Can(me: Side, a: Action) {
    match a
    case Start => me.end.None?
    case Read(k) =>
      && me.end.Some? && !Finished(me.end.value)
      && var p := Progress(me.inbox.partial);
         p.Need? && 1 <= k <= p.n && k <= |me.inbox.flight|
  }

  /** The names written since reach the other end's channel. */
  function Deliver(ch: Channel, before: seq<Name>, after: seq<Name>): Channel
    requires before <= after
  {
    ch.(sent := ch.sent + after[|before|..], flight := ch.flight + Frames(after[|before|..]))
  }

  /** What `k` more bytes do to the channel and the end that reads it. */
  function TakeIn(me: Side, k: nat): Side
    requires me.end.Some? && me.config.protocols != [] && k <= |me.inbox.flight|
  {
    var ch := me.inbox;
    var partial, flight := ch.partial + ch.flight[..k], ch.flight[k..];
    match Progress(partial)
    case Need(_) => me.(inbox := ch.(partial := partial, flight := flight))
    case Bad(e) => me.(inbox := ch.(partial := partial, flight := flight), end := Some(me.end.value.(phase := Failed(e))))
    case Got(name) =>
      me.(inbox := Channel(ch.sent, ch.got + [name], [], flight), end := Some(Receive(me.config, me.end.value, name)))
  }

  function Act(me: Side, a: Action): Side
    requires Can(me, a)
  {
    match a
    case Start => me.(end := Some(Begin(me.config)))
    case Read(k) => if me.config.protocols == [] then me else TakeIn(me, k)
  }

  function Written(s: Side): seq<Name> { if s.end.Some? then s.end.value.sent else [] }

  /** No step takes back what was written. */
  lemma WrittenGrows(me: Side, a: Action)
    requires Can(me, a)
    ensures Written(me) <= Written(Act(me, a))
  {
  }

  function Step(me: Side, peer: Side, a: Action): (Side, Side)
    requires Can(me, a)
  {
    WrittenGrows(me, a);
    var me' := Act(me, a);
    (me', peer.(inbox := Deliver(peer.inbox, Written(me), Written(me'))))
  }

  predicate Possible(w: World, e: Event) {
    Can(if e.initiator then w.initiator else w.responder, e.action)
  }

  function Apply(w: World, e: Event): World
    requires Possible(w, e)
  {
    if e.initiator then
      var (me, peer) := Step(w.initiator, w.responder, e.action); World(me, peer)
    else
      var (me, peer) := Step(w.responder, w.initiator, e.action); World(peer, me)
  }

  const Idle := Channel([], [], [], [])

  ghost predicate IsRun(mine: seq<Name>, theirs: seq<Name>, handshake: bool, states: seq<World>, events: seq<Event>) {
    && |states| == |events| + 1
    && states[0] == Opening(mine, theirs, handshake)
    && forall i :: 0 <= i < |events| ==> Possible(states[i], events[i]) && states[i + 1] == Apply(states[i], events[i])
  }

  // ---- Channels -----------------------------------------------------------------

  /** The names read are the first ones written, and the bytes underway are the frames of the others. */
  ghost predicate ChannelOk(ch: Channel) {
    && |ch.got| <= |ch.sent| && ch.got == ch.sent[..|ch.got|]
    && (forall i :: 0 <= i < |ch.sent| ==> Writable(ch.sent[i]))
    && ch.partial + ch.flight == Frames(ch.sent[|ch.got|..])
    && |ch.partial| < if |ch.got| < |ch.sent| then |Frame(ch.sent[|ch.got|])| else 1
  }

  lemma {:induction false} FramesConcat(a: seq<Name>, b: seq<Name>)
    ensures Frames(a + b) == Frames(a) + Frames(b)
  {
    hide Frame;
    if b == [] {
      assert a + b == a;
    } else {
      var init, last := b[..|b| - 1], b[|b| - 1];
      FramesConcat(a, init);
      assert (a + init) + [last] == a + b;
      FramesSnoc(a + init, last);
      Regroup(Frames(a), Frames(init), Frame(last));
    }
  }

  lemma FramesHead(names: seq<Name>)
    requires names != []
    ensures Frames(names) == Frame(names[0]) + Frames(names[1..])
  {
    assert names == [names[0]] + names[1..];
    FramesConcat([names[0]], names[1..]);
    FramesSnoc([], names[0]);
    assert [] + [names[0]] == [names[0]];
  }

  lemma DeliverOk(ch: Channel, before: seq<Name>, after: seq<Name>)
    requires ChannelOk(ch) && before <= after && forall i :: 0 <= i < |after| ==> Writable(after[i])
    ensures ChannelOk(Deliver(ch, before, after))
  {
    var more, rest := after[|before|..], ch.sent[|ch.got|..];
    assert (ch.sent + more)[|ch.got|..] == rest + more;
    FramesConcat(rest, more);
    hide Frames, Frame;
    Regroup(ch.partial, ch.flight, Frames(more));
    if |ch.got| == |ch.sent| {
      if more != [] { FrameNotEmpty(more[0]); }
    }
  }

  lemma FrameNotEmpty(name: Name)
    ensures |Frame(name)| >= 2
  {
  }

  /** With a message underway a read completes exactly at the end of the first one. */
  lemma ReadOk(ch: Channel, k: nat)
    requires ChannelOk(ch) && Progress(ch.partial).Need? && 1 <= k <= Progress(ch.partial).n && k <= |ch.flight|
    ensures |ch.got| < |ch.sent|
    ensures var partial, flight, name := ch.partial + ch.flight[..k], ch.flight[k..], ch.sent[|ch.got|];
            match Progress(partial)
            case Need(_) => ChannelOk(ch.(partial := partial, flight := flight))
            case Got(n) => n == name && partial == Frame(n) && ChannelOk(Channel(ch.sent, ch.got + [n], [], flight))
            case Bad(_) => false
  {
    hide Progress, Frame, Frames;
    Underway(ch);
    var name, rest := ch.sent[|ch.got|], ch.sent[|ch.got| + 1..];
    var f, m := Frame(name), |ch.partial| + k;
    FrameProgress(name, |ch.partial|);
    SplitFrame(ch.partial, ch.flight, f, Frames(rest), k);
    FrameProgress(name, m);
    if m < |f| {
      assert Progress(ch.partial + ch.flight[..k]).Need?;
    } else {
      assert f[..m] == f;
      assert ch.got + [name] == ch.sent[..|ch.got| + 1];
      if rest != [] { FrameNotEmpty(rest[0]); }
    }
  }

  lemma Underway(ch: Channel)
    requires ChannelOk(ch) && ch.flight != []
    ensures |ch.got| < |ch.sent| && ch.partial + ch.flight == Frame(ch.sent[|ch.got|]) + Frames(ch.sent[|ch.got| + 1..])
  {
    var rest := ch.sent[|ch.got|..];
    if rest != [] {
      FramesHead(rest);
      assert rest[1..] == ch.sent[|ch.got| + 1..];
    }
    hide Frame;
  }

  /** The bytes underway start with the rest of a frame. */
  lemma SplitFrame(partial: seq<u8>, flight: seq<u8>, f: seq<u8>, later: seq<u8>, k: nat)
    requires partial + flight == f + later && |partial| < |f| && k <= |flight|
    ensures partial == f[..|partial|]
    ensures (partial + flight[..k]) + flight[k..] == partial + flight
    ensures |partial| + k <= |f| ==> partial + flight[..k] == f[..|partial| + k]
    ensures |partial| + k == |f| ==> [] + flight[k..] == later
  {
    var all := partial + flight;
    assert all[..|partial|] == partial && (f + later)[..|partial|] == f[..|partial|];
    assert all[..|partial| + k] == partial + flight[..k];
    if |partial| + k <= |f| {
      assert (f + later)[..|partial| + k] == f[..|partial| + k];
    }
    if |partial| + k == |f| {
      assert all[|f|..] == flight[k..] && (f + later)[|f|..] == later;
    }
  }

  // ---- What an end has written, given what it has read ------------------------------

  /** The name an initiator still writes when its first choice is refused. */
  ghost function Retry(c: Config, reply: Name): seq<Name> {
    if reply == NA && |c.protocols| > 1 && Writable(c.protocols[1]) then [c.protocols[1]] else []
  }

  ghost predicate InitiatorShape(c: Config, e: End, got: seq<Name>)
    requires c.protocols != []
  {
    var g, first := Greeting(c), c.protocols[0];
    match e.phase
    case Hello => c.handshake && got == [] && e.sent == g + [first]
    case Answer => got == g && e.sent == g + [first]
    case Done(name) => name == first && got == g + [first] && e.sent == g + [first]
    case Failed(_) =>
      if !Writable(first) then got == [] && e.sent == g
      else
        || (c.handshake && |got| == 1 && got[0] != PROTOCOL_ID && e.sent == g + [first])
        || (|got| == |g| + 1 && got[|g|] != first && e.sent == g + [first] + Retry(c, got[|g|]))
  }

  /** Every proposal before the last was unknown and was answered by a refusal. */
  ghost predicate Refused(c: Config, e: End, got: seq<Name>, n: nat) {
    && n <= |got| && n <= |e.sent| && |Greeting(c)| <= n
    && forall i :: |Greeting(c)| <= i < n ==> got[i] !in c.protocols && e.sent[i] == NA
  }

  ghost predicate ResponderShape(c: Config, e: End, got: seq<Name>) {
    var g := Greeting(c);
    match e.phase
    case Hello => c.handshake && got == [] && e.sent == g
    case Answer => g <= got && |e.sent| == |got| && Refused(c, e, got, |got|)
    case Done(name) =>
      && g <= got && |e.sent| == |got| > |g| && Refused(c, e, got, |got| - 1)
      && name in c.protocols && got[|got| - 1] == name == e.sent[|got| - 1]
    case Failed(_) =>
      || (c.handshake && |got| == 1 && got[0] != PROTOCOL_ID && e.sent == g)
      || (|got| > |g| && |e.sent| == |got| - 1 && !Writable(got[|got| - 1]) && Refused(c, e, got, |got| - 1))
  }

  ghost predicate Shape(c: Config, e: End, got: seq<Name>) {
    && (forall i :: 0 <= i < |e.sent| ==> Writable(e.sent[i]))
    && if c.protocols == [] then e == End(Failed(NegotiationFailed), []) && got == []
       else Greeting(c) <= e.sent && if c.initiator then InitiatorShape(c, e, got) else ResponderShape(c, e, got)
  }

  /** The initiator does not itself offer the word for a refusal. */
  ghost predicate Plain(c: Config) { c.initiator ==> NA !in c.protocols }

  lemma BeginShape(c: Config)
    ensures Shape(c, Begin(c), [])
  {
  }

  lemma ReceiveShape(c: Config, e: End, got: seq<Name>, name: Name)
    requires Plain(c) && Shape(c, e, got) && !Finished(e)
    ensures Shape(c, Receive(c, e, name), got + [name])
  {
    if c.initiator {
      InitiatorReceives(c, e, got, name);
    } else {
      ResponderReceives(c, e, got, name);
    }
  }

  lemma InitiatorReceives(c: Config, e: End, got: seq<Name>, name: Name)
    requires c.protocols != [] && c.initiator && Plain(c) && Shape(c, e, got) && !Finished(e)
    ensures Shape(c, Receive(c, e, name), got + [name])
  {
    hide Writable;
    assert Writable(e.sent[|e.sent| - 1]);
    assert c.protocols[0] in c.protocols;
    if |c.protocols| > 1 { assert c.protocols[1] in c.protocols; }
    if e.phase == Hello {
      assert [] + [name] == [name];
    } else {
      AnswerReceives(c, e, got, name);
    }
  }

  lemma AnswerReceives(c: Config, e: End, got: seq<Name>, name: Name)
    requires c.protocols != [] && c.initiator && e.phase == Answer && Shape(c, e, got)
    requires Writable(c.protocols[0]) && NA != c.protocols[0] && (|c.protocols| > 1 ==> NA != c.protocols[1])
    ensures Shape(c, Receive(c, e, name), got + [name])
  {
    hide Writable;
    var g, first := Greeting(c), c.protocols[0];
    assert (got + [name])[|g|] == name;
    if name != NA {
      assert g + [first] + [] == g + [first];
    }
  }

  lemma ResponderReceives(c: Config, e: End, got: seq<Name>, name: Name)
    requires c.protocols != [] && !c.initiator && Shape(c, e, got) && !Finished(e)
    ensures Shape(c, Receive(c, e, name), got + [name])
  {
  }

  // ---- Whole runs ---------------------------------------------------------------------

  ghost predicate SideOk(me: Side, peer: Side) {
    && Plain(me.config) && ChannelOk(me.inbox) && peer.inbox.sent == Written(me)
    && match me.end
       case None => me.inbox.got == [] && me.inbox.partial == []
       case Some(e) => Shape(me.config, e, me.inbox.got)
  }

  ghost predicate Coherent(w: World) { SideOk(w.initiator, w.responder) && SideOk(w.responder, w.initiator) }

  lemma ActOk(me: Side, peer: Side, a: Action)
    requires SideOk(me, peer) && Can(me, a)
    ensures var me' := Act(me, a);
            && Plain(me'.config) && ChannelOk(me'.inbox) && me'.inbox.sent == me.inbox.sent
            && me'.end.Some? && Shape(me'.config, me'.end.value, me'.inbox.got)
  {
    match a
    case Start => BeginShape(me.config);
    case Read(k) =>
      assert me.config.protocols != [];
      ReadOk(me.inbox, k);
      hide ChannelOk, Progress, Receive;
      match Progress(me.inbox.partial + me.inbox.flight[..k])
      case Got(name) => ReceiveShape(me.config, me.end.value, me.inbox.got, name);
      case Need(_) =>
  }

  lemma StepOk(me: Side, peer: Side, a: Action)
    requires SideOk(me, peer) && SideOk(peer, me) && Can(me, a)
    ensures var (me', peer') := Step(me, peer, a); SideOk(me', peer') && SideOk(peer', me')
  {
    ActOk(me, peer, a);
    WrittenGrows(me, a);
    var me' := Act(me, a);
    var before, after := Written(me), Written(me');
    assert Shape(me'.config, me'.end.value, me'.inbox.got);
    DeliverOk(peer.inbox, before, after);
    var peer' := peer.(inbox := Deliver(peer.inbox, before, after));
    assert peer'.inbox.sent == after by { assert before + after[|before|..] == after; }
    assert Step(me, peer, a) == (me', peer');
    hide Act, Can, ChannelOk, Shape, Plain, Deliver, Written, Step;
  }

  function Opening(mine: seq<Name>, theirs: seq<Name>, handshake: bool): World {
    World(Side(Config(mine, true, handshake), None, Idle), Side(Config(theirs, false, handshake), None, Idle))
  }

  lemma OpeningOk(mine: seq<Name>, theirs: seq<Name>, handshake: bool)
    requires NA !in mine
    ensures Coherent(Opening(mine, theirs, handshake))
  {
  }

  ghost predicate SameConfigs(w: World, w': World) {
    w.initiator.config == w'.initiator.config && w.responder.config == w'.responder.config
  }

  lemma ApplyOk(w: World, e: Event)
    requires Coherent(w) && Possible(w, e)
    ensures Coherent(Apply(w, e)) && SameConfigs(w, Apply(w, e))
  {
    hide SideOk, Can;
    if e.initiator {
      StepOk(w.initiator, w.responder, e.action);
    } else {
      StepOk(w.responder, w.initiator, e.action);
    }
  }

  lemma {:induction false} EveryRunCoherent(mine: seq<Name>, theirs: seq<Name>, handshake: bool, states: seq<World>, events: seq<Event>, k: nat)
    requires IsRun(mine, theirs, handshake, states, events) && NA !in mine && k < |states|
    ensures Coherent(states[k]) && SameConfigs(states[k], Opening(mine, theirs, handshake))
  {
    hide Coherent, Possible, Apply;
    if k == 0 {
      OpeningOk(mine, theirs, handshake);
    } else {
      EveryRunCoherent(mine, theirs, handshake, states, events, k - 1);
      ApplyOk(states[k - 1], events[k - 1]);
    }
  }
}
