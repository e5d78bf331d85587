/** How a negotiation can end, and that it does. */
module MultiselectOutcomes {
  import opened Common
  import opened Varint
  import opened MultiselectFrames
  import opened MultiselectEnds
  import opened MultiselectRuns

  /** Nothing is left on the way to this end. */
  ghost predicate Drained(ch: Channel) { ch.got == ch.sent && ch.partial == [] && ch.flight == [] }

  /** An end that waits with nothing in flight has read all that was written to it. */
  lemma NothingInFlight(ch: Channel)
    requires ChannelOk(ch) && ch.flight == []
    ensures Drained(ch)
  {
    var rest := ch.sent[|ch.got|..];
    if rest != [] {
      FramesHead(rest);
      hide Frame;
      assert false;
    } else {
      assert ch.got == ch.sent;
    }
  }

  lemma AllRead(ch: Channel)
    requires ChannelOk(ch) && |ch.got| == |ch.sent|
    ensures Drained(ch)
  {
    assert ch.sent[|ch.got|..] == [] && Frames([]) == [];
    assert ch.got == ch.sent;
  }

  /**
   Agreement: if both ends succeed they hold the same name, it is in both lists, it is the
   initiator's first choice, and no byte of the negotiation is left in the stream.
   */
  lemma Agreement(mine: seq<Name>, theirs: seq<Name>, handshake: bool, states: seq<World>, events: seq<Event>, k: nat, p: Name, q: Name)
    requires IsRun(mine, theirs, handshake, states, events) && NA !in mine && k < |states|
    requires var w := states[k];
             w.initiator.end.Some? && w.initiator.end.value.phase == Done(p) &&
             w.responder.end.Some? && w.responder.end.value.phase == Done(q)
    ensures p == q && p in theirs && p in mine && p == mine[0]
    ensures Drained(states[k].initiator.inbox) && Drained(states[k].responder.inbox)
  {
    EveryRunCoherent(mine, theirs, handshake, states, events, k);
    BothDone(states[k], p, q);
  }

  lemma BothDone(w: World, p: Name, q: Name)
    requires Coherent(w) && w.initiator.config.initiator && !w.responder.config.initiator
    requires w.initiator.config.handshake == w.responder.config.handshake
    requires w.initiator.end.Some? && w.initiator.end.value.phase == Done(p)
    requires w.responder.end.Some? && w.responder.end.value.phase == Done(q)
    ensures var mine := w.initiator.config.protocols;
            p == q && p in w.responder.config.protocols && mine != [] && p == mine[0]
    ensures Drained(w.initiator.inbox) && Drained(w.responder.inbox)
  {
    var i, r := w.initiator, w.responder;
    var g := Greeting(i.config);
    assert i.inbox.got == g + [p] && i.inbox.sent == r.end.value.sent;
    assert i.inbox.got[|g|] == r.end.value.sent[|g|];
    assert r.inbox.got == i.end.value.sent[..|r.inbox.got|];
    AllRead(i.inbox);
    AllRead(r.inbox);
    hide ChannelOk;
  }

  // ---- Runs that can go no further ----------------------------------------------------

  ghost predicate Quiet(w: World) { forall e :: !Possible(w, e) }

  /** An end that waits can read whenever something is in flight to it. */
  lemma WaitingReads(me: Side, peer: Side)
    requires SideOk(me, peer) && me.end.Some? && !Finished(me.end.value) && me.inbox.flight != []
    ensures Can(me, Read(1))
  {
    var ch := me.inbox;
    Underway(ch);
    SplitFrame(ch.partial, ch.flight, Frame(ch.sent[|ch.got|]), Frames(ch.sent[|ch.got| + 1..]), 0);
    FrameProgress(ch.sent[|ch.got|], |ch.partial|);
    hide Progress;
  }

  lemma QuietSides(w: World)
    requires Coherent(w) && Quiet(w)
    ensures w.initiator.end.Some? && (Finished(w.initiator.end.value) || Drained(w.initiator.inbox))
    ensures w.responder.end.Some? && (Finished(w.responder.end.value) || Drained(w.responder.inbox))
  {
    var i, r := w.initiator, w.responder;
    hide SideOk, ChannelOk, Progress;
    assert !Possible(w, Event(true, Start)) && !Possible(w, Event(false, Start));
    assert !Possible(w, Event(true, Read(1))) && !Possible(w, Event(false, Read(1)));
    if !Finished(i.end.value) { QuietSide(i, r); }
    if !Finished(r.end.value) { QuietSide(r, i); }
  }

  lemma QuietSide(me: Side, peer: Side)
    requires SideOk(me, peer) && me.end.Some? && !Finished(me.end.value) && !Can(me, Read(1))
    ensures Drained(me.inbox)
  {
    hide Can, Drained;
    if me.inbox.flight != [] {
      WaitingReads(me, peer);
    } else {
      NothingInFlight(me.inbox);
    }
  }

  /**
   The two ends of a run that can go no further: what each has read is what the other has
   written, up to where it stopped, and whoever still waits has read it all.
   */
  ghost predicate Stuck(c: Config, e: End, got: seq<Name>, d: Config, f: End, heard: seq<Name>) {
    && c.initiator && !d.initiator && c.handshake == d.handshake
    && Plain(c) && c.protocols != [] && d.protocols != [] && Writable(c.protocols[0])
    && Shape(c, e, got) && got <= f.sent && (Finished(e) || got == f.sent)
    && Shape(d, f, heard) && heard <= e.sent && (Finished(f) || heard == e.sent)
  }

  lemma ResponderHeard(c: Config, e: End, got: seq<Name>, d: Config, f: End, heard: seq<Name>)
    requires Stuck(c, e, got, d, f, heard)
    ensures var g := |Greeting(c)|; |heard| > g && heard[g] == c.protocols[0]
  {
    var g, first := Greeting(c), c.protocols[0];
    assert (g + [first])[|g|] == first;
    assert g + [first] <= e.sent && e.sent[|g|] == first;
    hide Writable;
  }

  lemma ResponderAnswered(c: Config, e: End, got: seq<Name>, d: Config, f: End, heard: seq<Name>)
    requires Stuck(c, e, got, d, f, heard)
    ensures var g, first := |Greeting(c)|, c.protocols[0];
            |f.sent| > g && f.sent[g] == if first in d.protocols then first else NA
    ensures c.protocols[0] in d.protocols ==> f.phase == Done(c.protocols[0]) && |f.sent| == |heard| == |Greeting(c)| + 1
  {
    ResponderHeard(c, e, got, d, f, heard);
    var g, first := |Greeting(c)|, c.protocols[0];
    assert |heard| > g + 1 ==> heard[g] !in d.protocols;
    hide InitiatorShape;
  }

  lemma InitiatorAnswered(c: Config, e: End, got: seq<Name>, d: Config, f: End, heard: seq<Name>)
    requires Stuck(c, e, got, d, f, heard)
    ensures var first := c.protocols[0];
            if first in d.protocols then e.phase == Done(first) && got == f.sent && heard == e.sent
            else e.phase.Failed? && e.sent == Greeting(c) + [first] + Retry(c, NA)
  {
    ResponderAnswered(c, e, got, d, f, heard);
    var g, first := Greeting(c), c.protocols[0];
    assert first in c.protocols;
    assert |got| > |g| ==> got[|g|] == f.sent[|g|];
    assert |got| > 0 ==> got[0] == f.sent[0];
    hide ResponderShape, Writable;
  }

  lemma StuckInQuiet(w: World)
    requires Coherent(w) && Quiet(w) && w.initiator.config.initiator && !w.responder.config.initiator
    requires w.initiator.config.handshake == w.responder.config.handshake
    requires w.initiator.config.protocols != [] && w.responder.config.protocols != []
    requires Writable(w.initiator.config.protocols[0])
    ensures w.initiator.end.Some? && w.responder.end.Some?
    ensures Stuck(w.initiator.config, w.initiator.end.value, w.initiator.inbox.got,
                  w.responder.config, w.responder.end.value, w.responder.inbox.got)
  {
    QuietSides(w);
    hide Shape, Quiet, Writable, Frames, Frame;
  }

  /**
   A run that can go no further, with neither list empty: if the responder supports the
   initiator's first choice, both have returned it and the stream is empty; if not, the
   initiator has failed, and a responder that supports the second choice has returned that.
   */
  lemma QuietOutcome(mine: seq<Name>, theirs: seq<Name>, handshake: bool, states: seq<World>, events: seq<Event>, k: nat)
    requires IsRun(mine, theirs, handshake, states, events) && NA !in mine && k < |states|
    requires Quiet(states[k]) && mine != [] && theirs != [] && Writable(mine[0])
    ensures states[k].initiator.end.Some? && states[k].responder.end.Some?
    ensures var i, r := states[k].initiator, states[k].responder;
            if mine[0] in theirs then
              i.end.value.phase == Done(mine[0]) == r.end.value.phase && Drained(i.inbox) && Drained(r.inbox)
            else
              && i.end.value.phase.Failed?
              && (|mine| > 1 && Writable(mine[1]) && mine[1] in theirs ==> r.end.value.phase == Done(mine[1]))
  {
    EveryRunCoherent(mine, theirs, handshake, states, events, k);
    var w := states[k];
    var i, r := w.initiator, w.responder;
    StuckInQuiet(w);
    InitiatorAnswered(i.config, i.end.value, i.inbox.got, r.config, r.end.value, r.inbox.got);
    ResponderAnswered(i.config, i.end.value, i.inbox.got, r.config, r.end.value, r.inbox.got);
    if mine[0] in theirs {
      assert ChannelOk(i.inbox) && ChannelOk(r.inbox);
      AllRead(i.inbox);
      AllRead(r.inbox);
    } else if |mine| > 1 && Writable(mine[1]) && mine[1] in theirs {
      SecondChoice(i.config, i.end.value, i.inbox.got, r.config, r.end.value, r.inbox.got);
    }
    hide *;
  }

  /** The second name of an initiator that is about to fail is still an acceptable proposal. */
  lemma SecondChoice(c: Config, e: End, got: seq<Name>, d: Config, f: End, heard: seq<Name>)
    requires Stuck(c, e, got, d, f, heard) && c.protocols[0] !in d.protocols
    requires |c.protocols| > 1 && Writable(c.protocols[1]) && c.protocols[1] in d.protocols
    ensures f.phase == Done(c.protocols[1])
  {
    InitiatorAnswered(c, e, got, d, f, heard);
    ResponderHeard(c, e, got, d, f, heard);
    var g := Greeting(c);
    assert e.sent == g + [c.protocols[0]] + [c.protocols[1]];
    assert |heard| > |g| + 1 ==> heard[|g| + 1] == c.protocols[1];
    hide InitiatorShape;
  }

  // ---- Every run ends --------------------------------------------------------------------

  /** Bytes taken from a channel so far. */
  ghost function Consumed(ch: Channel): nat { |Frames(ch.got)| + |ch.partial| }

  ghost function Spent(s: Side): nat { Consumed(s.inbox) + if s.end.Some? then 1 else 0 }

  lemma {:induction false} FramesBound(names: seq<Name>)
    requires forall i :: 0 <= i < |names| ==> Writable(names[i])
    ensures |Frames(names)| <= |names| * MAX_MESSAGE_SIZE
  {
    if names != [] {
      FramesBound(names[..|names| - 1]);
      FrameSize(names[|names| - 1]);
      hide Frame;
    }
  }

  /** No more is taken than was written. */
  lemma ConsumedBound(ch: Channel)
    requires ChannelOk(ch)
    ensures Consumed(ch) <= |ch.sent| * MAX_MESSAGE_SIZE
  {
    FramesConcat(ch.got, ch.sent[|ch.got|..]);
    assert ch.got + ch.sent[|ch.got|..] == ch.sent;
    FramesBound(ch.sent);
    hide Frame, Frames, Writable;
  }

  /** Each step starts an end or takes at least a byte. */
  lemma ActSpends(me: Side, peer: Side, a: Action)
    requires SideOk(me, peer) && Can(me, a)
    ensures Spent(Act(me, a)) > Spent(me)
  {
    match a
    case Start =>
    case Read(k) =>
      ReadOk(me.inbox, k);
      var ch := me.inbox;
      var partial := ch.partial + ch.flight[..k];
      hide ChannelOk, Frame, Frames;
      match Progress(partial)
      case Need(_) =>
      case Got(name) => FramesSnoc(ch.got, name);
  }

  lemma {:induction false} StepsAreSpent(mine: seq<Name>, theirs: seq<Name>, handshake: bool, states: seq<World>, events: seq<Event>, k: nat)
    requires IsRun(mine, theirs, handshake, states, events) && NA !in mine && k < |states|
    ensures k <= Spent(states[k].initiator) + Spent(states[k].responder)
  {
    hide Coherent, Possible, Apply, Spent;
    if k == 0 {
      NothingSpent(mine, theirs, handshake);
    } else {
      StepsAreSpent(mine, theirs, handshake, states, events, k - 1);
      EveryRunCoherent(mine, theirs, handshake, states, events, k - 1);
      ApplySpends(states[k - 1], events[k - 1]);
    }
  }

  lemma NothingSpent(mine: seq<Name>, theirs: seq<Name>, handshake: bool)
    ensures var w := Opening(mine, theirs, handshake); Spent(w.initiator) == Spent(w.responder) == 0
  {
  }

  lemma ApplySpends(w: World, e: Event)
    requires Coherent(w) && Possible(w, e)
    ensures var w' := Apply(w, e);
            Spent(w'.initiator) + Spent(w'.responder) > Spent(w.initiator) + Spent(w.responder)
  {
    hide SideOk, Can, Frames;
    if e.initiator {
      ActSpends(w.initiator, w.responder, e.action);
    } else {
      ActSpends(w.responder, w.initiator, e.action);
    }
  }

  /** At most three names go either way, so every run is over after a fixed number of steps. */
  lemma EveryRunEnds(mine: seq<Name>, theirs: seq<Name>, handshake: bool, states: seq<World>, events: seq<Event>)
    requires IsRun(mine, theirs, handshake, states, events) && NA !in mine
    ensures |events| <= 2 + 6 * MAX_MESSAGE_SIZE
  {
    var k := |events|;
    StepsAreSpent(mine, theirs, handshake, states, events, k);
    EveryRunCoherent(mine, theirs, handshake, states, events, k);
    var i, r := states[k].initiator, states[k].responder;
    FewNames(i, r);
    ConsumedBound(i.inbox);
    ConsumedBound(r.inbox);
    hide *;
  }

  lemma FewNames(i: Side, r: Side)
    requires SideOk(i, r) && SideOk(r, i) && i.config.initiator && !r.config.initiator
    requires i.config.handshake == r.config.handshake
    ensures |i.inbox.sent| <= 3 && |r.inbox.sent| <= 3
  {
    hide Writable, Frames, Frame;
  }
}
