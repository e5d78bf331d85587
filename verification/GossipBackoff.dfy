/** Prune backoff over whole runs of a subscribed topic. */
module GossipBackoff {
  import opened Common
  import opened GossipState
  import opened GossipSteps
  import opened GossipInvariants

  ghost predicate Subscribed(s: Node, h: TopicHash) { h in s.topics && !s.topics[h].publishOnly }

  /** Backoff slots left for a peer in a topic, as `TopicBackoff::get` reports them. */
  function Remaining(s: Node, h: TopicHash, r: PeerRef): nat
    requires h in s.topics
  {
    Count(s.topics[h].backoff, r)
  }

  /** We send PRUNE to `r`: a heartbeat removes it from the mesh, or we turn down its GRAFT. */
  ghost predicate Prunes(c: Config, s: Node, e: Event, h: TopicHash, r: PeerRef)
    requires c.Usable() && Admissible(c, s, e) && Subscribed(s, h)
  {
    match e
    case Heartbeat(drop, beats) =>
      h in beats && r in PrunedBy(c, s.objects, Ticked(s.topics[h]), beats[h])
    case GraftIn(r', h', good) =>
      && r' == r && h' == h && s.objects[r].IsGossipsub() && r !in s.topics[h].mesh
      && !AcceptsGraft(c, s.objects, s.topics[h], r, good)
    case _ => false
  }

  ghost function PrunedBy(c: Config, objs: Heap, t: Topic, b: Beat): set<PeerRef>
    requires c.Usable()
  {
    var t1 := DropBad(c, objs, t, b.bad);
    t.mesh * b.bad + (t1.mesh - Resize(c, objs, t1, b.join, b.order).mesh)
  }

  /** `r` becomes a mesh member of `h` in this step. */
  ghost predicate Enters(s: Node, s': Node, h: TopicHash, r: PeerRef) {
    h in s.topics && h in s'.topics && r !in s.topics[h].mesh && r in s'.topics[h].mesh
  }

  // ---- The heartbeat -------------------------------------------------------

  lemma PruneAllCounts(c: Config, objs: Heap, b: Countdown, pruned: set<PeerRef>, r: PeerRef)
    requires c.Usable()
    ensures Count(PruneAll(c, objs, b, pruned), r) >= Count(b, r)
    ensures r in pruned && r in objs && objs[r].IsV11() ==>
              Count(PruneAll(c, objs, b, pruned), r) >= c.PruneSlots()
  {
  }

  /** What one heartbeat does to one peer of one subscribed topic. */
  ghost predicate BeatFair(c: Config, objs: Heap, t: Topic, t': Topic, pruned: bool, r: PeerRef)
    requires c.Usable()
  {
    && Count(t'.backoff, r) >= Count(t.backoff, r)
    && (r !in t.mesh && r in t'.mesh ==> Count(t.backoff, r) == 0)
    && (pruned && r in objs && objs[r].IsV11() && c.PruneSlots() > 0 ==>
          Count(t'.backoff, r) >= c.PruneSlots() && r !in t'.mesh)
  }

  lemma ResizeFair(c: Config, objs: Heap, t: Topic, b: Beat, r: PeerRef)
    requires c.Usable()
    requires |t.mesh| < c.meshLow ==> b.join <= Graftable(objs, t)
    ensures BeatFair(c, objs, t, Resize(c, objs, t, b.join, b.order), r in t.mesh - Resize(c, objs, t, b.join, b.order).mesh, r)
  {
    var left := Cut(objs, b.order, t.mesh, |Outbound(objs, t.mesh)|, c.meshN, c.outboundMin);
    CutSubset(objs, b.order, t.mesh, |Outbound(objs, t.mesh)|, c.meshN, c.outboundMin);
    PruneAllCounts(c, objs, t.backoff, t.mesh - left, r);
  }

  lemma StagesFair(c: Config, objs: Heap, t: Topic, ticks: nat, b: Beat, r: PeerRef)
    requires c.Usable()
    requires b.outs <= Graftable(objs, t) && b.extra <= Graftable(objs, FillOutbound(c, t, b.outs))
    ensures BeatFair(c, objs, t, AddExtra(c, FillOutbound(c, t, b.outs), ticks, b.weak, b.extra), false, r)
  {
  }

  lemma BeatIsFair(c: Config, objs: Heap, t: Topic, ticks: nat, b: Beat, r: PeerRef)
    requires c.Usable() && !t.publishOnly && BeatOk(c, objs, t, ticks, b)
    ensures BeatFair(c, objs, t, BeatTopic(c, objs, t, ticks, b), r in PrunedBy(c, objs, t, b), r)
    ensures !BeatTopic(c, objs, t, ticks, b).publishOnly
  {
    var t1 := DropBad(c, objs, t, b.bad);
    var t2 := Resize(c, objs, t1, b.join, b.order);
    PruneAllCounts(c, objs, t.backoff, t.mesh * b.bad, r);
    ResizeFair(c, objs, t1, b, r);
    StagesFair(c, objs, t2, ticks, b, r);
    assert BeatFair(c, objs, t, t1, r in t.mesh * b.bad, r);
    hide Resize, DropBad, FillOutbound, AddExtra;
  }

  // ---- Any step ------------------------------------------------------------

  lemma BeatEffect(c: Config, s: Node, e: Event, h: TopicHash, r: PeerRef)
    requires c.Usable() && Admissible(c, s, e) && Subscribed(s, h) && e.Heartbeat?
    ensures var s' := Apply(c, s, e);
            && Subscribed(s', h) && s'.ticks == s.ticks + 1
            && Remaining(s', h, r) + 1 >= Remaining(s, h, r)
            && (Enters(s, s', h, r) ==> Remaining(s, h, r) <= 1)
    ensures r in s.objects && s.objects[r].IsV11() && Prunes(c, s, e, h, r) && c.PruneSlots() > 0 ==>
              Remaining(Apply(c, s, e), h, r) >= c.PruneSlots() && r !in Apply(c, s, e).topics[h].mesh
  {
    hide BeatTopic, BeatOk, PrunedBy;
    var t, t' := Ticked(s.topics[h]), Apply(c, s, e).topics[h];
    assert BeatOk(c, s.objects, t, s.ticks + 1, e.beats[h]) && t' == BeatTopic(c, s.objects, t, s.ticks + 1, e.beats[h]);
    BeatIsFair(c, s.objects, t, s.ticks + 1, e.beats[h], r);
    assert BeatFair(c, s.objects, t, t', Prunes(c, s, e, h, r), r) && Apply(c, s, e).ticks == s.ticks + 1;
    assert t.mesh == s.topics[h].mesh && Count(t.backoff, r) == Monus(Count(s.topics[h].backoff, r), 1);
    hide Admissible, Apply, Ticked, Tick, Prunes;
  }

  /** Ticks and remaining slots together never go down: only a heartbeat uses up backoff, one slot each. */
  lemma StepKeepsDebt(c: Config, s: Node, e: Event, h: TopicHash, r: PeerRef)
    requires c.Usable() && Admissible(c, s, e) && Subscribed(s, h)
    ensures var s' := Apply(c, s, e);
            Subscribed(s', h) && Remaining(s', h, r) + s'.ticks >= Remaining(s, h, r) + s.ticks
  {
    if e.Heartbeat? {
      BeatEffect(c, s, e, h, r);
      hide *;
    } else {
      hide Beaten, BeatsOk, OpenOk, Candidates, Subscribers, BeatTopic, BeatOk;
    }
  }

  /** Nobody enters the mesh while it still owes slots; its own GRAFT is let in only within the slack. */
  lemma EntryNeedsNoDebt(c: Config, s: Node, e: Event, h: TopicHash, r: PeerRef)
    requires c.Usable() && Admissible(c, s, e) && Subscribed(s, h)
    requires Enters(s, Apply(c, s, e), h, r)
    ensures e.GraftIn? ==> Remaining(s, h, r) <= c.backoffSlack
    ensures !e.GraftIn? ==> Remaining(s, h, r) + s.ticks <= Apply(c, s, e).ticks
  {
    if e.Heartbeat? {
      BeatEffect(c, s, e, h, r);
      hide *;
    } else {
      hide Beaten, BeatsOk, OpenOk, Candidates, Subscribers, BeatTopic, BeatOk;
    }
  }

  lemma PruneCharges(c: Config, s: Node, e: Event, h: TopicHash, r: PeerRef)
    requires c.Usable() && Admissible(c, s, e) && Subscribed(s, h)
    requires r in s.objects && s.objects[r].IsV11() && Prunes(c, s, e, h, r)
    ensures Remaining(Apply(c, s, e), h, r) >= c.PruneSlots()
    ensures c.PruneSlots() > 0 ==> r !in Apply(c, s, e).topics[h].mesh
  {
    hide BeatTopic, BeatOk;
    if e.Heartbeat? {
      BeatEffect(c, s, e, h, r);
    } else {
      PruneAllCounts(c, s.objects, s.topics[h].backoff, {r}, r);
    }
  }

  // ---- Whole runs ----------------------------------------------------------

  lemma RunStep(c: Config, states: seq<Node>, events: seq<Event>, k: nat)
    requires c.Usable() && IsRun(c, states, events) && k + 1 < |states|
    ensures |states| == |events| + 1 && Admissible(c, states[k], events[k])
    ensures states[k + 1] == Apply(c, states[k], events[k])
  {
    hide Admissible, Apply;
  }

  lemma {:induction false} DebtOverRun(
    c: Config, states: seq<Node>, events: seq<Event>, i: nat, j: nat, h: TopicHash, r: PeerRef)
    requires c.Usable() && IsRun(c, states, events) && i <= j < |states| && Subscribed(states[i], h)
    ensures Subscribed(states[j], h)
    ensures Remaining(states[j], h, r) + states[j].ticks >= Remaining(states[i], h, r) + states[i].ticks
    decreases j
  {
    hide *;
    if i < j {
      DebtOverRun(c, states, events, i, j - 1, h, r);
      RunStep(c, states, events, j - 1);
      StepKeepsDebt(c, states[j - 1], events[j - 1], h, r);
    }
  }

  /**
   Main result. After step `i` prunes a v1.1 peer, any later step `j` that lets
   the same peer object back into the mesh comes at least
   `prune_backoff / heartbeat_interval` heartbeats later if the peer asked for
   it, and `backoff_slack` more if we did.
   */
  lemma BackoffRespected(
    c: Config, states: seq<Node>, events: seq<Event>, i: nat, j: nat, h: TopicHash, r: PeerRef)
    requires c.Usable() && IsRun(c, states, events) && i < j < |events| && Subscribed(states[i], h)
    requires r in states[i].objects && states[i].objects[r].IsV11()
    requires Prunes(c, states[i], events[i], h, r)
    requires Enters(states[j], states[j + 1], h, r)
    ensures var waited := states[j + 1].ticks - states[i + 1].ticks;
            if events[j].GraftIn? then waited >= c.PruneTicks() else waited >= c.PruneSlots()
  {
    PruneCharges(c, states[i], events[i], h, r);
    StepKeepsDebt(c, states[i], events[i], h, r);
    DebtOverRun(c, states, events, i + 1, j, h, r);
    EntryNeedsNoDebt(c, states[j], events[j], h, r);
    TicksAfter(c, states[j], events[j]);
  }

  /** Whoever owes slots after step `i` stays out for as many heartbeats, less the slack if it asks itself. */
  lemma DebtKeepsOut(
    c: Config, states: seq<Node>, events: seq<Event>, i: nat, j: nat, h: TopicHash, r: PeerRef, owed: nat)
    requires c.Usable() && IsRun(c, states, events) && i < j < |events| && Subscribed(states[i], h)
    requires Subscribed(states[i + 1], h) && Remaining(states[i + 1], h, r) >= owed
    requires Enters(states[j], states[j + 1], h, r)
    ensures var waited := states[j + 1].ticks - states[i + 1].ticks;
            waited >= if events[j].GraftIn? then owed - c.backoffSlack else owed
  {
    RunStep(c, states, events, j);
    hide *;
    DebtOverRun(c, states, events, i + 1, j, h, r);
    EntryNeedsNoDebt(c, states[j], events[j], h, r);
    TicksAfter(c, states[j], events[j]);
  }

  /** A peer that sends us PRUNE is not back in the mesh before the time it asked for. */
  lemma PruneHonoured(
    c: Config, states: seq<Node>, events: seq<Event>, i: nat, j: nat, h: TopicHash, r: PeerRef, slots: nat)
    requires c.Usable() && IsRun(c, states, events) && i < j < |events| && Subscribed(states[i], h)
    requires events[i] == PruneIn(r, h, slots) && r in states[i].objects && states[i].objects[r].IsGossipsub()
    requires Enters(states[j], states[j + 1], h, r)
    ensures var waited, owed := states[j + 1].ticks - states[i + 1].ticks, Min(slots, c.PruneSlots());
            waited >= if events[j].GraftIn? then owed - c.backoffSlack else owed
  {
    RunStep(c, states, events, i);
    StepKeepsDebt(c, states[i], events[i], h, r);
    assert Remaining(states[i + 1], h, r) >= Min(slots, c.PruneSlots());
    hide *;
    DebtKeepsOut(c, states, events, i, j, h, r, Min(slots, c.PruneSlots()));
  }

  /** Nor is a mesh member that unsubscribed before the full backoff is over. */
  lemma UnsubscribeHonoured(
    c: Config, states: seq<Node>, events: seq<Event>, i: nat, j: nat, h: TopicHash, r: PeerRef, good: bool)
    requires c.Usable() && IsRun(c, states, events) && i < j < |events| && Subscribed(states[i], h)
    requires events[i] == Subscription(r, h, false, good) && r in states[i].topics[h].mesh
    requires Enters(states[j], states[j + 1], h, r)
    ensures var waited := states[j + 1].ticks - states[i + 1].ticks;
            waited >= if events[j].GraftIn? then c.PruneTicks() else c.PruneSlots()
  {
    RunStep(c, states, events, i);
    StepKeepsDebt(c, states[i], events[i], h, r);
    assert Remaining(states[i + 1], h, r) >= c.PruneSlots();
    assert c.PruneSlots() == c.PruneTicks() + c.backoffSlack;
    hide *;
    DebtKeepsOut(c, states, events, i, j, h, r, c.PruneSlots());
  }

  lemma TicksAfter(c: Config, s: Node, e: Event)
    requires c.Usable() && Admissible(c, s, e)
    ensures Apply(c, s, e).ticks == s.ticks + (if e.Heartbeat? then 1 else 0)
  {
  }

  // ---- By peer id --------------------------------------------------------------

  lemma StepKeepsRegistered(c: Config, s: Node, e: Event, r: PeerRef)
    requires c.Usable() && Linked(s) && Admissible(c, s, e) && Registered(s, r) && e != Disconnect(s.objects[r].id)
    ensures Registered(Apply(c, s, e), r) && Apply(c, s, e).objects[r].id == s.objects[r].id
  {
    hide BeatTopic, BeatOk;
  }

  /** Without a disconnection the id keeps its object. */
  lemma {:induction false} RegisteredStays(c: Config, states: seq<Node>, events: seq<Event>, i: nat, j: nat, r: PeerRef)
    requires c.Usable() && IsRun(c, states, events) && i <= j < |states| && Registered(states[i], r)
    requires forall k :: i <= k < j ==> events[k] != Disconnect(states[i].objects[r].id)
    ensures Registered(states[j], r) && states[j].objects[r].id == states[i].objects[r].id
    decreases j
  {
    if i < j {
      RegisteredStays(c, states, events, i, j - 1, r);
      EveryRunLinked(c, states, events, j - 1);
      hide Linked, Registered;
      StepKeepsRegistered(c, states[j - 1], events[j - 1], r);
    }
  }

  lemma PrunedIsRegistered(c: Config, s: Node, e: Event, h: TopicHash, r: PeerRef)
    requires c.Usable() && Linked(s) && Admissible(c, s, e) && Subscribed(s, h) && Prunes(c, s, e, h, r)
    ensures Registered(s, r)
  {
    assert TopicOk(s, h);
    hide BeatTopic, BeatOk, Resize;
    if e.Heartbeat? {
      assert PrunedBy(c, s.objects, Ticked(s.topics[h]), e.beats[h]) <= s.topics[h].mesh;
    }
  }

  /**
   The same for whatever object bears the pruned peer's id, as long as that peer does not
   disconnect in between.
   */
  lemma BackoffRespectedById(
    c: Config, states: seq<Node>, events: seq<Event>, i: nat, j: nat, h: TopicHash, r: PeerRef, r': PeerRef)
    requires c.Usable() && IsRun(c, states, events) && i < j < |events| && Subscribed(states[i], h)
    requires r in states[i].objects && states[i].objects[r].IsV11()
    requires Prunes(c, states[i], events[i], h, r)
    requires forall k :: i <= k <= j ==> events[k] != Disconnect(states[i].objects[r].id)
    requires Enters(states[j], states[j + 1], h, r') && r' in states[j + 1].objects
    requires states[j + 1].objects[r'].id == states[i].objects[r].id
    ensures var waited := states[j + 1].ticks - states[i + 1].ticks;
            if events[j].GraftIn? then waited >= c.PruneTicks() else waited >= c.PruneSlots()
  {
    EveryRunLinked(c, states, events, i);
    EveryRunLinked(c, states, events, j + 1);
    PrunedIsRegistered(c, states[i], events[i], h, r);
    RegisteredStays(c, states, events, i, j + 1, r);
    LinkedBothWays(states[j + 1], h, r');
    assert r' == r;
    hide Linked, Prunes;
    BackoffRespected(c, states, events, i, j, h, r);
  }

  // ---- And when it disconnects -----------------------------------------------------

  /** The ring knows only objects that exist. */
  ghost predicate RingKnown(s: Node) {
    forall h, r :: h in s.topics && r in s.topics[h].backoff ==> r < s.next
  }

  lemma BeatKeys(c: Config, objs: Heap, t: Topic, ticks: nat, b: Beat)
    requires c.Usable()
    ensures BeatTopic(c, objs, t, ticks, b).backoff.Keys <= t.backoff.Keys + objs.Keys
  {
    hide Cut;
  }

  lemma StepKeepsRing(c: Config, s: Node, e: Event)
    requires c.Usable() && RegistryOk(s) && RingKnown(s) && Admissible(c, s, e)
    ensures RingKnown(Apply(c, s, e))
  {
    hide BeatTopic, BeatOk;
    var s' := Apply(c, s, e);
    forall h, r | h in s'.topics && r in s'.topics[h].backoff ensures r < s'.next {
      if e.Heartbeat? {
        BeatKeys(c, s.objects, Ticked(s.topics[h]), s.ticks + 1, e.beats[h]);
      }
      assert r in s.objects || (h in s.topics && r in s.topics[h].backoff);
    }
  }

  lemma {:induction false} EveryRunRing(c: Config, states: seq<Node>, events: seq<Event>, i: nat)
    requires c.Usable() && IsRun(c, states, events) && i < |states|
    ensures RingKnown(states[i])
  {
    if i > 0 {
      EveryRunRing(c, states, events, i - 1);
      EveryRunLinked(c, states, events, i - 1);
      StepKeepsRing(c, states[i - 1], events[i - 1]);
    }
  }

  /** The peer leaves, comes back, says what it speaks, and asks to be grafted. */
  function Comeback(id: PeerId, r: PeerRef, h: TopicHash): seq<Event> {
    [Disconnect(id), Connect(id, false), Negotiate(r, GossipsubV11), GraftIn(r, h, true)]
  }

  /** The state that step `i` of a continuation starts from. */
  ghost function Before(s: Node, ss: seq<Node>, i: nat): Node
    requires i <= |ss|
  {
    if i == 0 then s else ss[i - 1]
  }

  /** The object that a peer comes back as owes nothing and is let in at once. */
  lemma ReturnsClean(c: Config, s: Node, h: TopicHash, id: PeerId) returns (ss: seq<Node>)
    requires c.Usable() && Linked(s) && RingKnown(s) && Subscribed(s, h) && id in s.registry
    requires |s.topics[h].mesh| <= c.meshHigh
    ensures |ss| == 4 && forall i :: 0 <= i < 4 ==> Performs(c, Before(s, ss, i), Comeback(id, s.next, h)[i], ss[i])
    ensures s.next in ss[3].objects && ss[3].objects[s.next].id == id
    ensures Enters(ss[2], ss[3], h, s.next) && ss[3].ticks == s.ticks
  {
    var s1, s2, s3 := ComesBack(c, s, id);
    assert TopicOk(s, h);
    SubsetSize(s1.topics[h].mesh, s.topics[h].mesh);
    assert s.next !in s1.topics[h].mesh && s.next !in s.topics[h].backoff;
    var s4 := GraftedAtOnce(c, s3, h, s.next);
    ss := [s1, s2, s3, s4];
    hide *;
    forall i | 0 <= i < 4 ensures Performs(c, Before(s, ss, i), Comeback(id, s.next, h)[i], ss[i]) {
      FourSteps(c, s, id, h, ss, i);
    }
  }

  lemma FourSteps(c: Config, s: Node, id: PeerId, h: TopicHash, ss: seq<Node>, i: nat)
    requires c.Usable() && |ss| == 4 && i < 4
    requires Performs(c, s, Disconnect(id), ss[0]) && Performs(c, ss[0], Connect(id, false), ss[1])
    requires Performs(c, ss[1], Negotiate(s.next, GossipsubV11), ss[2]) && Performs(c, ss[2], GraftIn(s.next, h, true), ss[3])
    ensures Performs(c, Before(s, ss, i), Comeback(id, s.next, h)[i], ss[i])
  {
    hide Performs;
    if i == 0 {} else if i == 1 {} else if i == 2 {} else {}
  }

  lemma ComesBack(c: Config, s: Node, id: PeerId) returns (s1: Node, s2: Node, s3: Node)
    requires c.Usable() && RegistryOk(s) && id in s.registry
    ensures Performs(c, s, Disconnect(id), s1) && Performs(c, s1, Connect(id, false), s2)
    ensures Performs(c, s2, Negotiate(s.next, GossipsubV11), s3)
    ensures s1.topics == Forget(s, s.registry[id]) == s3.topics && s3.ticks == s.ticks
    ensures Registered(s3, s.next) && s3.objects[s.next] == Peer(id, false, Some(GossipsubV11), {})
  {
    hide Beaten, BeatsOk, OpenOk, Forget;
    s1 := Apply(c, s, Disconnect(id));
    s2 := Apply(c, s1, Connect(id, false));
    s3 := Apply(c, s2, Negotiate(s.next, GossipsubV11));
  }

  lemma GraftedAtOnce(c: Config, s: Node, h: TopicHash, r: PeerRef) returns (s': Node)
    requires c.Usable() && Registered(s, r) && s.objects[r].IsGossipsub() && Subscribed(s, h)
    requires r !in s.topics[h].mesh && r !in s.topics[h].backoff && |s.topics[h].mesh| <= c.meshHigh
    ensures Performs(c, s, GraftIn(r, h, true), s') && Enters(s, s', h, r) && s'.ticks == s.ticks
    ensures r in s'.objects && s'.objects[r].id == s.objects[r].id
  {
    hide Beaten, BeatsOk, OpenOk, Forget;
    s' := Apply(c, s, GraftIn(r, h, true));
  }

  /**
   The disconnection is what matters, because the ring is keyed by `PeerPtr`: in any run, after
   step `i` has pruned a v1.1 peer, wherever that peer is registered and the mesh is not
   overfull the run can go on with the peer leaving, returning as a new object and being
   grafted, all without a heartbeat.
   */
  lemma ReconnectEscapesBackoff(
    c: Config, states: seq<Node>, events: seq<Event>, i: nat, k: nat, h: TopicHash, r: PeerRef)
    returns (states': seq<Node>, events': seq<Event>)
    requires c.Usable() && IsRun(c, states, events) && i < k < |states| && Subscribed(states[i], h)
    requires r in states[i].objects && states[i].objects[r].IsV11() && Prunes(c, states[i], events[i], h, r)
    requires Registered(states[k], r) && h in states[k].topics && |states[k].topics[h].mesh| <= c.meshHigh
    ensures |states'| == k + 5 && states'[..k + 1] == states[..k + 1]
    ensures events' == events[..k] + Comeback(states[k].objects[r].id, states[k].next, h) && IsRun(c, states', events')
    ensures var r' := states[k].next;
            && r' in states'[k + 4].objects && states'[k + 4].objects[r'].id == states[k].objects[r].id
            && Enters(states'[k + 3], states'[k + 4], h, r') && states'[k + 4].ticks == states[k].ticks
  {
    var s := states[k];
    var id := s.objects[r].id;
    EveryRunLinked(c, states, events, k);
    EveryRunRing(c, states, events, k);
    DebtOverRun(c, states, events, i, k, h, r);
    var ss := ReturnsClean(c, s, h, id);
    Prefix(c, states, events, k);
    states', events' := states[..k + 1] + ss, events[..k] + Comeback(id, s.next, h);
    assert states'[k + 4] == ss[3] && states'[k + 3] == ss[2];
    hide *;
    Longer(c, states[..k + 1], events[..k], Comeback(id, s.next, h), ss);
  }

  lemma Prefix(c: Config, states: seq<Node>, events: seq<Event>, k: nat)
    requires c.Usable() && IsRun(c, states, events) && k <= |events|
    ensures IsRun(c, states[..k + 1], events[..k])
  {
    hide Apply, Admissible;
  }

  /** A run goes on by admissible steps. */
  lemma {:induction false} Longer(c: Config, states: seq<Node>, events: seq<Event>, es: seq<Event>, ss: seq<Node>)
    requires c.Usable() && IsRun(c, states, events) && |es| == |ss|
    requires forall i :: 0 <= i < |es| ==> Performs(c, Before(states[|events|], ss, i), es[i], ss[i])
    ensures IsRun(c, states + ss, events + es)
  {
    hide Apply, Admissible;
    var states', events' := states + ss, events + es;
    forall i | 0 <= i < |events'| ensures Performs(c, states'[i], events'[i], states'[i + 1]) {
      if i < |events| {
        assert Performs(c, states[i], events[i], states[i + 1]);
      } else {
        var j := i - |events|;
        assert Performs(c, Before(states[|events|], ss, j), es[j], ss[j]);
        assert states'[i + 1] == ss[j] && events'[i] == es[j];
        assert states'[i] == Before(states[|events|], ss, j);
      }
    }
    forall i | 0 <= i < |events'|
      ensures Admissible(c, states'[i], events'[i]) && states'[i + 1] == Apply(c, states'[i], events'[i])
    {
      assert Performs(c, states'[i], events'[i], states'[i + 1]);
    }
  }
}
