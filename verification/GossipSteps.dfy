/**
 The steps of a node. Randomness (`choose`, `shuffle`) and the peer score are
 oracles: their answers travel inside the event, and `Admissible` says which
 answers the code can produce. Because the score is arbitrary, "chosen among
 those with an acceptable score" is any subset within the size limit.
 */
module GossipSteps {
  import opened Common
  import opened GossipState

  /** Oracle answers consumed by one topic during one heartbeat. */
  datatype Beat = Beat(
    bad: set<PeerRef>,      // mesh members scored below the limit
    join: set<PeerRef>,     // chosen to refill a thin mesh
    order: seq<PeerRef>,    // the shuffled mesh walked when it is overfull
    outs: set<PeerRef>,     // outbound peers chosen to meet the quota
    weak: bool,             // median score under the opportunistic threshold
    extra: set<PeerRef>)    // opportunistic grafts

  datatype Event =
    | Connect(id: PeerId, out: bool)
    | Negotiate(r: PeerRef, kind: Kind)
    | Disconnect(id: PeerId)
    | Subscription(r: PeerRef, h: TopicHash, on: bool, good: bool)
    | GraftIn(r: PeerRef, h: TopicHash, good: bool)
    | PruneIn(r: PeerRef, h: TopicHash, slots: nat)
    | Open(h: TopicHash, publishOnly: bool, kept: set<PeerRef>, more: set<PeerRef>)
    | Broadcast(h: TopicHash, publish: bool, chosen: set<PeerRef>)
    | Heartbeat(drop: set<TopicHash>, beats: map<TopicHash, Beat>)

  // ---- Overfull mesh -------------------------------------------------------

  /** Walk of the shuffled mesh that removes members until `n` are left, sparing the outbound quota. */
  function Cut(objs: Heap, order: seq<PeerRef>, mesh: set<PeerRef>, outbound: nat, n: nat, quota: nat): set<PeerRef> {
    if order == [] || |mesh| <= n then mesh
    else
      var p := order[0];
      if p in objs && objs[p].out then
        if outbound <= quota then Cut(objs, order[1..], mesh, outbound, n, quota)
        else Cut(objs, order[1..], mesh - {p}, outbound - 1, n, quota)
      else Cut(objs, order[1..], mesh - {p}, outbound, n, quota)
  }

  // ---- Heartbeat of one topic, stage by stage ------------------------------

  function DropBad(c: Config, objs: Heap, t: Topic, bad: set<PeerRef>): Topic
    requires c.Usable()
  {
    t.(mesh := t.mesh - bad, backoff := PruneAll(c, objs, t.backoff, t.mesh * bad))
  }

  function Resize(c: Config, objs: Heap, t: Topic, join: set<PeerRef>, order: seq<PeerRef>): Topic
    requires c.Usable()
  {
    if |t.mesh| < c.meshLow then t.(mesh := t.mesh + join)
    else if |t.mesh| > c.meshHigh then
      var left := Cut(objs, order, t.mesh, |Outbound(objs, t.mesh)|, c.meshN, c.outboundMin);
      t.(mesh := left, backoff := PruneAll(c, objs, t.backoff, t.mesh - left))
    else t
  }

  function FillOutbound(c: Config, t: Topic, outs: set<PeerRef>): Topic {
    if |t.mesh| >= c.meshLow then t.(mesh := t.mesh + outs) else t
  }

  function AddExtra(c: Config, t: Topic, ticks: nat, weak: bool, extra: set<PeerRef>): Topic
    requires c.Usable()
  {
    if ticks % c.oppTicks == 0 && |t.mesh| > 1 && weak then t.(mesh := t.mesh + extra) else t
  }

  function BeatTopic(c: Config, objs: Heap, t: Topic, ticks: nat, b: Beat): Topic
    requires c.Usable()
  {
    if t.publishOnly then t.(mesh := t.mesh - b.bad + b.join)
    else
      AddExtra(c, FillOutbound(c, Resize(c, objs, DropBad(c, objs, t, b.bad), b.join, b.order), b.outs), ticks, b.weak, b.extra)
  }

  ghost predicate Permutes(order: seq<PeerRef>, s: set<PeerRef>) {
    Distinct(order) && Elements(order) == s
  }

  ghost predicate BeatOk(c: Config, objs: Heap, t: Topic, ticks: nat, b: Beat)
    requires c.Usable()
  {
    if t.publishOnly then
      && b.join <= Candidates(objs, t.peers, t.mesh - b.bad)
      && |b.join| <= Monus(c.meshN, |t.mesh - b.bad|)
    else
      var t1 := DropBad(c, objs, t, b.bad);
      var t2 := Resize(c, objs, t1, b.join, b.order);
      var t3 := FillOutbound(c, t2, b.outs);
      && (|t1.mesh| < c.meshLow ==>
            b.join <= Graftable(objs, t1) && |b.join| <= Monus(c.meshN, |t1.mesh|))
      && (c.meshLow <= |t1.mesh| && |t1.mesh| > c.meshHigh ==> Permutes(b.order, t1.mesh))
      && b.outs <= Outbound(objs, Graftable(objs, t2))
      && |b.outs| <= Monus(c.outboundMin, |Outbound(objs, t2.mesh)|)
      && b.extra <= Graftable(objs, t3)
      && |b.extra| <= c.oppPeers
  }

  // ---- Inbound control messages on one topic -------------------------------

  /** SUBSCRIBE from a peer: it becomes a subscriber, and is grafted when the mesh is thin. */
  predicate GraftsOnSubscribe(c: Config, objs: Heap, t: Topic, r: PeerRef, good: bool) {
    !t.publishOnly && r in objs && objs[r].IsGossipsub() && |t.mesh| < c.meshLow
    && r !in t.mesh && Count(t.backoff, r) == 0 && good
  }

  function SubscribeTopic(c: Config, objs: Heap, t: Topic, r: PeerRef, good: bool): Topic {
    var t1 := t.(peers := t.peers + {r});
    if GraftsOnSubscribe(c, objs, t, r, good) then t1.(mesh := t.mesh + {r}) else t1
  }

  function UnsubscribeTopic(c: Config, t: Topic, r: PeerRef): Topic
    requires c.Usable()
  {
    t.(peers := t.peers - {r},
       mesh := t.mesh - {r},
       backoff := if r in t.mesh then Extend(t.backoff, r, c.PruneSlots(), c.PruneSlots()) else t.backoff)
  }

  predicate AcceptsGraft(c: Config, objs: Heap, t: Topic, r: PeerRef, good: bool) {
    && Count(t.backoff, r) <= c.backoffSlack
    && ((r in objs && objs[r].out) || |t.mesh| <= c.meshHigh)
    && good
  }

  function GraftTopic(c: Config, objs: Heap, t: Topic, r: PeerRef, good: bool): Topic
    requires c.Usable()
  {
    var t1 := t.(peers := t.peers + {r});
    if t.publishOnly || r in t.mesh then t1
    else if AcceptsGraft(c, objs, t, r, good) then t1.(mesh := t.mesh + {r})
    else t1.(backoff := PruneAll(c, objs, t.backoff, {r}))
  }

  function PruneTopic(c: Config, t: Topic, r: PeerRef, slots: nat): Topic
    requires c.Usable()
  {
    t.(mesh := t.mesh - {r}, backoff := Extend(t.backoff, r, slots, c.PruneSlots()))
  }

  // ---- Opening a topic -----------------------------------------------------

  function Subscribers(s: Node, h: TopicHash): set<PeerRef> {
    set r | r in s.objects && Registered(s, r) && h in s.objects[r].topics
  }

  function Opened(s: Node, h: TopicHash, publishOnly: bool): Topic {
    if h in s.topics then s.topics[h] else Topic(publishOnly, Subscribers(s, h), {}, map[])
  }

  /** `getOrCreateTopic`; `kept` and `more` are grafted when a publish-only topic is upgraded. */
  function OpenTopic(s: Node, h: TopicHash, publishOnly: bool, kept: set<PeerRef>, more: set<PeerRef>): Topic {
    var t := Opened(s, h, publishOnly);
    if !publishOnly && t.publishOnly then t.(publishOnly := false, mesh := kept + more) else t
  }

  ghost predicate OpenOk(c: Config, s: Node, h: TopicHash, publishOnly: bool, kept: set<PeerRef>, more: set<PeerRef>) {
    var t := Opened(s, h, publishOnly);
    && kept <= t.mesh
    && (forall r :: r in kept ==> Count(t.backoff, r) == 0)
    && |kept| <= c.meshN
    && more <= Graftable(s.objects, t.(mesh := kept))
    && |more| <= Monus(c.meshN, |kept|)
  }

  // ---- Broadcast -----------------------------------------------------------

  /** Peers one broadcast considers, before the sender, author and score filters. */
  function Targets(c: Config, objs: Heap, t: Topic, publish: bool, chosen: set<PeerRef>): set<PeerRef> {
    if publish && c.floodPublish then t.peers
    else
      (set r | r in t.peers && r in objs && objs[r].IsFloodsub())
      + t.mesh
      + (if publish then chosen else {})
  }

  function BroadcastTopic(c: Config, t: Topic, publish: bool, chosen: set<PeerRef>): Topic {
    if publish && !c.floodPublish && t.publishOnly then t.(mesh := t.mesh + chosen) else t
  }

  // ---- The transition relation ---------------------------------------------

  function WithTopics(s: Node, r: PeerRef, topics: set<TopicHash>): Node
    requires r in s.objects
  {
    s.(objects := s.objects[r := s.objects[r].(topics := topics)])
  }

  function Forget(s: Node, r: PeerRef): map<TopicHash, Topic> {
    map h | h in s.topics ::
      s.topics[h].(peers := s.topics[h].peers - {r}, mesh := s.topics[h].mesh - {r})
  }

  /** A topic as the balancing stages of a heartbeat find it: its backoff has moved on one slot. */
  function Ticked(t: Topic): Topic { t.(backoff := Tick(t.backoff)) }

  ghost predicate Admissible(c: Config, s: Node, e: Event)
    requires c.Usable()
  {
    match e
    case Connect(_, _) => true
    case Negotiate(r, _) => r in s.objects
    case Disconnect(_) => true
    case Subscription(r, _, _, _) => Registered(s, r)
    case GraftIn(r, _, _) => Registered(s, r)
    case PruneIn(r, _, _) => Registered(s, r)
    case Open(h, po, kept, more) => OpenOk(c, s, h, po, kept, more)
    case Broadcast(h, publish, chosen) =>
      && h in s.topics
      && chosen <= Candidates(s.objects, s.topics[h].peers, s.topics[h].mesh)
      && |chosen| <= Monus(c.meshN, |s.topics[h].mesh|)
    case Heartbeat(drop, beats) => BeatsOk(c, s, drop, beats)
  }

  /** Only publish-only topics are dropped, and every other one gets its beat. */
  ghost predicate BeatsOk(c: Config, s: Node, drop: set<TopicHash>, beats: map<TopicHash, Beat>)
    requires c.Usable()
  {
    && (forall h :: h in drop && h in s.topics ==> s.topics[h].publishOnly)
    && beats.Keys == s.topics.Keys - drop
    && (forall h :: h in beats ==> BeatOk(c, s.objects, Ticked(s.topics[h]), s.ticks + 1, beats[h]))
  }

  ghost function Beaten(c: Config, s: Node, beats: map<TopicHash, Beat>): Node
    requires c.Usable() && beats.Keys <= s.topics.Keys
  {
    s.(ticks := s.ticks + 1,
       topics := map h | h in beats ::
         BeatTopic(c, s.objects, Ticked(s.topics[h]), s.ticks + 1, beats[h]))
  }

  ghost function Apply(c: Config, s: Node, e: Event): Node
    requires c.Usable() && Admissible(c, s, e)
  {
    match e
    case Connect(id, out) =>
      if id in s.registry then s
      else s.(objects := s.objects[s.next := Peer(id, out, None, {})],
              registry := s.registry[id := s.next],
              next := s.next + 1)
    case Negotiate(r, kind) =>
      if s.objects[r].kind == None then
        s.(objects := s.objects[r := s.objects[r].(kind := Some(kind))])
      else s
    case Disconnect(id) =>
      if id !in s.registry then s
      else s.(registry := s.registry - {id}, topics := Forget(s, s.registry[id]))
    case Subscription(r, h, on, good) =>
      var ts := if on then s.objects[r].topics + {h} else s.objects[r].topics - {h};
      var s1 := WithTopics(s, r, ts);
      if h !in s.topics then s1
      else if on then s1.(topics := s.topics[h := SubscribeTopic(c, s.objects, s.topics[h], r, good)])
      else s1.(topics := s.topics[h := UnsubscribeTopic(c, s.topics[h], r)])
    case GraftIn(r, h, good) =>
      if !s.objects[r].IsGossipsub() then s
      else
        var s1 := WithTopics(s, r, s.objects[r].topics + {h});
        if h !in s.topics then s1
        else s1.(topics := s.topics[h := GraftTopic(c, s.objects, s.topics[h], r, good)])
    case PruneIn(r, h, slots) =>
      if !s.objects[r].IsGossipsub() || h !in s.topics then s
      else s.(topics := s.topics[h := PruneTopic(c, s.topics[h], r, slots)])
    case Open(h, po, kept, more) =>
      s.(topics := s.topics[h := OpenTopic(s, h, po, kept, more)])
    case Broadcast(h, publish, chosen) =>
      s.(topics := s.topics[h := BroadcastTopic(c, s.topics[h], publish, chosen)])
    case Heartbeat(_, beats) => Beaten(c, s, beats)
  }

  /** One admissible step. */
  ghost predicate Performs(c: Config, s: Node, e: Event, s': Node)
    requires c.Usable()
  {
    Admissible(c, s, e) && s' == Apply(c, s, e)
  }

  const Fresh := Node(map[], map[], 0, map[], 0)

  /** A run: consecutive states linked by admissible events, from an empty node. */
  ghost predicate IsRun(c: Config, states: seq<Node>, events: seq<Event>)
    requires c.Usable()
  {
    && |states| == |events| + 1
    && states[0] == Fresh
    && forall i :: 0 <= i < |events| ==>
         Admissible(c, states[i], events[i]) && states[i + 1] == Apply(c, states[i], events[i])
  }
}
