/** What every reachable state of a node keeps. */
module GossipInvariants {
  import opened Common
  import opened GossipState
  import opened GossipSteps

  /** The registry finds every object under its own id, and addresses are not reused. */
  ghost predicate RegistryOk(s: Node) {
    && (forall id :: id in s.registry ==>
          s.registry[id] in s.objects && s.objects[s.registry[id]].id == id)
    && (forall r :: r in s.objects ==> r < s.next)
  }

  /**
   A live topic and the peers agree: the topic lists exactly the registered
   peers that name it, its mesh is drawn from those, and every mesh member
   speaks gossipsub.
   */
  ghost predicate TopicOk(s: Node, h: TopicHash)
    requires h in s.topics
  {
    && s.topics[h].peers == Subscribers(s, h)
    && s.topics[h].mesh <= s.topics[h].peers
    && (forall r :: r in s.topics[h].mesh ==> r in s.objects && s.objects[r].IsGossipsub())
  }

  ghost predicate Linked(s: Node) {
    RegistryOk(s) && forall h :: h in s.topics ==> TopicOk(s, h)
  }

  /** Same statement seen from a peer, as the source's comments on the records put it. */
  lemma LinkedBothWays(s: Node, h: TopicHash, r: PeerRef)
    requires Linked(s) && h in s.topics
    ensures Registered(s, r) ==> (r in s.topics[h].peers <==> h in s.objects[r].topics)
    ensures r in s.topics[h].peers + s.topics[h].mesh ==> Registered(s, r)
  {
  }

  // ---- One lemma per kind of step ------------------------------------------

  lemma {:induction false} CutSubset(objs: Heap, order: seq<PeerRef>, mesh: set<PeerRef>, outbound: nat, n: nat, quota: nat)
    ensures Cut(objs, order, mesh, outbound, n, quota) <= mesh
  {
    if order != [] && |mesh| > n {
      var p := order[0];
      if p in objs && objs[p].out {
        if outbound <= quota {
          CutSubset(objs, order[1..], mesh, outbound, n, quota);
        } else {
          CutSubset(objs, order[1..], mesh - {p}, outbound - 1, n, quota);
        }
      } else {
        CutSubset(objs, order[1..], mesh - {p}, outbound, n, quota);
      }
    }
  }

  /** Only subscribers that speak gossipsub enter the mesh between `t` and `t'`. */
  ghost predicate Grows(objs: Heap, t: Topic, t': Topic) {
    && t'.peers == t.peers
    && t'.publishOnly == t.publishOnly
    && t'.mesh <= t.mesh + Candidates(objs, t.peers, {})
  }

  lemma ResizeGrows(c: Config, objs: Heap, t: Topic, b: Beat)
    requires c.Usable()
    requires |t.mesh| < c.meshLow ==> b.join <= Graftable(objs, t)
    ensures Grows(objs, t, Resize(c, objs, t, b.join, b.order))
  {
    CutSubset(objs, b.order, t.mesh, |Outbound(objs, t.mesh)|, c.meshN, c.outboundMin);
    hide Cut, PruneAll, Outbound;
  }

  lemma BeatGrows(c: Config, objs: Heap, t: Topic, ticks: nat, b: Beat)
    requires c.Usable() && BeatOk(c, objs, t, ticks, b)
    ensures Grows(objs, t, BeatTopic(c, objs, t, ticks, b))
  {
    if !t.publishOnly {
      var t1 := DropBad(c, objs, t, b.bad);
      var t2 := Resize(c, objs, t1, b.join, b.order);
      var t3 := FillOutbound(c, t2, b.outs);
      var t4 := AddExtra(c, t3, ticks, b.weak, b.extra);
      DropGrows(c, objs, t, b.bad);
      ResizeGrows(c, objs, t1, b);
      FillGrows(c, objs, t2, b.outs);
      ExtraGrows(c, objs, t3, ticks, b.weak, b.extra);
      assert BeatTopic(c, objs, t, ticks, b) == t4;
      hide *;
      GrowsOn(objs, t, t1, t2);
      GrowsOn(objs, t, t2, t3);
      GrowsOn(objs, t, t3, t4);
    }
  }

  lemma GrowsOn(objs: Heap, t: Topic, t1: Topic, t2: Topic)
    requires Grows(objs, t, t1) && Grows(objs, t1, t2)
    ensures Grows(objs, t, t2)
  {
  }

  lemma DropGrows(c: Config, objs: Heap, t: Topic, bad: set<PeerRef>)
    requires c.Usable()
    ensures Grows(objs, t, DropBad(c, objs, t, bad))
  {
    hide PruneAll;
  }

  lemma FillGrows(c: Config, objs: Heap, t: Topic, outs: set<PeerRef>)
    requires outs <= Outbound(objs, Graftable(objs, t))
    ensures Grows(objs, t, FillOutbound(c, t, outs))
  {
  }

  lemma ExtraGrows(c: Config, objs: Heap, t: Topic, ticks: nat, weak: bool, extra: set<PeerRef>)
    requires c.Usable() && extra <= Graftable(objs, t)
    ensures Grows(objs, t, AddExtra(c, t, ticks, weak, extra))
  {
  }

  lemma DisconnectKeeps(c: Config, s: Node, id: PeerId)
    requires c.Usable() && Linked(s)
    ensures Linked(Apply(c, s, Disconnect(id)))
  {
  }

  lemma ConnectKeeps(c: Config, s: Node, id: PeerId, out: bool)
    requires c.Usable() && Linked(s)
    ensures Linked(Apply(c, s, Connect(id, out)))
  {
  }

  lemma NegotiateKeeps(c: Config, s: Node, r: PeerRef, kind: Kind)
    requires c.Usable() && Linked(s) && r in s.objects
    ensures Linked(Apply(c, s, Negotiate(r, kind)))
  {
  }

  /** Changing one peer's topic list moves it in or out of exactly that topic. */
  lemma SubscribersAfter(s: Node, r: PeerRef, h: TopicHash, h': TopicHash)
    requires Registered(s, r)
    ensures Subscribers(WithTopics(s, r, s.objects[r].topics + {h}), h') ==
              Subscribers(s, h') + (if h == h' then {r} else {})
    ensures Subscribers(WithTopics(s, r, s.objects[r].topics - {h}), h') ==
              Subscribers(s, h') - (if h == h' then {r} else {})
  {
  }

  lemma SamePeersSubscribe(s: Node, s': Node, h: TopicHash)
    requires s'.objects == s.objects && s'.registry == s.registry
    ensures Subscribers(s', h) == Subscribers(s, h)
  {
  }

  /** A node in which one peer's topic list has changed, and one topic with it. */
  lemma Relinked(s: Node, r: PeerRef, topics: set<TopicHash>, s': Node)
    requires Linked(s) && Registered(s, r)
    requires s'.objects == WithTopics(s, r, topics).objects && s'.registry == s.registry && s'.next == s.next
    requires forall h :: h in s'.topics ==>
               && h in s.topics && s'.topics[h].peers == Subscribers(WithTopics(s, r, topics), h)
               && s'.topics[h].mesh <= s'.topics[h].peers
               && forall q :: q in s'.topics[h].mesh ==> q in s.topics[h].mesh || (q == r && s.objects[r].IsGossipsub())
    ensures Linked(s')
  {
    hide Subscribers;
    forall h | h in s'.topics ensures TopicOk(s', h) {
      assert TopicOk(s, h);
      SamePeersSubscribe(WithTopics(s, r, topics), s', h);
    }
  }

  lemma SubscriptionKeeps(c: Config, s: Node, r: PeerRef, h: TopicHash, on: bool, good: bool)
    requires c.Usable() && Linked(s) && Registered(s, r)
    ensures Linked(Apply(c, s, Subscription(r, h, on, good)))
  {
    var s' := Apply(c, s, Subscription(r, h, on, good));
    var ts := if on then s.objects[r].topics + {h} else s.objects[r].topics - {h};
    hide Subscribers, Beaten, OpenTopic;
    forall h' | h' in s'.topics
      ensures h' in s.topics && s'.topics[h'].peers == Subscribers(WithTopics(s, r, ts), h')
      ensures s'.topics[h'].mesh <= s'.topics[h'].peers
      ensures forall q :: q in s'.topics[h'].mesh ==> q in s.topics[h'].mesh || (q == r && s.objects[r].IsGossipsub())
    {
      assert TopicOk(s, h');
      SubscribersAfter(s, r, h, h');
    }
    hide *;
    Relinked(s, r, ts, s');
  }

  lemma GraftInKeeps(c: Config, s: Node, r: PeerRef, h: TopicHash, good: bool)
    requires c.Usable() && Linked(s) && Registered(s, r)
    ensures Linked(Apply(c, s, GraftIn(r, h, good)))
  {
    var s' := Apply(c, s, GraftIn(r, h, good));
    var ts := s.objects[r].topics + {h};
    hide Subscribers, Beaten, OpenTopic;
    if s.objects[r].IsGossipsub() {
      forall h' | h' in s'.topics
        ensures h' in s.topics && s'.topics[h'].peers == Subscribers(WithTopics(s, r, ts), h')
        ensures s'.topics[h'].mesh <= s'.topics[h'].peers
        ensures forall q :: q in s'.topics[h'].mesh ==> q in s.topics[h'].mesh || (q == r && s.objects[r].IsGossipsub())
      {
        assert TopicOk(s, h');
        SubscribersAfter(s, r, h, h');
      }
      hide *;
      Relinked(s, r, ts, s');
    }
  }

  /** Steps that leave the peers alone keep a topic whose subscriber set they do not touch. */
  lemma SamePeersKeeps(s: Node, s': Node)
    requires Linked(s) && s'.objects == s.objects && s'.registry == s.registry && s'.next == s.next
    requires forall h :: h in s'.topics ==>
               && s'.topics[h].peers == Subscribers(s, h)
               && forall r :: r in s'.topics[h].mesh ==>
                    r in s'.topics[h].peers && s.objects[r].IsGossipsub()
    ensures Linked(s')
  {
  }

  lemma QuietKeeps(c: Config, s: Node, e: Event)
    requires c.Usable() && Linked(s) && Admissible(c, s, e)
    requires e.PruneIn? || e.Open? || e.Broadcast?
    ensures Linked(Apply(c, s, e))
  {
    var s' := Apply(c, s, e);
    forall h | h in s'.topics
      ensures s'.topics[h].peers == Subscribers(s, h)
      ensures forall r :: r in s'.topics[h].mesh ==> r in s'.topics[h].peers && s.objects[r].IsGossipsub()
    {
      if h in s.topics { assert TopicOk(s, h); }
    }
    SamePeersKeeps(s, s');
  }

  lemma BeatTopicOk(c: Config, s: Node, h: TopicHash, b: Beat)
    requires c.Usable() && h in s.topics && TopicOk(s, h)
    requires BeatOk(c, s.objects, Ticked(s.topics[h]), s.ticks + 1, b)
    ensures var t' := BeatTopic(c, s.objects, Ticked(s.topics[h]), s.ticks + 1, b);
            && t'.peers == Subscribers(s, h)
            && forall r :: r in t'.mesh ==> r in t'.peers && s.objects[r].IsGossipsub()
  {
    BeatGrows(c, s.objects, Ticked(s.topics[h]), s.ticks + 1, b);
  }

  lemma HeartbeatKeeps(c: Config, s: Node, drop: set<TopicHash>, beats: map<TopicHash, Beat>)
    requires c.Usable() && Linked(s) && Admissible(c, s, Heartbeat(drop, beats))
    ensures Linked(Apply(c, s, Heartbeat(drop, beats)))
  {
    hide BeatTopic, BeatOk;
    var s' := Apply(c, s, Heartbeat(drop, beats));
    forall h | h in s'.topics
      ensures s'.topics[h].peers == Subscribers(s, h)
      ensures forall r :: r in s'.topics[h].mesh ==> r in s'.topics[h].peers && s.objects[r].IsGossipsub()
    {
      BeatTopicOk(c, s, h, beats[h]);
    }
    SamePeersKeeps(s, s');
  }

  lemma StepKeepsLinked(c: Config, s: Node, e: Event)
    requires c.Usable() && Linked(s) && Admissible(c, s, e)
    ensures Linked(Apply(c, s, e))
  {
    match e
    case Connect(id, out) => ConnectKeeps(c, s, id, out);
    case Negotiate(r, kind) => NegotiateKeeps(c, s, r, kind);
    case Disconnect(id) => DisconnectKeeps(c, s, id);
    case Subscription(r, h, on, good) => SubscriptionKeeps(c, s, r, h, on, good);
    case GraftIn(r, h, good) => GraftInKeeps(c, s, r, h, good);
    case Heartbeat(drop, beats) => HeartbeatKeeps(c, s, drop, beats);
    case _ => QuietKeeps(c, s, e);
  }

  /** Main result: the linked structures agree in every state of every run. */
  lemma {:induction false} EveryRunLinked(c: Config, states: seq<Node>, events: seq<Event>, i: nat)
    requires c.Usable() && IsRun(c, states, events) && i < |states|
    ensures Linked(states[i])
  {
    if i > 0 {
      EveryRunLinked(c, states, events, i - 1);
      StepKeepsLinked(c, states[i - 1], events[i - 1]);
    }
  }

  // ---- Consequence for one broadcast ---------------------------------------

  function FloodsubPeers(objs: Heap, t: Topic): set<PeerRef> {
    set r | r in t.peers && r in objs && objs[r].IsFloodsub()
  }

  /**
   The sets a broadcast walks one after another do not overlap, so no peer is
   visited twice, and everyone visited is a registered subscriber.
   */
  lemma BroadcastSetsDisjoint(c: Config, s: Node, h: TopicHash, publish: bool, chosen: set<PeerRef>)
    requires c.Usable() && Linked(s) && Admissible(c, s, Broadcast(h, publish, chosen))
    ensures var t := s.topics[h]; var flood := FloodsubPeers(s.objects, t);
            flood !! t.mesh && flood !! chosen && t.mesh !! chosen
    ensures forall r :: r in Targets(c, s.objects, s.topics[h], publish, chosen) ==>
              Registered(s, r) && h in s.objects[r].topics
  {
    var t := s.topics[h];
    PeersAndMesh(s, h);
    assert chosen <= Candidates(s.objects, t.peers, t.mesh);
    hide Linked, Admissible, Registered, Targets;
    TargetsArePeers(c, s.objects, t, publish, chosen);
  }

  lemma PeersAndMesh(s: Node, h: TopicHash)
    requires Linked(s) && h in s.topics
    ensures s.topics[h].mesh <= s.topics[h].peers
    ensures forall r :: r in s.topics[h].peers ==> r in s.objects && Registered(s, r) && h in s.objects[r].topics
    ensures forall r :: r in s.topics[h].mesh ==> r in s.objects && s.objects[r].IsGossipsub()
  {
    assert TopicOk(s, h);
  }

  lemma TargetsArePeers(c: Config, objs: Heap, t: Topic, publish: bool, chosen: set<PeerRef>)
    requires t.mesh <= t.peers && chosen <= t.peers
    ensures Targets(c, objs, t, publish, chosen) <= t.peers
  {
  }
}
