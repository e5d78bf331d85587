/**
 The node as the source has it: an object whose methods update its tables in
 place, with the source's loops. Every method is proved to perform the step of
 the same name, so the results about runs hold of this code.
 */
module GossipNode {
  import opened Common
  import opened GossipState
  import opened GossipSteps
  import opened GossipInvariants
  import opened GossipTopicOps
  import opened GossipOutcomes

  /** One control RPC; each entry carries the score oracle's answer where the code asks for it. */
  datatype Rpc = Rpc(
    subscriptions: seq<(TopicHash, bool, bool)>,
    grafts: seq<(TopicHash, bool)>,
    prunes: seq<(TopicHash, nat)>)

  ghost function SubscriptionEvents(r: PeerRef, xs: seq<(TopicHash, bool, bool)>): seq<Event> {
    seq(|xs|, i requires 0 <= i < |xs| => Subscription(r, xs[i].0, xs[i].1, xs[i].2))
  }

  ghost function GraftEvents(r: PeerRef, xs: seq<(TopicHash, bool)>): seq<Event> {
    seq(|xs|, i requires 0 <= i < |xs| => GraftIn(r, xs[i].0, xs[i].1))
  }

  ghost function PruneEvents(r: PeerRef, xs: seq<(TopicHash, nat)>): seq<Event> {
    seq(|xs|, i requires 0 <= i < |xs| => PruneIn(r, xs[i].0, xs[i].1))
  }

  ghost function RpcEvents(r: PeerRef, rpc: Rpc): seq<Event> {
    SubscriptionEvents(r, rpc.subscriptions) + GraftEvents(r, rpc.grafts) + PruneEvents(r, rpc.prunes)
  }

  /** The state after a sequence of control events from one registered peer. */
  ghost function After(c: Config, s: Node, r: PeerRef, es: seq<Event>): (s': Node)
    requires c.Usable() && Registered(s, r)
    requires ControlOf(r, es)
    ensures Registered(s', r) && s'.objects[r].kind == s.objects[r].kind
  {
    if es == [] then s
    else
      var s1 := After(c, s, r, es[..|es| - 1]);
      ControlKeeps(c, s1, r, es[|es| - 1]);
      Apply(c, s1, es[|es| - 1])
  }

  lemma AfterStep(c: Config, s: Node, r: PeerRef, es: seq<Event>, i: nat)
    requires c.Usable() && Registered(s, r) && ControlOf(r, es) && i < |es|
    ensures ControlOf(r, es[..i]) && ControlOf(r, es[..i + 1])
    ensures Admissible(c, After(c, s, r, es[..i]), es[i])
    ensures After(c, s, r, es[..i + 1]) == Apply(c, After(c, s, r, es[..i]), es[i])
  {
    assert es[..i + 1][..i] == es[..i];
    assert es[i] in es;
    hide Apply;
  }

  lemma ControlKeeps(c: Config, s: Node, r: PeerRef, e: Event)
    requires c.Usable() && Registered(s, r) && ControlOf(r, [e])
    ensures Admissible(c, s, e)
    ensures Registered(Apply(c, s, e), r) && Apply(c, s, e).objects[r].kind == s.objects[r].kind
  {
    assert e in [e];
    hide SubscribeTopic, UnsubscribeTopic, GraftTopic, PruneTopic;
  }

  ghost predicate ControlOf(r: PeerRef, es: seq<Event>) {
    forall e :: e in es ==> (e.Subscription? || e.GraftIn? || e.PruneIn?) && e.r == r
  }

  lemma {:induction false} AfterConcat(c: Config, s: Node, r: PeerRef, es: seq<Event>, fs: seq<Event>)
    requires c.Usable() && Registered(s, r) && ControlOf(r, es) && ControlOf(r, fs)
    ensures ControlOf(r, es + fs)
    ensures After(c, s, r, es + fs) == After(c, After(c, s, r, es), r, fs)
    decreases |fs|
  {
    if fs == [] {
      assert es + fs == es;
    } else {
      var init := fs[..|fs| - 1];
      assert (es + fs)[..|es + fs| - 1] == es + init;
      AfterConcat(c, s, r, es, init);
    }
  }

  /** For a peer that does not speak gossipsub the code stops early; the rest would change nothing. */
  lemma {:induction false} FloodsubControlIsVoid(c: Config, s: Node, r: PeerRef, es: seq<Event>)
    requires c.Usable() && Registered(s, r) && !s.objects[r].IsGossipsub() && ControlOf(r, es)
    requires forall e :: e in es ==> !e.Subscription?
    ensures After(c, s, r, es) == s
    decreases |es|
  {
    if es != [] {
      assert es[|es| - 1] in es;
      FloodsubControlIsVoid(c, s, r, es[..|es| - 1]);
    }
  }

  // ---- The order within one RPC ---------------------------------------------------

  /** A PRUNE has the last word on the mesh. */
  lemma PruneHasLastWord(c: Config, s: Node, r: PeerRef, rpc: Rpc, i: nat)
    requires c.Usable() && Registered(s, r) && s.objects[r].IsGossipsub() && i < |rpc.prunes|
    ensures var s', h := After(c, s, r, RpcEvents(r, rpc)), rpc.prunes[i].0;
            h in s'.topics ==> r !in s'.topics[h].mesh
  {
    var before, prunes := SubscriptionEvents(r, rpc.subscriptions) + GraftEvents(r, rpc.grafts), PruneEvents(r, rpc.prunes);
    AfterConcat(c, s, r, before, prunes);
    var s1 := After(c, s, r, before);
    assert s1.objects[r].IsGossipsub();
    hide After;
    PrunesRemove(c, s1, r, prunes, i);
  }

  lemma {:induction false} PrunesRemove(c: Config, s: Node, r: PeerRef, es: seq<Event>, i: nat)
    requires c.Usable() && Registered(s, r) && s.objects[r].IsGossipsub() && i < |es| && ControlOf(r, es)
    requires forall k :: 0 <= k < |es| ==> es[k].PruneIn?
    ensures var s' := After(c, s, r, es); es[i].h in s'.topics ==> r !in s'.topics[es[i].h].mesh
    decreases |es|
  {
    var n := |es| - 1;
    assert es[..n + 1] == es && es[n] in es;
    AfterStep(c, s, r, es, n);
    var s1 := After(c, s, r, es[..n]);
    assert Registered(s1, r) && s1.objects[r].IsGossipsub();
    if i < n {
      PrunesRemove(c, s, r, es[..n], i);
    }
    hide After;
    PruneOutcome(c, s1, r, es[n].h, es[n].slots);
  }

  /** A GRAFT subscribes its sender even if the same RPC unsubscribes it. */
  lemma GraftSubscribes(c: Config, s: Node, r: PeerRef, rpc: Rpc, i: nat)
    requires c.Usable() && Registered(s, r) && s.objects[r].IsGossipsub() && i < |rpc.grafts|
    ensures rpc.grafts[i].0 in After(c, s, r, RpcEvents(r, rpc)).objects[r].topics
  {
    var subs, rest := SubscriptionEvents(r, rpc.subscriptions), GraftEvents(r, rpc.grafts) + PruneEvents(r, rpc.prunes);
    RestOf(r, rpc, i);
    hide After, RpcEvents, SubscriptionEvents, GraftEvents, PruneEvents;
    AfterConcat(c, s, r, subs, rest);
    var s1 := After(c, s, r, subs);
    assert s1.objects[r].IsGossipsub();
    GraftsSubscribe(c, s1, r, rest, i);
  }

  lemma RestOf(r: PeerRef, rpc: Rpc, i: nat)
    requires i < |rpc.grafts|
    ensures var subs, rest := SubscriptionEvents(r, rpc.subscriptions), GraftEvents(r, rpc.grafts) + PruneEvents(r, rpc.prunes);
            && RpcEvents(r, rpc) == subs + rest && ControlOf(r, subs) && ControlOf(r, rest) && i < |rest|
            && rest[i] == GraftIn(r, rpc.grafts[i].0, rpc.grafts[i].1)
            && forall k :: 0 <= k < |rest| ==> !rest[k].Subscription?
  {
  }

  lemma {:induction false} GraftsSubscribe(c: Config, s: Node, r: PeerRef, es: seq<Event>, i: nat)
    requires c.Usable() && Registered(s, r) && s.objects[r].IsGossipsub() && i < |es| && ControlOf(r, es)
    requires es[i].GraftIn? && forall k :: 0 <= k < |es| ==> !es[k].Subscription?
    ensures es[i].h in After(c, s, r, es).objects[r].topics
    decreases |es|
  {
    var n := |es| - 1;
    assert es[..n + 1] == es && es[n] in es;
    AfterStep(c, s, r, es, n);
    var s1 := After(c, s, r, es[..n]);
    assert Registered(s1, r) && s1.objects[r].IsGossipsub();
    if i < n {
      GraftsSubscribe(c, s, r, es[..n], i);
    }
    hide After, Apply, Admissible;
    StaysListed(c, s1, r, es[n]);
  }

  lemma StaysListed(c: Config, s: Node, r: PeerRef, e: Event)
    requires c.Usable() && Registered(s, r) && s.objects[r].IsGossipsub() && ControlOf(r, [e]) && !e.Subscription? && Admissible(c, s, e)
    ensures r in Apply(c, s, e).objects && s.objects[r].topics <= Apply(c, s, e).objects[r].topics
    ensures e.GraftIn? ==> e.h in Apply(c, s, e).objects[r].topics
  {
    assert [e][0] == e;
    hide GraftTopic, PruneTopic;
  }

  lemma NobodyCalled(s: Node, id: PeerId)
    requires Linked(s) && id !in s.registry
    ensures forall h, r :: h in s.topics && r in s.topics[h].peers + s.topics[h].mesh ==>
              r in s.objects && s.objects[r].id != id
  {
  }

  lemma PositiveProduct(a: nat, b: nat)
    requires b > 0
    ensures a * b > 0 <==> a > 0
  {
  }

  lemma BroadcastReady(s: Node, h: TopicHash)
    requires Linked(s) && h in s.topics
    ensures var t := s.topics[h];
            && t.peers <= s.objects.Keys && t.mesh <= t.peers
            && forall r :: r in t.mesh ==> s.objects[r].IsGossipsub()
  {
    assert TopicOk(s, h);
  }

  lemma PickedWell(c: Config, objs: Heap, t: Topic, good: set<PeerRef>, publish: bool, picked: set<PeerRef>)
    requires if publish && !c.floodPublish
             then Picked(picked, Candidates(objs, t.peers, t.mesh) * good, Monus(c.meshN, |t.mesh|))
             else picked == {}
    ensures picked <= Candidates(objs, t.peers, t.mesh) && |picked| <= Monus(c.meshN, |t.mesh|)
    ensures !publish || c.floodPublish ==> picked == {}
    ensures ChosenWell(c, objs, t, publish, good, picked)
  {
    assert Candidates(objs, t.peers, t.mesh) * good == Scored(objs, t, good) - t.mesh;
    hide Candidates, Scored;
  }

  lemma Planned(c: Config, s: Node, h: TopicHash, from: Option<PeerId>, author: Option<PeerId>,
                good: set<PeerRef>, picked: set<PeerRef>, queued: seq<PeerRef>)
    requires c.Usable() && h in s.topics && picked <= Candidates(s.objects, s.topics[h].peers, s.topics[h].mesh)
    requires |picked| <= Monus(c.meshN, |s.topics[h].mesh|) && Distinct(queued)
    requires Elements(queued) ==
             Willing(s.objects, from, author, good, Targets(c, s.objects, s.topics[h], from == None, picked))
    ensures Admissible(c, s, Broadcast(h, from == None, picked))
    ensures Queues(c, s, h, from, author, good, picked, queued)
  {
    hide Candidates, Willing, Targets, Distinct, Elements;
  }

  /** Copies go to registered peers, and not back to the sender or to the author. */
  ghost predicate Addressed(s: Node, from: Option<PeerId>, author: Option<PeerId>, queued: seq<PeerRef>) {
    forall r :: r in queued ==> Registered(s, r) && Some(s.objects[r].id) != from && Some(s.objects[r].id) != author
  }

  lemma TopicsAfter(c: Config, ts: map<TopicHash, Topic>, h: TopicHash, publish: bool, chosen: set<PeerRef>)
    requires h in ts
    ensures ts[h := BroadcastTopic(c, ts[h], publish, chosen)] ==
            if publish && !c.floodPublish && ts[h].publishOnly then ts[h := ts[h].(mesh := ts[h].mesh + chosen)] else ts
  {
    assert ts[h := ts[h]] == ts;
  }

  lemma BroadcastDone(c: Config, s: Node, h: TopicHash, from: Option<PeerId>, author: Option<PeerId>,
                      good: set<PeerRef>, chosen: set<PeerRef>, queued: seq<PeerRef>, ts: map<TopicHash, Topic>)
    requires c.Usable() && Linked(s) && Admissible(c, s, Broadcast(h, from == None, chosen))
    requires Queues(c, s, h, from, author, good, chosen, queued)
    requires ChosenWell(c, s.objects, s.topics[h], from == None, good, chosen)
    requires ts == s.topics[h := BroadcastTopic(c, s.topics[h], from == None, chosen)]
    ensures Performs(c, s, Broadcast(h, from == None, chosen), s.(topics := ts)) && Linked(s.(topics := ts))
    ensures Delivers(c, s.objects, s.topics[h], from, author, good, chosen, queued)
    ensures Addressed(s.(topics := ts), from, author, queued)
  {
    BroadcastReady(s, h);
    hide ChosenWell, Delivers, Performs, Addressed;
    QueuesDeliver(c, s, h, from, author, good, chosen, queued);
    BroadcastPerformed(c, s, h, from == None, chosen, ts);
    QueuedAddressed(c, s, h, from, author, good, chosen, queued, ts);
  }

  lemma BroadcastPerformed(c: Config, s: Node, h: TopicHash, publish: bool, chosen: set<PeerRef>, ts: map<TopicHash, Topic>)
    requires c.Usable() && Linked(s) && Admissible(c, s, Broadcast(h, publish, chosen))
    requires ts == s.topics[h := BroadcastTopic(c, s.topics[h], publish, chosen)]
    ensures Performs(c, s, Broadcast(h, publish, chosen), s.(topics := ts)) && Linked(s.(topics := ts))
  {
    hide Linked, BroadcastTopic, Candidates;
    QuietKeeps(c, s, Broadcast(h, publish, chosen));
  }

  lemma QueuedAddressed(c: Config, s: Node, h: TopicHash, from: Option<PeerId>, author: Option<PeerId>,
                        good: set<PeerRef>, chosen: set<PeerRef>, queued: seq<PeerRef>, ts: map<TopicHash, Topic>)
    requires c.Usable() && Linked(s) && Admissible(c, s, Broadcast(h, from == None, chosen))
    requires Queues(c, s, h, from, author, good, chosen, queued)
    ensures Addressed(s.(topics := ts), from, author, queued)
  {
    BroadcastSetsDisjoint(c, s, h, from == None, chosen);
    hide Linked, Targets, Distinct;
    forall r | r in queued
      ensures Registered(s, r) && Some(s.objects[r].id) != from && Some(s.objects[r].id) != author
    {
      assert r in Elements(queued);
    }
    hide Elements, Willing;
  }

  lemma SetsAllocated(s: Node)
    requires Linked(s)
    ensures Allotted(s.objects, s.topics)
  {
  }

  /** The topics a heartbeat balances: those not dropped, their backoff moved on. */
  function Shifted(ts: map<TopicHash, Topic>, drop: set<TopicHash>): map<TopicHash, Topic> {
    map h | h in ts.Keys - drop :: Ticked(ts[h])
  }

  /** A heartbeat maintains every topic that is not dropped. */
  lemma HeartbeatMaintains(c: Config, s: Node, drop: set<TopicHash>, scores: map<TopicHash, Scores>,
                           beats: map<TopicHash, Beat>, ts: map<TopicHash, Topic>, h: TopicHash)
    requires c.Usable() && scores.Keys == s.topics.Keys && h in ts
    requires AllBeat(c, s.objects, Shifted(s.topics, drop), s.ticks + 1, beats, ts)
    requires AllHeed(c, s.objects, Shifted(s.topics, drop), s.ticks + 1, scores, beats)
    ensures h in s.topics && h !in drop && Maintained(c, s.objects, s.topics[h], scores[h], s.ticks + 1, ts[h])
  {
    assert h in beats && h in Shifted(s.topics, drop);
    assert BeatStep(c, s.objects, Ticked(s.topics[h]), s.ticks + 1, beats[h], ts[h]);
    assert Heeds(c, s.objects, Ticked(s.topics[h]), s.ticks + 1, scores[h], beats[h]);
    hide AllBeat, AllHeed, Heeds, BeatOk, BeatTopic, Maintained;
    BeatMaintains(c, s.objects, s.topics[h], s.ticks + 1, scores[h], beats[h]);
  }

  lemma BeatenKeys(c: Config, objs: Heap, ts: map<TopicHash, Topic>, drop: set<TopicHash>, ticks: nat,
                   beats: map<TopicHash, Beat>, ts': map<TopicHash, Topic>)
    requires c.Usable() && AllBeat(c, objs, Shifted(ts, drop), ticks, beats, ts')
    ensures ts'.Keys == ts.Keys - drop
  {
    hide BeatStep;
  }

  lemma HeartbeatDone(c: Config, s: Node, drop: set<TopicHash>, beats: map<TopicHash, Beat>, s': Node)
    requires c.Usable() && Linked(s) && s' == s.(ticks := s.ticks + 1, topics := s'.topics)
    requires forall h :: h in drop && h in s.topics ==> s.topics[h].publishOnly
    requires AllBeat(c, s.objects, Shifted(s.topics, drop), s.ticks + 1, beats, s'.topics)
    ensures Performs(c, s, Heartbeat(drop, beats), s') && Linked(s')
  {
    hide BeatTopic, BeatOk, Linked;
    assert BeatsOk(c, s, drop, beats);
    assert s'.topics == map h | h in beats ::
      BeatTopic(c, s.objects, Ticked(s.topics[h]), s.ticks + 1, beats[h]);
    HeartbeatKeeps(c, s, drop, beats);
  }

  lemma UpgradeOpens(c: Config, s: Node, h: TopicHash, good: set<PeerRef>, kept: set<PeerRef>, more: set<PeerRef>)
    requires c.Usable() && Linked(s) && h in s.topics && s.topics[h].publishOnly
    requires Picked(kept, Fit(s.topics[h], s.topics[h].mesh, good), c.meshN)
    requires Picked(more, Graftable(s.objects, s.topics[h].(mesh := kept)) * good, Monus(c.meshN, |kept|))
    ensures var t' := s.topics[h].(publishOnly := false, mesh := kept + more);
            var s' := s.(topics := s.topics[h := t']);
            && Performs(c, s, Open(h, false, kept, more), s') && Linked(s') && OpenedWell(c, s, h, false, good, t')
  {
    UpgradeOpensWell(c, s, h, good, kept, more);
    assert kept <= s.topics[h].mesh && forall r :: r in kept ==> Count(s.topics[h].backoff, r) == 0;
    hide Linked, Graftable, Fit, OpenedWell;
    QuietKeeps(c, s, Open(h, false, kept, more));
  }

  lemma KeptOpen(c: Config, s: Node, h: TopicHash, publishOnly: bool, good: set<PeerRef>)
    requires c.Usable() && Linked(s) && (h in s.topics && s.topics[h].publishOnly ==> publishOnly)
    ensures var t := if h in s.topics then s.topics[h] else Topic(publishOnly, Subscribers(s, h), {}, map[]);
            var s' := s.(topics := s.topics[h := t]);
            && Performs(c, s, Open(h, publishOnly, {}, {}), s') && Linked(s') && OpenedWell(c, s, h, publishOnly, good, t)
  {
    hide Linked, Graftable, Subscribers, FirstFrom;
    QuietKeeps(c, s, Open(h, publishOnly, {}, {}));
  }

  class Gossip {
    const c: Config
    var objects: Heap
    var registry: map<PeerId, PeerRef>
    var next: PeerRef
    var topics: map<TopicHash, Topic>
    var ticks: nat

    function State(): Node
      reads this
    {
      Node(objects, registry, next, topics, ticks)
    }

    ghost predicate Valid()
      reads this
    {
      c.Usable() && Linked(State())
    }

    constructor (config: Config)
      requires config.Usable()
      ensures Valid() && c == config && State() == Fresh
    {
      c := config;
      objects, registry, next, topics, ticks := map[], map[], 0, map[], 0;
    }

    // ---- Connections -------------------------------------------------------

    method OnPeerConnected(id: PeerId, out: bool) returns (r: PeerRef)
      requires Valid()
      modifies this
      ensures Valid() && Performs(c, old(State()), Connect(id, out), State())
      ensures Registered(State(), r) && objects[r].id == id
      ensures old(id !in registry) ==> objects[r] == Peer(id, out, None, {})
      ensures old(id in registry) ==> State() == old(State())
    {
      ConnectKeeps(c, State(), id, out);
      if id !in registry {
        objects := objects[next := Peer(id, out, None, {})];
        registry := registry[id := next];
        next := next + 1;
      }
      r := registry[id];
    }

    method UpdatePeerKind(r: PeerRef, kind: Kind)
      requires Valid() && r in objects
      modifies this`objects
      ensures Valid() && Performs(c, old(State()), Negotiate(r, kind), State())
      ensures objects[r] == old(objects)[r].(kind := if old(objects)[r].kind == None then Some(kind) else old(objects)[r].kind)
    {
      NegotiateKeeps(c, State(), r, kind);
      if objects[r].kind == None {
        objects := objects[r := objects[r].(kind := Some(kind))];
      }
    }

    /**
     The code visits only the topics the peer itself names. That this removes
     the peer from every topic is the linked-structures invariant at work.
     */
    method OnPeerDisconnected(id: PeerId)
      requires Valid()
      modifies this
      ensures Valid() && Performs(c, old(State()), Disconnect(id), State())
      ensures forall h, r :: h in topics && r in topics[h].peers + topics[h].mesh ==> r in objects && objects[r].id != id
    {
      ghost var s := State();
      DisconnectKeeps(c, s, id);
      if id in registry {
        var r := registry[id];
        ForgetPeer(r, objects[r].topics);
        registry := registry - {id};
        forall h | h in s.topics ensures topics[h] == Forget(s, r)[h] {
          LinkedBothWays(s, h, r);
        }
        assert topics == Forget(s, r);
      }
      NobodyCalled(State(), id);
    }

    method ForgetPeer(r: PeerRef, hs: set<TopicHash>)
      modifies this`topics
      ensures topics.Keys == old(topics).Keys
      ensures forall h :: h in topics ==>
                topics[h] == if h in hs then Forget(old(State()), r)[h] else old(topics)[h]
    {
      var todo := hs;
      while todo != {}
        invariant todo <= hs && topics.Keys == old(topics).Keys
        invariant forall h :: h in topics ==>
                    topics[h] == if h in hs && h !in todo then Forget(old(State()), r)[h] else old(topics)[h]
        decreases |todo|
      {
        var h :| h in todo;
        if h in topics {
          topics := topics[h := topics[h].(peers := topics[h].peers - {r}, mesh := topics[h].mesh - {r})];
        }
        todo := todo - {h};
      }
    }

    // ---- Control messages --------------------------------------------------

    method OnSubscription(r: PeerRef, h: TopicHash, on: bool, good: bool)
      requires Valid() && Registered(State(), r)
      modifies this
      ensures Valid() && Performs(c, old(State()), Subscription(r, h, on, good), State())
    {
      SubscriptionKeeps(c, State(), r, h, on, good);
      if on {
        if h in topics {
          var t := topics[h].(peers := topics[h].peers + {r});
          if !t.publishOnly && objects[r].IsGossipsub() && |t.mesh| < c.meshLow
             && r !in t.mesh && Count(t.backoff, r) == 0 && good {
            t := Graft(t, r);
          }
          topics := topics[h := t];
        }
        objects := objects[r := objects[r].(topics := objects[r].topics + {h})];
      } else {
        if h in topics {
          var t := topics[h].(peers := topics[h].peers - {r});
          t := RemoveFromMesh(c, t, r, c.PruneSlots(), false);
          topics := topics[h := t];
        }
        objects := objects[r := objects[r].(topics := objects[r].topics - {h})];
      }
    }

    /** Returns false when the connection must be dropped: a GRAFT from a peer without gossipsub. */
    method OnGraft(r: PeerRef, h: TopicHash, good: bool) returns (ok: bool)
      requires Valid() && Registered(State(), r)
      modifies this
      ensures Valid() && Performs(c, old(State()), GraftIn(r, h, good), State())
      ensures ok == old(objects[r].IsGossipsub())
    {
      GraftInKeeps(c, State(), r, h, good);
      if !objects[r].IsGossipsub() { return false; }
      ok := true;
      if h in topics {
        var t := topics[h].(peers := topics[h].peers + {r});
        if !t.publishOnly && r !in t.mesh {
          var accept := true;
          if Monus(Count(t.backoff, r), c.backoffSlack) * c.heartbeatInterval > 0 {
            accept := false;
          } else if !objects[r].out && |t.mesh| > c.meshHigh {
            accept := false;
          } else if !good {
            accept := false;
          }
          PositiveProduct(Monus(Count(t.backoff, r), c.backoffSlack), c.heartbeatInterval);
          if accept {
            t := t.(mesh := t.mesh + {r});
          } else {
            t := MakePrune(c, objects, t, r);
          }
        }
        topics := topics[h := t];
      }
      objects := objects[r := objects[r].(topics := objects[r].topics + {h})];
    }

    method OnPrune(r: PeerRef, h: TopicHash, slots: nat) returns (ok: bool)
      requires Valid() && Registered(State(), r)
      modifies this
      ensures Valid() && Performs(c, old(State()), PruneIn(r, h, slots), State())
      ensures ok == old(objects[r].IsGossipsub())
    {
      QuietKeeps(c, State(), PruneIn(r, h, slots));
      if !objects[r].IsGossipsub() { return false; }
      ok := true;
      if h in topics {
        var t := RemoveFromMesh(c, topics[h], r, slots, true);
        topics := topics[h := t];
      }
    }

    method HandleSubscriptions(r: PeerRef, xs: seq<(TopicHash, bool, bool)>)
      requires Valid() && Registered(State(), r)
      modifies this
      ensures Valid() && State() == After(c, old(State()), r, SubscriptionEvents(r, xs))
    {
      ghost var es := SubscriptionEvents(r, xs);
      assert es[..0] == [] && After(c, State(), r, []) == State();
      hide After, Apply, Admissible, Linked;
      var i := 0;
      while i < |xs|
        invariant i <= |xs| && Valid()
        invariant State() == After(c, old(State()), r, es[..i])
      {
        AfterStep(c, old(State()), r, es, i);
        OnSubscription(r, xs[i].0, xs[i].1, xs[i].2);
        i := i + 1;
      }
      assert es[..i] == es;
    }

    method HandleGrafts(r: PeerRef, xs: seq<(TopicHash, bool)>) returns (ok: bool)
      requires Valid() && Registered(State(), r)
      modifies this
      ensures Valid() && State() == After(c, old(State()), r, GraftEvents(r, xs))
      ensures ok == (xs == [] || old(objects[r].IsGossipsub()))
    {
      ghost var es := GraftEvents(r, xs);
      var i := 0;
      while i < |xs|
        invariant i <= |xs| && Valid()
        invariant State() == After(c, old(State()), r, es[..i])
        invariant i > 0 ==> old(objects[r].IsGossipsub())
      {
        var good := OnGraft(r, xs[i].0, xs[i].1);
        if !good {
          assert i == 0;
          FloodsubControlIsVoid(c, old(State()), r, es);
          return false;
        }
        i := i + 1;
        assert es[..i][..i - 1] == es[..i - 1];
      }
      assert es[..i] == es;
      ok := true;
    }

    method HandlePrunes(r: PeerRef, xs: seq<(TopicHash, nat)>) returns (ok: bool)
      requires Valid() && Registered(State(), r)
      modifies this
      ensures Valid() && State() == After(c, old(State()), r, PruneEvents(r, xs))
      ensures ok == (xs == [] || old(objects[r].IsGossipsub()))
    {
      ghost var es := PruneEvents(r, xs);
      var i := 0;
      while i < |xs|
        invariant i <= |xs| && Valid()
        invariant State() == After(c, old(State()), r, es[..i])
        invariant i > 0 ==> old(objects[r].IsGossipsub())
      {
        var good := OnPrune(r, xs[i].0, xs[i].1);
        if !good {
          assert i == 0;
          FloodsubControlIsVoid(c, old(State()), r, es);
          return false;
        }
        i := i + 1;
        assert es[..i][..i - 1] == es[..i - 1];
      }
      assert es[..i] == es;
      ok := true;
    }

    /**
     Inbound RPC: subscriptions, then grafts, then prunes, stopping at the first refused entry.
     From a peer below the graylist threshold it is ignored.
     */
    method OnMessage(r: PeerRef, rpc: Rpc, graylisted: bool) returns (ok: bool)
      requires Valid() && Registered(State(), r)
      modifies this
      ensures Valid()
      ensures State() == if graylisted then old(State()) else After(c, old(State()), r, RpcEvents(r, rpc))
      ensures ok == (graylisted || (rpc.grafts == [] && rpc.prunes == []) || old(objects[r].IsGossipsub()))
    {
      if graylisted {
        return true;
      }
      ok := HandleControl(r, rpc);
    }

    method HandleControl(r: PeerRef, rpc: Rpc) returns (ok: bool)
      requires Valid() && Registered(State(), r)
      modifies this
      ensures Valid()
      ensures State() == After(c, old(State()), r, RpcEvents(r, rpc))
      ensures ok == ((rpc.grafts == [] && rpc.prunes == []) || old(objects[r].IsGossipsub()))
    {
      ghost var s := State();
      ghost var subs := SubscriptionEvents(r, rpc.subscriptions);
      ghost var grafts := GraftEvents(r, rpc.grafts);
      ghost var prunes := PruneEvents(r, rpc.prunes);
      AfterConcat(c, s, r, subs, grafts);
      AfterConcat(c, s, r, subs + grafts, prunes);
      HandleSubscriptions(r, rpc.subscriptions);
      ok := HandleGrafts(r, rpc.grafts);
      if !ok {
        FloodsubControlIsVoid(c, State(), r, prunes);
        return;
      }
      ok := HandlePrunes(r, rpc.prunes);
    }

    // ---- Local operations --------------------------------------------------

    method SubscriberSet(h: TopicHash) returns (peers: set<PeerRef>)
      requires Valid()
      ensures peers == Subscribers(State(), h)
    {
      peers := {};
      var todo := registry.Keys;
      while todo != {}
        invariant todo <= registry.Keys
        invariant peers == set r | r in Subscribers(State(), h) && objects[r].id !in todo
        decreases |todo|
      {
        var id :| id in todo;
        var r := registry[id];
        if h in objects[r].topics {
          peers := peers + {r};
        }
        todo := todo - {id};
      }
    }

    /** `getOrCreateTopic`, behind both `subscribe` and `publish`. */
    method GetOrCreateTopic(h: TopicHash, publishOnly: bool, good: set<PeerRef>)
      returns (ghost kept: set<PeerRef>, ghost more: set<PeerRef>)
      requires Valid()
      modifies this`topics
      ensures Valid() && Performs(c, old(State()), Open(h, publishOnly, kept, more), State())
      ensures h in topics && OpenedWell(c, old(State()), h, publishOnly, good, topics[h])
    {
      ghost var s := State();
      var t;
      if h in topics {
        t := topics[h];
        assert t.peers <= objects.Keys by { assert TopicOk(s, h); }
      } else {
        var peers := SubscriberSet(h);
        t := Topic(publishOnly, peers, {}, map[]);
      }
      kept, more := {}, {};
      hide Linked, Graftable, Fit, Picked, OpenedWell, Performs;
      if !publishOnly && t.publishOnly {
        t, kept, more := Upgrade(c, objects, t, good);
        UpgradeOpens(c, s, h, good, kept, more);
      } else {
        KeptOpen(c, s, h, publishOnly, good);
      }
      topics := topics[h := t];
    }

    /**
     `broadcast`: `from` is the peer that relayed the message (none when we
     publish), `author` its signer. The result lists the batches that receive a
     copy, in order: no batch receives two, and none belongs to sender or author.
     */
    method Broadcast(h: TopicHash, from: Option<PeerId>, author: Option<PeerId>, good: set<PeerRef>)
      returns (queued: seq<PeerRef>, ghost chosen: set<PeerRef>)
      requires Valid() && h in topics
      modifies this`topics
      ensures Valid() && Performs(c, old(State()), GossipSteps.Event.Broadcast(h, from == None, chosen), State())
      ensures Queues(c, old(State()), h, from, author, good, chosen, queued)
      ensures ChosenWell(c, objects, old(topics)[h], from == None, good, chosen)
      ensures Delivers(c, objects, old(topics)[h], from, author, good, chosen, queued)
      ensures Addressed(State(), from, author, queued)
    {
      ghost var s := State();
      var t := topics[h];
      hide Linked, Queues, Performs, Admissible, Delivers, ChosenWell, Addressed, BroadcastTopic;
      var picked;
      queued, picked := PlanBroadcast(h, from, author, good);
      chosen := picked;
      if from == None && !c.floodPublish && t.publishOnly {
        topics := topics[h := t.(mesh := t.mesh + picked)];
      }
      TopicsAfter(c, s.topics, h, from == None, chosen);
      BroadcastDone(c, s, h, from, author, good, chosen, queued, topics);
    }

    method PlanBroadcast(h: TopicHash, from: Option<PeerId>, author: Option<PeerId>, good: set<PeerRef>)
      returns (queued: seq<PeerRef>, picked: set<PeerRef>)
      requires Valid() && h in topics
      ensures Admissible(c, State(), GossipSteps.Event.Broadcast(h, from == None, picked))
      ensures Queues(c, State(), h, from, author, good, picked, queued)
      ensures ChosenWell(c, objects, topics[h], from == None, good, picked)
    {
      var t := topics[h];
      ghost var s := State();
      assert Linked(s) && s.objects == objects && s.topics == topics;
      hide *;
      BroadcastReady(s, h);
      picked := PickFanout(c, objects, t, good, from == None);
      PickedWell(c, objects, t, good, from == None, picked);
      queued := Fanout(c, objects, t, from, author, good, picked);
      Planned(c, s, h, from, author, good, picked, queued);
    }

    // ---- Heartbeat ---------------------------------------------------------

    method ShiftBackoffs(drop: set<TopicHash>)
      requires Allotted(objects, topics)
      modifies this`topics
      ensures topics == Shifted(old(topics), drop) && topics.Keys <= old(topics).Keys
      ensures Allotted(objects, topics)
    {
      var todo := topics.Keys;
      while todo != {}
        invariant todo <= topics.Keys == old(topics).Keys
        invariant forall h :: h in topics ==>
                    topics[h] == if h in todo then old(topics)[h] else Ticked(old(topics)[h])
        decreases |todo|
      {
        var h :| h in todo;
        topics := topics[h := topics[h].(backoff := Tick(topics[h].backoff))];
        todo := todo - {h};
      }
      topics := topics - drop;
    }

    method BalanceTopics(drop: set<TopicHash>, scores: map<TopicHash, Scores>) returns (ghost beats: map<TopicHash, Beat>)
      requires c.Usable() && Allotted(objects, topics) && scores.Keys == topics.Keys
      modifies this`topics
      ensures AllBeat(c, objects, Shifted(old(topics), drop), ticks, beats, topics)
      ensures AllHeed(c, objects, Shifted(old(topics), drop), ticks, scores, beats)
    {
      hide *;
      ShiftBackoffs(drop);
      topics, beats := BalanceAll(c, objects, topics, ticks, scores);
    }

    /** Mesh maintenance over all topics; `drop` are the publish-only topics whose time is up. */
    method Heartbeat(drop: set<TopicHash>, scores: map<TopicHash, Scores>) returns (ghost beats: map<TopicHash, Beat>)
      requires Valid() && scores.Keys == topics.Keys
      requires forall h :: h in drop && h in topics ==> topics[h].publishOnly
      modifies this
      ensures Valid() && Performs(c, old(State()), GossipSteps.Event.Heartbeat(drop, beats), State())
      ensures ticks == old(ticks) + 1 && topics.Keys == old(topics).Keys - drop
      ensures forall h :: h in topics ==> Maintained(c, objects, old(topics)[h], scores[h], ticks, topics[h])
    {
      hide Linked, Performs, AllBeat, AllHeed, Shifted, Allotted, Maintained;
      ghost var s := State();
      SetsAllocated(s);
      ticks := ticks + 1;
      beats := BalanceTopics(drop, scores);
      HeartbeatDone(c, s, drop, beats, State());
      BeatenKeys(c, s.objects, s.topics, drop, ticks, beats, topics);
      forall h | h in topics ensures h in s.topics && Maintained(c, objects, s.topics[h], scores[h], ticks, topics[h]) {
        HeartbeatMaintains(c, s, drop, scores, beats, topics, h);
      }
    }
  }
}
