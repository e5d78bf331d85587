/**
 The linked structures of a gossipsub node: registered peers, live topics with
 their subscriber and mesh sets, and the per-topic prune backoff.

 Identifiers are compared only for equality, so they are plain numbers. A
 `PeerPtr` is the identity of a heap object: a peer that disconnects and comes
 back is a new object with the same id. The model keeps that distinction with
 `PeerRef`, an address into `objects`.
 */
module GossipState {
  import opened Common

  type PeerId = nat
  type PeerRef = nat
  type TopicHash = nat

  datatype Kind = NotSupported | Floodsub | Gossipsub | GossipsubV11 | GossipsubV12

  datatype Peer = Peer(id: PeerId, out: bool, kind: Option<Kind>, topics: set<TopicHash>) {
    predicate IsFloodsub() { kind == None || kind == Some(Floodsub) }

    predicate IsGossipsub() {
      kind == Some(Gossipsub) || kind == Some(GossipsubV11) || kind == Some(GossipsubV12)
    }

    predicate IsV11() { kind == Some(GossipsubV11) || kind == Some(GossipsubV12) }
  }

  type Heap = map<PeerRef, Peer>

  /** Remaining backoff slots per peer; absent means none. `TopicBackoff` refines this map. */
  type Countdown = map<PeerRef, nat>

  datatype Topic = Topic(
    publishOnly: bool,
    peers: set<PeerRef>,
    mesh: set<PeerRef>,
    backoff: Countdown)

  datatype Node = Node(
    objects: Heap,
    registry: map<PeerId, PeerRef>,
    next: PeerRef,
    topics: map<TopicHash, Topic>,
    ticks: nat)

  datatype Config = Config(
    meshN: nat,
    meshLow: nat,
    meshHigh: nat,
    outboundMin: nat,
    pruneBackoff: nat,
    heartbeatInterval: nat,
    backoffSlack: nat,
    oppTicks: nat,
    oppPeers: nat,
    retainScores: nat,
    floodPublish: bool)
  {
    /** What the arithmetic of the code needs: no division by a zero interval or tick period. */
    ghost predicate Usable() { heartbeatInterval > 0 && oppTicks > 0 }

    /** The ordering of mesh parameters the defaults follow. */
    ghost predicate Ordered() { meshLow <= meshN <= meshHigh && outboundMin <= meshN }

    function PruneTicks(): nat
      requires heartbeatInterval > 0
    {
      pruneBackoff / heartbeatInterval
    }

    /** Slots charged for one of our own prunes. */
    function PruneSlots(): nat
      requires heartbeatInterval > 0
    {
      PruneTicks() + backoffSlack
    }
  }

  /** Each protocol a peer can speak is floodsub or gossipsub, and gossipsub only from 1.1 on has backoff. */
  lemma KindsApart(p: Peer)
    ensures p.IsFloodsub() <==> p.kind != Some(NotSupported) && !p.IsGossipsub()
    ensures p.IsV11() <==> p.IsGossipsub() && p.kind != Some(Gossipsub)
  {
    match p.kind
    case None =>
    case Some(k) => assert k == NotSupported || k == Floodsub || k == Gossipsub || k == GossipsubV11 || k == GossipsubV12;
  }

  function Count(b: Countdown, r: PeerRef): nat { if r in b then b[r] else 0 }

  /** `TopicBackoff::update` on a ring of `limit + 1` slots. */
  function Extend(b: Countdown, r: PeerRef, slots: nat, limit: nat): Countdown {
    if slots == 0 then b else b[r := Max(Count(b, r), Min(slots, limit))]
  }

  /** `TopicBackoff::shift`. */
  function Tick(b: Countdown): Countdown {
    map r | r in b :: Monus(b[r], 1)
  }

  /** Backoff after `make_prune` has been called once for each peer of `pruned`. */
  function PruneAll(c: Config, objs: Heap, b: Countdown, pruned: set<PeerRef>): Countdown
    requires c.heartbeatInterval > 0
  {
    var hit := set r | r in pruned && r in objs && objs[r].IsV11() && c.PruneSlots() > 0;
    map r | r in b.Keys + hit ::
      if r in hit then Max(Count(b, r), c.PruneSlots()) else Count(b, r)
  }

  function Outbound(objs: Heap, s: set<PeerRef>): set<PeerRef> {
    set r | r in s && r in objs && objs[r].out
  }

  function Inbound(objs: Heap, s: set<PeerRef>): set<PeerRef> {
    set r | r in s && !(r in objs && objs[r].out)
  }

  /** Peers `choose` may return when the predicate asks for "not in the mesh". */
  function Candidates(objs: Heap, peers: set<PeerRef>, mesh: set<PeerRef>): set<PeerRef> {
    set r | r in peers && r !in mesh && r in objs && objs[r].IsGossipsub()
  }

  /** Candidates that are also out of backoff, slack included. */
  function Graftable(objs: Heap, t: Topic): set<PeerRef> {
    set r | r in Candidates(objs, t.peers, t.mesh) && Count(t.backoff, r) == 0
  }

  /** The object the registry holds for its own id. */
  predicate Registered(s: Node, r: PeerRef) {
    r in s.objects && s.objects[r].id in s.registry && s.registry[s.objects[r].id] == r
  }
}
