/** Size bounds of the mesh, for every score oracle and every shuffle. */
module GossipMeshBounds {
  import opened Common
  import opened GossipState
  import opened GossipSteps

  // ---- Cutting an overfull mesh --------------------------------------------

  lemma OutboundSplit(objs: Heap, s: set<PeerRef>)
    ensures |Outbound(objs, s)| + |Inbound(objs, s)| == |s|
  {
    assert s == Outbound(objs, s) + Inbound(objs, s);
  }

  lemma OutboundMinus(objs: Heap, s: set<PeerRef>, p: PeerRef)
    requires p in s
    ensures |Outbound(objs, s - {p})| == |Outbound(objs, s)| - (if p in objs && objs[p].out then 1 else 0)
  {
    if p in objs && objs[p].out {
      assert Outbound(objs, s - {p}) == Outbound(objs, s) - {p};
    } else {
      assert Outbound(objs, s - {p}) == Outbound(objs, s);
    }
  }

  predicate DialedOut(objs: Heap, p: PeerRef) { p in objs && objs[p].out }

  /** What has been walked past and kept is outbound, and is there only because the quota is reached. */
  ghost predicate Walking(objs: Heap, order: seq<PeerRef>, mesh: set<PeerRef>, quota: nat) {
    && Distinct(order)
    && Elements(order) <= mesh
    && mesh - Elements(order) <= Outbound(objs, mesh)
    && (mesh - Elements(order) != {} ==> |Outbound(objs, mesh)| <= quota)
  }

  lemma WalkingStep(objs: Heap, order: seq<PeerRef>, mesh: set<PeerRef>, quota: nat)
    requires Walking(objs, order, mesh, quota) && order != []
    ensures DialedOut(objs, order[0]) && |Outbound(objs, mesh)| <= quota ==>
              Walking(objs, order[1..], mesh, quota)
    ensures !(DialedOut(objs, order[0]) && |Outbound(objs, mesh)| <= quota) ==>
              Walking(objs, order[1..], mesh - {order[0]}, quota)
  {
    var p := order[0];
    assert Elements(order) == {p} + Elements(order[1..]);
    assert p !in Elements(order[1..]);
    OutboundMinus(objs, mesh, p);
    assert mesh - {p} - Elements(order[1..]) == mesh - Elements(order);
    assert forall r :: r in mesh - Elements(order) ==> r in Outbound(objs, mesh) && r != p;
  }

  /** `left` is what a cut of `mesh` should leave. */
  ghost predicate CutTo(objs: Heap, mesh: set<PeerRef>, left: set<PeerRef>, n: nat, quota: nat) {
    var spared := Min(|Outbound(objs, mesh)|, quota);
    && left <= mesh
    && |left| == Max(n, spared)
    && |Outbound(objs, left)| >= spared
  }

  lemma CutDone(objs: Heap, order: seq<PeerRef>, mesh: set<PeerRef>, n: nat, quota: nat)
    requires Walking(objs, order, mesh, quota) && |mesh| >= n && (order == [] || |mesh| == n)
    ensures CutTo(objs, mesh, mesh, n, quota)
  {
    OutboundSplit(objs, mesh);
    if order == [] { assert mesh == Outbound(objs, mesh); }
  }

  lemma CutStep(objs: Heap, mesh: set<PeerRef>, p: PeerRef, left: set<PeerRef>, n: nat, quota: nat)
    requires p in mesh && CutTo(objs, mesh - {p}, left, n, quota)
    requires DialedOut(objs, p) ==> |Outbound(objs, mesh)| > quota
    ensures CutTo(objs, mesh, left, n, quota)
  {
    OutboundMinus(objs, mesh, p);
  }

  /** The cut with its running outbound count replaced by the count itself. */
  function Trim(objs: Heap, order: seq<PeerRef>, mesh: set<PeerRef>, n: nat, quota: nat): set<PeerRef> {
    Cut(objs, order, mesh, |Outbound(objs, mesh)|, n, quota)
  }

  lemma TrimUnfold(objs: Heap, order: seq<PeerRef>, mesh: set<PeerRef>, n: nat, quota: nat)
    requires order != [] && order[0] in mesh && |mesh| > n
    ensures Trim(objs, order, mesh, n, quota) ==
              if DialedOut(objs, order[0]) && |Outbound(objs, mesh)| <= quota
              then Trim(objs, order[1..], mesh, n, quota)
              else Trim(objs, order[1..], mesh - {order[0]}, n, quota)
  {
    OutboundMinus(objs, mesh, order[0]);
  }

  lemma {:induction false} CutExact(objs: Heap, order: seq<PeerRef>, mesh: set<PeerRef>, n: nat, quota: nat)
    requires Walking(objs, order, mesh, quota) && |mesh| >= n
    ensures CutTo(objs, mesh, Trim(objs, order, mesh, n, quota), n, quota)
    decreases |order|
  {
    if order == [] || |mesh| == n {
      CutDone(objs, order, mesh, n, quota);
    } else {
      var p := order[0];
      assert p in Elements(order);
      WalkingStep(objs, order, mesh, quota);
      TrimUnfold(objs, order, mesh, n, quota);
      hide *;
      if DialedOut(objs, p) && |Outbound(objs, mesh)| <= quota {
        CutExact(objs, order[1..], mesh, n, quota);
      } else {
        CutExact(objs, order[1..], mesh - {p}, n, quota);
        CutStep(objs, mesh, p, Trim(objs, order[1..], mesh - {p}, n, quota), n, quota);
      }
    }
  }

  /**
   An overfull mesh is cut to the larger of `mesh_n` and the outbound quota it
   can fill, whatever the shuffle; when `mesh_outbound_min <= mesh_n` that is
   exactly `mesh_n`.
   */
  lemma OverfullCut(c: Config, objs: Heap, t: Topic, b: Beat)
    requires c.Usable() && c.meshN <= c.meshHigh < |t.mesh| && Permutes(b.order, t.mesh)
    requires c.meshLow <= c.meshHigh
    ensures var out := |Outbound(objs, t.mesh)|;
            var t' := Resize(c, objs, t, b.join, b.order);
            && t'.mesh <= t.mesh
            && |t'.mesh| == Max(c.meshN, Min(out, c.outboundMin))
            && |Outbound(objs, t'.mesh)| >= Min(out, c.outboundMin)
            && (c.outboundMin <= c.meshN ==> |t'.mesh| == c.meshN)
  {
    CutExact(objs, b.order, t.mesh, c.meshN, c.outboundMin);
  }

  // ---- One heartbeat -------------------------------------------------------

  lemma AfterResize(c: Config, objs: Heap, t: Topic, b: Beat)
    requires c.Usable() && c.Ordered()
    requires |t.mesh| < c.meshLow ==> |b.join| <= Monus(c.meshN, |t.mesh|)
    requires |t.mesh| > c.meshHigh ==> Permutes(b.order, t.mesh)
    ensures |Resize(c, objs, t, b.join, b.order).mesh| <= c.meshHigh
  {
    if |t.mesh| > c.meshHigh {
      OverfullCut(c, objs, t, b);
    } else {
      UnionSize(t.mesh, b.join);
    }
  }

  lemma InboundGrowth(objs: Heap, s: set<PeerRef>, more: set<PeerRef>)
    ensures |Inbound(objs, s + more)| <= |Inbound(objs, s)| + |more|
    ensures more <= Outbound(objs, more) ==> |Inbound(objs, s + more)| <= |Inbound(objs, s)|
  {
    SubsetSize(Inbound(objs, s + more), Inbound(objs, s) + more);
    UnionSize(Inbound(objs, s), more);
    if more <= Outbound(objs, more) {
      SubsetSize(Inbound(objs, s + more), Inbound(objs, s));
    }
  }

  /** A heartbeat of a subscribed topic ends within the promised size, and with few inbound members. */
  lemma HeartbeatBound(c: Config, objs: Heap, t: Topic, ticks: nat, b: Beat)
    requires c.Usable() && c.Ordered() && BeatOk(c, objs, t, ticks, b)
    ensures BeatTopic(c, objs, t, ticks, b).publishOnly == t.publishOnly
    ensures !t.publishOnly ==>
            var mesh := BeatTopic(c, objs, t, ticks, b).mesh;
            && |mesh| <= c.meshHigh + c.outboundMin + c.oppPeers
            && |Inbound(objs, mesh)| <= c.meshHigh + c.oppPeers
  {
    if !t.publishOnly {
      var t1 := DropBad(c, objs, t, b.bad);
      hide DropBad, Resize, Cut, Permutes;
      var t2 := Resize(c, objs, t1, b.join, b.order);
      assert b.outs <= Outbound(objs, b.outs);
      hide Outbound, Graftable;
      AfterResize(c, objs, t1, b);
      StagesAfterResize(c, objs, t2, ticks, b);
      assert BeatTopic(c, objs, t, ticks, b) == AddExtra(c, FillOutbound(c, t2, b.outs), ticks, b.weak, b.extra);
      ResizeKeepsKind(c, objs, t, b);
    }
  }

  lemma ResizeKeepsKind(c: Config, objs: Heap, t: Topic, b: Beat)
    requires c.Usable()
    ensures Resize(c, objs, DropBad(c, objs, t, b.bad), b.join, b.order).publishOnly == t.publishOnly
  {
  }

  lemma StagesAfterResize(c: Config, objs: Heap, t: Topic, ticks: nat, b: Beat)
    requires c.Usable() && |t.mesh| <= c.meshHigh
    requires b.outs <= Outbound(objs, b.outs) && |b.outs| <= c.outboundMin && |b.extra| <= c.oppPeers
    ensures var mesh := AddExtra(c, FillOutbound(c, t, b.outs), ticks, b.weak, b.extra).mesh;
            && |mesh| <= c.meshHigh + c.outboundMin + c.oppPeers
            && |Inbound(objs, mesh)| <= c.meshHigh + c.oppPeers
  {
    var t1 := FillOutbound(c, t, b.outs);
    UnionSize(t.mesh, b.outs);
    UnionSize(t1.mesh, b.extra);
    OutboundSplit(objs, t.mesh);
    InboundGrowth(objs, t.mesh, b.outs);
    InboundGrowth(objs, t1.mesh, b.extra);
  }

  // ---- Whole runs ----------------------------------------------------------

  function InboundLimit(c: Config): nat { c.meshHigh + Max(1, c.oppPeers) }

  ghost predicate Bounded(c: Config, s: Node) {
    forall h :: h in s.topics && !s.topics[h].publishOnly ==>
      |Inbound(s.objects, s.topics[h].mesh)| <= InboundLimit(c)
  }

  /** Addresses mentioned by topics are allocated, so a new object never changes an inbound count. */
  ghost predicate Allocated(s: Node) {
    && (forall r :: r in s.objects ==> r < s.next)
    && (forall h, r :: h in s.topics && r in s.topics[h].mesh ==> r in s.objects)
  }

  lemma InboundShrinks(objs: Heap, a: set<PeerRef>, b: set<PeerRef>)
    requires a <= b
    ensures |Inbound(objs, a)| <= |Inbound(objs, b)|
  {
    SubsetSize(Inbound(objs, a), Inbound(objs, b));
  }

  lemma SmallMesh(objs: Heap, s: set<PeerRef>)
    ensures |Inbound(objs, s)| <= |s|
  {
    SubsetSize(Inbound(objs, s), s);
  }

  /** The connection direction of an object never changes, so neither does who counts as inbound. */
  lemma SameDirections(s: Node, objs': Heap, h: TopicHash)
    requires Allocated(s) && h in s.topics
    requires forall r :: r in s.objects ==> r in objs' && objs'[r].out == s.objects[r].out
    ensures Inbound(objs', s.topics[h].mesh) == Inbound(s.objects, s.topics[h].mesh)
  {
  }

  lemma SubscriptionBound(c: Config, s: Node, r: PeerRef, h: TopicHash, on: bool, good: bool)
    requires c.Usable() && c.Ordered() && Bounded(c, s) && Allocated(s) && Registered(s, r)
    ensures Bounded(c, Apply(c, s, Subscription(r, h, on, good)))
  {
    var s' := Apply(c, s, Subscription(r, h, on, good));
    forall h' | h' in s'.topics && !s'.topics[h'].publishOnly
      ensures |Inbound(s'.objects, s'.topics[h'].mesh)| <= InboundLimit(c)
    {
      SameDirections(s, s'.objects, h');
      if |s'.topics[h'].mesh| <= c.meshLow {
        SmallMesh(s'.objects, s'.topics[h'].mesh);
      } else {
        assert s'.topics[h'].mesh <= s.topics[h'].mesh;
        InboundShrinks(s'.objects, s'.topics[h'].mesh, s.topics[h'].mesh);
      }
    }
  }

  lemma GraftInBound(c: Config, s: Node, r: PeerRef, h: TopicHash, good: bool)
    requires c.Usable() && c.Ordered() && Bounded(c, s) && Allocated(s) && Registered(s, r)
    ensures Bounded(c, Apply(c, s, GraftIn(r, h, good)))
  {
    var s' := Apply(c, s, GraftIn(r, h, good));
    forall h' | h' in s'.topics && !s'.topics[h'].publishOnly
      ensures |Inbound(s'.objects, s'.topics[h'].mesh)| <= InboundLimit(c)
    {
      SameDirections(s, s'.objects, h');
      var before := s.topics[h'].mesh;
      if s'.topics[h'].mesh != before {
        assert s'.topics[h'].mesh == before + {r};
        InboundGrowth(s'.objects, before, {r});
        SmallMesh(s'.objects, before);
      }
    }
  }

  lemma OpenBound(c: Config, s: Node, h: TopicHash, po: bool, kept: set<PeerRef>, more: set<PeerRef>)
    requires c.Usable() && c.Ordered() && Bounded(c, s) && Admissible(c, s, Open(h, po, kept, more))
    ensures Bounded(c, Apply(c, s, Open(h, po, kept, more)))
  {
    UnionSize(kept, more);
    SmallMesh(s.objects, kept + more);
    SmallMesh(s.objects, {});
  }

  lemma HeartbeatStepBound(c: Config, s: Node, drop: set<TopicHash>, beats: map<TopicHash, Beat>)
    requires c.Usable() && c.Ordered() && Admissible(c, s, Heartbeat(drop, beats))
    ensures Bounded(c, Apply(c, s, Heartbeat(drop, beats)))
  {
    hide BeatTopic, BeatOk;
    var s' := Apply(c, s, Heartbeat(drop, beats));
    forall h | h in s'.topics && !s'.topics[h].publishOnly
      ensures |Inbound(s'.objects, s'.topics[h].mesh)| <= InboundLimit(c)
    {
      HeartbeatBound(c, s.objects, Ticked(s.topics[h]), s.ticks + 1, beats[h]);
    }
  }

  lemma OtherStepBound(c: Config, s: Node, e: Event)
    requires c.Usable() && c.Ordered() && Bounded(c, s) && Allocated(s) && Admissible(c, s, e)
    requires e.Connect? || e.Negotiate? || e.Disconnect? || e.PruneIn? || e.Broadcast?
    ensures Bounded(c, Apply(c, s, e))
  {
    var s' := Apply(c, s, e);
    forall h | h in s'.topics && !s'.topics[h].publishOnly
      ensures |Inbound(s'.objects, s'.topics[h].mesh)| <= InboundLimit(c)
    {
      SameDirections(s, s'.objects, h);
      InboundShrinks(s'.objects, s'.topics[h].mesh, s.topics[h].mesh);
    }
  }
}
