/**
 What the node's operations come to, stated on a topic before and after with the answers of the
 score oracle, and apart from the functions that compute it.
 */
module GossipOutcomes {
  import opened Common
  import opened GossipState
  import opened GossipSteps
  import opened GossipInvariants
  import opened GossipMeshBounds
  import opened GossipRetention
  import opened GossipTopicOps

  // ---- A heartbeat of one topic --------------------------------------------------

  /** Subscribers outside the mesh that speak gossipsub and are out of backoff once it has moved on. */
  function Free(objs: Heap, t: Topic): set<PeerRef> {
    set r | r in t.peers && r !in t.mesh && r in objs && objs[r].IsGossipsub() && Count(t.backoff, r) <= 1
  }

  /** No badly scored member stays, and no other leaves a mesh that is not overfull. */
  ghost predicate RightOnesLeave(c: Config, t: Topic, o: Scores, t': Topic) {
    && t'.mesh * o.bad <= o.joinable + o.outable + o.promising
    && (|t.mesh - o.bad| <= c.meshHigh ==> t.mesh - o.bad <= t'.mesh)
    && (|t.mesh - o.bad| >= c.meshN ==> |t'.mesh| >= c.meshN)
  }

  /** A gossipsub subscriber out of backoff that there is a reason to take. */
  ghost predicate Welcome(c: Config, objs: Heap, t: Topic, o: Scores, ticks: nat, r: PeerRef)
    requires c.Usable()
  {
    && r in t.peers && r in objs && objs[r].IsGossipsub() && Count(t.backoff, r) <= 1
    && (|| (|t.mesh - o.bad| < c.meshLow && r in o.joinable)
        || (objs[r].out && r in o.outable)
        || (ticks % c.oppTicks == 0 && o.weak && r in o.promising))
  }

  /** Nobody else comes. */
  ghost predicate RightOnesCome(c: Config, objs: Heap, t: Topic, o: Scores, ticks: nat, t': Topic)
    requires c.Usable()
  {
    forall r :: r in t'.mesh && r !in t.mesh - o.bad ==> Welcome(c, objs, t, o, ticks, r)
  }

  /** A thin mesh is filled up to `mesh_n`, or with everyone there is. */
  ghost predicate Refilled(c: Config, objs: Heap, t: Topic, o: Scores, t': Topic) {
    |t.mesh - o.bad| < c.meshLow ==> |t'.mesh| >= c.meshN || Free(objs, t) * o.joinable <= t'.mesh
  }

  /** The outbound quota is met, or nobody is left who could help to meet it. */
  ghost predicate QuotaMet(c: Config, objs: Heap, t: Topic, o: Scores, t': Topic) {
    c.meshLow <= c.meshN ==>
      || |Outbound(objs, t'.mesh)| >= c.outboundMin
      || Outbound(objs, Free(objs, t)) * o.outable <= t'.mesh
      || (|t.mesh - o.bad| < c.meshLow && Free(objs, t) * o.joinable <= t'.mesh)
  }

  /** On its tick a weak mesh takes in promising peers. */
  ghost predicate ChanceTaken(c: Config, objs: Heap, t: Topic, o: Scores, ticks: nat, t': Topic)
    requires c.Usable()
  {
    ticks % c.oppTicks == 0 && o.weak && |t.mesh - o.bad| >= 2 && c.meshN >= 2 ==>
      |t'.mesh * o.promising| >= c.oppPeers || Free(objs, t) * o.promising <= t'.mesh
  }

  /** Backoff moves on by one, and a v1.1 member that is sent away is charged in full. */
  ghost predicate RightlyCharged(c: Config, objs: Heap, t: Topic, o: Scores, t': Topic)
    requires c.Usable()
  {
    forall r :: Count(t'.backoff, r) ==
      if r in t.mesh && (r in o.bad || r !in t'.mesh) && r in objs && objs[r].IsV11()
      then Max(Monus(Count(t.backoff, r), 1), c.PruneSlots())
      else Monus(Count(t.backoff, r), 1)
  }

  /** The members an overfull mesh keeps include the `retain_scores` with the lowest scores, if it has room for them. */
  ghost predicate LowestStay(c: Config, t: Topic, o: Scores, t': Topic) {
    var kept := t.mesh - o.bad;
    |kept| >= c.meshLow && |kept| > c.meshHigh && c.retainScores + c.outboundMin <= c.meshN ==>
      exists low :: Lowest(kept, o.score, c.retainScores, low) && low <= t'.mesh
  }

  ghost predicate Lowest(s: set<PeerRef>, score: Ranking, k: nat, low: set<PeerRef>) {
    low <= s && |low| == Min(k, |s|) && forall a, b :: a in s - low && b in low ==> score(a) >= score(b)
  }

  ghost predicate MeshMaintained(c: Config, objs: Heap, t: Topic, o: Scores, ticks: nat, t': Topic)
    requires c.Usable()
  {
    && RightOnesLeave(c, t, o, t') && RightOnesCome(c, objs, t, o, ticks, t') && Refilled(c, objs, t, o, t')
    && QuotaMet(c, objs, t, o, t') && ChanceTaken(c, objs, t, o, ticks, t') && RightlyCharged(c, objs, t, o, t')
    && LowestStay(c, t, o, t')
  }

  /** A publish-only topic keeps its well-scored members and takes well-scored subscribers up to `mesh_n`. */
  ghost predicate FanoutMaintained(c: Config, objs: Heap, t: Topic, o: Scores, t': Topic) {
    var kept := t.mesh - o.bad;
    var more := set r | r in t.peers && r !in kept && r in objs && objs[r].IsGossipsub() && r in o.joinable;
    && kept <= t'.mesh <= kept + more
    && (|t'.mesh| >= c.meshN || more <= t'.mesh) && |t'.mesh| <= Max(c.meshN, |kept|)
    && forall r :: Count(t'.backoff, r) == Monus(Count(t.backoff, r), 1)
  }

  /** What a heartbeat with the scores `o` makes of a topic. */
  ghost predicate Maintained(c: Config, objs: Heap, t: Topic, o: Scores, ticks: nat, t': Topic)
    requires c.Usable()
  {
    && t'.publishOnly == t.publishOnly && t'.peers == t.peers
    && if t.publishOnly then FanoutMaintained(c, objs, t, o, t') else MeshMaintained(c, objs, t, o, ticks, t')
  }

  // ---- Stages ------------------------------------------------------------------------

  lemma PickedAll(chosen: set<PeerRef>, from: set<PeerRef>, count: nat)
    requires Picked(chosen, from, count)
    ensures |chosen| <= count && (|chosen| < count ==> chosen == from)
  {
    assert from == chosen + (from - chosen);
    assert |from| == |chosen| + |from - chosen|;
  }

  lemma TickedCount(t: Topic, r: PeerRef)
    ensures Count(Ticked(t).backoff, r) == Monus(Count(t.backoff, r), 1)
  {
  }

  lemma ChargedCount(c: Config, objs: Heap, b: Countdown, pruned: set<PeerRef>, r: PeerRef)
    requires c.Usable()
    ensures Count(PruneAll(c, objs, b, pruned), r) ==
            if r in pruned && r in objs && objs[r].IsV11() then Max(Count(b, r), c.PruneSlots()) else Count(b, r)
  {
  }

  /** The stages of one heartbeat of a subscribed topic, each from the one before. */
  ghost predicate Stages(c: Config, objs: Heap, t: Topic, ticks: nat, b: Beat, t1: Topic, t2: Topic, t3: Topic, t4: Topic)
    requires c.Usable()
  {
    && !t.publishOnly
    && t1 == DropBad(c, objs, Ticked(t), b.bad)
    && t2 == Resize(c, objs, t1, b.join, b.order)
    && t3 == FillOutbound(c, t2, b.outs)
    && t4 == AddExtra(c, t3, ticks, b.weak, b.extra)
    && BeatOk(c, objs, Ticked(t), ticks, b)
  }

  lemma ResizeCases(c: Config, objs: Heap, t: Topic, b: Beat)
    requires c.Usable()
    requires c.meshLow <= |t.mesh| && |t.mesh| > c.meshHigh ==> Permutes(b.order, t.mesh)
    ensures var t' := Resize(c, objs, t, b.join, b.order);
            && t'.peers == t.peers && t'.publishOnly == t.publishOnly
            && (|t.mesh| < c.meshLow ==> t' == t.(mesh := t.mesh + b.join))
            && (c.meshLow <= |t.mesh| <= c.meshHigh ==> t' == t)
            && (c.meshLow <= |t.mesh| ==> t'.mesh <= t.mesh && |t'.mesh| >= Min(c.meshN, |t.mesh|))
  {
    if c.meshLow <= |t.mesh| && |t.mesh| > c.meshHigh {
      var left := Trim(objs, b.order, t.mesh, c.meshN, c.outboundMin);
      if |t.mesh| >= c.meshN {
        assert Walking(objs, b.order, t.mesh, c.outboundMin) by { assert t.mesh - Elements(b.order) == {}; }
        CutExact(objs, b.order, t.mesh, c.meshN, c.outboundMin);
      } else {
        TrimDone(objs, b.order, t.mesh, c.meshN, c.outboundMin);
      }
      hide Cut, PruneAll;
    }
  }

  lemma ResizeCounts(c: Config, objs: Heap, t: Topic, b: Beat, r: PeerRef)
    requires c.Usable()
    ensures var t' := Resize(c, objs, t, b.join, b.order);
            Count(t'.backoff, r) ==
            if r in t.mesh && r !in t'.mesh && r in objs && objs[r].IsV11() then Max(Count(t.backoff, r), c.PruneSlots())
            else Count(t.backoff, r)
  {
    var left := Cut(objs, b.order, t.mesh, |Outbound(objs, t.mesh)|, c.meshN, c.outboundMin);
    ChargedCount(c, objs, t.backoff, t.mesh - left, r);
    hide PruneAll, Cut;
  }

  /** The meshes of the stages. */
  lemma StageMeshes(c: Config, objs: Heap, t: Topic, ticks: nat, b: Beat, t1: Topic, t2: Topic, t3: Topic, t4: Topic)
    requires c.Usable() && Stages(c, objs, t, ticks, b, t1, t2, t3, t4)
    ensures t1.mesh == t.mesh - b.bad && t1.peers == t2.peers == t3.peers == t4.peers == t.peers && !t4.publishOnly
    ensures |t1.mesh| < c.meshLow ==> t2.mesh == t1.mesh + b.join
    ensures |t1.mesh| >= c.meshLow ==> t2.mesh <= t1.mesh && |t2.mesh| >= Min(c.meshN, |t1.mesh|)
    ensures c.meshLow <= |t1.mesh| <= c.meshHigh ==> t2.mesh == t1.mesh
    ensures t3.mesh == (if |t2.mesh| >= c.meshLow then t2.mesh + b.outs else t2.mesh)
    ensures t4.mesh == (if ticks % c.oppTicks == 0 && |t3.mesh| > 1 && b.weak then t3.mesh + b.extra else t3.mesh)
  {
    ResizeCases(c, objs, t1, b);
    hide Resize, Graftable, Outbound, Permutes, PruneAll, Tick;
  }

  lemma StageCounts(c: Config, objs: Heap, t: Topic, ticks: nat, b: Beat, t1: Topic, t2: Topic, t3: Topic, t4: Topic, r: PeerRef)
    requires c.Usable() && Stages(c, objs, t, ticks, b, t1, t2, t3, t4)
    ensures Count(t1.backoff, r) ==
            if r in t.mesh && r in b.bad && r in objs && objs[r].IsV11()
            then Max(Monus(Count(t.backoff, r), 1), c.PruneSlots()) else Monus(Count(t.backoff, r), 1)
    ensures Count(t2.backoff, r) ==
            if r in t1.mesh && r !in t2.mesh && r in objs && objs[r].IsV11()
            then Max(Count(t1.backoff, r), c.PruneSlots()) else Count(t1.backoff, r)
    ensures t4.backoff == t3.backoff == t2.backoff
  {
    TickedCount(t, r);
    ChargedCount(c, objs, Ticked(t).backoff, Ticked(t).mesh * b.bad, r);
    ResizeCounts(c, objs, t1, b, r);
    hide PruneAll, Resize, Tick, BeatOk;
  }

  /** What the stages before a choice leave graftable, in terms of the topic they started from. */
  lemma StillFree(c: Config, objs: Heap, t: Topic, ticks: nat, b: Beat, t1: Topic, t2: Topic, t3: Topic, t4: Topic, r: PeerRef)
    requires c.Usable() && Stages(c, objs, t, ticks, b, t1, t2, t3, t4)
    ensures r in Free(objs, t) ==> r in Graftable(objs, t1) && (r !in t2.mesh ==> r in Graftable(objs, t2))
    ensures r in Free(objs, t) && r !in t3.mesh ==> r in Graftable(objs, t3)
    ensures r in Graftable(objs, t1) || r in Graftable(objs, t2) || r in Graftable(objs, t3) ==>
              r in t.peers && r in objs && objs[r].IsGossipsub() && Count(t.backoff, r) <= 1
  {
    StageMeshes(c, objs, t, ticks, b, t1, t2, t3, t4);
    StageCounts(c, objs, t, ticks, b, t1, t2, t3, t4, r);
    hide Stages;
  }

  /** What the choices were, with the stages they were made at. */
  ghost predicate Chosen(c: Config, objs: Heap, ticks: nat, o: Scores, b: Beat, t1: Topic, t2: Topic, t3: Topic)
    requires c.Usable()
  {
    && b.bad == o.bad && b.weak == o.weak
    && (|t1.mesh| < c.meshLow ==> Picked(b.join, Graftable(objs, t1) * o.joinable, Monus(c.meshN, |t1.mesh|)))
    && (c.meshLow <= |t1.mesh| && |t1.mesh| > c.meshHigh ==> Ranked(b.order, o.score, c.retainScores))
    && (|t2.mesh| >= c.meshLow ==>
          Picked(b.outs, Outbound(objs, Graftable(objs, t2)) * o.outable, Monus(c.outboundMin, |Outbound(objs, t2.mesh)|)))
    && (ticks % c.oppTicks == 0 && |t3.mesh| > 1 && o.weak ==> Picked(b.extra, Graftable(objs, t3) * o.promising, c.oppPeers))
  }

  lemma LeaveWorks(c: Config, objs: Heap, t: Topic, ticks: nat, o: Scores, b: Beat, t1: Topic, t2: Topic, t3: Topic, t4: Topic)
    requires c.Usable() && Stages(c, objs, t, ticks, b, t1, t2, t3, t4) && Chosen(c, objs, ticks, o, b, t1, t2, t3)
    ensures RightOnesLeave(c, t, o, t4)
  {
    assert b.bad == o.bad;
    hide Stages, Chosen;
    OthersStay(c, objs, t, ticks, b, t1, t2, t3, t4);
    forall r | r in t4.mesh * o.bad ensures r in o.joinable + o.outable + o.promising {
      ComesWith(c, objs, t, ticks, o, b, t1, t2, t3, t4, r);
    }
  }

  lemma OthersStay(c: Config, objs: Heap, t: Topic, ticks: nat, b: Beat, t1: Topic, t2: Topic, t3: Topic, t4: Topic)
    requires c.Usable() && Stages(c, objs, t, ticks, b, t1, t2, t3, t4)
    ensures |t.mesh - b.bad| <= c.meshHigh ==> t.mesh - b.bad <= t4.mesh
    ensures |t.mesh - b.bad| >= c.meshN ==> |t4.mesh| >= c.meshN
  {
    StageMeshes(c, objs, t, ticks, b, t1, t2, t3, t4);
    hide Stages;
    assert t2.mesh <= t3.mesh <= t4.mesh;
    SubsetSize(t2.mesh, t4.mesh);
    if |t1.mesh| < c.meshLow { SubsetSize(t1.mesh, t2.mesh); }
  }

  lemma ComeWorks(c: Config, objs: Heap, t: Topic, ticks: nat, o: Scores, b: Beat, t1: Topic, t2: Topic, t3: Topic, t4: Topic)
    requires c.Usable() && Stages(c, objs, t, ticks, b, t1, t2, t3, t4) && Chosen(c, objs, ticks, o, b, t1, t2, t3)
    ensures RightOnesCome(c, objs, t, o, ticks, t4)
  {
    assert b.bad == o.bad;
    hide Stages, Chosen, Welcome;
    forall r | r in t4.mesh && r !in t.mesh - o.bad ensures Welcome(c, objs, t, o, ticks, r) {
      ComesWith(c, objs, t, ticks, o, b, t1, t2, t3, t4, r);
    }
  }

  lemma ComesWith(c: Config, objs: Heap, t: Topic, ticks: nat, o: Scores, b: Beat,
                  t1: Topic, t2: Topic, t3: Topic, t4: Topic, r: PeerRef)
    requires c.Usable() && Stages(c, objs, t, ticks, b, t1, t2, t3, t4) && Chosen(c, objs, ticks, o, b, t1, t2, t3)
    requires r in t4.mesh && r !in t.mesh - b.bad
    ensures Welcome(c, objs, t, o, ticks, r)
  {
    StageMeshes(c, objs, t, ticks, b, t1, t2, t3, t4);
    StillFree(c, objs, t, ticks, b, t1, t2, t3, t4, r);
    hide Stages, Graftable;
    if r in t2.mesh {
      assert r in b.join;
    } else if r in t3.mesh {
      assert r in b.outs;
    } else {
      assert r in b.extra;
    }
  }

  lemma RefillWorks(c: Config, objs: Heap, t: Topic, ticks: nat, o: Scores, b: Beat, t1: Topic, t2: Topic, t3: Topic, t4: Topic)
    requires c.Usable() && Stages(c, objs, t, ticks, b, t1, t2, t3, t4) && Chosen(c, objs, ticks, o, b, t1, t2, t3)
    ensures Refilled(c, objs, t, o, t4)
    ensures |t1.mesh| < c.meshLow ==> |t2.mesh| >= c.meshN || Free(objs, t) * o.joinable <= t4.mesh
  {
    StageMeshes(c, objs, t, ticks, b, t1, t2, t3, t4);
    hide Stages, Free;
    if |t1.mesh| < c.meshLow {
      var from := Graftable(objs, t1) * o.joinable;
      PickedAll(b.join, from, Monus(c.meshN, |t1.mesh|));
      assert b.join !! t1.mesh;
      assert |t1.mesh + b.join| == |t1.mesh| + |b.join|;
      SubsetSize(t2.mesh, t4.mesh);
      forall r | r in Free(objs, t) * o.joinable ensures r in from {
        StillFree(c, objs, t, ticks, b, t1, t2, t3, t4, r);
      }
    }
  }

  lemma QuotaWorks(c: Config, objs: Heap, t: Topic, ticks: nat, o: Scores, b: Beat, t1: Topic, t2: Topic, t3: Topic, t4: Topic)
    requires c.Usable() && Stages(c, objs, t, ticks, b, t1, t2, t3, t4) && Chosen(c, objs, ticks, o, b, t1, t2, t3)
    ensures QuotaMet(c, objs, t, o, t4)
  {
    StageMeshes(c, objs, t, ticks, b, t1, t2, t3, t4);
    RefillWorks(c, objs, t, ticks, o, b, t1, t2, t3, t4);
    hide Stages, Refilled;
    if |t2.mesh| >= c.meshLow {
      var from := Outbound(objs, Graftable(objs, t2)) * o.outable;
      PickedAll(b.outs, from, Monus(c.outboundMin, |Outbound(objs, t2.mesh)|));
      OutboundGrows(objs, t2.mesh, b.outs, t4.mesh);
      forall r | r in Outbound(objs, Free(objs, t)) * o.outable && r !in t2.mesh ensures r in from {
        StillFree(c, objs, t, ticks, b, t1, t2, t3, t4, r);
        hide Graftable, Free;
      }
      hide Graftable, Free, Outbound;
    }
  }

  lemma OutboundGrows(objs: Heap, mesh: set<PeerRef>, outs: set<PeerRef>, mesh': set<PeerRef>)
    requires mesh + outs <= mesh' && mesh !! outs && outs <= Outbound(objs, outs)
    ensures |Outbound(objs, mesh')| >= |Outbound(objs, mesh)| + |outs|
  {
    var all := Outbound(objs, mesh) + outs;
    assert |all| == |Outbound(objs, mesh)| + |outs|;
    SubsetSize(all, Outbound(objs, mesh'));
  }

  lemma ChanceWorks(c: Config, objs: Heap, t: Topic, ticks: nat, o: Scores, b: Beat, t1: Topic, t2: Topic, t3: Topic, t4: Topic)
    requires c.Usable() && Stages(c, objs, t, ticks, b, t1, t2, t3, t4) && Chosen(c, objs, ticks, o, b, t1, t2, t3)
    ensures ChanceTaken(c, objs, t, o, ticks, t4)
  {
    StageMeshes(c, objs, t, ticks, b, t1, t2, t3, t4);
    hide Stages, Free;
    if ticks % c.oppTicks == 0 && o.weak && |t.mesh - o.bad| >= 2 && c.meshN >= 2 {
      SubsetSize(t2.mesh, t3.mesh);
      if |t1.mesh| < c.meshLow { SubsetSize(t1.mesh, t2.mesh); }
      var from := Graftable(objs, t3) * o.promising;
      PickedAll(b.extra, from, c.oppPeers);
      SubsetSize(b.extra, t4.mesh * o.promising);
      forall r | r in Free(objs, t) * o.promising && r !in t3.mesh ensures r in from {
        StillFree(c, objs, t, ticks, b, t1, t2, t3, t4, r);
        hide Graftable;
      }
      hide Graftable;
    }
  }

  lemma ChargesWork(c: Config, objs: Heap, t: Topic, ticks: nat, o: Scores, b: Beat, t1: Topic, t2: Topic, t3: Topic, t4: Topic)
    requires c.Usable() && Stages(c, objs, t, ticks, b, t1, t2, t3, t4) && b.bad == o.bad
    ensures RightlyCharged(c, objs, t, o, t4)
  {
    hide Stages;
    forall r
      ensures Count(t4.backoff, r) ==
              if r in t.mesh && (r in o.bad || r !in t4.mesh) && r in objs && objs[r].IsV11()
              then Max(Monus(Count(t.backoff, r), 1), c.PruneSlots()) else Monus(Count(t.backoff, r), 1)
    {
      ChargedRightly(c, objs, t, ticks, b, t1, t2, t3, t4, r);
    }
  }

  lemma ChargedRightly(c: Config, objs: Heap, t: Topic, ticks: nat, b: Beat,
                       t1: Topic, t2: Topic, t3: Topic, t4: Topic, r: PeerRef)
    requires c.Usable() && Stages(c, objs, t, ticks, b, t1, t2, t3, t4)
    ensures Count(t4.backoff, r) ==
            if r in t.mesh && (r in b.bad || r !in t4.mesh) && r in objs && objs[r].IsV11()
            then Max(Monus(Count(t.backoff, r), 1), c.PruneSlots()) else Monus(Count(t.backoff, r), 1)
  {
    StageMeshes(c, objs, t, ticks, b, t1, t2, t3, t4);
    StageCounts(c, objs, t, ticks, b, t1, t2, t3, t4, r);
    LateComers(c, objs, t, ticks, b, t1, t2, t3, t4, r);
    hide Stages;
  }

  /** Whoever comes after the resizing owes no slot. */
  lemma LateComers(c: Config, objs: Heap, t: Topic, ticks: nat, b: Beat,
                   t1: Topic, t2: Topic, t3: Topic, t4: Topic, r: PeerRef)
    requires c.Usable() && Stages(c, objs, t, ticks, b, t1, t2, t3, t4)
    ensures r in t4.mesh && r !in t2.mesh ==> Count(t2.backoff, r) == 0
  {
    assert b.outs <= Graftable(objs, t2) && b.extra <= Graftable(objs, t3);
    StageMeshes(c, objs, t, ticks, b, t1, t2, t3, t4);
    StageCounts(c, objs, t, ticks, b, t1, t2, t3, t4, r);
    hide Stages, Candidates;
  }

  lemma LowestWorks(c: Config, objs: Heap, t: Topic, ticks: nat, o: Scores, b: Beat, t1: Topic, t2: Topic, t3: Topic, t4: Topic)
    requires c.Usable() && Stages(c, objs, t, ticks, b, t1, t2, t3, t4) && Chosen(c, objs, ticks, o, b, t1, t2, t3)
    ensures LowestStay(c, t, o, t4)
  {
    StageMeshes(c, objs, t, ticks, b, t1, t2, t3, t4);
    if |t1.mesh| >= c.meshLow && |t1.mesh| > c.meshHigh && c.retainScores + c.outboundMin <= c.meshN {
      CutIsTrim(c, objs, t1, b);
      assert Permutes(b.order, t1.mesh) && Ranked(b.order, o.score, c.retainScores);
      assert t1.mesh == t.mesh - o.bad && t2.mesh <= t4.mesh && t2.mesh == Trim(objs, b.order, t1.mesh, c.meshN, c.outboundMin);
      hide *;
      var low := LowestSurvive(objs, b.order, t1.mesh, c.meshN, c.outboundMin, o.score, c.retainScores);
      LowestIs(c, t, o, t4, low);
    }
  }

  lemma CutIsTrim(c: Config, objs: Heap, t: Topic, b: Beat)
    requires c.Usable() && |t.mesh| >= c.meshLow && |t.mesh| > c.meshHigh
    ensures Resize(c, objs, t, b.join, b.order).mesh == Trim(objs, b.order, t.mesh, c.meshN, c.outboundMin)
  {
  }

  lemma LowestIs(c: Config, t: Topic, o: Scores, t': Topic, low: set<PeerRef>)
    requires var kept := t.mesh - o.bad;
             && low <= kept && |low| == Min(c.retainScores, |kept|) && low <= t'.mesh
             && forall x, y :: x in kept - low && y in low ==> o.score(x) >= o.score(y)
    ensures LowestStay(c, t, o, t')
  {
    assert Lowest(t.mesh - o.bad, o.score, c.retainScores, low);
  }

  lemma StagesOf(c: Config, objs: Heap, t: Topic, ticks: nat, o: Scores, b: Beat)
    returns (t1: Topic, t2: Topic, t3: Topic, t4: Topic)
    requires c.Usable() && !t.publishOnly && BeatOk(c, objs, Ticked(t), ticks, b) && Heeds(c, objs, Ticked(t), ticks, o, b)
    ensures Stages(c, objs, t, ticks, b, t1, t2, t3, t4) && Chosen(c, objs, ticks, o, b, t1, t2, t3)
    ensures t4 == BeatTopic(c, objs, Ticked(t), ticks, b)
  {
    hide BeatOk, DropBad, Resize, FillOutbound, AddExtra, Graftable, Outbound, Picked, Ranked, Tick;
    t1 := DropBad(c, objs, Ticked(t), b.bad);
    t2 := Resize(c, objs, t1, b.join, b.order);
    t3 := FillOutbound(c, t2, b.outs);
    t4 := AddExtra(c, t3, ticks, b.weak, b.extra);
  }

  lemma FanoutWorks(c: Config, objs: Heap, t: Topic, ticks: nat, o: Scores, b: Beat)
    requires c.Usable() && t.publishOnly && Heeds(c, objs, Ticked(t), ticks, o, b)
    ensures FanoutMaintained(c, objs, t, o, BeatTopic(c, objs, Ticked(t), ticks, b))
  {
    var kept, t' := t.mesh - o.bad, BeatTopic(c, objs, Ticked(t), ticks, b);
    var more := set r | r in t.peers && r !in kept && r in objs && objs[r].IsGossipsub() && r in o.joinable;
    assert Candidates(objs, t.peers, kept) * o.joinable == more;
    PickedAll(b.join, more, Monus(c.meshN, |kept|));
    assert kept !! b.join;
    assert |kept + b.join| == |kept| + |b.join|;
    forall r ensures Count(t'.backoff, r) == Monus(Count(t.backoff, r), 1) {
      TickedCount(t, r);
    }
  }

  /** Main result on one topic: a heartbeat that heeds its scores maintains the topic. */
  lemma BeatMaintains(c: Config, objs: Heap, t: Topic, ticks: nat, o: Scores, b: Beat)
    requires c.Usable() && BeatOk(c, objs, Ticked(t), ticks, b) && Heeds(c, objs, Ticked(t), ticks, o, b)
    ensures Maintained(c, objs, t, o, ticks, BeatTopic(c, objs, Ticked(t), ticks, b))
  {
    if t.publishOnly {
      FanoutWorks(c, objs, t, ticks, o, b);
      hide FanoutMaintained, Heeds, BeatOk;
    } else {
      hide BeatOk, Heeds, BeatTopic, MeshMaintained;
      var t1, t2, t3, t4 := StagesOf(c, objs, t, ticks, o, b);
      StageMeshes(c, objs, t, ticks, b, t1, t2, t3, t4);
      MeshWorks(c, objs, t, ticks, o, b, t1, t2, t3, t4);
    }
  }

  lemma MeshWorks(c: Config, objs: Heap, t: Topic, ticks: nat, o: Scores, b: Beat, t1: Topic, t2: Topic, t3: Topic, t4: Topic)
    requires c.Usable() && Stages(c, objs, t, ticks, b, t1, t2, t3, t4) && Chosen(c, objs, ticks, o, b, t1, t2, t3)
    ensures MeshMaintained(c, objs, t, o, ticks, t4)
  {
    assert b.bad == o.bad;
    hide Stages, Chosen, RightOnesLeave, RightOnesCome, Refilled, QuotaMet, ChanceTaken, RightlyCharged, LowestStay;
    LeaveWorks(c, objs, t, ticks, o, b, t1, t2, t3, t4);
    ComeWorks(c, objs, t, ticks, o, b, t1, t2, t3, t4);
    RefillWorks(c, objs, t, ticks, o, b, t1, t2, t3, t4);
    QuotaWorks(c, objs, t, ticks, o, b, t1, t2, t3, t4);
    ChanceWorks(c, objs, t, ticks, o, b, t1, t2, t3, t4);
    ChargesWork(c, objs, t, ticks, o, b, t1, t2, t3, t4);
    LowestWorks(c, objs, t, ticks, o, b, t1, t2, t3, t4);
  }

  // ---- Control messages ------------------------------------------------------------

  /** Nothing but one peer's list of topics and one topic has changed. */
  ghost predicate Touches(s: Node, s': Node, r: PeerRef, h: TopicHash) {
    && s'.registry == s.registry && s'.next == s.next && s'.ticks == s.ticks
    && s'.objects.Keys == s.objects.Keys && s'.topics.Keys == s.topics.Keys
    && (forall q :: q in s.objects && q != r ==> s'.objects[q] == s.objects[q])
    && (forall k :: k in s.topics && k != h ==> s'.topics[k] == s.topics[k])
    && (r in s.objects ==> s'.objects[r] == s.objects[r].(topics := s'.objects[r].topics))
  }

  /** Of a topic only the peer's own places have changed. */
  ghost predicate OthersAlone(t: Topic, t': Topic, r: PeerRef) {
    && t'.publishOnly == t.publishOnly && t'.peers - {r} == t.peers - {r} && t'.mesh - {r} == t.mesh - {r}
    && forall q :: q != r ==> Count(t'.backoff, q) == Count(t.backoff, q)
  }

  /** A disconnection takes the peer out of the registry and of every topic, and its backoff stays. */
  lemma DisconnectOutcome(c: Config, s: Node, id: PeerId)
    requires c.Usable()
    ensures var s' := Apply(c, s, Disconnect(id));
            && s'.objects == s.objects && s'.next == s.next && s'.ticks == s.ticks && s'.topics.Keys == s.topics.Keys
            && s'.registry.Keys == s.registry.Keys - {id}
            && (forall k :: k in s'.registry ==> s'.registry[k] == s.registry[k])
            && forall h :: h in s.topics ==>
                 var gone := if id in s.registry then {s.registry[id]} else {};
                 s'.topics[h] == Topic(s.topics[h].publishOnly, s.topics[h].peers - gone, s.topics[h].mesh - gone, s.topics[h].backoff)
  {
  }

  /** SUBSCRIBE: the peer is listed, and grafted exactly when a thin mesh can use it. */
  lemma SubscribeOutcome(c: Config, s: Node, r: PeerRef, h: TopicHash, good: bool)
    requires c.Usable() && Registered(s, r)
    ensures var s' := Apply(c, s, Subscription(r, h, true, good));
            && Touches(s, s', r, h) && s'.objects[r].topics == s.objects[r].topics + {h}
            && (h in s.topics ==>
                  var t, t' := s.topics[h], s'.topics[h];
                  && OthersAlone(t, t', r) && r in t'.peers && Count(t'.backoff, r) == Count(t.backoff, r)
                  && (r in t'.mesh <==>
                        || r in t.mesh
                        || (!t.publishOnly && s.objects[r].IsGossipsub() && |t.mesh| < c.meshLow
                            && Count(t.backoff, r) == 0 && good)))
  {
  }

  /** UNSUBSCRIBE: the peer is gone from the topic, and a member that leaves is charged in full. */
  lemma UnsubscribeOutcome(c: Config, s: Node, r: PeerRef, h: TopicHash, good: bool)
    requires c.Usable() && Registered(s, r)
    ensures var s' := Apply(c, s, Subscription(r, h, false, good));
            && Touches(s, s', r, h) && s'.objects[r].topics == s.objects[r].topics - {h}
            && (h in s.topics ==>
                  var t, t' := s.topics[h], s'.topics[h];
                  && OthersAlone(t, t', r) && r !in t'.peers && r !in t'.mesh
                  && Count(t'.backoff, r) == if r in t.mesh then Max(Count(t.backoff, r), c.PruneSlots()) else Count(t.backoff, r))
  {
  }

  /**
   GRAFT of a gossipsub peer: it is listed. In a subscribed topic it gets in exactly when its
   backoff is within the slack, there is room for it and its score is good enough; if it does
   not, and is v1.1, it is charged in full.
   */
  lemma GraftOutcome(c: Config, s: Node, r: PeerRef, h: TopicHash, good: bool)
    requires c.Usable() && Registered(s, r) && s.objects[r].IsGossipsub()
    ensures var s' := Apply(c, s, GraftIn(r, h, good));
            && Touches(s, s', r, h) && s'.objects[r].topics == s.objects[r].topics + {h}
            && (h in s.topics ==>
                  var t, t', p := s.topics[h], s'.topics[h], s.objects[r];
                  && OthersAlone(t, t', r) && r in t'.peers
                  && (r in t'.mesh <==>
                        || r in t.mesh
                        || (!t.publishOnly && Count(t.backoff, r) <= c.backoffSlack && (p.out || |t.mesh| <= c.meshHigh) && good))
                  && Count(t'.backoff, r) ==
                     if !t.publishOnly && r !in t'.mesh && p.IsV11() then Max(Count(t.backoff, r), c.PruneSlots())
                     else Count(t.backoff, r))
  {
    if h in s.topics {
      GraftTopicOutcome(c, s.objects, s.topics[h], r, good);
      hide GraftTopic, OthersAlone;
    }
  }

  lemma GraftTopicOutcome(c: Config, objs: Heap, t: Topic, r: PeerRef, good: bool)
    requires c.Usable() && r in objs
    ensures var t', p := GraftTopic(c, objs, t, r, good), objs[r];
            && OthersAlone(t, t', r) && r in t'.peers
            && (r in t'.mesh <==>
                  || r in t.mesh
                  || (!t.publishOnly && Count(t.backoff, r) <= c.backoffSlack && (p.out || |t.mesh| <= c.meshHigh) && good))
            && Count(t'.backoff, r) ==
               if !t.publishOnly && r !in t'.mesh && p.IsV11() then Max(Count(t.backoff, r), c.PruneSlots())
               else Count(t.backoff, r)
  {
    forall q
      ensures Count(PruneAll(c, objs, t.backoff, {r}), q) ==
              if q == r && objs[r].IsV11() then Max(Count(t.backoff, q), c.PruneSlots()) else Count(t.backoff, q)
    {
      ChargedCount(c, objs, t.backoff, {r}, q);
    }
    hide PruneAll;
  }

  /** PRUNE from a gossipsub peer: it leaves the mesh, and its backoff is at least what it asked for. */
  lemma PruneOutcome(c: Config, s: Node, r: PeerRef, h: TopicHash, slots: nat)
    requires c.Usable() && Registered(s, r) && s.objects[r].IsGossipsub()
    ensures var s' := Apply(c, s, PruneIn(r, h, slots));
            && Touches(s, s', r, h) && s'.objects[r].topics == s.objects[r].topics
            && (h in s.topics ==>
                  var t, t' := s.topics[h], s'.topics[h];
                  && OthersAlone(t, t', r) && t'.peers == t.peers && r !in t'.mesh
                  && Count(t'.backoff, r) == Max(Count(t.backoff, r), Min(slots, c.PruneSlots())))
  {
  }

  // ---- Publishing and opening -------------------------------------------------------

  /** Who gets a copy, each one once. */
  ghost predicate Delivers(c: Config, objs: Heap, t: Topic, from: Option<PeerId>, author: Option<PeerId>,
                           good: set<PeerRef>, chosen: set<PeerRef>, queued: seq<PeerRef>) {
    && Distinct(queued)
    && forall r :: r in queued <==>
         && r in objs && r in good && from != Some(objs[r].id) && author != Some(objs[r].id)
         && (|| r in t.mesh || r in chosen
             || (r in t.peers && objs[r].IsFloodsub())
             || (r in t.peers && from == None && c.floodPublish))
  }

  /** Gossipsub subscribers that score well enough. */
  function Scored(objs: Heap, t: Topic, good: set<PeerRef>): set<PeerRef> {
    set r | r in t.peers && r in objs && objs[r].IsGossipsub() && r in good
  }

  /** The extra peers of a publication: as many well-scored gossipsub subscribers as there are, up to `mesh_n` in all. */
  ghost predicate ChosenWell(c: Config, objs: Heap, t: Topic, publish: bool, good: set<PeerRef>, chosen: set<PeerRef>) {
    if publish && !c.floodPublish then Picked(chosen, Scored(objs, t, good) - t.mesh, Monus(c.meshN, |t.mesh|))
    else chosen == {}
  }

  lemma QueuesDeliver(c: Config, s: Node, h: TopicHash, from: Option<PeerId>, author: Option<PeerId>,
                      good: set<PeerRef>, chosen: set<PeerRef>, queued: seq<PeerRef>)
    requires h in s.topics && s.topics[h].mesh <= s.topics[h].peers
    requires ChosenWell(c, s.objects, s.topics[h], from == None, good, chosen)
    requires Queues(c, s, h, from, author, good, chosen, queued)
    ensures Delivers(c, s.objects, s.topics[h], from, author, good, chosen, queued)
  {
    var t := s.topics[h];
    var ts := Targets(c, s.objects, t, from == None, chosen);
    forall r
      ensures r in queued <==>
                && r in s.objects && r in good && from != Some(s.objects[r].id) && author != Some(s.objects[r].id)
                && (|| r in t.mesh || r in chosen || (r in t.peers && s.objects[r].IsFloodsub())
                    || (r in t.peers && from == None && c.floodPublish))
    {
      assert r in queued <==> r in Elements(queued);
      assert r in Elements(queued) <==> r in ts && Accepts(s.objects, from, author, good, r);
    }
  }

  /** Only a publish-only topic published to without flooding takes the extra peers into its mesh. */
  lemma BroadcastOutcome(c: Config, s: Node, h: TopicHash, publish: bool, chosen: set<PeerRef>)
    requires c.Usable() && Admissible(c, s, Broadcast(h, publish, chosen))
    ensures var s' := Apply(c, s, Broadcast(h, publish, chosen));
            && s'.objects == s.objects && s'.registry == s.registry && s'.ticks == s.ticks && s'.topics.Keys == s.topics.Keys
            && (forall k :: k in s.topics && k != h ==> s'.topics[k] == s.topics[k])
            && s'.topics[h] == s.topics[h].(mesh := s'.topics[h].mesh)
            && s'.topics[h].mesh ==
               s.topics[h].mesh + if publish && !c.floodPublish && s.topics[h].publishOnly then chosen else {}
  {
    hide Candidates;
  }

  /** A message of our own reaches `mesh_n` well-scored gossipsub subscribers, or all there are. */
  lemma PublicationReaches(c: Config, objs: Heap, t: Topic, author: Option<PeerId>,
                           good: set<PeerRef>, chosen: set<PeerRef>, queued: seq<PeerRef>)
    requires Delivers(c, objs, t, None, author, good, chosen, queued) && ChosenWell(c, objs, t, true, good, chosen)
    requires t.mesh <= t.peers <= objs.Keys && t.mesh <= good
    requires forall r :: r in t.mesh ==> objs[r].IsGossipsub()
    requires forall r :: r in t.peers ==> author != Some(objs[r].id)
    ensures |Elements(queued) * Scored(objs, t, good)| >= Min(c.meshN, |Scored(objs, t, good)|)
  {
    var fit := Scored(objs, t, good);
    assert t.mesh <= fit;
    if c.floodPublish {
      forall r | r in fit ensures r in Elements(queued) { assert r in queued; }
      hide Scored;
      assert Elements(queued) * fit == fit;
    } else {
      forall r | r in t.mesh + chosen ensures r in Elements(queued) {
        assert r in queued;
      }
      hide Scored, Delivers, Elements;
      assert t.mesh + (fit - t.mesh) == fit;
      PickedUnion(t.mesh, fit - t.mesh, chosen, c.meshN);
      SubsetSize(t.mesh + chosen, Elements(queued) * fit);
    }
  }

  lemma PickedUnion(a: set<PeerRef>, b: set<PeerRef>, chosen: set<PeerRef>, n: nat)
    requires a !! b && Picked(chosen, b, Monus(n, |a|))
    ensures a + chosen <= a + b && |a + chosen| >= Min(n, |a + b|)
  {
    assert |a + b| == |a| + |b| && |a + chosen| == |a| + |chosen|;
  }

  /**
   Opening: a new topic has its subscribers and no mesh; one that is open keeps what it has,
   except that a publish-only topic that is subscribed gets a mesh of well-scored peers out of
   backoff, members of the old one first, as many as there are up to `mesh_n`.
   */
  ghost predicate OpenedWell(c: Config, s: Node, h: TopicHash, publishOnly: bool, good: set<PeerRef>, t': Topic) {
    && (h !in s.topics ==> t' == Topic(publishOnly, Subscribers(s, h), {}, map[]))
    && (h in s.topics ==> t'.peers == s.topics[h].peers && t'.backoff == s.topics[h].backoff)
    && (h in s.topics && (publishOnly || !s.topics[h].publishOnly) ==> t' == s.topics[h])
    && (h in s.topics && s.topics[h].publishOnly && !publishOnly ==>
          && !t'.publishOnly
          && FirstFrom(t'.mesh, WithoutBackoff(t', s.topics[h].mesh * good), WithoutBackoff(t', Scored(s.objects, t', good)), c.meshN))
  }

  function WithoutBackoff(t: Topic, s: set<PeerRef>): set<PeerRef> { set r | r in s && Count(t.backoff, r) == 0 }

  /** Up to `n` of two sets, the first before the second. */
  ghost predicate FirstFrom(chosen: set<PeerRef>, first: set<PeerRef>, second: set<PeerRef>, n: nat) {
    && chosen <= first + second && |chosen| <= n
    && (|first| >= n ==> chosen <= first)
    && (|first| <= n ==> first <= chosen)
    && (|chosen| >= n || first + second <= chosen)
  }

  lemma TwoPicks(first: set<PeerRef>, second: set<PeerRef>, left: set<PeerRef>, kept: set<PeerRef>, more: set<PeerRef>, n: nat)
    requires left == second - kept && Picked(kept, first, n) && Picked(more, left, Monus(n, |kept|))
    ensures FirstFrom(kept + more, first, second, n)
  {
    PickedAll(kept, first, n);
    PickedAll(more, left, Monus(n, |kept|));
    assert |kept + more| == |kept| + |more|;
    if |first| >= n {
      assert more == {};
      assert |first| == n ==> kept == first by { assert first == kept + (first - kept); }
    }
  }

  lemma UpgradeOpensWell(c: Config, s: Node, h: TopicHash, good: set<PeerRef>, kept: set<PeerRef>, more: set<PeerRef>)
    requires h in s.topics && s.topics[h].publishOnly
    requires Picked(kept, Fit(s.topics[h], s.topics[h].mesh, good), c.meshN)
    requires Picked(more, Graftable(s.objects, s.topics[h].(mesh := kept)) * good, Monus(c.meshN, |kept|))
    ensures OpenedWell(c, s, h, false, good, s.topics[h].(publishOnly := false, mesh := kept + more))
  {
    var t := s.topics[h];
    var t' := t.(publishOnly := false, mesh := kept + more);
    var first, second := WithoutBackoff(t', t.mesh * good), WithoutBackoff(t', Scored(s.objects, t', good));
    var left := Graftable(s.objects, t.(mesh := kept)) * good;
    hide Fit, Graftable, WithoutBackoff, Scored, Picked, FirstFrom;
    FitIs(t, t', good);
    LeftIs(s.objects, t, t', good, kept);
    TwoPicks(first, second, left, kept, more, c.meshN);
  }

  lemma FitIs(t: Topic, t': Topic, good: set<PeerRef>)
    requires t'.backoff == t.backoff
    ensures Fit(t, t.mesh, good) == WithoutBackoff(t', t.mesh * good)
  {
  }

  lemma LeftIs(objs: Heap, t: Topic, t': Topic, good: set<PeerRef>, kept: set<PeerRef>)
    requires t'.backoff == t.backoff && t'.peers == t.peers
    ensures Graftable(objs, t.(mesh := kept)) * good == WithoutBackoff(t', Scored(objs, t', good)) - kept
  {
  }
}
