/** The operations of the source on one topic record, with their loops. */
module GossipTopicOps {
  import opened Common
  import opened GossipState
  import opened GossipSteps
  import opened GossipInvariants
  import opened GossipMeshBounds
  import opened GossipRetention

  /** The answers of the score oracle during one heartbeat of one topic. */
  datatype Scores = Scores(
    bad: set<PeerRef>,
    joinable: set<PeerRef>,
    outable: set<PeerRef>,
    weak: bool,
    promising: set<PeerRef>,
    score: Ranking)

  // ---- Backoff -------------------------------------------------------------

  lemma PruneOne(c: Config, objs: Heap, b: Countdown, r: PeerRef)
    requires c.Usable() && r in objs
    ensures PruneAll(c, objs, b, {r}) ==
              if objs[r].IsV11() then Extend(b, r, c.PruneSlots(), c.PruneSlots()) else b
  {
  }

  method MakePrune(c: Config, objs: Heap, t: Topic, r: PeerRef) returns (t': Topic)
    requires c.Usable() && r in objs
    ensures t' == t.(backoff := PruneAll(c, objs, t.backoff, {r}))
  {
    PruneOne(c, objs, t.backoff, r);
    t' := t;
    if objs[r].IsGossipsub() {
      if objs[r].IsV11() {
        t' := t.(backoff := Extend(t.backoff, r, c.PruneSlots(), c.PruneSlots()));
      }
    }
  }

  method RemoveFromMesh(c: Config, t: Topic, r: PeerRef, slots: nat, always: bool) returns (t': Topic)
    requires c.Usable()
    ensures t' == t.(
              mesh := t.mesh - {r},
              backoff := if always || r in t.mesh then Extend(t.backoff, r, slots, c.PruneSlots()) else t.backoff)
  {
    var removed := r in t.mesh;
    t' := t.(mesh := t.mesh - {r});
    if always || removed {
      t' := t'.(backoff := Extend(t'.backoff, r, slots, c.PruneSlots()));
    }
  }

  // ---- Choosing and grafting -----------------------------------------------

  method Shuffle(s: set<PeerRef>) returns (order: seq<PeerRef>)
    ensures Permutes(order, s) && |order| == |s|
  {
    order := [];
    var todo := s;
    while todo != {}
      invariant todo <= s && Distinct(order) && Elements(order) == s - todo && |order| == |s| - |todo|
      decreases |todo|
    {
      var r :| r in todo;
      assert r !in Elements(order);
      assert Elements(order + [r]) == Elements(order) + {r};
      order := order + [r];
      todo := todo - {r};
    }
  }

  function Eligible(objs: Heap, all: set<PeerRef>, pass: set<PeerRef>): set<PeerRef> {
    set r | r in all && r in objs && objs[r].IsGossipsub() && r in pass
  }

  lemma FirstFew(s: seq<PeerRef>, n: nat)
    requires n <= |s| && Distinct(s)
    ensures Distinct(s[..n]) && Elements(s[..n]) <= Elements(s)
  {
  }

  /** `ChoosePeers::choose`: gossipsub peers that pass the predicate, shuffled and truncated. */
  method Choose(objs: Heap, all: set<PeerRef>, pass: set<PeerRef>, count: nat) returns (chosen: seq<PeerRef>)
    requires all <= objs.Keys
    ensures Distinct(chosen)
    ensures Elements(chosen) <= Eligible(objs, all, pass)
    ensures |Elements(chosen)| == |chosen| == Min(count, |Eligible(objs, all, pass)|)
  {
    ghost var want := Eligible(objs, all, pass);
    var eligible, todo := {}, all;
    while todo != {}
      invariant todo <= all && eligible == want - todo
      decreases |todo|
    {
      var r :| r in todo;
      if objs[r].IsGossipsub() && r in pass {
        eligible := eligible + {r};
      }
      todo := todo - {r};
    }
    assert eligible == want;
    hide Eligible;
    chosen := Shuffle(eligible);
    if |chosen| > count {
      FirstFew(chosen, count);
      chosen := chosen[..count];
    }
    DistinctSize(chosen);
  }

  /** As many of `from` as there are, up to `count`. */
  ghost predicate Picked(chosen: set<PeerRef>, from: set<PeerRef>, count: nat) {
    chosen <= from && |chosen| == Min(count, |from|)
  }

  lemma EligibleGraftable(objs: Heap, t: Topic, good: set<PeerRef>, pass: set<PeerRef>)
    requires pass == set r | r in good && r !in t.mesh && Count(t.backoff, r) == 0
    ensures Eligible(objs, t.peers, pass) == Graftable(objs, t) * good
  {
  }

  lemma EligibleOutbound(objs: Heap, t: Topic, good: set<PeerRef>, pass: set<PeerRef>)
    requires pass == set r | r in good && r in objs && objs[r].out && r !in t.mesh && Count(t.backoff, r) == 0
    ensures Eligible(objs, t.peers, pass) == Outbound(objs, Graftable(objs, t)) * good
  {
  }

  lemma EligibleCandidates(objs: Heap, t: Topic, good: set<PeerRef>)
    ensures Eligible(objs, t.peers, good - t.mesh) == Candidates(objs, t.peers, t.mesh) * good
  {
  }

  /** The source asserts that the peer is not yet in the mesh; here every caller has to show it. */
  method Graft(t: Topic, r: PeerRef) returns (t': Topic)
    requires r !in t.mesh
    ensures t' == t.(mesh := t.mesh + {r})
  {
    t' := t.(mesh := t.mesh + {r});
  }

  method GraftEach(t: Topic, chosen: seq<PeerRef>) returns (t': Topic)
    requires Distinct(chosen) && Elements(chosen) !! t.mesh
    ensures t' == t.(mesh := t.mesh + Elements(chosen))
  {
    t' := t;
    var i := 0;
    while i < |chosen|
      invariant i <= |chosen| && t' == t.(mesh := t'.mesh) && t'.mesh == t.mesh + Elements(chosen[..i])
    {
      assert chosen[i] in Elements(chosen);
      assert chosen[..i + 1] == chosen[..i] + [chosen[i]];
      t' := Graft(t', chosen[i]);
      i := i + 1;
    }
    assert chosen[..i] == chosen;
  }

  method MeshOutCount(objs: Heap, mesh: set<PeerRef>) returns (count: nat)
    requires mesh <= objs.Keys
    ensures count == |Outbound(objs, mesh)|
  {
    count := 0;
    var todo := mesh;
    while todo != {}
      invariant todo <= mesh && count == |Outbound(objs, mesh)| - |Outbound(objs, todo)|
      decreases |todo|
    {
      var r :| r in todo;
      OutboundMinus(objs, todo, r);
      if objs[r].out {
        count := count + 1;
      }
      todo := todo - {r};
    }
    assert Outbound(objs, todo) == {};
  }

  // ---- The stages of a heartbeat -------------------------------------------

  /** Removing one more peer from a mesh that has already lost some. */
  lemma CutOne(c: Config, objs: Heap, t: Topic, t1: Topic, p: PeerRef)
    requires c.Usable() && p in t1.mesh && t1.mesh <= t.mesh
    requires t1 == t.(mesh := t1.mesh, backoff := PruneAll(c, objs, t.backoff, t.mesh - t1.mesh))
    ensures var mesh := t1.mesh - {p};
            t1.(mesh := mesh, backoff := PruneAll(c, objs, t1.backoff, {p})) ==
            t.(mesh := mesh, backoff := PruneAll(c, objs, t.backoff, t.mesh - mesh))
  {
    PruneTwice(c, objs, t.backoff, t.mesh - t1.mesh, p);
    assert t.mesh - t1.mesh + {p} == t.mesh - (t1.mesh - {p});
    hide PruneAll;
  }

  lemma PruneTwice(c: Config, objs: Heap, b: Countdown, pruned: set<PeerRef>, p: PeerRef)
    requires c.Usable()
    ensures PruneAll(c, objs, PruneAll(c, objs, b, pruned), {p}) == PruneAll(c, objs, b, pruned + {p})
  {
  }

  lemma Uncut(c: Config, objs: Heap, t: Topic)
    requires c.Usable()
    ensures t == t.(backoff := PruneAll(c, objs, t.backoff, t.mesh - t.mesh))
  {
  }

  method PruneBad(c: Config, objs: Heap, t: Topic, bad: set<PeerRef>) returns (t': Topic)
    requires c.Usable() && t.mesh <= objs.Keys
    ensures t' == DropBad(c, objs, t, bad)
  {
    Uncut(c, objs, t);
    hide PruneAll;
    t' := t;
    var todo := t.mesh;
    while todo != {}
      invariant todo <= t.mesh && t'.mesh == t.mesh - bad + todo
      invariant t' == t.(mesh := t'.mesh, backoff := PruneAll(c, objs, t.backoff, t.mesh - t'.mesh))
      decreases |todo|
    {
      var r :| r in todo;
      if r in bad {
        CutOne(c, objs, t, t', r);
        t' := MakePrune(c, objs, t', r);
        t' := t'.(mesh := t'.mesh - {r});
      }
      todo := todo - {r};
    }
    assert t.mesh - t'.mesh == t.mesh * bad;
  }

  lemma WalkOn(order: seq<PeerRef>, i: nat)
    requires i < |order| && Distinct(order)
    ensures order[i] in Elements(order[i..]) && order[i..][1..] == order[i + 1..]
    ensures Elements(order[i + 1..]) <= Elements(order[i..]) - {order[i]}
  {
  }

  /** The order of the walk: shuffled, sorted by score, and shuffled again except for the last `retain`. */
  method WalkOrder(mesh: set<PeerRef>, score: Ranking, retain: nat) returns (order: seq<PeerRef>)
    ensures Permutes(order, mesh) && Ranked(order, score, retain)
  {
    var shuffled := Shuffle(mesh);
    var sorted := SortByScore(shuffled, score);
    var m := Monus(|sorted|, retain);
    DistinctPart(sorted, m);
    var front := Shuffle(Elements(sorted[..m]));
    FrontShuffled(sorted, front, mesh, score, retain);
    order := front + sorted[m..];
  }

  lemma DistinctPart(s: seq<PeerRef>, m: nat)
    requires Distinct(s) && m <= |s|
    ensures |Elements(s[..m])| == m
  {
    DistinctSize(s[..m]);
  }

  /** The overfull branch: walk the shuffled mesh, sparing outbound peers once their quota is reached. */
  method CutMesh(c: Config, objs: Heap, t: Topic, score: Ranking) returns (t': Topic, ghost order: seq<PeerRef>)
    requires c.Usable() && t.mesh <= objs.Keys
    ensures Permutes(order, t.mesh) && Ranked(order, score, c.retainScores)
    ensures var left := Trim(objs, order, t.mesh, c.meshN, c.outboundMin);
            t' == t.(mesh := left, backoff := PruneAll(c, objs, t.backoff, t.mesh - left))
  {
    var shuffled := WalkOrder(t.mesh, score, c.retainScores);
    order := shuffled;
    var outbound := MeshOutCount(objs, t.mesh);
    WalkStart(c, objs, t, order);
    hide Outbound, PruneAll, Trim, Elements, Distinct, Cutting;
    t' := t;
    var i := 0;
    while i < |shuffled| && |t'.mesh| > c.meshN
      invariant i <= |shuffled| && Cutting(c, objs, t, order, i, t', outbound)
    {
      var p := shuffled[i];
      WalkStep(c, objs, t, order, i, t', outbound);
      i := i + 1;
      if objs[p].out && outbound <= c.outboundMin { continue; }
      if objs[p].out { outbound := outbound - 1; }
      t' := t'.(mesh := t'.mesh - {p});
      t' := MakePrune(c, objs, t', p);
    }
    WalkEnd(c, objs, t, order, i, t', outbound);
  }

  /** After `i` peers of the walk: what the rest of it leads to, and what the removed ones were charged. */
  ghost predicate Cutting(c: Config, objs: Heap, t: Topic, order: seq<PeerRef>, i: nat, t1: Topic, outbound: int)
    requires c.Usable() && i <= |order|
  {
    && Distinct(order) && t1.mesh <= t.mesh && Elements(order[i..]) <= t1.mesh && outbound == |Outbound(objs, t1.mesh)|
    && Trim(objs, order, t.mesh, c.meshN, c.outboundMin) == Trim(objs, order[i..], t1.mesh, c.meshN, c.outboundMin)
    && t1 == t.(mesh := t1.mesh, backoff := PruneAll(c, objs, t.backoff, t.mesh - t1.mesh))
  }

  lemma WalkStart(c: Config, objs: Heap, t: Topic, order: seq<PeerRef>)
    requires c.Usable() && Permutes(order, t.mesh)
    ensures Cutting(c, objs, t, order, 0, t, |Outbound(objs, t.mesh)|)
  {
    Uncut(c, objs, t);
    hide Outbound, PruneAll, Trim;
    assert order[0..] == order;
  }

  lemma WalkStep(c: Config, objs: Heap, t: Topic, order: seq<PeerRef>, i: nat, t1: Topic, outbound: int)
    requires c.Usable() && i < |order| && Cutting(c, objs, t, order, i, t1, outbound)
    requires t.mesh <= objs.Keys && |t1.mesh| > c.meshN
    ensures var p := order[i];
            && p in objs && (objs[p].out ==> outbound >= 1)
            && if objs[p].out && outbound <= c.outboundMin then Cutting(c, objs, t, order, i + 1, t1, outbound)
               else
                 var t2 := t1.(mesh := t1.mesh - {p}, backoff := PruneAll(c, objs, t1.backoff, {p}));
                 Cutting(c, objs, t, order, i + 1, t2, if objs[p].out then outbound - 1 else outbound)
  {
    hide Outbound, PruneAll, Trim, Elements, Distinct;
    var p := order[i];
    WalkOn(order, i);
    TrimUnfold(objs, order[i..], t1.mesh, c.meshN, c.outboundMin);
    OutboundMinus(objs, t1.mesh, p);
    CutOne(c, objs, t, t1, p);
  }

  lemma WalkEnd(c: Config, objs: Heap, t: Topic, order: seq<PeerRef>, i: nat, t1: Topic, outbound: int)
    requires c.Usable() && i <= |order| && Cutting(c, objs, t, order, i, t1, outbound)
    requires i == |order| || |t1.mesh| <= c.meshN
    ensures var left := Trim(objs, order, t.mesh, c.meshN, c.outboundMin);
            t1 == t.(mesh := left, backoff := PruneAll(c, objs, t.backoff, t.mesh - left))
  {
    hide Outbound, PruneAll, Trim, Elements, Distinct;
    TrimDone(objs, order[i..], t1.mesh, c.meshN, c.outboundMin);
  }

  lemma TrimDone(objs: Heap, order: seq<PeerRef>, mesh: set<PeerRef>, n: nat, quota: nat)
    requires order == [] || |mesh| <= n
    ensures Trim(objs, order, mesh, n, quota) == mesh
  {
  }

  method BalanceSize(c: Config, objs: Heap, t: Topic, joinable: set<PeerRef>, score: Ranking)
    returns (t': Topic, ghost join: set<PeerRef>, ghost order: seq<PeerRef>)
    requires c.Usable() && t.peers <= objs.Keys && t.mesh <= t.peers
    ensures |t.mesh| < c.meshLow ==> Picked(join, Graftable(objs, t) * joinable, Monus(c.meshN, |t.mesh|))
    ensures c.meshLow <= |t.mesh| && |t.mesh| > c.meshHigh ==> Permutes(order, t.mesh) && Ranked(order, score, c.retainScores)
    ensures t' == Resize(c, objs, t, join, order)
  {
    t', join, order := t, {}, [];
    if |t.mesh| < c.meshLow {
      var pass := set r | r in joinable && r !in t.mesh && Count(t.backoff, r) == 0;
      EligibleGraftable(objs, t, joinable, pass);
      var chosen := Choose(objs, t.peers, pass, Monus(c.meshN, |t.mesh|));
      t' := GraftEach(t, chosen);
      join := Elements(chosen);
    } else if |t.mesh| > c.meshHigh {
      t', order := CutMesh(c, objs, t, score);
    }
  }

  method AddOutbound(c: Config, objs: Heap, t: Topic, outable: set<PeerRef>)
    returns (t': Topic, ghost outs: set<PeerRef>)
    requires c.Usable() && t.peers <= objs.Keys && t.mesh <= t.peers
    ensures outs <= Outbound(objs, Graftable(objs, t)) && |outs| <= Monus(c.outboundMin, |Outbound(objs, t.mesh)|)
    ensures |t.mesh| >= c.meshLow ==>
              Picked(outs, Outbound(objs, Graftable(objs, t)) * outable, Monus(c.outboundMin, |Outbound(objs, t.mesh)|))
    ensures t' == FillOutbound(c, t, outs)
  {
    t', outs := t, {};
    if |t.mesh| >= c.meshLow {
      var have := MeshOutCount(objs, t.mesh);
      var more := Monus(c.outboundMin, have);
      if more > 0 {
        var pass := set r | r in outable && r in objs && objs[r].out && r !in t.mesh && Count(t.backoff, r) == 0;
        EligibleOutbound(objs, t, outable, pass);
        var chosen := Choose(objs, t.peers, pass, more);
        t' := GraftEach(t, chosen);
        outs := Elements(chosen);
      } else {
        assert t.mesh + {} == t.mesh;
      }
    }
  }

  method AddPromising(c: Config, objs: Heap, t: Topic, ticks: nat, weak: bool, promising: set<PeerRef>)
    returns (t': Topic, ghost extra: set<PeerRef>)
    requires c.Usable() && t.peers <= objs.Keys && t.mesh <= t.peers
    ensures extra <= Graftable(objs, t) && |extra| <= c.oppPeers
    ensures ticks % c.oppTicks == 0 && |t.mesh| > 1 && weak ==> Picked(extra, Graftable(objs, t) * promising, c.oppPeers)
    ensures t' == AddExtra(c, t, ticks, weak, extra)
  {
    t', extra := t, {};
    if ticks % c.oppTicks == 0 && |t.mesh| > 1 {
      if weak {
        var pass := set r | r in promising && r !in t.mesh && Count(t.backoff, r) == 0;
        EligibleGraftable(objs, t, promising, pass);
        var chosen := Choose(objs, t.peers, pass, c.oppPeers);
        t' := GraftEach(t, chosen);
        extra := Elements(chosen);
      }
    }
  }

  /** `t'` is where a heartbeat with the oracle answers `b` takes `t`. */
  ghost predicate BeatStep(c: Config, objs: Heap, t: Topic, ticks: nat, b: Beat, t': Topic)
    requires c.Usable()
  {
    BeatOk(c, objs, t, ticks, b) && t' == BeatTopic(c, objs, t, ticks, b)
  }

  /** The choices of a heartbeat are those its scores ask for, and none is left out. */
  ghost predicate Heeds(c: Config, objs: Heap, t: Topic, ticks: nat, o: Scores, b: Beat)
    requires c.Usable()
  {
    if t.publishOnly then
      b.bad == o.bad && Picked(b.join, Candidates(objs, t.peers, t.mesh - o.bad) * o.joinable, Monus(c.meshN, |t.mesh - o.bad|))
    else
      var t1 := DropBad(c, objs, t, o.bad);
      var t2 := Resize(c, objs, t1, b.join, b.order);
      var t3 := FillOutbound(c, t2, b.outs);
      && b.bad == o.bad && b.weak == o.weak
      && (|t1.mesh| < c.meshLow ==> Picked(b.join, Graftable(objs, t1) * o.joinable, Monus(c.meshN, |t1.mesh|)))
      && (c.meshLow <= |t1.mesh| && |t1.mesh| > c.meshHigh ==> Ranked(b.order, o.score, c.retainScores))
      && (|t2.mesh| >= c.meshLow ==>
            Picked(b.outs, Outbound(objs, Graftable(objs, t2)) * o.outable, Monus(c.outboundMin, |Outbound(objs, t2.mesh)|)))
      && (ticks % c.oppTicks == 0 && |t3.mesh| > 1 && o.weak ==> Picked(b.extra, Graftable(objs, t3) * o.promising, c.oppPeers))
  }

  method BalanceFanout(c: Config, objs: Heap, t: Topic, ticks: nat, o: Scores) returns (t': Topic, ghost b: Beat)
    requires c.Usable() && t.publishOnly && t.peers <= objs.Keys
    ensures BeatStep(c, objs, t, ticks, b, t') && Heeds(c, objs, t, ticks, o, b)
  {
    t' := t.(mesh := t.mesh - o.bad);
    EligibleCandidates(objs, t', o.joinable);
    var chosen := Choose(objs, t.peers, o.joinable - t'.mesh, Monus(c.meshN, |t'.mesh|));
    b := Beat(o.bad, Elements(chosen), [], {}, false, {});
    t' := GraftEach(t', chosen);
  }

  /** Mesh maintenance of one subscribed topic; `b` records what the oracles answered. */
  method BalanceMesh(c: Config, objs: Heap, t: Topic, ticks: nat, o: Scores) returns (t': Topic, ghost b: Beat)
    requires c.Usable() && !t.publishOnly && t.peers <= objs.Keys && t.mesh <= t.peers
    ensures BeatStep(c, objs, t, ticks, b, t') && Heeds(c, objs, t, ticks, o, b)
  {
    ghost var join, order, outs, extra;
    var t1 := PruneBad(c, objs, t, o.bad);
    assert t1.peers == t.peers && t1.mesh <= t.mesh && !t1.publishOnly;
    hide Resize, DropBad, AddExtra, Graftable, Outbound, Permutes, Ranked, BeatStep, Heeds;
    var t2, t3;
    t2, join, order := BalanceSize(c, objs, t1, o.joinable, o.score);
    assert |t1.mesh| < c.meshLow ==> join <= Graftable(objs, t1);
    BalanceStays(c, objs, t1, join, order);
    t3, outs := AddOutbound(c, objs, t2, o.outable);
    OutsStay(c, objs, t2, outs);
    hide FillOutbound;
    t', extra := AddPromising(c, objs, t3, ticks, o.weak, o.promising);
    b := Beat(o.bad, join, order, outs, o.weak, extra);
    BeatAssembled(c, objs, t, ticks, b);
    BeatHeeds(c, objs, t, ticks, o, b);
  }

  lemma BeatHeeds(c: Config, objs: Heap, t: Topic, ticks: nat, o: Scores, b: Beat)
    requires c.Usable() && !t.publishOnly && b.bad == o.bad && b.weak == o.weak
    requires var t1 := DropBad(c, objs, t, b.bad);
             && (|t1.mesh| < c.meshLow ==> Picked(b.join, Graftable(objs, t1) * o.joinable, Monus(c.meshN, |t1.mesh|)))
             && (c.meshLow <= |t1.mesh| && |t1.mesh| > c.meshHigh ==> Ranked(b.order, o.score, c.retainScores))
    requires var t2 := Resize(c, objs, DropBad(c, objs, t, b.bad), b.join, b.order);
             |t2.mesh| >= c.meshLow ==>
               Picked(b.outs, Outbound(objs, Graftable(objs, t2)) * o.outable, Monus(c.outboundMin, |Outbound(objs, t2.mesh)|))
    requires var t3 := FillOutbound(c, Resize(c, objs, DropBad(c, objs, t, b.bad), b.join, b.order), b.outs);
             ticks % c.oppTicks == 0 && |t3.mesh| > 1 && b.weak ==> Picked(b.extra, Graftable(objs, t3) * o.promising, c.oppPeers)
    ensures Heeds(c, objs, t, ticks, o, b)
  {
    hide Resize, DropBad, FillOutbound, Graftable, Outbound, Picked, Ranked;
  }

  lemma OutsStay(c: Config, objs: Heap, t: Topic, outs: set<PeerRef>)
    requires t.mesh <= t.peers && outs <= Outbound(objs, Graftable(objs, t))
    ensures FillOutbound(c, t, outs).peers == t.peers && FillOutbound(c, t, outs).mesh <= t.peers
  {
  }

  lemma BeatAssembled(c: Config, objs: Heap, t: Topic, ticks: nat, b: Beat)
    requires c.Usable() && !t.publishOnly
    requires var t1 := DropBad(c, objs, t, b.bad);
             && (|t1.mesh| < c.meshLow ==>
                   b.join <= Graftable(objs, t1) && |b.join| <= Monus(c.meshN, |t1.mesh|))
             && (c.meshLow <= |t1.mesh| && |t1.mesh| > c.meshHigh ==> Permutes(b.order, t1.mesh))
    requires var t2 := Resize(c, objs, DropBad(c, objs, t, b.bad), b.join, b.order);
             && b.outs <= Outbound(objs, Graftable(objs, t2))
             && |b.outs| <= Monus(c.outboundMin, |Outbound(objs, t2.mesh)|)
             && b.extra <= Graftable(objs, FillOutbound(c, t2, b.outs))
    requires |b.extra| <= c.oppPeers
    ensures BeatStep(c, objs, t, ticks, b, AddExtra(c, FillOutbound(c, Resize(c, objs, DropBad(c, objs, t, b.bad), b.join, b.order), b.outs), ticks, b.weak, b.extra))
  {
    hide Resize, DropBad, FillOutbound, AddExtra, Graftable, Outbound, Permutes;
  }

  lemma BalanceStays(c: Config, objs: Heap, t: Topic, join: set<PeerRef>, order: seq<PeerRef>)
    requires c.Usable() && t.mesh <= t.peers
    requires |t.mesh| < c.meshLow ==> join <= Graftable(objs, t)
    ensures Resize(c, objs, t, join, order).peers == t.peers && Resize(c, objs, t, join, order).mesh <= t.peers
  {
    CutSubset(objs, order, t.mesh, |Outbound(objs, t.mesh)|, c.meshN, c.outboundMin);
  }

  ghost predicate Allotted(objs: Heap, ts: map<TopicHash, Topic>) {
    forall h :: h in ts ==> ts[h].peers <= objs.Keys && ts[h].mesh <= ts[h].peers
  }

  /** Every topic of `ts` takes its own heartbeat to `ts'`. */
  ghost predicate AllBeat(c: Config, objs: Heap, ts: map<TopicHash, Topic>, ticks: nat,
                          beats: map<TopicHash, Beat>, ts': map<TopicHash, Topic>)
    requires c.Usable()
  {
    && ts'.Keys == beats.Keys == ts.Keys
    && forall h :: h in beats ==> BeatStep(c, objs, ts[h], ticks, beats[h], ts'[h])
  }

  /** And every one as its scores ask. */
  ghost predicate AllHeed(c: Config, objs: Heap, ts: map<TopicHash, Topic>, ticks: nat,
                          scores: map<TopicHash, Scores>, beats: map<TopicHash, Beat>)
    requires c.Usable()
  {
    beats.Keys <= ts.Keys * scores.Keys && forall h :: h in beats ==> Heeds(c, objs, ts[h], ticks, scores[h], beats[h])
  }

  /** The loop over all live topics. */
  method BalanceAll(c: Config, objs: Heap, ts: map<TopicHash, Topic>, ticks: nat, scores: map<TopicHash, Scores>)
    returns (ts': map<TopicHash, Topic>, ghost beats: map<TopicHash, Beat>)
    requires c.Usable() && ts.Keys <= scores.Keys && Allotted(objs, ts)
    ensures AllBeat(c, objs, ts, ticks, beats, ts') && AllHeed(c, objs, ts, ticks, scores, beats)
  {
    ts', beats := map[], map[];
    var todo := ts.Keys;
    assert Beating(c, objs, ts, ticks, scores, beats, ts', todo);
    assert forall h :: h in ts ==> ts[h].peers <= objs.Keys && ts[h].mesh <= ts[h].peers;
    hide BeatStep, Heeds, Beating;
    while todo != {}
      invariant todo <= ts.Keys && Beating(c, objs, ts, ticks, scores, beats, ts', todo)
      decreases |todo|
    {
      var h :| h in todo;
      var t;
      ghost var b;
      if ts[h].publishOnly {
        t, b := BalanceFanout(c, objs, ts[h], ticks, scores[h]);
      } else {
        t, b := BalanceMesh(c, objs, ts[h], ticks, scores[h]);
      }
      BeatingMore(c, objs, ts, ticks, scores, beats, ts', todo, h, b, t);
      ts', beats := ts'[h := t], beats[h := b];
      todo := todo - {h};
    }
    BeatingEnds(c, objs, ts, ticks, scores, beats, ts');
  }

  /** The same of all topics except those still to do. */
  ghost predicate Beating(c: Config, objs: Heap, ts: map<TopicHash, Topic>, ticks: nat, scores: map<TopicHash, Scores>,
                          beats: map<TopicHash, Beat>, ts': map<TopicHash, Topic>, todo: set<TopicHash>)
    requires c.Usable() && ts.Keys <= scores.Keys
  {
    && ts'.Keys == beats.Keys == ts.Keys - todo
    && forall h :: h in beats ==>
         BeatStep(c, objs, ts[h], ticks, beats[h], ts'[h]) && Heeds(c, objs, ts[h], ticks, scores[h], beats[h])
  }

  lemma BeatingMore(c: Config, objs: Heap, ts: map<TopicHash, Topic>, ticks: nat, scores: map<TopicHash, Scores>,
                    beats: map<TopicHash, Beat>, ts': map<TopicHash, Topic>, todo: set<TopicHash>,
                    h: TopicHash, b: Beat, t: Topic)
    requires c.Usable() && ts.Keys <= scores.Keys && Beating(c, objs, ts, ticks, scores, beats, ts', todo)
    requires h in todo && h in ts && BeatStep(c, objs, ts[h], ticks, b, t) && Heeds(c, objs, ts[h], ticks, scores[h], b)
    ensures Beating(c, objs, ts, ticks, scores, beats[h := b], ts'[h := t], todo - {h})
  {
    hide BeatStep, Heeds;
  }

  lemma BeatingEnds(c: Config, objs: Heap, ts: map<TopicHash, Topic>, ticks: nat, scores: map<TopicHash, Scores>,
                    beats: map<TopicHash, Beat>, ts': map<TopicHash, Topic>)
    requires c.Usable() && ts.Keys <= scores.Keys && Beating(c, objs, ts, ticks, scores, beats, ts', {})
    ensures AllBeat(c, objs, ts, ticks, beats, ts') && AllHeed(c, objs, ts, ticks, scores, beats)
  {
    hide BeatStep, Heeds;
  }

  // ---- Upgrading a publish-only topic --------------------------------------

  /** Regraft what is still fit in the old fanout, up to `mesh_n`. */
  method Regraft(c: Config, t: Topic, before: seq<PeerRef>, good: set<PeerRef>) returns (t': Topic)
    requires t.mesh == {}
    ensures t' == t.(mesh := t'.mesh) && t'.mesh <= Fit(t, Elements(before), good)
    ensures |t'.mesh| == Min(c.meshN, |Fit(t, Elements(before), good)|)
  {
    t' := t;
    var i := 0;
    assert Fit(t, Elements(before[..0]), good) == {};
    hide Fit, Elements;
    while i < |before| && |t'.mesh| < c.meshN
      invariant i <= |before| && t' == t.(mesh := t'.mesh)
      invariant t'.mesh == Fit(t, Elements(before[..i]), good) && |t'.mesh| <= c.meshN
    {
      var r := before[i];
      FitStep(t, before, i, good);
      i := i + 1;
      hide Fit, Elements;
      if r !in t'.mesh && Count(t'.backoff, r) == 0 && r in good {
        t' := Graft(t', r);
      }
    }
    FitSoFar(t, before, i, good);
  }

  lemma FitStep(t: Topic, before: seq<PeerRef>, i: nat, good: set<PeerRef>)
    requires i < |before|
    ensures Fit(t, Elements(before[..i + 1]), good) ==
            Fit(t, Elements(before[..i]), good) +
            if before[i] in good && Count(t.backoff, before[i]) == 0 then {before[i]} else {}
  {
    assert before[..i + 1] == before[..i] + [before[i]];
    assert Elements(before[..i + 1]) == Elements(before[..i]) + {before[i]};
    hide Elements;
  }

  lemma FitSoFar(t: Topic, before: seq<PeerRef>, i: nat, good: set<PeerRef>)
    requires i <= |before|
    ensures var some, all := Fit(t, Elements(before[..i]), good), Fit(t, Elements(before), good);
            some <= all && |some| <= |all| && (i == |before| ==> some == all)
  {
    assert Elements(before[..i]) <= Elements(before);
    assert before[..|before|] == before;
    hide Elements;
    SubsetSize(Fit(t, Elements(before[..i]), good), Fit(t, Elements(before), good));
  }

  /** Members of an old fanout that may stay: scored well enough and out of backoff. */
  function Fit(t: Topic, s: set<PeerRef>, good: set<PeerRef>): set<PeerRef> {
    set r | r in s && r in good && Count(t.backoff, r) == 0
  }

  /** Turn a publish-only topic into a subscribed one: regraft, then fill up to `mesh_n`. */
  method Upgrade(c: Config, objs: Heap, t: Topic, good: set<PeerRef>)
    returns (t': Topic, ghost kept: set<PeerRef>, ghost more: set<PeerRef>)
    requires t.peers <= objs.Keys
    ensures t' == t.(publishOnly := false, mesh := kept + more)
    ensures Picked(kept, Fit(t, t.mesh, good), c.meshN)
    ensures Picked(more, Graftable(objs, t.(mesh := kept)) * good, Monus(c.meshN, |kept|))
  {
    var before := Shuffle(t.mesh);
    t' := Regraft(c, t.(publishOnly := false, mesh := {}), before, good);
    kept, more := t'.mesh, {};
    hide Distinct, Elements;
    if |t'.mesh| < c.meshN {
      var pass := set r | r in good && r !in t'.mesh && Count(t'.backoff, r) == 0;
      var chosen := Choose(objs, t'.peers, pass, c.meshN - |t'.mesh|);
      more := Elements(chosen);
      EligibleGraftable(objs, t.(mesh := kept), good, pass);
      assert Elements(chosen) !! t'.mesh;
      hide Eligible, Graftable, Fit;
      t' := GraftEach(t', chosen);
    } else {
      assert kept + {} == kept;
    }
  }

  // ---- Broadcast -----------------------------------------------------------

  /** What `add_peer` asks: not the sender, not the author, and scored well enough. */
  predicate Accepts(objs: Heap, from: Option<PeerId>, author: Option<PeerId>, good: set<PeerRef>, r: PeerRef) {
    r in objs && from != Some(objs[r].id) && author != Some(objs[r].id) && r in good
  }

  function Willing(objs: Heap, from: Option<PeerId>, author: Option<PeerId>, good: set<PeerRef>, s: set<PeerRef>): set<PeerRef> {
    set r | r in s && Accepts(objs, from, author, good, r)
  }

  /** One broadcast queues one copy for each willing target and none besides. */
  ghost predicate Queues(c: Config, s: Node, h: TopicHash, from: Option<PeerId>, author: Option<PeerId>,
                         good: set<PeerRef>, chosen: set<PeerRef>, queued: seq<PeerRef>)
    requires h in s.topics
  {
    && Distinct(queued)
    && Elements(queued) == Willing(s.objects, from, author, good, Targets(c, s.objects, s.topics[h], from == None, chosen))
  }

  /** `queued` has grown to `queued'` by the willing peers of `s`, except for those still to do. */
  ghost predicate Has(objs: Heap, from: Option<PeerId>, author: Option<PeerId>, good: set<PeerRef>,
                      s: set<PeerRef>, todo: set<PeerRef>, queued: seq<PeerRef>, queued': seq<PeerRef>) {
    forall x :: x in queued' <==> x in queued || (x in s && x !in todo && Accepts(objs, from, author, good, x))
  }

  lemma HasMore(objs: Heap, from: Option<PeerId>, author: Option<PeerId>, good: set<PeerRef>,
                s: set<PeerRef>, todo: set<PeerRef>, queued: seq<PeerRef>, queued': seq<PeerRef>, r: PeerRef)
    requires Distinct(queued') && Elements(queued) !! s && r in todo && todo <= s
    requires Has(objs, from, author, good, s, todo, queued, queued')
    ensures var more := if Accepts(objs, from, author, good, r) then queued' + [r] else queued';
            Distinct(more) && Has(objs, from, author, good, s, todo - {r}, queued, more)
  {
    hide Accepts;
    assert r !in Elements(queued);
  }

  lemma HasAll(objs: Heap, from: Option<PeerId>, author: Option<PeerId>, good: set<PeerRef>,
               s: set<PeerRef>, queued: seq<PeerRef>, queued': seq<PeerRef>)
    requires Has(objs, from, author, good, s, {}, queued, queued')
    ensures Elements(queued') == Elements(queued) + Willing(objs, from, author, good, s)
  {
    hide Accepts;
  }

  /** One of the loops of `broadcast`, appending a copy for every willing peer of `s`. */
  method Enqueue(objs: Heap, from: Option<PeerId>, author: Option<PeerId>, good: set<PeerRef>,
                 s: set<PeerRef>, queued: seq<PeerRef>) returns (queued': seq<PeerRef>)
    requires s <= objs.Keys && Distinct(queued) && Elements(queued) !! s
    ensures Distinct(queued') && Elements(queued') == Elements(queued) + Willing(objs, from, author, good, s)
  {
    queued' := queued;
    var todo := s;
    assert Has(objs, from, author, good, s, s, queued, queued);
    hide Has, Accepts, Distinct, Elements, Willing;
    while todo != {}
      invariant todo <= s && Distinct(queued') && Has(objs, from, author, good, s, todo, queued, queued')
      decreases |todo|
    {
      var r :| r in todo;
      HasMore(objs, from, author, good, s, todo, queued, queued', r);
      if Accepts(objs, from, author, good, r) {
        queued' := queued' + [r];
      }
      todo := todo - {r};
    }
    HasAll(objs, from, author, good, s, queued, queued');
  }

  /** Publishing without flooding tops the mesh up with further well-scored subscribers. */
  method PickFanout(c: Config, objs: Heap, t: Topic, good: set<PeerRef>, publish: bool) returns (picked: set<PeerRef>)
    requires t.peers <= objs.Keys
    ensures if publish && !c.floodPublish
            then Picked(picked, Candidates(objs, t.peers, t.mesh) * good, Monus(c.meshN, |t.mesh|))
            else picked == {}
  {
    picked := {};
    if publish && !c.floodPublish && |t.mesh| < c.meshN {
      EligibleCandidates(objs, t, good);
      var extra := Choose(objs, t.peers, good - t.mesh, c.meshN - |t.mesh|);
      picked := set r | r in extra;
      assert picked == Elements(extra);
    }
  }

  /**
   The loops of `broadcast` on one topic: `from` is the peer that relayed the
   message (none when we publish), `author` its signer. `queued` lists the
   batches that receive a copy, in order.
   */
  method Fanout(c: Config, objs: Heap, t: Topic, from: Option<PeerId>, author: Option<PeerId>,
                good: set<PeerRef>, picked: set<PeerRef>) returns (queued: seq<PeerRef>)
    requires t.peers <= objs.Keys && t.mesh <= t.peers
    requires forall r :: r in t.mesh ==> objs[r].IsGossipsub()
    requires picked <= Candidates(objs, t.peers, t.mesh) && (from != None || c.floodPublish ==> picked == {})
    ensures Distinct(queued)
    ensures Elements(queued) == Willing(objs, from, author, good, Targets(c, objs, t, from == None, picked))
  {
    hide Willing, Accepts, Distinct, Elements;
    var publish := from == None;
    if publish && c.floodPublish {
      queued := EnqueueThree(objs, from, author, good, t.peers, {}, {});
      assert t.peers + {} + {} == t.peers;
    } else {
      var flood := set r | r in t.peers && objs[r].IsFloodsub();
      queued := EnqueueThree(objs, from, author, good, flood, t.mesh, picked);
      RelayTargets(c, objs, t, publish, picked, flood);
    }
  }

  lemma RelayTargets(c: Config, objs: Heap, t: Topic, publish: bool, chosen: set<PeerRef>, flood: set<PeerRef>)
    requires !(publish && c.floodPublish) && (!publish ==> chosen == {})
    requires flood == set r | r in t.peers && r in objs && objs[r].IsFloodsub()
    ensures Targets(c, objs, t, publish, chosen) == flood + t.mesh + chosen
  {
  }

  method EnqueueThree(objs: Heap, from: Option<PeerId>, author: Option<PeerId>, good: set<PeerRef>,
                      s1: set<PeerRef>, s2: set<PeerRef>, s3: set<PeerRef>) returns (queued: seq<PeerRef>)
    requires s1 + s2 + s3 <= objs.Keys && s1 !! s2 && s1 !! s3 && s2 !! s3
    ensures Distinct(queued) && Elements(queued) == Willing(objs, from, author, good, s1 + s2 + s3)
  {
    hide Accepts;
    queued := Enqueue(objs, from, author, good, s1, []);
    queued := Enqueue(objs, from, author, good, s2, queued);
    queued := Enqueue(objs, from, author, good, s3, queued);
    hide Distinct, Elements;
  }
}
