/** What each statistic is worth, and what each event does to the statistics, in plain numbers. */
module ScoreLaws {
  import opened Common
  import opened ScoreState
  import opened ScoreProofs
  import opened ScoreRuns

  // ---- One statistic at a time ------------------------------------------------------

  /** A peer known only for one topic. */
  function Only(h: TopicHash, t: TopicStats): PeerStats { NoStats.(topics := map[h := t]) }

  /** No threshold is negative, so a peer without a record exceeds none. */
  ghost predicate Lenient(ps: Params) { ps.behaviourThreshold >= 0.0 && ps.slowThreshold >= 0.0 }

  ghost predicate UnderCap(ps: Params, x: real) { ps.topicScoreCap <= 0.0 || x <= ps.topicScoreCap }

  lemma OnlyScore(ps: Params, h: TopicHash, t: TopicStats)
    requires Lenient(ps) && h in ps.topics
    ensures PeerScore(ps, Only(h, t)) == Capped(ps, TopicScore(ps.topics[h], t) * ps.topics[h].topicWeight)
    ensures ps.topicScoreCap <= 0.0 ==> PeerScore(ps, Only(h, t)) == Contribution(ps, h, t)
  {
    var s := Only(h, t);
    OneTopic(ps, h, t);
    assert s.topics == map[h := t] && s.topics.Keys == {h};
    assert Globals(ps, s) == 0.0 by { hide TopicSum; }
    hide TopicSum, TopicScore, Globals;
  }

  /** First deliveries count once each, up to their cap. */
  lemma FirstDeliveriesScore(ps: Params, h: TopicHash, n: real)
    requires Lenient(ps) && h in ps.topics && ps.topics[h].firstCap >= 0.0 && n >= 0.0
    requires var p := ps.topics[h]; UnderCap(ps, MinReal(n, p.firstCap) * p.firstWeight * p.topicWeight)
    ensures var p := ps.topics[h];
            PeerScore(ps, Only(h, NoTopicStats.(first := n))) == MinReal(n, p.firstCap) * p.firstWeight * p.topicWeight
  {
    var p, t := ps.topics[h], NoTopicStats.(first := n);
    assert TopicScore(p, t) == MinReal(n, p.firstCap) * p.firstWeight;
    hide TopicScore, PeerScore;
    OnlyScore(ps, h, t);
  }

  /** Each whole quantum in the mesh counts once, up to the cap. */
  lemma TimeInMeshScore(ps: Params, h: TopicHash, grafted: int, k: nat)
    requires Lenient(ps) && h in ps.topics && ps.topics[h].Sane()
    requires var p := ps.topics[h]; UnderCap(ps, MinReal(k as real, p.timeInMeshCap) * p.timeInMeshWeight * p.topicWeight)
    ensures var p := ps.topics[h]; var time := k * (p.timeInMeshQuantum / 1000) * 1000;
            PeerScore(ps, Only(h, NoTopicStats.(mesh := Some(MeshActive(grafted, time))))) ==
            MinReal(k as real, p.timeInMeshCap) * p.timeInMeshWeight * p.topicWeight
  {
    var p := ps.topics[h];
    var q := p.timeInMeshQuantum / 1000;
    var t := NoTopicStats.(mesh := Some(MeshActive(grafted, k * q * 1000)));
    WholeQuanta(k, q);
    assert TimeInMesh(p, t) == MinReal(k as real, p.timeInMeshCap);
    hide TimeInMesh;
    assert TopicScore(p, t) == MinReal(k as real, p.timeInMeshCap) * p.timeInMeshWeight;
    hide TopicScore, PeerScore;
    OnlyScore(ps, h, t);
  }

  lemma WholeQuanta(k: nat, q: nat)
    requires q >= 1
    ensures k * q * 1000 / 1000 == k * q && (k * q) as real / q as real == k as real
  {
    assert (k * q) as real == k as real * q as real;
  }

  /** Invalid messages cost their square. */
  lemma InvalidScore(ps: Params, h: TopicHash, n: real)
    requires Lenient(ps) && h in ps.topics && ps.topics[h].firstCap >= 0.0
    requires var p := ps.topics[h]; UnderCap(ps, n * n * p.invalidWeight * p.topicWeight)
    ensures var p := ps.topics[h];
            PeerScore(ps, Only(h, NoTopicStats.(invalid := n))) == n * n * p.invalidWeight * p.topicWeight
  {
    var p, t := ps.topics[h], NoTopicStats.(invalid := n);
    assert TopicScore(p, t) == n * n * p.invalidWeight;
    hide TopicScore, PeerScore;
    OnlyScore(ps, h, t);
  }

  /** Past the grace period each missing mesh delivery counts, squared. */
  lemma DeficitScore(ps: Params, h: TopicHash, d: real)
    requires Lenient(ps) && h in ps.topics && ps.topics[h].firstCap >= 0.0
    requires var p := ps.topics[h];
             var missing := if d < p.meshThreshold then p.meshThreshold - d else 0.0;
             UnderCap(ps, missing * missing * p.meshWeight * p.topicWeight)
    ensures var p := ps.topics[h];
            var missing := if d < p.meshThreshold then p.meshThreshold - d else 0.0;
            PeerScore(ps, Only(h, NoTopicStats.(active := true, delivered := d))) == missing * missing * p.meshWeight * p.topicWeight
  {
    var p, t := ps.topics[h], NoTopicStats.(active := true, delivered := d);
    var missing := if d < p.meshThreshold then p.meshThreshold - d else 0.0;
    assert Deficit(p, t) == missing * missing;
    hide Deficit;
    assert TopicScore(p, t) == missing * missing * p.meshWeight;
    hide TopicScore, PeerScore;
    OnlyScore(ps, h, t);
  }

  /** Within the grace period they do not. */
  lemma GraceScore(ps: Params, h: TopicHash, d: real)
    requires Lenient(ps) && h in ps.topics && ps.topics[h].firstCap >= 0.0
    ensures PeerScore(ps, Only(h, NoTopicStats.(delivered := d))) == 0.0
  {
    var p, t := ps.topics[h], NoTopicStats.(delivered := d);
    assert TopicScore(p, t) == 0.0;
    hide TopicScore, PeerScore;
    OnlyScore(ps, h, t);
  }

  /** A recorded failure counts as it stands. */
  lemma FailureScore(ps: Params, h: TopicHash, x: real)
    requires Lenient(ps) && h in ps.topics && ps.topics[h].firstCap >= 0.0
    requires var p := ps.topics[h]; UnderCap(ps, x * p.failureWeight * p.topicWeight)
    ensures var p := ps.topics[h]; PeerScore(ps, Only(h, NoTopicStats.(failure := x))) == x * p.failureWeight * p.topicWeight
  {
    var p, t := ps.topics[h], NoTopicStats.(failure := x);
    assert TopicScore(p, t) == x * p.failureWeight;
    hide TopicScore, PeerScore;
    OnlyScore(ps, h, t);
  }

  /** The three terms that belong to no topic. */
  lemma GlobalScore(ps: Params, x: real)
    requires Lenient(ps)
    ensures PeerScore(ps, NoStats.(app := x)) == x * ps.appWeight
    ensures PeerScore(ps, NoStats.(behaviour := x)) ==
            var excess := if x > ps.behaviourThreshold then x - ps.behaviourThreshold else 0.0;
            excess * excess * ps.behaviourWeight
    ensures PeerScore(ps, NoStats.(slow := x)) ==
            (if x > ps.slowThreshold then x - ps.slowThreshold else 0.0) * ps.slowWeight
  {
    NoTopics(ps, NoStats.(app := x));
    NoTopics(ps, NoStats.(behaviour := x));
    NoTopics(ps, NoStats.(slow := x));
    hide PeerScore;
  }

  lemma NoTopics(ps: Params, s: PeerStats)
    requires s.topics == map[]
    ensures PeerScore(ps, s) == Globals(ps, s)
  {
    assert s.topics.Keys == {};
    hide Globals;
  }

  /** The statistics of a topic do not interfere with each other. */
  lemma TermsAdd(p: TopicParams, t: TopicStats)
    requires p.firstCap >= 0.0
    ensures TopicScore(p, t) ==
            TopicScore(p, NoTopicStats.(mesh := t.mesh)) + TopicScore(p, NoTopicStats.(first := t.first))
            + TopicScore(p, NoTopicStats.(active := t.active, delivered := t.delivered))
            + TopicScore(p, NoTopicStats.(failure := t.failure)) + TopicScore(p, NoTopicStats.(invalid := t.invalid))
  {
    TimesNothing(p.timeInMeshWeight);
    TimesNothing(p.firstWeight);
    TimesNothing(p.meshWeight);
    TimesNothing(p.failureWeight);
    TimesNothing(p.invalidWeight);
    TimesNothing(0.0);
    hide Times;
  }

  /** Nor do the topics and the terms that belong to none; only the sum over topics is capped. */
  lemma GlobalsAdd(ps: Params, s: PeerStats)
    requires Lenient(ps)
    ensures PeerScore(ps, s) ==
            PeerScore(ps, NoStats.(topics := s.topics)) + PeerScore(ps, NoStats.(app := s.app))
            + PeerScore(ps, NoStats.(behaviour := s.behaviour)) + PeerScore(ps, NoStats.(slow := s.slow))
    ensures ps.topicScoreCap > 0.0 ==> PeerScore(ps, NoStats.(topics := s.topics)) <= ps.topicScoreCap
  {
    NoTopics(ps, NoStats.(app := s.app));
    NoTopics(ps, NoStats.(behaviour := s.behaviour));
    NoTopics(ps, NoStats.(slow := s.slow));
    TimesNothing(ps.appWeight);
    hide Times, TopicSum;
  }

  lemma {:induction false} SameSum(ps: Params, ts: map<TopicHash, TopicStats>, ts': map<TopicHash, TopicStats>, hs: set<TopicHash>)
    requires hs <= ts.Keys && hs <= ts'.Keys && forall h :: h in hs ==> ts[h] == ts'[h]
    ensures TopicSum(ps, ts, hs) == TopicSum(ps, ts', hs)
    decreases |hs|
  {
    if hs != {} {
      var h :| h in hs;
      TopicSumPick(ps, ts, hs, h);
      TopicSumPick(ps, ts', hs, h);
      SameSum(ps, ts, ts', hs - {h});
    }
  }

  /** Without a cap every topic adds what it is worth alone, and nothing if it is not scored. */
  lemma TopicsAdd(ps: Params, ts: map<TopicHash, TopicStats>, h: TopicHash)
    requires Lenient(ps) && ps.topicScoreCap <= 0.0 && h in ts
    ensures PeerScore(ps, NoStats.(topics := ts)) ==
            PeerScore(ps, NoStats.(topics := ts - {h})) + if h in ps.topics then PeerScore(ps, Only(h, ts[h])) else 0.0
  {
    var rest := ts - {h};
    assert rest.Keys == ts.Keys - {h};
    hide TopicSum, PeerScore;
    OnlyTopics(ps, ts);
    OnlyTopics(ps, rest);
    TopicSumPick(ps, ts, ts.Keys, h);
    SameSum(ps, ts, rest, rest.Keys);
    assert h !in ps.topics ==> Contribution(ps, h, ts[h]) == 0.0;
    hide *;
    if h in ps.topics {
      OnlyScore(ps, h, ts[h]);
    }
  }

  lemma OnlyTopics(ps: Params, ts: map<TopicHash, TopicStats>)
    requires Lenient(ps) && ps.topicScoreCap <= 0.0
    ensures PeerScore(ps, NoStats.(topics := ts)) == TopicSum(ps, ts, ts.Keys)
  {
    TimesNothing(ps.appWeight);
    hide TopicSum, Times;
  }

  // ---- What the events do --------------------------------------------------------------

  /** Of the whole book only one peer's entry for one topic differs. */
  ghost predicate OnlyEntry(ps: Params, b: Book, b': Book, p: PeerId, h: TopicHash) {
    && b'.Keys == b.Keys && (forall q :: q in b && q != p ==> b'[q] == b[q])
    && (p in b ==>
          && b'[p] == b[p].(topics := b'[p].topics)
          && (forall k :: k != h ==> (k in b[p].topics <==> k in b'[p].topics))
          && (forall k :: k in b[p].topics && k != h ==> b'[p].topics[k] == b[p].topics[k]))
  }

  /** A graft starts the clock, and the grace period with it. */
  lemma GraftLaw(ps: Params, s: Table, p: PeerId, h: TopicHash, now: int)
    requires p in s.book && h in ps.topics
    ensures var s' := Apply(ps, s, Grafted(p, h), now);
            var t, t' := StatsOf(s.book, p, h), StatsOf(s'.book, p, h);
            && OnlyEntry(ps, s.book, s'.book, p, h) && s'.deliveries == s.deliveries
            && t'.mesh == Some(MeshActive(now, 0)) && !t'.active
            && t'.first == t.first && t'.delivered == t.delivered && t'.failure == t.failure && t'.invalid == t.invalid
  {
  }

  /** A prune stops both, and turns what is missing past the grace period into a failure, squared. */
  lemma PruneLaw(ps: Params, s: Table, p: PeerId, h: TopicHash, now: int)
    requires p in s.book && h in ps.topics
    ensures var s' := Apply(ps, s, Pruned(p, h), now);
            var t, t' := StatsOf(s.book, p, h), StatsOf(s'.book, p, h);
            var missing := if t.active && t.delivered < ps.topics[h].meshThreshold then ps.topics[h].meshThreshold - t.delivered else 0.0;
            && OnlyEntry(ps, s.book, s'.book, p, h) && s'.deliveries == s.deliveries
            && t'.mesh == None && !t'.active && t'.failure == t.failure + missing * missing
            && t'.first == t.first && t'.delivered == t.delivered && t'.invalid == t.invalid
  {
  }

  /** `n` penalties make a behaviour penalty of `n`. */
  lemma PenaltyLaw(ps: Params, s: Table, p: PeerId, n: nat, now: int)
    requires p in s.book
    ensures var s' := Apply(ps, s, Penalty(p, n), now);
            && s'.deliveries == s.deliveries && s'.book.Keys == s.book.Keys
            && (forall q :: q in s.book && q != p ==> s'.book[q] == s.book[q])
            && s'.book[p] == s.book[p].(behaviour := s'.book[p].behaviour)
            && s'.book[p].behaviour == s.book[p].behaviour + n as real
  {
  }

  /** Deliveries by one peer, one after the other. */
  ghost function Deliveries(ps: Params, s: Table, p: PeerId, h: TopicHash, ms: seq<MessageId>, now: int): Table {
    if ms == [] then s
    else Apply(ps, Deliveries(ps, s, p, h, ms[..|ms| - 1], now), Deliver(p, ms[|ms| - 1], h), now)
  }

  lemma DeliverStep(ps: Params, s: Table, p: PeerId, m: MessageId, h: TopicHash, now: int)
    requires p in s.book && h in ps.topics
    ensures var s' := Apply(ps, s, Deliver(p, m, h), now);
            && p in s'.book && StatsOf(s'.book, p, h) == FirstDelivery(ps.topics[h], StatsOf(s.book, p, h))
  {
    hide FirstDelivery;
  }

  /**
   `n` messages first delivered by a peer raise its first deliveries by `n` up to the cap, and its
   mesh deliveries as well if it is in the mesh.
   */
  lemma {:induction false} DeliveriesLaw(ps: Params, s: Table, p: PeerId, h: TopicHash, ms: seq<MessageId>, now: int)
    requires p in s.book && h in ps.topics
    requires StatsOf(s.book, p, h).first <= ps.topics[h].firstCap && StatsOf(s.book, p, h).delivered <= ps.topics[h].meshCap
    ensures var s' := Deliveries(ps, s, p, h, ms, now);
            && p in s'.book
            && var t, t', q := StatsOf(s.book, p, h), StatsOf(s'.book, p, h), ps.topics[h];
               && t'.first == MinReal(t.first + |ms| as real, q.firstCap)
               && t'.delivered == (if t.mesh != None then MinReal(t.delivered + |ms| as real, q.meshCap) else t.delivered)
               && t' == t.(first := t'.first, delivered := t'.delivered)
  {
    if ms != [] {
      var init, m := ms[..|ms| - 1], ms[|ms| - 1];
      DeliveriesLaw(ps, s, p, h, init, now);
      var s1 := Deliveries(ps, s, p, h, init, now);
      assert Deliveries(ps, s, p, h, ms, now) == Apply(ps, s1, Deliver(p, m, h), now);
      hide Apply, Deliveries, StatsOf;
      DeliverStep(ps, s1, p, m, h, now);
    }
  }

  /** A delivery by one peer leaves the statistics of every other as they are. */
  lemma DeliverOthers(ps: Params, s: Table, p: PeerId, m: MessageId, h: TopicHash, now: int, q: PeerId, k: TopicHash)
    requires q in s.book && q != p
    ensures var s' := Apply(ps, s, Deliver(p, m, h), now);
            && q in s'.book && StatsOf(s'.book, q, k) == StatsOf(s.book, q, k)
            && s'.book[q] == s.book[q].(topics := s'.book[q].topics)
  {
    hide FirstDelivery;
  }

  /** Nothing but connecting makes an entry for a peer, and nothing but leaving and time removes one. */
  lemma EntriesLaw(ps: Params, s: Table, e: Event, now: int)
    requires !e.Connect? && !e.Disconnect? && !e.Decay?
    ensures Apply(ps, s, e, now).book.Keys == s.book.Keys
  {
    hide FirstDelivery, DuplicateDelivery, GraftStats, PruneStats;
  }

  /** A message's record lives for two minutes; a lookup after that starts a blank one. */
  lemma RecordLaw(ds: ScoreRuns.Deliveries, m: MessageId, now: int)
    ensures var ds' := Looked(ds, m, now);
            && ds'[m] == (if m in ds && now < ds[m].expires then ds[m] else Record(Unknown, {}, now + 2 * 60 * 1000))
            && forall k :: k != m ==> (k in ds' <==> k in ds && now < ds[k].expires) && (k in ds' ==> ds'[k] == ds[k])
  {
  }

  /** The first delivery of a message settles when it was valid; later ones do not move that. */
  lemma ValidFrom(ps: Params, s: Table, p: PeerId, m: MessageId, h: TopicHash, now: int)
    ensures m in Apply(ps, s, Deliver(p, m, h), now).deliveries
    ensures var was, after := Looked(s.deliveries, m, now)[m], Apply(ps, s, Deliver(p, m, h), now).deliveries[m];
            after == if was.status == Unknown then was.(status := Valid(now)) else was
  {
    hide FirstDelivery, Ensured, Marked;
  }

  /**
   A duplicate counts for a mesh member within the window after the first delivery, and once:
   from whoever is already listed for the message it changes no counter.
   */
  lemma DuplicateLaw(ps: Params, s: Table, p: PeerId, m: MessageId, h: TopicHash, now: int)
    requires p in s.book && h in ps.topics
    ensures var record, s' := Looked(s.deliveries, m, now)[m], Apply(ps, s, Duplicate(p, m, h), now);
            var t, t', q := StatsOf(s.book, p, h), StatsOf(s'.book, p, h), ps.topics[h];
            && OnlyEntry(ps, s.book, s'.book, p, h) && t' == t.(delivered := t'.delivered, invalid := t'.invalid)
            && (record.status == Unknown || record.status.Valid? ==> p in s'.deliveries[m].peers)
            && t'.delivered == (if p !in record.peers && record.status.Valid? && t.mesh != None && now <= record.status.time + q.meshWindow
                                then MinReal(t.delivered + 1.0, q.meshCap) else t.delivered)
            && t'.invalid == t.invalid + (if p !in record.peers && record.status == Invalid then 1.0 else 0.0)
  {
  }

  /** The record of a peer that left is kept unchanged up to its deadline, and not beyond. */
  lemma RetainedLaw(ps: Params, s: Table, p: PeerId, now: int)
    requires p in s.book && s.book[p].expiresAt != None
    ensures var s' := Apply(ps, s, Decay, now);
            && (p in s'.book <==> now <= s.book[p].expiresAt.value)
            && (p in s'.book ==> s'.book[p] == s.book[p])
  {
    hide DecayPeer;
  }

  /** `x * d * ... * d`, `n` times. */
  function Shrunk(x: real, d: real, n: nat): real { if n == 0 then x else Times(Shrunk(x, d, n - 1), d) }

  function DecayedTimes(x: real, d: real, floor: real, n: nat): real {
    if n == 0 then x else Decayed(DecayedTimes(x, d, floor, n - 1), d, floor)
  }

  /** Decay is geometric until the value falls below the floor; then it is nothing. */
  lemma {:induction false} DecayLaw(x: real, d: real, floor: real, n: nat)
    requires x >= 0.0 && 0.0 <= d <= 1.0 && floor > 0.0
    ensures 0.0 <= Shrunk(x, d, n) && (n > 0 ==> Shrunk(x, d, n) <= Shrunk(x, d, n - 1))
    ensures DecayedTimes(x, d, floor, n) == if n == 0 || Shrunk(x, d, n) >= floor then Shrunk(x, d, n) else 0.0
  {
    if n > 0 {
      hide Times;
      DecayLaw(x, d, floor, n - 1);
      Shrinks(Shrunk(x, d, n - 1), d);
      TimesNothing(d);
    }
  }

  lemma Shrinks(y: real, d: real)
    requires y >= 0.0 && 0.0 <= d <= 1.0
    ensures 0.0 <= Times(y, d) <= y
  {
  }

  /** One decay: each counter by its own factor, and the time in the mesh brought up to date. */
  lemma DecayOutcome(ps: Params, s: Table, p: PeerId, h: TopicHash, now: int)
    requires p in s.book && s.book[p].expiresAt == None && h in s.book[p].topics && h in ps.topics
    ensures var s' := Apply(ps, s, Decay, now);
            && p in s'.book && h in s'.book[p].topics && s'.book[p].topics.Keys == s.book[p].topics.Keys
            && var t, t', q, z := s.book[p].topics[h], s'.book[p].topics[h], ps.topics[h], ps.decayToZero;
               && t'.first == DecayedTimes(t.first, q.firstDecay, z, 1)
               && t'.delivered == DecayedTimes(t.delivered, q.meshDecay, z, 1)
               && t'.failure == DecayedTimes(t.failure, q.failureDecay, z, 1)
               && t'.invalid == DecayedTimes(t.invalid, q.invalidDecay, z, 1)
               && (t.mesh == None ==> t'.mesh == None && t'.active == t.active)
               && (t.mesh != None ==>
                     var since := t.mesh.value.graftTime;
                     t'.mesh == Some(MeshActive(since, now - since)) && (t'.active <==> t.active || now - since > q.meshActivation))
               && s'.book[p].behaviour == DecayedTimes(s.book[p].behaviour, ps.behaviourDecay, z, 1)
               && s'.book[p].slow == DecayedTimes(s.book[p].slow, ps.slowDecay, z, 1)
               && s'.book[p].app == s.book[p].app && s'.book[p].expiresAt == None
  {
    hide Decayed;
    assert forall x, d, z :: DecayedTimes(x, d, z, 1) == Decayed(DecayedTimes(x, d, z, 0), d, z);
  }

  /** A peer that leaves in good standing is forgotten; of another the failures are kept, for a time. */
  lemma LeavingLaw(ps: Params, s: Table, p: PeerId, now: int)
    requires p in s.book
    ensures var s' := Apply(ps, s, Disconnect(p), now);
            && s'.deliveries == s.deliveries && (forall q :: q != p ==> (q in s'.book <==> q in s.book))
            && (forall q :: q in s.book && q != p ==> s'.book[q] == s.book[q])
            && (p in s'.book <==> PeerScore(ps, s.book[p]) <= 0.0)
            && (p in s'.book ==>
                  && s'.book[p].expiresAt == Some(now + ps.retainScore) && s'.book[p].topics.Keys == s.book[p].topics.Keys
                  && s'.book[p].behaviour == s.book[p].behaviour && s'.book[p].app == s.book[p].app && s'.book[p].slow == s.book[p].slow
                  && forall h :: h in s.book[p].topics ==> LeftTopic(ps, h, s.book[p].topics[h], s'.book[p].topics[h]))
  {
    hide PeerScore;
  }

  ghost predicate LeftTopic(ps: Params, h: TopicHash, t: TopicStats, t': TopicStats) {
    var missing := if h in ps.topics && t.mesh != None && t.active && t.delivered < ps.topics[h].meshThreshold
                   then ps.topics[h].meshThreshold - t.delivered else 0.0;
    && t'.mesh == None && !t'.active && t'.first == 0.0
    && t'.failure == t.failure + missing * missing && t'.delivered == t.delivered && t'.invalid == t.invalid
  }

  /** A peer that connects has its retained record, or a blank one. */
  lemma ConnectLaw(ps: Params, s: Table, p: PeerId, now: int)
    ensures var s' := Apply(ps, s, Connect(p), now);
            && s'.deliveries == s.deliveries && s'.book.Keys == s.book.Keys + {p}
            && (forall q :: q in s.book && q != p ==> s'.book[q] == s.book[q])
            && s'.book[p] == if p in s.book then s.book[p].(expiresAt := None) else PeerStats(None, map[], 0.0, 0.0, 0.0)
  {
  }
}
