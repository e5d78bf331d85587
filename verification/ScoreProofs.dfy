/** Why leaving and coming back never helps, and what every run of score updates keeps. */
module ScoreProofs {
  import opened Common
  import opened ScoreState

  // ---- Sums over an unordered map ------------------------------------------

  /** The sum may be taken in any order. */
  lemma {:induction false} TopicSumPick(ps: Params, ts: map<TopicHash, TopicStats>, hs: set<TopicHash>, h: TopicHash)
    requires hs <= ts.Keys && h in hs
    ensures TopicSum(ps, ts, hs) == Contribution(ps, h, ts[h]) + TopicSum(ps, ts, hs - {h})
    decreases |hs|
  {
    var k :| k in hs && TopicSum(ps, ts, hs) == Contribution(ps, k, ts[k]) + TopicSum(ps, ts, hs - {k});
    if k != h {
      TopicSumPick(ps, ts, hs - {k}, h);
      TopicSumPick(ps, ts, hs - {h}, k);
      assert hs - {k} - {h} == hs - {h} - {k};
    }
  }

  lemma {:induction false} TopicSumBelow(
    ps: Params, ts: map<TopicHash, TopicStats>, ts': map<TopicHash, TopicStats>, hs: set<TopicHash>)
    requires hs <= ts.Keys && hs <= ts'.Keys
    requires forall h :: h in hs ==> Contribution(ps, h, ts'[h]) <= Contribution(ps, h, ts[h])
    ensures TopicSum(ps, ts', hs) <= TopicSum(ps, ts, hs)
    decreases |hs|
  {
    if hs != {} {
      var h :| h in hs;
      TopicSumPick(ps, ts, hs, h);
      TopicSumPick(ps, ts', hs, h);
      TopicSumBelow(ps, ts, ts', hs - {h});
    }
  }

  // ---- Invariant -----------------------------------------------------------

  ghost predicate SoundTopic(p: TopicParams, t: TopicStats, now: int) {
    && 0.0 <= t.first <= p.firstCap && 0.0 <= t.delivered <= p.meshCap
    && t.failure >= 0.0 && t.invalid >= 0.0
    && (t.active ==> t.mesh != None)
    && (t.mesh != None ==> t.mesh.value.meshTime >= 0 && t.mesh.value.graftTime <= now)
  }

  /** Statistics exist only for scored topics, so `params_.topics.at` finds every topic it is asked for. */
  ghost predicate SoundPeer(ps: Params, s: PeerStats, now: int) {
    && s.topics.Keys <= ps.topics.Keys
    && s.behaviour >= 0.0 && s.slow >= 0.0
    && forall h :: h in s.topics ==> SoundTopic(ps.topics[h], s.topics[h], now)
  }

  ghost predicate Sound(ps: Params, b: Book, now: int) {
    forall p :: p in b ==> SoundPeer(ps, b[p], now)
  }

  // ---- Leaving -------------------------------------------------------------

  lemma TimesUp(x: real, y: real, k: real)
    requires k >= 0.0 && x <= y
    ensures Times(x, k) <= Times(y, k) && Times(k, x) <= Times(k, y)
  {
  }

  lemma TimesNothing(x: real)
    ensures Times(0.0, x) == 0.0 && Times(x, 0.0) == 0.0
  {
  }

  lemma TimesSum(x: real, y: real, k: real)
    ensures Times(x + y, k) == Times(x, k) + Times(y, k)
  {
  }

  lemma SquareNonNegative(x: real)
    ensures Times(x, x) >= 0.0
  {
  }

  lemma TimeInMeshNonNegative(p: TopicParams, t: TopicStats, now: int)
    requires p.Sane() && SoundTopic(p, t, now)
    ensures TimeInMesh(p, t) >= 0.0
  {
  }

  /** A topic never scores higher for having been left. */
  lemma LeavingTopic(ps: Params, h: TopicHash, t: TopicStats, now: int)
    requires h in ps.topics && ps.topics[h].Sane() && ps.topics[h].Deterrent() && SoundTopic(ps.topics[h], t, now)
    ensures Contribution(ps, h, DisconnectStats(ps, h, t)) <= Contribution(ps, h, t)
  {
    var p, t' := ps.topics[h], DisconnectStats(ps, h, t);
    var d, time, first := Deficit(p, t), TimeInMesh(p, t), MinReal(t.first, p.firstCap);
    hide Times;
    TimeInMeshNonNegative(p, t, now);
    DeficitNonNegative(p, t);
    assert TimeInMesh(p, t') == 0.0 == t'.first && Deficit(p, t') == 0.0;
    assert t'.failure == t.failure + d && t'.invalid == t.invalid && first >= 0.0;
    hide TimeInMesh, Deficit, DisconnectStats;
    LeftScore(p, t');
    TimesSum(t.failure, d, p.failureWeight);
    TimesUp(0.0, time, p.timeInMeshWeight);
    TimesUp(0.0, first, p.firstWeight);
    TimesUp(p.failureWeight, p.meshWeight, d);
    TimesNothing(p.timeInMeshWeight);
    TimesNothing(p.firstWeight);
    assert TopicScore(p, t') <= TopicScore(p, t);
    hide TopicScore;
    TimesUp(TopicScore(p, t'), TopicScore(p, t), p.topicWeight);
  }

  lemma DeficitNonNegative(p: TopicParams, t: TopicStats)
    ensures Deficit(p, t) >= 0.0
  {
    SquareNonNegative(p.meshThreshold - t.delivered);
  }

  /** Out of the mesh and without first deliveries only the failures and invalid messages count. */
  lemma LeftScore(p: TopicParams, t: TopicStats)
    requires p.firstCap >= 0.0 && TimeInMesh(p, t) == 0.0 == t.first && Deficit(p, t) == 0.0
    ensures TopicScore(p, t) == Times(t.failure, p.failureWeight) + Times(Times(t.invalid, t.invalid), p.invalidWeight)
  {
    hide TimeInMesh, Deficit, Times;
    TimesNothing(p.timeInMeshWeight);
    TimesNothing(p.firstWeight);
    TimesNothing(p.meshWeight);
  }

  lemma LeavingPeer(ps: Params, s: PeerStats, now: int)
    requires ps.Sane() && ps.Deterrent() && SoundPeer(ps, s, now)
    ensures PeerScore(ps, DisconnectPeer(ps, s, now)) <= PeerScore(ps, s)
  {
    hide Contribution, DisconnectStats, SoundTopic;
    var s' := DisconnectPeer(ps, s, now);
    assert s'.topics.Keys == s.topics.Keys;
    assert Globals(ps, s') == Globals(ps, s);
    hide Globals;
    forall h | h in s.topics ensures Contribution(ps, h, s'.topics[h]) <= Contribution(ps, h, s.topics[h]) {
      LeavingTopic(ps, h, s.topics[h], now);
    }
    TopicSumBelow(ps, s.topics, s'.topics, s.topics.Keys);
  }

  lemma FreshScore(ps: Params)
    requires ps.Deterrent()
    ensures PeerScore(ps, NoStats) <= 0.0
    ensures ps.behaviourThreshold >= 0.0 && ps.slowThreshold >= 0.0 ==> PeerScore(ps, NoStats) == 0.0
  {
    var x, y := 0.0 - ps.behaviourThreshold, 0.0 - ps.slowThreshold;
    SquareNonNegative(x);
    hide Times;
    if x > 0.0 { TimesUp(ps.behaviourWeight, 0.0, Times(x, x)); }
    TimesNothing(Times(x, x));
    if y > 0.0 { TimesUp(ps.slowWeight, 0.0, y); }
    TimesNothing(y);
    TimesNothing(ps.appWeight);
    assert NoStats.topics.Keys == {};
  }

  // ---- Coming back ---------------------------------------------------------

  /** The table after a decay at each of the given times. */
  function DecayedAt(ps: Params, b: Book, times: seq<int>): Book {
    if times == [] then b else DecayedAt(ps, DecayedBook(ps, b, times[0]), times[1..])
  }

  lemma {:induction false} RetainedStays(ps: Params, b: Book, p: PeerId, times: seq<int>)
    requires p in b && b[p].expiresAt != None
    requires forall i :: 0 <= i < |times| ==> times[i] <= b[p].expiresAt.value
    ensures p in DecayedAt(ps, b, times) && DecayedAt(ps, b, times)[p] == b[p]
    decreases |times|
  {
    if times != [] {
      assert times[0] <= b[p].expiresAt.value;
      RetainedStays(ps, DecayedBook(ps, b, times[0]), p, times[1..]);
    }
  }

  lemma {:induction false} AbsentStays(ps: Params, b: Book, p: PeerId, times: seq<int>)
    requires p !in b
    ensures p !in DecayedAt(ps, b, times)
    decreases |times|
  {
    if times != [] { AbsentStays(ps, DecayedBook(ps, b, times[0]), p, times[1..]); }
  }

  lemma ExpiryIgnored(ps: Params, s: PeerStats, e: Option<int>)
    ensures PeerScore(ps, s.(expiresAt := e)) == PeerScore(ps, s)
  {
  }

  /**
   Main result. Whatever the topics and counters, a peer that disconnects, sits
   out any number of decays within the retention time and connects again does
   not end up with a higher score.
   */
  lemma ReconnectingNeverPays(ps: Params, b: Book, p: PeerId, left: int, times: seq<int>)
    requires ps.Sane() && ps.Deterrent() && Sound(ps, b, left)
    requires forall i :: 0 <= i < |times| ==> times[i] <= left + ps.retainScore
    ensures var b' := Connected(DecayedAt(ps, Disconnected(ps, b, p, left), times), p);
            ScoreOf(ps, b', p) <= ScoreOf(ps, b, p)
  {
    var gone := Disconnected(ps, b, p, left);
    var back := DecayedAt(ps, gone, times);
    if p in gone {
      LeavingPeer(ps, b[p], left);
      RetainedStays(ps, gone, p, times);
      ExpiryIgnored(ps, back[p], None);
    } else {
      FreshScore(ps);
      AbsentStays(ps, gone, p, times);
    }
    hide PeerScore;
  }

  /** Just grafted, past the grace period, and without a single delivery. */
  function Idler(h: TopicHash, now: int): PeerStats {
    NoStats.(topics := map[h := NoTopicStats.(mesh := Some(MeshActive(now, 0)), active := true)])
  }

  lemma IdlerScore(ps: Params, h: TopicHash, now: int)
    requires ps.Sane() && h in ps.topics && ps.behaviourThreshold >= 0.0 && ps.slowThreshold >= 0.0
    requires ps.topics[h].meshThreshold > 0.0
    ensures var p := ps.topics[h]; var owed := Deficit(p, Idler(h, now).topics[h]);
            && owed > 0.0
            && PeerScore(ps, Idler(h, now)) == Capped(ps, Times(Times(owed, p.meshWeight), p.topicWeight))
            && PeerScore(ps, DisconnectPeer(ps, Idler(h, now), now)) == Capped(ps, Times(Times(owed, p.failureWeight), p.topicWeight))
  {
    var p, t := ps.topics[h], Idler(h, now).topics[h];
    var t', owed := DisconnectStats(ps, h, t), Deficit(p, t);
    TimesPositive(p.meshThreshold - 0.0, p.meshThreshold - 0.0);
    hide Times;
    assert owed > 0.0 && Deficit(p, t') == 0.0 && t'.failure == owed;
    assert TimeInMesh(p, t) == 0.0 == TimeInMesh(p, t') && t.first == 0.0 == t'.first;
    hide DisconnectStats, Deficit, TimeInMesh;
    Terms(p, t, owed, 0.0);
    Terms(p, t', 0.0, owed);
    OneTopic(ps, h, t);
    OneTopic(ps, h, t');
    hide TopicSum, TopicScore;
    var s, s' := Idler(h, now), DisconnectPeer(ps, Idler(h, now), now);
    assert s.topics == map[h := t] && s.topics.Keys == {h};
    assert s'.topics == map[h := t'] && s'.topics.Keys == {h};
    TimesNothing(ps.appWeight);
    assert Globals(ps, s) == 0.0 == Globals(ps, s');
    TimesNothing(p.failureWeight);
    TimesNothing(p.meshWeight);
  }

  lemma Terms(p: TopicParams, t: TopicStats, deficit: real, failure: real)
    requires p.firstCap >= 0.0 && TimeInMesh(p, t) == 0.0 == t.first && t.invalid == 0.0
    requires Deficit(p, t) == deficit && t.failure == failure
    ensures TopicScore(p, t) == Times(deficit, p.meshWeight) + Times(failure, p.failureWeight)
  {
    hide TimeInMesh, Deficit, Times;
    TimesNothing(p.timeInMeshWeight);
    TimesNothing(p.firstWeight);
    TimesNothing(p.invalidWeight);
    TimesNothing(0.0);
  }

  lemma TimesPositive(x: real, y: real)
    requires x > 0.0 && y > 0.0
    ensures Times(x, y) > 0.0
  {
  }

  lemma OneTopic(ps: Params, h: TopicHash, t: TopicStats)
    ensures TopicSum(ps, map[h := t], {h}) == Contribution(ps, h, t)
  {
    var ts := map[h := t];
    TopicSumPick(ps, ts, {h}, h);
    assert {h} - {h} == {};
    assert TopicSum(ps, ts, {}) == 0.0;
    hide Contribution;
  }

  /**
   The order of the two weights is what makes it so: with a lighter failure penalty some
   sound table holds a peer whose score rises when it leaves and returns at once.
   */
  lemma LeavingPaysOtherwise(ps: Params, h: TopicHash, p: PeerId, now: int)
    requires ps.Sane() && h in ps.topics && ps.behaviourThreshold >= 0.0 && ps.slowThreshold >= 0.0
    requires ps.topics[h].meshThreshold > 0.0 && ps.topics[h].topicWeight > 0.0
    requires ps.topics[h].meshWeight <= 0.0 && ps.topics[h].failureWeight > ps.topics[h].meshWeight
    ensures var b := map[p := Idler(h, now)];
            Sound(ps, b, now) && ScoreOf(ps, Connected(Disconnected(ps, b, p, now), p), p) > ScoreOf(ps, b, p)
  {
    var b, q := map[p := Idler(h, now)], ps.topics[h];
    IdlerScore(ps, h, now);
    ExpiryIgnored(ps, DisconnectPeer(ps, Idler(h, now), now), None);
    var owed := Deficit(q, Idler(h, now).topics[h]);
    hide PeerScore, DisconnectPeer, Deficit, Times;
    Rises(owed, q.meshWeight, q.failureWeight);
    Rises(q.topicWeight, Times(owed, q.meshWeight), Times(owed, q.failureWeight));
    CappedRises(ps, Times(Times(owed, q.meshWeight), q.topicWeight), Times(Times(owed, q.failureWeight), q.topicWeight));
    hide Capped;
  }

  lemma CappedRises(ps: Params, x: real, y: real)
    requires x < y && x <= 0.0
    ensures Capped(ps, x) < Capped(ps, y) && Capped(ps, x) <= 0.0
  {
  }

  lemma Rises(k: real, x: real, y: real)
    requires k > 0.0 && x < y && x <= 0.0
    ensures Times(k, x) < Times(k, y) && Times(x, k) < Times(y, k) && Times(k, x) <= 0.0 && Times(x, k) <= 0.0
  {
  }

  /** The retention time is what makes it so: one decay after it and the record, bad or not, is gone. */
  lemma {:induction false} RetentionEnds(ps: Params, b: Book, p: PeerId, left: int, times: seq<int>, late: int)
    requires p in b && PeerScore(ps, b[p]) <= 0.0 && late > left + ps.retainScore
    requires forall i :: 0 <= i < |times| ==> times[i] <= left + ps.retainScore
    ensures var gone := DecayedBook(ps, DecayedAt(ps, Disconnected(ps, b, p, left), times), late);
            ScoreOf(ps, Connected(gone, p), p) == PeerScore(ps, NoStats)
  {
    RetainedStays(ps, Disconnected(ps, b, p, left), p, times);
  }
}
