/** Parameters and per-peer statistics of the peer score (score.hpp, config.hpp). Times are milliseconds. */
module ScoreState {
  import opened Common

  type PeerId = nat
  type TopicHash = nat
  type MessageId = nat

  datatype TopicParams = TopicParams(
    topicWeight: real,
    timeInMeshWeight: real, timeInMeshQuantum: nat, timeInMeshCap: real,
    firstWeight: real, firstDecay: real, firstCap: real,
    meshWeight: real, meshDecay: real, meshCap: real, meshThreshold: real, meshWindow: nat, meshActivation: nat,
    failureWeight: real, failureDecay: real,
    invalidWeight: real, invalidDecay: real)
  {
    ghost predicate Sane() {
      && timeInMeshQuantum >= 1000 && timeInMeshCap >= 0.0 && firstCap >= 0.0 && meshCap >= 0.0
      && 0.0 <= firstDecay <= 1.0 && 0.0 <= meshDecay <= 1.0
      && failureDecay >= 0.0 && invalidDecay >= 0.0
    }

    /** Rewards reward, and a recorded failure costs at least what it cost while it lasted. */
    ghost predicate Deterrent() {
      topicWeight >= 0.0 && timeInMeshWeight >= 0.0 && firstWeight >= 0.0 && failureWeight <= meshWeight <= 0.0
    }
  }

  datatype Params = Params(
    topics: map<TopicHash, TopicParams>,
    topicScoreCap: real,
    appWeight: real,
    behaviourWeight: real, behaviourThreshold: real, behaviourDecay: real,
    decayToZero: real,
    retainScore: nat,
    slowWeight: real, slowThreshold: real, slowDecay: real)
  {
    ghost predicate Sane() {
      && behaviourDecay >= 0.0 && slowDecay >= 0.0
      && forall h :: h in topics ==> topics[h].Sane()
    }

    /** And a new peer, which exceeds only a negative threshold, gains nothing by that. */
    ghost predicate Deterrent() {
      && (behaviourThreshold >= 0.0 || behaviourWeight <= 0.0)
      && (slowThreshold >= 0.0 || slowWeight <= 0.0)
      && forall h :: h in topics ==> topics[h].Deterrent()
    }
  }

  datatype MeshActive = MeshActive(graftTime: int, meshTime: int)

  datatype TopicStats = TopicStats(
    mesh: Option<MeshActive>,
    first: real,
    active: bool,
    delivered: real,
    failure: real,
    invalid: real)

  datatype PeerStats = PeerStats(
    expiresAt: Option<int>,
    topics: map<TopicHash, TopicStats>,
    behaviour: real,
    app: real,
    slow: real)

  const NoTopicStats := TopicStats(None, 0.0, false, 0.0, 0.0, 0.0)
  const NoStats := PeerStats(None, map[], 0.0, 0.0, 0.0)

  function MinReal(a: real, b: real): real { if a <= b then a else b }

  /** A product, named so that proofs can treat it as a whole. */
  function Times(x: real, y: real): real { x * y }

  // ---- Score ---------------------------------------------------------------

  /** P1: whole seconds in the mesh over the quantum in whole seconds. */
  function TimeInMesh(p: TopicParams, t: TopicStats): real {
    if t.mesh == None || p.timeInMeshQuantum < 1000 then 0.0
    else MinReal((t.mesh.value.meshTime / 1000) as real / (p.timeInMeshQuantum / 1000) as real, p.timeInMeshCap)
  }

  /** Squared shortfall of mesh deliveries, once the grace period is over. */
  function Deficit(p: TopicParams, t: TopicStats): real {
    if t.active && t.delivered < p.meshThreshold
    then Times(p.meshThreshold - t.delivered, p.meshThreshold - t.delivered)
    else 0.0
  }

  function TopicScore(p: TopicParams, t: TopicStats): real {
    Times(TimeInMesh(p, t), p.timeInMeshWeight)
    + Times(MinReal(t.first, p.firstCap), p.firstWeight)
    + Times(Deficit(p, t), p.meshWeight)
    + Times(t.failure, p.failureWeight)
    + Times(Times(t.invalid, t.invalid), p.invalidWeight)
  }

  /** What one topic adds; topics without parameters add nothing. */
  function Contribution(ps: Params, h: TopicHash, t: TopicStats): real {
    if h in ps.topics then Times(TopicScore(ps.topics[h], t), ps.topics[h].topicWeight) else 0.0
  }

  ghost function TopicSum(ps: Params, ts: map<TopicHash, TopicStats>, hs: set<TopicHash>): real
    requires hs <= ts.Keys
  {
    if hs == {} then 0.0
    else
      var h :| h in hs;
      Contribution(ps, h, ts[h]) + TopicSum(ps, ts, hs - {h})
  }

  function Capped(ps: Params, x: real): real {
    if ps.topicScoreCap > 0.0 && x > ps.topicScoreCap then ps.topicScoreCap else x
  }

  /** The terms that do not belong to a topic. */
  function Globals(ps: Params, s: PeerStats): real {
    var excess, slow := s.behaviour - ps.behaviourThreshold, s.slow - ps.slowThreshold;
    Times(s.app, ps.appWeight)
    + (if excess > 0.0 then Times(Times(excess, excess), ps.behaviourWeight) else 0.0)
    + (if slow > 0.0 then Times(slow, ps.slowWeight) else 0.0)
  }

  ghost function PeerScore(ps: Params, s: PeerStats): real {
    Capped(ps, TopicSum(ps, s.topics, s.topics.Keys)) + Globals(ps, s)
  }

  // ---- Transitions of one topic's statistics -------------------------------

  function GraftStats(t: TopicStats, now: int): TopicStats {
    t.(mesh := Some(MeshActive(now, 0)), active := false)
  }

  function PruneStats(p: TopicParams, t: TopicStats): TopicStats {
    t.(failure := t.failure + Deficit(p, t), active := false, mesh := None)
  }

  function FirstDelivery(p: TopicParams, t: TopicStats): TopicStats {
    t.(first := MinReal(t.first + 1.0, p.firstCap),
       delivered := if t.mesh != None then MinReal(t.delivered + 1.0, p.meshCap) else t.delivered)
  }

  /** A duplicate counts only for a mesh member, after validation, and inside the window. */
  function DuplicateDelivery(p: TopicParams, t: TopicStats, validated: Option<int>, now: int): TopicStats {
    if t.mesh != None && validated != None && now <= validated.value + p.meshWindow
    then t.(delivered := MinReal(t.delivered + 1.0, p.meshCap))
    else t
  }

  function DisconnectStats(ps: Params, h: TopicHash, t: TopicStats): TopicStats {
    var owed := if h in ps.topics && t.mesh != None then Deficit(ps.topics[h], t) else 0.0;
    t.(first := 0.0, failure := t.failure + owed, mesh := None, active := false)
  }

  function Decayed(x: real, decay: real, floor: real): real {
    if Times(x, decay) < floor then 0.0 else Times(x, decay)
  }

  function DecayStats(ps: Params, h: TopicHash, t: TopicStats, now: int): TopicStats {
    if h !in ps.topics then t
    else
      var p := ps.topics[h];
      var mesh := if t.mesh == None then None else Some(MeshActive(t.mesh.value.graftTime, now - t.mesh.value.graftTime));
      TopicStats(
        mesh,
        Decayed(t.first, p.firstDecay, ps.decayToZero),
        t.active || (mesh != None && mesh.value.meshTime > p.meshActivation),
        Decayed(t.delivered, p.meshDecay, ps.decayToZero),
        Decayed(t.failure, p.failureDecay, ps.decayToZero),
        Decayed(t.invalid, p.invalidDecay, ps.decayToZero))
  }

  // ---- Transitions of one peer's statistics --------------------------------

  function DisconnectPeer(ps: Params, s: PeerStats, now: int): PeerStats {
    s.(topics := map h | h in s.topics :: DisconnectStats(ps, h, s.topics[h]),
       expiresAt := Some(now + ps.retainScore))
  }

  function DecayPeer(ps: Params, s: PeerStats, now: int): PeerStats {
    PeerStats(
      None,
      map h | h in s.topics :: DecayStats(ps, h, s.topics[h], now),
      Decayed(s.behaviour, ps.behaviourDecay, ps.decayToZero),
      s.app,
      Decayed(s.slow, ps.slowDecay, ps.decayToZero))
  }

  // ---- The whole table -----------------------------------------------------

  type Book = map<PeerId, PeerStats>

  ghost function ScoreOf(ps: Params, b: Book, p: PeerId): real {
    if p in b then PeerScore(ps, b[p]) else 0.0
  }

  ghost function Disconnected(ps: Params, b: Book, p: PeerId, now: int): Book {
    if p !in b then b
    else if PeerScore(ps, b[p]) > 0.0 then b - {p}
    else b[p := DisconnectPeer(ps, b[p], now)]
  }

  /** Retained statistics are kept as they are until they expire; the others decay. */
  function DecayedBook(ps: Params, b: Book, now: int): Book {
    map p | p in b && !(b[p].expiresAt != None && b[p].expiresAt.value < now) ::
      if b[p].expiresAt != None then b[p] else DecayPeer(ps, b[p], now)
  }

  function Connected(b: Book, p: PeerId): Book {
    if p in b then b[p := b[p].(expiresAt := None)] else b[p := NoStats]
  }

  function StatsOf(b: Book, p: PeerId, h: TopicHash): TopicStats
    requires p in b
  {
    if h in b[p].topics then b[p].topics[h] else NoTopicStats
  }

  function WithStats(b: Book, p: PeerId, h: TopicHash, t: TopicStats): Book
    requires p in b
  {
    b[p := b[p].(topics := b[p].topics[h := t])]
  }
}
