/** Runs of score updates. */
module ScoreRuns {
  import opened Common
  import opened ScoreState
  import opened ScoreProofs

  datatype Status = Unknown | Valid(time: int) | Invalid | Ignored

  datatype Record = Record(status: Status, peers: set<PeerId>, expires: int)

  type Deliveries = map<MessageId, Record>

  const RECORD_TTL := 120000

  datatype Table = Table(book: Book, deliveries: Deliveries, now: int)

  datatype Event =
    | Penalty(p: PeerId, count: nat)
    | Grafted(p: PeerId, h: TopicHash)
    | Pruned(p: PeerId, h: TopicHash)
    | Duplicate(p: PeerId, m: MessageId, h: TopicHash)
    | Validate(m: MessageId)
    | Deliver(p: PeerId, m: MessageId, h: TopicHash)
    | Connect(p: PeerId)
    | Disconnect(p: PeerId)
    | Decay

  /** `deliveries_.getOrDefault`: expired records go, and the one asked for is there. */
  function Looked(ds: Deliveries, m: MessageId, now: int): (ds': Deliveries)
    ensures m in ds'
  {
    var live := map k | k in ds && ds[k].expires > now :: ds[k];
    if m in live then live else live[m := Record(Unknown, {}, now + RECORD_TTL)]
  }

  /** `statsOrDefault` for every listed peer: a scored topic gets an entry. */
  function Ensured(ps: Params, b: Book, peers: set<PeerId>, h: TopicHash): Book {
    map p | p in b ::
      if p in peers && h in ps.topics && h !in b[p].topics
      then b[p].(topics := b[p].topics[h := NoTopicStats]) else b[p]
  }

  function Marked(ps: Params, b: Book, p: PeerId, h: TopicHash, t: TopicStats): Book {
    if p in b && h in ps.topics then WithStats(b, p, h, t) else b
  }

  ghost function Apply(ps: Params, s: Table, e: Event, now: int): Table {
    match e
    case Penalty(p, count) =>
      s.(now := now, book := if p in s.book then s.book[p := s.book[p].(behaviour := s.book[p].behaviour + count as real)] else s.book)
    case Grafted(p, h) =>
      s.(now := now, book := if p in s.book then Marked(ps, s.book, p, h, GraftStats(StatsOf(s.book, p, h), now)) else s.book)
    case Pruned(p, h) =>
      s.(now := now, book := if p in s.book && h in ps.topics then Marked(ps, s.book, p, h, PruneStats(ps.topics[h], StatsOf(s.book, p, h))) else s.book)
    case Duplicate(p, m, h) =>
      var ds := Looked(s.deliveries, m, now);
      if p in ds[m].peers then s.(now := now, deliveries := ds)
      else
        var noted := ds[m := ds[m].(peers := ds[m].peers + {p})];
        (match ds[m].status
         case Unknown => s.(now := now, deliveries := noted)
         case Valid(time) =>
           s.(now := now, deliveries := noted,
              book := if p in s.book && h in ps.topics
                      then Marked(ps, s.book, p, h, DuplicateDelivery(ps.topics[h], StatsOf(s.book, p, h), Some(time), now))
                      else s.book)
         case Invalid =>
           s.(now := now, deliveries := ds,
              book := if p in s.book
                      then Marked(ps, s.book, p, h, StatsOf(s.book, p, h).(invalid := StatsOf(s.book, p, h).invalid + 1.0))
                      else s.book)
         case Ignored => s.(now := now, deliveries := ds))
    case Validate(m) => s.(now := now, deliveries := Looked(s.deliveries, m, now))
    case Deliver(p, m, h) =>
      var b := if p in s.book && h in ps.topics
               then Marked(ps, s.book, p, h, FirstDelivery(ps.topics[h], StatsOf(s.book, p, h))) else s.book;
      var ds := Looked(s.deliveries, m, now);
      if ds[m].status != Unknown then s.(now := now, book := b, deliveries := ds)
      else s.(now := now, book := Ensured(ps, b, ds[m].peers - {p}, h), deliveries := ds[m := ds[m].(status := Valid(now))])
    case Connect(p) => s.(now := now, book := Connected(s.book, p))
    case Disconnect(p) => s.(now := now, book := Disconnected(ps, s.book, p, now))
    case Decay => s.(now := now, book := DecayedBook(ps, s.book, now))
  }

  lemma DecayedInRange(x: real, decay: real, floor: real)
    requires 0.0 <= x && decay >= 0.0
    ensures 0.0 <= Decayed(x, decay, floor)
    ensures decay <= 1.0 ==> Decayed(x, decay, floor) <= x
  {
    TimesUp(0.0, decay, x);
    TimesNothing(x);
    assert Times(x, 1.0) == x;
    if decay <= 1.0 { TimesUp(decay, 1.0, x); }
    hide Times;
  }

  lemma DecayKeeps(ps: Params, h: TopicHash, t: TopicStats, was: int, now: int)
    requires h in ps.topics && ps.topics[h].Sane() && SoundTopic(ps.topics[h], t, was) && was <= now
    ensures SoundTopic(ps.topics[h], DecayStats(ps, h, t, now), now)
  {
    var p := ps.topics[h];
    DecayedInRange(t.first, p.firstDecay, ps.decayToZero);
    DecayedInRange(t.delivered, p.meshDecay, ps.decayToZero);
    DecayedInRange(t.failure, p.failureDecay, ps.decayToZero);
    DecayedInRange(t.invalid, p.invalidDecay, ps.decayToZero);
  }

  lemma DecayPeerKeeps(ps: Params, s: PeerStats, was: int, now: int)
    requires ps.Sane() && SoundPeer(ps, s, was) && was <= now
    ensures SoundPeer(ps, DecayPeer(ps, s, now), now)
  {
    forall h | h in s.topics ensures SoundTopic(ps.topics[h], DecayStats(ps, h, s.topics[h], now), now) {
      DecayKeeps(ps, h, s.topics[h], was, now);
    }
    hide DecayStats, SoundTopic;
    DecayedInRange(s.behaviour, ps.behaviourDecay, ps.decayToZero);
    DecayedInRange(s.slow, ps.slowDecay, ps.decayToZero);
  }

  lemma LaterSound(ps: Params, b: Book, was: int, now: int)
    requires Sound(ps, b, was) && was <= now
    ensures Sound(ps, b, now)
  {
    forall p | p in b ensures SoundPeer(ps, b[p], now) {
      forall h | h in b[p].topics ensures SoundTopic(ps.topics[h], b[p].topics[h], now) {}
    }
  }

  /** Replacing one topic's statistics by sound ones keeps the table sound. */
  lemma MarkedSound(ps: Params, b: Book, p: PeerId, h: TopicHash, t: TopicStats, now: int)
    requires Sound(ps, b, now) && p in b
    requires h in ps.topics ==> SoundTopic(ps.topics[h], t, now)
    ensures Sound(ps, Marked(ps, b, p, h, t), now)
  {
    var b' := Marked(ps, b, p, h, t);
    forall q | q in b' ensures SoundPeer(ps, b'[q], now) { assert SoundPeer(ps, b[q], now); }
  }

  lemma StatsSound(ps: Params, b: Book, p: PeerId, h: TopicHash, now: int)
    requires ps.Sane() && Sound(ps, b, now) && p in b && h in ps.topics
    ensures SoundTopic(ps.topics[h], StatsOf(b, p, h), now)
  {
    assert SoundPeer(ps, b[p], now);
  }

  lemma DecayedSound(ps: Params, b: Book, was: int, now: int)
    requires ps.Sane() && Sound(ps, b, was) && was <= now
    ensures Sound(ps, DecayedBook(ps, b, now), now)
  {
    LaterSound(ps, b, was, now);
    forall p | p in b ensures SoundPeer(ps, DecayPeer(ps, b[p], now), now) { DecayPeerKeeps(ps, b[p], was, now); }
    hide DecayPeer, SoundPeer;
  }

  lemma DisconnectedSound(ps: Params, b: Book, p: PeerId, now: int)
    requires ps.Sane() && Sound(ps, b, now)
    ensures Sound(ps, Disconnected(ps, b, p, now), now)
  {
    hide PeerScore;
    var b' := Disconnected(ps, b, p, now);
    if p in b && p in b' {
      assert SoundPeer(ps, b[p], now);
      forall h | h in b[p].topics ensures SoundTopic(ps.topics[h], DisconnectStats(ps, h, b[p].topics[h]), now) {
        var t, q := b[p].topics[h], ps.topics[h];
        SquareNonNegative(q.meshThreshold - t.delivered);
      }
      hide DisconnectStats, SoundTopic;
      assert SoundPeer(ps, DisconnectPeer(ps, b[p], now), now);
    }
  }

  lemma EnsuredSound(ps: Params, b: Book, peers: set<PeerId>, h: TopicHash, now: int)
    requires ps.Sane() && Sound(ps, b, now)
    ensures Sound(ps, Ensured(ps, b, peers, h), now)
  {
    var b' := Ensured(ps, b, peers, h);
    forall q | q in b' ensures SoundPeer(ps, b'[q], now) { assert SoundPeer(ps, b[q], now); }
  }

  lemma MarkStepSound(ps: Params, s: Table, e: Event, now: int)
    requires ps.Sane() && Sound(ps, s.book, now)
    requires e.Grafted? || e.Pruned? || e.Duplicate? || e.Deliver?
    ensures Sound(ps, Apply(ps, s, e, now).book, now)
  {
    if e.p in s.book && e.h in ps.topics {
      var t, q := StatsOf(s.book, e.p, e.h), ps.topics[e.h];
      StatsSound(ps, s.book, e.p, e.h, now);
      SquareNonNegative(q.meshThreshold - t.delivered);
      hide Sound;
      match e
      case Grafted(p, h) => MarkedSound(ps, s.book, p, h, GraftStats(t, now), now);
      case Pruned(p, h) => MarkedSound(ps, s.book, p, h, PruneStats(q, t), now);
      case Duplicate(p, m, h) =>
        var st := Looked(s.deliveries, m, now)[m].status;
        if st.Valid? { MarkedSound(ps, s.book, p, h, DuplicateDelivery(q, t, Some(st.time), now), now); }
        else { MarkedSound(ps, s.book, p, h, t.(invalid := t.invalid + 1.0), now); }
      case Deliver(p, m, h) =>
        var b := Marked(ps, s.book, p, h, FirstDelivery(q, t));
        MarkedSound(ps, s.book, p, h, FirstDelivery(q, t), now);
        EnsuredSound(ps, b, Looked(s.deliveries, m, now)[m].peers - {p}, h, now);
    } else if e.Deliver? {
      EnsuredSound(ps, s.book, Looked(s.deliveries, e.m, now)[e.m].peers - {e.p}, e.h, now);
    }
  }

  lemma StepKeepsSound(ps: Params, s: Table, e: Event, now: int)
    requires ps.Sane() && Sound(ps, s.book, s.now) && s.now <= now
    ensures Sound(ps, Apply(ps, s, e, now).book, now)
  {
    LaterSound(ps, s.book, s.now, now);
    match e
    case Disconnect(p) => DisconnectedSound(ps, s.book, p, now);
    case Decay => DecayedSound(ps, s.book, s.now, now);
    case Grafted(_, _) => MarkStepSound(ps, s, e, now);
    case Pruned(_, _) => MarkStepSound(ps, s, e, now);
    case Duplicate(_, _, _) => MarkStepSound(ps, s, e, now);
    case Deliver(_, _, _) => MarkStepSound(ps, s, e, now);
    case _ =>
      forall p | p in Apply(ps, s, e, now).book ensures SoundPeer(ps, Apply(ps, s, e, now).book[p], now) {
        if p in s.book { assert SoundPeer(ps, s.book[p], now); }
      }
  }

  ghost predicate IsRun(ps: Params, states: seq<Table>, events: seq<Event>) {
    && |states| == |events| + 1
    && states[0].book == map[]
    && forall i :: 0 <= i < |events| ==>
         states[i].now <= states[i + 1].now && states[i + 1] == Apply(ps, states[i], events[i], states[i + 1].now)
  }

  /** Main result: counters stay in range and lookups never miss, in every state of every run. */
  lemma {:induction false} EveryRunSound(ps: Params, states: seq<Table>, events: seq<Event>, i: nat)
    requires ps.Sane() && IsRun(ps, states, events) && i < |states|
    ensures Sound(ps, states[i].book, states[i].now)
  {
    if i > 0 {
      EveryRunSound(ps, states, events, i - 1);
      var j := i - 1;
      assert states[j].now <= states[j + 1].now && states[j + 1] == Apply(ps, states[j], events[j], states[j + 1].now);
      StepKeepsSound(ps, states[j], events[j], states[i].now);
    }
  }
}
