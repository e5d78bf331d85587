/** The `Score` object of score.hpp, with its loops, proved to perform the steps of `ScoreRuns`. */
module ScoreKeeper {
  import opened Common
  import opened ScoreState
  import opened ScoreProofs
  import opened ScoreRuns

  class Score {
    const ps: Params
    var book: Book
    var deliveries: Deliveries

    ghost predicate Valid(now: int)
      reads this
    {
      ps.Sane() && Sound(ps, book, now)
    }

    ghost function State(now: int): Table
      reads this
    {
      Table(book, deliveries, now)
    }

    constructor (params: Params)
      requires params.Sane()
      ensures ps == params && book == map[] && deliveries == map[]
      ensures forall now :: Valid(now)
    {
      ps, book, deliveries := params, map[], map[];
    }

    /** The topic sum in whatever order the map is walked, then the cap and the global terms. */
    method ScoreOfPeer(p: PeerId) returns (x: real)
      ensures x == ScoreOf(ps, book, p)
    {
      if p !in book { return 0.0; }
      var s := book[p];
      hide Contribution;
      x := 0.0;
      var todo := s.topics.Keys;
      while todo != {}
        invariant todo <= s.topics.Keys
        invariant x + TopicSum(ps, s.topics, todo) == TopicSum(ps, s.topics, s.topics.Keys)
        decreases |todo|
      {
        var h :| h in todo;
        TopicSumPick(ps, s.topics, todo, h);
        x := x + Contribution(ps, h, s.topics[h]);
        todo := todo - {h};
      }
      x := Capped(ps, x) + Globals(ps, s);
    }

    method Below(p: PeerId, threshold: real) returns (r: bool)
      ensures r == (ScoreOf(ps, book, p) < threshold)
    {
      var x := ScoreOfPeer(p);
      r := x < threshold;
    }

    method AddPenalty(p: PeerId, count: nat, ghost now: int)
      requires Valid(now)
      modifies this`book
      ensures Valid(now) && State(now) == Apply(ps, old(State(now)), Penalty(p, count), now)
    {
      StepKeepsSound(ps, State(now), Penalty(p, count), now);
      if p in book {
        book := book[p := book[p].(behaviour := book[p].behaviour + count as real)];
      }
    }

    /** `statsOrDefault`: the entry of a scored topic, created on demand, or nothing. */
    method StatsOrDefault(p: PeerId, h: TopicHash, ghost now: int) returns (t: Option<TopicStats>)
      requires Valid(now) && p in book
      ensures t == if h in ps.topics then Some(StatsOf(book, p, h)) else None
    {
      assert SoundPeer(ps, book[p], now);
      if h in book[p].topics {
        t := Some(book[p].topics[h]);
      } else if h in ps.topics {
        t := Some(NoTopicStats);
      } else {
        t := None;
      }
    }

    method Graft(p: PeerId, h: TopicHash, now: int)
      requires Valid(now)
      modifies this`book
      ensures Valid(now) && State(now) == Apply(ps, old(State(now)), Grafted(p, h), now)
    {
      StepKeepsSound(ps, State(now), Grafted(p, h), now);
      if p in book {
        var t := StatsOrDefault(p, h, now);
        if t != None {
          book := WithStats(book, p, h, t.value.(mesh := Some(MeshActive(now, 0)), active := false));
        }
      }
    }

    /** The parameters are looked up without a check; the entry's existence guarantees they are there. */
    method Prune(p: PeerId, h: TopicHash, ghost now: int)
      requires Valid(now)
      modifies this`book
      ensures Valid(now) && State(now) == Apply(ps, old(State(now)), Pruned(p, h), now)
    {
      StepKeepsSound(ps, State(now), Pruned(p, h), now);
      if p in book {
        var found := StatsOrDefault(p, h, now);
        if found != None {
          var t, threshold := found.value, ps.topics[h].meshThreshold;
          if t.active && t.delivered < threshold {
            var deficit := threshold - t.delivered;
            t := t.(failure := t.failure + deficit * deficit);
          }
          t := t.(active := false, mesh := None);
          assert t == PruneStats(ps.topics[h], StatsOf(book, p, h));
          book := WithStats(book, p, h, t);
        }
      }
    }

    method DuplicateMessage(p: PeerId, m: MessageId, h: TopicHash, now: int)
      requires Valid(now)
      modifies this
      ensures Valid(now) && State(now) == Apply(ps, old(State(now)), Duplicate(p, m, h), now)
    {
      StepKeepsSound(ps, State(now), Duplicate(p, m, h), now);
      deliveries := Looked(deliveries, m, now);
      var record := deliveries[m];
      if p in record.peers { return; }
      match record.status
      case Unknown =>
        deliveries := deliveries[m := record.(peers := record.peers + {p})];
      case Valid(time) =>
        deliveries := deliveries[m := record.(peers := record.peers + {p})];
        if p in book {
          var t := StatsOrDefault(p, h, now);
          if t != None {
            book := WithStats(book, p, h, DuplicateDelivery(ps.topics[h], t.value, Some(time), now));
          }
        }
      case Invalid =>
        if p in book {
          var t := StatsOrDefault(p, h, now);
          if t != None {
            book := WithStats(book, p, h, t.value.(invalid := t.value.invalid + 1.0));
          }
        }
      case Ignored =>
    }

    method DeliverMessage(p: PeerId, m: MessageId, h: TopicHash, now: int)
      requires Valid(now)
      modifies this
      ensures Valid(now) && State(now) == Apply(ps, old(State(now)), Deliver(p, m, h), now)
    {
      StepKeepsSound(ps, State(now), Deliver(p, m, h), now);
      if p in book {
        var t := StatsOrDefault(p, h, now);
        if t != None {
          book := WithStats(book, p, h, FirstDelivery(ps.topics[h], t.value));
        }
      }
      deliveries := Looked(deliveries, m, now);
      var record := deliveries[m];
      if record.status != Unknown { return; }
      deliveries := deliveries[m := record.(status := Status.Valid(now))];
      book := TouchAll(ps, book, record.peers - {p}, h);
    }

    /** Retained peers keep their record until it expires, everybody else decays. */
    method OnDecay(now: int, ghost was: int)
      requires Valid(was) && was <= now
      modifies this`book
      ensures Valid(now) && State(now) == Apply(ps, old(State(was)), Decay, now)
    {
      StepKeepsSound(ps, State(was), Decay, now);
      book := DecayAll(ps, book, now);
    }

    method Connect(p: PeerId, ghost now: int)
      requires Valid(now)
      modifies this`book
      ensures Valid(now) && State(now) == Apply(ps, old(State(now)), Event.Connect(p), now)
    {
      StepKeepsSound(ps, State(now), Event.Connect(p), now);
      if p in book {
        book := book[p := book[p].(expiresAt := None)];
      } else {
        book := book[p := NoStats];
      }
    }

    method Disconnect(p: PeerId, now: int)
      requires Valid(now)
      modifies this`book
      ensures Valid(now) && State(now) == Apply(ps, old(State(now)), Event.Disconnect(p), now)
    {
      StepKeepsSound(ps, State(now), Event.Disconnect(p), now);
      if p !in book { return; }
      hide PeerScore, Sound;
      var x := ScoreOfPeer(p);
      if x > 0.0 {
        book := book - {p};
        return;
      }
      var ts := LeaveAll(ps, book[p].topics);
      book := book[p := book[p].(topics := ts, expiresAt := Some(now + ps.retainScore))];
    }
  }

  method TouchAll(ps: Params, b: Book, peers: set<PeerId>, h: TopicHash) returns (b': Book)
    ensures b' == Ensured(ps, b, peers, h)
  {
    b' := b;
    var todo := peers;
    while todo != {}
      invariant todo <= peers && b'.Keys == b.Keys
      invariant forall p :: p in b ==> b'[p] == if p in todo then b[p] else Ensured(ps, b, peers, h)[p]
      decreases |todo|
    {
      var p :| p in todo;
      if p in b' && h in ps.topics && h !in b'[p].topics {
        b' := WithStats(b', p, h, NoTopicStats);
      }
      todo := todo - {p};
    }
  }

  method LeaveAll(ps: Params, ts: map<TopicHash, TopicStats>) returns (ts': map<TopicHash, TopicStats>)
    ensures ts' == map h | h in ts :: DisconnectStats(ps, h, ts[h])
  {
    ts' := ts;
    var todo := ts.Keys;
    while todo != {}
      invariant todo <= ts.Keys == ts'.Keys
      invariant forall h :: h in ts ==> ts'[h] == if h in todo then ts[h] else DisconnectStats(ps, h, ts[h])
      decreases |todo|
    {
      var h :| h in todo;
      var t := ts'[h].(first := 0.0);
      if h in ps.topics {
        var threshold := ps.topics[h].meshThreshold;
        if t.mesh != None && t.active && t.delivered < threshold {
          var deficit := threshold - t.delivered;
          t := t.(failure := t.failure + deficit * deficit);
        }
      }
      ts' := ts'[h := t.(mesh := None, active := false)];
      todo := todo - {h};
    }
  }

  method DecayAll(ps: Params, b: Book, now: int) returns (b': Book)
    ensures b' == DecayedBook(ps, b, now)
  {
    hide DecayPeer, DecayedBook, Decaying;
    b' := map[];
    var todo := b.Keys;
    DecayingStart(ps, b, now);
    while todo != {}
      invariant todo <= b.Keys && Decaying(ps, b, now, todo, b')
      decreases |todo|
    {
      var p :| p in todo;
      DecayingStep(ps, b, now, todo, b', p);
      var s := b[p];
      if s.expiresAt != None {
        if s.expiresAt.value >= now { b' := b'[p := s]; }
      } else {
        s := DecayOne(ps, s, now);
        b' := b'[p := s];
      }
      todo := todo - {p};
    }
    DecayingEnd(ps, b, now, b');
  }

  /** All records but those still to do have been decayed or dropped. */
  ghost predicate Decaying(ps: Params, b: Book, now: int, todo: set<PeerId>, b': Book) {
    var all := DecayedBook(ps, b, now);
    b'.Keys == all.Keys - todo && forall p :: p in b' ==> b'[p] == all[p]
  }

  lemma DecayingStart(ps: Params, b: Book, now: int)
    ensures Decaying(ps, b, now, b.Keys, map[])
  {
    hide DecayPeer;
  }

  lemma DecayingStep(ps: Params, b: Book, now: int, todo: set<PeerId>, b': Book, p: PeerId)
    requires Decaying(ps, b, now, todo, b') && p in todo && p in b
    ensures var s, rest := b[p], todo - {p};
            if s.expiresAt == None then Decaying(ps, b, now, rest, b'[p := DecayPeer(ps, s, now)])
            else Decaying(ps, b, now, rest, if s.expiresAt.value >= now then b'[p := s] else b')
  {
    hide DecayPeer;
  }

  lemma DecayingEnd(ps: Params, b: Book, now: int, b': Book)
    requires Decaying(ps, b, now, {}, b')
    ensures b' == DecayedBook(ps, b, now)
  {
    hide DecayedBook;
  }

  method DecayOne(ps: Params, s: PeerStats, now: int) returns (s': PeerStats)
    requires s.expiresAt == None
    ensures s' == DecayPeer(ps, s, now)
  {
    hide Decayed;
    var ts, todo := s.topics, s.topics.Keys;
    while todo != {}
      invariant todo <= s.topics.Keys == ts.Keys
      invariant forall h :: h in ts ==> ts[h] == if h in todo then s.topics[h] else DecayStats(ps, h, s.topics[h], now)
      decreases |todo|
    {
      var h :| h in todo;
      if h in ps.topics {
        var t, p := ts[h], ps.topics[h];
        t := t.(first := Decayed(t.first, p.firstDecay, ps.decayToZero));
        t := t.(delivered := Decayed(t.delivered, p.meshDecay, ps.decayToZero));
        t := t.(failure := Decayed(t.failure, p.failureDecay, ps.decayToZero));
        t := t.(invalid := Decayed(t.invalid, p.invalidDecay, ps.decayToZero));
        if t.mesh != None {
          t := t.(mesh := Some(t.mesh.value.(meshTime := now - t.mesh.value.graftTime)));
          if t.mesh.value.meshTime > p.meshActivation {
            t := t.(active := true);
          }
        }
        ts := ts[h := t];
      }
      todo := todo - {h};
    }
    s' := s.(topics := ts,
             behaviour := Decayed(s.behaviour, ps.behaviourDecay, ps.decayToZero),
             slow := Decayed(s.slow, ps.slowDecay, ps.decayToZero));
  }
}
