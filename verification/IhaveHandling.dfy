/** IHAVE handling, arrivals, publications and heartbeats in code, proved to perform the steps of `PromiseRuns`. */
module IhaveHandling {
  import opened Common
  import opened GossipState
  import opened TimeCaches
  import opened Promises
  import opened PromiseRuns

  lemma WantedSnoc(dups: Deadlines<MessageId>, table: Table, before: seq<Offer>, ids: seq<MessageId>)
    ensures forall m :: m in Wanted(dups, table, before + [(true, ids)]) <==>
              m in Wanted(dups, table, before) || (m in ids && m !in dups && m !in table)
  {
    var all := before + [(true, ids)];
    assert all[|before|] == (true, ids);
    forall m | m in Wanted(dups, table, before) ensures m in Wanted(dups, table, all) {
      var i :| 0 <= i < |before| && before[i].0 && m in before[i].1;
      assert all[i] == before[i];
    }
  }

  method ShuffleIds(s: set<MessageId>) returns (order: seq<MessageId>)
    ensures Distinct(order) && Elements(order) == s && |order| == |s|
  {
    order := [];
    var todo := s;
    while todo != {}
      invariant todo <= s && Distinct(order) && Elements(order) == s - todo && |order| == |s| - |todo|
      decreases |todo|
    {
      var m :| m in todo;
      assert m !in Elements(order);
      assert Elements(order + [m]) == Elements(order) + {m};
      order := order + [m];
      todo := todo - {m};
    }
  }

  method Choose(want: set<MessageId>, count: nat) returns (ids: seq<MessageId>)
    requires count <= |want|
    ensures Distinct(ids) && Elements(ids) <= want && |ids| == count
  {
    var order := ShuffleIds(want);
    ids := order[..count];
    assert forall m :: m in ids ==> m in order;
    assert Elements(ids) <= Elements(order);
  }

  lemma NothingPicked()
    ensures Distinct<MessageId>([]) && Elements<MessageId>([]) == {}
  {
  }

  /** The node's duplicate cache, promises and IHAVE counters. */
  class IwantDesk {
    const l: Limits
    const dups: DuplicateCache<MessageId>
    const promises: GossipPromises
    var received: map<PeerRef, nat>
    var sent: map<PeerRef, nat>
    ghost var asked: map<PeerRef, seq<MessageId>>
    ghost var added: nat
    ghost var cancelled: nat
    ghost var charged: nat

    ghost predicate Valid(now: int)
      reads this, dups.cache, promises
    {
      dups.cache.Valid(now) && dups.cache.ttl == l.cacheTtl && promises.ttl == l.followup
    }

    ghost function State(): Desk
      reads this, dups.cache, promises
    {
      Desk(dups.cache.View(), promises.table, received, sent, asked, added, cancelled, charged)
    }

    constructor (limits: Limits)
      ensures fresh(dups.cache) && fresh(promises)
      ensures l == limits && State() == NoPromises && forall now :: Valid(now)
    {
      l := limits;
      dups := new DuplicateCache(limits.cacheTtl);
      promises := new GossipPromises(limits.followup);
      received, sent := map[], map[];
      asked, added, cancelled, charged := map[], 0, 0, 0;
    }

    /** A peer's message; true when it is new. */
    method OnArrival(m: MessageId, now: int, later: int, ghost was: int) returns (isNew: bool)
      requires Valid(was) && was <= now <= later
      modifies this, dups.cache, promises
      ensures Valid(later) && State() == Apply(l, old(State()), Arrive(m, now, later))
      ensures isNew == (m !in Live(old(State()).dups, now))
    {
      isNew := dups.Insert(m, now, later, was);
      if isNew {
        Settle(m);
      }
    }

    /** A message of our own; a stale entry that was not expired yet still stops it. */
    method OnPublish(m: MessageId, now: int, later: int, ghost was: int) returns (isNew: bool)
      requires Valid(was) && was <= now <= later
      modifies this, dups.cache, promises
      ensures Valid(later) && State() == Apply(l, old(State()), Publish(m, now, later))
      ensures isNew == (m !in old(State()).dups)
    {
      isNew := !dups.Contains(m);
      if !isNew {
        LaterValid(dups.cache, was, later);
        return;
      }
      var _ := dups.Insert(m, now, later, was);
      Settle(m);
    }

    /** The message is here, so nobody owes it. */
    method Settle(m: MessageId)
      modifies this`cancelled, promises
      ensures promises.table == old(promises.table) - {m}
      ensures cancelled == old(cancelled) + if m in old(promises.table) then |old(promises.table)[m]| else 0
    {
      cancelled := cancelled + if m in promises.table then |promises.table[m]| else 0;
      promises.Remove(m);
    }

    /** Start of a heartbeat: allowances are renewed and broken promises charged, each to the peer that made it. */
    method OnHeartbeat(now: int, ghost was: int) returns (penalties: map<PeerRef, nat>)
      requires Valid(was) && was <= now
      modifies this, promises
      ensures Valid(now) && State() == Apply(l, old(State()), Beat(now))
      ensures Total(penalties) == charged - old(charged)
      ensures forall p :: Tally(penalties, p) == |Charges(old(State()).table, now, p)|
    {
      received, sent, asked := map[], map[], map[];
      charged := charged + |Broken(promises.table, now)|;
      penalties := promises.ClearExpired(now);
      LaterValid(dups.cache, was, now);
    }

    /** `handle_ihave` for a peer that speaks gossipsub (the others are dropped before this point). */
    method HandleIhave(p: PeerRef, offers: seq<Offer>, now: int) returns (ghost pick: seq<MessageId>)
      requires Valid(now)
      modifies this, promises
      ensures Valid(now) && PickOk(l, old(State()), p, offers, pick)
      ensures State() == Apply(l, old(State()), Ihave(p, offers, pick, now))
    {
      NothingPicked();
      hide Wanted, AddAll, Distinct, Elements;
      pick := [];
      received := received[p := Tally(received, p) + 1];
      if received[p] > l.maxIhaveMessages { return; }
      if p in sent && sent[p] >= l.maxIhaveLength { return; }
      var want := CollectWanted(offers, now);
      if want == {} { return; }
      pick := Request(p, want, now);
    }

    /** The two nested loops that collect the ids worth asking for. */
    method CollectWanted(offers: seq<Offer>, ghost now: int) returns (want: set<MessageId>)
      requires Valid(now)
      ensures want == Wanted(State().dups, State().table, offers)
    {
      want := {};
      var i := 0;
      while i < |offers|
        invariant i <= |offers| && want == Wanted(State().dups, State().table, offers[..i])
      {
        assert offers[..i + 1] == offers[..i] + [offers[i]];
        if offers[i].0 {
          want := CollectOffer(offers[..i], offers[i].1, want, now);
        }
        assert want == Wanted(State().dups, State().table, offers[..i + 1]);
        i := i + 1;
      }
      assert offers[..i] == offers;
    }

    method CollectOffer(ghost before: seq<Offer>, ids: seq<MessageId>, want: set<MessageId>, ghost now: int) returns (want': set<MessageId>)
      requires Valid(now) && want == Wanted(State().dups, State().table, before)
      ensures want' == Wanted(State().dups, State().table, before + [(true, ids)])
    {
      ghost var known, table := State().dups, State().table;
      want' := want;
      var j := 0;
      while j < |ids|
        invariant j <= |ids|
        invariant forall m :: m in want' <==> m in want || (m in ids[..j] && m !in known && m !in table)
      {
        assert ids[..j + 1] == ids[..j] + [ids[j]];
        if !dups.Contains(ids[j]) && !promises.Contains(ids[j]) {
          want' := want' + {ids[j]};
        }
        j := j + 1;
      }
      assert ids[..j] == ids;
      WantedSnoc(known, table, before, ids);
    }

    /** Ask for as many of the wanted ids as the allowance leaves. */
    method Request(p: PeerRef, want: set<MessageId>, now: int) returns (ghost pick: seq<MessageId>)
      requires Valid(now)
      modifies this, promises
      ensures Valid(now) && Distinct(pick) && Elements(pick) <= want
      ensures |pick| == Min(|want|, Monus(l.maxIhaveLength, Tally(old(sent), p)))
      ensures State() == old(State()).(
                sent := old(sent)[p := Tally(old(sent), p) + |pick|],
                asked := old(asked)[p := Asked(old(State()), p) + pick],
                table := AddAll(old(State()).table, pick, p, now + l.followup),
                added := old(added) + |pick|)
    {
      var prior := Tally(sent, p);
      var count := Min(|want|, Monus(l.maxIhaveLength, prior));
      var ids := Choose(want, count);
      pick := ids;
      sent := sent[p := prior + count];
      AddEach(ids, p, now);
      asked := asked[p := Asked(old(State()), p) + ids];
      added := added + |ids|;
    }

    method AddEach(ids: seq<MessageId>, p: PeerRef, now: int)
      modifies promises
      ensures promises.table == AddAll(old(promises.table), ids, p, now + promises.ttl)
    {
      var i := 0;
      while i < |ids|
        invariant i <= |ids| && promises.table == AddAll(old(promises.table), ids[..i], p, now + promises.ttl)
      {
        promises.Add(ids[i], p, now);
        assert ids[..i + 1][..i] == ids[..i];
        i := i + 1;
      }
      assert ids[..i] == ids;
    }
  }
}
