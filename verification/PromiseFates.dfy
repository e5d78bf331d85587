/** What an IHAVE asks for, and what becomes of each promise over a run. */
module PromiseFates {
  import opened Common
  import opened GossipState
  import opened TimeCaches
  import opened Promises
  import opened PromiseRuns

  ghost predicate Offered(offers: seq<Offer>, m: MessageId) {
    exists i :: 0 <= i < |offers| && offers[i].0 && m in offers[i].1
  }

  /** The ids an IHAVE brings that we neither have nor await. */
  ghost predicate News(s: Desk, offers: seq<Offer>, new': set<MessageId>) {
    forall m :: m in new' <==> Offered(offers, m) && m !in s.dups && m !in s.table
  }

  lemma NewsAreWanted(s: Desk, offers: seq<Offer>, new': set<MessageId>)
    requires News(s, offers, new')
    ensures Wanted(s.dups, s.table, offers) == new'
  {
    forall m ensures m in Wanted(s.dups, s.table, offers) <==> m in new' {
      if Offered(offers, m) && m !in s.dups && m !in s.table {
        var i :| 0 <= i < |offers| && offers[i].0 && m in offers[i].1;
      }
    }
  }

  /**
   An IHAVE asks for as many of its news as the peer's allowance for this tick leaves, for none
   once the peer has sent too many, and each is then promised by that peer alone.
   */
  lemma IhaveOutcome(l: Limits, s: Desk, p: PeerRef, offers: seq<Offer>, pick: seq<MessageId>, now: int, new': set<MessageId>)
    requires PickOk(l, s, p, offers, pick) && News(s, offers, new')
    ensures Distinct(pick) && Elements(pick) <= new'
    ensures |pick| == if Tally(s.received, p) >= l.maxIhaveMessages then 0
                      else Min(|new'|, Monus(l.maxIhaveLength, Tally(s.sent, p)))
    ensures var s' := Apply(l, s, Ihave(p, offers, pick, now));
            && s'.dups == s.dups && s'.cancelled == s.cancelled && s'.charged == s.charged && s'.added == s.added + |pick|
            && Tally(s'.received, p) == Tally(s.received, p) + 1 && Tally(s'.sent, p) == Tally(s.sent, p) + |pick|
            && (forall q :: q != p ==> Tally(s'.received, q) == Tally(s.received, q) && Tally(s'.sent, q) == Tally(s.sent, q))
            && Grown(s.table, s'.table, pick, map[p := now + l.followup])
  {
    NewsAreWanted(s, offers, new');
    hide Wanted, News, Distinct, Grown, AddAll;
    assert PickOk(l, s, p, offers, pick);
    IhaveGrows(l, s, p, offers, pick, now);
    hide Elements;
    IhaveCounts(l, s, p, offers, pick, now);
    QuotaIs(l, s, p, offers);
    hide Apply, Quota;
  }

  lemma QuotaIs(l: Limits, s: Desk, p: PeerRef, offers: seq<Offer>)
    ensures Quota(l, s, p, offers) ==
            if Tally(s.received, p) >= l.maxIhaveMessages then 0
            else Min(|Wanted(s.dups, s.table, offers)|, Monus(l.maxIhaveLength, Tally(s.sent, p)))
  {
    hide Wanted;
  }

  lemma IhaveCounts(l: Limits, s: Desk, p: PeerRef, offers: seq<Offer>, pick: seq<MessageId>, now: int)
    requires |pick| == Quota(l, s, p, offers)
    ensures var s' := Apply(l, s, Ihave(p, offers, pick, now));
            && s'.dups == s.dups && s'.cancelled == s.cancelled && s'.charged == s.charged && s'.added == s.added + |pick|
            && Tally(s'.received, p) == Tally(s.received, p) + 1 && Tally(s'.sent, p) == Tally(s.sent, p) + |pick|
            && (forall q :: q != p ==> Tally(s'.received, q) == Tally(s.received, q) && Tally(s'.sent, q) == Tally(s.sent, q))
  {
    hide Wanted, AddAll;
  }

  lemma PickIsNew(l: Limits, s: Desk, p: PeerRef, offers: seq<Offer>, pick: seq<MessageId>)
    requires PickOk(l, s, p, offers, pick)
    ensures Distinct(pick) && forall m :: m in pick ==> m !in s.table
  {
    forall m | m in pick ensures m !in s.table { assert m in Elements(pick); }
    hide Quota;
  }

  lemma IhaveGrows(l: Limits, s: Desk, p: PeerRef, offers: seq<Offer>, pick: seq<MessageId>, now: int)
    requires PickOk(l, s, p, offers, pick)
    ensures Grown(s.table, Apply(l, s, Ihave(p, offers, pick, now)).table, pick, map[p := now + l.followup])
  {
    hide *;
    PickSize(l, s, p, offers, pick);
    PickIsNew(l, s, p, offers, pick);
    IhaveFields(l, s, p, offers, pick, now);
    AddAllCount(s.table, pick, p, now + l.followup);
  }

  // ---- One promise over a run -----------------------------------------------------------

  /** The step leaves the promise of `m` alone: the message does not come, and no sweep is late for it. */
  ghost predicate Spares(e: Event, m: MessageId, deadline: int) {
    match e
    case Arrive(k, _, _) => k != m
    case Publish(k, _, _) => k != m
    case Ihave(_, _, _, _) => true
    case Beat(now) => now <= deadline
  }

  lemma StepSpares(l: Limits, s: Desk, e: Event, m: MessageId, p: PeerRef, deadline: int)
    requires Admissible(l, s, e) && m in s.table && s.table[m] == map[p := deadline] && Spares(e, m, deadline)
    ensures var s' := Apply(l, s, e); m in s'.table && s'.table[m] == map[p := deadline]
  {
    match e
    case Arrive(_, _, _) => hide Live, Inserted;
    case Publish(_, _, _) => hide Live, Inserted;
    case Ihave(q, offers, pick, now) =>
      IhaveSpares(l, s, q, offers, pick, now, m);
    case Beat(now) =>
      KeptOrNot(p, deadline, now);
  }

  lemma IhaveSpares(l: Limits, s: Desk, q: PeerRef, offers: seq<Offer>, pick: seq<MessageId>, now: int, m: MessageId)
    requires PickOk(l, s, q, offers, pick) && m in s.table
    ensures var s' := Apply(l, s, Ihave(q, offers, pick, now)); m in s'.table && s'.table[m] == s.table[m]
  {
    hide Apply, PickOk;
    IhaveGrows(l, s, q, offers, pick, now);
  }

  /** A promise made at step `i` stands as long as nothing settles it. */
  lemma {:induction false} PromiseStands(
    l: Limits, states: seq<Desk>, events: seq<Event>, i: nat, j: nat, p: PeerRef, m: MessageId)
    requires PromiseRuns.IsRun(l, states, events) && i < j < |states| && events[i].Ihave? && events[i].p == p && m in events[i].pick
    requires forall k :: i < k < j ==> Spares(events[k], m, events[i].now + l.followup)
    ensures m in states[j].table && states[j].table[m] == map[p := events[i].now + l.followup]
    decreases j
  {
    var e := events[j - 1];
    assert Admissible(l, states[j - 1], e) && states[j - 1 + 1] == Apply(l, states[j - 1], e);
    if i + 1 == j {
      hide PromiseRuns.IsRun, Apply;
      Promised(l, states[i], p, e.offers, e.pick, e.now, m);
    } else {
      PromiseStands(l, states, events, i, j - 1, p, m);
      hide PromiseRuns.IsRun, Apply;
      StepSpares(l, states[j - 1], e, m, p, events[i].now + l.followup);
    }
  }

  lemma Promised(l: Limits, s: Desk, p: PeerRef, offers: seq<Offer>, pick: seq<MessageId>, now: int, m: MessageId)
    requires PickOk(l, s, p, offers, pick) && m in pick
    ensures var s' := Apply(l, s, Ihave(p, offers, pick, now)); m in s'.table && s'.table[m] == map[p := now + l.followup]
  {
    PickIsNew(l, s, p, offers, pick);
    hide Apply, PickOk;
    IhaveGrows(l, s, p, offers, pick, now);
  }

  /**
   Main result. The first heartbeat after the follow-up time charges the peer that promised a
   message which has not come, and one within the time does not; charged or not, it is for this
   message and this peer alone.
   */
  lemma PromiseFate(l: Limits, states: seq<Desk>, events: seq<Event>, i: nat, j: nat, p: PeerRef, m: MessageId, now: int)
    requires PromiseRuns.IsRun(l, states, events) && i < j < |events| && events[i].Ihave? && events[i].p == p && m in events[i].pick
    requires forall k :: i < k < j ==> Spares(events[k], m, events[i].now + l.followup)
    requires events[j] == Beat(now)
    ensures forall q :: m in Charges(states[j].table, now, q) <==> q == p && now > events[i].now + l.followup
    ensures m in states[j + 1].table <==> now <= events[i].now + l.followup
  {
    PromiseStands(l, states, events, i, j, p, m);
    var d := events[i].now + l.followup;
    assert states[j + 1] == Apply(l, states[j], events[j]);
    hide PromiseRuns.IsRun;
    KeptOrNot(p, d, now);
    assert forall q :: q in states[j].table[m] <==> q == p;
  }

  lemma KeptOrNot(p: PeerRef, d: int, now: int)
    ensures Kept(map[p := d], now) == (if d >= now then map[p := d] else map[]) && p in map[p := d] && map[p := d] != map[]
  {
    assert p in map[p := d];
    if d < now { assert p !in Kept(map[p := d], now); }
  }

  /** The message itself, from a peer or from us, cancels the promise, and nobody is charged. */
  lemma ArrivalCancels(l: Limits, states: seq<Desk>, events: seq<Event>, j: nat, m: MessageId)
    requires PromiseRuns.IsRun(l, states, events) && j < |events| && m in states[j].table
    requires events[j].Arrive? || events[j].Publish?
    requires events[j].m == m
    ensures m !in states[j + 1].table && states[j + 1].charged == states[j].charged
    ensures states[j + 1].cancelled == states[j].cancelled + 1
  {
    EveryRunBalanced(l, states, events, j);
    assert |states[j].table[m]| == 1 && m !in states[j].dups;
    assert states[j + 1] == Apply(l, states[j], events[j]);
    hide PromiseRuns.IsRun, Balanced, Inserted;
    assert events[j].Arrive? ==> m !in Live(states[j].dups, events[j].now);
  }
}
