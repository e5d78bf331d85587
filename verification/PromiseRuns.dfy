/** Accounting of promises over whole runs: IHAVE handling, arrivals and heartbeats. */
module PromiseRuns {
  import opened Common
  import opened GossipState
  import opened TimeCaches
  import opened Promises

  /**
   The tables IHAVE handling works on, with a record of what has happened:
   `asked` lists the ids requested from each peer since the last heartbeat, the
   counters follow every promise from its making to its end.
   */
  datatype Desk = Desk(
    dups: Deadlines<MessageId>,
    table: Table,
    received: map<PeerRef, nat>,
    sent: map<PeerRef, nat>,
    asked: map<PeerRef, seq<MessageId>>,
    added: nat,
    cancelled: nat,
    charged: nat)

  /** One IHAVE entry: whether score and topic let it through, and the ids it offers. */
  type Offer = (bool, seq<MessageId>)

  datatype Event =
    | Arrive(m: MessageId, now: int, later: int)
    | Publish(m: MessageId, now: int, later: int)
    | Ihave(p: PeerRef, offers: seq<Offer>, pick: seq<MessageId>, now: int)
    | Beat(now: int)

  function Asked(s: Desk, p: PeerRef): seq<MessageId> { if p in s.asked then s.asked[p] else [] }

  /** Offered ids we neither have nor have been promised. */
  function Wanted(dups: Deadlines<MessageId>, table: Table, offers: seq<Offer>): set<MessageId> {
    set i, m | 0 <= i < |offers| && offers[i].0 && m in offers[i].1 && m !in dups && m !in table :: m
  }

  /** Too many IHAVE messages this tick, or the peer's allowance is used up. */
  predicate Blocked(l: Limits, s: Desk, p: PeerRef) {
    Tally(s.received, p) + 1 > l.maxIhaveMessages || (p in s.sent && s.sent[p] >= l.maxIhaveLength)
  }

  /** Ids to request: as many of the wanted ones as the peer's allowance for this tick leaves. */
  function Quota(l: Limits, s: Desk, p: PeerRef, offers: seq<Offer>): nat {
    if Blocked(l, s, p) then 0 else Min(|Wanted(s.dups, s.table, offers)|, Monus(l.maxIhaveLength, Tally(s.sent, p)))
  }

  ghost predicate PickOk(l: Limits, s: Desk, p: PeerRef, offers: seq<Offer>, pick: seq<MessageId>) {
    Distinct(pick) && Elements(pick) <= Wanted(s.dups, s.table, offers) && |pick| == Quota(l, s, p, offers)
  }

  function AddAll(t: Table, ms: seq<MessageId>, p: PeerRef, deadline: int): Table {
    if ms == [] then t else Added(AddAll(t, ms[..|ms| - 1], p, deadline), ms[|ms| - 1], p, deadline)
  }

  /** A new message: remembered, and no longer owed by anybody. */
  function TakenIn(l: Limits, s: Desk, m: MessageId, now: int, later: int): Desk {
    s.(dups := Inserted(s.dups, m, now, later, l.cacheTtl),
       table := s.table - {m},
       cancelled := s.cancelled + if m in s.table then |s.table[m]| else 0)
  }

  /** A peer's message is looked up after expired ids are gone, our own before. */
  function Apply(l: Limits, s: Desk, e: Event): Desk {
    match e
    case Arrive(m, now, later) =>
      if m in Live(s.dups, now) then s.(dups := Live(s.dups, now)) else TakenIn(l, s, m, now, later)
    case Publish(m, now, later) =>
      if m in s.dups then s else TakenIn(l, s, m, now, later)
    case Ihave(p, offers, pick, now) =>
      var s1 := s.(received := s.received[p := Tally(s.received, p) + 1]);
      if Blocked(l, s, p) || Wanted(s.dups, s.table, offers) == {} then s1
      else s1.(sent := s.sent[p := Tally(s.sent, p) + |pick|],
               asked := s.asked[p := Asked(s, p) + pick],
               table := AddAll(s.table, pick, p, now + l.followup),
               added := s.added + |pick|)
    case Beat(now) =>
      s.(received := map[], sent := map[], asked := map[],
         table := Expire(s.table, now),
         charged := s.charged + |Broken(s.table, now)|)
  }

  // ---- Invariant -----------------------------------------------------------

  /** Exactly one peer has promised each outstanding id, and we do not have the message. */
  ghost predicate OnePromise(s: Desk) {
    forall m :: m in s.table ==> |s.table[m]| == 1 && m !in s.dups
  }

  /** Every promise made is outstanding, cancelled by the message's arrival, or charged. */
  ghost predicate Conserved(s: Desk) { s.added == |s.table| + s.cancelled + s.charged }

  ghost predicate Allowance(l: Limits, s: Desk) {
    forall p :: |Asked(s, p)| == Tally(s.sent, p) <= l.maxIhaveLength
  }

  ghost predicate Balanced(l: Limits, s: Desk) { OnePromise(s) && Conserved(s) && Allowance(l, s) }

  /** Adding fresh ids one by one gives each its single promise. */
  ghost predicate Grown(t: Table, t': Table, ms: seq<MessageId>, row: map<PeerRef, int>) {
    && |t'| == |t| + |ms|
    && (forall m :: m in t' <==> m in t || m in ms)
    && (forall m :: m in t ==> t'[m] == t[m])
    && (forall m :: m in ms && m !in t ==> t'[m] == row)
  }

  lemma GrownStep(t: Table, t1: Table, ms: seq<MessageId>, m: MessageId, row: map<PeerRef, int>)
    requires Grown(t, t1, ms, row) && m !in ms && m !in t
    ensures Grown(t, t1[m := row], ms + [m], row)
  {
  }

  lemma LastApart(ms: seq<MessageId>)
    requires Distinct(ms) && ms != []
    ensures Distinct(ms[..|ms| - 1]) && ms[|ms| - 1] !in ms[..|ms| - 1]
  {
  }

  lemma {:induction false} AddAllCount(t: Table, ms: seq<MessageId>, p: PeerRef, deadline: int)
    requires Distinct(ms) && forall m :: m in ms ==> m !in t
    ensures Grown(t, AddAll(t, ms, p, deadline), ms, map[p := deadline])
    decreases |ms|
  {
    if ms != [] {
      var init, m := ms[..|ms| - 1], ms[|ms| - 1];
      LastApart(ms);
      assert ms == init + [m] && m in ms;
      assert forall x :: x in init ==> x in ms;
      hide Distinct;
      AddAllCount(t, init, p, deadline);
      var t1 := AddAll(t, init, p, deadline);
      assert m !in t1;
      assert Added(t1, m, p, deadline) == t1[m := map[p := deadline]];
      assert AddAll(t, ms, p, deadline) == Added(t1, m, p, deadline);
      hide Grown, AddAll, Added;
      GrownStep(t, t1, init, m, map[p := deadline]);
    }
  }

  lemma OneEntry(row: map<PeerRef, int>, now: int)
    requires |row| == 1
    ensures (Kept(row, now) == map[] && |Late(row, now)| == 1) || (Kept(row, now) == row && |Late(row, now)| == 0)
  {
    assert |row.Keys| == 1;
    var p :| p in row;
    assert row.Keys - {p} == {} by { assert |row.Keys - {p}| == 0; }
    assert row.Keys == {p};
    if row[p] < now {
      assert Late(row, now) == {p};
    } else {
      assert Late(row, now) == {};
    }
  }

  /** With one promise per id, a sweep splits the table into kept ids and charges. */
  lemma {:induction false} SweepBalances(t: Table, done: set<MessageId>, now: int)
    requires done <= t.Keys && forall m :: m in done ==> |t[m]| == 1
    ensures |Expire(Slice(t, done), now)| + |Broken(Slice(t, done), now)| == |done|
    decreases |done|
  {
    if done == {} {
      SliceEnds(t, now);
    } else {
      var m :| m in done;
      var rest := done - {m};
      SweepBalances(t, rest, now);
      BrokenSplit(t, rest, m, now);
      ExpireSplit(t, rest, m, now);
      OneEntry(t[m], now);
      assert rest + {m} == done;
      assert m !in Expire(Slice(t, rest), now);
      hide Expire, Slice, Broken, Late;
      NewKey(Expire(Slice(t, rest), now), m, t[m]);
    }
  }

  lemma NewKey(t: Table, m: MessageId, row: map<PeerRef, int>)
    requires m !in t
    ensures |t[m := row]| == |t| + 1
  {
  }

  // ---- Steps ---------------------------------------------------------------

  lemma ArriveOne(l: Limits, s: Desk, m: MessageId, now: int, later: int)
    requires OnePromise(s)
    ensures OnePromise(Apply(l, s, Arrive(m, now, later)))
  {
  }

  lemma ArriveConserved(l: Limits, s: Desk, m: MessageId, now: int, later: int)
    requires Conserved(s)
    requires m in s.table ==> |s.table[m]| == 1
    ensures Conserved(Apply(l, s, Arrive(m, now, later)))
  {
  }

  lemma ArriveKeeps(l: Limits, s: Desk, m: MessageId, now: int, later: int)
    requires Balanced(l, s)
    ensures Balanced(l, Apply(l, s, Arrive(m, now, later)))
  {
    assert m in s.table ==> |s.table[m]| == 1;
    hide OnePromise, Conserved, Allowance, Apply;
    ArriveOne(l, s, m, now, later);
    ArriveConserved(l, s, m, now, later);
    ArriveAllowance(l, s, m, now, later);
  }

  lemma ArriveAllowance(l: Limits, s: Desk, m: MessageId, now: int, later: int)
    requires Allowance(l, s)
    ensures Allowance(l, Apply(l, s, Arrive(m, now, later)))
  {
    var s' := Apply(l, s, Arrive(m, now, later));
    assert s'.asked == s.asked && s'.sent == s.sent;
    hide Apply;
    forall p ensures |Asked(s', p)| == Tally(s'.sent, p) <= l.maxIhaveLength {
      assert |Asked(s, p)| == Tally(s.sent, p) <= l.maxIhaveLength;
    }
  }

  lemma PublishKeeps(l: Limits, s: Desk, m: MessageId, now: int, later: int)
    requires Balanced(l, s)
    ensures Balanced(l, Apply(l, s, Publish(m, now, later)))
  {
    ArriveKeeps(l, s, m, now, later);
    assert m !in s.dups ==> m !in Live(s.dups, now);
    hide Balanced, TakenIn, Live;
  }

  lemma IhaveAllowance(l: Limits, s: Desk, p: PeerRef, offers: seq<Offer>, pick: seq<MessageId>, now: int)
    requires Allowance(l, s) && |pick| == Quota(l, s, p, offers)
    ensures Allowance(l, Apply(l, s, Ihave(p, offers, pick, now)))
  {
    hide AddAll, Wanted;
    var s' := Apply(l, s, Ihave(p, offers, pick, now));
    assert |Asked(s, p)| == Tally(s.sent, p) <= l.maxIhaveLength;
    forall q ensures |Asked(s', q)| == Tally(s'.sent, q) <= l.maxIhaveLength {
      assert |Asked(s, q)| == Tally(s.sent, q) <= l.maxIhaveLength;
    }
  }

  /** What an IHAVE leaves in the table, whether or not anything was asked for. */
  lemma IhaveFields(l: Limits, s: Desk, p: PeerRef, offers: seq<Offer>, pick: seq<MessageId>, now: int)
    requires |pick| == Quota(l, s, p, offers)
    ensures var s' := Apply(l, s, Ihave(p, offers, pick, now));
            && s'.table == AddAll(s.table, pick, p, now + l.followup) && s'.dups == s.dups
            && s'.added == s.added + |pick| && s'.cancelled == s.cancelled && s'.charged == s.charged
  {
  }

  lemma IhaveTable(l: Limits, s: Desk, p: PeerRef, offers: seq<Offer>, pick: seq<MessageId>, deadline: int)
    requires OnePromise(s) && PickOk(l, s, p, offers, pick)
    ensures var t := AddAll(s.table, pick, p, deadline);
            OnePromise(s.(table := t)) && |t| == |s.table| + |pick|
  {
    forall m | m in pick ensures m !in s.table && m !in s.dups { assert m in Elements(pick); }
    hide PickOk, OnePromise;
    AddAllCount(s.table, pick, p, deadline);
    GrownKeeps(s, AddAll(s.table, pick, p, deadline), pick, map[p := deadline]);
  }

  lemma IhaveKeeps(l: Limits, s: Desk, p: PeerRef, offers: seq<Offer>, pick: seq<MessageId>, now: int)
    requires Balanced(l, s) && PickOk(l, s, p, offers, pick)
    ensures Balanced(l, Apply(l, s, Ihave(p, offers, pick, now)))
  {
    hide Apply, PickOk, AddAll, Allowance, Quota, OnePromise;
    PickSize(l, s, p, offers, pick);
    IhaveFields(l, s, p, offers, pick, now);
    IhaveTable(l, s, p, offers, pick, now + l.followup);
    IhaveAllowance(l, s, p, offers, pick, now);
    var s' := Apply(l, s, Ihave(p, offers, pick, now));
    SamePromises(s', s.(table := s'.table));
  }

  lemma PickSize(l: Limits, s: Desk, p: PeerRef, offers: seq<Offer>, pick: seq<MessageId>)
    requires PickOk(l, s, p, offers, pick)
    ensures |pick| == Quota(l, s, p, offers)
  {
    hide Quota, Wanted;
  }

  lemma SamePromises(s: Desk, s1: Desk)
    requires s.table == s1.table && s.dups == s1.dups
    ensures OnePromise(s) <==> OnePromise(s1)
  {
  }

  lemma GrownKeeps(s: Desk, t: Table, pick: seq<MessageId>, row: map<PeerRef, int>)
    requires OnePromise(s) && Grown(s.table, t, pick, row) && |row| == 1
    requires forall m :: m in pick ==> m !in s.table && m !in s.dups
    ensures OnePromise(s.(table := t))
    ensures |t| == |s.table| + |pick|
  {
  }

  lemma BeatKeeps(l: Limits, s: Desk, now: int)
    requires Balanced(l, s)
    ensures var s' := Apply(l, s, Beat(now)); Balanced(l, s')
  {
    SliceEnds(s.table, now);
    SweepBalances(s.table, s.table.Keys, now);
    assert |s.table.Keys| == |s.table|;
    forall m | m in Expire(s.table, now) ensures |Expire(s.table, now)[m]| == 1 {
      OneEntry(s.table[m], now);
    }
  }

  const NoPromises := Desk(map[], map[], map[], map[], map[], 0, 0, 0)

  ghost predicate Admissible(l: Limits, s: Desk, e: Event) {
    match e
    case Arrive(_, now, later) => now <= later
    case Publish(_, now, later) => now <= later
    case Ihave(p, offers, pick, _) => PickOk(l, s, p, offers, pick)
    case Beat(_) => true
  }

  ghost predicate IsRun(l: Limits, states: seq<Desk>, events: seq<Event>) {
    && |states| == |events| + 1 && states[0] == NoPromises
    && forall i :: 0 <= i < |events| ==>
         Admissible(l, states[i], events[i]) && states[i + 1] == Apply(l, states[i], events[i])
  }

  lemma {:induction false} EveryRunBalanced(l: Limits, states: seq<Desk>, events: seq<Event>, i: nat)
    requires IsRun(l, states, events) && i < |states|
    ensures Balanced(l, states[i])
  {
    if i > 0 {
      EveryRunBalanced(l, states, events, i - 1);
      var s := states[i - 1];
      match events[i - 1]
      case Arrive(m, now, later) => ArriveKeeps(l, s, m, now, later);
      case Publish(m, now, later) => PublishKeeps(l, s, m, now, later);
      case Ihave(p, offers, pick, now) => IhaveKeeps(l, s, p, offers, pick, now);
      case Beat(now) => BeatKeeps(l, s, now);
    }
  }

  /**
   Main result. In every state of every run: each promised id has exactly one
   promising peer and is not in the duplicate cache; promises made equal those
   outstanding plus those cancelled by arrival plus penalties charged; and since
   the last heartbeat no peer has been asked for more than `max_ihave_length` ids.
   */
  lemma PromiseAccounting(l: Limits, states: seq<Desk>, events: seq<Event>, i: nat)
    requires IsRun(l, states, events) && i < |states|
    ensures forall m :: m in states[i].table ==> |states[i].table[m]| == 1 && m !in states[i].dups
    ensures states[i].added == |states[i].table| + states[i].cancelled + states[i].charged
    ensures forall p :: p in states[i].asked ==> |states[i].asked[p]| <= l.maxIhaveLength
  {
    EveryRunBalanced(l, states, events, i);
    forall p | p in states[i].asked ensures |states[i].asked[p]| <= l.maxIhaveLength {
      assert |Asked(states[i], p)| == Tally(states[i].sent, p) <= l.maxIhaveLength;
    }
  }
}
