/** IWANT promises: who said it has a message, until when, and what becomes of the promise. */
module Promises {
  import opened Common
  import opened GossipState
  import opened TimeCaches

  type MessageId = nat

  /** `map_` of `GossipPromises`: for each message the peers that promised it and their deadlines. */
  type Table = map<MessageId, map<PeerRef, int>>

  datatype Limits = Limits(maxIhaveMessages: nat, maxIhaveLength: nat, followup: nat, cacheTtl: nat)

  function Added(t: Table, m: MessageId, p: PeerRef, deadline: int): Table {
    var row := if m in t then t[m] else map[];
    t[m := if p in row then row else row[p := deadline]]
  }

  function Kept(row: map<PeerRef, int>, now: int): map<PeerRef, int> {
    map p | p in row && row[p] >= now :: row[p]
  }

  function Expire(t: Table, now: int): Table {
    map m | m in t && Kept(t[m], now) != map[] :: Kept(t[m], now)
  }

  /** The promises, as pairs, that a sweep at `now` finds broken. */
  function Broken(t: Table, now: int): set<(MessageId, PeerRef)> {
    set m, p | m in t && p in t[m] && t[m][p] < now :: (m, p)
  }

  /** Those of them that one peer made. */
  function Charges(t: Table, now: int, p: PeerRef): set<MessageId> {
    set m | m in t && p in t[m] && t[m][p] < now
  }

  // ---- Histograms ----------------------------------------------------------

  function Tally(h: map<PeerRef, nat>, p: PeerRef): nat { if p in h then h[p] else 0 }

  ghost function Total(h: map<PeerRef, nat>): nat {
    if h == map[] then 0
    else
      var p :| p in h;
      h[p] + Total(h - {p})
  }

  lemma {:induction false} TotalPick(h: map<PeerRef, nat>, p: PeerRef)
    requires p in h
    ensures Total(h) == h[p] + Total(h - {p})
    decreases |h|
  {
    var q :| q in h && Total(h) == h[q] + Total(h - {q});
    if q != p {
      TotalPick(h - {q}, p);
      TotalPick(h - {p}, q);
      assert h - {q} - {p} == h - {p} - {q};
    }
  }

  function Bumped(h: map<PeerRef, nat>, p: PeerRef): map<PeerRef, nat> {
    h[p := Tally(h, p) + 1]
  }

  lemma TotalBumped(h: map<PeerRef, nat>, p: PeerRef)
    ensures Total(Bumped(h, p)) == Total(h) + 1
  {
    TotalPick(Bumped(h, p), p);
    assert Bumped(h, p) - {p} == h - {p};
    if p in h { TotalPick(h, p); } else { assert h - {p} == h; }
  }

  // ---- The table -----------------------------------------------------------

  class GossipPromises {
    const ttl: nat
    var table: Table

    constructor (ttl: nat)
      ensures this.ttl == ttl && table == map[]
    {
      this.ttl, table := ttl, map[];
    }

    predicate Contains(m: MessageId)
      reads this
    {
      m in table
    }

    method Add(m: MessageId, p: PeerRef, now: int)
      modifies this`table
      ensures table == Added(old(table), m, p, now + ttl)
    {
      var row := if m in table then table[m] else map[];
      if p !in row {
        row := row[p := now + ttl];
      }
      table := table[m := row];
    }

    method Remove(m: MessageId)
      modifies this`table
      ensures table == old(table) - {m}
    {
      table := table - {m};
    }

    /** Every broken promise is dropped and charged to its peer exactly once. */
    method ClearExpired(now: int) returns (result: map<PeerRef, nat>)
      modifies this`table
      ensures table == Expire(old(table), now)
      ensures Total(result) == |Broken(old(table), now)|
      ensures forall p :: Tally(result, p) == |Charges(old(table), now, p)|
    {
      table, result := SweepAll(table, now);
    }
  }

  /** The outer loop over the promised messages. */
  method SweepAll(t: Table, now: int) returns (swept: Table, result: map<PeerRef, nat>)
    ensures swept == Expire(t, now) && Total(result) == |Broken(t, now)|
    ensures forall p :: Tally(result, p) == |Charges(t, now, p)|
  {
    swept, result := map[], map[];
    var todo := t.Keys;
    ghost var done := {};
    SliceEnds(t, now);
    hide *;
    while todo != {}
      invariant done !! todo && done + todo == t.Keys
      invariant swept == Expire(Slice(t, done), now)
      invariant Total(result) == |Broken(Slice(t, done), now)|
      invariant forall p :: Tally(result, p) == |Charges(Slice(t, done), now, p)|
      decreases |todo|
    {
      var m :| m in todo;
      BrokenSplit(t, done, m, now);
      ExpireSplit(t, done, m, now);
      ChargesSplit(t, done, m, now);
      var row;
      row, result := SweepRow(t[m], now, result);
      if row != map[] {
        swept := swept[m := row];
      }
      todo, done := todo - {m}, done + {m};
    }
    assert done == t.Keys;
  }

  lemma SliceEnds(t: Table, now: int)
    ensures Slice(t, t.Keys) == t
    ensures Broken(Slice(t, {}), now) == {} && Expire(Slice(t, {}), now) == map[] && Total(map[]) == 0
    ensures forall p :: Tally(map[], p) == |Charges(Slice(t, {}), now, p)|
  {
    forall p ensures Charges(Slice(t, {}), now, p) == {} {}
  }

  function Slice(t: Table, ms: set<MessageId>): Table {
    map m | m in t && m in ms :: t[m]
  }

  function Late(row: map<PeerRef, int>, now: int): set<PeerRef> {
    set p | p in row && row[p] < now
  }

  function Pairs(m: MessageId, ps: set<PeerRef>): set<(MessageId, PeerRef)> {
    set p | p in ps :: (m, p)
  }

  lemma {:induction false} PairsCount(m: MessageId, ps: set<PeerRef>)
    ensures |Pairs(m, ps)| == |ps|
  {
    if ps != {} {
      var q :| q in ps;
      PairsCount(m, ps - {q});
      assert Pairs(m, ps) == Pairs(m, ps - {q}) + {(m, q)};
    }
  }

  lemma BrokenSplit(t: Table, done: set<MessageId>, m: MessageId, now: int)
    requires m in t && m !in done
    ensures |Broken(Slice(t, done + {m}), now)| == |Broken(Slice(t, done), now)| + |Late(t[m], now)|
  {
    var after, before, mine := Broken(Slice(t, done + {m}), now), Broken(Slice(t, done), now), Pairs(m, Late(t[m], now));
    PairsCount(m, Late(t[m], now));
    forall x: (MessageId, PeerRef) ensures x in after <==> x in before || x in mine {}
    assert before !! mine;
    hide *;
    assert after == before + mine;
  }

  lemma ExpireSplit(t: Table, done: set<MessageId>, m: MessageId, now: int)
    requires m in t && m !in done
    ensures var row := Kept(t[m], now);
            Expire(Slice(t, done + {m}), now) ==
            if row == map[] then Expire(Slice(t, done), now) else Expire(Slice(t, done), now)[m := row]
  {
  }

  lemma ChargesSplit(t: Table, done: set<MessageId>, m: MessageId, now: int)
    requires m in t && m !in done
    ensures forall p :: |Charges(Slice(t, done + {m}), now, p)| ==
                        |Charges(Slice(t, done), now, p)| + if p in Late(t[m], now) then 1 else 0
  {
    forall p
      ensures |Charges(Slice(t, done + {m}), now, p)| ==
              |Charges(Slice(t, done), now, p)| + if p in Late(t[m], now) then 1 else 0
    {
      ChargesStep(t, done, m, now, p);
    }
  }

  lemma ChargesStep(t: Table, done: set<MessageId>, m: MessageId, now: int, p: PeerRef)
    requires m in t && m !in done
    ensures |Charges(Slice(t, done + {m}), now, p)| ==
            |Charges(Slice(t, done), now, p)| + if p in Late(t[m], now) then 1 else 0
  {
    var after, before := Charges(Slice(t, done + {m}), now, p), Charges(Slice(t, done), now, p);
    assert m !in before;
    if p in Late(t[m], now) {
      assert after == before + {m};
    } else {
      assert after == before;
    }
  }

  /** The inner loop over the peers of one message. */
  method SweepRow(promised: map<PeerRef, int>, now: int, result: map<PeerRef, nat>)
    returns (row: map<PeerRef, int>, result': map<PeerRef, nat>)
    ensures row == Kept(promised, now)
    ensures Total(result') == Total(result) + |Late(promised, now)|
    ensures forall p :: Tally(result', p) == Tally(result, p) + if p in Late(promised, now) then 1 else 0
  {
    row, result' := promised, result;
    hide Total;
    var todo := promised.Keys;
    while todo != {}
      invariant todo <= row.Keys <= promised.Keys
      invariant forall p :: p in promised ==> (p in row <==> p in todo || promised[p] >= now)
      invariant forall p :: p in row ==> row[p] == promised[p]
      invariant forall p :: Tally(result', p) == Tally(result, p) + if p in promised && p !in row then 1 else 0
      invariant Total(result') + |Late(row, now)| == Total(result) + |Late(promised, now)|
      decreases |todo|
    {
      var p :| p in todo;
      if row[p] < now {
        TotalBumped(result', p);
        result' := Bumped(result', p);
        assert Late(row - {p}, now) == Late(row, now) - {p};
        row := row - {p};
      }
      todo := todo - {p};
    }
    assert Late(row, now) == {};
  }
}
