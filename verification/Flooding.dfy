/**
 One message spreading over a network whose relay links stand still. Links are
 reliable but otherwise asynchronous: copies in flight may be received in any
 order. Caches do not expire, the message is valid and every peer scores well
 enough to be sent to.
 */
module Flooding {
  import opened Common

  type NodeId = nat

  /** For every node, the nodes it relays to. */
  type Graph = map<NodeId, set<NodeId>>

  ghost predicate WellFormed(g: Graph) {
    forall v :: v in g ==> g[v] <= g.Keys - {v}
  }

  datatype Copy = Copy(src: NodeId, dst: NodeId)

  /** `sent` counts broadcast copies, `delivered` the local deliveries. */
  datatype Flood = Flood(author: NodeId, seen: set<NodeId>, flight: multiset<Copy>, sent: nat, delivered: multiset<NodeId>)

  function Copies(v: NodeId, ws: set<NodeId>): multiset<Copy> {
    multiset(set w | w in ws :: Copy(v, w))
  }

  /** The author publishes to `fan`. */
  function Publish(author: NodeId, fan: set<NodeId>): Flood {
    Flood(author, {author}, Copies(author, fan), |fan|, multiset{})
  }

  /** Receipt of one copy: a duplicate is dropped, a new message is delivered and relayed. */
  function Receive(g: Graph, f: Flood, m: Copy): Flood
    requires m.dst in g
  {
    if m.dst in f.seen then f.(flight := f.flight - multiset{m})
    else
      var ws := g[m.dst] - {m.src, f.author};
      f.(seen := f.seen + {m.dst},
         flight := f.flight - multiset{m} + Copies(m.dst, ws),
         sent := f.sent + |ws|,
         delivered := f.delivered + multiset{m.dst})
  }

  /** Any schedule of receipts after one publication. */
  ghost predicate IsFlood(g: Graph, author: NodeId, fan: set<NodeId>, states: seq<Flood>, copies: seq<Copy>) {
    && |states| == |copies| + 1
    && states[0] == Publish(author, fan)
    && forall i :: 0 <= i < |copies| ==>
         && copies[i] in states[i].flight && copies[i].dst in g
         && states[i + 1] == Receive(g, states[i], copies[i])
  }

  /** The author's first recipients include everybody it would relay to. */
  ghost predicate Starts(g: Graph, author: NodeId, fan: set<NodeId>) {
    WellFormed(g) && author in g && g[author] <= fan <= g.Keys - {author}
  }

  // ---- Invariants ----------------------------------------------------------

  ghost predicate Spreading(g: Graph, f: Flood, fan: set<NodeId>) {
    Inside(g, f) && AllServed(g, f) && Served(f, f.author, fan)
  }

  /** Nothing happens outside the network, and copies come from those who have the message. */
  ghost predicate Inside(g: Graph, f: Flood) {
    f.author in f.seen && f.seen <= g.Keys && forall m :: m in f.flight ==> m.src in f.seen && m.dst in g
  }

  ghost predicate AllServed(g: Graph, f: Flood) {
    forall v :: v in f.seen && v in g ==> Served(f, v, g[v])
  }

  /** Each of `ws` has the message or a copy from `v` on its way. */
  ghost predicate Served(f: Flood, v: NodeId, ws: set<NodeId>) {
    forall w :: w in ws ==> w in f.seen || Copy(v, w) in f.flight
  }

  ghost predicate Counted(g: Graph, f: Flood, steps: nat) {
    && steps + |f.flight| == f.sent
    && f.sent <= |f.seen| * (|g| - 1)
    && f.delivered == multiset(f.seen - {f.author})
  }

  lemma {:induction false} CopiesCount(v: NodeId, ws: set<NodeId>)
    ensures |Copies(v, ws)| == |ws|
  {
    if ws != {} {
      var w :| w in ws;
      CopiesCount(v, ws - {w});
      assert (set x | x in ws :: Copy(v, x)) == (set x | x in ws - {w} :: Copy(v, x)) + {Copy(v, w)};
      assert Copies(v, ws) == Copies(v, ws - {w}) + multiset{Copy(v, w)};
    }
  }

  lemma PublishStarts(g: Graph, author: NodeId, fan: set<NodeId>)
    requires Starts(g, author, fan)
    ensures Spreading(g, Publish(author, fan), fan) && Counted(g, Publish(author, fan), 0)
  {
    CopiesCount(author, fan);
    SubsetSize(fan, g.Keys - {author});
    assert {author} - {author} == {};
  }

  /** What a receipt does, in terms of membership. */
  ghost predicate Effect(g: Graph, f: Flood, m: Copy, f': Flood)
    requires m.dst in g
  {
    && f'.author == f.author && f'.seen == f.seen + {m.dst}
    && (forall x :: x in f.flight && x != m ==> x in f'.flight)
    && (forall x :: x in f'.flight ==> x in f.flight || (m.dst !in f.seen && x.src == m.dst && x.dst in g[m.dst]))
    && (m.dst !in f.seen ==> forall w :: w in g[m.dst] && w != m.src && w != f.author ==> Copy(m.dst, w) in f'.flight)
  }

  lemma ReceiveEffect(g: Graph, f: Flood, m: Copy)
    requires m.dst in g && m in f.flight
    ensures Effect(g, f, m, Receive(g, f, m))
  {
    if m.dst !in f.seen {
      InCopies(m.dst, g[m.dst] - {m.src, f.author});
    }
    hide Copies;
  }

  lemma InCopies(v: NodeId, ws: set<NodeId>)
    ensures forall x :: x in Copies(v, ws) <==> x.src == v && x.dst in ws
  {
  }

  lemma ServedStill(g: Graph, f: Flood, m: Copy, f': Flood, v: NodeId, ws: set<NodeId>)
    requires m.dst in g && Effect(g, f, m, f') && Served(f, v, ws)
    ensures Served(f', v, ws)
  {
    forall w | w in ws ensures w in f'.seen || Copy(v, w) in f'.flight {
      assert Copy(v, w) == m ==> w == m.dst;
    }
  }

  lemma ServedNow(g: Graph, f: Flood, m: Copy, f': Flood)
    requires m.dst in g && Effect(g, f, m, f') && m.dst !in f.seen && m.src in f.seen && f.author in f.seen
    ensures Served(f', m.dst, g[m.dst])
  {
  }

  lemma StillInside(g: Graph, f: Flood, m: Copy, f': Flood)
    requires WellFormed(g) && m.dst in g && Effect(g, f, m, f') && Inside(g, f)
    ensures Inside(g, f')
  {
  }

  lemma AllServedStill(g: Graph, f: Flood, m: Copy, f': Flood)
    requires m.dst in g && Effect(g, f, m, f') && m.src in f.seen && f.author in f.seen && AllServed(g, f)
    ensures AllServed(g, f')
  {
    assert f'.seen == f.seen + {m.dst};
    hide Served, Effect;
    forall v | v in f'.seen && v in g ensures Served(f', v, g[v]) {
      if v in f.seen {
        ServedStill(g, f, m, f', v, g[v]);
      } else {
        ServedNow(g, f, m, f');
      }
    }
  }

  lemma ReceiveSpreads(g: Graph, f: Flood, m: Copy, fan: set<NodeId>)
    requires WellFormed(g) && Spreading(g, f, fan) && m in f.flight
    ensures Spreading(g, Receive(g, f, m), fan)
  {
    assert m.dst in g && m.src in f.seen && f.author in f.seen;
    hide WellFormed, Served, Inside, AllServed, Receive, Effect;
    ReceiveEffect(g, f, m);
    var f' := Receive(g, f, m);
    StillInside(g, f, m, f');
    AllServedStill(g, f, m, f');
    ServedStill(g, f, m, f', f.author, fan);
    SameAuthor(g, f, m);
  }

  lemma SameAuthor(g: Graph, f: Flood, m: Copy)
    requires m.dst in g
    ensures Receive(g, f, m).author == f.author
  {
  }

  lemma ReceiveCounts(g: Graph, f: Flood, m: Copy, fan: set<NodeId>, steps: nat)
    requires WellFormed(g) && Spreading(g, f, fan) && Counted(g, f, steps) && m in f.flight
    ensures Counted(g, Receive(g, f, m), steps + 1)
  {
    assert m.dst in g && f.author in f.seen;
    hide Spreading, Inside, WellFormed, Receive;
    if m.dst in f.seen {
      OldCounts(g, f, m);
    } else {
      NewCounts(g, f, m);
      DeliveredOnce(f.seen, f.author, m.dst);
      OneMore(|f.seen|, |g| - 1);
    }
  }

  lemma OldCounts(g: Graph, f: Flood, m: Copy)
    requires m.dst in g && m in f.flight && m.dst in f.seen
    ensures var f' := Receive(g, f, m); |f'.flight| == |f.flight| - 1 && f' == f.(flight := f'.flight)
  {
  }

  lemma NewCounts(g: Graph, f: Flood, m: Copy)
    requires WellFormed(g) && m.dst in g && m in f.flight && m.dst !in f.seen
    ensures var f' := Receive(g, f, m);
            && |f'.flight| - |f.flight| + 1 == f'.sent - f.sent <= |g| - 1 && f'.author == f.author
            && f'.seen == f.seen + {m.dst} && f'.delivered == f.delivered + multiset{m.dst}
  {
    var ws := g[m.dst] - {m.src, f.author};
    assert ws <= g.Keys - {m.dst};
    SubsetSize(ws, g.Keys - {m.dst});
    CopiesCount(m.dst, ws);
    hide Copies, WellFormed;
  }

  lemma DeliveredOnce(seen: set<NodeId>, author: NodeId, v: NodeId)
    requires author in seen && v !in seen
    ensures multiset(seen - {author}) + multiset{v} == multiset(seen + {v} - {author})
    ensures |seen + {v}| == |seen| + 1
  {
  }

  lemma OneMore(a: int, k: int)
    ensures (a + 1) * k == a * k + k
  {
  }

  lemma {:induction false} FloodInvariant(g: Graph, author: NodeId, fan: set<NodeId>,
                                          states: seq<Flood>, copies: seq<Copy>, i: nat)
    requires Starts(g, author, fan) && IsFlood(g, author, fan, states, copies) && i < |states|
    ensures Spreading(g, states[i], fan) && Counted(g, states[i], i) && states[i].author == author
  {
    if i == 0 {
      PublishStarts(g, author, fan);
    } else {
      FloodInvariant(g, author, fan, states, copies, i - 1);
      hide Spreading, Counted, Receive;
      ReceiveSpreads(g, states[i - 1], copies[i - 1], fan);
      ReceiveCounts(g, states[i - 1], copies[i - 1], fan, i - 1);
    }
  }

  // ---- Main results --------------------------------------------------------

  /**
   Cost: every run stops after at most n(n-1) receipts, sends at most n(n-1)
   copies, and delivers the message exactly once at each other node it reaches.
   */
  lemma FloodTerminates(g: Graph, author: NodeId, fan: set<NodeId>, states: seq<Flood>, copies: seq<Copy>)
    requires Starts(g, author, fan) && IsFlood(g, author, fan, states, copies)
    ensures var n := |g|; var last := states[|copies|];
            && |copies| <= last.sent <= n * (n - 1)
            && forall v :: last.delivered[v] == if v in last.seen && v != author then 1 else 0
  {
    FloodInvariant(g, author, fan, states, copies, |copies|);
    var n, last := |g|, states[|copies|];
    SubsetSize(last.seen, g.Keys);
    MulMonotone(|last.seen|, n, n - 1);
  }

  lemma MulMonotone(a: nat, b: nat, k: int)
    requires a <= b && k >= 0
    ensures a * k <= b * k
  {
  }

  ghost predicate Closed(g: Graph, s: set<NodeId>) {
    forall v :: v in s && v in g ==> g[v] <= s
  }

  /**
   Reach: when nothing is in flight the nodes that have seen the message are
   the least set that holds the author and its first recipients and is closed
   under relay links.
   */
  lemma FloodReach(g: Graph, author: NodeId, fan: set<NodeId>, states: seq<Flood>, copies: seq<Copy>)
    requires Starts(g, author, fan) && IsFlood(g, author, fan, states, copies)
    requires states[|copies|].flight == multiset{}
    ensures var seen := states[|copies|].seen;
            && author in seen && fan <= seen && Closed(g, seen)
            && forall s: set<NodeId> :: author in s && fan <= s && Closed(g, s) ==> seen <= s
  {
    FloodInvariant(g, author, fan, states, copies, |copies|);
    forall s: set<NodeId> | author in s && fan <= s && Closed(g, s)
      ensures states[|copies|].seen <= s
    {
      SeenStaysInside(g, author, fan, states, copies, |copies|, s);
    }
  }

  lemma {:induction false} SeenStaysInside(g: Graph, author: NodeId, fan: set<NodeId>,
                                           states: seq<Flood>, copies: seq<Copy>, i: nat, s: set<NodeId>)
    requires IsFlood(g, author, fan, states, copies) && i < |states|
    requires author in s && fan <= s && Closed(g, s)
    ensures states[i].seen <= s && forall m :: m in states[i].flight ==> m.dst in s
  {
    if i > 0 {
      SeenStaysInside(g, author, fan, states, copies, i - 1, s);
      assert copies[i - 1] in states[i - 1].flight;
    }
  }
}
