/** Every interleaving of `dial` calls with answers of the transports. */
module DialerRuns {
  import opened Common
  import opened DialerState

  type CallId = nat

  /**
   A suspended call: the peer, the addresses its caller gave, all that any caller
   has offered for the peer since, as a set and in the order they were taken up, and
   what was dialled, in order. Only the peer and the last address dialled are in the
   coroutine; the rest is history.
   */
  datatype Wait = Wait(peer: PeerId, own: seq<Address>, offered: set<Address>, listed: seq<Address>, tried: seq<Address>)

  /** A call that returned; `owner` says it was the one that made the table's entry. */
  datatype Return = Return(owner: bool, offered: set<Address>, listed: seq<Address>, tried: seq<Address>, result: DialResult)

  datatype World = World(dialing: Dials, waiting: map<CallId, Wait>, returned: map<CallId, Return>)

  datatype Event =
    | Dial(call: CallId, peer: PeerId, addrs: seq<Address>, existing: Option<Connection>)
    | Answer(call: CallId, result: Result<Connection, int>)

  /** A transport answers with a connection or with an error of its own. */
  function Answered(r: Result<Connection, int>): DialResult {
    match r
    case Ok(c) => Ok(c)
    case Err(code) => Err(TransportFailure(code))
  }

  predicate Possible(w: World, e: Event) {
    match e
    case Dial(c, _, _, _) => c !in w.waiting && c !in w.returned
    case Answer(c, _) => c in w.waiting
  }

  /** Addresses offered for a peer reach whichever call is dialling it. */
  function Offer(waiting: map<CallId, Wait>, p: PeerId, addrs: seq<Address>): map<CallId, Wait> {
    map c | c in waiting ::
      var f := waiting[c]; if f.peer == p then Offered(f, addrs) else f
  }

  function Offered(f: Wait, addrs: seq<Address>): Wait {
    f.(offered := f.offered + Elements(addrs), listed := f.listed + Unseen(addrs, f.offered))
  }

  function Apply(best: Transports, w: World, e: Event): World
    requires Possible(w, e)
  {
    match e
    case Dial(c, p, addrs, existing) =>
      var (d, o) := DialTurn(best, w.dialing, p, addrs, existing);
      var joins := existing.None? && p in w.dialing;
      var owner := existing.None? && p !in w.dialing && addrs != [];
      var waiting := if joins then Offer(w.waiting, p, addrs) else w.waiting;
      (match o
       case Waiting(a) => World(d, waiting[c := Wait(p, addrs, Elements(addrs), addrs, [a])], w.returned)
       case Returned(r) => World(d, waiting, w.returned[c := Return(owner, Elements(addrs), addrs, [], r)]))
    case Answer(c, result) =>
      var f := w.waiting[c];
      var (d, o) := ResumeTurn(best, w.dialing, f.peer, Answered(result));
      (match o
       case Waiting(a) => World(d, w.waiting[c := f.(tried := f.tried + [a])], w.returned)
       case Returned(r) => World(d, w.waiting - {c}, w.returned[c := Return(true, f.offered, f.listed, f.tried, r)]))
  }

  ghost predicate IsRun(best: Transports, states: seq<World>, events: seq<Event>) {
    && |states| == |events| + 1
    && states[0] == World(map[], map[], map[])
    && forall i :: 0 <= i < |events| ==>
         Possible(states[i], events[i]) && states[i + 1] == Apply(best, states[i], events[i])
  }

  // ---- The invariant --------------------------------------------------------

  /** The addresses that have a transport, in order. */
  function Dialable(best: Transports, s: seq<Address>): seq<Address> {
    if s == [] then [] else Dialable(best, s[..|s| - 1]) + if best(s[|s| - 1]) then [s[|s| - 1]] else []
  }

  lemma {:induction false} DialableConcat(best: Transports, a: seq<Address>, b: seq<Address>)
    ensures Dialable(best, a + b) == Dialable(best, a) + Dialable(best, b)
  {
    if b == [] {
      assert a + b == a;
    } else {
      assert (a + b)[..|a + b| - 1] == a + b[..|b| - 1];
      DialableConcat(best, a, b[..|b| - 1]);
    }
  }

  lemma {:induction false} NoneDialable(best: Transports, s: seq<Address>)
    requires forall i :: 0 <= i < |s| ==> !best(s[i])
    ensures Dialable(best, s) == []
  {
    if s != [] { NoneDialable(best, s[..|s| - 1]); }
  }

  /** The queue is the end of the list, and of what came before it everything dialable was dialled, in order. */
  ghost predicate InOrder(best: Transports, queue: seq<Address>, f: Wait) {
    && |queue| <= |f.listed| && queue == f.listed[|f.listed| - |queue|..]
    && f.tried == Dialable(best, f.listed[..|f.listed| - |queue|])
  }

  lemma FirstOne(best: Transports, s: seq<Address>, i: nat)
    requires i < |s| && best(s[i]) && forall j :: 0 <= j < i ==> !best(s[j])
    ensures Dialable(best, s[..i + 1]) == [s[i]]
  {
    assert s[..i + 1][..i] == s[..i];
    NoneDialable(best, s[..i]);
    assert [] + [s[i]] == [s[i]];
  }

  lemma Part(s: seq<Address>, n: nat, k: nat)
    requires n + k <= |s|
    ensures s[..n + k] == s[..n] + s[n..][..k] && s[n..][k..] == s[n + k..]
  {
  }

  /** Dialling the next address keeps the order. */
  lemma OrderGoesOn(best: Transports, queue: seq<Address>, f: Wait, i: nat)
    requires InOrder(best, queue, f) && i < |queue| && best(queue[i]) && forall j :: 0 <= j < i ==> !best(queue[j])
    ensures InOrder(best, queue[i + 1..], f.(tried := f.tried + [queue[i]]))
  {
    var n := |f.listed| - |queue|;
    hide Dialable;
    Part(f.listed, n, i + 1);
    DialableConcat(best, f.listed[..n], queue[..i + 1]);
    FirstOne(best, queue, i);
  }

  lemma OrderEnds(best: Transports, queue: seq<Address>, f: Wait)
    requires InOrder(best, queue, f) && forall j :: 0 <= j < |queue| ==> !best(queue[j])
    ensures f.tried == Dialable(best, f.listed)
  {
    var n := |f.listed| - |queue|;
    hide Dialable;
    assert f.listed == f.listed[..n] + queue;
    NoneDialable(best, queue);
    DialableConcat(best, f.listed[..n], queue);
  }

  lemma OrderGrows(best: Transports, queue: seq<Address>, f: Wait, more: seq<Address>)
    requires InOrder(best, queue, f)
    ensures InOrder(best, queue + more, f.(listed := f.listed + more))
  {
    var n := |f.listed| - |queue|;
    assert (f.listed + more)[..n] == f.listed[..n];
    hide Dialable;
  }

  /** The table's entry and the call that owns it tell the same story. */
  ghost predicate Agree(best: Transports, ctx: DialCtx, f: Wait) { SameStory(best, ctx, f) && InOrder(best, ctx.queue, f) }

  ghost predicate SameStory(best: Transports, ctx: DialCtx, f: Wait) {
    && ctx.dialled && f.tried != [] && ctx.seen == f.offered
    && (forall a :: a in ctx.queue ==> a in f.offered)
    && (forall a :: a in f.tried ==> a in f.offered && best(a))
    && (forall a :: a in f.offered && best(a) ==> a in f.tried || a in ctx.queue)
    && (Distinct(f.own) ==> Distinct(f.tried + ctx.queue))
  }

  /** What a returned call may have returned, and when. */
  ghost predicate Justified(best: Transports, r: Return) {
    GoodReason(best, r) && (r.owner && r.result.Err? ==> r.tried == Dialable(best, r.listed))
  }

  ghost predicate GoodReason(best: Transports, r: Return) {
    && r.result != Err(StateInconsistency) && r.result != Err(HostUnreachable)
    && (r.result == Err(AddressFamilyNotSupported) <==> r.owner && forall a :: a in r.offered ==> !best(a))
    && (r.owner && r.result.Err? ==>
          && (r.result.error.AddressFamilyNotSupported? || r.result.error.TransportFailure?)
          && (forall a :: a in r.offered && best(a) ==> a in r.tried))
  }

  /** One suspended call, so one attempt in flight, for each entry of the table and none besides. */
  ghost predicate OneEach(w: World) {
    && (forall p :: p in w.dialing ==> exists c :: c in w.waiting && w.waiting[c].peer == p)
    && (forall c :: c in w.waiting ==> w.waiting[c].peer in w.dialing)
    && (forall c, c' :: c in w.waiting && c' in w.waiting && w.waiting[c].peer == w.waiting[c'].peer ==> c == c')
  }

  ghost predicate Coherent(best: Transports, w: World) {
    OneEach(w) && AllAgree(best, w.dialing, w.waiting) && AllJustified(best, w.returned)
  }

  ghost predicate AllAgree(best: Transports, d: Dials, waiting: map<CallId, Wait>) {
    forall c :: c in waiting ==> waiting[c].peer in d && Agree(best, d[waiting[c].peer], waiting[c])
  }

  ghost predicate AllJustified(best: Transports, returned: map<CallId, Return>) {
    forall c :: c in returned ==> Justified(best, returned[c])
  }

  // ---- One step ---------------------------------------------------------------

  lemma MergeAgrees(best: Transports, ctx: DialCtx, f: Wait, addrs: seq<Address>)
    requires Agree(best, ctx, f)
    ensures Agree(best, Merge(ctx, addrs), Offered(f, addrs))
  {
    assert ctx.seen == f.offered;
    hide SameStory, InOrder;
    MergeStory(best, ctx, f, addrs);
    OrderGrows(best, ctx.queue, f.(offered := f.offered + Elements(addrs)), Unseen(addrs, ctx.seen));
    SameOrder(best, ctx.queue, f, f.(offered := f.offered + Elements(addrs)));
  }

  lemma SameOrder(best: Transports, queue: seq<Address>, f: Wait, f': Wait)
    requires f'.listed == f.listed && f'.tried == f.tried
    ensures InOrder(best, queue, f) <==> InOrder(best, queue, f')
  {
    hide Dialable;
  }

  lemma MergeStory(best: Transports, ctx: DialCtx, f: Wait, addrs: seq<Address>)
    requires SameStory(best, ctx, f)
    ensures SameStory(best, Merge(ctx, addrs), Offered(f, addrs))
  {
    var more := Unseen(addrs, ctx.seen);
    assert forall a :: a in more <==> a in Elements(more);
    if Distinct(f.own) {
      assert f.tried + (ctx.queue + more) == (f.tried + ctx.queue) + more;
      DistinctConcat(f.tried + ctx.queue, more);
    }
  }

  /** The first turn of a new entry. */
  lemma FirstTurn(best: Transports, d: Dials, p: PeerId, addrs: seq<Address>)
    requires p !in d && addrs != []
    ensures var (d', o) := DialTurn(best, d, p, addrs, None);
            match o
            case Waiting(a) => p in d' && d' == d[p := d'[p]] && Agree(best, d'[p], Wait(p, addrs, Elements(addrs), addrs, [a]))
            case Returned(r) => d' == d && Justified(best, Return(true, Elements(addrs), addrs, [], r))
  {
    var i, f := NextDialable(best, addrs), Wait(p, addrs, Elements(addrs), addrs, []);
    hide *;
    FirstTurnIs(best, d, p, addrs, i);
    FirstStory(best, d, p, addrs);
    if i < |addrs| {
      FirstInOrder(best, addrs, f, i);
      BothAgree(best, DialTurn(best, d, p, addrs, None).0[p], f.(tried := [addrs[i]]));
    } else {
      NothingYet(best, addrs, f);
      OrderEnds(best, addrs, f);
      BothJustify(best, Return(true, Elements(addrs), addrs, [], Err(AddressFamilyNotSupported)));
    }
  }

  lemma FirstInOrder(best: Transports, addrs: seq<Address>, f: Wait, i: nat)
    requires f.listed == addrs && f.tried == [] && i < |addrs| && best(addrs[i]) && forall j :: 0 <= j < i ==> !best(addrs[j])
    ensures InOrder(best, addrs[i + 1..], f.(tried := [addrs[i]]))
  {
    hide *;
    NothingYet(best, addrs, f);
    OrderGoesOn(best, addrs, f, i);
    assert [] + [addrs[i]] == [addrs[i]];
  }

  lemma BothAgree(best: Transports, ctx: DialCtx, f: Wait)
    requires SameStory(best, ctx, f) && InOrder(best, ctx.queue, f)
    ensures Agree(best, ctx, f)
  {
  }

  lemma BothJustify(best: Transports, r: Return)
    requires GoodReason(best, r) && r.tried == Dialable(best, r.listed)
    ensures Justified(best, r)
  {
  }

  lemma FirstTurnIs(best: Transports, d: Dials, p: PeerId, addrs: seq<Address>, i: nat)
    requires p !in d && addrs != [] && i == NextDialable(best, addrs)
    ensures var (d', o) := DialTurn(best, d, p, addrs, None);
            && i <= |addrs| && (forall j :: 0 <= j < i ==> !best(addrs[j]))
            && if i < |addrs| then best(addrs[i]) && o == Waiting(addrs[i]) && p in d' && d'[p].queue == addrs[i + 1..]
               else o == Returned(Err(AddressFamilyNotSupported))
  {
  }

  lemma NothingYet(best: Transports, addrs: seq<Address>, f: Wait)
    requires f.listed == addrs && f.tried == []
    ensures InOrder(best, addrs, f)
  {
    assert addrs[..0] == [];
  }

  lemma FirstStory(best: Transports, d: Dials, p: PeerId, addrs: seq<Address>)
    requires p !in d && addrs != []
    ensures var (d', o) := DialTurn(best, d, p, addrs, None);
            match o
            case Waiting(a) => p in d' && d' == d[p := d'[p]] && SameStory(best, d'[p], Wait(p, addrs, Elements(addrs), addrs, [a]))
            case Returned(r) => d' == d && GoodReason(best, Return(true, Elements(addrs), addrs, [], r))
  {
  }

  /** A turn after a transport failed. */
  lemma NextTurn(best: Transports, d: Dials, f: Wait, code: int)
    requires f.peer in d && Agree(best, d[f.peer], f)
    ensures var (d', o) := ResumeTurn(best, d, f.peer, Err(TransportFailure(code)));
            match o
            case Waiting(a) => f.peer in d' && d' == d[f.peer := d'[f.peer]] && Agree(best, d'[f.peer], f.(tried := f.tried + [a]))
            case Returned(r) => d' == d - {f.peer} && r == Err(TransportFailure(code)) && Justified(best, Return(true, f.offered, f.listed, f.tried, r))
  {
    var queue, e := d[f.peer].queue, Err(TransportFailure(code));
    var i := NextDialable(best, queue);
    hide InOrder, Dialable;
    NextStory(best, d, f, code);
    assert ResumeTurn(best, d, f.peer, e).1.Waiting? <==> i < |queue|;
    assert i < |queue| ==> ResumeTurn(best, d, f.peer, e).1.addr == queue[i] && ResumeTurn(best, d, f.peer, e).0[f.peer].queue == queue[i + 1..];
    hide ResumeTurn, SameStory, GoodReason;
    if i < |queue| {
      OrderGoesOn(best, queue, f, i);
    } else {
      OrderEnds(best, queue, f);
    }
  }

  lemma NextStory(best: Transports, d: Dials, f: Wait, code: int)
    requires f.peer in d && SameStory(best, d[f.peer], f)
    ensures var (d', o) := ResumeTurn(best, d, f.peer, Err(TransportFailure(code)));
            match o
            case Waiting(a) => f.peer in d' && d' == d[f.peer := d'[f.peer]] && SameStory(best, d'[f.peer], f.(tried := f.tried + [a]))
            case Returned(r) => d' == d - {f.peer} && r == Err(TransportFailure(code)) && GoodReason(best, Return(true, f.offered, f.listed, f.tried, r))
  {
    var queue := d[f.peer].queue;
    var i := NextDialable(best, queue);
    assert f.tried[0] in f.tried;
    if i < |queue| {
      var rest := queue[i + 1..];
      assert queue == queue[..i] + [queue[i]] + rest;
      if Distinct(f.own) {
        Subsequence(f.tried, queue, i);
      }
    } else {
      assert forall a :: a in queue ==> !best(a);
    }
  }

  /** Dropping a few from the front of the queue leaves no repetition. */
  lemma Subsequence(tried: seq<Address>, queue: seq<Address>, i: nat)
    requires i < |queue| && Distinct(tried + queue)
    ensures Distinct(tried + [queue[i]] + queue[i + 1..])
  {
    var old', now := tried + queue, tried + [queue[i]] + queue[i + 1..];
    var n := |tried|;
    assert forall j :: 0 <= j < n ==> now[j] == old'[j];
    assert forall j :: n <= j < |now| ==> now[j] == old'[i + j];
  }

  lemma {:induction false} StepKeepsCoherent(best: Transports, w: World, e: Event)
    requires Coherent(best, w) && Possible(w, e)
    ensures Coherent(best, Apply(best, w, e))
  {
    match e
    case Dial(c, p, addrs, existing) => DialKeepsCoherent(best, w, c, p, addrs, existing);
    case Answer(c, result) => AnswerKeepsCoherent(best, w, c, result);
  }

  /** A call starts waiting, or goes on waiting for its next address. */
  lemma Waits(best: Transports, w: World, c: CallId, f: Wait, ctx: DialCtx)
    requires Coherent(best, w) && Agree(best, ctx, f)
    requires if c in w.waiting then w.waiting[c].peer == f.peer else f.peer !in w.dialing
    ensures Coherent(best, World(w.dialing[f.peer := ctx], w.waiting[c := f], w.returned))
  {
    hide Agree, Justified;
    var w' := World(w.dialing[f.peer := ctx], w.waiting[c := f], w.returned);
    forall p | p in w'.dialing ensures exists x :: x in w'.waiting && w'.waiting[x].peer == p {
      if p == f.peer {
        assert w'.waiting[c].peer == p;
      } else {
        var x :| x in w.waiting && w.waiting[x].peer == p;
        assert x in w'.waiting && w'.waiting[x].peer == p;
      }
    }
  }

  /** The owner of an entry returns and the entry goes with it. */
  lemma Ends(best: Transports, w: World, c: CallId, r: Return)
    requires Coherent(best, w) && c in w.waiting && Justified(best, r)
    ensures Coherent(best, World(w.dialing - {w.waiting[c].peer}, w.waiting - {c}, w.returned[c := r]))
  {
    hide Agree, Justified;
    var w' := World(w.dialing - {w.waiting[c].peer}, w.waiting - {c}, w.returned[c := r]);
    forall p | p in w'.dialing ensures exists x :: x in w'.waiting && w'.waiting[x].peer == p {
      var x :| x in w.waiting && w.waiting[x].peer == p;
      assert x in w'.waiting && w'.waiting[x].peer == p;
    }
  }

  /** A call returns at once and leaves the table alone. */
  lemma Leaves(best: Transports, w: World, c: CallId, r: Return)
    requires Coherent(best, w) && Justified(best, r)
    ensures Coherent(best, World(w.dialing, w.waiting, w.returned[c := r]))
  {
    hide Agree, Justified;
  }

  /** A call for a peer under way hands its addresses over. */
  lemma Joins(best: Transports, w: World, p: PeerId, addrs: seq<Address>)
    requires Coherent(best, w) && p in w.dialing
    ensures Coherent(best, World(w.dialing[p := Merge(w.dialing[p], addrs)], Offer(w.waiting, p, addrs), w.returned))
  {
    var d', offered := w.dialing[p := Merge(w.dialing[p], addrs)], Offer(w.waiting, p, addrs);
    SamePeers(w.waiting, p, addrs);
    hide Agree, Merge, Justified, AllAgree, AllJustified, Offer;
    OffersAgree(best, w.dialing, w.waiting, p, addrs);
    SameOwners(w, d', offered);
    hide OneEach;
  }

  lemma SamePeers(waiting: map<CallId, Wait>, p: PeerId, addrs: seq<Address>)
    ensures Offer(waiting, p, addrs).Keys == waiting.Keys
    ensures forall c :: c in waiting ==> Offer(waiting, p, addrs)[c].peer == waiting[c].peer
  {
  }

  lemma OffersAgree(best: Transports, d: Dials, waiting: map<CallId, Wait>, p: PeerId, addrs: seq<Address>)
    requires p in d && AllAgree(best, d, waiting)
    ensures AllAgree(best, d[p := Merge(d[p], addrs)], Offer(waiting, p, addrs))
  {
    hide Agree, Merge;
    forall c | c in waiting
      ensures var f, d' := Offer(waiting, p, addrs)[c], d[p := Merge(d[p], addrs)];
              f.peer in d' && Agree(best, d'[f.peer], f)
    {
      TableAgrees(best, d, waiting[c], p, addrs);
    }
  }

  lemma TableAgrees(best: Transports, d: Dials, f: Wait, p: PeerId, addrs: seq<Address>)
    requires p in d && f.peer in d && Agree(best, d[f.peer], f)
    ensures var f' := if f.peer == p then Offered(f, addrs) else f;
            Agree(best, d[p := Merge(d[p], addrs)][f.peer], f')
  {
    hide Agree, Merge;
    if f.peer == p {
      MergeAgrees(best, d[p], f, addrs);
    }
  }

  lemma SameOwners(w: World, d': Dials, waiting': map<CallId, Wait>)
    requires OneEach(w) && d'.Keys == w.dialing.Keys && waiting'.Keys == w.waiting.Keys
    requires forall c :: c in waiting' ==> waiting'[c].peer == w.waiting[c].peer
    ensures OneEach(World(d', waiting', w.returned))
  {
  }

  lemma DialKeepsCoherent(best: Transports, w: World, c: CallId, p: PeerId, addrs: seq<Address>, existing: Option<Connection>)
    requires Coherent(best, w) && c !in w.waiting && c !in w.returned
    ensures Coherent(best, Apply(best, w, Dial(c, p, addrs, existing)))
  {
    hide Coherent, Merge, Offer, Agree, Justified, Turn;
    var (d, o) := DialTurn(best, w.dialing, p, addrs, existing);
    if existing.None? && p in w.dialing {
      Joins(best, w, p, addrs);
      Answerless(best, addrs, Err(AnotherDialInProgress));
      var w' := World(d, Offer(w.waiting, p, addrs), w.returned);
      Leaves(best, w', c, Return(false, Elements(addrs), addrs, [], Err(AnotherDialInProgress)));
    } else if existing.None? && addrs != [] {
      FirstTurn(best, w.dialing, p, addrs);
      hide DialTurn;
      match o
      case Waiting(a) => Waits(best, w, c, Wait(p, addrs, Elements(addrs), addrs, [a]), d[p]);
      case Returned(r) => Leaves(best, w, c, Return(true, Elements(addrs), addrs, [], r));
    } else {
      Answerless(best, addrs, o.result);
      Leaves(best, w, c, Return(false, Elements(addrs), addrs, [], o.result));
    }
  }

  /** A call that owns no entry has no answer of a transport to give an account of. */
  lemma Answerless(best: Transports, addrs: seq<Address>, r: DialResult)
    requires r.Ok? || r.error.AnotherDialInProgress? || r.error.NoDestinationAddress?
    ensures Justified(best, Return(false, Elements(addrs), addrs, [], r))
  {
  }

  lemma AnswerKeepsCoherent(best: Transports, w: World, c: CallId, result: Result<Connection, int>)
    requires Coherent(best, w) && c in w.waiting
    ensures Coherent(best, Apply(best, w, Answer(c, result)))
  {
    hide Coherent, Justified, Turn;
    var f := w.waiting[c];
    match result
    case Ok(conn) =>
      AnyConnection(best, w, c, conn);
      Ends(best, w, c, Return(true, f.offered, f.listed, f.tried, Ok(conn)));
    case Err(code) =>
      hide ResumeTurn;
      FailureKeepsCoherent(best, w, c, code);
  }

  lemma FailureKeepsCoherent(best: Transports, w: World, c: CallId, code: int)
    requires Coherent(best, w) && c in w.waiting
    ensures Coherent(best, Apply(best, w, Answer(c, Err(code))))
  {
    var f := w.waiting[c];
    hide OneEach, AllJustified, Agree, Justified, ResumeTurn;
    assert Agree(best, w.dialing[f.peer], f);
    hide Coherent;
    NextTurn(best, w.dialing, f, code);
    var (d, o) := ResumeTurn(best, w.dialing, f.peer, Err(TransportFailure(code)));
    match o
    case Waiting(a) => Waits(best, w, c, f.(tried := f.tried + [a]), d[f.peer]);
    case Returned(r) => Ends(best, w, c, Return(true, f.offered, f.listed, f.tried, r));
  }

  lemma AnyConnection(best: Transports, w: World, c: CallId, conn: Connection)
    requires Coherent(best, w) && c in w.waiting
    ensures var f := w.waiting[c];
            f.peer in w.dialing && Justified(best, Return(true, f.offered, f.listed, f.tried, Ok(conn)))
  {
    var f := w.waiting[c];
    hide OneEach, AllJustified, Agree, Justified;
    assert Agree(best, w.dialing[f.peer], f);
    hide Coherent;
    ConnectionNeedsNoReason(best, w.dialing[f.peer], f, conn);
  }

  lemma ConnectionNeedsNoReason(best: Transports, ctx: DialCtx, f: Wait, conn: Connection)
    requires Agree(best, ctx, f)
    ensures Justified(best, Return(true, f.offered, f.listed, f.tried, Ok(conn)))
  {
    hide InOrder;
    assert f.tried[0] in f.tried;
  }

  // ---- Whole runs -------------------------------------------------------------

  lemma {:induction false} EveryRunCoherent(best: Transports, states: seq<World>, events: seq<Event>, k: nat)
    requires IsRun(best, states, events) && k < |states|
    ensures Coherent(best, states[k])
  {
    if k > 0 {
      EveryRunCoherent(best, states, events, k - 1);
      StepKeepsCoherent(best, states[k - 1], events[k - 1]);
    }
  }

  /** When the owner of an entry returns, it returns its transport's last answer and the entry is gone. */
  lemma OwnerTakesEntryAlong(best: Transports, states: seq<World>, events: seq<Event>, k: nat)
    requires IsRun(best, states, events) && k < |events| && events[k].Answer?
    ensures var c := events[k].call;
            c in states[k + 1].returned ==>
              && states[k].waiting[c].peer !in states[k + 1].dialing
              && states[k + 1].returned[c].result == Answered(events[k].result)
  {
    EveryRunCoherent(best, states, events, k);
    var w, c := states[k], events[k].call;
    WaitingHasNotReturned(best, states, events, k, c);
    if events[k].result.Err? {
      NextTurn(best, w.dialing, w.waiting[c], events[k].result.error);
    }
  }

  lemma {:induction false} WaitingHasNotReturned(best: Transports, states: seq<World>, events: seq<Event>, k: nat, c: CallId)
    requires IsRun(best, states, events) && k < |states| && c in states[k].waiting
    ensures c !in states[k].returned
  {
    if k > 0 {
      assert states[k] == Apply(best, states[k - 1], events[k - 1]);
      if c in states[k - 1].waiting {
        WaitingHasNotReturned(best, states, events, k - 1, c);
      }
    }
  }

  /** A caller who names no address twice has none dialled twice, whatever others add meanwhile. */
  lemma NoAddressTwice(best: Transports, states: seq<World>, events: seq<Event>, k: nat, c: CallId)
    requires IsRun(best, states, events) && k < |states| && c in states[k].waiting
    requires Distinct(states[k].waiting[c].own)
    ensures var f := states[k].waiting[c]; Distinct(f.tried) && |f.tried| <= |f.offered|
  {
    EveryRunCoherent(best, states, events, k);
    var f := states[k].waiting[c];
    var all := f.tried + states[k].dialing[f.peer].queue;
    assert forall i :: 0 <= i < |f.tried| ==> f.tried[i] == all[i];
    DistinctSize(f.tried);
    SubsetSize(Elements(f.tried), f.offered);
  }

  /**
   Addresses are dialled in the order they were taken up, the caller's own first and then those of
   later callers; those without a transport are passed over and no other.
   */
  lemma DialledInOrder(best: Transports, states: seq<World>, events: seq<Event>, k: nat, c: CallId)
    requires IsRun(best, states, events) && k < |states| && c in states[k].waiting
    ensures var f := states[k].waiting[c];
            exists n :: 0 < n <= |f.listed| && f.tried == Dialable(best, f.listed[..n])
    ensures states[k].waiting[c].own <= states[k].waiting[c].listed
  {
    EveryRunCoherent(best, states, events, k);
    var f := states[k].waiting[c];
    var n := |f.listed| - |states[k].dialing[f.peer].queue|;
    assert f.tried == Dialable(best, f.listed[..n]) && f.tried != [];
    OwnFirst(best, states, events, k, c);
    hide IsRun, Coherent;
  }

  lemma {:induction false} OwnFirst(best: Transports, states: seq<World>, events: seq<Event>, k: nat, c: CallId)
    requires IsRun(best, states, events) && k < |states| && c in states[k].waiting
    ensures states[k].waiting[c].own <= states[k].waiting[c].listed
  {
    if k > 0 {
      assert states[k] == Apply(best, states[k - 1], events[k - 1]);
      if c in states[k - 1].waiting {
        OwnFirst(best, states, events, k - 1, c);
      }
    }
  }

  /** What a call to `dial` comes to at once, by what is known of the peer and of the addresses. */
  lemma DialAnswers(best: Transports, w: World, c: CallId, p: PeerId, addrs: seq<Address>, existing: Option<Connection>)
    requires c !in w.waiting && c !in w.returned
    ensures var w' := Apply(best, w, Dial(c, p, addrs, existing));
            && (existing.Some? ==>
                  c in w'.returned && w'.returned[c].result == Ok(existing.value) && w'.dialing == w.dialing)
            && (existing.None? && p in w.dialing ==>
                  && c in w'.returned && w'.returned[c].result == Err(AnotherDialInProgress)
                  && forall a :: a in addrs && a !in w.dialing[p].seen ==> p in w'.dialing && a in w'.dialing[p].queue)
            && (existing.None? && p !in w.dialing && addrs == [] ==>
                  c in w'.returned && w'.returned[c].result == Err(NoDestinationAddress) && w'.dialing == w.dialing)
            && (existing.None? && p !in w.dialing && addrs != [] && Dialable(best, addrs) == [] ==>
                  c in w'.returned && w'.returned[c].result == Err(AddressFamilyNotSupported) && w'.dialing == w.dialing)
            && (existing.None? && p !in w.dialing && Dialable(best, addrs) != [] ==>
                  c in w'.waiting && w'.waiting[c].peer == p && w'.waiting[c].tried == [Dialable(best, addrs)[0]] && p in w'.dialing)
  {
    if existing.None? && p in w.dialing {
      var more := Unseen(addrs, w.dialing[p].seen);
      forall a | a in addrs && a !in w.dialing[p].seen ensures a in more {
        assert a in Elements(addrs) && a in Elements(more);
      }
    } else if existing.None? && addrs != [] {
      FirstDialable(best, addrs);
      FirstTurn(best, w.dialing, p, addrs);
      hide Agree, Justified, Dialable;
    }
  }

  lemma FirstDialable(best: Transports, addrs: seq<Address>)
    ensures var i := NextDialable(best, addrs);
            if i < |addrs| then Dialable(best, addrs) != [] && Dialable(best, addrs)[0] == addrs[i]
            else Dialable(best, addrs) == []
  {
    var i := NextDialable(best, addrs);
    hide Dialable;
    if i < |addrs| {
      assert addrs == addrs[..i + 1] + addrs[i + 1..];
      FirstOne(best, addrs, i);
      DialableConcat(best, addrs[..i + 1], addrs[i + 1..]);
    } else {
      NoneDialable(best, addrs);
    }
  }
}
