/**
 `Dialer`: coroutines that share one table of peers being dialled. Between two
 suspension points a coroutine runs alone, so a run is any interleaving of
 calls to `dial` and of transports answering.
 */
module DialerState {
  import opened Common

  type PeerId = nat
  type Address = nat
  type Connection = nat

  /** Whether the transport manager finds a transport for an address. */
  type Transports = Address -> bool

  datatype Error =
    | AnotherDialInProgress
    | StateInconsistency
    | NoDestinationAddress
    | AddressFamilyNotSupported
    | HostUnreachable
    | TransportFailure(code: int)

  type DialResult = Result<Connection, Error>

  datatype DialCtx = DialCtx(queue: seq<Address>, seen: set<Address>, result: Option<DialResult>, dialled: bool)

  type Dials = map<PeerId, DialCtx>

  /** What a coroutine does next: wait for a transport, or return. */
  datatype Outcome = Waiting(addr: Address) | Returned(result: DialResult)

  /** The first address that can be dialled at all. */
  function NextDialable(best: Transports, queue: seq<Address>): (i: nat)
    ensures i <= |queue| && (i < |queue| ==> best(queue[i]))
    ensures forall j :: 0 <= j < i ==> !best(queue[j])
  {
    if queue == [] || best(queue[0]) then 0 else NextDialable(best, queue[1..]) + 1
  }

  /** What an exhausted attempt comes to. */
  function Verdict(ctx: DialCtx): DialResult {
    if !ctx.dialled then Err(AddressFamilyNotSupported)
    else if ctx.result.Some? then ctx.result.value
    else Err(HostUnreachable)
  }

  /** `rotate` up to its next suspension or its return. */
  function Turn(best: Transports, d: Dials, p: PeerId): (Dials, Outcome) {
    if p !in d then (d, Returned(Err(StateInconsistency)))
    else
      var ctx := d[p];
      var i := NextDialable(best, ctx.queue);
      if i < |ctx.queue| then
        (d[p := ctx.(queue := ctx.queue[i + 1..], dialled := true)], Waiting(ctx.queue[i]))
      else (d - {p}, Returned(Verdict(ctx)))
  }

  /** An address without a transport is passed over. */
  lemma TurnSkips(best: Transports, d: Dials, p: PeerId)
    requires p in d && d[p].queue != [] && !best(d[p].queue[0])
    ensures Turn(best, d, p) == Turn(best, d[p := d[p].(queue := d[p].queue[1..])], p)
  {
    var ctx := d[p];
    var i := NextDialable(best, ctx.queue[1..]);
    var d1 := d[p := ctx.(queue := ctx.queue[1..])];
    if i < |ctx.queue[1..]| {
      assert ctx.queue[1..][i + 1..] == ctx.queue[i + 2..];
      var last := ctx.(queue := ctx.queue[i + 2..], dialled := true);
      assert d1[p := last] == d[p := last];
    } else {
      assert d1 - {p} == d - {p};
    }
  }

  lemma DistinctConcat(a: seq<Address>, b: seq<Address>)
    requires Distinct(a) && Distinct(b) && forall x :: x in a ==> x !in b
    ensures Distinct(a + b)
  {
    var s, n := a + b, |a|;
    forall i, j | 0 <= i < j < |s| ensures s[i] != s[j] {
      assert i < n ==> s[i] in a;
      assert j >= n ==> s[j] in b;
      assert i >= n ==> s[i] == b[i - n];
    }
  }

  /** The addresses not met before, each once, in the order given. */
  function Unseen(addrs: seq<Address>, seen: set<Address>): (fresh': seq<Address>)
    ensures Distinct(fresh') && Elements(fresh') == Elements(addrs) - seen
  {
    if addrs == [] then []
    else
      var init, last := addrs[..|addrs| - 1], addrs[|addrs| - 1];
      var s := Unseen(init, seen);
      assert addrs == init + [last];
      assert forall a :: a in s <==> a in Elements(s);
      if last in seen || last in init then s else DistinctConcat(s, [last]); s + [last]
  }

  function Merge(ctx: DialCtx, addrs: seq<Address>): DialCtx {
    ctx.(queue := ctx.queue + Unseen(addrs, ctx.seen), seen := ctx.seen + Elements(addrs))
  }

  function DialTurn(best: Transports, d: Dials, p: PeerId, addrs: seq<Address>, existing: Option<Connection>)
    : (Dials, Outcome)
  {
    if existing.Some? then (d, Returned(Ok(existing.value)))
    else if p in d then (d[p := Merge(d[p], addrs)], Returned(Err(AnotherDialInProgress)))
    else if addrs == [] then (d, Returned(Err(NoDestinationAddress)))
    else Turn(best, d[p := DialCtx(addrs, Elements(addrs), None, false)], p)
  }

  /** `rotate` from the point where a transport answered. */
  function ResumeTurn(best: Transports, d: Dials, p: PeerId, result: DialResult): (Dials, Outcome) {
    if p !in d then (d, Returned(Err(StateInconsistency)))
    else if result.Ok? then (d - {p}, Returned(result))
    else Turn(best, d[p := d[p].(result := Some(result))], p)
  }

  class Dialer {
    const best: Transports
    var dialing: Dials

    constructor (best: Transports)
      ensures this.best == best && dialing == map[]
    {
      this.best := best;
      dialing := map[];
    }

    method CompleteDial(p: PeerId)
      modifies this
      ensures dialing == old(dialing) - {p}
    {
      if p in dialing {
        dialing := dialing - {p};
      }
    }

    /** Further addresses for a dial under way. */
    method Populate(p: PeerId, addrs: seq<Address>)
      requires p in dialing
      modifies this
      ensures dialing == old(dialing)[p := Merge(old(dialing)[p], addrs)]
    {
      ghost var ctx0 := dialing[p];
      var i := 0;
      assert Merge(ctx0, []) == ctx0;
      while i < |addrs|
        invariant i <= |addrs| && p in dialing && dialing == old(dialing)[p := Merge(ctx0, addrs[..i])]
      {
        var ctx := dialing[p];
        assert addrs[..i + 1][..i] == addrs[..i];
        if addrs[i] !in ctx.seen {
          ctx := ctx.(seen := ctx.seen + {addrs[i]}, queue := ctx.queue + [addrs[i]]);
        }
        assert ctx == Merge(ctx0, addrs[..i + 1]);
        dialing := dialing[p := ctx];
        i := i + 1;
      }
      assert addrs[..i] == addrs;
    }

    method Dial(p: PeerId, addrs: seq<Address>, existing: Option<Connection>) returns (o: Outcome)
      modifies this
      ensures (dialing, o) == DialTurn(best, old(dialing), p, addrs, existing)
    {
      if existing.Some? {
        o := Returned(Ok(existing.value));
      } else if p in dialing {
        Populate(p, addrs);
        o := Returned(Err(AnotherDialInProgress));
      } else if addrs == [] {
        o := Returned(Err(NoDestinationAddress));
      } else {
        dialing := dialing[p := DialCtx(addrs, Elements(addrs), None, false)];
        o := Rotate(p);
      }
    }

    method Rotate(p: PeerId) returns (o: Outcome)
      modifies this
      ensures (dialing, o) == Turn(best, old(dialing), p)
      decreases if p in dialing then |dialing[p].queue| else 0
    {
      if p !in dialing {
        return Returned(Err(StateInconsistency));
      }
      var ctx := dialing[p];
      if ctx.queue == [] {
        if !ctx.dialled {
          CompleteDial(p);
          return Returned(Err(AddressFamilyNotSupported));
        }
        if ctx.result.Some? {
          CompleteDial(p);
          return Returned(ctx.result.value);
        }
        CompleteDial(p);
        return Returned(Err(HostUnreachable));
      }
      var addr := ctx.queue[0];
      dialing := dialing[p := ctx.(queue := ctx.queue[1..])];
      if best(addr) {
        dialing := dialing[p := dialing[p].(dialled := true)];
        assert dialing == old(dialing)[p := ctx.(queue := ctx.queue[0 + 1..], dialled := true)];
        return Waiting(addr);
      } else {
        TurnSkips(best, old(dialing), p);
        o := Rotate(p);
      }
    }

    method Resume(p: PeerId, result: DialResult) returns (o: Outcome)
      modifies this
      ensures (dialing, o) == ResumeTurn(best, old(dialing), p, result)
    {
      if p !in dialing {
        return Returned(Err(StateInconsistency));
      }
      if result.Ok? {
        CompleteDial(p);
        return Returned(result);
      }
      dialing := dialing[p := dialing[p].(result := Some(result))];
      o := Rotate(p);
    }
  }
}
