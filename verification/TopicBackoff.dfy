/**
 `TopicBackoff`: a ring of slots, each listing the peers whose backoff ends
 there, beside a map from peer to the slot number it waits for. It is proved to
 behave as the plain countdown the rest of the model uses.
 */
module TopicBackoffRing {
  import opened Common
  import opened Positional
  import opened GossipState

  /** Two slot numbers within one turn of the ring share a slot only if they are equal. */
  lemma OneTurn(lo: nat, x: nat, y: nat, n: nat)
    requires n > 0 && lo <= x < lo + n && lo <= y < lo + n && SlotIndex(x, n) == SlotIndex(y, n)
    ensures x == y
  {
    assert x == x / n * n + x % n && y == y / n * n + y % n;
    assert (x / n - y / n) * n == x / n * n - y / n * n;
    SmallMultiple(x / n - y / n, n);
  }

  /** The slot of the ring that a slot number falls in. */
  function SlotIndex(h: nat, n: nat): (i: nat)
    requires n > 0
    ensures i < n
  {
    h % n
  }

  /** `list.erase(iterator)`; the stored iterator points at the peer itself. */
  function Erase(s: seq<PeerRef>, p: PeerRef): (s': seq<PeerRef>)
    requires Distinct(s)
    ensures Distinct(s') && forall q :: q in s' <==> q in s && q != p
  {
    if s == [] then []
    else
      assert s == [s[0]] + s[1..] && s[0] !in s[1..] && Distinct(s[1..]);
      if s[0] == p then s[1..] else [s[0]] + Erase(s[1..], p)
  }

  /** The loop that forgets the peers of one slot. */
  method Release(peers: map<PeerRef, nat>, expired: seq<PeerRef>) returns (left: map<PeerRef, nat>)
    ensures left == map p | p in peers && p !in expired :: peers[p]
  {
    left := peers;
    var k := 0;
    while k < |expired|
      invariant k <= |expired| && left == map p | p in peers && p !in expired[..k] :: peers[p]
    {
      assert expired[..k + 1] == expired[..k] + [expired[k]];
      left := left - {expired[k]};
      k := k + 1;
    }
    assert expired[..k] == expired;
  }

  datatype Call = Update(p: PeerRef, slots: nat) | Shift

  /** The countdown after a sequence of calls, on a ring of `limit + 1` slots. */
  function Counted(calls: seq<Call>, limit: nat): Countdown {
    if calls == [] then map[]
    else
      var m := Counted(calls[..|calls| - 1], limit);
      match calls[|calls| - 1]
      case Update(p, slots) => Extend(m, p, slots, limit)
      case Shift => Tick(m)
  }

  class TopicBackoff {
    const slots: array<seq<PeerRef>>
    var slot: nat
    var peers: map<PeerRef, nat>

    /** Every tracked peer sits in exactly one slot, the one its horizon selects. */
    ghost predicate Valid()
      reads this, slots
    {
      && slots.Length > 0
      && (forall p :: p in peers ==> slot <= peers[p] < slot + slots.Length)
      && (forall i :: 0 <= i < slots.Length ==> Distinct(slots[i]))
      && (forall i, p :: 0 <= i < slots.Length ==>
            (p in slots[i] <==> p in peers && SlotIndex(peers[p], slots.Length) == i))
    }

    /** The ring and a countdown give every peer the same number of slots. */
    ghost predicate Represents(m: Countdown)
      reads this
    {
      forall p :: Remaining(p) == Count(m, p)
    }

    function Remaining(p: PeerRef): nat
      reads this
    {
      if p in peers then Monus(peers[p], slot) else 0
    }

    constructor (c: Config)
      requires c.Usable()
      ensures Valid() && slots.Length == c.PruneSlots() + 1 && Represents(map[]) && fresh(slots)
    {
      slots := new seq<PeerRef>[c.PruneSlots() + 1](_ => []);
      slot, peers := 0, map[];
    }

    method Get(p: PeerRef, ghost m: Countdown) returns (n: nat)
      requires Represents(m)
      ensures n == Count(m, p)
    {
      assert Remaining(p) == Count(m, p);
      if p !in peers { return 0; }
      n := Monus(peers[p], slot);
    }

    method Update(p: PeerRef, count: nat, ghost m: Countdown)
      requires Valid() && Represents(m)
      modifies this`peers, slots
      ensures Valid() && Represents(Extend(m, p, count, slots.Length - 1))
    {
      if count == 0 { return; }
      var target := slot + Min(count, slots.Length - 1);
      assert Count(m, p) == Remaining(p);
      if p in peers && target <= peers[p] { return; }
      ghost var before := peers;
      Place(p, target);
      assert forall q :: q != p ==> Remaining(q) == (if q in before then Monus(before[q], slot) else 0) == Count(m, q);
      assert Remaining(p) == target - slot;
    }

    /** Move a peer from the slot it may be in to the one of its new horizon. */
    method Place(p: PeerRef, target: nat)
      requires Valid() && slot <= target < slot + slots.Length
      modifies this`peers, slots
      ensures Valid() && peers == old(peers)[p := target]
    {
      hide SlotIndex;
      if p in peers {
        var i := SlotIndex(peers[p], slots.Length);
        slots[i] := Erase(slots[i], p);
      }
      assert forall k, q :: 0 <= k < slots.Length ==>
               (q in slots[k] <==> q != p && q in peers && SlotIndex(peers[q], slots.Length) == k);
      var j := SlotIndex(target, slots.Length);
      slots[j] := slots[j] + [p];
      peers := peers[p := target];
    }

    method Shift(ghost m: Countdown)
      requires Valid() && Represents(m)
      modifies this, slots
      ensures Valid() && Represents(Tick(m)) && slot == old(slot) + 1
    {
      hide SlotIndex;
      var i := SlotIndex(slot, slots.Length);
      forall p | p in peers && SlotIndex(peers[p], slots.Length) == i ensures peers[p] == slot {
        OneTurn(slot, peers[p], slot, slots.Length);
      }
      ghost var released := slots[i];
      assert forall p :: p in released <==> p in peers && SlotIndex(peers[p], slots.Length) == i;
      peers := Release(peers, slots[i]);
      assert forall p :: p in peers ==> SlotIndex(peers[p], slots.Length) != i && peers[p] > slot;
      slots[i] := [];
      slot := slot + 1;
      assert Valid();
      forall p ensures Remaining(p) == Count(Tick(m), p) {
        assert Count(m, p) == old(Remaining(p));
      }
    }

    /** Any sequence of calls leaves the ring agreeing with the countdown. */
    method Replay(calls: seq<Call>)
      requires Valid() && Represents(map[])
      modifies this, slots
      ensures Valid() && Represents(Counted(calls, slots.Length - 1))
    {
      var i := 0;
      while i < |calls|
        invariant i <= |calls| && Valid() && Represents(Counted(calls[..i], slots.Length - 1))
      {
        ghost var m := Counted(calls[..i], slots.Length - 1);
        assert calls[..i + 1][..i] == calls[..i];
        match calls[i] {
          case Update(p, count) => Update(p, count, m);
          case Shift => Shift(m);
        }
        i := i + 1;
      }
      assert calls[..i] == calls;
    }
  }
}
