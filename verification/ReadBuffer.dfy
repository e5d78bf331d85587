/** `ReadBuffer`: a byte queue kept in fragments, proved to be a FIFO. */
module ReadBuffers {
  import opened Common

  /** A `std::vector`: its bytes and however much it has allocated. */
  datatype Fragment = Fragment(data: seq<u8>, capacity: nat)

  function Flat(fs: seq<Fragment>): seq<u8> {
    if fs == [] then [] else fs[0].data + Flat(fs[1..])
  }

  lemma {:induction false} FlatSnoc(fs: seq<Fragment>, f: Fragment)
    ensures Flat(fs + [f]) == Flat(fs) + f.data
  {
    if fs == [] {
      assert fs + [f] == [f];
      assert Flat([f]) == f.data + Flat([]);
    } else {
      assert (fs + [f])[1..] == fs[1..] + [f];
      FlatSnoc(fs[1..], f);
    }
  }

  ghost predicate AllFilled(fs: seq<Fragment>) {
    forall i :: 0 <= i < |fs| ==> fs[i].data != [] && fs[i].capacity >= |fs[i].data|
  }

  /** The bytes held: everything after the part of the first fragment already taken. */
  function Queue(fs: seq<Fragment>, offset: nat): seq<u8> {
    if offset <= |Flat(fs)| then Flat(fs)[offset..] else []
  }

  /** With bytes to give, every fragment holds some, the first one beyond its offset. */
  ghost predicate Loaded(fs: seq<Fragment>, offset: nat) {
    fs != [] && AllFilled(fs) && offset < |fs[0].data|
  }

  /** Without bytes there is at most one fragment, kept empty for its room. */
  ghost predicate Shape(fs: seq<Fragment>, offset: nat, total: nat, capacity: nat) {
    && total == |Queue(fs, offset)|
    && (fs == [] ==> capacity == 0)
    && (total == 0 ==> offset == 0 && (fs != [] ==> |fs| == 1 && fs[0].data == [] && capacity > 0))
    && (total > 0 ==> Loaded(fs, offset))
  }

  lemma StillLoaded(fs: seq<Fragment>, offset: nat, capacity: nat)
    requires Loaded(fs, offset)
    ensures Shape(fs, offset, |Queue(fs, offset)|, capacity)
  {
  }

  lemma LoadedRoom(fs: seq<Fragment>, offset: nat)
    requires Loaded(fs, offset)
    ensures offset < |Flat(fs)| && Queue(fs, offset) == fs[0].data[offset..] + Flat(fs[1..])
  {
  }

  /** Bytes appended to the fragments come after the ones already there. */
  lemma QueueGrows(fs: seq<Fragment>, fs': seq<Fragment>, offset: nat, total: nat, capacity: nat, bytes: seq<u8>, capacity': nat)
    requires Shape(fs, offset, total, capacity) && bytes != [] && Flat(fs') == Flat(fs) + bytes
    requires fs' != [] && AllFilled(fs') && (fs != [] ==> |fs[0].data| <= |fs'[0].data|)
    ensures Shape(fs', offset, total + |bytes|, capacity') && Queue(fs', offset) == Queue(fs, offset) + bytes
  {
    if total > 0 { LoadedRoom(fs, offset); } else if fs == [] { assert Flat(fs) == []; }
    assert offset <= |Flat(fs)|;
    DropConcat(Flat(fs), bytes, offset);
    hide Flat;
  }

  lemma DropConcat(s: seq<u8>, t: seq<u8>, i: nat)
    requires i <= |s|
    ensures (s + t)[i..] == s[i..] + t
  {
  }

  /** Append to the last fragment; `room` is whatever the vector's growth policy yields. */
  function Grow(fs: seq<Fragment>, bytes: seq<u8>, room: nat): seq<Fragment>
    requires fs != []
  {
    var data := fs[|fs| - 1].data + bytes;
    fs[..|fs| - 1] + [Fragment(data, Max(room, |data|))]
  }

  lemma GrowFacts(fs: seq<Fragment>, bytes: seq<u8>, room: nat)
    requires fs != [] && bytes != [] && AllFilled(fs[..|fs| - 1])
    ensures Flat(Grow(fs, bytes, room)) == Flat(fs) + bytes
    ensures AllFilled(Grow(fs, bytes, room)) && |fs[0].data| <= |Grow(fs, bytes, room)[0].data|
  {
    var init, last := fs[..|fs| - 1], fs[|fs| - 1];
    var grown := Grow(fs, bytes, room);
    assert fs == init + [last] && grown == init + [grown[|fs| - 1]];
    FlatSnoc(init, last);
    FlatSnoc(init, grown[|fs| - 1]);
    assert Flat(init) + (last.data + bytes) == Flat(init) + last.data + bytes;
  }

  lemma GrowOk(fs: seq<Fragment>, offset: nat, total: nat, capacity: nat, bytes: seq<u8>, room: nat, capacity': nat)
    requires Shape(fs, offset, total, capacity) && fs != [] && bytes != []
    ensures Shape(Grow(fs, bytes, room), offset, total + |bytes|, capacity')
    ensures Queue(Grow(fs, bytes, room), offset) == Queue(fs, offset) + bytes
  {
    GrowFacts(fs, bytes, room);
    QueueGrows(fs, Grow(fs, bytes, room), offset, total, capacity, bytes, capacity');
    hide Flat, Queue, Shape;
  }

  lemma PushOk(fs: seq<Fragment>, offset: nat, total: nat, capacity: nat, bytes: seq<u8>, room: nat, capacity': nat)
    requires Shape(fs, offset, total, capacity) && capacity == 0 && bytes != [] && room >= |bytes|
    ensures Shape(fs + [Fragment(bytes, room)], offset, total + |bytes|, capacity')
    ensures Queue(fs + [Fragment(bytes, room)], offset) == Queue(fs, offset) + bytes
  {
    FlatSnoc(fs, Fragment(bytes, room));
    QueueGrows(fs, fs + [Fragment(bytes, room)], offset, total, capacity, bytes, capacity');
    hide Flat, Queue, Shape;
  }

  // ---- The queue that the buffer has to be ----------------------------------

  /** One step of a client of the buffer. */
  datatype Op = Add(bytes: seq<u8>) | Consume(n: nat) | AddAndConsume(bytes: seq<u8>, n: nat) | Clear

  /** A queue of bytes, and all that was taken from it. */
  datatype Fifo = Fifo(queue: seq<u8>, taken: seq<u8>)

  function Given(op: Op): seq<u8> {
    if op.Add? || op.AddAndConsume? then op.bytes else []
  }

  function Wanted(op: Op): nat {
    if op.Consume? || op.AddAndConsume? then op.n else 0
  }

  function FifoStep(f: Fifo, op: Op): Fifo {
    var all := f.queue + Given(op);
    var k := Min(Wanted(op), |all|);
    Fifo(if op.Clear? then [] else all[k..], f.taken + all[..k])
  }

  function FifoRun(f: Fifo, ops: seq<Op>): Fifo {
    if ops == [] then f else FifoStep(FifoRun(f, ops[..|ops| - 1]), ops[|ops| - 1])
  }

  function Input(ops: seq<Op>): seq<u8> {
    if ops == [] then [] else Input(ops[..|ops| - 1]) + Given(ops[|ops| - 1])
  }

  /** Until it is cleared, what went in is what came out followed by what is still there. */
  lemma {:induction false} NothingLost(f: Fifo, ops: seq<Op>)
    requires Clear !in ops
    ensures var r := FifoRun(f, ops); r.taken + r.queue == f.taken + f.queue + Input(ops)
  {
    if ops != [] {
      var init, op := ops[..|ops| - 1], ops[|ops| - 1];
      NothingLost(f, init);
      var mid := FifoRun(f, init);
      var all := mid.queue + Given(op);
      var k := Min(Wanted(op), |all|);
      Moved(mid.taken, all, k);
      assert op != Clear;
      Regroup(mid.taken, mid.queue, Given(op));
      Regroup(f.taken + f.queue, Input(init), Given(op));
    }
  }

  class ReadBuffer {
    const granularity: nat
    var totalSize: nat
    var firstOffset: nat
    var capacityRemains: nat
    var fragments: seq<Fragment>

    ghost function Contents(): seq<u8>
      reads this
    {
      Queue(fragments, firstOffset)
    }

    ghost predicate Valid()
      reads this
    {
      Shape(fragments, firstOffset, totalSize, capacityRemains)
    }

    constructor (granularity: nat)
      requires granularity > 0
      ensures Valid() && Contents() == []
    {
      this.granularity := granularity;
      totalSize, firstOffset, capacityRemains, fragments := 0, 0, 0, [];
    }

    method Add(bytes: seq<u8>, room: nat)
      requires Valid()
      modifies this
      ensures Valid() && Contents() == old(Contents()) + bytes
    {
      var sz := |bytes|;
      if sz == 0 {
        assert Contents() + bytes == Contents();
        return;
      }
      if capacityRemains >= sz {
        assert fragments != [];
        GrowOk(fragments, firstOffset, totalSize, capacityRemains, bytes, room, capacityRemains - sz);
        fragments := Grow(fragments, bytes, room);
        capacityRemains := capacityRemains - sz;
      } else if capacityRemains > 0 {
        assert fragments != [];
        var reserved := |fragments[|fragments| - 1].data| + sz + granularity + room;
        GrowOk(fragments, firstOffset, totalSize, capacityRemains, bytes, reserved, granularity);
        fragments := Grow(fragments, bytes, reserved);
        capacityRemains := granularity;
      } else {
        PushOk(fragments, firstOffset, totalSize, capacityRemains, bytes, sz + granularity + room, granularity);
        fragments := fragments + [Fragment(bytes, sz + granularity + room)];
        capacityRemains := granularity;
      }
      hide *;
      totalSize := totalSize + sz;
    }

    method Clear()
      modifies this
      ensures Valid() && Contents() == []
    {
      totalSize, firstOffset, capacityRemains, fragments := 0, 0, 0, [];
    }

    // ---- Taking bytes out --------------------------------------------------

    /** The first fragment, or part of it, copied to `out[from..]`. */
    method ConsumePart(out: array<u8>, from: nat, n: nat) returns (k: nat)
      requires Loaded(fragments, firstOffset) && 0 < n < |Contents()| && from + n <= out.Length
      modifies this`firstOffset, this`fragments, out
      ensures 0 < k <= n && Loaded(fragments, firstOffset) && Contents() == old(Contents())[k..]
      ensures out[..] == Written(old(out[..]), from, old(Contents())[..k])
    {
      LoadedRoom(fragments, firstOffset);
      var f := fragments[0];
      var size := |f.data| - firstOffset;
      k := Min(n, size);
      CopyTo(out, from, f.data[firstOffset..firstOffset + k]);
      assert Contents()[..k] == f.data[firstOffset..firstOffset + k];
      if k < size {
        firstOffset := firstOffset + k;
        LoadedRoom(fragments, firstOffset);
      } else {
        firstOffset := 0;
        fragments := fragments[1..];
      }
    }

    /** Copy everything out, then keep one fragment of moderate capacity for reuse. */
    method ConsumeAll(out: array<u8>, from: nat) returns (k: nat)
      requires Valid() && totalSize > 0 && from + totalSize <= out.Length
      modifies this, out
      ensures Valid() && Contents() == [] && k == old(totalSize)
      ensures out[..] == Written(old(out[..]), from, old(Contents()))
    {
      CopyAll(fragments, firstOffset, out, from);
      k := totalSize;
      totalSize, firstOffset, capacityRemains := 0, 0, 0;
      assert Flat([]) == [];
      var j := 0;
      while j < |fragments| && fragments[j].capacity > granularity * 2
        invariant j <= |fragments|
      {
        j := j + 1;
      }
      if j < |fragments| {
        capacityRemains := fragments[j].capacity;
        fragments := [Fragment([], fragments[j].capacity)];
        FlatHead(fragments, 0);
      } else {
        fragments := [];
      }
    }

    // ---- The public operations ---------------------------------------------

    method Consume(out: array<u8>, from: nat, n: nat) returns (k: nat)
      requires Valid() && from + n <= out.Length
      modifies this, out
      ensures Valid() && Served(old(Contents()), n, k, Contents(), old(out[..]), out[..], from)
    {
      ghost var all, was := Contents(), out[..];
      assert totalSize == |all|;
      if totalSize == 0 {
        k := 0;
        WrittenNothing(was, from);
      } else if n >= totalSize {
        hide Queue, Written;
        k := ConsumeAll(out, from);
        assert all[..k] == all && all[k..] == [];
      } else {
        hide Queue, Written;
        ConsumeSome(out, from, n);
        k := n;
      }
    }

    /** The loop over fragments when some bytes will stay behind. */
    method ConsumeSome(out: array<u8>, from: nat, n: nat)
      requires Valid() && n < totalSize && from + n <= out.Length
      modifies this, out
      ensures Valid() && Contents() == old(Contents())[n..]
      ensures out[..] == Written(old(out[..]), from, old(Contents())[..n])
    {
      MoveSome(out, from, n);
      totalSize := totalSize - n;
      hide Queue, Written, Loaded, Shape;
      StillLoaded(fragments, firstOffset, capacityRemains);
    }

    method MoveSome(out: array<u8>, from: nat, n: nat)
      requires Loaded(fragments, firstOffset) && n < |Contents()| && from + n <= out.Length
      modifies this`firstOffset, this`fragments, out
      ensures Loaded(fragments, firstOffset) && Contents() == old(Contents())[n..]
      ensures out[..] == Written(old(out[..]), from, old(Contents())[..n])
    {
      hide *;
      ghost var all, was := Contents(), out[..];
      var done := 0;
      MovedNothing(was, from, all);
      while done < n
        invariant done <= n < |all| && |Contents()| == |all| - done
        invariant Loaded(fragments, firstOffset) && HaveMoved(was, from, all, done, Contents(), out[..])
      {
        ghost var left, now := Contents(), out[..];
        var consumed := ConsumePart(out, from + done, n - done);
        MoveOn(was, from, all, done, left, now, consumed);
        done := done + consumed;
      }
      MovedAll(was, from, all, n, Contents(), out[..]);
    }

    method AddAndConsume(bytes: seq<u8>, out: array<u8>, from: nat, n: nat, room: nat) returns (k: nat)
      requires Valid() && from + n <= out.Length
      modifies this, out
      ensures Valid() && Served(old(Contents()) + bytes, n, k, Contents(), old(out[..]), out[..], from)
    {
      assert totalSize == |Contents()|;
      hide Queue, Shape, Written, Served;
      if bytes == [] {
        assert Contents() + bytes == Contents();
        k := Consume(out, from, n);
      } else if n == 0 {
        ServedNone(Contents() + bytes, out[..], from);
        Add(bytes, room);
        k := 0;
      } else if totalSize == 0 {
        assert Contents() + bytes == bytes;
        k := Pass(bytes, out, from, n, room);
      } else if n <= totalSize {
        k := ConsumeThenAdd(bytes, out, from, n, room);
      } else {
        k := DrainThenPass(bytes, out, from, n, room);
      }
    }

    method ConsumeThenAdd(bytes: seq<u8>, out: array<u8>, from: nat, n: nat, room: nat) returns (k: nat)
      requires Valid() && from + n <= out.Length && n <= |Contents()|
      modifies this, out
      ensures Valid() && Served(old(Contents()) + bytes, n, k, Contents(), old(out[..]), out[..], from)
    {
      hide Queue, Shape, Written, Served;
      ghost var queue, was := Contents(), out[..];
      k := Consume(out, from, n);
      ServedThenAdd(queue, bytes, n, k, Contents(), was, out[..], from);
      Add(bytes, room);
    }

    /** Everything queued goes out, then the input passes through; the source recurses to do the second half. */
    method DrainThenPass(bytes: seq<u8>, out: array<u8>, from: nat, n: nat, room: nat) returns (k: nat)
      requires Valid() && from + n <= out.Length && 0 < totalSize == |Contents()| < n
      modifies this, out
      ensures Valid() && Served(old(Contents()) + bytes, n, k, Contents(), old(out[..]), out[..], from)
    {
      hide Queue, Shape, Written, Served;
      ghost var queue, was := Contents(), out[..];
      var consumed := ConsumeAll(out, from);
      ghost var mid := out[..];
      var more := Pass(bytes, out, from + consumed, n - consumed, room);
      k := consumed + more;
      ServedAllThen(queue, bytes, n, more, Contents(), was, mid, out[..], from);
    }

    /** With nothing queued the input goes straight through; only what does not fit is kept. */
    method Pass(bytes: seq<u8>, out: array<u8>, from: nat, n: nat, room: nat) returns (k: nat)
      requires Valid() && Contents() == [] && from + n <= out.Length
      modifies this, out
      ensures Valid() && Served(bytes, n, k, Contents(), old(out[..]), out[..], from)
    {
      hide Queue, Shape, Written;
      if |bytes| <= n {
        CopyTo(out, from, bytes);
        k := |bytes|;
        assert bytes[..k] == bytes;
      } else {
        CopyTo(out, from, bytes[..n]);
        Add(bytes[n..], room);
        assert [] + bytes[n..] == bytes[n..];
        k := n;
      }
    }

    /** Any run of operations, however vectors grow in each, hands out what the queue would and keeps what it would. */
    method Replay(ops: seq<Op>, rooms: seq<nat>) returns (taken: seq<u8>)
      requires Valid() && |rooms| == |ops|
      modifies this
      ensures Valid() && Fifo(Contents(), taken) == FifoRun(Fifo(old(Contents()), []), ops)
    {
      ghost var start := Fifo(Contents(), []);
      taken := [];
      var i := 0;
      while i < |ops|
        invariant i <= |ops| && Valid() && Fifo(Contents(), taken) == FifoRun(start, ops[..i])
      {
        assert ops[..i + 1][..i] == ops[..i];
        var got := Step(ops[i], taken, rooms[i]);
        taken := got;
        i := i + 1;
      }
      assert ops[..i] == ops;
    }

    method Step(op: Op, taken: seq<u8>, room: nat) returns (taken': seq<u8>)
      requires Valid()
      modifies this
      ensures Valid() && Fifo(Contents(), taken') == FifoStep(Fifo(old(Contents()), taken), op)
    {
      ghost var all := Contents() + Given(op);
      var out := new u8[Wanted(op)](_ => 0);
      ghost var was := out[..];
      var k := 0;
      match op {
        case Add(bytes) =>
          hide Queue, Shape, Written;
          Add(bytes, room);
        case Consume(n) =>
          hide Queue, Shape, Written;
          assert Contents() + Given(op) == Contents();
          k := Consume(out, 0, n);
          WrittenFront(was, all[..k]);
        case AddAndConsume(bytes, n) =>
          hide Queue, Shape, Written;
          k := AddAndConsume(bytes, out, 0, n, room);
          WrittenFront(was, all[..k]);
        case Clear =>
          Clear();
      }
      taken' := taken + out[..][..k];
      assert out[..][..k] == all[..k];
    }
  }

  lemma FlatHead(fs: seq<Fragment>, i: nat)
    requires i < |fs|
    ensures Flat(fs[i..]) == fs[i].data + Flat(fs[i + 1..])
  {
  }

  /** Copy all fragments in turn. */
  method CopyAll(fs: seq<Fragment>, offset: nat, out: array<u8>, from: nat)
    requires Loaded(fs, offset) && from + |Queue(fs, offset)| <= out.Length
    modifies out
    ensures out[..] == Written(old(out[..]), from, Queue(fs, offset))
  {
    ghost var was, all := out[..], Queue(fs, offset);
    var head := fs[0].data[offset..];
    ghost var copied := head;
    LoadedRoom(fs, offset);
    assert Flat([]) == [];
    hide Flat, Written, Queue, Loaded;
    CopyTo(out, from, head);
    var p, i := from + |head|, 1;
    while i < |fs|
      invariant 1 <= i <= |fs| && p == from + |copied| && |was| == out.Length
      invariant copied + Flat(fs[i..]) == all
      invariant out[..] == Written(was, from, copied)
    {
      var data := fs[i].data;
      ghost var rest := Flat(fs[i + 1..]);
      FlatHead(fs, i);
      Regroup(copied, data, rest);
      assert |all| == |copied| + |data| + |rest|;
      CopyMore(out, from, p, data, was, copied);
      copied := copied + data;
      p := p + |data|;
      i := i + 1;
    }
    assert fs[i..] == [];
    assert copied + [] == copied;
  }

  method CopyMore(out: array<u8>, from: nat, p: nat, data: seq<u8>, ghost was: seq<u8>, ghost copied: seq<u8>)
    requires p == from + |copied| && p + |data| <= |was| == out.Length && out[..] == Written(was, from, copied)
    modifies out
    ensures out[..] == Written(was, from, copied + data)
  {
    hide Written;
    CopyTo(out, p, data);
    WrittenMore(was, from, copied, data);
  }

  /** `memcpy`. */
  method CopyTo(out: array<u8>, from: nat, bytes: seq<u8>)
    requires from + |bytes| <= out.Length
    modifies out
    ensures out[..] == Written(old(out[..]), from, bytes)
  {
    forall i | 0 <= i < |bytes| {
      out[from + i] := bytes[i];
    }
  }

  /** The first `k` bytes of `all` have been written out and the others remain. */
  ghost predicate Served(all: seq<u8>, n: nat, k: nat, after: seq<u8>, was: seq<u8>, now: seq<u8>, from: nat) {
    k == Min(n, |all|) && after == all[k..] && from + k <= |was| && now == Written(was, from, all[..k])
  }

  lemma ServedNone(all: seq<u8>, was: seq<u8>, from: nat)
    requires from <= |was|
    ensures Served(all, 0, 0, all, was, was, from)
  {
  }

  lemma ServedThenAdd(queue: seq<u8>, bytes: seq<u8>, n: nat, k: nat, left: seq<u8>, was: seq<u8>, now: seq<u8>, from: nat)
    requires Served(queue, n, k, left, was, now, from) && n <= |queue|
    ensures Served(queue + bytes, n, k, left + bytes, was, now, from)
  {
  }

  lemma ServedAllThen(queue: seq<u8>, bytes: seq<u8>, n: nat, more: nat, after: seq<u8>,
                      was: seq<u8>, mid: seq<u8>, now: seq<u8>, from: nat)
    requires from + n <= |was| && |queue| <= n && mid == Written(was, from, queue)
    requires Served(bytes, n - |queue|, more, after, mid, now, from + |queue|)
    ensures Served(queue + bytes, n, |queue| + more, after, was, now, from)
  {
  }

  function Written(s: seq<u8>, from: nat, bytes: seq<u8>): (s': seq<u8>)
    requires from + |bytes| <= |s|
    ensures |s'| == |s|
  {
    s[..from] + bytes + s[from + |bytes|..]
  }

  lemma WrittenNothing(s: seq<u8>, from: nat)
    requires from <= |s|
    ensures Written(s, from, []) == s
  {
  }

  lemma WrittenFront(s: seq<u8>, bytes: seq<u8>)
    requires |bytes| <= |s|
    ensures Written(s, 0, bytes)[..|bytes|] == bytes
  {
  }

  lemma WrittenMore(s: seq<u8>, from: nat, done: seq<u8>, more: seq<u8>)
    requires from + |done + more| <= |s|
    ensures Written(Written(s, from, done), from + |done|, more) == Written(s, from, done + more)
  {
  }

  /** The first `done` of all bytes are in the output, the others still queued. */
  ghost predicate HaveMoved(was: seq<u8>, from: nat, all: seq<u8>, done: nat, left: seq<u8>, out: seq<u8>) {
    from + done <= |was| && done <= |all| && left == all[done..] && out == Written(was, from, all[..done])
  }

  lemma MovedNothing(was: seq<u8>, from: nat, all: seq<u8>)
    requires from <= |was|
    ensures HaveMoved(was, from, all, 0, all, was)
  {
    WrittenNothing(was, from);
    assert all[..0] == [];
  }

  lemma MoveOn(was: seq<u8>, from: nat, all: seq<u8>, done: nat, left: seq<u8>, out: seq<u8>, k: nat)
    requires HaveMoved(was, from, all, done, left, out) && k <= |left| && from + done + k <= |was| == |out|
    ensures HaveMoved(was, from, all, done + k, left[k..], Written(out, from + done, left[..k]))
  {
    hide Written;
    assert all[..done + k] == all[..done] + left[..k];
    assert left[k..] == all[done + k..];
    WrittenMore(was, from, all[..done], left[..k]);
  }

  lemma MovedAll(was: seq<u8>, from: nat, all: seq<u8>, done: nat, left: seq<u8>, out: seq<u8>)
    requires HaveMoved(was, from, all, done, left, out)
    ensures from + done <= |was| && done <= |all| && left == all[done..] && out == Written(was, from, all[..done])
  {
    hide Written;
  }

  lemma Moved(taken: seq<u8>, left: seq<u8>, k: nat)
    requires k <= |left|
    ensures (taken + left[..k]) + left[k..] == taken + left
  {
  }
}
