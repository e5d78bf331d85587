/**
 Frames of multistream-select: a varint length, a protocol name and a newline,
 written whole and read from a stream that hands its bytes over in any pieces.
 */
module MultiselectFrames {
  import opened Common
  import opened Positional
  import opened Varint

  type Name = seq<u8>

  /** "/multistream/1.0.0" */
  const PROTOCOL_ID: Name := [47, 109, 117, 108, 116, 105, 115, 116, 114, 101, 97, 109, 47, 49, 46, 48, 46, 48]

  /** "na" */
  const NA: Name := [110, 97]

  const NEW_LINE: u8 := 10
  const MAX_MESSAGE_SIZE := 65535
  const MAX_VARINT_SIZE := 3

  /** The errors of the source; `Thrown` stands for the exception of a `.value()` without a value. */
  datatype Error =
    | InternalError | ProtocolViolation | NegotiationFailed | DecodeSize | MessageTooLong | Closed | Thrown

  function Frame(name: Name): seq<u8> {
    Encode(|name| + 1) + (name + [NEW_LINE])
  }

  /** The names `createMessage` accepts. */
  predicate Writable(name: Name) {
    |name| + 1 <= MAX_MESSAGE_SIZE - MAX_VARINT_SIZE
  }

  /** The greeting and the refusal as they go over the wire, and the longest name that does. */
  lemma WireForm(name: Name)
    ensures |PROTOCOL_ID| == 18 && forall i :: 0 <= i < 18 ==> PROTOCOL_ID[i] == "/multistream/1.0.0"[i] as int
    ensures Frame(PROTOCOL_ID) == [19] + PROTOCOL_ID + ['\n' as int]
    ensures Frame(NA) == [3, 'n' as int, 'a' as int, '\n' as int]
    ensures Writable(name) <==> |name| <= 65531
  {
    assert Encode(19) == [19] && Encode(3) == [3];
    hide Encode;
  }

  lemma FrameSize(name: Name)
    requires Writable(name)
    ensures |name| + 2 <= |Frame(name)| <= MAX_MESSAGE_SIZE
  {
    EncodeLength(|name| + 1, 3);
    assert Pow(128, 3) == 2097152;
    hide Encode;
  }

  /** `appendProtocol` on an empty buffer; its second size test never fails. */
  method CreateMessage(name: Name) returns (r: Result<seq<u8>, Error>)
    ensures r == if Writable(name) then Ok(Frame(name)) else Err(InternalError)
  {
    var size := |name| + 1;
    if size > MAX_MESSAGE_SIZE - MAX_VARINT_SIZE {
      return Err(InternalError);
    }
    var buffer := AppendVarint([], size);
    buffer := buffer + name;
    buffer := buffer + [NEW_LINE];
    assert buffer == Frame(name);
    FrameSize(name);
    if |buffer| <= MAX_MESSAGE_SIZE {
      return Ok(buffer);
    }
    return Err(InternalError);
  }

  // ---- Reading ----------------------------------------------------------------

  /** Where a read stands after some bytes: it asks for at most `n` more, or it is over. */
  datatype Reading = Need(n: nat) | Got(name: Name) | Bad(error: Error)

  function Progress(partial: seq<u8>): Reading {
    var r := Meaning(partial);
    if r.state == Underflow then Need(1)
    else if r.state != Ready || r.got > |partial| then Bad(DecodeSize)
    else if r.value > MAX_MESSAGE_SIZE then Bad(MessageTooLong)
    else
      var message := partial[r.got..];
      if |message| < r.value then Need(r.value - |message|)
      else if message == [] || message[|message| - 1] != NEW_LINE then Bad(ProtocolViolation)
      else Got(message[..|message| - 1])
  }

  /**
   However a frame is cut, no read asks for a byte beyond its end, and at its end the name
   that was written comes out.
   */
  lemma FrameProgress(name: Name, k: nat)
    requires Writable(name) && k <= |Frame(name)|
    ensures var p := Progress(Frame(name)[..k]);
            if k < |Frame(name)| then p.Need? && 1 <= p.n <= |Frame(name)| - k else p == Got(name)
  {
    var f, e, body := Frame(name), Encode(|name| + 1), name + [NEW_LINE];
    if k < |e| {
      EncodeIsVarint(|name| + 1);
      EncodeLength(|name| + 1, 9);
      PowMonotone(128, 3, 9);
      assert Pow(128, 3) == 2097152;
      assert f[..k] == e[..|e| - 1][..k];
      StillUnderflow(f[..k]);
    } else {
      var tail := body[..k - |e|];
      assert f[..k] == e + tail;
      EncodeDecodes(|name| + 1, []);
      assert e + [] == e;
      hide Encode, Meaning, Progress;
      FrameBody(e, tail);
      assert k == |f| ==> tail == body && body[..|body| - 1] == name;
    }
  }

  /** Which whole frames are refused, and why: they are too long, or do not end in a new line. */
  lemma FrameFaults(body: seq<u8>, n: u64)
    requires n == |body|
    ensures Progress(Encode(n) + body) ==
            if n > 65535 then Bad(MessageTooLong)
            else if body == [] || body[n - 1] != '\n' as int then Bad(ProtocolViolation)
            else Got(body[..n - 1])
    ensures n > 65535 ==> Progress(Encode(n)) == Bad(MessageTooLong)
  {
    hide Encode, Meaning, SizeOf, Leb;
    EncodeDecodes(n, body);
    EncodeDecodes(n, []);
    Behind(Encode(n), body);
    hide *;
    Whole(Encode(n) + body, body, |Encode(n)|);
    if n > 65535 { LongFrame(Encode(n), n, |Encode(n)|); }
  }

  lemma Whole(b: seq<u8>, body: seq<u8>, k: nat)
    requires k <= |b| && |body| < WORD && Meaning(b) == Reader(|body|, Ready, k) && b[k..] == body
    ensures Progress(b) ==
            if |body| > 65535 then Bad(MessageTooLong)
            else if body == [] || body[|body| - 1] != '\n' as int then Bad(ProtocolViolation)
            else Got(body[..|body| - 1])
  {
    hide Meaning;
  }

  lemma LongFrame(b: seq<u8>, n: u64, k: nat)
    requires k <= |b| && Meaning(b) == Reader(n, Ready, k) && n > 65535
    ensures Progress(b) == Bad(MessageTooLong)
  {
    hide Meaning;
  }

  lemma Behind(e: seq<u8>, body: seq<u8>)
    ensures (e + body)[|e|..] == body && e + [] == e && |e + body| == |e| + |body|
  {
  }

  /** Nothing is decided before byte `k`. */
  ghost predicate Pending(all: seq<u8>, k: nat) {
    k <= |all| && forall j :: 0 <= j < k ==> Progress(all[..j]).Need?
  }

  lemma HeadPending(all: seq<u8>, n: nat)
    requires Unfinished(all, n)
    ensures Pending(all, n)
  {
    forall j | 0 <= j < n ensures Progress(all[..j]).Need? {
      HeadProgress(all[..j]);
    }
    hide Progress, Meaning;
  }

  lemma BodyPending(all: seq<u8>, head: nat, used: nat)
    requires Pending(all, head) && head <= used <= |all|
    requires var m := Meaning(all[..head]); m.state == Ready && m.got == head && used - head <= m.value <= MAX_MESSAGE_SIZE
    ensures Pending(all, used)
  {
    forall j | 0 <= j < used ensures Progress(all[..j]).Need? {
      if j >= head {
        assert all[..j] == all[..head] + all[head..j];
        FrameBody(all[..head], all[head..j]);
      }
    }
  }

  /** The receiving half of a stream: what has arrived or will, until it is closed. */
  class Connection {
    var incoming: seq<u8>
    var outgoing: seq<u8>

    constructor (incoming: seq<u8>)
      ensures this.incoming == incoming && outgoing == []
    {
      this.incoming, outgoing := incoming, [];
    }

    method Write(bytes: seq<u8>)
      modifies this`outgoing
      ensures outgoing == old(outgoing) + bytes
    {
      outgoing := outgoing + bytes;
    }

    /** Some bytes, at least one and at most `n`, unless the stream is over. */
    method ReadSome(n: nat) returns (r: Option<seq<u8>>)
      requires n > 0
      modifies this`incoming
      ensures r.None? ==> old(incoming) == [] == incoming
      ensures r.Some? ==> 0 < |r.value| <= n && old(incoming) == r.value + incoming
    {
      if incoming == [] {
        return None;
      }
      var k :| 0 < k <= n && k <= |incoming|;
      r := Some(incoming[..k]);
      incoming := incoming[k..];
    }

    /** `read`: exactly `n` bytes. */
    method Read(n: nat) returns (r: Option<seq<u8>>)
      modifies this`incoming
      ensures r.None? ==> n > |old(incoming)| && incoming == []
      ensures r.Some? ==> |r.value| == n && old(incoming) == r.value + incoming
    {
      var out := [];
      while |out| < n
        invariant |out| <= n && old(incoming) == out + incoming
      {
        var some := ReadSome(n - |out|);
        if some.None? {
          return None;
        }
        assert out + (some.value + incoming) == (out + some.value) + incoming;
        out := out + some.value;
      }
      r := Some(out);
    }

    /** `readVarint`; `used` counts the bytes taken. */
    method ReadVarint() returns (r: Result<u64, Error>, ghost used: nat)
      modifies this`incoming
      ensures used <= |old(incoming)| && incoming == old(incoming)[used..]
      ensures Unfinished(old(incoming), used)
      ensures var m := Meaning(old(incoming)[..used]);
              r == match m.state
                   case Ready => Ok(m.value)
                   case Underflow => Err(Closed)
                   case _ => Err(DecodeSize)
      ensures Meaning(old(incoming)[..used]).state == Underflow ==> used == |old(incoming)|
    {
      ghost var all := incoming;
      var varint := new VarintPrefixReader();
      used := 0;
      assert all[..0] == [] && all[0..] == all;
      hide Meaning, Unfinished;
      while varint.state == Underflow
        invariant used <= |all| && incoming == all[used..] && varint.View() == Meaning(all[..used])
        invariant Unfinished(all, used)
        decreases |incoming|
      {
        var byte := Read(1);
        if byte.None? {
          return Err(Closed), used;
        }
        CutOne(all, used, byte.value, incoming);
        StillUnfinished(all, used);
        var s := varint.ConsumeByte(byte.value[0], all[..used]);
        used := used + 1;
      }
      if varint.state != Ready {
        return Err(DecodeSize), used;
      }
      return Ok(varint.value), used;
    }

    /** `read1`: one frame, taken exactly, or the reason why there is none. */
    method ReadOne() returns (r: Result<Name, Error>, ghost used: nat)
      modifies this`incoming
      ensures Pending(old(incoming), used) && (r != Err(Closed) ==> incoming == old(incoming)[used..])
      ensures match Progress(old(incoming)[..used])
              case Got(name) => r == Ok(name) && used > 0
              case Bad(e) => r == Err(e)
              case Need(_) => r == Err(Closed) && used == |old(incoming)|
    {
      ghost var all := incoming;
      var size;
      hide Meaning;
      size, used := ReadVarint();
      assert used > 0 ==> all[..used][..used - 1] == all[..used - 1];
      GotAll(all[..used]);
      HeadProgress(all[..used]);
      HeadPending(all, used);
      hide Progress, Pending, Unfinished;
      if size.Err? {
        return Err(size.error), used;
      }
      if size.value > MAX_MESSAGE_SIZE {
        return Err(MessageTooLong), used;
      }
      var message := Read(size.value);
      ghost var head := used;
      used := Min(head + size.value, |all|);
      ghost var tail := all[head..used];
      assert all[..used] == all[..head] + tail;
      FrameBody(all[..head], tail);
      BodyPending(all, head, used);
      if message.None? {
        return Err(Closed), used;
      }
      Cut(all, head, message.value, incoming);
      if message.value == [] || message.value[|message.value| - 1] != NEW_LINE {
        return Err(ProtocolViolation), used;
      }
      return Ok(message.value[..|message.value| - 1]), used;
    }

    /** `write1`. */
    method WriteOne(name: Name) returns (ok: bool)
      modifies this`outgoing
      ensures ok == Writable(name) && outgoing == if ok then old(outgoing) + Frame(name) else old(outgoing)
    {
      var message := CreateMessage(name);
      if message.Err? {
        return false;
      }
      Write(message.value);
      return true;
    }
  }

  lemma Cut(all: seq<u8>, i: nat, b: seq<u8>, rest: seq<u8>)
    requires i <= |all| && all[i..] == b + rest
    ensures i + |b| <= |all| && all[i..i + |b|] == b && all[i + |b|..] == rest
  {
  }

  /** No varint ends before byte `n`. */
  ghost predicate Unfinished(all: seq<u8>, n: nat) {
    n <= |all| && forall j :: 0 <= j < n ==> Meaning(all[..j]).state == Underflow
  }

  lemma StillUnfinished(all: seq<u8>, n: nat)
    requires Unfinished(all, n) && n < |all| && Meaning(all[..n]).state == Underflow
    ensures Unfinished(all, n + 1)
  {
    hide Meaning;
  }

  lemma CutOne(all: seq<u8>, i: nat, b: seq<u8>, rest: seq<u8>)
    requires i <= |all| && all[i..] == b + rest && |b| == 1
    ensures i < |all| && all[..i + 1] == all[..i] + [b[0]] && all[i + 1..] == rest
  {
    Cut(all, i, b, rest);
  }

  /** Once the length is known the bytes that follow are the message. */
  lemma FrameBody(head: seq<u8>, tail: seq<u8>)
    requires Meaning(head).state == Ready && Meaning(head).got == |head|
    requires |tail| <= Meaning(head).value <= MAX_MESSAGE_SIZE
    ensures Progress(head + tail) ==
            if |tail| < Meaning(head).value then Need(Meaning(head).value - |tail|)
            else if tail == [] || tail[|tail| - 1] != NEW_LINE then Bad(ProtocolViolation)
            else Got(tail[..|tail| - 1])
  {
    hide Meaning;
    Settled(head, tail);
    assert (head + tail)[|head|..] == tail;
  }

  /** What the length alone decides. */
  lemma HeadProgress(head: seq<u8>)
    ensures var m := Meaning(head);
            && (m.state == Underflow ==> Progress(head) == Need(1))
            && (m.state != Underflow && m.state != Ready ==> Progress(head) == Bad(DecodeSize))
            && (m.state == Ready && m.got == |head| && m.value > MAX_MESSAGE_SIZE ==> Progress(head) == Bad(MessageTooLong))
  {
    hide Meaning;
  }

  /** A reader that is ready counted every byte it was given, if it was not ready before the last. */
  lemma GotAll(b: seq<u8>)
    requires b == [] || Meaning(b[..|b| - 1]).state == Underflow
    ensures Meaning(b).state == Ready ==> Meaning(b).got == |b|
  {
  }
}
