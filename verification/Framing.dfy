/** echo.c: cutting a TCP byte stream into 24-byte messages. */
module Framing {

  const MESSAGE_SIZE := 24
  const BUFFER_SIZE := 1024

  // ----- The reference: messages of a whole stream -----

  function Messages(s: string): seq<string> {
    if |s| < MESSAGE_SIZE then [] else [s[..MESSAGE_SIZE]] + Messages(s[MESSAGE_SIZE..])
  }

  function Remainder(s: string): (r: string)
    ensures |r| == |s| % MESSAGE_SIZE
  {
    if |s| < MESSAGE_SIZE then s else Remainder(s[MESSAGE_SIZE..])
  }

  /** Framing may stop anywhere and go on from the remainder. */
  lemma {:induction false} FrameAgain(a: string, b: string)
    ensures Messages(a + b) == Messages(a) + Messages(Remainder(a) + b)
    ensures Remainder(a + b) == Remainder(Remainder(a) + b)
    decreases |a|
  {
    if |a| >= MESSAGE_SIZE {
      assert (a + b)[..MESSAGE_SIZE] == a[..MESSAGE_SIZE];
      assert (a + b)[MESSAGE_SIZE..] == a[MESSAGE_SIZE..] + b;
      FrameAgain(a[MESSAGE_SIZE..], b);
    } else {
      assert [] + Messages(a + b) == Messages(a + b);
    }
  }

  // ----- The receive path as values -----

  /** Bytes kept and messages dispatched so far. */
  datatype Reception = Reception(kept: string, dispatched: seq<string>)

  /** What a segment comes to: it is framed, or copying it runs past the end of the buffer. */
  datatype Receipt = Framed(reception: Reception) | Overrun

  /** Where the copy of a segment ends when `kept` bytes are pending; an overfull buffer is cleared
      first. */
  function CopyEnd(kept: nat, len: nat): nat { if len + kept >= BUFFER_SIZE then len else kept + len }

  function Receive(r: Reception, p: string): Receipt {
    if CopyEnd(|r.kept|, |p|) > BUFFER_SIZE then Overrun
    else
      var buffered := if |p| + |r.kept| >= BUFFER_SIZE then p else r.kept + p;
      Framed(Reception(Remainder(buffered), r.dispatched + Messages(buffered)))
  }

  function ReceiveAll(r: Reception, segments: seq<string>): Receipt
    decreases |segments|
  {
    if segments == [] then Framed(r)
    else
      match Receive(r, segments[0])
      case Overrun => Overrun
      case Framed(q) => ReceiveAll(q, segments[1..])
  }

  function Stream(segments: seq<string>): string {
    if segments == [] then "" else segments[0] + Stream(segments[1..])
  }

  /** The segment was framed as the continuation of what was kept. */
  predicate Faithful(r: Reception, p: string) {
    Receive(r, p) == Framed(Reception(Remainder(r.kept + p), r.dispatched + Messages(r.kept + p)))
  }

  /** The copy stays inside the buffer exactly for segments no longer than it, whatever is pending:
      clearing the buffer makes room for the pending bytes only. */
  lemma CopyStaysInsideIff(r: Reception, p: string)
    requires |r.kept| < MESSAGE_SIZE
    ensures Receive(r, p) != Overrun <==> |p| <= BUFFER_SIZE
  {
  }

  /** A full-sized Ethernet segment overruns even an empty buffer. */
  lemma EthernetSegmentOverruns(p: string)
    requires |p| == 1460
    ensures Receive(Reception("", []), p) == Overrun
    ensures !Faithful(Reception("", []), p)
  {
    CopyStaysInsideIff(Reception("", []), p);
  }

  /** A segment is framed faithfully exactly when nothing is pending and it fits the buffer, or it
      fits behind what is pending. */
  lemma FaithfulIff(r: Reception, p: string)
    requires |r.kept| < MESSAGE_SIZE
    ensures Faithful(r, p) <==> (r.kept == "" && |p| <= BUFFER_SIZE) || |p| + |r.kept| < BUFFER_SIZE
  {
    if r.kept == "" {
      assert r.kept + p == p;
    } else {
      assert |Remainder(p)| == |p| % MESSAGE_SIZE;
      assert |Remainder(r.kept + p)| == (|r.kept| + |p|) % MESSAGE_SIZE;
    }
  }

  /** Framing does not depend on segmentation: for segments of at most 1000 bytes the dispatched
      messages are the consecutive 24-byte blocks of everything since the buffer was last empty,
      and the rest, under 24 bytes, is kept. */
  lemma {:induction false} FramingIgnoresSegmentation(r: Reception, segments: seq<string>)
    requires |r.kept| < MESSAGE_SIZE
    requires forall i :: 0 <= i < |segments| ==> |segments[i]| <= 1000
    ensures ReceiveAll(r, segments)
         == Framed(Reception(Remainder(r.kept + Stream(segments)), r.dispatched + Messages(r.kept + Stream(segments))))
    decreases |segments|
  {
    if segments == [] {
      assert r.kept + "" == r.kept;
      assert r.dispatched + [] == r.dispatched;
    } else {
      var p, rest := segments[0], Stream(segments[1..]);
      FaithfulIff(r, p);
      hide Messages, Remainder, Receive;
      FramingIgnoresSegmentation(Receive(r, p).reception, segments[1..]);
      FrameAgain(r.kept + p, rest);
      Regroup(r.kept, p, rest);
      Regroup(r.dispatched, Messages(r.kept + p), Messages(Remainder(r.kept + p) + rest));
    }
  }

  lemma Regroup<T>(a: seq<T>, b: seq<T>, c: seq<T>)
    ensures (a + b) + c == a + (b + c)
  {
  }

  /** 1000 bytes is the exact limit. */
  lemma SegmentLimitIff(limit: nat)
    ensures (forall r: Reception, p: string :: |r.kept| < MESSAGE_SIZE && |p| <= limit ==> Faithful(r, p))
       <==> limit <= 1000
  {
    if limit <= 1000 {
      forall r: Reception, p: string | |r.kept| < MESSAGE_SIZE && |p| <= limit ensures Faithful(r, p) {
        FaithfulIff(r, p);
      }
    } else {
      var r, p := Reception(seq(23, _ => 'x'), []), seq(1001, _ => 'x');
      FaithfulIff(r, p);
      assert !Faithful(r, p);
    }
  }

  /** Bytes left over from another connection shift every message: a new stream is framed as it
      should be, whatever it is, exactly when nothing is left over. */
  lemma LeftoverIff(kept: string)
    requires |kept| < MESSAGE_SIZE
    ensures (forall s: string :: Messages(kept + s) == Messages(s)) <==> kept == ""
  {
    if kept == "" {
      forall s: string ensures Messages(kept + s) == Messages(s) { assert kept + s == s; }
    } else {
      var s: string := seq(MESSAGE_SIZE - |kept|, _ => 'x');
      assert |Messages(kept + s)| == 1 && |Messages(s)| == 0;
    }
  }

  // ----- The server -----

  class EchoServer {
    const recvBuffer: array<char>
    var recvLen: nat
    var connected: bool
    /** The messages handed to command processing, oldest first. */
    var dispatched: seq<string>

    constructor ()
      ensures Valid() && fresh(recvBuffer) && View() == Reception("", []) && !connected
    {
      recvBuffer := new char[BUFFER_SIZE];
      recvLen, connected, dispatched := 0, false, [];
    }

    ghost predicate Valid()
      reads this
    {
      recvBuffer.Length == BUFFER_SIZE && recvLen < MESSAGE_SIZE
    }

    ghost function View(): Reception
      requires Valid()
      reads this, recvBuffer
    {
      Reception(recvBuffer[..recvLen], dispatched)
    }

    /** recv_callback with data. A segment longer than the buffer overruns it; the model ends there. */
    method RecvCallback(p: string) returns (overrun: bool)
      requires Valid()
      modifies this`recvLen, this`dispatched, recvBuffer
      ensures Valid()
      ensures overrun <==> |p| > BUFFER_SIZE
      ensures Receive(old(View()), p) == if overrun then Overrun else Framed(View())
    {
      if |p| + recvLen >= BUFFER_SIZE {
        recvLen := 0;
      }
      overrun := recvLen + |p| > recvBuffer.Length;
      if overrun {
        return;
      }
      ghost var all := recvBuffer[..recvLen] + p;
      assert recvLen == 0 ==> all == p;
      Append(p);
      DispatchAll(all);
    }

    /** The memcpy of a segment behind the pending bytes. */
    method Append(p: string)
      requires recvBuffer.Length == BUFFER_SIZE && recvLen + |p| <= BUFFER_SIZE
      modifies this`recvLen, recvBuffer
      ensures recvLen == old(recvLen) + |p|
      ensures recvBuffer[..recvLen] == old(recvBuffer[..recvLen]) + p
    {
      forall i | 0 <= i < |p| {
        recvBuffer[recvLen + i] := p[i];
      }
      recvLen := recvLen + |p|;
    }

    /** The loop that takes messages off the front of the buffer. */
    method DispatchAll(ghost all: string)
      requires recvBuffer.Length == BUFFER_SIZE && recvLen <= BUFFER_SIZE && recvBuffer[..recvLen] == all
      modifies this`recvLen, this`dispatched, recvBuffer
      ensures Valid() && View() == Reception(Remainder(all), old(dispatched) + Messages(all))
    {
      while recvLen >= MESSAGE_SIZE
        invariant recvLen <= BUFFER_SIZE
        invariant dispatched + Messages(recvBuffer[..recvLen]) == old(dispatched) + Messages(all)
        invariant Remainder(recvBuffer[..recvLen]) == Remainder(all)
      {
        ghost var before := recvBuffer[..recvLen];
        var msg := recvBuffer[..MESSAGE_SIZE];
        dispatched := dispatched + [msg];
        var tail := recvBuffer[MESSAGE_SIZE..recvLen];
        forall i | 0 <= i < |tail| {
          recvBuffer[i] := tail[i];
        }
        recvLen := recvLen - MESSAGE_SIZE;
        assert recvBuffer[..recvLen] == before[MESSAGE_SIZE..];
        assert msg == before[..MESSAGE_SIZE];
      }
    }

    /** recv_callback without data: the peer closed. */
    method Closed()
      requires Valid()
      modifies this`connected, this`recvLen
      ensures Valid() && View() == Reception("", old(dispatched)) && !connected
    {
      connected := false;
      recvLen := 0;
    }

    /** err_callback: the connection was aborted; the buffer is left alone. */
    method Aborted()
      requires Valid()
      modifies this`connected
      ensures Valid() && View() == old(View()) && !connected
    {
      connected := false;
    }

    /** accept_callback: one client at a time; the buffer is left alone. */
    method Accept() returns (accepted: bool)
      requires Valid()
      modifies this`connected
      ensures Valid() && View() == old(View()) && connected
      ensures accepted == !old(connected)
    {
      if connected {
        return false;
      }
      connected := true;
      accepted := true;
    }
  }
}
