/** The bounded poll loop of `forceUpdate`, as a function of what the UDP
    socket delivers on each poll. Poll i (counted from 0) is the iteration
    in which the byte counter `timeout` holds i. */
module Polling {
  import opened Arduino
  import opened NtpConfig
  import opened PacketCodec

  /** What one `parsePacket()` yields: nothing, or a datagram whose bytes
      `read()` then copies. */
  datatype Poll = NoPacket | Datagram(data: seq<Byte>)

  /** Polls happen with `timeout` = 0..101; on the last one the
      `timeout > 100` test returns false whatever arrived. */
  const MaxPolls: nat := 102

  /** The i-th poll result; the socket stays silent beyond the given ones. */
  function PollAt(polls: seq<Poll>, i: nat): Poll
  {
    if i < |polls| then polls[i] else NoPacket
  }

  /** `cb > 0`: `parsePacket()` reported a datagram of positive size. */
  predicate Arrived(poll: Poll)
  {
    poll.Datagram? && |poll.data| > 0
  }

  /** `read(m_packetBuffer, NTP_PACKET_SIZE)`: at most 48 bytes of the datagram
      overwrite the front of the buffer; a shorter datagram leaves the tail. */
  function Receive(buf: Packet, data: seq<Byte>): (r: Packet)
    ensures forall i :: 0 <= i < PacketSize ==> r[i] == if i < |data| then data[i] else buf[i]
  {
    if |data| >= PacketSize then data[..PacketSize] else data + buf[|data|..]
  }

  /** The buffer after one poll. */
  function AfterPoll(buf: Packet, poll: Poll): Packet
  {
    if Arrived(poll) then Receive(buf, poll.data) else buf
  }

  /** The poll ends the loop: a datagram arrived and the buffer it produced
      passes `isValid`. */
  predicate Accepts(buf: Packet, poll: Poll)
  {
    Arrived(poll) && IsValid(Receive(buf, poll.data))
  }

  /** How the loop ends: whether it synchronised, after how many polls, and
      what the buffer then holds. */
  datatype Outcome = Outcome(synced: bool, polls: nat, buffer: Packet)

  /** The loop from poll i on, with buffer `buf`. */
  function PollFrom(buf: Packet, polls: seq<Poll>, i: nat): (r: Outcome)
    requires i < MaxPolls
    ensures i < r.polls <= MaxPolls
    ensures r.synced <==> r.polls < MaxPolls
    decreases MaxPolls - i
  {
    var poll := PollAt(polls, i);
    var next := AfterPoll(buf, poll);
    if i == MaxPolls - 1 then Outcome(false, MaxPolls, next)
    else if Accepts(buf, poll) then Outcome(true, i + 1, next)
    else PollFrom(next, polls, i + 1)
  }

  /** One poll of the loop, as the loop body sees it. */
  lemma {:induction false} PollFromUnfold(buf: Packet, polls: seq<Poll>, i: nat)
    requires i < MaxPolls
    ensures var next := AfterPoll(buf, PollAt(polls, i));
      PollFrom(buf, polls, i) ==
        if i == MaxPolls - 1 then Outcome(false, MaxPolls, next)
        else if Accepts(buf, PollAt(polls, i)) then Outcome(true, i + 1, next)
        else PollFrom(next, polls, i + 1)
  {
  }

  /** The whole loop, which starts on the request `sendNTPPacket` wrote. */
  function Synchronise(polls: seq<Poll>): (r: Outcome)
    ensures 1 <= r.polls <= MaxPolls
    ensures r.synced <==> r.polls < MaxPolls
  {
    PollFrom(RequestPacket(), polls, 0)
  }

  /** The buffer after the first n polls, whatever they delivered. */
  function BufferAfter(buf: Packet, polls: seq<Poll>, n: nat): Packet
  {
    if n == 0 then buf else AfterPoll(BufferAfter(buf, polls, n - 1), PollAt(polls, n - 1))
  }

  /** Poll number n (from 1) delivers a packet that passes the gate. */
  predicate AcceptedOn(buf: Packet, polls: seq<Poll>, n: nat)
  {
    n >= 1 && Accepts(BufferAfter(buf, polls, n - 1), PollAt(polls, n - 1))
  }

  /** One poll of the loop from poll i: it either ends the loop there or
      hands the buffer it produced to poll i + 1. */
  lemma {:induction false} PollFromStep(buf: Packet, polls: seq<Poll>, i: nat)
    requires i < MaxPolls
    ensures BufferAfter(buf, polls, i + 1) == AfterPoll(BufferAfter(buf, polls, i), PollAt(polls, i))
    ensures AcceptedOn(buf, polls, i + 1) == Accepts(BufferAfter(buf, polls, i), PollAt(polls, i))
    ensures var b := BufferAfter(buf, polls, i);
      PollFrom(b, polls, i) ==
        if i == MaxPolls - 1 || AcceptedOn(buf, polls, i + 1)
        then Outcome(i < MaxPolls - 1, i + 1, BufferAfter(buf, polls, i + 1))
        else PollFrom(BufferAfter(buf, polls, i + 1), polls, i + 1)
  {
  }

  /** The buffer the loop ends with is the one its polls produced. */
  lemma {:induction false} PollFromBuffer(buf: Packet, polls: seq<Poll>, i: nat)
    requires i < MaxPolls
    ensures var r := PollFrom(BufferAfter(buf, polls, i), polls, i);
      r.buffer == BufferAfter(buf, polls, r.polls)
    decreases MaxPolls - i
  {
    PollFromStep(buf, polls, i);
    if i < MaxPolls - 1 && !AcceptedOn(buf, polls, i + 1) {
      PollFromBuffer(buf, polls, i + 1);
    }
  }

  /** The loop stops on the first accepting poll before the last one, and
      otherwise runs all 102 polls and fails. */
  lemma {:induction false} PollFromStops(buf: Packet, polls: seq<Poll>, i: nat)
    requires i < MaxPolls
    ensures var r := PollFrom(BufferAfter(buf, polls, i), polls, i);
      && (forall k :: i < k < r.polls ==> !AcceptedOn(buf, polls, k))
      && (r.synced ==> AcceptedOn(buf, polls, r.polls))
    decreases MaxPolls - i
  {
    PollFromStep(buf, polls, i);
    if i < MaxPolls - 1 && !AcceptedOn(buf, polls, i + 1) {
      PollFromStops(buf, polls, i + 1);
      var r := PollFrom(BufferAfter(buf, polls, i + 1), polls, i + 1);
      assert PollFrom(BufferAfter(buf, polls, i), polls, i) == r;
      forall k | i < k < r.polls
        ensures !AcceptedOn(buf, polls, k)
      {
        if k == i + 1 {
        } else {
          assert i + 1 < k < r.polls;
        }
      }
    }
  }

  /** `forceUpdate`'s loop succeeds exactly when one of polls 1..101 delivers
      a valid packet; it then stops at the first such poll, and the buffer
      holds a packet that passes `isValid`. Failing, it has polled 102 times. */
  lemma {:induction false} SynchroniseSpec(polls: seq<Poll>)
    ensures var r := Synchronise(polls);
      && 1 <= r.polls <= MaxPolls
      && r.buffer == BufferAfter(RequestPacket(), polls, r.polls)
      && (r.synced <==> exists n :: 1 <= n < MaxPolls && AcceptedOn(RequestPacket(), polls, n))
      && (r.synced ==> AcceptedOn(RequestPacket(), polls, r.polls) && IsValid(r.buffer))
      && (forall n :: 1 <= n < r.polls ==> !AcceptedOn(RequestPacket(), polls, n))
      && (!r.synced ==> r.polls == MaxPolls)
  {
    PollFromStops(RequestPacket(), polls, 0);
    PollFromBuffer(RequestPacket(), polls, 0);
    var r := Synchronise(polls);
    if r.synced {
      var n := r.polls;
      assert Accepts(BufferAfter(RequestPacket(), polls, n - 1), PollAt(polls, n - 1));
    }
  }

  /** A socket that never delivers anything makes `forceUpdate` give up
      after 102 polls of 10 ms each. */
  lemma {:induction false} SilenceTimesOut(polls: seq<Poll>)
    requires forall i :: 0 <= i < |polls| ==> !Arrived(polls[i])
    ensures !Synchronise(polls).synced
    ensures Synchronise(polls).polls == MaxPolls
  {
    SynchroniseSpec(polls);
  }

  /** A full-size datagram replaces the whole buffer, so whether it is
      accepted depends on its own first 48 bytes only. */
  lemma {:induction false} FullDatagramAccepts(buf: Packet, data: seq<Byte>)
    requires |data| >= PacketSize
    ensures Receive(buf, data) == data[..PacketSize]
    ensures Accepts(buf, Datagram(data)) <==> IsValid(data[..PacketSize])
  {
  }

  /** With full-size datagrams, an invalid one is discarded and polling
      goes on; a valid one on poll n < 102 ends the loop with that packet;
      a valid one on poll 102 comes too late. */
  lemma {:induction false} FullDatagramOutcome(polls: seq<Poll>, n: nat)
    requires 1 <= n <= MaxPolls
    requires n - 1 < |polls| && polls[n - 1].Datagram? && |polls[n - 1].data| >= PacketSize
    requires IsValid(polls[n - 1].data[..PacketSize])
    requires forall k :: 0 <= k < n - 1 && k < |polls| ==>
      polls[k].NoPacket? || !IsValid(Receive(BufferAfter(RequestPacket(), polls, k), polls[k].data))
    ensures Synchronise(polls).synced <==> n < MaxPolls
    ensures n < MaxPolls ==> Synchronise(polls).polls == n
    ensures n < MaxPolls ==> Synchronise(polls).buffer == polls[n - 1].data[..PacketSize]
  {
    SynchroniseSpec(polls);
    var r := Synchronise(polls);
    var req := RequestPacket();
    FullDatagramAccepts(BufferAfter(req, polls, n - 1), polls[n - 1].data);
    assert AcceptedOn(req, polls, n);
    forall k | 1 <= k < n
      ensures !AcceptedOn(req, polls, k)
    {
      assert k - 1 < |polls| ==>
        polls[k - 1].NoPacket? || !IsValid(Receive(BufferAfter(req, polls, k - 1), polls[k - 1].data));
    }
    if r.synced {
      assert r.polls >= n;
    }
  }
}
