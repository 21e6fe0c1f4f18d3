/**
  Packet framing over a byte stream: every packet is preceded by its length in two bytes, high byte
  first (section 2 of RFC 4571).
 */
module Framing {
  import opened Bytes

  const MAX_PAYLOAD := 65535

  function HighByte(n: nat): byte { n / 256 % 256 }

  function LowByte(n: nat): byte { n % 256 }

  /** The bytes written for a packet. The length is cast to sixteen bits, so it is cut off for a
      packet of 65536 bytes or more. */
  function Frame(packet: seq<byte>): seq<byte> {
    [HighByte(|packet|), LowByte(|packet|)] + packet
  }

  function Frames(packets: seq<seq<byte>>): seq<byte> {
    if packets == [] then [] else Frame(packets[0]) + Frames(packets[1..])
  }

  function PacketLength(data: seq<byte>): nat
    requires |data| >= 2
  {
    256 * (data[0] as int) + data[1]
  }

  predicate HasFrame(data: seq<byte>) {
    |data| >= 2 && |data| >= 2 + PacketLength(data)
  }

  datatype Parsed = Parsed(packets: seq<seq<byte>>, rest: seq<byte>)

  /** All complete frames at the front of the data, and what is left. */
  function Deframe(data: seq<byte>): Parsed {
    if !HasFrame(data) then Parsed([], data)
    else
      var end := 2 + PacketLength(data);
      var more := Deframe(data[end..]);
      Parsed([data[2..end]] + more.packets, more.rest)
  }

  /** `done` and the packets still in `rest` together are `before` and the packets in `data`. */
  ghost predicate Handing(before: seq<seq<byte>>, data: seq<byte>, done: seq<seq<byte>>, rest: seq<byte>) {
    && Deframe(data).rest == Deframe(rest).rest
    && before + Deframe(data).packets == done + Deframe(rest).packets
  }

  lemma HandingAtEnds(before: seq<seq<byte>>, data: seq<byte>, done: seq<seq<byte>>, rest: seq<byte>)
    ensures Handing(before, data, before, data)
    ensures Handing(before, data, done, rest) && !HasFrame(rest) ==>
      done == before + Deframe(data).packets && rest == Deframe(data).rest
  {
    assert done + [] == done;
  }

  lemma HandingStep(before: seq<seq<byte>>, data: seq<byte>, done: seq<seq<byte>>, rest: seq<byte>)
    requires Handing(before, data, done, rest) && HasFrame(rest)
    ensures var end := 2 + PacketLength(rest);
      Handing(before, data, done + [rest[2..end]], rest[end..])
  {
    var end := 2 + PacketLength(rest);
    Associative(done, [rest[2..end]], Deframe(rest[end..]).packets);
  }

  /** Receiving in two pieces is receiving in one: for every fragmentation the packets are the same. */
  lemma {:induction false} DeframeSplit(a: seq<byte>, b: seq<byte>)
    ensures var x := Deframe(a); var y := Deframe(x.rest + b);
      Deframe(a + b) == Parsed(x.packets + y.packets, y.rest)
    decreases |a|
  {
    if HasFrame(a) {
      var end := 2 + PacketLength(a);
      var head, tail := a[2..end], a[end..];
      assert (a + b)[end..] == tail + b && (a + b)[2..end] == head;
      DeframeSplit(tail, b);
      var x, y := Deframe(tail), Deframe(Deframe(tail).rest + b);
      assert Deframe(a) == Parsed([head] + x.packets, x.rest);
      assert Deframe(a + b) == Parsed([head] + (x.packets + y.packets), y.rest);
      Associative([head], x.packets, y.packets);
    } else {
      var y := Deframe(a + b);
      assert [] + y.packets == y.packets;
    }
  }

  /** What is kept between reads is an incomplete frame, so it has at most 65536 bytes. */
  lemma {:induction false} RestIsShort(data: seq<byte>)
    ensures !HasFrame(Deframe(data).rest)
    ensures |Deframe(data).rest| <= MAX_PAYLOAD + 1
    decreases |data|
  {
    if HasFrame(data) { RestIsShort(data[2 + PacketLength(data)..]); }
  }

  predicate Fits(packets: seq<seq<byte>>) {
    forall i | 0 <= i < |packets| :: |packets[i]| <= MAX_PAYLOAD
  }

  lemma FrameThen(p: seq<byte>, tail: seq<byte>)
    requires |p| <= MAX_PAYLOAD
    ensures Deframe(Frame(p) + tail) == Parsed([p] + Deframe(tail).packets, Deframe(tail).rest)
  {
    var data := Frame(p) + tail;
    assert PacketLength(data) == |p|;
    assert data[2..2 + |p|] == p;
    assert data[2 + |p|..] == tail;
  }

  lemma {:induction false} FramesThen(packets: seq<seq<byte>>, tail: seq<byte>)
    requires Fits(packets)
    ensures Deframe(Frames(packets) + tail) == Parsed(packets + Deframe(tail).packets, Deframe(tail).rest)
    decreases |packets|
  {
    if packets == [] {
      assert Frames(packets) + tail == tail;
      assert packets + Deframe(tail).packets == Deframe(tail).packets;
    } else {
      var p, more := packets[0], packets[1..];
      FramesThen(more, tail);
      Associative(Frame(p), Frames(more), tail);
      FrameThen(p, Frames(more) + tail);
      Associative([p], more, Deframe(tail).packets);
      assert packets == [p] + more;
    }
  }

  lemma {:induction false} FramesAppend(a: seq<seq<byte>>, b: seq<seq<byte>>)
    ensures Frames(a + b) == Frames(a) + Frames(b)
    decreases |a|
  {
    if a == [] {
      assert a + b == b;
    } else {
      assert (a + b)[1..] == a[1..] + b;
      FramesAppend(a[1..], b);
    }
  }

  /** A prefix of the stream yields a prefix of the packets, and every packet whose frame has
      arrived completely is among them. */
  lemma {:induction false} PrefixGivesPrefix(packets: seq<seq<byte>>, n: nat)
    requires Fits(packets) && n <= |Frames(packets)|
    ensures var got := Deframe(Frames(packets)[..n]).packets;
      && got <= packets
      && forall k | 0 <= k <= |packets| && |Frames(packets[..k])| <= n :: k <= |got|
    decreases |packets|
  {
    var data := Frames(packets)[..n];
    if packets == [] {
    } else {
      var p, more := packets[0], packets[1..];
      if n < 2 + |p| {
        assert data == Frame(p)[..n];
        assert n >= 2 ==> PacketLength(data) == |p|;
        forall k | 0 < k <= |packets| ensures |Frames(packets[..k])| > n {
          assert packets[..k][0] == p;
        }
      } else {
        var m := n - 2 - |p|;
        assert data == Frame(p) + Frames(more)[..m];
        FrameThen(p, Frames(more)[..m]);
        PrefixGivesPrefix(more, m);
        forall k | 0 < k <= |packets| && |Frames(packets[..k])| <= n
          ensures k <= |Deframe(data).packets|
        {
          assert packets[..k][1..] == more[..k - 1];
          assert |Frames(more[..k - 1])| <= m;
        }
      }
    }
  }

  /** The exact domain of the framing: a packet comes back if and only if its length fits the field.
      The size check in `Send` lets 65536, 65537 and 65538 bytes through. */
  lemma FrameRoundTripIff(p: seq<byte>)
    requires |p| <= MAX_PAYLOAD + 3
    ensures Deframe(Frame(p)) == Parsed([p], []) <==> |p| <= MAX_PAYLOAD
  {
    if |p| <= MAX_PAYLOAD {
      FrameThen(p, []);
      assert Frame(p) + [] == Frame(p);
    } else {
      assert PacketLength(Frame(p)) < |p|;
      assert |Deframe(Frame(p)).packets[0]| < |p|;
    }
  }

  /** A packet of 65536 bytes is announced as empty: the receiver takes an empty packet and then
      parses the payload as if it were frames. */
  lemma OversizeIsMisread(p: seq<byte>)
    requires |p| == MAX_PAYLOAD + 1
    ensures Deframe(Frame(p)).packets == [[]] + Deframe(p).packets
  {
    var data := Frame(p);
    assert HasFrame(data) && PacketLength(data) == 0;
    assert data[2..2] == [] && data[2..] == p;
  }

  /** End to end: the sender's frames, cut at any point, read in any pieces, give back a prefix of
      the packets sent; nothing is missing once the whole stream has arrived. */
  lemma EndToEnd(sent: seq<seq<byte>>, wire: seq<byte>, unsent: seq<byte>, delivered: seq<byte>)
    requires Fits(sent) && wire + unsent == Frames(sent) && delivered <= wire
    ensures Deframe(delivered).packets <= sent
    ensures forall k | 0 <= k <= |sent| && |Frames(sent[..k])| <= |delivered| :: k <= |Deframe(delivered).packets|
    ensures unsent == [] && delivered == wire ==> Deframe(delivered) == Parsed(sent, [])
  {
    assert delivered == Frames(sent)[..|delivered|];
    PrefixGivesPrefix(sent, |delivered|);
    if unsent == [] && delivered == wire {
      FramesThen(sent, []);
      assert Frames(sent) + [] == delivered;
      assert sent + [] == sent;
    }
  }
}

/** The sending and receiving halves of a connected `AsyncTCPSocket`. */
module AsyncTcpSocket {
  import opened Bytes
  import opened Framing

  const MAX_PACKET_SIZE := 64 * 1024
  const BUF_SIZE := MAX_PACKET_SIZE + 2
  const MINIMUM_RECV_SIZE := 128

  datatype Errno = WouldBlock | MessageSize | OtherError

  /** A call of the socket's `Send`: the bytes it was offered, and its answer. */
  datatype Offer = Offer(bytes: seq<byte>, res: int)

  /** A call of the socket's `Recv`: the room it was given, and its answer. */
  datatype Reading = Reading(room: nat, len: int)

  /** The operating system's socket: it takes as many bytes as it likes, delivers as many as it
      likes, and fails when it likes. `wire` and `delivered` record what has passed, `offers` and
      `readings` how it was called. */
  class AsyncSocket {
    ghost var wire: seq<byte>
    ghost var delivered: seq<byte>
    ghost var offers: seq<Offer>
    ghost var readings: seq<Reading>
    var error: Errno

    constructor ()
      ensures wire == [] && delivered == []
    {
      wire, delivered, offers, readings, error := [], [], [], [], OtherError;
    }

    method Send(data: seq<byte>) returns (res: int)
      modifies this
      ensures res <= |data|
      ensures wire == old(wire) + data[..if res > 0 then res else 0]
      ensures offers == old(offers) + [Offer(data, res)]
      ensures delivered == old(delivered) && readings == old(readings)
    {
      res := *;
      if res > |data| { res := |data|; }
      if res > 0 { wire := wire + data[..res]; }
      offers := offers + [Offer(data, res)];
      error := *;
    }

    method Recv(buffer: array<byte>, start: nat, room: nat) returns (len: int)
      requires start + room <= buffer.Length
      modifies this, buffer
      ensures len <= room
      ensures buffer[..start] == old(buffer[..start])
      ensures delivered == old(delivered) + buffer[start..start + if len > 0 then len else 0]
      ensures readings == old(readings) + [Reading(room, len)]
      ensures wire == old(wire) && offers == old(offers)
    {
      len := *;
      if len > room { len := room; }
      var i := 0;
      while i < len
        invariant 0 <= i && (i <= len || i == 0)
        invariant buffer[..start] == old(buffer[..start])
        invariant unchanged(this)
      {
        buffer[start + i] := *;
        i := i + 1;
      }
      error := *;
      readings := readings + [Reading(room, len)];
      delivered := delivered + buffer[start..start + if len > 0 then len else 0];
    }
  }

  /** The socket took something of every offer, all in all the first `done` bytes of the data, and was
      always offered all that was left. */
  ghost predicate Accepted(offers: seq<Offer>, data: seq<byte>, done: nat) {
    done <= |data| &&
    if offers == [] then done == 0
    else
      var n := |offers| - 1;
      && 0 < offers[n].res <= done && offers[n].bytes == data[done - offers[n].res..]
      && Accepted(offers[..n], data, done - offers[n].res)
  }

  /** The data was offered until the socket had taken all of it, or refused to take more. */
  ghost predicate Flushed(offers: seq<Offer>, data: seq<byte>, taken: nat) {
    && offers != [] && taken <= |data|
    && var n := |offers| - 1;
      if taken == |data| then Accepted(offers, data, taken)
      else offers[n].res <= 0 && offers[n].bytes == data[taken..] && Accepted(offers[..n], data, taken)
  }

  lemma TakeMore(data: seq<byte>, done: nat, n: nat)
    requires done + n <= |data|
    ensures data[done..][..n] == data[done..done + n] && data[..done] + data[done..done + n] == data[..done + n]
  {
    assert data[done..][..n] == data[done..done + n];
  }

  lemma AcceptedNone(data: seq<byte>)
    ensures Accepted([], data, 0)
  {
  }

  lemma AcceptedAll(offers: seq<Offer>, data: seq<byte>)
    requires offers != [] && Accepted(offers, data, |data|)
    ensures Flushed(offers, data, |data|)
  {
  }

  lemma AcceptedOne(offers: seq<Offer>, data: seq<byte>, done: nat, offer: Offer)
    requires Accepted(offers, data, done) && done < |data| && offer.bytes == data[done..] && offer.res <= |offer.bytes|
    ensures offer.res > 0 ==> Accepted(offers + [offer], data, done + offer.res)
    ensures offer.res <= 0 ==> Flushed(offers + [offer], data, done)
  {
    assert (offers + [offer])[..|offers|] == offers;
  }

  lemma {:induction false} AcceptedFirst(offers: seq<Offer>, data: seq<byte>, done: nat)
    requires offers != [] && Accepted(offers, data, done)
    ensures offers[0].bytes == data && 0 < offers[0].res <= done
    decreases |offers|
  {
    var n := |offers| - 1;
    if n > 0 {
      AcceptedFirst(offers[..n], data, done - offers[n].res);
    }
  }

  /** The first offer is everything, and a socket that takes it is asked only once. */
  lemma FirstOffer(offers: seq<Offer>, data: seq<byte>, taken: nat)
    requires Flushed(offers, data, taken) && data != []
    ensures offers != [] && offers[0].bytes == data
    ensures offers[0].res == |data| ==> taken == |data|
    ensures taken == |data| <==> offers[|offers| - 1].res > 0
  {
    var n := |offers| - 1;
    if taken == |data| {
      AcceptedFirst(offers, data, taken);
    } else if n > 0 {
      AcceptedFirst(offers[..n], data, taken);
    }
  }

  /** Every reading filled the room there was, but for the last, which was short, empty or failed. */
  ghost predicate Drained(readings: seq<Reading>) {
    && readings != []
    && (forall k | 0 <= k < |readings| - 1 :: 0 < readings[k].len == readings[k].room)
    && var last := readings[|readings| - 1]; last.len <= 0 || last.len < last.room
  }

  /** The capacity of the input buffer when `Recv` is called. */
  function GrownCapacity(capacity: nat, size: nat): nat
    requires size <= capacity
  {
    if capacity - size < MINIMUM_RECV_SIZE && capacity < BUF_SIZE then Max(capacity, Min(BUF_SIZE, 2 * capacity))
    else capacity
  }

  /** In step with the packets sent before, the wire and the buffer are in step with one more packet
      once its frame is divided between them; if the buffer is emptied, only a wire that took nothing
      still is. */
  lemma FrameSent(wire: seq<byte>, sent: seq<seq<byte>>, packet: seq<byte>, taken: nat)
    requires taken <= |Frame(packet)|
    ensures |Frame(packet)| == 2 + |packet|
    ensures wire + [] == Frames(sent) ==>
      wire + Frame(packet)[..taken] + Frame(packet)[taken..] == Frames(sent + [packet])
    ensures wire + [] == Frames(sent) ==> (wire + Frame(packet)[..taken] + [] == Frames(sent) <==> taken == 0)
    ensures wire + Frame(packet)[..taken] == wire <==> taken == 0
  {
    var frame := Frame(packet);
    assert wire + [] == wire && |wire + frame[..taken]| == |wire| + taken;
    assert wire + frame[..taken] + frame[taken..] == wire + frame;
    FramesAppend(sent, [packet]);
    assert Frames([packet]) == frame + [] == frame;
  }

  lemma FrameFlushed(offers: seq<Offer>, packet: seq<byte>, taken: nat)
    requires Flushed(offers, Frame(packet), taken)
    ensures offers != [] && offers[0].bytes == Frame(packet) && Frame(packet)[..|Frame(packet)|] == Frame(packet)
    ensures offers[0].res == |Frame(packet)| ==> taken == |Frame(packet)|
    ensures Frame(packet)[|Frame(packet)|..] == []
  {
    FirstOffer(offers, Frame(packet), taken);
  }

  /** After any read event there is room to read more: 128 bytes, unless the buffer has reached its
      limit. It grows by no more than its size, and only if it has to. */
  lemma RoomToReadMore(capacity: nat, size: nat)
    requires MINIMUM_RECV_SIZE <= capacity <= BUF_SIZE && size <= capacity && size <= MAX_PAYLOAD + 1
    ensures size < GrownCapacity(capacity, size) <= 65538
    ensures GrownCapacity(capacity, size) - size >= 128 || GrownCapacity(capacity, size) == 65538
    ensures capacity <= GrownCapacity(capacity, size) <= 2 * capacity
    ensures capacity - size >= 128 ==> GrownCapacity(capacity, size) == capacity
  {
  }

  /** The sizes that pass the check in `Send` although the packet does not survive. */
  lemma LostSizes(p: seq<byte>)
    ensures |p| <= BUF_SIZE && Deframe(Frame(p)) != Parsed([p], []) <==> 65536 <= |p| <= 65538
  {
    hide Deframe, Frame;
    if |p| <= BUF_SIZE { FrameRoundTripIff(p); }
  }

  class TcpSocket {
    const socket: AsyncSocket
    var outbuf: seq<byte>
    var inbuf: array<byte>
    var insize: nat

    /** The packets handed to the owner so far, in order. */
    var signaled: seq<seq<byte>>
    /** The packets that were neither refused nor dropped. */
    ghost var sent: seq<seq<byte>>

    constructor (socket: AsyncSocket)
      requires socket.wire == [] && socket.delivered == []
      ensures this.socket == socket && fresh(inbuf)
      ensures sent == [] && signaled == []
      ensures InSync() && ReceiverOk()
    {
      this.socket := socket;
      outbuf, signaled, sent := [], [], [];
      inbuf, insize := new byte[MINIMUM_RECV_SIZE], 0;
    }

    /** What is on the wire and what is still buffered is exactly the frames of the packets sent. */
    ghost predicate InSync()
      reads this, socket
    {
      socket.wire + outbuf == Frames(sent)
    }

    ghost predicate ReceiverOk()
      reads this, socket, inbuf
    {
      && insize <= inbuf.Length
      && MINIMUM_RECV_SIZE <= inbuf.Length <= BUF_SIZE
      && Deframe(socket.delivered) == Parsed(signaled, inbuf[..insize])
    }

    method OfferRest(data: seq<byte>, done: nat, ghost before: seq<Offer>) returns (res: int, ghost offers: seq<Offer>)
      requires done < |data| && Accepted(before, data, done)
      modifies socket
      ensures offers == before + [Offer(data[done..], res)] && socket.offers == old(socket.offers) + [Offer(data[done..], res)]
      ensures res <= 0 ==> Flushed(offers, data, done) && socket.wire == old(socket.wire)
      ensures res > 0 ==> done + res <= |data| && Accepted(offers, data, done + res)
      ensures res > 0 ==> data[..done] + data[done..done + res] == data[..done + res]
      ensures res > 0 ==> socket.wire == old(socket.wire) + data[done..done + res]
      ensures socket.delivered == old(socket.delivered) && socket.readings == old(socket.readings)
    {
      hide Accepted, Flushed;
      res := socket.Send(data[done..]);
      offers := before + [Offer(data[done..], res)];
      AcceptedOne(before, data, done, Offer(data[done..], res));
      if res > 0 { TakeMore(data, done, res); }
    }

    /** Offers the data to the socket until all is taken or it refuses to take more. */
    method Offers(data: seq<byte>) returns (done: nat, res: int)
      requires data != []
      modifies socket
      ensures done <= |data| && (res > 0 <==> done == |data|)
      ensures socket.offers != [] && res == socket.offers[|socket.offers| - 1].res
      ensures socket.wire == old(socket.wire) + data[..done]
      ensures old(socket.offers) <= socket.offers && Flushed(socket.offers[|old(socket.offers)|..], data, done)
      ensures socket.delivered == old(socket.delivered) && socket.readings == old(socket.readings)
    {
      hide Accepted, Flushed;
      done, res := 0, 1;
      ghost var offers: seq<Offer> := [];
      AcceptedNone(data);
      while done < |data|
        invariant 0 <= done <= |data| && res > 0
        invariant done > 0 ==> offers != [] && res == offers[|offers| - 1].res
        invariant socket.wire == old(socket.wire) + data[..done]
        invariant socket.offers == old(socket.offers) + offers && Accepted(offers, data, done)
        invariant socket.delivered == old(socket.delivered) && socket.readings == old(socket.readings)
      {
        res, offers := OfferRest(data, done, offers);
        if res <= 0 { break; }
        done := done + res;
      }
      assert socket.offers[|old(socket.offers)|..] == offers;
      if done == |data| { AcceptedAll(offers, data); }
    }

    /** Writes as much of the output buffer as the socket takes. `taken` bytes move from the front of
        the buffer to the wire. */
    method FlushOutBuffer() returns (res: int, ghost taken: nat)
      requires outbuf != []
      modifies this`outbuf, socket
      ensures taken <= |old(outbuf)|
      ensures socket.wire == old(socket.wire) + old(outbuf)[..taken]
      ensures outbuf == old(outbuf)[taken..]
      ensures outbuf == [] ==> res == taken
      ensures outbuf != [] && socket.error == WouldBlock ==> res == taken
      ensures old(socket.offers) <= socket.offers && socket.offers != []
      ensures outbuf != [] && socket.error != WouldBlock ==> res == socket.offers[|socket.offers| - 1].res <= 0
      ensures Flushed(socket.offers[|old(socket.offers)|..], old(outbuf), taken)
      ensures socket.delivered == old(socket.delivered) && socket.readings == old(socket.readings)
    {
      hide Flushed;
      var done;
      done, res := Offers(outbuf);
      taken := done;
      if res > 0 {
        res := |outbuf|;
        outbuf := [];
      } else {
        if socket.error == WouldBlock { res := done; }
        outbuf := outbuf[done..];
      }
    }

    /** Sends one packet. A packet is refused when it is too long, dropped while an earlier one is
        still buffered, and dropped when the socket takes nothing of it. Otherwise it counts as sent,
        even if part of it stays in the buffer.

        The one way to lose synchronisation is an error other than "would block" after part of the
        frame is out: the rest of the frame is thrown away. */
    method Send(packet: seq<byte>) returns (res: int)
      modifies this`outbuf, this`sent, socket
      ensures socket.delivered == old(socket.delivered)
      ensures old(socket.offers) <= socket.offers
      ensures |packet| > BUF_SIZE ==> res == -1 && socket.error == MessageSize && sent == old(sent)
      ensures |packet| <= BUF_SIZE && old(outbuf) != [] ==> res == |packet| && sent == old(sent)
      ensures |packet| > BUF_SIZE || old(outbuf) != [] ==>
        socket.wire == old(socket.wire) && outbuf == old(outbuf) && socket.offers == old(socket.offers)
      ensures |packet| <= BUF_SIZE && old(outbuf) == [] ==>
        exists taken: nat :: taken <= |Frame(packet)| && socket.wire == old(socket.wire) + Frame(packet)[..taken] &&
          Flushed(socket.offers[|old(socket.offers)|..], Frame(packet), taken) &&
          if taken == |Frame(packet)| || (taken > 0 && socket.error == WouldBlock) then
            res == |packet| && sent == old(sent) + [packet] && outbuf == Frame(packet)[taken..]
          else
            res <= 0 && sent == old(sent) && outbuf == []
      // The socket is offered the whole frame, and if it takes it the packet is sent.
      ensures |packet| <= BUF_SIZE && old(outbuf) == [] ==>
        var first := |old(socket.offers)|;
        && first < |socket.offers| && socket.offers[first].bytes == Frame(packet)
        && (socket.offers[first].res == |Frame(packet)| ==>
             res == |packet| && sent == old(sent) + [packet] && outbuf == [] && socket.wire == old(socket.wire) + Frame(packet))
      ensures old(InSync()) ==> (InSync() <==> sent != old(sent) || socket.wire == old(socket.wire))
    {
      hide Frame, Frames, Flushed;
      if |packet| > BUF_SIZE {
        socket.error := MessageSize;
        return -1;
      }
      if outbuf != [] {
        return |packet|;
      }
      ghost var taken;
      res, taken := SendFrame(packet);
      FrameSent(old(socket.wire), sent, packet, taken);
      FrameFlushed(socket.offers[|old(socket.offers)|..], packet, taken);
      if res <= 0 {
        return;
      }
      sent := sent + [packet];
      res := |packet|;
    }

    /** The frame goes to the empty buffer and from there to the socket; the buffer is emptied if nothing
        is taken or the socket fails. */
    method SendFrame(packet: seq<byte>) returns (res: int, ghost taken: nat)
      requires outbuf == []
      modifies this`outbuf, socket
      ensures socket.delivered == old(socket.delivered)
      ensures taken <= |Frame(packet)| && socket.wire == old(socket.wire) + Frame(packet)[..taken]
      ensures if taken == |Frame(packet)| || (taken > 0 && socket.error == WouldBlock)
              then res > 0 && outbuf == Frame(packet)[taken..] else res <= 0 && outbuf == []
      ensures old(socket.offers) <= socket.offers && Flushed(socket.offers[|old(socket.offers)|..], Frame(packet), taken)
    {
      hide Flushed;
      outbuf := outbuf + [HighByte(|packet|), LowByte(|packet|)];
      outbuf := outbuf + packet;
      assert outbuf == Frame(packet);
      res, taken := FlushOutBuffer();
      if res <= 0 {
        outbuf := [];
      }
    }

    /** The socket is writable again: the buffered rest of a packet goes out. */
    method OnWriteEvent() returns (ready: bool)
      modifies this`outbuf, socket
      ensures ready <==> outbuf == []
      ensures socket.wire + outbuf == old(socket.wire + outbuf)
      ensures socket.delivered == old(socket.delivered) && old(socket.offers) <= socket.offers
      ensures old(outbuf) == [] ==> socket.offers == old(socket.offers)
      // The socket is offered all that is left, until it has taken that or refuses.
      ensures old(outbuf) != [] ==>
        exists taken: nat :: taken <= |old(outbuf)| && outbuf == old(outbuf)[taken..] &&
          Flushed(socket.offers[|old(socket.offers)|..], old(outbuf), taken)
      ensures old(outbuf) != [] ==>
        && socket.offers != old(socket.offers) && socket.offers[|old(socket.offers)|].bytes == old(outbuf)
        && (ready <==> socket.offers[|socket.offers| - 1].res > 0)
      ensures old(InSync()) ==> InSync()
    {
      hide Flushed;
      if outbuf != [] {
        ghost var before := outbuf;
        var res, taken := FlushOutBuffer();
        assert before == before[..taken] + before[taken..];
        FirstOffer(socket.offers[|old(socket.offers)|..], before, taken);
      }
      ready := outbuf == [];
    }

    /** Hands over every complete frame in the input buffer and moves the rest to the front. */
    method ProcessInput()
      requires insize <= inbuf.Length
      modifies this`insize, this`signaled, inbuf
      ensures insize <= inbuf.Length
      ensures signaled == old(signaled) + Deframe(old(inbuf[..insize])).packets
      ensures inbuf[..insize] == Deframe(old(inbuf[..insize])).rest
    {
      hide Handing, Deframe;
      ghost var before, data := signaled, inbuf[..insize];
      HandingAtEnds(before, data, before, data);
      while true
        invariant insize <= inbuf.Length
        invariant Handing(before, data, signaled, inbuf[..insize])
        decreases insize
      {
        if insize < 2 { break; }
        ghost var current := inbuf[..insize];
        var length: nat := 256 * (inbuf[0] as int) + inbuf[1];
        assert length == PacketLength(current);
        if insize < 2 + length { break; }
        HandingStep(before, data, signaled, current);
        assert inbuf[2..2 + length] == current[2..2 + length];
        signaled := signaled + [inbuf[2..2 + length]];
        MoveToFront(2 + length);
      }
      HandingAtEnds(before, data, signaled, inbuf[..insize]);
    }

    /** `memmove` of the bytes behind the first `count` to the front of the buffer. */
    method MoveToFront(count: nat)
      requires count <= insize <= inbuf.Length
      modifies this`insize, inbuf
      ensures insize == old(insize) - count
      ensures inbuf[..insize] == old(inbuf[count..insize])
    {
      insize := insize - count;
      forall i | 0 <= i < insize { inbuf[i] := inbuf[i + count]; }
    }

    method Grow()
      requires insize <= inbuf.Length && MINIMUM_RECV_SIZE <= inbuf.Length <= BUF_SIZE
      modifies this`inbuf
      ensures MINIMUM_RECV_SIZE <= inbuf.Length <= BUF_SIZE && (inbuf == old(inbuf) || fresh(inbuf))
      ensures insize <= inbuf.Length == GrownCapacity(old(inbuf.Length), insize)
      ensures inbuf[..insize] == old(inbuf[..insize])
    {
      var capacity := GrownCapacity(inbuf.Length, insize);
      if capacity > inbuf.Length { EnsureCapacity(capacity); }
    }

    /** One call of `Recv`, after growing the buffer if little room is left. */
    method ReceiveOnce() returns (len: int, room: nat)
      requires insize <= inbuf.Length && MINIMUM_RECV_SIZE <= inbuf.Length <= BUF_SIZE
      modifies this`insize, this`inbuf, inbuf, socket
      ensures insize <= inbuf.Length && MINIMUM_RECV_SIZE <= inbuf.Length <= BUF_SIZE
      ensures inbuf == old(inbuf) || fresh(inbuf)
      ensures room == GrownCapacity(old(inbuf.Length), old(insize)) - old(insize)
      ensures len <= room && insize == old(insize) + if len > 0 then len else 0
      ensures |socket.delivered| == |old(socket.delivered)| + (insize - old(insize))
      ensures old(socket.delivered) <= socket.delivered
      ensures inbuf[..insize] == old(inbuf[..insize]) + socket.delivered[|old(socket.delivered)|..]
      ensures socket.readings == old(socket.readings) + [Reading(room, len)]
      ensures socket.wire == old(socket.wire)
    {
      hide GrownCapacity;
      Grow();
      room := inbuf.Length - insize;
      ghost var before, kept := socket.delivered, inbuf[..insize];
      len := socket.Recv(inbuf, insize, room);
      assert socket.delivered[|before|..] == inbuf[insize..insize + if len > 0 then len else 0];
      if len > 0 {
        assert inbuf[..insize + len] == kept + inbuf[insize..insize + len];
        insize := insize + len;
      }
    }

    /** Reads until the socket has no more to give, fails, or the buffer is full. */
    method ReceiveAll() returns (total: nat)
      requires insize <= inbuf.Length && MINIMUM_RECV_SIZE <= inbuf.Length <= BUF_SIZE
      modifies this`insize, this`inbuf, inbuf, socket
      ensures insize <= inbuf.Length && MINIMUM_RECV_SIZE <= inbuf.Length <= BUF_SIZE
      ensures inbuf == old(inbuf) || fresh(inbuf)
      ensures old(socket.delivered) <= socket.delivered
      ensures total == |socket.delivered| - |old(socket.delivered)|
      ensures inbuf[..insize] == old(inbuf[..insize]) + socket.delivered[|old(socket.delivered)|..]
      ensures old(socket.readings) <= socket.readings && Drained(socket.readings[|old(socket.readings)|..])
      ensures socket.wire == old(socket.wire)
    {
      total := 0;
      ghost var readings: seq<Reading> := [];
      ghost var n, kept := |socket.delivered|, inbuf[..insize];
      while true
        invariant insize <= inbuf.Length && MINIMUM_RECV_SIZE <= inbuf.Length <= BUF_SIZE
        invariant inbuf == old(inbuf) || fresh(inbuf)
        invariant socket.wire == old(socket.wire) && old(socket.delivered) <= socket.delivered
        invariant total == |socket.delivered| - n
        invariant inbuf[..insize] == kept + socket.delivered[n..]
        invariant socket.readings == old(socket.readings) + readings
        invariant forall k | 0 <= k < |readings| :: 0 < readings[k].len == readings[k].room
        decreases BUF_SIZE - insize
      {
        ghost var before := socket.delivered;
        var len, room := ReceiveOnce();
        readings := readings + [Reading(room, len)];
        Associative(kept, before[n..], socket.delivered[|before|..]);
        assert before[n..] + socket.delivered[|before|..] == socket.delivered[n..];
        if len < 0 { break; }
        total := total + len;
        if len == 0 || len < room { break; }
      }
      assert socket.readings[|old(socket.readings)|..] == readings;
    }

    /** The socket is readable: takes what it has and hands over the packets that are complete. What
        is kept is an incomplete frame of at most 65536 bytes. */
    method OnReadEvent()
      requires ReceiverOk()
      modifies this`insize, this`inbuf, this`signaled, inbuf, socket
      ensures ReceiverOk() && (inbuf == old(inbuf) || fresh(inbuf))
      ensures old(socket.delivered) <= socket.delivered && old(signaled) <= signaled
      ensures insize <= MAX_PAYLOAD + 1
      ensures old(socket.readings) <= socket.readings && Drained(socket.readings[|old(socket.readings)|..])
      ensures socket.wire == old(socket.wire)
    {
      hide Drained;
      ghost var start, packets := socket.delivered, signaled;
      RestIsShort(start);
      var total := ReceiveAll();
      ghost var chunk := socket.delivered[|start|..];
      if total == 0 {
        assert socket.delivered == start && chunk == [];
        return;
      }
      assert socket.delivered == start + chunk;
      DeframeSplit(start, chunk);
      ProcessInput();
      RestIsShort(socket.delivered);
    }

    method EnsureCapacity(capacity: nat)
      requires insize <= inbuf.Length < capacity
      modifies this`inbuf
      ensures fresh(inbuf) && inbuf.Length == capacity
      ensures inbuf[..insize] == old(inbuf[..insize])
    {
      var grown := new byte[capacity];
      forall i | 0 <= i < insize { grown[i] := inbuf[i]; }
      inbuf := grown;
    }
  }

  /** Two connected sockets: as long as the sender has not lost synchronisation, whatever the network
      has delivered so far, the receiver has handed over a prefix of the packets sent, and all of
      them once everything has arrived. */
  lemma ReceivedIsPrefixOfSent(sender: TcpSocket, receiver: TcpSocket)
    requires sender.InSync() && Fits(sender.sent)
    requires receiver.ReceiverOk() && receiver.socket.delivered <= sender.socket.wire
    ensures receiver.signaled <= sender.sent
    ensures forall k | 0 <= k <= |sender.sent| && |Frames(sender.sent[..k])| <= |receiver.socket.delivered| ::
      k <= |receiver.signaled|
    ensures sender.outbuf == [] && receiver.socket.delivered == sender.socket.wire ==>
      receiver.signaled == sender.sent && receiver.insize == 0
  {
    EndToEnd(sender.sent, sender.socket.wire, sender.outbuf, receiver.socket.delivered);
  }

  /** What goes wrong after a lost synchronisation: three bytes of the frame of [1, 2, 3] went out
      before the error, the packet [9] follows, and the receiver hands over a packet never sent. */
  lemma PartialFrameIsMisread()
    ensures Deframe(Frame([1, 2, 3])[..3] + Frame([9])).packets == [[1, 0, 1]]
  {
    var data: seq<byte> := Frame([1, 2, 3])[..3] + Frame([9]);
    assert data == [0, 3, 1, 0, 1, 9];
    assert PacketLength(data) == 3 && data[2..5] == [1, 0, 1] && data[5..] == [9];
    assert Deframe([9]) == Parsed([], [9]);
  }

  lemma OutOfSync(wire: seq<byte>)
    requires wire == Frame([1, 2, 3])[..3] + Frame([9])
    ensures Deframe(wire).packets == [[1, 0, 1]] && wire + [] != Frames([[9]])
  {
    PartialFrameIsMisread();
    FramesThen([[9]], []);
    assert Frames([[9]]) + [] == Frames([[9]]) && wire + [] == wire;
    assert Deframe([]) == Parsed([], []);
  }

  /** A sender whose first packet fails with a hard error behind the third byte, and whose second packet
      goes through: the receiver hands over one packet, which was never sent. */
  method SendAcrossError(sender: TcpSocket) returns (first: int, ghost out: nat, second: int)
    requires sender.socket.wire == [] && sender.outbuf == [] && sender.sent == []
    modifies sender`outbuf, sender`sent, sender.socket
    ensures first <= 0 && out == 3 && second > 0 && sender.outbuf == [] ==>
      sender.sent == [[9]] && Deframe(sender.socket.wire).packets == [[1, 0, 1]] && !sender.InSync()
  {
    hide Frame, Frames, Deframe;
    first := sender.Send([1, 2, 3]);
    ghost var wire := sender.socket.wire;
    out := |wire|;
    assert first <= 0 && out == 3 ==> wire == Frame([1, 2, 3])[..3] && sender.sent == [];
    second := sender.Send([9]);
    if first <= 0 && out == 3 && second > 0 && sender.outbuf == [] {
      assert sender.socket.wire == wire + Frame([9]);
      OutOfSync(sender.socket.wire);
    }
  }
}
