/** The client's two bridge loops over byte streams. */
module BridgeLoops {
  import opened Basics
  import opened Wire
  import opened RoomModel
  import opened StatusModel
  import opened Bridge

  /** One read of the device, and the client's status at that moment. */
  datatype Read = Read(status: Status, packet: seq<byte>)

  function FrameMessage(frame: seq<byte>): Message {
    Message(TYPE_ETHERNET_FRAME, frame)
  }

  // ---------- readIPAsEthernet ----------

  function OutMessage(r: Read, mac: Mac): Option<Message> {
    var frame := SendIPv4(r.status, mac, r.packet);
    if frame.None? then None else Some(FrameMessage(frame.value))
  }

  /** The messages written for a sequence of reads; the first frame that is too large ends the loop. */
  function Outgoing(inputs: seq<Read>, mac: Mac): (ms: seq<Message>)
    ensures AllWritable(ms)
  {
    if inputs == [] then []
    else
      var m := OutMessage(inputs[0], mac);
      if m.None? then Outgoing(inputs[1..], mac)
      else if !Writable(m.value) then []
      else [m.value] + Outgoing(inputs[1..], mac)
  }

  /** One turn of the loop. */
  method SendOne(r: Read, writer: Stream, mac: Mac) returns (err: Option<WireError>)
    modifies writer
    ensures match OutMessage(r, mac)
            case None => err.None? && writer.data == old(writer.data)
            case Some(m) =>
              && err == (if Writable(m) then None else Some(PayloadTooLarge))
              && writer.data == if Writable(m) then old(writer.data) + Encode(m) else old(writer.data)
  {
    if |r.packet| == 0 || !IsIPv4Packet(r.packet) {
      return None;
    }
    var dst := PeerMac(r.status, Destination(r.packet));
    if dst.None? {
      dst := Some(BROADCAST_MAC);
    }
    err := writer.WriteMessage(FrameMessage(EthernetFrame(r.packet, dst.value, mac)));
  }

  lemma Regroup<T>(a: seq<T>, b: seq<T>, c: seq<T>)
    ensures a + b + c == a + (b + c)
  {
  }

  lemma OutgoingStep(inputs: seq<Read>, i: nat, mac: Mac)
    requires i < |inputs|
    ensures var m := OutMessage(inputs[i], mac);
            var (here, next) := (EncodeAll(Outgoing(inputs[i..], mac)), EncodeAll(Outgoing(inputs[i + 1..], mac)));
            here == if m.None? then next else if Writable(m.value) then Encode(m.value) + next else []
  {
    assert inputs[i..][1..] == inputs[i + 1..];
    var m := OutMessage(inputs[i], mac);
    if m.Some? && Writable(m.value) {
      assert ([m.value] + Outgoing(inputs[i + 1..], mac))[1..] == Outgoing(inputs[i + 1..], mac);
    }
  }

  /** An IPv4 packet that does not fit a frame together with its header. */
  predicate TooBig(r: Read) {
    |r.packet| > 1586 && r.packet[0] / 16 == 4
  }

  predicate NoneTooBig(inputs: seq<Read>) {
    forall i :: 0 <= i < |inputs| ==> !TooBig(inputs[i])
  }

  lemma OutMessageIs(r: Read, mac: Mac)
    ensures var m := OutMessage(r, mac);
            && m == (if |r.packet| >= 20 && r.packet[0] / 16 == 4
                     then Some(Message(4, SendIPv4(r.status, mac, r.packet).value)) else None)
            && (m.Some? && !Writable(m.value) <==> TooBig(r))
  {
    if |r.packet| >= 20 {
      FrameParts(r.packet, PeerMac(r.status, Destination(r.packet)).GetOr(BROADCAST_MAC), mac);
    }
  }

  /**
   What is sent for a sequence of reads: each IPv4 packet's frame in turn, nothing for other
   reads, and nothing at all from the first packet that is too big.
   */
  lemma {:induction false} OutgoingAnswers(a: seq<Read>, r: Read, b: seq<Read>, mac: Mac)
    requires NoneTooBig(a)
    ensures var frame := SendIPv4(r.status, mac, r.packet);
            Outgoing(a + [r] + b, mac) == Outgoing(a, mac) +
              if TooBig(r) then []
              else if |r.packet| >= 20 && r.packet[0] / 16 == 4 then [Message(4, frame.value)] + Outgoing(b, mac)
              else Outgoing(b, mac)
  {
    hide SendIPv4, Writable;
    var all := a + [r] + b;
    if a == [] {
      assert all[0] == r && all[1..] == b;
      OutMessageIs(r, mac);
    } else {
      assert all[0] == a[0] && all[1..] == a[1..] + [r] + b;
      OutMessageIs(a[0], mac);
      OutgoingAnswers(a[1..], r, b, mac);
    }
  }

  /** What is written is exactly the encoding of the wrapped packets, in order. */
  method ReadIPAsEthernet(inputs: seq<Read>, writer: Stream, mac: Mac) returns (err: Option<WireError>)
    modifies writer
    ensures writer.data == old(writer.data) + EncodeAll(Outgoing(inputs, mac))
    ensures err == if NoneTooBig(inputs) then None else Some(PayloadTooLarge)
  {
    hide Outgoing, OutMessage, EncodeAll, Encode, TooBig;
    err := None;
    ghost var (goal, rest) := (writer.data + EncodeAll(Outgoing(inputs, mac)), EncodeAll(Outgoing(inputs, mac)));
    assert inputs[0..] == inputs;
    for i := 0 to |inputs|
      invariant rest == EncodeAll(Outgoing(inputs[i..], mac)) && writer.data + rest == goal
      invariant err.None? && NoneTooBig(inputs[..i])
    {
      OutgoingStep(inputs, i, mac);
      OutMessageIs(inputs[i], mac);
      ghost var (was, m) := (writer.data, OutMessage(inputs[i], mac));
      err := SendOne(inputs[i], writer, mac);
      if err.Some? {
        return;
      }
      rest := EncodeAll(Outgoing(inputs[i + 1..], mac));
      if m.Some? {
        Regroup(was, Encode(m.value), rest);
      }
    }
    NothingLeft(inputs, mac);
  }

  lemma NothingLeft(inputs: seq<Read>, mac: Mac)
    ensures EncodeAll(Outgoing(inputs[|inputs|..], mac)) == []
  {
  }

  // ---------- writeEthernetAsIP ----------

  /** The packet a message gives the device, if any. */
  function PacketOf(m: Message, mac: Mac, ip: nat): seq<seq<byte>>
    requires ip < TWO_32
  {
    var outcome := Receive(m.payload, mac, ip);
    if m.typ == TYPE_ETHERNET_FRAME && outcome.Deliver? then [outcome.packet] else []
  }

  /** The ARP answer it is sent, if any. */
  function AnswerOf(m: Message, mac: Mac, ip: nat): seq<Message>
    requires ip < TWO_32
  {
    var outcome := Receive(m.payload, mac, ip);
    if m.typ == TYPE_ETHERNET_FRAME && outcome.Answer? then [FrameMessage(outcome.frame)] else []
  }

  function Packets(ms: seq<Message>, mac: Mac, ip: nat): seq<seq<byte>>
    requires ip < TWO_32
  {
    if ms == [] then [] else PacketOf(ms[0], mac, ip) + Packets(ms[1..], mac, ip)
  }

  function Answers(ms: seq<Message>, mac: Mac, ip: nat): (out: seq<Message>)
    requires ip < TWO_32
    ensures AllWritable(out)
  {
    if ms == [] then [] else AnswerOf(ms[0], mac, ip) + Answers(ms[1..], mac, ip)
  }

  /** What one message gives, from its bytes: only Ethernet frames count, and a request is answered and not delivered. */
  lemma MessageAnswers(m: Message, mac: Mac, ip: nat)
    requires ip < TWO_32
    ensures PacketOf(m, mac, ip)
         == if m.typ == 4 && !RequestBytes(m.payload, ip) && PacketBytes(m.payload, ip) then [m.payload[14..]] else []
    ensures AnswerOf(m, mac, ip)
         == if m.typ == 4 && RequestBytes(m.payload, ip) then [Message(4, ArpReply(m.payload, mac, ip))] else []
  {
    ReceiveAnswers(m.payload, mac, ip);
    hide RequestBytes, PacketBytes, Receive, ArpReply;
  }

  /** Messages are handled one after the other, each by itself. */
  lemma {:induction false} HandledInOrder(a: seq<Message>, b: seq<Message>, mac: Mac, ip: nat)
    requires ip < TWO_32
    ensures Packets(a + b, mac, ip) == Packets(a, mac, ip) + Packets(b, mac, ip)
    ensures Answers(a + b, mac, ip) == Answers(a, mac, ip) + Answers(b, mac, ip)
    ensures |a| == 1 ==> Packets(a, mac, ip) == PacketOf(a[0], mac, ip) && Answers(a, mac, ip) == AnswerOf(a[0], mac, ip)
  {
    hide PacketOf, AnswerOf;
    if a == [] {
      assert a + b == b;
    } else {
      assert (a + b)[0] == a[0] && (a + b)[1..] == a[1..] + b;
      HandledInOrder(a[1..], b, mac, ip);
      Regroup(PacketOf(a[0], mac, ip), Packets(a[1..], mac, ip), Packets(b, mac, ip));
      Regroup(AnswerOf(a[0], mac, ip), Answers(a[1..], mac, ip), Answers(b, mac, ip));
    }
  }

  /** One turn of the loop. */
  method HandleOne(m: Message, writer: Stream, mac: Mac, ip: nat) returns (packet: seq<seq<byte>>)
    requires ip < TWO_32
    modifies writer
    ensures packet == PacketOf(m, mac, ip) && AllWritable(AnswerOf(m, mac, ip))
    ensures writer.data == old(writer.data) + EncodeAll(AnswerOf(m, mac, ip))
  {
    packet := [];
    if m.typ != TYPE_ETHERNET_FRAME {
      return;
    }
    if IsArpRequestFor(m.payload, ip) {
      var reply := FrameMessage(ArpReply(m.payload, mac, ip));
      var failed := writer.WriteMessage(reply);
      assert failed.None?;
      assert EncodeAll([reply]) == Encode(reply) + EncodeAll([]);
      return;
    }
    if !IsIPv4Frame(m.payload) {
      return;
    }
    if !ShouldDeliver(m.payload[14..], ip, BroadcastIPv4(ip, ROOM_BITS)) {
      return;
    }
    packet := [m.payload[14..]];
  }

  lemma HandledStep(m: Message, rest: seq<Message>, mac: Mac, ip: nat)
    requires ip < TWO_32
    ensures Packets([m] + rest, mac, ip) == PacketOf(m, mac, ip) + Packets(rest, mac, ip)
    ensures AllWritable(AnswerOf(m, mac, ip))
    ensures EncodeAll(Answers([m] + rest, mac, ip)) == EncodeAll(AnswerOf(m, mac, ip)) + EncodeAll(Answers(rest, mac, ip))
  {
    assert ([m] + rest)[1..] == rest;
    EncodeAllConcat(AnswerOf(m, mac, ip), Answers(rest, mac, ip));
  }

  /** Reading one message off a stream, told by what all of the stream decodes to. */
  method ReadNext(stream: Stream) returns (read: Result<Message, WireError>)
    modifies stream
    ensures var (all, rest) := (DecodeAll(old(stream.data), MAX_FRAME_SIZE), DecodeAll(stream.data, MAX_FRAME_SIZE));
            match read
            case Err(e) => all == ([], e)
            case Ok(m) => all == ([m] + rest.0, rest.1) && |stream.data| < |old(stream.data)|
  {
    read := stream.ReadMessage(MAX_FRAME_SIZE);
  }

  /** Everything readable is handled: the device gets the packets, the stream back gets the answers, in order. */
  method WriteEthernetAsIP(stream: Stream, writer: Stream, mac: Mac, ip: nat) returns (packets: seq<seq<byte>>, err: WireError)
    requires stream != writer && ip < TWO_32
    modifies stream, writer
    ensures var (ms, e) := DecodeAll(old(stream.data), MAX_FRAME_SIZE);
            && packets == Packets(ms, mac, ip) && err == e
            && writer.data == old(writer.data) + EncodeAll(Answers(ms, mac, ip))
  {
    packets := [];
    ghost var (all, end) := DecodeAll(stream.data, MAX_FRAME_SIZE);
    ghost var left := all;
    while true
      invariant DecodeAll(stream.data, MAX_FRAME_SIZE) == (left, end)
      invariant packets + Packets(left, mac, ip) == Packets(all, mac, ip)
      invariant writer.data + EncodeAll(Answers(left, mac, ip)) == old(writer.data) + EncodeAll(Answers(all, mac, ip))
      decreases |stream.data|
    {
      var read := ReadNext(stream);
      if read.Err? {
        return packets, read.error;
      }
      left := DecodeAll(stream.data, MAX_FRAME_SIZE).0;
      HandledStep(read.value, left, mac, ip);
      Regroup(writer.data, EncodeAll(AnswerOf(read.value, mac, ip)), EncodeAll(Answers(left, mac, ip)));
      Regroup(packets, PacketOf(read.value, mac, ip), Packets(left, mac, ip));
      var packet := HandleOne(read.value, writer, mac, ip);
      packets := packets + packet;
    }
  }
}
