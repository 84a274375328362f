/** What crosses the relay between members that all use the IP-layer bridge. */
module BridgeTheorems {
  import opened Basics
  import opened Pool
  import opened Wire
  import opened RoomModel
  import opened RoomTheorems
  import opened StatusModel
  import opened Limiter
  import opened DataPlane
  import opened Bridge

  // ---------- one room ----------

  function Targets(r: RoomState, from: Peer, frame: seq<byte>): set<Peer> {
    var res := RoomModel.Forward(r, from, frame).0;
    if res.Ok? then res.value else {}
  }

  /** The frame makes this peer's bridge hand the packet to its device. */
  predicate Delivers(p: Peer, frame: seq<byte>, packet: seq<byte>) {
    p.ip < TWO_32 && Receive(frame, p.mac, p.ip) == Deliver(packet)
  }

  /** The members whose devices get the packet from one frame. */
  function Reached(r: RoomState, from: Peer, frame: seq<byte>, packet: seq<byte>): set<Peer> {
    set p | p in Targets(r, from, frame) && Delivers(p, frame, packet)
  }

  lemma WrappedTargets(r: RoomState, a: Peer, packet: seq<byte>, mac: Mac)
    requires Exact(r) && Current(r, a)
    ensures var frame := EthernetFrame(packet, mac, a.mac);
            RoomModel.Forward(r, a, frame).0 == Ok(Scan(r, a, Copy6(mac)))
  {
    FrameParts(packet, mac, a.mac);
    assert MemberOk(a.id, a, r.base, r.nextHost, r.freeHosts);
    ForwardIsScan(r, a, EthernetFrame(packet, mac, a.mac));
  }

  lemma OnlyAddresseeDelivers(r: RoomState, a: Peer, b: Peer, packet: seq<byte>, mac: Mac, p: Peer)
    requires Exact(r) && Current(r, b) && p in Others(r, a)
    requires b.ip < TWO_32 && IsPacketFor(packet, b.ip) && !IsMulticastIP(b.ip)
    ensures Delivers(p, EthernetFrame(packet, mac, a.mac), packet) <==> p == b
  {
    var id :| id in r.peers && r.peers[id] == p;
    assert p.ip == b.ip ==> p == b;
    NotABroadcast(r, b);
    PacketForIff(packet, b.ip);
    ReceiveByDestination(r, id, packet, mac, a.mac);
  }

  lemma NotABroadcast(r: RoomState, b: Peer)
    requires Safe(r) && Current(r, b)
    ensures b.ip != LIMITED_BROADCAST && b.ip != r.base + 255
  {
    assert MemberOk(b.id, b, r.base, r.nextHost, r.freeHosts);
  }

  /**
   A packet for member b, sent by member a to whatever MAC the sender's list gives: it reaches
   exactly b's device if and only if no third member owns that MAC; otherwise it reaches no
   device. In particular it arrives when the MAC is b's, is nobody's, or is the broadcast MAC.
   */
  lemma UnicastReachesIff(r: RoomState, a: Peer, b: Peer, packet: seq<byte>, mac: Mac)
    requires Exact(r) && Current(r, a) && Current(r, b) && a != b
    requires b.ip < TWO_32 && IsPacketFor(packet, b.ip) && !IsMulticastIP(b.ip)
    ensures var reached := Reached(r, a, EthernetFrame(packet, mac, a.mac), packet);
            && (reached == {b} <==> Owners(r, a, Copy6(mac)) <= {b})
            && (reached == {b} || reached == {})
  {
    var (frame, dst) := (EthernetFrame(packet, mac, a.mac), Copy6(mac));
    WrappedTargets(r, a, packet, mac);
    assert b in Others(r, a) by {
      assert r.peers[b.id] == b;
    }
    forall p | p in Others(r, a) ensures Delivers(p, frame, packet) <==> p == b {
      OnlyAddresseeDelivers(r, a, b, packet, mac, p);
    }
    GroupHasNoOwner(r, a, dst);
  }

  /** A packet for the subnet broadcast address reaches the device of every target of its frame. */
  lemma BroadcastReaches(r: RoomState, a: Peer, packet: seq<byte>, mac: Mac)
    requires Exact(r) && Current(r, a) && IsPacketFor(packet, r.base + 255)
    ensures Reached(r, a, EthernetFrame(packet, mac, a.mac), packet) == Scan(r, a, Copy6(mac))
    ensures IsGroup(Copy6(mac)) ==> Reached(r, a, EthernetFrame(packet, mac, a.mac), packet) == Others(r, a)
  {
    WrappedTargets(r, a, packet, mac);
    PacketForIff(packet, r.base + 255);
    hide IsPacketFor, Destination;
    forall p | p in Scan(r, a, Copy6(mac)) ensures Delivers(p, EthernetFrame(packet, mac, a.mac), packet) {
      assert p in Others(r, a);
      var id :| id in r.peers && r.peers[id] == p;
      ReceiveByDestination(r, id, packet, mac, a.mac);
    }
  }

  // ---------- the planes the data loop can reach ----------

  /** The action's draws, if it makes any, are new to the room. */
  predicate DrawsFresh(pl: Plane, a: Action) {
    a.Admit? ==> FreshDraw(pl.room, a.want, a.draw)
  }

  ghost predicate AllFresh(pl: Plane, acts: seq<Action>)
    decreases |acts|
  {
    acts == [] || (DrawsFresh(pl, acts[0]) && AllFresh(Step(pl, acts[0]), acts[1..]))
  }

  predicate AddressesFit(ports: map<nat, Port>) {
    forall r :: r in ports ==> ports[r].peer.ip < TWO_32
  }

  lemma StepKeepsRoomExact(pl: Plane, a: Action)
    requires MembersHavePorts(pl) && Exact(pl.room) && DrawsFresh(pl, a)
    ensures Exact(Step(pl, a).room)
  {
    match a
    case Admit(want, draw, ref) => AddKeepsExact(pl.room, want, draw, ref);
    case Remove(ref) => if ref in pl.ports { RemoveKeepsExact(pl.room, pl.ports[ref].peer); }
    case Frame(ref, payload, now) => if ref in pl.ports { ForwardKeepsRoom(pl.room, pl.ports[ref].peer, payload); }
    case Drain(ref) =>
  }

  lemma StepKeepsAddresses(pl: Plane, a: Action)
    requires AddressesFit(pl.ports)
    ensures AddressesFit(Step(pl, a).ports)
  {
  }

  /** In every run without a colliding draw the room stays exact and every member has a port. */
  lemma {:induction false} PlanesStayExact(pl: Plane, acts: seq<Action>)
    requires Inv(pl, InFrames) && Exact(pl.room) && AddressesFit(pl.ports) && AllFresh(pl, acts)
    ensures var pl1 := Run(pl, acts); Exact(pl1.room) && MembersHavePorts(pl1) && AddressesFit(pl1.ports)
    decreases |acts|
  {
    if acts != [] {
      StepKeeps(pl, acts[0], InFrames);
      StepKeepsRoomExact(pl, acts[0]);
      StepKeepsAddresses(pl, acts[0]);
      PlanesStayExact(Step(pl, acts[0]), acts[1..]);
    }
  }

  // ---------- from device to device ----------

  /** What a frame read at the other end of a data stream is, None if it cannot be written. */
  function Crosses(frame: seq<byte>): Option<seq<byte>> {
    var m := Message(TYPE_ETHERNET_FRAME, frame);
    if !Writable(m) then None
    else
      var read := Decode(Encode(m), MAX_FRAME_SIZE).0;
      if read.Ok? then Some(read.value.payload) else None
  }

  lemma CrossesIntact(frame: seq<byte>)
    ensures Crosses(frame) == if |frame| <= MAX_FRAME_SIZE then Some(frame) else None
  {
    var m := Message(TYPE_ETHERNET_FRAME, frame);
    if Writable(m) {
      DecodeOfEncode(m, [], MAX_FRAME_SIZE);
      assert Encode(m) + [] == Encode(m);
    }
  }

  /** The packets a peer's device gets from a queue of frames written to it. */
  function DevicePackets(p: Peer, frames: seq<seq<byte>>): seq<seq<byte>>
    requires p.ip < TWO_32
  {
    if frames == [] then []
    else
      var frame := Crosses(frames[0]);
      var rest := DevicePackets(p, frames[1..]);
      if frame.None? then rest
      else
        match Receive(frame.value, p.mac, p.ip)
        case Deliver(packet) => [packet] + rest
        case Answer(_) => rest
        case Ignore => rest
  }

  /** The frames a step added to a peer's queue. */
  function Added(pl: Plane, pl1: Plane, ref: nat): seq<seq<byte>>
    requires ref in pl.ports && ref in pl1.ports
  {
    if pl.ports[ref].queue <= pl1.ports[ref].queue then pl1.ports[ref].queue[|pl.ports[ref].queue|..] else []
  }

  /** The server takes a frame of this size from a's stream now: the rate limiter lets it pass. */
  predicate Allowed(pl: Plane, a: nat, size: nat, now: int)
    requires a in pl.ports
  {
    Allow(pl.ports[a].window, Offer(now, size)).0
  }

  predicate HasSpace(pl: Plane, r: nat)
    requires r in pl.ports
  {
    |pl.ports[r].queue| < FRAME_QUEUE_CAPACITY
  }

  /** A frame that is allowed is added to the queues of exactly those of its targets that have space. */
  lemma ServeAddsToTargets(pl: Plane, a: nat, frame: seq<byte>, now: int, r: nat)
    requires MembersHavePorts(pl) && a in pl.ports && r in pl.ports
    requires RoomModel.Forward(pl.room, pl.ports[a].peer, frame).0.Ok?
    ensures var (pl1, to) := (Serve(pl, a, frame, now), Targets(pl.room, pl.ports[a].peer, frame));
            && r in pl1.ports && pl.ports[r].queue <= pl1.ports[r].queue
            && Added(pl, pl1, r)
               == if pl.ports[r].peer in to && Allowed(pl, a, |frame|, now) && HasSpace(pl, r) then [frame] else []
  {
    var (from, to) := (pl.ports[a].peer, Targets(pl.room, pl.ports[a].peer, frame));
    assert pl.ports[r].peer in to <==> r in Refs(to) by {
      forall p | p in to ensures pl.ports[p.ref].peer == p {
        TargetsAreMembers(pl.room, from, frame, p);
      }
    }
    TargetsHavePorts(pl, from, frame);
  }

  /** Every entry of the sender's list with b's address carries b's MAC. */
  predicate ListsTruly(s: Status, b: Peer) {
    forall i :: 0 <= i < |s.peers| && s.peers[i].ip == Some(b.ip) ==> s.peers[i].mac == GoodMac(b.mac)
  }

  lemma {:induction false} ListedMac(s: Status, b: Peer, i: nat)
    requires ListsTruly(s, b) && i <= |s.peers|
    ensures PeerMacFrom(s, b.ip, i) in {None, Some(b.mac)}
    decreases |s.peers| - i
  {
    if i < |s.peers| {
      ListedMac(s, b, i + 1);
    }
  }

  /** A is a member of an exact room whose members have ports. Queues may be full and limits reached. */
  predicate Ready(pl: Plane, a: nat) {
    && MembersHavePorts(pl) && Exact(pl.room) && AddressesFit(pl.ports)
    && a in pl.ports && Current(pl.room, pl.ports[a].peer)
  }

  lemma DeviceGetsOne(p: Peer, frame: seq<byte>, packet: seq<byte>)
    requires p.ip < TWO_32 && |frame| <= MAX_FRAME_SIZE
    ensures Delivers(p, frame, packet) ==> DevicePackets(p, [frame]) == [packet]
    ensures !Receive(frame, p.mac, p.ip).Deliver? ==> DevicePackets(p, [frame]) == []
  {
    CrossesIntact(frame);
    assert [frame][1..] == [];
  }

  /** A member hands on the packet it was sent, or nothing. */
  lemma WrappedOrNothing(r: RoomState, a: Peer, p: Peer, packet: seq<byte>, mac: Mac)
    requires Safe(r) && p in Others(r, a) && IsIPv4Packet(packet)
    ensures var f := EthernetFrame(packet, mac, a.mac);
            p.ip < TWO_32 && (Delivers(p, f, packet) || Receive(f, p.mac, p.ip).Ignore?)
  {
    var id :| id in r.peers && r.peers[id] == p;
    ReceiveByDestination(r, id, packet, mac, a.mac);
  }

  /** From the sender's device to everybody's: each gets the packet once or not at all, as its frame and its queue decide. */
  lemma DevicesGet(pl: Plane, a: nat, packet: seq<byte>, mac: Mac, now: int, r: nat)
    requires Ready(pl, a) && IsIPv4Packet(packet) && |packet| <= 1586 && r in pl.ports
    ensures var frame := EthernetFrame(packet, mac, pl.ports[a].peer.mac);
            var pl1 := Serve(pl, a, frame, now);
            && r in pl1.ports && Crosses(frame) == Some(frame)
            && DevicePackets(pl.ports[r].peer, Added(pl, pl1, r))
               == if pl.ports[r].peer in Reached(pl.room, pl.ports[a].peer, frame, packet)
                     && Allowed(pl, a, 14 + |packet|, now) && HasSpace(pl, r) then [packet] else []
  {
    var (from, p) := (pl.ports[a].peer, pl.ports[r].peer);
    var frame := EthernetFrame(packet, mac, from.mac);
    FrameParts(packet, mac, from.mac);
    CrossesIntact(frame);
    WrappedTargets(pl.room, from, packet, mac);
    ServeAddsToTargets(pl, a, frame, now, r);
    if p in Targets(pl.room, from, frame) {
      assert p in Others(pl.room, from);
      WrappedOrNothing(pl.room, from, p, packet, mac);
      DeviceGetsOne(p, frame, packet);
    }
  }

  /**
   A hands the packet to its bridge, the frame crosses to the server and is served there, and the
   frames that adds to r's queue cross to r and give its device exactly `packets`.
   */
  predicate DevicesGetAfter(pl: Plane, a: nat, s: Status, packet: seq<byte>, now: int, r: nat, packets: seq<seq<byte>>)
    requires a in pl.ports && r in pl.ports && pl.ports[r].peer.ip < TWO_32
  {
    var frame := SendIPv4(s, pl.ports[a].peer.mac, packet);
    && frame.Some? && Crosses(frame.value) == frame
    && r in Serve(pl, a, frame.value, now).ports
    && DevicePackets(pl.ports[r].peer, Added(pl, Serve(pl, a, frame.value, now), r)) == packets
  }

  lemma ListedMacIsNobodyElses(r: RoomState, a: Peer, b: Peer, mac: Mac)
    requires Exact(r) && Current(r, a) && Current(r, b) && mac in {b.mac, BROADCAST_MAC}
    ensures Owners(r, a, Copy6(mac)) <= {b}
  {
    if mac == b.mac {
      assert MemberOk(b.id, b, r.base, r.nextHost, r.freeHosts);
      TableIsScan(r, a, mac);
    } else {
      GroupHasNoOwner(r, a, BROADCAST_MAC);
    }
  }

  /** The MAC to which a's bridge sends a packet for this address, going by its list. */
  function ChosenMac(s: Status, ip: nat): Mac {
    Copy6(PeerMac(s, ip).GetOr(BROADCAST_MAC))
  }

  /**
   A packet of at most 1586 bytes that a's device hands over for member b's address, whatever
   a's peer list says, however full the queues: b's device gets it once, byte for byte, exactly
   when no third member owns the MAC the list gives, the limiter lets the frame pass and b's
   queue has space. No other device ever gets anything.
   */
  lemma PacketReachesIff(pl: Plane, a: nat, b: nat, s: Status, packet: seq<byte>, now: int, r: nat)
    requires Ready(pl, a) && b in pl.ports && b != a && Current(pl.room, pl.ports[b].peer) && r in pl.ports
    requires IsPacketFor(packet, pl.ports[b].peer.ip) && |packet| <= 1586 && !IsMulticastIP(pl.ports[b].peer.ip)
    ensures var (pa, pb) := (pl.ports[a].peer, pl.ports[b].peer);
            var arrives := Owners(pl.room, pa, ChosenMac(s, pb.ip)) <= {pb} && Allowed(pl, a, 14 + |packet|, now) && HasSpace(pl, b);
            DevicesGetAfter(pl, a, s, packet, now, r, if r == b && arrives then [packet] else [])
  {
    var (pa, pb) := (pl.ports[a].peer, pl.ports[b].peer);
    var mac := PeerMac(s, pb.ip).GetOr(BROADCAST_MAC);
    assert SendIPv4(s, pa.mac, packet) == Some(EthernetFrame(packet, mac, pa.mac)) && IsIPv4Packet(packet) by {
      PacketForIff(packet, pb.ip);
    }
    assert pl.ports[r].peer == pb <==> r == b;
    hide IsPacketFor, IsIPv4Packet, PeerMac, EthernetFrame, SendIPv4, Owners, DevicePackets, Added, Crosses, Serve, Copy6;
    UnicastReachesIff(pl.room, pa, pb, packet, mac);
    DevicesGet(pl, a, packet, mac, now, r);
    hide Exact, MembersHavePorts, Reached;
  }

  /** With b listed truly, or its address not listed at all, only the limiter and b's queue decide. */
  lemma PacketReachesExactly(pl: Plane, a: nat, b: nat, s: Status, packet: seq<byte>, now: int, r: nat)
    requires Ready(pl, a) && b in pl.ports && b != a && Current(pl.room, pl.ports[b].peer) && r in pl.ports
    requires IsPacketFor(packet, pl.ports[b].peer.ip) && |packet| <= 1586 && !IsMulticastIP(pl.ports[b].peer.ip)
    requires ListsTruly(s, pl.ports[b].peer)
    ensures DevicesGetAfter(pl, a, s, packet, now, r,
              if r == b && Allowed(pl, a, 14 + |packet|, now) && HasSpace(pl, b) then [packet] else [])
  {
    var (pa, pb) := (pl.ports[a].peer, pl.ports[b].peer);
    ListedMac(s, pb, 0);
    ListedMacIsNobodyElses(pl.room, pa, pb, PeerMac(s, pb.ip).GetOr(BROADCAST_MAC));
    PacketReachesIff(pl, a, b, s, packet, now, r);
  }

  lemma OtherMembers(pl: Plane, a: nat, r: nat)
    requires MembersHavePorts(pl) && Safe(pl.room) && a in pl.ports && r in pl.ports
    ensures pl.ports[r].peer in Others(pl.room, pl.ports[a].peer) <==> r != a && Current(pl.room, pl.ports[r].peer)
  {
    var (pa, p) := (pl.ports[a].peer, pl.ports[r].peer);
    if Current(pl.room, p) && r != a {
      assert pl.room.peers[p.id] == p;
    }
    if p in Others(pl.room, pa) {
      var id :| id in pl.room.peers && pl.room.peers[id] == p;
      assert MemberOk(id, p, pl.room.base, pl.room.nextHost, pl.room.freeHosts);
    }
  }

  /**
   A packet for the subnet broadcast address that the limiter lets pass: every other member whose
   queue has space gets it once, and nobody else's device gets anything, unless a's list gives
   that address the MAC of a member, who is then the only one to get it.
   */
  lemma BroadcastReachesEveryone(pl: Plane, a: nat, s: Status, packet: seq<byte>, now: int, r: nat)
    requires Ready(pl, a) && r in pl.ports
    requires IsPacketFor(packet, pl.room.base + 255) && |packet| <= 1586
    ensures var (pa, p, mac) := (pl.ports[a].peer, pl.ports[r].peer, ChosenMac(s, pl.room.base + 255));
            && (PeerMac(s, pl.room.base + 255).None? ==> Owners(pl.room, pa, mac) == {})
            && DevicesGetAfter(pl, a, s, packet, now, r,
                 if r != a && Current(pl.room, p) && (Owners(pl.room, pa, mac) == {} || p.mac == mac)
                    && Allowed(pl, a, 14 + |packet|, now) && HasSpace(pl, r) then [packet] else [])
  {
    var (pa, p, mac) := (pl.ports[a].peer, pl.ports[r].peer, PeerMac(s, pl.room.base + 255).GetOr(BROADCAST_MAC));
    assert IsGroup(BROADCAST_MAC) && Copy6(BROADCAST_MAC) == BROADCAST_MAC;
    assert SendIPv4(s, pa.mac, packet) == Some(EthernetFrame(packet, mac, pa.mac)) && IsIPv4Packet(packet) by {
      PacketForIff(packet, pl.room.base + 255);
    }
    hide MembersHavePorts, Serve, DevicePackets, Added, Crosses, EthernetFrame, SendIPv4, IsIPv4Packet, IsPacketFor;
    hide Reached, Scan, Owners, Others, PeerMac, Copy6, IsGroup, HasSpace, Allowed, Current;
    ScanFinds(pl.room, pa, Copy6(mac), p);
    BroadcastBy(pl, a, packet, mac, now, r);
    hide Exact, Safe;
  }

  /** The same for a frame to a given MAC. */
  lemma BroadcastBy(pl: Plane, a: nat, packet: seq<byte>, mac: Mac, now: int, r: nat)
    requires Ready(pl, a) && r in pl.ports && IsPacketFor(packet, pl.room.base + 255) && |packet| <= 1586
    ensures var (pa, p) := (pl.ports[a].peer, pl.ports[r].peer);
            var frame := EthernetFrame(packet, mac, pa.mac);
            var pl1 := Serve(pl, a, frame, now);
            && r in pl1.ports && Crosses(frame) == Some(frame)
            && DevicePackets(p, Added(pl, pl1, r))
               == if r != a && Current(pl.room, p) && (Owners(pl.room, pa, Copy6(mac)) == {} || p.mac == Copy6(mac))
                     && Allowed(pl, a, 14 + |packet|, now) && HasSpace(pl, r) then [packet] else []
  {
    var (pa, p) := (pl.ports[a].peer, pl.ports[r].peer);
    PacketForIff(packet, pl.room.base + 255);
    hide MembersHavePorts, Serve, DevicePackets, Added, Crosses, EthernetFrame, IsIPv4Packet, IsPacketFor;
    hide Reached, Scan, Owners, Others, Copy6, IsGroup, HasSpace, Allowed;
    BroadcastReaches(pl.room, pa, packet, mac);
    ScanFinds(pl.room, pa, Copy6(mac), p);
    OtherMembers(pl, a, r);
    DevicesGet(pl, a, packet, mac, now, r);
    hide Exact, Safe;
  }

  lemma ScanFinds(r: RoomState, a: Peer, mac: Mac, p: Peer)
    requires Safe(r)
    ensures p in Scan(r, a, mac) <==> p in Others(r, a) && (Owners(r, a, mac) == {} || p.mac == mac)
    ensures IsGroup(mac) ==> Owners(r, a, mac) == {}
  {
    GroupHasNoOwner(r, a, mac);
  }

  // ---------- a stale list ----------

  /** A member that leaves frees its host, which is the next one to hand out if it is the least. */
  lemma LeavingFrees(r: RoomState, c: Peer)
    requires Exact(r) && Current(r, c) && forall h :: h in r.freeHosts ==> c.ip < r.base + h
    ensures var r1 := RemovePeer(r, c).1;
            && Exact(r1) && r1.base == r.base && r1.closed == r.closed && r1.peers == r.peers - {c.id}
            && c.mac !in r1.macs && (forall m :: m in r1.macs ==> m in r.macs)
            && |r1.freeHosts| > 0 && r1.base + r1.freeHosts[0] == c.ip
  {
    RemoveKeepsExact(r, c);
    ReleaseKeepsFree(r, c);
    var (r1, h) := (RemovePeer(r, c).1, c.ip - r.base);
    assert MemberOk(c.id, c, r.base, r.nextHost, r.freeHosts);
    assert h in r1.freeHosts && r1.freeHosts[0] in r1.freeHosts;
    assert r.macs[c.mac] == c;
  }

  /** A join with an id and a MAC that are new to a room with space. */
  lemma NewcomerJoins(r: RoomState, want: Mac, d: Draw, ref: nat)
    requires Exact(r) && want != [] && PassesChecks(r, want, d) && |r.peers| < 253 && d.id.value !in r.peers
    ensures var (res, r1) := AddPeer(r, want, d, ref);
            && res.Ok? && res.value.id == d.id.value && res.value.mac == want && res.value.ref == ref
            && Exact(r1) && r1.base == r.base && r1.closed == r.closed
            && r1.peers == r.peers[res.value.id := res.value] && r1.macs == r.macs[want := res.value]
            && (|r.freeHosts| > 0 ==> res.value.ip == r.base + r.freeHosts[0])
  {
    JoinFullExactlyAt253(r, want, d, ref);
    AddKeepsExact(r, want, d, ref);
    AddHandsOut(r, want, d, ref);
  }

  /** The two joins after c has left. */
  lemma TwoJoin(r1: RoomState, a: Peer, c: Peer, want: Mac, d: Draw, e: Draw, ref: nat, ref2: nat)
    returns (b: Peer, r2: RoomState, c2: Peer, r3: RoomState)
    requires Exact(r1) && !r1.closed && Current(r1, a) && |r1.peers| < 252
    requires ValidPeerMac(want) && want !in r1.macs && ValidPeerMac(c.mac) && c.mac !in r1.macs && want != c.mac
    requires |r1.freeHosts| > 0 && r1.base + r1.freeHosts[0] == c.ip
    requires d.id.Some? && d.id.value !in r1.peers && e.id.Some? && e.id.value !in r1.peers && e.id != d.id
    ensures AddPeer(r1, want, d, ref) == (Ok(b), r2) && AddPeer(r2, c.mac, e, ref2) == (Ok(c2), r3)
    ensures Exact(r3) && b != c2 && b.ip == c.ip && Current(r3, a) && Current(r3, b)
    ensures Owners(r3, a, c.mac) == {c2}
    ensures r3.peers == r1.peers[b.id := b][c2.id := c2]
    ensures b.ref == ref && c2.ref == ref2 && b.id == d.id.value && c2.id == e.id.value
  {
    assert want != [] && c.mac != [];
    hide Exact, AddPeer, ValidPeerMac, Owners;
    NewcomerJoins(r1, want, d, ref);
    b, r2 := AddPeer(r1, want, d, ref).0.value, AddPeer(r1, want, d, ref).1;
    NewcomerJoins(r2, c.mac, e, ref2);
    c2, r3 := AddPeer(r2, c.mac, e, ref2).0.value, AddPeer(r2, c.mac, e, ref2).1;
    TableIsScan(r3, a, c.mac);
  }

  /**
   Member c leaves, b joins and c joins again asking for its old MAC, all drawn ids being new.
   Then b has c's old address while c's old MAC belongs to a third member, so that whoever
   still lists the old c has a wrong MAC for b.
   */
  lemma AddressChangesHands(r: RoomState, a: Peer, c: Peer, want: Mac, d: Draw, e: Draw, ref: nat, ref2: nat)
    returns (b: Peer, r2: RoomState, c2: Peer, r3: RoomState)
    requires Exact(r) && Current(r, a) && Current(r, c) && a != c && |r.peers| < 253
    requires forall h :: h in r.freeHosts ==> c.ip < r.base + h
    requires ValidPeerMac(want) && want !in r.macs
    requires d.id.Some? && d.id.value !in r.peers && e.id.Some? && e.id.value !in r.peers && e.id != d.id
    ensures AddPeer(RemovePeer(r, c).1, want, d, ref) == (Ok(b), r2) && AddPeer(r2, c.mac, e, ref2) == (Ok(c2), r3)
    ensures Exact(r3) && b != c2 && b.ip == c.ip && Current(r3, a) && Current(r3, b)
    ensures Owners(r3, a, c.mac) == {c2}
    ensures r3.peers == (r.peers - {c.id})[b.id := b][c2.id := c2]
    ensures b.ref == ref && c2.ref == ref2 && b.id == d.id.value && c2.id == e.id.value
  {
    assert ValidPeerMac(c.mac) && c.mac != want && !r.closed by {
      assert MemberOk(c.id, c, r.base, r.nextHost, r.freeHosts);
      assert r.macs[c.mac] == c;
    }
    LeavingFrees(r, c);
    var r1 := RemovePeer(r, c).1;
    assert Current(r1, a) && |r1.peers| == |r.peers| - 1 by {
      assert a.id != c.id;
      assert r1.peers.Keys == r.peers.Keys - {c.id};
    }
    hide Exact, RemovePeer, AddPeer, ValidPeerMac, Owners;
    b, r2, c2, r3 := TwoJoin(r1, a, c, want, d, e, ref, ref2);
  }

  /** In such a room a packet for b from a member that still lists c reaches no device at all. */
  lemma StaleListLosesPacket(pl: Plane, a: nat, b: nat, c: Peer, s: Status, packet: seq<byte>, now: int, r: nat)
    requires Ready(pl, a) && b in pl.ports && b != a && Current(pl.room, pl.ports[b].peer) && r in pl.ports
    requires pl.ports[b].peer.ip == c.ip && IsPacketFor(packet, c.ip) && |packet| <= 1586 && !IsMulticastIP(c.ip)
    requires ValidPeerMac(c.mac) && PeerMac(s, c.ip) == Some(c.mac)
    requires exists p :: p in Owners(pl.room, pl.ports[a].peer, c.mac) && p != pl.ports[b].peer
    ensures DevicesGetAfter(pl, a, s, packet, now, r, [])
  {
    PacketReachesIff(pl, a, b, s, packet, now, r);
  }

  /** The room of two members from which the witness starts: hosts 2 and 3 of the block at 0. */
  function TwoMembers(a: Peer, c: Peer): RoomState {
    RoomState(0, "x", 0, map[a.id := a, c.id := c], map[a.mac := a, c.mac := c], 4, [], false)
  }

  lemma TwoMembersExact(a: Peer, c: Peer)
    requires a.id != c.id && a.mac != c.mac && ValidPeerMac(a.mac) && ValidPeerMac(c.mac) && a.ip == 2 && c.ip == 3
    ensures Exact(TwoMembers(a, c)) && Current(TwoMembers(a, c), a) && Current(TwoMembers(a, c), c)
    ensures |TwoMembers(a, c).peers| == 2
  {
    var r := TwoMembers(a, c);
    assert HostsCovered(r) by {
      forall h: int | 2 <= h < 4 ensures Held(r.peers, 0, h) {
        assert r.peers[a.id].ip == 2 && r.peers[c.id].ip == 3;
      }
    }
    assert TableAgrees(r) by {
      hide ValidPeerMac;
    }
    assert r.peers.Keys == {a.id, c.id};
    hide HostsCovered, TableAgrees, ValidPeerMac;
  }

  /** A room of three members with unused ports is ready. */
  lemma ThreeReady(room: RoomState, a: Peer, b: Peer, c: Peer, pl: Plane)
    requires Exact(room) && room.peers == map[a.id := a, b.id := b, c.id := c]
    requires (a.ref, b.ref, c.ref) == (1, 3, 4) && a.id != b.id && a.id != c.id && b.id != c.id
    requires pl == Plane(room, map[1 := NewPort(a), 3 := NewPort(b), 4 := NewPort(c)], [], [])
    ensures Ready(pl, 1) && Current(room, b) && HasSpace(pl, 3) && Allowed(pl, 1, 34, 0)
  {
    assert room.peers[a.id] == a && room.peers[b.id] == b && room.peers[c.id] == c;
    forall id | id in room.peers ensures room.peers[id].ip < TWO_32 {
      assert MemberOk(id, room.peers[id], room.base, room.nextHost, room.freeHosts);
    }
  }

  lemma StaleRoom(a: Peer, c: Peer, want: Mac) returns (b: Peer, c2: Peer, r3: RoomState)
    requires a.id == "a" && c.id == "c" && a.mac != c.mac && want != a.mac && want != c.mac && a.ip == 2 && c.ip == 3
    requires ValidPeerMac(a.mac) && ValidPeerMac(c.mac) && ValidPeerMac(want)
    ensures Exact(r3) && r3.peers == map["a" := a, b.id := b, c2.id := c2] && b.ip == 3 && (b.ref, c2.ref) == (3, 4)
    ensures b.id != "a" && c2.id != "a" && b.id != c2.id && Owners(r3, a, c.mac) == {c2}
  {
    hide Exact, AddPeer, RemovePeer, ValidPeerMac, Owners;
    TwoMembersExact(a, c);
    var (d, e) := (Draw(Some("b"), None), Draw(Some("d"), None));
    var r2;
    b, r2, c2, r3 := AddressChangesHands(TwoMembers(a, c), a, c, want, d, e, 3, 4);
    assert TwoMembers(a, c).peers - {"c"} == map["a" := a];
  }

  /**
   A witness. Members a and c are in a room and a lists c truly; then c leaves, b takes its
   address 3 and c comes back at 4. A packet from a for b meets no limit and no full queue, and
   yet no device gets it.
   */
  lemma StaleListWitness(s: Status, packet: seq<byte>) returns (pl: Plane)
    requires s == Status(true, "a", 2, [PeerInfo("c", [], Some(3), GoodMac([2, 0, 0, 0, 0, 2]))], map[])
    requires |packet| == 20 && IsPacketFor(packet, 3)
    ensures Ready(pl, 1) && 3 in pl.ports && Current(pl.room, pl.ports[3].peer) && pl.ports[3].peer.ip == 3
    ensures HasSpace(pl, 3) && Allowed(pl, 1, 34, 0)
    ensures forall r :: r in pl.ports ==> pl.ports[r].peer.ip < TWO_32 && DevicesGetAfter(pl, 1, s, packet, 0, r, [])
  {
    var a, c, want := Peer(1, "a", [2, 0, 0, 0, 0, 1], 2), Peer(2, "c", [2, 0, 0, 0, 0, 2], 3), [2, 0, 0, 0, 0, 3];
    assert want[0] == a.mac[0] == c.mac[0] == 2;
    assert PeerMac(s, 3) == Some(c.mac);
    var b, c2, r3 := StaleRoom(a, c, want);
    pl := Plane(r3, map[1 := NewPort(a), 3 := NewPort(b), 4 := NewPort(c2)], [], []);
    ThreeReady(r3, a, b, c2, pl);
    hide Exact, Owners, DevicesGetAfter, ValidPeerMac, PeerMac, IsPacketFor;
    assert c2 in Owners(r3, a, c.mac) && c2 != b;
    forall i | i in pl.ports ensures pl.ports[i].peer.ip < TWO_32 && DevicesGetAfter(pl, 1, s, packet, 0, i, []) {
      StaleListLosesPacket(pl, 1, 3, c, s, packet, 0, i);
    }
  }

  // ---------- ARP ----------

  /** The bridge's test is the one the layout of an ARP request asks for. */
  lemma ArpRequestIsParsed(f: seq<byte>, ip: nat)
    ensures IsArpRequestFor(f, ip) <==> ParseArp(f).Some? && ParseArp(f).value.op == 1 && ParseArp(f).value.targetIP == ip
  {
    if |f| >= 42 {
      assert f[12..20] == [f[12], f[13]] + f[14..16] + f[16..18] + [f[18], f[19]];
      assert f[14..16] == [f[14], f[15]] && f[16..18] == [f[16], f[17]] && f[20..22] == [f[20], f[21]];
      assert f[12..20] == [f[12], f[13], f[14], f[15], f[16], f[17], f[18], f[19]];
    }
  }

  lemma ArpReplyParts(request: seq<byte>, mac: Mac, ip: nat)
    requires |request| >= 42 && ip < TWO_32 && |mac| == 6
    ensures var f := ArpReply(request, mac, ip);
            && |f| == 42 && f[..6] == request[6..12] && f[6..12] == mac
            && f[12..20] == [8, 6] + request[14..20] && f[20] == 0 && f[21] == 2
            && f[22..28] == mac && f[28..32] == PutUint32(ip)
            && f[32..38] == request[22..28] && f[38..42] == request[28..32]
  {
  }

  lemma ArpReplyIsReply(request: seq<byte>, mac: Mac, ip: nat)
    requires ip < TWO_32 && |mac| == 6 && ParseArp(request).Some?
    ensures var q := ParseArp(request).value;
            ParseArp(ArpReply(request, mac, ip)) == Some(Arp(2, mac, ip, q.senderMac, q.senderIP))
  {
    ArpReplyParts(request, mac, ip);
    Uint32OfPut(ip);
    assert request[12..20] == [request[12], request[13]] + request[14..20];
    assert [8, 6] + request[14..20] == [8, 6, 0, 1, 8, 0, 6, 4] by {
      assert request[14..20] == request[12..20][2..];
    }
  }

  /**
   An ARP request of member a, with its MAC as the source, for the address of member b. Only b answers
   it. The answer is a valid ARP reply with the roles swapped; Forward takes it from b and its
   only target is a; and no bridge, whatever its address, takes it for a request, so it is
   answered by nobody.
   */
  lemma ArpExchange(r: RoomState, a: Peer, b: Peer, request: seq<byte>)
    requires Exact(r) && Current(r, a) && Current(r, b) && a != b && b.ip < TWO_32
    requires IsArpRequestFor(request, b.ip) && request[6..12] == a.mac
    ensures var reply := ArpReply(request, b.mac, b.ip);
            && Receive(request, b.mac, b.ip) == Answer(reply)
            && (forall id :: id in r.peers && r.peers[id] != b ==> !IsArpRequestFor(request, r.peers[id].ip))
            && ParseArp(request).Some? && ParseArp(reply)
               == Some(Arp(2, b.mac, b.ip, ParseArp(request).value.senderMac, ParseArp(request).value.senderIP))
            && RoomModel.Forward(r, b, reply).0 == Ok({a})
            && (forall ip :: !IsArpRequestFor(reply, ip))
  {
    var reply := ArpReply(request, b.mac, b.ip);
    ArpRequestIsParsed(request, b.ip);
    assert MemberOk(b.id, b, r.base, r.nextHost, r.freeHosts);
    ArpReplyIsReply(request, b.mac, b.ip);
    forall ip ensures !IsArpRequestFor(reply, ip) {
      ArpRequestIsParsed(reply, ip);
    }
    ArpReplyParts(request, b.mac, b.ip);
    hide ArpReply, ParseArp;
    AnswerGoesBack(r, a, b, request, reply);
  }

  lemma AnswerGoesBack(r: RoomState, a: Peer, b: Peer, request: seq<byte>, reply: seq<byte>)
    requires Exact(r) && Current(r, a) && Current(r, b) && a != b
    requires |reply| == 42 && |request| >= 14 && request[6..12] == a.mac && reply[..6] == request[6..12] && reply[6..12] == b.mac
    ensures RoomModel.Forward(r, b, reply).0 == Ok({a})
  {
    ForwardIsScan(r, b, reply);
    TableIsScan(r, b, a.mac);
    assert r.macs[a.mac] == a;
    assert MemberOk(a.id, a, r.base, r.nextHost, r.freeHosts);
  }
}
