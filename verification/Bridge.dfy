/**
 The IP-layer bridge: IPv4 packets of a device are wrapped as Ethernet frames, switched by the
 relay and unwrapped by the receivers' filters; ARP requests are answered in software.
 */
module Bridge {
  import opened Basics
  import opened Pool
  import opened Wire
  import opened RoomModel
  import opened StatusModel

  const BROADCAST_MAC: Mac := [255, 255, 255, 255, 255, 255]
  const LIMITED_BROADCAST: nat := 0xFFFF_FFFF
  const ROOM_BITS := 24

  // ---------- frames ----------

  /** The bytes copied over six zero bytes, as far as they reach. */
  function Copy6(m: Mac): (r: seq<byte>)
    ensures |r| == 6
    ensures forall i :: 0 <= i < 6 ==> r[i] == if i < |m| then m[i] else 0
    ensures |m| == 6 ==> r == m
  {
    if |m| >= 6 then m[..6] else m + [0, 0, 0, 0, 0, 0][|m|..]
  }

  function EthernetFrame(packet: seq<byte>, dst: Mac, src: Mac): seq<byte> {
    Copy6(dst) + Copy6(src) + [8, 0] + packet
  }

  predicate IsIPv4Packet(p: seq<byte>) {
    |p| >= 20 && p[0] / 16 == 4
  }

  predicate IsIPv4Frame(f: seq<byte>) {
    |f| >= 34 && f[12] == 8 && f[13] == 0 && IsIPv4Packet(f[14..])
  }

  function Destination(p: seq<byte>): nat
    requires |p| >= 20
  {
    Uint32(p[16..20])
  }

  /** 224.0.0.0/4. */
  predicate IsMulticastIP(ip: nat) {
    ip / 0x1000_0000 == 14
  }

  /** The last address of the block of the given prefix length. */
  function BroadcastIPv4(ip: nat, bits: nat): nat
    requires bits <= 32
  {
    Masked(ip, Pow2(32 - bits)) + Pow2(32 - bits) - 1
  }

  predicate ShouldDeliver(p: seq<byte>, ip: nat, roomBroadcast: nat)
    requires |p| >= 20
  {
    var dst := Destination(p);
    dst == ip || dst == LIMITED_BROADCAST || IsMulticastIP(dst) || dst == roomBroadcast
  }

  // ---------- ARP ----------

  predicate IsArpRequestFor(f: seq<byte>, ip: nat) {
    && |f| >= 42
    && f[12] == 8 && f[13] == 6
    && f[14..16] == [0, 1] && f[16..18] == [8, 0] && f[18] == 6 && f[19] == 4
    && f[20..22] == [0, 1]
    && Uint32(f[38..42]) == ip
  }

  function ArpReply(request: seq<byte>, mac: Mac, ip: nat): seq<byte>
    requires |request| >= 42 && ip < TWO_32
  {
    request[6..12] + Copy6(mac) + [8, 6] + request[14..20] + [0, 2]
    + Copy6(mac) + PutUint32(ip) + request[22..28] + request[28..32]
  }

  /** An ARP packet for IPv4 over Ethernet, as RFC 826 lays it out. */
  datatype Arp = Arp(op: nat, senderMac: Mac, senderIP: nat, targetMac: Mac, targetIP: nat)

  /** The fields of a frame that carries one. */
  function ParseArp(f: seq<byte>): Option<Arp> {
    if |f| >= 42 && f[12..20] == [8, 6, 0, 1, 8, 0, 6, 4] then
      Some(Arp(f[20] as int * 256 + f[21] as int, f[22..28], Uint32(f[28..32]), f[32..38], Uint32(f[38..42])))
    else None
  }

  // ---------- the two loops, one turn each ----------

  /** What readIPAsEthernet writes for one read of the device. */
  function SendIPv4(s: Status, mac: Mac, packet: seq<byte>): Option<seq<byte>> {
    if !IsIPv4Packet(packet) then None
    else Some(EthernetFrame(packet, PeerMac(s, Destination(packet)).GetOr(BROADCAST_MAC), mac))
  }

  datatype Outcome = Deliver(packet: seq<byte>) | Answer(frame: seq<byte>) | Ignore

  /** What writeEthernetAsIP does with one frame: a packet for the device, an ARP answer, or nothing. */
  function Receive(f: seq<byte>, mac: Mac, ip: nat): Outcome
    requires ip < TWO_32
  {
    if IsArpRequestFor(f, ip) then Answer(ArpReply(f, mac, ip))
    else if !IsIPv4Frame(f) then Ignore
    else if ShouldDeliver(f[14..], ip, BroadcastIPv4(ip, ROOM_BITS)) then Deliver(f[14..])
    else Ignore
  }

  // ---------- one frame at one receiver ----------

  /** An IPv4 packet for this address as RFC 791 lays it out: version 4 in the first half byte, the destination in bytes 16..19. */
  predicate IsPacketFor(p: seq<byte>, ip: nat)
    requires ip < TWO_32
  {
    |p| >= 20 && p[0] / 16 == 4 && p[16..20] == PutUint32(ip)
  }

  lemma PacketForIff(p: seq<byte>, ip: nat)
    requires ip < TWO_32
    ensures IsPacketFor(p, ip) <==> IsIPv4Packet(p) && Destination(p) == ip
  {
    Uint32OfPut(ip);
    if |p| >= 20 {
      PutOfUint32(p[16..20]);
    }
  }

  lemma RoomBroadcast(base: nat, ip: nat)
    requires BaseOk(base) && base <= ip < base + 256
    ensures BroadcastIPv4(ip, ROOM_BITS) == base + 255
  {
    PowersUpTo32();
    assert Pow2(32 - ROOM_BITS) == 256;
  }

  lemma FrameParts(packet: seq<byte>, dst: Mac, src: Mac)
    ensures var f := EthernetFrame(packet, dst, src);
            && |f| == 14 + |packet|
            && f[..6] == Copy6(dst) && f[6..12] == Copy6(src) && f[12] == 8 && f[13] == 0 && f[14..] == packet
  {
  }

  lemma ReceiveByDestination(r: RoomState, id: string, packet: seq<byte>, dst: Mac, src: Mac)
    requires Safe(r) && id in r.peers && IsIPv4Packet(packet)
    ensures r.peers[id].ip < TWO_32
    ensures var (p, to) := (r.peers[id], Destination(packet));
            Receive(EthernetFrame(packet, dst, src), p.mac, p.ip)
            == if to == p.ip || to == LIMITED_BROADCAST || IsMulticastIP(to) || to == r.base + 255 then Deliver(packet) else Ignore
  {
    FrameParts(packet, dst, src);
    assert MemberOk(id, r.peers[id], r.base, r.nextHost, r.freeHosts);
    RoomBroadcast(r.base, r.peers[id].ip);
  }

  /** How four bytes stand to the addresses the filter compares them with. */
  lemma AddressBytes(b: seq<byte>, ip: nat)
    requires |b| == 4 && ip < TWO_32
    ensures Uint32(b) == ip <==> b == PutUint32(ip)
    ensures Uint32(b) == LIMITED_BROADCAST <==> b == [255, 255, 255, 255]
    ensures IsMulticastIP(Uint32(b)) <==> 224 <= b[0] < 240
  {
    Uint32OfPut(ip);
    PutOfUint32(b);
  }

  /**
   A member's bridge hands a wrapped packet to its device, byte for byte, exactly when the
   destination in its header is the member's address, 255.255.255.255, in 224.0.0.0/4, or the
   last address of the room.
   */
  lemma ReceiveWrapped(r: RoomState, id: string, packet: seq<byte>, dst: Mac, src: Mac)
    requires Safe(r) && id in r.peers && |packet| >= 20 && packet[0] / 16 == 4
    ensures r.peers[id].ip < TWO_32
    ensures var (p, to) := (r.peers[id], packet[16..20]);
            Receive(EthernetFrame(packet, dst, src), p.mac, p.ip)
            == if to == PutUint32(p.ip) || to == [255, 255, 255, 255] || 224 <= to[0] < 240 || to == PutUint32(r.base + 255)
               then Deliver(packet) else Ignore
  {
    ReceiveByDestination(r, id, packet, dst, src);
    hide Receive, EthernetFrame, IsMulticastIP, PutUint32, Uint32;
    AddressBytes(packet[16..20], r.peers[id].ip);
    AddressBytes(packet[16..20], r.base + 255);
  }

  /** The bytes of an ARP request for the address. */
  predicate RequestBytes(f: seq<byte>, ip: nat)
    requires ip < TWO_32
  {
    |f| >= 42 && f[12..20] == [8, 6, 0, 1, 8, 0, 6, 4] && f[20..22] == [0, 1] && f[38..42] == PutUint32(ip)
  }

  lemma RequestBytesIff(f: seq<byte>, ip: nat)
    requires ip < TWO_32
    ensures IsArpRequestFor(f, ip) <==> RequestBytes(f, ip)
  {
    if |f| >= 42 {
      AddressBytes(f[38..42], ip);
      assert f[14..16] == [f[14], f[15]] && f[16..18] == [f[16], f[17]];
      assert f[12..20] == [f[12], f[13], f[14], f[15], f[16], f[17], f[18], f[19]];
    }
  }

  /** The bytes of a frame with an IPv4 packet for the address, for everybody, for a group or for the last address of its /24. */
  predicate PacketBytes(f: seq<byte>, ip: nat)
    requires ip < TWO_32
  {
    && |f| >= 34 && f[12] == 8 && f[13] == 0 && f[14] / 16 == 4
    && (f[30..34] in {PutUint32(ip), [255, 255, 255, 255], PutUint32(ip / 256 * 256 + 255)} || 224 <= f[30] < 240)
  }

  lemma PacketBytesIff(f: seq<byte>, ip: nat)
    requires ip < TWO_32
    ensures PacketBytes(f, ip) <==> IsIPv4Frame(f) && ShouldDeliver(f[14..], ip, BroadcastIPv4(ip, ROOM_BITS))
  {
    var base := ip / 256 * 256;
    RoomBroadcast(base, ip);
    hide BroadcastIPv4;
    if |f| >= 34 {
      assert f[14..][16..20] == f[30..34];
      AddressBytes(f[30..34], ip);
      AddressBytes(f[30..34], base + 255);
    }
  }

  /**
   Every answer of the bridge of address `ip` to any frame, from the bytes alone: an ARP request
   for it is answered; a packet it should get is delivered without the 14 bytes before it;
   anything else is ignored.
   */
  lemma ReceiveAnswers(f: seq<byte>, mac: Mac, ip: nat)
    requires ip < TWO_32
    ensures RequestBytes(f, ip) ==> Receive(f, mac, ip) == Answer(ArpReply(f, mac, ip))
    ensures !RequestBytes(f, ip) ==> Receive(f, mac, ip) == if PacketBytes(f, ip) then Deliver(f[14..]) else Ignore
  {
    RequestBytesIff(f, ip);
    PacketBytesIff(f, ip);
    hide RequestBytes, PacketBytes, IsArpRequestFor, ShouldDeliver, BroadcastIPv4, ArpReply;
  }

  /**
   Every answer of the sending side: nothing for what is no IPv4 packet; otherwise the packet behind
   a header with the MAC listed for the destination in it, or six bytes 255, and the client's own.
   */
  lemma SendAnswers(s: Status, mac: Mac, packet: seq<byte>, ip: nat)
    requires ip < TWO_32
    ensures !(|packet| >= 20 && packet[0] / 16 == 4) <==> SendIPv4(s, mac, packet) == None
    ensures IsPacketFor(packet, ip) && |mac| == 6 ==>
              var listed := PeerMac(s, ip);
              var to := if listed.Some? then Copy6(listed.value) else [255, 255, 255, 255, 255, 255];
              SendIPv4(s, mac, packet) == Some(to + mac + [8, 0] + packet)
  {
    PacketForIff(packet, ip);
  }
}
