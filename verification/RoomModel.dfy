/**
 One relay room as a value: the member map, the MAC table and the host allocator.

 Each function is the effect of one region of code that holds the room's lock; the classes of
 module Relay are proved against them and module RelayWorld interleaves them.
 A peer pointer is a `Peer` value whose `ref` is the allocation that made it.
 */
module RoomModel {
  import opened Basics
  import opened Sorting

  const FIRST_USABLE_HOST := 2
  const LAST_USABLE_HOST := 254

  type Mac = seq<byte>

  /** What six bytes of the random source look like. */
  type SixBytes = s: seq<byte> | |s| == 6 witness [0, 0, 0, 0, 0, 0]

  datatype RelayError =
    | RoomFull | RoomClosed | PoolFull | MacInUse | MacInvalid
    | InvalidFrame | SourceMacInvalid | RandomFailed

  datatype Peer = Peer(ref: nat, id: string, mac: Mac, ip: nat)

  datatype RoomState = RoomState(
    index: nat, name: string, base: nat,
    peers: map<string, Peer>, macs: map<Mac, Peer>,
    nextHost: nat, freeHosts: seq<nat>, closed: bool)

  /** What the random source gives one AddPeer: a peer id and six bytes, either of which can fail. */
  datatype Draw = Draw(id: Option<string>, mac: Option<SixBytes>)

  // ---------- MAC addresses ----------

  predicate IsBroadcast(mac: Mac) {
    forall i :: 0 <= i < |mac| ==> mac[i] == 255
  }

  predicate IsMulticast(mac: Mac) {
    |mac| > 0 && mac[0] % 2 == 1
  }

  predicate IsGroup(mac: Mac) {
    IsBroadcast(mac) || IsMulticast(mac)
  }

  predicate ValidPeerMac(mac: Mac) {
    |mac| == 6 && !IsGroup(mac) && exists i :: 0 <= i < |mac| && mac[i] != 0
  }

  /** The random bytes with bit 1 of the first set and bit 0 cleared. */
  function LocalMac(raw: SixBytes): (mac: Mac)
    ensures ValidPeerMac(mac)
    ensures mac[1..] == raw[1..] && mac[0] / 4 == raw[0] / 4 && mac[0] % 4 == 2
  {
    var mac := raw[0 := raw[0] - raw[0] % 4 + 2];
    assert mac[0] != 0 && mac[0] % 2 == 0;
    mac
  }

  // ---------- hosts ----------

  function AllocateHost(r: RoomState): (Result<nat, RelayError>, RoomState) {
    if |r.freeHosts| > 0 then (Ok(r.freeHosts[0]), r.(freeHosts := r.freeHosts[1..]))
    else if r.nextHost > LAST_USABLE_HOST then (Err(RoomFull), r)
    else (Ok(r.nextHost), r.(nextHost := (r.nextHost + 1) % 256))
  }

  function ReleaseHost(free: seq<nat>, ip: nat): seq<nat> {
    var host := ip % 256;
    if host < FIRST_USABLE_HOST || host > LAST_USABLE_HOST || host in free then free
    else Sort(false, free + [host])
  }

  // ---------- members ----------

  /** The pointer is the one in the member map. */
  predicate Current(r: RoomState, p: Peer) {
    p.id in r.peers && r.peers[p.id] == p
  }

  function Admit(r: RoomState, p: Peer): RoomState {
    r.(peers := r.peers[p.id := p], macs := r.macs[p.mac := p])
  }

  /** An empty request means that no MAC was asked for. */
  function AddPeer(r: RoomState, want: Mac, draw: Draw, ref: nat): (Result<Peer, RelayError>, RoomState) {
    if r.closed then (Err(RoomClosed), r)
    else if draw.id.None? then (Err(RandomFailed), r)
    else if want != [] && !ValidPeerMac(want) then (Err(MacInvalid), r)
    else if want != [] && want in r.macs then (Err(MacInUse), r)
    else if want == [] && draw.mac.None? then (Err(RandomFailed), r)
    else
      var mac := if want != [] then want else LocalMac(draw.mac.value);
      var (host, r1) := AllocateHost(r);
      if host.Err? then (Err(host.error), r1)
      else
        var p := Peer(ref, draw.id.value, mac, (r.base + host.value) % TWO_32);
        (Ok(p), Admit(r1, p))
  }

  /** The locked half of RemovePeer; the flag asks for deleteEmptyRoom. */
  function RemovePeer(r: RoomState, p: Peer): (bool, RoomState) {
    if !Current(r, p) then (false, r)
    else
      var r1 := r.(
        peers := r.peers - {p.id},
        freeHosts := ReleaseHost(r.freeHosts, p.ip),
        macs := map m | m in r.macs && r.macs[m] != p :: r.macs[m]);
      (|r1.peers| == 0, r1)
  }

  function Others(r: RoomState, from: Peer): set<Peer> {
    set id | id in r.peers && r.peers[id] != from :: r.peers[id]
  }

  /** The targets of a frame; the slice the source returns lists them in no particular order. */
  function Forward(r: RoomState, from: Peer, frame: seq<byte>): (Result<set<Peer>, RelayError>, RoomState) {
    if |frame| < 14 then (Err(InvalidFrame), r)
    else if frame[6..12] != from.mac then (Err(SourceMacInvalid), r)
    else if !Current(r, from) then (Ok({}), r)
    else
      var r1 := r.(macs := r.macs[from.mac := from]);
      var dst := frame[..6];
      if IsGroup(dst) then (Ok(Others(r1, from)), r1)
      else if dst in r1.macs && r1.macs[dst] != from && Current(r1, r1.macs[dst]) then (Ok({r1.macs[dst]}), r1)
      else (Ok(Others(r1, from)), r1)
  }

  // ---------- invariants ----------

  /** Free hosts are below nextHost, in strictly ascending order. */
  predicate FreeOk(free: seq<nat>, nextHost: nat) {
    && FIRST_USABLE_HOST <= nextHost <= LAST_USABLE_HOST + 1
    && Ordered(false, free)
    && (forall h :: h in free ==> FIRST_USABLE_HOST <= h < nextHost)
  }

  /** A member's address is base plus a host that was handed out and is not free. */
  predicate MemberOk(id: string, p: Peer, base: nat, nextHost: nat, free: seq<nat>) {
    && p.id == id
    && ValidPeerMac(p.mac)
    && base + FIRST_USABLE_HOST <= p.ip < base + nextHost
    && p.ip - base !in free
  }

  predicate MembersOk(peers: map<string, Peer>, base: nat, nextHost: nat, free: seq<nat>) {
    forall id :: id in peers ==> MemberOk(id, peers[id], base, nextHost, free)
  }

  predicate DistinctAddresses(peers: map<string, Peer>) {
    forall a, b :: a in peers && b in peers && a != b ==> peers[a].ip != peers[b].ip
  }

  /** A /24 that fits below 2^32. */
  predicate BaseOk(base: nat) {
    base % 256 == 0 && base + 256 <= TWO_32
  }

  /** What the locked regions keep whatever the random source draws. */
  predicate Safe(r: RoomState) {
    && BaseOk(r.base)
    && FreeOk(r.freeHosts, r.nextHost)
    && MembersOk(r.peers, r.base, r.nextHost, r.freeHosts)
    && DistinctAddresses(r.peers)
    && (r.closed ==> r.peers == map[])
  }

  predicate Held(peers: map<string, Peer>, base: nat, h: int) {
    exists id :: id in peers && peers[id].ip == base + h
  }

  /** No host is lost: below nextHost each is free or held. */
  predicate HostsCovered(r: RoomState) {
    Covered(r.peers, r.base, r.nextHost, r.freeHosts)
  }

  predicate Covered(peers: map<string, Peer>, base: nat, nextHost: nat, free: seq<nat>) {
    forall h: int {:trigger Held(peers, base, h)} :: FIRST_USABLE_HOST <= h < nextHost && h !in free ==> Held(peers, base, h)
  }

  /** The MAC table lists exactly the members, each under its own address. */
  predicate TableAgrees(r: RoomState) {
    && (forall id :: id in r.peers ==> r.peers[id].mac in r.macs && r.macs[r.peers[id].mac] == r.peers[id])
    && (forall m :: m in r.macs ==> r.macs[m].mac == m && Current(r, r.macs[m]))
  }

  /** What they keep besides, as long as drawn ids and MACs are new to the room. */
  predicate Exact(r: RoomState) {
    Safe(r) && HostsCovered(r) && TableAgrees(r)
  }

  predicate FreshDraw(r: RoomState, want: Mac, draw: Draw) {
    && (draw.id.Some? ==> draw.id.value !in r.peers)
    && (want == [] && draw.mac.Some? ==> LocalMac(draw.mac.value) !in r.macs)
  }

  // ---------- each locked region keeps them ----------

  lemma AllocateKeepsSafe(r: RoomState)
    requires Safe(r)
    ensures Safe(AllocateHost(r).1)
    ensures var (host, r1) := AllocateHost(r);
            host.Ok? ==>
              && FIRST_USABLE_HOST <= host.value < r1.nextHost
              && host.value !in r1.freeHosts
              && !Held(r.peers, r.base, host.value)
  {
    if |r.freeHosts| > 0 {
      assert r.freeHosts[0] in r.freeHosts;
      assert forall h :: h in r.freeHosts[1..] ==> h in r.freeHosts;
    }
  }

  lemma AdmitKeepsSafe(r: RoomState, p: Peer)
    requires Safe(r) && !r.closed
    requires MemberOk(p.id, p, r.base, r.nextHost, r.freeHosts) && !Held(r.peers, r.base, p.ip - r.base)
    ensures Safe(Admit(r, p))
  {
    var peers := r.peers[p.id := p];
    forall a, b | a in peers && b in peers && a != b ensures peers[a].ip != peers[b].ip {
    }
  }

  /** What a successful AddPeer hands out, before the member map changes. */
  lemma AddHandsOut(r: RoomState, want: Mac, draw: Draw, ref: nat)
    requires Safe(r) && AddPeer(r, want, draw, ref).0.Ok?
    ensures var (p, r1) := (AddPeer(r, want, draw, ref).0.value, AllocateHost(r).1);
            && AllocateHost(r).0.Ok?
            && !r.closed && r1.peers == r.peers && r1.macs == r.macs && r1.base == r.base
            && p.ip == r.base + AllocateHost(r).0.value
            && MemberOk(p.id, p, r1.base, r1.nextHost, r1.freeHosts)
            && !Held(r.peers, r.base, p.ip - r.base)
            && AddPeer(r, want, draw, ref).1 == Admit(r1, p)
  {
    AllocateKeepsSafe(r);
  }

  lemma AddKeepsSafe(r: RoomState, want: Mac, draw: Draw, ref: nat)
    requires Safe(r)
    ensures Safe(AddPeer(r, want, draw, ref).1)
  {
    AllocateKeepsSafe(r);
    var res := AddPeer(r, want, draw, ref).0;
    if res.Ok? {
      AddHandsOut(r, want, draw, ref);
      AdmitKeepsSafe(AllocateHost(r).1, res.value);
    }
  }

  lemma RemoveKeepsSafe(r: RoomState, p: Peer)
    requires Safe(r)
    ensures Safe(RemovePeer(r, p).1)
  {
    if Current(r, p) {
      ReleaseKeepsFree(r, p);
      var (free, rest) := (ReleaseHost(r.freeHosts, p.ip), r.peers - {p.id});
      forall id | id in rest ensures MemberOk(id, rest[id], r.base, r.nextHost, free) {
        assert MemberOk(id, r.peers[id], r.base, r.nextHost, r.freeHosts);
      }
    }
  }

  /** Releasing a member's host adds it, and nothing else, to the free ones, in order. */
  lemma ReleaseKeepsFree(r: RoomState, p: Peer)
    requires Safe(r) && Current(r, p)
    ensures FreeOk(ReleaseHost(r.freeHosts, p.ip), r.nextHost)
    ensures forall h :: h in ReleaseHost(r.freeHosts, p.ip) <==> h in r.freeHosts || r.base + h == p.ip
  {
    assert MemberOk(p.id, p, r.base, r.nextHost, r.freeHosts);
    assert p.ip % 256 == p.ip - r.base;
  }

  lemma ForwardKeepsSafe(r: RoomState, from: Peer, frame: seq<byte>)
    requires Safe(r)
    ensures Safe(Forward(r, from, frame).1)
  {
  }
}
