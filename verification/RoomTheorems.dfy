/** What the locked regions of one room keep and compute, for every room state they can meet. */
module RoomTheorems {
  import opened Basics
  import opened Sorting
  import opened RoomModel

  // ---------- MAC addresses ----------

  /** Of six bytes, the low bit of the first tells a group address; a peer may have any other but zero. */
  lemma GroupBit(mac: Mac)
    ensures |mac| == 6 ==> (IsGroup(mac) <==> mac[0] % 2 == 1)
    ensures ValidPeerMac(mac) <==> |mac| == 6 && mac[0] % 2 == 0 && mac != [0, 0, 0, 0, 0, 0]
  {
    if |mac| == 6 {
      assert IsBroadcast(mac) ==> mac[0] == 255;
      if forall i :: 0 <= i < 6 ==> mac[i] == 0 {
        assert mac == [0, 0, 0, 0, 0, 0];
      }
    }
  }

  /** Two random MACs are the same only if the draws agree in all but the two low bits of the first byte. */
  lemma LocalMacsDiffer(a: SixBytes, b: SixBytes)
    ensures LocalMac(a) == LocalMac(b) <==> a[0] / 4 == b[0] / 4 && a[1..] == b[1..]
  {
    if a[0] / 4 == b[0] / 4 && a[1..] == b[1..] {
      var (m, n) := (LocalMac(a), LocalMac(b));
      assert m[0] == n[0];
      assert m == [m[0]] + m[1..] && n == [n[0]] + n[1..];
    }
  }

  // ---------- which draws keep the tables exact ----------

  lemma CollidingIdLosesHost(r: RoomState, p: Peer)
    requires Safe(r) && p.id in r.peers
    requires MemberOk(p.id, p, r.base, r.nextHost, r.freeHosts) && !Held(r.peers, r.base, p.ip - r.base)
    ensures !HostsCovered(Admit(r, p))
  {
    var lost := r.peers[p.id].ip;
    assert MemberOk(p.id, r.peers[p.id], r.base, r.nextHost, r.freeHosts);
    assert !Held(Admit(r, p).peers, r.base, lost - r.base);
  }

  lemma CollidingMacBreaksTable(r: RoomState, p: Peer)
    requires TableAgrees(r) && p.id !in r.peers && p.mac in r.macs
    ensures !TableAgrees(Admit(r, p))
  {
    var owner := r.macs[p.mac];
    assert Current(r, owner);
    assert Admit(r, p).peers[owner.id] == owner;
  }

  lemma AdmitKeepsTable(r: RoomState, p: Peer)
    requires TableAgrees(r) && p.id !in r.peers && p.mac !in r.macs
    ensures TableAgrees(Admit(r, p))
  {
  }

  /** All hosts below nextHost but the one just handed out are still free or held. */
  lemma AllocateCovers(r: RoomState, h: int)
    requires Safe(r) && HostsCovered(r) && AllocateHost(r).0.Ok?
    requires FIRST_USABLE_HOST <= h < AllocateHost(r).1.nextHost && h !in AllocateHost(r).1.freeHosts
    requires h != AllocateHost(r).0.value
    ensures Held(r.peers, r.base, h)
  {
    if |r.freeHosts| > 0 {
      assert r.freeHosts == [r.freeHosts[0]] + r.freeHosts[1..];
    }
    assert h !in r.freeHosts;
  }

  lemma HeldAfterAdmit(r: RoomState, p: Peer, h: int)
    requires p.id !in r.peers
    ensures Held(Admit(r, p).peers, r.base, h) <==> Held(r.peers, r.base, h) || p.ip == r.base + h
  {
    var peers := Admit(r, p).peers;
    assert peers[p.id].ip == p.ip;
    if Held(r.peers, r.base, h) {
      var id :| id in r.peers && r.peers[id].ip == r.base + h;
      assert peers[id].ip == r.base + h;
    }
  }

  lemma AddCovers(r: RoomState, want: Mac, draw: Draw, ref: nat)
    requires Safe(r) && HostsCovered(r) && AddPeer(r, want, draw, ref).0.Ok?
    requires AddPeer(r, want, draw, ref).0.value.id !in r.peers
    ensures HostsCovered(AddPeer(r, want, draw, ref).1)
  {
    AddHandsOut(r, want, draw, ref);
    var p, r1 := AddPeer(r, want, draw, ref).0.value, AllocateHost(r).1;
    var r2 := Admit(r1, p);
    forall h: int | FIRST_USABLE_HOST <= h < r2.nextHost && h !in r2.freeHosts
      ensures Held(r2.peers, r2.base, h)
    {
      HeldAfterAdmit(r1, p, h);
      if h != AllocateHost(r).0.value {
        AllocateCovers(r, h);
      }
    }
  }

  lemma AdmitTableIff(r: RoomState, p: Peer)
    requires TableAgrees(r) && p.id !in r.peers
    ensures TableAgrees(Admit(r, p)) <==> p.mac !in r.macs
  {
    if p.mac in r.macs {
      CollidingMacBreaksTable(r, p);
    } else {
      AdmitKeepsTable(r, p);
    }
  }

  lemma AddHostsIff(r: RoomState, want: Mac, draw: Draw, ref: nat)
    requires Safe(r) && HostsCovered(r) && AddPeer(r, want, draw, ref).0.Ok?
    ensures HostsCovered(AddPeer(r, want, draw, ref).1) <==> AddPeer(r, want, draw, ref).0.value.id !in r.peers
  {
    var p := AddPeer(r, want, draw, ref).0.value;
    if p.id in r.peers {
      AddHandsOut(r, want, draw, ref);
      AllocateKeepsSafe(r);
      CollidingIdLosesHost(AllocateHost(r).1, p);
    } else {
      AddCovers(r, want, draw, ref);
    }
  }

  lemma AddTableIff(r: RoomState, want: Mac, draw: Draw, ref: nat)
    requires Safe(r) && TableAgrees(r) && AddPeer(r, want, draw, ref).0.Ok?
    requires AddPeer(r, want, draw, ref).0.value.id !in r.peers
    ensures TableAgrees(AddPeer(r, want, draw, ref).1) <==> AddPeer(r, want, draw, ref).0.value.mac !in r.macs
  {
    AddHandsOut(r, want, draw, ref);
    var p, r1 := AddPeer(r, want, draw, ref).0.value, AllocateHost(r).1;
    assert TableAgrees(r1);
    AdmitTableIff(r1, p);
  }

  /**
   Exactly when a successful join keeps the host partition and the MAC table exact: when the id
   and the MAC it ends up with are new to the room. The source draws both at random unchecked.
   */
  lemma AddKeepsExactIff(r: RoomState, want: Mac, draw: Draw, ref: nat, p: Peer, r2: RoomState)
    requires Exact(r) && AddPeer(r, want, draw, ref) == (Ok(p), r2)
    ensures HostsCovered(r2) <==> p.id !in r.peers
    ensures Exact(r2) <==> p.id !in r.peers && p.mac !in r.macs
  {
    AddKeepsSafe(r, want, draw, ref);
    AddHostsIff(r, want, draw, ref);
    if p.id !in r.peers {
      AddTableIff(r, want, draw, ref);
    }
  }

  lemma AddKeepsExact(r: RoomState, want: Mac, draw: Draw, ref: nat)
    requires Exact(r) && FreshDraw(r, want, draw)
    ensures Exact(AddPeer(r, want, draw, ref).1)
  {
    var (res, r2) := AddPeer(r, want, draw, ref);
    if res.Ok? {
      AddKeepsExactIff(r, want, draw, ref, res.value, r2);
    }
  }

  /**
   What a join answers, in the order of the checks: a closed room, a failed draw of the id, a MAC
   asked for that no peer may have, one that is in the table, a failed draw of the MAC, no host.
   The peer it makes has the id drawn, the MAC asked for or the one drawn, and the caller's ref.
   */
  lemma JoinAnswers(r: RoomState, want: Mac, draw: Draw, ref: nat)
    ensures var res := AddPeer(r, want, draw, ref).0;
            && (res == Err(RoomClosed) <==> r.closed)
            && (res == Err(MacInvalid) <==> !r.closed && draw.id.Some? && want != [] && !(|want| == 6 && want[0] % 2 == 0 && want != [0, 0, 0, 0, 0, 0]))
            && (res == Err(MacInUse) <==>
                  !r.closed && draw.id.Some? && |want| == 6 && want[0] % 2 == 0 && want != [0, 0, 0, 0, 0, 0] && want in r.macs)
            && (res == Err(RandomFailed) <==> !r.closed && (draw.id.None? || (want == [] && draw.mac.None?)))
            && (res.Err? ==> res.error in {RoomClosed, RandomFailed, MacInvalid, MacInUse, RoomFull})
            && (res.Ok? ==>
                  && draw.id == Some(res.value.id) && res.value.ref == ref
                  && if want != [] then res.value.mac == want else draw.mac.Some? && res.value.mac == LocalMac(draw.mac.value))
  {
    GroupBit(want);
  }

  /** Two members of any rooms who asked for no MAC have different ones if their last five bytes were drawn different. */
  lemma DrawnMacsDiffer(r: RoomState, d: Draw, ref: nat, s: RoomState, e: Draw, ref2: nat)
    requires AddPeer(r, [], d, ref).0.Ok? && AddPeer(s, [], e, ref2).0.Ok?
    ensures d.mac.Some? && e.mac.Some?
    ensures d.mac.value[1..] != e.mac.value[1..] ==>
              AddPeer(r, [], d, ref).0.value.mac != AddPeer(s, [], e, ref2).0.value.mac
  {
    JoinAnswers(r, [], d, ref);
    JoinAnswers(s, [], e, ref2);
    LocalMacsDiffer(d.mac.value, e.mac.value);
  }

  // ---------- hosts lost for good ----------

  /** Host h was handed out, is not free and belongs to no member. */
  predicate Lost(r: RoomState, h: int) {
    FIRST_USABLE_HOST <= h < r.nextHost && h !in r.freeHosts && !Held(r.peers, r.base, h)
  }

  /** A room has lost a host exactly when its hosts are not covered. */
  lemma LostIffNotCovered(r: RoomState)
    ensures HostsCovered(r) <==> forall h :: !Lost(r, h)
  {
    if forall h :: !Lost(r, h) {
      forall h: int | FIRST_USABLE_HOST <= h < r.nextHost && h !in r.freeHosts ensures Held(r.peers, r.base, h) {
        assert !Lost(r, h);
      }
    }
  }

  /** A drawn id that a member has: the join succeeds all the same, and that member's host is lost. */
  lemma CollidingJoinLosesHost(r: RoomState, want: Mac, draw: Draw, ref: nat)
    requires Exact(r) && PassesChecks(r, want, draw) && |r.peers| < 253 && draw.id.value in r.peers
    ensures var (res, r2) := AddPeer(r, want, draw, ref);
            res.Ok? && Lost(r2, r.peers[draw.id.value].ip - r.base)
  {
    JoinFullExactlyAt253(r, want, draw, ref);
    AddHandsOut(r, want, draw, ref);
    var (p, was) := (AddPeer(r, want, draw, ref).0.value, r.peers[draw.id.value]);
    assert MemberOk(was.id, was, r.base, r.nextHost, r.freeHosts);
    var r2 := AddPeer(r, want, draw, ref).1;
    forall id | id in r2.peers ensures r2.peers[id].ip != was.ip {
    }
  }

  lemma FirstMember(r: RoomState, want: Mac, draw: Draw, ref: nat)
    requires r == RoomState(0, "x", 0, map[], map[], FIRST_USABLE_HOST, [], false)
    requires ValidPeerMac(want) && draw.id.Some?
    ensures var r1 := AddPeer(r, want, draw, ref).1;
            && Exact(r1) && r1.base == 0 && !r1.closed
            && r1.peers == map[draw.id.value := Peer(ref, draw.id.value, want, 2)] && r1.macs.Keys == {want}
  {
    assert want != [];
    hide ValidPeerMac;
    assert Exact(r);
    AddKeepsExact(r, want, draw, ref);
    hide Exact;
  }

  /** A witness: two joins of a new room that draw the same id lose host 2. */
  lemma CollisionWitness(r: RoomState, want: Mac, other: Mac, draw: Draw, ref: nat, ref2: nat)
    requires r == RoomState(0, "x", 0, map[], map[], FIRST_USABLE_HOST, [], false)
    requires want == [2, 0, 0, 0, 0, 1] && other == [2, 0, 0, 0, 0, 2] && draw == Draw(Some("i"), None)
    ensures var r1 := AddPeer(r, want, draw, ref).1;
            var (res, r2) := AddPeer(r1, other, draw, ref2);
            Exact(r1) && |r1.peers| == 1 && res.Ok? && Lost(r2, 2)
  {
    assert want[0] == other[0] == 2 && want[5] != other[5];
    assert ValidPeerMac(want) && ValidPeerMac(other);
    hide ValidPeerMac, AddPeer, Exact, Lost;
    FirstMember(r, want, draw, ref);
    CollidingJoinLosesHost(AddPeer(r, want, draw, ref).1, other, draw, ref2);
  }

  /** No later operation of the room brings a lost host back. */
  lemma LostForGood(r: RoomState, h: int, want: Mac, draw: Draw, ref: nat, p: Peer, frame: seq<byte>)
    requires Safe(r) && Lost(r, h)
    ensures Lost(AddPeer(r, want, draw, ref).1, h)
    ensures Lost(RemovePeer(r, p).1, h)
    ensures Lost(Forward(r, p, frame).1, h)
  {
    AddKeepsLost(r, h, want, draw, ref);
    RemoveKeepsLost(r, h, p);
    ForwardKeepsLost(r, h, p, frame);
  }

  lemma ForwardKeepsLost(r: RoomState, h: int, from: Peer, frame: seq<byte>)
    requires Lost(r, h)
    ensures Lost(Forward(r, from, frame).1, h)
  {
  }

  lemma AddKeepsLost(r: RoomState, h: int, want: Mac, draw: Draw, ref: nat)
    requires Safe(r) && Lost(r, h)
    ensures Lost(AddPeer(r, want, draw, ref).1, h)
  {
    if AddPeer(r, want, draw, ref).0.Ok? {
      AddHandsOut(r, want, draw, ref);
      if |r.freeHosts| > 0 {
        assert r.freeHosts[0] in r.freeHosts;
      }
    }
  }

  lemma RemoveKeepsLost(r: RoomState, h: int, p: Peer)
    requires Safe(r) && Lost(r, h)
    ensures Lost(RemovePeer(r, p).1, h)
  {
    if Current(r, p) {
      ReleaseKeepsFree(r, p);
      assert r.peers[p.id].ip != r.base + h;
    }
  }

  /** A refused join changes nothing at all. */
  lemma RefusedAddChangesNothing(r: RoomState, want: Mac, draw: Draw, ref: nat)
    requires AddPeer(r, want, draw, ref).0.Err?
    ensures AddPeer(r, want, draw, ref).1 == r
  {
  }

  /** Leaving frees exactly the host the member held. */
  lemma ReleasedHosts(r: RoomState, p: Peer, h: int)
    requires Safe(r) && Current(r, p)
    ensures h in ReleaseHost(r.freeHosts, p.ip) <==> h in r.freeHosts || r.base + h == p.ip
  {
    ReleaseKeepsFree(r, p);
  }

  lemma RemoveCovers(r: RoomState, p: Peer, h: int)
    requires HostsCovered(r) && p.id in r.peers && r.peers[p.id] == p
    requires FIRST_USABLE_HOST <= h < r.nextHost && h !in r.freeHosts && r.base + h != p.ip
    ensures Held(r.peers - {p.id}, r.base, h)
  {
    assert Held(r.peers, r.base, h);
    var id :| id in r.peers && r.peers[id].ip == r.base + h;
    assert (r.peers - {p.id})[id].ip == r.base + h;
  }

  /** Taking a member out of the map and its entries out of the table. */
  lemma TableWithout(r: RoomState, p: Peer, r1: RoomState)
    requires TableAgrees(r) && Current(r, p) && (forall id :: id in r.peers ==> r.peers[id].id == id)
    requires r1.peers == r.peers - {p.id} && r1.macs == map m | m in r.macs && r.macs[m] != p :: r.macs[m]
    ensures TableAgrees(r1)
  {
  }

  lemma RemoveKeepsTable(r: RoomState, p: Peer)
    requires Safe(r) && TableAgrees(r)
    ensures TableAgrees(RemovePeer(r, p).1)
  {
    forall id | id in r.peers ensures r.peers[id].id == id {
      assert MemberOk(id, r.peers[id], r.base, r.nextHost, r.freeHosts);
    }
    if Current(r, p) {
      TableWithout(r, p, RemovePeer(r, p).1);
    }
  }

  lemma RemoveKeepsExact(r: RoomState, p: Peer)
    requires Exact(r)
    ensures Exact(RemovePeer(r, p).1)
  {
    RemoveKeepsSafe(r, p);
    RemoveKeepsTable(r, p);
    RemoveKeepsCovered(r, p);
  }

  lemma RemoveKeepsCovered(r: RoomState, p: Peer)
    requires Safe(r) && HostsCovered(r)
    ensures HostsCovered(RemovePeer(r, p).1)
  {
    if Current(r, p) {
      var free := ReleaseHost(r.freeHosts, p.ip);
      forall h: int | FIRST_USABLE_HOST <= h < r.nextHost && h !in free
        ensures Held(r.peers - {p.id}, r.base, h)
      {
        ReleasedHosts(r, p, h);
        RemoveCovers(r, p, h);
      }
      assert Covered(r.peers - {p.id}, r.base, r.nextHost, free);
    }
  }

  /** With an exact table learning the source address again changes nothing. */
  lemma ForwardKeepsRoom(r: RoomState, from: Peer, frame: seq<byte>)
    requires TableAgrees(r)
    ensures Forward(r, from, frame).1 == r
  {
    if Current(r, from) {
      assert r.macs[from.mac := from] == r.macs;
    }
  }

  // ---------- the host allocator ----------

  /** A new member gets the least host that no member holds. */
  lemma AddGivesLeastHost(r: RoomState, want: Mac, draw: Draw, ref: nat, p: Peer, h: int)
    requires Exact(r) && AddPeer(r, want, draw, ref).0 == Ok(p)
    ensures r.base + FIRST_USABLE_HOST <= p.ip <= r.base + LAST_USABLE_HOST
    ensures !Held(r.peers, r.base, p.ip - r.base)
    ensures FIRST_USABLE_HOST <= h < p.ip - r.base ==> Held(r.peers, r.base, h)
  {
    AddHandsOut(r, want, draw, ref);
    AllocateKeepsSafe(r);
    if FIRST_USABLE_HOST <= h < p.ip - r.base {
      if |r.freeHosts| > 0 {
        assert r.freeHosts[0] in r.freeHosts;
      }
      assert Held(r.peers, r.base, h) || h in r.freeHosts;
    }
  }

  function HeldHosts(peers: map<string, Peer>, base: nat): set<int> {
    set id | id in peers :: peers[id].ip - base
  }

  lemma HeldHostsSize(peers: map<string, Peer>, base: nat)
    requires DistinctAddresses(peers)
    ensures |HeldHosts(peers, base)| == |peers|
  {
    ImageSize(peers.Keys, HeldHosts(peers, base), id => if id in peers then peers[id].ip - base else 0);
  }

  /** The allocator has no host left exactly when the room has 253 members, and it never has more. */
  lemma FullExactlyAt253(r: RoomState)
    requires Exact(r)
    ensures AllocateHost(r).0 == Err(RoomFull) <==> |r.peers| == 253
    ensures |r.peers| <= 253
  {
    var held, all := HeldHosts(r.peers, r.base), Range(FIRST_USABLE_HOST, r.nextHost);
    HeldHostsSize(r.peers, r.base);
    forall h | h in held ensures h in all {
      var id :| id in r.peers && r.peers[id].ip - r.base == h;
      assert MemberOk(id, r.peers[id], r.base, r.nextHost, r.freeHosts);
    }
    SubsetSize(held, all);
    if |r.freeHosts| > 0 {
      var h := r.freeHosts[0];
      assert h in r.freeHosts;
      assert h in all - held;
    } else {
      forall h | h in all ensures h in held {
        assert Held(r.peers, r.base, h);
        var id :| id in r.peers && r.peers[id].ip == r.base + h;
      }
      assert held == all;
    }
  }

  /** What AddPeer checks before it asks for a host. */
  predicate PassesChecks(r: RoomState, want: Mac, draw: Draw) {
    && !r.closed && draw.id.Some?
    && if want == [] then draw.mac.Some? else ValidPeerMac(want) && want !in r.macs
  }

  /** Once the checks are passed, the number of members alone decides: 253 are full, fewer are not, more do not exist. */
  lemma JoinFullExactlyAt253(r: RoomState, want: Mac, draw: Draw, ref: nat)
    requires Exact(r)
    ensures AddPeer(r, want, draw, ref).0 == Err(RoomFull) <==> PassesChecks(r, want, draw) && |r.peers| == 253
    ensures AddPeer(r, want, draw, ref).0.Ok? <==> PassesChecks(r, want, draw) && |r.peers| < 253
  {
    FullExactlyAt253(r);
  }

  /**
   What a removal does in any room, exact or not. It asks for the room's deletion exactly when the
   peer was its last member; exactly its id leaves the member map, and exactly the addresses that
   point to it leave the MAC table.
   */
  lemma RemoveAnswers(r: RoomState, p: Peer)
    requires Safe(r)
    ensures var (empty, r1) := RemovePeer(r, p);
            && (empty <==> r.peers == map[p.id := p])
            && (!Current(r, p) ==> r1 == r)
            && (Current(r, p) ==>
                  && (forall id :: id in r1.peers <==> id in r.peers && id != p.id)
                  && (forall id :: id in r1.peers ==> r1.peers[id] == r.peers[id])
                  && (forall m :: m in r1.macs <==> m in r.macs && r.macs[m] != p)
                  && (forall m :: m in r1.macs ==> r1.macs[m] == r.macs[m]))
  {
    if Current(r, p) {
      var rest := r.peers - {p.id};
      if |rest| == 0 {
        assert rest == map[];
        assert r.peers.Keys == {p.id};
      }
      if r.peers == map[p.id := p] {
        assert rest == map[];
      }
    }
  }

  /** The table decides: a unicast frame for an address it gives to another current member goes to that one alone. */
  lemma ForwardByTable(r: RoomState, from: Peer, q: Peer, frame: seq<byte>)
    requires |frame| >= 14 && frame[0] % 2 == 0 && frame[6..12] == from.mac && frame[..6] != from.mac
    requires Current(r, from) && Current(r, q) && q != from && frame[..6] in r.macs && r.macs[frame[..6]] == q
    ensures Forward(r, from, frame).0 == Ok({q})
  {
    GroupBit(frame[..6]);
  }

  /** So a leaving member takes nobody's frames with it: what goes to another one alone still does, in any safe room. */
  lemma LeavingSparesOthers(r: RoomState, p: Peer, from: Peer, q: Peer, frame: seq<byte>)
    requires Safe(r) && from != p && q != p
    requires |frame| >= 14 && frame[0] % 2 == 0 && frame[6..12] == from.mac && frame[..6] != from.mac
    requires Current(r, from) && Current(r, q) && q != from && frame[..6] in r.macs && r.macs[frame[..6]] == q
    ensures Forward(r, from, frame).0 == Forward(RemovePeer(r, p).1, from, frame).0 == Ok({q})
  {
    hide Forward, Safe;
    RemoveAnswers(r, p);
    var r1 := RemovePeer(r, p).1;
    hide RemovePeer;
    assert Current(r1, from) && Current(r1, q);
    ForwardByTable(r, from, q, frame);
    ForwardByTable(r1, from, q, frame);
  }

  /** A second RemovePeer of the same pointer changes nothing and asks for nothing. */
  lemma RemoveTwice(r: RoomState, p: Peer)
    ensures RemovePeer(RemovePeer(r, p).1, p) == (false, RemovePeer(r, p).1)
  {
  }

  lemma RemoveAdmitted(r: RoomState, p: Peer)
    requires TableAgrees(r) && p.id !in r.peers && p.mac !in r.macs
    ensures RemovePeer(Admit(r, p), p).1.peers == r.peers
    ensures RemovePeer(Admit(r, p), p).1.macs == r.macs
  {
    var r1 := RemovePeer(Admit(r, p), p).1;
    assert r1.peers == r.peers;
    assert p.mac !in r1.macs;
    forall m | m in r.macs ensures r.macs[m] != p {
      assert Current(r, r.macs[m]);
    }
    assert r1.macs == r.macs;
  }

  lemma LeastFree(r: RoomState, host: nat)
    requires FreeOk(r.freeHosts, r.nextHost) && host in r.freeHosts
    requires forall h :: h in r.freeHosts ==> host <= h
    ensures AllocateHost(r).0 == Ok(host)
  {
    assert r.freeHosts[0] in r.freeHosts;
  }

  /** The host comes back to where the allocator takes it first. */
  lemma ReleaseGivesHostBack(r: RoomState, r2: RoomState, p: Peer)
    requires Safe(r) && AllocateHost(r).0.Ok?
    requires Safe(r2) && Current(r2, p) && r2.base == r.base && r2.freeHosts == AllocateHost(r).1.freeHosts
    requires p.ip == r.base + AllocateHost(r).0.value
    ensures AllocateHost(RemovePeer(r2, p).1).0 == AllocateHost(r).0
  {
    var r3, host := RemovePeer(r2, p).1, AllocateHost(r).0.value;
    RemoveKeepsSafe(r2, p);
    ReleasedHosts(r2, p, host);
    forall h | h in r3.freeHosts ensures host <= h {
      ReleasedHosts(r2, p, h);
      if h != host {
        FirstIsLeast(r, h);
      }
    }
    LeastFree(r3, host);
  }

  /** Joining and leaving again gives back the members and the MAC table... */
  lemma LeaveRestoresTables(r: RoomState, want: Mac, draw: Draw, ref: nat, p: Peer, r2: RoomState)
    requires Exact(r) && p.id !in r.peers && p.mac !in r.macs
    requires AddPeer(r, want, draw, ref) == (Ok(p), r2)
    ensures RemovePeer(r2, p).1.peers == r.peers && RemovePeer(r2, p).1.macs == r.macs
  {
    var r1 := AllocateHost(r).1;
    assert r2 == Admit(r1, p) by {
      AddHandsOut(r, want, draw, ref);
    }
    assert TableAgrees(r1);
    RemoveAdmitted(r1, p);
  }

  /** ... and the next host to hand out. */
  lemma LeaveRestoresHost(r: RoomState, want: Mac, draw: Draw, ref: nat, p: Peer, r2: RoomState)
    requires Safe(r) && AddPeer(r, want, draw, ref) == (Ok(p), r2)
    ensures AllocateHost(RemovePeer(r2, p).1).0 == AllocateHost(r).0
  {
    AddHandsOut(r, want, draw, ref);
    AddKeepsSafe(r, want, draw, ref);
    ReleaseGivesHostBack(r, r2, p);
  }

  lemma FirstIsLeast(r: RoomState, h: nat)
    requires Safe(r) && AllocateHost(r).0.Ok? && h in AllocateHost(r).1.freeHosts
    ensures AllocateHost(r).0.value <= h
  {
    if |r.freeHosts| > 0 {
      var i :| 0 <= i < |r.freeHosts[1..]| && r.freeHosts[1..][i] == h;
      assert r.freeHosts[i + 1] == h;
    }
  }

  // ---------- forwarding ----------

  /** The other members that own an address, found by looking at every member. */
  function Owners(r: RoomState, from: Peer, mac: Mac): set<Peer> {
    set p | p in Others(r, from) && p.mac == mac
  }

  /** The targets of a frame for dst, without the MAC table: the owner of the address, or all the others if it has none. */
  function Scan(r: RoomState, from: Peer, dst: Mac): set<Peer> {
    if Owners(r, from, dst) == {} then Others(r, from) else Owners(r, from, dst)
  }

  /** Members never own a group address. */
  lemma GroupHasNoOwner(r: RoomState, a: Peer, dst: Mac)
    requires Safe(r)
    ensures IsGroup(dst) ==> Owners(r, a, dst) == {}
  {
    forall p | p in Owners(r, a, dst) ensures !IsGroup(dst) {
      var id :| id in r.peers && r.peers[id] == p;
      assert MemberOk(id, p, r.base, r.nextHost, r.freeHosts);
    }
  }

  lemma TableIsScan(r: RoomState, from: Peer, dst: Mac)
    requires Exact(r) && Current(r, from)
    ensures Owners(r, from, dst) == if dst in r.macs && r.macs[dst] != from then {r.macs[dst]} else {}
  {
    forall p | p in Owners(r, from, dst) ensures dst in r.macs && r.macs[dst] == p {
      var id :| id in r.peers && r.peers[id] == p;
    }
    if dst in r.macs && r.macs[dst] != from {
      var owner := r.macs[dst];
      assert Current(r, owner);
      assert r.peers[owner.id] in Others(r, from);
    }
  }

  /**
   Forward's answer, in full: the two error cases; nothing for a peer that is no longer a member;
   and otherwise what a scan of the members gives, which is never the sender and, for a unicast
   address some other member owns, exactly one peer. The room does not change.
   */
  lemma ForwardIsScan(r: RoomState, from: Peer, frame: seq<byte>)
    requires Exact(r)
    ensures Forward(r, from, frame).1 == r
    ensures |frame| < 14 ==> Forward(r, from, frame).0 == Err(InvalidFrame)
    ensures |frame| >= 14 && frame[6..12] != from.mac ==> Forward(r, from, frame).0 == Err(SourceMacInvalid)
    ensures |frame| >= 14 && frame[6..12] == from.mac ==>
              Forward(r, from, frame).0 == Ok(if Current(r, from) then Scan(r, from, frame[..6]) else {})
    ensures Forward(r, from, frame).0.Ok? ==> from !in Forward(r, from, frame).0.value
    ensures |frame| >= 14 ==> |Owners(r, from, frame[..6])| <= 1
  {
    ForwardKeepsRoom(r, from, frame);
    if |frame| >= 14 {
      var dst := frame[..6];
      GroupHasNoOwner(r, from, dst);
      if Current(r, from) {
        TableIsScan(r, from, dst);
      } else {
        OwnersAtMostOne(r, from, dst);
      }
    }
  }

  /**
   What holds of Forward in any room, exact or not: a group address reaches all the others; an
   accepted frame makes its sender the owner of its MAC in the table and changes nothing else.
   */
  lemma ForwardLearns(r: RoomState, from: Peer, frame: seq<byte>)
    requires |frame| >= 14 && frame[6..12] == from.mac && Current(r, from)
    ensures Forward(r, from, frame).1 == r.(macs := r.macs[from.mac := from])
    ensures frame[0] % 2 == 1 ==> Forward(r, from, frame).0 == Ok(Others(r, from))
  {
    GroupBit(frame[..6]);
  }

  /**
   So a member whose MAC another one has taken wins it back by sending: right after any accepted
   frame of a, a frame of another member for that MAC goes to a alone, in every safe room.
   */
  lemma SendingReclaimsMac(r: RoomState, a: Peer, frame: seq<byte>, b: Peer, answer: seq<byte>)
    requires Safe(r) && |frame| >= 14 && frame[6..12] == a.mac && Current(r, a)
    requires |answer| >= 14 && answer[6..12] == b.mac && answer[..6] == a.mac && Current(r, b) && a != b && a.mac != b.mac
    ensures Forward(Forward(r, a, frame).1, b, answer).0 == Ok({a})
  {
    ForwardLearns(r, a, frame);
    assert MemberOk(a.id, a, r.base, r.nextHost, r.freeHosts);
    GroupBit(a.mac);
  }

  lemma OwnersAtMostOne(r: RoomState, from: Peer, dst: Mac)
    requires TableAgrees(r)
    ensures |Owners(r, from, dst)| <= 1
  {
    var owners := Owners(r, from, dst);
    forall p | p in owners ensures dst in r.macs && p == r.macs[dst] {
      var id :| id in r.peers && r.peers[id] == p;
    }
    if owners != {} {
      assert owners == {r.macs[dst]};
    }
  }
}
