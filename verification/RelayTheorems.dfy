/** What holds in every world the relay can reach, whatever the interleaving. */
module RelayTheorems {
  import opened Basics
  import opened Sorting
  import opened Pool
  import opened RoomModel
  import opened RoomTheorems
  import opened RelayWorld

  /** One step leads from the first world to the second. */
  ghost predicate Follows(v: World, w: World) {
    exists a: Action :: w == Step(v, a)
  }

  /** A history: it begins with an initial world, and each world follows the one before. */
  ghost predicate IsHistory(t: seq<World>) {
    |t| > 0 && Initial(t[0]) && forall i :: 0 < i < |t| ==> Follows(t[i - 1], t[i])
  }

  /** Some history ends in this world. */
  ghost predicate Reachable(w: World) {
    exists t: seq<World> :: IsHistory(t) && t[|t| - 1] == w
  }

  lemma {:induction false} RunAppends(w: World, acts: seq<Action>, a: Action)
    ensures Run(w, acts + [a]) == Step(Run(w, acts), a)
    decreases |acts|
  {
    hide Step;
    if acts == [] {
      assert acts + [a] == [a];
      assert [a][1..] == [];
    } else {
      assert (acts + [a])[0] == acts[0] && (acts + [a])[1..] == acts[1..] + [a];
      RunAppends(Step(w, acts[0]), acts[1..], a);
    }
  }

  /** The worlds that runs reach are reachable. */
  lemma {:induction false} RunIsHistory(w0: World, acts: seq<Action>) returns (t: seq<World>)
    requires Initial(w0)
    ensures IsHistory(t) && t[|t| - 1] == Run(w0, acts)
    decreases |acts|
  {
    hide Step;
    t := [w0];
    if acts != [] {
      var n := |acts| - 1;
      var before := RunIsHistory(w0, acts[..n]);
      assert acts == acts[..n] + [acts[n]];
      RunAppends(w0, acts[..n], acts[n]);
      t := before + [Run(w0, acts)];
      assert Follows(before[|before| - 1], Run(w0, acts));
      forall i | 0 < i < |t| ensures Follows(t[i - 1], t[i]) {
      }
    }
  }

  /** And there are no others. */
  lemma {:induction false} HistoryIsRun(t: seq<World>) returns (acts: seq<Action>)
    requires IsHistory(t)
    ensures Run(t[0], acts) == t[|t| - 1]
    decreases |t|
  {
    hide Step, Initial;
    acts := [];
    if |t| > 1 {
      var n := |t| - 1;
      var before := HistoryIsRun(t[..n]);
      assert Follows(t[n - 1], t[n]);
      var a: Action :| t[n] == Step(t[n - 1], a);
      RunAppends(t[0], before, a);
      acts := before + [a];
    }
  }

  lemma ReachedByRun(w: World) returns (w0: World, acts: seq<Action>)
    requires Reachable(w)
    ensures Initial(w0) && Run(w0, acts) == w
  {
    var t: seq<World> :| IsHistory(t) && t[|t| - 1] == w;
    w0 := t[0];
    acts := HistoryIsRun(t);
  }

  lemma ReachableInv(w: World)
    requires Reachable(w)
    ensures Inv(w)
  {
    var w0, acts := ReachedByRun(w);
    InitialInv(w0);
    RunKeeps(w0, acts);
  }

  // ---------- one room per name ----------

  /** The Join call has returned and its peer has not been removed. */
  predicate IsMember(w: World, c: nat) {
    && c in w.calls && w.calls[c].Joined? && w.calls[c].room < |w.core.heap|
    && Current(w.core.heap[w.calls[c].room], w.calls[c].peer)
  }

  /** A room with a member is open and is the room its name is mapped to. */
  lemma MembersRoomIsMapped(w: World, c: nat)
    requires Reachable(w)
    ensures IsMember(w, c) ==>
              var call := w.calls[c];
              && !w.core.heap[call.room].closed
              && call.name in w.core.rooms && w.core.rooms[call.name] == call.room
  {
    if IsMember(w, c) {
      ReachableInv(w);
      var call := w.calls[c];
      assert CallOk(w.core.heap, c, call);
      assert Safe(w.core.heap[call.room]);
    }
  }

  /** Any two current members who joined under one name share one room. */
  lemma OneRoomPerName(w: World, c: nat, d: nat)
    requires Reachable(w)
    ensures IsMember(w, c) && IsMember(w, d) && w.calls[c].name == w.calls[d].name ==> w.calls[c].room == w.calls[d].room
  {
    MembersRoomIsMapped(w, c);
    MembersRoomIsMapped(w, d);
  }

  /** Conversely every peer in a member map is the current member of exactly one Join call. */
  lemma MembersComeFromJoins(w: World, r: nat, id: string)
    requires Reachable(w) && r < |w.core.heap| && id in w.core.heap[r].peers
    ensures var p := w.core.heap[r].peers[id];
            IsMember(w, p.ref) && w.calls[p.ref] == Joined(w.core.heap[r].name, r, p)
  {
    ReachableInv(w);
    assert MemberJoined(w.core.heap, w.calls, r, w.core.heap[r].peers[id]);
    assert Safe(w.core.heap[r]);
    assert MemberOk(id, w.core.heap[r].peers[id], w.core.heap[r].base, w.core.heap[r].nextHost, w.core.heap[r].freeHosts);
  }

  /** No peer enters a closed room, or a room its name is not mapped to at that moment. */
  lemma EntersOnlyMappedRooms(w: World, c: nat, draw: Draw)
    requires Reachable(w) && c in w.calls && w.calls[c].Holding?
    ensures var (call, w1) := (w.calls[c], Step(w, Add(c, draw)));
            && call.room < |w.core.heap| && c in w1.calls
            && (w1.calls[c].Joined? ==>
                  && !w.core.heap[call.room].closed
                  && call.name in w.core.rooms && w.core.rooms[call.name] == call.room
                  && IsMember(w1, c))
  {
    ReachableInv(w);
    var call := w.calls[c];
    assert CallOk(w.core.heap, c, call);
    AddEffect(w.core.heap[call.room], call.want, draw, c);
  }

  /** The peer of a returned Join is no longer, or not yet again, a member. */
  predicate HasLeft(w: World, c: nat) {
    && c in w.calls && w.calls[c].Joined? && w.calls[c].room < |w.core.heap|
    && !Current(w.core.heap[w.calls[c].room], w.calls[c].peer)
  }

  /** Removing one of two members of a room leaves the other. */
  lemma OthersStay(room: RoomState, p: Peer, q: Peer)
    requires Safe(room) && Current(room, p)
    ensures var (empty, room1) := RemovePeer(room, p);
            && !Current(room1, p) && (empty <==> room.peers.Keys == {p.id})
            && (Current(room, q) && q != p ==> Current(room1, q))
  {
    RemoveAnswers(room, p);
    assert room.peers == map[p.id := p] <==> room.peers.Keys == {p.id};
  }

  lemma MemberFacts(w: World, c: nat)
    requires Reachable(w) && IsMember(w, c)
    ensures Safe(w.core.heap[w.calls[c].room]) && w.calls[c].peer.ref == c
  {
    ReachableInv(w);
    assert CallOk(w.core.heap, c, w.calls[c]);
  }

  lemma LeaveHeap(w: World, c: nat)
    requires IsMember(w, c)
    ensures var (call, w1) := (w.calls[c], Step(w, Leave(c)));
            w1.calls == w.calls && w1.core.heap == w.core.heap[call.room := RemovePeer(w.core.heap[call.room], call.peer).1]
  {
    hide RemovePeer;
  }

  /** After a RemovePeer its peer is out, and every other member of every room is still in. */
  lemma LeaveAnswers(w: World, c: nat, d: nat)
    requires Reachable(w) && IsMember(w, c)
    ensures HasLeft(Step(w, Leave(c)), c)
    ensures d != c && IsMember(w, d) ==> IsMember(Step(w, Leave(c)), d)
  {
    hide Step, RemovePeer, Reachable, Safe, Current;
    var (call, room) := (w.calls[c], w.core.heap[w.calls[c].room]);
    LeaveHeap(w, c);
    MemberFacts(w, c);
    OthersStay(room, call.peer, call.peer);
    if IsMember(w, d) {
      MemberFacts(w, d);
      OthersStay(room, call.peer, w.calls[d].peer);
    }
  }

  /** And the deletion of its room is asked for exactly when it was the last one there. */
  lemma LastOneAsks(w: World, c: nat)
    requires Reachable(w) && IsMember(w, c)
    ensures var (call, w1) := (w.calls[c], Step(w, Leave(c)));
            w1.deletes == if w.core.heap[call.room].peers.Keys == {call.peer.id} then w.deletes + multiset{call.room} else w.deletes
  {
    var (call, w1) := (w.calls[c], Step(w, Leave(c)));
    var room := w.core.heap[call.room];
    assert w1.deletes == if RemovePeer(room, call.peer).0 then w.deletes + multiset{call.room} else w.deletes;
    hide Step, RemovePeer, Reachable, Safe;
    MemberFacts(w, c);
    OthersStay(room, call.peer, call.peer);
  }

  /** Room r of the second heap has no member of call c that it did not have in the first. */
  predicate Spared(h: seq<RoomState>, h1: seq<RoomState>, r: nat, c: nat) {
    && r < |h| <= |h1|
    && forall id :: id in h1[r].peers ==> (id in h[r].peers && h1[r].peers[id] == h[r].peers[id]) || h1[r].peers[id].ref != c
  }

  lemma KeptOut(h: seq<RoomState>, h1: seq<RoomState>, r: nat, p: Peer)
    requires Spared(h, h1, r, p.ref) && !Current(h[r], p)
    ensures !Current(h1[r], p)
  {
  }

  lemma AddSpares(h: seq<RoomState>, d: nat, want: Mac, draw: Draw, ref: nat, r: nat, c: nat)
    requires d < |h| && r < |h| && ref != c
    ensures Spared(h, h[d := AddPeer(h[d], want, draw, ref).1], r, c)
  {
    AddEffect(h[d], want, draw, ref);
    hide AddPeer;
  }

  lemma RemoveSpares(h: seq<RoomState>, d: nat, p: Peer, r: nat, c: nat)
    requires d < |h| && r < |h|
    ensures Spared(h, h[d := RemovePeer(h[d], p).1], r, c)
  {
    RemoveEffect(h[d], p);
    hide RemovePeer;
  }

  lemma SendSpares(h: seq<RoomState>, d: nat, p: Peer, frame: seq<byte>, r: nat, c: nat)
    requires d < |h| && r < |h|
    ensures Spared(h, h[d := Forward(h[d], p, frame).1], r, c)
  {
    ForwardEffect(h[d], p, frame);
    hide Forward;
  }

  lemma DeleteSpares(k: Core, d: nat, r: nat, c: nat)
    requires d < |k.heap| && r < |k.heap|
    ensures Spared(k.heap, DeleteEmptyRoom(k, d).heap, r, c)
  {
  }

  lemma LookupSpares(k: Core, name: string, r: nat, c: nat)
    requires CoreOk(k) && r < |k.heap|
    ensures Spared(k.heap, GetOrCreateRoom(k, name).1.heap, r, c)
  {
    GetOrCreateEffect(k, name);
    hide GetOrCreateRoom;
  }

  lemma StepKeepsLeft(w: World, a: Action, c: nat)
    requires Inv(w) && HasLeft(w, c)
    ensures HasLeft(Step(w, a), c) && Step(w, a).calls[c] == w.calls[c]
  {
    assert CallOk(w.core.heap, c, w.calls[c]) && CoreOk(w.core);
    hide Inv, CoreOk, AddPeer, RemovePeer, Forward, GetOrCreateRoom, DeleteEmptyRoom, ClosedRooms, Spared, Current, AfterAdd;
    var (h, r, w1) := (w.core.heap, w.calls[c].room, Step(w, a));
    match a {
      case Start(d, name, want) =>
      case Lookup(d) =>
        if d in w.calls && w.calls[d].Seeking? {
          LookupSpares(w.core, w.calls[d].name, r, c);
          KeptOut(h, w1.core.heap, r, w.calls[c].peer);
          SparedGrows(h, w1.core.heap, r, c);
        }
      case Add(d, draw) =>
        if d in w.calls && w.calls[d].Holding? && HasRoom(w, w.calls[d]) {
          AddSpares(h, w.calls[d].room, w.calls[d].want, draw, d, r, c);
          KeptOut(h, w1.core.heap, r, w.calls[c].peer);
        }
      case Leave(d) =>
        if d in w.calls && w.calls[d].Joined? && HasRoom(w, w.calls[d]) {
          RemoveSpares(h, w.calls[d].room, w.calls[d].peer, r, c);
          KeptOut(h, w1.core.heap, r, w.calls[c].peer);
        }
      case Send(d, frame) =>
        if d in w.calls && w.calls[d].Joined? && HasRoom(w, w.calls[d]) {
          SendSpares(h, w.calls[d].room, w.calls[d].peer, frame, r, c);
          KeptOut(h, w1.core.heap, r, w.calls[c].peer);
        }
      case Delete(d) =>
        if d in w.deletes && d < |h| {
          DeleteSpares(w.core, d, r, c);
          KeptOut(h, w1.core.heap, r, w.calls[c].peer);
          SparedGrows(h, w1.core.heap, r, c);
        }
    }
  }

  lemma SparedGrows(h: seq<RoomState>, h1: seq<RoomState>, r: nat, c: nat)
    requires Spared(h, h1, r, c)
    ensures r < |h| <= |h1|
  {
  }

  /** Who has left stays out, in every run. */
  lemma {:induction false} LeftForGood(w: World, acts: seq<Action>, c: nat)
    requires Inv(w) && HasLeft(w, c)
    ensures HasLeft(Run(w, acts), c)
    decreases |acts|
  {
    hide Inv, Step, HasLeft;
    if acts != [] {
      StepKeeps(w, acts[0]);
      StepKeepsLeft(w, acts[0], c);
      LeftForGood(Step(w, acts[0]), acts[1..], c);
    }
  }

  /** A member's frame, if it carries the member's MAC, makes it the owner of that MAC in its room; no other room changes. */
  lemma SendTeaches(w: World, c: nat, frame: seq<byte>, r: nat)
    requires IsMember(w, c) && |frame| >= 14 && frame[6..12] == w.calls[c].peer.mac && r < |w.core.heap|
    ensures var (call, w1) := (w.calls[c], Step(w, Send(c, frame)));
            && r < |w1.core.heap| && w1.calls == w.calls && w1.deletes == w.deletes
            && w1.core.heap[r] == if r == call.room
                                  then w.core.heap[r].(macs := w.core.heap[r].macs[call.peer.mac := call.peer])
                                  else w.core.heap[r]
  {
    ForwardLearns(w.core.heap[w.calls[c].room], w.calls[c].peer, frame);
    hide Forward;
  }

  // ---------- addresses ----------

  lemma MemberAddress(w: World, r: nat, id: string)
    requires Reachable(w) && r < |w.core.heap| && id in w.core.heap[r].peers
    ensures var (room, p) := (w.core.heap[r], w.core.heap[r].peers[id]);
            && !room.closed && room.index < MaxRooms(w.core.pool)
            && room.base == w.core.pool.base + room.index * 256
            && 2 <= p.ip - room.base <= 254 && p.ip % 256 == p.ip - room.base
            && p.ip < TWO_32 && InPool(w.core.pool, p.ip)
  {
    var (room, pool) := (w.core.heap[r], w.core.pool);
    assert ValidPool(pool) && Safe(room) && room.index < MaxRooms(pool) && room.base == pool.base + room.index * 256 by {
      ReachableInv(w);
    }
    AddressInRoom(room, id);
    RoomBaseDoesNotWrap(pool, room.index);
  }

  lemma AddressInRoom(room: RoomState, id: string)
    requires Safe(room) && id in room.peers
    ensures var ip := room.peers[id].ip;
            !room.closed && 2 <= ip - room.base <= 254 && ip % 256 == ip - room.base && ip < TWO_32
  {
    assert MemberOk(id, room.peers[id], room.base, room.nextHost, room.freeHosts);
  }

  /**
   All members of all rooms have pairwise different addresses, each inside the pool with last
   byte 2..254, and the uint32 sums that produced them did not wrap.
   */
  lemma AddressesAreDistinct(w: World, r: nat, id: string, s: nat, jd: string)
    requires Reachable(w) && r < |w.core.heap| && id in w.core.heap[r].peers
    requires s < |w.core.heap| && jd in w.core.heap[s].peers && (r != s || id != jd)
    ensures w.core.heap[r].peers[id].ip != w.core.heap[s].peers[jd].ip
    ensures var ip := w.core.heap[r].peers[id].ip;
            2 <= ip % 256 <= 254 && InPool(w.core.pool, ip) && ip < TWO_32
  {
    MemberAddress(w, r, id);
    MemberAddress(w, s, jd);
    ReachableInv(w);
    if r == s {
      assert Safe(w.core.heap[r]);
    } else {
      assert w.core.heap[r].index != w.core.heap[s].index;
    }
  }

  /** The uint8 host counter of a room never wraps. */
  lemma HostCounterDoesNotWrap(w: World, r: nat)
    requires Reachable(w) && r < |w.core.heap|
    ensures 2 <= w.core.heap[r].nextHost <= AllocateHost(w.core.heap[r]).1.nextHost <= 255
  {
    ReachableInv(w);
    assert Safe(w.core.heap[r]);
  }

  /** Nor does the uint32 room counter. */
  lemma RoomCounterDoesNotWrap(w: World)
    requires Reachable(w)
    ensures w.core.nextRoom <= AllocateIndex(w.core).1.nextRoom <= MaxRooms(w.core.pool) < TWO_32
  {
    ReachableInv(w);
    IndexCounter(w.core);
  }

  lemma IndexCounter(k: Core)
    requires ValidPool(k.pool) && k.nextRoom <= MaxRooms(k.pool)
    ensures k.nextRoom <= AllocateIndex(k).1.nextRoom <= MaxRooms(k.pool) < TWO_32
  {
    PoolFits(k.pool);
  }

  // ---------- room indices ----------

  function LiveIndices(heap: seq<RoomState>): set<int> {
    set r | 0 <= r < |heap| && !heap[r].closed :: heap[r].index as int
  }

  /**
   No two open rooms share an index; live and free indices are disjoint and together exactly
   0..nextRoom-1; and the pool has room for all.
   */
  lemma IndicesPartition(w: World)
    requires Reachable(w)
    ensures var (k, free) := (w.core, set i | i in w.core.freeRoom :: i as int);
            && LiveIndices(k.heap) !! free
            && LiveIndices(k.heap) + free == Range(0, k.nextRoom)
            && Ordered(true, k.freeRoom)
            && k.nextRoom <= MaxRooms(k.pool)
            && (forall r, s :: 0 <= r < s < |k.heap| && !k.heap[r].closed && !k.heap[s].closed ==> k.heap[r].index != k.heap[s].index)
            && |LiveIndices(k.heap)| == |k.rooms|
  {
    ReachableInv(w);
    LiveIndicesSize(w.core);
    LiveOrFree(w.core);
    hide RoomsOk, Mapping, CallOk, MembersJoined, LiveIndices;
  }

  lemma LiveOrFree(k: Core)
    requires Indices(k)
    ensures var free := set i | i in k.freeRoom :: i as int;
            LiveIndices(k.heap) !! free && LiveIndices(k.heap) + free == Range(0, k.nextRoom)
  {
    forall i: nat | i < k.nextRoom && i !in k.freeRoom ensures i in LiveIndices(k.heap) {
      assert Live(k.heap, i);
    }
    forall i | i in Range(0, k.nextRoom) ensures i in LiveIndices(k.heap) || i in k.freeRoom {
    }
  }

  /** A new room gets the least index that no open room has. */
  lemma LeastIndexFirst(w: World, i: nat)
    requires Reachable(w)
    ensures match AllocateIndex(w.core).0
            case Ok(index) => !Live(w.core.heap, index) && (i < index ==> Live(w.core.heap, i))
            case Err(e) => e.PoolFull?
  {
    ReachableInv(w);
    var (k, n, index) := (w.core, |w.core.freeRoom|, AllocateIndex(w.core).0);
    if index.Ok? {
      AllocateHandsOut(k);
      if n > 0 {
        assert k.freeRoom[n - 1] in k.freeRoom;
      }
      if i < index.value {
        assert i !in k.freeRoom;
        assert Live(k.heap, i);
      }
    }
  }

  /** There are as many live indices as mapped names. */
  lemma LiveIndicesSize(k: Core)
    requires Mapping(k.rooms, k.heap) && Indices(k)
    ensures |LiveIndices(k.heap)| == |k.rooms|
  {
    var f := (n: string) => if n in k.rooms && k.rooms[n] < |k.heap| then k.heap[k.rooms[n]].index as int else 0;
    forall i | i in LiveIndices(k.heap) ensures exists n :: n in k.rooms.Keys && f(n) == i {
      var r :| 0 <= r < |k.heap| && !k.heap[r].closed && k.heap[r].index == i;
      assert f(k.heap[r].name) == i;
    }
    ImageSize(k.rooms.Keys, LiveIndices(k.heap), f);
  }

  /** Room indices run out exactly when every /24 of the pool is the block of a mapped room. */
  lemma PoolFullExactlyWhenAllLive(w: World)
    requires Reachable(w)
    ensures AllocateIndex(w.core).0 == Err(PoolFull) <==> |w.core.rooms| == MaxRooms(w.core.pool)
  {
    IndicesPartition(w);
    var (k, live) := (w.core, LiveIndices(w.core.heap));
    var free := set i | i in k.freeRoom :: i as int;
    SubsetSize(live, Range(0, k.nextRoom));
    if |k.freeRoom| > 0 {
      assert k.freeRoom[0] in k.freeRoom;
      assert k.freeRoom[0] as int in free;
      assert k.freeRoom[0] as int !in live;
    } else {
      assert free == {};
      assert live == Range(0, k.nextRoom);
    }
  }

  /**
   What a Join's lookup gives: the room its name is mapped to; else, while fewer rooms are mapped
   than the pool holds, a new one, empty and open, to which the name is mapped from then on; else
   the error that the pool is full.
   */
  lemma LookupAnswers(w: World, c: nat)
    requires Reachable(w) && c in w.calls && w.calls[c].Seeking?
    ensures var (name, rooms, w1) := (w.calls[c].name, w.core.rooms, Step(w, Lookup(c)));
            && c in w1.calls && w1.deletes == w.deletes
            && (name in rooms ==> w1.core == w.core && w1.calls[c].Holding? && w1.calls[c].room == rooms[name])
            && (name !in rooms && |rooms| == MaxRooms(w.core.pool) ==> w1.core == w.core && w1.calls[c] == Refused(PoolFull))
            && (name !in rooms && |rooms| != MaxRooms(w.core.pool) ==>
                  && w1.calls[c].Holding? && w1.calls[c].room == |w.core.heap| && w1.core.rooms == rooms[name := |w.core.heap|]
                  && |w1.core.heap| == |w.core.heap| + 1 && w1.core.heap[..|w.core.heap|] == w.core.heap
                  && w1.core.heap[|w.core.heap|].name == name && !w1.core.heap[|w.core.heap|].closed
                  && w1.core.heap[|w.core.heap|].peers == map[])
            && (w1.calls[c].Holding? ==> w1.calls[c].want == w.calls[c].want && w1.calls[c].name == name)
  {
    PoolFullExactlyWhenAllLive(w);
    var k := w.core;
    assert AllocateIndex(k).0.Err? ==> AllocateIndex(k).0 == Err(PoolFull) && AllocateIndex(k).1 == k;
    assert AllocateIndex(k).1.rooms == k.rooms && AllocateIndex(k).1.heap == k.heap;
    hide AllocateIndex;
  }

  // ---------- retries of Join ----------

  /**
   Each retry of a Join followed the closing of the room the call held: the rooms it gave up are
   pairwise different, closed during the call, mapped no longer, and different from the one it
   holds now. So it has retried at most as often as rooms were closed since it started.
   */
  lemma RetriesAreBounded(w: World, c: nat)
    requires Reachable(w) && c in w.calls && (w.calls[c].Seeking? || w.calls[c].Holding?)
    ensures var (call, closed) := (w.calls[c], ClosedRooms(w.core.heap));
            && NoDuplicates(call.tried)
            && (forall r :: r in call.tried ==> r in closed - call.before && forall n :: n in w.core.rooms ==> w.core.rooms[n] != r)
            && (call.Holding? ==> call.room !in call.tried)
            && call.before <= closed
            && |call.tried| <= |closed| - |call.before|
  {
    ReachableInv(w);
    var call, closed := w.calls[c], ClosedRooms(w.core.heap);
    assert CallOk(w.core.heap, c, call);
    DistinctSize(call.tried, closed - call.before);
    assert closed == (closed - call.before) + call.before;
  }

  /** A Join that meets a closed room goes back to its lookup with the same request, having given up that room; nothing else changes. */
  lemma ClosedRoomRetries(w: World, c: nat, draw: Draw)
    requires c in w.calls && w.calls[c].Holding? && HasRoom(w, w.calls[c]) && w.core.heap[w.calls[c].room].closed
    ensures var (call, w1) := (w.calls[c], Step(w, Add(c, draw)));
            && w1.core == w.core && w1.deletes == w.deletes && c in w1.calls && w1.calls[c].Seeking?
            && w1.calls[c].name == call.name && w1.calls[c].want == call.want && w1.calls[c].tried == call.tried + [call.room]
  {
    assert w.core.heap[w.calls[c].room := w.core.heap[w.calls[c].room]] == w.core.heap;
  }

  /** A Join that met a closed room tries again: no Join ever returns that error. */
  lemma JoinNeverReportsClosed(w: World, c: nat)
    requires Reachable(w) && c in w.calls
    ensures w.calls[c] != Refused(RoomClosed)
  {
    ReachableInv(w);
    assert CallOk(w.core.heap, c, w.calls[c]);
  }

  // ---------- worlds in which no random draw collided ----------

  /** The action's draws, if it makes any, are new to the room it joins. */
  predicate DrawsFresh(w: World, a: Action) {
    a.Add? && a.c in w.calls && w.calls[a.c].Holding? && HasRoom(w, w.calls[a.c]) ==>
      FreshDraw(w.core.heap[w.calls[a.c].room], w.calls[a.c].want, a.draw)
  }

  predicate AllFresh(w: World, acts: seq<Action>)
    decreases |acts|
  {
    acts == [] || (DrawsFresh(w, acts[0]) && AllFresh(Step(w, acts[0]), acts[1..]))
  }

  predicate AllExact(heap: seq<RoomState>) {
    forall r :: 0 <= r < |heap| ==> Exact(heap[r])
  }

  lemma SetRoomKeepsExact(k: Core, r: nat, room: RoomState)
    requires AllExact(k.heap) && r < |k.heap| && Exact(room)
    ensures AllExact(SetRoom(k, r, room).heap)
  {
  }

  lemma CreateKeepsExact(k: Core, name: string)
    requires CoreOk(k) && AllExact(k.heap)
    ensures AllExact(GetOrCreateRoom(k, name).1.heap)
  {
    GetOrCreateKeepsCore(k, name);
    GetOrCreateEffect(k, name);
    var h1 := GetOrCreateRoom(k, name).1.heap;
    forall r | 0 <= r < |h1| ensures Exact(h1[r]) {
      if r < |k.heap| {
        assert h1[r] == k.heap[r];
      } else {
        assert Safe(h1[r]);
      }
    }
  }

  lemma DeleteKeepsExact(k: Core, r: nat)
    requires CoreOk(k) && AllExact(k.heap) && r < |k.heap|
    ensures AllExact(DeleteEmptyRoom(k, r).heap)
  {
    DeleteKeepsCore(k, r);
    var k1 := DeleteEmptyRoom(k, r);
    forall s | 0 <= s < |k1.heap| ensures Exact(k1.heap[s]) {
      assert Exact(k.heap[s]) && Safe(k1.heap[s]);
      ClosingKeepsExact(k.heap[s], k1.heap[s]);
    }
  }

  lemma ClosingKeepsExact(r: RoomState, r1: RoomState)
    requires Exact(r) && Safe(r1) && (r1 == r || r1 == r.(closed := true))
    ensures Exact(r1)
  {
  }

  lemma StepKeepsExact(w: World, a: Action)
    requires Inv(w) && AllExact(w.core.heap) && DrawsFresh(w, a)
    ensures AllExact(Step(w, a).core.heap)
  {
    match a
    case Start(c, name, want) =>
    case Lookup(c) =>
      if c in w.calls && w.calls[c].Seeking? {
        CreateKeepsExact(w.core, w.calls[c].name);
      }
    case Add(c, draw) =>
      if c in w.calls && w.calls[c].Holding? {
        var call := w.calls[c];
        AddKeepsExact(w.core.heap[call.room], call.want, draw, c);
        SetRoomKeepsExact(w.core, call.room, AddPeer(w.core.heap[call.room], call.want, draw, c).1);
      }
    case Leave(c) =>
      if c in w.calls && w.calls[c].Joined? {
        var call := w.calls[c];
        RemoveKeepsExact(w.core.heap[call.room], call.peer);
        SetRoomKeepsExact(w.core, call.room, RemovePeer(w.core.heap[call.room], call.peer).1);
      }
    case Send(c, frame) =>
      if c in w.calls && w.calls[c].Joined? {
        var call := w.calls[c];
        assert Exact(w.core.heap[call.room]);
        ForwardKeepsRoom(w.core.heap[call.room], call.peer, frame);
      }
    case Delete(r) =>
      if r in w.deletes {
        DeleteKeepsExact(w.core, r);
      }
  }

  lemma {:induction false} RunKeepsExact(w: World, acts: seq<Action>)
    requires Inv(w) && AllExact(w.core.heap) && AllFresh(w, acts)
    ensures AllExact(Run(w, acts).core.heap)
    decreases |acts|
  {
    if acts != [] {
      StepKeeps(w, acts[0]);
      StepKeepsExact(w, acts[0]);
      RunKeepsExact(Step(w, acts[0]), acts[1..]);
    }
  }

  /**
   In every run without a colliding draw, every room's host partition and MAC table are exact,
   so all the theorems about exact rooms hold of it.
   */
  lemma FreshRunsAreExact(w0: World, acts: seq<Action>)
    requires Initial(w0) && AllFresh(w0, acts)
    ensures AllExact(Run(w0, acts).core.heap)
  {
    InitialInv(w0);
    RunKeepsExact(w0, acts);
  }

  // ---------- hosts lost to a colliding id ----------

  lemma SetRoomKeepsLost(k: Core, d: nat, room: RoomState, r: nat, h: int)
    requires d < |k.heap| && r < |k.heap| && Lost(k.heap[r], h) && (r == d ==> Lost(room, h))
    ensures r < |SetRoom(k, d, room).heap| && Lost(SetRoom(k, d, room).heap[r], h)
  {
  }

  lemma StepKeepsLost(w: World, a: Action, r: nat, h: int)
    requires Inv(w) && r < |w.core.heap| && Lost(w.core.heap[r], h)
    ensures r < |Step(w, a).core.heap| && Lost(Step(w, a).core.heap[r], h)
  {
    var room := w.core.heap[r];
    assert Safe(room) && CoreOk(w.core);
    hide Inv, CoreOk, Safe, Lost, AddPeer, RemovePeer, Forward, GetOrCreateRoom, DeleteEmptyRoom, SetRoom, AfterAdd, ClosedRooms;
    match a
    case Start(c, name, want) =>
    case Lookup(c) =>
      if c in w.calls && w.calls[c].Seeking? {
        GetOrCreateEffect(w.core, w.calls[c].name);
      }
    case Add(c, draw) =>
      if c in w.calls && w.calls[c].Holding? && HasRoom(w, w.calls[c]) {
        var call := w.calls[c];
        AddKeepsLost(room, h, call.want, draw, c);
        SetRoomKeepsLost(w.core, call.room, AddPeer(w.core.heap[call.room], call.want, draw, c).1, r, h);
      }
    case Leave(c) =>
      if c in w.calls && w.calls[c].Joined? && HasRoom(w, w.calls[c]) {
        var call := w.calls[c];
        RemoveKeepsLost(room, h, call.peer);
        SetRoomKeepsLost(w.core, call.room, RemovePeer(w.core.heap[call.room], call.peer).1, r, h);
      }
    case Send(c, frame) =>
      if c in w.calls && w.calls[c].Joined? && HasRoom(w, w.calls[c]) {
        var call := w.calls[c];
        ForwardKeepsLost(room, h, call.peer, frame);
        SetRoomKeepsLost(w.core, call.room, Forward(w.core.heap[call.room], call.peer, frame).1, r, h);
      }
    case Delete(d) =>
      if d in w.deletes && d < |w.core.heap| {
        DeleteKeepsLost(w.core, d, r, h);
      }
  }

  lemma DeleteKeepsLost(k: Core, d: nat, r: nat, h: int)
    requires d < |k.heap| && r < |k.heap| && Lost(k.heap[r], h)
    ensures r < |DeleteEmptyRoom(k, d).heap| && Lost(DeleteEmptyRoom(k, d).heap[r], h)
  {
  }

  /** A host that a room has lost stays lost in every later world. */
  lemma {:induction false} LostInEveryRun(w: World, acts: seq<Action>, r: nat, h: int)
    requires Inv(w) && r < |w.core.heap| && Lost(w.core.heap[r], h)
    ensures r < |Run(w, acts).core.heap| && Lost(Run(w, acts).core.heap[r], h)
    decreases |acts|
  {
    hide Inv, Step, Lost;
    if acts != [] {
      StepKeeps(w, acts[0]);
      StepKeepsLost(w, acts[0], r, h);
      LostInEveryRun(Step(w, acts[0]), acts[1..], r, h);
    }
  }

  // ---------- mapped rooms without a member ----------

  /** Some Join call has returned a peer of room r. */
  predicate EverJoined(calls: map<nat, Call>, r: nat) {
    exists c :: c in calls && calls[c].Joined? && calls[c].room == r
  }

  /** An empty open room that nobody is about to delete never had a member; one that will be deleted had. */
  predicate Lived(w: World, r: nat)
    requires r < |w.core.heap|
  {
    var room := w.core.heap[r];
    && (room.nextHost == FIRST_USABLE_HOST <==> !EverJoined(w.calls, r))
    && (!room.closed && room.peers == map[] && r !in w.deletes ==> room.nextHost == FIRST_USABLE_HOST)
    && (r in w.deletes ==> room.nextHost > FIRST_USABLE_HOST)
  }

  predicate AllLived(w: World) {
    forall r :: 0 <= r < |w.core.heap| ==> Lived(w, r)
  }

  /** The first host handed out raises nextHost for good. */
  lemma AddRaisesHost(room: RoomState, want: Mac, draw: Draw, c: nat)
    requires Safe(room)
    ensures var (res, room1) := AddPeer(room, want, draw, c);
            if res.Ok? then room1.nextHost > FIRST_USABLE_HOST && res.value.id in room1.peers else room1 == room
  {
    if |room.freeHosts| > 0 {
      assert room.freeHosts[0] in room.freeHosts;
    }
  }

  lemma RemoveNeedsMember(room: RoomState, p: Peer)
    requires Safe(room)
    ensures var (empty, room1) := RemovePeer(room, p);
            && room1.nextHost == room.nextHost
            && (empty ==> room.nextHost > FIRST_USABLE_HOST)
            && (room1.peers == map[] ==> empty || room.peers == map[])
  {
    if Current(room, p) {
      assert MemberOk(p.id, p, room.base, room.nextHost, room.freeHosts);
    }
  }

  lemma SameCallsLived(w: World, w1: World, r: nat)
    requires r < |w.core.heap| && r < |w1.core.heap| && Lived(w, r)
    requires w1.core.heap[r] == w.core.heap[r] && (r in w1.deletes <==> r in w.deletes)
    requires EverJoined(w1.calls, r) <==> EverJoined(w.calls, r)
    ensures Lived(w1, r)
  {
  }

  lemma MovedCall(calls: map<nat, Call>, c: nat, next: Call, r: nat)
    requires c in calls ==> !calls[c].Joined?
    ensures EverJoined(calls[c := next], r) <==> EverJoined(calls, r) || (next.Joined? && next.room == r)
  {
    var calls1 := calls[c := next];
    if EverJoined(calls, r) {
      var d :| d in calls && calls[d].Joined? && calls[d].room == r;
      assert calls1[d] == calls[d];
    }
    if next.Joined? && next.room == r {
      assert calls1[c] == next;
    }
  }

  lemma LookupKeepsLived(w: World, c: nat, r: nat)
    requires Inv(w) && AllLived(w) && c in w.calls && w.calls[c].Seeking? && r < |Step(w, Lookup(c)).core.heap|
    ensures Lived(Step(w, Lookup(c)), r)
  {
    var w1 := Step(w, Lookup(c));
    GetOrCreateEffect(w.core, w.calls[c].name);
    MovedCall(w.calls, c, w1.calls[c], r);
    if r < |w.core.heap| {
      SameCallsLived(w, w1, r);
    } else {
      NobodyJoinedYet(w, r);
    }
  }

  lemma NobodyJoinedYet(w: World, r: nat)
    requires Inv(w) && r >= |w.core.heap|
    ensures !EverJoined(w.calls, r) && r !in w.deletes
  {
    forall c | c in w.calls && w.calls[c].Joined? ensures w.calls[c].room < |w.core.heap| {
      assert CallOk(w.core.heap, c, w.calls[c]);
    }
  }

  lemma AddKeepsLived(w: World, c: nat, draw: Draw, r: nat)
    requires Inv(w) && AllLived(w) && c in w.calls && w.calls[c].Holding? && HasRoom(w, w.calls[c])
    requires r < |w.core.heap|
    ensures Lived(Step(w, Add(c, draw)), r)
  {
    var (call, w1) := (w.calls[c], Step(w, Add(c, draw)));
    assert Lived(w, r);
    MovedCall(w.calls, c, w1.calls[c], r);
    AddRaisesHost(w.core.heap[call.room], call.want, draw, c);
    AddEffect(w.core.heap[call.room], call.want, draw, c);
    hide Inv, AddPeer;
    if r != call.room {
      SameCallsLived(w, w1, r);
    }
  }

  lemma LeaveKeepsLived(w: World, c: nat, r: nat)
    requires Inv(w) && AllLived(w) && c in w.calls && w.calls[c].Joined? && HasRoom(w, w.calls[c])
    requires r < |w.core.heap|
    ensures Lived(Step(w, Leave(c)), r)
  {
    var (call, w1) := (w.calls[c], Step(w, Leave(c)));
    assert Lived(w, r);
    RemoveNeedsMember(w.core.heap[call.room], call.peer);
    RemoveEffect(w.core.heap[call.room], call.peer);
    hide Inv, RemovePeer;
  }

  lemma SendKeepsLived(w: World, c: nat, frame: seq<byte>, r: nat)
    requires Inv(w) && AllLived(w) && c in w.calls && w.calls[c].Joined? && HasRoom(w, w.calls[c])
    requires r < |w.core.heap|
    ensures Lived(Step(w, Send(c, frame)), r)
  {
    assert Lived(w, r);
  }

  /** A deletion that does not close its room found it closed or found a member. */
  lemma DeleteKeepsLived(w: World, d: nat, r: nat)
    requires Inv(w) && AllLived(w) && d in w.deletes && r < |w.core.heap|
    ensures Lived(Step(w, Delete(d)), r)
  {
    assert Lived(w, r);
    assert d < |w.core.heap|;
    if r == d && !w.core.heap[r].closed {
      assert w.core.rooms[w.core.heap[r].name] == r;
    }
  }

  lemma StepKeepsLived(w: World, a: Action)
    requires Inv(w) && AllLived(w)
    ensures AllLived(Step(w, a))
  {
    var w1 := Step(w, a);
    forall r | 0 <= r < |w1.core.heap| ensures Lived(w1, r) {
      hide Inv, AddPeer, RemovePeer, Forward, DeleteEmptyRoom, GetOrCreateRoom, Lived, EverJoined, SetRoom, AfterAdd, ClosedRooms;
      match a
      case Start(c, name, want) =>
        if c !in w.calls {
          MovedCall(w.calls, c, w1.calls[c], r);
          SameCallsLived(w, w1, r);
        }
      case Lookup(c) => if c in w.calls && w.calls[c].Seeking? { LookupKeepsLived(w, c, r); }
      case Add(c, draw) => if c in w.calls && w.calls[c].Holding? && HasRoom(w, w.calls[c]) { AddKeepsLived(w, c, draw, r); }
      case Leave(c) => if c in w.calls && w.calls[c].Joined? && HasRoom(w, w.calls[c]) { LeaveKeepsLived(w, c, r); }
      case Send(c, frame) => if c in w.calls && w.calls[c].Joined? && HasRoom(w, w.calls[c]) { SendKeepsLived(w, c, frame, r); }
      case Delete(d) => if d in w.deletes && d < |w.core.heap| { DeleteKeepsLived(w, d, r); }
    }
  }

  lemma {:induction false} RunKeepsLived(w: World, acts: seq<Action>)
    requires Inv(w) && AllLived(w)
    ensures AllLived(Run(w, acts))
    decreases |acts|
  {
    hide Inv, AllLived, Step;
    if acts != [] {
      StepKeeps(w, acts[0]);
      StepKeepsLived(w, acts[0]);
      RunKeepsLived(Step(w, acts[0]), acts[1..]);
    }
  }

  /**
   That every mapped room has a member, or is about to be deleted, is false. It fails of exactly
   the rooms from which no Join call ever returned a peer, which are those whose first host was
   never handed out: once a room has had a member, it is deleted when it is empty.
   */
  lemma EmptyExactlyIfNeverJoined(w: World, r: nat)
    requires Reachable(w) && r < |w.core.heap| && !w.core.heap[r].closed
    ensures var (room, left) := (w.core.heap[r], w.core.heap[r].peers == map[] && r !in w.deletes);
            && room.name in w.core.rooms && w.core.rooms[room.name] == r
            && (left <==> !EverJoined(w.calls, r))
            && (left <==> room.nextHost == FIRST_USABLE_HOST)
  {
    var w0, acts := ReachedByRun(w);
    InitialInv(w0);
    RunKeeps(w0, acts);
    RunKeepsLived(w0, acts);
    assert Lived(w, r);
    var room := w.core.heap[r];
    assert Safe(room);
    forall id | id in room.peers ensures room.nextHost > FIRST_USABLE_HOST {
      assert MemberOk(id, room.peers[id], room.base, room.nextHost, room.freeHosts);
    }
  }

  /** The refusals a new room can make: a failed draw or a MAC that no peer may have, nothing else. */
  predicate Refuses(want: Mac, draw: Draw) {
    draw.id.None? || (want != [] && !ValidPeerMac(want)) || (want == [] && draw.mac.None?)
  }

  lemma NewRoomRefusesIff(index: nat, name: string, base: nat, want: Mac, draw: Draw, c: nat)
    ensures AddPeer(NewRoom(index, name, base), want, draw, c).0.Err? <==> Refuses(want, draw)
  {
  }

  lemma RunThree(w: World, a: Action, b: Action, c: Action)
    ensures Run(w, [a, b, c]) == Step(Step(Step(w, a), b), c)
  {
    hide Step;
    assert [a, b, c][1..] == [b, c] && [b, c][1..] == [c] && [c][1..] == [];
    assert Run(Step(w, a), [b, c]) == Run(Step(Step(w, a), b), [c]);
  }

  lemma FirstLookup(w: World, c: nat, name: string, want: Mac)
    requires Initial(w)
    ensures var w2 := Step(Step(w, Start(c, name, want)), Lookup(c));
            w2 == World(
              Core(w.core.pool, map[name := 0], 1, [], [NewRoom(0, name, RoomBase(w.core.pool, 0))]),
              map[c := Holding(name, want, 0, [], {})], multiset{})
  {
    PoolFits(w.core.pool);
    var w1 := Step(w, Start(c, name, want));
    assert ClosedRooms(w.core.heap) == {};
    assert w1 == w.(calls := map[c := Seeking(name, want, [], {})]);
  }

  lemma FirstAdd(w: World, c: nat, name: string, want: Mac, draw: Draw, k: Core)
    requires k.heap == [NewRoom(0, name, RoomBase(k.pool, 0))]
    requires w == World(k, map[c := Holding(name, want, 0, [], {})], multiset{})
    ensures var w1 := Step(w, Add(c, draw));
            && w1.core.rooms == k.rooms && |w1.core.heap| == 1 && w1.deletes == multiset{}
            && !w1.core.heap[0].closed
            && (w1.core.heap[0].peers == map[] <==> Refuses(want, draw))
            && (c in w1.calls && (w1.calls[c].Refused? <==> Refuses(want, draw)))
  {
    NewRoomRefusesIff(0, name, RoomBase(k.pool, 0), want, draw, c);
    AddEffect(k.heap[0], want, draw, c);
    hide AddPeer;
    var res := AddPeer(k.heap[0], want, draw, c).0;
    if res.Ok? {
      assert res.value.id in Step(w, Add(c, draw)).core.heap[0].peers;
    }
  }

  /**
   The first Join of a relay, over every pool and for every request: its room is mapped
   afterwards, and it stays empty with no deletion in flight exactly when the join is refused.
   */
  lemma FirstJoinLeavesEmptyIff(w0: World, c: nat, name: string, want: Mac, draw: Draw)
    requires Initial(w0)
    ensures var w := Run(w0, [Start(c, name, want), Lookup(c), Add(c, draw)]);
            && name in w.core.rooms && w.core.rooms[name] < |w.core.heap|
            && (w.core.heap[w.core.rooms[name]].peers == map[] <==> Refuses(want, draw))
            && w.deletes == multiset{}
  {
    RunThree(w0, Start(c, name, want), Lookup(c), Add(c, draw));
    FirstLookup(w0, c, name, want);
    var w2 := Step(Step(w0, Start(c, name, want)), Lookup(c));
    hide Run, Initial, Step, Refuses, NewRoom;
    FirstAdd(w2, c, name, want, draw, w2.core);
  }

  /** So an empty mapped room that nothing will delete is reached from any pool, here by asking for a group MAC. */
  lemma EmptyRoomIsReachable(w0: World)
    requires Initial(w0)
    ensures var w := Run(w0, [Start(0, "x", [1, 0, 0, 0, 0, 0]), Lookup(0), Add(0, Draw(Some("i"), None))]);
            && Reachable(w) && "x" in w.core.rooms && w.core.rooms["x"] < |w.core.heap|
            && w.core.heap[w.core.rooms["x"]].peers == map[] && w.deletes == multiset{}
  {
    var (want, draw) := ([1, 0, 0, 0, 0, 0], Draw(Some("i"), None));
    assert Refuses(want, draw);
    hide Run, Initial, Step, Refuses;
    FirstJoinLeavesEmptyIff(w0, 0, "x", want, draw);
    var t := RunIsHistory(w0, [Start(0, "x", want), Lookup(0), Add(0, draw)]);
  }

  /**
   Later joins leave rooms behind in the same way. Whenever an open room refuses a join, the room
   stays mapped as it was, and no deletion is in flight that was not there before.
   */
  lemma RefusedJoinLeavesRoomMapped(w: World, c: nat, draw: Draw)
    requires Reachable(w) && c in w.calls && w.calls[c].Holding? && HasRoom(w, w.calls[c])
    requires !w.core.heap[w.calls[c].room].closed && !Step(w, Add(c, draw)).calls[c].Joined?
    ensures var (call, w1) := (w.calls[c], Step(w, Add(c, draw)));
            && w1.calls[c] == Refused(AddPeer(w.core.heap[call.room], call.want, draw, c).0.error)
            && w1.deletes == w.deletes && w1.core == w.core
            && call.name in w1.core.rooms && w1.core.rooms[call.name] == call.room
  {
    ReachableInv(w);
    var call := w.calls[c];
    assert CallOk(w.core.heap, c, call);
    var room := w.core.heap[call.room];
    AddEffect(room, call.want, draw, c);
    RefusedAddChangesNothing(room, call.want, draw, c);
    assert w.core.heap[call.room := room] == w.core.heap;
  }
}
