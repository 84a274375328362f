/**
 The relay as a step system: every region of code that holds a lock is one atomic step, with any
 number of Join calls and RemovePeer calls in flight.

 `Core` is the manager's state and every room ever made; a room pointer is an index into `heap`.
 `World` adds the calls in flight. A run is any sequence of actions; an action whose call is not
 at the right point does nothing.
 */
module RelayWorld {
  import opened Basics
  import opened Sorting
  import opened Pool
  import opened RoomModel

  datatype Core = Core(
    pool: Pool, rooms: map<string, nat>, nextRoom: nat, freeRoom: seq<nat>, heap: seq<RoomState>)

  /**
   A Join call: about to look the room up, holding a room it looked up, or returned.
   `tried` lists the rooms it found closed and `before` the rooms closed when it started;
   both are history, the code does not store them.
   */
  datatype Call =
    | Seeking(name: string, want: Mac, tried: seq<nat>, before: set<nat>)
    | Holding(name: string, want: Mac, room: nat, tried: seq<nat>, before: set<nat>)
    | Joined(name: string, room: nat, peer: Peer)
    | Refused(error: RelayError)

  /** Call c allocates its peer with ref c. `deletes` are the deleteEmptyRoom calls in flight. */
  datatype World = World(core: Core, calls: map<nat, Call>, deletes: multiset<nat>)

  datatype Action =
    | Start(c: nat, name: string, want: Mac)
    | Lookup(c: nat)
    | Add(c: nat, draw: Draw)
    | Leave(c: nat)
    | Delete(room: nat)
    | Send(c: nat, frame: seq<byte>)

  // ---------- the manager's locked regions ----------

  function AllocateIndex(k: Core): (Result<nat, RelayError>, Core) {
    var n := |k.freeRoom|;
    if n > 0 then (Ok(k.freeRoom[n - 1]), k.(freeRoom := k.freeRoom[..n - 1]))
    else if k.nextRoom >= MaxRooms(k.pool) then (Err(PoolFull), k)
    else (Ok(k.nextRoom), k.(nextRoom := (k.nextRoom + 1) % TWO_32))
  }

  function NewRoom(index: nat, name: string, base: nat): RoomState {
    RoomState(index, name, base, map[], map[], FIRST_USABLE_HOST, [], false)
  }

  function GetOrCreateRoom(k: Core, name: string): (Result<nat, RelayError>, Core) {
    if name in k.rooms then (Ok(k.rooms[name]), k)
    else
      var (index, k1) := AllocateIndex(k);
      if index.Err? then (Err(index.error), k1)
      else
        var room := NewRoom(index.value, name, RoomBase(k.pool, index.value));
        (Ok(|k1.heap|), k1.(rooms := k1.rooms[name := |k1.heap|], heap := k1.heap + [room]))
  }

  function DeleteEmptyRoom(k: Core, r: nat): Core
    requires r < |k.heap|
  {
    var room := k.heap[r];
    if room.name !in k.rooms || k.rooms[room.name] != r || |room.peers| != 0 then k
    else k.(
      heap := k.heap[r := room.(closed := true)],
      rooms := k.rooms - {room.name},
      freeRoom := Sort(true, k.freeRoom + [room.index]))
  }

  function SetRoom(k: Core, r: nat, room: RoomState): Core
    requires r < |k.heap|
  {
    k.(heap := k.heap[r := room])
  }

  // ---------- steps and runs ----------

  predicate Initial(w: World) {
    ValidPool(w.core.pool)
    && w == World(Core(w.core.pool, map[], 0, [], []), map[], multiset{})
  }

  function ClosedRooms(heap: seq<RoomState>): set<nat> {
    set r: nat | r < |heap| && heap[r].closed
  }

  function LookupStep(w: World, c: nat, call: Call): World
    requires call.Seeking?
  {
    var (room, k) := GetOrCreateRoom(w.core, call.name);
    var next := if room.Ok? then Holding(call.name, call.want, room.value, call.tried, call.before)
                else Refused(room.error);
    w.(core := k, calls := w.calls[c := next])
  }

  /** Where a Join call is after AddPeer: done, or back at the lookup because the room was closed. */
  function AfterAdd(call: Call, res: Result<Peer, RelayError>): Call
    requires call.Holding?
  {
    if res.Ok? then Joined(call.name, call.room, res.value)
    else if res.error.RoomClosed? then Seeking(call.name, call.want, call.tried + [call.room], call.before)
    else Refused(res.error)
  }

  function AddStep(w: World, c: nat, call: Call, draw: Draw): World
    requires call.Holding? && call.room < |w.core.heap|
  {
    var (res, room) := AddPeer(w.core.heap[call.room], call.want, draw, c);
    w.(core := SetRoom(w.core, call.room, room), calls := w.calls[c := AfterAdd(call, res)])
  }

  function LeaveStep(w: World, call: Call): World
    requires call.Joined? && call.room < |w.core.heap|
  {
    var (empty, room) := RemovePeer(w.core.heap[call.room], call.peer);
    w.(core := SetRoom(w.core, call.room, room),
       deletes := if empty then w.deletes + multiset{call.room} else w.deletes)
  }

  function SendStep(w: World, call: Call, frame: seq<byte>): World
    requires call.Joined? && call.room < |w.core.heap|
  {
    w.(core := SetRoom(w.core, call.room, Forward(w.core.heap[call.room], call.peer, frame).1))
  }

  /** The room the call points to exists, as it always does. */
  predicate HasRoom(w: World, call: Call) {
    (call.Holding? || call.Joined?) && call.room < |w.core.heap|
  }

  function Step(w: World, a: Action): World {
    match a
    case Start(c, name, want) =>
      if c in w.calls then w
      else w.(calls := w.calls[c := Seeking(name, want, [], ClosedRooms(w.core.heap))])
    case Lookup(c) =>
      if c in w.calls && w.calls[c].Seeking? then LookupStep(w, c, w.calls[c]) else w
    case Add(c, draw) =>
      if c in w.calls && w.calls[c].Holding? && HasRoom(w, w.calls[c]) then AddStep(w, c, w.calls[c], draw) else w
    case Leave(c) =>
      if c in w.calls && w.calls[c].Joined? && HasRoom(w, w.calls[c]) then LeaveStep(w, w.calls[c]) else w
    case Send(c, frame) =>
      if c in w.calls && w.calls[c].Joined? && HasRoom(w, w.calls[c]) then SendStep(w, w.calls[c], frame) else w
    case Delete(r) =>
      if r in w.deletes && r < |w.core.heap| then
        w.(core := DeleteEmptyRoom(w.core, r), deletes := w.deletes - multiset{r})
      else w
  }

  function Run(w: World, acts: seq<Action>): World
    decreases |acts|
  {
    if acts == [] then w else Run(Step(w, acts[0]), acts[1..])
  }

  // ---------- the invariant ----------

  /** A name is mapped to a room exactly when that room is open and carries the name. */
  predicate Mapping(rooms: map<string, nat>, heap: seq<RoomState>) {
    && (forall n :: n in rooms ==> rooms[n] < |heap| && heap[rooms[n]].name == n && !heap[rooms[n]].closed)
    && (forall r :: 0 <= r < |heap| && !heap[r].closed ==> heap[r].name in rooms && rooms[heap[r].name] == r)
  }

  /** An open room has index i. */
  predicate Live(heap: seq<RoomState>, i: nat) {
    exists r :: 0 <= r < |heap| && !heap[r].closed && heap[r].index == i
  }

  /** Live and free indices are distinct and together exactly 0..nextRoom-1. */
  predicate Indices(k: Core) {
    && Ordered(true, k.freeRoom)
    && (forall i :: i in k.freeRoom ==> i < k.nextRoom)
    && (forall r :: 0 <= r < |k.heap| && !k.heap[r].closed ==> k.heap[r].index < k.nextRoom && k.heap[r].index !in k.freeRoom)
    && (forall r, s :: 0 <= r < s < |k.heap| && !k.heap[r].closed && !k.heap[s].closed ==> k.heap[r].index != k.heap[s].index)
    && (forall i: nat {:trigger Live(k.heap, i)} :: i < k.nextRoom && i !in k.freeRoom ==> Live(k.heap, i))
  }

  /** Every room is safe and sits on its own block of the pool. */
  predicate RoomsOk(k: Core) {
    && ValidPool(k.pool) && k.nextRoom <= MaxRooms(k.pool)
    && forall r :: 0 <= r < |k.heap| ==>
         Safe(k.heap[r]) && k.heap[r].index < k.nextRoom && k.heap[r].base == k.pool.base + k.heap[r].index * 256
  }

  predicate CoreOk(k: Core) {
    RoomsOk(k) && Mapping(k.rooms, k.heap) && Indices(k)
  }

  /** The rooms a call found closed are distinct, closed, and were open when the call started. */
  predicate TriedOk(heap: seq<RoomState>, tried: seq<nat>, before: set<nat>) {
    && NoDuplicates(tried)
    && (forall r :: r in tried ==> r < |heap| && heap[r].closed && r !in before)
    && (forall r :: r in before ==> r < |heap| && heap[r].closed)
  }

  predicate CallOk(heap: seq<RoomState>, c: nat, call: Call) {
    match call
    case Seeking(_, _, tried, before) => TriedOk(heap, tried, before)
    case Holding(name, _, room, tried, before) =>
      room < |heap| && heap[room].name == name && room !in before && room !in tried && TriedOk(heap, tried, before)
    case Joined(name, room, peer) => room < |heap| && heap[room].name == name && peer.ref == c
    case Refused(e) => !e.RoomClosed?
  }

  /** Every member is the peer of the Join call that allocated it. */
  predicate MembersJoined(heap: seq<RoomState>, calls: map<nat, Call>) {
    forall r, id :: 0 <= r < |heap| && id in heap[r].peers ==> MemberJoined(heap, calls, r, heap[r].peers[id])
  }

  predicate MemberJoined(heap: seq<RoomState>, calls: map<nat, Call>, r: nat, p: Peer)
    requires r < |heap|
  {
    p.ref in calls && calls[p.ref] == Joined(heap[r].name, r, p)
  }

  predicate Inv(w: World) {
    && CoreOk(w.core)
    && (forall c :: c in w.calls ==> CallOk(w.core.heap, c, w.calls[c]))
    && (forall r :: r in w.deletes ==> r < |w.core.heap|)
    && MembersJoined(w.core.heap, w.calls)
  }

  // ---------- the core's regions keep it ----------

  predicate SameHeader(a: RoomState, b: RoomState) {
    a.index == b.index && a.name == b.name && a.base == b.base && a.closed == b.closed
  }

  /** A join changes no header and admits at most the peer it returns. */
  lemma AddEffect(r: RoomState, want: Mac, draw: Draw, ref: nat)
    ensures var (res, r1) := AddPeer(r, want, draw, ref);
            && SameHeader(r1, r)
            && r1.peers == (if res.Ok? then r.peers[res.value.id := res.value] else r.peers)
            && (res.Ok? ==> res.value.ref == ref && !r.closed)
            && (res == Err(RoomClosed) <==> r.closed)
  {
  }

  lemma RemoveEffect(r: RoomState, p: Peer)
    ensures var r1 := RemovePeer(r, p).1;
            SameHeader(r1, r) && forall id :: id in r1.peers ==> id in r.peers && r1.peers[id] == r.peers[id]
  {
  }

  lemma ForwardEffect(r: RoomState, from: Peer, frame: seq<byte>)
    ensures SameHeader(Forward(r, from, frame).1, r) && Forward(r, from, frame).1.peers == r.peers
  {
  }

  lemma SetRoomKeepsIndices(k: Core, r: nat, room: RoomState)
    requires Indices(k) && r < |k.heap| && SameHeader(room, k.heap[r])
    ensures Indices(SetRoom(k, r, room))
  {
    var k1 := SetRoom(k, r, room);
    forall i: nat | i < k1.nextRoom && i !in k1.freeRoom ensures Live(k1.heap, i) {
      assert Live(k.heap, i);
      var s :| 0 <= s < |k.heap| && !k.heap[s].closed && k.heap[s].index == i;
      assert k1.heap[s].index == i;
    }
  }

  lemma SetRoomKeepsMapping(k: Core, r: nat, room: RoomState)
    requires Mapping(k.rooms, k.heap) && r < |k.heap| && SameHeader(room, k.heap[r])
    ensures Mapping(k.rooms, k.heap[r := room])
  {
  }

  lemma SetRoomKeepsCore(k: Core, r: nat, room: RoomState)
    requires CoreOk(k) && r < |k.heap| && Safe(room) && SameHeader(room, k.heap[r])
    ensures CoreOk(SetRoom(k, r, room))
  {
    SetRoomKeepsIndices(k, r, room);
    SetRoomKeepsMapping(k, r, room);
    var k1 := SetRoom(k, r, room);
    assert RoomsOk(k1);
  }

  /** The index handed out is not in use, and only it leaves the free list or raises nextRoom. */
  predicate HandsOut(k: Core, i: nat, k1: Core) {
    && k1 == k.(freeRoom := k1.freeRoom, nextRoom := k1.nextRoom)
    && i < k1.nextRoom && i !in k1.freeRoom && !Live(k.heap, i)
    && Ordered(true, k1.freeRoom) && (k1.nextRoom == k.nextRoom || k1.nextRoom == i + 1 == k.nextRoom + 1)
    && (forall j :: j in k1.freeRoom ==> j in k.freeRoom)
    && (forall j :: j in k.freeRoom ==> j in k1.freeRoom || j == i)
  }

  lemma AllocateHandsOut(k: Core)
    requires CoreOk(k) && AllocateIndex(k).0.Ok?
    ensures HandsOut(k, AllocateIndex(k).0.value, AllocateIndex(k).1)
    ensures AllocateIndex(k).1.nextRoom <= MaxRooms(k.pool)
  {
    PoolFits(k.pool);
    var n := |k.freeRoom|;
    if n > 0 {
      assert k.freeRoom[n - 1] in k.freeRoom;
      assert k.freeRoom == k.freeRoom[..n - 1] + [k.freeRoom[n - 1]];
    }
  }

  lemma NewRoomKeepsIndices(k: Core, i: nat, k1: Core, room: RoomState)
    requires Indices(k) && HandsOut(k, i, k1) && room.index == i && !room.closed
    ensures Indices(k1.(heap := k1.heap + [room]))
  {
    var k2 := k1.(heap := k1.heap + [room]);
    forall r | 0 <= r < |k.heap| && !k.heap[r].closed ensures k.heap[r].index != i {
      assert !Live(k.heap, i);
    }
    forall j: nat | j < k2.nextRoom && j !in k2.freeRoom ensures Live(k2.heap, j) {
      if j == i {
        assert k2.heap[|k.heap|].index == i;
      } else {
        assert Live(k.heap, j);
        var s :| 0 <= s < |k.heap| && !k.heap[s].closed && k.heap[s].index == j;
        assert k2.heap[s].index == j;
      }
    }
  }

  /** The room found or made is open and carries the name; a room made has no members. */
  lemma GetOrCreateEffect(k: Core, name: string)
    requires CoreOk(k)
    ensures var (room, k1) := GetOrCreateRoom(k, name);
            && k.heap <= k1.heap && k1.pool == k.pool
            && (room.Err? ==> k1 == k && room.error.PoolFull?)
            && (room.Ok? ==> room.value < |k1.heap| && k1.heap[room.value].name == name && !k1.heap[room.value].closed)
            && (forall r :: |k.heap| <= r < |k1.heap| ==> k1.heap[r].peers == map[])
  {
  }

  lemma GetOrCreateKeepsCore(k: Core, name: string)
    requires CoreOk(k)
    ensures CoreOk(GetOrCreateRoom(k, name).1)
  {
    if name !in k.rooms && AllocateIndex(k).0.Ok? {
      AllocateHandsOut(k);
      var (index, k1) := (AllocateIndex(k).0.value, AllocateIndex(k).1);
      var room := NewRoom(index, name, RoomBase(k.pool, index));
      RoomBaseDoesNotWrap(k.pool, index);
      assert Safe(room);
      NewRoomKeepsIndices(k, index, k1, room);
      hide Safe, Indices;
    }
  }

  /** After closing room r exactly its index has moved to the free list. */
  lemma DeleteKeepsIndices(k: Core, r: nat)
    requires Indices(k) && r < |k.heap| && !k.heap[r].closed
    ensures Indices(k.(heap := k.heap[r := k.heap[r].(closed := true)], freeRoom := Sort(true, k.freeRoom + [k.heap[r].index])))
  {
    var room := k.heap[r];
    var k1 := k.(heap := k.heap[r := room.(closed := true)], freeRoom := Sort(true, k.freeRoom + [room.index]));
    assert NoDuplicates(k.freeRoom + [room.index]) by {
      assert forall i :: 0 <= i < |k.freeRoom| ==> k.freeRoom[i] in k.freeRoom;
    }
    forall i: nat | i < k1.nextRoom && i !in k1.freeRoom ensures Live(k1.heap, i) {
      assert i !in k.freeRoom && i != room.index;
      assert Live(k.heap, i);
      var s :| 0 <= s < |k.heap| && !k.heap[s].closed && k.heap[s].index == i;
      assert k1.heap[s].index == i;
    }
  }

  lemma DeleteKeepsMapping(rooms: map<string, nat>, heap: seq<RoomState>, name: string, r: nat)
    requires Mapping(rooms, heap) && name in rooms && r == rooms[name]
    ensures Mapping(rooms - {name}, heap[r := heap[r].(closed := true)])
  {
  }

  lemma DeleteKeepsRooms(k: Core, r: nat, k1: Core)
    requires RoomsOk(k) && r < |k.heap| && k.heap[r].peers == map[]
    requires k1 == k.(rooms := k1.rooms, freeRoom := k1.freeRoom, heap := k.heap[r := k.heap[r].(closed := true)])
    ensures RoomsOk(k1)
  {
    assert Safe(k.heap[r]);
    assert Safe(k1.heap[r]);
  }

  lemma DeleteKeepsCore(k: Core, r: nat)
    requires CoreOk(k) && r < |k.heap|
    ensures CoreOk(DeleteEmptyRoom(k, r))
  {
    var room := k.heap[r];
    if room.name in k.rooms && k.rooms[room.name] == r && |room.peers| == 0 {
      assert room.peers == map[];
      DeleteKeepsIndices(k, r);
      DeleteKeepsMapping(k.rooms, k.heap, room.name, r);
      DeleteKeepsRooms(k, r, DeleteEmptyRoom(k, r));
    }
  }

  // ---------- what a step may do to rooms in flight ----------

  /** Rooms are never forgotten, renamed or reopened, and lose members only. */
  predicate Later(h: seq<RoomState>, h1: seq<RoomState>) {
    && |h| <= |h1|
    && forall r :: 0 <= r < |h| ==> h1[r].name == h[r].name && (h[r].closed ==> h1[r].closed)
  }

  predicate NoNewMembers(h: seq<RoomState>, h1: seq<RoomState>) {
    forall r, id :: 0 <= r < |h1| && id in h1[r].peers ==>
      r < |h| && id in h[r].peers && h[r].peers[id] == h1[r].peers[id]
  }

  lemma CallLater(h: seq<RoomState>, h1: seq<RoomState>, c: nat, call: Call)
    requires Later(h, h1) && CallOk(h, c, call)
    ensures CallOk(h1, c, call)
  {
  }

  lemma CallsLater(h: seq<RoomState>, h1: seq<RoomState>, calls: map<nat, Call>)
    requires Later(h, h1) && forall c :: c in calls ==> CallOk(h, c, calls[c])
    ensures forall c :: c in calls ==> CallOk(h1, c, calls[c])
  {
    forall c | c in calls ensures CallOk(h1, c, calls[c]) {
      CallLater(h, h1, c, calls[c]);
    }
  }

  lemma MembersLater(h: seq<RoomState>, h1: seq<RoomState>, calls: map<nat, Call>, calls1: map<nat, Call>)
    requires Later(h, h1) && NoNewMembers(h, h1) && MembersJoined(h, calls)
    requires forall c :: c in calls && calls[c].Joined? ==> c in calls1 && calls1[c] == calls[c]
    ensures MembersJoined(h1, calls1)
  {
    forall r, id | 0 <= r < |h1| && id in h1[r].peers ensures MemberJoined(h1, calls1, r, h1[r].peers[id]) {
      assert MemberJoined(h, calls, r, h[r].peers[id]);
    }
  }

  lemma InvLater(w: World, w1: World)
    requires Inv(w) && CoreOk(w1.core) && Later(w.core.heap, w1.core.heap) && NoNewMembers(w.core.heap, w1.core.heap)
    requires w1.calls == w.calls && forall r :: r in w1.deletes ==> r < |w.core.heap|
    ensures Inv(w1)
  {
    CallsLater(w.core.heap, w1.core.heap, w.calls);
    MembersLater(w.core.heap, w1.core.heap, w.calls, w1.calls);
  }

  /** Changing one room without admitting anyone. */
  lemma SetRoomKeepsInv(w: World, r: nat, room: RoomState, w1: World)
    requires Inv(w) && r < |w.core.heap| && Safe(room) && SameHeader(room, w.core.heap[r])
    requires forall id :: id in room.peers ==> id in w.core.heap[r].peers && room.peers[id] == w.core.heap[r].peers[id]
    requires w1 == World(SetRoom(w.core, r, room), w.calls, w1.deletes)
    requires forall s :: s in w1.deletes ==> s < |w.core.heap|
    ensures Inv(w1)
  {
    SetRoomKeepsCore(w.core, r, room);
    InvLater(w, w1);
  }

  /** Nobody is in `room` who was not in the old one, but possibly the peer of call c. */
  predicate AdmitsOnly(was: RoomState, room: RoomState, r: nat, c: nat, next: Call) {
    forall id :: id in room.peers ==>
      || (id in was.peers && room.peers[id] == was.peers[id])
      || (room.peers[id].ref == c && next == Joined(room.name, r, room.peers[id]))
  }

  lemma AdmittingKeepsMembers(h: seq<RoomState>, calls: map<nat, Call>, c: nat, next: Call, r: nat, room: RoomState)
    requires MembersJoined(h, calls) && r < |h| && room.name == h[r].name && AdmitsOnly(h[r], room, r, c, next)
    requires c in calls && !calls[c].Joined?
    ensures MembersJoined(h[r := room], calls[c := next])
  {
    var h1, calls1 := h[r := room], calls[c := next];
    forall s, id | 0 <= s < |h1| && id in h1[s].peers ensures MemberJoined(h1, calls1, s, h1[s].peers[id]) {
      if id in h[s].peers && h1[s].peers[id] == h[s].peers[id] {
        assert MemberJoined(h, calls, s, h[s].peers[id]);
      }
    }
  }

  /** Changing one room by admitting at most the peer of call c. */
  lemma AdmittingKeepsInv(w: World, c: nat, next: Call, r: nat, room: RoomState, w1: World)
    requires Inv(w) && r < |w.core.heap| && Safe(room) && SameHeader(room, w.core.heap[r])
    requires c in w.calls && !w.calls[c].Joined? && AdmitsOnly(w.core.heap[r], room, r, c, next)
    requires w1 == World(SetRoom(w.core, r, room), w.calls[c := next], w.deletes) && CallOk(w1.core.heap, c, next)
    ensures Inv(w1)
  {
    SetRoomKeepsCore(w.core, r, room);
    CallsLater(w.core.heap, w1.core.heap, w.calls);
    AdmittingKeepsMembers(w.core.heap, w.calls, c, next, r, room);
  }

  // ---------- every action keeps the invariant ----------

  lemma StartKeeps(w: World, c: nat, name: string, want: Mac)
    requires Inv(w) && c !in w.calls
    ensures Inv(Step(w, Start(c, name, want)))
  {
    var w1 := Step(w, Start(c, name, want));
    MembersLater(w.core.heap, w.core.heap, w.calls, w1.calls);
  }

  /** Moving call c on while the manager may make an empty room. */
  lemma LookingUpKeepsInv(w: World, c: nat, next: Call, k: Core)
    requires Inv(w) && CoreOk(k) && w.core.heap <= k.heap && c in w.calls && !w.calls[c].Joined?
    requires forall r :: |w.core.heap| <= r < |k.heap| ==> k.heap[r].peers == map[]
    requires CallOk(k.heap, c, next)
    ensures Inv(World(k, w.calls[c := next], w.deletes))
  {
    hide CoreOk;
    CallsLater(w.core.heap, k.heap, w.calls);
    MembersLater(w.core.heap, k.heap, w.calls, w.calls[c := next]);
  }

  lemma LookupKeeps(w: World, c: nat)
    requires Inv(w) && c in w.calls && w.calls[c].Seeking?
    ensures Inv(Step(w, Lookup(c)))
  {
    var (call, w1) := (w.calls[c], Step(w, Lookup(c)));
    assert CallOk(w.core.heap, c, call);
    GetOrCreateKeepsCore(w.core, call.name);
    GetOrCreateEffect(w.core, call.name);
    hide CoreOk, GetOrCreateRoom;
    CallLater(w.core.heap, w1.core.heap, c, call);
    LookingUpKeepsInv(w, c, w1.calls[c], w1.core);
  }

  lemma AddKeeps(w: World, c: nat, draw: Draw)
    requires Inv(w) && c in w.calls && w.calls[c].Holding?
    ensures Inv(Step(w, Add(c, draw)))
  {
    var call, w1 := w.calls[c], Step(w, Add(c, draw));
    assert CallOk(w.core.heap, c, call);
    var room := w.core.heap[call.room];
    AddKeepsSafe(room, call.want, draw, c);
    AddEffect(room, call.want, draw, c);
    AddCallOk(w.core.heap, c, call, draw);
    var (res, room1) := AddPeer(room, call.want, draw, c);
    AdmittingKeepsInv(w, c, AfterAdd(call, res), call.room, room1, w1);
  }

  lemma AddCallOk(h: seq<RoomState>, c: nat, call: Call, draw: Draw)
    requires CallOk(h, c, call) && call.Holding?
    ensures var (res, room) := AddPeer(h[call.room], call.want, draw, c);
            CallOk(h[call.room := room], c, AfterAdd(call, res))
  {
    var (res, room) := AddPeer(h[call.room], call.want, draw, c);
    AddEffect(h[call.room], call.want, draw, c);
    assert CallOk(h[call.room := room], c, call) by {
      CallLater(h, h[call.room := room], c, call);
    }
  }

  lemma LeaveKeeps(w: World, c: nat)
    requires Inv(w) && c in w.calls && w.calls[c].Joined?
    ensures Inv(Step(w, Leave(c)))
  {
    var call, w1 := w.calls[c], Step(w, Leave(c));
    assert CallOk(w.core.heap, c, call);
    var room := w.core.heap[call.room];
    RemoveKeepsSafe(room, call.peer);
    RemoveEffect(room, call.peer);
    hide RemovePeer;
    SetRoomKeepsInv(w, call.room, RemovePeer(room, call.peer).1, w1);
  }

  lemma SendKeeps(w: World, c: nat, frame: seq<byte>)
    requires Inv(w) && c in w.calls && w.calls[c].Joined?
    ensures Inv(Step(w, Send(c, frame)))
  {
    var call, w1 := w.calls[c], Step(w, Send(c, frame));
    assert CallOk(w.core.heap, c, call);
    var room := w.core.heap[call.room];
    ForwardKeepsSafe(room, call.peer, frame);
    ForwardEffect(room, call.peer, frame);
    hide Forward;
    SetRoomKeepsInv(w, call.room, Forward(room, call.peer, frame).1, w1);
  }

  lemma DeleteKeeps(w: World, r: nat)
    requires Inv(w) && r in w.deletes
    ensures Inv(Step(w, Delete(r)))
  {
    DeleteKeepsCore(w.core, r);
    DeleteLater(w.core, r);
    InvLater(w, Step(w, Delete(r)));
  }

  lemma DeleteLater(k: Core, r: nat)
    requires r < |k.heap|
    ensures Later(k.heap, DeleteEmptyRoom(k, r).heap) && NoNewMembers(k.heap, DeleteEmptyRoom(k, r).heap)
  {
  }

  lemma StepKeeps(w: World, a: Action)
    requires Inv(w)
    ensures Inv(Step(w, a))
  {
    match a
    case Start(c, name, want) => if c !in w.calls { StartKeeps(w, c, name, want); }
    case Lookup(c) => if c in w.calls && w.calls[c].Seeking? { LookupKeeps(w, c); }
    case Add(c, draw) => if c in w.calls && w.calls[c].Holding? { AddKeeps(w, c, draw); }
    case Leave(c) => if c in w.calls && w.calls[c].Joined? { LeaveKeeps(w, c); }
    case Send(c, frame) => if c in w.calls && w.calls[c].Joined? { SendKeeps(w, c, frame); }
    case Delete(r) => if r in w.deletes { DeleteKeeps(w, r); }
  }

  /** Every run keeps the invariant. */
  lemma {:induction false} RunKeeps(w: World, acts: seq<Action>)
    requires Inv(w)
    ensures Inv(Run(w, acts))
    decreases |acts|
  {
    hide Inv, Step;
    if acts != [] {
      StepKeeps(w, acts[0]);
      RunKeeps(Step(w, acts[0]), acts[1..]);
    }
  }

  lemma InitialInv(w: World)
    requires Initial(w)
    ensures Inv(w)
  {
  }
}
