/**
 The relay's objects. Each method is one region of code that holds a lock and is proved to do to
 the fields what the function of the same name in RoomModel or RelayWorld does to the value.
 */
module Relay {
  import opened Basics
  import opened Sorting
  import opened Pool
  import Model = RoomModel
  import World = RelayWorld
  import opened RoomModel

  class Room {
    /** How many rooms the manager had made before this one. */
    ghost const ref: nat
    const index: nat
    const name: string
    const base: nat
    var peers: map<string, Peer>
    var macToPeer: map<Mac, Peer>
    var nextHost: nat
    var freeHosts: seq<nat>
    var closed: bool

    function State(): RoomState
      reads this
    {
      RoomState(index, name, base, peers, macToPeer, nextHost, freeHosts, closed)
    }

    constructor (ghost ref: nat, index: nat, name: string, base: nat)
      ensures this.ref == ref && State() == World.NewRoom(index, name, base)
    {
      this.ref, this.index, this.name, this.base := ref, index, name, base;
      peers, macToPeer := map[], map[];
      nextHost, freeHosts, closed := FIRST_USABLE_HOST, [], false;
    }

    method AllocateHost() returns (res: Result<nat, RelayError>)
      modifies this
      ensures (res, State()) == Model.AllocateHost(old(State()))
    {
      if |freeHosts| > 0 {
        res := Ok(freeHosts[0]);
        freeHosts := freeHosts[1..];
        return;
      }
      if nextHost > LAST_USABLE_HOST {
        return Err(RoomFull);
      }
      res := Ok(nextHost);
      nextHost := (nextHost + 1) % 256;
    }

    method ReleaseHost(ip: nat)
      modifies this
      ensures State() == old(State()).(freeHosts := Model.ReleaseHost(old(freeHosts), ip))
    {
      var host := ip % 256;
      if host < FIRST_USABLE_HOST || host > LAST_USABLE_HOST {
        return;
      }
      for i := 0 to |freeHosts|
        invariant host !in freeHosts[..i]
        invariant State() == old(State())
      {
        if freeHosts[i] == host {
          return;
        }
      }
      assert freeHosts[..|freeHosts|] == freeHosts;
      freeHosts := Sort(false, freeHosts + [host]);
    }

    method AddPeer(want: Mac, draw: Draw, ref: nat) returns (res: Result<Peer, RelayError>)
      modifies this
      ensures (res, State()) == Model.AddPeer(old(State()), want, draw, ref)
    {
      if closed {
        return Err(RoomClosed);
      }
      if draw.id.None? {
        return Err(RandomFailed);
      }
      var mac := want;
      if mac != [] {
        if !ValidPeerMac(mac) {
          return Err(MacInvalid);
        }
        if mac in macToPeer {
          return Err(MacInUse);
        }
      } else {
        if draw.mac.None? {
          return Err(RandomFailed);
        }
        mac := LocalMac(draw.mac.value);
      }
      var host := AllocateHost();
      if host.Err? {
        return Err(host.error);
      }
      var peer := Peer(ref, draw.id.value, mac, (base + host.value) % TWO_32);
      peers := peers[peer.id := peer];
      macToPeer := macToPeer[peer.mac := peer];
      return Ok(peer);
    }

    /** Deletes every entry of the MAC table that points to the peer. */
    method ForgetMacs(peer: Peer)
      modifies this`macToPeer
      ensures macToPeer == map m | m in old(macToPeer) && old(macToPeer)[m] != peer :: old(macToPeer)[m]
    {
      var table, todo := macToPeer, macToPeer.Keys;
      while todo != {}
        invariant todo <= table.Keys
        invariant macToPeer == map m | m in table && (m in todo || table[m] != peer) :: table[m]
        decreases |todo|
      {
        var mac :| mac in todo;
        todo := todo - {mac};
        if table[mac] == peer {
          macToPeer := macToPeer - {mac};
        }
      }
      assert macToPeer == map m | m in table && table[m] != peer :: table[m];
    }

    /** The locked half of RemovePeer; the result asks the caller for deleteEmptyRoom. */
    method RemovePeer(peer: Peer) returns (empty: bool)
      modifies this
      ensures (empty, State()) == Model.RemovePeer(old(State()), peer)
    {
      if peer.id !in peers || peers[peer.id] != peer {
        return false;
      }
      peers := peers - {peer.id};
      ReleaseHost(peer.ip);
      ForgetMacs(peer);
      empty := |peers| == 0;
    }

    /** The member map lists every peer under its own id. */
    predicate Keyed()
      reads this
    {
      forall id :: id in peers ==> peers[id].id == id
    }

    /** Every other member once, in the order the map happens to give. */
    method OtherPeers(from: Peer) returns (out: seq<Peer>)
      requires Keyed()
      ensures Lists(out, Others(State(), from))
    {
      out := [];
      var todo := peers.Keys;
      while todo != {}
        invariant todo <= peers.Keys
        invariant forall p :: p in out <==> p.id in peers && p.id !in todo && p == peers[p.id] && p != from
        invariant forall i, j :: 0 <= i < j < |out| ==> out[i] != out[j]
        decreases |todo|
      {
        var id :| id in todo;
        todo := todo - {id};
        if peers[id] != from {
          out := out + [peers[id]];
        }
      }
    }

    method Forward(from: Peer, frame: seq<byte>) returns (res: Result<seq<Peer>, RelayError>)
      requires Keyed()
      modifies this
      ensures State() == Model.Forward(old(State()), from, frame).1 && Keyed()
      ensures match Model.Forward(old(State()), from, frame).0
              case Ok(targets) => res.Ok? && Lists(res.value, targets)
              case Err(e) => res == Err(e)
    {
      if |frame| < 14 {
        return Err(InvalidFrame);
      }
      var dst, src := frame[0..6], frame[6..12];
      if src != from.mac {
        return Err(SourceMacInvalid);
      }
      if from.id !in peers || peers[from.id] != from {
        return Ok([]);
      }
      macToPeer := macToPeer[from.mac := from];
      if !IsBroadcast(dst) && !IsMulticast(dst) && dst in macToPeer {
        var target := macToPeer[dst];
        if target != from && target.id in peers && peers[target.id] == target {
          return Ok([target]);
        }
      }
      var others := OtherPeers(from);
      return Ok(others);
    }
  }

  /** The sequence lists the elements of the set, each once. */
  ghost predicate Lists(s: seq<Peer>, all: set<Peer>) {
    && (forall p :: p in s <==> p in all)
    && (forall i, j :: 0 <= i < j < |s| ==> s[i] != s[j])
  }

  ghost function States(all: seq<Room>): (h: seq<RoomState>)
    reads all
    ensures |h| == |all| && forall i :: 0 <= i < |all| ==> h[i] == all[i].State()
  {
    seq(|all|, i requires 0 <= i < |all| reads all => all[i].State())
  }

  ghost function Refs(rooms: map<string, Room>): map<string, nat> {
    map n | n in rooms :: rooms[n].ref
  }

  lemma RefsAfter(rooms: map<string, Room>, name: string, room: Room)
    ensures Refs(rooms - {name}) == Refs(rooms) - {name}
    ensures Refs(rooms[name := room]) == Refs(rooms)[name := room.ref]
  {
  }

  class Manager {
    const pool: Pool
    var rooms: map<string, Room>
    var nextRoom: nat
    var freeRoom: seq<nat>
    /** Every room ever made, in order: history. */
    ghost var all: seq<Room>

    ghost predicate Valid()
      reads this, all
    {
      && (forall i :: 0 <= i < |all| ==> all[i].ref == i)
      && (forall n :: n in rooms ==> Known(rooms[n]))
    }

    ghost predicate Known(room: Room)
      reads this
    {
      room.ref < |all| && all[room.ref] == room
    }

    ghost function Core(): World.Core
      reads this, all
    {
      World.Core(pool, Refs(rooms), nextRoom, freeRoom, States(all))
    }

    constructor (pool: Pool)
      ensures Valid() && Core() == World.Core(pool, map[], 0, [], [])
    {
      this.pool := pool;
      rooms, nextRoom, freeRoom, all := map[], 0, [], [];
    }

    method AllocateRoomIndex() returns (res: Result<nat, RelayError>)
      requires Valid()
      modifies this
      ensures Valid() && all == old(all) && rooms == old(rooms)
      ensures (res, Core()) == World.AllocateIndex(old(Core()))
    {
      var n := |freeRoom|;
      if n > 0 {
        res := Ok(freeRoom[n - 1]);
        freeRoom := freeRoom[..n - 1];
        return;
      }
      if nextRoom >= MaxRooms(pool) {
        return Err(PoolFull);
      }
      res := Ok(nextRoom);
      nextRoom := (nextRoom + 1) % TWO_32;
    }

    /** Makes a room on a block of the pool and maps the name to it. */
    method NewRoom(name: string, index: nat) returns (room: Room)
      requires Valid()
      modifies this
      ensures Valid() && fresh(room) && Known(room) && room.ref == |old(all)| && all == old(all) + [room]
      ensures rooms == old(rooms)[name := room] && nextRoom == old(nextRoom) && freeRoom == old(freeRoom)
      ensures States(all) == old(States(all)) + [World.NewRoom(index, name, RoomBase(pool, index))]
    {
      room := new Room(|all|, index, name, RoomBase(pool, index));
      all := all + [room];
      rooms := rooms[name := room];
    }

    method GetOrCreateRoom(name: string) returns (res: Result<Room, RelayError>)
      requires Valid()
      modifies this
      ensures Valid() && (forall r :: r in all ==> r in old(all) || fresh(r))
      ensures Core() == World.GetOrCreateRoom(old(Core()), name).1
      ensures match World.GetOrCreateRoom(old(Core()), name).0
              case Ok(ref) => res.Ok? && Known(res.value) && res.value.ref == ref
              case Err(e) => res == Err(e)
    {
      if name in rooms {
        return Ok(rooms[name]);
      }
      var index := AllocateRoomIndex();
      if index.Err? {
        return Err(index.error);
      }
      ghost var mapped := rooms;
      var room := NewRoom(name, index.value);
      RefsAfter(mapped, name, room);
      return Ok(room);
    }

    /** Closes a room and gives its index back. */
    method CloseRoom(room: Room)
      requires Valid() && Known(room)
      modifies this, room
      ensures Valid() && all == old(all) && nextRoom == old(nextRoom) && rooms == old(rooms) - {room.name}
      ensures freeRoom == Sort(true, old(freeRoom) + [room.index])
      ensures States(all) == old(States(all))[room.ref := old(room.State()).(closed := true)]
    {
      room.closed := true;
      assert forall i :: 0 <= i < |all| && i != room.ref ==> all[i].State() == old(all[i].State());
      rooms := rooms - {room.name};
      freeRoom := Sort(true, freeRoom + [room.index]);
    }

    method DeleteEmptyRoom(room: Room)
      requires Valid() && Known(room)
      modifies this, room
      ensures Valid() && all == old(all)
      ensures Core() == World.DeleteEmptyRoom(old(Core()), room.ref)
    {
      if room.name !in rooms || rooms[room.name] != room || |room.peers| != 0 {
        return;
      }
      RefsAfter(rooms, room.name, room);
      CloseRoom(room);
    }

    /** RemovePeer with nobody running between its two locked halves. */
    method RemovePeer(room: Room, peer: Peer)
      requires Valid() && Known(room)
      modifies this, room
      ensures Valid() && all == old(all)
      ensures var k := old(Core());
              var (empty, state) := Model.RemovePeer(k.heap[room.ref], peer);
              var k1 := World.SetRoom(k, room.ref, state);
              Core() == if empty then World.DeleteEmptyRoom(k1, room.ref) else k1
    {
      var empty := room.RemovePeer(peer);
      assert Core() == World.SetRoom(old(Core()), room.ref, room.State());
      if empty {
        DeleteEmptyRoom(room);
      }
    }
  }
}
