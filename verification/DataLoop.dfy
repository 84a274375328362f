/** The relay peer's counters, limiter and queue as fields, and the body of the server's data loop. */
module DataLoop {
  import opened Basics
  import opened RoomModel
  import opened Limiter
  import Plane = DataPlane
  import Relay

  class PeerPort {
    const peer: Peer
    var windowStart: Option<int>
    var windowFrames: nat
    var windowBytes: nat
    var rxFrames: nat
    var rxBytes: nat
    var txFrames: nat
    var txBytes: nat
    var dropFrames: nat
    var dropBytes: nat
    var frames: seq<seq<byte>>
    ghost var full: Plane.Amount
    ghost var written: seq<seq<byte>>

    ghost function State(): Plane.Port
      reads this
    {
      Plane.Port(
        peer, Window(windowStart, windowFrames, windowBytes),
        Plane.Amount(rxFrames, rxBytes), Plane.Amount(txFrames, txBytes), Plane.Amount(dropFrames, dropBytes),
        frames, full, written)
    }

    constructor (peer: Peer)
      ensures State() == Plane.NewPort(peer)
    {
      this.peer := peer;
      windowStart, windowFrames, windowBytes := None, 0, 0;
      rxFrames, rxBytes, txFrames, txBytes, dropFrames, dropBytes := 0, 0, 0, 0, 0, 0;
      frames, full, written := [], Plane.NOTHING, [];
    }

    method AllowFrame(now: int, size: nat) returns (ok: bool)
      modifies this
      ensures var (allowed, w) := Allow(old(State()).window, Offer(now, size));
              ok == allowed && State() == old(State()).(window := w)
    {
      if windowStart.None? || now - windowStart.value >= SECOND {
        windowStart := Some(now);
        windowFrames := 0;
        windowBytes := 0;
      }
      if windowFrames + 1 > MAX_PEER_FRAMES || windowBytes + size > MAX_PEER_BYTES {
        return false;
      }
      windowFrames := windowFrames + 1;
      windowBytes := windowBytes + size;
      return true;
    }

    method RecordRxFrame(frame: seq<byte>)
      modifies this
      ensures State() == Plane.Received(old(State()), frame)
    {
      rxFrames := rxFrames + 1;
      rxBytes := rxBytes + |frame|;
    }

    method RecordDropFrame(frame: seq<byte>)
      modifies this
      ensures State() == Plane.Dropped(old(State()), frame)
    {
      dropFrames := dropFrames + 1;
      dropBytes := dropBytes + |frame|;
    }

    method Enqueue(frame: seq<byte>) returns (ok: bool)
      modifies this
      ensures ok <==> |old(frames)| < Plane.FRAME_QUEUE_CAPACITY
      ensures State() == Plane.Enqueue(old(State()), frame)
    {
      if |frames| < Plane.FRAME_QUEUE_CAPACITY {
        frames := frames + [frame];
        txFrames := txFrames + 1;
        txBytes := txBytes + |frame|;
        return true;
      }
      RecordDropFrame(frame);
      full := full.Plus(Plane.One(frame));
      return false;
    }
  }

  ghost function States(ports: map<nat, PeerPort>): map<nat, Plane.Port>
    reads ports.Values
  {
    map r | r in ports :: ports[r].State()
  }

  /** Each port is filed under the ref of its peer. */
  predicate Filed(ports: map<nat, PeerPort>) {
    forall r :: r in ports ==> ports[r].peer.ref == r
  }

  function PeersOf(s: seq<Peer>): set<Peer> {
    set p | p in s
  }

  lemma OneMoreRef(targets: seq<Peer>, i: nat)
    requires i < |targets|
    requires forall i, j :: 0 <= i < j < |targets| ==> targets[i].ref != targets[j].ref
    ensures Plane.Refs(PeersOf(targets[..i + 1])) == Plane.Refs(PeersOf(targets[..i])) + {targets[i].ref}
    ensures targets[i].ref !in Plane.Refs(PeersOf(targets[..i]))
  {
    assert targets[..i + 1] == targets[..i] + [targets[i]];
    assert PeersOf(targets[..i + 1]) == PeersOf(targets[..i]) + {targets[i]};
  }

  lemma OnePortChanges(ports: map<nat, PeerPort>, was: map<nat, Plane.Port>, ref: nat)
    requires Filed(ports) && ref in ports && was.Keys == ports.Keys
    requires forall r :: r in ports && r != ref ==> ports[r].State() == was[r]
    ensures States(ports) == was[ref := ports[ref].State()]
  {
  }

  method EnqueueOne(ports: map<nat, PeerPort>, ref: nat, payload: seq<byte>)
    requires Filed(ports) && ref in ports
    modifies ports[ref]
    ensures States(ports) == old(States(ports))[ref := Plane.Enqueue(old(ports[ref].State()), payload)]
  {
    ghost var was := States(ports);
    var _ := ports[ref].Enqueue(payload);
    OnePortChanges(ports, was, ref);
  }

  lemma CopyOneMore(was: map<nat, Plane.Port>, done: set<nat>, ref: nat, payload: seq<byte>)
    requires ref in was && ref !in done
    ensures Plane.CopyTo(was, done + {ref}, payload) == Plane.CopyTo(was, done, payload)[ref := Plane.Enqueue(was[ref], payload)]
  {
    hide Plane.Enqueue;
  }

  /** The loop over a frame's targets: each gets one copy. */
  method EnqueueAll(ports: map<nat, PeerPort>, targets: seq<Peer>, payload: seq<byte>)
    requires Filed(ports) && forall i :: 0 <= i < |targets| ==> targets[i].ref in ports
    requires forall i, j :: 0 <= i < j < |targets| ==> targets[i].ref != targets[j].ref
    modifies ports.Values
    ensures States(ports) == Plane.CopyTo(old(States(ports)), Plane.Refs(PeersOf(targets)), payload)
  {
    ghost var was, done := States(ports), {};
    for i := 0 to |targets|
      invariant done == Plane.Refs(PeersOf(targets[..i]))
      invariant States(ports) == Plane.CopyTo(was, done, payload)
    {
      OneMoreRef(targets, i);
      CopyOneMore(was, done, targets[i].ref, payload);
      assert States(ports)[targets[i].ref] == was[targets[i].ref];
      EnqueueOne(ports, targets[i].ref, payload);
      done := done + {targets[i].ref};
    }
    assert targets[..|targets|] == targets;
  }

  /** The state the loop works on, with an empty history. */
  ghost function Now(room: Relay.Room, ports: map<nat, PeerPort>): Plane.Plane
    reads room, ports.Values
  {
    Plane.Plane(room.State(), States(ports), [], [])
  }

  /** One turn of the data loop for an Ethernet frame read from a peer. */
  method ServeFrame(room: Relay.Room, ports: map<nat, PeerPort>, ref: nat, payload: seq<byte>, now: int)
    requires Filed(ports) && ref in ports && room.Keyed() && Plane.MembersHavePorts(Now(room, ports))
    modifies room, ports.Values
    ensures var pl := Plane.Serve(old(Now(room, ports)), ref, payload, now);
            room.State() == pl.room && States(ports) == pl.ports
  {
    ghost var pl := Now(room, ports);
    var port := ports[ref];
    var ok := port.AllowFrame(now, |payload|);
    if !ok {
      port.RecordDropFrame(payload);
      OnePortChanges(ports, pl.ports, ref);
      return;
    }
    port.RecordRxFrame(payload);
    var targets := room.Forward(port.peer, payload);
    if targets.Err? {
      port.RecordDropFrame(payload);
      OnePortChanges(ports, pl.ports, ref);
      return;
    }
    OnePortChanges(ports, pl.ports, ref);
    ghost var all := Forward(pl.room, port.peer, payload).0.value;
    assert PeersOf(targets.value) == all;
    forall i | 0 <= i < |targets.value|
      ensures targets.value[i].ref in ports && pl.ports[targets.value[i].ref].peer == targets.value[i]
    {
      Plane.TargetsAreMembers(pl.room, port.peer, payload, targets.value[i]);
    }
    EnqueueAll(ports, targets.value, payload);
  }
}
