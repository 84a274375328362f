/**
 The data loop: frames read from a peer pass its rate limiter, are switched by the room and
 copied into the targets' bounded queues, and six counters per peer keep the books.

 A step is one frame through the whole loop body, one frame taken off a queue by its writer, or
 a change of membership. Switching and copying are one step: a frame is copied to peers that are
 members when it is switched.
 */
module DataPlane {
  import opened Basics
  import opened RoomModel
  import opened Limiter

  const FRAME_QUEUE_CAPACITY := 128

  /** A number of frames and their bytes. */
  datatype Amount = Amount(frames: nat, bytes: nat) {
    function Plus(a: Amount): Amount {
      Amount(frames + a.frames, bytes + a.bytes)
    }

    function In(u: Unit): nat {
      if u.InFrames? then frames else bytes
    }
  }

  /** The books are kept in frames and in bytes. */
  datatype Unit = InFrames | InBytes

  const NOTHING := Amount(0, 0)

  function One(frame: seq<byte>): Amount {
    Amount(1, |frame|)
  }

  /** The mutable half of a relay peer. `full` and `written` are history: drops for want of queue room, and the frames written out. */
  datatype Port = Port(
    peer: Peer, window: Window, rx: Amount, tx: Amount, drop: Amount, queue: seq<seq<byte>>,
    full: Amount, written: seq<seq<byte>>)

  function NewPort(p: Peer): Port {
    Port(p, CLOSED_WINDOW, NOTHING, NOTHING, NOTHING, [], NOTHING, [])
  }

  /** A copy for this peer: queued and counted as sent, or dropped when the queue is full. */
  function Enqueue(p: Port, frame: seq<byte>): Port {
    if |p.queue| < FRAME_QUEUE_CAPACITY then p.(queue := p.queue + [frame], tx := p.tx.Plus(One(frame)))
    else p.(drop := p.drop.Plus(One(frame)), full := p.full.Plus(One(frame)))
  }

  datatype Fate = Refused | Rejected | Copied(to: set<nat>, full: set<nat>)

  /** A frame read from a peer: when, and what became of it. */
  datatype Entry = Entry(from: nat, at: int, frame: seq<byte>, fate: Fate)

  /** Ports by the ref of their peer. History: the refs in the order they came, and the log of every frame read. */
  datatype Plane = Plane(room: RoomState, ports: map<nat, Port>, refs: seq<nat>, log: seq<Entry>)

  datatype Action =
    | Admit(want: Mac, draw: Draw, ref: nat)
    | Remove(ref: nat)
    | Frame(ref: nat, payload: seq<byte>, now: int)
    | Drain(ref: nat)

  function Refs(peers: set<Peer>): set<nat> {
    set p | p in peers :: p.ref
  }

  function CopyTo(ports: map<nat, Port>, to: set<nat>, frame: seq<byte>): map<nat, Port> {
    map r | r in ports :: if r in to then Enqueue(ports[r], frame) else ports[r]
  }

  function Dropped(p: Port, frame: seq<byte>): Port {
    p.(drop := p.drop.Plus(One(frame)))
  }

  function Received(p: Port, frame: seq<byte>): Port {
    p.(rx := p.rx.Plus(One(frame)))
  }

  /** The sender's port becomes p, its frame has the given fate, and no copies are made. */
  function Settle(pl: Plane, ref: nat, p: Port, frame: seq<byte>, now: int, fate: Fate): Plane {
    pl.(ports := pl.ports[ref := p], log := pl.log + [Entry(ref, now, frame, fate)])
  }

  /** The sender's port becomes p and every target gets a copy. */
  function Spread(pl: Plane, ref: nat, p: Port, frame: seq<byte>, now: int, to: set<nat>): Plane {
    var full := set r | r in to && r in pl.ports && |pl.ports[r].queue| >= FRAME_QUEUE_CAPACITY;
    pl.(ports := CopyTo(pl.ports[ref := p], to, frame), log := pl.log + [Entry(ref, now, frame, Copied(to, full))])
  }

  /** The body of the data loop for one frame. */
  function Serve(pl: Plane, ref: nat, payload: seq<byte>, now: int): Plane
    requires ref in pl.ports
  {
    var (ok, w) := Allow(pl.ports[ref].window, Offer(now, |payload|));
    var port := pl.ports[ref].(window := w);
    if !ok then Settle(pl, ref, Dropped(port, payload), payload, now, Refused)
    else
      var (targets, room) := Forward(pl.room, port.peer, payload);
      if targets.Err? then
        Settle(pl.(room := room), ref, Dropped(Received(port, payload), payload), payload, now, Rejected)
      else
        Spread(pl.(room := room), ref, Received(port, payload), payload, now, Refs(targets.value))
  }

  function Step(pl: Plane, a: Action): Plane {
    match a
    case Admit(want, draw, ref) =>
      var (peer, room) := AddPeer(pl.room, want, draw, ref);
      if peer.Err? || ref in pl.ports then pl
      else pl.(room := room, ports := pl.ports[ref := NewPort(peer.value)], refs := pl.refs + [ref])
    case Remove(ref) =>
      if ref !in pl.ports then pl else pl.(room := RemovePeer(pl.room, pl.ports[ref].peer).1)
    case Frame(ref, payload, now) => if ref in pl.ports then Serve(pl, ref, payload, now) else pl
    case Drain(ref) =>
      if ref !in pl.ports || pl.ports[ref].queue == [] then pl
      else
        var port := pl.ports[ref];
        pl.(ports := pl.ports[ref := port.(queue := port.queue[1..], written := port.written + [port.queue[0]])])
  }

  function Run(pl: Plane, acts: seq<Action>): Plane
    decreases |acts|
  {
    if acts == [] then pl else Run(Step(pl, acts[0]), acts[1..])
  }

  predicate Start(pl: Plane) {
    pl.room.peers == map[] && pl.ports == map[] && pl.refs == [] && pl.log == []
  }

  // ---------- the books, recomputed from the log ----------

  /** What the log says about one peer, in one unit. */
  datatype Tally = Tally(read: nat, refused: nat, rejected: nat, sent: nat, full: nat)

  function Book(t: Tally, e: Entry, ref: nat, u: Unit): Tally {
    var n := One(e.frame).In(u);
    Tally(
      t.read + (if e.from == ref then n else 0),
      t.refused + (if e.from == ref && e.fate.Refused? then n else 0),
      t.rejected + (if e.from == ref && e.fate.Rejected? then n else 0),
      t.sent + (if e.fate.Copied? && ref in e.fate.to - e.fate.full then n else 0),
      t.full + (if e.fate.Copied? && ref in e.fate.full then n else 0))
  }

  function TallyOf(log: seq<Entry>, ref: nat, u: Unit): Tally {
    if log == [] then Tally(0, 0, 0, 0, 0)
    else Book(TallyOf(log[..|log| - 1], ref, u), log[|log| - 1], ref, u)
  }

  /** Every frame once for each of its targets. */
  function FanOut(log: seq<Entry>, u: Unit): nat {
    if log == [] then 0
    else
      var e := log[|log| - 1];
      FanOut(log[..|log| - 1], u) + if e.fate.Copied? then |e.fate.to| * One(e.frame).In(u) else 0
  }

  function Contents(queue: seq<seq<byte>>, u: Unit): nat {
    if queue == [] then 0 else One(queue[0]).In(u) + Contents(queue[1..], u)
  }

  /** The counters of one peer agree with the log. */
  predicate PortOk(p: Port, t: Tally, u: Unit) {
    && t.read == p.rx.In(u) + t.refused
    && p.drop.In(u) == t.refused + t.rejected + t.full
    && p.tx.In(u) == t.sent && p.full.In(u) == t.full
    && p.tx.In(u) == Contents(p.written, u) + Contents(p.queue, u)
    && |p.queue| <= FRAME_QUEUE_CAPACITY
  }

  /** The copies made for one peer: sent, or dropped for want of room. */
  function Cost(p: Port, u: Unit): nat {
    p.tx.In(u) + p.full.In(u)
  }

  predicate Listed(refs: seq<nat>, ports: map<nat, Port>) {
    && (forall i :: 0 <= i < |refs| ==> refs[i] in ports)
    && (forall i, j :: 0 <= i < j < |refs| ==> refs[i] != refs[j])
  }

  /** The copies made for all the peers listed. */
  function Copies(refs: seq<nat>, ports: map<nat, Port>, u: Unit): nat
    requires Listed(refs, ports)
  {
    if refs == [] then 0 else Cost(ports[refs[0]], u) + Copies(refs[1..], ports, u)
  }

  /** Members are the peers of ports, each of its own. */
  predicate MembersHavePorts(pl: Plane) {
    && (forall id :: id in pl.room.peers ==>
          pl.room.peers[id].ref in pl.ports && pl.ports[pl.room.peers[id].ref].peer == pl.room.peers[id])
    && (forall r :: r in pl.ports ==> pl.ports[r].peer.ref == r)
  }

  /** The log is right about this ref, which may have no port yet. */
  predicate PortBooked(pl: Plane, r: nat, u: Unit) {
    var t := TallyOf(pl.log, r, u);
    if r in pl.ports then PortOk(pl.ports[r], t, u) else t == Tally(0, 0, 0, 0, 0)
  }

  ghost predicate PortsOk(pl: Plane, u: Unit) {
    forall r :: PortBooked(pl, r, u)
  }

  /** Summed over all peers, copies sent and copies dropped for want of room are the targets of all frames. */
  predicate TotalOk(pl: Plane, u: Unit) {
    && Listed(pl.refs, pl.ports) && (forall r :: r in pl.ports ==> r in pl.refs)
    && Copies(pl.refs, pl.ports, u) == FanOut(pl.log, u)
  }

  ghost predicate Inv(pl: Plane, u: Unit) {
    MembersHavePorts(pl) && PortsOk(pl, u) && TotalOk(pl, u)
  }

  // ---------- sums over peers ----------

  lemma {:induction false} CopiesSame(refs: seq<nat>, ports: map<nat, Port>, ports1: map<nat, Port>, u: Unit)
    requires Listed(refs, ports) && Listed(refs, ports1)
    requires forall i :: 0 <= i < |refs| ==> Cost(ports1[refs[i]], u) == Cost(ports[refs[i]], u)
    ensures Copies(refs, ports1, u) == Copies(refs, ports, u)
  {
    if refs != [] {
      CopiesSame(refs[1..], ports, ports1, u);
    }
  }

  /** How many of the listed refs are in the set. */
  function Hits(refs: seq<nat>, to: set<nat>): nat {
    if refs == [] then 0 else (if refs[0] in to then 1 else 0) + Hits(refs[1..], to)
  }

  /** A list without repetitions that covers the set hits each of its elements once. */
  lemma {:induction false} HitsAll(refs: seq<nat>, to: set<nat>)
    requires forall i, j :: 0 <= i < j < |refs| ==> refs[i] != refs[j]
    requires forall r :: r in to ==> r in refs
    ensures Hits(refs, to) == |to|
  {
    if refs != [] {
      var (first, rest) := (refs[0], refs[1..]);
      HitsAll(rest, to - {first});
      HitsSame(rest, to, to - {first});
      assert first in to ==> |to| == |to - {first}| + 1;
      assert first !in to ==> to - {first} == to;
    }
  }

  lemma {:induction false} HitsSame(refs: seq<nat>, a: set<nat>, b: set<nat>)
    requires forall i :: 0 <= i < |refs| ==> (refs[i] in a <==> refs[i] in b)
    ensures Hits(refs, a) == Hits(refs, b)
  {
    if refs != [] {
      HitsSame(refs[1..], a, b);
    }
  }

  /** One frame copied to a set of peers adds one frame for each of them. */
  lemma {:induction false} CopiesOfFrame(refs: seq<nat>, ports: map<nat, Port>, ports1: map<nat, Port>, to: set<nat>, n: nat, u: Unit)
    requires Listed(refs, ports) && Listed(refs, ports1)
    requires forall i :: 0 <= i < |refs| ==>
               Cost(ports1[refs[i]], u) == Cost(ports[refs[i]], u) + if refs[i] in to then n else 0
    ensures Copies(refs, ports1, u) == Copies(refs, ports, u) + Hits(refs, to) * n
  {
    if refs != [] {
      CopiesOfFrame(refs[1..], ports, ports1, to, n, u);
      OneMore(Hits(refs[1..], to), n);
      var hit := if refs[0] in to then 1 else 0;
      assert Hits(refs, to) == hit + Hits(refs[1..], to);
      assert Cost(ports1[refs[0]], u) == Cost(ports[refs[0]], u) + hit * n;
    }
  }

  lemma OneMore(h: nat, n: nat)
    ensures (1 + h) * n == n + h * n
  {
  }

  // ---------- the targets are members, each with a port of its own ----------

  lemma TargetsAreMembers(r: RoomState, from: Peer, frame: seq<byte>, p: Peer)
    requires Forward(r, from, frame).0.Ok? && p in Forward(r, from, frame).0.value
    ensures exists id :: id in r.peers && r.peers[id] == p && p != from
  {
    if Current(r, p) {
      assert r.peers[p.id] == p;
    }
  }

  lemma TargetsHavePorts(pl: Plane, from: Peer, frame: seq<byte>)
    requires MembersHavePorts(pl) && Forward(pl.room, from, frame).0.Ok?
    requires from.ref in pl.ports && pl.ports[from.ref].peer == from
    ensures var to := Refs(Forward(pl.room, from, frame).0.value);
            to <= pl.ports.Keys && from.ref !in to
  {
    var targets := Forward(pl.room, from, frame).0.value;
    forall p | p in targets ensures p.ref in pl.ports && p.ref != from.ref {
      TargetsAreMembers(pl.room, from, frame, p);
    }
  }

  /** The log counts every target once. */
  lemma {:induction false} RefsSize(peers: set<Peer>, ports: map<nat, Port>)
    requires forall p :: p in peers ==> p.ref in ports && ports[p.ref].peer == p
    ensures |Refs(peers)| == |peers|
  {
    if peers != {} {
      var p :| p in peers;
      RefsSize(peers - {p}, ports);
      assert Refs(peers) == Refs(peers - {p}) + {p.ref};
      assert p.ref !in Refs(peers - {p});
    }
  }

  // ---------- every step keeps the books ----------

  lemma TallyAppends(log: seq<Entry>, e: Entry, ref: nat, u: Unit)
    ensures TallyOf(log + [e], ref, u) == Book(TallyOf(log, ref, u), e, ref, u)
    ensures FanOut(log + [e], u) == FanOut(log, u) + if e.fate.Copied? then |e.fate.to| * One(e.frame).In(u) else 0
  {
    assert (log + [e])[..|log|] == log;
  }

  lemma {:induction false} ContentsAppends(queue: seq<seq<byte>>, frame: seq<byte>, u: Unit)
    ensures Contents(queue + [frame], u) == Contents(queue, u) + One(frame).In(u)
  {
    if queue == [] {
      assert queue + [frame] == [frame];
    } else {
      ContentsAppends(queue[1..], frame, u);
      assert (queue + [frame])[1..] == queue[1..] + [frame];
    }
  }

  /** What a frame of each fate does to the sender's port. */
  lemma SenderPort(p: Port, t: Tally, w: Window, frame: seq<byte>, e: Entry, ref: nat, u: Unit)
    requires PortOk(p, t, u) && e.from == ref && e.frame == frame
    ensures e.fate.Refused? ==> PortOk(Dropped(p.(window := w), frame), Book(t, e, ref, u), u)
    ensures e.fate.Rejected? ==> PortOk(Dropped(Received(p.(window := w), frame), frame), Book(t, e, ref, u), u)
    ensures e.fate.Copied? && ref !in e.fate.to && ref !in e.fate.full ==>
              PortOk(Received(p.(window := w), frame), Book(t, e, ref, u), u)
  {
  }

  lemma TargetPort(p: Port, t: Tally, frame: seq<byte>, e: Entry, ref: nat, u: Unit)
    requires PortOk(p, t, u) && e.from != ref && e.frame == frame && e.fate.Copied? && ref in e.fate.to
    requires ref in e.fate.full <==> |p.queue| >= FRAME_QUEUE_CAPACITY
    ensures PortOk(Enqueue(p, frame), Book(t, e, ref, u), u)
    ensures Cost(Enqueue(p, frame), u) == Cost(p, u) + One(frame).In(u)
  {
    ContentsAppends(p.queue, frame, u);
  }

  lemma SettleKeeps(pl: Plane, ref: nat, p: Port, frame: seq<byte>, now: int, fate: Fate, u: Unit)
    requires Inv(pl, u) && ref in pl.ports && !fate.Copied?
    requires var w := pl.ports[ref].(window := p.window);
             p == if fate.Refused? then Dropped(w, frame) else Dropped(Received(w, frame), frame)
    ensures Inv(Settle(pl, ref, p, frame, now, fate), u)
  {
    var (pl1, e) := (Settle(pl, ref, p, frame, now, fate), Entry(ref, now, frame, fate));
    forall r ensures PortBooked(pl1, r, u) {
      assert PortBooked(pl, r, u);
      TallyAppends(pl.log, e, r, u);
      if r == ref {
        SenderPort(pl.ports[r], TallyOf(pl.log, r, u), p.window, frame, e, ref, u);
      }
    }
    TallyAppends(pl.log, e, ref, u);
    CopiesSame(pl.refs, pl.ports, pl1.ports, u);
  }

  lemma SpreadKeepsPort(pl: Plane, ref: nat, p: Port, frame: seq<byte>, now: int, to: set<nat>, r: nat, u: Unit)
    requires PortsOk(pl, u) && MembersHavePorts(pl) && ref in pl.ports && to <= pl.ports.Keys && ref !in to
    requires p == Received(pl.ports[ref].(window := p.window), frame)
    ensures PortBooked(Spread(pl, ref, p, frame, now, to), r, u)
  {
    var (e, t) := (Spread(pl, ref, p, frame, now, to).log[|pl.log|], TallyOf(pl.log, r, u));
    TallyAppends(pl.log, e, r, u);
    assert PortBooked(pl, r, u);
    if r in to {
      TargetPort(pl.ports[r], t, frame, e, r, u);
    } else if r == ref {
      SenderPort(pl.ports[r], t, p.window, frame, e, ref, u);
    }
  }

  lemma SpreadKeeps(pl: Plane, ref: nat, p: Port, frame: seq<byte>, now: int, to: set<nat>, u: Unit)
    requires Inv(pl, u) && ref in pl.ports && to <= pl.ports.Keys && ref !in to
    requires p == Received(pl.ports[ref].(window := p.window), frame)
    ensures Inv(Spread(pl, ref, p, frame, now, to), u)
  {
    var pl1 := Spread(pl, ref, p, frame, now, to);
    forall r ensures PortBooked(pl1, r, u) {
      SpreadKeepsPort(pl, ref, p, frame, now, to, r, u);
    }
    SpreadKeepsTotal(pl, ref, p, frame, now, to, u);
  }

  lemma SpreadKeepsTotal(pl: Plane, ref: nat, p: Port, frame: seq<byte>, now: int, to: set<nat>, u: Unit)
    requires TotalOk(pl, u) && ref in pl.ports && to <= pl.ports.Keys && ref !in to
    requires p == Received(pl.ports[ref].(window := p.window), frame)
    ensures TotalOk(Spread(pl, ref, p, frame, now, to), u)
  {
    var pl1 := Spread(pl, ref, p, frame, now, to);
    TallyAppends(pl.log, pl1.log[|pl.log|], ref, u);
    forall r | r in pl.ports ensures Cost(pl1.ports[r], u) == Cost(pl.ports[r], u) + if r in to then One(frame).In(u) else 0 {
      SpreadCost(pl, ref, p, frame, now, to, r, u);
    }
    CopiesOfFrame(pl.refs, pl.ports, pl1.ports, to, One(frame).In(u), u);
    HitsAll(pl.refs, to);
  }

  lemma SpreadCost(pl: Plane, ref: nat, p: Port, frame: seq<byte>, now: int, to: set<nat>, r: nat, u: Unit)
    requires ref in pl.ports && ref !in to && r in pl.ports
    requires p == Received(pl.ports[ref].(window := p.window), frame)
    ensures r in Spread(pl, ref, p, frame, now, to).ports
    ensures Cost(Spread(pl, ref, p, frame, now, to).ports[r], u) == Cost(pl.ports[r], u) + if r in to then One(frame).In(u) else 0
  {
  }

  /** Members may leave, and the MAC table may change, without touching the books. */
  lemma RoomChanges(pl: Plane, room: RoomState, u: Unit)
    requires Inv(pl, u) && forall id :: id in room.peers ==> id in pl.room.peers && room.peers[id] == pl.room.peers[id]
    ensures Inv(pl.(room := room), u)
  {
    forall r ensures PortBooked(pl.(room := room), r, u) {
      assert PortBooked(pl, r, u);
    }
  }

  lemma ServeKeeps(pl: Plane, ref: nat, payload: seq<byte>, now: int, u: Unit)
    requires Inv(pl, u) && ref in pl.ports
    ensures Inv(Serve(pl, ref, payload, now), u)
  {
    var (ok, w) := Allow(pl.ports[ref].window, Offer(now, |payload|));
    var port := pl.ports[ref].(window := w);
    if !ok {
      SettleKeeps(pl, ref, Dropped(port, payload), payload, now, Refused, u);
    } else {
      var (targets, room) := Forward(pl.room, port.peer, payload);
      RoomChanges(pl, room, u);
      var pl0 := pl.(room := room);
      if targets.Err? {
        SettleKeeps(pl0, ref, Dropped(Received(port, payload), payload), payload, now, Rejected, u);
      } else {
        TargetsHavePorts(pl, port.peer, payload);
        SpreadKeeps(pl0, ref, Received(port, payload), payload, now, Refs(targets.value), u);
      }
    }
  }

  lemma AdmitKeeps(pl: Plane, want: Mac, draw: Draw, ref: nat, u: Unit)
    requires Inv(pl, u)
    ensures Inv(Step(pl, Admit(want, draw, ref)), u)
  {
    var (res, room) := AddPeer(pl.room, want, draw, ref);
    if res.Ok? && ref !in pl.ports {
      NewPortKeeps(pl, room, res.value, u);
    }
  }

  lemma NewPortKeeps(pl: Plane, room: RoomState, p: Peer, u: Unit)
    requires Inv(pl, u) && p.ref !in pl.ports && room.peers == pl.room.peers[p.id := p]
    ensures Inv(pl.(room := room, ports := pl.ports[p.ref := NewPort(p)], refs := pl.refs + [p.ref]), u)
  {
    var pl1 := pl.(room := room, ports := pl.ports[p.ref := NewPort(p)], refs := pl.refs + [p.ref]);
    forall r ensures PortBooked(pl1, r, u) {
      assert PortBooked(pl, r, u);
    }
    NewPortKeepsTotal(pl, pl1, p, u);
  }

  lemma NewPortKeepsTotal(pl: Plane, pl1: Plane, p: Peer, u: Unit)
    requires TotalOk(pl, u) && p.ref !in pl.ports && pl1.log == pl.log
    requires pl1.ports == pl.ports[p.ref := NewPort(p)] && pl1.refs == pl.refs + [p.ref]
    ensures TotalOk(pl1, u)
  {
    assert Listed(pl.refs, pl1.ports);
    CopiesSame(pl.refs, pl.ports, pl1.ports, u);
    CopiesAppends(pl.refs, pl1.ports, p.ref, u);
  }

  lemma {:induction false} CopiesAppends(refs: seq<nat>, ports: map<nat, Port>, r: nat, u: Unit)
    requires Listed(refs + [r], ports) && Listed(refs, ports)
    ensures Copies(refs + [r], ports, u) == Copies(refs, ports, u) + Cost(ports[(refs + [r])[|refs|]], u)
  {
    if refs == [] {
      assert refs + [r] == [r];
    } else {
      assert (refs + [r])[1..] == refs[1..] + [r];
      CopiesAppends(refs[1..], ports, r, u);
    }
  }

  lemma DrainedPort(p: Port, t: Tally, u: Unit)
    requires p.queue != []
    ensures PortOk(p, t, u) ==>
              PortOk(p.(queue := p.queue[1..], written := p.written + [p.queue[0]]), t, u)
  {
    ContentsAppends(p.written, p.queue[0], u);
  }

  lemma DrainKeeps(pl: Plane, ref: nat, u: Unit)
    requires Inv(pl, u) && ref in pl.ports && pl.ports[ref].queue != []
    ensures Inv(Step(pl, Drain(ref)), u)
  {
    var (p, pl1) := (pl.ports[ref], Step(pl, Drain(ref)));
    forall r ensures PortBooked(pl1, r, u) {
      assert PortBooked(pl, r, u);
      DrainedPort(p, TallyOf(pl.log, ref, u), u);
    }
    CopiesSame(pl.refs, pl.ports, pl1.ports, u);
  }

  lemma StepKeeps(pl: Plane, a: Action, u: Unit)
    requires Inv(pl, u)
    ensures Inv(Step(pl, a), u)
  {
    match a
    case Admit(want, draw, ref) => AdmitKeeps(pl, want, draw, ref, u);
    case Remove(ref) => if ref in pl.ports { RoomChanges(pl, RemovePeer(pl.room, pl.ports[ref].peer).1, u); }
    case Frame(ref, payload, now) => if ref in pl.ports { ServeKeeps(pl, ref, payload, now, u); }
    case Drain(ref) => if ref in pl.ports && pl.ports[ref].queue != [] { DrainKeeps(pl, ref, u); }
  }

  lemma {:induction false} RunKeeps(pl: Plane, acts: seq<Action>, u: Unit)
    requires Inv(pl, u)
    ensures Inv(Run(pl, acts), u)
    decreases |acts|
  {
    if acts != [] {
      StepKeeps(pl, acts[0], u);
      RunKeeps(Step(pl, acts[0]), acts[1..], u);
    }
  }

  /**
   Conservation over every run of the data loop, in frames and in bytes. For each peer: rx is
   what was read from it less what its limiter refused; drops are the limiter's refusals, the
   frames Forward rejected and the copies that found its own queue full; what it was sent is what
   has been written out and what still waits in its queue.
   */
  lemma PeerBooksBalance(pl: Plane, acts: seq<Action>, ref: nat, u: Unit)
    requires Start(pl) && ref in Run(pl, acts).ports
    ensures var (pl1, t) := (Run(pl, acts), TallyOf(Run(pl, acts).log, ref, u));
            var p := pl1.ports[ref];
            && p.rx.In(u) == t.read - t.refused
            && p.drop.In(u) == t.refused + t.rejected + t.full
            && p.tx.In(u) == t.sent == Contents(p.written, u) + Contents(p.queue, u)
            && |p.queue| <= FRAME_QUEUE_CAPACITY
  {
    RunKeeps(pl, acts, u);
    assert PortBooked(Run(pl, acts), ref, u);
  }

  /**
   Summed over all peers that ever joined, copies sent and copies dropped at a full queue add up
   to the number of targets of every frame forwarded.
   */
  lemma TotalBooksBalance(pl: Plane, acts: seq<Action>, u: Unit)
    requires Start(pl)
    ensures var pl1 := Run(pl, acts);
            && Listed(pl1.refs, pl1.ports) && (forall r :: r in pl1.ports <==> r in pl1.refs)
            && Copies(pl1.refs, pl1.ports, u) == FanOut(pl1.log, u)
  {
    RunKeeps(pl, acts, u);
  }

  /** The log counts every target of a frame once. */
  lemma LogCountsTargets(pl: Plane, ref: nat, payload: seq<byte>)
    requires MembersHavePorts(pl) && ref in pl.ports && Forward(pl.room, pl.ports[ref].peer, payload).0.Ok?
    ensures var targets := Forward(pl.room, pl.ports[ref].peer, payload).0.value;
            |Refs(targets)| == |targets|
  {
    var (from, targets) := (pl.ports[ref].peer, Forward(pl.room, pl.ports[ref].peer, payload).0.value);
    forall p | p in targets ensures p.ref in pl.ports && pl.ports[p.ref].peer == p {
      TargetsAreMembers(pl.room, from, payload, p);
    }
    RefsSize(targets, pl.ports);
  }
}
