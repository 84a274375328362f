/**
 The latency protocol end to end: clients, the server's stamping and forwarding, bounded notify
 queues, and control streams that may lose anything.

 Peers in `honest` run this code. All others may send the server any ping or pong at any time.
 Peer ids are never reused. The trace records what happened in the order it happened.
 */
module LatencyNet {
  import opened Basics
  import opened StatusModel

  datatype Msg = PingMsg(ping: Ping) | PongMsg(pong: Pong) | ListMsg(peers: seq<PeerInfo>)

  datatype Event =
    | Issued(client: string, peer: string, id: string, at: int)
    | Handled(client: string, asker: string, id: string, askedAt: int)
    | Recorded(client: string, peer: string, id: string, at: int, rtt: int)

  /** up: client to server; queue: the notify queue; down: server to client. */
  datatype Net = Net(
    honest: set<string>, roomOf: map<string, nat>, live: set<string>, status: map<string, Status>,
    up: map<string, seq<Msg>>, queue: map<string, seq<Msg>>, down: map<string, seq<Msg>>, trace: seq<Event>)

  datatype Hop = Up | Queue | Down

  datatype Action =
    | Join(c: string, room: nat, ip: nat, peers: seq<PeerInfo>)
    | Leave(c: string)
    | PushList(c: string, peers: seq<PeerInfo>)
    | Tick(c: string, now: int, nonce: Option<string>)
    | Serve(c: string)
    | Write(c: string)
    | Receive(c: string, now: int)
    | Forge(c: string, msg: Msg)
    | Lose(c: string, hop: Hop, k: nat)

  function Of(m: map<string, seq<Msg>>, c: string): seq<Msg> {
    if c in m then m[c] else []
  }

  // ---------- the server ----------

  /** SendNotify: to a current member of the sender's room, unless its queue is full. */
  function SendNotify(n: Net, from: string, to: string, msg: Msg): Net {
    if from in n.roomOf && to in n.live && to in n.roomOf && n.roomOf[to] == n.roomOf[from]
       && |Of(n.queue, to)| < NOTIFY_CAPACITY
    then n.(queue := n.queue[to := Of(n.queue, to) + [msg]])
    else n
  }

  /** forwardPeerPing and forwardPeerPong: the sender's id is stamped by the server. */
  function ForwardMsg(n: Net, from: string, msg: Msg): Net {
    match msg
    case PingMsg(p) =>
      if p.to == "" || p.to == from then n else SendNotify(n, from, p.to, PingMsg(p.(from := from)))
    case PongMsg(p) =>
      if p.to == "" || p.to == from then n else SendNotify(n, from, p.to, PongMsg(p.(from := from)))
    case ListMsg(_) => n
  }

  // ---------- a client running this code ----------

  function TickStep(n: Net, c: string, now: int, nonce: Option<string>): Net
    requires c in n.status
  {
    var (probe, s) := NextProbe(Expire(n.status[c], now), now, nonce);
    if probe.None? then n.(status := n.status[c := s])
    else
      var p := probe.value;
      n.(status := n.status[c := s],
         up := n.up[c := Of(n.up, c) + [PingMsg(Ping(p.id, "", p.peer, p.sentAt))]],
         trace := n.trace + [Issued(c, p.peer, p.id, p.sentAt)])
  }

  function ReceivePing(n: Net, c: string, ping: Ping): Net
    requires c in n.status
  {
    var pong := HandlePing(n.status[c], ping);
    if pong.None? then n
    else n.(up := n.up[c := Of(n.up, c) + [PongMsg(pong.value)]],
            trace := n.trace + [Handled(c, ping.from, ping.id, ping.sentAt)])
  }

  function ReceivePong(n: Net, c: string, pong: Pong, now: int): Net
    requires c in n.status
  {
    var s := n.status[c];
    var s1 := HandlePong(s, pong, now);
    if pong.from == "" || pong.to != s.self || !Answers(s, pong.from, pong.id) then n
    else n.(status := n.status[c := s1],
            trace := n.trace + [Recorded(c, pong.from, pong.id, now, s1.latency[pong.from].rtt)])
  }

  function ReceiveStep(n: Net, c: string, msg: Msg, now: int): Net
    requires c in n.status
  {
    match msg
    case PingMsg(ping) => ReceivePing(n, c, ping)
    case PongMsg(pong) => ReceivePong(n, c, pong, now)
    case ListMsg(peers) => n.(status := n.status[c := UpdatePeers(n.status[c], peers)])
  }

  // ---------- steps ----------

  function Without(s: seq<Msg>, k: nat): seq<Msg> {
    if k < |s| then s[..k] + s[k + 1..] else s
  }

  function Step(n: Net, a: Action): Net {
    match a
    case Join(c, room, ip, peers) =>
      if c in n.roomOf || c == "" then n
      else
        var n1 := n.(roomOf := n.roomOf[c := room], live := n.live + {c});
        if c in n.honest then n1.(status := n.status[c := Status(true, c, ip, peers, Keep(peers, map[]))]) else n1
    case Leave(c) => n.(live := n.live - {c})
    case PushList(c, peers) =>
      if c in n.live && |Of(n.queue, c)| < NOTIFY_CAPACITY
      then n.(queue := n.queue[c := Of(n.queue, c) + [ListMsg(peers)]]) else n
    case Tick(c, now, nonce) => if c in n.status then TickStep(n, c, now, nonce) else n
    case Serve(c) =>
      var s := Of(n.up, c);
      if s == [] then n else ForwardMsg(n.(up := n.up[c := s[1..]]), c, s[0])
    case Write(c) =>
      var s := Of(n.queue, c);
      if s == [] then n else n.(queue := n.queue[c := s[1..]], down := n.down[c := Of(n.down, c) + [s[0]]])
    case Receive(c, now) =>
      var s := Of(n.down, c);
      if s == [] || c !in n.status then n else ReceiveStep(n.(down := n.down[c := s[1..]]), c, s[0], now)
    case Forge(c, msg) =>
      if c in n.honest then n else n.(up := n.up[c := Of(n.up, c) + [msg]])
    case Lose(c, Up, k) => n.(up := n.up[c := Without(Of(n.up, c), k)])
    case Lose(c, Queue, k) => n.(queue := n.queue[c := Without(Of(n.queue, c), k)])
    case Lose(c, Down, k) => n.(down := n.down[c := Without(Of(n.down, c), k)])
  }

  /** The nonce of a probe is new to the client that draws it. */
  ghost predicate NonceFresh(n: Net, a: Action) {
    a.Tick? && a.nonce.Some? ==>
      forall e :: e in n.trace && e.Issued? && e.client == a.c ==> e.id != a.nonce.value
  }

  function Start(honest: set<string>): Net {
    Net(honest, map[], {}, map[], map[], map[], map[], [])
  }

  function Run(n: Net, acts: seq<Action>): Net
    decreases |acts|
  {
    if acts == [] then n else Run(Step(n, acts[0]), acts[1..])
  }

  ghost predicate AllFresh(n: Net, acts: seq<Action>)
    decreases |acts|
  {
    acts == [] || (NonceFresh(n, acts[0]) && AllFresh(Step(n, acts[0]), acts[1..]))
  }

  // ---------- the invariant ----------

  /** What an honest client has put on its stream to the server. */
  predicate SentOk(trace: seq<Event>, c: string, msg: Msg) {
    match msg
    case PingMsg(p) => Issued(c, p.to, p.id, p.sentAt) in trace
    case PongMsg(p) => Handled(c, p.to, p.id, p.sentAt) in trace
    case ListMsg(_) => false
  }

  /** What is on its way to a client: stamped, for it, and from its room. */
  predicate ComingOk(n: Net, c: string, msg: Msg) {
    match msg
    case PingMsg(p) => p.to == c && p.from != c && SameRoom(n, p.from, c) && (p.from in n.honest ==> Issued(p.from, c, p.id, p.sentAt) in n.trace)
    case PongMsg(p) => p.to == c && p.from != c && SameRoom(n, p.from, c) && (p.from in n.honest ==> Handled(p.from, c, p.id, p.sentAt) in n.trace)
    case ListMsg(_) => true
  }

  predicate SameRoom(n: Net, a: string, b: string) {
    a in n.roomOf && b in n.roomOf && n.roomOf[a] == n.roomOf[b]
  }

  /** A waiting probe was issued, to that peer, with that id, at that time. */
  predicate PendingOk(trace: seq<Event>, c: string, s: Status) {
    forall q :: q in s.latency && s.latency[q].pending ==> Issued(c, q, s.latency[q].probeId, s.latency[q].sentAt) in trace
  }

  predicate EventOk(n: Net, k: nat)
    requires k < |n.trace|
  {
    match n.trace[k]
    case Issued(_, _, _, _) => true
    case Handled(b, a, id, at) => a in n.honest ==> Issued(a, b, id, at) in n.trace[..k]
    case Recorded(a, b, id, at, rtt) =>
      && a in n.honest && SameRoom(n, a, b)
      && Issued(a, b, id, at - rtt) in n.trace[..k]
      && (b in n.honest ==> Handled(b, a, id, at - rtt) in n.trace[..k])
  }

  /** An honest client uses an id for one probe only. */
  predicate NoncesOnce(trace: seq<Event>) {
    forall i, j :: 0 <= i < j < |trace| && trace[i].Issued? && trace[j].Issued? && trace[i].client == trace[j].client ==>
      trace[i].id != trace[j].id
  }

  predicate ClientsOk(n: Net) {
    forall c :: c in n.status ==> c in n.honest && c in n.roomOf && n.status[c].self == c && PendingOk(n.trace, c, n.status[c])
  }

  predicate UpOk(n: Net) {
    forall c, i :: c in n.up && c in n.honest && 0 <= i < |n.up[c]| ==> SentOk(n.trace, c, n.up[c][i])
  }

  predicate ChannelOk(n: Net, channel: map<string, seq<Msg>>) {
    forall c, i :: c in channel && 0 <= i < |channel[c]| ==> ComingOk(n, c, channel[c][i])
  }

  predicate QueuesBounded(queue: map<string, seq<Msg>>) {
    forall c :: c in queue ==> |queue[c]| <= NOTIFY_CAPACITY
  }

  predicate TraceOk(n: Net) {
    NoncesOnce(n.trace) && forall k :: 0 <= k < |n.trace| ==> EventOk(n, k)
  }

  predicate Inv(n: Net) {
    ClientsOk(n) && UpOk(n) && ChannelOk(n, n.queue) && ChannelOk(n, n.down) && TraceOk(n)
  }

  // ---------- what a step keeps ----------

  /** Nothing that happened is undone, and nobody changes room. */
  predicate Later(n: Net, n1: Net) {
    && n1.honest == n.honest && n.trace <= n1.trace
    && forall c :: c in n.roomOf ==> c in n1.roomOf && n1.roomOf[c] == n.roomOf[c]
  }

  lemma ChannelLater(n: Net, n1: Net, channel: map<string, seq<Msg>>)
    requires Later(n, n1) && ChannelOk(n, channel)
    ensures ChannelOk(n1, channel)
  {
    forall c, i | c in channel && 0 <= i < |channel[c]| ensures ComingOk(n1, c, channel[c][i]) {
      assert ComingOk(n, c, channel[c][i]);
    }
  }

  lemma UpLater(n: Net, n1: Net)
    requires Later(n, n1) && UpOk(n) && n1.up == n.up
    ensures UpOk(n1)
  {
    forall c, i | c in n.up && c in n.honest && 0 <= i < |n.up[c]| ensures SentOk(n1.trace, c, n.up[c][i]) {
      assert SentOk(n.trace, c, n.up[c][i]);
    }
  }

  lemma EventsLater(n: Net, n1: Net, k: nat)
    requires Later(n, n1) && k < |n.trace| && EventOk(n, k)
    ensures EventOk(n1, k)
  {
    assert n1.trace[..k] == n.trace[..k];
  }

  /** One channel loses a message or gains one that is fine. */
  predicate Shorter(s: seq<Msg>, s1: seq<Msg>) {
    forall i :: 0 <= i < |s1| ==> s1[i] in s
  }

  lemma ChannelShrinks(n: Net, channel: map<string, seq<Msg>>, c: string, s: seq<Msg>)
    requires ChannelOk(n, channel) && Shorter(Of(channel, c), s)
    ensures ChannelOk(n, channel[c := s])
  {
    var channel1 := channel[c := s];
    forall d, i | d in channel1 && 0 <= i < |channel1[d]| ensures ComingOk(n, d, channel1[d][i]) {
      if d == c {
        assert s[i] in Of(channel, c);
      }
    }
  }

  lemma ChannelGrows(n: Net, channel: map<string, seq<Msg>>, c: string, msg: Msg)
    requires ChannelOk(n, channel) && ComingOk(n, c, msg)
    ensures ChannelOk(n, channel[c := Of(channel, c) + [msg]])
  {
  }

  lemma UpShrinks(n: Net, c: string, s: seq<Msg>)
    requires UpOk(n) && Shorter(Of(n.up, c), s)
    ensures UpOk(n.(up := n.up[c := s]))
  {
    var n1 := n.(up := n.up[c := s]);
    forall d, i | d in n1.up && d in n1.honest && 0 <= i < |n1.up[d]| ensures SentOk(n1.trace, d, n1.up[d][i]) {
      if d == c {
        assert s[i] in Of(n.up, c);
      }
    }
  }

  /** A message added to a client's stream, if it is honest, tells the truth. */
  lemma UpGrows(n: Net, c: string, msg: Msg)
    requires UpOk(n) && (c in n.honest ==> SentOk(n.trace, c, msg))
    ensures UpOk(n.(up := n.up[c := Of(n.up, c) + [msg]]))
  {
  }

  /** A new event that is in order. */
  lemma TraceGrows(n: Net, e: Event)
    requires Inv(n)
    requires e.Issued? ==> forall f :: f in n.trace && f.Issued? && f.client == e.client ==> f.id != e.id
    requires EventOk(n.(trace := n.trace + [e]), |n.trace|)
    ensures Inv(n.(trace := n.trace + [e]))
  {
    var n1 := n.(trace := n.trace + [e]);
    UpLater(n, n1);
    ChannelLater(n, n1, n.queue);
    ChannelLater(n, n1, n.down);
    forall k | 0 <= k < |n1.trace| ensures EventOk(n1, k) {
      if k < |n.trace| {
        EventsLater(n, n1, k);
      }
    }
    assert forall i :: 0 <= i < |n.trace| ==> n.trace[i] in n.trace;
  }

  /** A client's status may become any that is still truthful about its waiting probes. */
  lemma StatusChanges(n: Net, c: string, s: Status)
    requires Inv(n) && c in n.honest && c in n.roomOf && s.self == c && PendingOk(n.trace, c, s)
    ensures Inv(n.(status := n.status[c := s]))
  {
    var n1 := n.(status := n.status[c := s]);
    ChannelLater(n, n1, n.queue);
    ChannelLater(n, n1, n.down);
    forall k | 0 <= k < |n1.trace| ensures EventOk(n1, k) {
      EventsLater(n, n1, k);
    }
  }

  lemma MemberArrives(n: Net, c: string, room: nat, live: set<string>)
    requires Inv(n) && c !in n.roomOf
    ensures Inv(n.(roomOf := n.roomOf[c := room], live := live))
  {
    var n1 := n.(roomOf := n.roomOf[c := room], live := live);
    ChannelLater(n, n1, n.queue);
    ChannelLater(n, n1, n.down);
    forall k | 0 <= k < |n1.trace| ensures EventOk(n1, k) {
      EventsLater(n, n1, k);
    }
  }

  lemma JoinKeeps(n: Net, c: string, room: nat, ip: nat, peers: seq<PeerInfo>)
    requires Inv(n)
    ensures Inv(Step(n, Join(c, room, ip, peers)))
  {
    if c !in n.roomOf && c != "" {
      MemberArrives(n, c, room, n.live + {c});
      if c in n.honest {
        var n1 := n.(roomOf := n.roomOf[c := room], live := n.live + {c});
        StatusChanges(n1, c, Status(true, c, ip, peers, Keep(peers, map[])));
      }
    }
  }

  lemma SendNotifyKeeps(n: Net, from: string, to: string, msg: Msg)
    requires Inv(n) && (SameRoom(n, from, to) ==> ComingOk(n, to, msg))
    ensures Inv(SendNotify(n, from, to, msg))
  {
    var n1 := SendNotify(n, from, to, msg);
    if n1 != n {
      ChannelGrows(n, n.queue, to, msg);
    }
    QueuesOnly(n, n1);
  }

  /** The rest of the invariant does not look at the channels. */
  lemma QueuesOnly(n: Net, n1: Net)
    requires Inv(n) && n1 == n.(up := n1.up, queue := n1.queue, down := n1.down)
    requires UpOk(n1) && ChannelOk(n, n1.queue) && ChannelOk(n, n1.down)
    ensures Inv(n1)
  {
    ChannelLater(n, n1, n1.queue);
    ChannelLater(n, n1, n1.down);
    forall k | 0 <= k < |n1.trace| ensures EventOk(n1, k) {
      EventsLater(n, n1, k);
    }
  }

  lemma ServeKeeps(n: Net, c: string)
    requires Inv(n)
    ensures Inv(Step(n, Serve(c)))
  {
    var s := Of(n.up, c);
    if s != [] {
      var n1 := n.(up := n.up[c := s[1..]]);
      UpShrinks(n, c, s[1..]);
      QueuesOnly(n, n1);
      assert c in n.honest ==> SentOk(n.trace, c, s[0]);
      match s[0]
      case PingMsg(p) => if p.to != "" && p.to != c { SendNotifyKeeps(n1, c, p.to, PingMsg(p.(from := c))); }
      case PongMsg(p) => if p.to != "" && p.to != c { SendNotifyKeeps(n1, c, p.to, PongMsg(p.(from := c))); }
      case ListMsg(_) =>
    }
  }

  lemma WriteKeeps(n: Net, c: string)
    requires Inv(n)
    ensures Inv(Step(n, Write(c)))
  {
    var s := Of(n.queue, c);
    if s != [] {
      ChannelShrinks(n, n.queue, c, s[1..]);
      ChannelGrows(n, n.down, c, s[0]);
      QueuesOnly(n, Step(n, Write(c)));
    }
  }

  lemma LoseKeeps(n: Net, c: string, hop: Hop, k: nat)
    requires Inv(n)
    ensures Inv(Step(n, Lose(c, hop, k)))
  {
    match hop {
      case Up => UpShrinks(n, c, Without(Of(n.up, c), k));
      case Queue => ChannelShrinks(n, n.queue, c, Without(Of(n.queue, c), k));
      case Down => ChannelShrinks(n, n.down, c, Without(Of(n.down, c), k));
    }
    QueuesOnly(n, Step(n, Lose(c, hop, k)));
  }

  lemma ForgeKeeps(n: Net, c: string, msg: Msg)
    requires Inv(n) && c !in n.honest
    ensures Inv(Step(n, Forge(c, msg)))
  {
    UpGrows(n, c, msg);
    QueuesOnly(n, Step(n, Forge(c, msg)));
  }

  lemma PushListKeeps(n: Net, c: string, peers: seq<PeerInfo>)
    requires Inv(n)
    ensures Inv(Step(n, PushList(c, peers)))
  {
    ChannelGrows(n, n.queue, c, ListMsg(peers));
    QueuesOnly(n, Step(n, PushList(c, peers)));
  }

  lemma LeaveKeeps(n: Net, c: string)
    requires Inv(n)
    ensures Inv(Step(n, Leave(c)))
  {
    var n1 := Step(n, Leave(c));
    ChannelLater(n, n1, n.queue);
    ChannelLater(n, n1, n.down);
    forall k | 0 <= k < |n1.trace| ensures EventOk(n1, k) {
      EventsLater(n, n1, k);
    }
  }

  /** Timeouts and probes leave every waiting probe one that was issued. */
  lemma TickPending(trace: seq<Event>, c: string, s: Status, now: int, nonce: Option<string>)
    requires PendingOk(trace, c, s)
    ensures var (probe, s1) := NextProbe(Expire(s, now), now, nonce);
            && s1.self == s.self
            && (probe.None? ==> PendingOk(trace, c, s1))
            && (probe.Some? ==> PendingOk(trace + [Issued(c, probe.value.peer, probe.value.id, probe.value.sentAt)], c, s1))
            && (probe.Some? ==> Some(probe.value.id) == nonce)
  {
    var s0 := Expire(s, now);
    assert PendingOk(trace, c, s0);
  }

  lemma TickKeeps(n: Net, c: string, now: int, nonce: Option<string>)
    requires Inv(n) && c in n.status && NonceFresh(n, Tick(c, now, nonce))
    ensures Inv(Step(n, Tick(c, now, nonce)))
  {
    var (probe, s1) := NextProbe(Expire(n.status[c], now), now, nonce);
    TickPending(n.trace, c, n.status[c], now, nonce);
    if probe.None? {
      StatusChanges(n, c, s1);
    } else {
      var p := probe.value;
      var e := Issued(c, p.peer, p.id, p.sentAt);
      TraceGrows(n, e);
      var n1 := n.(trace := n.trace + [e]);
      StatusChanges(n1, c, s1);
      var n2 := n1.(status := n1.status[c := s1]);
      UpGrows(n2, c, PingMsg(Ping(p.id, "", p.peer, p.sentAt)));
      QueuesOnly(n2, n2.(up := n2.up[c := Of(n2.up, c) + [PingMsg(Ping(p.id, "", p.peer, p.sentAt))]]));
    }
  }

  lemma ReceivePingKeeps(n: Net, c: string, ping: Ping)
    requires Inv(n) && c in n.status && ComingOk(n, c, PingMsg(ping))
    ensures Inv(ReceivePing(n, c, ping))
  {
    var pong := HandlePing(n.status[c], ping);
    if pong.Some? {
      var e := Handled(c, ping.from, ping.id, ping.sentAt);
      var n1 := n.(trace := n.trace + [e]);
      assert n1.trace[..|n.trace|] == n.trace;
      TraceGrows(n, e);
      UpGrows(n1, c, PongMsg(pong.value));
      QueuesOnly(n1, n1.(up := n1.up[c := Of(n1.up, c) + [PongMsg(pong.value)]]));
    }
  }

  /** A pong that answers a waiting probe: the ping it answers was that very probe. */
  lemma PongMatches(n: Net, c: string, pong: Pong)
    requires Inv(n) && c in n.status && ComingOk(n, c, PongMsg(pong)) && pong.from in n.honest
    requires Answers(n.status[c], pong.from, pong.id)
    ensures n.status[c].latency[pong.from].sentAt == pong.sentAt
    ensures Issued(c, pong.from, pong.id, pong.sentAt) in n.trace
  {
    var t := n.status[c].latency[pong.from].sentAt;
    var k :| 0 <= k < |n.trace| && n.trace[k] == Handled(pong.from, c, pong.id, pong.sentAt);
    assert EventOk(n, k);
    var i :| 0 <= i < k && n.trace[i] == Issued(c, pong.from, pong.id, pong.sentAt);
    var j :| 0 <= j < |n.trace| && n.trace[j] == Issued(c, pong.from, pong.id, t);
    assert i == j;
  }

  lemma ReceivePongKeeps(n: Net, c: string, pong: Pong, now: int)
    requires Inv(n) && c in n.status && ComingOk(n, c, PongMsg(pong))
    ensures Inv(ReceivePong(n, c, pong, now))
  {
    var s := n.status[c];
    if pong.from != "" && pong.to == s.self && Answers(s, pong.from, pong.id) {
      var s1 := HandlePong(s, pong, now);
      var e := Recorded(c, pong.from, pong.id, now, s1.latency[pong.from].rtt);
      var n1 := n.(trace := n.trace + [e]);
      assert n1.trace[..|n.trace|] == n.trace;
      if pong.from in n.honest {
        PongMatches(n, c, pong);
      }
      TraceGrows(n, e);
      StatusChanges(n1, c, s1);
    }
  }

  lemma ReceiveKeeps(n: Net, c: string, now: int)
    requires Inv(n)
    ensures Inv(Step(n, Receive(c, now)))
  {
    var s := Of(n.down, c);
    if s != [] && c in n.status {
      var n1 := n.(down := n.down[c := s[1..]]);
      ChannelShrinks(n, n.down, c, s[1..]);
      QueuesOnly(n, n1);
      assert ComingOk(n, c, s[0]);
      match s[0]
      case PingMsg(ping) => ReceivePingKeeps(n1, c, ping);
      case PongMsg(pong) => ReceivePongKeeps(n1, c, pong, now);
      case ListMsg(peers) => StatusChanges(n1, c, UpdatePeers(n1.status[c], peers));
    }
  }

  lemma StepKeeps(n: Net, a: Action)
    requires Inv(n) && NonceFresh(n, a)
    ensures Inv(Step(n, a)) && Step(n, a).honest == n.honest
  {
    match a
    case Join(c, room, ip, peers) => JoinKeeps(n, c, room, ip, peers);
    case Leave(c) => LeaveKeeps(n, c);
    case PushList(c, peers) => PushListKeeps(n, c, peers);
    case Tick(c, now, nonce) => if c in n.status { TickKeeps(n, c, now, nonce); }
    case Serve(c) => ServeKeeps(n, c);
    case Write(c) => WriteKeeps(n, c);
    case Receive(c, now) => ReceiveKeeps(n, c, now);
    case Forge(c, msg) => if c !in n.honest { ForgeKeeps(n, c, msg); }
    case Lose(c, hop, k) => LoseKeeps(n, c, hop, k);
  }

  lemma {:induction false} RunKeeps(n: Net, acts: seq<Action>)
    requires Inv(n) && AllFresh(n, acts)
    ensures Inv(Run(n, acts)) && Run(n, acts).honest == n.honest
    decreases |acts|
  {
    if acts != [] {
      StepKeeps(n, acts[0]);
      RunKeeps(Step(n, acts[0]), acts[1..]);
    }
  }

  /**
   Whenever a client that runs this code records a round trip, in whatever run with fresh nonces,
   losses, timeouts, joins, leaves and forged messages, and whatever the peer b runs: the client
   issued exactly one probe with that id, to b, which is in the same room, and the round trip is
   the time of receipt minus the time of that issue. If b runs this code too, it handled that
   very ping after it was issued and before its pong was recorded.
   */
  lemma RoundTripsAreReal(honest: set<string>, acts: seq<Action>, k: nat) returns (i: nat, j: nat)
    requires AllFresh(Start(honest), acts)
    requires var n := Run(Start(honest), acts); k < |n.trace| && n.trace[k].Recorded?
    ensures var n := Run(Start(honest), acts);
            var Recorded(a, b, id, at, rtt) := n.trace[k];
            && i < k && n.trace[i] == Issued(a, b, id, at - rtt)
            && SameRoom(n, a, b)
            && (forall m :: 0 <= m < |n.trace| && n.trace[m].Issued? && n.trace[m].client == a && n.trace[m].id == id ==> m == i)
            && (b in honest ==> i < j < k && n.trace[j] == Handled(b, a, id, at - rtt))
  {
    RunKeeps(Start(honest), acts);
    var n := Run(Start(honest), acts);
    var Recorded(a, b, id, at, rtt) := n.trace[k];
    assert EventOk(n, k);
    i :| 0 <= i < k && n.trace[i] == Issued(a, b, id, at - rtt);
    j := 0;
    if b in honest {
      j :| 0 <= j < k && n.trace[j] == Handled(b, a, id, at - rtt);
      assert EventOk(n, j);
    }
  }

  lemma {:induction false} QueuesStayBounded(n: Net, acts: seq<Action>)
    requires QueuesBounded(n.queue)
    ensures QueuesBounded(Run(n, acts).queue)
    decreases |acts|
  {
    if acts != [] {
      StepBounded(n, acts[0]);
      QueuesStayBounded(Step(n, acts[0]), acts[1..]);
    }
  }

  lemma StepBounded(n: Net, a: Action)
    requires QueuesBounded(n.queue)
    ensures QueuesBounded(Step(n, a).queue)
  {
    hide TickStep, ReceiveStep, ForwardMsg;
    match a
    case Serve(c) => if Of(n.up, c) != [] { ForwardBounded(n.(up := n.up[c := Of(n.up, c)[1..]]), c, Of(n.up, c)[0]); }
    case Tick(c, now, nonce) => if c in n.status { TickSpares(n, c, now, nonce); }
    case Receive(c, now) =>
      if Of(n.down, c) != [] && c in n.status {
        ReceiveSpares(n.(down := n.down[c := Of(n.down, c)[1..]]), c, Of(n.down, c)[0], now);
      }
    case _ =>
  }

  lemma ForwardBounded(n: Net, from: string, msg: Msg)
    requires QueuesBounded(n.queue)
    ensures QueuesBounded(ForwardMsg(n, from, msg).queue)
  {
  }

  /** In every run no notify queue ever holds more than 16 messages. */
  lemma NotifyQueuesAreBounded(honest: set<string>, acts: seq<Action>, c: string)
    ensures |Of(Run(Start(honest), acts).queue, c)| <= 16
  {
    QueuesStayBounded(Start(honest), acts);
  }

  // ---------- who gets nothing ----------

  /** A member that has left: its id is not used again. */
  predicate Gone(n: Net, c: string) {
    c in n.roomOf && c !in n.live
  }

  lemma StepQueuesNothing(n: Net, a: Action, c: string)
    requires Gone(n, c)
    ensures Gone(Step(n, a), c) && |Of(Step(n, a).queue, c)| <= |Of(n.queue, c)|
  {
    hide TickStep, ReceiveStep, ForwardMsg;
    match a
    case Serve(d) =>
      if Of(n.up, d) != [] {
        ForwardSpares(n.(up := n.up[d := Of(n.up, d)[1..]]), d, Of(n.up, d)[0], c);
      }
    case Tick(d, now, nonce) => if d in n.status { TickSpares(n, d, now, nonce); }
    case Receive(d, now) =>
      if Of(n.down, d) != [] && d in n.status {
        ReceiveSpares(n.(down := n.down[d := Of(n.down, d)[1..]]), d, Of(n.down, d)[0], now);
      }
    case _ =>
  }

  lemma ForwardSpares(n: Net, from: string, msg: Msg, c: string)
    requires Gone(n, c)
    ensures Gone(ForwardMsg(n, from, msg), c) && Of(ForwardMsg(n, from, msg).queue, c) == Of(n.queue, c)
  {
  }

  lemma TickSpares(n: Net, c: string, now: int, nonce: Option<string>)
    requires c in n.status
    ensures var n1 := TickStep(n, c, now, nonce); n1.queue == n.queue && n1.live == n.live && n1.roomOf == n.roomOf
  {
  }

  lemma ReceiveSpares(n: Net, c: string, msg: Msg, now: int)
    requires c in n.status
    ensures var n1 := ReceiveStep(n, c, msg, now); n1.queue == n.queue && n1.live == n.live && n1.roomOf == n.roomOf
  {
  }

  /** Once a member has left, its notify queue never grows again, in any run. */
  lemma {:induction false} LeaversGetNothing(n: Net, acts: seq<Action>, c: string)
    requires Gone(n, c)
    ensures Gone(Run(n, acts), c) && |Of(Run(n, acts).queue, c)| <= |Of(n.queue, c)|
    decreases |acts|
  {
    hide Step, Gone;
    if acts != [] {
      StepQueuesNothing(n, acts[0], c);
      LeaversGetNothing(Step(n, acts[0]), acts[1..], c);
    }
  }

  lemma LeavingMakesGone(n: Net, c: string)
    requires c in n.roomOf
    ensures Gone(Step(n, Leave(c)), c)
  {
  }

  /** Nobody is ever told of a probe or a pong of its own, or of one from another room or for another. */
  lemma OnlyRightMessagesCome(honest: set<string>, acts: seq<Action>, c: string, i: nat)
    requires AllFresh(Start(honest), acts)
    requires i < |Of(Run(Start(honest), acts).down, c)|
    ensures var n := Run(Start(honest), acts);
            match Of(n.down, c)[i]
            case PingMsg(p) => p.to == c && p.from != c && SameRoom(n, p.from, c)
            case PongMsg(p) => p.to == c && p.from != c && SameRoom(n, p.from, c)
            case ListMsg(_) => true
  {
    RunKeeps(Start(honest), acts);
    assert ComingOk(Run(Start(honest), acts), c, Of(Run(Start(honest), acts).down, c)[i]);
  }

  // ---------- a probe that meets no loss is answered ----------

  function Repeat(n: Net, a: Action, k: nat): Net {
    if k == 0 then n else Step(Repeat(n, a, k - 1), a)
  }

  /** A client that runs this code and is a member of its room. */
  predicate Member(n: Net, c: string) {
    c != "" && c in n.status && c in n.live && n.status[c].self == c
  }

  /** n1 is n after some messages of c were served: at most k of them went to d, behind what was there. */
  predicate Served(n: Net, c: string, d: string, k: nat, n1: Net) {
    && k <= |Of(n.up, c)| && n1 == n.(up := n1.up, queue := n1.queue)
    && Of(n1.up, c) == Of(n.up, c)[k..]
    && |Of(n1.queue, d)| <= |Of(n.queue, d)| + k
  }

  lemma {:induction false} ServeMany(n: Net, c: string, d: string, k: nat)
    requires k <= |Of(n.up, c)|
    ensures Served(n, c, d, k, Repeat(n, Serve(c), k))
  {
    if k > 0 {
      ServeMany(n, c, d, k - 1);
      var m := Repeat(n, Serve(c), k - 1);
      ServeOne(m, c, d);
    }
  }

  lemma ServeOne(n: Net, c: string, d: string)
    requires Of(n.up, c) != []
    ensures Served(n, c, d, 1, Step(n, Serve(c)))
  {
  }

  function Stamped(msg: Msg, c: string): Msg {
    match msg
    case PingMsg(p) => PingMsg(p.(from := c))
    case PongMsg(p) => PongMsg(p.(from := c))
    case ListMsg(_) => msg
  }

  predicate Addressed(msg: Msg, d: string) {
    (msg.PingMsg? && msg.ping.to == d) || (msg.PongMsg? && msg.pong.to == d)
  }

  lemma LastServed(n: Net, c: string, d: string, msg: Msg, n1: Net)
    requires c != d && d != "" && d in n.live && SameRoom(n, c, d) && Addressed(msg, d)
    requires Of(n.up, c) == [msg] && |Of(n.queue, d)| < NOTIFY_CAPACITY && n1 == Step(n, Serve(c))
    ensures n1 == n.(up := n1.up, queue := n1.queue)
    ensures Of(n1.queue, d) == Of(n.queue, d) + [Stamped(msg, c)]
  {
  }

  /** The last of the messages c has sent is served after all the others: it is the last in d's queue, stamped with c. */
  lemma Forwarded(n: Net, c: string, d: string, msg: Msg, n1: Net)
    requires c != d && d != "" && d in n.live && SameRoom(n, c, d) && Addressed(msg, d)
    requires var k := |Of(n.up, c)|;
             k > 0 && Of(n.up, c)[k - 1] == msg && |Of(n.queue, d)| + k <= NOTIFY_CAPACITY && n1 == Repeat(n, Serve(c), k)
    ensures n1 == n.(up := n1.up, queue := n1.queue)
    ensures var q := Of(n1.queue, d); |q| > 0 && q[|q| - 1] == Stamped(msg, c)
  {
    var k := |Of(n.up, c)|;
    ServeMany(n, c, d, k - 1);
    var m := Repeat(n, Serve(c), k - 1);
    assert Of(m.up, c) == [msg];
    assert n1 == Step(m, Serve(c));
    hide Repeat;
    LastServed(m, c, d, msg, n1);
  }

  /** A queue written out ends up behind what was on its way to the client. */
  lemma {:induction false} WriteMany(n: Net, d: string, k: nat)
    requires k <= |Of(n.queue, d)|
    ensures var n1 := Repeat(n, Write(d), k);
            && n1 == n.(queue := n1.queue, down := n1.down)
            && Of(n1.queue, d) == Of(n.queue, d)[k..] && Of(n1.down, d) == Of(n.down, d) + Of(n.queue, d)[..k]
  {
    if k > 0 {
      WriteMany(n, d, k - 1);
      var (q, m) := (Of(n.queue, d), Repeat(n, Write(d), k - 1));
      assert q[..k] == q[..k - 1] + [q[k - 1]];
      assert Of(m.queue, d) == [q[k - 1]] + q[k..];
    }
  }

  predicate LastUp(n: Net, c: string, msg: Msg) {
    var s := Of(n.up, c); |s| > 0 && s[|s| - 1] == msg
  }

  predicate LastDown(n: Net, c: string, msg: Msg) {
    var s := Of(n.down, c); |s| > 0 && s[|s| - 1] == msg
  }

  /** Both hops: then the message is the last that d will read. */
  lemma Carried(n: Net, c: string, d: string, msg: Msg, n1: Net, n2: Net)
    requires c != d && d != "" && d in n.live && SameRoom(n, c, d) && Addressed(msg, d)
    requires LastUp(n, c, msg) && |Of(n.queue, d)| + |Of(n.up, c)| <= NOTIFY_CAPACITY
    requires n1 == Repeat(n, Serve(c), |Of(n.up, c)|) && n2 == Repeat(n1, Write(d), |Of(n1.queue, d)|)
    ensures n2 == n.(up := n2.up, queue := n2.queue, down := n2.down) && LastDown(n2, d, Stamped(msg, c))
  {
    hide Repeat, Stamped, Addressed;
    Forwarded(n, c, d, msg, n1);
    WriteMany(n1, d, |Of(n1.queue, d)|);
  }

  /** The message does not end the wait for a probe: neither a list without the peer nor its pong. */
  predicate Harmless(msg: Msg, peer: string, id: string) {
    && (msg.ListMsg? ==> peer in Ids(msg.peers))
    && (msg.PongMsg? ==> !(msg.pong.from == peer && msg.pong.id == id))
  }

  /** n1 is n after the client read some messages: nobody else is affected and no new wait has begun. */
  predicate Read(n: Net, c: string, n1: Net) {
    && c in n.status && c in n1.status && n1.status == n.status[c := n1.status[c]]
    && n1.status[c].self == n.status[c].self && n1.status[c].connected == n.status[c].connected
    && n1 == n.(status := n1.status, up := n1.up, down := n1.down, trace := n1.trace) && n.trace <= n1.trace
  }

  predicate StillWaits(s: Status, s1: Status, peer: string, id: string) {
    Answers(s1, peer, id) ==> Answers(s, peer, id) && s1.latency[peer].sentAt == s.latency[peer].sentAt
  }

  /** One message taken in: what it does to the client's waits. */
  predicate TakenIn(n: Net, c: string, msg: Msg, n1: Net, peer: string, id: string) {
    && Read(n, c, n1) && n1.down == n.down && StillWaits(n.status[c], n1.status[c], peer, id)
    && (Harmless(msg, peer, id) && Answers(n.status[c], peer, id) ==> Answers(n1.status[c], peer, id))
  }

  lemma TakesInPing(n: Net, c: string, ping: Ping, peer: string, id: string)
    requires c in n.status
    ensures TakenIn(n, c, PingMsg(ping), ReceivePing(n, c, ping), peer, id)
  {
  }

  lemma TakesInPong(n: Net, c: string, pong: Pong, now: int, peer: string, id: string)
    requires c in n.status
    ensures TakenIn(n, c, PongMsg(pong), ReceivePong(n, c, pong, now), peer, id)
  {
  }

  lemma TakesInList(n: Net, c: string, peers: seq<PeerInfo>, now: int, peer: string, id: string)
    requires c in n.status
    ensures TakenIn(n, c, ListMsg(peers), ReceiveStep(n, c, ListMsg(peers), now), peer, id)
  {
  }

  lemma ReadOne(n: Net, c: string, now: int, peer: string, id: string)
    requires c in n.status && Of(n.down, c) != []
    ensures var n1 := Step(n, Receive(c, now));
            && Read(n, c, n1) && Of(n1.down, c) == Of(n.down, c)[1..]
            && StillWaits(n.status[c], n1.status[c], peer, id)
            && (Harmless(Of(n.down, c)[0], peer, id) && Answers(n.status[c], peer, id) ==> Answers(n1.status[c], peer, id))
  {
    var (n0, msg) := (n.(down := n.down[c := Of(n.down, c)[1..]]), Of(n.down, c)[0]);
    match msg {
      case PingMsg(ping) => TakesInPing(n0, c, ping, peer, id);
      case PongMsg(pong) => TakesInPong(n0, c, pong, now, peer, id);
      case ListMsg(peers) => TakesInList(n0, c, peers, now, peer, id);
    }
    hide ReceivePing, ReceivePong, UpdatePeers, Answers, Harmless;
    assert TakenIn(n0, c, msg, Step(n, Receive(c, now)), peer, id);
  }

  lemma {:induction false} ReadMany(n: Net, c: string, now: int, k: nat, peer: string, id: string)
    requires c in n.status && k <= |Of(n.down, c)|
    ensures var n1 := Repeat(n, Receive(c, now), k);
            && Read(n, c, n1) && Of(n1.down, c) == Of(n.down, c)[k..]
            && StillWaits(n.status[c], n1.status[c], peer, id)
            && ((forall i :: 0 <= i < k ==> Harmless(Of(n.down, c)[i], peer, id)) && Answers(n.status[c], peer, id)
                ==> Answers(n1.status[c], peer, id))
  {
    hide Step, Harmless, Answers;
    if k > 0 {
      ReadMany(n, c, now, k - 1, peer, id);
      ReadOne(Repeat(n, Receive(c, now), k - 1), c, now, peer, id);
    }
  }

  /** The client has sent a ping to b and waits for it. */
  predicate Waits(n: Net, a: string, b: string, t: int, nonce: string) {
    a in n.status && n.status[a].self == a && Answers(n.status[a], b, nonce) && n.status[a].latency[b].sentAt == t
  }

  /** A tick that issues a probe: the ping is the last message on the client's stream. */
  lemma Probed(n: Net, a: string, b: string, t: int, nonce: string, n1: Net)
    requires Member(n, a) && NextProbe(Expire(n.status[a], t), t, Some(nonce)).0 == Some(Probe(b, nonce, t))
    requires n1 == Step(n, Tick(a, t, Some(nonce)))
    ensures n1 == n.(status := n1.status, up := n1.up, trace := n.trace + [Issued(a, b, nonce, t)])
    ensures a in n1.status && n1.status == n.status[a := n1.status[a]] && Waits(n1, a, b, t, nonce)
    ensures LastUp(n1, a, PingMsg(Ping(nonce, "", b, t))) && |Of(n1.up, a)| == |Of(n.up, a)| + 1
  {
  }

  lemma PingHandled(n: Net, b: string, ping: Ping, now: int, n1: Net)
    requires b in n.status && n.status[b].self == b && ping.to == b && ping.from != ""
    requires Of(n.down, b) == [PingMsg(ping)] && n1 == Step(n, Receive(b, now))
    ensures n1 == n.(down := n1.down, up := n1.up, trace := n.trace + [Handled(b, ping.from, ping.id, ping.sentAt)])
    ensures LastUp(n1, b, PongMsg(Pong(ping.id, "", ping.from, ping.sentAt)))
  {
  }

  /** The client reads everything on its way to it, the ping last. */
  lemma AllRead(n: Net, b: string, ping: Ping, now: int, n1: Net)
    requires b in n.status && n.status[b].self == b && ping.to == b && ping.from != ""
    requires LastDown(n, b, PingMsg(ping)) && n1 == Repeat(n, Receive(b, now), |Of(n.down, b)|)
    ensures Read(n, b, n1) && |n1.trace| > |n.trace| && n1.trace[|n1.trace| - 1] == Handled(b, ping.from, ping.id, ping.sentAt)
    ensures LastUp(n1, b, PongMsg(Pong(ping.id, "", ping.from, ping.sentAt)))
  {
    hide Step, Answers;
    var k := |Of(n.down, b)| - 1;
    ReadMany(n, b, now, k, "", "");
    var m := Repeat(n, Receive(b, now), k);
    assert Of(m.down, b) == [PingMsg(ping)];
    PingHandled(m, b, ping, now, n1);
  }

  lemma PongRecorded(n: Net, a: string, pong: Pong, now: int, n1: Net)
    requires a in n.status && n.status[a].self == a && pong.to == a && pong.from != ""
    requires Of(n.down, a) == [PongMsg(pong)] && n1 == Step(n, Receive(a, now))
    ensures Answers(n.status[a], pong.from, pong.id) ==>
              && n1.trace == n.trace + [Recorded(a, pong.from, pong.id, now, now - n.status[a].latency[pong.from].sentAt)]
              && a in n1.status && pong.from in n1.status[a].latency && n1.status[a].latency[pong.from].phase.Answered?
    ensures !Answers(n.status[a], pong.from, pong.id) ==> n1.trace == n.trace && n1.status == n.status
  {
  }

  /** What reading the pong does, after everything before it was read. */
  predicate PongRead(n2: Net, n3: Net, n4: Net, a: string, b: string, nonce: string, t: int, u: int) {
    && a in n3.status && a in n4.status
    && ((forall i :: 0 <= i < |Of(n2.down, a)| - 1 ==> Harmless(Of(n2.down, a)[i], b, nonce)) ==> Answers(n3.status[a], b, nonce))
    && (if Answers(n3.status[a], b, nonce)
        then n4.trace == n3.trace + [Recorded(a, b, nonce, u, u - t)]
             && b in n4.status[a].latency && n4.status[a].latency[b].phase.Answered?
        else n4.trace == n3.trace && n4.status == n3.status)
  }

  lemma LastPong(n2: Net, n3: Net, n4: Net, a: string, b: string, nonce: string, t: int, u: int)
    requires b != "" && Waits(n2, a, b, t, nonce) && LastDown(n2, a, PongMsg(Pong(nonce, b, a, t)))
    requires n3 == Repeat(n2, Receive(a, u), |Of(n2.down, a)| - 1) && n4 == Step(n3, Receive(a, u))
    ensures PongRead(n2, n3, n4, a, b, nonce, t, u)
  {
    hide Step, Harmless, Answers, Repeat;
    var pong := Pong(nonce, b, a, t);
    ReadMany(n2, a, u, |Of(n2.down, a)| - 1, b, nonce);
    assert Of(n3.down, a) == [PongMsg(pong)];
    PongRecorded(n3, a, pong, u, n4);
  }

  /** Where a round trip stands when the pong is on b's stream, behind whatever else b has sent. */
  predicate HalfWay(n: Net, a: string, b: string, t: int, nonce: string) {
    && a != b && a != "" && b != "" && a in n.live && SameRoom(n, b, a)
    && Waits(n, a, b, t, nonce) && LastUp(n, b, PongMsg(Pong(nonce, "", a, t)))
  }

  /**
   A tick that issues a probe, whatever is already on its way, as long as b's queue has space for
   all that a has sent: when the server has served a's stream, the notifier has written out b's
   queue and b has read its stream, b has handled the ping and its pong is the last it has sent.
   */
  lemma ProbeGetsThere(n: Net, a: string, b: string, t: int, nonce: string, u: int, n1: Net, n2: Net, n3: Net, n4: Net)
    requires a != b && Member(n, a) && Member(n, b) && SameRoom(n, a, b)
    requires |Of(n.queue, b)| + |Of(n.up, a)| < NOTIFY_CAPACITY
    requires NextProbe(Expire(n.status[a], t), t, Some(nonce)).0 == Some(Probe(b, nonce, t))
    requires n1 == Step(n, Tick(a, t, Some(nonce)))
    requires n2 == Repeat(n1, Serve(a), |Of(n1.up, a)|)
    requires n3 == Repeat(n2, Write(b), |Of(n2.queue, b)|)
    requires n4 == Repeat(n3, Receive(b, u), |Of(n3.down, b)|)
    ensures HalfWay(n4, a, b, t, nonce)
    ensures n.trace + [Issued(a, b, nonce, t)] <= n4.trace && n4.trace[|n4.trace| - 1] == Handled(b, a, nonce, t)
  {
    hide NextProbe, Expire, Step, Answers, Repeat;
    var ping := Ping(nonce, a, b, t);
    Probed(n, a, b, t, nonce, n1);
    Carried(n1, a, b, PingMsg(ping.(from := "")), n2, n3);
    AllRead(n3, b, ping, u, n4);
  }

  /**
   The way back, under the same conditions: the pong is the last message a reads. If a still waits
   for it then, it is recorded with the time since the issue, and otherwise it changes nothing;
   and a does still wait unless one of the messages before it ended the wait.
   */
  lemma PongGetsBack(n: Net, a: string, b: string, t: int, nonce: string, u: int, n1: Net, n2: Net, n3: Net, n4: Net)
    requires HalfWay(n, a, b, t, nonce) && |Of(n.queue, a)| + |Of(n.up, b)| <= NOTIFY_CAPACITY
    requires n1 == Repeat(n, Serve(b), |Of(n.up, b)|)
    requires n2 == Repeat(n1, Write(a), |Of(n1.queue, a)|)
    requires n3 == Repeat(n2, Receive(a, u), if Of(n2.down, a) == [] then 0 else |Of(n2.down, a)| - 1)
    requires n4 == Step(n3, Receive(a, u))
    ensures LastDown(n2, a, PongMsg(Pong(nonce, b, a, t))) && PongRead(n2, n3, n4, a, b, nonce, t, u)
  {
    hide Step, PongRead, Answers, Repeat;
    Carried(n, b, a, PongMsg(Pong(nonce, "", a, t)), n1, n2);
    LastPong(n2, n3, n4, a, b, nonce, t, u);
  }

  // ---------- joining and lists ----------

  /** A new id becomes a member of its room; if it runs this code, connected under it with the list it was given. */
  lemma JoinMakesMember(n: Net, c: string, room: nat, ip: nat, peers: seq<PeerInfo>)
    requires c !in n.roomOf && c != ""
    ensures var n1 := Step(n, Join(c, room, ip, peers));
            && c in n1.live && c in n1.roomOf && n1.roomOf[c] == room
            && (c in n.honest ==> Member(n1, c) && n1.status[c].connected && n1.status[c].peers == peers && n1.status[c].latency.Keys == Ids(peers))
  {
  }

  /** A list pushed to a member whose queue has space is the one it has when it has read all that was on its way. */
  lemma ListGetsThere(n: Net, c: string, peers: seq<PeerInfo>, u: int, n1: Net, n2: Net, n3: Net)
    requires Member(n, c) && |Of(n.queue, c)| < NOTIFY_CAPACITY
    requires n1 == Step(n, PushList(c, peers))
    requires n2 == Repeat(n1, Write(c), |Of(n1.queue, c)|)
    requires n3 == Repeat(n2, Receive(c, u), |Of(n2.down, c)|)
    ensures c in n3.status && n3.status[c].peers == peers && n3.status[c].latency.Keys == Ids(peers)
  {
    ListPushed(n, c, peers, n1);
    hide Step, Repeat;
    WriteMany(n1, c, |Of(n1.queue, c)|);
    ListReadLast(n2, c, peers, u, n3);
  }

  lemma ListReadLast(n: Net, c: string, peers: seq<PeerInfo>, u: int, n1: Net)
    requires c in n.status && LastDown(n, c, ListMsg(peers)) && n1 == Repeat(n, Receive(c, u), |Of(n.down, c)|)
    ensures c in n1.status && n1.status[c].peers == peers && n1.status[c].latency.Keys == Ids(peers)
  {
    hide Step;
    var k := |Of(n.down, c)| - 1;
    ReadMany(n, c, u, k, "", "");
    var m := Repeat(n, Receive(c, u), k);
    assert Of(m.down, c) == [ListMsg(peers)];
    ListRead(m, c, peers, u, n1);
  }

  lemma ListPushed(n: Net, c: string, peers: seq<PeerInfo>, n1: Net)
    requires c in n.live && |Of(n.queue, c)| < NOTIFY_CAPACITY && n1 == Step(n, PushList(c, peers))
    ensures n1 == n.(queue := n1.queue) && Of(n1.queue, c) == Of(n.queue, c) + [ListMsg(peers)]
  {
  }

  lemma ListRead(n: Net, c: string, peers: seq<PeerInfo>, u: int, n1: Net)
    requires c in n.status && Of(n.down, c) == [ListMsg(peers)] && n1 == Step(n, Receive(c, u))
    ensures c in n1.status && n1.status[c].peers == peers && n1.status[c].latency.Keys == Ids(peers)
  {
  }
}
