/**
 A client's view of its room: the peer list and one latency entry per peer, as a value.

 Each function is the effect of one method of the client's Status that holds its lock; class
 StatusTracker is proved against them. Times are nanoseconds since 1970.
 */
module StatusModel {
  import opened Basics

  const PROBE_INTERVAL := 10 * SECOND
  const PROBE_TIMEOUT := 3 * SECOND
  const FEATURE_PEER_LATENCY := "peer_latency"

  /** The zero time.Time, the first instant of year 1. */
  const ZERO_TIME: int := -62_135_596_800 * SECOND

  /** The state strings "", "unknown", "pending", "ok" and "timeout". */
  datatype Phase = Unset | Unknown | Pending | Answered | TimedOut

  datatype Latency = Latency(
    rtt: int, phase: Phase, pending: bool, probeId: string,
    sentAt: int, nextProbe: int, index: nat, order: int)

  /** What reading an absent map entry gives. */
  const NO_LATENCY := Latency(0, Unset, false, "", ZERO_TIME, ZERO_TIME, 0, 0)

  /** The MAC text of a listed peer: empty, unparsable, or the bytes it parses to. */
  datatype MacText = NoMac | BadMac | GoodMac(mac: seq<byte>)

  /** A listed peer; ip is None when its address text is empty or unparsable. */
  datatype PeerInfo = PeerInfo(id: string, features: seq<string>, ip: Option<nat>, mac: MacText)

  datatype Status = Status(connected: bool, self: string, ip: nat, peers: seq<PeerInfo>, latency: map<string, Latency>)

  datatype Probe = Probe(peer: string, id: string, sentAt: int)

  datatype Ping = Ping(id: string, from: string, to: string, sentAt: int)
  datatype Pong = Pong(id: string, from: string, to: string, sentAt: int)

  // ---------- the peer list ----------

  function Ids(peers: seq<PeerInfo>): set<string> {
    set i | 0 <= i < |peers| :: peers[i].id
  }

  /** The last place of an id in the list. */
  function LastIndex(peers: seq<PeerInfo>, id: string): (i: nat)
    requires id in Ids(peers)
    ensures i < |peers| && peers[i].id == id
    ensures forall j :: i < j < |peers| ==> peers[j].id != id
    decreases |peers|
  {
    var n := |peers| - 1;
    if peers[n].id == id then n
    else
      assert forall j :: 0 <= j < |peers| && peers[j].id == id ==> peers[..n][j].id == id;
      LastIndex(peers[..n], id)
  }

  function Refresh(e: Latency, i: nat): Latency {
    e.(phase := if e.phase.Unset? then Unknown else e.phase, index := i, order := i)
  }

  function EntryOf(latency: map<string, Latency>, id: string): Latency {
    if id in latency then latency[id] else NO_LATENCY
  }

  /** Entries for exactly the listed peers, their order reset to their place in the list. */
  function Keep(peers: seq<PeerInfo>, latency: map<string, Latency>): map<string, Latency> {
    map id | id in Ids(peers) :: Refresh(EntryOf(latency, id), LastIndex(peers, id))
  }

  function UpdatePeers(s: Status, peers: seq<PeerInfo>): Status {
    s.(peers := peers, latency := Keep(peers, s.latency))
  }

  // ---------- probing ----------

  function Entry(s: Status, id: string): Latency {
    EntryOf(s.latency, id)
  }

  predicate Eligible(s: Status, p: PeerInfo, now: int) {
    && p.id != s.self && FEATURE_PEER_LATENCY in p.features
    && !Entry(s, p.id).pending && !(Entry(s, p.id).nextProbe > now)
  }

  /** The scan over the first n peers; the empty id stands for none yet, as it does in the code. */
  function Best(s: Status, now: int, n: nat): (string, int)
    requires n <= |s.peers|
  {
    if n == 0 then ("", 0)
    else
      var (best, order) := Best(s, now, n - 1);
      var p := s.peers[n - 1];
      if Eligible(s, p, now) && (best == "" || Entry(s, p.id).order < order) then (p.id, Entry(s, p.id).order)
      else (best, order)
  }

  function Issue(e: Latency, id: string, now: int): Latency {
    e.(pending := true, probeId := id, sentAt := now, nextProbe := now + PROBE_INTERVAL, phase := Pending, order := now)
  }

  /** The probe to send, if any; the nonce is missing when the random source fails. */
  function NextProbe(s: Status, now: int, nonce: Option<string>): (Option<Probe>, Status) {
    var best := Best(s, now, |s.peers|).0;
    if !s.connected || s.self == "" || best == "" || nonce.None? then (None, s)
    else (Some(Probe(best, nonce.value, now)),
          s.(latency := s.latency[best := Issue(Entry(s, best), nonce.value, now)]))
  }

  /** The pong answers the probe that is waiting for its sender. */
  predicate Answers(s: Status, from: string, id: string) {
    from in s.latency && s.latency[from].pending && s.latency[from].probeId == id
  }

  function RecordPong(s: Status, from: string, id: string, now: int): Status {
    if !Answers(s, from, id) then s
    else
      var e := s.latency[from];
      s.(latency := s.latency[from := e.(rtt := now - e.sentAt, phase := Answered, pending := false, probeId := "")])
  }

  predicate Overdue(e: Latency, now: int) {
    e.pending && !(now - e.sentAt < PROBE_TIMEOUT)
  }

  function ExpireEntry(e: Latency, now: int): Latency {
    if Overdue(e, now) then e.(pending := false, probeId := "", phase := TimedOut) else e
  }

  function Expire(s: Status, now: int): Status {
    s.(latency := map id | id in s.latency :: ExpireEntry(s.latency[id], now))
  }

  // ---------- messages ----------

  function HandlePing(s: Status, ping: Ping): Option<Pong> {
    if ping.from == "" || ping.to != s.self then None
    else Some(Pong(ping.id, "", ping.from, ping.sentAt))
  }

  function HandlePong(s: Status, pong: Pong, now: int): Status {
    if pong.from == "" || pong.to != s.self then s else RecordPong(s, pong.from, pong.id, now)
  }

  // ---------- addresses ----------

  /** The MAC listed for an address from place i on; the client's own entry and entries without a MAC are passed over. */
  function PeerMacFrom(s: Status, ip: nat, i: nat): Option<seq<byte>>
    requires i <= |s.peers|
    decreases |s.peers| - i
  {
    if i == |s.peers| then None
    else
      var p := s.peers[i];
      if p.ip == Some(s.ip) || p.ip.None? || p.mac.NoMac? || p.ip.value != ip then PeerMacFrom(s, ip, i + 1)
      else if p.mac.BadMac? then None
      else Some(p.mac.mac)
  }

  function PeerMac(s: Status, ip: nat): Option<seq<byte>> {
    PeerMacFrom(s, ip, 0)
  }

  // ---------- what the scan finds ----------

  predicate Named(peers: seq<PeerInfo>) {
    forall i :: 0 <= i < |peers| ==> peers[i].id != ""
  }

  /** Place i holds the first eligible peer of least order among the first n. */
  predicate IsBest(s: Status, now: int, n: nat, i: nat)
    requires n <= |s.peers|
  {
    && i < n && Eligible(s, s.peers[i], now)
    && forall j :: 0 <= j < n && Eligible(s, s.peers[j], now) ==>
         && Entry(s, s.peers[i].id).order <= Entry(s, s.peers[j].id).order
         && (j < i ==> Entry(s, s.peers[i].id).order < Entry(s, s.peers[j].id).order)
  }

  /** There is a first eligible peer of least order as soon as there is an eligible one. */
  lemma {:induction false} BestExists(s: Status, now: int, n: nat) returns (i: nat)
    requires n <= |s.peers|
    ensures IsBest(s, now, n, i) || forall j :: 0 <= j < n ==> !Eligible(s, s.peers[j], now)
  {
    i := 0;
    if n > 0 {
      i := BestExists(s, now, n - 1);
      var p := s.peers[n - 1];
      if Eligible(s, p, now) && (!IsBest(s, now, n - 1, i) || Entry(s, p.id).order < Entry(s, s.peers[i].id).order) {
        i := n - 1;
      }
    }
  }

  lemma {:induction false} NoneFound(s: Status, now: int, n: nat)
    requires n <= |s.peers| && forall j :: 0 <= j < n ==> !Eligible(s, s.peers[j], now)
    ensures Best(s, now, n) == ("", 0)
  {
    if n > 0 {
      NoneFound(s, now, n - 1);
    }
  }

  /** The order the scan carries is that of an eligible peer it has passed. */
  lemma {:induction false} OrderIsPassed(s: Status, now: int, n: nat) returns (j: nat)
    requires n <= |s.peers| && Best(s, now, n).0 != ""
    ensures j < n && Eligible(s, s.peers[j], now) && Best(s, now, n).1 == Entry(s, s.peers[j].id).order
  {
    if Best(s, now, n) == Best(s, now, n - 1) {
      j := OrderIsPassed(s, now, n - 1);
    } else {
      j := n - 1;
    }
  }

  /** A best peer with a name is taken when the scan comes to it, and kept. */
  lemma {:induction false} BestIsTaken(s: Status, now: int, n: nat, i: nat)
    requires n <= |s.peers| && IsBest(s, now, n, i) && s.peers[i].id != ""
    ensures Best(s, now, n) == (s.peers[i].id, Entry(s, s.peers[i].id).order)
  {
    if i < n - 1 {
      BestIsTaken(s, now, n - 1, i);
    } else if Best(s, now, n - 1).0 != "" {
      var j := OrderIsPassed(s, now, n - 1);
    }
  }

  /**
   The scan finds no one when no one is eligible. Otherwise there is a first eligible peer of
   least order, and the scan finds it exactly when its id is not empty.
   */
  lemma BestIsLeast(s: Status, now: int, n: nat) returns (i: nat)
    requires n <= |s.peers|
    ensures var (best, order) := Best(s, now, n);
            if forall j :: 0 <= j < n ==> !Eligible(s, s.peers[j], now) then best == ""
            else
              && IsBest(s, now, n, i)
              && (best == s.peers[i].id != "" <==> s.peers[i].id != "")
              && (best == s.peers[i].id != "" ==> order == Entry(s, best).order)
  {
    i := BestExists(s, now, n);
    if forall j :: 0 <= j < n ==> !Eligible(s, s.peers[j], now) {
      NoneFound(s, now, n);
    } else if s.peers[i].id != "" {
      BestIsTaken(s, now, n, i);
    }
  }

  // ---------- when a probe is sent, and to whom ----------

  /** The peer at place j can be probed: not the client itself, with the feature, not waiting, and due. */
  predicate Due(s: Status, j: nat, now: int)
    requires j < |s.peers|
  {
    var (p, e) := (s.peers[j], EntryOf(s.latency, s.peers[j].id));
    p.id != s.self && "peer_latency" in p.features && !e.pending && e.nextProbe <= now
  }

  /**
   A tick sends a probe exactly when the client is connected under an id, a nonce can be drawn and
   somebody in the list is due; it goes to the first of least order among those who are, carries
   the nonce and the time, and is then the one that is waited for. Otherwise nothing changes.
   */
  lemma ProbeSentIff(s: Status, now: int, nonce: Option<string>) returns (i: nat)
    requires Named(s.peers)
    ensures var (probe, s1) := NextProbe(s, now, nonce);
            && (probe.Some? <==> s.connected && s.self != "" && nonce.Some? && exists j :: 0 <= j < |s.peers| && Due(s, j, now))
            && (probe.None? ==> s1 == s)
            && (probe.Some? ==>
                  && i < |s.peers| && Due(s, i, now) && probe.value == Probe(s.peers[i].id, nonce.value, now)
                  && (forall j :: 0 <= j < |s.peers| && Due(s, j, now) ==>
                        && EntryOf(s.latency, s.peers[i].id).order <= EntryOf(s.latency, s.peers[j].id).order
                        && (j < i ==> EntryOf(s.latency, s.peers[i].id).order < EntryOf(s.latency, s.peers[j].id).order))
                  && s1 == s.(latency := s1.latency) && s1.latency.Keys == s.latency.Keys + {probe.value.peer}
                  && (forall q :: q in s.latency && q != probe.value.peer ==> s1.latency[q] == s.latency[q])
                  && Answers(s1, probe.value.peer, nonce.value) && s1.latency[probe.value.peer].sentAt == now)
  {
    i := BestIsLeast(s, now, |s.peers|);
    forall j | 0 <= j < |s.peers| ensures Eligible(s, s.peers[j], now) <==> Due(s, j, now) {
    }
    hide Best, Eligible;
  }

  // ---------- who takes pings and pongs ----------

  /**
   One ping between two clients. It is answered exactly when it is stamped with a sender and for
   b; and a, if it waits for b under that id, takes the answer, stamped with b, for the end of it.
   */
  lemma PingPong(a: Status, b: Status, ping: Ping, now: int)
    ensures HandlePing(b, ping).Some? <==> ping.from != "" && ping.to == b.self
    ensures HandlePing(b, ping).Some? ==> HandlePing(b, ping).value.to == ping.from && HandlePing(b, ping).value.sentAt == ping.sentAt
    ensures HandlePing(b, ping).Some? && ping.from == a.self && b.self != "" && Answers(a, b.self, ping.id) ==>
              var a1 := HandlePong(a, HandlePing(b, ping).value.(from := b.self), now);
              b.self in a1.latency && a1.latency[b.self].phase.Answered? && a1.latency[b.self].rtt == now - a.latency[b.self].sentAt
  {
  }

  /** A pong counts exactly when it is stamped, for this client, and answers the probe that waits for its sender. */
  lemma PongAnswers(s: Status, pong: Pong, now: int)
    ensures var waited := pong.from in s.latency && s.latency[pong.from].pending && s.latency[pong.from].probeId == pong.id;
            var s1 := HandlePong(s, pong, now);
            && (!(pong.from != "" && pong.to == s.self && waited) ==> s1 == s)
            && (pong.from != "" && pong.to == s.self && waited ==>
                  && s1 == s.(latency := s1.latency) && s1.latency.Keys == s.latency.Keys
                  && (forall q :: q in s.latency && q != pong.from ==> s1.latency[q] == s.latency[q])
                  && var (e, e1) := (s.latency[pong.from], s1.latency[pong.from]);
                     e1 == e.(rtt := now - e.sentAt, phase := Answered, pending := false, probeId := ""))
  {
  }

  // ---------- which MAC is listed ----------

  /** The entry at place i says something about the address: it is not the client's own and has a MAC text. */
  predicate Speaks(s: Status, i: nat, ip: nat)
    requires i < |s.peers|
  {
    s.peers[i].ip == Some(ip) && ip != s.ip && !s.peers[i].mac.NoMac?
  }

  /** The MAC listed for an address is that of the first entry that says something about it, if it parses. */
  lemma {:induction false} FirstSpeaks(s: Status, ip: nat, k: nat, i: nat)
    requires k <= i <= |s.peers| && (forall j :: k <= j < i ==> !Speaks(s, j, ip)) && (i < |s.peers| ==> Speaks(s, i, ip))
    ensures PeerMacFrom(s, ip, k)
         == if i < |s.peers| && s.peers[i].mac.GoodMac? then Some(s.peers[i].mac.mac) else None
    decreases i - k
  {
    if k < i {
      assert !Speaks(s, k, ip);
      FirstSpeaks(s, ip, k + 1, i);
    }
  }

  lemma ListedMacIs(s: Status, ip: nat, i: nat)
    requires i <= |s.peers| && (forall j :: 0 <= j < i ==> !Speaks(s, j, ip)) && (i < |s.peers| ==> Speaks(s, i, ip))
    ensures PeerMac(s, ip) == if i < |s.peers| && s.peers[i].mac.GoodMac? then Some(s.peers[i].mac.mac) else None
  {
    FirstSpeaks(s, ip, 0, i);
  }
}
