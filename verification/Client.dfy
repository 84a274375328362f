/** The client's Status object. Each method does to the fields what its function in StatusModel does to the value. */
module Client {
  import opened Basics
  import opened StatusModel
  import Model = StatusModel

  class StatusTracker {
    var connected: bool
    var self: string
    var ip: nat
    var peers: seq<PeerInfo>
    var peerLatency: map<string, Latency>

    function State(): Status
      reads this
    {
      Status(connected, self, ip, peers, peerLatency)
    }

    constructor ()
      ensures State() == Status(false, "", 0, [], map[])
    {
      connected, self, ip, peers, peerLatency := false, "", 0, [], map[];
    }

    /** The first loop of keepLatencyPeersLocked. */
    method RefreshListed() returns (seen: set<string>)
      modifies this
      ensures State() == old(State()).(latency := Refreshed(peers, old(peerLatency)))
      ensures seen == Ids(peers)
    {
      ghost var was := peerLatency;
      seen := {};
      assert Refreshed(peers[..0], was) == was;
      for i := 0 to |peers|
        invariant peers == old(peers)
        invariant State() == old(State()).(latency := Refreshed(peers[..i], was))
        invariant seen == Ids(peers[..i])
      {
        assert peers[..i + 1] == peers[..i] + [peers[i]];
        RefreshOneMore(peers[..i], peers[i], was);
        seen := seen + {peers[i].id};
        var state := if peers[i].id in peerLatency then peerLatency[peers[i].id] else NO_LATENCY;
        if state.phase.Unset? {
          state := state.(phase := Unknown);
        }
        state := state.(index := i, order := i);
        peerLatency := peerLatency[peers[i].id := state];
      }
      assert peers[..|peers|] == peers;
    }

    /** The second loop. */
    method DropUnseen(seen: set<string>)
      modifies this
      ensures State() == old(State()).(latency := map id | id in old(peerLatency) && id in seen :: old(peerLatency)[id])
    {
      ghost var was := peerLatency;
      var todo := peerLatency.Keys;
      while todo != {}
        invariant todo <= was.Keys
        invariant State() == old(State()).(latency := peerLatency)
        invariant peerLatency == map id | id in was && (id in todo || id in seen) :: was[id]
        decreases |todo|
      {
        var id :| id in todo;
        todo := todo - {id};
        if id !in seen {
          peerLatency := peerLatency - {id};
        }
      }
      assert peerLatency == map id | id in was && id in seen :: was[id];
    }

    method KeepLatencyPeers()
      modifies this
      ensures State() == old(State()).(latency := Keep(peers, old(peerLatency)))
    {
      var seen := RefreshListed();
      DropUnseen(seen);
      assert peerLatency == Keep(peers, old(peerLatency));
    }

    method Joined(self: string, ip: nat, peers: seq<PeerInfo>)
      modifies this
      ensures State() == Status(true, self, ip, peers, Keep(peers, old(peerLatency)))
    {
      connected, this.self, this.ip, this.peers := true, self, ip, peers;
      KeepLatencyPeers();
    }

    method UpdatePeers(peers: seq<PeerInfo>)
      modifies this
      ensures State() == Model.UpdatePeers(old(State()), peers)
    {
      this.peers := peers;
      KeepLatencyPeers();
    }

    method NextLatencyProbe(now: int, nonce: Option<string>) returns (probe: Option<Probe>)
      modifies this
      ensures (probe, State()) == NextProbe(old(State()), now, nonce)
    {
      if !connected || self == "" {
        return None;
      }
      var bestId, bestOrder := "", 0;
      for i := 0 to |peers|
        invariant State() == old(State())
        invariant (bestId, bestOrder) == Best(State(), now, i)
      {
        var peer := peers[i];
        var latency := if peer.id in peerLatency then peerLatency[peer.id] else NO_LATENCY;
        if peer.id == self || FEATURE_PEER_LATENCY !in peer.features || latency.pending || latency.nextProbe > now {
          continue;
        }
        if bestId == "" || latency.order < bestOrder {
          bestId, bestOrder := peer.id, latency.order;
        }
      }
      if bestId == "" || nonce.None? {
        return None;
      }
      var latency := if bestId in peerLatency then peerLatency[bestId] else NO_LATENCY;
      latency := latency.(pending := true, probeId := nonce.value, sentAt := now);
      latency := latency.(nextProbe := now + PROBE_INTERVAL, phase := Pending, order := now);
      peerLatency := peerLatency[bestId := latency];
      return Some(Probe(bestId, nonce.value, now));
    }

    method RecordLatencyPong(from: string, id: string, now: int)
      modifies this
      ensures State() == RecordPong(old(State()), from, id, now)
    {
      if from !in peerLatency || !peerLatency[from].pending || peerLatency[from].probeId != id {
        return;
      }
      var latency := peerLatency[from];
      latency := latency.(rtt := now - latency.sentAt, phase := Answered, pending := false, probeId := "");
      peerLatency := peerLatency[from := latency];
    }

    method ExpireLatencyProbes(now: int)
      modifies this
      ensures State() == Expire(old(State()), now)
    {
      ghost var was := peerLatency;
      var todo := peerLatency.Keys;
      while todo != {}
        invariant todo <= was.Keys
        invariant State() == old(State()).(latency := peerLatency)
        invariant peerLatency.Keys == was.Keys
        invariant forall id :: id in was ==> peerLatency[id] == if id in todo then was[id] else ExpireEntry(was[id], now)
        decreases |todo|
      {
        var id :| id in todo;
        todo := todo - {id};
        var latency := peerLatency[id];
        if !latency.pending || now - latency.sentAt < PROBE_TIMEOUT {
          continue;
        }
        peerLatency := peerLatency[id := latency.(pending := false, probeId := "", phase := TimedOut)];
      }
      assert peerLatency == Expire(old(State()), now).latency;
    }

    method PeerMacForIPv4(dst: nat) returns (mac: Option<seq<byte>>)
      ensures mac == PeerMac(State(), dst)
    {
      for i := 0 to |peers|
        invariant PeerMac(State(), dst) == PeerMacFrom(State(), dst, i)
      {
        var peer := peers[i];
        if peer.ip == Some(ip) || peer.ip.None? || peer.mac.NoMac? {
          continue;
        }
        if peer.ip.value != dst {
          continue;
        }
        if peer.mac.BadMac? {
          return None;
        }
        return Some(peer.mac.mac);
      }
      return None;
    }
  }

  /** The map after the first loop has gone over the peers: nothing is dropped yet. */
  ghost function Refreshed(peers: seq<PeerInfo>, was: map<string, Latency>): map<string, Latency> {
    map id | id in was.Keys + Ids(peers) ::
      if id in Ids(peers) then Refresh(EntryOf(was, id), LastIndex(peers, id)) else was[id]
  }

  lemma RefreshOneMore(done: seq<PeerInfo>, p: PeerInfo, was: map<string, Latency>)
    ensures Ids(done + [p]) == Ids(done) + {p.id}
    ensures Refreshed(done + [p], was)
         == Refreshed(done, was)[p.id := Refresh(EntryOf(Refreshed(done, was), p.id), |done|)]
  {
    SeenOneMore(done, p);
  }

  lemma SeenOneMore(done: seq<PeerInfo>, p: PeerInfo)
    ensures Ids(done + [p]) == Ids(done) + {p.id}
    ensures p.id in Ids(done + [p]) && LastIndex(done + [p], p.id) == |done|
    ensures forall id :: id in Ids(done) && id != p.id ==> LastIndex(done + [p], id) == LastIndex(done, id)
  {
    var all := done + [p];
    assert all[|done|].id == p.id;
    forall id | id in Ids(done) ensures id in Ids(all) {
      var i :| 0 <= i < |done| && done[i].id == id;
      assert all[i].id == id;
    }
    forall id | id in Ids(done) && id != p.id ensures LastIndex(all, id) == LastIndex(done, id) {
      var i, j := LastIndex(all, id), LastIndex(done, id);
      assert all[j].id == id && done[i].id == id;
    }
  }
}
