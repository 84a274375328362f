/**
 What the log of the data loop says is what happened: its verdicts are those of the limiter and of
 the frame's own bytes, its copies are what the peers are sent, in order.
 */
module DataTruth {
  import opened Basics
  import opened RoomModel
  import opened Limiter
  import opened DataPlane

  // ---------- one frame ----------

  /** Forward takes a frame from this peer: it has a header and the peer's own MAC as its source. */
  predicate WellSent(p: Peer, frame: seq<byte>) {
    |frame| >= 14 && frame[6..12] == p.mac
  }

  /**
   The fate of one frame. It is refused exactly when the limiter refuses it; rejected exactly when
   the limiter does not and it has no header or not the sender's MAC; and else copied to exactly
   the targets Forward names, of which those with 128 frames waiting get nothing.
   */
  lemma FrameFate(pl: Plane, ref: nat, frame: seq<byte>, now: int)
    requires ref in pl.ports
    ensures var (pl1, p) := (Serve(pl, ref, frame, now), pl.ports[ref]);
            var (allowed, targets) := (Allow(p.window, Offer(now, |frame|)).0, Forward(pl.room, p.peer, frame).0);
            && |pl1.log| == |pl.log| + 1 && pl1.log[..|pl.log|] == pl.log
            && var e := pl1.log[|pl.log|];
               && e.from == ref && e.at == now && e.frame == frame
               && (e.fate.Refused? <==> !allowed)
               && (e.fate.Rejected? <==> allowed && !WellSent(p.peer, frame))
               && (e.fate.Copied? ==>
                     && targets.Ok? && e.fate.to == Refs(targets.value)
                     && e.fate.full == set r | r in e.fate.to && r in pl.ports && |pl.ports[r].queue| >= 128)
  {
  }

  /**
   What one frame does to the counters and queues, given its fate. A refused frame is a drop of
   its sender and nothing else; a rejected one is received and dropped; otherwise it is received,
   and each target gets it at the end of its queue and counts it as sent, or counts a drop.
   */
  lemma FrameCounts(pl: Plane, ref: nat, frame: seq<byte>, now: int, r: nat)
    requires MembersHavePorts(pl) && ref in pl.ports && r in pl.ports
    ensures var pl1 := Serve(pl, ref, frame, now);
            && |pl1.log| > 0 && r in pl1.ports
            && var (fate, p, p1) := (pl1.log[|pl1.log| - 1].fate, pl.ports[r], pl1.ports[r]);
               var (hit, gets) := (fate.Copied? && r in fate.to, fate.Copied? && r in fate.to && r !in fate.full);
               && p1.rx.frames == p.rx.frames + (if r == ref && !fate.Refused? then 1 else 0)
               && p1.rx.bytes == p.rx.bytes + (if r == ref && !fate.Refused? then |frame| else 0)
               && p1.drop.frames == p.drop.frames + (if (r == ref && !fate.Copied?) || (hit && !gets) then 1 else 0)
               && p1.drop.bytes == p.drop.bytes + (if (r == ref && !fate.Copied?) || (hit && !gets) then |frame| else 0)
               && p1.tx.frames == p.tx.frames + (if gets then 1 else 0)
               && p1.tx.bytes == p.tx.bytes + (if gets then |frame| else 0)
               && p1.queue == p.queue + (if gets then [frame] else [])
               && p1.peer == p.peer && p1.written == p.written
               && (r != ref ==> p1.window == p.window)
  {
    if Allow(pl.ports[ref].window, Offer(now, |frame|)).0 && Forward(pl.room, pl.ports[ref].peer, frame).0.Ok? {
      TargetsHavePorts(pl, pl.ports[ref].peer, frame);
    }
  }

  // ---------- the log of a whole run ----------

  /** What peer ref offered to its limiter, and what of it was not refused, in order. */
  function Offers(log: seq<Entry>, ref: nat): seq<Offer> {
    if log == [] then []
    else
      var e := log[|log| - 1];
      Offers(log[..|log| - 1], ref) + if e.from == ref then [Offer(e.at, |e.frame|)] else []
  }

  function Passed(log: seq<Entry>, ref: nat): seq<Offer> {
    if log == [] then []
    else
      var e := log[|log| - 1];
      Passed(log[..|log| - 1], ref) + if e.from == ref && !e.fate.Refused? then [Offer(e.at, |e.frame|)] else []
  }

  /** The frames copied to peer ref while its queue had space, in order. */
  function Owed(log: seq<Entry>, ref: nat): seq<seq<byte>> {
    if log == [] then []
    else
      var e := log[|log| - 1];
      Owed(log[..|log| - 1], ref) + if e.fate.Copied? && ref in e.fate.to && ref !in e.fate.full then [e.frame] else []
  }

  /** The log is the whole past of the port: of its window, and of its queue. */
  predicate PortTrue(p: Port, log: seq<Entry>, ref: nat) {
    && p.window == After(CLOSED_WINDOW, Offers(log, ref))
    && Passed(log, ref) == Admitted(CLOSED_WINDOW, Offers(log, ref))
    && p.written + p.queue == Owed(log, ref)
  }

  predicate NothingOf(log: seq<Entry>, ref: nat) {
    Offers(log, ref) == [] && Passed(log, ref) == [] && Owed(log, ref) == []
  }

  predicate RefTrue(pl: Plane, ref: nat) {
    if ref in pl.ports then PortTrue(pl.ports[ref], pl.log, ref) else NothingOf(pl.log, ref)
  }

  /** Entry k was rejected exactly if it was not refused and was not well sent. */
  predicate EntryTrue(pl: Plane, k: nat)
    requires k < |pl.log|
  {
    var e := pl.log[k];
    e.from in pl.ports && (e.fate.Rejected? <==> !e.fate.Refused? && !WellSent(pl.ports[e.from].peer, e.frame))
  }

  ghost predicate LogTrue(pl: Plane) {
    && MembersHavePorts(pl)
    && (forall r :: RefTrue(pl, r))
    && (forall k :: 0 <= k < |pl.log| ==> EntryTrue(pl, k))
  }

  lemma {:induction false} AdmittedAppends(w: Window, offers: seq<Offer>, o: Offer)
    ensures After(w, offers + [o]) == Allow(After(w, offers), o).1
    ensures Admitted(w, offers + [o]) == Admitted(w, offers) + if Allow(After(w, offers), o).0 then [o] else []
    decreases |offers|
  {
    hide Allow;
    if offers == [] {
      assert offers + [o] == [o];
      assert [o][1..] == [];
    } else {
      assert (offers + [o])[0] == offers[0] && (offers + [o])[1..] == offers[1..] + [o];
      AdmittedAppends(Allow(w, offers[0]).1, offers[1..], o);
    }
  }

  lemma LogAppends(log: seq<Entry>, e: Entry, ref: nat)
    ensures Offers(log + [e], ref) == Offers(log, ref) + if e.from == ref then [Offer(e.at, |e.frame|)] else []
    ensures Passed(log + [e], ref) == Passed(log, ref) + if e.from == ref && !e.fate.Refused? then [Offer(e.at, |e.frame|)] else []
    ensures Owed(log + [e], ref) == Owed(log, ref) + if e.fate.Copied? && ref in e.fate.to && ref !in e.fate.full then [e.frame] else []
  {
    assert (log + [e])[..|log|] == log;
  }

  /** The sender's window moves on by one offer. */
  lemma ServeWindow(pl: Plane, ref: nat, frame: seq<byte>, now: int)
    requires MembersHavePorts(pl) && ref in pl.ports
    ensures ref in Serve(pl, ref, frame, now).ports
    ensures Serve(pl, ref, frame, now).ports[ref].window == Allow(pl.ports[ref].window, Offer(now, |frame|)).1
  {
    if Allow(pl.ports[ref].window, Offer(now, |frame|)).0 && Forward(pl.room, pl.ports[ref].peer, frame).0.Ok? {
      TargetsHavePorts(pl, pl.ports[ref].peer, frame);
    }
  }

  lemma ServeKeepsRef(pl: Plane, ref: nat, frame: seq<byte>, now: int, r: nat)
    requires LogTrue(pl) && ref in pl.ports
    ensures RefTrue(Serve(pl, ref, frame, now), r)
  {
    var pl1 := Serve(pl, ref, frame, now);
    assert RefTrue(pl, r);
    FrameFate(pl, ref, frame, now);
    var e := pl1.log[|pl.log|];
    assert pl1.log == pl.log + [e];
    LogAppends(pl.log, e, r);
    ServePorts(pl, ref, frame, now);
    if r in pl.ports {
      FrameCounts(pl, ref, frame, now, r);
      ServeWindow(pl, ref, frame, now);
      AdmittedAppends(CLOSED_WINDOW, Offers(pl.log, ref), Offer(now, |frame|));
      hide Serve, Allow, After, Admitted, Offers, Passed, Owed, Forward;
      var (p, p1) := (pl.ports[r], pl1.ports[r]);
      var more := if e.fate.Copied? && r in e.fate.to && r !in e.fate.full then [frame] else [];
      assert p1.written + p1.queue == p.written + p.queue + more;
      assert r != ref ==> Offers(pl1.log, r) == Offers(pl.log, r) && Passed(pl1.log, r) == Passed(pl.log, r);
    }
  }

  /** Serving makes no port, and copies go to ports only. */
  lemma ServePorts(pl: Plane, ref: nat, frame: seq<byte>, now: int)
    requires MembersHavePorts(pl) && ref in pl.ports
    ensures var pl1 := Serve(pl, ref, frame, now);
            && pl1.ports.Keys == pl.ports.Keys && |pl1.log| > 0
            && (pl1.log[|pl1.log| - 1].fate.Copied? ==> pl1.log[|pl1.log| - 1].fate.to <= pl.ports.Keys)
  {
    if Allow(pl.ports[ref].window, Offer(now, |frame|)).0 && Forward(pl.room, pl.ports[ref].peer, frame).0.Ok? {
      TargetsHavePorts(pl, pl.ports[ref].peer, frame);
    }
  }

  lemma ServeKeepsLogTrue(pl: Plane, ref: nat, frame: seq<byte>, now: int)
    requires LogTrue(pl) && ref in pl.ports
    ensures LogTrue(Serve(pl, ref, frame, now))
  {
    var pl1 := Serve(pl, ref, frame, now);
    forall r ensures RefTrue(pl1, r) {
      ServeKeepsRef(pl, ref, frame, now, r);
    }
    FrameFate(pl, ref, frame, now);
    ServePorts(pl, ref, frame, now);
    forall k | 0 <= k < |pl1.log| ensures EntryTrue(pl1, k) {
      var e := pl1.log[k];
      if k < |pl.log| {
        assert EntryTrue(pl, k) && pl1.log[..|pl.log|][k] == e;
      }
      FrameCounts(pl, ref, frame, now, e.from);
    }
    ServeKeepsPorts(pl, ref, frame, now);
  }

  lemma ServeKeepsPorts(pl: Plane, ref: nat, frame: seq<byte>, now: int)
    requires MembersHavePorts(pl) && ref in pl.ports
    ensures MembersHavePorts(Serve(pl, ref, frame, now))
  {
    var pl1 := Serve(pl, ref, frame, now);
    ServePorts(pl, ref, frame, now);
    forall r | r in pl.ports ensures pl1.ports[r].peer == pl.ports[r].peer {
      FrameCounts(pl, ref, frame, now, r);
    }
  }

  lemma StepKeepsLogTrue(pl: Plane, a: Action)
    requires LogTrue(pl)
    ensures LogTrue(Step(pl, a))
  {
    var pl1 := Step(pl, a);
    match a {
      case Frame(ref, payload, now) =>
        if ref in pl.ports {
          ServeKeepsLogTrue(pl, ref, payload, now);
        }
      case Drain(ref) =>
        if ref in pl.ports && pl.ports[ref].queue != [] {
          var p := pl.ports[ref];
          assert p.written + [p.queue[0]] + p.queue[1..] == p.written + p.queue;
          OthersKeepTrue(pl, pl1);
        }
      case Admit(want, draw, ref) => OthersKeepTrue(pl, pl1);
      case Remove(ref) => OthersKeepTrue(pl, pl1);
    }
  }

  /** A step that reads no frame leaves the log as it is, and every port with the same past. */
  lemma OthersKeepTrue(pl: Plane, pl1: Plane)
    requires LogTrue(pl) && MembersHavePorts(pl1) && pl1.log == pl.log && pl.ports.Keys <= pl1.ports.Keys
    requires forall r :: r in pl.ports ==>
               && pl1.ports[r].peer == pl.ports[r].peer && pl1.ports[r].window == pl.ports[r].window
               && pl1.ports[r].written + pl1.ports[r].queue == pl.ports[r].written + pl.ports[r].queue
    requires forall r :: r in pl1.ports && r !in pl.ports ==> pl1.ports[r] == NewPort(pl1.ports[r].peer)
    ensures LogTrue(pl1)
  {
    forall r ensures RefTrue(pl1, r) {
      assert RefTrue(pl, r);
    }
    forall k | 0 <= k < |pl1.log| ensures EntryTrue(pl1, k) {
      assert EntryTrue(pl, k);
    }
  }

  lemma {:induction false} RunKeepsLogTrue(pl: Plane, acts: seq<Action>)
    requires LogTrue(pl)
    ensures LogTrue(Run(pl, acts))
    decreases |acts|
  {
    hide LogTrue, Step;
    if acts != [] {
      StepKeepsLogTrue(pl, acts[0]);
      RunKeepsLogTrue(Step(pl, acts[0]), acts[1..]);
    }
  }

  lemma StartIsTrue(pl: Plane)
    requires Start(pl)
    ensures LogTrue(pl)
  {
    forall r ensures RefTrue(pl, r) {
    }
  }

  // ---------- over every run ----------

  /**
   Every frame a peer was to get is written out or waits, once, in the order it was switched: the
   frames written and then those queued are exactly those copied to it while it had space.
   */
  lemma FramesKeepOrder(pl: Plane, acts: seq<Action>, ref: nat)
    requires Start(pl) && ref in Run(pl, acts).ports
    ensures var p := Run(pl, acts).ports[ref];
            p.written + p.queue == Owed(Run(pl, acts).log, ref)
  {
    StartIsTrue(pl);
    RunKeepsLogTrue(pl, acts);
    assert RefTrue(Run(pl, acts), ref);
  }

  /**
   The verdicts of every run. The frames of a peer that were not refused are those its limiter
   admits out of all it ever sent; and of these exactly the ones without a header or with
   another's MAC were rejected.
   */
  lemma VerdictsAreTrue(pl: Plane, acts: seq<Action>, ref: nat, k: nat)
    requires Start(pl) && ref in Run(pl, acts).ports && k < |Run(pl, acts).log|
    ensures var pl1 := Run(pl, acts);
            && Passed(pl1.log, ref) == Admitted(CLOSED_WINDOW, Offers(pl1.log, ref))
            && (pl1.log[k].from == ref ==>
                  (pl1.log[k].fate.Rejected? <==> !pl1.log[k].fate.Refused? && !WellSent(pl1.ports[ref].peer, pl1.log[k].frame)))
  {
    StartIsTrue(pl);
    RunKeepsLogTrue(pl, acts);
    assert RefTrue(Run(pl, acts), ref);
    assert EntryTrue(Run(pl, acts), k);
  }

  /**
   So in every run in which a peer's frames come at times that do not go back, in any k seconds at
   most (k+1) * 5000 of its frames and (k+1) * 20 MiB get past the limiter.
   */
  lemma RelayedRateIsBounded(pl: Plane, acts: seq<Action>, ref: nat, t: int, k: nat)
    requires Start(pl) && ref in Run(pl, acts).ports && Nondecreasing(Offers(Run(pl, acts).log, ref))
    ensures var passed := Passed(Run(pl, acts).log, ref);
            && Frames(passed, t, t + k * SECOND) <= (k + 1) * 5000
            && Bytes(passed, t, t + k * SECOND) <= (k + 1) * (20 * 1024 * 1024)
  {
    StartIsTrue(pl);
    RunKeepsLogTrue(pl, acts);
    assert RefTrue(Run(pl, acts), ref);
    SlidingBound(CLOSED_WINDOW, Offers(Run(pl, acts).log, ref), t, k);
  }

  // ---------- joining, leaving and writing out ----------

  /** A join that the room accepts makes a member with an unused port; any other changes nothing. */
  lemma AdmitAnswers(pl: Plane, want: Mac, draw: Draw, ref: nat)
    ensures var (res, pl1) := (AddPeer(pl.room, want, draw, ref).0, Step(pl, Admit(want, draw, ref)));
            && (ref !in pl.ports && res.Ok? ==>
                  && Current(pl1.room, res.value) && pl1.ports == pl.ports[ref := pl1.ports[ref]]
                  && pl1.ports[ref].peer == res.value && pl1.ports[ref].queue == [] && pl1.ports[ref].window.start.None?)
            && (ref in pl.ports || res.Err? ==> pl1 == pl)
  {
  }

  /** The writer takes the frames of a queue one by one from its front. */
  lemma {:induction false} QueueDrains(pl: Plane, ref: nat, k: nat)
    requires ref in pl.ports && k <= |pl.ports[ref].queue|
    ensures var (p, pl1) := (pl.ports[ref], Run(pl, seq(k, _ => Drain(ref))));
            pl1 == pl.(ports := pl.ports[ref := p.(queue := p.queue[k..], written := p.written + p.queue[..k])])
    decreases k
  {
    var p := pl.ports[ref];
    if k == 0 {
      assert pl.ports[ref := p] == pl.ports && p.queue[0..] == p.queue && p.written + p.queue[..0] == p.written;
    } else {
      var acts := seq(k, _ => Drain(ref));
      assert acts[0] == Drain(ref) && acts[1..] == seq(k - 1, _ => Drain(ref));
      var pl1 := Step(pl, Drain(ref));
      QueueDrains(pl1, ref, k - 1);
      assert p.written + [p.queue[0]] + p.queue[1..][..k - 1] == p.written + p.queue[..k];
    }
  }

  /** A port whose peer is no member. */
  predicate Gone(pl: Plane, ref: nat) {
    ref in pl.ports && forall id :: id in pl.room.peers ==> pl.room.peers[id].ref != ref
  }

  lemma RemoveMakesGone(pl: Plane, ref: nat)
    requires MembersHavePorts(pl) && ref in pl.ports && Safe(pl.room)
    ensures Gone(Step(pl, Remove(ref)), ref)
  {
    var p := pl.ports[ref].peer;
    forall id | id in pl.room.peers && pl.room.peers[id].ref == ref ensures id == p.id {
      assert MemberOk(id, pl.room.peers[id], pl.room.base, pl.room.nextHost, pl.room.freeHosts);
    }
  }

  lemma StepKeepsGone(pl: Plane, a: Action, ref: nat)
    requires LogTrue(pl) && Gone(pl, ref)
    ensures Gone(Step(pl, a), ref) && |Step(pl, a).ports[ref].queue| <= |pl.ports[ref].queue|
  {
    match a
    case Admit(want, draw, r) =>
    case Remove(r) =>
    case Drain(r) =>
    case Frame(r, payload, now) =>
      if r in pl.ports {
        FrameCounts(pl, r, payload, now, ref);
        FrameFate(pl, r, payload, now);
        GoneIsNoTarget(pl, r, payload, ref);
        ServeMembers(pl, r, payload, now);
        hide Serve;
      }
  }

  lemma GoneIsNoTarget(pl: Plane, r: nat, frame: seq<byte>, ref: nat)
    requires r in pl.ports && Gone(pl, ref)
    ensures var targets := Forward(pl.room, pl.ports[r].peer, frame).0; targets.Ok? ==> ref !in Refs(targets.value)
  {
    var targets := Forward(pl.room, pl.ports[r].peer, frame).0;
    if targets.Ok? {
      forall p | p in targets.value ensures p.ref != ref {
        TargetsAreMembers(pl.room, pl.ports[r].peer, frame, p);
      }
    }
  }

  lemma ServeMembers(pl: Plane, ref: nat, frame: seq<byte>, now: int)
    requires ref in pl.ports
    ensures Serve(pl, ref, frame, now).room.peers == pl.room.peers
  {
  }

  /** Once removed, a peer is never sent anything again: its queue only shrinks, in every run. */
  lemma {:induction false} RemovedGetNothing(pl: Plane, acts: seq<Action>, ref: nat)
    requires LogTrue(pl) && Gone(pl, ref)
    ensures var pl1 := Run(pl, acts); Gone(pl1, ref) && |pl1.ports[ref].queue| <= |pl.ports[ref].queue|
    decreases |acts|
  {
    hide LogTrue, Step, Gone;
    if acts != [] {
      StepKeepsLogTrue(pl, acts[0]);
      StepKeepsGone(pl, acts[0], ref);
      RemovedGetNothing(Step(pl, acts[0]), acts[1..], ref);
    }
  }
}
