/**
 Every run of one client's latency tracker over one connection: any sequence of peer lists,
 probe ticks, timeouts and pongs after the join.
 */
module LatencyRuns {
  import opened Basics
  import opened Sorting
  import opened StatusModel

  datatype Op =
    | ListArrives(peers: seq<PeerInfo>)
    | TickProbe(now: int, nonce: Option<string>)
    | TickExpire(now: int)
    | PongArrives(from: string, id: string, now: int)

  function Apply(s: Status, op: Op): Status {
    match op
    case ListArrives(peers) => UpdatePeers(s, peers)
    case TickProbe(now, nonce) => NextProbe(s, now, nonce).1
    case TickExpire(now) => Expire(s, now)
    case PongArrives(from, id, now) => RecordPong(s, from, id, now)
  }

  /** The probe an operation sends. */
  function Sent(s: Status, op: Op): Option<Probe> {
    if op.TickProbe? then NextProbe(s, op.now, op.nonce).0 else None
  }

  /** The status after the first i operations. */
  function At(s: Status, ops: seq<Op>, i: nat): Status
    requires i <= |ops|
  {
    if i == 0 then s else Apply(At(s, ops, i - 1), ops[i - 1])
  }

  /** The status right after a join was accepted, for one connection. */
  predicate JustJoined(s: Status) {
    s.connected && s.self != "" && s.latency == Keep(s.peers, map[])
  }

  predicate NoncesNamed(ops: seq<Op>) {
    forall i :: 0 <= i < |ops| && ops[i].TickProbe? && ops[i].nonce.Some? ==> ops[i].nonce.value != ""
  }

  // ---------- the entries ----------

  /** The pending flag, a probe id and the state "pending" go together, and the state is set. */
  predicate EntryOk(e: Latency) {
    && (e.pending <==> e.probeId != "")
    && (e.pending <==> e.phase.Pending?)
    && !e.phase.Unset?
  }

  /** The entry gives the last place of the peer in the list. */
  predicate Placed(peers: seq<PeerInfo>, id: string, i: nat) {
    i < |peers| && peers[i].id == id && forall j :: i < j < |peers| ==> peers[j].id != id
  }

  /** Entries for exactly the listed peers. */
  predicate EntriesOk(s: Status) {
    && s.latency.Keys == Ids(s.peers)
    && forall id :: id in s.latency ==> EntryOk(s.latency[id]) && Placed(s.peers, id, s.latency[id].index)
  }

  lemma {:induction false} BestIsListed(s: Status, now: int, n: nat)
    requires n <= |s.peers|
    ensures var best := Best(s, now, n).0;
            best != "" ==> best in Ids(s.peers) && best != s.self && !Entry(s, best).pending && Entry(s, best).nextProbe <= now
  {
    if n > 0 {
      BestIsListed(s, now, n - 1);
    }
  }

  lemma ApplyKeepsEntries(s: Status, op: Op)
    requires EntriesOk(s)
    requires op.TickProbe? && op.nonce.Some? ==> op.nonce.value != ""
    ensures EntriesOk(Apply(s, op))
  {
    hide Best, Placed;
    match op
    case TickProbe(now, nonce) => BestIsListed(s, now, |s.peers|);
    case ListArrives(peers) => KeepPlaces(peers, s.latency);
    case TickExpire(now) =>
    case PongArrives(from, id, now) =>
  }

  lemma KeepPlaces(peers: seq<PeerInfo>, latency: map<string, Latency>)
    ensures forall id :: id in Keep(peers, latency) ==> Placed(peers, id, Keep(peers, latency)[id].index)
  {
  }

  /** In every run, after every operation, the entries are those of the listed peers and consistent. */
  lemma {:induction false} EntriesAlwaysOk(s: Status, ops: seq<Op>, i: nat)
    requires JustJoined(s) && NoncesNamed(ops) && i <= |ops|
    ensures EntriesOk(At(s, ops, i))
  {
    if i > 0 {
      EntriesAlwaysOk(s, ops, i - 1);
      ApplyKeepsEntries(At(s, ops, i - 1), ops[i - 1]);
    }
  }

  // ---------- every probe is resolved at most once ----------

  datatype Answer = Answer(from: string, at: int, rtt: int)

  /** History of the probes by their ids: sent, answered, timed out and when, and lost with their peer. */
  datatype Ledger = Ledger(sent: map<string, Probe>, answered: map<string, Answer>, timedOut: map<string, int>, gone: set<string>)

  /** The ids of probes waiting in one status whose entries are no longer pending in the next. */
  function GaveUp(s: Status, s1: Status): set<string> {
    set q | q in s.latency && s.latency[q].pending && q in s1.latency && !s1.latency[q].pending :: s.latency[q].probeId
  }

  function Book(l: Ledger, s: Status, op: Op): Ledger {
    match op
    case TickProbe(_, _) =>
      var p := Sent(s, op);
      if p.Some? then l.(sent := l.sent[p.value.id := p.value]) else l
    case PongArrives(from, id, now) =>
      if Answers(s, from, id) then
        l.(answered := l.answered[id := Answer(from, now, Apply(s, op).latency[from].rtt)])
      else l
    case TickExpire(now) =>
      l.(timedOut := l.timedOut + map id | id in GaveUp(s, Expire(s, now)) :: now)
    case ListArrives(peers) =>
      l.(gone := l.gone + set q | q in s.latency && s.latency[q].pending && q !in Ids(peers) :: s.latency[q].probeId)
  }

  const NO_PROBES := Ledger(map[], map[], map[], {})

  function LedgerAt(s: Status, ops: seq<Op>, i: nat): Ledger
    requires i <= |ops|
  {
    if i == 0 then NO_PROBES
    else Book(LedgerAt(s, ops, i - 1), At(s, ops, i - 1), ops[i - 1])
  }

  predicate Waiting(s: Status, id: string) {
    exists q :: q in s.latency && s.latency[q].pending && s.latency[q].probeId == id
  }

  /** How many of the four ends, still waiting included, a probe id has met. */
  function Ends(s: Status, l: Ledger, id: string): nat {
    (if Waiting(s, id) then 1 else 0) + (if id in l.answered then 1 else 0)
    + (if id in l.timedOut then 1 else 0) + (if id in l.gone then 1 else 0)
  }

  predicate PendingIsSent(s: Status, l: Ledger) {
    forall q :: q in s.latency && s.latency[q].pending ==>
      var e := s.latency[q];
      e.probeId in l.sent && l.sent[e.probeId] == Probe(q, e.probeId, e.sentAt)
  }

  predicate AnswersAreTrue(l: Ledger) {
    forall id :: id in l.answered ==>
      && id in l.sent && l.sent[id].peer == l.answered[id].from
      && l.answered[id].rtt == l.answered[id].at - l.sent[id].sentAt
  }

  predicate TimeoutsAreTrue(l: Ledger) {
    forall id :: id in l.timedOut ==> id in l.sent && l.sent[id].sentAt + 3 * SECOND <= l.timedOut[id]
  }

  /** Every probe sent has met exactly one end, and nothing else has met any. */
  ghost predicate Balanced(s: Status, l: Ledger) {
    && PendingIsSent(s, l) && AnswersAreTrue(l) && TimeoutsAreTrue(l)
    && forall id {:trigger Ends(s, l, id)} :: Ends(s, l, id) == if id in l.sent then 1 else 0
  }

  /** No nonce among the first i operations was sent before. */
  predicate NoncesFresh(s: Status, ops: seq<Op>, i: nat)
    requires i <= |ops|
  {
    i == 0 || (NoncesFresh(s, ops, i - 1) && NonceFresh(LedgerAt(s, ops, i - 1), ops[i - 1]))
  }

  predicate NonceFresh(l: Ledger, op: Op) {
    op.TickProbe? && op.nonce.Some? ==> op.nonce.value !in l.sent
  }

  lemma BookProbe(s: Status, l: Ledger, op: Op, id: string)
    requires Balanced(s, l) && op.TickProbe? && NonceFresh(l, op)
    ensures var (s1, l1) := (Apply(s, op), Book(l, s, op));
            Ends(s1, l1, id) == if id in l1.sent then 1 else 0
  {
    var (s1, p) := (Apply(s, op), Sent(s, op));
    assert Ends(s, l, id) == if id in l.sent then 1 else 0;
    BestIsListed(s, op.now, |s.peers|);
    if p.Some? {
      var best := p.value.peer;
      assert s1.latency[best].pending && s1.latency[best].probeId == op.nonce.value;
      if Waiting(s, id) {
        var q :| q in s.latency && s.latency[q].pending && s.latency[q].probeId == id;
        assert s1.latency[q] == s.latency[q];
      }
    }
  }

  lemma BookPong(s: Status, l: Ledger, op: Op, id: string)
    requires Balanced(s, l) && op.PongArrives?
    ensures var (s1, l1) := (Apply(s, op), Book(l, s, op));
            Ends(s1, l1, id) == if id in l1.sent then 1 else 0
  {
    var s1 := Apply(s, op);
    assert Ends(s, l, id) == if id in l.sent then 1 else 0;
    if Answers(s, op.from, op.id) {
      if Waiting(s, id) {
        var q :| q in s.latency && s.latency[q].pending && s.latency[q].probeId == id;
        assert q != op.from ==> s1.latency[q] == s.latency[q];
      }
      assert Ends(s, l, op.id) == 1;
    }
  }

  lemma BookExpire(s: Status, l: Ledger, op: Op, id: string)
    requires Balanced(s, l) && op.TickExpire?
    ensures var (s1, l1) := (Apply(s, op), Book(l, s, op));
            Ends(s1, l1, id) == if id in l1.sent then 1 else 0
  {
    var (s1, l1) := (Apply(s, op), Book(l, s, op));
    assert Ends(s, l, id) == if id in l.sent then 1 else 0;
    if Waiting(s, id) {
      var q :| q in s.latency && s.latency[q].pending && s.latency[q].probeId == id;
      if !Overdue(s.latency[q], op.now) {
        assert s1.latency[q] == s.latency[q];
      }
    }
  }

  lemma BookList(s: Status, l: Ledger, op: Op, id: string)
    requires Balanced(s, l) && op.ListArrives?
    ensures var (s1, l1) := (Apply(s, op), Book(l, s, op));
            Ends(s1, l1, id) == if id in l1.sent then 1 else 0
  {
    var (s1, l1) := (Apply(s, op), Book(l, s, op));
    assert Ends(s, l, id) == if id in l.sent then 1 else 0;
    if Waiting(s, id) {
      var q :| q in s.latency && s.latency[q].pending && s.latency[q].probeId == id;
      if q in Ids(op.peers) {
        assert s1.latency[q].pending && s1.latency[q].probeId == id;
      }
    }
  }

  lemma BookKeepsTruth(s: Status, l: Ledger, op: Op)
    requires Balanced(s, l) && NonceFresh(l, op)
    ensures PendingIsSent(Apply(s, op), Book(l, s, op)) && AnswersAreTrue(Book(l, s, op)) && TimeoutsAreTrue(Book(l, s, op))
  {
    if op.TickProbe? {
      BestIsListed(s, op.now, |s.peers|);
      if op.nonce.Some? {
        assert Ends(s, l, op.nonce.value) == 0;
      }
    }
  }

  lemma BookKeepsBalance(s: Status, l: Ledger, op: Op)
    requires Balanced(s, l) && NonceFresh(l, op)
    ensures Balanced(Apply(s, op), Book(l, s, op))
  {
    BookKeepsTruth(s, l, op);
    var (s1, l1) := (Apply(s, op), Book(l, s, op));
    forall id ensures Ends(s1, l1, id) == if id in l1.sent then 1 else 0 {
      match op
      case TickProbe(_, _) => BookProbe(s, l, op, id);
      case PongArrives(_, _, _) => BookPong(s, l, op, id);
      case TickExpire(_) => BookExpire(s, l, op, id);
      case ListArrives(_) => BookList(s, l, op, id);
    }
  }

  /**
   Over every run with fresh nonces each probe sent is waiting, answered, timed out or lost with
   its peer: exactly one of the four. An answer is from the peer the probe went to, and its
   round trip is the time of receipt minus the time of issue; a timeout is three seconds or more
   after the issue.
   */
  lemma {:induction false} ProbesBalance(s: Status, ops: seq<Op>, i: nat)
    requires JustJoined(s) && i <= |ops|
    requires NoncesFresh(s, ops, i)
    ensures Balanced(At(s, ops, i), LedgerAt(s, ops, i))
  {
    if i == 0 {
      StartsBalanced(s);
    } else {
      ProbesBalance(s, ops, i - 1);
      BookKeepsBalance(At(s, ops, i - 1), LedgerAt(s, ops, i - 1), ops[i - 1]);
    }
  }

  lemma StartsBalanced(s: Status)
    requires JustJoined(s)
    ensures Balanced(s, NO_PROBES)
  {
  }

  /** After a timeout check at `now` no probe waits that was sent three seconds ago or earlier. */
  lemma NoOldProbeWaits(s: Status, now: int, q: string)
    requires q in Apply(s, TickExpire(now)).latency && Apply(s, TickExpire(now)).latency[q].pending
    ensures q in s.latency && s.latency[q] == Apply(s, TickExpire(now)).latency[q] && now < s.latency[q].sentAt + 3 * SECOND
  {
  }

  /** A pong that comes late, again, or for a probe of another peer changes nothing. */
  lemma LatePongChangesNothing(s: Status, l: Ledger, from: string, id: string, now: int)
    requires Balanced(s, l)
    requires id in l.answered || id in l.timedOut || id in l.gone || id !in l.sent || l.sent[id].peer != from
    ensures RecordPong(s, from, id, now) == s
  {
    assert Ends(s, l, id) <= 1;
  }

  // ---------- spacing ----------

  /** Operation m sends a probe to peer p at time t. */
  predicate SendsAt(s: Status, ops: seq<Op>, m: nat, p: string, t: int)
    requires m < |ops|
  {
    var probe := Sent(At(s, ops, m), ops[m]);
    probe.Some? && probe.value.peer == p && probe.value.sentAt == t
  }

  predicate StaysListed(ops: seq<Op>, i: nat, j: nat, p: string)
    requires j <= |ops|
  {
    forall m :: i < m < j && ops[m].ListArrives? ==> p in Ids(ops[m].peers)
  }

  lemma ApplyKeepsNextProbe(s: Status, op: Op, p: string, t: int)
    requires p in s.latency && t <= s.latency[p].nextProbe
    requires op.ListArrives? ==> p in Ids(op.peers)
    ensures p in Apply(s, op).latency && t <= Apply(s, op).latency[p].nextProbe
  {
    if op.TickProbe? {
      BestIsListed(s, op.now, |s.peers|);
    }
  }

  lemma {:induction false} NextProbeStaysLate(s: Status, ops: seq<Op>, i: nat, k: nat, p: string, t: int)
    requires i < k <= |ops| && SendsAt(s, ops, i, p, t) && StaysListed(ops, i, k, p)
    ensures p in At(s, ops, k).latency && t + PROBE_INTERVAL <= At(s, ops, k).latency[p].nextProbe
    decreases k
  {
    if i + 1 < k {
      NextProbeStaysLate(s, ops, i, k - 1, p, t);
      ApplyKeepsNextProbe(At(s, ops, k - 1), ops[k - 1], p, t + PROBE_INTERVAL);
    }
  }

  /** Two probes of a peer that stays listed are at least ten seconds apart, whatever the clock does between. */
  lemma ProbesAreSpaced(s: Status, ops: seq<Op>, i: nat, j: nat, p: string, t: int, u: int)
    requires i < j < |ops| && SendsAt(s, ops, i, p, t) && SendsAt(s, ops, j, p, u) && StaysListed(ops, i, j, p)
    ensures t + 10 * SECOND <= u
  {
    NextProbeStaysLate(s, ops, i, j, p, t);
    BestIsListed(At(s, ops, j), u, |At(s, ops, j).peers|);
  }

  // ---------- fairness between two list updates ----------

  predicate NoListArrives(ops: seq<Op>) {
    forall m :: 0 <= m < |ops| ==> !ops[m].ListArrives?
  }

  /** Probe ticks come at times that do not go backwards, the first of them after `from`. */
  predicate TicksInOrder(ops: seq<Op>, from: int) {
    && (forall m :: 0 <= m < |ops| && ops[m].TickProbe? ==> from <= ops[m].now)
    && (forall m, n :: 0 <= m < n < |ops| && ops[m].TickProbe? && ops[n].TickProbe? ==> ops[m].now <= ops[n].now)
  }

  /** As after a list update: every peer's order is its place in the list. */
  predicate OrdersReset(s: Status) {
    forall id :: id in Ids(s.peers) ==> id in s.latency && s.latency[id].order < |s.peers|
  }

  /** Tick times that are never the same. */
  predicate TicksDiffer(ops: seq<Op>) {
    forall m, n :: 0 <= m < n < |ops| && ops[m].TickProbe? && ops[n].TickProbe? ==> ops[m].now != ops[n].now
  }

  lemma UpdateResetsOrders(s: Status, peers: seq<PeerInfo>)
    ensures OrdersReset(UpdatePeers(s, peers))
  {
  }

  lemma JoinResetsOrders(s: Status)
    requires JustJoined(s)
    ensures OrdersReset(s)
  {
  }

  lemma {:induction false} ListStays(s: Status, ops: seq<Op>, k: nat)
    requires NoListArrives(ops) && k <= |ops|
    ensures At(s, ops, k).peers == s.peers
  {
    if k > 0 {
      ListStays(s, ops, k - 1);
    }
  }

  /** A peer's order changes only by a probe, to the time of that probe. */
  lemma {:induction false} OrderComesFromProbe(s: Status, ops: seq<Op>, k: nat, q: string) returns (m: nat)
    requires NoListArrives(ops) && k <= |ops|
    requires Entry(At(s, ops, k), q).order != Entry(s, q).order
    ensures m < k && SendsAt(s, ops, m, q, Entry(At(s, ops, k), q).order)
  {
    if Entry(At(s, ops, k), q).order == Entry(At(s, ops, k - 1), q).order {
      m := OrderComesFromProbe(s, ops, k - 1, q);
    } else {
      m := k - 1;
    }
  }

  lemma {:induction false} OrderStaysLate(s: Status, ops: seq<Op>, i: nat, k: nat, p: string, t: int)
    requires NoListArrives(ops) && i < k <= |ops| && SendsAt(s, ops, i, p, t)
    requires forall m :: i < m < k && ops[m].TickProbe? ==> t <= ops[m].now
    ensures t <= Entry(At(s, ops, k), p).order
    decreases k
  {
    if i + 1 < k {
      OrderStaysLate(s, ops, i, k - 1, p, t);
    }
  }

  /**
   Between two list updates nobody is passed over: when p is probed twice, every other peer that
   is eligible at the second probe was itself probed before it at a time no earlier than the
   first probe of p; so after that probe, unless two ticks carried the very same time.
   */
  lemma NobodyIsBypassed(s: Status, ops: seq<Op>, i: nat, j: nat, p: string, t: int, u: int, q: nat) returns (m: nat, v: int)
    requires OrdersReset(s) && Named(s.peers) && NoListArrives(ops) && TicksInOrder(ops, |s.peers|)
    requires i < j < |ops| && SendsAt(s, ops, i, p, t) && SendsAt(s, ops, j, p, u)
    requires q < |s.peers| && s.peers[q].id != p && Eligible(At(s, ops, j), s.peers[q], u)
    ensures m < j && m != i && SendsAt(s, ops, m, s.peers[q].id, v) && t <= v
    ensures m < i ==> v == t
    ensures TicksDiffer(ops) ==> i < m
  {
    var sj, qid := At(s, ops, j), s.peers[q].id;
    ListStays(s, ops, j);
    OrderStaysLate(s, ops, i, j, p, t);
    var b := BestIsLeast(sj, u, |sj.peers|);
    v := Entry(sj, qid).order;
    assert t <= Entry(sj, p).order <= v;
    assert qid in Ids(s.peers);
    m := OrderComesFromProbe(s, ops, j, qid);
  }

  /** A run from place k on is a run of its own. */
  lemma {:induction false} AtSuffix(s: Status, ops: seq<Op>, k: nat, e: nat, i: nat)
    requires k + i <= e <= |ops|
    ensures At(At(s, ops, k), ops[k..e], i) == At(s, ops, k + i)
  {
    hide Apply;
    if i > 0 {
      AtSuffix(s, ops, k, e, i - 1);
      assert ops[k..e][i - 1] == ops[k + i - 1];
    }
  }

  lemma SendsSuffix(s: Status, ops: seq<Op>, k: nat, e: nat, i: nat, p: string, t: int)
    requires k <= i < e <= |ops|
    ensures SendsAt(At(s, ops, k), ops[k..e], i - k, p, t) <==> SendsAt(s, ops, i, p, t)
  {
    hide Apply, Sent, At;
    AtSuffix(s, ops, k, e, i - k);
    assert ops[k..e][i - k] == ops[i];
  }

  /** Orders are reset at the join and by every list update. */
  lemma ResetAt(s: Status, ops: seq<Op>, k: nat)
    requires JustJoined(s) && k <= |ops| && (k == 0 || ops[k - 1].ListArrives?)
    ensures OrdersReset(At(s, ops, k))
  {
    if k == 0 {
      JoinResetsOrders(s);
    } else {
      UpdateResetsOrders(At(s, ops, k - 1), ops[k - 1].peers);
    }
  }

  /**
   The same of any stretch of any connection: it begins at the join or with a list update and
   runs, without another, to place e. Whoever is eligible when p is probed for the second time in
   it was probed in it as well, since p's first probe.
   */
  lemma FairBetweenLists(s: Status, ops: seq<Op>, k: nat, e: nat, i: nat, j: nat, p: string, t: int, u: int, q: nat)
    returns (m: nat, v: int)
    requires JustJoined(s) && k <= i < j < e <= |ops| && (k == 0 || ops[k - 1].ListArrives?)
    requires var peers := At(s, ops, k).peers;
             Named(peers) && NoListArrives(ops[k..e]) && TicksInOrder(ops[k..e], |peers|) && TicksDiffer(ops[k..e])
             && q < |peers| && peers[q].id != p && Eligible(At(s, ops, j), peers[q], u)
    requires SendsAt(s, ops, i, p, t) && SendsAt(s, ops, j, p, u)
    ensures i < m < j && SendsAt(s, ops, m, At(s, ops, k).peers[q].id, v) && t <= v
  {
    hide SendsAt, Eligible, TicksInOrder, TicksDiffer, NoListArrives, Named, Apply, At, Entry;
    var s1 := At(s, ops, k);
    ResetAt(s, ops, k);
    SendsSuffix(s, ops, k, e, i, p, t);
    SendsSuffix(s, ops, k, e, j, p, u);
    AtSuffix(s, ops, k, e, j - k);
    m, v := NobodyIsBypassed(s1, ops[k..e], i - k, j - k, p, t, u, q);
    m := m + k;
    SendsSuffix(s, ops, k, e, m, s1.peers[q].id, v);
  }

  // ---------- everybody who is due is probed ----------

  /** Over a connection nothing changes who and where the client is. */
  lemma {:induction false} ClientStays(s: Status, ops: seq<Op>, k: nat)
    requires k <= |ops|
    ensures var s1 := At(s, ops, k); s1.connected == s.connected && s1.self == s.self && s1.ip == s.ip
  {
    if k > 0 {
      ClientStays(s, ops, k - 1);
    }
  }

  /** Operations at which a probe could be sent and the peer at place q is due. */
  predicate DueAtTicks(s: Status, ops: seq<Op>, ticks: seq<nat>, q: nat) {
    && (forall a, b :: 0 <= a < b < |ticks| ==> ticks[a] < ticks[b])
    && (forall a :: 0 <= a < |ticks| ==>
          && ticks[a] < |ops| && ops[ticks[a]].TickProbe? && ops[ticks[a]].nonce.Some?
          && q < |At(s, ops, ticks[a]).peers| && Due(At(s, ops, ticks[a]), q, ops[ticks[a]].now))
  }

  /** Such an operation does send a probe, to somebody in the list. */
  lemma SomebodyIsProbed(s: Status, ops: seq<Op>, m: nat, q: nat) returns (i: nat)
    requires NoListArrives(ops) && Named(s.peers) && s.connected && s.self != ""
    requires m < |ops| && ops[m].TickProbe? && ops[m].nonce.Some? && q < |s.peers|
    requires At(s, ops, m).peers == s.peers && Due(At(s, ops, m), q, ops[m].now)
    ensures i < |s.peers| && SendsAt(s, ops, m, s.peers[i].id, ops[m].now)
  {
    ClientStays(s, ops, m);
    i := ProbeSentIff(At(s, ops, m), ops[m].now, ops[m].nonce);
  }

  /** The places probed at the given operations. */
  lemma {:induction false} PlacesProbed(s: Status, ops: seq<Op>, ticks: seq<nat>, q: nat) returns (places: seq<nat>)
    requires NoListArrives(ops) && Named(s.peers) && s.connected && s.self != "" && q < |s.peers| && DueAtTicks(s, ops, ticks, q)
    ensures |places| == |ticks|
    ensures forall a :: 0 <= a < |ticks| ==>
              places[a] < |s.peers| && SendsAt(s, ops, ticks[a], s.peers[places[a]].id, ops[ticks[a]].now)
  {
    hide SendsAt;
    places := [];
    if ticks != [] {
      var n := |ticks| - 1;
      var before := PlacesProbed(s, ops, ticks[..n], q);
      ListStays(s, ops, ticks[n]);
      var i := SomebodyIsProbed(s, ops, ticks[n], q);
      places := before + [i];
    }
  }

  /** As many places as there are in the list, one of them missing, do not all differ. */
  lemma Pigeonhole(places: seq<nat>, n: nat, q: nat) returns (a: nat, b: nat)
    requires q < n && |places| == n && forall k :: 0 <= k < n ==> places[k] < n && places[k] != q
    ensures a < b < n && places[a] == places[b]
  {
    var others := Range(0, n) - {q};
    assert |others| == n - 1;
    if NoDuplicates(places) {
      DistinctSize(places, others);
      assert false;
    }
    a, b :| 0 <= a < b < |places| && places[a] == places[b];
  }

  lemma BetweenTwo(s: Status, ops: seq<Op>, i: nat, j: nat, p: string, q: nat) returns (m: nat, v: int)
    requires OrdersReset(s) && Named(s.peers) && NoListArrives(ops) && TicksInOrder(ops, |s.peers|) && TicksDiffer(ops)
    requires i < j < |ops| && ops[i].TickProbe? && ops[j].TickProbe? && q < |At(s, ops, j).peers| && Due(At(s, ops, j), q, ops[j].now)
    requires SendsAt(s, ops, i, p, ops[i].now) && SendsAt(s, ops, j, p, ops[j].now) && q < |s.peers| && s.peers[q].id != p
    ensures i < m < j && SendsAt(s, ops, m, s.peers[q].id, v)
  {
    ListStays(s, ops, j);
    assert Eligible(At(s, ops, j), s.peers[q], ops[j].now);
    hide SendsAt, TicksInOrder, TicksDiffer, NoListArrives, Named, OrdersReset, At, Apply, Due;
    m, v := NobodyIsBypassed(s, ops, i, j, p, ops[i].now, ops[j].now, q);
  }

  /**
   Nobody waits for long. Between two list updates, of any n ticks with nonces at which a peer is
   due, n being the length of the list, the peer is probed no later than at the last.
   */
  lemma DueIsProbed(s: Status, ops: seq<Op>, ticks: seq<nat>, q: nat) returns (m: nat, v: int)
    requires OrdersReset(s) && Named(s.peers) && NoListArrives(ops) && TicksInOrder(ops, |s.peers|) && TicksDiffer(ops)
    requires s.connected && s.self != "" && q < |s.peers| && |ticks| == |s.peers| && DueAtTicks(s, ops, ticks, q)
    ensures m < |ops| && ticks[0] <= m <= ticks[|ticks| - 1] && SendsAt(s, ops, m, s.peers[q].id, v)
  {
    var places := PlacesProbed(s, ops, ticks, q);
    hide SendsAt, TicksInOrder, TicksDiffer, NoListArrives, Named, OrdersReset, At, Apply, Due;
    if k :| 0 <= k < |ticks| && s.peers[places[k]].id == s.peers[q].id {
      m, v := ticks[k], ops[ticks[k]].now;
    } else {
      var a, b := Pigeonhole(places, |s.peers|, q);
      m, v := BetweenTwo(s, ops, ticks[a], ticks[b], s.peers[places[a]].id, q);
    }
  }

  // ---------- what the status shows is what happened ----------

  /** What became of the last probe of a peer since it was listed, and the last round trip measured. */
  datatype Story = Never | Out(probe: Probe) | Back(probe: Probe) | Late(probe: Probe)
  datatype Told = Told(story: Story, rtt: int)

  /** The story of peer q goes on with one operation; p is the probe it sends, if any. */
  function Tell(t: Told, op: Op, p: Option<Probe>, q: string): Told {
    match op
    case ListArrives(peers) => if q in Ids(peers) then t else Told(Never, 0)
    case TickProbe(_, _) => if p.Some? && p.value.peer == q then t.(story := Out(p.value)) else t
    case PongArrives(from, id, now) =>
      if from == q && t.story.Out? && t.story.probe.id == id then Told(Back(t.story.probe), now - t.story.probe.sentAt) else t
    case TickExpire(now) =>
      if t.story.Out? && now - t.story.probe.sentAt >= 3 * SECOND then t.(story := Late(t.story.probe)) else t
  }

  function ToldAt(s: Status, ops: seq<Op>, i: nat, q: string): Told
    requires i <= |ops|
  {
    if i == 0 then Told(Never, 0)
    else Tell(ToldAt(s, ops, i - 1, q), ops[i - 1], Sent(At(s, ops, i - 1), ops[i - 1]), q)
  }

  /** The entry shows the story: state, round trip, whether it waits and for what, and when the next probe is due. */
  predicate Shows(e: Latency, t: Told) {
    && e.rtt == t.rtt
    && match t.story
       case Never => e.phase.Unknown? && !e.pending && e.nextProbe == ZERO_TIME
       case Out(p) => e.phase.Pending? && e.pending && e.probeId == p.id && e.sentAt == p.sentAt && e.nextProbe == p.sentAt + 10 * SECOND
       case Back(p) => e.phase.Answered? && !e.pending && e.nextProbe == p.sentAt + 10 * SECOND
       case Late(p) => e.phase.TimedOut? && !e.pending && e.nextProbe == p.sentAt + 10 * SECOND
  }

  predicate ShowsAll(s: Status, q: string, t: Told) {
    && s.latency.Keys == Ids(s.peers)
    && if q in s.latency then Shows(s.latency[q], t) else t == Told(Never, 0)
  }

  lemma ApplyShows(s: Status, op: Op, q: string, t: Told)
    requires ShowsAll(s, q, t)
    ensures ShowsAll(Apply(s, op), q, Tell(t, op, Sent(s, op), q))
  {
    match op
    case TickProbe(now, nonce) =>
      BestIsListed(s, now, |s.peers|);
      hide Best;
    case ListArrives(peers) =>
    case TickExpire(now) =>
    case PongArrives(from, id, now) =>
  }

  /**
   In every run the status shows of each listed peer exactly what happened since it was listed:
   never probed, waiting for its last probe, or that probe answered or late; the last round trip;
   and the next probe due ten seconds after the last.
   */
  lemma {:induction false} StatusTellsStory(s: Status, ops: seq<Op>, i: nat, q: string)
    requires JustJoined(s) && i <= |ops|
    ensures ShowsAll(At(s, ops, i), q, ToldAt(s, ops, i, q))
  {
    if i > 0 {
      StatusTellsStory(s, ops, i - 1, q);
      ApplyShows(At(s, ops, i - 1), ops[i - 1], q, ToldAt(s, ops, i - 1, q));
      hide Apply, Tell, Sent, ShowsAll;
    }
  }
}
