/**
 The control stream of one peer: the join accept, then two goroutines that write under one lock.

 One takes finished notifications off a bounded queue and writes each with a single Write; the
 other answers keep-alive pings with WriteMessage, which makes one Write for the header and one
 for the payload. Every Write is a step of its own, so a run interleaves them in every way the
 lock allows.
 */
module ControlStream {
  import opened Basics
  import opened Wire

  /** What a writer is doing: nothing, waiting for the lock, or holding it with writes still to make. */
  datatype Writer =
    | Idle
    | Waiting(msg: Option<Message>, chunks: seq<seq<byte>>)
    | Writing(msg: Option<Message>, chunks: seq<seq<byte>>)

  /**
   stream: all bytes written so far; queue: the notifications not taken yet.
   History: offered are the whole messages accepted into the queue, sent all messages completely
   written after the accept, notified and replied those of each goroutine.
   */
  datatype Session = Session(
    stream: seq<byte>, queue: seq<seq<byte>>, notifier: Writer, replier: Writer,
    accept: Message, offered: seq<Message>, sent: seq<Message>, notified: seq<Message>, replied: seq<Message>)

  datatype Action =
    | Offer(typ: byte, payload: seq<byte>)
    | Take
    | Reply(typ: byte, payload: seq<byte>)
    | Acquire(replies: bool)
    | Write(replies: bool)
    | Release(replies: bool)

  /** buildPeerListMsg and MarshalMessage: one whole message, or nothing when WriteMessage refuses it. */
  function Marshal(m: Message): seq<byte> {
    if Writable(m) then Encode(m) else []
  }

  /** The message a queued notification is, None when it is empty. */
  function Parse(bytes: seq<byte>): Option<Message> {
    var (m, rest) := Decode(bytes, MAX_CONTROL_SIZE);
    if m.Ok? && rest == [] then Some(m.value) else None
  }

  /** The writes WriteMessage makes. */
  function Chunks(m: Message): seq<seq<byte>>
    requires Writable(m)
  {
    if m.payload == [] then [Header(m)] else [Header(m), m.payload]
  }

  predicate LockFree(s: Session) {
    !s.notifier.Writing? && !s.replier.Writing?
  }

  function Get(s: Session, replies: bool): Writer {
    if replies then s.replier else s.notifier
  }

  function Set(s: Session, replies: bool, w: Writer): Session {
    if replies then s.(replier := w) else s.(notifier := w)
  }

  /** The histories after writer `replies` has completed a message. */
  function Complete(s: Session, replies: bool, m: Message): Session {
    if replies then s.(sent := s.sent + [m], replied := s.replied + [m])
    else s.(sent := s.sent + [m], notified := s.notified + [m])
  }

  function Opt(o: Option<Message>): seq<Message> {
    if o.Some? then [o.value] else []
  }

  function Step(s: Session, a: Action): Session {
    match a
    case Offer(typ, payload) =>
      var m := Message(typ, payload);
      if |s.queue| < NOTIFY_CAPACITY then
        s.(queue := s.queue + [Marshal(m)], offered := s.offered + if Writable(m) then [m] else [])
      else s
    case Take =>
      if s.notifier.Idle? && s.queue != [] then
        s.(queue := s.queue[1..], notifier := Waiting(Parse(s.queue[0]), [s.queue[0]]))
      else s
    case Reply(typ, payload) =>
      var m := Message(typ, payload);
      if s.replier.Idle? && Writable(m) then s.(replier := Waiting(Some(m), Chunks(m))) else s
    case Acquire(r) =>
      var w := Get(s, r);
      if w.Waiting? && LockFree(s) then Set(s, r, Writing(w.msg, w.chunks)) else s
    case Write(r) =>
      var w := Get(s, r);
      if w.Writing? && w.chunks != [] then
        var s1 := Set(s, r, Writing(w.msg, w.chunks[1..])).(stream := s.stream + w.chunks[0]);
        if |w.chunks| == 1 && w.msg.Some? then Complete(s1, r, w.msg.value) else s1
      else s
    case Release(r) =>
      var w := Get(s, r);
      if w.Writing? && w.chunks == [] then Set(s, r, Idle) else s
  }

  /** Right after the join accept was written, before the goroutines start. */
  function Start(accept: Message): Session
    requires Writable(accept)
  {
    Session(Encode(accept), [], Idle, Idle, accept, [], [], [], [])
  }

  function Run(s: Session, acts: seq<Action>): Session
    decreases |acts|
  {
    if acts == [] then s else Run(Step(s, acts[0]), acts[1..])
  }

  // ---------- merges ----------

  /** `all` is a merge of a and b: each keeps its order. */
  predicate Merge(all: seq<Message>, a: seq<Message>, b: seq<Message>) {
    if all == [] then a == [] && b == []
    else
      var (n, m) := (|all| - 1, all[|all| - 1]);
      || (a != [] && a[|a| - 1] == m && Merge(all[..n], a[..|a| - 1], b))
      || (b != [] && b[|b| - 1] == m && Merge(all[..n], a, b[..|b| - 1]))
  }

  lemma MergeAppends(all: seq<Message>, a: seq<Message>, b: seq<Message>, m: Message)
    requires Merge(all, a, b)
    ensures Merge(all + [m], a + [m], b) && Merge(all + [m], a, b + [m])
  {
    assert (all + [m])[..|all|] == all && (a + [m])[..|a|] == a && (b + [m])[..|b|] == b;
  }

  // ---------- the invariant ----------

  function Join(chunks: seq<seq<byte>>): seq<byte> {
    if chunks == [] then [] else chunks[0] + Join(chunks[1..])
  }

  predicate Solid(chunks: seq<seq<byte>>) {
    forall i :: 0 <= i < |chunks| ==> chunks[i] != []
  }

  /** A waiting writer has all of its message still to write. */
  predicate WaitingOk(w: Writer) {
    w.Waiting? ==>
      && w.chunks != []
      && (w.msg.Some? ==> Writable(w.msg.value) && Solid(w.chunks) && Join(w.chunks) == Encode(w.msg.value))
      && (w.msg.None? ==> w.chunks == [[]])
  }

  /** The part of the message in progress that is on the stream, given what is still to write. */
  predicate WritingOk(w: Writer, tail: seq<byte>) {
    w.Writing? ==>
      if w.chunks == [] || w.msg.None? then tail == [] && (w.msg.None? ==> w.chunks == [] || w.chunks == [[]])
      else Writable(w.msg.value) && Solid(w.chunks) && tail + Join(w.chunks) == Encode(w.msg.value)
  }

  /** The message a writer has begun and not completed. */
  function InHand(w: Writer): seq<Message> {
    if w.Waiting? || (w.Writing? && w.chunks != []) then Opt(w.msg) else []
  }

  /** The whole messages in the queue. */
  function Queued(queue: seq<seq<byte>>): seq<Message> {
    if queue == [] then [] else Opt(Parse(queue[0])) + Queued(queue[1..])
  }

  predicate QueueOk(queue: seq<seq<byte>>) {
    forall i :: 0 <= i < |queue| ==> WholeOrEmpty(queue[i])
  }

  predicate WholeOrEmpty(bytes: seq<byte>) {
    || bytes == []
    || (Parse(bytes).Some? && Writable(Parse(bytes).value) && bytes == Encode(Parse(bytes).value))
  }

  /** `tail` is what follows the completed messages on the stream. */
  predicate StreamOk(s: Session, tail: seq<byte>) {
    && Writable(s.accept) && AllWritable(s.sent)
    && s.stream == EncodeAll([s.accept] + s.sent) + tail
    && (LockFree(s) ==> tail == [])
    && WritingOk(s.notifier, tail) && WritingOk(s.replier, tail)
  }

  predicate Inv(s: Session, tail: seq<byte>) {
    && StreamOk(s, tail)
    && |s.queue| <= NOTIFY_CAPACITY && QueueOk(s.queue) && WaitingOk(s.notifier) && WaitingOk(s.replier)
    && !(s.notifier.Writing? && s.replier.Writing?)
    && s.offered == s.notified + InHand(s.notifier) + Queued(s.queue)
    && Merge(s.sent, s.notified, s.replied)
  }

  lemma MarshalIsWhole(m: Message)
    ensures WholeOrEmpty(Marshal(m))
    ensures Opt(Parse(Marshal(m))) == if Writable(m) then [m] else []
  {
    if Writable(m) {
      DecodeOfEncode(m, [], MAX_CONTROL_SIZE);
      assert Encode(m) + [] == Encode(m);
    }
  }

  lemma {:induction false} QueuedAppends(queue: seq<seq<byte>>, bytes: seq<byte>)
    ensures Queued(queue + [bytes]) == Queued(queue) + Opt(Parse(bytes))
  {
    if queue == [] {
      assert queue + [bytes] == [bytes];
      assert Queued([bytes]) == Opt(Parse(bytes)) + [];
    } else {
      QueuedAppends(queue[1..], bytes);
      assert (queue + [bytes])[1..] == queue[1..] + [bytes];
    }
  }

  lemma ChunksJoin(m: Message)
    requires Writable(m)
    ensures Join(Chunks(m)) == Encode(m)
  {
    if m.payload == [] {
      assert Chunks(m)[1..] == [];
    } else {
      assert Chunks(m)[1..] == [m.payload];
      assert Join([m.payload]) == m.payload + Join([]);
    }
  }

  lemma OfferKeeps(s: Session, tail: seq<byte>, typ: byte, payload: seq<byte>)
    requires Inv(s, tail)
    ensures Inv(Step(s, Offer(typ, payload)), tail)
  {
    var m := Message(typ, payload);
    MarshalIsWhole(m);
    QueuedAppends(s.queue, Marshal(m));
  }

  lemma TakenIsWhole(bytes: seq<byte>)
    requires WholeOrEmpty(bytes)
    ensures WaitingOk(Waiting(Parse(bytes), [bytes]))
  {
    assert Join([bytes]) == bytes + Join([]);
    if bytes == [] {
      assert Decode([], MAX_CONTROL_SIZE).0.Err?;
    }
  }

  lemma Regroup(a: seq<Message>, b: seq<Message>, c: seq<Message>)
    ensures a + [] + (b + c) == a + b + c
  {
  }

  lemma TakeKeeps(s: Session, tail: seq<byte>)
    requires Inv(s, tail)
    ensures Inv(Step(s, Take), tail)
  {
    if s.notifier.Idle? && s.queue != [] {
      TakenIsWhole(s.queue[0]);
      Regroup(s.notified, Opt(Parse(s.queue[0])), Queued(s.queue[1..]));
    }
  }

  lemma ReplyKeeps(s: Session, tail: seq<byte>, typ: byte, payload: seq<byte>)
    requires Inv(s, tail)
    ensures Inv(Step(s, Reply(typ, payload)), tail)
  {
    var m := Message(typ, payload);
    if Writable(m) {
      ChunksJoin(m);
    }
  }

  lemma AcquireKeeps(s: Session, tail: seq<byte>, r: bool)
    requires Inv(s, tail)
    ensures Inv(Step(s, Acquire(r)), tail)
  {
  }

  lemma ReleaseKeeps(s: Session, tail: seq<byte>, r: bool)
    requires Inv(s, tail)
    ensures Inv(Step(s, Release(r)), tail)
  {
  }

  /** Completing a message puts exactly its encoding on the stream. */
  lemma CompleteStream(accept: Message, sent: seq<Message>, tail: seq<byte>, chunk: seq<byte>, m: Message)
    requires Writable(accept) && AllWritable(sent) && Writable(m) && tail + chunk == Encode(m)
    ensures AllWritable(sent + [m]) && AllWritable([accept] + sent) && AllWritable([accept] + (sent + [m]))
    ensures EncodeAll([accept] + sent) + tail + chunk == EncodeAll([accept] + (sent + [m]))
  {
    EncodeAllAppend([accept] + sent, m);
    assert [accept] + sent + [m] == [accept] + (sent + [m]);
    assert EncodeAll([accept] + sent) + tail + chunk == EncodeAll([accept] + sent) + (tail + chunk);
  }

  /** The write that completes a message. */
  lemma LastWrite(s: Session, tail: seq<byte>, r: bool)
    requires Inv(s, tail) && Get(s, r).Writing? && |Get(s, r).chunks| == 1 && Get(s, r).msg.Some?
    ensures Inv(Step(s, Write(r)), [])
  {
    hide Encode, EncodeAll, Merge, Queued, Parse, QueueOk, Solid, Writable, AllWritable;
    var w := Get(s, r);
    var (chunk, m, s1) := (w.chunks[0], w.msg.value, Step(s, Write(r)));
    assert Join(w.chunks) == chunk + Join([]);
    CompleteStream(s.accept, s.sent, tail, chunk, m);
    MergeAppends(s.sent, s.notified, s.replied, m);
    assert s1.stream == EncodeAll([s1.accept] + s1.sent) + [];
  }

  /** A write that does not. */
  lemma EarlierWrite(s: Session, tail: seq<byte>, r: bool)
    requires Inv(s, tail) && Get(s, r).Writing? && |Get(s, r).chunks| > 1 && Get(s, r).msg.Some?
    ensures Inv(Step(s, Write(r)), tail + Get(s, r).chunks[0])
  {
    hide Encode, EncodeAll, Merge, Queued, Parse;
    var w := Get(s, r);
    var (chunk, rest) := (w.chunks[0], w.chunks[1..]);
    assert tail + (chunk + Join(rest)) == tail + chunk + Join(rest);
    assert EncodeAll([s.accept] + s.sent) + tail + chunk == EncodeAll([s.accept] + s.sent) + (tail + chunk);
  }

  lemma EmptyWrite(s: Session, tail: seq<byte>, r: bool)
    requires Inv(s, tail) && Get(s, r).Writing? && Get(s, r).chunks != [] && Get(s, r).msg.None?
    ensures Inv(Step(s, Write(r)), tail)
  {
    assert s.stream + [] == s.stream;
  }

  lemma WriteKeeps(s: Session, tail: seq<byte>, r: bool) returns (tail1: seq<byte>)
    requires Inv(s, tail)
    ensures Inv(Step(s, Write(r)), tail1)
  {
    tail1 := tail;
    var w := Get(s, r);
    if w.Writing? && w.chunks != [] {
      if w.msg.None? {
        EmptyWrite(s, tail, r);
      } else if |w.chunks| == 1 {
        tail1 := [];
        LastWrite(s, tail, r);
      } else {
        tail1 := tail + w.chunks[0];
        EarlierWrite(s, tail, r);
      }
    }
  }

  lemma StepKeeps(s: Session, tail: seq<byte>, a: Action) returns (tail1: seq<byte>)
    requires Inv(s, tail)
    ensures Inv(Step(s, a), tail1)
  {
    tail1 := tail;
    match a
    case Offer(typ, payload) => OfferKeeps(s, tail, typ, payload);
    case Take => TakeKeeps(s, tail);
    case Reply(typ, payload) => ReplyKeeps(s, tail, typ, payload);
    case Acquire(r) => AcquireKeeps(s, tail, r);
    case Write(r) => tail1 := WriteKeeps(s, tail, r);
    case Release(r) => ReleaseKeeps(s, tail, r);
  }

  lemma {:induction false} RunKeeps(s: Session, tail: seq<byte>, acts: seq<Action>) returns (tail1: seq<byte>)
    requires Inv(s, tail)
    ensures Inv(Run(s, acts), tail1)
    ensures Run(s, acts).accept == s.accept
    decreases |acts|
  {
    hide Inv;
    tail1 := tail;
    if acts != [] {
      var next := StepKeeps(s, tail, acts[0]);
      tail1 := RunKeeps(Step(s, acts[0]), next, acts[1..]);
    }
  }

  /** The bytes of a message in progress, as far as they are on the stream: never a whole message. */
  lemma UnfinishedWriter(w: Writer, tail: seq<byte>)
    requires w.Writing? && WritingOk(w, tail) && tail != []
    ensures w.msg.Some? && Writable(w.msg.value) && tail < Encode(w.msg.value)
  {
    hide Encode, Writable;
    assert w.chunks[0] != [];
    assert Join(w.chunks) == w.chunks[0] + Join(w.chunks[1..]);
    assert tail < tail + Join(w.chunks);
  }

  lemma TailIsUnfinished(s: Session, tail: seq<byte>)
    requires Inv(s, tail) && tail != []
    ensures exists m :: Writable(m) && tail < Encode(m)
  {
    var w := if s.notifier.Writing? then s.notifier else s.replier;
    hide Encode, EncodeAll, Merge, Queued, QueueOk, WaitingOk, Writable;
    UnfinishedWriter(w, tail);
  }

  /** Reading the whole stream gives exactly the completed messages. */
  lemma WholeStream(s: Session, tail: seq<byte>)
    requires Inv(s, tail)
    ensures DecodeAll(s.stream, MAX_CONTROL_SIZE).0 == [s.accept] + s.sent
    ensures EndsEarly(DecodeAll(s.stream, MAX_CONTROL_SIZE).1)
  {
    var ms := [s.accept] + s.sent;
    ReadBack(ms, s.stream, tail, MAX_CONTROL_SIZE);
    if tail != [] {
      TailIsUnfinished(s, tail);
      var m :| Writable(m) && tail < Encode(m);
      assert tail == Encode(m)[..|tail|];
      DecodeAllCut(m, |tail|, MAX_CONTROL_SIZE);
    }
    assert ms + [] == ms;
  }

  /** Reading any part of it from the start gives some of them, in order. */
  lemma CutWholeStream(s: Session, tail: seq<byte>, k: nat) returns (n: nat)
    requires Inv(s, tail) && k < |s.stream|
    ensures n <= 1 + |s.sent| && DecodeAll(s.stream[..k], MAX_CONTROL_SIZE).0 == ([s.accept] + s.sent)[..n]
    ensures EndsEarly(DecodeAll(s.stream[..k], MAX_CONTROL_SIZE).1)
  {
    var ms := [s.accept] + s.sent;
    if tail == [] {
      n := CutStream(ms, s.stream[..k], MAX_CONTROL_SIZE);
    } else {
      TailIsUnfinished(s, tail);
      var m :| Writable(m) && tail < Encode(m);
      EncodeAllAppend(ms, m);
      assert s.stream[..k] <= EncodeAll(ms + [m]) by {
        assert Encode(m)[..|tail|] == tail;
        assert EncodeAll(ms + [m])[..k] == s.stream[..k];
      }
      n := CutStream(ms + [m], s.stream[..k], MAX_CONTROL_SIZE);
      assert (ms + [m])[..n] == ms[..n];
    }
  }

  /**
   For every interleaving of the two writers, wherever the client's reading stands: it has
   decoded a prefix of the join accept followed by the messages sent, whole and in order, and
   met no error; and all of them once it has read everything. The messages sent are a merge of
   the replies and the notifications, each in its own order, and the notifications are the first
   of those accepted into the queue, none missing, repeated or torn.
   */
  lemma ClientReadsMerge(accept: Message, acts: seq<Action>, k: nat) returns (n: nat)
    requires Writable(accept) && k <= |Run(Start(accept), acts).stream|
    ensures var s := Run(Start(accept), acts);
            && n <= 1 + |s.sent| && (k == |s.stream| ==> n == 1 + |s.sent|)
            && DecodeAll(s.stream[..k], MAX_CONTROL_SIZE).0 == ([accept] + s.sent)[..n]
            && EndsEarly(DecodeAll(s.stream[..k], MAX_CONTROL_SIZE).1)
            && Merge(s.sent, s.notified, s.replied)
            && s.notified <= s.offered && |s.queue| <= 16
            && (s.queue == [] && s.notifier.Idle? ==> s.notified == s.offered)
  {
    hide Encode;
    StartOk(accept);
    var tail := RunKeeps(Start(accept), [], acts);
    var s := Run(Start(accept), acts);
    if k == |s.stream| {
      WholeStream(s, tail);
      n := 1 + |s.sent|;
      assert s.stream[..k] == s.stream && ([accept] + s.sent)[..n] == [accept] + s.sent;
    } else {
      n := CutWholeStream(s, tail, k);
    }
  }

  lemma StartOk(accept: Message)
    requires Writable(accept)
    ensures Inv(Start(accept), [])
  {
    assert [accept] + [] == [accept];
    assert EncodeAll([accept]) == Encode(accept) + EncodeAll([]);
  }

  // ---------- nothing gets stuck ----------

  /** A notification is accepted exactly when it is writable and fewer than 16 are queued; else nothing is offered. */
  lemma OfferAnswers(s: Session, typ: byte, payload: seq<byte>)
    ensures var (s1, m) := (Step(s, Offer(typ, payload)), Message(typ, payload));
            s1.offered == if |s.queue| < 16 && Writable(m) then s.offered + [m] else s.offered
  {
  }

  /** A reply is begun exactly when the other goroutine is idle and the message is writable. */
  lemma ReplyAnswers(s: Session, typ: byte, payload: seq<byte>)
    ensures var (s1, m) := (Step(s, Reply(typ, payload)), Message(typ, payload));
            InHand(s1.replier) == if s.replier.Idle? && Writable(m) then [m] else InHand(s.replier)
  {
  }

  function WriterWork(w: Writer): nat {
    match w
    case Idle => 0
    case Waiting(_, chunks) => 2 + |chunks|
    case Writing(_, chunks) => 1 + |chunks|
  }

  /** The steps it takes to write out all that is queued or begun. */
  function Work(s: Session): nat {
    WriterWork(s.notifier) + WriterWork(s.replier) + 4 * |s.queue|
  }

  /** The next of these steps. */
  function Next(s: Session): Action
    requires Work(s) > 0
  {
    if s.notifier.Writing? then (if s.notifier.chunks != [] then Write(false) else Release(false))
    else if s.replier.Writing? then (if s.replier.chunks != [] then Write(true) else Release(true))
    else if s.notifier.Waiting? then Acquire(false)
    else if s.replier.Waiting? then Acquire(true)
    else Take
  }

  lemma NextMoves(s: Session, tail: seq<byte>)
    requires Inv(s, tail) && Work(s) > 0
    ensures var s1 := Step(s, Next(s));
            && Work(s1) == Work(s) - 1 && s1.offered == s.offered
            && s1.replied + InHand(s1.replier) == s.replied + InHand(s.replier)
  {
    hide Encode, EncodeAll, Merge, Queued, Parse;
  }

  /**
   From every reachable state, whoever holds the lock, the two goroutines can go on by themselves
   until nothing is queued or begun; then every notification ever accepted and every reply ever
   begun is on the stream.
   */
  lemma {:induction false} NothingGetsStuck(s: Session, tail: seq<byte>) returns (acts: seq<Action>)
    requires Inv(s, tail)
    ensures var s1 := Run(s, acts);
            && |acts| == Work(s) && s1.queue == [] && s1.notifier.Idle? && s1.replier.Idle?
            && s1.notified == s1.offered == s.offered && s1.replied == s.replied + InHand(s.replier)
    decreases Work(s)
  {
    acts := [];
    if Work(s) > 0 {
      NextMoves(s, tail);
      var tail1 := StepKeeps(s, tail, Next(s));
      hide Inv, Step;
      var rest := NothingGetsStuck(Step(s, Next(s)), tail1);
      acts := [Next(s)] + rest;
      assert acts[1..] == rest;
    } else {
      assert Queued([]) == [];
    }
  }

  /** So of every session from its start. */
  lemma EverySessionDrains(accept: Message, acts: seq<Action>) returns (more: seq<Action>)
    requires Writable(accept)
    ensures var (s, s1) := (Run(Start(accept), acts), Run(Run(Start(accept), acts), more));
            s1.queue == [] && s1.notified == s.offered && s1.replied == s.replied + InHand(s.replier)
  {
    StartOk(accept);
    var tail := RunKeeps(Start(accept), [], acts);
    more := NothingGetsStuck(Run(Start(accept), acts), tail);
  }
}
