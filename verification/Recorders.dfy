/** The two bounded in-memory histories: captured packets and log lines. */
module Recorders {
  import opened Basics

  const DEFAULT_LIMIT := 100

  datatype Entry<T> = Entry(number: nat, item: T)

  /** The stored entries after one more: the oldest is shifted out when the limit is reached. */
  function Push<T>(entries: seq<Entry<T>>, limit: nat, e: Entry<T>): seq<Entry<T>>
    requires limit > 0
  {
    if |entries| >= limit then entries[1..] + [e] else entries + [e]
  }

  /** A whole history, numbered from 1. */
  function Numbered<T>(items: seq<T>): (r: seq<Entry<T>>)
    ensures |r| == |items| && forall i :: 0 <= i < |r| ==> r[i] == Entry(i + 1, items[i])
  {
    seq(|items|, i requires 0 <= i < |items| => Entry(i + 1, items[i]))
  }

  function Last<T>(s: seq<T>, limit: nat): seq<T> {
    if |s| <= limit then s else s[|s| - limit..]
  }

  /** Adding an item to the last entries of a history gives the last entries of the longer one. */
  lemma PushKeepsLast<T>(items: seq<T>, limit: nat, item: T)
    requires limit > 0
    ensures Push(Last(Numbered(items), limit), limit, Entry(|items| + 1, item)) == Last(Numbered(items + [item]), limit)
  {
    assert Numbered(items + [item]) == Numbered(items) + [Entry(|items| + 1, item)];
  }

  /** The fields of a history: a buffer of `limit` places of which the first `count` are in use. */
  class History<T(0)> {
    const limit: nat
    var buffer: array<Entry<T>>
    var count: nat
    var lastNumber: nat

    predicate Valid()
      reads this
    {
      limit > 0 && buffer.Length == limit && count <= limit
    }

    function Entries(): seq<Entry<T>>
      requires Valid()
      reads this, buffer
    {
      buffer[..count]
    }

    constructor (limit: int)
      ensures Valid() && fresh(buffer) && Entries() == [] && lastNumber == 0
      ensures this.limit == if limit <= 0 then 100 else limit
    {
      var n := if limit <= 0 then DEFAULT_LIMIT else limit;
      this.limit := n;
      buffer := new Entry<T>[n];
      count, lastNumber := 0, 0;
    }

    /** On a full buffer every entry but the oldest moves to the place before it. */
    method Shift()
      requires Valid() && count == limit
      modifies buffer
      ensures forall k :: 0 <= k < count - 1 ==> buffer[k] == old(buffer[k + 1])
    {
      for i := 0 to count - 1
        invariant forall k :: 0 <= k < i ==> buffer[k] == old(buffer[k + 1])
        invariant forall k :: i <= k < count ==> buffer[k] == old(buffer[k])
      {
        buffer[i] := buffer[i + 1];
      }
    }

    method Add(item: T)
      requires Valid()
      modifies this, buffer
      ensures Valid() && buffer == old(buffer) && lastNumber == old(lastNumber) + 1
      ensures Entries() == Push(old(Entries()), limit, Entry(old(lastNumber) + 1, item))
    {
      lastNumber := lastNumber + 1;
      var e := Entry(lastNumber, item);
      if count >= limit {
        Shift();
        buffer[count - 1] := e;
      } else {
        buffer[count] := e;
        count := count + 1;
      }
    }

    method Snapshot() returns (copied: seq<Entry<T>>)
      requires Valid()
      ensures copied == Entries()
    {
      copied := buffer[..count];
    }

    /** The object holds the last entries of the history of all items it accepted. */
    ghost predicate Holds(items: seq<T>)
      requires Valid()
      reads this, buffer
    {
      lastNumber == |items| && Entries() == Last(Numbered(items), limit)
    }

    /** Add, told by the items accepted before. */
    method Accept(item: T, ghost items: seq<T>)
      requires Valid() && Holds(items)
      modifies this, buffer
      ensures Valid() && buffer == old(buffer) && Holds(items + [item])
    {
      PushKeepsLast(items, limit, item);
      Add(item);
    }
  }

  // ---------- packet capture ----------

  datatype CaptureOp<T> = Switch(on: bool) | Offered(event: T)

  /** The recorder's fields: the flag, the last number given and the stored entries. */
  datatype Capture<T> = Capture(on: bool, last: nat, entries: seq<Entry<T>>)

  /** The fields after a run of operations on a new recorder. */
  function After<T>(ops: seq<CaptureOp<T>>, limit: nat): Capture<T>
    requires limit > 0
  {
    if ops == [] then Capture(false, 0, [])
    else
      var c := After(ops[..|ops| - 1], limit);
      match ops[|ops| - 1]
      case Switch(on) => c.(on := on)
      case Offered(event) =>
        if c.on then Capture(true, c.last + 1, Push(c.entries, limit, Entry(c.last + 1, event))) else c
  }

  /** Whether the latest switch was to on. */
  predicate IsOn<T>(ops: seq<CaptureOp<T>>) {
    ops != [] &&
    match ops[|ops| - 1]
    case Switch(on) => on
    case Offered(_) => IsOn(ops[..|ops| - 1])
  }

  /** The events offered while capturing was on. */
  function Accepted<T>(ops: seq<CaptureOp<T>>): seq<T> {
    if ops == [] then []
    else
      var (before, op) := (ops[..|ops| - 1], ops[|ops| - 1]);
      Accepted(before) + if op.Offered? && IsOn(before) then [op.event] else []
  }

  /**
   After any run of switching and recording the store is the last `limit` of all events accepted,
   in order, with consecutive numbers up to the number of events accepted.
   */
  lemma {:induction false} StoredIsLast<T>(ops: seq<CaptureOp<T>>, limit: nat)
    requires limit > 0
    ensures After(ops, limit) == Capture(IsOn(ops), |Accepted(ops)|, Last(Numbered(Accepted(ops)), limit))
  {
    if ops != [] {
      var (before, op) := (ops[..|ops| - 1], ops[|ops| - 1]);
      StoredIsLast(before, limit);
      if op.Offered? && IsOn(before) {
        PushKeepsLast(Accepted(before), limit, op.event);
        assert Accepted(ops) == Accepted(before) + [op.event];
      } else {
        assert Accepted(ops) == Accepted(before);
      }
    }
  }

  /** `ops` are the operations so far; the fields are what the model says they are after these. */
  class CaptureRecorder<T(0)> {
    const history: History<T>
    var enabled: bool
    ghost var ops: seq<CaptureOp<T>>

    ghost predicate Valid()
      reads this, history, history.buffer
    {
      history.Valid() && Capture(enabled, history.lastNumber, history.Entries()) == After(ops, history.limit)
    }

    constructor (limit: int)
      ensures fresh(history) && fresh(history.buffer) && Valid() && ops == []
    {
      history := new History<T>(limit);
      enabled, ops := false, [];
    }

    method SetEnabled(on: bool)
      requires Valid()
      modifies this
      ensures Valid() && ops == old(ops) + [Switch(on)]
    {
      enabled := on;
      ops := ops + [Switch(on)];
      assert ops[..|ops| - 1] == old(ops);
    }

    /** Accepts the event only while enabled. */
    method Record(event: T)
      requires Valid()
      modifies this, history, history.buffer
      ensures Valid() && history.buffer == old(history.buffer) && ops == old(ops) + [Offered(event)]
    {
      ops := ops + [Offered(event)];
      assert ops[..|ops| - 1] == old(ops);
      if !enabled {
        return;
      }
      history.Add(event);
    }

    /** What the web page gets: the last events accepted since the recorder was made. */
    method Snapshot() returns (on: bool, copied: seq<Entry<T>>)
      requires Valid()
      ensures on == IsOn(ops) && copied == Last(Numbered(Accepted(ops)), history.limit)
    {
      StoredIsLast(ops, history.limit);
      on := enabled;
      copied := history.Snapshot();
    }
  }

  // ---------- the log ----------

  const NEWLINE: byte := 10
  const RETURN: byte := 13

  /** bytes.Split at newlines. */
  function Split(p: seq<byte>): (lines: seq<seq<byte>>)
    ensures |lines| > 0
  {
    if p == [] then [[]]
    else
      var rest := Split(p[1..]);
      if p[0] == NEWLINE then [[]] + rest else [[p[0]] + rest[0]] + rest[1..]
  }

  function Join(lines: seq<seq<byte>>): seq<byte> {
    if lines == [] then []
    else if |lines| == 1 then lines[0]
    else lines[0] + [NEWLINE] + Join(lines[1..])
  }

  /** Splitting loses nothing: the lines hold no newline and join back to the text. */
  lemma {:induction false} SplitIsExact(p: seq<byte>)
    ensures Join(Split(p)) == p
    ensures forall i :: 0 <= i < |Split(p)| ==> NEWLINE !in Split(p)[i]
  {
    if p != [] {
      SplitIsExact(p[1..]);
      var rest := Split(p[1..]);
      if p[0] == NEWLINE {
        assert ([[]] + rest)[1..] == rest;
        assert [] + [NEWLINE] + p[1..] == p;
      } else {
        var lines := [[p[0]] + rest[0]] + rest[1..];
        assert lines[1..] == rest[1..];
        assert p == [p[0]] + p[1..];
        if |rest| > 1 {
          assert [p[0]] + (rest[0] + [NEWLINE] + Join(rest[1..])) == [p[0]] + rest[0] + [NEWLINE] + Join(rest[1..]);
        }
      }
    }
  }

  function TrimReturns(line: seq<byte>): (r: seq<byte>)
    ensures r <= line && (r != [] ==> r[|r| - 1] != RETURN)
    ensures forall i :: |r| <= i < |line| ==> line[i] == RETURN
  {
    if line != [] && line[|line| - 1] == RETURN then TrimReturns(line[..|line| - 1]) else line
  }

  /** The messages a text adds to the log: its lines, trimmed, without the empty ones. */
  function Messages(lines: seq<seq<byte>>): seq<seq<byte>> {
    if lines == [] then []
    else
      var n := |lines| - 1;
      Messages(lines[..n]) + if TrimReturns(lines[n]) == [] then [] else [TrimReturns(lines[n])]
  }

  lemma MessagesStep(lines: seq<seq<byte>>, i: nat, items: seq<seq<byte>>)
    requires i < |lines|
    ensures var (message, before) := (TrimReturns(lines[i]), items + Messages(lines[..i]));
            items + Messages(lines[..i + 1]) == if message == [] then before else before + [message]
  {
    assert lines[..i + 1][..i] == lines[..i];
  }

  /**
   What the log takes from one line among others: nothing if it is made of carriage returns only,
   otherwise the line up to its last byte that is none.
   */
  lemma {:induction false} LineAnswers(a: seq<seq<byte>>, line: seq<byte>, b: seq<seq<byte>>) returns (n: nat)
    ensures n <= |line| && (n > 0 ==> line[n - 1] != 13) && (forall i :: n <= i < |line| ==> line[i] == 13)
    ensures Messages(a + [line] + b) == Messages(a) + (if n == 0 then [] else [line[..n]]) + Messages(b)
    decreases |b|
  {
    var all := a + [line] + b;
    n := |TrimReturns(line)|;
    assert TrimReturns(line) == line[..n];
    if b == [] {
      assert all[..|all| - 1] == a && all[|all| - 1] == line;
    } else {
      var k := |b| - 1;
      n := LineAnswers(a, line, b[..k]);
      assert all[..|all| - 1] == a + [line] + b[..k] && all[|all| - 1] == b[k];
    }
  }

  class LogRecorder {
    const history: History<seq<byte>>

    constructor (limit: int)
      ensures fresh(history) && fresh(history.buffer) && history.Valid() && history.Holds([])
    {
      history := new History<seq<byte>>(limit);
    }

    method Write(p: seq<byte>, ghost items: seq<seq<byte>>) returns (n: nat)
      requires history.Valid() && history.Holds(items)
      modifies history, history.buffer
      ensures n == |p| && history.Valid() && history.buffer == old(history.buffer)
      ensures history.Holds(items + Messages(Split(p)))
    {
      var lines := Split(p);
      ghost var all := items;
      for i := 0 to |lines|
        invariant history.Valid() && history.buffer == old(history.buffer)
        invariant all == items + Messages(lines[..i]) && history.Holds(all)
      {
        MessagesStep(lines, i, items);
        var message := TrimReturns(lines[i]);
        if message == [] {
          continue;
        }
        history.Accept(message, all);
        all := all + [message];
      }
      assert lines[..|lines|] == lines;
      n := |p|;
    }
  }
}
