/**
 Wire framing: one type byte, a big-endian uint32 length, the payload.

 `Encode` and `Decode` say what `WriteMessage` and `ReadMessage` do to a stream of bytes.
 The theorems relate them on whole sequences of messages and on cut streams.
 */
module Wire {
  import opened Basics

  const MAX_FRAME_SIZE := 1600
  const MAX_CONTROL_SIZE := 64 * 1024

  const TYPE_JOIN_ROOM: byte := 1
  const TYPE_ETHERNET_FRAME: byte := 4
  const TYPE_PING: byte := 5
  const TYPE_PEER_LIST: byte := 7

  datatype Message = Message(typ: byte, payload: seq<byte>)

  datatype WireError = UnknownMessage | PayloadTooLarge | Eof | UnexpectedEof

  predicate ValidType(t: byte) {
    TYPE_JOIN_ROOM <= t <= TYPE_PEER_LIST
  }

  /** The messages `WriteMessage` accepts. */
  predicate Writable(m: Message) {
    ValidType(m.typ)
    && (m.typ == TYPE_ETHERNET_FRAME ==> |m.payload| <= MAX_FRAME_SIZE)
    && |m.payload| <= MAX_CONTROL_SIZE
  }

  predicate AllWritable(ms: seq<Message>) {
    forall i :: 0 <= i < |ms| ==> Writable(ms[i])
  }

  function Header(m: Message): (h: seq<byte>)
    requires |m.payload| < TWO_32
    ensures |h| == 5
  {
    [m.typ] + PutUint32(|m.payload|)
  }

  function Encode(m: Message): seq<byte>
    requires |m.payload| < TWO_32
  {
    Header(m) + m.payload
  }

  function EncodeAll(ms: seq<Message>): seq<byte>
    requires AllWritable(ms)
  {
    if ms == [] then [] else Encode(ms[0]) + EncodeAll(ms[1..])
  }

  /** io.ReadFull of n bytes: the bytes or the error, and what is left of the stream. */
  function ReadFull(s: seq<byte>, n: nat): (Result<seq<byte>, WireError>, seq<byte>) {
    if n <= |s| then (Ok(s[..n]), s[n..])
    else if s == [] then (Err(Eof), [])
    else (Err(UnexpectedEof), [])
  }

  /** The checks made between the header and the payload; a limit of zero or less is no limit. */
  function HeaderError(typ: byte, size: nat, limit: int): Option<WireError> {
    if !ValidType(typ) then Some(UnknownMessage)
    else if 0 < limit < size then Some(PayloadTooLarge)
    else if typ == TYPE_ETHERNET_FRAME && size > MAX_FRAME_SIZE then Some(PayloadTooLarge)
    else None
  }

  /** What reading one message gives, and what is left of the stream. */
  function Decode(s: seq<byte>, limit: int): (Result<Message, WireError>, seq<byte>) {
    var (header, rest) := ReadFull(s, 5);
    if header.Err? then (Err(header.error), rest)
    else
      var h := header.value;
      var size := Uint32(h[1..]);
      var bad := HeaderError(h[0], size, limit);
      if bad.Some? then (Err(bad.value), rest)
      else if size == 0 then (Ok(Message(h[0], [])), rest)
      else
        var (payload, left) := ReadFull(rest, size);
        if payload.Err? then (Err(payload.error), left)
        else (Ok(Message(h[0], payload.value)), left)
  }

  /** Reading until an error: the messages read and the error that ended the reading. */
  function DecodeAll(s: seq<byte>, limit: int): (seq<Message>, WireError)
    decreases |s|
  {
    match Decode(s, limit)
    case (Ok(m), rest) =>
      var (ms, e) := DecodeAll(rest, limit);
      ([m] + ms, e)
    case (Err(e), _) => ([], e)
  }

  /** The limit lets every one of the messages through. */
  predicate Within(ms: seq<Message>, limit: int) {
    limit <= 0 || forall i :: 0 <= i < |ms| ==> |ms[i].payload| <= limit
  }

  /** The layout of a message: the type byte, the length with its most significant byte first, the payload. */
  lemma EncodeLayout(m: Message)
    requires |m.payload| < TWO_32
    ensures var s := Encode(m);
            && |s| == 5 + |m.payload| && s[0] == m.typ && s[5..] == m.payload
            && |m.payload| == ((s[1] as int * 256 + s[2] as int) * 256 + s[3] as int) * 256 + s[4] as int
  {
    assert Encode(m)[1..5] == PutUint32(|m.payload|);
  }

  lemma DecodeOfEncode(m: Message, rest: seq<byte>, limit: int)
    requires Writable(m) && Within([m], limit)
    ensures Decode(Encode(m) + rest, limit) == (Ok(m), rest)
  {
    var s := Encode(m) + rest;
    assert [m][0] == m;
    assert s[..5] == Header(m);
    assert s[..5][1..] == PutUint32(|m.payload|);
    Uint32OfPut(|m.payload|);
    assert s[5..] == m.payload + rest;
    assert s[5..][..|m.payload|] == m.payload;
    assert s[5..][|m.payload|..] == rest;
  }

  /** Reading a whole message and then a stream of which `ms` and the error `e` are read. */
  lemma DecodeAllStep(m: Message, rest: seq<byte>, limit: int, ms: seq<Message>, e: WireError)
    requires Writable(m) && Within([m], limit)
    requires DecodeAll(rest, limit) == (ms, e)
    ensures DecodeAll(Encode(m) + rest, limit) == ([m] + ms, e)
  {
    DecodeOfEncode(m, rest, limit);
  }

  /** Any sequence of accepted messages reads back as itself, whatever follows it. */
  lemma {:induction false} ReadBack(ms: seq<Message>, s: seq<byte>, rest: seq<byte>, limit: int)
    requires AllWritable(ms) && Within(ms, limit) && s == EncodeAll(ms) + rest
    ensures DecodeAll(s, limit).0 == ms + DecodeAll(rest, limit).0
    ensures DecodeAll(s, limit).1 == DecodeAll(rest, limit).1
  {
    hide Encode;
    hide Decode;
    if ms == [] {
      assert s == rest;
    } else {
      var tail := s[|Encode(ms[0])|..];
      EncodedHead(ms, s, rest, tail);
      ReadBack(ms[1..], tail, rest, limit);
      DecodeAllStep(ms[0], tail, limit, DecodeAll(tail, limit).0, DecodeAll(tail, limit).1);
    }
  }

  lemma EncodedHead(ms: seq<Message>, s: seq<byte>, rest: seq<byte>, tail: seq<byte>)
    requires AllWritable(ms) && ms != [] && s == EncodeAll(ms) + rest && tail == s[|Encode(ms[0])|..]
    ensures s == Encode(ms[0]) + tail && tail == EncodeAll(ms[1..]) + rest
  {
    hide Encode;
    SplitHead(Encode(ms[0]), EncodeAll(ms[1..]), rest);
  }

  lemma SplitHead(a: seq<byte>, b: seq<byte>, c: seq<byte>)
    ensures a + b + c == a + (b + c) && (a + b + c)[|a|..] == b + c
  {
  }

  /** Under the control limit every sequence of accepted messages reads back exactly. */
  lemma ReadBackControl(ms: seq<Message>)
    requires AllWritable(ms)
    ensures DecodeAll(EncodeAll(ms), MAX_CONTROL_SIZE) == (ms, Eof)
  {
    ReadBack(ms, EncodeAll(ms), [], MAX_CONTROL_SIZE);
    assert ms + [] == ms;
  }

  /**
   The converse. Whatever the limit, the bytes a successful read consumes are the encoding of
   its result, and `WriteMessage` would have accepted that result exactly when it is no longer
   than the control size: always for a limit in 1..MAX_CONTROL_SIZE, not always otherwise.
   */
  lemma DecodeIsCanonical(s: seq<byte>, limit: int)
    requires Decode(s, limit).0.Ok?
    ensures var (m, rest) := (Decode(s, limit).0.value, Decode(s, limit).1);
            && |m.payload| < TWO_32
            && s == Encode(m) + rest
            && (Writable(m) <==> |m.payload| <= MAX_CONTROL_SIZE)
            && (0 < limit <= MAX_CONTROL_SIZE ==> Writable(m))
  {
    var h := s[..5];
    var size := Uint32(h[1..]);
    PutOfUint32(h[1..]);
    assert h == [h[0]] + h[1..];
    assert s == h + s[5..];
    if size > 0 {
      assert s[5..] == s[5..][..size] + s[5..][size..];
    }
  }

  /** Under any limit outside 1..MAX_CONTROL_SIZE a read can succeed on a message no writer produces. */
  lemma UnlimitedReadAcceptsTooMuch(payload: seq<byte>, limit: int)
    requires |payload| == MAX_CONTROL_SIZE + 1 && !(0 < limit <= MAX_CONTROL_SIZE)
    ensures var m := Message(TYPE_PING, payload);
            Decode(Encode(m), limit) == (Ok(m), []) && !Writable(m)
  {
    var m := Message(TYPE_PING, payload);
    var s := Encode(m);
    assert s[..5] == Header(m);
    assert s[..5][1..] == PutUint32(|payload|);
    Uint32OfPut(|payload|);
    assert s[5..] == payload;
    assert s[5..][..|payload|] == payload;
    assert s[5..][|payload|..] == [];
  }

  /** Everything that can be read can be written, exactly under the limits 1..MAX_CONTROL_SIZE. */
  lemma ReadableIsWritableIff(limit: int)
    ensures (forall s :: Decode(s, limit).0.Ok? ==> Writable(Decode(s, limit).0.value)) <==> 0 < limit <= MAX_CONTROL_SIZE
  {
    hide Decode, Encode, Writable;
    if 0 < limit <= MAX_CONTROL_SIZE {
      forall s | Decode(s, limit).0.Ok? ensures Writable(Decode(s, limit).0.value) {
        DecodeIsCanonical(s, limit);
      }
    } else {
      var payload: seq<byte> := seq(MAX_CONTROL_SIZE + 1, _ => 0);
      UnlimitedReadAcceptsTooMuch(payload, limit);
      assert Decode(Encode(Message(TYPE_PING, payload)), limit).0.Ok?;
    }
  }

  /**
   Every answer of a read, from the bytes alone. A stream that ends within the header or within
   the payload gives the error of its end; a whole header with a type outside 1..7 is unknown;
   else a length over the limit, if there is one, or over 1600 for a frame is too large; else the
   message is the type and that many bytes after the header.
   */
  lemma DecodeAnswers(s: seq<byte>, limit: int)
    ensures var (res, rest) := Decode(s, limit);
            if |s| < 5 then res == Err(if s == [] then Eof else UnexpectedEof) && rest == []
            else
              var size := ((s[1] as int * 256 + s[2] as int) * 256 + s[3] as int) * 256 + s[4] as int;
              if !(1 <= s[0] <= 7) then res == Err(UnknownMessage) && rest == s[5..]
              else if (limit > 0 && size > limit) || (s[0] == 4 && size > 1600) then res == Err(PayloadTooLarge) && rest == s[5..]
              else if |s| < 5 + size then res == Err(if |s| == 5 then Eof else UnexpectedEof) && rest == []
              else res == Ok(Message(s[0], s[5..5 + size])) && rest == s[5 + size..]
  {
    if |s| >= 5 {
      var h := s[..5];
      var size := Uint32(h[1..]);
      assert h[1..] == [s[1], s[2], s[3], s[4]];
      if 5 + size <= |s| {
        assert s[5..][..size] == s[5..5 + size] && s[5..][size..] == s[5 + size..];
      }
    }
  }

  /** A successful read respects its limit, and the frame size whatever the limit. */
  lemma ReadRespectsLimit(s: seq<byte>, limit: int)
    requires Decode(s, limit).0.Ok?
    ensures var m := Decode(s, limit).0.value;
            && (limit > 0 ==> |m.payload| <= limit)
            && (m.typ == 4 ==> |m.payload| <= 1600)
            && 1 <= m.typ <= 7
  {
    DecodeAnswers(s, limit);
  }

  /** A strict prefix of a message never yields a message; within the limit it only ends early. */
  lemma PrefixNeverDecodes(m: Message, k: nat, limit: int)
    requires |m.payload| < TWO_32 && k < |Encode(m)|
    ensures Decode(Encode(m)[..k], limit).0.Err?
    ensures Writable(m) && Within([m], limit) ==> EndsEarly(Decode(Encode(m)[..k], limit).0.error)
  {
    var s := Encode(m)[..k];
    assert [m][0] == m;
    if 5 <= k {
      assert s[..5] == Header(m);
      assert s[..5][1..] == PutUint32(|m.payload|);
      Uint32OfPut(|m.payload|);
    }
  }

  /** Cutting inside a message ends the reading there. */
  lemma DecodeAllCut(m: Message, k: nat, limit: int)
    requires Writable(m) && Within([m], limit) && k < |Encode(m)|
    ensures DecodeAll(Encode(m)[..k], limit).0 == []
    ensures EndsEarly(DecodeAll(Encode(m)[..k], limit).1)
  {
    PrefixNeverDecodes(m, k, limit);
  }

  predicate EndsEarly(e: WireError) {
    e.Eof? || e.UnexpectedEof?
  }

  /**
   Cutting a stream of accepted messages anywhere leaves some of the messages, in order, and no
   error but the end of the stream.
   */
  lemma {:induction false} CutStream(ms: seq<Message>, s: seq<byte>, limit: int) returns (n: nat)
    requires AllWritable(ms) && Within(ms, limit) && s <= EncodeAll(ms)
    ensures n <= |ms| && (n == |ms| <==> |s| == |EncodeAll(ms)|)
    ensures DecodeAll(s, limit).0 == ms[..n] && EndsEarly(DecodeAll(s, limit).1)
  {
    n := 0;
    if ms == [] {
      assert s == [];
    } else {
      var first := Encode(ms[0]);
      if |s| < |first| {
        assert s == first[..|s|];
        DecodeAllCut(ms[0], |s|, limit);
      } else {
        var rest := s[|first|..];
        assert s == first + rest;
        var m := CutStream(ms[1..], rest, limit);
        DecodeAllStep(ms[0], rest, limit, DecodeAll(rest, limit).0, DecodeAll(rest, limit).1);
        n := m + 1;
        assert [ms[0]] + ms[1..][..m] == ms[..n];
      }
    }
  }

  lemma {:induction false} EncodeAllConcat(a: seq<Message>, b: seq<Message>)
    requires AllWritable(a) && AllWritable(b)
    ensures AllWritable(a + b) && EncodeAll(a + b) == EncodeAll(a) + EncodeAll(b)
  {
    if a == [] {
      assert a + b == b;
    } else {
      EncodeAllConcat(a[1..], b);
      assert (a + b)[1..] == a[1..] + b && (a + b)[0] == a[0];
      assert Encode(a[0]) + (EncodeAll(a[1..]) + EncodeAll(b)) == Encode(a[0]) + EncodeAll(a[1..]) + EncodeAll(b);
    }
  }

  lemma EncodeAllAppend(ms: seq<Message>, m: Message)
    requires AllWritable(ms) && Writable(m)
    ensures AllWritable(ms + [m])
    ensures EncodeAll(ms + [m]) == EncodeAll(ms) + Encode(m)
  {
    EncodeAllConcat(ms, [m]);
    assert EncodeAll([m]) == Encode(m) + EncodeAll([]);
  }

  /** A byte stream that is written at one end and read at the other. */
  class Stream {
    var data: seq<byte>

    constructor ()
      ensures data == []
    {
      data := [];
    }

    method Write(chunk: seq<byte>)
      modifies this
      ensures data == old(data) + chunk
    {
      data := data + chunk;
    }

    method Fill(n: nat) returns (res: Result<seq<byte>, WireError>)
      modifies this
      ensures (res, data) == ReadFull(old(data), n)
    {
      if n <= |data| {
        res := Ok(data[..n]);
        data := data[n..];
      } else {
        res := Err(if data == [] then Eof else UnexpectedEof);
        data := [];
      }
    }

    /** Refuses without writing anything, or appends exactly the encoding. */
    method WriteMessage(m: Message) returns (err: Option<WireError>)
      modifies this
      ensures err.None? <==> Writable(m)
      ensures err.None? ==> data == old(data) + Encode(m)
      ensures err.Some? ==> data == old(data)
      ensures err == Some(UnknownMessage) <==> !(1 <= m.typ <= 7)
      ensures err == Some(PayloadTooLarge) <==> 1 <= m.typ <= 7 && |m.payload| > if m.typ == 4 then 1600 else 65536
      ensures err in {None, Some(UnknownMessage), Some(PayloadTooLarge)}
    {
      if !ValidType(m.typ) {
        return Some(UnknownMessage);
      }
      if m.typ == TYPE_ETHERNET_FRAME && |m.payload| > MAX_FRAME_SIZE {
        return Some(PayloadTooLarge);
      }
      if |m.payload| > MAX_CONTROL_SIZE {
        return Some(PayloadTooLarge);
      }
      Write(Header(m));
      if |m.payload| == 0 {
        assert Encode(m) == Header(m);
        return None;
      }
      Write(m.payload);
      return None;
    }

    /** Consumes exactly what `Decode` consumes and returns its result. */
    method ReadMessage(limit: int) returns (res: Result<Message, WireError>)
      modifies this
      ensures (res, data) == Decode(old(data), limit)
      ensures res.Ok? && limit > 0 ==> |res.value.payload| <= limit
    {
      var header := Fill(5);
      if header.Err? {
        return Err(header.error);
      }
      var typ := header.value[0];
      if !ValidType(typ) {
        return Err(UnknownMessage);
      }
      var size := Uint32(header.value[1..]);
      if limit > 0 && size > limit {
        return Err(PayloadTooLarge);
      }
      if typ == TYPE_ETHERNET_FRAME && size > MAX_FRAME_SIZE {
        return Err(PayloadTooLarge);
      }
      if size == 0 {
        return Ok(Message(typ, []));
      }
      var payload := Fill(size);
      if payload.Err? {
        return Err(payload.error);
      }
      return Ok(Message(typ, payload.value));
    }
  }
}
