// Messages of the debugger client: strings sent in fragments, and frames read from a stream
// (jerry-debugger/jerry_client_main.py, jerry_client_rawpacket.py, jerry_client_websocket.py).
module Fragments {
  import opened Bytes

  type Message = seq<u8>

  // ---- the transport

  function Flat(chunks: seq<seq<u8>>): seq<u8> {
    if chunks == [] then [] else chunks[0] + Flat(chunks[1..])
  }

  // A connection: the chunks in which the server's bytes will arrive, how many of them have
  // arrived and wait to be read, and what was sent.
  class Protocol {
    var chunks: seq<seq<u8>>
    var waiting: nat
    var sent: seq<u8>

    ghost predicate Valid()
      reads this
    {
      [] !in chunks && waiting <= |chunks|
    }

    constructor (chunks: seq<seq<u8>>)
      requires [] !in chunks
      ensures Valid() && this.chunks == chunks && waiting == 0 && sent == []
    {
      this.chunks, waiting, sent := chunks, 0, [];
    }

    // Sends some of the data, at least one byte.
    method SendData(data: seq<u8>) returns (n: nat)
      requires data != []
      modifies this`sent
      ensures 0 < n <= |data| && sent == old(sent) + data[..n]
    {
      var some: int := *;
      n := if 1 <= some <= |data| then some else |data|;
      sent := sent + data[..n];
    }

    // More may have arrived by now. The end of the connection is seen sooner or later.
    method Ready() returns (ready: bool)
      requires Valid()
      modifies this`waiting
      ensures Valid() && old(waiting) <= waiting && (chunks != [] ==> (ready <==> waiting > 0))
    {
      var some: int := *;
      waiting := if waiting <= some <= |chunks| then some else waiting;
      ready := *;
      if chunks != [] {
        ready := waiting > 0;
      }
    }

    // Waits for the next chunk; nothing when the connection is closed.
    method ReceiveData() returns (data: seq<u8>)
      requires Valid()
      modifies this`chunks, this`waiting
      ensures Valid() && old(waiting) <= waiting + 1
      ensures old(chunks) == [] ==> data == [] && chunks == []
      ensures old(chunks) != [] ==> data == old(chunks)[0] && chunks == old(chunks)[1..]
    {
      if chunks == [] {
        return [];
      }
      data := chunks[0];
      chunks := chunks[1..];
      waiting := if waiting > 0 then waiting - 1 else 0;
    }
  }

  // The loop of send_message and of the private __send_data.
  method SendAll(protocol: Protocol, message: seq<u8>)
    modifies protocol`sent
    ensures protocol.sent == old(protocol.sent) + message
  {
    var data, size := message, |message|;
    while size > 0
      invariant 0 <= size && (size > 0 ==> |data| == size)
      invariant protocol.sent + (if size > 0 then data else []) == old(protocol.sent) + message
    {
      var n := protocol.SendData(data);
      assert data == data[..n] + data[n..];
      if n < size {
        data := data[n..];
      }
      size := size - n;
    }
  }

  // ---- frames

  // Raw frames start with the length. WebSocket frames start with 0x82 and the length;
  // those of a client set the top bit of the length and add a mask of four zero bytes.
  datatype Framing = Raw | Web | WebClient {
    function HeaderSize(): nat {
      if Raw? then 1 else if Web? then 2 else 6
    }

    function Header(size: nat): (h: seq<u8>)
      requires size <= MaxSize()
      ensures |h| == HeaderSize()
    {
      if Raw? then [size] else if Web? then [0x82, size] else [0x82, 0x80 + size, 0, 0, 0, 0]
    }

    function MaxSize(): nat {
      if Raw? then 255 else if Web? then 125 else 127
    }

    predicate IsMessage(m: Message) {
      1 <= |m| <= MaxSize()
    }

    function Frame(m: Message): (f: seq<u8>)
      requires IsMessage(m)
    {
      Header(|m|) + m
    }

    // The header at the start of b is no header.
    predicate Unexpected(b: seq<u8>)
      requires !WebClient?
    {
      |b| >= HeaderSize() &&
      (b[HeaderSize() - 1] == 0 || b[HeaderSize() - 1] > MaxSize() || (Web? && b[0] != 0x82))
    }

    // No complete frame is at the start of b.
    predicate Incomplete(b: seq<u8>)
      requires !WebClient?
    {
      !Unexpected(b) && (|b| < HeaderSize() || |b| < b[HeaderSize() - 1] + HeaderSize())
    }
  }

  predicate AllMessages(framing: Framing, messages: seq<Message>) {
    forall i :: 0 <= i < |messages| ==> framing.IsMessage(messages[i])
  }

  function Frames(framing: Framing, messages: seq<Message>): seq<u8>
    requires AllMessages(framing, messages)
  {
    if messages == [] then [] else framing.Frame(messages[0]) + Frames(framing, messages[1..])
  }

  lemma {:induction false} FramesSnoc(framing: Framing, messages: seq<Message>, m: Message)
    requires AllMessages(framing, messages) && framing.IsMessage(m)
    ensures AllMessages(framing, messages + [m])
    ensures Frames(framing, messages + [m]) == Frames(framing, messages) + framing.Frame(m)
  {
    hide Framing.Frame;
    if messages == [] {
      assert messages + [m] == [m] && [m][1..] == [];
    } else {
      var next := messages + [m];
      assert next[1..] == messages[1..] + [m] && next[0] == messages[0];
      FramesSnoc(framing, messages[1..], m);
    }
  }

  // What the reader answers.
  datatype Reply = Received(message: Message) | NotYet | Closed | UnexpectedFrame

  // ---- a stream is split into frames in one way only

  lemma FrameAtStart(framing: Framing, m: Message, rest: seq<u8>)
    requires !framing.WebClient? && framing.IsMessage(m)
    ensures var s, h := framing.Frame(m) + rest, framing.HeaderSize();
            |s| >= h + |m| && s[h - 1] == |m| && s[h..h + |m|] == m && s[h + |m|..] == rest
    ensures !framing.Unexpected(framing.Frame(m) + rest) && !framing.Incomplete(framing.Frame(m) + rest)
  {
    assert framing.Frame(m) + rest == framing.Header(|m|) + (m + rest);
  }

  lemma SameFrame(framing: Framing, m: Message, rest: seq<u8>, m2: Message, rest2: seq<u8>)
    requires !framing.WebClient? && framing.IsMessage(m) && framing.IsMessage(m2)
    requires framing.Frame(m) + rest == framing.Frame(m2) + rest2
    ensures m == m2 && rest == rest2
  {
    FrameAtStart(framing, m, rest);
    FrameAtStart(framing, m2, rest2);
  }

  lemma FramesUnfold(framing: Framing, messages: seq<Message>, tail: seq<u8>)
    requires AllMessages(framing, messages) && messages != []
    ensures Frames(framing, messages) + tail == framing.Frame(messages[0]) + (Frames(framing, messages[1..]) + tail)
  {}

  // A message taken off the stream is the next one.
  lemma NextMessage(framing: Framing, messages: seq<Message>, tail: seq<u8>, m: Message, after: seq<u8>)
    requires !framing.WebClient? && AllMessages(framing, messages) && framing.Incomplete(tail) && framing.IsMessage(m)
    requires Frames(framing, messages) + tail == framing.Frame(m) + after
    ensures messages != [] && m == messages[0] && after == Frames(framing, messages[1..]) + tail
  {
    NotOnlyTail(framing, messages, tail, m, after);
    FramesUnfold(framing, messages, tail);
    SameFrame(framing, messages[0], Frames(framing, messages[1..]) + tail, m, after);
  }

  lemma NotOnlyTail(framing: Framing, messages: seq<Message>, tail: seq<u8>, m: Message, after: seq<u8>)
    requires !framing.WebClient? && AllMessages(framing, messages) && framing.Incomplete(tail) && framing.IsMessage(m)
    requires Frames(framing, messages) + tail == framing.Frame(m) + after
    ensures messages != []
    ensures AllMessages(framing, messages[1..])
  {
    FrameAtStart(framing, m, after);
    NoFrames(framing, tail);
  }

  lemma NoFrames(framing: Framing, tail: seq<u8>)
    ensures AllMessages(framing, []) && Frames(framing, []) + tail == tail == tail + Frames(framing, [])
  {}

  // When no frame can be read, no message is left; and the stream never looks malformed.
  lemma NothingLeft(framing: Framing, messages: seq<Message>, tail: seq<u8>)
    requires !framing.WebClient? && AllMessages(framing, messages) && framing.Incomplete(tail)
    ensures !framing.Unexpected(Frames(framing, messages) + tail)
    ensures framing.Incomplete(Frames(framing, messages) + tail) ==> messages == []
  {
    if messages == [] {
      assert Frames(framing, messages) + tail == tail;
    } else {
      FramesUnfold(framing, messages, tail);
      FrameAtStart(framing, messages[0], Frames(framing, messages[1..]) + tail);
    }
  }

  // The next of the expected messages was read.
  lemma ReadNext(framing: Framing, messages: seq<Message>, expected: seq<Message>, tail: seq<u8>, m: Message, after: seq<u8>)
    requires !framing.WebClient? && AllMessages(framing, expected) && framing.Incomplete(tail) && framing.IsMessage(m)
    requires messages <= expected && Frames(framing, expected[|messages|..]) + tail == framing.Frame(m) + after
    ensures messages + [m] <= expected && after == Frames(framing, expected[|messages| + 1..]) + tail
  {
    hide Frames, Framing.Frame, Framing.Incomplete, Framing.IsMessage;
    var left := expected[|messages|..];
    NextMessage(framing, left, tail, m, after);
    assert left[1..] == expected[|messages| + 1..];
  }

  // ---- the two channels

  lemma TakeFrame(framing: Framing, b: seq<u8>, rest: seq<u8>)
    requires !framing.WebClient? && !framing.Unexpected(b) && !framing.Incomplete(b)
    ensures var h := framing.HeaderSize(); var m := b[h..h + b[h - 1]];
            framing.IsMessage(m) && b + rest == framing.Frame(m) + (b[h + b[h - 1]..] + rest)
  {
    var h := framing.HeaderSize();
    var m := b[h..h + b[h - 1]];
    assert b[..h] == framing.Header(|m|);
    assert b == b[..h] + m + b[h + |m|..];
  }

  lemma FlatUnfold(b: seq<u8>, chunks: seq<seq<u8>>)
    ensures b + Flat(chunks) == if chunks == [] then b else (b + chunks[0]) + Flat(chunks[1..])
  {}

  // All chunks that were waiting before are read.
  predicate ReadAll(waiting: nat, before: seq<seq<u8>>, after: seq<seq<u8>>) {
    |before| - |after| >= waiting
  }

  class RawPacket {
    const protocol: Protocol
    var dataBuffer: seq<u8>

    constructor (protocol: Protocol)
      ensures this.protocol == protocol && dataBuffer == []
    {
      this.protocol, dataBuffer := protocol, [];
    }

    // The bytes that are not yet given out.
    ghost function Stream(): seq<u8>
      reads this, protocol
    {
      dataBuffer + Flat(protocol.chunks)
    }

    method SendMessage(message: seq<u8>)
      modifies protocol`sent
      ensures protocol.sent == old(protocol.sent) + message
    {
      SendAll(protocol, message);
    }

    // get_message: a message is taken off the stream as a whole, or nothing is.
    method GetMessage(blocking: bool) returns (reply: Reply)
      requires protocol.Valid()
      modifies this`dataBuffer, protocol`chunks, protocol`waiting
      ensures protocol.Valid() && (old(protocol.chunks) == [] ==> protocol.chunks == [])
      ensures reply.Received? ==> Raw.IsMessage(reply.message) && old(Stream()) == Raw.Frame(reply.message) + Stream()
      ensures !reply.Received? ==> Stream() == old(Stream())
      ensures reply.NotYet? ==> !blocking && Raw.Incomplete(dataBuffer) && ReadAll(old(protocol.waiting), old(protocol.chunks), protocol.chunks)
      ensures reply.Closed? ==> protocol.chunks == [] && dataBuffer == Stream() && Raw.Incomplete(Stream())
      ensures reply.UnexpectedFrame? ==> Raw.Unexpected(Stream())
    {
      hide Flat, Framing.Frame;
      while true
        invariant Stream() == old(Stream()) && protocol.Valid()
        invariant old(protocol.chunks) == [] ==> protocol.chunks == []
        invariant old(protocol.waiting) - protocol.waiting <= |old(protocol.chunks)| - |protocol.chunks|
        decreases |protocol.chunks|
      {
        if |dataBuffer| >= 1 {
          var size: int := dataBuffer[0];
          if size == 0 {
            return UnexpectedFrame;
          }
          if |dataBuffer| >= size + 1 {
            var result := dataBuffer[1..size + 1];
            TakeFrame(Raw, dataBuffer, Flat(protocol.chunks));
            dataBuffer := dataBuffer[size + 1..];
            return Received(result);
          }
        }
        if !blocking {
          var ready := protocol.Ready();
          if !ready {
            return NotYet;
          }
        }
        FlatUnfold(dataBuffer, protocol.chunks);
        var data := protocol.ReceiveData();
        if data == [] {
          return Closed;
        }
        dataBuffer := dataBuffer + data;
      }
    }
  }

  class WebSocket {
    const protocol: Protocol
    var dataBuffer: Option<seq<u8>>   // None: the connection was closed

    constructor (protocol: Protocol)
      ensures this.protocol == protocol && dataBuffer == Some([])
    {
      this.protocol, dataBuffer := protocol, Some([]);
    }

    ghost function Stream(): seq<u8>
      requires dataBuffer.Some?
      reads this, protocol
    {
      dataBuffer.value + Flat(protocol.chunks)
    }

    // The length byte of the message moves into the frame's header.
    method SendMessage(message: seq<u8>)
      requires message != [] && message[0] < 0x80
      modifies protocol`sent
      ensures protocol.sent == old(protocol.sent) + WebClient.Header(message[0]) + message[1..]
    {
      SendAll(protocol, [0x82, 0x80 + message[0], 0, 0, 0, 0] + message[1..]);
    }

    method GetMessage(blocking: bool) returns (reply: Reply)
      requires protocol.Valid()
      modifies this`dataBuffer, protocol`chunks, protocol`waiting
      ensures protocol.Valid()
      ensures old(dataBuffer).None? ==> reply == Closed && dataBuffer.None?
      ensures old(dataBuffer).Some? ==> dataBuffer.None? == reply.Closed?
      ensures old(dataBuffer).Some? && reply.Received? ==>
                Web.IsMessage(reply.message) && old(Stream()) == Web.Frame(reply.message) + Stream()
      ensures old(dataBuffer).Some? && reply.NotYet? ==>
                && !blocking && Stream() == old(Stream()) && Web.Incomplete(dataBuffer.value)
                && ReadAll(old(protocol.waiting), old(protocol.chunks), protocol.chunks)
      ensures old(dataBuffer).Some? && reply.Closed? ==> Web.Incomplete(old(Stream()))
      ensures old(dataBuffer).Some? && reply.UnexpectedFrame? ==>
                Stream() == old(Stream()) && Web.Unexpected(Stream())
    {
      if dataBuffer.None? {
        return Closed;
      }
      hide Flat, Framing.Frame;
      while true
        invariant dataBuffer.Some? && Stream() == old(Stream()) && protocol.Valid()
        invariant old(protocol.waiting) - protocol.waiting <= |old(protocol.chunks)| - |protocol.chunks|
        decreases |protocol.chunks|
      {
        var buffer := dataBuffer.value;
        if |buffer| >= 2 {
          if buffer[0] != 0x82 {
            return UnexpectedFrame;
          }
          var size: int := buffer[1];
          if size == 0 || size >= 126 {
            return UnexpectedFrame;
          }
          if |buffer| >= size + 2 {
            var result := buffer[2..size + 2];
            TakeFrame(Web, buffer, Flat(protocol.chunks));
            dataBuffer := Some(buffer[size + 2..]);
            return Received(result);
          }
        }
        if !blocking {
          var ready := protocol.Ready();
          if !ready {
            return NotYet;
          }
        }
        FlatUnfold(buffer, protocol.chunks);
        var data := protocol.ReceiveData();
        if data == [] {
          dataBuffer := None;
          return Closed;
        }
        dataBuffer := Some(buffer + data);
      }
    }
  }

  // How many of the calls wait.
  function Blocking(calls: seq<bool>): nat {
    if calls == [] then 0 else Blocking(calls[..|calls| - 1]) + if calls[|calls| - 1] then 1 else 0
  }

  lemma BlockingNext(calls: seq<bool>, i: nat)
    requires i < |calls|
    ensures Blocking(calls[..i + 1]) == Blocking(calls[..i]) + if calls[i] then 1 else 0
    ensures Blocking([]) == 0
  {
    assert calls[..i + 1][..i] == calls[..i];
  }

  // Any run of calls reads the messages in their order, however the stream is cut into chunks;
  // once the connection is closed all of them are read, and every call that waits gives one while
  // some are left.
  method ReadRaw(channel: RawPacket, calls: seq<bool>, ghost expected: seq<Message>, ghost tail: seq<u8>)
    returns (messages: seq<Message>, closed: bool)
    requires channel.protocol.Valid() && AllMessages(Raw, expected) && Raw.Incomplete(tail)
    requires channel.Stream() == Frames(Raw, expected) + tail
    modifies channel`dataBuffer, channel.protocol`chunks, channel.protocol`waiting
    ensures messages <= expected && channel.Stream() == Frames(Raw, expected[|messages|..]) + tail
    ensures closed ==> messages == expected && channel.dataBuffer == tail
    ensures messages == expected || |messages| >= Blocking(calls)
  {
    hide Frames, Framing.Frame, Framing.Unexpected, Framing.Incomplete, Flat;
    messages, closed := [], false;
    for i := 0 to |calls|
      invariant channel.protocol.Valid() && messages <= expected
      invariant channel.Stream() == Frames(Raw, expected[|messages|..]) + tail
      invariant closed ==> messages == expected && channel.protocol.chunks == []
      invariant messages == expected || |messages| >= Blocking(calls[..i])
    {
      BlockingNext(calls, i);
      NothingLeft(Raw, expected[|messages|..], tail);
      var reply := channel.GetMessage(calls[i]);
      match reply
      case Received(m) =>
        ReadNext(Raw, messages, expected, tail, m, channel.Stream());
        messages := messages + [m];
      case Closed =>
        closed := true;
      case NotYet =>
      case UnexpectedFrame =>
    }
    NoFrames(Raw, tail);
    FlatUnfold(channel.dataBuffer, channel.protocol.chunks);
    assert calls[..|calls|] == calls;
  }

  method ReadWeb(channel: WebSocket, calls: seq<bool>, ghost expected: seq<Message>, ghost tail: seq<u8>)
    returns (messages: seq<Message>, closed: bool)
    requires channel.protocol.Valid() && AllMessages(Web, expected) && Web.Incomplete(tail)
    requires channel.dataBuffer.Some? && channel.Stream() == Frames(Web, expected) + tail
    modifies channel`dataBuffer, channel.protocol`chunks, channel.protocol`waiting
    ensures messages <= expected && closed == channel.dataBuffer.None?
    ensures !closed ==> channel.Stream() == Frames(Web, expected[|messages|..]) + tail
    ensures closed ==> messages == expected
    ensures messages == expected || |messages| >= Blocking(calls)
  {
    hide Frames, Framing.Frame, Framing.Unexpected, Framing.Incomplete, Flat;
    messages, closed := [], false;
    for i := 0 to |calls|
      invariant channel.protocol.Valid() && messages <= expected && closed == channel.dataBuffer.None?
      invariant !closed ==> channel.Stream() == Frames(Web, expected[|messages|..]) + tail
      invariant closed ==> messages == expected
      invariant messages == expected || |messages| >= Blocking(calls[..i])
    {
      BlockingNext(calls, i);
      NothingLeft(Web, expected[|messages|..], tail);
      var reply := channel.GetMessage(calls[i]);
      match reply
      case Received(m) =>
        ReadNext(Web, messages, expected, tail, m, channel.Stream());
        messages := messages + [m];
      case Closed =>
        closed := true;
      case NotYet =>
      case UnexpectedFrame =>
    }
    assert calls[..|calls|] == calls;
  }

  // ---- strings in fragments

  const CLIENT_SOURCE := 8
  const CLIENT_SOURCE_PART := 9
  const EVAL := 17
  const EVAL_PART := 18

  datatype ByteOrder = Little | Big {
    function Unpack(w: seq<u8>): u32
      requires |w| == 4
    {
      if Little? then Get32(w, 0) else Get32([w[3], w[2], w[1], w[0]], 0)
    }

    function Pack(v: u32): (w: seq<u8>)
      ensures |w| == 4 && Unpack(w) == v
    {
      var w := Word(v);
      if Little? then w
      else
        var r := [w[3], w[2], w[1], w[0]];
        assert [r[3], r[2], r[1], r[0]] == w;
        r
    }
  }

  // The bytes of a word, the lowest or the highest first.
  lemma PackedBytes(order: ByteOrder, v: u32, i: nat)
    requires i < 4
    ensures order.Pack(v)[if order.Little? then i else 3 - i] == LowBytes(v, 4)[i]
    ensures LowBytes(v, 4) == [v % 0x100, v / 0x100 % 0x100, v / 0x1_0000 % 0x100, v / 0x100_0000]
  {
    FourBytes(v);
    hide LowBytes;
    var w := order.Pack(v);
    Get32Unique(if order.Little? then w else [w[3], w[2], w[1], w[0]], LowBytes(v, 4));
    WordIs(v);
  }

  // What the server makes of the messages (jerry_debugger_process_message).
  datatype Server = Idle | Awaiting(part: u8, size: nat, data: seq<u8>) | Got(text: seq<u8>) | Refused

  function Receive(order: ByteOrder, maxSize: nat, server: Server, m: Message): Server
    requires m != []
  {
    match server
    case Awaiting(part, size, data) =>
      if m[0] != part || |m| < 2 || |m| - 1 > size - |data| then Refused
      else if |m| - 1 < size - |data| then Awaiting(part, size, data + m[1..])
      else Got(data + m[1..])
    case Idle =>
      if m[0] == 17 then
        if |m| < 5 + 5 then Refused else ReceiveEval(maxSize, order.Unpack(m[1..5]), m[5..])
      else if m[0] == 8 then
        if |m| <= 5 then Refused else ReceiveSource(maxSize, order.Unpack(m[1..5]), m[5..])
      else Refused
    case Got(_) => server
    case Refused => server
  }

  function ReceiveEval(maxSize: nat, size: nat, data: seq<u8>): Server {
    if size <= maxSize - 5 then
      if size != |data| then Refused else Got(data)
    else Awaiting(18, size, data)
  }

  function ReceiveSource(maxSize: nat, size: nat, data: seq<u8>): Server {
    if size <= maxSize - 5 && size != |data| then Refused
    else if size == |data| then Got(data)
    else Awaiting(9, size, data)
  }

  function ReceiveAll(order: ByteOrder, maxSize: nat, messages: seq<Message>): Server
    requires [] !in messages
  {
    if messages == [] then Idle
    else Receive(order, maxSize, ReceiveAll(order, maxSize, messages[..|messages| - 1]), messages[|messages| - 1])
  }

  lemma ReceiveSnoc(order: ByteOrder, maxSize: nat, messages: seq<Message>, m: Message)
    requires [] !in messages && m != []
    ensures [] !in messages + [m]
    ensures ReceiveAll(order, maxSize, messages + [m]) == Receive(order, maxSize, ReceiveAll(order, maxSize, messages), m)
  {
    assert (messages + [m])[..|messages|] == messages;
  }

  function PartOf(messageType: u8): u8 {
    if messageType == 17 then 18 else 9
  }

  function FirstFragment(order: ByteOrder, messageType: u8, data: seq<u8>, n: nat): Message
    requires n <= |data| < 0x1_0000_0000
  {
    [messageType] + order.Pack(|data|) + data[..n]
  }

  // A slice of a sequence up to end; a negative end counts from the back.
  function SliceTo(s: seq<u8>, end: int): seq<u8> {
    if end < 0 then (if -end > |s| then [] else s[..|s| + end])
    else if end > |s| then s else s[..end]
  }

  // The first message of _send_string, with its length byte.
  function FirstMessage(order: ByteOrder, maxSize: u8, messageType: u8, data: seq<u8>): seq<u8>
    requires |data| < 0x1_0000_0000
  {
    var n := if maxSize - 5 < |data| then maxSize - 5 else |data|;
    [n + 5, messageType] + order.Pack(|data|) + (if |data| == n then data else SliceTo(data, n))
  }

  // Its length byte is true exactly from the smallest size on that leaves room for its header.
  lemma FirstLengthTrue(order: ByteOrder, maxSize: u8, messageType: u8, data: seq<u8>)
    requires |data| < 0x1_0000_0000
    ensures var message := FirstMessage(order, maxSize, messageType, data);
            && |message| >= 6 && (message[0] == |message| - 1 <==> maxSize >= 5)
            && (maxSize >= 5 ==>
                  var n := if maxSize - 5 < |data| then maxSize - 5 else |data|;
                  message[1..] == FirstFragment(order, messageType, data, n))
  {
    hide ByteOrder.Pack;
    var n := if maxSize - 5 < |data| then maxSize - 5 else |data|;
    if maxSize >= 5 {
      assert data[..|data|] == data;
      assert FirstMessage(order, maxSize, messageType, data) == [n + 5] + ([messageType] + order.Pack(|data|) + data[..n]);
    }
  }

  // The bytes of the string that the server wants to see in the first message: an expression
  // has the index of its scope chain in front.
  function Needed(messageType: u8): nat {
    if messageType == 17 then 5 else 1
  }

  // After n bytes of the data: all of them received, or the rest awaited.
  function SoFar(messageType: u8, data: seq<u8>, n: nat): Server
    requires n <= |data|
  {
    if n == |data| then Got(data) else Awaiting(PartOf(messageType), |data|, data[..n])
  }

  lemma FirstReceived(order: ByteOrder, maxSize: nat, messageType: u8, data: seq<u8>, n: nat)
    requires messageType == 17 || messageType == 8
    requires |data| < 0x1_0000_0000 && maxSize >= 5
    requires n == if maxSize - 5 < |data| then maxSize - 5 else |data|
    ensures var m := FirstFragment(order, messageType, data, n);
            && |m| == 5 + n && m[0] == messageType
            && Receive(order, maxSize, Idle, m) ==
               if n < Needed(messageType) then Refused else SoFar(messageType, data, n)
  {
    var m := FirstFragment(order, messageType, data, n);
    assert m[1..5] == order.Pack(|data|);
    assert m[5..] == data[..n];
    assert data[..|data|] == data;
  }

  lemma NextReceived(order: ByteOrder, maxSize: nat, messageType: u8, data: seq<u8>, n: nat, k: nat)
    requires n < k <= |data|
    ensures Receive(order, maxSize, SoFar(messageType, data, n), [PartOf(messageType)] + data[n..k])
         == SoFar(messageType, data, k)
  {
    var m := [PartOf(messageType)] + data[n..k];
    assert m[1..] == data[n..k];
    assert data[..n] + data[n..k] == data[..k];
    assert data[..|data|] == data;
  }

  lemma ReceiveNothing(order: ByteOrder, maxSize: nat)
    ensures ReceiveAll(order, maxSize, []) == Idle
  {}

  lemma AllSoFar(messageType: u8, data: seq<u8>)
    ensures SoFar(messageType, data, |data|) == Got(data)
  {}

  lemma FramesSent(sent: seq<u8>, framing: Framing, messages: seq<Message>, m: Message)
    requires AllMessages(framing, messages) && framing.IsMessage(m)
    ensures AllMessages(framing, messages + [m])
    ensures sent + Frames(framing, messages + [m]) == sent + Frames(framing, messages) + framing.Frame(m)
  {
    FramesSnoc(framing, messages, m);
  }

  lemma RefusedStays(order: ByteOrder, maxSize: nat, m: Message)
    requires m != []
    ensures Receive(order, maxSize, Refused, m) == Refused
  {}

  lemma FragmentBytes(length: u8, messageType: u8, data: seq<u8>, n: nat, k: nat)
    requires n <= k <= |data| < 0x1_0000_0000
    ensures ([length, messageType] + data[n..k])[1..] == [messageType] + data[n..k]
  {
    assert [length, messageType] + data[n..k] == [length] + ([messageType] + data[n..k]);
  }

  datatype Channel = RawChannel(raw: RawPacket) | WebChannel(web: WebSocket) {
    function Outgoing(): Framing {
      if RawChannel? then Raw else WebClient
    }

    function ProtocolOf(): Protocol {
      if RawChannel? then raw.protocol else web.protocol
    }

    // A message starts with its length.
    method SendMessage(message: seq<u8>)
      requires message != [] && message[0] == |message| - 1 && Outgoing().IsMessage(message[1..])
      modifies ProtocolOf()`sent
      ensures ProtocolOf().sent == old(ProtocolOf().sent) + Outgoing().Frame(message[1..])
    {
      if RawChannel? {
        assert message == Raw.Frame(message[1..]);
        raw.SendMessage(message);
      } else {
        web.SendMessage(message);
        assert old(web.protocol.sent) + WebClient.Header(message[0]) + message[1..]
            == old(web.protocol.sent) + WebClient.Frame(message[1..]);
      }
    }
  }

  class Client {
    const channel: Channel
    const maxMessageSize: u8
    const byteOrder: ByteOrder

    constructor (channel: Channel, maxMessageSize: u8, byteOrder: ByteOrder)
      ensures this.channel == channel && this.maxMessageSize == maxMessageSize && this.byteOrder == byteOrder
    {
      this.channel, this.maxMessageSize, this.byteOrder := channel, maxMessageSize, byteOrder;
    }

    // The string with, for an expression, the index of its scope chain.
    function Payload(args: seq<u8>, messageType: u8, index: u32): seq<u8> {
      if messageType == 17 then byteOrder.Pack(index) + args else args
    }

    // All but the last are of the largest size.
    ghost predicate Sized(fragments: seq<Message>) {
      (forall i :: 0 <= i < |fragments| ==> 1 <= |fragments[i]| <= maxMessageSize) &&
      (forall i :: 0 <= i < |fragments| - 1 ==> |fragments[i]| == maxMessageSize)
    }

    lemma SizedSnoc(fragments: seq<Message>, next: Message)
      requires Sized(fragments) && 1 <= |next| <= maxMessageSize
      requires fragments != [] ==> |fragments[|fragments| - 1]| == maxMessageSize
      ensures Sized(fragments + [next]) && [] !in fragments + [next]
    {}

    // _send_string: the bytes sent are frames of at most the largest size, all but the last of
    // that size; and the server puts the string together again, unless the string is empty or
    // the first frame has no room for what the server wants to see in it.
    method SendString(args: seq<u8>, messageType: u8, index: u32) returns (ghost fragments: seq<Message>)
      requires messageType == EVAL || messageType == CLIENT_SOURCE
      requires 5 <= maxMessageSize <= channel.Outgoing().MaxSize()
      requires |args| + (if messageType == EVAL then 4 else 0) < 0x1_0000_0000
      modifies channel.ProtocolOf()`sent
      ensures AllMessages(channel.Outgoing(), fragments) && Sized(fragments)
      ensures channel.ProtocolOf().sent == old(channel.ProtocolOf().sent) + Frames(channel.Outgoing(), fragments)
      ensures var server := ReceiveAll(byteOrder, maxMessageSize, fragments);
              if args == [] || maxMessageSize < (if messageType == EVAL then 10 else 6) then server.Refused?
              else
                && server.Got?
                && (if messageType == EVAL then
                      && |server.text| == 4 + |args| && byteOrder.Unpack(server.text[..4]) == index
                      && server.text[4..] == args
                    else server.text == args)
    {
      hide Sized, AllMessages, Receive, ReceiveAll, SoFar, ByteOrder.Pack, FirstMessage, FirstFragment, Framing.Frame, Frames;
      NoFrames(channel.Outgoing(), channel.ProtocolOf().sent);
      var header := 1 + 4;
      var data := Payload(args, messageType, index);
      var size := |data|;
      var maxFragment := if maxMessageSize - header < size then maxMessageSize - header else size;
      var message := FirstMessage(byteOrder, maxMessageSize, messageType, data);
      FirstLengthTrue(byteOrder, maxMessageSize, messageType, data);
      ghost var first := FirstFragment(byteOrder, messageType, data, maxFragment);
      FirstReceived(byteOrder, maxMessageSize, messageType, data, maxFragment);
      ghost var refused := maxFragment < Needed(messageType);
      fragments := [];
      FramesSent(channel.ProtocolOf().sent, channel.Outgoing(), fragments, first);
      SizedSnoc(fragments, first);
      ReceiveNothing(byteOrder, maxMessageSize);
      ReceiveSnoc(byteOrder, maxMessageSize, fragments, first);
      assert fragments + [first] == [first];
      fragments := [first];
      AllSoFar(messageType, data);
      channel.SendMessage(message);
      if size == maxFragment {
        return;
      }
      var offset := maxFragment;
      var part: u8 := if messageType == EVAL then EVAL_PART else CLIENT_SOURCE_PART;
      header := 1;
      maxFragment := maxMessageSize - header;
      while offset < size
        invariant offset <= size && AllMessages(channel.Outgoing(), fragments) && Sized(fragments) && [] !in fragments
        invariant offset < size ==> fragments != [] && |fragments[|fragments| - 1]| == maxMessageSize
        invariant channel.ProtocolOf().sent == old(channel.ProtocolOf().sent) + Frames(channel.Outgoing(), fragments)
        invariant ReceiveAll(byteOrder, maxMessageSize, fragments) == if refused then Refused else SoFar(messageType, data, offset)
      {
        var nextFragment := if maxFragment < size - offset then maxFragment else size - offset;
        message := [nextFragment + header, part];
        var prevOffset := offset;
        offset := offset + nextFragment;
        ghost var next: Message := [part] + data[prevOffset..offset];
        FragmentBytes(message[0], part, data, prevOffset, offset);
        FramesSent(old(channel.ProtocolOf().sent), channel.Outgoing(), fragments, next);
        SizedSnoc(fragments, next);
        ReceiveSnoc(byteOrder, maxMessageSize, fragments, next);
        NextReceived(byteOrder, maxMessageSize, messageType, data, prevOffset, offset);
        RefusedStays(byteOrder, maxMessageSize, next);
        fragments := fragments + [next];
        channel.SendMessage(message + data[prevOffset..offset]);
      }
    }
  }
}
