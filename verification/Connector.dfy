/** The connector object: framing over a chunked stream, and the operations built on it. */
module Connector {
  import opened Bytes
  import opened IpcFrame
  import opened ByteStream
  import opened BodyReader
  import opened Connection
  import P = Pipeline

  const PIPELINE_MIN_BODY_BYTES := 256 * 1024
  const TABLE_TYPE: Byte := 98

  // ---------- Reading one frame ----------

  function PrefixLength(mode: Byte): nat {
    if mode == 0 then 0 else if mode == 1 then 4 else 8
  }

  /** The checks made before any of the body is read, on the length prefix of a compressed frame. */
  predicate PreambleAccepted(header: Header, prefix: seq<Byte>, maximum: Option<nat>)
    requires header.mode <= 2
  {
    if header.mode == 0 then EnforceMessageBound(header.total, maximum).None?
    else
      var declared := CompressedMessageLength(prefix, header.mode);
      && declared.Ok?
      && EnforceMessageBound(declared.value.0, maximum).None?
      && EnforcePhysicalBound(header.total, declared.value.0, PrefixLength(header.mode)).None?
  }

  /** The early checks are among those made on the whole body, so they refuse no acceptable frame. */
  lemma EarlyChecksAreNotNew(header: Header, body: seq<Byte>, maximum: Option<nat>)
    requires header.total >= 10 && header.mode <= 2 && PrepareBody(header, body, maximum).Ok?
    ensures PrefixLength(header.mode) <= |body|
    ensures PreambleAccepted(header, body[..PrefixLength(header.mode)], maximum)
  {
    var n := PrefixLength(header.mode);
    if header.mode > 0 {
      assert n <= |body|;
      assert body[..n][..n] == body[..n];
    }
  }

  /** A frame can only be next if its header parses and its preamble is accepted. */
  lemma NextFrameParts(input: seq<Byte>, maximum: Option<nat>)
    ensures NextFrame(input, maximum).Some? ==>
      && |input| >= 8 && ParseHeader(input[..8]).Ok?
      && (var header := ParseHeader(input[..8]).value;
          && header.total <= |input|
          && PrefixLength(header.mode) <= header.total - 8
          && PreambleAccepted(header, input[8..][..PrefixLength(header.mode)], maximum))
    ensures |input| >= 8 && ParseHeader(input[..8]).Ok? && ParseHeader(input[..8]).value.total <= |input| ==>
      var header := ParseHeader(input[..8]).value;
      var body := input[8..][..header.total - 8];
      NextFrame(input, maximum) == match PrepareBody(header, body, maximum)
        case Ok(value) => Some(Frame(input[..header.total], header.kind, value))
        case Err(_) => None
  {
    hide PrepareBody, PreambleAccepted;
    if |input| >= 8 && ParseHeader(input[..8]).Ok? && ParseHeader(input[..8]).value.total <= |input| {
      var header := ParseHeader(input[..8]).value;
      hide ParseHeader;
      var raw := input[..header.total];
      assert raw[..8] == input[..8];
      var body := input[8..][..header.total - 8];
      assert raw[8..] == body;
      if PrepareBody(header, body, maximum).Ok? {
        EarlyChecksAreNotNew(header, body, maximum);
        var n := PrefixLength(header.mode);
        PreparedLength(header, body, maximum);
        assert body[..n] == input[8..][..n];
      }
    }
  }

  lemma PreparedLength(header: Header, body: seq<Byte>, maximum: Option<nat>)
    requires header.total >= 10 && PrepareBody(header, body, maximum).Ok?
    ensures |body| == header.total - 8
  {
  }

  /** An uncompressed body of the declared length is itself the value body. */
  lemma PlainIsPrepared(header: Header, body: seq<Byte>, maximum: Option<nat>)
    requires header.total >= 10 && header.mode == 0 && |body| == header.total - 8
      && PreambleAccepted(header, [], maximum)
    ensures PrepareBody(header, body, maximum) == Ok(body)
  {
  }

  /** The header and, for a compressed frame, the length prefix, refused as early as possible. */
  method ReadPreamble(stream: Stream, maximum: Option<nat>) returns (r: Option<(Header, seq<Byte>)>)
    modifies stream
    ensures r.None? ==> NextFrame(old(stream.Unread()), maximum).None?
    ensures r.Some? ==>
      var (header, prefix) := r.value;
      var input := old(stream.Unread());
      && |input| >= 8 && ParseHeader(input[..8]) == Ok(header)
      && |prefix| == PrefixLength(header.mode) <= header.total - 8
      && PreambleAccepted(header, prefix, maximum)
      && input[8..] == prefix + stream.Unread()
  {
    hide NextFrame, ParseHeader, PreambleAccepted;
    ghost var input := stream.Unread();
    NextFrameParts(input, maximum);
    var bytes := stream.ReadExact(HEADER_LENGTH);
    if bytes.None? {
      return None;
    }
    var parsed := ParseHeader(bytes.value);
    if parsed.Err? {
      return None;
    }
    var header := parsed.value;
    var count := PrefixLength(header.mode);
    if count > header.total - HEADER_LENGTH {
      return None;
    }
    var prefix := stream.ReadExact(count);
    if prefix.None? {
      return None;
    }
    if !PreambleAccepted(header, prefix.value, maximum) {
      return None;
    }
    return Some((header, prefix.value));
  }

  /** Where a body has been read to: the retained buffer, or straight into a pipelined table decode. */
  datatype Source = Buffered | Pipelined(body: seq<Byte>)

  function LargerOf(a: nat, b: nat): nat {
    if a < b then b else a
  }

  /** What a declared length alone may reserve. */
  function FirstReservation(length: nat): (r: nat)
    ensures r <= length && r <= 0x200_0000 && (r == length || r == 0x200_0000)
  {
    if length < INITIAL_BODY_RESERVATION then length else INITIAL_BODY_RESERVATION
  }

  /** Empties and reserves the retained buffer for a body of this length and puts its prefix in. */
  method StartBody(prefix: seq<Byte>, length: nat, buffer: ReceiveBuffer)
    requires buffer.FullyInitialised() && |prefix| <= length && 0 < length
    modifies buffer
    ensures buffer.FullyInitialised() && buffer.data == prefix && buffer.capacity > 0
    ensures buffer.capacity == LargerOf(old(buffer.capacity), LargerOf(FirstReservation(length), |prefix|))
  {
    buffer.Clear();
    buffer.Reserve(LargerOf(FirstReservation(length), |prefix|));
    buffer.Append(prefix);
  }

  /**
   Fills the buffer with exactly the declared body, or hands a large native table to the pipelined
   receiver. Either way the declared length is consumed and the whole capacity is initialised.
   */
  method FillBody(
    stream: Stream, prefix: seq<Byte>, length: nat, native: bool, buffer: ReceiveBuffer)
    returns (r: Option<Source>)
    requires buffer.FullyInitialised() && |prefix| <= length && 0 < length
    modifies stream, buffer
    ensures r.Some? <==> length - |prefix| <= |old(stream.Unread())|
    ensures r.Some? ==> buffer.FullyInitialised()
    ensures r.Some? ==>
      var body := if r.value.Buffered? then buffer.data else r.value.body;
      |body| == length && body + stream.Unread() == prefix + old(stream.Unread())
    ensures r.Some? && r.value.Pipelined? ==>
      native && prefix == [] && length >= 0x4_0000 && r.value.body[0] == 98
  {
    hide Readable;
    StartBody(prefix, length, buffer);
    if native && prefix == [] && length >= PIPELINE_MIN_BODY_BYTES && buffer.capacity >= length {
      var some := ReadSome(stream, buffer, length);
      if !some {
        return None;
      }
      if buffer.data[0] == TABLE_TYPE && |buffer.data| < length {
        ghost var held, rest := buffer.data, stream.Unread();
        var body := ReadRemaining(stream, buffer.data, length);
        assert body.Some? ==> (body.value + stream.Unread())[0] == (held + rest)[0];
        return if body.None? then None else Some(Pipelined(body.value));
      }
    }
    var ok, sizes := ReadMessageBody(stream, length, buffer);
    return if ok then Some(Buffered) else None;
  }

  /** Native decoding takes a body of table type through the sequential table branch. */
  ghost predicate DecodesTables<Name(!new), Column(!new), V>(
    settings: Settings<V>, d: P.Decoders<Name, Column>, wrap: P.Table<Name, Column> -> V)
  {
    settings.native && forall body: seq<Byte> :: body != [] && body[0] == TABLE_TYPE ==>
      settings.decode(body) == Wrapped(P.SequentialTable(d, body), wrap)
  }

  function Wrapped<Name, Column, V>(
    table: Option<P.Table<Name, Column>>, wrap: P.Table<Name, Column> -> V): Option<V>
  {
    if table.None? then None else Some(wrap(table.value))
  }

  /**
   The value of a pipelined body: however the receiver's reads were chunked and its steps interleaved, its
   table or failure is what decoding the consumed body as a whole gives.
   */
  lemma PipelinedBodyIsDecoded<Name(!new), Column(!new), V>(
    settings: Settings<V>, d: P.Decoders<Name, Column>, wrap: P.Table<Name, Column> -> V,
    body: seq<Byte>, run: seq<P.State<Name, Column>>)
    requires DecodesTables(settings, d, wrap) && body != [] && body[0] == TABLE_TYPE
    requires P.IsRun(d, body, run) && P.Ended(body, run[|run| - 1]) && !run[|run| - 1].failed
    ensures Wrapped(P.ReceivedTable(body, run[|run| - 1]), wrap) == settings.decode(body)
  {
    hide P.SequentialTable, P.IsRun, P.Ended, P.ReceivedTable;
    P.PipelineRefinesSequential(d, body, run);
  }

  datatype IpcBody<V> = Retained | Decompressed(bytes: seq<Byte>) | Decoded(value: Option<V>)

  /** How a received body stands for the value body `expected`. */
  ghost predicate Holds<V>(settings: Settings<V>, body: IpcBody<V>, data: seq<Byte>, expected: seq<Byte>) {
    match body
    case Retained => data == expected
    case Decompressed(bytes) => bytes == expected
    case Decoded(value) => value == settings.decode(expected)
  }

  /**
   One frame, whatever the chunking of the stream: it succeeds exactly when a complete acceptable frame
   is next, and then takes exactly that frame's bytes, whether or not its value decodes.
   */
  method ReadIpcBody<V>(
    stream: Stream, settings: Settings<V>, buffer: ReceiveBuffer)
    returns (r: Option<(Byte, IpcBody<V>)>)
    requires buffer.FullyInitialised()
    modifies stream, buffer
    ensures r.Some? <==> NextFrame(old(stream.Unread()), settings.maximum).Some?
    ensures r.Some? ==>
      var frame := NextFrame(old(stream.Unread()), settings.maximum).value;
      && r.value.0 == frame.kind
      && stream.Unread() == old(stream.Unread())[|frame.raw|..]
      && buffer.FullyInitialised()
      && Holds(settings, r.value.1, buffer.data, frame.body)
  {
    hide NextFrame, ParseHeader, PrepareBody, Readable;
    ghost var input := stream.Unread();
    NextFrameParts(input, settings.maximum);
    var preamble := ReadPreamble(stream, settings.maximum);
    if preamble.None? {
      return None;
    }
    var (header, prefix) := preamble.value;
    var length: nat := header.total - HEADER_LENGTH;
    ghost var rest := stream.Unread();
    var source := FillBody(stream, prefix, length, settings.native, buffer);
    if source.None? {
      return None;
    }
    ghost var read := if source.value.Buffered? then buffer.data else source.value.body;
    BodyOfInput(input, prefix + rest, read, stream.Unread());
    match source.value
    case Pipelined(body) =>
      PlainIsPrepared(header, body, settings.maximum);
      return Some((header.kind, Decoded(settings.decode(body))));
    case Buffered =>
      var prepared := PrepareBody(header, buffer.data, settings.maximum);
      if prepared.Err? {
        return None;
      }
      if header.mode == 0 {
        PlainIsPrepared(header, buffer.data, settings.maximum);
        return Some((header.kind, Retained));
      }
      return Some((header.kind, Decompressed(prepared.value)));
  }

  lemma BodyOfInput(input: seq<Byte>, tail: seq<Byte>, body: seq<Byte>, unread: seq<Byte>)
    requires |input| >= 8 && input[8..] == tail && body + unread == tail
    ensures body == input[8..][..|body|] && unread == input[8 + |body|..]
  {
    assert input[8 + |body|..] == tail[|body|..];
  }

  // ---------- The connector ----------

  /** The input a freshly dialled stream offers after its one-byte handshake, if that succeeds. */
  function Handshake(events: seq<Event>): Option<seq<Byte>> {
    if events != [] && events[0].Deliver? && events[0].bytes != [] && events[0].bytes[0] >= 1
    then Some(Readable(events)[1..])
    else None
  }

  function DialOutcome(dial: Stream?): Option<seq<Byte>>
    reads dial
  {
    if dial == null then None else Handshake(dial.events)
  }

  class Connector<V> {
    const settings: Settings<V>
    const buffer: ReceiveBuffer
    var stream: Stream?
    var pending: seq<Option<V>>

    constructor (settings: Settings<V>)
      ensures Valid() && View() == Client(Closed, []) && this.settings == settings && fresh(buffer)
    {
      this.settings := settings;
      buffer := new ReceiveBuffer();
      stream := null;
      pending := [];
    }

    /** Between operations the whole capacity of the retained buffer is initialised. */
    ghost predicate Valid()
      reads this, buffer
    {
      buffer.FullyInitialised()
    }

    ghost function View(): Client<V>
      reads this, stream
    {
      Client(if stream == null then Closed else Open(stream.Unread()), pending)
    }

    /** Drops the socket and the retained buffer. */
    method Disconnect()
      modifies this, buffer
      ensures Valid() && stream == null && pending == old(pending)
    {
      buffer.Release();
      stream := null;
    }

    /** The next frame; a framing failure or a synchronous request closes the connection. */
    method ReadNextFrame() returns (r: Option<(Byte, IpcBody<V>)>)
      requires Valid()
      modifies this, buffer, stream
      ensures Valid() && pending == old(pending)
      ensures stream == if r.None? then null else old(stream)
      ensures r.Some? <==>
        && old(stream) != null
        && (var next := NextFrame(old(stream.Unread()), settings.maximum); next.Some? && next.value.kind != SYNC)
      ensures r.Some? ==>
        var frame := NextFrame(old(stream.Unread()), settings.maximum).value;
        && r.value.0 == frame.kind
        && stream.Unread() == old(stream.Unread())[|frame.raw|..]
        && Holds(settings, r.value.1, buffer.data, frame.body)
    {
      hide NextFrame, Readable;
      if stream == null {
        return None;
      }
      r := ReadIpcBody(stream, settings, buffer);
      if r.None? || r.value.0 == SYNC {
        Disconnect();
        return None;
      }
    }

    /** Decodes a frame body; a lossless value takes the retained buffer with it. */
    method DecodeFrameBody(body: IpcBody<V>, ghost expected: seq<Byte>) returns (value: Option<V>)
      requires Valid() && Holds(settings, body, buffer.data, expected)
      modifies buffer
      ensures Valid() && value == settings.decode(expected)
      ensures buffer.capacity <= 0x1000_0000
    {
      match body {
        case Retained =>
          value := settings.decode(buffer.data);
          if !settings.native {
            buffer.Release();
          }
        case Decompressed(bytes) =>
          value := settings.decode(bytes);
        case Decoded(v) =>
          value := v;
      }
      buffer.ReleaseOversized();
    }

    /** `connect_inner`: an existing connection is kept, a new one must pass the handshake. */
    method ConnectInner(dial: Stream?) returns (ok: bool)
      requires Valid() && (dial == null || dial != stream)
      modifies this, dial
      ensures Valid() && ok == (stream != null)
      ensures View() == Client(Dialled(old(View()).link, old(DialOutcome(dial))), old(pending))
      ensures stream == old(stream) || stream == dial
    {
      if stream != null {
        return true;
      }
      if dial == null {
        return false;
      }
      ghost var input := dial.Unread();
      var version := dial.Read(1);
      match version
      case Got(bytes) =>
        assert bytes[0] == input[0] && dial.Unread() == input[1..];
        if bytes[0] < 1 {
          return false;
        }
        stream := dial;
        return true;
      case _ => return false;
    }

    /** The effect of a write: nothing was written, all of it was, or the connection is given up. */
    method Send(sending: Sending) returns (ok: bool)
      requires Valid()
      modifies this, buffer
      ensures Valid()
      ensures var e := SendOn(old(View()).link, old(pending), sending);
        View() == e.client && ok == e.outcome.Done?
      ensures stream == old(stream) || stream == null
    {
      if stream == null {
        return false;
      }
      if sending == WriteFailed {
        Disconnect();
      }
      return sending == Sent;
    }

    /** The waiting loop of `execute`. */
    method AwaitResponse() returns (outcome: Outcome<V>)
      requires Valid() && stream != null
      modifies this, buffer, stream
      ensures Valid()
      ensures var e := AwaitReply(settings, old(stream.Unread()), old(pending));
        outcome == e.outcome && View() == e.client
      ensures stream == old(stream) || stream == null
    {
      hide NextFrame, Readable;
      ghost var result := AwaitReply(settings, stream.Unread(), pending);
      while true
        invariant Valid() && stream == old(stream)
        invariant var e := AwaitReply(settings, stream.Unread(), pending);
          result.outcome == e.outcome && result.client == e.client
        decreases |stream.Unread()|
      {
        ghost var next := NextFrame(stream.Unread(), settings.maximum);
        var message := ReadNextFrame();
        if message.None? {
          return Failure;
        }
        var (kind, body) := message.value;
        if kind == RESPONSE {
          var value := DecodeFrameBody(body, next.value.body);
          return Value(value);
        }
        if |pending| >= settings.maxPending {
          Disconnect();
          return Failure;
        }
        var notification := DecodeFrameBody(body, next.value.body);
        pending := pending + [notification];
      }
    }

    /** `finish_operation`: an aborted operation gives its connection up and fails. */
    method FinishOperation(outcome: Outcome<V>, aborted: bool) returns (r: Outcome<V>)
      requires Valid()
      modifies this, buffer
      ensures Valid() && pending == old(pending)
      ensures if aborted then r == Failure && stream == null else r == outcome && stream == old(stream)
      ensures !aborted ==> buffer.data == old(buffer.data)
    {
      if aborted {
        Disconnect();
        return Failure;
      }
      return outcome;
    }

    method Execute(dial: Stream?, sending: Sending, aborted: bool) returns (outcome: Outcome<V>)
      requires Valid() && (dial == null || dial != stream)
      modifies this, buffer, stream, dial
      ensures Valid()
      ensures var e := Connection.Execute(settings, old(View()), old(DialOutcome(dial)), sending, aborted);
        outcome == e.outcome && View() == e.client
    {
      hide AwaitReply, Readable, Handshake;
      outcome := Failure;
      var connected := ConnectInner(dial);
      if connected {
        var sent := Send(sending);
        if sent {
          outcome := AwaitResponse();
        }
      }
      outcome := FinishOperation(outcome, aborted);
    }

    method ExecuteAsync(dial: Stream?, sending: Sending, aborted: bool) returns (outcome: Outcome<V>)
      requires Valid() && (dial == null || dial != stream)
      modifies this, buffer, dial
      ensures Valid()
      ensures var e := Connection.ExecuteAsync(old(View()), old(DialOutcome(dial)), sending, aborted);
        outcome == e.outcome && View() == e.client
    {
      hide Readable, Handshake;
      outcome := Failure;
      var connected := ConnectInner(dial);
      if connected {
        var sent := Send(sending);
        if sent {
          outcome := Done;
        }
      }
      outcome := FinishOperation(outcome, aborted);
    }

    method Connect(dial: Stream?, aborted: bool) returns (outcome: Outcome<V>)
      requires Valid() && (dial == null || dial != stream)
      modifies this, buffer, dial
      ensures Valid()
      ensures var e := Connection.Connect(old(View()), old(DialOutcome(dial)), aborted);
        outcome == e.outcome && View() == e.client
    {
      hide Readable, Handshake;
      var connected := ConnectInner(dial);
      outcome := FinishOperation(if connected then Done else Failure, aborted);
    }

    method Receive(aborted: bool) returns (outcome: Outcome<V>)
      requires Valid()
      modifies this, buffer, stream
      ensures Valid()
      ensures var e := Connection.Receive(settings, old(View()), aborted);
        outcome == e.outcome && View() == e.client
    {
      hide NextFrame, Readable;
      if pending != [] {
        var first := pending[0];
        pending := pending[1..];
        return Value(first);
      }
      ghost var next := if stream == null then None else NextFrame(stream.Unread(), settings.maximum);
      outcome := Failure;
      var message := ReadNextFrame();
      if message.Some? {
        var value := DecodeFrameBody(message.value.1, next.value.body);
        outcome := Value(value);
      }
      outcome := FinishOperation(outcome, aborted);
    }

    method Shutdown() returns (outcome: Outcome<V>)
      requires Valid()
      modifies this
      ensures Valid()
      ensures var e := Connection.Shutdown(old(View())); outcome == e.outcome && View() == e.client
    {
      outcome := if stream == null then Failure else Done;
      stream := null;
    }
  }
}
