/** When each connector operation succeeds, and what it leaves behind: exact conditions. */
module ConnectionLaws {
  import opened Bytes
  import opened IpcFrame
  import opened Connection
  import opened ByteStream
  import C = Connector

  // ---------- Frames ----------

  /** An acceptable frame is its header, written out, and a body that is the value or decompresses to it. */
  ghost predicate FrameLayout(frame: seq<Byte>, maximum: Option<nat>, kind: Byte, body: seq<Byte>) {
    && |frame| >= 10 && frame[0] == 1 && frame[1] == kind <= 2 && frame[2] <= 2
    && frame[3] * 0x1_0000_0000 + FromLittleEndian(frame[4..8]) == |frame|
    && (if frame[2] == 0 then body == frame[8..]
        else Unguarded(frame[8..], frame[2]) == Ok(body) && |body| >= 2)
    && (maximum.Some? ==> |body| + 8 <= maximum.value)
  }

  /** A frame is accepted with a kind and a body if and only if it has that layout. */
  lemma FrameDecodesExactly(frame: seq<Byte>, maximum: Option<nat>, kind: Byte, body: seq<Byte>)
    requires |frame| <= ISIZE_MAX && |body| <= ISIZE_MAX
    ensures DecodeFrame(frame, maximum) == Ok((kind, body)) <==> FrameLayout(frame, maximum, kind, body)
  {
    hide Unguarded;
    if |frame| >= 10 {
      var header := frame[..8];
      assert header[4..8] == frame[4..8] && forall i :: 0 <= i < 8 ==> header[i] == frame[i];
      if ParseHeader(header).Ok? && ParseHeader(header).value.total == |frame| && frame[2] > 0 {
        GuardsRefuseNoLegalFrame(ParseHeader(header).value, frame[8..], maximum, body);
      }
    }
  }

  /** A length is written exactly when 40 bits hold it, and reads back from the five bytes it takes. */
  lemma LengthHeaderExactly(total: nat)
    ensures LengthHeader(total).Ok? <==> total < 0x100_0000_0000
    ensures LengthHeader(total).Ok? ==>
      var bytes := LengthHeader(total).value;
      bytes[0] * 0x1_0000_0000 + FromLittleEndian(bytes[1..]) == total
  {
    hide LittleEndian, FromLittleEndian;
    if total < 0x100_0000_0000 {
      var bytes := LengthHeader(total).value;
      assert bytes[1..] == LittleEndian(total, 4);
      var header := [0, 0, 0] + bytes;
      assert header[4..8] == bytes[1..];
      LengthFieldReadsBack(header, total);
    }
  }

  // ---------- Receive ----------

  /** A queued notification is handed out first, whatever the connection holds. */
  lemma ReceiveServesQueue<V>(settings: Settings<V>, c: Client<V>, aborted: bool)
    requires c.pending != []
    ensures Receive(settings, c, aborted) == Effect(Value(c.pending[0]), Client(c.link, c.pending[1..]), [])
  {
  }

  /** The input starts with one whole frame, asynchronous or a response, of this value. */
  ghost predicate FrameReady<V>(
    settings: Settings<V>, unread: seq<Byte>, value: Option<V>, client: Client<V>, arrivals: seq<Arrival>)
  {
    && |arrivals| == 1 && arrivals[0].role == Notice
    && (var frame := arrivals[0].frame;
        && WholeFrame(frame, settings.maximum) && (frame.kind == ASYNC || frame.kind == RESPONSE)
        && value == settings.decode(frame.body)
        && client.link.Open? && unread == frame.raw + client.link.unread && client.pending == [])
  }

  /** With nothing queued, `receive` succeeds exactly when a whole frame that is no request comes next. */
  lemma ReceiveTakesNextFrame<V>(
    settings: Settings<V>, unread: seq<Byte>, value: Option<V>, client: Client<V>, arrivals: seq<Arrival>)
    ensures Receive(settings, Client(Open(unread), []), false) == Effect(Value(value), client, arrivals)
       <==> FrameReady(settings, unread, value, client, arrivals)
  {
    hide NextFrame, WholeFrame;
    var next := NextFrame(unread, settings.maximum);
    if next.Some? {
      assert unread == next.value.raw + unread[|next.value.raw|..];
    }
    if FrameReady(settings, unread, value, client, arrivals) {
      var frame := arrivals[0].frame;
      WholeFrameIsNext(frame, client.link.unread, settings.maximum);
      assert unread[|frame.raw|..] == client.link.unread;
      assert arrivals == [Arrival(frame, Notice)];
    }
  }

  /** Otherwise it fails, and the connection is closed. */
  lemma ReceiveFailsClosed<V>(settings: Settings<V>, c: Client<V>, aborted: bool)
    requires c.pending == []
    ensures var e := Receive(settings, c, aborted);
      && (e.outcome.Value? || e.outcome.Failure?)
      && (e.outcome.Failure? <==> e.client.link == Closed)
      && (aborted ==> e.outcome.Failure?)
  {
    hide NextFrame;
  }

  // ---------- Connecting and sending ----------

  /** `connect` succeeds exactly when it is not aborted and there is a connection or one can be dialled. */
  lemma ConnectExactly<V>(c: Client<V>, dial: Option<seq<Byte>>, aborted: bool)
    ensures var e := Connect(c, dial, aborted);
      && (e.outcome.Done? <==> !aborted && (c.link.Open? || dial.Some?))
      && (e.outcome.Failure? <==> e.client.link == Closed)
      && (e.outcome.Done? && c.link.Open? ==> e.client.link == c.link)
      && (e.outcome.Done? && c.link.Closed? ==> e.client.link == Open(dial.value))
      && e.client.pending == c.pending && e.arrivals == []
  {
  }

  /**
   `execute_async` is done exactly when everything was sent on a connection it had or dialled; a failed write
   or an abort closes the connection, and a request that was never written leaves it as it was.
   */
  lemma ExecuteAsyncExactly<V>(c: Client<V>, dial: Option<seq<Byte>>, sending: Sending, aborted: bool)
    ensures var e := ExecuteAsync(c, dial, sending, aborted);
      && (e.outcome.Done? <==> !aborted && sending == Sent && (c.link.Open? || dial.Some?))
      && (e.outcome.Done? || e.outcome.Failure?)
      && (e.client.link.Open? <==> !aborted && sending != WriteFailed && (c.link.Open? || dial.Some?))
      && (e.client.link.Open? && c.link.Open? ==> e.client.link == c.link)
      && (e.client.link.Open? && c.link.Closed? ==> e.client.link == Open(dial.value))
      && e.client.pending == c.pending && e.arrivals == []
  {
  }

  /** `execute` reads nothing unless its request was written, and a failed write closes the connection. */
  lemma ExecuteUnsent<V>(settings: Settings<V>, c: Client<V>, dial: Option<seq<Byte>>, sending: Sending, aborted: bool)
    requires sending != Sent || (c.link.Closed? && dial.None?)
    ensures var e := Execute(settings, c, dial, sending, aborted);
      && e.outcome.Failure? && e.client.pending == c.pending && e.arrivals == []
      && (e.client.link.Open? <==> !aborted && sending == Unsent && (c.link.Open? || dial.Some?))
      && (e.client.link.Open? && c.link.Open? ==> e.client.link == c.link)
      && (e.client.link.Open? && c.link.Closed? ==> e.client.link == Open(dial.value))
  {
    hide AwaitReply;
  }

  /** `shutdown` succeeds exactly when there is a connection, closes it, and keeps the queue. */
  lemma ShutdownExactly<V>(c: Client<V>)
    ensures var e := Shutdown(c);
      && (e.outcome.Done? <==> c.link.Open?) && (e.outcome.Failure? <==> c.link.Closed?)
      && e.client == Client(Closed, c.pending) && e.arrivals == []
  {
  }

  // ---------- Dialling ----------

  /** The bytes of deliveries without interruption or failure are read in order. */
  lemma {:induction false} ReadableInOrder(first: seq<Byte>, rest: seq<Event>)
    requires first != []
    ensures Readable([Deliver(first)] + rest) == first + Readable(rest)
    ensures Readable([Interrupted] + rest) == Readable(rest)
    ensures Readable([Fail] + rest) == [] && Readable([]) == []
  {
    assert ([Deliver(first)] + rest)[1..] == rest && ([Interrupted] + rest)[1..] == rest;
  }

  /** A dialled stream is used exactly when its first delivery starts with a supported version. */
  lemma HandshakeExactly(version: Byte, more: seq<Byte>, rest: seq<Event>)
    ensures C.Handshake([Deliver([version] + more)] + rest)
      == if version == 0 then None else Some(more + Readable(rest))
    ensures C.Handshake([Interrupted] + rest) == None && C.Handshake([Fail] + rest) == None && C.Handshake([]) == None
    ensures C.Handshake([Deliver([])] + rest) == None
  {
    hide Readable;
    ReadableInOrder([version] + more, rest);
    assert (([version] + more) + Readable(rest))[1..] == more + Readable(rest);
  }
}
