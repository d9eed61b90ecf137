/**
 What each connector operation does to the unread input of its connection and to the queue of
 notifications, and what every run of operations keeps. A connection's input is the sequence of bytes
 that can be read from it after the handshake, before it ends or fails.
 */
module Connection {
  import opened Bytes
  import opened IpcFrame

  const ASYNC: Byte := 0
  const SYNC: Byte := 1
  const RESPONSE: Byte := 2

  /** A frame: its bytes on the wire, its message kind and the value body inside it. */
  datatype Frame = Frame(raw: seq<Byte>, kind: Byte, body: seq<Byte>)

  ghost predicate WholeFrame(frame: Frame, maximum: Option<nat>) {
    DecodeFrame(frame.raw, maximum) == Ok((frame.kind, frame.body))
  }

  /** The frame at the head of `input`, if a complete and acceptable one is there. */
  function NextFrame(input: seq<Byte>, maximum: Option<nat>): (r: Option<Frame>)
    ensures r.Some? ==> 10 <= |r.value.raw| && r.value.raw <= input && r.value.kind <= 2 && WholeFrame(r.value, maximum)
  {
    if |input| < HEADER_LENGTH then None
    else
      var header := ParseHeader(input[..8]);
      if header.Err? || |input| < header.value.total then None
      else
        var raw := input[..header.value.total];
        assert raw[..8] == input[..8];
        var decoded := DecodeFrame(raw, maximum);
        if decoded.Err? then None else Some(Frame(raw, decoded.value.0, decoded.value.1))
  }

  /** A whole frame is found at the head of the input whatever follows it. */
  lemma WholeFrameIsNext(frame: Frame, rest: seq<Byte>, maximum: Option<nat>)
    requires WholeFrame(frame, maximum)
    ensures NextFrame(frame.raw + rest, maximum) == Some(frame)
  {
    hide ParseHeader, PrepareBody;
    var input := frame.raw + rest;
    assert input[..8] == frame.raw[..8];
    assert input[..|frame.raw|] == frame.raw;
  }

  // ---------- Operations ----------

  /** `decode` is value decoding in the configured mode; `None` is a decoding error. */
  datatype Settings<!V> = Settings(maximum: Option<nat>, maxPending: nat, native: bool, decode: seq<Byte> -> Option<V>)

  datatype Link = Closed | Open(unread: seq<Byte>)

  datatype Client<V> = Client(link: Link, pending: seq<Option<V>>)

  /** What became of a frame: kept for `receive`, returned by `execute`, over the limit, or lost to an abort. */
  datatype Role = Notice | Reply | Refused | Lost

  datatype Arrival = Arrival(frame: Frame, role: Role)

  datatype Outcome<V> = Failure | Done | Value(value: Option<V>)

  datatype Effect<V> = Effect(outcome: Outcome<V>, client: Client<V>, arrivals: seq<Arrival>)

  /** How sending a request went: nothing written, all written, or a failed write. */
  datatype Sending = Unsent | Sent | WriteFailed

  function Fails<V>(pending: seq<Option<V>>): Effect<V> {
    Effect(Failure, Client(Closed, pending), [])
  }

  /** The loop of `execute`: queue notifications until the response. */
  function AwaitReply<V>(settings: Settings<V>, unread: seq<Byte>, pending: seq<Option<V>>): Effect<V>
    decreases |unread|
  {
    var next := NextFrame(unread, settings.maximum);
    if next.None? || next.value.kind == SYNC then Fails(pending)
    else
      var frame, rest := next.value, unread[|next.value.raw|..];
      var value := settings.decode(frame.body);
      if frame.kind == RESPONSE then Effect(Value(value), Client(Open(rest), pending), [Arrival(frame, Reply)])
      else if |pending| >= settings.maxPending then Effect(Failure, Client(Closed, pending), [Arrival(frame, Refused)])
      else
        var later := AwaitReply(settings, rest, pending + [value]);
        later.(arrivals := [Arrival(frame, Notice)] + later.arrivals)
  }

  /** The connection an operation works on, dialled first if there is none. */
  function Dialled(link: Link, dial: Option<seq<Byte>>): Link {
    if link.Open? then link else if dial.Some? then Open(dial.value) else Closed
  }

  function Finish<V>(e: Effect<V>, aborted: bool): Effect<V>
    requires e.outcome.Value? ==> e.arrivals != []
  {
    if !aborted then e
    else
      var n := |e.arrivals|;
      var arrivals := if e.outcome.Value? then e.arrivals[..n - 1] + [e.arrivals[n - 1].(role := Lost)] else e.arrivals;
      Effect(Failure, Client(Closed, e.client.pending), arrivals)
  }

  function SendOn<V>(link: Link, pending: seq<Option<V>>, sending: Sending): Effect<V> {
    if link.Closed? || sending == WriteFailed then Fails(pending)
    else Effect(if sending == Sent then Done else Failure, Client(link, pending), [])
  }

  function ExecuteInner<V>(
    settings: Settings<V>, c: Client<V>, dial: Option<seq<Byte>>, sending: Sending): (e: Effect<V>)
  {
    var link := Dialled(c.link, dial);
    var sent := SendOn(link, c.pending, sending);
    if sent.outcome.Failure? then sent else AwaitReply(settings, link.unread, c.pending)
  }

  lemma {:induction false} ReplyArrives<V>(settings: Settings<V>, unread: seq<Byte>, pending: seq<Option<V>>)
    ensures var e := AwaitReply(settings, unread, pending); e.outcome.Value? ==> e.arrivals != []
    ensures AwaitReply(settings, unread, pending).outcome.Done? == false
    decreases |unread|
  {
    hide NextFrame;
    var next := NextFrame(unread, settings.maximum);
    if next.Some? {
      ReplyArrives(settings, unread[|next.value.raw|..], pending + [settings.decode(next.value.body)]);
    }
  }

  lemma ValueArrives<V>(settings: Settings<V>, c: Client<V>, dial: Option<seq<Byte>>, sending: Sending)
    ensures var e := ExecuteInner(settings, c, dial, sending); e.outcome.Value? ==> e.arrivals != []
  {
    var link := Dialled(c.link, dial);
    if link.Open? {
      ReplyArrives(settings, link.unread, c.pending);
    }
  }

  function Execute<V>(
    settings: Settings<V>, c: Client<V>, dial: Option<seq<Byte>>, sending: Sending, aborted: bool): Effect<V>
  {
    ValueArrives(settings, c, dial, sending);
    Finish(ExecuteInner(settings, c, dial, sending), aborted)
  }

  function ExecuteAsync<V>(c: Client<V>, dial: Option<seq<Byte>>, sending: Sending, aborted: bool): Effect<V> {
    Finish(SendOn(Dialled(c.link, dial), c.pending, sending), aborted)
  }

  function ReceiveInner<V>(settings: Settings<V>, c: Client<V>): Effect<V> {
    if c.link.Closed? then Fails(c.pending)
    else
      var next := NextFrame(c.link.unread, settings.maximum);
      if next.None? || next.value.kind == SYNC then Fails(c.pending)
      else
        var rest := c.link.unread[|next.value.raw|..];
        Effect(Value(settings.decode(next.value.body)), Client(Open(rest), c.pending), [Arrival(next.value, Notice)])
  }

  /** A queued notification is returned without touching the connection. */
  function Receive<V>(settings: Settings<V>, c: Client<V>, aborted: bool): Effect<V> {
    if c.pending != [] then Effect(Value(c.pending[0]), Client(c.link, c.pending[1..]), [])
    else Finish(ReceiveInner(settings, c), aborted)
  }

  function Connect<V>(c: Client<V>, dial: Option<seq<Byte>>, aborted: bool): Effect<V> {
    var link := Dialled(c.link, dial);
    Finish(Effect(if link.Open? then Done else Failure, Client(link, c.pending), []), aborted)
  }

  function Shutdown<V>(c: Client<V>): Effect<V> {
    Effect(if c.link.Open? then Done else Failure, Client(Closed, c.pending), [])
  }

  // ---------- What one operation takes from its connection ----------

  function Raw(arrivals: seq<Arrival>): seq<Byte> {
    if arrivals == [] then [] else arrivals[0].frame.raw + Raw(arrivals[1..])
  }

  /** The values of the frames with one role, in arrival order. */
  function ValuesOf<V>(decode: seq<Byte> -> Option<V>, arrivals: seq<Arrival>, role: Role): seq<Option<V>> {
    if arrivals == [] then []
    else
      (if arrivals[0].role == role then [decode(arrivals[0].frame.body)] else [])
      + ValuesOf(decode, arrivals[1..], role)
  }

  lemma RawCons(a: seq<Arrival>)
    ensures Raw(a) == if a == [] then [] else a[0].frame.raw + Raw(a[1..])
  {
  }

  lemma {:induction false} RawConcat(a: seq<Arrival>, b: seq<Arrival>)
    ensures Raw(a + b) == Raw(a) + Raw(b)
  {
    hide Raw;
    RawCons(a);
    if a == [] {
      assert a + b == b;
    } else {
      RawCons(a + b);
      assert (a + b)[0] == a[0] && (a + b)[1..] == a[1..] + b;
      RawConcat(a[1..], b);
      Associate(a[0].frame.raw, Raw(a[1..]), Raw(b));
    }
  }

  lemma Associate<T>(x: seq<T>, y: seq<T>, z: seq<T>)
    ensures x + (y + z) == (x + y) + z
  {
  }

  ghost function HeadValue<V>(decode: seq<Byte> -> Option<V>, a: Arrival, role: Role): seq<Option<V>> {
    if a.role == role then [decode(a.frame.body)] else []
  }

  lemma ValuesCons<V>(decode: seq<Byte> -> Option<V>, a: seq<Arrival>, role: Role)
    ensures ValuesOf(decode, a, role) ==
      if a == [] then [] else HeadValue(decode, a[0], role) + ValuesOf(decode, a[1..], role)
  {
  }

  lemma {:induction false} ValuesConcat<V>(decode: seq<Byte> -> Option<V>, a: seq<Arrival>, b: seq<Arrival>, role: Role)
    ensures ValuesOf(decode, a + b, role) == ValuesOf(decode, a, role) + ValuesOf(decode, b, role)
  {
    hide ValuesOf, HeadValue;
    ValuesCons(decode, a, role);
    if a == [] {
      assert a + b == b;
    } else {
      ValuesCons(decode, a + b, role);
      assert (a + b)[0] == a[0] && (a + b)[1..] == a[1..] + b;
      ValuesConcat(decode, a[1..], b, role);
      Associate(HeadValue(decode, a[0], role), ValuesOf(decode, a[1..], role), ValuesOf(decode, b, role));
    }
  }

  ghost predicate Notices(arrivals: seq<Arrival>, maximum: Option<nat>) {
    forall a <- arrivals :: a.role == Notice && a.frame.kind == ASYNC && WholeFrame(a.frame, maximum)
  }

  /** How waiting ends once the notifications `notices` are queued and `rest` is what is left to read. */
  ghost predicate AwaitEnds<V>(settings: Settings<V>, notices: seq<Arrival>, rest: seq<Byte>, e: Effect<V>) {
    match NextFrame(rest, settings.maximum)
    case None => e.outcome == Failure && e.client.link == Closed && e.arrivals == notices
    case Some(frame) =>
      if frame.kind == SYNC then e.outcome == Failure && e.client.link == Closed && e.arrivals == notices
      else if frame.kind == RESPONSE then
        && e.outcome == Value(settings.decode(frame.body))
        && e.client.link == Open(rest[|frame.raw|..])
        && e.arrivals == notices + [Arrival(frame, Reply)]
      else
        && |e.client.pending| >= settings.maxPending
        && e.outcome == Failure && e.client.link == Closed
        && e.arrivals == notices + [Arrival(frame, Refused)]
  }

  /**
   Waiting for a reply takes asynchronous frames into the queue, in order and up to the limit, and then
   takes the next response, refuses one notification too many, or meets no acceptable frame.
   */
  lemma {:induction false} AwaitReplyTakes<V>(settings: Settings<V>, unread: seq<Byte>, pending: seq<Option<V>>)
    returns (notices: seq<Arrival>, rest: seq<Byte>)
    ensures Notices(notices, settings.maximum) && unread == Raw(notices) + rest
    ensures var e := AwaitReply(settings, unread, pending);
      && e.client.pending == pending + ValuesOf(settings.decode, notices, Notice)
      && (notices == [] || |e.client.pending| <= settings.maxPending)
      && AwaitEnds(settings, notices, rest, e)
    decreases |unread|
  {
    hide WholeFrame, AwaitEnds, Raw, ValuesOf, Notices;
    var next := NextFrame(unread, settings.maximum);
    hide NextFrame;
    if next.Some? && next.value.kind == ASYNC && |pending| < settings.maxPending {
      var frame := next.value;
      var after := unread[|frame.raw|..];
      var value := settings.decode(frame.body);
      var later;
      later, rest := AwaitReplyTakes(settings, after, pending + [value]);
      var first := Arrival(frame, Notice);
      notices := [first] + later;
      assert unread == frame.raw + after;
      NoticeFirst(settings, first, later, rest, pending);
      ValuesCons(settings.decode, later, Notice);
      LaterEnds(settings, first, later, rest, AwaitReply(settings, after, pending + [value]));
    } else {
      notices, rest := [], unread;
      NoNotices(settings, unread, pending);
    }
  }

  lemma NoNotices<V>(settings: Settings<V>, unread: seq<Byte>, pending: seq<Option<V>>)
    requires var next := NextFrame(unread, settings.maximum);
      next.None? || next.value.kind != ASYNC || |pending| >= settings.maxPending
    ensures Notices([], settings.maximum) && unread == Raw([]) + unread
    ensures pending == pending + ValuesOf(settings.decode, [], Notice)
    ensures AwaitReply(settings, unread, pending).client.pending == pending
    ensures AwaitEnds(settings, [], unread, AwaitReply(settings, unread, pending))
  {
    hide WholeFrame, NextFrame;
  }

  lemma NoticeFirst<V>(
    settings: Settings<V>, first: Arrival, later: seq<Arrival>, rest: seq<Byte>, pending: seq<Option<V>>)
    requires first.role == Notice && first.frame.kind == ASYNC && WholeFrame(first.frame, settings.maximum)
    requires Notices(later, settings.maximum)
    ensures var notices := [first] + later;
      && Notices(notices, settings.maximum)
      && Raw(notices) + rest == first.frame.raw + (Raw(later) + rest)
      && pending + ValuesOf(settings.decode, notices, Notice)
         == pending + [settings.decode(first.frame.body)] + ValuesOf(settings.decode, later, Notice)
  {
    hide WholeFrame, Raw, ValuesOf;
    var notices := [first] + later;
    assert notices[0] == first && notices[1..] == later;
    RawCons(notices);
    ValuesCons(settings.decode, notices, Notice);
  }

  lemma LaterEnds<V>(settings: Settings<V>, first: Arrival, later: seq<Arrival>, rest: seq<Byte>, e: Effect<V>)
    requires AwaitEnds(settings, later, rest, e)
    ensures AwaitEnds(settings, [first] + later, rest, e.(arrivals := [first] + e.arrivals))
  {
    hide NextFrame;
    forall a: Arrival ensures [first] + (later + [a]) == ([first] + later) + [a] {
    }
  }

  /** Conversely, notifications that fit the queue followed by a response give exactly that response. */
  lemma {:induction false} AwaitReplyFinds<V>(
    settings: Settings<V>, notices: seq<Arrival>, reply: Frame, rest: seq<Byte>, pending: seq<Option<V>>)
    requires Notices(notices, settings.maximum) && WholeFrame(reply, settings.maximum) && reply.kind == RESPONSE
    requires |pending| + |notices| <= settings.maxPending
    ensures AwaitReply(settings, Raw(notices) + reply.raw + rest, pending) == Effect(
      Value(settings.decode(reply.body)),
      Client(Open(rest), pending + ValuesOf(settings.decode, notices, Notice)),
      notices + [Arrival(reply, Reply)])
  {
    hide WholeFrame, NextFrame;
    var unread := Raw(notices) + reply.raw + rest;
    if notices == [] {
      assert unread == reply.raw + rest;
      WholeFrameIsNext(reply, rest, settings.maximum);
      assert unread[|reply.raw|..] == rest;
      assert pending + [] == pending;
      assert notices + [Arrival(reply, Reply)] == [Arrival(reply, Reply)];
    } else {
      var frame, later := notices[0].frame, notices[1..];
      var after := Raw(later) + reply.raw + rest;
      var value := settings.decode(frame.body);
      assert unread == frame.raw + after;
      WholeFrameIsNext(frame, after, settings.maximum);
      assert unread[|frame.raw|..] == after;
      AwaitReplyFinds(settings, later, reply, rest, pending + [value]);
      assert notices == [Arrival(frame, Notice)] + later;
      assert [Arrival(frame, Notice)] + (later + [Arrival(reply, Reply)]) == notices + [Arrival(reply, Reply)];
      assert (pending + [value]) + ValuesOf(settings.decode, later, Notice)
        == pending + ([value] + ValuesOf(settings.decode, later, Notice));
    }
  }

  // ---------- Runs of operations ----------

  datatype Operation =
    | ExecuteOp(dial: Option<seq<Byte>>, sending: Sending, aborted: bool)
    | ExecuteAsyncOp(dial: Option<seq<Byte>>, sending: Sending, aborted: bool)
    | ReceiveOp(aborted: bool)
    | ConnectOp(dial: Option<seq<Byte>>, aborted: bool)
    | ShutdownOp

  function EffectOf<V>(settings: Settings<V>, c: Client<V>, op: Operation): Effect<V> {
    match op
    case ExecuteOp(dial, sending, aborted) => Execute(settings, c, dial, sending, aborted)
    case ExecuteAsyncOp(dial, sending, aborted) => ExecuteAsync(c, dial, sending, aborted)
    case ReceiveOp(aborted) => Receive(settings, c, aborted)
    case ConnectOp(dial, aborted) => Connect(c, dial, aborted)
    case ShutdownOp => Shutdown(c)
  }

  /** The connection an operation reads from. */
  function LinkOf(link: Link, op: Operation): Link {
    if op.ReceiveOp? || op.ShutdownOp? then link else Dialled(link, op.dial)
  }

  function Returned<V>(e: Effect<V>): seq<Option<V>> {
    if e.outcome.Value? then [e.outcome.value] else []
  }

  function Receipts<V>(op: Operation, e: Effect<V>): seq<Option<V>> {
    if op.ReceiveOp? then Returned(e) else []
  }

  function Replies<V>(op: Operation, e: Effect<V>): seq<Option<V>> {
    if op.ExecuteOp? then Returned(e) else []
  }

  ghost predicate Taken(arrivals: seq<Arrival>, maximum: Option<nat>) {
    forall a <- arrivals ::
      WholeFrame(a.frame, maximum) && a.frame.kind != SYNC && (a.role == Reply ==> a.frame.kind == RESPONSE)
  }

  /**
   An operation that leaves its connection open has taken whole frames and nothing else from it. What
   `receive` returned together with the queue is the old queue and the new notifications, in order;
   what `execute` returned are the replies. A frame is refused only by a full queue, which closes the
   connection, and lost only to an abort.
   */
  ghost predicate Accounted<V>(settings: Settings<V>, c: Client<V>, op: Operation, e: Effect<V>) {
    && Taken(e.arrivals, settings.maximum)
    && TakesWholeFrames(LinkOf(c.link, op), e)
    && Delivers(settings, c, op, e)
    && Fates(settings, op, e)
  }

  ghost predicate TakesWholeFrames<V>(link: Link, e: Effect<V>) {
    && (e.client.link.Open? ==> link.Open? && link.unread == Raw(e.arrivals) + e.client.link.unread)
    && (e.outcome.Failure? && e.client.link.Open? ==> e.arrivals == [])
  }

  ghost predicate Delivers<V>(settings: Settings<V>, c: Client<V>, op: Operation, e: Effect<V>) {
    && Receipts(op, e) + e.client.pending == c.pending + ValuesOf(settings.decode, e.arrivals, Notice)
    && Replies(op, e) == ValuesOf(settings.decode, e.arrivals, Reply)
    && |e.client.pending| <= settings.maxPending
  }

  ghost predicate Fates<V>(settings: Settings<V>, op: Operation, e: Effect<V>) {
    && (forall a <- e.arrivals :: a.role == Refused ==>
          |e.client.pending| == settings.maxPending && e.client.link == Closed)
    && (forall a <- e.arrivals :: a.role == Lost ==> !op.ShutdownOp? && op.aborted)
  }

  lemma {:induction false} NoticesAreNoReplies<V>(
    decode: seq<Byte> -> Option<V>, notices: seq<Arrival>, maximum: Option<nat>)
    requires Notices(notices, maximum)
    ensures ValuesOf(decode, notices, Reply) == [] && Taken(notices, maximum)
    ensures |ValuesOf(decode, notices, Notice)| == |notices|
  {
    hide WholeFrame;
    if notices != [] {
      NoticesAreNoReplies(decode, notices[1..], maximum);
    }
  }

  lemma ExecuteInnerAccounted<V>(settings: Settings<V>, c: Client<V>, dial: Option<seq<Byte>>, sending: Sending)
    requires |c.pending| <= settings.maxPending
    ensures Accounted(settings, c, ExecuteOp(dial, sending, false), ExecuteInner(settings, c, dial, sending))
    ensures var e := ExecuteInner(settings, c, dial, sending); e.outcome.Value? ==>
      && e.arrivals != []
      && Notices(e.arrivals[..|e.arrivals| - 1], settings.maximum)
      && e.arrivals[|e.arrivals| - 1].role == Reply
  {
    hide AwaitReply, NextFrame, WholeFrame, Raw, ValuesOf, AwaitEnds, Accounted;
    var link := Dialled(c.link, dial);
    if link.Open? && sending == Sent {
      var notices, rest := AwaitReplyTakes(settings, link.unread, c.pending);
      AwaitAccounted(settings, c, dial, sending, notices, rest, ExecuteInner(settings, c, dial, sending));
    } else {
      NothingTaken(settings, c, ExecuteOp(dial, sending, false), ExecuteInner(settings, c, dial, sending));
    }
  }

  /** An operation that takes no frame accounts for everything. */
  lemma NothingTaken<V>(settings: Settings<V>, c: Client<V>, op: Operation, e: Effect<V>)
    requires |c.pending| <= settings.maxPending && !e.outcome.Value?
    requires e.arrivals == [] && e.client.pending == c.pending
    requires e.client.link == Closed || e.client.link == LinkOf(c.link, op)
    ensures Accounted(settings, c, op, e)
  {
    hide WholeFrame;
    assert [] + c.pending == c.pending + [];
    assert e.client.link.Open? ==> e.client.link.unread == [] + e.client.link.unread;
  }

  lemma AwaitAccounted<V>(
    settings: Settings<V>, c: Client<V>, dial: Option<seq<Byte>>, sending: Sending,
    notices: seq<Arrival>, rest: seq<Byte>, e: Effect<V>)
    requires |c.pending| <= settings.maxPending && Dialled(c.link, dial).Open?
    requires Notices(notices, settings.maximum) && Dialled(c.link, dial).unread == Raw(notices) + rest
    requires e.client.pending == c.pending + ValuesOf(settings.decode, notices, Notice)
    requires notices == [] || |e.client.pending| <= settings.maxPending
    requires AwaitEnds(settings, notices, rest, e)
    ensures Accounted(settings, c, ExecuteOp(dial, sending, false), e)
    ensures e.outcome.Value? ==>
      && e.arrivals != []
      && Notices(e.arrivals[..|e.arrivals| - 1], settings.maximum)
      && e.arrivals[|e.arrivals| - 1].role == Reply
  {
    hide NextFrame, WholeFrame, Raw, ValuesOf, Taken, Delivers, Notices, Fates;
    var op := ExecuteOp(dial, sending, false);
    var next := NextFrame(rest, settings.maximum);
    NoticesAreNoReplies(settings.decode, notices, settings.maximum);
    if next.Some? && next.value.kind != SYNC {
      var last := Arrival(next.value, if next.value.kind == RESPONSE then Reply else Refused);
      OneMoreTaken(notices, last, settings.maximum);
      DeliversLast(settings, c, op, notices, last, e);
      FatesWithLast(settings, op, notices, last, e);
      assert e.arrivals[..|e.arrivals| - 1] == notices;
      BytesWithLast(settings, notices, last, rest);
    } else {
      DeliversNotices(settings, c, op, notices, e);
      FatesOfNotices(settings, op, notices, e);
    }
  }

  lemma BytesWithLast<V>(settings: Settings<V>, notices: seq<Arrival>, last: Arrival, rest: seq<Byte>)
    requires Notices(notices, settings.maximum) && last.frame.raw <= rest
    ensures Raw(notices) + rest == Raw(notices + [last]) + rest[|last.frame.raw|..]
  {
    hide Raw, ValuesOf, Notices;
    LastArrival(settings, notices, last);
    assert rest == last.frame.raw + rest[|last.frame.raw|..];
    assert Raw(notices) + (last.frame.raw + rest[|last.frame.raw|..])
      == (Raw(notices) + last.frame.raw) + rest[|last.frame.raw|..];
  }

  lemma FatesWithLast<V>(settings: Settings<V>, op: Operation, notices: seq<Arrival>, last: Arrival, e: Effect<V>)
    requires Notices(notices, settings.maximum) && e.arrivals == notices + [last] && last.role != Lost
    requires last.role == Refused ==> |e.client.pending| == settings.maxPending && e.client.link == Closed
    ensures Fates(settings, op, e)
  {
    hide WholeFrame;
  }

  lemma FatesOfNotices<V>(settings: Settings<V>, op: Operation, notices: seq<Arrival>, e: Effect<V>)
    requires Notices(notices, settings.maximum) && e.arrivals == notices
    ensures Fates(settings, op, e)
  {
    hide WholeFrame;
  }

  lemma OneMoreTaken(notices: seq<Arrival>, last: Arrival, maximum: Option<nat>)
    requires Notices(notices, maximum)
    requires WholeFrame(last.frame, maximum) && last.frame.kind != SYNC
      && (last.role == Reply ==> last.frame.kind == RESPONSE)
    ensures Taken(notices + [last], maximum)
  {
    hide WholeFrame;
  }

  lemma DeliversNotices<V>(settings: Settings<V>, c: Client<V>, op: Operation, notices: seq<Arrival>, e: Effect<V>)
    requires op.ExecuteOp? && !e.outcome.Value? && e.arrivals == notices && |e.client.pending| <= settings.maxPending
    requires e.client.pending == c.pending + ValuesOf(settings.decode, notices, Notice)
    requires ValuesOf(settings.decode, notices, Reply) == []
    ensures Delivers(settings, c, op, e)
  {
    hide ValuesOf;
    assert Receipts(op, e) + e.client.pending == e.client.pending;
  }

  lemma DeliversLast<V>(
    settings: Settings<V>, c: Client<V>, op: Operation, notices: seq<Arrival>, last: Arrival, e: Effect<V>)
    requires op.ExecuteOp? && e.arrivals == notices + [last] && last.role != Notice
      && Notices(notices, settings.maximum)
    requires e.client.pending == c.pending + ValuesOf(settings.decode, notices, Notice)
      && |e.client.pending| <= settings.maxPending
    requires Returned(e) == if last.role == Reply then [settings.decode(last.frame.body)] else []
    ensures Delivers(settings, c, op, e)
  {
    hide ValuesOf, Raw, WholeFrame, Notices;
    LastArrival(settings, notices, last);
    SingleValues(settings.decode, last);
    var queued := ValuesOf(settings.decode, notices, Notice);
    assert queued + [] == queued;
    assert Receipts(op, e) + e.client.pending == e.client.pending;
  }

  lemma SingleValues<V>(decode: seq<Byte> -> Option<V>, a: Arrival)
    ensures Raw([a]) == a.frame.raw
    ensures forall role :: ValuesOf(decode, [a], role) == if a.role == role then [decode(a.frame.body)] else []
  {
  }

  lemma LastArrival<V>(settings: Settings<V>, notices: seq<Arrival>, last: Arrival)
    requires Notices(notices, settings.maximum)
    ensures var all := notices + [last];
      && Raw(all) == Raw(notices) + last.frame.raw
      && ValuesOf(settings.decode, all, Notice)
         == ValuesOf(settings.decode, notices, Notice) + ValuesOf(settings.decode, [last], Notice)
      && ValuesOf(settings.decode, all, Reply) == ValuesOf(settings.decode, [last], Reply)
  {
    hide WholeFrame;
    RawConcat(notices, [last]);
    ValuesConcat(settings.decode, notices, [last], Notice);
    ValuesConcat(settings.decode, notices, [last], Reply);
    NoticesAreNoReplies(settings.decode, notices, settings.maximum);
    assert Raw([last]) == last.frame.raw + Raw([last][1..]) == last.frame.raw;
  }

  lemma ExecuteAccounted<V>(settings: Settings<V>, c: Client<V>, op: Operation)
    requires |c.pending| <= settings.maxPending && op.ExecuteOp?
    ensures Accounted(settings, c, op, EffectOf(settings, c, op))
  {
    hide AwaitReply, WholeFrame, Accounted, Notices, Raw, ValuesOf;
    ExecuteInnerAccounted(settings, c, op.dial, op.sending);
    var inner := ExecuteInner(settings, c, op.dial, op.sending);
    hide ExecuteInner;
    if op.aborted {
      AbortedAccounted(settings, c, op, inner);
    }
  }

  /** An aborted `execute` loses its reply and nothing else. */
  lemma AbortedAccounted<V>(settings: Settings<V>, c: Client<V>, op: Operation, inner: Effect<V>)
    requires op.ExecuteOp? && op.aborted && Accounted(settings, c, ExecuteOp(op.dial, op.sending, false), inner)
    requires inner.outcome.Value? ==>
      && inner.arrivals != []
      && Notices(inner.arrivals[..|inner.arrivals| - 1], settings.maximum)
      && inner.arrivals[|inner.arrivals| - 1].role == Reply
    ensures Accounted(settings, c, op, Finish(inner, true))
  {
    hide WholeFrame, Raw, ValuesOf, Notices, Taken, Fates, Delivers;
    var calm := ExecuteOp(op.dial, op.sending, false);
    AbortedDelivers(settings, c, op, calm, inner);
    AbortedFates(settings, op, calm, inner);
  }

  lemma AbortedFates<V>(settings: Settings<V>, op: Operation, calm: Operation, inner: Effect<V>)
    requires op.ExecuteOp? && op.aborted && calm.ExecuteOp? && !calm.aborted
    requires inner.outcome.Value? ==> inner.arrivals != []
    requires Taken(inner.arrivals, settings.maximum) && Fates(settings, calm, inner)
    ensures Taken(Finish(inner, true).arrivals, settings.maximum) && Fates(settings, op, Finish(inner, true))
  {
    hide WholeFrame;
    var e := Finish(inner, true);
    if inner.outcome.Value? {
      var n := |inner.arrivals|;
      assert inner.arrivals[n - 1] in inner.arrivals;
      assert forall a <- e.arrivals :: a in inner.arrivals || a == inner.arrivals[n - 1].(role := Lost);
    }
  }

  lemma AbortedDelivers<V>(settings: Settings<V>, c: Client<V>, op: Operation, calm: Operation, inner: Effect<V>)
    requires op.ExecuteOp? && calm.ExecuteOp? && Delivers(settings, c, calm, inner)
    requires inner.outcome.Value? ==>
      && inner.arrivals != []
      && Notices(inner.arrivals[..|inner.arrivals| - 1], settings.maximum)
      && inner.arrivals[|inner.arrivals| - 1].role == Reply
    ensures Delivers(settings, c, op, Finish(inner, true))
  {
    hide WholeFrame, Raw, ValuesOf, Notices;
    if inner.outcome.Value? {
      var n := |inner.arrivals|;
      var notices, last := inner.arrivals[..n - 1], inner.arrivals[n - 1];
      assert inner.arrivals == notices + [last];
      LastArrival(settings, notices, last);
      LastArrival(settings, notices, last.(role := Lost));
      SingleValues(settings.decode, last);
      SingleValues(settings.decode, last.(role := Lost));
    }
  }

  lemma OtherOperationsAccounted<V>(settings: Settings<V>, c: Client<V>, op: Operation)
    requires |c.pending| <= settings.maxPending && !op.ExecuteOp?
    ensures Accounted(settings, c, op, EffectOf(settings, c, op))
  {
    hide NextFrame, WholeFrame, Accounted;
    if op.ReceiveOp? {
      ReceiveAccounted(settings, c, op.aborted);
    } else {
      NothingTaken(settings, c, op, EffectOf(settings, c, op));
    }
  }

  lemma ReceiveAccounted<V>(settings: Settings<V>, c: Client<V>, aborted: bool)
    requires |c.pending| <= settings.maxPending
    ensures Accounted(settings, c, ReceiveOp(aborted), Receive(settings, c, aborted))
  {
    hide NextFrame, WholeFrame, Accounted, Raw, ValuesOf;
    var op, e := ReceiveOp(aborted), Receive(settings, c, aborted);
    if c.pending != [] {
      QueuedReceiptAccounted(settings, c, aborted);
    } else if c.link.Closed? {
      NothingTaken(settings, c, op, e);
    } else {
      var next := NextFrame(c.link.unread, settings.maximum);
      if next.Some? && next.value.kind != SYNC {
        FrameReceiptAccounted(settings, c, aborted, next.value);
      } else {
        NothingTaken(settings, c, op, e);
      }
    }
  }

  lemma QueuedReceiptAccounted<V>(settings: Settings<V>, c: Client<V>, aborted: bool)
    requires 0 < |c.pending| <= settings.maxPending
    ensures Accounted(settings, c, ReceiveOp(aborted), Receive(settings, c, aborted))
  {
    hide WholeFrame, ReceiveInner;
    assert c.pending == [c.pending[0]] + c.pending[1..] && c.pending == c.pending + [];
    assert c.link.Open? ==> c.link.unread == [] + c.link.unread;
  }

  lemma FrameReceiptAccounted<V>(settings: Settings<V>, c: Client<V>, aborted: bool, frame: Frame)
    requires c.pending == [] && c.link.Open? && NextFrame(c.link.unread, settings.maximum) == Some(frame)
      && frame.kind != SYNC
    ensures Accounted(settings, c, ReceiveOp(aborted), Receive(settings, c, aborted))
  {
    hide WholeFrame, NextFrame, Raw, ValuesOf;
    var e := Receive(settings, c, aborted);
    assert e.arrivals == [Arrival(frame, if aborted then Lost else Notice)];
    SingleValues(settings.decode, e.arrivals[0]);
    assert c.link.unread == frame.raw + c.link.unread[|frame.raw|..];
  }

  /** Every operation accounts for every byte and every frame it takes. */
  lemma OperationAccounted<V>(settings: Settings<V>, c: Client<V>, op: Operation)
    requires |c.pending| <= settings.maxPending
    ensures Accounted(settings, c, op, EffectOf(settings, c, op))
  {
    hide Accounted, EffectOf;
    if op.ExecuteOp? {
      ExecuteAccounted(settings, c, op);
    } else {
      OtherOperationsAccounted(settings, c, op);
    }
  }

  /**
   A client with everything that happened to it: `input` is the whole input of its latest connection,
   whose first arrival is number `base`; `receipts` and `replies` are all values that `receive` and
   `execute` returned.
   */
  datatype History<V> = History(
    client: Client<V>, input: seq<Byte>, base: nat, arrivals: seq<Arrival>,
    receipts: seq<Option<V>>, replies: seq<Option<V>>)

  function Begun<V>(): History<V> {
    History(Client(Closed, []), [], 0, [], [], [])
  }

  function Step<V>(settings: Settings<V>, h: History<V>, op: Operation): History<V> {
    var e := EffectOf(settings, h.client, op);
    var link := LinkOf(h.client.link, op);
    var dialled := h.client.link.Closed? && link.Open?;
    History(e.client, if dialled then link.unread else h.input, if dialled then |h.arrivals| else h.base,
            h.arrivals + e.arrivals, h.receipts + Receipts(op, e), h.replies + Replies(op, e))
  }

  function After<V>(settings: Settings<V>, ops: seq<Operation>): History<V> {
    if ops == [] then Begun() else Step(settings, After(settings, ops[..|ops| - 1]), ops[|ops| - 1])
  }

  /** An open connection stands on a frame boundary: its input is the frames taken and what is unread. */
  ghost predicate OnFrameBoundary<V>(h: History<V>) {
    h.client.link.Open? ==>
      h.base <= |h.arrivals| && h.input == Raw(h.arrivals[h.base..]) + h.client.link.unread
  }

  ghost predicate Inv<V>(settings: Settings<V>, h: History<V>) {
    && Taken(h.arrivals, settings.maximum)
    && OnFrameBoundary(h)
    && |h.client.pending| <= settings.maxPending
    && h.receipts + h.client.pending == ValuesOf(settings.decode, h.arrivals, Notice)
    && h.replies == ValuesOf(settings.decode, h.arrivals, Reply)
  }

  lemma StepKeepsBoundary<V>(settings: Settings<V>, h: History<V>, op: Operation)
    requires OnFrameBoundary(h) && TakesWholeFrames(LinkOf(h.client.link, op), EffectOf(settings, h.client, op))
    ensures OnFrameBoundary(Step(settings, h, op))
  {
    hide EffectOf, Raw;
    var e := EffectOf(settings, h.client, op);
    if e.client.link.Open? {
      if h.client.link.Open? {
        BoundaryMoves(h.input, h.arrivals, h.base, e.arrivals, h.client.link.unread, e.client.link.unread);
      } else {
        assert (h.arrivals + e.arrivals)[|h.arrivals|..] == e.arrivals;
      }
    }
  }

  lemma BoundaryMoves(
    input: seq<Byte>, arrivals: seq<Arrival>, base: nat, more: seq<Arrival>, unread: seq<Byte>, rest: seq<Byte>)
    requires base <= |arrivals| && input == Raw(arrivals[base..]) + unread && unread == Raw(more) + rest
    ensures input == Raw((arrivals + more)[base..]) + rest
  {
    hide Raw;
    assert (arrivals + more)[base..] == arrivals[base..] + more;
    RawConcat(arrivals[base..], more);
    assert Raw(arrivals[base..]) + (Raw(more) + rest) == (Raw(arrivals[base..]) + Raw(more)) + rest;
  }

  lemma StepKeepsAccounts<V>(settings: Settings<V>, h: History<V>, op: Operation)
    requires Inv(settings, h) && Accounted(settings, h.client, op, EffectOf(settings, h.client, op))
    ensures Inv(settings, Step(settings, h, op))
  {
    hide EffectOf, WholeFrame, OnFrameBoundary, TakesWholeFrames, Raw, ValuesOf;
    StepKeepsBoundary(settings, h, op);
    var e := EffectOf(settings, h.client, op);
    ValuesConcat(settings.decode, h.arrivals, e.arrivals, Notice);
    ValuesConcat(settings.decode, h.arrivals, e.arrivals, Reply);
    assert (h.receipts + Receipts(op, e)) + e.client.pending == h.receipts + (Receipts(op, e) + e.client.pending);
    assert h.receipts + (h.client.pending + ValuesOf(settings.decode, e.arrivals, Notice))
        == (h.receipts + h.client.pending) + ValuesOf(settings.decode, e.arrivals, Notice);
  }

  /**
   In every run: an open connection stands on a frame boundary, the queue is within its limit, the values
   `receive` returned followed by the queue are exactly the notifications in arrival order, and the
   values `execute` returned are exactly the replies.
   */
  lemma {:induction false} EveryRunKeepsInv<V>(settings: Settings<V>, ops: seq<Operation>)
    ensures Inv(settings, After(settings, ops))
  {
    hide Accounted, EffectOf, Inv;
    if ops == [] {
      BegunInv(settings);
    } else {
      var h, op := After(settings, ops[..|ops| - 1]), ops[|ops| - 1];
      EveryRunKeepsInv(settings, ops[..|ops| - 1]);
      QueueBounded(settings, h);
      OperationAccounted(settings, h.client, op);
      StepKeepsAccounts(settings, h, op);
    }
  }

  lemma BegunInv<V>(settings: Settings<V>)
    ensures Inv(settings, Begun())
  {
  }

  lemma QueueBounded<V>(settings: Settings<V>, h: History<V>)
    requires Inv(settings, h)
    ensures |h.client.pending| <= settings.maxPending
  {
  }

  /**
   Without aborts nothing that was taken is lost: every asynchronous frame of the run has been
   returned by `receive`, is queued, or was refused by a full queue.
   */
  lemma {:induction false} OnlyAbortsLoseFrames<V>(settings: Settings<V>, ops: seq<Operation>, i: nat)
    requires forall op <- ops :: op.ShutdownOp? || !op.aborted
    requires i < |After(settings, ops).arrivals|
    ensures var a := After(settings, ops).arrivals[i];
      && a.role != Lost
      && (a.frame.kind == ASYNC ==> a.role == Notice || a.role == Refused)
  {
    hide EffectOf, WholeFrame;
    EveryRunKeepsInv(settings, ops);
    if ops != [] {
      var h, op := After(settings, ops[..|ops| - 1]), ops[|ops| - 1];
      EveryRunKeepsInv(settings, ops[..|ops| - 1]);
      OperationAccounted(settings, h.client, op);
      if i < |h.arrivals| {
        OnlyAbortsLoseFrames(settings, ops[..|ops| - 1], i);
      }
    }
  }

  /** The unread input starts with notifications that fit the queue and then a response of this value. */
  ghost predicate ReplyReady<V>(
    settings: Settings<V>, c: Client<V>, unread: seq<Byte>, value: Option<V>, client: Client<V>, arrivals: seq<Arrival>)
  {
    && client.link.Open? && arrivals != []
    && Notices(arrivals[..|arrivals| - 1], settings.maximum)
    && (var reply := arrivals[|arrivals| - 1];
        && reply.role == Reply && reply.frame.kind == RESPONSE && WholeFrame(reply.frame, settings.maximum)
        && value == settings.decode(reply.frame.body))
    && unread == Raw(arrivals) + client.link.unread
    && client.pending == c.pending + ValuesOf(settings.decode, arrivals, Notice)
    && |client.pending| <= settings.maxPending
  }

  /**
   An `execute` that is sent succeeds exactly when notifications that fit the queue and then a response
   head the input; it takes those frames and nothing else, and returns that response's value.
   */
  lemma ExecuteTakesNextReply<V>(
    settings: Settings<V>, c: Client<V>, dial: Option<seq<Byte>>, unread: seq<Byte>,
    value: Option<V>, client: Client<V>, arrivals: seq<Arrival>)
    requires |c.pending| <= settings.maxPending && Dialled(c.link, dial) == Open(unread)
    ensures Execute(settings, c, dial, Sent, false) == Effect(Value(value), client, arrivals)
       <==> ReplyReady(settings, c, unread, value, client, arrivals)
  {
    hide AwaitReply, WholeFrame, Execute, ExecuteInner;
    var e := ExecuteInner(settings, c, dial, Sent);
    assert Execute(settings, c, dial, Sent, false) == e by { UnabortedExecute(settings, c, dial); }
    if e == Effect(Value(value), client, arrivals) {
      SuccessWasReady(settings, c, dial, unread, value, client, arrivals);
    }
    if ReplyReady(settings, c, unread, value, client, arrivals) {
      var n := |arrivals| - 1;
      var notices, reply := arrivals[..n], arrivals[n];
      assert arrivals == notices + [reply];
      LastArrival(settings, notices, reply);
      NoticesAreNoReplies(settings.decode, notices, settings.maximum);
      assert ValuesOf(settings.decode, arrivals, Notice) == ValuesOf(settings.decode, notices, Notice);
      AwaitReplyFinds(settings, notices, reply.frame, client.link.unread, c.pending);
      AwaitsReply(settings, c, dial, unread);
    }
  }

  lemma SuccessWasReady<V>(
    settings: Settings<V>, c: Client<V>, dial: Option<seq<Byte>>, unread: seq<Byte>,
    value: Option<V>, client: Client<V>, arrivals: seq<Arrival>)
    requires |c.pending| <= settings.maxPending && Dialled(c.link, dial) == Open(unread)
    requires ExecuteInner(settings, c, dial, Sent) == Effect(Value(value), client, arrivals)
    ensures ReplyReady(settings, c, unread, value, client, arrivals)
  {
    hide AwaitReply, WholeFrame;
    SuccessStaysOpen(settings, c, dial, unread);
    ExecuteInnerAccounted(settings, c, dial, Sent);
    hide ExecuteInner;
    var op := ExecuteOp(dial, Sent, false);
    var e: Effect<V> := Effect(Value(value), client, arrivals);
    var n := |arrivals| - 1;
    assert arrivals == arrivals[..n] + [arrivals[n]];
    LastArrival(settings, arrivals[..n], arrivals[n]);
    assert ValuesOf(settings.decode, [arrivals[n]], Reply) == [settings.decode(arrivals[n].frame.body)];
    assert value == Replies(op, e)[0] == ValuesOf(settings.decode, [arrivals[n]], Reply)[0];
    assert Receipts(op, e) + client.pending == client.pending;
    assert arrivals[n] in arrivals;
  }

  lemma UnabortedExecute<V>(settings: Settings<V>, c: Client<V>, dial: Option<seq<Byte>>)
    ensures Execute(settings, c, dial, Sent, false) == ExecuteInner(settings, c, dial, Sent)
  {
  }

  lemma AwaitsReply<V>(settings: Settings<V>, c: Client<V>, dial: Option<seq<Byte>>, unread: seq<Byte>)
    requires Dialled(c.link, dial) == Open(unread)
    ensures ExecuteInner(settings, c, dial, Sent) == AwaitReply(settings, unread, c.pending)
  {
  }

  lemma SuccessStaysOpen<V>(settings: Settings<V>, c: Client<V>, dial: Option<seq<Byte>>, unread: seq<Byte>)
    requires Dialled(c.link, dial) == Open(unread) && ExecuteInner(settings, c, dial, Sent).outcome.Value?
    ensures ExecuteInner(settings, c, dial, Sent).client.link.Open?
  {
    hide AwaitReply;
    var notices, rest := AwaitReplyTakes(settings, unread, c.pending);
  }
}
