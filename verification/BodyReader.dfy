/** The retained receive buffer and the loops that fill it with exactly one message body. */
module BodyReader {
  import opened Bytes
  import opened ByteStream

  const INITIAL_BODY_RESERVATION := 32 * 1024 * 1024
  const BODY_RESERVATION_FACTOR := 8
  const MAX_RETAINED_BUFFER_BYTES := 256 * 1024 * 1024

  /**
   A growable byte vector whose memory is initialised up to `initialised`. Reservation is exact, and
   memory obtained by growing counts as uninitialised until it is written.
   */
  class ReceiveBuffer {
    var data: seq<Byte>
    var capacity: nat
    var initialised: nat

    ghost predicate Valid()
      reads this
    {
      |data| <= initialised <= capacity
    }

    /** What raw reads into the spare capacity rely on. */
    ghost predicate FullyInitialised()
      reads this
    {
      Valid() && initialised == capacity
    }

    constructor ()
      ensures FullyInitialised() && data == [] && capacity == 0
    {
      data, capacity, initialised := [], 0, 0;
    }

    method Clear()
      requires Valid()
      modifies this
      ensures data == [] && capacity == old(capacity) && initialised == old(initialised)
    {
      data := [];
    }

    /** Gives the memory up: dropped after a failure, or handed over to a lossless value. */
    method Release()
      modifies this
      ensures FullyInitialised() && data == [] && capacity == 0
    {
      data, capacity, initialised := [], 0, 0;
    }

    method ReserveExact(additional: nat)
      requires Valid()
      modifies this
      ensures Valid() && data == old(data)
      ensures if old(capacity) - |data| >= additional
        then capacity == old(capacity) && initialised == old(initialised)
        else capacity == |data| + additional && initialised == |data|
    {
      if capacity - |data| < additional {
        capacity := |data| + additional;
        initialised := |data|;
      }
    }

    method Append(bytes: seq<Byte>)
      requires Valid() && |data| + |bytes| <= capacity
      modifies this
      ensures Valid() && data == old(data) + bytes && capacity == old(capacity)
      ensures initialised == if |data| > old(initialised) then |data| else old(initialised)
    {
      data := data + bytes;
      if |data| > initialised {
        initialised := |data|;
      }
    }

    /** `reserve_buffer`: room for `length` bytes in an empty buffer, all of it initialised. */
    method Reserve(length: nat)
      requires FullyInitialised() && data == []
      modifies this
      ensures FullyInitialised() && data == []
      ensures capacity == if old(capacity) >= length then old(capacity) else length
    {
      if capacity >= length {
        return;
      }
      ReserveExact(length);
      Append(seq(capacity, _ => 0));
      Clear();
    }

    method ReleaseOversized()
      requires FullyInitialised()
      modifies this
      ensures FullyInitialised() && capacity == if old(capacity) <= 0x1000_0000 then old(capacity) else 0
      ensures old(capacity) <= 0x1000_0000 ==> data == old(data)
    {
      if capacity > MAX_RETAINED_BUFFER_BYTES {
        Release();
      }
    }
  }

  /** The pair (capacity, bytes held) respects the reservation rule for a body that started at `start`. */
  ghost predicate WithinReservation(start: nat, sizes: (nat, nat)) {
    sizes.0 <= start || sizes.0 <= 8 * sizes.1
  }

  /** `take(limit).read_to_end(body)`: appends until the limit or the end of the stream. */
  method ReadToEnd(stream: Stream, limit: nat, body: ReceiveBuffer) returns (r: Option<nat>)
    requires body.Valid() && |body.data| + limit <= body.capacity
    modifies stream, body
    ensures body.Valid() && body.capacity == old(body.capacity) && |old(body.data)| <= |body.data|
    ensures body.initialised == if |body.data| > old(body.initialised) then |body.data| else old(body.initialised)
    ensures r.Some? ==>
      && r.value <= limit && |body.data| == |old(body.data)| + r.value
      && body.data + stream.Unread() == old(body.data) + old(stream.Unread())
    ensures r.Some? && r.value < limit ==> r.value == |old(stream.Unread())|
    ensures r.None? ==> |old(stream.Unread())| < limit && |body.data| < |old(body.data)| + limit
  {
    var count: nat := 0;
    while count < limit
      invariant count <= limit && body.Valid() && body.capacity == old(body.capacity)
      invariant |body.data| == |old(body.data)| + count
      invariant body.initialised == if |body.data| > old(body.initialised) then |body.data| else old(body.initialised)
      invariant body.data + stream.Unread() == old(body.data) + old(stream.Unread())
      decreases |stream.Unread()|, |stream.events|
    {
      ghost var held := body.data;
      var got := stream.Read(limit - count);
      match got
      case Got(bytes) =>
        assert held + (bytes + stream.Unread()) == (held + bytes) + stream.Unread();
        body.Append(bytes);
        count := count + |bytes|;
      case Retry =>
      case EndOfFile => return Some(count);
      case Failed => return None;
    }
    return Some(count);
  }

  /** Grows a full buffer eightfold, or to the declared length if that is less. */
  method Grow(body: ReceiveBuffer, length: nat)
    requires body.Valid() && 0 < body.capacity == |body.data| < length
    modifies body
    ensures body.Valid() && body.data == old(body.data) && body.initialised == |body.data|
    ensures body.capacity == if length < 8 * |body.data| then length else 8 * |body.data|
  {
    var grown := BODY_RESERVATION_FACTOR * body.capacity;
    var target := if length < grown then length else grown;
    body.ReserveExact(target - |body.data|);
  }

  /**
   Reads the rest of a body of declared length. It succeeds exactly when the stream holds that many
   bytes, takes no byte beyond them and leaves the whole capacity initialised. `sizes` lists the
   buffer's capacity and fill after every reservation and every read.
   */
  method ReadMessageBody(
    stream: Stream, length: nat, body: ReceiveBuffer)
    returns (ok: bool, ghost sizes: seq<(nat, nat)>)
    requires body.FullyInitialised() && |body.data| <= length && 0 < body.capacity
    modifies stream, body
    ensures ok <==> length - |old(body.data)| <= |old(stream.Unread())|
    ensures ok ==>
      && body.FullyInitialised()
      && |body.data| == length && body.data + stream.Unread() == old(body.data) + old(stream.Unread())
    ensures body.Valid()
    ensures forall s <- sizes + [(body.capacity, |body.data|)] :: WithinReservation(old(body.capacity), s)
  {
    hide Readable;
    sizes := [];
    ghost var start, held, input := body.capacity, body.data, stream.Unread();
    while |body.data| < length
      invariant body.Valid() && |body.data| <= length && 0 < body.capacity
      invariant body.FullyInitialised() || (body.initialised == |body.data| && body.capacity <= length)
      invariant |held| <= |body.data| && body.data + stream.Unread() == held + input
      invariant WithinReservation(start, (body.capacity, |body.data|))
      invariant forall s <- sizes :: WithinReservation(start, s)
      decreases length - |body.data|
    {
      if |body.data| == body.capacity {
        Grow(body, length);
        sizes := sizes + [(body.capacity, |body.data|)];
      }
      var owed := length - |body.data|;
      var spare := if body.capacity - |body.data| < owed then body.capacity - |body.data| else owed;
      var got := ReadToEnd(stream, spare, body);
      sizes := sizes + [(body.capacity, |body.data|)];
      if got.None? || got.value == 0 {
        return false, sizes;
      }
    }
    return true, sizes;
  }

  /** `read_some`: one successful read into the initialised spare capacity. */
  method ReadSome(stream: Stream, buffer: ReceiveBuffer, length: nat) returns (ok: bool)
    requires buffer.FullyInitialised() && |buffer.data| < length <= buffer.capacity
    modifies stream, buffer
    ensures ok <==> old(stream.Unread()) != []
    ensures ok ==>
      && |old(buffer.data)| < |buffer.data| <= length
      && buffer.FullyInitialised() && buffer.capacity == old(buffer.capacity)
      && buffer.data + stream.Unread() == old(buffer.data) + old(stream.Unread())
  {
    var want := length - |buffer.data|;
    while true
      invariant buffer.FullyInitialised() && stream.Unread() == old(stream.Unread())
      invariant buffer.data == old(buffer.data) && buffer.capacity == old(buffer.capacity)
      decreases |stream.events|
    {
      var got := stream.Read(want);
      match got
      case Got(bytes) =>
        buffer.Append(bytes);
        return true;
      case Retry =>
      case EndOfFile => return false;
      case Failed => return false;
    }
  }

  /** `read_remaining`: the rest of a pipelined body, written past the bytes already received. */
  method ReadRemaining(stream: Stream, received: seq<Byte>, length: nat) returns (r: Option<seq<Byte>>)
    requires |received| <= length
    modifies stream
    ensures r.Some? <==> length - |received| <= |old(stream.Unread())|
    ensures r.Some? ==>
      && |r.value| == length && r.value + stream.Unread() == received + old(stream.Unread())
  {
    var bytes := received;
    while |bytes| < length
      invariant |received| <= |bytes| <= length
      invariant bytes + stream.Unread() == received + old(stream.Unread())
      decreases |stream.Unread()|, |stream.events|
    {
      var got := stream.Read(length - |bytes|);
      match got
      case Got(more) => bytes := bytes + more;
      case Retry =>
      case EndOfFile => return None;
      case Failed => return None;
    }
    return Some(bytes);
  }
}
