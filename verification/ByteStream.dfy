/**
 A peer's byte stream as a connector sees it: a schedule of read events of any sizes, with
 interruptions, ending in end-of-file or a failure.
 */
module ByteStream {
  import opened Bytes

  datatype Event = Deliver(bytes: seq<Byte>) | Interrupted | Fail

  /** Everything that can still be read before the stream ends or fails, whatever the chunking. */
  function Readable(events: seq<Event>): seq<Byte> {
    if events == [] then []
    else match events[0]
      case Deliver(bytes) => if bytes == [] then [] else bytes + Readable(events[1..])
      case Interrupted => Readable(events[1..])
      case Fail => []
  }

  datatype ReadResult = Got(bytes: seq<Byte>) | EndOfFile | Retry | Failed

  class Stream {
    var events: seq<Event>

    constructor (events: seq<Event>)
      ensures this.events == events
    {
      this.events := events;
    }

    ghost function Unread(): (bytes: seq<Byte>)
      reads this
    {
      Readable(events)
    }

    /** One `read` call: part of what the peer delivered, end of file, an interruption or a failure. */
    method Read(want: nat) returns (r: ReadResult)
      requires want > 0
      modifies this
      ensures r.Got? ==> 0 < |r.bytes| <= want && old(Unread()) == r.bytes + Unread()
      ensures r.Retry? ==> Unread() == old(Unread()) && |events| < |old(events)|
      ensures r.EndOfFile? || r.Failed? ==> old(Unread()) == [] && Unread() == []
      ensures r.EndOfFile? ==> events == old(events)
      ensures old(events) != [] && old(events)[0].Deliver? && old(events)[0].bytes != [] ==> r.Got?
      ensures r.Got? ==> old(events) != [] && old(events)[0].Deliver?
    {
      if events == [] {
        return EndOfFile;
      }
      match events[0]
      case Deliver(bytes) =>
        if bytes == [] {
          return EndOfFile;
        } else if |bytes| <= want {
          events := events[1..];
          return Got(bytes);
        } else {
          var rest := events[1..];
          events := [Deliver(bytes[want..])] + rest;
          assert events[1..] == rest;
          assert bytes == bytes[..want] + bytes[want..];
          return Got(bytes[..want]);
        }
      case Interrupted =>
        events := events[1..];
        return Retry;
      case Fail =>
        events := [];
        return Failed;
    }

    /** `read_exact`: succeeds exactly when that many bytes arrive, however they are chunked. */
    method ReadExact(count: nat) returns (r: Option<seq<Byte>>)
      modifies this
      ensures r.Some? <==> count <= |old(Unread())|
      ensures r.Some? ==> r.value == old(Unread())[..count] && Unread() == old(Unread())[count..]
    {
      var bytes: seq<Byte> := [];
      while |bytes| < count
        invariant |bytes| <= count
        invariant old(Unread()) == bytes + Unread()
        decreases |Unread()|, |events|
      {
        var got := Read(count - |bytes|);
        match got
        case Got(more) => bytes := bytes + more;
        case Retry =>
        case EndOfFile => return None;
        case Failed => return None;
      }
      return Some(bytes);
    }
  }
}
