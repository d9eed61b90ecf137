/**
 Out-of-band abort: another thread may take the registered operation under the lock and shut its
 socket down afterwards. Operations of one connector never overlap; aborting threads interleave freely.
 */
module Abort {
  import opened Bytes

  const U64_RANGE := 0x1_0000_0000_0000_0000

  type Stream = nat

  datatype Operation = Operation(id: nat, stream: Option<Stream>)

  // ---------- The registry object ----------

  /** `AbortState`: each method body is one critical section. */
  class AbortRegistry {
    var active: Option<Operation>
    var nextOperationId: nat

    constructor ()
      ensures active == None && nextOperationId == 0
    {
      active, nextOperationId := None, 0;
    }

    method Begin() returns (id: nat)
      modifies this
      ensures (active, nextOperationId, id) == BeginOperation(old(nextOperationId))
    {
      id := nextOperationId;
      nextOperationId := (nextOperationId + 1) % U64_RANGE;
      active := Some(Operation(id, None));
    }

    method Attach(id: nat, stream: Stream) returns (attached: bool)
      modifies this
      ensures (active, attached) == AttachStream(old(active), id, stream) && nextOperationId == old(nextOperationId)
    {
      attached := active.Some? && active.value.id == id;
      if attached {
        active := Some(active.value.(stream := Some(stream)));
      }
    }

    method Finish(id: nat) returns (aborted: bool)
      modifies this
      ensures (active, aborted) == FinishOperation(old(active), id) && nextOperationId == old(nextOperationId)
    {
      aborted := !(active.Some? && active.value.id == id);
      if !aborted {
        active := None;
      }
    }

    method TakeForAbort() returns (stream: Option<Stream>)
      modifies this
      ensures (active, stream) == TakeOperation(old(active)) && nextOperationId == old(nextOperationId)
    {
      stream := if active.Some? then active.value.stream else None;
      active := None;
    }
  }

  function BeginOperation(next: nat): (Option<Operation>, nat, nat) {
    (Some(Operation(next, None)), (next + 1) % U64_RANGE, next)
  }

  function AttachStream(active: Option<Operation>, id: nat, stream: Stream): (Option<Operation>, bool) {
    if active.Some? && active.value.id == id then (Some(Operation(id, Some(stream))), true) else (active, false)
  }

  function TakeOperation(active: Option<Operation>): (Option<Operation>, Option<Stream>) {
    (None, if active.Some? then active.value.stream else None)
  }

  function FinishOperation(active: Option<Operation>, id: nat): (Option<Operation>, bool) {
    if active.Some? && active.value.id == id then (None, false) else (active, true)
  }

  // ---------- The connector and the aborting threads ----------

  /**
   `running` is the guard of the operation in progress, `dialling` a stream it has opened and not yet
   installed, `connection` the stream the connector keeps, `pending` the shutdowns that aborting
   threads still owe and `shut` the streams shut down so far.
   */
  datatype State = State(
    active: Option<Operation>, nextId: nat, running: Option<nat>, dialling: Option<Stream>,
    connection: Option<Stream>, nextStream: Stream, pending: multiset<Stream>, shut: set<Stream>)

  const INITIAL := State(None, 0, None, None, None, 0, multiset{}, {})

  datatype Action =
    | Begin               // start an operation
    | AttachConnection    // register the existing connection's stream
    | Open                // open a new stream and register it, or shut it down when already aborted
    | Install             // the new stream is authenticated and becomes the connection
    | DialFails           // the new stream is given up
    | Disconnect          // framing failure in an operation, or an explicit shutdown
    | Finish              // end the operation; an aborted one gives up its connection
    | AbortTake           // an aborting thread takes the registered operation
    | AbortShutdown(stream: Stream) // and shuts its stream down later

  predicate Enabled(s: State, a: Action) {
    match a
    case Begin => s.running.None?
    case AttachConnection => s.running.Some? && s.connection.Some?
    case Open => s.running.Some? && s.connection.None? && s.dialling.None?
    case Install => s.dialling.Some?
    case DialFails => s.dialling.Some?
    case Disconnect => s.connection.Some?
    case Finish => s.running.Some? && s.dialling.None?
    case AbortTake => true
    case AbortShutdown(stream) => stream in s.pending
  }

  function Closed(s: State): State {
    s.(connection := None, shut := if s.connection.Some? then s.shut + {s.connection.value} else s.shut)
  }

  /** Whether the running operation would now finish as aborted. */
  predicate FinishesAborted(s: State)
    requires s.running.Some?
  {
    FinishOperation(s.active, s.running.value).1
  }

  function Apply(s: State, a: Action): State
    requires Enabled(s, a)
  {
    match a
    case Begin =>
      var (active, next, id) := BeginOperation(s.nextId);
      s.(active := active, nextId := next, running := Some(id))
    case AttachConnection =>
      var (active, attached) := AttachStream(s.active, s.running.value, s.connection.value);
      s.(active := active, shut := if attached then s.shut else s.shut + {s.connection.value})
    case Open =>
      var stream := s.nextStream;
      var (active, attached) := AttachStream(s.active, s.running.value, stream);
      if attached then s.(active := active, nextStream := stream + 1, dialling := Some(stream))
      else s.(active := active, nextStream := stream + 1, shut := s.shut + {stream})
    case Install => s.(dialling := None, connection := s.dialling)
    case DialFails => s.(dialling := None, shut := s.shut + {s.dialling.value})
    case Disconnect => Closed(s)
    case Finish =>
      var (active, aborted) := FinishOperation(s.active, s.running.value);
      var s' := s.(active := active, running := None);
      if aborted then Closed(s') else s'
    case AbortTake =>
      var (active, taken) := TakeOperation(s.active);
      s.(active := active, pending := if taken.Some? then s.pending + multiset{taken.value} else s.pending)
    case AbortShutdown(stream) => s.(pending := s.pending - multiset{stream}, shut := s.shut + {stream})
  }

  ghost predicate Untouched(s: State, stream: Stream) {
    stream !in s.pending && stream !in s.shut
  }

  /**
   Only the running operation is ever registered. As long as no abort has taken it, its stream is
   neither shut down nor about to be; and the same holds of the connection kept between operations.
   */
  ghost predicate Inv(s: State) {
    && (s.active.Some? ==> s.running == Some(s.active.value.id))
    && (s.active.Some? && s.active.value.stream.Some? ==> s.active.value.stream.value < s.nextStream)
    && (forall t <- s.pending :: t < s.nextStream)
    && (forall t <- s.shut :: t < s.nextStream)
    && (s.connection.Some? ==> s.connection.value < s.nextStream)
    && (s.dialling.Some? ==> s.running.Some? && s.connection.None? && s.dialling.value < s.nextStream)
    && (s.active.Some? || s.running.None? ==>
          && (s.connection.Some? ==> Untouched(s, s.connection.value))
          && (s.dialling.Some? ==> Untouched(s, s.dialling.value)))
  }

  lemma StepKeepsInv(s: State, a: Action)
    requires Inv(s) && Enabled(s, a)
    ensures Inv(Apply(s, a))
  {
    hide Inv, Apply, Enabled;
    if a.AbortTake? || a.AbortShutdown? {
      AbortKeepsInv(s, a);
    } else {
      ConnectorKeepsInv(s, a);
    }
  }

  lemma AbortKeepsInv(s: State, a: Action)
    requires Inv(s) && Enabled(s, a) && (a.AbortTake? || a.AbortShutdown?)
    ensures Inv(Apply(s, a))
  {
    assert forall t <- Apply(s, a).pending :: t in s.pending || (s.active.Some? && s.active.value.stream == Some(t));
  }

  lemma ConnectorKeepsInv(s: State, a: Action)
    requires Inv(s) && Enabled(s, a) && !a.AbortTake? && !a.AbortShutdown?
    ensures Inv(Apply(s, a))
  {
  }

  ghost predicate IsRun(run: seq<State>, actions: seq<Action>) {
    && |run| == |actions| + 1
    && run[0] == INITIAL
    && forall i :: 0 <= i < |actions| ==> Enabled(run[i], actions[i]) && run[i + 1] == Apply(run[i], actions[i])
  }

  lemma {:induction false} RunKeepsInv(run: seq<State>, actions: seq<Action>, i: nat)
    requires IsRun(run, actions) && i < |run|
    ensures Inv(run[i])
  {
    if i > 0 {
      RunKeepsInv(run, actions, i - 1);
      StepKeepsInv(run[i - 1], actions[i - 1]);
    }
  }

  /** Within an operation only an abort unregisters it. */
  lemma StaysRegistered(s: State, a: Action)
    requires Inv(s) && Enabled(s, a) && a != Begin && a != Finish && s.running.Some?
    ensures Apply(s, a).running == s.running
    ensures Apply(s, a).active.None? <==> s.active.None? || a == AbortTake
  {
  }

  lemma BeginRegisters(s: State)
    requires Enabled(s, Begin)
    ensures Apply(s, Begin).running.Some? && Apply(s, Begin).active.Some?
  {
  }

  /** From the beginning of an operation on, it is registered exactly until the first abort. */
  lemma {:induction false} RegisteredUntilAbort(run: seq<State>, actions: seq<Action>, begin: nat, i: nat)
    requires IsRun(run, actions) && begin < i < |run| && actions[begin] == Begin
    requires forall k :: begin < k < i ==> actions[k] != Begin && actions[k] != Finish
    ensures run[i].running == run[begin + 1].running && run[i].running.Some?
    ensures run[i].active.None? <==> exists k :: begin < k < i && actions[k] == AbortTake
  {
    hide Apply, Enabled, Inv;
    if i > begin + 1 {
      RegisteredUntilAbort(run, actions, begin, i - 1);
      RunKeepsInv(run, actions, i - 1);
      StaysRegistered(run[i - 1], actions[i - 1]);
    } else {
      BeginRegisters(run[begin]);
    }
  }

  /** An operation finishes as aborted if and only if an abort fell between its begin and its finish. */
  lemma AbortedExactlyWhenAbortFell(run: seq<State>, actions: seq<Action>, begin: nat, finish: nat)
    requires IsRun(run, actions) && begin < finish < |actions| && actions[begin] == Begin && actions[finish] == Finish
    requires forall k :: begin < k < finish ==> actions[k] != Begin && actions[k] != Finish
    ensures run[finish].running.Some?
    ensures FinishesAborted(run[finish]) <==> exists k :: begin < k < finish && actions[k] == AbortTake
    ensures FinishesAborted(run[finish]) ==> run[finish + 1].connection == None
    ensures !FinishesAborted(run[finish]) ==> run[finish + 1].connection == run[finish].connection
  {
    RegisteredUntilAbort(run, actions, begin, finish);
    RunKeepsInv(run, actions, finish);
  }

  /** An abort while no operation runs changes nothing. */
  lemma IdleAbortChangesNothing(run: seq<State>, actions: seq<Action>, i: nat)
    requires IsRun(run, actions) && i < |actions| && actions[i] == AbortTake && run[i].running.None?
    ensures run[i + 1] == run[i]
  {
    RunKeepsInv(run, actions, i);
  }

  /**
   In every run, no owed or performed shutdown concerns the connection kept between operations, nor
   that of an operation no abort has taken; so no late shutdown ever hits a later connection.
   */
  lemma KeptConnectionIsNeverShut(run: seq<State>, actions: seq<Action>, i: nat)
    requires IsRun(run, actions) && i < |run| && run[i].connection.Some?
    requires run[i].running.None? || !FinishesAborted(run[i])
    ensures Untouched(run[i], run[i].connection.value)
    ensures i < |actions| && actions[i].AbortShutdown? ==>
      && actions[i].stream != run[i].connection.value
      && Untouched(run[i + 1], run[i + 1].connection.value)
  {
    RunKeepsInv(run, actions, i);
  }
}
