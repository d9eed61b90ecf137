/**
 Ordered command placeholders: a reservation puts a placeholder into the worker's queue at once, and
 its command is committed into the placeholder's slot later, if at all. Clients, the worker and the
 dropping of their handles interleave freely; every step below is one critical section.
 */
module CommandQueue {
  import opened Bytes

  const CHANNEL_CAPACITY := 1024

  // ---------- One slot ----------

  /** `Option<Option<Command>>`: no decision yet, cancelled, or holding a command. */
  datatype Slot = Undecided | Cancelled | Holding

  function Commit(slot: Slot): (Slot, bool) {
    if slot.Undecided? then (Holding, true) else (slot, false)
  }

  function Cancel(slot: Slot): Slot {
    if slot.Undecided? then Cancelled else slot
  }

  /** `fail`: hands out a held command to be failed, and closes an undecided slot. */
  function Fail(slot: Slot): (Slot, bool) {
    if slot.Holding? then (Undecided, true) else (Cancelled, false)
  }

  /** The end of `wait`: takes whatever is in the slot. */
  function Take(slot: Slot): (Slot, bool) {
    (Undecided, slot.Holding?)
  }

  /** The slot object; the command itself is opaque. */
  class CommandSlot<Command> {
    var state: Option<Option<Command>>

    ghost function Abs(): Slot
      reads this
    {
      if state.None? then Undecided else if state.value.None? then Cancelled else Holding
    }

    constructor ()
      ensures Abs() == Undecided
    {
      state := None;
    }

    method CommitCommand(command: Command) returns (refused: Option<Command>)
      modifies this
      ensures Abs() == Commit(old(Abs())).0 && (refused.None? <==> Commit(old(Abs())).1)
      ensures if refused.None? then state == Some(Some(command)) else refused == Some(command) && state == old(state)
    {
      if state.Some? {
        return Some(command);
      }
      state := Some(Some(command));
      refused := None;
    }

    method CancelCommand()
      modifies this
      ensures Abs() == Cancel(old(Abs()))
      ensures old(state).Some? ==> state == old(state)
    {
      if state.None? {
        state := Some(None);
      }
    }

    method FailCommand() returns (command: Option<Command>)
      modifies this
      ensures Abs() == Fail(old(Abs())).0 && (command.Some? <==> Fail(old(Abs())).1)
      ensures command.Some? ==> old(state) == Some(command)
    {
      var taken := state;
      state := None;
      if taken.Some? && taken.value.Some? {
        return taken.value;
      }
      state := Some(None);
      command := None;
    }

    method TakeCommand() returns (command: Option<Command>)
      modifies this
      ensures Abs() == Take(old(Abs())).0 && (command.Some? <==> Take(old(Abs())).1)
      ensures command.Some? ==> old(state) == Some(command)
    {
      command := if state.Some? then state.value else None;
      state := None;
    }
  }

  // ---------- The whole system ----------

  /** A permit is handed out after its placeholder is sent, prepared at most once, and then spent. */
  datatype Permit = Sending | Open | Prepared | Spent

  datatype Message = Placeholder(id: nat) | Stop

  /**
   The worker: in its loop, waiting on a slot, failing a drained placeholder, dropping one, holding a
   command, draining, or gone. A placeholder left in a dropped channel is dropped like a drained one,
   so the worker only exits with an empty queue.
   */
  datatype Worker =
    | Looping
    | Waiting(id: nat)
    | Failing(id: nat)
    | Dropping(id: nat, draining: bool)
    | Running(id: nat)
    | Draining
    | Exited

  /** Per reservation: slot, permit, and whether its command has been committed. Commands are named by reservation. */
  datatype State = State(
    slots: seq<Slot>, permits: seq<Permit>, committed: seq<bool>,
    queue: seq<Message>, stopping: bool, worker: Worker,
    answered: seq<nat>, executed: seq<nat>)

  const INITIAL := State([], [], [], [], false, Looping, [], [])

  datatype Action =
    | Send                       // reserve: create a slot and try to queue its placeholder
    | HandOut(id: nat)           // reserve, second half: give out the permit unless stopping
    | Prepare(id: nat)           // take the admission reservation out of the permit
    | CommitSlot(id: nat)        // enqueue_reserved: commit the command, or fail it if refused
    | Abandon(id: nat)           // drop a prepared or open permit
    | CancelSlot(id: nat)        // any further drop of a permit handle
    | RequestStop(message: bool) // connector dropped: raise the flag, perhaps queue a stop message
    | Receive(seesFlag: bool)    // worker: notice the stop flag, or take the next message
    | FinishWait                 // worker: the wait is over
    | FailPlaceholder            // worker: a drained placeholder is failed
    | DropPlaceholder            // worker: an armed placeholder is dropped
    | Execute(panics: bool)      // worker: execute the held command, or fail it when stopping
    | Drain                      // worker: fail the next queued message
    | Exit                       // worker: drop the channel

  predicate Known(s: State, id: nat) {
    id < |s.slots| && |s.slots| == |s.permits| == |s.committed|
  }

  predicate Enabled(s: State, a: Action) {
    match a
    case Send => |s.slots| == |s.permits| == |s.committed|
    case HandOut(id) => Known(s, id) && s.permits[id] == Sending
    case Prepare(id) => Known(s, id) && s.permits[id] == Open
    case CommitSlot(id) => Known(s, id) && s.permits[id] == Prepared
    case Abandon(id) => Known(s, id) && (s.permits[id] == Open || s.permits[id] == Prepared)
    case CancelSlot(id) => Known(s, id) && (s.permits[id] == Prepared || s.permits[id] == Spent)
    case RequestStop(_) => true
    case Receive(seesFlag) => s.worker == Looping && (if seesFlag then s.stopping else s.queue != [])
    case FinishWait => s.worker.Waiting? && Known(s, s.worker.id) && (s.stopping || !s.slots[s.worker.id].Undecided?)
    case FailPlaceholder => s.worker.Failing? && Known(s, s.worker.id)
    case DropPlaceholder => s.worker.Dropping? && Known(s, s.worker.id)
    case Execute(_) => s.worker.Running?
    case Drain => s.worker == Draining && s.queue != []
    case Exit => s.worker == Draining && s.queue == []
  }

  function Apply(s: State, a: Action): State
    requires Enabled(s, a)
  {
    match a
    case Send =>
      var id := |s.slots|;
      if s.worker == Exited || |s.queue| >= CHANNEL_CAPACITY then
        // The placeholder comes back, is dropped and closes its slot; no permit is given out.
        s.(slots := s.slots + [Fail(Undecided).0], permits := s.permits + [Spent], committed := s.committed + [false])
      else
        s.(slots := s.slots + [Undecided], permits := s.permits + [Sending], committed := s.committed + [false],
           queue := s.queue + [Placeholder(id)])
    case HandOut(id) =>
      if s.stopping then s.(slots := s.slots[id := Cancel(s.slots[id])], permits := s.permits[id := Spent])
      else s.(permits := s.permits[id := Open])
    case Prepare(id) => s.(permits := s.permits[id := Prepared])
    case CommitSlot(id) =>
      var (slot, accepted) := Commit(s.slots[id]);
      var s' := s.(
        slots := s.slots[id := slot], permits := s.permits[id := Spent], committed := s.committed[id := true]);
      if accepted then s' else s'.(answered := s.answered + [id])
    case Abandon(id) => s.(slots := s.slots[id := Cancel(s.slots[id])], permits := s.permits[id := Spent])
    case CancelSlot(id) => s.(slots := s.slots[id := Cancel(s.slots[id])])
    case RequestStop(message) =>
      var queue := if message && s.worker != Exited && |s.queue| < CHANNEL_CAPACITY then s.queue + [Stop] else s.queue;
      s.(stopping := true, queue := queue)
    case Receive(seesFlag) =>
      if seesFlag then s.(worker := Draining)
      else (
        match s.queue[0]
        case Placeholder(id) => s.(queue := s.queue[1..], worker := Waiting(id))
        case Stop => s.(queue := s.queue[1..], stopping := true, worker := Draining))
    case FinishWait =>
      var id := s.worker.id;
      var (slot, taken) := Take(s.slots[id]);
      s.(slots := s.slots[id := slot], worker := if taken then Running(id) else Dropping(id, false))
    case FailPlaceholder =>
      var id := s.worker.id;
      var (slot, failed) := Fail(s.slots[id]);
      s.(slots := s.slots[id := slot], answered := if failed then s.answered + [id] else s.answered,
         worker := Dropping(id, true))
    case DropPlaceholder =>
      var id := s.worker.id;
      var (slot, failed) := Fail(s.slots[id]);
      s.(slots := s.slots[id := slot], answered := if failed then s.answered + [id] else s.answered,
         worker := if s.worker.draining then Draining else Looping)
    case Execute(panics) =>
      var id := s.worker.id;
      if s.stopping then s.(answered := s.answered + [id], worker := Draining)
      else s.(answered := s.answered + [id], executed := s.executed + [id], stopping := s.stopping || panics,
              worker := if panics then Draining else Looping)
    case Drain =>
      (match s.queue[0]
       case Placeholder(id) => s.(queue := s.queue[1..], worker := Failing(id))
       case Stop => s.(queue := s.queue[1..]))
    case Exit => s.(worker := Exited)
  }

  // ---------- The invariant ----------

  /** The reservation whose placeholder is in the worker's hands. */
  function InHand(worker: Worker): Option<nat> {
    match worker
    case Waiting(id) => Some(id)
    case Failing(id) => Some(id)
    case Dropping(id, _) => Some(id)
    case _ => None
  }

  /** The placeholder is still on its way to the worker or in its hands. */
  ghost predicate Live(s: State, id: nat) {
    Placeholder(id) in s.queue || InHand(s.worker) == Some(id)
  }

  ghost predicate Lengths(s: State) {
    |s.slots| == |s.permits| == |s.committed|
  }

  /** Every command is accounted for exactly once. */
  ghost predicate Accounted(s: State)
    requires Lengths(s)
  {
    && (forall i, j :: 0 <= i < j < |s.answered| ==> s.answered[i] != s.answered[j])
    && (forall id <- s.answered :: id < |s.slots|)
    && (s.worker.Running? ==> s.worker.id < |s.slots|)
    && forall id :: 0 <= id < |s.slots| ==>
        && (s.committed[id] <==> s.slots[id].Holding? || s.worker == Running(id) || id in s.answered)
        && !(s.slots[id].Holding? && s.worker == Running(id))
        && !(s.slots[id].Holding? && id in s.answered)
        && !(s.worker == Running(id) && id in s.answered)
        && (s.committed[id] ==> s.permits[id] == Spent)
  }

  /** A slot whose placeholder is gone holds no command and can accept none. */
  ghost predicate NoneStranded(s: State)
    requires Lengths(s)
  {
    forall id :: 0 <= id < |s.slots| && !Live(s, id) ==>
      && id < |s.slots| && !s.slots[id].Holding?
      && (s.slots[id].Undecided? ==> s.permits[id] == Spent)
  }

  /** Placeholders are queued, and pass through the worker's hands, in reservation order. */
  ghost predicate Ordered(s: State) {
    && (forall id: nat :: Placeholder(id) in s.queue ==> id < |s.slots|)
    && Ascending(s.queue)
    && (InHand(s.worker).Some? || s.worker.Running? ==>
          s.worker.id < |s.slots| && forall id: nat :: Placeholder(id) in s.queue ==> s.worker.id < id)
    && (forall i, j :: 0 <= i < j < |s.executed| ==> s.executed[i] < s.executed[j])
    && (forall e, id: nat :: e in s.executed && Placeholder(id) in s.queue ==> e < id)
    && (forall e <- s.executed :: e in s.answered && e < |s.slots|)
    && (s.worker.Waiting? || s.worker.Running? ==> forall e <- s.executed :: e < s.worker.id)
  }

  ghost predicate Inv(s: State) {
    && Lengths(s) && Accounted(s) && NoneStranded(s) && Ordered(s)
    && (s.worker == Exited ==> s.queue == [])
  }

  lemma InitialInv()
    ensures Inv(INITIAL)
  {
  }

  /** Membership in a queue after its head has been taken. */
  lemma HeadTaken(queue: seq<Message>)
    requires queue != []
    ensures forall m :: m in queue <==> m == queue[0] || m in queue[1..]
  {
    assert queue == [queue[0]] + queue[1..];
  }

  /** A new reservation leaves every earlier one as it was. */
  lemma SendOnlyAdds(s: State)
    requires Inv(s) && Enabled(s, Send)
    ensures var s' := Apply(s, Send);
      && Lengths(s') && |s'.slots| == |s.slots| + 1 && s'.worker == s.worker && s'.answered == s.answered
      && s'.executed == s.executed
      && (forall id :: 0 <= id < |s.slots| ==>
            s'.slots[id] == s.slots[id] && s'.permits[id] == s.permits[id] && s'.committed[id] == s.committed[id])
      && (forall id: nat :: id < |s.slots| ==> (Placeholder(id) in s'.queue <==> Placeholder(id) in s.queue))
      && Placeholder(|s.slots|) !in s.queue && InHand(s.worker) != Some(|s.slots|) && s.worker != Running(|s.slots|)
  {
    hide Accounted, NoneStranded;
  }

  lemma SendKeepsAccounted(s: State)
    requires Inv(s) && Enabled(s, Send)
    ensures Lengths(Apply(s, Send)) && Accounted(Apply(s, Send))
  {
    SendOnlyAdds(s);
    hide Ordered, NoneStranded, Apply;
    assert |s.slots| !in s.answered;
    var s' := Apply(s, Send);
    assert !s'.committed[|s.slots|] && !s'.slots[|s.slots|].Holding? by { SendIsQuiet(s); }
  }

  lemma SendIsQuiet(s: State)
    requires Inv(s) && Enabled(s, Send)
    ensures var s', id := Apply(s, Send), |s.slots|;
      && Lengths(s') && id < |s'.slots| && !s'.committed[id] && !s'.slots[id].Holding?
      && (!Live(s', id) ==> s'.slots[id].Cancelled?)
  {
    hide Ordered, NoneStranded, Accounted;
  }

  lemma SendKeepsInv(s: State)
    requires Inv(s) && Enabled(s, Send)
    ensures Inv(Apply(s, Send))
  {
    var s' := Apply(s, Send);
    SendOnlyAdds(s);
    SendKeepsAccounted(s);
    SendIsQuiet(s);
    hide Accounted;
    assert NoneStranded(s');
    hide NoneStranded;
    assert Ordered(s');
  }

  lemma ClientKeepsInv(s: State, a: Action)
    requires Inv(s) && Enabled(s, a)
    requires a.HandOut? || a.Prepare? || a.Abandon? || a.CancelSlot? || a.RequestStop?
    ensures Inv(Apply(s, a))
  {
    hide Accounted, NoneStranded, Ordered;
    ClientKeepsAccounted(s, a);
    ClientKeepsOrder(s, a);
    ClientStrandsNone(s, a);
  }

  lemma ClientKeepsLive(s: State, a: Action)
    requires Enabled(s, a) && (a.HandOut? || a.Prepare? || a.Abandon? || a.CancelSlot? || a.RequestStop?)
    ensures var s' := Apply(s, a);
      && (forall id: nat :: Placeholder(id) in s'.queue <==> Placeholder(id) in s.queue)
      && (forall id: nat :: Live(s', id) <==> Live(s, id))
  {
  }

  lemma ClientKeepsAccounted(s: State, a: Action)
    requires Lengths(s) && Accounted(s) && Enabled(s, a)
    requires a.HandOut? || a.Prepare? || a.Abandon? || a.CancelSlot? || a.RequestStop?
    ensures Lengths(Apply(s, a)) && Accounted(Apply(s, a))
  {
  }

  lemma ClientKeepsOrder(s: State, a: Action)
    requires Lengths(s) && Ordered(s) && Enabled(s, a)
    requires a.HandOut? || a.Prepare? || a.Abandon? || a.CancelSlot? || a.RequestStop?
    ensures Ordered(Apply(s, a))
  {
    ClientKeepsLive(s, a);
  }

  lemma ClientStrandsNone(s: State, a: Action)
    requires Lengths(s) && NoneStranded(s) && Enabled(s, a)
    requires a.HandOut? || a.Prepare? || a.Abandon? || a.CancelSlot? || a.RequestStop?
    ensures Lengths(Apply(s, a)) && NoneStranded(Apply(s, a))
  {
    ClientKeepsLive(s, a);
    hide Live;
  }

  lemma CommitKeepsInv(s: State, id: nat)
    requires Inv(s) && Enabled(s, CommitSlot(id))
    ensures Inv(Apply(s, CommitSlot(id)))
  {
    hide Accounted, NoneStranded, Ordered;
    CommitKeepsAccounted(s, id);
    CommitKeepsOrder(s, id);
  }

  lemma CommitKeepsAccounted(s: State, id: nat)
    requires Lengths(s) && Accounted(s) && Enabled(s, CommitSlot(id))
    ensures Lengths(Apply(s, CommitSlot(id))) && Accounted(Apply(s, CommitSlot(id)))
  {
    var s' := Apply(s, CommitSlot(id));
    assert forall k :: k in s'.answered <==> k in s.answered || (k == id && !Commit(s.slots[id]).1);
  }

  lemma CommitKeepsOrder(s: State, id: nat)
    requires Lengths(s) && Ordered(s) && NoneStranded(s) && Enabled(s, CommitSlot(id))
    ensures var s' := Apply(s, CommitSlot(id)); Lengths(s') && Ordered(s') && NoneStranded(s')
  {
    var s' := Apply(s, CommitSlot(id));
    assert forall k: nat :: Live(s', k) <==> Live(s, k);
    assert forall k <- s.answered :: k in s'.answered;
  }

  ghost predicate TakesHead(a: Action) {
    a.Receive? || a.Drain? || a.Exit?
  }

  lemma TakeHeadKeepsInv(s: State, a: Action)
    requires Inv(s) && Enabled(s, a) && TakesHead(a)
    ensures Inv(Apply(s, a))
  {
    hide Accounted, NoneStranded, Ordered;
    TakeHeadKeepsAccounted(s, a);
    TakeHeadKeepsOrder(s, a);
    TakeHeadStrandsNone(s, a);
  }

  lemma TakeHeadKeepsLive(s: State, a: Action)
    requires Enabled(s, a) && TakesHead(a)
    ensures forall id: nat :: Live(Apply(s, a), id) <==> Live(s, id)
  {
    if s.queue != [] {
      HeadTaken(s.queue);
    }
  }

  lemma TakeHeadKeepsAccounted(s: State, a: Action)
    requires Lengths(s) && Accounted(s) && Enabled(s, a) && TakesHead(a)
    ensures Lengths(Apply(s, a)) && Accounted(Apply(s, a))
  {
  }

  lemma TakeHeadKeepsOrder(s: State, a: Action)
    requires Lengths(s) && Ordered(s) && Enabled(s, a) && TakesHead(a)
    ensures Ordered(Apply(s, a))
  {
    if s.queue != [] {
      HeadTaken(s.queue);
      TailOrdered(s.queue);
    }
    hide Ascending;
  }

  ghost predicate Ascending(queue: seq<Message>) {
    forall i, j :: 0 <= i < j < |queue| && queue[i].Placeholder? && queue[j].Placeholder? ==> queue[i].id < queue[j].id
  }

  lemma TailOrdered(queue: seq<Message>)
    requires queue != [] && Ascending(queue)
    ensures Ascending(queue[1..])
    ensures forall id: nat :: Placeholder(id) in queue[1..] && queue[0].Placeholder? ==> queue[0].id < id
  {
  }

  lemma TakeHeadStrandsNone(s: State, a: Action)
    requires Lengths(s) && NoneStranded(s) && Enabled(s, a) && TakesHead(a)
    ensures Lengths(Apply(s, a)) && NoneStranded(Apply(s, a))
  {
    TakeHeadKeepsLive(s, a);
    hide Live;
  }

  lemma WaitKeepsInv(s: State)
    requires Inv(s) && Enabled(s, FinishWait)
    ensures Inv(Apply(s, FinishWait))
  {
    var s' := Apply(s, FinishWait);
    var id := s.worker.id;
    assert forall k: nat :: k != id ==> (Live(s', k) <==> Live(s, k));
    assert Live(s, id) && s.slots[id].Holding? ==> s.committed[id] && s.permits[id] == Spent;
  }

  lemma FailKeepsInv(s: State, a: Action)
    requires Inv(s) && Enabled(s, a) && (a.FailPlaceholder? || a.DropPlaceholder?)
    ensures Inv(Apply(s, a))
  {
    hide Accounted, NoneStranded, Ordered;
    FailKeepsAccounted(s, a);
    FailKeepsOrder(s, a);
  }

  lemma FailKeepsAccounted(s: State, a: Action)
    requires Lengths(s) && Accounted(s) && Enabled(s, a) && (a.FailPlaceholder? || a.DropPlaceholder?)
    ensures Lengths(Apply(s, a)) && Accounted(Apply(s, a))
  {
    var s', id := Apply(s, a), s.worker.id;
    assert forall k :: k in s'.answered <==> k in s.answered || (k == id && s.slots[id].Holding?);
  }

  lemma FailKeepsOrder(s: State, a: Action)
    requires Inv(s) && Enabled(s, a) && (a.FailPlaceholder? || a.DropPlaceholder?)
    ensures var s' := Apply(s, a); Lengths(s') && Ordered(s') && NoneStranded(s')
  {
    var s', id := Apply(s, a), s.worker.id;
    assert s.slots[id].Holding? ==> s.committed[id] && s.permits[id] == Spent;
    hide Accounted;
    assert forall k: nat :: k != id ==> (Live(s', k) <==> Live(s, k));
    assert forall k <- s.answered :: k in s'.answered;
  }

  lemma ExecuteKeepsInv(s: State, panics: bool)
    requires Inv(s) && Enabled(s, Execute(panics))
    ensures Inv(Apply(s, Execute(panics)))
  {
    hide Accounted, NoneStranded, Ordered;
    ExecuteKeepsAccounted(s, panics);
    ExecuteKeepsOrder(s, panics);
  }

  lemma ExecuteKeepsAccounted(s: State, panics: bool)
    requires Lengths(s) && Accounted(s) && Enabled(s, Execute(panics))
    ensures Lengths(Apply(s, Execute(panics))) && Accounted(Apply(s, Execute(panics)))
  {
    var s', id := Apply(s, Execute(panics)), s.worker.id;
    assert forall k :: k in s'.answered <==> k in s.answered || k == id;
  }

  lemma ExecuteKeepsOrder(s: State, panics: bool)
    requires Lengths(s) && Ordered(s) && NoneStranded(s) && Enabled(s, Execute(panics))
    ensures var s' := Apply(s, Execute(panics)); Lengths(s') && Ordered(s') && NoneStranded(s')
  {
    var s', id := Apply(s, Execute(panics)), s.worker.id;
    assert forall k: nat :: Live(s', k) <==> Live(s, k);
    assert forall k :: k in s'.answered <==> k in s.answered || k == id;
    assert forall k :: k in s'.executed ==> k in s.executed || k == id;
    assert forall i :: 0 <= i < |s.executed| ==> s.executed[i] in s.executed;
  }

  /** Every step, in every interleaving, keeps the invariant. */
  lemma StepKeepsInv(s: State, a: Action)
    requires Inv(s) && Enabled(s, a)
    ensures Inv(Apply(s, a))
  {
    hide Inv;
    match a
    case Send => SendKeepsInv(s);
    case CommitSlot(id) => CommitKeepsInv(s, id);
    case Receive(_) => TakeHeadKeepsInv(s, a);
    case Drain => TakeHeadKeepsInv(s, a);
    case Exit => TakeHeadKeepsInv(s, a);
    case FinishWait => WaitKeepsInv(s);
    case FailPlaceholder => FailKeepsInv(s, a);
    case DropPlaceholder => FailKeepsInv(s, a);
    case Execute(panics) => ExecuteKeepsInv(s, panics);
    case _ => ClientKeepsInv(s, a);
  }

  // ---------- Whole runs ----------

  ghost predicate IsRun(run: seq<State>, actions: seq<Action>) {
    && |run| == |actions| + 1 && run[0] == INITIAL
    && forall i :: 0 <= i < |actions| ==> Enabled(run[i], actions[i]) && run[i + 1] == Apply(run[i], actions[i])
  }

  lemma {:induction false} RunKeepsInv(run: seq<State>, actions: seq<Action>, i: nat)
    requires IsRun(run, actions) && i < |run|
    ensures Inv(run[i])
  {
    hide Inv, Apply, Enabled;
    if i == 0 {
      InitialInv();
    } else {
      RunKeepsInv(run, actions, i - 1);
      assert Enabled(run[i - 1], actions[i - 1]) && run[i - 1 + 1] == Apply(run[i - 1], actions[i - 1]);
      StepKeepsInv(run[i - 1], actions[i - 1]);
    }
  }

  /**
   In every run: no command is answered twice, a command is executed only once it has been committed
   and then counts as answered, and commands execute in reservation order whatever order they were
   committed in.
   */
  lemma AnswersAreUniqueAndOrdered(run: seq<State>, actions: seq<Action>)
    requires IsRun(run, actions)
    ensures var s := run[|run| - 1];
      && (forall i, j :: 0 <= i < j < |s.answered| ==> s.answered[i] != s.answered[j])
      && (forall i, j :: 0 <= i < j < |s.executed| ==> s.executed[i] < s.executed[j])
      && (forall id <- s.executed :: id in s.answered)
      && (forall id <- s.answered :: id < |s.committed| && s.committed[id])
  {
    RunKeepsInv(run, actions, |run| - 1);
  }

  /** In every run: once the worker is gone, every command ever committed has been answered, exactly once. */
  lemma EveryCommandIsAnswered(run: seq<State>, actions: seq<Action>, id: nat)
    requires IsRun(run, actions)
    requires var s := run[|run| - 1]; s.worker == Exited && id < |s.committed| && s.committed[id]
    ensures id in run[|run| - 1].answered
  {
    RunKeepsInv(run, actions, |run| - 1);
    var s := run[|run| - 1];
    assert !Live(s, id);
  }

  /** In every run: a command whose placeholder is gone is with the worker or answered, never left in its slot. */
  lemma NoCommandIsStranded(run: seq<State>, actions: seq<Action>, id: nat)
    requires IsRun(run, actions)
    requires var s := run[|run| - 1]; id < |s.committed| && !Live(s, id)
    ensures var s := run[|run| - 1];
      && id < |s.slots| && !s.slots[id].Holding?
      && (s.committed[id] ==> s.worker == Running(id) || id in s.answered)
      && (Enabled(s, CommitSlot(id)) ==> Apply(s, CommitSlot(id)).answered == s.answered + [id])
  {
    RunKeepsInv(run, actions, |run| - 1);
  }

  predicate WorkerAction(a: Action) {
    a.Receive? || a.FinishWait? || a.FailPlaceholder? || a.DropPlaceholder? || a.Execute? || a.Drain? || a.Exit?
  }

  /** Once stopping, the worker can always take a step until it is gone; so can it whenever it has something to do. */
  lemma WorkerNeverStuck(s: State)
    requires Inv(s) && s.worker != Exited
    requires s.stopping || (s.worker == Looping ==> s.queue != [])
    requires s.stopping || (s.worker.Waiting? ==> s.worker.id < |s.slots| && !s.slots[s.worker.id].Undecided?)
    ensures exists a :: WorkerAction(a) && Enabled(s, a)
  {
    var a := match s.worker
      case Looping => Receive(s.stopping)
      case Waiting(_) => FinishWait
      case Failing(_) => FailPlaceholder
      case Dropping(_, _) => DropPlaceholder
      case Running(_) => Execute(false)
      case Draining => if s.queue == [] then Exit else Drain
      case Exited => Exit;
    assert WorkerAction(a) && Enabled(s, a);
  }

  // ---------- The worker gets to its end ----------

  /** How many steps of its own the worker is from being done with what it holds. */
  function Rank(worker: Worker): nat {
    match worker
    case Waiting(_) => 4
    case Failing(_) => 4
    case Dropping(_, _) => 3
    case Running(_) => 3
    case Looping => 2
    case Draining => 1
    case Exited => 0
  }

  const STEPS_PER_MESSAGE := 5

  function Work(s: State): nat {
    STEPS_PER_MESSAGE * |s.queue| + Rank(s.worker)
  }

  /** Every step of the worker leaves less work, and a message more is at most five steps more. */
  lemma StepChangesWork(s: State, a: Action)
    requires Enabled(s, a)
    ensures WorkerAction(a) ==> Work(Apply(s, a)) < Work(s)
    ensures !WorkerAction(a) ==>
      Work(Apply(s, a)) <= Work(s) + (if a.Send? || a.RequestStop? then STEPS_PER_MESSAGE else 0)
    ensures s.stopping ==> Apply(s, a).stopping
  {
  }

  function WorkerSteps(actions: seq<Action>, i: nat, j: nat): nat
    requires i <= j <= |actions|
  {
    if i == j then 0 else WorkerSteps(actions, i, j - 1) + if WorkerAction(actions[j - 1]) then 1 else 0
  }

  /** Steps that may put a message into the queue. */
  function Messages(actions: seq<Action>, i: nat, j: nat): nat
    requires i <= j <= |actions|
  {
    if i == j then 0
    else Messages(actions, i, j - 1) + if actions[j - 1].Send? || actions[j - 1].RequestStop? then 1 else 0
  }

  lemma {:induction false} WorkIsBounded(run: seq<State>, actions: seq<Action>, i: nat, j: nat)
    requires IsRun(run, actions) && i <= j <= |actions|
    ensures WorkerSteps(actions, i, j) + Work(run[j]) <= Work(run[i]) + STEPS_PER_MESSAGE * Messages(actions, i, j)
    ensures run[i].stopping ==> run[j].stopping
  {
    hide Apply, Enabled, Work;
    if i < j {
      WorkIsBounded(run, actions, i, j - 1);
      assert Enabled(run[j - 1], actions[j - 1]) && run[j - 1 + 1] == Apply(run[j - 1], actions[j - 1]);
      StepChangesWork(run[j - 1], actions[j - 1]);
    }
  }

  /**
   In every run: from any point on, the worker takes at most its work at that point and five steps for
   each message that still arrives. A stopping worker always has a next step until it is gone, and is gone
   once it has taken that many.
   */
  lemma StoppingWorkerExits(run: seq<State>, actions: seq<Action>, i: nat, j: nat)
    requires IsRun(run, actions) && i <= j <= |actions| && run[i].stopping
    ensures WorkerSteps(actions, i, j) <= Work(run[i]) + STEPS_PER_MESSAGE * Messages(actions, i, j)
    ensures run[j].worker != Exited ==> exists a :: WorkerAction(a) && Enabled(run[j], a)
    ensures WorkerSteps(actions, i, j) == Work(run[i]) + STEPS_PER_MESSAGE * Messages(actions, i, j) ==>
      run[j].worker == Exited
  {
    WorkIsBounded(run, actions, i, j);
    RunKeepsInv(run, actions, j);
    hide Inv, Enabled, Apply;
    if run[j].worker != Exited {
      WorkerNeverStuck(run[j]);
    }
  }
}
