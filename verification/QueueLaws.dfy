/** What becomes of a command: it is executed unless its slot was cancelled or the worker is stopping. */
module QueueLaws {
  import opened Bytes
  import opened CommandQueue

  // ---------- The way of one command ----------

  /** A slot nobody has decided takes the command; any other gives it back, to be failed at once. */
  lemma CommitIsHeld(s: State, id: nat)
    requires Inv(s) && Enabled(s, CommitSlot(id))
    ensures var s' := Apply(s, CommitSlot(id));
      && s'.committed == s.committed[id := true] && !s.slots[id].Holding?
      && (s.slots[id].Undecided? ==> s'.slots[id] == Holding && s'.answered == s.answered)
      && (s.slots[id].Cancelled? ==> s'.slots[id] == Cancelled && s'.answered == s.answered + [id])
  {
  }

  /** The worker takes a held command out of the slot it waits on. */
  lemma HeldIsTaken(s: State)
    requires Inv(s) && s.worker.Waiting? && s.slots[s.worker.id].Holding?
    ensures Enabled(s, FinishWait) && Apply(s, FinishWait).worker == Running(s.worker.id)
  {
  }

  /** And executes it unless it is stopping. */
  lemma TakenIsExecuted(s: State, panics: bool)
    requires Inv(s) && s.worker.Running?
    ensures Enabled(s, Execute(panics))
    ensures var s', id := Apply(s, Execute(panics)), s.worker.id;
      && s'.answered == s.answered + [id]
      && s'.executed == (if s.stopping then s.executed else s.executed + [id])
      && (!s.stopping && !panics ==> s'.worker == Looping && !s'.stopping)
  {
  }

  /** The next placeholder in the queue is the one the worker waits on. */
  lemma NextIsAwaited(s: State)
    requires s.worker == Looping && s.queue != [] && s.queue[0].Placeholder?
    ensures Enabled(s, Receive(false)) && Apply(s, Receive(false)).worker == Waiting(s.queue[0].id)
    ensures Apply(s, Receive(false)).queue == s.queue[1..]
  {
  }

  /** A reservation is queued while there is room and a worker, and its permit is given out unless stopping. */
  lemma ReservationIsQueued(s: State)
    requires Inv(s) && s.worker != Exited && |s.queue| < CHANNEL_CAPACITY && !s.stopping
    ensures var s', id := Apply(s, Send), |s.slots|;
      && s'.queue == s.queue + [Placeholder(id)] && s'.slots == s.slots + [Undecided]
      && Enabled(s', HandOut(id)) && Apply(s', HandOut(id)).permits[id] == Open
      && Enabled(Apply(s', HandOut(id)), Prepare(id))
  {
  }

  /** A stop is noticed whether or not its message finds room, and drains the queue. */
  lemma StopIsNoticed(s: State, message: bool)
    ensures Apply(s, RequestStop(message)).stopping
    ensures s.worker == Looping && s.stopping ==> Apply(s, Receive(true)).worker == Draining
    ensures s.worker == Looping && s.queue != [] && s.queue[0].Stop? ==>
      var s' := Apply(s, Receive(false)); s'.stopping && s'.worker == Draining && s'.queue == s.queue[1..]
  {
  }

  /** Giving a permit up decides its slot, so that a worker waiting on it goes on without a command. */
  lemma AbandonedSlotUnblocks(s: State, id: nat)
    requires Inv(s) && Enabled(s, Abandon(id))
    ensures var s' := Apply(s, Abandon(id));
      && !s'.slots[id].Undecided? && s'.permits[id] == Spent
      && (s.slots[id].Undecided? ==> s'.slots[id] == Cancelled)
      && (s'.worker == Waiting(id) ==> Enabled(s', FinishWait))
      && (s'.worker == Waiting(id) && s'.slots[id].Cancelled? ==> Apply(s', FinishWait).worker == Dropping(id, false))
  {
  }

  /** While stopping, no permit is given out: the reservation's slot is closed instead. */
  lemma NoPermitWhileStopping(s: State, id: nat)
    requires Inv(s) && Enabled(s, HandOut(id)) && s.stopping
    ensures Apply(s, HandOut(id)).permits[id] == Spent && !Apply(s, HandOut(id)).slots[id].Undecided?
  {
  }

  // ---------- Over whole runs ----------

  ghost function CancelledIn(s: State): set<nat> {
    set id: nat | id < |s.slots| && s.slots[id].Cancelled?
  }

  /** The reservations whose slot was cancelled in some state up to `j`. */
  ghost function CancelledBy(run: seq<State>, j: nat): set<nat>
    requires j < |run|
  {
    CancelledIn(run[j]) + if j == 0 then {} else CancelledBy(run, j - 1)
  }

  /** An answer that is no execution is due to a stopping worker or a cancelled slot. */
  ghost predicate Explained(s: State, cancelled: set<nat>) {
    && (s.worker.Draining? || s.worker.Failing? || s.worker.Exited? ==> s.stopping)
    && (s.worker.Dropping? ==> s.stopping || (!s.worker.draining && s.worker.id in cancelled))
    && (s.stopping || forall id <- s.answered :: id in s.executed || id in cancelled)
  }

  lemma StepExplains(s: State, a: Action, cancelled: set<nat>)
    requires Inv(s) && Enabled(s, a) && Explained(s, cancelled) && CancelledIn(s) <= cancelled
    ensures Explained(Apply(s, a), cancelled)
  {
    if a.CommitSlot? {
      CommitIsHeld(s, a.id);
    }
  }

  lemma {:induction false} RunExplains(run: seq<State>, actions: seq<Action>, i: nat)
    requires IsRun(run, actions) && i < |run|
    ensures Explained(run[i], CancelledBy(run, i))
  {
    hide Inv, Apply, Enabled, CancelledIn;
    if i > 0 {
      RunExplains(run, actions, i - 1);
      RunKeepsInv(run, actions, i - 1);
      assert Enabled(run[i - 1], actions[i - 1]) && run[i - 1 + 1] == Apply(run[i - 1], actions[i - 1]);
      StepExplains(run[i - 1], actions[i - 1], CancelledBy(run, i - 1));
    }
  }

  lemma {:induction false} CancelledOnce(run: seq<State>, j: nat, id: nat)
    requires j < |run| && id in CancelledBy(run, j)
    ensures exists i :: 0 <= i <= j && id < |run[i].slots| && run[i].slots[id].Cancelled?
  {
    if id !in CancelledIn(run[j]) {
      CancelledOnce(run, j - 1, id);
    }
  }

  /**
   In every run: as long as the worker is not stopping, a command that was answered and whose slot was never
   cancelled has been executed.
   */
  lemma AnsweredMeansExecuted(run: seq<State>, actions: seq<Action>, id: nat)
    requires IsRun(run, actions)
    requires var s := run[|run| - 1]; !s.stopping && id in s.answered
    requires forall i :: 0 <= i < |run| && id < |run[i].slots| ==> !run[i].slots[id].Cancelled?
    ensures id in run[|run| - 1].executed
  {
    RunExplains(run, actions, |run| - 1);
    if id in CancelledBy(run, |run| - 1) {
      CancelledOnce(run, |run| - 1, id);
    }
  }
}
