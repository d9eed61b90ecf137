/** What an abort brings about, and that no socket is left open behind the connector's back. */
module AbortLaws {
  import opened Bytes
  import opened Abort

  /** The next operation is told apart from this one. */
  lemma IdsDiffer(next: nat)
    requires next < U64_RANGE
    ensures var (active, next', id) := BeginOperation(next);
      active == Some(Operation(id, None)) && id == next && next' != next && next' < U64_RANGE
  {
  }

  /** An operation no abort has taken registers the stream it attaches or opens; a taken one shuts it down. */
  lemma AttachingRegisters(s: State, a: Action)
    requires Inv(s) && Enabled(s, a) && (a == AttachConnection || a == Open)
    ensures var s', stream := Apply(s, a), if a == Open then s.nextStream else s.connection.value;
      if FinishesAborted(s) then s'.active == s.active && stream in s'.shut && s'.dialling == s.dialling
      else s'.active == Some(Operation(s.running.value, Some(stream))) && (a == Open ==> s'.dialling == Some(stream))
  {
  }

  /** From then on it stays registered through everything but another stream, the end, or an abort. */
  lemma RegisteredStreamStays(s: State, a: Action)
    requires Inv(s) && Enabled(s, a) && s.active.Some?
    requires a != AttachConnection && a != Open && a != Finish && a != AbortTake
    ensures Apply(s, a).active == s.active
  {
  }

  /** An abort of an operation with a registered stream comes to owe that stream's shutdown. */
  lemma AbortOwesShutdown(s: State)
    requires s.active.Some? && s.active.value.stream.Some?
    ensures s.active.value.stream.value in Apply(s, AbortTake).pending && Apply(s, AbortTake).active.None?
  {
  }

  lemma OwedStep(s: State, a: Action, stream: Stream)
    requires Enabled(s, a)
    ensures stream in s.shut ==> stream in Apply(s, a).shut
    ensures stream in s.pending ==> stream in Apply(s, a).pending || a == AbortShutdown(stream)
    ensures a == AbortShutdown(stream) ==> stream in Apply(s, a).shut
  {
  }

  /** In every run: a shutdown that is owed stays owed until it is performed, and a stream stays shut down. */
  lemma {:induction false} OwedUntilPerformed(run: seq<State>, actions: seq<Action>, i: nat, j: nat, stream: Stream)
    requires IsRun(run, actions) && i <= j < |run|
    ensures stream in run[i].shut ==> stream in run[j].shut
    ensures stream in run[i].pending ==>
      stream in run[j].pending || exists k :: i <= k < j && actions[k] == AbortShutdown(stream)
    ensures stream in run[i].pending ==> stream in run[j].pending || stream in run[j].shut
  {
    hide Apply, Enabled;
    if i < j {
      OwedUntilPerformed(run, actions, i, j - 1, stream);
      assert Enabled(run[j - 1], actions[j - 1]) && run[j - 1 + 1] == Apply(run[j - 1], actions[j - 1]);
      OwedStep(run[j - 1], actions[j - 1], stream);
    }
  }

  /** In every run: an abort that takes an operation with a registered stream gets that stream shut down or owes it. */
  lemma AbortReachesItsStream(run: seq<State>, actions: seq<Action>, i: nat, j: nat, stream: Stream)
    requires IsRun(run, actions) && i < j < |run| && actions[i] == AbortTake
    requires run[i].active.Some? && run[i].active.value.stream == Some(stream)
    ensures stream in run[j].pending || stream in run[j].shut
  {
    AbortOwesShutdown(run[i]);
    OwedUntilPerformed(run, actions, i + 1, j, stream);
  }

  /** Every stream ever opened is in use or has been shut down. */
  ghost predicate NoneLeaks(s: State) {
    forall t: Stream :: t < s.nextStream ==> t in s.shut || s.connection == Some(t) || s.dialling == Some(t)
  }

  lemma StepLeaksNone(s: State, a: Action)
    requires Inv(s) && NoneLeaks(s) && Enabled(s, a)
    ensures NoneLeaks(Apply(s, a))
  {
  }

  /** In every run, a stream the connector no longer uses has been shut down. */
  lemma {:induction false} NoStreamLeaks(run: seq<State>, actions: seq<Action>, i: nat)
    requires IsRun(run, actions) && i < |run|
    ensures NoneLeaks(run[i])
  {
    hide Apply, Enabled, Inv;
    if i > 0 {
      NoStreamLeaks(run, actions, i - 1);
      RunKeepsInv(run, actions, i - 1);
      assert Enabled(run[i - 1], actions[i - 1]) && run[i - 1 + 1] == Apply(run[i - 1], actions[i - 1]);
      StepLeaksNone(run[i - 1], actions[i - 1]);
    }
  }
}
