/** That a follow completes by itself: once the watchdog has killed the child, reader and replay run to their end. */
module FollowCompletion {
  import opened Wrappers
  import opened Lines
  import opened TailText
  import opened FollowProtocol
  import opened FollowInvariants
  import opened FollowTheorems
  import opened FollowProgress

  // ---- the flush has not happened before it is due ---------------------------------------

  predicate BeforeFetch(w: Watchdog) {
    !w.Fetch? && !w.Replay? && !w.WatchdogDone?
  }

  predicate FlushDue(s: State) {
    BeforeFetch(s.watchdog) ==> !s.flushed
  }

  lemma WatchdogKeepsFlushDue(s: State, a: WatchdogAction)
    requires Bounded(s) && FlushDue(s) && Enabled(s, ByWatchdog(a))
    ensures FlushDue(NextWatchdog(s, a))
  {
    hide CutOf, Held, IsTail, ReplayLines, NextReplay;
  }

  lemma StepKeepsFlushDue(s: State, a: Action)
    requires Bounded(s) && FlushDue(s) && Enabled(s, a)
    ensures FlushDue(Next(s, a))
  {
    hide CutOf, Held, IsTail, NextEnv, NextReader, NextWatchdog, NextOther;
    if a.ByWatchdog? {
      WatchdogKeepsFlushDue(s, a.w);
    }
  }

  lemma {:induction false} RunKeepsFlushDue(s: State, actions: seq<Action>, end: State)
    requires FlushDue(s) && Runs(s, actions, end)
    ensures FlushDue(end)
    decreases |actions|
  {
    hide FlushDue, Enabled, Next;
    if actions != [] {
      StepKeepsFlushDue(s, actions[0]);
      RunKeepsFlushDue(Next(s, actions[0]), actions[1..], end);
    }
  }

  // ---- from the kill to the end ----------------------------------------------------------

  /** The child has been killed; the tail is still to be fetched, or was fetched with success. */
  predicate Flushing(s: State) {
    && (AfterKill(s.watchdog) || s.watchdog.WatchdogDone?)
    && (BeforeFetch(s.watchdog) ==> !s.flushed)
    && (s.watchdog.WatchdogDone? ==> s.fetched.Some?)
  }

  /** What reader and watchdog can still do. */
  function FlushLeft(s: State): int
    requires Bounded(s)
  {
    ReaderLeft(s) + WatchdogLeft(s.watchdog)
  }

  predicate ByFollow(a: Action) {
    a.ByReader? || a.ByWatchdog?
  }

  const FAILED_FETCH := ByWatchdog(FetchTail(None))

  lemma WatchdogKeepsFlushing(s: State, a: WatchdogAction)
    requires Bounded(s) && Flushing(s) && SeenOk(s.watchdog, s.flushed, s.snapshot, s.fetched)
    requires Enabled(s, ByWatchdog(a)) && ByWatchdog(a) != FAILED_FETCH
    ensures Flushing(NextWatchdog(s, a))
  {
    hide CutOf, Held, IsTail, ReplayLines, NextReplay, Base;
  }

  lemma OthersKeepFlushing(s: State, a: Action)
    requires Bounded(s) && Flushing(s) && !a.ByWatchdog?
    ensures Flushing(Next(s, a)) && Next(s, a).watchdog == s.watchdog
    ensures a.ByOther? ==> Bounded(Next(s, a)) && ReaderLeft(Next(s, a)) == ReaderLeft(s)
  {
    hide CutOf, LinesOf, Held, NextEnv, NextReader, NextOther;
  }

  lemma FlushStepsDown(s: State, a: Action)
    requires Inv(s) && Flushing(s) && !s.childAlive && Enabled(s, a) && a != FAILED_FETCH
    ensures var t := Next(s, a);
            && Inv(t) && Flushing(t) && !t.childAlive
            && FlushLeft(t) + (if ByFollow(a) then 1 else 0) <= FlushLeft(s)
  {
    hide CutOf, Only, LinesOf, Held, LiveOk, ReplayOk, SeenOk, JoinInv, SnapshotInv, PipeInv, CloseInv, IsTail,
      WatchdogLeft, ReaderLeft, Flushing, NextEnv, NextReader, NextWatchdog, NextOther;
    StepKeepsInv(s, a);
    FlushingIsPastPolls(s);
    match a
    case Env(e) => OthersKeepFlushing(s, a); EnvKeepsReaderLeft(s, e);
    case ByReader(r) => OthersKeepFlushing(s, a); InFlightIsCounted(s); ReaderStepsDown(s, r);
    case ByWatchdog(w) => WatchdogKeepsFlushing(s, w); WatchdogStepsDown(s, w); WatchdogKeepsReaderLeft(s, w);
    case ByOther(o) => OthersKeepFlushing(s, a);
  }

  lemma FlushingIsPastPolls(s: State)
    requires Flushing(s)
    ensures !s.watchdog.CheckClose?
  {
  }

  lemma EnvKeepsReaderLeft(s: State, e: EnvAction)
    requires Bounded(s) && !s.childAlive && Enabled(s, Env(e))
    ensures Bounded(NextEnv(s, e)) && ReaderLeft(NextEnv(s, e)) == ReaderLeft(s)
  {
    hide CutOf, LinesOf;
    assert NextEnv(s, e).log[..s.relayed] == s.log[..s.relayed];
  }

  lemma WatchdogKeepsReaderLeft(s: State, a: WatchdogAction)
    requires Bounded(s)
    ensures Bounded(NextWatchdog(s, a)) && ReaderLeft(NextWatchdog(s, a)) == ReaderLeft(s)
  {
    hide CutOf, LinesOf, NextWatchdog;
  }

  /** The steps of reader and watchdog. */
  function FollowSteps(actions: seq<Action>): nat {
    if actions == [] then 0 else (if ByFollow(actions[0]) then 1 else 0) + FollowSteps(actions[1..])
  }

  lemma {:induction false} FlushRun(s: State, actions: seq<Action>, end: State)
    requires Inv(s) && Flushing(s) && !s.childAlive && Runs(s, actions, end) && FAILED_FETCH !in actions
    ensures Inv(end) && Flushing(end) && !end.childAlive && Bounded(s) && Bounded(end)
    ensures 0 <= FlushLeft(end) <= FlushLeft(s) - FollowSteps(actions)
    decreases |actions|
  {
    hide LiveOk, ReplayInv, JoinInv, SnapshotInv, PipeInv, CloseInv, Next, Enabled, ReaderLeft, WatchdogLeft, Flushing;
    if actions == [] {
      ReaderLeftIsNat(s);
    } else {
      FlushStepsDown(s, actions[0]);
      FlushRun(Next(s, actions[0]), actions[1..], end);
    }
  }

  /** Short of its end, reader or watchdog has a step to take that is not a failed fetch. */
  lemma FlushNotStuck(s: State)
    requires Inv(s) && Flushing(s) && !s.childAlive && !Completed(s)
    ensures Bounded(s) && exists a: Action :: ByFollow(a) && a != FAILED_FETCH && Enabled(s, a)
  {
    hide CutOf, Only, Held, IsTail, LiveOk, ReplayOk, SeenOk, JoinInv, SnapshotInv, PipeInv, CloseInv;
    if !s.reader.ReaderDone? {
      ReaderNotStuck(s);
      var r :| Enabled(s, ByReader(r));
      assert Enabled(s, ByReader(r)) && ByFollow(ByReader(r));
    } else if s.watchdog.Fetch? {
      var tail := Terminated(LastLines(LinesOf(s.log)));
      TailExists(s.log);
      assert Enabled(s, ByWatchdog(FetchTail(Some(tail)))) && ByFollow(ByWatchdog(FetchTail(Some(tail))));
    } else {
      var w := WatchdogStep(s.watchdog);
      assert Enabled(s, ByWatchdog(w)) && ByFollow(ByWatchdog(w)) && ByWatchdog(w) != FAILED_FETCH;
    }
  }

  /**
   A follow completes by itself. From the kill on, as long as no fetch fails, a run holds at most
   `FlushLeft` steps of reader and watchdog, whatever proxy, killer, closing caller and sandbox
   do meanwhile; one more is possible until the follow is completed, and after that many it is.
  */
  lemma FollowCompletes(s: State, actions: seq<Action>, end: State)
    requires Reachable(s) && s.watchdog.TakeHandle? && Runs(s, actions, end) && FAILED_FETCH !in actions
    ensures Bounded(s) && Bounded(end) && FollowSteps(actions) <= FlushLeft(s)
    ensures Completed(end) || exists a: Action :: ByFollow(a) && a != FAILED_FETCH && Enabled(end, a)
    ensures FollowSteps(actions) == FlushLeft(s) ==> Completed(end)
  {
    hide LiveOk, ReplayOk, SeenOk, JoinInv, SnapshotInv, CloseInv, Runs, Enabled, ReaderLeft, WatchdogLeft, Completed;
    ReachableInv(s);
    var before :| Runs(INITIAL, before, s);
    RunKeepsFlushDue(INITIAL, before, s);
    FlushRun(s, actions, end);
    if !Completed(end) {
      FlushNotStuck(end);
      var a: Action :| ByFollow(a) && a != FAILED_FETCH && Enabled(end, a);
      FlushStepsDown(end, a);
      ReaderLeftIsNat(Next(end, a));
    }
  }
}
