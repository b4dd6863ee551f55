/**
 What the watchdog does after what it saw, told by the actions of a run alone: only a listing
 without the sandbox leads to the kill and the replay, and it always does.
*/
module FollowPolling {
  import opened Wrappers
  import opened Lines
  import opened TailText
  import opened FollowProtocol
  import opened FollowInvariants
  import opened FollowTheorems
  import opened FollowProgress
  import opened FollowCompletion

  /** The watchdog's part of a run. */
  function WatchdogPart(actions: seq<Action>): seq<WatchdogAction> {
    if actions == [] then []
    else (if actions[0].ByWatchdog? then [actions[0].w] else []) + WatchdogPart(actions[1..])
  }

  predicate SameWatchdog(s: State, t: State) {
    t.watchdog == s.watchdog && t.flushed == s.flushed && t.fetched == s.fetched && t.snapshot == s.snapshot
  }

  lemma EnvLeavesIt(s: State, a: EnvAction)
    ensures SameWatchdog(s, NextEnv(s, a))
  {
    hide NextEnv;
  }

  lemma ReaderLeavesIt(s: State, a: ReaderAction)
    requires Bounded(s)
    ensures SameWatchdog(s, NextReader(s, a))
  {
    hide NextReader;
  }

  lemma OtherLeavesIt(s: State, a: OtherAction)
    ensures SameWatchdog(s, NextOther(s, a))
  {
    hide NextOther;
  }

  lemma OthersLeaveTheWatchdog(s: State, a: Action)
    requires Bounded(s) && !a.ByWatchdog?
    ensures SameWatchdog(s, Next(s, a))
  {
    hide CutOf, NextEnv, NextReader, NextOther, SameWatchdog;
    match a
    case Env(e) => EnvLeavesIt(s, e);
    case ByReader(r) => ReaderLeavesIt(s, r);
    case ByOther(o) => OtherLeavesIt(s, o);
  }

  // ---- the first thing it does next ------------------------------------------------------

  /** The step that belongs to where it is. */
  predicate StepOf(w: Watchdog, a: WatchdogAction) {
    match w
    case CheckClose => a.SeeClose?
    case TryWait => a.Wait?
    case ListNames => a.List?
    case Kill => a.KillAndWait?
    case TakeHandle => a.Take?
    case JoinReader => a.Joined?
    case Snapshot => a.TakeSnapshot?
    case Fetch(_) => a.FetchTail?
    case Replay(_, _) => a.ReplayOne?
    case WatchdogDone => false
  }

  lemma EnabledIsStepOf(s: State, w: WatchdogAction)
    requires Bounded(s) && Enabled(s, ByWatchdog(w))
    ensures StepOf(s.watchdog, w)
  {
    hide CutOf, IsTail, Held;
  }

  lemma {:induction false} FirstStep(s: State, actions: seq<Action>, end: State)
    requires Runs(s, actions, end)
    ensures WatchdogPart(actions) != [] ==> StepOf(s.watchdog, WatchdogPart(actions)[0])
    ensures WatchdogPart(actions) == [] ==> end.watchdog == s.watchdog
    decreases |actions|
  {
    hide CutOf, Enabled, Next, StepOf;
    if actions != [] {
      if actions[0].ByWatchdog? {
        EnabledIsStepOf(s, actions[0].w);
      } else {
        OthersLeaveTheWatchdog(s, actions[0]);
        FirstStep(Next(s, actions[0]), actions[1..], end);
      }
    }
  }

  /** After a step the run takes its next one from where that step leads. */
  lemma StepThenRun(s: State, w: WatchdogAction, actions: seq<Action>, end: State)
    requires Runs(s, [ByWatchdog(w)] + actions, end)
    ensures Bounded(s) && Enabled(s, ByWatchdog(w)) && Runs(NextWatchdog(s, w), actions, end)
  {
    assert ([ByWatchdog(w)] + actions)[1..] == actions;
  }

  lemma NothingElse(part: seq<WatchdogAction>)
    requires part != [] ==> StepOf(WatchdogDone, part[0])
    ensures part == []
  {
  }

  /**
   What a poll saw decides what the watchdog does next in every run, whatever the other threads
   and the sandbox do in between: a requested close and a dead child end it, a live child is
   looked up, a listing with the sandbox starts the next poll and one without it kills the child.
  */
  lemma AfterEachLook(s: State, w: WatchdogAction, actions: seq<Action>, end: State)
    requires Runs(s, [ByWatchdog(w)] + actions, end)
    ensures var next := WatchdogPart(actions);
            && (w == SeeClose && s.closeRequested ==> next == [])
            && (w == Wait && !s.childAlive ==> next == [])
            && (next != [] && w == SeeClose && !s.closeRequested ==> next[0] == Wait)
            && (next != [] && w == Wait && s.childAlive ==> next[0].List?)
            && (next != [] && w == List(false) ==> next[0] == SeeClose)
            && (next != [] && w == List(true) ==> next[0] == KillAndWait)
  {
    hide CutOf, IsTail, Runs;
    StepThenRun(s, w, actions, end);
    FirstStep(NextWatchdog(s, w), actions, end);
    if (w == SeeClose && s.closeRequested) || (w == Wait && !s.childAlive) {
      NothingElse(WatchdogPart(actions));
    }
  }

  lemma FlushIsDue(s: State)
    requires Reachable(s)
    ensures FlushDue(s)
  {
    hide Runs;
    var before :| Runs(INITIAL, before, s);
    RunKeepsFlushDue(INITIAL, before, s);
  }

  lemma WhereFlushStepsLead(s: State, w: WatchdogAction)
    requires Bounded(s) && Enabled(s, ByWatchdog(w)) && FlushDue(s)
    ensures var at := NextWatchdog(s, w).watchdog;
            && (w == KillAndWait ==> at.TakeHandle?)
            && (w == Take ==> if s.slotFull then at.JoinReader? else at.Snapshot?)
            && (w == Joined ==> at.Snapshot?)
            && (w == TakeSnapshot ==> at.Fetch?)
            && (w == FetchTail(None) ==> at.WatchdogDone?)
            && (w.FetchTail? || w == ReplayOne ==> at.Replay? || at.WatchdogDone?)
  {
    hide CutOf, LinesOf, IsTail, Base, ReplayLines, Held;
  }

  /** The flush: kill, handle, join if there was one, snapshot, one fetch, and the replay only if that succeeded. */
  lemma AfterEachFlushStep(s: State, w: WatchdogAction, actions: seq<Action>, end: State)
    requires Reachable(s) && Runs(s, [ByWatchdog(w)] + actions, end)
    ensures var next := WatchdogPart(actions);
            && (next != [] && w == KillAndWait ==> next[0] == Take)
            && (next != [] && w == Take ==> next[0] == if s.slotFull then Joined else TakeSnapshot)
            && (next != [] && w == Joined ==> next[0] == TakeSnapshot)
            && (next != [] && w == TakeSnapshot ==> next[0].FetchTail?)
            && (w == FetchTail(None) ==> next == [])
            && (next != [] && w.FetchTail? ==> next[0] == ReplayOne)
            && (next != [] && w == ReplayOne ==> next[0] == ReplayOne)
  {
    hide Runs, Enabled, NextWatchdog, FlushDue;
    StepThenRun(s, w, actions, end);
    FirstStep(NextWatchdog(s, w), actions, end);
    FlushIsDue(s);
    WhereFlushStepsLead(s, w);
    if w == FetchTail(None) {
      NothingElse(WatchdogPart(actions));
    }
  }

  // ---- no listing without the sandbox, no flush ------------------------------------------

  predicate Polling(w: Watchdog) {
    w in {CheckClose, TryWait, ListNames, WatchdogDone}
  }

  predicate AllLive(trace: seq<Delivery>) {
    forall i :: 0 <= i < |trace| ==> trace[i].live
  }

  predicate Quiet(s: State) {
    Polling(s.watchdog) && !s.flushed && AllLive(s.trace)
  }

  lemma QuietStep(s: State, a: Action)
    requires Bounded(s) && Quiet(s) && Enabled(s, a) && a != ByWatchdog(List(true))
    ensures Quiet(Next(s, a))
    ensures a.ByWatchdog? ==> a.w in {SeeClose, Wait, List(false)}
  {
    hide CutOf, IsTail, Held;
  }

  lemma {:induction false} QuietRun(s: State, actions: seq<Action>, end: State)
    requires Quiet(s) && Runs(s, actions, end) && ByWatchdog(List(true)) !in actions
    ensures Quiet(end)
    ensures forall w :: w in WatchdogPart(actions) ==> w in {SeeClose, Wait, List(false)}
    decreases |actions|
  {
    hide Quiet, Enabled, Next;
    if actions != [] {
      QuietStep(s, actions[0]);
      QuietRun(Next(s, actions[0]), actions[1..], end);
    }
  }

  /**
   As long as no listing misses the sandbox, the watchdog only polls: nothing is killed, fetched
   or replayed by it, and every consumer call is live.
  */
  lemma NoFlushWithoutAListing(actions: seq<Action>, end: State)
    requires Runs(INITIAL, actions, end) && ByWatchdog(List(true)) !in actions
    ensures !end.flushed && forall i :: 0 <= i < |end.trace| ==> end.trace[i].live
    ensures forall w :: w in WatchdogPart(actions) ==> w in {SeeClose, Wait, List(false)}
  {
    hide Runs;
    QuietRun(INITIAL, actions, end);
  }

  // ---- and every such listing flushes ----------------------------------------------------

  /** Where a look does not end the watchdog, the step it leads to stays possible until it is taken. */
  lemma EachLookLeadsOn(s: State, w: WatchdogAction, actions: seq<Action>, end: State)
    requires Reachable(s) && Runs(s, [ByWatchdog(w)] + actions, end) && WatchdogPart(actions) == []
    ensures Bounded(end)
    ensures w == SeeClose && !s.closeRequested ==> Enabled(end, ByWatchdog(Wait))
    ensures w == Wait && s.childAlive ==> Enabled(end, ByWatchdog(List(true))) && Enabled(end, ByWatchdog(List(false)))
    ensures w == List(false) ==> Enabled(end, ByWatchdog(SeeClose))
    ensures w == List(true) ==> Enabled(end, ByWatchdog(KillAndWait))
  {
    hide CutOf, IsTail, Runs, Inv, Reachable;
    StepThenRun(s, w, actions, end);
    FirstStep(NextWatchdog(s, w), actions, end);
    ReachOnward(s, [ByWatchdog(w)] + actions, end);
    InvIsBounded(end);
  }

  lemma InvIsBounded(s: State)
    requires Reachable(s)
    ensures Bounded(s)
  {
    hide Runs, LiveOk, ReplayInv, JoinInv, SnapshotInv, PipeInv, CloseInv;
    ReachableInv(s);
  }

  lemma RunsFirst(s: State, a: Action, actions: seq<Action>, end: State)
    requires Runs(s, [a] + actions, end)
    ensures Bounded(s) && Enabled(s, a) && Runs(Next(s, a), actions, end)
  {
    assert ([a] + actions)[1..] == actions;
  }

  lemma {:induction false} RunsSplit(s: State, a: seq<Action>, b: seq<Action>, end: State) returns (mid: State)
    requires Runs(s, a + b, end)
    ensures Runs(s, a, mid) && Runs(mid, b, end)
    decreases |a|
  {
    hide Enabled, Next;
    if a == [] {
      assert a + b == b;
      mid := s;
    } else {
      assert (a + b)[1..] == a[1..] + b;
      mid := RunsSplit(Next(s, a[0]), a[1..], b, end);
    }
  }

  /**
   A follow whose sandbox is seen to be gone completes by itself: the listing is followed by the
   kill, and from there the steps of reader and watchdog are bounded until the tail has been
   replayed, unless a fetch fails.
  */
  lemma ListingCompletes(s: State, before: seq<Action>, behind: seq<Action>, end: State) returns (killed: State)
    requires Reachable(s) && WatchdogPart(before) == [] && FAILED_FETCH !in behind
    requires Runs(s, [ByWatchdog(List(true))] + before + [ByWatchdog(KillAndWait)] + behind, end)
    ensures Runs(s, [ByWatchdog(List(true))] + before + [ByWatchdog(KillAndWait)], killed)
    ensures !killed.childAlive && Bounded(killed) && Bounded(end) && FollowSteps(behind) <= FlushLeft(killed)
    ensures Completed(end) || exists a: Action :: ByFollow(a) && a != FAILED_FETCH && Enabled(end, a)
    ensures FollowSteps(behind) == FlushLeft(killed) ==> Completed(end)
  {
    hide Runs, Reachable, Enabled, Completed, FlushLeft;
    var front := [ByWatchdog(List(true))] + before;
    var listed := RunsSplit(s, front + [ByWatchdog(KillAndWait)], behind, end);
    killed := listed;
    var polled := RunsSplit(s, front, [ByWatchdog(KillAndWait)], killed);
    ReachOnward(s, front + [ByWatchdog(KillAndWait)], killed);
    KillIsLast(polled, killed);
    FollowCompletes(killed, behind, end);
  }

  lemma KillIsLast(s: State, killed: State)
    requires Runs(s, [ByWatchdog(KillAndWait)], killed)
    ensures killed.watchdog == TakeHandle && !killed.childAlive
  {
    hide CutOf, IsTail, Enabled;
    assert [ByWatchdog(KillAndWait)][1..] == [];
  }

  // ---- the child is left alone -----------------------------------------------------------

  /** A reason for the child to be dead. */
  predicate Reason(a: Action) {
    a == Env(ChildExits) || a == ByWatchdog(List(true)) || a == ByOther(RequestClose)
  }

  /** Nobody has a reason to kill it, and nobody is on the way to. */
  predicate Unharmed(s: State) {
    && s.childAlive && !s.closeRequested && s.killer.AwaitClose? && s.closer.Open?
    && s.watchdog in {CheckClose, TryWait, ListNames}
  }

  lemma UnharmedStep(s: State, a: Action)
    requires Bounded(s) && Unharmed(s) && Enabled(s, a) && !Reason(a)
    ensures Unharmed(Next(s, a))
  {
    hide CutOf, IsTail, Held;
  }

  lemma {:induction false} UnharmedRun(s: State, actions: seq<Action>, end: State)
    requires Unharmed(s) && Runs(s, actions, end) && forall a :: a in actions ==> !Reason(a)
    ensures Unharmed(end)
    decreases |actions|
  {
    hide Unharmed, Enabled, Next, Reason;
    if actions != [] {
      UnharmedStep(s, actions[0]);
      UnharmedRun(Next(s, actions[0]), actions[1..], end);
    }
  }

  /**
   The live child is never killed out of hand, nor the watchdog gone: until the child exits by
   itself, a listing misses the sandbox or a close is requested, it lives and is polled.
  */
  lemma ChildIsLeftAlone(actions: seq<Action>, end: State)
    requires Runs(INITIAL, actions, end)
    requires !end.childAlive || end.watchdog.WatchdogDone?
    ensures Env(ChildExits) in actions || ByWatchdog(List(true)) in actions || ByOther(RequestClose) in actions
  {
    hide Runs;
    if forall a :: a in actions ==> !Reason(a) {
      UnharmedRun(INITIAL, actions, end);
    }
  }
}
