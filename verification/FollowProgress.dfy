/** That `close` returns: the steps the follow still has to take are bounded, and one is always possible. */
module FollowProgress {
  import opened Wrappers
  import opened Lines
  import opened TailText
  import opened FollowProtocol
  import opened FollowInvariants
  import opened FollowTheorems

  // ---- some step is possible -----------------------------------------------------------

  /** Which step of the reader can happen while it is not done and its child is dead or not yet. */
  lemma ReaderNotStuck(s: State)
    requires LiveInv(s) && !s.reader.ReaderDone?
    ensures (exists r :: Enabled(s, ByReader(r))) || (s.childAlive && s.read == s.relayed)
  {
    hide CutOf, Only;
    if s.reader.InFlight? {
      assert Enabled(s, ByReader(Deliver));
    } else if s.delivered < |CutOf(Held(s)).complete| {
      assert Enabled(s, ByReader(Count));
    } else if s.read < s.relayed {
      assert Enabled(s, ByReader(Read(s.relayed)));
    } else if !s.childAlive {
      assert Enabled(s, ByReader(EndOfPipe(false)));
    }
  }

  /** A `close` that has not returned can always go on: some thread of the follow can take a step. */
  lemma CloseNeverStuck(s: State)
    requires Reachable(s) && !s.closer.Open? && !s.closer.Closed?
    ensures Bounded(s) && exists a: Action :: !a.Env? && Enabled(s, a)
  {
    hide CutOf, Only, Runs, Next, IsTail, LiveOk;
    ReachableInv(s);
    if s.killer.AwaitClose? {
      assert Enabled(s, ByOther(KillerSees));
    } else if s.killer.KillChild? {
      assert Enabled(s, ByOther(KillerKills));
    } else if !s.reader.ReaderDone? {
      ReaderNotStuck(s);
      var r :| Enabled(s, ByReader(r));
      assert Enabled(s, ByReader(r));
    } else if s.proxy.ProxyStart? {
      assert Enabled(s, ByOther(ProxyTakes));
    } else if s.proxy.ProxyJoin? {
      assert Enabled(s, ByOther(ProxyJoined));
    } else if s.closer.JoinProxy? || s.watchdog.WatchdogDone? {
      assert Enabled(s, ByOther(CloseJoins));
    } else {
      var w := WatchdogStep(s.watchdog);
      assert Enabled(s, ByWatchdog(w));
    }
  }

  function WatchdogStep(w: Watchdog): WatchdogAction
    requires !w.WatchdogDone?
  {
    match w
    case CheckClose => SeeClose
    case TryWait => Wait
    case ListNames => List(false)
    case Kill => KillAndWait
    case TakeHandle => Take
    case JoinReader => Joined
    case Snapshot => TakeSnapshot
    case Fetch(_) => FetchTail(None)
    case Replay(_, _) => ReplayOne
  }

  // ---- and there are only so many ------------------------------------------------------

  /** What the reader can still do once nothing more comes into the pipe. */
  function ReaderLeft(s: State): int
    requires Bounded(s)
  {
    (s.relayed - s.read) + 2 * (|LinesOf(s.log[..s.relayed])| - s.delivered)
    + (if s.reader.InFlight? then 1 else 0) + (if s.reader.ReaderDone? then 0 else 1)
  }

  /** What the watchdog can still do once it no longer polls, or sees a requested close when it next looks. */
  function WatchdogLeft(w: Watchdog): nat {
    match w
    case WatchdogDone => 0
    case CheckClose => 1
    case Replay(lines, next) => if next < |lines| then |lines| - next + 1 else 1
    case Fetch(_) => TAIL_LINES + 2
    case Snapshot => TAIL_LINES + 3
    case JoinReader => TAIL_LINES + 4
    case TakeHandle => TAIL_LINES + 5
    case Kill => TAIL_LINES + 6
    case ListNames => TAIL_LINES + 7
    case TryWait => TAIL_LINES + 8
  }

  function KillerLeft(killer: Killer): nat {
    match killer case AwaitClose => 2 case KillChild => 1 case KillerDone => 0
  }

  function ProxyLeft(proxy: Proxy): nat {
    match proxy case ProxyStart => 2 case ProxyJoin => 1 case ProxyDone => 0
  }

  function CloserLeft(closer: Closer): nat {
    match closer case Open => 4 case JoinProxy => 3 case JoinWatchdog => 2 case JoinKiller => 1 case Closed => 0
  }

  function OthersLeft(killer: Killer, proxy: Proxy, closer: Closer): nat {
    KillerLeft(killer) + ProxyLeft(proxy) + CloserLeft(closer)
  }

  function StepsLeft(s: State): int
    requires Bounded(s)
  {
    ReaderLeft(s) + WatchdogLeft(s.watchdog) + OthersLeft(s.killer, s.proxy, s.closer)
  }

  lemma LinesWithin(log: string, n: nat, m: nat)
    requires n <= m <= |log|
    ensures |LinesOf(log[..n])| <= |LinesOf(log[..m])|
  {
    assert log[..m] == log[..n] + log[n..m];
    LinesOfCutOff(log[..n], log[n..m]);
  }

  lemma ReaderLeftIsNat(s: State)
    requires LiveInv(s)
    ensures ReaderLeft(s) >= 0
  {
    hide CutOf, Only;
    LinesWithin(s.log, s.read, s.relayed);
    LiveIsAmongLines(Held(s), s.reader);
    assert |LiveLines(Held(s), s.reader)| <= |LinesOf(Held(s))|;
  }

  lemma ReaderStepsDown(s: State, a: ReaderAction)
    requires Bounded(s) && Enabled(s, ByReader(a)) && (s.reader.InFlight? ==> s.delivered > 0)
    ensures ReaderLeft(NextReader(s, a)) < ReaderLeft(s)
  {
    hide CutOf, LinesOf, Held, IsTail;
    var t := NextReader(s, a);
    assert t.log == s.log && t.relayed == s.relayed;
    match a
    case Read(_) => assert t.read > s.read;
    case Count => assert t.delivered == s.delivered + 1;
    case EndOfPipe(_) =>
    case Deliver => assert !t.reader.InFlight?;
  }

  lemma InFlightIsCounted(s: State)
    requires LiveInv(s)
    ensures s.reader.InFlight? ==> s.delivered > 0
  {
    hide CutOf, Only, LinesOf;
  }

  lemma WatchdogStepsDown(s: State, a: WatchdogAction)
    requires Bounded(s) && (s.watchdog.CheckClose? ==> s.closeRequested) && Enabled(s, ByWatchdog(a))
    ensures WatchdogLeft(NextWatchdog(s, a).watchdog) < WatchdogLeft(s.watchdog)
  {
    hide CutOf, LinesOf, Held, ReplayLines, IsTail, AfterFetch, AfterReplayOne;
    if a.FetchTail? {
      FetchStepsDown(s, a.full);
    } else if a.ReplayOne? {
      ReplayStepsDown(s);
    }
  }

  lemma ReplayStepsDown(s: State)
    requires s.watchdog.Replay?
    ensures WatchdogLeft(AfterReplayOne(s).watchdog) < WatchdogLeft(s.watchdog)
  {
    hide NextReplay;
  }

  lemma FetchStepsDown(s: State, full: Option<string>)
    requires s.watchdog.Fetch? && (full.Some? ==> IsTail(full.value, s.log))
    ensures WatchdogLeft(AfterFetch(s, full).watchdog) < WatchdogLeft(s.watchdog)
  {
    hide ReplayLines, IsTail;
    if full.Some? {
      TailIsShort(full.value, s.log, s.watchdog.skip);
    }
  }

  lemma TailIsShort(full: string, log: string, skip: nat)
    requires IsTail(full, log)
    ensures |ReplayLines(full, skip)| <= TAIL_LINES
  {
    hide CutOf, LinesOf;
    ReplayIsSuffix(full, log, skip);
  }

  lemma OthersStepDown(s: State, a: OtherAction)
    requires Bounded(s) && Enabled(s, ByOther(a))
    ensures var t := NextOther(s, a);
            OthersLeft(t.killer, t.proxy, t.closer) < OthersLeft(s.killer, s.proxy, s.closer)
  {
    hide CutOf, Held, IsTail;
    match a
    case KillerSees => hide ProxyLeft, CloserLeft;
    case KillerKills => hide ProxyLeft, CloserLeft;
    case ProxyTakes => hide KillerLeft, CloserLeft;
    case ProxyJoined => hide KillerLeft, CloserLeft;
    case _ => hide KillerLeft, ProxyLeft;
  }

  lemma EnvChangesNothing(s: State, e: EnvAction)
    requires Bounded(s) && !s.childAlive && Enabled(s, Env(e))
    ensures Bounded(NextEnv(s, e)) && StepsLeft(NextEnv(s, e)) == StepsLeft(s)
  {
    hide CutOf, LinesOf;
    assert NextEnv(s, e).log[..s.relayed] == s.log[..s.relayed];
  }

  /** With the flag set and the child dead, each step of the follow's own threads leaves fewer to take. */
  lemma OwnStepsDown(s: State, a: Action)
    requires Inv(s) && s.closeRequested && !s.childAlive && Enabled(s, a)
    ensures var t := Next(s, a);
            && Inv(t) && t.closeRequested && !t.childAlive
            && StepsLeft(t) + (if a.Env? then 0 else 1) <= StepsLeft(s)
  {
    hide CutOf, Only, LinesOf, Held, LiveOk, ReplayInv, JoinInv, SnapshotInv, PipeInv, IsTail, WatchdogLeft, OthersLeft,
      NextEnv, NextReader, NextWatchdog, NextOther;
    StepKeepsInv(s, a);
    match a
    case Env(e) => EnvChangesNothing(s, e);
    case ByReader(r) => InFlightIsCounted(s); ReaderStepsDown(s, r);
    case ByWatchdog(w) => WatchdogStepsDown(s, w);
    case ByOther(o) => OtherKeepsFlag(s, o); OthersStepDown(s, o);
  }

  lemma OtherKeepsFlag(s: State, a: OtherAction)
    ensures s.closeRequested ==> NextOther(s, a).closeRequested
  {
  }

  function OwnSteps(actions: seq<Action>): nat {
    if actions == [] then 0 else (if actions[0].Env? then 0 else 1) + OwnSteps(actions[1..])
  }

  lemma {:induction false} RunCountsDown(s: State, actions: seq<Action>, end: State)
    requires Inv(s) && s.closeRequested && !s.childAlive && Runs(s, actions, end)
    ensures Inv(end) && end.closeRequested && !end.childAlive && Bounded(s) && Bounded(end)
    ensures 0 <= StepsLeft(end) <= StepsLeft(s) - OwnSteps(actions)
    decreases |actions|
  {
    hide LiveOk, ReplayInv, JoinInv, SnapshotInv, PipeInv, CloseInv, Next, Enabled,
      ReaderLeft, WatchdogLeft, OthersLeft;
    if actions == [] {
      ReaderLeftIsNat(s);
    } else {
      OwnStepsDown(s, actions[0]);
      RunCountsDown(Next(s, actions[0]), actions[1..], end);
    }
  }

  /**
   `close` returns. From a requested close with the child dead, a run holds at most `StepsLeft`
   steps of the follow's own threads, whatever the sandbox does meanwhile; and as long as `close`
   has not returned, one more is possible.
  */
  lemma CloseReturns(s: State, actions: seq<Action>, end: State)
    requires Reachable(s) && !s.closer.Open? && !s.childAlive && Runs(s, actions, end)
    ensures Bounded(s) && Bounded(end) && OwnSteps(actions) <= StepsLeft(s)
    ensures end.closer.Closed? || exists a: Action :: !a.Env? && Enabled(end, a)
    ensures OwnSteps(actions) == StepsLeft(s) ==> end.closer.Closed?
  {
    hide LiveOk, ReplayInv, JoinInv, SnapshotInv, PipeInv, Runs, Enabled, ReaderLeft, WatchdogLeft;
    ReachableInv(s);
    ReachOnward(s, actions, end);
    RunCountsDown(s, actions, end);
    StillNotOpen(s, actions, end);
    if !end.closer.Closed? {
      CloseNeverStuck(end);
      var a: Action :| !a.Env? && Enabled(end, a);
      OwnStepsDown(end, a);
      LeftIsNat(Next(end, a));
    }
  }

  lemma LeftIsNat(s: State)
    requires Inv(s)
    ensures Bounded(s) && 0 <= StepsLeft(s)
  {
    hide LiveOk, ReplayInv, JoinInv, SnapshotInv, PipeInv, CloseInv, ReaderLeft;
    ReaderLeftIsNat(s);
  }

  lemma {:induction false} StillNotOpen(s: State, actions: seq<Action>, end: State)
    requires !s.closer.Open? && Runs(s, actions, end)
    ensures !end.closer.Open?
    decreases |actions|
  {
    hide Enabled, Next;
    if actions != [] {
      StepStillNotOpen(s, actions[0]);
      StillNotOpen(Next(s, actions[0]), actions[1..], end);
    }
  }

  lemma StepStillNotOpen(s: State, a: Action)
    requires Bounded(s) && !s.closer.Open?
    ensures !Next(s, a).closer.Open?
  {
    hide NextEnv, NextReader, NextWatchdog, NextOther;
    if a.ByOther? {
      OtherStillNotOpen(s, a.o);
    }
  }

  lemma OtherStillNotOpen(s: State, a: OtherAction)
    requires !s.closer.Open?
    ensures !NextOther(s, a).closer.Open?
  {
  }

  /** The child does die: once a close is requested the killer's next step is possible until it has killed it. */
  lemma KillerGetsThere(s: State)
    requires Reachable(s) && !s.closer.Open? && !s.killer.KillerDone?
    ensures Bounded(s) && exists o ::
              && Enabled(s, ByOther(o)) && (o.KillerSees? || o.KillerKills?)
              && KillerLeft(NextOther(s, o).killer) < KillerLeft(s.killer)
              && (NextOther(s, o).killer.KillerDone? ==> !NextOther(s, o).childAlive)
  {
    hide LiveOk, ReplayInv, JoinInv, SnapshotInv, PipeInv, Runs;
    ReachableInv(s);
    if s.killer.AwaitClose? {
      assert Enabled(s, ByOther(KillerSees));
    } else {
      assert Enabled(s, ByOther(KillerKills));
    }
  }
}
