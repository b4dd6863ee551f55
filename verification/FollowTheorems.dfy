/**
 What the microsandbox follow delivers: no line twice, all lines, nothing after `close`, and
 exactly when it does not.
*/
module FollowTheorems {
  import opened Wrappers
  import opened Lines
  import opened TailText
  import opened FollowProtocol
  import opened FollowInvariants

  // ---- reaching further ----------------------------------------------------------------

  lemma {:induction false} RunsSnoc(s: State, actions: seq<Action>, mid: State, a: Action)
    requires Runs(s, actions, mid) && Bounded(mid) && Enabled(mid, a)
    ensures Runs(s, actions + [a], Next(mid, a))
    decreases |actions|
  {
    hide Enabled, Next;
    if actions == [] {
      assert (actions + [a])[1..] == [];
    } else {
      assert (actions + [a])[1..] == actions[1..] + [a];
      RunsSnoc(Next(s, actions[0]), actions[1..], mid, a);
    }
  }

  lemma Take1(s: State, a: Action) returns (t: State)
    requires Reachable(s) && Bounded(s) && Enabled(s, a)
    ensures Reachable(t) && t == Next(s, a)
  {
    var actions :| Runs(INITIAL, actions, s);
    RunsSnoc(INITIAL, actions, s, a);
    t := Next(s, a);
  }

  lemma {:induction false} ReachOnward(s: State, actions: seq<Action>, end: State)
    requires Reachable(s) && Runs(s, actions, end)
    ensures Reachable(end)
    decreases |actions|
  {
    hide Enabled, Next, Reachable;
    if actions != [] {
      var t := Take1(s, actions[0]);
      ReachOnward(t, actions[1..], end);
    }
  }

  // ---- at most once --------------------------------------------------------------------

  ghost predicate Increasing(trace: seq<Delivery>) {
    forall i, j :: 0 <= i < j < |trace| ==> trace[i].index < trace[j].index
  }

  /** Two consumer calls were made for the same line of the log. */
  ghost predicate Repeats(trace: seq<Delivery>) {
    exists i, j :: 0 <= i < j < |trace| && trace[i].index == trace[j].index
  }

  /**
   In every interleaving: when the reader had finished by the time of the snapshot, or there was
   no snapshot, no line reaches the consumer twice and the lines arrive in order.
  */
  lemma AtMostOnce(s: State)
    requires Reachable(s) && CleanSnapshot(s)
    ensures Increasing(s.trace)
  {
    hide CutOf, Only, Runs, JoinInv, PipeInv, CloseInv;
    ReachableInv(s);
    var live := Only(s.trace, true);
    assert forall i :: 0 <= i < |live| ==> live[i].index == i;
    assert forall i :: 0 <= i < |Only(s.trace, false)| ==> Only(s.trace, false)[i].index == Base(s) + i;
  }

  /** The watchdog got the reader's handle, or found it gone because the reader's join was already over. */
  lemma HandleMakesClean(s: State)
    requires Reachable(s) && !s.proxyTook
    ensures CleanSnapshot(s)
  {
    ReachableInv(s);
  }

  /** A follow whose replay is over: the tail was fetched, the watchdog and the reader are done. */
  predicate Completed(s: State) {
    s.fetched.Some? && s.watchdog.WatchdogDone? && s.reader.ReaderDone?
  }

  lemma {:induction false} OnlyMember(trace: seq<Delivery>, live: bool, i: nat) returns (j: nat)
    requires i < |Only(trace, live)|
    ensures j < |trace| && trace[j] == Only(trace, live)[i]
    ensures trace[j].live == live
  {
    var before := trace[..|trace| - 1];
    if i < |Only(before, live)| {
      j := OnlyMember(before, live, i);
    } else {
      j := |trace| - 1;
    }
  }

  /** One source's calls are numbered upwards from `base`: in range, and in order. */
  lemma {:induction false} SourceIndices(trace: seq<Delivery>, live: bool, base: nat)
    requires forall k :: 0 <= k < |Only(trace, live)| ==> Only(trace, live)[k].index == base + k
    ensures forall i :: 0 <= i < |trace| && trace[i].live == live ==>
              base <= trace[i].index < base + |Only(trace, live)|
    ensures forall i, j :: 0 <= i < j < |trace| && trace[i].live == trace[j].live == live ==>
              trace[i].index < trace[j].index
  {
    if trace != [] {
      var before, last := trace[..|trace| - 1], trace[|trace| - 1];
      assert forall k :: 0 <= k < |Only(before, live)| ==> Only(trace, live)[k] == Only(before, live)[k];
      SourceIndices(before, live, base);
      assert forall i :: 0 <= i < |before| ==> trace[i] == before[i];
      if last.live == live {
        assert Only(trace, live)[|Only(before, live)|] == last;
      }
    }
  }

  /** The fetched log continues the text the reader was left with. */
  function Beyond(s: State): string
    requires s.fetched.Some? && s.read <= |s.fetched.value|
  {
    s.fetched.value[s.read..]
  }

  lemma HeldIsPrefix(s: State)
    requires Bounded(s) && PipeInv(s) && s.fetched.Some?
    ensures s.read <= |s.fetched.value| && s.fetched.value == Held(s) + Beyond(s)
  {
  }

  lemma CompletedCalls(s: State)
    requires LiveInv(s) && ReplayInv(s) && Completed(s)
    ensures Only(s.trace, true) == Numbered(LinesOf(Held(s)), 0, |LinesOf(Held(s))|, true)
    ensures Only(s.trace, false) == Numbered(Missing(s), Base(s), |Missing(s)|, false)
    ensures s.delivered == |LinesOf(Held(s))|
  {
    hide CutOf, Only, LinesOf;
  }

  /** Two consumer calls were made for this line. */
  ghost predicate RepeatsIndex(trace: seq<Delivery>, index: nat) {
    exists i, j :: 0 <= i < j < |trace| && trace[i].index == index == trace[j].index
  }

  /** Both sources number their calls upwards, the live one from zero, the replay from its base. */
  lemma BothSources(s: State)
    requires LiveInv(s) && ReplayInv(s)
    ensures forall k :: 0 <= k < |Only(s.trace, true)| ==> Only(s.trace, true)[k].index == k
    ensures forall k :: 0 <= k < |Only(s.trace, false)| ==> Only(s.trace, false)[k].index == Base(s) + k
    ensures forall i, j :: 0 <= i < j < |s.trace| && s.trace[i].live == s.trace[j].live ==>
              s.trace[i].index < s.trace[j].index
  {
    hide CutOf, Only, LinesOf;
    SourceIndices(s.trace, true, 0);
    SourceIndices(s.trace, false, Base(s));
  }

  /** Whatever the interleaving, no line is delivered a third time. */
  lemma AtMostTwice(s: State, i: nat, j: nat, k: nat)
    requires Reachable(s) && i < j < k < |s.trace|
    ensures !(s.trace[i].index == s.trace[j].index == s.trace[k].index)
  {
    hide LiveInv, ReplayInv, JoinInv, SnapshotInv, PipeInv, CloseInv, Runs, Only;
    ReachableInv(s);
    BothSources(s);
  }

  /** A completed follow delivered exactly these lines twice: from the replay's base up to what the reader delivered. */
  lemma RepeatedExactly(s: State, index: nat)
    requires Reachable(s) && Completed(s)
    ensures RepeatsIndex(s.trace, index) <==> Base(s) <= index < s.delivered
  {
    hide CutOf, Only, Runs, LinesOf, JoinInv, SnapshotInv, CloseInv, Numbered;
    ReachableInv(s);
    CompletedCalls(s);
    HeldIsPrefix(s);
    LinesOfCutOff(Held(s), Beyond(s));
    var trace := s.trace;
    NumberedIndices(LinesOf(Held(s)), 0, |LinesOf(Held(s))|, true);
    NumberedIndices(Missing(s), Base(s), |Missing(s)|, false);
    SourceIndices(trace, true, 0);
    SourceIndices(trace, false, Base(s));
    if Base(s) <= index < s.delivered {
      var i := OnlyMember(trace, true, index);
      var j := OnlyMember(trace, false, index - Base(s));
      assert trace[i].index == index == trace[j].index && trace[j].index == index == trace[i].index;
    }
  }

  /** When a completed follow made two calls for one line: the replay began below a line the reader delivered. */
  lemma RepeatsExactly(s: State)
    requires Reachable(s) && Completed(s)
    ensures Repeats(s.trace) <==> Base(s) < s.delivered
  {
    hide Only, Runs, Completed, Base;
    if Repeats(s.trace) {
      var i, j :| 0 <= i < j < |s.trace| && s.trace[i].index == s.trace[j].index;
      assert RepeatsIndex(s.trace, s.trace[i].index);
      RepeatedExactly(s, s.trace[i].index);
    }
    RepeatedExactly(s, Base(s));
  }

  /** Once the snapshot is taken and the child dead, what the pipe carried and what was skipped are settled. */
  lemma {:induction false} SettledAfterSnapshot(s: State, actions: seq<Action>, end: State)
    requires Inv(s) && s.snapshot.Some? && !s.childAlive && Runs(s, actions, end)
    ensures end.snapshot == s.snapshot && end.relayed == s.relayed && s.log <= end.log && Bounded(s)
    decreases |actions|
  {
    hide LiveOk, ReplayOk, SeenOk, JoinInv, SnapshotInv, PipeInv, CloseInv, Held, CutOf, IsTail, Only;
    if actions != [] {
      StepKeepsInv(s, actions[0]);
      SettledStep(s, actions[0]);
      SettledAfterSnapshot(Next(s, actions[0]), actions[1..], end);
    }
  }

  lemma SettledStep(s: State, a: Action)
    requires Bounded(s) && SeenOk(s.watchdog, s.flushed, s.snapshot, s.fetched)
    requires s.snapshot.Some? && !s.childAlive && Enabled(s, a)
    ensures var t := Next(s, a);
            t.snapshot == s.snapshot && t.relayed == s.relayed && s.log <= t.log && !t.childAlive
  {
    hide Held, CutOf, IsTail, NextReader, NextWatchdog, NextOther;
    if a.ByWatchdog? {
      SettledWatchdog(s, a.w);
    }
  }

  lemma SettledWatchdog(s: State, a: WatchdogAction)
    requires Bounded(s) && SeenOk(s.watchdog, s.flushed, s.snapshot, s.fetched) && s.snapshot.Some?
    ensures NextWatchdog(s, a).snapshot == s.snapshot
  {
    hide AfterFetch, AfterReplayOne;
  }

  /**
   The branch that repeats lines, at the moment it is taken: a follow repeats a line exactly when
   the snapshot counted fewer lines than the pipe had by then carried, as far as the window goes.
  */
  lemma UncountedLinesRepeat(s: State, actions: seq<Action>, end: State)
    requires Reachable(s) && s.watchdog.Fetch? && Runs(s, actions, end)
    requires Completed(end) && end.read == end.relayed
    ensures Bounded(s)
    ensures Repeats(end.trace)
       <==> TailStart(|LinesOf(end.fetched.value)|) + s.watchdog.skip < |LinesOf(s.log[..s.relayed])|
  {
    hide CutOf, Only, LinesOf, Repeats, ReplayOk, LiveOk, Runs;
    ReachableInv(s);
    ReachOnward(s, actions, end);
    ReachableInv(end);
    SettledAfterSnapshot(s, actions, end);
    RepeatsExactly(end);
    CompletedCalls(end);
    assert end.log[..end.relayed] == s.log[..s.relayed];
  }

  lemma NumberedIndices(lines: seq<string>, base: nat, count: nat, live: bool)
    requires count <= |lines|
    ensures |Numbered(lines, base, count, live)| == count
    ensures forall k :: 0 <= k < count ==> Numbered(lines, base, count, live)[k].index == base + k
  {
  }

  // ---- what is delivered ---------------------------------------------------------------

  lemma {:induction false} OnlyHas(trace: seq<Delivery>, i: nat) returns (j: nat)
    requires i < |trace|
    ensures j < |Only(trace, trace[i].live)| && Only(trace, trace[i].live)[j] == trace[i]
  {
    var last := |trace| - 1;
    if i == last {
      j := |Only(trace[..last], trace[last].live)|;
    } else {
      j := OnlyHas(trace[..last], i);
    }
  }

  lemma GrowTo(text: string, log: string)
    requires text <= log
    ensures |LinesOf(text)| <= |LinesOf(log)|
    ensures forall i :: 0 <= i < |LinesOf(text)| ==> LinesOf(text)[i] <= LinesOf(log)[i]
  {
    LinesOnlyGrow(text, log[|text|..]);
    assert text + log[|text|..] == log;
  }

  lemma LiveIsAmongLines(held: string, reader: Reader)
    ensures LiveLines(held, reader) <= LinesOf(held)
  {
  }

  /** Every call carries the line of the log it is counted as, or as much of it as there was then. */
  lemma DeliveredAreLogLines(s: State, i: nat)
    requires Reachable(s) && i < |s.trace|
    ensures s.trace[i].index < |LinesOf(s.log)| && s.trace[i].line <= LinesOf(s.log)[s.trace[i].index]
  {
    hide CutOf, Only, Runs, JoinInv, SnapshotInv, CloseInv, LinesOf;
    ReachableInv(s);
    var j := OnlyHas(s.trace, i);
    if s.trace[i].live {
      LiveIsAmongLines(Held(s), s.reader);
      GrowTo(Held(s), s.log);
    } else {
      assert s.fetched.Some?;
      GrowTo(s.fetched.value, s.log);
    }
  }

  // ---- completeness --------------------------------------------------------------------

  function Texts(trace: seq<Delivery>): (r: seq<string>)
    ensures |r| == |trace|
    ensures forall i :: 0 <= i < |trace| ==> r[i] == trace[i].line
  {
    seq(|trace|, i requires 0 <= i < |trace| => trace[i].line)
  }

  lemma CompletedTexts(s: State)
    requires Inv(s) && Completed(s) && CleanSnapshot(s)
    ensures Texts(s.trace) == LinesOf(Held(s)) + Missing(s)
    ensures Base(s) == TailStart(|LinesOf(s.fetched.value)|) + |LinesOf(Held(s))|
  {
    hide CutOf, Only, LinesOf, JoinInv, PipeInv, CloseInv;
    CompletedCalls(s);
  }

  /**
   Exactly when a completed, clean follow gave the consumer the whole log: the pipe was not cut
   inside a line, and the lines still missing were all within the tail window.
  */
  lemma CompleteExactly(s: State)
    requires Reachable(s) && Completed(s) && CleanSnapshot(s)
    ensures Bounded(s) && s.read <= |s.fetched.value|
    ensures var total := |LinesOf(s.fetched.value)|;
            Texts(s.trace) == LinesOf(s.fetched.value)
            <==> !CutsLine(Held(s), Beyond(s)) && (total <= TAIL_LINES || s.delivered == total)
  {
    hide CutOf, Only, Runs, LinesOf, Texts;
    ReachableInv(s);
    CompletedCalls(s);
    CompletedTexts(s);
    HeldIsPrefix(s);
    LinesOfCutOff(Held(s), Beyond(s));
    WholeExactly(LinesOf(s.fetched.value), LinesOf(Held(s)));
  }

  /** Lines delivered live, and then what the window still holds behind as many, make the whole list exactly then. */
  lemma WholeExactly(all: seq<string>, held: seq<string>)
    requires |held| <= |all|
    ensures held + Skip(all, TailStart(|all|) + |held|) == all
            <==> all[..|held|] == held && (|all| <= TAIL_LINES || |held| == |all|)
  {
  }

  // ---- close ---------------------------------------------------------------------------

  lemma ClosedIsQuiet(s: State)
    requires Inv(s) && s.closer.Closed?
    ensures s.reader.ReaderDone? && s.watchdog.WatchdogDone?
  {
    hide LiveOk, ReplayOk, Only, Held;
  }

  /** Once `close` has returned, no run whatever makes another consumer call. */
  lemma {:induction false} CloseHaltsDelivery(s: State, actions: seq<Action>, end: State)
    requires Inv(s) && s.closer.Closed? && Runs(s, actions, end)
    ensures end.trace == s.trace && end.closer.Closed?
    decreases |actions|
  {
    if actions != [] {
      hide LiveInv, ReplayInv, JoinInv, SnapshotInv, PipeInv, CloseInv, Held, CutOf, IsTail;
      ClosedIsQuiet(s);
      StepKeepsInv(s, actions[0]);
      ClosedStep(s, actions[0]);
      CloseHaltsDelivery(Next(s, actions[0]), actions[1..], end);
    }
  }

  lemma ClosedStep(s: State, a: Action)
    requires Bounded(s) && s.closer.Closed? && s.reader.ReaderDone? && s.watchdog.WatchdogDone? && Enabled(s, a)
    ensures Next(s, a).trace == s.trace && Next(s, a).closer.Closed?
  {
    hide CutOf, Held, IsTail, NextEnv, NextReader, NextWatchdog, NextOther;
    if a.ByOther? {
      ClosedOther(s, a.o);
    }
  }

  lemma ClosedOther(s: State, a: OtherAction)
    requires Bounded(s) && s.closer.Closed? && Enabled(s, ByOther(a))
    ensures NextOther(s, a).closer.Closed?
  {
  }

  // ---- the run in which the proxy wins ----------------------------------------------------

  lemma OneLine()
    ensures CutOf("a\n") == Cut(["a"], "") && LinesOf("a\n") == ["a"] && CutOf("") == Cut([], "")
    ensures ReplayLines("a\n", 0) == ["a"] && IsTail("a\n", "a\n")
  {
    CutEnded("a");
  }

  const HOLDING := INITIAL.(log := "a\n", relayed := 2, read := 2)

  lemma ReaderHoldsALine()
    ensures Reachable(HOLDING)
  {
    hide CutOf, Only;
    OneLine();
    assert Runs(INITIAL, [], INITIAL);
    var s := Take1(INITIAL, Env(Grow("a\n")));
    assert "" + "a\n" == "a\n";
    s := Take1(s, Env(Relay(2)));
    assert Held(s) == "";
    s := Take1(s, ByReader(Read(2)));
  }

  const SNAPPED := HOLDING.(
    proxy := ProxyJoin, proxyTook := true, slotFull := false, childAlive := false,
    watchdog := Fetch(0), flushed := true, snapshot := Some(Seen(0, false)))

  lemma WatchdogSnapsEarly()
    ensures Reachable(SNAPPED)
  {
    hide CutOf, Only, Reachable;
    ReaderHoldsALine();
    var s := Take1(HOLDING, ByOther(ProxyTakes));
    s := Take1(s, ByWatchdog(SeeClose));
    s := Take1(s, ByWatchdog(Wait));
    s := Take1(s, ByWatchdog(List(true)));
    s := Take1(s, ByWatchdog(KillAndWait));
    s := Take1(s, ByWatchdog(Take));
    s := Take1(s, ByWatchdog(TakeSnapshot));
  }

  const REPLAYED := SNAPPED.(
    watchdog := WatchdogDone, fetched := Some("a\n"), trace := [Delivery(0, "a", false)])

  lemma WatchdogReplays()
    ensures Reachable(REPLAYED)
  {
    hide CutOf, LinesOf, IsTail, ReplayLines, Only, Reachable;
    OneLine();
    WatchdogSnapsEarly();
    var s := Take1(SNAPPED, ByWatchdog(FetchTail(Some("a\n"))));
    assert Base(s) == 0 && s.watchdog == Replay(["a"], 0);
    s := Take1(s, ByWatchdog(ReplayOne));
    assert s.trace == [Delivery(0, "a", false)];
    s := Take1(s, ByWatchdog(ReplayOne));
  }

  /**
   The proxy takes the reader's handle first; the watchdog finds the slot empty and takes its
   snapshot while the reader still holds an uncounted line, which both of them then deliver.
  */
  lemma ProxyWinsAndLineRepeats() returns (s: State)
    ensures Reachable(s) && Completed(s) && s.proxyTook
    ensures s.trace == [Delivery(0, "a", false), Delivery(0, "a", true)] && Repeats(s.trace)
  {
    hide CutOf, Only, Reachable;
    OneLine();
    WatchdogReplays();
    assert Held(REPLAYED) == "a\n";
    s := Take1(REPLAYED, ByReader(Count));
    s := Take1(s, ByReader(Deliver));
    s := Take1(s, ByReader(EndOfPipe(false)));
    assert s.trace[0].index == s.trace[1].index;
  }
}
