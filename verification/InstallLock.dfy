/**
 The directory lock around the install: `mkdir` as a mutex, with takeover of a directory whose
 modification time is too old. Time is explicit, and any step may be delayed for any time.
*/
module InstallLock {
  import opened Wrappers

  // Times are in milliseconds.
  const STALE_LOCK_AGE: nat := 600_000
  const ACQUIRE_DEADLINE: nat := 300_000
  const POLL_PAUSE: nat := 50

  /** The lock directory. The code cannot see who made it; the model records it. */
  datatype LockDir = LockDir(mtime: nat, owner: nat)

  /** Where a process is in `acquire`, and since when it holds the lock. */
  datatype Pc =
    | Outside
    | Creating(deadline: nat)
    | ReadingAge(deadline: nat)
    | Removing(deadline: nat)
    | Recreating(deadline: nat)
    | CheckingDeadline(deadline: nat)
    | Touching(since: nat)
    | Holding(since: nat)
    | TimedOut

  predicate Holds(pc: Pc) {
    pc.Touching? || pc.Holding?
  }

  datatype State = State(clock: nat, dir: Option<LockDir>, pcs: seq<Pc>)

  datatype Step =
    | Tick(elapsed: nat)
    | Act(p: nat)          // the process makes its next system call
    | NoTouch(p: nat)      // or its touch fails, which it ignores
    | Crash(p: nat)        // or it dies; a new process gets its place

  ghost predicate Initial(s: State) {
    s.dir == None && forall p :: 0 <= p < |s.pcs| ==> s.pcs[p] == Outside
  }

  predicate Stale(clock: nat, dir: LockDir) {
    dir.mtime + STALE_LOCK_AGE <= clock
  }

  /** One system call of process `p`: its new place, and the directory after it. */
  function Acted(p: nat, pc: Pc, clock: nat, dir: Option<LockDir>): (Pc, Option<LockDir>) {
    match pc
    case Outside => (Creating(clock + ACQUIRE_DEADLINE), dir)
    case Creating(deadline) =>
      if dir.None? then (Touching(clock), Some(LockDir(clock, p))) else (ReadingAge(deadline), dir)
    case ReadingAge(deadline) =>
      (if dir.Some? && Stale(clock, dir.value) then Removing(deadline) else CheckingDeadline(deadline), dir)
    case Removing(deadline) => (Recreating(deadline), None)
    case Recreating(deadline) =>
      if dir.None? then (Touching(clock), Some(LockDir(clock, p))) else (CheckingDeadline(deadline), dir)
    case CheckingDeadline(deadline) => (if deadline <= clock then TimedOut else Creating(deadline), dir)
    case Touching(since) => (Holding(since), if dir.Some? then Some(dir.value.(mtime := clock)) else dir)
    case Holding(_) => (Outside, None)
    case TimedOut => (Outside, dir)
  }

  function Next(s: State, step: Step): State {
    match step
    case Tick(elapsed) => s.(clock := s.clock + elapsed)
    case Act(p) =>
      if p < |s.pcs| then
        var (pc, dir) := Acted(p, s.pcs[p], s.clock, s.dir);
        s.(dir := dir, pcs := s.pcs[p := pc])
      else s
    case NoTouch(p) =>
      if p < |s.pcs| && s.pcs[p].Touching? then s.(pcs := s.pcs[p := Holding(s.pcs[p].since)]) else s
    case Crash(p) =>
      if p < |s.pcs| then s.(pcs := s.pcs[p := Outside]) else s
  }

  function After(s: State, schedule: seq<Step>): State
    decreases |schedule|
  {
    if schedule == [] then s else After(Next(s, schedule[0]), schedule[1..])
  }

  // ---- exclusion -----------------------------------------------------------------------

  /** A process holds the lock while the directory there is stale. */
  ghost predicate Overstays(s: State) {
    s.dir.Some? && Stale(s.clock, s.dir.value) && exists p :: 0 <= p < |s.pcs| && Holds(s.pcs[p])
  }

  /** Two processes have each seen a stale directory and not yet removed it. */
  ghost predicate TakeoversOverlap(s: State) {
    exists p, q :: 0 <= p < q < |s.pcs| && s.pcs[p].Removing? && s.pcs[q].Removing?
  }

  ghost predicate Calm(s: State) {
    !Overstays(s) && !TakeoversOverlap(s)
  }

  /** Neither happens anywhere in the run. */
  ghost predicate CalmRun(s: State, schedule: seq<Step>)
    decreases |schedule|
  {
    Calm(s) && (schedule != [] ==> CalmRun(Next(s, schedule[0]), schedule[1..]))
  }

  predicate PcOk(p: nat, pc: Pc, clock: nat, dir: Option<LockDir>) {
    && (Holds(pc) ==> dir.Some? && dir.value.owner == p && pc.since <= dir.value.mtime <= clock)
    && (pc.Removing? ==> dir.Some? && Stale(clock, dir.value))
  }

  ghost predicate Inv(s: State) {
    forall p :: 0 <= p < |s.pcs| ==> PcOk(p, s.pcs[p], s.clock, s.dir)
  }

  lemma StepKeepsInv(s: State, step: Step)
    requires Inv(s) && Calm(s)
    ensures Inv(Next(s, step))
  {
  }

  lemma {:induction false} RunKeepsInv(s: State, schedule: seq<Step>)
    requires Inv(s) && CalmRun(s, schedule)
    ensures Inv(After(s, schedule)) && |After(s, schedule).pcs| == |s.pcs|
    decreases |schedule|
  {
    hide Inv, Calm;
    if schedule != [] {
      StepKeepsInv(s, schedule[0]);
      RunKeepsInv(Next(s, schedule[0]), schedule[1..]);
    }
  }

  /**
   While no process holds on until the directory is stale and no two takeovers overlap, at most
   one process holds the lock, and the directory there is the one it made.
  */
  lemma Exclusion(s: State, schedule: seq<Step>, p: nat, q: nat)
    requires Initial(s) && CalmRun(s, schedule)
    requires p < |s.pcs| && q < |s.pcs|
    ensures var end := After(s, schedule);
            |end.pcs| == |s.pcs| &&
            (Holds(end.pcs[p]) ==> end.dir.Some? && end.dir.value.owner == p) &&
            (Holds(end.pcs[p]) && Holds(end.pcs[q]) ==> p == q)
  {
    RunKeepsInv(s, schedule);
    var end := After(s, schedule);
    assert PcOk(p, end.pcs[p], end.clock, end.dir) && PcOk(q, end.pcs[q], end.clock, end.dir);
  }

  /** No live holder has kept the lock for the staleness age since it made the directory. */
  ghost predicate PromptRun(s: State, schedule: seq<Step>)
    decreases |schedule|
  {
    && !TakeoversOverlap(s)
    && (forall p :: 0 <= p < |s.pcs| && Holds(s.pcs[p]) ==> s.clock < s.pcs[p].since + 600_000)
    && (schedule != [] ==> PromptRun(Next(s, schedule[0]), schedule[1..]))
  }

  /** Being done within the staleness age of acquiring is enough: a touch only makes the directory younger. */
  lemma {:induction false} PromptIsCalm(s: State, schedule: seq<Step>)
    requires Inv(s) && PromptRun(s, schedule)
    ensures CalmRun(s, schedule)
    decreases |schedule|
  {
    assert forall p :: 0 <= p < |s.pcs| ==> PcOk(p, s.pcs[p], s.clock, s.dir);
    if schedule != [] {
      StepKeepsInv(s, schedule[0]);
      hide Inv, Next;
      PromptIsCalm(Next(s, schedule[0]), schedule[1..]);
    }
  }

  /**
   Exclusion as it is meant: at most one process holds the lock while every live holder is done
   within 600 s of acquiring it and no two takeovers overlap.
  */
  lemma PromptExclusion(s: State, schedule: seq<Step>, p: nat, q: nat)
    requires Initial(s) && PromptRun(s, schedule)
    requires p < |s.pcs| && q < |s.pcs|
    ensures var end := After(s, schedule);
            |end.pcs| == |s.pcs| && (Holds(end.pcs[p]) && Holds(end.pcs[q]) ==> p == q)
  {
    PromptIsCalm(s, schedule);
    Exclusion(s, schedule, p, q);
  }

  lemma {:induction false} AfterSnoc(s: State, schedule: seq<Step>, step: Step)
    ensures After(s, schedule + [step]) == Next(After(s, schedule), step)
    decreases |schedule|
  {
    hide Next;
    if schedule == [] {
      assert After(s, [step]) == After(Next(s, step), []);
    } else {
      assert (schedule + [step])[1..] == schedule[1..] + [step];
      AfterSnoc(Next(s, schedule[0]), schedule[1..], step);
    }
  }

  lemma After4(s: State, a: Step, b: Step, c: Step, d: Step)
    ensures After(s, [a, b, c, d]) == Next(Next(Next(Next(s, a), b), c), d)
  {
    hide Next;
    AfterSnoc(s, [], a);
    AfterSnoc(s, [a], b);
    AfterSnoc(s, [a, b], c);
    AfterSnoc(s, [a, b, c], d);
    assert [] + [a] == [a] && [a] + [b] == [a, b] && [a, b] + [c] == [a, b, c] && [a, b, c] + [d] == [a, b, c, d];
  }

  /** Both conditions are needed: two overlapping takeovers can always both succeed. */
  lemma OverlapBreaksExclusion(s: State, p: nat, q: nat)
    requires p < |s.pcs| && q < |s.pcs| && p != q && s.pcs[p].Removing? && s.pcs[q].Removing?
    ensures var end := After(s, [Act(p), Act(p), Act(q), Act(q)]);
            |end.pcs| == |s.pcs| && Holds(end.pcs[p]) && Holds(end.pcs[q])
  {
    After4(s, Act(p), Act(p), Act(q), Act(q));
  }

  /**
   And a holder that overstays loses the lock to the next poll; when it is done, it removes
   the directory of the process that took over.
  */
  lemma OverstayBreaksExclusion(s: State, p: nat, q: nat)
    requires p < |s.pcs| && q < |s.pcs| && p != q
    requires s.pcs[p].Holding? && s.pcs[q].ReadingAge? && s.dir.Some? && Stale(s.clock, s.dir.value)
    ensures var taken := After(s, [Act(q), Act(q), Act(q), Act(q)]);
            && |taken.pcs| == |s.pcs| && taken.pcs[p].Holding? && taken.pcs[q].Holding?
            && Next(taken, Act(p)).pcs[q].Holding? && Next(taken, Act(p)).dir == None
  {
    After4(s, Act(q), Act(q), Act(q), Act(q));
  }

  ghost predicate Reachable(from: State, s: State) {
    exists schedule :: After(from, schedule) == s
  }

  lemma ReachNext(from: State, s: State, step: Step)
    requires Reachable(from, s)
    ensures Reachable(from, Next(s, step))
  {
    var schedule :| After(from, schedule) == s;
    AfterSnoc(from, schedule, step);
  }

  lemma ReachNext2(from: State, s: State, a: Step, b: Step)
    requires Reachable(from, s)
    ensures Reachable(from, Next(Next(s, a), b))
  {
    ReachNext(from, s, a);
    ReachNext(from, Next(s, a), b);
  }

  const TWO := State(0, None, [Outside, Outside])

  function Abandoned(a: Pc, b: Pc): State {
    State(600_000, Some(LockDir(0, 0)), [a, b])
  }

  lemma CrashLeavesStaleLock()
    ensures Reachable(TWO, Abandoned(Outside, Outside))
  {
    assert After(TWO, []) == TWO;
    ReachNext2(TWO, TWO, Act(0), Act(0));
    var made := State(0, Some(LockDir(0, 0)), [Touching(0), Outside]);
    assert Next(Next(TWO, Act(0)), Act(0)) == made;
    ReachNext2(TWO, made, Crash(0), Tick(600_000));
  }

  /** One of two overlapping takeovers is done: its holder is fresh, the other process still about to remove. */
  const ONE_DONE := State(600_000, Some(LockDir(600_000, 0)),
                          [Touching(600_000), Removing(900_000)])

  lemma OverlapOneDone()
    ensures Reachable(TWO, ONE_DONE)
  {
    var deadline := 900_000;
    CrashLeavesStaleLock();
    ReachNext2(TWO, Abandoned(Outside, Outside), Act(0), Act(0));
    ReachNext2(TWO, Abandoned(ReadingAge(deadline), Outside), Act(1), Act(1));
    ReachNext2(TWO, Abandoned(ReadingAge(deadline), ReadingAge(deadline)), Act(0), Act(1));
    ReachNext2(TWO, Abandoned(Removing(deadline), Removing(deadline)), Act(0), Act(0));
  }

  /**
   The overlap does happen: after one crash, and with nobody alive holding the lock for any
   time at all, two processes come to hold it.
  */
  lemma OverlapIsReachable()
    ensures exists s ::
              && Reachable(TWO, s) && !Overstays(s)
              && |s.pcs| == 2 && Holds(s.pcs[0]) && Holds(s.pcs[1])
              && s.pcs[0].since == s.pcs[1].since == s.clock
  {
    var late := 600_000;
    OverlapOneDone();
    ReachNext2(TWO, ONE_DONE, Act(1), Act(1));
    var both := State(late, Some(LockDir(late, 1)), [Touching(late), Touching(late)]);
    assert Next(Next(ONE_DONE, Act(1)), Act(1)) == both;
    assert !Overstays(both);
  }

  /** The holder that does overstay is reached as well: one process works for 600 s while another polls. */
  lemma OverstayIsReachable()
    ensures exists s ::
              && Reachable(TWO, s) && Inv(s)
              && |s.pcs| == 2 && s.pcs[0].Holding? && s.pcs[1].ReadingAge?
              && s.dir.Some? && Stale(s.clock, s.dir.value)
  {
    assert After(TWO, []) == TWO;
    ReachNext2(TWO, TWO, Act(0), Act(0));
    var made := State(0, Some(LockDir(0, 0)), [Touching(0), Outside]);
    assert Next(Next(TWO, Act(0)), Act(0)) == made;
    ReachNext2(TWO, made, Act(0), Tick(600_000));
    var late := State(600_000, Some(LockDir(0, 0)), [Holding(0), Outside]);
    assert Next(Next(made, Act(0)), Tick(600_000)) == late;
    ReachNext2(TWO, late, Act(1), Act(1));
    assert Next(Next(late, Act(1)), Act(1)).pcs == [Holding(0), ReadingAge(900_000)];
  }

  // ---- exactly when a holder loses the lock ---------------------------------------------

  /** No time passes and process `p` does nothing. */
  predicate Undisturbed(schedule: seq<Step>, p: nat) {
    forall i :: 0 <= i < |schedule| ==> !schedule[i].Tick? && schedule[i].p != p
  }

  /** The others can, right now, bring `q` to hold the lock. */
  ghost predicate CanTakeOver(s: State, p: nat, q: nat) {
    exists schedule: seq<Step> ::
      && Undisturbed(schedule, p)
      && q < |After(s, schedule).pcs| && Holds(After(s, schedule).pcs[q])
  }

  /** It holds the lock, or has seen a stale directory and will remove whatever is there. */
  predicate Busy(pc: Pc) {
    Holds(pc) || pc.Removing?
  }

  /** `p` holds, the directory there is fresh, and nobody else holds or is about to remove it. */
  ghost predicate Guarded(s: State, p: nat) {
    && p < |s.pcs| && Holds(s.pcs[p]) && s.dir.Some? && !Stale(s.clock, s.dir.value)
    && forall r :: 0 <= r < |s.pcs| && r != p ==> !Busy(s.pcs[r])
  }

  lemma {:induction false} FreshStaysGuarded(s: State, schedule: seq<Step>, p: nat)
    requires Guarded(s, p) && Undisturbed(schedule, p)
    ensures Guarded(After(s, schedule), p)
    decreases |schedule|
  {
    if schedule != [] {
      var step, rest := schedule[0], schedule[1..];
      assert forall i :: 0 <= i < |rest| ==> rest[i] == schedule[i + 1];
      FreshStaysGuarded(Next(s, step), rest, p);
    }
  }

  /** A process that starts afresh takes a stale directory over, whoever holds it. */
  lemma TakesStale(s: State, p: nat, q: nat)
    requires p < |s.pcs| && q < |s.pcs| && p != q && s.dir.Some? && Stale(s.clock, s.dir.value)
    ensures CanTakeOver(s, p, q)
  {
    hide After;
    var s1 := Next(Next(Next(s, Crash(q)), Act(q)), Act(q));
    assert s1.pcs[q].ReadingAge? && s1.dir == s.dir;
    var s2 := Next(Next(Next(s1, Act(q)), Act(q)), Act(q));
    assert Holds(s2.pcs[q]);
    After6(s, Crash(q), Act(q), Act(q), Act(q), Act(q), Act(q));
    var schedule := [Crash(q), Act(q), Act(q), Act(q), Act(q), Act(q)];
    assert After(s, schedule) == s2 && Undisturbed(schedule, p);
  }

  lemma After6(s: State, a: Step, b: Step, c: Step, d: Step, e: Step, f: Step)
    ensures After(s, [a, b, c, d, e, f]) == Next(Next(Next(Next(Next(Next(s, a), b), c), d), e), f)
  {
    hide Next;
    After4(s, a, b, c, d);
    AfterSnoc(s, [a, b, c, d], e);
    AfterSnoc(s, [a, b, c, d, e], f);
    assert [a, b, c, d] + [e] == [a, b, c, d, e] && [a, b, c, d, e] + [f] == [a, b, c, d, e, f];
  }

  lemma TakeOverLater(s: State, step: Step, p: nat, q: nat)
    requires !step.Tick? && step.p != p && CanTakeOver(Next(s, step), p, q)
    ensures CanTakeOver(s, p, q)
  {
    hide Next;
    var later: seq<Step> :|
      Undisturbed(later, p) && q < |After(Next(s, step), later).pcs| && Holds(After(Next(s, step), later).pcs[q]);
    var schedule := [step] + later;
    assert schedule[1..] == later;
    assert After(s, schedule) == After(Next(s, step), later);
    assert Undisturbed(schedule, p);
  }

  lemma TakesMissing(s: State, p: nat, q: nat)
    requires p < |s.pcs| && q < |s.pcs| && p != q && s.dir.None?
    ensures CanTakeOver(s, p, q)
  {
    var s1 := Next(s, Crash(q));
    var s2 := Next(s1, Act(q));
    var s3 := Next(s2, Act(q));
    assert After(s3, []) == s3 && Holds(s3.pcs[q]) && Undisturbed([], p);
    hide Next;
    TakeOverLater(s2, Act(q), p, q);
    TakeOverLater(s1, Act(q), p, q);
    TakeOverLater(s, Crash(q), p, q);
  }

  /** Another process that is busy removes the directory, on its release or in its takeover; then `q` makes its own. */
  lemma TakesFromBusy(s: State, p: nat, q: nat, r: nat)
    requires p < |s.pcs| && q < |s.pcs| && r < |s.pcs| && p != q && p != r && Busy(s.pcs[r])
    ensures CanTakeOver(s, p, q)
  {
    var s1 := Next(s, Act(r));
    if s.pcs[r].Touching? {
      var s2 := Next(s1, Act(r));
      TakesMissing(s2, p, q);
      TakeOverLater(s1, Act(r), p, q);
    } else {
      TakesMissing(s1, p, q);
    }
    TakeOverLater(s, Act(r), p, q);
  }

  /**
   The exact guard, in every state: with no time passing and nothing done by itself, a holder
   keeps every other process from holding the lock if and only if the directory there is fresh
   and nobody else holds the lock or has a takeover in flight.
  */
  lemma HolderLosesExactly(s: State, p: nat, q: nat)
    requires p < |s.pcs| && q < |s.pcs| && p != q && Holds(s.pcs[p])
    ensures CanTakeOver(s, p, q) <==> !Guarded(s, p)
  {
    hide After, Next;
    if Guarded(s, p) {
      if CanTakeOver(s, p, q) {
        var schedule :|
          Undisturbed(schedule, p) && q < |After(s, schedule).pcs| && Holds(After(s, schedule).pcs[q]);
        FreshStaysGuarded(s, schedule, p);
        assert false;
      }
    } else if s.dir.None? {
      TakesMissing(s, p, q);
    } else if Stale(s.clock, s.dir.value) {
      TakesStale(s, p, q);
    } else {
      var r :| 0 <= r < |s.pcs| && r != p && Busy(s.pcs[r]);
      TakesFromBusy(s, p, q, r);
    }
  }

  /** Where no takeover has overlapped another, age alone decides. */
  lemma CalmHolderLosesExactly(s: State, p: nat, q: nat)
    requires Inv(s) && p < |s.pcs| && q < |s.pcs| && p != q && Holds(s.pcs[p])
    ensures CanTakeOver(s, p, q) <==> s.dir.Some? && Stale(s.clock, s.dir.value)
  {
    hide CanTakeOver;
    assert forall r :: 0 <= r < |s.pcs| ==> PcOk(r, s.pcs[r], s.clock, s.dir);
    HolderLosesExactly(s, p, q);
  }

  /** A fresh directory does not protect its maker: the overlapping takeover is still to come, and is reached. */
  lemma FreshHolderLoses()
    ensures exists s ::
              && Reachable(TWO, s) && |s.pcs| == 2 && Holds(s.pcs[0])
              && s.dir == Some(LockDir(s.clock, 0)) && CanTakeOver(s, 0, 1)
  {
    OverlapOneDone();
    hide CanTakeOver;
    HolderLosesExactly(ONE_DONE, 0, 1);
    assert Busy(ONE_DONE.pcs[1]);
  }

  // ---- exactly when exclusion can break ------------------------------------------------

  predicate Instant(schedule: seq<Step>) {
    forall i :: 0 <= i < |schedule| ==> !schedule[i].Tick?
  }

  ghost predicate TwoHold(s: State) {
    exists p, q :: 0 <= p < q < |s.pcs| && Holds(s.pcs[p]) && Holds(s.pcs[q])
  }

  /** Two processes can, right now, come to hold the lock together. */
  ghost predicate CanBreak(s: State) {
    exists schedule :: Instant(schedule) && TwoHold(After(s, schedule))
  }

  /** No stale directory, at most one process busy with the lock, and none without a directory. */
  ghost predicate Safe(s: State) {
    && (s.dir.Some? ==> !Stale(s.clock, s.dir.value))
    && (forall p, q :: 0 <= p < q < |s.pcs| ==> !(Busy(s.pcs[p]) && Busy(s.pcs[q])))
    && (s.dir.None? ==> forall p :: 0 <= p < |s.pcs| ==> !Busy(s.pcs[p]))
  }

  lemma StepKeepsSafe(s: State, step: Step)
    requires Safe(s) && !step.Tick?
    ensures Safe(Next(s, step))
  {
  }

  lemma {:induction false} RunKeepsSafe(s: State, schedule: seq<Step>)
    requires Safe(s) && Instant(schedule)
    ensures Safe(After(s, schedule))
    decreases |schedule|
  {
    hide Safe, Next;
    if schedule != [] {
      StepKeepsSafe(s, schedule[0]);
      RunKeepsSafe(Next(s, schedule[0]), schedule[1..]);
    }
  }

  lemma BreakLater(s: State, step: Step)
    requires !step.Tick? && CanBreak(Next(s, step))
    ensures CanBreak(s)
  {
    hide Next, TwoHold;
    var later :| Instant(later) && TwoHold(After(Next(s, step), later));
    var schedule := [step] + later;
    assert schedule[1..] == later;
    assert After(s, schedule) == After(Next(s, step), later);
    assert Instant(schedule);
  }

  lemma TwoHoldNow(s: State, p: nat, q: nat)
    requires p < |s.pcs| && q < |s.pcs| && p != q && Holds(s.pcs[p]) && Holds(s.pcs[q])
    ensures CanBreak(s)
  {
    assert After(s, []) == s && Instant([]);
    assert TwoHold(s) by {
      if p < q {
        assert Holds(s.pcs[p]) && Holds(s.pcs[q]);
      } else {
        assert Holds(s.pcs[q]) && Holds(s.pcs[p]);
      }
    }
  }

  /** One holds and another removes the directory and makes its own. */
  lemma HolderAndRemover(s: State, p: nat, r: nat)
    requires p < |s.pcs| && r < |s.pcs| && p != r && Holds(s.pcs[p]) && s.pcs[r].Removing?
    ensures CanBreak(s)
  {
    var s1 := Next(s, Act(r));
    TwoHoldNow(Next(s1, Act(r)), p, r);
    hide CanBreak;
    BreakLater(s1, Act(r));
    BreakLater(s, Act(r));
  }

  lemma TwoBusy(s: State, p: nat, q: nat)
    requires p < |s.pcs| && q < |s.pcs| && p != q && Busy(s.pcs[p]) && Busy(s.pcs[q])
    ensures CanBreak(s)
  {
    hide CanBreak;
    if Holds(s.pcs[p]) && Holds(s.pcs[q]) {
      TwoHoldNow(s, p, q);
    } else if Holds(s.pcs[p]) {
      HolderAndRemover(s, p, q);
    } else if Holds(s.pcs[q]) {
      HolderAndRemover(s, q, p);
    } else {
      var s1 := Next(s, Act(p));
      HolderAndRemover(Next(s1, Act(p)), p, q);
      BreakLater(s1, Act(p));
      BreakLater(s, Act(p));
    }
  }

  /** Without a directory, a process that starts afresh holds the lock beside the busy one. */
  lemma BusyWithoutDir(s: State, p: nat, q: nat)
    requires p < |s.pcs| && q < |s.pcs| && p != q && Busy(s.pcs[p]) && s.dir.None?
    ensures CanBreak(s)
  {
    hide CanBreak;
    var s1 := Next(s, Crash(q));
    var s2 := Next(s1, Act(q));
    TwoBusy(Next(s2, Act(q)), p, q);
    BreakLater(s2, Act(q));
    BreakLater(s1, Act(q));
    BreakLater(s, Crash(q));
  }

  /** A process that starts afresh sees the stale directory and is about to remove it. */
  function Poll(s: State, p: nat): State {
    Next(Next(Next(Next(s, Crash(p)), Act(p)), Act(p)), Act(p))
  }

  lemma PollSees(s: State, p: nat)
    requires p < |s.pcs| && s.dir.Some? && Stale(s.clock, s.dir.value)
    ensures var t := Poll(s, p);
            t.clock == s.clock && t.dir == s.dir && |t.pcs| == |s.pcs| && t.pcs[p].Removing?
    ensures forall r :: 0 <= r < |s.pcs| && r != p ==> Poll(s, p).pcs[r] == s.pcs[r]
    ensures CanBreak(Poll(s, p)) ==> CanBreak(s)
  {
    hide CanBreak;
    if CanBreak(Poll(s, p)) {
      BreakLater(Next(Next(Next(s, Crash(p)), Act(p)), Act(p)), Act(p));
      BreakLater(Next(Next(s, Crash(p)), Act(p)), Act(p));
      BreakLater(Next(s, Crash(p)), Act(p));
      BreakLater(s, Crash(p));
    }
  }

  /**
   In every state of two or more processes: with no time passing, two of them can come to hold
   the lock together if and only if the state is not safe.
  */
  lemma BreaksExactly(s: State)
    requires |s.pcs| >= 2
    ensures CanBreak(s) <==> !Safe(s)
  {
    hide Next, After;
    if Safe(s) {
      if CanBreak(s) {
        var schedule :| Instant(schedule) && TwoHold(After(s, schedule));
        RunKeepsSafe(s, schedule);
        assert false;
      }
    } else if s.dir.Some? && Stale(s.clock, s.dir.value) {
      hide CanBreak, Poll;
      PollSees(s, 0);
      PollSees(Poll(s, 0), 1);
      TwoBusy(Poll(Poll(s, 0), 1), 0, 1);
    } else if p, q :| 0 <= p < q < |s.pcs| && Busy(s.pcs[p]) && Busy(s.pcs[q]) {
      TwoBusy(s, p, q);
    } else {
      var p :| 0 <= p < |s.pcs| && Busy(s.pcs[p]);
      BusyWithoutDir(s, p, if p == 0 then 1 else 0);
    }
  }

  /** Along a calm run the only unsafe thing there can be is a stale directory. */
  lemma CalmBreaksExactly(s: State)
    requires Inv(s) && |s.pcs| >= 2
    ensures CanBreak(s) <==> s.dir.Some? && Stale(s.clock, s.dir.value)
  {
    hide CanBreak;
    assert forall p :: 0 <= p < |s.pcs| ==> PcOk(p, s.pcs[p], s.clock, s.dir);
    BreaksExactly(s);
  }

  /** Appends one action of the only process to a run. */
  lemma ActAlone(start: State, schedule: seq<Step>, s: State, pc: Pc) returns (longer: seq<Step>)
    requires After(start, schedule) == s && s.pcs == [pc]
    ensures var (next, dir) := Acted(0, pc, s.clock, s.dir);
            After(start, longer) == State(s.clock, dir, [next])
  {
    longer := schedule + [Act(0)];
    AfterSnoc(start, schedule, Act(0));
  }

  // ---- what a touch buys -----------------------------------------------------------------

  function Elapsed(schedule: seq<Step>): nat {
    if schedule == [] then 0 else (if schedule[0].Tick? then schedule[0].elapsed else 0) + Elapsed(schedule[1..])
  }

  /** Nobody but `p` holds the lock or is about to remove the directory. */
  ghost predicate Unrivalled(s: State, p: nat) {
    forall q :: 0 <= q < |s.pcs| && q != p ==> !Busy(s.pcs[q])
  }

  predicate OnlyOthers(schedule: seq<Step>, p: nat) {
    forall i :: 0 <= i < |schedule| ==> schedule[i].Tick? || schedule[i].p != p
  }

  lemma OtherStepLeavesFresh(s: State, p: nat, step: Step)
    requires s.dir.Some? && Unrivalled(s, p) && p < |s.pcs| && (step.Tick? || step.p != p)
    requires s.clock < s.dir.value.mtime + 600_000
    ensures var t := Next(s, step);
            && t.dir == s.dir && Unrivalled(t, p) && |t.pcs| == |s.pcs| && t.pcs[p] == s.pcs[p]
            && t.clock == s.clock + if step.Tick? then step.elapsed else 0
  {
  }

  /** A directory stays as it is, and nobody else's, for less than 600 s from its modification time. */
  lemma {:induction false} FreshStays(s: State, p: nat, schedule: seq<Step>)
    requires s.dir.Some? && Unrivalled(s, p) && p < |s.pcs| && OnlyOthers(schedule, p)
    requires s.clock + Elapsed(schedule) < s.dir.value.mtime + 600_000
    ensures var end := After(s, schedule);
            end.dir == s.dir && Unrivalled(end, p) && |end.pcs| == |s.pcs| && end.pcs[p] == s.pcs[p]
    decreases |schedule|
  {
    hide Next, Unrivalled;
    if schedule != [] {
      assert schedule[0].Tick? || schedule[0].p != p;
      OtherStepLeavesFresh(s, p, schedule[0]);
      FreshStays(Next(s, schedule[0]), p, schedule[1..]);
    }
  }

  /**
   A touch buys 600 s from its own moment, however long before it the directory was made: for
   less than that the toucher alone holds the lock, whatever the others do.
  */
  lemma TouchBuysTheAge(s: State, p: nat, schedule: seq<Step>)
    requires p < |s.pcs| && s.pcs[p].Touching? && s.dir.Some? && Unrivalled(s, p)
    requires OnlyOthers(schedule, p) && Elapsed(schedule) < 600_000
    ensures var end := After(Next(s, Act(p)), schedule);
            && |end.pcs| == |s.pcs| && end.pcs[p] == Holding(s.pcs[p].since)
            && end.dir == Some(s.dir.value.(mtime := s.clock))
            && forall q :: 0 <= q < |s.pcs| && q != p ==> !Holds(end.pcs[q])
  {
    hide After;
    FreshStays(Next(s, Act(p)), p, schedule);
  }

  // ---- a wait ends -----------------------------------------------------------------------

  predicate Waiting(pc: Pc) {
    pc.Creating? || pc.ReadingAge? || pc.Removing? || pc.Recreating? || pc.CheckingDeadline?
  }

  /** The system calls a waiter past its deadline still makes. */
  function CallsLeft(pc: Pc): (n: nat)
    ensures n <= 5
  {
    match pc
    case Creating(_) => 5
    case ReadingAge(_) => 4
    case Removing(_) => 3
    case Recreating(_) => 2
    case CheckingDeadline(_) => 1
    case _ => 0
  }

  function Acts(p: nat, schedule: seq<Step>): nat {
    if schedule == [] then 0 else (if schedule[0] == Act(p) then 1 else 0) + Acts(p, schedule[1..])
  }

  lemma LateCallCounts(s: State, p: nat, step: Step)
    requires p < |s.pcs| && Waiting(s.pcs[p]) && s.pcs[p].deadline <= s.clock && step != Crash(p)
    ensures var t := Next(s, step);
            && |t.pcs| == |s.pcs| && s.clock <= t.clock
            && CallsLeft(t.pcs[p]) + (if step == Act(p) then 1 else 0) <= CallsLeft(s.pcs[p])
            && (Waiting(t.pcs[p]) ==> t.pcs[p].deadline == s.pcs[p].deadline)
            && (!Waiting(t.pcs[p]) ==>
                  t.pcs[p] == TimedOut || (Holds(t.pcs[p]) && t.dir.Some? && t.dir.value.owner == p))
  {
  }

  /**
   No waiter waits on: after its deadline it makes at most five system calls, whatever the others
   do to the directory between them, and then has the lock or has given up.
  */
  lemma {:induction false} DeadlineEndsTheWait(s: State, p: nat, schedule: seq<Step>) returns (i: nat)
    requires p < |s.pcs| && Waiting(s.pcs[p]) && s.pcs[p].deadline <= s.clock
    requires Crash(p) !in schedule && CallsLeft(s.pcs[p]) <= Acts(p, schedule)
    ensures i <= |schedule| && Acts(p, schedule[..i]) <= CallsLeft(s.pcs[p])
    ensures var t := After(s, schedule[..i]);
            p < |t.pcs| && (t.pcs[p] == TimedOut || (Holds(t.pcs[p]) && t.dir.Some? && t.dir.value.owner == p))
    decreases |schedule|
  {
    hide Next;
    var step := schedule[0];
    var t := Next(s, step);
    LateCallCounts(s, p, step);
    if Waiting(t.pcs[p]) {
      var later := DeadlineEndsTheWait(t, p, schedule[1..]);
      i := later + 1;
      assert schedule[..i][1..] == schedule[1..][..later];
    } else {
      i := 1;
      assert schedule[..1][1..] == [];
      NoMoreSteps(t);
    }
  }

  lemma NoMoreSteps(s: State)
    ensures After(s, []) == s
  {
  }

  // ---- a lone waiter -------------------------------------------------------------------

  /** The lock directory and the clock as process 0 sees them when no other process runs. */
  class Waiter {
    var clock: nat
    var dir: Option<LockDir>

    constructor (clock: nat, dir: Option<LockDir>)
      ensures this.clock == clock && this.dir == dir
    {
      this.clock := clock;
      this.dir := dir;
    }

    ghost function At(pc: Pc): State
      reads this
    {
      State(clock, dir, [pc])
    }

    /** Time passes: at least `pause`, and at most `lag` more. */
    method Elapse(pause: nat, lag: nat, ghost start: State, ghost before: seq<Step>, ghost pc: Pc)
      returns (ghost schedule: seq<Step>)
      requires After(start, before) == At(pc)
      modifies this`clock
      ensures old(clock) + pause <= clock <= old(clock) + pause + lag
      ensures After(start, schedule) == At(pc)
    {
      var extra: nat :| extra <= lag;
      schedule := before + [Tick(pause + extra)];
      AfterSnoc(start, before, Tick(pause + extra));
      clock := clock + pause + extra;
    }

    /** `create_dir` where there is none, and the touch behind it. */
    method Make(ghost start: State, ghost before: seq<Step>, ghost pc: Pc) returns (ghost schedule: seq<Step>)
      requires After(start, before) == At(pc) && (pc.Creating? || pc.Recreating?) && dir.None?
      modifies this`dir
      ensures dir == Some(LockDir(clock, 0)) && After(start, schedule) == At(Holding(clock))
    {
      dir := Some(LockDir(clock, 0));
      AfterSnoc(start, before, Act(0));
      AfterSnoc(start, before + [Act(0)], Act(0));
      schedule := before + [Act(0)] + [Act(0)];
    }

    /**
     `acquire` with no other process about, on a machine that delays any one step by at most
     `lag`. `checkedAt` is when the age was last read, `gaveUpAt` when the deadline was. The loop
     is a run of the state machine above, step by step.
    */
    method Acquire(lag: nat) returns (held: bool, checkedAt: nat, gaveUpAt: nat, ghost schedule: seq<Step>)
      modifies this
      ensures After(old(At(Outside)), schedule) == At(if held then Holding(clock) else TimedOut)
      ensures old(dir).None? ==> held && old(clock) <= clock <= old(clock) + lag
      ensures held ==> dir == Some(LockDir(clock, 0))
      // the outcome is that of the last reading of the age
      ensures old(dir).Some? ==> (held <==> Stale(checkedAt, old(dir).value))
      ensures old(dir).Some? && held ==> old(clock) <= checkedAt <= clock
      ensures !held ==>
                dir == old(dir) && old(clock) + 300_000 <= gaveUpAt == clock <= checkedAt + lag
      // so a lock that turns stale early enough is taken over, and one that turns stale too late is not
      ensures old(dir).Some? && old(dir).value.mtime + 600_000 + lag <= old(clock) + 300_000 ==> held
      ensures old(dir).Some? && held ==>
                old(dir).value.mtime + 600_000 <= old(clock) + 300_000 + 50 + 2 * lag
    {
      assert After(At(Outside), []) == At(Outside);
      hide After, Next;
      var deadline := clock + ACQUIRE_DEADLINE;
      checkedAt, gaveUpAt := clock, clock;
      ghost var began, start := clock, At(Outside);
      schedule := ActAlone(start, [], start, Outside);
      while true
        invariant dir == old(dir) && After(start, schedule) == At(Creating(deadline))
        invariant began <= clock && deadline == began + ACQUIRE_DEADLINE
        invariant clock == began || clock < deadline + POLL_PAUSE + lag
        invariant clock != began ==> dir.Some?
        decreases deadline + POLL_PAUSE + lag - clock
      {
        if dir.None? {
          schedule := Elapse(0, lag, start, schedule, Creating(deadline));
          schedule := Make(start, schedule, Creating(deadline));
          return true, checkedAt, gaveUpAt, schedule;
        }
        schedule := ActAlone(start, schedule, At(Creating(deadline)), Creating(deadline));
        schedule := Elapse(0, lag, start, schedule, ReadingAge(deadline));
        checkedAt := clock;
        schedule := ActAlone(start, schedule, At(ReadingAge(deadline)), ReadingAge(deadline));
        if Stale(checkedAt, dir.value) {
          dir := None;
          schedule := ActAlone(start, schedule, State(clock, old(dir), [Removing(deadline)]), Removing(deadline));
          schedule := Elapse(0, lag, start, schedule, Recreating(deadline));
          schedule := Make(start, schedule, Recreating(deadline));
          return true, checkedAt, gaveUpAt, schedule;
        }
        schedule := Elapse(0, lag, start, schedule, CheckingDeadline(deadline));
        gaveUpAt := clock;
        schedule := ActAlone(start, schedule, At(CheckingDeadline(deadline)), CheckingDeadline(deadline));
        if deadline <= gaveUpAt {
          return false, checkedAt, gaveUpAt, schedule;
        }
        schedule := Elapse(POLL_PAUSE, lag, start, schedule, Creating(deadline));
      }
    }
  }
}
