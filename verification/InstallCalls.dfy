/**
 What a call of the installer does with what it finds: an installed pair it returns at once and
 leaves alone, an incomplete one it goes on to download, and what it put beside them it removes.
*/
module InstallCalls {
  import opened Wire
  import opened Install

  // ---- an installed pair -----------------------------------------------------------------

  /** The successful steps of one process. */
  function Gos(p: nat, schedule: seq<(nat, Step)>): nat {
    if schedule == [] then 0 else (if schedule[0] == (p, Go) then 1 else 0) + Gos(p, schedule[1..])
  }

  /** Call after call that looks once and returns. */
  function Turn(k: nat): Pc {
    if k % 3 == 0 then Idle else if k % 3 == 1 then FirstCheck else Returned(true)
  }

  lemma StepOfRest(rel: Release, p: nat, pr: Process, files: Files, step: Step, k: nat)
    requires Complete(rel, files) && pr.pc == Turn(k) && step != Crash
    ensures var (after, left) := Stepped(rel, p, pr, files, step);
            left == files && after.pc == Turn(k + if step == Go then 1 else 0)
  {
  }

  lemma StepOfAnother(rel: Release, s: State, p: nat, q: nat, step: Step)
    requires Inv(rel, s) && p < |s.processes| && q < |s.processes| && p != q
    ensures var t := Next(rel, s, q, step);
            && Inv(rel, t) && |t.processes| == |s.processes| && t.processes[p] == s.processes[p]
            && (Complete(rel, s.files) ==> Complete(rel, t.files))
  {
    hide Stepped, Inv;
    StepKeepsInv(rel, s, q, step);
    InstalledIsComplete(rel, s);
    InstalledIsComplete(rel, Next(rel, s, q, step));
  }

  /**
   Where the install is complete a call looks once and returns success, online or not and
   whatever the others do, and so does every later one: its place is told by its successful steps
   alone, two to a call and one to begin the next, and none of its steps touches a file.
  */
  lemma {:induction false} InstalledCallsReturn(rel: Release, s: State, p: nat, k: nat,
                                                schedule: seq<(nat, Step)>, end: State)
    requires Inv(rel, s) && Complete(rel, s.files)
    requires p < |s.processes| && s.processes[p].pc == Turn(k)
    requires Runs(rel, s, schedule, end) && (p, Crash) !in schedule
    ensures p < |end.processes| && end.processes[p].pc == Turn(k + Gos(p, schedule))
    ensures forall step :: Next(rel, end, p, step).files == end.files
    decreases |schedule|
  {
    hide Stepped, Complete, Inv;
    if schedule == [] {
      forall step ensures Next(rel, end, p, step).files == end.files {
        if step == Crash {
          CrashLeavesFiles(rel, p, s.processes[p], s.files);
        } else {
          StepOfRest(rel, p, s.processes[p], s.files, step, k);
        }
      }
    } else {
      var q, step := schedule[0].0, schedule[0].1;
      var t := Next(rel, s, q, step);
      if q == p {
        StepOfRest(rel, p, s.processes[p], s.files, step, k);
        StepKeepsInv(rel, s, q, step);
        InstalledCallsReturn(rel, t, p, k + if step == Go then 1 else 0, schedule[1..], end);
      } else {
        StepOfAnother(rel, s, p, q, step);
        InstalledCallsReturn(rel, t, p, k, schedule[1..], end);
      }
    }
  }

  lemma CrashLeavesFiles(rel: Release, p: nat, pr: Process, files: Files)
    ensures Stepped(rel, p, pr, files, Crash) == (NEW, files)
  {
  }

  /** So from every state of every run: a call not begun, and then two of its steps. */
  lemma InstalledCallIsTwoSteps(rel: Release, start: State, before: seq<(nat, Step)>, s: State, p: nat,
                                schedule: seq<(nat, Step)>, end: State)
    requires Initial(start) && Runs(rel, start, before, s) && Complete(rel, s.files)
    requires p < |s.processes| && s.processes[p].pc == Idle
    requires Runs(rel, s, schedule, end) && (p, Crash) !in schedule && Gos(p, schedule) <= 2
    ensures p < |end.processes|
    ensures end.processes[p].pc == [Idle, FirstCheck, Returned(true)][Gos(p, schedule)]
  {
    hide Runs, Inv, Complete;
    InitialInv(rel, start);
    RunKeepsInv(rel, start, before, s);
    InstalledCallsReturn(rel, s, p, 0, schedule, end);
  }

  predicate WithoutStepsOf(p: nat, schedule: seq<(nat, Step)>) {
    forall i :: 0 <= i < |schedule| ==> schedule[i].0 != p
  }

  lemma {:induction false} OthersRun(rel: Release, s: State, p: nat, others: seq<(nat, Step)>, end: State)
    requires Inv(rel, s) && p < |s.processes| && Runs(rel, s, others, end) && WithoutStepsOf(p, others)
    ensures Inv(rel, end) && |end.processes| == |s.processes| && end.processes[p] == s.processes[p]
    ensures Complete(rel, s.files) ==> Complete(rel, end.files)
    decreases |others|
  {
    hide Inv, Complete, Stepped;
    if others != [] {
      StepOfAnother(rel, s, p, others[0].0, others[0].1);
      OthersRun(rel, Next(rel, s, others[0].0, others[0].1), p, others[1..], end);
    }
  }

  /** A call that waited for the lock and finds another's install complete returns it with its next step. */
  lemma InstalledMeanwhile(rel: Release, s: State, p: nat, others: seq<(nat, Step)>, end: State)
    requires Inv(rel, s) && p < |s.processes| && s.processes[p].pc == SecondCheck && Complete(rel, s.files)
    requires Runs(rel, s, others, end) && WithoutStepsOf(p, others)
    ensures p < |end.processes|
    ensures var t := Next(rel, end, p, Go); t.processes[p].pc == Returned(true) && t.files == end.files
  {
    hide Inv, Runs;
    OthersRun(rel, s, p, others, end);
  }

  // ---- an incomplete one -----------------------------------------------------------------

  /** The binary is missing or cannot be executed, or its library is missing. */
  predicate Incomplete(files: Files) {
    Final(Msb) !in files || !files[Final(Msb)].executable || Final(Krun) !in files
  }

  /** A call that finds the pair incomplete goes on, before the lock and behind it. */
  lemma IncompleteGoesOn(rel: Release, s: State, p: nat)
    requires p < |s.processes| && s.processes[p].pc in {FirstCheck, SecondCheck} && Incomplete(s.files)
    ensures var t := Next(rel, s, p, Go);
            && t.files == s.files
            && t.processes[p].pc == if s.processes[p].pc == FirstCheck then Locking else FetchSums
  {
  }

  function Alone(rel: Release, s: State, p: nat, steps: nat): (t: State)
    requires p < |s.processes|
    ensures |t.processes| == |s.processes|
    decreases steps
  {
    if steps == 0 then s else Alone(rel, Next(rel, s, p, Go), p, steps - 1)
  }

  lemma OneStepAlone(rel: Release, s: State, p: nat, steps: nat)
    requires p < |s.processes| && 0 < steps
    ensures Alone(rel, s, p, steps) == Alone(rel, Next(rel, s, p, Go), p, steps - 1)
  {
  }

  /** Left alone with an incomplete pair a call comes to the download in four steps, and changes nothing before. */
  lemma IncompleteComesToTheDownload(rel: Release, s: State, p: nat, steps: nat)
    requires p < |s.processes| && s.processes[p].pc == FirstCheck && Incomplete(s.files) && steps <= 4
    ensures var t := Alone(rel, s, p, steps);
            && t.files == s.files
            && t.processes[p].pc == [FirstCheck, Locking, SecondCheck, FetchSums, Download(Msb)][steps]
  {
    hide Alone;
    var t := s;
    for i := 0 to steps
      invariant |t.processes| == |s.processes| && t.files == s.files
      invariant t.processes[p].pc == [FirstCheck, Locking, SecondCheck, FetchSums, Download(Msb)][i]
      invariant Alone(rel, s, p, steps) == Alone(rel, t, p, steps - i)
    {
      OneStepAlone(rel, t, p, steps - i);
      t := Next(rel, t, p, Go);
    }
    NoStepAlone(rel, t, p);
  }

  lemma NoStepAlone(rel: Release, s: State, p: nat)
    requires p < |s.processes|
    ensures Alone(rel, s, p, 0) == s
  {
  }

  // ---- what a call leaves beside the pair ------------------------------------------------

  /** The temp files a call has in hand. */
  function InHand(p: nat, pr: Process): set<Path> {
    var msb := Temp(Msb, p, pr.msbTemp);
    match pr.pc
    case Download(asset) => if asset.Krun? then {msb} else {}
    case CreateTemp(asset, _) => if asset.Krun? then {msb} else {}
    case Writing(asset, n, _) => if asset.Krun? then {msb, Temp(Krun, p, n)} else {Temp(Msb, p, n)}
    case SetExecutable(n) => {Temp(Msb, p, n)}
    case RenameKrun(k) => {msb, Temp(Krun, p, k)}
    case RenameMsb(k) => {msb, Temp(Krun, p, k)}
    case CleanMsb(k, _) => {msb, Temp(Krun, p, k)}
    case CleanKrun(k, _) => {Temp(Krun, p, k)}
    case _ => {}
  }

  /** No crash, and no cleanup that fails. */
  predicate Tidy(pc: Pc, step: Step) {
    step != Crash && step != FailDirty && !((pc.CleanMsb? || pc.CleanKrun?) && step == Fail)
  }

  ghost predicate TidyRun(rel: Release, s: State, p: nat, schedule: seq<(nat, Step)>)
    decreases |schedule|
  {
    schedule == [] ||
    (&& p < |s.processes| && schedule[0].0 < |s.processes|
     && (schedule[0].0 == p ==> Tidy(s.processes[p].pc, schedule[0].1))
     && TidyRun(rel, Next(rel, s, schedule[0].0, schedule[0].1), p, schedule[1..]))
  }

  /** The temp files of `p` are earlier ones, those in hand, or a verified binary whose library did not come. */
  ghost predicate Accounted(was: Files, p: nat, pr: Process, files: Files) {
    forall asset, n :: Temp(asset, p, n) in files ==>
      || Temp(asset, p, n) in was || Temp(asset, p, n) in InHand(p, pr)
      || (asset.Msb? && pr.pc.Returned? && !pr.pc.ok)
  }

  predicate BeforeTemps(pc: Pc) {
    pc in {FirstCheck, Locking, SecondCheck, FetchSums}
  }

  lemma StepAccounts(rel: Release, was: Files, p: nat, pr: Process, files: Files, step: Step)
    requires Accounted(was, p, pr, files) && Tidy(pr.pc, step) && (pr.pc.Returned? ==> step != Go)
    ensures var (after, left) := Stepped(rel, p, pr, files, step); Accounted(was, p, after, left)
  {
  }

  lemma OthersAccount(rel: Release, was: Files, p: nat, pr: Process, q: nat, other: Process, files: Files, step: Step)
    requires Accounted(was, p, pr, files) && p != q
    ensures Accounted(was, p, pr, Stepped(rel, q, other, files, step).1)
  {
    hide Stepped;
    StepFrame(rel, q, other, files, step);
  }

  /** Until its return the call goes through no second one. */
  ghost predicate OneCall(rel: Release, s: State, p: nat, schedule: seq<(nat, Step)>)
    decreases |schedule|
  {
    schedule == [] ||
    (&& p < |s.processes| && schedule[0].0 < |s.processes|
     && (schedule[0] == (p, Go) ==> !s.processes[p].pc.Returned?)
     && OneCall(rel, Next(rel, s, schedule[0].0, schedule[0].1), p, schedule[1..]))
  }

  lemma {:induction false} RunAccounts(rel: Release, was: Files, s: State, p: nat, schedule: seq<(nat, Step)>,
                                       end: State)
    requires p < |s.processes| && Accounted(was, p, s.processes[p], s.files)
    requires Runs(rel, s, schedule, end) && TidyRun(rel, s, p, schedule) && OneCall(rel, s, p, schedule)
    ensures p < |end.processes| && Accounted(was, p, end.processes[p], end.files)
    decreases |schedule|
  {
    hide Stepped, Accounted, Tidy;
    if schedule != [] {
      var q, step := schedule[0].0, schedule[0].1;
      if q == p {
        StepAccounts(rel, was, p, s.processes[p], s.files, step);
      } else {
        OthersAccount(rel, was, p, s.processes[p], q, s.processes[q], s.files, step);
      }
      RunAccounts(rel, was, Next(rel, s, q, step), p, schedule[1..], end);
    }
  }

  /**
   A call that has returned has left no temp file that was not there before it, as long as it was
   not killed and its cleanups worked; but a call that failed may have left its verified binary,
   when the library did not come.
  */
  lemma ReturnsTidily(rel: Release, s: State, p: nat, schedule: seq<(nat, Step)>, end: State)
    requires p < |s.processes| && s.processes[p].pc == Idle && Runs(rel, s, schedule, end)
    requires TidyRun(rel, s, p, schedule) && OneCall(rel, s, p, schedule)
    ensures p < |end.processes|
    ensures end.processes[p].pc.Returned? ==>
              forall n :: Temp(Krun, p, n) in end.files ==> Temp(Krun, p, n) in s.files
    ensures end.processes[p].pc == Returned(true) ==>
              forall asset, n :: Temp(asset, p, n) in end.files ==> Temp(asset, p, n) in s.files
  {
    hide Runs, TidyRun, OneCall;
    RunAccounts(rel, s.files, s, p, schedule, end);
  }

  // ---- a failed operation fails the call -------------------------------------------------

  /** The operations that can fail, and a download that does not match its checksum. */
  predicate Fails(rel: Release, pc: Pc, step: Step) {
    match pc
    case Locking => step == Fail
    case FetchSums => step == Fail
    case Download(asset) => step == Fail || (step.Fetched? && rel.sha256(step.bytes) != rel.checksum(asset))
    case CreateTemp(_, _) => step == Fail
    case Writing(_, _, _) => step == Fail || step == FailDirty
    case SetExecutable(_) => step == Fail || step == FailDirty
    case RenameKrun(_) => step == Fail
    case RenameMsb(_) => step == Fail
    case _ => false
  }

  function CleanupsLeft(pc: Pc): nat {
    match pc
    case CleanMsb(_, _) => 2
    case CleanKrun(_, _) => 1
    case _ => 0
  }

  /** The cleanups of `p`, whether they work or not. */
  function Cleanups(p: nat, schedule: seq<(nat, Step)>): nat {
    if schedule == [] then 0
    else (if schedule[0] == (p, Go) || schedule[0] == (p, Fail) then 1 else 0) + Cleanups(p, schedule[1..])
  }

  lemma FailingStep(rel: Release, p: nat, pr: Process, files: Files, step: Step)
    requires Failing(pr.pc) && step != Crash && (pr.pc.Returned? ==> step != Go)
    ensures var after := Stepped(rel, p, pr, files, step).0.pc;
            && Failing(after)
            && (step == Go || step == Fail ==> CleanupsLeft(after) == if pr.pc.CleanMsb? then 1 else 0)
            && (step != Go && step != Fail ==> after == pr.pc)
  {
  }

  lemma FailedStep(rel: Release, p: nat, pr: Process, files: Files, step: Step)
    requires Fails(rel, pr.pc, step)
    ensures var (after, left) := Stepped(rel, p, pr, files, step);
            Failing(after.pc) && forall asset :: Final(asset) in files ==>
              Final(asset) in left && left[Final(asset)] == files[Final(asset)]
  {
  }

  lemma {:induction false} FailingRun(rel: Release, s: State, p: nat, schedule: seq<(nat, Step)>, end: State)
    requires p < |s.processes| && Failing(s.processes[p].pc)
    requires Runs(rel, s, schedule, end) && (p, Crash) !in schedule && OneCall(rel, s, p, schedule)
    ensures p < |end.processes| && Failing(end.processes[p].pc)
    ensures CleanupsLeft(s.processes[p].pc) <= Cleanups(p, schedule) ==> end.processes[p].pc == Returned(false)
    decreases |schedule|
  {
    hide Stepped;
    if schedule != [] {
      var q, step := schedule[0].0, schedule[0].1;
      if q == p {
        FailingStep(rel, p, s.processes[p], s.files, step);
      }
      FailingRun(rel, Next(rel, s, q, step), p, schedule[1..], end);
    }
  }

  /**
   One failed operation, or one download that does not match, fails the call, whatever others do:
   it touches no installed file, and after at most two cleanups the call has returned an error.
  */
  lemma FailureFailsTheCall(rel: Release, s: State, p: nat, step: Step, schedule: seq<(nat, Step)>, end: State)
    requires p < |s.processes| && Fails(rel, s.processes[p].pc, step)
    requires Runs(rel, Next(rel, s, p, step), schedule, end) && (p, Crash) !in schedule
    requires OneCall(rel, Next(rel, s, p, step), p, schedule)
    ensures forall asset :: Final(asset) in s.files ==>
              var left := Next(rel, s, p, step).files;
              Final(asset) in left && left[Final(asset)] == s.files[Final(asset)]
    ensures p < |end.processes| && Failing(end.processes[p].pc)
    ensures 2 <= Cleanups(p, schedule) ==> end.processes[p].pc == Returned(false)
  {
    hide Stepped, Runs, OneCall, Failing;
    FailedStep(rel, p, s.processes[p], s.files, step);
    FailingRun(rel, Next(rel, s, p, step), p, schedule, end);
    AtMostTwoCleanups(Next(rel, s, p, step).processes[p].pc);
  }

  lemma AtMostTwoCleanups(pc: Pc)
    ensures CleanupsLeft(pc) <= 2
  {
  }
}
