/**
 The provisioner's install: any number of processes that download, verify and rename the two
 assets into place, crash and start again at any step, with no help from the lock.
*/
module Install {
  import opened Wire

  datatype Asset = Msb | Krun

  /** The published release: the digest function and the checksum of each asset. */
  datatype Release = Release(sha256: seq<Byte> -> seq<Byte>, checksum: Asset -> seq<Byte>) {
    predicate Matches(asset: Asset, content: seq<Byte>) {
      sha256(content) == checksum(asset)
    }
  }

  /** An installed file, or a temp file named after a process and its counter, in its asset's directory. */
  datatype Path = Final(asset: Asset) | Temp(asset: Asset, pid: nat, n: nat)

  datatype File = File(content: seq<Byte>, executable: bool)

  type Files = map<Path, File>

  predicate IsInstalled(files: Files) {
    Final(Msb) in files && files[Final(Msb)].executable && Final(Krun) in files
  }

  /** Where a call of `ensure_installed_at` is. */
  datatype Pc =
    | Idle
    | FirstCheck | Locking | SecondCheck | FetchSums
    | Download(asset: Asset)
    | CreateTemp(asset: Asset, bytes: seq<Byte>)
    | Writing(asset: Asset, n: nat, bytes: seq<Byte>)
    | SetExecutable(n: nat)
    | RenameKrun(krun: nat) | RenameMsb(krun: nat)
    | CleanMsb(krun: nat, ok: bool) | CleanKrun(krun: nat, ok: bool)
    | Returned(ok: bool)

  /** A process: its call, its temp-name counter, and the number of its verified msb temp file. */
  datatype Process = Process(pc: Pc, counter: nat, msbTemp: nat)

  datatype State = State(files: Files, processes: seq<Process>)

  datatype Step =
    | Go                              // the operation at the pc succeeds
    | Fail                            // it fails; what is cleaned up for it is removed
    | FailDirty                       // it fails, and so does the best-effort cleanup
    | Fetched(bytes: seq<Byte>)       // a download arrives
    | Wrote(upTo: nat)                // part of a temp file reaches the disk
    | Crash                           // the process dies; a new one gets its pid

  const NEW := Process(Idle, 0, 0)

  ghost predicate Initial(s: State) {
    s.files == map[] && forall p :: 0 <= p < |s.processes| ==> s.processes[p] == NEW
  }

  // ---- one step of one process ---------------------------------------------------------

  /** The process after a step, and the files after it; each step is one file operation or none. */
  function Stepped(rel: Release, p: nat, pr: Process, files: Files, step: Step): (Process, Files) {
    match (pr.pc, step)
    case (_, Crash) => (NEW, files)
    case (Idle, Go) => (pr.(pc := FirstCheck), files)
    case (FirstCheck, Go) => (pr.(pc := if IsInstalled(files) then Returned(true) else Locking), files)
    case (Locking, Go) => (pr.(pc := SecondCheck), files)
    case (SecondCheck, Go) => (pr.(pc := if IsInstalled(files) then Returned(true) else FetchSums), files)
    case (FetchSums, Go) => (pr.(pc := Download(Msb)), files)
    case (Download(asset), Fetched(bytes)) =>
      (pr.(pc := if rel.Matches(asset, bytes) then CreateTemp(asset, bytes) else Returned(false)), files)
    case (CreateTemp(asset, bytes), Go) =>
      var path := Temp(asset, p, pr.counter);
      (pr.(pc := Writing(asset, pr.counter, bytes), counter := pr.counter + 1),
       files[path := File([], path in files && files[path].executable)])
    case (Writing(asset, n, bytes), Wrote(upTo)) =>
      var path := Temp(asset, p, n);
      (pr, if upTo <= |bytes| && path in files then files[path := files[path].(content := bytes[..upTo])] else files)
    case (Writing(asset, n, bytes), Go) =>
      var path := Temp(asset, p, n);
      (pr.(pc := if asset.Msb? then SetExecutable(n) else RenameKrun(n)),
       if path in files then files[path := files[path].(content := bytes)] else files)
    case (Writing(asset, n, _), Fail) => (pr.(pc := Returned(false)), files - {Temp(asset, p, n)})
    case (Writing(_, _, _), FailDirty) => (pr.(pc := Returned(false)), files)
    case (SetExecutable(n), Go) =>
      var path := Temp(Msb, p, n);
      (pr.(pc := Download(Krun), msbTemp := n),
       if path in files then files[path := files[path].(executable := true)] else files)
    case (SetExecutable(n), Fail) => (pr.(pc := Returned(false)), files - {Temp(Msb, p, n)})
    case (SetExecutable(_), FailDirty) => (pr.(pc := Returned(false)), files)
    case (RenameKrun(k), Go) =>
      var from := Temp(Krun, p, k);
      (pr.(pc := if from in files then RenameMsb(k) else CleanMsb(k, false)), Renamed(files, from, Final(Krun)))
    case (RenameKrun(k), Fail) => (pr.(pc := CleanMsb(k, false)), files)
    case (RenameMsb(k), Go) =>
      var from := Temp(Msb, p, pr.msbTemp);
      (pr.(pc := CleanMsb(k, from in files)), Renamed(files, from, Final(Msb)))
    case (RenameMsb(k), Fail) => (pr.(pc := CleanMsb(k, false)), files)
    case (CleanMsb(k, ok), Go) => (pr.(pc := CleanKrun(k, ok)), files - {Temp(Msb, p, pr.msbTemp)})
    case (CleanMsb(k, ok), Fail) => (pr.(pc := CleanKrun(k, ok)), files)
    case (CleanKrun(k, ok), Go) => (pr.(pc := Returned(ok)), files - {Temp(Krun, p, k)})
    case (CleanKrun(k, ok), Fail) => (pr.(pc := Returned(ok)), files)
    case (Returned(_), Go) => (pr.(pc := Idle), files)
    case (Locking, Fail) => (pr.(pc := Returned(false)), files)
    case (FetchSums, Fail) => (pr.(pc := Returned(false)), files)
    case (Download(_), Fail) => (pr.(pc := Returned(false)), files)
    case (CreateTemp(_, _), Fail) => (pr.(pc := Returned(false)), files)
    case _ => (pr, files)
  }

  /** `rename`: replaces the target atomically, or fails when the source is missing. */
  function Renamed(files: Files, from: Path, to: Path): Files {
    if from in files then files[to := files[from]] - {from} else files
  }

  function Next(rel: Release, s: State, p: nat, step: Step): State
    requires p < |s.processes|
  {
    var (pr, files) := Stepped(rel, p, s.processes[p], s.files, step);
    State(files, s.processes[p := pr])
  }

  ghost predicate Runs(rel: Release, s: State, schedule: seq<(nat, Step)>, end: State)
    decreases |schedule|
  {
    if schedule == [] then end == s
    else
      && schedule[0].0 < |s.processes|
      && Runs(rel, Next(rel, s, schedule[0].0, schedule[0].1), schedule[1..], end)
  }

  // ---- safety --------------------------------------------------------------------------

  predicate Verified(rel: Release, files: Files, path: Path) {
    path in files && rel.Matches(path.asset, files[path].content)
  }

  /** Installed files hold checksum-matching bytes, and the msb binary is only there with its library. */
  ghost predicate FinalsOk(rel: Release, files: Files) {
    && (Final(Krun) in files ==> Verified(rel, files, Final(Krun)))
    && (Final(Msb) in files ==> Verified(rel, files, Final(Msb)) && IsInstalled(files))
  }

  predicate MsbReady(rel: Release, p: nat, pr: Process, files: Files) {
    var path := Temp(Msb, p, pr.msbTemp);
    Verified(rel, files, path) && files[path].executable
  }

  /** What a process may rely on at its pc. */
  ghost predicate ProcessOk(rel: Release, p: nat, pr: Process, files: Files) {
    match pr.pc
    case Download(asset) => asset.Krun? ==> MsbReady(rel, p, pr, files)
    case CreateTemp(asset, bytes) => rel.Matches(asset, bytes) && (asset.Krun? ==> MsbReady(rel, p, pr, files))
    case Writing(asset, n, bytes) =>
      rel.Matches(asset, bytes) && Temp(asset, p, n) in files && (asset.Krun? ==> MsbReady(rel, p, pr, files))
    case SetExecutable(n) => Verified(rel, files, Temp(Msb, p, n))
    case RenameKrun(k) => MsbReady(rel, p, pr, files) && Verified(rel, files, Temp(Krun, p, k))
    case RenameMsb(_) => MsbReady(rel, p, pr, files) && Final(Krun) in files
    case CleanMsb(_, ok) => ok ==> Final(Msb) in files
    case CleanKrun(_, ok) => ok ==> Final(Msb) in files
    case Returned(ok) => ok ==> Final(Msb) in files
    case _ => true
  }

  ghost predicate Inv(rel: Release, s: State) {
    FinalsOk(rel, s.files) && forall p :: 0 <= p < |s.processes| ==> ProcessOk(rel, p, s.processes[p], s.files)
  }

  /** A step of one process keeps the other processes' temp files, and never removes an installed file. */
  lemma StepFrame(rel: Release, p: nat, pr: Process, files: Files, step: Step)
    ensures var after := Stepped(rel, p, pr, files, step).1;
            && (forall asset, q, n :: q != p ==> (Temp(asset, q, n) in after <==> Temp(asset, q, n) in files))
            && (forall asset, q, n :: q != p && Temp(asset, q, n) in files ==>
                  after[Temp(asset, q, n)] == files[Temp(asset, q, n)])
            && (forall asset :: Final(asset) in files ==> Final(asset) in after)
  {
  }

  lemma StepFinals(rel: Release, p: nat, pr: Process, files: Files, step: Step)
    requires FinalsOk(rel, files) && ProcessOk(rel, p, pr, files)
    ensures FinalsOk(rel, Stepped(rel, p, pr, files, step).1)
  {
  }

  lemma StepProcess(rel: Release, p: nat, pr: Process, files: Files, step: Step)
    requires FinalsOk(rel, files) && ProcessOk(rel, p, pr, files)
    ensures ProcessOk(rel, p, Stepped(rel, p, pr, files, step).0, Stepped(rel, p, pr, files, step).1)
  {
  }

  /** What another process relies on survives a step that keeps its temp files and the installed ones. */
  lemma OthersKeepOk(rel: Release, q: nat, pr: Process, files: Files, after: Files)
    requires ProcessOk(rel, q, pr, files)
    requires forall asset, n :: Temp(asset, q, n) in files ==>
               Temp(asset, q, n) in after && after[Temp(asset, q, n)] == files[Temp(asset, q, n)]
    requires forall asset :: Final(asset) in files ==> Final(asset) in after
    ensures ProcessOk(rel, q, pr, after)
  {
  }

  lemma StepKeepsInv(rel: Release, s: State, p: nat, step: Step)
    requires p < |s.processes| && Inv(rel, s)
    ensures Inv(rel, Next(rel, s, p, step))
    ensures forall asset :: Final(asset) in s.files ==> Final(asset) in Next(rel, s, p, step).files
  {
    hide Stepped, FinalsOk, ProcessOk;
    var t := Next(rel, s, p, step);
    StepFrame(rel, p, s.processes[p], s.files, step);
    StepFinals(rel, p, s.processes[p], s.files, step);
    StepProcess(rel, p, s.processes[p], s.files, step);
    forall q | 0 <= q < |t.processes| ensures ProcessOk(rel, q, t.processes[q], t.files) {
      if q != p {
        OthersKeepOk(rel, q, s.processes[q], s.files, t.files);
      }
    }
  }

  lemma {:induction false} RunKeepsInv(rel: Release, s: State, schedule: seq<(nat, Step)>, end: State)
    requires Inv(rel, s) && Runs(rel, s, schedule, end)
    ensures Inv(rel, end) && |end.processes| == |s.processes|
    ensures forall asset :: Final(asset) in s.files ==> Final(asset) in end.files
    decreases |schedule|
  {
    hide Inv, Stepped;
    if schedule != [] {
      StepKeepsInv(rel, s, schedule[0].0, schedule[0].1);
      RunKeepsInv(rel, Next(rel, s, schedule[0].0, schedule[0].1), schedule[1..], end);
    }
  }

  /** Both files are there with the published bytes, and the binary can be executed. */
  predicate Complete(rel: Release, files: Files) {
    && Final(Msb) in files && rel.sha256(files[Final(Msb)].content) == rel.checksum(Msb)
    && files[Final(Msb)].executable
    && Final(Krun) in files && rel.sha256(files[Final(Krun)].content) == rel.checksum(Krun)
  }

  lemma InstalledIsComplete(rel: Release, s: State)
    requires Inv(rel, s)
    ensures IsInstalled(s.files) <==> Complete(rel, s.files)
    ensures Final(Msb) in s.files ==> Complete(rel, s.files)
    ensures forall p :: 0 <= p < |s.processes| && s.processes[p].pc == Returned(true) ==> Complete(rel, s.files)
  {
    forall p | 0 <= p < |s.processes| && s.processes[p].pc == Returned(true)
      ensures Complete(rel, s.files)
    {
      assert ProcessOk(rel, p, s.processes[p], s.files);
    }
  }

  lemma InitialInv(rel: Release, s: State)
    requires Initial(s)
    ensures Inv(rel, s)
  {
  }

  /**
   In every interleaving of every number of processes, crashes and failures included: the msb
   binary is there only executable, with its checksum and beside a library with its own; the
   check of an install finds exactly that; and a call returns success only then.
  */
  lemma InstallSafety(rel: Release, s: State, schedule: seq<(nat, Step)>, end: State)
    requires Initial(s) && Runs(rel, s, schedule, end)
    ensures Final(Msb) in end.files ==> Complete(rel, end.files)
    ensures Final(Krun) in end.files ==> rel.sha256(end.files[Final(Krun)].content) == rel.checksum(Krun)
    ensures IsInstalled(end.files) <==> Complete(rel, end.files)
    ensures forall p :: 0 <= p < |end.processes| && end.processes[p].pc == Returned(true) ==> Complete(rel, end.files)
  {
    hide Runs, Complete;
    InitialInv(rel, s);
    RunKeepsInv(rel, s, schedule, end);
    InstalledIsComplete(rel, end);
  }

  /** An install, once complete, is never broken by a later step of anyone. */
  lemma InstalledForGood(rel: Release, s: State, before: seq<(nat, Step)>, middle: State,
                         after: seq<(nat, Step)>, end: State)
    requires Initial(s) && Runs(rel, s, before, middle) && Runs(rel, middle, after, end)
    requires Complete(rel, middle.files)
    ensures Complete(rel, end.files)
  {
    hide Runs, Inv;
    InitialInv(rel, s);
    RunKeepsInv(rel, s, before, middle);
    RunKeepsInv(rel, middle, after, end);
    InstalledIsComplete(rel, end);
  }

  // ---- repair --------------------------------------------------------------------------

  /**
   The operation at this pc succeeds, or is a cleanup, which may fail. For a download the
   published bytes arrive; a write may reach the disk in any number of pieces first.
  */
  predicate Succeeds(rel: Release, pc: Pc, step: Step) {
    match pc
    case Returned(_) => false
    case Download(asset) => step.Fetched? && rel.Matches(asset, step.bytes)
    case Writing(_, _, _) => step.Go? || step.Wrote?
    case CleanMsb(_, _) => step.Go? || step.Fail?
    case CleanKrun(_, _) => step.Go? || step.Fail?
    case _ => step.Go?
  }

  /** Every step the schedule gives to `p` is a success. */
  ghost predicate Diligent(rel: Release, s: State, p: nat, schedule: seq<(nat, Step)>)
    decreases |schedule|
  {
    schedule == [] ||
    (&& p < |s.processes| && schedule[0].0 < |s.processes|
     && (schedule[0].0 == p ==> Succeeds(rel, s.processes[p].pc, schedule[0].1))
     && Diligent(rel, Next(rel, s, schedule[0].0, schedule[0].1), p, schedule[1..]))
  }

  /** The operations of `p`: its steps, the pieces of a write not counted. */
  function OwnSteps(p: nat, schedule: seq<(nat, Step)>): nat {
    if schedule == [] then 0
    else (if schedule[0].0 == p && !schedule[0].1.Wrote? then 1 else 0) + OwnSteps(p, schedule[1..])
  }

  const CALL_STEPS: nat := 16

  /** The most operations a call still has to do. */
  function StepsLeft(pc: Pc): (n: nat)
    ensures n == 0 <==> pc.Returned?
    ensures n <= CALL_STEPS
  {
    match pc
    case Idle => 16
    case FirstCheck => 15
    case Locking => 14
    case SecondCheck => 13
    case FetchSums => 12
    case Download(asset) => if asset.Msb? then 11 else 7
    case CreateTemp(asset, _) => if asset.Msb? then 10 else 6
    case Writing(asset, _, _) => if asset.Msb? then 9 else 5
    case SetExecutable(_) => 8
    case RenameKrun(_) => 4
    case RenameMsb(_) => 3
    case CleanMsb(_, _) => 2
    case CleanKrun(_, _) => 1
    case Returned(_) => 0
  }

  predicate Failing(pc: Pc) {
    match pc
    case CleanMsb(_, ok) => !ok
    case CleanKrun(_, ok) => !ok
    case Returned(ok) => !ok
    case _ => false
  }

  lemma SuccessAdvances(rel: Release, p: nat, pr: Process, files: Files, step: Step)
    requires ProcessOk(rel, p, pr, files) && !Failing(pr.pc) && Succeeds(rel, pr.pc, step)
    ensures var after := Stepped(rel, p, pr, files, step).0.pc;
            !Failing(after) && StepsLeft(after) + (if step.Wrote? then 0 else 1) <= StepsLeft(pr.pc)
  {
  }

  lemma {:induction false} DiligentRun(rel: Release, s: State, p: nat, schedule: seq<(nat, Step)>, end: State)
    requires Inv(rel, s) && Runs(rel, s, schedule, end) && Diligent(rel, s, p, schedule)
    requires p < |s.processes| && !Failing(s.processes[p].pc)
    ensures p < |end.processes| && !Failing(end.processes[p].pc)
    ensures OwnSteps(p, schedule) + StepsLeft(end.processes[p].pc) <= StepsLeft(s.processes[p].pc)
    decreases |schedule|
  {
    hide Stepped, ProcessOk, FinalsOk, Failing, StepsLeft, Succeeds;
    if schedule != [] {
      var q, step := schedule[0].0, schedule[0].1;
      if q == p {
        SuccessAdvances(rel, p, s.processes[p], s.files, step);
      }
      StepKeepsInv(rel, s, q, step);
      DiligentRun(rel, Next(rel, s, q, step), p, schedule[1..], end);
    }
  }

  /**
   Whatever earlier calls left behind, and whatever the others do meanwhile: a call whose own
   operations succeed does at most `CALL_STEPS` of them, and when it has returned the install is complete.
  */
  lemma Repair(rel: Release, s: State, before: seq<(nat, Step)>, middle: State, p: nat,
               call: seq<(nat, Step)>, end: State)
    requires Initial(s) && Runs(rel, s, before, middle) && Runs(rel, middle, call, end)
    requires p < |middle.processes| && middle.processes[p].pc == Idle && Diligent(rel, middle, p, call)
    ensures OwnSteps(p, call) <= CALL_STEPS && p < |end.processes|
    ensures OwnSteps(p, call) == CALL_STEPS ==> end.processes[p].pc == Returned(true)
    ensures end.processes[p].pc.Returned? ==> end.processes[p].pc.ok && Complete(rel, end.files)
  {
    hide Runs, Complete;
    InitialInv(rel, s);
    RunKeepsInv(rel, s, before, middle);
    DiligentRun(rel, middle, p, call, end);
    RunKeepsInv(rel, middle, call, end);
    InstalledIsComplete(rel, end);
  }

  /** A success at this pc that is not a piece of a write. */
  function NextSuccess(pc: Pc, published: Asset -> seq<Byte>): Step {
    if pc.Download? then Fetched(published(pc.asset)) else Go
  }

  /**
   A call that has not met a failure is never stuck: from every state of every run it can be
   finished, by itself and with success, while the published assets match their checksums.
  */
  lemma {:induction false} NeverStuck(rel: Release, s: State, p: nat, published: Asset -> seq<Byte>)
    returns (schedule: seq<(nat, Step)>, end: State)
    requires Inv(rel, s) && p < |s.processes| && !Failing(s.processes[p].pc)
    requires forall asset :: rel.Matches(asset, published(asset))
    ensures Runs(rel, s, schedule, end) && Diligent(rel, s, p, schedule)
    ensures forall i :: 0 <= i < |schedule| ==> schedule[i].0 == p
    ensures p < |end.processes| && end.processes[p].pc == Returned(true) && Complete(rel, end.files)
    decreases StepsLeft(s.processes[p].pc)
  {
    hide Stepped, Failing, StepsLeft, Succeeds, Complete;
    var pr := s.processes[p];
    assert ProcessOk(rel, p, pr, s.files);
    if pr.pc.Returned? {
      schedule, end := [], s;
      NotFailing(pr.pc);
      InstalledIsComplete(rel, s);
    } else {
      var step := NextSuccess(pr.pc, published);
      NextSucceeds(rel, pr.pc, published);
      SuccessAdvances(rel, p, pr, s.files, step);
      StepKeepsInv(rel, s, p, step);
      var later;
      later, end := NeverStuck(rel, Next(rel, s, p, step), p, published);
      schedule := [(p, step)] + later;
      assert schedule[1..] == later;
    }
  }

  lemma NotFailing(pc: Pc)
    requires pc.Returned? && !Failing(pc)
    ensures pc == Returned(true)
  {
  }

  lemma NextSucceeds(rel: Release, pc: Pc, published: Asset -> seq<Byte>)
    requires !pc.Returned? && forall asset :: rel.Matches(asset, published(asset))
    ensures Succeeds(rel, pc, NextSuccess(pc, published)) && !NextSuccess(pc, published).Wrote?
  {
  }
}
