/**
 The registry told by the steps alone: who last renamed or deleted what, and what a read or a
 listing must therefore find, without a look at the state it is judged against.
*/
module RegistryHistory {
  import opened Wrappers
  import opened RegistryNames
  import opened Registry

  datatype Draft = Draft(name: Text, id: FileId, entry: Entry)

  /**
   What a list of steps amounts to: each process's latest draft, the temp files started and not
   renamed, the entry that the last rename or delete of each name left, what each process's latest
   open of a name must give, and for its latest listing the paths and what opening each must give.
  */
  datatype Ledger = Ledger(
    drafts: map<nat, Draft>,
    temps: set<Path>,
    table: map<Text, Entry>,
    asked: map<nat, Option<Entry>>,
    listing: map<nat, seq<Path>>,
    told: map<nat, seq<Option<Entry>>>)

  const BLANK := Ledger(map[], {}, map[], map[], map[], map[])

  function Entered(l: Ledger, name: Text): Option<Entry> {
    if name in l.table then Some(l.table[name]) else None
  }

  /** A listing's next path: an entry by its name is looked up, anything else gives nothing. */
  function Looked(l: Ledger, p: nat): Option<Entry> {
    if p in l.listing && p in l.told && |l.told[p]| < |l.listing[p]| then
      match l.listing[p][|l.told[p]|]
      case Final(name) => if name == [] then None else Entered(l, name)
      case Temp(_, _) => None
    else None
  }

  function Recorded(l: Ledger, p: nat, step: Step): Ledger {
    match step
    case StartWrite(name, id, entry) =>
      l.(drafts := l.drafts[p := Draft(name, id, entry)], temps := l.temps + {Temp(name, id)})
    case Rename =>
      if p in l.drafts then
        l.(table := l.table[l.drafts[p].name := l.drafts[p].entry],
           temps := l.temps - {Temp(l.drafts[p].name, l.drafts[p].id)})
      else l
    case Delete(name) => l.(table := l.table - {name})
    case Open(name) => l.(asked := l.asked[p := Entered(l, name)])
    case ReadDir(order) => l.(listing := l.listing[p := order], told := l.told[p := []])
    case OpenNext => if p in l.told then l.(told := l.told[p := l.told[p] + [Looked(l, p)]]) else l
    case _ => l
  }

  function History(schedule: seq<(nat, Step)>): Ledger {
    if schedule == [] then BLANK
    else
      var last := |schedule| - 1;
      Recorded(History(schedule[..last]), schedule[last].0, schedule[last].1)
  }

  // ---- the state agrees with it ----------------------------------------------------------

  ghost predicate ProcessAgrees(l: Ledger, p: nat, me: Process) {
    match me
    case Idle => true
    case Filling(name, id, entry, _) => p in l.drafts && l.drafts[p] == Draft(name, id, entry)
    case Reading(_, _, _, seen, part) =>
      if part.None? then p in l.asked && seen == l.asked[p]
      else
        && p in l.listing && part.value.dir == l.listing[p]
        && p in l.told && l.told[p] == part.value.said + [seen]
    case HasRead(_, _, seen) => p in l.asked && seen == l.asked[p]
    case Scanning(scan) => p in l.listing && scan.dir == l.listing[p] && p in l.told && l.told[p] == scan.said
  }

  ghost predicate Agrees(l: Ledger, s: State) {
    && s.last == l.table
    && (forall name, id :: Temp(name, id) in s.names <==> Temp(name, id) in l.temps)
    && forall p :: 0 <= p < |s.processes| ==> ProcessAgrees(l, p, s.processes[p])
  }

  lemma ScanOfProcess(c: Codec, s: State, p: nat)
    requires Inv(c, s) && p < |s.processes|
    ensures s.processes[p].Scanning? ==> ScanOk(s.processes[p].scan)
  {
    hide HistoryOk, EntryOk, ScanOk;
    assert ProcessOk(c, s, p, s.processes[p]);
  }

  lemma OpenAgrees(c: Codec, s: State, l: Ledger, p: nat)
    requires Inv(c, s) && Agrees(l, s) && p < |s.processes| && Enabled(c, s, p, OpenNext)
    ensures ProcessAgrees(Recorded(l, p, OpenNext), p, Next(c, s, p, OpenNext).processes[p])
  {
    var scan := s.processes[p].scan;
    assert ProcessAgrees(l, p, s.processes[p]);
    ScanOfProcess(c, s, p);
    ListedExactly(scan.dir[scan.done]);
    hide Listed, FileName, Inv, Somes;
  }

  lemma OwnStepAgrees(c: Codec, s: State, l: Ledger, p: nat, step: Step)
    requires Inv(c, s) && Agrees(l, s) && p < |s.processes| && Enabled(c, s, p, step)
    ensures ProcessAgrees(Recorded(l, p, step), p, Next(c, s, p, step).processes[p])
  {
    assert ProcessAgrees(l, p, s.processes[p]);
    if step.OpenNext? {
      OpenAgrees(c, s, l, p);
    }
    hide Listed, FileName, Inv, Registry.Opened, Looked;
  }

  lemma OthersStillAgree(l: Ledger, p: nat, step: Step, q: nat, me: Process)
    requires ProcessAgrees(l, q, me) && q != p
    ensures ProcessAgrees(Recorded(l, p, step), q, me)
  {
  }

  lemma TableAgrees(c: Codec, s: State, l: Ledger, p: nat, step: Step)
    requires Agrees(l, s) && p < |s.processes| && Enabled(c, s, p, step)
    requires step.Rename? ==> s.processes[p].Filling? && Temp(s.processes[p].name, s.processes[p].id) in s.names
    ensures Next(c, s, p, step).last == Recorded(l, p, step).table
    ensures forall name, id :: Temp(name, id) in Next(c, s, p, step).names
                          <==> Temp(name, id) in Recorded(l, p, step).temps
    ensures |Next(c, s, p, step).processes| == |s.processes|
    ensures forall q :: 0 <= q < |s.processes| && q != p ==> Next(c, s, p, step).processes[q] == s.processes[q]
  {
    assert ProcessAgrees(l, p, s.processes[p]);
    hide Listed, FileName, Looked, Registry.Opened;
  }

  lemma StepAgrees(c: Codec, s: State, l: Ledger, p: nat, step: Step)
    requires Inv(c, s) && Agrees(l, s) && p < |s.processes| && Enabled(c, s, p, step)
    ensures Agrees(Recorded(l, p, step), Next(c, s, p, step))
  {
    OwnStepAgrees(c, s, l, p, step);
    TableAgrees(c, s, l, p, step);
    hide Inv, Next, Recorded, ProcessAgrees;
    var t := Next(c, s, p, step);
    forall q | 0 <= q < |t.processes| ensures ProcessAgrees(Recorded(l, p, step), q, t.processes[q]) {
      if q != p {
        OthersStillAgree(l, p, step, q, s.processes[q]);
      }
    }
  }

  lemma {:induction false} RunsLast(c: Codec, s: State, schedule: seq<(nat, Step)>, end: State) returns (before: State)
    requires schedule != [] && Runs(c, s, schedule, end)
    ensures var (p, step) := schedule[|schedule| - 1];
            && Runs(c, s, schedule[..|schedule| - 1], before)
            && p < |before.processes| && Enabled(c, before, p, step) && end == Next(c, before, p, step)
    decreases |schedule|
  {
    hide Enabled, Next;
    if |schedule| == 1 {
      before := s;
    } else {
      before := RunsLast(c, Next(c, s, schedule[0].0, schedule[0].1), schedule[1..], end);
      assert schedule[..|schedule| - 1][1..] == schedule[1..][..|schedule| - 2];
      assert schedule[1..][|schedule| - 2] == schedule[|schedule| - 1];
    }
  }

  lemma {:induction false} RunAgrees(c: Codec, s: State, schedule: seq<(nat, Step)>, end: State)
    requires c.Faithful() && Initial(s) && Runs(c, s, schedule, end)
    ensures Inv(c, end) && Agrees(History(schedule), end)
    decreases |schedule|
  {
    hide Enabled, Next, Recorded;
    if schedule == [] {
      RunKeepsInv(c, s, schedule, end);
    } else {
      hide Inv, Agrees, Runs;
      var n := |schedule| - 1;
      var before := RunsLast(c, s, schedule, end);
      RunAgrees(c, s, schedule[..n], before);
      StepAgrees(c, before, History(schedule[..n]), schedule[n].0, schedule[n].1);
      StepKeepsInv(c, before, schedule[n].0, schedule[n].1);
    }
  }

  // ---- what that means -------------------------------------------------------------------

  /** However it was split and raced, a finished read gives what the steps before its open amount to. */
  lemma ReadsFollowTheSteps(c: Codec, s: State, schedule: seq<(nat, Step)>, end: State, p: nat)
    requires c.Faithful() && Initial(s) && Runs(c, s, schedule, end)
    requires p < |end.processes| && end.processes[p].HasRead?
    ensures var l := History(schedule); p in l.asked && end.processes[p].result == l.asked[p]
  {
    hide Runs, EntryOk, History;
    RunAgrees(c, s, schedule, end);
    assert ProcessOk(c, end, p, end.processes[p]) && ProcessAgrees(History(schedule), p, end.processes[p]);
  }

  /** A listing has found, path by path, what the steps before each open amount to. */
  lemma ListingsFollowTheSteps(c: Codec, s: State, schedule: seq<(nat, Step)>, end: State, p: nat)
    requires c.Faithful() && Initial(s) && Runs(c, s, schedule, end)
    requires p < |end.processes| && end.processes[p].Scanning?
    ensures var l := History(schedule);
            && p in l.listing && p in l.told && end.processes[p].scan.dir == l.listing[p]
            && end.processes[p].scan.found == Somes(l.told[p])
  {
    hide Runs, EntryOk, History, Somes;
    RunAgrees(c, s, schedule, end);
    assert ProcessOk(c, end, p, end.processes[p]) && ProcessAgrees(History(schedule), p, end.processes[p]);
  }

  /**
   The directory holds exactly what the steps amount to: the entries, each complete, and the temp
   files of writes that were started and not renamed.
  */
  lemma DirectoryFollowsTheSteps(c: Codec, s: State, schedule: seq<(nat, Step)>, end: State, path: Path)
    requires c.Faithful() && Initial(s) && Runs(c, s, schedule, end)
    ensures var l := History(schedule);
            && (path in end.names <==> if path.Final? then path.name in l.table else path in l.temps)
            && (path in end.names && path.Final? ==>
                  end.names[path] in end.data && c.decode(end.data[end.names[path]]) == Some(l.table[path.name]))
  {
    hide Runs, ProcessOk, History, ProcessAgrees;
    RunAgrees(c, s, schedule, end);
    assert EntryOk(c, end, path.name);
  }

  // ---- the last rename or delete ---------------------------------------------------------

  /** Step `j` renames a draft of this name into place. */
  predicate RenamesAt(schedule: seq<(nat, Step)>, j: nat, name: Text)
    requires j < |schedule|
  {
    var l := History(schedule[..j]);
    schedule[j].1.Rename? && schedule[j].0 in l.drafts && l.drafts[schedule[j].0].name == name
  }

  predicate ChangesAt(schedule: seq<(nat, Step)>, j: nat, name: Text)
    requires j < |schedule|
  {
    schedule[j].1 == Delete(name) || RenamesAt(schedule, j, name)
  }

  lemma DraftOfTheStep(l: Ledger, p: nat, q: nat, step: Step)
    ensures q == p && step.StartWrite? ==>
              var after := Recorded(l, q, step).drafts;
              p in after && after[p] == Draft(step.name, step.id, step.entry)
    ensures p in l.drafts && !(q == p && step.StartWrite?) ==>
              p in Recorded(l, q, step).drafts && Recorded(l, q, step).drafts[p] == l.drafts[p]
  {
  }

  /** A draft is the process's latest write. */
  lemma {:induction false} DraftIsTheLatestWrite(schedule: seq<(nat, Step)>, i: nat, p: nat, name: Text, id: FileId,
                                                 entry: Entry)
    requires i < |schedule| && schedule[i] == (p, StartWrite(name, id, entry))
    requires forall j :: i < j < |schedule| ==> !(schedule[j].0 == p && schedule[j].1.StartWrite?)
    ensures p in History(schedule).drafts && History(schedule).drafts[p] == Draft(name, id, entry)
  {
    hide Recorded;
    var n := |schedule| - 1;
    DraftOfTheStep(History(schedule[..n]), p, schedule[n].0, schedule[n].1);
    if i < n {
      DraftIsTheLatestWrite(schedule[..n], i, p, name, id, entry);
    }
  }

  lemma {:induction false} UnchangedSince(schedule: seq<(nat, Step)>, i: nat, name: Text)
    requires i <= |schedule| && forall j :: i <= j < |schedule| ==> !ChangesAt(schedule, j, name)
    ensures Entered(History(schedule), name) == Entered(History(schedule[..i]), name)
    decreases |schedule|
  {
    if i == |schedule| {
      assert schedule[..i] == schedule;
    } else {
      var n := |schedule| - 1;
      assert !ChangesAt(schedule, n, name);
      forall j | i <= j < n ensures !ChangesAt(schedule[..n], j, name) {
        assert schedule[..n][..j] == schedule[..j];
        assert !ChangesAt(schedule, j, name);
      }
      assert schedule[..n][..i] == schedule[..i];
      UnchangedSince(schedule[..n], i, name);
    }
  }

  lemma ChangeIsEntered(schedule: seq<(nat, Step)>, i: nat, name: Text)
    requires i < |schedule| && ChangesAt(schedule, i, name)
    ensures Entered(History(schedule[..i + 1]), name) == Left(schedule, i)
  {
    assert schedule[..i + 1][..i] == schedule[..i];
  }

  /** What a rename or a delete leaves: the draft of the process that renames, or nothing. */
  function Left(schedule: seq<(nat, Step)>, i: nat): Option<Entry>
    requires i < |schedule|
  {
    var drafts := History(schedule[..i]).drafts;
    if schedule[i].1.Rename? && schedule[i].0 in drafts then Some(drafts[schedule[i].0].entry) else None
  }

  /** Step `i` is the last of the steps before `n` that renames or deletes the name. */
  ghost predicate LastChange(schedule: seq<(nat, Step)>, n: nat, i: nat, name: Text)
    requires n <= |schedule|
  {
    i < n && ChangesAt(schedule, i, name) && forall j :: i < j < n ==> !ChangesAt(schedule, j, name)
  }

  /** After the steps before `n`, a name has what its last rename or delete left. */
  lemma LastChangeDecides(schedule: seq<(nat, Step)>, n: nat, i: nat, name: Text)
    requires n <= |schedule| && LastChange(schedule, n, i, name)
    ensures Entered(History(schedule[..n]), name) == Left(schedule, i)
  {
    hide History, ChangesAt, Left, Entered;
    ChangeIsEntered(schedule, i, name);
    NoChangeInPrefix(schedule, i + 1, n, name);
    UnchangedSince(schedule[..n], i + 1, name);
    assert schedule[..n][..i + 1] == schedule[..i + 1];
  }

  lemma NeverChanged(schedule: seq<(nat, Step)>, n: nat, name: Text)
    requires n <= |schedule| && forall j :: 0 <= j < n ==> !ChangesAt(schedule, j, name)
    ensures Entered(History(schedule[..n]), name) == None
  {
    hide ChangesAt;
    NoChangeInPrefix(schedule, 0, n, name);
    UnchangedSince(schedule[..n], 0, name);
    assert schedule[..n][..0] == [];
  }

  lemma NoChangeInPrefix(schedule: seq<(nat, Step)>, i: nat, o: nat, name: Text)
    requires i <= o <= |schedule| && forall j :: i <= j < o ==> !ChangesAt(schedule, j, name)
    ensures forall j :: i <= j < o ==> !ChangesAt(schedule[..o], j, name)
  {
    forall j | i <= j < o ensures !ChangesAt(schedule[..o], j, name) {
      assert schedule[..o][..j] == schedule[..j];
      assert !ChangesAt(schedule, j, name);
    }
  }

  lemma AskedOfTheStep(l: Ledger, p: nat, name: Text, q: nat, step: Step)
    ensures q == p && step == Open(name) ==>
              p in Recorded(l, q, step).asked && Recorded(l, q, step).asked[p] == Entered(l, name)
    ensures p in l.asked && !(q == p && step.Open?) ==>
              p in Recorded(l, q, step).asked && Recorded(l, q, step).asked[p] == l.asked[p]
  {
  }

  lemma {:induction false} AskedAtTheOpen(schedule: seq<(nat, Step)>, p: nat, name: Text, o: nat)
    requires o < |schedule| && schedule[o] == (p, Open(name))
    requires forall j :: o < j < |schedule| ==> !(schedule[j].0 == p && schedule[j].1.Open?)
    ensures p in History(schedule).asked && History(schedule).asked[p] == Entered(History(schedule[..o]), name)
    decreases |schedule|
  {
    hide Recorded, Entered;
    var n := |schedule| - 1;
    AskedOfTheStep(History(schedule[..n]), p, name, schedule[n].0, schedule[n].1);
    if o < n {
      AskedAtTheOpen(schedule[..n], p, name, o);
      assert schedule[..n][..o] == schedule[..o];
    }
  }

  /**
   A read gives what the last rename or delete of its name before its open left: the draft that
   was renamed, or nothing after a delete; and nothing when there was neither.
  */
  lemma {:induction false} ReadAfterTheLastChange(c: Codec, s: State, schedule: seq<(nat, Step)>, end: State,
                                                  p: nat, name: Text, o: nat)
    requires c.Faithful() && Initial(s) && Runs(c, s, schedule, end)
    requires p < |end.processes| && end.processes[p].HasRead?
    requires o < |schedule| && schedule[o] == (p, Open(name))
    requires forall j :: o < j < |schedule| ==> !(schedule[j].0 == p && schedule[j].1.Open?)
    ensures forall i :: LastChange(schedule, o, i, name) ==> end.processes[p].result == Left(schedule, i)
    ensures (forall j :: 0 <= j < o ==> !ChangesAt(schedule, j, name)) ==> end.processes[p].result == None
  {
    hide Runs, History, ChangesAt, Left;
    ReadsFollowTheSteps(c, s, schedule, end, p);
    AskedAtTheOpen(schedule, p, name, o);
    forall i | LastChange(schedule, o, i, name) ensures end.processes[p].result == Left(schedule, i) {
      LastChangeDecides(schedule, o, i, name);
    }
    if forall j :: 0 <= j < o ==> !ChangesAt(schedule, j, name) {
      NeverChanged(schedule, o, name);
    }
  }

  /** The directory names an entry exactly when the last rename or delete of its name was a rename. */
  lemma {:induction false} NamedAfterTheLastChange(c: Codec, s: State, schedule: seq<(nat, Step)>, end: State,
                                                   name: Text, i: nat)
    requires c.Faithful() && Initial(s) && Runs(c, s, schedule, end)
    requires LastChange(schedule, |schedule|, i, name)
    ensures schedule[i].1 == Delete(name) ==> Final(name) !in end.names
    ensures schedule[i].1 == Rename ==>
              && Final(name) in end.names && end.names[Final(name)] in end.data
              && c.decode(end.data[end.names[Final(name)]]) == Left(schedule, i)
  {
    hide Runs, History, LastChange;
    DirectoryFollowsTheSteps(c, s, schedule, end, Final(name));
    LastChangeDecides(schedule, |schedule|, i, name);
    assert schedule[..|schedule|] == schedule;
    RenameLeavesTheDraft(schedule, i, name);
  }

  lemma RenameLeavesTheDraft(schedule: seq<(nat, Step)>, i: nat, name: Text)
    requires LastChange(schedule, |schedule|, i, name)
    ensures schedule[i].1 == Rename ==> Left(schedule, i).Some?
    ensures schedule[i].1 == Delete(name) ==> Left(schedule, i) == None
  {
    hide History;
  }
}
