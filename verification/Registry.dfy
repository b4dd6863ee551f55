/**
 The named-checkpoint registry: any number of processes that write entries through temp files
 and renames, read, list and delete them, and crash, in every interleaving. A file stays the
 same file when it is renamed or when its name is taken by another.
*/
module Registry {
  import opened Wrappers
  import opened Wire
  import opened RegistryNames

  /** One write of an entry, which makes one file. */
  type FileId = Suffix

  datatype Entry = Entry(name: Text, checkpointRef: string, backend: string, createdIso: string, spec: string)

  /** The JSON serializer and parser. */
  datatype Codec = Codec(encode: Entry -> seq<Byte>, decode: seq<Byte> -> Option<Entry>) {
    ghost predicate Faithful() {
      forall e :: decode(encode(e)) == Some(e)
    }
  }

  /**
   A listing: the directory's paths as read, how many are dealt with, the entries found so far,
   and, for each path, what the registry said of it when it was opened.
  */
  datatype Scan = Scan(dir: seq<Path>, done: nat, found: seq<Entry>, said: seq<Option<Entry>>)

  /**
   Where a process is; `seen` records what the registry said when a read opened the file, and
   `part` is the listing that a read is part of.
  */
  datatype Process =
    | Idle
    | Filling(name: Text, id: FileId, entry: Entry, upTo: nat)
    | Reading(name: Text, id: FileId, got: seq<Byte>, seen: Option<Entry>, part: Option<Scan>)
    | HasRead(name: Text, result: Option<Entry>, seen: Option<Entry>)
    | Scanning(scan: Scan)

  datatype State = State(
    names: map<Path, FileId>,
    data: map<FileId, seq<Byte>>,
    makers: map<FileId, nat>,       // history: which process made a file
    renamed: set<FileId>,           // history: the files that have become entries
    last: map<Text, Entry>,         // history: the entry each name's last rename or delete left
    processes: seq<Process>)

  datatype Step =
    | StartWrite(name: Text, id: FileId, entry: Entry)
    | WriteMore(upTo: nat)
    | Rename
    | Open(name: Text)
    | ReadMore(count: nat)
    | EndOfFile
    | Delete(name: Text)
    | ReadDir(order: seq<Path>)
    | OpenNext
    | Stop                          // the call returns, fails or its process dies; nothing is cleaned up

  ghost predicate Initial(s: State) {
    && s.names == map[] && s.data == map[] && s.makers == map[] && s.renamed == {} && s.last == map[]
    && forall p :: 0 <= p < |s.processes| ==> s.processes[p] == Idle
  }

  ghost predicate Enabled(c: Codec, s: State, p: nat, step: Step)
    requires p < |s.processes|
  {
    var me := s.processes[p];
    match step
    case StartWrite(name, id, _) => me.Idle? && id !in s.data
    case WriteMore(upTo) => me.Filling? && me.id in s.data && me.upTo <= upTo <= |c.encode(me.entry)|
    case Rename =>
      me.Filling? && me.upTo == |c.encode(me.entry)| && Temp(me.name, me.id) in s.names
    case Open(_) => me.Idle?
    case ReadMore(count) => me.Reading? && me.id in s.data && |me.got| + count <= |s.data[me.id]|
    case EndOfFile => me.Reading? && me.id in s.data && |me.got| == |s.data[me.id]|
    case Delete(_) => me.Idle?
    case ReadDir(order) => me.Idle? && forall path :: path in order <==> path in s.names
    case OpenNext => me.Scanning? && me.scan.done < |me.scan.dir|
    case Stop => true
  }

  /** What the last rename or delete left under a name. */
  function Said(s: State, name: Text): Option<Entry> {
    if name in s.last then Some(s.last[name]) else None
  }

  /** One more path dealt with: what was found in it and what the registry said of it. */
  function Advanced(scan: Scan, found: Option<Entry>, said: Option<Entry>): Scan {
    scan.(done := scan.done + 1, found := scan.found + (if found.Some? then [found.value] else []),
          said := scan.said + [said])
  }

  /** The listing's next path: not an entry by its name, gone by now, or opened. */
  function Opened(s: State, scan: Scan): Process
    requires scan.done < |scan.dir|
  {
    var path := scan.dir[scan.done];
    if !Listed(FileName(path)) then Scanning(Advanced(scan, None, None))
    else if path !in s.names then Scanning(Advanced(scan, None, Said(s, path.name)))
    else Reading(path.name, s.names[path], [], Said(s, path.name), Some(scan))
  }

  function Next(c: Codec, s: State, p: nat, step: Step): State
    requires p < |s.processes|
  {
    var me := s.processes[p];
    match step
    case StartWrite(name, id, entry) =>
      s.(names := s.names[Temp(name, id) := id], data := s.data[id := []], makers := s.makers[id := p],
         processes := s.processes[p := Filling(name, id, entry, 0)])
    case WriteMore(upTo) =>
      if me.Filling? && upTo <= |c.encode(me.entry)| then
        s.(data := s.data[me.id := c.encode(me.entry)[..upTo]], processes := s.processes[p := me.(upTo := upTo)])
      else s
    case Rename =>
      if me.Filling? && Temp(me.name, me.id) in s.names then
        s.(names := (s.names - {Temp(me.name, me.id)})[Final(me.name) := s.names[Temp(me.name, me.id)]],
           renamed := s.renamed + {me.id}, last := s.last[me.name := me.entry], processes := s.processes[p := Idle])
      else s
    case Open(name) =>
      s.(processes := s.processes[p := if Final(name) in s.names then
                                         Reading(name, s.names[Final(name)], [], Said(s, name), None)
                                       else HasRead(name, None, Said(s, name))])
    case ReadMore(count) =>
      if me.Reading? && me.id in s.data && |me.got| + count <= |s.data[me.id]| then
        s.(processes := s.processes[p := me.(got := me.got + s.data[me.id][|me.got|..|me.got| + count])])
      else s
    case EndOfFile =>
      if me.Reading? then
        var result := c.decode(me.got);
        s.(processes := s.processes[p := if me.part.Some? then Scanning(Advanced(me.part.value, result, me.seen))
                                         else HasRead(me.name, result, me.seen)])
      else s
    case Delete(name) => s.(names := s.names - {Final(name)}, last := s.last - {name})
    case ReadDir(order) => s.(processes := s.processes[p := Scanning(Scan(order, 0, [], []))])
    case OpenNext =>
      if me.Scanning? && me.scan.done < |me.scan.dir| then s.(processes := s.processes[p := Opened(s, me.scan)]) else s
    case Stop => s.(processes := s.processes[p := Idle])
  }

  ghost predicate Runs(c: Codec, s: State, schedule: seq<(nat, Step)>, end: State)
    decreases |schedule|
  {
    if schedule == [] then end == s
    else
      && schedule[0].0 < |s.processes| && Enabled(c, s, schedule[0].0, schedule[0].1)
      && Runs(c, Next(c, s, schedule[0].0, schedule[0].1), schedule[1..], end)
  }

  // ---- what every step keeps -----------------------------------------------------------

  /** A file that is complete for good. */
  ghost predicate Complete(c: Codec, s: State, id: FileId, entry: Entry) {
    id in s.renamed && id in s.data && s.data[id] == c.encode(entry)
  }

  ghost predicate EntryOk(c: Codec, s: State, name: Text) {
    && (name in s.last <==> Final(name) in s.names)
    && (name in s.last ==> Complete(c, s, s.names[Final(name)], s.last[name]))
  }

  /** The entries among some answers, in order. */
  function Somes(said: seq<Option<Entry>>): seq<Entry> {
    if said == [] then []
    else
      var last := said[|said| - 1];
      Somes(said[..|said| - 1]) + if last.Some? then [last.value] else []
  }

  /** Path by path, the listing found what the registry said, and nothing for a path that is no entry. */
  ghost predicate ScanOk(scan: Scan) {
    && scan.done <= |scan.dir| && |scan.said| == scan.done && scan.found == Somes(scan.said)
    && forall i :: 0 <= i < scan.done && !Listed(FileName(scan.dir[i])) ==> scan.said[i] == None
  }

  ghost predicate ProcessOk(c: Codec, s: State, p: nat, me: Process) {
    match me
    case Idle => true
    case Filling(name, id, entry, upTo) =>
      && id in s.data && id in s.makers && s.makers[id] == p && id !in s.renamed
      && upTo <= |c.encode(entry)| && s.data[id] == c.encode(entry)[..upTo]
      && Temp(name, id) in s.names && s.names[Temp(name, id)] == id
    case Reading(_, id, got, seen, part) =>
      && seen.Some? && Complete(c, s, id, seen.value) && got <= c.encode(seen.value)
      && (part.Some? ==>
            ScanOk(part.value) && part.value.done < |part.value.dir|
            && Listed(FileName(part.value.dir[part.value.done])))
    case HasRead(_, result, seen) => result == seen
    case Scanning(scan) => ScanOk(scan)
  }

  predicate HistoryOk(s: State) {
    s.makers.Keys == s.data.Keys && s.renamed <= s.data.Keys
  }

  ghost predicate Inv(c: Codec, s: State) {
    && HistoryOk(s)
    && (forall name :: EntryOk(c, s, name))
    && forall p :: 0 <= p < |s.processes| ==> ProcessOk(c, s, p, s.processes[p])
  }

  /** No step touches a file that has been renamed, or another process's unfinished one. */
  ghost predicate Frame(s: State, t: State, p: nat) {
    && s.renamed <= t.renamed
    && (forall id :: id in s.data ==> id in t.data)
    && (forall id :: id in s.data && id in s.renamed ==> t.data[id] == s.data[id])
    && (forall id :: id in s.data && id in s.makers && s.makers[id] != p ==>
          && t.data[id] == s.data[id] && id in t.makers && t.makers[id] == s.makers[id]
          && (id in t.renamed ==> id in s.renamed))
    && (forall name, id :: Temp(name, id) in s.names && id in s.makers && s.makers[id] != p ==>
          Temp(name, id) in t.names && t.names[Temp(name, id)] == s.names[Temp(name, id)])
  }

  lemma StepFrame(c: Codec, s: State, p: nat, step: Step)
    requires p < |s.processes| && Enabled(c, s, p, step)
    requires HistoryOk(s) && ProcessOk(c, s, p, s.processes[p])
    ensures Frame(s, Next(c, s, p, step), p)
  {
  }

  lemma OthersKeepOk(c: Codec, s: State, t: State, p: nat, q: nat, other: Process)
    requires Frame(s, t, p) && q != p && ProcessOk(c, s, q, other)
    ensures ProcessOk(c, t, q, other)
  {
  }

  lemma ScanBegins(order: seq<Path>)
    ensures ScanOk(Scan(order, 0, [], []))
  {
  }

  lemma AdvanceKeepsOk(scan: Scan, said: Option<Entry>)
    requires ScanOk(scan) && scan.done < |scan.dir|
    requires !Listed(FileName(scan.dir[scan.done])) ==> said == None
    ensures ScanOk(Advanced(scan, said, said))
  {
    hide Listed, FileName;
    assert (scan.said + [said])[..|scan.said|] == scan.said;
  }

  lemma OpenKeepsOk(c: Codec, s: State, scan: Scan)
    requires ScanOk(scan) && scan.done < |scan.dir| && forall name :: EntryOk(c, s, name)
    ensures var me := Opened(s, scan);
            match me
            case Scanning(later) => ScanOk(later)
            case Reading(_, id, got, seen, part) =>
              seen.Some? && Complete(c, s, id, seen.value) && got == [] && part == Some(scan)
              && Listed(FileName(scan.dir[scan.done]))
            case _ => false
  {
    var path := scan.dir[scan.done];
    ListedExactly(path);
    hide Listed, FileName, Somes;
    assert EntryOk(c, s, path.name);
    if path !in s.names || !Listed(FileName(path)) {
      AdvanceKeepsOk(scan, None);
    }
  }

  lemma StepProcess(c: Codec, s: State, p: nat, step: Step)
    requires c.Faithful() && p < |s.processes| && Enabled(c, s, p, step)
    requires HistoryOk(s) && ProcessOk(c, s, p, s.processes[p]) && forall name :: EntryOk(c, s, name)
    ensures ProcessOk(c, Next(c, s, p, step), p, Next(c, s, p, step).processes[p])
  {
    hide Listed, FileName, Somes;
    var me := s.processes[p];
    if step.Open? {
      assert EntryOk(c, s, step.name);
    } else if step.EndOfFile? {
      assert me.got == c.encode(me.seen.value);
      if me.part.Some? {
        AdvanceKeepsOk(me.part.value, me.seen);
      }
    } else if step.OpenNext? {
      OpenKeepsOk(c, s, me.scan);
    } else if step.ReadDir? {
      ScanBegins(step.order);
    }
  }

  lemma StepEntry(c: Codec, s: State, p: nat, step: Step, name: Text)
    requires p < |s.processes| && Enabled(c, s, p, step)
    requires ProcessOk(c, s, p, s.processes[p]) && EntryOk(c, s, name) && HistoryOk(s)
    ensures EntryOk(c, Next(c, s, p, step), name) && HistoryOk(Next(c, s, p, step))
  {
  }

  lemma StepKeepsInv(c: Codec, s: State, p: nat, step: Step)
    requires c.Faithful() && Inv(c, s) && p < |s.processes| && Enabled(c, s, p, step)
    ensures Inv(c, Next(c, s, p, step))
  {
    hide Enabled, EntryOk, ProcessOk, Frame, HistoryOk;
    var t := Next(c, s, p, step);
    StepFrame(c, s, p, step);
    StepProcess(c, s, p, step);
    forall name: Text ensures EntryOk(c, t, name) {
      StepEntry(c, s, p, step, name);
    }
    StepEntry(c, s, p, step, []);
    forall q | 0 <= q < |t.processes| ensures ProcessOk(c, t, q, t.processes[q]) {
      if q != p {
        OthersKeepOk(c, s, t, p, q, s.processes[q]);
      }
    }
  }

  lemma {:induction false} RunKeepsInv(c: Codec, s: State, schedule: seq<(nat, Step)>, end: State)
    requires c.Faithful() && Inv(c, s) && Runs(c, s, schedule, end)
    ensures Inv(c, end)
    decreases |schedule|
  {
    hide Inv, Enabled, Next;
    if schedule != [] {
      StepKeepsInv(c, s, schedule[0].0, schedule[0].1);
      RunKeepsInv(c, Next(c, s, schedule[0].0, schedule[0].1), schedule[1..], end);
    }
  }

  /**
   However writers, readers, deleters and crashes interleave: a read returns exactly what the
   last rename or delete before its open left under that name, never part of an entry.
  */
  lemma ReadsAreAtomic(c: Codec, s: State, schedule: seq<(nat, Step)>, end: State, p: nat)
    requires c.Faithful() && Initial(s) && Runs(c, s, schedule, end)
    requires p < |end.processes| && end.processes[p].HasRead?
    ensures end.processes[p].result == end.processes[p].seen
  {
    RunKeepsInv(c, s, schedule, end);
    assert ProcessOk(c, end, p, end.processes[p]);
  }

  /**
   A finished listing returns, path by path of the directory it read, exactly what the registry
   said of that path when it was opened; a temp file contributes nothing.
  */
  lemma ListingsAreFaithful(c: Codec, s: State, schedule: seq<(nat, Step)>, end: State, p: nat)
    requires c.Faithful() && Initial(s) && Runs(c, s, schedule, end)
    requires p < |end.processes| && end.processes[p].Scanning?
    ensures var scan := end.processes[p].scan;
            && scan.done <= |scan.dir| && |scan.said| == scan.done && scan.found == Somes(scan.said)
            && forall i :: 0 <= i < scan.done && scan.dir[i].Temp? ==> scan.said[i] == None
  {
    RunKeepsInv(c, s, schedule, end);
    assert ProcessOk(c, end, p, end.processes[p]);
    var scan := end.processes[p].scan;
    forall i | 0 <= i < scan.done && scan.dir[i].Temp? ensures scan.said[i] == None {
      ListedExactly(scan.dir[i]);
    }
  }

  /** And every entry the last renames left is there to be listed, complete and parseable. */
  lemma LastEntriesAreListed(c: Codec, s: State, schedule: seq<(nat, Step)>, end: State, name: Text)
    requires c.Faithful() && Initial(s) && Runs(c, s, schedule, end)
    requires name in end.last && name != []
    ensures Final(name) in end.names && Listed(FileName(Final(name)))
    ensures end.names[Final(name)] in end.data && c.decode(end.data[end.names[Final(name)]]) == Some(end.last[name])
  {
    RunKeepsInv(c, s, schedule, end);
    ListedExactly(Final(name));
    assert EntryOk(c, end, name);
  }

  /**
   At any moment what the listing's filter picks out of the directory are entries that the last
   renames left, each complete and parseable, and no temp file.
  */
  lemma EntriesAreComplete(c: Codec, s: State, schedule: seq<(nat, Step)>, end: State, path: Path)
    requires c.Faithful() && Initial(s) && Runs(c, s, schedule, end)
    requires path in end.names && Listed(FileName(path))
    ensures path.Final? && path.name in end.last && end.names[path] in end.data
    ensures c.decode(end.data[end.names[path]]) == Some(end.last[path.name])
  {
    RunKeepsInv(c, s, schedule, end);
    ListedExactly(path);
    assert EntryOk(c, end, path.name);
  }
}
