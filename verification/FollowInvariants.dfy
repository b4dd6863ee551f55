/** What every step of the microsandbox follow keeps. */
module FollowInvariants {
  import opened Wrappers
  import opened Lines
  import opened TailText
  import opened FollowProtocol

  // ---- what the trace holds ------------------------------------------------------------

  /** The deliveries one of the two sources made, in order. */
  function Only(trace: seq<Delivery>, live: bool): seq<Delivery> {
    if trace == [] then []
    else
      var last := trace[|trace| - 1];
      var before := Only(trace[..|trace| - 1], live);
      if last.live == live then before + [last] else before
  }

  /** The first `count` of some lines, as one source delivers them when the first has index `base`. */
  function Numbered(lines: seq<string>, base: nat, count: nat, live: bool): (r: seq<Delivery>)
    requires count <= |lines|
    ensures |r| == count
    ensures forall i :: 0 <= i < count ==> r[i] == Delivery(base + i, lines[i], live)
  {
    seq(count, i requires 0 <= i < count => Delivery(base + i, lines[i], live))
  }

  predicate Draining(r: Reader) {
    r.Reading? || (r.InFlight? && !r.last)
  }

  /** The lines there are to deliver from the text a reader holds: the fragment only once the pipe has ended. */
  function LiveLines(held: string, reader: Reader): seq<string> {
    if Draining(reader) then CutOf(held).complete else LinesOf(held)
  }

  function Called(reader: Reader, delivered: nat): int {
    if reader.InFlight? then delivered - 1 else delivered
  }

  /** Everything live was delivered once, in order, from line zero on. */
  ghost predicate LiveOk(held: string, reader: Reader, delivered: nat, calls: seq<Delivery>) {
    var lines := LiveLines(held, reader);
    && 0 <= Called(reader, delivered) && delivered <= |lines|
    && (!Draining(reader) ==> delivered == |lines|)
    && (reader.InFlight? ==> reader.line == lines[delivered - 1])
    && calls == Numbered(lines, 0, Called(reader, delivered), true)
  }

  ghost predicate LiveInv(s: State) {
    Bounded(s) && LiveOk(Held(s), s.reader, s.delivered, Only(s.trace, true))
  }

  /** The lines of the fetched log that the live stream had not delivered at the snapshot. */
  function Missing(s: State): seq<string> {
    if s.fetched.None? then [] else Skip(LinesOf(s.fetched.value), Base(s))
  }

  /** Everything replayed is a run of lines of the fetched log, starting where the snapshot said. */
  ghost predicate ReplayOk(w: Watchdog, missing: seq<string>, base: nat, calls: seq<Delivery>) {
    && (w.Replay? ==> w.lines == missing && w.next <= |missing|)
    && calls == Numbered(missing, base, if w.Replay? then w.next else |missing|, false)
  }

  ghost predicate SeenOk(w: Watchdog, flushed: bool, snapshot: Option<Seen>, fetched: Option<string>) {
    && (snapshot.Some? <==> flushed)
    && (w.Fetch? || fetched.Some? ==> snapshot.Some?)
    && (w.Fetch? ==> fetched.None? && w.skip == snapshot.value.skip)
    && (w.Replay? ==> fetched.Some?)
    && (fetched.Some? ==> w.Replay? || w.WatchdogDone?)
  }

  ghost predicate ReplayInv(s: State) {
    && SeenOk(s.watchdog, s.flushed, s.snapshot, s.fetched)
    && ReplayOk(s.watchdog, Missing(s), Base(s), Only(s.trace, false))
  }

  /** Who holds or held the reader's handle, and what that says about the reader. */
  ghost predicate JoinInv(s: State) {
    && (s.slotFull ==> !s.proxyTook && s.proxy.ProxyStart? && BeforeTake(s.watchdog))
    && (s.proxy.ProxyJoin? ==> s.proxyTook)
    && (s.proxy.ProxyStart? ==> !s.proxyTook)
    && (s.proxyTook && s.proxy.ProxyDone? ==> s.reader.ReaderDone?)
    && (!s.proxyTook && !s.slotFull && !s.watchdog.JoinReader? ==> s.reader.ReaderDone?)
    && (s.proxy.ProxyDone? && !s.proxyTook ==> !s.slotFull)
  }

  predicate BeforeTake(w: Watchdog) {
    w in {CheckClose, TryWait, ListNames, Kill, TakeHandle, WatchdogDone}
  }

  predicate CleanSnapshot(s: State) {
    s.snapshot.Some? ==> s.snapshot.value.readerDone
  }

  /** A snapshot taken after the reader finished read the final count; nothing live follows it. */
  ghost predicate SnapshotInv(s: State) {
    && (s.snapshot.Some? && s.snapshot.value.readerDone ==>
          s.reader.ReaderDone? && s.snapshot.value.skip == s.delivered)
    && (s.snapshot.Some? ==> !s.slotFull && (!s.proxyTook ==> s.snapshot.value.readerDone))
    && (CleanSnapshot(s) ==> s.trace == Only(s.trace, true) + Only(s.trace, false))
  }

  predicate AfterKill(w: Watchdog) {
    w.TakeHandle? || w.JoinReader? || w.Snapshot? || w.Fetch? || w.Replay?
  }

  /** The watchdog fetches a log that already holds everything the pipe ever carried. */
  ghost predicate PipeInv(s: State) {
    && (AfterKill(s.watchdog) || s.fetched.Some? ==> !s.childAlive)
    && (s.fetched.Some? ==> s.fetched.value <= s.log && s.relayed <= |s.fetched.value|)
  }

  /** `close` has waited for every joiner it is past. */
  ghost predicate CloseInv(s: State) {
    && (s.closer.JoinWatchdog? || s.closer.JoinKiller? || s.closer.Closed? ==> s.proxy.ProxyDone?)
    && (s.closer.JoinKiller? || s.closer.Closed? ==> s.watchdog.WatchdogDone?)
    && (s.closer.Closed? ==> s.killer.KillerDone?)
    && (s.killer.KillerDone? ==> !s.childAlive)
    && (!s.closer.Open? ==> s.closeRequested)
  }

  ghost predicate Inv(s: State) {
    LiveInv(s) && ReplayInv(s) && JoinInv(s) && SnapshotInv(s) && PipeInv(s) && CloseInv(s)
  }

  // ---- every step keeps it -------------------------------------------------------------

  lemma OnlySnoc(trace: seq<Delivery>, d: Delivery, live: bool)
    ensures Only(trace + [d], live) == if d.live == live then Only(trace, live) + [d] else Only(trace, live)
  {
    assert (trace + [d])[..|trace|] == trace;
  }

  lemma NumberedSnoc(lines: seq<string>, base: nat, count: nat, live: bool)
    requires count < |lines|
    ensures Numbered(lines, base, count + 1, live)
         == Numbered(lines, base, count, live) + [Delivery(base + count, lines[count], live)]
  {
  }

  lemma NumberedPrefix(a: seq<string>, b: seq<string>, base: nat, count: nat, live: bool)
    requires a <= b && count <= |a|
    ensures Numbered(a, base, count, live) == Numbered(b, base, count, live)
  {
  }

  lemma CompleteGrows(log: string, n: nat, m: nat)
    requires n <= m <= |log|
    ensures CutOf(log[..n]).complete <= CutOf(log[..m]).complete
  {
    assert log[..m] == log[..n] + log[n..m];
    CutFromFragment(log[..n], log[n..m]);
  }

  lemma LiveRead(log: string, n: nat, m: nat, reader: Reader, delivered: nat, calls: seq<Delivery>)
    requires n <= m <= |log| && reader.Reading?
    requires LiveOk(log[..n], reader, delivered, calls)
    ensures LiveOk(log[..m], reader, delivered, calls)
  {
    hide CutOf;
    CompleteGrows(log, n, m);
    NumberedPrefix(CutOf(log[..n]).complete, CutOf(log[..m]).complete, 0, delivered, true);
  }

  lemma LiveCount(held: string, delivered: nat, calls: seq<Delivery>)
    requires delivered < |CutOf(held).complete| && LiveOk(held, Reading, delivered, calls)
    ensures LiveOk(held, InFlight(CutOf(held).complete[delivered], false), delivered + 1, calls)
  {
    hide CutOf;
  }

  lemma LiveEnd(held: string, reader: Reader, delivered: nat, calls: seq<Delivery>)
    requires reader.Reading? && delivered == |CutOf(held).complete| && LiveOk(held, reader, delivered, calls)
    ensures var fragment := CutOf(held).fragment;
            if fragment == "" then LiveOk(held, ReaderDone, delivered, calls)
            else LiveOk(held, InFlight(fragment, true), delivered + 1, calls)
  {
    hide CutOf;
    NumberedPrefix(CutOf(held).complete, LinesOf(held), 0, delivered, true);
  }

  lemma LiveCall(held: string, reader: Reader, delivered: nat, calls: seq<Delivery>)
    requires reader.InFlight? && LiveOk(held, reader, delivered, calls)
    ensures 0 < delivered
    ensures LiveOk(held, if reader.last then ReaderDone else Reading, delivered,
                   calls + [Delivery(delivered - 1, reader.line, true)])
  {
    hide CutOf;
    NumberedSnoc(LiveLines(held, reader), 0, delivered - 1, true);
  }

  lemma LiveDeliver(s: State)
    requires LiveInv(s) && s.reader.InFlight?
    ensures LiveInv(NextReader(s, Deliver))
  {
    hide CutOf, Only, LiveOk, LinesOf;
    LiveCall(Held(s), s.reader, s.delivered, Only(s.trace, true));
    OnlySnoc(s.trace, Delivery(s.delivered - 1, s.reader.line, true), true);
  }

  lemma LiveByReader(s: State, a: ReaderAction)
    requires LiveInv(s) && Enabled(s, ByReader(a))
    ensures LiveInv(NextReader(s, a))
  {
    hide CutOf, Only, LiveOk, LinesOf;
    var calls := Only(s.trace, true);
    match a
    case Read(upTo) => LiveRead(s.log, s.read, upTo, s.reader, s.delivered, calls);
    case Count => LiveCount(Held(s), s.delivered, calls);
    case EndOfPipe(_) => LiveEnd(Held(s), s.reader, s.delivered, calls);
    case Deliver => LiveDeliver(s);
  }

  lemma LiveByWatchdog(s: State, a: WatchdogAction)
    requires Bounded(s) && Enabled(s, ByWatchdog(a))
    ensures Only(NextWatchdog(s, a).trace, true) == Only(s.trace, true)
  {
    hide CutOf, Only, LinesOf, Base, IsTail, ReplayLines;
    if a.ReplayOne? && s.watchdog.next < |s.watchdog.lines| {
      OnlySnoc(s.trace, NextReplay(s), true);
    }
  }

  lemma LiveStep(s: State, a: Action)
    requires LiveInv(s) && Enabled(s, a)
    ensures LiveInv(Next(s, a))
  {
    hide CutOf, Only, LiveOk, NextReader, NextWatchdog, NextOther, LinesOf, IsTail;
    match a
    case Env(e) => assert e.Grow? ==> (s.log + e.text)[..s.read] == Held(s);
    case ByReader(r) => LiveByReader(s, r);
    case ByWatchdog(w) => LiveByWatchdog(s, w);
    case ByOther(_) =>
  }

  lemma ReplayOneMore(w: Watchdog, missing: seq<string>, base: nat, calls: seq<Delivery>)
    requires ReplayOk(w, missing, base, calls) && w.Replay?
    ensures if w.next < |missing| then
              ReplayOk(Replay(missing, w.next + 1), missing, base,
                       calls + [Delivery(base + w.next, missing[w.next], false)])
            else ReplayOk(WatchdogDone, missing, base, calls)
  {
    if w.next < |missing| {
      NumberedSnoc(missing, base, w.next, false);
    }
  }

  lemma ReplayBegins(w: Watchdog, missing: seq<string>, base: nat)
    ensures !w.Replay? ==> ReplayOk(w, [], 0, [])
    ensures ReplayOk(Replay(missing, 0), missing, base, [])
  {
  }

  lemma ReplayFetch(s: State, full: Option<string>)
    requires ReplayInv(s) && Bounded(s) && Enabled(s, ByWatchdog(FetchTail(full)))
    ensures ReplayInv(NextWatchdog(s, FetchTail(full)))
  {
    hide CutOf, Only, LinesOf, Numbered, IsTail, ReplayLines;
    if full.Some? {
      var t := NextWatchdog(s, FetchTail(full));
      ReplayIsSuffix(full.value, s.log, s.watchdog.skip);
      assert Missing(s) == [] && Only(s.trace, false) == [];
      ReplayBegins(s.watchdog, Missing(t), Base(t));
    }
  }

  lemma ReplayingMissing(s: State)
    requires ReplayInv(s) && s.watchdog.Replay?
    ensures s.watchdog.lines == Missing(s)
  {
  }

  lemma ReplayCall(s: State)
    requires ReplayInv(s) && s.watchdog.Replay?
    ensures ReplayInv(NextWatchdog(s, ReplayOne))
  {
    hide CutOf, Only, LinesOf, Numbered, ReplayOk;
    ReplayOneMore(s.watchdog, Missing(s), Base(s), Only(s.trace, false));
    assert s.watchdog.lines == Missing(s) by { ReplayingMissing(s); }
    if s.watchdog.next < |s.watchdog.lines| {
      OnlySnoc(s.trace, NextReplay(s), false);
    }
  }

  lemma ReplayOther(s: State, a: WatchdogAction)
    requires ReplayInv(s) && Bounded(s) && Enabled(s, ByWatchdog(a)) && !a.FetchTail? && !a.ReplayOne?
    ensures ReplayInv(NextWatchdog(s, a))
  {
    hide CutOf, Only, LinesOf, Numbered, IsTail, ReplayLines;
  }

  lemma ReplayStep(s: State, a: Action)
    requires Bounded(s) && ReplayInv(s) && Enabled(s, a)
    ensures ReplayInv(Next(s, a))
  {
    hide CutOf, Only, LinesOf, IsTail, ReplayOk, SeenOk, NextOther, NextEnv, NextWatchdog, NextReader;
    match a
    case ByReader(r) => ReplayByReader(s, r);
    case ByWatchdog(FetchTail(full)) => ReplayFetch(s, full);
    case ByWatchdog(ReplayOne) => ReplayCall(s);
    case ByWatchdog(w) => ReplayOther(s, w);
    case _ =>
  }

  lemma ReplayByReader(s: State, a: ReaderAction)
    requires Bounded(s)
    ensures Only(NextReader(s, a).trace, false) == Only(s.trace, false)
  {
    hide CutOf, Only, Held;
    if a.Deliver? && s.reader.InFlight? && s.delivered > 0 {
      OnlySnoc(s.trace, Delivery(s.delivered - 1, s.reader.line, true), false);
    }
  }

  lemma JoinByWatchdog(s: State, a: WatchdogAction)
    requires Bounded(s) && JoinInv(s) && Enabled(s, ByWatchdog(a))
    ensures JoinInv(NextWatchdog(s, a))
  {
    hide CutOf, Base, Only, LinesOf, ReplayLines, IsTail;
  }

  lemma JoinStep(s: State, a: Action)
    requires Bounded(s) && JoinInv(s) && Enabled(s, a)
    ensures JoinInv(Next(s, a))
  {
    hide CutOf, LinesOf, IsTail, NextEnv, NextWatchdog;
    if a.ByWatchdog? {
      JoinByWatchdog(s, a.w);
    }
  }

  lemma NothingReplayed(s: State)
    requires ReplayInv(s) && s.fetched.None?
    ensures Only(s.trace, false) == []
  {
  }

  lemma SnapshotByReader(s: State, a: ReaderAction)
    requires LiveInv(s) && ReplayInv(s) && SnapshotInv(s) && Enabled(s, ByReader(a))
    ensures SnapshotInv(NextReader(s, a))
  {
    hide CutOf, LinesOf, Only, LiveOk, ReplayOk;
    if a.Deliver? && s.delivered > 0 {
      var d := Delivery(s.delivered - 1, s.reader.line, true);
      OnlySnoc(s.trace, d, true);
      OnlySnoc(s.trace, d, false);
      if CleanSnapshot(s) {
        NothingReplayed(s);
        assert s.trace + [d] == Only(s.trace, true) + [d] + [];
      }
    }
  }

  lemma SnapshotByWatchdog(s: State, a: WatchdogAction)
    requires Bounded(s) && SeenOk(s.watchdog, s.flushed, s.snapshot, s.fetched) && JoinInv(s) && SnapshotInv(s)
    requires Enabled(s, ByWatchdog(a))
    ensures SnapshotInv(NextWatchdog(s, a))
  {
    hide CutOf, LinesOf, Only, Base, IsTail, ReplayLines;
    if a.ReplayOne? && s.watchdog.next < |s.watchdog.lines| {
      OnlySnoc(s.trace, NextReplay(s), true);
      OnlySnoc(s.trace, NextReplay(s), false);
      assert Only(s.trace, true) + (Only(s.trace, false) + [NextReplay(s)])
          == Only(s.trace, true) + Only(s.trace, false) + [NextReplay(s)];
    }
  }

  lemma SnapshotStep(s: State, a: Action)
    requires Inv(s) && Enabled(s, a)
    ensures SnapshotInv(Next(s, a))
  {
    hide CutOf, LinesOf, Only, IsTail, NextEnv, NextReader, NextWatchdog, LiveOk, ReplayOk;
    match a
    case ByReader(r) => SnapshotByReader(s, r);
    case ByWatchdog(w) => SnapshotByWatchdog(s, w);
    case _ =>
  }

  lemma PipeByWatchdog(s: State, a: WatchdogAction)
    requires Bounded(s) && PipeInv(s) && Enabled(s, ByWatchdog(a))
    ensures PipeInv(NextWatchdog(s, a))
  {
    hide CutOf, LinesOf, IsTail, Base, ReplayLines, NextReplay;
  }

  lemma PipeStep(s: State, a: Action)
    requires Bounded(s) && PipeInv(s) && Enabled(s, a)
    ensures PipeInv(Next(s, a))
  {
    hide CutOf, LinesOf, IsTail, NextReader, NextWatchdog;
    if a.ByWatchdog? {
      PipeByWatchdog(s, a.w);
    }
  }

  lemma CloseByWatchdog(s: State, a: WatchdogAction)
    requires Bounded(s) && CloseInv(s) && Enabled(s, ByWatchdog(a))
    ensures CloseInv(NextWatchdog(s, a))
  {
    hide CutOf, LinesOf, IsTail, NextWatchdog;
  }

  lemma CloseByOther(s: State, a: OtherAction)
    requires Bounded(s) && CloseInv(s) && Enabled(s, ByOther(a))
    ensures CloseInv(NextOther(s, a))
  {
  }

  lemma CloseStep(s: State, a: Action)
    requires Bounded(s) && CloseInv(s) && Enabled(s, a)
    ensures CloseInv(Next(s, a))
  {
    hide CutOf, LinesOf, IsTail, NextEnv, NextReader, NextWatchdog, NextOther, Enabled;
    match a
    case ByWatchdog(w) => CloseByWatchdog(s, w);
    case ByOther(o) => CloseByOther(s, o);
    case _ =>
  }

  lemma {:induction false} RunKeepsInv(s: State, actions: seq<Action>, end: State)
    requires Inv(s) && Runs(s, actions, end)
    ensures Inv(end)
    decreases |actions|
  {
    hide LiveInv, ReplayInv, JoinInv, SnapshotInv, PipeInv, CloseInv, Next, Enabled;
    if actions != [] {
      StepKeepsInv(s, actions[0]);
      RunKeepsInv(Next(s, actions[0]), actions[1..], end);
    }
  }

  lemma StepKeepsInv(s: State, a: Action)
    requires Inv(s) && Bounded(s) && Enabled(s, a)
    ensures Inv(Next(s, a))
  {
    hide LiveOk, ReplayOk, SeenOk, JoinInv, SnapshotInv, PipeInv, CloseInv, Next, Enabled, Only;
    LiveStep(s, a);
    ReplayStep(s, a);
    JoinStep(s, a);
    SnapshotStep(s, a);
    PipeStep(s, a);
    CloseStep(s, a);
  }

  ghost predicate Reachable(s: State) {
    exists actions :: Runs(INITIAL, actions, s)
  }

  lemma ReachableInv(s: State)
    requires Reachable(s)
    ensures Inv(s)
  {
    var actions :| Runs(INITIAL, actions, s);
    RunKeepsInv(INITIAL, actions, s);
  }
}
