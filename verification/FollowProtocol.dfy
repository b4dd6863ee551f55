/**
 The microsandbox follow: a reader thread on the pipe of `msb logs -f`, a watchdog that replays
 the tail once the sandbox is gone, a killer, a proxy that joins the reader, and the closing
 caller. Every interleaving of their atomic steps, over a log that only grows.
*/
module FollowProtocol {
  import opened Wrappers
  import opened Lines
  import opened TailText

  // ---- the threads ---------------------------------------------------------------------

  datatype Reader =
    | Reading                            // in the drain loop
    | InFlight(line: string, last: bool) // counted in `delivered`, the consumer not yet called
    | ReaderDone

  datatype Watchdog =
    | CheckClose
    | TryWait
    | ListNames
    | Kill
    | TakeHandle
    | JoinReader
    | Snapshot
    | Fetch(skip: nat)
    | Replay(lines: seq<string>, next: nat) // the lines to deliver, and how many of them are
    | WatchdogDone

  datatype Killer = AwaitClose | KillChild | KillerDone

  datatype Proxy = ProxyStart | ProxyJoin | ProxyDone

  /** `close`: not called yet, waiting for its joiners in order, returned. */
  datatype Closer = Open | JoinProxy | JoinWatchdog | JoinKiller | Closed

  /** One consumer call: which line of the log it was for, what it carried, and who made it. */
  datatype Delivery = Delivery(index: nat, line: string, live: bool)

  /** What the watchdog saw: the count it will skip and whether the reader had finished by then. */
  datatype Seen = Seen(skip: nat, readerDone: bool)

  datatype State = State(
    log: string, running: bool,
    childAlive: bool, relayed: nat, read: nat,
    reader: Reader, delivered: nat,
    flushed: bool, slotFull: bool, closeRequested: bool,
    watchdog: Watchdog, killer: Killer, proxy: Proxy, closer: Closer,
    trace: seq<Delivery>,
    proxyTook: bool,          // history: the proxy got the reader's handle
    snapshot: Option<Seen>,   // history: what the snapshot read
    fetched: Option<string>)  // history: the log at the successful tail fetch

  const INITIAL := State(
    "", true, true, 0, 0, Reading, 0, false, true, false,
    CheckClose, AwaitClose, ProxyStart, Open, [], false, None, None)

  // ---- the steps -----------------------------------------------------------------------

  /** The sandbox and its log, and the `msb logs -f` child that copies the log into the pipe. */
  datatype EnvAction = Grow(text: string) | Stop | Relay(upTo: nat) | ChildExits

  datatype ReaderAction = Read(upTo: nat) | Count | EndOfPipe(readFailed: bool) | Deliver

  /** `gone` is what the name listing says; it may be wrong while the sandbox runs. */
  datatype WatchdogAction =
    | SeeClose | Wait | List(gone: bool) | KillAndWait | Take | Joined | TakeSnapshot
    | FetchTail(full: Option<string>) | ReplayOne

  /** The killer, the proxy and the closing caller. */
  datatype OtherAction = KillerSees | KillerKills | ProxyTakes | ProxyJoined | RequestClose | CloseJoins

  datatype Action =
    | Env(env: EnvAction) | ByReader(r: ReaderAction) | ByWatchdog(w: WatchdogAction) | ByOther(o: OtherAction)

  predicate Bounded(s: State) {
    s.read <= s.relayed <= |s.log|
  }

  /** The text the reader has taken off the pipe. */
  function Held(s: State): string
    requires Bounded(s)
  {
    s.log[..s.read]
  }

  ghost predicate Enabled(s: State, a: Action)
    requires Bounded(s)
  {
    match a
    case Env(Grow(text)) => s.running
    case Env(Stop) => s.running
    case Env(Relay(upTo)) => s.childAlive && s.relayed <= upTo <= |s.log|
    case Env(ChildExits) => s.childAlive
    case ByReader(Read(upTo)) =>
      s.reader.Reading? && s.delivered == |CutOf(Held(s)).complete| && s.read < upTo <= s.relayed
    case ByReader(Count) => s.reader.Reading? && s.delivered < |CutOf(Held(s)).complete|
    case ByReader(EndOfPipe(readFailed)) =>
      && s.reader.Reading? && s.delivered == |CutOf(Held(s)).complete|
      && (readFailed || (s.read == s.relayed && !s.childAlive))
    case ByReader(Deliver) => s.reader.InFlight?
    case ByWatchdog(SeeClose) => s.watchdog.CheckClose?
    case ByWatchdog(Wait) => s.watchdog.TryWait?
    case ByWatchdog(List(_)) => s.watchdog.ListNames?
    case ByWatchdog(KillAndWait) => s.watchdog.Kill?
    case ByWatchdog(Take) => s.watchdog.TakeHandle?
    case ByWatchdog(Joined) => s.watchdog.JoinReader? && s.reader.ReaderDone?
    case ByWatchdog(TakeSnapshot) => s.watchdog.Snapshot?
    case ByWatchdog(FetchTail(full)) => s.watchdog.Fetch? && (full.Some? ==> IsTail(full.value, s.log))
    case ByWatchdog(ReplayOne) => s.watchdog.Replay?
    case ByOther(KillerSees) => s.killer.AwaitClose? && s.closeRequested
    case ByOther(KillerKills) => s.killer.KillChild?
    case ByOther(ProxyTakes) => s.proxy.ProxyStart?
    case ByOther(ProxyJoined) => s.proxy.ProxyJoin? && s.reader.ReaderDone?
    case ByOther(RequestClose) => s.closer.Open?
    case ByOther(CloseJoins) =>
      || (s.closer.JoinProxy? && s.proxy.ProxyDone?)
      || (s.closer.JoinWatchdog? && s.watchdog.WatchdogDone?)
      || (s.closer.JoinKiller? && s.killer.KillerDone?)
  }

  function NextEnv(s: State, a: EnvAction): (t: State)
    ensures t == s.(log := t.log, running := t.running, childAlive := t.childAlive, relayed := t.relayed)
    ensures t.childAlive ==> s.childAlive
  {
    match a
    case Grow(text) => s.(log := s.log + text)
    case Stop => s.(running := false)
    case Relay(upTo) => s.(relayed := upTo)
    case ChildExits => s.(childAlive := false)
  }

  function NextReader(s: State, a: ReaderAction): (t: State)
    requires Bounded(s)
    ensures t == s.(read := t.read, reader := t.reader, delivered := t.delivered, trace := t.trace)
  {
    match a
    case Read(upTo) => s.(read := upTo)
    case Count =>
      var lines := CutOf(Held(s)).complete;
      if s.delivered < |lines| then
        s.(delivered := s.delivered + 1, reader := InFlight(lines[s.delivered], false))
      else s
    case EndOfPipe(_) =>
      var fragment := CutOf(Held(s)).fragment;
      if fragment == "" then s.(reader := ReaderDone)
      else s.(delivered := s.delivered + 1, reader := InFlight(fragment, true))
    case Deliver =>
      if s.reader.InFlight? && s.delivered > 0 then
        s.(trace := s.trace + [Delivery(s.delivered - 1, s.reader.line, true)],
           reader := if s.reader.last then ReaderDone else Reading)
      else s
  }

  function NextWatchdog(s: State, a: WatchdogAction): (t: State)
    ensures t == s.(childAlive := t.childAlive, slotFull := t.slotFull, flushed := t.flushed, watchdog := t.watchdog,
                    trace := t.trace, snapshot := t.snapshot, fetched := t.fetched)
    ensures t.childAlive ==> s.childAlive
  {
    match a
    case SeeClose => s.(watchdog := if s.closeRequested then WatchdogDone else TryWait)
    case Wait => s.(watchdog := if s.childAlive then ListNames else WatchdogDone)
    case List(gone) => s.(watchdog := if gone then Kill else CheckClose)
    case KillAndWait => s.(childAlive := false, watchdog := TakeHandle)
    case Take => s.(slotFull := false, watchdog := if s.slotFull then JoinReader else Snapshot)
    case Joined => s.(watchdog := Snapshot)
    case TakeSnapshot =>
      if s.flushed then s.(watchdog := WatchdogDone)
      else
        s.(flushed := true, watchdog := Fetch(s.delivered), snapshot := Some(Seen(s.delivered, s.reader.ReaderDone?)))
    case FetchTail(full) => AfterFetch(s, full)
    case ReplayOne => AfterReplayOne(s)
  }

  /** `None` is a failed fetch, which ends the flush. */
  function AfterFetch(s: State, full: Option<string>): (t: State)
    ensures t == s.(watchdog := t.watchdog, fetched := t.fetched)
  {
    if full.None? || !s.watchdog.Fetch? then s.(watchdog := WatchdogDone)
    else s.(watchdog := Replay(ReplayLines(full.value, s.watchdog.skip), 0), fetched := Some(s.log))
  }

  function AfterReplayOne(s: State): (t: State)
    ensures t == s.(watchdog := t.watchdog, trace := t.trace)
  {
    if !s.watchdog.Replay? || s.watchdog.next >= |s.watchdog.lines| then s.(watchdog := WatchdogDone)
    else s.(trace := s.trace + [NextReplay(s)], watchdog := Replay(s.watchdog.lines, s.watchdog.next + 1))
  }

  function NextReplay(s: State): Delivery
    requires s.watchdog.Replay? && s.watchdog.next < |s.watchdog.lines|
  {
    Delivery(Base(s) + s.watchdog.next, s.watchdog.lines[s.watchdog.next], false)
  }

  function NextOther(s: State, a: OtherAction): (t: State)
    ensures t == s.(childAlive := t.childAlive, slotFull := t.slotFull, closeRequested := t.closeRequested,
                    killer := t.killer, proxy := t.proxy, closer := t.closer, proxyTook := t.proxyTook)
    ensures t.childAlive ==> s.childAlive
  {
    match a
    case KillerSees => s.(killer := KillChild)
    case KillerKills => s.(childAlive := false, killer := KillerDone)
    case ProxyTakes =>
      s.(slotFull := false, proxyTook := s.slotFull, proxy := if s.slotFull then ProxyJoin else ProxyDone)
    case ProxyJoined => s.(proxy := ProxyDone)
    case RequestClose => s.(closeRequested := true, closer := JoinProxy)
    case CloseJoins =>
      s.(closer := if s.closer.JoinProxy? then JoinWatchdog else if s.closer.JoinWatchdog? then JoinKiller else Closed)
  }

  function Next(s: State, a: Action): State
    requires Bounded(s)
  {
    match a
    case Env(e) => NextEnv(s, e)
    case ByReader(r) => NextReader(s, r)
    case ByWatchdog(w) => NextWatchdog(s, w)
    case ByOther(o) => NextOther(s, o)
  }

  /**
   The log index at which the replay starts: the tail fetch returns the last lines of the log, and
   the watchdog skips as many of those as the live stream delivered.
  */
  function Base(s: State): nat {
    if s.fetched.None? || s.snapshot.None? then 0
    else TailStart(|LinesOf(s.fetched.value)|) + s.snapshot.value.skip
  }

  /** Every run: the state after a list of actions, each enabled when it happens. */
  ghost predicate Runs(s: State, actions: seq<Action>, end: State)
    decreases |actions|
  {
    if actions == [] then end == s
    else Bounded(s) && Enabled(s, actions[0]) && Runs(Next(s, actions[0]), actions[1..], end)
  }
}
