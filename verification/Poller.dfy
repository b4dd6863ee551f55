/**
 The Windows follow: one worker that polls whether the sandbox runs, fetches the tail of its log
 and delivers what it has not delivered before, by line index.
*/
module Poller {
  import opened Wrappers
  import opened Lines
  import opened TailText

  /** One poll: what the listing and then the fetch returned, `None` for a failed invocation. */
  datatype Round = Round(running: Option<bool>, full: Option<string>)

  datatype Outcome = StillPolling | SawClose | TailDelivered | TailFailed

  /** The log at each round's fetch, and once the sandbox has stopped; it only grows. */
  ghost predicate GrowingLog(logs: seq<string>, final: string) {
    && (forall i :: 0 <= i < |logs| ==> logs[i] <= final)
    && (forall i, j :: 0 <= i < j < |logs| ==> logs[i] <= logs[j])
  }

  /** Every successful fetch returned the tail of the log as it was. */
  ghost predicate TrueFetches(rounds: seq<Round>, attempts: seq<Option<string>>, logs: seq<string>, final: string) {
    && |logs| == |rounds|
    && (forall i :: 0 <= i < |rounds| && rounds[i].full.Some? ==> IsTail(rounds[i].full.value, logs[i]))
    && (forall i :: 0 <= i < |attempts| && attempts[i].Some? ==> IsTail(attempts[i].value, final))
  }

  /** What the consumer got are whole lines of the final log, each at most once and in order. */
  ghost predicate Faithful(trace: seq<string>, indices: seq<nat>, lines: seq<string>) {
    && |trace| == |indices|
    && (forall i :: 0 <= i < |indices| ==> indices[i] < |lines| && trace[i] == lines[indices[i]])
    && (forall i, j :: 0 <= i < j < |indices| ==> indices[i] < indices[j])
  }

  /** The indices are all below `bound`; with the whole log in the window they are the first ones, up to it. */
  ghost predicate UpTo(indices: seq<nat>, bound: nat, total: nat) {
    && (forall i :: 0 <= i < |indices| ==> indices[i] < bound)
    && (total <= TAIL_LINES ==> |indices| == bound && forall i :: 0 <= i < |indices| ==> indices[i] == i)
  }

  /** How many of the first `n` looks find the follow not closed. */
  function LooksWhileOpen(closed: nat -> bool, n: nat): (count: nat)
    ensures count <= n
  {
    if n == 0 then 0 else LooksWhileOpen(closed, n - 1) + if closed(n - 1) then 0 else 1
  }

  lemma {:induction false} LooksAdd(closed: nat -> bool, n: nat, more: nat)
    requires forall k :: n <= k < n + more ==> !closed(k)
    ensures LooksWhileOpen(closed, n + more) == LooksWhileOpen(closed, n) + more
  {
    if more > 0 {
      LooksAdd(closed, n, more - 1);
    }
  }

  lemma {:induction false} LooksGrow(closed: nat -> bool, n: nat, m: nat)
    requires n <= m
    ensures LooksWhileOpen(closed, n) <= LooksWhileOpen(closed, m)
  {
    if n < m {
      LooksGrow(closed, n, m - 1);
    }
  }

  /** The looks from one to another are enough for `count` deliveries, one look that finds it open for each. */
  ghost predicate PaidFor(closed: nat -> bool, from: nat, to: nat, count: nat) {
    LooksWhileOpen(closed, from) + count <= LooksWhileOpen(closed, to)
  }

  /** Once closed, for good. */
  ghost predicate ClosedFrom(closed: nat -> bool, c: nat) {
    forall k :: c <= k ==> closed(k)
  }

  lemma {:induction false} LooksBeforeTheClose(closed: nat -> bool, c: nat, n: nat)
    requires ClosedFrom(closed, c)
    ensures LooksWhileOpen(closed, n) <= c
  {
    if n > 0 {
      LooksBeforeTheClose(closed, c, n - 1);
    }
  }

  /** Delivers some lines, looking at the close flag before each; `checks` counts the looks. */
  method DeliverAll(lines: seq<string>, closed: nat -> bool, checks: nat) returns (count: nat, looked: nat)
    ensures count <= |lines| && looked >= checks + count
    ensures count < |lines| ==> looked > checks && closed(looked - 1)
    ensures forall k :: checks <= k < checks + count ==> !closed(k)
    ensures PaidFor(closed, checks, looked, count)
  {
    looked := checks;
    for i := 0 to |lines|
      invariant looked == checks + i
      invariant forall k :: checks <= k < looked ==> !closed(k)
    {
      looked := looked + 1;
      if closed(looked - 1) {
        LooksAdd(closed, checks, i);
        return i, looked;
      }
    }
    LooksAdd(closed, checks, |lines|);
    return |lines|, looked;
  }

  function Span(from: nat, count: nat): (r: seq<nat>)
    ensures |r| == count && forall i :: 0 <= i < count ==> r[i] == from + i
  {
    seq(count, i requires 0 <= i < count => from + i)
  }

  /** Delivering a run of lines at or above the bound keeps the record faithful. */
  lemma Extend(trace: seq<string>, indices: seq<nat>, lines: seq<string>, bound: nat, from: nat, batch: seq<string>)
    requires Faithful(trace, indices, lines) && UpTo(indices, bound, |lines|)
    requires bound <= from && (|lines| <= TAIL_LINES ==> from == bound)
    requires batch != [] ==> from + |batch| <= |lines| && batch == lines[from..from + |batch|]
    ensures Faithful(trace + batch, indices + Span(from, |batch|), lines)
    ensures UpTo(indices + Span(from, |batch|), from + |batch|, |lines|)
  {
    assert forall i :: 0 <= i < |batch| ==> batch[i] == lines[from + i];
  }

  /** The part of a fetched window that is delivered while the sandbox runs: all but its last line. */
  lemma WindowIsStable(log: string, final: string, delivered: nat)
    requires log <= final
    ensures var window := LastLines(LinesOf(log)); var all := LinesOf(final);
            var start := TailStart(|LinesOf(log)|);
            && start <= TailStart(|all|) && start + |window| <= |all|
            && forall i :: 0 <= i < |window| - 1 ==> window[i] == all[start + i]
  {
    hide CutOf, LinesOf;
    assert log + final[|log|..] == final;
    AllButLastStay(log, final[|log|..]);
  }

  lemma LogsGrow(log: string, later: string)
    requires log <= later
    ensures TailStart(|LinesOf(log)|) <= TailStart(|LinesOf(later)|)
  {
    hide CutOf, LinesOf;
    assert log + later[|log|..] == later;
    AllButLastStay(log, later[|log|..]);
  }

  /** The consumer never closes the follow. */
  ghost predicate Open(closed: nat -> bool) {
    forall k: nat :: !closed(k)
  }

  ghost predicate Succeeds(attempts: seq<Option<string>>) {
    exists i :: 0 <= i < |attempts| && attempts[i].Some?
  }

  ghost predicate Stops(rounds: seq<Round>) {
    exists i :: 0 <= i < |rounds| && rounds[i].running == Some(false)
  }

  /** The first polls left at most one line of what they fetched undelivered: the possibly unfinished last one. */
  ghost predicate CaughtUp(rounds: seq<Round>, logs: seq<string>, polls: nat, delivered: nat)
    requires polls <= |rounds| == |logs|
  {
    forall i :: 0 <= i < polls && rounds[i].running == Some(true) && rounds[i].full.Some? ==>
      |LinesOf(logs[i])| <= delivered + 1
  }

  lemma OnePollMore(rounds: seq<Round>, logs: seq<string>, i: nat, delivered: nat, after: nat)
    requires i < |rounds| == |logs| && CaughtUp(rounds, logs, i, delivered) && delivered <= after
    requires rounds[i].running == Some(true) && rounds[i].full.Some? ==> |LinesOf(logs[i])| <= after + 1
    ensures CaughtUp(rounds, logs, i + 1, after)
  {
  }

  /** The retries of the terminal fetch: the first success wins, a close or the deadline gives nothing. */
  method FetchTerminal(attempts: seq<Option<string>>, closed: nat -> bool, checks: nat)
    returns (full: Option<string>, looked: nat)
    ensures full.Some? ==>
              exists i :: 0 <= i < |attempts| && attempts[i] == full && forall j :: 0 <= j < i ==> attempts[j].None?
    ensures full.None? && Open(closed) ==> !Succeeds(attempts)
    ensures Open(closed) && Succeeds(attempts) ==> full.Some?
    ensures checks <= looked
  {
    looked := checks;
    for i := 0 to |attempts|
      invariant checks <= looked
      invariant forall j :: 0 <= j < i ==> attempts[j].None?
    {
      if attempts[i].Some? {
        return attempts[i], looked;
      }
      looked := looked + 1;
      if closed(looked - 1) {
        return None, looked;
      }
    }
    return None, looked;
  }

  lemma FirstLines(trace: seq<string>, indices: seq<nat>, all: seq<string>, bound: nat)
    requires Faithful(trace, indices, all) && UpTo(indices, bound, |all|)
    ensures |all| <= TAIL_LINES ==> trace <= all && |trace| == bound
  {
    if |all| <= TAIL_LINES && |trace| > 0 {
      assert indices[|trace| - 1] < |all|;
    }
  }

  lemma EmptyLog()
    ensures LinesOf("") == []
  {
  }

  lemma UnseenIsFinal(log: string, final: string, delivered: nat, count: nat)
    requires log <= final
    ensures var window := LastLines(LinesOf(log)); var all := LinesOf(final);
            var from := TailStart(|LinesOf(log)|) + delivered;
            0 < count && delivered + count < |window| ==>
              from + count <= |all| && window[delivered..delivered + count] == all[from..from + count]
  {
    hide CutOf, LinesOf, LastLines, TailStart;
    WindowIsStable(log, final, delivered);
    var window, all := LastLines(LinesOf(log)), LinesOf(final);
    var from := TailStart(|LinesOf(log)|) + delivered;
    if 0 < count && delivered + count < |window| {
      var some, same := window[delivered..delivered + count], all[from..from + count];
      forall k | 0 <= k < count ensures some[k] == same[k] {
        assert window[delivered + k] == all[TailStart(|LinesOf(log)|) + (delivered + k)];
      }
    }
  }

  /** One poll of a running sandbox: everything new in the window but its last line. */
  method RunningRound(full: string, delivered: nat, closed: nat -> bool, checks: nat,
                      ghost log: string, ghost final: string)
    returns (batch: seq<string>, after: nat, cut: bool, looked: nat)
    requires IsTail(full, log) && log <= final
    ensures var from := TailStart(|LinesOf(log)|) + delivered;
            && delivered <= after
            && (!cut ==> after == delivered + |batch| && |LastLines(LinesOf(log))| <= after + 1)
            && (Open(closed) ==> !cut)
            && (batch != [] ==> from + |batch| <= |LinesOf(final)| && batch == LinesOf(final)[from..from + |batch|])
    ensures PaidFor(closed, checks, looked, |batch|)
  {
    hide CutOf, LinesOf;
    var lines := ReplayLines(full, 0);
    WindowIsStable(log, final, delivered);
    var deliverable := if |lines| > 0 && |lines| - 1 > delivered then |lines| - 1 else delivered;
    var unseen := if delivered < deliverable then lines[delivered..deliverable] else [];
    var count;
    count, looked := DeliverAll(unseen, closed, checks);
    UnseenIsFinal(log, final, delivered, count);
    return unseen[..count], deliverable, count < |unseen|, looked;
  }

  /** The last fetch, once the sandbox has stopped: everything behind what was delivered. */
  method TerminalTail(attempts: seq<Option<string>>, delivered: nat, closed: nat -> bool, checks: nat,
                      ghost final: string)
    returns (batch: seq<string>, outcome: Outcome)
    requires forall i :: 0 <= i < |attempts| && attempts[i].Some? ==> IsTail(attempts[i].value, final)
    ensures var from := TailStart(|LinesOf(final)|) + delivered;
            && (batch != [] ==> from + |batch| <= |LinesOf(final)| && batch == LinesOf(final)[from..from + |batch|])
            && outcome != StillPolling
            && (outcome == TailDelivered ==> Succeeds(attempts) && batch == Skip(LinesOf(final), from))
            && (outcome == TailFailed ==> batch == [])
            && (Open(closed) && !Succeeds(attempts) ==> outcome == TailFailed)
            && (Open(closed) && Succeeds(attempts) ==> outcome == TailDelivered)
            && (outcome == SawClose ==> !Open(closed))
    ensures forall c :: ClosedFrom(closed, c) ==> LooksWhileOpen(closed, checks) + |batch| <= c
  {
    hide CutOf, LinesOf;
    var fetched, looked := FetchTerminal(attempts, closed, checks);
    EmptyLog();
    var full := if fetched.Some? then fetched.value else "";
    if fetched.Some? {
      ReplayIsSuffix(full, final, delivered);
    }
    var lines := ReplayLines(full, delivered);
    var count;
    LooksGrow(closed, checks, looked);
    count, looked := DeliverAll(lines, closed, looked);
    forall c | ClosedFrom(closed, c) ensures LooksWhileOpen(closed, checks) + count <= c {
      LooksBeforeTheClose(closed, c, looked);
    }
    return lines[..count], if count < |lines| then SawClose else if fetched.Some? then TailDelivered else TailFailed;
  }

  /** What holds after `i` rounds, when `log` is the log at the latest fetch that was used. */
  ghost predicate Progress(trace: seq<string>, indices: seq<nat>, rounds: seq<Round>, logs: seq<string>, final: string,
                           i: nat, log: string, delivered: nat)
    requires i <= |rounds| == |logs|
  {
    && log <= final && (forall j :: i <= j < |logs| ==> log <= logs[j])
    && Faithful(trace, indices, LinesOf(final))
    && UpTo(indices, TailStart(|LinesOf(log)|) + delivered, |LinesOf(final)|)
    && (|LinesOf(final)| <= TAIL_LINES ==> CaughtUp(rounds, logs, i, delivered))
  }

  lemma ProgressStart(rounds: seq<Round>, logs: seq<string>, final: string)
    requires |rounds| == |logs|
    ensures Progress([], [], rounds, logs, final, 0, "", 0)
  {
    EmptyLog();
  }

  lemma ProgressTrace(trace: seq<string>, indices: seq<nat>, rounds: seq<Round>, logs: seq<string>, final: string,
                      i: nat, log: string, delivered: nat)
    requires i <= |rounds| == |logs| && Progress(trace, indices, rounds, logs, final, i, log, delivered)
    ensures Faithful(trace, indices, LinesOf(final))
    ensures |LinesOf(final)| <= TAIL_LINES ==> trace <= LinesOf(final) && CaughtUp(rounds, logs, i, |trace|)
  {
    hide CutOf, LinesOf;
    var all := LinesOf(final);
    assert log + final[|log|..] == final;
    LogsGrow(log, final);
    FirstLines(trace, indices, all, TailStart(|LinesOf(log)|) + delivered);
    if |all| <= TAIL_LINES {
      assert TailStart(|LinesOf(log)|) == 0;
    }
  }

  /** A round without a fetch of a running sandbox changes nothing. */
  lemma ProgressIdle(trace: seq<string>, indices: seq<nat>, rounds: seq<Round>, logs: seq<string>, final: string,
                     i: nat, log: string, delivered: nat)
    requires i < |rounds| == |logs| && Progress(trace, indices, rounds, logs, final, i, log, delivered)
    requires !(rounds[i].running == Some(true) && rounds[i].full.Some?)
    ensures Progress(trace, indices, rounds, logs, final, i + 1, log, delivered)
  {
    hide LinesOf, Faithful, UpTo;
  }

  lemma ProgressRunning(trace: seq<string>, indices: seq<nat>, rounds: seq<Round>, logs: seq<string>, final: string,
                        i: nat, log: string, delivered: nat, batch: seq<string>, after: nat)
    requires i < |rounds| == |logs| && Progress(trace, indices, rounds, logs, final, i, log, delivered)
    requires GrowingLog(logs, final)
    requires var from := TailStart(|LinesOf(logs[i])|) + delivered;
             batch != [] ==> from + |batch| <= |LinesOf(final)| && batch == LinesOf(final)[from..from + |batch|]
    ensures var all := LinesOf(final);
            var more := indices + Span(TailStart(|LinesOf(logs[i])|) + delivered, |batch|);
            && Faithful(trace + batch, more, all)
            && (|all| <= TAIL_LINES ==> trace + batch <= all)
            && (after == delivered + |batch| && |LastLines(LinesOf(logs[i]))| <= after + 1 ==>
                  Progress(trace + batch, more, rounds, logs, final, i + 1, logs[i], after))
  {
    hide CutOf, LinesOf, CaughtUp, Faithful, UpTo;
    var all := LinesOf(final);
    var from := TailStart(|LinesOf(logs[i])|) + delivered;
    LogsGrow(log, logs[i]);
    LogsGrow(logs[i], final);
    WindowIsStable(logs[i], final, delivered);
    Extend(trace, indices, all, TailStart(|LinesOf(log)|) + delivered, from, batch);
    FirstLines(trace + batch, indices + Span(from, |batch|), all, from + |batch|);
    if |all| <= TAIL_LINES && after == delivered + |batch| && |LastLines(LinesOf(logs[i]))| <= after + 1 {
      OnePollMore(rounds, logs, i, delivered, after);
    }
  }

  lemma ProgressTerminal(trace: seq<string>, indices: seq<nat>, rounds: seq<Round>, logs: seq<string>, final: string,
                         i: nat, log: string, delivered: nat, batch: seq<string>)
    requires i < |rounds| == |logs| && Progress(trace, indices, rounds, logs, final, i, log, delivered)
    requires var from := TailStart(|LinesOf(final)|) + delivered;
             batch != [] ==> from + |batch| <= |LinesOf(final)| && batch == LinesOf(final)[from..from + |batch|]
    ensures var all := LinesOf(final);
            && Faithful(trace + batch, indices + Span(TailStart(|all|) + delivered, |batch|), all)
            && (|all| <= TAIL_LINES ==>
                  && trace + batch <= all
                  && (batch == Skip(all, TailStart(|all|) + delivered) ==> trace + batch == all))
  {
    hide CutOf, LinesOf, CaughtUp, Faithful, UpTo;
    var all := LinesOf(final);
    var from := TailStart(|all|) + delivered;
    LogsGrow(log, final);
    FirstLines(trace, indices, all, TailStart(|LinesOf(log)|) + delivered);
    Extend(trace, indices, all, TailStart(|LinesOf(log)|) + delivered, from, batch);
    FirstLines(trace + batch, indices + Span(from, |batch|), all, from + |batch|);
  }

  /**
   The worker, against any listing and fetch results, any time of the close and any log that only
   grows: it delivers whole lines of the final log, in order, each at most once. If the log fits the
   window these are its first lines, always but for the last line of the latest fetch, and after a
   successful terminal fetch all of them.
  */
  method Follow(rounds: seq<Round>, attempts: seq<Option<string>>, closed: nat -> bool,
                ghost logs: seq<string>, ghost final: string)
    returns (trace: seq<string>, outcome: Outcome, ghost indices: seq<nat>)
    requires GrowingLog(logs, final) && TrueFetches(rounds, attempts, logs, final)
    ensures Faithful(trace, indices, LinesOf(final))
    ensures |LinesOf(final)| <= 1000 ==> trace <= LinesOf(final)
    ensures |LinesOf(final)| <= 1000 && outcome == TailDelivered ==> trace == LinesOf(final)
    ensures Open(closed) && Stops(rounds) && Succeeds(attempts) ==> outcome == TailDelivered
    ensures |LinesOf(final)| <= 1000 && outcome == StillPolling ==> CaughtUp(rounds, logs, |rounds|, |trace|)
    // the outcome says how it ended
    ensures outcome == StillPolling ==> !Stops(rounds)
    ensures outcome == TailDelivered ==> Stops(rounds) && Succeeds(attempts)
    ensures outcome == TailFailed ==> Stops(rounds)
    ensures outcome == SawClose ==> !Open(closed)
    // and no line is delivered behind the close: each one takes a look that finds the follow open
    ensures forall c :: ClosedFrom(closed, c) ==> |trace| <= c
  {
    hide CutOf, LinesOf, IsTail, Faithful, CaughtUp, Progress;
    trace, indices := [], [];
    var delivered := 0;
    var checks := 0;
    ghost var log := "";
    ProgressStart(rounds, logs, final);
    for i := 0 to |rounds|
      invariant Progress(trace, indices, rounds, logs, final, i, log, delivered)
      invariant forall j :: 0 <= j < i ==> rounds[j].running != Some(false)
      invariant |trace| <= LooksWhileOpen(closed, checks)
    {
      ProgressTrace(trace, indices, rounds, logs, final, i, log, delivered);
      forall c | ClosedFrom(closed, c) ensures |trace| <= c {
        LooksBeforeTheClose(closed, c, checks);
      }
      checks := checks + 1;
      if closed(checks - 1) {
        return trace, SawClose, indices;
      }
      if rounds[i].running == Some(false) {
        var batch, ended := TerminalTail(attempts, delivered, closed, checks, final);
        ProgressTerminal(trace, indices, rounds, logs, final, i, log, delivered, batch);
        return trace + batch, ended, indices + Span(TailStart(|LinesOf(final)|) + delivered, |batch|);
      }
      if rounds[i].running == Some(true) && rounds[i].full.Some? {
        var batch, after, cut, looked := RunningRound(rounds[i].full.value, delivered, closed, checks, logs[i], final);
        ProgressRunning(trace, indices, rounds, logs, final, i, log, delivered, batch, after);
        trace, indices := trace + batch, indices + Span(TailStart(|LinesOf(logs[i])|) + delivered, |batch|);
        forall c | ClosedFrom(closed, c) ensures |trace| <= c {
          LooksBeforeTheClose(closed, c, looked);
        }
        if cut {
          return trace, SawClose, indices;
        }
        delivered, checks, log := after, looked, logs[i];
      } else {
        ProgressIdle(trace, indices, rounds, logs, final, i, log, delivered);
      }
    }
    ProgressTrace(trace, indices, rounds, logs, final, |rounds|, log, delivered);
    forall c | ClosedFrom(closed, c) ensures |trace| <= c {
      LooksBeforeTheClose(closed, c, checks);
    }
    return trace, StillPolling, indices;
  }
}
