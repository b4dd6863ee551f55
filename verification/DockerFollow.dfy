/**
 The docker backend's log follow: one task that reads frames and calls the consumer, and a
 caller that closes it by setting a flag and aborting that task, in every interleaving.
*/
module DockerFollow {
  import opened Wrappers
  import opened Wire
  import opened Lines
  import opened LineAssembly
  import opened Frames
  import opened DockerLogs
  import opened ResponseHead
  import opened HttpResponse
  import opened BodyReading
  import opened ChunkedCoding

  type Decoder = seq<Byte> -> string

  /** Where it is. It checks the flag at `LoopTop`, `LineCheck` and `EndCheck`; only `Awaiting` can be aborted. */
  datatype Task =
    | LoopTop
    | Awaiting
    | LineCheck(lines: seq<string>)
    | LineCall(lines: seq<string>)
    | EndCheck
    | TailCall(tail: string)
    | Ended                          // after the stream and its tail
    | Stopped                        // by the flag or the abort

  datatype Closer = Open | FlagSet | Returned

  /** `frames` are those still to arrive; after them the stream ends or fails, which it treats alike. */
  datatype State = State(
    frames: seq<Frame>, assembler: LineAssembly.State, task: Task, closer: Closer, trace: seq<string>)

  datatype Step = Proceed | Abort | Close

  const NEW := LineAssembly.State("", false)

  function Initial(frames: seq<Frame>): State {
    State.State(frames, NEW, LoopTop, Open, [])
  }

  function Unless(closed: bool, next: Task): Task {
    if closed then Stopped else next
  }

  /** Its next step, from one check, read or consumer call to the following. */
  function Proceeded(decode: Decoder, s: State): (t: State)
    ensures t.closer == s.closer
  {
    var closed := s.closer != Open;
    match s.task
    case LoopTop => s.(task := Unless(closed, Awaiting))
    case Awaiting =>
      if s.frames == [] then s.(task := EndCheck)
      else if s.frames[0].stream == Stdin then s.(frames := s.frames[1..], task := LoopTop)
      else
        var feed := Call.Feed(decode(s.frames[0].payload));
        s.(frames := s.frames[1..], assembler := LineAssembly.After(s.assembler, feed),
           task := LineCheck(Output(s.assembler, feed)))
    case LineCheck(lines) => s.(task := if lines == [] then LoopTop else Unless(closed, LineCall(lines)))
    case LineCall(lines) =>
      if lines == [] then s else s.(trace := s.trace + [lines[0]], task := LineCheck(lines[1..]))
    case EndCheck =>
      var tail := Output(s.assembler, Call.Flush);
      s.(task := Unless(closed, if tail == [] then Ended else TailCall(tail[0])))
    case TailCall(tail) => s.(trace := s.trace + [tail], task := Ended)
    case _ => s
  }

  function Next(decode: Decoder, s: State, step: Step): State {
    match step
    case Proceed => Proceeded(decode, s)
    case Abort => if s.closer == Returned && s.task == Awaiting then s.(task := Stopped) else s
    case Close => s.(closer := if s.closer == Open then FlagSet else Returned)
  }

  function Run(decode: Decoder, s: State, schedule: seq<Step>): State
    decreases |schedule|
  {
    if schedule == [] then s else Run(decode, Next(decode, s, schedule[0]), schedule[1..])
  }

  // ---- what is delivered ---------------------------------------------------------------

  /** What an unclosed task would still deliver. */
  function Future(decode: Decoder, frames: seq<Frame>, assembler: LineAssembly.State): seq<string>
    decreases |frames|
  {
    if frames == [] then Output(assembler, Call.Flush)
    else if frames[0].stream == Stdin then Future(decode, frames[1..], assembler)
    else
      var feed := Call.Feed(decode(frames[0].payload));
      Output(assembler, feed) + Future(decode, frames[1..], LineAssembly.After(assembler, feed))
  }

  function Remaining(decode: Decoder, s: State): seq<string> {
    match s.task
    case LoopTop => Future(decode, s.frames, s.assembler)
    case Awaiting => Future(decode, s.frames, s.assembler)
    case LineCheck(lines) => lines + Future(decode, s.frames, s.assembler)
    case LineCall(lines) => lines + Future(decode, s.frames, s.assembler)
    case EndCheck => Output(s.assembler, Call.Flush)
    case TailCall(tail) => [tail]
    case Ended => []
    case Stopped => []
  }

  lemma {:induction false} FutureIsTheText(decode: Decoder, frames: seq<Frame>, s: LineAssembly.State)
    requires '\n' !in s.pending
    ensures var all := Call.Feed(TextOf(decode, frames));
            Future(decode, frames, s) == Output(s, all) + Output(LineAssembly.After(s, all), Call.Flush)
    decreases |frames|
  {
    if frames == [] {
      assert s.pending + "" == s.pending;
      NoLfCut(s.pending);
    } else if frames[0].stream == Stdin {
      assert "" + TextOf(decode, frames[1..]) == TextOf(decode, frames[1..]);
      FutureIsTheText(decode, frames[1..], s);
    } else {
      hide LineAssembly.After, Output;
      var text := decode(frames[0].payload);
      FeedTwice(s, text, TextOf(decode, frames[1..]));
      FutureIsTheText(decode, frames[1..], LineAssembly.After(s, Call.Feed(text)));
    }
  }

  /** Everything is either delivered or still to come; a stopped task has delivered the first part of it. */
  ghost predicate Inv(decode: Decoder, all: seq<string>, s: State) {
    && (s.task.LineCall? ==> s.task.lines != [])
    && if s.task.Stopped? then s.closer != Open && s.trace <= all else s.trace + Remaining(decode, s) == all
  }

  /** A step that the flag does not stop moves no line in or out of what it owes. */
  lemma ProceedKeepsTotal(decode: Decoder, s: State)
    requires s.task.LineCall? ==> s.task.lines != []
    ensures var t := Proceeded(decode, s);
            if t.task.Stopped? && !s.task.Stopped? then s.closer != Open && t.trace == s.trace
            else t.trace + Remaining(decode, t) == s.trace + Remaining(decode, s)
  {
    hide LineAssembly.After, CutOf, NonEmpty;
  }

  lemma StepKeepsInv(decode: Decoder, all: seq<string>, s: State, step: Step)
    requires Inv(decode, all, s)
    ensures Inv(decode, all, Next(decode, s, step))
  {
    if step.Proceed? {
      ProceedKeepsTotal(decode, s);
      hide LineAssembly.After, Output, Future, Remaining;
    } else {
      hide LineAssembly.After, Output, Future;
    }
  }

  /**
   In every run the consumer has received the first so many non-empty lines of the log, each
   once and in order: all of them, unfinished last one included, when the stream has ended unclosed.
  */
  lemma DeliversInOrder(decode: Decoder, frames: seq<Frame>, schedule: seq<Step>)
    ensures var end, all := Run(decode, Initial(frames), schedule), NonEmptyLines(TextOf(decode, frames));
            && end.trace <= all
            && (end.task.Ended? ==> end.trace == all)
            && (end.task.Stopped? ==> end.closer != Open)
  {
    hide TextOf, LineAssembly.After, Output, NonEmptyLines, Proceeded;
    InitialOwesAll(decode, frames);
    RunKeepsInv(decode, NonEmptyLines(TextOf(decode, frames)), Initial(frames), schedule);
  }

  /** What a follow's connection delivers: the refusal, or the frames up to the end or the failure of the stream. */
  function StreamedFrames(input: Input): Result<seq<Frame>, Error> {
    match Opened(input)
    case Err(e) => Err(e)
    case Ok((headers, rest)) =>
      if headers.status >= 400 then Err(Refused(headers.status)) else Ok(AllFrames(Body(headers, rest)).frames)
  }

  /**
   From the connection's bytes: for every list of frames, head and framing, and every schedule,
   the consumer receives the first so many non-empty lines, and all of them when the stream has
   ended unclosed.
  */
  lemma FollowEndToEnd(bytes: seq<Byte>, frames: seq<Frame>, h: Head, status: nat, framing: Framing,
                       rest: seq<Byte>, faulty: bool, decode: Decoder, schedule: seq<Step>)
    requires ValidHead(h, status) && |PrintHead(h)| <= 8192 && status < 400
    requires AreFrames(bytes, frames) && Delimits(framing, bytes)
    requires Announces(ParsedHead(h, status), framing, bytes)
    ensures var streamed := StreamedFrames(Printed(h, Sent(framing, bytes, rest, faulty)));
            streamed.Ok? &&
            var end, all := Run(decode, Initial(streamed.value), schedule), NonEmptyLines(TextOf(decode, frames));
            end.trace <= all && (end.task.Ended? ==> end.trace == all)
  {
    hide AllFrames, AreFrames, Body, Sent, Opened, NonEmptyLines, TextOf, ParsedHead, PrintHead, Run;
    FramesArrive(bytes, frames, h, status, framing, rest, faulty);
    StatusOfParsed(h, status);
    DeliversInOrder(decode, frames, schedule);
  }

  /** A head with an error status is refused with that status, whatever follows it. */
  lemma FollowRefusal(h: Head, status: nat, sent: Input)
    requires ValidHead(h, status) && |PrintHead(h)| <= 8192 && 400 <= status
    ensures StreamedFrames(Printed(h, sent)) == Err(Refused(status))
  {
    hide Opened, ParsedHead, PrintHead, AllFrames, Body;
    OpenedRoundTrip(h, status, sent);
    StatusOfParsed(h, status);
  }

  /** A connection that closes inside a frame, or fails, ends the stream with the complete frames before. */
  lemma FollowOfCut(h: Head, status: nat, bytes: seq<Byte>, frames: seq<Frame>, piece: seq<Byte>, f: Frame,
                    k: nat, cut: BodyCut, faulty: bool)
    requires ValidHead(h, status) && |PrintHead(h)| <= 8192 && status < 400
    requires AreFrames(bytes, frames) && IsFrame(piece, f) && k < |piece| && (0 < k || faulty)
    requires AnnouncesCut(ParsedHead(h, status), cut) && CutData(cut) == bytes + piece[..k]
    ensures StreamedFrames(Printed(h, Input(CutBytes(cut), faulty))) == Ok(frames)
  {
    hide AreFrames, Body, Opened, IsFrame, ParsedHead, PrintHead, AnnouncesCut, AllFrames;
    OpenedRoundTrip(h, status, Input(CutBytes(cut), faulty));
    StatusOfParsed(h, status);
    CutArrives(ParsedHead(h, status), cut, faulty);
    CutInsideFrame(bytes, frames, piece, f, k, if faulty then Broken(Io) else Clean);
  }

  lemma {:induction false} RunKeepsInv(decode: Decoder, all: seq<string>, s: State, schedule: seq<Step>)
    requires Inv(decode, all, s)
    ensures Inv(decode, all, Run(decode, s, schedule))
    decreases |schedule|
  {
    hide Inv, Next;
    if schedule != [] {
      StepKeepsInv(decode, all, s, schedule[0]);
      RunKeepsInv(decode, all, Next(decode, s, schedule[0]), schedule[1..]);
    }
  }

  // ---- closing -------------------------------------------------------------------------

  /** Past its flag check, with the consumer call still to make. */
  predicate Committed(task: Task) {
    task.LineCall? || task.TailCall?
  }

  /**
   Once the flag is set, whatever happens, the consumer is called at most once more, and only
   by a task that was already past its check.
  */
  lemma {:induction false} AtMostOneCallAfterTheFlag(decode: Decoder, s: State, schedule: seq<Step>)
    requires s.closer != Open
    ensures var end := Run(decode, s, schedule);
            s.trace <= end.trace && |end.trace| <= |s.trace| + (if Committed(s.task) then 1 else 0)
    decreases |schedule|
  {
    hide LineAssembly.After, Output;
    if schedule != [] {
      AtMostOneCallAfterTheFlag(decode, Next(decode, s, schedule[0]), schedule[1..]);
    }
  }

  /** The steps of its own a closed task still has in it, a read it is already in included. */
  function StepsLeft(task: Task): nat {
    match task
    case Awaiting => 3
    case LineCall(_) => 3
    case LineCheck(_) => 2
    case Ended => 0
    case Stopped => 0
    case _ => 1
  }

  function Proceeds(schedule: seq<Step>): nat {
    if schedule == [] then 0 else (if schedule[0] == Proceed then 1 else 0) + Proceeds(schedule[1..])
  }

  /** Once the flag is set the task is over after at most three of its steps, with at most one more frame read. */
  lemma {:induction false} FlagEndsTheTask(decode: Decoder, s: State, schedule: seq<Step>)
    requires s.closer != Open && (s.task.LineCall? ==> s.task.lines != [])
    ensures var end := Run(decode, s, schedule);
            && (StepsLeft(s.task) <= Proceeds(schedule) ==> end.task.Ended? || end.task.Stopped?)
            && |s.frames| <= |end.frames| + (if s.task.Awaiting? then 1 else 0)
    decreases |schedule|
  {
    hide LineAssembly.After, Output;
    if schedule != [] {
      FlagEndsTheTask(decode, Next(decode, s, schedule[0]), schedule[1..]);
    }
  }

  function Closes(schedule: seq<Step>): nat {
    if schedule == [] then 0 else (if schedule[0] == Close then 1 else 0) + Closes(schedule[1..])
  }

  function WithoutAborts(schedule: seq<Step>): seq<Step> {
    if schedule == [] then []
    else (if schedule[0] == Abort then [] else [schedule[0]]) + WithoutAborts(schedule[1..])
  }

  /** The flag is set by the first step of `close`, which returns with the second. */
  lemma {:induction false} CloseTakesTwoSteps(decode: Decoder, s: State, schedule: seq<Step>)
    requires s.closer == Open
    ensures Run(decode, s, schedule).closer
         == if Closes(schedule) == 0 then Open else if Closes(schedule) == 1 then FlagSet else Returned
  {
    CloserCounts(decode, s, schedule, 0);
  }

  lemma {:induction false} CloserCounts(decode: Decoder, s: State, schedule: seq<Step>, before: nat)
    requires s.closer == if before == 0 then Open else if before == 1 then FlagSet else Returned
    ensures var all := before + Closes(schedule);
            Run(decode, s, schedule).closer == if all == 0 then Open else if all == 1 then FlagSet else Returned
    decreases |schedule|
  {
    hide Proceeded;
    if schedule != [] {
      CloserCounts(decode, Next(decode, s, schedule[0]), schedule[1..],
                   before + if schedule[0] == Close then 1 else 0);
    }
  }

  /** Until `close` has returned, aborting changes nothing in any run. */
  lemma {:induction false} NoAbortBeforeTheReturn(decode: Decoder, s: State, schedule: seq<Step>)
    requires Run(decode, s, schedule).closer != Returned
    ensures Run(decode, s, schedule) == Run(decode, s, WithoutAborts(schedule))
    decreases |schedule|
  {
    hide Proceeded;
    if schedule != [] {
      ReturnedStays(decode, s, schedule);
      var later := WithoutAborts(schedule[1..]);
      if schedule[0] == Abort {
        assert WithoutAborts(schedule) == later && Next(decode, s, Abort) == s;
      } else {
        assert WithoutAborts(schedule) == [schedule[0]] + later && ([schedule[0]] + later)[1..] == later;
      }
      NoAbortBeforeTheReturn(decode, Next(decode, s, schedule[0]), schedule[1..]);
    }
  }

  lemma {:induction false} ReturnedStays(decode: Decoder, s: State, schedule: seq<Step>)
    ensures s.closer == Returned ==> Run(decode, s, schedule).closer == Returned
    decreases |schedule|
  {
    hide Proceeded;
    if schedule != [] {
      ReturnedStays(decode, Next(decode, s, schedule[0]), schedule[1..]);
    }
  }

  /** An abort that finds the task waiting for a frame ends it there. */
  lemma {:induction false} AbortEndsTheWait(decode: Decoder, s: State, schedule: seq<Step>)
    requires s.closer == Returned && s.task == Awaiting
    ensures var end := Run(decode, s, [Abort] + schedule);
            end.task == Stopped && end.trace == s.trace && end.frames == s.frames
  {
    assert ([Abort] + schedule)[1..] == schedule;
    StoppedStays(decode, Next(decode, s, Abort), schedule);
  }

  lemma {:induction false} StoppedStays(decode: Decoder, s: State, schedule: seq<Step>)
    requires s.task == Stopped
    ensures var end := Run(decode, s, schedule); end.task == Stopped && end.trace == s.trace && end.frames == s.frames
    decreases |schedule|
  {
    if schedule != [] {
      StoppedStays(decode, Next(decode, s, schedule[0]), schedule[1..]);
    }
  }

  /** That one call can come after `close` has returned: the abort does not reach a committed task. */
  lemma OneCallAfterCloseReturned(decode: Decoder, s: State)
    requires s.closer == Open && Committed(s.task) && (s.task.LineCall? ==> s.task.lines != [])
    ensures var closed := Run(decode, s, [Close, Close, Abort]);
            closed.closer == Returned && closed.trace == s.trace &&
            |Next(decode, closed, Proceed).trace| == |s.trace| + 1
  {
  }

  // ---- and it does, exactly when there is a line ---------------------------------------

  lemma {:induction false} RunAppend(decode: Decoder, s: State, a: seq<Step>, b: seq<Step>)
    ensures Run(decode, s, a + b) == Run(decode, Run(decode, s, a), b)
    decreases |a|
  {
    hide Next;
    if a == [] {
      assert a + b == b;
    } else {
      assert (a + b)[1..] == a[1..] + b;
      RunAppend(decode, Next(decode, s, a[0]), a[1..], b);
    }
  }

  function Rank(task: Task): nat {
    match task
    case LineCheck(_) => 3
    case LoopTop => 2
    case Awaiting => 1
    case _ => 0
  }

  /** One step of an open follow that still owes a line: nearer to the call, and owing the same. */
  lemma NearerToACall(decode: Decoder, s: State)
    requires s.closer == Open && Remaining(decode, s) != [] && !Committed(s.task)
    ensures var t := Proceeded(decode, s);
            && t.closer == Open && t.trace == s.trace && (t.task.LineCall? ==> t.task.lines != [])
            && Remaining(decode, t) == Remaining(decode, s)
            && (|t.frames| < |s.frames| || (t.frames == s.frames && Rank(t.task) < Rank(s.task)) || Committed(t.task))
  {
    ProceedKeepsTotal(decode, s);
    hide LineAssembly.After, Future;
    var t := Proceeded(decode, s);
    assert Remaining(decode, t) == (t.trace + Remaining(decode, t))[|t.trace|..];
    assert Remaining(decode, s) == (s.trace + Remaining(decode, s))[|s.trace|..];
  }

  /** Left alone, a follow that still owes a line comes to commit to a call. */
  lemma {:induction false} ReachesACall(decode: Decoder, s: State) returns (schedule: seq<Step>)
    requires s.closer == Open && Remaining(decode, s) != [] && (s.task.LineCall? ==> s.task.lines != [])
    ensures var end := Run(decode, s, schedule);
            Committed(end.task) && end.closer == Open && (end.task.LineCall? ==> end.task.lines != [])
    decreases if Committed(s.task) then 0 else 1, |s.frames|, Rank(s.task)
  {
    if Committed(s.task) {
      schedule := [];
    } else {
      NearerToACall(decode, s);
      hide Proceeded, Remaining;
      var later := ReachesACall(decode, Proceeded(decode, s));
      schedule := [Proceed] + later;
      assert schedule[1..] == later;
    }
  }

  /** After this schedule `close` has returned, and then the consumer is called. */
  predicate CallsAfterReturn(decode: Decoder, frames: seq<Frame>, schedule: seq<Step>) {
    var s := Run(decode, Initial(frames), schedule);
    s.closer == Returned && |s.trace| < |Next(decode, s, Proceed).trace|
  }

  lemma InitialOwesAll(decode: Decoder, frames: seq<Frame>)
    ensures Remaining(decode, Initial(frames)) == NonEmptyLines(TextOf(decode, frames))
    ensures Inv(decode, NonEmptyLines(TextOf(decode, frames)), Initial(frames))
  {
    hide TextOf, LineAssembly.After, Output, NonEmptyLines;
    FutureIsTheText(decode, frames, NEW);
    FlushCompletes(TextOf(decode, frames));
    assert [] + NonEmptyLines(TextOf(decode, frames)) == NonEmptyLines(TextOf(decode, frames));
  }

  /** A call can come after `close` has returned exactly when the log has a non-empty line at all. */
  lemma LateCallExactly(decode: Decoder, frames: seq<Frame>)
    ensures (exists schedule :: CallsAfterReturn(decode, frames, schedule))
       <==> NonEmptyLines(TextOf(decode, frames)) != []
  {
    hide TextOf, NonEmptyLines, Remaining, Next, Run, Inv;
    var all := NonEmptyLines(TextOf(decode, frames));
    InitialOwesAll(decode, frames);
    if all != [] {
      var schedule := ReachesACall(decode, Initial(frames));
      var s := Run(decode, Initial(frames), schedule);
      OneCallAfterCloseReturned(decode, s);
      RunAppend(decode, Initial(frames), schedule, [Close, Close, Abort]);
      assert CallsAfterReturn(decode, frames, schedule + [Close, Close, Abort]);
    } else {
      forall schedule ensures !CallsAfterReturn(decode, frames, schedule) {
        var s := Run(decode, Initial(frames), schedule);
        RunKeepsInv(decode, all, Initial(frames), schedule);
        StepKeepsInv(decode, all, s, Proceed);
        NothingDelivered(decode, Next(decode, s, Proceed));
      }
    }
  }

  lemma NothingDelivered(decode: Decoder, s: State)
    requires Inv(decode, [], s)
    ensures s.trace == []
  {
    hide Remaining;
  }
}
