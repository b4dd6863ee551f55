/** The docker backend's `logs` and `exec` output, from the response body to the text handed back. */
module DockerLogs {
  import opened Wrappers
  import opened Sequences
  import opened Wire
  import opened ChunkedCoding
  import opened ChunkedGrammar
  import opened Spelling
  import opened BodyReading
  import opened Frames
  import opened Lines
  import opened LineAssembly
  import opened HttpResponse
  import opened ResponseHead

  /** The decoded payloads of both output streams, in frame order. */
  function TextOf(decode: seq<Byte> -> string, frames: seq<Frame>): string {
    if frames == [] then ""
    else (if frames[0].stream == Stdin then "" else decode(frames[0].payload)) + TextOf(decode, frames[1..])
  }

  /** What `logs` makes of a body: the text of its non-empty lines, or the error that cut it off. */
  function LogsOf(decode: seq<Byte> -> string, d: Decoded): Result<string, Error> {
    var s := AllFrames(d);
    if s.end.Broken? then Err(s.end.error) else Ok(Terminated(NonEmptyLines(TextOf(decode, s.frames))))
  }

  lemma TextStep(decode: seq<Byte> -> string, d: Decoded)
    ensures match NextFrame(d)
            case Next(f, rest) =>
              && |rest.data| < |d.data|
              && AllFrames(d).end == AllFrames(rest).end
              && TextOf(decode, AllFrames(d).frames)
              == (if f.stream == Stdin then "" else decode(f.payload)) + TextOf(decode, AllFrames(rest).frames)
            case Done => AllFrames(d).end == Clean && TextOf(decode, AllFrames(d).frames) == ""
            case Bad(e) => AllFrames(d).end == Broken(e)
  {
  }

  /** Feeding nothing to a new assembler changes and delivers nothing. */
  lemma NothingFed()
    ensures After(State("", false), Call.Feed("")) == State("", false)
    ensures Output(State("", false), Call.Feed("")) == []
  {
  }

  lemma FlushCompletes(text: string)
    ensures var fed := After(State("", false), Call.Feed(text));
            Output(State("", false), Call.Feed(text)) + Output(fed, Call.Flush) == NonEmptyLines(text)
  {
    assert "" + text == text;
    NonEmptyLinesOf(text);
  }

  method PushLines(out: string, lines: seq<string>) returns (r: string)
    ensures r == out + Terminated(lines)
  {
    r := out;
    for i := 0 to |lines|
      invariant r == out + Terminated(lines[..i])
    {
      assert lines[..i + 1] == lines[..i] + [lines[i]];
      TerminatedSnoc(lines[..i], lines[i]);
      r := r + lines[i] + "\n";
    }
    assert lines[..|lines|] == lines;
  }

  /** Reads all frames and returns the text of their lines; `decode` is the lossy UTF-8 decoding. */
  method Logs(body: BodyReader, decode: seq<Byte> -> string) returns (r: Result<string, Error>)
    requires body.Valid()
    modifies body, body.socket
    ensures r == LogsOf(decode, old(body.View()))
  {
    hide NextFrame, AllFrames, TextOf, Terminated, After, Output, NonEmptyLines, CutOf, NonEmpty, Remainder, Flatten;
    var assembler := new LineAssembler();
    var out := "";
    ghost var whole := AllFrames(body.View());
    ghost var text := "";
    ghost var start := State("", false);
    NothingFed();
    TerminatedNone();
    while true
      invariant body.Valid() && assembler.Valid() && fresh(assembler)
      invariant assembler.Abstract() == After(start, Call.Feed(text))
      invariant out == Terminated(Output(start, Call.Feed(text)))
      invariant whole.end == AllFrames(body.View()).end
      invariant TextOf(decode, whole.frames) == text + TextOf(decode, AllFrames(body.View()).frames)
      decreases |body.View().data|
    {
      TextStep(decode, body.View());
      var frame := ReadFrame(body);
      if frame.Err? {
        return Err(frame.error);
      }
      if frame.value == None {
        assert whole.end == Clean && TextOf(decode, whole.frames) == text;
        break;
      }
      if frame.value.value.stream != Stdin {
        var piece := decode(frame.value.value.payload);
        var lines := assembler.Feed(piece);
        FeedTwice(start, text, piece);
        TerminatedAppend(Output(start, Call.Feed(text)), lines);
        out := PushLines(out, lines);
        text := text + piece;
      }
    }
    FlushCompletes(text);
    TerminatedAppend(Output(start, Call.Feed(text)), Output(assembler.Abstract(), Call.Flush));
    assert Terminated(NonEmptyLines(text)) == out + Terminated(Output(assembler.Abstract(), Call.Flush));
    var tail := assembler.Flush();
    if tail.Some? {
      out := PushLines(out, [tail.value]);
    }
    assert out == Terminated(NonEmptyLines(text));
    return Ok(out);
  }

  /** What `logs` returns for the bytes of one connection. */
  function LogsReply(decode: seq<Byte> -> string, input: Input): Result<string, Error> {
    match Opened(input)
    case Err(e) => Err(e)
    case Ok((headers, rest)) =>
      if headers.status >= 400 then Err(Refused(headers.status)) else LogsOf(decode, Body(headers, rest))
  }

  /** `logs` over a fresh connection: the peer's bytes and its timing in, the text out. */
  method FetchLogs(input: Input, decode: seq<Byte> -> string) returns (r: Result<string, Error>)
    ensures r == LogsReply(decode, input)
    ensures r.Ok? ==> exists frames ::
              CarriesFrames(input, frames) && r.value == Terminated(NonEmptyLines(TextOf(decode, frames)))
    ensures r.Err? ==> forall frames :: !CarriesFrames(input, frames)
  {
    LogsReplyMeans(input, decode);
    hide Opened, LogsOf, CarriesFrames;
    var socket := new Socket(input);
    var headers := ReadHeaders(socket);
    if headers.Err? {
      return Err(headers.error);
    }
    if headers.value.status >= 400 {
      return Err(Refused(headers.value.status));
    }
    var reader := new BodyReader(socket, headers.value);
    r := Logs(reader, decode);
  }

  datatype ExecOutput = ExecOutput(stdout: seq<Byte>, stderr: seq<Byte>)

  /** What `exec` makes of the output stream of one connection. */
  function ExecReply(input: Input): Result<ExecOutput, Error> {
    match Opened(input)
    case Err(e) => Err(e)
    case Ok((headers, rest)) =>
      var s := AllFrames(Body(headers, rest));
      if headers.status >= 400 then Err(Refused(headers.status))
      else if s.end.Broken? then Err(s.end.error)
      else Ok(ExecOutput(PayloadsOf(Stdout, s.frames), PayloadsOf(Stderr, s.frames)))
  }

  method FetchExec(input: Input) returns (r: Result<ExecOutput, Error>)
    ensures r == ExecReply(input)
    ensures r.Ok? ==> exists frames ::
              && CarriesFrames(input, frames)
              && r.value == ExecOutput(PayloadsOf(Stdout, frames), PayloadsOf(Stderr, frames))
    ensures r.Err? ==> forall frames :: !CarriesFrames(input, frames)
  {
    ExecReplyMeans(input);
    hide Opened, AllFrames, PayloadsOf, Body, CarriesFrames;
    var socket := new Socket(input);
    var headers := ReadHeaders(socket);
    if headers.Err? {
      return Err(headers.error);
    }
    if headers.value.status >= 400 {
      return Err(Refused(headers.value.status));
    }
    var reader := new BodyReader(socket, headers.value);
    var end, stdout, stderr := DemuxInto(reader);
    return if end.Broken? then Err(end.error) else Ok(ExecOutput(stdout, stderr));
  }

  // ---- end to end ----------------------------------------------------------------------

  /** Behind any head that announces it and under any framing, frames arrive as they were sent. */
  lemma FramesArrive(bytes: seq<Byte>, frames: seq<Frame>, h: Head, status: nat, framing: Framing,
                     rest: seq<Byte>, faulty: bool)
    requires ValidHead(h, status) && |PrintHead(h)| <= 8192
    requires AreFrames(bytes, frames) && Delimits(framing, bytes)
    requires Announces(ParsedHead(h, status), framing, bytes)
    ensures var sent := Sent(framing, bytes, rest, faulty);
            && Opened(Printed(h, sent)) == Ok((ParsedHead(h, status), sent))
            && AllFrames(Body(ParsedHead(h, status), sent)) == Stream(frames, Clean)
  {
    hide NextFrame, AreFrames, Body, Sent, Opened, ParsedHead, PrintHead;
    OpenedRoundTrip(h, status, Sent(framing, bytes, rest, faulty));
    BodyRoundTrip(ParsedHead(h, status), framing, bytes, rest, faulty);
    FramesExactly(Decoded(bytes, Clean), frames);
  }

  /**
   For every list of frames, every way of delimiting their bytes, and every head that announces
   it, the frames come out as they went in: reads, chunks and frames leave no trace in what
   `logs` and `exec` return.
  */
  lemma EndToEnd(bytes: seq<Byte>, frames: seq<Frame>, h: Head, status: nat, framing: Framing,
                 rest: seq<Byte>, faulty: bool, decode: seq<Byte> -> string)
    requires ValidHead(h, status) && |PrintHead(h)| <= 8192 && status < 400
    requires AreFrames(bytes, frames) && Delimits(framing, bytes)
    requires Announces(ParsedHead(h, status), framing, bytes)
    ensures var input := Printed(h, Sent(framing, bytes, rest, faulty));
            && LogsReply(decode, input) == Ok(Terminated(NonEmptyLines(TextOf(decode, frames))))
            && ExecReply(input) == Ok(ExecOutput(PayloadsOf(Stdout, frames), PayloadsOf(Stderr, frames)))
  {
    hide AllFrames, AreFrames, Body, Sent, Opened, NonEmptyLines, PayloadsOf, TextOf, ParsedHead, PrintHead;
    FramesArrive(bytes, frames, h, status, framing, rest, faulty);
    StatusOfParsed(h, status);
  }

  // ---- every other reply is an error ----------------------------------------------------

  /** A head without an error status, and behind it a body that ends cleanly and is all frames. */
  ghost predicate CarriesFrames(input: Input, frames: seq<Frame>) {
    exists headers: ParsedHeaders, rest: Input ::
      && Opened(input) == Ok((headers, rest)) && headers.status < 400
      && Body(headers, rest).end == Clean && AreFrames(Body(headers, rest).data, frames)
  }

  /** There is an output exactly when the connection carries frames, and then it is theirs. */
  lemma RepliesExactly(input: Input, decode: seq<Byte> -> string, text: string, output: ExecOutput)
    ensures LogsReply(decode, input) == Ok(text)
       <==> exists frames :: CarriesFrames(input, frames)
                          && text == Terminated(NonEmptyLines(TextOf(decode, frames)))
    ensures ExecReply(input) == Ok(output)
       <==> exists frames :: CarriesFrames(input, frames)
                          && output == ExecOutput(PayloadsOf(Stdout, frames), PayloadsOf(Stderr, frames))
  {
    hide AllFrames, AreFrames, Body, Opened, NonEmptyLines, PayloadsOf, TextOf, Terminated;
    if Opened(input).Ok? && Opened(input).value.0.status < 400 {
      var (headers, rest) := Opened(input).value;
      var s := AllFrames(Body(headers, rest));
      forall frames ensures CarriesFrames(input, frames) <==> s == Stream(frames, Clean) {
        FramesExactly(Body(headers, rest), frames);
      }
      if s.end == Clean {
        assert s == Stream(s.frames, Clean);
      }
    }
  }

  lemma LogsReplyMeans(input: Input, decode: seq<Byte> -> string)
    ensures match LogsReply(decode, input)
            case Ok(text) => exists frames :: CarriesFrames(input, frames)
                                           && text == Terminated(NonEmptyLines(TextOf(decode, frames)))
            case Err(_) => forall frames :: !CarriesFrames(input, frames)
  {
    hide CarriesFrames, LogsReply, TextOf, NonEmptyLines, Terminated;
    forall text ensures LogsReply(decode, input) == Ok(text)
                   <==> exists frames :: CarriesFrames(input, frames)
                                      && text == Terminated(NonEmptyLines(TextOf(decode, frames))) {
      RepliesExactly(input, decode, text, ExecOutput([], []));
    }
    forall frames | CarriesFrames(input, frames) ensures LogsReply(decode, input).Ok? {
      assert LogsReply(decode, input) == Ok(Terminated(NonEmptyLines(TextOf(decode, frames))));
    }
  }

  lemma ExecReplyMeans(input: Input)
    ensures match ExecReply(input)
            case Ok(output) => exists frames ::
              CarriesFrames(input, frames)
              && output == ExecOutput(PayloadsOf(Stdout, frames), PayloadsOf(Stderr, frames))
            case Err(_) => forall frames :: !CarriesFrames(input, frames)
  {
    hide CarriesFrames, ExecReply, PayloadsOf;
    var decode: seq<Byte> -> string := (payload: seq<Byte>) => "";
    forall output ensures ExecReply(input) == Ok(output)
                     <==> exists frames ::
                            CarriesFrames(input, frames)
                            && output == ExecOutput(PayloadsOf(Stdout, frames), PayloadsOf(Stderr, frames)) {
      RepliesExactly(input, decode, "", output);
    }
    forall frames | CarriesFrames(input, frames) ensures ExecReply(input).Ok? {
      assert ExecReply(input) == Ok(ExecOutput(PayloadsOf(Stdout, frames), PayloadsOf(Stderr, frames)));
    }
  }

  /** A head with an error status is refused with that status, whatever follows it. */
  lemma Refusal(h: Head, status: nat, sent: Input, decode: seq<Byte> -> string)
    requires ValidHead(h, status) && |PrintHead(h)| <= 8192 && 400 <= status
    ensures LogsReply(decode, Printed(h, sent)) == Err(Refused(status))
    ensures ExecReply(Printed(h, sent)) == Err(Refused(status))
  {
    hide Opened, ParsedHead, PrintHead, AllFrames, Body;
    OpenedRoundTrip(h, status, sent);
    StatusOfParsed(h, status);
  }

  /** What stops a body inside a frame, or breaks it in front of one, is the reply. */
  lemma BreaksOff(input: Input, headers: ParsedHeaders, rest: Input, bytes: seq<Byte>, frames: seq<Frame>,
                  piece: seq<Byte>, f: Frame, cut: nat, end: End, decode: seq<Byte> -> string)
    requires Opened(input) == Ok((headers, rest)) && headers.status < 400
    requires AreFrames(bytes, frames) && IsFrame(piece, f) && cut < |piece| && (0 < cut || end.Broken?)
    requires Body(headers, rest) == Decoded(bytes + piece[..cut], end)
    ensures LogsReply(decode, input) == Err(MidFrame(end)) && ExecReply(input) == Err(MidFrame(end))
  {
    hide AllFrames, AreFrames, Body, Opened, IsFrame;
    CutInsideFrame(bytes, frames, piece, f, cut, end);
  }

  /**
   From the bytes: a connection that closes inside a frame, or fails there or in front of one,
   before the framing of the body is complete, never gives an output.
  */
  lemma CutIsAnError(h: Head, status: nat, bytes: seq<Byte>, frames: seq<Frame>, piece: seq<Byte>, f: Frame,
                     k: nat, cut: BodyCut, faulty: bool, decode: seq<Byte> -> string)
    requires ValidHead(h, status) && |PrintHead(h)| <= 8192 && status < 400
    requires AreFrames(bytes, frames) && IsFrame(piece, f) && k < |piece| && (0 < k || faulty)
    requires AnnouncesCut(ParsedHead(h, status), cut) && CutData(cut) == bytes + piece[..k]
    ensures var input := Printed(h, Input(CutBytes(cut), faulty));
            && LogsReply(decode, input) == Err(if faulty then Io else EndedMidFrame)
            && ExecReply(input) == Err(if faulty then Io else EndedMidFrame)
  {
    hide AreFrames, Body, Opened, IsFrame, ParsedHead, PrintHead, AnnouncesCut, LogsReply, ExecReply;
    var sent := Input(CutBytes(cut), faulty);
    OpenedRoundTrip(h, status, sent);
    StatusOfParsed(h, status);
    CutArrives(ParsedHead(h, status), cut, faulty);
    BreaksOff(Printed(h, sent), ParsedHead(h, status), sent, bytes, frames, piece, f, k,
              if faulty then Broken(Io) else Clean, decode);
  }

  /** A complete body whose last frame is not. */
  lemma UnfinishedFrameIsAnError(h: Head, status: nat, bytes: seq<Byte>, frames: seq<Frame>, piece: seq<Byte>,
                                 f: Frame, k: nat, framing: Framing, rest: seq<Byte>, faulty: bool,
                                 decode: seq<Byte> -> string)
    requires ValidHead(h, status) && |PrintHead(h)| <= 8192 && status < 400
    requires AreFrames(bytes, frames) && IsFrame(piece, f) && 0 < k < |piece|
    requires Delimits(framing, bytes + piece[..k])
    requires Announces(ParsedHead(h, status), framing, bytes + piece[..k])
    ensures var input := Printed(h, Sent(framing, bytes + piece[..k], rest, faulty));
            LogsReply(decode, input) == Err(EndedMidFrame) && ExecReply(input) == Err(EndedMidFrame)
  {
    hide AreFrames, Body, Opened, IsFrame, ParsedHead, PrintHead, Delimits, Announces, Sent, LogsReply, ExecReply;
    var sent := Sent(framing, bytes + piece[..k], rest, faulty);
    OpenedRoundTrip(h, status, sent);
    StatusOfParsed(h, status);
    BodyRoundTrip(ParsedHead(h, status), framing, bytes + piece[..k], rest, faulty);
    BreaksOff(Printed(h, sent), ParsedHead(h, status), sent, bytes, frames, piece, f, k, Clean, decode);
  }

  // ---- the text of frames ---------------------------------------------------------------

  /** The text is put together frame by frame, in their order. */
  lemma {:induction false} TextAppend(decode: seq<Byte> -> string, a: seq<Frame>, b: seq<Frame>)
    ensures TextOf(decode, a + b) == TextOf(decode, a) + TextOf(decode, b)
  {
    if a == [] {
      assert a + b == b;
    } else {
      assert (a + b)[1..] == a[1..] + b;
      TextAppend(decode, a[1..], b);
    }
  }

  lemma TextOfOne(decode: seq<Byte> -> string, payload: seq<Byte>)
    ensures TextOf(decode, [Frame(Stdout, payload)]) == TextOf(decode, [Frame(Stderr, payload)]) == decode(payload)
    ensures TextOf(decode, [Frame(Stdin, payload)]) == ""
  {
  }

  /** Chunks with plain hex sizes for any way of cutting a body into non-empty pieces. */
  function PlainChunks(pieces: seq<seq<Byte>>): seq<Chunk> {
    Map((piece: seq<Byte>) => Chunk(piece, HexText(|piece|)), pieces)
  }

  lemma EveryCutIsAChunking(pieces: seq<seq<Byte>>)
    requires forall i :: 0 <= i < |pieces| ==> 0 < |pieces[i]| <= USIZE_MAX
    ensures Delimits(ByChunks(PlainChunks(pieces), LastChunk(HexText(0), [])), Flatten(pieces))
  {
    var chunks := PlainChunks(pieces);
    forall i | 0 <= i < |chunks| ensures ValidChunk(chunks[i]) {
      PlainSize(|pieces[i]|);
    }
    PlainSize(0);
    assert Map((c: Chunk) => c.data, chunks) == pieces;
  }
}
