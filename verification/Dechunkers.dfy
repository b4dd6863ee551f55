/**
 The two whole-body dechunkers, the async client's and the blocking one of the drop and probe
 paths, and how far they and the incremental reader agree.
*/
module Dechunkers {
  import opened Wrappers
  import opened Sequences
  import opened Wire
  import opened ChunkedCoding
  import opened ChunkedGrammar
  import opened BodyReading

  predicate Fits(line: seq<Byte>) {
    |line| <= 8192
  }

  ghost predicate AllLines(ok: seq<Byte> -> bool, lines: seq<seq<Byte>>) {
    forall i :: 0 <= i < |lines| ==> ok(lines[i])
  }

  /** The bodies on which the async client succeeds: a finished body whose lines are all short enough. */
  ghost predicate ClientAccepts(input: Input) {
    var w := WalkBody(input.bytes);
    w.stop.Finished? && AllLines(Fits, w.lines)
  }

  /**
   The bodies on which the blocking reader succeeds. It also takes the end of input for the
   blank line, but only behind a zero-size line.
  */
  ghost predicate BlockingAccepts(input: Input, utf8: seq<Byte> -> bool) {
    var w := WalkBody(input.bytes);
    && AllLines(utf8, w.lines)
    && (w.stop.Finished? || (!input.faulty && UnfinishedAfterZero(w) && (w.partial == [] || utf8(w.partial))))
  }

  ghost predicate UnfinishedAfterZero(w: Walk) {
    w.stop.CutInTrailers? || (w.stop.CutInSizeLine? && ChunkSize(w.partial) == Some(0))
  }

  lemma AllLinesFirst(ok: seq<Byte> -> bool, line: seq<Byte>, w: Walk)
    ensures AllLines(ok, FirstLine(line, w).lines) <==> ok(line) && AllLines(ok, w.lines)
  {
    var all := FirstLine(line, w).lines;
    assert all[0] == line;
    assert forall i :: 0 <= i < |w.lines| ==> all[i + 1] == w.lines[i];
    assert forall i :: 0 < i < |all| ==> all[i] == w.lines[i - 1];
  }

  // ---- the async client ----------------------------------------------------------------

  /** Reads one framing line of at most `MAX_HEADER_BYTES` bytes. */
  method ReadLine(socket: Socket) returns (r: Result<seq<Byte>, Error>)
    modifies socket
    ensures r.Ok? <==> FindLf(old(socket.input.bytes)) < |old(socket.input.bytes)|
                       && FindLf(old(socket.input.bytes)) <= MAX_HEADER_BYTES
    ensures r.Ok? ==> var p := FindLf(old(socket.input.bytes));
                      && r.value == StripCr(old(socket.input.bytes)[..p])
                      && socket.input == old(socket.input).Drop(p + 1)
  {
    var raw: seq<Byte> := [];
    ghost var all := socket.input;
    while true
      invariant |raw| <= |all.bytes| && raw == all.bytes[..|raw|] && socket.input == all.Drop(|raw|)
      invariant |raw| <= MAX_HEADER_BYTES && forall i :: 0 <= i < |raw| ==> raw[i] != LF
      decreases |all.bytes| - |raw|
    {
      var byte := socket.ReadByte();
      if byte.Err? {
        return Err(byte.error);
      }
      if byte.value == None {
        return Err(ClosedMidLine);
      }
      if byte.value.value == LF {
        FindLfIs(all.bytes, |raw|);
        return Ok(StripCr(raw));
      }
      raw := raw + [byte.value.value];
      if |raw| > MAX_HEADER_BYTES {
        return Err(LineTooLong);
      }
    }
  }

  function AfterLine(input: Input): Input
    requires FindLf(input.bytes) < |input.bytes|
  {
    input.Drop(FindLf(input.bytes) + 1)
  }

  /** The size the client reads from the line at the front, and the input behind it, if it accepts that line. */
  function FrontSize(input: Input): Option<(nat, Input)> {
    var p := FindLf(input.bytes);
    if p < |input.bytes| && p <= MAX_HEADER_BYTES then
      var size := ChunkSize(StripCr(input.bytes[..p]));
      if size.Some? then Some((size.value, AfterLine(input))) else None
    else None
  }

  method NextSize(socket: Socket) returns (r: Result<nat, Error>)
    modifies socket
    ensures match FrontSize(old(socket.input))
            case None => r.Err?
            case Some((n, later)) => r == Ok(n) && socket.input == later
  {
    var text := ReadLine(socket);
    if text.Err? {
      return Err(text.error);
    }
    var size := ChunkSize(text.value);
    return if size.Some? then Ok(size.value) else Err(BadChunkSize);
  }

  ghost predicate ClientAcceptsTrailers(input: Input) {
    var w := WalkTrailers(input.bytes);
    w.stop.Finished? && AllLines(Fits, w.lines)
  }

  lemma {:induction false} ClientTrailerStep(input: Input)
    requires FindLf(input.bytes) < |input.bytes|
    ensures var raw := input.bytes[..FindLf(input.bytes)];
            ClientAcceptsTrailers(input)
            <==> Fits(raw) && (StripCr(raw) == [] || ClientAcceptsTrailers(AfterLine(input)))
  {
    var raw := input.bytes[..FindLf(input.bytes)];
    var w := if StripCr(raw) == [] then Walk([], [], [], Finished) else WalkTrailers(AfterLine(input).bytes);
    assert WalkTrailers(input.bytes) == FirstLine(raw, w);
    AllLinesFirst(Fits, raw, w);
  }

  lemma {:induction false} NoFrontSize(input: Input)
    requires FrontSize(input) == None
    ensures !ClientAccepts(input)
  {
    var p := FindLf(input.bytes);
    if p < |input.bytes| {
      assert WalkBody(input.bytes).lines[0] == input.bytes[..p];
    }
  }

  lemma {:induction false} FrontSizeZero(input: Input)
    requires FrontSize(input).Some? && FrontSize(input).value.0 == 0
    ensures ClientAccepts(input) <==> ClientAcceptsTrailers(FrontSize(input).value.1)
    ensures ClientAccepts(input) ==> WalkBody(input.bytes).body == []
  {
    var p := FindLf(input.bytes);
    WalkAt(input.bytes, p, 0);
    AllLinesFirst(Fits, input.bytes[..p], WalkTrailers(AfterLine(input).bytes));
    WalkTrailersBody(AfterLine(input).bytes);
  }

  /** `input` is one chunk holding `data`, and then `later`, as far as the client can tell. */
  ghost predicate ChunkThen(input: Input, data: seq<Byte>, later: Input) {
    && |later.bytes| < |input.bytes|
    && (ClientAccepts(input) <==> ClientAccepts(later))
    && WalkBody(input.bytes).body == data + WalkBody(later.bytes).body
  }

  lemma {:induction false} FrontSizeSome(input: Input)
    requires FrontSize(input).Some? && 0 < FrontSize(input).value.0
    ensures var (n, later) := FrontSize(input).value;
            if |later.bytes| < n + 2 then !ClientAccepts(input)
            else ChunkThen(input, later.bytes[..n], later.Drop(n + 2))
  {
    var p := FindLf(input.bytes);
    var n := FrontSize(input).value.0;
    WalkAt(input.bytes, p, n);
    AllLinesFirst(Fits, input.bytes[..p], WalkChunk(AfterLine(input).bytes, n));
  }

  /** Chunk data and the two bytes behind it, whatever they are. */
  method ReadChunk(socket: Socket, size: nat) returns (r: Result<seq<Byte>, Error>)
    modifies socket
    ensures if size + 2 <= |old(socket.input.bytes)| then
              r == Ok(old(socket.input.bytes)[..size]) && socket.input == old(socket.input).Drop(size + 2)
            else r.Err?
  {
    ghost var front := socket.input;
    var chunk := socket.ReadExact(size, ShortBody);
    if chunk.Err? {
      return Err(chunk.error);
    }
    var crlf := socket.ReadExact(2, ChunkTrailer);
    if crlf.Err? {
      return Err(crlf.error);
    }
    DropDrop(front, size, 2);
    return chunk;
  }

  /** One turn of the client's loop; `Ok(None)` once the closing chunk and its trailers are read. */
  method NextChunk(socket: Socket) returns (r: Result<Option<seq<Byte>>, Error>)
    modifies socket
    ensures match r
            case Err(_) => !ClientAccepts(old(socket.input))
            case Ok(None) => ClientAccepts(old(socket.input)) && WalkBody(old(socket.input.bytes)).body == []
            case Ok(Some(data)) => ChunkThen(old(socket.input), data, socket.input)
  {
    hide ChunkSize, FindLf, WalkBody, WalkTrailers, Fits;
    ghost var front := socket.input;
    var size := NextSize(socket);
    if size.Err? {
      NoFrontSize(front);
      return Err(size.error);
    }
    if size.value == 0 {
      var drained := DrainTrailers(socket);
      FrontSizeZero(front);
      if drained.Err? {
        return Err(drained.error);
      }
      return Ok(None);
    }
    FrontSizeSome(front);
    var chunk := ReadChunk(socket, size.value);
    if chunk.Err? {
      return Err(chunk.error);
    }
    return Ok(Some(chunk.value));
  }

  method ReadChunkedBody(socket: Socket) returns (r: Result<seq<Byte>, Error>)
    modifies socket
    ensures r.Ok? <==> ClientAccepts(old(socket.input))
    ensures r.Ok? ==> r.value == WalkBody(old(socket.input.bytes)).body
  {
    var out: seq<Byte> := [];
    ghost var body := WalkBody(socket.input.bytes).body;
    while true
      invariant ClientAccepts(old(socket.input)) <==> ClientAccepts(socket.input)
      invariant body == out + WalkBody(socket.input.bytes).body
      decreases |socket.input.bytes|
    {
      var chunk := NextChunk(socket);
      if chunk.Err? {
        return Err(chunk.error);
      }
      if chunk.value == None {
        return Ok(out);
      }
      Append(out, chunk.value.value, WalkBody(socket.input.bytes).body);
      out := out + chunk.value.value;
    }
  }

  lemma Append<T>(a: seq<T>, b: seq<T>, c: seq<T>)
    ensures a + (b + c) == a + b + c
  {
  }

  method DrainTrailers(socket: Socket) returns (r: Result<(), Error>)
    modifies socket
    ensures r.Ok? <==> ClientAcceptsTrailers(old(socket.input))
  {
    while true
      invariant ClientAcceptsTrailers(old(socket.input)) <==> ClientAcceptsTrailers(socket.input)
      decreases |socket.input.bytes|
    {
      if FindLf(socket.input.bytes) < |socket.input.bytes| {
        ClientTrailerStep(socket.input);
      }
      var text := ReadLine(socket);
      if text.Err? {
        return Err(text.error);
      }
      if text.value == [] {
        return Ok(());
      }
    }
  }

  // ---- the blocking reader -------------------------------------------------------------

  /** `BufRead::read_line`: through the line feed or to the end of input, as valid UTF-8. */
  method ReadTextLine(socket: Socket, utf8: seq<Byte> -> bool) returns (r: Result<seq<Byte>, Error>)
    modifies socket
    ensures var front := old(socket.input); var p := FindLf(front.bytes);
            if p < |front.bytes| then
              if utf8(front.bytes[..p]) then r == Ok(front.bytes[..p + 1]) && socket.input == front.Drop(p + 1)
              else r.Err?
            else if front.faulty then r.Err?
            else if front.bytes == [] || utf8(front.bytes) then r == Ok(front.bytes) && socket.input == Input([], false)
            else r.Err?
  {
    var text: seq<Byte> := [];
    ghost var all := socket.input;
    while true
      invariant |text| <= |all.bytes| && text == all.bytes[..|text|] && socket.input == all.Drop(|text|)
      invariant forall i :: 0 <= i < |text| ==> text[i] != LF
      decreases |all.bytes| - |text|
    {
      var byte := socket.ReadByte();
      if byte.Err? {
        return Err(byte.error);
      }
      if byte.value == None {
        assert text == all.bytes && socket.input == Input([], false);
        return if text == [] || utf8(text) then Ok(text) else Err(InvalidUtf8);
      }
      if byte.value.value == LF {
        FindLfIs(all.bytes, |text|);
        assert all.bytes[..|text| + 1] == text + [LF];
        return if utf8(text) then Ok(text + [LF]) else Err(InvalidUtf8);
      }
      text := text + [byte.value.value];
    }
  }

  /** The blocking reader trims its line before it cuts the extensions off, terminator included. */
  function TrimmedSize(line: seq<Byte>): Option<nat> {
    ParseHex(Trim(Before(SEMICOLON, Trim(line))))
  }

  lemma {:induction false} TrimIgnoresLast(s: seq<Byte>, w: Byte)
    requires IsSpace(w)
    ensures Trim(s + [w]) == Trim(s)
  {
    if s != [] && IsSpace(s[0]) {
      assert (s + [w])[1..] == s[1..] + [w];
      TrimIgnoresLast(s[1..], w);
    } else if s == [] {
      assert s + [w] == [w] && [w][1..] == [];
    } else {
      assert (s + [w])[..|s|] == s;
    }
  }

  lemma {:induction false} BeforeSemicolonLast(s: seq<Byte>, w: Byte)
    requires w != SEMICOLON
    ensures Before(SEMICOLON, s + [w]) == if SEMICOLON in s then Before(SEMICOLON, s) else Before(SEMICOLON, s) + [w]
  {
    if s == [] {
      assert Before(SEMICOLON, [w]) == [w] + Before(SEMICOLON, [w][1..]);
    } else if s[0] != SEMICOLON {
      assert (s + [w])[1..] == s[1..] + [w];
      BeforeSemicolonLast(s[1..], w);
    }
  }

  lemma SizeIgnoresLast(s: seq<Byte>, w: Byte)
    requires IsSpace(w)
    ensures ChunkSize(s + [w]) == ChunkSize(s)
  {
    BeforeSemicolonLast(s, w);
    TrimIgnoresLast(Before(SEMICOLON, s), w);
  }

  lemma {:induction false} SizeIgnoresEnd(s: seq<Byte>)
    ensures ChunkSize(TrimEnd(s)) == ChunkSize(s)
  {
    hide ChunkSize, IsSpace;
    if s != [] && IsSpace(s[|s| - 1]) {
      SizeIgnoresEnd(s[..|s| - 1]);
      SizeIgnoresLast(s[..|s| - 1], s[|s| - 1]);
      assert s == s[..|s| - 1] + [s[|s| - 1]];
    }
  }

  lemma {:induction false} SizeIgnoresStart(s: seq<Byte>)
    ensures ChunkSize(TrimStart(s)) == ChunkSize(s)
  {
    if s != [] && IsSpace(s[0]) {
      SizeIgnoresStart(s[1..]);
      assert Before(SEMICOLON, s)[1..] == Before(SEMICOLON, s[1..]);
    }
  }

  lemma TrimmedSizeIsChunkSize(line: seq<Byte>)
    ensures TrimmedSize(line) == ChunkSize(line)
  {
    SizeIgnoresStart(line);
    SizeIgnoresEnd(TrimStart(line));
  }

  /** Both readers take the same size from a complete line, one with its terminator and one without. */
  lemma SameSize(raw: seq<Byte>)
    ensures TrimmedSize(raw + [LF]) == ChunkSize(StripCr(raw))
  {
    hide TrimmedSize, ChunkSize;
    TrimmedSizeIsChunkSize(raw + [LF]);
    SizeIgnoresLast(raw, LF);
    if raw != [] && raw[|raw| - 1] == CR {
      SizeIgnoresLast(StripCr(raw), CR);
      assert raw == StripCr(raw) + [CR];
    }
  }

  ghost predicate BlockingAcceptsTrailers(input: Input, utf8: seq<Byte> -> bool) {
    var w := WalkTrailers(input.bytes);
    AllLines(utf8, w.lines) && (w.stop.Finished? || (!input.faulty && (w.partial == [] || utf8(w.partial))))
  }

  lemma {:induction false} BlockingTrailerStep(input: Input, utf8: seq<Byte> -> bool)
    requires FindLf(input.bytes) < |input.bytes|
    ensures var raw := input.bytes[..FindLf(input.bytes)];
            BlockingAcceptsTrailers(input, utf8)
            <==> utf8(raw) && (StripCr(raw) == [] || BlockingAcceptsTrailers(AfterLine(input), utf8))
  {
    var raw := input.bytes[..FindLf(input.bytes)];
    var w := if StripCr(raw) == [] then Walk([], [], [], Finished) else WalkTrailers(AfterLine(input).bytes);
    assert WalkTrailers(input.bytes) == FirstLine(raw, w);
    AllLinesFirst(utf8, raw, w);
  }

  /** Trailer lines up to a blank one or to the end of input. */
  method BlockingDrainTrailers(socket: Socket, utf8: seq<Byte> -> bool) returns (r: Result<(), Error>)
    modifies socket
    ensures r.Ok? <==> BlockingAcceptsTrailers(old(socket.input), utf8)
  {
    while true
      invariant BlockingAcceptsTrailers(old(socket.input), utf8) <==> BlockingAcceptsTrailers(socket.input, utf8)
      decreases |socket.input.bytes|
    {
      ghost var front := socket.input;
      if FindLf(front.bytes) < |front.bytes| {
        BlockingTrailerStep(front, utf8);
      }
      var text := ReadTextLine(socket, utf8);
      if text.Err? {
        return Err(text.error);
      }
      if text.value == [] || text.value == [CR, LF] || text.value == [LF] {
        return Ok(());
      }
    }
  }

  /** The size the blocking reader sees at the front, and the input behind that line. */
  function BlockingSize(input: Input, utf8: seq<Byte> -> bool): Option<(nat, Input)> {
    var p := FindLf(input.bytes);
    if p < |input.bytes| then
      var size := ChunkSize(StripCr(input.bytes[..p]));
      if utf8(input.bytes[..p]) && size.Some? then Some((size.value, AfterLine(input))) else None
    else
      var size := ChunkSize(input.bytes);
      if !input.faulty && utf8(input.bytes) && size.Some? then Some((size.value, Input([], false))) else None
  }

  lemma {:induction false} BlockingNoSize(input: Input, utf8: seq<Byte> -> bool)
    requires BlockingSize(input, utf8) == None
    ensures !BlockingAccepts(input, utf8)
  {
    var p := FindLf(input.bytes);
    if p < |input.bytes| {
      assert WalkBody(input.bytes).lines[0] == input.bytes[..p];
    } else {
      assert ChunkSize([]) == None;
    }
  }

  lemma {:induction false} BlockingSizeZero(input: Input, utf8: seq<Byte> -> bool)
    requires BlockingSize(input, utf8).Some? && BlockingSize(input, utf8).value.0 == 0
    ensures BlockingAccepts(input, utf8) <==> BlockingAcceptsTrailers(BlockingSize(input, utf8).value.1, utf8)
    ensures BlockingAccepts(input, utf8) ==> WalkBody(input.bytes).body == []
  {
    var p := FindLf(input.bytes);
    if p < |input.bytes| {
      WalkAt(input.bytes, p, 0);
      AllLinesFirst(utf8, input.bytes[..p], WalkTrailers(AfterLine(input).bytes));
      WalkTrailersBody(AfterLine(input).bytes);
    }
  }

  /** `input` is one chunk holding `data`, and then `later`, as far as the blocking reader can tell. */
  ghost predicate BlockingChunkThen(input: Input, utf8: seq<Byte> -> bool, data: seq<Byte>, later: Input) {
    && |later.bytes| < |input.bytes|
    && (BlockingAccepts(input, utf8) <==> BlockingAccepts(later, utf8))
    && WalkBody(input.bytes).body == data + WalkBody(later.bytes).body
  }

  lemma {:induction false} BlockingSizeSome(input: Input, utf8: seq<Byte> -> bool)
    requires BlockingSize(input, utf8).Some? && 0 < BlockingSize(input, utf8).value.0
    ensures var (n, later) := BlockingSize(input, utf8).value;
            if |later.bytes| < n + 2 then !BlockingAccepts(input, utf8)
            else BlockingChunkThen(input, utf8, later.bytes[..n], later.Drop(n + 2))
  {
    var p := FindLf(input.bytes);
    var n := BlockingSize(input, utf8).value.0;
    if p < |input.bytes| {
      WalkAt(input.bytes, p, n);
      AllLinesFirst(utf8, input.bytes[..p], WalkChunk(AfterLine(input).bytes, n));
    }
  }

  method BlockingNextSize(socket: Socket, utf8: seq<Byte> -> bool) returns (r: Result<nat, Error>)
    modifies socket
    ensures match BlockingSize(old(socket.input), utf8)
            case None => r.Err?
            case Some((n, later)) => r == Ok(n) && socket.input == later
  {
    ghost var front := socket.input;
    var line := ReadTextLine(socket, utf8);
    if line.Err? {
      return Err(line.error);
    }
    ghost var p := FindLf(front.bytes);
    if p < |front.bytes| {
      SameSize(front.bytes[..p]);
      assert line.value == front.bytes[..p] + [LF];
    } else {
      TrimmedSizeIsChunkSize(front.bytes);
      assert ChunkSize([]) == None;
    }
    var size := TrimmedSize(line.value);
    return if size.Some? then Ok(size.value) else Err(BadChunkSize);
  }

  /** One turn of the blocking loop; `Ok(None)` once the closing chunk and its trailers are read. */
  method BlockingNextChunk(socket: Socket, utf8: seq<Byte> -> bool) returns (r: Result<Option<seq<Byte>>, Error>)
    modifies socket
    ensures match r
            case Err(_) => !BlockingAccepts(old(socket.input), utf8)
            case Ok(None) => BlockingAccepts(old(socket.input), utf8) && WalkBody(old(socket.input.bytes)).body == []
            case Ok(Some(data)) => BlockingChunkThen(old(socket.input), utf8, data, socket.input)
  {
    hide ChunkSize, FindLf, WalkBody, WalkTrailers, BlockingAccepts, BlockingAcceptsTrailers;
    ghost var front := socket.input;
    var size := BlockingNextSize(socket, utf8);
    if size.Err? {
      BlockingNoSize(front, utf8);
      return Err(size.error);
    }
    if size.value == 0 {
      BlockingSizeZero(front, utf8);
      var drained := BlockingDrainTrailers(socket, utf8);
      return if drained.Ok? then Ok(None) else Err(drained.error);
    }
    BlockingSizeSome(front, utf8);
    var chunk := ReadChunk(socket, size.value);
    return if chunk.Ok? then Ok(Some(chunk.value)) else Err(chunk.error);
  }

  method BlockingReadChunkedBody(socket: Socket, utf8: seq<Byte> -> bool) returns (r: Result<seq<Byte>, Error>)
    modifies socket
    ensures r.Ok? <==> BlockingAccepts(old(socket.input), utf8)
    ensures r.Ok? ==> r.value == WalkBody(old(socket.input.bytes)).body
  {
    var out: seq<Byte> := [];
    ghost var body := WalkBody(socket.input.bytes).body;
    while true
      invariant BlockingAccepts(old(socket.input), utf8) <==> BlockingAccepts(socket.input, utf8)
      invariant body == out + WalkBody(socket.input.bytes).body
      decreases |socket.input.bytes|
    {
      var chunk := BlockingNextChunk(socket, utf8);
      if chunk.Err? {
        return Err(chunk.error);
      }
      if chunk.value == None {
        return Ok(out);
      }
      Append(out, chunk.value.value, WalkBody(socket.input.bytes).body);
      out := out + chunk.value.value;
    }
  }

  // ---- agreement -----------------------------------------------------------------------

  /** Whatever the client accepts as UTF-8 lines, the blocking and the incremental reader take the same way. */
  lemma ClientIsStrictest(input: Input, utf8: seq<Byte> -> bool)
    requires ClientAccepts(input) && AllLines(utf8, WalkBody(input.bytes).lines)
    ensures BlockingAccepts(input, utf8)
    ensures Chunked(input) == Decoded(WalkBody(input.bytes).body, Clean)
  {
    ChunkedWalk(input);
  }

  /** The incremental reader ends cleanly on finished bodies and on those a close cut inside a chunk. */
  lemma IncrementalAccepts(input: Input)
    ensures Chunked(input).data == WalkBody(input.bytes).body
    ensures Chunked(input).end.Clean?
       <==> var stop := WalkBody(input.bytes).stop; stop.Finished? || (stop.CutInChunk? && !input.faulty)
  {
    ChunkedWalk(input);
  }

  /** Input that ends before the framing says the body does. */
  predicate EndsEarly(b: seq<Byte>) {
    WalkBody(b).stop in {CutInChunk, CutAfterChunk, CutInSizeLine, CutInTrailers}
  }

  /** The three readers disagree only over early ends, long lines and lines that are not UTF-8. */
  lemma OnlyDifferences(input: Input, utf8: seq<Byte> -> bool)
    requires !EndsEarly(input.bytes)
    requires AllLines(Fits, WalkBody(input.bytes).lines) && AllLines(utf8, WalkBody(input.bytes).lines)
    ensures ClientAccepts(input) == BlockingAccepts(input, utf8) == Chunked(input).end.Clean?
    ensures Chunked(input).data == WalkBody(input.bytes).body
  {
    ChunkedWalk(input);
  }

  /** Every encoding with short UTF-8 lines is read back by all three, whatever follows it. */
  lemma AllThreeRoundTrip(chunks: seq<Chunk>, last: LastChunk, rest: seq<Byte>, faulty: bool, utf8: seq<Byte> -> bool)
    requires ValidChunks(chunks) && ValidLast(last)
    requires AllLines(Fits, FramingLines(chunks, last)) && AllLines(utf8, FramingLines(chunks, last))
    ensures var input := Input(EncodeBody(chunks, last) + rest, faulty);
            && ClientAccepts(input) && BlockingAccepts(input, utf8)
            && WalkBody(input.bytes).body == ChunkData(chunks)
            && Chunked(input) == Decoded(ChunkData(chunks), Clean)
  {
    WalkRoundTrip(chunks, last, rest);
    ClientIsStrictest(Input(EncodeBody(chunks, last) + rest, faulty), utf8);
  }
}
