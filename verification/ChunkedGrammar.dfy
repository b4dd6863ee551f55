/**
 The grammar of chunked bodies as a reference the decoders are judged by: an encoder, a walk
 that records every framing line and where the input stops fitting, and their round trip.
*/
module ChunkedGrammar {
  import opened Wrappers
  import opened Sequences
  import opened Wire
  import opened ChunkedCoding
  import opened Spelling

  // ---- the encoder the decoders are judged by ----------------------------------------

  /** One chunk: its data, and how its size line was spelled. */
  datatype Chunk = Chunk(data: seq<Byte>, sizeLine: seq<Byte>)

  /** One line that spells the size, in any way it can be spelled. */
  ghost predicate ValidSizeLine(line: seq<Byte>, size: nat) {
    SpellsSize(line, size) && LF !in line
  }

  ghost predicate ValidChunk(c: Chunk) {
    0 < |c.data| <= 0xFFFF_FFFF_FFFF_FFFF && ValidSizeLine(c.sizeLine, |c.data|)
  }

  ghost predicate ValidChunks(chunks: seq<Chunk>) {
    forall i :: 0 <= i < |chunks| ==> ValidChunk(chunks[i])
  }

  /** The closing part of a chunked body: the zero-size line and its trailer fields. */
  datatype LastChunk = LastChunk(sizeLine: seq<Byte>, trailers: seq<seq<Byte>>)

  ghost predicate ValidLast(last: LastChunk) {
    ValidSizeLine(last.sizeLine, 0) && ValidTrailers(last.trailers)
  }

  ghost predicate ValidTrailers(trailers: seq<seq<Byte>>) {
    forall i :: 0 <= i < |trailers| ==> trailers[i] != [] && LF !in trailers[i]
  }

  function Line(text: seq<Byte>): seq<Byte> {
    text + [CR, LF]
  }

  function EncodeTrailers(trailers: seq<seq<Byte>>): seq<Byte> {
    if trailers == [] then Line([]) else Line(trailers[0]) + EncodeTrailers(trailers[1..])
  }

  function EncodeChunks(chunks: seq<Chunk>): seq<Byte> {
    if chunks == [] then []
    else Line(chunks[0].sizeLine) + Line(chunks[0].data) + EncodeChunks(chunks[1..])
  }

  function EncodeBody(chunks: seq<Chunk>, last: LastChunk): seq<Byte> {
    EncodeChunks(chunks) + (Line(last.sizeLine) + EncodeTrailers(last.trailers))
  }

  function ChunkData(chunks: seq<Chunk>): seq<Byte> {
    Flatten(Map((c: Chunk) => c.data, chunks))
  }

  lemma TakeLine(text: seq<Byte>, rest: seq<Byte>)
    requires LF !in text
    ensures var b := Line(text) + rest;
            && FindLf(b) == |text| + 1
            && b[..|text| + 1] == text + [CR] && StripCr(b[..|text| + 1]) == text
            && b[|text| + 2..] == rest
  {
    var b := Line(text) + rest;
    forall i | 0 <= i < |text| + 1 ensures b[i] != LF {
      assert i < |text| ==> b[i] == text[i] && text[i] in text;
    }
    FindLfIs(b, |text| + 1);
    assert b[..|text| + 1] == text + [CR];
  }

  // ---- the walk ----------------------------------------------------------------------

  datatype Stop =
    | Finished        // the blank line behind the zero-size chunk
    | CutInChunk      // input ends inside chunk data
    | CutAfterChunk   // input ends inside the two bytes behind a chunk
    | CutInSizeLine   // input ends before the line feed of a size line
    | CutInTrailers   // input ends before the blank line
    | BadSize         // a size line that does not parse

  /** The data, the complete framing lines (without line feeds), the unfinished one, and the stop. */
  datatype Walk = Walk(body: seq<Byte>, lines: seq<seq<Byte>>, partial: seq<Byte>, stop: Stop)

  function WalkTrailers(b: seq<Byte>): Walk
    decreases |b|
  {
    var p := FindLf(b);
    if p == |b| then Walk([], [], b, CutInTrailers)
    else if StripCr(b[..p]) == [] then Walk([], [b[..p]], [], Finished)
    else FirstLine(b[..p], WalkTrailers(b[p + 1..]))
  }

  function FirstLine(line: seq<Byte>, w: Walk): Walk {
    w.(lines := [line] + w.lines)
  }

  function FirstData(data: seq<Byte>, w: Walk): Walk {
    w.(body := data + w.body)
  }

  function WalkBody(b: seq<Byte>): Walk
    decreases |b|, 0
  {
    var p := FindLf(b);
    if p == |b| then Walk([], [], b, CutInSizeLine)
    else
      FirstLine(b[..p],
                match ChunkSize(StripCr(b[..p]))
                case None => Walk([], [], [], BadSize)
                case Some(n) => if n == 0 then WalkTrailers(b[p + 1..]) else WalkChunk(b[p + 1..], n))
  }

  function WalkChunk(b: seq<Byte>, n: nat): Walk
    requires 0 < n
    decreases |b|, 1
  {
    if |b| < n then Walk(b, [], [], CutInChunk)
    else if |b| < n + 2 then Walk(b[..n - 1], [], [], CutAfterChunk)
    else FirstData(b[..n], WalkBody(b[n + 2..]))
  }

  /** How a body that stops there looks to the incremental reader. */
  function EndOf(stop: Stop, faulty: bool): End {
    match stop
    case Finished => Clean
    case CutInChunk => if faulty then Broken(Io) else Clean
    case CutAfterChunk => Broken(ChunkTrailer)
    case BadSize => Broken(BadChunkSize)
    case _ => Broken(if faulty then Io else ClosedMidLine)
  }

  lemma {:induction false} TrailersWalk(input: Input)
    ensures Trailers(input) == EndOf(WalkTrailers(input.bytes).stop, input.faulty)
    decreases |input.bytes|
  {
    var p := FindLf(input.bytes);
    if p < |input.bytes| && StripCr(input.bytes[..p]) != [] {
      TrailersWalk(input.Drop(p + 1));
    }
  }

  lemma {:induction false} ChunkedAt(input: Input, p: nat, n: nat)
    requires p == FindLf(input.bytes) < |input.bytes| && ChunkSize(StripCr(input.bytes[..p])) == Some(n)
    ensures Chunked(input)
         == if n == 0 then Decoded([], Trailers(input.Drop(p + 1))) else InChunk(input.Drop(p + 1), n)
  {
  }

  lemma {:induction false} WalkAt(b: seq<Byte>, p: nat, n: nat)
    requires p == FindLf(b) < |b| && ChunkSize(StripCr(b[..p])) == Some(n)
    ensures WalkBody(b) == FirstLine(b[..p], if n == 0 then WalkTrailers(b[p + 1..]) else WalkChunk(b[p + 1..], n))
  {
  }

  lemma {:induction false} WalkTrailersBody(b: seq<Byte>)
    ensures WalkTrailers(b).body == [] && WalkTrailers(b).stop in {Finished, CutInTrailers}
    decreases |b|
  {
    var p := FindLf(b);
    if p < |b| && StripCr(b[..p]) != [] {
      WalkTrailersBody(b[p + 1..]);
    }
  }

  /** The incremental reader's meaning of a chunked body is exactly what the walk finds. */
  lemma {:induction false} ChunkedWalk(input: Input)
    ensures Chunked(input) == Decoded(WalkBody(input.bytes).body, EndOf(WalkBody(input.bytes).stop, input.faulty))
    decreases |input.bytes|, 0
  {
    var p := FindLf(input.bytes);
    if p < |input.bytes| && ChunkSize(StripCr(input.bytes[..p])).Some? {
      var later := input.Drop(p + 1);
      var n := ChunkSize(StripCr(input.bytes[..p])).value;
      ChunkedAt(input, p, n);
      WalkAt(input.bytes, p, n);
      if n == 0 {
        TrailersWalk(later);
        WalkTrailersBody(later.bytes);
      } else {
        ChunkWalk(later, n);
      }
    }
  }

  lemma {:induction false} ChunkWalk(input: Input, n: nat)
    requires 0 < n
    ensures InChunk(input, n)
         == Decoded(WalkChunk(input.bytes, n).body, EndOf(WalkChunk(input.bytes, n).stop, input.faulty))
    decreases |input.bytes|, 1
  {
    if n + 2 <= |input.bytes| {
      ChunkedWalk(input.Drop(n + 2));
    }
  }

  // ---- the round trip ------------------------------------------------------------------

  /** The framing lines an encoding contains, each still with its carriage return. */
  function TrailerLines(trailers: seq<seq<Byte>>): seq<seq<Byte>> {
    Map((t: seq<Byte>) => t + [CR], trailers) + [[CR]]
  }

  function SizeLines(chunks: seq<Chunk>): seq<seq<Byte>> {
    Map((c: Chunk) => c.sizeLine + [CR], chunks)
  }

  function FramingLines(chunks: seq<Chunk>, last: LastChunk): seq<seq<Byte>> {
    SizeLines(chunks) + [last.sizeLine + [CR]] + TrailerLines(last.trailers)
  }

  lemma TrailerLinesFirst(trailers: seq<seq<Byte>>)
    requires trailers != []
    ensures TrailerLines(trailers) == [trailers[0] + [CR]] + TrailerLines(trailers[1..])
  {
  }

  lemma {:induction false} TrailersRoundTrip(trailers: seq<seq<Byte>>, rest: seq<Byte>)
    requires ValidTrailers(trailers)
    ensures WalkTrailers(EncodeTrailers(trailers) + rest) == Walk([], TrailerLines(trailers), [], Finished)
  {
    if trailers == [] {
      TakeLine([], rest);
      assert TrailerLines(trailers) == [[CR]];
    } else {
      var t := trailers[0];
      var after := EncodeTrailers(trailers[1..]) + rest;
      assert EncodeTrailers(trailers) + rest == Line(t) + after;
      TakeLine(t, after);
      TrailersRoundTrip(trailers[1..], rest);
      TrailerLinesFirst(trailers);
    }
  }

  /** Walking past a size line, in front of anything. */
  lemma {:induction false} SizeLineWalk(line: seq<Byte>, n: nat, tail: seq<Byte>)
    requires ValidSizeLine(line, n) && n <= 0xFFFF_FFFF_FFFF_FFFF
    ensures WalkBody(Line(line) + tail)
         == FirstLine(line + [CR], if n == 0 then WalkTrailers(tail) else WalkChunk(tail, n))
  {
    TakeLine(line, tail);
    ChunkSizeExactly(line, n);
    WalkAt(Line(line) + tail, |line| + 1, n);
  }

  /** Chunks in front of anything: their lines and data, and then what follows. */
  function Behind(chunks: seq<Chunk>, w: Walk): Walk {
    w.(lines := SizeLines(chunks) + w.lines, body := ChunkData(chunks) + w.body)
  }

  lemma BehindFirst(chunks: seq<Chunk>, w: Walk)
    requires chunks != []
    ensures Behind(chunks, w)
         == FirstLine(chunks[0].sizeLine + [CR], FirstData(chunks[0].data, Behind(chunks[1..], w)))
  {
    assert Map((c: Chunk) => c.data, chunks)[1..] == Map((c: Chunk) => c.data, chunks[1..]);
    assert SizeLines(chunks) == [chunks[0].sizeLine + [CR]] + SizeLines(chunks[1..]);
  }

  lemma BehindNone(w: Walk)
    ensures Behind([], w) == w
  {
  }

  lemma EncodeFirst(chunks: seq<Chunk>, tail: seq<Byte>)
    requires chunks != []
    ensures EncodeChunks(chunks) + tail
         == Line(chunks[0].sizeLine) + (Line(chunks[0].data) + (EncodeChunks(chunks[1..]) + tail))
  {
  }

  lemma {:induction false} ChunksWalk(chunks: seq<Chunk>, tail: seq<Byte>)
    requires ValidChunks(chunks)
    ensures WalkBody(EncodeChunks(chunks) + tail) == Behind(chunks, WalkBody(tail))
  {
    hide WalkBody, ValidSizeLine, Behind;
    if chunks == [] {
      BehindNone(WalkBody(tail));
      assert EncodeChunks(chunks) + tail == tail;
    } else {
      var c, later := chunks[0], EncodeChunks(chunks[1..]) + tail;
      assert ValidChunk(c);
      EncodeFirst(chunks, tail);
      SizeLineWalk(c.sizeLine, |c.data|, Line(c.data) + later);
      assert (Line(c.data) + later)[..|c.data|] == c.data && (Line(c.data) + later)[|c.data| + 2..] == later;
      ChunksWalk(chunks[1..], tail);
      BehindFirst(chunks, WalkBody(tail));
    }
  }

  /** However a body is cut into chunks and however their size lines are spelled, the walk restores it. */
  lemma {:induction false} WalkRoundTrip(chunks: seq<Chunk>, last: LastChunk, rest: seq<Byte>)
    requires ValidChunks(chunks) && ValidLast(last)
    ensures WalkBody(EncodeBody(chunks, last) + rest)
         == Walk(ChunkData(chunks), FramingLines(chunks, last), [], Finished)
  {
    hide WalkBody, WalkTrailers, EncodeChunks, ValidSizeLine;
    var closing := Line(last.sizeLine) + (EncodeTrailers(last.trailers) + rest);
    assert EncodeBody(chunks, last) + rest == EncodeChunks(chunks) + closing;
    ChunksWalk(chunks, closing);
    SizeLineWalk(last.sizeLine, 0, EncodeTrailers(last.trailers) + rest);
    TrailersRoundTrip(last.trailers, rest);
    assert ChunkData(chunks) + [] == ChunkData(chunks);
  }

  /** The incremental reader restores every encoding, whatever follows it on the connection. */
  lemma ChunkedRoundTrip(chunks: seq<Chunk>, last: LastChunk, rest: seq<Byte>, faulty: bool)
    requires ValidChunks(chunks) && ValidLast(last)
    ensures Chunked(Input(EncodeBody(chunks, last) + rest, faulty)) == Decoded(ChunkData(chunks), Clean)
  {
    WalkRoundTrip(chunks, last, rest);
    ChunkedWalk(Input(EncodeBody(chunks, last) + rest, faulty));
  }

  // ---- cut short -----------------------------------------------------------------------

  /** Cut inside the data of a chunk: the data so far, and a stop that tells. */
  lemma {:induction false} CutInData(chunks: seq<Chunk>, sizeLine: seq<Byte>, n: nat, part: seq<Byte>)
    requires ValidChunks(chunks) && ValidSizeLine(sizeLine, n) && |part| < n <= 0xFFFF_FFFF_FFFF_FFFF
    ensures var w := WalkBody(EncodeChunks(chunks) + (Line(sizeLine) + part));
            w.body == ChunkData(chunks) + part && w.stop == CutInChunk
  {
    hide WalkBody, ValidSizeLine;
    ChunksWalk(chunks, Line(sizeLine) + part);
    SizeLineWalk(sizeLine, n, part);
  }

  lemma {:induction false} CutLine(line: seq<Byte>, k: nat)
    requires LF !in line && k < |Line(line)|
    ensures FindLf(Line(line)[..k]) == k
  {
    var cut := Line(line)[..k];
    forall i | 0 <= i < k ensures cut[i] != LF {
      assert i < |line| ==> cut[i] == line[i] && line[i] in line;
    }
  }

  lemma {:induction false} CutTrailers(trailers: seq<seq<Byte>>, k: nat)
    requires ValidTrailers(trailers) && k < |EncodeTrailers(trailers)|
    ensures WalkTrailers(EncodeTrailers(trailers)[..k]).stop == CutInTrailers
  {
    var t := if trailers == [] then [] else trailers[0];
    if k < |Line(t)| {
      assert EncodeTrailers(trailers)[..k] == Line(t)[..k];
      CutLine(t, k);
    } else {
      var after := EncodeTrailers(trailers[1..])[..k - |Line(t)|];
      assert EncodeTrailers(trailers)[..k] == Line(t) + after;
      TakeLine(t, after);
      CutTrailers(trailers[1..], k - |Line(t)|);
    }
  }

  /** The last part of an encoding, cut anywhere. */
  lemma {:induction false} CutLast(last: LastChunk, k: nat)
    requires ValidLast(last) && k < |Line(last.sizeLine) + EncodeTrailers(last.trailers)|
    ensures WalkBody((Line(last.sizeLine) + EncodeTrailers(last.trailers))[..k]).stop
            in {CutInSizeLine, CutInTrailers}
  {
    var whole := Line(last.sizeLine) + EncodeTrailers(last.trailers);
    if k < |Line(last.sizeLine)| {
      assert whole[..k] == Line(last.sizeLine)[..k];
      CutLine(last.sizeLine, k);
    } else {
      var j := k - |Line(last.sizeLine)|;
      assert whole[..k] == Line(last.sizeLine) + EncodeTrailers(last.trailers)[..j];
      SizeLineWalk(last.sizeLine, 0, EncodeTrailers(last.trailers)[..j]);
      CutTrailers(last.trailers, j);
    }
  }

  /** One chunk, cut anywhere. */
  lemma {:induction false} CutChunk(c: Chunk, k: nat)
    requires ValidChunk(c) && k < |Line(c.sizeLine) + Line(c.data)|
    ensures WalkBody((Line(c.sizeLine) + Line(c.data))[..k]).stop in {CutInSizeLine, CutInChunk, CutAfterChunk}
  {
    var whole := Line(c.sizeLine) + Line(c.data);
    if k < |Line(c.sizeLine)| {
      assert whole[..k] == Line(c.sizeLine)[..k];
      CutLine(c.sizeLine, k);
    } else {
      var j := k - |Line(c.sizeLine)|;
      assert whole[..k] == Line(c.sizeLine) + Line(c.data)[..j];
      SizeLineWalk(c.sizeLine, |c.data|, Line(c.data)[..j]);
    }
  }

  /** An encoding that is cut short anywhere, by a single byte even, is not a finished body. */
  lemma {:induction false} CutIsUnfinished(chunks: seq<Chunk>, last: LastChunk, k: nat)
    requires ValidChunks(chunks) && ValidLast(last) && k < |EncodeBody(chunks, last)|
    ensures WalkBody(EncodeBody(chunks, last)[..k]).stop
            in {CutInSizeLine, CutInChunk, CutAfterChunk, CutInTrailers}
  {
    hide WalkBody, ValidChunk, ValidLast;
    if chunks == [] {
      assert EncodeBody(chunks, last) == Line(last.sizeLine) + EncodeTrailers(last.trailers);
      CutLast(last, k);
    } else {
      var c := chunks[0];
      var first := Line(c.sizeLine) + Line(c.data);
      assert ValidChunk(c);
      assert EncodeBody(chunks, last) == first + EncodeBody(chunks[1..], last);
      if k < |first| {
        assert EncodeBody(chunks, last)[..k] == first[..k];
        CutChunk(c, k);
      } else {
        var after := EncodeBody(chunks[1..], last)[..k - |first|];
        assert EncodeBody(chunks, last)[..k] == EncodeChunks([c]) + after;
        ChunksWalk([c], after);
        CutIsUnfinished(chunks[1..], last, k - |first|);
      }
    }
  }
}
