/** Docker's multiplexed stream: frames of an 8-byte header and a payload, read off a body. */
module Frames {
  import opened Wrappers
  import opened Wire
  import opened ChunkedCoding
  import opened BodyReading

  datatype StreamType = Stdin | Stdout | Stderr

  datatype Frame = Frame(stream: StreamType, payload: seq<Byte>)

  function StreamOf(code: Byte): Option<StreamType> {
    if code == 0 then Some(Stdin) else if code == 1 then Some(Stdout) else if code == 2 then Some(Stderr) else None
  }

  const MAX_PAYLOAD: nat := 0xFFFF_FFFF

  function BigEndian(a: Byte, b: Byte, c: Byte, d: Byte): (n: nat)
    ensures n <= MAX_PAYLOAD
  {
    ((a as nat * 256 + b as nat) * 256 + c as nat) * 256 + d as nat
  }

  // ---- what a decoded body means as frames ---------------------------------------------

  datatype FrameResult = Done | Next(frame: Frame, rest: Decoded) | Bad(error: Error)

  function PayloadOf(stream: StreamType, len: nat, body: Decoded): FrameResult {
    if len == 0 then Next(Frame(stream, []), body)
    else
      match Take(body, len)
      case NoMore => Bad(EndedMidFrame)
      case Got(payload, rest) => Next(Frame(stream, payload), rest)
      case Failed(e) => Bad(e)
  }

  function FrameBehind(header: seq<Byte>, body: Decoded): FrameResult
    requires |header| == 8
  {
    match StreamOf(header[0])
    case None => Bad(BadStreamType(header[0]))
    case Some(stream) => PayloadOf(stream, BigEndian(header[4], header[5], header[6], header[7]), body)
  }

  function NextFrame(d: Decoded): FrameResult {
    match Take(d, 8)
    case NoMore => Done
    case Got(header, rest) => FrameBehind(header, rest)
    case Failed(e) => Bad(e)
  }

  /** The frames a body holds, and how the stream of them ends. */
  datatype Stream = Stream(frames: seq<Frame>, end: End)

  function AllFrames(d: Decoded): Stream
    decreases |d.data|
  {
    match NextFrame(d)
    case Done => Stream([], Clean)
    case Bad(e) => Stream([], Broken(e))
    case Next(frame, rest) =>
      NextFrameShrinks(d);
      var later := AllFrames(rest);
      Stream([frame] + later.frames, later.end)
  }

  lemma NextFrameShrinks(d: Decoded)
    requires NextFrame(d).Next?
    ensures |NextFrame(d).rest.data| < |d.data|
  {
  }

  // ---- reading frames ------------------------------------------------------------------

  method ReadFrame(body: BodyReader) returns (r: Result<Option<Frame>, Error>)
    requires body.Valid()
    modifies body, body.socket
    ensures r.Ok? ==> body.Valid()
    ensures match NextFrame(old(body.View()))
            case Done => r == Ok(None) && body.View() == old(body.View())
            case Next(frame, rest) => r == Ok(Some(frame)) && body.View() == rest
            case Bad(e) => r == Err(e)
  {
    hide Chunked, InChunk, FindLf, StreamOf, BigEndian;
    var header := new Byte[8];
    var got := body.ReadExactOrEof(header);
    if got.Err? {
      return Err(got.error);
    }
    if !got.value {
      return Ok(None);
    }
    ghost var behind := body.View();
    var stream := StreamOf(header[0]);
    if stream == None {
      return Err(BadStreamType(header[0]));
    }
    var len := BigEndian(header[4], header[5], header[6], header[7]);
    var payload := new Byte[len];
    if len > 0 {
      got := body.ReadExactOrEof(payload);
      if got.Err? {
        return Err(got.error);
      }
      if !got.value {
        return Err(EndedMidFrame);
      }
    }
    assert len == 0 ==> payload[..] == [];
    return Ok(Some(Frame(stream.value, payload[..])));
  }

  /** The payloads of one stream, concatenated in frame order. */
  function PayloadsOf(stream: StreamType, frames: seq<Frame>): seq<Byte> {
    if frames == [] then []
    else (if frames[0].stream == stream then frames[0].payload else []) + PayloadsOf(stream, frames[1..])
  }

  lemma PayloadsStep(d: Decoded)
    ensures match NextFrame(d)
            case Next(f, rest) =>
              && |rest.data| < |d.data|
              && AllFrames(d).end == AllFrames(rest).end
              && forall t :: PayloadsOf(t, AllFrames(d).frames)
                          == (if f.stream == t then f.payload else []) + PayloadsOf(t, AllFrames(rest).frames)
            case Done => AllFrames(d) == Stream([], Clean) && forall t :: PayloadsOf(t, AllFrames(d).frames) == []
            case Bad(e) => AllFrames(d) == Stream([], Broken(e)) && forall t :: PayloadsOf(t, AllFrames(d).frames) == []
  {
  }

  /** Routes every remaining payload to its stream; `exec`'s two output buffers. */
  method DemuxInto(body: BodyReader) returns (end: End, stdout: seq<Byte>, stderr: seq<Byte>)
    requires body.Valid()
    modifies body, body.socket
    ensures var s := AllFrames(old(body.View()));
            && end == s.end
            && stdout == PayloadsOf(Stdout, s.frames)
            && stderr == PayloadsOf(Stderr, s.frames)
  {
    hide NextFrame, AllFrames, PayloadsOf, Chunked, InChunk;
    stdout, stderr := [], [];
    ghost var whole := AllFrames(body.View());
    while true
      invariant body.Valid()
      invariant whole.end == AllFrames(body.View()).end
      invariant PayloadsOf(Stdout, whole.frames) == stdout + PayloadsOf(Stdout, AllFrames(body.View()).frames)
      invariant PayloadsOf(Stderr, whole.frames) == stderr + PayloadsOf(Stderr, AllFrames(body.View()).frames)
      decreases |body.View().data|
    {
      ghost var before := body.View();
      PayloadsStep(before);
      var frame := ReadFrame(body);
      if frame.Err? {
        return Broken(frame.error), stdout, stderr;
      }
      if frame.value == None {
        return Clean, stdout, stderr;
      }
      var f := frame.value.value;
      match f.stream
      case Stdout => stdout := stdout + f.payload;
      case Stderr => stderr := stderr + f.payload;
      case Stdin =>
    }
  }

  // ---- frames as they are sent -----------------------------------------------------------

  function CodeOf(stream: StreamType): Byte {
    match stream
    case Stdin => 0
    case Stdout => 1
    case Stderr => 2
  }

  function FourBytes(n: nat): (b: seq<Byte>)
    requires n <= 0xFFFF_FFFF
    ensures |b| == 4
  {
    [(n / 0x100_0000) as Byte, (n / 0x1_0000 % 256) as Byte, (n / 0x100 % 256) as Byte, (n % 256) as Byte]
  }

  lemma FourBytesRoundTrip(n: nat)
    requires n <= 0xFFFF_FFFF
    ensures var b := FourBytes(n); BigEndian(b[0], b[1], b[2], b[3]) == n
  {
  }

  lemma BigEndianRoundTrip(a: Byte, b: Byte, c: Byte, d: Byte)
    ensures FourBytes(BigEndian(a, b, c, d)) == [a, b, c, d]
  {
  }

  /** The stream's code, three bytes that mean nothing, and the length. */
  ghost predicate IsHeader(header: seq<Byte>, stream: StreamType, len: nat) {
    && |header| == 8 && header[0] == CodeOf(stream)
    && len <= 0xFFFF_FFFF && header[4..] == FourBytes(len)
  }

  ghost predicate IsFrame(piece: seq<Byte>, f: Frame) {
    |piece| >= 8 && IsHeader(piece[..8], f.stream, |f.payload|) && piece[8..] == f.payload
  }

  /** The bytes are these frames, one behind the other. */
  ghost predicate AreFrames(bytes: seq<Byte>, frames: seq<Frame>)
    decreases |frames|
  {
    if frames == [] then bytes == []
    else exists piece, later :: bytes == piece + later && IsFrame(piece, frames[0]) && AreFrames(later, frames[1..])
  }

  function EncodeFrame(f: Frame): seq<Byte>
    requires |f.payload| <= 0xFFFF_FFFF
  {
    [CodeOf(f.stream), 0, 0, 0] + FourBytes(|f.payload|) + f.payload
  }

  predicate Encodable(frames: seq<Frame>) {
    forall i :: 0 <= i < |frames| ==> |frames[i].payload| <= 0xFFFF_FFFF
  }

  function EncodeFrames(frames: seq<Frame>): seq<Byte>
    requires Encodable(frames)
  {
    if frames == [] then [] else EncodeFrame(frames[0]) + EncodeFrames(frames[1..])
  }

  /** Every list of frames whose lengths fit has such bytes. */
  lemma {:induction false} EncodedAreFrames(frames: seq<Frame>)
    requires Encodable(frames)
    ensures AreFrames(EncodeFrames(frames), frames)
  {
    if frames != [] {
      EncodedAreFrames(frames[1..]);
      assert IsFrame(EncodeFrame(frames[0]), frames[0]);
    }
  }

  // ---- and as they are read --------------------------------------------------------------

  lemma TakeFront(front: seq<Byte>, later: seq<Byte>, end: End)
    requires front != []
    ensures Take(Decoded(front + later, end), |front|) == Got(front, Decoded(later, end))
  {
  }

  lemma CodesExactly(code: Byte, stream: StreamType)
    ensures StreamOf(code) == Some(stream) <==> code == CodeOf(stream)
    ensures StreamOf(code) == None <==> 2 < code
  {
  }

  lemma HeaderDecodes(header: seq<Byte>, stream: StreamType, len: nat, body: Decoded)
    requires IsHeader(header, stream, len)
    ensures FrameBehind(header, body) == PayloadOf(stream, len, body)
  {
    hide BigEndian, CodeOf, StreamOf, FourBytes;
    FourBytesRoundTrip(len);
    CodesExactly(header[0], stream);
    assert header[4..][0] == header[4] && header[4..][1] == header[5];
    assert header[4..][2] == header[6] && header[4..][3] == header[7];
  }

  lemma FrameRoundTrip(piece: seq<Byte>, f: Frame, later: seq<Byte>, end: End)
    requires IsFrame(piece, f)
    ensures NextFrame(Decoded(piece + later, end)) == Next(f, Decoded(later, end))
  {
    hide FourBytes, BigEndian, CodeOf, StreamOf, IsHeader;
    var body := Decoded(f.payload + later, end);
    HeaderIsEight(piece[..8], f.stream, |f.payload|);
    TakeFront(piece[..8], body.data, end);
    assert piece + later == piece[..8] + body.data;
    HeaderDecodes(piece[..8], f.stream, |f.payload|, body);
    if f.payload == [] {
      assert body.data == later;
    } else {
      TakeFront(f.payload, later, end);
    }
  }

  lemma HeaderIsEight(header: seq<Byte>, stream: StreamType, len: nat)
    requires IsHeader(header, stream, len)
    ensures |header| == 8
  {
  }

  lemma AllFramesFirst(d: Decoded)
    requires NextFrame(d).Next?
    ensures var later := AllFrames(NextFrame(d).rest);
            AllFrames(d) == Stream([NextFrame(d).frame] + later.frames, later.end)
  {
  }

  /** Reading back frames followed by anything: the frames, then whatever the rest holds. */
  lemma {:induction false} FramesRoundTrip(bytes: seq<Byte>, frames: seq<Frame>, later: Decoded)
    requires AreFrames(bytes, frames)
    ensures AllFrames(Prepend(bytes, later)) == Stream(frames + AllFrames(later).frames, AllFrames(later).end)
    decreases |frames|
  {
    hide AllFrames, NextFrame, IsFrame;
    if frames == [] {
      assert Prepend([], later) == later;
      assert frames + AllFrames(later).frames == AllFrames(later).frames;
    } else {
      var piece, behind :| bytes == piece + behind && IsFrame(piece, frames[0]) && AreFrames(behind, frames[1..]);
      var tail := Prepend(behind, later);
      assert bytes + later.data == piece + tail.data;
      FrameRoundTrip(piece, frames[0], tail.data, later.end);
      AllFramesFirst(Prepend(bytes, later));
      FramesRoundTrip(behind, frames[1..], later);
      assert frames + AllFrames(later).frames == [frames[0]] + (frames[1..] + AllFrames(later).frames);
    }
  }

  /** The error that ends a body whose last frame is not all there. */
  function MidFrame(end: End): Error {
    if end.Broken? then end.error else EndedMidFrame
  }

  lemma CutFrame(piece: seq<Byte>, f: Frame, cut: nat, end: End)
    requires IsFrame(piece, f) && cut < |piece| && (0 < cut || end.Broken?)
    ensures NextFrame(Decoded(piece[..cut], end)) == Bad(MidFrame(end))
  {
    hide FourBytes, BigEndian, CodeOf, StreamOf, IsHeader;
    var part := piece[..cut];
    if cut >= 8 {
      var body := Decoded(part[8..], end);
      assert part == piece[..8] + body.data;
      TakeFront(piece[..8], body.data, end);
      HeaderDecodes(piece[..8], f.stream, |f.payload|, body);
    }
  }

  /**
   A body that stops anywhere inside a frame, or fails anywhere in front of one, delivers the
   frames before it and then an error.
  */
  lemma CutInsideFrame(bytes: seq<Byte>, frames: seq<Frame>, piece: seq<Byte>, f: Frame, cut: nat, end: End)
    requires AreFrames(bytes, frames) && IsFrame(piece, f)
    requires cut < |piece| && (0 < cut || end.Broken?)
    ensures AllFrames(Decoded(bytes + piece[..cut], end)) == Stream(frames, Broken(MidFrame(end)))
  {
    hide NextFrame, IsFrame, AreFrames;
    CutFrame(piece, f, cut, end);
    FramesRoundTrip(bytes, frames, Decoded(piece[..cut], end));
    assert frames + [] == frames;
  }

  /** A stream type nobody knows stops the reading at its frame. */
  lemma UnknownStream(bytes: seq<Byte>, frames: seq<Frame>, header: seq<Byte>, later: seq<Byte>, end: End)
    requires AreFrames(bytes, frames) && |header| == 8 && 2 < header[0]
    ensures AllFrames(Decoded(bytes + (header + later), end)) == Stream(frames, Broken(BadStreamType(header[0])))
  {
    hide AreFrames;
    var d := Decoded(header + later, end);
    TakeFront(header, later, end);
    CodesExactly(header[0], Stdin);
    FramesRoundTrip(bytes, frames, d);
    assert frames + [] == frames;
  }

  lemma NextIsFrame(d: Decoded) returns (piece: seq<Byte>)
    requires NextFrame(d).Next?
    ensures IsFrame(piece, NextFrame(d).frame) && d.data == piece + NextFrame(d).rest.data
    ensures NextFrame(d).rest.end == d.end
  {
    hide BigEndian, CodeOf, StreamOf, FourBytes;
    var f := NextFrame(d).frame;
    var header := d.data[..8];
    BigEndianRoundTrip(header[4], header[5], header[6], header[7]);
    CodesExactly(header[0], f.stream);
    piece := d.data[..8 + |f.payload|];
    assert header[4..] == [header[4], header[5], header[6], header[7]];
    assert piece[..8] == header && piece[8..] == f.payload;
  }

  /** The stream of frames ends cleanly exactly when the body does and all of it is frames. */
  lemma {:induction false} FramesExactly(d: Decoded, frames: seq<Frame>)
    ensures AllFrames(d) == Stream(frames, Clean) <==> d.end == Clean && AreFrames(d.data, frames)
    decreases |d.data|
  {
    hide NextFrame, IsFrame;
    NothingIsNoFrame(d);
    if d.end == Clean && AreFrames(d.data, frames) {
      FramesRoundTrip(d.data, frames, Decoded([], Clean));
      NothingIsNoFrame(Decoded([], Clean));
      assert Prepend(d.data, Decoded([], Clean)) == d && frames + [] == frames;
    }
    if AllFrames(d) == Stream(frames, Clean) && frames != [] {
      var piece := NextIsFrame(d);
      NextFrameShrinks(d);
      FramesExactly(NextFrame(d).rest, frames[1..]);
      assert IsFrame(piece, frames[0]) && AreFrames(NextFrame(d).rest.data, frames[1..]);
    }
  }

  lemma NothingIsNoFrame(d: Decoded)
    ensures NextFrame(d) == Done <==> d == Decoded([], Clean)
  {
  }

  // ---- what the streams carry ------------------------------------------------------------

  /** The payloads of a stream, frame by frame: a frame's own, or nothing. */
  lemma {:induction false} PayloadsAppend(stream: StreamType, a: seq<Frame>, b: seq<Frame>)
    ensures PayloadsOf(stream, a + b) == PayloadsOf(stream, a) + PayloadsOf(stream, b)
  {
    if a == [] {
      assert a + b == b;
    } else {
      assert (a + b)[1..] == a[1..] + b;
      PayloadsAppend(stream, a[1..], b);
    }
  }

  lemma PayloadOfOne(stream: StreamType, f: Frame)
    ensures PayloadsOf(stream, [f]) == if f.stream == stream then f.payload else []
  {
  }
}
