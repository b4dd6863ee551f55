/**
 The incremental body reader: fills caller-sized buffers from a socket that returns short
 reads, removing the chunked coding on the way.
*/
module BodyReading {
  import opened Wrappers
  import opened Sequences
  import opened Wire
  import opened ChunkedCoding

  /** The part of a response head that decides how the body is delimited. */
  datatype ParsedHeaders = ParsedHeaders(status: nat, chunked: bool, contentLength: Option<nat>)

  /** What a body delimited as `headers` say means, from its first byte. */
  function Body(headers: ParsedHeaders, input: Input): Decoded {
    if headers.chunked then Chunked(input)
    else Plain(input, if headers.contentLength.Some? then headers.contentLength.value else USIZE_MAX)
  }

  /** The three outcomes of asking a body for exactly `k` bytes. */
  datatype Taken = NoMore | Got(data: seq<Byte>, rest: Decoded) | Failed(error: Error)

  function Take(d: Decoded, k: nat): Taken
    requires 0 < k
  {
    if k <= |d.data| then Got(d.data[..k], d.Drop(k))
    else if d.end.Broken? then Failed(d.end.error)
    else if d.data == [] then NoMore
    else Failed(EndedMidFrame)
  }

  /** The meaning of a reader's fields: `remaining == 0` is the start of a size line, never the end of a chunk. */
  function Remainder(chunked: bool, remaining: nat, exhausted: bool, input: Input): Decoded {
    if remaining > 0 then if chunked then InChunk(input, remaining) else Plain(input, remaining)
    else if chunked && !exhausted then Chunked(input)
    else Decoded([], Clean)
  }

  lemma RemainderAtEnd(chunked: bool, remaining: nat, exhausted: bool, input: Input)
    requires 0 < remaining && input.bytes == []
    ensures Remainder(chunked, remaining, exhausted, input) == Decoded([], EndOfInput(input.faulty))
  {
  }

  /** A read of `n` bytes inside a unit, with the eager read of the two bytes behind a finished chunk. */
  lemma RemainderAfter(chunked: bool, remaining: nat, exhausted: bool, input: Input, n: nat)
    requires 0 < n <= remaining && n <= |input.bytes|
    ensures var before := Remainder(chunked, remaining, exhausted, input);
            if !chunked || n < remaining then
              before == Prepend(input.bytes[..n], Remainder(chunked, remaining - n, exhausted, input.Drop(n)))
            else if |input.bytes| < n + 2 then
              before == Decoded(input.bytes[..n - 1], Broken(ChunkTrailer))
            else
              before == Prepend(input.bytes[..n], Chunked(input.Drop(n).Drop(2)))
  {
  }

  lemma DropTwice(d: Decoded, a: nat, b: nat)
    requires a + b <= |d.data|
    ensures d.Drop(a).Drop(b) == d.Drop(a + b)
  {
  }

  // ---- any sequence of calls -----------------------------------------------------------

  /**
   What calls for `sizes` bytes each hand out until one does not, and what is then left. A call
   for no bytes at all hands out nothing, takes nothing, and is no reason to stop.
  */
  datatype Served = Served(slices: seq<seq<Byte>>, rest: Decoded)

  function Serve(d: Decoded, sizes: seq<nat>): Served
    decreases |sizes|
  {
    if sizes == [] then Served([], d)
    else if sizes[0] == 0 then var later := Serve(d, sizes[1..]); Served([[]] + later.slices, later.rest)
    else
      match Take(d, sizes[0])
      case Got(data, rest) => var later := Serve(rest, sizes[1..]); Served([data] + later.slices, later.rest)
      case _ => Served([], d)
  }

  /**
   Successive calls hand out consecutive slices of one body, each of the size asked for. The
   first that does not either finds no byte left, or fails: because fewer are left than it
   asked for, or because the framing breaks before it has them.
  */
  lemma {:induction false} ConsecutiveSlices(d: Decoded, sizes: seq<nat>)
    ensures var s := Serve(d, sizes);
            && Flatten(s.slices) + s.rest.data == d.data && s.rest.end == d.end
            && |s.slices| <= |sizes| && (forall i :: 0 <= i < |s.slices| ==> |s.slices[i]| == sizes[i])
            && (|s.slices| < |sizes| ==> sizes[|s.slices|] > 0)
            && (|s.slices| < |sizes| ==>
                  match Take(s.rest, sizes[|s.slices|])
                  case Got(_, _) => false
                  case NoMore => Flatten(s.slices) == d.data && d.end == Clean
                  case Failed(e) =>
                    && |s.rest.data| < sizes[|s.slices|]
                    && (d.end == Broken(e) || (d.end == Clean && e == EndedMidFrame && s.rest.data != [])))
    decreases |sizes|
  {
    var s := Serve(d, sizes);
    if s.slices == [] {
      assert [] + s.rest.data == s.rest.data;
    } else {
      var data, rest := d.data[..sizes[0]], d.Drop(sizes[0]);
      assert d.Drop(0) == d && d.data[..0] == [];
      var later := Serve(rest, sizes[1..]);
      ConsecutiveSlices(rest, sizes[1..]);
      assert s.slices[1..] == later.slices;
      SplitTake(d.data, sizes[0], Flatten(later.slices), later.rest.data);
    }
  }

  lemma SplitTake<T>(s: seq<T>, k: nat, a: seq<T>, b: seq<T>)
    requires k <= |s| && a + b == s[k..]
    ensures s[..k] + a + b == s && (b == [] ==> s[..k] + a == s)
  {
  }

  class BodyReader {
    const socket: Socket
    const chunked: bool
    var remainingInUnit: nat
    var exhausted: bool

    /** A reader that met the end of input inside a unit has nothing left on its socket. */
    ghost predicate Valid()
      reads this, socket
    {
      exhausted && remainingInUnit > 0 ==> socket.input.bytes == []
    }

    /** The decoded remainder: everything the reader can still hand out. */
    ghost function View(): Decoded
      reads this, socket
    {
      Remainder(chunked, remainingInUnit, exhausted, socket.input)
    }

    constructor (socket: Socket, headers: ParsedHeaders)
      ensures Valid() && this.socket == socket && View() == Body(headers, socket.input)
    {
      this.socket := socket;
      this.chunked := headers.chunked;
      this.remainingInUnit :=
        if headers.chunked then 0
        else if headers.contentLength.Some? then headers.contentLength.value else USIZE_MAX;
      this.exhausted := false;
      new;
    }

    /** Reads one framing line, without a length bound. */
    method ReadLine() returns (r: Result<seq<Byte>, Error>)
      modifies socket
      ensures var p := FindLf(old(socket.input.bytes));
              if p == |old(socket.input.bytes)| then r == Err(NoLine(old(socket.input.faulty)))
              else r == Ok(StripCr(old(socket.input.bytes)[..p])) && socket.input == old(socket.input).Drop(p + 1)
    {
      var raw: seq<Byte> := [];
      ghost var all := socket.input;
      while true
        invariant |raw| <= |all.bytes| && raw == all.bytes[..|raw|] && socket.input == all.Drop(|raw|)
        invariant forall i :: 0 <= i < |raw| ==> raw[i] != LF
        decreases |all.bytes| - |raw|
      {
        var byte := socket.ReadByte();
        if byte.Err? {
          return Err(byte.error);
        }
        if byte.value == None {
          return Err(ClosedMidLine);
        }
        if byte.value.value == LF {
          FindLfIs(all.bytes, |raw|);
          return Ok(StripCr(raw));
        }
        raw := raw + [byte.value.value];
      }
    }

    method NextChunkSize() returns (r: Result<nat, Error>)
      modifies socket
      ensures var p := FindLf(old(socket.input.bytes));
              if p == |old(socket.input.bytes)| then r == Err(NoLine(old(socket.input.faulty)))
              else
                && socket.input == old(socket.input).Drop(p + 1)
                && match ChunkSize(StripCr(old(socket.input.bytes)[..p]))
                   case None => r == Err(BadChunkSize)
                   case Some(n) => r == Ok(n)
    {
      var line := ReadLine();
      if line.Err? {
        return Err(line.error);
      }
      var size := ChunkSize(line.value);
      return if size.Some? then Ok(size.value) else Err(BadChunkSize);
    }

    method DrainTrailers() returns (r: End)
      modifies socket
      ensures r == Trailers(old(socket.input))
    {
      while true
        invariant Trailers(socket.input) == Trailers(old(socket.input))
        decreases |socket.input.bytes|
      {
        var trailer := ReadLine();
        if trailer.Err? {
          return Broken(trailer.error);
        }
        if trailer.value == [] {
          return Clean;
        }
      }
    }

    /** One socket read into `buf[at..at + want]`; returns how many bytes arrived. */
    method ReadInto(buf: array<Byte>, at: nat, want: nat) returns (r: Result<nat, Error>)
      requires 0 < want && at + want <= buf.Length
      modifies socket, buf
      ensures var before := old(socket.input);
              if before.bytes == [] then
                && socket.input == before && buf[..] == old(buf[..])
                && r == if before.faulty then Err(Io) else Ok(0)
              else
                && r.Ok? && 0 < r.value <= want && r.value <= |before.bytes|
                && socket.input == before.Drop(r.value)
                && buf[..] == old(buf[..at]) + before.bytes[..r.value] + old(buf[at + r.value..])
    {
      ghost var before := socket.input;
      var piece := socket.Read(want);
      if piece.Err? {
        return Err(piece.error);
      }
      var n := |piece.value|;
      forall i | 0 <= i < n {
        buf[at + i] := piece.value[i];
      }
      assert before.bytes[..n] == piece.value && before.bytes[n..] == socket.input.bytes;
      return Ok(n);
    }

    /** With the current unit used up, moves to the next one; `Ok(false)` is the end of the body. */
    method NextUnit() returns (r: Result<bool, Error>)
      requires remainingInUnit == 0
      modifies this, socket
      ensures r.Ok? ==> Valid()
      ensures match r
              case Ok(true) => remainingInUnit > 0 && View() == old(View())
              case Ok(false) => View() == old(View()) == Decoded([], Clean)
              case Err(e) => old(View()) == Decoded([], Broken(e))
    {
      if exhausted {
        return Ok(false);
      }
      if !chunked {
        exhausted := true;
        return Ok(false);
      }
      var size := NextChunkSize();
      if size.Err? {
        return Err(size.error);
      }
      remainingInUnit := size.value;
      if remainingInUnit == 0 {
        var end := DrainTrailers();
        if end.Broken? {
          return Err(end.error);
        }
        exhausted := true;
      }
      return Ok(remainingInUnit > 0);
    }

    /**
     Inside a unit, reads up to `want` bytes into `buf[at..]` and, when they complete a chunk,
     the two bytes behind it. `Ok(0)` is the end of input.
    */
    method ReadSome(buf: array<Byte>, at: nat, want: nat) returns (r: Result<nat, Error>)
      requires Valid() && 0 < want <= remainingInUnit && at + want <= buf.Length
      modifies this, socket, buf
      ensures r.Ok? ==> Valid()
      ensures match r
              case Ok(n) =>
                && n <= want && n <= |old(View()).data| && View() == old(View()).Drop(n)
                && (n == 0 ==> old(View()) == Decoded([], Clean))
                && (forall i :: 0 <= i < at ==> buf[i] == old(buf[i]))
                && (forall i :: at <= i < at + n ==> buf[i] == old(View()).data[i - at])
                && (n == 0 ==> buf[..] == old(buf[..]))
              case Err(e) => |old(View()).data| < want && old(View()).end == Broken(e)
    {
      hide Chunked, InChunk, Plain;
      ghost var before := socket.input;
      ghost var unit := remainingInUnit;
      var read := ReadInto(buf, at, want);
      if before.bytes == [] {
        RemainderAtEnd(chunked, unit, exhausted, before);
      } else {
        RemainderAfter(chunked, unit, exhausted, before, read.value);
      }
      if read.Err? {
        return read;
      }
      var n := read.value;
      if n == 0 {
        exhausted := true;
        return read;
      }
      remainingInUnit := remainingInUnit - n;
      if chunked && remainingInUnit == 0 {
        var crlf := socket.ReadExact(2, ChunkTrailer);
        if crlf.Err? {
          return Err(crlf.error);
        }
      }
      return read;
    }

    /**
     Reads exactly `buf.Length` body bytes. `Ok(false)` means that none were left (or none were
     asked for); a body that ends after the first of them is an error.
    */
    method ReadExactOrEof(buf: array<Byte>) returns (r: Result<bool, Error>)
      requires Valid()
      modifies this, socket, buf
      ensures r.Ok? ==> Valid()
      ensures buf.Length == 0 ==> r == Ok(false) && View() == old(View())
      ensures buf.Length > 0 ==>
                match Take(old(View()), buf.Length)
                case NoMore => r == Ok(false) && View() == old(View()) && buf[..] == old(buf[..])
                case Got(data, rest) => r == Ok(true) && buf[..] == data && View() == rest
                case Failed(e) => r == Err(e)
    {
      hide Remainder;
      ghost var whole := View();
      var filled := 0;
      while filled < buf.Length
        invariant Valid() && 0 <= filled <= buf.Length && filled <= |whole.data|
        invariant forall i :: 0 <= i < filled ==> buf[i] == whole.data[i]
        invariant filled == 0 ==> buf[..] == old(buf[..])
        invariant View() == whole.Drop(filled)
      {
        if remainingInUnit == 0 {
          var more := NextUnit();
          if more.Err? {
            return Err(more.error);
          }
          if !more.value {
            break;
          }
        }
        var want := if buf.Length - filled < remainingInUnit then buf.Length - filled else remainingInUnit;
        var read := ReadSome(buf, filled, want);
        if read.Err? {
          return Err(read.error);
        }
        if read.value == 0 {
          break;
        }
        DropTwice(whole, filled, read.value);
        filled := filled + read.value;
      }
      return if filled == 0 then Ok(false) else if filled < buf.Length then Err(EndedMidFrame) else Ok(true);
    }
  }
}
