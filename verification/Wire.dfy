/**
 The daemon connection as this client sees it: a finite run of bytes that arrives in
 pieces of any size, followed by either a clean close or an I/O error.
*/
module Wire {
  import opened Wrappers

  newtype Byte = b: int | 0 <= b < 256

  const LF: Byte := 10
  const CR: Byte := 13
  const SEMICOLON: Byte := 59

  function Ascii(s: string): (b: seq<Byte>)
    requires forall i :: 0 <= i < |s| ==> s[i] < 128 as char
    ensures |b| == |s|
    ensures forall i :: 0 <= i < |s| ==> b[i] == s[i] as Byte
  {
    seq(|s|, i requires 0 <= i < |s| => s[i] as Byte)
  }

  /** The largest `usize` on the 64-bit targets the crates build for. */
  const USIZE_MAX: nat := 0xFFFF_FFFF_FFFF_FFFF

  /** The client's bound on a response head, blank line included, and on a framing line without its line feed. */
  const MAX_HEADER_BYTES: nat := 8192

  /** What the peer will still send, and whether the connection then fails instead of closing. */
  datatype Input = Input(bytes: seq<Byte>, faulty: bool) {
    function Drop(n: nat): Input
      requires n <= |bytes|
    {
      Input(bytes[n..], faulty)
    }
  }

  datatype Error =
    | Io                      // the socket read failed
    | ClosedMidLine           // end of input inside a framing line
    | LineTooLong             // a line outgrew the client's 8192-byte bound
    | BadChunkSize            // a chunk-size line that is not a hex usize
    | ChunkTrailer            // the two bytes after a chunk are missing
    | ShortBody               // a fixed-length read met the end of input
    | EndedMidFrame           // the body stopped inside a frame
    | BadStreamType(code: Byte)
    | HeadTooLong
    | ClosedMidHead
    | BadStatusLine
    | Refused(status: nat)    // the daemon answered with an error status
    | InvalidUtf8

  /** A connection whose reads return as little as one byte, chosen by the peer's timing. */
  class Socket {
    var input: Input

    constructor (input: Input)
      ensures this.input == input
    {
      this.input := input;
    }

    /** One `read` into a buffer of `want` bytes; an empty result is the clean end of input. */
    method Read(want: nat) returns (r: Result<seq<Byte>, Error>)
      requires 0 < want
      modifies this
      ensures old(input.bytes) == [] ==> input == old(input) && r == if input.faulty then Err(Io) else Ok([])
      ensures old(input.bytes) != [] ==>
                && r.Ok? && 1 <= |r.value| <= want
                && r.value + input.bytes == old(input.bytes) && input.faulty == old(input.faulty)
    {
      if input.bytes == [] {
        return if input.faulty then Err(Io) else Ok([]);
      }
      var n: nat :| 1 <= n <= want && n <= |input.bytes|;
      r := Ok(input.bytes[..n]);
      input := input.Drop(n);
    }

    /** A `read` into a one-byte buffer; `None` is the clean end of input. */
    method ReadByte() returns (r: Result<Option<Byte>, Error>)
      modifies this
      ensures old(input.bytes) == [] ==> input == old(input) && r == if input.faulty then Err(Io) else Ok(None)
      ensures old(input.bytes) != [] ==> r == Ok(Some(old(input.bytes)[0])) && input == old(input).Drop(1)
    {
      ghost var before := input;
      var piece := Read(1);
      if piece.Err? {
        return Err(piece.error);
      }
      if piece.value == [] {
        return Ok(None);
      }
      assert before.bytes[1..] == input.bytes;
      return Ok(Some(piece.value[0]));
    }

    /** Reads until `want` bytes have arrived, however they are split. */
    method ReadExact(want: nat, onShort: Error) returns (r: Result<seq<Byte>, Error>)
      modifies this
      ensures want <= |old(input.bytes)| ==> r == Ok(old(input.bytes)[..want]) && input == old(input).Drop(want)
      ensures want > |old(input.bytes)| ==> r == Err(onShort)
    {
      var got: seq<Byte> := [];
      while |got| < want
        invariant |got| <= want
        invariant got + input.bytes == old(input.bytes) && input.faulty == old(input.faulty)
      {
        var piece := Read(want - |got|);
        if piece.Err? || piece.value == [] {
          return Err(onShort);
        }
        got := got + piece.value;
      }
      return Ok(got);
    }
  }
}
