/**
 The chunked transfer coding (section 7.1 of RFC 9112), as a meaning for byte strings:
 what a decoder may hand out from a given position, and how the body ends there.
*/
module ChunkedCoding {
  import opened Wrappers
  import opened Sequences
  import opened Wire

  // ---- framing lines ---------------------------------------------------------------

  /** The position of the first line feed, or the length when there is none. */
  function FindLf(b: seq<Byte>): (p: nat)
    ensures p <= |b|
    ensures forall i :: 0 <= i < p ==> b[i] != LF
    ensures p < |b| ==> b[p] == LF
  {
    FindFrom(b, 0)
  }

  function FindFrom(b: seq<Byte>, k: nat): (p: nat)
    requires k <= |b|
    ensures k <= p <= |b|
    ensures forall i :: k <= i < p ==> b[i] != LF
    ensures p < |b| ==> b[p] == LF
    decreases |b| - k
  {
    if k == |b| || b[k] == LF then k else FindFrom(b, k + 1)
  }

  function StripCr(line: seq<Byte>): seq<Byte> {
    if line != [] && line[|line| - 1] == CR then line[..|line| - 1] else line
  }

  lemma FindLfIs(b: seq<Byte>, p: nat)
    requires p < |b| && b[p] == LF && forall i :: 0 <= i < p ==> b[i] != LF
    ensures FindLf(b) == p
  {
  }

  // ---- chunk sizes -----------------------------------------------------------------

  predicate IsHex(b: Byte) {
    48 <= b <= 57 || 65 <= b <= 70 || 97 <= b <= 102
  }

  function HexDigit(b: Byte): (d: nat)
    requires IsHex(b)
    ensures d < 16
  {
    if b <= 57 then (b - 48) as nat else if b <= 70 then (b - 55) as nat else (b - 87) as nat
  }

  predicate AllHex(s: seq<Byte>) {
    forall i :: 0 <= i < |s| ==> IsHex(s[i])
  }

  function HexValue(s: seq<Byte>): nat
    requires AllHex(s)
  {
    if s == [] then 0 else 16 * HexValue(s[..|s| - 1]) + HexDigit(s[|s| - 1])
  }

  /** `usize::from_str_radix(_, 16)`: an optional plus sign, at least one digit, no overflow. */
  function ParseHex(s: seq<Byte>): Option<nat> {
    var digits := if |s| > 1 && s[0] == 43 then s[1..] else s;
    if digits != [] && AllHex(digits) && HexValue(digits) <= USIZE_MAX then Some(HexValue(digits)) else None
  }

  predicate IsSpace(b: Byte) {
    b == 32 || 9 <= b <= 13
  }

  function TrimStart(s: seq<Byte>): seq<Byte> {
    if s != [] && IsSpace(s[0]) then TrimStart(s[1..]) else s
  }

  function TrimEnd(s: seq<Byte>): seq<Byte> {
    if s != [] && IsSpace(s[|s| - 1]) then TrimEnd(s[..|s| - 1]) else s
  }

  function Trim(s: seq<Byte>): seq<Byte> {
    TrimEnd(TrimStart(s))
  }

  /** The size on a chunk-size line, its extensions cut off. */
  function ChunkSize(line: seq<Byte>): Option<nat> {
    ParseHex(Trim(Before(SEMICOLON, line)))
  }

  // ---- the meaning of a position in a body -------------------------------------------

  datatype End = Clean | Broken(error: Error)

  /** The bytes a reader can hand out from here without an error, and what stops it after them. */
  datatype Decoded = Decoded(data: seq<Byte>, end: End) {
    function Drop(n: nat): Decoded
      requires n <= |data|
    {
      Decoded(data[n..], end)
    }
  }

  function Prepend(data: seq<Byte>, d: Decoded): Decoded {
    Decoded(data + d.data, d.end)
  }

  function EndOfInput(faulty: bool): End {
    if faulty then Broken(Io) else Clean
  }

  function NoLine(faulty: bool): Error {
    if faulty then Io else ClosedMidLine
  }

  /** After the zero-size chunk: trailer lines up to a blank one. */
  function Trailers(input: Input): End
    decreases |input.bytes|
  {
    var p := FindLf(input.bytes);
    if p == |input.bytes| then Broken(NoLine(input.faulty))
    else if StripCr(input.bytes[..p]) == [] then Clean
    else Trailers(input.Drop(p + 1))
  }

  /** Positioned at a chunk-size line. */
  function Chunked(input: Input): Decoded
    decreases |input.bytes|, 0
  {
    var p := FindLf(input.bytes);
    if p == |input.bytes| then Decoded([], Broken(NoLine(input.faulty)))
    else
      match ChunkSize(StripCr(input.bytes[..p]))
      case None => Decoded([], Broken(BadChunkSize))
      case Some(n) =>
        if n == 0 then Decoded([], Trailers(input.Drop(p + 1))) else InChunk(input.Drop(p + 1), n)
  }

  /**
   Inside a chunk with `n` bytes to go. Input that stops short of the chunk counts as a clean
   end; a chunk that is complete but lacks the two bytes after it costs its own last byte.
  */
  function InChunk(input: Input, n: nat): Decoded
    requires 0 < n
    decreases |input.bytes|, 1
  {
    if |input.bytes| < n then Decoded(input.bytes, EndOfInput(input.faulty))
    else if |input.bytes| < n + 2 then Decoded(input.bytes[..n - 1], Broken(ChunkTrailer))
    else Prepend(input.bytes[..n], Chunked(input.Drop(n + 2)))
  }

  /** An unchunked body with a budget of `n` bytes. */
  function Plain(input: Input, n: nat): Decoded {
    if |input.bytes| < n then Decoded(input.bytes, EndOfInput(input.faulty)) else Decoded(input.bytes[..n], Clean)
  }

  lemma DropDrop(input: Input, k: nat, n: nat)
    requires k + n <= |input.bytes|
    ensures input.Drop(k).Drop(n) == input.Drop(k + n)
  {
  }

  lemma PrependSplit(b: seq<Byte>, k: nat, n: nat, d: Decoded)
    requires k <= n <= |b|
    ensures Prepend(b[..n], d) == Prepend(b[..k], Prepend(b[k..][..n - k], d))
  {
  }

  /** Consuming part of a chunk leaves the rest of the same chunk. */
  lemma {:induction false} InChunkPart(input: Input, n: nat, k: nat)
    requires 0 < k < n && k <= |input.bytes|
    ensures InChunk(input, n) == Prepend(input.bytes[..k], InChunk(input.Drop(k), n - k))
  {
    var b := input.bytes;
    var later := input.Drop(k);
    if |b| < n {
      assert b == b[..k] + b[k..];
    } else if |b| < n + 2 {
      PrependSplit(b, k, n - 1, Decoded([], Broken(ChunkTrailer)));
    } else {
      DropDrop(input, k, n - k + 2);
      PrependSplit(b, k, n, Chunked(input.Drop(n + 2)));
    }
  }

  // ---- a printer for sizes, so that every body has an encoding -------------------------

  function HexChar(d: nat): (b: Byte)
    requires d < 16
    ensures IsHex(b) && HexDigit(b) == d
  {
    if d < 10 then (48 + d) as Byte else (87 + d) as Byte
  }

  function HexText(n: nat): seq<Byte> {
    (if n < 16 then [] else HexText(n / 16)) + [HexChar(n % 16)]
  }

  lemma {:induction false} HexTextValue(n: nat)
    ensures HexText(n) != [] && AllHex(HexText(n)) && HexValue(HexText(n)) == n
  {
    var s := HexText(n);
    if n >= 16 {
      HexTextValue(n / 16);
      assert s[..|s| - 1] == HexText(n / 16);
    } else {
      assert s[..|s| - 1] == [];
    }
  }
}
