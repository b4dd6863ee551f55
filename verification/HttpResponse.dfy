/** One request on one connection: the response's head, its body by any of the three framings, and their round trip. */
module HttpResponse {
  import opened Wrappers
  import opened Wire
  import opened ChunkedCoding
  import opened ChunkedGrammar
  import opened BodyReading
  import opened Dechunkers
  import opened ResponseHead
  import opened Decimals
  import opened Spelling
  import opened HeadMeaning

  datatype Response = Response(status: nat, body: seq<Byte>)

  // ---- the head ------------------------------------------------------------------------

  /** What a connection's first bytes open: the parsed head and the input behind it. */
  function Opened(input: Input): Result<(ParsedHeaders, Input), Error> {
    var p := HeadLength(input.bytes);
    if p.Some? && p.value <= MAX_HEADER_BYTES then
      var head := Meaning(SplitCrLf(input.bytes[..p.value]));
      if head.Err? then Err(head.error) else Ok((head.value, input.Drop(p.value)))
    else Err(if MAX_HEADER_BYTES < |input.bytes| then HeadTooLong else if input.faulty then Io else ClosedMidHead)
  }

  method ReadHeaders(socket: Socket) returns (r: Result<ParsedHeaders, Error>)
    modifies socket
    ensures match Opened(old(socket.input))
            case Ok((headers, rest)) => r == Ok(headers) && socket.input == rest
            case Err(e) => r == Err(e)
    ensures |old(socket.input.bytes)| - |socket.input.bytes| <= MAX_HEADER_BYTES + 1
  {
    hide SplitCrLf, Meaning, HeadLength;
    var text := ReadHead(socket);
    if text.Err? {
      return Err(text.error);
    }
    r := ParseHeaders(text.value);
  }

  /** CR LF CR LF in front of position `p`. */
  predicate BlankLineBefore(b: seq<Byte>, p: nat) {
    4 <= p <= |b| && b[p - 4..p] == [13, 10, 13, 10]
  }

  /** The first `p` bytes reach through the first blank line, and these are their lines. */
  ghost predicate IsHead(b: seq<Byte>, p: nat, lines: seq<seq<Byte>>) {
    && BlankLineBefore(b, p) && (forall i :: 0 <= i < p ==> !BlankLineBefore(b, i))
    && lines != [] && WithCrLf(lines) == b[..p] && forall i :: 0 <= i < |lines| ==> NoCrLf(lines[i])
  }

  lemma SameBlankLine(b: seq<Byte>, p: nat)
    ensures BlankLineBefore(b, p) <==> BlankLineEndsAt(b, p)
  {
    if 4 <= p <= |b| {
      assert b[p - 4..p] == [b[p - 4], b[p - 3], b[p - 2], b[p - 1]];
    }
  }

  lemma HeadExactly(b: seq<Byte>, p: nat, lines: seq<seq<Byte>>)
    ensures IsHead(b, p, lines) <==> HeadLength(b) == Some(p) && lines == SplitCrLf(b[..p])
  {
    hide SplitCrLf, WithCrLf, NoCrLf, BlankLineBefore, BlankLineEndsAt;
    forall i: nat ensures BlankLineBefore(b, i) <==> BlankLineEndsAt(b, i) {
      SameBlankLine(b, i);
    }
    if p <= |b| {
      SplitExactly(b[..p], lines);
    }
    if IsHead(b, p, lines) {
      assert p <= |b| by {
        BlankLineIsInside(b, p);
      }
      HeadLengthIs(b, p);
    }
  }

  lemma HeadEndsIt(b: seq<Byte>, p: nat, lines: seq<seq<Byte>>)
    requires IsHead(b, p, lines)
    ensures BlankLineBefore(b, p)
  {
  }

  lemma BlankLineIsInside(b: seq<Byte>, p: nat)
    requires BlankLineBefore(b, p)
    ensures p <= |b|
  {
  }

  /**
   The client opens a response exactly when a blank line ends within 8192 bytes and the status
   line gives a status; then it has taken what the head's lines say and is behind the blank line.
  */
  lemma OpenedExactly(input: Input, headers: ParsedHeaders, rest: Input)
    ensures Opened(input) == Ok((headers, rest))
       <==> exists p, lines :: IsHead(input.bytes, p, lines) && p <= 8192
                            && Tells(lines, headers) && rest == input.Drop(p)
    ensures Opened(input) == Err(BadStatusLine)
       <==> exists p, lines :: IsHead(input.bytes, p, lines) && p <= 8192
                            && forall n :: n <= 0xFFFF ==> !StatusSays(lines[0], n)
    ensures (forall p :: 0 <= p <= 8192 ==> !BlankLineBefore(input.bytes, p)) ==>
              Opened(input)
              == Err(if 8192 < |input.bytes| then HeadTooLong else if input.faulty then Io else ClosedMidHead)
  {
    hide Meaning, Tells, IsHead, StatusSays, SplitCrLf;
    forall p: nat, lines ensures IsHead(input.bytes, p, lines)
                            <==> HeadLength(input.bytes) == Some(p) && lines == SplitCrLf(input.bytes[..p]) {
      HeadExactly(input.bytes, p, lines);
    }
    var p := HeadLength(input.bytes);
    if p.Some? {
      var lines := SplitCrLf(input.bytes[..p.value]);
      MeaningExactly(lines, headers);
      assert IsHead(input.bytes, p.value, lines);
      HeadEndsIt(input.bytes, p.value, lines);
    }
  }

  // ---- the body ------------------------------------------------------------------------

  /** The body a complete read returns, or nothing when it fails. */
  ghost function WholeBody(headers: ParsedHeaders, input: Input): Option<seq<Byte>> {
    if headers.chunked then if ClientAccepts(input) then Some(WalkBody(input.bytes).body) else None
    else if headers.contentLength.Some? then
      if headers.contentLength.value <= |input.bytes| then Some(input.bytes[..headers.contentLength.value]) else None
    else if input.faulty then None else Some(input.bytes)
  }

  method ReadToEnd(socket: Socket) returns (r: Result<seq<Byte>, Error>)
    modifies socket
    ensures r == if old(socket.input.faulty) then Err(Io) else Ok(old(socket.input.bytes))
  {
    var buf: seq<Byte> := [];
    while true
      invariant buf + socket.input.bytes == old(socket.input.bytes) && socket.input.faulty == old(socket.input.faulty)
      decreases |socket.input.bytes|
    {
      var piece := socket.Read(1024);
      if piece.Err? {
        return Err(piece.error);
      }
      if piece.value == [] {
        assert buf == buf + socket.input.bytes;
        return Ok(buf);
      }
      buf := buf + piece.value;
    }
  }

  method ReadBodyToEnd(socket: Socket, headers: ParsedHeaders) returns (r: Result<seq<Byte>, Error>)
    modifies socket
    ensures (if r.Ok? then Some(r.value) else None) == WholeBody(headers, old(socket.input))
  {
    hide WalkBody, ClientAccepts;
    if headers.chunked {
      r := ReadChunkedBody(socket);
    } else if headers.contentLength.Some? {
      r := socket.ReadExact(headers.contentLength.value, ShortBody);
    } else {
      r := ReadToEnd(socket);
    }
  }

  /** The response a connection's bytes amount to, if they do. */
  ghost function Reply(input: Input): Option<Response> {
    match Opened(input)
    case Err(_) => None
    case Ok((headers, rest)) =>
      var body := WholeBody(headers, rest);
      if body.None? then None else Some(Response(headers.status, body.value))
  }

  method Request(socket: Socket) returns (r: Result<Response, Error>)
    modifies socket
    ensures (if r.Ok? then Some(r.value) else None) == Reply(old(socket.input))
  {
    hide Opened, WholeBody;
    var headers := ReadHeaders(socket);
    if headers.Err? {
      return Err(headers.error);
    }
    var body := ReadBodyToEnd(socket, headers.value);
    return if body.Err? then Err(body.error) else Ok(Response(headers.value.status, body.value));
  }

  // ---- the round trip ------------------------------------------------------------------

  /** The three ways a daemon can delimit a body. */
  datatype Framing = ByChunks(chunks: seq<Chunk>, last: LastChunk) | ByLength | ByClose

  ghost predicate Delimits(framing: Framing, body: seq<Byte>) {
    match framing
    case ByChunks(chunks, last) =>
      ValidChunks(chunks) && ValidLast(last) && ChunkData(chunks) == body
    case _ => |body| < USIZE_MAX
  }

  /** What the daemon sends behind the head: the body as delimited and, unless the close delimits it, anything. */
  function Sent(framing: Framing, body: seq<Byte>, rest: seq<Byte>, faulty: bool): Input {
    match framing
    case ByChunks(chunks, last) => Input(EncodeBody(chunks, last) + rest, faulty)
    case ByLength => Input(body + rest, faulty)
    case ByClose => Input(body, false)
  }

  /** The bytes that make the body complete, of a daemon that does not close to end it. */
  function Needed(framing: Framing, body: seq<Byte>): seq<Byte> {
    if framing.ByChunks? then EncodeBody(framing.chunks, framing.last) else body
  }

  /** The head says that the body is delimited in this way. */
  predicate Announces(headers: ParsedHeaders, framing: Framing, body: seq<Byte>) {
    && headers.chunked == framing.ByChunks?
    && (!headers.chunked ==> headers.contentLength == if framing.ByLength? then Some(|body|) else None)
  }

  function Printed(h: Head, sent: Input): Input {
    Input(PrintHead(h) + sent.bytes, sent.faulty)
  }

  /** What the client makes of a printed head. */
  function ParsedHead(h: Head, status: nat): ParsedHeaders {
    ParsedHeaders(status, SaysChunked(FieldValue(h.fields, TRANSFER_ENCODING)),
                  SaysLength(FieldValue(h.fields, CONTENT_LENGTH)))
  }

  lemma StatusOfParsed(h: Head, status: nat)
    ensures ParsedHead(h, status).status == status
  {
  }

  /** Every printed head of at most 8192 bytes is read back, and nothing behind it is consumed. */
  lemma OpenedRoundTrip(h: Head, status: nat, sent: Input)
    requires ValidHead(h, status) && |PrintHead(h)| <= 8192
    ensures Opened(Printed(h, sent)) == Ok((ParsedHead(h, status), sent))
  {
    hide Meaning, SplitCrLf, PrintLines, HeadLength, FieldValue;
    var input := Printed(h, sent);
    HeadIsPrintable(h, status);
    PrintedHeadLength(HeadLines(h), sent.bytes);
    HeadRoundTrip(h, status);
    assert input.bytes[..|PrintHead(h)|] == PrintHead(h);
    assert input.Drop(|PrintHead(h)|) == sent;
  }

  /** The incremental reader gets the body of every framing, whatever follows it. */
  lemma BodyRoundTrip(headers: ParsedHeaders, framing: Framing, body: seq<Byte>, rest: seq<Byte>, faulty: bool)
    requires Delimits(framing, body) && Announces(headers, framing, body)
    ensures Body(headers, Sent(framing, body, rest, faulty)) == Decoded(body, Clean)
  {
    hide Chunked;
    match framing
    case ByChunks(chunks, last) => ChunkedRoundTrip(chunks, last, rest, faulty);
    case ByLength => assert (body + rest)[..|body|] == body;
    case ByClose =>
  }

  /**
   Every printed response, whatever its status, fields, body and framing, is read back: by the
   client as a whole, and by the incremental reader piecewise.
  */
  lemma ResponseRoundTrip(h: Head, status: nat, framing: Framing, body: seq<Byte>, rest: seq<Byte>, faulty: bool)
    requires ValidHead(h, status) && |PrintHead(h)| <= 8192
    requires Delimits(framing, body) && Announces(ParsedHead(h, status), framing, body)
    requires framing.ByChunks? ==> AllLines(Fits, FramingLines(framing.chunks, framing.last))
    ensures Reply(Printed(h, Sent(framing, body, rest, faulty))) == Some(Response(status, body))
  {
    hide Opened, ParsedHead, FramingLines, ChunkData, EncodeBody, WalkBody;
    var sent := Sent(framing, body, rest, faulty);
    OpenedRoundTrip(h, status, sent);
    StatusOfParsed(h, status);
    match framing
    case ByChunks(chunks, last) => WalkRoundTrip(chunks, last, rest);
    case ByLength => assert (body + rest)[..|body|] == body;
    case ByClose =>
  }

  /** Cut off anywhere, or failed before its close, no response is complete. */
  lemma CutReplyFails(h: Head, status: nat, framing: Framing, body: seq<Byte>, k: nat, faulty: bool)
    requires ValidHead(h, status) && |PrintHead(h)| <= 8192
    requires Delimits(framing, body) && Announces(ParsedHead(h, status), framing, body)
    requires if framing.ByClose? then k <= |body| && faulty else k < |Needed(framing, body)|
    ensures Reply(Printed(h, Input(Needed(framing, body)[..k], faulty))) == None
  {
    hide Opened, ParsedHead, FramingLines, ChunkData, EncodeBody, WalkBody;
    OpenedRoundTrip(h, status, Input(Needed(framing, body)[..k], faulty));
    match framing
    case ByChunks(chunks, last) => CutIsUnfinished(chunks, last, k);
    case ByLength =>
    case ByClose =>
  }

  // ---- cut bodies, for the incremental reader ------------------------------------------

  /** What arrives of a body before its connection ends too early. */
  datatype BodyCut =
    | InData(chunks: seq<Chunk>, sizeLine: seq<Byte>, size: nat, part: seq<Byte>)  // inside the data of a chunk
    | Short(length: nat, data: seq<Byte>)   // before the announced length
    | UpToClose(data: seq<Byte>)

  function CutBytes(cut: BodyCut): seq<Byte> {
    match cut
    case InData(chunks, sizeLine, _, part) => EncodeChunks(chunks) + (Line(sizeLine) + part)
    case Short(_, data) => data
    case UpToClose(data) => data
  }

  function CutData(cut: BodyCut): seq<Byte> {
    match cut
    case InData(chunks, _, _, part) => ChunkData(chunks) + part
    case Short(_, data) => data
    case UpToClose(data) => data
  }

  /** The head announces the framing that is cut. */
  ghost predicate AnnouncesCut(headers: ParsedHeaders, cut: BodyCut) {
    match cut
    case InData(chunks, sizeLine, size, part) =>
      headers.chunked && ValidChunks(chunks) && ValidSizeLine(sizeLine, size)
      && |part| < size <= 0xFFFF_FFFF_FFFF_FFFF
    case Short(length, data) => !headers.chunked && headers.contentLength == Some(length) && |data| < length
    case UpToClose(data) => !headers.chunked && headers.contentLength == None && |data| < USIZE_MAX
  }

  /** The incremental reader hands out all the data that arrived, and then sees how the connection ended. */
  lemma CutArrives(headers: ParsedHeaders, cut: BodyCut, faulty: bool)
    requires AnnouncesCut(headers, cut)
    ensures Body(headers, Input(CutBytes(cut), faulty)) == Decoded(CutData(cut), if faulty then Broken(Io) else Clean)
  {
    hide Chunked, WalkBody, ChunkData, EncodeChunks;
    match cut
    case InData(chunks, sizeLine, size, part) =>
      CutInData(chunks, sizeLine, size, part);
      ChunkedWalk(Input(CutBytes(cut), faulty));
    case Short(_, _) =>
    case UpToClose(_) =>
  }

  // ---- what a head has to say for a framing --------------------------------------------

  /** A framing is announced exactly by what the field lines say, case and blanks aside. */
  lemma AnnouncesExactly(h: Head, status: nat, framing: Framing, body: seq<Byte>)
    requires ValidHead(h, status)
    ensures var lines := FieldLines(h.fields);
            Announces(ParsedHead(h, status), framing, body)
            <==> match framing
                 case ByChunks(_, _) => SayChunked(lines)
                 case ByLength => !SayChunked(lines) && SayLength(lines, |body|)
                 case ByClose => !SayChunked(lines) && forall n :: !SayLength(lines, n)
  {
    hide FieldValue, LastValue, SaysChunked, SaysLength, SayChunked, SayLength;
    var lines := FieldLines(h.fields);
    FieldsReadBack(h.fields, TRANSFER_ENCODING);
    FieldsReadBack(h.fields, CONTENT_LENGTH);
    ChunkedExactly(lines);
    forall n: nat ensures SaysLength(LastValue(lines, CONTENT_LENGTH)) == Some(n) <==> SayLength(lines, n) {
      LengthExactly(lines, n);
    }
    if SaysLength(LastValue(lines, CONTENT_LENGTH)).Some? {
      assert SayLength(lines, SaysLength(LastValue(lines, CONTENT_LENGTH)).value);
    }
  }

  // ---- every framing can be announced --------------------------------------------------

  /** A field of this name, letter case and blanks aside. */
  ghost predicate Named(f: Field, name: seq<Byte>) {
    exists a, s, b :: f.name == a + s + b && Blank(a) && CaseVariant(s, name) && Blank(b)
  }

  ghost predicate NoneNamed(fields: seq<Field>, name: seq<Byte>) {
    forall i :: 0 <= i < |fields| ==> !Named(fields[i], name)
  }

  /** The field a daemon adds for a framing, however it spells it. */
  ghost predicate Own(fields: seq<Field>, framing: Framing, body: seq<Byte>) {
    match framing
    case ByChunks(_, _) =>
      |fields| == 1 && Named(fields[0], Ascii("transfer-encoding")) && Holds(fields[0].text, Ascii("chunked"))
    case ByLength =>
      |fields| == 1 && Named(fields[0], Ascii("content-length")) && Spells(fields[0].text, |body|)
    case ByClose => fields == []
  }

  lemma NamedExactly(f: Field, name: seq<Byte>)
    requires FieldName(name)
    ensures Named(f, name) <==> Lower(Trim(f.name)) == name
  {
    hide Blank, CaseVariant, Trim, Lower;
    if Named(f, name) {
      var a, s, b :| f.name == a + s + b && Blank(a) && CaseVariant(s, name) && Blank(b);
      VariantIsTight(s, name);
      TrimExactly(a, s, b);
      LowerExactly(s, name);
    }
    if Lower(Trim(f.name)) == name {
      var a, b := TrimCuts(f.name);
      LowerExactly(Trim(f.name), name);
    }
  }

  lemma {:induction false} OthersSayNothing(front: seq<Field>, after: seq<Field>, name: seq<Byte>)
    requires FieldName(name) && NoneNamed(after, name)
    ensures FieldValue(front + after, name) == FieldValue(front, name)
    ensures NoneNamed(front, name) ==> FieldValue(front, name) == None
    decreases |front| + |after|
  {
    hide Named, Lower, Trim, FieldName;
    if after != [] {
      var n := |after| - 1;
      assert (front + after)[..|front| + n] == front + after[..n];
      NamedExactly(after[n], name);
      OthersSayNothing(front, after[..n], name);
    } else {
      assert front + after == front;
      if front != [] && NoneNamed(front, name) {
        NamedExactly(front[|front| - 1], name);
        OthersSayNothing(front[..|front| - 1], [], name);
      }
    }
  }

  lemma LastField(front: seq<Field>, f: Field, name: seq<Byte>)
    requires FieldName(name)
    ensures FieldValue(front + [f], name) == if Named(f, name) then Some(Trim(f.text)) else FieldValue(front, name)
  {
    hide Named, Trim, Lower;
    NamedExactly(f, name);
  }

  lemma OneName(f: Field)
    requires Named(f, CONTENT_LENGTH)
    ensures !Named(f, TRANSFER_ENCODING)
  {
    hide Named, Trim, Lower, FieldName;
    NamesAreNames();
    NamedExactly(f, CONTENT_LENGTH);
    NamedExactly(f, TRANSFER_ENCODING);
    assert |CONTENT_LENGTH| != |TRANSFER_ENCODING|;
  }

  lemma ChunkedIsSaid(text: seq<Byte>)
    requires Holds(text, CHUNKED)
    ensures SaysChunked(Some(Trim(text)))
  {
    hide Holds, Trim, Lower;
    NamesAreNames();
    var a, b := TrimCuts(text);
    BlanksHoldNothing(a, Trim(text), b, CHUNKED);
    ContainsExactly(Trim(text), CHUNKED);
  }

  lemma LengthIsSaid(text: seq<Byte>, n: nat)
    requires Spells(text, n) && n <= USIZE_MAX
    ensures SaysLength(Some(Trim(text))) == Some(n)
  {
    NumberExactly(text, USIZE_MAX, n);
  }

  /** Between any other fields, the framing's own field announces it. */
  lemma FramingFieldAnnounces(h: Head, status: nat, front: seq<Field>, own: seq<Field>, after: seq<Field>,
                              framing: Framing, body: seq<Byte>)
    requires h.fields == front + own + after && Own(own, framing, body) && |body| < USIZE_MAX
    requires forall name | name in {Ascii("transfer-encoding"), Ascii("content-length")} ::
               NoneNamed(front, name) && NoneNamed(after, name)
    ensures Announces(ParsedHead(h, status), framing, body)
  {
    hide FieldValue, SaysLength, SaysChunked, FieldName, NoneNamed, Named, Spells, Holds, Trim;
    NamesAreNames();
    NothingSaid();
    assert front + [] == front;
    NoneOfNone();
    OthersSayNothing(front, [], TRANSFER_ENCODING);
    OthersSayNothing(front, [], CONTENT_LENGTH);
    OthersSayNothing(front + own, after, TRANSFER_ENCODING);
    OthersSayNothing(front + own, after, CONTENT_LENGTH);
    if !framing.ByClose? {
      assert own == [own[0]];
      LastField(front, own[0], TRANSFER_ENCODING);
      LastField(front, own[0], CONTENT_LENGTH);
    }
    match framing
    case ByChunks(_, _) => ChunkedIsSaid(own[0].text);
    case ByLength =>
      OneName(own[0]);
      LengthIsSaid(own[0].text, |body|);
    case ByClose => assert front + own == front;
  }

  lemma NoneOfNone()
    ensures forall name :: NoneNamed([], name)
  {
  }

  lemma NothingSaid()
    ensures !SaysChunked(None) && SaysLength(None) == None
  {
  }

  lemma CapitalsAreVariants()
    ensures CaseVariant(Ascii("Transfer-Encoding"), Ascii("transfer-encoding"))
    ensures CaseVariant(Ascii("Content-Length"), Ascii("content-length"))
    ensures CaseVariant(Ascii("chunked"), Ascii("chunked"))
    ensures Blank([32])
  {
  }

  lemma PlainNumber(n: nat)
    ensures SpellsDecimal(DecimalText(n), n)
  {
    hide DecimalText;
    assert PlusOrNot([]) && DecimalText(n) == [] + (Zeros(0) + DecimalText(n));
  }

  lemma NamedPlainly(f: Field, name: seq<Byte>)
    requires CaseVariant(f.name, name)
    ensures Named(f, name)
  {
    hide CaseVariant;
    assert f.name == [] + f.name + [];
  }

  lemma HeldPlainly(a: seq<Byte>, s: seq<Byte>, word: seq<Byte>)
    requires CaseVariant(s, word)
    ensures Holds(a + s, word)
  {
    hide CaseVariant;
    assert a + s == a + s + [];
  }

  lemma SpelledPlainly(a: seq<Byte>, s: seq<Byte>, n: nat)
    requires Blank(a) && SpellsDecimal(s, n)
    ensures Spells(a + s, n)
  {
    hide SpellsDecimal;
    assert a + s == a + s + [] && Blank([]);
  }

  /** The fields as a Docker daemon writes them are such fields. */
  lemma DaemonChunksField(name: seq<Byte>, framing: Framing, body: seq<Byte>)
    requires framing.ByChunks? && name == Ascii("Transfer-Encoding")
    ensures Own([Field(name, [32] + Ascii("chunked"))], framing, body)
  {
    CapitalsAreVariants();
    hide CaseVariant, Blank, Named, Holds;
    NamedPlainly(Field(name, [32] + Ascii("chunked")), Ascii("transfer-encoding"));
    HeldPlainly([32], Ascii("chunked"), Ascii("chunked"));
  }

  lemma LengthField(name: seq<Byte>, text: seq<Byte>, framing: Framing, body: seq<Byte>)
    requires framing.ByLength? && CaseVariant(name, Ascii("content-length")) && Spells(text, |body|)
    ensures Own([Field(name, text)], framing, body)
  {
    hide CaseVariant, Named, Spells;
    NamedPlainly(Field(name, text), Ascii("content-length"));
  }

  lemma DaemonLengthField(name: seq<Byte>, framing: Framing, body: seq<Byte>)
    requires framing.ByLength? && name == Ascii("Content-Length")
    ensures Own([Field(name, [32] + DecimalText(|body|))], framing, body)
  {
    CapitalsAreVariants();
    PlainNumber(|body|);
    assert Blank([32]);
    SpelledPlainly([32], DecimalText(|body|), |body|);
    hide CaseVariant, Own, Spells, DecimalText;
    LengthField(name, [32] + DecimalText(|body|), framing, body);
  }
}
