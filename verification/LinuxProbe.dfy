/**
 The daemon probe: it holds a whole response in memory, cuts it at the blank line itself and
 shares only the blocking dechunker with the rest.
*/
module LinuxProbe {
  import opened Wrappers
  import opened Wire
  import opened ChunkedCoding
  import opened ChunkedGrammar
  import opened BodyReading
  import opened Dechunkers
  import opened Decimals
  import opened ResponseHead
  import opened HttpResponse

  /** `str::lines`: a line feed ends a line, one carriage return in front of it included. */
  function TextLines(b: seq<Byte>): seq<seq<Byte>>
    decreases |b|
  {
    if b == [] then []
    else
      var p := FindLf(b);
      if p == |b| then [b] else [StripCr(b[..p])] + TextLines(b[p + 1..])
  }

  /** The body the probe looks at, if the response is complete and its status a success. */
  ghost function ProbedBody(response: seq<Byte>, utf8: seq<Byte> -> bool): Option<seq<Byte>> {
    var p := HeadLength(response);
    if p.None? then None
    else
      var lines := TextLines(response[..p.value - 4]);
      if lines == [] || Meaning(lines).Err? || !(200 <= Meaning(lines).value.status < 300) then None
      else BodyInMemory(Meaning(lines).value, response[p.value..], utf8)
  }

  ghost function BodyInMemory(headers: ParsedHeaders, rawBody: seq<Byte>, utf8: seq<Byte> -> bool): Option<seq<Byte>> {
    if headers.chunked then
      if BlockingAccepts(Input(rawBody, false), utf8) then Some(WalkBody(rawBody).body) else None
    else if headers.contentLength.Some? then
      if headers.contentLength.value <= |rawBody| then Some(rawBody[..headers.contentLength.value]) else None
    else Some(rawBody)
  }

  method ReadBodyInMemory(headers: ParsedHeaders, rawBody: seq<Byte>, utf8: seq<Byte> -> bool)
    returns (r: Option<seq<Byte>>)
    ensures r == BodyInMemory(headers, rawBody, utf8)
  {
    if headers.chunked {
      var reader := new Socket(Input(rawBody, false));
      var body := BlockingReadChunkedBody(reader, utf8);
      return if body.Ok? then Some(body.value) else None;
    }
    if headers.contentLength.Some? {
      return
        if headers.contentLength.value <= |rawBody| then Some(rawBody[..headers.contentLength.value]) else None;
    }
    return Some(rawBody);
  }

  /** `linux` stands for the version body naming Linux. */
  method ReportsLinux(response: seq<Byte>, utf8: seq<Byte> -> bool, linux: seq<Byte> -> bool) returns (r: bool)
    ensures r <==> ProbedBody(response, utf8).Some? && linux(ProbedBody(response, utf8).value)
  {
    hide TextLines, ValueIf, ParseDecimal, SecondWord, BodyInMemory;
    var headEnd := HeadLength(response);
    if headEnd.None? {
      return false;
    }
    var lines := TextLines(response[..headEnd.value - 4]);
    if lines == [] {
      return false;
    }
    var status := ParseDecimal(SecondWord(lines[0]), U16_MAX);
    if status.None? || !(200 <= status.value < 300) {
      return false;
    }
    var chunked, contentLength := ReadFields(lines[1..]);
    var body := ReadBodyInMemory(ParsedHeaders(status.value, chunked, contentLength), response[headEnd.value..], utf8);
    return body.Some? && linux(body.value);
  }

  // ---- the probe and the client agree --------------------------------------------------

  /** The printed lines without the two line ends behind the last. */
  function Joined(lines: seq<seq<Byte>>): seq<Byte> {
    if |lines| <= 1 then if lines == [] then [] else lines[0] else Line(lines[0]) + Joined(lines[1..])
  }

  lemma {:induction false} JoinedIsPrinted(lines: seq<seq<Byte>>)
    requires lines != []
    ensures PrintLines(lines) == Joined(lines) + [CR, LF, CR, LF]
  {
    if |lines| == 1 {
      assert PrintLines(lines[1..]) == [CR, LF];
    } else {
      JoinedIsPrinted(lines[1..]);
    }
  }

  lemma {:induction false} LinesOfJoined(lines: seq<seq<Byte>>)
    requires PrintableLines(lines)
    ensures TextLines(Joined(lines)) == lines
  {
    if |lines| > 1 {
      assert OneLine(lines[0]);
      TakeLine(lines[0], Joined(lines[1..]));
      LinesOfJoined(lines[1..]);
    } else if |lines| == 1 {
      assert OneLine(lines[0]);
    }
  }

  /** The probe reads a printed head as the client does. */
  lemma ProbedHead(h: Head, status: nat)
    requires ValidHead(h, status)
    ensures var text := PrintHead(h);
            && |text| >= 4 && TextLines(text[..|text| - 4]) == HeadLines(h)
            && Meaning(HeadLines(h)) == Ok(ParsedHead(h, status))
  {
    hide PrintLines, Joined, TextLines, ParseDecimal, SecondWord, StatusSays, FieldValue, LastValue, FieldLines;
    var lines := HeadLines(h);
    HeadIsPrintable(h, status);
    JoinedIsPrinted(lines);
    LinesOfJoined(lines);
    assert PrintHead(h)[..|PrintHead(h)| - 4] == Joined(lines);
    StatusExactly(h.statusLine, status);
    FieldsReadBack(h.fields, TRANSFER_ENCODING);
    FieldsReadBack(h.fields, CONTENT_LENGTH);
    assert lines[1..] == FieldLines(h.fields);
  }

  /** Held in memory or read off a connection that closes cleanly, it is the same body. */
  lemma SameBody(headers: ParsedHeaders, sent: seq<Byte>, utf8: seq<Byte> -> bool)
    requires headers.chunked ==> AllLines(utf8, WalkBody(sent).lines)
    requires WholeBody(headers, Input(sent, false)).Some?
    ensures BodyInMemory(headers, sent, utf8) == WholeBody(headers, Input(sent, false))
  {
    if headers.chunked {
      ClientIsStrictest(Input(sent, false), utf8);
    }
  }

  /**
   Whatever follows a printed success head: where the client returns a body, the probe looks at
   the same one, as long as the framing lines of a chunked body are UTF-8.
  */
  lemma ProbeAgrees(h: Head, status: nat, sent: seq<Byte>, utf8: seq<Byte> -> bool)
    requires ValidHead(h, status) && |PrintHead(h)| <= 8192 && 200 <= status < 300
    requires ParsedHead(h, status).chunked ==> AllLines(utf8, WalkBody(sent).lines)
    requires Reply(Printed(h, Input(sent, false))).Some?
    ensures ProbedBody(PrintHead(h) + sent, utf8) == Some(Reply(Printed(h, Input(sent, false))).value.body)
  {
    hide Meaning, TextLines, HeadLines, HeadLength, PrintHead, ParsedHead, WholeBody, BodyInMemory, AllLines, WalkBody;
    var response := PrintHead(h) + sent;
    var p := |PrintHead(h)|;
    OpenedRoundTrip(h, status, Input(sent, false));
    HeadFound(h, status, sent);
    ProbedHead(h, status);
    assert response[p..] == sent && response[..p - 4] == PrintHead(h)[..p - 4];
    StatusOfParsed(h, status);
    SameBody(ParsedHead(h, status), sent, utf8);
  }

  /**
   What the probe makes of any printed head and whatever follows it: nothing unless the status is
   a success; an unchunked body like the client; a chunked one when the blocking reader accepts it.
  */
  lemma ProbeExactly(h: Head, status: nat, sent: seq<Byte>, utf8: seq<Byte> -> bool)
    requires ValidHead(h, status)
    ensures var headers, r := ParsedHead(h, status), ProbedBody(PrintHead(h) + sent, utf8);
            && (status < 200 || 299 < status ==> r == None)
            && (200 <= status <= 299 && !headers.chunked ==> r == WholeBody(headers, Input(sent, false)))
            && (200 <= status <= 299 && headers.chunked ==>
                  r == if BlockingAccepts(Input(sent, false), utf8) then Some(WalkBody(sent).body) else None)
  {
    hide Meaning, TextLines, HeadLines, HeadLength, PrintHead, ParsedHead, WalkBody, BlockingAccepts;
    var response := PrintHead(h) + sent;
    var p := |PrintHead(h)|;
    HeadFound(h, status, sent);
    ProbedHead(h, status);
    assert response[p..] == sent && response[..p - 4] == PrintHead(h)[..p - 4];
    StatusOfParsed(h, status);
  }

  /** Without a blank line there is no response. */
  lemma NoHeadNoBody(response: seq<Byte>, utf8: seq<Byte> -> bool)
    requires forall p :: 0 <= p <= |response| ==> !BlankLineBefore(response, p)
    ensures ProbedBody(response, utf8) == None
  {
    hide BlankLineBefore, BlankLineEndsAt, Meaning, TextLines, BodyInMemory;
    if HeadLength(response).Some? {
      SameBlankLine(response, HeadLength(response).value);
    }
  }

  lemma HeadFound(h: Head, status: nat, sent: seq<Byte>)
    requires ValidHead(h, status)
    ensures HeadLength(PrintHead(h) + sent) == Some(|PrintHead(h)|) && HeadLines(h) != []
  {
    HeadIsPrintable(h, status);
    PrintedHeadLength(HeadLines(h), sent);
  }
}
