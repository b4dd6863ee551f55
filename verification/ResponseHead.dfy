/**
 The head of an HTTP/1.1 response (section 2.1 of RFC 9112): where it ends, what the client
 reads out of it, and that it reads back whatever was printed.
*/
module ResponseHead {
  import opened Wrappers
  import opened Sequences
  import opened Wire
  import opened ChunkedCoding
  import opened BodyReading
  import opened ChunkedGrammar
  import opened Decimals
  import opened Spelling

  const COLON: Byte := 58
  const SPACE: Byte := 32

  const TRANSFER_ENCODING := Ascii("transfer-encoding")
  const CONTENT_LENGTH := Ascii("content-length")
  const CHUNKED := Ascii("chunked")

  // ---- where a head ends ---------------------------------------------------------------

  predicate BlankLineEndsAt(b: seq<Byte>, p: nat) {
    4 <= p <= |b| && b[p - 4] == CR && b[p - 3] == LF && b[p - 2] == CR && b[p - 1] == LF
  }

  /** The length of the head in front of `b`, through its blank line, if it is there. */
  function HeadLength(b: seq<Byte>): (p: Option<nat>)
    ensures p.Some? ==> p.value <= |b| && BlankLineEndsAt(b, p.value)
    ensures p.Some? ==> forall i :: 0 <= i < p.value ==> !BlankLineEndsAt(b, i)
    ensures p.None? ==> forall i :: 0 <= i <= |b| ==> !BlankLineEndsAt(b, i)
  {
    HeadLengthFrom(b, 0)
  }

  function HeadLengthFrom(b: seq<Byte>, k: nat): (p: Option<nat>)
    requires k <= |b|
    ensures p.Some? ==>
              k <= p.value && BlankLineEndsAt(b, p.value) && forall i :: k <= i < p.value ==> !BlankLineEndsAt(b, i)
    ensures p.None? ==> forall i :: k <= i <= |b| ==> !BlankLineEndsAt(b, i)
    decreases |b| - k
  {
    if BlankLineEndsAt(b, k) then Some(k) else if k == |b| then None else HeadLengthFrom(b, k + 1)
  }

  lemma HeadLengthIs(b: seq<Byte>, p: nat)
    requires BlankLineEndsAt(b, p) && forall i :: 0 <= i < p ==> !BlankLineEndsAt(b, i)
    ensures HeadLength(b) == Some(p)
  {
  }

  lemma NoBlankYet(b: seq<Byte>)
    ensures !BlankLineEndsAt(b, 0)
  {
  }

  lemma BlankInPrefix(b: seq<Byte>, p: nat)
    requires p <= |b|
    ensures BlankLineEndsAt(b[..p], p) == BlankLineEndsAt(b, p)
  {
  }

  /**
   Reads a byte at a time, exactly through the first blank line; gives up on the first byte
   past the bound.
  */
  method ReadHead(socket: Socket) returns (r: Result<seq<Byte>, Error>)
    modifies socket
    ensures var front, p := old(socket.input), HeadLength(old(socket.input.bytes));
            if p.Some? && p.value <= MAX_HEADER_BYTES then
              r == Ok(front.bytes[..p.value]) && socket.input == front.Drop(p.value)
            else if MAX_HEADER_BYTES < |front.bytes| then
              r == Err(HeadTooLong) && socket.input == front.Drop(MAX_HEADER_BYTES + 1)
            else
              r == Err(if front.faulty then Io else ClosedMidHead) && socket.input.bytes == []
  {
    hide HeadLength, BlankLineEndsAt;
    var raw: seq<Byte> := [];
    ghost var all := socket.input;
    NoBlankYet(all.bytes);
    while true
      invariant |raw| <= |all.bytes| && raw == all.bytes[..|raw|] && socket.input == all.Drop(|raw|)
      invariant |raw| <= MAX_HEADER_BYTES
      invariant forall i :: 0 <= i <= |raw| ==> !BlankLineEndsAt(all.bytes, i)
      decreases |all.bytes| - |raw|
    {
      var byte := socket.ReadByte();
      if byte.Err? {
        return Err(byte.error);
      }
      if byte.value == None {
        return Err(ClosedMidHead);
      }
      raw := raw + [byte.value.value];
      assert raw == all.bytes[..|raw|] && socket.input == all.Drop(|raw|);
      BlankInPrefix(all.bytes, |raw|);
      if |raw| > MAX_HEADER_BYTES {
        return Err(HeadTooLong);
      }
      if BlankLineEndsAt(raw, |raw|) {
        HeadLengthIs(all.bytes, |raw|);
        return Ok(raw);
      }
    }
  }

  // ---- what a head says ----------------------------------------------------------------

  /** The first CR LF at or behind `k`, or the length when there is none. */
  function FindCrLf(b: seq<Byte>, k: nat): (p: nat)
    requires k <= |b|
    ensures k <= p <= |b|
    ensures p < |b| ==> p + 1 < |b| && b[p] == CR && b[p + 1] == LF
    ensures forall i :: k <= i < p && i + 1 < |b| ==> !(b[i] == CR && b[i + 1] == LF)
    decreases |b| - k
  {
    if k == |b| || (k + 1 < |b| && b[k] == CR && b[k + 1] == LF) then k else FindCrLf(b, k + 1)
  }

  /** `str::split("\r\n")`. */
  function SplitCrLf(b: seq<Byte>): (lines: seq<seq<Byte>>)
    ensures lines != []
    decreases |b|
  {
    var p := FindCrLf(b, 0);
    if p == |b| then [b] else [b[..p]] + SplitCrLf(b[p + 2..])
  }

  function SkipWord(s: seq<Byte>): seq<Byte> {
    if s != [] && !IsSpace(s[0]) then SkipWord(s[1..]) else s
  }

  function FirstWord(s: seq<Byte>): seq<Byte> {
    if s != [] && !IsSpace(s[0]) then [s[0]] + FirstWord(s[1..]) else []
  }

  /** `split_whitespace().nth(1)`, with an empty word for none. */
  function SecondWord(line: seq<Byte>): seq<Byte> {
    FirstWord(TrimStart(SkipWord(TrimStart(line))))
  }

  const U16_MAX: nat := 0xFFFF

  predicate Dark(s: seq<Byte>) {
    forall i :: 0 <= i < |s| ==> !Blank([s[i]])
  }

  /** A first word, and then one that spells `n`. */
  ghost predicate StatusSays(line: seq<Byte>, n: nat) {
    exists lead, word, gap, digits, more ::
      && line == lead + word + gap + digits + more
      && Blank(lead) && Dark(word) && word != [] && Blank(gap) && gap != []
      && SpellsDecimal(digits, n) && (more == [] || Blank([more[0]]))
  }

  lemma {:induction false} WordOf(word: seq<Byte>, tail: seq<Byte>)
    requires Dark(word) && (tail == [] || Blank([tail[0]]))
    ensures SkipWord(word + tail) == tail && FirstWord(word + tail) == word
  {
    if word == [] {
      assert word + tail == tail;
      if tail != [] {
        BlankIsSpace(tail[0]);
      }
    } else {
      BlankIsSpace(word[0]);
      assert (word + tail)[1..] == word[1..] + tail;
      WordOf(word[1..], tail);
    }
  }

  lemma {:induction false} WordCuts(s: seq<Byte>)
    ensures s == FirstWord(s) + SkipWord(s) && Dark(FirstWord(s))
    ensures SkipWord(s) == [] || Blank([SkipWord(s)[0]])
    ensures s != [] && !Blank([s[0]]) ==> FirstWord(s) != []
  {
    if s != [] {
      BlankIsSpace(s[0]);
      WordCuts(s[1..]);
    }
  }

  lemma DigitsAreDark(digits: seq<Byte>, n: nat)
    requires SpellsDecimal(digits, n)
    ensures Dark(digits) && digits != []
  {
    hide DecimalText, DecimalValue;
    var plus, k :| PlusOrNot(plus) && digits == plus + (Zeros(k) + DecimalText(n));
    DecimalTextValue(n);
    forall i | 0 <= i < |digits| ensures !Blank([digits[i]]) {
      BlankIsSpace(digits[i]);
      assert digits[i] == 43 || digits[i] == 48 || IsDigit(digits[i]);
    }
  }

  lemma SecondWordIs(lead: seq<Byte>, word: seq<Byte>, gap: seq<Byte>, next: seq<Byte>, more: seq<Byte>)
    requires Blank(lead) && Dark(word) && word != [] && Blank(gap) && gap != []
    requires Dark(next) && next != [] && (more == [] || Blank([more[0]]))
    ensures SecondWord(lead + word + gap + next + more) == next
  {
    assert lead + word + gap + next + more == lead + (word + (gap + (next + more)));
    assert [gap[0]][0] == gap[0];
    TrimStartSkips(lead, word + (gap + (next + more)));
    WordOf(word, gap + (next + more));
    TrimStartSkips(gap, next + more);
    WordOf(next, more);
  }

  lemma SaidStatusIsRead(line: seq<Byte>, n: nat)
    requires n <= U16_MAX && StatusSays(line, n)
    ensures ParseDecimal(SecondWord(line), U16_MAX) == Some(n)
  {
    hide SpellsDecimal, ParseDecimal, Blank, Dark, SecondWord;
    var lead, word, gap, digits, more :|
      && line == lead + word + gap + digits + more
      && Blank(lead) && Dark(word) && word != [] && Blank(gap) && gap != []
      && SpellsDecimal(digits, n) && (more == [] || Blank([more[0]]));
    DigitsAreDark(digits, n);
    SecondWordIs(lead, word, gap, digits, more);
    DecimalExactly(digits, U16_MAX, n);
  }

  /** A line whose second word is not empty, cut around it. */
  lemma SecondWordCuts(line: seq<Byte>) returns (lead: seq<Byte>, word: seq<Byte>, gap: seq<Byte>, more: seq<Byte>)
    requires SecondWord(line) != []
    ensures line == lead + word + gap + SecondWord(line) + more
    ensures Blank(lead) && Dark(word) && word != [] && Blank(gap) && gap != []
    ensures more == [] || Blank([more[0]])
  {
    hide Blank, Dark, TrimStart, FirstWord, SkipWord;
    var s, d;
    lead, s := CutStart(line);
    TrimStartSkips(lead, s);
    WordCuts(s);
    gap, d := CutStart(SkipWord(s));
    TrimStartSkips(gap, d);
    WordCuts(d);
    word, more := FirstWord(s), SkipWord(d);
    NoWords();
    assert s == word + (gap + (SecondWord(line) + more));
  }

  lemma NoWords()
    ensures FirstWord([]) == [] && SkipWord([]) == []
  {
  }

  /** The status is read exactly where the line's second word spells a number that fits. */
  lemma StatusExactly(line: seq<Byte>, n: nat)
    ensures ParseDecimal(SecondWord(line), U16_MAX) == Some(n) <==> n <= 0xFFFF && StatusSays(line, n)
  {
    if n <= 0xFFFF && StatusSays(line, n) {
      SaidStatusIsRead(line, n);
    }
    if ParseDecimal(SecondWord(line), U16_MAX) == Some(n) {
      DecimalExactly(SecondWord(line), U16_MAX, n);
      DigitsAreDark(SecondWord(line), n);
      hide SpellsDecimal, ParseDecimal, Blank, Dark, SecondWord;
      var lead, word, gap, more := SecondWordCuts(line);
    }
  }

  function Lower(s: seq<Byte>): seq<Byte> {
    Map((b: Byte) => if 65 <= b <= 90 then b + 32 else b, s)
  }

  /** The value of a header line when its name, case aside, is `name`. */
  function ValueIf(line: seq<Byte>, name: seq<Byte>): Option<seq<Byte>> {
    var before := Before(COLON, line);
    if |before| < |line| && Lower(Trim(before)) == name then Some(Trim(line[|before| + 1..])) else None
  }

  /** The value of the last line with that name: later lines replace earlier ones. */
  function LastValue(lines: seq<seq<Byte>>, name: seq<Byte>): Option<seq<Byte>> {
    if lines == [] then None
    else
      var last := ValueIf(lines[|lines| - 1], name);
      if last.Some? then last else LastValue(lines[..|lines| - 1], name)
  }

  predicate SaysChunked(value: Option<seq<Byte>>) {
    value.Some? && Contains(Lower(value.value), CHUNKED)
  }

  function SaysLength(value: Option<seq<Byte>>): Option<nat> {
    if value.Some? then ParseDecimal(value.value, USIZE_MAX) else None
  }

  /** What the client takes from a head's lines; the status line is the first. */
  function Meaning(lines: seq<seq<Byte>>): Result<ParsedHeaders, Error>
    requires lines != []
  {
    var status := ParseDecimal(SecondWord(lines[0]), U16_MAX);
    if status.None? then Err(BadStatusLine)
    else
      Ok(ParsedHeaders(status.value, SaysChunked(LastValue(lines[1..], TRANSFER_ENCODING)),
                       SaysLength(LastValue(lines[1..], CONTENT_LENGTH))))
  }

  lemma LastValueSnoc(lines: seq<seq<Byte>>, i: nat, name: seq<Byte>)
    requires i < |lines|
    ensures var found := ValueIf(lines[i], name);
            LastValue(lines[..i + 1], name) == if found.Some? then found else LastValue(lines[..i], name)
  {
    assert lines[..i + 1][..i] == lines[..i];
  }

  /** The header loop: later lines replace what earlier ones said. */
  method ReadFields(lines: seq<seq<Byte>>) returns (chunked: bool, contentLength: Option<nat>)
    ensures chunked == SaysChunked(LastValue(lines, TRANSFER_ENCODING))
    ensures contentLength == SaysLength(LastValue(lines, CONTENT_LENGTH))
  {
    hide ValueIf, ParseDecimal;
    chunked, contentLength := false, None;
    for i := 0 to |lines|
      invariant chunked == SaysChunked(LastValue(lines[..i], TRANSFER_ENCODING))
      invariant contentLength == SaysLength(LastValue(lines[..i], CONTENT_LENGTH))
    {
      LastValueSnoc(lines, i, TRANSFER_ENCODING);
      LastValueSnoc(lines, i, CONTENT_LENGTH);
      var encoding := ValueIf(lines[i], TRANSFER_ENCODING);
      var length := ValueIf(lines[i], CONTENT_LENGTH);
      if encoding.Some? {
        chunked := Contains(Lower(encoding.value), CHUNKED);
      }
      if length.Some? {
        contentLength := ParseDecimal(length.value, USIZE_MAX);
      }
    }
    assert lines[..|lines|] == lines;
  }

  method ParseHeaders(text: seq<Byte>) returns (r: Result<ParsedHeaders, Error>)
    ensures r == Meaning(SplitCrLf(text))
  {
    hide SplitCrLf, ParseDecimal, SecondWord;
    var lines := SplitCrLf(text);
    var status := ParseDecimal(SecondWord(lines[0]), U16_MAX);
    if status.None? {
      return Err(BadStatusLine);
    }
    var chunked, contentLength := ReadFields(lines[1..]);
    return Ok(ParsedHeaders(status.value, chunked, contentLength));
  }

  // ---- printing ------------------------------------------------------------------------

  /** A header field as some daemon prints it; any spacing around the value is part of `text`. */
  datatype Field = Field(name: seq<Byte>, text: seq<Byte>)

  datatype Head = Head(statusLine: seq<Byte>, fields: seq<Field>)

  predicate OneLine(s: seq<Byte>) {
    CR !in s && LF !in s
  }

  ghost predicate ValidField(f: Field) {
    OneLine(f.name) && OneLine(f.text) && COLON !in f.name
  }

  /** The status line gives the status, however it spells and spaces it; nothing is asked of the fields. */
  ghost predicate ValidHead(h: Head, status: nat) {
    && OneLine(h.statusLine) && StatusSays(h.statusLine, status) && status <= U16_MAX
    && forall i :: 0 <= i < |h.fields| ==> ValidField(h.fields[i])
  }

  function FieldLine(f: Field): seq<Byte> {
    f.name + [COLON] + f.text
  }

  function FieldLines(fields: seq<Field>): seq<seq<Byte>> {
    Map((f: Field) => FieldLine(f), fields)
  }

  function HeadLines(h: Head): seq<seq<Byte>> {
    [h.statusLine] + FieldLines(h.fields)
  }

  /** The lines, each ended, and the blank line. */
  function PrintLines(lines: seq<seq<Byte>>): seq<Byte> {
    if lines == [] then [CR, LF] else Line(lines[0]) + PrintLines(lines[1..])
  }

  function PrintHead(h: Head): seq<Byte> {
    PrintLines(HeadLines(h))
  }

  ghost predicate PrintableLines(lines: seq<seq<Byte>>) {
    forall i :: 0 <= i < |lines| ==> lines[i] != [] && OneLine(lines[i])
  }

  lemma HeadIsPrintable(h: Head, status: nat)
    requires ValidHead(h, status)
    ensures PrintableLines(HeadLines(h))
  {
    StatusIsSomething(h.statusLine, status);
  }

  lemma StatusIsSomething(line: seq<Byte>, n: nat)
    requires StatusSays(line, n)
    ensures line != []
  {
    hide SpellsDecimal;
  }

  // ---- the head's end is found ---------------------------------------------------------

  lemma PrintShape(lines: seq<seq<Byte>>, rest: seq<Byte>)
    requires lines != []
    ensures PrintLines(lines) + rest == Line(lines[0]) + (PrintLines(lines[1..]) + rest)
    ensures |PrintLines(lines)| == |lines[0]| + 2 + |PrintLines(lines[1..])|
  {
  }

  lemma ShiftBlank(front: seq<Byte>, b: seq<Byte>, p: nat)
    ensures 4 <= p <= |b| ==> BlankLineEndsAt(front + b, |front| + p) == BlankLineEndsAt(b, p)
  {
  }

  lemma {:induction false} PrintEnds(lines: seq<seq<Byte>>)
    ensures |PrintLines(lines)| >= 2
    ensures lines != [] ==> BlankLineEndsAt(PrintLines(lines), |PrintLines(lines)|)
  {
    if |lines| == 1 {
      assert PrintLines(lines[1..]) == [CR, LF];
    } else if lines != [] {
      PrintEnds(lines[1..]);
      ShiftBlank(Line(lines[0]), PrintLines(lines[1..]), |PrintLines(lines[1..])|);
    }
  }

  /** No blank line ends before the last byte of the printed lines. */
  lemma {:induction false} NoEarlyBlank(lines: seq<seq<Byte>>, rest: seq<Byte>, p: nat)
    requires PrintableLines(lines) && p < |PrintLines(lines)|
    ensures !BlankLineEndsAt(PrintLines(lines) + rest, p)
  {
    if lines != [] && 4 <= p {
      var first, later := lines[0], PrintLines(lines[1..]) + rest;
      var b := Line(first) + later;
      PrintShape(lines, rest);
      assert OneLine(first);
      if p - 4 < |first| {
        assert b[p - 4] == first[p - 4] && first[p - 4] in first;
      } else if p >= |first| + 6 {
        NoEarlyBlank(lines[1..], rest, p - (|first| + 2));
        assert forall i :: |first| + 2 <= i < |b| ==> b[i] == later[i - (|first| + 2)];
      } else if lines[1..] != [] {
        assert lines[1] != [] && OneLine(lines[1]);
        PrintShape(lines[1..], rest);
        assert later[0] == lines[1][0] && lines[1][0] in lines[1];
        assert b[|first| + 2] == later[0];
      }
    }
  }

  /** Reading stops exactly behind a printed head, whatever follows it. */
  lemma PrintedHeadLength(lines: seq<seq<Byte>>, rest: seq<Byte>)
    requires lines != [] && PrintableLines(lines)
    ensures HeadLength(PrintLines(lines) + rest) == Some(|PrintLines(lines)|)
    ensures (PrintLines(lines) + rest)[..|PrintLines(lines)|] == PrintLines(lines)
  {
    hide PrintLines;
    var b := PrintLines(lines) + rest;
    var n := |PrintLines(lines)|;
    PrintEnds(lines);
    assert BlankLineEndsAt(b, n);
    forall p | 0 <= p < n ensures !BlankLineEndsAt(b, p) {
      NoEarlyBlank(lines, rest, p);
    }
  }

  // ---- and its lines read back ---------------------------------------------------------

  lemma SplitFirst(line: seq<Byte>, later: seq<Byte>)
    requires OneLine(line)
    ensures SplitCrLf(Line(line) + later) == [line] + SplitCrLf(later)
  {
    var b := Line(line) + later;
    var p := FindCrLf(b, 0);
    assert b[|line|] == CR && b[|line| + 1] == LF;
    forall i | 0 <= i < |line| ensures b[i] != CR {
      assert b[i] == line[i] && line[i] in line;
    }
    assert b[..|line|] == line && b[|line| + 2..] == later;
  }

  lemma PrintFirst(lines: seq<seq<Byte>>)
    requires lines != []
    ensures PrintLines(lines) == Line(lines[0]) + PrintLines(lines[1..])
  {
  }

  lemma AppendFirst<T>(s: seq<T>, tail: seq<T>)
    requires s != []
    ensures [s[0]] + (s[1..] + tail) == s + tail
  {
  }

  lemma SplitBlank()
    ensures PrintLines([]) == [CR, LF] && SplitCrLf(PrintLines([])) == [[], []]
  {
  }

  lemma {:induction false} SplitPrinted(lines: seq<seq<Byte>>)
    requires PrintableLines(lines)
    ensures SplitCrLf(PrintLines(lines)) == lines + [[], []]
  {
    if lines == [] {
      SplitBlank();
    } else {
      hide SplitCrLf, Line, OneLine, PrintLines;
      assert OneLine(lines[0]);
      PrintFirst(lines);
      SplitFirst(lines[0], PrintLines(lines[1..]));
      SplitPrinted(lines[1..]);
      AppendFirst(lines, [[], []]);
    }
  }

  lemma BlanksHaveNoValue(lines: seq<seq<Byte>>, name: seq<Byte>)
    ensures LastValue(lines + [[], []], name) == LastValue(lines, name)
  {
    var longer := lines + [[], []];
    assert longer[..|longer| - 1] == lines + [[]] && (lines + [[]])[..|lines|] == lines;
  }

  /** What the printed fields say, by the client's rules. */
  function FieldValue(fields: seq<Field>, name: seq<Byte>): Option<seq<Byte>> {
    if fields == [] then None
    else
      var last := fields[|fields| - 1];
      if Lower(Trim(last.name)) == name then Some(Trim(last.text)) else FieldValue(fields[..|fields| - 1], name)
  }

  lemma {:induction false} FieldsReadBack(fields: seq<Field>, name: seq<Byte>)
    requires forall i :: 0 <= i < |fields| ==> ValidField(fields[i])
    ensures LastValue(FieldLines(fields), name) == FieldValue(fields, name)
  {
    if fields != [] {
      var n := |fields| - 1;
      var f := fields[n];
      assert ValidField(f);
      assert FieldLines(fields)[..n] == FieldLines(fields[..n]) && FieldLines(fields)[n] == FieldLine(f);
      assert FieldLine(f) == f.name + ([COLON] + f.text);
      BeforeMark(COLON, f.name, [COLON] + f.text);
      assert FieldLine(f)[|f.name| + 1..] == f.text;
      FieldsReadBack(fields[..n], name);
    }
  }

  /** Any printed head reads back as its status and as what its last transfer-encoding and content-length say. */
  lemma HeadRoundTrip(h: Head, status: nat)
    requires ValidHead(h, status)
    ensures Meaning(SplitCrLf(PrintHead(h)))
         == Ok(ParsedHeaders(status, SaysChunked(FieldValue(h.fields, TRANSFER_ENCODING)),
                             SaysLength(FieldValue(h.fields, CONTENT_LENGTH))))
  {
    hide SplitCrLf, PrintLines, ParseDecimal, SecondWord, FieldValue, LastValue, FieldLines, StatusSays;
    HeadIsPrintable(h, status);
    SplitPrinted(HeadLines(h));
    var lines := SplitCrLf(PrintHead(h));
    assert lines[0] == h.statusLine && lines[1..] == FieldLines(h.fields) + [[], []];
    StatusExactly(h.statusLine, status);
    BlanksHaveNoValue(FieldLines(h.fields), TRANSFER_ENCODING);
    BlanksHaveNoValue(FieldLines(h.fields), CONTENT_LENGTH);
    FieldsReadBack(h.fields, TRANSFER_ENCODING);
    FieldsReadBack(h.fields, CONTENT_LENGTH);
  }
}
