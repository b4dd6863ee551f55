/**
 What the lines of a response head say, without the client's parsing: which line names a field,
 letter case and blanks aside, and what its text spells; and that the client reads exactly that.
*/
module HeadMeaning {
  import opened Wrappers
  import opened Sequences
  import opened Wire
  import opened ChunkedCoding
  import opened BodyReading
  import opened ResponseHead
  import opened Decimals
  import opened Spelling

  // ---- one line ------------------------------------------------------------------------

  /** A colon with this name in front of it, blanks and letter case aside, and `text` behind it. */
  ghost predicate Says(line: seq<Byte>, name: seq<Byte>, text: seq<Byte>) {
    exists a, s, b :: line == a + s + b + [58] + text && Blank(a) && CaseVariant(s, name) && Blank(b)
  }

  ghost predicate Mentions(line: seq<Byte>, name: seq<Byte>) {
    exists text :: Says(line, name, text)
  }

  /** The name of a field: lower case, and neither blank nor colon in it. */
  predicate FieldName(name: seq<Byte>) {
    name != [] && LowerCase(name) && Dark(name) && 58 !in name
  }

  lemma LowerIsVariant(s: seq<Byte>)
    ensures CaseVariant(s, Lower(s))
  {
  }

  lemma LowerExactly(s: seq<Byte>, t: seq<Byte>)
    requires LowerCase(t)
    ensures Lower(s) == t <==> CaseVariant(s, t)
  {
    if CaseVariant(s, t) {
      forall i | 0 <= i < |s| ensures Lower(s)[i] == t[i] {
        assert SameLetter(s[i], t[i]) && !(65 <= t[i] <= 90);
      }
    }
    LowerIsVariant(s);
  }

  lemma VariantIsTight(s: seq<Byte>, name: seq<Byte>)
    requires FieldName(name) && CaseVariant(s, name)
    ensures Tight(s) && 58 !in s
  {
    forall i | 0 <= i < |s| ensures !Blank([s[i]]) && s[i] != 58 {
      assert SameLetter(s[i], name[i]) && !Blank([name[i]]) && name[i] in name;
      BlankIsSpace(s[i]);
      BlankIsSpace(name[i]);
    }
  }

  /** The client finds a value on a line exactly when the line says it. */
  lemma ValueExactly(line: seq<Byte>, name: seq<Byte>)
    requires FieldName(name)
    ensures ValueIf(line, name).Some? <==> Mentions(line, name)
    ensures forall text :: Says(line, name, text) ==> ValueIf(line, name) == Some(Trim(text))
  {
    hide Blank, CaseVariant, Trim, Lower;
    forall text | Says(line, name, text) ensures ValueIf(line, name) == Some(Trim(text)) {
      SaidIsRead(line, name, text);
    }
    if ValueIf(line, name).Some? {
      ReadIsSaid(line, name);
    }
  }

  lemma ReadIsSaid(line: seq<Byte>, name: seq<Byte>)
    requires FieldName(name) && ValueIf(line, name).Some?
    ensures Mentions(line, name)
  {
    var before := Before(COLON, line);
    LowerExactly(Trim(before), name);
    hide Blank, CaseVariant, Trim, Lower, FieldName, Before;
    var a, b := TrimCuts(before);
    var text := line[|before| + 1..];
    assert line == before + [58] + text;
    assert Says(line, name, text);
  }

  lemma SaidIsRead(line: seq<Byte>, name: seq<Byte>, text: seq<Byte>)
    requires FieldName(name) && Says(line, name, text)
    ensures ValueIf(line, name) == Some(Trim(text))
  {
    hide Blank, CaseVariant, Trim, Lower;
    var a, s, b :| line == a + s + b + [58] + text && Blank(a) && CaseVariant(s, name) && Blank(b);
    VariantIsTight(s, name);
    BlankHasNoMark(a, COLON);
    BlankHasNoMark(b, COLON);
    assert line == (a + s + b) + ([58] + text);
    BeforeMark(COLON, a + s + b, [58] + text);
    TrimExactly(a, s, b);
    LowerExactly(s, name);
    assert line[|a + s + b| + 1..] == text;
  }

  // ---- the lines -----------------------------------------------------------------------

  /** The last line that mentions the name has this text. */
  ghost predicate LastSays(lines: seq<seq<Byte>>, name: seq<Byte>, text: seq<Byte>) {
    exists i :: 0 <= i < |lines| && Says(lines[i], name, text)
             && forall j :: i < j < |lines| ==> !Mentions(lines[j], name)
  }

  ghost predicate SomeMentions(lines: seq<seq<Byte>>, name: seq<Byte>) {
    exists i :: 0 <= i < |lines| && Mentions(lines[i], name)
  }

  lemma LastSaysSnoc(lines: seq<seq<Byte>>, line: seq<Byte>, name: seq<Byte>, text: seq<Byte>)
    ensures LastSays(lines + [line], name, text)
       <==> if Mentions(line, name) then Says(line, name, text) else LastSays(lines, name, text)
  {
    SayingMentions(line, name, text);
    hide Says, Mentions;
    var more := lines + [line];
    assert forall i :: 0 <= i < |lines| ==> more[i] == lines[i];
    assert more[|lines|] == line;
    if LastSays(more, name, text) {
      var i :| 0 <= i < |more| && Says(more[i], name, text)
            && forall j :: i < j < |more| ==> !Mentions(more[j], name);
      if i < |lines| {
        assert Says(lines[i], name, text) && forall j :: i < j < |lines| ==> !Mentions(lines[j], name);
      }
    }
    if LastSays(lines, name, text) && !Mentions(line, name) {
      var i :| 0 <= i < |lines| && Says(lines[i], name, text)
             && forall j :: i < j < |lines| ==> !Mentions(lines[j], name);
      assert Says(more[i], name, text) && forall j :: i < j < |more| ==> !Mentions(more[j], name);
    }
    if Mentions(line, name) && Says(line, name, text) {
      assert Says(more[|lines|], name, text);
    }
  }

  lemma SayingMentions(line: seq<Byte>, name: seq<Byte>, text: seq<Byte>)
    ensures Says(line, name, text) ==> Mentions(line, name)
  {
  }

  /** The value the client keeps is that of the last line that mentions the name. */
  lemma {:induction false} LastValueExactly(lines: seq<seq<Byte>>, name: seq<Byte>)
    requires FieldName(name)
    ensures LastValue(lines, name).Some? <==> exists text :: LastSays(lines, name, text)
    ensures forall text :: LastSays(lines, name, text) ==> LastValue(lines, name) == Some(Trim(text))
  {
    hide Says, ValueIf, Trim, FieldName;
    if lines != [] {
      var front, line := lines[..|lines| - 1], lines[|lines| - 1];
      assert lines == front + [line];
      ValueExactly(line, name);
      LastValueExactly(front, name);
      forall text ensures LastSays(lines, name, text)
                     <==> if Mentions(line, name) then Says(line, name, text) else LastSays(front, name, text) {
        LastSaysSnoc(front, line, name, text);
      }
    }
  }

  // ---- the three things the client takes -----------------------------------------------

  /** Some stretch of `text` is `word`, letter case aside. */
  ghost predicate Holds(text: seq<Byte>, word: seq<Byte>) {
    exists a, s, b :: text == a + s + b && CaseVariant(s, word)
  }

  /** The text is blanks around a spelling of `n`. */
  ghost predicate Spells(text: seq<Byte>, n: nat) {
    exists a, s, b :: text == a + s + b && Blank(a) && SpellsDecimal(s, n) && Blank(b)
  }

  ghost predicate SayChunked(lines: seq<seq<Byte>>) {
    exists text :: LastSays(lines, Ascii("transfer-encoding"), text) && Holds(text, Ascii("chunked"))
  }

  ghost predicate SayLength(lines: seq<seq<Byte>>, n: nat) {
    exists text :: LastSays(lines, Ascii("content-length"), text) && Spells(text, n) && n <= 0xFFFF_FFFF_FFFF_FFFF
  }

  lemma DarkLetters(name: seq<Byte>)
    requires name != [] && forall i :: 0 <= i < |name| ==> name[i] == 45 || 97 <= name[i] <= 122
    ensures FieldName(name)
  {
    forall b: Byte | b > 32 ensures !Blank([b]) {
      BlankIsSpace(b);
    }
  }

  lemma NamesAreNames()
    ensures FieldName(TRANSFER_ENCODING) && TRANSFER_ENCODING == Ascii("transfer-encoding")
    ensures FieldName(CONTENT_LENGTH) && CONTENT_LENGTH == Ascii("content-length")
    ensures FieldName(CHUNKED) && CHUNKED == Ascii("chunked")
  {
    hide FieldName;
    DarkLetters(TRANSFER_ENCODING);
    DarkLetters(CONTENT_LENGTH);
    DarkLetters(CHUNKED);
  }

  lemma LowerOfPart(s: seq<Byte>, i: nat, j: nat)
    requires i <= j <= |s|
    ensures Lower(s)[i..j] == Lower(s[i..j]) && |Lower(s)| == |s|
  {
  }

  lemma PartAt(s: seq<Byte>, i: nat, word: seq<Byte>)
    requires i <= |s|
    ensures word <= s[i..] <==> i + |word| <= |s| && s[i..i + |word|] == word
  {
    if i + |word| <= |s| {
      assert s[i..][..|word|] == s[i..i + |word|];
    }
  }

  lemma HeldIsContained(a: seq<Byte>, t: seq<Byte>, b: seq<Byte>, word: seq<Byte>)
    requires LowerCase(word) && CaseVariant(t, word)
    ensures Contains(Lower(a + t + b), word)
  {
    var s := a + t + b;
    LowerExactly(t, word);
    hide CaseVariant, LowerCase, Lower;
    assert s[|a|..|a| + |t|] == t;
    LowerOfPart(t, 0, 0);
    LowerOfPart(s, |a|, |a| + |t|);
    PartAt(Lower(s), |a|, word);
  }

  lemma ContainsExactly(s: seq<Byte>, word: seq<Byte>)
    requires LowerCase(word)
    ensures Contains(Lower(s), word) <==> Holds(s, word)
  {
    hide CaseVariant, Lower;
    if Holds(s, word) {
      var a, t, b :| s == a + t + b && CaseVariant(t, word);
      HeldIsContained(a, t, b, word);
    }
    if Contains(Lower(s), word) {
      LowerOfPart(s, 0, 0);
      var i :| 0 <= i <= |s| && word <= Lower(s)[i..];
      PartAt(Lower(s), i, word);
      LowerOfPart(s, i, i + |word|);
      LowerExactly(s[i..i + |word|], word);
      assert s == s[..i] + s[i..i + |word|] + s[i + |word|..];
    }
  }

  lemma BlanksHoldNothing(a: seq<Byte>, s: seq<Byte>, b: seq<Byte>, word: seq<Byte>)
    requires Blank(a) && Blank(b) && FieldName(word)
    ensures Holds(a + s + b, word) <==> Holds(s, word)
  {
    hide Blank, CaseVariant, FieldName;
    if Holds(s, word) {
      var front, t, back :| s == front + t + back && CaseVariant(t, word);
      assert a + s + b == (a + front) + t + (back + b);
    }
    if Holds(a + s + b, word) {
      var front, t, back :| a + s + b == front + t + back && CaseVariant(t, word);
      var whole := a + s + b;
      VariantIsDark(t, word);
      assert whole[|front|] == t[0] && whole[|front| + |t| - 1] == t[|t| - 1];
      if |front| < |a| {
        assert whole[|front|] == a[|front|];
        BlankAt(a, |front|);
        assert false;
      }
      if |front| + |t| > |a| + |s| {
        assert whole[|front| + |t| - 1] == b[|front| + |t| - 1 - |a| - |s|];
        BlankAt(b, |front| + |t| - 1 - |a| - |s|);
        assert false;
      }
      var i := |front| - |a|;
      assert s[i..i + |t|] == whole[|front|..|front| + |t|] == t;
      assert s == s[..i] + t + s[i + |t|..];
    }
  }

  lemma BlankAt(s: seq<Byte>, i: nat)
    requires Blank(s) && i < |s|
    ensures Blank([s[i]])
  {
  }

  lemma VariantIsDark(s: seq<Byte>, name: seq<Byte>)
    requires FieldName(name) && CaseVariant(s, name)
    ensures s != [] && !Blank([s[0]]) && !Blank([s[|s| - 1]])
  {
    VariantIsTight(s, name);
  }

  lemma ChunkedExactly(lines: seq<seq<Byte>>)
    ensures SaysChunked(LastValue(lines, TRANSFER_ENCODING)) <==> SayChunked(lines)
  {
    hide LastSays, Holds, Trim, FieldName, Lower, Contains;
    NamesAreNames();
    LastValueExactly(lines, TRANSFER_ENCODING);
    forall text | LastSays(lines, TRANSFER_ENCODING, text)
      ensures SaysChunked(LastValue(lines, TRANSFER_ENCODING)) <==> Holds(text, CHUNKED)
    {
      var a, b := TrimCuts(text);
      BlanksHoldNothing(a, Trim(text), b, CHUNKED);
      LowerCaseOfName(CHUNKED);
      ContainsExactly(Trim(text), CHUNKED);
    }
  }

  lemma LowerCaseOfName(name: seq<Byte>)
    requires FieldName(name)
    ensures LowerCase(name)
  {
  }

  lemma NumberExactly(text: seq<Byte>, max: nat, n: nat)
    ensures ParseDecimal(Trim(text), max) == Some(n) <==> n <= max && Spells(text, n)
  {
    hide SpellsDecimal, Blank, ParseDecimal, Trim;
    if Spells(text, n) {
      var a, s, b :| text == a + s + b && Blank(a) && SpellsDecimal(s, n) && Blank(b);
      DigitsAreDark(s, n);
      TrimExactly(a, s, b);
      DecimalExactly(s, max, n);
    }
    if ParseDecimal(Trim(text), max) == Some(n) {
      var a, b := TrimCuts(text);
      DecimalExactly(Trim(text), max, n);
    }
  }

  lemma LengthExactly(lines: seq<seq<Byte>>, n: nat)
    ensures SaysLength(LastValue(lines, CONTENT_LENGTH)) == Some(n) <==> SayLength(lines, n)
  {
    hide LastSays, Spells, Trim, FieldName, ParseDecimal;
    NamesAreNames();
    LastValueExactly(lines, CONTENT_LENGTH);
    forall text | LastSays(lines, CONTENT_LENGTH, text)
      ensures SaysLength(LastValue(lines, CONTENT_LENGTH)) == Some(n) <==> n <= USIZE_MAX && Spells(text, n)
    {
      NumberExactly(text, USIZE_MAX, n);
    }
  }

  // ---- a whole head --------------------------------------------------------------------

  /** The head's lines say exactly this; the first is the status line. */
  ghost predicate Tells(lines: seq<seq<Byte>>, headers: ParsedHeaders)
    requires lines != []
  {
    && StatusSays(lines[0], headers.status) && headers.status <= 0xFFFF
    && (headers.chunked <==> SayChunked(lines[1..]))
    && (forall n: nat :: headers.contentLength == Some(n) <==> SayLength(lines[1..], n))
  }

  /** The client takes from any lines exactly what they say, and fails exactly without a status. */
  lemma MeaningExactly(lines: seq<seq<Byte>>, headers: ParsedHeaders)
    requires lines != []
    ensures Meaning(lines) == Ok(headers) <==> Tells(lines, headers)
    ensures Meaning(lines) == Err(BadStatusLine) <==> forall n :: n <= 0xFFFF ==> !StatusSays(lines[0], n)
  {
    hide StatusSays, SayChunked, SayLength, ParseDecimal, SecondWord, SaysChunked, SaysLength, LastValue;
    forall n: nat ensures ParseDecimal(SecondWord(lines[0]), U16_MAX) == Some(n)
                     <==> n <= 0xFFFF && StatusSays(lines[0], n) {
      StatusExactly(lines[0], n);
    }
    ChunkedExactly(lines[1..]);
    forall n: nat ensures SaysLength(LastValue(lines[1..], CONTENT_LENGTH)) == Some(n) <==> SayLength(lines[1..], n) {
      LengthExactly(lines[1..], n);
    }
    if Tells(lines, headers) {
      var read := SaysLength(LastValue(lines[1..], CONTENT_LENGTH));
      assert headers.contentLength == read by {
        if read.Some? {
          assert SayLength(lines[1..], read.value);
        }
      }
    }
  }

  // ---- cutting a head into lines -------------------------------------------------------

  function WithCrLf(lines: seq<seq<Byte>>): seq<Byte> {
    if lines == [] then []
    else if |lines| == 1 then lines[0]
    else lines[0] + [13, 10] + WithCrLf(lines[1..])
  }

  predicate NoCrLf(line: seq<Byte>) {
    forall i :: 0 <= i < |line| - 1 ==> !(line[i] == 13 && line[i + 1] == 10)
  }

  lemma FindCrLfIs(b: seq<Byte>, k: nat, p: nat)
    requires k <= p < |b| - 1 && b[p] == CR && b[p + 1] == LF
    requires forall i :: k <= i < p ==> !(b[i] == CR && b[i + 1] == LF)
    ensures FindCrLf(b, k) == p
  {
  }

  lemma SplitStep(line: seq<Byte>, later: seq<Byte>)
    requires NoCrLf(line)
    ensures SplitCrLf(line + [13, 10] + later) == [line] + SplitCrLf(later)
    ensures SplitCrLf(line) == [line]
  {
    var b := line + [13, 10] + later;
    FindCrLfIs(b, 0, |line|);
    assert b[..|line|] == line && b[|line| + 2..] == later;
    assert FindCrLf(line, 0) == |line|;
  }

  /** Cutting at the line ends is exact: the lines hold none, and put together again they are the text. */
  lemma {:induction false} SplitExactly(text: seq<Byte>, lines: seq<seq<Byte>>)
    ensures SplitCrLf(text) == lines
       <==> lines != [] && WithCrLf(lines) == text && forall i :: 0 <= i < |lines| ==> NoCrLf(lines[i])
    decreases |text|
  {
    hide NoCrLf;
    var p := FindCrLf(text, 0);
    if p == |text| {
      NothingToCut(text, lines);
    } else {
      var front, later := text[..p], text[p + 2..];
      assert text == front + [13, 10] + later;
      assert NoCrLf(front) by {
        FrontHasNone(text, p);
      }
      SplitStep(front, later);
      SplitExactly(later, SplitCrLf(later));
      var found := [front] + SplitCrLf(later);
      assert found[1..] == SplitCrLf(later);
      assert forall i :: 1 <= i < |found| ==> found[i] == SplitCrLf(later)[i - 1];
      if lines != [] && WithCrLf(lines) == text && forall i :: 0 <= i < |lines| ==> NoCrLf(lines[i]) {
        SplitJoined(lines);
      }
    }
  }

  lemma FrontHasNone(text: seq<Byte>, p: nat)
    requires p == FindCrLf(text, 0) < |text|
    ensures NoCrLf(text[..p])
  {
  }

  lemma NothingToCut(text: seq<Byte>, lines: seq<seq<Byte>>)
    requires FindCrLf(text, 0) == |text|
    ensures SplitCrLf(text) == lines
       <==> lines != [] && WithCrLf(lines) == text && forall i :: 0 <= i < |lines| ==> NoCrLf(lines[i])
  {
    assert NoCrLf(text);
    if lines != [] && WithCrLf(lines) == text && forall i :: 0 <= i < |lines| ==> NoCrLf(lines[i]) {
      SplitJoined(lines);
    }
  }

  lemma {:induction false} SplitJoined(lines: seq<seq<Byte>>)
    requires lines != [] && forall i :: 0 <= i < |lines| ==> NoCrLf(lines[i])
    ensures SplitCrLf(WithCrLf(lines)) == lines
  {
    hide SplitCrLf, NoCrLf;
    if |lines| == 1 {
      SplitStep(lines[0], []);
    } else {
      SplitStep(lines[0], WithCrLf(lines[1..]));
      SplitJoined(lines[1..]);
    }
  }
}
