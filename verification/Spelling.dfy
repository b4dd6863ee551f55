/**
 What texts spell which numbers, said without the parsers: blanks, letter case, leading zeros and
 an optional plus sign, and that the parsers read exactly these.
*/
module Spelling {
  import opened Wrappers
  import opened Sequences
  import opened Wire
  import opened ChunkedCoding
  import opened Decimals

  // ---- blanks --------------------------------------------------------------------------

  /** Tabs, line ends, form feeds and spaces only. */
  predicate Blank(s: seq<Byte>) {
    forall i :: 0 <= i < |s| ==> s[i] in [9, 10, 11, 12, 13, 32]
  }

  /** Nothing, or something that neither starts nor ends with a blank. */
  predicate Tight(s: seq<Byte>) {
    s == [] || (!Blank([s[0]]) && !Blank([s[|s| - 1]]))
  }

  lemma BlankIsSpace(b: Byte)
    ensures Blank([b]) <==> IsSpace(b)
  {
    assert [b][0] == b;
  }

  lemma {:induction false} TrimStartSkips(a: seq<Byte>, s: seq<Byte>)
    requires Blank(a) && (s == [] || !Blank([s[0]]))
    ensures TrimStart(a + s) == s
  {
    if a == [] {
      assert a + s == s;
      if s != [] {
        BlankIsSpace(s[0]);
      }
    } else {
      assert (a + s)[1..] == a[1..] + s;
      TrimStartSkips(a[1..], s);
    }
  }

  lemma {:induction false} TrimEndSkips(s: seq<Byte>, b: seq<Byte>)
    requires Blank(b) && (s == [] || !Blank([s[|s| - 1]]))
    ensures TrimEnd(s + b) == s
  {
    if b == [] {
      assert s + b == s;
      if s != [] {
        BlankIsSpace(s[|s| - 1]);
      }
    } else {
      assert (s + b)[..|s + b| - 1] == s + b[..|b| - 1];
      TrimEndSkips(s, b[..|b| - 1]);
    }
  }

  /** Trimming takes the blanks off both ends and nothing else. */
  lemma TrimExactly(a: seq<Byte>, s: seq<Byte>, b: seq<Byte>)
    requires Blank(a) && Tight(s) && Blank(b)
    ensures Trim(a + s + b) == s
  {
    if s == [] {
      assert a + s + b == (a + b) + [];
      TrimStartSkips(a + b, []);
    } else {
      assert a + s + b == a + (s + b);
      TrimStartSkips(a, s + b);
      TrimEndSkips(s, b);
    }
  }

  /** Every text is blanks, what trimming leaves, and blanks. */
  lemma TrimCuts(text: seq<Byte>) returns (a: seq<Byte>, b: seq<Byte>)
    ensures text == a + Trim(text) + b && Blank(a) && Blank(b) && Tight(Trim(text))
  {
    var later: seq<Byte>;
    a, later := CutStart(text);
    var s;
    s, b := CutEnd(later);
    if s == [] {
      assert a + s + b == text;
      TrimExactly(a, s, b);
    } else {
      assert later[0] == s[0];
      assert a + s + b == text;
      TrimExactly(a, s, b);
    }
  }

  lemma {:induction false} CutStart(text: seq<Byte>) returns (a: seq<Byte>, s: seq<Byte>)
    ensures text == a + s && Blank(a) && (s == [] || !Blank([s[0]]))
  {
    if text != [] && Blank([text[0]]) {
      assert [text[0]][0] == text[0];
      a, s := CutStart(text[1..]);
      a := [text[0]] + a;
    } else {
      a, s := [], text;
    }
  }

  lemma {:induction false} CutEnd(text: seq<Byte>) returns (s: seq<Byte>, b: seq<Byte>)
    ensures text == s + b && Blank(b) && (s == [] || !Blank([s[|s| - 1]]))
  {
    if text != [] && Blank([text[|text| - 1]]) {
      assert [text[|text| - 1]][0] == text[|text| - 1];
      s, b := CutEnd(text[..|text| - 1]);
      b := b + [text[|text| - 1]];
    } else {
      s, b := text, [];
    }
  }

  // ---- letter case ---------------------------------------------------------------------

  /** The same byte, or the same letter in the other case. */
  predicate SameLetter(a: Byte, b: Byte) {
    a == b || (65 <= a <= 90 && b == a + 32) || (65 <= b <= 90 && a == b + 32)
  }

  predicate CaseVariant(s: seq<Byte>, t: seq<Byte>) {
    |s| == |t| && forall i :: 0 <= i < |s| ==> SameLetter(s[i], t[i])
  }

  predicate LowerCase(t: seq<Byte>) {
    forall i :: 0 <= i < |t| ==> !(65 <= t[i] <= 90)
  }

  // ---- numbers -------------------------------------------------------------------------

  function Zeros(k: nat): seq<Byte> {
    seq(k, i => 48)
  }

  predicate PlusOrNot(s: seq<Byte>) {
    s == [] || s == [43]
  }

  /** An optional plus sign and the decimal digits of `n`, behind any zeros. */
  ghost predicate SpellsDecimal(s: seq<Byte>, n: nat) {
    exists plus, k :: PlusOrNot(plus) && s == plus + (Zeros(k) + DecimalText(n))
  }

  /** An optional plus sign and the hex digits of `n` in either case, behind any zeros. */
  ghost predicate SpellsHex(s: seq<Byte>, n: nat) {
    exists plus, digits, k ::
      PlusOrNot(plus) && s == plus + digits && CaseVariant(digits, Zeros(k) + HexText(n))
  }

  lemma {:induction false} ZerosCountNothing(k: nat, s: seq<Byte>)
    requires AllDigits(s)
    ensures AllDigits(Zeros(k) + s) && DecimalValue(Zeros(k) + s) == DecimalValue(s)
  {
    var whole := Zeros(k) + s;
    if s != [] {
      assert whole[..|whole| - 1] == Zeros(k) + s[..|s| - 1];
      ZerosCountNothing(k, s[..|s| - 1]);
    } else if k > 0 {
      assert whole[..k - 1] == Zeros(k - 1) + [];
      ZerosCountNothing(k - 1, []);
    }
  }

  lemma OneMoreDigit(v: nat, b: Byte)
    requires IsDigit(b)
    ensures v > 0 ==> DecimalText(10 * v + (b - 48) as nat) == DecimalText(v) + [b]
    ensures DecimalText((b - 48) as nat) == [b]
  {
  }

  lemma OneMoreSpelled(k: nat, v: nat, b: Byte) returns (more: nat)
    requires IsDigit(b)
    ensures Zeros(k) + DecimalText(v) + [b] == Zeros(more) + DecimalText(10 * v + (b - 48) as nat)
  {
    OneMoreDigit(v, b);
    OneMoreDigit(0, 48);
    hide DecimalText;
    more := if v == 0 then k + 1 else k;
    assert Zeros(k) + [48] == Zeros(k + 1);
    assert Zeros(k) + DecimalText(v) + [b] == Zeros(k) + (DecimalText(v) + [b]);
  }

  /** Digits are leading zeros and the printed value. */
  lemma {:induction false} DigitsSpell(s: seq<Byte>) returns (k: nat)
    requires s != [] && AllDigits(s)
    ensures s == Zeros(k) + DecimalText(DecimalValue(s))
  {
    var front, last := s[..|s| - 1], s[|s| - 1];
    assert s == front + [last];
    hide DecimalText;
    if front == [] {
      OneMoreDigit(0, last);
      k := 0;
    } else {
      k := DigitsSpell(front);
      k := OneMoreSpelled(k, DecimalValue(front), last);
    }
  }

  /** The decimal parser reads exactly the spellings of the numbers up to its bound. */
  lemma DecimalExactly(s: seq<Byte>, max: nat, n: nat)
    ensures ParseDecimal(s, max) == Some(n) <==> n <= max && SpellsDecimal(s, n)
  {
    hide DecimalText, DecimalValue;
    if n <= max && SpellsDecimal(s, n) {
      var plus, k :| PlusOrNot(plus) && s == plus + (Zeros(k) + DecimalText(n));
      DecimalTextValue(n);
      ZerosCountNothing(k, DecimalText(n));
      var digits := Zeros(k) + DecimalText(n);
      assert IsDigit(digits[0]);
      assert plus == [43] ==> s[1..] == digits;
      assert plus == [] ==> s == digits;
    }
    if ParseDecimal(s, max) == Some(n) {
      var plus := if |s| > 1 && s[0] == 43 then [43] else [];
      var digits := if |s| > 1 && s[0] == 43 then s[1..] else s;
      var k := DigitsSpell(digits);
      assert s == plus + digits;
      assert PlusOrNot(plus) && s == plus + (Zeros(k) + DecimalText(n));
    }
  }

  lemma {:induction false} CaseKeepsHex(s: seq<Byte>, t: seq<Byte>)
    requires CaseVariant(s, t) && AllHex(t)
    ensures AllHex(s) && HexValue(s) == HexValue(t)
  {
    forall i | 0 <= i < |s| ensures IsHex(s[i]) && HexDigit(s[i]) == HexDigit(t[i]) {
      assert SameLetter(s[i], t[i]) && IsHex(t[i]);
    }
    if s != [] {
      CaseKeepsHex(s[..|s| - 1], t[..|t| - 1]);
    }
  }

  lemma {:induction false} HexZerosCountNothing(k: nat, s: seq<Byte>)
    requires AllHex(s)
    ensures AllHex(Zeros(k) + s) && HexValue(Zeros(k) + s) == HexValue(s)
  {
    var whole := Zeros(k) + s;
    if s != [] {
      assert whole[..|whole| - 1] == Zeros(k) + s[..|s| - 1];
      HexZerosCountNothing(k, s[..|s| - 1]);
    } else if k > 0 {
      assert whole[..k - 1] == Zeros(k - 1) + [];
      HexZerosCountNothing(k - 1, []);
    }
  }

  lemma VariantAppend(s: seq<Byte>, t: seq<Byte>, a: Byte, b: Byte)
    requires CaseVariant(s, t) && SameLetter(a, b)
    ensures CaseVariant(s + [a], t + [b])
  {
  }

  lemma OneMoreHexDigit(v: nat, d: nat)
    requires d < 16
    ensures v == 0 ==> HexText(d) == [HexChar(d)]
    ensures v > 0 ==> HexText(16 * v + d) == HexText(v) + [HexChar(d)]
  {
  }

  lemma ByteOfHexDigit(b: Byte)
    requires IsHex(b)
    ensures SameLetter(b, HexChar(HexDigit(b)))
  {
  }

  lemma OneMoreVariant(front: seq<Byte>, k: nat, v: nat, last: Byte, d: nat) returns (more: nat)
    requires d < 16 && CaseVariant(front, Zeros(k) + HexText(v)) && SameLetter(last, HexChar(d))
    ensures CaseVariant(front + [last], Zeros(more) + HexText(16 * v + d))
  {
    OneMoreHexDigit(v, d);
    VariantAppend(front, Zeros(k) + HexText(v), last, HexChar(d));
    if v == 0 {
      ZeroText();
      hide HexText, CaseVariant;
      assert Zeros(k) + [48] == Zeros(k + 1);
      more := k + 1;
    } else {
      hide HexText, CaseVariant;
      assert Zeros(k) + HexText(16 * v + d) == Zeros(k) + HexText(v) + [HexChar(d)];
      more := k;
    }
  }

  lemma OneHexDigit(last: Byte)
    requires IsHex(last)
    ensures AllHex([last]) && HexValue([last]) == HexDigit(last)
    ensures CaseVariant([last], Zeros(0) + HexText(HexDigit(last)))
  {
    ByteOfHexDigit(last);
    OneMoreHexDigit(0, HexDigit(last));
    assert [last][..0] == [];
    assert HexValue([]) == 0;
  }

  /** Hex digits are, case aside, leading zeros and the printed value. */
  lemma {:induction false} HexDigitsSpell(s: seq<Byte>) returns (k: nat)
    requires s != [] && AllHex(s)
    ensures CaseVariant(s, Zeros(k) + HexText(HexValue(s)))
  {
    var front, last := s[..|s| - 1], s[|s| - 1];
    assert s == front + [last];
    hide HexText, CaseVariant, SameLetter;
    if front == [] {
      OneHexDigit(last);
      assert s == [last];
      k := 0;
    } else {
      k := HexDigitsSpell(front);
      ByteOfHexDigit(last);
      k := OneMoreVariant(front, k, HexValue(front), last, HexDigit(last));
    }
  }

  lemma ZeroText()
    ensures HexText(0) == [48]
  {
  }

  lemma NoHexPlus(digits: seq<Byte>, t: seq<Byte>)
    requires CaseVariant(digits, t) && AllHex(t) && t != []
    ensures digits != [] && digits[0] != 43
  {
    assert SameLetter(digits[0], t[0]) && IsHex(t[0]);
  }

  /** The hex parser reads exactly the spellings of the numbers that fit. */
  lemma HexExactly(s: seq<Byte>, n: nat)
    ensures ParseHex(s) == Some(n) <==> n <= USIZE_MAX && SpellsHex(s, n)
  {
    hide HexText, HexValue, CaseVariant, AllHex;
    if n <= USIZE_MAX && SpellsHex(s, n) {
      var plus, digits, k :|
        PlusOrNot(plus) && s == plus + digits && CaseVariant(digits, Zeros(k) + HexText(n));
      HexTextValue(n);
      HexZerosCountNothing(k, HexText(n));
      CaseKeepsHex(digits, Zeros(k) + HexText(n));
      NoHexPlus(digits, Zeros(k) + HexText(n));
      assert plus == [43] ==> s[1..] == digits;
      assert plus == [] ==> s == digits;
    }
    if ParseHex(s) == Some(n) {
      var plus := if |s| > 1 && s[0] == 43 then [43] else [];
      var digits := if |s| > 1 && s[0] == 43 then s[1..] else s;
      var k := HexDigitsSpell(digits);
      assert s == plus + digits;
      assert PlusOrNot(plus) && s == plus + digits && CaseVariant(digits, Zeros(k) + HexText(n));
    }
  }

  // ---- chunk-size lines ----------------------------------------------------------------

  /** A size between blanks, and then nothing or an extension behind a semicolon. */
  ghost predicate SpellsSize(line: seq<Byte>, n: nat) {
    exists a, s, b, extension ::
      && line == a + s + b + extension && Blank(a) && SpellsHex(s, n) && Blank(b)
      && (extension == [] || extension[0] == 59)
  }

  lemma HexIsTight(s: seq<Byte>, n: nat)
    requires SpellsHex(s, n)
    ensures Tight(s) && s != [] && SEMICOLON !in s
  {
    hide HexText, HexValue, CaseVariant;
    var plus, digits, k :|
      PlusOrNot(plus) && s == plus + digits && CaseVariant(digits, Zeros(k) + HexText(n));
    HexTextValue(n);
    HexZerosCountNothing(k, HexText(n));
    CaseKeepsHex(digits, Zeros(k) + HexText(n));
    NoHexPlus(digits, Zeros(k) + HexText(n));
    TightHex(plus, digits);
  }

  lemma TightHex(plus: seq<Byte>, digits: seq<Byte>)
    requires PlusOrNot(plus) && digits != [] && AllHex(digits)
    ensures Tight(plus + digits) && SEMICOLON !in plus + digits
  {
    var s := plus + digits;
    assert forall i :: 0 <= i < |s| ==> s[i] == 43 || IsHex(s[i]);
    BlankIsSpace(s[0]);
    BlankIsSpace(s[|s| - 1]);
  }

  lemma BlankHasNoMark(s: seq<Byte>, mark: Byte)
    requires Blank(s) && mark > 32
    ensures mark !in s
  {
  }

  /** A chunk-size line is read as a number exactly when it spells it and the number fits. */
  lemma ChunkSizeExactly(line: seq<Byte>, n: nat)
    ensures ChunkSize(line) == Some(n) <==> n <= USIZE_MAX && SpellsSize(line, n)
  {
    hide SpellsHex, Blank, ParseHex, Trim;
    if n <= USIZE_MAX && SpellsSize(line, n) {
      var a, s, b, extension :|
        && line == a + s + b + extension && Blank(a) && SpellsHex(s, n) && Blank(b)
        && (extension == [] || extension[0] == 59);
      HexIsTight(s, n);
      BlankHasNoMark(a, SEMICOLON);
      BlankHasNoMark(b, SEMICOLON);
      BeforeMark(SEMICOLON, a + s + b, extension);
      TrimExactly(a, s, b);
      HexExactly(s, n);
    }
    if ChunkSize(line) == Some(n) {
      var front := Before(SEMICOLON, line);
      var a, b := TrimCuts(front);
      var extension := line[|front|..];
      HexExactly(Trim(front), n);
      assert line == a + Trim(front) + b + extension;
      assert extension == [] || extension[0] == SEMICOLON;
    }
  }

  lemma VariantOfItself(s: seq<Byte>)
    ensures CaseVariant(s, s)
  {
  }

  /** The plain digits are one spelling of a size. */
  lemma PlainSize(n: nat)
    ensures SpellsSize(HexText(n), n) && LF !in HexText(n)
  {
    hide HexText, HexValue, CaseVariant;
    var digits := HexText(n);
    HexTextValue(n);
    VariantOfItself(digits);
    assert digits == [] + digits && Zeros(0) + digits == digits;
    assert SpellsHex(digits, n);
    assert digits == [] + digits + [] + [];
    assert forall i :: 0 <= i < |digits| ==> IsHex(digits[i]);
  }

  /** The digits are the ASCII ones. */
  lemma DigitsAreAscii(d: nat)
    ensures d < 10 ==> DecimalText(d) == [Ascii("0123456789")[d]]
    ensures d < 16 ==> HexText(d) == [Ascii("0123456789abcdef")[d]]
  {
  }
}
