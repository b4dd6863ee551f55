/** The file names of the checkpoint registry: which of them are entries, and that no two collide. */
module RegistryNames {
  import opened Sequences
  import opened Wire
  import opened Decimals

  type Text = seq<Byte>

  /** What makes one write's temp file unique: the process, its counter and the time. */
  datatype Suffix = Suffix(pid: nat, count: nat, nanos: nat)

  /** A file in the registry's directory. */
  datatype Path = Final(name: Text) | Temp(name: Text, suffix: Suffix)

  const DOT: Byte := 46
  const DASH: Byte := 45
  const JSON := Ascii("json")
  const DOT_JSON := Ascii(".json")
  const TMP := Ascii(".json.tmp.")

  predicate IsNameByte(b: Byte) {
    IsDigit(b) || 97 <= b <= 122 || b == DASH
  }

  /** `^[a-z0-9][a-z0-9-]{0,40}$` */
  predicate ValidName(name: Text) {
    && 1 <= |name| <= 41 && name[0] != DASH
    && forall i :: 0 <= i < |name| ==> IsNameByte(name[i])
  }

  function SuffixText(s: Suffix): Text {
    DecimalText(s.pid) + [DASH] + (DecimalText(s.count) + [DASH] + DecimalText(s.nanos))
  }

  function FileName(p: Path): Text {
    match p
    case Final(name) => name + DOT_JSON
    case Temp(name, suffix) => name + TMP + SuffixText(suffix)
  }

  /** The directory listing's filter; a name whose only dot is its first character has no extension. */
  predicate Listed(file: Text) {
    file != [] && DOT in file[1..] && AfterLast(DOT, file) == JSON
  }

  lemma DigitsAreNeither(n: nat)
    ensures DOT !in DecimalText(n) && DASH !in DecimalText(n)
  {
  }

  lemma NameHasNoDot(name: Text)
    requires ValidName(name)
    ensures DOT !in name
  {
  }

  lemma SuffixShape(s: Suffix)
    ensures DOT !in SuffixText(s) && SuffixText(s) != [] && IsDigit(SuffixText(s)[0])
  {
    DigitsAreNeither(s.pid);
    DigitsAreNeither(s.count);
    DigitsAreNeither(s.nanos);
    DecimalTextValue(s.pid);
    assert IsDigit(DecimalText(s.pid)[0]);
  }

  lemma FinalListed(name: Text)
    ensures Listed(FileName(Final(name))) <==> name != []
  {
    var file := FileName(Final(name));
    assert file == name + [DOT] + JSON;
    AfterLastMark(DOT, name, JSON);
    hide AfterLast;
    if name == [] {
      assert file[1..] == JSON;
    } else {
      assert file[1..][|name| - 1] == DOT;
    }
  }

  lemma TempNotListed(name: Text, suffix: Suffix)
    ensures !Listed(FileName(Temp(name, suffix)))
  {
    SuffixShape(suffix);
    hide SuffixText, AfterLast;
    var stem := name + Ascii(".json.tmp");
    assert TMP == Ascii(".json.tmp") + [DOT];
    assert FileName(Temp(name, suffix)) == stem + [DOT] + SuffixText(suffix);
    AfterLastMark(DOT, stem, SuffixText(suffix));
    assert JSON[0] != SuffixText(suffix)[0];
  }

  /** The listing takes exactly the entries with a name: no temp file ever has the `json` extension. */
  lemma ListedExactly(p: Path)
    ensures Listed(FileName(p)) <==> p.Final? && p.name != []
  {
    hide Listed, FileName;
    match p
    case Final(name) => FinalListed(name);
    case Temp(name, suffix) => TempNotListed(name, suffix);
  }

  /** What follows the last dot, and the dot. */
  lemma {:induction false} LastDot(s: Text) returns (front: Text)
    requires DOT in s
    ensures s == front + [DOT] + AfterLast(DOT, s) && DOT !in AfterLast(DOT, s)
  {
    var last := |s| - 1;
    assert s == s[..last] + [s[last]];
    if s[last] == DOT {
      front := s[..last];
    } else {
      front := LastDot(s[..last]);
    }
  }

  /** The filter takes a name exactly when it ends in `.json` behind something. */
  lemma ListedBySuffix(file: Text)
    ensures Listed(file) <==> exists stem :: stem != [] && file == stem + Ascii(".json")
  {
    if stem :| stem != [] && file == stem + Ascii(".json") {
      assert file == FileName(Final(stem));
      FinalListed(stem);
    }
    if Listed(file) {
      var front := LastDot(file);
      assert [DOT] + JSON == Ascii(".json");
      assert file == front + ([DOT] + AfterLast(DOT, file));
      assert file == front + Ascii(".json");
    }
  }

  lemma DecimalsDiffer(a: nat, b: nat)
    requires DecimalText(a) == DecimalText(b)
    ensures a == b
  {
    DecimalTextValue(a);
    DecimalTextValue(b);
  }

  lemma SuffixInjective(a: Suffix, b: Suffix)
    requires SuffixText(a) == SuffixText(b)
    ensures a == b
  {
    hide DecimalText;
    forall s | s in {a, b}
      ensures Before(DASH, SuffixText(s)) == DecimalText(s.pid)
      ensures Before(DASH, DecimalText(s.count) + [DASH] + DecimalText(s.nanos)) == DecimalText(s.count)
    {
      DigitsAreNeither(s.pid);
      DigitsAreNeither(s.count);
      var later := DecimalText(s.count) + [DASH] + DecimalText(s.nanos);
      assert SuffixText(s) == DecimalText(s.pid) + ([DASH] + later);
      BeforeMark(DASH, DecimalText(s.pid), [DASH] + later);
      assert later == DecimalText(s.count) + ([DASH] + DecimalText(s.nanos));
      BeforeMark(DASH, DecimalText(s.count), [DASH] + DecimalText(s.nanos));
    }
    SameTail(DecimalText(a.pid), DecimalText(a.count) + [DASH] + DecimalText(a.nanos),
             DecimalText(b.pid), DecimalText(b.count) + [DASH] + DecimalText(b.nanos));
    SameTail(DecimalText(a.count), DecimalText(a.nanos), DecimalText(b.count), DecimalText(b.nanos));
    DecimalsDiffer(a.pid, b.pid);
    DecimalsDiffer(a.count, b.count);
    DecimalsDiffer(a.nanos, b.nanos);
  }

  lemma SameTail(front1: Text, back1: Text, front2: Text, back2: Text)
    requires front1 == front2 && front1 + [DASH] + back1 == front2 + [DASH] + back2
    ensures back1 == back2
  {
    assert (front1 + [DASH] + back1)[|front1| + 1..] == back1;
    assert (front2 + [DASH] + back2)[|front2| + 1..] == back2;
  }

  /** Different entries and different writes use different files. */
  lemma FileNamesInjective(p: Path, q: Path)
    requires ValidName(p.name) && ValidName(q.name) && FileName(p) == FileName(q)
    ensures p == q
  {
    hide SuffixText, AfterLast;
    ListedExactly(p);
    ListedExactly(q);
    forall r | r in {p, q} ensures Before(DOT, FileName(r)) == r.name {
      NameHasNoDot(r.name);
      var tail := if r.Final? then DOT_JSON else TMP + SuffixText(r.suffix);
      assert FileName(r) == r.name + tail && tail[0] == DOT;
      BeforeMark(DOT, r.name, tail);
    }
    if p.Temp? {
      var k := |p.name| + |TMP|;
      assert FileName(p)[k..] == SuffixText(p.suffix) && FileName(q)[k..] == SuffixText(q.suffix);
      SuffixInjective(p.suffix, q.suffix);
    }
  }
}
