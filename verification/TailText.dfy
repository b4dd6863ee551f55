/** How the microsandbox backend cuts log text: live, off the follow pipe, and from a one-shot fetch. */
module TailText {
  import opened Sequences
  import opened Lines

  /** The window of `msb logs --tail`. */
  const TAIL_LINES: nat := 1000

  function LastLines(lines: seq<string>): seq<string> {
    if |lines| <= TAIL_LINES then lines else lines[|lines| - TAIL_LINES..]
  }

  /** The index, in the whole log, of the first line a tail fetch returns. */
  function TailStart(lines: nat): nat {
    if lines <= TAIL_LINES then 0 else lines - TAIL_LINES
  }

  function Skip<T>(s: seq<T>, n: nat): seq<T> {
    if n <= |s| then s[n..] else []
  }

  /** The lines of a fetched text that come after the first `delivered` of them. */
  function ReplayLines(full: string, delivered: nat): (r: seq<string>)
    ensures r == Skip(LinesOf(full), delivered)
  {
    var all :=
      if full != "" && full[|full| - 1] == '\n' then CutOf(full[..|full| - 1]).Pieces()
      else if full == "" then []
      else
        (NoLfAtEnd(full); CutOf(full).Pieces());
    Skip(all, delivered)
  }

  lemma NoLfAtEnd(s: string)
    requires s != "" && s[|s| - 1] != '\n'
    ensures CutOf(s).fragment != ""
  {
  }

  /** A text the tail fetch may return for a log: its last lines, however the last one is terminated. */
  ghost predicate IsTail(full: string, log: string) {
    LinesOf(full) == LastLines(LinesOf(log))
  }

  /** The window is the last 1000 lines, or all of them. */
  lemma WindowOf1000(lines: seq<string>)
    ensures LastLines(lines) == lines[TailStart(|lines|)..]
    ensures |LastLines(lines)| == if |lines| < 1000 then |lines| else 1000
  {
  }

  lemma TailExists(log: string)
    ensures IsTail(Terminated(LastLines(LinesOf(log))), log)
  {
    var lines := LastLines(LinesOf(log));
    CutIsFaithful(log);
    CutTerminated(lines, "");
    assert Terminated(lines) + "" == Terminated(lines);
  }

  /** Replay picks up at an absolute line index: `delivered` lines into the window. */
  lemma ReplayIsSuffix(full: string, log: string, delivered: nat)
    requires IsTail(full, log)
    ensures ReplayLines(full, delivered) == Skip(LinesOf(log), TailStart(|LinesOf(log)|) + delivered)
  {
  }

  // ---- a text cut off and its continuation ---------------------------------------------

  /** The cut falls inside a line: text on both sides of it belongs to the same one. */
  predicate CutsLine(a: string, b: string) {
    a != "" && a[|a| - 1] != '\n' && b != "" && b[0] != '\n'
  }

  lemma FirstPiece(b: string)
    ensures CutOf(b).Pieces()[0] == "" <==> b == "" || b[0] == '\n'
  {
  }

  lemma FragmentEmpty(a: string)
    ensures CutOf(a).fragment == "" <==> a == "" || a[|a| - 1] == '\n'
  {
  }

  lemma CutLines(a: Cut, b: Cut)
    ensures |a.Lines()| <= |a.Then(b).Lines()|
    ensures a.Then(b).Lines()[..|a.Lines()|] == a.Lines() <==> a.fragment == "" || b.Pieces()[0] == ""
  {
    var all := a.Then(b).Lines();
    if a.fragment == "" {
      assert all[..|a.complete|] == a.complete;
    } else {
      assert all[..|a.complete|] == a.complete;
      assert all[|a.complete|] == a.fragment + b.Pieces()[0];
      assert a.Lines()[|a.complete|] == a.fragment;
      assert |a.fragment + b.Pieces()[0]| == |a.fragment| + |b.Pieces()[0]|;
      assert b.Pieces()[0] == "" ==> a.fragment + b.Pieces()[0] == a.fragment;
      assert all[..|a.Lines()|][|a.complete|] == a.fragment + b.Pieces()[0];
      assert all[..|a.complete| + 1] == a.complete + [a.fragment + b.Pieces()[0]];
    }
  }

  /** The lines of a text cut off are the first lines of the whole exactly when no line is cut. */
  lemma LinesOfCutOff(a: string, b: string)
    ensures |LinesOf(a)| <= |LinesOf(a + b)|
    ensures LinesOf(a + b)[..|LinesOf(a)|] == LinesOf(a) <==> !CutsLine(a, b)
  {
    hide CutOf;
    CutAppend(a, b);
    CutLines(CutOf(a), CutOf(b));
    FragmentEmpty(a);
    FirstPiece(b);
  }

  /** Every line of a text cut off, except the last one, is already what it will be. */
  lemma AllButLastStay(a: string, b: string)
    ensures |LinesOf(a)| <= |LinesOf(a + b)|
    ensures forall i :: 0 <= i < |LinesOf(a)| - 1 ==> LinesOf(a)[i] == LinesOf(a + b)[i]
  {
    hide CutOf;
    CutAppend(a, b);
    CutLines(CutOf(a), CutOf(b));
    var all := CutOf(a).Then(CutOf(b)).Lines();
    assert all[..|CutOf(a).complete|] == CutOf(a).complete;
  }

  /** A text that grows only appends to its last line and adds lines behind it. */
  lemma LinesOnlyGrow(a: string, b: string)
    ensures |LinesOf(a)| <= |LinesOf(a + b)|
    ensures forall i :: 0 <= i < |LinesOf(a)| ==> LinesOf(a)[i] <= LinesOf(a + b)[i]
  {
    hide CutOf;
    CutAppend(a, b);
    CutLines(CutOf(a), CutOf(b));
    var cut, all := CutOf(a), CutOf(a).Then(CutOf(b)).Lines();
    assert all[..|cut.complete|] == cut.complete;
    assert cut.fragment != "" ==> all[|cut.complete|] == cut.fragment + CutOf(b).Pieces()[0];
  }

  // ---- the pipe reader -----------------------------------------------------------------

  lemma CutEnded(line: string)
    requires '\n' !in line
    ensures CutOf(line + "\n") == Cut([line], "")
  {
    NoLfCut(line);
    assert (line + "\n")[..|line|] == line;
  }

  lemma CutLine(line: string, rest: string)
    requires '\n' !in line
    ensures CutOf(line + "\n" + rest) == Cut([line] + CutOf(rest).complete, CutOf(rest).fragment)
  {
    hide CutOf;
    CutEnded(line);
    CutAppend(line + "\n", rest);
    var later := CutOf(rest);
    if later.complete == [] {
      assert "" + later.fragment == later.fragment;
    } else {
      assert "" + later.complete[0] == later.complete[0];
      assert later.complete == [later.complete[0]] + later.complete[1..];
      assert [line] + [later.complete[0]] + later.complete[1..] == [line] + later.complete;
    }
  }

  function FirstLf(s: string): (p: nat)
    requires '\n' in s
    ensures p < |s| && s[p] == '\n' && '\n' !in s[..p]
  {
    if s[0] == '\n' then 0 else 1 + FirstLf(s[1..])
  }

  /** Takes every complete line off the front of a buffer. */
  method TakeLines(buf: string) returns (lines: seq<string>, rest: string)
    ensures CutOf(buf) == Cut(lines, rest)
    ensures '\n' !in rest
  {
    hide CutOf;
    lines, rest := [], buf;
    while '\n' in rest
      invariant CutOf(buf) == Cut(lines + CutOf(rest).complete, CutOf(rest).fragment)
      decreases |rest|
    {
      var pos := FirstLf(rest);
      CutLine(rest[..pos], rest[pos + 1..]);
      assert rest == rest[..pos] + "\n" + rest[pos + 1..];
      lines := lines + [rest[..pos]];
      rest := rest[pos + 1..];
    }
    NoLfCut(rest);
  }

  /**
   Reads to the end of the pipe, in whatever pieces it arrives: the lines delivered are those
   that a replay of the same text would deliver, an unterminated last one included.
  */
  method DrainLines(arrivals: seq<string>) returns (lines: seq<string>)
    ensures lines == ReplayLines(Flatten(arrivals), 0)
  {
    hide CutOf;
    var buf := "";
    lines := [];
    ghost var text := "";
    NoLfCut("");
    for i := 0 to |arrivals|
      invariant text == Flatten(arrivals[..i])
      invariant CutOf(text) == Cut(lines, buf)
    {
      assert arrivals[..i + 1] == arrivals[..i] + [arrivals[i]];
      FlattenSnoc(arrivals[..i], arrivals[i]);
      CutFromFragment(text, arrivals[i]);
      text := text + arrivals[i];
      var taken;
      taken, buf := TakeLines(buf + arrivals[i]);
      lines := lines + taken;
    }
    assert arrivals[..|arrivals|] == arrivals;
    if buf != "" {
      lines := lines + [buf];
    }
  }
}
