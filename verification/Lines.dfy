/** Cutting text at line feeds, and the laws of doing it piecewise. */
module Lines {
  import opened Sequences

  /** A text cut at its line feeds: the pieces one ends, and what follows the last of them. */
  datatype Cut = Cut(complete: seq<string>, fragment: string) {
    function Push(c: char): Cut {
      if c == '\n' then Cut(complete + [fragment], "") else Cut(complete, fragment + [c])
    }

    /** This cut with the pieces of later text behind it: the fragment runs on into the first of them. */
    function Then(later: Cut): Cut {
      if later.complete == [] then Cut(complete, fragment + later.fragment)
      else Cut(complete + [fragment + later.complete[0]] + later.complete[1..], later.fragment)
    }

    /** `str::split('\n')`: one piece more than there are line feeds. */
    function Pieces(): seq<string> {
      complete + [fragment]
    }

    /** The complete lines and, if it is not empty, the fragment. */
    function Lines(): seq<string> {
      if fragment == "" then complete else Pieces()
    }
  }

  function CutOf(s: string): Cut {
    if s == "" then Cut([], "") else CutOf(s[..|s| - 1]).Push(s[|s| - 1])
  }

  function LinesOf(s: string): seq<string> {
    CutOf(s).Lines()
  }

  function NonEmpty(lines: seq<string>): seq<string> {
    if lines == [] then [] else (if lines[0] == "" then [] else [lines[0]]) + NonEmpty(lines[1..])
  }

  function NonEmptyLines(s: string): seq<string> {
    NonEmpty(CutOf(s).Pieces())
  }

  /** The lines, each with its line feed. */
  function Terminated(lines: seq<string>): string {
    Flatten(Map((line: string) => line + "\n", lines))
  }

  // ---- what a cut is -------------------------------------------------------------------

  /** Cutting loses nothing, and no piece holds a line feed. */
  lemma {:induction false} CutIsFaithful(s: string)
    ensures Terminated(CutOf(s).complete) + CutOf(s).fragment == s
    ensures '\n' !in CutOf(s).fragment
    ensures forall i :: 0 <= i < |CutOf(s).complete| ==> '\n' !in CutOf(s).complete[i]
  {
    hide Flatten, Terminated;
    if s == "" {
      assert Terminated([]) == "" by { TerminatedNone(); }
    } else {
      var before := s[..|s| - 1];
      var cut := CutOf(before);
      CutIsFaithful(before);
      TerminatedSnoc(cut.complete, cut.fragment);
      assert s == before + [s[|s| - 1]];
    }
  }

  lemma TerminatedNone()
    ensures Terminated([]) == ""
  {
  }

  lemma TerminatedSnoc(lines: seq<string>, line: string)
    ensures Terminated(lines + [line]) == Terminated(lines) + line + "\n"
  {
    var f := (line: string) => line + "\n";
    MapSnoc(f, lines, line);
    FlattenSnoc(Map(f, lines), line + "\n");
  }

  lemma TerminatedAppend(a: seq<string>, b: seq<string>)
    ensures Terminated(a + b) == Terminated(a) + Terminated(b)
  {
    var f := (line: string) => line + "\n";
    assert Map(f, a + b) == Map(f, a) + Map(f, b);
    FlattenAppend(Map(f, a), Map(f, b));
  }

  lemma {:induction false} NoLfCut(s: string)
    requires '\n' !in s
    ensures CutOf(s) == Cut([], s)
  {
    if s != "" {
      var before, c := s[..|s| - 1], s[|s| - 1];
      assert s == before + [c] && c in s;
      NoLfCut(before);
      assert Cut([], before).Push(c) == Cut([], s);
    }
  }

  /** Only the text with these pieces is cut into them: cutting is the inverse of terminating. */
  lemma {:induction false} CutTerminated(lines: seq<string>, fragment: string)
    requires '\n' !in fragment && forall i :: 0 <= i < |lines| ==> '\n' !in lines[i]
    ensures CutOf(Terminated(lines) + fragment) == Cut(lines, fragment)
  {
    NoLfCut(fragment);
    if lines == [] {
      assert Terminated([]) + fragment == fragment;
    } else {
      var init, line := lines[..|lines| - 1], lines[|lines| - 1];
      assert lines == init + [line];
      TerminatedSnoc(init, line);
      CutTerminated(init, line);
      var ended := Terminated(init) + line + "\n";
      assert ended[..|ended| - 1] == Terminated(init) + line;
      assert CutOf(ended) == Cut(init, line).Push('\n');
      CutAppend(ended, fragment);
      assert Cut(lines, "").Then(Cut([], fragment)) == Cut(lines, fragment);
    }
  }

  // ---- cutting piecewise ---------------------------------------------------------------

  lemma ThenPush(a: Cut, b: Cut, c: char)
    ensures a.Then(b).Push(c) == a.Then(b.Push(c))
  {
  }

  lemma {:induction false} CutAppend(a: string, b: string)
    ensures CutOf(a + b) == CutOf(a).Then(CutOf(b))
  {
    if b == "" {
      assert a + b == a;
    } else {
      assert (a + b)[..|a + b| - 1] == a + b[..|b| - 1];
      CutAppend(a, b[..|b| - 1]);
      ThenPush(CutOf(a), CutOf(b[..|b| - 1]), b[|b| - 1]);
    }
  }

  lemma ThenFromFragment(a: Cut, b: Cut)
    ensures var later := Cut([], a.fragment).Then(b);
            a.Then(b) == Cut(a.complete + later.complete, later.fragment)
  {
  }

  /** Once its complete lines are taken, only the fragment of a text matters to what comes. */
  lemma CutFromFragment(a: string, b: string)
    ensures var later := CutOf(CutOf(a).fragment + b);
            CutOf(a + b) == Cut(CutOf(a).complete + later.complete, later.fragment)
  {
    hide CutOf, Terminated;
    CutIsFaithful(a);
    NoLfCut(CutOf(a).fragment);
    CutAppend(a, b);
    CutAppend(CutOf(a).fragment, b);
    ThenFromFragment(CutOf(a), CutOf(b));
  }

  lemma {:induction false} NonEmptyAppend(a: seq<string>, b: seq<string>)
    ensures NonEmpty(a + b) == NonEmpty(a) + NonEmpty(b)
  {
    if a == [] {
      assert a + b == b;
    } else {
      assert (a + b)[1..] == a[1..] + b;
      NonEmptyAppend(a[1..], b);
    }
  }

  lemma NonEmptyLinesOf(s: string)
    ensures NonEmptyLines(s)
         == NonEmpty(CutOf(s).complete) + if CutOf(s).fragment == "" then [] else [CutOf(s).fragment]
  {
    NonEmptyAppend(CutOf(s).complete, [CutOf(s).fragment]);
    assert [CutOf(s).fragment][1..] == [];
  }
}
