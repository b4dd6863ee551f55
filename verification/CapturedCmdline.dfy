/** The captured command line of a guest process, as the kernel prints it: each argument ended by a NUL. */
module CapturedCmdline {
  import opened Wrappers
  import opened Sequences
  import opened Wire

  type Text = seq<Byte>

  const NUL: Byte := 0

  /** `str::split` at NULs. */
  function SplitNul(s: Text): (parts: seq<Text>)
    ensures parts != []
    decreases |s|
  {
    var first := Before(NUL, s);
    if |first| == |s| then [s] else [first] + SplitNul(s[|first| + 1..])
  }

  function StripLf(s: Text): Text {
    if s != [] && s[|s| - 1] == LF then s[..|s| - 1] else s
  }

  /** The arguments a capture stands for: one trailing line feed and one trailing empty part do not count. */
  function Captured(stdout: Text): Option<seq<Text>> {
    var parts := SplitNul(StripLf(stdout));
    var argv := if parts[|parts| - 1] == [] then parts[..|parts| - 1] else parts;
    if argv == [] then None else Some(argv)
  }

  // ---- the round trip ------------------------------------------------------------------

  ghost predicate NulFree(argv: seq<Text>) {
    forall i :: 0 <= i < |argv| ==> 0 !in argv[i]
  }

  /** `/proc/<pid>/cmdline` */
  function Cmdline(argv: seq<Text>): Text {
    Flatten(Map((arg: Text) => arg + [0], argv))
  }

  lemma CmdlineFirst(argv: seq<Text>)
    requires argv != []
    ensures Cmdline(argv) == argv[0] + [NUL] + Cmdline(argv[1..])
  {
    assert Map((arg: Text) => arg + [NUL], argv)[1..] == Map((arg: Text) => arg + [NUL], argv[1..]);
  }

  lemma {:induction false} SplitCmdline(argv: seq<Text>)
    requires NulFree(argv)
    ensures SplitNul(Cmdline(argv)) == argv + [[]]
  {
    hide Cmdline;
    if argv == [] {
      EmptyCmdline();
    } else {
      var later := [NUL] + Cmdline(argv[1..]);
      CmdlineFirst(argv);
      assert Cmdline(argv) == argv[0] + later;
      BeforeMark(NUL, argv[0], later);
      assert Cmdline(argv)[|argv[0]| + 1..] == Cmdline(argv[1..]);
      SplitCmdline(argv[1..]);
      assert [argv[0]] + (argv[1..] + [[]]) == argv + [[]];
    }
  }

  lemma EmptyCmdline()
    ensures Cmdline([]) == [] && SplitNul([]) == [[]]
  {
  }

  lemma {:induction false} CmdlineEndsInNul(argv: seq<Text>)
    requires argv != []
    ensures Cmdline(argv) != [] && Cmdline(argv)[|Cmdline(argv)| - 1] == NUL
  {
    hide Cmdline;
    CmdlineFirst(argv);
    if |argv| == 1 {
      assert argv[1..] == [];
      EmptyCmdline();
    } else {
      CmdlineEndsInNul(argv[1..]);
    }
  }

  /** Every non-empty argument list, empty arguments included, is read back, with or without the line feed. */
  lemma CaptureRoundTrip(argv: seq<Text>, lineFeed: bool)
    requires NulFree(argv)
    ensures Captured(Cmdline(argv) + if lineFeed then [LF] else []) == if argv == [] then None else Some(argv)
  {
    hide Cmdline, SplitNul;
    var text := Cmdline(argv);
    SplitCmdline(argv);
    if lineFeed {
      assert (text + [LF])[..|text|] == text;
    } else {
      assert text + [] == text;
      if argv == [] {
        EmptyCmdline();
      } else {
        CmdlineEndsInNul(argv);
      }
    }
    assert (argv + [[]])[..|argv|] == argv;
  }

  /** Nothing was captured only when the output is empty or a single line feed; a lone NUL is one empty argument. */
  lemma NothingExactly(stdout: Text)
    ensures Captured(stdout) == None <==> stdout == [] || stdout == [LF]
    ensures Captured([NUL]) == Some([[]])
  {
    EmptyCmdline();
    var s := StripLf(stdout);
    var first := Before(NUL, s);
    assert |first| < |s| ==> |SplitNul(s)| >= 2;
    var one: seq<Text> := [[]];
    CaptureRoundTrip(one, false);
    CmdlineFirst(one);
    assert one[1..] == [] && Cmdline(one) + [] == [NUL];
  }

  // ---- what a capture means ------------------------------------------------------------

  /**
   `stdout` is a capture of exactly these arguments: each ended by a NUL, or all but a non-empty
   last one, and perhaps a line feed behind them.
  */
  ghost predicate CaptureOf(stdout: Text, argv: seq<Text>) {
    && argv != [] && NulFree(argv)
    && (Cmdline(argv) == StripLf(stdout)
        || (argv[|argv| - 1] != [] && Cmdline(argv) == StripLf(stdout) + [NUL]))
  }

  lemma CmdlineSnoc(argv: seq<Text>, arg: Text)
    ensures Cmdline(argv + [arg]) == Cmdline(argv) + arg + [NUL]
  {
    var f := (a: Text) => a + [NUL];
    MapSnoc(f, argv, arg);
    FlattenSnoc(Map(f, argv), arg + [NUL]);
  }

  lemma {:induction false} SplitIsFaithful(s: Text)
    ensures NulFree(SplitNul(s)) && Cmdline(SplitNul(s)) == s + [NUL]
    decreases |s|
  {
    hide Cmdline;
    var first := Before(NUL, s);
    EmptyCmdline();
    if |first| == |s| {
      CmdlineFirst([s]);
      assert [s][1..] == [] && s + [NUL] + [] == s + [NUL];
    } else {
      var rest := s[|first| + 1..];
      SplitIsFaithful(rest);
      CmdlineFirst([first] + SplitNul(rest));
      assert ([first] + SplitNul(rest))[1..] == SplitNul(rest);
      assert s == first + [NUL] + rest;
      assert first + [NUL] + (rest + [NUL]) == s + [NUL];
    }
  }

  /** Only one argument list has a given command line. */
  lemma CmdlineInjective(a: seq<Text>, b: seq<Text>)
    requires NulFree(a) && NulFree(b) && Cmdline(a) == Cmdline(b)
    ensures a == b
  {
    hide Cmdline, SplitNul;
    SplitCmdline(a);
    SplitCmdline(b);
    assert (a + [[]])[..|a|] == a && (b + [[]])[..|b|] == b && |a + [[]]| == |b + [[]]|;
  }

  lemma CapturedMeans(stdout: Text)
    ensures Captured(stdout).Some? ==> CaptureOf(stdout, Captured(stdout).value)
  {
    hide Cmdline, SplitNul;
    var s := StripLf(stdout);
    var parts := SplitNul(s);
    SplitIsFaithful(s);
    if parts[|parts| - 1] == [] {
      var argv := parts[..|parts| - 1];
      CmdlineSnoc(argv, []);
      assert argv + [[]] == parts && Cmdline(argv) + [] + [NUL] == Cmdline(argv) + [NUL];
      assert (Cmdline(argv) + [NUL])[..|Cmdline(argv)|] == (s + [NUL])[..|s|];
    }
  }

  /** And nothing else is returned for a capture of some arguments than those. */
  lemma CaptureOfIsCaptured(stdout: Text, argv: seq<Text>)
    requires CaptureOf(stdout, argv)
    ensures Captured(stdout) == Some(argv)
  {
    hide Cmdline, SplitNul;
    var s := StripLf(stdout);
    SplitIsFaithful(s);
    if Cmdline(argv) == s {
      SplitCmdline(argv);
      assert (argv + [[]])[..|argv|] == argv;
    } else {
      CmdlineInjective(argv, SplitNul(s));
    }
  }

  /**
   Returns the arguments that the output is a capture of, and nothing exactly when the output is
   empty or a single line feed.
  */
  method ParseCapturedCmdline(stdout: Text) returns (r: Option<seq<Text>>)
    ensures r == Captured(stdout)
    ensures r.Some? ==> CaptureOf(stdout, r.value)
    ensures forall argv :: CaptureOf(stdout, argv) ==> r == Some(argv)
    ensures r == None <==> stdout == [] || stdout == [LF]
  {
    hide SplitNul, CaptureOf;
    CapturedMeans(stdout);
    NothingExactly(stdout);
    forall argv | CaptureOf(stdout, argv) ensures Captured(stdout) == Some(argv) {
      CaptureOfIsCaptured(stdout, argv);
    }
    var argv := SplitNul(StripLf(stdout));
    if |argv| > 0 && argv[|argv| - 1] == [] {
      argv := argv[..|argv| - 1];
    }
    return if argv == [] then None else Some(argv);
  }
}
