/** The docker backend's line assembler: complete lines out of text fed in pieces. */
module LineAssembly {
  import opened Wrappers
  import opened Sequences
  import opened Lines

  method SplitAtLf(s: string) returns (parts: seq<string>)
    ensures parts == CutOf(s).Pieces()
  {
    var cut := Cut([], "");
    for i := 0 to |s|
      invariant cut == CutOf(s[..i])
    {
      assert s[..i + 1][..i] == s[..i];
      cut := cut.Push(s[i]);
    }
    assert s[..|s|] == s;
    return cut.Pieces();
  }

  method DropEmpty(lines: seq<string>) returns (kept: seq<string>)
    ensures kept == NonEmpty(lines)
  {
    kept := [];
    for i := 0 to |lines|
      invariant kept == NonEmpty(lines[..i])
    {
      assert lines[..i + 1] == lines[..i] + [lines[i]];
      assert [lines[i]][1..] == [];
      NonEmptyAppend(lines[..i], [lines[i]]);
      if lines[i] != "" {
        kept := kept + [lines[i]];
      }
    }
    assert lines[..|lines|] == lines;
  }

  lemma EndsWithLf(s: string)
    requires s != "" && s[|s| - 1] == '\n'
    ensures CutOf(s).fragment == ""
  {
  }

  /** The assembler's state, and what one call does to it. */
  datatype State = State(pending: string, flushedOnce: bool)

  datatype Call = Feed(text: string) | Flush

  function After(s: State, c: Call): State {
    match c
    case Feed(text) => s.(pending := CutOf(s.pending + text).fragment)
    case Flush => State(if s.flushedOnce then s.pending else "", true)
  }

  function Output(s: State, c: Call): seq<string> {
    match c
    case Feed(text) => NonEmpty(CutOf(s.pending + text).complete)
    case Flush => if s.flushedOnce || s.pending == "" then [] else [s.pending]
  }

  class LineAssembler {
    var pending: string
    var flushedOnce: bool

    /** Between calls nothing that a line feed has ended is still pending. */
    ghost predicate Valid()
      reads this
    {
      '\n' !in pending
    }

    ghost function Abstract(): State
      reads this
    {
      State(pending, flushedOnce)
    }

    constructor ()
      ensures Valid() && Abstract() == State("", false)
    {
      pending, flushedOnce := "", false;
    }

    /** Returns the non-empty lines that `text` completes and keeps what it leaves unfinished. */
    method Feed(text: string) returns (lines: seq<string>)
      requires Valid()
      modifies `pending
      ensures Valid()
      ensures lines == Output(old(Abstract()), Call.Feed(text))
      ensures Abstract() == After(old(Abstract()), Call.Feed(text))
    {
      pending := pending + text;
      CutIsFaithful(pending);
      if '\n' !in pending {
        NoLfCut(pending);
        return [];
      }
      var endsWithNewline := pending[|pending| - 1] == '\n';
      var parts := SplitAtLf(pending);
      var tail := parts[|parts| - 1];
      parts := parts[..|parts| - 1];
      if endsWithNewline {
        EndsWithLf(pending);
      }
      pending := if endsWithNewline then "" else tail;
      lines := DropEmpty(parts);
    }

    /** Hands the unfinished line back, on the first call only. */
    method Flush() returns (r: Option<string>)
      requires Valid()
      modifies this
      ensures Valid() && flushedOnce
      ensures (if r == None then [] else [r.value]) == Output(old(Abstract()), Call.Flush)
      ensures Abstract() == After(old(Abstract()), Call.Flush)
    {
      if flushedOnce {
        return None;
      }
      flushedOnce := true;
      if pending == "" {
        return None;
      }
      r := Some(pending);
      pending := "";
    }
  }

  // ---- whole call sequences ------------------------------------------------------------

  function StateAfter(s: State, calls: seq<Call>): State
    decreases |calls|
  {
    if calls == [] then s else StateAfter(After(s, calls[0]), calls[1..])
  }

  function Delivered(s: State, calls: seq<Call>): seq<string>
    decreases |calls|
  {
    if calls == [] then [] else Output(s, calls[0]) + Delivered(After(s, calls[0]), calls[1..])
  }

  function Feeds(pieces: seq<string>): seq<Call> {
    Map((piece: string) => Feed(piece), pieces)
  }

  lemma FeedsFirst(pieces: seq<string>)
    requires pieces != []
    ensures Feeds(pieces) == [Feed(pieces[0])] + Feeds(pieces[1..])
  {
  }

  lemma FeedTwice(s: State, first: string, rest: string)
    requires '\n' !in s.pending
    ensures var mid := After(s, Feed(first));
            && '\n' !in mid.pending
            && After(mid, Feed(rest)) == After(s, Feed(first + rest))
            && Output(s, Feed(first)) + Output(mid, Feed(rest)) == Output(s, Feed(first + rest))
  {
    hide CutOf, NonEmpty;
    var text := s.pending + first;
    CutIsFaithful(text);
    CutFromFragment(text, rest);
    assert s.pending + (first + rest) == text + rest;
    NonEmptyAppend(CutOf(text).complete, CutOf(CutOf(text).fragment + rest).complete);
  }

  /** However a text is cut into feeds, they do what feeding it whole does. */
  lemma {:induction false} FeedsAreOneFeed(s: State, pieces: seq<string>)
    requires '\n' !in s.pending
    ensures StateAfter(s, Feeds(pieces)) == After(s, Feed(Flatten(pieces)))
    ensures Delivered(s, Feeds(pieces)) == Output(s, Feed(Flatten(pieces)))
    decreases |pieces|
  {
    if pieces == [] {
      assert s.pending + Flatten(pieces) == s.pending;
      NoLfCut(s.pending);
    } else {
      hide After, Output, Map;
      FeedsFirst(pieces);
      FeedTwice(s, pieces[0], Flatten(pieces[1..]));
      FeedsAreOneFeed(After(s, Feed(pieces[0])), pieces[1..]);
    }
  }

  lemma {:induction false} DeliveredAppend(s: State, a: seq<Call>, b: seq<Call>)
    ensures Delivered(s, a + b) == Delivered(s, a) + Delivered(StateAfter(s, a), b)
    decreases |a|
  {
    if a == [] {
      assert a + b == b;
    } else {
      hide Output, After;
      assert (a + b)[1..] == a[1..] + b;
      DeliveredAppend(After(s, a[0]), a[1..], b);
    }
  }

  /** The feeds and one flush deliver exactly the non-empty lines of the text, each once, in order. */
  lemma FeedsThenFlush(pieces: seq<string>)
    ensures Delivered(State("", false), Feeds(pieces) + [Flush]) == NonEmptyLines(Flatten(pieces))
  {
    hide CutOf, NonEmpty;
    var start := State("", false);
    FeedsAreOneFeed(start, pieces);
    DeliveredAppend(start, Feeds(pieces), [Flush]);
    assert "" + Flatten(pieces) == Flatten(pieces);
    assert [Flush][1..] == [];
    NonEmptyLinesOf(Flatten(pieces));
  }

  lemma FlushEmpties(s: State)
    requires !s.flushedOnce
    ensures After(s, Flush) == State("", true)
  {
  }

  lemma FedAfterFlush(text: string)
    ensures Output(State("", true), Feed(text)) == NonEmpty(CutOf(text).complete)
  {
    assert "" + text == text;
  }

  /** What a flush has returned is not delivered again: later feeds start a new text. */
  lemma FeedsBehindAFlush(pieces: seq<string>, more: seq<string>)
    ensures Delivered(State("", false), Feeds(pieces) + [Flush] + Feeds(more))
         == NonEmptyLines(Flatten(pieces)) + NonEmpty(CutOf(Flatten(more)).complete)
  {
    hide CutOf, NonEmpty, Output, After, NonEmptyLines;
    var start := State("", false);
    FeedsThenFlush(pieces);
    FeedsAreOneFeed(start, pieces);
    DeliveredAppend(start, Feeds(pieces) + [Flush], Feeds(more));
    StateAfterSnoc(start, Feeds(pieces), Flush);
    FeedKeepsFlag(start, Flatten(pieces));
    FlushEmpties(StateAfter(start, Feeds(pieces)));
    FeedsAreOneFeed(State("", true), more);
    FedAfterFlush(Flatten(more));
  }

  lemma FeedKeepsFlag(s: State, text: string)
    ensures After(s, Feed(text)).flushedOnce == s.flushedOnce
  {
  }

  lemma {:induction false} StateAfterSnoc(s: State, calls: seq<Call>, call: Call)
    ensures StateAfter(s, calls + [call]) == After(StateAfter(s, calls), call)
    decreases |calls|
  {
    hide After;
    if calls == [] {
      assert [] + [call] == [call] && [call][1..] == [];
    } else {
      assert (calls + [call])[1..] == calls[1..] + [call];
      StateAfterSnoc(After(s, calls[0]), calls[1..], call);
    }
  }

  /** How many calls of a run are flushes that return something. */
  function Flushed(s: State, calls: seq<Call>): nat
    decreases |calls|
  {
    if calls == [] then 0
    else (if calls[0].Flush? then |Output(s, calls[0])| else 0) + Flushed(After(s, calls[0]), calls[1..])
  }

  /** Over any calls whatever, flushing returns something at most once. */
  lemma {:induction false} FlushesAtMostOnce(s: State, calls: seq<Call>)
    ensures Flushed(s, calls) <= if s.flushedOnce then 0 else 1
    decreases |calls|
  {
    if calls != [] {
      FlushesAtMostOnce(After(s, calls[0]), calls[1..]);
    }
  }
}
