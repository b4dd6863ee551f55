/** Flattening and projections of sequences, with the laws the other modules share. */
module Sequences {

  /** All the pieces, one after the other. */
  function Flatten<T>(pieces: seq<seq<T>>): seq<T> {
    if pieces == [] then [] else pieces[0] + Flatten(pieces[1..])
  }

  function Map<A, B>(f: A -> B, xs: seq<A>): (ys: seq<B>)
    ensures |ys| == |xs|
    ensures forall i :: 0 <= i < |xs| ==> ys[i] == f(xs[i])
  {
    seq(|xs|, i requires 0 <= i < |xs| => f(xs[i]))
  }

  /** What precedes the first `mark`; everything when there is none. */
  function Before<T(==)>(mark: T, s: seq<T>): (before: seq<T>)
    ensures before <= s && mark !in before
    ensures |before| < |s| ==> s[|before|] == mark
  {
    if s == [] || s[0] == mark then [] else [s[0]] + Before(mark, s[1..])
  }

  /** What follows the last `mark`; everything when there is none. */
  function AfterLast<T(==)>(mark: T, s: seq<T>): seq<T> {
    if s == [] || s[|s| - 1] == mark then [] else AfterLast(mark, s[..|s| - 1]) + [s[|s| - 1]]
  }

  lemma {:induction false} AfterLastMark<T>(mark: T, front: seq<T>, s: seq<T>)
    requires mark !in s
    ensures AfterLast(mark, front + [mark] + s) == s
  {
    var whole := front + [mark] + s;
    if s != [] {
      var last := |s| - 1;
      assert s[last] in s;
      assert whole[..|whole| - 1] == front + [mark] + s[..last];
      AfterLastMark(mark, front, s[..last]);
    }
  }

  lemma {:induction false} BeforeMark<T>(mark: T, s: seq<T>, tail: seq<T>)
    requires mark !in s && (tail == [] || tail[0] == mark)
    ensures Before(mark, s + tail) == s
  {
    if s == [] {
      assert s + tail == tail;
    } else {
      assert (s + tail)[1..] == s[1..] + tail;
      BeforeMark(mark, s[1..], tail);
    }
  }

  /** `part` occurs somewhere in `s`. */
  predicate Contains<T(==)>(s: seq<T>, part: seq<T>) {
    exists i :: 0 <= i <= |s| && part <= s[i..]
  }

  lemma {:induction false} FlattenAppend<T>(a: seq<seq<T>>, b: seq<seq<T>>)
    ensures Flatten(a + b) == Flatten(a) + Flatten(b)
  {
    if a == [] {
      assert a + b == b;
    } else {
      assert (a + b)[1..] == a[1..] + b;
      FlattenAppend(a[1..], b);
    }
  }

  lemma FlattenSnoc<T>(a: seq<seq<T>>, x: seq<T>)
    ensures Flatten(a + [x]) == Flatten(a) + x
  {
    FlattenAppend(a, [x]);
    assert Flatten([x]) == x + Flatten<T>([]);
  }

  lemma MapSnoc<A, B>(f: A -> B, xs: seq<A>, x: A)
    ensures Map(f, xs + [x]) == Map(f, xs) + [f(x)]
  {
  }
}
