/** The 12-digit nonce of a checkpoint reference, and exactly when two of them are equal. */
module Nonce {

  const MULTIPLIER: nat := 0x9E37_79B9_7F4A_7C15
  const TWO_48: nat := 0x1_0000_0000_0000
  const TWO_64: nat := 0x1_0000_0000_0000_0000
  const TWO_128: nat := 0x1_0000_0000_0000_0000_0000_0000_0000_0000

  /** The multiplier's inverse modulo 2^48; there is one because the multiplier is odd. */
  const INVERSE: nat := 0x83E1_9937_733D

  /** `u128` mixing, wrapping, cut to its low 48 bits. */
  function Low48(nanos: nat, pid: nat, count: nat): (n: nat)
    ensures n < TWO_48
  {
    (((nanos * MULTIPLIER) % TWO_128 + pid) % TWO_128 + count) % TWO_128 % TWO_48
  }

  function HexDigit(d: nat): char
    requires d < 16
  {
    "0123456789abcdef"[d]
  }

  /** `{:0width$x}` of a number that fits. */
  function PaddedHex(n: nat, width: nat): (s: string)
    ensures |s| == width
  {
    if width == 0 then "" else PaddedHex(n / 16, width - 1) + [HexDigit(n % 16)]
  }

  function Text(nanos: nat, pid: nat, count: nat): (s: string)
    ensures |s| == 12
  {
    PaddedHex(Low48(nanos, pid, count), 12)
  }

  // ---- printing is injective -----------------------------------------------------------

  lemma DigitsDiffer(a: nat, b: nat)
    requires a < 16 && b < 16 && HexDigit(a) == HexDigit(b)
    ensures a == b
  {
  }

  function Power16(k: nat): nat {
    if k == 0 then 1 else 16 * Power16(k - 1)
  }

  lemma {:induction false} PaddedHexInjective(a: nat, b: nat, width: nat)
    requires a < Power16(width) && b < Power16(width) && PaddedHex(a, width) == PaddedHex(b, width)
    ensures a == b
  {
    if width > 0 {
      var s, t := PaddedHex(a, width), PaddedHex(b, width);
      assert s[..width - 1] == PaddedHex(a / 16, width - 1) && t[..width - 1] == PaddedHex(b / 16, width - 1);
      assert s[width - 1] == HexDigit(a % 16) && t[width - 1] == HexDigit(b % 16);
      DigitsDiffer(a % 16, b % 16);
      PaddedHexInjective(a / 16, b / 16, width - 1);
    }
  }

  predicate LowerHex(c: char) {
    '0' <= c <= '9' || 'a' <= c <= 'f'
  }

  function DigitValue(c: char): nat
    requires LowerHex(c)
  {
    if c <= '9' then c as nat - '0' as nat else c as nat - 'a' as nat + 10
  }

  /** The number some hex digits spell, the most significant first. */
  function HexNumber(s: string): nat
    requires forall i :: 0 <= i < |s| ==> LowerHex(s[i])
  {
    if s == "" then 0 else 16 * HexNumber(s[..|s| - 1]) + DigitValue(s[|s| - 1])
  }

  lemma DigitReads(d: nat)
    requires d < 16
    ensures LowerHex(HexDigit(d)) && DigitValue(HexDigit(d)) == d
  {
  }

  /** What is printed are lower-case hex digits, and they spell the number. */
  lemma {:induction false} PaddedHexReads(n: nat, width: nat)
    requires n < Power16(width)
    ensures forall i :: 0 <= i < width ==> LowerHex(PaddedHex(n, width)[i])
    ensures HexNumber(PaddedHex(n, width)) == n
  {
    if width > 0 {
      hide HexDigit, LowerHex, DigitValue;
      var s := PaddedHex(n, width);
      PaddedHexReads(n / 16, width - 1);
      DigitReads(n % 16);
      assert s[..width - 1] == PaddedHex(n / 16, width - 1);
    }
  }

  lemma TextsEqual(nanos1: nat, pid1: nat, seq1: nat, nanos2: nat, pid2: nat, seq2: nat)
    ensures Text(nanos1, pid1, seq1) == Text(nanos2, pid2, seq2)
       <==> Low48(nanos1, pid1, seq1) == Low48(nanos2, pid2, seq2)
  {
    assert Power16(12) == TWO_48;
    if Text(nanos1, pid1, seq1) == Text(nanos2, pid2, seq2) {
      PaddedHexInjective(Low48(nanos1, pid1, seq1), Low48(nanos2, pid2, seq2), 12);
    }
  }

  // ---- arithmetic modulo 2^48 ----------------------------------------------------------

  lemma Low48Is(nanos: nat, pid: nat, count: nat)
    ensures Low48(nanos, pid, count) == (nanos * 0x9E37_79B9_7F4A_7C15 + pid + count) % 0x1_0000_0000_0000
  {
  }

  predicate Congruent(a: int, b: int) {
    (a - b) % TWO_48 == 0
  }

  lemma SameResidue(a: int, b: int)
    ensures a % TWO_48 == b % TWO_48 <==> Congruent(a, b)
  {
  }

  /** Multiplying by the odd multiplier is undone by its inverse. */
  lemma Invertible(x: int, y: int)
    ensures Congruent(x * MULTIPLIER, y) <==> Congruent(x, y * INVERSE)
  {
    var k := (MULTIPLIER * INVERSE - 1) / TWO_48;
    assert MULTIPLIER * INVERSE == 1 + TWO_48 * k;
    if Congruent(x * MULTIPLIER, y) {
      var q := (x * MULTIPLIER - y) / TWO_48;
      assert x - y * INVERSE == TWO_48 * (q * INVERSE - k * x);
    }
    if Congruent(x, y * INVERSE) {
      var q := (x - y * INVERSE) / TWO_48;
      assert x * MULTIPLIER - y == TWO_48 * (q * MULTIPLIER + k * y);
    }
  }

  // ---- when nonces collide -------------------------------------------------------------

  /**
   Two nonces are equal exactly when the times differ, modulo 2^48, by the inverse multiplier
   times the opposite difference of pid plus counter.
  */
  lemma CollideExactly(nanos1: nat, pid1: nat, seq1: nat, nanos2: nat, pid2: nat, seq2: nat)
    ensures Text(nanos1, pid1, seq1) == Text(nanos2, pid2, seq2)
       <==> Congruent(nanos1 - nanos2, ((pid2 + seq2) - (pid1 + seq1)) * INVERSE)
  {
    hide Text, Low48;
    TextsEqual(nanos1, pid1, seq1, nanos2, pid2, seq2);
    Low48Is(nanos1, pid1, seq1);
    Low48Is(nanos2, pid2, seq2);
    SameResidue(nanos1 * MULTIPLIER + pid1 + seq1, nanos2 * MULTIPLIER + pid2 + seq2);
    assert (nanos1 * MULTIPLIER + pid1 + seq1) - (nanos2 * MULTIPLIER + pid2 + seq2)
        == (nanos1 - nanos2) * MULTIPLIER - ((pid2 + seq2) - (pid1 + seq1));
    Invertible(nanos1 - nanos2, (pid2 + seq2) - (pid1 + seq1));
  }

  /** In one process at one instant, only counters that differ by a multiple of 2^48 collide. */
  lemma SameInstant(nanos: nat, pid: nat, seq1: nat, seq2: nat)
    ensures Text(nanos, pid, seq1) == Text(nanos, pid, seq2) <==> Congruent(seq1, seq2)
  {
    hide Text;
    CollideExactly(nanos, pid, seq1, nanos, pid, seq2);
    Invertible(0, seq2 - seq1);
  }

  /** With the same pid and counter, only times that differ by a multiple of 2^48 collide. */
  lemma SameCounter(pid: nat, count: nat, nanos1: nat, nanos2: nat)
    ensures Text(nanos1, pid, count) == Text(nanos2, pid, count) <==> Congruent(nanos1, nanos2)
  {
    hide Text;
    CollideExactly(nanos1, pid, count, nanos2, pid, count);
  }

  /** Two successive calls of one process do collide when they are this long apart, and never any sooner. */
  lemma NextCallCollides(nanos: nat, pid: nat, count: nat, later: nat)
    requires later < TWO_48
    ensures Text(nanos, pid, count) == Text(nanos + later, pid, count + 1) <==> later == TWO_48 - INVERSE
  {
    hide Text;
    CollideExactly(nanos, pid, count, nanos + later, pid, count + 1);
    var difference: int := nanos - (nanos + later);
    assert difference - INVERSE == -(later + INVERSE);
  }

  /** Over fewer than 2^48 calls at one instant, wrap-around of the counter included, no two nonces are equal. */
  lemma BackToBackDistinct(nanos: nat, pid: nat, first: nat, i: nat, j: nat)
    requires i < j < TWO_48
    ensures Text(nanos, pid, (first + i) % TWO_64) != Text(nanos, pid, (first + j) % TWO_64)
  {
    hide Text;
    SameInstant(nanos, pid, (first + i) % TWO_64, (first + j) % TWO_64);
    var q := (first + j) / TWO_64 - (first + i) / TWO_64;
    assert (first + i) % TWO_64 - (first + j) % TWO_64 == i - j + TWO_48 * (0x1_0000 * q);
  }

  /** When the `i`th and the `j`th call of one process get the same nonce, counted without wrap-around. */
  lemma CallsCollideExactly(pid: nat, i: nat, nanos1: nat, j: nat, nanos2: nat)
    ensures Text(nanos1, pid, i % TWO_64) == Text(nanos2, pid, j % TWO_64)
       <==> Congruent(nanos1 - nanos2, (j - i) * INVERSE)
  {
    hide Text;
    CollideExactly(nanos1, pid, i % TWO_64, nanos2, pid, j % TWO_64);
    WrappedDifference(nanos1 - nanos2, i, j);
  }

  lemma WrappedDifference(x: int, i: nat, j: nat)
    ensures Congruent(x, (j % TWO_64 - i % TWO_64) * INVERSE) <==> Congruent(x, (j - i) * INVERSE)
  {
    var q := (j / TWO_64 - i / TWO_64) * 0x1_0000 * INVERSE;
    assert x - (j % TWO_64 - i % TWO_64) * INVERSE == (x - (j - i) * INVERSE) + TWO_48 * q;
  }

  /** One call: when it was made and what it returned. */
  datatype Issued = Issued(nanos: nat, nonce: string)

  /** The process-wide counter behind the nonces, and every call there has been. */
  class Counter {
    const pid: nat
    var next: nat
    ghost var issued: seq<Issued>

    ghost predicate Valid()
      reads this
    {
      && next == |issued| % TWO_64
      && forall i :: 0 <= i < |issued| ==> issued[i].nonce == Text(issued[i].nanos, pid, i % TWO_64)
    }

    constructor (pid: nat)
      ensures Valid() && this.pid == pid && issued == []
    {
      this.pid := pid;
      next := 0;
      issued := [];
    }

    /**
     A call's nonce is that of an earlier call exactly when the two times lie at the one distance
     that makes up for the calls between; so it differs from every one of the last 2^48 - 1 calls
     made at the same instant.
    */
    method GenerateRefNonce(nanos: nat) returns (nonce: string)
      requires Valid()
      modifies this
      ensures Valid() && issued == old(issued) + [Issued(nanos, nonce)]
      ensures |nonce| == 12 && nonce == Text(nanos, pid, old(next))
      ensures next == (old(next) + 1) % TWO_64
      ensures forall i :: 0 <= i < |old(issued)| ==>
                (issued[i].nonce == nonce <==> Congruent(issued[i].nanos - nanos, (|old(issued)| - i) * INVERSE))
      ensures forall i :: 0 <= i < |old(issued)| < i + TWO_48 && issued[i].nanos == nanos ==> issued[i].nonce != nonce
    {
      hide Text, Congruent;
      nonce := Text(nanos, pid, next);
      forall i | 0 <= i < |issued|
        ensures issued[i].nonce == nonce <==> Congruent(issued[i].nanos - nanos, (|issued| - i) * INVERSE)
        ensures |issued| < i + TWO_48 && issued[i].nanos == nanos ==> issued[i].nonce != nonce
      {
        CallsCollideExactly(pid, i, issued[i].nanos, |issued|, nanos);
        if |issued| < i + TWO_48 && issued[i].nanos == nanos {
          BackToBackDistinct(nanos, pid, i, 0, |issued| - i);
        }
      }
      issued := issued + [Issued(nanos, nonce)];
      next := (next + 1) % TWO_64;
    }
  }
}
