/** The Internet checksum of RFC 1071 (util.{hh,cc}). */
module Checksum {
  import opened Types

  /** The sum of the 16-bit words of `data`; with odd parity it starts in the middle of a word. */
  function WordSum(data: seq<byte>, odd: bool): nat {
    if data == [] then 0
    else (if odd then data[0] else 256 * data[0]) + WordSum(data[1..], !odd)
  }

  predicate Odd(n: nat) { n % 2 == 1 }

  /** One's-complement addition of the carries until 16 bits remain. */
  function Fold(x: nat): nat {
    if x > 0xffff then Fold(x / TWO_16 + x % TWO_16) else x
  }

  /** `value()`: the complement of the folded sum. */
  function Value(sum: nat): u16 {
    FoldRange(sum);
    0xffff - Fold(sum)
  }

  // ---------------------------------------------------------------- laws

  lemma {:induction false} FoldRange(x: nat)
    ensures Fold(x) <= 0xffff && (Fold(x) == 0 <==> x == 0)
  {
    if x > 0xffff { FoldRange(x / TWO_16 + x % TWO_16); }
  }

  lemma CarryCongruent(x: nat)
    ensures (x / TWO_16 + x % TWO_16) % 0xffff == x % 0xffff
  {
    var q, r := x / TWO_16, x % TWO_16;
    assert x == q * 0xffff + (q + r);
    ModAdd(q, q + r);
  }

  lemma {:induction false} ModAdd(q: nat, y: nat)
    ensures (q * 0xffff + y) % 0xffff == y % 0xffff
  {
    if q > 0 {
      ModAdd(q - 1, y);
      assert q * 0xffff + y == ((q - 1) * 0xffff + y) + 0xffff;
    }
  }

  /** Folding keeps the sum modulo 65535. */
  lemma {:induction false} FoldCongruent(x: nat)
    ensures Fold(x) % 0xffff == x % 0xffff
  {
    if x > 0xffff {
      FoldCongruent(x / TWO_16 + x % TWO_16);
      CarryCongruent(x);
    }
  }

  /** A sum completed by its own checksum verifies. */
  lemma ValueVerifies(sum: nat)
    ensures Value(sum + Value(sum)) == 0
  {
    var t := sum + Value(sum);
    FoldRange(sum);
    FoldCongruent(sum);
    FoldRange(t);
    FoldCongruent(t);
    ComplementCongruent(sum, Fold(sum));
  }

  lemma ComplementCongruent(x: nat, f: nat)
    requires f <= 0xffff && f % 0xffff == x % 0xffff
    ensures (x + (0xffff - f)) % 0xffff == 0
  {
    var q := x / 0xffff;
    assert x == q * 0xffff + x % 0xffff;
    assert f == 0xffff || f == x % 0xffff;
    ModAdd(q + (if f == 0xffff then 0 else 1), 0);
  }

  /** The completed sum is a multiple of 65535 and so never reaches 2^32: the largest one below it is 2^32 - 1. */
  lemma NeverCarries(sum: u32)
    ensures sum + Value(sum) < TWO_32
  {
    FoldRange(sum);
    FoldCongruent(sum);
    ComplementCongruent(sum, Fold(sum));
    hide Fold;
    if sum + Value(sum) >= TWO_32 { WrapShift(sum + Value(sum)); }
  }

  /** The 32-bit accumulator verifies whatever it held before the checksum was added. */
  lemma SumVerifies(sum: u32)
    ensures Value((sum + Value(sum)) % TWO_32) == 0
  {
    NeverCarries(sum);
    ValueVerifies(sum);
  }

  lemma WrapShift(t: nat)
    requires TWO_32 <= t < TWO_32 + 0xffff && t % 0xffff == 0
    ensures t - TWO_32 == 0xfffe
  {
  }

  /** Feeding bytes in pieces is feeding them whole. */
  lemma {:induction false} WordSumConcat(a: seq<byte>, b: seq<byte>, odd: bool)
    ensures WordSum(a + b, odd) == WordSum(a, odd) + WordSum(b, odd != Odd(|a|))
  {
    if a == [] {
      assert a + b == b;
    } else {
      assert (a + b)[1..] == a[1..] + b;
      WordSumConcat(a[1..], b, !odd);
    }
  }

  lemma WrapOnce(a: nat, b: nat)
    ensures (a % TWO_32 + b) % TWO_32 == (a + b) % TWO_32
  {
  }

  // ---------------------------------------------------------------- the accumulator

  class InternetChecksum {
    var sum: u32
    var parity: bool

    constructor (initialSum: u32)
      ensures sum == initialSum && !parity
    {
      sum, parity := initialSum, false;
    }

    /** The 32-bit sum grows by the words of `data`, modulo 2^32; parity remembers half a word. */
    method Add(data: seq<byte>)
      modifies this
      ensures sum == (old(sum) + WordSum(data, old(parity))) % TWO_32
      ensures parity == (old(parity) != Odd(|data|))
    {
      var i := 0;
      while i < |data|
        invariant 0 <= i <= |data|
        invariant parity == (old(parity) != Odd(i))
        invariant (sum + WordSum(data[i..], parity)) % TWO_32 == (old(sum) + WordSum(data, old(parity))) % TWO_32
      {
        assert data[i..][0] == data[i] && data[i..][1..] == data[i + 1..];
        var val: nat := data[i];
        if !parity {
          val := val * 256;
        }
        WrapOnce(sum + val, WordSum(data[i + 1..], !parity));
        sum := (sum + val) % TWO_32;
        parity := !parity;
        i := i + 1;
      }
    }

    method GetValue() returns (value: u16)
      ensures value == Value(sum)
    {
      var ret: nat := sum;
      while ret > 0xffff
        invariant Fold(ret) == Fold(sum)
      {
        ret := ret / TWO_16 + ret % TWO_16;
      }
      value := 0xffff - ret;
    }
  }
}
