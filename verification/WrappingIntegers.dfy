/** 32-bit sequence numbers relative to an initial sequence number (wrapping_integers.{hh,cc}). */
module WrappingIntegers {
  import opened Types

  /** `a - b` on two wrapped numbers: the 32-bit difference read as a signed int. */
  function SignedDifference(a: u32, b: u32): int {
    var d := (a - b) % TWO_32;
    if d < TWO_31 then d else d - TWO_32
  }

  /** `a + b` and, for the point `b` steps before `a`, `a + -b`. */
  function Advance(a: u32, b: int): u32 {
    (a + b) % TWO_32
  }

  function Wrap(n: nat, isn: u32): u32 {
    (n % TWO_32 + isn) % TWO_32
  }

  /** The 32-bit distance from `isn` up to `n`, computed in the two branches of the source. */
  function Offset(n: u32, isn: u32): (off: nat)
    ensures off < TWO_32 && off == (n - isn) % TWO_32
  {
    if SignedDifference(n, isn) < 0 then
      (TWO_32 - 1) - (isn - n - 1) % TWO_32
    else
      (n - isn) % TWO_32
  }

  /** All sums are taken modulo 2^64, which only `res + 2^32` can reach. */
  function Unwrap(n: u32, isn: u32, checkpoint: nat): nat {
    var res := checkpoint / TWO_32 * TWO_32 + Offset(n, isn);
    if res <= checkpoint then
      if checkpoint - res <= TWO_31 then res
      else
        var up := (res + TWO_32) % TWO_64;
        if res < up then up else res
    else if res - checkpoint <= TWO_31 || res < TWO_32 then res
    else res - TWO_32
  }

  function Distance(a: nat, b: nat): nat {
    if a <= b then b - a else a - b
  }

  lemma CongruentOffset(v: nat, n: u32, isn: u32)
    ensures Wrap(v, isn) == n <==> v % TWO_32 == Offset(n, isn)
  {
  }

  lemma CongruentFar(a: nat, b: nat)
    requires a % TWO_32 == b % TWO_32 && a < b
    ensures b - a >= TWO_32
  {
  }

  /** Steps may be counted before or after wrapping. */
  lemma AdvanceWrap(n: nat, steps: nat, isn: u32)
    ensures Advance(Wrap(n, isn), steps) == Wrap(n + steps, isn)
  {
    Reduce(n % TWO_32 + isn, steps);
    Reduce(n, isn + steps);
    Reduce(n + steps, isn);
  }

  lemma Reduce(a: nat, b: nat)
    ensures (a % TWO_32 + b) % TWO_32 == (a + b) % TWO_32
  {
  }

  lemma StepsBetween(from: u32, steps: nat)
    requires steps < TWO_31
    ensures SignedDifference(Advance(from, steps), from) == steps
  {
  }

  lemma UnwrapCongruent(n: u32, isn: u32, checkpoint: nat)
    ensures Unwrap(n, isn, checkpoint) % TWO_32 == Offset(n, isn)
  {
  }

  lemma UnwrapWrapsBack(n: u32, isn: u32, checkpoint: nat)
    ensures Wrap(Unwrap(n, isn, checkpoint), isn) == n
  {
    UnwrapCongruent(n, isn, checkpoint);
    CongruentOffset(Unwrap(n, isn, checkpoint), n, isn);
  }

  /** The result is within half the 32-bit space of the checkpoint, or in the first or last block with no way closer. */
  lemma UnwrapShape(n: u32, isn: u32, checkpoint: nat)
    requires checkpoint < TWO_64
    ensures var r := Unwrap(n, isn, checkpoint);
            && r < TWO_64
            && (Distance(r, checkpoint) <= TWO_31 || checkpoint < r < TWO_32 || (r < checkpoint && r + TWO_32 >= TWO_64))
  {
    hide Offset;
  }

  /** `unwrap` is the nearest 64-bit preimage, including in the first and the last block of 2^32. */
  lemma UnwrapNearest(n: u32, isn: u32, checkpoint: nat, v: nat)
    requires checkpoint < TWO_64 && v < TWO_64 && Wrap(v, isn) == n
    ensures Unwrap(n, isn, checkpoint) < TWO_64
    ensures Distance(Unwrap(n, isn, checkpoint), checkpoint) <= Distance(v, checkpoint)
  {
    var r := Unwrap(n, isn, checkpoint);
    hide Unwrap, Wrap, Offset;
    UnwrapShape(n, isn, checkpoint);
    UnwrapCongruent(n, isn, checkpoint);
    CongruentOffset(v, n, isn);
    if v < r { CongruentFar(v, r); } else if r < v { CongruentFar(r, v); }
  }

  /** A number less than half the 32-bit space away from the checkpoint survives the round trip. */
  lemma UnwrapWrap(v: nat, isn: u32, checkpoint: nat)
    requires checkpoint < TWO_64 && v < TWO_64
    requires Distance(v, checkpoint) < TWO_31
    ensures Unwrap(Wrap(v, isn), isn, checkpoint) == v
  {
    var r := Unwrap(Wrap(v, isn), isn, checkpoint);
    hide Unwrap, Wrap, Offset;
    UnwrapNearest(Wrap(v, isn), isn, checkpoint, v);
    UnwrapCongruent(Wrap(v, isn), isn, checkpoint);
    CongruentOffset(v, Wrap(v, isn), isn);
    if v < r { CongruentFar(v, r); } else if r < v { CongruentFar(r, v); }
  }

  /** Of two numbers equally near, the one in the checkpoint's own block of 2^32 is taken. */
  lemma UnwrapTie(v: nat, isn: u32, checkpoint: nat)
    requires checkpoint < TWO_64 && checkpoint == v + TWO_31
    ensures Unwrap(Wrap(v, isn), isn, checkpoint) == if v / TWO_32 == checkpoint / TWO_32 then v else v + TWO_32
  {
    CongruentOffset(v, Wrap(v, isn), isn);
    hide Wrap, Offset;
    TieBlocks(v);
  }

  lemma TieBlocks(v: nat)
    ensures var q := (v + TWO_31) / TWO_32;
            if v / TWO_32 == q then v == q * TWO_32 + v % TWO_32
            else v + TWO_32 == q * TWO_32 + v % TWO_32
  {
  }
}
