/**
  Byte-sized counters and the fixed-length maps built from them: the edge
  counter map, the per-run comparison hit counts and the corpus map are all
  sequences of 8-bit unsigned counters.
 */
module Bytes {

  /** An 8-bit unsigned counter (`uint8_t`). */
  type Byte = x: int | 0 <= x < 256

  const MaxByte: Byte := 255

  function Max(a: int, b: int): int {
    if a >= b then a else b
  }

  /** Increment that sticks at 255 instead of wrapping round to 0. */
  function SatInc(b: Byte): Byte {
    if b < MaxByte then b + 1 else b
  }

  predicate AllZero(m: seq<Byte>) {
    forall i :: 0 <= i < |m| ==> m[i] == 0
  }

  /** A blank map of `n` counters, as `memset(…, 0, n)` or `= {}` leaves it. */
  function Zeros(n: nat): (r: seq<Byte>)
    ensures |r| == n
    ensures AllZero(r)
  {
    seq(n, _ => 0)
  }

  /** The slots of `m` whose counter is non-zero: the covered edges. */
  ghost function NonZeroSlots(m: seq<Byte>): set<nat> {
    set i: nat | i < |m| && m[i] != 0
  }

  /** Number of non-zero counters. */
  function CountNonZero(m: seq<Byte>): (n: nat)
    ensures n <= |m|
  {
    if |m| == 0 then 0
    else CountNonZero(m[..|m| - 1]) + (if m[|m| - 1] != 0 then 1 else 0)
  }

  /** The running count is exactly the number of covered slots. */
  lemma {:induction false} CountNonZeroIsCardinality(m: seq<Byte>)
    ensures CountNonZero(m) == |NonZeroSlots(m)|
  {
    if |m| > 0 {
      var last := |m| - 1;
      var p := m[..last];
      CountNonZeroIsCardinality(p);
      var extra: set<nat> := if m[last] != 0 then {last} else {};
      forall i: nat | i < last
        ensures i in NonZeroSlots(m) <==> i in NonZeroSlots(p)
      {
        assert m[i] == p[i];
      }
      assert NonZeroSlots(m) == NonZeroSlots(p) + extra;
      assert last !in NonZeroSlots(p);
    } else {
      assert NonZeroSlots(m) == {};
    }
  }

  /** A blank map has no covered slot. */
  lemma {:induction false} CountNonZeroOfZeros(m: seq<Byte>)
    requires AllZero(m)
    ensures CountNonZero(m) == 0
  {
    if |m| > 0 {
      CountNonZeroOfZeros(m[..|m| - 1]);
    }
  }

  /** If every slot covered in `a` is covered in `b`, `b` covers at least as many. */
  lemma {:induction false} CountNonZeroMonotone(a: seq<Byte>, b: seq<Byte>)
    requires |a| == |b|
    requires forall i :: 0 <= i < |a| && a[i] != 0 ==> b[i] != 0
    ensures CountNonZero(a) <= CountNonZero(b)
  {
    if |a| > 0 {
      var last := |a| - 1;
      var pa, pb := a[..last], b[..last];
      forall i | 0 <= i < |pa| && pa[i] != 0
        ensures pb[i] != 0
      {
        assert pa[i] == a[i] && pb[i] == b[i];
      }
      CountNonZeroMonotone(pa, pb);
    }
  }
}
