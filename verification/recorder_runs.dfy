/**
  Sequences of recorder operations. A controller resets the recorder, turns
  tracing on, lets the target run (which reaches the recorder through the
  comparison and stack hooks), and turns tracing off again. The hooks only
  act while tracing is on. This module states what such sequences keep:
  the best comparison scores and the per-site stack map only ever move up,
  across resets too; between resets the latch stays set once set and the
  stack watermark never drops; a watermark within the limit stays within it.
 */
module Runs {
  import opened Bytes
  import opened CmpScores
  import opened Execution

  datatype Event =
    | Reset
    | SetTracing(on: bool)
    | Cmp(index: nat, hammingDist: Byte, absoluteDist: Byte)
    | Stack(pc: nat, caller: StackCaller)

  /** `t` has maps of the same sizes as `s`. */
  predicate SameShape<T>(s: ExecutionCoverage<T>, t: ExecutionCoverage<T>) {
    && |t.counterMap| == |s.counterMap|
    && |t.newCmpCounterMap| == |s.newCmpCounterMap|
    && |t.maxCmpMap| == |s.maxCmpMap|
    && |t.maxStackMap| == |s.maxStackMap|
  }

  /** One recorder call; the two hooks do nothing while tracing is off. */
  function Step<T>(s: ExecutionCoverage<T>, e: Event, limit: nat): (o: StackOutcome<T>)
    requires Valid(s)
    ensures o.Continue? ==> Valid(o.state) && SameShape(s, o.state)
    ensures (e.Cmp? || e.Stack?) && !IsTracing(s) ==> o == Continue(s)
    ensures o.Abort? ==> e.Stack? && o.used > limit
  {
    match e
    case Reset => Continue(ResetState(s))
    case SetTracing(on) => Continue(SetIsTracing(s, on))
    case Cmp(index, h, a) =>
      if IsTracing(s) then Continue(UpdateCmpMap(s, index, h, a)) else Continue(s)
    case Stack(pc, caller) =>
      if IsTracing(s) then UpdateMaxStack(s, pc, caller, limit) else Continue(s)
  }

  /** A sequence of calls; it stops at the first abort. */
  function Run<T>(s: ExecutionCoverage<T>, es: seq<Event>, limit: nat): (o: StackOutcome<T>)
    requires Valid(s)
    ensures o.Continue? ==> Valid(o.state) && SameShape(s, o.state)
    ensures o.Abort? ==> o.used > limit
    decreases |es|
  {
    if |es| == 0 then Continue(s)
    else
      match Step(s, es[0], limit)
      case Abort(used, l) => Abort(used, l)
      case Continue(t) => Run(t, es[1..], limit)
  }

  predicate NoReset(es: seq<Event>) {
    forall k :: 0 <= k < |es| ==> !es[k].Reset?
  }

  /** Every best comparison score of `t` covers the one of `s` at the same site. */
  predicate ScoresCover<T>(t: ExecutionCoverage<T>, s: ExecutionCoverage<T>)
    requires |t.maxCmpMap| == |s.maxCmpMap|
  {
    forall i :: 0 <= i < |s.maxCmpMap| ==> Covers(t.maxCmpMap[i], s.maxCmpMap[i])
  }

  /** Every per-site stack watermark of `t` is at least the one of `s`. */
  predicate StackMapGrows<T>(t: ExecutionCoverage<T>, s: ExecutionCoverage<T>)
    requires |t.maxStackMap| == |s.maxStackMap|
  {
    forall i :: 0 <= i < |s.maxStackMap| ==> t.maxStackMap[i] >= s.maxStackMap[i]
  }

  /** One call never lowers a best score or a per-site stack watermark. */
  lemma StepKeepsMaxima<T>(s: ExecutionCoverage<T>, e: Event, limit: nat)
    requires Valid(s)
    ensures Step(s, e, limit).Continue? ==>
              && ScoresCover(Step(s, e, limit).state, s)
              && StackMapGrows(Step(s, e, limit).state, s)
  {
  }

  /**
    The best comparison scores and the per-site stack watermarks never move
    down, whatever the calls, resets included: reset leaves both maps alone.
   */
  lemma {:induction false} RunKeepsMaxima<T>(s: ExecutionCoverage<T>, es: seq<Event>, limit: nat)
    requires Valid(s)
    ensures Run(s, es, limit).Continue? ==>
              && ScoresCover(Run(s, es, limit).state, s)
              && StackMapGrows(Run(s, es, limit).state, s)
    decreases |es|
  {
    if |es| == 0 {
      forall i | 0 <= i < |s.maxCmpMap|
        ensures Covers(s.maxCmpMap[i], s.maxCmpMap[i])
      {
        CoversReflexive(s.maxCmpMap[i]);
      }
    } else {
      var o := Step(s, es[0], limit);
      StepKeepsMaxima(s, es[0], limit);
      if o.Continue? {
        var t := o.state;
        RunKeepsMaxima(t, es[1..], limit);
        var f := Run(s, es, limit);
        if f.Continue? {
          assert f == Run(t, es[1..], limit);
          forall i | 0 <= i < |s.maxCmpMap|
            ensures Covers(f.state.maxCmpMap[i], s.maxCmpMap[i])
          {
            CoversTransitive(f.state.maxCmpMap[i], t.maxCmpMap[i], s.maxCmpMap[i]);
          }
        }
      }
    }
  }

  /**
    Between two resets the latch, once set, stays set and the stack watermark
    never drops.
   */
  lemma {:induction false} RunWithoutResetKeepsLatchAndWatermark<T>(s: ExecutionCoverage<T>, es: seq<Event>, limit: nat)
    requires Valid(s)
    requires NoReset(es)
    ensures Run(s, es, limit).Continue? ==>
              && (NewCoverageFound(s) ==> NewCoverageFound(Run(s, es, limit).state))
              && MaxStackUsed(Run(s, es, limit).state) >= MaxStackUsed(s)
    decreases |es|
  {
    if |es| > 0 {
      var o := Step(s, es[0], limit);
      if o.Continue? {
        assert !es[0].Reset?;
        assert NoReset(es[1..]) by {
          forall k | 0 <= k < |es[1..]|
            ensures !es[1..][k].Reset?
          {
            assert es[1..][k] == es[k + 1];
          }
        }
        RunWithoutResetKeepsLatchAndWatermark(o.state, es[1..], limit);
      }
    }
  }

  /**
    A stack watermark within the limit stays within it for as long as the
    process keeps running: the only way past the limit is an abort.
   */
  lemma {:induction false} RunKeepsWatermarkWithinLimit<T>(s: ExecutionCoverage<T>, es: seq<Event>, limit: nat)
    requires Valid(s)
    requires MaxStackUsed(s) <= limit
    ensures Run(s, es, limit).Continue? ==> MaxStackUsed(Run(s, es, limit).state) <= limit
    decreases |es|
  {
    if |es| > 0 {
      var o := Step(s, es[0], limit);
      if o.Continue? {
        RunKeepsWatermarkWithinLimit(o.state, es[1..], limit);
      }
    }
  }

  /**
    Reset, then two identical comparisons at site 7 (hamming score 3,
    absolute score 200) while tracing, on a recorder that has never scored
    that site: the first call sets the latch and stores (1, 3, 200); the
    second raises this run's hit count to 2 and stores (2, 3, 200).
   */
  lemma TwoComparisonsOnFreshSite<T>(s: ExecutionCoverage<T>)
    requires Valid(s) && 7 < |s.maxCmpMap|
    requires s.maxCmpMap[7] == Blank
    ensures var a := UpdateCmpMap(SetIsTracing(ResetState(s), true), 7, 3, 200);
            var b := UpdateCmpMap(a, 7, 3, 200);
            && NewCoverageFound(a) && NewCoverageFound(b)
            && a.newCmpCounterMap[7] == 1 && a.maxCmpMap[7] == CmpScore(1, 3, 200)
            && b.newCmpCounterMap[7] == 2 && b.maxCmpMap[7] == CmpScore(2, 3, 200)
  {
  }

  /**
    The best scores survive a reset, so the same two comparisons on a recorder
    that already stored (2, 3, 200) at site 7 in an earlier run find nothing
    new: the latch stays clear.
   */
  lemma TwoComparisonsOnScoredSite<T>(s: ExecutionCoverage<T>)
    requires Valid(s) && 7 < |s.maxCmpMap|
    requires s.maxCmpMap[7] == CmpScore(2, 3, 200)
    ensures var a := UpdateCmpMap(SetIsTracing(ResetState(s), true), 7, 3, 200);
            var b := UpdateCmpMap(a, 7, 3, 200);
            && !NewCoverageFound(a) && !NewCoverageFound(b)
            && b.newCmpCounterMap[7] == 2 && b.maxCmpMap[7] == CmpScore(2, 3, 200)
  {
  }
}
