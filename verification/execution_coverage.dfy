/**
  The per-run coverage recorder (`ExecutionCoverage`): the edge counter view,
  the per-run comparison hit counts, the best comparison scores, the stack
  watermarks, the "new coverage" latch and the tracing flag. Every operation
  is a pure function from one recorder state to the next.

  The table of recent comparisons is carried as a value of the type
  parameter `T`: the recorder only holds it and never resets it.
 */
module Execution {
  import opened Bytes
  import opened CmpScores

  datatype ExecutionCoverage<T> = ExecutionCoverage(
    counterMap: seq<Byte>,          // 8-bit edge counters, owned by the instrumentation
    newCmpCounterMap: seq<Byte>,    // hit counts of each comparison site in this run
    maxCmpMap: seq<CmpScore>,       // best score per comparison site, kept across runs
    maxStackRecorded: nat,          // stack watermark of this run on the test thread
    maxStackMap: seq<nat>,          // largest stack usage seen per call site
    newCoverage: bool,              // the "new coverage of any kind" latch
    tablesOfRecentCompares: T,
    isTracing: bool)

  /**
    The two comparison maps have the same (positive) size and the stack map is
    non-empty, so that a site index can be folded into range.
   */
  predicate Valid<T>(s: ExecutionCoverage<T>) {
    && |s.newCmpCounterMap| == |s.maxCmpMap|
    && 0 < |s.maxCmpMap|
    && 0 < |s.maxStackMap|
  }

  /** Who calls `UpdateMaxStack`: the thread that last reset the recorder, and how deep its stack is, or another thread. */
  datatype StackCaller = OtherThread | TestThread(depth: nat)

  /** `UpdateMaxStack` either returns normally or aborts the process. */
  datatype StackOutcome<T> =
    | Continue(state: ExecutionCoverage<T>)
    | Abort(used: nat, limit: nat)

  /**
    A recorder bound to `counterMap`, with comparison maps of `cmpMapSize`
    slots and a stack map of `stackMapSize` slots, every other part blank.
   */
  function New<T>(counterMap: seq<Byte>, cmpMapSize: nat, stackMapSize: nat, tables: T): (s: ExecutionCoverage<T>)
    requires 0 < cmpMapSize && 0 < stackMapSize
    ensures Valid(s)
    ensures s.counterMap == counterMap
    ensures |s.maxCmpMap| == cmpMapSize && |s.maxStackMap| == stackMapSize
    ensures AllZero(s.newCmpCounterMap)
    ensures forall i :: 0 <= i < |s.maxCmpMap| ==> s.maxCmpMap[i] == Blank
    ensures forall i :: 0 <= i < |s.maxStackMap| ==> s.maxStackMap[i] == 0
    ensures !NewCoverageFound(s) && !IsTracing(s) && MaxStackUsed(s) == 0
  {
    ExecutionCoverage(counterMap, Zeros(cmpMapSize), seq(cmpMapSize, _ => Blank), 0,
                      seq(stackMapSize, _ => 0), false, tables, false)
  }

  function NewCoverageFound<T>(s: ExecutionCoverage<T>): bool {
    s.newCoverage
  }

  function IsTracing<T>(s: ExecutionCoverage<T>): bool {
    s.isTracing
  }

  function MaxStackUsed<T>(s: ExecutionCoverage<T>): nat {
    s.maxStackRecorded
  }

  /**
    Clears the edge counters, the per-run comparison hit counts, the latch and
    the stack watermark. The best comparison scores, the per-site stack map,
    the recent-compares tables and the tracing flag are left as they are.
   */
  function ResetState<T>(s: ExecutionCoverage<T>): (r: ExecutionCoverage<T>)
    requires Valid(s)
    ensures Valid(r)
    ensures |r.counterMap| == |s.counterMap| && AllZero(r.counterMap)
    ensures |r.newCmpCounterMap| == |s.newCmpCounterMap| && AllZero(r.newCmpCounterMap)
    ensures !NewCoverageFound(r) && MaxStackUsed(r) == 0
    ensures r.maxCmpMap == s.maxCmpMap
    ensures r.maxStackMap == s.maxStackMap
    ensures r.tablesOfRecentCompares == s.tablesOfRecentCompares
    ensures IsTracing(r) == IsTracing(s)
  {
    s.(newCmpCounterMap := Zeros(|s.newCmpCounterMap|),
       counterMap := Zeros(|s.counterMap|),
       newCoverage := false,
       maxStackRecorded := 0)
  }

  /** Resetting twice is the same as resetting once. */
  lemma ResetStateIdempotent<T>(s: ExecutionCoverage<T>)
    requires Valid(s)
    ensures ResetState(ResetState(s)) == ResetState(s)
  {
  }

  /** Only the tracing flag changes. */
  function SetIsTracing<T>(s: ExecutionCoverage<T>, isTracing: bool): (r: ExecutionCoverage<T>)
    ensures IsTracing(r) == isTracing
    ensures r.(isTracing := s.isTracing) == s
  {
    s.(isTracing := isTracing)
  }

  /** Setting the flag back to what it was undoes a `SetIsTracing`; the last setting wins. */
  lemma SetIsTracingRoundTrip<T>(s: ExecutionCoverage<T>, a: bool, b: bool)
    ensures SetIsTracing(SetIsTracing(s, a), IsTracing(s)) == s
    ensures SetIsTracing(SetIsTracing(s, a), b) == SetIsTracing(s, b)
  {
  }

  /** The comparison slot a site index is folded into. */
  function CmpSlot<T>(s: ExecutionCoverage<T>, index: nat): nat
    requires Valid(s)
  {
    index % |s.maxCmpMap|
  }

  /** The score a comparison at `index` offers: this run's raised hit count and its two distance scores. */
  function CmpOffer<T>(s: ExecutionCoverage<T>, index: nat, hammingDist: Byte, absoluteDist: Byte): CmpScore
    requires Valid(s)
  {
    CmpScore(SatInc(s.newCmpCounterMap[CmpSlot(s, index)]), hammingDist, absoluteDist)
  }

  /**
    Records one comparison at site `index`: the site's hit count for this run
    goes up by one (sticking at 255), the offered score is merged into the
    best score, and the latch is set when the offer is higher than the score
    stored before.
   */
  function UpdateCmpMap<T>(s: ExecutionCoverage<T>, index: nat, hammingDist: Byte, absoluteDist: Byte)
    : (r: ExecutionCoverage<T>)
    requires Valid(s)
    ensures Valid(r) && |r.newCmpCounterMap| == |s.newCmpCounterMap|
    ensures var k, offer := CmpSlot(s, index), CmpOffer(s, index, hammingDist, absoluteDist);
            // the hit count rises by exactly one, sticking at 255
            && r.newCmpCounterMap[k] == SatInc(s.newCmpCounterMap[k])
            && (r.newCmpCounterMap[k] > s.newCmpCounterMap[k] <==> s.newCmpCounterMap[k] < MaxByte)
            // the stored score becomes the tie-break merge of the old score and the offer
            && r.maxCmpMap[k] == Improve(s.maxCmpMap[k], offer)
            // the latch is set exactly when the offer beats the stored score, and never cleared
            && (NewCoverageFound(r) <==> NewCoverageFound(s) || IsHigher(offer, s.maxCmpMap[k]))
            // a stored score is replaced only by a higher one, and never moves down
            && (r.maxCmpMap[k] != s.maxCmpMap[k] ==> IsHigher(offer, s.maxCmpMap[k]))
            && Covers(r.maxCmpMap[k], s.maxCmpMap[k])
            && Covers(r.maxCmpMap[k], offer)
    // other sites are untouched
    ensures forall j :: 0 <= j < |s.maxCmpMap| && j != CmpSlot(s, index) ==>
              r.newCmpCounterMap[j] == s.newCmpCounterMap[j] && r.maxCmpMap[j] == s.maxCmpMap[j]
    // nothing outside the comparison maps and the latch changes
    ensures r.(newCmpCounterMap := s.newCmpCounterMap, maxCmpMap := s.maxCmpMap, newCoverage := s.newCoverage) == s
  {
    var k := CmpSlot(s, index);
    var offer := CmpOffer(s, index, hammingDist, absoluteDist);
    var stored := s.maxCmpMap[k];
    s.(newCmpCounterMap := s.newCmpCounterMap[k := offer.counter],
       maxCmpMap := s.maxCmpMap[k := Improve(stored, offer)],
       newCoverage := s.newCoverage || IsHigher(offer, stored))
  }

  /** The stack slot a call-site address is folded into. */
  function StackSlot<T>(s: ExecutionCoverage<T>, pc: nat): nat
    requires Valid(s)
  {
    pc % |s.maxStackMap|
  }

  /**
    Records the stack usage at call site `pc`. Another thread's call changes
    nothing. On the test thread the site's watermark and the run's watermark
    are raised to the current depth; a higher per-site value sets the latch;
    a new run watermark above `limit` aborts the process.
   */
  function UpdateMaxStack<T>(s: ExecutionCoverage<T>, pc: nat, caller: StackCaller, limit: nat)
    : (o: StackOutcome<T>)
    requires Valid(s)
    // a no-op off the test thread
    ensures caller.OtherThread? ==> o == Continue(s)
    // aborts exactly when the run's watermark would rise above the limit
    ensures o.Abort? <==> caller.TestThread? && caller.depth > MaxStackUsed(s) && caller.depth > limit
    ensures o.Abort? ==> o.used == caller.depth && o.limit == limit
    ensures o.Continue? && caller.TestThread? ==>
              var r, k := o.state, StackSlot(s, pc);
              && Valid(r)
              // the run's watermark is the larger of the old one and this depth
              && MaxStackUsed(r) >= MaxStackUsed(s)
              && MaxStackUsed(r) >= caller.depth
              && (MaxStackUsed(r) == MaxStackUsed(s) || MaxStackUsed(r) == caller.depth)
              // the site's watermark likewise, and the latch notes a higher one
              && |r.maxStackMap| == |s.maxStackMap|
              && r.maxStackMap[k] >= s.maxStackMap[k]
              && r.maxStackMap[k] >= caller.depth
              && (r.maxStackMap[k] == s.maxStackMap[k] || r.maxStackMap[k] == caller.depth)
              && (NewCoverageFound(r) <==> NewCoverageFound(s) || caller.depth > s.maxStackMap[k])
              && (forall j :: 0 <= j < |s.maxStackMap| && j != k ==> r.maxStackMap[j] == s.maxStackMap[j])
              // nothing else changes
              && r.(maxStackRecorded := s.maxStackRecorded, maxStackMap := s.maxStackMap,
                    newCoverage := s.newCoverage) == s
    // a returning call keeps a watermark that was within the limit within it
    ensures o.Continue? && MaxStackUsed(s) <= limit ==> MaxStackUsed(o.state) <= limit
  {
    match caller
    case OtherThread => Continue(s)
    case TestThread(depth) =>
      var k := StackSlot(s, pc);
      var siteRaised := depth > s.maxStackMap[k];
      var s1 := s.(maxStackMap := if siteRaised then s.maxStackMap[k := depth] else s.maxStackMap,
                   newCoverage := s.newCoverage || siteRaised);
      if depth > s.maxStackRecorded then
        if depth > limit then Abort(depth, limit)
        else Continue(s1.(maxStackRecorded := depth))
      else Continue(s1)
  }
}
