/**
  The cross-run aggregate (`CorpusCoverage`): one 8-bit counter per edge,
  holding the largest value any merged run has shown for that edge.
 */
module Corpus {
  import opened Bytes
  import Execution

  datatype CorpusCoverage = CorpusCoverage(corpusMap: seq<Byte>)

  /** A blank aggregate of `mapSize` counters. */
  function New(mapSize: nat): (c: CorpusCoverage)
    ensures |c.corpusMap| == mapSize
    ensures AllZero(c.corpusMap)
    ensures CountNonZero(c.corpusMap) == 0
  {
    CountNonZeroOfZeros(Zeros(mapSize));
    CorpusCoverage(Zeros(mapSize))
  }

  /** Some edge counter of a run is above what the corpus holds for that edge. */
  predicate NewCoverageIn(corpus: seq<Byte>, counters: seq<Byte>)
    requires |counters| == |corpus|
  {
    exists i :: 0 <= i < |corpus| && counters[i] > corpus[i]
  }

  /** Reference definition of a merge: the slot-by-slot maximum. */
  function Merge(corpus: seq<Byte>, counters: seq<Byte>): (m: seq<Byte>)
    requires |counters| == |corpus|
    ensures |m| == |corpus|
  {
    seq(|corpus|, i requires 0 <= i < |corpus| => Max(corpus[i], counters[i]) as Byte)
  }

  /**
    Merges the run's edge counters into the corpus slot by slot, and reports
    whether any slot went up. The run must use a counter map of the corpus's
    size.
   */
  method Update<T>(c: CorpusCoverage, run: Execution.ExecutionCoverage<T>) returns (r: CorpusCoverage, changed: bool)
    requires |run.counterMap| == |c.corpusMap|
    ensures |r.corpusMap| == |c.corpusMap|
    ensures forall i :: 0 <= i < |c.corpusMap| ==>
              r.corpusMap[i] >= c.corpusMap[i] && r.corpusMap[i] >= run.counterMap[i]
              && (r.corpusMap[i] == c.corpusMap[i] || r.corpusMap[i] == run.counterMap[i])
    ensures changed <==> NewCoverageIn(c.corpusMap, run.counterMap)
    ensures r.corpusMap == Merge(c.corpusMap, run.counterMap)
  {
    var m := c.corpusMap;
    changed := false;
    var i := 0;
    while i < |m|
      invariant 0 <= i <= |m| && |m| == |c.corpusMap|
      invariant forall j :: 0 <= j < i ==> m[j] == Max(c.corpusMap[j], run.counterMap[j])
      invariant forall j :: i <= j < |m| ==> m[j] == c.corpusMap[j]
      invariant changed <==> exists j :: 0 <= j < i && run.counterMap[j] > c.corpusMap[j]
    {
      if run.counterMap[i] > m[i] {
        m := m[i := run.counterMap[i]];
        changed := true;
      }
      i := i + 1;
    }
    r := CorpusCoverage(m);
  }

  /**
    The number of covered edges: the map size minus the number of zero
    counters.
   */
  method GetNumberOfCoveredEdges(c: CorpusCoverage) returns (n: nat)
    ensures n == |NonZeroSlots(c.corpusMap)|
    ensures n <= |c.corpusMap|
    ensures n == CountNonZero(c.corpusMap)
  {
    var m := c.corpusMap;
    var uncovered := 0;
    var i := 0;
    while i < |m|
      invariant 0 <= i <= |m|
      invariant uncovered + CountNonZero(m[..i]) == i
    {
      assert m[..i + 1][..i] == m[..i];
      if m[i] == 0 {
        uncovered := uncovered + 1;
      }
      i := i + 1;
    }
    assert m[..|m|] == m;
    n := |m| - uncovered;
    CountNonZeroIsCardinality(m);
  }

  /** The merge covers both inputs and is their least upper bound slot by slot. */
  lemma MergeIsLeastUpperBound(corpus: seq<Byte>, counters: seq<Byte>, bound: seq<Byte>)
    requires |counters| == |corpus| && |bound| == |corpus|
    ensures forall i :: 0 <= i < |corpus| ==>
              Merge(corpus, counters)[i] >= corpus[i] && Merge(corpus, counters)[i] >= counters[i]
    ensures (forall i :: 0 <= i < |corpus| ==> bound[i] >= corpus[i] && bound[i] >= counters[i]) ==>
              forall i :: 0 <= i < |corpus| ==> Merge(corpus, counters)[i] <= bound[i]
  {
  }

  /** A merge leaves the corpus as it was exactly when the run shows nothing new. */
  lemma MergeUnchangedIff(corpus: seq<Byte>, counters: seq<Byte>)
    requires |counters| == |corpus|
    ensures Merge(corpus, counters) == corpus <==> !NewCoverageIn(corpus, counters)
  {
  }

  /** Merging the same run a second time finds nothing new and changes nothing. */
  lemma MergeTwiceFindsNothing(corpus: seq<Byte>, counters: seq<Byte>)
    requires |counters| == |corpus|
    ensures !NewCoverageIn(Merge(corpus, counters), counters)
    ensures Merge(Merge(corpus, counters), counters) == Merge(corpus, counters)
  {
    MergeUnchangedIff(Merge(corpus, counters), counters);
  }

  /** Merging never loses a covered edge, so the covered-edge count never drops. */
  lemma MergeKeepsCoveredEdges(corpus: seq<Byte>, counters: seq<Byte>)
    requires |counters| == |corpus|
    ensures NonZeroSlots(corpus) <= NonZeroSlots(Merge(corpus, counters))
    ensures CountNonZero(corpus) <= CountNonZero(Merge(corpus, counters))
  {
    CountNonZeroMonotone(corpus, Merge(corpus, counters));
  }

  /**
    Merging a run with edge counters [0, 3, 0, 5] into a blank corpus of four
    edges finds new coverage and leaves two covered edges; merging the same
    run again finds nothing.
   */
  lemma MergeExample()
    ensures var corpus := New(4).corpusMap;
            var counters: seq<Byte> := [0, 3, 0, 5];
            && NewCoverageIn(corpus, counters)
            && Merge(corpus, counters) == [0, 3, 0, 5]
            && CountNonZero(Merge(corpus, counters)) == 2
            && !NewCoverageIn(Merge(corpus, counters), counters)
  {
    var corpus := New(4).corpusMap;
    var counters: seq<Byte> := [0, 3, 0, 5];
    assert counters[1] > corpus[1];
    var m := Merge(corpus, counters);
    assert m == [0, 3, 0, 5];
    var p1, p2, p3 := m[..1], m[..2], m[..3];
    assert p1[..0] == [] && p2[..1] == p1 && p3[..2] == p2 && m[..3] == p3;
    assert CountNonZero(p1) == 0;
    assert CountNonZero(p2) == 1;
    assert CountNonZero(p3) == 1;
    MergeTwiceFindsNothing(corpus, counters);
  }
}
