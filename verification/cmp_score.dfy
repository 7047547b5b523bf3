/**
  Comparison-coverage scores. Each comparison site keeps the best triple
  (counter, hamming, absolute) seen so far; a new triple is "higher" when its
  counter is larger, or when the counters tie and its hamming or its absolute
  score is larger.
 */
module CmpScores {
  import opened Bytes

  /**
    `counter`: hits of the comparison in a run; `hamming`: operand width minus
    the Hamming distance of the operands; `absolute`: 255 - min(255, |a - b|).
   */
  datatype CmpScore = CmpScore(counter: Byte, hamming: Byte, absolute: Byte)

  const Blank: CmpScore := CmpScore(0, 0, 0)

  /** The rule that decides whether `offer` beats the stored score. */
  predicate IsHigher(offer: CmpScore, stored: CmpScore)
    // no score beats itself
    ensures IsHigher(offer, stored) ==> offer != stored
  {
    || offer.counter > stored.counter
    || (offer.counter == stored.counter && (offer.hamming > stored.hamming || offer.absolute > stored.absolute))
  }

  /**
    `a` is at least as good as `b`: a larger counter, or the same counter and
    neither of the two scores is smaller.
   */
  predicate Covers(a: CmpScore, b: CmpScore) {
    || a.counter > b.counter
    || (a.counter == b.counter && a.hamming >= b.hamming && a.absolute >= b.absolute)
  }

  /** A score is higher than the stored one exactly when the stored one does not cover it. */
  lemma HigherIffNotCovered(offer: CmpScore, stored: CmpScore)
    ensures IsHigher(offer, stored) <==> !Covers(stored, offer)
  {
  }

  lemma CoversReflexive(a: CmpScore)
    ensures Covers(a, a)
  {
  }

  lemma CoversTransitive(a: CmpScore, b: CmpScore, c: CmpScore)
    requires Covers(a, b) && Covers(b, c)
    ensures Covers(a, c)
  {
  }

  /**
    The score stored after offering `offer` to a slot holding `stored`. A larger
    counter replaces the whole triple; on a tied counter each of hamming and
    absolute is raised separately when it improved; a smaller counter changes
    nothing.
   */
  function Improve(stored: CmpScore, offer: CmpScore): (r: CmpScore)
    // the stored score only ever moves up, and ends up covering the offer
    ensures Covers(r, stored) && Covers(r, offer)
    // it is replaced exactly when the offer is higher
    ensures r != stored <==> IsHigher(offer, stored)
    // a larger counter takes the offer's whole triple
    ensures offer.counter > stored.counter ==> r == offer
    // otherwise the counter stays, and a field that changed took the offer's larger value
    ensures offer.counter <= stored.counter ==>
              && r.counter == stored.counter
              && (r.hamming != stored.hamming ==> r.hamming == offer.hamming > stored.hamming)
              && (r.absolute != stored.absolute ==> r.absolute == offer.absolute > stored.absolute)
  {
    if offer.counter > stored.counter then offer
    else if offer.counter == stored.counter then
      CmpScore(stored.counter, Max(stored.hamming, offer.hamming), Max(stored.absolute, offer.absolute))
    else stored
  }

  /**
    Although the stored score never moves down in the `Covers` order, its
    hamming and absolute parts can each drop: a larger counter brings the
    offer's (possibly smaller) scores with it.
   */
  lemma ScoresCanDropWhenCounterRises()
    ensures Improve(CmpScore(1, 5, 200), CmpScore(2, 3, 100)) == CmpScore(2, 3, 100)
    ensures IsHigher(CmpScore(2, 3, 100), CmpScore(1, 5, 200))
  {
  }
}
