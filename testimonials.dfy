/**
  The testimonial carousel of `src/components/testimonials/Testimonials.tsx`: the index
  of the testimonial shown, moved by the arrows, the dots and the autoplay interval, and
  the autoplay flag that navigation and hovering switch off. Timers are left out: the
  interval firing is `Tick` and the ten-second resume is `Resume`.
*/
module Testimonials {
  /** The carousel holds three testimonials. */
  const TestimonialCount: nat := 3

  /** The index after `i`, wrapping from the last back to the first. */
  function NextIndex(n: nat, i: nat): (j: nat)
    requires n > 0
    ensures j < n
    ensures i < n ==> j == (if i == n - 1 then 0 else i + 1)
  {
    (i + 1) % n
  }

  /** The index before `i`, wrapping from the first to the last. */
  function PreviousIndex(n: nat, i: nat): (j: nat)
    requires n > 0
    ensures j < n
    ensures i < n ==> j == (if i == 0 then n - 1 else i - 1)
  {
    (i - 1 + n) % n
  }

  /** Previous undoes next. */
  lemma PreviousAfterNext(n: nat, i: nat)
    requires i < n
    ensures PreviousIndex(n, NextIndex(n, i)) == i
  {
  }

  /** Next undoes previous. */
  lemma NextAfterPrevious(n: nat, i: nat)
    requires i < n
    ensures NextIndex(n, PreviousIndex(n, i)) == i
  {
  }

  /** `k` moves forward. */
  function Advance(n: nat, i: nat, k: nat): (j: nat)
    requires n > 0 && i < n
    ensures j < n
    decreases k
  {
    if k == 0 then i else Advance(n, NextIndex(n, i), k - 1)
  }

  /** Up to a full round, `k` moves forward land `k` places further, wrapping once past the end. */
  lemma {:induction false} AdvanceWraps(n: nat, i: nat, k: nat)
    requires i < n && k <= n
    ensures Advance(n, i, k) == (if i + k < n then i + k else i + k - n)
    decreases k
  {
    if k > 0 {
      AdvanceWraps(n, NextIndex(n, i), k - 1);
    }
  }

  /** Starting from `i`, testimonial `j` is shown after fewer than `n` moves forward. */
  predicate ReachedWithinRound(n: nat, i: nat, j: nat)
    requires i < n
  {
    exists k | 0 <= k < n :: Advance(n, i, k) == j
  }

  /** Autoplay shows every testimonial within one round, and a full round comes back to the start. */
  lemma FullRound(n: nat, i: nat)
    requires i < n
    ensures Advance(n, i, n) == i
    ensures forall j | 0 <= j < n :: ReachedWithinRound(n, i, j)
  {
    AdvanceWraps(n, i, n);
    forall j | 0 <= j < n ensures ReachedWithinRound(n, i, j) {
      var k := if i <= j then j - i else j + n - i;
      AdvanceWraps(n, i, k);
      assert Advance(n, i, k) == j;
    }
  }

  /** The dot of index `d` is highlighted when it is the current testimonial. */
  predicate DotActive(d: nat, currentIndex: nat) {
    d == currentIndex
  }

  /** With a valid index exactly one dot is highlighted: the current one. */
  lemma ExactlyOneActiveDot(n: nat, currentIndex: nat)
    requires currentIndex < n
    ensures exists d | 0 <= d < n :: DotActive(d, currentIndex)
    ensures forall d, e | 0 <= d < n && 0 <= e < n && DotActive(d, currentIndex) && DotActive(e, currentIndex) :: d == e
  {
    assert DotActive(currentIndex, currentIndex);
  }

  class Carousel {
    var currentIndex: nat
    var isAutoPlaying: bool

    /** The index always names a testimonial. */
    predicate Valid()
      reads this
    {
      currentIndex < TestimonialCount
    }

    /** The first testimonial, with autoplay on. */
    constructor ()
      ensures Valid()
      ensures currentIndex == 0 && isAutoPlaying
    {
      currentIndex := 0;
      isAutoPlaying := true;
    }

    /** The autoplay interval firing: it runs only while autoplay is on, and moves forward. */
    method Tick()
      requires Valid()
      modifies this
      ensures Valid()
      ensures currentIndex == (if old(isAutoPlaying) then NextIndex(TestimonialCount, old(currentIndex)) else old(currentIndex))
      ensures isAutoPlaying == old(isAutoPlaying)
    {
      if isAutoPlaying {
        currentIndex := (currentIndex + 1) % TestimonialCount;
      }
    }

    /** `handlePrevious`: one back, and autoplay pauses. */
    method Previous()
      requires Valid()
      modifies this
      ensures Valid()
      ensures currentIndex == PreviousIndex(TestimonialCount, old(currentIndex))
      ensures !isAutoPlaying
    {
      currentIndex := (currentIndex - 1 + TestimonialCount) % TestimonialCount;
      isAutoPlaying := false;
    }

    /** `handleNext`: one forward, and autoplay pauses. */
    method Next()
      requires Valid()
      modifies this
      ensures Valid()
      ensures currentIndex == NextIndex(TestimonialCount, old(currentIndex))
      ensures !isAutoPlaying
    {
      currentIndex := (currentIndex + 1) % TestimonialCount;
      isAutoPlaying := false;
    }

    /** `handleDotClick`: jumps to the dot's testimonial, and autoplay pauses. */
    method DotClick(index: nat)
      requires index < TestimonialCount
      modifies this
      ensures Valid()
      ensures currentIndex == index && DotActive(index, currentIndex)
      ensures !isAutoPlaying
    {
      currentIndex := index;
      isAutoPlaying := false;
    }

    /** The ten-second timeout after a navigation: autoplay resumes. */
    method Resume()
      modifies this
      ensures isAutoPlaying
      ensures currentIndex == old(currentIndex)
    {
      isAutoPlaying := true;
    }

    /** The pointer enters the section: autoplay stops. */
    method MouseEnter()
      modifies this
      ensures !isAutoPlaying
      ensures currentIndex == old(currentIndex)
    {
      isAutoPlaying := false;
    }

    /** The pointer leaves the section: autoplay starts. */
    method MouseLeave()
      modifies this
      ensures isAutoPlaying
      ensures currentIndex == old(currentIndex)
    {
      isAutoPlaying := true;
    }
  }

  /** Pressing next and then previous shows the testimonial shown before, whatever it was. */
  method NextThenPrevious(start: nat) returns (before: nat, after: nat, autoplay: bool)
    requires start < TestimonialCount
    ensures after == before == start
    ensures !autoplay
  {
    var c := new Carousel();
    c.DotClick(start);
    before := c.currentIndex;
    c.Next();
    c.Previous();
    PreviousAfterNext(TestimonialCount, start);
    after := c.currentIndex;
    autoplay := c.isAutoPlaying;
  }
}
