/**
  The accordion of `src/components/faq/FAQ.tsx`: one optional open item, which a click
  on an item opens, or closes when it was the open one.
*/
module Faq {
  import opened Wrappers

  /** The accordion lists six questions. */
  const ItemCount: nat := 6

  class Accordion {
    /** `openIndex`: the open item, or `None` for `null` when all are closed. */
    var openIndex: Option<nat>

    /** `isOpen` of the item at `index`. */
    predicate IsOpen(index: nat)
      reads this
    {
      openIndex == Some(index)
    }

    /** The open item, if any, is one of the questions. */
    predicate Valid()
      reads this
    {
      openIndex.Some? ==> openIndex.value < ItemCount
    }

    /** The first question starts open. */
    constructor ()
      ensures Valid()
      ensures IsOpen(0)
      ensures forall i | i != 0 :: !IsOpen(i)
    {
      openIndex := Some(0);
    }

    /**
      `toggleFAQ`: the clicked item opens exactly when it was closed, and every other
      item ends up closed.
    */
    method Toggle(index: nat)
      requires index < ItemCount
      requires Valid()
      modifies this
      ensures Valid()
      ensures IsOpen(index) <==> !old(IsOpen(index))
      ensures forall i | i != index :: !IsOpen(i)
    {
      if openIndex == Some(index) {
        openIndex := None;
      } else {
        openIndex := Some(index);
      }
    }
  }

  /** Whatever has happened before, at most one item is open. */
  lemma AtMostOneOpen(a: Accordion, i: nat, j: nat)
    requires a.IsOpen(i) && a.IsOpen(j)
    ensures i == j
  {
  }

  /**
    Clicking the same item twice closes it again when it started closed, and reopens it
    when it started open; the other items stay closed either way.
  */
  method ToggleTwice(a: Accordion, index: nat) returns (openBefore: bool, openAfter: bool)
    requires index < ItemCount && a.Valid()
    modifies a
    ensures openAfter == openBefore
    ensures forall i | i != index :: !a.IsOpen(i)
  {
    openBefore := a.IsOpen(index);
    a.Toggle(index);
    a.Toggle(index);
    openAfter := a.IsOpen(index);
  }
}
