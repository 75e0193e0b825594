/**
 * The FAQ accordion of initFAQ in assets/js/main.js.
 *
 * The page's `.faq-item` elements are numbered in document order. Each is
 * open or not (its `open` class), and its `.faq-answer` has an inline
 * max-height: never set, `0`, or the inner block's scroll height in pixels.
 * The inner block's scroll height is measured by the browser at click time
 * and is a parameter here.
 */
module Faq {

  /** The inline max-height of an answer. */
  datatype Height = Unset | Collapsed | Px(pixels: nat)

  /** No two items are open at once. */
  predicate AtMostOneOpen(open: seq<bool>) {
    forall i, j | 0 <= i < j < |open| :: !(open[i] && open[j])
  }

  /** Every open item shows its full height, and only open items do. */
  predicate HeightsAgree(open: seq<bool>, heights: seq<Height>) {
    |open| == |heights| && forall i | 0 <= i < |open| :: open[i] <==> heights[i].Px?
  }

  /**
   * Which items are open after a click on item `k`: every other item is
   * closed, and `k` itself is open exactly when it was closed before.
   */
  function AfterClick(open: seq<bool>, k: nat): (r: seq<bool>)
    requires k < |open|
    ensures |r| == |open|
    ensures r[k] == !open[k]
    ensures forall i | 0 <= i < |r| && i != k :: !r[i]
  {
    seq(|open|, i requires 0 <= i < |open| => i == k && !open[k])
  }

  /**
   * The max-heights after a click on item `k` that measured `inner`: the
   * item itself gets `inner` pixels when it opens and `0` when it closes;
   * every other item that was open gets `0`; the rest keep theirs.
   */
  function HeightsAfterClick(open: seq<bool>, heights: seq<Height>, k: nat, inner: nat): (r: seq<Height>)
    requires |open| == |heights| && k < |open|
    ensures |r| == |heights|
    ensures r[k] == if open[k] then Collapsed else Px(inner)
    ensures forall i | 0 <= i < |r| && i != k :: r[i] == if open[i] then Collapsed else heights[i]
  {
    seq(|heights|, i requires 0 <= i < |heights| =>
      if i == k then (if open[k] then Collapsed else Px(inner))
      else if open[i] then Collapsed
      else heights[i])
  }

  /** Every item a click closes gets the max-height `0`. */
  lemma ClosedItemsCollapse(open: seq<bool>, heights: seq<Height>, k: nat, inner: nat)
    requires |open| == |heights| && k < |open|
    ensures var o := AfterClick(open, k);
      var h := HeightsAfterClick(open, heights, k, inner);
      forall i | 0 <= i < |open| && open[i] && !o[i] :: h[i] == Collapsed
  {
  }

  /** Whatever was open before, a click leaves at most one item open. */
  lemma ClickLeavesAtMostOne(open: seq<bool>, k: nat)
    requires k < |open|
    ensures AtMostOneOpen(AfterClick(open, k))
  {
  }

  /** A click keeps every open item's height at its full height and every closed one's away from it. */
  lemma {:induction false} ClickKeepsHeightsAgreeing(open: seq<bool>, heights: seq<Height>, k: nat, inner: nat)
    requires HeightsAgree(open, heights) && k < |open|
    ensures HeightsAgree(AfterClick(open, k), HeightsAfterClick(open, heights, k, inner))
  {
    var o := AfterClick(open, k);
    var h := HeightsAfterClick(open, heights, k, inner);
    forall i | 0 <= i < |o|
      ensures o[i] <==> h[i].Px?
    {
      if i != k && !open[i] {
        assert h[i] == heights[i];
      }
    }
  }

  /** Clicking the open item closes it and leaves everything closed. */
  lemma ClickOpenClosesAll(open: seq<bool>, k: nat)
    requires k < |open| && open[k]
    ensures forall i | 0 <= i < |open| :: !AfterClick(open, k)[i]
  {
  }

  /** Opening a closed item and clicking its question again closes every item. */
  lemma {:induction false} ClickTwiceClosesAll(open: seq<bool>, k: nat)
    requires k < |open| && !open[k]
    ensures var twice := AfterClick(AfterClick(open, k), k);
      forall i | 0 <= i < |open| :: !twice[i]
  {
    var once := AfterClick(open, k);
    assert once[k];
  }

  /** Only the last click counts: after clicks on `j` and then on a different `k`, exactly `k` is open. */
  lemma {:induction false} LastClickWins(open: seq<bool>, j: nat, k: nat)
    requires j < |open| && k < |open| && j != k
    ensures var r := AfterClick(AfterClick(open, j), k);
      r[k] && forall i | 0 <= i < |r| && i != k :: !r[i]
  {
    var once := AfterClick(open, j);
    assert !once[k];
  }

  /** The accordion on one page. */
  class Accordion {
    /** Whether each item has the `open` class. */
    var open: seq<bool>
    /** The inline max-height of each item's answer. */
    var heights: seq<Height>

    ghost predicate Valid()
      reads this
    {
      |open| == |heights|
    }

    /** The page as loaded: items open as the markup says, no inline heights. */
    constructor (initial: seq<bool>)
      ensures Valid()
      ensures open == initial
      ensures heights == seq(|initial|, _ => Unset)
    {
      open := initial;
      heights := seq(|initial|, _ => Unset);
    }

    /**
     * The click listener of item `k`'s question: remember whether `k` was
     * open, close every other open item, then close `k` if it was open or
     * open it to `inner` pixels if it was not.
     */
    method Click(k: nat, inner: nat)
      requires Valid() && k < |open|
      modifies this
      ensures Valid()
      ensures open == AfterClick(old(open), k)
      ensures heights == HeightsAfterClick(old(open), old(heights), k, inner)
    {
      var wasOpen := open[k];
      var i := 0;
      while i < |open|
        invariant 0 <= i <= |open| && Valid() && |open| == |old(open)|
        invariant forall j | 0 <= j < |open| :: open[j] == if j < i && j != k then false else old(open)[j]
        invariant forall j | 0 <= j < |open| ::
          heights[j] == if j < i && j != k && old(open)[j] then Collapsed else old(heights)[j]
      {
        if open[i] && i != k {
          open := open[i := false];
          heights := heights[i := Collapsed];
        }
        i := i + 1;
      }
      if wasOpen {
        open := open[k := false];
        heights := heights[k := Collapsed];
      } else {
        open := open[k := true];
        heights := heights[k := Px(inner)];
      }
    }
  }
}
