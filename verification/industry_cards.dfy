/**
 * The expandable industry cards of initIndustryCards in
 * assets/js/main.js: each `.industry-expand-card` flips its own `is-open`
 * class when clicked, independently of the others.
 */
module IndustryCards {

  /** Card `k` is flipped; every other card keeps its state. */
  function Flipped(open: seq<bool>, k: nat): (r: seq<bool>)
    requires k < |open|
    ensures |r| == |open|
    ensures r[k] == !open[k]
    ensures forall i | 0 <= i < |open| && i != k :: r[i] == open[i]
  {
    open[k := !open[k]]
  }

  /** Two clicks on the same card change nothing. */
  lemma FlipTwice(open: seq<bool>, k: nat)
    requires k < |open|
    ensures Flipped(Flipped(open, k), k) == open
  {
    assert Flipped(Flipped(open, k), k) == open[k := open[k]];
  }

  /** Cards do not interact: clicks on two cards give the same page in either order, and several may be open at once. */
  lemma FlipsCommute(open: seq<bool>, j: nat, k: nat)
    requires j < |open| && k < |open|
    ensures Flipped(Flipped(open, j), k) == Flipped(Flipped(open, k), j)
  {
  }

  /** Starting from all closed, clicking two different cards leaves both open. */
  lemma TwoCardsOpen(n: nat, j: nat, k: nat)
    requires j < n && k < n && j != k
    ensures var r := Flipped(Flipped(seq(n, _ => false), j), k);
      r[j] && r[k]
  {
  }

  /** The cards on one page. */
  class Cards {
    var open: seq<bool>

    /** No card is open when the page loads. */
    constructor (n: nat)
      ensures open == seq(n, _ => false)
    {
      open := seq(n, _ => false);
    }

    /** Card `k`'s click listener. */
    method Click(k: nat)
      requires k < |open|
      modifies this
      ensures open == Flipped(old(open), k)
    {
      open := open[k := !open[k]];
    }
  }
}
