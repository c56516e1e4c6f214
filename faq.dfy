/**
 * The accordion of `FAQManager` (script.js:498-530). Each `.faq-item` is a
 * `<details>` element; the array holds their `open` flags in document order.
 * A click runs `toggleItem`; the `toggle` event that the element then
 * dispatches runs the closing handler, modelled as an explicit call.
 */
module Faq {

  /** At most one item is open. */
  predicate AtMostOneOpen(open: seq<bool>)
  {
    forall a, b :: 0 <= a < |open| && 0 <= b < |open| && open[a] && open[b] ==> a == b
  }

  /**
   * The `toggle` handler of item `k`: when `k` is open, every other open item
   * is closed; otherwise nothing changes.
   */
  function CloseOthers(open: seq<bool>, k: nat): (r: seq<bool>)
    requires k < |open|
    ensures |r| == |open|
    ensures open[k] ==> forall j :: 0 <= j < |r| ==> (r[j] <==> j == k)
    ensures !open[k] ==> r == open
  {
    seq(|open|, j requires 0 <= j < |open| => if open[k] && j != k && open[j] then false else open[j])
  }

  /** A click on item `k` negates its `open` flag, then its `toggle` event runs. */
  function Click(open: seq<bool>, k: nat): (r: seq<bool>)
    requires k < |open|
    ensures |r| == |open|
    ensures r[k] == !open[k]
  {
    CloseOthers(open[k := !open[k]], k)
  }

  /**
   * Clicks keep the accordion exclusive: opening an item leaves it the only
   * open one, and closing an item leaves the others as they were.
   */
  lemma ClickKeepsAtMostOneOpen(open: seq<bool>, k: nat)
    requires k < |open|
    ensures !open[k] ==> forall j :: 0 <= j < |open| ==> (Click(open, k)[j] <==> j == k)
    ensures open[k] ==> Click(open, k) == open[k := false]
    ensures AtMostOneOpen(open) ==> AtMostOneOpen(Click(open, k))
  {
  }

  /** The `toggle` events of the items closed by the handler change nothing further. */
  lemma ClosedItemsEventsAreNoOps(open: seq<bool>, k: nat, j: nat)
    requires k < |open| && j < |open| && j != k && open[k] && open[j]
    ensures var r := CloseOthers(open, k);
            CloseOthers(r, j) == r
  {
  }

  class FAQManager {
    /** The `open` flag of each `.faq-item`, in document order. */
    const items: array<bool>

    constructor (open0: seq<bool>)
      ensures fresh(items) && items[..] == open0
    {
      items := new bool[|open0|](i requires 0 <= i < |open0| => open0[i]);
    }

    /** `toggleItem`: the summary's click handler negates `open`. */
    method ToggleItem(k: nat)
      requires k < items.Length
      modifies items
      ensures items[..] == old(items[..])[k := !old(items[k])]
    {
      items[k] := !items[k];
    }

    /** The `toggle` listener of item `k`: when it is open, close every other open item. */
    method OnToggle(k: nat)
      requires k < items.Length
      modifies items
      ensures items[..] == CloseOthers(old(items[..]), k)
    {
      if items[k] {
        var i := 0;
        while i < items.Length
          invariant 0 <= i <= items.Length
          invariant items[k]
          invariant forall j :: 0 <= j < i ==> items[j] == (j == k)
          invariant forall j :: i <= j < items.Length ==> items[j] == old(items[j])
        {
          if i != k && items[i] {
            items[i] := false;
          }
          i := i + 1;
        }
      }
    }

    /** A click on item `k` followed by the `toggle` event it causes. */
    method OnClick(k: nat)
      requires k < items.Length
      modifies items
      ensures items[..] == Click(old(items[..]), k)
      ensures items[k] == !old(items[k])
      ensures AtMostOneOpen(old(items[..])) ==> AtMostOneOpen(items[..])
    {
      ToggleItem(k);
      OnToggle(k);
      ClickKeepsAtMostOneOpen(old(items[..]), k);
    }
  }
}
