/**
 * The order data the refund wizard reads: line items and the returns already
 * requested against them, and the filter that decides which line items may be
 * offered for a new refund (extensions/refund-portal/src/SelectRefundItems.jsx).
 */
module Orders {
  import opened Wrappers
  import opened Seqs

  /** One ordered product/variant line, as returned by the order query. */
  datatype LineItem = LineItem(
    id: string,
    title: string,
    variantId: Option<string>,
    variantTitle: Option<string>,
    quantity: int,
    refundableQuantity: int)

  /** An entry of a return; `lineItemId` is `None` when `lineItem` or its `id` is absent. */
  datatype ReturnLineItem = ReturnLineItem(lineItemId: Option<string>)

  /** A return; `returnLineItems` is `None` when the connection or its edges are absent. */
  datatype Return = Return(returnLineItems: Option<seq<ReturnLineItem>>)

  /** An order as the wizard loads it. */
  datatype Order = Order(id: string, name: string, lineItems: seq<LineItem>)

  /** The entries of a return; a missing collection contributes none (the `?.` chain). */
  function Entries(ret: Return): seq<ReturnLineItem>
  {
    ret.returnLineItems.GetOr([])
  }

  /** Some entry of `ret` names line item `id`. */
  ghost predicate ReturnRefers(ret: Return, id: string)
  {
    exists j :: 0 <= j < |Entries(ret)| && Entries(ret)[j].lineItemId == Some(id)
  }

  /** Some return of `rets` has an entry naming line item `id`. */
  ghost predicate HasReturnEntry(rets: seq<Return>, id: string)
  {
    exists k :: 0 <= k < |rets| && ReturnRefers(rets[k], id)
  }

  /** The non-empty line-item ids named by a list of return entries. */
  function EntryIds(entries: seq<ReturnLineItem>): (ids: set<string>)
    ensures forall id :: id in ids <==>
      id != "" && exists j :: 0 <= j < |entries| && entries[j].lineItemId == Some(id)
    decreases |entries|
  {
    if |entries| == 0 then {}
    else
      var rest := EntryIds(entries[1..]);
      assert forall j :: 1 <= j < |entries| ==> entries[j] == entries[1..][j - 1];
      match entries[0].lineItemId
      case Some(id) => if id != "" then {id} + rest else rest
      case None => rest
  }

  /**
   * The set built by the `returns.forEach` loop: every non-empty line-item id
   * referenced by an entry of some return.
   */
  function ReturnedLineItemIds(rets: seq<Return>): (ids: set<string>)
    ensures forall id :: id in ids <==> id != "" && HasReturnEntry(rets, id)
    decreases |rets|
  {
    if |rets| == 0 then {}
    else
      var rest := ReturnedLineItemIds(rets[1..]);
      assert forall k :: 1 <= k < |rets| ==> rets[k] == rets[1..][k - 1];
      EntryIds(Entries(rets[0])) + rest
  }

  /** The filter's test: something left to refund and no return already naming the item. */
  predicate Refundable(item: LineItem, returnedIds: set<string>)
  {
    item.refundableQuantity > 0 && item.id !in returnedIds
  }

  /**
   * `refundableItems`: the line items that may be selected for a new request,
   * in the order of `lineItems`.
   */
  function RefundableItems(lineItems: seq<LineItem>, rets: seq<Return>): (r: seq<LineItem>)
    ensures IsSubsequence(r, lineItems)
    ensures forall item :: item in r <==>
      item in lineItems
      && item.refundableQuantity > 0
      && !(item.id != "" && HasReturnEntry(rets, item.id))
    ensures forall item :: item in r ==> multiset(r)[item] == multiset(lineItems)[item]
  {
    var returnedIds := ReturnedLineItemIds(rets);
    Filter((item: LineItem) => Refundable(item, returnedIds), lineItems)
  }

  /** Filtering the refundable items a second time changes nothing. */
  lemma RefundableItemsIdempotent(lineItems: seq<LineItem>, rets: seq<Return>)
    ensures RefundableItems(RefundableItems(lineItems, rets), rets)
         == RefundableItems(lineItems, rets)
  {
    var once := RefundableItems(lineItems, rets);
    var twice := RefundableItems(once, rets);
    assert multiset(twice) == multiset(once) by {
      forall item
        ensures multiset(twice)[item] == multiset(once)[item]
      {
        if item in twice {
        } else if item in once {
          assert false;
        }
      }
    }
    assert |twice| == |once| by {
      assert |multiset(twice)| == |twice|;
      assert |multiset(once)| == |once|;
    }
    SubsequenceOfSameLength(twice, once);
  }
}
