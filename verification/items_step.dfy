/**
 * The item-selection screen (extensions/refund-portal/src/SelectRefundItems.jsx):
 * which items are offered, how each card shows its checkbox, and when the
 * Next button is enabled.
 */
module ItemsStep {
  import opened Wrappers
  import opened Seqs
  import opened Orders
  import opened Selection

  /** A line-item card with the state of its checkbox. */
  datatype Card = Card(item: LineItem, selected: bool)

  /** Either the "everything already refunded or pending" notice, or the cards and a Next button. */
  datatype ItemsBody =
    | AllRefundedNotice
    | ItemChoices(cards: seq<Card>, nextDisabled: bool)

  /** The screen: an optional error banner above the body. */
  datatype ItemsView = ItemsView(errorBanner: Option<string>, body: ItemsBody)

  /** The card for `item`: checked when its flag is `true` (`selectedItems[item.id] || false`). */
  function CardFor(item: LineItem, sel: seq<Entry<string>>): Card
  {
    Card(item, Lookup(sel, item.id) == Some(true))
  }

  /** What the item-selection screen shows for the loaded data and the current selection. */
  function SelectItemsView(
    lineItems: seq<LineItem>,
    rets: seq<Return>,
    sel: seq<Entry<string>>,
    submitError: Option<string>): (v: ItemsView)
    ensures v.errorBanner.Some? <==> submitError.Some? && submitError.value != ""
    ensures v.errorBanner.Some? ==> v.errorBanner == submitError
    ensures v.body.AllRefundedNotice? <==>
      forall item :: item in lineItems ==>
        item.refundableQuantity <= 0 || (item.id != "" && HasReturnEntry(rets, item.id))
    ensures v.body.ItemChoices? ==>
      var offered := RefundableItems(lineItems, rets);
      && |v.body.cards| == |offered|
      && forall i :: 0 <= i < |offered| ==>
           && v.body.cards[i].item == offered[i]
           && (v.body.cards[i].selected <==> Lookup(sel, offered[i].id) == Some(true))
    ensures v.body.ItemChoices? ==> (v.body.nextDisabled <==> SelectedIds(sel) == [])
  {
    var banner := if submitError.Some? && submitError.value != "" then submitError else None;
    var offered := RefundableItems(lineItems, rets);
    if |offered| == 0 then
      ItemsView(banner, AllRefundedNotice)
    else
      HasSelectedIffSelectedIds(sel);
      var cards := seq(|offered|, i requires 0 <= i < |offered| => CardFor(offered[i], sel));
      ItemsView(banner, ItemChoices(cards, !HasSelectedItems(sel)))
  }

  /** With distinct keys, a card is checked exactly when its id is among the selected ids. */
  lemma CardSelectedIffSelectedId(sel: seq<Entry<string>>, item: LineItem)
    requires DistinctIds(sel)
    ensures CardFor(item, sel).selected <==> item.id in SelectedIds(sel)
  {
    LookupDistinct(sel, item.id, true);
  }
}
