/**
 * Submitting a refund request (`handleRefundTypeSubmit` in
 * extensions/refund-portal/src/RefundPortal.jsx): the selected ids are
 * resolved against the loaded order, one semicolon-delimited record is built,
 * and it is appended to the customer's stored list of records.
 *
 * The remote API is not modelled: its answers are inputs (`Remote`), the
 * requests the code would send are outputs (`Call`), and JSON encoding and
 * decoding are function parameters.
 */
module Submission {
  import opened Wrappers
  import opened Seqs
  import opened Orders
  import opened Selection

  /** An element of `selectedItemsData`. */
  datatype RequestedItem = RequestedItem(variantId: Option<string>, productName: string)

  /**
   * The two submit buttons of the `RefundSurvey` step (RefundPortal.jsx lines
   * 435 and 444) and the label each passes as `refundType`.
   */
  datatype RefundType = StoreCredit | Refund {
    function Label(): string
    {
      match this
      case StoreCredit => "Store Credit"
      case Refund => "Refund"
    }
  }

  /** The message left in `submitError` when a submission stops. */
  datatype SubmitError =
    | SelectItemsError                 // translation key selectItemsError
    | CustomerIdUnavailable            // "Unable to get customer ID"
    | StoredRequestsUnreadable         // JSON.parse of the stored value threw
    | ServerMessage(message: string)   // first GraphQL error or user error
    | GenericSubmitError               // translation key submitError, for an empty message

  /** A request sent to the Customer Account API. */
  datatype Call =
    | ReadRefundRequests
    | WriteRefundRequests(ownerId: string, requests: seq<string>)

  /** The answer to the metafield read: GraphQL errors, or the stored value if any. */
  datatype ReadResponse = ReadFailed(message: string) | ReadOk(value: Option<string>)

  /** The answer to the `metafieldsSet` mutation. */
  datatype WriteResponse =
    | WriteFailed(message: string)     // top-level GraphQL errors
    | WriteRejected(message: string)   // userErrors
    | WriteOk

  /** Everything the submission learns from outside: the signed-in customer and the API's answers. */
  datatype Remote = Remote(customerId: Option<string>, read: ReadResponse, write: WriteResponse)

  /**
   * The effect of one submission: the requests sent, whether `submitting` was
   * raised (it is always lowered again by `finally`), whether `submitted` was
   * set, and the final `submitError`.
   */
  datatype Outcome = Outcome(
    calls: seq<Call>,
    raisedSubmitting: bool,
    submitted: bool,
    submitError: Option<SubmitError>)

  /** `lineItems.find(({ node }) => node.id === lineItemId)`: the first line item with that id. */
  function FindLineItem(items: seq<LineItem>, id: string): (r: Option<LineItem>)
    ensures r.None? <==> forall i :: 0 <= i < |items| ==> items[i].id != id
    ensures r.Some? ==>
      exists i :: 0 <= i < |items| && items[i] == r.value && items[i].id == id
        && forall j :: 0 <= j < i ==> items[j].id != id
    decreases |items|
  {
    if |items| == 0 then None
    else if items[0].id == id then Some(items[0])
    else
      var r := FindLineItem(items[1..], id);
      assert forall j :: 1 <= j < |items| ==> items[j] == items[1..][j - 1];
      if r.Some? then
        var i :| 0 <= i < |items[1..]| && items[1..][i] == r.value && items[1..][i].id == id
          && forall j :: 0 <= j < i ==> items[1..][j].id != id;
        assert items[i + 1] == r.value;
        r
      else r
  }

  /** The record of one line item: its title, and its variant id unless that is missing or empty. */
  function Describe(item: LineItem): (r: RequestedItem)
    ensures r.productName == item.title
    ensures r.variantId.None? <==> item.variantId.None? || item.variantId.value == ""
    ensures r.variantId.Some? ==> r.variantId == item.variantId
  {
    RequestedItem(
      if item.variantId.Some? && item.variantId.value != "" then item.variantId else None,
      item.title)
  }

  /** `selectedItemsData`: the selected ids resolved against the line items; unmatched ids are dropped. */
  function ResolveSelected(ids: seq<string>, items: seq<LineItem>): (r: seq<RequestedItem>)
    ensures |r| <= |ids|
    ensures forall i :: 0 <= i < |ids| && FindLineItem(items, ids[i]).Some? ==>
      Describe(FindLineItem(items, ids[i]).value) in r
    decreases |ids|
  {
    if |ids| == 0 then []
    else
      var rest := ResolveSelected(ids[1..], items);
      assert forall i :: 1 <= i < |ids| ==> ids[i] == ids[1..][i - 1];
      match FindLineItem(items, ids[0])
      case None => rest
      case Some(item) => [Describe(item)] + rest
  }

  /** Every resolved entry describes some loaded line item. */
  lemma {:induction false} ResolvedItemsComeFromOrder(ids: seq<string>, items: seq<LineItem>)
    ensures forall k :: 0 <= k < |ResolveSelected(ids, items)| ==>
      exists i :: 0 <= i < |items| && ResolveSelected(ids, items)[k] == Describe(items[i])
    decreases |ids|
  {
    if |ids| > 0 {
      ResolvedItemsComeFromOrder(ids[1..], items);
      var r := ResolveSelected(ids, items);
      var rest := ResolveSelected(ids[1..], items);
      match FindLineItem(items, ids[0])
      case None =>
        assert r == rest;
      case Some(item) =>
        assert r == [Describe(item)] + rest;
        forall k | 0 <= k < |r|
          ensures exists i :: 0 <= i < |items| && r[k] == Describe(items[i])
        {
          if k == 0 {
            var i :| 0 <= i < |items| && items[i] == item && items[i].id == ids[0]
              && forall j :: 0 <= j < i ==> items[j].id != ids[0];
            assert r[0] == Describe(items[i]);
          } else {
            assert r[k] == rest[k - 1];
          }
        }
    } else {
      assert ResolveSelected(ids, items) == [];
    }
  }

  /** No id is dropped exactly when every selected id names a loaded line item. */
  lemma {:induction false} ResolveSelectedKeepsAll(ids: seq<string>, items: seq<LineItem>)
    ensures |ResolveSelected(ids, items)| == |ids| <==>
      forall i :: 0 <= i < |ids| ==> FindLineItem(items, ids[i]).Some?
    decreases |ids|
  {
    if |ids| > 0 {
      ResolveSelectedKeepsAll(ids[1..], items);
      assert forall i :: 1 <= i < |ids| ==> ids[i] == ids[1..][i - 1];
    }
  }

  /** Resolution works id by id, so it keeps the order of the selected ids. */
  lemma {:induction false} ResolveSelectedAppend(a: seq<string>, b: seq<string>, items: seq<LineItem>)
    ensures ResolveSelected(a + b, items) == ResolveSelected(a, items) + ResolveSelected(b, items)
    decreases |a|
  {
    if |a| > 0 {
      ResolveSelectedAppend(a[1..], b, items);
      assert (a + b)[1..] == a[1..] + b;
      assert (a + b)[0] == a[0];
    } else {
      assert a + b == b;
    }
  }

  /** `orderData.value?.lineItems?.edges || []`. */
  function LoadedLineItems(order: Option<Order>): (r: seq<LineItem>)
    ensures order.None? ==> r == []
    ensures order.Some? ==> r == order.value.lineItems
  {
    if order.Some? then order.value.lineItems else []
  }

  /** The new stored record: `${orderId};${refundType};${items}`. */
  function RequestEntry(orderId: string, refundType: string, items: string): string
  {
    orderId + ";" + refundType + ";" + items
  }

  /** The position of the first `c` in `s`. */
  function IndexOf(s: string, c: char): (r: Option<nat>)
    ensures r.None? <==> c !in s
    ensures r.Some? ==> r.value < |s| && s[r.value] == c && c !in s[..r.value]
    decreases |s|
  {
    if |s| == 0 then None
    else if s[0] == c then Some(0)
    else
      match IndexOf(s[1..], c)
      case None => None
      case Some(i) => Some(i + 1)
  }

  /** Splits a record at its first two semicolons into order id, refund type and items text. */
  function ParseRequestEntry(s: string): Option<(string, string, string)>
  {
    match IndexOf(s, ';')
    case None => None
    case Some(i) =>
      var tail := s[i + 1..];
      match IndexOf(tail, ';')
      case None => None
      case Some(j) => Some((s[..i], tail[..j], tail[j + 1..]))
  }

  /**
   * A record can be split back into its fields as long as the order id and the
   * refund type contain no semicolon; the items text may contain any.
   */
  lemma RequestEntryRoundTrip(orderId: string, refundType: string, items: string)
    requires ';' !in orderId && ';' !in refundType
    ensures ParseRequestEntry(RequestEntry(orderId, refundType, items)) == Some((orderId, refundType, items))
  {
    var tail := refundType + [';'] + items;
    var s := orderId + [';'] + tail;
    assert RequestEntry(orderId, refundType, items) == s;
    IndexOfAfter(orderId, tail, ';');
    assert s[|orderId| + 1..] == tail;
    assert s[..|orderId|] == orderId;
    IndexOfAfter(refundType, items, ';');
    assert tail[..|refundType|] == refundType;
    assert tail[|refundType| + 1..] == items;
  }

  /** The first `c` of `a + [c] + b` is the one after `a` when `a` has none. */
  lemma {:induction false} IndexOfAfter(a: string, b: string, c: char)
    requires c !in a
    ensures IndexOf(a + [c] + b, c) == Some(|a|)
    decreases |a|
  {
    if |a| > 0 {
      IndexOfAfter(a[1..], b, c);
      assert (a + [c] + b)[1..] == a[1..] + [c] + b;
    }
  }

  /** `orderId.split("/").pop()`: the text after the last slash, or all of it when there is none. */
  function LastPathSegment(s: string): (r: string)
    ensures '/' !in r
    ensures |r| <= |s| && r == s[|s| - |r|..]
    ensures |r| == |s| || s[|s| - |r| - 1] == '/'
    decreases |s|
  {
    if |s| == 0 then ""
    else if s[|s| - 1] == '/' then ""
    else
      var init := s[..|s| - 1];
      var r := LastPathSegment(init);
      assert s == init + [s[|s| - 1]];
      r + [s[|s| - 1]]
  }

  /** The segment after a final slash is recovered exactly, whatever precedes it. */
  lemma {:induction false} LastPathSegmentOf(prefix: string, tail: string)
    requires '/' !in tail
    ensures LastPathSegment(prefix + "/" + tail) == tail
    decreases |tail|
  {
    var s := prefix + "/" + tail;
    if |tail| == 0 {
      assert s[|s| - 1] == '/';
    } else {
      var init := tail[..|tail| - 1];
      assert s[..|s| - 1] == prefix + "/" + init;
      assert '/' !in init by {
        assert forall k :: 0 <= k < |init| ==> init[k] == tail[k];
      }
      LastPathSegmentOf(prefix, init);
      assert tail == init + [tail[|tail| - 1]];
    }
  }

  /** The customer GID passed as the metafield owner. */
  function CustomerGid(customerId: string): string
  {
    "gid://shopify/Customer/" + customerId
  }

  /** The customer id can be read back from the GID built from it. */
  lemma CustomerGidTail(customerId: string)
    requires '/' !in customerId
    ensures LastPathSegment(CustomerGid(customerId)) == customerId
  {
    assert CustomerGid(customerId) == "gid://shopify/Customer" + "/" + customerId;
    LastPathSegmentOf("gid://shopify/Customer", customerId);
  }

  /** The stored records: nothing (or an empty value) reads as `[]`; `None` when decoding throws. */
  function PriorRequests(value: Option<string>, parse: string -> Option<seq<string>>): (r: Option<seq<string>>)
    ensures value.GetOr("") == "" ==> r == Some([])
    ensures value.GetOr("") != "" ==> r == parse(value.value)
  {
    if value.None? || value.value == "" then Some([]) else parse(value.value)
  }

  /** `err.message || translate("submitError")`. */
  function ErrorFromMessage(message: string): (e: SubmitError)
    ensures e.ServerMessage? || e.GenericSubmitError?
    ensures e.GenericSubmitError? <==> |message| == 0
    ensures e.ServerMessage? ==> e.message == message
  {
    if message == "" then GenericSubmitError else ServerMessage(message)
  }

  /** The signed-in customer's id is usable: present and non-empty. */
  function HasCustomerId(remote: Remote): (b: bool)
    ensures b <==> |remote.customerId.GetOr("")| > 0
  {
    remote.customerId.Some? && remote.customerId.value != ""
  }

  /** `handleRefundTypeSubmit(refundType)` for the current selection and loaded order. */
  function Submit(
    orderId: string,
    order: Option<Order>,
    sel: seq<Entry<string>>,
    refundType: RefundType,
    remote: Remote,
    parse: string -> Option<seq<string>>,
    serialize: seq<RequestedItem> -> string): (o: Outcome)
    // An empty selection is rejected before anything else happens.
    ensures !HasSelectedItems(sel) <==> o.submitError == Some(SelectItemsError)
    ensures !HasSelectedItems(sel) ==> o.calls == [] && !o.raisedSubmitting && !o.submitted
    // Otherwise the attempt is under way, and ends either submitted or with an error.
    ensures HasSelectedItems(sel) ==> o.raisedSubmitting
    ensures o.submitted <==> o.submitError.None?
    ensures o.submitted <==>
      && HasSelectedItems(sel)
      && HasCustomerId(remote)
      && remote.read.ReadOk?
      && PriorRequests(remote.read.value, parse).Some?
      && remote.write == WriteOk
    // A missing customer id stops the attempt before any request.
    ensures HasSelectedItems(sel) && !HasCustomerId(remote) ==>
      o.calls == [] && o.submitError == Some(CustomerIdUnavailable)
    // Requests happen in order: read first, then at most one write.
    ensures |o.calls| <= 2
    ensures |o.calls| > 0 ==> o.calls[0] == ReadRefundRequests && HasCustomerId(remote)
    ensures forall k :: 0 <= k < |o.calls| ==> (o.calls[k].WriteRefundRequests? <==> k == 1)
    ensures remote.read.ReadFailed? ==> |o.calls| <= 1
    // With a selection and a customer id the read is always sent, and the write
    // is sent exactly when the stored records were read and decoded.
    ensures HasSelectedItems(sel) && HasCustomerId(remote) ==> |o.calls| >= 1
    ensures |o.calls| == 2 <==>
      && HasSelectedItems(sel)
      && HasCustomerId(remote)
      && remote.read.ReadOk?
      && PriorRequests(remote.read.value, parse).Some?
    // The error shown is the failing step's message, or the generic one when it is empty.
    ensures HasSelectedItems(sel) && HasCustomerId(remote) && remote.read.ReadFailed? ==>
      o.submitError == Some(ErrorFromMessage(remote.read.message))
    ensures (HasSelectedItems(sel) && HasCustomerId(remote) && remote.read.ReadOk?
             && PriorRequests(remote.read.value, parse).None?) ==>
      o.submitError == Some(StoredRequestsUnreadable)
    ensures |o.calls| == 2 && remote.write.WriteFailed? ==>
      o.submitError == Some(ErrorFromMessage(remote.write.message))
    ensures |o.calls| == 2 && remote.write.WriteRejected? ==>
      o.submitError == Some(ErrorFromMessage(remote.write.message))
    // The write stores the prior records followed by the one new record.
    ensures |o.calls| == 2 ==>
      var w := o.calls[1];
      && w.ownerId == CustomerGid(remote.customerId.value)
      && |w.requests| >= 1
      && remote.read.ReadOk?
      && PriorRequests(remote.read.value, parse) == Some(w.requests[..|w.requests| - 1])
      && w.requests[|w.requests| - 1] == RequestEntry(
           orderId,
           refundType.Label(),
           serialize(ResolveSelected(SelectedIds(sel), LoadedLineItems(order))))
    ensures |o.calls| == 2 && remote.read == ReadOk(None) ==> |o.calls[1].requests| == 1
  {
    HasSelectedIffSelectedIds(sel);
    var ids := SelectedIds(sel);
    if ids == [] then
      Outcome([], false, false, Some(SelectItemsError))
    else if !HasCustomerId(remote) then
      Outcome([], true, false, Some(CustomerIdUnavailable))
    else
      var data := ResolveSelected(ids, LoadedLineItems(order));
      var ownerId := CustomerGid(remote.customerId.value);
      match remote.read
      case ReadFailed(message) =>
        Outcome([ReadRefundRequests], true, false, Some(ErrorFromMessage(message)))
      case ReadOk(value) =>
        match PriorRequests(value, parse)
        case None =>
          Outcome([ReadRefundRequests], true, false, Some(StoredRequestsUnreadable))
        case Some(prior) =>
          var updated := prior + [RequestEntry(orderId, refundType.Label(), serialize(data))];
          assert updated[..|updated| - 1] == prior;
          var calls := [ReadRefundRequests, WriteRefundRequests(ownerId, updated)];
          match remote.write
          case WriteFailed(message) => Outcome(calls, true, false, Some(ErrorFromMessage(message)))
          case WriteRejected(message) => Outcome(calls, true, false, Some(ErrorFromMessage(message)))
          case WriteOk => Outcome(calls, true, true, None)
  }

  /** The submit buttons' `disabled`: while a submission runs or when no box is checked. */
  function SubmitDisabled(submitting: bool, sel: seq<Entry<string>>): (disabled: bool)
    ensures disabled <==> submitting || SelectedIds(sel) == []
  {
    HasSelectedIffSelectedIds(sel);
    submitting || !HasSelectedItems(sel)
  }

  /** The record a successful write appends splits back into the order id, refund type and items text. */
  lemma WrittenRecordParses(
    orderId: string,
    order: Option<Order>,
    sel: seq<Entry<string>>,
    refundType: RefundType,
    remote: Remote,
    parse: string -> Option<seq<string>>,
    serialize: seq<RequestedItem> -> string)
    requires ';' !in orderId
    requires |Submit(orderId, order, sel, refundType, remote, parse, serialize).calls| == 2
    ensures
      var w := Submit(orderId, order, sel, refundType, remote, parse, serialize).calls[1];
      ParseRequestEntry(w.requests[|w.requests| - 1]) == Some((
        orderId,
        refundType.Label(),
        serialize(ResolveSelected(SelectedIds(sel), LoadedLineItems(order)))))
  {
    RequestEntryRoundTrip(orderId, refundType.Label(),
      serialize(ResolveSelected(SelectedIds(sel), LoadedLineItems(order))));
  }
}
