# Refund portal: item filter, selection and request record

A Dafny model of the pure logic inside the customer-facing refund wizard of the
`refund-portal` storefront extension. The wizard lets a customer pick line items
of an order, choose a refund method, and stores a text record of the request in
a customer metafield. Everything around that logic is remote I/O or rendering.
The model keeps only the deterministic list, map and string work:

- `Orders`: line items, returns and their entries. It builds the set of line-item
  ids that already have a return (`returnedLineItemIds`). It also computes the
  order-preserving `refundableItems` filter.
- `Selection`: the checkbox object `{...prev, [id]: checked}`, modelled as an
  insertion-ordered association list. It also covers `selectedItemIds` and
  `hasSelectedItems`.
- `ItemsStep`: what the item-selection screen shows. That is either the "all
  items refunded or pending" notice, or one card per refundable item plus a Next
  button that is disabled when no box is checked.
- `Submission`: `handleRefundTypeSubmit` as a pure function.
  - Inputs: the selection, the loaded order and the remote answers (customer id,
    metafield read, metafield write). JSON decoding and encoding are function
    parameters (`parse`, `serialize`).
  - Output: the requests the code would send, whether `submitting` and
    `submitted` were set, and the final `submitError`.
  - Also here: resolution of selected ids to `{variantId, productName}`, the
    record `orderId;refundType;items`, and a parser for that record. The parser
    is the record's partner, so the two can be proved to round-trip.
  - The `split("/").pop()` tail of a GID and the customer GID are here too.
- `Seqs`, `Wrappers`: a generic subsequence predicate, an order-preserving
  `Filter`, and `Option`.

The model follows the code as written, which does less than a full refund flow might:

- The code's refundable filter checks only the refundable quantity and existing
  returns. It has no fulfilment test.
- The stored record carries no refund reason.
- No structured return mutation is issued.

JavaScript objects keep string keys in insertion order. `DistinctIds` states the
object invariant that every key occurs once. Lemmas that depend on it take it as
a precondition. `SetCheckedKeepsDistinct` and `ApplyChangesDistinct` show that
every object the wizard builds, starting from `{}` and changing one checkbox at
a time, meets it.

## Model

| member | source | states |
|---|---|---|
| `Orders.EntryIds` | extensions/refund-portal/src/SelectRefundItems.jsx:19-24 | an id is collected from one return exactly when some entry names it and it is non-empty; entries without a line item or id are skipped |
| `Orders.ReturnedLineItemIds` | extensions/refund-portal/src/SelectRefundItems.jsx:16-25 | the returned-id set contains exactly the non-empty ids named by an entry of some return |
| `Orders.RefundableItems` | extensions/refund-portal/src/SelectRefundItems.jsx:27-32 | the result is a subsequence of the line items (relative order kept). An item is in it iff it is a line item with refundable quantity > 0 and no return entry names its id. Every kept item keeps all its occurrences |
| `Orders.RefundableItemsIdempotent` | extensions/refund-portal/src/SelectRefundItems.jsx:28-32 | applying the filter to its own output changes nothing (completeness of the filter) |
| `Selection.Lookup` | extensions/refund-portal/src/SelectRefundItems.jsx:72 | `selectedItems[id]` is defined exactly for the object's keys, and the value found is one stored under that key |
| `Selection.LookupDistinct` | extensions/refund-portal/src/SelectRefundItems.jsx:72 | for an object with distinct keys, the lookup yields `b` exactly when the entry `(id, b)` is present |
| `Selection.SetChecked` | extensions/refund-portal/src/SelectRefundItems.jsx:9-14 | a checkbox change stores `checked` under the id. A new id is appended at the end with all earlier entries unchanged. An existing id keeps its position and the key order is unchanged |
| `Selection.SetCheckedOtherKeys` | extensions/refund-portal/src/RefundPortal.jsx:98-103 | a checkbox change leaves the flag of every other id as it was |
| `Selection.SetCheckedLastWins` | extensions/refund-portal/src/RefundPortal.jsx:98-103 | two changes of the same checkbox leave the object as the second change alone would |
| `Selection.SetCheckedKeepsDistinct` | extensions/refund-portal/src/RefundPortal.jsx:98-103 | a checkbox change applied to an object whose keys are distinct leaves its keys distinct |
| `Selection.ApplyChanges` | extensions/refund-portal/src/RefundPortal.jsx:25 | the object after a series of changes starting from `useState({})` has a key for every changed id, and the last change's flag is stored under its id |
| `Selection.ApplyChangesOnlyChanged` | extensions/refund-portal/src/RefundPortal.jsx:25 | after a series of changes starting from `{}`, every key is an id that some change named |
| `Selection.ApplyChangesLatest` | extensions/refund-portal/src/RefundPortal.jsx:98-103 | after a series of changes starting from `{}`, each changed id holds the flag of its own latest change |
| `Selection.DistinctIdsAgree` | extensions/refund-portal/src/RefundPortal.jsx:98-103 | the object's keys are distinct exactly when the key list has no duplicates |
| `Selection.ApplyChangesDistinct` | extensions/refund-portal/src/RefundPortal.jsx:25 | every object reachable from `{}` through checkbox changes has distinct keys, so the distinct-key lemmas apply to it |
| `Selection.SelectedIds` | extensions/refund-portal/src/RefundPortal.jsx:108-110 | the selected ids are a subsequence of the keys in key order, contain exactly the ids whose flag is `true` (ids set to `false` are excluded), and have no duplicates when the keys are distinct |
| `Selection.SelectedIdsAppend` | extensions/refund-portal/src/RefundPortal.jsx:108-110 | extraction works entry by entry, so the ids of a concatenation are the concatenation of the ids |
| `Selection.HasSelectedItems` | extensions/refund-portal/src/SelectRefundItems.jsx:38 | `hasSelectedItems` holds exactly when some value of the object is `true` |
| `Selection.HasSelectedIffSelectedIds` | extensions/refund-portal/src/RefundPortal.jsx:314 | `hasSelectedItems` holds exactly when `selectedItemIds` is non-empty |
| `Selection.CheckNewId` | extensions/refund-portal/src/RefundPortal.jsx:98-110 | checking a box whose id is not yet a key appends that id at the end of the selected ids |
| `Selection.UncheckRemoves` | extensions/refund-portal/src/RefundPortal.jsx:98-110 | for an object with distinct keys, unchecking a box removes exactly that id from the selected ids and keeps the others in order |
| `ItemsStep.SelectItemsView` | extensions/refund-portal/src/SelectRefundItems.jsx:38-90 | the "all refunded or pending" notice is shown exactly when no line item passes the refundable filter. Otherwise there is one card per refundable item in order, checked iff its flag is `true`, and Next is disabled exactly when no id is selected. The error banner appears iff `submitError` is non-empty |
| `ItemsStep.CardSelectedIffSelectedId` | extensions/refund-portal/src/SelectRefundItems.jsx:72 | with distinct keys, a card is checked exactly when its item's id is among the selected ids |
| `Submission.FindLineItem` | extensions/refund-portal/src/RefundPortal.jsx:123 | `find` returns nothing exactly when no line item has the id; otherwise it returns the first line item with that id |
| `Submission.ResolveSelected` | extensions/refund-portal/src/RefundPortal.jsx:119-131 | `selectedItemsData` has at most one entry per selected id, and every selected id that matches a line item contributes that item's variant id (null when missing or empty) and title |
| `Submission.ResolvedItemsComeFromOrder` | extensions/refund-portal/src/RefundPortal.jsx:124-129 | every resolved entry describes some loaded line item (its title as `productName`, `variantId` null when missing or empty) |
| `Submission.ResolveSelectedKeepsAll` | extensions/refund-portal/src/RefundPortal.jsx:121-131 | no selected id is dropped exactly when every selected id matches a loaded line item; unmatched ids are silently dropped |
| `Submission.ResolveSelectedAppend` | extensions/refund-portal/src/RefundPortal.jsx:121-131 | resolution distributes over concatenation of the id list, so entries come in `selectedItemIds` order |
| `Submission.RequestEntryRoundTrip` | extensions/refund-portal/src/RefundPortal.jsx:192-193 | the record `orderId;refundType;items` splits back into its three fields whenever order id and refund type contain no `;` (the items text may) |
| `Submission.LastPathSegment` | extensions/refund-portal/src/RefundPortal.jsx:186-187 | `orderNumericId` is a suffix of the order id, contains no `/`, and is preceded by a `/` unless it is the whole id |
| `Submission.LastPathSegmentOf` | extensions/refund-portal/src/RefundPortal.jsx:186-187 | for `prefix + "/" + n` with no `/` in `n`, the numeric tail is exactly `n` |
| `Submission.CustomerGidTail` | extensions/refund-portal/src/RefundPortal.jsx:176-177 | the customer GID is `gid://shopify/Customer/` followed by the id, and for an id without `/` (the source expects a numeric id) its tail gives the id back |
| `Submission.Describe` | extensions/refund-portal/src/RefundPortal.jsx:126-129 | an entry's `productName` is the item's title, and its `variantId` is null exactly when the item's variant id is missing or empty, otherwise that id |
| `Submission.LoadedLineItems` | extensions/refund-portal/src/RefundPortal.jsx:120 | the line items searched are the loaded order's, or none when no order is loaded |
| `Submission.PriorRequests` | extensions/refund-portal/src/RefundPortal.jsx:164-165 | a missing or empty stored value reads as the empty list; any other value is whatever decoding it gives |
| `Submission.ErrorFromMessage` | extensions/refund-portal/src/RefundPortal.jsx:266 | the error shown is the thrown message itself, and the generic submit error exactly when that message is empty |
| `Submission.HasCustomerId` | extensions/refund-portal/src/RefundPortal.jsx:182-184 | the attempt may proceed exactly when the customer id is present and non-empty |
| `Submission.Submit` | extensions/refund-portal/src/RefundPortal.jsx:105-270 | see the list below this table |
| `Submission.WrittenRecordParses` | extensions/refund-portal/src/RefundPortal.jsx:190-196 | when the order id contains no `;`, the record appended by a write splits back into the order id, the refund-type label and the serialised resolved items |
| `Submission.SubmitDisabled` | extensions/refund-portal/src/RefundPortal.jsx:436-445 | the submit buttons are disabled exactly while submitting or when `selectedItemIds` would be empty |

`Submission.Submit` states these properties:

- An empty selection sets the selection error. It sends no request, does not
  raise `submitting`, and does not set `submitted`.
- A missing or empty customer id stops the attempt before any request.
- At most two requests are sent: the read first, then at most one write.
- A failed read leads to no write.
- With a selection and a customer id the read is always sent. The write is
  sent exactly when the read succeeded and the stored value could be decoded.
- A failed read, a failed write or a rejected write shows that step's message,
  or the generic submit error when the message is empty. A stored value that
  cannot be decoded shows `StoredRequestsUnreadable`.
- The write goes to the customer GID. It stores the prior records, unchanged, as
  a prefix, followed by one new record equal to
  `orderId;refundType;serialize(selectedItemsData)`. So its length is one more
  than before.
- An absent metafield value means the written list is exactly the new record.
- `submitted` holds exactly when every step succeeds, and then no error is set.

## Left out

- All remote I/O is left out: the order query, the metafield query, the `metafieldsSet` mutation and their response-shape checks. Their answers are the `Remote` input, and the requests are listed as `Call` values.
- `JSON.parse` and `JSON.stringify` are parameters, and the stored value is assumed to decode to a list of strings, as the metafield type `list.single_line_text_field` (RefundPortal.jsx line 240) guarantees. A stored value of some other shape is not modelled: the source would spread a string into its characters, write back a list of non-strings, or throw for a non-iterable value.
- `Submission.Submit`: when decoding the stored value throws, the source shows that exception's own message. The model abstracts it as `StoredRequestsUnreadable` (`parse` returns `None`).
- Rendering, the i18n strings, the module-level signals (`orderData`, `loading`, `error`) and the `useEffect` loading flow are left out. They are UI and asynchronous state.
- `formatPrice` (`parseFloat(...).toFixed(2)`) is floating-point display formatting.
- The main page's card list (RefundPortal.jsx lines 339-348) shows all loaded items. Only the item-selection screen's card list is modelled.
- `OrderStatusRefund.jsx`, `OrderStatusBlock.jsx`, `RefundBlock.jsx` and `shopify.d.ts` only navigate, render buttons or declare types.
- `Submission.RefundType`: the labels are the two `RefundSurvey` buttons' (`"Store Credit"`, `"Refund"`, RefundPortal.jsx lines 435 and 444). `SelectRefundType.jsx` line 60 would pass `"Refund to original payment method"`, which is not in this closed set of labels, because that screen is not wired to the submit handler in the modelled code.
- `SelectRefundType.jsx` and `SelectRefundReason.jsx` are button layouts. The only logic in them is the `refundReason !== ""` gate on Next. The step counter that would drive them is not part of this model.
- The fulfilment-aware eligibility check and the structured return mutation do not appear in the modelled code.
- Concurrent submissions from two sessions can lose an update (read-modify-write without a lock). The model is a single sequential call.
- `Submission.Submit`: when `customer.value` itself is missing, the source throws a `TypeError` whose message comes from the host. The model reports it as `CustomerIdUnavailable`, the same as an empty id.
- `Submission.Submit`: `submitting` is reported only as "was raised". The `finally` block always lowers it again.
- `Submission.Submit`: `orderNumericId` is computed by the source but only logged. It is modelled by `LastPathSegment` and is not part of the outcome.
- `Selection.SetChecked`: JavaScript orders integer-like keys ("123") ascending before all other keys. Line-item ids are GIDs (`gid://shopify/LineItem/...`) and never integer-like, so the model uses plain insertion order.
