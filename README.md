# Order board bookkeeping, modelled in Dafny

This project models the bookkeeping inside a small single-page board for taking
chicken and potato orders (the `web-food-orders` application). It lifts four
components out of the React event handlers:

- **Order record and edit form** (`OrderModal.tsx`). An order holds quantities,
  a `HH:MM` time, a customer name, the flags paid, phone and delivered, and
  preference tags. The form's handlers overwrite one mutable record:
  - a change event writes one field;
  - ticking "paid" clears "phone", and ticking "phone" clears "paid";
  - a tag click adds the tag or removes every copy of it;
  - closing resets the record to a default whose time is the current hour;
  - saving hands a valid record to the owner and then closes.
- **Order list controller** (`page.tsx`). It appends a new order or replaces
  the order at the edited index. It deletes by index with `filter` and drives
  the modal between add, edit and closed. It also keeps a snapshot of the list
  under the storage key `"orders"`, written only when the list is non-empty.
- **Time-ordered table** (`Table.tsx`). It shows a copy of the list sorted by
  time of day with a stable sort, one row per order. Each row's buttons report
  the row's position.
- **Details panel** (`Details.tsx`). It shows pending and leftover figures and
  the step buttons of the two oven counters ("Horno P" for chickens,
  "Horno PTT" for potatoes).

Files and modules:

- `wrappers.dfy` (`Wrappers`): `Option`.
- `js_text.dfy` (`JsText`): `trim`, `padStart`, `String(n)`.
- `time_of_day.dfy` (`TimeOfDay`): `HH:MM` times and the instant `Date.parse` gives them.
- `stable_sort.dfy` (`StableSort`): a stable sort by an integer key, with proofs
  that it is a sorted, stable permutation, that it is idempotent, and that any
  stable sort returns the same sequence.
- `order_modal.dfy` (`OrderModal`), `table.dfy` (`Table`), `page.dfy` (`Page`),
  `details.dfy` (`Details`): one module per component.

Mutable component state is a class: `OrderModal.OrderForm` holds the record,
and `Page.Home` holds the list, the modal state and the storage snapshot. Each
class method is specified by a pure function of the old state, and the
properties are proved about those functions.

Quantities are `real`, because the inputs step by 0.5. Times must be
well-formed `HH:MM` wherever the table sorts them.

Some facts about the source that shape the model:

- The table sorts by time only, with no secondary key (`src/app/components/ui/Table.tsx:28-32`).
- `deleteOrder` takes the order out of the list (`src/app/page.tsx:45`); orders carry no deleted flag.
- The list is stored under the fixed key `"orders"` (`src/app/page.tsx:16`, `src/app/page.tsx:25`).
- The name cell is the name, a space, then `" (📞)"` when `phone` is set
  (`src/app/components/ui/Table.tsx:81`).

## Model

| member | source | states |
|---|---|---|
| `OrderModal.CurrentTime` | src/app/components/ui/OrderModal.tsx:25-29 | the zero-padded hour followed by `:00` is a well-formed time whose hour is the given hour, minute 0, and it equals `FormatTime(hour, 0)` |
| `OrderModal.DefaultOrder` | src/app/components/ui/OrderModal.tsx:40-49 | the blank record: 1 chicken, 0 potatoes, empty name, no flags, no tags, time `HH:00` at the current hour; it is never savable |
| `OrderModal.InitialOrder` | src/app/components/ui/OrderModal.tsx:39-50 | the form starts from the order being edited if there is one, else from the blank record |
| `OrderModal.IsValidOrder` | src/app/components/ui/OrderModal.tsx:125-127 | savable iff the name has a character `trim` keeps and chickens + potatoes > 0 |
| `OrderModal.EventValue` | src/app/components/ui/OrderModal.tsx:90-95 | a checkbox writes `checked`, a number input `Number(value)`, any other input its text |
| `OrderModal.SetField` | src/app/components/ui/OrderModal.tsx:88-96 | the named field takes the value and every other field is unchanged |
| `OrderModal.ApplyChange` | src/app/components/ui/OrderModal.tsx:70-98 | ticking paid gives paid and not phone, and ticking phone the reverse, with other fields unchanged; any other event sets only the named field; "not both paid and phone" is preserved |
| `OrderModal.Without` | src/app/components/ui/OrderModal.tsx:103 | `filter` leaves no copy of the tag and never lengthens the list |
| `OrderModal.WithoutCount` | src/app/components/ui/OrderModal.tsx:103 | `filter` drops every copy of the tag and keeps the count of every other tag |
| `OrderModal.TogglePreference` | src/app/components/ui/OrderModal.tsx:100-107 | the tag is present afterwards iff it was absent; a present tag loses every copy; an absent tag is appended at the end; the other tags keep their order |
| `OrderModal.ToggleTwice` | src/app/components/ui/OrderModal.tsx:100-107 | clicking an absent tag twice restores the original list |
| `OrderModal.OrderForm.constructor` | src/app/components/ui/OrderModal.tsx:39-50 | the record starts as `InitialOrder` |
| `OrderModal.OrderForm.Reopen` | src/app/components/ui/OrderModal.tsx:53-68 | reopening reloads the record from the edited order or the blank record |
| `OrderModal.OrderForm.HandleChange` | src/app/components/ui/OrderModal.tsx:70-98 | the record becomes `ApplyChange` of the old record |
| `OrderModal.OrderForm.HandlePreferenceToggle` | src/app/components/ui/OrderModal.tsx:100-107 | only the tags change, to `TogglePreference` of the old tags |
| `OrderModal.OrderForm.HandleClose` | src/app/components/ui/OrderModal.tsx:109-122 | the record resets to the blank record and `onClose` is called once |
| `OrderModal.OrderForm.HandleSave` | src/app/components/ui/OrderModal.tsx:129-134 | a valid record is passed to `onSaveOrder`, then the form resets and `onClose` is called; an invalid record changes nothing and calls nothing |
| `JsText.Trim` | src/app/components/ui/OrderModal.tsx:126 | `trim` returns a contiguous middle part of the name with only white space cut from both ends |
| `JsText.TrimEmptyIff` | src/app/components/ui/OrderModal.tsx:126 | the trimmed name is empty iff every character is white space |
| `JsText.PadStart` | src/app/components/ui/OrderModal.tsx:27 | `padStart(2, "0")` leaves two-character text alone and left-fills shorter text with zeros to width 2 |
| `JsText.DecimalString` | src/app/components/ui/OrderModal.tsx:27 | `String(hour)` gives decimal digits that denote the number, with no leading zero, and one digit exactly below 10 |
| `TimeOfDay.MinuteOfDay` | src/app/components/ui/Table.tsx:29-30 | minutes since midnight of `HH:MM`, below 1440, whose quotient and remainder by 60 are the hour and minute |
| `TimeOfDay.Instant` | src/app/components/ui/Table.tsx:29-30 | `Date.parse` on 1970-01-01 UTC gives the minutes since midnight times 60000 |
| `TimeOfDay.InstantOrder` | src/app/components/ui/Table.tsx:31 | comparing instants is comparing (hour, minute) lexicographically |
| `StableSort.SortBy` | src/app/components/ui/Table.tsx:28-32 | the sorted copy has the same elements (as a multiset) and non-decreasing keys |
| `StableSort.SortStable` | src/app/components/ui/Table.tsx:28-32 | elements with equal keys keep their input order |
| `StableSort.SortIdempotent` | src/app/components/ui/Table.tsx:28-32 | sorting a sequence already in key order returns it unchanged |
| `StableSort.SortUnique` | src/app/components/ui/Table.tsx:28-32 | any sorted sequence that keeps equal keys in input order is exactly `SortBy`'s result, whichever stable algorithm produced it |
| `Table.SortedOrders` | src/app/components/ui/Table.tsx:28-32 | the sorted copy is a permutation of the orders, with non-decreasing time of day |
| `Table.SortedOrdersStable` | src/app/components/ui/Table.tsx:28-32 | orders with the same time keep their list order |
| `Table.SortedOrdersIdempotent` | src/app/components/ui/Table.tsx:28-32 | a list already in time order is shown unchanged |
| `Table.SortedOrdersTwice` | src/app/components/ui/Table.tsx:28-32 | sorting the sorted copy again changes nothing |
| `Table.SortedOrdersUnique` | src/app/components/ui/Table.tsx:28-32 | any stable time sort of the list equals `SortedOrders` |
| `Table.NameCell` | src/app/components/ui/Table.tsx:81 | the cell is the name and a space, followed by the phone marker exactly when `phone` is set; its length fixes that nothing else follows |
| `Table.RowOf` | src/app/components/ui/Table.tsx:64-104 | a row shows ✅ iff paid and ❌ otherwise, ✔️ iff delivered and ❌ otherwise, is dimmed iff delivered, and passes its own position to its buttons |
| `Table.Rows` | src/app/components/ui/Table.tsx:64 | one row per order; row i shows the i-th order of the sorted copy and reports position i |
| `Table.RowsShowEveryOrder` | src/app/components/ui/Table.tsx:64-95 | the rows show exactly the orders of the list, in time order, and the edit and delivered buttons of row i report i |
| `Table.SortedPositions` | src/app/components/ui/Table.tsx:28-32 | corrected sort: each (order, list position) pair, in table order, names its order's own position, and no position twice |
| `Table.SourceRows` | src/app/components/ui/Table.tsx:86-95 | corrected rows: the same rows in the same order, each reporting the distinct list position of the order it shows |
| `Page.ReplaceAt` | src/app/page.tsx:33-34 | the copy has the same length, holds the new order at the index and every other element unchanged; one occurrence of the old order is swapped for the new one |
| `Page.RemoveAt` | src/app/page.tsx:45 | `filter` by index removes exactly the element at the index, or nothing when no element has that index |
| `Page.RemoveAtDropsOne` | src/app/page.tsx:43-48 | deleting shortens the list by one and removes exactly one occurrence of the deleted order |
| `Page.RemoveAtShifts` | src/app/page.tsx:45 | orders before the index stay in place and those after it move up by one, keeping their relative order |
| `Page.Persisted` | src/app/page.tsx:23-27 | the snapshot becomes the list when the list is non-empty and is otherwise left as it was |
| `Page.Loaded` | src/app/page.tsx:15-20 | on load the list becomes the stored snapshot if there is one, otherwise it stays as it is |
| `Page.DeletedLastOrderReloads` | src/app/page.tsx:23-27 | deleting the only order leaves its snapshot stored, so the next load brings it back |
| `Page.LoadAfterPersist` | src/app/page.tsx:15-27 | a load after a non-empty list was written gives that list back |
| `Page.Home.constructor` | src/app/page.tsx:9-12 | the page mounts with no orders, the modal closed and nothing being edited |
| `Page.Home.LoadStoredOrders` | src/app/page.tsx:15-20 | the list becomes `Loaded` of the storage |
| `Page.Home.PersistOrders` | src/app/page.tsx:23-27 | the storage becomes `Persisted` of the old storage and the list |
| `Page.Home.SaveOrder` | src/app/page.tsx:30-40 | in edit mode, exactly the element at the edit index is replaced; otherwise the order is appended and the old prefix is kept |
| `Page.Home.DeleteOrder` | src/app/page.tsx:43-49 | with an edit index, exactly that element is removed and the modal closes with editing cleared; without one, nothing changes |
| `Page.Home.OpenAddModal` | src/app/page.tsx:52-56 | the modal opens with no edited order and no index |
| `Page.Home.OpenEditModal` | src/app/page.tsx:59-63 | the modal opens with both the edited order and its index set |
| `Page.Home.CloseModal` | src/app/page.tsx:65-69 | the modal closes and both the edited order and its index are cleared |
| `Page.RowPositionNamesShownOrderIff` | src/app/page.tsx:87 | the row position names, in the page's list, the order that row shows, for every row, iff the list is already in time order |
| `Page.EditByRowPositionOverwritesOtherOrder` | src/app/page.tsx:33-34 | with a later order entered before an earlier one (10:00, then 09:00), the first row shows the earlier order; editing it overwrites the later order and leaves the shown one as it was, and deleting from it removes the later order |
| `Page.SourceRowEditsShownOrder` | src/app/page.tsx:33-45 | with corrected rows, editing or deleting from row i replaces or removes exactly the order row i shows |
| `Details.Pending` | src/app/components/ui/Details.tsx:108-111 | pending plus delivered equals total |
| `Details.Leftover` | src/app/components/ui/Details.tsx:118-121 | leftover plus total equals oven stock; it is negative exactly when stock is below the total (no clamping) |
| `Details.PlusValues` | src/app/components/ui/Details.tsx:53-61 | each "+" button reports the counter plus its own step |
| `Details.MinusValues` | src/app/components/ui/Details.tsx:64-72 | each "-" button reports the counter minus its own step |
| `Details.Render` | src/app/components/ui/Details.tsx:14-123 | the panel shows the counters as given, pending and leftover figures consistent with the props, five Horno P buttons each way with steps 0.5, 1, 5, 6, 12, and three Horno PTT buttons each way |
| `Details.HornoPPlusThenMinus` | src/app/components/ui/Details.tsx:56-67 | fed back as the new prop, a Horno P "+n" followed by "-n" restores the counter |
| `Details.PttStepsMirror` | src/app/components/ui/Details.tsx:26-27 | the Horno PTT "-" steps are the "+" steps in reverse order, so every increment has a matching decrement |
| `Details.PttPlusThenMinus` | src/app/components/ui/Details.tsx:85-96 | fed back as the new prop, a Horno PTT "+n" followed by the mirrored "-n" restores the counter |
| `Details.StepsKeepHalfUnits` | src/app/components/ui/Details.tsx:25-27 | every button keeps a counter that is a whole number of half units on that grid |

## Findings

| source | as written | input that shows it | evidently intended | confidence | as-written member | corrected member |
|---|---|---|---|---|---|---|
| src/app/components/ui/Table.tsx:86 | the table reports a row's position in the time-sorted copy, and `saveOrder`/`deleteOrder` (src/app/page.tsx:34, 45) use it as a position in the unsorted list | orders `[Ana 10:00, Bea 09:00]`: the first row shows Bea, and saving its edit overwrites Ana while Bea stays, and deleting from it removes Ana | editing or deleting a row acts on the order that row shows | high (not executed) | `Page.EditByRowPositionOverwritesOtherOrder` | `Table.SourceRows` |

`Page.RowPositionNamesShownOrderIff` generalises the as-written row: the
reported position names the shown order for every row exactly when the list is
already in time order. With `Table.SourceRows`, `Page.SourceRowEditsShownOrder`
proves that editing or deleting from a row acts on exactly the order that row
shows. The `Page.Home` methods take the index as given, so either kind of row
can drive them.

## Left out

- JSX, styling, icons and the `disabled` attributes of the paid/phone checkboxes and the save button. The paid/phone exclusivity is in `ApplyChange`, and the save guard is in `HandleSave`.
- The browser's `localStorage` is modelled as the field `Home.storage` holding the last list written under `"orders"`. `JSON.stringify`/`JSON.parse` are left out, so a stored list reads back unchanged. A stored empty string, which the `if (storedOrders)` test treats as absent, is not modelled.
- React's effect scheduling: `LoadStoredOrders` and `PersistOrders` are separate methods that the caller runs when the effects would fire.
- The wall clock in `getCurrentTime` is the `hour` parameter (0..23) of `CurrentTime`, `DefaultOrder`, `HandleClose` and `HandleSave`.
- `Number(value)` on the text of a number input is not computed: the change event carries its result as `numericValue`. Change events must pair each field with an input of its type (`WellTyped`), as the form's inputs do.
- `Date.parse` on a malformed time (NaN, which the sort treats as equal to everything) is outside the model. `Table.SortedOrders` requires every time to be well-formed `HH:MM` with hour 00..23; the end-of-day form `24:00` is not accepted.
- Floating point: quantities and counters are exact reals.
- The row buttons' callbacks: `onEditOrder` is `Home.OpenEditModal`. `onToggleDelivered` has no handler in this version of the page (src/app/page.tsx:87 does not pass one), so only the position it would receive is modelled.
- `Details` receives no props from src/app/page.tsx:96. It is modelled on its own props, and the page's totals that would feed it are not modelled.
- The form's title and the delete button that appears only in edit mode (src/app/components/ui/OrderModal.tsx:138-260) are rendering only.
- src/app/info/page.tsx (storage viewer), src/app/components/ui/WorkDaysSelector.tsx (a single storage write) and src/app/components/alerts/SuccesAlert.tsx (static markup) are not part of this model.
- Pricing, a client directory with blacklist, soft delete, ordering delivered orders last, per-day storage keys and persisted oven counters have no code in these files, so they are not modelled.
