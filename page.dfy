/**
 * The page that owns the order list (src/app/page.tsx): it appends or
 * replaces orders, deletes the one being edited, drives the modal's
 * add/edit/closed state, and keeps a snapshot of the list under the storage
 * key "orders".
 *
 * The browser's storage is the field `storage`: the list last written under
 * "orders", or `None` when nothing is stored. JSON encoding is left out, so a
 * stored list reads back as the list that was written.
 */
module Page {
  import opened Wrappers
  import opened OrderModal
  import opened Table
  import opened TimeOfDay
  import opened StableSort

  /** `const copy = [...s]; copy[i] = x;` for a position inside the list. */
  function ReplaceAt(s: seq<Order>, i: nat, x: Order): (r: seq<Order>)
    requires i < |s|
    ensures |r| == |s| && r[i] == x
    ensures forall j :: 0 <= j < |s| && j != i ==> r[j] == s[j]
    ensures multiset(r) == multiset(s) - multiset{s[i]} + multiset{x}
  {
    s[i := x]
  }

  /** `s.filter((_, index) => index !== k)`, built up from the front of `s` as `filter` visits it. */
  function RemoveAt(s: seq<Order>, k: nat): (r: seq<Order>)
    ensures k < |s| ==> r == s[..k] + s[k + 1..]
    ensures k >= |s| ==> r == s
  {
    if s == [] then []
    else
      var front := s[..|s| - 1];
      var r := RemoveAt(front, k) + (if |s| - 1 == k then [] else [s[|s| - 1]]);
      assert s == front + [s[|s| - 1]];
      assert k < |front| ==> front[..k] + front[k + 1..] + [s[|s| - 1]] == s[..k] + s[k + 1..];
      r
  }

  /** Deleting position `k` takes exactly that order out of the list. */
  lemma RemoveAtDropsOne(s: seq<Order>, k: nat)
    requires k < |s|
    ensures |RemoveAt(s, k)| == |s| - 1
    ensures multiset(RemoveAt(s, k)) == multiset(s) - multiset{s[k]}
  {
    SliceOutCount(s, k);
  }

  lemma SliceOutCount<T>(s: seq<T>, k: nat)
    requires k < |s|
    ensures multiset(s[..k] + s[k + 1..]) == multiset(s) - multiset{s[k]}
  {
    var a, b := s[..k], s[k + 1..];
    assert s == a + [s[k]] + b;
    calc {
      multiset(s);
      multiset(a + [s[k]]) + multiset(b);
      multiset(a) + multiset{s[k]} + multiset(b);
    }
  }

  /** The orders before position `k` stay put; those after it move up by one. */
  lemma RemoveAtShifts(s: seq<Order>, k: nat)
    requires k < |s|
    ensures forall j :: 0 <= j < k ==> RemoveAt(s, k)[j] == s[j]
    ensures forall j :: k <= j < |s| - 1 ==> RemoveAt(s, k)[j] == s[j + 1]
  {
  }

  /** What the storage holds after the save effect has seen `orders`. */
  function Persisted(stored: Option<seq<Order>>, orders: seq<Order>): (r: Option<seq<Order>>)
    ensures |orders| > 0 ==> r == Some(orders)
    ensures |orders| == 0 ==> r == stored
  {
    if |orders| > 0 then Some(orders) else stored
  }

  /** The list after the load effect: the stored snapshot if there is one. */
  function Loaded(stored: Option<seq<Order>>, orders: seq<Order>): (r: seq<Order>)
    ensures stored.Some? ==> r == stored.value
    ensures stored.None? ==> r == orders
  {
    if stored.Some? then stored.value else orders
  }

  /**
   * Deleting the only order leaves its snapshot in storage, so the next load
   * brings it back.
   */
  lemma DeletedLastOrderReloads(o: Order, stored: Option<seq<Order>>)
    ensures var written := Persisted(stored, [o]);
            var afterDelete := Persisted(written, RemoveAt([o], 0));
            afterDelete == Some([o]) && Loaded(afterDelete, []) == [o]
  {
    assert RemoveAt([o], 0) == [];
  }

  /** Once something was saved, a load gives back the last non-empty list. */
  lemma LoadAfterPersist(stored: Option<seq<Order>>, orders: seq<Order>)
    requires |orders| > 0
    ensures Loaded(Persisted(stored, orders), []) == orders
  {
  }

  class Home {
    var orders: seq<Order>
    var isModalOpen: bool
    var orderToEdit: Option<Order>
    var editIndex: Option<nat>
    var storage: Option<seq<Order>>

    /** The edited order and its index are set together, and the index is a position of the list. */
    ghost predicate Valid()
      reads this
    {
      && (orderToEdit.Some? <==> editIndex.Some?)
      && (editIndex.Some? ==> editIndex.value < |orders|)
    }

    /** The page as it mounts: no orders, modal closed, storage as the browser has it. */
    constructor (stored: Option<seq<Order>>)
      ensures Valid()
      ensures orders == [] && !isModalOpen && orderToEdit == None && editIndex == None
      ensures storage == stored
    {
      orders := [];
      isModalOpen := false;
      orderToEdit := None;
      editIndex := None;
      storage := stored;
    }

    /** The mount effect: take the stored list when there is one. */
    method LoadStoredOrders()
      requires orderToEdit == None && editIndex == None
      modifies this`orders
      ensures Valid()
      ensures orders == Loaded(storage, old(orders))
    {
      if storage.Some? {
        orders := storage.value;
      }
    }

    /** The effect that runs when `orders` changes: write the list unless it is empty. */
    method PersistOrders()
      modifies this`storage
      ensures storage == Persisted(old(storage), orders)
    {
      if |orders| > 0 {
        storage := Some(orders);
      }
    }

    /** Replace the order being edited, or append a new one. */
    method SaveOrder(order: Order)
      requires Valid()
      modifies this`orders
      ensures Valid()
      ensures orderToEdit.Some? && editIndex.Some? ==>
                orders == ReplaceAt(old(orders), editIndex.value, order)
      ensures !(orderToEdit.Some? && editIndex.Some?) ==>
                |orders| == |old(orders)| + 1 && orders[..|old(orders)|] == old(orders)
                && orders[|old(orders)|] == order
    {
      if orderToEdit.Some? && editIndex.Some? {
        var updatedOrders := orders;
        updatedOrders := updatedOrders[editIndex.value := order];
        orders := updatedOrders;
      } else {
        orders := orders + [order];
      }
    }

    /** Delete the order being edited and close the modal; without an index, nothing happens. */
    method DeleteOrder()
      requires Valid()
      modifies this`orders, this`orderToEdit, this`editIndex, this`isModalOpen
      ensures Valid()
      ensures old(editIndex).Some? ==>
                orders == RemoveAt(old(orders), old(editIndex).value)
                && |orders| == |old(orders)| - 1
                && multiset(orders) == multiset(old(orders)) - multiset{old(orders)[old(editIndex).value]}
                && !isModalOpen && orderToEdit == None && editIndex == None
      ensures old(editIndex).None? ==>
                orders == old(orders) && isModalOpen == old(isModalOpen)
                && orderToEdit == old(orderToEdit) && editIndex == old(editIndex)
    {
      if editIndex.Some? {
        RemoveAtDropsOne(orders, editIndex.value);
        orders := RemoveAt(orders, editIndex.value);
        CloseModal();
      }
    }

    method OpenAddModal()
      modifies this`orderToEdit, this`editIndex, this`isModalOpen
      ensures Valid()
      ensures orderToEdit == None && editIndex == None && isModalOpen
    {
      orderToEdit := None;
      editIndex := None;
      isModalOpen := true;
    }

    /** Open the modal on `order`, which the table reports at row `index`. */
    method OpenEditModal(order: Order, index: nat)
      requires index < |orders|
      modifies this`orderToEdit, this`editIndex, this`isModalOpen
      ensures Valid()
      ensures orderToEdit == Some(order) && editIndex == Some(index) && isModalOpen
    {
      orderToEdit := Some(order);
      editIndex := Some(index);
      isModalOpen := true;
    }

    method CloseModal()
      modifies this`orderToEdit, this`editIndex, this`isModalOpen
      ensures Valid()
      ensures orderToEdit == None && editIndex == None && !isModalOpen
    {
      orderToEdit := None;
      editIndex := None;
      isModalOpen := false;
    }
  }

  // ---------------------------------------------------------------------------
  // The table's row position against the page's list
  // ---------------------------------------------------------------------------

  /**
   * The page uses the table's row position as a position of its own unsorted
   * list. That names the shown order for every row exactly when the list is
   * already in time order.
   */
  lemma RowPositionNamesShownOrderIff(orders: seq<Order>)
    requires AllTimed(orders)
    ensures (forall i :: 0 <= i < |orders| ==> orders[Rows(orders)[i].index] == Rows(orders)[i].order)
            <==> SortedOrders(orders) == orders
  {
    var rows, sorted := Rows(orders), SortedOrders(orders);
    if forall i :: 0 <= i < |orders| ==> orders[rows[i].index] == rows[i].order {
      forall i | 0 <= i < |orders| ensures orders[i] == sorted[i] {
        assert rows[i] == RowOf(sorted[i], i);
      }
    }
  }

  /**
   * Two orders entered later-time first (say 10:00, then 09:00): editing the
   * first row, which shows the earlier order, overwrites the later one and
   * leaves the shown order as it was; deleting from that row removes the
   * later order and keeps the shown one.
   */
  lemma EditByRowPositionOverwritesOtherOrder(ana: Order, bea: Order, edited: Order)
    requires WellFormedTime(ana.time) && WellFormedTime(bea.time)
    requires MinuteOfDay(bea.time) < MinuteOfDay(ana.time)
    ensures var rows := Rows([ana, bea]);
            && rows[0].order == bea && rows[0].index == 0
            && ReplaceAt([ana, bea], rows[0].index, edited) == [edited, bea]
            && RemoveAt([ana, bea], rows[0].index) == [bea]
  {
    SortTwo(ana, bea, SortKey);
    var rows := Rows([ana, bea]);
    assert SortedOrders([ana, bea]) == [bea, ana];
    assert rows[0] == RowOf(bea, 0);
    assert [ana, bea][1..] == [bea];
  }

  lemma SortTwo<T>(a: T, b: T, key: T -> int)
    requires key(b) < key(a)
    ensures SortBy([a, b], key) == [b, a]
  {
    assert [a, b][1..] == [b] && [b][1..] == [];
    assert SortBy([b], key) == [b];
    assert Insert(a, [b], key) == [b] + Insert(a, [], key);
  }

  /**
   * With rows that report list positions, editing or deleting from row `i`
   * acts on exactly the order that row shows.
   */
  lemma SourceRowEditsShownOrder(orders: seq<Order>, i: nat, edited: Order)
    requires AllTimed(orders) && i < |orders|
    ensures var row := SourceRows(orders)[i];
            && row.order == SortedOrders(orders)[i]
            && ReplaceAt(orders, row.index, edited)[row.index] == edited
            && multiset(ReplaceAt(orders, row.index, edited))
               == multiset(orders) - multiset{row.order} + multiset{edited}
            && multiset(RemoveAt(orders, row.index)) == multiset(orders) - multiset{row.order}
  {
    var row := SourceRows(orders)[i];
    RemoveAtDropsOne(orders, row.index);
  }
}
