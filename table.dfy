/**
 * The order table (src/app/components/ui/Table.tsx): a copy of the list
 * sorted by time of day, one row per order, and the row position handed to
 * the edit and delivered callbacks.
 */
module Table {
  import opened TimeOfDay
  import opened StableSort
  import opened OrderModal

  /** Every order carries a well-formed `HH:MM` time, the only input `Date.parse` reads sensibly here. */
  predicate AllTimed(orders: seq<Order>) {
    forall i :: 0 <= i < |orders| ==> WellFormedTime(orders[i].time)
  }

  /**
   * The comparator's key: `Date.parse("1970-01-01T" + time + ":00Z")`.
   * Only orders with well-formed times are ever sorted here; the value for any
   * other time is never consulted.
   */
  function SortKey(o: Order): (ms: int)
    ensures WellFormedTime(o.time) ==> ms == Instant(o.time)
  {
    if WellFormedTime(o.time) then Instant(o.time) else 0
  }

  /** `[...orders].sort((a, b) => timeA - timeB)`. */
  function SortedOrders(orders: seq<Order>): (r: seq<Order>)
    requires AllTimed(orders)
    ensures |r| == |orders| && multiset(r) == multiset(orders)
    ensures AllTimed(r)
    ensures forall i, j :: 0 <= i < j < |r| ==> MinuteOfDay(r[i].time) <= MinuteOfDay(r[j].time)
  {
    var r := SortBy(orders, SortKey);
    forall i | 0 <= i < |r| ensures WellFormedTime(r[i].time) {
      assert r[i] in multiset(orders);
    }
    r
  }

  /** Orders with the same time appear in the order the list holds them. */
  lemma SortedOrdersStable(orders: seq<Order>)
    requires AllTimed(orders)
    ensures forall k :: WithKey(SortedOrders(orders), SortKey, k) == WithKey(orders, SortKey, k)
  {
    SortStable(orders, SortKey);
  }

  /** A list already in time order is shown as it is. */
  lemma SortedOrdersIdempotent(orders: seq<Order>)
    requires AllTimed(orders)
    requires forall i, j :: 0 <= i < j < |orders| ==> MinuteOfDay(orders[i].time) <= MinuteOfDay(orders[j].time)
    ensures SortedOrders(orders) == orders
  {
    SortIdempotent(orders, SortKey);
  }

  /** Sorting the sorted copy again changes nothing. */
  lemma SortedOrdersTwice(orders: seq<Order>)
    requires AllTimed(orders)
    ensures SortedOrders(SortedOrders(orders)) == SortedOrders(orders)
  {
    SortedOrdersIdempotent(SortedOrders(orders));
  }

  /**
   * Whatever stable sort the engine runs, the result is `SortedOrders`: the
   * time order and the per-time order of the list fix it completely.
   */
  lemma SortedOrdersUnique(orders: seq<Order>, shown: seq<Order>)
    requires AllTimed(orders) && AllTimed(shown)
    requires forall i, j :: 0 <= i < j < |shown| ==> MinuteOfDay(shown[i].time) <= MinuteOfDay(shown[j].time)
    requires forall k :: WithKey(shown, SortKey, k) == WithKey(orders, SortKey, k)
    ensures shown == SortedOrders(orders)
  {
    SortUnique(orders, shown, SortKey);
  }

  // ---------------------------------------------------------------------------
  // Rows
  // ---------------------------------------------------------------------------

  const PhoneMarker: string := " (\U{1F4DE})"
  const Tick: string := "\U{2705}"
  const Cross: string := "\U{274C}"
  const CheckMark: string := "\U{2714}\U{FE0F}"

  /** The name cell: the name, the space between the two JSX expressions, then the phone marker. */
  function NameCell(o: Order): (cell: string)
    ensures |cell| == |o.name| + 1 + (if o.phone then |PhoneMarker| else 0)
    ensures cell[..|o.name|] == o.name && cell[|o.name|] == ' '
    ensures o.phone <==> cell[|cell| - 1] != ' '
    ensures o.phone ==> cell[|o.name| + 1..] == PhoneMarker
  {
    o.name + " " + (if o.phone then PhoneMarker else "")
  }

  /** One rendered row, with the position its buttons report. */
  datatype Row = Row(
    order: Order,
    index: nat,
    nameCell: string,
    paidCell: string,
    deliveredCell: string,
    dimmed: bool)

  function RowOf(o: Order, index: nat): (row: Row)
    ensures row.order == o && row.index == index
    ensures row.nameCell == NameCell(o)
    ensures row.paidCell == Tick <==> o.paid
    ensures !o.paid ==> row.paidCell == Cross
    ensures row.deliveredCell == CheckMark <==> o.delivered
    ensures !o.delivered ==> row.deliveredCell == Cross
    ensures row.dimmed == o.delivered
  {
    Row(o, index, NameCell(o), if o.paid then Tick else Cross,
        if o.delivered then CheckMark else Cross, o.delivered)
  }

  /** `sortedOrders.map((order, index) => <tr>…</tr>)`. */
  function Rows(orders: seq<Order>): (rows: seq<Row>)
    requires AllTimed(orders)
    ensures |rows| == |orders|
    ensures forall i :: 0 <= i < |rows| ==> rows[i] == RowOf(SortedOrders(orders)[i], i)
  {
    var sorted := SortedOrders(orders);
    seq(|sorted|, i requires 0 <= i < |sorted| => RowOf(sorted[i], i))
  }

  /** The orders the rows show, in row order. */
  function Shown(rows: seq<Row>): (r: seq<Order>)
    ensures |r| == |rows| && forall i :: 0 <= i < |rows| ==> r[i] == rows[i].order
  {
    Map(rows, (row: Row) => row.order)
  }

  /**
   * One row per order, in time order: the rows show exactly the orders of the
   * list, and each row's buttons report that row's position.
   */
  lemma RowsShowEveryOrder(orders: seq<Order>)
    requires AllTimed(orders)
    ensures multiset(Shown(Rows(orders))) == multiset(orders)
    ensures forall i :: 0 <= i < |orders| ==> Rows(orders)[i].index == i
    ensures forall i, j :: 0 <= i < j < |orders| ==>
              MinuteOfDay(Rows(orders)[i].order.time) <= MinuteOfDay(Rows(orders)[j].order.time)
  {
    assert Shown(Rows(orders)) == SortedOrders(orders);
  }

  // ---------------------------------------------------------------------------
  // Rows that report the order's position in the unsorted list
  // ---------------------------------------------------------------------------

  /** An order paired with its position in the list the page keeps. */
  function Positioned(orders: seq<Order>): (ps: seq<(Order, nat)>)
    ensures |ps| == |orders|
    ensures forall i :: 0 <= i < |ps| ==> ps[i] == (orders[i], i)
  {
    seq(|orders|, i requires 0 <= i < |orders| => (orders[i], i))
  }

  function PairKey(p: (Order, nat)): int {
    SortKey(p.0)
  }

  function First(p: (Order, nat)): Order {
    p.0
  }

  /** A sequence whose elements all differ holds each of them once. */
  lemma {:induction false} DistinctCountsOne<T>(s: seq<T>, x: T)
    requires forall i, j :: 0 <= i < j < |s| ==> s[i] != s[j]
    ensures multiset(s)[x] <= 1
  {
    if s != [] {
      assert s == [s[0]] + s[1..];
      DistinctCountsOne(s[1..], x);
      if s[0] == x {
        assert x !in s[1..];
      }
    }
  }

  /** An element at two positions is counted at least twice. */
  lemma TwoPositionsCountTwice<T>(s: seq<T>, i: nat, j: nat)
    requires i < j < |s| && s[i] == s[j]
    ensures multiset(s)[s[i]] >= 2
  {
    assert s == s[..j] + [s[j]] + s[j + 1..];
    assert s[..j][i] == s[i];
    assert s[i] in multiset(s[..j]);
  }

  /** Sorting the positioned list sorts the orders the same way the table does. */
  lemma PositionedSortShowsSortedOrders(orders: seq<Order>)
    requires AllTimed(orders)
    ensures |SortBy(Positioned(orders), PairKey)| == |SortedOrders(orders)|
    ensures forall i :: 0 <= i < |orders| ==> SortBy(Positioned(orders), PairKey)[i].0 == SortedOrders(orders)[i]
  {
    var sorted := SortBy(Positioned(orders), PairKey);
    var firsts := Map(sorted, First);
    PositionedFirsts(orders);
    SortMap(Positioned(orders), First, SortKey, PairKey);
    assert firsts == SortBy(orders, SortKey);
    forall i | 0 <= i < |orders| ensures sorted[i].0 == SortedOrders(orders)[i] {
      assert firsts[i] == First(sorted[i]);
    }
  }

  lemma PositionedFirsts(orders: seq<Order>)
    ensures Map(Positioned(orders), First) == orders
  {
    var m := Map(Positioned(orders), First);
    assert forall i :: 0 <= i < |orders| ==> m[i] == orders[i];
  }

  /** Each sorted pair still names its order's position in the list. */
  lemma PositionedSortKeepsPositions(orders: seq<Order>)
    ensures forall i :: 0 <= i < |orders| ==>
              var p := SortBy(Positioned(orders), PairKey)[i]; p.1 < |orders| && orders[p.1] == p.0
  {
    var sorted := SortBy(Positioned(orders), PairKey);
    forall i | 0 <= i < |orders| ensures sorted[i].1 < |orders| && orders[sorted[i].1] == sorted[i].0 {
      assert sorted[i] in multiset(Positioned(orders));
    }
  }

  /** No two sorted pairs name the same position. */
  lemma PositionedSortDistinct(orders: seq<Order>)
    ensures forall i, j :: 0 <= i < j < |orders| ==>
              SortBy(Positioned(orders), PairKey)[i].1 != SortBy(Positioned(orders), PairKey)[j].1
  {
    var ps := Positioned(orders);
    var sorted := SortBy(ps, PairKey);
    PositionedSortKeepsPositions(orders);
    forall i, j | 0 <= i < j < |sorted| ensures sorted[i].1 != sorted[j].1 {
      DistinctCountsOne(ps, sorted[i]);
      if sorted[i].1 == sorted[j].1 {
        assert sorted[i] == sorted[j];
        TwoPositionsCountTwice(sorted, i, j);
        assert false;
      }
    }
  }

  /** The positioned list in table order: each pair names its order's own position, and no position twice. */
  function SortedPositions(orders: seq<Order>): (ps: seq<(Order, nat)>)
    requires AllTimed(orders)
    ensures |ps| == |orders|
    ensures forall i :: 0 <= i < |ps| ==> ps[i].0 == SortedOrders(orders)[i]
    ensures forall i :: 0 <= i < |ps| ==> ps[i].1 < |orders| && orders[ps[i].1] == ps[i].0
    ensures forall i, j :: 0 <= i < j < |ps| ==> ps[i].1 != ps[j].1
  {
    PositionedSortShowsSortedOrders(orders);
    PositionedSortKeepsPositions(orders);
    PositionedSortDistinct(orders);
    SortBy(Positioned(orders), PairKey)
  }

  /**
   * The rows of `Rows`, except that each reports the position of its order in
   * the page's unsorted list rather than its own position.
   */
  function SourceRows(orders: seq<Order>): (rows: seq<Row>)
    requires AllTimed(orders)
    ensures |rows| == |orders|
    ensures forall i :: 0 <= i < |rows| ==> rows[i] == RowOf(SortedOrders(orders)[i], rows[i].index)
    ensures forall i :: 0 <= i < |rows| ==> rows[i].index < |orders| && orders[rows[i].index] == rows[i].order
    ensures forall i, j :: 0 <= i < j < |rows| ==> rows[i].index != rows[j].index
  {
    var ps := SortedPositions(orders);
    seq(|ps|, i requires 0 <= i < |ps| => RowOf(ps[i].0, ps[i].1))
  }
}
