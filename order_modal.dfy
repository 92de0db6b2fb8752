/**
 * The order record and the add/edit form that fills it in
 * (src/app/components/ui/OrderModal.tsx).
 *
 * The form keeps one mutable cell, `order`, that its event handlers overwrite;
 * `OrderForm` is that cell. Each handler's new value is a pure function of the
 * old one (`ApplyChange`, `TogglePreference`, `DefaultOrder`), and the
 * properties of the form are stated about those functions.
 */
module OrderModal {
  import opened Wrappers
  import opened JsText
  import opened TimeOfDay

  /** One order. Quantities are JavaScript numbers that the inputs step by 0.5. */
  datatype Order = Order(
    chickens: real,
    potatoes: real,
    time: string,
    name: string,
    paid: bool,
    delivered: bool,
    phone: bool,
    preferences: seq<string>)

  // ---------------------------------------------------------------------------
  // Default record and the current time
  // ---------------------------------------------------------------------------

  /** The current hour, zero-padded, with minutes `00`; the hour is read from the clock. */
  function CurrentTime(hour: nat): (t: string)
    requires hour < 24
    ensures WellFormedTime(t) && Hours(t) == hour && Minutes(t) == 0
    ensures MinuteOfDay(t) == hour * 60
    ensures t == FormatTime(hour, 0)
  {
    var digits := DecimalString(hour);
    assert hour >= 10 ==> DecimalString(hour / 10) == [DigitChar(hour / 10)];
    assert hour >= 10 ==> digits == [DigitChar(hour / 10), DigitChar(hour % 10)];
    PadStart(digits, 2, '0') + ":00"
  }

  /** The blank record the form starts from and returns to. */
  function DefaultOrder(hour: nat): (o: Order)
    requires hour < 24
    ensures o.chickens == 1.0 && o.potatoes == 0.0 && o.name == ""
    ensures !o.paid && !o.phone && !o.delivered && o.preferences == []
    ensures WellFormedTime(o.time) && MinuteOfDay(o.time) == hour * 60
    ensures o.time == FormatTime(hour, 0)
    ensures !IsValidOrder(o)
  {
    Order(1.0, 0.0, CurrentTime(hour), "", false, false, false, [])
  }

  /** `initialOrder || default`: what the form holds when it opens. */
  function InitialOrder(initialOrder: Option<Order>, hour: nat): (o: Order)
    requires hour < 24
    ensures initialOrder.Some? ==> o == initialOrder.value
    ensures initialOrder.None? ==> o == DefaultOrder(hour)
  {
    initialOrder.GetOr(DefaultOrder(hour))
  }

  // ---------------------------------------------------------------------------
  // The save guard
  // ---------------------------------------------------------------------------

  /** The form may save: the trimmed name is not empty and something is ordered. */
  predicate IsValidOrder(o: Order)
    ensures IsValidOrder(o) <==> HasVisibleChar(o.name) && o.chickens + o.potatoes > 0.0
  {
    TrimEmptyIff(o.name);
    Trim(o.name) != "" && o.chickens + o.potatoes > 0.0
  }

  // ---------------------------------------------------------------------------
  // Field changes
  // ---------------------------------------------------------------------------

  /** The `type` of the input that fired; a time input yields its text like a text input. */
  datatype InputType = Checkbox | NumberInput | TextInput

  /**
   * The event target of a change: the input's `name`, `type`, `value` and
   * `checked`. `numericValue` is `Number(value)`, which the model takes as
   * given instead of parsing decimal text.
   */
  datatype ChangeEvent = ChangeEvent(
    name: string, inputType: InputType, value: string, numericValue: real, checked: bool)

  /** A JavaScript value written into a record field. */
  datatype JsValue = JsBool(b: bool) | JsNumber(n: real) | JsString(s: string)

  /** The value the generic branch writes: `checked`, `Number(value)` or `value`. */
  function EventValue(e: ChangeEvent): (v: JsValue)
    ensures e.inputType == Checkbox <==> v == JsBool(e.checked)
    ensures e.inputType == NumberInput <==> v == JsNumber(e.numericValue)
    ensures e.inputType == TextInput <==> v == JsString(e.value)
  {
    match e.inputType
    case Checkbox => JsBool(e.checked)
    case NumberInput => JsNumber(e.numericValue)
    case TextInput => JsString(e.value)
  }

  /** The record's scalar fields, by their property names. */
  const ScalarFields: set<string> :=
    {"chickens", "potatoes", "time", "name", "paid", "delivered", "phone"}

  /** The value of scalar field `f` of `o`. */
  function Get(o: Order, f: string): JsValue
    requires f in ScalarFields
  {
    if f == "chickens" then JsNumber(o.chickens)
    else if f == "potatoes" then JsNumber(o.potatoes)
    else if f == "time" then JsString(o.time)
    else if f == "name" then JsString(o.name)
    else if f == "paid" then JsBool(o.paid)
    else if f == "delivered" then JsBool(o.delivered)
    else JsBool(o.phone)
  }

  /** `v` has the type of field `f`; names outside the record are free. */
  predicate Fits(f: string, v: JsValue) {
    && f != "preferences"
    && (f in {"chickens", "potatoes"} ==> v.JsNumber?)
    && (f in {"time", "name"} ==> v.JsString?)
    && (f in {"paid", "delivered", "phone"} ==> v.JsBool?)
  }

  /** The form's inputs pair each field with an input of its type. */
  predicate WellTyped(e: ChangeEvent) {
    Fits(e.name, EventValue(e))
  }

  /** Every field of `o` and `r` other than those in `changed` is equal. */
  predicate SameExcept(o: Order, r: Order, changed: set<string>) {
    && o.preferences == r.preferences
    && ("chickens" !in changed ==> o.chickens == r.chickens)
    && ("potatoes" !in changed ==> o.potatoes == r.potatoes)
    && ("time" !in changed ==> o.time == r.time)
    && ("name" !in changed ==> o.name == r.name)
    && ("paid" !in changed ==> o.paid == r.paid)
    && ("delivered" !in changed ==> o.delivered == r.delivered)
    && ("phone" !in changed ==> o.phone == r.phone)
  }

  /** `{ ...o, [f]: v }` seen on the record's own fields. */
  function SetField(o: Order, f: string, v: JsValue): (r: Order)
    requires Fits(f, v)
    ensures f in ScalarFields ==> Get(r, f) == v
    ensures SameExcept(o, r, {f})
  {
    if f == "chickens" then o.(chickens := v.n)
    else if f == "potatoes" then o.(potatoes := v.n)
    else if f == "time" then o.(time := v.s)
    else if f == "name" then o.(name := v.s)
    else if f == "paid" then o.(paid := v.b)
    else if f == "delivered" then o.(delivered := v.b)
    else if f == "phone" then o.(phone := v.b)
    else o
  }

  /**
   * The record after a change event: ticking "paid" clears "phone" and
   * ticking "phone" clears "paid"; any other change writes the event's value
   * into the field it names and leaves the rest alone.
   */
  function ApplyChange(o: Order, e: ChangeEvent): (r: Order)
    requires WellTyped(e)
    ensures e.name == "paid" && e.checked ==>
              r.paid && !r.phone && SameExcept(o, r, {"paid", "phone"})
    ensures e.name == "phone" && e.checked ==>
              r.phone && !r.paid && SameExcept(o, r, {"paid", "phone"})
    ensures !(e.name in {"paid", "phone"} && e.checked) ==>
              (e.name in ScalarFields ==> Get(r, e.name) == EventValue(e))
              && SameExcept(o, r, {e.name})
    ensures !(o.paid && o.phone) ==> !(r.paid && r.phone)
  {
    if e.name == "paid" && e.checked then o.(paid := true, phone := false)
    else if e.name == "phone" && e.checked then o.(phone := true, paid := false)
    else SetField(o, e.name, EventValue(e))
  }

  // ---------------------------------------------------------------------------
  // Preference tags
  // ---------------------------------------------------------------------------

  /** `s.filter(x => x !== p)`. */
  function Without<T(==)>(s: seq<T>, p: T): (r: seq<T>)
    ensures |r| <= |s| && p !in r
  {
    if s == [] then [] else (if s[0] == p then [] else [s[0]]) + Without(s[1..], p)
  }

  /** `Without` takes out every copy of `p` and nothing else. */
  lemma {:induction false} WithoutCount<T>(s: seq<T>, p: T)
    ensures multiset(Without(s, p)) == multiset(s)[p := 0]
  {
    if s != [] {
      WithoutCons(s, p);
      WithoutCount(s[1..], p);
      assert s == [s[0]] + s[1..];
    }
  }

  lemma {:induction false} WithoutAbsent<T>(s: seq<T>, p: T)
    requires p !in s
    ensures Without(s, p) == s
  {
    if s != [] {
      WithoutAbsent(s[1..], p);
    }
  }

  lemma {:induction false} WithoutAppend<T>(s: seq<T>, t: seq<T>, p: T)
    ensures Without(s + t, p) == Without(s, p) + Without(t, p)
  {
    if s == [] {
      assert s + t == t;
      assert Without(s, p) + Without(t, p) == Without(t, p);
    } else {
      var head := if s[0] == p then [] else [s[0]];
      assert (s + t)[0] == s[0] && (s + t)[1..] == s[1..] + t;
      calc {
        Without(s + t, p);
        { WithoutCons(s + t, p); }
        head + Without(s[1..] + t, p);
        { WithoutAppend(s[1..], t, p); }
        head + (Without(s[1..], p) + Without(t, p));
        (head + Without(s[1..], p)) + Without(t, p);
        { WithoutCons(s, p); }
        Without(s, p) + Without(t, p);
      }
    }
  }

  lemma WithoutCons<T>(s: seq<T>, p: T)
    requires s != []
    ensures Without(s, p) == (if s[0] == p then [] else [s[0]]) + Without(s[1..], p)
  {
  }

  /** The preferences after clicking tag `p`: present, every copy goes; absent, it is appended. */
  function TogglePreference(prefs: seq<string>, p: string): (r: seq<string>)
    ensures p in r <==> p !in prefs
    ensures p in prefs ==> multiset(r) == multiset(prefs)[p := 0]
    ensures p !in prefs ==> r == prefs + [p]
    ensures Without(r, p) == Without(prefs, p)
  {
    if p in prefs then
      var r := Without(prefs, p);
      WithoutCount(prefs, p);
      WithoutAbsent(r, p);
      r
    else
      WithoutAppend(prefs, [p], p);
      assert Without([p], p) == [];
      prefs + [p]
  }

  /** Clicking an absent tag twice gives back the original list. */
  lemma ToggleTwice(prefs: seq<string>, p: string)
    requires p !in prefs
    ensures TogglePreference(TogglePreference(prefs, p), p) == prefs
  {
    WithoutAppend(prefs, [p], p);
    WithoutAbsent(prefs, p);
    assert Without([p], p) == [];
  }

  // ---------------------------------------------------------------------------
  // The form itself
  // ---------------------------------------------------------------------------

  /** The callbacks a handler invokes, in the order it invokes them. */
  datatype Callback = OnSaveOrder(order: Order) | OnClose

  class OrderForm {
    var order: Order

    /** `useState(initialOrder || default)`; `hour` is the clock's current hour. */
    constructor (initialOrder: Option<Order>, hour: nat)
      requires hour < 24
      ensures order == InitialOrder(initialOrder, hour)
    {
      order := InitialOrder(initialOrder, hour);
    }

    /** The effect that reloads the record whenever the modal opens or the edited order changes. */
    method Reopen(initialOrder: Option<Order>, hour: nat)
      requires hour < 24
      modifies this
      ensures order == InitialOrder(initialOrder, hour)
    {
      order := InitialOrder(initialOrder, hour);
    }

    method HandleChange(e: ChangeEvent)
      requires WellTyped(e)
      modifies this
      ensures order == ApplyChange(old(order), e)
    {
      order := ApplyChange(order, e);
    }

    method HandlePreferenceToggle(preference: string)
      modifies this
      ensures order == old(order).(preferences := TogglePreference(old(order).preferences, preference))
    {
      order := order.(preferences := TogglePreference(order.preferences, preference));
    }

    /** Resets the record and notifies the owner that the form closed. */
    method HandleClose(hour: nat) returns (calls: seq<Callback>)
      requires hour < 24
      modifies this
      ensures order == DefaultOrder(hour) && calls == [OnClose]
    {
      order := DefaultOrder(hour);
      calls := [OnClose];
    }

    /** A valid record is handed to the owner and the form closes; otherwise nothing happens. */
    method HandleSave(hour: nat) returns (calls: seq<Callback>)
      requires hour < 24
      modifies this
      ensures IsValidOrder(old(order)) ==>
                calls == [OnSaveOrder(old(order)), OnClose] && order == DefaultOrder(hour)
      ensures !IsValidOrder(old(order)) ==> calls == [] && order == old(order)
    {
      var saved := order;
      var valid := IsValidOrder(saved);
      if valid {
        var closing := HandleClose(hour);
        assert closing == [OnClose];
        calls := [OnSaveOrder(saved), OnClose];
      } else {
        calls := [];
      }
    }
  }
}
