/**
 * The details panel (src/app/components/ui/Details.tsx): pending and
 * leftover figures derived from its props, and the step buttons of the two
 * oven counters ("Horno P" for chickens, "Horno PTT" for potatoes).
 *
 * The panel holds no state: a button press only reports a new counter value
 * to the owner through a callback. `Render` is the whole panel as a value:
 * the figures it shows and, per button, the value that button reports.
 */
module Details {

  /** The steps of the Horno P buttons, used for both "+" and "-". */
  const HornoPSteps: seq<real> := [0.5, 1.0, 5.0, 6.0, 12.0]
  /** The steps of the Horno PTT "+" buttons, left to right. */
  const PttPlusSteps: seq<real> := [0.5, 1.0, 10.0]
  /** The steps of the Horno PTT "-" buttons, left to right. */
  const PttMinusSteps: seq<real> := [10.0, 1.0, 0.5]

  datatype DetailsProps = DetailsProps(
    totalChickens: real,
    totalPotatoes: real,
    deliveredChickens: real,
    deliveredPotatoes: real,
    hornoP: real,
    hornoPTT: real)

  datatype DetailsView = DetailsView(
    hornoP: real,
    hornoPTT: real,
    hornoPPlus: seq<real>,
    hornoPMinus: seq<real>,
    pttPlus: seq<real>,
    pttMinus: seq<real>,
    pendingChickens: real,
    pendingPotatoes: real,
    leftoverChickens: real,
    leftoverPotatoes: real)

  /** What is still to deliver: ordered minus delivered. */
  function Pending(total: real, delivered: real): (r: real)
    ensures r + delivered == total
  {
    total - delivered
  }

  /** Oven stock minus what was ordered; negative when the oven is short, never clamped. */
  function Leftover(stock: real, total: real): (r: real)
    ensures r + total == stock
    ensures r < 0.0 <==> stock < total
  {
    stock - total
  }

  /** The value each "+" button reports, one per step in button order. */
  function PlusValues(counter: real, steps: seq<real>): (r: seq<real>)
    ensures |r| == |steps|
    ensures forall i :: 0 <= i < |steps| ==> r[i] - counter == steps[i]
  {
    seq(|steps|, i requires 0 <= i < |steps| => counter + steps[i])
  }

  /** The value each "-" button reports, one per step in button order. */
  function MinusValues(counter: real, steps: seq<real>): (r: seq<real>)
    ensures |r| == |steps|
    ensures forall i :: 0 <= i < |steps| ==> counter - r[i] == steps[i]
  {
    seq(|steps|, i requires 0 <= i < |steps| => counter - steps[i])
  }

  /** The panel for the given props. */
  function Render(p: DetailsProps): (v: DetailsView)
    ensures v.hornoP == p.hornoP && v.hornoPTT == p.hornoPTT
    ensures v.pendingChickens + p.deliveredChickens == p.totalChickens
    ensures v.pendingPotatoes + p.deliveredPotatoes == p.totalPotatoes
    ensures v.leftoverChickens + p.totalChickens == p.hornoP
    ensures v.leftoverPotatoes + p.totalPotatoes == p.hornoPTT
    ensures |v.hornoPPlus| == 5 && |v.hornoPMinus| == 5
    ensures |v.pttPlus| == 3 && |v.pttMinus| == 3
    ensures forall i :: 0 <= i < 5 ==>
              v.hornoPPlus[i] == p.hornoP + HornoPSteps[i] && v.hornoPMinus[i] == p.hornoP - HornoPSteps[i]
    ensures forall i :: 0 <= i < 3 ==>
              v.pttPlus[i] == p.hornoPTT + PttPlusSteps[i] && v.pttMinus[i] == p.hornoPTT - PttMinusSteps[i]
  {
    DetailsView(
      p.hornoP, p.hornoPTT,
      PlusValues(p.hornoP, HornoPSteps), MinusValues(p.hornoP, HornoPSteps),
      PlusValues(p.hornoPTT, PttPlusSteps), MinusValues(p.hornoPTT, PttMinusSteps),
      Pending(p.totalChickens, p.deliveredChickens), Pending(p.totalPotatoes, p.deliveredPotatoes),
      Leftover(p.hornoP, p.totalChickens), Leftover(p.hornoPTT, p.totalPotatoes))
  }

  /**
   * Once the owner feeds a reported value back in as the new prop, every
   * Horno P "+n" is undone by the "-n" button.
   */
  lemma HornoPPlusThenMinus(p: DetailsProps, i: nat)
    requires i < |HornoPSteps|
    ensures var raised := p.(hornoP := Render(p).hornoPPlus[i]);
            Render(raised).hornoPMinus[i] == p.hornoP
  {
  }

  /** The Horno PTT "-" buttons hold the "+" steps in reverse order. */
  lemma PttStepsMirror()
    ensures |PttMinusSteps| == |PttPlusSteps|
    ensures forall i :: 0 <= i < |PttPlusSteps| ==> PttMinusSteps[|PttPlusSteps| - 1 - i] == PttPlusSteps[i]
  {
  }

  /** Every Horno PTT "+n" is undone by the "-n" button, the mirror-image button. */
  lemma PttPlusThenMinus(p: DetailsProps, i: nat)
    requires i < |PttPlusSteps|
    ensures var raised := p.(hornoPTT := Render(p).pttPlus[i]);
            Render(raised).pttMinus[|PttPlusSteps| - 1 - i] == p.hornoPTT
  {
    PttStepsMirror();
  }

  /** `x` is a whole number of half units. */
  predicate IsHalfUnits(x: real) {
    (2.0 * x).Floor as real == 2.0 * x
  }

  /** All steps are whole numbers of half units, so the buttons keep a counter on the 0.5 grid. */
  lemma StepsKeepHalfUnits(p: DetailsProps)
    requires IsHalfUnits(p.hornoP) && IsHalfUnits(p.hornoPTT)
    ensures var v := Render(p);
            && (forall i :: 0 <= i < 5 ==> IsHalfUnits(v.hornoPPlus[i]) && IsHalfUnits(v.hornoPMinus[i]))
            && (forall i :: 0 <= i < 3 ==> IsHalfUnits(v.pttPlus[i]) && IsHalfUnits(v.pttMinus[i]))
  {
    var v := Render(p);
    forall i | 0 <= i < 5 ensures IsHalfUnits(v.hornoPPlus[i]) && IsHalfUnits(v.hornoPMinus[i]) {
      ShiftKeepsHalfUnits(p.hornoP, HornoPSteps[i]);
      ShiftKeepsHalfUnits(p.hornoP, -HornoPSteps[i]);
    }
    forall i | 0 <= i < 3 ensures IsHalfUnits(v.pttPlus[i]) && IsHalfUnits(v.pttMinus[i]) {
      ShiftKeepsHalfUnits(p.hornoPTT, PttPlusSteps[i]);
      ShiftKeepsHalfUnits(p.hornoPTT, -PttMinusSteps[i]);
    }
  }

  lemma ShiftKeepsHalfUnits(x: real, d: real)
    requires IsHalfUnits(x) && IsHalfUnits(d)
    ensures IsHalfUnits(x + d)
  {
    var a, b := (2.0 * x).Floor, (2.0 * d).Floor;
    assert 2.0 * (x + d) == (a + b) as real;
  }
}
