// The fixed time slots and the "spots left" label each component renders
// under a slot.

module Slots {
  import IsoDate

  datatype TimeSlot = TimeSlot(time: string, spotsLeft: int)

  /** The hard-coded slots, identical in both components. */
  const TimeSlots: seq<TimeSlot> := [TimeSlot("5:00 PM", 1), TimeSlot("7:30 PM", 1), TimeSlot("9:30 PM", 2)]

  /** The restaurant form's label: the singular text for exactly one spot, the plural for any other count. */
  function SpotsLabel(spotsLeft: int): (text: string)
    ensures text == "1 spot left" <==> spotsLeft == 1
    ensures spotsLeft == 0 ==> text == "0 spots left"
  {
    if spotsLeft == 1 then "1 spot left"
    else
      var c := IsoDate.IntToString(spotsLeft);
      assert |c + " spots left"| == |c| + 11 > 11;
      assert spotsLeft == 0 ==> c == "0";
      c + " spots left"
  }

  /** The multi-step form's label: the count, " spot", an "s" for more than one, and " left". */
  function SpotsLabelMultiStep(spotsLeft: int): (text: string)
    ensures text == "1 spot left" <==> spotsLeft == 1
    ensures spotsLeft == 0 ==> text == "0 spot left"
  {
    var c := IsoDate.IntToString(spotsLeft);
    var text := c + " spot" + (if spotsLeft > 1 then "s" else "") + " left";
    if spotsLeft == 1 then
      assert c == "1";
      assert text == "1 spot left";
      text
    else if spotsLeft > 1 then
      assert |text| > 11;
      text
    else if spotsLeft == 0 then
      assert c == "0";
      assert text == "0 spot left";
      text
    else
      assert text[0] == '-' && "1 spot left"[0] == '1';
      text
  }

  /**
   * Both labels are the count written in decimal (digits that read back as
   * the count when it is not negative) followed by the singular or plural
   * ending each component picks.
   */
  lemma LabelsStartWithCount(n: int)
    ensures var c := IsoDate.IntToString(n);
      && (n >= 0 ==> IsoDate.AllDigits(c) && IsoDate.DigitsValue(c) == n)
      && SpotsLabel(n) == c + (if n == 1 then " spot left" else " spots left")
      && SpotsLabelMultiStep(n) == c + (if n > 1 then " spots left" else " spot left")
  {
    if n == 1 {
      assert IsoDate.IntToString(1) == "1";
    }
  }

  /** The two components print the same label exactly when at least one spot is left; for 0 or fewer only the restaurant form says "spots". */
  lemma LabelsAgreeIff(n: int)
    ensures SpotsLabel(n) == SpotsLabelMultiStep(n) <==> n >= 1
  {
    LabelsStartWithCount(n);
    var c := IsoDate.IntToString(n);
    if n < 1 {
      assert |SpotsLabel(n)| == |c| + 11;
      assert |SpotsLabelMultiStep(n)| == |c| + 10;
    }
  }

  /** With the hard-coded slots both components show "1 spot left", "1 spot left" and "2 spots left". */
  lemma ShownLabels()
    ensures forall k :: 0 <= k < |TimeSlots| ==> SpotsLabel(TimeSlots[k].spotsLeft) == SpotsLabelMultiStep(TimeSlots[k].spotsLeft)
    ensures SpotsLabel(TimeSlots[0].spotsLeft) == "1 spot left"
    ensures SpotsLabel(TimeSlots[1].spotsLeft) == "1 spot left"
    ensures SpotsLabel(TimeSlots[2].spotsLeft) == "2 spots left"
  {
    LabelsAgreeIff(1);
    LabelsAgreeIff(2);
    assert IsoDate.IntToString(2) == "2";
  }
}
