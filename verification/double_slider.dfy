/** The state of the layer double slider of the preview
    (src/slic3r/GUI/wxExtensions.cpp, class DoubleSlider): the lower and
    higher thumbs, the one-layer lock, the selected thumb and the set of
    colour-change ticks. Drawing and event posting are left out; only the
    state updates are modelled. */
module DoubleSlider {

  datatype Selection = SelUndef | SelLower | SelHigher

  datatype TicksAction = OnIcon | Add | Del

  datatype Slider = Slider(
    minValue: int, maxValue: int,
    lowerValue: int, higherValue: int,
    isOneLayer: bool,
    selection: Selection,
    ticks: set<int>)

  /** The thumbs lie in range and in order. */
  predicate Ordered(s: Slider)
  {
    s.minValue <= s.lowerValue <= s.higherValue <= s.maxValue
  }

  /** GetActiveValue: the value of the selected thumb, or -1 when none is
      selected. */
  function GetActiveValue(s: Slider): (r: int)
    ensures s.selection == SelLower ==> r == s.lowerValue
    ensures s.selection == SelHigher ==> r == s.higherValue
    ensures s.selection == SelUndef ==> r == -1
  {
    match s.selection
    case SelLower => s.lowerValue
    case SelHigher => s.higherValue
    case SelUndef => -1
  }

  /** correct_lower_value: clamp the lower thumb into [min, max]; then pull
      the higher thumb down onto it when it was overtaken, or always in
      one-layer mode. */
  function CorrectLowerValue(s: Slider): (r: Slider)
    ensures r.minValue == s.minValue && r.maxValue == s.maxValue
    ensures r.isOneLayer == s.isOneLayer && r.selection == s.selection && r.ticks == s.ticks
    ensures s.minValue <= s.maxValue ==> s.minValue <= r.lowerValue <= s.maxValue
    ensures s.minValue <= s.maxValue ==> r.lowerValue <= r.higherValue
    ensures s.isOneLayer ==> r.lowerValue == r.higherValue
    ensures s.minValue <= s.lowerValue <= s.maxValue ==> r.lowerValue == s.lowerValue
    ensures r.higherValue == s.higherValue || r.higherValue == r.lowerValue
  {
    var lower := if s.lowerValue < s.minValue then s.minValue
                 else if s.lowerValue > s.maxValue then s.maxValue
                 else s.lowerValue;
    var higher := if (lower >= s.higherValue && lower <= s.maxValue) || s.isOneLayer then lower
                  else s.higherValue;
    s.(lowerValue := lower, higherValue := higher)
  }

  /** correct_higher_value: the mirror image of correct_lower_value. */
  function CorrectHigherValue(s: Slider): (r: Slider)
    ensures r.minValue == s.minValue && r.maxValue == s.maxValue
    ensures r.isOneLayer == s.isOneLayer && r.selection == s.selection && r.ticks == s.ticks
    ensures s.minValue <= s.maxValue ==> s.minValue <= r.higherValue <= s.maxValue
    ensures s.minValue <= s.maxValue ==> r.lowerValue <= r.higherValue
    ensures s.isOneLayer ==> r.lowerValue == r.higherValue
    ensures s.minValue <= s.higherValue <= s.maxValue ==> r.higherValue == s.higherValue
    ensures r.lowerValue == s.lowerValue || r.lowerValue == r.higherValue
  {
    var higher := if s.higherValue > s.maxValue then s.maxValue
                  else if s.higherValue < s.minValue then s.minValue
                  else s.higherValue;
    var lower := if (higher <= s.lowerValue && higher >= s.minValue) || s.isOneLayer then higher
                 else s.lowerValue;
    s.(lowerValue := lower, higherValue := higher)
  }

  /** A slider whose thumbs are already in range and in order is left as it
      is by either correction (outside one-layer mode). */
  lemma CorrectionsKeepOrdered(s: Slider)
    requires Ordered(s) && !s.isOneLayer
    ensures CorrectLowerValue(s) == s
    ensures CorrectHigherValue(s) == s
  {
  }

  /** Correcting twice is correcting once. */
  lemma CorrectionsIdempotent(s: Slider)
    requires s.minValue <= s.maxValue
    ensures CorrectLowerValue(CorrectLowerValue(s)) == CorrectLowerValue(s)
    ensures CorrectHigherValue(CorrectHigherValue(s)) == CorrectHigherValue(s)
  {
  }

  /** SetLowerValue: select the lower thumb, move it, and correct. */
  function SetLowerValue(s: Slider, v: int): (r: Slider)
    ensures r.selection == SelLower
    ensures s.minValue <= v <= s.maxValue ==> r.lowerValue == v && GetActiveValue(r) == v
    ensures s.minValue <= s.maxValue ==> s.minValue <= r.lowerValue <= r.higherValue
  {
    CorrectLowerValue(s.(selection := SelLower, lowerValue := v))
  }

  /** SetHigherValue: select the higher thumb, move it, and correct. */
  function SetHigherValue(s: Slider, v: int): (r: Slider)
    ensures r.selection == SelHigher
    ensures s.minValue <= v <= s.maxValue ==> r.higherValue == v && GetActiveValue(r) == v
    ensures s.minValue <= s.maxValue ==> r.lowerValue <= r.higherValue <= s.maxValue
  {
    CorrectHigherValue(s.(selection := SelHigher, higherValue := v))
  }

  /** SetSelectionSpan: lower is raised to the minimum, higher is cut to the
      maximum and raised to lower; a span of more than one layer ends the
      one-layer mode. */
  function SetSelectionSpan(s: Slider, lowerVal: int, higherVal: int): (r: Slider)
    ensures r.lowerValue >= s.minValue
    ensures r.higherValue >= r.lowerValue
    ensures r.lowerValue <= s.maxValue ==> r.higherValue <= s.maxValue
    ensures r.lowerValue < r.higherValue ==> !r.isOneLayer
    ensures r.lowerValue == r.higherValue ==> r.isOneLayer == s.isOneLayer
    ensures s.minValue <= lowerVal <= higherVal <= s.maxValue ==>
      r.lowerValue == lowerVal && r.higherValue == higherVal
    ensures r.minValue == s.minValue && r.maxValue == s.maxValue
    ensures r.selection == s.selection && r.ticks == s.ticks
  {
    var lower := if lowerVal > s.minValue then lowerVal else s.minValue;
    var capped := if higherVal < s.maxValue then higherVal else s.maxValue;
    var higher := if capped > lower then capped else lower;
    s.(lowerValue := lower, higherValue := higher, isOneLayer := if lower < higher then false else s.isOneLayer)
  }

  /** A span within the range leaves the thumbs ordered. */
  lemma SelectionSpanOrdered(s: Slider, lowerVal: int, higherVal: int)
    requires lowerVal <= s.maxValue && s.minValue <= s.maxValue
    ensures Ordered(SetSelectionSpan(s, lowerVal, higherVal))
  {
  }

  /** action_tick: with a thumb selected, toggle (OnIcon), add or delete the
      tick at that thumb's value. */
  function ActionTick(s: Slider, action: TicksAction): (r: Slider)
    ensures s.selection == SelUndef ==> r == s
    ensures r == s.(ticks := r.ticks)
    ensures s.selection != SelUndef ==>
      var tick := GetActiveValue(s);
      && r.ticks - {tick} == s.ticks - {tick}
      && (action == OnIcon ==> (tick in r.ticks <==> tick !in s.ticks))
      && (action == Add ==> tick in r.ticks)
      && (action == Del ==> tick !in r.ticks)
  {
    if s.selection == SelUndef then s
    else
      var tick := if s.selection == SelLower then s.lowerValue else s.higherValue;
      var ticks :=
        if action == OnIcon then (if tick in s.ticks then s.ticks - {tick} else s.ticks + {tick})
        else if tick !in s.ticks && action == Add then s.ticks + {tick}
        else if tick in s.ticks && action == Del then s.ticks - {tick}
        else s.ticks;
      s.(ticks := ticks)
  }

  /** Clicking the icon twice restores the ticks; adding then deleting a tick
      that was not there restores them too. */
  lemma ActionTickInverse(s: Slider)
    ensures ActionTick(ActionTick(s, OnIcon), OnIcon) == s
    ensures s.selection != SelUndef && GetActiveValue(s) !in s.ticks ==>
      ActionTick(ActionTick(s, Add), Del) == s
  {
    if s.selection != SelUndef {
      var tick := GetActiveValue(s);
      var once := ActionTick(s, OnIcon);
      assert ActionTick(once, OnIcon).ticks == s.ticks by {
        if tick in s.ticks {
          assert once.ticks + {tick} == s.ticks;
        } else {
          assert once.ticks - {tick} == s.ticks;
        }
      }
      if tick !in s.ticks {
        assert ActionTick(s, Add).ticks - {tick} == s.ticks;
      }
    }
  }
}
