/** The library's `PhoneOtpTextField`: the edit filter that guards the
    caller's `onValueChange`, the colour choices, and what each element of the
    format draws for a given value. The held value is always the bare digits;
    the format is applied again on every draw. */
module PhoneOtpTextField {
  import opened Wrappers
  import opened PhoneNumberElement
  import opened Slots

  /** A decimal digit '0' .. '9'. */
  predicate IsDigit(c: char)
  {
    '0' <= c <= '9'
  }

  /** `isDigitsOnly`: every character is a digit (so the empty text is). */
  predicate IsDigitsOnly(s: string)
  {
    forall i :: 0 <= i < |s| ==> IsDigit(s[i])
  }

  /** A value the field can hold: digits only, at most one per slot. */
  predicate IsRawValue(mask: Format, s: string)
  {
    |s| <= Capacity(mask) && IsDigitsOnly(s)
  }

  /** The field's `onValueChange` filter: `Some(newValue)` when the proposed
      text is handed to the caller's callback, `None` when the edit is dropped
      and no callback runs. */
  function Filter(mask: Format, newValue: string): (r: Option<string>)
    ensures r.Some? ==> r.value == newValue && IsRawValue(mask, r.value)
    ensures r.None? ==> !IsRawValue(mask, newValue)
  {
    if |newValue| <= Capacity(mask) && IsDigitsOnly(newValue) then Some(newValue) else None
  }

  /** The value the caller holds after an edit, when its callback stores what
      it is given (`value = it`): the accepted text, or the old value when the
      edit was dropped. */
  function NextValue(mask: Format, held: string, newValue: string): (r: string)
    ensures r == newValue || r == held
    ensures r == newValue <==> Filter(mask, newValue).Some? || newValue == held
  {
    match Filter(mask, newValue)
    case Some(v) => v
    case None => held
  }

  /** Every edit keeps the held value a raw value: digits only and within
      capacity; an accepted edit is taken whole and a rejected one changes
      nothing. */
  lemma EditKeepsRawValue(mask: Format, held: string, newValue: string)
    requires IsRawValue(mask, held)
    ensures IsRawValue(mask, NextValue(mask, held, newValue))
    ensures Filter(mask, newValue).None? ==> NextValue(mask, held, newValue) == held
  {
  }

  /** The filter accepts exactly the raw values: the empty text always, a text
      longer than the capacity never, and a text with a non-digit such as
      "12a" never. */
  lemma FilterAcceptsRawValues(mask: Format, newValue: string)
    ensures Filter(mask, newValue).Some? <==> IsRawValue(mask, newValue)
    ensures Filter(mask, newValue).Some? ==> Filter(mask, newValue).value == newValue
    ensures Filter(mask, "") == Some("")
    ensures |newValue| > Capacity(mask) ==> Filter(mask, newValue).None?
    ensures Filter(mask, "12a").None?
  {
    assert !IsDigit("12a"[2]);
  }

  /** Typing one digit onto a held value is accepted exactly when there is a
      cursor, and the new digit then shows in the cursor's slot; deleting the
      last digit is always accepted. */
  lemma TypingLandsAtCursor(mask: Format, held: string, d: char)
    requires IsRawValue(mask, held) && IsDigit(d)
    ensures Filter(mask, held + [d]).Some? <==> Cursor(mask, |held|) != -1
    ensures |held| > 0 ==> Filter(mask, held[..|held| - 1]).Some?
    ensures Cursor(mask, |held|) != -1 ==>
              var c := Cursor(mask, |held|);
              c in IndexMap(mask) &&
              GetOrNull(held + [d], IndexMap(mask)[c]) == Some(d)
  {
    var s := held + [d];
    assert forall i :: 0 <= i < |held| ==> s[i] == held[i];
    CursorMatchesIndexMap(mask, |held|);
  }

  /** The six colours of the field (`PhoneOtpColor`), of an opaque colour type. */
  datatype PhoneOtpColor<C> = PhoneOtpColor(
    maskColor: C,
    disabledMaskColor: C,
    editableDigitColor: C,
    disabledEditableDigitColor: C,
    dividersColor: C,
    focusedDividersColor: C)
  {
    /** The colour of `Mask` text. */
    function MaskColor(enabled: bool): (r: C)
      ensures r == maskColor || r == disabledMaskColor
    {
      if enabled then maskColor else disabledMaskColor
    }

    /** The colour of the digits in the slots. */
    function EditableColor(enabled: bool): (r: C)
      ensures r == editableDigitColor || r == disabledEditableDigitColor
    {
      if enabled then editableDigitColor else disabledEditableDigitColor
    }
  }

  /** Both content colours are the enabled variant exactly when the field is
      enabled, as long as the variants differ. */
  lemma ContentColors<C>(color: PhoneOtpColor<C>, enabled: bool)
    ensures color.maskColor != color.disabledMaskColor ==>
              (color.MaskColor(enabled) == color.maskColor <==> enabled)
    ensures color.editableDigitColor != color.disabledEditableDigitColor ==>
              (color.EditableColor(enabled) == color.editableDigitColor <==> enabled)
    ensures color.MaskColor(enabled) in {color.maskColor, color.disabledMaskColor}
    ensures color.EditableColor(enabled) in {color.editableDigitColor, color.disabledEditableDigitColor}
  {
  }

  /** What one element draws: `Mask` text in the mask colour, or an editable
      field with its digit (if any) in the editable colour over a divider. */
  datatype Segment<C> =
    | MaskText(text: string, content: C)
    | Field(digit: Option<char>, content: C, divider: C)

  /** The draw step for the element at `index`, given the slot map and the
      cursor; `None` is the `?.let` that draws nothing when the index is not a
      key of the map. */
  function ElementView<C>(mask: Format, value: string, digitIndexMap: map<nat, nat>,
                          cursorPosition: int, isFocused: bool, enabled: bool,
                          color: PhoneOtpColor<C>, index: nat): (r: Option<Segment<C>>)
    requires index < |mask|
    ensures r.Some? <==> mask[index].Mask? || index in digitIndexMap
    ensures r.Some? ==> (r.value.Field? <==> mask[index] == EditableDigit)
  {
    match mask[index]
    case EditableDigit =>
      if index in digitIndexMap then
        Some(Field(GetOrNull(value, digitIndexMap[index]),
                   color.EditableColor(enabled),
                   if cursorPosition == index && isFocused then color.focusedDividersColor
                   else color.dividersColor))
      else None
    case Mask(text) => Some(MaskText(text, color.MaskColor(enabled)))
  }

  /** The row the field draws for `value`, element by element. */
  function Render<C>(mask: Format, value: string, isFocused: bool, enabled: bool,
                     color: PhoneOtpColor<C>): (r: seq<Segment<C>>)
    ensures |r| <= |mask|
  {
    var digitIndexMap := IndexMap(mask);
    var cursorPosition := Cursor(mask, |value|);
    Present(seq(|mask|, index requires 0 <= index < |mask| =>
      ElementView(mask, value, digitIndexMap, cursorPosition, isFocused, enabled, color, index)))
  }

  /** Every element draws exactly one segment: `Mask` elements their text
      unchanged, and the slot with ordinal k the character `value[k]`, or
      nothing once k is past the end of the value. */
  lemma RenderShape<C>(mask: Format, value: string, isFocused: bool, enabled: bool,
                       color: PhoneOtpColor<C>)
    ensures var r := Render(mask, value, isFocused, enabled, color);
      |r| == |mask| &&
      forall i :: 0 <= i < |mask| ==>
        (mask[i].Mask? ==> r[i] == MaskText(mask[i].text, color.MaskColor(enabled))) &&
        (mask[i] == EditableDigit ==>
          r[i].Field? && r[i].content == color.EditableColor(enabled) &&
          r[i].digit == (if Ordinal(mask, i) < |value| then Some(value[Ordinal(mask, i)]) else None))
  {
    var views := seq(|mask|, index requires 0 <= index < |mask| =>
      ElementView(mask, value, IndexMap(mask), Cursor(mask, |value|), isFocused, enabled, color, index));
    assert forall i :: 0 <= i < |views| ==> views[i].Some?;
  }

  /** Every element draws exactly one segment. */
  lemma RenderLength<C>(mask: Format, value: string, isFocused: bool, enabled: bool,
                        color: PhoneOtpColor<C>)
    ensures |Render(mask, value, isFocused, enabled, color)| == |mask|
  {
    var views := seq(|mask|, index requires 0 <= index < |mask| =>
      ElementView(mask, value, IndexMap(mask), Cursor(mask, |value|), isFocused, enabled, color, index));
    assert forall i :: 0 <= i < |views| ==> views[i].Some?;
  }

  /** A segment shows a digit exactly when it is a slot whose ordinal is
      below the value's length. */
  lemma FilledAt<C>(mask: Format, value: string, isFocused: bool, enabled: bool,
                    color: PhoneOtpColor<C>, i: nat)
    requires i < |mask|
    ensures var r := Render(mask, value, isFocused, enabled, color);
      |r| == |mask| &&
      (r[i].Field? && r[i].digit.Some? <==> mask[i] == EditableDigit && Ordinal(mask, i) < |value|)
  {
    RenderShape(mask, value, isFocused, enabled, color);
  }

  /** The filled slots are the first |value| slots: a filled slot is never
      preceded by an empty one. */
  lemma FilledSlotsArePrefix<C>(mask: Format, value: string, isFocused: bool, enabled: bool,
                                color: PhoneOtpColor<C>, i: nat, j: nat)
    requires i < j < |mask| && mask[i] == EditableDigit && mask[j] == EditableDigit
    ensures var r := Render(mask, value, isFocused, enabled, color);
      r[j].digit.Some? ==> r[i].digit.Some?
  {
    FilledAt(mask, value, isFocused, enabled, color, i);
    FilledAt(mask, value, isFocused, enabled, color, j);
    OrdinalMonotone(mask, i, j);
  }

  /** The number of segments that show a digit. */
  function FilledCount<C>(segments: seq<Segment<C>>): (n: nat)
    ensures n <= |segments|
  {
    if |segments| == 0 then 0
    else (if segments[0].Field? && segments[0].digit.Some? then 1 else 0) + FilledCount(segments[1..])
  }

  /** The filled count of a joined row is the sum of the parts' counts. */
  lemma {:induction false} FilledCountConcat<C>(a: seq<Segment<C>>, b: seq<Segment<C>>)
    ensures FilledCount(a + b) == FilledCount(a) + FilledCount(b)
  {
    if |a| == 0 {
      assert a + b == b;
    } else {
      assert (a + b)[1..] == a[1..] + b;
      FilledCountConcat(a[1..], b);
    }
  }

  /** Extending a row by one segment adds one to its filled count exactly
      when that segment shows a digit. */
  lemma FilledCountStep<C>(r: seq<Segment<C>>, i: nat)
    requires i < |r|
    ensures FilledCount(r[..i + 1]) ==
            FilledCount(r[..i]) + (if r[i].Field? && r[i].digit.Some? then 1 else 0)
  {
    assert r[..i + 1] == r[..i] + [r[i]];
    FilledCountConcat(r[..i], [r[i]]);
  }

  /** As many slots show a digit as the value has digits, up to the capacity. */
  lemma FilledCountIsMin<C>(mask: Format, value: string, isFocused: bool, enabled: bool,
                            color: PhoneOtpColor<C>)
    ensures FilledCount(Render(mask, value, isFocused, enabled, color)) ==
            if |value| < Capacity(mask) then |value| else Capacity(mask)
  {
    var r := Render(mask, value, isFocused, enabled, color);
    RenderLength(mask, value, isFocused, enabled, color);
    forall i | 0 <= i < |mask|
      ensures r[i].Field? && r[i].digit.Some? <==> mask[i] == EditableDigit && Ordinal(mask, i) < |value|
    {
      FilledAt(mask, value, isFocused, enabled, color, i);
    }
    FilledCountOfRow(mask, r, |value|);
  }

  /** A row whose filled segments are the slots with ordinal below `n` has
      min(n, capacity) of them. */
  lemma FilledCountOfRow<C>(mask: Format, r: seq<Segment<C>>, n: nat)
    requires |r| == |mask|
    requires forall i :: 0 <= i < |mask| ==>
               (r[i].Field? && r[i].digit.Some? <==> mask[i] == EditableDigit && Ordinal(mask, i) < n)
    ensures FilledCount(r) == if n < Capacity(mask) then n else Capacity(mask)
  {
    var i := 0;
    while i < |mask|
      invariant i <= |mask|
      invariant FilledCount(r[..i]) == if n < Ordinal(mask, i) then n else Ordinal(mask, i)
    {
      FilledCountStep(r, i);
      OrdinalStep(mask, i);
      i := i + 1;
    }
    assert r[..|mask|] == r;
    assert mask[..|mask|] == mask;
  }

  /** The segment at `i` is a field exactly when the element is a slot, and
      its divider takes the focused colour when it is the cursor's slot and the
      field has focus. */
  lemma DividerAt<C>(mask: Format, value: string, isFocused: bool, enabled: bool,
                     color: PhoneOtpColor<C>, i: nat)
    requires i < |mask|
    ensures var r := Render(mask, value, isFocused, enabled, color);
      |r| == |mask| &&
      (r[i].Field? <==> mask[i] == EditableDigit) &&
      (r[i].Field? ==>
         r[i].divider == (if Cursor(mask, |value|) == i && isFocused then color.focusedDividersColor
                          else color.dividersColor))
  {
    var views := seq(|mask|, index requires 0 <= index < |mask| =>
      ElementView(mask, value, IndexMap(mask), Cursor(mask, |value|), isFocused, enabled, color, index));
    assert forall k :: 0 <= k < |views| ==> views[k].Some?;
  }

  /** Only the cursor's divider is highlighted, and only while the field has
      focus: at most one divider is, and none once the value fills the format. */
  lemma DividerHighlight<C>(mask: Format, value: string, isFocused: bool, enabled: bool,
                            color: PhoneOtpColor<C>)
    requires color.dividersColor != color.focusedDividersColor
    ensures var r := Render(mask, value, isFocused, enabled, color);
      (forall i :: 0 <= i < |r| && r[i].Field? ==>
        (r[i].divider == color.focusedDividersColor <==> isFocused && i == Cursor(mask, |value|))) &&
      (forall i, j :: (0 <= i < |r| && 0 <= j < |r| && r[i].Field? && r[j].Field? &&
                       r[i].divider == color.focusedDividersColor &&
                       r[j].divider == color.focusedDividersColor) ==> i == j) &&
      (|value| >= Capacity(mask) || !isFocused ==>
        forall i :: 0 <= i < |r| && r[i].Field? ==> r[i].divider == color.dividersColor)
  {
    var r := Render(mask, value, isFocused, enabled, color);
    RenderLength(mask, value, isFocused, enabled, color);
    forall i | 0 <= i < |r| && r[i].Field?
      ensures r[i].divider == color.focusedDividersColor <==> isFocused && i == Cursor(mask, |value|)
      ensures r[i].divider == color.focusedDividersColor || r[i].divider == color.dividersColor
    {
      DividerAt(mask, value, isFocused, enabled, color, i);
    }
  }
}
