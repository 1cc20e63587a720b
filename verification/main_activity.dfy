/** The demo app's own `PhoneInputTextField`. It follows the library field
    with one difference in the filter: an edit is checked for length only, so
    non-digit characters get through. Each slot shows its character, or a blank
    " " when the value has none for it. The slot map is the same
    `digitIndexMap` rule as the library's. */
module MainActivity {
  import opened Wrappers
  import opened PhoneNumberElement
  import opened Slots
  import PhoneOtpTextField

  /** The app's `onValueChange` filter: the proposed text reaches the callback
      when it is no longer than the number of slots, whatever its characters. */
  function AppFilter(config: Format, newValue: string): (r: Option<string>)
    ensures r.Some? ==> r.value == newValue && |r.value| <= Capacity(config)
    ensures r.None? ==> |newValue| > Capacity(config)
  {
    if |newValue| <= Capacity(config) then Some(newValue) else None
  }

  /** The value the app holds after an edit (`value = newValue` in its callback). */
  function AppNextValue(config: Format, held: string, newValue: string): (r: string)
    ensures r == newValue || r == held
    ensures r == newValue <==> AppFilter(config, newValue).Some? || newValue == held
  {
    match AppFilter(config, newValue)
    case Some(v) => v
    case None => held
  }

  /** The app accepts exactly the texts that fit the slots, keeps the held
      value within capacity across every edit, and leaves it unchanged when an
      edit is dropped. */
  lemma AppFilterChecksLengthOnly(config: Format, held: string, newValue: string)
    requires |held| <= Capacity(config)
    ensures AppFilter(config, newValue).Some? <==> |newValue| <= Capacity(config)
    ensures AppFilter(config, newValue).Some? ==> AppFilter(config, newValue).value == newValue
    ensures |AppNextValue(config, held, newValue)| <= Capacity(config)
    ensures AppFilter(config, newValue).None? ==> AppNextValue(config, held, newValue) == held
  {
  }

  /** Whatever the library field accepts, the app accepts too; the converse
      fails: "12a" reaches the app's callback as soon as the format has three
      slots, while the library drops it. */
  lemma AppFilterIsLaxer(config: Format, newValue: string)
    ensures PhoneOtpTextField.Filter(config, newValue).Some? ==> AppFilter(config, newValue).Some?
    ensures Capacity(config) >= 3 ==>
              AppFilter(config, "12a") == Some("12a") && PhoneOtpTextField.Filter(config, "12a").None?
  {
    assert !PhoneOtpTextField.IsDigit("12a"[2]);
  }

  /** What an app slot shows for the digit position `digitIndex`: the
      character there, or a blank " " past the end of the value. */
  function AppSlotText(value: string, digitIndex: nat): (r: string)
    ensures |r| == 1
    ensures digitIndex < |value| ==> r[0] == value[digitIndex]
    ensures digitIndex >= |value| ==> r == " "
  {
    match GetOrNull(value, digitIndex)
    case Some(c) => [c]
    case None => " "
  }

  /** The app's draw step for the element at `index`; `None` is the `?.let`
      that draws nothing when the index is not a key of the map. */
  function AppElementView(config: Format, value: string, digitIndexMap: map<nat, nat>,
                          index: nat): (r: Option<string>)
    requires index < |config|
    ensures r.Some? <==> config[index].Mask? || index in digitIndexMap
  {
    match config[index]
    case EditableDigit =>
      if index in digitIndexMap then Some(AppSlotText(value, digitIndexMap[index])) else None
    case Mask(text) => Some(text)
  }

  /** The texts of the row the app draws for `value`, element by element. */
  function AppRender(config: Format, value: string): (r: seq<string>)
    ensures |r| <= |config|
  {
    var digitIndexMap := IndexMap(config);
    Present(seq(|config|, index requires 0 <= index < |config| =>
      AppElementView(config, value, digitIndexMap, index)))
  }

  /** Every element draws exactly one text, the `?.let` never skipping: a
      `Mask` its own text, the slot with ordinal k the one-character text
      `value[k]`, or " " once k is past the end of the value. */
  lemma AppRenderShape(config: Format, value: string)
    ensures var r := AppRender(config, value);
      |r| == |config| &&
      forall i :: 0 <= i < |config| ==>
        (config[i].Mask? ==> r[i] == config[i].text) &&
        (config[i] == EditableDigit ==>
          r[i] == (if Ordinal(config, i) < |value| then [value[Ordinal(config, i)]] else " "))
  {
    var views := seq(|config|, index requires 0 <= index < |config| =>
      AppElementView(config, value, IndexMap(config), index));
    assert forall i :: 0 <= i < |views| ==> views[i].Some?;
  }

  /** The text a `Mask` element draws does not depend on the value. */
  lemma AppMaskIgnoresValue(config: Format, v: string, w: string, i: nat)
    requires i < |config| && config[i].Mask?
    ensures |AppRender(config, v)| == |AppRender(config, w)| == |config|
    ensures AppRender(config, v)[i] == AppRender(config, w)[i] == config[i].text
  {
    AppRenderShape(config, v);
    AppRenderShape(config, w);
  }
}
