# Phone-number input mask — a verified model

This project models the logic of a phone-number input field for Jetpack
Compose (Kotlin). The field is driven by a *format*: a list of
`PhoneNumberElement` values. Each element is either a literal `Mask(text)` or
an `EditableDigit` slot that takes exactly one typed digit. The field holds
only the bare digits. On every draw it lays the format over them again: each
`Mask` shows its text, and the slot with ordinal *k* shows the *k*-th
character of the value. The cursor sits under the first slot that has no
digit yet. An edit reaches the caller's `onValueChange` only when it passes
the field's filter.

There are two copies of the field:

- the library's `PhoneOtpTextField`, whose filter demands at most one
  character per slot *and* digits only, and which colours the cursor's
  divider while focused;
- the demo app's `PhoneInputTextField`, whose filter checks the length only.
  Its slots show a blank `" "` when they have no digit. It comes with the
  presets `FormatPatterns.RUS`, `USA` and `FRA`.

Modules (one file each):

- `Wrappers`: `Option` (Kotlin's nullable values), `GetOrNull`, and `Present`.
  `Present` is a per-element draw loop in which `?.let` draws nothing for
  `null`.
- `PhoneNumberElement`: the `Element` datatype (one type for both copies) and
  `Capacity`, the number of slots. Also the two formats given as examples in
  the type's documentation.
- `Slots`: the digit-to-slot assignment shared by both fields.
  - `Ordinal(f, i)` counts the slots before index `i`.
  - `IndexMap` is `digitIndexMap`, and `DigitIndexMap` is the loop that builds it.
  - `Cursor` is the `reminder` countdown as a recursive function, and
    `CursorPosition` is the same countdown as the `indexOfFirst` loop.
- `PhoneOtpTextField`: the library filter, `NextValue` (the caller's state
  after an edit), the colours, and `Render`, the row of segments drawn for a
  value.
- `MainActivity`: the demo app's filter and its rendering as a list of texts.
- `FormatPatterns`: the three presets, and scenarios on them.

The value, the format, the focus flag and the enabled flag are inputs to pure
functions. Colours are an opaque type parameter `C`.

Facts about the source that the model keeps:

- No error is raised for a format without slots. Such a format has capacity
  0. The filters accept only `""`, and the cursor is -1.
- The presets are RUS (10 slots), USA (10) and FRA (9).
- The cursor is -1 whenever the value has *at least* as many characters as
  the format has slots. A value handed in by the caller may be longer than
  the capacity.
- The demo app does not strip non-digits. It passes them on, so "12a" reaches
  its callback.
- The demo app computes no cursor: its dividers are always drawn in one
  colour. The cursor belongs to the library field only.
- The documentation of RUS and USA writes "+7 (XXX) XXX-XX-XX" and
  "+1 (XXX) XXX-XXXX". The element lists have no space between the country
  code and "(", and none between ")" and the next digit.
  `FormatPatterns.RusFullRendering` states the segments as the list gives
  them.

## Model

| member | source | states |
|---|---|---|
| `PhoneNumberElement.ElementKinds` | phoneinputotpfield/src/main/java/com/example/phoneinputotpfield/PhoneNumberElement.kt:43-71 | an element is exactly one of `Mask(text)` and the data-less `EditableDigit`; it adds one to the capacity exactly when it is `EditableDigit` |
| `PhoneNumberElement.Capacity` | phoneinputotpfield/src/main/java/com/example/phoneinputotpfield/components/PhoneOtpTextField.kt:75-77 | the number of slots never exceeds the number of elements |
| `PhoneNumberElement.CapacityIsOccurrenceCount` | phoneinputotpfield/src/main/java/com/example/phoneinputotpfield/components/PhoneOtpTextField.kt:75-77 | `maxLength` equals the number of occurrences of `EditableDigit` in the format (its multiset count) |
| `PhoneNumberElement.CapacityConcat` | phoneinputotpfield/src/main/java/com/example/phoneinputotpfield/components/PhoneOtpTextField.kt:75-77 | the capacity of two formats joined is the sum of their capacities |
| `PhoneNumberElement.CapacityExtremes` | phoneinputotpfield/src/main/java/com/example/phoneinputotpfield/components/PhoneOtpTextField.kt:75-77 | capacity is 0 exactly when every element is a `Mask`, and equals the length exactly when every element is a slot |
| `PhoneNumberElement.PrefixCapacityStep` | phoneinputotpfield/src/main/java/com/example/phoneinputotpfield/components/PhoneOtpTextField.kt:75-77 | extending a prefix by one element raises its count by one exactly when the element is a slot |
| `PhoneNumberElement.InsertElement` | phoneinputotpfield/src/main/java/com/example/phoneinputotpfield/PhoneNumberElement.kt:45-71 | a `Mask` with any text, inserted anywhere, leaves the capacity unchanged; an `EditableDigit` adds exactly one |
| `PhoneNumberElement.DocumentedFormats` | phoneinputotpfield/src/main/java/com/example/phoneinputotpfield/PhoneNumberElement.kt:14-28 | the documented US format has 13 elements and 10 slots; the "(", digit, ")" example has 3 elements and 1 slot |
| `PhoneNumberElement.UsLayoutCapacity` | phoneinputotpfield/src/main/java/com/example/phoneinputotpfield/PhoneNumberElement.kt:14-28 | every format with the documented US layout of masks and slots has 10 slots |
| `PhoneNumberElement.ParenLayoutCapacity` | phoneinputotpfield/src/main/java/com/example/phoneinputotpfield/PhoneNumberElement.kt:65-68 | every format laid out mask, slot, mask has 1 slot |
| `Slots.OrdinalStep` | phoneinputotpfield/src/main/java/com/example/phoneinputotpfield/components/PhoneOtpTextField.kt:118-122 | the counter `start` grows by one across a slot and stays put across a `Mask` |
| `Slots.OrdinalMonotone` | phoneinputotpfield/src/main/java/com/example/phoneinputotpfield/components/PhoneOtpTextField.kt:117-124 | slot ordinals never decrease along the format, rise strictly past a slot, and never exceed the capacity |
| `Slots.OrdinalInjective` | phoneinputotpfield/src/main/java/com/example/phoneinputotpfield/components/PhoneOtpTextField.kt:117-124 | two slots with the same ordinal are the same slot |
| `Slots.DigitIndexMap` | phoneinputotpfield/src/main/java/com/example/phoneinputotpfield/components/PhoneOtpTextField.kt:117-124 | the `mapIndexedNotNull` loop with `start++` builds exactly the map from each slot's index to the number of slots before it |
| `Slots.IndexMap` | phoneinputotpfield/src/main/java/com/example/phoneinputotpfield/components/PhoneOtpTextField.kt:117-124 | `digitIndexMap` as a map comprehension; its own contract: every key is an `EditableDigit` index. Its full behaviour is stated by `Slots.IndexMapBijective` and `Slots.DigitIndexMap` |
| `Slots.IndexMapBijective` | phoneinputotpfield/src/main/java/com/example/phoneinputotpfield/components/PhoneOtpTextField.kt:117-124 | the keys of `digitIndexMap` are exactly the `EditableDigit` indices; its values are exactly 0 .. capacity-1; it is strictly increasing in format order |
| `Slots.Cursor` | phoneinputotpfield/src/main/java/com/example/phoneinputotpfield/components/PhoneOtpTextField.kt:83-95 | the countdown is -1 exactly when the value length is at least the capacity; otherwise it is an `EditableDigit` index with exactly `length` slots before it |
| `Slots.CursorPosition` | phoneinputotpfield/src/main/java/com/example/phoneinputotpfield/components/PhoneOtpTextField.kt:83-95 | the `indexOfFirst` loop with the `reminder` variable returns the same index as the countdown: -1 iff the value fills every slot, else the slot whose ordinal is the value's length |
| `Slots.CursorIsFirstEmptySlot` | phoneinputotpfield/src/main/java/com/example/phoneinputotpfield/components/PhoneOtpTextField.kt:83-95 | the slots before the cursor are exactly those with ordinal below the value's length, and the cursor is the only slot whose ordinal equals it |
| `Slots.CursorMatchesIndexMap` | phoneinputotpfield/src/main/java/com/example/phoneinputotpfield/components/PhoneOtpTextField.kt:117-128 | a cursor exists iff the value's length is a value of `digitIndexMap`, and then the map sends the cursor to that length |
| `Slots.ParenFormatSlots` | phoneinputotpfield/src/main/java/com/example/phoneinputotpfield/PhoneNumberElement.kt:65-68 | in the "(", digit, ")" example the only key of `digitIndexMap` is index 1, mapped to digit 0 |
| `Slots.ParenFormatCursor` | phoneinputotpfield/src/main/java/com/example/phoneinputotpfield/PhoneNumberElement.kt:65-68 | in that example the empty value's cursor is index 1 and a one-digit value has none |
| `Wrappers.Present` | phoneinputotpfield/src/main/java/com/example/phoneinputotpfield/components/PhoneOtpTextField.kt:140-147 | the draw loop in which `?.let` draws nothing for a missing key: never more segments than steps, and when no step is missing, exactly one per step, in order |
| `PhoneOtpTextField.Filter` | phoneinputotpfield/src/main/java/com/example/phoneinputotpfield/components/PhoneOtpTextField.kt:103-107 | the library's `onValueChange` filter; its own contract: what it passes on is the proposed text unchanged, digits only and within capacity, and it drops only texts that are not. The iff and the cases "" and "12a" are `PhoneOtpTextField.FilterAcceptsRawValues` |
| `PhoneOtpTextField.FilterAcceptsRawValues` | phoneinputotpfield/src/main/java/com/example/phoneinputotpfield/components/PhoneOtpTextField.kt:103-107 | an edit is passed on iff it is no longer than the capacity and all digits, and then verbatim; "" is always passed on; a too-long text and "12a" never are |
| `PhoneOtpTextField.NextValue` | phoneinputotpfield/src/main/java/com/example/phoneinputotpfield/components/PhoneOtpTextField.kt:103-107 | the held value after an edit is either the proposed text or the old value, and it is the proposed text exactly when the filter passes it on (or it equals the old value) |
| `PhoneOtpTextField.EditKeepsRawValue` | phoneinputotpfield/src/main/java/com/example/phoneinputotpfield/components/PhoneOtpTextField.kt:103-107 | from a digits-only value within capacity, every edit leads to a digits-only value within capacity; a dropped edit leaves the value unchanged |
| `PhoneOtpTextField.TypingLandsAtCursor` | phoneinputotpfield/src/main/java/com/example/phoneinputotpfield/components/PhoneOtpTextField.kt:83-107 | typing one digit is passed on iff there is a cursor, and then the cursor's slot shows that digit; deleting the last digit is always passed on |
| `PhoneOtpTextField.PhoneOtpColor.MaskColor` | phoneinputotpfield/src/main/java/com/example/phoneinputotpfield/components/PhoneOtpTextField.kt:178-180 | `maskColor(enabled)`; its own contract: the result is one of the two mask colours. Which one is `PhoneOtpTextField.ContentColors` |
| `PhoneOtpTextField.PhoneOtpColor.EditableColor` | phoneinputotpfield/src/main/java/com/example/phoneinputotpfield/components/PhoneOtpTextField.kt:182-184 | `editableColor(enabled)`; its own contract: the result is one of the two digit colours. Which one is `PhoneOtpTextField.ContentColors` |
| `PhoneOtpTextField.ContentColors` | phoneinputotpfield/src/main/java/com/example/phoneinputotpfield/components/PhoneOtpTextField.kt:178-184 | `maskColor`/`editableColor` pick one of their two variants, and the enabled one iff `enabled` (when the variants differ) |
| `PhoneOtpTextField.ElementView` | phoneinputotpfield/src/main/java/com/example/phoneinputotpfield/components/PhoneOtpTextField.kt:134-161 | the draw step for one element; its own contract: it draws something iff the element is a `Mask` or its index is a key of the slot map, and draws a field iff the element is a slot. What it draws is `PhoneOtpTextField.RenderShape` and `PhoneOtpTextField.DividerAt` |
| `PhoneOtpTextField.Render` | phoneinputotpfield/src/main/java/com/example/phoneinputotpfield/components/PhoneOtpTextField.kt:117-161 | the row drawn for a value; its own contract: at most one segment per element. Its content is `PhoneOtpTextField.RenderShape`, `PhoneOtpTextField.FilledCountIsMin` and `PhoneOtpTextField.DividerHighlight` |
| `PhoneOtpTextField.RenderLength` | phoneinputotpfield/src/main/java/com/example/phoneinputotpfield/components/PhoneOtpTextField.kt:134-161 | every element draws exactly one segment: the `?.let` never skips |
| `PhoneOtpTextField.RenderShape` | phoneinputotpfield/src/main/java/com/example/phoneinputotpfield/components/PhoneOtpTextField.kt:134-161 | a `Mask` draws its text in the mask colour; the slot with ordinal k draws `value[k]` in the editable colour if k < the value's length, else nothing |
| `PhoneOtpTextField.FilledAt` | phoneinputotpfield/src/main/java/com/example/phoneinputotpfield/components/PhoneOtpTextField.kt:140-146 | a segment shows a digit iff it is a slot whose ordinal is below the value's length |
| `PhoneOtpTextField.FilledSlotsArePrefix` | phoneinputotpfield/src/main/java/com/example/phoneinputotpfield/components/PhoneOtpTextField.kt:140-146 | a filled slot is never preceded by an empty slot |
| `PhoneOtpTextField.FilledCountStep` | phoneinputotpfield/src/main/java/com/example/phoneinputotpfield/components/PhoneOtpTextField.kt:140-146 | extending a row by one segment raises its count of filled slots by one exactly when that segment shows a digit |
| `PhoneOtpTextField.FilledCountOfRow` | phoneinputotpfield/src/main/java/com/example/phoneinputotpfield/components/PhoneOtpTextField.kt:140-146 | a row whose filled segments are the slots with ordinal below n has min(n, capacity) filled segments |
| `PhoneOtpTextField.FilledCountIsMin` | phoneinputotpfield/src/main/java/com/example/phoneinputotpfield/components/PhoneOtpTextField.kt:140-146 | the number of slots showing a digit is min(the value's length, capacity) |
| `PhoneOtpTextField.DividerAt` | phoneinputotpfield/src/main/java/com/example/phoneinputotpfield/components/PhoneOtpTextField.kt:143-145 | a slot's divider is `focusedDividersColor` when it is the cursor's slot and the field has focus, `dividersColor` otherwise |
| `PhoneOtpTextField.DividerHighlight` | phoneinputotpfield/src/main/java/com/example/phoneinputotpfield/components/PhoneOtpTextField.kt:143-145 | a divider is highlighted iff it is the cursor's and the field is focused; at most one is; none when the value is full or the field unfocused |
| `MainActivity.AppFilter` | app/src/main/java/com/example/phoneinputtextfield/MainActivity.kt:89-93 | the app's `onValueChange` filter; its own contract: what it passes on is the proposed text unchanged and within capacity, and it drops only texts longer than the capacity. The iff is `MainActivity.AppFilterChecksLengthOnly` |
| `MainActivity.AppNextValue` | app/src/main/java/com/example/phoneinputtextfield/MainActivity.kt:89-93 | the app's held value after an edit is the proposed text exactly when its filter passes it on (or it equals the old value), else the old value |
| `MainActivity.AppFilterChecksLengthOnly` | app/src/main/java/com/example/phoneinputtextfield/MainActivity.kt:89-93 | the app passes an edit on iff it is no longer than the slot count, verbatim; the held value stays within capacity, and a dropped edit leaves it unchanged |
| `MainActivity.AppFilterIsLaxer` | app/src/main/java/com/example/phoneinputtextfield/MainActivity.kt:89-93 | all the library passes, the app passes; with at least 3 slots the app passes "12a" and the library drops it |
| `MainActivity.AppSlotText` | app/src/main/java/com/example/phoneinputtextfield/MainActivity.kt:116 | the text of one app slot, `value.getOrNull(digitIndex)?.toString()` with `text ?: " "` at line 165: always one character, the value's character at that position, or " " past the end |
| `MainActivity.AppElementView` | app/src/main/java/com/example/phoneinputtextfield/MainActivity.kt:111-127 | the app's draw step for one element; its own contract: it draws something iff the element is a `Mask` or its index is a key of the slot map. What it draws is `MainActivity.AppRenderShape` |
| `MainActivity.AppRender` | app/src/main/java/com/example/phoneinputtextfield/MainActivity.kt:98-127 | the texts of the row the app draws; its own contract: at most one text per element. Its content is `MainActivity.AppRenderShape` |
| `MainActivity.AppRenderShape` | app/src/main/java/com/example/phoneinputtextfield/MainActivity.kt:98-127 | with the same `digitIndexMap` rule, each element draws exactly one text: a `Mask` its own text, slot k the character `value[k]` or " " when k >= the value's length |
| `MainActivity.AppMaskIgnoresValue` | app/src/main/java/com/example/phoneinputtextfield/MainActivity.kt:121-125 | a `Mask` draws the same text, its own, whatever the value |
| `FormatPatterns.RusHasRusLayout` | app/src/main/java/com/example/phoneinputtextfield/MainActivity.kt:188-206 | RUS is "+7", "(", 3 slots, ")", 3 slots, "-", 2 slots, "-", 2 slots |
| `FormatPatterns.RusLayoutOrdinals` | app/src/main/java/com/example/phoneinputtextfield/MainActivity.kt:188-206 | in the RUS layout the slots at indices 2-4, 6-8, 10-11 and 13-14 take digits 0 to 9 in order, and the capacity is 10 |
| `FormatPatterns.RusCapacity` | app/src/main/java/com/example/phoneinputtextfield/MainActivity.kt:188-206 | RUS has 15 elements and 10 slots |
| `FormatPatterns.UsaCapacity` | app/src/main/java/com/example/phoneinputtextfield/MainActivity.kt:212-228 | USA has 14 elements and 10 slots |
| `FormatPatterns.UsaLayoutCapacity` | app/src/main/java/com/example/phoneinputtextfield/MainActivity.kt:212-228 | every format with the USA layout of masks and slots has 10 slots |
| `FormatPatterns.FraCapacity` | app/src/main/java/com/example/phoneinputtextfield/MainActivity.kt:235-253 | FRA has 15 elements and 9 slots |
| `FormatPatterns.FraLayoutCapacity` | app/src/main/java/com/example/phoneinputtextfield/MainActivity.kt:235-253 | every format with the FRA layout of masks and slots has 9 slots |
| `FormatPatterns.RusFullRendering` | app/src/main/java/com/example/phoneinputtextfield/MainActivity.kt:188-206 | a 10-character value in RUS draws "+7", "(", d0, d1, d2, ")", d3, d4, d5, "-", d6, d7, "-", d8, d9, with no space after "+7" and none after ")" |
| `FormatPatterns.RusLayoutFullRendering` | app/src/main/java/com/example/phoneinputtextfield/MainActivity.kt:111-127 | the same segments for every format with the RUS layout |
| `FormatPatterns.RusEmptyValue` | app/src/main/java/com/example/phoneinputtextfield/MainActivity.kt:188-206 | the app draws every RUS slot of the empty value as " "; the `cursorPosition` countdown, applied to a list with the RUS elements, gives index 2, its first slot (the app itself computes no cursor) |
| `FormatPatterns.RusLayoutEmptyValue` | app/src/main/java/com/example/phoneinputtextfield/MainActivity.kt:111-127 | the same two facts for every format with the RUS layout |
| `FormatPatterns.RusLibraryEdits` | phoneinputotpfield/src/main/java/com/example/phoneinputotpfield/components/PhoneOtpTextField.kt:83-107 | the library's filter and countdown applied to a list with the RUS elements (the preset itself has the app's element type): a 10-digit value has no cursor; "999" to "9991" is taken; "999a" and an 11th digit are dropped and the value stays as it was |
| `FormatPatterns.TenSlotEdits` | phoneinputotpfield/src/main/java/com/example/phoneinputotpfield/components/PhoneOtpTextField.kt:83-107 | the same edits behave so in the library field for every 10-slot format |

## Left out

- Compose plumbing is not modelled: `BasicTextField`, `Row`/`Column`,
  `CompositionLocalProvider`, keyboard options, spacing in dp, text-style
  merging, `AnimatedContent`, `Divider` drawing, the previews and
  `MainActivity.onCreate`. It is UI framework, not logic.
- `remember`/`rememberSaveable` caching is not modelled. The model
  recomputes the capacity, the slot map and the cursor from the current
  format and value on every call. In the source, the app's
  `editableDigitCount` is remembered with no key (MainActivity.kt:83-85), and
  both the app's `digitIndexMap` (MainActivity.kt:98) and the library's
  (PhoneOtpTextField.kt:117) are remembered keyed on the value only. All
  three would go stale if the format changed while the field stayed on
  screen.
- `EditableField.kt` and `Mask.kt` only draw. An empty slot draws an invisible
  placeholder "0" with alpha 0; the model records it as an absent digit.
- Focus tracking through `onFocusChanged` is not modelled: `isFocused` is an
  input.
- Colours are an opaque type parameter, and their concrete defaults
  (`Color.Black`, `Color.LightGray`, `Color.Blue`) are not modelled.
- PhoneOtpTextField.IsDigitsOnly: checks ASCII '0'..'9' only. Android's
  `isDigitsOnly` uses `Character.isDigit`, which also accepts other Unicode
  decimal digits. The library filter as modelled therefore rejects some texts
  that the source passes on.
- MainActivity.AppFilterChecksLengthOnly: lengths here count Unicode scalar
  values, while Kotlin's `String.length` counts UTF-16 code units. A character
  outside the Basic Multilingual Plane counts once here and twice in the
  source, so with one slot the source drops "\U{1F600}" and the model passes
  it on.
- MainActivity.AppRenderShape: slot k draws the k-th Unicode scalar value,
  while `getOrNull` in the source takes the k-th UTF-16 code unit. A
  character outside the Basic Multilingual Plane fills one slot here, and the
  source splits it into its two surrogate halves over two slots.
- Slots.CursorPosition: the `reminder` countdown starts from the value's
  length in Unicode scalar values, not in UTF-16 code units as
  `value.length` does. The same holds for `PhoneOtpTextField.RenderShape`
  (`getOrNull` on a value the caller supplies). The two differ only for text
  with characters outside the Basic Multilingual Plane.
- FormatPatterns.RusLibraryEdits: in the source the presets are lists of the
  demo app's own `PhoneNumberElement` type, and the library's
  `PhoneOtpTextField` does not accept them (its `mask` has the library's
  element type). The model uses one `Element` type for both copies, so these
  library facts describe a library list with the same elements as RUS.
  `FormatPatterns.TenSlotEdits` states them for every 10-slot format. The
  same holds for the cursor index stated by `FormatPatterns.RusEmptyValue`.
- Calling `onValueChange` is modelled as the text handed on (`Some`) or
  nothing (`None`). The caller's state is modelled only as the common
  `value = it` store in `NextValue`/`AppNextValue`.
