/** The demo app's built-in formats (`FormatPatterns`) and what the two fields
    do with them. The element lists put no space between the country code and
    "(", nor between ")" and the next digit, although the documentation of RUS
    and USA writes "+7 (XXX) XXX" and "+1 (XXX) XXX"; the model follows the
    lists. */
module FormatPatterns {
  import opened PhoneNumberElement
  import opened Slots
  import PhoneOtpTextField
  import MainActivity

  /** Russia: "+7", "(", 3 digits, ")", 3 digits, "-", 2 digits, "-", 2 digits. */
  const Rus: Format := [
    Mask("+7"), Mask("("), EditableDigit, EditableDigit, EditableDigit,
    Mask(")"), EditableDigit, EditableDigit, EditableDigit,
    Mask("-"), EditableDigit, EditableDigit,
    Mask("-"), EditableDigit, EditableDigit
  ]

  /** United States: "+1", "(", 3 digits, ")", 3 digits, "-", 4 digits. */
  const Usa: Format := [
    Mask("+1"), Mask("("), EditableDigit, EditableDigit, EditableDigit,
    Mask(")"), EditableDigit, EditableDigit, EditableDigit,
    Mask("-"), EditableDigit, EditableDigit, EditableDigit, EditableDigit
  ]

  /** France: "+33", then 1 digit and four pairs of digits, each group after " ". */
  const Fra: Format := [
    Mask("+33"), Mask(" "), EditableDigit,
    Mask(" "), EditableDigit, EditableDigit,
    Mask(" "), EditableDigit, EditableDigit,
    Mask(" "), EditableDigit, EditableDigit,
    Mask(" "), EditableDigit, EditableDigit
  ]

  /** The Russian preset holds 10 digits in 15 elements. */
  lemma RusCapacity()
    ensures |Rus| == 15 && Capacity(Rus) == 10
  {
    RusHasRusLayout();
    RusLayoutOrdinals(Rus);
  }

  /** The United States preset holds 10 digits in 14 elements. */
  lemma UsaCapacity()
    ensures |Usa| == 14 && Capacity(Usa) == 10
  {
    UsaLayoutCapacity(Usa);
  }

  /** The layout of `Usa`, mask or slot element by element, whatever the mask
      texts. */
  predicate UsaLayout(f: Format)
  {
    && |f| == 14
    && f[0].Mask?
    && f[1].Mask?
    && f[2] == EditableDigit
    && f[3] == EditableDigit
    && f[4] == EditableDigit
    && f[5].Mask?
    && f[6] == EditableDigit
    && f[7] == EditableDigit
    && f[8] == EditableDigit
    && f[9].Mask?
    && f[10] == EditableDigit
    && f[11] == EditableDigit
    && f[12] == EditableDigit
    && f[13] == EditableDigit
  }

  /** Any format laid out like `Usa` holds 10 digits. */
  lemma UsaLayoutCapacity(f: Format)
    requires UsaLayout(f)
    ensures Capacity(f) == 10
  {
    assert f[..0] == [];
    PrefixCapacityStep(f, 0); assert Capacity(f[..1]) == 0;
    PrefixCapacityStep(f, 1); assert Capacity(f[..2]) == 0;
    PrefixCapacityStep(f, 2); assert Capacity(f[..3]) == 1;
    PrefixCapacityStep(f, 3); assert Capacity(f[..4]) == 2;
    PrefixCapacityStep(f, 4); assert Capacity(f[..5]) == 3;
    PrefixCapacityStep(f, 5); assert Capacity(f[..6]) == 3;
    PrefixCapacityStep(f, 6); assert Capacity(f[..7]) == 4;
    PrefixCapacityStep(f, 7); assert Capacity(f[..8]) == 5;
    PrefixCapacityStep(f, 8); assert Capacity(f[..9]) == 6;
    PrefixCapacityStep(f, 9); assert Capacity(f[..10]) == 6;
    PrefixCapacityStep(f, 10); assert Capacity(f[..11]) == 7;
    PrefixCapacityStep(f, 11); assert Capacity(f[..12]) == 8;
    PrefixCapacityStep(f, 12); assert Capacity(f[..13]) == 9;
    PrefixCapacityStep(f, 13); assert Capacity(f[..14]) == 10;
    assert f[..14] == f;
  }

  /** The French preset holds 9 digits in 15 elements. */
  lemma FraCapacity()
    ensures |Fra| == 15 && Capacity(Fra) == 9
  {
    FraLayoutCapacity(Fra);
  }

  /** The layout of `Fra`, mask or slot element by element, whatever the mask
      texts. */
  predicate FraLayout(f: Format)
  {
    && |f| == 15
    && f[0].Mask?
    && f[1].Mask?
    && f[2] == EditableDigit
    && f[3].Mask?
    && f[4] == EditableDigit
    && f[5] == EditableDigit
    && f[6].Mask?
    && f[7] == EditableDigit
    && f[8] == EditableDigit
    && f[9].Mask?
    && f[10] == EditableDigit
    && f[11] == EditableDigit
    && f[12].Mask?
    && f[13] == EditableDigit
    && f[14] == EditableDigit
  }

  /** Any format laid out like `Fra` holds 9 digits. */
  lemma FraLayoutCapacity(f: Format)
    requires FraLayout(f)
    ensures Capacity(f) == 9
  {
    assert f[..0] == [];
    PrefixCapacityStep(f, 0); assert Capacity(f[..1]) == 0;
    PrefixCapacityStep(f, 1); assert Capacity(f[..2]) == 0;
    PrefixCapacityStep(f, 2); assert Capacity(f[..3]) == 1;
    PrefixCapacityStep(f, 3); assert Capacity(f[..4]) == 1;
    PrefixCapacityStep(f, 4); assert Capacity(f[..5]) == 2;
    PrefixCapacityStep(f, 5); assert Capacity(f[..6]) == 3;
    PrefixCapacityStep(f, 6); assert Capacity(f[..7]) == 3;
    PrefixCapacityStep(f, 7); assert Capacity(f[..8]) == 4;
    PrefixCapacityStep(f, 8); assert Capacity(f[..9]) == 5;
    PrefixCapacityStep(f, 9); assert Capacity(f[..10]) == 5;
    PrefixCapacityStep(f, 10); assert Capacity(f[..11]) == 6;
    PrefixCapacityStep(f, 11); assert Capacity(f[..12]) == 7;
    PrefixCapacityStep(f, 12); assert Capacity(f[..13]) == 7;
    PrefixCapacityStep(f, 13); assert Capacity(f[..14]) == 8;
    PrefixCapacityStep(f, 14); assert Capacity(f[..15]) == 9;
    assert f[..15] == f;
  }

  /** The Russian layout element by element, stated for any format so that
      proofs about it need not unfold the constant. */
  predicate RusLayout(f: Format)
  {
    && |f| == 15
    && f[0] == Mask("+7")
    && f[1] == Mask("(")
    && f[2] == EditableDigit
    && f[3] == EditableDigit
    && f[4] == EditableDigit
    && f[5] == Mask(")")
    && f[6] == EditableDigit
    && f[7] == EditableDigit
    && f[8] == EditableDigit
    && f[9] == Mask("-")
    && f[10] == EditableDigit
    && f[11] == EditableDigit
    && f[12] == Mask("-")
    && f[13] == EditableDigit
    && f[14] == EditableDigit
  }

  lemma RusHasRusLayout()
    ensures RusLayout(Rus)
  {
  }

  /** The ordinals of the slots of the Russian layout, front to back. */
  lemma RusLayoutOrdinals(f: Format)
    requires RusLayout(f)
    ensures Ordinal(f, 2) == 0 && Ordinal(f, 3) == 1 && Ordinal(f, 4) == 2
    ensures Ordinal(f, 6) == 3 && Ordinal(f, 7) == 4 && Ordinal(f, 8) == 5
    ensures Ordinal(f, 10) == 6 && Ordinal(f, 11) == 7
    ensures Ordinal(f, 13) == 8 && Ordinal(f, 14) == 9
    ensures Capacity(f) == 10
  {
    assert f[..0] == [];
    OrdinalStep(f, 0); assert Ordinal(f, 1) == 0;
    OrdinalStep(f, 1); assert Ordinal(f, 2) == 0;
    OrdinalStep(f, 2); assert Ordinal(f, 3) == 1;
    OrdinalStep(f, 3); assert Ordinal(f, 4) == 2;
    OrdinalStep(f, 4); assert Ordinal(f, 5) == 3;
    OrdinalStep(f, 5); assert Ordinal(f, 6) == 3;
    OrdinalStep(f, 6); assert Ordinal(f, 7) == 4;
    OrdinalStep(f, 7); assert Ordinal(f, 8) == 5;
    OrdinalStep(f, 8); assert Ordinal(f, 9) == 6;
    OrdinalStep(f, 9); assert Ordinal(f, 10) == 6;
    OrdinalStep(f, 10); assert Ordinal(f, 11) == 7;
    OrdinalStep(f, 11); assert Ordinal(f, 12) == 8;
    OrdinalStep(f, 12); assert Ordinal(f, 13) == 8;
    OrdinalStep(f, 13); assert Ordinal(f, 14) == 9;
    OrdinalStep(f, 14);
    assert f[..15] == f;
  }

  /** The app draws a full Russian number as "+7", "(", three digits, ")",
      three digits, "-", two digits, "-", two digits: no space after "+7" and
      none after ")". */
  lemma RusFullRendering(d: string)
    requires |d| == 10
    ensures MainActivity.AppRender(Rus, d) ==
      ["+7", "(", [d[0]], [d[1]], [d[2]], ")", [d[3]], [d[4]], [d[5]],
       "-", [d[6]], [d[7]], "-", [d[8]], [d[9]]]
  {
    RusHasRusLayout();
    RusLayoutFullRendering(Rus, d);
  }

  /** Any format with the Russian layout draws a full number so. */
  lemma RusLayoutFullRendering(f: Format, d: string)
    requires RusLayout(f) && |d| == 10
    ensures MainActivity.AppRender(f, d) ==
      ["+7", "(", [d[0]], [d[1]], [d[2]], ")", [d[3]], [d[4]], [d[5]],
       "-", [d[6]], [d[7]], "-", [d[8]], [d[9]]]
  {
    MainActivity.AppRenderShape(f, d);
    RusLayoutOrdinals(f);
  }

  /** The app draws every Russian slot of the empty value blank, and the
      `cursorPosition` countdown, applied to a list with the Russian elements,
      puts the cursor on its first slot, index 2. (The app itself computes no
      cursor.) */
  lemma RusEmptyValue()
    ensures Cursor(Rus, 0) == 2
    ensures MainActivity.AppRender(Rus, "") ==
      ["+7", "(", " ", " ", " ", ")", " ", " ", " ", "-", " ", " ", "-", " ", " "]
  {
    RusHasRusLayout();
    RusLayoutEmptyValue(Rus);
  }

  /** Any format with the Russian layout draws the empty value so, and has
      its first slot at index 2. */
  lemma RusLayoutEmptyValue(f: Format)
    requires RusLayout(f)
    ensures Cursor(f, 0) == 2
    ensures MainActivity.AppRender(f, "") ==
      ["+7", "(", " ", " ", " ", ")", " ", " ", " ", "-", " ", " ", "-", " ", " "]
  {
    MainActivity.AppRenderShape(f, "");
    RusLayoutOrdinals(f);
    CursorIsFirstEmptySlot(f, 0, 2);
  }

  /** The library field's filter and countdown applied to a list with the
      Russian elements (the preset itself is of the app's element type): a
      full number leaves no cursor; "999" to "9991" is taken; "999" to "999a"
      is dropped and the held value stays "999"; an eleventh digit is
      dropped. */
  lemma RusLibraryEdits()
    ensures Cursor(Rus, |"9991234567"|) == -1
    ensures PhoneOtpTextField.NextValue(Rus, "999", "9991") == "9991"
    ensures PhoneOtpTextField.NextValue(Rus, "999", "999a") == "999"
    ensures PhoneOtpTextField.NextValue(Rus, "9991234567", "99912345678") == "9991234567"
  {
    RusCapacity();
    TenSlotEdits(Rus);
  }

  /** The same edits in the library field, for any format with 10 slots. */
  lemma TenSlotEdits(f: Format)
    requires Capacity(f) == 10
    ensures Cursor(f, |"9991234567"|) == -1
    ensures PhoneOtpTextField.NextValue(f, "999", "9991") == "9991"
    ensures PhoneOtpTextField.NextValue(f, "999", "999a") == "999"
    ensures PhoneOtpTextField.NextValue(f, "9991234567", "99912345678") == "9991234567"
  {
    assert !PhoneOtpTextField.IsDigit("999a"[3]);
  }
}
