/** The elements a phone-number format is made of, and the number of digits a
    format can hold. */
module PhoneNumberElement {

  /** One element of a format: a literal piece of text that is shown as it is
      and takes no input, or the placeholder for exactly one typed digit.
      `EditableDigit` carries no data, so all its occurrences are the same value. */
  datatype Element = Mask(text: string) | EditableDigit

  /** A format is the ordered list of its elements. */
  type Format = seq<Element>

  /** The number of `EditableDigit` elements of `f`: the library's `maxLength`
      and the size of the demo app's `editableDigitCount`. */
  function Capacity(f: Format): (n: nat)
    ensures n <= |f|
  {
    if |f| == 0 then 0
    else (if f[0] == EditableDigit then 1 else 0) + Capacity(f[1..])
  }

  /** A format has capacity zero exactly when it is all `Mask` elements, and
      capacity equal to its length exactly when it is all slots. */
  lemma {:induction false} CapacityExtremes(f: Format)
    ensures Capacity(f) == 0 <==> forall i :: 0 <= i < |f| ==> f[i].Mask?
    ensures Capacity(f) == |f| <==> forall i :: 0 <= i < |f| ==> f[i] == EditableDigit
  {
    if |f| > 0 {
      CapacityExtremes(f[1..]);
      assert forall i :: 1 <= i < |f| ==> f[i] == f[1..][i - 1];
    }
  }

  /** Every element is exactly one of the two kinds, and it adds one to the
      capacity exactly when it is the digit placeholder. */
  lemma ElementKinds(e: Element)
    ensures e.Mask? != (e == EditableDigit)
    ensures e.Mask? ==> e == Mask(e.text) && Capacity([e]) == 0
    ensures e == EditableDigit ==> Capacity([e]) == 1
  {
  }

  /** The capacity of a joined format is the sum of the parts' capacities. */
  lemma {:induction false} CapacityConcat(a: Format, b: Format)
    ensures Capacity(a + b) == Capacity(a) + Capacity(b)
  {
    if |a| == 0 {
      assert a + b == b;
    } else {
      assert (a + b)[1..] == a[1..] + b;
      CapacityConcat(a[1..], b);
    }
  }

  /** Capacity is the number of occurrences of `EditableDigit`, whatever else
      the format holds. */
  lemma {:induction false} CapacityIsOccurrenceCount(f: Format)
    ensures Capacity(f) == multiset(f)[EditableDigit]
  {
    if |f| > 0 {
      assert f == [f[0]] + f[1..];
      assert multiset(f) == multiset([f[0]]) + multiset(f[1..]);
      CapacityIsOccurrenceCount(f[1..]);
    }
  }

  /** Extending a prefix by one element adds one to its capacity exactly
      when that element is a slot. */
  lemma PrefixCapacityStep(f: Format, i: nat)
    requires i < |f|
    ensures Capacity(f[..i + 1]) == Capacity(f[..i]) + (if f[i] == EditableDigit then 1 else 0)
  {
    assert f[..i + 1] == f[..i] + [f[i]];
    CapacityConcat(f[..i], [f[i]]);
  }

  /** A `Mask` element, whatever its text, never changes the capacity wherever
      it is inserted; an `EditableDigit` always adds exactly one. */
  lemma InsertElement(a: Format, b: Format, t: string)
    ensures Capacity(a + [Mask(t)] + b) == Capacity(a + b)
    ensures Capacity(a + [EditableDigit] + b) == Capacity(a + b) + 1
  {
    CapacityConcat(a, b);
    CapacityConcat(a + [Mask(t)], b);
    CapacityConcat(a, [Mask(t)]);
    CapacityConcat(a + [EditableDigit], b);
    CapacityConcat(a, [EditableDigit]);
  }

  /** The United States format of the type's documentation: "+1 (", three
      digits, ") ", three digits, "-", four digits. */
  const UsFormat: Format := [
    Mask("+1 ("), EditableDigit, EditableDigit, EditableDigit,
    Mask(") "), EditableDigit, EditableDigit, EditableDigit,
    Mask("-"), EditableDigit, EditableDigit, EditableDigit, EditableDigit
  ]

  /** The documentation's one-digit example "(", digit, ")". */
  const ParenFormat: Format := [Mask("("), EditableDigit, Mask(")")]

  /** The documented formats have 13 elements with 10 slots, and 3 elements
      with 1 slot. */
  lemma DocumentedFormats()
    ensures |UsFormat| == 13 && Capacity(UsFormat) == 10
    ensures |ParenFormat| == 3 && Capacity(ParenFormat) == 1
  {
    UsLayoutCapacity(UsFormat);
    ParenLayoutCapacity(ParenFormat);
  }

  /** The layout of `UsFormat`, mask or slot element by element, whatever the
      mask texts. */
  predicate UsLayout(f: Format)
  {
    && |f| == 13
    && f[0].Mask?
    && f[1] == EditableDigit
    && f[2] == EditableDigit
    && f[3] == EditableDigit
    && f[4].Mask?
    && f[5] == EditableDigit
    && f[6] == EditableDigit
    && f[7] == EditableDigit
    && f[8].Mask?
    && f[9] == EditableDigit
    && f[10] == EditableDigit
    && f[11] == EditableDigit
    && f[12] == EditableDigit
  }

  /** Any format laid out like `UsFormat` holds 10 digits. */
  lemma UsLayoutCapacity(f: Format)
    requires UsLayout(f)
    ensures Capacity(f) == 10
  {
    assert f[..0] == [];
    PrefixCapacityStep(f, 0); assert Capacity(f[..1]) == 0;
    PrefixCapacityStep(f, 1); assert Capacity(f[..2]) == 1;
    PrefixCapacityStep(f, 2); assert Capacity(f[..3]) == 2;
    PrefixCapacityStep(f, 3); assert Capacity(f[..4]) == 3;
    PrefixCapacityStep(f, 4); assert Capacity(f[..5]) == 3;
    PrefixCapacityStep(f, 5); assert Capacity(f[..6]) == 4;
    PrefixCapacityStep(f, 6); assert Capacity(f[..7]) == 5;
    PrefixCapacityStep(f, 7); assert Capacity(f[..8]) == 6;
    PrefixCapacityStep(f, 8); assert Capacity(f[..9]) == 6;
    PrefixCapacityStep(f, 9); assert Capacity(f[..10]) == 7;
    PrefixCapacityStep(f, 10); assert Capacity(f[..11]) == 8;
    PrefixCapacityStep(f, 11); assert Capacity(f[..12]) == 9;
    PrefixCapacityStep(f, 12); assert Capacity(f[..13]) == 10;
    assert f[..13] == f;
  }

  /** Any format laid out like `ParenFormat` holds 1 digit. */
  lemma ParenLayoutCapacity(f: Format)
    requires |f| == 3 && f[0].Mask? && f[1] == EditableDigit && f[2].Mask?
    ensures Capacity(f) == 1
  {
    assert f[..0] == [];
    PrefixCapacityStep(f, 0); PrefixCapacityStep(f, 1); PrefixCapacityStep(f, 2);
    assert f[..3] == f;
  }
}
