/** How the digits of a value are assigned to the slots of a format. Both input
    fields use the same rule: the slot at a format index takes the digit whose
    position is the number of slots before that index. The field's
    `digitIndexMap` records the rule, and the `cursorPosition` countdown
    finds the first slot that has no digit yet. */
module Slots {
  import opened PhoneNumberElement

  /** The position among the slots of the element at format index `i`: how many
      `EditableDigit` elements come before it. */
  function Ordinal(f: Format, i: nat): (n: nat)
    requires i <= |f|
    ensures n <= i
  {
    Capacity(f[..i])
  }

  /** Passing one element adds one to the ordinal exactly when it is a slot. */
  lemma OrdinalStep(f: Format, i: nat)
    requires i < |f|
    ensures Ordinal(f, i + 1) == Ordinal(f, i) + (if f[i] == EditableDigit then 1 else 0)
  {
    PrefixCapacityStep(f, i);
  }

  /** Ordinals grow along the format, strictly across a slot, and never pass
      the capacity: a slot's ordinal is below the capacity. */
  lemma OrdinalMonotone(f: Format, i: nat, j: nat)
    requires i <= j <= |f|
    ensures Ordinal(f, i) <= Ordinal(f, j) <= Capacity(f)
    ensures i < j && f[i] == EditableDigit ==> Ordinal(f, i) < Ordinal(f, j)
  {
    assert f[..j] == f[..i] + f[i..j];
    CapacityConcat(f[..i], f[i..j]);
    assert f == f[..j] + f[j..];
    CapacityConcat(f[..j], f[j..]);
    if i < j && f[i] == EditableDigit {
      assert f[i..j][0] == f[i];
    }
  }

  /** Two slots with the same ordinal are the same slot. */
  lemma OrdinalInjective(f: Format, i: nat, j: nat)
    requires i < |f| && j < |f|
    requires f[i] == EditableDigit && f[j] == EditableDigit
    requires Ordinal(f, i) == Ordinal(f, j)
    ensures i == j
  {
    if i < j {
      OrdinalMonotone(f, i, j);
    } else if j < i {
      OrdinalMonotone(f, j, i);
    }
  }

  /** `digitIndexMap`: each slot's format index mapped to its ordinal. */
  function IndexMap(f: Format): (m: map<nat, nat>)
    ensures forall i :: i in m ==> i < |f| && f[i] == EditableDigit
  {
    map i: nat | i < |f| && f[i] == EditableDigit :: Ordinal(f, i)
  }

  /** The loop that builds `digitIndexMap` (`mapIndexedNotNull` with the
      counter `start`, which is incremented after each slot). */
  method DigitIndexMap(mask: Format) returns (m: map<nat, nat>)
    ensures m == IndexMap(mask)
  {
    var start: nat := 0;
    m := map[];
    var index: nat := 0;
    while index < |mask|
      invariant index <= |mask|
      invariant start == Ordinal(mask, index)
      invariant forall i: nat :: i in m <==> i < index && mask[i] == EditableDigit
      invariant forall i: nat :: i in m ==> m[i] == Ordinal(mask, i)
    {
      OrdinalStep(mask, index);
      if mask[index] == EditableDigit {
        m := m[index := start];
        start := start + 1;
      }
      index := index + 1;
    }
    assert m.Keys == IndexMap(mask).Keys;
  }

  /** `digitIndexMap` is a bijection from the slot indices onto the digit
      positions 0 .. capacity - 1 that keeps their order. */
  lemma IndexMapBijective(f: Format)
    ensures forall i: nat :: i in IndexMap(f) <==> i < |f| && f[i] == EditableDigit
    ensures forall k: nat :: k in IndexMap(f).Values <==> k < Capacity(f)
    ensures forall i: nat, j: nat :: i in IndexMap(f) && j in IndexMap(f) && i < j ==>
              IndexMap(f)[i] < IndexMap(f)[j]
  {
    var m := IndexMap(f);
    forall i: nat, j: nat | i in m && j in m && i < j
      ensures m[i] < m[j]
    {
      OrdinalMonotone(f, i, j);
    }
    forall k: nat | k in m.Values
      ensures k < Capacity(f)
    {
      var i :| i in m && m[i] == k;
      OrdinalMonotone(f, i, |f|);
    }
    forall k: nat | k < Capacity(f)
      ensures k in m.Values
    {
      var c := Cursor(f, k);
      assert c in m && m[c] == k;
    }
  }

  /** The cursor as the field computes it, `indexOfFirst` with the `reminder`
      countdown: walking the format, the first slot met while the countdown is
      zero is the cursor; each slot met before that counts the countdown down.
      The result is -1 when no such slot exists.

      With `reminder` the length of the value, the cursor is the first slot
      without a digit, and -1 exactly when the value fills every slot. */
  function Cursor(f: Format, reminder: nat): (r: int)
    ensures r == -1 <==> reminder >= Capacity(f)
    ensures r != -1 ==> 0 <= r < |f| && f[r] == EditableDigit && Ordinal(f, r) == reminder
    decreases |f|
  {
    if |f| == 0 then -1
    else if f[0] == EditableDigit && reminder == 0 then 0
    else
      var rest := Cursor(f[1..], if f[0] == EditableDigit then reminder - 1 else reminder);
      if rest == -1 then -1
      else
        assert f[..rest + 1] == [f[0]] + f[1..][..rest];
        rest + 1
  }

  /** The cursor is the one slot whose ordinal is the value's length: every
      slot before it has a digit, every slot after it has none. */
  lemma CursorIsFirstEmptySlot(f: Format, n: nat, i: nat)
    requires Cursor(f, n) != -1
    requires i < |f| && f[i] == EditableDigit
    ensures i < Cursor(f, n) <==> Ordinal(f, i) < n
    ensures i == Cursor(f, n) <==> Ordinal(f, i) == n
  {
    var c := Cursor(f, n);
    if i < c {
      OrdinalMonotone(f, i, c);
    } else if c < i {
      OrdinalMonotone(f, c, i);
    }
  }

  /** The cursor and `digitIndexMap` agree: when there is a cursor, the map
      sends it to the value's length, the position the next digit will take. */
  lemma CursorMatchesIndexMap(f: Format, n: nat)
    ensures Cursor(f, n) != -1 <==> n in IndexMap(f).Values
    ensures Cursor(f, n) != -1 ==>
              Cursor(f, n) in IndexMap(f) && IndexMap(f)[Cursor(f, n)] == n
  {
    IndexMapBijective(f);
  }

  /** A cursor index offset by `offset`, keeping -1 for "no cursor". */
  function Shift(c: int, offset: nat): (r: int)
    ensures c >= -1 ==> (r == -1 <==> c == -1)
  {
    if c == -1 then -1 else c + offset
  }

  /** The field's `cursorPosition` loop, element by element, with the
      `reminder` countdown held in a variable. */
  method CursorPosition(mask: Format, value: string) returns (r: int)
    ensures r == Cursor(mask, |value|)
    ensures r == -1 <==> |value| >= Capacity(mask)
    ensures r != -1 ==> mask[r] == EditableDigit && Ordinal(mask, r) == |value|
  {
    var reminder: nat := |value|;
    var index: nat := 0;
    while index < |mask|
      invariant index <= |mask|
      invariant Cursor(mask, |value|) == Shift(Cursor(mask[index..], reminder), index)
    {
      assert mask[index..][1..] == mask[index + 1..];
      if mask[index] == EditableDigit && reminder == 0 {
        return index;
      } else if mask[index] == EditableDigit {
        reminder := reminder - 1;
      }
      index := index + 1;
    }
    return -1;
  }

  /** The one-digit documentation example has its only slot at index 1, and
      that slot takes the first digit. */
  lemma ParenFormatSlots()
    ensures IndexMap(ParenFormat).Keys == {1}
    ensures IndexMap(ParenFormat)[1] == 0
  {
    var f := ParenFormat;
    assert f[0].Mask? && f[1] == EditableDigit && f[2].Mask?;
    assert Ordinal(f, 1) == 0 by {
      assert f[..1] == [Mask("(")];
    }
    forall i: nat | i in IndexMap(f) ensures i == 1 { }
  }

  /** In the one-digit example the cursor of the empty value is that slot, and
      a one-digit value leaves no cursor. */
  lemma ParenFormatCursor()
    ensures Cursor(ParenFormat, 0) == 1
    ensures Cursor(ParenFormat, 1) == -1
  {
    var f := ParenFormat;
    DocumentedFormats();
    assert f[0].Mask? && f[1] == EditableDigit && f[2].Mask?;
    var c := Cursor(f, 0);
    assert f[c] == EditableDigit;
  }
}
