/** The mask's pattern engine: placing typed characters into the placeholder
    slots of a mask, classifying every character of the result, trimming the
    unfilled tail and judging validity. */
module MaskDetail {
  import opened Wrappers
  import opened MaskFilter

  /** `MaskPart.type`. */
  datatype PartType = ReplacementPart | MaskPart | InputPart

  datatype Part = Part(partType: PartType, value: char, index: nat)

  /** The detail the mask reports with every change. The source also returns
      the generated pattern as a regular-expression string; here the pattern is
      the predicate `Matches`. */
  datatype Detail = Detail(value: string, unmaskedValue: string, parts: seq<Part>, isValid: bool)

  /** The number of placeholder keys in `s`. */
  function KeyCount(s: string, replacement: Replacement): (n: nat)
    ensures n <= |s|
  {
    if s == [] then 0 else (if s[0] in replacement then 1 else 0) + KeyCount(s[1..], replacement)
  }

  /** `formatToMask` as a function: walk the mask, and at each key put the next
      unmasked character while one is left, else the key itself. */
  function Masked(unmaskedValue: string, mask: string, replacement: Replacement): (r: string)
    ensures |r| == |mask|
  {
    if mask == [] then []
    else if mask[0] in replacement && unmaskedValue != [] then
      [unmaskedValue[0]] + Masked(unmaskedValue[1..], mask[1..], replacement)
    else [mask[0]] + Masked(unmaskedValue, mask[1..], replacement)
  }

  /** `formatToMask`: the reduce over the mask with its mutable `position`. */
  method FormatToMask(unmaskedValue: string, mask: string, replacement: Replacement) returns (r: string)
    ensures r == Masked(unmaskedValue, mask, replacement)
  {
    var position := 0;
    r := [];
    var i := 0;
    MaskedEnds(unmaskedValue, mask, replacement, 0);
    while i < |mask|
      invariant 0 <= i <= |mask| && 0 <= position <= |unmaskedValue|
      invariant Masked(unmaskedValue, mask, replacement)
             == r + Masked(unmaskedValue[position..], mask[i..], replacement)
    {
      var c := mask[i];
      var taken := c in replacement && position < |unmaskedValue|;
      MaskedStep(unmaskedValue, mask, replacement, position, i);
      var next := if taken then unmaskedValue[position] else c;
      Regroup(r, next, Masked(unmaskedValue[if taken then position + 1 else position..], mask[i + 1..], replacement));
      r := r + [next];
      position := if taken then position + 1 else position;
      i := i + 1;
    }
    MaskedEnds(unmaskedValue, mask, replacement, position);
  }

  lemma Regroup(r: string, c: char, rest: string)
    ensures r + ([c] + rest) == (r + [c]) + rest
  {
  }

  /** One step of the walk, on the remaining value and mask. */
  lemma MaskedStep(unmaskedValue: string, mask: string, replacement: Replacement, position: nat, i: nat)
    requires position <= |unmaskedValue| && i < |mask|
    ensures Masked(unmaskedValue[position..], mask[i..], replacement)
         == if mask[i] in replacement && position < |unmaskedValue| then
              [unmaskedValue[position]] + Masked(unmaskedValue[position + 1..], mask[i + 1..], replacement)
            else [mask[i]] + Masked(unmaskedValue[position..], mask[i + 1..], replacement)
  {
    assert mask[i..][1..] == mask[i + 1..];
    if position < |unmaskedValue| {
      assert unmaskedValue[position..][1..] == unmaskedValue[position + 1..];
    }
  }

  /** The walk starts on the whole value and mask and ends on an empty mask. */
  lemma MaskedEnds(unmaskedValue: string, mask: string, replacement: Replacement, position: nat)
    requires position <= |unmaskedValue|
    ensures Masked(unmaskedValue[0..], mask[0..], replacement) == Masked(unmaskedValue, mask, replacement)
    ensures Masked(unmaskedValue[position..], mask[|mask|..], replacement) == []
  {
    assert unmaskedValue[0..] == unmaskedValue && mask[0..] == mask && mask[|mask|..] == [];
  }

  lemma KeyCountStep(mask: string, replacement: Replacement, i: nat)
    requires 0 < i <= |mask|
    ensures KeyCount(mask[..i], replacement)
         == (if mask[0] in replacement then 1 else 0) + KeyCount(mask[1..][..i - 1], replacement)
  {
    assert mask[..i][1..] == mask[1..][..i - 1];
  }

  /** What `formatToMask` puts at each position: the mask character at every
      non-key position; at the j-th key the j-th unmasked character while there
      is one, else the key itself. So the slots are filled left to right with a
      prefix of the unmasked value. */
  lemma {:induction false} MaskedAt(unmaskedValue: string, mask: string, replacement: Replacement, i: nat)
    ensures |Masked(unmaskedValue, mask, replacement)| == |mask|
    ensures i < |mask| ==>
      var j := KeyCount(mask[..i], replacement);
      Masked(unmaskedValue, mask, replacement)[i]
        == if mask[i] in replacement && j < |unmaskedValue| then unmaskedValue[j] else mask[i]
    decreases |mask|
  {
    if mask != [] {
      var filled := mask[0] in replacement && unmaskedValue != [];
      var rest := if filled then unmaskedValue[1..] else unmaskedValue;
      if i == 0 {
        MaskedAt(rest, mask[1..], replacement, 0);
      } else {
        MaskedAt(rest, mask[1..], replacement, i - 1);
        if i < |mask| {
          KeyCountStep(mask, replacement, i);
        }
      }
    }
  }

  /** `formatToParts`: one part per character; a key is `replacement`, a
      character equal to the mask's at that index is `mask`, anything else is
      `input`. */
  function FormatToParts(value: string, mask: string, replacement: Replacement): (parts: seq<Part>)
    ensures |parts| == |value|
    ensures forall i :: 0 <= i < |value| ==> parts[i].index == i && parts[i].value == value[i]
    ensures forall i :: 0 <= i < |value| ==>
      (parts[i].partType == ReplacementPart <==> value[i] in replacement)
    ensures forall i :: 0 <= i < |value| ==>
      (parts[i].partType == InputPart <==>
        value[i] !in replacement && (i >= |mask| || value[i] != mask[i]))
  {
    seq(|value|, i requires 0 <= i < |value| =>
      Part(if value[i] in replacement then ReplacementPart
           else if i < |mask| && value[i] == mask[i] then MaskPart
           else InputPart,
           value[i], i))
  }

  /** The index of the last `input` part, as `[...parts].reverse().find(...)`. */
  function LastInput(parts: seq<Part>): (r: Option<nat>)
    ensures r.None? <==> forall i :: 0 <= i < |parts| ==> parts[i].partType != InputPart
    ensures r.Some? ==>
      && r.value < |parts| && parts[r.value].partType == InputPart
      && forall i :: r.value < i < |parts| ==> parts[i].partType != InputPart
  {
    if parts == [] then None
    else if parts[|parts| - 1].partType == InputPart then Some(|parts| - 1)
    else LastInput(parts[..|parts| - 1])
  }

  /** Whether the character `c` at a position whose mask character is `m` fits
      the generated pattern. A literal must match itself; a key slot must pass
      the key's test, and under the strict pattern (the lookahead `(?!key)`)
      must not be that key. */
  predicate SlotMatches(strict: bool, c: char, m: char, replacement: Replacement) {
    if m in replacement then (!strict || c != m) && replacement[m](c) else c == m
  }

  /** `generatePattern` as a matcher: `^…$` around one slot per mask character. */
  predicate Matches(strict: bool, value: string, mask: string, replacement: Replacement) {
    && |value| == |mask|
    && forall i :: 0 <= i < |value| ==> SlotMatches(strict, value[i], mask[i], replacement)
  }

  /** `resolveDetail`. */
  function ResolveDetail(unmaskedValue: string, mask: string, replacement: Replacement, showMask: bool): (d: Detail)
    ensures d.unmaskedValue == unmaskedValue
    ensures d.parts == FormatToParts(Masked(unmaskedValue, mask, replacement), mask, replacement)
    ensures showMask ==> d.value == Masked(unmaskedValue, mask, replacement)
    // with the mask hidden the value is cut just after the last character the user typed
    ensures !showMask ==>
      && d.value <= Masked(unmaskedValue, mask, replacement)
      && (d.value == [] <==> forall i :: 0 <= i < |d.parts| ==> d.parts[i].partType != InputPart)
      && (d.value != [] ==> d.parts[|d.value| - 1].partType == InputPart)
      && forall i :: |d.value| <= i < |d.parts| ==> d.parts[i].partType != InputPart
    ensures d.isValid == Matches(true, d.value, mask, replacement)
  {
    var formattedValue := Masked(unmaskedValue, mask, replacement);
    var parts := FormatToParts(formattedValue, mask, replacement);
    var shownValue :=
      if showMask then formattedValue
      else match LastInput(parts)
        case None => []
        case Some(last) => formattedValue[..last + 1];
    Detail(shownValue, unmaskedValue, parts, Matches(true, shownValue, mask, replacement))
  }

  /** On a value formatted from key-free unmasked text, `formatToParts` sees
      exactly the slots: `input` at the filled ones, `replacement` at the
      unfilled ones, `mask` at every literal. */
  lemma PartsOfMasked(unmaskedValue: string, mask: string, replacement: Replacement, i: nat)
    requires forall c :: c in unmaskedValue ==> c !in replacement
    requires i < |mask|
    ensures
      var parts := FormatToParts(Masked(unmaskedValue, mask, replacement), mask, replacement);
      var filled := mask[i] in replacement && KeyCount(mask[..i], replacement) < |unmaskedValue|;
      && |parts| == |mask|
      && (parts[i].partType == InputPart <==> filled)
      && (parts[i].partType == ReplacementPart <==> mask[i] in replacement && !filled)
      && (parts[i].partType == MaskPart <==> mask[i] !in replacement)
  {
    MaskedAt(unmaskedValue, mask, replacement, i);
  }

  /** The strict pattern accepts only what the lenient one accepts. */
  lemma StrictImpliesLenient(value: string, mask: string, replacement: Replacement)
    ensures Matches(true, value, mask, replacement) ==> Matches(false, value, mask, replacement)
  {
  }

  /** The strict pattern holds exactly when the length is the mask's, every
      literal is in place, and every key slot holds a character other than its
      key that passes its test. */
  lemma StrictMatchMeans(value: string, mask: string, replacement: Replacement)
    ensures Matches(true, value, mask, replacement) <==>
      && |value| == |mask|
      && (forall i :: 0 <= i < |mask| && mask[i] !in replacement ==> value[i] == mask[i])
      && (forall i :: 0 <= i < |mask| && mask[i] in replacement ==>
            value[i] != mask[i] && replacement[mask[i]](value[i]))
  {
  }

  function IsDigit(c: char): bool { '0' <= c <= '9' }

  function NotDigit(c: char): bool { !IsDigit(c) }

  /** The example in `generatePattern`'s documentation: under mask `abc_123`
      with `_` accepting any non-digit, `abc_123` fits the lenient pattern and
      not the strict one. */
  lemma PatternDocExample()
    ensures Matches(false, "abc_123", "abc_123", map['_' := NotDigit])
    ensures !Matches(true, "abc_123", "abc_123", map['_' := NotDigit])
  {
    assert !SlotMatches(true, "abc_123"[3], "abc_123"[3], map['_' := NotDigit]);
  }

  lemma {:induction false} KeyCountAppend(a: string, b: string, replacement: Replacement)
    ensures KeyCount(a + b, replacement) == KeyCount(a, replacement) + KeyCount(b, replacement)
  {
    if a == [] {
      assert a + b == b;
    } else {
      assert (a + b)[1..] == a[1..] + b;
      KeyCountAppend(a[1..], b, replacement);
    }
  }

  /** The keys before position `i`, one more if `i` itself is a key, never
      exceed the keys of the whole mask. */
  lemma KeyCountPrefix(mask: string, replacement: Replacement, i: nat)
    requires i < |mask|
    ensures KeyCount(mask[..i], replacement) + (if mask[i] in replacement then 1 else 0)
         <= KeyCount(mask, replacement)
  {
    assert mask[..i + 1] == mask[..i] + [mask[i]];
    KeyCountAppend(mask[..i], [mask[i]], replacement);
    assert mask == mask[..i + 1] + mask[i + 1..];
    KeyCountAppend(mask[..i + 1], mask[i + 1..], replacement);
  }

  /** Where the `n`-th key (counting from 0) of the mask sits. */
  lemma {:induction false} NthKey(mask: string, replacement: Replacement, n: nat) returns (i: nat)
    requires n < KeyCount(mask, replacement)
    ensures i < |mask| && mask[i] in replacement && KeyCount(mask[..i], replacement) == n
  {
    if mask[0] in replacement && n == 0 {
      i := 0;
    } else {
      var j := NthKey(mask[1..], replacement, if mask[0] in replacement then n - 1 else n);
      i := j + 1;
      KeyCountStep(mask, replacement, i);
    }
  }

  /** Whether the unmasked characters pass the tests of the slots they fill. */
  predicate FitsSlots(unmaskedValue: string, mask: string, replacement: Replacement) {
    forall i :: 0 <= i < |mask| && mask[i] in replacement && KeyCount(mask[..i], replacement) < |unmaskedValue| ==>
      replacement[mask[i]](unmaskedValue[KeyCount(mask[..i], replacement)])
  }

  /** The strict pattern is what tells a complete value from an incomplete one:
      for key-free unmasked text that passes its slots' tests, the formatted
      value matches exactly when every slot is filled. An unfilled slot still
      shows its key, which the lookahead rejects. */
  lemma FilledIffValid(unmaskedValue: string, mask: string, replacement: Replacement)
    requires forall c :: c in unmaskedValue ==> c !in replacement
    requires FitsSlots(unmaskedValue, mask, replacement)
    ensures Matches(true, Masked(unmaskedValue, mask, replacement), mask, replacement)
        <==> KeyCount(mask, replacement) <= |unmaskedValue|
  {
    var value := Masked(unmaskedValue, mask, replacement);
    if KeyCount(mask, replacement) <= |unmaskedValue| {
      forall i | 0 <= i < |mask|
        ensures SlotMatches(true, value[i], mask[i], replacement)
      {
        MaskedAt(unmaskedValue, mask, replacement, i);
        KeyCountPrefix(mask, replacement, i);
        if mask[i] in replacement {
          assert unmaskedValue[KeyCount(mask[..i], replacement)] in unmaskedValue;
        }
      }
    } else {
      var i := NthKey(mask, replacement, |unmaskedValue|);
      MaskedAt(unmaskedValue, mask, replacement, i);
      assert !SlotMatches(true, value[i], mask[i], replacement);
    }
  }
}
