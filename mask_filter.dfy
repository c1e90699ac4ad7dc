/** The mask's character filter: it scans the typed text left to right and
    keeps a character only when it fits the next expected placeholder. */
module MaskFilter {
  import opened Text

  /** The `replacement` option: each placeholder key and the test (a regular
      expression in the source) its slot accepts. */
  type Replacement = map<char, char -> bool>

  /** Whether `c` is kept while `expected` (the `__replacementChars` cursor)
      remains: it equals the next expected key and keys may be typed
      (`separate`), or it is no key itself and passes the next key's test. */
  predicate Fits(c: char, expected: string, replacement: Replacement, separate: bool) {
    || (separate && expected != [] && c == expected[0])
    || (c !in replacement && expected != [] && expected[0] in replacement && replacement[expected[0]](c))
  }

  /** The filter as a function: each kept character consumes one expected key. */
  function Filtered(value: string, expected: string, replacement: Replacement, separate: bool): string
  {
    if value == [] then []
    else if Fits(value[0], expected, replacement, separate) then
      [value[0]] + Filtered(value[1..], expected[1..], replacement, separate)
    else Filtered(value[1..], expected, replacement, separate)
  }

  /** `filter`: the loop with its mutable cursor and growing result. */
  method Filter(value: string, replacementChars: string, replacement: Replacement, separate: bool)
    returns (filteredValue: string)
    ensures filteredValue == Filtered(value, replacementChars, replacement, separate)
    ensures IsSubsequence(filteredValue, value)
    ensures |filteredValue| <= |replacementChars|
  {
    var expected := replacementChars;
    filteredValue := [];
    var i := 0;
    while i < |value|
      invariant 0 <= i <= |value|
      invariant |filteredValue| + |expected| == |replacementChars|
      invariant Filtered(value, replacementChars, replacement, separate)
             == filteredValue + Filtered(value[i..], expected, replacement, separate)
    {
      var c := value[i];
      assert value[i..][1..] == value[i + 1..];
      if Fits(c, expected, replacement, separate) {
        expected := expected[1..];
        filteredValue := filteredValue + [c];
      }
      i := i + 1;
    }
    assert value[i..] == [];
    FilteredIsSubsequence(value, replacementChars, replacement, separate);
    FilteredLength(value, replacementChars, replacement, separate);
  }

  /** The result keeps characters of the input, in order. */
  lemma {:induction false} FilteredIsSubsequence(value: string, expected: string, replacement: Replacement, separate: bool)
    ensures IsSubsequence(Filtered(value, expected, replacement, separate), value)
  {
    if value != [] {
      if Fits(value[0], expected, replacement, separate) {
        FilteredIsSubsequence(value[1..], expected[1..], replacement, separate);
        assert ([value[0]] + Filtered(value[1..], expected[1..], replacement, separate))[1..]
            == Filtered(value[1..], expected[1..], replacement, separate);
      } else {
        FilteredIsSubsequence(value[1..], expected, replacement, separate);
      }
    }
  }

  /** Every kept character consumes one expected key, so no more are kept
      than there are keys. */
  lemma {:induction false} FilteredLength(value: string, expected: string, replacement: Replacement, separate: bool)
    ensures |Filtered(value, expected, replacement, separate)| <= |expected|
  {
    if value != [] {
      if Fits(value[0], expected, replacement, separate) {
        FilteredLength(value[1..], expected[1..], replacement, separate);
      } else {
        FilteredLength(value[1..], expected, replacement, separate);
      }
    }
  }

  /** The k-th kept character belongs to the k-th expected key: it passes that
      key's test without being a key, or (only when `separate`) it is the key. */
  lemma {:induction false} FilteredAt(value: string, expected: string, replacement: Replacement, separate: bool, k: nat)
    requires k < |Filtered(value, expected, replacement, separate)|
    ensures k < |expected|
    ensures
      var c := Filtered(value, expected, replacement, separate)[k];
      || (c !in replacement && expected[k] in replacement && replacement[expected[k]](c))
      || (separate && c == expected[k])
  {
    if Fits(value[0], expected, replacement, separate) {
      if k > 0 {
        FilteredAt(value[1..], expected[1..], replacement, separate, k - 1);
      }
    } else {
      FilteredAt(value[1..], expected, replacement, separate, k);
    }
  }

  /** Without `separate`, a placeholder key typed by the user is never kept. */
  lemma NoKeyKept(value: string, expected: string, replacement: Replacement)
    ensures forall c :: c in Filtered(value, expected, replacement, false) ==> c !in replacement
  {
    var r := Filtered(value, expected, replacement, false);
    forall c | c in r
      ensures c !in replacement
    {
      var k :| 0 <= k < |r| && r[k] == c;
      FilteredAt(value, expected, replacement, false, k);
    }
  }

  /** Filtering twice is filtering once: a dropped character never moves the
      cursor, and a kept one is kept again against the same cursor. */
  lemma {:induction false} FilterIdempotent(value: string, expected: string, replacement: Replacement, separate: bool)
    ensures
      var once := Filtered(value, expected, replacement, separate);
      Filtered(once, expected, replacement, separate) == once
  {
    if value != [] {
      var once := Filtered(value, expected, replacement, separate);
      if Fits(value[0], expected, replacement, separate) {
        FilterIdempotent(value[1..], expected[1..], replacement, separate);
        assert once[0] == value[0] && once[1..] == Filtered(value[1..], expected[1..], replacement, separate);
      } else {
        FilterIdempotent(value[1..], expected, replacement, separate);
      }
    }
  }
}
