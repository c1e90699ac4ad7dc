/** The string transforms of the number-format `tracking` callback: filtering
    out what a number cannot contain, rebuilding the value around the edit,
    rewriting the locale's glyphs to ASCII, toggling and re-anchoring the minus
    sign, and dropping trailing zeros typed into the minimum fraction. */
module NumberNormalize {
  import opened Wrappers
  import opened Text
  import opened Localized

  /** A minus-like or digit-like character: the class both sign rules look for. */
  predicate IsSignOrDigit(l: LocalizedValues, c: char) {
    IsMinusLike(l, c) || IsDigitLike(l, c)
  }

  /** Whether the global filter pattern matches at index `i` of `s`: a
      character the number cannot hold; a decimal-like character followed
      somewhere by another; and a minus-like character that, for locales writing
      the sign after the number, is followed by a sign or digit, and otherwise
      is preceded by one. Lookarounds see the whole original string. */
  predicate Removed(l: LocalizedValues, s: string, i: nat)
    requires i < |s|
  {
    || !IsAllowed(l, s[i])
    || (IsDecimalLike(l, s[i]) && exists j :: i < j < |s| && IsDecimalLike(l, s[j]))
    || (l.signBackwards && IsMinusLike(l, s[i]) && exists j :: i < j < |s| && IsSignOrDigit(l, s[j]))
    || (!l.signBackwards && IsMinusLike(l, s[i]) && exists j :: 0 <= j < i && IsSignOrDigit(l, s[j]))
  }

  /** The characters of `s` from index `i` on that the filter keeps. */
  function StripFrom(l: LocalizedValues, s: string, i: nat): (r: string)
    requires i <= |s|
    ensures |r| <= |s| - i
    decreases |s| - i
  {
    if i == |s| then []
    else (if Removed(l, s, i) then [] else [s[i]]) + StripFrom(l, s, i + 1)
  }

  /** `s.replace(regExp$0, '')`. */
  function Strip(l: LocalizedValues, s: string): (r: string)
    ensures |r| <= |s|
  {
    StripFrom(l, s, 0)
  }

  /** Two kept characters come from two kept source positions, in order. */
  lemma {:induction false} StripOrigins(l: LocalizedValues, s: string, i: nat, a: nat, b: nat)
    returns (ja: nat, jb: nat)
    requires i <= |s| && a < b < |StripFrom(l, s, i)|
    ensures i <= ja < jb < |s|
    ensures s[ja] == StripFrom(l, s, i)[a] && !Removed(l, s, ja)
    ensures s[jb] == StripFrom(l, s, i)[b] && !Removed(l, s, jb)
    decreases |s| - i
  {
    StripAt(l, s, i, a);
    StripAt(l, s, i, b);
    if Removed(l, s, i) {
      ja, jb := StripOrigins(l, s, i + 1, a, b);
    } else if a == 0 {
      ja := i;
      jb := StripOrigin(l, s, i + 1, b - 1);
    } else {
      ja, jb := StripOrigins(l, s, i + 1, a - 1, b - 1);
    }
  }

  /** Indexing into the kept characters from `i`, one source position on. */
  lemma StripAt(l: LocalizedValues, s: string, i: nat, k: nat)
    requires i < |s| && k < |StripFrom(l, s, i)|
    ensures Removed(l, s, i) ==> k < |StripFrom(l, s, i + 1)| && StripFrom(l, s, i)[k] == StripFrom(l, s, i + 1)[k]
    ensures !Removed(l, s, i) && k == 0 ==> StripFrom(l, s, i)[k] == s[i]
    ensures !Removed(l, s, i) && k > 0 ==>
      k - 1 < |StripFrom(l, s, i + 1)| && StripFrom(l, s, i)[k] == StripFrom(l, s, i + 1)[k - 1]
  {
  }

  /** A kept character comes from a kept source position. */
  lemma {:induction false} StripOrigin(l: LocalizedValues, s: string, i: nat, k: nat) returns (j: nat)
    requires i <= |s| && k < |StripFrom(l, s, i)|
    ensures i <= j < |s| && s[j] == StripFrom(l, s, i)[k] && !Removed(l, s, j)
    decreases |s| - i
  {
    StripAt(l, s, i, k);
    if Removed(l, s, i) {
      j := StripOrigin(l, s, i + 1, k);
    } else if k == 0 {
      j := i;
    } else {
      j := StripOrigin(l, s, i + 1, k - 1);
    }
  }

  /** The shape the filter leaves, before any glyph is rewritten: allowed
      characters only, at most one decimal-like and one minus-like character,
      and the sign on its locale's side of every digit. */
  predicate StrippedShape(l: LocalizedValues, r: string) {
    && (forall a :: 0 <= a < |r| ==> IsAllowed(l, r[a]))
    && (forall a, b :: 0 <= a < b < |r| ==> !(IsDecimalLike(l, r[a]) && IsDecimalLike(l, r[b])))
    && (forall a, b :: 0 <= a < b < |r| ==> !(IsMinusLike(l, r[a]) && IsMinusLike(l, r[b])))
    && (!l.signBackwards ==> forall a, b :: 0 <= a < b < |r| ==> !(IsDigitLike(l, r[a]) && IsMinusLike(l, r[b])))
    && (l.signBackwards ==> forall a, b :: 0 <= a < b < |r| ==> !(IsMinusLike(l, r[a]) && IsDigitLike(l, r[b])))
  }

  lemma StripShape(l: LocalizedValues, s: string)
    ensures StrippedShape(l, Strip(l, s))
  {
    var r := Strip(l, s);
    forall a | 0 <= a < |r|
      ensures IsAllowed(l, r[a])
    {
      var j := StripOrigin(l, s, 0, a);
    }
    forall a, b | 0 <= a < b < |r|
      ensures !(IsDecimalLike(l, r[a]) && IsDecimalLike(l, r[b]))
      ensures !(IsMinusLike(l, r[a]) && IsMinusLike(l, r[b]))
      ensures !l.signBackwards ==> !(IsDigitLike(l, r[a]) && IsMinusLike(l, r[b]))
      ensures l.signBackwards ==> !(IsMinusLike(l, r[a]) && IsDigitLike(l, r[b]))
    {
      var ja, jb := StripOrigins(l, s, 0, a, b);
      assert IsDecimalLike(l, s[jb]) ==> !IsDecimalLike(l, s[ja]);
      assert IsSignOrDigit(l, s[ja]) ==> l.signBackwards || !IsMinusLike(l, s[jb]);
      assert IsSignOrDigit(l, s[jb]) ==> !l.signBackwards || !IsMinusLike(l, s[ja]);
    }
  }

  /** The three glyph rewrites, one character at a time and in the source's
      order: `[,${decimal}]` to `.`, the minus sign to `-`, a locale digit to
      its ASCII digit. */
  function DecimalGlyph(l: LocalizedValues, c: char): char {
    if c == ',' || c == l.decimal then '.' else c
  }

  function MinusGlyph(l: LocalizedValues, c: char): char {
    if c == l.minusSign then '-' else c
  }

  function DigitGlyph(l: LocalizedValues, c: char): char
    requires WellFormed(l)
  {
    if c in l.digits then AsciiDigit(DigitValue(l, c)) else c
  }

  /** An allowed character becomes `.` exactly when it is decimal-like, `-`
      exactly when it is minus-like, and an ASCII digit exactly when it is
      digit-like. */
  function Glyph(l: LocalizedValues, c: char): (g: char)
    requires WellFormed(l)
    ensures IsAllowed(l, c) ==> IsAsciiDigit(g) || g == '.' || g == '-'
    ensures IsAllowed(l, c) ==> (g == '.' <==> IsDecimalLike(l, c))
    ensures IsAllowed(l, c) ==> (g == '-' <==> IsMinusLike(l, c))
    ensures IsAllowed(l, c) ==> (IsAsciiDigit(g) <==> IsDigitLike(l, c))
    // a locale digit becomes the ASCII digit of its value; any other ASCII digit stays
    ensures c in l.digits ==> g == AsciiDigit(DigitValue(l, c))
    ensures IsAsciiDigit(c) && c !in l.digits ==> g == c
  {
    DigitGlyph(l, MinusGlyph(l, DecimalGlyph(l, c)))
  }

  /** The filtered value with its glyphs rewritten: the chain of replacements
      that makes the value parseable. */
  function Normalized(l: LocalizedValues, s: string): (r: string)
    requires WellFormed(l)
    ensures |r| == |Strip(l, s)|
    ensures forall i :: 0 <= i < |r| ==> r[i] == Glyph(l, Strip(l, s)[i])
  {
    var kept := Strip(l, s);
    seq(|kept|, i requires 0 <= i < |kept| => Glyph(l, kept[i]))
  }

  /** What a normalised value looks like: ASCII digits, `.` and `-` only, at
      most one `.`, at most one `-`, and the sign before every digit unless it
      stands first (or, for locales writing it after the number, after every
      digit). */
  predicate NumericShape(signBackwards: bool, r: string) {
    && (forall a :: 0 <= a < |r| ==> IsAsciiDigit(r[a]) || r[a] == '.' || r[a] == '-')
    && (forall a, b :: 0 <= a < b < |r| ==> !(r[a] == '.' && r[b] == '.'))
    && (forall a, b :: 0 <= a < b < |r| ==> !(r[a] == '-' && r[b] == '-'))
    && (!signBackwards ==> forall a, b :: 0 <= a < b < |r| ==> !(IsAsciiDigit(r[a]) && r[b] == '-'))
    && (signBackwards ==> forall a, b :: 0 < a < b < |r| ==> !(r[a] == '-' && IsAsciiDigit(r[b])))
  }

  lemma NormalizedShape(l: LocalizedValues, s: string)
    requires WellFormed(l)
    ensures NumericShape(l.signBackwards, Normalized(l, s))
  {
    StripShape(l, s);
  }

  /** `s.replace('-', '')`: only the first `-` goes. */
  function RemoveFirstMinus(s: string): (r: string)
    ensures '-' !in s ==> r == s
    ensures '-' in s ==> |r| == |s| - 1 && s == r[..IndexOf(s, '-').value] + "-" + r[IndexOf(s, '-').value..]
  {
    match IndexOf(s, '-')
    case None => s
    case Some(k) => s[..k] + s[k + 1..]
  }

  /** The minus toggle: a lone minus typed with a collapsed range removes the
      sign when both the previous and the normalised value have one, and adds
      it in front when neither does. */
  function Toggled(l: LocalizedValues, previousMinusSign: char, added: string,
                   rangeStart: nat, rangeEnd: nat, previousValue: string, s: string): (r: string)
    ensures
      var reflect := |added| == 1 && IsMinusLike(l, added[0]) && rangeStart == rangeEnd;
      && (reflect && previousMinusSign in previousValue && '-' in s ==> r == RemoveFirstMinus(s))
      && (reflect && previousMinusSign !in previousValue && '-' !in s ==> r == "-" + s)
      && (!reflect || (previousMinusSign in previousValue) != ('-' in s) ==> r == s)
  {
    var reflect := |added| == 1 && IsMinusLike(l, added[0]) && rangeStart == rangeEnd;
    var hasPrevious := previousMinusSign in previousValue;
    var hasNormalized := '-' in s;
    var removed := if reflect && hasPrevious && hasNormalized then RemoveFirstMinus(s) else s;
    if reflect && !hasPrevious && !hasNormalized then "-" + removed else removed
  }

  /** A `-` left at the end (a locale writing its sign after the number) is
      moved to the front. */
  function SignFirst(s: string): (r: string)
    ensures |r| == |s|
    ensures s != [] && s[|s| - 1] == '-' ==> r[0] == '-' && r[1..] == s[..|s| - 1]
    ensures s == [] || s[|s| - 1] != '-' ==> r == s
  {
    if s != [] && s[|s| - 1] == '-' then "-" + s[..|s| - 1] else s
  }

  /** `/\..*0$/`: a `.` somewhere before a final `0`. */
  predicate EndsInFractionZero(s: string) {
    |s| >= 2 && s[|s| - 1] == '0' && '.' in s[..|s| - 1]
  }

  /** The match of `(?<=[${decimal}].*)[${digits}]+` in the previous value:
      the first run of digits somewhere after a decimal separator, with the
      index it starts at. */
  function PreviousFraction(previous: LocalizedValues, s: string): (r: Option<(nat, string)>)
    ensures r.Some? ==>
      && r.value.0 < |s|
      && previous.decimal in s[..r.value.0]
      && r.value.1 == RunIn(s[r.value.0..], previous.digits)
      && r.value.1 != []
  {
    match IndexOf(s, previous.decimal)
    case None => None
    case Some(d) =>
      match FirstIn(s, previous.digits, d + 1)
      case None => None
      case Some(p) => assert s[..p][d] == previous.decimal; Some((p, RunIn(s[p..], previous.digits)))
  }

  /** Whether the pattern `(?<=[${decimal}].*)[${digits}]` matches at `p`: a
      previous digit with a decimal separator somewhere before it. */
  predicate FractionDigitAt(previous: LocalizedValues, s: string, p: nat)
    requires p < |s|
  {
    previous.decimal in s[..p] && s[p] in previous.digits
  }

  /** `exec` finds the leftmost match, and finds none exactly when no
      previous digit follows a decimal separator. */
  lemma PreviousFractionMeans(previous: LocalizedValues, s: string)
    ensures PreviousFraction(previous, s).None? <==> forall p :: 0 <= p < |s| ==> !FractionDigitAt(previous, s, p)
    ensures PreviousFraction(previous, s).Some? ==>
      && FractionDigitAt(previous, s, PreviousFraction(previous, s).value.0)
      && forall p :: 0 <= p < PreviousFraction(previous, s).value.0 ==> !FractionDigitAt(previous, s, p)
  {
    match IndexOf(s, previous.decimal)
    case None =>
      forall p | 0 <= p < |s|
        ensures !FractionDigitAt(previous, s, p)
      {
        if previous.decimal in s[..p] {
          PrefixMember(s, p, previous.decimal);
        }
      }
    case Some(d) =>
      match FirstIn(s, previous.digits, d + 1)
      case None =>
      case Some(q) =>
        assert s[..q][d] == previous.decimal;
        assert FractionDigitAt(previous, s, q);
  }

  lemma PrefixMember(s: string, p: nat, c: char)
    requires p <= |s| && c in s[..p]
    ensures c in s
  {
    var j :| 0 <= j < p && s[..p][j] == c;
    assert s[j] == c;
  }

  /** `previousValue.replace(RegExp(p$0, 'g'), '')`: the locale digits before
      the first decimal separator (everything after it goes). */
  function PreviousInteger(previous: LocalizedValues, s: string): (r: string)
    ensures forall c :: c in r ==> c in previous.digits
  {
    Remove(Before(s, previous.decimal), c => c !in previous.digits)
  }

  /** `minimumFractionDigits || 1`. */
  function AtLeastOne(n: nat): (r: nat)
    ensures r >= 1 && (n > 0 ==> r == n)
  {
    if n == 0 then 1 else n
  }

  /** The trailing-zero rule: when the value ends in fraction zeros and the
      edit lies inside the previous value's minimum fraction (whose size
      `minimumFractionDigits` is given), the trailing zeros are dropped, so
      typing into `0.00` replaces its zeros instead of appending to them. */
  function FractionZerosDropped(previous: LocalizedValues, previousValue: string,
                                rangeStart: nat, rangeEnd: nat,
                                minimumFractionDigits: (string, string) -> nat, s: string): (r: string)
    ensures r <= s
    ensures r != s ==> EndsInFractionZero(s) && r == DropTrailing(s, '0')
    // the zeros go exactly when the edit lies in a previous fraction no longer than its minimum
    ensures r != s <==>
      && EndsInFractionZero(s)
      && PreviousFraction(previous, previousValue).Some?
      && var index := PreviousFraction(previous, previousValue).value.0;
         var fraction := PreviousFraction(previous, previousValue).value.1;
         var minimum := AtLeastOne(minimumFractionDigits(PreviousInteger(previous, previousValue), fraction));
         rangeStart >= index && rangeEnd < index + minimum && |fraction| <= minimum
  {
    if !EndsInFractionZero(s) then s
    else match PreviousFraction(previous, previousValue)
      case None => s
      case Some((index, fraction)) =>
        var minimum := AtLeastOne(minimumFractionDigits(PreviousInteger(previous, previousValue), fraction));
        var isRange := rangeStart >= index && rangeEnd < index + minimum;
        if isRange && |fraction| <= minimum then DropTrailing(s, '0') else s
  }

  /** `previousValue.slice(0, rangeStart)` and `.slice(rangeEnd)` stripped to
      the previous locale's minus sign, decimal separator and digits, around
      the filtered `added`. */
  function Rebuilt(previous: LocalizedValues, previousValue: string, added: string,
                   rangeStart: nat, rangeEnd: nat): string
  {
    KeptOfPrevious(previous, Prefix(previousValue, rangeStart)) + added
      + KeptOfPrevious(previous, Suffix(previousValue, rangeEnd))
  }

  /** The previous locale's minus sign, decimal separator and digits. */
  predicate IsPreviousSymbol(previous: LocalizedValues, c: char) {
    c == previous.minusSign || c == previous.decimal || c in previous.digits
  }

  /** The class `[^\${minusSign}${decimal}${digits}]` as a value. */
  function NotPreviousSymbol(previous: LocalizedValues): char -> bool {
    c => !IsPreviousSymbol(previous, c)
  }

  /** `s.replace(regExp$1, '')`: the previous locale's symbols of `s`, every
      occurrence of each, in their order; nothing else. */
  function KeptOfPrevious(previous: LocalizedValues, s: string): (r: string)
    ensures |r| <= |s|
    ensures IsSubsequence(r, s)
  {
    RemoveMeans(s, NotPreviousSymbol(previous));
    Remove(s, NotPreviousSymbol(previous))
  }

  /** Every occurrence of each previous symbol is kept, and nothing else. */
  lemma KeptOfPreviousCounts(previous: LocalizedValues, s: string)
    ensures forall c :: multiset(KeptOfPrevious(previous, s))[c] == if IsPreviousSymbol(previous, c) then multiset(s)[c] else 0
  {
    RemoveMeans(s, NotPreviousSymbol(previous));
  }

  /** The rebuilt value holds all of `added` and, of the previous value
      outside the range, exactly its symbols. */
  lemma RebuiltCounts(previous: LocalizedValues, previousValue: string, added: string,
                      rangeStart: nat, rangeEnd: nat)
    ensures
      var r := Rebuilt(previous, previousValue, added, rangeStart, rangeEnd);
      var before := Prefix(previousValue, rangeStart);
      var after := Suffix(previousValue, rangeEnd);
      forall c :: multiset(r)[c] == multiset(added)[c] + if IsPreviousSymbol(previous, c)
                                                         then multiset(before)[c] + multiset(after)[c] else 0
  {
    KeptOfPreviousCounts(previous, Prefix(previousValue, rangeStart));
    KeptOfPreviousCounts(previous, Suffix(previousValue, rangeEnd));
  }

  /** The whole normalisation, from the filtered `added` to the value handed
      to the formatter. */
  function NormalizedValue(l: LocalizedValues, previous: LocalizedValues, added: string,
                           previousValue: string, rangeStart: nat, rangeEnd: nat,
                           minimumFractionDigits: (string, string) -> nat): (r: string)
    requires WellFormed(l)
    ensures NumericShape(l.signBackwards, r)
  {
    var normalized := Normalized(l, Rebuilt(previous, previousValue, added, rangeStart, rangeEnd));
    var toggled := Toggled(l, previous.minusSign, added, rangeStart, rangeEnd, previousValue, normalized);
    var signed := SignFirst(toggled);
    NormalizedShape(l, Rebuilt(previous, previousValue, added, rangeStart, rangeEnd));
    ToggledShape(l, previous.minusSign, added, rangeStart, rangeEnd, previousValue, normalized);
    SignFirstShape(l.signBackwards, toggled);
    PrefixShape(l.signBackwards, signed,
                FractionZerosDropped(previous, previousValue, rangeStart, rangeEnd, minimumFractionDigits, signed));
    FractionZerosDropped(previous, previousValue, rangeStart, rangeEnd, minimumFractionDigits, signed)
  }

  lemma PrefixShape(signBackwards: bool, s: string, r: string)
    requires NumericShape(signBackwards, s) && r <= s
    ensures NumericShape(signBackwards, r)
  {
    assert forall a :: 0 <= a < |r| ==> r[a] == s[a];
  }

  lemma ToggledShape(l: LocalizedValues, previousMinusSign: char, added: string,
                     rangeStart: nat, rangeEnd: nat, previousValue: string, s: string)
    requires NumericShape(l.signBackwards, s)
    ensures NumericShape(l.signBackwards, Toggled(l, previousMinusSign, added, rangeStart, rangeEnd, previousValue, s))
  {
    var r := Toggled(l, previousMinusSign, added, rangeStart, rangeEnd, previousValue, s);
    if r == RemoveFirstMinus(s) && '-' in s {
      RemovedMinusShape(l.signBackwards, s);
    } else if r == "-" + s && '-' !in s {
      PrependedMinusShape(l.signBackwards, s);
    }
  }

  lemma RemovedMinusShape(signBackwards: bool, s: string)
    requires NumericShape(signBackwards, s) && '-' in s
    ensures NumericShape(signBackwards, RemoveFirstMinus(s))
  {
    var k := IndexOf(s, '-').value;
    DropAtShape(signBackwards, s, k);
  }

  /** Removing one character keeps the shape: the pairs left were pairs before. */
  lemma DropAtShape(signBackwards: bool, s: string, k: nat)
    requires NumericShape(signBackwards, s) && k < |s|
    ensures NumericShape(signBackwards, s[..k] + s[k + 1..])
  {
    var r := s[..k] + s[k + 1..];
    assert forall a :: 0 <= a < k ==> r[a] == s[a];
    assert forall a :: k <= a < |r| ==> r[a] == s[a + 1];
  }

  lemma PrependedMinusShape(signBackwards: bool, s: string)
    requires NumericShape(signBackwards, s) && '-' !in s
    ensures NumericShape(signBackwards, "-" + s)
  {
    var r := "-" + s;
    assert forall a :: 0 < a < |r| ==> r[a] == s[a - 1] && r[a] != '-';
  }

  lemma SignFirstShape(signBackwards: bool, s: string)
    requires NumericShape(signBackwards, s)
    ensures NumericShape(signBackwards, SignFirst(s))
  {
    var r := SignFirst(s);
    if s != [] && s[|s| - 1] == '-' {
      assert forall a :: 0 < a < |r| ==> r[a] == s[a - 1] && r[a] != '-';
    }
  }

  /** The ASCII digits of `s`, in order. */
  function AsciiDigits(s: string): (r: string)
    ensures |r| <= |s|
    ensures forall c :: c in r ==> IsAsciiDigit(c)
  {
    if s == [] then [] else (if IsAsciiDigit(s[0]) then [s[0]] else []) + AsciiDigits(s[1..])
  }

  /** The ASCII digits that the digit-like characters of `s` are rewritten
      to, in order. */
  function GlyphDigits(l: LocalizedValues, s: string): (r: string)
    requires WellFormed(l)
    ensures |r| <= |s|
    ensures forall c :: c in r ==> IsAsciiDigit(c)
  {
    if s == [] then [] else (if IsDigitLike(l, s[0]) then [Glyph(l, s[0])] else []) + GlyphDigits(l, s[1..])
  }

  lemma {:induction false} AsciiDigitsAppend(a: string, b: string)
    ensures AsciiDigits(a + b) == AsciiDigits(a) + AsciiDigits(b)
    decreases |a|
  {
    if a == [] {
      assert a + b == b;
    } else {
      assert (a + b)[1..] == a[1..] + b;
      AsciiDigitsAppend(a[1..], b);
    }
  }

  lemma {:induction false} GlyphDigitsAppend(l: LocalizedValues, a: string, b: string)
    requires WellFormed(l)
    ensures GlyphDigits(l, a + b) == GlyphDigits(l, a) + GlyphDigits(l, b)
    decreases |a|
  {
    if a == [] {
      assert a + b == b;
    } else {
      assert (a + b)[1..] == a[1..] + b;
      GlyphDigitsAppend(l, a[1..], b);
    }
  }

  lemma {:induction false} AsciiDigitsOfDigits(s: string)
    requires forall i :: 0 <= i < |s| ==> IsAsciiDigit(s[i])
    ensures AsciiDigits(s) == s
    decreases |s|
  {
    if s != [] {
      AsciiDigitsOfDigits(s[1..]);
    }
  }

  /** The filter never removes a digit-like character. */
  lemma {:induction false} StripDigits(l: LocalizedValues, s: string, i: nat)
    requires WellFormed(l) && i <= |s|
    ensures GlyphDigits(l, StripFrom(l, s, i)) == GlyphDigits(l, s[i..])
    decreases |s| - i
  {
    if i < |s| {
      var head := if Removed(l, s, i) then [] else [s[i]];
      assert IsDigitLike(l, s[i]) ==> !Removed(l, s, i);
      StripDigits(l, s, i + 1);
      GlyphDigitsAppend(l, head, StripFrom(l, s, i + 1));
      assert s[i..][0] == s[i] && s[i..][1..] == s[i + 1..];
    }
  }

  lemma {:induction false} GlyphsDigits(l: LocalizedValues, r: string, k: string)
    requires WellFormed(l) && |r| == |k|
    requires forall i :: 0 <= i < |k| ==> IsAllowed(l, k[i]) && r[i] == Glyph(l, k[i])
    ensures AsciiDigits(r) == GlyphDigits(l, k)
    decreases |k|
  {
    if k != [] {
      GlyphsDigits(l, r[1..], k[1..]);
    }
  }

  /** Normalising keeps every digit-like character, rewritten to its ASCII
      digit, in order, and adds no digit. */
  lemma NormalizedDigits(l: LocalizedValues, s: string)
    requires WellFormed(l)
    ensures AsciiDigits(Normalized(l, s)) == GlyphDigits(l, s)
  {
    StripShape(l, s);
    GlyphsDigits(l, Normalized(l, s), Strip(l, s));
    StripDigits(l, s, 0);
    assert s[0..] == s;
  }

  /** The minus toggle never touches a digit. */
  lemma ToggledDigits(l: LocalizedValues, previousMinusSign: char, added: string,
                      rangeStart: nat, rangeEnd: nat, previousValue: string, s: string)
    ensures AsciiDigits(Toggled(l, previousMinusSign, added, rangeStart, rangeEnd, previousValue, s)) == AsciiDigits(s)
  {
    var reflect := |added| == 1 && IsMinusLike(l, added[0]) && rangeStart == rangeEnd;
    assert AsciiDigits("-") == [];
    if reflect && previousMinusSign in previousValue && '-' in s {
      var r := RemoveFirstMinus(s);
      var k := IndexOf(s, '-').value;
      AsciiDigitsAppend(r[..k] + "-", r[k..]);
      AsciiDigitsAppend(r[..k], "-");
      AsciiDigitsAppend(r[..k], r[k..]);
      assert r[..k] + r[k..] == r;
    } else if reflect && previousMinusSign !in previousValue && '-' !in s {
      AsciiDigitsAppend("-", s);
    }
  }

  /** Moving a trailing `-` to the front never touches a digit. */
  lemma SignFirstDigits(s: string)
    ensures AsciiDigits(SignFirst(s)) == AsciiDigits(s)
  {
    if s != [] && s[|s| - 1] == '-' {
      var t := s[..|s| - 1];
      assert s == t + "-";
      assert AsciiDigits("-") == [];
      AsciiDigitsAppend(t, "-");
      AsciiDigitsAppend("-", t);
    }
  }

  /** The digits of the rebuilt value are those kept before the range, then
      those typed, then those kept after it. */
  lemma RebuiltDigits(l: LocalizedValues, previous: LocalizedValues, previousValue: string, added: string,
                      rangeStart: nat, rangeEnd: nat)
    requires WellFormed(l)
    ensures GlyphDigits(l, Rebuilt(previous, previousValue, added, rangeStart, rangeEnd))
         == GlyphDigits(l, KeptOfPrevious(previous, Prefix(previousValue, rangeStart)))
          + GlyphDigits(l, added)
          + GlyphDigits(l, KeptOfPrevious(previous, Suffix(previousValue, rangeEnd)))
  {
    var before := KeptOfPrevious(previous, Prefix(previousValue, rangeStart));
    var after := KeptOfPrevious(previous, Suffix(previousValue, rangeEnd));
    GlyphDigitsAppend(l, before + added, after);
    GlyphDigitsAppend(l, before, added);
  }

  /** The digits of the normalised value are the rebuilt value's digits in
      ASCII, in order, except for trailing zeros dropped from the fraction. */
  lemma NormalizedValueDigits(l: LocalizedValues, previous: LocalizedValues, added: string,
                              previousValue: string, rangeStart: nat, rangeEnd: nat,
                              minimumFractionDigits: (string, string) -> nat)
    requires WellFormed(l)
    ensures
      var g := GlyphDigits(l, Rebuilt(previous, previousValue, added, rangeStart, rangeEnd));
      var d := AsciiDigits(NormalizedValue(l, previous, added, previousValue, rangeStart, rangeEnd, minimumFractionDigits));
      d <= g && forall i :: |d| <= i < |g| ==> g[i] == '0'
  {
    var rebuilt := Rebuilt(previous, previousValue, added, rangeStart, rangeEnd);
    var normalized := Normalized(l, rebuilt);
    var toggled := Toggled(l, previous.minusSign, added, rangeStart, rangeEnd, previousValue, normalized);
    var signed := SignFirst(toggled);
    var r := FractionZerosDropped(previous, previousValue, rangeStart, rangeEnd, minimumFractionDigits, signed);
    NormalizedDigits(l, rebuilt);
    ToggledDigits(l, previous.minusSign, added, rangeStart, rangeEnd, previousValue, normalized);
    SignFirstDigits(toggled);
    DropTrailingDigits(signed);
  }

  /** Dropping trailing zeros from a string drops trailing zeros from its
      digits and nothing else. */
  lemma {:induction false} DropTrailingDigits(s: string)
    ensures AsciiDigits(DropTrailing(s, '0')) <= AsciiDigits(s)
    ensures forall i :: |AsciiDigits(DropTrailing(s, '0'))| <= i < |AsciiDigits(s)| ==> AsciiDigits(s)[i] == '0'
    decreases |s|
  {
    if s != [] && s[|s| - 1] == '0' {
      var init := s[..|s| - 1];
      assert s == init + "0";
      DropTrailingDigits(init);
      AsciiDigitsAppend(init, "0");
      assert AsciiDigits("0") == "0";
    }
  }
}
