/** `resolveSelection`: where the number input puts the caret after an edit.
    Because formatting may add or remove group separators, the caret is placed
    by counting the "stable" digits (digits after any leading integer zeros)
    before the edit in the previous value, finding the position in the next
    value with as many stable digits before it, and then nudging it towards a
    digit or the sign and into the numeric part of the value. */
module CaretResolver {
  import opened Wrappers
  import opened Text
  import opened Localized
  import opened EditClassifier

  datatype Selection = Selection(start: nat, end: nat)

  /** The class `[\d${digits}]` as a value, so that counts over it can be
      split and compared. */
  function DigitLike(l: LocalizedValues): char -> bool {
    c => IsDigitLike(l, c)
  }

  function Min(a: int, b: int): int { if a <= b then a else b }

  function Max(a: int, b: int): int { if a >= b then a else b }

  // ---------------------------------------------------------------------
  // Early answers

  /** A decimal separator typed into a value that already has one: the caret
      goes just after the separator of the next value. */
  function DecimalCaret(l: LocalizedValues, added: string, previousValue: string, nextValue: string): (r: Option<nat>)
    ensures r.Some? <==>
      |added| == 1 && IsDecimalLike(l, added[0]) && l.decimal in previousValue && l.decimal in nextValue
    ensures r.Some? ==>
      && 0 < r.value <= |nextValue| && nextValue[r.value - 1] == l.decimal
      && l.decimal !in nextValue[..r.value - 1]
  {
    if |added| == 1 && IsDecimalLike(l, added[0]) && l.decimal in previousValue then
      match IndexOf(nextValue, l.decimal)
      case None => None
      case Some(k) => Some(k + 1)
    else None
  }

  /** A minus typed into a value that already has the sign: the caret goes
      just after the sign of the next value, or onto it when the locale writes
      the sign after the number. */
  function MinusCaret(l: LocalizedValues, added: string, previousValue: string, nextValue: string): (r: Option<nat>)
    ensures r.Some? <==>
      |added| == 1 && IsMinusLike(l, added[0]) && l.minusSign in previousValue && l.minusSign in nextValue
    ensures r.Some? && !l.signBackwards ==>
      && 0 < r.value <= |nextValue| && nextValue[r.value - 1] == l.minusSign
      && l.minusSign !in nextValue[..r.value - 1]
    ensures r.Some? && l.signBackwards ==>
      && r.value < |nextValue| && nextValue[r.value] == l.minusSign
      && l.minusSign !in nextValue[..r.value]
  {
    if |added| == 1 && IsMinusLike(l, added[0]) && l.minusSign in previousValue then
      match IndexOf(nextValue, l.minusSign)
      case None => None
      case Some(k) => Some(k + if l.signBackwards then 0 else 1)
    else None
  }

  /** Deleting inside an integer part made only of zeros selects all of those
      zeros (from the first to just past the last), so that the next delete
      removes them together; unless exactly that range is already selected. */
  function ZeroSelection(previous: LocalizedValues, inputType: InputType, previousValue: string,
                         rangeStart: nat, rangeEnd: nat): (r: Option<Selection>)
    requires WellFormed(previous)
    ensures
      var integer := Before(previousValue, previous.decimal);
      var zero := previous.digits[0];
      && (r.Some? ==>
            && (inputType == DeleteBackward || inputType == DeleteForward)
            && rangeEnd <= |integer|
            && (forall c :: c in integer ==> !IsNonZeroDigit(previous, c))
            && r.value.start < r.value.end <= |integer|
            && integer[r.value.start] == zero && integer[r.value.end - 1] == zero
            && zero !in integer[..r.value.start] && zero !in integer[r.value.end..]
            && r.value.start < rangeEnd <= r.value.end
            && !(rangeStart == r.value.start && rangeEnd == r.value.end))
      && ((inputType == DeleteBackward || inputType == DeleteForward)
          && rangeEnd <= |integer| && (forall c :: c in integer ==> !IsNonZeroDigit(previous, c))
          && zero in integer ==>
            var first := IndexOf(integer, zero).value;
            var last := LastIndexOf(integer, zero).value;
            (r.Some? <==> first < rangeEnd <= last + 1 && !(rangeStart == first && rangeEnd == last + 1)))
  {
    if inputType == DeleteBackward || inputType == DeleteForward then
      var integer := Before(previousValue, previous.decimal);
      if rangeEnd <= |integer| && !(exists c :: c in integer && IsNonZeroDigit(previous, c)) then
        match (IndexOf(integer, previous.digits[0]), LastIndexOf(integer, previous.digits[0]))
        case (Some(first), Some(last)) =>
          if !(rangeStart == first && rangeEnd == last + 1) && rangeEnd > first && rangeEnd <= last + 1 then
            Some(Selection(first, last + 1))
          else None
        case _ => None
      else None
    else None
  }

  // ---------------------------------------------------------------------
  // Stable digits before the edit

  /** Where the stable part may start: a non-zero digit, or any digit after a
      decimal separator. */
  predicate StableAt(previous: LocalizedValues, s: string, p: nat)
    requires p < |s|
  {
    IsNonZeroDigit(previous, s[p]) || (previous.decimal in s[..p] && s[p] in previous.digits)
  }

  function FirstStable(previous: LocalizedValues, s: string, p: nat, until: nat): (r: Option<nat>)
    requires p <= until <= |s|
    ensures r.None? ==> forall q :: p <= q < until ==> !StableAt(previous, s, q)
    ensures r.Some? ==>
      && p <= r.value < until && StableAt(previous, s, r.value)
      && forall q :: p <= q < r.value ==> !StableAt(previous, s, q)
    decreases until - p
  {
    if p == until then None
    else if StableAt(previous, s, p) then Some(p)
    else FirstStable(previous, s, p + 1, until)
  }

  /** The first match of the stable-digits pattern, cut so that the
      `rangeStart` characters before the edit are all it may cover: from a
      non-zero digit up to the edit, or a run of fraction digits up to the
      edit at most. */
  function StableMatch(previous: LocalizedValues, s: string, rangeStart: nat): (m: string)
    requires rangeStart <= |s|
  {
    match FirstStable(previous, s, 0, rangeStart)
    case None => []
    case Some(p) => s[p..StableEnd(previous, s, p, rangeStart)]
  }

  /** Where the match starting at the stable character `p` ends. */
  function StableEnd(previous: LocalizedValues, s: string, p: nat, rangeStart: nat): (e: nat)
    requires p < rangeStart <= |s|
    ensures p <= e <= rangeStart
  {
    if IsNonZeroDigit(previous, s[p]) then rangeStart
    else Min(p + |RunIn(s[p..], previous.digits)|, rangeStart)
  }

  /** `countStableDigits` before the insert adjustment. */
  function StableCount(previous: LocalizedValues, s: string, rangeStart: nat): (n: nat)
    requires rangeStart <= |s|
  {
    DigitsIn(previous.digits, StableMatch(previous, s, rangeStart))
  }

  /** The stable digits are digits before the edit. */
  lemma StableCountBound(previous: LocalizedValues, s: string, rangeStart: nat)
    requires rangeStart <= |s|
    ensures StableCount(previous, s, rangeStart) <= DigitsIn(previous.digits, s[..rangeStart])
  {
    match FirstStable(previous, s, 0, rangeStart)
    case None =>
    case Some(p) =>
      var m := StableMatch(previous, s, rangeStart);
      var e := p + |m|;
      assert m == s[p..e];
      assert s[..rangeStart] == s[..p] + m + s[e..rangeStart];
      DigitsSplit(previous.digits, s[..p] + m, s[e..rangeStart]);
      DigitsSplit(previous.digits, s[..p], m);
  }

  /** Leading integer zeros are not stable: putting zeros (and no decimal
      separator) in front of the value and moving the edit along with them
      leaves the count unchanged. */
  lemma StableCountIgnoresLeadingZeros(previous: LocalizedValues, zeros: string, s: string, rangeStart: nat)
    requires WellFormed(previous)
    requires rangeStart <= |s|
    requires forall c :: c in zeros ==> c == previous.digits[0]
    ensures StableCount(previous, zeros + s, |zeros| + rangeStart) == StableCount(previous, s, rangeStart)
  {
    ZerosNotStable(previous, zeros, s);
    ShiftStable(previous, zeros, s);
    FirstStableShift(previous, zeros, s, 0, rangeStart);
    SkipZeros(previous, zeros + s, 0, |zeros|, |zeros| + rangeStart);
    StableMatchShift(previous, zeros, s, rangeStart);
  }

  /** No leading zero is stable. */
  lemma ZerosNotStable(previous: LocalizedValues, zeros: string, s: string)
    requires WellFormed(previous)
    requires forall c :: c in zeros ==> c == previous.digits[0]
    ensures forall q :: 0 <= q < |zeros| ==> !StableAt(previous, zeros + s, q)
  {
    var t := zeros + s;
    forall q | 0 <= q < |zeros|
      ensures !StableAt(previous, t, q)
    {
      assert t[q] in zeros;
      assert previous.decimal !in t[..q] by {
        assert forall i :: 0 <= i < q ==> t[..q][i] in zeros;
      }
    }
  }

  /** Behind zeros, each character is stable exactly when it was before. */
  lemma ShiftStable(previous: LocalizedValues, zeros: string, s: string)
    requires WellFormed(previous)
    requires forall c :: c in zeros ==> c == previous.digits[0]
    ensures forall q :: 0 <= q < |s| ==> (StableAt(previous, zeros + s, |zeros| + q) <==> StableAt(previous, s, q))
  {
    var t := zeros + s;
    assert previous.decimal !in zeros;
    forall q | 0 <= q < |s|
      ensures StableAt(previous, t, |zeros| + q) <==> StableAt(previous, s, q)
    {
      assert t[|zeros| + q] == s[q];
      assert t[..|zeros| + q] == zeros + s[..q];
    }
  }

  /** When the first stable characters correspond, so do the matches. */
  lemma StableMatchShift(previous: LocalizedValues, zeros: string, s: string, rangeStart: nat)
    requires rangeStart <= |s|
    requires FirstStable(previous, zeros + s, 0, |zeros| + rangeStart)
          == (match FirstStable(previous, s, 0, rangeStart) case None => None case Some(k) => Some(|zeros| + k))
    ensures StableMatch(previous, zeros + s, |zeros| + rangeStart) == StableMatch(previous, s, rangeStart)
  {
    match FirstStable(previous, s, 0, rangeStart)
    case None =>
    case Some(p) =>
      StableEndShift(previous, zeros, s, p, rangeStart);
      SliceShift(zeros, s, p, StableEnd(previous, s, p, rangeStart));
  }

  lemma StableEndShift(previous: LocalizedValues, zeros: string, s: string, p: nat, rangeStart: nat)
    requires p < rangeStart <= |s|
    ensures StableEnd(previous, zeros + s, |zeros| + p, |zeros| + rangeStart)
         == |zeros| + StableEnd(previous, s, p, rangeStart)
  {
    var t := zeros + s;
    assert t[|zeros| + p] == s[p];
    SliceShift(zeros, s, p, |s|);
    assert t[|zeros| + p..] == s[p..];
  }

  lemma SliceShift(zeros: string, s: string, i: nat, j: nat)
    requires i <= j <= |s|
    ensures (zeros + s)[|zeros| + i..|zeros| + j] == s[i..j]
  {
  }

  lemma {:induction false} FirstStableShift(previous: LocalizedValues, zeros: string, s: string, p: nat, until: nat)
    requires p <= until <= |s|
    requires forall q :: 0 <= q < |zeros| ==> !StableAt(previous, zeros + s, q)
    requires forall q :: 0 <= q < |s| ==> (StableAt(previous, zeros + s, |zeros| + q) <==> StableAt(previous, s, q))
    ensures FirstStable(previous, zeros + s, |zeros| + p, |zeros| + until)
         == (match FirstStable(previous, s, p, until) case None => None case Some(k) => Some(|zeros| + k))
    decreases until - p
  {
    if p < until {
      FirstStableShift(previous, zeros, s, p + 1, until);
    }
  }

  lemma {:induction false} SkipZeros(previous: LocalizedValues, t: string, p: nat, z: nat, until: nat)
    requires p <= z <= until <= |t|
    requires forall q :: p <= q < z ==> !StableAt(previous, t, q)
    ensures FirstStable(previous, t, p, until) == FirstStable(previous, t, z, until)
    decreases z - p
  {
    if p < z {
      SkipZeros(previous, t, p + 1, z, until);
    }
  }

  // ---------------------------------------------------------------------
  // The insert adjustment

  /** `[\-\${minusSign}]` as a value. */
  function MinusLike(l: LocalizedValues): char -> bool {
    c => IsMinusLike(l, c)
  }

  /** `[,${decimal}]` rewritten to `.`. */
  function DecimalToDot(l: LocalizedValues): char -> char {
    c => if c == ',' || c == l.decimal then '.' else c
  }

  /** What the previous value holds before the edit, as integer and fraction
      digits: minus signs and separators dropped, leading zeros dropped, split
      at the decimal separator. */
  function PreviousParts(previous: LocalizedValues, before: string): (r: (string, string))
    requires WellFormed(previous)
  {
    var digitsOnly := Remove(before, c => !(c == previous.decimal || c in previous.digits));
    var noZeros := DropLeading(digitsOnly, c => c == previous.digits[0]);
    (Before(noZeros, previous.decimal), Second(noZeros, previous.decimal))
  }

  /** The class `[^\d${digits}]` as a value. */
  function NotDigitLike(l: LocalizedValues): char -> bool {
    c => !IsDigitLike(l, c)
  }

  /** Whether the edit ends at or before the previous value's decimal
      separator, where no second separator may go. */
  predicate BeforePreviousDecimal(previous: LocalizedValues, previousValue: string, rangeEnd: nat) {
    match IndexOf(previousValue, previous.decimal)
    case Some(d) => rangeEnd <= d
    case None => false
  }

  /** `added` with its signs removed and `[,${decimal}]` rewritten to `.`. */
  function Unsigned(l: LocalizedValues, added: string): string {
    MapChars(Remove(added, MinusLike(l)), DecimalToDot(l))
  }

  /** `added` without its sign and with `.` for its decimal separator; before
      the previous value's separator only digits are kept. */
  function AbsAdded(l: LocalizedValues, previous: LocalizedValues, added: string,
                    previousValue: string, rangeEnd: nat): (r: string)
    ensures |r| <= |added|
  {
    var abs := Unsigned(l, added);
    if BeforePreviousDecimal(previous, previousValue, rangeEnd) then Remove(abs, NotDigitLike(l)) else abs
  }

  /** The insert loses every sign and keeps no locale separator but `.`; its
      digits all stay, in order; before the previous separator nothing else
      stays; elsewhere a `.` stands exactly when a separator was typed. */
  lemma AbsAddedMeans(l: LocalizedValues, previous: LocalizedValues, added: string,
                      previousValue: string, rangeEnd: nat)
    requires WellFormed(l)
    ensures
      var r := AbsAdded(l, previous, added, previousValue, rangeEnd);
      && (forall c :: c in r ==> !IsMinusLike(l, c) && (IsDecimalLike(l, c) ==> c == '.') && (c == '.' || c in added))
      && Remove(r, NotDigitLike(l)) == Remove(added, NotDigitLike(l))
      && (BeforePreviousDecimal(previous, previousValue, rangeEnd) ==> r == Remove(added, NotDigitLike(l)))
      && (!BeforePreviousDecimal(previous, previousValue, rangeEnd) ==>
            ('.' in r <==> exists c :: c in added && IsDecimalLike(l, c)))
  {
    var abs := Unsigned(l, added);
    UnsignedMembers(l, added);
    UnsignedDigits(l, added);
    if BeforePreviousDecimal(previous, previousValue, rangeEnd) {
      RemoveTwice(abs, NotDigitLike(l), NotDigitLike(l));
    } else {
      UnsignedDot(l, added);
    }
  }

  lemma UnsignedMembers(l: LocalizedValues, added: string)
    requires WellFormed(l)
    ensures forall c :: c in Unsigned(l, added) ==>
      !IsMinusLike(l, c) && (IsDecimalLike(l, c) ==> c == '.') && (c == '.' || c in added)
  {
    var m := Remove(added, MinusLike(l));
    var abs := Unsigned(l, added);
    forall c | c in abs
      ensures !IsMinusLike(l, c) && (IsDecimalLike(l, c) ==> c == '.') && (c == '.' || c in added)
    {
      var i :| 0 <= i < |abs| && abs[i] == c;
      assert m[i] in m;
    }
  }

  lemma UnsignedDigits(l: LocalizedValues, added: string)
    requires WellFormed(l)
    ensures Remove(Unsigned(l, added), NotDigitLike(l)) == Remove(added, NotDigitLike(l))
  {
    var m := Remove(added, MinusLike(l));
    RemoveMapped(m, DecimalToDot(l), NotDigitLike(l));
    RemoveTwice(added, MinusLike(l), NotDigitLike(l));
  }

  lemma UnsignedDot(l: LocalizedValues, added: string)
    requires WellFormed(l)
    ensures '.' in Unsigned(l, added) <==> exists c :: c in added && IsDecimalLike(l, c)
  {
    var m := Remove(added, MinusLike(l));
    var abs := Unsigned(l, added);
    if '.' in abs {
      var i :| 0 <= i < |abs| && abs[i] == '.';
      assert m[i] in m && IsDecimalLike(l, m[i]);
    }
    if exists c :: c in added && IsDecimalLike(l, c) {
      var c :| c in added && IsDecimalLike(l, c);
      assert c in m;
      var i :| 0 <= i < |m| && m[i] == c;
      assert abs[i] == '.';
    }
  }

  /** Whether the edit starts after the previous value's decimal separator. */
  predicate AfterPreviousDecimal(previous: LocalizedValues, previousValue: string, rangeStart: nat) {
    match IndexOf(previousValue, previous.decimal)
    case Some(d) => rangeStart > d
    case None => false
  }

  /** Whether something stable (a separator or a non-zero digit) precedes the edit. */
  predicate StableBefore(previous: LocalizedValues, before: string) {
    exists c :: c in before && (c == previous.decimal || IsNonZeroDigit(previous, c))
  }

  /** `absAdded.split('.')` into integer and fraction, all of it fraction when
      the insert lands after the previous separator without one of its own. */
  function AddedSplit(abs: string, afterDecimal: bool): (r: (string, string))
    ensures |r.0| + |r.1| <= |abs|
    ensures '.' !in abs ==> r == if afterDecimal then ([], abs) else (abs, [])
  {
    if afterDecimal && '.' !in abs then ([], Before(abs, '.'))
    else
      var k := |Before(abs, '.')|;
      assert '.' in abs ==> |Second(abs, '.')| <= |abs[k + 1..]|;
      (Before(abs, '.'), Second(abs, '.'))
  }

  /** The class `[0${digits[0]}]` as a value. */
  function ZeroLike(previous: LocalizedValues): char -> bool
    requires WellFormed(previous)
  {
    c => c == '0' || c == previous.digits[0]
  }

  /** The insert's integer part, without its leading zeros when nothing
      stable precedes it. */
  function AddedInteger(previous: LocalizedValues, abs: string, stableBefore: bool, afterDecimal: bool): string
    requires WellFormed(previous)
  {
    var integer := AddedSplit(abs, afterDecimal).0;
    if stableBefore then integer else DropLeading(integer, ZeroLike(previous))
  }

  /** The insert as it will stand in the value: the first `room` digits of
      its integer part (for a negative `room`, all but the last `-room`), then
      its whole fraction. */
  function NormalizedAdded(previous: LocalizedValues, abs: string, stableBefore: bool,
                           afterDecimal: bool, room: int): (r: string)
    requires WellFormed(previous)
    ensures
      var integer := AddedInteger(previous, abs, stableBefore, afterDecimal);
      var fraction := AddedSplit(abs, afterDecimal).1;
      && |fraction| <= |r| && r[|r| - |fraction|..] == fraction
      && r[..|r| - |fraction|] <= integer
      && |r| - |fraction| == if room >= 0 then Min(|integer|, room) else Max(|integer| + room, 0)
    ensures |r| <= |abs|
    ensures stableBefore && !afterDecimal && '.' !in abs && |abs| <= room ==> r == abs
  {
    var kept := SliceTo(AddedInteger(previous, abs, stableBefore, afterDecimal), room);
    var fraction := AddedSplit(abs, afterDecimal).1;
    assert (kept + fraction)[..|kept|] == kept;
    kept + fraction
  }

  /** `countStableDigits` after an insert: the digits the insert contributes
      once normalised; a previous value too long for `maximumIntegerDigits`
      when a separator is typed into its fraction resets the count to that
      maximum and leaves no room for integer digits. The count never grows by
      more than the insert's length. */
  function InsertCount(previous: LocalizedValues, l: LocalizedValues, maximumIntegerDigits: nat,
                       added: string, previousValue: string, rangeStart: nat, rangeEnd: nat,
                       count: nat): (n: nat)
    requires WellFormed(previous)
    ensures n <= (if count < maximumIntegerDigits then maximumIntegerDigits else count) + |added|
  {
    var before := Prefix(previousValue, rangeStart);
    var abs := AbsAdded(l, previous, added, previousValue, rangeEnd);
    var afterDecimal := AfterPreviousDecimal(previous, previousValue, rangeStart);
    var capped := Capped(previous, previousValue, rangeStart, abs, maximumIntegerDigits);
    var room := IntegerRoom(previous, before, capped, maximumIntegerDigits);
    (if capped then maximumIntegerDigits else count)
      + CountWhere(NormalizedAdded(previous, abs, StableBefore(previous, before), afterDecimal, room), DigitLike(l))
  }

  /** A separator typed into the fraction of a previous value whose digits
      before the edit exceed `maximumIntegerDigits`. */
  predicate Capped(previous: LocalizedValues, previousValue: string, rangeStart: nat, abs: string,
                   maximumIntegerDigits: nat)
    requires WellFormed(previous)
  {
    var parts := PreviousParts(previous, Prefix(previousValue, rangeStart));
    AfterPreviousDecimal(previous, previousValue, rangeStart) && '.' in abs
    && |parts.0| + |parts.1| > maximumIntegerDigits
  }

  /** How many integer digits of the insert still fit:
      `maximumIntegerDigits - previousInteger.length`. */
  function IntegerRoom(previous: LocalizedValues, before: string, capped: bool, maximumIntegerDigits: nat): int
    requires WellFormed(previous)
  {
    if capped then 0 else maximumIntegerDigits - |PreviousParts(previous, before).0|
  }

  /** Typing plain digits into an integer after some stable character adds
      as many stable digits as were typed, up to the room the maximum leaves
      (with too little room, the excess of the previous integer digits is
      cut from the end of the insert). */
  lemma InsertCountDigits(previous: LocalizedValues, l: LocalizedValues, maximumIntegerDigits: nat,
                          added: string, previousValue: string, rangeStart: nat, rangeEnd: nat, count: nat)
    requires WellFormed(previous) && WellFormed(l)
    requires forall c :: c in added ==> IsDigitLike(l, c)
    requires !AfterPreviousDecimal(previous, previousValue, rangeStart)
    requires StableBefore(previous, Prefix(previousValue, rangeStart))
    ensures
      var room := maximumIntegerDigits - |PreviousParts(previous, Prefix(previousValue, rangeStart)).0|;
      var n := InsertCount(previous, l, maximumIntegerDigits, added, previousValue, rangeStart, rangeEnd, count);
      && (room >= 0 ==> n == count + Min(|added|, room))
      && (room < 0 ==> n == count + Max(|added| + room, 0))
  {
    var before := Prefix(previousValue, rangeStart);
    var room := IntegerRoom(previous, before, false, maximumIntegerDigits);
    AbsAddedDigits(l, previous, added, previousValue, rangeEnd);
    assert !Capped(previous, previousValue, rangeStart, added, maximumIntegerDigits);
    PlainInsertCount(previous, l, added, room);
  }

  lemma PlainInsertCount(previous: LocalizedValues, l: LocalizedValues, added: string, room: int)
    requires WellFormed(previous) && WellFormed(l)
    requires forall c :: c in added ==> IsDigitLike(l, c)
    ensures CountWhere(NormalizedAdded(previous, added, true, false, room), DigitLike(l))
         == if room >= 0 then Min(|added|, room) else Max(|added| + room, 0)
  {
    assert '.' !in added;
    var r := NormalizedAdded(previous, added, true, false, room);
    assert r == SliceTo(added, room);
    assert forall c :: c in r ==> c in added;
    CountAll(r, DigitLike(l));
  }

  /** A separator typed into the fraction of a value whose digits before the
      edit exceed `maximumIntegerDigits`: the count is that maximum plus the
      digits typed after the separator, and the typed integer digits count
      for nothing. */
  lemma InsertCountCapped(previous: LocalizedValues, l: LocalizedValues, maximumIntegerDigits: nat,
                          added: string, previousValue: string, rangeStart: nat, rangeEnd: nat, count: nat)
    requires WellFormed(previous)
    requires Capped(previous, previousValue, rangeStart, AbsAdded(l, previous, added, previousValue, rangeEnd),
                    maximumIntegerDigits)
    ensures InsertCount(previous, l, maximumIntegerDigits, added, previousValue, rangeStart, rangeEnd, count)
         == maximumIntegerDigits + CountWhere(Second(AbsAdded(l, previous, added, previousValue, rangeEnd), '.'), DigitLike(l))
  {
    var abs := AbsAdded(l, previous, added, previousValue, rangeEnd);
    var before := Prefix(previousValue, rangeStart);
    var r := NormalizedAdded(previous, abs, StableBefore(previous, before), true, 0);
    assert r == Second(abs, '.');
  }

  lemma AbsAddedDigits(l: LocalizedValues, previous: LocalizedValues, added: string, previousValue: string, rangeEnd: nat)
    requires WellFormed(l)
    requires forall c :: c in added ==> IsDigitLike(l, c)
    ensures AbsAdded(l, previous, added, previousValue, rangeEnd) == added
  {
    RemoveNothing(added, MinusLike(l));
    var abs := Unsigned(l, added);
    forall i | 0 <= i < |added|
      ensures abs[i] == added[i]
    {
      assert added[i] in added;
      assert DecimalToDot(l)(added[i]) == added[i];
    }
    assert abs == added;
    RemoveNothing(added, NotDigitLike(l));
  }

  // ---------------------------------------------------------------------
  // The scan over the next value

  /** Where the stable part of the next value starts: its decimal separator or
      a non-zero digit. */
  predicate IsScanStart(l: LocalizedValues, c: char) {
    c == l.decimal || IsNonZeroDigit(l, c)
  }

  function FirstScanStart(l: LocalizedValues, s: string, from: nat): (r: Option<nat>)
    requires from <= |s|
    ensures r.None? ==> forall q :: from <= q < |s| ==> !IsScanStart(l, s[q])
    ensures r.Some? ==>
      && from <= r.value < |s| && IsScanStart(l, s[r.value])
      && forall q :: from <= q < r.value ==> !IsScanStart(l, s[q])
    decreases |s| - from
  {
    if from == |s| then None
    else if IsScanStart(l, s[from]) then Some(from)
    else FirstScanStart(l, s, from + 1)
  }

  /** The `for` loop of the source as a function: from index `i`, with
      `started` and `counted` as the loop flags. */
  function ScanFrom(l: LocalizedValues, next: string, count: nat, i: nat, started: bool, counted: nat): (r: nat)
    requires i <= |next|
    ensures i <= r <= |next|
    decreases |next| - i
  {
    if i == |next| then |next|
    else
      var start := started || IsScanStart(l, next[i]);
      if start && counted >= count then i
      else ScanFrom(l, next, count, i + 1, start, if start && next[i] in l.digits then counted + 1 else counted)
  }

  /** The number of the locale's digits in `s`. */
  function DigitsIn(digits: string, s: string): (n: nat)
    ensures n <= |s|
  {
    if s == [] then 0 else (if s[0] in digits then 1 else 0) + DigitsIn(digits, s[1..])
  }

  lemma {:induction false} DigitsSplit(digits: string, a: string, b: string)
    ensures DigitsIn(digits, a + b) == DigitsIn(digits, a) + DigitsIn(digits, b)
  {
    if a == [] {
      assert a + b == b;
    } else {
      assert (a + b)[0] == a[0] && (a + b)[1..] == a[1..] + b;
      DigitsSplit(digits, a[1..], b);
    }
  }

  /** The scan's answer: the first index, from the stable start on, with at
      least `count` digits between the stable start and it; the length of the
      value when there is none. */
  lemma ScanMeans(l: LocalizedValues, next: string, count: nat)
    ensures
      var r := ScanFrom(l, next, count, 0, false, 0);
      var first := FirstScanStart(l, next, 0);
      && r <= |next|
      && (first.None? ==> r == |next|)
      && (first.Some? ==>
            && (forall q :: first.value <= q < r ==> DigitsIn(l.digits, next[first.value..q]) < count)
            && (r < |next| ==> first.value <= r && DigitsIn(l.digits, next[first.value..r]) >= count))
  {
    match FirstScanStart(l, next, 0)
    case None => ScanWithoutStart(l, next, count, 0, 0);
    case Some(first) =>
      assert ScanFlags(l, next, count, first, 0, false, 0);
      ScanFromMeans(l, next, count, first, 0, false, 0);
  }

  /** Without a stable start the scan runs to the end. */
  lemma {:induction false} ScanWithoutStart(l: LocalizedValues, next: string, count: nat, i: nat, counted: nat)
    requires i <= |next|
    requires forall q :: i <= q < |next| ==> !IsScanStart(l, next[q])
    ensures ScanFrom(l, next, count, i, false, counted) == |next|
    decreases |next| - i
  {
    if i < |next| {
      ScanWithoutStart(l, next, count, i + 1, counted);
    }
  }

  /** One step of the scan from the stable start `first` on: the flags say
      whether `first` has been passed and how many digits lie since. */
  lemma {:induction false} ScanFromMeans(l: LocalizedValues, next: string, count: nat, first: nat,
                                         i: nat, started: bool, counted: nat)
    requires ScanFlags(l, next, count, first, i, started, counted)
    ensures
      var r := ScanFrom(l, next, count, i, started, counted);
      && (forall q :: first <= q < r ==> DigitsIn(l.digits, next[first..q]) < count)
      && (r < |next| ==> first <= r && DigitsIn(l.digits, next[first..r]) >= count)
    decreases |next| - i
  {
    if i < |next| {
      var start := started || IsScanStart(l, next[i]);
      if start && counted >= count {
        if !started {
          assert next[first..i] == [];
        }
      } else {
        var counted' := if start && next[i] in l.digits then counted + 1 else counted;
        ScanStep(l, next, count, first, i, started, counted);
        ScanFromMeans(l, next, count, first, i + 1, start, counted');
      }
    }
  }

  /** What the loop flags mean at index `i`, for the stable start `first`. */
  predicate ScanFlags(l: LocalizedValues, next: string, count: nat, first: nat, i: nat, started: bool, counted: nat) {
    && i <= |next| && first < |next|
    && IsScanStart(l, next[first]) && (forall q :: i <= q < first ==> !IsScanStart(l, next[q]))
    && (started <==> first < i)
    && (started ==> counted == DigitsIn(l.digits, next[first..i]))
    && (started ==> forall q :: first <= q < i ==> DigitsIn(l.digits, next[first..q]) < count)
    && (!started ==> counted == 0)
  }

  /** A step that does not stop the scan keeps the flags' meaning. */
  lemma ScanStep(l: LocalizedValues, next: string, count: nat, first: nat, i: nat, started: bool, counted: nat)
    requires ScanFlags(l, next, count, first, i, started, counted) && i < |next|
    requires !((started || IsScanStart(l, next[i])) && counted >= count)
    ensures
      var start := started || IsScanStart(l, next[i]);
      ScanFlags(l, next, count, first, i + 1, start, if start && next[i] in l.digits then counted + 1 else counted)
  {
    var start := started || IsScanStart(l, next[i]);
    if start {
      if !started {
        assert next[first..i] == [];
      }
      DigitsSnoc(l.digits, next, first, i);
    }
  }

  lemma DigitsSnoc(digits: string, s: string, from: nat, i: nat)
    requires from <= i < |s|
    ensures DigitsIn(digits, s[from..i + 1]) == DigitsIn(digits, s[from..i]) + if s[i] in digits then 1 else 0
  {
    assert s[from..i + 1] == s[from..i] + [s[i]];
    DigitsSplit(digits, s[from..i], [s[i]]);
  }

  // ---------------------------------------------------------------------
  // Snapping

  /** After a forward delete: onto the first digit at or after the caret, or
      failing that the last minus sign after it. */
  function SnapForward(l: LocalizedValues, next: string, selection: nat): (r: nat)
    requires selection <= |next|
    ensures selection <= r <= |next|
    ensures r < |next| && r != selection ==> next[r] in l.digits || next[r] == l.minusSign
    ensures (exists q :: selection <= q < |next| && next[q] in l.digits) ==>
      r < |next| && next[r] in l.digits && NoneIn(next, l.digits, selection, r)
    // with no digit ahead: the last minus sign after the caret, else the caret itself
    ensures NoneIn(next, l.digits, selection, |next|) && l.minusSign in next[selection..] ==>
      r < |next| && next[r] == l.minusSign && l.minusSign !in next[r + 1..]
    ensures NoneIn(next, l.digits, selection, |next|) && l.minusSign !in next[selection..] ==> r == selection
  {
    match FirstIn(next, l.digits, selection)
    case Some(e) => e
    case None =>
      match LastIndexOf(next[selection..], l.minusSign)
      case Some(k) => selection + k
      case None => selection
  }

  /** A candidate for snapping back: a digit (or, after a backward delete, the
      minus sign) with no digit between it and the caret. */
  predicate SnapsBack(l: LocalizedValues, alsoMinus: bool, s: string, p: nat, selection: nat)
    requires p < selection <= |s|
  {
    (s[p] in l.digits || (alsoMinus && s[p] == l.minusSign)) && NoneIn(s, l.digits, p + 1, selection)
  }

  /** The leftmost candidate at or after `p`: the index of the pattern's match. */
  function BackFrom(l: LocalizedValues, alsoMinus: bool, s: string, selection: nat, p: nat): (r: Option<nat>)
    requires p <= selection <= |s|
    ensures r.None? ==> forall q :: p <= q < selection ==> !SnapsBack(l, alsoMinus, s, q, selection)
    ensures r.Some? ==>
      && p <= r.value < selection && SnapsBack(l, alsoMinus, s, r.value, selection)
      && forall q :: p <= q < r.value ==> !SnapsBack(l, alsoMinus, s, q, selection)
    decreases selection - p
  {
    if p == selection then None
    else if SnapsBack(l, alsoMinus, s, p, selection) then Some(p)
    else BackFrom(l, alsoMinus, s, selection, p + 1)
  }

  /** Otherwise: just after the digit (or, after a backward delete, the sign)
      the caret follows, then past a decimal separator the user just typed. */
  function SnapBackward(l: LocalizedValues, inputType: InputType, added: string, next: string, selection: nat): (r: nat)
    requires selection <= |next|
    ensures r <= |next|
    ensures
      var b := BackFrom(l, inputType == DeleteBackward, next, selection, 0);
      var back := if b.Some? then b.value + 1 else selection;
      && back <= r <= back + 1
      && (r == back + 1 <==>
            back < |next| && next[back] == l.decimal && added != [] && IsDecimalLike(l, added[|added| - 1]))
  {
    var back := match BackFrom(l, inputType == DeleteBackward, next, selection, 0)
      case Some(p) => p + 1
      case None => selection;
    if back < |next| && next[back] == l.decimal && added != [] && IsDecimalLike(l, added[|added| - 1]) then back + 1
    else back
  }

  /** With a digit before the caret, the caret snaps back to just after the
      last digit before it (and then past a separator just typed). */
  lemma SnapBackwardLastDigit(l: LocalizedValues, inputType: InputType, added: string, next: string,
                              selection: nat, q: nat)
    requires q < selection <= |next| && next[q] in l.digits
    ensures
      var b := BackFrom(l, inputType == DeleteBackward, next, selection, 0);
      && b.Some? && next[b.value] in l.digits && NoneIn(next, l.digits, b.value + 1, selection)
      && b.value + 1 <= SnapBackward(l, inputType, added, next, selection) <= b.value + 2
  {
    var d := LastDigitBefore(l, next, q, selection);
    assert SnapsBack(l, inputType == DeleteBackward, next, d, selection);
  }

  lemma {:induction false} LastDigitBefore(l: LocalizedValues, s: string, q: nat, selection: nat) returns (d: nat)
    requires q < selection <= |s| && s[q] in l.digits
    ensures q <= d < selection && s[d] in l.digits && NoneIn(s, l.digits, d + 1, selection)
    decreases selection - q
  {
    if NoneIn(s, l.digits, q + 1, selection) {
      d := q;
    } else {
      var q' :| q + 1 <= q' < selection && s[q'] in l.digits;
      d := LastDigitBefore(l, s, q', selection);
    }
  }

  // ---------------------------------------------------------------------
  // Clamping

  predicate IsClampStart(l: LocalizedValues, c: char) {
    c == l.minusSign || c == l.decimal || IsNonZeroDigit(l, c)
  }

  /** The first sign, separator or non-zero digit: the start of the number proper. */
  function ClampStart(l: LocalizedValues, s: string, from: nat): (r: Option<nat>)
    requires from <= |s|
    ensures r.None? ==> forall q :: from <= q < |s| ==> !IsClampStart(l, s[q])
    ensures r.Some? ==>
      && from <= r.value < |s| && IsClampStart(l, s[r.value])
      && forall q :: from <= q < r.value ==> !IsClampStart(l, s[q])
    decreases |s| - from
  {
    if from == |s| then None
    else if IsClampStart(l, s[from]) then Some(from)
    else ClampStart(l, s, from + 1)
  }

  /** The last digit, or the sign when no digit follows it. */
  function ClampEnd(l: LocalizedValues, s: string): (r: Option<nat>)
    ensures r.Some? ==> r.value < |s| && SnapsBack(l, true, s, r.value, |s|)
    // `search` reports the leftmost match
    ensures r.Some? ==> forall q :: 0 <= q < r.value ==> !SnapsBack(l, true, s, q, |s|)
    ensures r.None? <==> forall q :: 0 <= q < |s| ==> !SnapsBack(l, true, s, q, |s|)
  {
    BackFrom(l, true, s, |s|, 0)
  }

  /** The caret is moved up to the start of the number, or else back to just
      past its last digit or sign. */
  function Clamp(l: LocalizedValues, next: string, selection: nat): (r: nat)
    requires selection <= |next|
    ensures r <= |next|
    ensures ClampStart(l, next, 0).Some? ==>
      r >= ClampStart(l, next, 0).value || (ClampEnd(l, next).Some? && r == ClampEnd(l, next).value + 1 < selection)
    ensures ClampEnd(l, next).Some? && r > ClampEnd(l, next).value + 1 ==>
      ClampStart(l, next, 0).Some? && r == ClampStart(l, next, 0).value
    ensures
      && (ClampStart(l, next, 0).None? || selection >= ClampStart(l, next, 0).value)
      && (ClampEnd(l, next).None? || selection <= ClampEnd(l, next).value + 1)
      ==> r == selection
    ensures ClampStart(l, next, 0).Some? && selection < ClampStart(l, next, 0).value ==>
      r == ClampStart(l, next, 0).value
    ensures
      && (ClampStart(l, next, 0).None? || selection >= ClampStart(l, next, 0).value)
      && ClampEnd(l, next).Some? && selection > ClampEnd(l, next).value + 1
      ==> r == ClampEnd(l, next).value + 1
  {
    var first := ClampStart(l, next, 0);
    var last := ClampEnd(l, next);
    if first.Some? && selection < first.value then first.value
    else if last.Some? && selection > last.value + 1 then last.value + 1
    else selection
  }

  // ---------------------------------------------------------------------
  // The whole resolver

  /** The stable-digit count the scan looks for. */
  function TargetCount(previous: LocalizedValues, l: LocalizedValues, maximumIntegerDigits: nat,
                       inputType: InputType, added: string, previousValue: string,
                       rangeStart: nat, rangeEnd: nat): nat
    requires WellFormed(previous) && rangeStart <= |previousValue|
  {
    var count := StableCount(previous, previousValue, rangeStart);
    if inputType == Insert then
      InsertCount(previous, l, maximumIntegerDigits, added, previousValue, rangeStart, rangeEnd, count)
    else count
  }

  /** The caret after the scan, the snapping and the clamping. */
  function MainCaret(previous: LocalizedValues, l: LocalizedValues, maximumIntegerDigits: nat,
                     inputType: InputType, added: string, previousValue: string, nextValue: string,
                     rangeStart: nat, rangeEnd: nat): (r: nat)
    requires WellFormed(previous) && rangeStart <= |previousValue|
    ensures r <= |nextValue|
  {
    var count := TargetCount(previous, l, maximumIntegerDigits, inputType, added, previousValue, rangeStart, rangeEnd);
    var scanned := ScanFrom(l, nextValue, count, 0, false, 0);
    var snapped :=
      if inputType == DeleteForward then SnapForward(l, nextValue, scanned)
      else SnapBackward(l, inputType, added, nextValue, scanned);
    Clamp(l, nextValue, snapped)
  }

  /** `resolveSelection` as a function of its inputs. */
  function Resolve(previous: LocalizedValues, l: LocalizedValues, maximumIntegerDigits: nat,
                   inputType: InputType, added: string, previousValue: string, nextValue: string,
                   rangeStart: nat, rangeEnd: nat): Selection
    requires WellFormed(previous) && rangeStart <= |previousValue|
  {
    match DecimalCaret(l, added, previousValue, nextValue)
    case Some(p) => Selection(p, p)
    case None =>
      match MinusCaret(l, added, previousValue, nextValue)
      case Some(p) => Selection(p, p)
      case None =>
        match ZeroSelection(previous, inputType, previousValue, rangeStart, rangeEnd)
        case Some(zeros) => zeros
        case None =>
          var c := MainCaret(previous, l, maximumIntegerDigits, inputType, added, previousValue,
                             nextValue, rangeStart, rangeEnd);
          Selection(c, c)
  }

  /** `resolveSelection`: the early answers, then the stable-digit count and
      the scan loop over the next value, then snapping and clamping. */
  method ResolveSelection(previous: LocalizedValues, l: LocalizedValues, maximumIntegerDigits: nat,
                          inputType: InputType, added: string, previousValue: string, nextValue: string,
                          rangeStart: nat, rangeEnd: nat)
    returns (selection: Selection)
    requires WellFormed(previous) && rangeStart <= |previousValue|
    ensures selection == Resolve(previous, l, maximumIntegerDigits, inputType, added, previousValue,
                                 nextValue, rangeStart, rangeEnd)
  {
    var decimalCaret := DecimalCaret(l, added, previousValue, nextValue);
    if decimalCaret.Some? {
      return Selection(decimalCaret.value, decimalCaret.value);
    }
    var minusCaret := MinusCaret(l, added, previousValue, nextValue);
    if minusCaret.Some? {
      return Selection(minusCaret.value, minusCaret.value);
    }
    var zeros := ZeroSelection(previous, inputType, previousValue, rangeStart, rangeEnd);
    if zeros.Some? {
      return zeros.value;
    }
    var position;
    var countStableDigits := StableCount(previous, previousValue, rangeStart);
    if inputType == Insert {
      countStableDigits := InsertCount(previous, l, maximumIntegerDigits, added, previousValue,
                                       rangeStart, rangeEnd, countStableDigits);
    }
    position := Scan(l, nextValue, countStableDigits);
    if inputType == DeleteForward {
      position := SnapForward(l, nextValue, position);
    } else {
      position := SnapBackward(l, inputType, added, nextValue, position);
    }
    position := Clamp(l, nextValue, position);
    selection := Selection(position, position);
  }

  /** The `for` loop over the next value: the index where the stable digits
      counted since the stable start first reach `countStableDigits`. */
  method Scan(l: LocalizedValues, nextValue: string, countStableDigits: nat) returns (position: nat)
    ensures position == ScanFrom(l, nextValue, countStableDigits, 0, false, 0)
  {
    position := |nextValue|;
    var i, start, countDigits := 0, false, 0;
    while i < |nextValue|
      invariant i <= |nextValue|
      invariant ScanFrom(l, nextValue, countStableDigits, 0, false, 0)
             == ScanFrom(l, nextValue, countStableDigits, i, start, countDigits)
      decreases |nextValue| - i
    {
      if !start && IsScanStart(l, nextValue[i]) {
        start := true;
      }
      if start && countDigits >= countStableDigits {
        position := i;
        break;
      }
      if start && nextValue[i] in l.digits {
        countDigits := countDigits + 1;
      }
      i := i + 1;
    }
  }

  /** The answer is a selection rather than a caret exactly when the zeros
      of an all-zero integer are selected; otherwise the caret lies within
      the next value, and after the scan it is never before the start of the
      number, and is more than one past its last digit or sign only when that
      start lies further still. */
  lemma ResolvedCaret(previous: LocalizedValues, l: LocalizedValues, maximumIntegerDigits: nat,
                      inputType: InputType, added: string, previousValue: string, nextValue: string,
                      rangeStart: nat, rangeEnd: nat)
    requires WellFormed(previous) && rangeStart <= |previousValue|
    ensures
      var r := Resolve(previous, l, maximumIntegerDigits, inputType, added, previousValue,
                       nextValue, rangeStart, rangeEnd);
      var early := DecimalCaret(l, added, previousValue, nextValue).Some? || MinusCaret(l, added, previousValue, nextValue).Some?;
      var zeros := ZeroSelection(previous, inputType, previousValue, rangeStart, rangeEnd);
      && (r.start != r.end <==> !early && zeros.Some?)
      && (!early && zeros.Some? ==> r == zeros.value)
      && (early || zeros.None? ==> r.end <= |nextValue|)
      && (!early && zeros.None? ==>
            && (ClampStart(l, nextValue, 0).Some? ==>
                  || r.start >= ClampStart(l, nextValue, 0).value
                  || (ClampEnd(l, nextValue).Some? && r.start == ClampEnd(l, nextValue).value + 1))
            && (ClampEnd(l, nextValue).Some? && r.start > ClampEnd(l, nextValue).value + 1 ==>
                  r.start == ClampStart(l, nextValue, 0).value))
  {
  }
}
