# react-input: edit tracking, mask engine and number caret, in Dafny

This project models the core of react-input, a set of React hooks that
turn a plain `<input>` into a masked input or a localised number input. The
modelled parts are:

- **The edit classifier** (`EditClassifier`). It is shared by the core and
  number-format `useInput` hooks. It compares the selection remembered before
  an input event with what the element reports after it. From that it decides
  whether the edit was an `insert`, a `deleteBackward` or a `deleteForward`,
  and it extracts the added or deleted text and the range it replaced.
- **The selection session** (`EditSession.InputSession`). This is the mutable
  `selection` record of both hooks: the current, fallback and cached timer
  tokens, and the remembered caret. The input handler rejects an event whose
  token was already used. It commits the tracking result, or rolls back to
  the previous value and to any attributes the rejection carries. Focus
  schedules caret polls under fresh tokens, and blur resets every token.
- **The mask engine** (`MaskFilter`, `MaskDetail`):
  - `filter` keeps only the typed characters that fit the next placeholder;
  - `formatToMask` places unmasked characters into the placeholder slots;
  - `formatToParts` classifies every character of the result;
  - `resolveDetail` trims the unfilled tail and judges validity with the
    strict generated pattern.
- **The number-format `tracking` callback** (`NumberNormalize`,
  `NumberFormat`). Its cache records which locale and options the previous
  value was formatted with, and the callback reconciles it with the element.
  The callback then filters the added text and rebuilds the value around the
  edit. It rewrites the locale's glyphs to ASCII and toggles and re-anchors
  the minus sign. It also drops trailing zeros typed into the minimum
  fraction.
- **The caret resolver** (`CaretResolver`, `resolveSelection`). It counts
  the "stable" digits before the edit and scans the formatted value for the
  same count. It then snaps the caret to a neighbouring digit or sign and
  clamps it into the numeric part of the value.

The input, focus and blur handlers of the two `useInput` hooks differ,
as far as this model goes, only in where their tokens come from
(`setTimeout` in the core hook, `requestAnimationFrame` in the number-format
hook). They are modelled once, and the table below cites the core hook. The
hooks differ elsewhere too (see "## Left out"): in the value they
initialise from, in how they dispatch the custom input event, and in how
they recognise their own error. In
`packages/number-format/src/core/hooks/useInput.ts` the same steps are at
lines 101-236 (input, with classification at 123-173), 254-271 (focus) and
296-305 (blur).

Imperative code is modelled as imperative Dafny, each part proved against a
specification function:
- the session and the number-format cache are classes whose methods update
  their fields;
- `filter`, `formatToMask` and the caret scan of `resolveSelection` are
  methods with loops.

The rest is pure functions with lemmas.

## Model

| member | source | states |
|---|---|---|
| EditClassifier.KindOf | packages/core/src/hooks/useInput.ts:120-129 | An edit is an insert exactly when the caret moved right of the remembered start. It is a backward delete exactly when the caret is at or before the start and before the end. It is a forward delete exactly when neither holds, the caret sits at the remembered end and the value got shorter. |
| EditClassifier.Classify | packages/core/src/hooks/useInput.ts:119-160 | An insert keeps the remembered range, adds the text between the remembered start and the caret, and deletes nothing. A delete is accepted only when the value did not grow. It starts at the caret, spans exactly what the value lost and names the lost text. The result is an insert exactly when the caret moved right. A caret that says delete while the value grew is rejected as a detection error, exactly then. A caret that neither moved right nor explains a delete is rejected as an undefined type, exactly then. |
| EditClassifier.InsertRecognised | packages/core/src/hooks/useInput.ts:122-143 | Typing non-empty text over the remembered selection is recognised as an insert of exactly that text over exactly that range. |
| EditClassifier.BackwardDeleteRecognised | packages/core/src/hooks/useInput.ts:122-155 | Removing a range whose start is at or before the remembered start (Backspace, or Delete over a selection) is recognised as a backward delete of exactly the removed text. |
| EditClassifier.ForwardDeleteRecognised | packages/core/src/hooks/useInput.ts:122-155 | Delete pressed with a collapsed caret is recognised as a forward delete of exactly the removed text. |
| EditClassifier.DeleteRestores | packages/core/src/hooks/useInput.ts:145-155 | For a recognised delete, putting the deleted text back at the range start restores the previous value. |
| EditSession.Admit | packages/core/src/hooks/useInput.ts:107-117 | A stale token rejects the event as "selection not updated". A null caret rejects it as "selection not initialised". Otherwise the event is classified. |
| EditSession.InputSession.constructor | packages/core/src/hooks/useInput.ts:40-46 | The session starts with every token at -1 and the caret at 0. |
| EditSession.InputSession.Input | packages/core/src/hooks/useInput.ts:97-259 | The current token is cached whatever happens. The edit commits exactly when it is admitted and tracking accepts it. The tracking result is then shown and becomes the remembered selection. Otherwise the previous value comes back (or the value the rejection carries), and the remembered caret changes only where the rejection carries a caret. The caret shown is always the remembered one. |
| EditSession.InputSession.Focus | packages/core/src/hooks/useInput.ts:277-294 | Focus installs a fresh token that differs from the cached one, so the next input passes the staleness check. |
| EditSession.InputSession.FocusTick | packages/core/src/hooks/useInput.ts:280-291 | After a dispatched custom event, the poll copies the element's caret (0 for null) and installs a fresh token. Otherwise it only records the fallback id and leaves the token and caret alone. |
| EditSession.InputSession.Blur | packages/core/src/hooks/useInput.ts:319-328 | Blur resets all three tokens to -1 and keeps the caret. |
| EditSession.SecondInputWithoutTick | packages/core/src/hooks/useInput.ts:105-111 | A second input event with no caret poll in between is rejected as stale. |
| EditSession.BlurThenFocus | packages/core/src/hooks/useInput.ts:107-111 | After a blur, input is rejected. After the next focus, the staleness check passes. |
| MaskFilter.Filter | packages/mask/src/utils/filter.ts:14-30 | The loop computes the filter function. The result is a subsequence of the input, no longer than the expected placeholders. |
| MaskFilter.FilteredIsSubsequence | packages/mask/src/utils/filter.ts:19-27 | Filtering only deletes characters and keeps their order. |
| MaskFilter.FilteredLength | packages/mask/src/utils/filter.ts:19-27 | Each kept character consumes one placeholder, so at most as many characters are kept as there are placeholders. |
| MaskFilter.FilteredAt | packages/mask/src/utils/filter.ts:20-25 | The k-th kept character belongs to the k-th placeholder. Either it passes that key's test without being a key, or (with `separate`) it is the key itself. |
| MaskFilter.NoKeyKept | packages/mask/src/utils/filter.ts:20-23 | Without `separate`, a typed placeholder key is never kept. |
| MaskFilter.FilterIdempotent | packages/mask/src/utils/filter.ts:19-27 | Filtering an already filtered value changes nothing. |
| MaskDetail.Masked | packages/mask/src/utils/resolveDetail.ts:71-83 | The masked value is as long as the mask. |
| MaskDetail.FormatToMask | packages/mask/src/utils/resolveDetail.ts:71-83 | The reduce with its mutable position computes the masked value. |
| MaskDetail.MaskedAt | packages/mask/src/utils/resolveDetail.ts:74-82 | Every non-key position shows the mask character. The j-th key shows the j-th unmasked character while there is one, and the key itself after that. |
| MaskDetail.FormatToParts | packages/mask/src/utils/resolveDetail.ts:51-63 | There is one part per character, with its index and value. A part is `replacement` exactly when the character is a key. It is `input` exactly when it is neither a key nor equal to the mask character at that index. |
| MaskDetail.LastInput | packages/mask/src/utils/resolveDetail.ts:111-115 | Finds the index of the last `input` part, or reports that there is none. |
| MaskDetail.ResolveDetail | packages/mask/src/utils/resolveDetail.ts:100-126 | With `showMask` the value is the full masked value. Without it the value is the masked value cut just after the last typed character, or empty when nothing was typed. The parts describe the full masked value. Validity is the strict pattern applied to the value shown. |
| MaskDetail.PartsOfMasked | packages/mask/src/utils/resolveDetail.ts:51-83 | On key-free input, the parts of a masked value are `input` exactly at the filled slots, `replacement` at the unfilled slots and `mask` at every literal. |
| MaskDetail.StrictImpliesLenient | packages/mask/src/utils/resolveDetail.ts:16-36 | A value that matches the strict pattern also matches the lenient one. |
| MaskDetail.StrictMatchMeans | packages/mask/src/utils/resolveDetail.ts:16-36 | The strict pattern holds exactly when all three hold: the value is as long as the mask, every literal is in place, and every slot holds a non-key character that passes its test. |
| MaskDetail.PatternDocExample | packages/mask/src/utils/resolveDetail.ts:9-11 | Under mask `abc_123` with `_` accepting non-digits, `abc_123` fits the lenient pattern and not the strict one. |
| MaskDetail.FilledIffValid | packages/mask/src/utils/resolveDetail.ts:104-123 | For key-free unmasked text that passes its slots' tests, the masked value is valid exactly when every placeholder is filled. |
| NumberNormalize.StripOrigin | packages/number-format/src/useNumberFormat.ts:111-125 | Every character the filter keeps comes from a source position the pattern does not match. |
| NumberNormalize.StripShape | packages/number-format/src/useNumberFormat.ts:111-125 | After filtering, only allowed characters remain, with at most one decimal-like and one minus-like character. The sign is on its locale's side of every digit. |
| NumberNormalize.StripDigits | packages/number-format/src/useNumberFormat.ts:111-125 | The filter never removes a digit-like character. |
| NumberNormalize.Glyph | packages/number-format/src/useNumberFormat.ts:144-154 | An allowed character becomes `.` exactly when it is decimal-like, `-` exactly when it is minus-like, and an ASCII digit exactly when it is digit-like. A locale digit becomes the ASCII digit of its value, its index in the locale's digits. Any other ASCII digit stays as it is. |
| NumberNormalize.Normalized | packages/number-format/src/useNumberFormat.ts:144-154 | The normalised value is the filtered value rewritten character by character. |
| NumberNormalize.NormalizedShape | packages/number-format/src/useNumberFormat.ts:144-154 | The normalised value contains only ASCII digits, at most one `.` and at most one `-`, with the sign on its side of the digits. |
| NumberNormalize.NormalizedDigits | packages/number-format/src/useNumberFormat.ts:144-154 | Normalising keeps every digit-like character, rewritten to its ASCII digit and in order, and adds no digit. |
| NumberNormalize.KeptOfPrevious | packages/number-format/src/useNumberFormat.ts:131-139 | What survives of a slice of the previous value is a subsequence of it, in its order. |
| NumberNormalize.KeptOfPreviousCounts | packages/number-format/src/useNumberFormat.ts:131-139 | Every occurrence of the previous locale's sign, separator and digits survives, and nothing else does. |
| NumberNormalize.RebuiltCounts | packages/number-format/src/useNumberFormat.ts:138-141 | The rebuilt value holds all of the added text and, of the previous value outside the edited range, exactly its previous-locale symbols, each as often as it occurs there. |
| NumberNormalize.RebuiltDigits | packages/number-format/src/useNumberFormat.ts:138-141 | The digits of the rebuilt value are those kept before the range, then those typed, then those kept after it. |
| NumberNormalize.RemoveFirstMinus | packages/number-format/src/useNumberFormat.ts:168 | Exactly the first `-` is removed, and everything else stays in place. |
| NumberNormalize.Toggled | packages/number-format/src/useNumberFormat.ts:159-173 | A lone minus typed with a collapsed range removes the sign when the previous and normalised values both have one, and prepends it when neither does. Otherwise the value is unchanged. |
| NumberNormalize.ToggledShape | packages/number-format/src/useNumberFormat.ts:159-173 | Toggling the sign keeps the numeric shape. |
| NumberNormalize.ToggledDigits | packages/number-format/src/useNumberFormat.ts:159-173 | Toggling the sign leaves the digits unchanged. |
| NumberNormalize.SignFirst | packages/number-format/src/useNumberFormat.ts:177-179 | A trailing `-` moves to the front, and the length is unchanged. |
| NumberNormalize.SignFirstShape | packages/number-format/src/useNumberFormat.ts:177-179 | Moving the sign to the front keeps the numeric shape. |
| NumberNormalize.SignFirstDigits | packages/number-format/src/useNumberFormat.ts:177-179 | Moving the sign to the front leaves the digits unchanged. |
| NumberNormalize.PreviousFraction | packages/number-format/src/useNumberFormat.ts:185-187 | The match found is a non-empty maximal run of previous digits with a decimal separator before it. |
| NumberNormalize.PreviousFractionMeans | packages/number-format/src/useNumberFormat.ts:185-187 | The match starts at the leftmost previous digit that has a decimal separator before it. There is no match exactly when no such digit exists. |
| NumberNormalize.PreviousInteger | packages/number-format/src/useNumberFormat.ts:190-193 | The integer passed to the fraction-digit resolver consists of previous-locale digits only. |
| NumberNormalize.AtLeastOne | packages/number-format/src/useNumberFormat.ts:205-209 | The result is the minimum fraction digits, or 1 when that is 0. |
| NumberNormalize.FractionZerosDropped | packages/number-format/src/useNumberFormat.ts:184-214 | The result is a prefix of the value, and when it differs it is the value without its trailing zeros. The zeros are dropped exactly when all of the following hold: the value ends in a fraction zero; the previous value has a fraction; the edit starts in that fraction and ends within its first `minimumFractionDigits \|\| 1` digits; and the fraction is no longer than that. |
| NumberNormalize.DropTrailingDigits | packages/number-format/src/useNumberFormat.ts:211 | Dropping trailing zeros removes only trailing zero digits. |
| NumberNormalize.NormalizedValue | packages/number-format/src/useNumberFormat.ts:138-214 | The value handed to the formatter is a plain number: ASCII digits, at most one `.` and at most one `-`. The `-` comes before every digit. For a locale that writes its sign after the number, it either stands first or follows every digit. |
| NumberNormalize.NormalizedValueDigits | packages/number-format/src/useNumberFormat.ts:138-214 | The digits of the value handed to the formatter are the rebuilt value's digits in ASCII, in order. Only trailing zeros dropped from the fraction may be missing. |
| Localized.DigitValue | packages/number-format/src/useNumberFormat.ts:151-153 | A locale digit's value is its index in the locale's digits, and that index is below 10. |
| NumberFormat.Tracking | packages/number-format/src/useNumberFormat.ts:106-244 | The callback rejects exactly the inserts with no character left after filtering, and carries no attributes. Otherwise the formatter receives a value of numeric shape, and the caret is the resolved selection for the formatted value. |
| NumberFormat.TrackChange | packages/number-format/src/useNumberFormat.ts:106-244 | The callback's steps after reconciliation compute `Tracking`: filter, normalise, format, then the resolver's scan loop. |
| NumberFormat.NumberFormatCache.constructor | packages/number-format/src/useNumberFormat.ts:65 | The cache starts uninitialised. |
| NumberFormat.NumberFormatCache.Init | packages/number-format/src/useNumberFormat.ts:77-83 | The initial value is cached with the current props, which are also the fallback. |
| NumberFormat.NumberFormatCache.Track | packages/number-format/src/useNumberFormat.ts:91-248 | An uninitialised cache rejects the edit and stays unchanged. Otherwise the props are reconciled, and the result is `Tracking` for those props. The reconciled props become the fallback. A rejection keeps the cached value. An accepted edit caches its value with the current props. |
| NumberFormat.NumberFormatCache.Reconcile | packages/number-format/src/useNumberFormat.ts:99-103 | When the element shows something other than the cached value, the fallback props are taken back; otherwise the props become the fallback. Either way both now hold the reconciled props, and the cached value is kept. |
| NumberFormat.NumberFormatCache.Commit | packages/number-format/src/useNumberFormat.ts:236-237 | An accepted edit caches its value with the current props and leaves the fallback alone. |
| NumberFormat.EditAfterEdit | packages/number-format/src/useNumberFormat.ts:97-104 | After an accepted edit, the next edit of the value it produced is tracked with the current props. If the element shows something else, the props the first edit started from are used. |
| CaretResolver.DecimalCaret | packages/number-format/src/utils/resolveSelection.ts:38-48 | A lone separator typed into a value that has one puts the caret just after the first separator of the next value. This early answer applies exactly when the next value has a separator. |
| CaretResolver.MinusCaret | packages/number-format/src/utils/resolveSelection.ts:50-59 | A lone minus typed into a signed value puts the caret just after the first sign of the next value, or on it for a sign written after the number. This early answer applies exactly when the next value has a sign. |
| CaretResolver.ZeroSelection | packages/number-format/src/utils/resolveSelection.ts:64-95 | A delete inside an all-zero integer part selects every zero of it, from the first to just past the last. This happens exactly when the deleted range ends inside that run and the run is not already selected. |
| CaretResolver.FirstStable | packages/number-format/src/utils/resolveSelection.ts:106-112 | Finds the first position before the edit where the stable-digit pattern can match: a non-zero digit, or a digit after a decimal separator. |
| CaretResolver.StableCountBound | packages/number-format/src/utils/resolveSelection.ts:106-115 | The stable digits are never more than the digits before the edit. |
| CaretResolver.StableCountIgnoresLeadingZeros | packages/number-format/src/utils/resolveSelection.ts:104-115 | Putting zeros in front of the value, and moving the edit along with them, leaves the stable-digit count unchanged. |
| CaretResolver.AbsAddedMeans | packages/number-format/src/utils/resolveSelection.ts:131-142 | The insert loses every sign, and no decimal-like character but `.` remains. All its digits stay, in order. When the edit ends at or before the previous separator nothing else stays. Elsewhere a `.` stands exactly when a separator was typed. |
| CaretResolver.AddedSplit | packages/number-format/src/utils/resolveSelection.ts:144-158 | Added text without a separator is all integer, or all fraction when it lands after the previous separator. |
| CaretResolver.NormalizedAdded | packages/number-format/src/utils/resolveSelection.ts:160-169 | The normalised insert is the first `room` characters of the insert's integer part, followed by its whole fraction. For a negative room, JavaScript's `slice` keeps all but the last `-room` characters. The result is never longer than the insert. |
| CaretResolver.InsertCount | packages/number-format/src/utils/resolveSelection.ts:119-172 | An insert raises the stable count by at most its own length, over the count or over the integer cap it may be reset to (the exact cap is stated by InsertCountDigits and InsertCountCapped). |
| CaretResolver.InsertCountDigits | packages/number-format/src/utils/resolveSelection.ts:119-172 | Typing plain digits after stable text, and not into the previous fraction, adds as many stable digits as were typed, at most the room the integer maximum leaves. When the previous integer already exceeds the maximum by `k`, the last `k` typed digits do not count. |
| CaretResolver.InsertCountCapped | packages/number-format/src/utils/resolveSelection.ts:146-171 | A separator typed into the fraction of a value whose digits before the edit exceed the maximum sets the count to that maximum, plus the digits typed after the separator. |
| CaretResolver.AbsAddedDigits | packages/number-format/src/utils/resolveSelection.ts:134-142 | Plain digits pass the sign removal, the separator rewrite and the digits-only filter before the previous separator unchanged. |
| CaretResolver.FirstScanStart | packages/number-format/src/utils/resolveSelection.ts:180-187 | Finds the first decimal separator or non-zero digit of the next value. |
| CaretResolver.ScanFrom | packages/number-format/src/utils/resolveSelection.ts:180-197 | The scan stops within the next value. |
| CaretResolver.DigitsIn | packages/number-format/src/utils/resolveSelection.ts:114 | The digit count of a string is at most its length. |
| CaretResolver.ScanMeans | packages/number-format/src/utils/resolveSelection.ts:174-197 | The scan returns the first index from the stable start on with at least the target count of digits between that start and it. It returns the length of the value when there is no such index or no stable start. |
| CaretResolver.Scan | packages/number-format/src/utils/resolveSelection.ts:180-197 | The loop with its `start` and `countDigits` flags computes the scan function. |
| CaretResolver.SnapForward | packages/number-format/src/utils/resolveSelection.ts:199-206 | After a forward delete the caret moves to the first digit at or after it. Without one, it moves to the last minus sign after it, or stays. |
| CaretResolver.BackFrom | packages/number-format/src/utils/resolveSelection.ts:209-212 | Finds the leftmost digit (or, after a backward delete, the sign) that has no digit between it and the caret. |
| CaretResolver.SnapBackward | packages/number-format/src/utils/resolveSelection.ts:207-224 | The caret goes just after the leftmost digit (after a backward delete, digit or sign) that has no digit between it and the caret, or stays when there is none. It then moves one further exactly when it lands on the decimal separator and the insert ends in a decimal-like character. |
| CaretResolver.SnapBackwardLastDigit | packages/number-format/src/utils/resolveSelection.ts:209-223 | With a digit before the caret, the caret lands just after the last digit before it, or one further past a typed separator. |
| CaretResolver.ClampStart | packages/number-format/src/utils/resolveSelection.ts:228-236 | Finds the first sign, separator or non-zero digit: the start of the number. |
| CaretResolver.ClampEnd | packages/number-format/src/utils/resolveSelection.ts:231-238 | Finds the leftmost digit or sign with no digit after it: the last digit, or the sign when no digit follows it. It is None exactly when there is none. |
| CaretResolver.Clamp | packages/number-format/src/utils/resolveSelection.ts:226-241 | A caret before the start of the number moves to that start. Otherwise, a caret more than one past the last digit or sign moves to just past it. A caret already in range stays. |
| CaretResolver.MainCaret | packages/number-format/src/utils/resolveSelection.ts:97-241 | The scanned, snapped and clamped caret lies within the next value. |
| CaretResolver.ResolveSelection | packages/number-format/src/utils/resolveSelection.ts:27-244 | The method computes the resolver function: first the early answers, then the count, scan, snap and clamp. |
| CaretResolver.ResolvedCaret | packages/number-format/src/utils/resolveSelection.ts:38-243 | The answer is a range rather than a caret exactly when no early answer applies and the zeros of an all-zero integer are selected; it is then that selection. Otherwise the caret lies within the next value. After the scan, it is never before the start of the number unless it sits just past the number's last digit or sign. It is more than one past that digit or sign only when it is at the start. |

## Left out

- The React lifecycle is not modelled: effects, event listeners, `useCallback` dependencies and re-rendering. Neither are the `validInputElement` guard and the element-not-mounted error.
- Timers (`setTimeout`, `requestAnimationFrame`) are not modelled. The ids they return are parameters of `Focus` and `FocusTick`. A ghost set of issued ids stands for the browser never reusing an id.
- The init effect is not modelled. The core hook initialises from the element's current value, falling back to `initialValue` (`packages/core/src/hooks/useInput.ts:81`). The number-format hook uses `initialValue` alone (`packages/number-format/src/core/hooks/useInput.ts:85`).
- Rethrowing a foreign error is not modelled: every rejection in the model is the hooks' own. The core hook recognises its error by name (`packages/core/src/hooks/useInput.ts:255`). The number-format hook uses `instanceof` and also logs the error outside production (`packages/number-format/src/core/hooks/useInput.ts:228-233`).
- Dispatching the custom input event is not modelled, and neither is the flag it sets. Whether the last event was dispatched is a parameter of `FocusTick`.
- `setInputAttributes` and React's value tracker are not modelled. The element's value and caret are inputs, and the attributes written back are the `Shown` result of `Input`.
- The `Intl`-backed helpers are given functions of an `Env` record: `localizeValues`, the resolved `maximumIntegerDigits`, `resolveMinimumFractionDigits` and the number-format `resolveDetail`. `localizeValues` is assumed to yield well-formed symbols, and its failures are not modelled.
- The number-format `resolveDetail` beyond the formatted value it returns is not part of this model.
- Locale symbols are single characters. Multi-character minus signs or separators, and regular-expression metacharacters in them, are not modelled.
- Regular expressions are modelled as character predicates. This leaves out two things: `.` not matching line terminators, and the difference between UTF-16 code units and code points.
- A mask `replacement` test is modelled as a predicate on one character. The regular-expression source text that `generatePattern` splices into the pattern is not modelled.
- EditClassifier.Classify: requires that the element's caret is not past the end of its value, which browsers guarantee.
- EditSession.InputSession.Input: takes the tracking callback as a function, so it cannot call the number-format cache's `Track` method. The two are linked through `NumberFormat.Tracking`, which `Track` returns.
- NumberFormat.NumberFormatCache.Track: requires the range start to lie within the previous value. The classifier produces such ranges for every admitted delete. An insert with a stale remembered start beyond the value is not modelled.
- CaretResolver.ResolveSelection: requires the same range bound, and well-formed symbols for the previous locale.
- CaretResolver.Clamp: states that the caret ends within the number's bounds except when the code's first test fires ahead of the second. It does not promise "never before the start of the number". When the last digit or sign lies before that start (a value such as `0 .`), a caret after both is moved to just past that digit, which is still before the start.
- The phone-mask values used in the mask tests are not proved case by case. `MaskDetail.MaskedAt` and `MaskDetail.FilledIffValid` cover them in general.
