/** The edit classifier shared by the two `useInput` hooks. From the selection
    remembered before the edit (`start`, `end`), the value before the edit
    (`previousValue`, read from React's value tracker) and what the input
    element reports after it (`value`, `selectionStart`, `selectionEnd`), it
    decides the kind of edit and extracts what was added or deleted. */
module EditClassifier {
  import opened Wrappers

  datatype InputType = Initial | Insert | DeleteBackward | DeleteForward

  /** Why an input event is rejected. The first two come from the session
      (stale token, caret not reported); the last two from classification. */
  datatype Reason =
    | SelectionNotUpdated
    | SelectionNotInitialized
    | DetectionError
    | TypeUndefined

  /** The record handed to the `tracking` callback. The core hook calls the
      added and deleted text `addedValue`/`deletedValue` and the range
      `changeStart`/`changeEnd`; the number-format hook calls them
      `added`/`deleted` and `selectionStartRange`/`selectionEndRange`. */
  datatype Change = Change(
    inputType: InputType,
    previousValue: string,
    value: string,
    added: string,
    deleted: string,
    rangeStart: nat,
    rangeEnd: nat,
    selectionStart: nat,
    selectionEnd: nat)

  /** The kind decision alone, in the order the hooks test it. */
  function KindOf(start: nat, end: nat, previousLength: nat, valueLength: nat, selectionStart: nat): (k: InputType)
    ensures k == Insert <==> selectionStart > start
    ensures k == DeleteBackward <==> selectionStart <= start && selectionStart < end
    ensures k == DeleteForward <==>
      !(selectionStart > start) && !(selectionStart <= start && selectionStart < end)
      && selectionStart == end && valueLength < previousLength
  {
    if selectionStart > start then Insert
    else if selectionStart <= start && selectionStart < end then DeleteBackward
    else if selectionStart == end && valueLength < previousLength then DeleteForward
    else Initial
  }

  /** Classification of one input event. The caret the element reports never
      lies past the end of its value. */
  function Classify(start: nat, end: nat, previousValue: string, value: string,
                    selectionStart: nat, selectionEnd: nat): (r: Result<Change, Reason>)
    requires selectionStart <= |value|
    // an insert is a caret that moved right; it keeps the remembered range and deletes nothing
    ensures selectionStart > start ==>
      && r.Ok? && r.value.inputType == Insert
      && r.value.added == value[start..selectionStart]
      && r.value.deleted == []
      && r.value.rangeStart == start && r.value.rangeEnd == end
    // both delete kinds are rejected when the value grew
    ensures r.Ok? && r.value.inputType == DeleteBackward <==>
      !(selectionStart > start) && selectionStart < end && |value| <= |previousValue|
    ensures r.Ok? && r.value.inputType == DeleteForward <==>
      !(selectionStart > start) && !(selectionStart < end)
      && selectionStart == end && |value| < |previousValue|
    // a delete starts at the caret, spans what the value lost and names it
    ensures r.Ok? && r.value.inputType != Insert ==>
      && r.value.rangeStart == selectionStart
      && r.value.rangeEnd - r.value.rangeStart == |previousValue| - |value|
      && r.value.rangeStart <= r.value.rangeEnd <= |previousValue|
      && r.value.deleted == previousValue[r.value.rangeStart..r.value.rangeEnd]
      && r.value.added == []
    ensures r.Ok? ==> r.value.inputType != Initial
    ensures r.Ok? && r.value.inputType == Insert <==> selectionStart > start
    ensures r.Ok? ==>
      && r.value.previousValue == previousValue && r.value.value == value
      && r.value.selectionStart == selectionStart && r.value.selectionEnd == selectionEnd
    // a caret that did not move right, with no delete to explain it, is no edit at all
    ensures r == Err(TypeUndefined) <==>
      !(selectionStart > start) && !(selectionStart < end)
      && !(selectionStart == end && |value| < |previousValue|)
    // a caret that says "delete" while the value grew is a detection error
    ensures r == Err(DetectionError) <==>
      !(selectionStart > start) && selectionStart < end && |value| > |previousValue|
    ensures r.Err? ==> r.error == DetectionError || r.error == TypeUndefined
  {
    var inputType := KindOf(start, end, |previousValue|, |value|, selectionStart);
    if (inputType == DeleteBackward || inputType == DeleteForward) && |value| > |previousValue| then
      Err(DetectionError)
    else
      match inputType
      case Insert =>
        Ok(Change(Insert, previousValue, value, value[start..selectionStart], [],
                  start, end, selectionStart, selectionEnd))
      case DeleteBackward | DeleteForward =>
        var countDeleted := |previousValue| - |value|;
        Ok(Change(inputType, previousValue, value, [],
                  previousValue[selectionStart..selectionStart + countDeleted],
                  selectionStart, selectionStart + countDeleted, selectionStart, selectionEnd))
      case Initial =>
        Err(TypeUndefined)
  }

  /** `previous` with `[from, to)` replaced by `text`: an edit as the user made it. */
  function Splice(previous: string, from: nat, to: nat, text: string): (r: string)
    requires from <= to <= |previous|
    ensures |r| == |previous| - (to - from) + |text|
  {
    previous[..from] + text + previous[to..]
  }

  /** Typing or pasting non-empty text over the remembered selection is
      recognised as an insert of exactly that text. */
  lemma InsertRecognised(previousValue: string, start: nat, end: nat, text: string)
    requires start <= end <= |previousValue| && text != []
    ensures
      var value := Splice(previousValue, start, end, text);
      var caret := start + |text|;
      Classify(start, end, previousValue, value, caret, caret)
        == Ok(Change(Insert, previousValue, value, text, [], start, end, caret, caret))
  {
    var value := Splice(previousValue, start, end, text);
    assert value[start..start + |text|] == text;
  }

  /** Removing `[from, to)` with the caret left at `from`, where `from` lies at
      or before the remembered start and before its end (Backspace, or Delete
      over a selection), is recognised as `deleteBackward` of exactly that text. */
  lemma BackwardDeleteRecognised(previousValue: string, start: nat, end: nat, from: nat, to: nat)
    requires from < to <= |previousValue| && from <= start && from < end
    ensures
      var value := Splice(previousValue, from, to, []);
      Classify(start, end, previousValue, value, from, from)
        == Ok(Change(DeleteBackward, previousValue, value, [], previousValue[from..to], from, to, from, from))
  {
  }

  /** Delete pressed with a collapsed caret at `at` removing `[at, to)` is
      recognised as `deleteForward` of exactly that text. */
  lemma ForwardDeleteRecognised(previousValue: string, at: nat, to: nat)
    requires at < to <= |previousValue|
    ensures
      var value := Splice(previousValue, at, to, []);
      Classify(at, at, previousValue, value, at, at)
        == Ok(Change(DeleteForward, previousValue, value, [], previousValue[at..to], at, to, at, at))
  {
  }

  /** A recognised delete loses exactly the deleted text: the value before the
      edit is the value after it with `deleted` put back at the caret, whenever
      the text around the range is untouched. */
  lemma DeleteRestores(start: nat, end: nat, previousValue: string, value: string, selectionStart: nat, selectionEnd: nat)
    requires selectionStart <= |value|
    requires Classify(start, end, previousValue, value, selectionStart, selectionEnd).Ok?
    requires Classify(start, end, previousValue, value, selectionStart, selectionEnd).value.inputType != Insert
    requires value == previousValue[..selectionStart] + previousValue[selectionStart + |previousValue| - |value|..]
    ensures
      var c := Classify(start, end, previousValue, value, selectionStart, selectionEnd).value;
      Splice(value, c.rangeStart, c.rangeStart, c.deleted) == previousValue
  {
    var c := Classify(start, end, previousValue, value, selectionStart, selectionEnd).value;
    assert value[..c.rangeStart] == previousValue[..c.rangeStart];
    assert value[c.rangeStart..] == previousValue[c.rangeEnd..];
    assert previousValue == previousValue[..c.rangeStart] + previousValue[c.rangeStart..c.rangeEnd] + previousValue[c.rangeEnd..];
  }
}
