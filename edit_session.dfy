/** The selection session of the `useInput` hooks: the `selection` record the
    input, focus and blur handlers update in place. The core hook names its
    tokens `timeoutId`, `fallbackTimeoutId` and `cachedTimeoutId` (they come
    from `setTimeout`); the number-format hook names them `requestID`,
    `fallbackRequestID` and `cachedRequestID` (they come from
    `requestAnimationFrame`). Both behave identically and are modelled once, as
    `token`, `fallbackToken` and `cachedToken`. */
module EditSession {
  import opened Wrappers
  import opened EditClassifier

  /** The attributes a `SyntheticChangeError` may carry in its cause: what the
      element should show instead of the rejected edit. */
  datatype Attributes = Attributes(value: Option<string>, selectionStart: Option<nat>, selectionEnd: Option<nat>)

  /** What the `tracking` callback does with a change: it returns the new value
      and caret, or throws a `SyntheticChangeError`, possibly with attributes. */
  datatype Tracked =
    | Tracked(value: string, selectionStart: nat, selectionEnd: nat)
    | Thrown(attributes: Option<Attributes>)

  /** What `setInputAttributes` writes to the element at the end of the handler. */
  datatype Shown = Shown(value: string, selectionStart: nat, selectionEnd: nat)

  /** What an input event is before the tracking callback runs: a rejection
      reason, or the change the classifier found. */
  function Admit(stale: bool, start: nat, end: nat, previousValue: string, value: string,
                 selectionStart: Option<nat>, selectionEnd: Option<nat>): (r: Result<Change, Reason>)
    requires selectionStart.Some? ==> selectionStart.value <= |value|
    ensures stale ==> r == Err(SelectionNotUpdated)
    ensures !stale && (selectionStart.None? || selectionEnd.None?) ==> r == Err(SelectionNotInitialized)
    ensures !stale && selectionStart.Some? && selectionEnd.Some? ==>
      r == Classify(start, end, previousValue, value, selectionStart.value, selectionEnd.value)
  {
    if stale then Err(SelectionNotUpdated)
    else if selectionStart.None? || selectionEnd.None? then Err(SelectionNotInitialized)
    else Classify(start, end, previousValue, value, selectionStart.value, selectionEnd.value)
  }

  class InputSession {
    var token: int
    var fallbackToken: int
    var cachedToken: int
    var start: nat
    var end: nat
    /** Every timer id the browser has handed out to this session; it never repeats one. */
    ghost var issued: set<int>

    ghost predicate Valid()
      reads this
    {
      && -1 !in issued
      && (token == -1 || token in issued)
      && (fallbackToken == -1 || fallbackToken in issued)
      && (cachedToken == -1 || cachedToken in issued)
    }

    /** The initial `selection` record: no token yet, caret at 0. */
    constructor ()
      ensures Valid()
      ensures token == -1 && fallbackToken == -1 && cachedToken == -1
      ensures start == 0 && end == 0 && issued == {}
    {
      token, fallbackToken, cachedToken := -1, -1, -1;
      start, end := 0, 0;
      issued := {};
    }

    /** `handleInput`. The element reports `value` and its caret (`None` for a
        `null` selection); `previousValue` is the value tracker's content. On
        success the tracking result is shown and becomes the remembered
        selection; on rejection the previous value comes back and the
        remembered selection changes only where the error carries attributes. */
    method Input(value: string, selectionStart: Option<nat>, selectionEnd: Option<nat>,
                 previousValue: string, tracking: Change -> Tracked)
      returns (shown: Shown, committed: bool)
      requires Valid()
      requires selectionStart.Some? ==> selectionStart.value <= |value|
      modifies this
      ensures Valid()
      ensures token == old(token) && fallbackToken == old(fallbackToken) && issued == old(issued)
      // the current token is cached whether or not the edit goes through
      ensures cachedToken == old(token)
      ensures
        var admitted := Admit(old(cachedToken) == old(token), old(start), old(end), previousValue,
                              value, selectionStart, selectionEnd);
        && (committed <==> admitted.Ok? && tracking(admitted.value).Tracked?)
        && (committed ==>
              var t := tracking(admitted.value);
              shown == Shown(t.value, t.selectionStart, t.selectionEnd))
        && (!committed ==>
              var attributes := if admitted.Ok? then tracking(admitted.value).attributes else None;
              && shown.value == (if attributes.Some? then attributes.value.value.GetOr(previousValue) else previousValue)
              && (attributes.None? || attributes.value.selectionStart.None? ==> start == old(start))
              && (attributes.None? || attributes.value.selectionEnd.None? ==> end == old(end))
              && (attributes.Some? && attributes.value.selectionStart.Some? ==>
                    start == attributes.value.selectionStart.value)
              && (attributes.Some? && attributes.value.selectionEnd.Some? ==>
                    end == attributes.value.selectionEnd.value))
      // whatever happened, the remembered selection is the one now shown
      ensures shown.selectionStart == start && shown.selectionEnd == end
    {
      var attributes: Option<Attributes> := None;
      var stale := cachedToken == token;
      if !stale {
        cachedToken := token;
      }
      var admitted := Admit(stale, start, end, previousValue, value, selectionStart, selectionEnd);
      if admitted.Ok? {
        var trackingResult := tracking(admitted.value);
        if trackingResult.Tracked? {
          shown := Shown(trackingResult.value, trackingResult.selectionStart, trackingResult.selectionEnd);
          start := trackingResult.selectionStart;
          end := trackingResult.selectionEnd;
          committed := true;
          return;
        }
        attributes := trackingResult.attributes;
      }
      // the rollback path of the `catch` block
      committed := false;
      var rollbackValue := previousValue;
      var rollbackStart := start;
      var rollbackEnd := end;
      if attributes.Some? {
        rollbackValue := attributes.value.value.GetOr(previousValue);
        rollbackStart := attributes.value.selectionStart.GetOr(start);
        rollbackEnd := attributes.value.selectionEnd.GetOr(end);
      }
      shown := Shown(rollbackValue, rollbackStart, rollbackEnd);
      if attributes.Some? && attributes.value.selectionStart.Some? {
        start := attributes.value.selectionStart.value;
      }
      if attributes.Some? && attributes.value.selectionEnd.Some? {
        end := attributes.value.selectionEnd.value;
      }
    }

    /** `handleFocus`: schedules the first caret poll, whose id becomes the token. */
    method Focus(id: int)
      requires Valid() && id != -1 && id !in issued
      modifies this
      ensures Valid()
      ensures token == id && issued == old(issued) + {id}
      ensures token != cachedToken
      ensures fallbackToken == old(fallbackToken) && cachedToken == old(cachedToken)
      ensures start == old(start) && end == old(end)
    {
      issued := issued + {id};
      token := id;
    }

    /** One run of `setSelection`, the caret poll. When the last custom event
        has been dispatched it copies the element's caret (`?? 0`) and schedules
        the next poll under a fresh token; otherwise it only reschedules itself
        under the fallback id, leaving the token as it is. */
    method FocusTick(dispatched: bool, surfaceStart: Option<nat>, surfaceEnd: Option<nat>, id: int)
      requires Valid() && id != -1 && id !in issued
      modifies this
      ensures Valid()
      ensures issued == old(issued) + {id} && cachedToken == old(cachedToken)
      ensures dispatched ==>
        && token == id && token != cachedToken && fallbackToken == old(fallbackToken)
        && start == surfaceStart.GetOr(0) && end == surfaceEnd.GetOr(0)
      ensures !dispatched ==>
        && fallbackToken == id && token == old(token)
        && start == old(start) && end == old(end)
    {
      issued := issued + {id};
      if dispatched {
        start := surfaceStart.GetOr(0);
        end := surfaceEnd.GetOr(0);
        token := id;
      } else {
        fallbackToken := id;
      }
    }

    /** `handleBlur`: cancels the polls and resets all three ids. */
    method Blur()
      requires Valid()
      modifies this
      ensures Valid()
      ensures token == -1 && fallbackToken == -1 && cachedToken == -1
      ensures start == old(start) && end == old(end) && issued == old(issued)
    {
      token, fallbackToken, cachedToken := -1, -1, -1;
    }
  }

  /** Two input events with no caret poll between them: the second is rejected
      as stale and the remembered selection is left as the first one set it. */
  method SecondInputWithoutTick(session: InputSession, tracking: Change -> Tracked,
                                first: string, second: string, caret: nat, previousValue: string)
    returns (committedSecond: bool)
    requires session.Valid() && caret <= |first| && caret <= |second|
    modifies session
    ensures !committedSecond
  {
    var _, _ := session.Input(first, Some(caret), Some(caret), previousValue, tracking);
    var before := session.start;
    var shown;
    shown, committedSecond := session.Input(second, Some(caret), Some(caret), first, tracking);
    assert session.start == before;
  }

  /** After a blur, input is rejected until focus assigns a fresh token; after
      it, the staleness check passes. */
  method BlurThenFocus(session: InputSession, tracking: Change -> Tracked,
                       value: string, caret: nat, previousValue: string, id: int)
    returns (committedBlurred: bool, staleAfterFocus: bool)
    requires session.Valid() && caret <= |value| && id != -1 && id !in session.issued
    modifies session
    ensures !committedBlurred
    ensures !staleAfterFocus
  {
    session.Blur();
    var shown;
    shown, committedBlurred := session.Input(value, Some(caret), Some(caret), previousValue, tracking);
    session.Focus(id);
    staleAfterFocus := session.cachedToken == session.token;
  }
}
