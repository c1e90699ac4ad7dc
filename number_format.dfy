/** The `tracking` callback of the number-format hook and the cache it keeps
    between edits: the value it last produced and the `locales`/`options` it
    produced it with. */
module NumberFormat {
  import opened Wrappers
  import opened Text
  import opened Localized
  import opened EditClassifier
  import opened EditSession
  import opened NumberNormalize
  import opened CaretResolver

  /** The hook's `locales` and `options`, as their JSON text. */
  datatype Props = Props(locales: string, options: string)

  /** The `Intl`-backed helpers the callback calls. `localizeValues`,
      `resolveOptions(...).resolved.maximumIntegerDigits`,
      `resolveMinimumFractionDigits` and the number-format `resolveDetail`
      (here `format`, of which only the formatted value is used) are taken as
      given functions. */
  datatype Env = Env(
    localize: string -> LocalizedValues,
    maximumIntegerDigits: Props -> nat,
    minimumFractionDigits: (string, string, Props) -> nat,
    format: (string, InputType, Props) -> string)

  /** Every locale yields well-formed symbols. */
  ghost predicate EnvValid(env: Env) {
    forall locales :: WellFormed(env.localize(locales))
  }

  /** `resolveMinimumFractionDigits` with the props the previous value was
      formatted with. */
  function MinimumFraction(env: Env, used: Props): (string, string) -> nat {
    (i, f) => env.minimumFractionDigits(i, f, used)
  }

  /** The cache reconciliation: the props the previous value was formatted
      with. When the element no longer shows the cached value (a controlled
      value that was not updated after the last edit) the props of the edit
      before are taken back; otherwise they become the new fallback. */
  function Reconciled(cachedValue: string, props: Props, fallbackProps: Props, previousValue: string): Props
  {
    if cachedValue != previousValue then fallbackProps else props
  }

  /** What the callback makes of a change once the props of the previous value
      are known: a rejection when an insert has nothing left after filtering,
      else the formatted value and the resolved caret. */
  function Tracking(env: Env, used: Props, current: Props, change: Change): (r: Tracked)
    requires EnvValid(env) && change.rangeStart <= |change.previousValue|
    // the only rejection: an insert with no character the number accepts
    ensures r == Thrown(None) <==>
      change.inputType == Insert && Strip(env.localize(current.locales), change.added) == []
    ensures r.Thrown? ==> r == Thrown(None)
    // the formatter receives a plain number: ASCII digits, one point, one sign
    ensures r.Tracked? ==>
      var normalized := NormalizedValue(env.localize(current.locales), env.localize(used.locales),
                                        Strip(env.localize(current.locales), change.added),
                                        change.previousValue, change.rangeStart, change.rangeEnd,
                                        MinimumFraction(env, used));
      && NumericShape(env.localize(current.locales).signBackwards, normalized)
      && r.value == env.format(normalized, change.inputType, current)
      && Selection(r.selectionStart, r.selectionEnd)
         == Resolve(env.localize(used.locales), env.localize(current.locales),
                    env.maximumIntegerDigits(current), change.inputType,
                    Strip(env.localize(current.locales), change.added),
                    change.previousValue, r.value, change.rangeStart, change.rangeEnd)
  {
    var previous := env.localize(used.locales);
    var l := env.localize(current.locales);
    var added := Strip(l, change.added);
    if change.inputType == Insert && added == [] then Thrown(None)
    else
      var normalized := NormalizedValue(l, previous, added, change.previousValue, change.rangeStart,
                                        change.rangeEnd, MinimumFraction(env, used));
      var next := env.format(normalized, change.inputType, current);
      var selection := Resolve(previous, l, env.maximumIntegerDigits(current), change.inputType, added,
                               change.previousValue, next, change.rangeStart, change.rangeEnd);
      Tracked(next, selection.start, selection.end)
  }

  /** The callback after reconciliation: filter the insert, normalise the
      value around it, format it and resolve the caret with the scan loop. */
  method TrackChange(env: Env, used: Props, current: Props, change: Change) returns (r: Tracked)
    requires EnvValid(env) && change.rangeStart <= |change.previousValue|
    ensures r == Tracking(env, used, current, change)
  {
    var previous := env.localize(used.locales);
    var l := env.localize(current.locales);
    var added := Strip(l, change.added);
    if change.inputType == Insert && added == [] {
      return Thrown(None);
    }
    var normalized := NormalizedValue(l, previous, added, change.previousValue, change.rangeStart,
                                      change.rangeEnd, MinimumFraction(env, used));
    var next := env.format(normalized, change.inputType, current);
    var selection := ResolveSelection(previous, l, env.maximumIntegerDigits(current), change.inputType,
                                      added, change.previousValue, next, change.rangeStart, change.rangeEnd);
    r := Tracked(next, selection.start, selection.end);
  }

  /** `cache.current`: `null` until `init` runs. */
  class NumberFormatCache {
    var initialized: bool
    var value: string
    var props: Props
    var fallbackProps: Props

    /** `useRef<Cache | null>(null)`. */
    constructor()
      ensures !initialized
    {
      initialized := false;
      value := [];
      props := Props([], []);
      fallbackProps := Props([], []);
    }

    /** `init`: the initial value is cached with the current props, which are
        also the fallback. */
    method Init(initialValue: string, current: Props) returns (shown: string)
      modifies this
      ensures initialized && value == initialValue && props == current && fallbackProps == current
      ensures shown == initialValue
    {
      initialized := true;
      value := initialValue;
      props := current;
      fallbackProps := current;
      shown := initialValue;
    }

    /** `tracking`: reconcile the cache with the previous value, then filter,
        normalise, format and resolve the caret; a successful edit caches the
        new value with the current props. */
    method Track(env: Env, current: Props, change: Change) returns (r: Tracked)
      requires EnvValid(env) && change.rangeStart <= |change.previousValue|
      modifies this
      // an uninitialised cache rejects the edit and stays as it was
      ensures !old(initialized) ==> r == Thrown(None) && unchanged(this)
      ensures old(initialized) ==>
        var used := Reconciled(old(value), old(props), old(fallbackProps), change.previousValue);
        && initialized
        && r == Tracking(env, used, current, change)
        // the reconciled props are the fallback from now on
        && fallbackProps == used
        // a rejected edit leaves the cached value and the reconciled props
        && (r.Thrown? ==> value == old(value) && props == used)
        // an accepted one caches what it returns, with the props it used
        && (r.Tracked? ==> value == r.value && props == current)
    {
      if !initialized {
        return Thrown(None);
      }
      var used := Reconcile(change.previousValue);
      r := TrackChange(env, used, current, change);
      if r.Tracked? {
        Commit(r.value, current);
      }
    }

    /** The reconciliation step of `tracking`: the props of the previous value
        become both the props and the fallback. */
    method Reconcile(previousValue: string) returns (used: Props)
      modifies this
      ensures used == Reconciled(old(value), old(props), old(fallbackProps), previousValue)
      ensures initialized == old(initialized) && value == old(value)
      ensures props == used && fallbackProps == used
    {
      used := Reconciled(value, props, fallbackProps, previousValue);
      if value != previousValue {
        props := fallbackProps;
      } else {
        fallbackProps := props;
      }
    }

    /** An accepted edit caches the value it produced with the current props. */
    method Commit(next: string, current: Props)
      modifies this
      ensures initialized == old(initialized) && fallbackProps == old(fallbackProps)
      ensures value == next && props == current
    {
      value := next;
      props := current;
    }
  }

  /** After an accepted edit, the next edit of the value it produced uses the
      current props; if the element still shows something else, the props the
      accepted edit started from are used instead. */
  method EditAfterEdit(cache: NumberFormatCache, env: Env, current: Props, first: Change, second: Change)
    returns (r1: Tracked, r2: Tracked)
    requires EnvValid(env) && cache.initialized
    requires first.rangeStart <= |first.previousValue| && second.rangeStart <= |second.previousValue|
    modifies cache
    ensures
      var used := Reconciled(old(cache.value), old(cache.props), old(cache.fallbackProps), first.previousValue);
      r1 == Tracking(env, used, current, first)
      && (r1.Tracked? && second.previousValue == r1.value ==> r2 == Tracking(env, current, current, second))
      && (r1.Tracked? && second.previousValue != r1.value ==> r2 == Tracking(env, used, current, second))
  {
    r1 := cache.Track(env, current, first);
    r2 := cache.Track(env, current, second);
  }
}
