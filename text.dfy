/** String helpers that stand for the JavaScript string methods the engine
    calls (`indexOf`, `lastIndexOf`, `slice`, `split`, `includes`) and for the
    global single-character regular-expression replacements it performs. */
module Text {
  import opened Wrappers

  /** `s.indexOf(c)`: the first position of `c`, or `None` for `-1`. */
  function IndexOf(s: string, c: char): (r: Option<nat>)
    ensures r.None? <==> c !in s
    ensures r.Some? ==> r.value < |s| && s[r.value] == c && c !in s[..r.value]
  {
    if s == [] then None
    else if s[0] == c then Some(0)
    else match IndexOf(s[1..], c)
      case None => None
      case Some(k) => assert s[..k + 1] == [s[0]] + s[1..][..k]; Some(k + 1)
  }

  /** `s.lastIndexOf(c)`: the last position of `c`, or `None` for `-1`. */
  function LastIndexOf(s: string, c: char): (r: Option<nat>)
    ensures r.None? <==> c !in s
    ensures r.Some? ==> r.value < |s| && s[r.value] == c && c !in s[r.value + 1..]
  {
    if s == [] then None
    else if s[|s| - 1] == c then Some(|s| - 1)
    else
      var init := s[..|s| - 1];
      assert s == init + [s[|s| - 1]];
      match LastIndexOf(init, c)
      case None => None
      case Some(k) => assert s[k + 1..] == init[k + 1..] + [s[|s| - 1]]; Some(k)
  }

  /** `s.slice(0, n)` for a non-negative `n`: JavaScript clamps `n` to the length. */
  function Prefix(s: string, n: nat): (r: string)
    ensures |r| == if n <= |s| then n else |s|
    ensures r <= s
  {
    if n <= |s| then s[..n] else s
  }

  /** `s.slice(n)` for a non-negative `n`: empty once `n` passes the end. */
  function Suffix(s: string, n: nat): (r: string)
    ensures n <= |s| ==> s == s[..n] + r
    ensures n > |s| ==> r == []
  {
    if n <= |s| then s[n..] else []
  }

  /** `s.slice(0, k)` for any integer `k`: a negative `k` counts from the end. */
  function SliceTo(s: string, k: int): (r: string)
    ensures r <= s
    ensures 0 <= k ==> |r| == if k <= |s| then k else |s|
    ensures k < 0 ==> |r| == if |s| + k >= 0 then |s| + k else 0
  {
    if k >= 0 then Prefix(s, k)
    else if |s| + k >= 0 then s[..|s| + k]
    else []
  }

  /** `s.split(c)[0]`: the text before the first `c` (all of `s` if there is none). */
  function Before(s: string, c: char): (r: string)
    ensures r <= s && c !in r
    ensures c in s ==> |r| < |s| && s[|r|] == c
  {
    match IndexOf(s, c)
    case None => s
    case Some(k) => s[..k]
  }

  /** `s.split(c)[1] ?? ''`: the text between the first and the second `c`. */
  function Second(s: string, c: char): (r: string)
    ensures c !in r
    ensures c !in s ==> r == []
    ensures c in s ==> r == Before(s[|Before(s, c)| + 1..], c)
  {
    match IndexOf(s, c)
    case None => []
    case Some(k) => Before(s[k + 1..], c)
  }

  /** `s.replace(/[…]/g, '')` for a single-character class: keep the characters
      that do not satisfy `drop`, in order. */
  function Remove(s: string, drop: char -> bool): (r: string)
    ensures |r| <= |s|
    ensures forall c :: c in r ==> c in s && !drop(c)
    ensures forall c :: c in s && !drop(c) ==> c in r
  {
    if s == [] then []
    else (if drop(s[0]) then [] else [s[0]]) + Remove(s[1..], drop)
  }

  /** `s.replace(/^[…]+/, '')`: drop the leading run of characters satisfying `lead`. */
  function DropLeading(s: string, lead: char -> bool): (r: string)
    ensures |r| <= |s| && s == s[..|s| - |r|] + r
    ensures forall i :: 0 <= i < |s| - |r| ==> lead(s[i])
    ensures r != [] ==> !lead(r[0])
  {
    if s != [] && lead(s[0]) then DropLeading(s[1..], lead) else s
  }

  /** `s.replace(/…+$/, '')`: drop the trailing run of characters equal to `c`. */
  function DropTrailing(s: string, c: char): (r: string)
    ensures r <= s
    ensures forall i :: |r| <= i < |s| ==> s[i] == c
    ensures r != [] ==> r[|r| - 1] != c
  {
    if s != [] && s[|s| - 1] == c then DropTrailing(s[..|s| - 1], c) else s
  }

  /** The first index at or after `from` holding one of `chars`. */
  function FirstIn(s: string, chars: string, from: nat): (r: Option<nat>)
    requires from <= |s|
    ensures r.None? <==> forall p :: from <= p < |s| ==> s[p] !in chars
    ensures r.Some? ==>
      && from <= r.value < |s| && s[r.value] in chars
      && forall p :: from <= p < r.value ==> s[p] !in chars
    decreases |s| - from
  {
    if from == |s| then None
    else if s[from] in chars then Some(from)
    else FirstIn(s, chars, from + 1)
  }

  /** The longest prefix of `s` made of characters of `chars` (`[…]+`). */
  function RunIn(s: string, chars: string): (r: string)
    ensures r <= s
    ensures forall c :: c in r ==> c in chars
    ensures |r| < |s| ==> s[|r|] !in chars
  {
    if s != [] && s[0] in chars then [s[0]] + RunIn(s[1..], chars) else []
  }

  /** `s` holds no character of `chars` in `[from, to)`. */
  predicate NoneIn(s: string, chars: string, from: nat, to: nat)
    requires from <= to <= |s|
  {
    forall q :: from <= q < to ==> s[q] !in chars
  }

  /** `s.replace(/[…]/g, f)` for a single-character class: rewrite every
      character in place. */
  function MapChars(s: string, f: char -> char): (r: string)
    ensures |r| == |s|
    ensures forall i :: 0 <= i < |s| ==> r[i] == f(s[i])
  {
    seq(|s|, i requires 0 <= i < |s| => f(s[i]))
  }

  /** The number of characters of `s` satisfying `p`. */
  function CountWhere(s: string, p: char -> bool): (n: nat)
    ensures n <= |s|
    ensures n == 0 <==> forall c :: c in s ==> !p(c)
  {
    if s == [] then 0 else (if p(s[0]) then 1 else 0) + CountWhere(s[1..], p)
  }

  /** `a` can be obtained from `b` by deleting characters. */
  predicate IsSubsequence(a: string, b: string)
    decreases |b|
  {
    || a == []
    || (b != [] && ((a[0] == b[0] && IsSubsequence(a[1..], b[1..])) || IsSubsequence(a, b[1..])))
  }

  /** What a global single-class replacement with `''` leaves: the input with
      exactly its dropped characters deleted, the rest kept in order and with
      their counts. */
  lemma RemoveMeans(s: string, drop: char -> bool)
    ensures IsSubsequence(Remove(s, drop), s)
    ensures forall c :: multiset(Remove(s, drop))[c] == if drop(c) then 0 else multiset(s)[c]
  {
    RemoveKeepsOrder(s, drop);
    RemoveCounts(s, drop);
  }

  lemma {:induction false} RemoveKeepsOrder(s: string, drop: char -> bool)
    ensures IsSubsequence(Remove(s, drop), s)
  {
    if s != [] {
      RemoveKeepsOrder(s[1..], drop);
      var rest := Remove(s[1..], drop);
      if drop(s[0]) {
        assert Remove(s, drop) == rest;
      } else {
        var r := Remove(s, drop);
        assert r == [s[0]] + rest;
        assert r[0] == s[0] && r[1..] == rest;
      }
    }
  }

  lemma {:induction false} RemoveCounts(s: string, drop: char -> bool)
    ensures forall c :: multiset(Remove(s, drop))[c] == if drop(c) then 0 else multiset(s)[c]
  {
    if s != [] {
      RemoveCounts(s[1..], drop);
      var head := if drop(s[0]) then [] else [s[0]];
      assert s == [s[0]] + s[1..];
      assert multiset(s) == multiset([s[0]]) + multiset(s[1..]);
      assert multiset(Remove(s, drop)) == multiset(head) + multiset(Remove(s[1..], drop));
    }
  }

  /** The replacement works character by character, so it distributes over
      concatenation. */
  lemma {:induction false} RemoveAppend(a: string, b: string, drop: char -> bool)
    ensures Remove(a + b, drop) == Remove(a, drop) + Remove(b, drop)
  {
    if a == [] {
      assert a + b == b;
    } else {
      assert (a + b)[0] == a[0] && (a + b)[1..] == a[1..] + b;
      RemoveAppend(a[1..], b, drop);
    }
  }

  lemma {:induction false} RemoveNothing(s: string, drop: char -> bool)
    requires forall c :: c in s ==> !drop(c)
    ensures Remove(s, drop) == s
  {
    if s != [] {
      RemoveNothing(s[1..], drop);
      assert s == [s[0]] + s[1..];
    }
  }

  lemma {:induction false} CountAll(s: string, p: char -> bool)
    requires forall c :: c in s ==> p(c)
    ensures CountWhere(s, p) == |s|
  {
    if s != [] {
      CountAll(s[1..], p);
    }
  }

  /** Rewriting characters in a way the filter cannot tell apart, and leaving
      the characters it keeps alone, does not change what the filter keeps. */
  lemma {:induction false} RemoveMapped(s: string, f: char -> char, drop: char -> bool)
    requires forall c :: c in s ==> drop(f(c)) == drop(c) && (!drop(c) ==> f(c) == c)
    ensures Remove(MapChars(s, f), drop) == Remove(s, drop)
    decreases |s|
  {
    if s != [] {
      var m := MapChars(s, f);
      assert m[1..] == MapChars(s[1..], f);
      assert s[0] in s && m[0] == f(s[0]);
      assert forall c :: c in s[1..] ==> c in s;
      RemoveMapped(s[1..], f, drop);
    }
  }

  /** Removing beforehand what the filter drops anyway does not change what
      it keeps. */
  lemma {:induction false} RemoveTwice(s: string, first: char -> bool, drop: char -> bool)
    requires forall c :: c in s && first(c) ==> drop(c)
    ensures Remove(Remove(s, first), drop) == Remove(s, drop)
    decreases |s|
  {
    if s != [] {
      assert s[0] in s;
      assert forall c :: c in s[1..] ==> c in s;
      RemoveTwice(s[1..], first, drop);
      var head := if first(s[0]) then [] else [s[0]];
      RemoveAppend(head, Remove(s[1..], first), drop);
      assert Remove(head, drop) == if drop(s[0]) then [] else [s[0]];
    }
  }
}
