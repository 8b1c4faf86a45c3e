/**
 * Substring search on strings: the `startsWith`, `endsWith`, `includes` and
 * `indexOf` of JavaScript strings, over sequences of characters.
 */
module Text {
  import opened Wrappers

  /** `pat` occurs in `s` starting at index `k`. */
  predicate StartsAt(s: string, k: int, pat: string) {
    0 <= k && k + |pat| <= |s| && s[k..k + |pat|] == pat
  }

  predicate EndsWith(s: string, suffix: string) {
    |suffix| <= |s| && s[|s| - |suffix|..] == suffix
  }

  /** The first index at or after `from` where `pat` occurs (`s.indexOf(pat, from)`). */
  function Find(s: string, pat: string, from: nat): (r: Option<nat>)
    ensures r.Some? ==> from <= r.value && r.value + |pat| <= |s|
    decreases |s| - from
  {
    if from + |pat| > |s| then None
    else if s[from..from + |pat|] == pat then Some(from)
    else Find(s, pat, from + 1)
  }

  /** `Find` returns the first occurrence at or after `from`, and `None` only when there is none. */
  lemma {:induction false} FindSpec(s: string, pat: string, from: nat)
    ensures Find(s, pat, from).Some? ==> StartsAt(s, Find(s, pat, from).value, pat)
    ensures Find(s, pat, from).Some? ==> forall k :: from <= k < Find(s, pat, from).value ==> !StartsAt(s, k, pat)
    ensures Find(s, pat, from).None? ==> forall k :: from <= k ==> !StartsAt(s, k, pat)
    decreases |s| - from
  {
    if from + |pat| <= |s| && s[from..from + |pat|] != pat {
      FindSpec(s, pat, from + 1);
    }
  }

  /** Conversely, an occurrence with none before it, from `from` on, is what `Find` returns. */
  lemma {:induction false} FindIs(s: string, pat: string, from: nat, c: nat)
    requires from <= c && StartsAt(s, c, pat)
    requires forall k :: from <= k < c ==> !StartsAt(s, k, pat)
    ensures Find(s, pat, from) == Some(c)
    decreases c - from
  {
    if from < c {
      assert !StartsAt(s, from, pat);
      FindIs(s, pat, from + 1, c);
    }
  }

  /** `s.includes(sub)`. */
  predicate Contains(s: string, sub: string) {
    Find(s, sub, 0).Some?
  }

  /** `Contains` holds exactly when some occurrence exists. */
  lemma ContainsIff(s: string, sub: string)
    ensures Contains(s, sub) <==> exists k :: StartsAt(s, k, sub)
  {
    FindSpec(s, sub, 0);
    if k :| StartsAt(s, k, sub) {
      assert 0 <= k;
    }
  }

  /** A string containing `big` contains every substring of `big`. */
  lemma {:induction false} ContainsTransitive(s: string, big: string, small: string, i: nat)
    requires Contains(s, big) && StartsAt(big, i, small)
    ensures Contains(s, small)
  {
    FindSpec(s, big, 0);
    var k := Find(s, big, 0).value;
    assert s[k + i..k + i + |small|] == big[i..i + |small|];
    ContainsIff(s, small);
    assert StartsAt(s, k + i, small);
  }
}
