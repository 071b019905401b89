/** Leftmost-match search, the way Python's `re.search` and the `in`
    operator on strings report the first position where a pattern occurs. */
module Search {
  import opened Wrappers

  /** An ASCII decimal digit. */
  predicate IsDigit(c: char) { '0' <= c <= '9' }

  predicate AllDigits(s: string) { forall i :: 0 <= i < |s| ==> IsDigit(s[i]) }

  /** The least index in `[from, n)` at which `p` holds, if there is one. */
  function Leftmost(p: nat -> bool, from: nat, n: nat): (r: Option<nat>)
    requires from <= n
    ensures r.Some? ==> from <= r.value < n && p(r.value)
    ensures r.Some? ==> forall k :: from <= k < r.value ==> !p(k)
    ensures r.None? <==> forall k :: from <= k < n ==> !p(k)
    decreases n - from
  {
    if from == n then None
    else if p(from) then Some(from)
    else Leftmost(p, from + 1, n)
  }

  /** The first index at or after `from` whose character is one of `cs`,
      or `|s|` if there is none. */
  function FirstIn(s: string, cs: set<char>, from: nat): (r: nat)
    requires from <= |s|
    ensures from <= r <= |s| && (r < |s| ==> s[r] in cs)
    ensures forall k :: from <= k < r ==> s[k] !in cs
    decreases |s| - from
  {
    if from == |s| || s[from] in cs then from else FirstIn(s, cs, from + 1)
  }

  /** `sub` occurs in `s` starting at position `i`. */
  predicate OccursAt(s: string, sub: string, i: nat) {
    i + |sub| <= |s| && s[i..i + |sub|] == sub
  }

  /** Python's `sub in s`. */
  predicate Contains(s: string, sub: string)
    ensures Contains(s, sub) <==> exists i: nat :: OccursAt(s, sub, i)
  {
    var at := (i: nat) => OccursAt(s, sub, i);
    var r := Leftmost(at, 0, |s| + 1);
    assert r.None? ==> forall i: nat :: !OccursAt(s, sub, i) by {
      if r.None? {
        forall i: nat ensures !OccursAt(s, sub, i) {
          if i < |s| + 1 { assert !at(i); }
        }
      }
    }
    r.Some?
  }
}
