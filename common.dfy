/** Values and sequence searching shared by the cleanup function and the two pages. */
module Common {

  /** JavaScript's `null`/`undefined` versus a present value. */
  datatype Option<T> = None | Some(value: T)

  /** `pat` occurs in `s` starting at index `i`. */
  predicate OccursAt<T(==)>(s: seq<T>, pat: seq<T>, i: nat) {
    i + |pat| <= |s| && s[i..i + |pat|] == pat
  }

  /** JavaScript's `s.includes(pat)`. */
  predicate Contains<T(==)>(s: seq<T>, pat: seq<T>) {
    exists i: nat :: i <= |s| && OccursAt(s, pat, i)
  }

  /** JavaScript's `s.indexOf(pat, from)` for a non-empty `pat`, with `None` standing for -1:
      the first position at or after `from` where `pat` occurs. */
  function IndexFrom<T(==)>(s: seq<T>, pat: seq<T>, from: nat): (r: Option<nat>)
    requires pat != []
    ensures r.Some? ==> from <= r.value && OccursAt(s, pat, r.value)
    ensures forall j: nat :: from <= j && (r.None? || j < r.value) ==> !OccursAt(s, pat, j)
    decreases |s| - from
  {
    if from + |pat| > |s| then None
    else if s[from..from + |pat|] == pat then Some(from)
    else IndexFrom(s, pat, from + 1)
  }

  /** An occurrence inside a slice is an occurrence in the whole sequence, shifted by the
      slice's start. */
  lemma OccursInSlice<T>(s: seq<T>, pat: seq<T>, lo: nat, hi: nat, k: nat)
    requires lo <= hi <= |s|
    requires OccursAt(s[lo..hi], pat, k)
    ensures OccursAt(s, pat, lo + k) && lo + k + |pat| <= hi
  {
    forall t | 0 <= t < |pat|
      ensures s[lo + k..lo + k + |pat|][t] == pat[t]
    {
      assert s[lo..hi][k..k + |pat|][t] == pat[t];
    }
  }

  /** A pattern whose first element appears nowhere in `s` does not occur in `s`. */
  lemma AbsentHead<T>(s: seq<T>, pat: seq<T>)
    requires pat != []
    requires forall i :: 0 <= i < |s| ==> s[i] != pat[0]
    ensures !Contains(s, pat)
  {
    forall i: nat | i <= |s| && OccursAt(s, pat, i)
      ensures false
    {
      OccurrenceStartsWithHead(s, pat, i);
    }
  }

  /** Where `pat` occurs, the sequence holds `pat`'s first element. */
  lemma OccurrenceStartsWithHead<T>(s: seq<T>, pat: seq<T>, i: nat)
    requires pat != [] && OccursAt(s, pat, i)
    ensures i < |s| && s[i] == pat[0]
  {
    assert s[i..i + |pat|][0] == s[i];
  }

  /** An occurrence that ends within the first `n` elements is an occurrence in that prefix. */
  lemma OccursInPrefix<T>(s: seq<T>, n: nat, pat: seq<T>, j: nat)
    requires n <= |s| && OccursAt(s, pat, j) && j + |pat| <= n
    ensures OccursAt(s[..n], pat, j)
  {
    assert s[..n][j..j + |pat|] == s[j..j + |pat|];
  }

  /** An occurrence that starts at or after `n` is an occurrence in the suffix from `n`. */
  lemma OccursInSuffix<T>(s: seq<T>, n: nat, pat: seq<T>, j: nat)
    requires n <= j && OccursAt(s, pat, j)
    ensures OccursAt(s[n..], pat, j - n)
  {
    assert s[n..][j - n..j - n + |pat|] == s[j..j + |pat|];
  }
}
