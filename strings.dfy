/** The two Python string builtins the transform relies on: the substring
    test `pat in s` and the first-occurrence replacement `s.replace(pat, rep, 1)`. */
module Strings {

  datatype Option<T> = None | Some(value: T)

  /** `pat` sits in `s` starting at index `i`. */
  ghost predicate OccursAt(s: string, pat: string, i: int)
  {
    0 <= i && i + |pat| <= |s| && s[i..i + |pat|] == pat
  }

  /** `pat` is a substring of `s`. */
  ghost predicate Occurs(s: string, pat: string)
  {
    exists i :: OccursAt(s, pat, i)
  }

  /** The first index at or after `from` where `pat` occurs in `s`, if any. */
  function FindFrom(s: string, pat: string, from: nat): (r: Option<nat>)
    ensures r.Some? ==> from <= r.value && r.value + |pat| <= |s|
    decreases |s| - from
  {
    if from + |pat| > |s| then None
    else if s[from..from + |pat|] == pat then Some(from)
    else FindFrom(s, pat, from + 1)
  }

  /** The search finds the leftmost occurrence at or after `from`, and finds
      nothing only when there is none. */
  lemma {:induction false} FindFromExactly(s: string, pat: string, from: nat)
    ensures FindFrom(s, pat, from).Some? ==>
      from <= FindFrom(s, pat, from).value && OccursAt(s, pat, FindFrom(s, pat, from).value)
    ensures FindFrom(s, pat, from).Some? ==>
      forall j :: from <= j < FindFrom(s, pat, from).value ==> !OccursAt(s, pat, j)
    ensures FindFrom(s, pat, from).None? ==> forall j :: from <= j ==> !OccursAt(s, pat, j)
    decreases |s| - from
  {
    if from + |pat| <= |s| && s[from..from + |pat|] != pat {
      FindFromExactly(s, pat, from + 1);
    }
  }

  /** Python's `pat in s`. */
  function Contains(s: string, pat: string): bool
  {
    FindFrom(s, pat, 0).Some?
  }

  lemma ContainsExactly(s: string, pat: string)
    ensures Contains(s, pat) <==> Occurs(s, pat)
  {
    FindFromExactly(s, pat, 0);
  }

  /** Python's `s.replace(pat, rep, 1)`: only the leftmost occurrence of `pat` is replaced. */
  function ReplaceFirst(s: string, pat: string, rep: string): string
  {
    match FindFrom(s, pat, 0)
    case None => s
    case Some(i) => s[..i] + rep + s[i + |pat|..]
  }

  /** Without an occurrence the text is unchanged; otherwise the leftmost
      occurrence is cut out and `rep` put in its place. */
  lemma ReplaceFirstExactly(s: string, pat: string, rep: string)
    ensures !Occurs(s, pat) ==> ReplaceFirst(s, pat, rep) == s
    ensures Occurs(s, pat) ==>
      |ReplaceFirst(s, pat, rep)| == |s| - |pat| + |rep| && Occurs(ReplaceFirst(s, pat, rep), rep)
    ensures Occurs(s, pat) ==>
      exists i :: OccursAt(s, pat, i) && (forall j :: 0 <= j < i ==> !OccursAt(s, pat, j))
               && ReplaceFirst(s, pat, rep) == s[..i] + rep + s[i + |pat|..]
  {
    FindFromExactly(s, pat, 0);
    if Occurs(s, pat) {
      var i := FindFrom(s, pat, 0).value;
      var r := ReplaceFirst(s, pat, rep);
      assert r[i..i + |rep|] == rep;
      assert OccursAt(r, rep, i);
    }
  }

  /** When `i` is the leftmost occurrence, the search stops there and the
      replacement is spliced in at `i`. */
  lemma ReplaceFirstAt(s: string, pat: string, rep: string, i: nat)
    requires OccursAt(s, pat, i)
    requires forall j :: 0 <= j < i ==> !OccursAt(s, pat, j)
    ensures FindFrom(s, pat, 0) == Some(i)
    ensures ReplaceFirst(s, pat, rep) == s[..i] + rep + s[i + |pat|..]
  {
    FindFromExactly(s, pat, 0);
  }

  /** No index before `i` starts `pat` when none starts its first three characters. */
  lemma NoEarlierOccurrence(s: string, pat: string, i: nat)
    requires |pat| >= 3 && i + |pat| <= |s|
    requires forall j :: 0 <= j < i ==> s[j] != pat[0] || s[j + 1] != pat[1] || s[j + 2] != pat[2]
    ensures forall j :: 0 <= j < i ==> !OccursAt(s, pat, j)
  {
    forall j | 0 <= j < i ensures !OccursAt(s, pat, j) {
      assert s[j..j + |pat|][0] == s[j];
      assert s[j..j + |pat|][1] == s[j + 1];
      assert s[j..j + |pat|][2] == s[j + 2];
    }
  }

  /** A substring of an occurrence is itself an occurrence. */
  lemma OccursWithin(s: string, outer: string, i: int, k: nat, len: nat)
    requires OccursAt(s, outer, i)
    requires k + len <= |outer|
    ensures OccursAt(s, outer[k..k + len], i + k)
  {
    var part, window := s[i + k..i + k + len], s[i..i + |outer|][k..k + len];
    assert forall m :: 0 <= m < len ==> part[m] == window[m];
  }

  /** A string in which the first character of `pat` never appears does not contain `pat`. */
  lemma AbsentInitial(s: string, pat: string)
    requires |pat| > 0
    requires forall k :: 0 <= k < |s| ==> s[k] != pat[0]
    ensures !Occurs(s, pat)
  {
    forall i ensures !OccursAt(s, pat, i) {
      if 0 <= i && i + |pat| <= |s| {
        assert s[i..i + |pat|][0] == s[i];
      }
    }
  }
}
