/**
 * The two string operations the model catalog uses: Swift's `hasSuffix` and
 * Foundation's `replacingOccurrences(of:with:)` with an empty replacement.
 * Strings are sequences of characters, compared character by character.
 */
module Strings {
  import opened Wrappers

  /** `s` ends with `suffix`. */
  predicate HasSuffix(s: string, suffix: string)
  {
    |suffix| <= |s| && s[|s| - |suffix|..] == suffix
  }

  /** `pat` occurs in `s` starting at index `i`. */
  predicate OccursAt(s: string, pat: string, i: nat)
  {
    i + |pat| <= |s| && s[i..i + |pat|] == pat
  }

  /** `pat` occurs somewhere in `s`. */
  predicate Contains(s: string, pat: string)
  {
    exists i: nat | i <= |s| :: OccursAt(s, pat, i)
  }

  /** No proper, non-empty prefix of `pat` is also a suffix of it, so two
      occurrences of `pat` can never overlap. */
  predicate NoBorder(pat: string)
  {
    forall k :: 0 < k < |pat| ==> pat[..k] != pat[|pat| - k..]
  }

  /**
   * Deletes every occurrence of `pat` from `s`, scanning left to right: a
   * match is removed as a whole and the scan resumes right after it, so
   * occurrences never overlap, and text that a removal brings together is
   * not searched again. An empty `pat` leaves `s` as it is.
   */
  function RemoveAll(s: string, pat: string): (r: string)
    ensures |r| <= |s|
    decreases |s|
  {
    if pat == [] || |s| < |pat| then s
    else if OccursAt(s, pat, 0) then RemoveAll(s[|pat|..], pat)
    else [s[0]] + RemoveAll(s[1..], pat)
  }

  /** The first index at or after `from` where `pat` occurs, if any:
      what Foundation's `range(of:)` finds in the rest of the string. */
  function FirstOccurrence(s: string, pat: string, from: nat): (r: Option<nat>)
    requires pat != []
    ensures r.Some? ==> from <= r.value && OccursAt(s, pat, r.value)
    ensures forall j: nat :: from <= j && (r.None? || j < r.value) ==> !OccursAt(s, pat, j)
    decreases |s| - from
  {
    if |s| < from + |pat| then None
    else if OccursAt(s, pat, from) then Some(from)
    else FirstOccurrence(s, pat, from + 1)
  }

  /**
   * The same deletion written the way Foundation performs a replacement:
   * find the first occurrence, keep the text before it, drop the match and
   * carry on in the text after it. An independent definition of RemoveAll.
   */
  function RemoveAllByFind(s: string, pat: string): (r: string)
    decreases |s|
  {
    if pat == [] then s
    else
      match FirstOccurrence(s, pat, 0)
      case None => s
      case Some(i) => s[..i] + RemoveAllByFind(s[i + |pat|..], pat)
  }

  /** Occurrences in a suffix of `s` are occurrences in `s`, shifted. */
  lemma OccursAtShift(s: string, pat: string, k: nat, j: nat)
    requires k <= |s|
    ensures OccursAt(s[k..], pat, j) <==> OccursAt(s, pat, k + j)
  {
  }

  /** Text before the first occurrence is kept unchanged. */
  lemma {:induction false} RemoveAllSkip(s: string, pat: string, i: nat)
    requires pat != [] && i <= |s|
    requires forall j: nat :: j < i ==> !OccursAt(s, pat, j)
    ensures RemoveAll(s, pat) == s[..i] + RemoveAll(s[i..], pat)
    decreases i
  {
    if i == 0 {
      assert s[..0] == [] && s[0..] == s;
    } else if |s| < |pat| {
      assert s[..i] + s[i..] == s;
    } else {
      assert !OccursAt(s, pat, 0);
      forall j: nat | j < i - 1
        ensures !OccursAt(s[1..], pat, j)
      {
        OccursAtShift(s, pat, 1, j);
      }
      RemoveAllSkip(s[1..], pat, i - 1);
      assert s[1..][..i - 1] == s[1..i];
      assert s[1..][i - 1..] == s[i..];
      assert [s[0]] + s[1..i] == s[..i];
    }
  }

  /** A string with no occurrence is left unchanged. */
  lemma RemoveAllNoOccurrence(s: string, pat: string)
    requires !Contains(s, pat)
    ensures RemoveAll(s, pat) == s
  {
    if pat != [] {
      assert forall j: nat :: j < |s| ==> !OccursAt(s, pat, j);
      RemoveAllSkip(s, pat, |s|);
      assert s[..|s|] == s;
    }
  }

  /** A match at the front is deleted as a whole. */
  lemma RemoveAllDropsMatch(s: string, pat: string, i: nat)
    requires pat != [] && OccursAt(s, pat, i)
    ensures RemoveAll(s[i..], pat) == RemoveAll(s[i + |pat|..], pat)
  {
  }

  /** One step of the find-and-replace definition. */
  lemma RemoveAllByFindStep(s: string, pat: string)
    requires pat != []
    ensures FirstOccurrence(s, pat, 0).None? ==> RemoveAllByFind(s, pat) == s
    ensures FirstOccurrence(s, pat, 0).Some? ==>
              var i := FirstOccurrence(s, pat, 0).value;
              RemoveAllByFind(s, pat) == s[..i] + RemoveAllByFind(s[i + |pat|..], pat)
  {
  }

  /** The scanning definition and the find-and-replace definition agree. */
  lemma {:induction false} RemoveAllIsRemoveAllByFind(s: string, pat: string)
    ensures RemoveAll(s, pat) == RemoveAllByFind(s, pat)
    decreases |s|
  {
    if pat != [] {
      var first := FirstOccurrence(s, pat, 0);
      RemoveAllByFindStep(s, pat);
      if first.None? {
        RemoveAllNoOccurrence(s, pat);
      } else {
        var i := first.value;
        var after := s[i + |pat|..];
        RemoveAllSkip(s, pat, i);
        RemoveAllDropsMatch(s, pat, i);
        RemoveAllIsRemoveAllByFind(after, pat);
      }
    }
  }

  /** A string with an occurrence loses at least one copy of `pat`. */
  lemma RemoveAllShrinks(s: string, pat: string)
    requires pat != [] && Contains(s, pat)
    ensures |RemoveAll(s, pat)| <= |s| - |pat|
  {
    var w: nat :| OccursAt(s, pat, w);
    var i := FirstOccurrence(s, pat, 0).value;
    RemoveAllSkip(s, pat, i);
    RemoveAllDropsMatch(s, pat, i);
  }

  /** Deleting changes a string exactly when the pattern occurs in it. */
  lemma RemoveAllUnchangedIff(s: string, pat: string)
    requires pat != []
    ensures RemoveAll(s, pat) == s <==> !Contains(s, pat)
  {
    if Contains(s, pat) {
      RemoveAllShrinks(s, pat);
    } else {
      RemoveAllNoOccurrence(s, pat);
    }
  }

  /** Appending one copy of a border-free pattern to a string that does not
      contain it, then deleting every occurrence, gives the string back. */
  lemma {:induction false} RemoveAllAppended(n: string, pat: string)
    requires pat != [] && NoBorder(pat) && !Contains(n, pat)
    ensures RemoveAll(n + pat, pat) == n
    decreases |n|
  {
    var t := n + pat;
    if n == [] {
      assert t == pat && OccursAt(t, pat, 0);
      assert t[|pat|..] == [];
    } else {
      if |n| >= |pat| {
        assert t[..|pat|] == n[..|pat|];
        assert !OccursAt(n, pat, 0);
      } else {
        var k := |pat| - |n|;
        assert pat[..k] != pat[|n|..];
        assert t[..|pat|][|n|..] == pat[..k];
      }
      assert !OccursAt(t, pat, 0);
      forall j: nat
        ensures !OccursAt(n[1..], pat, j)
      {
        OccursAtShift(n, pat, 1, j);
      }
      assert t[1..] == n[1..] + pat;
      RemoveAllAppended(n[1..], pat);
      assert [n[0]] + n[1..] == n;
    }
  }
}
