/**
 * Searching strings for literal markers, the way a JavaScript regular
 * expression without anchors or look-behind finds its leftmost match,
 * and two relations on sequences used by the rest of the model.
 */
module Text {
  /** `pat` occurs in `s` starting at index `i`. */
  predicate OccursAt(s: string, pat: string, i: nat)
  {
    i + |pat| <= |s| && forall m :: 0 <= m < |pat| ==> s[i + m] == pat[m]
  }

  /** `pat` occurs in `s` somewhere. */
  ghost predicate Contains(s: string, pat: string)
  {
    exists i: nat :: OccursAt(s, pat, i)
  }

  /**
   * `s.indexOf(pat, from)`: the first index at or after `from` where `pat`
   * occurs in `s`, or -1 when there is none.
   */
  function IndexOf(s: string, pat: string, from: nat): (r: int)
    ensures r == -1 || (from <= r && OccursAt(s, pat, r))
    ensures r >= 0 ==> forall k: nat :: from <= k < r ==> !OccursAt(s, pat, k)
    ensures r == -1 ==> forall k: nat :: from <= k ==> !OccursAt(s, pat, k)
    decreases |s| - from
  {
    if from + |pat| > |s| then -1
    else if OccursAt(s, pat, from) then from
    else IndexOf(s, pat, from + 1)
  }

  /** Whether `pat` occurs in `s`; agrees with `Contains`. */
  function Includes(s: string, pat: string): (b: bool)
    ensures b <==> Contains(s, pat)
  {
    IndexOf(s, pat, 0) >= 0
  }

  /** The first occurrence is determined by the two facts that define it. */
  lemma IndexOfIsFirst(s: string, pat: string, from: nat, i: nat)
    requires from <= i && OccursAt(s, pat, i)
    requires forall k: nat :: from <= k < i ==> !OccursAt(s, pat, k)
    ensures IndexOf(s, pat, from) == i
  {
  }

  /** Occurrences in `b` are occurrences in `a + b`, shifted by `|a|`. */
  lemma {:induction false} OccursAtShift(a: string, b: string, pat: string, k: nat)
    ensures OccursAt(a + b, pat, |a| + k) <==> OccursAt(b, pat, k)
  {
    if |a| + k + |pat| <= |a + b| {
      assert (a + b)[|a| + k..|a| + k + |pat|] == b[k..k + |pat|];
    }
  }

  /** Searching `a + b` past `a` is searching `b`. */
  lemma {:induction false} IndexOfShift(a: string, b: string, pat: string, from: nat)
    ensures IndexOf(a + b, pat, |a| + from) == if IndexOf(b, pat, from) < 0 then -1 else |a| + IndexOf(b, pat, from)
  {
    var j := IndexOf(b, pat, from);
    if j < 0 {
      var r := IndexOf(a + b, pat, |a| + from);
      if r >= 0 {
        OccursAtShift(a, b, pat, r - |a|);
        assert false;
      }
    } else {
      OccursAtShift(a, b, pat, j);
      forall k: nat | |a| + from <= k < |a| + j
        ensures !OccursAt(a + b, pat, k)
      {
        OccursAtShift(a, b, pat, k - |a|);
      }
      IndexOfIsFirst(a + b, pat, |a| + from, |a| + j);
    }
  }

  /** An occurrence that ends inside a prefix is an occurrence in that prefix. */
  lemma {:induction false} OccursAtPrefix(a: string, b: string, pat: string, k: nat)
    requires k + |pat| <= |a|
    ensures OccursAt(a + b, pat, k) <==> OccursAt(a, pat, k)
  {
    assert (a + b)[k..k + |pat|] == a[k..k + |pat|];
  }

  /** Slicing a concatenation inside its second part. */
  lemma {:induction false} SliceAppend<T>(a: seq<T>, b: seq<T>, i: nat)
    requires i <= |b|
    ensures (a + b)[..|a| + i] == a + b[..i]
    ensures (a + b)[|a| + i..] == b[i..]
  {
  }

  /** Concatenation regrouped. */
  lemma {:induction false} Regroup<T>(x: seq<T>, y: seq<T>, z: seq<T>)
    ensures (x + y) + z == x + (y + z)
  {
  }

  /** The search passes over a stretch without occurrences. */
  lemma {:induction false} IndexOfSkip(s: string, pat: string, from: nat, to: nat)
    requires from <= to
    requires forall k: nat :: from <= k < to ==> !OccursAt(s, pat, k)
    ensures IndexOf(s, pat, from) == IndexOf(s, pat, to)
  {
    var i := IndexOf(s, pat, from);
    if i >= 0 {
      IndexOfIsFirst(s, pat, to, i);
    }
  }

  /** A character that differs from the pattern rules out an occurrence. */
  lemma {:induction false} NotOccursAt(s: string, pat: string, k: nat, m: nat)
    requires m < |pat| && k + m < |s| && s[k + m] != pat[m]
    ensures !OccursAt(s, pat, k)
  {
  }

  /** No element appears twice. */
  ghost predicate Distinct<T>(s: seq<T>)
  {
    forall i, j :: 0 <= i < j < |s| ==> s[i] != s[j]
  }

  /**
   * No element appears twice, stated one element at a time from the back:
   * the form in which a list grown by appending is checked.
   */
  ghost predicate NoRepeats<T>(s: seq<T>)
    decreases |s|
  {
    s != [] ==> s[|s| - 1] !in s[..|s| - 1] && NoRepeats(s[..|s| - 1])
  }

  /** The two formulations of "no element appears twice" agree. */
  lemma {:induction false} NoRepeatsDistinct<T>(s: seq<T>)
    ensures NoRepeats(s) <==> Distinct(s)
    decreases |s|
  {
    if s != [] {
      var front := s[..|s| - 1];
      NoRepeatsDistinct(front);
      assert forall i :: 0 <= i < |front| ==> front[i] == s[i];
      if Distinct(s) {
        assert Distinct(front);
      }
    }
  }

  /** `a` can be obtained from `b` by deleting elements, keeping the order of the rest. */
  ghost predicate IsSubsequence<T>(a: seq<T>, b: seq<T>)
    decreases |b|
  {
    if a == [] then true
    else if b == [] then false
    else (a[0] == b[0] && IsSubsequence(a[1..], b[1..])) || IsSubsequence(a, b[1..])
  }

  lemma {:induction false} SubsequenceRefl<T>(a: seq<T>)
    ensures IsSubsequence(a, a)
    decreases |a|
  {
    if a != [] {
      SubsequenceRefl(a[1..]);
    }
  }

  /** Dropping a prefix of the larger sequence keeps the relation, when the prefix is added back. */
  lemma {:induction false} SubsequenceDropFront<T>(a: seq<T>, p: seq<T>, b: seq<T>)
    requires IsSubsequence(a, b)
    ensures IsSubsequence(a, p + b)
    decreases |p|
  {
    if p != [] && a != [] {
      SubsequenceDropFront(a, p[1..], b);
      assert (p + b)[1..] == p[1..] + b;
      assert p + b != [];
    } else if p == [] {
      assert p + b == b;
    }
  }

  /** A common prefix can be added to both sides. */
  lemma {:induction false} SubsequenceKeepFront<T>(p: seq<T>, a: seq<T>, b: seq<T>)
    requires IsSubsequence(a, b)
    ensures IsSubsequence(p + a, p + b)
    decreases |p|
  {
    if p != [] {
      SubsequenceKeepFront(p[1..], a, b);
      assert (p + a)[1..] == p[1..] + a;
      assert (p + b)[1..] == p[1..] + b;
      assert (p + a)[0] == (p + b)[0];
    } else {
      assert p + a == a && p + b == b;
    }
  }
}
