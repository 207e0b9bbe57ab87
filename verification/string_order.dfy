/**
 * The order used by JavaScript's `Array.prototype.sort()` without a
 * comparator on strings: lexicographic by character code, a proper
 * prefix first. The sort itself is a library routine, modelled here
 * as an insertion sort whose result is pinned down by its properties.
 */
module StringOrder {
  import opened Text

  /** `a` sorts strictly before `b`. */
  predicate Below(a: string, b: string)
    decreases |a|
  {
    if a == [] then b != []
    else if b == [] then false
    else if a[0] == b[0] then Below(a[1..], b[1..])
    else a[0] < b[0]
  }

  predicate AtMost(a: string, b: string)
  {
    a == b || Below(a, b)
  }

  lemma {:induction false} BelowIrreflexive(a: string)
    ensures !Below(a, a)
    decreases |a|
  {
    if a != [] {
      BelowIrreflexive(a[1..]);
    }
  }

  lemma {:induction false} BelowTransitive(a: string, b: string, c: string)
    requires Below(a, b) && Below(b, c)
    ensures Below(a, c)
    decreases |a|
  {
    if a != [] && a[0] == b[0] && b[0] == c[0] {
      BelowTransitive(a[1..], b[1..], c[1..]);
    }
  }

  /** Any two different strings are ordered one way or the other. */
  lemma {:induction false} BelowTotal(a: string, b: string)
    requires a != b
    ensures Below(a, b) || Below(b, a)
    decreases |a|
  {
    if a != [] && b != [] && a[0] == b[0] {
      assert a == [a[0]] + a[1..] && b == [b[0]] + b[1..];
      BelowTotal(a[1..], b[1..]);
    }
  }

  lemma BelowAsymmetric(a: string, b: string)
    requires Below(a, b)
    ensures !Below(b, a)
  {
    if Below(b, a) {
      BelowTransitive(a, b, a);
      BelowIrreflexive(a);
    }
  }

  ghost predicate Sorted(s: seq<string>)
  {
    forall i, j :: 0 <= i < j < |s| ==> AtMost(s[i], s[j])
  }

  /** Every key sorts strictly before every later key. */
  ghost predicate StrictlyIncreasing(s: seq<string>)
  {
    forall i, j :: 0 <= i < j < |s| ==> Below(s[i], s[j])
  }

  /** Puts `x` in front of the first element it sorts at most. */
  function Insert(x: string, s: seq<string>): (r: seq<string>)
    requires Sorted(s)
    ensures Sorted(r)
    ensures multiset(r) == multiset(s) + multiset{x}
    decreases |s|
  {
    if s == [] then [x]
    else if AtMost(x, s[0]) then
      assert forall j :: 0 < j < |s| ==> AtMost(s[0], s[j]);
      forall j | 0 < j < |s| ensures AtMost(x, s[j]) {
        if x != s[0] && s[0] != s[j] { BelowTransitive(x, s[0], s[j]); }
      }
      [x] + s
    else
      var rest := Insert(x, s[1..]);
      assert s == [s[0]] + s[1..];
      BelowTotal(x, s[0]);
      forall j | 0 <= j < |rest| ensures AtMost(s[0], rest[j]) {
        assert rest[j] in multiset(rest);
        if rest[j] != x {
          assert rest[j] in multiset(s[1..]);
          var k :| 0 <= k < |s[1..]| && s[1..][k] == rest[j];
          assert AtMost(s[0], s[k + 1]);
        }
      }
      [s[0]] + rest
  }

  /** The keys in ascending order. */
  function SortStrings(s: seq<string>): (r: seq<string>)
    ensures Sorted(r)
    ensures multiset(r) == multiset(s)
    decreases |s|
  {
    if s == [] then []
    else
      assert s == [s[0]] + s[1..];
      Insert(s[0], SortStrings(s[1..]))
  }

  lemma {:induction false} InsertDistinct(x: string, s: seq<string>)
    requires Sorted(s) && Distinct(s) && x !in s
    ensures Distinct(Insert(x, s))
    decreases |s|
  {
    if s != [] && !AtMost(x, s[0]) {
      InsertDistinct(x, s[1..]);
      var rest := Insert(x, s[1..]);
      assert s[0] !in s[1..];
      assert s[0] !in multiset(rest);
    }
  }

  /** Sorting keeps the members. */
  lemma SortMembers(s: seq<string>)
    ensures forall x :: x in SortStrings(s) <==> x in s
  {
    var r := SortStrings(s);
    assert forall x :: x in r <==> x in multiset(r);
    assert forall x :: x in s <==> x in multiset(s);
  }

  /** The tail of a list without repeats has none, and does not hold the head. */
  lemma DistinctTail(s: seq<string>)
    requires s != [] && Distinct(s)
    ensures Distinct(s[1..]) && s[0] !in s[1..]
  {
    var t := s[1..];
    forall i, j | 0 <= i < j < |t| ensures t[i] != t[j] {
      assert t[i] == s[i + 1] && t[j] == s[j + 1];
    }
    forall i | 0 <= i < |t| ensures t[i] != s[0] {
      assert t[i] == s[i + 1];
    }
  }

  /** A sorted list without repeats is strictly increasing. */
  lemma SortedDistinctIncreasing(r: seq<string>)
    requires Sorted(r) && Distinct(r)
    ensures StrictlyIncreasing(r)
  {
    forall i, j | 0 <= i < j < |r| ensures Below(r[i], r[j]) {
      assert AtMost(r[i], r[j]) && r[i] != r[j];
    }
  }

  /** Sorting a list of distinct keys yields a strictly increasing list of the same keys. */
  lemma {:induction false} SortDistinct(s: seq<string>)
    requires Distinct(s)
    ensures StrictlyIncreasing(SortStrings(s))
    ensures Distinct(SortStrings(s))
    ensures forall x :: x in SortStrings(s) <==> x in s
    decreases |s|
  {
    if s != [] {
      var tail := SortStrings(s[1..]);
      DistinctTail(s);
      SortDistinct(s[1..]);
      assert s[0] !in tail;
      InsertDistinct(s[0], tail);
      assert SortStrings(s) == Insert(s[0], tail);
    }
    SortMembers(s);
    SortedDistinctIncreasing(SortStrings(s));
  }

  lemma HeadIsMember(s: seq<string>)
    requires s != []
    ensures s[0] in s
  {
  }

  /** A strictly increasing list is determined by its elements. */
  lemma {:induction false} StrictlyIncreasingUnique(a: seq<string>, b: seq<string>)
    requires StrictlyIncreasing(a) && StrictlyIncreasing(b)
    requires forall x :: x in a <==> x in b
    ensures a == b
    decreases |a|
  {
    if a != [] && b != [] {
      assert a[0] in a && b[0] in b;
      if a[0] != b[0] {
        var k :| 0 <= k < |b| && b[k] == a[0];
        var m :| 0 <= m < |a| && a[m] == b[0];
        BelowAsymmetric(a[0], a[m]);
        assert false;
      }
      forall x ensures x in a[1..] <==> x in b[1..] {
        BelowIrreflexive(x);
        if x in a[1..] {
          var k :| 1 <= k < |a| && a[k] == x;
          assert Below(a[0], x);
          assert x in b;
          var m :| 0 <= m < |b| && b[m] == x;
          assert m != 0;
        }
        if x in b[1..] {
          var k :| 1 <= k < |b| && b[k] == x;
          assert Below(b[0], x);
          assert x in a;
          var m :| 0 <= m < |a| && a[m] == x;
          assert m != 0;
        }
      }
      StrictlyIncreasingUnique(a[1..], b[1..]);
      assert a == [a[0]] + a[1..] && b == [b[0]] + b[1..];
    } else if a != [] {
      HeadIsMember(a);
      assert false;
    } else if b != [] {
      HeadIsMember(b);
      assert false;
    }
  }
}
