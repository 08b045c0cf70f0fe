/**
  Go's ordering of strings and the library sort (`sort.Strings`) that the index
  tree relies on. Go compares strings byte by byte in their UTF-8 encoding; UTF-8
  preserves the order of code points, so for keys that are valid UTF-8 comparing
  characters gives the same order. Byte strings that are not valid UTF-8 are not modelled.
 */
module KeyOrder {

  /** Go's `a < b` on strings: lexicographic, a proper prefix is smaller. */
  predicate Less(a: string, b: string)
    decreases |a|
  {
    if |a| == 0 then |b| > 0
    else if |b| == 0 then false
    else if a[0] != b[0] then a[0] < b[0]
    else Less(a[1..], b[1..])
  }

  /** Go's `a <= b` on strings. */
  predicate LessEq(a: string, b: string) {
    a == b || Less(a, b)
  }

  lemma {:induction false} LessIrreflexive(a: string)
    ensures !Less(a, a)
  {
    if |a| > 0 {
      LessIrreflexive(a[1..]);
    }
  }

  lemma {:induction false} LessTransitive(a: string, b: string, c: string)
    requires Less(a, b) && Less(b, c)
    ensures Less(a, c)
    decreases |a|
  {
    if |a| > 0 && a[0] == b[0] && b[0] == c[0] {
      LessTransitive(a[1..], b[1..], c[1..]);
    }
  }

  /** Any two different strings are ordered one way or the other. */
  lemma {:induction false} LessTotal(a: string, b: string)
    requires a != b
    ensures Less(a, b) || Less(b, a)
    decreases |a|
  {
    if |a| > 0 && |b| > 0 && a[0] == b[0] {
      assert a == [a[0]] + a[1..] && b == [b[0]] + b[1..];
      LessTotal(a[1..], b[1..]);
    }
  }

  lemma {:induction false} LessAsymmetric(a: string, b: string)
    requires Less(a, b)
    ensures !Less(b, a)
  {
    if Less(b, a) {
      LessTransitive(a, b, a);
      LessIrreflexive(a);
    }
  }

  lemma LessEqTransitive(a: string, b: string, c: string)
    requires LessEq(a, b) && LessEq(b, c)
    ensures LessEq(a, c)
  {
    if a != b && b != c {
      LessTransitive(a, b, c);
    }
  }

  lemma LessEqAntisymmetric(a: string, b: string)
    requires LessEq(a, b) && LessEq(b, a)
    ensures a == b
  {
    if a != b {
      LessAsymmetric(a, b);
    }
  }

  /** Not less means at least as large. */
  lemma NotLessIsGreaterEq(a: string, b: string)
    requires !Less(a, b)
    ensures LessEq(b, a)
  {
    if a != b {
      LessTotal(a, b);
    }
  }

  /** Ascending order with duplicates allowed, as `sort.Strings` leaves a slice. */
  ghost predicate Sorted(s: seq<string>) {
    forall i, j :: 0 <= i < j < |s| ==> LessEq(s[i], s[j])
  }

  /** Places `x` into the sorted sequence `s` in front of the first element not smaller than it. */
  function InsertSorted(s: seq<string>, x: string): (r: seq<string>)
    requires Sorted(s)
    ensures Sorted(r)
    ensures multiset(r) == multiset(s) + multiset{x}
    ensures |r| == |s| + 1
  {
    if s == [] || LessEq(x, s[0]) then
      SortedInFront(x, s);
      [x] + s
    else
      assert s == [s[0]] + s[1..];
      var t := InsertSorted(s[1..], x);
      NotLessIsGreaterEq(x, s[0]);
      SortedBehindHead(s, x, t);
      [s[0]] + t
  }

  /** A key no larger than the first element of a sorted sequence can go in front of it. */
  lemma SortedInFront(x: string, s: seq<string>)
    requires Sorted(s) && (s == [] || LessEq(x, s[0]))
    ensures Sorted([x] + s)
  {
    forall j | 0 <= j < |s| ensures LessEq(x, s[j]) {
      if j > 0 { LessEqTransitive(x, s[0], s[j]); }
    }
  }

  /** The head of a sorted sequence can go in front of its tail with one key no smaller than it added. */
  lemma SortedBehindHead(s: seq<string>, x: string, t: seq<string>)
    requires Sorted(s) && s != [] && LessEq(s[0], x)
    requires Sorted(t) && multiset(t) == multiset(s[1..]) + multiset{x}
    ensures Sorted([s[0]] + t)
  {
    forall j | 0 <= j < |t| ensures LessEq(s[0], t[j]) {
      assert t[j] in multiset(t);
      if t[j] != x {
        assert t[j] in s[1..];
        var i :| 0 <= i < |s[1..]| && s[1..][i] == t[j];
        assert s[i + 1] == t[j];
      }
    }
  }

  /**
    The model of `sort.Strings`: an insertion sort. Which algorithm the library uses
    does not matter, because a sorted permutation is unique (SortedUnique).
   */
  function Sort(s: seq<string>): (r: seq<string>)
    ensures Sorted(r)
    ensures multiset(r) == multiset(s)
    ensures |r| == |s|
  {
    if s == [] then []
    else
      assert s == [s[0]] + s[1..];
      InsertSorted(Sort(s[1..]), s[0])
  }

  /** The smallest element of a sorted sequence is its first one. */
  lemma SortedHeadIsLeast(s: seq<string>, k: string)
    requires Sorted(s) && k in multiset(s)
    ensures LessEq(s[0], k)
  {
    var j :| 0 <= j < |s| && s[j] == k;
  }

  /** Two non-empty sorted sequences with the same elements start with the same one. */
  lemma SortedSameHead(a: seq<string>, b: seq<string>)
    requires Sorted(a) && Sorted(b) && a != [] && b != []
    requires multiset(a) == multiset(b)
    ensures a[0] == b[0]
  {
    assert a[0] in multiset(b) && b[0] in multiset(a);
    SortedHeadIsLeast(b, a[0]);
    SortedHeadIsLeast(a, b[0]);
    LessEqAntisymmetric(a[0], b[0]);
  }

  /** Two sorted sequences with the same elements are equal. */
  lemma {:induction false} SortedUnique(a: seq<string>, b: seq<string>)
    requires Sorted(a) && Sorted(b)
    requires multiset(a) == multiset(b)
    ensures a == b
    decreases |a|
  {
    assert |a| == |multiset(a)| == |multiset(b)| == |b|;
    if a != [] {
      SortedSameHead(a, b);
      assert a == [a[0]] + a[1..] && b == [b[0]] + b[1..];
      assert multiset(a[1..]) == multiset(b[1..]) by {
        assert multiset(a[1..]) == multiset(a) - multiset{a[0]};
        assert multiset(b[1..]) == multiset(b) - multiset{b[0]};
      }
      SortedUnique(a[1..], b[1..]);
    }
  }

  /** Sorting a sorted sequence with one extra element is inserting that element. */
  lemma SortAppendedIsInsert(s: seq<string>, x: string)
    requires Sorted(s)
    ensures Sort(s + [x]) == InsertSorted(s, x)
  {
    SortedUnique(Sort(s + [x]), InsertSorted(s, x));
  }

  /** Every prefix of a sorted sequence is sorted. */
  lemma SortedPrefix(s: seq<string>, n: nat)
    requires Sorted(s) && n <= |s|
    ensures Sorted(s[..n])
  {
  }
}
