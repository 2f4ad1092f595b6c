/**
  The order in which `list.sort()` puts file paths: Python compares `str`
  values code point by code point, and a proper prefix comes first. The sorted
  list is the one ascending permutation of the input, so it does not depend on
  the order in which the paths were listed.
 */
module PathOrder {

  /** Python's `a <= b` on `str`. */
  predicate LexLe(a: string, b: string)
    ensures |a| <= |b| && a == b[..|a|] ==> LexLe(a, b)
    decreases |a|
  {
    a == [] || (b != [] && (a[0] < b[0] || (a[0] == b[0] && LexLe(a[1..], b[1..]))))
  }

  lemma {:induction false} LexLeReflexive(a: string)
    ensures LexLe(a, a)
    decreases |a|
  {
    if a != [] {
      LexLeReflexive(a[1..]);
    }
  }

  lemma {:induction false} LexLeTotal(a: string, b: string)
    ensures LexLe(a, b) || LexLe(b, a)
    decreases |a|
  {
    if a != [] && b != [] && a[0] == b[0] {
      LexLeTotal(a[1..], b[1..]);
    }
  }

  lemma {:induction false} LexLeAntisymmetric(a: string, b: string)
    requires LexLe(a, b) && LexLe(b, a)
    ensures a == b
    decreases |a|
  {
    if a != [] {
      LexLeAntisymmetric(a[1..], b[1..]);
      assert a == [a[0]] + a[1..];
      assert b == [b[0]] + b[1..];
    }
  }

  lemma {:induction false} LexLeTransitive(a: string, b: string, c: string)
    requires LexLe(a, b) && LexLe(b, c)
    ensures LexLe(a, c)
    decreases |a|
  {
    if a != [] && a[0] == b[0] && b[0] == c[0] {
      LexLeTransitive(a[1..], b[1..], c[1..]);
    }
  }

  /** `le` is a total order on strings: the facts sorting relies on. */
  ghost predicate TotalOrder(le: (string, string) -> bool)
  {
    && (forall a :: le(a, a))
    && (forall a, b :: le(a, b) || le(b, a))
    && (forall a, b :: le(a, b) && le(b, a) ==> a == b)
    && (forall a, b, c :: le(a, b) && le(b, c) ==> le(a, c))
  }

  lemma LexLeIsTotalOrder()
    ensures TotalOrder(LexLe)
  {
    forall a ensures LexLe(a, a) { LexLeReflexive(a); }
    forall a, b ensures LexLe(a, b) || LexLe(b, a) { LexLeTotal(a, b); }
    forall a, b | LexLe(a, b) && LexLe(b, a) ensures a == b { LexLeAntisymmetric(a, b); }
    forall a, b, c | LexLe(a, b) && LexLe(b, c) ensures LexLe(a, c) { LexLeTransitive(a, b, c); }
  }

  /** Ascending with respect to `le`. */
  predicate SortedBy(s: seq<string>, le: (string, string) -> bool)
  {
    forall i, j | 0 <= i < j < |s| :: le(s[i], s[j])
  }

  /** `x` put into its place in the ascending `s`. */
  function InsertBy(x: string, s: seq<string>, le: (string, string) -> bool): (r: seq<string>)
    requires TotalOrder(le) && SortedBy(s, le)
    ensures SortedBy(r, le)
    ensures multiset(r) == multiset(s) + multiset{x}
  {
    if s == [] then [x]
    else if le(x, s[0]) then [x] + s
    else
      var tail := InsertBy(x, s[1..], le);
      assert s == [s[0]] + s[1..];
      InsertKeepsLowerBound(x, s, tail, le);
      [s[0]] + tail
  }

  /** The first element of `s` stays below everything inserted after it. */
  lemma InsertKeepsLowerBound(x: string, s: seq<string>, tail: seq<string>, le: (string, string) -> bool)
    requires TotalOrder(le) && SortedBy(s, le) && s != [] && !le(x, s[0])
    requires SortedBy(tail, le) && multiset(tail) == multiset(s[1..]) + multiset{x}
    ensures SortedBy([s[0]] + tail, le)
  {
    forall k | 0 <= k < |tail| ensures le(s[0], tail[k]) {
      assert tail[k] in multiset(tail);
      if tail[k] != x {
        assert tail[k] in multiset(s[1..]);
        var m :| 0 <= m < |s[1..]| && s[1..][m] == tail[k];
        assert s[m + 1] == tail[k];
      }
    }
  }

  /** Insertion sort with respect to `le`. */
  function SortBy(s: seq<string>, le: (string, string) -> bool): (r: seq<string>)
    requires TotalOrder(le)
    ensures SortedBy(r, le)
    ensures multiset(r) == multiset(s)
  {
    if s == [] then []
    else
      assert s == [s[0]] + s[1..];
      InsertBy(s[0], SortBy(s[1..], le), le)
  }

  /** Two lists ascending by the same total order, with the same elements, are equal. */
  lemma {:induction false} SortedUnique(a: seq<string>, b: seq<string>, le: (string, string) -> bool)
    requires TotalOrder(le) && SortedBy(a, le) && SortedBy(b, le)
    requires multiset(a) == multiset(b)
    ensures a == b
    decreases |a|
  {
    assert |b| == |multiset(b)| == |multiset(a)| == |a|;
    if a != [] {
      SameFirst(a, b, le);
      SameRest(a, b);
      SortedUnique(a[1..], b[1..], le);
      assert a == [a[0]] + a[1..];
      assert b == [b[0]] + b[1..];
    }
  }

  /** Both lists start with their common least element. */
  lemma SameFirst(a: seq<string>, b: seq<string>, le: (string, string) -> bool)
    requires TotalOrder(le) && SortedBy(a, le) && SortedBy(b, le)
    requires multiset(a) == multiset(b) && a != [] && b != []
    ensures a[0] == b[0]
  {
    assert a[0] in multiset(b);
    var j :| 0 <= j < |b| && b[j] == a[0];
    assert b[0] in multiset(a);
    var k :| 0 <= k < |a| && a[k] == b[0];
    assert le(a[0], a[k]) && le(b[0], b[j]);
  }

  lemma SameRest(a: seq<string>, b: seq<string>)
    requires multiset(a) == multiset(b) && a != [] && b != [] && a[0] == b[0]
    ensures multiset(a[1..]) == multiset(b[1..])
  {
    assert a == [a[0]] + a[1..];
    assert b == [b[0]] + b[1..];
    calc {
      multiset(a[1..]);
      multiset(a) - multiset{a[0]};
      multiset(b) - multiset{b[0]};
      multiset(b[1..]);
    }
  }

  /** Ascending in Python's order. */
  predicate Sorted(s: seq<string>)
  {
    SortedBy(s, LexLe)
  }

  /** Python's `list.sort()` on a list of `str`: the ascending permutation. */
  function Sort(s: seq<string>): (r: seq<string>)
    ensures Sorted(r)
    ensures multiset(r) == multiset(s)
  {
    LexLeIsTotalOrder();
    SortBy(s, LexLe)
  }

  /** The sorted list depends on the elements only, not on the order they came in. */
  lemma SortIgnoresOrder(a: seq<string>, b: seq<string>)
    requires multiset(a) == multiset(b)
    ensures Sort(a) == Sort(b)
  {
    LexLeIsTotalOrder();
    SortedUnique(Sort(a), Sort(b), LexLe);
  }

  /** Any ascending permutation of `s` is `Sort(s)`. */
  lemma SortIsTheSortedPermutation(s: seq<string>, p: seq<string>)
    requires Sorted(p) && multiset(p) == multiset(s)
    ensures Sort(s) == p
  {
    LexLeIsTotalOrder();
    SortedUnique(Sort(s), p, LexLe);
  }
}
