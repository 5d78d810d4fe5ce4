/**
 * Orderings and the sorts the code relies on: Python's `sorted` of distinct
 * keys (a strict total order) and Kotlin's stable `sortedBy`/`sortedWith`
 * (a total preorder), with the facts that make their results canonical.
 */
module Order {
  import opened Wrappers

  ghost predicate StrictTotal<T(!new)>(lt: (T, T) -> bool) {
    (forall a :: !lt(a, a))
    && (forall a, b, c :: lt(a, b) && lt(b, c) ==> lt(a, c))
    && (forall a, b :: a != b ==> lt(a, b) || lt(b, a))
  }

  ghost predicate TotalPreorder<T(!new)>(le: (T, T) -> bool) {
    (forall a, b, c :: le(a, b) && le(b, c) ==> le(a, c))
    && (forall a, b :: le(a, b) || le(b, a))
  }

  /** Strictly increasing: sorted without duplicates. */
  predicate Increasing<T>(s: seq<T>, lt: (T, T) -> bool) {
    forall i, j :: 0 <= i < j < |s| ==> lt(s[i], s[j])
  }

  /** Non-decreasing under a preorder. */
  predicate Sorted<T>(s: seq<T>, le: (T, T) -> bool) {
    forall i, j :: 0 <= i < j < |s| ==> le(s[i], s[j])
  }

  ghost function Elems<T>(s: seq<T>): set<T> {
    set x | x in s
  }

  /** Lexicographic order on strings by code point, as Python compares `str`. */
  predicate StrLt(a: string, b: string)
    decreases |a|
  {
    |b| > 0 && (|a| == 0 || a[0] < b[0] || (a[0] == b[0] && StrLt(a[1..], b[1..])))
  }

  lemma {:induction false} StrLtIrreflexive(a: string)
    ensures !StrLt(a, a)
    decreases |a|
  {
    if |a| > 0 { StrLtIrreflexive(a[1..]); }
  }

  lemma {:induction false} StrLtTransitive(a: string, b: string, c: string)
    requires StrLt(a, b) && StrLt(b, c)
    ensures StrLt(a, c)
    decreases |a|
  {
    if |a| > 0 && a[0] == b[0] && b[0] == c[0] {
      StrLtTransitive(a[1..], b[1..], c[1..]);
    }
  }

  lemma {:induction false} StrLtTotal(a: string, b: string)
    requires a != b
    ensures StrLt(a, b) || StrLt(b, a)
    decreases |a|
  {
    if |a| > 0 && |b| > 0 && a[0] == b[0] {
      assert a == [a[0]] + a[1..] && b == [b[0]] + b[1..];
      StrLtTotal(a[1..], b[1..]);
    }
  }

  lemma StrLtStrictTotal()
    ensures StrictTotal(StrLt)
  {
    forall a ensures !StrLt(a, a) { StrLtIrreflexive(a); }
    forall a, b, c | StrLt(a, b) && StrLt(b, c) ensures StrLt(a, c) { StrLtTransitive(a, b, c); }
    forall a, b | a != b ensures StrLt(a, b) || StrLt(b, a) { StrLtTotal(a, b); }
  }

  // ----- Sorting distinct values under a strict total order -----

  /** Inserts `x` at its place in a strictly increasing sequence, unless it is already there. */
  function InsertSorted<T(!new, ==)>(s: seq<T>, x: T, lt: (T, T) -> bool): (r: seq<T>)
    requires StrictTotal(lt) && Increasing(s, lt)
    ensures Increasing(r, lt) && Elems(r) == Elems(s) + {x}
    decreases |s|
  {
    if |s| == 0 then [x]
    else if x == s[0] then
      assert x in Elems(s);
      s
    else if lt(x, s[0]) then
      InsertFrontIncreasing(s, x, lt);
      [x] + s
    else
      var t := InsertSorted(s[1..], x, lt);
      InsertBehindIncreasing(s, x, t, lt);
      [s[0]] + t
  }

  lemma InsertFrontIncreasing<T(!new)>(s: seq<T>, x: T, lt: (T, T) -> bool)
    requires StrictTotal(lt) && Increasing(s, lt) && |s| > 0 && lt(x, s[0])
    ensures Increasing([x] + s, lt) && Elems([x] + s) == Elems(s) + {x}
  {
    var r := [x] + s;
    forall i, j | 0 <= i < j < |r| ensures lt(r[i], r[j]) {
      assert r[j] == s[j - 1];
      if i > 0 { assert r[i] == s[i - 1]; } else { assert j == 1 || lt(s[0], s[j - 1]); }
    }
    forall y ensures y in Elems(r) <==> y in Elems(s) + {x} {
      if y in Elems(r) && y != x {
        var k :| 0 <= k < |r| && r[k] == y;
        assert s[k - 1] == y;
      }
      if y in Elems(s) {
        var k :| 0 <= k < |s| && s[k] == y;
        assert r[k + 1] == y;
      }
      if y == x { assert r[0] == x; }
    }
  }

  lemma InsertBehindIncreasing<T(!new)>(s: seq<T>, x: T, t: seq<T>, lt: (T, T) -> bool)
    requires StrictTotal(lt) && Increasing(s, lt) && |s| > 0 && x != s[0] && !lt(x, s[0])
    requires Increasing(t, lt) && Elems(t) == Elems(s[1..]) + {x}
    ensures Increasing([s[0]] + t, lt) && Elems([s[0]] + t) == Elems(s) + {x}
  {
    assert Elems(s) == {s[0]} + Elems(s[1..]) by { assert s == [s[0]] + s[1..]; }
    assert lt(s[0], x);
    forall y | y in t ensures lt(s[0], y) {
      assert y in Elems(t);
      if y != x {
        assert y in Elems(s[1..]);
        var k :| 0 <= k < |s[1..]| && s[1..][k] == y;
        assert s[k + 1] == y;
      }
    }
    var r := [s[0]] + t;
    forall i, j | 0 <= i < j < |r| ensures lt(r[i], r[j]) {
      assert r[j] == t[j - 1] && r[j] in t;
      if i > 0 { assert r[i] == t[i - 1]; }
    }
    assert Elems(r) == {s[0]} + Elems(t);
  }

  lemma ElemsEmpty<T>(s: seq<T>)
    ensures Elems(s) == {} <==> |s| == 0
  {
    if |s| > 0 { assert s[0] in Elems(s); }
  }

  /** Two strictly increasing sequences with the same elements are the same sequence. */
  lemma {:induction false} IncreasingUnique<T(!new)>(a: seq<T>, b: seq<T>, lt: (T, T) -> bool)
    requires StrictTotal(lt) && Increasing(a, lt) && Increasing(b, lt) && Elems(a) == Elems(b)
    ensures a == b
    decreases |a|
  {
    ElemsEmpty(a);
    ElemsEmpty(b);
    if |a| > 0 {
      assert a[0] in Elems(b);
      assert b[0] in Elems(a);
      var i :| 0 <= i < |a| && a[i] == b[0];
      var j :| 0 <= j < |b| && b[j] == a[0];
      assert a[0] == b[0];
      assert Elems(a[1..]) == Elems(b[1..]) by {
        forall y ensures y in Elems(a[1..]) <==> y in Elems(b[1..]) {
          if y in Elems(a[1..]) {
            var i :| 0 <= i < |a[1..]| && a[1..][i] == y;
            assert lt(a[0], y);
            assert y in Elems(b) && y != b[0];
            var j :| 0 <= j < |b| && b[j] == y;
            assert b[1..][j - 1] == y;
          }
          if y in Elems(b[1..]) {
            var j :| 0 <= j < |b[1..]| && b[1..][j] == y;
            assert lt(b[0], y);
            assert y in Elems(a) && y != a[0];
            var i :| 0 <= i < |a| && a[i] == y;
            assert a[1..][i - 1] == y;
          }
        }
      }
      IncreasingUnique(a[1..], b[1..], lt);
      assert a == [a[0]] + a[1..] && b == [b[0]] + b[1..];
    }
  }

  /** The strictly increasing listing of a finite set; unique by `IncreasingUnique`. */
  ghost function SortedOf<T(!new)>(s: set<T>, lt: (T, T) -> bool): (r: seq<T>)
    requires StrictTotal(lt)
    ensures Increasing(r, lt) && Elems(r) == s
    decreases s
  {
    if s == {} then []
    else
      var x :| x in s;
      InsertSorted(SortedOf(s - {x}, lt), x, lt)
  }

  /** Python's `sorted(s)` of a set: the strictly increasing listing of its elements. */
  method SortSet<T(!new, ==)>(s: set<T>, lt: (T, T) -> bool) returns (r: seq<T>)
    requires StrictTotal(lt)
    ensures Increasing(r, lt) && Elems(r) == s
    ensures r == SortedOf(s, lt)
  {
    r := [];
    var rest := s;
    while rest != {}
      invariant rest <= s
      invariant Increasing(r, lt) && Elems(r) + rest == s
      decreases rest
    {
      var x :| x in rest;
      r := InsertSorted(r, x, lt);
      rest := rest - {x};
    }
    IncreasingUnique(r, SortedOf(s, lt), lt);
  }

  // ----- Stable sorting under a total preorder -----

  /** Inserts `x` after every element not greater than it: the step of a stable insertion sort. */
  function InsertStable<T(!new)>(s: seq<T>, x: T, le: (T, T) -> bool): (r: seq<T>)
    requires TotalPreorder(le) && Sorted(s, le)
    ensures Sorted(r, le) && multiset(r) == multiset(s) + multiset{x}
    decreases |s|
  {
    if |s| == 0 || !le(s[0], x) then
      InsertFrontSorted(s, x, le);
      [x] + s
    else
      SortedTail(s, le);
      var t := InsertStable(s[1..], x, le);
      InsertBehindSorted(s, x, t, le);
      [s[0]] + t
  }

  lemma InsertFrontSorted<T(!new)>(s: seq<T>, x: T, le: (T, T) -> bool)
    requires TotalPreorder(le) && Sorted(s, le) && (|s| == 0 || !le(s[0], x))
    ensures Sorted([x] + s, le)
  {
    forall k | 0 <= k < |s| ensures le(x, s[k]) {
      assert le(s[0], s[k]) || k == 0;
    }
    forall i, j | 0 <= i < j < |s| + 1 ensures le(([x] + s)[i], ([x] + s)[j]) {
      if i > 0 { assert ([x] + s)[i] == s[i - 1]; }
      assert ([x] + s)[j] == s[j - 1];
    }
  }

  lemma InsertBehindSorted<T(!new)>(s: seq<T>, x: T, t: seq<T>, le: (T, T) -> bool)
    requires TotalPreorder(le) && Sorted(s, le) && |s| > 0 && le(s[0], x)
    requires Sorted(t, le) && multiset(t) == multiset(s[1..]) + multiset{x}
    ensures Sorted([s[0]] + t, le) && multiset([s[0]] + t) == multiset(s) + multiset{x}
  {
    assert s == [s[0]] + s[1..];
    forall k | 0 <= k < |t| ensures le(s[0], t[k]) {
      assert t[k] in multiset(t);
      if t[k] != x {
        assert t[k] in multiset(s[1..]);
        var i :| 0 <= i < |s[1..]| && s[1..][i] == t[k];
        assert s[i + 1] == t[k];
      }
    }
    var r := [s[0]] + t;
    forall i, j | 0 <= i < j < |r| ensures le(r[i], r[j]) {
      assert r[j] == t[j - 1];
      if i > 0 { assert r[i] == t[i - 1]; }
    }
  }

  /** Kotlin's stable `sortedWith`: the elements in non-decreasing order. */
  function SortStable<T(!new)>(s: seq<T>, le: (T, T) -> bool): (r: seq<T>)
    requires TotalPreorder(le)
    ensures Sorted(r, le) && multiset(r) == multiset(s)
    decreases |s|
  {
    if |s| == 0 then []
    else
      assert s == s[..|s| - 1] + [s[|s| - 1]];
      InsertStable(SortStable(s[..|s| - 1], le), s[|s| - 1], le)
  }

  /** No two distinct elements of `s` are equivalent under `le`. */
  ghost predicate Separated<T(!new)>(s: multiset<T>, le: (T, T) -> bool) {
    forall x, y | x in s && y in s && le(x, y) && le(y, x) :: x == y
  }

  lemma SeparatedSub<T(!new)>(m: multiset<T>, n: multiset<T>, le: (T, T) -> bool)
    requires m <= n && Separated(n, le)
    ensures Separated(m, le)
  {
  }

  /** Two sorted arrangements of a separated collection start with the same element. */
  lemma SortedHeads<T(!new)>(a: seq<T>, b: seq<T>, le: (T, T) -> bool)
    requires TotalPreorder(le) && Sorted(a, le) && Sorted(b, le)
    requires multiset(a) == multiset(b) && Separated(multiset(a), le) && |a| > 0 && |b| > 0
    ensures a[0] == b[0]
  {
    var x, y := a[0], b[0];
    assert y in multiset(a);
    var i :| 0 <= i < |a| && a[i] == y;
    assert x in multiset(b);
    var j :| 0 <= j < |b| && b[j] == x;
    assert le(x, y) by { if i > 0 { assert le(a[0], a[i]); } else { assert le(x, x) || le(x, x); } }
    assert le(y, x) by { if j > 0 { assert le(b[0], b[j]); } else { assert le(y, y) || le(y, y); } }
  }

  lemma TailsPermutation<T>(a: seq<T>, b: seq<T>)
    requires |a| > 0 && |b| > 0 && a[0] == b[0] && multiset(a) == multiset(b)
    ensures multiset(a[1..]) == multiset(b[1..]) && multiset(a[1..]) <= multiset(a)
  {
    assert a == [a[0]] + a[1..];
    assert b == [b[0]] + b[1..];
    var ma, mb := multiset(a[1..]), multiset(b[1..]);
    assert multiset(a) == multiset{a[0]} + ma;
    assert multiset(b) == multiset{a[0]} + mb;
    forall x ensures ma[x] == mb[x] {
      assert multiset(a)[x] == multiset{a[0]}[x] + ma[x];
      assert multiset(b)[x] == multiset{a[0]}[x] + mb[x];
    }
    assert ma == mb;
  }

  lemma SortedTail<T>(a: seq<T>, le: (T, T) -> bool)
    requires Sorted(a, le) && |a| > 0
    ensures Sorted(a[1..], le)
  {
    forall i, j | 0 <= i < j < |a| - 1 ensures le(a[1..][i], a[1..][j]) {
      assert a[1..][i] == a[i + 1] && a[1..][j] == a[j + 1];
    }
  }

  /** Sorting is canonical when no two distinct elements tie. */
  lemma {:induction false} SortedUnique<T(!new)>(a: seq<T>, b: seq<T>, le: (T, T) -> bool)
    requires TotalPreorder(le) && Sorted(a, le) && Sorted(b, le)
    requires multiset(a) == multiset(b) && Separated(multiset(a), le)
    ensures a == b
    decreases |a|
  {
    assert |a| == |multiset(a)| == |multiset(b)| == |b|;
    if |a| > 0 {
      SortedHeads(a, b, le);
      TailsPermutation(a, b);
      SeparatedSub(multiset(a[1..]), multiset(a), le);
      SortedTail(a, le);
      SortedTail(b, le);
      SortedUnique(a[1..], b[1..], le);
      assert a == [a[0]] + a[1..] && b == [b[0]] + b[1..];
    }
  }

  /** Sorting two permutations of a separated collection gives the same sequence. */
  lemma SortStablePermutation<T(!new)>(x: seq<T>, y: seq<T>, le: (T, T) -> bool)
    requires TotalPreorder(le) && multiset(x) == multiset(y) && Separated(multiset(x), le)
    ensures SortStable(x, le) == SortStable(y, le)
  {
    SortedUnique(SortStable(x, le), SortStable(y, le), le);
  }
}
