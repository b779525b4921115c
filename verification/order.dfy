/**
 * Orderings used by the listing endpoints: PHP's `sort()` on plain strings
 * (byte-wise, i.e. lexicographic on characters), the sorted duplicate-free
 * lists produced by `array_unique` + `sort`, and a stable insertion sort by an
 * arbitrary total preorder, which stands for SQL `ORDER BY`.
 */
module Order {

  /** Strict lexicographic order on strings. */
  predicate Below(a: string, b: string)
    decreases |a|
  {
    if a == [] then b != []
    else if b == [] then false
    else if a[0] == b[0] then Below(a[1..], b[1..])
    else a[0] < b[0]
  }

  lemma {:induction false} BelowIrreflexive(a: string)
    ensures !Below(a, a)
    decreases |a|
  {
    if a != [] {
      BelowIrreflexive(a[1..]);
    }
  }

  lemma {:induction false} BelowTransitive(a: string, b: string, c: string)
    requires Below(a, b) && Below(b, c)
    ensures Below(a, c)
    decreases |a|
  {
    if a != [] && b != [] && c != [] && a[0] == b[0] && b[0] == c[0] {
      BelowTransitive(a[1..], b[1..], c[1..]);
    }
  }

  lemma {:induction false} BelowTotal(a: string, b: string)
    requires a != b
    ensures Below(a, b) || Below(b, a)
    decreases |a|
  {
    if a != [] && b != [] && a[0] == b[0] {
      assert a == [a[0]] + a[1..] && b == [b[0]] + b[1..];
      BelowTotal(a[1..], b[1..]);
    }
  }

  lemma BelowAsymmetric(a: string, b: string)
    requires Below(a, b)
    ensures !Below(b, a)
  {
    if Below(b, a) {
      BelowTransitive(a, b, a);
      BelowIrreflexive(a);
    }
  }

  // ---------------------------------------------------------------------
  // Sorted, duplicate-free lists of strings

  /** The elements of a list, as a set. */
  function Elems(s: seq<string>): set<string> {
    set x | x in s
  }

  lemma ElemsEmpty(s: seq<string>)
    ensures Elems(s) == {} <==> s == []
  {
    if s != [] {
      assert s[0] in Elems(s);
    }
  }

  /** Ascending with no repeats. */
  predicate StrictlySorted(s: seq<string>) {
    forall i, j :: 0 <= i < j < |s| ==> Below(s[i], s[j])
  }

  /** Adds `x` to a strictly sorted list, keeping it strictly sorted. */
  function InsertSorted(s: seq<string>, x: string): (r: seq<string>)
    requires StrictlySorted(s)
    ensures StrictlySorted(r)
    ensures Elems(r) == Elems(s) + {x}
    decreases |s|
  {
    if s == [] then [x]
    else if x == s[0] then s
    else if Below(x, s[0]) then
      var r := [x] + s;
      assert StrictlySorted(r) by {
        forall j | 0 < j < |r| ensures Below(r[0], r[j]) {
          if j > 1 { BelowTransitive(x, s[0], s[j - 1]); }
        }
      }
      r
    else
      var tail := InsertSorted(s[1..], x);
      var r := [s[0]] + tail;
      BelowTotal(x, s[0]);
      assert StrictlySorted(r) by {
        forall j | 0 < j < |r| ensures Below(r[0], r[j]) {
          assert r[j] in Elems(tail);
          if r[j] != x {
            assert r[j] in Elems(s[1..]);
            var k :| 0 <= k < |s[1..]| && s[1..][k] == r[j];
            assert s[k + 1] == r[j];
          }
        }
      }
      assert s == [s[0]] + s[1..];
      assert Elems(r) == {s[0]} + Elems(tail);
      assert Elems(s) == {s[0]} + Elems(s[1..]);
      r
  }

  /** The distinct elements of `s` in ascending order (`array_unique` then `sort`). */
  function SortedSet(s: seq<string>): (r: seq<string>)
    ensures StrictlySorted(r)
    ensures Elems(r) == Elems(s)
  {
    if s == [] then []
    else
      assert s == s[..|s| - 1] + [s[|s| - 1]];
      InsertSorted(SortedSet(s[..|s| - 1]), s[|s| - 1])
  }

  /** A strictly sorted list is determined by its set of elements. */
  lemma {:induction false} StrictlySortedUnique(a: seq<string>, b: seq<string>)
    requires StrictlySorted(a) && StrictlySorted(b)
    requires Elems(a) == Elems(b)
    ensures a == b
    decreases |a|
  {
    ElemsEmpty(a);
    ElemsEmpty(b);
    if a != [] {
      assert a[0] in Elems(a) && b[0] in Elems(b);
      if a[0] != b[0] {
        var i :| 0 <= i < |b| && b[i] == a[0];
        var j :| 0 <= j < |a| && a[j] == b[0];
        assert Below(b[0], a[0]) by { assert i > 0; }
        assert Below(a[0], b[0]) by { assert j > 0; }
        BelowAsymmetric(a[0], b[0]);
      }
      forall x | x in Elems(a[1..]) ensures x in Elems(b[1..]) {
        var k :| 1 <= k < |a| && a[k] == x;
        assert Below(a[0], x);
        BelowIrreflexive(x);
        assert x in Elems(a);
        var m :| 0 <= m < |b| && b[m] == x;
        assert m != 0;
        assert b[1..][m - 1] == x;
      }
      forall x | x in Elems(b[1..]) ensures x in Elems(a[1..]) {
        var k :| 1 <= k < |b| && b[k] == x;
        assert Below(b[0], x);
        BelowIrreflexive(x);
        assert x in Elems(b);
        var m :| 0 <= m < |a| && a[m] == x;
        assert m != 0;
        assert a[1..][m - 1] == x;
      }
      StrictlySortedUnique(a[1..], b[1..]);
      assert a == [a[0]] + a[1..] && b == [b[0]] + b[1..];
    }
  }

  // ---------------------------------------------------------------------
  // Sorting by a total preorder (SQL ORDER BY)

  /** `le(a, b)`: `a` may be listed before `b`. */
  ghost predicate TotalPreorder<T(!new)>(le: (T, T) -> bool) {
    && (forall a, b :: le(a, b) || le(b, a))
    && (forall a, b, c :: le(a, b) && le(b, c) ==> le(a, c))
  }

  ghost predicate SortedBy<T>(s: seq<T>, le: (T, T) -> bool) {
    forall i, j :: 0 <= i < j < |s| ==> le(s[i], s[j])
  }

  function InsertBy<T(!new)>(x: T, s: seq<T>, le: (T, T) -> bool): (r: seq<T>)
    requires TotalPreorder(le) && SortedBy(s, le)
    ensures SortedBy(r, le)
    ensures multiset(r) == multiset(s) + multiset{x}
    decreases |s|
  {
    if s == [] || !le(s[0], x) then
      var r := [x] + s;
      assert SortedBy(r, le) by {
        forall j | 0 < j < |r| ensures le(r[0], r[j]) {
          if j > 1 { assert le(s[0], s[j - 1]); }
        }
      }
      r
    else
      var tail := InsertBy(x, s[1..], le);
      var r := [s[0]] + tail;
      assert SortedBy(r, le) by {
        forall j | 0 < j < |r| ensures le(r[0], r[j]) {
          assert r[j] in multiset(tail);
          assert r[j] == x || r[j] in multiset(s[1..]);
          if r[j] != x {
            var k :| 0 <= k < |s[1..]| && s[1..][k] == r[j];
            assert s[k + 1] == r[j];
          }
        }
      }
      assert s == [s[0]] + s[1..];
      r
  }

  /** Stable insertion sort: the result is a sorted permutation of `s`. */
  function SortBy<T(!new)>(s: seq<T>, le: (T, T) -> bool): (r: seq<T>)
    requires TotalPreorder(le)
    ensures SortedBy(r, le)
    ensures multiset(r) == multiset(s)
    ensures |r| == |s|
  {
    if s == [] then []
    else
      assert s == s[..|s| - 1] + [s[|s| - 1]];
      var r := InsertBy(s[|s| - 1], SortBy(s[..|s| - 1], le), le);
      assert |r| == |multiset(r)|;
      r
  }
}
