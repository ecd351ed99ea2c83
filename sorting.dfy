/** `Array.prototype.sort` with a consistent comparator. The ECMAScript
    standard requires the sort to be stable, so the result is the stable sort
    of the input by the total preorder the comparator induces; it is modelled
    here as insertion sort, with `le(a, b)` meaning "the comparator does not
    put `b` before `a`". */
module Sorting {
  import opened Seqs

  /** A comparator that orders every pair and is transitive. */
  ghost predicate TotalPreorder<T(!new)>(le: (T, T) -> bool)
  {
    (forall a, b :: le(a, b) || le(b, a)) &&
    (forall a, b, c :: le(a, b) && le(b, c) ==> le(a, c))
  }

  predicate Sorted<T>(s: seq<T>, le: (T, T) -> bool)
  {
    forall i, j :: 0 <= i < j < |s| ==> le(s[i], s[j])
  }

  /** Inserts `x` after every element that is not greater than it. */
  function Insert<T(==)>(s: seq<T>, x: T, le: (T, T) -> bool): (r: seq<T>)
    ensures |r| == |s| + 1
    ensures multiset(r) == multiset(s) + multiset{x}
  {
    if s == [] then [x]
    else if !le(s[0], x) then [x] + s
    else
      assert s == [s[0]] + s[1..];
      [s[0]] + Insert(s[1..], x, le)
  }

  /** The stable sort of `s` by `le`. */
  function Sort<T(==)>(s: seq<T>, le: (T, T) -> bool): (r: seq<T>)
    ensures |r| == |s|
    ensures multiset(r) == multiset(s)
  {
    if s == [] then []
    else
      var r := Insert(Sort(s[..|s| - 1], le), s[|s| - 1], le);
      assert s == s[..|s| - 1] + [s[|s| - 1]];
      r
  }

  lemma {:induction false} InsertSorted<T(!new)>(s: seq<T>, x: T, le: (T, T) -> bool)
    requires TotalPreorder(le) && Sorted(s, le)
    ensures Sorted(Insert(s, x, le), le)
  {
    if s != [] && le(s[0], x) {
      InsertSorted(s[1..], x, le);
      var r := Insert(s, x, le);
      var t := Insert(s[1..], x, le);
      assert r == [s[0]] + t;
      forall j | 0 < j < |r|
        ensures le(r[0], r[j])
      {
        assert r[j] in multiset(t);
        assert r[j] in multiset(s[1..]) + multiset{x};
        if r[j] in multiset(s[1..]) {
          var k :| 0 <= k < |s[1..]| && s[1..][k] == r[j];
          assert s[k + 1] == r[j];
        }
      }
    }
  }

  /** The result of `Sort` is in order. */
  lemma {:induction false} SortSorted<T(!new)>(s: seq<T>, le: (T, T) -> bool)
    requires TotalPreorder(le)
    ensures Sorted(Sort(s, le), le)
  {
    if s != [] {
      SortSorted(s[..|s| - 1], le);
      InsertSorted(Sort(s[..|s| - 1], le), s[|s| - 1], le);
    }
  }

  /** The elements of `s` that are equivalent to `k`, in order. */
  function Equivalents<T>(s: seq<T>, k: T, le: (T, T) -> bool): (r: seq<T>)
    ensures |r| <= |s|
    ensures forall i :: 0 <= i < |r| ==> le(r[i], k) && le(k, r[i])
  {
    if s == [] then []
    else if le(s[0], k) && le(k, s[0]) then [s[0]] + Equivalents(s[1..], k, le)
    else Equivalents(s[1..], k, le)
  }

  lemma {:induction false} EquivalentsAppend<T>(a: seq<T>, b: seq<T>, k: T, le: (T, T) -> bool)
    ensures Equivalents(a + b, k, le) == Equivalents(a, k, le) + Equivalents(b, k, le)
  {
    if a == [] {
      assert a + b == b;
    } else {
      assert (a + b)[1..] == a[1..] + b;
      EquivalentsAppend(a[1..], b, k, le);
    }
  }

  /** No element of `s` is equivalent to `k` when `s` lies strictly above `x ~ k`. */
  lemma {:induction false} EquivalentsAbove<T(!new)>(s: seq<T>, x: T, k: T, le: (T, T) -> bool)
    requires TotalPreorder(le)
    requires le(x, k) && le(k, x)
    requires forall i :: 0 <= i < |s| ==> !le(s[i], x)
    ensures Equivalents(s, k, le) == []
  {
    if s != [] {
      EquivalentsAbove(s[1..], x, k, le);
    }
  }

  lemma {:induction false} InsertEquivalents<T(!new)>(s: seq<T>, x: T, k: T, le: (T, T) -> bool)
    requires TotalPreorder(le) && Sorted(s, le)
    ensures Equivalents(Insert(s, x, le), k, le) ==
            Equivalents(s, k, le) + (if le(x, k) && le(k, x) then [x] else [])
  {
    if s == [] {
    } else if !le(s[0], x) {
      var r := Insert(s, x, le);
      assert r == [x] + s;
      if le(x, k) && le(k, x) {
        EquivalentsAbove(s, x, k, le);
        assert Equivalents(r, k, le) == [x] + Equivalents(s, k, le);
      } else {
        assert Equivalents(r, k, le) == Equivalents(s, k, le);
      }
    } else {
      InsertEquivalents(s[1..], x, k, le);
    }
  }

  /** Stability: elements that compare equal keep their input order. */
  lemma {:induction false} SortStable<T(!new)>(s: seq<T>, k: T, le: (T, T) -> bool)
    requires TotalPreorder(le)
    ensures Equivalents(Sort(s, le), k, le) == Equivalents(s, k, le)
  {
    if s != [] {
      var init, x := s[..|s| - 1], s[|s| - 1];
      var tail := if le(x, k) && le(k, x) then [x] else [];
      SortStable(init, k, le);
      SortSorted(init, le);
      InsertEquivalents(Sort(init, le), x, k, le);
      assert Equivalents(Sort(s, le), k, le) == Equivalents(init, k, le) + tail;
      SplitLast(s);
      EquivalentsAppend(init, [x], k, le);
      assert Equivalents([x], k, le) == tail;
    }
  }

  /** A sorted input is returned unchanged. */
  lemma {:induction false} SortOfSorted<T(!new)>(s: seq<T>, le: (T, T) -> bool)
    requires TotalPreorder(le) && Sorted(s, le)
    ensures Sort(s, le) == s
  {
    if s != [] {
      var init, x := s[..|s| - 1], s[|s| - 1];
      assert Sorted(init, le);
      SortOfSorted(init, le);
      AppendAfterAll(init, x, le);
      SplitLast(s);
    }
  }

  lemma SplitLast<T>(s: seq<T>)
    requires s != []
    ensures s == s[..|s| - 1] + [s[|s| - 1]]
  {
  }

  lemma {:induction false} AppendAfterAll<T>(s: seq<T>, x: T, le: (T, T) -> bool)
    requires forall i :: 0 <= i < |s| ==> le(s[i], x)
    ensures Insert(s, x, le) == s + [x]
  {
    if s != [] {
      AppendAfterAll(s[1..], x, le);
      assert s == [s[0]] + s[1..];
    }
  }

  lemma MemberOfSort<T(!new)>(s: seq<T>, le: (T, T) -> bool, i: int)
    requires 0 <= i < |s|
    ensures s[i] in Sort(s, le)
  {
    assert s[i] in multiset(s);
    assert s[i] in multiset(Sort(s, le));
  }

  /** The first element of the sorted sequence is not greater than any input
      element, and it is the first such element in input order. */
  lemma SortFirst<T(!new)>(s: seq<T>, le: (T, T) -> bool)
    requires TotalPreorder(le) && s != []
    ensures forall i :: 0 <= i < |s| ==> le(Sort(s, le)[0], s[i])
    ensures Equivalents(s, Sort(s, le)[0], le) != []
    ensures Equivalents(s, Sort(s, le)[0], le)[0] == Sort(s, le)[0]
  {
    var t := Sort(s, le);
    var h := t[0];
    SortSorted(s, le);
    forall i | 0 <= i < |s|
      ensures le(h, s[i])
    {
      MemberOfSort(s, le, i);
      var j :| 0 <= j < |t| && t[j] == s[i];
      if j == 0 {
        assert le(h, h) || le(h, h);
      }
    }
    SortStable(s, h, le);
    assert le(h, h) || le(h, h);
    assert Equivalents(t, h, le) == [h] + Equivalents(t[1..], h, le);
  }

  /** The last element of the sorted sequence is not less than any input
      element, and it is the last such element in input order. */
  lemma SortLast<T(!new)>(s: seq<T>, le: (T, T) -> bool)
    requires TotalPreorder(le) && s != []
    ensures forall i :: 0 <= i < |s| ==> le(s[i], Sort(s, le)[|s| - 1])
    ensures Equivalents(s, Sort(s, le)[|s| - 1], le) != []
    ensures var e := Equivalents(s, Sort(s, le)[|s| - 1], le);
            e[|e| - 1] == Sort(s, le)[|s| - 1]
  {
    var t := Sort(s, le);
    var n := |s| - 1;
    var h := t[n];
    SortSorted(s, le);
    forall i | 0 <= i < |s|
      ensures le(s[i], h)
    {
      MemberOfSort(s, le, i);
      var j :| 0 <= j < |t| && t[j] == s[i];
      if j == n {
        assert le(h, h) || le(h, h);
      }
    }
    SortStable(s, h, le);
    assert le(h, h) || le(h, h);
    SplitLast(t);
    EquivalentsAppend(t[..n], [h], h, le);
  }

  /** The first `n` elements of the sorted sequence (`sort(...).slice(0, n)`):
      in order, drawn from the input, as many as there are up to `n`, and
      every input element left out is ranked no earlier than the last kept. */
  lemma TopOfSort<T(!new)>(s: seq<T>, le: (T, T) -> bool, n: nat)
    requires TotalPreorder(le) && n > 0
    ensures var r := Sort(s, le)[..if |s| < n then |s| else n];
            Sorted(r, le) &&
            (forall i :: 0 <= i < |r| ==> r[i] in s) &&
            (forall k :: 0 <= k < |s| && s[k] !in r ==> |r| > 0 && le(r[|r| - 1], s[k]))
  {
    SortSorted(s, le);
    TopOfSorted(s, le, n);
  }

  lemma TopOfSorted<T(!new)>(s: seq<T>, le: (T, T) -> bool, n: nat)
    requires Sorted(Sort(s, le), le) && n > 0
    ensures var r := Sort(s, le)[..if |s| < n then |s| else n];
            Sorted(r, le) &&
            (forall i :: 0 <= i < |r| ==> r[i] in s) &&
            (forall k :: 0 <= k < |s| && s[k] !in r ==> |r| > 0 && le(r[|r| - 1], s[k]))
  {
    TopMembers(s, le, if |s| < n then |s| else n);
    TopRestAll(s, le, n);
  }

  lemma TopRestAll<T(!new)>(s: seq<T>, le: (T, T) -> bool, n: nat)
    requires Sorted(Sort(s, le), le) && n > 0
    ensures var r := Sort(s, le)[..if |s| < n then |s| else n];
            forall k :: 0 <= k < |s| && s[k] !in r ==> |r| > 0 && le(r[|r| - 1], s[k])
  {
    var m := if |s| < n then |s| else n;
    forall k | 0 <= k < |s| && s[k] !in Sort(s, le)[..m]
      ensures m > 0 && le(Sort(s, le)[..m][m - 1], s[k])
    {
      TopRest(s, Sort(s, le), le, m, k);
    }
  }

  /** The first `n` of a sort come from the input. */
  lemma TakeOfSortMembers<T(!new)>(s: seq<T>, le: (T, T) -> bool, n: nat)
    ensures forall i :: 0 <= i < |Take(Sort(s, le), n)| ==> Take(Sort(s, le), n)[i] in s
  {
    var t := Sort(s, le);
    forall i | 0 <= i < |Take(t, n)|
      ensures Take(t, n)[i] in s
    {
      assert Take(t, n)[i] == t[i];
      assert t[i] in multiset(s);
    }
  }

  lemma TopMembers<T(!new)>(s: seq<T>, le: (T, T) -> bool, m: nat)
    requires m <= |s|
    ensures forall i :: 0 <= i < m ==> Sort(s, le)[..m][i] in s
  {
    var t := Sort(s, le);
    forall i | 0 <= i < m
      ensures t[..m][i] in s
    {
      assert t[..m][i] == t[i];
      assert t[i] in multiset(s);
    }
  }

  /** An element left out of the first `m` of a sorted permutation is ranked
      no earlier than the last kept. */
  lemma TopRest<T>(s: seq<T>, t: seq<T>, le: (T, T) -> bool, m: nat, k: int)
    requires Sorted(t, le) && multiset(t) == multiset(s)
    requires 0 < m <= |t| && 0 <= k < |s| && s[k] !in t[..m]
    ensures le(t[..m][m - 1], s[k])
  {
    assert s[k] in multiset(s);
    assert s[k] in t;
    var j :| 0 <= j < |t| && t[j] == s[k];
    assert forall x :: 0 <= x < m ==> t[x] in t[..m];
    assert m - 1 < j;
    assert t[..m][m - 1] == t[m - 1];
  }
}
