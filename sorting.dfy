/**
 * The contract of List.sort with a comparator: the result is ordered by the
 * comparator, is a permutation of the input, and is stable (elements the
 * comparator ranks equal keep their relative order). A comparator is given
 * by its "compare(a, b) <= 0" relation, which must be a total preorder.
 * SortBy is a reference insertion sort; the library's merge sort returns the
 * same list, since a stable sort's result is determined by these three facts.
 */
module Sorting {

  /** A comparator that List.sort accepts: every pair is comparable and the order is transitive. */
  ghost predicate TotalPreorder<T(!new)>(le: (T, T) -> bool) {
    (forall a, b :: le(a, b) || le(b, a)) &&
    (forall a, b, c :: le(a, b) && le(b, c) ==> le(a, c))
  }

  predicate Sorted<T>(s: seq<T>, le: (T, T) -> bool) {
    forall i, j :: 0 <= i < j < |s| ==> le(s[i], s[j])
  }

  /** x placed after every element of s that ranks at or below it. */
  function Insert<T>(x: T, s: seq<T>, le: (T, T) -> bool): (r: seq<T>)
    ensures |r| == |s| + 1
  {
    if s == [] then [x]
    else if le(s[0], x) then [s[0]] + Insert(x, s[1..], le)
    else [x] + s
  }

  /** The stable sort of s: each element inserted, in order, behind its equals. */
  function SortBy<T>(s: seq<T>, le: (T, T) -> bool): (r: seq<T>)
    ensures |r| == |s|
  {
    if s == [] then []
    else Insert(s[|s| - 1], SortBy(s[..|s| - 1], le), le)
  }

  /** The elements of s that the comparator ranks equal to x, in their order in s. */
  function Equivalents<T>(s: seq<T>, x: T, le: (T, T) -> bool): seq<T> {
    if s == [] then []
    else (if le(s[0], x) && le(x, s[0]) then [s[0]] else []) + Equivalents(s[1..], x, le)
  }

  // ------------------------------------------------------------ ordering

  lemma {:induction false} InsertSorted<T(!new)>(x: T, s: seq<T>, le: (T, T) -> bool)
    requires TotalPreorder(le) && Sorted(s, le)
    ensures Sorted(Insert(x, s, le), le)
  {
    if s == [] {
    } else if le(s[0], x) {
      var t := Insert(x, s[1..], le);
      InsertSorted(x, s[1..], le);
      InsertMultiset(x, s[1..], le);
      forall i | 0 <= i < |t|
        ensures le(s[0], t[i])
      {
        assert t[i] in multiset(s[1..]) + multiset{x};
        if t[i] != x {
          var k :| 0 <= k < |s[1..]| && s[1..][k] == t[i];
          assert s[k + 1] == t[i];
        }
      }
      SortedCons(s[0], t, le);
    } else {
      forall i | 0 <= i < |s|
        ensures le(x, s[i])
      {
        assert le(x, s[0]);
        if i > 0 {
          assert le(s[0], s[i]);
        }
      }
      SortedCons(x, s, le);
    }
  }

  /** A sorted sequence stays sorted with an element in front that ranks at or below all of it. */
  lemma SortedCons<T>(h: T, t: seq<T>, le: (T, T) -> bool)
    requires Sorted(t, le)
    requires forall i :: 0 <= i < |t| ==> le(h, t[i])
    ensures Sorted([h] + t, le)
  {
    var r := [h] + t;
    forall i, j | 0 <= i < j < |r|
      ensures le(r[i], r[j])
    {
      assert r[j] == t[j - 1];
      if i > 0 {
        assert r[i] == t[i - 1];
      }
    }
  }

  /** SortBy orders its result by the comparator. */
  lemma {:induction false} SortBySorted<T(!new)>(s: seq<T>, le: (T, T) -> bool)
    requires TotalPreorder(le)
    ensures Sorted(SortBy(s, le), le)
  {
    if s != [] {
      SortBySorted(s[..|s| - 1], le);
      InsertSorted(s[|s| - 1], SortBy(s[..|s| - 1], le), le);
    }
  }

  // --------------------------------------------------------- permutation

  lemma {:induction false} InsertMultiset<T>(x: T, s: seq<T>, le: (T, T) -> bool)
    ensures multiset(Insert(x, s, le)) == multiset(s) + multiset{x}
  {
    if s != [] && le(s[0], x) {
      InsertMultiset(x, s[1..], le);
      assert s == [s[0]] + s[1..];
    }
  }

  /** SortBy only reorders: it returns a permutation of its input. */
  lemma {:induction false} SortByPermutes<T>(s: seq<T>, le: (T, T) -> bool)
    ensures multiset(SortBy(s, le)) == multiset(s)
  {
    if s != [] {
      var init, last := s[..|s| - 1], s[|s| - 1];
      assert s == init + [last];
      assert multiset(s) == multiset(init) + multiset{last};
      SortByPermutes(init, le);
      InsertMultiset(last, SortBy(init, le), le);
    }
  }

  // ----------------------------------------------------------- stability

  lemma {:induction false} EquivalentsAppend<T>(a: seq<T>, b: seq<T>, x: T, le: (T, T) -> bool)
    ensures Equivalents(a + b, x, le) == Equivalents(a, x, le) + Equivalents(b, x, le)
  {
    if a == [] {
      assert a + b == b;
    } else {
      assert (a + b)[1..] == a[1..] + b;
      EquivalentsAppend(a[1..], b, x, le);
    }
  }

  /** No element of s ranks equal to x when all of them rank strictly above y and y ranks equal to x. */
  lemma {:induction false} NoEquivalents<T(!new)>(y: T, s: seq<T>, x: T, le: (T, T) -> bool)
    requires TotalPreorder(le)
    requires le(y, x) && le(x, y)
    requires forall i :: 0 <= i < |s| ==> !le(s[i], y)
    ensures Equivalents(s, x, le) == []
  {
    if s != [] {
      assert !le(s[0], y);
      NoEquivalents(y, s[1..], x, le);
    }
  }

  /** Inserting y into a sorted list appends y to the equals of x exactly when y is one of them. */
  lemma {:induction false} InsertEquivalents<T(!new)>(y: T, s: seq<T>, x: T, le: (T, T) -> bool)
    requires TotalPreorder(le) && Sorted(s, le)
    ensures Equivalents(Insert(y, s, le), x, le)
         == Equivalents(s, x, le) + Equivalents([y], x, le)
  {
    if s == [] {
    } else if le(s[0], y) {
      InsertEquivalents(y, s[1..], x, le);
      InsertBehind(y, s, x, le);
    } else {
      InsertInFront(y, s, x, le);
    }
  }

  /** The step of InsertEquivalents where y goes behind the head of s. */
  lemma InsertBehind<T(!new)>(y: T, s: seq<T>, x: T, le: (T, T) -> bool)
    requires s != [] && le(s[0], y)
    requires Equivalents(Insert(y, s[1..], le), x, le) == Equivalents(s[1..], x, le) + Equivalents([y], x, le)
    ensures Equivalents(Insert(y, s, le), x, le) == Equivalents(s, x, le) + Equivalents([y], x, le)
  {
    var head := if le(s[0], x) && le(x, s[0]) then [s[0]] else [];
    var rest, last := Equivalents(s[1..], x, le), Equivalents([y], x, le);
    assert head + (rest + last) == (head + rest) + last;
    var t := Insert(y, s[1..], le);
    assert ([s[0]] + t)[1..] == t;
    assert Equivalents(Insert(y, s, le), x, le) == head + Equivalents(t, x, le);
  }

  /** The step of InsertEquivalents where y goes in front of s. */
  lemma InsertInFront<T(!new)>(y: T, s: seq<T>, x: T, le: (T, T) -> bool)
    requires TotalPreorder(le) && Sorted(s, le)
    requires s != [] && !le(s[0], y)
    ensures Equivalents(Insert(y, s, le), x, le) == Equivalents(s, x, le) + Equivalents([y], x, le)
  {
    assert ([y] + s)[1..] == s;
    if le(y, x) && le(x, y) {
      NoEquivalents(y, s, x, le);
      assert Equivalents([y], x, le) == [y];
    } else {
      assert Equivalents([y], x, le) == [];
      assert [] + Equivalents(s, x, le) == Equivalents(s, x, le) + [];
    }
  }

  /** SortBy is stable: the equals of any element appear in the same order before and after. */
  lemma {:induction false} SortByStable<T(!new)>(s: seq<T>, x: T, le: (T, T) -> bool)
    requires TotalPreorder(le)
    ensures Equivalents(SortBy(s, le), x, le) == Equivalents(s, x, le)
  {
    if s != [] {
      var init, last := s[..|s| - 1], s[|s| - 1];
      SortByStable(init, x, le);
      SortBySorted(init, le);
      InsertEquivalents(last, SortBy(init, le), x, le);
      assert s == init + [last];
      EquivalentsAppend(init, [last], x, le);
    }
  }

  // ---------------------------------------------------------- uniqueness

  lemma {:induction false} EquivalentsMember<T>(s: seq<T>, x: T, le: (T, T) -> bool, e: T)
    requires e in Equivalents(s, x, le)
    ensures e in s && le(e, x) && le(x, e)
  {
    if s[0] != e || !(le(s[0], x) && le(x, s[0])) {
      EquivalentsMember(s[1..], x, le, e);
    }
  }

  lemma {:induction false} MemberEquivalents<T(!new)>(s: seq<T>, e: T, le: (T, T) -> bool)
    requires TotalPreorder(le) && e in s
    ensures e in Equivalents(s, e, le)
  {
    if s[0] != e {
      MemberEquivalents(s[1..], e, le);
    }
  }

  lemma HeadIsEquivalent<T(!new)>(s: seq<T>, le: (T, T) -> bool)
    requires TotalPreorder(le)
    ensures s != [] ==> Equivalents(s, s[0], le) != []
  {
  }

  /**
   * A stable sort's result is determined: two sorted lists in which every
   * class of equals appears in the same order are the same list.
   */
  lemma {:induction false} SortedUnique<T(!new)>(r: seq<T>, t: seq<T>, le: (T, T) -> bool)
    requires TotalPreorder(le) && Sorted(r, le) && Sorted(t, le)
    requires forall x :: Equivalents(r, x, le) == Equivalents(t, x, le)
    ensures r == t
  {
    if r != [] && t != [] {
      SortedSameHead(r, t, le);
      forall y
        ensures Equivalents(r[1..], y, le) == Equivalents(t[1..], y, le)
      {
        EquivalentsTail(r, t, y, le);
      }
      SortedUnique(r[1..], t[1..], le);
      assert r == [r[0]] + r[1..] && t == [t[0]] + t[1..];
    } else {
      HeadIsEquivalent(r, le);
      HeadIsEquivalent(t, le);
    }
  }

  /** Two sorted lists with the same classes of equals start with the same element. */
  lemma SortedSameHead<T(!new)>(r: seq<T>, t: seq<T>, le: (T, T) -> bool)
    requires TotalPreorder(le) && Sorted(r, le) && Sorted(t, le) && r != [] && t != []
    requires forall x :: Equivalents(r, x, le) == Equivalents(t, x, le)
    ensures r[0] == t[0]
  {
    var x := r[0];
    MemberEquivalents(t, t[0], le);
    EquivalentsMember(r, t[0], le, t[0]);
    MemberEquivalents(r, x, le);
    EquivalentsMember(t, x, le, x);
    assert le(x, t[0]) && le(t[0], x);
    assert Equivalents(r, x, le)[0] == r[0] && Equivalents(t, x, le)[0] == t[0];
  }

  /** Lists with the same head and the same classes of equals have tails with the same classes of equals. */
  lemma EquivalentsTail<T>(r: seq<T>, t: seq<T>, y: T, le: (T, T) -> bool)
    requires r != [] && t != [] && r[0] == t[0]
    requires Equivalents(r, y, le) == Equivalents(t, y, le)
    ensures Equivalents(r[1..], y, le) == Equivalents(t[1..], y, le)
  {
    var x := r[0];
    var head := if le(x, y) && le(y, x) then [x] else [];
    assert Equivalents(r, y, le) == head + Equivalents(r[1..], y, le);
    assert Equivalents(t, y, le) == head + Equivalents(t[1..], y, le);
    assert (head + Equivalents(r[1..], y, le))[|head|..] == Equivalents(r[1..], y, le);
    assert (head + Equivalents(t[1..], y, le))[|head|..] == Equivalents(t[1..], y, le);
  }

  /** SortBy is the stable sort: any sorted list keeping every class of equals in input order is SortBy's result. */
  lemma SortByIsTheStableSort<T(!new)>(s: seq<T>, r: seq<T>, le: (T, T) -> bool)
    requires TotalPreorder(le) && Sorted(r, le)
    requires forall x :: Equivalents(r, x, le) == Equivalents(s, x, le)
    ensures r == SortBy(s, le)
  {
    SortBySorted(s, le);
    forall x
      ensures Equivalents(r, x, le) == Equivalents(SortBy(s, le), x, le)
    {
      SortByStable(s, x, le);
    }
    SortedUnique(r, SortBy(s, le), le);
  }

  // ------------------------------------------------------------ reversal

  /** The elements of s in the opposite order. */
  function Reverse<T>(s: seq<T>): (r: seq<T>)
    ensures |r| == |s| && forall i :: 0 <= i < |s| ==> r[i] == s[|s| - 1 - i]
  {
    if s == [] then [] else Reverse(s[1..]) + [s[0]]
  }

  /** Reversing a list reverses the order of each class of equals. */
  lemma {:induction false} EquivalentsReverse<T>(s: seq<T>, x: T, le: (T, T) -> bool)
    ensures Equivalents(Reverse(s), x, le) == Reverse(Equivalents(s, x, le))
  {
    if s != [] {
      var head := if le(s[0], x) && le(x, s[0]) then [s[0]] else [];
      var rest := Equivalents(s[1..], x, le);
      EquivalentsReverse(s[1..], x, le);
      EquivalentsAppend(Reverse(s[1..]), [s[0]], x, le);
      assert Equivalents([s[0]], x, le) == head;
      if head != [] {
        assert (head + rest)[1..] == rest;
      } else {
        assert head + rest == rest;
      }
    }
  }

  /** A list whose elements are all the same is its own reverse. */
  lemma ReverseConstant<T>(s: seq<T>)
    requires forall i, j :: 0 <= i < |s| && 0 <= j < |s| ==> s[i] == s[j]
    ensures Reverse(s) == s
  {
    var r := Reverse(s);
    assert forall i :: 0 <= i < |s| ==> r[i] == s[|s| - 1 - i] == s[i];
  }

  /**
   * Sorting the ascending sort by the opposite comparator gives its exact
   * reverse when no two elements of s rank equal. (With equals, stability
   * keeps each class of equals in ascending-sort order, so the result is not
   * the reverse.)
   */
  lemma OppositeSortReverses<T(!new)>(s: seq<T>, le: (T, T) -> bool, ge: (T, T) -> bool)
    requires TotalPreorder(le) && TotalPreorder(ge)
    requires forall a, b :: ge(a, b) == le(b, a)
    requires forall a, b :: a in s && b in s && le(a, b) && le(b, a) ==> a == b
    ensures SortBy(SortBy(s, le), ge) == Reverse(SortBy(s, le))
  {
    var t := SortBy(s, le);
    var r := Reverse(t);
    SortBySorted(s, le);
    SortByPermutes(s, le);
    forall i, j | 0 <= i < j < |r|
      ensures ge(r[i], r[j])
    {
      assert le(t[|t| - 1 - j], t[|t| - 1 - i]);
    }
    forall x
      ensures Equivalents(r, x, ge) == Equivalents(t, x, ge)
    {
      EquivalentsReverse(t, x, ge);
      var e := Equivalents(t, x, ge);
      forall i, j | 0 <= i < |e| && 0 <= j < |e|
        ensures e[i] == e[j]
      {
        EquivalentsMember(t, x, ge, e[i]);
        EquivalentsMember(t, x, ge, e[j]);
        assert e[i] in multiset(t) && e[j] in multiset(t);
        assert le(e[i], e[j]) && le(e[j], e[i]);
      }
      ReverseConstant(e);
    }
    SortByIsTheStableSort(t, r, ge);
  }
}
