// Insertion sort by a total order, which stands for the sorts of the standard library.

module Sorting {
  ghost predicate IsOrder<T(!new)>(atMost: (T, T) -> bool) {
    && (forall a, b :: atMost(a, b) || atMost(b, a))
    && (forall a, b, c :: atMost(a, b) && atMost(b, c) ==> atMost(a, c))
  }

  ghost predicate Ordered<T>(atMost: (T, T) -> bool, s: seq<T>) {
    forall i, j :: 0 <= i < j < |s| ==> atMost(s[i], s[j])
  }

  /** Before the first element that is not smaller, so equals keep their order. */
  function Insert<T>(atMost: (T, T) -> bool, x: T, s: seq<T>): seq<T> {
    if s == [] || atMost(x, s[0]) then [x] + s else [s[0]] + Insert(atMost, x, s[1..])
  }

  function Sorted<T>(atMost: (T, T) -> bool, s: seq<T>): seq<T> {
    if s == [] then [] else Insert(atMost, s[0], Sorted(atMost, s[1..]))
  }

  lemma {:induction false} InsertMembers<T>(atMost: (T, T) -> bool, x: T, s: seq<T>)
    ensures multiset(Insert(atMost, x, s)) == multiset(s) + multiset{x}
    decreases |s|
  {
    if s != [] && !atMost(x, s[0]) {
      InsertMembers(atMost, x, s[1..]);
      assert s == [s[0]] + s[1..];
    }
  }

  lemma MemberOf<T>(atMost: (T, T) -> bool, x: T, s: seq<T>, j: nat)
    requires j < |Insert(atMost, x, s)|
    ensures Insert(atMost, x, s)[j] == x || Insert(atMost, x, s)[j] in s
  {
    hide Insert;
    var more := Insert(atMost, x, s);
    InsertMembers(atMost, x, s);
    assert more[j] in multiset(more);
    assert more[j] in multiset(s) <==> more[j] in s;
  }

  lemma HeadOrders<T>(atMost: (T, T) -> bool, x: T, s: seq<T>)
    requires Ordered(atMost, s) && forall y :: y in s ==> atMost(x, y)
    ensures Ordered(atMost, [x] + s)
  {
  }

  lemma TailOrdered<T>(atMost: (T, T) -> bool, s: seq<T>)
    requires s != [] && Ordered(atMost, s)
    ensures Ordered(atMost, s[1..]) && forall y :: y in s[1..] ==> atMost(s[0], y)
  {
  }

  lemma {:induction false} InsertOrders<T(!new)>(atMost: (T, T) -> bool, x: T, s: seq<T>)
    requires IsOrder(atMost) && Ordered(atMost, s)
    ensures Ordered(atMost, Insert(atMost, x, s))
    decreases |s|
  {
    hide Ordered;
    if s == [] {
      OneOrdered(atMost, x);
      assert [x] + s == [x];
    } else {
      TailOrdered(atMost, s);
      if atMost(x, s[0]) {
        assert s == [s[0]] + s[1..];
        HeadOrders(atMost, x, s);
      } else {
        InsertOrders(atMost, x, s[1..]);
        var more := Insert(atMost, x, s[1..]);
        forall y | y in more ensures atMost(s[0], y) {
          var j :| 0 <= j < |more| && more[j] == y;
          MemberOf(atMost, x, s[1..], j);
        }
        HeadOrders(atMost, s[0], more);
      }
    }
  }

  lemma OneOrdered<T>(atMost: (T, T) -> bool, x: T)
    ensures Ordered(atMost, [x])
  {
  }

  /** Sorting keeps the elements and puts them in order. */
  lemma {:induction false} SortedOrders<T(!new)>(atMost: (T, T) -> bool, s: seq<T>)
    requires IsOrder(atMost)
    ensures Ordered(atMost, Sorted(atMost, s)) && multiset(Sorted(atMost, s)) == multiset(s)
    decreases |s|
  {
    hide IsOrder, Insert;
    if s != [] {
      SortedOrders(atMost, s[1..]);
      InsertOrders(atMost, s[0], Sorted(atMost, s[1..]));
      InsertMembers(atMost, s[0], Sorted(atMost, s[1..]));
      assert s == [s[0]] + s[1..];
    }
  }

  lemma SameMembers<T(!new)>(atMost: (T, T) -> bool, s: seq<T>, x: T)
    requires IsOrder(atMost)
    ensures x in Sorted(atMost, s) <==> x in s
  {
    hide IsOrder, Sorted, Ordered;
    SortedOrders(atMost, s);
    assert x in Sorted(atMost, s) <==> x in multiset(Sorted(atMost, s));
    assert x in s <==> x in multiset(s);
  }
}
