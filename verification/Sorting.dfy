/** sort.Slice with a comparator that is a strict total order: the result depends on the elements only. */
module Sorting {

  ghost predicate StrictTotalOrder<T(!new)>(less: (T, T) -> bool) {
    && (forall a :: !less(a, a))
    && (forall a, b, c :: less(a, b) && less(b, c) ==> less(a, c))
    && (forall a, b :: a != b ==> less(a, b) || less(b, a))
  }

  predicate Ascending<T>(less: (T, T) -> bool, ks: seq<T>) {
    |ks| <= 1 || (less(ks[0], ks[1]) && Ascending(less, ks[1..]))
  }

  lemma {:induction false} HeadIsLeast<T(!new)>(less: (T, T) -> bool, ks: seq<T>, k: T)
    requires StrictTotalOrder(less) && Ascending(less, ks) && ks != [] && k in ks[1..]
    ensures less(ks[0], k)
  {
    if k != ks[1] {
      assert ks[1..] == [ks[1]] + ks[1..][1..];
      HeadIsLeast(less, ks[1..], k);
    }
  }

  lemma AscendingAt<T(!new)>(less: (T, T) -> bool, ks: seq<T>, i: nat, j: nat)
    requires StrictTotalOrder(less) && Ascending(less, ks) && i < j < |ks|
    ensures less(ks[i], ks[j])
    decreases i
  {
    if i == 0 {
      assert ks[1..][j - 1] == ks[j];
      HeadIsLeast(less, ks, ks[j]);
    } else {
      AscendingAt(less, ks[1..], i - 1, j - 1);
    }
  }

  /** Only one ascending list has a given set of elements. */
  lemma {:induction false} AscendingIsUnique<T(!new)>(less: (T, T) -> bool, a: seq<T>, b: seq<T>)
    requires StrictTotalOrder(less) && Ascending(less, a) && Ascending(less, b)
    requires forall k :: k in a <==> k in b
    ensures a == b
  {
    assert a == [] || a[0] in a;
    assert b == [] || b[0] in b;
    if a != [] {
      SameHead(less, a, b);
      assert a == [a[0]] + a[1..] && b == [b[0]] + b[1..];
      forall k | k in a[1..] ensures k in b[1..] { TailMember(less, a, b, k); }
      forall k | k in b[1..] ensures k in a[1..] { TailMember(less, b, a, k); }
      AscendingIsUnique(less, a[1..], b[1..]);
    }
  }

  lemma SameHead<T(!new)>(less: (T, T) -> bool, a: seq<T>, b: seq<T>)
    requires StrictTotalOrder(less) && Ascending(less, a) && Ascending(less, b)
    requires a != [] && b != [] && a[0] in b && b[0] in a
    ensures a[0] == b[0]
  {
    assert a == [a[0]] + a[1..] && b == [b[0]] + b[1..];
    if a[0] != b[0] {
      HeadIsLeast(less, a, b[0]);
      HeadIsLeast(less, b, a[0]);
      assert false;
    }
  }

  lemma TailMember<T(!new)>(less: (T, T) -> bool, a: seq<T>, b: seq<T>, k: T)
    requires StrictTotalOrder(less) && Ascending(less, a) && a != [] && b != [] && a[0] == b[0]
    requires k in a[1..] && (k in a ==> k in b)
    ensures k in b[1..]
  {
    HeadIsLeast(less, a, k);
    assert a == [a[0]] + a[1..] && b == [b[0]] + b[1..];
  }

  function Insert<T>(less: (T, T) -> bool, k: T, ks: seq<T>): seq<T> {
    if ks == [] || less(k, ks[0]) then [k] + ks else [ks[0]] + Insert(less, k, ks[1..])
  }

  lemma {:induction false} InsertMembers<T>(less: (T, T) -> bool, k: T, ks: seq<T>, x: T)
    ensures x in Insert(less, k, ks) <==> x == k || x in ks
  {
    if ks != [] {
      InsertMembers(less, k, ks[1..], x);
      assert ks == [ks[0]] + ks[1..];
    }
  }

  lemma {:induction false} InsertKeepsOrder<T(!new)>(less: (T, T) -> bool, k: T, ks: seq<T>)
    requires StrictTotalOrder(less) && Ascending(less, ks) && k !in ks
    ensures Ascending(less, Insert(less, k, ks))
    ensures Insert(less, k, ks) != []
    ensures Insert(less, k, ks)[0] == k || (ks != [] && Insert(less, k, ks)[0] == ks[0])
  {
    if ks != [] {
      if less(k, ks[0]) {
        assert ([k] + ks)[1..] == ks;
      } else {
        InsertKeepsOrder(less, k, ks[1..]);
        assert Insert(less, k, ks)[1..] == Insert(less, k, ks[1..]);
      }
    }
  }

  function SortSeq<T>(less: (T, T) -> bool, ks: seq<T>): seq<T> {
    if ks == [] then [] else Insert(less, ks[|ks| - 1], SortSeq(less, ks[..|ks| - 1]))
  }

  predicate NoRepeats<T(==)>(ks: seq<T>) {
    ks == [] || (ks[|ks| - 1] !in ks[..|ks| - 1] && NoRepeats(ks[..|ks| - 1]))
  }

  lemma {:induction false} SortSeqSorts<T(!new)>(less: (T, T) -> bool, ks: seq<T>)
    requires StrictTotalOrder(less) && NoRepeats(ks)
    ensures Ascending(less, SortSeq(less, ks))
    ensures forall x :: x in SortSeq(less, ks) <==> x in ks
  {
    if ks != [] {
      var init, last := ks[..|ks| - 1], ks[|ks| - 1];
      SortSeqSorts(less, init);
      InsertKeepsOrder(less, last, SortSeq(less, init));
      assert ks == init + [last];
      forall x ensures x in SortSeq(less, ks) <==> x in ks {
        InsertMembers(less, last, SortSeq(less, init), x);
      }
    }
  }

  /** Sorting forgets the order in which the elements were enumerated. */
  lemma SortForgetsOrder<T(!new)>(less: (T, T) -> bool, a: seq<T>, b: seq<T>)
    requires StrictTotalOrder(less) && NoRepeats(a) && NoRepeats(b)
    requires forall k :: k in a <==> k in b
    ensures SortSeq(less, a) == SortSeq(less, b)
  {
    SortSeqSorts(less, a);
    SortSeqSorts(less, b);
    AscendingIsUnique(less, SortSeq(less, a), SortSeq(less, b));
  }

  /** Some enumeration of a finite set. */
  lemma {:induction false} Enumerate<T(!new)>(s: set<T>) returns (ks: seq<T>)
    ensures NoRepeats(ks) && forall k :: k in ks <==> k in s
  {
    if |s| == 0 {
      ks := [];
    } else {
      var k :| k in s;
      var init := Enumerate(s - {k});
      ks := init + [k];
      assert ks[..|init|] == init;
    }
  }

  ghost predicate Enumerates<T(!new)>(e: seq<T>, s: set<T>) { NoRepeats(e) && forall k :: k in e <==> k in s }

  /** The ascending list of the elements of a set: some enumeration, sorted. */
  ghost function SortedSet<T(!new)>(less: (T, T) -> bool, s: set<T>): (ks: seq<T>)
    requires StrictTotalOrder(less)
    ensures Ascending(less, ks) && forall k :: k in ks <==> k in s
    ensures exists e: seq<T> :: Enumerates(e, s) && ks == SortSeq(less, e)
  {
    assert exists e: seq<T> :: Enumerates(e, s) by {
      var e := Enumerate(s);
      assert Enumerates(e, s);
    }
    var e: seq<T> :| Enumerates(e, s);
    SortSeqSorts(less, e);
    SortSeq(less, e)
  }

  /** Every enumeration of the set sorts to it. */
  lemma EnumerationSorts<T(!new)>(less: (T, T) -> bool, s: set<T>, e: seq<T>)
    requires StrictTotalOrder(less) && Enumerates(e, s)
    ensures SortSeq(less, e) == SortedSet(less, s)
  {
    var d: seq<T> :| Enumerates(d, s) && SortedSet(less, s) == SortSeq(less, d);
    SortForgetsOrder(less, e, d);
  }
}
