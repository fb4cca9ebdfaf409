/** Sequence helpers for the node pool, a `java.util.ArrayList` of node references. */
module Pool {

  /** No element occurs twice. */
  predicate Distinct<T(==)>(s: seq<T>)
  {
    forall i, j :: 0 <= i < j < |s| ==> s[i] != s[j]
  }

  /** The position of the first occurrence of `x` in `s`. */
  function FirstIndex<T(==)>(s: seq<T>, x: T): (i: nat)
    requires x in s
    ensures i < |s| && s[i] == x
    ensures forall k :: 0 <= k < i ==> s[k] != x
  {
    if s[0] == x then 0 else 1 + FirstIndex(s[1..], x)
  }

  /** `List.remove(Object)`: drops the first occurrence of `x`, keeping the order of the rest,
      and leaves the list as it is when `x` does not occur. */
  function RemoveFirst<T(==)>(s: seq<T>, x: T): (r: seq<T>)
    ensures |r| == (if x in s then |s| - 1 else |s|)
  {
    if x in s then
      var i := FirstIndex(s, x);
      s[..i] + s[i + 1..]
    else
      s
  }

  /** The elements of `s` other than `x`, in their order in `s`. */
  function Without<T(==)>(s: seq<T>, x: T): (r: seq<T>)
  {
    if s == [] then []
    else if s[0] == x then Without(s[1..], x)
    else [s[0]] + Without(s[1..], x)
  }

  /** Removing from a list without repetitions removes exactly `x`, one element fewer when it was
      there, and keeps the list free of repetitions. */
  lemma RemoveFirstDistinct<T>(s: seq<T>, x: T)
    requires Distinct(s)
    ensures var r := RemoveFirst(s, x);
      Distinct(r) &&
      (forall y :: y in r <==> y in s && y != x) &&
      |r| == (if x in s then |s| - 1 else |s|)
  {
  }

  /** The tail of a list without repetitions has none either, and does not hold the head. */
  lemma DistinctTail<T>(s: seq<T>)
    requires Distinct(s) && s != []
    ensures Distinct(s[1..]) && s[0] !in s[1..]
  {
  }

  /** Removing an element other than the head keeps the head in front. */
  lemma RemoveFirstPastHead<T>(s: seq<T>, x: T)
    requires s != [] && s[0] != x
    ensures RemoveFirst(s, x) == [s[0]] + RemoveFirst(s[1..], x)
  {
    if x in s {
      var i := FirstIndex(s[1..], x);
      assert FirstIndex(s, x) == 1 + i;
      assert s[..1 + i] + s[2 + i..] == [s[0]] + (s[1..][..i] + s[1..][i + 1..]);
    }
  }

  /** On a list without repetitions, `List.remove(x)` leaves exactly the other elements, each in
      its old order. */
  lemma {:induction false} RemoveFirstIsWithout<T>(s: seq<T>, x: T)
    requires Distinct(s)
    ensures RemoveFirst(s, x) == Without(s, x)
  {
    if s != [] {
      DistinctTail(s);
      RemoveFirstIsWithout(s[1..], x);
      if s[0] == x {
        assert RemoveFirst(s, x) == s[1..];
      } else {
        RemoveFirstPastHead(s, x);
      }
    }
  }
}
