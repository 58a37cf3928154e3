/** The growable array of src/vector.c. */
module Vector {
  import opened Options

  /** x never comes after y in an order that decides `less`. */
  ghost predicate NotAfter<T>(less: (T, T) -> bool, x: T, y: T) {
    !less(y, x)
  }

  ghost predicate Asymmetric<T>(less: (T, T) -> bool, x: T, y: T) {
    less(x, y) ==> NotAfter(less, x, y)
  }

  ghost predicate Transitive<T>(less: (T, T) -> bool, x: T, y: T, z: T) {
    NotAfter(less, x, y) && NotAfter(less, y, z) ==> NotAfter(less, x, z)
  }

  /** less is a strict weak order. */
  ghost predicate StrictWeak<T(!new)>(less: (T, T) -> bool) {
    && (forall x, y {:trigger Asymmetric(less, x, y)} :: Asymmetric(less, x, y))
    && (forall x, y, z {:trigger Transitive(less, x, y, z)} :: Transitive(less, x, y, z))
  }

  ghost predicate SortedFrom<T>(s: seq<T>, less: (T, T) -> bool, from: nat) {
    forall i: nat, j: nat | i < j < |s| && from <= j :: NotAfter(less, s[i], s[j])
  }

  ghost predicate Sorted<T>(s: seq<T>, less: (T, T) -> bool) {
    SortedFrom(s, less, 0)
  }

  /** No element before position j comes after the one at j. */
  ghost predicate GreatestAt<T>(s: seq<T>, less: (T, T) -> bool, j: nat)
    requires j < |s|
  {
    forall k: nat | k < j :: NotAfter(less, s[k], s[j])
  }

  function Swapped<T>(s: seq<T>, j: nat): (u: seq<T>)
    requires j + 1 < |s|
    ensures |u| == |s|
  {
    s[j := s[j + 1]][j + 1 := s[j]]
  }

  ghost predicate Permuted<T>(s: seq<T>, u: seq<T>) {
    multiset(u) == multiset(s)
  }

  lemma SwapPermutes<T>(s: seq<T>, t: seq<T>, u: seq<T>, j: nat)
    requires j + 1 < |t| && (u == t || u == Swapped(t, j)) && Permuted(s, t)
    ensures Permuted(s, u)
  {
  }

  lemma SwapStep<T>(s: seq<T>, u: seq<T>, less: (T, T) -> bool, j: nat, from: nat)
    requires j + 1 < from <= |s| && u == Swapped(s, j)
    ensures SortedFrom(s, less, from) ==> SortedFrom(u, less, from)
    ensures GreatestAt(s, less, j) && !less(s[j], s[j + 1]) ==> GreatestAt(u, less, j + 1)
  {
  }

  lemma SkipStep<T(!new)>(s: seq<T>, less: (T, T) -> bool, j: nat)
    requires j + 1 < |s| && less(s[j], s[j + 1]) && StrictWeak(less) && GreatestAt(s, less, j)
    ensures GreatestAt(s, less, j + 1)
  {
    assert Asymmetric(less, s[j], s[j + 1]);
    forall k: nat | k < j ensures NotAfter(less, s[k], s[j + 1]) {
      assert NotAfter(less, s[k], s[j]) && Transitive(less, s[k], s[j], s[j + 1]);
    }
  }

  /** What an inner pass of the sort makes of s: neighbours are swapped unless the first is
      less, up to position last. */
  ghost function Bubbled<T>(s: seq<T>, less: (T, T) -> bool, last: nat): (u: seq<T>)
    requires last < |s| || last == 0
    ensures |u| == |s|
  {
    if last == 0 then s
    else
      var t := Bubbled(s, less, last - 1);
      if less(t[last - 1], t[last]) then t else Swapped(t, last - 1)
  }

  lemma {:induction false} BubbledPermutes<T>(s: seq<T>, less: (T, T) -> bool, last: nat)
    requires last < |s|
    ensures Permuted(s, Bubbled(s, less, last))
  {
    if last > 0 {
      BubbledPermutes(s, less, last - 1);
      SwapPermutes(s, Bubbled(s, less, last - 1), Bubbled(s, less, last), last - 1);
    }
  }

  lemma BubbleStep<T(!new)>(t: seq<T>, u: seq<T>, less: (T, T) -> bool, j: nat, from: nat)
    requires j + 1 < from <= |t| && u == if less(t[j], t[j + 1]) then t else Swapped(t, j)
    ensures SortedFrom(t, less, from) ==> SortedFrom(u, less, from)
    ensures StrictWeak(less) && GreatestAt(t, less, j) ==> GreatestAt(u, less, j + 1)
  {
    if !less(t[j], t[j + 1]) {
      SwapStep(t, u, less, j, from);
    } else if StrictWeak(less) && GreatestAt(t, less, j) {
      SkipStep(t, less, j);
    }
  }

  /** A pass keeps the part behind it sorted and carries a greatest element to its end. */
  lemma {:induction false} BubbledCarries<T(!new)>(s: seq<T>, less: (T, T) -> bool, last: nat, from: nat)
    requires last < from <= |s|
    ensures SortedFrom(s, less, from) ==> SortedFrom(Bubbled(s, less, last), less, from)
    ensures StrictWeak(less) ==> GreatestAt(Bubbled(s, less, last), less, last)
  {
    if last > 0 {
      BubbledCarries(s, less, last - 1, from);
      BubbleStep(Bubbled(s, less, last - 1), Bubbled(s, less, last), less, last - 1, from);
    }
  }

  lemma GreatestExtends<T>(u: seq<T>, less: (T, T) -> bool, last: nat)
    requires last < |u| && SortedFrom(u, less, last + 1) && GreatestAt(u, less, last)
    ensures SortedFrom(u, less, last)
  {
  }

  /** What i passes of the sort make of s. */
  ghost function Passes<T>(s: seq<T>, less: (T, T) -> bool, i: nat): (u: seq<T>)
    requires i < |s|
    ensures |u| == |s|
  {
    if i == 0 then s else Bubbled(Passes(s, less, i - 1), less, |s| - i)
  }

  lemma PassPermutes<T>(s: seq<T>, t: seq<T>, u: seq<T>, less: (T, T) -> bool, last: nat)
    requires last < |t| && Permuted(s, t) && u == Bubbled(t, less, last)
    ensures Permuted(s, u)
  {
    BubbledPermutes(t, less, last);
  }

  lemma {:induction false} PassesPermute<T>(s: seq<T>, less: (T, T) -> bool, i: nat)
    requires i < |s|
    ensures Permuted(s, Passes(s, less, i))
  {
    if i > 0 {
      PassesPermute(s, less, i - 1);
      PassPermutes(s, Passes(s, less, i - 1), Passes(s, less, i), less, |s| - i);
    }
  }

  /** The passes sort the last i elements into their places. */
  lemma {:induction false} PassesSort<T(!new)>(s: seq<T>, less: (T, T) -> bool, i: nat)
    requires i < |s| && StrictWeak(less)
    ensures SortedFrom(Passes(s, less, i), less, |s| - i)
  {
    if i > 0 {
      PassesSort(s, less, i - 1);
      BubbledCarries(Passes(s, less, i - 1), less, |s| - i, |s| - i + 1);
      GreatestExtends(Passes(s, less, i), less, |s| - i);
    }
  }

  /** What vector_sort leaves. */
  ghost function BubbleSorted<T>(s: seq<T>, less: (T, T) -> bool): seq<T> {
    if |s| < 2 then s else Passes(s, less, |s| - 1)
  }

  /** The sort permutes, and sorts by every strict weak order. */
  lemma SortSorts<T(!new)>(s: seq<T>, less: (T, T) -> bool)
    ensures Permuted(s, BubbleSorted(s, less))
    ensures StrictWeak(less) ==> Sorted(BubbleSorted(s, less), less)
  {
    if |s| >= 2 {
      PassesPermute(s, less, |s| - 1);
      if StrictWeak(less) {
        PassesSort(s, less, |s| - 1);
        assert SortedFrom(Passes(s, less, |s| - 1), less, 1);
      }
    }
  }

  /** Two elements that compare equal, and nothing else, change places: the sort is not stable. */
  lemma SortSwapsEqual<T>(x: T, y: T, less: (T, T) -> bool)
    ensures BubbleSorted([x, y], less) == if less(x, y) then [x, y] else [y, x]
  {
    assert Passes([x, y], less, 0) == [x, y];
    assert Passes([x, y], less, 1) == Bubbled([x, y], less, 1);
    assert Bubbled([x, y], less, 0) == [x, y];
  }

  class VectorPtr<T(0, !new)> {
    var data: array<T>
    var size: nat
    var capacity: nat

    ghost predicate Valid()
      reads this
    {
      size <= capacity == data.Length
    }

    ghost function Contents(): seq<T>
      reads this, data
      requires Valid()
    {
      data[..size]
    }

    /** vector_init */
    constructor ()
      ensures Valid() && Contents() == [] && fresh(data)
    {
      data, size, capacity := new T[0], 0, 0;
    }

    /** vector_push */
    method Push(elem: T)
      requires Valid()
      modifies this, data
      ensures Valid() && Contents() == old(Contents()) + [elem]
      ensures data == old(data) || fresh(data)
    {
      if size == capacity {
        capacity := if capacity > 0 then capacity * 2 else 8;
        var grown := new T[capacity];
        forall k | 0 <= k < size {
          grown[k] := data[k];
        }
        data := grown;
      }
      data[size] := elem;
      size := size + 1;
    }

    /** vector_get */
    method Get(index: nat) returns (r: Option<T>)
      requires Valid()
      ensures r == if index < |Contents()| then Some(Contents()[index]) else None
    {
      return if index >= size then None else Some(data[index]);
    }

    /** vector_set */
    method Put(index: nat, elem: T)
      requires Valid()
      modifies data
      ensures Contents() == if index < |old(Contents())| then old(Contents())[index := elem] else old(Contents())
    {
      if index < size {
        data[index] := elem;
      }
    }

    /** vector_sort */
    method Sort(less: (T, T) -> bool)
      requires Valid()
      modifies data
      ensures Contents() == BubbleSorted(old(Contents()), less)
      ensures multiset(Contents()) == multiset(old(Contents()))
      ensures StrictWeak(less) ==> Sorted(Contents(), less)
    {
      SortSorts(Contents(), less);
      BubbleSort(less);
    }

    /** The outer loop of vector_sort. */
    method BubbleSort(less: (T, T) -> bool)
      requires Valid()
      modifies data
      ensures Contents() == BubbleSorted(old(Contents()), less)
    {
      if size < 2 {
        return;
      }
      for i := 0 to size - 1
        invariant Contents() == Passes(old(Contents()), less, i)
      {
        Pass(size - 1 - i, less);
      }
    }

    /** The inner loop of vector_sort. */
    method Pass(last: nat, less: (T, T) -> bool)
      requires Valid() && last < size
      modifies data
      ensures Contents() == Bubbled(old(Contents()), less, last)
    {
      ghost var s0 := Contents();
      for j := 0 to last
        invariant Contents() == Bubbled(s0, less, j)
      {
        ghost var s := Contents();
        if !less(data[j], data[j + 1]) {
          data[j], data[j + 1] := data[j + 1], data[j];
          assert Contents() == Swapped(s, j);
        }
      }
    }
  }
}
