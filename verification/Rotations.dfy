/** Rotations of growing prefixes of a sequence, and exactly when they reverse it. */
module Rotations {
  import Bits

  /** The first p of L, rotated by one. */
  function Rotate<T>(L: seq<T>, p: nat): (u: seq<T>)
    ensures |u| == |L|
  {
    if p == 0 || p > |L| then L else L[1..p] + [L[0]] + L[p..]
  }

  function RotateAll<T>(L: seq<T>, ps: seq<nat>): (u: seq<T>)
    ensures |u| == |L|
    decreases |ps|
  {
    if ps == [] then L else RotateAll(Rotate(L, ps[0]), ps[1..])
  }

  function Reverse<T>(L: seq<T>): (u: seq<T>)
    ensures |u| == |L|
  {
    if L == [] then [] else Reverse(L[1..]) + [L[0]]
  }

  lemma RotateConcat<T>(a: seq<T>, b: seq<T>)
    requires a != []
    ensures Rotate(a + b, |a|) == a[1..] + [a[0]] + b
  {
  }

  /** The values of ps never fall, and stay at most m. */
  ghost predicate Rising(ps: seq<nat>, m: nat) {
    forall i: nat, j: nat | i <= j < |ps| :: ps[i] <= ps[j] <= m
  }

  function Count(ps: seq<nat>, k: nat): nat {
    if ps == [] then 0 else (if ps[0] == k then 1 else 0) + Count(ps[1..], k)
  }

  ghost predicate AllAre(ps: seq<nat>, k: nat) {
    forall i: nat | i < |ps| :: ps[i] == k
  }

  lemma {:induction false} CountConcat(a: seq<nat>, b: seq<nat>, k: nat)
    ensures Count(a + b, k) == Count(a, k) + Count(b, k)
  {
    if a == [] {
      assert a + b == b;
    } else {
      assert (a + b)[1..] == a[1..] + b;
      CountConcat(a[1..], b, k);
    }
  }

  lemma {:induction false} CountAll(ps: seq<nat>, m: nat, k: nat)
    requires AllAre(ps, m)
    ensures Count(ps, k) == if k == m then |ps| else 0
  {
    if ps != [] {
      CountAll(ps[1..], m, k);
    }
  }

  lemma {:induction false} CountNone(ps: seq<nat>, m: nat, k: nat)
    requires Rising(ps, m) && k > m
    ensures Count(ps, k) == 0
  {
    if ps != [] {
      CountNone(ps[1..], m, k);
    }
  }

  lemma {:induction false} RotateAllConcat<T>(L: seq<T>, a: seq<nat>, b: seq<nat>)
    ensures RotateAll(L, a + b) == RotateAll(RotateAll(L, a), b)
    decreases |a|
  {
    if a == [] {
      assert a + b == b;
    } else {
      assert (a + b)[1..] == a[1..] + b;
      RotateAllConcat(Rotate(L, a[0]), a[1..], b);
    }
  }

  /** Rotations of shorter prefixes leave the last element alone. */
  lemma {:induction false} RotateFront<T>(L: seq<T>, x: T, ps: seq<nat>)
    requires Rising(ps, |L|)
    ensures RotateAll(L + [x], ps) == RotateAll(L, ps) + [x]
    decreases |ps|
  {
    if ps != [] {
      assert Rotate(L + [x], ps[0]) == Rotate(L, ps[0]) + [x];
      RotateFront(Rotate(L, ps[0]), x, ps[1..]);
    }
  }

  function Turn<T>(Z: seq<T>, r: nat): seq<T>
    requires r <= |Z|
  {
    Z[r..] + Z[..r]
  }

  lemma TurnOnce<T>(Z: seq<T>, r: nat)
    requires r < |Z|
    ensures Turn(Rotate(Z, |Z|), r) == if r + 1 == |Z| then Z else Turn(Z, r + 1)
  {
  }

  /** Rotations of the whole sequence turn it by their number. */
  lemma {:induction false} RotateWhole<T>(Z: seq<T>, ps: seq<nat>)
    requires Z != [] && AllAre(ps, |Z|)
    ensures RotateAll(Z, ps) == Turn(Z, |ps| % |Z|)
    decreases |ps|
  {
    assert Turn(Z, 0) == Z;
    if ps == [] {
      Unique(0, |Z|, 0, 0);
    } else {
      RotateWhole(Rotate(Z, |Z|), ps[1..]);
      NextRemainder(|ps| - 1, |Z|);
      TurnOnce(Z, (|ps| - 1) % |Z|);
    }
  }

  lemma NextRemainder(a: nat, n: nat)
    requires n > 0
    ensures (a + 1) % n == if a % n + 1 == n then 0 else a % n + 1
  {
    var q, r := a / n, a % n;
    assert a == q * n + r;
    if r + 1 == n {
      assert a + 1 == (q + 1) * n;
      Unique(a + 1, n, q + 1, 0);
    } else {
      Unique(a + 1, n, q, r + 1);
    }
  }

  lemma Unique(x: nat, n: nat, q: nat, r: nat)
    requires n > 0 && r < n && x == q * n + r
    ensures x % n == r
  {
    Bits.RemainderUnique(x, n, q, r);
  }

  lemma {:induction false} RotateAllMembers<T>(L: seq<T>, ps: seq<nat>, x: T)
    ensures x in RotateAll(L, ps) <==> x in L
    decreases |ps|
  {
    if ps != [] {
      RotateAllMembers(Rotate(L, ps[0]), ps[1..], x);
      RotateMembers(L, ps[0], x);
    }
  }

  lemma RotateMembers<T>(L: seq<T>, p: nat, x: T)
    ensures x in Rotate(L, p) <==> x in L
  {
    if 0 < p <= |L| {
      assert L == [L[0]] + L[1..p] + L[p..];
    }
  }

  ghost predicate NoRepeats<T>(L: seq<T>) {
    forall i: nat, j: nat | i < j < |L| :: L[i] != L[j]
  }

  lemma {:induction false} ReverseSnoc<T>(L: seq<T>, x: T)
    ensures Reverse(L + [x]) == [x] + Reverse(L)
  {
    if L == [] {
      assert (L + [x])[1..] == [];
    } else {
      assert (L + [x])[1..] == L[1..] + [x];
      ReverseSnoc(L[1..], x);
    }
  }

  /** Where a rising sequence starts to be m. */
  lemma {:induction false} SplitAt(ps: seq<nat>, m: nat) returns (i: nat)
    requires Rising(ps, m) && m > 0
    ensures i <= |ps| && Rising(ps[..i], m - 1) && AllAre(ps[i..], m)
  {
    i := 0;
    while i < |ps| && ps[i] < m
      invariant i <= |ps| && forall j: nat | j < i :: ps[j] < m
    {
      i := i + 1;
    }
    if i < |ps| {
      assert forall j: nat | i <= j < |ps| :: ps[i] <= ps[j];
    }
  }

  /** Turning a sequence gives its last element first, and then the rest in this order, exactly
      when it turns by all but one. */
  lemma TurnIff<T>(Y: seq<T>, x: T, r: nat, B: seq<T>)
    requires r <= |Y| == |B| && x !in Y
    ensures Turn(Y + [x], r) == [x] + B <==> r == |Y| && Y == B
  {
    var Z := Y + [x];
    assert Turn(Z, r)[0] == Z[r];
    if r == |Y| {
      assert Turn(Z, r) == [x] + Y;
      assert ([x] + Y)[1..] == Y && ([x] + B)[1..] == B;
    } else {
      assert Z[r] == Y[r] && Y[r] in Y;
    }
  }

  /** The condition for prefixes of up to n elements: the number of rotations of k elements is
      one less than a multiple of k. */
  ghost predicate Turned(ps: seq<nat>, n: nat) {
    forall k: nat {:trigger Count(ps, k)} | 2 <= k <= n :: Count(ps, k) % k == k - 1
  }

  /** Rotations of prefixes that never get shorter reverse a sequence without repetitions if and
      only if, for each k, those of k elements are one less than a multiple of k. */
  lemma {:induction false} ReversesIff<T>(L: seq<T>, ps: seq<nat>)
    requires NoRepeats(L) && Rising(ps, |L|)
    ensures RotateAll(L, ps) == Reverse(L) <==> Turned(ps, |L|)
    decreases |L|
  {
    var m := |L|;
    if m <= 1 {
      ShortStays(L, ps);
    } else {
      var front, x := L[..m - 1], L[m - 1];
      assert L == front + [x];
      var i := SplitAt(ps, m);
      var a, b := ps[..i], ps[i..];
      assert ps == a + b;
      ReversesIff(front, a);
      RotateAllConcat(L, a, b);
      RotateFront(front, x, a);
      var Y := RotateAll(front, a);
      RotateWhole(Y + [x], b);
      ReverseSnoc(front, x);
      RotateAllMembers(front, a, x);
      TurnIff(Y, x, |b| % m, Reverse(front));
      TurnedSplit(ps, a, b, m);
    }
  }

  lemma TurnedSplit(ps: seq<nat>, a: seq<nat>, b: seq<nat>, m: nat)
    requires m > 1 && ps == a + b && Rising(a, m - 1) && AllAre(b, m)
    ensures Turned(ps, m) <==> Turned(a, m - 1) && |b| % m == m - 1
  {
    forall k: nat | 2 <= k <= m ensures Count(ps, k) == if k == m then |b| else Count(a, k) {
      CountConcat(a, b, k);
      CountAll(b, m, k);
      if k == m {
        CountNone(a, m - 1, m);
      }
    }
    if Turned(ps, m) {
      assert Count(ps, m) == |b|;
      forall k: nat | 2 <= k <= m - 1 ensures Count(a, k) % k == k - 1 {
        assert Count(ps, k) == Count(a, k);
      }
    }
  }

  lemma {:induction false} ShortStays<T>(L: seq<T>, ps: seq<nat>)
    requires |L| <= 1
    ensures RotateAll(L, ps) == L == Reverse(L)
    decreases |ps|
  {
    assert Reverse(L) == L;
    if ps != [] {
      assert Rotate(L, ps[0]) == L;
      ShortStays(L, ps[1..]);
    }
  }
}
