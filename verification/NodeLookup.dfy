/** FIND_NODE from the routing table to its answer: exactly when it returns the nearest of all
    peers that can be reached (src/rpc.c, src/bucket.c, src/list.c). */
module NodeLookup {
  import opened Buckets
  import opened Ids
  import opened LookupModel
  import opened Nearest
  import opened Options
  import opened SearchOrder
  import L = Lookup
  import Vector

  // ---------- counting the peers met ----------

  /** How many of the peers are closer to the target than the id. */
  ghost function CountCloser(peers: seq<Peer>, id: HashID, target: HashID): (n: nat)
    ensures n <= |peers|
    decreases |peers|
  {
    if peers == [] then 0
    else
      CountCloser(peers[..|peers| - 1], id, target) + (if Closer(peers[|peers| - 1].id, id, target) then 1 else 0)
  }

  lemma {:induction false} CountConcat(a: seq<Peer>, b: seq<Peer>, id: HashID, target: HashID)
    ensures CountCloser(a + b, id, target) == CountCloser(a, id, target) + CountCloser(b, id, target)
    decreases |b|
  {
    if b == [] {
      assert a + b == a;
    } else {
      var front, p := b[..|b| - 1], b[|b| - 1];
      assert (a + b)[..|a + b| - 1] == a + front && (a + b)[|a + b| - 1] == p;
      CountConcat(a, front, id, target);
    }
  }

  lemma CountWithout(peers: seq<Peer>, i: nat, id: HashID, target: HashID)
    requires i < |peers|
    ensures CountCloser(peers, id, target) ==
            CountCloser(peers[..i] + peers[i + 1..], id, target) + (if Closer(peers[i].id, id, target) then 1 else 0)
  {
    var left, p, right := peers[..i], peers[i], peers[i + 1..];
    assert peers == (left + [p]) + right && (left + [p])[..|left|] == left;
    CountConcat(left, right, id, target);
    CountConcat(left + [p], right, id, target);
  }

  /** The count does not depend on the order. */
  lemma {:induction false} CountPermuted(a: seq<Peer>, b: seq<Peer>, id: HashID, target: HashID)
    requires multiset(a) == multiset(b)
    ensures CountCloser(a, id, target) == CountCloser(b, id, target)
    decreases |a|
  {
    assert |a| == |multiset(a)| == |multiset(b)| == |b|;
    if a != [] {
      var front, p := a[..|a| - 1], a[|a| - 1];
      assert a == front + [p] && p in multiset(b);
      var i: nat :| i < |b| && b[i] == p;
      WithoutOne(front, b, i);
      CountPermuted(front, b[..i] + b[i + 1..], id, target);
      CountWithout(b, i, id, target);
    }
  }

  lemma WithoutOne(front: seq<Peer>, b: seq<Peer>, i: nat)
    requires i < |b| && multiset(front + [b[i]]) == multiset(b)
    ensures multiset(front) == multiset(b[..i] + b[i + 1..])
  {
    assert b == b[..i] + [b[i]] + b[i + 1..];
    assert multiset(front) == multiset(b) - multiset{b[i]};
    assert multiset(b[..i] + b[i + 1..]) == multiset(b) - multiset{b[i]};
  }

  lemma {:induction false} CountAll(peers: seq<Peer>, id: HashID, target: HashID, closer: bool)
    requires forall i: nat | i < |peers| :: Closer(peers[i].id, id, target) <==> closer
    ensures CountCloser(peers, id, target) == if closer then |peers| else 0
    decreases |peers|
  {
    if peers != [] {
      CountAll(peers[..|peers| - 1], id, target, closer);
    }
  }

  lemma TwoPlaces(peers: seq<Peer>, p: Peer)
    ensures multiset(peers)[p] >= 2 <==> exists i: nat, j: nat :: i < j < |peers| && peers[i] == p && peers[j] == p
  {
    if multiset(peers)[p] >= 2 {
      var i: nat :| i < |peers| && peers[i] == p;
      assert peers == peers[..i] + [p] + peers[i + 1..];
      assert multiset(peers[..i] + peers[i + 1..])[p] >= 1;
      var j: nat :| j < |peers| - 1 && (peers[..i] + peers[i + 1..])[j] == p;
      if j < i {
        assert peers[j] == p;
      } else {
        assert peers[j + 1] == p;
      }
    }
    if exists i: nat, j: nat :: i < j < |peers| && peers[i] == p && peers[j] == p {
      var i: nat, j: nat :| i < j < |peers| && peers[i] == p && peers[j] == p;
      assert peers == peers[..j] + peers[j..] && peers[..j][i] == p && peers[j..][0] == p;
    }
  }

  // ---------- given the peers met ----------

  /** The peers that a lookup has met, in the order in which the sort may leave them. */
  ghost predicate SortedPeers(sorted: seq<Peer>, pending: seq<Peer>, target: HashID) {
    multiset(sorted) == multiset(pending) && Vector.Sorted(sorted, DistanceLess(target))
  }

  /** A peer that was met twice has at least k - 1 others before it, and peers that share an id
      have k of them. */
  ghost predicate RepeatsAreFar(pending: seq<Peer>, target: HashID, k: nat) {
    && (forall p | multiset(pending)[p] >= 2 :: CountCloser(pending, p.id, target) + 1 >= k)
    && (forall p, q | p in pending && q in pending && p != q && p.id == q.id ::
          CountCloser(pending, p.id, target) >= k)
  }

  /** The first of the peers with the id of the one at i: those before it are those that are closer. */
  lemma {:induction false} FirstOfId(sorted: seq<Peer>, target: HashID, i: nat) returns (f: nat)
    requires Vector.Sorted(sorted, DistanceLess(target)) && i < |sorted|
    ensures f <= i && sorted[f].id == sorted[i].id && CountCloser(sorted, sorted[i].id, target) == f
    ensures forall j: nat | j < f :: Closer(sorted[j].id, sorted[i].id, target)
  {
    if i > 0 && sorted[i - 1].id == sorted[i].id {
      f := FirstOfId(sorted, target, i - 1);
    } else {
      f := i;
      FirstCounts(sorted, target, i);
    }
  }

  lemma FirstCounts(sorted: seq<Peer>, target: HashID, i: nat)
    requires Vector.Sorted(sorted, DistanceLess(target)) && i < |sorted|
    requires i > 0 ==> sorted[i - 1].id != sorted[i].id
    ensures CountCloser(sorted, sorted[i].id, target) == i
    ensures forall j: nat | j < i :: Closer(sorted[j].id, sorted[i].id, target)
  {
    var id, before, rest := sorted[i].id, sorted[..i], sorted[i..];
    forall j: nat | j < i ensures Closer(sorted[j].id, id, target) {
      InOrder(sorted, target, j, i - 1);
      InOrder(sorted, target, i - 1, i);
      BeforeIsCloser(sorted[j].id, sorted[i - 1].id, id, target);
    }
    forall j: nat | j < |rest| ensures !Closer(rest[j].id, id, target) {
      InOrder(sorted, target, i, i + j);
    }
    assert sorted == before + rest;
    CountAll(before, id, target, true);
    CountAll(rest, id, target, false);
    CountConcat(before, rest, id, target);
  }

  lemma InOrder(sorted: seq<Peer>, target: HashID, i: nat, j: nat)
    requires Vector.Sorted(sorted, DistanceLess(target)) && i <= j < |sorted|
    ensures !Closer(sorted[j].id, sorted[i].id, target)
  {
    if i < j {
      assert Vector.NotAfter(DistanceLess(target), sorted[i], sorted[j]);
    } else {
      CloserIsTotal(sorted[i].id, sorted[j].id, target);
    }
  }

  lemma BeforeIsCloser(a: HashID, b: HashID, c: HashID, target: HashID)
    requires !Closer(b, a, target) && !Closer(c, b, target) && b != c
    ensures Closer(a, c, target)
  {
    CloserIsTotal(b, c, target);
    CloserIsTotal(a, b, target);
    if a != b {
      CloserIsTransitive(a, b, c, target);
    }
  }

  /** From the first of them on, the peers up to that at j have its id. */
  lemma SameIdBetween(sorted: seq<Peer>, target: HashID, f: nat, i: nat, j: nat)
    requires Vector.Sorted(sorted, DistanceLess(target))
    requires f <= i <= j < |sorted| && sorted[f].id == sorted[j].id
    ensures sorted[i].id == sorted[j].id
  {
    InOrder(sorted, target, f, i);
    InOrder(sorted, target, i, j);
    CloserIsTotal(sorted[i].id, sorted[j].id, target);
  }

  /** Two peers with the same id that are too near spoil the result: both are in it, or one is and
      the other, which is not farther, is not. */
  lemma NearRepeatsShow(sorted: seq<Peer>, target: HashID, k: nat, i: nat, j: nat)
    requires Vector.Sorted(sorted, DistanceLess(target)) && i < j < |sorted| && sorted[i].id == sorted[j].id
    requires CountCloser(sorted, sorted[i].id, target) + (if sorted[i] == sorted[j] then 1 else 0) < k
    ensures !IsKNearest(sorted[..Min(k, |sorted|)], sorted, target, k)
  {
    var r := sorted[..Min(k, |sorted|)];
    var f := FirstOfId(sorted, target, i);
    SameIdBetween(sorted, target, f, f + 1, j);
    if f + 1 < k {
      assert r[f].id == r[f + 1].id;
    } else {
      var x := if sorted[i] == sorted[f] then sorted[j] else sorted[i];
      OtherIsOutside(sorted, target, f, k, x);
    }
  }

  lemma OtherIsOutside(sorted: seq<Peer>, target: HashID, f: nat, k: nat, x: Peer)
    requires f + 1 == k <= |sorted| && x in sorted && x.id == sorted[f].id && x != sorted[f]
    ensures !IsKNearest(sorted[..k], sorted, target, k)
  {
    var r := sorted[..k];
    assert x in Elements(sorted) && r[f] in Elements(r);
    CloserIsTotal(x.id, x.id, target);
    if x in Elements(r) {
      var g: nat :| g < |r| && r[g] == x;
      assert g < f && r[g].id == r[f].id;
    }
  }

  /** The first k of the sorted peers are the k nearest if and only if that is so. */
  lemma PrefixIff(sorted: seq<Peer>, target: HashID, k: nat)
    requires Vector.Sorted(sorted, DistanceLess(target))
    ensures IsKNearest(sorted[..Min(k, |sorted|)], sorted, target, k) <==> RepeatsAreFar(sorted, target, k)
  {
    var n := Min(k, |sorted|);
    var r := sorted[..n];
    if !RepeatsAreFar(sorted, target, k) {
      if p :| multiset(sorted)[p] >= 2 && CountCloser(sorted, p.id, target) + 1 < k {
        TwoPlaces(sorted, p);
        var i: nat, j: nat :| i < j < |sorted| && sorted[i] == p && sorted[j] == p;
        NearRepeatsShow(sorted, target, k, i, j);
      } else {
        var p, q :| p in sorted && q in sorted && p != q && p.id == q.id && CountCloser(sorted, p.id, target) < k;
        var i: nat :| i < |sorted| && sorted[i] == p;
        var j: nat :| j < |sorted| && sorted[j] == q;
        NearRepeatsShow(sorted, target, k, Min(i, j), if i < j then j else i);
      }
    }
    if RepeatsAreFar(sorted, target, k) {
      FarRepeatsSelect(sorted, target, k);
    }
  }

  lemma FarRepeatsSelect(sorted: seq<Peer>, target: HashID, k: nat)
    requires Vector.Sorted(sorted, DistanceLess(target)) && RepeatsAreFar(sorted, target, k)
    ensures IsKNearest(sorted[..Min(k, |sorted|)], sorted, target, k)
  {
    var n := Min(k, |sorted|);
    var r := sorted[..n];
    FarRepeatsDistinct(sorted, target, k);
    forall x, p | x in Elements(r) && p in Elements(sorted) - Elements(r) ensures Closer(x.id, p.id, target) {
      var i: nat :| i < |r| && r[i] == x;
      var j := PlaceOutside(sorted, n, p);
      OutsideIsFarther(sorted, target, k, i, j);
    }
  }

  lemma PlaceOutside(peers: seq<Peer>, n: nat, p: Peer) returns (j: nat)
    requires n <= |peers| && p in Elements(peers) - Elements(peers[..n])
    ensures n <= j < |peers| && peers[j] == p
  {
    var rest := peers[n..];
    assert peers == peers[..n] + rest;
    ElementsConcat(peers[..n], rest);
    var i: nat :| i < |rest| && rest[i] == p;
    j := n + i;
  }

  lemma FarRepeatsDistinct(sorted: seq<Peer>, target: HashID, k: nat)
    requires Vector.Sorted(sorted, DistanceLess(target)) && RepeatsAreFar(sorted, target, k)
    ensures DistinctIds(sorted[..Min(k, |sorted|)])
  {
    var r := sorted[..Min(k, |sorted|)];
    forall i: nat, j: nat | i < j < |r| ensures r[i].id != r[j].id {
      if sorted[i].id == sorted[j].id {
        RepeatIsFar(sorted, target, k, i, j);
      }
    }
  }

  lemma OutsideIsFarther(sorted: seq<Peer>, target: HashID, k: nat, i: nat, j: nat)
    requires Vector.Sorted(sorted, DistanceLess(target)) && RepeatsAreFar(sorted, target, k)
    requires i < k && i < j < |sorted| && sorted[i] != sorted[j]
    ensures Closer(sorted[i].id, sorted[j].id, target)
  {
    InOrder(sorted, target, i, j);
    CloserIsTotal(sorted[i].id, sorted[j].id, target);
    if sorted[i].id == sorted[j].id {
      RepeatIsFar(sorted, target, k, i, j);
    }
  }

  lemma RepeatIsFar(sorted: seq<Peer>, target: HashID, k: nat, i: nat, j: nat)
    requires Vector.Sorted(sorted, DistanceLess(target)) && RepeatsAreFar(sorted, target, k)
    requires i < j < |sorted| && sorted[i].id == sorted[j].id
    ensures j >= k && (sorted[i] != sorted[j] ==> i >= k)
  {
    var f := FirstOfId(sorted, target, i);
    if sorted[i] == sorted[j] {
      TwoPlaces(sorted, sorted[i]);
    }
  }

  lemma RepeatsPermuted(a: seq<Peer>, b: seq<Peer>, target: HashID, k: nat)
    requires multiset(a) == multiset(b)
    ensures RepeatsAreFar(a, target, k) <==> RepeatsAreFar(b, target, k)
  {
    forall p: Peer ensures CountCloser(a, p.id, target) == CountCloser(b, p.id, target) {
      CountPermuted(a, b, p.id, target);
    }
    forall p: Peer ensures p in a <==> p in b {
      assert p in multiset(a) <==> p in multiset(b);
    }
  }

  /** What is returned is made of the k nearest of the peers met if and only if the peers met more
      than once are far enough away, whatever order the sort leaves equal ones in. */
  lemma SortedPrefixIff(pending: seq<Peer>, sorted: seq<Peer>, target: HashID, k: nat)
    requires SortedPeers(sorted, pending, target)
    ensures IsKNearest(sorted[..Min(k, |sorted|)], pending, target, k) <==> RepeatsAreFar(pending, target, k)
  {
    RepeatsPermuted(pending, sorted, target, k);
    PrefixIff(sorted, target, k);
    assert |sorted| == |multiset(sorted)| == |multiset(pending)| == |pending|;
    forall p: Peer ensures p in Elements(sorted) <==> p in Elements(pending) {
      assert p in multiset(sorted) <==> p in multiset(pending);
    }
    assert Elements(sorted) == Elements(pending);
  }

  // ---------- given the initial peers ----------

  /** r is the k nearest of the peers met, and no reachable peer is closer than one of them without
      being among them. */
  ghost predicate NearestReached(net: Network, initial: seq<Peer>, target: HashID, k: nat, r: seq<Peer>) {
    && IsKNearest(r, Lookup(net, false, initial).pending, target, k)
    && forall p | Reachable(net, false, initial, p) :: NotMissed(r, p, target, k)
  }

  /** What FIND_NODE delivers is right. */
  ghost predicate FindsNearest(net: Network, initial: seq<Peer>, target: HashID, k: nat) {
    forall sorted {:trigger SortedPeers(sorted, Lookup(net, false, initial).pending, target)} |
      SortedPeers(sorted, Lookup(net, false, initial).pending, target) ::
      NearestReached(net, initial, target, k, sorted[..Min(k, |sorted|)])
  }

  /** There is such an order: the one that vector_sort leaves. */
  lemma SortIsSorted(pending: seq<Peer>, target: HashID)
    ensures SortedPeers(Vector.BubbleSorted(pending, DistanceLess(target)), pending, target)
  {
    DistanceIsStrictWeak(target);
    Vector.SortSorts(pending, DistanceLess(target));
  }

  /** A reachable peer whose id was not met has at least k peers before it. */
  ghost predicate UnmetAreFar(net: Network, initial: seq<Peer>, target: HashID, k: nat) {
    var pending := Lookup(net, false, initial).pending;
    forall p | Reachable(net, false, initial, p) && p.id !in IdsOf(pending) :: CountCloser(pending, p.id, target) >= k
  }

  lemma NotCloserChain(a: HashID, b: HashID, c: HashID, target: HashID)
    requires !Closer(b, a, target) && !Closer(c, b, target)
    ensures !Closer(c, a, target)
  {
    if b != c {
      BeforeIsCloser(a, b, c, target);
      CloserIsTotal(a, c, target);
    }
  }

  /** The peers that are closer than an id come before one that is not. */
  lemma CloserComeFirst(sorted: seq<Peer>, id: HashID, target: HashID, i: nat)
    requires Vector.Sorted(sorted, DistanceLess(target)) && i < |sorted| && !Closer(sorted[i].id, id, target)
    ensures CountCloser(sorted, id, target) <= i
  {
    var rest := sorted[i..];
    forall j: nat | j < |rest| ensures !Closer(rest[j].id, id, target) {
      InOrder(sorted, target, i, i + j);
      NotCloserChain(id, sorted[i].id, rest[j].id, target);
    }
    assert sorted == sorted[..i] + rest;
    CountAll(rest, id, target, false);
    CountConcat(sorted[..i], rest, id, target);
  }

  /** A peer whose id is not in the result is not missed if and only if k peers are closer. */
  lemma NotMissedIff(sorted: seq<Peer>, target: HashID, k: nat, p: Peer)
    requires Vector.Sorted(sorted, DistanceLess(target)) && p.id !in IdsOf(sorted[..Min(k, |sorted|)])
    ensures NotMissed(sorted[..Min(k, |sorted|)], p, target, k) <==> CountCloser(sorted, p.id, target) >= k
  {
    var r := sorted[..Min(k, |sorted|)];
    if CountCloser(sorted, p.id, target) >= k {
      forall x | x in Elements(r) ensures Closer(x.id, p.id, target) {
        var i: nat :| i < |r| && r[i] == x;
        if !Closer(sorted[i].id, p.id, target) {
          CloserComeFirst(sorted, p.id, target, i);
        }
      }
    }
    if NotMissed(r, p, target, k) {
      forall i: nat | i < |r| ensures Closer(r[i].id, p.id, target) {
        assert r[i] in Elements(r);
      }
      assert sorted == r + sorted[k..];
      CountAll(r, p.id, target, true);
      CountConcat(r, sorted[k..], p.id, target);
    }
  }

  /** On one network FIND_NODE delivers the nearest of all peers that can be reached if and only if
      the peers met more than once, and the reachable ones not met, are far enough away. */
  lemma NetworkFindsNearestIff(net: Network, initial: seq<Peer>, target: HashID, k: nat)
    ensures FindsNearest(net, initial, target, k) <==>
            RepeatsAreFar(Lookup(net, false, initial).pending, target, k) && UnmetAreFar(net, initial, target, k)
  {
    var pending := Lookup(net, false, initial).pending;
    SortIsSorted(pending, target);
    forall sorted | SortedPeers(sorted, pending, target)
      ensures NearestReached(net, initial, target, k, sorted[..Min(k, |sorted|)]) <==>
              RepeatsAreFar(pending, target, k) && UnmetAreFar(net, initial, target, k)
    {
      OneOrderIff(net, initial, target, k, pending, sorted);
    }
  }

  lemma OneOrderIff(net: Network, initial: seq<Peer>, target: HashID, k: nat, pending: seq<Peer>, sorted: seq<Peer>)
    requires pending == Lookup(net, false, initial).pending && SortedPeers(sorted, pending, target)
    ensures NearestReached(net, initial, target, k, sorted[..Min(k, |sorted|)]) <==>
            RepeatsAreFar(pending, target, k) && UnmetAreFar(net, initial, target, k)
  {
    var r := sorted[..Min(k, |sorted|)];
    SortedPrefixIff(pending, sorted, target, k);
    if IsKNearest(r, pending, target, k) {
      forall p: Peer ensures NotMissed(r, p, target, k) <==>
                             p.id in IdsOf(pending) || CountCloser(pending, p.id, target) >= k
      {
        if p.id in IdsOf(pending) {
          MetIsNotMissed(pending, sorted, target, k, p);
        } else {
          assert Elements(r) <= Elements(pending);
          NotMissedIff(sorted, target, k, p);
          CountPermuted(sorted, pending, p.id, target);
        }
      }
    }
  }

  lemma NoRepeats(pending: seq<Peer>, target: HashID, k: nat)
    requires DistinctIds(pending)
    ensures RepeatsAreFar(pending, target, k)
  {
    forall p ensures multiset(pending)[p] < 2 {
      TwoPlaces(pending, p);
    }
    DistinctAreKeyed(pending);
    forall p, q | p in pending && q in pending && p != q ensures p.id != q.id {
      assert p in Elements(pending) && q in Elements(pending);
    }
  }

  lemma DistinctFindsNearest(net: Network, initial: seq<Peer>, target: HashID, k: nat)
    requires DistinctIds(initial) && SameReplies(net, false, initial)
    ensures FindsNearest(net, initial, target, k)
  {
    var pending := Lookup(net, false, initial).pending;
    ExploreDistinct(net, false, initial, [], 0);
    NoRepeats(pending, target, k);
    FoundMeansFindValue(net, false, initial);
    forall p | Reachable(net, false, initial, p) ensures p.id in IdsOf(pending) {
      LookupMeetsAll(net, false, initial, p.id);
    }
    NetworkFindsNearestIff(net, initial, target, k);
  }

  /** The network in which nobody answers. */
  const SILENT: Network := (p: Peer) => NoAnswer

  lemma {:induction false} SilentMeetsNobody(pending: seq<Peer>, seen: seq<Peer>, i: nat)
    requires i <= |pending|
    ensures Explore(SILENT, false, pending, seen, i).pending == pending
    decreases |pending| - i
  {
    if i < |pending| {
      assert Merge(pending, []) == pending;
      SilentMeetsNobody(pending, seen + [], i + 1);
    }
  }

  lemma SilentShowsRepetition(initial: seq<Peer>, target: HashID, k: nat)
    requires |initial| <= k && FindsNearest(SILENT, initial, target, k)
    ensures DistinctIds(initial)
  {
    SilentMeetsNobody(initial, [], 0);
    var sorted := Vector.BubbleSorted(initial, DistanceLess(target));
    SortIsSorted(initial, target);
    assert |sorted| == |multiset(sorted)| == |multiset(initial)| == |initial|;
    assert SortedPeers(sorted, Lookup(SILENT, false, initial).pending, target);
    assert sorted[..Min(k, |sorted|)] == sorted;
    PermutationDistinct(sorted, initial);
  }

  /** FIND_NODE is right on all networks in which reachable peers of the same id reply the same. */
  ghost predicate AlwaysFindsNearest(initial: seq<Peer>, target: HashID, k: nat) {
    forall net: Network | SameReplies(net, false, initial) :: FindsNearest(net, initial, target, k)
  }

  /** It is so if and only if the initial peers, of which there are at most k, have different ids. */
  lemma FindsNearestIff(initial: seq<Peer>, target: HashID, k: nat)
    requires |initial| <= k
    ensures DistinctIds(initial) <==> AlwaysFindsNearest(initial, target, k)
  {
    if DistinctIds(initial) {
      forall net: Network | SameReplies(net, false, initial) ensures FindsNearest(net, initial, target, k) {
        DistinctFindsNearest(net, initial, target, k);
      }
    }
    if AlwaysFindsNearest(initial, target, k) {
      assert SameReplies(SILENT, false, initial);
      SilentShowsRepetition(initial, target, k);
    }
  }

  // ---------- a reachable peer that is missed ----------

  const X: HashID := HashID(seq(ID_LENGTH, _ => 0))
  const A: HashID := HashID(seq(ID_LENGTH, _ => 1))
  const C: HashID := HashID(seq(ID_LENGTH, _ => 2))

  /** The address 3, of the id A, reports the id X at the address 2, which reports C. */
  const SPLIT: Network := (p: Peer) =>
    if p.addr == 3 then FindNodeResponse([Peer(X, 2)])
    else if p.addr == 2 then FindNodeResponse([Peer(C, 4)])
    else NoAnswer

  /** With one id at two addresses, a lookup that starts with the other address, where nobody is,
      misses a peer although its result is not full. */
  lemma ReachableIsMissed(target: HashID)
    ensures var initial := [Peer(X, 1), Peer(A, 3)];
            DistinctIds(initial) && !FindsNearest(SPLIT, initial, target, K_VALUE)
  {
    var initial := [Peer(X, 1), Peer(A, 3)];
    assert X.bytes[0] != A.bytes[0] && A.bytes[0] != C.bytes[0] && X.bytes[0] != C.bytes[0];
    InitialIsReachable(SPLIT, false, initial, Peer(A, 3));
    ReportedIsReachable(SPLIT, false, initial, Peer(A, 3), Peer(X, 2));
    ReportedIsReachable(SPLIT, false, initial, Peer(X, 2), Peer(C, 4));
    SplitMeets(initial);
    NetworkFindsNearestIff(SPLIT, initial, target, K_VALUE);
  }

  lemma SplitMeets(initial: seq<Peer>)
    requires initial == [Peer(X, 1), Peer(A, 3)]
    ensures Lookup(SPLIT, false, initial).pending == initial
  {
    var news, nobody: seq<Peer> := [Peer(X, 2)], [];
    assert initial[0] in initial && HasId(initial, X) && news[1..] == nobody;
    assert Merge(initial, nobody) == initial && Merge(initial, news) == initial;
    assert nobody + nobody == nobody && nobody + news == news;
    assert Explore(SPLIT, false, initial, news, 2).pending == initial;
    assert Explore(SPLIT, false, initial, nobody, 1) == Explore(SPLIT, false, initial, news, 2);
    assert Explore(SPLIT, false, initial, nobody, 0) == Explore(SPLIT, false, initial, nobody, 1);
  }

  // ---------- from the routing table ----------

  /** The search of the table for the target repeats no peer: the table has no bucket for the
      target, or knows too few peers to fill the result, or find_nearest is right on the bucket
      in which the result is filled up. */
  ghost predicate NoRepetition(own: HashID, bs: seq<seq<Peer>>, target: HashID, k: nat) {
    var b := BucketIndex(Xor(own, target));
    0 <= b < |bs| && k <= |All(bs)| ==>
      exists w :: SearchFor(w, own, bs, b, target, k) && GentleAtCut(w)
  }

  ghost predicate SearchFor(w: Walk, own: HashID, bs: seq<seq<Peer>>, b: nat, target: HashID, k: nat) {
    && b < |bs| && IsSearch(w, Search(bs, b, target, k))
    && w.own == own && w.bs == bs && w.b == b && w.target == target && w.n == k
  }

  lemma StartDistinctIff(own: HashID, bs: seq<seq<Peer>>, target: HashID)
    requires WellPlaced(own, bs) && BucketIndex(Xor(own, target)) < |bs|
    ensures DistinctIds(L.Initial(Some(own), bs, target)) <==> NoRepetition(own, bs, target, K_VALUE)
  {
    var b := BucketIndex(Xor(own, target));
    if b >= 0 {
      var r := Search(bs, b, target, K_VALUE);
      assert L.Initial(Some(own), bs, target) == r;
      if |All(bs)| < K_VALUE {
        SearchFindsAll(own, bs, b, target, K_VALUE);
      } else {
        var w := CutIsThere(own, bs, b, target, K_VALUE);
        NoRepetitionIff(w, r);
        assert SearchFor(w, own, bs, b, target, K_VALUE);
        forall w' | SearchFor(w', own, bs, b, target, K_VALUE) ensures GentleAtCut(w') <==> DistinctIds(r) {
          NoRepetitionIff(w', r);
        }
      }
    }
  }

  /** FIND_NODE for K_VALUE peers, as an upload asks for them, delivers the nearest of all peers
      that can be reached, on every network in which reachable peers of the same id reply the
      same, if and only if the search of the routing table repeats no peer. */
  lemma FindNodeIff(own: HashID, bs: seq<seq<Peer>>, target: HashID)
    requires WellPlaced(own, bs) && BucketIndex(Xor(own, target)) < |bs|
    ensures AlwaysFindsNearest(L.Initial(Some(own), bs, target), target, K_VALUE) <==>
            NoRepetition(own, bs, target, K_VALUE)
  {
    FindsNearestIff(L.Initial(Some(own), bs, target), target, K_VALUE);
    StartDistinctIff(own, bs, target);
  }
}
