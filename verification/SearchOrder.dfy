/** Exactly when find_closest_peers (src/bucket.c) returns the closest known peers. */
module SearchOrder {
  import opened Buckets
  import opened Ids
  import opened Nearest
  import opened Sets

  // ---------- the order in which buckets are visited ----------

  /** The buckets visited from distance `off` of bucket b on, in a table of n buckets. */
  function Visit(b: nat, n: nat, off: nat): (order: seq<nat>)
    requires b < n && off > 0
    decreases if off < n then n - off else 0
  {
    if b < off && b + off >= n then []
    else
      var rest := Visit(b, n, off + 1);
      Before(b - off, n, Before(b + off, n, rest))
  }

  /** Bucket j, if it exists, and then the others. */
  function Before(j: int, n: nat, rest: seq<nat>): seq<nat> {
    if 0 <= j < n then [j] + rest else rest
  }

  /** b, b-1, b+1, b-2, b+2, ... */
  function Order(b: nat, n: nat): seq<nat>
    requires b < n
  {
    [b] + Visit(b, n, 1)
  }

  /** The place of bucket j in that order, if every bucket existed. */
  function Place(b: nat, j: nat): nat {
    if j <= b then 2 * (b - j) else 2 * (j - b) + 1
  }

  /** The buckets of `order` have increasing places, from `lo` on. */
  ghost predicate Increasing(b: nat, order: seq<nat>, lo: nat)
    decreases |order|
  {
    order != [] ==> Place(b, order[0]) >= lo && Increasing(b, order[1..], Place(b, order[0]) + 1)
  }

  lemma {:induction false} IncreasingAt(b: nat, order: seq<nat>, lo: nat, i: nat, l: nat)
    requires Increasing(b, order, lo) && i < l < |order|
    ensures lo <= Place(b, order[i]) < Place(b, order[l])
    decreases |order|
  {
    var first, rest := Place(b, order[0]), order[1..];
    if i > 0 {
      IncreasingAt(b, rest, first + 1, i - 1, l - 1);
    } else if l > 1 {
      IncreasingAt(b, rest, first + 1, 0, l - 1);
    }
  }

  lemma IncreasingFrom(b: nat, order: seq<nat>, lo: nat, lo': nat)
    requires Increasing(b, order, lo) && lo' <= lo
    ensures Increasing(b, order, lo')
  {
  }

  lemma Prepend(b: nat, j: nat, rest: seq<nat>, lo: nat)
    requires Increasing(b, rest, Place(b, j) + 1) && Place(b, j) >= lo
    ensures Increasing(b, [j] + rest, lo)
  {
    assert ([j] + rest)[1..] == rest;
  }

  lemma {:induction false} VisitIncreasing(b: nat, n: nat, off: nat)
    requires b < n && off > 0
    ensures Increasing(b, Visit(b, n, off), 2 * off)
    decreases if off < n then n - off else 0
  {
    if b >= off || b + off < n {
      VisitIncreasing(b, n, off + 1);
      RoundIncreasing(b, n, off, Visit(b, n, off + 1));
    }
  }

  lemma RoundIncreasing(b: nat, n: nat, off: nat, rest: seq<nat>)
    requires off > 0 && Increasing(b, rest, 2 * off + 2)
    ensures var above := if b + off < n then [b + off] + rest else rest;
            Increasing(b, if b >= off then [b - off] + above else above, 2 * off)
  {
    var above := if b + off < n then [b + off] + rest else rest;
    if b + off < n {
      Prepend(b, b + off, rest, 2 * off + 1);
    } else {
      IncreasingFrom(b, rest, 2 * off + 2, 2 * off + 1);
    }
    if b >= off {
      Prepend(b, b - off, above, 2 * off);
    } else {
      IncreasingFrom(b, above, 2 * off + 1, 2 * off);
    }
  }

  lemma {:induction false} VisitHas(b: nat, n: nat, off: nat, j: nat)
    requires b < n && off > 0 && j < n && Place(b, j) >= 2 * off
    ensures j in Visit(b, n, off)
    decreases if off < n then n - off else 0
  {
    if Place(b, j) >= 2 * off + 2 {
      VisitHas(b, n, off + 1, j);
    }
  }

  lemma {:induction false} VisitInTable(b: nat, n: nat, off: nat, i: nat)
    requires b < n && off > 0 && i < |Visit(b, n, off)|
    ensures Visit(b, n, off)[i] < n
    decreases if off < n then n - off else 0
  {
    var before := (if b >= off then 1 else 0) + (if b + off < n then 1 else 0);
    if i >= before {
      VisitInTable(b, n, off + 1, i - before);
    }
  }

  /** Every bucket is visited, and none twice. */
  lemma OrderIs(b: nat, n: nat)
    requires b < n
    ensures Increasing(b, Order(b, n), 0)
    ensures forall i: nat | i < |Order(b, n)| :: Order(b, n)[i] < n
    ensures forall j: nat | j < n :: j in Order(b, n)
  {
    VisitIncreasing(b, n, 1);
    IncreasingFrom(b, Visit(b, n, 1), 2, 1);
    Prepend(b, b, Visit(b, n, 1), 0);
    forall i: nat | i < |Order(b, n)| ensures Order(b, n)[i] < n {
      if i > 0 {
        VisitInTable(b, n, 1, i - 1);
      }
    }
    forall j: nat | j < n ensures j in Order(b, n) {
      if j != b {
        VisitHas(b, n, 1, j);
      }
    }
  }

  // ---------- what is gathered on the way ----------

  ghost predicate InTable(bs: seq<seq<Peer>>, order: seq<nat>) {
    forall i: nat | i < |order| :: order[i] < |bs|
  }

  /** The find_nearest calls on the buckets of `order`, after acc. */
  ghost function Gather(bs: seq<seq<Peer>>, order: seq<nat>, target: HashID, n: nat, acc: seq<Peer>): (r: seq<Peer>)
    requires |acc| <= n
    decreases |order|
  {
    if order == [] then acc
    else Gather(bs, order[1..], target, n, Take(bs, order[0], target, n, acc))
  }

  lemma {:induction false} GatherFull(bs: seq<seq<Peer>>, order: seq<nat>, target: HashID, n: nat, acc: seq<Peer>)
    requires |acc| == n
    ensures Gather(bs, order, target, n, acc) == acc
    decreases |order|
  {
    if order != [] {
      assert Take(bs, order[0], target, n, acc) == acc;
      GatherFull(bs, order[1..], target, n, acc);
    }
  }

  /** One find_nearest call of the outward search, on bucket j if it exists. */
  lemma GatherNext(bs: seq<seq<Peer>>, j: int, order: seq<nat>, rest: seq<nat>, target: HashID, n: nat, acc: seq<Peer>)
    requires |acc| <= n && order == Before(j, |bs|, rest)
    ensures Gather(bs, order, target, n, acc) == Gather(bs, rest, target, n, Take(bs, j, target, n, acc))
  {
    if 0 <= j < |bs| {
      assert order[1..] == rest;
    }
  }

  /** One round of the outward search. */
  lemma GatherRound(bs: seq<seq<Peer>>, below: int, order: seq<nat>, above: int, rest: seq<nat>, last: seq<nat>,
                    target: HashID, n: nat, acc: seq<Peer>, first: seq<Peer>, second: seq<Peer>)
    requires |acc| <= n && first == Take(bs, below, target, n, acc) && second == Take(bs, above, target, n, first)
    requires order == Before(below, |bs|, rest) && rest == Before(above, |bs|, last)
    ensures Gather(bs, order, target, n, acc) == Gather(bs, last, target, n, second)
  {
    GatherNext(bs, below, order, rest, target, n, acc);
    GatherNext(bs, above, rest, last, target, n, first);
  }

  lemma {:induction false} OutwardGathers(bs: seq<seq<Peer>>, b: nat, target: HashID, n: nat, acc: seq<Peer>, off: nat)
    requires b < |bs| && |acc| <= n && off > 0
    ensures Outward(bs, b, target, n, acc, off) == Gather(bs, Visit(b, |bs|, off), target, n, acc)
    decreases if off < |bs| then |bs| - off else 0
  {
    if |acc| == n {
      GatherFull(bs, Visit(b, |bs|, off), target, n, acc);
    } else if b >= off || b + off < |bs| {
      var second := Take(bs, b + off, target, n, Take(bs, b - off, target, n, acc));
      var rest := Visit(b, |bs|, off + 1);
      GatherRound(bs, b - off, Visit(b, |bs|, off), b + off, Before(b + off, |bs|, rest), rest, target, n, acc,
                  Take(bs, b - off, target, n, acc), second);
      OutwardRound(bs, b, target, n, acc, off);
      OutwardGathers(bs, b, target, n, second, off + 1);
    }
  }

  lemma SearchGathers(bs: seq<seq<Peer>>, b: nat, target: HashID, n: nat, order: seq<nat>)
    requires b < |bs| && order == Order(b, |bs|)
    ensures Search(bs, b, target, n) == Gather(bs, order, target, n, [])
  {
    assert order[1..] == Visit(b, |bs|, 1);
    assert Take(bs, b, target, n, []) == Select(bs[b], target, n);
    OutwardGathers(bs, b, target, n, Select(bs[b], target, n), 1);
  }

  /** All peers of the buckets of `order`. */
  ghost function Whole(bs: seq<seq<Peer>>, order: seq<nat>): seq<Peer>
    requires InTable(bs, order)
    decreases |order|
  {
    if order == [] then [] else bs[order[0]] + Whole(bs, order[1..])
  }

  /** The n-th peer on the way is in the m-th bucket: the buckets before it do not fill the
      result, and with it they do. */
  ghost predicate CutAt(bs: seq<seq<Peer>>, order: seq<nat>, n: nat, m: nat)
    requires InTable(bs, order)
  {
    m < |order| && |Whole(bs, order[..m])| < n <= |Whole(bs, order[..m])| + |bs[order[m]]|
  }

  lemma {:induction false} CutExists(bs: seq<seq<Peer>>, order: seq<nat>, n: nat)
    requires InTable(bs, order) && 0 < n <= |Whole(bs, order)|
    ensures exists m: nat :: CutAt(bs, order, n, m)
    decreases |order|
  {
    var size := |bs[order[0]]|;
    if n <= size {
      assert CutAt(bs, order, n, 0);
    } else {
      CutExists(bs, order[1..], n - size);
      var m: nat :| CutAt(bs, order[1..], n - size, m);
      assert order[..m + 1][1..] == order[1..][..m];
      assert CutAt(bs, order, n, m + 1);
    }
  }

  lemma {:induction false} GatherWhole(bs: seq<seq<Peer>>, order: seq<nat>, target: HashID, n: nat, acc: seq<Peer>)
    requires InTable(bs, order) && |acc| + |Whole(bs, order)| <= n
    ensures Gather(bs, order, target, n, acc) == acc + Whole(bs, order)
    decreases |order|
  {
    if order != [] {
      SelectAll(bs[order[0]], target, n - |acc|);
      GatherWhole(bs, order[1..], target, n, acc + bs[order[0]]);
      Associative(acc, bs[order[0]], Whole(bs, order[1..]));
    }
  }

  lemma {:induction false} GatherConcat(bs: seq<seq<Peer>>, a: seq<nat>, b: seq<nat>, target: HashID, n: nat,
                                        acc: seq<Peer>)
    requires |acc| <= n
    ensures |Gather(bs, a, target, n, acc)| <= n
    ensures Gather(bs, a + b, target, n, acc) == Gather(bs, b, target, n, Gather(bs, a, target, n, acc))
    decreases |a|
  {
    if a == [] {
      assert a + b == b;
    } else {
      assert (a + b)[1..] == a[1..] + b;
      GatherConcat(bs, a[1..], b, target, n, Take(bs, a[0], target, n, acc));
    }
  }

  lemma GatherLast(bs: seq<seq<Peer>>, j: nat, rest: seq<nat>, target: HashID, n: nat, acc: seq<Peer>)
    requires j < |bs| && |acc| <= n <= |acc| + |bs[j]|
    ensures Gather(bs, [j] + rest, target, n, acc) == acc + Select(bs[j], target, n - |acc|)
  {
    assert ([j] + rest)[1..] == rest;
    GatherFull(bs, rest, target, n, Take(bs, j, target, n, acc));
  }

  /** The buckets before the cut are taken whole, and find_nearest selects the rest. */
  lemma GatherCut(bs: seq<seq<Peer>>, order: seq<nat>, target: HashID, n: nat, m: nat, whole: seq<Peer>)
    requires InTable(bs, order) && CutAt(bs, order, n, m) && whole == Whole(bs, order[..m])
    ensures Gather(bs, order, target, n, []) == whole + Select(bs[order[m]], target, n - |whole|)
  {
    var before, rest := order[..m], order[m + 1..];
    assert order == before + ([order[m]] + rest);
    GatherConcat(bs, before, [order[m]] + rest, target, n, []);
    GatherWhole(bs, before, target, n, []);
    assert [] + whole == whole;
    GatherLast(bs, order[m], rest, target, n, whole);
  }

  // ---------- when the result is the n closest peers ----------

  lemma {:induction false} WholeMember(bs: seq<seq<Peer>>, order: seq<nat>, p: Peer)
    requires InTable(bs, order)
    ensures p in Whole(bs, order) <==> exists i: nat :: i < |order| && p in bs[order[i]]
    decreases |order|
  {
    if order != [] {
      WholeMember(bs, order[1..], p);
      if exists i: nat :: i < |order| && p in bs[order[i]] {
        var i: nat :| i < |order| && p in bs[order[i]];
        assert i > 0 ==> order[1..][i - 1] == order[i];
      }
    }
  }

  lemma {:induction false} WholeDistinct(own: HashID, bs: seq<seq<Peer>>, b: nat, order: seq<nat>, lo: nat)
    requires WellPlaced(own, bs) && InTable(bs, order) && Increasing(b, order, lo)
    ensures DistinctIds(Whole(bs, order))
    decreases |order|
  {
    if order != [] {
      var first, rest := bs[order[0]], order[1..];
      WholeDistinct(own, bs, b, rest, Place(b, order[0]) + 1);
      assert PlacedAt(own, first, order[0]);
      forall p, q | p in first && q in Whole(bs, rest) ensures p.id != q.id {
        WholeMember(bs, rest, q);
        var i: nat :| i < |rest| && q in bs[rest[i]];
        IncreasingAt(b, order, lo, 0, i + 1);
        InOneBucket(own, bs, order[0], p, rest[i], q);
      }
      DistinctConcat(first, Whole(bs, rest));
    }
  }

  /** The bucket visited i-th gives peers to the result, and the one visited l-th has peers
      that are left out. */
  ghost predicate Divided(bs: seq<seq<Peer>>, order: seq<nat>, n: nat, m: nat, i: nat, l: nat)
    requires InTable(bs, order) && CutAt(bs, order, n, m)
  {
    && i <= m <= l < |order| && i < l && bs[order[i]] != [] && bs[order[l]] != []
    && (l == m ==> n < |Whole(bs, order[..m])| + |bs[order[m]]|)
  }

  /** Of two buckets that the end of the result divides, the one visited first is ahead. */
  ghost predicate InOrder(bs: seq<seq<Peer>>, order: seq<nat>, d: HashID, n: nat, m: nat)
    requires InTable(bs, order) && CutAt(bs, order, n, m)
  {
    forall i: nat, l: nat {:trigger Divided(bs, order, n, m, i, l)} | Divided(bs, order, n, m, i, l) ::
      Ahead(d, order[i], order[l])
  }

  /** The leading bits of known peers' distances order the peers of different buckets. */
  lemma AheadDecides(own: HashID, bs: seq<seq<Peer>>, target: HashID, j: nat, p: Peer, l: nat, q: Peer)
    requires WellPlaced(own, bs) && j < |bs| && l < |bs| && p in bs[j] && q in bs[l] && j != l
    ensures Closer(p.id, q.id, target) <==> Ahead(Xor(own, target), j, l)
  {
    assert PlacedAt(own, bs[j], j) && PlacedAt(own, bs[l], l);
    BucketsOrderCloseness(own, target, p.id, j, q.id, l);
  }

  // One search from bucket b for n peers: the cut is at the m-th bucket of `order`, `whole` are
  // the peers before it, and `part` is the selection from the bucket at the cut.
  datatype Walk = Walk(own: HashID, bs: seq<seq<Peer>>, b: nat, order: seq<nat>, target: HashID, n: nat, m: nat,
                       whole: seq<Peer>, part: seq<Peer>)

  /** The result: the buckets before the cut, and a correct selection from the one at the cut. */
  ghost predicate CutResult(w: Walk) {
    && WellPlaced(w.own, w.bs)
    && Increasing(w.b, w.order, 0) && (forall j: nat | j < |w.bs| :: j in w.order)
    && InTable(w.bs, w.order) && CutAt(w.bs, w.order, w.n, w.m) && w.whole == Whole(w.bs, w.order[..w.m])
    && IsKNearest(w.part, w.bs[w.order[w.m]], w.target, w.n - |w.whole|)
  }

  /** Where a known peer that is not in the result comes from. */
  lemma LeftOut(w: Walk, p: Peer) returns (l: nat)
    requires CutResult(w)
    requires p in All(w.bs) && p !in w.whole && p !in w.part
    ensures w.m <= l < |w.order| && p in w.bs[w.order[l]]
    ensures l == w.m ==> w.n < |w.whole| + |w.bs[w.order[w.m]]|
  {
    FlatMember(w.bs, 0, |w.bs|, p);
    var j: nat :| j < |w.bs| && p in w.bs[j];
    assert j in w.order;
    l :| 0 <= l < |w.order| && w.order[l] == j;
    if l < w.m {
      MemberOfWhole(w.bs, w.order, w.m, l, p);
    }
    if l == w.m {
      assert PlacedAt(w.own, w.bs[j], j);
      WholePart(w.bs[j], w.part, w.target, w.n - |w.whole|);
    }
  }

  lemma WholePart(bucket: seq<Peer>, part: seq<Peer>, target: HashID, k: nat)
    requires IsKNearest(part, bucket, target, k) && DistinctIds(bucket)
    ensures k >= |bucket| ==> forall p | p in bucket :: p in part
  {
    DistinctCount(part);
    DistinctCount(bucket);
    if k >= |bucket| {
      SubsetSize(Elements(part), Elements(bucket));
      forall p | p in bucket ensures p in part {
        assert p in Elements(part);
      }
    }
  }

  /** If the buckets are in order, no peer that is left out is closer than one in the result. */
  lemma InOrderSuffices(w: Walk, x: Peer, p: Peer)
    requires CutResult(w)
    requires InOrder(w.bs, w.order, Xor(w.own, w.target), w.n, w.m)
    requires x in w.whole + w.part && p in All(w.bs) && p !in w.whole && p !in w.part
    ensures Closer(x.id, p.id, w.target)
  {
    var l := LeftOut(w, p);
    var i := TakenFrom(w, x);
    if i < l {
      assert Divided(w.bs, w.order, w.n, w.m, i, l);
      IncreasingAt(w.b, w.order, 0, i, l);
      AheadDecides(w.own, w.bs, w.target, w.order[i], x, w.order[l], p);
    } else {
      assert i == w.m == l;
      if x in w.whole {
        TakenBefore(w, x);
      }
      assert x in Elements(w.part) && p in Elements(w.bs[w.order[w.m]]) - Elements(w.part);
    }
  }

  /** Where a peer of the result comes from. */
  lemma TakenFrom(w: Walk, x: Peer) returns (i: nat)
    requires CutResult(w)
    requires x in w.whole + w.part
    ensures i <= w.m && x in w.bs[w.order[i]]
    ensures x in w.part ==> i == w.m
  {
    if x in w.part {
      assert x in Elements(w.part);
      i := w.m;
    } else {
      WholeMember(w.bs, w.order[..w.m], x);
      i :| 0 <= i < |w.order[..w.m]| && x in w.bs[w.order[..w.m][i]];
    }
  }

  lemma TakenBefore(w: Walk, x: Peer)
    requires CutResult(w) && x in w.whole
    ensures x !in w.bs[w.order[w.m]]
  {
    WholeMember(w.bs, w.order[..w.m], x);
    var i: nat :| i < w.m && x in w.bs[w.order[..w.m][i]];
    IncreasingAt(w.b, w.order, 0, i, w.m);
    if x in w.bs[w.order[w.m]] {
      InOneBucket(w.own, w.bs, w.order[i], x, w.order[w.m], x);
    }
  }

  lemma MemberOfWhole(bs: seq<seq<Peer>>, order: seq<nat>, m: nat, i: nat, x: Peer)
    requires InTable(bs, order) && i < m <= |order| && x in bs[order[i]]
    ensures x in Whole(bs, order[..m])
  {
    WholeMember(bs, order[..m], x);
    assert order[..m][i] == order[i];
  }

  /** A bucket that gives peers gives one of its peers. */
  lemma SomeTaken(w: Walk, i: nat) returns (x: Peer)
    requires CutResult(w)
    requires i <= w.m && w.bs[w.order[i]] != []
    ensures x in w.whole + w.part && x in w.bs[w.order[i]]
  {
    if i < w.m {
      x := w.bs[w.order[i]][0];
      MemberOfWhole(w.bs, w.order, w.m, i, x);
    } else {
      x := w.part[0];
      assert x in Elements(w.part);
    }
  }

  lemma SomeMissing(bucket: seq<Peer>, part: seq<Peer>) returns (p: Peer)
    requires DistinctIds(bucket) && DistinctIds(part) && |part| < |bucket|
    ensures p in bucket && p !in part
  {
    DistinctCount(part);
    DistinctCount(bucket);
    if Elements(bucket) <= Elements(part) {
      SubsetSize(Elements(bucket), Elements(part));
    }
    p :| p in Elements(bucket) && p !in Elements(part);
  }

  /** A bucket that is not taken whole leaves out one of its peers. */
  lemma SomeLeftOut(w: Walk, l: nat) returns (p: Peer)
    requires CutResult(w)
    requires w.m <= l < |w.order| && w.bs[w.order[l]] != []
    requires l == w.m ==> w.n < |w.whole| + |w.bs[w.order[w.m]]|
    ensures p !in w.whole && p !in w.part && p in w.bs[w.order[l]]
  {
    var bucket := w.bs[w.order[l]];
    assert PlacedAt(w.own, bucket, w.order[l]);
    if l == w.m {
      p := SomeMissing(bucket, w.part);
    } else {
      p := bucket[0];
      if p in w.part {
        assert p in Elements(w.part);
        IncreasingAt(w.b, w.order, 0, w.m, l);
        InOneBucket(w.own, w.bs, w.order[w.m], p, w.order[l], p);
      }
    }
    if p in w.whole {
      WholeMember(w.bs, w.order[..w.m], p);
      var i: nat :| i < w.m && p in w.bs[w.order[..w.m][i]];
      IncreasingAt(w.b, w.order, 0, i, l);
      InOneBucket(w.own, w.bs, w.order[i], p, w.order[l], p);
    }
  }

  /** If the result is nearest, the buckets are in order. */
  lemma InOrderNecessary(w: Walk)
    requires CutResult(w)
    requires NearestIn(Elements(w.whole + w.part), Elements(All(w.bs)), w.target)
    ensures InOrder(w.bs, w.order, Xor(w.own, w.target), w.n, w.m)
  {
    forall i: nat, l: nat | Divided(w.bs, w.order, w.n, w.m, i, l)
      ensures Ahead(Xor(w.own, w.target), w.order[i], w.order[l])
    {
      var x := SomeTaken(w, i);
      var p := SomeLeftOut(w, l);
      FlatMember(w.bs, 0, |w.bs|, p);
      assert x in Elements(w.whole + w.part) && p in Elements(All(w.bs)) - Elements(w.whole + w.part);
      IncreasingAt(w.b, w.order, 0, i, l);
      AheadDecides(w.own, w.bs, w.target, w.order[i], x, w.order[l], p);
    }
  }

  /** The ids in the result are different. */
  lemma ResultDistinct(w: Walk)
    requires CutResult(w)
    ensures DistinctIds(w.whole + w.part)
  {
    PrefixIncreasing(w.b, w.order, 0, w.m);
    WholeDistinct(w.own, w.bs, w.b, w.order[..w.m], 0);
    forall x, y | x in w.whole && y in w.part ensures x.id != y.id {
      assert y in Elements(w.part);
      WholeMember(w.bs, w.order[..w.m], x);
      var i: nat :| i < w.m && x in w.bs[w.order[..w.m][i]];
      IncreasingAt(w.b, w.order, 0, i, w.m);
      InOneBucket(w.own, w.bs, w.order[i], x, w.order[w.m], y);
    }
    DistinctConcat(w.whole, w.part);
  }

  lemma {:induction false} PrefixIncreasing(b: nat, order: seq<nat>, lo: nat, m: nat)
    requires Increasing(b, order, lo) && m <= |order|
    ensures Increasing(b, order[..m], lo)
    decreases |order|
  {
    if m > 0 {
      assert order[..m][1..] == order[1..][..m - 1];
      PrefixIncreasing(b, order[1..], Place(b, order[0]) + 1, m - 1);
    }
  }

  lemma DuplicateInSuffix(a: seq<Peer>, b: seq<Peer>)
    requires !DistinctIds(b)
    ensures !DistinctIds(a + b)
  {
    var i: nat, j: nat :| i < j < |b| && b[i].id == b[j].id;
    assert (a + b)[|a| + i].id == (a + b)[|a| + j].id;
  }

  lemma CutNearestIff(w: Walk)
    requires CutResult(w)
    requires Elements(w.whole + w.part) <= Elements(All(w.bs))
    ensures NearestIn(Elements(w.whole + w.part), Elements(All(w.bs)), w.target) <==>
            InOrder(w.bs, w.order, Xor(w.own, w.target), w.n, w.m)
  {
    if InOrder(w.bs, w.order, Xor(w.own, w.target), w.n, w.m) {
      forall x, p | x in Elements(w.whole + w.part) && p in Elements(All(w.bs)) - Elements(w.whole + w.part)
        ensures Closer(x.id, p.id, w.target)
      {
        InOrderSuffices(w, x, p);
      }
    }
    if NearestIn(Elements(w.whole + w.part), Elements(All(w.bs)), w.target) {
      InOrderNecessary(w);
    }
  }

  lemma SelectionIff(w: Walk)
    requires CutResult(w)
    requires Elements(w.whole + w.part) <= Elements(All(w.bs)) && w.n <= |All(w.bs)|
    ensures IsKNearest(w.whole + w.part, All(w.bs), w.target, w.n) <==>
            InOrder(w.bs, w.order, Xor(w.own, w.target), w.n, w.m)
  {
    ResultDistinct(w);
    CutNearestIff(w);
  }

  /** What the search gives: the buckets before the cut, and what find_nearest selects. */
  ghost predicate Gathered(w: Walk) {
    && WellPlaced(w.own, w.bs)
    && Increasing(w.b, w.order, 0) && (forall j: nat | j < |w.bs| :: j in w.order)
    && InTable(w.bs, w.order) && CutAt(w.bs, w.order, w.n, w.m) && w.whole == Whole(w.bs, w.order[..w.m])
    && w.part == Select(w.bs[w.order[w.m]], w.target, w.n - |w.whole|)
  }

  /** find_nearest is right on the bucket at the cut. */
  ghost predicate GentleAtCut(w: Walk) {
    && w.m < |w.order| && w.order[w.m] < |w.bs| && |w.whole| <= w.n
    && Gentle(w.bs[w.order[w.m]], w.target, w.n - |w.whole|)
  }

  /** Of any two buckets that the cut divides, the one visited first is ahead. */
  ghost predicate OrderedAtCut(w: Walk) {
    && InTable(w.bs, w.order) && CutAt(w.bs, w.order, w.n, w.m)
    && InOrder(w.bs, w.order, Xor(w.own, w.target), w.n, w.m)
  }

  lemma GentleSelects(w: Walk)
    requires Gathered(w)
    ensures GentleAtCut(w) ==> CutResult(w)
    ensures !GentleAtCut(w) ==> !DistinctIds(w.part)
  {
    assert PlacedAt(w.own, w.bs[w.order[w.m]], w.order[w.m]);
    SelectsKNearestIff(w.bs[w.order[w.m]], w.target, w.n - |w.whole|);
  }

  lemma GatheredDistinctIff(w: Walk, r: seq<Peer>)
    requires Gathered(w) && r == w.whole + w.part
    ensures DistinctIds(r) <==> GentleAtCut(w)
  {
    GentleSelects(w);
    if GentleAtCut(w) {
      ResultDistinct(w);
    } else {
      DuplicateInSuffix(w.whole, w.part);
    }
  }

  lemma GatheredIff(w: Walk, r: seq<Peer>)
    requires Gathered(w) && r == w.whole + w.part
    requires Elements(r) <= Elements(All(w.bs)) && w.n <= |All(w.bs)|
    ensures IsKNearest(r, All(w.bs), w.target, w.n) <==> GentleAtCut(w) && OrderedAtCut(w)
  {
    GatheredDistinctIff(w, r);
    GentleSelects(w);
    if GentleAtCut(w) {
      SelectionIff(w);
    }
  }

  /** r is the result of the search for the n peers closest to the target from bucket b on, with
      the cut at the m-th bucket that it visits. */
  ghost predicate IsSearch(w: Walk, r: seq<Peer>) {
    && WellPlaced(w.own, w.bs) && w.b < |w.bs| && w.order == Order(w.b, |w.bs|)
    && InTable(w.bs, w.order) && CutAt(w.bs, w.order, w.n, w.m) && w.whole == Whole(w.bs, w.order[..w.m])
    && w.part == Select(w.bs[w.order[w.m]], w.target, w.n - |w.whole|)
    && r == Search(w.bs, w.b, w.target, w.n)
  }

  lemma SearchIsWalk(w: Walk, r: seq<Peer>)
    requires IsSearch(w, r)
    ensures Gathered(w) && r == w.whole + w.part
  {
    OrderIs(w.b, |w.bs|);
    SearchGathers(w.bs, w.b, w.target, w.n, w.order);
    GatherCut(w.bs, w.order, w.target, w.n, w.m, w.whole);
  }

  lemma SearchStays(w: Walk, r: seq<Peer>)
    requires IsSearch(w, r)
    ensures Elements(r) <= Elements(All(w.bs)) && w.n <= |All(w.bs)|
  {
    SearchIsWalk(w, r);
    SearchFills(w.bs, w.b, w.target, w.n);
  }

  /** When more peers are known than fit, the result is the n closest known peers if and only
      if find_nearest is right on the bucket at the cut and the buckets that the cut divides
      are visited in order. The cut depends on the sizes of the buckets only. */
  lemma ClosestIff(w: Walk, r: seq<Peer>)
    requires IsSearch(w, r)
    ensures IsKNearest(r, All(w.bs), w.target, w.n) <==> GentleAtCut(w) && OrderedAtCut(w)
  {
    SearchIsWalk(w, r);
    SearchStays(w, r);
    GatheredIff(w, r);
  }

  /** No peer is returned twice if and only if find_nearest is right on the bucket at the cut. */
  lemma NoRepetitionIff(w: Walk, r: seq<Peer>)
    requires IsSearch(w, r)
    ensures DistinctIds(r) <==> GentleAtCut(w)
  {
    SearchIsWalk(w, r);
    GatheredDistinctIff(w, r);
  }

  /** When at most n peers are known, each is returned once. */
  lemma SearchFindsAll(own: HashID, bs: seq<seq<Peer>>, b: nat, target: HashID, n: nat)
    requires WellPlaced(own, bs) && b < |bs| && |All(bs)| <= n
    ensures IsKNearest(Search(bs, b, target, n), All(bs), target, n)
  {
    var order := Order(b, |bs|);
    OrderIs(b, |bs|);
    var whole := Whole(bs, order);
    WholeIsAll(own, bs, b);
    TableIdsDistinct(own, bs, 0, |bs|);
    DistinctCount(All(bs));
    DistinctCount(whole);
    SearchGathers(bs, b, target, n, order);
    GatherWhole(bs, order, target, n, []);
    assert [] + whole == whole;
  }

  lemma WholeIsAll(own: HashID, bs: seq<seq<Peer>>, b: nat)
    requires WellPlaced(own, bs) && b < |bs|
    ensures InTable(bs, Order(b, |bs|))
    ensures var whole := Whole(bs, Order(b, |bs|)); DistinctIds(whole) && Elements(whole) == Elements(All(bs))
  {
    var order := Order(b, |bs|);
    OrderIs(b, |bs|);
    WholeDistinct(own, bs, b, order, 0);
    forall p: Peer ensures p in Whole(bs, order) <==> p in All(bs) {
      WholeMember(bs, order, p);
      FlatMember(bs, 0, |bs|, p);
      if p in All(bs) {
        var j: nat :| j < |bs| && p in bs[j];
        assert j in order;
        var i: nat :| i < |order| && order[i] == j;
      }
    }
  }

  /** There is a cut whenever n of the known peers are asked for. */
  lemma CutIsThere(own: HashID, bs: seq<seq<Peer>>, b: nat, target: HashID, n: nat) returns (w: Walk)
    requires WellPlaced(own, bs) && b < |bs| && 0 < n <= |All(bs)|
    ensures IsSearch(w, Search(bs, b, target, n))
    ensures w.own == own && w.bs == bs && w.b == b && w.target == target && w.n == n
  {
    var order := Order(b, |bs|);
    OrderIs(b, |bs|);
    SearchGathers(bs, b, target, n, order);
    SearchFills(bs, b, target, n);
    if |Whole(bs, order)| < n {
      GatherWhole(bs, order, target, n, []);
    }
    CutExists(bs, order, n);
    var m: nat :| CutAt(bs, order, n, m);
    var whole := Whole(bs, order[..m]);
    w := Walk(own, bs, b, order, target, n, m, whole, Select(bs[order[m]], target, n - |whole|));
  }

  /** When the target's own bucket fills the result, its being right on that bucket is all
      that is needed: the other buckets are farther. */
  lemma OwnBucketIff(own: HashID, bs: seq<seq<Peer>>, b: nat, target: HashID, n: nat)
    requires WellPlaced(own, bs) && Leads(Xor(own, target), b) && b < |bs|
    requires 0 < n <= |bs[b]|
    ensures IsKNearest(Search(bs, b, target, n), All(bs), target, n) <==> Gentle(bs[b], target, n)
  {
    var order := Order(b, |bs|);
    OrderIs(b, |bs|);
    assert order[..0] == [] && CutAt(bs, order, n, 0);
    ClosestIff(Walk(own, bs, b, order, target, n, 0, [], Select(bs[b], target, n)), Search(bs, b, target, n));
    forall i: nat, l: nat | Divided(bs, order, n, 0, i, l) ensures Ahead(Xor(own, target), order[i], order[l]) {
      IncreasingAt(b, order, 0, 0, l);
      assert PlacedAt(own, bs[order[l]], order[l]) && bs[order[l]][0] in bs[order[l]];
      RankIsAhead(Xor(own, target), b, b, order[l]);
    }
  }
}
