/** The k-buckets (src/bucket.c) as a sequence of peer lists: what an update keeps over every
    run, and what the outward search for the closest peers returns. */
module Buckets {
  import opened Ids
  import opened Nearest
  import opened Options

  const K_VALUE: nat := 4
  const BUCKET_SIZE: nat := K_VALUE

  // ---------- all peers of a range of buckets ----------

  /** The peers of buckets lo to hi - 1. */
  ghost function Flat(bs: seq<seq<Peer>>, lo: nat, hi: nat): seq<Peer>
    requires lo <= hi <= |bs|
    decreases hi - lo
  {
    if lo == hi then [] else Flat(bs, lo, hi - 1) + bs[hi - 1]
  }

  ghost function All(bs: seq<seq<Peer>>): seq<Peer> {
    Flat(bs, 0, |bs|)
  }

  lemma {:induction false} FlatSplits(bs: seq<seq<Peer>>, lo: nat, mid: nat, hi: nat)
    requires lo <= mid <= hi <= |bs|
    ensures Flat(bs, lo, hi) == Flat(bs, lo, mid) + Flat(bs, mid, hi)
    decreases hi - mid
  {
    if mid < hi {
      FlatSplits(bs, lo, mid, hi - 1);
    }
  }

  lemma FlatWidens(bs: seq<seq<Peer>>, lo: nat, hi: nat)
    requires lo <= hi <= |bs|
    ensures lo > 0 ==> Flat(bs, lo - 1, hi) == bs[lo - 1] + Flat(bs, lo, hi)
    ensures hi < |bs| ==> Flat(bs, lo, hi + 1) == Flat(bs, lo, hi) + bs[hi]
  {
    if lo > 0 {
      FlatSplits(bs, lo - 1, lo, hi);
      assert Flat(bs, lo - 1, lo) == bs[lo - 1];
    }
  }

  lemma FlatPart(bs: seq<seq<Peer>>, lo: nat, hi: nat)
    requires lo <= hi <= |bs|
    ensures All(bs) == Flat(bs, 0, lo) + Flat(bs, lo, hi) + Flat(bs, hi, |bs|)
  {
    FlatSplits(bs, 0, lo, hi);
    FlatSplits(bs, 0, hi, |bs|);
  }

  lemma {:induction false} FlatMember(bs: seq<seq<Peer>>, lo: nat, hi: nat, p: Peer)
    requires lo <= hi <= |bs|
    ensures p in Flat(bs, lo, hi) <==> exists j: nat :: lo <= j < hi && p in bs[j]
    decreases hi - lo
  {
    if lo < hi {
      FlatMember(bs, lo, hi - 1, p);
    }
  }

  // ---------- the invariant of the table ----------

  /** Bucket i holds at most BUCKET_SIZE peers, with different ids, whose distance from our
      own id has its leading bit at i. */
  ghost predicate WellPlaced(own: HashID, bs: seq<seq<Peer>>) {
    forall i: nat {:trigger PlacedAt(own, bs[i], i)} | i < |bs| :: PlacedAt(own, bs[i], i)
  }

  ghost predicate PlacedAt(own: HashID, bucket: seq<Peer>, i: nat) {
    && |bucket| <= BUCKET_SIZE
    && DistinctIds(bucket)
    && forall p | p in bucket :: Leads(Xor(own, p.id), i)
  }

  /** No id occurs twice in the whole table, and our own id does not occur. */
  lemma {:induction false} TableIdsDistinct(own: HashID, bs: seq<seq<Peer>>, lo: nat, hi: nat)
    requires WellPlaced(own, bs) && lo <= hi <= |bs|
    ensures DistinctIds(Flat(bs, lo, hi))
    ensures forall p | p in Flat(bs, lo, hi) :: p.id != own
    decreases hi - lo
  {
    if lo < hi {
      TableIdsDistinct(own, bs, lo, hi - 1);
      var front, last := Flat(bs, lo, hi - 1), bs[hi - 1];
      assert PlacedAt(own, last, hi - 1);
      forall p, q | p in front && q in last ensures p.id != q.id {
        FlatMember(bs, lo, hi - 1, p);
        var j: nat :| lo <= j < hi - 1 && p in bs[j];
        InOneBucket(own, bs, j, p, hi - 1, q);
      }
      DistinctConcat(front, last);
      forall q | q in last ensures q.id != own {
        InOneBucket(own, bs, hi - 1, q, hi - 1, q);
      }
    }
  }

  lemma InOneBucket(own: HashID, bs: seq<seq<Peer>>, i: nat, p: Peer, j: nat, q: Peer)
    requires WellPlaced(own, bs) && i < |bs| && j < |bs| && p in bs[i] && q in bs[j]
    ensures p.id == q.id ==> i == j
    ensures p.id != own
  {
    assert PlacedAt(own, bs[i], i) && PlacedAt(own, bs[j], j);
    BucketIndexIs(Xor(own, p.id), i);
    BucketIndexIs(Xor(own, q.id), j);
    NoBucketForOurselves(own, p.id);
  }

  lemma DistinctConcat(a: seq<Peer>, b: seq<Peer>)
    requires DistinctIds(a) && DistinctIds(b)
    requires forall p, q | p in a && q in b :: p.id != q.id
    ensures DistinctIds(a + b)
  {
    forall i: nat, j: nat | i < j < |a + b| ensures (a + b)[i].id != (a + b)[j].id {
      if i < |a| && |a| <= j {
        assert a[i] in a && b[j - |a|] in b;
      }
    }
  }

  // ---------- update_bucket_peers ----------

  /** The table after a peer was seen. None is a failure to find our own id. */
  ghost function Updated(own: Option<HashID>, bs: seq<seq<Peer>>, peer: Peer): seq<seq<Peer>>
    requires own.Some? ==> BucketIndex(Xor(own.value, peer.id)) < |bs|
  {
    if own.None? then bs
    else
      var i := BucketIndex(Xor(own.value, peer.id));
      if i < 0 || HasId(bs[i], peer.id) || |bs[i]| >= BUCKET_SIZE then bs else Added(bs, i, peer)
  }

  function Added(bs: seq<seq<Peer>>, i: nat, peer: Peer): seq<seq<Peer>>
    requires i < |bs|
  {
    bs[i := [peer] + bs[i]]
  }

  ghost predicate HasId(bucket: seq<Peer>, id: HashID) {
    exists p :: p in bucket && p.id == id
  }

  /** u holds every peer of bs, in the same bucket, and no others than those seen. */
  ghost predicate Extends(bs: seq<seq<Peer>>, u: seq<seq<Peer>>, seen: set<Peer>) {
    && |u| == |bs|
    && forall i: nat | i < |bs| :: Elements(bs[i]) <= Elements(u[i]) <= Elements(bs[i]) + seen
  }

  /** An update keeps the invariant and loses no peer. Afterwards a peer other than ourselves
      is known by its id unless its bucket is full. */
  lemma UpdateKeepsTable(own: HashID, bs: seq<seq<Peer>>, peer: Peer)
    requires WellPlaced(own, bs) && BucketIndex(Xor(own, peer.id)) < |bs|
    ensures var u := Updated(Some(own), bs, peer);
            && WellPlaced(own, u) && Extends(bs, u, {peer})
            && (peer.id != own ==>
                  var i := BucketIndex(Xor(own, peer.id));
                  0 <= i < |bs| && (HasId(u[i], peer.id) || |u[i]| == BUCKET_SIZE))
  {
    var i := BucketIndex(Xor(own, peer.id));
    NoBucketForOurselves(own, peer.id);
    if i >= 0 {
      assert PlacedAt(own, bs[i], i);
      var u := Updated(Some(own), bs, peer);
      if u != bs {
        AddedIsPlaced(own, bs[i], peer, i);
        assert u[i] == [peer] + bs[i] && peer in u[i];
        forall j: nat | j < |bs| ensures PlacedAt(own, u[j], j) {
          assert PlacedAt(own, bs[j], j);
        }
      }
    }
  }

  /** The peer goes to the front of the bucket of its distance, if it is not ourselves, has no namesake
      there, and finds fewer than four; otherwise nothing changes. */
  lemma UpdatedIs(own: HashID, bs: seq<seq<Peer>>, peer: Peer, i: nat)
    requires BucketIndex(Xor(own, peer.id)) < |bs|
    ensures peer.id == own ==> Updated(Some(own), bs, peer) == bs
    ensures peer.id != own && i < |bs| && Leads(Xor(own, peer.id), i) ==>
              Updated(Some(own), bs, peer) ==
              if |bs[i]| < 4 && forall q | q in bs[i] :: q.id != peer.id then bs[i := [peer] + bs[i]] else bs
    ensures Updated(None, bs, peer) == bs
  {
    NoBucketForOurselves(own, peer.id);
    if peer.id != own && Leads(Xor(own, peer.id), i) {
      BucketIndexIs(Xor(own, peer.id), i);
    }
  }

  lemma AddedIsPlaced(own: HashID, bucket: seq<Peer>, peer: Peer, i: nat)
    requires PlacedAt(own, bucket, i) && |bucket| < BUCKET_SIZE
    requires !HasId(bucket, peer.id) && Leads(Xor(own, peer.id), i)
    ensures PlacedAt(own, [peer] + bucket, i)
    ensures Elements([peer] + bucket) == {peer} + Elements(bucket)
  {
    forall p | p in bucket ensures p.id != peer.id {}
    DistinctConcat([peer], bucket);
  }

  /** A run of updates: broadcasts and the peers that lookups report. */
  ghost predicate InRange(own: HashID, n: nat, peers: seq<Peer>) {
    forall p {:trigger BucketIndex(Xor(own, p.id))} | p in peers :: BucketIndex(Xor(own, p.id)) < n
  }

  ghost function UpdatedAll(own: HashID, bs: seq<seq<Peer>>, peers: seq<Peer>): (u: seq<seq<Peer>>)
    requires InRange(own, |bs|, peers)
    ensures |u| == |bs|
    decreases |peers|
  {
    if peers == [] then bs
    else
      assert peers[0] in peers;
      UpdatedAll(own, Updated(Some(own), bs, peers[0]), peers[1..])
  }

  ghost function NoPeers(n: nat): seq<seq<Peer>> {
    seq(n, _ => [])
  }

  /** After every run, for any number of buckets: the invariant holds, no id occurs twice, our
      own id does not occur, and what was known before is still known. */
  lemma {:induction false} RunKeepsTable(own: HashID, bs: seq<seq<Peer>>, peers: seq<Peer>)
    requires WellPlaced(own, bs) && InRange(own, |bs|, peers)
    ensures var u := UpdatedAll(own, bs, peers);
            && WellPlaced(own, u) && Extends(bs, u, Elements(peers))
            && DistinctIds(All(u)) && !HasId(All(u), own)
    decreases |peers|
  {
    if peers == [] {
      TableIdsDistinct(own, bs, 0, |bs|);
    } else {
      assert peers[0] in peers;
      var v := Updated(Some(own), bs, peers[0]);
      UpdateKeepsTable(own, bs, peers[0]);
      RunKeepsTable(own, v, peers[1..]);
      ExtendsTwice(bs, v, UpdatedAll(own, v, peers[1..]), {peers[0]}, Elements(peers[1..]));
      assert Elements(peers) == {peers[0]} + Elements(peers[1..]);
    }
  }

  lemma ExtendsTwice(bs: seq<seq<Peer>>, v: seq<seq<Peer>>, u: seq<seq<Peer>>, s: set<Peer>, t: set<Peer>)
    requires Extends(bs, v, s) && Extends(v, u, t)
    ensures Extends(bs, u, s + t)
  {
    forall i: nat | i < |bs| ensures Elements(bs[i]) <= Elements(u[i]) <= Elements(bs[i]) + (s + t) {
      assert Elements(v[i]) <= Elements(u[i]);
    }
  }

  lemma NoPeersWellPlaced(own: HashID, n: nat)
    ensures WellPlaced(own, NoPeers(n)) && All(NoPeers(n)) == []
  {
    if All(NoPeers(n)) != [] {
      FlatMember(NoPeers(n), 0, n, All(NoPeers(n))[0]);
    }
  }

  // ---------- find_closest_peers ----------

  /** One find_nearest call of the search: bucket j fills the places that are left. */
  ghost function Take(bs: seq<seq<Peer>>, j: int, target: HashID, n: nat, acc: seq<Peer>): (r: seq<Peer>)
    requires |acc| <= n
    ensures acc <= r && |r| <= n
  {
    if 0 <= j < |bs| then acc + Select(bs[j], target, n - |acc|) else acc
  }

  /** The outward search from bucket b, once the buckets nearer than `off` have given acc. */
  ghost function Outward(bs: seq<seq<Peer>>, b: nat, target: HashID, n: nat, acc: seq<Peer>, off: nat): (r: seq<Peer>)
    requires b < |bs| && |acc| <= n
    ensures acc <= r && |r| <= n
    decreases if off < |bs| then |bs| - off else 0
  {
    if |acc| < n && (b >= off || b + off < |bs|) then
      var left := Take(bs, b - off, target, n, acc);
      var both := Take(bs, b + off, target, n, left);
      assert acc <= left <= both;
      Outward(bs, b, target, n, both, off + 1)
    else acc
  }

  lemma OutwardRound(bs: seq<seq<Peer>>, b: nat, target: HashID, n: nat, acc: seq<Peer>, off: nat)
    requires b < |bs| && |acc| < n && (b >= off || b + off < |bs|)
    ensures var both := Take(bs, b + off, target, n, Take(bs, b - off, target, n, acc));
            Outward(bs, b, target, n, acc, off) == Outward(bs, b, target, n, both, off + 1)
  {
  }

  ghost function Search(bs: seq<seq<Peer>>, b: nat, target: HashID, n: nat): (r: seq<Peer>)
    requires b < |bs|
    ensures |r| <= n
  {
    Outward(bs, b, target, n, Select(bs[b], target, n), 1)
  }

  /** None is the NULL that the code returns when it does not know its own id, is asked for
      its own id, or finds nobody. */
  ghost function FindClosest(own: Option<HashID>, bs: seq<seq<Peer>>, target: HashID, n: nat): Option<seq<Peer>>
    requires own.Some? ==> BucketIndex(Xor(own.value, target)) < |bs|
  {
    if own.None? then None
    else
      var b := BucketIndex(Xor(own.value, target));
      if b < 0 then None
      else
        var r := Search(bs, b, target, n);
        if r == [] then None else Some(r)
  }

  /** The first bucket inside the window of the buckets nearer than `off`. */
  function Low(b: nat, off: nat): nat {
    if b + 1 >= off then b + 1 - off else 0
  }

  function High(b: nat, off: nat, n: nat): nat {
    if b + off <= n then b + off else n
  }

  function Min(a: nat, b: nat): nat {
    if a < b then a else b
  }

  /** acc holds as many peers of the window as fit. */
  ghost predicate Fills(bs: seq<seq<Peer>>, lo: nat, hi: nat, n: nat, acc: seq<Peer>)
    requires lo <= hi <= |bs|
  {
    && |acc| == Min(n, |Flat(bs, lo, hi)|)
    && Elements(acc) <= Elements(Flat(bs, lo, hi))
  }

  lemma ElementsConcat(a: seq<Peer>, b: seq<Peer>)
    ensures Elements(a + b) == Elements(a) + Elements(b)
  {
  }

  lemma TakeFills(bs: seq<seq<Peer>>, lo: nat, hi: nat, j: int, target: HashID, n: nat, acc: seq<Peer>)
    requires lo <= hi <= |bs| && |acc| <= n && Fills(bs, lo, hi, n, acc)
    ensures j == lo - 1 >= 0 ==> Fills(bs, lo - 1, hi, n, Take(bs, j, target, n, acc))
    ensures j == hi < |bs| ==> Fills(bs, lo, hi + 1, n, Take(bs, j, target, n, acc))
  {
    if 0 <= j < |bs| {
      FlatWidens(bs, lo, hi);
      SelectsFromPeers(bs[j], target, n - |acc|);
      ElementsConcat(acc, Select(bs[j], target, n - |acc|));
      ElementsConcat(bs[j], Flat(bs, lo, hi));
      ElementsConcat(Flat(bs, lo, hi), bs[j]);
    }
  }

  lemma LeftFills(bs: seq<seq<Peer>>, b: nat, target: HashID, n: nat, acc: seq<Peer>, off: nat)
    requires b < |bs| && off > 0 && |acc| <= n
    requires Fills(bs, Low(b, off), High(b, off, |bs|), n, acc)
    ensures Fills(bs, Low(b, off + 1), High(b, off, |bs|), n, Take(bs, b - off, target, n, acc))
  {
    if b >= off {
      TakeFills(bs, Low(b, off), High(b, off, |bs|), b - off, target, n, acc);
    }
  }

  lemma RightFills(bs: seq<seq<Peer>>, b: nat, target: HashID, n: nat, acc: seq<Peer>, off: nat)
    requires b < |bs| && off > 0 && |acc| <= n
    requires Fills(bs, Low(b, off + 1), High(b, off, |bs|), n, acc)
    ensures Fills(bs, Low(b, off + 1), High(b, off + 1, |bs|), n, Take(bs, b + off, target, n, acc))
  {
    if b + off < |bs| {
      TakeFills(bs, Low(b, off + 1), High(b, off, |bs|), b + off, target, n, acc);
    }
  }

  lemma {:induction false} OutwardFills(bs: seq<seq<Peer>>, b: nat, target: HashID, n: nat, acc: seq<Peer>, off: nat)
    requires b < |bs| && off > 0 && |acc| <= n
    requires Fills(bs, Low(b, off), High(b, off, |bs|), n, acc)
    ensures Fills(bs, 0, |bs|, n, Outward(bs, b, target, n, acc, off))
    decreases if off < |bs| then |bs| - off else 0
  {
    if |acc| < n && (b >= off || b + off < |bs|) {
      LeftFills(bs, b, target, n, acc, off);
      RightFills(bs, b, target, n, Take(bs, b - off, target, n, acc), off);
      OutwardFills(bs, b, target, n, Take(bs, b + off, target, n, Take(bs, b - off, target, n, acc)), off + 1);
    } else {
      FillsAtEnd(bs, Low(b, off), High(b, off, |bs|), n, acc);
    }
  }

  lemma FillsAtEnd(bs: seq<seq<Peer>>, lo: nat, hi: nat, n: nat, acc: seq<Peer>)
    requires lo <= hi <= |bs| && Fills(bs, lo, hi, n, acc)
    requires |acc| >= n || (lo == 0 && hi == |bs|)
    ensures Fills(bs, 0, |bs|, n, acc)
  {
    FlatPart(bs, lo, hi);
    ElementsConcat(Flat(bs, 0, lo), Flat(bs, lo, hi));
    ElementsConcat(Flat(bs, 0, lo) + Flat(bs, lo, hi), Flat(bs, hi, |bs|));
  }

  /** The search returns known peers only, and fills min(n, number of known peers) places. */
  lemma SearchFills(bs: seq<seq<Peer>>, b: nat, target: HashID, n: nat)
    requires b < |bs|
    ensures |Search(bs, b, target, n)| == Min(n, |All(bs)|)
    ensures Elements(Search(bs, b, target, n)) <= Elements(All(bs))
  {
    SelectsFromPeers(bs[b], target, n);
    assert Flat(bs, b, b + 1) == bs[b];
    OutwardFills(bs, b, target, n, Select(bs[b], target, n), 1);
  }

  /** It is NULL exactly when our own id is not known or is the target, or there is nothing to find;
      otherwise it holds what the search finds from the bucket of the target on: known peers, as many
      as fit. */
  lemma FindClosestIs(own: Option<HashID>, bs: seq<seq<Peer>>, target: HashID, n: nat)
    requires own.Some? ==> BucketIndex(Xor(own.value, target)) < |bs|
    ensures FindClosest(own, bs, target, n) == None <==>
            own == None || own == Some(target) || n == 0 || All(bs) == []
    ensures forall r | FindClosest(own, bs, target, n) == Some(r) ::
              exists b: nat {:trigger Search(bs, b, target, n)} ::
                && b < |bs| && Leads(Xor(own.value, target), b) && r == Search(bs, b, target, n)
                && |r| == (if |All(bs)| < n then |All(bs)| else n) && Elements(r) <= Elements(All(bs))
  {
    if own.Some? {
      var b := BucketIndex(Xor(own.value, target));
      NoBucketForOurselves(own.value, target);
      if b >= 0 {
        SearchFills(bs, b, target, n);
        assert |Search(bs, b, target, n)| == Min(n, |All(bs)|);
      }
    }
  }

  lemma DistinctSplit(a: seq<Peer>, b: seq<Peer>)
    requires DistinctIds(a + b)
    ensures DistinctIds(a) && DistinctIds(b)
    ensures forall p, q | p in a && q in b :: p.id != q.id
  {
    forall i: nat, j: nat | i < j < |a| ensures a[i].id != a[j].id {
      assert (a + b)[i].id != (a + b)[j].id;
    }
    forall i: nat, j: nat | i < j < |b| ensures b[i].id != b[j].id {
      assert (a + b)[|a| + i].id != (a + b)[|a| + j].id;
    }
    forall i: nat, j: nat | i < |a| && j < |b| ensures a[i].id != b[j].id {
      assert (a + b)[i].id != (a + b)[|a| + j].id;
    }
  }
}
