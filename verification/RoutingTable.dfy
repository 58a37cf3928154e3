/** The routing table of src/bucket.c: an array of peer lists, updated in place. */
module RoutingTable {
  import opened Ids
  import opened Nearest
  import opened Options
  import opened PeerList
  import Buckets

  /** The result array holds xs without gaps from slot 0 on, and NULL after them. */
  ghost predicate Prefilled(out: seq<Option<Peer>>, xs: seq<Peer>) {
    HoldsAt(out, 0, xs) && forall k: nat | |xs| <= k < |out| :: out[k] == None
  }

  class RoutingTable {
    // What get_own_id finds; None when it fails.
    const own: Option<HashID>
    const buckets: seq<DList>

    // The table, its lists and their nodes.
    ghost var Repr: set<object>

    ghost predicate Valid()
      reads this, Repr
    {
      && this in Repr
      && forall i: nat {:trigger buckets[i]} | i < |buckets| :: ListIn(i)
    }

    ghost predicate ListIn(i: nat)
      requires i < |buckets|
      reads this, Repr
    {
      && buckets[i] in Repr && buckets[i].index == i
      && (forall k: nat | k < |buckets[i].nodes| :: buckets[i].nodes[k] in Repr)
      && buckets[i].Valid()
    }

    /** The peers of each bucket, from head to tail. */
    ghost function Lists(): (ls: seq<seq<Peer>>)
      requires Valid()
      reads this, Repr
      ensures |ls| == |buckets|
      ensures forall i: nat | i < |ls| :: ls[i] == buckets[i].Peers()
    {
      seq(|buckets|, i requires 0 <= i < |buckets| && Valid() reads this, Repr => assert ListIn(i); buckets[i].Peers())
    }

    constructor (own: Option<HashID>, count: nat)
      ensures Valid() && this.own == own && |buckets| == count && Lists() == Buckets.NoPeers(count)
      ensures fresh(Repr)
    {
      var bs: seq<DList> := [];
      while |bs| < count
        invariant |bs| <= count && fresh(bs)
        invariant forall i: nat | i < |bs| :: bs[i].Valid() && bs[i].nodes == [] && bs[i].index == i
      {
        var l := new DList(|bs|);
        bs := bs + [l];
      }
      this.own, buckets := own, bs;
      Repr := {this} + set i: nat | i < |bs| :: bs[i];
      new;
      assert forall i: nat | i < count :: ListIn(i) && buckets[i].Peers() == [];
    }

    /** update_bucket_peers. The bucket of the peer must exist. */
    method UpdateBucketPeers(peer: Peer)
      requires Valid()
      requires own.Some? ==> BucketIndex(Xor(own.value, peer.id)) < |buckets|
      modifies Repr
      ensures Valid() && fresh(Repr - old(Repr))
      ensures Lists() == Buckets.Updated(own, old(Lists()), peer)
    {
      ghost var lists := Lists();
      ghost var u := Buckets.Updated(own, lists, peer);
      if own.None? {
        return;
      }
      var i := GetBucketIndex(Xor(own.value, peer.id));
      if i == -1 {
        return;
      }
      var known := buckets[i].FindById(peer.id);
      assert known.Some? <==> Buckets.HasId(lists[i], peer.id);
      if known.Some? || buckets[i].size >= Buckets.BUCKET_SIZE {
        assert u == lists;
        return;
      }
      assert u == Buckets.Added(lists, i, peer);
      AddTo(i, peer);
    }

    /** The end of update_bucket_peers. */
    method AddTo(i: nat, peer: Peer)
      requires Valid() && i < |buckets|
      modifies this, buckets[i], buckets[i].nodes
      ensures Valid() && fresh(Repr - old(Repr))
      ensures Lists() == Buckets.Added(old(Lists()), i, peer)
    {
      assert ListIn(i);
      ghost var before := Lists();
      buckets[i].AddFront(peer);
      Repr := Repr + {buckets[i].nodes[0]};
      forall j: nat | j < |buckets| ensures ListIn(j)
        ensures buckets[j].Peers() == if j == i then [peer] + before[i] else before[j]
      {
        assert old(ListIn(j));
        if j == i {
          assert forall k: nat | 0 < k < |buckets[i].nodes| :: buckets[i].nodes[k] == old(buckets[i].nodes)[k - 1];
        } else {
          assert buckets[j].index != buckets[i].index;
          assert forall k: nat | k < |buckets[j].nodes| :: old(buckets[j].nodes[k].owner) == buckets[j];
        }
      }
      assert Lists() == before[i := [peer] + before[i]];
    }

    /** find_closest_peers: the result array is filled from slot 0 without gaps. */
    method FindClosestPeers(target: HashID, n: nat) returns (result: array?<Option<Peer>>)
      requires Valid()
      requires own.Some? ==> BucketIndex(Xor(own.value, target)) < |buckets|
      ensures var found := Buckets.FindClosest(own, Lists(), target, n);
              && (result == null <==> found.None?)
              && (found.Some? ==> result.Length == n && Prefilled(result[..], found.value))
      ensures result != null ==> fresh(result)
    {
      var out := new Option<Peer>[n](_ => None);
      if own.None? {
        return null;
      }
      var b := GetBucketIndex(Xor(own.value, target));
      if b == -1 {
        return null;
      }
      var count := SearchFrom(b, target, out);
      if count == 0 {
        return null;
      }
      return out;
    }

    /** The outward search of find_closest_peers from bucket b into an empty result array. */
    method SearchFrom(b: nat, target: HashID, out: array<Option<Peer>>) returns (count: nat)
      requires Valid() && out !in Repr && b < |buckets| && Prefilled(out[..], [])
      modifies out
      ensures Valid()
      ensures var r := Buckets.Search(Lists(), b, target, out.Length);
              count == |r| && Prefilled(out[..], r)
    {
      ghost var acc;
      count, acc := VisitBucket(b, target, out, 0, []);
      assert acc == Select(Lists()[b], target, out.Length);
      count := SearchOutward(b, target, out, count, acc);
    }

    /** The loop of find_closest_peers. */
    method SearchOutward(b: nat, target: HashID, out: array<Option<Peer>>, found: nat, ghost acc0: seq<Peer>)
        returns (count: nat)
      requires Valid() && out !in Repr && b < |buckets| && found == |acc0| <= out.Length && Prefilled(out[..], acc0)
      modifies out
      ensures Valid() && Lists() == old(Lists())
      ensures var r := Buckets.Outward(Lists(), b, target, out.Length, acc0, 1);
              count == |r| && Prefilled(out[..], r)
    {
      count := found;
      ghost var lists, acc := Lists(), acc0;
      var offset := 1;
      while count < out.Length && (b - offset >= 0 || b + offset < |buckets|)
        invariant 0 < offset && count == |acc| <= out.Length && Prefilled(out[..], acc)
        invariant Valid() && Lists() == lists
        invariant Buckets.Outward(lists, b, target, out.Length, acc, offset) ==
                  Buckets.Outward(lists, b, target, out.Length, acc0, 1)
        decreases |buckets| - offset
      {
        Buckets.OutwardRound(lists, b, target, out.Length, acc, offset);
        count, acc := VisitRound(b, offset, target, out, count, acc);
        offset := offset + 1;
      }
    }

    /** The loop body: the bucket `offset` places below, then the one above. */
    method VisitRound(b: nat, offset: nat, target: HashID, out: array<Option<Peer>>, count: nat, ghost acc: seq<Peer>)
        returns (count': nat, ghost acc': seq<Peer>)
      requires Valid() && out !in Repr && count == |acc| <= out.Length && Prefilled(out[..], acc)
      modifies out
      ensures Valid() && Lists() == old(Lists())
      ensures acc' == Buckets.Take(Lists(), b + offset, target, out.Length,
                                   Buckets.Take(Lists(), b - offset, target, out.Length, acc))
      ensures count' == |acc'| && Prefilled(out[..], acc')
    {
      count', acc' := VisitBucket(b - offset, target, out, count, acc);
      count', acc' := VisitBucket(b + offset, target, out, count', acc');
    }

    /** One call of find_nearest in the outward search, if the bucket exists. */
    method VisitBucket(j: int, target: HashID, out: array<Option<Peer>>, count: nat, ghost acc: seq<Peer>)
        returns (count': nat, ghost acc': seq<Peer>)
      requires Valid() && out !in Repr && count == |acc| <= out.Length && Prefilled(out[..], acc)
      modifies out
      ensures Valid() && Lists() == old(Lists())
      ensures acc' == Buckets.Take(Lists(), j, target, out.Length, acc)
      ensures count' == |acc'| && Prefilled(out[..], acc')
    {
      acc' := Buckets.Take(Lists(), j, target, out.Length, acc);
      count' := count;
      if 0 <= j < |buckets| {
        var more := buckets[j].FindNearest(target, out, count, out.Length - count);
        count' := count + more;
      }
    }
  }
}
