/** The doubly linked peer lists of src/list.c, changed in place. */
module PeerList {
  import opened Ids
  import opened Nearest
  import opened Options
  import Buckets

  class DNode {
    var peer: Peer
    var next: DNode?
    var prev: DNode?
    // The list that the node is in, and the number of nodes that were in it before.
    ghost const owner: DList
    ghost const rank: nat

    constructor (peer: Peer, next: DNode?, ghost owner: DList, ghost rank: nat)
      ensures this.peer == peer && this.next == next && prev == null
      ensures this.owner == owner && this.rank == rank
    {
      this.peer, this.next, prev := peer, next, null;
      this.owner, this.rank := owner, rank;
    }
  }

  /** xs stands in `out` from slot `at` on. */
  ghost predicate HoldsAt(out: seq<Option<Peer>>, at: nat, xs: seq<Peer>) {
    at + |xs| <= |out| && forall k: nat | at <= k < at + |xs| :: out[k] == Some(xs[k - at])
  }

  ghost predicate SameOutside(out: seq<Option<Peer>>, before: seq<Option<Peer>>, at: nat, n: nat) {
    |out| == |before| && forall k: nat | k < |out| && !(at <= k < at + n) :: out[k] == before[k]
  }

  ghost predicate Distances(dists: seq<HashID>, xs: seq<Peer>, id: HashID) {
    |xs| <= |dists| && forall k: nat | k < |xs| :: dists[k] == Xor(xs[k].id, id)
  }

  /** The inner loop of find_nearest on a full result r: p replaces every entry that is
      farther, and `dists` keeps up. */
  method ReplaceInPlace(out: array<Option<Peer>>, at: nat, dists: array<HashID>, p: Peer, id: HashID,
                        ghost r: seq<Peer>)
    requires out as object != dists && |r| == dists.Length
    requires HoldsAt(out[..], at, r) && Distances(dists[..], r, id)
    modifies out, dists
    ensures HoldsAt(out[..], at, ReplaceFarther(r, p, id)) && Distances(dists[..], ReplaceFarther(r, p, id), id)
    ensures SameOutside(out[..], old(out[..]), at, |r|)
  {
    ghost var u, xs := ReplaceFarther(r, p, id), r;
    for m := 0 to dists.Length
      invariant |xs| == |r| && xs[..m] == u[..m] && xs[m..] == r[m..]
      invariant HoldsAt(out[..], at, xs) && Distances(dists[..], xs, id)
      invariant SameOutside(out[..], old(out[..]), at, |r|)
    {
      assert xs[m] == r[m] && xs[m + 1..] == r[m + 1..];
      var c := CompareHashes(dists[m], Xor(p.id, id));
      if c > 0 {
        PutAt(out[..], at, xs, dists[..], id, m, p);
        out[at + m] := Some(p);
        dists[m] := Xor(p.id, id);
        xs := xs[m := p];
      }
      assert xs[m] == u[m] && xs[..m + 1] == xs[..m] + [u[m]];
    }
    assert xs == u;
  }

  lemma PutAt(out: seq<Option<Peer>>, at: nat, xs: seq<Peer>, dists: seq<HashID>, id: HashID, m: nat, p: Peer)
    requires HoldsAt(out, at, xs) && Distances(dists, xs, id) && m < |xs|
    ensures HoldsAt(out[at + m := Some(p)], at, xs[m := p])
    ensures Distances(dists[m := Xor(p.id, id)], xs[m := p], id)
  {
  }

  lemma AddAt(out: seq<Option<Peer>>, at: nat, xs: seq<Peer>, dists: seq<HashID>, id: HashID, p: Peer)
    requires HoldsAt(out, at, xs) && Distances(dists, xs, id) && at + |xs| < |out| && |xs| < |dists|
    ensures HoldsAt(out[at + |xs| := Some(p)], at, xs + [p])
    ensures Distances(dists[|xs| := Xor(p.id, id)], xs + [p], id)
  {
  }

  /** The loop body of find_nearest: r has been selected so far, and p comes next. */
  method Offer(out: array<Option<Peer>>, at: nat, n: nat, dists: array<HashID>, p: Peer, id: HashID, ghost r: seq<Peer>)
      returns (n': nat)
    requires out as object != dists && n == |r| <= dists.Length && at + dists.Length <= out.Length
    requires HoldsAt(out[..], at, r) && Distances(dists[..], r, id)
    modifies out, dists
    ensures var u := if n < dists.Length then r + [p] else ReplaceFarther(r, p, id);
            n' == |u| && HoldsAt(out[..], at, u) && Distances(dists[..], u, id)
    ensures SameOutside(out[..], old(out[..]), at, n')
  {
    if n < dists.Length {
      AddAt(out[..], at, r, dists[..], id, p);
      dists[n] := Xor(p.id, id);
      out[at + n] := Some(p);
      n' := n + 1;
    } else {
      ReplaceInPlace(out, at, dists, p, id, r);
      n' := n;
    }
  }

  class DList {
    var size: nat
    var head: DNode?
    var tail: DNode?
    // The nodes from head to tail, and the place of this list in the table.
    ghost var nodes: seq<DNode>
    ghost const index: nat

    ghost predicate Valid()
      reads this, nodes
    {
      && size == |nodes|
      && (if nodes == [] then head == null && tail == null
          else head == nodes[0] && tail == nodes[|nodes| - 1])
      && (forall i: nat {:trigger nodes[i].next} | i < |nodes| ::
            nodes[i].next == if i + 1 < |nodes| then nodes[i + 1] else null)
      && (forall i: nat {:trigger nodes[i].prev} | i < |nodes| ::
            nodes[i].prev == if i > 0 then nodes[i - 1] else null)
      && (forall i: nat {:trigger nodes[i].owner} {:trigger nodes[i].rank} | i < |nodes| ::
            nodes[i].owner == this && nodes[i].rank == |nodes| - 1 - i)
    }

    /** The peers from head to tail. */
    ghost function Peers(): (ps: seq<Peer>)
      reads this, nodes
      ensures |ps| == |nodes|
    {
      seq(|nodes|, i requires 0 <= i < |nodes| reads this, nodes => nodes[i].peer)
    }

    constructor (ghost index: nat)
      ensures Valid() && Peers() == [] && nodes == [] && this.index == index
    {
      size, head, tail, nodes, this.index := 0, null, null, [], index;
    }

    /** add_front */
    method AddFront(peer: Peer)
      requires Valid()
      modifies this, nodes
      ensures Valid() && Peers() == [peer] + old(Peers())
      ensures |nodes| == |old(nodes)| + 1 && fresh(nodes[0]) && nodes[1..] == old(nodes)
    {
      ghost var was, peers := nodes, Peers();
      var node := new DNode(peer, head, this, |nodes|);
      if head == null {
        head, tail, size := node, node, 1;
      } else {
        head.prev := node;
        head := node;
        size := size + 1;
      }
      nodes := [node] + was;
      forall i: nat | 0 < i < |nodes|
        ensures nodes[i] == was[i - 1] && nodes[i].peer == peers[i - 1] && nodes[i].prev == nodes[i - 1]
      {
        assert i > 1 ==> was[i - 1].rank != was[0].rank;
      }
      assert Peers() == [peer] + peers;
    }

    /** find_peer_by_id */
    method FindById(id: HashID) returns (r: Option<Peer>)
      requires Valid()
      ensures r.Some? <==> Buckets.HasId(Peers(), id)
      ensures r.Some? ==> r.value in Peers() && r.value.id == id
    {
      var current := head;
      ghost var i: nat := 0;
      while current != null
        invariant i <= |nodes| && current == if i < |nodes| then nodes[i] else null
        invariant forall j: nat | j < i :: Peers()[j].id != id
        decreases |nodes| - i
      {
        if current.peer.id == id {
          assert Peers()[i] == current.peer;
          return Some(current.peer);
        }
        current := current.next;
        i := i + 1;
      }
      return None;
    }

    /** find_nearest writes its result from slot `at` of the result array on. */
    method FindNearest(id: HashID, out: array<Option<Peer>>, at: nat, max: nat) returns (n: nat)
      requires Valid() && at + max <= out.Length
      modifies out
      ensures n == |Select(Peers(), id, max)|
      ensures HoldsAt(out[..], at, Select(Peers(), id, max))
      ensures SameOutside(out[..], old(out[..]), at, n)
    {
      if head == null || max == 0 {
        return 0;
      }
      var dists := new HashID[max](_ => id);
      n := 0;
      var current := head;
      ghost var i: nat := 0;
      ghost var ps := Peers();
      while current != null
        invariant i <= |nodes| && current == if i < |nodes| then nodes[i] else null
        invariant n == |Select(ps[..i], id, max)|
        invariant HoldsAt(out[..], at, Select(ps[..i], id, max)) && Distances(dists[..], Select(ps[..i], id, max), id)
        invariant SameOutside(out[..], old(out[..]), at, n)
        modifies out, dists
        decreases |nodes| - i
      {
        var p, next := current.peer, current.next;
        ghost var r := Select(ps[..i], id, max);
        SelectNext(ps, i, id, max);
        n := Offer(out, at, n, dists, p, id, r);
        current := next;
        i := i + 1;
      }
      assert ps[..i] == ps;
    }
  }

  lemma SelectNext(ps: seq<Peer>, i: nat, id: HashID, max: nat)
    requires i < |ps| && max > 0
    ensures var r := Select(ps[..i], id, max);
            Select(ps[..i + 1], id, max) == if |r| < max then r + [ps[i]] else ReplaceFarther(r, ps[i], id)
  {
    assert ps[..i + 1][..i] == ps[..i];
  }
}
