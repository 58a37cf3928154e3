/** iterative_find_peers of src/rpc.c: the worklist loop over two growing vectors, with the
    network as a fixed oracle. */
module Lookup {
  import opened Buckets
  import opened Ids
  import opened LookupModel
  import opened Nearest
  import opened Options
  import opened PeerList
  import opened Replies
  import opened RoutingTable
  import opened Vector

  /** The peers that the lookup starts from: the answer of the routing table. */
  ghost function Initial(own: Option<HashID>, lists: seq<seq<Peer>>, target: HashID): seq<Peer>
    requires own.Some? ==> BucketIndex(Xor(own.value, target)) < |lists|
  {
    match FindClosest(own, lists, target, K_VALUE)
    case None => []
    case Some(found) => found
  }

  /** That is what the search for four peers finds from the bucket of the target on, if our own id is
      known and is not the target. */
  lemma InitialIs(own: Option<HashID>, lists: seq<seq<Peer>>, target: HashID)
    requires own.Some? ==> BucketIndex(Xor(own.value, target)) < |lists|
    ensures own == None || own == Some(target) ==> Initial(own, lists, target) == []
    ensures own.Some? && own != Some(target) ==>
              exists b: nat {:trigger Leads(Xor(own.value, target), b)} ::
                && b < |lists| && Leads(Xor(own.value, target), b)
                && Initial(own, lists, target) == Search(lists, b, target, 4)
  {
    FindClosestIs(own, lists, target, K_VALUE);
    if own.Some? && own != Some(target) {
      NoBucketForOurselves(own.value, target);
      var b: nat := BucketIndex(Xor(own.value, target));
      SearchFills(lists, b, target, K_VALUE);
      assert Leads(Xor(own.value, target), b) && Initial(own, lists, target) == Search(lists, b, target, 4);
    }
  }

  /** The local state of one lookup: the vector of peers met and, beside it, the vector of
      contacted marks; and the routing table that the lookup feeds. */
  class Traversal {
    const net: Network
    const findValue: bool
    const table: RoutingTable
    const pending: VectorPtr<Peer>
    const contacted: VectorPtr<bool>

    // Where the lookup started, what it has been told, and how many peers are contacted.
    ghost const initial: seq<Peer>
    ghost const before: seq<seq<Peer>>
    ghost var seen: seq<Peer>
    ghost var at: nat
    ghost var Repr: set<object>

    ghost function Own(): set<object>
      reads this, pending, contacted
    {
      {this, pending, contacted, pending.data, contacted.data}
    }

    ghost predicate Sound()
      reads this, Repr
    {
      && this in Repr && pending in Repr && contacted in Repr && table in Repr
      && Repr == Own() + table.Repr && Own() !! table.Repr
      && pending.Valid() && contacted.Valid() && pending.size == contacted.size
      && pending as object != contacted && pending.data as object != contacted.data
      && table.Valid()
      && Placeable(table.own, |table.buckets|, net, findValue)
    }

    ghost function Met(): seq<Peer>
      reads this, Repr
      requires Sound()
    {
      pending.Contents()
    }

    ghost function Marks(): (marks: seq<bool>)
      reads this, Repr
      requires Sound()
      ensures |marks| == |Met()|
    {
      contacted.Contents()
    }

    ghost function Lists(): seq<seq<Peer>>
      reads this, Repr
      requires Sound()
    {
      table.Lists()
    }

    /** The peers before position i, and no others, are contacted. */
    ghost predicate MarkedTo(i: nat)
      reads this, Repr
      requires Sound()
    {
      forall k: nat | k < |Marks()| :: Marks()[k] <==> k < i
    }

    /** The lookup has come as far as position `at`. */
    ghost predicate Valid()
      reads this, Repr
    {
      && Sound() && MarkedTo(at)
      && OnTrack(net, findValue, table.own, initial, before, Met(), seen, at, Lists())
    }

    /** The lookup is over, with these owners. */
    ghost predicate Over(owners: Option<seq<Peer>>)
      reads this, Repr
    {
      && Sound()
      && LookupModel.Lookup(net, findValue, initial) == Outcome(Met(), seen, owners)
      && (table.own.Some? ==> InRange(table.own.value, |before|, seen))
      && Lists() == UpdatedBy(table.own, before, seen)
    }

    /** A lookup that is to start from the peers `initial`. */
    constructor (table: RoutingTable, net: Network, findValue: bool, ghost initial: seq<Peer>)
      requires table.Valid() && Placeable(table.own, |table.buckets|, net, findValue)
      ensures Sound() && Met() == [] && seen == [] && at == 0 && fresh(Repr - table.Repr)
      ensures this.table == table && this.net == net && this.findValue == findValue
      ensures this.initial == initial && before == Lists() == table.Lists()
      ensures initial == [] ==> Valid()
    {
      var p := new VectorPtr<Peer>();
      var c := new VectorPtr<bool>();
      this.table, this.net, this.findValue := table, net, findValue;
      pending, contacted := p, c;
      this.initial, before, seen, at := initial, table.Lists(), [], 0;
      Repr := {this, p, c, p.data, c.data} + table.Repr;
      new;
      OnTrackStart(net, findValue, table.own, [], before);
    }

    /** The first loop of the lookup: copies the result of find_closest_peers up to its first
        empty place. */
    method Seed(result: array<Option<Peer>>)
      requires Sound() && Met() == [] && seen == [] && at == 0 && before == Lists()
      requires result !in Repr && Prefilled(result[..], initial)
      modifies Repr - table.Repr
      ensures Valid() && Met() == initial && at == 0 && fresh(Repr - old(Repr)) && table.Repr == old(table.Repr)
    {
      var i := 0;
      while i < result.Length && result[i].Some?
        invariant Sound() && fresh(Repr - old(Repr)) && table.Repr == old(table.Repr) && result !in Repr
        invariant i <= |initial| && Prefilled(result[..], initial)
        invariant Met() == initial[..i] && MarkedTo(0) && Lists() == before && seen == [] && at == 0
      {
        assert i < |initial|;
        Add(result[i].value);
        assert initial[..i + 1] == initial[..i] + [initial[i]];
        i := i + 1;
      }
      assert i == |initial|;
      assert initial[..i] == initial;
      OnTrackStart(net, findValue, table.own, initial, before);
    }

    /** A peer that is not contacted yet. */
    method Add(p: Peer)
      requires Sound()
      modifies Repr - table.Repr
      ensures Sound() && fresh(Repr - old(Repr)) && table.Repr == old(table.Repr)
      ensures Met() == old(Met()) + [p] && Marks() == old(Marks()) + [false] && Lists() == old(Lists())
      ensures seen == old(seen) && at == old(at)
    {
      pending.Push(p);
      contacted.Push(false);
      Repr := Own() + table.Repr;
    }

    /** The duplicate check: is a peer of this id pending? */
    method Knows(id: HashID) returns (known: bool)
      requires Sound()
      ensures known <==> HasId(Met(), id)
    {
      for s := 0 to pending.size
        invariant forall k: nat | k < s :: Met()[k].id != id
      {
        var q := pending.Get(s);
        if q.value.id == id {
          assert Met()[s] in Met();
          return true;
        }
      }
      return false;
    }

    /** One reported peer: it goes to the routing table, and is appended if its id is new. */
    method AbsorbOne(p: Peer)
      requires Sound() && (table.own.Some? ==> BucketIndex(Xor(table.own.value, p.id)) < |table.buckets|)
      modifies Repr
      ensures Sound() && fresh(Repr - old(Repr)) && seen == old(seen) && at == old(at)
      ensures var add := !HasId(old(Met()), p.id);
              && Met() == (if add then old(Met()) + [p] else old(Met()))
              && Marks() == (if add then old(Marks()) + [false] else old(Marks()))
      ensures Lists() == Updated(table.own, old(Lists()), p)
    {
      table.UpdateBucketPeers(p);
      Repr := Own() + table.Repr;
      var known := Knows(p.id);
      if !known {
        Add(p);
      }
    }

    /** All peers reported in one reply. */
    method Absorb(news: seq<Peer>)
      requires Sound() && (table.own.Some? ==> InRange(table.own.value, |table.buckets|, news))
      modifies Repr
      ensures Sound() && fresh(Repr - old(Repr)) && seen == old(seen) && at == old(at)
      ensures Met() == Merge(old(Met()), news)
      ensures Lists() == UpdatedBy(table.own, old(Lists()), news)
      ensures |old(Marks())| <= |Marks()| && Marks()[..|old(Marks())|] == old(Marks())
      ensures forall k: nat | |old(Marks())| <= k < |Marks()| :: !Marks()[k]
    {
      ghost var met, lists, marks := Met(), Lists(), Marks();
      for j := 0 to |news|
        invariant Sound() && fresh(Repr - old(Repr)) && seen == old(seen) && at == old(at)
        invariant Merge(Met(), news[j..]) == Merge(met, news)
        invariant |marks| <= |Marks()| && Marks()[..|marks|] == marks
        invariant forall k: nat | |marks| <= k < |Marks()| :: !Marks()[k]
        invariant table.own.Some? ==> InRange(table.own.value, |table.buckets|, news[j..])
        invariant UpdatedBy(table.own, Lists(), news[j..]) == UpdatedBy(table.own, lists, news)
      {
        NewsStep(table.own, Lists(), Met(), news, j);
        AbsorbOne(news[j]);
      }
    }

    /** Asks the peer at position i and digests its reply. */
    method Ask(i: nat) returns (owners: Option<seq<Peer>>)
      requires Sound() && i < |Met()| && MarkedTo(i)
      modifies Repr
      ensures Sound() && fresh(Repr - old(Repr)) && seen == old(seen) && at == old(at)
      ensures owners == Owners(net(old(Met())[i]), findValue)
      ensures var news := Reported(net(old(Met())[i]), findValue);
              Met() == Merge(old(Met()), news) && Lists() == UpdatedBy(table.own, old(Lists()), news)
      ensures i < |Met()| && MarkedTo(i + 1)
    {
      contacted.Put(i, true);
      assert Marks() == old(Marks())[i := true];
      var p := pending.Get(i);
      var reply := net(p.value);
      owners := Owners(reply, findValue);
      ghost var marks := Marks();
      Absorb(Reported(reply, findValue));
      forall k: nat | k < |Marks()| ensures Marks()[k] <==> k < i + 1 {
        if k < |marks| {
          assert Marks()[k] == Marks()[..|marks|][k] == marks[k];
        }
      }
    }

    /** The loop body on the first peer that is not contacted. */
    method Advance(i: nat) returns (owners: Option<seq<Peer>>)
      requires Valid() && i == at < |Met()|
      modifies Repr
      ensures Sound() && fresh(Repr - old(Repr))
      ensures if owners.Some? then Over(owners) else Valid() && at == old(at) + 1
      ensures |Unmet(Met())| < |Unmet(old(Met()))| || Met() == old(Met())
    {
      ghost var met, lists := Met(), Lists();
      ghost var news := Reported(net(met[at]), findValue);
      MergeProgress(met, news);
      owners := Ask(i);
      if owners.Some? {
        OnTrackEnd(net, findValue, table.own, initial, before, met, seen, at, lists);
      } else {
        OnTrackStep(net, findValue, table.own, initial, before, met, seen, at, lists);
        Commit(news);
      }
    }

    /** Notes that one more peer is contacted, and what it reported. */
    ghost method Commit(news: seq<Peer>)
      requires Sound() && MarkedTo(at + 1)
      requires OnTrack(net, findValue, table.own, initial, before, Met(), seen + news, at + 1, Lists())
      modifies this`at, this`seen
      ensures Valid() && at == old(at) + 1 && Repr == old(Repr) && Met() == old(Met())
    {
      var met, marks, lists := Met(), Marks(), Lists();
      at, seen := at + 1, seen + news;
      assert Met() == met && Marks() == marks && Lists() == lists;
    }

    /** The look at a contacted mark. */
    method IsContacted(i: nat) returns (c: bool)
      requires Valid() && i < |Met()|
      ensures c <==> i < at
    {
      var mark := contacted.Get(i);
      assert mark.value == Marks()[i];
      c := mark.value;
    }

    /** The for loop of the lookup, which runs over the vector while it grows. It contacts all
        peers that are not contacted yet, or stops at the first that gives owners. */
    method Pass() returns (anyNew: bool, owners: Option<seq<Peer>>)
      requires Valid()
      modifies Repr
      ensures Sound() && fresh(Repr - old(Repr))
      ensures if owners.Some? then Over(owners) else Valid() && at == |Met()|
      ensures anyNew <==> old(at) < |old(Met())|
    {
      anyNew, owners := false, None;
      var i := 0;
      while i < pending.size
        invariant Valid() && fresh(Repr - old(Repr)) && owners == None
        invariant i <= at <= |Met()| && (i < at ==> at == old(at))
        invariant anyNew <==> at > old(at)
        invariant old(at) <= at && (at == old(at) ==> Met() == old(Met()))
        decreases |Unmet(Met())|, |Met()| - i
      {
        var isNew;
        isNew, owners := Visit(i);
        anyNew := anyNew || isNew;
        if owners.Some? {
          return;
        }
        i := i + 1;
      }
    }

    /** The body of that loop. */
    method Visit(i: nat) returns (isNew: bool, owners: Option<seq<Peer>>)
      requires Valid() && i <= at && i < |Met()|
      modifies Repr
      ensures Sound() && fresh(Repr - old(Repr)) && (isNew <==> i == old(at))
      ensures owners.Some? ==> isNew && Over(owners)
      ensures owners.None? ==> Valid() && at == (if isNew then old(at) + 1 else old(at))
      ensures !isNew ==> Met() == old(Met())
      ensures |Unmet(Met())| < |Unmet(old(Met()))| || Met() == old(Met())
    {
      var c := IsContacted(i);
      if c {
        return false, None;
      }
      owners := Advance(i);
      isNew := true;
    }

    /** The outer loop of the lookup. Owners, once found, are delivered at once. */
    method Traverse(outPeers: array<Option<Peer>>, maxPeers: nat) returns (valueFound: bool)
      requires Valid() && outPeers !in Repr && maxPeers <= outPeers.Length
      modifies Repr, outPeers
      ensures fresh(Repr - old(Repr)) && outPeers !in Repr
      ensures var o := LookupModel.Lookup(net, findValue, initial);
              && Over(o.found) && valueFound == o.found.Some?
              && (if valueFound then Delivered(outPeers[..], old(outPeers[..]), o.found.value, maxPeers)
                  else outPeers[..] == old(outPeers[..]))
    {
      var done, anyNew := false, false;
      var owners: Option<seq<Peer>> := None;
      valueFound := false;
      while !done && (!findValue || !valueFound)
        invariant Sound() && fresh(Repr - old(Repr)) && outPeers !in Repr
        invariant valueFound == owners.Some? && (valueFound ==> findValue)
        invariant !valueFound ==> Valid() && outPeers[..] == old(outPeers[..]) && (done ==> at == |Met()|)
        invariant valueFound ==> Over(owners) && Delivered(outPeers[..], old(outPeers[..]), owners.value, maxPeers)
        decreases !done && !valueFound, at < |Met()|
      {
        anyNew, owners := Pass();
        if owners.Some? {
          FoundMeansFindValue(net, findValue, initial);
          Deliver(owners.value, outPeers, maxPeers);
          valueFound := true;
        }
        if !anyNew || pending.size >= maxPeers {
          done := true;
        }
      }
      if !valueFound {
        OnTrackEnd(net, findValue, table.own, initial, before, Met(), seen, at, Lists());
      }
    }

    /** The end of a FIND_NODE lookup: sorts the peers met and delivers the first of them. */
    method DeliverNearest(target: HashID, outPeers: array<Option<Peer>>, max: nat) returns (ghost sorted: seq<Peer>)
      requires Sound() && outPeers !in Repr && max <= outPeers.Length
      modifies Repr - table.Repr, outPeers
      ensures Sound() && Repr == old(Repr) && Lists() == old(Lists()) && table.Repr == old(table.Repr)
      ensures multiset(sorted) == multiset(old(Met())) && Sorted(sorted, DistanceLess(target))
      ensures Delivered(outPeers[..], old(outPeers[..]), sorted, max)
    {
      DistanceIsStrictWeak(target);
      pending.Sort(DistanceLess(target));
      sorted := Met();
      var count := if pending.size < max then pending.size else max;
      for i := 0 to count
        invariant HoldsAt(outPeers[..], 0, sorted[..i]) && SameOutside(outPeers[..], old(outPeers[..]), 0, i)
        invariant Sound() && Met() == sorted
        modifies outPeers
      {
        var p := pending.Get(i);
        outPeers[i] := p;
      }
    }
  }

  /** The first `max` of xs stand at the start of `out`, which is otherwise as before. */
  ghost predicate Delivered(out: seq<Option<Peer>>, before: seq<Option<Peer>>, xs: seq<Peer>, max: nat) {
    HoldsAt(out, 0, xs[..Min(|xs|, max)]) && SameOutside(out, before, 0, Min(|xs|, max))
  }

  /** Copies the first peers of xs to the caller's array. */
  method Deliver(xs: seq<Peer>, outPeers: array<Option<Peer>>, max: nat)
    requires max <= outPeers.Length
    modifies outPeers
    ensures Delivered(outPeers[..], old(outPeers[..]), xs, max)
  {
    var j := 0;
    while j < |xs| && j < max
      invariant j <= Min(|xs|, max)
      invariant HoldsAt(outPeers[..], 0, xs[..j]) && SameOutside(outPeers[..], old(outPeers[..]), 0, j)
    {
      outPeers[j] := Some(xs[j]);
      j := j + 1;
    }
  }

  /** The first of the reported peers, and the others. */
  lemma NewsStep(own: Option<HashID>, lists: seq<seq<Peer>>, met: seq<Peer>, news: seq<Peer>, j: nat)
    requires j < |news| && (own.Some? ==> InRange(own.value, |lists|, news[j..]))
    ensures Merge(met, news[j..]) == Merge(if HasId(met, news[j].id) then met else met + [news[j]], news[j + 1..])
    ensures own.Some? ==>
              BucketIndex(Xor(own.value, news[j].id)) < |lists| && InRange(own.value, |lists|, news[j + 1..])
    ensures UpdatedBy(own, lists, news[j..]) == UpdatedBy(own, Updated(own, lists, news[j]), news[j + 1..])
  {
    assert news[j..][0] == news[j] && news[j..][1..] == news[j + 1..];
    assert news[j] in news[j..];
  }

  /** The call succeeds exactly when some peer met has the key, and `out` begins with the owners that
      the first of them gives, as many as are wanted. */
  ghost predicate AnswersWithOwners(net: Network, initial: seq<Peer>, r: int, out: seq<Option<Peer>>, max: nat) {
    var pending := LookupModel.Lookup(net, true, initial).pending;
    && r == (if exists p :: p in pending && HasKey(net, p) then 0 else -1)
    && forall i: nat, v | FirstGives(net, pending, i, v) ::
         forall j: nat | j < |v| && j < max :: j < |out| && out[j] == Some(v[j])
  }

  lemma OwnersAnswer(net: Network, initial: seq<Peer>, r: int, out: seq<Option<Peer>>, before: seq<Option<Peer>>,
                     max: nat)
    requires var found := LookupModel.Lookup(net, true, initial).found;
             && r == (if found.None? then -1 else 0)
             && Delivered(out, before, if found.Some? then found.value else [], max)
    ensures AnswersWithOwners(net, initial, r, out, max)
  {
    var o := LookupModel.Lookup(net, true, initial);
    SomeoneHasKeyIff(net, initial);
    forall i: nat, v | FirstGives(net, o.pending, i, v)
      ensures forall j: nat | j < |v| && j < max :: j < |out| && out[j] == Some(v[j])
    {
      FoundIff(net, initial, v);
    }
  }

  /** iterative_find_peers. FIND_VALUE delivers the owners given by the first answering peer
      and returns 0, or returns -1; FIND_NODE delivers the first of all peers met in order of
      their distance to the target. `sorted` is that order. */
  method IterativeFindPeers(table: RoutingTable, net: Network, target: HashID,
                            outPeers: array?<Option<Peer>>, maxPeers: nat, findValue: bool)
      returns (r: int, ghost sorted: seq<Peer>)
    requires table.Valid() && outPeers !in table.Repr
    requires outPeers != null ==> maxPeers <= outPeers.Length
    requires table.own.Some? ==> BucketIndex(Xor(table.own.value, target)) < |table.buckets|
    requires Placeable(table.own, |table.buckets|, net, findValue)
    modifies outPeers, table.Repr
    ensures table.Valid() && fresh(table.Repr - old(table.Repr))
    ensures outPeers == null || maxPeers == 0 ==>
              r == -1 && table.Lists() == old(table.Lists()) && (outPeers != null ==> outPeers[..] == old(outPeers[..]))
    ensures outPeers != null && maxPeers > 0 ==>
              var o := LookupModel.Lookup(net, findValue, Initial(table.own, old(table.Lists()), target));
              && (table.own.Some? ==> InRange(table.own.value, |table.buckets|, o.seen))
              && table.Lists() == (if table.own == None then old(table.Lists())
                                   else UpdatedAll(table.own.value, old(table.Lists()), o.seen))
              && r == (if findValue && o.found.None? then -1 else 0)
              && (if findValue then
                    Delivered(outPeers[..], old(outPeers[..]), if o.found.Some? then o.found.value else [], maxPeers)
                  else
                    && multiset(sorted) == multiset(o.pending) && Sorted(sorted, DistanceLess(target))
                    && Delivered(outPeers[..], old(outPeers[..]), sorted, maxPeers))
    ensures outPeers != null && maxPeers > 0 && findValue ==>
              AnswersWithOwners(net, Initial(table.own, old(table.Lists()), target), r, outPeers[..], maxPeers)
  {
    sorted := [];
    if outPeers == null || maxPeers == 0 {
      return -1, [];
    }
    var t := Start(table, net, target, findValue);
    ghost var before := t.Repr;
    var valueFound := t.Traverse(outPeers, maxPeers);
    assert table.Repr <= t.Repr;
    if !findValue {
      FoundMeansFindValue(net, false, t.initial);
      sorted := t.DeliverNearest(target, outPeers, maxPeers);
    }
    r := if findValue && !valueFound then -1 else 0;
    if findValue {
      OwnersAnswer(net, t.initial, r, outPeers[..], old(outPeers[..]), maxPeers);
    }
  }

  method FindInitial(table: RoutingTable, target: HashID) returns (result: array?<Option<Peer>>)
    requires table.Valid()
    requires table.own.Some? ==> BucketIndex(Xor(table.own.value, target)) < |table.buckets|
    ensures result != null ==> fresh(result)
    ensures var initial := Initial(table.own, table.Lists(), target);
            if result == null then initial == [] else Prefilled(result[..], initial)
  {
    result := table.FindClosestPeers(target, K_VALUE);
  }

  /** The start of the lookup: the peers that the table knows to be closest to the target. */
  method Start(table: RoutingTable, net: Network, target: HashID, findValue: bool) returns (t: Traversal)
    requires table.Valid() && Placeable(table.own, |table.buckets|, net, findValue)
    requires table.own.Some? ==> BucketIndex(Xor(table.own.value, target)) < |table.buckets|
    ensures t.Valid() && fresh(t.Repr - table.Repr) && table.Repr == old(table.Repr)
    ensures t.table == table && t.net == net && t.findValue == findValue
    ensures t.initial == Initial(table.own, old(table.Lists()), target) && t.before == old(table.Lists())
  {
    ghost var initial := Initial(table.own, table.Lists(), target);
    var result := FindInitial(table, target);
    t := new Traversal(table, net, findValue, initial);
    if result != null {
      t.Seed(result);
    }
  }
}
