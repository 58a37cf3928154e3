/** FIND_VALUE on networks in which an id may belong to several addresses (src/rpc.c): what it
    finds, and exactly when it finds whatever can be reached. */
module FindValue {
  import opened Buckets
  import opened Ids
  import opened LookupModel
  import opened Nearest
  import opened Options

  // ---------- on every network ----------

  /** The network in which the peers that have owners to give do not answer. */
  ghost function Mute(net: Network): Network {
    (p: Peer) => if Owners(net(p), true).Some? then NoAnswer else net(p)
  }

  ghost predicate GivesOwners(net: Network, p: Peer) {
    Owners(net(p), true).Some?
  }

  /** From position i on there is a peer with owners. */
  ghost predicate OwnerFrom(net: Network, pending: seq<Peer>, i: nat) {
    exists j: nat :: i <= j < |pending| && GivesOwners(net, pending[j])
  }

  lemma OwnerFromStep(net: Network, pending: seq<Peer>, i: nat)
    requires i < |pending|
    ensures OwnerFrom(net, pending, i) <==> GivesOwners(net, pending[i]) || OwnerFrom(net, pending, i + 1)
  {
  }

  /** Until an owner is found the lookup goes as in the muted network. */
  lemma {:induction false} ExploreFindsIff(net: Network, pending: seq<Peer>, seen: seq<Peer>, i: nat)
    requires i <= |pending|
    ensures Explore(net, true, pending, seen, i).found.Some? <==>
            OwnerFrom(net, Explore(Mute(net), true, pending, seen, i).pending, i)
    decreases |Unmet(pending)|, |pending| - i
  {
    if i < |pending| {
      var news := Reported(Mute(net)(pending[i]), true);
      MergeProgress(pending, news);
      ExploreExtends(Mute(net), true, pending, seen, i);
      var all := Explore(Mute(net), true, pending, seen, i).pending;
      assert all == Explore(Mute(net), true, Merge(pending, news), seen + news, i + 1).pending;
      assert all[i] == pending[i];
      OwnerFromStep(net, all, i);
      if !GivesOwners(net, pending[i]) {
        ExploreFindsIff(net, Merge(pending, news), seen + news, i + 1);
      }
    }
  }

  lemma {:induction false} MuteFindsNoOwner(net: Network, pending: seq<Peer>, seen: seq<Peer>, i: nat)
    requires i <= |pending|
    ensures Explore(Mute(net), true, pending, seen, i).found.None?
    decreases |Unmet(pending)|, |pending| - i
  {
    if i < |pending| {
      var news := Reported(Mute(net)(pending[i]), true);
      MergeProgress(pending, news);
      MuteFindsNoOwner(net, Merge(pending, news), seen + news, i + 1);
    }
  }

  /** On every network, a FIND_VALUE lookup finds owners if and only if some peer has owners to give
      that it would meet if those peers did not answer. */
  lemma LookupFindsExactly(net: Network, initial: seq<Peer>)
    ensures Lookup(Mute(net), true, initial).found.None?
    ensures Lookup(net, true, initial).found.Some? <==>
            exists p :: p in Lookup(Mute(net), true, initial).pending && GivesOwners(net, p)
  {
    MuteFindsNoOwner(net, initial, [], 0);
    ExploreFindsIff(net, initial, [], 0);
    var pending := Lookup(Mute(net), true, initial).pending;
    if j: nat :| j < |pending| && GivesOwners(net, pending[j]) {
      assert pending[j] in pending;
    }
    if p :| p in pending && GivesOwners(net, p) {
      var j: nat :| j < |pending| && pending[j] == p;
    }
  }

  /** Peers with owners report nobody, so the same peers are reachable in the muted network. */
  lemma MuteReaches(net: Network, initial: seq<Peer>, p: Peer)
    ensures Reachable(Mute(net), true, initial, p) <==> Reachable(net, true, initial, p)
  {
    forall s: iset<Peer> ensures ClosedUnderReplies(Mute(net), true, s) <==> ClosedUnderReplies(net, true, s) {
      SameReports(Mute(net), net, s);
    }
  }

  lemma SameReports(net: Network, other: Network, s: iset<Peer>)
    requires forall p | p in s :: Reported(net(p), true) == Reported(other(p), true)
    ensures ClosedUnderReplies(net, true, s) <==> ClosedUnderReplies(other, true, s)
  {
    if ClosedUnderReplies(other, true, s) {
      forall p | p in s ensures Within(Reported(net(p), true), s) {
        assert Within(Reported(other(p), true), s);
      }
    }
    if ClosedUnderReplies(net, true, s) {
      forall p | p in s ensures Within(Reported(other(p), true), s) {
        assert Within(Reported(net(p), true), s);
      }
    }
  }

  // ---------- when everyone is met ----------

  /** Reachable peers are told apart by their ids, except for initial ones. */
  ghost predicate KnownApart(net: Network, findValue: bool, initial: seq<Peer>) {
    forall p: Peer, q: Peer |
      p.id == q.id && Reachable(net, findValue, initial, p) && Reachable(net, findValue, initial, q) ::
      p == q || (p in initial && q in initial)
  }

  ghost predicate MeetsEveryone(net: Network, findValue: bool, initial: seq<Peer>) {
    forall p | Reachable(net, findValue, initial, p) :: p in Lookup(net, findValue, initial).pending
  }

  /** The peers from position n on have ids of their own. */
  ghost predicate FreshFrom(pending: seq<Peer>, n: nat) {
    forall i: nat, j: nat | i < j < |pending| && n <= j :: pending[i].id != pending[j].id
  }

  lemma {:induction false} MergeFresh(pending: seq<Peer>, news: seq<Peer>, n: nat)
    requires FreshFrom(pending, n)
    ensures FreshFrom(Merge(pending, news), n)
    decreases |news|
  {
    if news != [] {
      if HasId(pending, news[0].id) {
        MergeFresh(pending, news[1..], n);
      } else {
        forall i: nat | i < |pending| ensures pending[i].id != news[0].id {
          assert pending[i] in pending;
        }
        MergeFresh(pending + [news[0]], news[1..], n);
      }
    }
  }

  lemma {:induction false} ExploreFresh(net: Network, findValue: bool, pending: seq<Peer>, seen: seq<Peer>,
                                        i: nat, n: nat)
    requires i <= |pending| && FreshFrom(pending, n)
    ensures FreshFrom(Explore(net, findValue, pending, seen, i).pending, n)
    decreases |Unmet(pending)|, |pending| - i
  {
    if i < |pending| && Owners(net(pending[i]), findValue).None? {
      var news := Reported(net(pending[i]), findValue);
      MergeProgress(pending, news);
      MergeFresh(pending, news, n);
      ExploreFresh(net, findValue, Merge(pending, news), seen + news, i + 1, n);
    }
  }

  lemma MetAreApart(net: Network, findValue: bool, initial: seq<Peer>, p: Peer, q: Peer)
    requires p in Lookup(net, findValue, initial).pending && q in Lookup(net, findValue, initial).pending
    requires p.id == q.id && p != q
    ensures p in initial && q in initial
  {
    var pending := Lookup(net, findValue, initial).pending;
    ExploreFresh(net, findValue, initial, [], 0, |initial|);
    InitialAreMet(net, findValue, initial);
    var i: nat :| i < |pending| && pending[i] == p;
    var j: nat :| j < |pending| && pending[j] == q;
    assert i < |initial| && initial[i] == p;
    assert j < |initial| && initial[j] == q;
  }

  /** A lookup that finds no owner meets every reachable peer if and only if they are told apart. */
  lemma MeetsEveryoneIff(net: Network, findValue: bool, initial: seq<Peer>)
    requires Lookup(net, findValue, initial).found.None?
    ensures MeetsEveryone(net, findValue, initial) <==> KnownApart(net, findValue, initial)
  {
    if MeetsEveryone(net, findValue, initial) {
      forall p: Peer, q: Peer |
        p.id == q.id && Reachable(net, findValue, initial, p) && Reachable(net, findValue, initial, q)
        ensures p == q || (p in initial && q in initial)
      {
        if p != q {
          MetAreApart(net, findValue, initial, p, q);
        }
      }
    }
    if KnownApart(net, findValue, initial) {
      MetAreClosed(net, findValue, initial);
      var met := iset p | p in Lookup(net, findValue, initial).pending;
      forall p | Reachable(net, findValue, initial, p) ensures p in met {
      }
    }
  }

  lemma MetAreClosed(net: Network, findValue: bool, initial: seq<Peer>)
    requires Lookup(net, findValue, initial).found.None? && KnownApart(net, findValue, initial)
    ensures var met := iset p | p in Lookup(net, findValue, initial).pending;
            Within(initial, met) && ClosedUnderReplies(net, findValue, met)
  {
    var pending := Lookup(net, findValue, initial).pending;
    var met := iset p | p in pending;
    InitialAreMet(net, findValue, initial);
    forall p | p in met ensures Within(Reported(net(p), findValue), met) {
      forall q | q in Elements(Reported(net(p), findValue)) ensures q in met {
        ReportedIsMet(net, findValue, initial, p, q);
        var q' :| q' in pending && q'.id == q.id;
        LookupMeetsReachable(net, findValue, initial, q');
      }
    }
  }

  /** Reachable peers that are told apart reply the same when they have the same id. */
  lemma ApartReplySame(net: Network, findValue: bool, initial: seq<Peer>)
    requires KnownApart(net, findValue, initial) && DistinctIds(initial)
    ensures SameReplies(net, findValue, initial)
  {
    forall p: Peer, q: Peer | p in initial && q in initial && p.id == q.id ensures p == q {
      var i: nat :| i < |initial| && initial[i] == p;
      var j: nat :| j < |initial| && initial[j] == q;
    }
  }

  // ---------- exactly when FIND_VALUE is right, whoever holds the owners ----------

  /** FIND_VALUE is right where reachable peers are told apart by their ids. */
  lemma ApartFindsRight(net: Network, initial: seq<Peer>)
    requires KnownApart(net, true, initial)
    ensures FindsRight(net, initial)
  {
    LookupFindsExactly(net, initial);
    forall p ensures Reachable(Mute(net), true, initial, p) <==> Reachable(net, true, initial, p) {
      MuteReaches(net, initial, p);
    }
    MeetsEveryoneIff(Mute(net), true, initial);
    if Lookup(net, true, initial).found.Some? {
      FoundIsReachable(net, initial);
    }
    if p :| Reachable(net, true, initial, p) && Owners(net(p), true).Some? {
      assert Reachable(Mute(net), true, initial, p) && GivesOwners(net, p);
    }
  }

  /** The network in which the holders give the owners, and the others reply as in net. */
  ghost function Holding(net: Network, holders: iset<Peer>, owners: seq<Peer>): Network {
    (p: Peer) => if p in holders then FindValueResponse(true, owners, []) else net(p)
  }

  ghost predicate NobodyHolds(net: Network) {
    forall p :: !GivesOwners(net, p)
  }

  /** Whoever holds the owners, FIND_VALUE finds them if and only if a holder is reachable. */
  ghost predicate AlwaysFindsRight(net: Network, initial: seq<Peer>) {
    forall holders: iset<Peer>, owners: seq<Peer> :: FindsRight(Holding(net, holders, owners), initial)
  }

  /** With holders, who report nobody, no more peers are reachable. */
  lemma HoldingReaches(net: Network, initial: seq<Peer>, holders: iset<Peer>, owners: seq<Peer>, p: Peer)
    requires Reachable(Holding(net, holders, owners), true, initial, p)
    ensures Reachable(net, true, initial, p)
  {
    var other := Holding(net, holders, owners);
    forall s: iset<Peer> | Within(initial, s) && ClosedUnderReplies(net, true, s) ensures p in s {
      forall q | q in s ensures Within(Reported(other(q), true), s) {
        assert Within(Reported(net(q), true), s);
      }
    }
  }

  /** A peer is reachable as well when it is itself a holder. */
  lemma HolderIsReached(net: Network, initial: seq<Peer>, owners: seq<Peer>, p: Peer)
    requires Reachable(net, true, initial, p)
    ensures Reachable(Holding(net, iset{p}, owners), true, initial, p)
  {
    var other := Holding(net, iset{p}, owners);
    forall s: iset<Peer> | Within(initial, s) && ClosedUnderReplies(other, true, s) ensures p in s {
      if p !in s {
        SameReports(other, net, s);
      }
    }
  }

  /** The lookup does not depend on peers that it does not meet. */
  lemma {:induction false} UnmetMakeNoDifference(net: Network, other: Network, pending: seq<Peer>, seen: seq<Peer>,
                                                 i: nat)
    requires i <= |pending|
    requires forall p | p in Explore(net, true, pending, seen, i).pending :: other(p) == net(p)
    ensures Explore(other, true, pending, seen, i) == Explore(net, true, pending, seen, i)
    decreases |Unmet(pending)|, |pending| - i
  {
    if i < |pending| {
      ExploreExtends(net, true, pending, seen, i);
      assert Explore(net, true, pending, seen, i).pending[i] == pending[i];
      if Owners(net(pending[i]), true).None? {
        var news := Reported(net(pending[i]), true);
        MergeProgress(pending, news);
        UnmetMakeNoDifference(net, other, Merge(pending, news), seen + news, i + 1);
      }
    }
  }

  /** If a reachable peer is not met, it may be the only holder. */
  lemma UnmetHolderIsMissed(net: Network, initial: seq<Peer>, p: Peer)
    requires NobodyHolds(net) && Reachable(net, true, initial, p) && p !in Lookup(net, true, initial).pending
    ensures !FindsRight(Holding(net, iset{p}, []), initial)
  {
    var other := Holding(net, iset{p}, []);
    UnmetMakeNoDifference(net, other, initial, [], 0);
    HolderIsReached(net, initial, [], p);
    assert Owners(other(p), true).Some?;
    NobodyFound(net, initial);
  }

  lemma NobodyFound(net: Network, initial: seq<Peer>)
    requires NobodyHolds(net)
    ensures Lookup(net, true, initial).found.None?
  {
    if Lookup(net, true, initial).found.Some? {
      FoundIsReachable(net, initial);
      var p :| Reachable(net, true, initial, p) && Owners(net(p), true).Some?;
      assert GivesOwners(net, p);
    }
  }

  /** Whoever holds the owners, FIND_VALUE is right, if and only if no two reachable peers, other
      than initial ones, have the same id. */
  lemma AlwaysFindsRightIff(net: Network, initial: seq<Peer>)
    requires NobodyHolds(net)
    ensures AlwaysFindsRight(net, initial) <==> KnownApart(net, true, initial)
  {
    NobodyFound(net, initial);
    MeetsEveryoneIff(net, true, initial);
    if KnownApart(net, true, initial) {
      forall holders: iset<Peer>, owners: seq<Peer> ensures FindsRight(Holding(net, holders, owners), initial) {
        var other := Holding(net, holders, owners);
        forall p | Reachable(other, true, initial, p) ensures Reachable(net, true, initial, p) {
          HoldingReaches(net, initial, holders, owners, p);
        }
        ApartFindsRight(other, initial);
      }
    } else {
      var p :| Reachable(net, true, initial, p) && p !in Lookup(net, true, initial).pending;
      UnmetHolderIsMissed(net, initial, p);
    }
  }

  // ---------- an owner that is missed ----------

  const X: HashID := HashID(seq(ID_LENGTH, _ => 0))
  const A: HashID := HashID(seq(ID_LENGTH, _ => 1))

  /** The address 3, of the id A, reports the id X at the address 2, where the owners are; nobody is
      at the address 1. */
  const SPLIT: Network := (p: Peer) =>
    if p.addr == 3 then FindValueResponse(false, [], [Peer(X, 2)])
    else if p.addr == 2 then FindValueResponse(true, [], [])
    else NoAnswer

  /** A lookup that starts with the id X at the address 1 does not ask the address 2. */
  lemma OwnerIsMissed()
    ensures var initial := [Peer(X, 1), Peer(A, 3)];
            && DistinctIds(initial)
            && Reachable(SPLIT, true, initial, Peer(X, 2)) && GivesOwners(SPLIT, Peer(X, 2))
            && Lookup(SPLIT, true, initial).found.None?
  {
    var initial := [Peer(X, 1), Peer(A, 3)];
    assert X.bytes[0] != A.bytes[0];
    InitialIsReachable(SPLIT, true, initial, Peer(A, 3));
    assert Peer(X, 2) in Reported(SPLIT(Peer(A, 3)), true);
    ReportedIsReachable(SPLIT, true, initial, Peer(A, 3), Peer(X, 2));
    assert initial[0] in initial && HasId(initial, X);
    assert [Peer(X, 2)][1..] == [];
    assert Merge(initial, [Peer(X, 2)]) == initial;
    assert Merge(initial, []) == initial;
    assert Explore(SPLIT, true, initial, [Peer(X, 2)], 2).found.None?;
    assert Explore(SPLIT, true, initial, [], 1) == Explore(SPLIT, true, initial, [Peer(X, 2)], 2) by {
      assert [] + [Peer(X, 2)] == [Peer(X, 2)];
    }
    var nobody: seq<Peer> := [];
    assert nobody + nobody == nobody;
    assert Explore(SPLIT, true, initial, [], 0) == Explore(SPLIT, true, initial, [], 1);
  }
}
