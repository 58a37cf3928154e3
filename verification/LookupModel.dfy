/** The iterative lookup of src/rpc.c against a fixed network, as a function: which peers it
    meets, in which order, and what it answers. */
module LookupModel {
  import opened Buckets
  import opened Ids
  import opened Nearest
  import opened Options
  import Vector

  /** What comes back when a peer is asked. NoAnswer covers every way of not getting a
      well-formed response. */
  datatype Reply =
    | NoAnswer
    | FindNodeResponse(closest: seq<Peer>)
    | FindValueResponse(foundKey: bool, values: seq<Peer>, closest: seq<Peer>)

  type Network = Peer -> Reply

  /** The neighbours that the lookup takes from a reply; replies of the other kind are ignored. */
  function Reported(reply: Reply, findValue: bool): seq<Peer> {
    match reply
    case NoAnswer => []
    case FindNodeResponse(closest) => if findValue then [] else closest
    case FindValueResponse(foundKey, _, closest) => if findValue && !foundKey then closest else []
  }

  /** The owners in a reply that ends a FIND_VALUE lookup. */
  function Owners(reply: Reply, findValue: bool): Option<seq<Peer>> {
    if findValue && reply.FindValueResponse? && reply.foundKey then Some(reply.values) else None
  }

  /** The peers of news that have a new id are appended, one by one. */
  ghost function Merge(pending: seq<Peer>, news: seq<Peer>): (r: seq<Peer>)
    ensures |r| >= |pending|
    decreases |news|
  {
    if news == [] then pending
    else
      var next := if HasId(pending, news[0].id) then pending else pending + [news[0]];
      Merge(next, news[1..])
  }

  /** pending: the peers met; seen: all reported peers, in order; found: the owners. */
  datatype Outcome = Outcome(pending: seq<Peer>, seen: seq<Peer>, found: Option<seq<Peer>>)

  // ---------- the finite id space ----------

  function Byte(k: nat): bv8
    requires k < 256
  {
    k as bv8
  }

  ghost function Strings(n: nat): set<seq<bv8>> {
    if n == 0 then {[]} else set k: nat, s | k < 256 && s in Strings(n - 1) :: [Byte(k)] + s
  }

  lemma {:induction false} StringsAreAll(n: nat, s: seq<bv8>)
    requires |s| == n
    ensures s in Strings(n)
  {
    if n > 0 {
      StringsAreAll(n - 1, s[1..]);
      var k := s[0] as nat;
      assert k < 256 && Byte(k) == s[0];
      assert s == [Byte(k)] + s[1..];
    }
  }

  ghost predicate HoldsEveryId(all: set<HashID>) {
    forall id :: id in all
  }

  lemma FinitelyManyIds(n: nat)
    requires n == ID_LENGTH
    ensures exists all: set<HashID> :: HoldsEveryId(all)
  {
    var all := set s | s in Strings(n) && |s| == ID_LENGTH :: HashID(s);
    forall id: HashID ensures id in all {
      StringsAreAll(n, id.bytes);
      assert id == HashID(id.bytes);
    }
    assert HoldsEveryId(all);
  }

  ghost function AllIds(): (all: set<HashID>)
    ensures HoldsEveryId(all)
  {
    FinitelyManyIds(ID_LENGTH);
    var all: set<HashID> :| HoldsEveryId(all);
    all
  }

  ghost function IdsOf(peers: seq<Peer>): set<HashID> {
    set p | p in peers :: p.id
  }

  /** The ids that a lookup has not met. */
  ghost function Unmet(pending: seq<Peer>): set<HashID> {
    AllIds() - IdsOf(pending)
  }

  lemma IdsOfConcat(a: seq<Peer>, b: seq<Peer>)
    ensures IdsOf(a + b) == IdsOf(a) + IdsOf(b)
  {
    forall x | x in IdsOf(a) + IdsOf(b) ensures x in IdsOf(a + b) {
      if x in IdsOf(a) {
        var p :| p in a && p.id == x;
        assert p in a + b;
      } else {
        var p :| p in b && p.id == x;
        assert p in a + b;
      }
    }
  }

  lemma HasIdInIds(peers: seq<Peer>, id: HashID)
    ensures HasId(peers, id) <==> id in IdsOf(peers)
  {
  }

  lemma IdsOfSnoc(peers: seq<Peer>, p: Peer)
    ensures IdsOf(peers + [p]) == IdsOf(peers) + {p.id}
  {
    IdsOfConcat(peers, [p]);
    assert IdsOf([p]) == {p.id};
  }

  lemma UnmetShrinks(pending: seq<Peer>, p: Peer)
    requires !HasId(pending, p.id)
    ensures |Unmet(pending + [p])| < |Unmet(pending)|
  {
    HasIdInIds(pending, p.id);
    IdsOfSnoc(pending, p);
    OneFewer(AllIds(), IdsOf(pending), p.id);
  }

  lemma OneFewer<T>(all: set<T>, met: set<T>, x: T)
    requires x in all && x !in met
    ensures |all - (met + {x})| < |all - met|
  {
    assert all - (met + {x}) == all - met - {x};
  }

  /** Merging adds nothing or meets new ids. */
  lemma {:induction false} MergeProgress(pending: seq<Peer>, news: seq<Peer>)
    ensures Merge(pending, news) == pending || |Unmet(Merge(pending, news))| < |Unmet(pending)|
    decreases |news|
  {
    if news != [] {
      if HasId(pending, news[0].id) {
        MergeProgress(pending, news[1..]);
      } else {
        UnmetShrinks(pending, news[0]);
        MergeProgress(pending + [news[0]], news[1..]);
      }
    }
  }

  // ---------- the lookup ----------

  /** Asks the peers from position i on, in order. It ends for every network, because each
      peer that is added has an id that was not met before. */
  ghost function Explore(net: Network, findValue: bool, pending: seq<Peer>, seen: seq<Peer>, i: nat): Outcome
    requires i <= |pending|
    decreases |Unmet(pending)|, |pending| - i
  {
    if i == |pending| then Outcome(pending, seen, None)
    else
      var reply := net(pending[i]);
      if Owners(reply, findValue).Some? then Outcome(pending, seen, Owners(reply, findValue))
      else
        var news := Reported(reply, findValue);
        MergeProgress(pending, news);
        Explore(net, findValue, Merge(pending, news), seen + news, i + 1)
  }

  lemma {:induction false} MergeExtends(pending: seq<Peer>, news: seq<Peer>)
    ensures pending <= Merge(pending, news)
    decreases |news|
  {
    if news != [] {
      var next := if HasId(pending, news[0].id) then pending else pending + [news[0]];
      MergeExtends(next, news[1..]);
      assert pending <= next;
    }
  }

  /** Peers are only appended: the order of asking is the order of `pending`. */
  lemma {:induction false} ExploreExtends(net: Network, findValue: bool, pending: seq<Peer>, seen: seq<Peer>, i: nat)
    requires i <= |pending|
    ensures pending <= Explore(net, findValue, pending, seen, i).pending
    decreases |Unmet(pending)|, |pending| - i
  {
    if i < |pending| && Owners(net(pending[i]), findValue).None? {
      var news := Reported(net(pending[i]), findValue);
      MergeProgress(pending, news);
      MergeExtends(pending, news);
      ExploreExtends(net, findValue, Merge(pending, news), seen + news, i + 1);
    }
  }

  // ---------- what the lookup meets ----------

  /** Every peer that a peer of `asked` reports has an id in `met`. */
  ghost predicate ClosedById(net: Network, findValue: bool, asked: set<Peer>, met: set<HashID>) {
    forall p | p in asked :: KnowsReported(net, findValue, p, met)
  }

  ghost predicate KnowsReported(net: Network, findValue: bool, p: Peer, met: set<HashID>) {
    IdsOf(Reported(net(p), findValue)) <= met
  }

  lemma {:induction false} MergeMeets(pending: seq<Peer>, news: seq<Peer>)
    ensures IdsOf(Merge(pending, news)) == IdsOf(pending) + IdsOf(news)
    ensures Elements(Merge(pending, news)) <= Elements(pending) + Elements(news)
    decreases |news|
  {
    if news != [] {
      var p := news[0];
      var next := if HasId(pending, p.id) then pending else pending + [p];
      MergeMeets(next, news[1..]);
      assert news == [p] + news[1..];
      IdsOfConcat([p], news[1..]);
      ElementsConcat([p], news[1..]);
      assert IdsOf([p]) == {p.id} && Elements([p]) == {p};
      HasIdInIds(pending, p.id);
      IdsOfSnoc(pending, p);
      ElementsSnoc(pending, p);
    }
  }

  /** When no owner is found every peer met has been asked, and whoever it reports is known. */
  lemma {:induction false} ExploreCloses(net: Network, findValue: bool, pending: seq<Peer>, seen: seq<Peer>, i: nat)
    requires i <= |pending| && ClosedById(net, findValue, Elements(pending[..i]), IdsOf(pending))
    ensures var o := Explore(net, findValue, pending, seen, i);
            o.found.None? ==> ClosedById(net, findValue, Elements(o.pending), IdsOf(o.pending))
    decreases |Unmet(pending)|, |pending| - i
  {
    if i == |pending| {
      assert pending[..i] == pending;
    } else if Owners(net(pending[i]), findValue).None? {
      var news := Reported(net(pending[i]), findValue);
      MergeProgress(pending, news);
      MergeMeets(pending, news);
      MergeExtends(pending, news);
      AskOneMore(net, findValue, pending, i, Merge(pending, news));
      ExploreCloses(net, findValue, Merge(pending, news), seen + news, i + 1);
    }
  }

  lemma AskOneMore(net: Network, findValue: bool, pending: seq<Peer>, i: nat, more: seq<Peer>)
    requires i < |pending| && pending <= more
    requires IdsOf(more) == IdsOf(pending) + IdsOf(Reported(net(pending[i]), findValue))
    requires ClosedById(net, findValue, Elements(pending[..i]), IdsOf(pending))
    ensures ClosedById(net, findValue, Elements(more[..i + 1]), IdsOf(more))
  {
    assert more[..i + 1] == pending[..i] + [pending[i]];
    ElementsSnoc(pending[..i], pending[i]);
    forall p | p in Elements(pending[..i]) ensures KnowsReported(net, findValue, p, IdsOf(more)) {
      assert KnowsReported(net, findValue, p, IdsOf(pending));
    }
  }

  /** s holds whoever its members report. */
  ghost predicate ClosedUnderReplies(net: Network, findValue: bool, s: iset<Peer>) {
    forall p {:trigger Within(Reported(net(p), findValue), s)} | p in s :: Within(Reported(net(p), findValue), s)
  }

  ghost predicate Within(peers: seq<Peer>, s: iset<Peer>) {
    forall p | p in Elements(peers) :: p in s
  }

  /** Whatever set of peers holds the initial ones and is closed under replies holds every
      peer that the lookup meets. */
  lemma {:induction false} ExploreReaches(net: Network, findValue: bool, pending: seq<Peer>, seen: seq<Peer>, i: nat,
                                          s: iset<Peer>)
    requires i <= |pending| && ClosedUnderReplies(net, findValue, s) && Within(pending, s)
    ensures Within(Explore(net, findValue, pending, seen, i).pending, s)
    decreases |Unmet(pending)|, |pending| - i
  {
    if i < |pending| && Owners(net(pending[i]), findValue).None? {
      var news := Reported(net(pending[i]), findValue);
      MergeProgress(pending, news);
      MergeMeets(pending, news);
      WithinMerge(net, findValue, pending, i, Merge(pending, news), s);
      ExploreReaches(net, findValue, Merge(pending, news), seen + news, i + 1, s);
    }
  }

  lemma WithinMerge(net: Network, findValue: bool, pending: seq<Peer>, i: nat, more: seq<Peer>, s: iset<Peer>)
    requires i < |pending| && ClosedUnderReplies(net, findValue, s) && Within(pending, s)
    requires Elements(more) <= Elements(pending) + Elements(Reported(net(pending[i]), findValue))
    ensures Within(more, s)
  {
    assert pending[i] in Elements(pending);
    assert Within(Reported(net(pending[i]), findValue), s);
  }

  // ---------- no id is met twice ----------

  lemma {:induction false} MergeDistinct(pending: seq<Peer>, news: seq<Peer>)
    ensures DistinctIds(Merge(pending, news)) <==> DistinctIds(pending)
    decreases |news|
  {
    if news != [] {
      if HasId(pending, news[0].id) {
        MergeDistinct(pending, news[1..]);
      } else {
        NewIdDistinct(pending, news[0]);
        MergeDistinct(pending + [news[0]], news[1..]);
      }
    }
  }

  lemma NewIdDistinct(pending: seq<Peer>, p: Peer)
    requires !HasId(pending, p.id)
    ensures DistinctIds(pending + [p]) <==> DistinctIds(pending)
  {
    if DistinctIds(pending) {
      forall q, r | q in pending && r in [p] ensures q.id != r.id {}
      DistinctConcat(pending, [p]);
    }
    if DistinctIds(pending + [p]) {
      DistinctSplit(pending, [p]);
    }
  }

  /** The lookup never adds a known id; a repetition can only come from the initial peers. */
  lemma {:induction false} ExploreDistinct(net: Network, findValue: bool, pending: seq<Peer>, seen: seq<Peer>, i: nat)
    requires i <= |pending|
    ensures DistinctIds(Explore(net, findValue, pending, seen, i).pending) <==> DistinctIds(pending)
    decreases |Unmet(pending)|, |pending| - i
  {
    if i < |pending| && Owners(net(pending[i]), findValue).None? {
      var news := Reported(net(pending[i]), findValue);
      MergeProgress(pending, news);
      MergeDistinct(pending, news);
      ExploreDistinct(net, findValue, Merge(pending, news), seen + news, i + 1);
    }
  }

  // ---------- which owners are found ----------

  /** The position of the first peer, from position i on, that answers with owners. */
  ghost predicate FirstOwner(net: Network, pending: seq<Peer>, i: nat, v: nat) {
    && i <= v < |pending|
    && Owners(net(pending[v]), true).Some?
    && forall k: nat | i <= k < v :: Owners(net(pending[k]), true).None?
  }

  /** The owners found are those that the earliest answering peer gives, in the order in
      which the peers are asked; without owners no peer met gives any. */
  lemma {:induction false} ExploreFindsFirst(net: Network, pending: seq<Peer>, seen: seq<Peer>, i: nat)
    requires i <= |pending|
    ensures var o := Explore(net, true, pending, seen, i);
            if o.found.Some?
            then exists v: nat :: FirstOwner(net, o.pending, i, v) && o.found == Owners(net(o.pending[v]), true)
            else forall k: nat | i <= k < |o.pending| :: Owners(net(o.pending[k]), true).None?
    decreases |Unmet(pending)|, |pending| - i
  {
    if i < |pending| {
      if Owners(net(pending[i]), true).Some? {
        assert FirstOwner(net, pending, i, i);
      } else {
        var news := Reported(net(pending[i]), true);
        MergeProgress(pending, news);
        MergeExtends(pending, news);
        ExploreExtends(net, true, Merge(pending, news), seen + news, i + 1);
        ExploreFindsFirst(net, Merge(pending, news), seen + news, i + 1);
        var o := Explore(net, true, Merge(pending, news), seen + news, i + 1);
        assert o.pending[i] == pending[i];
        if o.found.Some? {
          var v: nat :| FirstOwner(net, o.pending, i + 1, v) && o.found == Owners(net(o.pending[v]), true);
          assert FirstOwner(net, o.pending, i, v);
        }
      }
    }
  }

  /** A FIND_NODE lookup never stops early. */
  lemma {:induction false} NodeLookupFindsNoOwner(net: Network, pending: seq<Peer>, seen: seq<Peer>, i: nat)
    requires i <= |pending|
    ensures Explore(net, false, pending, seen, i).found.None?
    decreases |Unmet(pending)|, |pending| - i
  {
    if i < |pending| {
      var news := Reported(net(pending[i]), false);
      MergeProgress(pending, news);
      NodeLookupFindsNoOwner(net, Merge(pending, news), seen + news, i + 1);
    }
  }

  // ---------- reachability ----------

  ghost function Lookup(net: Network, findValue: bool, initial: seq<Peer>): Outcome {
    Explore(net, findValue, initial, [], 0)
  }

  lemma FoundMeansFindValue(net: Network, findValue: bool, initial: seq<Peer>)
    ensures Lookup(net, findValue, initial).found.Some? ==> findValue
  {
    NodeLookupFindsNoOwner(net, initial, [], 0);
  }

  /** p is in every set of peers that holds the initial ones and is closed under replies. */
  ghost predicate Reachable(net: Network, findValue: bool, initial: seq<Peer>, p: Peer) {
    forall s: iset<Peer> | Within(initial, s) && ClosedUnderReplies(net, findValue, s) :: p in s
  }

  /** Reachable peers with the same id give the same reply. */
  ghost predicate SameReplies(net: Network, findValue: bool, initial: seq<Peer>) {
    forall p: Peer, q: Peer |
      p.id == q.id && Reachable(net, findValue, initial, p) && Reachable(net, findValue, initial, q) :: net(p) == net(q)
  }

  /** Every peer met is reachable. */
  lemma LookupMeetsReachable(net: Network, findValue: bool, initial: seq<Peer>, p: Peer)
    requires p in Lookup(net, findValue, initial).pending
    ensures Reachable(net, findValue, initial, p)
  {
    forall s: iset<Peer> | Within(initial, s) && ClosedUnderReplies(net, findValue, s) ensures p in s {
      ExploreReaches(net, findValue, initial, [], 0, s);
      assert p in Elements(Lookup(net, findValue, initial).pending);
    }
  }

  lemma ReportedIsReachable(net: Network, findValue: bool, initial: seq<Peer>, p: Peer, q: Peer)
    requires Reachable(net, findValue, initial, p) && q in Reported(net(p), findValue)
    ensures Reachable(net, findValue, initial, q)
  {
    forall s: iset<Peer> | Within(initial, s) && ClosedUnderReplies(net, findValue, s) ensures q in s {
      assert p in s && Within(Reported(net(p), findValue), s);
      assert q in Elements(Reported(net(p), findValue));
    }
  }

  lemma InitialIsReachable(net: Network, findValue: bool, initial: seq<Peer>, p: Peer)
    requires p in initial
    ensures Reachable(net, findValue, initial, p)
  {
    forall s: iset<Peer> | Within(initial, s) && ClosedUnderReplies(net, findValue, s) ensures p in s {
      assert p in Elements(initial);
    }
  }

  /** Whoever a peer that was met reports has an id that was met, and can be reached. */
  lemma ReportedIsMet(net: Network, findValue: bool, initial: seq<Peer>, p: Peer, q: Peer)
    requires Lookup(net, findValue, initial).found.None? && p in Lookup(net, findValue, initial).pending
    requires q in Reported(net(p), findValue)
    ensures Reachable(net, findValue, initial, q) && q.id in IdsOf(Lookup(net, findValue, initial).pending)
  {
    var o := Lookup(net, findValue, initial);
    ExploreCloses(net, findValue, initial, [], 0);
    assert p in Elements(o.pending) && KnowsReported(net, findValue, p, IdsOf(o.pending));
    assert q.id in IdsOf(Reported(net(p), findValue));
    LookupMeetsReachable(net, findValue, initial, p);
    ReportedIsReachable(net, findValue, initial, p, q);
  }

  lemma InitialAreMet(net: Network, findValue: bool, initial: seq<Peer>)
    ensures initial <= Lookup(net, findValue, initial).pending
    ensures IdsOf(initial) <= IdsOf(Lookup(net, findValue, initial).pending)
  {
    var o := Lookup(net, findValue, initial);
    ExploreExtends(net, findValue, initial, [], 0);
    assert o.pending == initial + o.pending[|initial|..];
    IdsOfConcat(initial, o.pending[|initial|..]);
  }

  /** A lookup that finds no owner meets the id of every reachable peer, so the ids it met are
      exactly the ids of the reachable peers. */
  lemma LookupMeetsAll(net: Network, findValue: bool, initial: seq<Peer>, id: HashID)
    requires SameReplies(net, findValue, initial) && Lookup(net, findValue, initial).found.None?
    ensures id in IdsOf(Lookup(net, findValue, initial).pending) <==>
            exists p: Peer :: p.id == id && Reachable(net, findValue, initial, p)
  {
    var o := Lookup(net, findValue, initial);
    if id in IdsOf(o.pending) {
      var p :| p in o.pending && p.id == id;
      LookupMeetsReachable(net, findValue, initial, p);
    }
    if exists p: Peer :: p.id == id && Reachable(net, findValue, initial, p) {
      var p: Peer :| p.id == id && Reachable(net, findValue, initial, p);
      MetIdsAreClosed(net, findValue, initial);
      var s := iset q: Peer | Reachable(net, findValue, initial, q) && q.id in IdsOf(o.pending);
      assert p in s;
    }
  }

  /** The reachable peers whose ids were met are closed under replies. */
  lemma MetIdsAreClosed(net: Network, findValue: bool, initial: seq<Peer>)
    requires SameReplies(net, findValue, initial) && Lookup(net, findValue, initial).found.None?
    ensures var met := IdsOf(Lookup(net, findValue, initial).pending);
            var s := iset q: Peer | Reachable(net, findValue, initial, q) && q.id in met;
            Within(initial, s) && ClosedUnderReplies(net, findValue, s)
  {
    var o := Lookup(net, findValue, initial);
    var met := IdsOf(o.pending);
    var s := iset q: Peer | Reachable(net, findValue, initial, q) && q.id in met;
    InitialAreMet(net, findValue, initial);
    forall q | q in Elements(initial) ensures q in s {
      InitialIsReachable(net, findValue, initial, q);
      assert q.id in IdsOf(initial);
    }
    forall p | p in s ensures Within(Reported(net(p), findValue), s) {
      var p' :| p' in o.pending && p'.id == p.id;
      LookupMeetsReachable(net, findValue, initial, p');
      assert net(p) == net(p');
      forall q | q in Elements(Reported(net(p), findValue)) ensures q in s {
        ReportedIsMet(net, findValue, initial, p', q);
      }
    }
  }

  lemma NoReachableOwner(net: Network, initial: seq<Peer>, p: Peer)
    requires SameReplies(net, true, initial) && Lookup(net, true, initial).found.None?
    requires Reachable(net, true, initial, p)
    ensures Owners(net(p), true).None?
  {
    LookupMeetsAll(net, true, initial, p.id);
    ExploreFindsFirst(net, initial, [], 0);
    var o := Lookup(net, true, initial);
    var k: nat :| k < |o.pending| && o.pending[k].id == p.id;
    LookupMeetsReachable(net, true, initial, o.pending[k]);
    assert net(o.pending[k]) == net(p);
  }

  /** FIND_VALUE finds owners if and only if some reachable peer answers with some. */
  ghost predicate FindsRight(net: Network, initial: seq<Peer>) {
    Lookup(net, true, initial).found.Some? <==>
    exists p :: Reachable(net, true, initial, p) && Owners(net(p), true).Some?
  }

  lemma FoundIsReachable(net: Network, initial: seq<Peer>)
    requires Lookup(net, true, initial).found.Some?
    ensures exists p :: Reachable(net, true, initial, p) && Owners(net(p), true).Some?
  {
    var o := Lookup(net, true, initial);
    ExploreFindsFirst(net, initial, [], 0);
    var v: nat :| FirstOwner(net, o.pending, 0, v) && o.found == Owners(net(o.pending[v]), true);
    LookupMeetsReachable(net, true, initial, o.pending[v]);
  }

  /** It does so where reachable peers of the same id give the same reply. */
  lemma LookupFindsIff(net: Network, initial: seq<Peer>)
    requires SameReplies(net, true, initial)
    ensures FindsRight(net, initial)
  {
    if Lookup(net, true, initial).found.Some? {
      FoundIsReachable(net, initial);
    } else {
      forall p | Reachable(net, true, initial, p) ensures Owners(net(p), true).None? {
        NoReachableOwner(net, initial, p);
      }
    }
  }

  // ---------- reachability of ids ----------

  /** s holds the ids that any peer with an id in s reports, among the peers that were met. */
  ghost predicate ClosedUnderMet(net: Network, findValue: bool, met: set<Peer>, s: set<HashID>) {
    forall p | p in met && p.id in s :: KnowsReported(net, findValue, p, s)
  }

  lemma MetReportsWithin(net: Network, findValue: bool, met: seq<Peer>, i: nat, s: set<HashID>)
    requires i < |met| && met[i].id in s && ClosedUnderMet(net, findValue, Elements(met), s)
    ensures IdsOf(Reported(net(met[i]), findValue)) <= s
  {
    assert met[i] in Elements(met) && KnowsReported(net, findValue, met[i], s);
  }

  lemma {:induction false} ExploreLeast(net: Network, findValue: bool, pending: seq<Peer>, seen: seq<Peer>, i: nat,
                                        s: set<HashID>, met: seq<Peer>)
    requires i <= |pending| && IdsOf(pending) <= s
    requires met == Explore(net, findValue, pending, seen, i).pending
    requires ClosedUnderMet(net, findValue, Elements(met), s)
    ensures IdsOf(met) <= s
    decreases |Unmet(pending)|, |pending| - i
  {
    if i < |pending| && Owners(net(pending[i]), findValue).None? {
      var news := Reported(net(pending[i]), findValue);
      MergeProgress(pending, news);
      ExploreExtends(net, findValue, pending, seen, i);
      assert met[i] == pending[i];
      assert pending[i].id in IdsOf(pending);
      MetReportsWithin(net, findValue, met, i, s);
      MergeWithin(pending, news, s);
      ExploreLeast(net, findValue, Merge(pending, news), seen + news, i + 1, s, met);
    }
  }

  lemma MergeWithin(pending: seq<Peer>, news: seq<Peer>, s: set<HashID>)
    requires IdsOf(pending) <= s && IdsOf(news) <= s
    ensures IdsOf(Merge(pending, news)) <= s
  {
    MergeMeets(pending, news);
  }

  /** For every network, even one that gives peers of the same id different replies: a lookup
      that finds no owner meets the least set of ids that holds the initial ones and is closed
      under the replies of the peers it met, which are the first ones met with their ids. */
  lemma LookupMeetsLeast(net: Network, findValue: bool, initial: seq<Peer>, s: set<HashID>)
    requires Lookup(net, findValue, initial).found.None?
    ensures var o := Lookup(net, findValue, initial);
            && IdsOf(initial) <= IdsOf(o.pending)
            && ClosedUnderMet(net, findValue, Elements(o.pending), IdsOf(o.pending))
            && (IdsOf(initial) <= s && ClosedUnderMet(net, findValue, Elements(o.pending), s) ==> IdsOf(o.pending) <= s)
  {
    var o := Lookup(net, findValue, initial);
    InitialAreMet(net, findValue, initial);
    ExploreCloses(net, findValue, initial, [], 0);
    if IdsOf(initial) <= s && ClosedUnderMet(net, findValue, Elements(o.pending), s) {
      ExploreLeast(net, findValue, initial, [], 0, s, o.pending);
    }
  }

  // ---------- the routing table during a lookup ----------

  /** The table after a run of updates; without our own id nothing is stored. */
  ghost function UpdatedBy(own: Option<HashID>, bs: seq<seq<Peer>>, peers: seq<Peer>): seq<seq<Peer>>
    requires own.Some? ==> InRange(own.value, |bs|, peers)
    ensures |UpdatedBy(own, bs, peers)| == |bs|
  {
    if own.None? then bs else UpdatedAll(own.value, bs, peers)
  }

  lemma {:induction false} UpdatedAllConcat(own: HashID, bs: seq<seq<Peer>>, a: seq<Peer>, b: seq<Peer>)
    requires InRange(own, |bs|, a) && InRange(own, |bs|, b)
    ensures InRange(own, |bs|, a + b)
    ensures UpdatedAll(own, bs, a + b) == UpdatedAll(own, UpdatedAll(own, bs, a), b)
    decreases |a|
  {
    InRangeConcat(own, |bs|, a, b);
    if a == [] {
      assert a + b == b;
    } else {
      assert a[0] in a && (a + b)[1..] == a[1..] + b;
      UpdatedAllConcat(own, Updated(Some(own), bs, a[0]), a[1..], b);
    }
  }

  lemma UpdatedByConcat(own: Option<HashID>, bs: seq<seq<Peer>>, a: seq<Peer>, b: seq<Peer>)
    requires own.Some? ==> InRange(own.value, |bs|, a) && InRange(own.value, |bs|, b)
    ensures own.Some? ==> InRange(own.value, |bs|, a + b)
    ensures UpdatedBy(own, bs, a + b) == UpdatedBy(own, UpdatedBy(own, bs, a), b)
  {
    if own.Some? {
      UpdatedAllConcat(own.value, bs, a, b);
    }
  }

  /** Whoever is reported has a bucket in a table of n buckets. */
  ghost predicate Placeable(own: Option<HashID>, n: nat, net: Network, findValue: bool) {
    own.Some? ==>
      forall p {:trigger InRange(own.value, n, Reported(net(p), findValue))} ::
        InRange(own.value, n, Reported(net(p), findValue))
  }

  lemma InRangeConcat(own: HashID, n: nat, a: seq<Peer>, b: seq<Peer>)
    requires InRange(own, n, a) && InRange(own, n, b)
    ensures InRange(own, n, a + b)
  {
  }

  lemma {:induction false} SeenArePlaceable(own: HashID, n: nat, net: Network, findValue: bool,
                                            pending: seq<Peer>, seen: seq<Peer>, i: nat)
    requires Placeable(Some(own), n, net, findValue) && i <= |pending| && InRange(own, n, seen)
    ensures InRange(own, n, Explore(net, findValue, pending, seen, i).seen)
    decreases |Unmet(pending)|, |pending| - i
  {
    if i < |pending| && Owners(net(pending[i]), findValue).None? {
      var news := Reported(net(pending[i]), findValue);
      MergeProgress(pending, news);
      InRangeConcat(own, n, seen, news);
      SeenArePlaceable(own, n, net, findValue, Merge(pending, news), seen + news, i + 1);
    }
  }

  /** A lookup from the peers `initial` and the table `bs` has reached position i: `pending`
      and `seen` are its peers so far, and `now` is the table. */
  ghost predicate OnTrack(net: Network, findValue: bool, own: Option<HashID>, initial: seq<Peer>, bs: seq<seq<Peer>>,
                          pending: seq<Peer>, seen: seq<Peer>, i: nat, now: seq<seq<Peer>>)
  {
    && i <= |pending| && initial <= pending
    && Explore(net, findValue, pending, seen, i) == Lookup(net, findValue, initial)
    && (own.Some? ==> InRange(own.value, |bs|, seen))
    && now == UpdatedBy(own, bs, seen)
  }

  lemma OnTrackStart(net: Network, findValue: bool, own: Option<HashID>, initial: seq<Peer>, bs: seq<seq<Peer>>)
    ensures OnTrack(net, findValue, own, initial, bs, initial, [], 0, bs)
  {
  }

  lemma OnTrackStep(net: Network, findValue: bool, own: Option<HashID>, initial: seq<Peer>, bs: seq<seq<Peer>>,
                    pending: seq<Peer>, seen: seq<Peer>, i: nat, now: seq<seq<Peer>>)
    requires OnTrack(net, findValue, own, initial, bs, pending, seen, i, now) && i < |pending|
    requires Placeable(own, |bs|, net, findValue) && Owners(net(pending[i]), findValue).None?
    ensures var news := Reported(net(pending[i]), findValue);
            && (own.Some? ==> InRange(own.value, |now|, news))
            && OnTrack(net, findValue, own, initial, bs, Merge(pending, news), seen + news, i + 1,
                       UpdatedBy(own, now, news))
  {
    var news := Reported(net(pending[i]), findValue);
    MergeProgress(pending, news);
    MergeExtends(pending, news);
    UpdatedByConcat(own, bs, seen, news);
  }

  /** Where the lookup stops: past the last peer, or at a peer that gives owners. */
  lemma OnTrackEnd(net: Network, findValue: bool, own: Option<HashID>, initial: seq<Peer>, bs: seq<seq<Peer>>,
                   pending: seq<Peer>, seen: seq<Peer>, i: nat, now: seq<seq<Peer>>)
    requires OnTrack(net, findValue, own, initial, bs, pending, seen, i, now)
    requires i < |pending| ==> Owners(net(pending[i]), findValue).Some?
    ensures var found := if i < |pending| then Owners(net(pending[i]), findValue) else None;
            Lookup(net, findValue, initial) == Outcome(pending, seen, found)
  {
  }

  // ---------- the k peers returned by FIND_NODE ----------

  /** peer_distance_cmp */
  function DistanceLess(target: HashID): (Peer, Peer) -> bool {
    (p: Peer, q: Peer) => Closer(p.id, q.id, target)
  }

  lemma DistanceIsStrictWeak(target: HashID)
    ensures Vector.StrictWeak(DistanceLess(target))
  {
    var less := DistanceLess(target);
    forall x: Peer, y: Peer ensures Vector.Asymmetric(less, x, y) {
      CloserIsTotal(x.id, y.id, target);
    }
    forall x: Peer, y: Peer, z: Peer ensures Vector.Transitive(less, x, y, z) {
      CloserIsTotal(x.id, y.id, target);
      CloserIsTotal(y.id, z.id, target);
      CloserIsTotal(x.id, z.id, target);
      if Closer(z.id, x.id, target) && x.id != y.id && Closer(x.id, y.id, target) {
        CloserIsTransitive(z.id, x.id, y.id, target);
        CloserIsTotal(y.id, z.id, target);
      }
    }
  }

  lemma SortedInOrder(sorted: seq<Peer>, target: HashID, n: nat)
    requires Vector.Sorted(sorted, DistanceLess(target)) && n <= |sorted|
    ensures forall i: nat, j: nat | i < j < n :: !Closer(sorted[j].id, sorted[i].id, target)
    ensures forall x, p | x in Elements(sorted[..n]) && p in Elements(sorted[n..]) :: !Closer(p.id, x.id, target)
  {
    var less := DistanceLess(target);
    var r, rest := sorted[..n], sorted[n..];
    forall i: nat, j: nat | i < j < |sorted| ensures !Closer(sorted[j].id, sorted[i].id, target) {
      assert Vector.NotAfter(less, sorted[i], sorted[j]);
    }
    forall x, p | x in Elements(r) && p in Elements(rest) ensures !Closer(p.id, x.id, target) {
      var i: nat :| i < n && r[i] == x;
      var j: nat :| j < |rest| && rest[j] == p;
      assert sorted[i] == x && sorted[n + j] == p;
    }
  }

  /** The first k of the sorted peers are in order of distance, and no peer left out is closer
      than one of them; when no id occurs twice they are the k nearest. */
  lemma SortedPrefixIsNearest(pending: seq<Peer>, sorted: seq<Peer>, target: HashID, k: nat)
    requires multiset(sorted) == multiset(pending) && Vector.Sorted(sorted, DistanceLess(target))
    ensures var n := Min(k, |sorted|);
            var r := sorted[..n];
            && (forall i: nat, j: nat | i < j < n :: !Closer(sorted[j].id, sorted[i].id, target))
            && (forall x, p | x in Elements(r) && p in Elements(sorted[n..]) :: !Closer(p.id, x.id, target))
            && (DistinctIds(pending) ==> IsKNearest(r, pending, target, k))
  {
    var n := Min(k, |sorted|);
    SortedInOrder(sorted, target, n);
    if DistinctIds(pending) {
      PermutationDistinct(pending, sorted);
      assert |sorted| == |multiset(sorted)| == |multiset(pending)| == |pending|;
      PrefixIsNearest(sorted, pending, target, n);
    }
  }

  /** The id of p is among those of r, or r is full and p farther than all of it. */
  ghost predicate NotMissed(r: seq<Peer>, p: Peer, target: HashID, k: nat) {
    p.id in IdsOf(r) || (|r| == k && forall x | x in Elements(r) :: Closer(x.id, p.id, target))
  }

  /** The k nearest of the peers met miss nobody whose id was met. */
  lemma MetIsNotMissed(pending: seq<Peer>, sorted: seq<Peer>, target: HashID, k: nat, p: Peer)
    requires multiset(sorted) == multiset(pending) && p.id in IdsOf(pending)
    requires IsKNearest(sorted[..Min(k, |sorted|)], pending, target, k)
    ensures NotMissed(sorted[..Min(k, |sorted|)], p, target, k)
  {
    var r := sorted[..Min(k, |sorted|)];
    if p.id !in IdsOf(r) {
      var q :| q in pending && q.id == p.id;
      assert q in multiset(sorted);
      assert q !in Elements(r) && q in Elements(pending);
      assert |r| < k ==> r == sorted;
    }
  }

  /** FIND_NODE returns the nearest of everything reachable: with initial peers of different
      ids, the first k of the sorted peers are the k nearest of those met, and the id of every
      reachable peer is among them or is farther than all k of them. */
  lemma NodeLookupIsExact(net: Network, initial: seq<Peer>, sorted: seq<Peer>, target: HashID, k: nat, p: Peer)
    requires SameReplies(net, false, initial) && DistinctIds(initial)
    requires multiset(sorted) == multiset(Lookup(net, false, initial).pending)
    requires Vector.Sorted(sorted, DistanceLess(target))
    ensures var r := sorted[..Min(k, |sorted|)];
            && IsKNearest(r, Lookup(net, false, initial).pending, target, k)
            && (forall x | x in Elements(r) :: Reachable(net, false, initial, x))
            && (Reachable(net, false, initial, p) ==> NotMissed(r, p, target, k))
  {
    var pending := Lookup(net, false, initial).pending;
    var r := sorted[..Min(k, |sorted|)];
    ExploreDistinct(net, false, initial, [], 0);
    SortedPrefixIsNearest(pending, sorted, target, k);
    forall x | x in Elements(r) ensures Reachable(net, false, initial, x) {
      assert x in Elements(pending);
      LookupMeetsReachable(net, false, initial, x);
    }
    if Reachable(net, false, initial, p) {
      FoundMeansFindValue(net, false, initial);
      LookupMeetsAll(net, false, initial, p.id);
      MetIsNotMissed(pending, sorted, target, k, p);
    }
  }

  lemma PrefixIsNearest(sorted: seq<Peer>, pending: seq<Peer>, target: HashID, n: nat)
    requires DistinctIds(sorted) && Elements(sorted) == Elements(pending) && n <= |sorted|
    requires forall x, p | x in Elements(sorted[..n]) && p in Elements(sorted[n..]) :: !Closer(p.id, x.id, target)
    ensures DistinctIds(sorted[..n]) && NearestIn(Elements(sorted[..n]), Elements(pending), target)
  {
    var r, rest := sorted[..n], sorted[n..];
    assert sorted == r + rest;
    DistinctSplit(r, rest);
    ElementsConcat(r, rest);
    forall x, p | x in Elements(r) && p in Elements(pending) - Elements(r) ensures Closer(x.id, p.id, target) {
      assert p in Elements(rest);
      CloserIsTotal(x.id, p.id, target);
    }
  }

  lemma PermutationDistinct(a: seq<Peer>, b: seq<Peer>)
    requires multiset(a) == multiset(b) && DistinctIds(a)
    ensures DistinctIds(b) && Elements(a) == Elements(b)
  {
    forall x: Peer ensures x in Elements(a) <==> x in Elements(b) {
      assert x in multiset(a) <==> x in multiset(b);
    }
    assert Elements(a) == Elements(b);
    DistinctCount(a);
    DistinctAreKeyed(a);
    assert |a| == |multiset(a)| == |multiset(b)| == |b|;
    FullCountDistinct(b);
  }

  lemma {:induction false} FullCountDistinct(s: seq<Peer>)
    requires |Elements(s)| == |s| && KeyedById(Elements(s))
    ensures DistinctIds(s)
  {
    if s != [] {
      var front, p := s[..|s| - 1], s[|s| - 1];
      assert s == front + [p];
      ElementsSnoc(front, p);
      ElementsAtMost(front);
      assert p !in Elements(front);
      FullCountDistinct(front);
      forall q | q in front ensures q.id != p.id {
        assert q in Elements(s) && p in Elements(s);
      }
      NewIdDistinct(front, p);
    }
  }

  lemma {:induction false} ElementsAtMost(s: seq<Peer>)
    ensures |Elements(s)| <= |s|
  {
    if s != [] {
      assert s == s[..|s| - 1] + [s[|s| - 1]];
      ElementsSnoc(s[..|s| - 1], s[|s| - 1]);
      ElementsAtMost(s[..|s| - 1]);
    }
  }
}
