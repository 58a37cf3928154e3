/** What a lookup makes of the replies it gets, in terms of their fields: whom it meets, in which
    order, and which owners it returns (src/rpc.c). */
module Replies {
  import opened Buckets
  import opened Ids
  import opened LookupModel
  import opened Nearest
  import opened Options

  // ---------- what a reply says ----------

  /** The peer names these neighbours: in answer to FIND_NODE, or to FIND_VALUE when it does not have
      the key. */
  ghost predicate Names(net: Network, findValue: bool, p: Peer, c: seq<Peer>) {
    || (!findValue && net(p) == FindNodeResponse(c))
    || (findValue && exists v :: net(p) == FindValueResponse(false, v, c))
  }

  /** The peer has the key, and these are its owners. */
  ghost predicate Gives(net: Network, p: Peer, v: seq<Peer>) {
    exists c :: net(p) == FindValueResponse(true, v, c)
  }

  ghost predicate HasKey(net: Network, p: Peer) {
    exists v :: Gives(net, p, v)
  }

  lemma HasKeyIff(net: Network, p: Peer)
    ensures HasKey(net, p) <==> net(p).FindValueResponse? && net(p).foundKey
    ensures HasKey(net, p) <==> Owners(net(p), true).Some?
    ensures HasKey(net, p) ==> Gives(net, p, Owners(net(p), true).value)
    ensures forall v, w | Gives(net, p, v) && Gives(net, p, w) :: v == w
  {
    if net(p).FindValueResponse? && net(p).foundKey {
      assert net(p) == FindValueResponse(true, net(p).values, net(p).closest);
      assert Gives(net, p, net(p).values);
    }
  }

  /** news is what the peer names, or nothing when it names nobody. */
  ghost predicate Hears(net: Network, findValue: bool, p: Peer, news: seq<Peer>) {
    Names(net, findValue, p, news) || (news == [] && forall c :: !Names(net, findValue, p, c))
  }

  lemma ReportedIsHeard(net: Network, findValue: bool, p: Peer)
    ensures Hears(net, findValue, p, Reported(net(p), findValue))
    ensures forall c | Names(net, findValue, p, c) :: Reported(net(p), findValue) == c
  {
    match net(p)
    case NoAnswer =>
    case FindNodeResponse(c) =>
      assert !findValue ==> Names(net, findValue, p, c);
    case FindValueResponse(foundKey, v, c) =>
      assert findValue && !foundKey ==> net(p) == FindValueResponse(false, v, c) && Names(net, findValue, p, c);
  }

  // ---------- the first occurrences of new ids ----------

  /** The peers of news whose id occurs neither in known nor earlier in news. */
  ghost function FirstNew(known: seq<Peer>, news: seq<Peer>): seq<Peer>
    decreases |news|
  {
    if news == [] then []
    else
      var front, p := news[..|news| - 1], news[|news| - 1];
      FirstNew(known, front) + (if HasId(known + front, p.id) then [] else [p])
  }

  lemma {:induction false} MergeConcat(pending: seq<Peer>, a: seq<Peer>, b: seq<Peer>)
    ensures Merge(pending, a + b) == Merge(Merge(pending, a), b)
    decreases |a|
  {
    if a == [] {
      assert a + b == b;
    } else {
      assert (a + b)[1..] == a[1..] + b;
      MergeConcat(if HasId(pending, a[0].id) then pending else pending + [a[0]], a[1..], b);
    }
  }

  lemma MergedIds(pending: seq<Peer>, news: seq<Peer>, id: HashID)
    ensures HasId(Merge(pending, news), id) <==> HasId(pending + news, id)
  {
    MergeMeets(pending, news);
    IdsOfConcat(pending, news);
    HasIdInIds(Merge(pending, news), id);
    HasIdInIds(pending + news, id);
  }

  lemma {:induction false} MergeIs(pending: seq<Peer>, news: seq<Peer>)
    ensures Merge(pending, news) == pending + FirstNew(pending, news)
    decreases |news|
  {
    if news != [] {
      var front, p := news[..|news| - 1], news[|news| - 1];
      assert news == front + [p] && [p][1..] == [];
      MergeIs(pending, front);
      MergeConcat(pending, front, [p]);
      MergedIds(pending, front, p.id);
    }
  }

  // ---------- a lookup, reply by reply ----------

  function Joined(news: seq<seq<Peer>>): seq<Peer> {
    if news == [] then [] else Joined(news[..|news| - 1]) + news[|news| - 1]
  }

  /** The first |news| of the peers were asked, in order: these were their answers, and with
      FIND_VALUE none of them had the key. */
  ghost predicate Asked(net: Network, findValue: bool, pending: seq<Peer>, news: seq<seq<Peer>>) {
    && |news| <= |pending|
    && forall i: nat | i < |news| ::
         Hears(net, findValue, pending[i], news[i]) && !(findValue && HasKey(net, pending[i]))
  }

  /** The answers of a lookup that began with the peers `initial` and has met these. */
  ghost predicate Recorded(net: Network, findValue: bool, initial: seq<Peer>, pending: seq<Peer>, seen: seq<Peer>,
                           news: seq<seq<Peer>>)
  {
    Asked(net, findValue, pending, news) && seen == Joined(news) && pending == Merge(initial, seen)
  }

  /** A lookup ended after the last of these answers, and why: everyone met was asked, or the next
      peer gave owners. */
  ghost predicate Ended(net: Network, findValue: bool, news: seq<seq<Peer>>, o: Outcome) {
    match o.found
    case None => |news| == |o.pending|
    case Some(v) => findValue && |news| < |o.pending| && Gives(net, o.pending[|news|], v)
  }

  lemma RecordMore(net: Network, findValue: bool, initial: seq<Peer>, pending: seq<Peer>, seen: seq<Peer>,
                   news: seq<seq<Peer>>)
    requires Recorded(net, findValue, initial, pending, seen, news) && |news| < |pending|
    requires Owners(net(pending[|news|]), findValue).None?
    ensures var more := Reported(net(pending[|news|]), findValue);
            Recorded(net, findValue, initial, Merge(pending, more), seen + more, news + [more])
  {
    var more := Reported(net(pending[|news|]), findValue);
    AskMore(net, findValue, pending, Merge(pending, more), news, more);
    MergeConcat(initial, seen, more);
    assert (news + [more])[..|news|] == news;
  }

  lemma AskMore(net: Network, findValue: bool, pending: seq<Peer>, met: seq<Peer>, news: seq<seq<Peer>>,
                more: seq<Peer>)
    requires Asked(net, findValue, pending, news) && |news| < |pending| && met == Merge(pending, more)
    requires Owners(net(pending[|news|]), findValue).None? && more == Reported(net(pending[|news|]), findValue)
    ensures Asked(net, findValue, met, news + [more])
  {
    ReportedIsHeard(net, findValue, pending[|news|]);
    HasKeyIff(net, pending[|news|]);
    MergeExtends(pending, more);
  }

  lemma {:induction false} ExploreRecords(net: Network, findValue: bool, initial: seq<Peer>, pending: seq<Peer>,
                                          seen: seq<Peer>, news: seq<seq<Peer>>) returns (all: seq<seq<Peer>>)
    requires Recorded(net, findValue, initial, pending, seen, news)
    ensures var o := Explore(net, findValue, pending, seen, |news|);
            Recorded(net, findValue, initial, o.pending, o.seen, all) && Ended(net, findValue, all, o)
    decreases |Unmet(pending)|, |pending| - |news|
  {
    all := news;
    if |news| < |pending| {
      var p := pending[|news|];
      HasKeyIff(net, p);
      if Owners(net(p), findValue).None? {
        var more := Reported(net(p), findValue);
        MergeProgress(pending, more);
        RecordMore(net, findValue, initial, pending, seen, news);
        all := ExploreRecords(net, findValue, initial, Merge(pending, more), seen + more, news + [more]);
      }
    }
  }

  /** A lookup asks the peers in the order in which it meets them, and meets the initial ones and
      then whoever is named, each id once, in the order of the answers; `seen` is all who are named.
      It ends when everyone met was asked, or with the owners of the first peer that has the key. */
  lemma LookupMeets(net: Network, findValue: bool, initial: seq<Peer>) returns (news: seq<seq<Peer>>)
    ensures var o := Lookup(net, findValue, initial);
            && Asked(net, findValue, o.pending, news) && Ended(net, findValue, news, o)
            && o.seen == Joined(news)
            && o.pending == initial + FirstNew(initial, Joined(news))
  {
    news := ExploreRecords(net, findValue, initial, initial, [], []);
    MergeIs(initial, Joined(news));
  }

  // ---------- whom it meets ----------

  lemma {:induction false} JoinedMember(news: seq<seq<Peer>>, p: Peer)
    ensures p in Joined(news) <==> exists i: nat :: i < |news| && p in news[i]
    decreases |news|
  {
    if news != [] {
      JoinedMember(news[..|news| - 1], p);
    }
  }

  /** When a lookup ends without owners, whoever a peer met names has been met by id. */
  lemma NamedAreMet(net: Network, findValue: bool, initial: seq<Peer>, p: Peer, c: seq<Peer>, q: Peer)
    requires Lookup(net, findValue, initial).found.None? && p in Lookup(net, findValue, initial).pending
    requires Names(net, findValue, p, c) && q in c
    ensures HasId(Lookup(net, findValue, initial).pending, q.id)
  {
    var o := Lookup(net, findValue, initial);
    ReportedIsHeard(net, findValue, p);
    ReportedIsMet(net, findValue, initial, p, q);
    HasIdInIds(o.pending, q.id);
  }

  lemma {:induction false} FirstNewFrom(known: seq<Peer>, news: seq<Peer>, q: Peer)
    requires q in FirstNew(known, news)
    ensures q in news
    decreases |news|
  {
    var front := news[..|news| - 1];
    if q in FirstNew(known, front) {
      FirstNewFrom(known, front, q);
    }
  }

  /** The peer met is an initial one, or one that a peer met names. */
  ghost predicate MetOrNamed(net: Network, findValue: bool, initial: seq<Peer>, pending: seq<Peer>, q: Peer) {
    q in initial || exists p, c :: p in pending && Names(net, findValue, p, c) && q in c
  }

  /** Nobody else is met. */
  lemma MetAreNamed(net: Network, findValue: bool, initial: seq<Peer>, q: Peer)
    requires q in Lookup(net, findValue, initial).pending
    ensures MetOrNamed(net, findValue, initial, Lookup(net, findValue, initial).pending, q)
  {
    var o := Lookup(net, findValue, initial);
    var news := LookupMeets(net, findValue, initial);
    if q !in initial {
      FirstNewFrom(initial, Joined(news), q);
      JoinedMember(news, q);
      var i: nat :| i < |news| && q in news[i];
      assert Hears(net, findValue, o.pending[i], news[i]);
      assert o.pending[i] in o.pending && Names(net, findValue, o.pending[i], news[i]);
    }
  }

  // ---------- which owners it returns ----------

  /** Position i is that of the first of the peers that has the key, and v are its owners. */
  ghost predicate FirstGives(net: Network, pending: seq<Peer>, i: nat, v: seq<Peer>) {
    i < |pending| && Gives(net, pending[i], v) && forall j: nat | j < i :: !HasKey(net, pending[j])
  }

  /** FIND_VALUE returns v if and only if v are the owners that the first of the peers met gives. */
  lemma FoundIff(net: Network, initial: seq<Peer>, v: seq<Peer>)
    ensures var o := Lookup(net, true, initial);
            o.found == Some(v) <==> exists i: nat :: FirstGives(net, o.pending, i, v)
  {
    var o := Lookup(net, true, initial);
    var news := LookupMeets(net, true, initial);
    if o.found == Some(v) {
      assert FirstGives(net, o.pending, |news|, v);
    }
    if i: nat :| FirstGives(net, o.pending, i, v) {
      assert i >= |news|;
      if o.found.Some? {
        assert i == |news|;
        HasKeyIff(net, o.pending[i]);
      }
    }
  }

  /** It returns some if and only if some peer met has the key. */
  lemma SomeoneHasKeyIff(net: Network, initial: seq<Peer>)
    ensures var o := Lookup(net, true, initial);
            o.found.Some? <==> exists p :: p in o.pending && HasKey(net, p)
  {
    var o := Lookup(net, true, initial);
    var news := LookupMeets(net, true, initial);
    if o.found.Some? {
      assert HasKey(net, o.pending[|news|]);
    }
    if p :| p in o.pending && HasKey(net, p) {
      var i: nat :| i < |o.pending| && o.pending[i] == p;
    }
  }

  /** FIND_NODE returns no owners. */
  lemma NodeLookupEnds(net: Network, initial: seq<Peer>)
    ensures Lookup(net, false, initial).found == None
  {
    NodeLookupFindsNoOwner(net, initial, [], 0);
  }
}
