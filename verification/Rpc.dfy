/** The request handlers of src/rpc.c: STORE, FIND_VALUE, FIND_NODE and BROADCAST. */
module Rpc {
  import opened Buckets
  import opened Ids
  import opened Options
  import opened PeerList
  import opened RobinHood
  import opened RoutingTable
  import opened Storage
  import M = HashMapModel

  datatype FindValueResponse =
    | Found(values: RPCPayload)
    | NotFound(closest: seq<RPCPeer>)

  // A STORE request; `refused` says that the allocator refused memory for it.
  datatype Store = Store(key: HashID, value: RPCPayload, refused: bool)

  /** The owners in use are the same on the wire and in the storage: ids and addresses, in order. */
  ghost predicate SameOwners(w: RPCPayload, p: Payload) {
    && w.numValues == p.numValues
    && forall i: nat | i < w.numValues :: w.values[i].id == p.values[i].id && w.values[i].addr == p.values[i].addr
  }

  /** Two messages list the same owners. */
  ghost predicate SameOnWire(w: RPCPayload, v: RPCPayload) {
    && w.numValues == v.numValues
    && forall i: nat | i < w.numValues :: w.values[i].id == v.values[i].id && w.values[i].addr == v.values[i].addr
  }

  /** handle_store: the pair is stored as received, unless its key is known. `up` and `ok` are the
      allocator's answers to the set-up of the storage and to a growth. */
  method HandleStore(store: Storage, key: HashID, value: RPCPayload, up: bool, ok: bool)
      returns (crashed: bool, ghost a: Arrival)
    requires store.Valid()
    modifies store, store.store, if store.store == null then {} else {store.store.buckets}
    ensures store.Valid()
    ensures store.store == old(store.store) || (fresh(store.store) && fresh(store.store.buckets))
    ensures store.store != null ==>
              fresh(store.store.buckets) ||
              (old(store.store != null) && store.store.buckets == old(store.store.buckets))
    ensures a.item.key == key && a.ok == ok && SameOwners(value, a.item.value)
    ensures crashed <==> old(store.store == null && (store.ready || !up))
    ensures !crashed ==> Puts(old(store.Now()), store.hash, store.zero, a, store.Now())
  {
    var values := new Peer[K_VALUE];
    var n := DeserializeRpcValue(value, values);
    var kvp: Item<HashID, Payload> := Item(key, Owners(n, values[..]));
    a := Arrival(kvp, ok);
    crashed := store.PutValue(kvp, up, ok);
  }

  /** The requests, as they reach the storage through HandleStore. */
  ghost predicate Received(ws: seq<Store>, rs: seq<Request>) {
    && |ws| == |rs|
    && forall i: nat | i < |ws| ::
         && rs[i].item.key == ws[i].key && rs[i].refused == ws[i].refused
         && SameOwners(ws[i].value, rs[i].item.value)
  }

  /** Request i is the first one for the key that found memory. */
  ghost predicate FirstFor(ws: seq<Store>, key: HashID, i: nat) {
    && i < |ws| && ws[i].key == key && !ws[i].refused
    && forall j: nat | j < i :: ws[j].key != key || ws[j].refused
  }

  /** After every run of STORE requests, FIND_VALUE has an answer exactly when a request for the
      key found memory, and the answer lists the owners of the first such request. */
  lemma FirstStoreAnswers(ws: seq<Store>, rs: seq<Request>, key: HashID)
    requires Received(ws, rs)
    ensures key in PutAll(map[], rs) <==> exists i: nat :: FirstFor(ws, key, i)
    ensures forall i: nat, answer: RPCPayload |
              FirstFor(ws, key, i) && SameOwners(answer, PutAll(map[], rs)[key]) :: SameOnWire(answer, ws[i].value)
  {
    FirstStoreWins(map[], rs, key);
    forall i: nat ensures FirstFor(ws, key, i) <==> FirstStored(rs, key, i) {
    }
  }

  /** The peers of a search result, in wire form. */
  function AllToWire(peers: seq<Peer>): (r: seq<RPCPeer>)
    ensures |r| == |peers|
  {
    seq(|peers|, i requires 0 <= i < |peers| => ToWire(peers[i]))
  }

  /** What a response carries of a search; nothing when the search finds nobody. */
  ghost function ClosestKnown(own: Option<HashID>, lists: seq<seq<Peer>>, key: HashID): seq<RPCPeer>
    requires own.Some? ==> BucketIndex(Xor(own.value, key)) < |lists|
  {
    match FindClosest(own, lists, key, BUCKET_SIZE)
    case None => []
    case Some(found) => AllToWire(found)
  }

  /** These are the ids and addresses of the peers that the search from bucket b for n peers finds, in
      its order: as many as are known and fit. */
  ghost predicate NamesFound(lists: seq<seq<Peer>>, b: nat, key: HashID, n: nat, closest: seq<RPCPeer>)
    requires b < |lists|
  {
    var found := Search(lists, b, key, n);
    && |closest| == |found| == (if |All(lists)| < n then |All(lists)| else n)
    && forall i: nat | i < |found| :: closest[i].id == found[i].id && closest[i].addr == found[i].addr
  }

  /** The answer to a request for the peers closest to the key: when our own id is known and is not the
      key, what the search for four peers finds; otherwise nobody. */
  ghost predicate NamesClosest(own: Option<HashID>, lists: seq<seq<Peer>>, key: HashID, closest: seq<RPCPeer>) {
    if own == None || own == Some(key) then closest == []
    else
      exists b: nat :: b < |lists| && Leads(Xor(own.value, key), b) && NamesFound(lists, b, key, 4, closest)
  }

  lemma FoundIsNamed(lists: seq<seq<Peer>>, b: nat, key: HashID, n: nat)
    requires b < |lists|
    ensures NamesFound(lists, b, key, n, AllToWire(Search(lists, b, key, n)))
  {
    SearchFills(lists, b, key, n);
  }

  lemma ClosestKnownNames(own: Option<HashID>, lists: seq<seq<Peer>>, key: HashID)
    requires own.Some? ==> BucketIndex(Xor(own.value, key)) < |lists|
    ensures NamesClosest(own, lists, key, ClosestKnown(own, lists, key))
  {
    if own.Some? {
      NoBucketForOurselves(own.value, key);
      var b := BucketIndex(Xor(own.value, key));
      if b >= 0 {
        FoundIsNamed(lists, b, key, BUCKET_SIZE);
        var found := Search(lists, b, key, BUCKET_SIZE);
        assert ClosestKnown(own, lists, key) == AllToWire(found);
      }
    }
  }

  /** The first half of handle_find_value: the stored owners, in wire form. */
  method FindStored(store: Storage, key: HashID, up: bool) returns (crashed: bool, values: Option<RPCPayload>)
    requires store.Valid()
    modifies store
    ensures store.Valid()
    ensures crashed <==> old(store.store == null && (store.ready || !up))
    ensures old(store.Sound()) && !crashed ==>
              && store.Sound() && store.Contents() == old(store.Contents())
              && (values.Some? <==> key in store.Contents())
              && (values.Some? ==> SameOwners(values.value, store.Contents()[key]))
  {
    var kvp;
    crashed, kvp := store.GetValue(key, up);
    if crashed || kvp.None? {
      return crashed, None;
    }
    var w := ValueToWire(kvp.value.value);
    values := Some(w);
  }

  method ValueToWire(value: Payload) returns (w: RPCPayload)
    ensures SameOwners(w, value)
  {
    var values := new RPCPeer[K_VALUE];
    var n := SerializeRpcValue(value, values);
    w := Owners(n, values[..]);
  }

  /** handle_find_value: the stored owners if the key is known, otherwise the peers that the
      search of the routing table finds for it. */
  method HandleFindValue(store: Storage, table: RoutingTable, key: HashID, up: bool)
      returns (crashed: bool, r: FindValueResponse)
    requires store.Valid() && table.Valid() && store !in table.Repr
    requires table.own.Some? ==> BucketIndex(Xor(table.own.value, key)) < |table.buckets|
    modifies store
    ensures store.Valid() && table.Valid()
    ensures crashed <==> old(store.store == null && (store.ready || !up))
    ensures old(store.Sound()) && !crashed ==>
              && store.Sound() && store.Contents() == old(store.Contents())
              && (r.Found? <==> key in store.Contents())
              && (r.Found? ==> SameOwners(r.values, store.Contents()[key]))
    ensures !crashed && r.NotFound? ==> NamesClosest(table.own, old(table.Lists()), key, r.closest)
  {
    var values;
    crashed, values := FindStored(store, key, up);
    if crashed {
      return true, NotFound([]);
    }
    if values.Some? {
      return false, Found(values.value);
    }
    var closest := HandleFindNode(table, key);
    return false, NotFound(closest);
  }

  /** handle_find_node: the places of the result that the search filled. */
  method HandleFindNode(table: RoutingTable, key: HashID) returns (closest: seq<RPCPeer>)
    requires table.Valid()
    requires table.own.Some? ==> BucketIndex(Xor(table.own.value, key)) < |table.buckets|
    ensures NamesClosest(table.own, table.Lists(), key, closest)
  {
    ClosestKnownNames(table.own, table.Lists(), key);
    closest := ClosestTo(table, key);
  }

  /** The search of both handlers. */
  method ClosestTo(table: RoutingTable, key: HashID) returns (closest: seq<RPCPeer>)
    requires table.Valid()
    requires table.own.Some? ==> BucketIndex(Xor(table.own.value, key)) < |table.buckets|
    ensures closest == ClosestKnown(table.own, table.Lists(), key)
  {
    var result := table.FindClosestPeers(key, BUCKET_SIZE);
    if result == null {
      return [];
    }
    closest := Filled(result, FindClosest(table.own, table.Lists(), key, BUCKET_SIZE).value);
  }

  /** The loop of both handlers over the result array. */
  method Filled(result: array<Option<Peer>>, ghost found: seq<Peer>) returns (closest: seq<RPCPeer>)
    requires Prefilled(result[..], found)
    ensures closest == AllToWire(found)
  {
    closest := [];
    for i := 0 to result.Length
      invariant closest == AllToWire(found[..Min(i, |found|)])
    {
      if result[i].Some? {
        closest := closest + [ToWire(result[i].value)];
        assert found[..i + 1] == found[..i] + [found[i]];
      }
    }
    assert found[..|found|] == found;
  }

  /** handle_broadcast: the sender goes to the routing table. */
  method HandleBroadcast(table: RoutingTable, peer: RPCPeer)
    requires table.Valid()
    requires table.own.Some? ==> BucketIndex(Xor(table.own.value, peer.id)) < |table.buckets|
    modifies table.Repr
    ensures table.Valid() && fresh(table.Repr - old(table.Repr))
    ensures table.Lists() == Updated(table.own, old(table.Lists()), Peer(peer.id, peer.addr))
  {
    table.UpdateBucketPeers(FromWire(peer));
  }

  // ---------- a run of requests ----------

  // A STORE request, and whether the allocator will have memory for it.
  datatype Sent = Sent(key: HashID, value: RPCPayload, ok: bool)

  ghost function KeysSent(sent: seq<Sent>): set<HashID> {
    set s | s in sent :: s.key
  }

  /** The requests sent, as they reach the storage. */
  ghost predicate Arrived(sent: seq<Sent>, run: seq<Arrival>) {
    && |run| == |sent|
    && forall i: nat | i < |sent| ::
         && run[i].item.key == sent[i].key && run[i].ok == sent[i].ok
         && SameOwners(sent[i].value, run[i].item.value)
  }

  lemma ArrivedKeys(sent: seq<Sent>, run: seq<Arrival>)
    requires Arrived(sent, run)
    ensures KeysSent(sent) == KeysOf(run)
  {
    forall k ensures k in KeysSent(sent) <==> k in KeysOf(run) {
      if k in KeysSent(sent) {
        var s :| s in sent && s.key == k;
        var i: nat :| i < |sent| && sent[i] == s;
        assert run[i] in run;
      }
      if k in KeysOf(run) {
        var a :| a in run && a.item.key == k;
        var i: nat :| i < |run| && run[i] == a;
        assert sent[i] in sent;
      }
    }
  }

  lemma ArrivedNext(sent: seq<Sent>, i: nat, run: seq<Arrival>, a: Arrival)
    requires i < |sent| && Arrived(sent[..i], run)
    requires a.item.key == sent[i].key && a.ok == sent[i].ok && SameOwners(sent[i].value, a.item.value)
    ensures Arrived(sent[..i + 1], run + [a])
  {
    assert sent[..i + 1] == sent[..i] + [sent[i]];
  }

  lemma FewKeysSent(h: HashID -> nat, zero: Item<HashID, Payload>, sent: seq<Sent>, run: seq<Arrival>)
    requires Arrived(sent, run)
    ensures |KeysSent(sent)| <= MAX_DIB ==> Unblocked(h, zero, run)
  {
    ArrivedKeys(sent, run);
    if |KeysSent(sent)| <= MAX_DIB {
      FewKeysUnblocked(h, zero, run);
    }
  }

  /** What becomes of the requests. */
  ghost function Fates(sent: seq<Sent>, rs: seq<Request>): (ws: seq<Store>)
    requires |rs| == |sent|
    ensures |ws| == |sent|
    ensures forall i: nat | i < |sent| :: ws[i] == Store(sent[i].key, sent[i].value, rs[i].refused)
  {
    seq(|sent|, i requires 0 <= i < |sent| => Store(sent[i].key, sent[i].value, rs[i].refused))
  }

  /** What a run of requests leaves in the storage for a key. */
  lemma RunAnswers(h: HashID -> nat, zero: Item<HashID, Payload>, sent: seq<Sent>, run: seq<Arrival>, key: HashID)
    requires Arrived(sent, run) && Unblocked(h, zero, run)
    ensures SoundMap(AfterAll(h, zero, run), h)
    ensures var ws, m := Fates(sent, Requests(h, zero, run)), Pairs(AfterAll(h, zero, run), h);
            && (key in m <==> exists i: nat :: FirstFor(ws, key, i))
            && forall i: nat, answer: RPCPayload |
                 FirstFor(ws, key, i) && SameOwners(answer, m[key]) :: SameOnWire(answer, ws[i].value)
  {
    RunStores(h, zero, run);
    FirstStoreAnswers(Fates(sent, Requests(h, zero, run)), Requests(h, zero, run), key);
  }

  /** One STORE more. */
  method ServeNext(store: Storage, sent: seq<Sent>, i: nat, ghost run: seq<Arrival>, up: bool)
      returns (crashed: bool, ghost run': seq<Arrival>)
    requires store.Valid() && i < |sent| && Arrived(sent[..i], run)
    requires store.Now() == AfterAll(store.hash, store.zero, run)
    modifies store, store.store, if store.store == null then {} else {store.store.buckets}
    ensures store.Valid()
    ensures store.store == old(store.store) || (fresh(store.store) && fresh(store.store.buckets))
    ensures store.store != null ==>
              fresh(store.store.buckets) ||
              (old(store.store != null) && store.store.buckets == old(store.store.buckets))
    ensures crashed <==> old(store.store == null && (store.ready || !up))
    ensures !crashed ==>
              && store.store != null && Arrived(sent[..i + 1], run')
              && store.Now() == AfterAll(store.hash, store.zero, run')
  {
    ghost var a;
    crashed, a := HandleStore(store, sent[i].key, sent[i].value, up, sent[i].ok);
    run' := run + [a];
    ArrivedNext(sent, i, run, a);
    AfterAllSnoc(store.hash, store.zero, run, a);
  }

  /** The STOREs from the start of the node on. */
  method ServeStores(store: Storage, sent: seq<Sent>, up: bool) returns (crashed: bool, ghost run: seq<Arrival>)
    requires store.Valid() && store.store == null && !store.ready
    modifies store
    ensures store.Valid() && (store.store != null ==> fresh(store.store) && fresh(store.store.buckets))
    ensures crashed <==> sent != [] && !up
    ensures !crashed ==>
              && Arrived(sent, run) && store.Now() == AfterAll(store.hash, store.zero, run)
              && (store.store == null ==> !store.ready)
  {
    run, crashed := [], false;
    for i := 0 to |sent|
      invariant store.Valid() && (store.store != null ==> fresh(store.store) && fresh(store.store.buckets))
      invariant if store.store == null then i == 0 && !store.ready else up
      invariant Arrived(sent[..i], run) && store.Now() == AfterAll(store.hash, store.zero, run)
    {
      crashed, run := ServeNext(store, sent, i, run, up);
      if crashed {
        return;
      }
    }
    assert sent[..|sent|] == sent;
  }

  /** The requests that a node serves after its start: STOREs, and then a FIND_VALUE. The answer
      comes from the storage if and only if a STORE for the key found memory, and lists the
      owners of the first such STORE, unless a STORE meets the limit of the hash map's 16-bit
      field; requests with up to 65535 different keys do not. */
  method Serve(store: Storage, table: RoutingTable, sent: seq<Sent>, key: HashID, up: bool)
      returns (crashed: bool, r: FindValueResponse, ghost run: seq<Arrival>)
    requires store.Valid() && store.store == null && !store.ready && table.Valid() && store !in table.Repr
    requires table.own.Some? ==> BucketIndex(Xor(table.own.value, key)) < |table.buckets|
    modifies store
    ensures crashed <==> !up
    ensures !crashed ==> Arrived(sent, run)
    ensures !crashed && |KeysSent(sent)| <= MAX_DIB ==> Unblocked(store.hash, store.zero, run)
    ensures !crashed && Unblocked(store.hash, store.zero, run) ==>
              var ws := Fates(sent, Requests(store.hash, store.zero, run));
              && (r.Found? <==> exists i: nat :: FirstFor(ws, key, i))
              && forall i: nat | FirstFor(ws, key, i) :: SameOnWire(r.values, ws[i].value)
  {
    r := NotFound([]);
    crashed, run := ServeStores(store, sent, up);
    if crashed {
      return;
    }
    ghost var h, zero := store.hash, store.zero;
    if Unblocked(h, zero, run) {
      RunAnswers(h, zero, sent, run, key);
    }
    FewKeysSent(h, zero, sent, run);
    crashed, r := HandleFindValue(store, table, key, up);
  }
}
