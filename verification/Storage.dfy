/** The key-value storage (src/storage.c) on top of the hash map, and the copying of peers
    and values to and from their wire form (src/peer.c). */
module Storage {
  import opened Ids
  import opened Options
  import opened RobinHood
  import opened Sets
  import opened Buckets
  import HashMap
  import M = HashMapModel

  type PubKey = nat
  const NO_KEY: PubKey := 0
  const NO_ID: HashID := HashID(seq(ID_LENGTH, _ => 0))

  datatype RPCPeer = RPCPeer(id: HashID, addr: nat, key: PubKey)

  // A pair without its key. The slots of `values` from numValues on are never read.
  datatype Owners<P> = Owners(numValues: nat, values: seq<P>)

  // Every struct has K_VALUE slots, and no more of them are in use.
  ghost predicate Fits<P>(o: Owners<P>) {
    |o.values| == K_VALUE && o.numValues <= K_VALUE
  }

  type Payload = o: Owners<Peer> | Fits(o) witness Owners(0, seq(K_VALUE, _ => Peer(NO_ID, 0)))
  type RPCPayload = o: Owners<RPCPeer> | Fits(o) witness Owners(0, seq(K_VALUE, _ => RPCPeer(NO_ID, 0, NO_KEY)))

  // ---------- wire form ----------

  /** serialize_rpc_peer: the key is not sent. */
  function ToWire(p: Peer): RPCPeer {
    RPCPeer(p.id, p.addr, NO_KEY)
  }

  /** deserialize_rpc_peer */
  function FromWire(p: RPCPeer): Peer {
    Peer(p.id, p.addr)
  }

  /** serialize_rpc_value copies the listed owners into the caller's struct. */
  method SerializeRpcValue(value: Payload, serialized: array<RPCPeer>) returns (numValues: nat)
    requires serialized.Length == K_VALUE
    modifies serialized
    ensures numValues == value.numValues
    ensures forall i: nat | i < numValues :: serialized[i] == ToWire(value.values[i])
    ensures forall i: nat | numValues <= i < serialized.Length :: serialized[i] == old(serialized[i])
  {
    numValues := value.numValues;
    for i := 0 to value.numValues
      invariant forall k: nat | k < i :: serialized[k] == ToWire(value.values[k])
      invariant forall k: nat | i <= k < serialized.Length :: serialized[k] == old(serialized[k])
    {
      serialized[i] := ToWire(value.values[i]);
    }
  }

  /** deserialize_rpc_value */
  method DeserializeRpcValue(value: RPCPayload, deserialized: array<Peer>) returns (numValues: nat)
    requires deserialized.Length == K_VALUE
    modifies deserialized
    ensures numValues == value.numValues
    ensures forall i: nat | i < numValues :: deserialized[i] == FromWire(value.values[i])
    ensures forall i: nat | numValues <= i < deserialized.Length :: deserialized[i] == old(deserialized[i])
  {
    numValues := value.numValues;
    for i := 0 to value.numValues
      invariant forall k: nat | k < i :: deserialized[k] == FromWire(value.values[k])
      invariant forall k: nat | i <= k < deserialized.Length :: deserialized[k] == old(deserialized[k])
    {
      deserialized[i] := FromWire(value.values[i]);
    }
  }

  // ---------- what a run of STORE requests leaves ----------

  // A request to store a pair; `refused` says that the allocator refused memory for it.
  datatype Request = Request(item: Item<HashID, Payload>, refused: bool)

  /** storage_put_value on the represented map: the first value of a key stays. */
  ghost function Put(m: map<HashID, Payload>, r: Request): map<HashID, Payload> {
    if r.item.key in m || r.refused then m else m[r.item.key := r.item.value]
  }

  ghost function PutAll(m: map<HashID, Payload>, rs: seq<Request>): map<HashID, Payload>
    decreases |rs|
  {
    if rs == [] then m else PutAll(Put(m, rs[0]), rs[1..])
  }

  /** The position of the first request for the key that was not refused. */
  ghost predicate FirstStored(rs: seq<Request>, key: HashID, i: nat) {
    && i < |rs| && rs[i].item.key == key && !rs[i].refused
    && forall j: nat | j < i :: rs[j].item.key != key || rs[j].refused
  }

  /** Whatever requests follow, a key that is stored keeps its value. */
  lemma {:induction false} StoredStays(m: map<HashID, Payload>, rs: seq<Request>, key: HashID)
    requires key in m
    ensures key in PutAll(m, rs) && PutAll(m, rs)[key] == m[key]
    decreases |rs|
  {
    if rs != [] {
      StoredStays(Put(m, rs[0]), rs[1..], key);
    }
  }

  /** After every run of requests, a key holds the value of the first request for it that
      found memory, and nothing else is held. */
  lemma {:induction false} FirstStoreWins(m: map<HashID, Payload>, rs: seq<Request>, key: HashID)
    requires key !in m
    ensures key in PutAll(m, rs) <==> exists i: nat :: FirstStored(rs, key, i)
    ensures forall i: nat | FirstStored(rs, key, i) :: key in PutAll(m, rs) && PutAll(m, rs)[key] == rs[i].item.value
    decreases |rs|
  {
    if rs != [] {
      var rest := rs[1..];
      if rs[0].item.key == key && !rs[0].refused {
        assert FirstStored(rs, key, 0);
        StoredStays(Put(m, rs[0]), rest, key);
      } else {
        FirstStoreWins(Put(m, rs[0]), rest, key);
        forall i: nat | FirstStored(rs, key, i) ensures i > 0 && FirstStored(rest, key, i - 1) {
          assert forall j: nat | j < i - 1 :: rest[j] == rs[j + 1];
        }
        if key in PutAll(m, rs) {
          var i: nat :| FirstStored(rest, key, i);
          assert rs[i + 1] == rest[i];
          assert forall j: nat | 0 < j < i + 1 :: rs[j] == rest[j - 1];
          assert FirstStored(rs, key, i + 1);
        }
      }
    }
  }

  /** A run of n requests leaves at most n pairs, so the limit of the hash map's 16-bit field
      is out of reach of runs of up to MAX_DIB requests. */
  lemma {:induction false} NoMorePairsThanRequests(m: map<HashID, Payload>, rs: seq<Request>)
    ensures |m| <= |PutAll(m, rs)| <= |m| + |rs|
    decreases |rs|
  {
    if rs != [] {
      NoMorePairsThanRequests(Put(m, rs[0]), rs[1..]);
    }
  }

  lemma {:induction false} PutLast(m: map<HashID, Payload>, rs: seq<Request>, r: Request)
    ensures PutAll(m, rs + [r]) == Put(PutAll(m, rs), r)
    decreases |rs|
  {
    if rs == [] {
      assert ([] + [r])[1..] == [];
    } else {
      assert (rs + [r])[1..] == rs[1..] + [r];
      PutLast(Put(m, rs[0]), rs[1..], r);
    }
  }

  // ---------- the storage as a value ----------

  // The hash map of the storage; None before it is set up.
  type Map = s: Option<M.State<HashID, Payload>> | s.Some? ==> M.Shape(s.value) witness None

  // A request as it reaches storage_put_value, with the allocator's answer to a growth.
  datatype Arrival = Arrival(item: Item<HashID, Payload>, ok: bool)

  ghost function Opened(s: Map, zero: Item<HashID, Payload>): (b: M.State<HashID, Payload>)
    ensures M.Shape(b)
  {
    M.NewShape(0, zero);
    if s.None? then M.New(0, zero) else s.value
  }

  /** storage_put_value, when its set-up succeeds: a key that is found is left alone. */
  ghost function After(s: Map, h: HashID -> nat, zero: Item<HashID, Payload>, a: Arrival): M.State<HashID, Payload> {
    var b := Opened(s, zero);
    if M.Get(b, h(a.item.key), a.item.key).Some? then b else M.Set(b, h(a.item.key), zero, a.item, a.ok).0
  }

  lemma AfterShape(s: Map, h: HashID -> nat, zero: Item<HashID, Payload>, a: Arrival)
    ensures M.Shape(After(s, h, zero, a))
  {
    M.SetShape(Opened(s, zero), h(a.item.key), zero, a.item, a.ok);
  }

  /** The key is new, and memory for the growth that it needs is refused. */
  ghost predicate Refuses(s: Map, h: HashID -> nat, zero: Item<HashID, Payload>, a: Arrival) {
    var b := Opened(s, zero);
    M.Get(b, h(a.item.key), a.item.key).None? && b.count >= b.growat && !a.ok
  }

  ghost predicate SoundMap(s: Map, h: HashID -> nat) {
    s.Some? ==> M.Sound(s.value, h)
  }

  ghost function Pairs(s: Map, h: HashID -> nat): map<HashID, Payload>
    requires SoundMap(s, h)
  {
    if s.None? then map[] else Contents(s.value.table)
  }

  /** Storing a pair under the key does not meet the limit of the hash map's 16-bit field. */
  ghost predicate CanPut(s: Map, h: HashID -> nat, key: HashID, ok: bool) {
    s.Some? ==> M.CanStore(s.value, h, key, ok)
  }

  /** It does not while the storage and the key are at most 65535 different keys. */
  lemma FewCanPut(s: Map, h: HashID -> nat, key: HashID, ok: bool)
    requires SoundMap(s, h) && |Pairs(s, h).Keys + {key}| <= MAX_DIB
    ensures CanPut(s, h, key, ok)
  {
    if s.Some? {
      ContentsCount(s.value.table);
      if key in Pairs(s, h) {
        assert HasKey(s.value.table, key);
        M.KnownCanStore(s.value, h, key, ok);
      } else {
        M.FewCanStore(s.value, h, key, ok);
      }
    }
  }

  lemma OpenedIs(s: Map, h: HashID -> nat, zero: Item<HashID, Payload>, key: HashID, ok: bool)
    requires SoundMap(s, h) && CanPut(s, h, key, ok)
    ensures var b := Opened(s, zero);
            M.Sound(b, h) && Contents(b.table) == Pairs(s, h) && M.CanStore(b, h, key, ok)
  {
    if s.None? {
      M.NewSound(0, zero, h);
      M.FewCanStore(Opened(s, zero), h, key, ok);
    }
  }

  /** On the represented map, storage_put_value is Put. */
  lemma AfterPuts(s: Map, h: HashID -> nat, zero: Item<HashID, Payload>, a: Arrival)
    requires SoundMap(s, h) && CanPut(s, h, a.item.key, a.ok)
    ensures var s' := After(s, h, zero, a);
            && M.Sound(s', h)
            && Contents(s'.table) == Put(Pairs(s, h), Request(a.item, Refuses(s, h, zero, a)))
  {
    var b := Opened(s, zero);
    OpenedIs(s, h, zero, a.item.key, a.ok);
    M.GetRefines(b, h, a.item.key);
    M.SetRefinesIff(b, h, zero, a.item, a.ok);
  }

  /** storage_put_value leads from s to s', and on the represented map it is Put. */
  ghost predicate Puts(s: Map, h: HashID -> nat, zero: Item<HashID, Payload>, a: Arrival, s': Map) {
    && s' == Some(After(s, h, zero, a))
    && (SoundMap(s, h) && CanPut(s, h, a.item.key, a.ok) ==>
          && SoundMap(s', h)
          && Pairs(s', h) == Put(Pairs(s, h), Request(a.item, Refuses(s, h, zero, a))))
  }

  lemma AfterIsPuts(s: Map, h: HashID -> nat, zero: Item<HashID, Payload>, a: Arrival, s': Map)
    requires s' == Some(After(s, h, zero, a))
    ensures Puts(s, h, zero, a, s')
  {
    if SoundMap(s, h) && CanPut(s, h, a.item.key, a.ok) {
      AfterPuts(s, h, zero, a);
    }
  }

  // ---------- runs of requests ----------

  /** The storage after a run of requests that starts before it is set up. */
  ghost function AfterAll(h: HashID -> nat, zero: Item<HashID, Payload>, run: seq<Arrival>): Map
    decreases |run|
  {
    if run == [] then None
    else
      var s, a := AfterAll(h, zero, run[..|run| - 1]), run[|run| - 1];
      AfterShape(s, h, zero, a);
      Some(After(s, h, zero, a))
  }

  lemma AfterAllSnoc(h: HashID -> nat, zero: Item<HashID, Payload>, run: seq<Arrival>, a: Arrival)
    ensures AfterAll(h, zero, run + [a]) == Some(After(AfterAll(h, zero, run), h, zero, a))
  {
    assert (run + [a])[..|run|] == run;
  }

  /** The requests of the run, with what became of them. */
  ghost function Requests(h: HashID -> nat, zero: Item<HashID, Payload>, run: seq<Arrival>): (rs: seq<Request>)
    ensures |rs| == |run|
    ensures forall i: nat | i < |run| :: rs[i].item == run[i].item && (run[i].ok ==> !rs[i].refused)
    decreases |run|
  {
    if run == [] then []
    else
      var front, a := run[..|run| - 1], run[|run| - 1];
      Requests(h, zero, front) + [Request(a.item, Refuses(AfterAll(h, zero, front), h, zero, a))]
  }

  /** No request of the run meets the limit of the hash map's 16-bit field. */
  ghost predicate Unblocked(h: HashID -> nat, zero: Item<HashID, Payload>, run: seq<Arrival>)
    decreases |run|
  {
    run != [] ==>
      var front, a := run[..|run| - 1], run[|run| - 1];
      Unblocked(h, zero, front) && CanPut(AfterAll(h, zero, front), h, a.item.key, a.ok)
  }

  /** Such a run leaves a map, and it is that of PutAll. */
  lemma {:induction false} RunStores(h: HashID -> nat, zero: Item<HashID, Payload>, run: seq<Arrival>)
    requires Unblocked(h, zero, run)
    ensures SoundMap(AfterAll(h, zero, run), h)
    ensures Pairs(AfterAll(h, zero, run), h) == PutAll(map[], Requests(h, zero, run))
    decreases |run|
  {
    if run != [] {
      var front, a := run[..|run| - 1], run[|run| - 1];
      RunStores(h, zero, front);
      AfterPuts(AfterAll(h, zero, front), h, zero, a);
      PutLast(map[], Requests(h, zero, front), Request(a.item, Refuses(AfterAll(h, zero, front), h, zero, a)));
    }
  }

  ghost function KeysOf(run: seq<Arrival>): set<HashID> {
    set a | a in run :: a.item.key
  }

  lemma KeysOfSnoc(front: seq<Arrival>, a: Arrival)
    ensures KeysOf(front + [a]) == KeysOf(front) + {a.item.key}
  {
    forall k | k in KeysOf(front) + {a.item.key} ensures k in KeysOf(front + [a]) {
      var b :| b in front + [a] && b.item.key == k;
    }
  }

  lemma {:induction false} OnlyRequestedKeys(m: map<HashID, Payload>, rs: seq<Request>, keys: set<HashID>)
    requires m.Keys <= keys && forall r | r in rs :: r.item.key in keys
    ensures PutAll(m, rs).Keys <= keys
    decreases |rs|
  {
    if rs != [] {
      assert rs[0] in rs;
      OnlyRequestedKeys(Put(m, rs[0]), rs[1..], keys);
    }
  }

  lemma RequestedKeys(h: HashID -> nat, zero: Item<HashID, Payload>, run: seq<Arrival>)
    ensures PutAll(map[], Requests(h, zero, run)).Keys <= KeysOf(run)
  {
    var rs := Requests(h, zero, run);
    forall r | r in rs ensures r.item.key in KeysOf(run) {
      var i: nat :| i < |rs| && rs[i] == r;
      assert run[i] in run;
    }
    OnlyRequestedKeys(map[], rs, KeysOf(run));
  }

  /** A run of any length with at most 65535 different keys never meets the limit. */
  lemma {:induction false} FewKeysUnblocked(h: HashID -> nat, zero: Item<HashID, Payload>, run: seq<Arrival>)
    requires |KeysOf(run)| <= MAX_DIB
    ensures Unblocked(h, zero, run)
    decreases |run|
  {
    if run != [] {
      var front, a := run[..|run| - 1], run[|run| - 1];
      assert run == front + [a];
      KeysOfSnoc(front, a);
      SubsetSize(KeysOf(front), KeysOf(run));
      FewKeysUnblocked(h, zero, front);
      RunStores(h, zero, front);
      RequestedKeys(h, zero, front);
      OneKeyMore(AfterAll(h, zero, front), h, a.item.key, a.ok, KeysOf(run));
    }
  }

  lemma OneKeyMore(s: Map, h: HashID -> nat, key: HashID, ok: bool, keys: set<HashID>)
    requires SoundMap(s, h) && Pairs(s, h).Keys <= keys && key in keys && |keys| <= MAX_DIB
    ensures CanPut(s, h, key, ok)
  {
    SubsetSize(Pairs(s, h).Keys + {key}, keys);
    FewCanPut(s, h, key, ok);
  }

  // ---------- the storage ----------

  class Storage {
    const hash: HashID -> nat
    const zero: Item<HashID, Payload>
    var ready: bool
    var store: HashMap.HashMap?<HashID, Payload>

    ghost predicate Valid()
      reads this, store, if store == null then {} else {store.buckets}
    {
      store != null ==> ready && store.Valid() && store.hash == hash && store.zero == zero
    }

    ghost function Now(): Map
      reads this, store, if store == null then {} else {store.buckets}
      requires Valid()
    {
      if store == null then None else Some(store.St())
    }

    ghost predicate Sound()
      reads this, store, if store == null then {} else {store.buckets}
      requires Valid()
    {
      SoundMap(Now(), hash)
    }

    ghost function Contents(): map<HashID, Payload>
      reads this, store, if store == null then {} else {store.buckets}
      requires Valid() && Sound()
    {
      Pairs(Now(), hash)
    }

    constructor (hash: HashID -> nat, zero: Item<HashID, Payload>)
      ensures Valid() && Now() == None && !ready && this.hash == hash && this.zero == zero
    {
      this.hash, this.zero, ready, store := hash, zero, false, null;
    }

    /** storage_init does not look at what hashmap_new returns. */
    method Init(up: bool)
      requires Valid() && !ready
      modifies this
      ensures Valid() && ready && (store != null <==> up)
      ensures up ==> fresh(store) && fresh(store.buckets) && Now() == Some(Opened(None, zero)) && store.nbuckets == 16
    {
      store := HashMap.Create(0, hash, zero, up);
      ready := true;
    }

    /** storage_get_value. `up` is the allocator's answer to the set-up; without a hash map the
        call ends in the use of a NULL pointer. */
    method GetValue(key: HashID, up: bool) returns (crashed: bool, r: Option<Item<HashID, Payload>>)
      requires Valid()
      modifies this
      ensures Valid() && (store == old(store) || (fresh(store) && fresh(store.buckets)))
      ensures crashed <==> old(store == null && (ready || !up))
      ensures !crashed ==>
                && Now() == Some(Opened(old(Now()), zero))
                && r == M.Get(Now().value, hash(key), key)
                && (old(Sound()) ==>
                      Sound() && Contents() == old(Contents()) && r == M.Lookup(Contents(), key))
    {
      if !ready {
        Init(up);
      }
      if store == null {
        return true, None;
      }
      M.NewSound(0, zero, hash);
      r := store.Get(key);
      crashed := false;
    }

    /** storage_put_value; `ok` is the allocator's answer to a growth. */
    method PutValue(value: Item<HashID, Payload>, up: bool, ok: bool) returns (crashed: bool)
      requires Valid()
      modifies this, store, if store == null then {} else {store.buckets}
      ensures Valid() && (store == old(store) || (fresh(store) && fresh(store.buckets)))
      ensures store != null ==>
                fresh(store.buckets) || (old(store != null) && store.buckets == old(store.buckets))
      ensures crashed <==> old(store == null && (ready || !up))
      ensures !crashed ==> Puts(old(Now()), hash, zero, Arrival(value, ok), Now())
    {
      ghost var s0 := Now();
      if !ready {
        Init(up);
      }
      if store == null {
        return true;
      }
      PutNew(value, ok);
      AfterIsPuts(s0, hash, zero, Arrival(value, ok), Now());
      crashed := false;
    }

    /** The rest of storage_put_value, when there is a hash map. */
    method PutNew(value: Item<HashID, Payload>, ok: bool)
      requires Valid() && store != null
      modifies store, store.buckets
      ensures Valid() && (store.buckets == old(store.buckets) || fresh(store.buckets))
      ensures Now() == Some(After(old(Now()), hash, zero, Arrival(value, ok)))
    {
      var known := store.Get(value.key);
      if known.None? {
        var _ := store.Set(value, ok);
      }
    }
  }
}
