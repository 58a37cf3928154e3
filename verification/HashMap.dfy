/** lib/hash/hashmap.c as a class: an array of buckets changed in place by probe loops. Each
    method is tied to the operation of the same name in HashMapModel. */
module HashMap {
  import opened Bits
  import opened Options
  import opened RobinHood
  import M = HashMapModel

  /** `(i + 1) & mask` is the cyclic successor. */
  lemma NextByMask(i: nat, n: nat)
    requires IsPow2(n) && i < n
    ensures And(i + 1, n - 1) == Next(i, n)
  {
    MaskIsRemainder(i + 1, n);
    if i + 1 < n {
      RemainderUnique(i + 1, n, 0, i + 1);
    } else {
      RemainderUnique(i + 1, n, 1, 0);
    }
  }

  /** One round of that loop, past an occupied slot. */
  method PassBy<K, V>(from: array<Bucket<K, V>>, i: nat, into: array<Bucket<K, V>>, j: nat, mask: nat)
      returns (next: nat)
    requires i < from.Length && from != into && j < into.Length && into[j].dib > 0
    requires IsPow2(into.Length) && mask == into.Length - 1 && HasGap(into[..])
    modifies from, into
    ensures next == Next(j, into.Length) && from[..] == old(from[..])[i := from[i]]
    ensures HasGap(into[..]) && FirstGap(into[..]) == old(FirstGap(into[..]))
    ensures Insert(into[..], next, from[i], false) == old(Insert(into[..], j, from[i], false))
  {
    InsertPasses(into[..], j, from[i], false);
    if into[j].dib < from[i].dib {
      ghost var t, f := into[..], from[..];
      var spare := into[j];
      into[j] := from[i];
      from[i] := spare;
      assert into[..] == t[j := f[i]];
    }
    NextByMask(j, into.Length);
    next := And(j + 1, mask);
    from[i] := Bump(from[i]);
  }

  /** The inner loop of resize0: carries the bucket in slot i of the old array into the new
      array, by its stored hash, without comparing keys. The old slot holds whichever bucket
      is being carried. */
  method CarryInto<K, V>(from: array<Bucket<K, V>>, i: nat, into: array<Bucket<K, V>>, mask: nat)
    requires i < from.Length && from != into
    requires IsPow2(into.Length) && mask == into.Length - 1 && HasGap(into[..])
    modifies from, into
    ensures into[..] ==
            Insert(old(into[..]), Home(old(from[i]).hash, into.Length), old(from[i]).(dib := 1), false).table
    ensures from[..] == old(from[..])[i := from[i]]
  {
    ghost var f0 := from[..];
    from[i] := from[i].(dib := 1);
    MaskIsRemainder(from[i].hash, into.Length);
    var j: nat := And(from[i].hash, mask);
    ghost var all := Insert(into[..], j, from[i], false);
    while into[j].dib != 0
      invariant j < into.Length && HasGap(into[..])
      invariant from[..] == f0[i := from[i]]
      invariant Insert(into[..], j, from[i], false) == all
      decreases Dist(j, FirstGap(into[..]), into.Length)
    {
      j := PassBy(from, i, into, j, mask);
    }
    ghost var u := into[..];
    into[j] := from[i];
    assert into[..] == u[j := from[i]];
  }

  class HashMap<K(==), V> {
    // The user's hash callback with its seeds, and the item whose bytes are all zero.
    const hash: K -> nat
    const zero: Item<K, V>

    var buckets: array<Bucket<K, V>>
    var nbuckets: nat
    var mask: nat
    var cap: nat
    var count: nat
    var growat: nat
    var shrinkat: nat
    var loadfactor: nat
    var growpower: nat
    var oom: bool

    ghost predicate Valid()
      reads this, buckets
    {
      nbuckets <= buckets.Length && mask == nbuckets - 1 && M.Shape(St())
    }

    ghost function Table(): Table<K, V>
      reads this, buckets
      requires nbuckets <= buckets.Length
    {
      buckets[..nbuckets]
    }

    ghost function St(): M.State<K, V>
      reads this, buckets
      requires nbuckets <= buckets.Length
    {
      M.State(Table(), cap, count, growat, shrinkat, loadfactor, growpower, oom)
    }

    /** The table is a finite map: no dib has wrapped. */
    ghost predicate Sound()
      reads this, buckets
      requires Valid()
    {
      M.Sound(St(), hash)
    }

    ghost function Contents(): (m: map<K, V>)
      reads this, buckets
      requires Valid() && Sound()
      ensures |m| == count
    {
      ContentsCount(Table());
      RobinHood.Contents(Table())
    }

    constructor (cap: nat, hash: K -> nat, zero: Item<K, V>)
      ensures Valid() && Sound() && Contents() == map[]
      ensures fresh(buckets) && this.hash == hash && this.zero == zero
      ensures St() == M.New(cap, zero) && buckets.Length == nbuckets
    {
      var n := M.MIN_CAP;
      while n < cap
        invariant n > 0 && M.DoubledTo(n, cap) == M.RoundCap(cap)
        decreases cap - n
      {
        n := n * 2;
      }
      this.hash, this.zero := hash, zero;
      this.cap, nbuckets, mask, count := n, n, n - 1, 0;
      buckets := new Bucket<K, V>[n](_ => Bucket(0, 0, zero));
      growpower, loadfactor, oom := 1, M.DEFAULT_LOAD_FACTOR, false;
      growat, shrinkat := M.GrowAt(n, M.DEFAULT_LOAD_FACTOR), M.ShrinkAt(n);
      new;
      assert Table() == Zeroed(n, zero);
      M.NewSound(cap, zero, hash);
    }

    /** The outer loop of resize0: moves every item into the zeroed array of map2. */
    method MoveInto(map2: HashMap<K, V>)
      requires map2 != this && map2.buckets != buckets && nbuckets <= buckets.Length
      requires IsPow2(map2.buckets.Length) && map2.mask == map2.buckets.Length - 1
      requires |Occupied(map2.buckets[..])| + |OccupiedFrom(Table(), 0)| < map2.buckets.Length
      modifies buckets, map2.buckets
      ensures map2.buckets[..] == Reinsert(old(Table()), 0, old(map2.buckets[..]))
    {
      ghost var t0, n2 := Table(), map2.buckets.Length;
      ghost var all := Reinsert(t0, 0, map2.buckets[..]);
      for i := 0 to nbuckets
        invariant forall k :: i <= k < nbuckets ==> buckets[k] == t0[k]
        invariant |Occupied(map2.buckets[..])| + |OccupiedFrom(t0, i)| < n2
        invariant Reinsert(t0, i, map2.buckets[..]) == all
      {
        OccupiedFromStep(t0, i);
        if buckets[i].dib == 0 {
          continue;
        }
        ghost var u := map2.buckets[..];
        GapFromCount(u);
        InsertOccupies(u, Home(t0[i].hash, n2), t0[i].(dib := 1), false);
        CarryInto(buckets, i, map2.buckets, map2.mask);
      }
    }

    /** The end of resize0. */
    method TakeOver(map2: HashMap<K, V>)
      modifies this
      ensures buckets == map2.buckets && nbuckets == map2.nbuckets && mask == map2.mask
      ensures growat == map2.growat && shrinkat == map2.shrinkat
      ensures cap == old(cap) && count == old(count) && loadfactor == old(loadfactor)
      ensures growpower == old(growpower) && oom == old(oom)
    {
      buckets := map2.buckets;
      nbuckets := map2.nbuckets;
      mask := map2.mask;
      growat := map2.growat;
      shrinkat := map2.shrinkat;
    }

    lemma RoomToMove(t: Table<K, V>, u: Table<K, V>)
      requires forall i: nat | i < |u| :: u[i].dib == 0
      ensures |Occupied(u)| + |OccupiedFrom(t, 0)| == |Occupied(t)|
    {
      assert Occupied(u) == {} && OccupiedFrom(t, 0) == Occupied(t);
    }

    /** resize0: rehashes every item into a new array, or fails and changes nothing. */
    method Resize(newCap: nat, ok: bool) returns (resized: bool)
      requires nbuckets <= buckets.Length && mask == nbuckets - 1
      requires IsPow2(M.RoundCap(newCap)) && |Occupied(Table())| < M.RoundCap(newCap)
      modifies this, buckets
      ensures resized == ok
      ensures nbuckets <= buckets.Length && mask == nbuckets - 1
      ensures ok ==> fresh(buckets) && St() == M.Resized(old(St()), newCap, zero)
      ensures !ok ==> buckets == old(buckets) && St() == old(St())
    {
      var map2 := Create(newCap, hash, zero, ok);
      if map2 == null {
        return false;
      }
      assert map2.buckets[..] == Zeroed(M.RoundCap(newCap), zero);
      RoomToMove(Table(), map2.buckets[..]);
      MoveInto(map2);
      TakeOver(map2);
      return true;
    }

    /** Memory is refused, or the keys, with this one, are spread over the slots that there are
        after any growth. */
    ghost predicate CanStore(key: K, ok: bool)
      reads this, buckets
      requires Valid()
    {
      M.CanStore(St(), hash, key, ok)
    }

    /** If the table is to shrink without the key, the other keys are spread over its half. */
    ghost predicate CanRemove(key: K, ok: bool)
      reads this, buckets
      requires Valid()
    {
      M.CanRemove(St(), hash, key, ok)
    }

    /** hashmap_set. A refused allocation sets oom and changes nothing else. */
    method Set(item: Item<K, V>, ok: bool) returns (r: Option<Item<K, V>>)
      requires Valid()
      modifies this, buckets
      ensures Valid() && (buckets == old(buckets) || fresh(buckets))
      ensures (St(), r) == M.Set(old(St()), hash(item.key), zero, item, ok)
      ensures old(Sound() && CanStore(item.key, ok)) ==>
                && Sound()
                && r == (if oom then None else M.Lookup(old(Contents()), item.key))
                && Contents() == (if oom then old(Contents()) else old(Contents())[item.key := item.value])
                && (oom <==> old(count >= growat) && !ok)
    {
      ghost var s0 := St();
      r := SetWithHash(item, hash(item.key), ok);
      if M.Sound(s0, hash) && M.CanStore(s0, hash, item.key, ok) {
        M.SetOutcome(s0, hash, zero, item, ok, St(), r);
      }
    }

    /** hashmap_set_with_hash, with whatever hash the caller gives. */
    method SetWithHash(item: Item<K, V>, code: nat, ok: bool) returns (r: Option<Item<K, V>>)
      requires Valid()
      modifies this, buckets
      ensures Valid() && (buckets == old(buckets) || fresh(buckets))
      ensures (St(), r) == M.Set(old(St()), code, zero, item, ok)
    {
      ghost var s0 := St();
      M.SetShape(s0, code, zero, item, ok);
      var roomy := GrowIfFull(ok);
      if !roomy {
        return None;
      }
      M.RoomyShape(s0, zero);
      GapFromCount(Table());
      r := Store(Bucket(Clip(code), 1, item));
    }

    /** The start of hashmap_set_with_hash. */
    method GrowIfFull(ok: bool) returns (roomy: bool)
      requires Valid()
      modifies this, buckets
      ensures nbuckets <= buckets.Length && mask == nbuckets - 1 && (buckets == old(buckets) || fresh(buckets))
      ensures roomy <==> old(count < growat) || ok
      ensures St() == if roomy then M.Roomy(old(St()), zero).(oom := false) else old(St()).(oom := true)
    {
      oom := false;
      if count >= growat {
        M.GrownCap(St());
        var resized := Resize(nbuckets * Pow2(growpower), ok);
        if !resized {
          oom := true;
          return false;
        }
      }
      return true;
    }

    /** The copying of a bucket to slot i. */
    method PutAt(i: nat, b: Bucket<K, V>)
      requires i < nbuckets <= buckets.Length
      modifies buckets
      ensures Table() == old(Table())[i := b]
    {
      buckets[i] := b;
    }

    /** The probe loop of hashmap_set_with_hash. */
    method Store(e: Bucket<K, V>) returns (r: Option<Item<K, V>>)
      requires nbuckets <= buckets.Length && mask == nbuckets - 1 && IsPow2(nbuckets)
      requires HasGap(Table())
      modifies this`count, buckets
      ensures nbuckets <= buckets.Length
      ensures var p := Insert(old(Table()), Home(e.hash, nbuckets), e, true);
              && Table() == p.table && r == p.replaced
              && count == (if r.None? then old(count) + 1 else old(count))
    {
      var entry := e;
      MaskIsRemainder(entry.hash, nbuckets);
      var i: nat := And(entry.hash, mask);
      ghost var all := Insert(Table(), i, entry, true);
      while true
        invariant i < nbuckets <= buckets.Length && HasGap(Table())
        invariant Insert(Table(), i, entry, true) == all
        invariant count == old(count)
        decreases Dist(i, FirstGap(Table()), nbuckets)
      {
        ghost var t := Table();
        var bucket := buckets[i];
        if bucket.dib == 0 {
          PutAt(i, entry);
          count := count + 1;
          return None;
        }
        if entry.hash == bucket.hash && entry.item.key == bucket.item.key {
          PutAt(i, bucket.(item := entry.item));
          return Some(bucket.item);
        }
        InsertPasses(t, i, entry, true);
        if bucket.dib < entry.dib {
          PutAt(i, entry);
          entry := bucket;
        }
        NextByMask(i, nbuckets);
        i := And(i + 1, mask);
        entry := Bump(entry);
      }
    }

    /** hashmap_get */
    method Get(key: K) returns (r: Option<Item<K, V>>)
      requires Valid()
      ensures r == M.Get(St(), hash(key), key)
      ensures Sound() ==> r == M.Lookup(Contents(), key)
    {
      if M.Sound(St(), hash) {
        M.GetRefines(St(), hash, key);
      }
      r := GetWithHash(key, hash(key));
    }

    /** hashmap_get_with_hash, with whatever hash the caller gives. */
    method GetWithHash(key: K, code: nat) returns (r: Option<Item<K, V>>)
      requires Valid()
      ensures r == M.Get(St(), code, key)
    {
      var slot := Probe(key, code);
      return match slot case None => None case Some(i) => Some(buckets[i].item);
    }

    /** The probe loop of hashmap_get_with_hash and hashmap_delete_with_hash. */
    method Probe(key: K, code: nat) returns (slot: Option<nat>)
      requires Valid()
      ensures slot == M.Locate(St(), code, key)
    {
      var h := Clip(code);
      MaskIsRemainder(h, nbuckets);
      GapFromCount(Table());
      var i: nat := And(h, mask);
      while buckets[i].dib != 0
        invariant i < nbuckets
        invariant Find(Table(), i, h, key) == M.Locate(St(), code, key)
        decreases Dist(i, FirstGap(Table()), nbuckets)
      {
        if buckets[i].hash == h && buckets[i].item.key == key {
          return Some(i);
        }
        NextByMask(i, nbuckets);
        i := And(i + 1, mask);
      }
      return None;
    }

    /** hashmap_delete */
    method Delete(key: K, ok: bool) returns (r: Option<Item<K, V>>)
      requires Valid()
      modifies this, buckets
      ensures Valid() && (buckets == old(buckets) || fresh(buckets))
      ensures (St(), r) == M.Delete(old(St()), hash(key), zero, key, ok)
      ensures old(Sound() && CanRemove(key, ok)) ==>
                Sound() && r == M.Lookup(old(Contents()), key) && Contents() == M.Without(old(Contents()), key)
    {
      if M.Sound(St(), hash) && M.CanRemove(St(), hash, key, ok) {
        M.DeleteRefinesIff(St(), hash, zero, key, ok);
      }
      r := DeleteWithHash(key, hash(key), ok);
    }

    /** hashmap_delete_with_hash, with whatever hash the caller gives. */
    method DeleteWithHash(key: K, code: nat, ok: bool) returns (r: Option<Item<K, V>>)
      requires Valid()
      modifies this, buckets
      ensures Valid() && (buckets == old(buckets) || fresh(buckets))
      ensures (St(), r) == M.Delete(old(St()), code, zero, key, ok)
    {
      ghost var s0 := St();
      M.DeleteShape(s0, code, zero, key, ok);
      oom := false;
      var slot := Probe(key, code);
      if slot.None? {
        return None;
      }
      var spare := buckets[slot.value].item;
      M.OneGone(s0, slot.value);
      M.RemovedShape(s0, slot.value);
      Shift(slot.value);
      count := count - 1;
      assert St() == M.Removed(s0, slot.value);
      ShrinkIfSparse(ok);
      return Some(spare);
    }

    /** The end of hashmap_delete_with_hash. A refused allocation for the smaller array is of
        no consequence. */
    method ShrinkIfSparse(ok: bool)
      requires Valid()
      modifies this, buckets
      ensures nbuckets <= buckets.Length && mask == nbuckets - 1
      ensures buckets == old(buckets) || fresh(buckets)
      ensures St() == if M.WantsShrink(old(St())) && ok then M.Shrunk(old(St()), zero) else old(St())
    {
      if nbuckets > cap && count <= shrinkat {
        M.ShrunkCap(St());
        var _ := Resize(nbuckets / 2, ok);
      }
    }

    /** The backward shift of hashmap_delete_with_hash, from the slot of the deleted item. */
    method Shift(slot: nat)
      requires nbuckets <= buckets.Length && mask == nbuckets - 1 && IsPow2(nbuckets)
      requires slot < nbuckets && HasGap(Hide(Table(), slot))
      modifies buckets
      ensures Table() == ShiftBack(old(Table()), slot)
    {
      ghost var t0 := Table();
      PutAt(slot, Emptied(buckets[slot]));
      ShiftBackFromEmptied(t0, slot);
      ghost var all := ShiftBack(t0, slot);
      var prev, i := slot, And(slot + 1, mask);
      NextByMask(slot, nbuckets);
      while buckets[i].dib > 1
        invariant prev < nbuckets && i == Next(prev, nbuckets) && HasGap(Hide(Table(), prev))
        invariant ShiftBack(Table(), prev) == all
        decreases Dist(prev, FirstGap(Hide(Table(), prev)), nbuckets)
      {
        ghost var t := Table();
        GapStaysAhead(t, prev);
        PutAt(prev, Nearer(buckets[i]));
        prev := i;
        NextByMask(i, nbuckets);
        i := And(i + 1, mask);
      }
      PutAt(prev, Emptied(buckets[prev]));
    }

    /** hashmap_clear. When the new array is refused, the old one, which is long enough, is
        used for the smaller number of buckets. */
    method Clear(updateCap: bool, ok: bool)
      requires Valid()
      modifies this, buckets
      ensures Valid() && Sound() && Contents() == map[]
      ensures buckets == old(buckets) || fresh(buckets)
      ensures St() == M.Clear(old(St()), zero, updateCap)
    {
      M.ClearSound(St(), zero, updateCap, hash);
      count := 0;
      if updateCap {
        cap := nbuckets;
      } else if nbuckets != cap {
        if ok {
          buckets := new Bucket<K, V>[cap](_ => Bucket(0, 0, zero));
        }
        nbuckets := cap;
      }
      ZeroBuckets();
      mask := nbuckets - 1;
      growat := M.GrowAt(nbuckets, loadfactor);
      shrinkat := M.ShrinkAt(nbuckets);
    }

    /** The memset of hashmap_clear. */
    method ZeroBuckets()
      requires nbuckets <= buckets.Length
      modifies buckets
      ensures Table() == Zeroed(nbuckets, zero)
    {
      for i := 0 to nbuckets
        invariant forall k :: 0 <= k < i ==> buckets[k] == Bucket(0, 0, zero)
      {
        buckets[i] := Bucket(0, 0, zero);
      }
    }

    /** hashmap_set_load_factor: None is NaN. */
    method SetLoadFactor(factor: Option<real>)
      requires Valid()
      modifies this
      ensures Valid() && buckets == old(buckets)
      ensures St() == M.SetLoadFactor(old(St()), factor)
      ensures old(Sound()) ==> Sound() && Table() == old(Table())
    {
      M.SetLoadFactorShape(St(), factor);
      loadfactor := M.ClampedLoadFactor(factor, loadfactor);
      growat := M.GrowAt(nbuckets, loadfactor);
    }

    /** hashmap_set_grow_by_power */
    method SetGrowPower(power: nat)
      requires Valid()
      modifies this`growpower
      ensures Valid() && St() == M.SetGrowPower(old(St()), power)
      ensures old(Sound()) ==> Sound() && Table() == old(Table())
    {
      growpower := if power < 1 then 1 else if power > 16 then 16 else power;
      assert Table() == old(Table());
    }

    /** hashmap_iter: the next item at or after the cursor, and the cursor behind it. */
    method Iter(i: nat) returns (item: Option<Item<K, V>>, next: nat)
      requires Valid()
      ensures i <= nbuckets ==>
                && i <= next <= nbuckets
                && Items(Table(), i) == (if item.Some? then [item.value] + Items(Table(), next) else [])
      ensures i > nbuckets ==> item.None? && next == i
    {
      next := i;
      while next < nbuckets
        invariant i <= nbuckets ==> i <= next <= nbuckets && Items(Table(), next) == Items(Table(), i)
        invariant i > nbuckets ==> next == i
      {
        next := next + 1;
        if buckets[next - 1].dib != 0 {
          return Some(buckets[next - 1].item), next;
        }
      }
      return None, next;
    }

    /** hashmap_scan with the answers of its callback: it visits the items in slot order up to
        the first one that the callback refuses. */
    method Scan(iter: Item<K, V> -> bool) returns (all: bool, ghost visited: seq<Item<K, V>>)
      requires Valid()
      ensures visited <= Items(Table(), 0)
      ensures all <==> forall x | x in Items(Table(), 0) :: iter(x)
      ensures all ==> visited == Items(Table(), 0)
      ensures !all ==> visited != [] && !iter(visited[|visited| - 1])
                       && forall x | x in visited[..|visited| - 1] :: iter(x)
    {
      visited := [];
      for i := 0 to nbuckets
        invariant visited + Items(Table(), i) == Items(Table(), 0)
        invariant forall x | x in visited :: iter(x)
      {
        if buckets[i].dib != 0 {
          visited := visited + [buckets[i].item];
          if !iter(buckets[i].item) {
            assert visited + Items(Table(), i + 1) == Items(Table(), 0);
            return false, visited;
          }
        }
      }
      return true, visited;
    }
  }

  /** hashmap_new_with_allocator: NULL when memory is refused. */
  method Create<K(==), V>(cap: nat, hash: K -> nat, zero: Item<K, V>, ok: bool) returns (m: HashMap?<K, V>)
    ensures m == null <==> !ok
    ensures m != null ==>
              && fresh(m) && fresh(m.buckets) && m.Valid() && m.Sound() && m.Contents() == map[]
              && m.hash == hash && m.zero == zero
              && m.St() == M.New(cap, zero) && m.buckets.Length == m.nbuckets
  {
    if !ok {
      return null;
    }
    m := new HashMap<K, V>(cap, hash, zero);
  }
}
