/** The whole state of a `struct hashmap` and its operations, each as a function from state
    to state and result. `ok` is the answer of the allocator to the one allocation that an
    operation may ask for. The lemmas compare runs of these operations with a plain finite
    map. */
module HashMapModel {
  import opened Bits
  import opened DibLimit
  import opened KeySpread
  import opened Options
  import opened RobinHood
  import opened Sets

  const MIN_CAP: nat := 16
  const DEFAULT_LOAD_FACTOR: nat := 60

  // nbuckets is |table| and mask is |table| - 1.
  datatype State<K, V> = State(
    table: Table<K, V>,
    cap: nat,
    count: nat,
    growat: nat,
    shrinkat: nat,
    loadfactor: nat,
    growpower: nat,
    oom: bool)

  function GrowAt(n: nat, loadfactor: nat): nat {
    n * loadfactor / 100
  }

  function ShrinkAt(n: nat): nat {
    n / 10
  }

  /** The smallest power of two times ncap that is at least cap. */
  function DoubledTo(ncap: nat, cap: nat): (r: nat)
    requires ncap > 0
    ensures r >= ncap && r >= cap
    ensures r == ncap || r < 2 * cap
    ensures IsPow2(ncap) ==> IsPow2(r)
    decreases if ncap < cap then cap - ncap else 0
  {
    if ncap < cap then DoubledTo(2 * ncap, cap) else ncap
  }

  function RoundCap(cap: nat): nat {
    DoubledTo(MIN_CAP, cap)
  }

  lemma {:induction false} DoubledToIsExact(ncap: nat, n: nat)
    requires IsPow2(ncap) && IsPow2(n) && ncap <= n
    ensures DoubledTo(ncap, n) == n
    decreases n - ncap
  {
    if ncap < n {
      Pow2Gap(ncap, n);
      DoubledToIsExact(2 * ncap, n);
    }
  }

  lemma {:induction false} Pow2Gap(a: nat, b: nat)
    requires IsPow2(a) && IsPow2(b) && a < b
    ensures 2 * a <= b
  {
    if a > 1 {
      Pow2Gap(a / 2, b / 2);
    }
  }

  /** What every reachable state satisfies, even after a dib has wrapped: it is enough for
      every probe loop to reach an empty slot. */
  ghost predicate Shape<K, V>(s: State<K, V>) {
    && IsPow2(|s.table|) && IsPow2(s.cap)
    && MIN_CAP <= s.cap <= |s.table|
    && |Occupied(s.table)| <= s.count < |s.table|
    && s.growat * 100 <= 95 * |s.table|
    && s.shrinkat * 10 <= |s.table|
    && 50 <= s.loadfactor <= 95
    && 1 <= s.growpower <= 16
  }

  /** The state represents the finite map Contents(s.table). */
  ghost predicate Sound<K, V>(s: State<K, V>, h: K -> nat) {
    && Shape(s)
    && Intact(s.table, h)
    && s.count == |Occupied(s.table)|
  }

  lemma GrowAtBound(n: nat, loadfactor: nat)
    requires loadfactor <= 95
    ensures GrowAt(n, loadfactor) * 100 <= 95 * n
  {
    assert n * loadfactor <= n * 95;
  }

  // ---------- operations ----------

  function New<K, V>(cap: nat, zero: Item<K, V>): State<K, V> {
    var n := RoundCap(cap);
    State(Zeroed(n, zero), n, 0, GrowAt(n, DEFAULT_LOAD_FACTOR), ShrinkAt(n), DEFAULT_LOAD_FACTOR, 1, false)
  }

  /** resize0 when its allocations succeed. The new threshold comes from a map made with the
      default load factor, whatever the load factor of this map. */
  ghost function Resized<K, V>(s: State<K, V>, cap: nat, zero: Item<K, V>): State<K, V>
    requires |Occupied(s.table)| < RoundCap(cap)
  {
    var n := RoundCap(cap);
    var u := Zeroed(n, zero);
    assert Occupied(u) == {};
    assert OccupiedFrom(s.table, 0) == Occupied(s.table);
    s.(table := Reinsert(s.table, 0, u), growat := GrowAt(n, DEFAULT_LOAD_FACTOR), shrinkat := ShrinkAt(n))
  }

  lemma GrownCap<K, V>(s: State<K, V>)
    requires Shape(s)
    ensures var n := |s.table| * Pow2(s.growpower);
            IsPow2(n) && RoundCap(n) == n && n >= 2 * |s.table|
  {
    Pow2Scales(|s.table|, s.growpower);
    MinCapFits(|s.table| * Pow2(s.growpower));
  }

  lemma MinCapFits(n: nat)
    requires IsPow2(n) && n >= MIN_CAP
    ensures RoundCap(n) == n
  {
    assert IsPow2(2) && IsPow2(4) && IsPow2(8) && IsPow2(16);
    DoubledToIsExact(MIN_CAP, n);
  }

  ghost function Grown<K, V>(s: State<K, V>, zero: Item<K, V>): State<K, V>
    requires Shape(s)
  {
    GrownCap(s);
    Resized(s, |s.table| * Pow2(s.growpower), zero)
  }

  /** The state in which hashmap_set_with_hash starts to probe. */
  ghost function Roomy<K, V>(s: State<K, V>, zero: Item<K, V>): State<K, V>
    requires Shape(s)
  {
    if s.count >= s.growat then Grown(s, zero) else s
  }

  /** hashmap_set_with_hash after any growth: the probe loop, with whatever hash is given. */
  ghost function Inserted<K, V>(s: State<K, V>, code: nat, item: Item<K, V>)
    : (State<K, V>, Option<Item<K, V>>)
    requires Shape(s)
  {
    var hash := Clip(code);
    GapFromCount(s.table);
    var r := Insert(s.table, Home(hash, |s.table|), Bucket(hash, 1, item), true);
    var count := if r.replaced.None? then s.count + 1 else s.count;
    (s.(table := r.table, count := count, oom := false), r.replaced)
  }

  ghost function Set<K, V>(s: State<K, V>, code: nat, zero: Item<K, V>, item: Item<K, V>, ok: bool)
    : (State<K, V>, Option<Item<K, V>>)
    requires Shape(s)
  {
    if s.count >= s.growat && !ok then (s.(oom := true), None)
    else
      RoomyShape(s, zero);
      Inserted(Roomy(s, zero), code, item)
  }

  /** The slot at which the probe for a key stops, if it stops at the key. */
  ghost function Locate<K, V>(s: State<K, V>, code: nat, key: K): (r: Option<nat>)
    requires Shape(s)
    ensures r.Some? ==> r.value < |s.table| && s.table[r.value].dib > 0 && s.table[r.value].item.key == key
  {
    var hash := Clip(code);
    GapFromCount(s.table);
    FindIsSound(s.table, Home(hash, |s.table|), hash, key);
    Find(s.table, Home(hash, |s.table|), hash, key)
  }

  ghost function Get<K, V>(s: State<K, V>, code: nat, key: K): Option<Item<K, V>>
    requires Shape(s)
  {
    var r := Locate(s, code, key);
    if r.Some? then Some(s.table[r.value].item) else None
  }

  ghost function Removed<K, V>(s: State<K, V>, i: nat): State<K, V>
    requires Shape(s) && i < |s.table| && s.table[i].dib > 0
  {
    OneGone(s, i);
    s.(table := ShiftBack(s.table, i), count := s.count - 1, oom := false)
  }

  lemma OneGone<K, V>(s: State<K, V>, i: nat)
    requires Shape(s) && i < |s.table| && s.table[i].dib > 0
    ensures HasGap(Hide(s.table, i)) && s.count > 0
    ensures |Occupied(s.table[i := Emptied(s.table[i])])| == |Occupied(s.table)| - 1
  {
    GapFromCount(s.table);
    assert Hide(s.table, i)[FirstGap(s.table)].dib == 0;
    OccupiedUpdate(s.table, i, Emptied(s.table[i]));
    assert i in Occupied(s.table);
  }

  predicate WantsShrink<K, V>(s: State<K, V>) {
    |s.table| > s.cap && s.count <= s.shrinkat
  }

  ghost function Shrunk<K, V>(s: State<K, V>, zero: Item<K, V>): State<K, V>
    requires Shape(s) && WantsShrink(s)
  {
    ShrunkCap(s);
    Resized(s, |s.table| / 2, zero)
  }

  lemma ShrunkCap<K, V>(s: State<K, V>)
    requires Shape(s) && WantsShrink(s)
    ensures var n := |s.table| / 2;
            IsPow2(n) && RoundCap(n) == n && s.cap <= n && s.count < n
  {
    Pow2Gap(s.cap, |s.table|);
    MinCapFits(|s.table| / 2);
  }

  ghost function Delete<K, V>(s: State<K, V>, code: nat, zero: Item<K, V>, key: K, ok: bool)
    : (State<K, V>, Option<Item<K, V>>)
    requires Shape(s)
  {
    var r := Locate(s, code, key);
    if r.None? then (s.(oom := false), None)
    else
      RemovedShape(s, r.value);
      var d := Removed(s, r.value);
      (if WantsShrink(d) && ok then Shrunk(d, zero) else d, Some(s.table[r.value].item))
  }

  /** hashmap_clear. When the allocation for a smaller array fails, the old array is kept and
      its first `cap` slots are used, so the state does not depend on the allocator. */
  function Clear<K, V>(s: State<K, V>, zero: Item<K, V>, updateCap: bool): State<K, V> {
    var n := if updateCap then |s.table| else s.cap;
    s.(table := Zeroed(n, zero), cap := n, count := 0,
       growat := GrowAt(n, s.loadfactor), shrinkat := ShrinkAt(n))
  }

  /** The new load factor in percent: None is NaN, other factors are clamped. */
  function ClampedLoadFactor(factor: Option<real>, loadfactor: nat): nat
    requires 50 <= loadfactor <= 95
  {
    match factor
    case None => loadfactor
    case Some(f) => if f < 0.5 then 50 else if f > 0.95 then 95 else (f * 100.0).Floor
  }

  function SetLoadFactor<K, V>(s: State<K, V>, factor: Option<real>): State<K, V>
    requires 50 <= s.loadfactor <= 95
  {
    var lf := ClampedLoadFactor(factor, s.loadfactor);
    s.(loadfactor := lf, growat := GrowAt(|s.table|, lf))
  }

  function SetGrowPower<K, V>(s: State<K, V>, power: nat): State<K, V> {
    s.(growpower := if power < 1 then 1 else if power > 16 then 16 else power)
  }

  /** After a resize the growth threshold is that of the load factor that was set if and only if
      that factor is the default one or the table is too small to tell the two apart. */
  lemma ResizedThresholdIff<K, V>(s: State<K, V>, n: nat, zero: Item<K, V>)
    requires IsPow2(n) && n >= MIN_CAP && RoundCap(n) == n && |Occupied(s.table)| < n
    ensures Resized(s, n, zero).growat == GrowAt(n, s.loadfactor) <==>
            || s.loadfactor == DEFAULT_LOAD_FACTOR
            || (n == 16 && 57 <= s.loadfactor <= 62)
            || (n == 32 && 60 <= s.loadfactor <= 62)
  {
    PowersFrom16(n);
    if n >= 64 {
      LargeThresholds(n, s.loadfactor);
    }
  }

  lemma LargeThresholds(n: nat, lf: nat)
    requires n == 64 || n >= 100
    ensures GrowAt(n, DEFAULT_LOAD_FACTOR) == GrowAt(n, lf) <==> lf == DEFAULT_LOAD_FACTOR
  {
    if lf < DEFAULT_LOAD_FACTOR {
      Larger(n, lf + 1, DEFAULT_LOAD_FACTOR);
    } else if lf > DEFAULT_LOAD_FACTOR {
      Larger(n, DEFAULT_LOAD_FACTOR + 1, lf);
    }
  }

  lemma Larger(n: nat, a: nat, b: nat)
    requires a <= b
    ensures n * a <= n * b
  {
  }

  lemma PowersFrom16(n: nat)
    requires IsPow2(n) && n >= 16
    ensures n == 16 || n == 32 || n == 64 || n >= 100
  {
    assert IsPow2(2) && IsPow2(4) && IsPow2(8) && IsPow2(16) && IsPow2(32) && IsPow2(64);
    if n > 16 {
      Pow2Gap(16, n);
    }
    if n > 32 {
      Pow2Gap(32, n);
    }
    if n > 64 {
      Pow2Gap(64, n);
    }
  }

  // ---------- every operation keeps the shape ----------

  lemma NewShape<K, V>(cap: nat, zero: Item<K, V>)
    ensures Shape(New(cap, zero))
  {
    assert IsPow2(2) && IsPow2(4) && IsPow2(8) && IsPow2(16);
    GrowAtBound(RoundCap(cap), DEFAULT_LOAD_FACTOR);
    assert Occupied(New(cap, zero).table) == {};
  }

  lemma ResizedShape<K, V>(s: State<K, V>, n: nat, zero: Item<K, V>)
    requires Shape(s) && IsPow2(n) && RoundCap(n) == n && s.cap <= n && s.count < n
    ensures Shape(Resized(s, n, zero)) && |Resized(s, n, zero).table| == n
  {
    var u := Zeroed(n, zero);
    assert Occupied(u) == {};
    assert OccupiedFrom(s.table, 0) == Occupied(s.table);
    ReinsertOccupies(s.table, 0, u);
    GrowAtBound(n, DEFAULT_LOAD_FACTOR);
  }

  lemma GrownShape<K, V>(s: State<K, V>, zero: Item<K, V>)
    requires Shape(s)
    ensures Shape(Grown(s, zero)) && |Grown(s, zero).table| >= 2 * |s.table|
  {
    GrownCap(s);
    ResizedShape(s, |s.table| * Pow2(s.growpower), zero);
  }

  lemma RoomyShape<K, V>(s: State<K, V>, zero: Item<K, V>)
    requires Shape(s)
    ensures Shape(Roomy(s, zero))
    ensures var g := Roomy(s, zero); g.count + 1 < |g.table|
  {
    if s.count >= s.growat {
      GrownShape(s, zero);
    }
  }

  lemma SetShape<K, V>(s: State<K, V>, code: nat, zero: Item<K, V>, item: Item<K, V>, ok: bool)
    requires Shape(s)
    ensures Shape(Set(s, code, zero, item, ok).0)
  {
    if s.count < s.growat || ok {
      RoomyShape(s, zero);
      var g := Roomy(s, zero);
      var hash := Clip(code);
      GapFromCount(g.table);
      InsertOccupies(g.table, Home(hash, |g.table|), Bucket(hash, 1, item), true);
    }
  }

  lemma RemovedShape<K, V>(s: State<K, V>, i: nat)
    requires Shape(s) && i < |s.table| && s.table[i].dib > 0
    ensures Shape(Removed(s, i))
  {
    OneGone(s, i);
    ShiftBackFrees(s.table, i);
  }

  lemma DeleteShape<K, V>(s: State<K, V>, code: nat, zero: Item<K, V>, key: K, ok: bool)
    requires Shape(s)
    ensures Shape(Delete(s, code, zero, key, ok).0)
  {
    var r := Locate(s, code, key);
    if r.Some? {
      RemovedShape(s, r.value);
      var d := Removed(s, r.value);
      if WantsShrink(d) && ok {
        ShrunkCap(d);
        ResizedShape(d, |d.table| / 2, zero);
      }
    }
  }

  lemma ClearShape<K, V>(s: State<K, V>, zero: Item<K, V>, updateCap: bool)
    requires Shape(s)
    ensures Shape(Clear(s, zero, updateCap))
  {
    var c := Clear(s, zero, updateCap);
    assert Occupied(c.table) == {};
    GrowAtBound(|c.table|, s.loadfactor);
  }

  lemma SetLoadFactorShape<K, V>(s: State<K, V>, factor: Option<real>)
    requires Shape(s)
    ensures Shape(SetLoadFactor(s, factor))
  {
    GrowAtBound(|s.table|, ClampedLoadFactor(factor, s.loadfactor));
  }

  // ---------- every operation agrees with the finite map ----------

  lemma NewSound<K, V>(cap: nat, zero: Item<K, V>, h: K -> nat)
    ensures Sound(New(cap, zero), h) && Contents(New(cap, zero).table) == map[]
  {
    NewShape(cap, zero);
    ZeroedIsEmpty(RoundCap(cap), zero, h);
  }

  /** A resize keeps map and count, and leaves a finite map, if and only if the keys are spread
      over the slots of the new table. */
  lemma ResizedIff<K, V>(s: State<K, V>, n: nat, zero: Item<K, V>, h: K -> nat)
    requires Sound(s, h) && IsPow2(n) && RoundCap(n) == n && s.cap <= n && s.count < n
    ensures var u := Resized(s, n, zero);
            Sound(u, h) && Contents(u.table) == Contents(s.table) <==> Spread(Keys(s.table), h, n)
  {
    ResizedShape(s, n, zero);
    var u := Zeroed(n, zero);
    ZeroedIsEmpty(n, zero, h);
    assert OccupiedFrom(s.table, 0) == Occupied(s.table);
    assert Moved(s.table, 0, u);
    RehashIff(s.table, h, 0, u);
    RehashesIff(s.table, h, 0, u);
  }

  /** Growing never meets the limit of the 16-bit field, however many items there are. */
  lemma GrowthFits<K, V>(s: State<K, V>, h: K -> nat)
    requires Sound(s, h)
    ensures Spread(Keys(s.table), h, |s.table| * Pow2(s.growpower))
  {
    StoredIsSpread(s.table, h);
    SpreadOver(Keys(s.table), h, |s.table|, Pow2(s.growpower));
  }

  lemma GrownSound<K, V>(s: State<K, V>, zero: Item<K, V>, h: K -> nat)
    requires Sound(s, h)
    ensures Sound(Grown(s, zero), h)
    ensures Contents(Grown(s, zero).table) == Contents(s.table)
  {
    GrownCap(s);
    GrowthFits(s, h);
    ResizedIff(s, |s.table| * Pow2(s.growpower), zero, h);
  }

  ghost function Lookup<K, V>(m: map<K, V>, key: K): Option<Item<K, V>> {
    if key in m then Some(Item(key, m[key])) else None
  }

  lemma RoomySound<K, V>(s: State<K, V>, zero: Item<K, V>, h: K -> nat)
    requires Sound(s, h)
    ensures var g := Roomy(s, zero);
            Sound(g, h) && Contents(g.table) == Contents(s.table) && g.count == s.count
  {
    if s.count >= s.growat {
      GrownSound(s, zero, h);
    }
  }

  /** What storing an item must do. */
  ghost predicate Updates<K, V>(s: State<K, V>, h: K -> nat, item: Item<K, V>, s': State<K, V>, r: Option<Item<K, V>>)
    requires Sound(s, h)
  {
    var m := Contents(s.table);
    && Sound(s', h) && !s'.oom
    && r == Lookup(m, item.key) && Contents(s'.table) == m[item.key := item.value]
  }

  lemma InsertedRefinesIff<K, V>(s: State<K, V>, h: K -> nat, item: Item<K, V>)
    requires Sound(s, h) && s.count + 1 < |s.table|
    ensures var (s', r) := Inserted(s, h(item.key), item);
            Updates(s, h, item, s', r) <==> Spread(Keys(s.table) + {item.key}, h, |s.table|)
  {
    var hash := Clip(h(item.key));
    var home, e := Home(hash, |s.table|), Bucket(hash, 1, item);
    GapFromCount(s.table);
    StoredIffSpread(s.table, h, item);
    var p := Insert(s.table, home, e, true);
    InsertOccupies(s.table, home, e, true);
    UpdatesIffStored(s, h, item, p, Inserted(s, h(item.key), item).0);
  }

  lemma UpdatesIffStored<K, V>(s: State<K, V>, h: K -> nat, item: Item<K, V>, p: Placed<K, V>, s': State<K, V>)
    requires Sound(s, h) && s.count + 1 < |s.table| && |p.table| == |s.table|
    requires |Occupied(p.table)| <= |Occupied(s.table)| + (if p.replaced.None? then 1 else 0)
    requires s' == s.(table := p.table, count := if p.replaced.None? then s.count + 1 else s.count, oom := false)
    ensures Updates(s, h, item, s', p.replaced) <==> Stored(s.table, h, item, p)
  {
  }

  ghost function Without<K, V>(m: map<K, V>, key: K): map<K, V> {
    m - {key}
  }

  /** The number of slots in which hashmap_set probes. */
  function SlotsFor<K, V>(s: State<K, V>): nat {
    if s.count >= s.growat then |s.table| * Pow2(s.growpower) else |s.table|
  }

  /** The set is refused for want of memory, or the keys, with the new one, are spread over the
      slots that there are after any growth. */
  ghost predicate CanStore<K, V>(s: State<K, V>, h: K -> nat, key: K, ok: bool) {
    (s.count >= s.growat && !ok) || Spread(Keys(s.table) + {key}, h, SlotsFor(s))
  }

  /** What hashmap_set must do: update one key and return the old item, or fail for want of
      memory and change nothing but oom. */
  ghost predicate SetsRight<K, V>(s: State<K, V>, h: K -> nat, item: Item<K, V>, ok: bool,
                                  s': State<K, V>, r: Option<Item<K, V>>)
    requires Sound(s, h)
  {
    var m := Contents(s.table);
    && Sound(s', h)
    && (s'.oom <==> s.count >= s.growat && !ok)
    && (s'.oom ==> r == None && s' == s.(oom := true))
    && (!s'.oom ==> r == Lookup(m, item.key) && Contents(s'.table) == m[item.key := item.value])
  }

  /** For every hash function, hashmap_set does so, and keeps the invariant, if and only if memory
      is refused or the keys are spread. */
  lemma SetRefinesIff<K, V>(s: State<K, V>, h: K -> nat, zero: Item<K, V>, item: Item<K, V>, ok: bool)
    requires Sound(s, h)
    ensures var (s', r) := Set(s, h(item.key), zero, item, ok);
            SetsRight(s, h, item, ok, s', r) <==> CanStore(s, h, item.key, ok)
  {
    if s.count < s.growat || ok {
      RoomyShape(s, zero);
      RoomySound(s, zero, h);
      RoomySlots(s, zero);
      var g := Roomy(s, zero);
      assert Contents(g.table).Keys == Contents(s.table).Keys;
      InsertedRefinesIff(g, h, item);
    }
  }

  lemma RoomySlots<K, V>(s: State<K, V>, zero: Item<K, V>)
    requires Shape(s)
    ensures |Roomy(s, zero).table| == SlotsFor(s)
  {
    if s.count >= s.growat {
      GrownCap(s);
      ResizedShape(s, |s.table| * Pow2(s.growpower), zero);
    }
  }

  /** Below 65535 items every item can be stored. */
  lemma FewCanStore<K, V>(s: State<K, V>, h: K -> nat, key: K, ok: bool)
    requires Sound(s, h) && s.count < MAX_DIB
    ensures CanStore(s, h, key, ok)
  {
    ContentsCount(s.table);
    assert Keys(s.table) == Contents(s.table).Keys;
    FewAreSpread(Keys(s.table) + {key}, h, SlotsFor(s));
  }

  /** A key that is stored always can be stored again. */
  lemma KnownCanStore<K, V>(s: State<K, V>, h: K -> nat, key: K, ok: bool)
    requires Sound(s, h) && HasKey(s.table, key)
    ensures CanStore(s, h, key, ok)
  {
    assert Keys(s.table) + {key} == Keys(s.table);
    StoredIsSpread(s.table, h);
    GrowthFits(s, h);
  }

  /** The same, for a result that is known to be that of Set. */
  lemma SetOutcome<K, V>(s: State<K, V>, h: K -> nat, zero: Item<K, V>, item: Item<K, V>, ok: bool,
                         s': State<K, V>, r: Option<Item<K, V>>)
    requires Sound(s, h) && CanStore(s, h, item.key, ok)
    requires (s', r) == Set(s, h(item.key), zero, item, ok)
    ensures Sound(s', h) && (s'.oom <==> s.count >= s.growat && !ok)
    ensures r == if s'.oom then None else Lookup(Contents(s.table), item.key)
    ensures Contents(s'.table) ==
            if s'.oom then Contents(s.table) else Contents(s.table)[item.key := item.value]
  {
    SetRefinesIff(s, h, zero, item, ok);
  }

  /** A probe that stops at the first empty slot misses no key. */
  lemma LocateIsComplete<K, V>(s: State<K, V>, h: K -> nat, key: K)
    requires Sound(s, h)
    ensures var r := Locate(s, h(key), key);
            var m := Contents(s.table);
            && (r.Some? <==> key in m)
            && (r.Some? ==> s.table[r.value].item == Item(key, m[key]))
  {
    var hash := Clip(h(key));
    GapFromCount(s.table);
    FindIsComplete(s.table, h, Home(hash, |s.table|), key);
  }

  /** hashmap_get returns exactly the mapped item. */
  lemma GetRefines<K, V>(s: State<K, V>, h: K -> nat, key: K)
    requires Sound(s, h)
    ensures Get(s, h(key), key) == Lookup(Contents(s.table), key)
  {
    LocateIsComplete(s, h, key);
  }

  lemma RemovedSound<K, V>(s: State<K, V>, h: K -> nat, i: nat)
    requires Sound(s, h) && i < |s.table| && s.table[i].dib > 0
    ensures Sound(Removed(s, i), h)
    ensures Contents(Removed(s, i).table) == Without(Contents(s.table), s.table[i].item.key)
  {
    OneGone(s, i);
    ContentsTake(s.table, i);
    EmptiedIsHoled(s.table, h, i);
    ShiftBackRemoves(s.table, h, i);
    RemovedShape(s, i);
    OneKeyLess(Contents(s.table), s.table[i].item.key);
  }

  lemma OneKeyLess<K, V>(m: map<K, V>, k: K)
    requires k in m
    ensures |Without(m, k)| == |m| - 1
  {
    assert m == (m - {k})[k := m[k]];
  }

  lemma NothingToRemove<K, V>(m: map<K, V>, key: K)
    requires key !in m
    ensures Without(m, key) == m
  {
  }

  /** The keys that are left are spread over half the slots, if the table is to shrink. */
  ghost predicate CanShrink<K, V>(s: State<K, V>, h: K -> nat, ok: bool) {
    WantsShrink(s) && ok ==> Spread(Keys(s.table), h, |s.table| / 2)
  }

  lemma MaybeShrunkIff<K, V>(s: State<K, V>, zero: Item<K, V>, ok: bool, h: K -> nat)
    requires Sound(s, h)
    ensures var r := if WantsShrink(s) && ok then Shrunk(s, zero) else s;
            Sound(r, h) && Contents(r.table) == Contents(s.table) <==> CanShrink(s, h, ok)
  {
    if WantsShrink(s) && ok {
      ShrunkCap(s);
      ResizedIff(s, |s.table| / 2, zero, h);
    }
  }

  /** If the key is stored and the table is to shrink without it, the other keys are spread over
      half the slots. */
  ghost predicate CanRemove<K, V>(s: State<K, V>, h: K -> nat, key: K, ok: bool) {
    HasKey(s.table, key) && |s.table| > s.cap && s.count <= s.shrinkat + 1 && ok ==>
      Spread(Keys(s.table) - {key}, h, |s.table| / 2)
  }

  /** hashmap_delete returns the mapped item, removes only that key, and keeps the invariant, if
      and only if that is so. */
  lemma DeleteRefinesIff<K, V>(s: State<K, V>, h: K -> nat, zero: Item<K, V>, key: K, ok: bool)
    requires Sound(s, h)
    ensures var (s', r) := Delete(s, h(key), zero, key, ok);
            var m := Contents(s.table);
            Sound(s', h) && r == Lookup(m, key) && Contents(s'.table) == Without(m, key) <==>
            CanRemove(s, h, key, ok)
  {
    LocateIsComplete(s, h, key);
    assert key in Contents(s.table) <==> HasKey(s.table, key);
    var r := Locate(s, h(key), key);
    if r.Some? {
      RemovedShape(s, r.value);
      RemovedSound(s, h, r.value);
      var d := Removed(s, r.value);
      OneGone(s, r.value);
      ShiftBackFrees(s.table, r.value);
      assert Contents(d.table).Keys == Contents(s.table).Keys - {key};
      MaybeShrunkIff(d, zero, ok, h);
    } else {
      NothingToRemove(Contents(s.table), key);
    }
  }

  /** With up to 65536 items every key can be deleted, and without memory for a smaller table
      always. */
  lemma FewCanRemove<K, V>(s: State<K, V>, h: K -> nat, key: K, ok: bool)
    requires Sound(s, h) && (s.count <= MAX_DIB + 1 || !ok)
    ensures CanRemove(s, h, key, ok)
  {
    if ok && HasKey(s.table, key) {
      ContentsCount(s.table);
      assert Keys(s.table) == Contents(s.table).Keys && key in Keys(s.table);
      FewAreSpread(Keys(s.table) - {key}, h, |s.table| / 2);
    }
  }

  lemma ClearSound<K, V>(s: State<K, V>, zero: Item<K, V>, updateCap: bool, h: K -> nat)
    requires Shape(s)
    ensures Sound(Clear(s, zero, updateCap), h)
    ensures Contents(Clear(s, zero, updateCap).table) == map[]
  {
    ClearShape(s, zero, updateCap);
    ZeroedIsEmpty(if updateCap then |s.table| else s.cap, zero, h);
  }

  lemma SettingsSound<K, V>(s: State<K, V>, factor: Option<real>, power: nat, h: K -> nat)
    requires Sound(s, h)
    ensures Sound(SetLoadFactor(s, factor), h) && SetLoadFactor(s, factor).table == s.table
    ensures Sound(SetGrowPower(s, power), h) && SetGrowPower(s, power).table == s.table
  {
    SetLoadFactorShape(s, factor);
  }

  // ---------- runs ----------

  datatype Op<K, V> =
    | OpSet(item: Item<K, V>, ok: bool)
    | OpGet(key: K)
    | OpDelete(key: K, ok: bool)
    | OpClear(updateCap: bool)
    | OpLoadFactor(factor: Option<real>)
    | OpGrowPower(power: nat)

  ghost function Step<K, V>(s: State<K, V>, h: K -> nat, zero: Item<K, V>, op: Op<K, V>)
    : (State<K, V>, Option<Item<K, V>>)
    requires Shape(s)
  {
    match op
    case OpSet(item, ok) => Set(s, h(item.key), zero, item, ok)
    case OpGet(key) => (s, Get(s, h(key), key))
    case OpDelete(key, ok) => Delete(s, h(key), zero, key, ok)
    case OpClear(updateCap) => (Clear(s, zero, updateCap), None)
    case OpLoadFactor(factor) => (SetLoadFactor(s, factor), None)
    case OpGrowPower(power) => (SetGrowPower(s, power), None)
  }

  lemma StepShape<K, V>(s: State<K, V>, h: K -> nat, zero: Item<K, V>, op: Op<K, V>)
    requires Shape(s)
    ensures Shape(Step(s, h, zero, op).0)
  {
    match op {
      case OpSet(item, ok) => SetShape(s, h(item.key), zero, item, ok);
      case OpGet(_) =>
      case OpDelete(key, ok) => DeleteShape(s, h(key), zero, key, ok);
      case OpClear(updateCap) => ClearShape(s, zero, updateCap);
      case OpLoadFactor(factor) => SetLoadFactorShape(s, factor);
      case OpGrowPower(_) =>
    }
  }

  /** The operations on a plain map; `failed` says that a set was refused. */
  ghost function MapStep<K, V>(m: map<K, V>, op: Op<K, V>, failed: bool): (map<K, V>, Option<Item<K, V>>) {
    match op
    case OpSet(item, _) => if failed then (m, None) else (m[item.key := item.value], Lookup(m, item.key))
    case OpGet(key) => (m, Lookup(m, key))
    case OpDelete(key, _) => (Without(m, key), Lookup(m, key))
    case OpClear(_) => (map[], None)
    case OpLoadFactor(_) => (m, None)
    case OpGrowPower(_) => (m, None)
  }

  ghost predicate Refused<K, V>(s: State<K, V>, op: Op<K, V>) {
    op.OpSet? && s.count >= s.growat && !op.ok
  }

  /** The step from s to s' with result r is the map's step. */
  ghost predicate Agrees<K, V>(s: State<K, V>, h: K -> nat, op: Op<K, V>, s': State<K, V>, r: Option<Item<K, V>>)
    requires Sound(s, h)
  {
    && Sound(s', h)
    && Contents(s'.table) == MapStep(Contents(s.table), op, Refused(s, op)).0
    && r == MapStep(Contents(s.table), op, Refused(s, op)).1
  }

  lemma SetAgrees<K, V>(s: State<K, V>, h: K -> nat, zero: Item<K, V>, item: Item<K, V>, ok: bool)
    requires Sound(s, h)
    ensures var (s', r) := Set(s, h(item.key), zero, item, ok);
            Agrees(s, h, OpSet(item, ok), s', r) <==> CanStore(s, h, item.key, ok)
  {
    SetRefinesIff(s, h, zero, item, ok);
  }

  lemma GetAgrees<K, V>(s: State<K, V>, h: K -> nat, key: K)
    requires Sound(s, h)
    ensures Agrees(s, h, OpGet(key), s, Get(s, h(key), key))
  {
    GetRefines(s, h, key);
  }

  lemma DeleteAgrees<K, V>(s: State<K, V>, h: K -> nat, zero: Item<K, V>, key: K, ok: bool)
    requires Sound(s, h)
    ensures var (s', r) := Delete(s, h(key), zero, key, ok);
            Agrees(s, h, OpDelete(key, ok), s', r) <==> CanRemove(s, h, key, ok)
  {
    DeleteRefinesIff(s, h, zero, key, ok);
    MapStepDelete(Contents(s.table), key, ok);
  }

  lemma MapStepDelete<K, V>(m: map<K, V>, key: K, ok: bool)
    ensures MapStep(m, OpDelete(key, ok), false) == (Without(m, key), Lookup(m, key))
  {
  }

  lemma ClearAgrees<K, V>(s: State<K, V>, h: K -> nat, zero: Item<K, V>, updateCap: bool)
    requires Sound(s, h)
    ensures Agrees(s, h, OpClear(updateCap), Clear(s, zero, updateCap), None)
  {
    ClearSound(s, zero, updateCap, h);
  }

  lemma SettingsAgree<K, V>(s: State<K, V>, h: K -> nat, factor: Option<real>, power: nat)
    requires Sound(s, h)
    ensures Agrees(s, h, OpLoadFactor(factor), SetLoadFactor(s, factor), None)
    ensures Agrees(s, h, OpGrowPower(power), SetGrowPower(s, power), None)
  {
    SettingsSound(s, factor, power, h);
  }

  /** The one condition under which a step keeps the table a finite map: the keys are spread over
      the slots that there will be. */
  ghost predicate Unblocked<K, V>(s: State<K, V>, h: K -> nat, op: Op<K, V>) {
    match op
    case OpSet(item, ok) => CanStore(s, h, item.key, ok)
    case OpDelete(key, ok) => CanRemove(s, h, key, ok)
    case _ => true
  }

  /** Up to 65535 items it holds for every operation but a set of a further key. */
  lemma FewUnblocked<K, V>(s: State<K, V>, h: K -> nat, op: Op<K, V>)
    requires Sound(s, h) && s.count <= MAX_DIB
    requires op.OpSet? && !Refused(s, op) ==> s.count < MAX_DIB || HasKey(s.table, op.item.key)
    ensures Unblocked(s, h, op)
  {
    match op {
      case OpSet(item, ok) =>
        if s.count < MAX_DIB {
          FewCanStore(s, h, item.key, ok);
        } else if !Refused(s, op) {
          KnownCanStore(s, h, item.key, ok);
        }
      case OpDelete(key, ok) => FewCanRemove(s, h, key, ok);
      case _ =>
    }
  }

  /** Every operation is that of a finite map if and only if it is unblocked. */
  lemma StepRefinesIff<K, V>(s: State<K, V>, h: K -> nat, zero: Item<K, V>, op: Op<K, V>)
    requires Sound(s, h)
    ensures Agrees(s, h, op, Step(s, h, zero, op).0, Step(s, h, zero, op).1) <==> Unblocked(s, h, op)
  {
    match op {
      case OpSet(item, ok) => SetAgrees(s, h, zero, item, ok);
      case OpGet(key) => GetAgrees(s, h, key);
      case OpDelete(key, ok) => DeleteAgrees(s, h, zero, key, ok);
      case OpClear(updateCap) => ClearAgrees(s, h, zero, updateCap);
      case OpLoadFactor(factor) => SettingsAgree(s, h, factor, 1);
      case OpGrowPower(power) => SettingsAgree(s, h, None, power);
    }
  }

  /** The state after a run, and what the operations returned. */
  ghost function Run<K, V>(s: State<K, V>, h: K -> nat, zero: Item<K, V>, ops: seq<Op<K, V>>)
    : (State<K, V>, seq<Option<Item<K, V>>>)
    requires Shape(s)
    decreases |ops|
  {
    if ops == [] then (s, [])
    else
      var (s1, r) := Step(s, h, zero, ops[0]);
      StepShape(s, h, zero, ops[0]);
      var (s2, rs) := Run(s1, h, zero, ops[1..]);
      (s2, [r] + rs)
  }

  /** In every run whatever, even beyond 65535 items, each probe loop has an empty slot to
      stop at, and the table stays a power of two no smaller than the capacity. */
  lemma {:induction false} RunKeepsShape<K, V>(s: State<K, V>, h: K -> nat, zero: Item<K, V>, ops: seq<Op<K, V>>)
    requires Shape(s)
    ensures Shape(Run(s, h, zero, ops).0) && HasGap(Run(s, h, zero, ops).0.table)
    decreases |ops|
  {
    if ops == [] {
      GapFromCount(s.table);
    } else {
      StepShape(s, h, zero, ops[0]);
      RunKeepsShape(Step(s, h, zero, ops[0]).0, h, zero, ops[1..]);
    }
  }

  /** No step of the run meets the limit of the 16-bit field. */
  ghost predicate RunUnblocked<K, V>(s: State<K, V>, h: K -> nat, zero: Item<K, V>, ops: seq<Op<K, V>>)
    requires Shape(s)
    decreases |ops|
  {
    ops != [] ==>
      && Unblocked(s, h, ops[0])
      && (StepShape(s, h, zero, ops[0]);
          RunUnblocked(Step(s, h, zero, ops[0]).0, h, zero, ops[1..]))
  }

  /** Every step of the run is the step of a finite map. */
  ghost predicate RunAgrees<K, V>(s: State<K, V>, h: K -> nat, zero: Item<K, V>, ops: seq<Op<K, V>>)
    requires Sound(s, h)
    decreases |ops|
  {
    ops != [] ==>
      var (s1, r) := Step(s, h, zero, ops[0]);
      Agrees(s, h, ops[0], s1, r) && RunAgrees(s1, h, zero, ops[1..])
  }

  /** It is so in exactly the runs that do not meet the limit. */
  lemma {:induction false} RunAgreesIff<K, V>(s: State<K, V>, h: K -> nat, zero: Item<K, V>, ops: seq<Op<K, V>>)
    requires Sound(s, h)
    ensures RunAgrees(s, h, zero, ops) <==> RunUnblocked(s, h, zero, ops)
    decreases |ops|
  {
    if ops != [] {
      StepRefinesIff(s, h, zero, ops[0]);
      var (s1, r) := Step(s, h, zero, ops[0]);
      if Agrees(s, h, ops[0], s1, r) {
        RunAgreesIff(s1, h, zero, ops[1..]);
      }
    }
  }

  /** A plain map that starts as m, with each refusal that the allocator may cause or not, never
      holds more than 65535 keys. */
  ghost predicate StaysSmall<K, V>(m: map<K, V>, ops: seq<Op<K, V>>)
    decreases |ops|
  {
    && |m| <= MAX_DIB
    && (ops != [] ==>
          && StaysSmall(MapStep(m, ops[0], false).0, ops[1..])
          && (ops[0].OpSet? && !ops[0].ok ==> StaysSmall(m, ops[1..])))
  }

  /** Such a run never meets the limit, however long it is. */
  lemma {:induction false} SmallRunUnblocked<K, V>(s: State<K, V>, h: K -> nat, zero: Item<K, V>, ops: seq<Op<K, V>>)
    requires Sound(s, h) && StaysSmall(Contents(s.table), ops)
    ensures RunUnblocked(s, h, zero, ops)
    decreases |ops|
  {
    if ops != [] {
      SmallStepUnblocked(s, h, ops);
      StepRefinesIff(s, h, zero, ops[0]);
      SmallRunUnblocked(Step(s, h, zero, ops[0]).0, h, zero, ops[1..]);
    }
  }

  lemma SmallStepUnblocked<K, V>(s: State<K, V>, h: K -> nat, ops: seq<Op<K, V>>)
    requires Sound(s, h) && ops != [] && StaysSmall(Contents(s.table), ops)
    ensures Unblocked(s, h, ops[0])
  {
    ContentsCount(s.table);
    assert |MapStep(Contents(s.table), ops[0], false).0| <= MAX_DIB;
    FewUnblocked(s, h, ops[0]);
  }

  /** The keys that the operations set. */
  ghost function KeysSet<K, V>(ops: seq<Op<K, V>>): set<K>
    decreases |ops|
  {
    if ops == [] then {}
    else (if ops[0].OpSet? then {ops[0].item.key} else {}) + KeysSet(ops[1..])
  }

  /** It is enough that the map and the sets have no more than 65535 different keys. */
  lemma {:induction false} FewKeysStaySmall<K, V>(m: map<K, V>, ops: seq<Op<K, V>>)
    requires |m.Keys + KeysSet(ops)| <= MAX_DIB
    ensures StaysSmall(m, ops)
    decreases |ops|
  {
    SubsetSize(m.Keys, m.Keys + KeysSet(ops));
    if ops != [] {
      var next := MapStep(m, ops[0], false).0;
      SubsetSize(next.Keys + KeysSet(ops[1..]), m.Keys + KeysSet(ops));
      FewKeysStaySmall(next, ops[1..]);
      if ops[0].OpSet? && !ops[0].ok {
        SubsetSize(m.Keys + KeysSet(ops[1..]), m.Keys + KeysSet(ops));
        FewKeysStaySmall(m, ops[1..]);
      }
    }
  }

  /** So a run of at most 65535 operations from an empty table never meets the limit. */
  lemma ShortRunUnblocked<K, V>(s: State<K, V>, h: K -> nat, zero: Item<K, V>, ops: seq<Op<K, V>>)
    requires Sound(s, h) && s.count + |ops| <= MAX_DIB
    ensures RunUnblocked(s, h, zero, ops)
  {
    ContentsCount(s.table);
    FewKeysSet(ops);
    FewKeysStaySmall(Contents(s.table), ops);
    SmallRunUnblocked(s, h, zero, ops);
  }

  lemma {:induction false} FewKeysSet<K, V>(ops: seq<Op<K, V>>)
    ensures |KeysSet(ops)| <= |ops|
    decreases |ops|
  {
    if ops != [] {
      FewKeysSet(ops[1..]);
    }
  }

  /** While a table has no more than 65536 buckets, no set meets the limit: the table always has
      more buckets than items. */
  lemma SmallTableCanStore<K, V>(s: State<K, V>, h: K -> nat, zero: Item<K, V>, key: K, ok: bool)
    requires Sound(s, h) && SlotsFor(s) <= DIB_RANGE
    ensures CanStore(s, h, key, ok)
  {
    RoomyShape(s, zero);
    RoomySlots(s, zero);
    FewCanStore(s, h, key, ok);
  }

  /** A plain map, refusing sets only when the allocator refused, goes from m to m' and
      returns rs. */
  ghost predicate MapRun<K, V>(m: map<K, V>, ops: seq<Op<K, V>>, rs: seq<Option<Item<K, V>>>, m': map<K, V>)
    decreases |ops|
  {
    if ops == [] then rs == [] && m' == m
    else
      && |rs| > 0
      && exists failed: bool ::
           && (failed ==> ops[0].OpSet? && !ops[0].ok)
           && rs[0] == MapStep(m, ops[0], failed).1
           && MapRun(MapStep(m, ops[0], failed).0, ops[1..], rs[1..], m')
  }

  /** Every run of the table is a run of the map, for every hash function and every behaviour
      of the allocator, and count is the size of the map. */
  lemma {:induction false} RunRefines<K, V>(s: State<K, V>, h: K -> nat, zero: Item<K, V>, ops: seq<Op<K, V>>)
    requires Sound(s, h) && RunUnblocked(s, h, zero, ops)
    ensures var (s', rs) := Run(s, h, zero, ops);
            && Sound(s', h)
            && MapRun(Contents(s.table), ops, rs, Contents(s'.table))
            && s'.count == |Contents(s'.table)|
    decreases |ops|
  {
    if ops == [] {
      ContentsCount(s.table);
    } else {
      StepShape(s, h, zero, ops[0]);
      StepRefinesIff(s, h, zero, ops[0]);
      var (s1, r) := Step(s, h, zero, ops[0]);
      RunRefines(s1, h, zero, ops[1..]);
      var (s2, rs) := Run(s1, h, zero, ops[1..]);
      assert Run(s, h, zero, ops) == (s2, [r] + rs);
      var failed := Refused(s, ops[0]);
      assert ([r] + rs)[1..] == rs;
      assert MapRun(MapStep(Contents(s.table), ops[0], failed).0, ops[1..], ([r] + rs)[1..], Contents(s2.table));
    }
  }
}
