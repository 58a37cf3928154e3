/** How many buckets a hash map has and when it grows and shrinks, in numbers: after every operation
    and in every run (lib/hash/hashmap.c). */
module Sizes {
  import opened Bits
  import opened HashMapModel
  import opened KeySpread
  import opened Options
  import opened RobinHood

  // ---------- hashes ----------

  lemma {:induction false} Pow2Sum(j: nat, k: nat)
    ensures Pow2(j) * Pow2(k) == Pow2(j + k)
    decreases j
  {
    if j > 0 {
      Pow2Sum(j - 1, k);
      DoubleProduct(Pow2(j - 1), Pow2(k));
    }
  }

  lemma DoubleProduct(a: nat, b: nat)
    ensures (2 * a) * b == 2 * (a * b)
  {
  }

  lemma HashRangeIs(k: nat)
    requires k == 48
    ensures Pow2(k) == 0x1_0000_0000_0000
  {
    assert Pow2(12) == 0x1000;
    Pow2Sum(12, 12);
    Pow2Sum(24, 24);
  }

  /** The home of an item is the remainder of the hash that the callback gives by the number of
      slots, up to 2^48 of them; of the hash, 48 bits are kept. */
  lemma HomeIs(hash: nat, k: nat)
    requires k <= 48
    ensures Home(Clip(hash), Pow2(k)) == hash % Pow2(k) && Clip(hash) == hash % 0x1_0000_0000_0000
  {
    HashRangeIs(48);
    Pow2Sum(k, 48 - k);
    HomeOver(hash, Pow2(k), Pow2(48 - k));
  }

  // ---------- percentages ----------

  /** r is p percent of n, rounded down. */
  predicate IsPercent(r: nat, p: nat, n: nat) {
    100 * r <= p * n < 100 * r + 100
  }

  lemma GrowAtIs(n: nat, p: nat)
    ensures IsPercent(GrowAt(n, p), p, n)
  {
    var x := n * p;
    assert p * n == x;
    assert x == 100 * (x / 100) + x % 100;
  }

  lemma ShrinkAtIs(n: nat)
    ensures IsPercent(ShrinkAt(n), 10, n)
  {
  }

  /** The thresholds are 10 percent of the slots, and either 60 percent or what was set. */
  ghost predicate Thresholds<K, V>(s: State<K, V>) {
    && IsPercent(s.shrinkat, 10, |s.table|)
    && (IsPercent(s.growat, 60, |s.table|) || IsPercent(s.growat, s.loadfactor, |s.table|))
  }

  /** What no operation but those named for it changes. */
  ghost predicate SameSettings<K, V>(s: State<K, V>, u: State<K, V>) {
    u.cap == s.cap && u.loadfactor == s.loadfactor && u.growpower == s.growpower
  }

  ghost predicate SameSize<K, V>(s: State<K, V>, u: State<K, V>) {
    |u.table| == |s.table| && u.growat == s.growat && u.shrinkat == s.shrinkat && SameSettings(s, u)
  }

  /** n slots, and the thresholds that a new map of n slots has. */
  ghost predicate FreshSize<K, V>(u: State<K, V>, n: nat) {
    |u.table| == n && IsPercent(u.growat, 60, n) && IsPercent(u.shrinkat, 10, n)
  }

  // ---------- every operation ----------

  /** A new map has the smallest power of two, from 16 on, that is not below the wanted capacity. */
  lemma NewSize<K, V>(cap: nat, zero: Item<K, V>)
    ensures var s := New(cap, zero);
            && s.count == 0 && !s.oom && s.loadfactor == 60 && s.growpower == 1
            && FreshSize(s, s.cap)
            && IsPow2(s.cap) && s.cap >= 16 && s.cap >= cap && (s.cap == 16 || s.cap < 2 * cap)
  {
    NewShape(cap, zero);
    GrowAtIs(RoundCap(cap), 60);
  }

  lemma ResizedSize<K, V>(s: State<K, V>, n: nat, zero: Item<K, V>)
    requires Shape(s) && IsPow2(n) && RoundCap(n) == n && s.cap <= n && s.count < n
    ensures var u := Resized(s, n, zero);
            FreshSize(u, n) && SameSettings(s, u) && u.count == s.count
  {
    ResizedShape(s, n, zero);
    GrowAtIs(n, 60);
  }

  /** hashmap_set multiplies the slots by two to the growth power exactly when count has reached the
      threshold and there is memory; without memory it only notes so. It counts a fresh key. */
  lemma SetSize<K, V>(s: State<K, V>, code: nat, zero: Item<K, V>, item: Item<K, V>, ok: bool)
    requires Shape(s)
    ensures var (u, r) := Set(s, code, zero, item, ok);
            if s.count >= s.growat && !ok then u == s.(oom := true) && r == None
            else
              && !u.oom && u.count == s.count + (if r == None then 1 else 0)
              && (if s.count >= s.growat then FreshSize(u, |s.table| * Pow2(s.growpower)) && SameSettings(s, u)
                  else SameSize(s, u))
  {
    if s.count < s.growat || ok {
      var g := Roomy(s, zero);
      RoomyShape(s, zero);
      if s.count >= s.growat {
        GrownCap(s);
        ResizedSize(s, |s.table| * Pow2(s.growpower), zero);
      }
      InsertedSize(g, code, item);
    }
  }

  lemma InsertedSize<K, V>(g: State<K, V>, code: nat, item: Item<K, V>)
    requires Shape(g)
    ensures var (u, r) := Inserted(g, code, item);
            SameSize(g, u) && !u.oom && u.count == g.count + (if r == None then 1 else 0)
  {
    GapFromCount(g.table);
    InsertOccupies(g.table, Home(Clip(code), |g.table|), Bucket(Clip(code), 1, item), true);
  }

  /** hashmap_delete halves the slots exactly when it has deleted, there were more slots than the
      capacity, count has come down to the threshold, and there is memory. */
  lemma DeleteSize<K, V>(s: State<K, V>, code: nat, zero: Item<K, V>, key: K, ok: bool)
    requires Shape(s)
    ensures var (u, r) := Delete(s, code, zero, key, ok);
            && !u.oom && u.count == s.count - (if r == None then 0 else 1)
            && (if r.Some? && |s.table| > s.cap && u.count <= s.shrinkat && ok
                then FreshSize(u, |s.table| / 2) && SameSettings(s, u)
                else SameSize(s, u))
  {
    var r := Locate(s, code, key);
    if r.Some? {
      RemovedShape(s, r.value);
      RemovedSize(s, r.value);
      var d := Removed(s, r.value);
      if WantsShrink(d) && ok {
        ShrunkCap(d);
        ResizedSize(d, |d.table| / 2, zero);
      }
    }
  }

  lemma RemovedSize<K, V>(s: State<K, V>, i: nat)
    requires Shape(s) && i < |s.table| && s.table[i].dib > 0
    ensures var d := Removed(s, i);
            SameSize(s, d) && d.count == s.count - 1 && !d.oom
  {
    OneGone(s, i);
    ShiftBackFrees(s.table, i);
  }

  /** hashmap_clear goes back to the capacity, or makes the present size the capacity; the load factor
      that was set decides the threshold. */
  lemma ClearSize<K, V>(s: State<K, V>, zero: Item<K, V>, updateCap: bool)
    ensures var u := Clear(s, zero, updateCap);
            && u.count == 0 && |u.table| == u.cap == (if updateCap then |s.table| else s.cap)
            && IsPercent(u.growat, s.loadfactor, u.cap) && IsPercent(u.shrinkat, 10, u.cap)
            && u.loadfactor == s.loadfactor && u.growpower == s.growpower && u.oom == s.oom
  {
    GrowAtIs(if updateCap then |s.table| else s.cap, s.loadfactor);
  }

  /** hashmap_set_load_factor: between 50 and 95 percent, rounded down; NaN changes nothing. */
  lemma LoadFactorSize<K, V>(s: State<K, V>, factor: Option<real>)
    requires Shape(s)
    ensures var u := SetLoadFactor(s, factor);
            && u == s.(loadfactor := u.loadfactor, growat := u.growat)
            && IsPercent(u.growat, u.loadfactor, |s.table|)
            && (factor == None ==> u.loadfactor == s.loadfactor)
            && (forall f: real | factor == Some(f) ::
                  && (f < 0.5 ==> u.loadfactor == 50) && (f > 0.95 ==> u.loadfactor == 95)
                  && (0.5 <= f <= 0.95 ==> u.loadfactor as real <= f * 100.0 < u.loadfactor as real + 1.0))
  {
    GrowAtIs(|s.table|, SetLoadFactor(s, factor).loadfactor);
  }

  /** hashmap_set_grow_by_power: between 1 and 16. */
  lemma GrowPowerSize<K, V>(s: State<K, V>, power: nat)
    ensures var u := SetGrowPower(s, power);
            && u == s.(growpower := u.growpower)
            && (power == 0 ==> u.growpower == 1) && (power > 16 ==> u.growpower == 16)
            && (1 <= power <= 16 ==> u.growpower == power)
  {
  }

  // ---------- every run ----------

  lemma StepThresholds<K, V>(s: State<K, V>, h: K -> nat, zero: Item<K, V>, op: Op<K, V>)
    requires Shape(s) && Thresholds(s)
    ensures Thresholds(Step(s, h, zero, op).0)
  {
    match op {
      case OpSet(item, ok) => SetSize(s, h(item.key), zero, item, ok);
      case OpGet(_) =>
      case OpDelete(key, ok) => DeleteSize(s, h(key), zero, key, ok);
      case OpClear(updateCap) => ClearSize(s, zero, updateCap);
      case OpLoadFactor(factor) => LoadFactorSize(s, factor);
      case OpGrowPower(power) => GrowPowerSize(s, power);
    }
  }

  /** In every run from a new map, whatever it does, the map shrinks at 10 percent, and grows at 60
      percent or at the load factor that was set. */
  lemma {:induction false} RunThresholds<K, V>(s: State<K, V>, h: K -> nat, zero: Item<K, V>, ops: seq<Op<K, V>>)
    requires Shape(s) && Thresholds(s)
    ensures Thresholds(Run(s, h, zero, ops).0)
    decreases |ops|
  {
    if ops != [] {
      StepShape(s, h, zero, ops[0]);
      StepThresholds(s, h, zero, ops[0]);
      RunThresholds(Step(s, h, zero, ops[0]).0, h, zero, ops[1..]);
    }
  }
}
