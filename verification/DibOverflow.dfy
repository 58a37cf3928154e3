/** A run that meets the limit of the 16-bit field: 65535 keys with the same hash, and one
    more. */
module DibOverflow {
  import opened Bits
  import opened DibLimit
  import opened HashMapModel
  import opened Options
  import opened RobinHood

  const SAME: nat -> nat := (key: nat) => 0
  const NOTHING: Item<nat, nat> := Item(0, 0)

  /** Sets of n keys, from `from` on. */
  function SetRun(from: nat, n: nat): seq<Op<nat, nat>>
    decreases n
  {
    if n == 0 then [] else [OpSet(Item(from, 0), true)] + SetRun(from + 1, n - 1)
  }

  /** The map holds the keys below n. */
  ghost predicate HoldsBelow(s: State<nat, nat>, n: nat) {
    Sound(s, SAME) && s.count == n && forall k: nat :: k in Contents(s.table) <==> k < n
  }

  lemma SetOne(s: State<nat, nat>, from: nat)
    requires HoldsBelow(s, from) && from < MAX_DIB
    ensures HoldsBelow(Step(s, SAME, NOTHING, OpSet(Item(from, 0), true)).0, from + 1)
  {
    var item := Item(from, 0);
    FewUnblocked(s, SAME, OpSet(item, true));
    SetRefinesIff(s, SAME, NOTHING, item, true);
    ContentsCount(s.table);
    ContentsCount(Set(s, SAME(from), NOTHING, item, true).0.table);
  }

  lemma {:induction false} SetsFill(s: State<nat, nat>, from: nat, n: nat)
    requires HoldsBelow(s, from) && from + n <= MAX_DIB
    ensures HoldsBelow(Run(s, SAME, NOTHING, SetRun(from, n)).0, from + n)
    decreases n
  {
    if n > 0 {
      SetOne(s, from);
      var ops := SetRun(from, n);
      assert ops[0] == OpSet(Item(from, 0), true) && ops[1..] == SetRun(from + 1, n - 1);
      SetsFill(Step(s, SAME, NOTHING, ops[0]).0, from + 1, n - 1);
    }
  }

  /** After the sets of 65535 keys the table is sound; the set of one more key, with all the
      memory it asks for, does not store it. */
  lemma LimitIsReached(n: nat)
    requires n == 65535
    ensures var s := Run(New(0, NOTHING), SAME, NOTHING, SetRun(0, n)).0;
            && Sound(s, SAME) && s.count == n && n !in Contents(s.table)
            && !StoresKey(s, n)
  {
    NewSound(0, NOTHING, SAME);
    FillAndFail(New(0, NOTHING), n);
  }

  ghost predicate StoresKey(s: State<nat, nat>, key: nat)
    requires Sound(s, SAME)
  {
    var t := Set(s, SAME(key), NOTHING, Item(key, 0), true).0.table;
    Unique(t) && Contents(t) == Contents(s.table)[key := 0]
  }

  lemma FillAndFail(s0: State<nat, nat>, n: nat)
    requires HoldsBelow(s0, 0) && n == MAX_DIB
    ensures var s := Run(s0, SAME, NOTHING, SetRun(0, n)).0; HoldsBelow(s, n) && !StoresKey(s, n)
  {
    SetsFill(s0, 0, n);
    OneMoreFails(Run(s0, SAME, NOTHING, SetRun(0, n)).0, n);
  }

  lemma OneMoreFails(s: State<nat, nat>, n: nat)
    requires HoldsBelow(s, n) && n == MAX_DIB
    ensures !StoresKey(s, n)
  {
    RoomyShape(s, NOTHING);
    RoomySound(s, NOTHING, SAME);
    var g := Roomy(s, NOTHING);
    GapFromCount(g.table);
    forall i: nat | i < |g.table| && g.table[i].dib > 0 ensures g.table[i].item.key != n {
      assert g.table[i].item.key in Contents(g.table);
    }
    FreshKeyStoredIff(g.table, SAME, Item(n, 0));
  }

  // ---------- a load factor that is forgotten ----------

  /** n keys in the 16 buckets of a new map whose load factor was set to 90%. */
  ghost predicate Loaded(s: State<nat, nat>, n: nat) {
    HoldsBelow(s, n) && |s.table| == 16 && s.loadfactor == 90 && s.growat == 14 && s.growpower == 1
  }

  lemma {:induction false} LoadedFills(s: State<nat, nat>, from: nat, n: nat)
    requires Loaded(s, from) && from + n <= 14
    ensures Loaded(Run(s, SAME, NOTHING, SetRun(from, n)).0, from + n)
    decreases n
  {
    if n > 0 {
      SetOne(s, from);
      var ops := SetRun(from, n);
      assert ops[0] == OpSet(Item(from, 0), true) && ops[1..] == SetRun(from + 1, n - 1);
      var s1 := Step(s, SAME, NOTHING, ops[0]).0;
      GapFromCount(s.table);
      InsertOccupies(s.table, Home(Clip(SAME(from)), 16), Bucket(Clip(SAME(from)), 1, Item(from, 0)), true);
      LoadedFills(s1, from + 1, n - 1);
    }
  }

  /** A new map whose load factor is set to 90%. */
  ghost function HighlyLoaded(): (s: State<nat, nat>)
    ensures Loaded(s, 0)
  {
    NewSound(0, NOTHING, SAME);
    SettingsSound(New(0, NOTHING), Some(0.9), 1, SAME);
    assert (0.9 * 100.0).Floor == 90;
    Step(New(0, NOTHING), SAME, NOTHING, OpLoadFactor(Some(0.9))).0
  }

  /** With a load factor of 90%, 14 keys are stored without growing. The next one makes the map grow
      to 32 buckets, with the threshold of 60% again: 19, where 90% would be 28. */
  lemma LoadFactorIsForgotten(n: nat)
    requires n == 14
    ensures var s := Run(HighlyLoaded(), SAME, NOTHING, SetRun(0, n)).0;
            && Loaded(s, n)
            && var t := Step(s, SAME, NOTHING, OpSet(Item(n, 0), true)).0;
               |t.table| == 32 && t.loadfactor == 90 && t.growat == 19 && GrowAt(32, 90) == 28
  {
    FillAndGrow(HighlyLoaded(), n);
  }

  lemma FillAndGrow(s0: State<nat, nat>, n: nat)
    requires Loaded(s0, 0) && n == 14
    ensures var s := Run(s0, SAME, NOTHING, SetRun(0, n)).0;
            && Loaded(s, n)
            && var t := Step(s, SAME, NOTHING, OpSet(Item(n, 0), true)).0;
               |t.table| == 32 && t.loadfactor == 90 && t.growat == 19
  {
    LoadedFills(s0, 0, n);
    GrowsTo32(Run(s0, SAME, NOTHING, SetRun(0, n)).0);
  }

  lemma GrowsTo32(s: State<nat, nat>)
    requires Loaded(s, 14)
    ensures var t := Step(s, SAME, NOTHING, OpSet(Item(14, 0), true)).0;
            |t.table| == 32 && t.loadfactor == 90 && t.growat == 19
  {
    var item := Item(14, 0);
    GrownCap(s);
    RoomyShape(s, NOTHING);
    var g := Roomy(s, NOTHING);
    assert Pow2(1) == 2;
    ResizedShape(s, 32, NOTHING);
    GapFromCount(g.table);
    InsertOccupies(g.table, Home(Clip(SAME(14)), 32), Bucket(Clip(SAME(14)), 1, item), true);
  }
}
