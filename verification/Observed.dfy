/** Whether a hash map is right is seen from outside: after an operation that met the limit of
    the 16-bit field, some deletions and lookups return what a finite map would not. */
module Observed {
  import opened DibLimit
  import opened HashMapModel
  import opened KeySpread
  import opened Options
  import opened RobinHood
  import opened Sets

  // ---------- looking at a hash map ----------

  /** A lookup, or a deletion that gets no memory for a smaller array. */
  predicate Looks<K, V>(op: Op<K, V>) {
    op.OpGet? || (op.OpDelete? && !op.ok)
  }

  predicate AllLook<K, V>(ops: seq<Op<K, V>>) {
    ops == [] || (Looks(ops[0]) && AllLook(ops[1..]))
  }

  /** What a plain map returns. */
  ghost function Answers<K, V>(m: map<K, V>, ops: seq<Op<K, V>>): seq<Option<Item<K, V>>>
    decreases |ops|
  {
    if ops == [] then []
    else [MapStep(m, ops[0], false).1] + Answers(MapStep(m, ops[0], false).0, ops[1..])
  }

  /** No run of lookups and deletions tells the state from the map. */
  ghost predicate Mimics<K(!new), V(!new)>(s: State<K, V>, h: K -> nat, zero: Item<K, V>, m: map<K, V>) {
    Shape(s) && forall ops | AllLook(ops) :: Run(s, h, zero, ops).1 == Answers(m, ops)
  }

  lemma MimicsStep<K(!new), V(!new)>(s: State<K, V>, h: K -> nat, zero: Item<K, V>, m: map<K, V>, op: Op<K, V>)
    requires Mimics(s, h, zero, m) && Looks(op)
    ensures Step(s, h, zero, op).1 == MapStep(m, op, false).1
    ensures Mimics(Step(s, h, zero, op).0, h, zero, MapStep(m, op, false).0)
  {
    StepShape(s, h, zero, op);
    var s1, m1 := Step(s, h, zero, op).0, MapStep(m, op, false).0;
    RunsOn(s, h, zero, m, op, []);
    forall ops | AllLook(ops) ensures Run(s1, h, zero, ops).1 == Answers(m1, ops) {
      RunsOn(s, h, zero, m, op, ops);
    }
  }

  lemma RunsOn<K(!new), V(!new)>(s: State<K, V>, h: K -> nat, zero: Item<K, V>, m: map<K, V>,
                               op: Op<K, V>, ops: seq<Op<K, V>>)
    requires Mimics(s, h, zero, m) && Looks(op) && AllLook(ops)
    ensures Shape(Step(s, h, zero, op).0)
    ensures Step(s, h, zero, op).1 == MapStep(m, op, false).1
    ensures Run(Step(s, h, zero, op).0, h, zero, ops).1 == Answers(MapStep(m, op, false).0, ops)
  {
    StepShape(s, h, zero, op);
    var all := [op] + ops;
    assert all[0] == op && all[1..] == ops && AllLook(all);
    var rs, qs := Run(s, h, zero, all).1, Answers(m, all);
    assert rs == qs;
    assert rs[0] == Step(s, h, zero, op).1 && qs[0] == MapStep(m, op, false).1;
    assert rs[1..] == Run(Step(s, h, zero, op).0, h, zero, ops).1;
    assert qs[1..] == Answers(MapStep(m, op, false).0, ops);
  }

  /** A state that satisfies the invariant cannot be told from its map. */
  lemma SoundMimics<K(!new), V(!new)>(s: State<K, V>, h: K -> nat, zero: Item<K, V>)
    requires Sound(s, h)
    ensures Mimics(s, h, zero, Contents(s.table))
  {
    forall ops | AllLook(ops) ensures Run(s, h, zero, ops).1 == Answers(Contents(s.table), ops) {
      SoundAnswers(s, h, zero, ops);
    }
  }

  lemma {:induction false} SoundAnswers<K, V>(s: State<K, V>, h: K -> nat, zero: Item<K, V>, ops: seq<Op<K, V>>)
    requires Sound(s, h) && AllLook(ops)
    ensures Run(s, h, zero, ops).1 == Answers(Contents(s.table), ops)
    decreases |ops|
  {
    if ops != [] {
      if ops[0].OpDelete? {
        FewCanRemove(s, h, ops[0].key, false);
      }
      StepRefinesIff(s, h, zero, ops[0]);
      SoundAnswers(Step(s, h, zero, ops[0]).0, h, zero, ops[1..]);
    }
  }

  // ---------- a state that mimics a map stores its keys ----------

  lemma KeyIsStored<K(!new), V(!new)>(s: State<K, V>, h: K -> nat, zero: Item<K, V>, m: map<K, V>, k: K)
    requires Mimics(s, h, zero, m) && k in m
    ensures Locate(s, h(k), k).Some? && HasKey(s.table, k)
  {
    MimicsStep(s, h, zero, m, OpGet(k));
  }

  ghost function SlotsWith<K, V>(t: Table<K, V>, key: K): set<nat> {
    set i | i in Occupied(t) && t[i].item.key == key
  }

  /** Every slot has a key of its own. */
  lemma {:induction false} EnoughKeys<K, V>(t: Table<K, V>, slots: set<nat>, keys: set<K>)
    requires slots <= Occupied(t) && |slots| <= |keys|
    requires forall k | k in keys :: SlotsWith(t, k) * slots != {}
    ensures |slots| == |keys|
    ensures forall i | i in slots :: t[i].item.key in keys && SlotsWith(t, t[i].item.key) * slots == {i}
    decreases |keys|
  {
    if keys == {} {
      assert slots == {};
    } else {
      var k :| k in keys;
      var mine := SlotsWith(t, k) * slots;
      var rest := slots - mine;
      assert |slots| == |rest| + |mine|;
      SubsetSize({}, mine);
      forall q | q in keys - {k} ensures SlotsWith(t, q) * rest != {} {
        var i :| i in SlotsWith(t, q) * slots;
        assert i in SlotsWith(t, q) * rest;
      }
      EnoughKeys(t, rest, keys - {k});
      assert |mine| == 1;
      forall i | i in slots
        ensures t[i].item.key in keys && SlotsWith(t, t[i].item.key) * slots == {i}
      {
        if i in mine {
          OnlyMember(mine, i);
        } else {
          assert SlotsWith(t, t[i].item.key) * slots == SlotsWith(t, t[i].item.key) * rest;
        }
      }
    }
  }

  lemma OnlyMember<T>(s: set<T>, x: T)
    requires |s| == 1 && x in s
    ensures s == {x}
  {
    SubsetSize({x}, s);
  }

  /** With no more occupied slots than the map has keys, each slot holds a key of the map, and no
      two hold the same. */
  lemma MimicStores<K(!new), V(!new)>(s: State<K, V>, h: K -> nat, zero: Item<K, V>, m: map<K, V>)
    requires Mimics(s, h, zero, m) && |Occupied(s.table)| <= |m|
    ensures |Occupied(s.table)| == |m| && Unique(s.table)
    ensures forall i: nat | i < |s.table| && s.table[i].dib > 0 :: s.table[i].item.key in m
  {
    var t := s.table;
    forall k | k in m.Keys ensures SlotsWith(t, k) * Occupied(t) != {} {
      KeyIsStored(s, h, zero, m, k);
      var i: nat :| i < |t| && t[i].dib > 0 && t[i].item.key == k;
      assert i in SlotsWith(t, k) * Occupied(t);
    }
    EnoughKeys(t, Occupied(t), m.Keys);
    forall i: nat, j: nat | i < |t| && j < |t| && t[i].dib > 0 && t[j].dib > 0
      && t[i].item.key == t[j].item.key
      ensures i == j
    {
      assert j in SlotsWith(t, t[i].item.key) * Occupied(t);
    }
  }

  // ---------- stored hashes are those of the keys, whatever the dibs ----------

  ghost predicate Hashed<K, V>(t: Table<K, V>, h: K -> nat) {
    forall i: nat | i < |t| && t[i].dib > 0 :: t[i].hash == Clip(h(t[i].item.key))
  }

  lemma {:induction false} InsertHashed<K, V>(t: Table<K, V>, h: K -> nat, i: nat, e: Bucket<K, V>, compare: bool)
    requires i < |t| && HasGap(t) && Hashed(t, h) && e.hash == Clip(h(e.item.key))
    ensures Hashed(Insert(t, i, e, compare).table, h)
    decreases Dist(i, FirstGap(t), |t|)
  {
    var b := t[i];
    if b.dib == 0 || (compare && e.hash == b.hash && e.item.key == b.item.key) {
    } else if b.dib < e.dib {
      assert t[i := e][FirstGap(t)].dib == 0;
      InsertHashed(t[i := e], h, Next(i, |t|), Bump(b), compare);
    } else {
      InsertHashed(t, h, Next(i, |t|), Bump(e), compare);
    }
  }

  lemma {:induction false} ReinsertHashed<K, V>(t: Table<K, V>, h: K -> nat, i: nat, u: Table<K, V>)
    requires i <= |t| && |Occupied(u)| + |OccupiedFrom(t, i)| < |u| && Hashed(t, h) && Hashed(u, h)
    ensures Hashed(Reinsert(t, i, u), h)
    decreases |t| - i
  {
    if i < |t| {
      OccupiedFromStep(t, i);
      if t[i].dib == 0 {
        ReinsertHashed(t, h, i + 1, u);
      } else {
        var home, e := Home(t[i].hash, |u|), t[i].(dib := 1);
        GapFromCount(u);
        InsertOccupies(u, home, e, false);
        InsertHashed(u, h, home, e, false);
        ReinsertHashed(t, h, i + 1, Insert(u, home, e, false).table);
      }
    }
  }

  lemma {:induction false} ShiftHashed<K, V>(t: Table<K, V>, h: K -> nat, p: nat)
    requires p < |t| && HasGap(Hide(t, p)) && Hashed(t[p := Emptied(t[p])], h)
    ensures Hashed(ShiftBack(t, p), h)
    decreases Dist(p, FirstGap(Hide(t, p)), |t|)
  {
    var q := Next(p, |t|);
    if t[q].dib > 1 {
      GapStaysAhead(t, p);
      var u, v := t[p := Emptied(t[p])], t[p := Nearer(t[q])];
      assert q != p && u[q] == t[q];
      forall i: nat | i < |t| && v[q := Emptied(v[q])][i].dib > 0 ensures v[i].hash == Clip(h(v[i].item.key)) {
        assert i != p ==> u[i] == v[i];
      }
      ShiftHashed(v, h, q);
    }
  }

  // ---------- a shift moves a late bucket back, or leaves a gap before it ----------

  /** The shift changes no slot from the first gap on. */
  lemma {:induction false} ShiftLeaves<K, V>(t: Table<K, V>, p: nat, k: nat)
    requires p < |t| && k < |t| && HasGap(Hide(t, p))
    requires Dist(p, FirstGap(Hide(t, p)), |t|) <= Dist(p, k, |t|)
    ensures |ShiftBack(t, p)| == |t| && ShiftBack(t, p)[k] == t[k]
    decreases Dist(p, FirstGap(Hide(t, p)), |t|)
  {
    var q := Next(p, |t|);
    assert k != p;
    if t[q].dib > 1 {
      GapStaysAhead(t, p);
      ShiftLeaves(t[p := Nearer(t[q])], q, k);
    }
  }

  ghost predicate GapBefore<K, V>(t: Table<K, V>, home: nat, p: nat)
    requires home < |t| && p < |t|
  {
    exists x: nat :: x < |t| && Dist(home, x, |t|) < Dist(home, p, |t|) && t[x].dib == 0
  }

  /** Slot `prev`, on the way from home to p, is being emptied; the others are occupied. */
  ghost predicate Opening<K, V>(t: Table<K, V>, home: nat, prev: nat, p: nat) {
    && home < |t| && prev < |t| && p < |t| && HasGap(Hide(t, prev))
    && Dist(home, prev, |t|) < Dist(home, p, |t|)
    && forall k: nat | k < |t| && k != prev && Dist(home, k, |t|) <= Dist(home, p, |t|) :: t[k].dib > 0
  }

  ghost predicate MovedBack<K, V>(t: Table<K, V>, home: nat, p: nat, r: Table<K, V>)
    requires home < |t| && p < |t|
  {
    && |r| == |t| && t[p].dib > 1 && r[Pred(p, |t|)] == Nearer(t[p])
    && forall k: nat | k < |t| && Dist(home, k, |t|) < Dist(home, p, |t|) :: r[k].dib > 0
  }

  lemma {:induction false} ShiftMovesOrParts<K, V>(t: Table<K, V>, home: nat, prev: nat, p: nat)
    requires Opening(t, home, prev, p)
    ensures var r := ShiftBack(t, prev);
            MovedBack(t, home, p, r) || (|r| == |t| && r[p] == t[p] && GapBefore(r, home, p))
    decreases Dist(prev, FirstGap(Hide(t, prev)), |t|)
  {
    var i := Next(prev, |t|);
    if t[i].dib <= 1 {
      assert t[prev := Emptied(t[prev])][prev].dib == 0;
    } else {
      GapStaysAhead(t, prev);
      var v := t[prev := Nearer(t[i])];
      if i != p {
        assert Opening(v, home, i, p);
        ShiftMovesOrParts(v, home, i, p);
      } else {
        var g := FirstGap(Hide(v, p));
        assert Dist(home, g, |t|) > Dist(home, p, |t|);
        ShiftLeaves(v, p, prev);
        forall k: nat | k < |t| && Dist(home, k, |t|) < Dist(home, p, |t|) ensures ShiftBack(v, p)[k] == v[k] {
          ShiftLeaves(v, p, k);
        }
      }
    }
  }

  // ---------- a damaged table is found out ----------

  /** The probe does not look beyond a gap. */
  lemma {:induction false} FindStops<K, V>(t: Table<K, V>, i: nat, hash: nat, key: K, x: nat)
    requires i < |t| && x < |t| && t[x].dib == 0 && HasGap(t)
    ensures var r := Find(t, i, hash, key);
            r.Some? ==> r.value < |t| && Dist(i, r.value, |t|) < Dist(i, x, |t|)
    decreases Dist(i, FirstGap(t), |t|)
  {
    if t[i].dib > 0 && !(t[i].hash == hash && t[i].item.key == key) {
      FindStops(t, Next(i, |t|), hash, key, x);
    }
  }

  /** An item behind a gap is not found. */
  lemma PartedIsFound<K(!new), V(!new)>(s: State<K, V>, h: K -> nat, zero: Item<K, V>, m: map<K, V>, p: nat)
    requires Shape(s) && Hashed(s.table, h) && |Occupied(s.table)| <= |m|
    requires p < |s.table| && s.table[p].dib > 0
    requires GapBefore(s.table, Home(s.table[p].hash, |s.table|), p)
    ensures !Mimics(s, h, zero, m)
  {
    if Mimics(s, h, zero, m) {
      var t, k := s.table, s.table[p].item.key;
      var home := Home(t[p].hash, |t|);
      MimicStores(s, h, zero, m);
      KeyIsStored(s, h, zero, m, k);
      var r := Locate(s, h(k), k).value;
      assert r == p;
      var x: nat :| x < |t| && Dist(home, x, |t|) < Dist(home, p, |t|) && t[x].dib == 0;
      GapFromCount(t);
      FindStops(t, home, Clip(h(k)), k, x);
    }
  }

  /** Deleting, again and again, the item in the home slot of a late bucket brings it out. */
  lemma {:induction false} LateIsFound<K(!new), V(!new)>(s: State<K, V>, h: K -> nat, zero: Item<K, V>, m: map<K, V>,
                                                         p: nat)
    requires Shape(s) && Hashed(s.table, h) && |Occupied(s.table)| <= |m| && LateAt(s.table, p)
    ensures !Mimics(s, h, zero, m)
    decreases Dist(Home(s.table[p].hash, |s.table|), p, |s.table|)
  {
    if Mimics(s, h, zero, m) {
      var t := s.table;
      var home := Home(t[p].hash, |t|);
      var k0 := t[home].item.key;
      HomeIsDeleted(s, h, zero, m, home);
      MimicsStep(s, h, zero, m, OpDelete(k0, false));
      var d, m1 := Removed(s, home), Without(m, k0);
      assert Mimics(d, h, zero, m1);
      LateIsOpened(s, home, p);
      ShiftMovesOrParts(t, home, home, p);
      if MovedBack(t, home, p, d.table) {
        var q := Pred(p, |t|);
        assert d.table[q].hash == t[p].hash && Dist(home, q, |t|) + 1 == Dist(home, p, |t|);
        assert LateAt(d.table, q);
        LateIsFound(d, h, zero, m1, q);
      } else {
        PartedIsFound(d, h, zero, m1, p);
      }
    }
  }

  lemma LateIsOpened<K, V>(s: State<K, V>, home: nat, p: nat)
    requires Shape(s) && LateAt(s.table, p) && home == Home(s.table[p].hash, |s.table|)
    ensures Opening(s.table, home, home, p)
  {
    assert s.table[home].dib > 0;
    OneGone(s, home);
  }

  lemma HomeIsDeleted<K(!new), V(!new)>(s: State<K, V>, h: K -> nat, zero: Item<K, V>, m: map<K, V>, i: nat)
    requires Mimics(s, h, zero, m) && Hashed(s.table, h) && |Occupied(s.table)| <= |m|
    requires i < |s.table| && s.table[i].dib > 0
    ensures var k, d := s.table[i].item.key, Removed(s, i);
            && Delete(s, h(k), zero, k, false).0 == d && k in m
            && Shape(d) && Hashed(d.table, h) && |Occupied(d.table)| <= |Without(m, k)|
  {
    var k := s.table[i].item.key;
    MimicStores(s, h, zero, m);
    KeyIsStored(s, h, zero, m, k);
    assert Locate(s, h(k), k).value == i;
    RemovedShape(s, i);
    OneGone(s, i);
    ShiftBackFrees(s.table, i);
    ShiftHashed(s.table, h, i);
    OneKeyLess(m, k);
  }

  /** A damaged table does not mimic a map of n keys. */
  lemma DamagedIsFound<K(!new), V(!new)>(s: State<K, V>, h: K -> nat, zero: Item<K, V>, m: map<K, V>)
    requires Shape(s) && Hashed(s.table, h) && |Occupied(s.table)| <= |m| && Damaged(s.table, |m|)
    ensures !Mimics(s, h, zero, m)
  {
    if Mimics(s, h, zero, m) {
      MimicStores(s, h, zero, m);
      var p: nat :| LateAt(s.table, p);
      LateIsFound(s, h, zero, m, p);
    }
  }

  // ---------- every operation ----------

  /** What can be seen of a step is what a finite map shows. */
  ghost predicate LooksRight<K(!new), V(!new)>(s: State<K, V>, h: K -> nat, zero: Item<K, V>, op: Op<K, V>)
    requires Sound(s, h)
  {
    var (s', r) := Step(s, h, zero, op);
    var (m, q) := MapStep(Contents(s.table), op, Refused(s, op));
    r == q && Mimics(s', h, zero, m)
  }

  lemma BlockedInsertionIsFound<K(!new), V(!new)>(g: State<K, V>, h: K -> nat, zero: Item<K, V>, item: Item<K, V>)
    requires Sound(g, h) && g.count + 1 < |g.table| && !HasKey(g.table, item.key)
    requires !Spread(Keys(g.table) + {item.key}, h, |g.table|)
    ensures !Mimics(Inserted(g, h(item.key), item).0, h, zero, Contents(g.table)[item.key := item.value])
  {
    var hash := Clip(h(item.key));
    var home, e := Home(hash, |g.table|), Bucket(hash, 1, item);
    GapFromCount(g.table);
    FreshIsDoomed(g.table, h, home, e);
    BlockedDamages(g.table, h, home, e, true);
    InsertHashed(g.table, h, home, e, true);
    InsertOccupies(g.table, home, e, true);
    ContentsCount(g.table);
    var s, m := Inserted(g, h(item.key), item).0, Contents(g.table)[item.key := item.value];
    assert |m| == |Occupied(g.table)| + 1;
    if Mimics(s, h, zero, m) {
      DamagedIsFound(s, h, zero, m);
    }
  }

  lemma FreshIsDoomed<K, V>(t: Table<K, V>, h: K -> nat, home: nat, e: Bucket<K, V>)
    requires Intact(t, h) && HasGap(t) && !HasKey(t, e.item.key) && !Spread(Keys(t) + {e.item.key}, h, |t|)
    requires e == Bucket(Clip(h(e.item.key)), 1, e.item) && home == Home(e.hash, |t|)
    ensures Doomed(t, h, home, e)
  {
    FreshBlockedIff(t, h, e.item);
    CarriedAtHome(t, h, e.item);
  }

  lemma BlockedSetIsFound<K(!new), V(!new)>(s: State<K, V>, h: K -> nat, zero: Item<K, V>, item: Item<K, V>, ok: bool)
    requires Sound(s, h) && !CanStore(s, h, item.key, ok)
    ensures !LooksRight(s, h, zero, OpSet(item, ok))
  {
    RoomyShape(s, zero);
    RoomySound(s, zero, h);
    RoomySlots(s, zero);
    if HasKey(s.table, item.key) {
      KnownCanStore(s, h, item.key, ok);
    }
    var g := Roomy(s, zero);
    assert Contents(g.table).Keys == Keys(s.table) && item.key !in Keys(s.table);
    assert !HasKey(g.table, item.key);
    BlockedInsertionIsFound(g, h, zero, item);
  }

  lemma BlockedDeleteShrinks<K, V>(s: State<K, V>, h: K -> nat, zero: Item<K, V>, key: K, ok: bool)
      returns (d: State<K, V>)
    requires Sound(s, h) && !CanRemove(s, h, key, ok)
    ensures Sound(d, h) && Contents(d.table) == Without(Contents(s.table), key)
    ensures WantsShrink(d) && !Spread(Keys(d.table), h, |d.table| / 2)
    ensures Delete(s, h(key), zero, key, ok).0 == Shrunk(d, zero)
  {
    LocateIsComplete(s, h, key);
    assert HasKey(s.table, key) && key in Contents(s.table);
    var i := Locate(s, h(key), key).value;
    RemovedShape(s, i);
    RemovedSound(s, h, i);
    d := Removed(s, i);
    assert Contents(d.table).Keys == Keys(s.table) - {key};
    OneGone(s, i);
    ShiftBackFrees(s.table, i);
  }

  lemma BlockedDeleteIsFound<K(!new), V(!new)>(s: State<K, V>, h: K -> nat, zero: Item<K, V>, key: K, ok: bool)
    requires Sound(s, h) && !CanRemove(s, h, key, ok)
    ensures !LooksRight(s, h, zero, OpDelete(key, ok))
  {
    var d := BlockedDeleteShrinks(s, h, zero, key, ok);
    ShrunkIsFound(d, h, zero);
    MapStepDelete(Contents(s.table), key, ok);
    NotRight(s, h, zero, OpDelete(key, ok), Shrunk(d, zero), Without(Contents(s.table), key));
  }

  lemma NotRight<K(!new), V(!new)>(s: State<K, V>, h: K -> nat, zero: Item<K, V>, op: Op<K, V>,
                                   s': State<K, V>, m: map<K, V>)
    requires Sound(s, h) && !op.OpSet? && !Mimics(s', h, zero, m)
    requires Step(s, h, zero, op).0 == s' && MapStep(Contents(s.table), op, false).0 == m
    ensures !LooksRight(s, h, zero, op)
  {
  }

  lemma ShrunkIsFound<K(!new), V(!new)>(d: State<K, V>, h: K -> nat, zero: Item<K, V>)
    requires Sound(d, h) && WantsShrink(d) && !Spread(Keys(d.table), h, |d.table| / 2)
    ensures !Mimics(Shrunk(d, zero), h, zero, Contents(d.table))
  {
    ShrunkCap(d);
    var n := |d.table| / 2;
    var u := Zeroed(n, zero);
    ZeroedIsEmpty(n, zero, h);
    assert OccupiedFrom(d.table, 0) == Occupied(d.table);
    assert Moved(d.table, 0, u);
    RehashesIff(d.table, h, 0, u);
    BlockedRehashDamages(d.table, h, 0, u);
    ReinsertHashed(d.table, h, 0, u);
    ReinsertOccupies(d.table, 0, u);
    ResizedShape(d, n, zero);
    ContentsCount(d.table);
    DamagedIsFound(Shrunk(d, zero), h, zero, Contents(d.table));
  }

  /** Every operation returns what a finite map returns, and leaves a state that no lookups and
      deletions tell from the map, if and only if it is unblocked. */
  lemma StepObservedIff<K(!new), V(!new)>(s: State<K, V>, h: K -> nat, zero: Item<K, V>, op: Op<K, V>)
    requires Sound(s, h)
    ensures LooksRight(s, h, zero, op) <==> Unblocked(s, h, op)
  {
    if Unblocked(s, h, op) {
      StepRefinesIff(s, h, zero, op);
      SoundMimics(Step(s, h, zero, op).0, h, zero);
    } else if op.OpSet? {
      BlockedSetIsFound(s, h, zero, op.item, op.ok);
    } else {
      BlockedDeleteIsFound(s, h, zero, op.key, op.ok);
    }
  }
}
