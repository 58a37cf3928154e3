/** Where the 16-bit field `dib` of lib/hash/hashmap.c wraps: exactly when an insertion loses
    its item. */
module DibLimit {
  import opened RobinHood
  import opened Options
  import opened Sets

  // ---------- what a wrapped dib does ----------

  /** The probe only changes slots from slot i on, up to the first empty one. */
  lemma {:induction false} InsertAhead<K, V>(t: Table<K, V>, i: nat, e: Bucket<K, V>, compare: bool, p: nat)
    requires i < |t| && p < |t| && HasGap(t)
    requires Dist(p, FirstGap(t), |t|) > Dist(i, FirstGap(t), |t|)
    ensures var r := Insert(t, i, e, compare).table; |r| == |t| && r[p] == t[p]
    decreases Dist(i, FirstGap(t), |t|)
  {
    var b := t[i];
    if b.dib > 0 && !(compare && e.hash == b.hash && e.item.key == b.item.key) {
      NextIsNearer(t, i);
      if b.dib < e.dib {
        SameGap(t, i, e);
        InsertAhead(t[i := e], Next(i, |t|), Bump(b), compare, p);
      } else {
        InsertAhead(t, Next(i, |t|), Bump(e), compare, p);
      }
    }
  }

  lemma SameGap<K, V>(t: Table<K, V>, i: nat, e: Bucket<K, V>)
    requires i < |t| && HasGap(t) && t[i].dib > 0 && e.dib > 0
    ensures HasGap(t[i := e]) && FirstGap(t[i := e]) == FirstGap(t)
  {
    var u := t[i := e];
    assert u[FirstGap(t)].dib == 0;
  }

  /** Occupied slots stay occupied. */
  lemma {:induction false} InsertKeepsOccupied<K, V>(t: Table<K, V>, i: nat, e: Bucket<K, V>, compare: bool, k: nat)
    requires i < |t| && k < |t| && HasGap(t) && t[k].dib > 0
    ensures var r := Insert(t, i, e, compare).table; |r| == |t| && r[k].dib > 0
    decreases Dist(i, FirstGap(t), |t|)
  {
    var b := t[i];
    if b.dib > 0 && !(compare && e.hash == b.hash && e.item.key == b.item.key) {
      NextIsNearer(t, i);
      if b.dib < e.dib {
        SameGap(t, i, e);
        InsertKeepsOccupied(t[i := e], Next(i, |t|), Bump(b), compare, k);
      } else {
        InsertKeepsOccupied(t, Next(i, |t|), Bump(e), compare, k);
      }
    }
  }

  /** Every slot from home on and before i is occupied. */
  ghost predicate Clear<K, V>(t: Table<K, V>, home: nat, i: nat)
    requires home < |t| && i < |t|
  {
    forall k: nat | k < |t| && Dist(home, k, |t|) < Dist(home, i, |t|) :: t[k].dib > 0
  }

  /** The bucket in slot p has a dib that has fallen behind its distance from home. */
  ghost predicate LateAt<K, V>(t: Table<K, V>, p: nat) {
    && p < |t|
    && 0 < t[p].dib <= Dist(Home(t[p].hash, |t|), p, |t|)
    && Clear(t, Home(t[p].hash, |t|), p)
  }

  /** The table does not hold n buckets in slots that fit them. */
  ghost predicate Damaged<K, V>(t: Table<K, V>, n: nat) {
    |Occupied(t)| < n || exists p: nat :: LateAt(t, p)
  }

  lemma DamagedIsNotIntact<K, V>(t: Table<K, V>, h: K -> nat, n: nat)
    requires Damaged(t, n)
    ensures !(Homed(t, h) && |Occupied(t)| == n)
  {
    if p: nat :| LateAt(t, p) {
    }
  }

  /** A carried bucket whose dib has fallen behind its distance from home. */
  ghost predicate Late<K, V>(t: Table<K, V>, i: nat, e: Bucket<K, V>, compare: bool)
    requires i < |t|
  {
    var home := Home(e.hash, |t|);
    && e.dib <= Dist(home, i, |t|) && Clear(t, home, i)
    && (compare ==> !HasKey(t, e.item.key))
  }

  lemma LateNext<K, V>(t: Table<K, V>, i: nat, e: Bucket<K, V>, compare: bool)
    requires i < |t| && HasGap(t) && Late(t, i, e, compare) && t[i].dib > 0
    ensures Late(t, Next(i, |t|), Bump(e), compare)
  {
    var home, next := Home(e.hash, |t|), Next(i, |t|);
    assert Dist(home, FirstGap(t), |t|) > Dist(home, i, |t|);
    forall k: nat | k < |t| && Dist(home, k, |t|) < Dist(home, next, |t|) ensures t[k].dib > 0 {
      assert k == i || Dist(home, k, |t|) < Dist(home, i, |t|);
    }
  }

  /** It is lost or ends up in a slot that does not fit it. */
  lemma {:induction false} LateLoses<K, V>(t: Table<K, V>, i: nat, e: Bucket<K, V>, compare: bool)
    requires i < |t| && HasGap(t) && Late(t, i, e, compare)
    ensures Damaged(Insert(t, i, e, compare).table, |Occupied(t)| + 1)
    decreases Dist(i, FirstGap(t), |t|)
  {
    var b := t[i];
    if b.dib == 0 {
      OccupiedUpdate(t, i, e);
      if e.dib > 0 {
        PutIsLate(t, i, e, t[i := e]);
      }
    } else if b.dib < e.dib {
      NextIsNearer(t, i);
      SameGap(t, i, e);
      var u := t[i := e];
      PutIsLate(t, i, e, u);
      LateIsPassed(u, Next(i, |t|), Bump(b), compare, i);
    } else {
      NextIsNearer(t, i);
      LateNext(t, i, e, compare);
      LateLoses(t, Next(i, |t|), Bump(e), compare);
    }
  }

  lemma PutIsLate<K, V>(t: Table<K, V>, i: nat, e: Bucket<K, V>, u: Table<K, V>)
    requires i < |t| && Late(t, i, e, false) && e.dib > 0 && u == t[i := e]
    ensures LateAt(u, i)
  {
  }

  /** What an insertion has passed stays late. */
  lemma LateIsPassed<K, V>(t: Table<K, V>, i: nat, e: Bucket<K, V>, compare: bool, p: nat)
    requires i < |t| && HasGap(t) && LateAt(t, p)
    requires Dist(p, FirstGap(t), |t|) > Dist(i, FirstGap(t), |t|)
    ensures LateAt(Insert(t, i, e, compare).table, p)
  {
    InsertAhead(t, i, e, compare, p);
    var r, home := Insert(t, i, e, compare).table, Home(t[p].hash, |t|);
    forall k: nat | k < |t| && Dist(home, k, |t|) < Dist(home, p, |t|) ensures r[k].dib > 0 {
      InsertKeepsOccupied(t, i, e, compare, k);
    }
  }

  /** An insertion that compares no keys does not repair a late bucket, even if it displaces it. */
  lemma {:induction false} LateStays<K, V>(t: Table<K, V>, i: nat, e: Bucket<K, V>, p: nat)
    requires i < |t| && HasGap(t) && LateAt(t, p)
    ensures Damaged(Insert(t, i, e, false).table, |Occupied(t)| + 1)
    decreases Dist(i, FirstGap(t), |t|)
  {
    var b := t[i];
    if b.dib == 0 {
      PutKeepsLate(t, i, e, t[i := e], p);
    } else if b.dib < e.dib {
      NextIsNearer(t, i);
      SameGap(t, i, e);
      var u := t[i := e];
      OccupiedUpdate(t, i, e);
      assert Occupied(t) + {i} == Occupied(t);
      if i == p {
        DisplacedIsLate(t, p, e, u);
        LateLoses(u, Next(i, |t|), Bump(b), false);
      } else {
        PutKeepsLate(t, i, e, u, p);
        LateStays(u, Next(i, |t|), Bump(b), p);
      }
    } else {
      NextIsNearer(t, i);
      LateStays(t, Next(i, |t|), Bump(e), p);
    }
  }

  lemma PutKeepsLate<K, V>(t: Table<K, V>, i: nat, e: Bucket<K, V>, u: Table<K, V>, p: nat)
    requires i < |t| && LateAt(t, p) && i != p && (t[i].dib > 0 ==> e.dib > 0) && u == t[i := e]
    ensures LateAt(u, p)
  {
  }

  lemma DisplacedIsLate<K, V>(t: Table<K, V>, p: nat, e: Bucket<K, V>, u: Table<K, V>)
    requires LateAt(t, p) && HasGap(t) && e.dib > 0 && u == t[p := e]
    ensures Late(u, Next(p, |t|), Bump(t[p]), false)
  {
    SameGap(t, p, e);
    assert Late(u, p, t[p], false);
    LateNext(u, p, t[p], false);
  }

  /** The bucket that would wrap has not passed an empty slot. */
  lemma WrappedIsLate<K, V>(t: Table<K, V>, h: K -> nat, i: nat, e: Bucket<K, V>, compare: bool)
    requires i < |t| && Intact(t, h) && HasGap(t) && Carried(t, h, i, e) && e.dib == MAX_DIB <= t[i].dib
    requires !HasKey(t, e.item.key)
    ensures Late(t, Next(i, |t|), Bump(e), compare)
  {
    var home, next, start := Home(e.hash, |t|), Next(i, |t|), Home(t[i].hash, |t|);
    forall k: nat | k < |t| && Dist(home, k, |t|) <= Dist(home, i, |t|) ensures t[k].dib > 0 {
      assert Dist(start, k, |t|) <= Dist(start, i, |t|);
      RunFromHome(t, h, i, k);
    }
    assert Dist(home, FirstGap(t), |t|) > Dist(home, i, |t|);
    assert forall k: nat | k < |t| && Dist(home, k, |t|) < Dist(home, next, |t|) ::
      Dist(home, k, |t|) <= Dist(home, i, |t|);
  }

  // ---------- exactly when a fresh key is stored ----------

  /** A bucket with a fresh key on a probe that is blocked. */
  ghost predicate Doomed<K, V>(t: Table<K, V>, h: K -> nat, i: nat, e: Bucket<K, V>) {
    && i < |t| && Intact(t, h) && HasGap(t) && Carried(t, h, i, e)
    && !HasKey(t, e.item.key) && Blocked(t, i, e.dib)
  }

  lemma OccupiedWhenBlocked<K, V>(t: Table<K, V>, i: nat, c: nat)
    requires i < |t| && HasGap(t) && Blocked(t, i, c)
    ensures t[i].dib > 0
  {
  }

  lemma SwapDoomed<K, V>(t: Table<K, V>, h: K -> nat, i: nat, e: Bucket<K, V>, u: Table<K, V>)
    requires Doomed(t, h, i, e) && 0 < t[i].dib < e.dib && u == t[i := e]
    ensures Occupied(u) == Occupied(t) && HasGap(u) && FirstGap(u) == FirstGap(t)
    ensures Doomed(u, h, Next(i, |t|), Bump(t[i]))
  {
    SwapFits(t, h, i, e, u);
    SwapKeepsBlocked(t, i, u, Next(i, |t|), e.dib, t[i].dib + 1);
  }

  lemma SwapFits<K, V>(t: Table<K, V>, h: K -> nat, i: nat, e: Bucket<K, V>, u: Table<K, V>)
    requires i < |t| && Intact(t, h) && HasGap(t) && Carried(t, h, i, e) && !HasKey(t, e.item.key)
    requires 0 < t[i].dib < e.dib && u == t[i := e]
    ensures Occupied(u) == Occupied(t) && HasGap(u) && FirstGap(u) == FirstGap(t) && Intact(u, h)
    ensures Bump(t[i]).dib == t[i].dib + 1 && Carried(u, h, Next(i, |t|), Bump(t[i])) && !HasKey(u, t[i].item.key)
  {
    PlaceIntact(t, h, i, e);
    Displace(t, i, e);
    CarryOn(u, h, i, t[i]);
  }

  lemma SkipDoomed<K, V>(t: Table<K, V>, h: K -> nat, i: nat, e: Bucket<K, V>)
    requires Doomed(t, h, i, e) && e.dib <= t[i].dib && e.dib < MAX_DIB
    ensures Doomed(t, h, Next(i, |t|), Bump(e))
  {
    BlockedNext(t, i, e.dib);
    CarryOn(t, h, i, e);
  }

  /** An insertion that is blocked damages the table. */
  lemma {:induction false} BlockedDamages<K, V>(t: Table<K, V>, h: K -> nat, i: nat, e: Bucket<K, V>, compare: bool)
    requires Doomed(t, h, i, e)
    ensures Damaged(Insert(t, i, e, compare).table, |Occupied(t)| + 1)
    decreases Dist(i, FirstGap(t), |t|)
  {
    var next := Next(i, |t|);
    OccupiedWhenBlocked(t, i, e.dib);
    NextIsNearer(t, i);
    if t[i].dib < e.dib {
      SwapDoomed(t, h, i, e, t[i := e]);
      BlockedDamages(t[i := e], h, next, Bump(t[i]), compare);
    } else if e.dib == MAX_DIB {
      WrappedIsLate(t, h, i, e, compare);
      LateLoses(t, next, Bump(e), compare);
    } else {
      SkipDoomed(t, h, i, e);
      BlockedDamages(t, h, next, Bump(e), compare);
    }
  }

  /** For every hash function: an item is stored, with everything else kept, if and only if
      its key is stored already or no bucket at dib 65535 has to be carried past a slot. */
  lemma StoredIff<K, V>(t: Table<K, V>, h: K -> nat, item: Item<K, V>)
    requires Intact(t, h) && HasGap(t)
    ensures var hash := Clip(h(item.key));
            var home := Home(hash, |t|);
            Stored(t, h, item, Insert(t, home, Bucket(hash, 1, item), true)) <==>
            HasKey(t, item.key) || !Blocked(t, home, 1)
  {
    var hash := Clip(h(item.key));
    var home, e := Home(hash, |t|), Bucket(hash, 1, item);
    CarriedAtHome(t, h, item);
    if HasKey(t, item.key) || !Blocked(t, home, 1) {
      InsertStores(t, h, home, e, true);
    } else {
      BlockedDamages(t, h, home, e, true);
      DamagedIsNotIntact(Insert(t, home, e, true).table, h, |Occupied(t)| + 1);
    }
  }

  // ---------- exactly when a rehash is right ----------

  /** Further insertions do not repair a damaged table. */
  lemma InsertKeepsDamage<K, V>(t: Table<K, V>, i: nat, e: Bucket<K, V>, n: nat)
    requires i < |t| && HasGap(t) && Damaged(t, n) && |Occupied(t)| <= n
    ensures var r := Insert(t, i, e, false).table;
            |r| == |t| && Damaged(r, n + 1) && |Occupied(r)| <= |Occupied(t)| + 1
  {
    InsertOccupies(t, i, e, false);
    if |Occupied(t)| == n {
      var p: nat :| LateAt(t, p);
      LateStays(t, i, e, p);
    }
  }

  lemma {:induction false} RehashKeepsDamage<K, V>(t: Table<K, V>, i: nat, u: Table<K, V>, n: nat)
    requires i <= |t| && Damaged(u, n) && |Occupied(u)| <= n && n + |OccupiedFrom(t, i)| < |u|
    ensures Damaged(Reinsert(t, i, u), n + |OccupiedFrom(t, i)|)
    decreases |t| - i
  {
    if i < |t| {
      OccupiedFromStep(t, i);
      if t[i].dib == 0 {
        RehashKeepsDamage(t, i + 1, u, n);
      } else {
        var home, e := Home(t[i].hash, |u|), t[i].(dib := 1);
        GapFromCount(u);
        InsertKeepsDamage(u, home, e, n);
        RehashKeepsDamage(t, i + 1, Insert(u, home, e, false).table, n + 1);
      }
    } else {
      assert OccupiedFrom(t, i) == {};
    }
  }

  /** One blocked insertion damages what the rehash leaves. */
  lemma {:induction false} BlockedRehashDamages<K, V>(t: Table<K, V>, h: K -> nat, i: nat, u: Table<K, V>)
    requires i <= |t| && Intact(t, h) && Intact(u, h) && Moved(t, i, u)
    requires |Occupied(u)| + |OccupiedFrom(t, i)| < |u| && !Rehashes(t, i, u)
    ensures Damaged(Reinsert(t, i, u), |Occupied(u)| + |OccupiedFrom(t, i)|)
    decreases |t| - i
  {
    OccupiedFromStep(t, i);
    if t[i].dib == 0 {
      BlockedRehashDamages(t, h, i + 1, u);
    } else {
      GapFromCount(u);
      var home := Home(t[i].hash, |u|);
      var v := Insert(u, home, t[i].(dib := 1), false).table;
      if Blocked(u, home, 1) {
        MoveIsDoomed(t, h, i, u);
        BlockedDamages(u, h, home, t[i].(dib := 1), false);
        InsertOccupies(u, home, t[i].(dib := 1), false);
        RehashKeepsDamage(t, i + 1, v, |Occupied(u)| + 1);
      } else {
        ReinsertOne(t, h, i, u, v);
        BlockedRehashDamages(t, h, i + 1, v);
      }
    }
  }

  lemma MoveIsDoomed<K, V>(t: Table<K, V>, h: K -> nat, i: nat, u: Table<K, V>)
    requires i < |t| && t[i].dib > 0 && Intact(t, h) && Intact(u, h) && Moved(t, i, u)
    requires HasGap(u) && Blocked(u, Home(t[i].hash, |u|), 1)
    ensures Doomed(u, h, Home(t[i].hash, |u|), t[i].(dib := 1))
  {
    CarriedAtHome(u, h, t[i].item);
    assert !HasKey(u, t[i].item.key);
  }

  /** A rehash keeps map, count and invariant if and only if none of its insertions is blocked. */
  lemma RehashIff<K, V>(t: Table<K, V>, h: K -> nat, i: nat, u: Table<K, V>)
    requires i <= |t| && Intact(t, h) && Intact(u, h) && Moved(t, i, u)
    requires |Occupied(u)| + |OccupiedFrom(t, i)| < |u|
    ensures var r := Reinsert(t, i, u);
            Rehashes(t, i, u) <==>
            && Intact(r, h) && Contents(r) == Contents(t)
            && |Occupied(r)| == |Occupied(u)| + |OccupiedFrom(t, i)|
  {
    if Rehashes(t, i, u) {
      ReinsertKeepsContents(t, h, i, u);
    } else {
      BlockedRehashDamages(t, h, i, u);
      DamagedIsNotIntact(Reinsert(t, i, u), h, |Occupied(u)| + |OccupiedFrom(t, i)|);
    }
  }

  // ---------- total collision ----------

  /** Every key has the same home slot. */
  ghost predicate Colliding<K(!new)>(h: K -> nat, n: nat, home: nat)
    requires n > 0
  {
    forall key :: Home(Clip(h(key)), n) == home
  }

  /** With total collision the occupied slots are the first ones from the common home slot. */
  lemma CollidingRun<K(!new), V>(t: Table<K, V>, h: K -> nat, home: nat, k: nat)
    requires Intact(t, h) && HasGap(t) && home < |t| && k < |t|
    requires Colliding(h, |t|, home)
    ensures t[k].dib == if Dist(home, k, |t|) < |Occupied(t)| then Dist(home, k, |t|) + 1 else 0
  {
    var d := Dist(home, k, |t|);
    DibAtMostCount(t, h, k);
    if t[k].dib == 0 {
      if d > 0 {
        var before := Pred(k, |t|);
        BackSlots(before, d, |t|);
        forall j | j in Occupied(t) ensures j in Back(before, d, |t|) {
          if Dist(home, j, |t|) > d {
            RunFromHome(t, h, j, k);
          }
          InBack(j, before, d, |t|);
        }
        SubsetSize(Occupied(t), Back(before, d, |t|));
      } else {
        forall j | j in Occupied(t) ensures false {
          RunFromHome(t, h, j, k);
        }
      }
    }
  }

  lemma {:induction false} InBack(j: nat, i: nat, d: nat, n: nat)
    requires i < n && j < n && Dist(j, i, n) < d <= n
    ensures j in Back(i, d, n)
    decreases d
  {
    if j != i {
      InBack(j, Pred(i, n), d - 1, n);
    }
  }

  /** In particular, when every key has the same hash, storing a fresh key works if and only if
      fewer than 65535 items are stored. At the limit the carried dib wraps to 0 and the item is
      written as an empty slot. */
  lemma FreshKeyStoredIff<K(!new), V>(t: Table<K, V>, h: K -> nat, item: Item<K, V>)
    requires Intact(t, h) && HasGap(t) && !HasKey(t, item.key)
    requires forall key :: h(key) == h(item.key)
    ensures var hash := Clip(h(item.key));
            var r := Insert(t, Home(hash, |t|), Bucket(hash, 1, item), true).table;
            |Occupied(t)| < MAX_DIB <==> Unique(r) && Contents(r) == Contents(t)[item.key := item.value]
  {
    var hash := Clip(h(item.key));
    var home := Home(hash, |t|);
    var e := Bucket(hash, 1, item);
    if |Occupied(t)| < MAX_DIB {
      CarriedAtHome(t, h, item);
      FewAreNotBlocked(t, h, home, 1);
      InsertStores(t, h, home, e, true);
    } else {
      GapFromCount(t);
      CollidingCount(t, h, home);
      var g := FullProbe(t, h, home, home, e);
      ContentsUpdate(t, g, e.(dib := 0));
    }
  }

  lemma CollidingCount<K(!new), V>(t: Table<K, V>, h: K -> nat, home: nat)
    requires Intact(t, h) && HasGap(t) && home < |t|
    requires Colliding(h, |t|, home)
    ensures |Occupied(t)| <= MAX_DIB
  {
    if |Occupied(t)| > MAX_DIB {
      GapFromCount(t);
      var k := if home + MAX_DIB < |t| then home + MAX_DIB else home + MAX_DIB - |t|;
      CollidingRun(t, h, home, k);
    }
  }

  lemma BumpIs<K, V>(e: Bucket<K, V>)
    requires e.dib <= MAX_DIB
    ensures Bump(e) == e.(dib := if e.dib == MAX_DIB then 0 else e.dib + 1)
  {
  }

  /** With 65535 colliding items stored, the probe for a fresh key passes them all. */
  lemma {:induction false} FullProbe<K(!new), V>(t: Table<K, V>, h: K -> nat, home: nat, i: nat, e: Bucket<K, V>)
      returns (g: nat)
    requires Intact(t, h) && HasGap(t) && home < |t| && i < |t|
    requires Colliding(h, |t|, home)
    requires |Occupied(t)| == MAX_DIB && !HasKey(t, e.item.key)
    requires Dist(home, i, |t|) < MAX_DIB && e.dib == Dist(home, i, |t|) + 1
    ensures g < |t| && t[g].dib == 0 && Insert(t, i, e, true).table == t[g := e.(dib := 0)]
    decreases MAX_DIB - Dist(home, i, |t|)
  {
    var next := Next(i, |t|);
    FullStep(t, h, home, i, e);
    if e.dib == MAX_DIB {
      FullEnds(t, h, home, next, e.(dib := 0));
      g := next;
    } else {
      g := FullProbe(t, h, home, next, e.(dib := e.dib + 1));
    }
  }

  /** It passes each of them. */
  lemma FullStep<K(!new), V>(t: Table<K, V>, h: K -> nat, home: nat, i: nat, e: Bucket<K, V>)
    requires Intact(t, h) && HasGap(t) && home < |t| && i < |t| && Colliding(h, |t|, home)
    requires !HasKey(t, e.item.key) && Dist(home, i, |t|) < |Occupied(t)| == MAX_DIB
    requires e.dib == Dist(home, i, |t|) + 1
    ensures var e' := e.(dib := if e.dib == MAX_DIB then 0 else e.dib + 1);
            Insert(t, i, e, true) == Insert(t, Next(i, |t|), e', true)
    ensures Dist(home, Next(i, |t|), |t|) == Dist(home, i, |t|) + 1
  {
    CollidingRun(t, h, home, i);
    BumpIs(e);
    InsertPasses(t, i, e, true);
    GapFromCount(t);
  }

  /** Behind the last of them there is an empty slot. */
  lemma FullEnds<K(!new), V>(t: Table<K, V>, h: K -> nat, home: nat, i: nat, e: Bucket<K, V>)
    requires Intact(t, h) && HasGap(t) && home < |t| && i < |t| && Colliding(h, |t|, home)
    requires |Occupied(t)| == MAX_DIB == Dist(home, i, |t|)
    ensures t[i].dib == 0 && Insert(t, i, e, true).table == t[i := e]
  {
    CollidingRun(t, h, home, i);
  }
}
