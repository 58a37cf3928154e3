/** Which keys a table of lib/hash/hashmap.c of a given size can hold: a condition on their
    hashes alone, whatever was inserted and deleted in which order. */
module KeySpread {
  import opened Bits
  import opened DibLimit
  import opened RobinHood
  import opened Sets

  // ---------- remainders of cyclic positions ----------

  /** The home slot in a table n times q is over the home slot in the table of n. */
  lemma HomeOver(hash: nat, n: nat, q: nat)
    requires n > 0 && q > 0 && n * q > 0
    ensures Home(Home(hash, n * q), n) == Home(hash, n)
  {
    var m := n * q;
    var high := Home(hash, m);
    DivMod(hash, m);
    DivMod(high, n);
    assert hash == (hash / m) * m + high;
    assert (hash / m) * m == ((hash / m) * q) * n by { Reorder(hash / m, q, n); }
    var c := (hash / m) * q + high / n;
    assert c * n == ((hash / m) * q) * n + (high / n) * n;
    RemainderUnique(hash, n, c, high % n);
  }

  lemma Reorder(a: nat, q: nat, n: nat)
    ensures a * (n * q) == (a * q) * n
  {
  }

  lemma {:induction false} AddMultiple(x: nat, n: nat, q: nat)
    requires n > 0
    ensures (x + n * q) % n == x % n
  {
    DivMod(x, n);
    assert x + n * q == (x / n + q) * n + x % n;
    RemainderUnique(x + n * q, n, x / n + q, x % n);
  }

  /** Taking remainders does not lengthen a cyclic distance. */
  lemma RemaindersAreNear(a: nat, b: nat, n: nat, q: nat)
    requires n > 0 && q > 0 && a < n * q && b < n * q
    ensures Dist(a % n, b % n, n) <= Dist(a, b, n * q)
  {
    var d := Dist(a, b, n * q);
    if d < n {
      AddMultiple(b, n, q);
      assert (a + d) % n == b % n;
      var r := a % n;
      DivMod(a, n);
      if r + d < n {
        RemainderUnique(a + d, n, a / n, r + d);
      } else {
        assert (a / n + 1) * n == (a / n) * n + n;
        RemainderUnique(a + d, n, a / n + 1, r + d - n);
      }
    }
  }

  // ---------- counting slots ----------

  /** The slots at distance less than d from a. */
  ghost function Window(a: nat, d: nat, n: nat): set<nat>
    requires a < n
  {
    set s: nat | s < n && Dist(a, s, n) < d
  }

  lemma WindowStep(a: nat, d: nat, n: nat)
    requires a < n
    ensures d < n ==> Window(a, d + 1, n) == Window(a, d, n) + {if a + d < n then a + d else a + d - n}
    ensures d >= n ==> Window(a, d + 1, n) == Window(a, d, n)
  {
  }

  lemma {:induction false} WindowSize(a: nat, d: nat, n: nat)
    requires a < n
    ensures |Window(a, d, n)| <= d
    ensures d <= n ==> |Window(a, d, n)| == d
  {
    if d == 0 {
      assert Window(a, d, n) == {};
    } else {
      WindowSize(a, d - 1, n);
      WindowStep(a, d - 1, n);
    }
  }

  // ---------- runs of a smooth table ----------

  lemma {:induction false} SmoothRun<K, V>(t: Table<K, V>, x: nat, y: nat)
    requires Smooth(t) && x < |t| && y < |t|
    ensures t[y].dib <= t[x].dib + Dist(x, y, |t|)
    decreases Dist(x, y, |t|)
  {
    if x != y {
      assert t[y].dib <= t[Pred(y, |t|)].dib + 1;
      SmoothRun(t, x, Pred(y, |t|));
    }
  }

  /** a is an item at its home slot, and every slot from there to x is occupied. */
  ghost predicate StartsRun<K, V>(t: Table<K, V>, a: nat, x: nat) {
    a < |t| && x < |t| && t[a].dib == 1 && Reaches(t, a, x)
  }

  /** Every occupied slot is in a run that starts with an item at home. */
  lemma {:induction false} RunStart<K, V>(t: Table<K, V>, x: nat) returns (a: nat)
    requires Smooth(t) && HasGap(t) && x < |t| && t[x].dib > 0
    ensures StartsRun(t, a, x)
    decreases Dist(FirstGap(t), x, |t|)
  {
    if t[x].dib == 1 {
      a := x;
    } else {
      var p := Pred(x, |t|);
      assert t[x].dib <= t[p].dib + 1;
      a := RunStart(t, p);
      forall k: nat | k < |t| && Dist(a, k, |t|) <= Dist(a, x, |t|) ensures t[k].dib > 0 {
        assert k != x ==> Dist(a, k, |t|) <= Dist(a, p, |t|);
      }
    }
  }

  lemma ReachesTwice<K, V>(t: Table<K, V>, a: nat, x: nat, y: nat)
    requires a < |t| && x < |t| && y < |t| && HasGap(t) && Reaches(t, a, x) && Reaches(t, x, y)
    ensures Reaches(t, a, y) && Dist(a, y, |t|) == Dist(a, x, |t|) + Dist(x, y, |t|)
  {
    var g := FirstGap(t);
    assert Dist(a, g, |t|) > Dist(a, x, |t|) && Dist(x, g, |t|) > Dist(x, y, |t|);
    forall k: nat | k < |t| && Dist(a, k, |t|) <= Dist(a, y, |t|) ensures t[k].dib > 0 {
      if Dist(a, k, |t|) > Dist(a, x, |t|) {
        assert Dist(x, k, |t|) <= Dist(x, y, |t|);
      }
    }
  }

  // ---------- the keys whose homes are near one another ----------

  /** The keys whose home, in a table of n slots, is less than w steps from slot a. */
  ghost function KeysNear<K>(keys: set<K>, h: K -> nat, n: nat, a: nat, w: nat): set<K>
    requires a < n
  {
    set k | k in keys && Dist(a, Home(Clip(h(k)), n), n) < w
  }

  /** Any w neighbouring slots of a table of n are home to fewer than w + 65535 keys. */
  ghost predicate Spread<K>(keys: set<K>, h: K -> nat, n: nat) {
    forall a: nat, w: nat | a < n :: |KeysNear(keys, h, n, a, w)| < w + MAX_DIB
  }

  /** Up to 65535 keys are spread, whatever their hashes. */
  lemma FewAreSpread<K>(keys: set<K>, h: K -> nat, n: nat)
    requires |keys| <= MAX_DIB
    ensures Spread(keys, h, n)
  {
    forall a: nat, w: nat | a < n ensures |KeysNear(keys, h, n, a, w)| < w + MAX_DIB {
      SubsetSize(KeysNear(keys, h, n, a, w), keys);
      assert w == 0 ==> KeysNear(keys, h, n, a, w) == {};
    }
  }

  lemma FewerAreSpread<K>(keys: set<K>, more: set<K>, h: K -> nat, n: nat)
    requires keys <= more && Spread(more, h, n)
    ensures Spread(keys, h, n)
  {
    forall a: nat, w: nat | a < n ensures |KeysNear(keys, h, n, a, w)| < w + MAX_DIB {
      SubsetSize(KeysNear(keys, h, n, a, w), KeysNear(more, h, n, a, w));
    }
  }

  /** What is spread over n slots is spread over a multiple of them. */
  lemma SpreadOver<K>(keys: set<K>, h: K -> nat, n: nat, q: nat)
    requires n > 0 && q > 0 && Spread(keys, h, n)
    ensures Spread(keys, h, n * q)
  {
    forall a: nat, w: nat | a < n * q ensures |KeysNear(keys, h, n * q, a, w)| < w + MAX_DIB {
      forall k | k in KeysNear(keys, h, n * q, a, w) ensures k in KeysNear(keys, h, n, a % n, w) {
        HomeOver(Clip(h(k)), n, q);
        RemaindersAreNear(a, Home(Clip(h(k)), n * q), n, q);
      }
      SubsetSize(KeysNear(keys, h, n * q, a, w), KeysNear(keys, h, n, a % n, w));
    }
  }

  // ---------- what is stored is spread ----------

  /** The keys in the slots of a set. */
  ghost function KeysAt<K, V>(t: Table<K, V>, slots: set<nat>): set<K>
    requires slots <= Occupied(t)
  {
    set i | i in slots :: t[i].item.key
  }

  /** An item whose home is less than w steps from slot a lies less than w + 65534 from it. */
  lemma NearHomeNearSlot<K, V>(t: Table<K, V>, h: K -> nat, a: nat, w: nat, s: nat)
    requires Homed(t, h) && a < |t| && s < |t| && t[s].dib > 0
    requires Dist(a, Home(Clip(h(t[s].item.key)), |t|), |t|) < w
    ensures s in Window(a, w + MAX_DIB - 1, |t|)
  {
  }

  /** The keys of a table that satisfies the invariant are spread over its slots. */
  lemma StoredIsSpread<K, V>(t: Table<K, V>, h: K -> nat)
    requires Intact(t, h)
    ensures Spread(Keys(t), h, |t|)
  {
    forall a: nat, w: nat | a < |t| ensures |KeysNear(Keys(t), h, |t|, a, w)| < w + MAX_DIB {
      var window := Window(a, w + MAX_DIB - 1, |t|);
      var slots := window * Occupied(t);
      forall k | k in KeysNear(Keys(t), h, |t|, a, w) ensures k in KeysAt(t, slots) {
        assert HasKey(t, k);
        var s: nat :| s < |t| && t[s].dib > 0 && t[s].item.key == k;
        NearHomeNearSlot(t, h, a, w, s);
        assert s in slots;
      }
      KeysCount(t, slots);
      WindowSize(a, w + MAX_DIB - 1, |t|);
      SubsetSize(slots, window);
      SubsetSize(KeysNear(Keys(t), h, |t|, a, w), KeysAt(t, slots));
    }
  }

  // ---------- what is not spread blocks a probe, and nothing else does ----------

  /** The homes of the items in the run from a to j, where j is at MAX_DIB, are near a. */
  lemma HomeIsNear<K, V>(t: Table<K, V>, h: K -> nat, a: nat, j: nat, x: nat)
    requires Intact(t, h) && StartsRun(t, a, j) && t[j].dib == MAX_DIB
    requires x < |t| && Dist(a, x, |t|) <= Dist(a, j, |t|)
    ensures t[x].dib > 0 && Dist(a, Home(t[x].hash, |t|), |t|) + MAX_DIB <= Dist(a, j, |t|) + 1
  {
    SmoothRun(t, a, x);
    SmoothRun(t, x, j);
  }

  /** The keys of that run: as many as it has slots, and all with their homes near a. */
  lemma RunIsNear<K, V>(t: Table<K, V>, h: K -> nat, a: nat, j: nat, w: nat) returns (keys: set<K>)
    requires Intact(t, h) && StartsRun(t, a, j) && t[j].dib == MAX_DIB
    requires w + MAX_DIB == Dist(a, j, |t|) + 2
    ensures |keys| + 1 == w + MAX_DIB && keys <= KeysNear(Keys(t), h, |t|, a, w)
  {
    var slots := Window(a, Dist(a, j, |t|) + 1, |t|);
    RunSlots(t, h, a, j, slots);
    keys := KeysAt(t, slots);
    KeysCount(t, slots);
    forall k | k in keys ensures k in KeysNear(Keys(t), h, |t|, a, w) {
      var x: nat :| x in slots && t[x].item.key == k;
      HomeIsNear(t, h, a, j, x);
    }
  }

  lemma RunSlots<K, V>(t: Table<K, V>, h: K -> nat, a: nat, j: nat, slots: set<nat>)
    requires Intact(t, h) && StartsRun(t, a, j) && t[j].dib == MAX_DIB
    requires slots == Window(a, Dist(a, j, |t|) + 1, |t|)
    ensures slots <= Occupied(t) && |slots| == Dist(a, j, |t|) + 1
  {
    WindowSize(a, Dist(a, j, |t|) + 1, |t|);
    forall x | x in slots ensures x in Occupied(t) {
      HomeIsNear(t, h, a, j, x);
    }
  }

  lemma OneMore<T>(some: set<T>, x: T, all: set<T>)
    requires some <= all && x in all && x !in some
    ensures |some| < |all|
  {
    SubsetSize(some + {x}, all);
  }

  /** A probe for a fresh key that is blocked runs along more keys than have room. */
  lemma BlockedIsCrowded<K, V>(t: Table<K, V>, h: K -> nat, key: K)
    requires Intact(t, h) && HasGap(t) && !HasKey(t, key)
    requires Blocked(t, Home(Clip(h(key)), |t|), 1)
    ensures !Spread(Keys(t) + {key}, h, |t|)
  {
    var home := Home(Clip(h(key)), |t|);
    BlockedIff(t, home, 1);
    var j: nat :| BlockedAt(t, home, 1, j);
    assert t[home].dib > 0 by { assert Dist(home, home, |t|) <= Dist(home, j, |t|); }
    var a := RunStart(t, home);
    ReachesTwice(t, a, home, j);
    HomeIsNear(t, h, a, j, j);
    var w: nat := Dist(a, j, |t|) + 2 - MAX_DIB;
    var keys := RunIsNear(t, h, a, j, w);
    var near := KeysNear(Keys(t) + {key}, h, |t|, a, w);
    assert keys <= near && key in near && key !in keys;
    OneMore(keys, key, near);
  }

  /** A fresh key's probe is blocked if and only if the keys, with it, are not spread. */
  lemma FreshBlockedIff<K, V>(t: Table<K, V>, h: K -> nat, item: Item<K, V>)
    requires Intact(t, h) && HasGap(t) && !HasKey(t, item.key)
    ensures Blocked(t, Home(Clip(h(item.key)), |t|), 1) <==> !Spread(Keys(t) + {item.key}, h, |t|)
  {
    var hash := Clip(h(item.key));
    var home, e := Home(hash, |t|), Bucket(hash, 1, item);
    if Blocked(t, home, 1) {
      BlockedIsCrowded(t, h, item.key);
    } else {
      CarriedAtHome(t, h, item);
      InsertStores(t, h, home, e, true);
      StoredSpreads(t, h, item, Insert(t, home, e, true));
    }
  }

  lemma StoredSpreads<K, V>(t: Table<K, V>, h: K -> nat, item: Item<K, V>, r: Placed<K, V>)
    requires Unique(t) && Stored(t, h, item, r)
    ensures Spread(Keys(t) + {item.key}, h, |t|)
  {
    assert Contents(r.table).Keys == Contents(t).Keys + {item.key};
    StoredIsSpread(r.table, h);
  }

  /** For every hash function: an item is stored, with everything else kept, if and only if
      the keys, with its own, are spread over the slots. */
  lemma StoredIffSpread<K, V>(t: Table<K, V>, h: K -> nat, item: Item<K, V>)
    requires Intact(t, h) && HasGap(t)
    ensures var hash := Clip(h(item.key));
            Stored(t, h, item, Insert(t, Home(hash, |t|), Bucket(hash, 1, item), true)) <==>
            Spread(Keys(t) + {item.key}, h, |t|)
  {
    StoredIff(t, h, item);
    if HasKey(t, item.key) {
      assert Keys(t) + {item.key} == Keys(t);
      StoredIsSpread(t, h);
    } else {
      FreshBlockedIff(t, h, item);
    }
  }

  // ---------- rehashing ----------

  /** No insertion of a rehash is blocked if and only if the keys are spread over the slots of
      the new table. */
  lemma {:induction false} RehashesIff<K, V>(t: Table<K, V>, h: K -> nat, i: nat, u: Table<K, V>)
    requires i <= |t| && Intact(t, h) && Intact(u, h) && Moved(t, i, u)
    requires |Occupied(u)| + |OccupiedFrom(t, i)| < |u|
    ensures Rehashes(t, i, u) <==> Spread(Keys(t), h, |u|)
    decreases |t| - i
  {
    if Rehashes(t, i, u) {
      ReinsertKeepsContents(t, h, i, u);
      var r := Reinsert(t, i, u);
      assert Contents(r).Keys == Contents(t).Keys;
      StoredIsSpread(r, h);
    } else {
      OccupiedFromStep(t, i);
      if t[i].dib == 0 {
        RehashesIff(t, h, i + 1, u);
      } else {
        GapFromCount(u);
        MoveIff(t, h, i, u);
        if !Blocked(u, Home(t[i].hash, |u|), 1) {
          var v := Insert(u, Home(t[i].hash, |u|), t[i].(dib := 1), false).table;
          ReinsertOne(t, h, i, u, v);
          RehashesIff(t, h, i + 1, v);
        }
      }
    }
  }

  lemma MoveIff<K, V>(t: Table<K, V>, h: K -> nat, i: nat, u: Table<K, V>)
    requires i < |t| && t[i].dib > 0 && Intact(t, h) && Intact(u, h) && Moved(t, i, u) && HasGap(u)
    ensures Blocked(u, Home(t[i].hash, |u|), 1) ==> !Spread(Keys(t), h, |u|)
  {
    var key := t[i].item.key;
    if Blocked(u, Home(t[i].hash, |u|), 1) {
      assert !HasKey(u, key);
      BlockedIsCrowded(u, h, key);
      assert Contents(u).Keys <= Contents(t).Keys;
      if Spread(Keys(t), h, |u|) {
        FewerAreSpread(Keys(u) + {key}, Keys(t), h, |u|);
      }
    }
  }

  /** Growing never meets the limit, however many items there are. */
  lemma GrowingRehashes<K, V>(t: Table<K, V>, h: K -> nat, i: nat, u: Table<K, V>, q: nat)
    requires i <= |t| && Intact(t, h) && Intact(u, h) && Moved(t, i, u) && q > 0 && |u| == |t| * q
    requires |Occupied(u)| + |OccupiedFrom(t, i)| < |u|
    ensures Rehashes(t, i, u)
  {
    StoredIsSpread(t, h);
    SpreadOver(Keys(t), h, |t|, q);
    RehashesIff(t, h, i, u);
  }
}
