/** The bucket table of lib/hash/hashmap.c as a value: the three probe loops (insert,
    find, backward shift) and the rehash are functions on a sequence of buckets, and the
    lemmas say what they do to the finite map that the table represents. */
module RobinHood {
  import opened Options
  import opened Sets

  // Largest value of the 16-bit field `dib`, and the ranges of the two bit fields.
  const MAX_DIB: nat := 0xFFFF
  const DIB_RANGE: nat := 0x1_0000
  const HASH_RANGE: nat := 0x1_0000_0000_0000

  datatype Item<K, V> = Item(key: K, value: V)

  // dib is 0 for an empty slot, whose other fields are stale.
  datatype Bucket<K, V> = Bucket(hash: nat, dib: nat, item: Item<K, V>)

  type Table<K, V> = seq<Bucket<K, V>>

  function Clip(hash: nat): nat {
    hash % HASH_RANGE
  }

  // ---------- cyclic positions ----------

  function Home(hash: nat, n: nat): (r: nat)
    requires n > 0
    ensures r < n
  {
    hash % n
  }

  function Next(i: nat, n: nat): nat
    requires i < n
  {
    if i + 1 == n then 0 else i + 1
  }

  function Pred(i: nat, n: nat): nat
    requires i < n
  {
    if i == 0 then n - 1 else i - 1
  }

  /** How many steps of Next lead from `from` to `to`. */
  function Dist(from: nat, to: nat, n: nat): nat
    requires from < n && to < n
  {
    if from <= to then to - from else to + n - from
  }

  // ---------- occupancy ----------

  ghost function Occupied<K, V>(t: Table<K, V>): set<nat> {
    set i: nat | i < |t| && t[i].dib > 0
  }

  ghost predicate HasGap<K, V>(t: Table<K, V>) {
    exists i: nat :: i < |t| && t[i].dib == 0
  }

  ghost predicate IsFirstGap<K, V>(t: Table<K, V>, r: nat) {
    r < |t| && t[r].dib == 0 && forall i: nat | i < r :: t[i].dib > 0
  }

  ghost function FirstGap<K, V>(t: Table<K, V>): (r: nat)
    requires HasGap(t)
    ensures IsFirstGap(t, r)
  {
    FirstGapExists(t, 0);
    var r: nat :| IsFirstGap(t, r);
    r
  }

  lemma {:induction false} FirstGapExists<K, V>(t: Table<K, V>, from: nat)
    requires from < |t| && HasGap(t) && forall i: nat | i < from :: t[i].dib > 0
    ensures exists r: nat :: IsFirstGap(t, r)
    decreases |t| - from
  {
    if t[from].dib == 0 {
      assert IsFirstGap(t, from);
    } else {
      FirstGapExists(t, from + 1);
    }
  }

  ghost function Below(n: nat): (s: set<nat>)
    ensures |s| == n
    ensures forall i: nat :: i in s <==> i < n
  {
    if n == 0 then {} else Below(n - 1) + {n - 1}
  }

  lemma GapFromCount<K, V>(t: Table<K, V>)
    ensures |Occupied(t)| <= |t|
    ensures HasGap(t) <==> |Occupied(t)| < |t|
  {
    SubsetSize(Occupied(t), Below(|t|));
    if |Occupied(t)| < |t| {
      assert Occupied(t) != Below(|t|);
      var i :| i in Below(|t|) && i !in Occupied(t);
      assert t[i].dib == 0;
    }
    if HasGap(t) {
      assert FirstGap(t) in Below(|t|) && FirstGap(t) !in Occupied(t);
    }
  }

  lemma OccupiedUpdate<K, V>(t: Table<K, V>, i: nat, b: Bucket<K, V>)
    requires i < |t|
    ensures b.dib > 0 ==> Occupied(t[i := b]) == Occupied(t) + {i}
    ensures b.dib == 0 ==> Occupied(t[i := b]) == Occupied(t) - {i}
  {
  }

  // ---------- the table as a finite map ----------

  ghost predicate Unique<K, V>(t: Table<K, V>) {
    forall i: nat, j: nat | i < |t| && j < |t| && t[i].dib > 0 && t[j].dib > 0
      && t[i].item.key == t[j].item.key :: i == j
  }

  ghost predicate HasKey<K, V>(t: Table<K, V>, key: K) {
    exists i: nat :: i < |t| && t[i].dib > 0 && t[i].item.key == key
  }

  ghost function Keys<K, V>(t: Table<K, V>): (s: set<K>)
    ensures forall k | k in s :: HasKey(t, k)
    ensures forall i: nat | i < |t| && t[i].dib > 0 :: t[i].item.key in s
  {
    set i: nat | i < |t| && t[i].dib > 0 :: t[i].item.key
  }

  ghost function ValueOf<K, V>(t: Table<K, V>, key: K): V
    requires HasKey(t, key)
  {
    var i: nat :| i < |t| && t[i].dib > 0 && t[i].item.key == key;
    t[i].item.value
  }

  ghost function Contents<K, V>(t: Table<K, V>): (m: map<K, V>)
    requires Unique(t)
    ensures m.Keys == Keys(t)
    ensures forall i: nat | i < |t| && t[i].dib > 0 ::
      t[i].item.key in m && m[t[i].item.key] == t[i].item.value
  {
    map k | k in Keys(t) :: ValueOf(t, k)
  }

  lemma {:induction false} KeysCount<K, V>(t: Table<K, V>, slots: set<nat>)
    requires Unique(t) && slots <= Occupied(t)
    ensures |set i | i in slots :: t[i].item.key| == |slots|
    decreases |slots|
  {
    if slots != {} {
      var j :| j in slots;
      var rest := slots - {j};
      KeysCount(t, rest);
      var keys := set i | i in rest :: t[i].item.key;
      assert (set i | i in slots :: t[i].item.key) == keys + {t[j].item.key};
    }
  }

  /** The map has as many keys as the table has occupied slots. */
  lemma ContentsCount<K, V>(t: Table<K, V>)
    requires Unique(t)
    ensures |Contents(t)| == |Occupied(t)|
  {
    KeysCount(t, Occupied(t));
    assert Keys(t) == set i | i in Occupied(t) :: t[i].item.key;
  }

  // ---------- the Robin Hood invariant ----------

  /** Every occupied slot stores the clipped hash of its key and, in dib, one more than its
      cyclic distance from the slot that the hash selects. */
  ghost predicate Homed<K, V>(t: Table<K, V>, h: K -> nat) {
    forall i: nat | i < |t| && t[i].dib > 0 ::
      && t[i].hash == Clip(h(t[i].item.key))
      && t[i].dib == Dist(Home(t[i].hash, |t|), i, |t|) + 1
      && t[i].dib <= MAX_DIB
  }

  /** A slot's dib exceeds its predecessor's by at most one, across the wrap-around. */
  ghost predicate Smooth<K, V>(t: Table<K, V>) {
    forall i: nat {:trigger Pred(i, |t|)} | i < |t| :: t[i].dib <= t[Pred(i, |t|)].dib + 1
  }

  ghost predicate Intact<K, V>(t: Table<K, V>, h: K -> nat) {
    Homed(t, h) && Smooth(t) && Unique(t)
  }

  /** Between the home slot of a stored item and the slot that holds it, every slot is
      occupied and at least as far from its own home. */
  lemma {:induction false} RunFromHome<K, V>(t: Table<K, V>, h: K -> nat, j: nat, k: nat)
    requires Intact(t, h)
    requires j < |t| && k < |t| && t[j].dib > 0
    requires Dist(Home(t[j].hash, |t|), k, |t|) <= Dist(Home(t[j].hash, |t|), j, |t|)
    ensures t[k].dib >= Dist(Home(t[j].hash, |t|), k, |t|) + 1
    decreases Dist(k, j, |t|)
  {
    if k != j {
      var m := Next(k, |t|);
      RunFromHome(t, h, j, m);
      assert Pred(m, |t|) == k;
    }
  }

  /** The d slots that end at slot i. */
  ghost function Back(i: nat, d: nat, n: nat): set<nat>
    requires i < n
    decreases d
  {
    if d == 0 then {} else Back(Pred(i, n), d - 1, n) + {i}
  }

  lemma {:induction false} BackSlots(i: nat, d: nat, n: nat)
    requires i < n && d <= n
    ensures |Back(i, d, n)| == d
    ensures forall k: nat :: k in Back(i, d, n) ==> k < n && Dist(k, i, n) < d
    decreases d
  {
    if d > 0 {
      var p := Pred(i, n);
      BackSlots(p, d - 1, n);
      assert Dist(i, p, n) == n - 1;
      assert i !in Back(p, d - 1, n);
    }
  }

  /** A stored dib never exceeds the number of stored items. */
  lemma DibAtMostCount<K, V>(t: Table<K, V>, h: K -> nat, i: nat)
    requires Intact(t, h) && i < |t|
    ensures t[i].dib <= |Occupied(t)|
  {
    if t[i].dib > 0 {
      var home := Home(t[i].hash, |t|);
      var run := Back(i, t[i].dib, |t|);
      BackSlots(i, t[i].dib, |t|);
      forall k | k in run ensures k in Occupied(t) {
        assert Dist(home, k, |t|) <= Dist(home, i, |t|);
        RunFromHome(t, h, i, k);
      }
      SubsetSize(run, Occupied(t));
    }
  }

  // ---------- one slot overwritten ----------

  ghost predicate KeyOnlyAt<K, V>(t: Table<K, V>, i: nat, key: K) {
    forall j: nat | j < |t| && t[j].dib > 0 && t[j].item.key == key :: j == i
  }

  lemma UniqueUpdate<K, V>(t: Table<K, V>, i: nat, b: Bucket<K, V>)
    requires Unique(t) && i < |t|
    requires b.dib > 0 ==> KeyOnlyAt(t, i, b.item.key)
    ensures Unique(t[i := b])
  {
  }

  /** What overwriting one slot does to the represented map. */
  lemma ContentsUpdate<K, V>(t: Table<K, V>, i: nat, b: Bucket<K, V>)
    requires Unique(t) && i < |t|
    requires b.dib > 0 ==> KeyOnlyAt(t, i, b.item.key)
    ensures Unique(t[i := b])
    ensures Contents(t[i := b]) == Overwritten(t, i, b)
  {
    UniqueUpdate(t, i, b);
    var u := t[i := b];
    forall k | k in Contents(u)
      ensures k in Overwritten(t, i, b) && Overwritten(t, i, b)[k] == Contents(u)[k]
    {
      assert HasKey(u, k);
      var j: nat :| j < |u| && u[j].dib > 0 && u[j].item.key == k;
      OverwrittenAt(t, i, b, j);
    }
    OverwrittenKeys(t, i, b);
  }

  lemma OverwrittenKeys<K, V>(t: Table<K, V>, i: nat, b: Bucket<K, V>)
    requires Unique(t) && i < |t|
    ensures Overwritten(t, i, b).Keys <= Keys(t[i := b])
  {
    var u := t[i := b];
    forall k | k in Overwritten(t, i, b) ensures k in Keys(u) {
      if b.dib > 0 && k == b.item.key {
        assert u[i].item.key in Keys(u);
      } else {
        assert HasKey(t, k);
        var j: nat :| j < |t| && t[j].dib > 0 && t[j].item.key == k;
        assert u[j].item.key in Keys(u);
      }
    }
  }

  ghost function Overwritten<K, V>(t: Table<K, V>, i: nat, b: Bucket<K, V>): map<K, V>
    requires Unique(t) && i < |t|
  {
    var rest := if t[i].dib > 0 then Contents(t) - {t[i].item.key} else Contents(t);
    if b.dib > 0 then rest[b.item.key := b.item.value] else rest
  }

  lemma OverwrittenAt<K, V>(t: Table<K, V>, i: nat, b: Bucket<K, V>, j: nat)
    requires Unique(t) && i < |t| && j < |t|
    requires b.dib > 0 ==> KeyOnlyAt(t, i, b.item.key)
    requires t[i := b][j].dib > 0
    ensures var x := t[i := b][j].item;
            x.key in Overwritten(t, i, b) && Overwritten(t, i, b)[x.key] == x.value
  {
    if j != i {
      assert t[j].item.key in Contents(t);
    }
  }

  function Emptied<K, V>(b: Bucket<K, V>): Bucket<K, V> {
    b.(dib := 0)
  }

  lemma ContentsTake<K, V>(t: Table<K, V>, i: nat)
    requires Unique(t) && i < |t| && t[i].dib > 0
    ensures var x := t[i].item;
            var u := t[i := Emptied(t[i])];
            && x.key in Contents(t) && Contents(t)[x.key] == x.value
            && Unique(u) && !HasKey(u, x.key) && Contents(u) == Contents(t) - {x.key}
  {
    ContentsUpdate(t, i, Emptied(t[i]));
  }

  lemma ContentsPut<K, V>(t: Table<K, V>, i: nat, b: Bucket<K, V>)
    requires Unique(t) && i < |t| && t[i].dib == 0 && b.dib > 0 && !HasKey(t, b.item.key)
    ensures Unique(t[i := b]) && Contents(t[i := b]) == Contents(t)[b.item.key := b.item.value]
  {
    ContentsUpdate(t, i, b);
  }

  lemma ContentsReplace<K, V>(t: Table<K, V>, i: nat, item: Item<K, V>)
    requires Unique(t) && i < |t| && t[i].dib > 0 && t[i].item.key == item.key
    ensures var u := t[i := t[i].(item := item)];
            && Unique(u) && Occupied(u) == Occupied(t)
            && Contents(u) == Contents(t)[item.key := item.value]
  {
    ContentsUpdate(t, i, t[i].(item := item));
    OccupiedUpdate(t, i, t[i].(item := item));
    assert Occupied(t) + {i} == Occupied(t);
    OverwriteTwice(Contents(t), item);
  }

  lemma OverwriteTwice<K, V>(m: map<K, V>, item: Item<K, V>)
    ensures (m - {item.key})[item.key := item.value] == m[item.key := item.value]
  {
  }

  // ---------- insertion: the loops of hashmap_set_with_hash and resize0 ----------

  /** The next value of a carried bucket's 16-bit dib, which wraps. */
  function Bump<K, V>(b: Bucket<K, V>): Bucket<K, V> {
    b.(dib := (b.dib + 1) % DIB_RANGE)
  }

  datatype Placed<K, V> = Placed(table: Table<K, V>, replaced: Option<Item<K, V>>)

  /** The probe loop from slot i with the carried bucket e. hashmap_set_with_hash compares
      keys on its way; resize0 does not. */
  ghost function Insert<K, V>(t: Table<K, V>, i: nat, e: Bucket<K, V>, compare: bool): Placed<K, V>
    requires i < |t| && HasGap(t)
    decreases Dist(i, FirstGap(t), |t|)
  {
    var b := t[i];
    if b.dib == 0 then
      Placed(t[i := e], None)
    else if compare && e.hash == b.hash && e.item.key == b.item.key then
      Placed(t[i := b.(item := e.item)], Some(b.item))
    else if b.dib < e.dib then
      assert t[i := e][FirstGap(t)].dib == 0;
      Insert(t[i := e], Next(i, |t|), Bump(b), compare)
    else
      Insert(t, Next(i, |t|), Bump(e), compare)
  }

  /** The bucket that is carried on from slot i, and the table that it leaves behind. */
  ghost function Passed<K, V>(t: Table<K, V>, i: nat, e: Bucket<K, V>): (Table<K, V>, Bucket<K, V>)
    requires i < |t|
  {
    if t[i].dib < e.dib then (t[i := e], Bump(t[i])) else (t, Bump(e))
  }

  /** One round of the probe loop past an occupied slot with another key. */
  lemma InsertPasses<K, V>(t: Table<K, V>, i: nat, e: Bucket<K, V>, compare: bool)
    requires i < |t| && HasGap(t) && t[i].dib > 0
    requires !(compare && e.hash == t[i].hash && e.item.key == t[i].item.key)
    ensures var (u, b) := Passed(t, i, e);
            && |u| == |t| && HasGap(u) && FirstGap(u) == FirstGap(t)
            && Insert(t, i, e, compare) == Insert(u, Next(i, |t|), b, compare)
    ensures Dist(Next(i, |t|), FirstGap(t), |t|) < Dist(i, FirstGap(t), |t|)
  {
    var g := FirstGap(t);
    if t[i].dib < e.dib {
      var u := t[i := e];
      assert u[g].dib == 0;
      assert IsFirstGap(u, FirstGap(u));
    }
  }

  /** Whatever the carried dib is (it may have wrapped), an insertion occupies at most one
      more slot. */
  lemma {:induction false} InsertOccupies<K, V>(t: Table<K, V>, i: nat, e: Bucket<K, V>, compare: bool)
    requires i < |t| && HasGap(t)
    ensures |Insert(t, i, e, compare).table| == |t|
    ensures |Occupied(Insert(t, i, e, compare).table)| <=
            |Occupied(t)| + (if Insert(t, i, e, compare).replaced.None? then 1 else 0)
    decreases Dist(i, FirstGap(t), |t|)
  {
    var b := t[i];
    if b.dib == 0 {
      OccupiedUpdate(t, i, e);
    } else if compare && e.hash == b.hash && e.item.key == b.item.key {
      OccupiedUpdate(t, i, b.(item := e.item));
    } else if b.dib < e.dib {
      assert t[i := e][FirstGap(t)].dib == 0;
      OccupiedUpdate(t, i, e);
      assert Occupied(t) + {i} == Occupied(t);
      InsertOccupies(t[i := e], Next(i, |t|), Bump(b), compare);
    } else {
      InsertOccupies(t, Next(i, |t|), Bump(e), compare);
    }
  }

  /** The carried bucket fits at slot i: its dib is its distance from home plus one, and at
      most one more than the dib of the slot before. */
  ghost predicate Carried<K, V>(t: Table<K, V>, h: K -> nat, i: nat, e: Bucket<K, V>)
    requires i < |t|
  {
    && e.hash == Clip(h(e.item.key))
    && e.dib == Dist(Home(e.hash, |t|), i, |t|) + 1
    && e.dib <= MAX_DIB
    && e.dib <= t[Pred(i, |t|)].dib + 1
  }

  /** A stored item with this key lies at or beyond slot i on the way from its home. */
  ghost predicate NotPassed<K, V>(t: Table<K, V>, hash: nat, key: K, i: nat)
    requires i < |t|
  {
    forall j: nat | j < |t| && t[j].dib > 0 && t[j].item.key == key ::
      Dist(Home(hash, |t|), i, |t|) <= Dist(Home(hash, |t|), j, |t|)
  }

  /** Why a key is known to be absent at a slot that is nearer to its own home than the
      carried bucket is to its: the stored key would have been met before. */
  lemma RicherSlotMeansAbsent<K, V>(t: Table<K, V>, h: K -> nat, i: nat, e: Bucket<K, V>)
    requires i < |t| && Intact(t, h) && Carried(t, h, i, e)
    requires NotPassed(t, e.hash, e.item.key, i)
    requires t[i].dib < e.dib
    ensures !HasKey(t, e.item.key)
  {
    if HasKey(t, e.item.key) {
      var j: nat :| j < |t| && t[j].dib > 0 && t[j].item.key == e.item.key;
      RunFromHome(t, h, j, i);
    }
  }

  lemma SmoothUpdate<K, V>(t: Table<K, V>, i: nat, b: Bucket<K, V>)
    requires Smooth(t) && i < |t| && t[i].dib <= b.dib <= t[Pred(i, |t|)].dib + 1
    ensures Smooth(t[i := b])
  {
    var u := t[i := b];
    forall k: nat {:trigger Pred(k, |u|)} | k < |u| ensures u[k].dib <= u[Pred(k, |u|)].dib + 1 {
      assert t[k].dib <= t[Pred(k, |t|)].dib + 1;
    }
  }

  /** Writing a carried bucket over a slot with a smaller dib keeps the invariant. */
  lemma PlaceIntact<K, V>(t: Table<K, V>, h: K -> nat, i: nat, e: Bucket<K, V>)
    requires i < |t| && Intact(t, h) && Carried(t, h, i, e)
    requires t[i].dib < e.dib && !HasKey(t, e.item.key)
    ensures Intact(t[i := e], h)
  {
    UniqueUpdate(t, i, e);
    SmoothUpdate(t, i, e);
  }

  /** Stepping past an occupied slot i, the bucket carried on fits the next slot, and its dib
      has not wrapped. */
  lemma CarryOn<K, V>(t: Table<K, V>, h: K -> nat, i: nat, e: Bucket<K, V>)
    requires i < |t| && Intact(t, h) && HasGap(t)
    requires e.hash == Clip(h(e.item.key)) && e.dib == Dist(Home(e.hash, |t|), i, |t|) + 1
    requires 0 < e.dib <= t[i].dib && e.dib < MAX_DIB
    ensures Bump(e).dib == e.dib + 1 && Carried(t, h, Next(i, |t|), Bump(e))
    ensures Next(i, |t|) != Home(e.hash, |t|)
  {
    DibAtMostCount(t, h, i);
    GapFromCount(t);
    assert Pred(Next(i, |t|), |t|) == i;
  }

  // ---------- the slots that a carried bucket cannot pass ----------

  /** A probe that reaches slot i with dib c comes, before an empty slot, to a slot at dib
      MAX_DIB when it carries MAX_DIB itself: one more step wraps the field. */
  ghost predicate Blocked<K, V>(t: Table<K, V>, i: nat, c: nat)
    requires i < |t| && HasGap(t)
    decreases Dist(i, FirstGap(t), |t|)
  {
    t[i].dib > 0 && ((t[i].dib == MAX_DIB && c >= MAX_DIB) || Blocked(t, Next(i, |t|), c + 1))
  }

  /** Every slot from i to j is occupied. */
  ghost predicate Reaches<K, V>(t: Table<K, V>, i: nat, j: nat)
    requires i < |t| && j < |t|
  {
    forall k: nat | k < |t| && Dist(i, k, |t|) <= Dist(i, j, |t|) :: t[k].dib > 0
  }

  /** Slot j, of the run that starts at slot i, is at MAX_DIB, and so is c when it gets there. */
  ghost predicate BlockedAt<K, V>(t: Table<K, V>, i: nat, c: nat, j: nat)
    requires i < |t|
  {
    j < |t| && Reaches(t, i, j) && t[j].dib == MAX_DIB && c + Dist(i, j, |t|) >= MAX_DIB
  }

  lemma ReachesNext<K, V>(t: Table<K, V>, i: nat, j: nat)
    requires i < |t| && j < |t| && HasGap(t) && t[i].dib > 0
    ensures j != i ==> (Reaches(t, i, j) <==> Reaches(t, Next(i, |t|), j))
    ensures Reaches(t, i, i) && !Reaches(t, Next(i, |t|), i)
  {
    var next, g := Next(i, |t|), FirstGap(t);
    assert Dist(next, g, |t|) <= Dist(next, i, |t|);
    if j != i && Reaches(t, i, j) {
      forall k: nat | k < |t| && Dist(next, k, |t|) <= Dist(next, j, |t|) ensures t[k].dib > 0 {
        assert Dist(i, k, |t|) <= Dist(i, j, |t|);
      }
    }
    if j != i && Reaches(t, next, j) {
      forall k: nat | k < |t| && Dist(i, k, |t|) <= Dist(i, j, |t|) ensures t[k].dib > 0 {
        assert k != i ==> Dist(next, k, |t|) <= Dist(next, j, |t|);
      }
    }
  }

  lemma BlockedNext<K, V>(t: Table<K, V>, i: nat, c: nat)
    requires i < |t| && HasGap(t) && t[i].dib > 0
    ensures Blocked(t, i, c) <==> (t[i].dib == MAX_DIB && c >= MAX_DIB) || Blocked(t, Next(i, |t|), c + 1)
  {
  }

  /** The condition in one formula: the run from slot i has a slot at MAX_DIB, and it lies at
      least MAX_DIB - c steps further on. */
  lemma {:induction false} BlockedIff<K, V>(t: Table<K, V>, i: nat, c: nat)
    requires i < |t| && HasGap(t)
    ensures Blocked(t, i, c) <==> exists j: nat :: BlockedAt(t, i, c, j)
    decreases Dist(i, FirstGap(t), |t|)
  {
    if t[i].dib == 0 {
      forall j: nat | j < |t| ensures !Reaches(t, i, j) {
        assert Dist(i, i, |t|) <= Dist(i, j, |t|);
      }
    } else {
      var next, d := Next(i, |t|), c + 1;
      BlockedIff(t, next, d);
      ReachesNext(t, i, i);
      assert !BlockedAt(t, next, d, i);
      if exists j: nat :: BlockedAt(t, i, c, j) {
        var j: nat :| BlockedAt(t, i, c, j);
        if j != i {
          ReachesNext(t, i, j);
          assert BlockedAt(t, next, d, j);
        }
      }
      if exists j: nat :: BlockedAt(t, next, d, j) {
        var j: nat :| BlockedAt(t, next, d, j);
        ReachesNext(t, i, j);
        assert BlockedAt(t, i, c, j);
      }
      if t[i].dib == MAX_DIB && c >= MAX_DIB {
        assert BlockedAt(t, i, c, i);
      }
    }
  }

  /** In a smooth table the condition does not depend on how far ahead of the dibs c is. */
  lemma {:induction false} BlockedForAll<K, V>(t: Table<K, V>, i: nat, c: nat, c': nat)
    requires i < |t| && HasGap(t) && Smooth(t)
    requires c > t[Pred(i, |t|)].dib && c' > t[Pred(i, |t|)].dib
    ensures Blocked(t, i, c) <==> Blocked(t, i, c')
    decreases Dist(i, FirstGap(t), |t|)
  {
    assert t[i].dib <= t[Pred(i, |t|)].dib + 1;
    if t[i].dib > 0 {
      assert Pred(Next(i, |t|), |t|) == i;
      BlockedForAll(t, Next(i, |t|), c + 1, c' + 1);
    }
  }

  /** The slots that a probe has passed make no difference. */
  lemma {:induction false} BlockedAhead<K, V>(t: Table<K, V>, p: nat, u: Table<K, V>, i: nat, c: nat)
    requires i < |t| && p < |t| && HasGap(t) && HasGap(u) && FirstGap(u) == FirstGap(t)
    requires t[p].dib > 0 && |u| == |t| && u == t[p := u[p]]
    requires Dist(p, FirstGap(t), |t|) > Dist(i, FirstGap(t), |t|)
    ensures Blocked(u, i, c) <==> Blocked(t, i, c)
    decreases Dist(i, FirstGap(t), |t|)
  {
    if t[i].dib > 0 {
      BlockedAhead(t, p, u, Next(i, |t|), c + 1);
    }
  }

  /** With fewer than MAX_DIB items stored no probe is blocked. */
  lemma {:induction false} FewAreNotBlocked<K, V>(t: Table<K, V>, h: K -> nat, i: nat, c: nat)
    requires i < |t| && HasGap(t) && Intact(t, h) && |Occupied(t)| < MAX_DIB
    ensures !Blocked(t, i, c)
    decreases Dist(i, FirstGap(t), |t|)
  {
    if t[i].dib > 0 {
      DibAtMostCount(t, h, i);
      FewAreNotBlocked(t, h, Next(i, |t|), c + 1);
    }
  }

  /** Where insertion starts: the home slot of the new item. */
  lemma CarriedAtHome<K, V>(t: Table<K, V>, h: K -> nat, item: Item<K, V>)
    requires |t| > 0
    ensures var hash := Clip(h(item.key));
            var i := Home(hash, |t|);
            Carried(t, h, i, Bucket(hash, 1, item)) && NotPassed(t, hash, item.key, i)
  {
  }

  /** The outcome that insertion must have, in terms of the finite map alone. */
  ghost predicate Stored<K, V>(t: Table<K, V>, h: K -> nat, item: Item<K, V>, r: Placed<K, V>)
    requires Unique(t)
  {
    var m := Contents(t);
    && |r.table| == |t|
    && Intact(r.table, h)
    && Contents(r.table) == m[item.key := item.value]
    && r.replaced == (if item.key in m then Some(Item(item.key, m[item.key])) else None)
    && |Occupied(r.table)| == |Occupied(t)| + (if item.key in m then 0 else 1)
  }

  /** The probe from slot i with the carried bucket e ends well: keys are compared unless the
      key is known to be absent, and the probe for a fresh key is not blocked. */
  ghost predicate Insertable<K, V>(t: Table<K, V>, h: K -> nat, i: nat, e: Bucket<K, V>, compare: bool) {
    && i < |t| && Intact(t, h) && HasGap(t)
    && Carried(t, h, i, e) && NotPassed(t, e.hash, e.item.key, i)
    && (compare || !HasKey(t, e.item.key))
    && (HasKey(t, e.item.key) || !Blocked(t, i, e.dib))
  }

  /** Insertion stores the item under its key, returns what was there, and keeps the
      invariant through any chain of displacements. */
  lemma {:induction false} InsertStores<K, V>(t: Table<K, V>, h: K -> nat, i: nat, e: Bucket<K, V>, compare: bool)
    requires Insertable(t, h, i, e, compare)
    ensures Stored(t, h, e.item, Insert(t, i, e, compare))
    decreases Dist(i, FirstGap(t), |t|)
  {
    var b := t[i];
    if b.dib == 0 {
      RicherSlotMeansAbsent(t, h, i, e);
      FreshStores(t, h, i, e);
    } else if compare && e.hash == b.hash && e.item.key == b.item.key {
      ReplaceStores(t, h, i, e.item);
    } else if b.dib < e.dib {
      SwapInsertable(t, h, i, e, compare, t[i := e]);
      InsertStores(t[i := e], h, Next(i, |t|), Bump(b), compare);
      DisplacedStored(t, h, i, e, Insert(t, i, e, compare));
    } else {
      SkipInsertable(t, h, i, e, compare);
      InsertStores(t, h, Next(i, |t|), Bump(e), compare);
    }
  }

  lemma SwapInsertable<K, V>(t: Table<K, V>, h: K -> nat, i: nat, e: Bucket<K, V>, compare: bool, u: Table<K, V>)
    requires Insertable(t, h, i, e, compare) && 0 < t[i].dib < e.dib && u == t[i := e]
    ensures !HasKey(t, e.item.key) && Unique(u) && HasGap(u) && FirstGap(u) == FirstGap(t)
    ensures Dist(Next(i, |t|), FirstGap(t), |t|) < Dist(i, FirstGap(t), |t|)
    ensures Insertable(u, h, Next(i, |t|), Bump(t[i]), compare)
  {
    NextIsNearer(t, i);
    RicherSlotMeansAbsent(t, h, i, e);
    PlaceIntact(t, h, i, e);
    Displace(t, i, e);
    CarryOn(u, h, i, t[i]);
    SwapKeepsBlocked(t, i, u, Next(i, |t|), e.dib, t[i].dib + 1);
  }

  lemma SkipInsertable<K, V>(t: Table<K, V>, h: K -> nat, i: nat, e: Bucket<K, V>, compare: bool)
    requires Insertable(t, h, i, e, compare) && e.dib <= t[i].dib && t[i].item.key != e.item.key
    ensures Dist(Next(i, |t|), FirstGap(t), |t|) < Dist(i, FirstGap(t), |t|)
    ensures Insertable(t, h, Next(i, |t|), Bump(e), compare)
  {
    NextIsNearer(t, i);
    StaysBelowLimit(t, h, i, e);
    BlockedNext(t, i, e.dib);
    SkipKeepsSearch(t, h, i, e);
  }

  lemma FreshStores<K, V>(t: Table<K, V>, h: K -> nat, i: nat, e: Bucket<K, V>)
    requires i < |t| && Intact(t, h) && Carried(t, h, i, e)
    requires t[i].dib == 0 && !HasKey(t, e.item.key)
    ensures Stored(t, h, e.item, Placed(t[i := e], None))
  {
    PlaceIntact(t, h, i, e);
    ContentsPut(t, i, e);
    OccupiedUpdate(t, i, e);
  }

  lemma ReplaceStores<K, V>(t: Table<K, V>, h: K -> nat, i: nat, item: Item<K, V>)
    requires i < |t| && Intact(t, h) && t[i].dib > 0 && t[i].item.key == item.key
    ensures Stored(t, h, item, Placed(t[i := t[i].(item := item)], Some(t[i].item)))
  {
    ContentsReplace(t, i, item);
    SmoothUpdate(t, i, t[i].(item := item));
    assert t[i].item.key in Contents(t);
  }

  /** Overwriting an occupied slot with a fresh item evicts the old item, and nothing else. */
  lemma Displace<K, V>(t: Table<K, V>, i: nat, e: Bucket<K, V>)
    requires i < |t| && Unique(t) && t[i].dib > 0 && e.dib > 0 && !HasKey(t, e.item.key)
    ensures var u := t[i := e];
            && Unique(u) && Occupied(u) == Occupied(t)
            && (HasGap(t) ==> HasGap(u) && FirstGap(u) == FirstGap(t))
            && t[i].item.key in Contents(t)
            && t[i].item.key !in Contents(u) && !HasKey(u, t[i].item.key)
            && Contents(u)[t[i].item.key := t[i].item.value] == Contents(t)[e.item.key := e.item.value]
  {
    var u := t[i := e];
    ContentsUpdate(t, i, e);
    OccupiedUpdate(t, i, e);
    assert Occupied(t) + {i} == Occupied(t);
    if HasGap(t) {
      assert u[FirstGap(t)].dib == 0;
    }
  }

  lemma NextIsNearer<K, V>(t: Table<K, V>, i: nat)
    requires i < |t| && HasGap(t) && t[i].dib > 0
    ensures Dist(i, FirstGap(t), |t|) == Dist(Next(i, |t|), FirstGap(t), |t|) + 1
  {
  }

  /** The probe that goes on with the displaced bucket is blocked if and only if it was. */
  lemma SwapBlocked<K, V>(t: Table<K, V>, i: nat, c: nat)
    requires i < |t| && HasGap(t) && Smooth(t) && 0 < t[i].dib < c && t[i].dib < MAX_DIB
    ensures Blocked(t, i, c) <==> Blocked(t, Next(i, |t|), t[i].dib + 1)
  {
    var next, d := Next(i, |t|), t[i].dib + 1;
    assert Pred(next, |t|) == i;
    BlockedNext(t, i, c);
    BlockedForAll(t, next, c + 1, d);
  }

  lemma SwapKeepsBlocked<K, V>(t: Table<K, V>, i: nat, u: Table<K, V>, next: nat, c: nat, d: nat)
    requires i < |t| && next == Next(i, |t|) && |u| == |t| && u == t[i := u[i]]
    requires HasGap(t) && HasGap(u) && FirstGap(u) == FirstGap(t) && Smooth(t)
    requires 0 < t[i].dib < c && t[i].dib < MAX_DIB && d == t[i].dib + 1
    ensures Blocked(t, i, c) <==> Blocked(u, next, d)
  {
    NextIsNearer(t, i);
    SwapBlocked(t, i, c);
    BlockedAhead(t, i, u, next, d);
  }

  lemma DisplacedStored<K, V>(t: Table<K, V>, h: K -> nat, i: nat, e: Bucket<K, V>, r: Placed<K, V>)
    requires i < |t| && Unique(t) && t[i].dib > 0 && e.dib > 0 && !HasKey(t, e.item.key)
    requires Unique(t[i := e])
    ensures Stored(t[i := e], h, t[i].item, r) <==> Stored(t, h, e.item, r)
  {
    Displace(t, i, e);
  }

  /** Carrying on past a slot with a larger dib, the dib does not wrap. */
  lemma StaysBelowLimit<K, V>(t: Table<K, V>, h: K -> nat, i: nat, e: Bucket<K, V>)
    requires i < |t| && Intact(t, h) && HasGap(t)
    requires Carried(t, h, i, e) && NotPassed(t, e.hash, e.item.key, i)
    requires e.dib <= t[i].dib && t[i].item.key != e.item.key
    requires HasKey(t, e.item.key) || !Blocked(t, i, e.dib)
    ensures e.dib < MAX_DIB
  {
    if HasKey(t, e.item.key) {
      var j: nat :| j < |t| && t[j].dib > 0 && t[j].item.key == e.item.key;
      assert e.dib <= t[j].dib;
    } else {
      BlockedNext(t, i, e.dib);
    }
  }

  lemma SkipKeepsSearch<K, V>(t: Table<K, V>, h: K -> nat, i: nat, e: Bucket<K, V>)
    requires i < |t| && Intact(t, h) && HasGap(t)
    requires Carried(t, h, i, e) && NotPassed(t, e.hash, e.item.key, i)
    requires e.dib <= t[i].dib && t[i].item.key != e.item.key && e.dib < MAX_DIB
    ensures Bump(e).dib == e.dib + 1
    ensures Carried(t, h, Next(i, |t|), Bump(e)) && NotPassed(t, e.hash, e.item.key, Next(i, |t|))
  {
    CarryOn(t, h, i, e);
  }

  // ---------- lookup: the loop of hashmap_get_with_hash and hashmap_delete_with_hash ----------

  /** The slot of the key, found by probing from slot i and stopping at the first empty slot. */
  ghost function Find<K, V>(t: Table<K, V>, i: nat, hash: nat, key: K): Option<nat>
    requires i < |t| && HasGap(t)
    decreases Dist(i, FirstGap(t), |t|)
  {
    if t[i].dib == 0 then None
    else if t[i].hash == hash && t[i].item.key == key then Some(i)
    else Find(t, Next(i, |t|), hash, key)
  }

  /** In any table with a gap, a slot that is found holds the key. */
  lemma {:induction false} FindIsSound<K, V>(t: Table<K, V>, i: nat, hash: nat, key: K)
    requires i < |t| && HasGap(t)
    ensures var r := Find(t, i, hash, key);
            r.Some? ==> r.value < |t| && t[r.value].dib > 0 && t[r.value].item.key == key
    decreases Dist(i, FirstGap(t), |t|)
  {
    if t[i].dib > 0 && !(t[i].hash == hash && t[i].item.key == key) {
      FindIsSound(t, Next(i, |t|), hash, key);
    }
  }

  /** The probe misses no stored key: no empty slot lies between it and its home. */
  lemma {:induction false} FindIsComplete<K, V>(t: Table<K, V>, h: K -> nat, i: nat, key: K)
    requires i < |t| && Intact(t, h) && HasGap(t)
    requires NotPassed(t, Clip(h(key)), key, i)
    ensures Find(t, i, Clip(h(key)), key).Some? <==> HasKey(t, key)
    decreases Dist(i, FirstGap(t), |t|)
  {
    var hash := Clip(h(key));
    if HasKey(t, key) {
      var j: nat :| j < |t| && t[j].dib > 0 && t[j].item.key == key;
      RunFromHome(t, h, j, i);
    }
    if t[i].dib > 0 && !(t[i].hash == hash && t[i].item.key == key) {
      assert NotPassed(t, hash, key, Next(i, |t|));
      FindIsComplete(t, h, Next(i, |t|), key);
    }
  }

  // ---------- backward shift: the inner loop of hashmap_delete_with_hash ----------

  /** The table with slot i counted as occupied. */
  ghost function Hide<K, V>(t: Table<K, V>, i: nat): Table<K, V>
    requires i < |t|
  {
    t[i := t[i].(dib := 1)]
  }

  function Nearer<K, V>(b: Bucket<K, V>): Bucket<K, V>
    requires b.dib > 0
  {
    b.(dib := b.dib - 1)
  }

  /** Slot `prev` holds a bucket that is to go; the run after it moves back by one slot. */
  ghost function ShiftBack<K, V>(t: Table<K, V>, prev: nat): Table<K, V>
    requires prev < |t| && HasGap(Hide(t, prev))
    decreases Dist(prev, FirstGap(Hide(t, prev)), |t|)
  {
    var i := Next(prev, |t|);
    if t[i].dib <= 1 then t[prev := Emptied(t[prev])]
    else
      GapStaysAhead(t, prev);
      ShiftBack(t[prev := Nearer(t[i])], i)
  }

  lemma GapStaysAhead<K, V>(t: Table<K, V>, prev: nat)
    requires prev < |t| && HasGap(Hide(t, prev))
    requires t[Next(prev, |t|)].dib > 1
    ensures var i := Next(prev, |t|);
            var u := t[prev := Nearer(t[i])];
            HasGap(Hide(u, i)) && FirstGap(Hide(u, i)) == FirstGap(Hide(t, prev))
  {
    var i := Next(prev, |t|);
    var u := t[prev := Nearer(t[i])];
    var s, v := Hide(t, prev), Hide(u, i);
    assert s[FirstGap(s)].dib == 0;
    forall k: nat | k < |t| ensures v[k].dib == 0 <==> s[k].dib == 0 {
    }
    assert v[FirstGap(s)].dib == 0;
  }

  /** What the first slot still holds makes no difference to the shift. */
  lemma ShiftBackFromEmptied<K, V>(t: Table<K, V>, p: nat)
    requires p < |t| && HasGap(Hide(t, p))
    ensures var u := t[p := Emptied(t[p])];
            HasGap(Hide(u, p)) && ShiftBack(u, p) == ShiftBack(t, p)
  {
    var u := t[p := Emptied(t[p])];
    assert Hide(u, p) == Hide(t, p);
    var i := Next(p, |t|);
    if t[i].dib > 1 {
      assert i != p;
      assert u[p := Nearer(u[i])] == t[p := Nearer(t[i])];
    }
  }

  /** A table in the middle of a backward shift, its hole at slot p: all of the invariant
      holds except between the hole and the slot after it. */
  ghost predicate Holed<K, V>(t: Table<K, V>, h: K -> nat, p: nat) {
    && 2 < |t| && p < |t| && t[p].dib == 0
    && Homed(t, h) && Unique(t)
    && (forall k: nat {:trigger Pred(k, |t|)} | k < |t| && Pred(k, |t|) != p ::
          t[k].dib <= t[Pred(k, |t|)].dib + 1)
    && t[Next(p, |t|)].dib <= t[Pred(p, |t|)].dib + 2
  }

  lemma EmptiedIsHoled<K, V>(t: Table<K, V>, h: K -> nat, p: nat)
    requires Intact(t, h) && p < |t| && 2 < |t|
    ensures Holed(t[p := Emptied(t[p])], h, p)
  {
    var q := Next(p, |t|);
    assert Pred(q, |t|) == p;
    assert t[p].dib <= t[Pred(p, |t|)].dib + 1;
    UniqueUpdate(t, p, Emptied(t[p]));
    var u := t[p := Emptied(t[p])];
    forall k: nat {:trigger Pred(k, |u|)} | k < |u| && Pred(k, |u|) != p
      ensures u[k].dib <= u[Pred(k, |u|)].dib + 1
    {
      assert t[k].dib <= t[Pred(k, |t|)].dib + 1;
    }
  }

  /** One round of the shift: the bucket after the hole moves into it. */
  ghost function Filled<K, V>(t: Table<K, V>, p: nat): Table<K, V>
    requires p < |t| && t[Next(p, |t|)].dib > 1
  {
    var q := Next(p, |t|);
    t[q := Emptied(t[q])][p := Nearer(t[q])]
  }

  lemma FilledIsHoled<K, V>(t: Table<K, V>, h: K -> nat, p: nat)
    requires Holed(t, h, p) && t[Next(p, |t|)].dib > 1
    ensures Holed(Filled(t, p), h, Next(p, |t|))
    ensures Contents(Filled(t, p)) == Contents(t)
    ensures |Occupied(Filled(t, p))| == |Occupied(t)|
  {
    FilledContents(t, p);
    FilledOccupied(t, p);
    FilledIsSmooth(t, h, p);
    FilledIsHomed(t, h, p);
  }

  lemma FilledContents<K, V>(t: Table<K, V>, p: nat)
    requires 2 < |t| && p < |t| && Unique(t) && t[p].dib == 0 && t[Next(p, |t|)].dib > 1
    ensures Unique(Filled(t, p)) && Contents(Filled(t, p)) == Contents(t)
  {
    var q := Next(p, |t|);
    var v := t[q := Emptied(t[q])];
    var x := t[q].item;
    ContentsTake(t, q);
    ContentsPut(v, p, Nearer(t[q]));
    assert (Contents(t) - {x.key})[x.key := x.value] == Contents(t);
  }

  lemma FilledOccupied<K, V>(t: Table<K, V>, p: nat)
    requires 2 < |t| && p < |t| && t[p].dib == 0 && t[Next(p, |t|)].dib > 1
    ensures |Occupied(Filled(t, p))| == |Occupied(t)|
  {
    var q := Next(p, |t|);
    assert Occupied(Filled(t, p)) == Occupied(t) - {q} + {p};
  }

  lemma FilledIsHomed<K, V>(t: Table<K, V>, h: K -> nat, p: nat)
    requires Holed(t, h, p) && t[Next(p, |t|)].dib > 1
    ensures Homed(Filled(t, p), h)
  {
  }

  lemma FilledIsSmooth<K, V>(t: Table<K, V>, h: K -> nat, p: nat)
    requires Holed(t, h, p) && t[Next(p, |t|)].dib > 1
    ensures var u := Filled(t, p);
            var q := Next(p, |t|);
            && (forall k: nat {:trigger Pred(k, |u|)} | k < |u| && Pred(k, |u|) != q ::
                  u[k].dib <= u[Pred(k, |u|)].dib + 1)
            && u[Next(q, |u|)].dib <= u[Pred(q, |u|)].dib + 2
  {
    var q := Next(p, |t|);
    var u := Filled(t, p);
    assert Pred(q, |t|) == p && Pred(Next(q, |t|), |t|) == q;
    forall k: nat {:trigger Pred(k, |u|)} | k < |u| && Pred(k, |u|) != q
      ensures u[k].dib <= u[Pred(k, |u|)].dib + 1
    {
      assert Pred(k, |t|) == Pred(k, |u|);
    }
  }

  /** A hole before an empty slot, or before an item at its home, is an ordinary empty slot. */
  lemma HoleStays<K, V>(t: Table<K, V>, h: K -> nat, p: nat)
    requires Holed(t, h, p) && t[Next(p, |t|)].dib <= 1
    ensures Intact(t, h)
  {
    forall k: nat {:trigger Pred(k, |t|)} | k < |t| ensures t[k].dib <= t[Pred(k, |t|)].dib + 1 {
      if Pred(k, |t|) == p {
        assert k == Next(p, |t|);
      }
    }
  }

  /** Deleting removes exactly the item at the slot, keeps the invariant, and frees one slot. */
  lemma {:induction false} ShiftBackRemoves<K, V>(t: Table<K, V>, h: K -> nat, p: nat)
    requires p < |t| && HasGap(Hide(t, p)) && Holed(t[p := Emptied(t[p])], h, p)
    ensures var u := t[p := Emptied(t[p])];
            var r := ShiftBack(t, p);
            && |r| == |t| && Intact(r, h)
            && Contents(r) == Contents(u)
            && |Occupied(r)| == |Occupied(u)|
    decreases Dist(p, FirstGap(Hide(t, p)), |t|)
  {
    var u := t[p := Emptied(t[p])];
    var q := Next(p, |t|);
    assert u[q] == t[q];
    if t[q].dib <= 1 {
      HoleStays(u, h, p);
    } else {
      GapStaysAhead(t, p);
      var v := t[p := Nearer(t[q])];
      assert v[q := Emptied(v[q])] == Filled(u, p);
      FilledIsHoled(u, h, p);
      ShiftBackRemoves(v, h, q);
    }
  }

  /** In any table, even one whose dibs have wrapped, the shift frees the slot it started at
      and no more. */
  lemma {:induction false} ShiftBackFrees<K, V>(t: Table<K, V>, p: nat)
    requires p < |t| && 2 < |t| && HasGap(Hide(t, p))
    ensures |ShiftBack(t, p)| == |t|
    ensures |Occupied(ShiftBack(t, p))| == |Occupied(t[p := Emptied(t[p])])|
    decreases Dist(p, FirstGap(Hide(t, p)), |t|)
  {
    var q := Next(p, |t|);
    if t[q].dib > 1 {
      GapStaysAhead(t, p);
      var v := t[p := Nearer(t[q])];
      ShiftBackFrees(v, q);
      assert Occupied(v[q := Emptied(v[q])]) == Occupied(t[p := Emptied(t[p])]) - {q} + {p};
    }
  }

  // ---------- rehash: the outer loop of resize0 ----------

  function Zeroed<K, V>(n: nat, zero: Item<K, V>): (t: Table<K, V>)
    ensures |t| == n
    ensures forall i: nat | i < n :: t[i].dib == 0
  {
    seq(n, _ => Bucket(0, 0, zero))
  }

  lemma ZeroedIsEmpty<K, V>(n: nat, zero: Item<K, V>, h: K -> nat)
    ensures Intact(Zeroed(n, zero), h)
    ensures Contents(Zeroed(n, zero)) == map[]
    ensures Occupied(Zeroed(n, zero)) == {}
  {
    assert Contents(Zeroed(n, zero)).Keys == {};
  }

  ghost function OccupiedFrom<K, V>(t: Table<K, V>, i: nat): set<nat> {
    set k: nat | i <= k < |t| && t[k].dib > 0
  }

  lemma OccupiedFromStep<K, V>(t: Table<K, V>, i: nat)
    requires i < |t|
    ensures |OccupiedFrom(t, i)| == |OccupiedFrom(t, i + 1)| + (if t[i].dib > 0 then 1 else 0)
  {
    if t[i].dib > 0 {
      assert OccupiedFrom(t, i) == OccupiedFrom(t, i + 1) + {i};
    } else {
      assert OccupiedFrom(t, i) == OccupiedFrom(t, i + 1);
    }
  }

  /** Inserts the occupied slots of t from slot i on into u, in slot order and by their
      stored hashes, without comparing keys. */
  ghost function Reinsert<K, V>(t: Table<K, V>, i: nat, u: Table<K, V>): Table<K, V>
    requires i <= |t| && |Occupied(u)| + |OccupiedFrom(t, i)| < |u|
    decreases |t| - i
  {
    if i == |t| then u
    else
      OccupiedFromStep(t, i);
      if t[i].dib == 0 then Reinsert(t, i + 1, u)
      else
        var home := Home(t[i].hash, |u|);
        var e := t[i].(dib := 1);
        GapFromCount(u);
        InsertOccupies(u, home, e, false);
        Reinsert(t, i + 1, Insert(u, home, e, false).table)
  }

  lemma {:induction false} ReinsertOccupies<K, V>(t: Table<K, V>, i: nat, u: Table<K, V>)
    requires i <= |t| && |Occupied(u)| + |OccupiedFrom(t, i)| < |u|
    ensures |Reinsert(t, i, u)| == |u|
    ensures |Occupied(Reinsert(t, i, u))| <= |Occupied(u)| + |OccupiedFrom(t, i)|
    decreases |t| - i
  {
    if i < |t| {
      OccupiedFromStep(t, i);
      if t[i].dib == 0 {
        ReinsertOccupies(t, i + 1, u);
      } else {
        var home := Home(t[i].hash, |u|);
        var e := t[i].(dib := 1);
        GapFromCount(u);
        InsertOccupies(u, home, e, false);
        ReinsertOccupies(t, i + 1, Insert(u, home, e, false).table);
      }
    }
  }

  /** u holds exactly the items of t's slots before i. */
  ghost predicate Moved<K, V>(t: Table<K, V>, i: nat, u: Table<K, V>)
    requires Unique(t) && Unique(u)
  {
    && (forall k | k in Contents(u) :: k in Contents(t) && Contents(u)[k] == Contents(t)[k])
    && (forall j: nat | j < |t| && t[j].dib > 0 :: j < i <==> t[j].item.key in Contents(u))
  }

  /** None of the insertions of the rehash is blocked. */
  ghost predicate Rehashes<K, V>(t: Table<K, V>, i: nat, u: Table<K, V>)
    requires i <= |t| && |Occupied(u)| + |OccupiedFrom(t, i)| < |u|
    decreases |t| - i
  {
    i < |t| ==>
      (OccupiedFromStep(t, i);
       if t[i].dib == 0 then Rehashes(t, i + 1, u)
       else
         var home := Home(t[i].hash, |u|);
         var e := t[i].(dib := 1);
         GapFromCount(u);
         InsertOccupies(u, home, e, false);
         !Blocked(u, home, 1) && Rehashes(t, i + 1, Insert(u, home, e, false).table))
  }

  /** Rehashing yields a table of the same map, with the invariant re-established. */
  lemma {:induction false} ReinsertKeepsContents<K, V>(t: Table<K, V>, h: K -> nat, i: nat, u: Table<K, V>)
    requires i <= |t| && Intact(t, h) && Intact(u, h) && Moved(t, i, u)
    requires |Occupied(u)| + |OccupiedFrom(t, i)| < |u|
    requires Rehashes(t, i, u)
    ensures var r := Reinsert(t, i, u);
            && |r| == |u| && Intact(r, h) && Contents(r) == Contents(t)
            && |Occupied(r)| == |Occupied(u)| + |OccupiedFrom(t, i)|
    decreases |t| - i
  {
    if i == |t| {
      MovedAll(t, u);
    } else {
      OccupiedFromStep(t, i);
      if t[i].dib == 0 {
        ReinsertKeepsContents(t, h, i + 1, u);
      } else {
        GapFromCount(u);
        var v := Insert(u, Home(t[i].hash, |u|), t[i].(dib := 1), false).table;
        ReinsertOne(t, h, i, u, v);
        ReinsertKeepsContents(t, h, i + 1, v);
      }
    }
  }

  lemma ReinsertOne<K, V>(t: Table<K, V>, h: K -> nat, i: nat, u: Table<K, V>, v: Table<K, V>)
    requires i < |t| && t[i].dib > 0 && Intact(t, h) && Intact(u, h) && Moved(t, i, u)
    requires HasGap(u) && !Blocked(u, Home(t[i].hash, |u|), 1)
    requires v == Insert(u, Home(t[i].hash, |u|), t[i].(dib := 1), false).table
    ensures |v| == |u| && Intact(v, h) && Moved(t, i + 1, v)
    ensures |Occupied(v)| == |Occupied(u)| + 1
  {
    var home := Home(t[i].hash, |u|);
    var e := t[i].(dib := 1);
    CarriedAtHome(u, h, e.item);
    assert !HasKey(u, e.item.key);
    InsertStores(u, h, home, e, false);
    InsertOccupies(u, home, e, false);
    MovedOne(t, i, u, v);
  }

  lemma MovedOne<K, V>(t: Table<K, V>, i: nat, u: Table<K, V>, v: Table<K, V>)
    requires i < |t| && t[i].dib > 0
    requires Unique(t) && Unique(u) && Unique(v) && Moved(t, i, u)
    requires Contents(v) == Contents(u)[t[i].item.key := t[i].item.value]
    ensures Moved(t, i + 1, v)
  {
  }

  lemma MovedAll<K, V>(t: Table<K, V>, u: Table<K, V>)
    requires Unique(t) && Unique(u) && Moved(t, |t|, u)
    ensures Contents(u) == Contents(t)
    ensures OccupiedFrom(t, |t|) == {}
  {
    forall k | k in Contents(t) ensures k in Contents(u) {
      assert HasKey(t, k);
    }
    assert Contents(u).Keys == Contents(t).Keys;
  }

  // ---------- enumeration ----------

  /** The items of the slots from i on, in slot order. */
  ghost function Items<K, V>(t: Table<K, V>, i: nat): seq<Item<K, V>>
    requires i <= |t|
    decreases |t| - i
  {
    if i == |t| then []
    else if t[i].dib > 0 then [t[i].item] + Items(t, i + 1)
    else Items(t, i + 1)
  }

  ghost function OccupiedBetween<K, V>(t: Table<K, V>, i: nat, k: nat): set<nat>
    requires k <= |t|
  {
    set j: nat | i <= j < k && t[j].dib > 0
  }

  /** Item a is that of the slot with a occupied slots before it. */
  lemma {:induction false} ItemSlot<K, V>(t: Table<K, V>, i: nat, a: nat) returns (k: nat)
    requires i <= |t| && a < |Items(t, i)|
    ensures i <= k < |t| && t[k].dib > 0 && t[k].item == Items(t, i)[a] && |OccupiedBetween(t, i, k)| == a
    decreases |t| - i
  {
    if t[i].dib == 0 {
      k := ItemSlot(t, i + 1, a);
      assert OccupiedBetween(t, i, k) == OccupiedBetween(t, i + 1, k);
    } else if a == 0 {
      k := i;
      assert OccupiedBetween(t, i, k) == {};
    } else {
      k := ItemSlot(t, i + 1, a - 1);
      assert OccupiedBetween(t, i, k) == OccupiedBetween(t, i + 1, k) + {i};
    }
  }

  ghost predicate StoredFrom<K, V>(t: Table<K, V>, i: nat, x: Item<K, V>) {
    exists k: nat :: i <= k < |t| && t[k].dib > 0 && t[k].item == x
  }

  /** The items are those of the occupied slots, each once. */
  lemma {:induction false} ItemsAre<K, V>(t: Table<K, V>, i: nat)
    requires i <= |t| && Unique(t)
    ensures |Items(t, i)| == |OccupiedFrom(t, i)|
    ensures forall a: nat | a < |Items(t, i)| :: StoredFrom(t, i, Items(t, i)[a])
    ensures forall k: nat | i <= k < |t| && t[k].dib > 0 :: t[k].item in Items(t, i)
    ensures forall a: nat, b: nat | a < b < |Items(t, i)| :: Items(t, i)[a].key != Items(t, i)[b].key
    decreases |t| - i
  {
    if i < |t| {
      ItemsAre(t, i + 1);
      OccupiedFromStep(t, i);
      var rest := Items(t, i + 1);
      forall a: nat | a < |rest|
        ensures StoredFrom(t, i, rest[a]) && (t[i].dib > 0 ==> rest[a].key != t[i].item.key)
      {
        assert StoredFrom(t, i + 1, rest[a]);
      }
    }
  }

  /** One pass over the table gives every pair of the map, and each key once. */
  lemma ItemsAreContents<K, V>(t: Table<K, V>)
    requires Unique(t)
    ensures forall k, v :: Item(k, v) in Items(t, 0) <==> k in Contents(t) && Contents(t)[k] == v
    ensures forall a: nat, b: nat | a < b < |Items(t, 0)| :: Items(t, 0)[a].key != Items(t, 0)[b].key
    ensures |Items(t, 0)| == |Occupied(t)|
  {
    ItemsAre(t, 0);
    assert OccupiedFrom(t, 0) == Occupied(t);
    forall k, v ensures Item(k, v) in Items(t, 0) <==> k in Contents(t) && Contents(t)[k] == v {
      var x := Item(k, v);
      if x in Items(t, 0) {
        var a: nat :| a < |Items(t, 0)| && Items(t, 0)[a] == x;
        assert StoredFrom(t, 0, x);
        assert Contents(t)[k] == v;
      }
      if k in Contents(t) && Contents(t)[k] == v {
        assert HasKey(t, k);
        var i: nat :| i < |t| && t[i].dib > 0 && t[i].item.key == k;
        assert t[i].item == x;
        assert x in Items(t, 0);
      }
    }
  }
}
