/** A routing table, and a way to fill it, from which find_closest_peers returns a peer twice. */
module Repetition {
  import opened Buckets
  import opened Ids
  import opened Nearest
  import opened NodeLookup
  import opened Options
  import opened SearchOrder

  // ---------- every table that keeps the invariant can come about ----------

  lemma {:induction false} FlatSize(bs: seq<seq<Peer>>, lo: nat, hi: nat, i: nat, p: Peer)
    requires lo <= hi <= |bs| && i < |bs|
    ensures var u := bs[i := [p] + bs[i]];
            |Flat(u, lo, hi)| == |Flat(bs, lo, hi)| + (if lo <= i < hi then 1 else 0)
    decreases hi - lo
  {
    if lo < hi {
      FlatSize(bs, lo, hi - 1, i, p);
    }
  }

  lemma Shorter(bs: seq<seq<Peer>>, i: nat)
    requires i < |bs| && bs[i] != []
    ensures |All(bs[i := bs[i][1..]])| + 1 == |All(bs)|
  {
    var front := bs[i := bs[i][1..]];
    FlatSize(front, 0, |bs|, i, bs[i][0]);
    assert [bs[i][0]] + bs[i][1..] == bs[i];
    assert front[i := [bs[i][0]] + front[i]] == bs;
  }

  lemma {:induction false} AllEmpty(bs: seq<seq<Peer>>, hi: nat)
    requires hi <= |bs| && forall i: nat | i < |bs| :: bs[i] == []
    ensures Flat(bs, 0, hi) == []
  {
    if hi > 0 {
      AllEmpty(bs, hi - 1);
    }
  }

  lemma FrontPlaced(own: HashID, bs: seq<seq<Peer>>, i: nat, p: Peer, rest: seq<Peer>)
    requires WellPlaced(own, bs) && i < |bs| && bs[i] == [p] + rest
    ensures WellPlaced(own, bs[i := rest])
    ensures BucketIndex(Xor(own, p.id)) == i && !HasId(rest, p.id) && |rest| < BUCKET_SIZE
  {
    assert PlacedAt(own, bs[i], i);
    DistinctSplit([p], rest);
    BucketIndexIs(Xor(own, p.id), i);
    var front := bs[i := rest];
    forall j: nat | j < |bs| ensures PlacedAt(own, front[j], j) {
      assert PlacedAt(own, bs[j], j);
    }
  }

  lemma TakeOne(own: HashID, bs: seq<seq<Peer>>, i: nat)
    requires WellPlaced(own, bs) && i < |bs| && bs[i] != []
    ensures var front := bs[i := bs[i][1..]];
            && WellPlaced(own, front)
            && BucketIndex(Xor(own, bs[i][0].id)) == i
            && Updated(Some(own), front, bs[i][0]) == bs
  {
    var front, p := bs[i := bs[i][1..]], bs[i][0];
    assert bs[i] == [p] + bs[i][1..];
    FrontPlaced(own, bs, i, p, bs[i][1..]);
    assert Added(front, i, p) == bs;
  }

  /** A run of updates fills the table with exactly these buckets. */
  ghost predicate FilledBy(own: HashID, bs: seq<seq<Peer>>, peers: seq<Peer>) {
    InRange(own, |bs|, peers) && UpdatedAll(own, NoPeers(|bs|), peers) == bs
  }

  lemma {:induction false} EveryTableIsReached(own: HashID, bs: seq<seq<Peer>>) returns (peers: seq<Peer>)
    requires WellPlaced(own, bs)
    ensures FilledBy(own, bs, peers)
    decreases |All(bs)|
  {
    if i: nat :| i < |bs| && bs[i] != [] {
      var front, p := bs[i := bs[i][1..]], bs[i][0];
      Shorter(bs, i);
      TakeOne(own, bs, i);
      var before := EveryTableIsReached(own, front);
      peers := before + [p];
      LookupModel.UpdatedAllConcat(own, NoPeers(|bs|), before, [p]);
      assert UpdatedAll(own, front, [p]) == UpdatedAll(own, Updated(Some(own), front, p), []) by {
        assert [p][0] in [p] && [p][1..] == [];
      }
    } else {
      peers := [];
      assert bs == NoPeers(|bs|);
    }
  }

  // ---------- the table ----------

  /** The id with this first byte and 31 zeros. */
  function IdOf(first: bv8): HashID {
    HashID([first] + seq(ID_LENGTH - 1, _ => 0))
  }

  const OWN: HashID := IdOf(0)
  const TARGET: HashID := IdOf(0x80)
  const FAR: Peer := Peer(IdOf(0x43), 1)
  const MIDDLE: Peer := Peer(IdOf(0x42), 2)
  const NEAR: Peer := Peer(IdOf(0x41), 3)

  // Two peers in the bucket of the target, and three in the next one, the nearest of them last.
  const TABLE: seq<seq<Peer>> := [[Peer(IdOf(0x81), 4), Peer(IdOf(0x82), 5)], [FAR, MIDDLE, NEAR]]

  lemma FirstByteLeads(a: bv8, b: bv8, k: nat)
    requires k < 3
    requires if k == 0 then (a ^ b) & 0x80 != 0
             else (a ^ b) & 0x80 == 0 && (if k == 1 then (a ^ b) & 0x40 != 0
                                          else (a ^ b) & 0x40 == 0 && (a ^ b) & 0x20 != 0)
    ensures Leads(Xor(IdOf(a), IdOf(b)), k)
  {
    var d := Xor(IdOf(a), IdOf(b));
    assert d.bytes[0] == a ^ b;
    ByteBits(d.bytes[0]);
    assert ZeroBits(d, 0) && (k > 0 ==> ZeroBits(d, 1)) && (k > 1 ==> ZeroBits(d, 2));
  }

  lemma FirstByteLess(d: HashID, e: HashID)
    requires d.bytes[0] < e.bytes[0]
    ensures Less(d, e) && !Less(e, d)
  {
    LessIsTotal(d, e);
  }

  lemma FirstByteCloser(a: bv8, b: bv8, c: bv8)
    requires a ^ c < b ^ c
    ensures Closer(IdOf(a), IdOf(b), IdOf(c)) && !Closer(IdOf(b), IdOf(a), IdOf(c))
  {
    FirstByteLess(Xor(IdOf(a), IdOf(c)), Xor(IdOf(b), IdOf(c)));
  }

  /** find_nearest on the three peers of the second bucket, with room for two: the nearest comes
      last, beats both entries and overwrites both. */
  lemma ThreeForTwo()
    ensures DistinctIds([FAR, MIDDLE, NEAR])
    ensures Select([FAR, MIDDLE, NEAR], TARGET, 2) == [NEAR, NEAR] && !Gentle([FAR, MIDDLE, NEAR], TARGET, 2)
  {
    FirstByteCloser(0x41, 0x42, 0x80);
    FirstByteCloser(0x41, 0x43, 0x80);
    FirstByteCloser(0x42, 0x43, 0x80);
    var peers := [FAR, MIDDLE, NEAR];
    assert peers[..2] == [FAR, MIDDLE];
    SelectAll([FAR, MIDDLE], TARGET, 2);
    assert ReplaceFarther([FAR, MIDDLE], NEAR, TARGET) == [NEAR, NEAR];
    LessIsTotal(Xor(FAR.id, TARGET), Xor(FAR.id, TARGET));
    assert FAR.id != MIDDLE.id && FAR.id != NEAR.id && MIDDLE.id != NEAR.id by {
      assert FAR.id.bytes[0] == 0x43 && MIDDLE.id.bytes[0] == 0x42 && NEAR.id.bytes[0] == 0x41;
    }
    SelectsKNearestIff(peers, TARGET, 2);
    var u := [NEAR, NEAR];
    assert u[0].id == u[1].id;
  }

  lemma TableIsPlaced()
    ensures WellPlaced(OWN, TABLE)
  {
    var first, second := TABLE[0], TABLE[1];
    ThreeForTwo();
    FirstByteLeads(0, 0x81, 0);
    FirstByteLeads(0, 0x82, 0);
    FirstByteLeads(0, 0x41, 1);
    FirstByteLeads(0, 0x42, 1);
    FirstByteLeads(0, 0x43, 1);
    assert first[0].id.bytes[0] == 0x81 && first[1].id.bytes[0] == 0x82;
    assert PlacedAt(OWN, first, 0) && PlacedAt(OWN, second, 1);
  }

  lemma TableSearch()
    ensures Search(TABLE, 0, TARGET, K_VALUE) == TABLE[0] + [NEAR, NEAR]
  {
    ThreeForTwo();
    SelectAll(TABLE[0], TARGET, K_VALUE);
    OutwardRound(TABLE, 0, TARGET, K_VALUE, TABLE[0], 1);
  }

  lemma RepetitionShows(own: HashID, bs: seq<seq<Peer>>, b: nat, target: HashID, r: seq<Peer>)
    requires WellPlaced(own, bs) && b < |bs| && BucketIndex(Xor(own, target)) == b
    requires r == Search(bs, b, target, K_VALUE) && |r| == K_VALUE && !DistinctIds(r)
    ensures !NoRepetition(own, bs, target, K_VALUE)
  {
    SearchFills(bs, b, target, K_VALUE);
    forall w | SearchFor(w, own, bs, b, target, K_VALUE) ensures !GentleAtCut(w) {
      NoRepetitionIff(w, r);
    }
  }

  /** The search of that table for four peers returns the nearest peer of the second bucket
      twice, and FIND_NODE for the target goes wrong on some network. */
  lemma SearchRepeats()
    ensures WellPlaced(OWN, TABLE) && BucketIndex(Xor(OWN, TARGET)) == 0
    ensures Search(TABLE, 0, TARGET, K_VALUE) == TABLE[0] + [NEAR, NEAR]
    ensures !NoRepetition(OWN, TABLE, TARGET, K_VALUE)
  {
    TableIsPlaced();
    FirstByteLeads(0, 0x80, 0);
    BucketIndexIs(Xor(OWN, TARGET), 0);
    TableSearch();
    var r := TABLE[0] + [NEAR, NEAR];
    assert r[2].id == r[3].id;
    RepetitionShows(OWN, TABLE, 0, TARGET, r);
  }

  // ---------- a table that is searched out of order ----------

  const ASKED: HashID := IdOf(0x40)
  const CLOSER: Peer := Peer(IdOf(0x20), 5)
  const FARTHER: seq<Peer> := [Peer(IdOf(0x81), 1), Peer(IdOf(0x82), 2), Peer(IdOf(0x83), 3), Peer(IdOf(0x84), 4)]

  // The bucket of the asked id is empty; the one below it is full, the one above it holds one peer.
  const SKEWED: seq<seq<Peer>> := [FARTHER, [], [CLOSER]]

  lemma FartherAreFarther()
    ensures DistinctIds(FARTHER) && forall x | x in FARTHER :: Closer(CLOSER.id, x.id, ASKED)
  {
    FirstByteCloser(0x20, 0x81, 0x40);
    FirstByteCloser(0x20, 0x82, 0x40);
    FirstByteCloser(0x20, 0x83, 0x40);
    FirstByteCloser(0x20, 0x84, 0x40);
    assert FARTHER[0].id.bytes[0] == 0x81 && FARTHER[1].id.bytes[0] == 0x82;
    assert FARTHER[2].id.bytes[0] == 0x83 && FARTHER[3].id.bytes[0] == 0x84;
  }

  lemma SkewedIsPlaced()
    ensures WellPlaced(OWN, SKEWED)
  {
    FartherAreFarther();
    FirstByteLeads(0, 0x81, 0);
    FirstByteLeads(0, 0x82, 0);
    FirstByteLeads(0, 0x83, 0);
    FirstByteLeads(0, 0x84, 0);
    FirstByteLeads(0, 0x20, 2);
    assert PlacedAt(OWN, FARTHER, 0) && PlacedAt(OWN, SKEWED[1], 1) && PlacedAt(OWN, SKEWED[2], 2);
  }

  lemma SkewedSearch()
    ensures Search(SKEWED, 1, ASKED, K_VALUE) == FARTHER
  {
    SelectAll([], ASKED, K_VALUE);
    SelectAll(FARTHER, ASKED, K_VALUE);
    OutwardRound(SKEWED, 1, ASKED, K_VALUE, [], 1);
    assert [] + FARTHER == FARTHER;
  }

  lemma CloserIsOutside()
    ensures CLOSER in All(SKEWED) && DistinctIds(FARTHER)
    ensures !IsKNearest(FARTHER, All(SKEWED), ASKED, K_VALUE)
  {
    FartherAreFarther();
    assert Flat(SKEWED, 0, 3) == Flat(SKEWED, 0, 2) + [CLOSER];
    CloserIsTotal(CLOSER.id, CLOSER.id, ASKED);
    CloserIsTotal(CLOSER.id, FARTHER[0].id, ASKED);
    assert FARTHER[0] in Elements(FARTHER) && CLOSER in Elements(All(SKEWED)) - Elements(FARTHER);
  }

  /** The search of that table for four peers leaves out a peer that is closer than all four,
      although find_nearest is right on every bucket. */
  lemma CloserIsLeftOut()
    ensures WellPlaced(OWN, SKEWED) && BucketIndex(Xor(OWN, ASKED)) == 1
    ensures Search(SKEWED, 1, ASKED, K_VALUE) == FARTHER && CLOSER in All(SKEWED)
    ensures forall x | x in FARTHER :: Closer(CLOSER.id, x.id, ASKED)
    ensures forall w | SearchFor(w, OWN, SKEWED, 1, ASKED, K_VALUE) :: GentleAtCut(w) && !OrderedAtCut(w)
  {
    CloserIsOutside();
    SkewedIsPlaced();
    FirstByteLeads(0, 0x40, 1);
    BucketIndexIs(Xor(OWN, ASKED), 1);
    SkewedSearch();
    FartherAreFarther();
    forall w | SearchFor(w, OWN, SKEWED, 1, ASKED, K_VALUE) ensures GentleAtCut(w) && !OrderedAtCut(w) {
      NoRepetitionIff(w, FARTHER);
      ClosestIff(w, FARTHER);
    }
  }
}
