/** Node and key identifiers (32 bytes), their XOR distance, and the geometry of the buckets
    that the distance from our own id defines (src/list.c, src/bucket.c). */
module Ids {

  const ID_LENGTH: nat := 32
  const ID_BITS: nat := 256

  type Bytes = s: seq<bv8> | |s| == 32 witness seq(32, _ => 0)

  datatype HashID = HashID(bytes: Bytes)

  datatype Peer = Peer(id: HashID, addr: nat)

  /** dist_hash */
  function Xor(a: HashID, b: HashID): (r: HashID)
    ensures forall i: nat | i < ID_LENGTH :: r.bytes[i] == a.bytes[i] ^ b.bytes[i]
  {
    HashID(seq(ID_LENGTH, i requires 0 <= i < ID_LENGTH => a.bytes[i] ^ b.bytes[i]))
  }

  // ---------- the order that memcmp and compare_hashes decide ----------

  /** Lexicographic order of the bytes from position i on. */
  predicate LessFrom(a: HashID, b: HashID, i: nat)
    decreases ID_LENGTH - i
  {
    i < ID_LENGTH && (a.bytes[i] < b.bytes[i] || (a.bytes[i] == b.bytes[i] && LessFrom(a, b, i + 1)))
  }

  predicate Less(a: HashID, b: HashID) {
    LessFrom(a, b, 0)
  }

  ghost predicate FirstDifference(a: HashID, b: HashID, i: nat) {
    i < ID_LENGTH && a.bytes[i] != b.bytes[i] && forall j: nat | j < i :: a.bytes[j] == b.bytes[j]
  }

  /** The first difference decides. */
  lemma {:induction false} FirstDifferenceDecides(a: HashID, b: HashID, i: nat, from: nat)
    requires from <= i && FirstDifference(a, b, i)
    ensures LessFrom(a, b, from) <==> a.bytes[i] < b.bytes[i]
    decreases i - from
  {
    if from < i {
      FirstDifferenceDecides(a, b, i, from + 1);
    }
  }

  /** Less is a strict total order. */
  lemma LessIsTotal(a: HashID, b: HashID)
    ensures a == b ==> !Less(a, b)
    ensures a != b ==> (Less(a, b) <==> !Less(b, a))
  {
    LessFromIsTotal(a, b, 0);
  }

  lemma {:induction false} LessFromIsTotal(a: HashID, b: HashID, i: nat)
    requires i <= ID_LENGTH
    ensures a.bytes[i..] == b.bytes[i..] ==> !LessFrom(a, b, i)
    ensures a.bytes[i..] != b.bytes[i..] ==> (LessFrom(a, b, i) <==> !LessFrom(b, a, i))
    decreases ID_LENGTH - i
  {
    if i < ID_LENGTH {
      assert a.bytes[i..] == [a.bytes[i]] + a.bytes[i + 1..] && b.bytes[i..] == [b.bytes[i]] + b.bytes[i + 1..];
      LessFromIsTotal(a, b, i + 1);
    }
  }

  lemma LessIsTransitive(a: HashID, b: HashID, c: HashID)
    requires Less(a, b) && Less(b, c)
    ensures Less(a, c)
  {
    LessFromIsTransitive(a, b, c, 0);
  }

  lemma {:induction false} LessFromIsTransitive(a: HashID, b: HashID, c: HashID, i: nat)
    requires LessFrom(a, b, i) && LessFrom(b, c, i)
    ensures LessFrom(a, c, i)
    decreases ID_LENGTH - i
  {
    if a.bytes[i] == b.bytes[i] && b.bytes[i] == c.bytes[i] {
      LessFromIsTransitive(a, b, c, i + 1);
    }
  }

  // ---------- closeness to a target ----------

  predicate Closer(p: HashID, q: HashID, target: HashID) {
    Less(Xor(p, target), Xor(q, target))
  }

  lemma XorCancels(a: HashID, b: HashID, target: HashID)
    requires Xor(a, target) == Xor(b, target)
    ensures a == b
  {
    XorTwice(a, target);
    XorTwice(b, target);
  }

  lemma XorTwice(a: HashID, t: HashID)
    ensures Xor(Xor(a, t), t) == a
  {
    forall i: nat | i < ID_LENGTH ensures Xor(Xor(a, t), t).bytes[i] == a.bytes[i] {
      XorByteTwice(a.bytes[i], t.bytes[i]);
    }
  }

  lemma XorByteTwice(x: bv8, t: bv8)
    ensures (x ^ t) ^ t == x
  {
  }

  /** Distinct ids are never equally close. */
  lemma CloserIsTotal(p: HashID, q: HashID, target: HashID)
    ensures p == q ==> !Closer(p, q, target)
    ensures p != q ==> (Closer(p, q, target) <==> !Closer(q, p, target))
  {
    if Xor(p, target) == Xor(q, target) {
      XorCancels(p, q, target);
    }
    LessIsTotal(Xor(p, target), Xor(q, target));
  }

  lemma CloserIsTransitive(p: HashID, q: HashID, r: HashID, target: HashID)
    requires Closer(p, q, target) && Closer(q, r, target)
    ensures Closer(p, r, target)
  {
    LessIsTransitive(Xor(p, target), Xor(q, target), Xor(r, target));
  }

  // ---------- bits ----------

  predicate ByteBit(x: bv8, k: nat)
    requires k < 8
  {
    x & (0x80 >> k) != 0
  }

  /** Bit 0 is the most significant bit of the first byte. */
  predicate Bit(a: HashID, k: nat)
    requires k < ID_BITS
  {
    ByteBit(a.bytes[k / 8], k % 8)
  }

  lemma XorMask(x: bv8, y: bv8, m: bv8)
    requires m & (m - 1) == 0
    ensures (x ^ y) & m != 0 <==> (x & m != 0) != (y & m != 0)
  {
  }

  lemma XorByteBit(x: bv8, y: bv8, k: nat)
    requires k < 8
    ensures ByteBit(x ^ y, k) <==> ByteBit(x, k) != ByteBit(y, k)
  {
    OneBit(k);
    XorMask(x, y, 0x80 >> k);
  }

  lemma OneBit(k: nat)
    requires k < 8
    ensures var m: bv8 := 0x80 >> k; m & (m - 1) == 0
  {
    var m: bv8 := 0x80 >> k;
    assert m == 0x80 || m == 0x40 || m == 0x20 || m == 0x10 || m == 0x08 || m == 0x04 || m == 0x02 || m == 0x01;
  }

  /** The eight tests written with constant masks. */
  lemma ByteBits(x: bv8)
    ensures ByteBit(x, 0) <==> x & 0x80 != 0
    ensures ByteBit(x, 1) <==> x & 0x40 != 0
    ensures ByteBit(x, 2) <==> x & 0x20 != 0
    ensures ByteBit(x, 3) <==> x & 0x10 != 0
    ensures ByteBit(x, 4) <==> x & 0x08 != 0
    ensures ByteBit(x, 5) <==> x & 0x04 != 0
    ensures ByteBit(x, 6) <==> x & 0x02 != 0
    ensures ByteBit(x, 7) <==> x & 0x01 != 0
  {
  }

  lemma XorBit(a: HashID, b: HashID, k: nat)
    requires k < ID_BITS
    ensures Bit(Xor(a, b), k) <==> Bit(a, k) != Bit(b, k)
  {
    var x, y, m := a.bytes[k / 8], b.bytes[k / 8], k % 8;
    assert Xor(a, b).bytes[k / 8] == x ^ y;
    XorByteBit(x, y, m);
  }

  lemma SameByte(x: bv8, y: bv8)
    requires forall k: nat | k < 8 :: ByteBit(x, k) == ByteBit(y, k)
    ensures x == y
  {
    ByteBits(x);
    ByteBits(y);
    assert ByteBit(x, 0) == ByteBit(y, 0) && ByteBit(x, 1) == ByteBit(y, 1);
    assert ByteBit(x, 2) == ByteBit(y, 2) && ByteBit(x, 3) == ByteBit(y, 3);
    assert ByteBit(x, 4) == ByteBit(y, 4) && ByteBit(x, 5) == ByteBit(y, 5);
    assert ByteBit(x, 6) == ByteBit(y, 6) && ByteBit(x, 7) == ByteBit(y, 7);
  }

  lemma SmallerByte(x: bv8, y: bv8, k: nat)
    requires k < 8 && !ByteBit(x, k) && ByteBit(y, k)
    requires forall j: nat | j < k :: ByteBit(x, j) == ByteBit(y, j)
    ensures x < y
  {
    ByteBits(x);
    ByteBits(y);
    assert k > 0 ==> ByteBit(x, 0) == ByteBit(y, 0);
    assert k > 1 ==> ByteBit(x, 1) == ByteBit(y, 1);
    assert k > 2 ==> ByteBit(x, 2) == ByteBit(y, 2);
    assert k > 3 ==> ByteBit(x, 3) == ByteBit(y, 3);
    assert k > 4 ==> ByteBit(x, 4) == ByteBit(y, 4);
    assert k > 5 ==> ByteBit(x, 5) == ByteBit(y, 5);
    assert k > 6 ==> ByteBit(x, 6) == ByteBit(y, 6);
  }

  /** The byte order is the bit order. */
  lemma LessByBit(a: HashID, b: HashID, k: nat)
    requires k < ID_BITS && !Bit(a, k) && Bit(b, k)
    requires forall j: nat | j < k :: Bit(a, j) == Bit(b, j)
    ensures Less(a, b)
  {
    var i := k / 8;
    forall m: nat | m < i ensures a.bytes[m] == b.bytes[m] {
      forall j: nat | j < 8 ensures ByteBit(a.bytes[m], j) == ByteBit(b.bytes[m], j) {
        assert (8 * m + j) / 8 == m && (8 * m + j) % 8 == j;
        assert Bit(a, 8 * m + j) == Bit(b, 8 * m + j);
      }
      SameByte(a.bytes[m], b.bytes[m]);
    }
    forall j: nat | j < k % 8 ensures ByteBit(a.bytes[i], j) == ByteBit(b.bytes[i], j) {
      assert (8 * i + j) / 8 == i && (8 * i + j) % 8 == j;
      assert Bit(a, 8 * i + j) == Bit(b, 8 * i + j);
    }
    SmallerByte(a.bytes[i], b.bytes[i], k % 8);
    FirstDifferenceDecides(a, b, i, 0);
  }

  // ---------- bucket indexes ----------

  /** The first k bits of d are zero. */
  ghost predicate ZeroBits(d: HashID, k: nat)
    requires k <= ID_BITS
  {
    k == 0 || (ZeroBits(d, k - 1) && !Bit(d, k - 1))
  }

  lemma {:induction false} ZeroBitsAll(d: HashID, k: nat)
    requires k <= ID_BITS
    ensures ZeroBits(d, k) <==> forall j: nat | j < k :: !Bit(d, j)
  {
    if k > 0 {
      ZeroBitsAll(d, k - 1);
    }
  }

  /** k is the position of the first set bit of d. */
  ghost predicate Leads(d: HashID, k: nat) {
    k < ID_BITS && Bit(d, k) && ZeroBits(d, k)
  }

  lemma LeadIsUnique(d: HashID, j: nat, k: nat)
    requires Leads(d, j) && Leads(d, k)
    ensures j == k
  {
    ZeroBitsAll(d, j);
    ZeroBitsAll(d, k);
  }

  /** What get_bucket_index returns: -1 for the distance to ourselves. */
  ghost function BucketIndex(d: HashID): (r: int)
    ensures r >= 0 ==> Leads(d, r)
    ensures r < 0 ==> r == -1 && ZeroBits(d, ID_BITS)
  {
    if j: nat :| Leads(d, j) then j
    else
      NoLead(d, ID_BITS);
      -1
  }

  lemma BucketIndexIs(d: HashID, k: nat)
    requires Leads(d, k)
    ensures BucketIndex(d) == k
  {
    ZeroBitsAll(d, ID_BITS);
    if BucketIndex(d) >= 0 {
      LeadIsUnique(d, k, BucketIndex(d));
    }
  }

  lemma {:induction false} NoLead(d: HashID, n: nat)
    requires n <= ID_BITS && forall k: nat :: !Leads(d, k)
    ensures ZeroBits(d, n)
  {
    if n > 0 {
      NoLead(d, n - 1);
      assert !Leads(d, n - 1);
    }
  }

  /** Only our own id is at the distance that has no bucket. */
  lemma NoBucketForOurselves(a: HashID, b: HashID)
    ensures BucketIndex(Xor(a, b)) == -1 <==> a == b
  {
    if a == b {
      forall k: nat | k < ID_BITS ensures !Bit(Xor(a, b), k) {
        XorBit(a, b, k);
      }
      ZeroBitsAll(Xor(a, b), ID_BITS);
    } else if BucketIndex(Xor(a, b)) == -1 {
      ZeroBitsAll(Xor(a, b), ID_BITS);
      forall i: nat | i < ID_LENGTH ensures a.bytes[i] == b.bytes[i] {
        forall j: nat | j < 8 ensures ByteBit(a.bytes[i], j) == ByteBit(b.bytes[i], j) {
          assert (8 * i + j) / 8 == i && (8 * i + j) % 8 == j;
          XorBit(a, b, 8 * i + j);
        }
        SameByte(a.bytes[i], b.bytes[i]);
      }
    }
  }

  /** The order of two buckets in closeness to a target at distance d from ourselves: of two
      buckets the bit of d at the lower index decides. */
  predicate Ahead(d: HashID, j: nat, l: nat) {
    j < ID_BITS && l < ID_BITS && if j < l then Bit(d, j) else !Bit(d, l)
  }

  lemma BitsToTarget(own: HashID, p: HashID, target: HashID, m: nat)
    requires m < ID_BITS
    ensures Bit(Xor(p, target), m) == (Bit(Xor(own, p), m) != Bit(Xor(own, target), m))
  {
    XorBit(own, p, m);
    XorBit(own, target, m);
    XorBit(p, target, m);
  }

  lemma LowerBucketAhead(own: HashID, target: HashID, p: HashID, j: nat, q: HashID, l: nat)
    requires Leads(Xor(own, p), j) && Leads(Xor(own, q), l) && j < l
    ensures if Bit(Xor(own, target), j) then Closer(p, q, target) else Closer(q, p, target)
  {
    ZeroBitsAll(Xor(own, p), j);
    ZeroBitsAll(Xor(own, q), l);
    forall m: nat | m <= j
      ensures Bit(Xor(p, target), m) == (Bit(Xor(own, p), m) != Bit(Xor(own, target), m))
      ensures Bit(Xor(q, target), m) == (Bit(Xor(own, q), m) != Bit(Xor(own, target), m))
    {
      BitsToTarget(own, p, target, m);
      BitsToTarget(own, q, target, m);
    }
    if Bit(Xor(own, target), j) {
      LessByBit(Xor(p, target), Xor(q, target), j);
    } else {
      LessByBit(Xor(q, target), Xor(p, target), j);
    }
  }

  /** All peers of one bucket are closer to the target than all peers of another if and only
      if the bucket is ahead of the other. */
  lemma BucketsOrderCloseness(own: HashID, target: HashID, p: HashID, j: nat, q: HashID, l: nat)
    requires Leads(Xor(own, p), j) && Leads(Xor(own, q), l) && j != l
    ensures Closer(p, q, target) <==> Ahead(Xor(own, target), j, l)
  {
    CloserIsTotal(p, q, target);
    if j < l {
      LowerBucketAhead(own, target, p, j, q, l);
    } else {
      LowerBucketAhead(own, target, q, l, p, j);
    }
    CloserIsTotal(q, p, target);
  }

  /** Where bucket j stands in closeness to a target in bucket b of the same table: first b
      itself, then all buckets above b together, then b-1, b-2 and so on. */
  function Rank(b: nat, j: nat): nat {
    if j == b then 0 else if j > b then 1 else 2 + (b - 1 - j)
  }

  /** A bucket of lower rank is ahead. */
  lemma RankIsAhead(d: HashID, b: nat, j: nat, l: nat)
    requires Leads(d, b) && j < ID_BITS && l < ID_BITS && Rank(b, j) < Rank(b, l)
    ensures Ahead(d, j, l)
  {
    ZeroBitsAll(d, b);
  }

  /** The eight buckets of the table hold a distance exactly when its first byte is not 0. */
  lemma FirstByteDecides(d: HashID, k: nat)
    requires Leads(d, k)
    ensures k < 8 <==> d.bytes[0] != 0
  {
    ZeroBitsAll(d, k);
    if k < 8 {
      ByteBits(d.bytes[0]);
      assert k / 8 == 0 && k % 8 == k;
    } else {
      forall j: nat | j < 8 ensures ByteBit(d.bytes[0], j) == ByteBit(0, j) {
        assert !Bit(d, j);
        ByteBits(0);
      }
      SameByte(d.bytes[0], 0);
    }
  }

  // ---------- the code ----------

  /** get_bucket_index */
  method GetBucketIndex(distance: HashID) returns (r: int)
    ensures r == BucketIndex(distance)
  {
    for byte := 0 to ID_LENGTH
      invariant forall k: nat | k < 8 * byte :: !Bit(distance, k)
    {
      for bit := 0 to 8
        invariant forall k: nat | k < 8 * byte + bit :: !Bit(distance, k)
      {
        assert (8 * byte + bit) / 8 == byte && (8 * byte + bit) % 8 == bit;
        if distance.bytes[byte] & (0x80 >> bit) != 0 {
          ZeroBitsAll(distance, byte * 8 + bit);
          BucketIndexIs(distance, byte * 8 + bit);
          return byte * 8 + bit;
        }
      }
    }
    ZeroBitsAll(distance, ID_BITS);
    assert BucketIndex(distance) < 0;
    return -1;
  }

  /** dist_hash: fills result in place. */
  method DistHash(result: array<bv8>, id1: HashID, id2: HashID)
    requires result.Length == ID_LENGTH
    modifies result
    ensures result[..] == Xor(id1, id2).bytes
  {
    for i := 0 to ID_LENGTH
      invariant forall j: nat | j < i :: result[j] == id1.bytes[j] ^ id2.bytes[j]
    {
      result[i] := id1.bytes[i] ^ id2.bytes[i];
    }
  }

  /** compare_hashes */
  method CompareHashes(dist1: HashID, dist2: HashID) returns (r: int)
    ensures -1 <= r <= 1
    ensures r < 0 <==> Less(dist1, dist2)
    ensures r > 0 <==> Less(dist2, dist1)
    ensures r == 0 <==> dist1 == dist2
  {
    LessIsTotal(dist1, dist2);
    for i := 0 to ID_LENGTH
      invariant forall j: nat | j < i :: dist1.bytes[j] == dist2.bytes[j]
    {
      if dist1.bytes[i] < dist2.bytes[i] {
        FirstDifferenceDecides(dist1, dist2, i, 0);
        return -1;
      }
      if dist1.bytes[i] > dist2.bytes[i] {
        FirstDifferenceDecides(dist2, dist1, i, 0);
        return 1;
      }
    }
    return 0;
  }
}
