/** What find_nearest (src/list.c) selects from one bucket, and exactly when that is the k
    nearest peers. */
module Nearest {
  import opened Ids
  import opened Sets

  // ---------- sets of peers ----------

  ghost function Elements(peers: seq<Peer>): set<Peer> {
    set p | p in peers
  }

  /** Peers of the set are told apart by their ids. */
  ghost predicate KeyedById(s: set<Peer>) {
    forall x, y | x in s && y in s && x.id == y.id :: x == y
  }

  /** near is made of the peers of all that are nearest to the target. */
  ghost predicate NearestIn(near: set<Peer>, all: set<Peer>, target: HashID) {
    near <= all && forall x, p | x in near && p in all - near :: Closer(x.id, p.id, target)
  }

  /** The members of s that p is closer than. */
  ghost function BeatenBy(p: Peer, s: set<Peer>, target: HashID): set<Peer> {
    set x | x in s && Closer(p.id, x.id, target)
  }

  ghost function CloserThan(p: Peer, s: set<Peer>, target: HashID): set<Peer> {
    set x | x in s && Closer(x.id, p.id, target)
  }

  lemma SplitByNewcomer(p: Peer, s: set<Peer>, target: HashID)
    requires KeyedById(s + {p}) && p !in s
    ensures CloserThan(p, s, target) == s - BeatenBy(p, s, target)
  {
    forall x | x in s ensures Closer(x.id, p.id, target) <==> !Closer(p.id, x.id, target) {
      assert x in s + {p} && p in s + {p};
      CloserIsTotal(x.id, p.id, target);
    }
  }

  /** Counting the newcomer's closer predecessors counts the nearest ones that it beats. */
  lemma BeatenCount(near: set<Peer>, all: set<Peer>, p: Peer, target: HashID)
    requires NearestIn(near, all, target) && KeyedById(all + {p}) && p !in all
    ensures |CloserThan(p, all, target)| + 1 >= |near| <==> |BeatenBy(p, near, target)| <= 1
  {
    var closer, beaten := CloserThan(p, all, target), BeatenBy(p, near, target);
    assert KeyedById(near + {p}) by {
      assert near + {p} <= all + {p};
    }
    SplitByNewcomer(p, near, target);
    assert CloserThan(p, near, target) <= closer;
    if beaten == {} {
      SubsetSize(near, closer);
    } else {
      var w :| w in beaten;
      forall x | x in closer ensures x in near {
        if x !in near {
          CloserIsTransitive(w.id, x.id, p.id, target);
          CloserIsTotal(w.id, p.id, target);
        }
      }
      assert closer == near - beaten;
    }
  }

  lemma NoneBeaten(near: set<Peer>, all: set<Peer>, p: Peer, target: HashID)
    requires NearestIn(near, all, target) && KeyedById(all + {p}) && p !in all
    requires BeatenBy(p, near, target) == {}
    ensures NearestIn(near, all + {p}, target)
  {
    assert KeyedById(near + {p}) by {
      assert near + {p} <= all + {p};
    }
    SplitByNewcomer(p, near, target);
    assert forall x | x in near :: x in CloserThan(p, near, target);
  }

  lemma OneBeaten(near: set<Peer>, all: set<Peer>, p: Peer, w: Peer, target: HashID)
    requires NearestIn(near, all, target) && KeyedById(all + {p}) && p !in all
    requires BeatenBy(p, near, target) == {w}
    ensures NearestIn(near - {w} + {p}, all + {p}, target)
  {
    assert KeyedById(near + {p}) by {
      assert near + {p} <= all + {p};
    }
    SplitByNewcomer(p, near, target);
    assert w in BeatenBy(p, near, target);
    var near' := near - {w} + {p};
    forall x, q | x in near' && q in all + {p} - near' ensures Closer(x.id, q.id, target) {
      if x == p {
        if q != w {
          CloserIsTransitive(p.id, w.id, q.id, target);
        }
      } else if q == w {
        assert x in CloserThan(p, near, target);
        CloserIsTransitive(x.id, p.id, w.id, target);
      }
    }
  }

  // ---------- sequences of peers ----------

  /** No two entries have the same id. */
  ghost predicate DistinctIds(peers: seq<Peer>) {
    forall i: nat, j: nat | i < j < |peers| :: peers[i].id != peers[j].id
  }

  lemma DistinctAreKeyed(peers: seq<Peer>)
    requires DistinctIds(peers)
    ensures KeyedById(Elements(peers))
  {
  }

  lemma ElementsSnoc(front: seq<Peer>, p: Peer)
    ensures Elements(front + [p]) == Elements(front) + {p}
  {
  }

  lemma {:induction false} DistinctCount(r: seq<Peer>)
    requires DistinctIds(r)
    ensures |Elements(r)| == |r|
  {
    if r != [] {
      var front, p := r[..|r| - 1], r[|r| - 1];
      assert r == front + [p];
      DistinctCount(front);
      ElementsSnoc(front, p);
      forall x | x in front ensures x != p {}
    }
  }

  /** r is a selection of the k peers nearest to the target. */
  ghost predicate IsKNearest(r: seq<Peer>, peers: seq<Peer>, target: HashID, k: nat) {
    && |r| == (if |peers| < k then |peers| else k)
    && DistinctIds(r)
    && NearestIn(Elements(r), Elements(peers), target)
  }

  /** One step on a full selection: the newcomer overwrites every entry that is farther. */
  ghost function ReplaceFarther(r: seq<Peer>, p: Peer, target: HashID): (u: seq<Peer>)
    ensures |u| == |r|
    ensures forall i: nat | i < |r| :: u[i] == if Closer(p.id, r[i].id, target) then p else r[i]
  {
    seq(|r|, i requires 0 <= i < |r| => if Closer(p.id, r[i].id, target) then p else r[i])
  }

  /** The entries that find_nearest leaves in a result with room for k. */
  ghost function Select(peers: seq<Peer>, target: HashID, k: nat): (r: seq<Peer>)
    ensures |r| == if |peers| < k then |peers| else k
  {
    if peers == [] || k == 0 then []
    else
      var p := peers[|peers| - 1];
      var r := Select(peers[..|peers| - 1], target, k);
      if |r| < k then r + [p] else ReplaceFarther(r, p, target)
  }

  lemma {:induction false} SelectsFromPeers(peers: seq<Peer>, target: HashID, k: nat)
    ensures Elements(Select(peers, target, k)) <= Elements(peers)
  {
    if peers != [] && k > 0 {
      SelectsFromPeers(peers[..|peers| - 1], target, k);
      var front, p := peers[..|peers| - 1], peers[|peers| - 1];
      var r := Select(front, target, k);
      assert peers == front + [p];
      ElementsSnoc(front, p);
      if |r| < k {
        ElementsSnoc(r, p);
      } else {
        forall x | x in ReplaceFarther(r, p, target) ensures x == p || x in Elements(r) {
        }
      }
    }
  }

  /** A bucket that fits is selected whole. */
  lemma {:induction false} SelectAll(peers: seq<Peer>, target: HashID, k: nat)
    requires |peers| <= k
    ensures Select(peers, target, k) == peers
  {
    if peers != [] {
      SelectAll(peers[..|peers| - 1], target, k);
    }
  }

  // ---------- when the selection is right ----------

  /** Every peer after the first k has at least k - 1 closer peers before it. */
  ghost predicate Gentle(peers: seq<Peer>, target: HashID, k: nat) {
    forall m: nat | k <= m < |peers| :: EnoughCloser(peers, target, k, m)
  }

  ghost predicate EnoughCloser(peers: seq<Peer>, target: HashID, k: nat, m: nat)
    requires m < |peers|
  {
    |CloserThan(peers[m], Elements(peers[..m]), target)| + 1 >= k
  }

  lemma GentleSnoc(front: seq<Peer>, p: Peer, target: HashID, k: nat)
    requires k <= |front|
    ensures Gentle(front + [p], target, k) <==>
            Gentle(front, target, k) && |CloserThan(p, Elements(front), target)| + 1 >= k
  {
    var peers := front + [p];
    forall m: nat | m < |front| ensures EnoughCloser(peers, target, k, m) == EnoughCloser(front, target, k, m) {
      assert front[..m] == peers[..m];
    }
    assert peers[..|front|] == front;
    if Gentle(peers, target, k) {
      assert EnoughCloser(peers, target, k, |front|);
      forall m: nat | k <= m < |front| ensures EnoughCloser(front, target, k, m) {
        assert EnoughCloser(peers, target, k, m);
      }
    }
    if Gentle(front, target, k) && EnoughCloser(peers, target, k, |front|) {
      forall m: nat | k <= m < |peers| ensures EnoughCloser(peers, target, k, m) {
        if m < |front| {
          assert EnoughCloser(front, target, k, m);
        }
      }
    }
  }

  lemma DuplicatesStay(r: seq<Peer>, p: Peer, target: HashID)
    requires !DistinctIds(r)
    ensures !DistinctIds(ReplaceFarther(r, p, target))
  {
    var i: nat, j: nat :| i < j < |r| && r[i].id == r[j].id;
    var u := ReplaceFarther(r, p, target);
    assert u[i].id == u[j].id;
  }

  lemma TwoBeaten(r: seq<Peer>, p: Peer, target: HashID)
    requires |BeatenBy(p, Elements(r), target)| > 1
    ensures !DistinctIds(ReplaceFarther(r, p, target))
  {
    var beaten := BeatenBy(p, Elements(r), target);
    var x :| x in beaten;
    assert |beaten - {x}| > 0;
    var y :| y in beaten - {x};
    var i: nat :| i < |r| && r[i] == x;
    var j: nat :| j < |r| && r[j] == y;
    var u := ReplaceFarther(r, p, target);
    assert u[i].id == u[j].id;
  }

  lemma NothingChanges(r: seq<Peer>, p: Peer, target: HashID)
    requires BeatenBy(p, Elements(r), target) == {}
    ensures ReplaceFarther(r, p, target) == r
  {
    forall i: nat | i < |r| ensures !Closer(p.id, r[i].id, target) {
      assert r[i] in Elements(r);
      assert r[i] !in BeatenBy(p, Elements(r), target);
    }
  }

  lemma OneChanges(r: seq<Peer>, p: Peer, w: Peer, target: HashID)
    requires DistinctIds(r) && BeatenBy(p, Elements(r), target) == {w}
    requires forall x | x in Elements(r) :: x.id != p.id
    ensures var u := ReplaceFarther(r, p, target);
            DistinctIds(u) && Elements(u) == Elements(r) - {w} + {p}
  {
    var u := ReplaceFarther(r, p, target);
    assert w in BeatenBy(p, Elements(r), target);
    var i: nat :| i < |r| && r[i] == w;
    forall j: nat | j < |r| && j != i ensures u[j] == r[j] {
      assert r[j] in Elements(r);
      assert r[j] !in BeatenBy(p, Elements(r), target);
    }
    assert u == r[i := p];
    Overwrite(r, i, p);
  }

  lemma Overwrite(r: seq<Peer>, i: nat, p: Peer)
    requires i < |r| && DistinctIds(r) && forall x | x in Elements(r) :: x.id != p.id
    ensures DistinctIds(r[i := p]) && Elements(r[i := p]) == Elements(r) - {r[i]} + {p}
  {
    var u := r[i := p];
    forall j: nat | j < |r| ensures r[j].id != p.id {
      assert r[j] in Elements(r);
    }
    assert DistinctIds(u);
    OverwriteElements(r, i, p);
  }

  lemma OverwriteElements(r: seq<Peer>, i: nat, p: Peer)
    requires i < |r| && DistinctIds(r)
    ensures Elements(r[i := p]) == Elements(r) - {r[i]} + {p}
  {
    var u := r[i := p];
    forall x | x in Elements(r) - {r[i]} ensures x in u {
      var j: nat :| j < |r| && r[j] == x;
      assert u[j] == x;
    }
    forall x | x in u ensures x == p || x in Elements(r) - {r[i]} {
      var j: nat :| j < |u| && u[j] == x;
    }
    assert u[i] == p;
  }

  /** The step on a full selection of nearest peers gives a selection of nearest peers if the
      newcomer beats at most one of them, and duplicates itself otherwise. */
  lemma FullStep(r: seq<Peer>, front: seq<Peer>, p: Peer, target: HashID, k: nat)
    requires DistinctIds(front + [p]) && k <= |front|
    requires IsKNearest(r, front, target, k)
    ensures var u := ReplaceFarther(r, p, target);
            if |CloserThan(p, Elements(front), target)| + 1 >= k
            then IsKNearest(u, front + [p], target, k)
            else !DistinctIds(u)
  {
    var near, all := Elements(r), Elements(front);
    Newcomer(front, p);
    DistinctCount(r);
    BeatenCount(near, all, p, target);
    ElementsSnoc(front, p);
    if |BeatenBy(p, near, target)| > 1 {
      TwoBeaten(r, p, target);
    } else if BeatenBy(p, near, target) == {} {
      NothingChanges(r, p, target);
      NoneBeaten(near, all, p, target);
    } else {
      var w :| w in BeatenBy(p, near, target);
      OnlyOne(BeatenBy(p, near, target), w);
      OneChanges(r, p, w, target);
      OneBeaten(near, all, p, w, target);
    }
  }

  lemma Newcomer(front: seq<Peer>, p: Peer)
    requires DistinctIds(front + [p])
    ensures DistinctIds(front) && KeyedById(Elements(front) + {p}) && p !in Elements(front)
    ensures forall x | x in Elements(front) :: x.id != p.id
  {
    var peers := front + [p];
    DistinctAreKeyed(peers);
    ElementsSnoc(front, p);
    forall j: nat | j < |front| ensures front[j].id != p.id {
      assert peers[j].id != peers[|front|].id;
    }
    forall i: nat, j: nat | i < j < |front| ensures front[i].id != front[j].id {
      assert peers[i].id != peers[j].id;
    }
  }

  lemma OnlyOne<T>(s: set<T>, w: T)
    requires |s| <= 1 && w in s
    ensures s == {w}
  {
    if y :| y in s && y != w {
      SubsetSize({w, y}, s);
    }
  }

  /** find_nearest returns the k nearest peers of the bucket if and only if each peer after
      the first k is beaten by at least k - 1 of its predecessors. Otherwise some newcomer
      overwrites two entries, and the result holds a duplicate. */
  lemma {:induction false} SelectsKNearestIff(peers: seq<Peer>, target: HashID, k: nat)
    requires DistinctIds(peers) && k > 0
    ensures if Gentle(peers, target, k)
            then IsKNearest(Select(peers, target, k), peers, target, k)
            else !DistinctIds(Select(peers, target, k))
    decreases |peers|
  {
    if |peers| <= k {
      SelectAll(peers, target, k);
    } else {
      var front, p := peers[..|peers| - 1], peers[|peers| - 1];
      assert peers == front + [p];
      Newcomer(front, p);
      SelectsKNearestIff(front, target, k);
      GentleSnoc(front, p, target, k);
      var r := Select(front, target, k);
      if Gentle(front, target, k) {
        FullStep(r, front, p, target, k);
      } else {
        DuplicatesStay(r, p, target);
      }
    }
  }
}
