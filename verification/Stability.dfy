/** What vector_sort (src/vector.c) does to elements that compare equal: exactly when it keeps
    their order. */
module Stability {
  import opened Rotations
  import Sets
  import opened Vector

  // ---------- the sort as a recursion on shorter sequences ----------

  /** An inner pass, from the front: `hold` is carried until a greater element takes over. */
  function Sweep<T>(hold: T, rest: seq<T>, less: (T, T) -> bool): (u: seq<T>)
    ensures |u| == |rest| + 1
  {
    if rest == [] then [hold]
    else if less(hold, rest[0]) then [hold] + Sweep(rest[0], rest[1..], less)
    else [rest[0]] + Sweep(hold, rest[1..], less)
  }

  lemma {:induction false} SweepSnoc<T>(hold: T, rest: seq<T>, x: T, less: (T, T) -> bool)
    ensures var w := Sweep(hold, rest, less);
            var top := w[|rest|];
            Sweep(hold, rest + [x], less) == if less(top, x) then w + [x] else w[..|rest|] + [x, top]
  {
    if rest != [] {
      assert (rest + [x])[1..] == rest[1..] + [x];
      SweepSnoc(if less(hold, rest[0]) then rest[0] else hold, rest[1..], x, less);
    }
  }

  lemma {:induction false} BubbledIsSweep<T>(s: seq<T>, less: (T, T) -> bool, last: nat)
    requires last < |s|
    ensures Bubbled(s, less, last) == Sweep(s[0], s[1..last + 1], less) + s[last + 1..]
  {
    if last > 0 {
      BubbledIsSweep(s, less, last - 1);
      var w := Sweep(s[0], s[1..last], less);
      SweepSnoc(s[0], s[1..last], s[last], less);
      assert s[1..last + 1] == s[1..last] + [s[last]];
      SweepStep(s, w, Bubbled(s, less, last - 1), less, last);
    }
  }

  lemma SweepStep<T>(s: seq<T>, w: seq<T>, t: seq<T>, less: (T, T) -> bool, last: nat)
    requires 0 < last < |s| && |w| == last && t == w + s[last..]
    ensures var top, x := w[last - 1], s[last];
            (if less(t[last - 1], t[last]) then t else Swapped(t, last - 1)) ==
            (if less(top, x) then w + [x] else w[..last - 1] + [x, top]) + s[last + 1..]
  {
  }

  /** The sort: a pass, and then the sort of all but the greatest element. */
  function Rec<T>(s: seq<T>, less: (T, T) -> bool): (u: seq<T>)
    ensures |u| == |s|
    decreases |s|
  {
    if |s| < 2 then s
    else
      var w := Sweep(s[0], s[1..], less);
      Rec(w[..|s| - 1], less) + [w[|s| - 1]]
  }

  lemma {:induction false} BubbledPrefix<T>(s: seq<T>, x: T, less: (T, T) -> bool, last: nat)
    requires last < |s|
    ensures Bubbled(s + [x], less, last) == Bubbled(s, less, last) + [x]
  {
    if last > 0 {
      BubbledPrefix(s, x, less, last - 1);
      var t := Bubbled(s, less, last - 1);
      assert (t + [x])[last - 1] == t[last - 1] && (t + [x])[last] == t[last];
      assert Swapped(t + [x], last - 1) == Swapped(t, last - 1) + [x];
    }
  }

  lemma {:induction false} PassesShorten<T>(s: seq<T>, less: (T, T) -> bool, i: nat, w: seq<T>)
    requires 0 < i < |s| && w == Bubbled(s, less, |s| - 1)
    ensures Passes(s, less, i) == Passes(w[..|s| - 1], less, i - 1) + [w[|s| - 1]]
  {
    var front := w[..|s| - 1];
    if i == 1 {
      assert w == front + [w[|s| - 1]];
    } else {
      PassesShorten(s, less, i - 1, w);
      BubbledPrefix(Passes(front, less, i - 2), w[|s| - 1], less, |s| - i);
    }
  }

  lemma {:induction false} SortIsRec<T>(s: seq<T>, less: (T, T) -> bool)
    ensures BubbleSorted(s, less) == Rec(s, less)
    decreases |s|
  {
    if |s| >= 2 {
      var n := |s|;
      BubbledIsSweep(s, less, n - 1);
      assert s[1..n] == s[1..];
      var w := Sweep(s[0], s[1..], less);
      assert Bubbled(s, less, n - 1) == w;
      PassesShorten(s, less, n - 1, w);
      SortIsRec(w[..n - 1], less);
    }
  }

  // ---------- one class of equal elements ----------

  // What is left of a sequence when all elements less than v are dropped: those equal to v, and
  // the places of those greater.
  datatype Mark<T> = Tie(x: T) | Big

  function MarkOf<T>(x: T, less: (T, T) -> bool, v: T): seq<Mark<T>> {
    if less(v, x) then [Big] else if less(x, v) then [] else [Tie(x)]
  }

  function Marks<T>(s: seq<T>, less: (T, T) -> bool, v: T): seq<Mark<T>> {
    if s == [] then [] else MarkOf(s[0], less, v) + Marks(s[1..], less, v)
  }

  lemma {:induction false} MarksConcat<T>(a: seq<T>, b: seq<T>, less: (T, T) -> bool, v: T)
    ensures Marks(a + b, less, v) == Marks(a, less, v) + Marks(b, less, v)
  {
    if a == [] {
      assert a + b == b;
    } else {
      assert (a + b)[1..] == a[1..] + b;
      MarksConcat(a[1..], b, less, v);
    }
  }

  /** A pass that carries g: it comes to stand before the first greater element, and that one
      at the end. */
  function Carry<T>(g: Mark<T>, w: seq<Mark<T>>): (u: seq<Mark<T>>)
    ensures |u| == |w| + 1
  {
    if w == [] then [g]
    else if w[0].Big? then [g] + w[1..] + [Big]
    else [w[0]] + Carry(g, w[1..])
  }

  /** A pass on the marks. */
  function PassOn<T>(w: seq<Mark<T>>): (u: seq<Mark<T>>)
    ensures |u| == |w|
  {
    if w == [] then []
    else if w[0].Big? then w[1..] + [Big]
    else Carry(w[0], w[1..])
  }

  /** The three ways to compare with v go together as in an order. */
  lemma Compare<T(!new)>(less: (T, T) -> bool, v: T, x: T, y: T)
    requires StrictWeak(less)
    ensures less(v, x) && !less(v, y) ==> !less(x, y) && less(y, x)
    ensures less(x, v) && !less(y, v) ==> less(x, y)
    ensures !less(v, x) && !less(x, v) && !less(v, y) && !less(y, v) ==> !less(x, y)
    ensures !(less(v, x) && less(x, v)) && !(less(x, y) && less(y, x))
  {
    assert Asymmetric(less, v, x) && Asymmetric(less, x, y) && Asymmetric(less, v, y);
    assert Transitive(less, x, y, v) && Transitive(less, v, y, x) && Transitive(less, y, x, v);
    assert Transitive(less, y, v, x) && Transitive(less, x, v, y) && Transitive(less, v, x, y);
  }

  /** One comparison, on the marks h of the carried element and m of the next one. */
  lemma PassStep<T>(h: seq<Mark<T>>, m: seq<Mark<T>>, rest: seq<Mark<T>>, switch: bool)
    requires |h| <= 1 && |m| <= 1
    requires h == [] && m != [] ==> switch
    requires h != [] && m == [] ==> !switch
    requires h != [] && m != [] && h[0].Tie? ==> (switch <==> m[0].Big?)
    requires h != [] && m != [] && h[0].Big? && m[0].Tie? ==> !switch
    ensures (if switch then h + PassOn(m + rest) else m + PassOn(h + rest)) == PassOn(h + (m + rest))
  {
    if h == [] {
      assert h + (m + rest) == m + rest && h + PassOn(m + rest) == PassOn(m + rest);
      assert m == [] ==> m + PassOn(h + rest) == PassOn(h + rest);
    } else if m == [] {
      assert m + rest == rest && m + PassOn(h + rest) == PassOn(h + rest);
    } else {
      assert h == [h[0]] && m == [m[0]];
      CarryStep(h[0], m[0], rest);
    }
  }

  lemma CarryStep<T>(a: Mark<T>, b: Mark<T>, rest: seq<Mark<T>>)
    ensures b.Big? ==> [a] + PassOn([b] + rest) == PassOn([a] + ([b] + rest))
    ensures b.Tie? || a == Big ==> [b] + PassOn([a] + rest) == PassOn([a] + ([b] + rest))
  {
    assert ([a] + ([b] + rest))[1..] == [b] + rest && ([b] + rest)[1..] == rest && ([a] + rest)[1..] == rest;
  }

  /** The pass on the elements is the pass on the marks. */
  lemma {:induction false} SweepMarks<T(!new)>(hold: T, rest: seq<T>, less: (T, T) -> bool, v: T)
    requires StrictWeak(less)
    ensures Marks(Sweep(hold, rest, less), less, v) == PassOn(MarkOf(hold, less, v) + Marks(rest, less, v))
  {
    var h := MarkOf(hold, less, v);
    if rest == [] {
      assert [hold][1..] == [];
      assert Marks([hold], less, v) == h && h + [] == h;
      assert h != [] ==> h[1..] == [];
    } else {
      var x := rest[0];
      var m, ms := MarkOf(x, less, v), Marks(rest[1..], less, v);
      SwitchIs(less, v, hold, x);
      PassStep(h, m, ms, less(hold, x));
      SweepMarks(if less(hold, x) then x else hold, rest[1..], less, v);
      var u := Sweep(hold, rest, less);
      assert u[0] == if less(hold, x) then hold else x;
      assert u[1..] == Sweep(if less(hold, x) then x else hold, rest[1..], less);
    }
  }

  lemma SwitchIs<T(!new)>(less: (T, T) -> bool, v: T, hold: T, x: T)
    requires StrictWeak(less)
    ensures var h, m := MarkOf(hold, less, v), MarkOf(x, less, v);
            && (h == [] && m != [] ==> less(hold, x))
            && (h != [] && m == [] ==> !less(hold, x))
            && (h != [] && m != [] && h[0].Tie? ==> (less(hold, x) <==> m[0].Big?))
            && (h != [] && m != [] && h[0].Big? && m[0].Tie? ==> !less(hold, x))
  {
    Compare(less, v, hold, x);
    Compare(less, v, x, hold);
  }

  /** It ends with an element that is not less than v, if there is one. */
  lemma {:induction false} SweepTop<T(!new)>(hold: T, rest: seq<T>, less: (T, T) -> bool, v: T)
    requires StrictWeak(less)
    requires MarkOf(hold, less, v) + Marks(rest, less, v) != []
    ensures MarkOf(Sweep(hold, rest, less)[|rest|], less, v) != []
  {
    if rest != [] {
      SwitchIs(less, v, hold, rest[0]);
      SweepTop(if less(hold, rest[0]) then rest[0] else hold, rest[1..], less, v);
    }
  }

  // ---------- what the sort does to the marks ----------

  function Ties<T>(w: seq<Mark<T>>): (ts: seq<T>)
    ensures |ts| <= |w|
  {
    if w == [] then [] else (if w[0].Tie? then [w[0].x] else []) + Ties(w[1..])
  }

  /** The elements equal to v, in order. */
  function Equals<T>(s: seq<T>, less: (T, T) -> bool, v: T): seq<T> {
    Ties(Marks(s, less, v))
  }

  lemma {:induction false} TiesConcat<T>(a: seq<Mark<T>>, b: seq<Mark<T>>)
    ensures Ties(a + b) == Ties(a) + Ties(b)
  {
    if a == [] {
      assert a + b == b;
    } else {
      assert (a + b)[1..] == a[1..] + b;
      TiesConcat(a[1..], b);
      Sets.Associative(if a[0].Tie? then [a[0].x] else [], Ties(a[1..]), Ties(b));
    }
  }

  /** All passes: each takes the last mark away. */
  function Settle<T>(w: seq<Mark<T>>): seq<T>
    decreases |w|
  {
    if w == [] then []
    else
      var u := PassOn(w);
      Settle(u[..|u| - 1]) + Ties([u[|u| - 1]])
  }

  /** The sort leaves the elements equal to v as the passes on the marks do. */
  lemma {:induction false} RecSettles<T(!new)>(s: seq<T>, less: (T, T) -> bool, v: T)
    requires StrictWeak(less)
    ensures Equals(Rec(s, less), less, v) == Settle(Marks(s, less, v))
    decreases |s|
  {
    if |s| == 1 {
      SettleOne(s, less, v);
    } else if |s| >= 2 {
      var u := Sweep(s[0], s[1..], less);
      var front, top := u[..|s| - 1], u[|s| - 1];
      SweepMarks(s[0], s[1..], less, v);
      assert u == front + [top];
      MarksConcat(front, [top], less, v);
      MarksConcat(Rec(front, less), [top], less, v);
      TiesConcat(Marks(Rec(front, less), less, v), Marks([top], less, v));
      RecSettles(front, less, v);
      OneMark(top, less, v);
      if Marks(s, less, v) != [] {
        SweepTop(s[0], s[1..], less, v);
        SettleLast(Marks(s, less, v), Marks(front, less, v), MarkOf(top, less, v));
      }
    }
  }

  lemma OneMark<T>(x: T, less: (T, T) -> bool, v: T)
    ensures Marks([x], less, v) == MarkOf(x, less, v)
  {
    assert [x][1..] == [];
  }

  lemma SettleOne<T>(s: seq<T>, less: (T, T) -> bool, v: T)
    requires |s| == 1
    ensures Equals(s, less, v) == Settle(Marks(s, less, v))
  {
    OneMark(s[0], less, v);
    assert s == [s[0]];
    var w := Marks(s, less, v);
    if w != [] {
      assert w == [w[0]] && w[1..] == [] && PassOn(w) == w;
      assert w[..0] == [];
    }
  }

  lemma SettleLast<T>(w: seq<Mark<T>>, front: seq<Mark<T>>, m: seq<Mark<T>>)
    requires w != [] && |m| == 1 && PassOn(w) == front + m
    ensures Settle(w) == Settle(front) + Ties(m)
  {
    assert (front + m)[..|front|] == front && m == [m[0]];
  }

  // ---------- passes as rotations ----------

  /** For each greater element, how many equal ones stand before it. */
  function Places<T>(w: seq<Mark<T>>, before: nat): (ps: seq<nat>)
    ensures |ps| <= |w|
  {
    if w == [] then []
    else if w[0].Big? then [before] + Places(w[1..], before)
    else Places(w[1..], before + 1)
  }

  lemma {:induction false} PlacesConcat<T>(a: seq<Mark<T>>, b: seq<Mark<T>>, before: nat)
    ensures Places(a + b, before) == Places(a, before) + Places(b, before + |Ties(a)|)
  {
    if a == [] {
      assert a + b == b;
    } else {
      assert (a + b)[1..] == a[1..] + b;
      PlacesConcat(a[1..], b, if a[0].Big? then before else before + 1);
    }
  }

  ghost predicate AllTies<T>(w: seq<Mark<T>>) {
    forall i: nat | i < |w| :: w[i].Tie?
  }

  lemma {:induction false} TiesOfTies<T>(w: seq<Mark<T>>, before: nat)
    requires AllTies(w)
    ensures |Ties(w)| == |w| && Places(w, before) == []
    ensures forall i: nat | i < |w| :: Ties(w)[i] == w[i].x
  {
    if w != [] {
      TiesOfTies(w[1..], before + 1);
    }
  }

  lemma {:induction false} BigOrTies<T>(w: seq<Mark<T>>) returns (p: nat)
    ensures p <= |w| && AllTies(w[..p]) && (p < |w| ==> w[p].Big?)
  {
    p := 0;
    while p < |w| && w[p].Tie?
      invariant p <= |w| && AllTies(w[..p])
    {
      p := p + 1;
    }
  }

  lemma {:induction false} CarryIs<T>(g: Mark<T>, w: seq<Mark<T>>, p: nat)
    requires p <= |w| && AllTies(w[..p]) && (p < |w| ==> w[p].Big?)
    ensures Carry(g, w) == if p < |w| then w[..p] + [g] + w[p + 1..] + [Big] else w + [g]
  {
    if p > 0 {
      assert w[0] == w[..p][0];
      assert w[1..][..p - 1] == w[..p][1..];
      CarryIs(g, w[1..], p - 1);
    }
  }

  /** A pass rotates the equal elements that stand before the first greater one, and takes that
      one to the end. */
  lemma PassRotates<T>(w: seq<Mark<T>>, p: nat)
    requires p < |w| && AllTies(w[..p]) && w[p].Big?
    ensures var u := PassOn(w);
            var front := u[..|u| - 1];
            && u[|u| - 1] == Big
            && Ties(front) == Rotate(Ties(w), p)
            && Places(w, 0) == [p] + Places(front, 0)
  {
    var a, b := w[..p], w[p + 1..];
    assert w == a + ([w[p]] + b);
    MarksAround(w, a, w[p], b, [w[p]] + b);
    if p == 0 {
      assert PassOn(w)[..|w| - 1] == b && a == [];
    } else {
      var c := a[1..] + [a[0]];
      assert w[1..][..p - 1] == a[1..] && w[1..][p..] == b;
      CarryIs(w[0], w[1..], p - 1);
      PassMoves(a, b, c, Ties(w), Places(w, 0));
      assert PassOn(w) == c + b + [Big];
      assert PassOn(w)[..|w| - 1] == c + b;
    }
  }

  lemma MarksAround<T>(w: seq<Mark<T>>, a: seq<Mark<T>>, big: Mark<T>, b: seq<Mark<T>>, rest: seq<Mark<T>>)
    requires AllTies(a) && big.Big? && rest == [big] + b && w == a + rest
    ensures Ties(w) == Ties(a) + Ties(b) && Places(w, 0) == [|a|] + Places(b, |a|)
  {
    TiesOfTies(a, 0);
    BigFirst(big, b, |a|);
    JoinedTies(a, rest, w);
    JoinedPlaces(a, rest, w);
    assert [] + Places(rest, |a|) == Places(rest, |a|);
  }

  lemma BigFirst<T>(big: Mark<T>, b: seq<Mark<T>>, before: nat)
    requires big.Big?
    ensures Ties([big] + b) == Ties(b) && Places([big] + b, before) == [before] + Places(b, before)
  {
    assert ([big] + b)[1..] == b;
  }

  lemma JoinedTies<T>(a: seq<Mark<T>>, b: seq<Mark<T>>, w: seq<Mark<T>>)
    requires w == a + b
    ensures Ties(w) == Ties(a) + Ties(b)
  {
    TiesConcat(a, b);
  }

  lemma JoinedPlaces<T>(a: seq<Mark<T>>, b: seq<Mark<T>>, w: seq<Mark<T>>)
    requires w == a + b
    ensures Places(w, 0) == Places(a, 0) + Places(b, |Ties(a)|)
  {
    PlacesConcat(a, b, 0);
  }

  lemma TiesMoved<T>(a: seq<Mark<T>>, c: seq<Mark<T>>)
    requires a != [] && AllTies(a) && c == a[1..] + [a[0]]
    ensures |Ties(a)| == |a| == |Ties(c)| && Places(c, 0) == []
    ensures Ties(c) == Ties(a)[1..] + [Ties(a)[0]]
  {
    TiesOfTies(a, 0);
    TiesOfTies(c, 0);
  }

  lemma PassMoves<T>(a: seq<Mark<T>>, b: seq<Mark<T>>, c: seq<Mark<T>>, ts: seq<T>, ps: seq<nat>)
    requires a != [] && AllTies(a) && c == a[1..] + [a[0]]
    requires ts == Ties(a) + Ties(b) && ps == [|a|] + Places(b, |a|)
    ensures Ties(c + b) == Rotate(ts, |a|)
    ensures ps == [|a|] + Places(c + b, 0)
  {
    TiesMoved(a, c);
    RotateConcat(Ties(a), Ties(b));
    JoinedTies(c, b, c + b);
    JoinedPlaces(c, b, c + b);
    assert [] + Places(b, |a|) == Places(b, |a|);
  }

  lemma SettleTies<T>(w: seq<Mark<T>>)
    requires w != [] && AllTies(w)
    ensures var u := PassOn(w);
            && u == w[1..] + [w[0]] && Ties(w) == [w[0].x] + Ties(w[1..])
            && Ties([w[0]]) == [w[0].x] && Places(w, 0) == [] && Places(w[1..], 0) == []
  {
    assert w[1..][..|w| - 1] == w[1..];
    CarryIs(w[0], w[1..], |w| - 1);
    TiesOfTies(w, 0);
    TiesOfTies(w[1..], 0);
    TiesOfTies([w[0]], 0);
  }

  /** The passes with a greater element rotate; those without one put the equal elements into
      their places from the end, the first of them first. */
  lemma {:induction false} SettleRotates<T>(w: seq<Mark<T>>)
    ensures Settle(w) == Reverse(RotateAll(Ties(w), Places(w, 0)))
    decreases |w|
  {
    if w != [] {
      var u := PassOn(w);
      var front, last := u[..|u| - 1], [u[|u| - 1]];
      var p := BigOrTies(w);
      SettleRotates(front);
      if p < |w| {
        PassRotates(w, p);
        BigIsNoTie(last);
        StepRotates(Ties(w), Ties(front), p, Places(w, 0), Places(front, 0));
      } else {
        assert w[..p] == w;
        SettleTies(w);
        assert front == w[1..] && last == [w[0]];
        StepReverses(Ties(w), Ties(front), w[0].x);
      }
    }
  }

  lemma BigIsNoTie<T>(big: seq<Mark<T>>)
    requires |big| == 1 && big[0].Big?
    ensures Ties(big) == []
  {
    assert big[1..] == [];
  }

  lemma StepRotates<T>(L: seq<T>, front: seq<T>, p: nat, ps: seq<nat>, rest: seq<nat>)
    requires front == Rotate(L, p) && ps == [p] + rest
    ensures Reverse(RotateAll(front, rest)) + [] == Reverse(RotateAll(L, ps))
  {
    assert ps[1..] == rest;
  }

  lemma StepReverses<T>(L: seq<T>, front: seq<T>, x: T)
    requires L == [x] + front
    ensures Reverse(RotateAll(front, [])) + [x] == Reverse(RotateAll(L, []))
  {
    assert L[1..] == front;
  }

  // ---------- stability ----------

  /** How many elements greater than v stand behind exactly k of the elements equal to v. */
  function Between<T>(s: seq<T>, less: (T, T) -> bool, v: T, k: nat): nat {
    if s == [] then 0
    else
      var front, x := s[..|s| - 1], s[|s| - 1];
      Between(front, less, v, k) + (if less(v, x) && |Equals(front, less, v)| == k then 1 else 0)
  }

  lemma {:induction false} BetweenIsCount<T>(s: seq<T>, less: (T, T) -> bool, v: T, k: nat)
    ensures Between(s, less, v, k) == Count(Places(Marks(s, less, v), 0), k)
  {
    if s != [] {
      var front, x := s[..|s| - 1], s[|s| - 1];
      assert s == front + [x];
      BetweenIsCount(front, less, v, k);
      MarksSnoc(front, x, less, v);
      CountJoined(Marks(front, less, v), MarkOf(x, less, v), k);
    }
  }

  lemma MarksSnoc<T>(front: seq<T>, x: T, less: (T, T) -> bool, v: T)
    ensures Marks(front + [x], less, v) == Marks(front, less, v) + MarkOf(x, less, v)
  {
    MarksConcat(front, [x], less, v);
    OneMark(x, less, v);
  }

  lemma CountJoined<T>(w: seq<Mark<T>>, m: seq<Mark<T>>, k: nat)
    requires |m| <= 1
    ensures Count(Places(w + m, 0), k) ==
            Count(Places(w, 0), k) + (if m != [] && m[0].Big? && |Ties(w)| == k then 1 else 0)
  {
    PlacesConcat(w, m, 0);
    CountConcat(Places(w, 0), Places(m, |Ties(w)|), k);
    OnePlace(m, |Ties(w)|, k);
  }

  lemma OnePlace<T>(m: seq<Mark<T>>, before: nat, k: nat)
    requires |m| <= 1
    ensures Count(Places(m, before), k) == if m != [] && m[0].Big? && before == k then 1 else 0
  {
    if m != [] {
      assert m[1..] == [];
      if m[0].Big? {
        assert Places(m, before) == [before] && [before][1..] == [];
      }
    }
  }

  lemma {:induction false} PlacesRise<T>(w: seq<Mark<T>>, before: nat)
    ensures forall i: nat | i < |Places(w, before)| :: before <= Places(w, before)[i]
    ensures Rising(Places(w, before), before + |Ties(w)|)
  {
    if w != [] {
      PlacesRise(w[1..], if w[0].Big? then before else before + 1);
    }
  }

  lemma {:induction false} EqualsMembers<T>(s: seq<T>, less: (T, T) -> bool, v: T)
    requires NoRepeats(s)
    ensures NoRepeats(Equals(s, less, v))
    ensures forall i: nat | i < |Equals(s, less, v)| :: Equals(s, less, v)[i] in s
  {
    if s != [] {
      var m, rest := MarkOf(s[0], less, v), s[1..];
      var L := Equals(rest, less, v);
      assert forall i: nat | i < |rest| :: rest[i] == s[i + 1];
      EqualsMembers(rest, less, v);
      TiesConcat(m, Marks(rest, less, v));
      assert m != [] ==> m[1..] == [];
      assert Equals(s, less, v) == Ties(m) + L;
      forall i: nat | i < |L| ensures L[i] in s && L[i] != s[0] {
        assert L[i] in rest;
        var j: nat :| j < |rest| && rest[j] == L[i];
      }
    }
  }

  lemma {:induction false} ReverseTwice<T>(L: seq<T>)
    ensures Reverse(Reverse(L)) == L
  {
    if L != [] {
      ReverseTwice(L[1..]);
      ReverseSnoc(Reverse(L[1..]), L[0]);
    }
  }

  lemma ReversedBack<T>(R: seq<T>, L: seq<T>)
    ensures Reverse(R) == L <==> R == Reverse(L)
  {
    ReverseTwice(R);
    ReverseTwice(L);
  }

  /** For each k from 2 on, and up to their number, the greater elements that stand behind
      exactly k of the elements equal to v are one less than a multiple of k. */
  ghost predicate Balanced<T>(s: seq<T>, less: (T, T) -> bool, v: T) {
    forall k: nat {:trigger Between(s, less, v, k)} | 2 <= k <= |Equals(s, less, v)| ::
      Between(s, less, v, k) % k == k - 1
  }

  lemma BalancedIsTurned<T>(s: seq<T>, less: (T, T) -> bool, v: T, ps: seq<nat>)
    requires ps == Places(Marks(s, less, v), 0)
    ensures Balanced(s, less, v) <==> Turned(ps, |Equals(s, less, v)|)
  {
    forall k: nat ensures Between(s, less, v, k) == Count(ps, k) {
      BetweenIsCount(s, less, v, k);
    }
  }

  /** Exactly when the sort keeps the order of the elements equal to v. */
  lemma KeepsOrderIff<T(!new)>(s: seq<T>, less: (T, T) -> bool, v: T)
    requires StrictWeak(less) && NoRepeats(s)
    ensures Equals(BubbleSorted(s, less), less, v) == Equals(s, less, v) <==> Balanced(s, less, v)
  {
    var w := Marks(s, less, v);
    var ps := Places(w, 0);
    SortIsRec(s, less);
    RecSettles(s, less, v);
    SettleRotates(w);
    EqualsMembers(s, less, v);
    PlacesRise(w, 0);
    ReversesIff(Ties(w), ps);
    ReversedBack(RotateAll(Ties(w), ps), Ties(w));
    BalancedIsTurned(s, less, v, ps);
  }

  /** The sort keeps the order of all elements that compare equal. */
  ghost predicate Stable<T>(s: seq<T>, less: (T, T) -> bool) {
    forall v | v in s :: Equals(BubbleSorted(s, less), less, v) == Equals(s, less, v)
  }

  /** Exactly when vector_sort is stable. */
  lemma StableIff<T(!new)>(s: seq<T>, less: (T, T) -> bool)
    requires StrictWeak(less) && NoRepeats(s)
    ensures Stable(s, less) <==> forall v | v in s :: Balanced(s, less, v)
  {
    forall v ensures Equals(BubbleSorted(s, less), less, v) == Equals(s, less, v) <==> Balanced(s, less, v) {
      KeepsOrderIff(s, less, v);
    }
  }

  // ---------- without ties, and with nothing else ----------

  /** Different elements never compare equal. */
  ghost predicate NoTies<T>(s: seq<T>, less: (T, T) -> bool) {
    forall x, y | x in s && y in s && x != y :: less(x, y) || less(y, x)
  }

  lemma SameFirst<T>(a: seq<T>, b: seq<T>, less: (T, T) -> bool)
    requires a != [] && b != [] && Permuted(a, b) && Sorted(a, less) && Sorted(b, less) && NoTies(a, less)
    ensures a[0] == b[0]
  {
    assert a[0] in multiset(b) && b[0] in multiset(a);
    var i: nat :| i < |a| && a[i] == b[0];
    var j: nat :| j < |b| && b[j] == a[0];
    assert i > 0 ==> NotAfter(less, a[0], a[i]);
    assert j > 0 ==> NotAfter(less, b[0], b[j]);
  }

  lemma {:induction false} SortedIsUnique<T>(a: seq<T>, b: seq<T>, less: (T, T) -> bool)
    requires Permuted(a, b) && Sorted(a, less) && Sorted(b, less) && NoTies(a, less)
    ensures a == b
    decreases |a|
  {
    SameLength(a, b);
    if a != [] {
      SameFirst(a, b, less);
      TailPermuted(a, b);
      SortedIsUnique(a[1..], b[1..], less);
    }
  }

  lemma SameLength<T>(a: seq<T>, b: seq<T>)
    requires Permuted(a, b)
    ensures |a| == |b|
  {
    assert |a| == |multiset(a)| == |multiset(b)| == |b|;
  }

  lemma TailPermuted<T>(a: seq<T>, b: seq<T>)
    requires a != [] && b != [] && a[0] == b[0] && Permuted(a, b)
    ensures Permuted(a[1..], b[1..])
  {
    assert a == [a[0]] + a[1..] && b == [b[0]] + b[1..];
    assert multiset(a[1..]) == multiset(a) - multiset{a[0]} && multiset(b[1..]) == multiset(b) - multiset{a[0]};
  }

  /** Without ties the result is the one sorted permutation. */
  lemma NoTiesOneResult<T(!new)>(s: seq<T>, less: (T, T) -> bool, t: seq<T>)
    requires StrictWeak(less) && NoTies(s, less)
    requires Permuted(s, t) && Sorted(t, less)
    ensures t == BubbleSorted(s, less)
  {
    SortSorts(s, less);
    forall x | x in t ensures x in s {
      assert x in multiset(s);
    }
    SortedIsUnique(t, BubbleSorted(s, less), less);
  }

  /** Elements that all compare equal come out in reverse. */
  lemma AllEqualReversed<T(!new)>(s: seq<T>, less: (T, T) -> bool)
    requires StrictWeak(less) && forall x, y | x in s && y in s :: !less(x, y)
    ensures BubbleSorted(s, less) == Reverse(s)
  {
    if s != [] {
      var v, u := s[0], BubbleSorted(s, less);
      SortSorts(s, less);
      SortIsRec(s, less);
      RecSettles(s, less, v);
      SettleRotates(Marks(s, less, v));
      AllMarked(s, less, v);
      forall x | x in u ensures x in s {
        assert x in multiset(s);
      }
      AllMarked(u, less, v);
    }
  }

  lemma {:induction false} AllMarked<T>(s: seq<T>, less: (T, T) -> bool, v: T)
    requires forall x | x in s :: !less(x, v) && !less(v, x)
    ensures Equals(s, less, v) == s && forall before: nat :: Places(Marks(s, less, v), before) == []
  {
    if s != [] {
      AllMarked(s[1..], less, v);
      assert [Tie(s[0])][1..] == [];
      TiesConcat([Tie(s[0])], Marks(s[1..], less, v));
      assert (MarkOf(s[0], less, v) + Marks(s[1..], less, v))[1..] == Marks(s[1..], less, v);
    }
  }
}
