/** The circular bucket array of the hash table.

A bucket array represents a finite map from value indices to slots, a slot being what the hash of
a key decides: the home bucket and the fingerprint byte. `Inv` is the representation invariant;
placing a bucket with a shift up adds one pair to the map, erasing with a shift down removes one.
*/
module RobinHood {

  const DIST_INC: nat := 256

  // The upper bits of `df` are the probe distance plus one, the low byte is the fingerprint.
  datatype Bucket = Bucket(df: nat, idx: nat)

  datatype Slot = Slot(home: nat, fp: nat)

  const EMPTY: Bucket := Bucket(0, 0)

  // ---------------------------------------------------------------- circular positions

  function Next(p: nat, n: nat): nat
    requires p < n
  {
    if p + 1 == n then 0 else p + 1
  }

  function Prev(p: nat, n: nat): nat
    requires p < n
  {
    if p == 0 then n - 1 else p - 1
  }

  // The number of steps from h up to p.
  function Dist(h: nat, p: nat, n: nat): nat
    requires h < n && p < n
  {
    if h <= p then p - h else p + n - h
  }

  // The position j steps above h; j == n comes back to h.
  function Step(h: nat, j: nat, n: nat): nat
    requires h < n && j <= n
  {
    if h + j < n then h + j else h + j - n
  }

  // ---------------------------------------------------------------- the invariant

  function Packed(s: Slot, dist: nat): nat {
    DIST_INC * (dist + 1) + s.fp
  }

  predicate Holds(b: seq<Bucket>, p: nat, i: nat) {
    p < |b| && b[p].df != 0 && b[p].idx == i
  }

  // Every bucket is empty, or stores the true probe distance and fingerprint of a live index.
  ghost predicate Sound(b: seq<Bucket>, live: map<nat, Slot>) {
    && (forall i :: i in live ==> live[i].home < |b| && live[i].fp < DIST_INC)
    && (forall p {:trigger b[p]} :: 0 <= p < |b| ==> SoundAt(b[p], p, |b|, live))
  }

  ghost predicate SoundAt(x: Bucket, p: nat, n: nat, live: map<nat, Slot>)
    requires p < n && forall i :: i in live ==> live[i].home < n
  {
    if x.df == 0 then x == EMPTY
    else x.idx in live && x.df == Packed(live[x.idx], Dist(live[x.idx].home, p, n))
  }

  ghost predicate Injective(b: seq<Bucket>) {
    forall p, q :: 0 <= p < |b| && 0 <= q < |b| && b[p].df != 0 && b[q].df != 0 && b[p].idx == b[q].idx ==> p == q
  }

  ghost predicate Complete(b: seq<Bucket>, live: map<nat, Slot>) {
    forall i :: i in live ==> exists p: nat :: Holds(b, p, i)
  }

  // A bucket at distance two or more is at most one distance above its predecessor.
  ghost predicate Ordered(b: seq<Bucket>) {
    forall p :: 0 <= p < |b| && b[p].df >= 2 * DIST_INC ==> b[p].df <= b[Prev(p, |b|)].df + DIST_INC
  }

  ghost predicate Inv(b: seq<Bucket>, live: map<nat, Slot>) {
    && |live| < |b|
    && Sound(b, live)
    && Injective(b)
    && Complete(b, live)
    && Ordered(b)
  }

  // ---------------------------------------------------------------- probing

  // A stored index is never hidden: from its home up to its bucket no probe sees a smaller entry,
  // so neither the early exit of a lookup nor an empty bucket comes before it.
  lemma {:induction false} Reach(b: seq<Bucket>, live: map<nat, Slot>, p: nat, j: nat)
    requires Sound(b, live) && Ordered(b)
    requires p < |b| && b[p].df != 0
    requires j <= Dist(live[b[p].idx].home, p, |b|)
    ensures b[Step(live[b[p].idx].home, j, |b|)].df >= Packed(live[b[p].idx], j)
    decreases Dist(live[b[p].idx].home, p, |b|) - j
  {
    var h := live[b[p].idx].home;
    if j < Dist(h, p, |b|) {
      Reach(b, live, p, j + 1);
      assert Prev(Step(h, j + 1, |b|), |b|) == Step(h, j, |b|);
    }
  }

  ghost predicate IsAt(b: seq<Bucket>, h: nat, j: nat, i: nat)
    requires h < |b|
  {
    j <= |b| && b[Step(h, j, |b|)].df != 0 && b[Step(h, j, |b|)].idx == i
  }

  // The m occupied buckets from h on hold m different live indices.
  lemma {:induction false} RunFits(b: seq<Bucket>, live: map<nat, Slot>, h: nat, m: nat) returns (r: set<nat>)
    requires Sound(b, live) && Injective(b)
    requires h < |b| && m <= |b|
    requires forall j :: 0 <= j < m ==> b[Step(h, j, |b|)].df != 0
    ensures |r| == m && r <= live.Keys
    ensures forall i :: i in r ==> exists j: nat :: j < m && IsAt(b, h, j, i)
    ensures m <= |live|
  {
    r := {};
    if m > 0 {
      var q := RunFits(b, live, h, m - 1);
      var last := b[Step(h, m - 1, |b|)].idx;
      assert IsAt(b, h, m - 1, last);
      assert last !in q;
      r := q + {last};
    }
    Subset(r, live.Keys);
  }

  // Fewer live indices than buckets leave a bucket empty.
  lemma SomeEmpty(b: seq<Bucket>, live: map<nat, Slot>) returns (e: nat)
    requires Sound(b, live) && Injective(b) && |live| < |b|
    ensures e < |b| && b[e].df == 0
  {
    if forall p :: 0 <= p < |b| ==> b[p].df != 0 {
      var r := RunFits(b, live, 0, |b|);
      assert false;
    }
    e :| 0 <= e < |b| && b[e].df == 0;
  }

  // A stored distance is at most the number of live indices, so 24 bits hold it as long as
  // fewer than 2^24 values are stored.
  lemma DistanceBounded(b: seq<Bucket>, live: map<nat, Slot>, p: nat)
    requires Inv(b, live) && p < |b| && b[p].df != 0
    ensures b[p].df / DIST_INC <= |live|
    ensures |live| < 0x100_0000 ==> b[p].df < 0x1_0000_0000
  {
    var h := live[b[p].idx].home;
    var d := Dist(h, p, |b|);
    forall j | 0 <= j <= d
      ensures b[Step(h, j, |b|)].df != 0
    {
      Reach(b, live, p, j);
    }
    var r := RunFits(b, live, h, d + 1);
  }

  lemma Subset<T>(a: set<T>, b: set<T>)
    requires a <= b
    ensures |a| <= |b|
  {
    assert b == a + (b - a);
  }

  // No bucket is a full turn away from home, so a shift up never wraps a distance.
  lemma NeverFullTurn(b: seq<Bucket>, live: map<nat, Slot>, p: nat)
    requires Inv(b, live) && p < |b| && b[p].df != 0
    ensures Dist(live[b[p].idx].home, p, |b|) + 1 < |b|
  {
    var h := live[b[p].idx].home;
    var e := SomeEmpty(b, live);
    assert Step(h, Dist(h, e, |b|), |b|) == e;
    if Dist(h, p, |b|) + 1 == |b| {
      Reach(b, live, p, Dist(h, e, |b|));
      assert false;
    }
  }

  // ---------------------------------------------------------------- shift up

  function Inc(x: Bucket): Bucket { Bucket(x.df + DIST_INC, x.idx) }

  function Dec(x: Bucket): Bucket
    requires x.df >= DIST_INC
  {
    Bucket(x.df - DIST_INC, x.idx)
  }

  // How many buckets from the j-th above p onward are occupied before the first empty one.
  function RunUp(b: seq<Bucket>, p: nat, j: nat): (r: nat)
    requires p < |b| && j < |b|
    requires exists d :: j <= d < |b| && b[Step(p, d, |b|)].df == 0
    ensures j <= r < |b| && b[Step(p, r, |b|)].df == 0
    ensures forall d :: j <= d < r ==> b[Step(p, d, |b|)].df != 0
    decreases |b| - j
  {
    if b[Step(p, j, |b|)].df == 0 then j else RunUp(b, p, j + 1)
  }

  // The bucket at q once x is at p and the r buckets from p on have moved up by one.
  function UpAt(b: seq<Bucket>, p: nat, r: nat, x: Bucket, q: nat): Bucket
    requires p < |b| && q < |b|
  {
    if q == p then x
    else if Dist(p, q, |b|) <= r then Inc(b[Prev(q, |b|)])
    else b[q]
  }

  function ShiftUp(b: seq<Bucket>, p: nat, r: nat, x: Bucket): (c: seq<Bucket>)
    requires p < |b| && r < |b|
    ensures |c| == |b|
    ensures forall q :: 0 <= q < |b| ==> c[q] == UpAt(b, p, r, x, q)
  {
    seq(|b|, q requires 0 <= q < |b| => UpAt(b, p, r, x, q))
  }

  ghost predicate HasEmpty(b: seq<Bucket>, p: nat)
    requires p < |b|
  {
    exists d :: 0 <= d < |b| && b[Step(p, d, |b|)].df == 0
  }

  function Placed(b: seq<Bucket>, p: nat, x: Bucket): (c: seq<Bucket>)
    requires p < |b| && HasEmpty(b, p)
    ensures |c| == |b|
  {
    ShiftUp(b, p, RunUp(b, p, 0), x)
  }

  // Where a probe may stop: nothing larger at p, and the predecessor is close enough.
  ghost predicate CanPlace(b: seq<Bucket>, p: nat, df: nat) {
    && p < |b|
    && df >= b[p].df
    && (df >= 2 * DIST_INC ==> df <= b[Prev(p, |b|)].df + DIST_INC)
  }

  lemma AnyEmpty(b: seq<Bucket>, live: map<nat, Slot>, p: nat)
    requires Sound(b, live) && Injective(b) && |live| < |b| && p < |b|
    ensures HasEmpty(b, p)
  {
    var e := SomeEmpty(b, live);
    assert Step(p, Dist(p, e, |b|), |b|) == e;
  }

  lemma HasEmptyInv(b: seq<Bucket>, live: map<nat, Slot>, p: nat)
    requires Inv(b, live) && p < |b|
    ensures HasEmpty(b, p)
  {
    AnyEmpty(b, live, p);
  }

  lemma PlaceKeepsInv(b: seq<Bucket>, live: map<nat, Slot>, p: nat, i: nat, s: Slot)
    requires Inv(b, live) && i !in live && |live| + 1 < |b|
    requires s.home < |b| && s.fp < DIST_INC
    requires p < |b| && CanPlace(b, p, Packed(s, Dist(s.home, p, |b|))) && HasEmpty(b, p)
    ensures Inv(Placed(b, p, Bucket(Packed(s, Dist(s.home, p, |b|)), i)), live[i := s])
  {
    var x := Bucket(Packed(s, Dist(s.home, p, |b|)), i);
    var r := RunUp(b, p, 0);
    assert |live[i := s]| == |live| + 1;
    PlaceSound(b, live, p, r, x, s);
    PlaceInjective(b, live, p, r, x);
    PlaceComplete(b, live, p, r, x, s);
    PlaceOrdered(b, p, r, x);
  }

  lemma PlaceSound(b: seq<Bucket>, live: map<nat, Slot>, p: nat, r: nat, x: Bucket, s: Slot)
    requires Inv(b, live) && x.idx !in live
    requires p < |b| && r < |b|
    requires s.home < |b| && s.fp < DIST_INC && x.df == Packed(s, Dist(s.home, p, |b|))
    requires forall d :: 0 <= d < r ==> b[Step(p, d, |b|)].df != 0
    ensures Sound(ShiftUp(b, p, r, x), live[x.idx := s])
  {
    var n := |b|;
    var c := ShiftUp(b, p, r, x);
    var live' := live[x.idx := s];
    forall q | 0 <= q < n
      ensures SoundAt(c[q], q, n, live')
    {
      if q != p && Dist(p, q, n) <= r {
        var o := Prev(q, n);
        assert Step(p, Dist(p, q, n) - 1, n) == o;
        NeverFullTurn(b, live, o);
        assert c[q] == Inc(b[o]) && live'[c[q].idx] == live[b[o].idx];
      } else {
        assert q == p || c[q] == b[q];
      }
    }
  }

  lemma PlaceInjective(b: seq<Bucket>, live: map<nat, Slot>, p: nat, r: nat, x: Bucket)
    requires Sound(b, live) && Injective(b) && x.idx !in live
    requires p < |b| && r < |b|
    requires forall d :: 0 <= d < r ==> b[Step(p, d, |b|)].df != 0
    requires b[Step(p, r, |b|)].df == 0
    ensures Injective(ShiftUp(b, p, r, x))
  {
    var n := |b|;
    var c := ShiftUp(b, p, r, x);
    forall q | 0 <= q < n && q != p && c[q].df != 0
      ensures b[Origin(p, q, r, n)].df != 0 && b[Origin(p, q, r, n)].idx == c[q].idx
    {
      if Dist(p, q, n) <= r {
        assert Step(p, Dist(p, q, n) - 1, n) == Prev(q, n);
      }
    }
    forall q1, q2 | 0 <= q1 < n && 0 <= q2 < n && c[q1].df != 0 && c[q2].df != 0 && c[q1].idx == c[q2].idx
      ensures q1 == q2
    {
      if q1 != p && q2 != p {
        assert Origin(p, q1, r, n) == Origin(p, q2, r, n);
        assert Step(p, r, n) != Origin(p, q1, r, n);
      }
    }
  }

  // Where the bucket now at q was before the shift.
  function Origin(p: nat, q: nat, r: nat, n: nat): nat
    requires p < n && q < n
  {
    if Dist(p, q, n) <= r then Prev(q, n) else q
  }

  lemma PlaceComplete(b: seq<Bucket>, live: map<nat, Slot>, p: nat, r: nat, x: Bucket, s: Slot)
    requires Complete(b, live) && x.df != 0
    requires p < |b| && r < |b|
    requires forall d :: 0 <= d < r ==> b[Step(p, d, |b|)].df != 0
    requires b[Step(p, r, |b|)].df == 0
    ensures Complete(ShiftUp(b, p, r, x), live[x.idx := s])
  {
    var n := |b|;
    var c := ShiftUp(b, p, r, x);
    var live' := live[x.idx := s];
    forall k | k in live'
      ensures exists q: nat :: Holds(c, q, k)
    {
      if k == x.idx {
        assert Holds(c, p, k);
      } else {
        var q: nat :| Holds(b, q, k);
        if Dist(p, q, n) < r {
          assert Prev(Next(q, n), n) == q;
          assert Holds(c, Next(q, n), k);
        } else {
          assert Step(p, Dist(p, q, n), n) == q;
          assert Holds(c, q, k);
        }
      }
    }
  }

  lemma PlaceOrdered(b: seq<Bucket>, p: nat, r: nat, x: Bucket)
    requires Ordered(b) && CanPlace(b, p, x.df) && r < |b|
    requires forall q :: 0 <= q < |b| && b[q].df != 0 ==> b[q].df >= DIST_INC
    requires forall d :: 0 <= d < r ==> b[Step(p, d, |b|)].df != 0
    requires b[Step(p, r, |b|)].df == 0
    ensures Ordered(ShiftUp(b, p, r, x))
  {
    var n := |b|;
    var c := ShiftUp(b, p, r, x);
    forall q | 0 <= q < n && c[q].df >= 2 * DIST_INC
      ensures c[q].df <= c[Prev(q, n)].df + DIST_INC
    {
      var o := Prev(q, n);
      assert Step(p, Dist(p, o, n), n) == o;
      if q != p && Dist(p, q, n) <= r {
        assert Step(p, Dist(p, q, n) - 1, n) == o;
        if o != p {
          assert Step(p, Dist(p, o, n) - 1, n) == Prev(o, n);
        }
      }
    }
  }

  // A shift that has reached the j-th bucket above p: below it the result c, from it on still b.
  ghost function PartlyMoved(b: seq<Bucket>, c: seq<Bucket>, p: nat, j: nat): (m: seq<Bucket>)
    requires |b| == |c| && p < |b|
    ensures |m| == |b|
    ensures forall q :: 0 <= q < |b| ==> m[q] == if Dist(p, q, |b|) < j then c[q] else b[q]
  {
    seq(|b|, q requires 0 <= q < |b| => if Dist(p, q, |b|) < j then c[q] else b[q])
  }

  lemma MoveOne(b: seq<Bucket>, c: seq<Bucket>, p: nat, j: nat)
    requires |b| == |c| && p < |b| && j < |b|
    ensures PartlyMoved(b, c, p, 0) == b
    ensures PartlyMoved(b, c, p, j)[Step(p, j, |b|)] == b[Step(p, j, |b|)]
    ensures PartlyMoved(b, c, p, j + 1) == PartlyMoved(b, c, p, j)[Step(p, j, |b|) := c[Step(p, j, |b|)]]
    ensures (forall q :: 0 <= q < |b| && Dist(p, q, |b|) > j ==> b[q] == c[q]) ==> PartlyMoved(b, c, p, j + 1) == c
  {}

  // What the shift up has in hand on reaching the j-th bucket above p.
  ghost function InHand(b: seq<Bucket>, p: nat, x: Bucket, j: nat): Bucket
    requires p < |b| && j <= |b|
  {
    if j == 0 then x else Inc(b[Step(p, j - 1, |b|)])
  }

  ghost function PartlyUp(b: seq<Bucket>, p: nat, r: nat, x: Bucket, j: nat): (m: seq<Bucket>)
    requires p < |b| && r < |b|
    ensures |m| == |b|
  {
    PartlyMoved(b, ShiftUp(b, p, r, x), p, j)
  }

  lemma UpStart(b: seq<Bucket>, p: nat, r: nat, x: Bucket)
    requires p < |b| && r < |b|
    ensures PartlyUp(b, p, r, x, 0) == b
  {}

  // One round of the shift up: what it reads, what it writes, and when it stops.
  lemma UpNext(b: seq<Bucket>, p: nat, r: nat, x: Bucket, j: nat)
    requires p < |b| && j <= r < |b|
    requires forall d :: 0 <= d < r ==> b[Step(p, d, |b|)].df != 0
    requires b[Step(p, r, |b|)].df == 0
    ensures var m, at := PartlyUp(b, p, r, x, j), Step(p, j, |b|);
            && (m[at].df != 0 <==> j < r)
            && Next(at, |b|) == Step(p, j + 1, |b|)
            && InHand(b, p, x, j + 1) == Inc(m[at])
            && PartlyUp(b, p, r, x, j + 1) == m[at := InHand(b, p, x, j)]
            && (j == r ==> m[at := InHand(b, p, x, j)] == ShiftUp(b, p, r, x))
  {
    var c := ShiftUp(b, p, r, x);
    var at := Step(p, j, |b|);
    UpAtStep(b, p, r, x, j);
    assert j == r ==> forall q :: 0 <= q < |b| && Dist(p, q, |b|) > j ==> b[q] == c[q];
    hide UpAt, ShiftUp;
    MoveOne(b, c, p, j);
  }

  lemma UpAtStep(b: seq<Bucket>, p: nat, r: nat, x: Bucket, j: nat)
    requires p < |b| && j <= r < |b|
    ensures ShiftUp(b, p, r, x)[Step(p, j, |b|)] == InHand(b, p, x, j)
    ensures Next(Step(p, j, |b|), |b|) == Step(p, j + 1, |b|)
  {}

  // ---------------------------------------------------------------- shift down

  // How many buckets above p follow that are not at their home.
  function RunDown(b: seq<Bucket>, p: nat, j: nat): (r: nat)
    requires p < |b| && j < |b|
    requires exists d :: j < d < |b| && b[Step(p, d, |b|)].df == 0
    ensures j <= r && r + 1 < |b| && b[Step(p, r + 1, |b|)].df < 2 * DIST_INC
    ensures forall d :: j < d <= r ==> b[Step(p, d, |b|)].df >= 2 * DIST_INC
    decreases |b| - j
  {
    if b[Step(p, j + 1, |b|)].df < 2 * DIST_INC then j else RunDown(b, p, j + 1)
  }

  // The bucket at q once the r buckets above p have moved down by one.
  function DownAt(b: seq<Bucket>, p: nat, r: nat, q: nat): Bucket
    requires p < |b| && q < |b| && r + 1 < |b|
    requires forall d :: 0 < d <= r ==> b[Step(p, d, |b|)].df >= 2 * DIST_INC
  {
    if Dist(p, q, |b|) < r then
      assert Step(p, Dist(p, q, |b|) + 1, |b|) == Next(q, |b|);
      Dec(b[Next(q, |b|)])
    else if Dist(p, q, |b|) == r then EMPTY
    else b[q]
  }

  function ShiftDown(b: seq<Bucket>, p: nat, r: nat): (c: seq<Bucket>)
    requires p < |b| && r + 1 < |b|
    requires forall d :: 0 < d <= r ==> b[Step(p, d, |b|)].df >= 2 * DIST_INC
    ensures |c| == |b|
    ensures forall q :: 0 <= q < |b| ==> c[q] == DownAt(b, p, r, q)
  {
    seq(|b|, q requires 0 <= q < |b| => DownAt(b, p, r, q))
  }

  ghost function PartlyDown(b: seq<Bucket>, p: nat, r: nat, j: nat): (m: seq<Bucket>)
    requires p < |b| && r + 1 < |b|
    requires forall d :: 0 < d <= r ==> b[Step(p, d, |b|)].df >= 2 * DIST_INC
    ensures |m| == |b|
  {
    PartlyMoved(b, ShiftDown(b, p, r), p, j)
  }

  lemma DownStart(b: seq<Bucket>, p: nat, r: nat)
    requires p < |b| && r + 1 < |b|
    requires forall d :: 0 < d <= r ==> b[Step(p, d, |b|)].df >= 2 * DIST_INC
    ensures PartlyDown(b, p, r, 0) == b
    ensures Next(p, |b|) == Step(p, 1, |b|)
  {}

  // One round of the shift down: what it reads, what it writes, and when it stops.
  lemma DownNext(b: seq<Bucket>, p: nat, r: nat, j: nat)
    requires p < |b| && r + 1 < |b| && j <= r
    requires forall d :: 0 < d <= r ==> b[Step(p, d, |b|)].df >= 2 * DIST_INC
    requires b[Step(p, r + 1, |b|)].df < 2 * DIST_INC
    ensures var m, at := PartlyDown(b, p, r, j), Step(p, j, |b|);
            var above := Step(p, j + 1, |b|);
            && (m[above].df >= 2 * DIST_INC <==> j < r)
            && (j < r ==> Next(above, |b|) == Step(p, j + 2, |b|))
            && (j < r ==> PartlyDown(b, p, r, j + 1) == m[at := Dec(m[above])])
            && (j == r ==> m[at := EMPTY] == ShiftDown(b, p, r))
  {}

  ghost predicate HasEmptyAbove(b: seq<Bucket>, p: nat)
    requires p < |b|
  {
    exists d :: 0 < d < |b| && b[Step(p, d, |b|)].df == 0
  }

  function Erased(b: seq<Bucket>, p: nat): (c: seq<Bucket>)
    requires p < |b| && HasEmptyAbove(b, p)
    ensures |c| == |b|
  {
    ShiftDown(b, p, RunDown(b, p, 0))
  }

  lemma AnyEmptyAbove(b: seq<Bucket>, live: map<nat, Slot>, p: nat)
    requires Sound(b, live) && Injective(b) && |live| < |b|
    requires p < |b| && b[p].df != 0
    ensures HasEmptyAbove(b, p)
  {
    var e := SomeEmpty(b, live);
    assert Step(p, Dist(p, e, |b|), |b|) == e;
  }

  lemma HasEmptyAboveInv(b: seq<Bucket>, live: map<nat, Slot>, p: nat)
    requires Inv(b, live) && p < |b| && b[p].df != 0
    ensures HasEmptyAbove(b, p)
  {
    AnyEmptyAbove(b, live, p);
  }

  lemma EraseKeepsInv(b: seq<Bucket>, live: map<nat, Slot>, p: nat)
    requires Inv(b, live) && p < |b| && b[p].df != 0 && HasEmptyAbove(b, p)
    ensures Inv(Erased(b, p), live - {b[p].idx})
  {
    var r := RunDown(b, p, 0);
    assert live.Keys - {b[p].idx} == (live - {b[p].idx}).Keys;
    Subset((live - {b[p].idx}).Keys, live.Keys);
    EraseSound(b, live, p, r);
    EraseInjective(b, p, r);
    EraseComplete(b, live, p, r);
    EraseOrdered(b, p, r);
  }

  lemma EraseSound(b: seq<Bucket>, live: map<nat, Slot>, p: nat, r: nat)
    requires Sound(b, live) && Injective(b) && p < |b| && b[p].df != 0 && r + 1 < |b|
    requires forall d :: 0 < d <= r ==> b[Step(p, d, |b|)].df >= 2 * DIST_INC
    ensures Sound(ShiftDown(b, p, r), live - {b[p].idx})
  {
    var n := |b|;
    var c := ShiftDown(b, p, r);
    var live' := live - {b[p].idx};
    forall q | 0 <= q < n
      ensures SoundAt(c[q], q, n, live')
    {
      if Dist(p, q, n) < r {
        var o := Next(q, n);
        assert Step(p, Dist(p, q, n) + 1, n) == o;
        assert c[q] == Dec(b[o]) && o != p;
        assert live[b[o].idx].home != o;
      } else {
        assert q == p || c[q] == EMPTY || c[q] == b[q];
      }
    }
  }

  lemma EraseInjective(b: seq<Bucket>, p: nat, r: nat)
    requires Injective(b) && p < |b| && r + 1 < |b|
    requires forall d :: 0 < d <= r ==> b[Step(p, d, |b|)].df >= 2 * DIST_INC
    ensures Injective(ShiftDown(b, p, r))
  {}

  lemma EraseComplete(b: seq<Bucket>, live: map<nat, Slot>, p: nat, r: nat)
    requires Complete(b, live) && p < |b| && b[p].df != 0 && r + 1 < |b|
    requires forall d :: 0 < d <= r ==> b[Step(p, d, |b|)].df >= 2 * DIST_INC
    ensures Complete(ShiftDown(b, p, r), live - {b[p].idx})
  {
    var n := |b|;
    var c := ShiftDown(b, p, r);
    forall k | k in live - {b[p].idx}
      ensures exists q: nat :: Holds(c, q, k)
    {
      var q: nat :| Holds(b, q, k);
      if 0 < Dist(p, q, n) <= r {
        assert Next(Prev(q, n), n) == q;
        assert Step(p, Dist(p, q, n), n) == q;
        assert Holds(c, Prev(q, n), k);
      } else {
        assert Holds(c, q, k);
      }
    }
  }

  lemma EraseOrdered(b: seq<Bucket>, p: nat, r: nat)
    requires Ordered(b) && p < |b| && r + 1 < |b|
    requires forall d :: 0 < d <= r ==> b[Step(p, d, |b|)].df >= 2 * DIST_INC
    requires b[Step(p, r + 1, |b|)].df < 2 * DIST_INC
    ensures Ordered(ShiftDown(b, p, r))
  {
    var n := |b|;
    var c := ShiftDown(b, p, r);
    forall q | 0 <= q < n && c[q].df >= 2 * DIST_INC
      ensures c[q].df <= c[Prev(q, n)].df + DIST_INC
    {
      var o := Prev(q, n);
      assert Step(p, Dist(p, q, n), n) == q;
      if Dist(p, q, n) < r {
        assert Step(p, Dist(p, q, n) + 1, n) == Next(q, n);
        assert Prev(Next(q, n), n) == q;
        if q != p {
          assert Next(o, n) == q;
        }
      }
    }
  }

  // ---------------------------------------------------------------- renaming an index

  // Writing another index into the bucket of `from` renames it in the represented map.
  lemma RenameKeepsInv(b: seq<Bucket>, live: map<nat, Slot>, p: nat, to: nat)
    requires Inv(b, live) && p < |b| && b[p].df != 0 && to !in live
    ensures Inv(b[p := Bucket(b[p].df, to)], (live - {b[p].idx})[to := live[b[p].idx]])
  {
    var from := b[p].idx;
    var c := b[p := Bucket(b[p].df, to)];
    var live' := (live - {from})[to := live[from]];
    assert (live - {from}).Keys == live.Keys - {from};
    assert |live'.Keys| == |live.Keys|;
    assert forall q :: 0 <= q < |b| && q != p && b[q].df != 0 ==> b[q].idx != from && b[q].idx != to;
    assert Injective(c);
    RenameSound(b, live, p, to);
    RenameOrdered(b, p, to);
    RenameComplete(b, live, p, to);
  }

  lemma RenameSound(b: seq<Bucket>, live: map<nat, Slot>, p: nat, to: nat)
    requires Sound(b, live) && Injective(b) && p < |b| && b[p].df != 0 && to !in live
    ensures Sound(b[p := Bucket(b[p].df, to)], (live - {b[p].idx})[to := live[b[p].idx]])
  {}

  lemma RenameOrdered(b: seq<Bucket>, p: nat, to: nat)
    requires Ordered(b) && p < |b|
    ensures Ordered(b[p := Bucket(b[p].df, to)])
  {}

  lemma RenameComplete(b: seq<Bucket>, live: map<nat, Slot>, p: nat, to: nat)
    requires Complete(b, live) && p < |b| && b[p].df != 0 && b[p].idx in live && to !in live
    ensures Complete(b[p := Bucket(b[p].df, to)], (live - {b[p].idx})[to := live[b[p].idx]])
  {
    var c := b[p := Bucket(b[p].df, to)];
    var live' := (live - {b[p].idx})[to := live[b[p].idx]];
    forall k | k in live'
      ensures exists q: nat :: Holds(c, q, k)
    {
      if k == to {
        assert Holds(c, p, k);
      } else {
        var q: nat :| Holds(b, q, k);
        assert Holds(c, q, k);
      }
    }
  }
}
