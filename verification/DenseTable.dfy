/** The dense hash table: a vector of entries without holes, indexed by a robin-hood bucket array. */
module DenseTable {
  import opened RobinHood
  import opened Words

  datatype Entry<K, V> = Entry(key: K, val: V)

  datatype EmplaceResult = Placed(index: nat, inserted: bool) | BucketOverflow

  // Four buckets to start with.
  const INITIAL_SHIFTS: nat := 62
  // 2^31 buckets, the last size before the bucket count is capped at 2^32.
  const MIN_SHIFTS: nat := 33

  function Pow2(e: nat): (r: nat)
    ensures r > 0
  {
    if e == 0 then 1 else 2 * Pow2(e - 1)
  }

  lemma Pow2Increasing(a: nat, b: nat)
    requires a < b
    ensures Pow2(a) < Pow2(b)
  {}

  lemma Pow2Grows(s: nat, t: nat)
    requires s <= t <= 64
    ensures Pow2(64 - t) <= Pow2(64 - s)
  {
    if s < t {
      Pow2Increasing(64 - t, 64 - s);
    }
  }

  lemma Pow2Step4(e: nat)
    ensures Pow2(e + 4) == 16 * Pow2(e)
  {
    assert Pow2(e + 4) == 2 * Pow2(e + 3) && Pow2(e + 2) == 2 * Pow2(e + 1);
  }

  lemma Pow2Step16(e: nat)
    ensures Pow2(e + 16) == 0x1_0000 * Pow2(e)
  {
    Pow2Step4(e);
    Pow2Step4(e + 4);
    Pow2Step4(e + 8);
    Pow2Step4(e + 12);
  }

  lemma Pow2Of64()
    ensures Pow2(64) == 0x1_0000_0000_0000_0000
  {
    Pow2Step16(0);
    Pow2Step16(16);
    Pow2Step16(32);
    Pow2Step16(48);
  }

  function ShiftRight(x: nat, s: nat): nat {
    if s == 0 then x else ShiftRight(x, s - 1) / 2
  }

  lemma {:induction false} ShiftRightFits(x: nat, s: nat, bits: nat)
    requires x < Pow2(bits + s)
    ensures ShiftRight(x, s) < Pow2(bits)
  {
    if s > 0 {
      ShiftRightFits(x, s - 1, bits + 1);
    }
  }

  // What the table reads off a hash: the top bits choose the home bucket, the low byte is kept.
  function BucketIdxFromHash(h: Uint64, shifts: nat): nat {
    ShiftRight(h, shifts)
  }

  // A home is the number that the top bits of the hash spell.
  lemma HomeIsTopBits(h: Uint64, shifts: nat)
    ensures var home := BucketIdxFromHash(h, shifts); home * Pow2(shifts) <= h < (home + 1) * Pow2(shifts)
  {
    ShiftedIsQuotient(h, shifts);
  }

  lemma {:induction false} ShiftedIsQuotient(x: nat, s: nat)
    ensures ShiftRight(x, s) * Pow2(s) <= x < (ShiftRight(x, s) + 1) * Pow2(s)
    decreases s
  {
    if s > 0 {
      ShiftedIsQuotient(x, s - 1);
      Halved(ShiftRight(x, s - 1), Pow2(s - 1), x);
    }
  }

  lemma Halved(most: nat, p: nat, x: nat)
    requires most * p <= x < (most + 1) * p
    ensures most / 2 * (2 * p) <= x < (most / 2 + 1) * (2 * p)
  {
    var half, odd := most / 2, most % 2;
    assert most * p == half * (2 * p) + odd * p;
  }

  function DistAndFingerprintFromHash(h: Uint64): nat {
    DIST_INC + h % DIST_INC
  }

  function SlotOf<K>(hash: K -> Uint64, shifts: nat, k: K): (s: Slot) {
    Slot(BucketIdxFromHash(hash(k), shifts), hash(k) % DIST_INC)
  }

  lemma HomeInRange<K>(hash: K -> Uint64, shifts: nat, k: K)
    requires shifts <= 64
    ensures SlotOf(hash, shifts, k).home < Pow2(64 - shifts)
  {
    Pow2Of64();
    ShiftRightFits(hash(k), shifts, 64 - shifts);
  }

  function LiveOf<K, V>(hash: K -> Uint64, shifts: nat, v: seq<Entry<K, V>>): (m: map<nat, Slot>) {
    map i: nat | i < |v| :: SlotOf(hash, shifts, v[i].key)
  }

  lemma LiveSize<K, V>(hash: K -> Uint64, shifts: nat, v: seq<Entry<K, V>>)
    ensures |LiveOf(hash, shifts, v)| == |v|
  {
    if v != [] {
      LiveSize(hash, shifts, v[..|v| - 1]);
      assert LiveOf(hash, shifts, v)
               == LiveOf(hash, shifts, v[..|v| - 1])[|v| - 1 := SlotOf(hash, shifts, v[|v| - 1].key)];
    }
  }

  // ---------------------------------------------------------------- the entries as a map

  ghost predicate UniqueKeys<K, V>(v: seq<Entry<K, V>>) {
    forall i, j :: 0 <= i < j < |v| ==> v[i].key != v[j].key
  }

  ghost predicate HasKey<K, V>(v: seq<Entry<K, V>>, k: K) {
    exists i :: 0 <= i < |v| && v[i].key == k
  }

  ghost function KeyIndex<K, V>(v: seq<Entry<K, V>>, k: K): (i: nat)
    requires HasKey(v, k)
    ensures i < |v| && v[i].key == k
  {
    var i :| 0 <= i < |v| && v[i].key == k;
    i
  }

  // Erasing moves the last entry into the hole.
  function SwapRemove<K, V>(v: seq<Entry<K, V>>, i: nat): (r: seq<Entry<K, V>>)
    requires i < |v|
    ensures |r| == |v| - 1
  {
    v[i := v[|v| - 1]][..|v| - 1]
  }

  ghost function AsMap<K(!new), V>(v: seq<Entry<K, V>>): (m: map<K, V>)
    ensures forall k :: k in m <==> HasKey(v, k)
  {
    if v == [] then map[] else AsMap(v[..|v| - 1])[v[|v| - 1].key := v[|v| - 1].val]
  }

  lemma UniqueAppend<K, V>(v: seq<Entry<K, V>>, e: Entry<K, V>)
    requires UniqueKeys(v) && !HasKey(v, e.key)
    ensures UniqueKeys(v + [e])
  {}

  lemma UniqueAssign<K, V>(v: seq<Entry<K, V>>, i: nat, k: K, val: V)
    requires UniqueKeys(v) && i < |v| && (v[i].key == k || !HasKey(v, k))
    ensures UniqueKeys(v[i := Entry(k, val)])
  {}

  lemma UniqueSwapRemove<K, V>(v: seq<Entry<K, V>>, i: nat)
    requires UniqueKeys(v) && i < |v|
    ensures UniqueKeys(SwapRemove(v, i))
  {}

  // What any form of emplace does to the vector. `full` says that the table cannot grow again.
  ghost predicate Emplaced<K, V>(v: seq<Entry<K, V>>, full: bool, k: K, val: V, w: seq<Entry<K, V>>, r: EmplaceResult) {
    match r
    case BucketOverflow => full && !HasKey(v, k) && w == v
    case Placed(i, true) => !full && !HasKey(v, k) && w == v + [Entry(k, val)] && i == |v|
    case Placed(i, false) => i < |v| && v[i].key == k && w == v
  }

  // Loading a container: a value whose key came before is overwritten by the back value.
  ghost function Deduped<K, V>(v: seq<Entry<K, V>>, i: nat): (w: seq<Entry<K, V>>)
    requires i <= |v|
    decreases |v| - i
  {
    if i == |v| then v
    else if HasKey(v[..i], v[i].key) then Deduped(SwapRemove(v, i), i)
    else Deduped(v, i + 1)
  }

  function Reversed<T>(s: seq<T>): (r: seq<T>)
    ensures |r| == |s|
  {
    if s == [] then [] else Reversed(s[1..]) + [s[0]]
  }

  // Erasing [first, last): as many values as possible come from the back, last one first.
  function RangeErased<K, V>(v: seq<Entry<K, V>>, first: nat, last: nat): seq<Entry<K, V>>
    requires first <= last <= |v|
  {
    var moved := if last - first <= |v| - last then last - first else |v| - last;
    v[..first] + Reversed(v[|v| - moved..]) + v[last..|v| - moved]
  }

  function Kept<K, V>(v: seq<Entry<K, V>>, pred: Entry<K, V> -> bool): (w: seq<Entry<K, V>>)
    ensures |w| <= |v|
  {
    if v == [] then []
    else (if pred(v[0]) then [] else [v[0]]) + Kept(v[1..], pred)
  }

  lemma EmptyUnique<K, V>(v: seq<Entry<K, V>>)
    requires v == []
    ensures UniqueKeys(v)
  {}

  lemma SwapRemoveKeepsPrefix<K, V>(v: seq<Entry<K, V>>, i: nat)
    requires i < |v|
    ensures SwapRemove(v, i)[..i] == v[..i]
    ensures i == |v| - 1 ==> SwapRemove(v, i) == v[..|v| - 1]
  {}

  lemma SwapRemoveTail<K, V>(v: seq<Entry<K, V>>, i: nat)
    requires i < |v|
    ensures SwapRemove(v, i)[..i] == v[..i]
    ensures multiset(SwapRemove(v, i)[i..]) == multiset(v[i + 1..])
  {
    var w := SwapRemove(v, i);
    if i < |v| - 1 {
      assert w[i..] == [v[|v| - 1]] + v[i + 1..|v| - 1];
      assert v[i + 1..] == v[i + 1..|v| - 1] + [v[|v| - 1]];
    } else {
      assert w[i..] == [] && v[i + 1..] == [];
    }
  }

  // A range erase under way: m holes were filled from the back, the vector now ends the range at `hi`.
  ghost function RangePart<K, V>(v: seq<Entry<K, V>>, first: nat, last: nat, m: nat, hi: nat): seq<Entry<K, V>>
    requires first + m <= hi <= last && last + m <= |v|
  {
    v[..first] + Reversed(v[|v| - m..]) + v[first + m..hi] + v[last..|v| - m]
  }

  lemma RangeStart<K, V>(v: seq<Entry<K, V>>, first: nat, last: nat)
    requires first <= last <= |v|
    ensures RangePart(v, first, last, 0, last) == v
  {
    assert v[|v|..] == [];
  }

  lemma RangeFromLeft<K, V>(v: seq<Entry<K, V>>, first: nat, last: nat, m: nat)
    requires first + m < last && last + m < |v|
    ensures first + m < |RangePart(v, first, last, m, last)|
    ensures SwapRemove(RangePart(v, first, last, m, last), first + m) == RangePart(v, first, last, m + 1, last)
  {
    var e := v[|v| - m - 1];
    var left, right := v[..first] + Reversed(v[|v| - m..]), v[first + m + 1..last] + v[last..|v| - m - 1];
    assert v[|v| - m - 1..][1..] == v[|v| - m..];
    assert RangePart(v, first, last, m, last) == left + [v[first + m]] + right + [e];
    FillHole(left, v[first + m], right, e);
  }

  lemma FillHole<K, V>(left: seq<Entry<K, V>>, x: Entry<K, V>, right: seq<Entry<K, V>>, e: Entry<K, V>)
    ensures SwapRemove(left + [x] + right + [e], |left|) == left + [e] + right
  {}

  lemma RangeFromRight<K, V>(v: seq<Entry<K, V>>, first: nat, last: nat, hi: nat)
    requires first <= last <= |v|
    requires var m := if last - first <= |v| - last then last - first else |v| - last;
             first + m <= hi < last
    ensures var m := |v| - last;
            && |RangePart(v, first, last, m, hi + 1)| == hi + 1
            && SwapRemove(RangePart(v, first, last, m, hi + 1), hi) == RangePart(v, first, last, m, hi)
  {
    var m := |v| - last;
    assert v[first + m..hi + 1] == v[first + m..hi] + [v[hi]];
    assert v[last..last] == [];
  }

  lemma RangeDone<K, V>(v: seq<Entry<K, V>>, first: nat, last: nat)
    requires first <= last <= |v|
    ensures var m := if last - first <= |v| - last then last - first else |v| - last;
            RangePart(v, first, last, m, first + m) == RangeErased(v, first, last)
  {
    if |v| - last < last - first {
      assert v[last..last] == [];
    }
  }

  // A sweep from the back that has tested everything from idx on.
  ghost predicate Swept<K, V>(v: seq<Entry<K, V>>, pred: Entry<K, V> -> bool, idx: nat, w: seq<Entry<K, V>>,
                              tested: seq<Entry<K, V>>)
  {
    && idx <= |v| && idx <= |w|
    && w[..idx] == v[..idx]
    && multiset(w[idx..]) == multiset(Kept(v[idx..], pred))
    && tested == Reversed(v[idx..])
  }

  lemma SweepStart<K, V>(v: seq<Entry<K, V>>, pred: Entry<K, V> -> bool)
    ensures Swept(v, pred, |v|, v, [])
  {
    assert v[|v|..] == [];
  }

  // The value that is tested next, and what it adds to the sweep.
  lemma SweepNext<K, V>(v: seq<Entry<K, V>>, pred: Entry<K, V> -> bool, i: nat, w: seq<Entry<K, V>>)
    requires i < |v| && i < |w| && w[..i + 1] == v[..i + 1]
    ensures w[i] == v[i] && w[..i] == v[..i]
    ensures Kept(v[i..], pred) == (if pred(v[i]) then [] else [v[i]]) + Kept(v[i + 1..], pred)
    ensures Reversed(v[i..]) == Reversed(v[i + 1..]) + [v[i]]
  {
    assert w[i] == w[..i + 1][i] == v[..i + 1][i] == v[i];
    assert w[..i + 1][..i] == w[..i] && v[..i + 1][..i] == v[..i];
    assert v[i..][1..] == v[i + 1..];
  }

  lemma SweepStep<K, V>(v: seq<Entry<K, V>>, pred: Entry<K, V> -> bool, idx: nat, w: seq<Entry<K, V>>,
                        tested: seq<Entry<K, V>>)
    requires idx > 0 && Swept(v, pred, idx, w, tested)
    ensures Swept(v, pred, idx - 1, if pred(w[idx - 1]) then SwapRemove(w, idx - 1) else w, tested + [w[idx - 1]])
  {
    hide Kept, Reversed, SwapRemove;
    var i := idx - 1;
    SweepNext(v, pred, i, w);
    if pred(w[i]) {
      SwapRemoveTail(w, i);
      assert [] + Kept(v[idx..], pred) == Kept(v[idx..], pred);
    } else {
      assert w[i..] == [w[i]] + w[idx..];
    }
  }

  lemma SweepDone<K, V>(v: seq<Entry<K, V>>, pred: Entry<K, V> -> bool, w: seq<Entry<K, V>>, tested: seq<Entry<K, V>>)
    requires Swept(v, pred, 0, w, tested)
    ensures multiset(w) == multiset(Kept(v, pred)) && |w| == |Kept(v, pred)| && tested == Reversed(v)
  {
    assert v[0..] == v && w[0..] == w;
    assert |multiset(w)| == |w| && |multiset(Kept(v, pred))| == |Kept(v, pred)|;
  }

  // ---------------------------------------------------------------- probing for a key

  // A probe for k after j steps, with k stored nowhere below the current bucket.
  ghost predicate Probing<K, V>(b: seq<Bucket>, hash: K -> Uint64, shifts: nat, v: seq<Entry<K, V>>, k: K,
                                j: nat, df: nat, p: nat)
  {
    var s := SlotOf(hash, shifts, k);
    && s.home < |b| && j <= |b|
    && p == Step(s.home, j, |b|) && df == Packed(s, j)
    && forall q :: 0 <= q < |b| && b[q].df != 0 && b[q].idx < |v| && v[b[q].idx].key == k ==> j <= Dist(s.home, q, |b|)
  }

  ghost predicate Indexed<K, V>(b: seq<Bucket>, hash: K -> Uint64, shifts: nat, v: seq<Entry<K, V>>) {
    Inv(b, LiveOf(hash, shifts, v))
  }

  predicate Match<K(==), V>(x: Bucket, df: nat, v: seq<Entry<K, V>>, k: K) {
    df == x.df && x.idx < |v| && v[x.idx].key == k
  }

  lemma ProbeStart<K, V>(b: seq<Bucket>, hash: K -> Uint64, shifts: nat, v: seq<Entry<K, V>>, k: K)
    requires shifts <= 64 && |b| == Pow2(64 - shifts)
    ensures SlotOf(hash, shifts, k).home < |b|
    ensures Probing(b, hash, shifts, v, k, 0, Packed(SlotOf(hash, shifts, k), 0), SlotOf(hash, shifts, k).home)
  {
    HomeInRange(hash, shifts, k);
  }

  // Stepping over a bucket that does not hold k misses nothing, whatever the bucket is.
  lemma ProbeMiss<K, V>(b: seq<Bucket>, hash: K -> Uint64, shifts: nat, v: seq<Entry<K, V>>, k: K, j: nat, df: nat,
                        p: nat)
    requires Indexed(b, hash, shifts, v) && Probing(b, hash, shifts, v, k, j, df, p)
    requires j < |b| && !Match(b[p], df, v, k)
    ensures Probing(b, hash, shifts, v, k, j + 1, df + DIST_INC, Next(p, |b|))
  {
    var s := SlotOf(hash, shifts, k);
    forall q | 0 <= q < |b| && b[q].df != 0 && b[q].idx < |v| && v[b[q].idx].key == k
      ensures j + 1 <= Dist(s.home, q, |b|)
    {
      assert LiveOf(hash, shifts, v)[b[q].idx] == s;
      assert b[q].df == Packed(s, Dist(s.home, q, |b|));
      assert Step(s.home, Dist(s.home, q, |b|), |b|) == q;
    }
  }

  // Stored distances stay below the bucket count, so a probe that is not beaten has steps left.
  lemma ProbeBound<K, V>(b: seq<Bucket>, hash: K -> Uint64, shifts: nat, v: seq<Entry<K, V>>, k: K, j: nat, df: nat,
                         p: nat)
    requires Indexed(b, hash, shifts, v) && Probing(b, hash, shifts, v, k, j, df, p)
    requires df <= b[p].df
    ensures j < |b| && b[p].df != 0 && b[p].idx < |v|
    ensures df + DIST_INC >= 2 * DIST_INC && df + DIST_INC <= b[Prev(Next(p, |b|), |b|)].df + DIST_INC
  {}

  // Looking at one bucket: a hit can be followed, and without a match the probe goes on.
  lemma ProbeLook<K, V>(b: seq<Bucket>, hash: K -> Uint64, shifts: nat, v: seq<Entry<K, V>>, k: K, j: nat, df: nat,
                        p: nat)
    requires Indexed(b, hash, shifts, v) && Probing(b, hash, shifts, v, k, j, df, p)
    requires j < |b|
    ensures df == b[p].df ==> b[p].idx < |v|
    ensures !Match(b[p], df, v, k) ==> Probing(b, hash, shifts, v, k, j + 1, df + DIST_INC, Next(p, |b|))
  {}

  lemma StepOver<K, V>(b: seq<Bucket>, hash: K -> Uint64, shifts: nat, v: seq<Entry<K, V>>, k: K, j: nat, df: nat,
                       p: nat)
    requires Indexed(b, hash, shifts, v) && Probing(b, hash, shifts, v, k, j, df, p)
    requires df <= b[p].df && !Match(b[p], df, v, k)
    ensures j < |b| && Probing(b, hash, shifts, v, k, j + 1, df + DIST_INC, Next(p, |b|))
    ensures df + DIST_INC == b[Next(p, |b|)].df ==> b[Next(p, |b|)].idx < |v|
    ensures df == b[p].df ==> b[Next(p, |b|)].df <= df + DIST_INC
  {
    assert Prev(Next(p, |b|), |b|) == p;
    ProbeBound(b, hash, shifts, v, k, j, df, p);
    ProbeMiss(b, hash, shifts, v, k, j, df, p);
    if df + DIST_INC == b[Next(p, |b|)].df {
      ProbeBound(b, hash, shifts, v, k, j + 1, df + DIST_INC, Next(p, |b|));
    }
  }

  // The early exit is safe: a smaller bucket proves that k is absent.
  lemma ProbeEnd<K, V>(b: seq<Bucket>, hash: K -> Uint64, shifts: nat, v: seq<Entry<K, V>>, k: K, j: nat, df: nat,
                       p: nat)
    requires Indexed(b, hash, shifts, v) && Probing(b, hash, shifts, v, k, j, df, p)
    requires df > b[p].df
    ensures !HasKey(v, k)
  {
    if i :| 0 <= i < |v| && v[i].key == k {
      var live := LiveOf(hash, shifts, v);
      assert i in live && live[i] == SlotOf(hash, shifts, k);
      var q: nat :| Holds(b, q, i);
      Reach(b, live, q, j);
      assert false;
    }
  }

  lemma ProbePlace<K, V>(b: seq<Bucket>, hash: K -> Uint64, shifts: nat, v: seq<Entry<K, V>>, k: K, j: nat, df: nat,
                         p: nat)
    requires Indexed(b, hash, shifts, v) && Probing(b, hash, shifts, v, k, j, df, p)
    requires df > b[p].df && (df >= 2 * DIST_INC ==> df <= b[Prev(p, |b|)].df + DIST_INC)
    ensures CanPlace(b, p, df)
    ensures df == Packed(SlotOf(hash, shifts, k), Dist(SlotOf(hash, shifts, k).home, p, |b|))
  {
    if j > 0 {
      var s := SlotOf(hash, shifts, k);
      assert Prev(p, |b|) == Step(s.home, j - 1, |b|);
      StepsLeft(b, LiveOf(hash, shifts, v), s, j - 1, Prev(p, |b|));
    }
  }

  lemma StepsLeft(b: seq<Bucket>, live: map<nat, Slot>, s: Slot, j: nat, p: nat)
    requires Inv(b, live) && p < |b| && b[p].df >= Packed(s, j)
    ensures j + 1 < |b|
    ensures Prev(Next(p, |b|), |b|) == p
  {
    assert SoundAt(b[p], p, |b|, live);
    NeverFullTurn(b, live, p);
  }

  // ---------------------------------------------------------------- the index follows the vector

  lemma IndexNext<K, V>(b: seq<Bucket>, hash: K -> Uint64, shifts: nat, v: seq<Entry<K, V>>, m: nat, p: nat, df: nat)
    requires m < |v| && m + 1 < |b| && Indexed(b, hash, shifts, v[..m])
    requires CanPlace(b, p, df) && SlotOf(hash, shifts, v[m].key).home < |b|
    requires df == Packed(SlotOf(hash, shifts, v[m].key), Dist(SlotOf(hash, shifts, v[m].key).home, p, |b|))
    ensures HasEmpty(b, p)
    ensures Indexed(RobinHood.Placed(b, p, Bucket(df, m)), hash, shifts, v[..m + 1])
  {
    var live := LiveOf(hash, shifts, v[..m]);
    var s := SlotOf(hash, shifts, v[m].key);
    LiveSize(hash, shifts, v[..m]);
    AnyEmpty(b, live, p);
    PlaceKeepsInv(b, live, p, m, s);
    assert live[m := s] == LiveOf(hash, shifts, v[..m + 1]);
  }

  lemma LiveOfMost<K, V>(hash: K -> Uint64, shifts: nat, v: seq<Entry<K, V>>)
    ensures v != [] ==> LiveOf(hash, shifts, v) - {|v| - 1} == LiveOf(hash, shifts, v[..|v| - 1])
  {}

  lemma LiveAfter<K, V>(hash: K -> Uint64, shifts: nat, v: seq<Entry<K, V>>, i: nat)
    requires i + 1 < |v|
    ensures var live := LiveOf(hash, shifts, v) - {i};
            |v| - 1 in live && live[|v| - 1].home == BucketIdxFromHash(hash(v[|v| - 1].key), shifts)
  {}

  lemma IndexErased<K, V>(b: seq<Bucket>, hash: K -> Uint64, shifts: nat, v: seq<Entry<K, V>>, p: nat)
    requires Indexed(b, hash, shifts, v) && p < |b| && b[p].df != 0
    ensures b[p].idx < |v| && HasEmptyAbove(b, p)
    ensures Inv(Erased(b, p), LiveOf(hash, shifts, v) - {b[p].idx})
    ensures b[p].idx + 1 == |v| ==> Indexed(Erased(b, p), hash, shifts, v[..|v| - 1])
  {
    var live := LiveOf(hash, shifts, v);
    assert b[p].idx in live by {
      assert SoundAt(b[p], p, |b|, live);
    }
    hide Inv, Erased;
    LiveOfMost(hash, shifts, v);
    HasEmptyAboveInv(b, live, p);
    EraseKeepsInv(b, live, p);
  }

  lemma MovedLive<K, V>(hash: K -> Uint64, shifts: nat, v: seq<Entry<K, V>>, i: nat)
    requires i + 1 < |v|
    ensures var live := LiveOf(hash, shifts, v) - {i};
            |v| - 1 in live && (live - {|v| - 1})[i := live[|v| - 1]] == LiveOf(hash, shifts, SwapRemove(v, i))
  {}

  // After the erase the bucket of the back entry takes over the erased index.
  lemma IndexMoved<K, V>(b: seq<Bucket>, hash: K -> Uint64, shifts: nat, v: seq<Entry<K, V>>, i: nat, q: nat)
    requires i + 1 < |v| && Inv(b, LiveOf(hash, shifts, v) - {i})
    requires Holds(b, q, |v| - 1)
    ensures Indexed(b[q := Bucket(b[q].df, i)], hash, shifts, SwapRemove(v, i))
  {
    var live := LiveOf(hash, shifts, v) - {i};
    var last := |v| - 1;
    RenameKeepsInv(b, live, q, i);
    MovedLive(hash, shifts, v, i);
  }

  lemma IndexRekeyed<K, V>(b: seq<Bucket>, hash: K -> Uint64, shifts: nat, v: seq<Entry<K, V>>, i: nat, k: K,
                           p: nat, df: nat)
    requires i < |v| < |b| && Inv(b, LiveOf(hash, shifts, v) - {i})
    requires CanPlace(b, p, df) && SlotOf(hash, shifts, k).home < |b|
    requires df == Packed(SlotOf(hash, shifts, k), Dist(SlotOf(hash, shifts, k).home, p, |b|))
    ensures HasEmpty(b, p)
    ensures Indexed(RobinHood.Placed(b, p, Bucket(df, i)), hash, shifts, v[i := Entry(k, v[i].val)])
  {
    hide Inv, LiveOf, SlotOf, RobinHood.Placed, Packed, HasEmpty;
    LiveRekeyed(hash, shifts, v, i, k);
    HasEmptyInv(b, LiveOf(hash, shifts, v) - {i}, p);
    PlaceKeepsInv(b, LiveOf(hash, shifts, v) - {i}, p, i, SlotOf(hash, shifts, k));
    assert Inv(RobinHood.Placed(b, p, Bucket(df, i)), LiveOf(hash, shifts, v[i := Entry(k, v[i].val)]));
    IndexedIsInv(RobinHood.Placed(b, p, Bucket(df, i)), hash, shifts, v[i := Entry(k, v[i].val)]);
  }

  lemma IndexedIsInv<K, V>(b: seq<Bucket>, hash: K -> Uint64, shifts: nat, v: seq<Entry<K, V>>)
    ensures Indexed(b, hash, shifts, v) == Inv(b, LiveOf(hash, shifts, v))
  {}

  lemma LiveRekeyed<K, V>(hash: K -> Uint64, shifts: nat, v: seq<Entry<K, V>>, i: nat, k: K)
    requires i < |v|
    ensures var live := LiveOf(hash, shifts, v) - {i};
            && i !in live && |live| + 1 == |v|
            && live[i := SlotOf(hash, shifts, k)] == LiveOf(hash, shifts, v[i := Entry(k, v[i].val)])
    ensures SlotOf(hash, shifts, k).fp < DIST_INC
  {
    LiveSize(hash, shifts, v);
    assert (LiveOf(hash, shifts, v) - {i}).Keys == LiveOf(hash, shifts, v).Keys - {i};
  }

  lemma SameKeysSameIndex<K, V>(hash: K -> Uint64, shifts: nat, v: seq<Entry<K, V>>, i: nat, val: V)
    requires i < |v|
    ensures LiveOf(hash, shifts, v[i := Entry(v[i].key, val)]) == LiveOf(hash, shifts, v)
  {}

  lemma FewValues<K, V>(b: seq<Bucket>, hash: K -> Uint64, shifts: nat, v: seq<Entry<K, V>>)
    requires Indexed(b, hash, shifts, v)
    ensures |v| < |b|
  {
    LiveSize(hash, shifts, v);
  }

  lemma ClearedIndex<K, V>(b: seq<Bucket>, hash: K -> Uint64, shifts: nat, v: seq<Entry<K, V>>)
    requires |b| > 0 && v == [] && forall p :: 0 <= p < |b| ==> b[p] == EMPTY
    ensures Indexed(b, hash, shifts, v)
  {}

  // ---------------------------------------------------------------- the table

  // What a maximal load factor does: more than no bucket and less than all of them may be used, and more
  // in a table with more buckets.
  ghost predicate LoadPolicy(capacityFor: nat -> nat) {
    && (forall s: nat :: MIN_SHIFTS <= s <= INITIAL_SHIFTS ==> 0 < capacityFor(s) < Pow2(64 - s))
    && (forall s: nat, t: nat :: MIN_SHIFTS <= s < t <= INITIAL_SHIFTS ==> capacityFor(t) < capacityFor(s))
  }

  // Of the rings that are no smaller than that of shift `from`, the one of shift s is the smallest that takes n
  // entries; the largest ring takes what it can.
  ghost predicate Smallest(capacityFor: nat -> nat, from: nat, s: nat, n: nat) {
    && MIN_SHIFTS <= s <= from <= INITIAL_SHIFTS
    && (s > MIN_SHIFTS ==> n <= capacityFor(s))
    && forall t :: s < t <= from ==> capacityFor(t) < n
  }

  class Table<K(==, !new), V(!new)> {
    const hash: K -> Uint64
    // The load factor: how many entries a table of 2^(64-shifts) buckets takes before it grows.
    const capacityFor: nat -> nat
    var values: seq<Entry<K, V>>
    var buckets: array<Bucket>
    var shifts: nat
    var maxCapacity: nat

    ghost predicate Shaped()
      reads this
    {
      && LoadPolicy(capacityFor)
      && MIN_SHIFTS <= shifts <= INITIAL_SHIFTS
      && buckets.Length == Pow2(64 - shifts)
      && maxCapacity == capacityFor(shifts)
    }

    // The table grows before it holds more than it takes.
    ghost predicate Roomy()
      reads this
    {
      shifts == MIN_SHIFTS || |values| <= maxCapacity
    }

    ghost predicate Valid()
      reads this, buckets
    {
      Shaped() && Roomy() && UniqueKeys(values) && Indexed(buckets[..], hash, shifts, values)
    }

    constructor (hash: K -> Uint64, capacityFor: nat -> nat, bucketCount: nat)
      requires LoadPolicy(capacityFor)
      ensures Valid() && fresh(buckets) && values == []
      ensures this.hash == hash && this.capacityFor == capacityFor
      ensures Smallest(capacityFor, INITIAL_SHIFTS, shifts, bucketCount)
    {
      this.hash, this.capacityFor := hash, capacityFor;
      values, shifts, maxCapacity := [], INITIAL_SHIFTS, capacityFor(INITIAL_SHIFTS);
      buckets := new Bucket[Pow2(64 - INITIAL_SHIFTS)];
      new;
      ClearBuckets();
      ClearedIndex(buckets[..], hash, shifts, values);
      if bucketCount != 0 {
        Reserve(bucketCount);
      }
    }

    function Slot(k: K): (s: RobinHood.Slot)
      reads this`shifts
    {
      SlotOf(hash, shifts, k)
    }

    // -------------------------------------------------------------- moving buckets

    method PlaceAndShiftUp(bucket: Bucket, place: nat)
      requires place < buckets.Length && HasEmpty(buckets[..], place)
      modifies buckets
      ensures buckets[..] == RobinHood.Placed(old(buckets[..]), place, bucket)
    {
      ghost var b := buckets[..];
      var n := buckets.Length;
      ghost var r := RunUp(b, place, 0);
      var x, p := bucket, place;
      ghost var j: nat := 0;
      assert RobinHood.Placed(b, place, bucket) == ShiftUp(b, place, r, bucket);
      hide PartlyUp, ShiftUp, RobinHood.Placed, HasEmpty;
      UpStart(b, place, r, bucket);
      while buckets[p].df != 0
        invariant j <= r && p == Step(place, j, n) && x == InHand(b, place, bucket, j)
        invariant buckets[..] == PartlyUp(b, place, r, bucket, j)
        decreases r - j
      {
        UpNext(b, place, r, bucket, j);
        x, buckets[p] := buckets[p], x;
        x := Bucket(x.df + DIST_INC, x.idx);
        p := Next(p, n);
        j := j + 1;
      }
      UpNext(b, place, r, bucket, j);
      buckets[p] := x;
    }

    method EraseAndShiftDown(bucketIdx: nat)
      requires bucketIdx < buckets.Length && HasEmptyAbove(buckets[..], bucketIdx)
      modifies buckets
      ensures buckets[..] == Erased(old(buckets[..]), bucketIdx)
    {
      hide PartlyDown, ShiftDown, RunDown;
      ghost var b := buckets[..];
      var n := buckets.Length;
      ghost var r := RunDown(b, bucketIdx, 0);
      var p, next := bucketIdx, Next(bucketIdx, n);
      ghost var j: nat := 0;
      DownStart(b, bucketIdx, r);
      while buckets[next].df >= 2 * DIST_INC
        invariant j <= r && p == Step(bucketIdx, j, n) && next == Step(bucketIdx, j + 1, n)
        invariant buckets[..] == PartlyDown(b, bucketIdx, r, j)
        decreases r - j
      {
        DownNext(b, bucketIdx, r, j);
        buckets[p] := Bucket(buckets[next].df - DIST_INC, buckets[next].idx);
        p, next := next, Next(next, n);
        j := j + 1;
      }
      DownNext(b, bucketIdx, r, j);
      buckets[p] := EMPTY;
    }

    // The first bucket that is not above the probe for k: where k's bucket belongs.
    method NextWhileLess(k: K, ghost live: map<nat, RobinHood.Slot>) returns (df: nat, p: nat)
      requires Shaped() && Inv(buckets[..], live)
      ensures CanPlace(buckets[..], p, df)
      ensures Slot(k).home < buckets.Length && df == Packed(Slot(k), Dist(Slot(k).home, p, buckets.Length))
    {
      ghost var b := buckets[..];
      HomeInRange(hash, shifts, k);
      df, p := DistAndFingerprintFromHash(hash(k)), BucketIdxFromHash(hash(k), shifts);
      ghost var j: nat := 0;
      while df < buckets[p].df
        invariant j < buckets.Length && p == Step(Slot(k).home, j, buckets.Length) && df == Packed(Slot(k), j)
        invariant df >= 2 * DIST_INC ==> df <= b[Prev(p, buckets.Length)].df + DIST_INC
        decreases buckets.Length - j
      {
        assert b[p] == buckets[p];
        StepsLeft(b, live, Slot(k), j, p);
        df, p := df + DIST_INC, Next(p, buckets.Length);
        j := j + 1;
      }
    }

    // Looks for the bucket of value index i from its home up. Empty buckets also carry index 0,
    // but none lies between a home and the bucket that belongs to it.
    method ScanFor(home: nat, i: nat, ghost live: map<nat, RobinHood.Slot>) returns (p: nat)
      requires Inv(buckets[..], live) && i in live && live[i].home == home
      ensures p < buckets.Length && Holds(buckets[..], p, i)
    {
      ghost var b := buckets[..];
      ghost var q: nat :| Holds(b, q, i);
      ghost var j: nat := 0;
      p := home;
      while buckets[p].idx != i
        invariant j <= Dist(home, q, |b|) && p == Step(home, j, |b|)
        decreases Dist(home, q, |b|) - j
      {
        assert Step(home, Dist(home, q, |b|), |b|) == q;
        p := Next(p, buckets.Length);
        j := j + 1;
      }
      Reach(b, live, q, j);
    }

    method AllocateBucketsFromShift()
      requires MIN_SHIFTS <= shifts <= INITIAL_SHIFTS
      modifies this`buckets, this`maxCapacity
      ensures fresh(buckets) && buckets.Length == Pow2(64 - shifts) && maxCapacity == capacityFor(shifts)
    {
      buckets := new Bucket[Pow2(64 - shifts)];
      maxCapacity := capacityFor(shifts);
    }

    method ClearBuckets()
      modifies buckets
      ensures forall p :: 0 <= p < buckets.Length ==> buckets[p] == EMPTY
    {
      forall p | 0 <= p < buckets.Length {
        buckets[p] := EMPTY;
      }
    }

    method ClearAndFillBucketsFromValues()
      requires Shaped() && Roomy() && UniqueKeys(values) && |values| < buckets.Length
      modifies buckets
      ensures Valid()
    {
      ClearBuckets();
      ClearedIndex(buckets[..], hash, shifts, values[..0]);
      for i := 0 to |values|
        invariant Indexed(buckets[..], hash, shifts, values[..i])
      {
        var df, p := NextWhileLess(values[i].key, LiveOf(hash, shifts, values[..i]));
        IndexNext(buckets[..], hash, shifts, values, i, p, df);
        PlaceAndShiftUp(Bucket(df, i), p);
      }
      assert values[..|values|] == values;
    }

    // Doubles the bucket count; at the last size the newest value is dropped again.
    method IncreaseSize() returns (ok: bool)
      requires Shaped() && UniqueKeys(values) && 0 < |values| <= buckets.Length
      requires shifts == MIN_SHIFTS || |values| <= maxCapacity + 1
      modifies this, buckets
      ensures ok == (old(shifts) > MIN_SHIFTS)
      ensures ok ==> Valid() && fresh(buckets) && values == old(values) && shifts == old(shifts) - 1
      ensures !ok ==> values == old(values[..|values| - 1]) && Shaped()
      ensures !ok ==> shifts == old(shifts) && buckets == old(buckets) && buckets[..] == old(buckets[..])
    {
      if shifts == MIN_SHIFTS {
        values := values[..|values| - 1];
        return false;
      }
      shifts := shifts - 1;
      AllocateBucketsFromShift();
      ClearAndFillBucketsFromValues();
      return true;
    }

    // -------------------------------------------------------------- inserting and finding

    // Probes for k among the first n values: either its index or the place its bucket belongs.
    method Locate(k: K, n: nat) returns (found: bool, index: nat, df: nat, p: nat)
      requires Shaped() && n <= |values| && Indexed(buckets[..], hash, shifts, values[..n])
      ensures found == HasKey(values[..n], k)
      ensures found ==> index < n && values[index].key == k
      ensures !found ==> Slot(k).home < buckets.Length && CanPlace(buckets[..], p, df)
      ensures !found ==> df == Packed(Slot(k), Dist(Slot(k).home, p, buckets.Length))
    {
      hide Inv;
      ghost var b, v := buckets[..], values[..n];
      ProbeStart(b, hash, shifts, v, k);
      index, df, p := 0, DistAndFingerprintFromHash(hash(k)), BucketIdxFromHash(hash(k), shifts);
      ghost var j: nat := 0;
      while df <= buckets[p].df
        invariant Probing(b, hash, shifts, v, k, j, df, p)
        invariant df >= 2 * DIST_INC ==> df <= b[Prev(p, |b|)].df + DIST_INC
        decreases |b| - j
      {
        ProbeBound(b, hash, shifts, v, k, j, df, p);
        if df == buckets[p].df && values[buckets[p].idx].key == k {
          assert v[buckets[p].idx].key == k;
          return true, buckets[p].idx, df, p;
        }
        ProbeMiss(b, hash, shifts, v, k, j, df, p);
        df, p := df + DIST_INC, Next(p, buckets.Length);
        j := j + 1;
      }
      ProbeEnd(b, hash, shifts, v, k, j, df, p);
      ProbePlace(b, hash, shifts, v, k, j, df, p);
      found := false;
    }

    // Gives the newest value its bucket, growing the table when it is full.
    method PlaceBack(df: nat, p: nat) returns (ok: bool)
      requires Shaped() && UniqueKeys(values) && 0 < |values| <= buckets.Length
      requires shifts == MIN_SHIFTS || |values| <= maxCapacity + 1
      requires Indexed(buckets[..], hash, shifts, values[..|values| - 1])
      requires CanPlace(buckets[..], p, df)
      requires var s := Slot(values[|values| - 1].key);
               s.home < buckets.Length && df == Packed(s, Dist(s.home, p, buckets.Length))
      modifies this, buckets
      ensures Valid() && (buckets == old(buckets) || fresh(buckets))
      ensures ok == !(old(|values|) > old(maxCapacity) && old(shifts) == MIN_SHIFTS)
      ensures values == if ok then old(values) else old(values[..|values| - 1])
      ensures shifts == old(shifts) - (if old(|values| > maxCapacity) && ok then 1 else 0)
      ensures shifts == old(shifts) ==> buckets == old(buckets)
    {
      ok := true;
      if |values| > maxCapacity {
        ok := IncreaseSize();
      } else {
        var i := |values| - 1;
        IndexNext(buckets[..], hash, shifts, values, i, p, df);
        PlaceAndShiftUp(Bucket(df, i), p);
        assert values[..i + 1] == values;
      }
    }

    ghost predicate Full()
      reads this
    {
      |values| >= maxCapacity && shifts == MIN_SHIFTS
    }

    method Emplace(k: K, v: V) returns (r: EmplaceResult)
      requires Valid()
      modifies this, buckets
      ensures Valid() && (buckets == old(buckets) || fresh(buckets))
      ensures Emplaced(old(values), old(Full()), k, v, values, r)
      ensures shifts == old(shifts) - (if r.Placed? && r.inserted && old(|values| >= maxCapacity) then 1 else 0)
      ensures shifts == old(shifts) ==> buckets == old(buckets)
    {
      hide Inv, UniqueKeys;
      FewValues(buckets[..], hash, shifts, values);
      ghost var v0 := values;
      values := values + [Entry(k, v)];
      assert values[..|values| - 1] == v0;
      var found, index, df, p := Locate(k, |values| - 1);
      if found {
        values := values[..|values| - 1];
        assert values == v0;
        return Placed(index, false);
      }
      UniqueAppend(v0, Entry(k, v));
      var ok := PlaceBack(df, p);
      r := if ok then Placed(|values| - 1, true) else BucketOverflow;
    }

    // The value is only built once the probe has shown that the key is new.
    method TryEmplace(k: K, v: V) returns (r: EmplaceResult)
      requires Valid()
      modifies this, buckets
      ensures Valid() && (buckets == old(buckets) || fresh(buckets))
      ensures Emplaced(old(values), old(Full()), k, v, values, r)
      ensures shifts == old(shifts) - (if r.Placed? && r.inserted && old(|values| >= maxCapacity) then 1 else 0)
      ensures shifts == old(shifts) ==> buckets == old(buckets)
    {
      hide Inv, UniqueKeys;
      FewValues(buckets[..], hash, shifts, values);
      ghost var v0 := values;
      var found, index, df, p := TryLocate(k);
      if found {
        return Placed(index, false);
      }
      UniqueAppend(v0, Entry(k, v));
      values := values + [Entry(k, v)];
      assert values[..|v0|] == v0;
      var ok := PlaceBack(df, p);
      r := if ok then Placed(|values| - 1, true) else BucketOverflow;
    }

    method TryLocate(k: K) returns (found: bool, index: nat, df: nat, p: nat)
      requires Shaped() && Indexed(buckets[..], hash, shifts, values)
      ensures found == HasKey(values, k)
      ensures found ==> index < |values| && values[index].key == k
      ensures !found ==> Slot(k).home < buckets.Length && CanPlace(buckets[..], p, df)
      ensures !found ==> df == Packed(Slot(k), Dist(Slot(k).home, p, buckets.Length))
    {
      hide Inv;
      ghost var b := buckets[..];
      ProbeStart(b, hash, shifts, values, k);
      index, df, p := 0, DistAndFingerprintFromHash(hash(k)), BucketIdxFromHash(hash(k), shifts);
      ghost var j: nat := 0;
      while true
        invariant Probing(b, hash, shifts, values, k, j, df, p)
        invariant df >= 2 * DIST_INC ==> df <= b[Prev(p, |b|)].df + DIST_INC
        decreases |b| - j
      {
        if df > buckets[p].df {
          ProbeEnd(b, hash, shifts, values, k, j, df, p);
          ProbePlace(b, hash, shifts, values, k, j, df, p);
          return false, 0, df, p;
        }
        ProbeBound(b, hash, shifts, values, k, j, df, p);
        if df == buckets[p].df && values[buckets[p].idx].key == k {
          return true, buckets[p].idx, df, p;
        }
        ProbeMiss(b, hash, shifts, values, k, j, df, p);
        df, p := df + DIST_INC, Next(p, buckets.Length);
        j := j + 1;
      }
    }

    method InsertOrAssign(k: K, v: V) returns (r: EmplaceResult)
      requires Valid()
      modifies this, buckets
      ensures Valid() && (buckets == old(buckets) || fresh(buckets))
      ensures r.Placed? && !r.inserted ==> r.index < |old(values)| && old(values)[r.index].key == k
      ensures r.Placed? && !r.inserted ==> values == old(values)[r.index := Entry(k, v)]
      ensures !(r.Placed? && !r.inserted) ==> Emplaced(old(values), old(Full()), k, v, values, r)
      ensures shifts == old(shifts) - (if r.Placed? && r.inserted && old(|values| >= maxCapacity) then 1 else 0)
      ensures shifts == old(shifts) ==> buckets == old(buckets)
    {
      r := TryEmplace(k, v);
      if r.Placed? && !r.inserted {
        AssignAt(r.index, v);
      }
    }

    // Writing through an iterator changes the mapped value only.
    method AssignAt(i: nat, v: V)
      requires Valid() && i < |values|
      modifies this`values
      ensures Valid() && values == old(values)[i := Entry(old(values)[i].key, v)]
    {
      UniqueAssign(values, i, values[i].key, v);
      SameKeysSameIndex(hash, shifts, values, i, v);
      values := values[i := Entry(values[i].key, v)];
    }

    // Looks at two buckets without the early exit before it starts to loop.
    method Find(k: K) returns (i: nat)
      requires Valid()
      ensures i <= |values|
      ensures i < |values| ==> values[i].key == k
      ensures i == |values| <==> !HasKey(values, k)
    {
      if |values| == 0 {
        return |values|;
      }
      ghost var b := buckets[..];
      ProbeStart(b, hash, shifts, values, k);
      Pow2Increasing(1, 64 - shifts);
      var df: nat, p: nat := DistAndFingerprintFromHash(hash(k)), BucketIdxFromHash(hash(k), shifts);
      ProbeLook(b, hash, shifts, values, k, 0, df, p);
      if df == buckets[p].df && values[buckets[p].idx].key == k {
        return buckets[p].idx;
      }
      df, p := df + DIST_INC, Next(p, buckets.Length);
      ProbeLook(b, hash, shifts, values, k, 1, df, p);
      if df == buckets[p].df && values[buckets[p].idx].key == k {
        return buckets[p].idx;
      }
      df, p := df + DIST_INC, Next(p, buckets.Length);
      i := FindLoop(k, df, p, 2);
    }

    // The rest of the lookup, after the buckets that were looked at directly.
    method FindLoop(k: K, df0: nat, p0: nat, ghost j0: nat) returns (i: nat)
      requires Shaped() && Indexed(buckets[..], hash, shifts, values)
      requires Probing(buckets[..], hash, shifts, values, k, j0, df0, p0)
      ensures i <= |values|
      ensures i < |values| ==> values[i].key == k
      ensures i == |values| <==> !HasKey(values, k)
    {
      ghost var b := buckets[..];
      var df: nat, p: nat := df0, p0;
      ghost var j: nat := j0;
      while true
        invariant Probing(b, hash, shifts, values, k, j, df, p)
        decreases |b| - j
      {
        if df > buckets[p].df {
          ProbeEnd(b, hash, shifts, values, k, j, df, p);
          return |values|;
        }
        ProbeBound(b, hash, shifts, values, k, j, df, p);
        if df == buckets[p].df && values[buckets[p].idx].key == k {
          return buckets[p].idx;
        }
        ProbeMiss(b, hash, shifts, values, k, j, df, p);
        df, p := df + DIST_INC, Next(p, buckets.Length);
        j := j + 1;
      }
    }

    // -------------------------------------------------------------- erasing

    // Erases the value of a bucket and repairs the index of the value moved into the hole.
    method DoErase(bucketIdx: nat)
      requires Valid() && bucketIdx < buckets.Length && buckets[bucketIdx].df != 0
      requires buckets[bucketIdx].idx < |values|
      modifies this`values, buckets
      ensures Valid() && values == SwapRemove(old(values), old(buckets[bucketIdx].idx))
    {
      hide Inv, UniqueKeys, LiveOf, Erased;
      ghost var v := values;
      var i := buckets[bucketIdx].idx;
      IndexErased(buckets[..], hash, shifts, v, bucketIdx);
      UniqueSwapRemove(v, i);
      EraseAndShiftDown(bucketIdx);
      if i != |values| - 1 {
        MoveBackTo(i);
      }
      values := values[..|values| - 1];
    }

    // Copies the back value into the hole at i and repoints the bucket of the back value.
    method MoveBackTo(i: nat)
      requires Shaped() && i + 1 < |values|
      requires Inv(buckets[..], LiveOf(hash, shifts, values) - {i})
      modifies this`values, buckets
      ensures values == old(values)[i := old(values)[|old(values)| - 1]]
      ensures Indexed(buckets[..], hash, shifts, SwapRemove(old(values), i))
    {
      hide Inv, SwapRemove, LiveOf;
      ghost var v := values;
      ghost var live := LiveOf(hash, shifts, v) - {i};
      var last := |values| - 1;
      LiveAfter(hash, shifts, v, i);
      values := values[i := values[last]];
      var p := ScanFor(BucketIdxFromHash(hash(values[i].key), shifts), last, live);
      ghost var b := buckets[..];
      IndexMoved(b, hash, shifts, v, i, p);
      buckets[p] := Bucket(buckets[p].df, i);
      assert buckets[..] == b[p := Bucket(b[p].df, i)];
    }

    method EraseAt(i: nat)
      requires Valid() && i < |values|
      modifies this`values, buckets
      ensures Valid() && values == SwapRemove(old(values), i)
    {
      ghost var live := LiveOf(hash, shifts, values);
      var p := ScanFor(BucketIdxFromHash(hash(values[i].key), shifts), i, live);
      DoErase(p);
    }

    method EraseKey(k: K) returns (count: nat)
      requires Valid()
      modifies this`values, buckets
      ensures Valid()
      ensures count == if HasKey(old(values), k) then 1 else 0
      ensures values == if count == 1 then SwapRemove(old(values), KeyIndex(old(values), k)) else old(values)
    {
      if |values| == 0 {
        return 0;
      }
      var found, p := FindBucket(k);
      if !found {
        return 0;
      }
      DoErase(p);
      return 1;
    }

    // Past everything above the probe, then past equal buckets of other keys.
    method FindBucket(k: K) returns (found: bool, p: nat)
      requires Shaped() && Indexed(buckets[..], hash, shifts, values)
      ensures found == HasKey(values, k)
      ensures found ==>
                && p < buckets.Length && buckets[p].df != 0
                && buckets[p].idx < |values| && values[buckets[p].idx].key == k
    {
      hide Inv;
      ghost var b := buckets[..];
      ProbeStart(b, hash, shifts, values, k);
      var df: nat := DistAndFingerprintFromHash(hash(k));
      p := BucketIdxFromHash(hash(k), shifts);
      ghost var j: nat := 0;
      while df < buckets[p].df
        invariant Probing(b, hash, shifts, values, k, j, df, p)
        decreases |b| - j
      {
        StepOver(b, hash, shifts, values, k, j, df, p);
        df, p := df + DIST_INC, Next(p, buckets.Length);
        j := j + 1;
      }
      assert df >= b[p].df;
      if df == buckets[p].df {
        ProbeBound(b, hash, shifts, values, k, j, df, p);
      }
      while df == buckets[p].df && values[buckets[p].idx].key != k
        invariant Probing(b, hash, shifts, values, k, j, df, p)
        invariant df == buckets[p].df ==> buckets[p].idx < |values|
        invariant df >= buckets[p].df
        decreases |b| - j
      {
        StepOver(b, hash, shifts, values, k, j, df, p);
        df, p := df + DIST_INC, Next(p, buckets.Length);
        j := j + 1;
      }
      found := df == buckets[p].df;
      if !found {
        ProbeEnd(b, hash, shifts, values, k, j, df, p);
      }
    }

    // Erases from left to right while the holes are filled from beyond `last`, then from the back.
    method EraseRange(first: nat, last: nat)
      requires Valid() && first <= last <= |values|
      modifies this`values, buckets
      ensures Valid() && values == RangeErased(old(values), first, last)
    {
      hide *;
      ghost var v := values;
      var mid := first + if last - first <= |values| - last then last - first else |values| - last;
      var idx: nat := first;
      RangeStart(v, first, last);
      while idx != mid
        invariant first <= idx <= mid
        invariant Valid() && values == RangePart(v, first, last, idx - first, last)
      {
        RangeFromLeft(v, first, last, idx - first);
        EraseAt(idx);
        idx := idx + 1;
      }
      idx := last;
      while idx != mid
        invariant mid <= idx <= last
        invariant Valid() && values == RangePart(v, first, last, mid - first, idx)
      {
        idx := idx - 1;
        RangeFromRight(v, first, last, idx);
        EraseAt(idx);
      }
      RangeDone(v, first, last);
    }

    // Walks from the back so that a value moved into a hole has been tested already.
    method EraseIf(pred: Entry<K, V> -> bool) returns (erased: nat, ghost tested: seq<Entry<K, V>>)
      requires Valid()
      modifies this`values, buckets
      ensures Valid()
      ensures multiset(values) == multiset(Kept(old(values), pred))
      ensures erased == |old(values)| - |Kept(old(values), pred)|
      ensures tested == Reversed(old(values))
    {
      hide *;
      ghost var v := values;
      var oldSize := |values|;
      var idx: nat := oldSize;
      tested := [];
      SweepStart(v, pred);
      while idx != 0
        invariant idx <= |values| && Valid() && Swept(v, pred, idx, values, tested)
      {
        idx := idx - 1;
        SweepStep(v, pred, idx + 1, values, tested);
        tested := tested + [values[idx]];
        if pred(values[idx]) {
          EraseAt(idx);
        }
      }
      SweepDone(v, pred, values, tested);
      erased := oldSize - |values|;
    }

    // -------------------------------------------------------------- changing a key in place

    method ReplaceKey(i: nat, k: K) returns (index: nat, ok: bool)
      requires Valid() && i < |values|
      modifies this`values, buckets
      ensures Valid() && index < |values| && values[index].key == k
      ensures ok == !HasKey(old(values), k)
      ensures values == if ok then old(values)[i := Entry(k, old(values)[i].val)] else old(values)
      ensures ok ==> index == i
    {
      hide Inv, UniqueKeys;
      assert values[..|values|] == values;
      var found, at, _, _ := Locate(k, |values|);
      if found {
        return at, false;
      }
      ghost var v := values;
      ghost var live := LiveOf(hash, shifts, v);
      FewValues(buckets[..], hash, shifts, v);
      UniqueAssign(v, i, k, v[i].val);
      var oldHome := BucketIdxFromHash(hash(values[i].key), shifts);
      values := values[i := Entry(k, values[i].val)];
      var p := ScanFor(oldHome, i, live);
      IndexErased(buckets[..], hash, shifts, v, p);
      EraseAndShiftDown(p);
      var df, q := NextWhileLess(k, live - {i});
      IndexRekeyed(buckets[..], hash, shifts, v, i, k, q, df);
      PlaceAndShiftUp(Bucket(df, i), q);
      return i, true;
    }

    // -------------------------------------------------------------- whole-table operations

    method Clear()
      requires Valid()
      modifies this`values, buckets
      ensures Valid() && values == []
    {
      values := [];
      ClearBuckets();
      ClearedIndex(buckets[..], hash, shifts, values);
    }

    // The largest shift, hence the smallest table, that takes `size` values.
    method CalcShiftsForSize(size: nat) returns (s: nat)
      requires Shaped()
      ensures Smallest(capacityFor, INITIAL_SHIFTS, s, size)
    {
      s := INITIAL_SHIFTS;
      while s > MIN_SHIFTS && capacityFor(s) < size
        invariant MIN_SHIFTS <= s <= INITIAL_SHIFTS
        invariant forall t :: s < t <= INITIAL_SHIFTS ==> capacityFor(t) < size
      {
        s := s - 1;
      }
    }

    method Rehash(count: nat)
      requires Valid()
      modifies this, buckets
      ensures Valid() && values == old(values) && (buckets == old(buckets) || fresh(buckets))
      ensures Smallest(capacityFor, INITIAL_SHIFTS, shifts, if count < |values| then |values| else count)
      ensures shifts == old(shifts) ==> buckets == old(buckets)
    {
      FewValues(buckets[..], hash, shifts, values);
      var s := CalcShiftsForSize(if count < |values| then |values| else count);
      if s != shifts {
        if s < shifts {
          Pow2Grows(s, shifts);
        }
        shifts := s;
        AllocateBucketsFromShift();
        ClearAndFillBucketsFromValues();
      }
    }

    method Reserve(count: nat)
      requires Valid()
      modifies this, buckets
      ensures Valid() && values == old(values) && (buckets == old(buckets) || fresh(buckets))
      ensures Smallest(capacityFor, old(shifts), shifts, if count < |values| then |values| else count)
      ensures shifts == old(shifts) ==> buckets == old(buckets)
    {
      FewValues(buckets[..], hash, shifts, values);
      var s := CalcShiftsForSize(if count < |values| then |values| else count);
      if s < shifts {
        Pow2Grows(s, shifts);
        shifts := s;
        AllocateBucketsFromShift();
        ClearAndFillBucketsFromValues();
      }
    }

    // Adopts a container whose keys may repeat.
    method Replace(container: seq<Entry<K, V>>) returns (ok: bool)
      requires Valid()
      modifies this, buckets
      ensures Valid() && (buckets == old(buckets) || fresh(buckets))
      ensures ok == (|container| < Pow2(64 - MIN_SHIFTS))
      ensures values == if ok then Deduped(container, 0) else old(values)
      ensures if ok then Smallest(capacityFor, old(shifts), shifts, |container|) else shifts == old(shifts)
      ensures shifts == old(shifts) ==> buckets == old(buckets)
    {
      hide Inv, UniqueKeys;
      if |container| >= Pow2(64 - MIN_SHIFTS) {
        return false;
      }
      var s := CalcShiftsForSize(|container|);
      if s < shifts {
        shifts := s;
        AllocateBucketsFromShift();
      } else {
        Pow2Grows(shifts, s);
      }
      ClearBuckets();
      values := container;
      ClearedIndex(buckets[..], hash, shifts, values[..0]);
      FillUnique();
      return true;
    }

    method FillUnique()
      requires Shaped() && Roomy() && |values| < buckets.Length && Indexed(buckets[..], hash, shifts, values[..0])
      modifies this`values, buckets
      ensures Valid() && values == Deduped(old(values), 0)
    {
      hide Inv, UniqueKeys;
      ghost var v := values;
      var i := 0;
      EmptyUnique(values[..0]);
      while i != |values|
        invariant i <= |values| < buckets.Length && Roomy()
        invariant Deduped(values, i) == Deduped(v, 0)
        invariant UniqueKeys(values[..i]) && Indexed(buckets[..], hash, shifts, values[..i])
        decreases |values| - i
      {
        var found, _, df, p := Locate(values[i].key, i);
        if found {
          SwapRemoveKeepsPrefix(values, i);
          if i != |values| - 1 {
            values := values[i := values[|values| - 1]];
          }
          values := values[..|values| - 1];
        } else {
          IndexNext(buckets[..], hash, shifts, values, i, p, df);
          PlaceAndShiftUp(Bucket(df, i), p);
          UniqueAppend(values[..i], values[i]);
          assert values[..i] + [values[i]] == values[..i + 1];
          i := i + 1;
        }
      }
      assert values[..i] == values;
    }
  }
}
