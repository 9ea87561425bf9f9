/** What the vector operations of the table mean for the finite map it stands for. */
module TableLaws {
  import opened DenseTable
  import opened Options
  import opened RobinHood

  // Looking a key up in the map and finding its entry in the vector are the same thing.
  lemma {:induction false} Lookup<K(!new), V(!new)>(v: seq<Entry<K, V>>, k: K, val: V)
    requires UniqueKeys(v)
    ensures k in AsMap(v) && AsMap(v)[k] == val <==> Entry(k, val) in v
  {
    if v != [] {
      var w, e := v[..|v| - 1], v[|v| - 1];
      Lookup(w, k, val);
      assert v == w + [e];
      assert UniqueKeys(w);
      if e.key == k {
        assert Entry(k, val) !in w;
      }
    }
  }

  // Vectors with the same entries, in whatever order, are the same map.
  lemma SameEntriesSameMap<K(!new), V(!new)>(v: seq<Entry<K, V>>, m: map<K, V>)
    requires UniqueKeys(v)
    requires forall k, val :: Entry(k, val) in v <==> k in m && m[k] == val
    ensures AsMap(v) == m
  {
    forall k
      ensures k in AsMap(v) <==> k in m
      ensures k in m ==> AsMap(v)[k] == m[k]
    {
      if k in m {
        Lookup(v, k, m[k]);
      }
      if k in AsMap(v) {
        Lookup(v, k, AsMap(v)[k]);
      }
    }
  }

  lemma AppendLaw<K(!new), V(!new)>(v: seq<Entry<K, V>>, k: K, val: V)
    ensures AsMap(v + [Entry(k, val)]) == AsMap(v)[k := val]
  {}

  lemma AssignLaw<K(!new), V(!new)>(v: seq<Entry<K, V>>, i: nat, val: V)
    requires UniqueKeys(v) && i < |v|
    ensures AsMap(v[i := Entry(v[i].key, val)]) == AsMap(v)[v[i].key := val]
  {
    var w := v[i := Entry(v[i].key, val)];
    forall k, x
      ensures Entry(k, x) in w <==> k in AsMap(v)[v[i].key := val] && AsMap(v)[v[i].key := val][k] == x
    {
      Lookup(v, k, x);
      if k == v[i].key {
        assert w[i] == Entry(k, val);
      } else {
        MemberOfUpdate(v, i, Entry(v[i].key, val), Entry(k, x));
      }
    }
    SameEntriesSameMap(w, AsMap(v)[v[i].key := val]);
  }

  lemma MemberOfUpdate<T>(v: seq<T>, i: nat, e: T, x: T)
    requires i < |v| && x != v[i] && x != e
    ensures x in v[i := e] <==> x in v
  {
    if x in v {
      var j :| 0 <= j < |v| && v[j] == x;
      assert v[i := e][j] == x;
    }
  }

  lemma SwapRemoveMembers<K, V>(v: seq<Entry<K, V>>, i: nat, x: Entry<K, V>)
    requires i < |v| && UniqueKeys(v)
    ensures x in SwapRemove(v, i) <==> x in v && x != v[i]
  {
    var w := SwapRemove(v, i);
    if x in v && x != v[i] {
      var j :| 0 <= j < |v| && v[j] == x;
      assert x == w[if j == |v| - 1 then i else j];
    }
  }

  lemma EraseLaw<K(!new), V(!new)>(v: seq<Entry<K, V>>, i: nat)
    requires UniqueKeys(v) && i < |v|
    ensures UniqueKeys(SwapRemove(v, i))
    ensures AsMap(SwapRemove(v, i)) == AsMap(v) - {v[i].key}
  {
    var w, m := SwapRemove(v, i), AsMap(v) - {v[i].key};
    UniqueSwapRemove(v, i);
    forall k, x
      ensures Entry(k, x) in w <==> k in m && m[k] == x
    {
      Lookup(v, k, x);
      SwapRemoveMembers(v, i, Entry(k, x));
      if Entry(k, x) in v && k == v[i].key {
        assert Entry(k, x) == v[i];
      }
    }
    SameEntriesSameMap(w, m);
  }

  lemma RekeyLaw<K(!new), V(!new)>(v: seq<Entry<K, V>>, i: nat, k: K)
    requires UniqueKeys(v) && i < |v| && !HasKey(v, k)
    ensures UniqueKeys(v[i := Entry(k, v[i].val)])
    ensures AsMap(v[i := Entry(k, v[i].val)]) == (AsMap(v) - {v[i].key})[k := v[i].val]
  {
    var w, m := v[i := Entry(k, v[i].val)], (AsMap(v) - {v[i].key})[k := v[i].val];
    UniqueAssign(v, i, k, v[i].val);
    forall q, x
      ensures Entry(q, x) in w <==> q in m && m[q] == x
    {
      Lookup(v, q, x);
      if q == k {
        assert w[i] == Entry(k, v[i].val);
      } else if q == v[i].key {
        assert q !in m;
      } else {
        MemberOfUpdate(v, i, Entry(k, v[i].val), Entry(q, x));
      }
    }
    SameEntriesSameMap(w, m);
  }

  // ---------------------------------------------------------------- bulk operations

  lemma {:induction false} ReversedMultiset<T>(s: seq<T>)
    ensures multiset(Reversed(s)) == multiset(s)
  {
    if s != [] {
      ReversedMultiset(s[1..]);
      assert s == [s[0]] + s[1..];
    }
  }

  // A range erase keeps the prefix in place and, up to order, everything behind the range.
  lemma RangeEraseLaw<K, V>(v: seq<Entry<K, V>>, first: nat, last: nat)
    requires first <= last <= |v|
    ensures |RangeErased(v, first, last)| == |v| - (last - first)
    ensures RangeErased(v, first, last)[..first] == v[..first]
    ensures multiset(RangeErased(v, first, last)[first..]) == multiset(v[last..])
  {
    var moved := if last - first <= |v| - last then last - first else |v| - last;
    var prefix, back, rest := v[..first], v[|v| - moved..], v[last..|v| - moved];
    assert RangeErased(v, first, last) == prefix + Reversed(back) + rest;
    TailSplit(v, last, moved);
    ReversedMultiset(back);
    hide *;
    Regroup(prefix, Reversed(back), rest);
    Joined(prefix, Reversed(back) + rest);
    Joined(Reversed(back), rest);
    Joined(rest, back);
  }

  lemma TailSplit<T>(v: seq<T>, last: nat, m: nat)
    requires last + m <= |v|
    ensures v[last..] == v[last..|v| - m] + v[|v| - m..]
  {}

  lemma Regroup<T>(a: seq<T>, b: seq<T>, c: seq<T>)
    ensures a + b + c == a + (b + c)
  {}

  lemma Joined<T>(a: seq<T>, b: seq<T>)
    ensures (a + b)[..|a|] == a && (a + b)[|a|..] == b
    ensures multiset(a + b) == multiset(a) + multiset(b)
  {}

  lemma {:induction false} KeptMembers<K, V>(v: seq<Entry<K, V>>, pred: Entry<K, V> -> bool, e: Entry<K, V>)
    ensures multiset(Kept(v, pred))[e] == if pred(e) then 0 else multiset(v)[e]
  {
    if v != [] {
      KeptMembers(v[1..], pred, e);
      assert multiset(v) == multiset{v[0]} + multiset(v[1..]) by {
        assert v == [v[0]] + v[1..];
      }
    }
  }

  // erase_if leaves the map restricted to the entries that fail the predicate.
  lemma EraseIfLaw<K(!new), V(!new)>(v: seq<Entry<K, V>>, pred: Entry<K, V> -> bool, w: seq<Entry<K, V>>)
    requires UniqueKeys(v) && UniqueKeys(w) && multiset(w) == multiset(Kept(v, pred))
    ensures AsMap(w) == map k | k in AsMap(v) && !pred(Entry(k, AsMap(v)[k])) :: AsMap(v)[k]
  {
    var m := map k | k in AsMap(v) && !pred(Entry(k, AsMap(v)[k])) :: AsMap(v)[k];
    forall k, x
      ensures Entry(k, x) in w <==> k in m && m[k] == x
    {
      Lookup(v, k, x);
      KeptMembers(v, pred, Entry(k, x));
      assert Entry(k, x) in w <==> multiset(w)[Entry(k, x)] > 0;
      assert Entry(k, x) in v <==> multiset(v)[Entry(k, x)] > 0;
    }
    SameEntriesSameMap(w, m);
  }

  // Loading a container keeps its key set, one entry per key, every entry one of the container's,
  // and everything before the first repeated key where it was.
  lemma {:induction false} DedupedLaw<K(!new), V(!new)>(v: seq<Entry<K, V>>, i: nat)
    requires i <= |v| && UniqueKeys(v[..i])
    ensures UniqueKeys(Deduped(v, i)) && v[..i] <= Deduped(v, i)
    ensures forall e :: e in Deduped(v, i) ==> e in v
    ensures forall k :: HasKey(Deduped(v, i), k) <==> HasKey(v, k)
    decreases |v| - i
  {
    if i == |v| {
      assert v[..i] == v;
    } else if HasKey(v[..i], v[i].key) {
      var w := SwapRemove(v, i);
      SwapRemoveKeepsPrefix(v, i);
      DedupedLaw(w, i);
      assert forall e :: e in w ==> e in v;
      forall k
        ensures HasKey(w, k) <==> HasKey(v, k)
      {
        DroppedKeyStays(v, i, k);
      }
    } else {
      assert v[..i + 1] == v[..i] + [v[i]];
      UniqueAppend(v[..i], v[i]);
      DedupedLaw(v, i + 1);
    }
  }

  /** Which entries w of v survive, and where: the first i stay, and so do later ones as long as no entry before them
  in w has their key; each other place takes one of the entries behind w, from the back on, passing over those whose
  key w already holds. `from` says where each surviving entry was. */
  ghost predicate Survivors<K(!new), V(!new)>(v: seq<Entry<K, V>>, i: nat, w: seq<Entry<K, V>>, from: seq<nat>) {
    && |from| == |w| && i <= |w| <= |v|
    && (forall p :: 0 <= p < |w| ==> from[p] < |v| && w[p] == v[from[p]])
    && (forall p :: 0 <= p < |w| ==>
          if i <= p && HasKey(w[..p], v[p].key) then |w| <= from[p] else from[p] == p)
    && (forall p, q :: 0 <= p < q < |w| && from[p] != p && from[q] != q ==> from[q] < from[p])
    && (forall p, q: nat :: 0 <= p < |w| && from[p] != p && from[p] < q < |v| && q !in from ==>
          HasKey(w[..p], v[q].key))
  }

  lemma {:induction false} DedupedExactly<K(!new), V(!new)>(v: seq<Entry<K, V>>, i: nat) returns (from: seq<nat>)
    requires i <= |v| && UniqueKeys(v[..i])
    ensures Survivors(v, i, Deduped(v, i), from)
    decreases |v| - i
  {
    hide Survivors, HasKey, SwapRemove, UniqueKeys;
    DedupedLaw(v, i);
    var w := Deduped(v, i);
    if i == |v| {
      from := seq(|v|, p => p);
      AllStay(v, from);
    } else if HasKey(v[..i], v[i].key) {
      SwapRemoveKeepsPrefix(v, i);
      var f := DedupedExactly(SwapRemove(v, i), i);
      SurvivorsSizes(SwapRemove(v, i), i, w, f);
      from := seq(|w|, p requires 0 <= p < |w| => if f[p] == i then |v| - 1 else f[p]);
      SurvivorsOfDrop(v, i, w, f, from);
    } else {
      assert v[..i + 1] == v[..i] + [v[i]];
      UniqueAppend(v[..i], v[i]);
      from := DedupedExactly(v, i + 1);
      DedupedLaw(v, i + 1);
      OneMoreStays(v, i, w, from);
    }
  }

  lemma AllStay<K(!new), V(!new)>(v: seq<Entry<K, V>>, from: seq<nat>)
    requires |from| == |v| && forall p :: 0 <= p < |v| ==> from[p] == p
    ensures Survivors(v, |v|, v, from)
  {}

  lemma SurvivorsSizes<K(!new), V(!new)>(v: seq<Entry<K, V>>, i: nat, w: seq<Entry<K, V>>, from: seq<nat>)
    requires Survivors(v, i, w, from)
    ensures |from| == |w| && i <= |w|
  {}

  lemma OneMoreStays<K(!new), V(!new)>(v: seq<Entry<K, V>>, i: nat, w: seq<Entry<K, V>>, from: seq<nat>)
    requires i < |v| && Survivors(v, i + 1, w, from) && v[..i + 1] <= w && !HasKey(v[..i], v[i].key)
    ensures Survivors(v, i, w, from)
  {
    hide HasKey;
    assert w[..i] == w[..i + 1][..i] == v[..i + 1][..i] == v[..i];
  }

  // The step of that in which the entry at i is dropped and the last one takes its place.
  lemma SurvivorsOfDrop<K(!new), V(!new)>(v: seq<Entry<K, V>>, i: nat, w: seq<Entry<K, V>>, f: seq<nat>,
                                          from: seq<nat>)
    requires i < |v| && Survivors(SwapRemove(v, i), i, w, f) && |from| == |w|
    requires w[..i] == v[..i] && HasKey(v[..i], v[i].key)
    requires forall p :: 0 <= p < |w| ==> from[p] == if f[p] == i then |v| - 1 else f[p]
    ensures Survivors(v, i, w, from)
  {
    AllPassedOver(v, i, w, f, from);
    hide HasKey;
    var u := SwapRemove(v, i);
    forall p | 0 <= p < |w|
      ensures if i <= p && HasKey(w[..p], v[p].key) then |w| <= from[p] else from[p] == p
    {
      if p == i {
        assert w[..i] == v[..i];
      } else {
        assert u[p] == v[p];
      }
    }
  }

  lemma AllPassedOver<K(!new), V(!new)>(v: seq<Entry<K, V>>, i: nat, w: seq<Entry<K, V>>, f: seq<nat>, from: seq<nat>)
    requires i < |v| && Survivors(SwapRemove(v, i), i, w, f) && |from| == |w|
    requires forall p :: 0 <= p < |w| ==> from[p] == if f[p] == i then |v| - 1 else f[p]
    ensures forall p, q: nat :: 0 <= p < |w| && from[p] != p && from[p] < q < |v| && q !in from ==>
              HasKey(w[..p], v[q].key)
  {
    hide Survivors, HasKey, SwapRemove;
    forall p, q: nat | 0 <= p < |w| && from[p] != p && from[p] < q < |v| && q !in from
      ensures HasKey(w[..p], v[q].key)
    {
      if q == |v| - 1 {
        LastPassedOver(v, i, w, f, from, p);
      } else {
        PassedOver(v, i, w, f, from, p, q);
      }
    }
  }

  lemma LastPassedOver<K(!new), V(!new)>(v: seq<Entry<K, V>>, i: nat, w: seq<Entry<K, V>>, f: seq<nat>,
                                         from: seq<nat>, p: nat)
    requires i < |v| && Survivors(SwapRemove(v, i), i, w, f) && |from| == |w|
    requires forall n :: 0 <= n < |w| ==> from[n] == if f[n] == i then |v| - 1 else f[n]
    requires p < |w| && from[p] != p && |v| - 1 !in from
    ensures HasKey(w[..p], v[|v| - 1].key)
  {
    var u := SwapRemove(v, i);
    assert from[i] in from;
    assert HasKey(w[..i], u[i].key);
    KeptOnPrefix(w, i, p, u[i].key);
  }

  lemma PassedOver<K(!new), V(!new)>(v: seq<Entry<K, V>>, i: nat, w: seq<Entry<K, V>>, f: seq<nat>, from: seq<nat>,
                                     p: nat, q: nat)
    requires i < |v| && Survivors(SwapRemove(v, i), i, w, f) && |from| == |w|
    requires forall n :: 0 <= n < |w| ==> from[n] == if f[n] == i then |v| - 1 else f[n]
    requires p < |w| && from[p] != p && from[p] < q < |v| - 1 && q !in from
    ensures HasKey(w[..p], v[q].key)
  {
    var u := SwapRemove(v, i);
    assert from[p] == f[p];
    assert q != i && u[q] == v[q];
    forall n | 0 <= n < |f|
      ensures f[n] != q
    {
      assert from[n] in from;
    }
  }

  // That, together with the keys being unique, leaves no choice.
  lemma {:induction false} OneWayToSurvive<K(!new), V(!new)>(v: seq<Entry<K, V>>, w: seq<Entry<K, V>>, f: seq<nat>,
                                                            x: seq<Entry<K, V>>, g: seq<nat>, n: nat)
    requires Survivors(v, 0, w, f) && Survivors(v, 0, x, g) && UniqueKeys(w) && UniqueKeys(x)
    requires n <= |w| == |x|
    ensures forall p :: 0 <= p < n ==> f[p] == g[p] && w[p] == x[p]
  {
    hide Survivors, UniqueKeys, HasKey;
    SurvivorsSizes(v, 0, w, f);
    SurvivorsSizes(v, 0, x, g);
    if n > 0 {
      OneWayToSurvive(v, w, f, x, g, n - 1);
      SameChoice(v, w, f, x, g, n - 1);
    }
  }

  lemma SameChoice<K(!new), V(!new)>(v: seq<Entry<K, V>>, w: seq<Entry<K, V>>, f: seq<nat>, x: seq<Entry<K, V>>,
                                     g: seq<nat>, p: nat)
    requires Survivors(v, 0, w, f) && Survivors(v, 0, x, g) && UniqueKeys(w) && UniqueKeys(x)
    requires p < |w| == |x| == |f| == |g|
    requires forall q :: 0 <= q < p ==> f[q] == g[q] && w[q] == x[q]
    ensures f[p] == g[p] && w[p] == x[p]
  {
    hide Survivors, UniqueKeys, HasKey;
    NoLaterChoice(v, w, f, x, g, p);
    NoLaterChoice(v, x, g, w, f, p);
    SurvivorAt(v, w, f, p);
    SurvivorAt(v, x, g, p);
  }

  lemma SurvivorAt<K(!new), V(!new)>(v: seq<Entry<K, V>>, w: seq<Entry<K, V>>, f: seq<nat>, p: nat)
    requires Survivors(v, 0, w, f) && p < |w|
    ensures p < |f| && f[p] < |v| && w[p] == v[f[p]]
    ensures if HasKey(w[..p], v[p].key) then |w| <= f[p] else f[p] == p
  {}

  lemma NoLaterChoice<K(!new), V(!new)>(v: seq<Entry<K, V>>, w: seq<Entry<K, V>>, f: seq<nat>, x: seq<Entry<K, V>>,
                                        g: seq<nat>, p: nat)
    requires Survivors(v, 0, w, f) && Survivors(v, 0, x, g) && UniqueKeys(x)
    requires p < |w| == |x| == |f| == |g|
    requires forall q :: 0 <= q < p ==> f[q] == g[q] && w[q] == x[q]
    ensures g[p] <= f[p]
  {
    hide Survivors, UniqueKeys, HasKey;
    assert w[..p] == x[..p];
    SurvivorAt(v, w, f, p);
    SurvivorAt(v, x, g, p);
    NewKey(x, p);
    if f[p] != p {
      PassedKey(v, w, f, p, g[p]);
      if g[p] in f {
        var q :| 0 <= q < |f| && f[q] == g[p];
        BackwardsOnly(v, w, f, p, q);
        if q < p {
          BackwardsOnly(v, x, g, q, p);
        }
      }
    }
  }

  lemma NewKey<K(!new), V(!new)>(x: seq<Entry<K, V>>, p: nat)
    requires UniqueKeys(x) && p < |x|
    ensures !HasKey(x[..p], x[p].key)
  {}

  lemma PassedKey<K(!new), V(!new)>(v: seq<Entry<K, V>>, w: seq<Entry<K, V>>, f: seq<nat>, p: nat, q: nat)
    requires Survivors(v, 0, w, f) && p < |w| && f[p] != p && q < |v|
    ensures q <= f[p] || q in f || HasKey(w[..p], v[q].key)
  {}

  lemma BackwardsOnly<K(!new), V(!new)>(v: seq<Entry<K, V>>, w: seq<Entry<K, V>>, f: seq<nat>, p: nat, q: nat)
    requires Survivors(v, 0, w, f) && p < |w| && q < |w| && f[p] != p
    ensures f[p] >= |w|
    ensures p < q ==> f[q] < f[p]
  {}

  lemma KeptOnPrefix<K, V>(w: seq<Entry<K, V>>, i: nat, p: nat, k: K)
    requires i <= p <= |w| && HasKey(w[..i], k)
    ensures HasKey(w[..p], k)
  {
    var n :| 0 <= n < i && w[..i][n].key == k;
    assert w[..p][n].key == k;
  }

  lemma DroppedKeyStays<K, V>(v: seq<Entry<K, V>>, i: nat, k: K)
    requires i < |v| && HasKey(v[..i], v[i].key)
    ensures HasKey(SwapRemove(v, i), k) <==> HasKey(v, k)
  {
    var w := SwapRemove(v, i);
    if j :| 0 <= j < |v| && v[j].key == k {
      if j == i {
        var t :| 0 <= t < i && v[..i][t].key == v[i].key;
        assert w[t].key == k;
      } else {
        assert w[if j == |v| - 1 then i else j].key == k;
      }
    }
    if j :| 0 <= j < |w| && w[j].key == k {
      assert w[j] == v[if j == i then |v| - 1 else j];
    }
  }

  // ---------------------------------------------------------------- whole runs

  // The operations of the table. `EraseFound` and `ReplaceKey` look the key up and go on with the iterator.
  datatype Op<!K, !V> =
    | Emplace(key: K, val: V)
    | TryEmplace(key: K, val: V)
    | InsertOrAssign(key: K, val: V)
    | Find(key: K)
    | EraseKey(key: K)
    | EraseFound(key: K)
    | EraseIf(pred: Entry<K, V> -> bool)
    | ReplaceKey(key: K, newKey: K)
    | Clear
    | Rehash(count: nat)
    | Reserve(count: nat)
    | Replace(container: seq<Entry<K, V>>)

  // What the caller learns: what the returned iterator points at, flags and counts.
  datatype Answer<V> =
    | Stored(value: V, inserted: bool)
    | Found(at: Option<V>)
    | Erased(count: nat)
    | Renamed(at: Option<V>, renamed: bool)
    | Done
    | Refused

  // Each operation on a finite map, and its answer.
  ghost function OnMap<K(!new), V(!new)>(m: map<K, V>, op: Op<K, V>): (map<K, V>, Answer<V>) {
    match op
    case Emplace(k, val) => if k in m then (m, Stored(m[k], false)) else (m[k := val], Stored(val, true))
    case TryEmplace(k, val) => if k in m then (m, Stored(m[k], false)) else (m[k := val], Stored(val, true))
    case InsertOrAssign(k, val) => (m[k := val], Stored(val, k !in m))
    case Find(k) => (m, Found(if k in m then Some(m[k]) else None))
    case EraseKey(k) => (m - {k}, Erased(if k in m then 1 else 0))
    case EraseFound(k) => (m - {k}, Erased(if k in m then 1 else 0))
    case EraseIf(pred) => (Restricted(m, pred), Erased(|m| - |Restricted(m, pred)|))
    case ReplaceKey(k, q) =>
      if k !in m then (m, Renamed(None, false))
      else if q in m then (m, Renamed(Some(m[q]), false))
      else ((m - {k})[q := m[k]], Renamed(Some(m[k]), true))
    case Clear => (map[], Done)
    case Rehash(_) => (m, Done)
    case Reserve(_) => (m, Done)
    case Replace(container) => (AsMap(Deduped(container, 0)), Done)
  }

  ghost function Restricted<K(!new), V(!new)>(m: map<K, V>, pred: Entry<K, V> -> bool): (n: map<K, V>)
    ensures |n| <= |m|
  {
    var n := map k | k in m && !pred(Entry(k, m[k])) :: m[k];
    Subset(n.Keys, m.Keys);
    n
  }

  // A growth or a container may be refused by a table that can take no more; `capacity` is what the largest
  // table takes.
  predicate Refusable<K, V>(size: nat, present: bool, capacity: nat, op: Op<K, V>) {
    match op
    case Emplace(_, _) => !present && size >= capacity
    case TryEmplace(_, _) => !present && size >= capacity
    case InsertOrAssign(_, _) => !present && size >= capacity
    case Replace(container) => |container| >= Pow2(64 - MIN_SHIFTS)
    case _ => false
  }

  predicate Inserting<K, V>(op: Op<K, V>) { op.Emplace? || op.TryEmplace? || op.InsertOrAssign? }

  // One step of a run on a map: the operation and its answer, or a refusal that changes nothing.
  ghost predicate MapStep<K(!new), V(!new)>(m: map<K, V>, capacity: nat, op: Op<K, V>, n: map<K, V>, a: Answer<V>) {
    if a.Refused? then n == m && Refusable(|m|, Inserting(op) && op.key in m, capacity, op)
    else (n, a) == OnMap(m, op)
  }

  ghost predicate MapRun<K(!new), V(!new)>(m: map<K, V>, capacity: nat, ops: seq<Op<K, V>>, n: map<K, V>,
                                           answers: seq<Answer<V>>)
    requires |ops| == |answers|
    decreases |ops|
  {
    if ops == [] then n == m
    else
      exists next ::
        MapStep(m, capacity, ops[0], next, answers[0]) && MapRun(next, capacity, ops[1..], n, answers[1..])
  }

  // ---------------------------------------------------------------- the same on the vector of entries

  ghost function ValueOf<K(!new), V(!new)>(v: seq<Entry<K, V>>, k: K): V
    requires HasKey(v, k)
  {
    v[KeyIndex(v, k)].val
  }

  // What the contracts of the table methods say of the vector and of their answers.
  ghost predicate VectorStep<K(!new), V(!new)>(v: seq<Entry<K, V>>, capacity: nat, op: Op<K, V>,
                                               w: seq<Entry<K, V>>, a: Answer<V>) {
    if a.Refused? then w == v && Refusable(|v|, Inserting(op) && HasKey(v, op.key), capacity, op)
    else
      match op
      case Emplace(k, val) => Inserted(v, k, val, w, a)
      case TryEmplace(k, val) => Inserted(v, k, val, w, a)
      case InsertOrAssign(k, val) => Assigned(v, k, val, w, a)
      case Find(k) => w == v && a == Found(if HasKey(v, k) then Some(ValueOf(v, k)) else None)
      case EraseKey(k) => Removed(v, k, w, a)
      case EraseFound(k) => Removed(v, k, w, a)
      case EraseIf(pred) =>
        UniqueKeys(w) && multiset(w) == multiset(Kept(v, pred)) && a == Erased(|v| - |Kept(v, pred)|)
      case ReplaceKey(k, q) => KeyReplaced(v, k, q, w, a)
      case Clear => w == [] && a.Done?
      case Rehash(_) => w == v && a.Done?
      case Reserve(_) => w == v && a.Done?
      case Replace(container) => w == Deduped(container, 0) && a.Done?
  }

  ghost predicate Inserted<K(!new), V(!new)>(v: seq<Entry<K, V>>, k: K, val: V, w: seq<Entry<K, V>>, a: Answer<V>) {
    if HasKey(v, k) then w == v && a == Stored(ValueOf(v, k), false)
    else w == v + [Entry(k, val)] && a == Stored(val, true)
  }

  ghost predicate Assigned<K(!new), V(!new)>(v: seq<Entry<K, V>>, k: K, val: V, w: seq<Entry<K, V>>, a: Answer<V>) {
    if HasKey(v, k) then w == v[KeyIndex(v, k) := Entry(k, val)] && a == Stored(val, false)
    else w == v + [Entry(k, val)] && a == Stored(val, true)
  }

  ghost predicate KeyReplaced<K(!new), V(!new)>(v: seq<Entry<K, V>>, k: K, q: K, w: seq<Entry<K, V>>, a: Answer<V>) {
    if !HasKey(v, k) then w == v && a == Renamed(None, false)
    else if HasKey(v, q) then w == v && a == Renamed(Some(ValueOf(v, q)), false)
    else w == v[KeyIndex(v, k) := Entry(q, ValueOf(v, k))] && a == Renamed(Some(ValueOf(v, k)), true)
  }

  ghost predicate Removed<K(!new), V(!new)>(v: seq<Entry<K, V>>, k: K, w: seq<Entry<K, V>>, a: Answer<V>) {
    if HasKey(v, k) then w == SwapRemove(v, KeyIndex(v, k)) && a == Erased(1) else w == v && a == Erased(0)
  }

  lemma {:induction false} MapSize<K(!new), V(!new)>(v: seq<Entry<K, V>>)
    requires UniqueKeys(v)
    ensures |AsMap(v)| == |v|
  {
    if v != [] {
      var w := v[..|v| - 1];
      MapSize(w);
      assert v[|v| - 1].key !in AsMap(w);
    }
  }

  lemma ValueLooked<K(!new), V(!new)>(v: seq<Entry<K, V>>, k: K)
    requires UniqueKeys(v) && HasKey(v, k)
    ensures k in AsMap(v) && AsMap(v)[k] == ValueOf(v, k)
  {
    Lookup(v, k, ValueOf(v, k));
    assert v[KeyIndex(v, k)] == Entry(k, ValueOf(v, k));
  }

  lemma InsertedLaw<K(!new), V(!new)>(v: seq<Entry<K, V>>, k: K, val: V, w: seq<Entry<K, V>>, a: Answer<V>)
    requires UniqueKeys(v) && Inserted(v, k, val, w, a)
    ensures UniqueKeys(w)
    ensures AsMap(w) == if k in AsMap(v) then AsMap(v) else AsMap(v)[k := val]
    ensures a == if k in AsMap(v) then Stored(AsMap(v)[k], false) else Stored(val, true)
  {
    hide UniqueKeys;
    if HasKey(v, k) {
      ValueLooked(v, k);
    } else {
      UniqueAppend(v, Entry(k, val));
      AppendLaw(v, k, val);
    }
  }

  lemma AssignedLaw<K(!new), V(!new)>(v: seq<Entry<K, V>>, k: K, val: V, w: seq<Entry<K, V>>, a: Answer<V>)
    requires UniqueKeys(v) && Assigned(v, k, val, w, a)
    ensures UniqueKeys(w) && AsMap(w) == AsMap(v)[k := val] && a == Stored(val, k !in AsMap(v))
  {
    hide UniqueKeys;
    if HasKey(v, k) {
      UniqueAssign(v, KeyIndex(v, k), k, val);
      AssignLaw(v, KeyIndex(v, k), val);
    } else {
      UniqueAppend(v, Entry(k, val));
      AppendLaw(v, k, val);
    }
  }

  lemma RenamedLaw<K(!new), V(!new)>(v: seq<Entry<K, V>>, k: K, q: K, w: seq<Entry<K, V>>, a: Answer<V>)
    requires UniqueKeys(v) && KeyReplaced(v, k, q, w, a)
    ensures UniqueKeys(w) && (AsMap(w), a) == OnMap(AsMap(v), ReplaceKey(k, q))
  {
    hide UniqueKeys, AsMap;
    if HasKey(v, k) {
      ValueLooked(v, k);
      if HasKey(v, q) {
        ValueLooked(v, q);
      } else {
        RekeyLaw(v, KeyIndex(v, k), q);
      }
    }
  }

  lemma RemovedLaw<K(!new), V(!new)>(v: seq<Entry<K, V>>, k: K, w: seq<Entry<K, V>>, a: Answer<V>)
    requires UniqueKeys(v) && Removed(v, k, w, a)
    ensures UniqueKeys(w) && AsMap(w) == AsMap(v) - {k} && a == Erased(if k in AsMap(v) then 1 else 0)
  {
    hide UniqueKeys;
    if HasKey(v, k) {
      EraseLaw(v, KeyIndex(v, k));
    } else {
      assert AsMap(v) - {k} == AsMap(v);
    }
  }

  lemma EraseIfCounts<K(!new), V(!new)>(v: seq<Entry<K, V>>, pred: Entry<K, V> -> bool, w: seq<Entry<K, V>>)
    requires UniqueKeys(v) && UniqueKeys(w) && multiset(w) == multiset(Kept(v, pred))
    ensures AsMap(w) == Restricted(AsMap(v), pred)
    ensures |v| - |Kept(v, pred)| == |AsMap(v)| - |Restricted(AsMap(v), pred)|
  {
    EraseIfLaw(v, pred, w);
    MapSize(v);
    MapSize(w);
    assert |multiset(w)| == |w| && |multiset(Kept(v, pred))| == |Kept(v, pred)|;
  }

  // One step on the vector is that step on the map, answer and all.
  lemma StepAsMap<K(!new), V(!new)>(v: seq<Entry<K, V>>, capacity: nat, op: Op<K, V>, w: seq<Entry<K, V>>, a: Answer<V>)
    requires UniqueKeys(v) && VectorStep(v, capacity, op, w, a)
    ensures UniqueKeys(w) && MapStep(AsMap(v), capacity, op, AsMap(w), a)
  {
    hide UniqueKeys, Inserted, Removed, Restricted, Kept, Deduped, AsMap, KeyIndex, SwapRemove;
    MapSize(v);
    if !a.Refused? {
      match op
      case Emplace(k, val) => InsertedLaw(v, k, val, w, a);
      case TryEmplace(k, val) => InsertedLaw(v, k, val, w, a);
      case InsertOrAssign(k, val) => AssignedLaw(v, k, val, w, a);
      case Find(k) =>
        if HasKey(v, k) {
          ValueLooked(v, k);
        }
      case EraseKey(k) => RemovedLaw(v, k, w, a);
      case EraseFound(k) => RemovedLaw(v, k, w, a);
      case EraseIf(pred) => EraseIfCounts(v, pred, w);
      case ReplaceKey(k, q) => RenamedLaw(v, k, q, w, a);
      case Clear => NoEntries(w);
      case Rehash(_) =>
      case Reserve(_) =>
      case Replace(container) =>
        EmptyUnique(container[..0]);
        DedupedLaw(container, 0);
    }
  }

  lemma NoEntries<K(!new), V(!new)>(v: seq<Entry<K, V>>)
    requires v == []
    ensures UniqueKeys(v) && AsMap(v) == map[]
  {}

  ghost predicate VectorRun<K(!new), V(!new)>(v: seq<Entry<K, V>>, capacity: nat, ops: seq<Op<K, V>>,
                                              w: seq<Entry<K, V>>, answers: seq<Answer<V>>)
    requires |ops| == |answers|
    decreases |ops|
  {
    if ops == [] then w == v
    else
      exists next ::
        VectorStep(v, capacity, ops[0], next, answers[0]) && VectorRun(next, capacity, ops[1..], w, answers[1..])
  }

  /** Any sequence of operations on the vector is that sequence on a finite map, and every answer on the way is
  the one the map gives. */
  lemma {:induction false} RunsAsMap<K(!new), V(!new)>(v: seq<Entry<K, V>>, capacity: nat, ops: seq<Op<K, V>>,
                                                       w: seq<Entry<K, V>>, answers: seq<Answer<V>>)
    requires UniqueKeys(v) && |ops| == |answers| && VectorRun(v, capacity, ops, w, answers)
    ensures UniqueKeys(w) && MapRun(AsMap(v), capacity, ops, AsMap(w), answers)
    decreases |ops|
  {
    hide UniqueKeys, VectorStep, MapStep;
    if ops != [] {
      var next :| VectorStep(v, capacity, ops[0], next, answers[0])
          && VectorRun(next, capacity, ops[1..], w, answers[1..]);
      StepAsMap(v, capacity, ops[0], next, answers[0]);
      RunsAsMap(next, capacity, ops[1..], w, answers[1..]);
    }
  }

  // ---------------------------------------------------------------- how large the ring is

  /** What runs of calls ask of the ring: how many entries there are, the ring that growing started from, and the
  most entries that were held or asked for since. */
  datatype Ring = Ring(size: nat, from: nat, peak: nat)

  function Max(a: nat, b: nat): nat { if a < b then b else a }

  ghost function KeysOf<K(!new), V(!new)>(v: seq<Entry<K, V>>): set<K> {
    set e | e in v :: e.key
  }

  // One call and its answer. Only a rehash may leave a smaller ring than there was.
  ghost function Asked<K(!new), V(!new)>(r: Ring, op: Op<K, V>, a: Answer<V>): Ring {
    match (op, a)
    case (Rehash(count), _) => Ring(r.size, INITIAL_SHIFTS, Max(count, r.size))
    case (Reserve(count), _) => r.(peak := Max(r.peak, count))
    case (Replace(container), Done) => Ring(|KeysOf(container)|, r.from, Max(r.peak, |container|))
    case (Clear, _) => r.(size := 0)
    case (_, Stored(_, true)) => Ring(r.size + 1, r.from, Max(r.peak, r.size + 1))
    case (_, Erased(count)) => r.(size := if count <= r.size then r.size - count else 0)
    case _ => r
  }

  ghost function AskedAll<K(!new), V(!new)>(r: Ring, ops: seq<Op<K, V>>, answers: seq<Answer<V>>): Ring
    requires |ops| == |answers|
    decreases |ops|
  {
    if ops == [] then r
    else Asked(AskedAll(r, ops[..|ops| - 1], answers[..|ops| - 1]), ops[|ops| - 1], answers[|ops| - 1])
  }

  // The table holds `size` entries in the smallest ring, from `from` on, that takes the peak.
  ghost predicate RingIs(r: Ring, capacityFor: nat -> nat, shifts: nat, size: nat) {
    size == r.size <= r.peak && Smallest(capacityFor, r.from, shifts, r.peak)
  }

  // What the contracts of the table methods say of the ring.
  ghost predicate RingStep<K(!new), V(!new)>(capacityFor: nat -> nat, s: nat, n: nat, op: Op<K, V>, a: Answer<V>,
                                             t: nat, m: nat) {
    match op
    case Rehash(count) => Smallest(capacityFor, INITIAL_SHIFTS, t, Max(count, m))
    case Reserve(count) => Smallest(capacityFor, s, t, Max(count, m))
    case Replace(container) => if a.Refused? then t == s else Smallest(capacityFor, s, t, |container|)
    case _ => t == s - if Inserting(op) && a.Stored? && a.inserted && n >= capacityFor(s) then 1 else 0
  }

  // A ring that is the smallest for one demand and then the smallest for another one is it for both.
  lemma SmallestOfBoth(capacityFor: nat -> nat, from: nat, s: nat, p: nat, t: nat, d: nat)
    requires LoadPolicy(capacityFor) && Smallest(capacityFor, from, s, p) && Smallest(capacityFor, s, t, d)
    ensures Smallest(capacityFor, from, t, Max(p, d))
  {}

  lemma SmallestAfterGrowth(capacityFor: nat -> nat, s: nat, n: nat, t: nat)
    requires LoadPolicy(capacityFor) && MIN_SHIFTS <= s <= INITIAL_SHIFTS && t >= MIN_SHIFTS
    requires s == MIN_SHIFTS || n <= capacityFor(s)
    requires t == s - if n >= capacityFor(s) then 1 else 0
    ensures Smallest(capacityFor, s, t, n + 1)
  {}

  lemma SizeAfter<K(!new), V(!new)>(v: seq<Entry<K, V>>, capacity: nat, op: Op<K, V>, w: seq<Entry<K, V>>, a: Answer<V>,
                                    r: Ring)
    requires UniqueKeys(v) && VectorStep(v, capacity, op, w, a) && r.size == |v|
    ensures |w| == Asked(r, op, a).size
  {
    hide UniqueKeys, KeyIndex, HasKey, Kept, Deduped, KeysOf, SwapRemove;
    match op
    case EraseIf(pred) => assert |multiset(w)| == |w| && |multiset(Kept(v, pred))| == |Kept(v, pred)|;
    case Replace(container) => SizeOfContainer(container);
    case _ =>
  }

  lemma SizeOfContainer<K(!new), V(!new)>(container: seq<Entry<K, V>>)
    ensures |Deduped(container, 0)| == |KeysOf(container)|
  {
    hide UniqueKeys, HasKey, Deduped;
    EmptyUnique(container[..0]);
    DedupedLaw(container, 0);
    KeyCount(Deduped(container, 0));
    SameKeys(Deduped(container, 0), container);
  }

  lemma SameKeys<K(!new), V(!new)>(v: seq<Entry<K, V>>, w: seq<Entry<K, V>>)
    requires forall k :: HasKey(v, k) <==> HasKey(w, k)
    ensures KeysOf(v) == KeysOf(w)
  {
    forall k
      ensures k in KeysOf(v) <==> HasKey(v, k)
      ensures k in KeysOf(w) <==> HasKey(w, k)
    {
      KeyOf(v, k);
      KeyOf(w, k);
    }
  }

  lemma KeyOf<K(!new), V(!new)>(v: seq<Entry<K, V>>, k: K)
    ensures k in KeysOf(v) <==> HasKey(v, k)
  {
    if HasKey(v, k) {
      assert v[KeyIndex(v, k)] in v;
    }
  }

  lemma {:induction false} KeyCount<K(!new), V(!new)>(v: seq<Entry<K, V>>)
    requires UniqueKeys(v)
    ensures |KeysOf(v)| == |v|
  {
    if v != [] {
      var w, k := v[..|v| - 1], v[|v| - 1].key;
      KeyCount(w);
      KeyOf(w, k);
      assert v == w + [v[|v| - 1]];
      assert KeysOf(v) == KeysOf(w) + {k};
    }
  }

  /** Adopting a container leaves exactly the vector with its keys, each once, whose entries survived as
  `Survivors` says. */
  lemma ReplaceExactly<K(!new), V(!new)>(container: seq<Entry<K, V>>, w: seq<Entry<K, V>>)
    ensures w == Deduped(container, 0) <==>
              && UniqueKeys(w) && (forall k :: HasKey(w, k) <==> HasKey(container, k))
              && exists from :: Survivors(container, 0, w, from)
  {
    hide Survivors, Deduped, UniqueKeys, HasKey;
    var x := Deduped(container, 0);
    EmptyUnique(container[..0]);
    DedupedLaw(container, 0);
    var g := DedupedExactly(container, 0);
    if UniqueKeys(w) && (forall k :: HasKey(w, k) <==> HasKey(container, k))
       && exists from :: Survivors(container, 0, w, from) {
      var f :| Survivors(container, 0, w, f);
      SameKeys(w, x);
      KeyCount(w);
      KeyCount(x);
      OneWayToSurvive(container, w, f, x, g, |w|);
      assert w == x;
    }
  }

  lemma RingAfter<K(!new), V(!new)>(r: Ring, capacityFor: nat -> nat, v: seq<Entry<K, V>>, s: nat, capacity: nat,
                                    op: Op<K, V>, a: Answer<V>, w: seq<Entry<K, V>>, t: nat)
    requires LoadPolicy(capacityFor) && UniqueKeys(v) && RingIs(r, capacityFor, s, |v|)
    requires VectorStep(v, capacity, op, w, a) && RingStep(capacityFor, s, |v|, op, a, t, |w|) && t >= MIN_SHIFTS
    ensures RingIs(Asked(r, op, a), capacityFor, t, |w|)
  {
    SizeAfter(v, capacity, op, w, a, r);
    hide UniqueKeys, LoadPolicy, Smallest, KeyIndex, Kept, Deduped, SwapRemove, HasKey, KeysOf;
    match op
    case Rehash(_) =>
    case Reserve(count) => SmallestOfBoth(capacityFor, r.from, s, r.peak, t, Max(count, |w|));
    case Replace(container) =>
      if a.Done? {
        SmallestOfBoth(capacityFor, r.from, s, r.peak, t, |container|);
        FewerKeys(container);
      }
    case Emplace(_, _) => RingInserted(r, capacityFor, s, t, a.Stored? && a.inserted);
    case TryEmplace(_, _) => RingInserted(r, capacityFor, s, t, a.Stored? && a.inserted);
    case InsertOrAssign(_, _) => RingInserted(r, capacityFor, s, t, a.Stored? && a.inserted);
    case _ =>
  }

  lemma RingInserted(r: Ring, capacityFor: nat -> nat, s: nat, t: nat, inserted: bool)
    requires LoadPolicy(capacityFor) && RingIs(r, capacityFor, s, r.size) && t >= MIN_SHIFTS
    requires t == s - if inserted && r.size >= capacityFor(s) then 1 else 0
    ensures inserted ==> Smallest(capacityFor, r.from, t, Max(r.peak, r.size + 1))
  {
    hide Smallest, LoadPolicy;
    if inserted {
      SmallestTakes(capacityFor, r.from, s, r.peak);
      SmallestAfterGrowth(capacityFor, s, r.size, t);
      SmallestOfBoth(capacityFor, r.from, s, r.peak, t, r.size + 1);
    }
  }

  lemma SmallestTakes(capacityFor: nat -> nat, from: nat, s: nat, p: nat)
    requires Smallest(capacityFor, from, s, p)
    ensures MIN_SHIFTS <= s <= INITIAL_SHIFTS && (s == MIN_SHIFTS || p <= capacityFor(s))
  {}

  lemma {:induction false} FewerKeys<K(!new), V(!new)>(v: seq<Entry<K, V>>)
    ensures |KeysOf(v)| <= |v|
  {
    if v != [] {
      var w, k := v[..|v| - 1], v[|v| - 1].key;
      FewerKeys(w);
      assert v == w + [v[|v| - 1]];
      assert KeysOf(v) == KeysOf(w) + {k};
    }
  }

  // ---------------------------------------------------------------- the same on the table

  lemma OneIndex<K(!new), V(!new)>(v: seq<Entry<K, V>>, k: K)
    requires UniqueKeys(v)
    ensures forall i :: 0 <= i < |v| && v[i].key == k ==> HasKey(v, k) && i == KeyIndex(v, k)
  {}

  lemma UniqueOfValid<K(!new), V(!new)>(t: Table<K, V>)
    requires t.Valid()
    ensures UniqueKeys(t.values) && t.maxCapacity == t.capacityFor(t.shifts)
    ensures LoadPolicy(t.capacityFor) && Smallest(t.capacityFor, t.shifts, t.shifts, |t.values|)
  {}

  // What the iterator of an emplace points at.
  method Pointed<K(==, !new), V(!new)>(t: Table<K, V>, r: EmplaceResult, ghost v: seq<Entry<K, V>>,
                                       ghost full: bool, k: K, val: V)
    returns (a: Answer<V>)
    requires UniqueKeys(v) && UniqueKeys(t.values) && Emplaced(v, full, k, val, t.values, r)
    ensures a.Refused? <==> r.BucketOverflow?
    ensures !a.Refused? ==> Inserted(v, k, val, t.values, a)
  {
    OneIndex(v, k);
    match r
    case BucketOverflow => a := Refused;
    case Placed(i, inserted) => a := Stored(t.values[i].val, inserted);
  }

  method ApplyInserting<K(==, !new), V(!new)>(t: Table<K, V>, op: Op<K, V>) returns (a: Answer<V>)
    requires t.Valid() && Inserting(op)
    modifies t, t.buckets
    ensures t.Valid() && (t.buckets == old(t.buckets) || fresh(t.buckets))
    ensures VectorStep(old(t.values), t.capacityFor(MIN_SHIFTS), op, t.values, a)
    ensures RingStep(t.capacityFor, old(t.shifts), |old(t.values)|, op, a, t.shifts, |t.values|)
  {
    hide UniqueKeys, AsMap, SwapRemove, Kept, Deduped, Table.Valid, KeyIndex, Pow2, Inserted, Smallest, LoadPolicy;
    ghost var v, full := t.values, t.Full();
    UniqueOfValid(t);
    match op {
      case Emplace(k, val) =>
        var r := t.Emplace(k, val);
        UniqueOfValid(t);
        a := Pointed(t, r, v, full, k, val);
      case TryEmplace(k, val) =>
        var r := t.TryEmplace(k, val);
        UniqueOfValid(t);
        a := Pointed(t, r, v, full, k, val);
      case InsertOrAssign(k, val) =>
        var r := t.InsertOrAssign(k, val);
        OneIndex(v, k);
        a := if r.BucketOverflow? then Refused else Stored(val, r.inserted);
    }
  }

  // One operation on a table, by its own method, and the caller's answer.
  method Apply<K(==, !new), V(!new)>(t: Table<K, V>, op: Op<K, V>) returns (a: Answer<V>)
    requires t.Valid()
    modifies t, t.buckets
    ensures t.Valid() && (t.buckets == old(t.buckets) || fresh(t.buckets))
    ensures VectorStep(old(t.values), t.capacityFor(MIN_SHIFTS), op, t.values, a)
    ensures RingStep(t.capacityFor, old(t.shifts), |old(t.values)|, op, a, t.shifts, |t.values|)
  {
    hide UniqueKeys, AsMap, SwapRemove, Kept, Deduped, Table.Valid, KeyIndex, Pow2, Inserted, Smallest, LoadPolicy;
    ghost var v := t.values;
    UniqueOfValid(t);
    match op {
      case Emplace(_, _) => a := ApplyInserting(t, op);
      case TryEmplace(_, _) => a := ApplyInserting(t, op);
      case InsertOrAssign(_, _) => a := ApplyInserting(t, op);
      case Find(k) =>
        var i := t.Find(k);
        OneIndex(v, k);
        a := Found(if i < |t.values| then Some(t.values[i].val) else None);
      case EraseKey(k) =>
        var n := t.EraseKey(k);
        a := Erased(n);
      case EraseFound(k) =>
        var i := t.Find(k);
        OneIndex(v, k);
        a := Erased(0);
        if i < |t.values| {
          t.EraseAt(i);
          a := Erased(1);
        }
      case EraseIf(pred) =>
        var n, _ := t.EraseIf(pred);
        UniqueOfValid(t);
        a := Erased(n);
      case ReplaceKey(k, q) =>
        var i := t.Find(k);
        OneIndex(v, k);
        OneIndex(v, q);
        a := Renamed(None, false);
        if i < |t.values| {
          var at, ok := t.ReplaceKey(i, q);
          a := Renamed(Some(t.values[at].val), ok);
        }
      case Clear =>
        t.Clear();
        a := Done;
      case Rehash(count) =>
        t.Rehash(count);
        a := Done;
      case Reserve(count) =>
        t.Reserve(count);
        a := Done;
      case Replace(container) =>
        var ok := t.Replace(container);
        a := if ok then Done else Refused;
    }
  }

  lemma {:induction false} MapRunMore<K(!new), V(!new)>(m: map<K, V>, capacity: nat, ops: seq<Op<K, V>>, n: map<K, V>,
      answers: seq<Answer<V>>, op: Op<K, V>, a: Answer<V>, next: map<K, V>)
    requires |ops| == |answers| && MapRun(m, capacity, ops, n, answers) && MapStep(n, capacity, op, next, a)
    ensures MapRun(m, capacity, ops + [op], next, answers + [a])
    decreases |ops|
  {
    hide MapStep;
    if ops == [] {
      assert MapRun(next, capacity, [op][1..], next, [a][1..]);
    } else {
      var first :| MapStep(m, capacity, ops[0], first, answers[0])
          && MapRun(first, capacity, ops[1..], n, answers[1..]);
      MapRunMore(first, capacity, ops[1..], n, answers[1..], op, a, next);
      assert (ops + [op])[1..] == ops[1..] + [op] && (answers + [a])[1..] == answers[1..] + [a];
    }
  }

  lemma AskedMore<K(!new), V(!new)>(r: Ring, ops: seq<Op<K, V>>, answers: seq<Answer<V>>, op: Op<K, V>, a: Answer<V>)
    requires |ops| == |answers|
    ensures AskedAll(r, ops + [op], answers + [a]) == Asked(AskedAll(r, ops, answers), op, a)
  {
    assert (ops + [op])[..|ops|] == ops && (answers + [a])[..|ops|] == answers;
  }

  /** A run of calls on a table is that run on a finite map: the entries at the end and every answer on the way
  are the map's, for any hash function and any load policy. The ring never shrinks but by a rehash, and at the end
  is the smallest, from the one before the run on or of all since the last rehash, that takes the most entries there
  were or were asked for. */
  method ApplyAll<K(==, !new), V(!new)>(t: Table<K, V>, ops: seq<Op<K, V>>) returns (answers: seq<Answer<V>>)
    requires t.Valid()
    modifies t, t.buckets
    ensures t.Valid() && |answers| == |ops|
    ensures MapRun(old(AsMap(t.values)), t.capacityFor(MIN_SHIFTS), ops, AsMap(t.values), answers)
    ensures RingIs(AskedAll(Ring(|old(t.values)|, old(t.shifts), |old(t.values)|), ops, answers), t.capacityFor,
                   t.shifts, |t.values|)
  {
    hide UniqueKeys, AsMap, VectorStep, MapStep, RingStep, LoadPolicy, Smallest, Asked, Table.Valid;
    answers := [];
    ghost var m, capacity := AsMap(t.values), t.capacityFor(MIN_SHIFTS);
    ghost var r := Ring(|t.values|, t.shifts, |t.values|);
    UniqueOfValid(t);
    for i := 0 to |ops|
      invariant t.Valid() && (t.buckets == old(t.buckets) || fresh(t.buckets)) && |answers| == i
      invariant MapRun(m, capacity, ops[..i], AsMap(t.values), answers)
      invariant RingIs(AskedAll(r, ops[..i], answers), t.capacityFor, t.shifts, |t.values|)
    {
      ghost var v, s := t.values, t.shifts;
      UniqueOfValid(t);
      var a := Apply(t, ops[i]);
      StepAsMap(v, capacity, ops[i], t.values, a);
      MapRunMore(m, capacity, ops[..i], AsMap(v), answers, ops[i], a, AsMap(t.values));
      UniqueOfValid(t);
      SmallestTakes(t.capacityFor, t.shifts, t.shifts, |t.values|);
      RingAfter(AskedAll(r, ops[..i], answers), t.capacityFor, v, s, capacity, ops[i], a, t.values, t.shifts);
      AskedMore(r, ops[..i], answers, ops[i], a);
      assert ops[..i + 1] == ops[..i] + [ops[i]];
      answers := answers + [a];
    }
    assert ops[..|ops|] == ops;
  }
}
