/** The single-producer, single-consumer ring of telemetry samples.

Record and Drain run on two threads, so they are modelled as sequentially consistent atomic steps:
each load, each store and each non-atomic write or copy of an entry is a step of its own, and a
write is torn between its two steps. The counters are 64-bit in the program and unbounded here.
*/
module BurstRing {
  import opened Modulo

  // What a reader would find in a slot.
  datatype Slot<T> = Unset | Torn | Entry(value: T)

  datatype Producer<T> =
    | Ready
    | Checking(sample: T, seen: nat)  // has loaded the consumed count
    | Writing(sample: T)              // the slot is being overwritten
    | Written(sample: T)              // the slot is complete, not yet published

  datatype Consumer<T> =
    | Waiting
    | Copying(count: nat, copied: seq<Slot<T>>)  // has loaded the published count
    | Releasing                                  // has read the entries, not yet given them back

  // `accepted`, `drained`, `released`, `refused`, `taken` and `calls` are the history of the run; `released` counts
  // the drained samples whose slots have been given back.
  datatype State<T> = State(
    entries: seq<Slot<T>>, published: nat, consumed: nat, overflow: nat, write: nat, read: nat,
    active: bool, drainEnabled: bool, producer: Producer<T>, consumer: Consumer<T>,
    accepted: seq<T>, drained: seq<Slot<T>>, released: nat, refused: nat, taken: nat, calls: nat)

  datatype Action<T> =
    | Activate | EnableDrain
    | RecordLoad(sample: T) | RecordRefuse | RecordBegin | RecordFinish | RecordPublish
    | DrainLoad(outSize: nat) | DrainCopy | DrainAdvance | DrainStore
    | TakeOverflow

  function Init<T>(capacity: nat): State<T> {
    State(seq(capacity, _ => Unset), 0, 0, 0, 0, 0, false, false, Ready, Waiting, [], [], 0, 0, 0, 0)
  }

  predicate Enabled<T>(s: State<T>, a: Action<T>)
    requires s.entries != []
  {
    match a
    case Activate => true
    case EnableDrain => true
    case RecordLoad(_) => s.active && s.producer.Ready?
    case RecordRefuse => s.producer.Checking? && s.write - s.producer.seen >= |s.entries|
    case RecordBegin => s.producer.Checking? && s.write - s.producer.seen < |s.entries|
    case RecordFinish => s.producer.Writing?
    case RecordPublish => s.producer.Written?
    case DrainLoad(_) => s.active && s.drainEnabled && s.consumer.Waiting?
    case DrainCopy => s.consumer.Copying? && |s.consumer.copied| < s.consumer.count
    case DrainAdvance => s.consumer.Copying? && |s.consumer.copied| == s.consumer.count
    case DrainStore => s.consumer.Releasing?
    case TakeOverflow => s.active && s.drainEnabled && s.consumer.Waiting?
  }

  function Apply<T>(s: State<T>, a: Action<T>): State<T>
    requires s.entries != [] && Enabled(s, a)
  {
    var n := |s.entries|;
    match a
    case Activate => s.(active := true)
    case EnableDrain => s.(drainEnabled := true)
    case RecordLoad(x) => s.(producer := Checking(x, s.consumed), calls := s.calls + 1)
    case RecordRefuse => s.(producer := Ready, overflow := s.overflow + 1, refused := s.refused + 1)
    case RecordBegin => s.(producer := Writing(s.producer.sample), entries := s.entries[s.write % n := Torn])
    case RecordFinish =>
      s.(producer := Written(s.producer.sample), entries := s.entries[s.write % n := Entry(s.producer.sample)],
         write := s.write + 1)
    case RecordPublish =>
      s.(producer := Ready, published := s.write, accepted := s.accepted + [s.producer.sample])
    case DrainLoad(outSize) =>
      var ready := if s.read <= s.published then s.published - s.read else 0;
      s.(consumer := Copying(if outSize < ready then outSize else ready, []))
    case DrainCopy =>
      s.(consumer := s.consumer.(copied := s.consumer.copied + [s.entries[(s.read + |s.consumer.copied|) % n]]))
    case DrainAdvance =>
      s.(consumer := if s.consumer.count != 0 then Releasing else Waiting,
         read := s.read + s.consumer.count, drained := s.drained + s.consumer.copied)
    case DrainStore => s.(consumer := Waiting, consumed := s.read, released := |s.drained|)
    case TakeOverflow => s.(overflow := 0, taken := s.taken + s.overflow)
  }

  // ---------------------------------------------------------------- the invariant

  function Entries<T>(xs: seq<T>): (r: seq<Slot<T>>)
    ensures |r| == |xs| && forall i :: 0 <= i < |xs| ==> r[i] == Entry(xs[i])
  {
    seq(|xs|, i requires 0 <= i < |xs| => Entry(xs[i]))
  }

  ghost predicate Counters<T>(s: State<T>) {
    && s.entries != []
    && s.consumed <= s.read <= s.published <= s.write <= s.consumed + |s.entries|
    && s.published == |s.accepted| && s.consumed == s.released
    && s.write == s.published + (if s.producer.Written? then 1 else 0)
    && (s.consumer.Releasing? || s.consumed == s.read)
    && (s.producer.Checking? ==> s.producer.seen <= s.consumed)
    && (s.producer.Writing? ==> s.write < s.consumed + |s.entries|)
  }

  // Published entries stay in their slots until they are given back.
  ghost predicate Held<T>(s: State<T>)
    requires Counters(s)
  {
    && (forall i :: s.consumed <= i < s.published ==> s.entries[i % |s.entries|] == Entry(s.accepted[i]))
    && (s.producer.Written? ==> s.entries[(s.write - 1) % |s.entries|] == Entry(s.producer.sample))
  }

  ghost predicate Drained<T>(s: State<T>)
    requires Counters(s)
  {
    && s.drained == Entries(s.accepted[..s.read])
    && (s.consumer.Copying? ==>
          && s.read + s.consumer.count <= s.published
          && |s.consumer.copied| <= s.consumer.count
          && s.consumer.copied == Entries(s.accepted[s.read..s.read + |s.consumer.copied|]))
  }

  ghost predicate Counted<T>(s: State<T>) {
    && s.refused == s.overflow + s.taken
    && s.calls == |s.accepted| + s.refused + (if s.producer.Ready? then 0 else 1)
  }

  ghost predicate Inv<T>(s: State<T>) {
    Counters(s) && Held(s) && Drained(s) && Counted(s)
  }

  // Writing slot `write` leaves every entry that is still held alone.
  lemma WriteMissesHeld<T>(s: State<T>, x: Slot<T>)
    requires Counters(s) && Held(s) && !s.producer.Written? && s.write < s.consumed + |s.entries|
    ensures forall i :: s.consumed <= i < s.published ==>
              s.entries[s.write % |s.entries| := x][i % |s.entries|] == Entry(s.accepted[i])
  {
    forall i | s.consumed <= i < s.published
      ensures s.entries[s.write % |s.entries| := x][i % |s.entries|] == Entry(s.accepted[i])
    {
      SlotsDiffer(i, s.write, |s.entries|);
    }
  }

  lemma StepKeepsInv<T>(s: State<T>, a: Action<T>)
    requires Inv(s) && Enabled(s, a)
    ensures Inv(Apply(s, a))
  {
    match a
    case Activate =>
    case EnableDrain =>
    case TakeOverflow =>
    case RecordLoad(_) => RecordKeepsInv(s, a);
    case RecordRefuse => RecordKeepsInv(s, a);
    case RecordBegin => RecordKeepsInv(s, a);
    case RecordFinish => RecordKeepsInv(s, a);
    case RecordPublish => PublishKeepsInv(s);
    case DrainLoad(_) => LoadKeepsInv(s, a);
    case DrainStore => LoadKeepsInv(s, a);
    case DrainCopy => CopyKeepsInv(s);
    case DrainAdvance => AdvanceKeepsInv(s);
  }

  lemma RecordKeepsInv<T>(s: State<T>, a: Action<T>)
    requires Inv(s) && Enabled(s, a)
    requires a.RecordLoad? || a.RecordRefuse? || a.RecordBegin? || a.RecordFinish?
    ensures Inv(Apply(s, a))
  {
    hide Entries;
    if a.RecordBegin? {
      WriteMissesHeld(s, Torn);
    } else if a.RecordFinish? {
      WriteMissesHeld(s, Entry(s.producer.sample));
    }
  }

  lemma PublishKeepsInv<T>(s: State<T>)
    requires Inv(s) && Enabled(s, RecordPublish)
    ensures Inv(Apply(s, RecordPublish))
  {
    hide Entries;
    var accepted := s.accepted + [s.producer.sample];
    assert accepted[..s.read] == s.accepted[..s.read];
    if s.consumer.Copying? {
      assert accepted[s.read..s.read + |s.consumer.copied|] == s.accepted[s.read..s.read + |s.consumer.copied|];
    }
  }

  lemma LoadKeepsInv<T>(s: State<T>, a: Action<T>)
    requires Inv(s) && Enabled(s, a) && (a.DrainLoad? || a.DrainStore?)
    ensures Inv(Apply(s, a))
  {}

  lemma EntriesJoin<T>(xs: seq<T>, ys: seq<T>)
    ensures Entries(xs + ys) == Entries(xs) + Entries(ys)
  {}

  lemma CopiedMore<T>(accepted: seq<T>, from: nat, k: nat)
    requires from + k < |accepted|
    ensures Entries(accepted[from..from + k + 1]) == Entries(accepted[from..from + k]) + [Entry(accepted[from + k])]
  {
    assert accepted[from..from + k + 1] == accepted[from..from + k] + [accepted[from + k]];
  }

  lemma CopyKeepsInv<T>(s: State<T>)
    requires Inv(s) && Enabled(s, DrainCopy)
    ensures Inv(Apply(s, DrainCopy))
  {
    hide Entries;
    CopiedMore(s.accepted, s.read, |s.consumer.copied|);
  }

  lemma AdvanceKeepsInv<T>(s: State<T>)
    requires Inv(s) && Enabled(s, DrainAdvance)
    ensures Inv(Apply(s, DrainAdvance))
  {
    hide Entries;
    var k := s.consumer.count;
    EntriesJoin(s.accepted[..s.read], s.accepted[s.read..s.read + k]);
    assert s.accepted[..s.read + k] == s.accepted[..s.read] + s.accepted[s.read..s.read + k];
  }

  // ---------------------------------------------------------------- whole runs

  ghost predicate Reaches<T(!new)>(s: State<T>, run: seq<Action<T>>, t: State<T>)
    decreases |run|
  {
    if run == [] then s == t
    else s.entries != [] && Enabled(s, run[0]) && Reaches(Apply(s, run[0]), run[1..], t)
  }

  lemma {:induction false} RunKeepsInv<T(!new)>(s: State<T>, run: seq<Action<T>>, t: State<T>)
    requires Inv(s) && Reaches(s, run, t)
    ensures Inv(t)
    decreases |run|
  {
    if run != [] {
      StepKeepsInv(s, run[0]);
      RunKeepsInv(Apply(s, run[0]), run[1..], t);
    }
  }

  // Whatever the interleaving: the drains are a prefix of the accepted samples in order, nothing
  // torn or stale is ever copied, the counters keep their order, and every call is accounted for.
  lemma DrainsArePrefix<T(!new)>(capacity: nat, run: seq<Action<T>>, t: State<T>)
    requires capacity > 0 && Reaches(Init(capacity), run, t)
    ensures t.consumed <= t.read <= t.published <= t.write <= t.consumed + |t.entries|
    ensures t.read <= |t.accepted| && t.drained == Entries(t.accepted[..t.read])
    ensures t.consumer.Copying? ==> t.drained + t.consumer.copied <= Entries(t.accepted)
    ensures t.producer.Ready? ==> t.calls == |t.accepted| + t.overflow + t.taken
  {
    RunKeepsInv(Init(capacity), run, t);
    if t.consumer.Copying? {
      var k := |t.consumer.copied|;
      assert t.accepted[..t.read + k] == t.accepted[..t.read] + t.accepted[t.read..t.read + k];
    }
  }

  // The slot the producer may write is never one that the consumer still has to copy.
  lemma NoOverwrite<T(!new)>(capacity: nat, run: seq<Action<T>>, t: State<T>, i: nat)
    requires capacity > 0 && Reaches(Init(capacity), run, t)
    requires t.producer.Writing? || (t.producer.Checking? && t.write - t.producer.seen < |t.entries|)
    requires t.read <= i < t.published
    ensures t.entries != [] && i % |t.entries| != t.write % |t.entries|
  {
    RunKeepsInv(Init(capacity), run, t);
    SlotsDiffer(i, t.write, |t.entries|);
  }

  // ---------------------------------------------------------------- what a call does, whatever runs beside it

  lemma {:induction false} RunJoins<T(!new)>(s: State<T>, a: seq<Action<T>>, b: seq<Action<T>>, t: State<T>)
    returns (mid: State<T>)
    requires Reaches(s, a + b, t)
    ensures Reaches(s, a, mid) && Reaches(mid, b, t)
    decreases |a|
  {
    if a == [] {
      assert a + b == b;
      mid := s;
    } else {
      assert (a + b)[1..] == a[1..] + b;
      mid := RunJoins(Apply(s, a[0]), a[1..], b, t);
    }
  }

  lemma {:induction false} SizeKept<T(!new)>(s: State<T>, run: seq<Action<T>>, t: State<T>)
    requires Reaches(s, run, t)
    ensures |t.entries| == |s.entries|
    decreases |run|
  {
    if run != [] {
      SizeKept(Apply(s, run[0]), run[1..], t);
    }
  }

  predicate EndsRecord<T>(a: Action<T>) { a.RecordRefuse? || a.RecordPublish? }

  // The producer between its load in s and the end of its call.
  ghost predicate Recording<T>(s: State<T>, x: T, t: State<T>) {
    && |t.entries| == |s.entries| && t.accepted == s.accepted && t.refused == s.refused
    && !t.producer.Ready? && t.producer.sample == x
    && (t.producer.Checking? ==> t.producer.seen == s.released)
    && (!t.producer.Checking? ==> |s.accepted| - s.released < |s.entries|)
  }

  lemma {:induction false} StillRecording<T(!new)>(s: State<T>, x: T, t: State<T>, run: seq<Action<T>>, u: State<T>)
    requires Inv(t) && Recording(s, x, t) && Reaches(t, run, u)
    requires forall a :: a in run ==> !EndsRecord(a)
    ensures Inv(u) && Recording(s, x, u)
    decreases |run|
  {
    hide Held, Drained, Counted;
    if run != [] {
      assert run[0] in run;
      StepKeepsInv(t, run[0]);
      StillRecording(s, x, Apply(t, run[0]), run[1..], u);
    }
  }

  /** A call of the producer, from its load of the consumed count in s to its end in t, with any steps of the other
  thread in between: it is refused if and only if the samples accepted and not released when it loaded filled the
  ring, and else its sample is accepted after all others. */
  lemma RecordExactly<T(!new)>(capacity: nat, before: seq<Action<T>>, s: State<T>, x: T, during: seq<Action<T>>,
                               last: Action<T>, t: State<T>)
    requires capacity > 0 && Reaches(Init(capacity), before, s)
    requires Reaches(s, [RecordLoad(x)] + during + [last], t)
    requires EndsRecord(last) && forall a :: a in during ==> !EndsRecord(a)
    ensures 0 <= s.released <= |s.accepted| <= s.released + capacity
    ensures last.RecordRefuse? <==> |s.accepted| == s.released + capacity
    ensures t.accepted == if last.RecordRefuse? then s.accepted else s.accepted + [x]
    ensures t.refused == if last.RecordRefuse? then s.refused + 1 else s.refused
    ensures t.producer.Ready?
  {
    RunKeepsInv(Init(capacity), before, s);
    SizeKept(Init(capacity), before, s);
    hide Inv, Enabled, Apply;
    assert [RecordLoad(x)] + during + [last] == [RecordLoad(x)] + (during + [last]);
    var loaded := RunJoins(s, [RecordLoad(x)], during + [last], t);
    OneStep(s, RecordLoad(x), loaded);
    var ready := RunJoins(loaded, during, [last], t);
    OneStep(ready, last, t);
    RecordLoads(s, x);
    StillRecording(s, x, loaded, during, ready);
    RecordEnds(s, x, ready, last);
  }

  lemma OneStep<T(!new)>(s: State<T>, a: Action<T>, t: State<T>)
    requires Reaches(s, [a], t)
    ensures s.entries != [] && Enabled(s, a) && t == Apply(s, a)
  {
    assert [a][1..] == [];
  }

  lemma RecordLoads<T>(s: State<T>, x: T)
    requires Inv(s) && Enabled(s, RecordLoad(x))
    ensures Inv(Apply(s, RecordLoad(x))) && Recording(s, x, Apply(s, RecordLoad(x)))
    ensures s.released <= |s.accepted| <= s.released + |s.entries|
  {
    StepKeepsInv(s, RecordLoad(x));
  }

  lemma RecordEnds<T>(s: State<T>, x: T, ready: State<T>, last: Action<T>)
    requires Inv(ready) && Recording(s, x, ready) && Enabled(ready, last) && EndsRecord(last)
    requires |s.accepted| <= s.released + |s.entries|
    ensures var t := Apply(ready, last);
            && (last.RecordRefuse? <==> |s.accepted| == s.released + |s.entries|)
            && t.accepted == (if last.RecordRefuse? then s.accepted else s.accepted + [x])
            && t.refused == (if last.RecordRefuse? then s.refused + 1 else s.refused)
            && t.producer.Ready?
  {}

  // The consumer between its load in s and its advance.
  ghost predicate Draining<T>(s: State<T>, count: nat, t: State<T>) {
    t.drained == s.drained && t.read == s.read && s.accepted <= t.accepted
    && t.consumer.Copying? && t.consumer.count == count
  }

  lemma {:induction false} StillDraining<T(!new)>(s: State<T>, count: nat, t: State<T>, run: seq<Action<T>>,
                                                  u: State<T>)
    requires Inv(t) && Draining(s, count, t) && Reaches(t, run, u)
    requires forall a :: a in run ==> !a.DrainAdvance?
    ensures Inv(u) && Draining(s, count, u)
    decreases |run|
  {
    hide Held, Drained, Counted;
    if run != [] {
      assert run[0] in run;
      StepKeepsInv(t, run[0]);
      StillDraining(s, count, Apply(t, run[0]), run[1..], u);
    }
  }

  /** A drain, from its load of the published count in s to its advance in t, with any steps of the other thread in
  between: it takes as many samples as were accepted and not drained when it loaded, as far as there is room. */
  lemma DrainExactly<T(!new)>(capacity: nat, before: seq<Action<T>>, s: State<T>, outSize: nat,
                              during: seq<Action<T>>, t: State<T>)
    requires capacity > 0 && Reaches(Init(capacity), before, s)
    requires Reaches(s, [DrainLoad(outSize)] + during + [DrainAdvance], t)
    requires forall a :: a in during ==> !a.DrainAdvance?
    ensures |s.drained| <= |s.accepted| && s.accepted <= t.accepted
    ensures var ready := |s.accepted| - |s.drained|;
            var count := if outSize < ready then outSize else ready;
            && |t.drained| == |s.drained| + count && t.drained == Entries(s.accepted[..|s.drained| + count])
            && (if count == 0 then t.consumer.Waiting? else t.consumer.Releasing?)
  {
    RunKeepsInv(Init(capacity), before, s);
    hide Inv, Enabled, Apply;
    assert [DrainLoad(outSize)] + during + [DrainAdvance] == [DrainLoad(outSize)] + (during + [DrainAdvance]);
    var loaded := RunJoins(s, [DrainLoad(outSize)], during + [DrainAdvance], t);
    OneStep(s, DrainLoad(outSize), loaded);
    var ready := RunJoins(loaded, during, [DrainAdvance], t);
    OneStep(ready, DrainAdvance, t);
    DrainLoads(s, outSize);
    var count := loaded.consumer.count;
    StillDraining(s, count, loaded, during, ready);
    DrainEnds(s, count, ready);
  }

  lemma DrainLoads<T>(s: State<T>, outSize: nat)
    requires Inv(s) && Enabled(s, DrainLoad(outSize))
    ensures var t := Apply(s, DrainLoad(outSize));
            var ready := |s.accepted| - |s.drained|;
            && ready >= 0 && Inv(t) && t.consumer.Copying?
            && t.consumer.count == (if outSize < ready then outSize else ready)
            && Draining(s, t.consumer.count, t)
  {
    StepKeepsInv(s, DrainLoad(outSize));
  }

  lemma DrainEnds<T>(s: State<T>, count: nat, ready: State<T>)
    requires Inv(ready) && Draining(s, count, ready) && Enabled(ready, DrainAdvance)
    requires s.read == |s.drained| && s.read + count <= |s.accepted|
    ensures var t := Apply(ready, DrainAdvance);
            && |t.drained| == |s.drained| + count && t.drained == Entries(s.accepted[..|s.drained| + count])
            && s.accepted <= t.accepted
            && (if count == 0 then t.consumer.Waiting? else t.consumer.Releasing?)
  {
    StepKeepsInv(ready, DrainAdvance);
    var t := Apply(ready, DrainAdvance);
    assert t.accepted[..t.read] == s.accepted[..t.read];
  }

  // Neither thread ever waits for the other: in every reachable state each has a step to make, also one that
  // is about to decide whether the ring is full.
  lemma ThreadsGoOn<T(!new)>(capacity: nat, run: seq<Action<T>>, s: State<T>, x: T, outSize: nat)
    requires capacity > 0 && Reaches(Init(capacity), run, s) && s.active
    ensures s.entries != []
    ensures Enabled(s, RecordLoad(x)) || Enabled(s, RecordRefuse) || Enabled(s, RecordBegin)
            || Enabled(s, RecordFinish) || Enabled(s, RecordPublish)
    ensures s.drainEnabled ==>
              Enabled(s, DrainLoad(outSize)) || Enabled(s, DrainCopy) || Enabled(s, DrainAdvance)
              || Enabled(s, DrainStore)
  {
    RunKeepsInv(Init(capacity), run, s);
  }

  // Giving slots back makes every sample drained so far released.
  lemma StoreReleases<T(!new)>(capacity: nat, run: seq<Action<T>>, s: State<T>)
    requires capacity > 0 && Reaches(Init(capacity), run, s)
    ensures s.released <= |s.drained| && (!s.consumer.Releasing? ==> s.released == |s.drained|)
  {
    RunKeepsInv(Init(capacity), run, s);
  }

  // Between drains the refusals can be taken, and then every one so far has been reported.
  lemma RefusalsAreTaken<T(!new)>(capacity: nat, run: seq<Action<T>>, s: State<T>)
    requires capacity > 0 && Reaches(Init(capacity), run, s)
    requires s.active && s.drainEnabled && s.consumer.Waiting?
    ensures s.entries != [] && Enabled(s, TakeOverflow)
    ensures Apply(s, TakeOverflow).taken == s.refused && Apply(s, TakeOverflow).overflow == 0
  {
    RunKeepsInv(Init(capacity), run, s);
  }

  // ---------------------------------------------------------------- uninterrupted calls

  // The n entries of a ring that follow index `from`.
  function Window<T>(e: seq<T>, from: nat, n: nat): (r: seq<T>)
    requires e != []
    ensures |r| == n && forall i :: 0 <= i < n ==> r[i] == e[(from + i) % |e|]
  {
    seq(n, i requires 0 <= i < n => e[(from + i) % |e|])
  }

  lemma WindowExtends<T>(e: seq<T>, from: nat, n: nat, x: T)
    requires n < |e|
    ensures (from + n) % |e| < |e|
    ensures Window(e[(from + n) % |e| := x], from, n + 1) == Window(e, from, n) + [x]
  {
    var e' := e[(from + n) % |e| := x];
    var w, w' := Window(e, from, n), Window(e', from, n + 1);
    forall i | 0 <= i < n
      ensures w'[i] == w[i]
    {
      SlotsDiffer(from + i, from + n, |e|);
    }
    assert w'[n] == x;
    assert w' == w + [x];
  }

  lemma WindowShrinks<T>(e: seq<T>, from: nat, n: nat, k: nat)
    requires e != [] && k <= n
    ensures Window(e, from + k, n - k) == Window(e, from, n)[k..]
  {}

  // The buffer as one object, each call running to completion.
  class SingleProducerBurstSeriesBuffer<T(0)> {
    const entries: array<T>
    var published: nat
    var consumed: nat
    var overflow: nat
    var write: nat
    var read: nat
    var active: bool
    var drainEnabled: bool

    ghost predicate Valid()
      reads this
    {
      entries.Length > 0 && consumed == read <= published == write <= consumed + entries.Length
    }

    ghost function Contents(): (c: seq<T>)
      reads this, entries
      requires Valid()
    {
      Window(entries[..], read, write - read)
    }

    constructor (capacity: nat)
      requires capacity > 0
      ensures Valid() && Contents() == [] && fresh(entries) && entries.Length == capacity
      ensures !active && !drainEnabled && overflow == 0
    {
      entries := new T[capacity];
      published, consumed, overflow, write, read := 0, 0, 0, 0, 0;
      active, drainEnabled := false, false;
    }

    method Record(sample: T) returns (ok: bool)
      requires Valid()
      modifies this`write, this`published, this`overflow, entries
      ensures Valid()
      ensures ok == (active && |old(Contents())| < entries.Length)
      ensures Contents() == if ok then old(Contents()) + [sample] else old(Contents())
      ensures overflow == old(overflow) + if active && !ok then 1 else 0
    {
      if !active {
        return false;
      }
      if write - consumed >= entries.Length {
        overflow := overflow + 1;
        return false;
      }
      WindowExtends(entries[..], read, write - read, sample);
      assert read + (write - read) == write;
      entries[write % entries.Length] := sample;
      write := write + 1;
      published := write;
      return true;
    }

    method Drain(out: array<T>) returns (count: nat)
      requires Valid() && out != entries
      modifies this`read, this`consumed, out
      ensures Valid()
      ensures count == if !active || !drainEnabled then 0
                       else if out.Length < |old(Contents())| then out.Length else |old(Contents())|
      ensures out[..count] == old(Contents())[..count] && out[count..] == old(out[count..])
      ensures Contents() == old(Contents())[count..]
    {
      if !active || !drainEnabled {
        assert out[0..] == out[..] == old(out[0..]);
        return 0;
      }
      count := if out.Length < published - read then out.Length else published - read;
      hide Window;
      ghost var e, contents := entries[..], Contents();
      for index := 0 to count
        invariant Valid() && read == old(read) && entries[..] == e
        invariant forall i :: 0 <= i < index ==> out[i] == contents[i]
        invariant forall i :: index <= i < out.Length ==> out[i] == old(out[i])
      {
        var slot := (read + index) % entries.Length;
        assert contents[index] == e[slot];
        out[index] := entries[slot];
      }
      WindowShrinks(entries[..], read, write - read, count);
      read := read + count;
      if count != 0 {
        consumed := read;
      }
    }

    method DrainOverflow() returns (ok: bool, taken: nat)
      modifies this`overflow
      ensures ok == (active && drainEnabled)
      ensures taken == (if ok then old(overflow) else 0) && overflow == old(overflow) - taken
    {
      if !active || !drainEnabled {
        return false, 0;
      }
      taken := overflow;
      overflow := 0;
      return true, taken;
    }
  }
}
