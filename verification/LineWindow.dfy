/** The log sink's count of lines in the last sixty seconds.

Each of sixty buckets packs a second into its high half and a count into its low half. Loggers
update a bucket with a compare-and-swap loop, every load and every swap being one atomic step.
*/
module LineWindow {
  import opened Words

  const BUCKETS: nat := 60

  function Pack(second: nat, count: nat): nat { second * W32 + count }

  function Epoch(packed: nat): nat { packed / W32 }

  function Count(packed: nat): nat { packed % W32 }

  function Min(a: nat, b: nat): nat { if a < b then a else b }

  // The replacement a logger computes from the bucket it has seen.
  function Replacement(packed: nat, second: nat): nat {
    if Epoch(packed) == second then Pack(second, Min(Count(packed) + 1, MAX32)) else Pack(second, 1)
  }

  lemma PackParts(second: nat, count: nat)
    requires count <= MAX32
    ensures Epoch(Pack(second, count)) == second && Count(Pack(second, count)) == count
  {}

  // ---------------------------------------------------------------- loggers as interleaved steps

  // A call has read the clock; later it has also loaded its bucket.
  datatype Call = Begun(second: nat) | Loaded(second: nat, packed: nat)

  // `done` lists the clock readings of the completed calls.
  datatype State = State(clock: nat, buckets: seq<nat>, calls: map<nat, Call>, done: seq<nat>)

  datatype Action = Tick(seconds: nat) | Begin(id: nat) | Load(id: nat) | Swap(id: nat, spurious: bool)

  function Init(clock: nat): State {
    State(clock, seq(BUCKETS, _ => 0), map[], [])
  }

  predicate Enabled(s: State, a: Action)
    requires |s.buckets| == BUCKETS
  {
    match a
    case Tick(n) => s.clock + n < W32
    case Begin(id) => id !in s.calls
    case Load(id) => id in s.calls && s.calls[id].Begun?
    case Swap(id, _) => id in s.calls && s.calls[id].Loaded?
  }

  predicate Succeeds(s: State, a: Action)
    requires |s.buckets| == BUCKETS && Enabled(s, a)
  {
    a.Swap? && !a.spurious && s.buckets[s.calls[a.id].second % BUCKETS] == s.calls[a.id].packed
  }

  function Apply(s: State, a: Action): State
    requires |s.buckets| == BUCKETS && Enabled(s, a)
  {
    match a
    case Tick(n) => s.(clock := s.clock + n)
    case Begin(id) => s.(calls := s.calls[id := Begun(s.clock)])
    case Load(id) =>
      var second := s.calls[id].second;
      s.(calls := s.calls[id := Loaded(second, s.buckets[second % BUCKETS])])
    case Swap(id, _) =>
      var c := s.calls[id];
      var b := c.second % BUCKETS;
      if Succeeds(s, a) then
        s.(buckets := s.buckets[b := Replacement(c.packed, c.second)], calls := s.calls - {id},
           done := s.done + [c.second])
      else s.(calls := s.calls[id := Loaded(c.second, s.buckets[b])])
  }

  // A call completes less than sixty seconds after it has read the clock.
  predicate Timely(s: State, a: Action)
    requires |s.buckets| == BUCKETS && Enabled(s, a)
  {
    Succeeds(s, a) ==> s.clock < s.calls[a.id].second + BUCKETS
  }

  // ---------------------------------------------------------------- the invariant

  function Times(done: seq<nat>, t: nat): nat {
    multiset(done)[t]
  }

  // What a bucket adds to the window.
  function Share(packed: nat, now: nat): nat {
    if Epoch(packed) <= now && now - Epoch(packed) < BUCKETS then Count(packed) else 0
  }

  // The lines of second t, as far as a bucket can count them.
  function Lines(done: seq<nat>, t: int): nat {
    if t < 0 then 0 else Min(Times(done, t), MAX32)
  }

  // The latest second up to now that uses bucket b.
  function Latest(now: nat, b: nat): int
    requires b < BUCKETS
  {
    var r := now % BUCKETS;
    if b <= r then now - r + b else now - r + b - BUCKETS
  }

  // A bucket adds the lines of the one second of the window that uses it.
  ghost predicate Shows(packed: nat, b: nat, done: seq<nat>, clock: nat)
    requires b < BUCKETS
  {
    && Epoch(packed) <= clock
    && (Count(packed) != 0 ==> Epoch(packed) % BUCKETS == b)
    && Share(packed, clock) == Lines(done, Latest(clock, b))
  }

  ghost predicate Inv(s: State) {
    && s.clock < W32 && |s.buckets| == BUCKETS
    && (forall b :: 0 <= b < BUCKETS ==> Shows(s.buckets[b], b, s.done, s.clock))
    && (forall t :: t in s.done ==> t <= s.clock)
    && (forall id :: id in s.calls ==> s.calls[id].second <= s.clock)
  }

  lemma LatestIs(now: nat, b: nat, e: nat)
    requires b < BUCKETS && e <= now < e + BUCKETS && e % BUCKETS == b
    ensures Latest(now, b) == e
  {}

  lemma LatestSlot(now: nat, b: nat)
    requires b < BUCKETS
    ensures var t := Latest(now, b); now - BUCKETS < t <= now && (t >= 0 ==> t % BUCKETS == b)
  {}

  lemma SameSlotApart(s: nat, e: nat)
    requires s % BUCKETS == e % BUCKETS && s < e
    ensures s + BUCKETS <= e
  {}

  // Time passing moves the second a bucket shows, but only to one that has no lines yet.
  lemma TickShows(packed: nat, b: nat, done: seq<nat>, clock: nat, later: nat)
    requires b < BUCKETS && clock <= later && Shows(packed, b, done, clock) && forall t :: t in done ==> t <= clock
    ensures Shows(packed, b, done, later)
  {
    hide Latest;
    LatestSlot(clock, b);
    LatestSlot(later, b);
    var t, u := Latest(clock, b), Latest(later, b);
    if u <= clock {
      if u >= 0 {
        LatestIs(clock, b, u);
      }
    } else {
      assert u !in done;
    }
    if Count(packed) != 0 && Epoch(packed) + BUCKETS > later {
      LatestIs(later, b, Epoch(packed));
      LatestIs(clock, b, Epoch(packed));
    }
  }

  lemma OneMore(done: seq<nat>, second: nat, t: int)
    ensures Lines(done + [second], t) == if t == second then Min(Times(done, second) + 1, MAX32) else Lines(done, t)
  {
    assert multiset(done + [second]) == multiset(done)[second := Times(done, second) + 1];
  }

  // A call that swaps in time adds its line.
  lemma SwapShows(packed: nat, second: nat, done: seq<nat>, clock: nat)
    requires Shows(packed, second % BUCKETS, done, clock) && second <= clock < second + BUCKETS
    ensures Shows(Replacement(packed, second), second % BUCKETS, done + [second], clock)
  {
    hide Latest, Lines;
    var b, e := second % BUCKETS, Epoch(packed);
    LatestIs(clock, b, second);
    OneMore(done, second, second);
    InTime(packed, second, done, clock);
    PackParts(second, if e == second then Min(Count(packed) + 1, MAX32) else 1);
  }

  lemma InTime(packed: nat, second: nat, done: seq<nat>, clock: nat)
    requires Shows(packed, second % BUCKETS, done, clock) && second <= clock < second + BUCKETS
    ensures Min(Times(done, second), MAX32) == if Epoch(packed) == second then Count(packed) else 0
  {
    hide Latest;
    LatestIs(clock, second % BUCKETS, second);
    if Count(packed) != 0 && Epoch(packed) < second {
      SameSlotApart(Epoch(packed), second);
    } else if Count(packed) != 0 && second < Epoch(packed) {
      SameSlotApart(second, Epoch(packed));
    }
  }

  // A call that swaps too late adds nothing to the window, and takes away what its bucket showed.
  lemma LateShows(packed: nat, second: nat, done: seq<nat>, clock: nat)
    requires Shows(packed, second % BUCKETS, done, clock) && second + BUCKETS <= clock
    ensures Share(Replacement(packed, second), clock) == 0
    ensures Share(packed, clock) == 0 ==> Shows(Replacement(packed, second), second % BUCKETS, done + [second], clock)
  {
    hide Latest, Lines;
    LatestSlot(clock, second % BUCKETS);
    OneMore(done, second, Latest(clock, second % BUCKETS));
    PackParts(second, if Epoch(packed) == second then Min(Count(packed) + 1, MAX32) else 1);
  }

  lemma OthersShow(packed: nat, b: nat, done: seq<nat>, clock: nat, second: nat)
    requires b < BUCKETS && Shows(packed, b, done, clock) && second % BUCKETS != b
    ensures Shows(packed, b, done + [second], clock)
  {
    hide Latest, Lines;
    LatestSlot(clock, b);
    OneMore(done, second, Latest(clock, b));
  }

  // A late swap is harmless when its bucket adds nothing to the window.
  predicate Harmless(s: State, a: Action)
    requires |s.buckets| == BUCKETS && Enabled(s, a)
  {
    Succeeds(s, a) ==> Timely(s, a) || Share(s.calls[a.id].packed, s.clock) == 0
  }

  lemma StepKeepsInv(s: State, a: Action)
    requires Inv(s) && Enabled(s, a) && Harmless(s, a)
    ensures Inv(Apply(s, a))
  {
    hide Shows, Share, Replacement;
    if Succeeds(s, a) {
      var c := s.calls[a.id];
      if Timely(s, a) {
        SwapShows(c.packed, c.second, s.done, s.clock);
      } else {
        LateShows(c.packed, c.second, s.done, s.clock);
      }
      forall b | 0 <= b < BUCKETS && b != c.second % BUCKETS
        ensures Shows(s.buckets[b], b, s.done + [c.second], s.clock)
      {
        OthersShow(s.buckets[b], b, s.done, s.clock, c.second);
      }
    } else if a.Tick? {
      forall b | 0 <= b < BUCKETS
        ensures Shows(s.buckets[b], b, s.done, s.clock + a.seconds)
      {
        TickShows(s.buckets[b], b, s.done, s.clock, s.clock + a.seconds);
      }
    }
  }

  lemma InitInv(clock: nat)
    requires clock < W32
    ensures Inv(Init(clock))
  {}

  // ---------------------------------------------------------------- the sum over the buckets

  // The shares of n buckets from b on.
  function Sum(buckets: seq<nat>, now: nat, b: nat, n: nat): nat
    requires b + n <= |buckets|
  {
    if n == 0 then 0 else Sum(buckets, now, b, n - 1) + Share(buckets[b + n - 1], now)
  }

  function RecentLines(buckets: seq<nat>, now: nat): nat {
    Sum(buckets, now, 0, |buckets|)
  }

  // The lines of n seconds from t on.
  function LinesFrom(done: seq<nat>, t: int, n: nat): nat {
    if n == 0 then 0 else LinesFrom(done, t, n - 1) + Lines(done, t + n - 1)
  }

  lemma {:induction false} SumOfInterval(buckets: seq<nat>, done: seq<nat>, now: nat, b: nat, n: nat, t: int)
    requires |buckets| == BUCKETS && b + n <= BUCKETS
    requires forall i :: 0 <= i < BUCKETS ==> Shows(buckets[i], i, done, now)
    requires forall i :: b <= i < b + n ==> Latest(now, i) == t + i - b
    ensures Sum(buckets, now, b, n) == LinesFrom(done, t, n)
  {
    if n > 0 {
      SumOfInterval(buckets, done, now, b, n - 1, t);
    }
  }

  lemma {:induction false} SumJoins(buckets: seq<nat>, now: nat, b: nat, n: nat, m: nat)
    requires b + n + m <= |buckets|
    ensures Sum(buckets, now, b, n + m) == Sum(buckets, now, b, n) + Sum(buckets, now, b + n, m)
  {
    if m > 0 {
      SumJoins(buckets, now, b, n, m - 1);
    }
  }

  lemma {:induction false} LinesJoin(done: seq<nat>, t: int, n: nat, m: nat)
    ensures LinesFrom(done, t, n + m) == LinesFrom(done, t, n) + LinesFrom(done, t + n, m)
  {
    if m > 0 {
      LinesJoin(done, t, n, m - 1);
    }
  }

  // The buckets add up to the lines of the last sixty seconds.
  lemma WindowIsExact(buckets: seq<nat>, done: seq<nat>, now: nat)
    requires |buckets| == BUCKETS && forall i :: 0 <= i < BUCKETS ==> Shows(buckets[i], i, done, now)
    ensures RecentLines(buckets, now) == LinesFrom(done, now - 59, BUCKETS)
  {
    var r := now % BUCKETS;
    SumOfInterval(buckets, done, now, 0, r + 1, now - r);
    SumOfInterval(buckets, done, now, r + 1, 59 - r, now - 59);
    SumJoins(buckets, now, 0, r + 1, 59 - r);
    LinesJoin(done, now - 59, 59 - r, r + 1);
  }

  // ---------------------------------------------------------------- runs, with calls in time and late

  lemma {:induction false} SumChanges(buckets: seq<nat>, now: nat, n: nat, b: nat, packed: nat)
    requires n <= |buckets| && b < |buckets|
    ensures Sum(buckets[b := packed], now, 0, n)
            == Sum(buckets, now, 0, n) + if b < n then Share(packed, now) - Share(buckets[b], now) else 0
  {
    if n > 0 {
      SumChanges(buckets, now, n - 1, b, packed);
    }
  }

  lemma {:induction false} LinesOutside(done: seq<nat>, second: nat, t: int, n: nat)
    requires second < t
    ensures LinesFrom(done + [second], t, n) == LinesFrom(done, t, n)
  {
    if n > 0 {
      LinesOutside(done, second, t, n - 1);
      assert multiset(done + [second]) == multiset(done) + multiset{second};
    }
  }

  /** A call that swaps sixty seconds or more after its clock reading empties its bucket of newer lines:
  the window stays exact only if the bucket held none. */
  lemma LateSwapDropsLines(s: State, a: Action)
    requires Inv(s) && Enabled(s, a) && Succeeds(s, a) && !Timely(s, a)
    ensures var t, b := Apply(s, a), s.calls[a.id].second % BUCKETS;
            RecentLines(t.buckets, t.clock) == LinesFrom(t.done, t.clock - 59, BUCKETS) <==>
              Share(s.buckets[b], s.clock) == 0
  {
    var c, t := s.calls[a.id], Apply(s, a);
    PackParts(c.second, if Epoch(c.packed) == c.second then Min(Count(c.packed) + 1, MAX32) else 1);
    WindowIsExact(s.buckets, s.done, s.clock);
    SumChanges(s.buckets, s.clock, BUCKETS, c.second % BUCKETS, Replacement(c.packed, c.second));
    LinesOutside(s.done, c.second, s.clock - 59, BUCKETS);
  }

  // The calls whose clock reading lies in the n seconds from t on.
  function CallsFrom(done: seq<nat>, t: int, n: nat): nat {
    if done == [] then 0 else CallsFrom(done[1..], t, n) + if t <= done[0] < t + n then 1 else 0
  }

  lemma {:induction false} CallsStep(done: seq<nat>, t: int, n: nat)
    ensures CallsFrom(done, t, n + 1) == CallsFrom(done, t, n) + if t + n < 0 then 0 else Times(done, t + n)
  {
    if done != [] {
      CallsStep(done[1..], t, n);
      assert done == [done[0]] + done[1..];
      assert multiset(done) == multiset{done[0]} + multiset(done[1..]);
    }
  }

  lemma {:induction false} LinesAreCalls(done: seq<nat>, t: int, n: nat)
    requires forall s :: t <= s < t + n && s >= 0 ==> Times(done, s) <= MAX32
    ensures LinesFrom(done, t, n) == CallsFrom(done, t, n)
  {
    if n > 0 {
      LinesAreCalls(done, t, n - 1);
      CallsStep(done, t, n - 1);
    } else {
      NoCalls(done, t);
    }
  }

  lemma {:induction false} NoCalls(done: seq<nat>, t: int)
    ensures CallsFrom(done, t, 0) == 0
  {
    if done != [] {
      NoCalls(done[1..], t);
    }
  }

  // What CopyStats reports is what was logged in the last sixty seconds.
  ghost predicate Exact(s: State) {
    |s.buckets| == BUCKETS && RecentLines(s.buckets, s.clock) == LinesFrom(s.done, s.clock - 59, BUCKETS)
  }

  ghost predicate Possible(s: State, run: seq<Action>)
    decreases |run|
  {
    && |s.buckets| == BUCKETS
    && (run != [] ==> Enabled(s, run[0]) && Possible(Apply(s, run[0]), run[1..]))
  }

  function Final(s: State, run: seq<Action>): State
    requires Possible(s, run)
    decreases |run|
  {
    if run == [] then s else Final(Apply(s, run[0]), run[1..])
  }

  ghost predicate ExactThroughout(s: State, run: seq<Action>)
    requires Possible(s, run)
    decreases |run|
  {
    Exact(s) && (run != [] ==> ExactThroughout(Apply(s, run[0]), run[1..]))
  }

  // Every swap of the run that comes late finds nothing of the last sixty seconds in its bucket.
  ghost predicate AllHarmless(s: State, run: seq<Action>)
    requires Possible(s, run)
    decreases |run|
  {
    run != [] ==> Harmless(s, run[0]) && AllHarmless(Apply(s, run[0]), run[1..])
  }

  ghost predicate AllTimely(s: State, run: seq<Action>)
    requires Possible(s, run)
    decreases |run|
  {
    run != [] ==> Timely(s, run[0]) && AllTimely(Apply(s, run[0]), run[1..])
  }

  lemma {:induction false} TimelyIsHarmless(s: State, run: seq<Action>)
    requires Possible(s, run) && AllTimely(s, run)
    ensures AllHarmless(s, run)
    decreases |run|
  {
    if run != [] {
      TimelyIsHarmless(Apply(s, run[0]), run[1..]);
    }
  }

  lemma {:induction false} RunKeepsInv(s: State, run: seq<Action>)
    requires Inv(s) && Possible(s, run) && AllHarmless(s, run)
    ensures Inv(Final(s, run))
    decreases |run|
  {
    hide Inv, Apply;
    if run != [] {
      StepKeepsInv(s, run[0]);
      RunKeepsInv(Apply(s, run[0]), run[1..]);
    }
  }

  lemma InvIsExact(s: State)
    requires Inv(s)
    ensures Exact(s)
  {
    WindowIsExact(s.buckets, s.done, s.clock);
  }

  /** For every interleaving of loggers: the window is exact in every state of the run if and only if every
  late swap of the run was harmless. */
  lemma {:induction false} ExactExactly(s: State, run: seq<Action>)
    requires Inv(s) && Possible(s, run)
    ensures ExactThroughout(s, run) <==> AllHarmless(s, run)
    decreases |run|
  {
    hide Inv, Apply, Exact;
    InvIsExact(s);
    if run != [] {
      var t := Apply(s, run[0]);
      if Harmless(s, run[0]) {
        StepKeepsInv(s, run[0]);
        ExactExactly(t, run[1..]);
      } else {
        HarmIsSeen(s, run[0]);
        assert !Exact(t);
      }
    }
  }

  lemma HarmIsSeen(s: State, a: Action)
    requires Inv(s) && Enabled(s, a) && !Harmless(s, a)
    ensures !Exact(Apply(s, a))
  {
    LateSwapDropsLines(s, a);
  }

  // In particular when every call completes within sixty seconds of its clock reading; the window then
  // counts completed calls, each second up to what its half of a bucket holds.
  lemma RecentLinesAreCalls(start: nat, run: seq<Action>)
    requires start < W32 && Possible(Init(start), run) && AllTimely(Init(start), run)
    ensures var s := Final(Init(start), run);
            && Exact(s)
            && ((forall t: nat :: Times(s.done, t) <= MAX32) ==>
                  RecentLines(s.buckets, s.clock) == CallsFrom(s.done, s.clock - 59, BUCKETS))
  {
    InitInv(start);
    TimelyIsHarmless(Init(start), run);
    RunKeepsInv(Init(start), run);
    var s := Final(Init(start), run);
    InvIsExact(s);
    if forall t: nat :: Times(s.done, t) <= MAX32 {
      LinesAreCalls(s.done, s.clock - 59, BUCKETS);
    }
  }

  lemma OneStepMore(s: State, a: Action, rest: seq<Action>)
    requires |s.buckets| == BUCKETS && Enabled(s, a) && Possible(Apply(s, a), rest)
    ensures Possible(s, [a] + rest)
    ensures AllHarmless(s, [a] + rest) <==> Harmless(s, a) && AllHarmless(Apply(s, a), rest)
  {
    assert ([a] + rest)[1..] == rest;
  }

  // A logger reads the clock at second 100 and swaps at 160, after another one has logged there: the other
  // one's line is lost from the window.
  lemma LateLoggerHidesLine() returns (run: seq<Action>)
    ensures Possible(Init(100), run) && !ExactThroughout(Init(100), run)
  {
    var s0 := Init(100);
    var s1 := State(100, s0.buckets, map[0 := Begun(100)], []);
    var s2 := s1.(clock := 160);
    var s3 := s2.(calls := map[0 := Begun(100), 1 := Begun(160)]);
    var s4 := s2.(calls := map[0 := Begun(100), 1 := Loaded(160, 0)]);
    var s5 := State(160, s0.buckets[40 := Pack(160, 1)], map[0 := Begun(100)], [160]);
    var s6 := s5.(calls := map[0 := Loaded(100, Pack(160, 1))]);
    assert Apply(s0, Begin(0)) == s1;
    assert Apply(s1, Tick(60)) == s2;
    assert Apply(s2, Begin(1)) == s3;
    assert Apply(s3, Load(1)) == s4;
    assert Apply(s4, Swap(1, false)) == s5;
    assert Apply(s5, Load(0)) == s6;
    PackParts(160, 1);
    assert !Harmless(s6, Swap(0, false));
    hide Apply, Harmless, Init, Inv;
    run := [];
    OneStepMore(s6, Swap(0, false), run);
    run := [Swap(0, false)] + run;
    OneStepMore(s5, Load(0), run);
    run := [Load(0)] + run;
    OneStepMore(s4, Swap(1, false), run);
    run := [Swap(1, false)] + run;
    OneStepMore(s3, Load(1), run);
    run := [Load(1)] + run;
    OneStepMore(s2, Begin(1), run);
    run := [Begin(1)] + run;
    OneStepMore(s1, Tick(60), run);
    run := [Tick(60)] + run;
    OneStepMore(s0, Begin(0), run);
    run := [Begin(0)] + run;
    InitInv(100);
    ExactExactly(s0, run);
  }

  // ---------------------------------------------------------------- no logger is held up

  lemma {:induction false} PossibleJoins(s: State, a: seq<Action>, b: seq<Action>)
    requires Possible(s, a + b)
    ensures Possible(s, a) && Possible(Final(s, a), b) && Final(s, a + b) == Final(Final(s, a), b)
    decreases |a|
  {
    if a == [] {
      assert a + b == b;
    } else {
      assert (a + b)[1..] == a[1..] + b;
      PossibleJoins(Apply(s, a[0]), a[1..], b);
    }
  }

  // No swap of this logger succeeds in the run.
  ghost predicate Unfinished(s: State, run: seq<Action>, id: nat)
    requires Possible(s, run)
    decreases |run|
  {
    run != [] ==> !(Succeeds(s, run[0]) && run[0].id == id) && Unfinished(Apply(s, run[0]), run[1..], id)
  }

  lemma {:induction false} KeepsItsSecond(s: State, run: seq<Action>, id: nat)
    requires Possible(s, run) && id in s.calls && Unfinished(s, run, id)
    ensures var t := Final(s, run); id in t.calls && t.calls[id].second == s.calls[id].second
    decreases |run|
  {
    if run != [] {
      KeepsItsSecond(Apply(s, run[0]), run[1..], id);
    }
  }

  // However long a call takes, what it logs is one line of the second in which it began.
  lemma CallIsCounted(s: State, id: nat, during: seq<Action>, spurious: bool)
    requires Possible(s, [Begin(id)] + (during + [Swap(id, spurious)]))
    requires Possible(Apply(s, Begin(id)), during) && Unfinished(Apply(s, Begin(id)), during, id)
    ensures var u, t := Final(Apply(s, Begin(id)), during), Final(s, [Begin(id)] + (during + [Swap(id, spurious)]));
            && Possible(u, [Swap(id, spurious)])
            && t.done == (if Succeeds(u, Swap(id, spurious)) then u.done + [s.clock] else u.done)
            && (id in t.calls <==> !Succeeds(u, Swap(id, spurious)))
  {
    var begun := Apply(s, Begin(id));
    assert ([Begin(id)] + (during + [Swap(id, spurious)]))[1..] == during + [Swap(id, spurious)];
    PossibleJoins(begun, during, [Swap(id, spurious)]);
    KeepsItsSecond(begun, during, id);
    var u := Final(begun, during);
    assert [Swap(id, spurious)][1..] == [];
    assert Final(u, [Swap(id, spurious)]) == Apply(u, Swap(id, spurious));
  }

  // The logger has seen its bucket as it is.
  predicate UpToDate(s: State, id: nat) {
    && |s.buckets| == BUCKETS && id in s.calls && s.calls[id].Loaded?
    && s.calls[id].packed == s.buckets[s.calls[id].second % BUCKETS]
  }

  // So it has after a load and after every swap that failed.
  lemma SeesItsBucket(s: State, a: Action)
    requires |s.buckets| == BUCKETS && Enabled(s, a) && (a.Load? || (a.Swap? && !Succeeds(s, a)))
    ensures UpToDate(Apply(s, a), a.id)
  {}

  predicate IsOf(a: Action, id: nat) { (a.Begin? || a.Load? || a.Swap?) && a.id == id }

  lemma {:induction false} OthersMoved(s: State, run: seq<Action>, id: nat, n: nat)
    requires Possible(s, run) && id in s.calls && s.calls[id].Loaded? && n <= |s.done|
    requires forall a :: a in run ==> !IsOf(a, id)
    requires UpToDate(s, id) || n < |s.done|
    ensures var t := Final(s, run); id in t.calls && t.calls[id].Loaded? && (UpToDate(t, id) || n < |t.done|)
    decreases |run|
  {
    if run != [] {
      assert run[0] in run;
      OthersMoved(Apply(s, run[0]), run[1..], id, n);
    }
  }

  /** Some logger always gets through: whatever others do meanwhile, a swap that follows a look at the bucket succeeds,
  unless it fails spuriously or another call was completed since the look. */
  lemma SwapOrOtherDone(s: State, run: seq<Action>, id: nat)
    requires Possible(s, run) && UpToDate(s, id) && forall a :: a in run ==> !IsOf(a, id)
    ensures var t := Final(s, run);
            |t.buckets| == BUCKETS && Enabled(t, Swap(id, false))
            && (Succeeds(t, Swap(id, false)) || |s.done| < |t.done|)
  {
    OthersMoved(s, run, id, |s.done|);
    FinalBuckets(s, run);
  }

  lemma {:induction false} FinalBuckets(s: State, run: seq<Action>)
    requires Possible(s, run)
    ensures |Final(s, run).buckets| == BUCKETS
    decreases |run|
  {
    if run != [] {
      FinalBuckets(Apply(s, run[0]), run[1..]);
    }
  }

  // ---------------------------------------------------------------- the sink object

  class CountingSink {
    var written: nat
    var flushed: nat
    const buckets: array<nat>
    ghost var done: seq<nat>

    // For a clock that has not run backwards since the last call.
    ghost predicate Valid(clock: nat)
      reads this, buckets
    {
      && buckets.Length == BUCKETS && written == |done|
      && (forall t :: t in done ==> t <= clock)
      && forall b :: 0 <= b < BUCKETS ==> Shows(buckets[b], b, done, clock)
    }

    constructor (clock: nat)
      ensures Valid(clock) && done == [] && flushed == 0
    {
      written, flushed, done := 0, 0, [];
      buckets := new nat[BUCKETS](_ => 0);
    }

    // With a single logger the swap succeeds at once.
    method Log(ghost before: nat, second: nat)
      requires Valid(before) && before <= second < W32
      modifies this`written, this`done, buckets
      ensures Valid(second) && done == old(done) + [second]
    {
      written := written + 1;
      var b := second % BUCKETS;
      forall i | 0 <= i < BUCKETS
        ensures Shows(buckets[i], i, done, second)
      {
        TickShows(buckets[i], i, done, before, second);
      }
      SwapShows(buckets[b], second, done, second);
      forall i | 0 <= i < BUCKETS && i != b
        ensures Shows(buckets[i], i, done + [second], second)
      {
        OthersShow(buckets[i], i, done, second, second);
      }
      buckets[b] := Replacement(buckets[b], second);
      done := done + [second];
    }

    method Flush()
      modifies this`flushed
      ensures flushed == old(flushed) + 1
    {
      flushed := flushed + 1;
    }

    method CopyStats(ghost before: nat, now: nat) returns (w: nat, f: nat, linesPerMinute: nat)
      requires Valid(before) && before <= now < W32
      ensures w == |done| && f == flushed
      ensures linesPerMinute == LinesFrom(done, now - 59, BUCKETS)
    {
      w, f, linesPerMinute := written, flushed, 0;
      for i := 0 to buckets.Length
        invariant linesPerMinute == Sum(buckets[..], now, 0, i)
      {
        var epoch := buckets[i] / W32;
        if epoch <= now && now - epoch < BUCKETS {
          linesPerMinute := linesPerMinute + buckets[i] % W32;
        }
      }
      forall i | 0 <= i < BUCKETS
        ensures Shows(buckets[..][i], i, done, now)
      {
        TickShows(buckets[i], i, done, before, now);
      }
      WindowIsExact(buckets[..], done, now);
    }
  }
}
