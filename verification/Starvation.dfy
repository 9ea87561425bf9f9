/** Which gauges a run of drains is sure to emit: the rotating cursor against the room for samples. */
module Starvation {
  import opened Gcds
  import opened ImageSeries

  // Some drain of a run emits the row; `readings` holds the counters as each drain finds them.
  ghost predicate EmittedIn(readings: seq<seq<Values>>, previous: seq<Values>, kinds: seq<bool>, cursor: nat,
                            count: nat, capacity: nat, limit: nat, row: nat)
    requires kinds != [] && row < count <= |previous| && forall t :: 0 <= t < |readings| ==> |readings[t]| == |previous|
    decreases |readings|
  {
    readings != [] &&
    var d := DrainOnce(readings[0], previous, kinds, cursor, count, limit);
    (SampleOf(Begin(readings[0], previous), kinds, row) in d.out
     || EmittedIn(readings[1..], d.previous, kinds, (cursor + capacity) % count, count, capacity, limit, row))
  }

  // Where the cursor stands after t drains.
  function CursorAfter(cursor: nat, capacity: nat, count: nat, t: nat): nat
    requires count > 0
    decreases t
  {
    if t == 0 then cursor else CursorAfter((cursor + capacity) % count, capacity, count, t - 1)
  }

  // The row keeps differing from the value it was last emitted with.
  ghost predicate Differs(readings: seq<seq<Values>>, previous: seq<Values>, row: nat)
    requires row < |previous|
  {
    forall t :: 0 <= t < |readings| ==> |readings[t]| == |previous| && readings[t][row] != previous[row]
  }

  // Whatever the other rows do, n drains in which the row keeps differing emit it.
  ghost predicate EmittedWithin(n: nat, previous: seq<Values>, kinds: seq<bool>, cursor: nat, count: nat,
                                capacity: nat, limit: nat, row: nat)
    requires kinds != [] && row < count <= |previous|
  {
    forall readings :: |readings| == n && Differs(readings, previous, row) ==>
      EmittedIn(readings, previous, kinds, cursor, count, capacity, limit, row)
  }

  // ---------------------------------------------------------------- enough room

  lemma GaugeDue(s: Scan, kinds: seq<bool>, row: nat)
    requires kinds != [] && row < |s.counters| == |s.previous| && IsGauge(kinds, row)
             && s.counters[row] != s.previous[row]
    ensures Due(s.counters[row], s.previous[row], IsGauge(kinds, row))
  {}

  // One drain that comes to the row in time emits it.
  lemma EmittedInTime(now: seq<Values>, previous: seq<Values>, kinds: seq<bool>, cursor: nat, count: nat,
                      limit: nat, row: nat)
    requires kinds != [] && row < count <= |previous| == |now| && IsGauge(kinds, row)
    requires now[row] != previous[row] && Place(cursor, row, count) < limit
    ensures SampleOf(Begin(now, previous), kinds, row) in DrainOnce(now, previous, kinds, cursor, count, limit).out
  {
    hide Place, Due, Visit, ScanTo, SamplesOf;
    var s := Begin(now, previous);
    GaugeDue(s, kinds, row);
    DueRowEmitted(s, kinds, cursor, count, limit, row);
  }

  // A gauge that keeps differing is emitted by the first drain that starts near enough before it.
  lemma {:induction false} NoStarvation(readings: seq<seq<Values>>, previous: seq<Values>, kinds: seq<bool>,
                                        cursor: nat, count: nat, capacity: nat, limit: nat, row: nat, t: nat)
    requires kinds != [] && row < count <= |previous| && IsGauge(kinds, row)
    requires Differs(readings, previous, row)
    requires t < |readings| && Place(CursorAfter(cursor, capacity, count, t), row, count) < limit
    ensures EmittedIn(readings, previous, kinds, cursor, count, capacity, limit, row)
    decreases t
  {
    hide Place, Due, Visit, ScanTo, SamplesOf;
    var s := Begin(readings[0], previous);
    var d := DrainOnce(readings[0], previous, kinds, cursor, count, limit);
    if t == 0 {
      EmittedInTime(readings[0], previous, kinds, cursor, count, limit, row);
    } else if SampleOf(s, kinds, row) !in d.out {
      ScanRemembers(s, kinds, cursor, count, limit, count, row);
      NoStarvation(readings[1..], d.previous, kinds, (cursor + capacity) % count, count, capacity, limit, row, t - 1);
    }
  }

  // ---------------------------------------------------------------- too little room

  const ONE := Values(1, 0, 0)
  const TWO := Values(2, 0, 0)

  // Counters with which every row is due.
  function Busy(previous: seq<Values>): (now: seq<Values>)
    ensures |now| == |previous| && forall r :: 0 <= r < |now| ==> now[r] != previous[r] && now[r] != ZERO
  {
    seq(|previous|, r requires 0 <= r < |previous| => if previous[r] == ONE then TWO else ONE)
  }

  // n readings in which every row is due each time.
  function BusyRun(n: nat, previous: seq<Values>, kinds: seq<bool>, cursor: nat, count: nat, capacity: nat, limit: nat):
    (readings: seq<seq<Values>>)
    requires kinds != [] && 0 < count <= |previous|
    ensures |readings| == n && forall t :: 0 <= t < n ==> |readings[t]| == |previous|
    decreases n
  {
    if n == 0 then []
    else
      var d := DrainOnce(Busy(previous), previous, kinds, cursor, count, limit);
      [Busy(previous)] + BusyRun(n - 1, d.previous, kinds, (cursor + capacity) % count, count, capacity, limit)
  }

  lemma {:induction false} AllDue(s: Scan, kinds: seq<bool>, cursor: nat, count: nat, i: nat)
    requires kinds != [] && Fits(s, count) && i <= count
    requires forall r :: 0 <= r < count ==> s.counters[r] != s.previous[r] && s.counters[r] != ZERO
    ensures |DueRows(s, kinds, cursor, count, i)| == i
    ensures forall j :: 0 <= j < i ==> DueRows(s, kinds, cursor, count, i)[j] == At(cursor, j, count)
  {
    if i > 0 {
      AllDue(s, kinds, cursor, count, i - 1);
    }
  }

  // When every row is due, the room goes to the rows next to the cursor.
  lemma BusyMissesOnce(previous: seq<Values>, kinds: seq<bool>, cursor: nat, count: nat, limit: nat, row: nat)
    requires kinds != [] && row < count <= |previous| && limit <= Place(cursor, row, count)
    ensures var s := Begin(Busy(previous), previous);
            SampleOf(s, kinds, row) !in DrainOnce(Busy(previous), previous, kinds, cursor, count, limit).out
  {
    hide Place, At, Visit, ScanTo, Busy;
    var s := Begin(Busy(previous), previous);
    var due := DueRows(s, kinds, cursor, count, count);
    AllDue(s, kinds, cursor, count, count);
    ScanEmits(s, kinds, cursor, count, limit, count);
    forall j | 0 <= j < limit
      ensures At(cursor, j, count) != row
    {
      PlaceAt(cursor, j, count);
    }
  }

  lemma {:induction false} BusyMisses(n: nat, previous: seq<Values>, kinds: seq<bool>, cursor: nat, count: nat,
                                      capacity: nat, limit: nat, row: nat)
    requires kinds != [] && row < count <= |previous| && IsGauge(kinds, row)
    requires forall t: nat :: t < n ==> limit <= Place(CursorAfter(cursor, capacity, count, t), row, count)
    ensures var readings := BusyRun(n, previous, kinds, cursor, count, capacity, limit);
            && Differs(readings, previous, row)
            && !EmittedIn(readings, previous, kinds, cursor, count, capacity, limit, row)
    decreases n
  {
    hide Place, Visit, ScanTo, Busy;
    if n > 0 {
      var s := Begin(Busy(previous), previous);
      var d := DrainOnce(Busy(previous), previous, kinds, cursor, count, limit);
      assert CursorAfter(cursor, capacity, count, 0) == cursor;
      BusyMissesOnce(previous, kinds, cursor, count, limit, row);
      ScanRemembers(s, kinds, cursor, count, limit, count, row);
      var next := (cursor + capacity) % count;
      forall t: nat | t < n - 1
        ensures limit <= Place(CursorAfter(next, capacity, count, t), row, count)
      {
        assert CursorAfter(cursor, capacity, count, t + 1) == CursorAfter(next, capacity, count, t);
      }
      BusyMisses(n - 1, d.previous, kinds, next, count, capacity, limit, row);
      var readings := BusyRun(n, previous, kinds, cursor, count, capacity, limit);
      assert readings[1..] == BusyRun(n - 1, d.previous, kinds, next, count, capacity, limit);
    }
  }

  /** A gauge is emitted within n drains, whatever the other rows do, if and only if one of those drains
  starts less than `limit` rows before it. */
  lemma EmittedExactly(n: nat, previous: seq<Values>, kinds: seq<bool>, cursor: nat, count: nat, capacity: nat,
                       limit: nat, row: nat)
    requires kinds != [] && row < count <= |previous| && IsGauge(kinds, row)
    ensures EmittedWithin(n, previous, kinds, cursor, count, capacity, limit, row)
            <==> exists t: nat :: t < n && Place(CursorAfter(cursor, capacity, count, t), row, count) < limit
  {
    hide Place, EmittedWithin, CursorAfter;
    if exists t: nat :: t < n && Place(CursorAfter(cursor, capacity, count, t), row, count) < limit {
      var t: nat :| t < n && Place(CursorAfter(cursor, capacity, count, t), row, count) < limit;
      AlwaysServed(n, previous, kinds, cursor, count, capacity, limit, row, t);
    } else {
      SometimesMissed(n, previous, kinds, cursor, count, capacity, limit, row);
    }
  }

  lemma AlwaysServed(n: nat, previous: seq<Values>, kinds: seq<bool>, cursor: nat, count: nat, capacity: nat,
                     limit: nat, row: nat, t: nat)
    requires kinds != [] && row < count <= |previous| && IsGauge(kinds, row)
    requires t < n && Place(CursorAfter(cursor, capacity, count, t), row, count) < limit
    ensures EmittedWithin(n, previous, kinds, cursor, count, capacity, limit, row)
  {
    hide Place, EmittedIn, CursorAfter;
    forall readings | |readings| == n && Differs(readings, previous, row)
      ensures EmittedIn(readings, previous, kinds, cursor, count, capacity, limit, row)
    {
      NoStarvation(readings, previous, kinds, cursor, count, capacity, limit, row, t);
    }
  }

  lemma SometimesMissed(n: nat, previous: seq<Values>, kinds: seq<bool>, cursor: nat, count: nat, capacity: nat,
                        limit: nat, row: nat)
    requires kinds != [] && row < count <= |previous| && IsGauge(kinds, row)
    requires forall t: nat :: t < n ==> limit <= Place(CursorAfter(cursor, capacity, count, t), row, count)
    ensures !EmittedWithin(n, previous, kinds, cursor, count, capacity, limit, row)
  {
    hide Place, CursorAfter, EmittedIn;
    BusyMisses(n, previous, kinds, cursor, count, capacity, limit, row);
  }

  // ---------------------------------------------------------------- the closed form

  lemma PlaceIsRemainder(cursor: nat, row: nat, count: nat)
    requires row < count
    ensures Place(cursor, row, count) == (row - cursor) % count
  {
    var q, r := Divided(cursor, count);
    var e := Place(cursor, row, count);
    if r <= row {
      assert row - cursor == e + count * -q;
      Reached(row - cursor, e, count, -q);
    } else {
      assert row - cursor == e + count * (-q - 1);
      Reached(row - cursor, e, count, -q - 1);
    }
  }

  lemma {:induction false} CursorSteps(cursor: nat, capacity: nat, count: nat, t: nat) returns (q: int)
    requires count > 0
    ensures CursorAfter(cursor, capacity, count, t) == cursor + t * capacity + count * q
    decreases t
  {
    if t == 0 {
      q := 0;
    } else {
      var p, next := Divided(cursor + capacity, count);
      var q' := CursorSteps(next, capacity, count, t - 1);
      q := q' - p;
      assert (t - 1) * capacity == t * capacity - capacity;
      assert count * (q' - p) == count * q' - count * p;
    }
  }

  lemma PlaceAfter(cursor: nat, capacity: nat, count: nat, row: nat, t: nat)
    requires row < count
    ensures Place(CursorAfter(cursor, capacity, count, t), row, count) == (row - cursor - t * capacity) % count
  {
    hide Place, CursorAfter;
    var at := CursorAfter(cursor, capacity, count, t);
    var q := CursorSteps(cursor, capacity, count, t);
    PlaceIsRemainder(at, row, count);
    SameRemainder(row - cursor - t * capacity, row - at, count, q);
  }

  // The drains come near enough to a row exactly when its distance from the cursor is, modulo the
  // divisor that capacity and row count share; then within the cycle of the cursor.
  lemma ReachedExactly(cursor: nat, capacity: nat, count: nat, limit: nat, row: nat, n: nat)
    requires row < count && n >= count / Gcd(capacity, count)
    ensures (exists t: nat :: t < n && Place(CursorAfter(cursor, capacity, count, t), row, count) < limit)
            <==> (row - cursor) % Gcd(capacity, count) < limit
  {
    hide Place, CursorAfter, Gcd;
    var d := row - cursor;
    if t: nat :| t < n && Place(CursorAfter(cursor, capacity, count, t), row, count) < limit {
      PlaceAfter(cursor, capacity, count, row, t);
      StepsBelow(d, capacity, count, t);
    }
    var t := StepsReach(d, capacity, count);
    PlaceAfter(cursor, capacity, count, row, t);
  }

  /** In every table, from every cursor and for every amount of room: a gauge that keeps differing is sure to
  be emitted if and only if its distance from the cursor, modulo gcd(capacity, count), is below the room. The
  cycle of count / gcd(capacity, count) drains then suffices; if not, no number of drains does. */
  lemma GaugeServedExactly(n: nat, previous: seq<Values>, kinds: seq<bool>, cursor: nat, count: nat, capacity: nat,
                           limit: nat, row: nat)
    requires kinds != [] && row < count <= |previous| && IsGauge(kinds, row)
    requires n >= count / Gcd(capacity, count)
    ensures EmittedWithin(n, previous, kinds, cursor, count, capacity, limit, row)
            <==> (row - cursor) % Gcd(capacity, count) < limit
  {
    hide EmittedWithin, Place, CursorAfter, Gcd;
    EmittedExactly(n, previous, kinds, cursor, count, capacity, limit, row);
    ReachedExactly(cursor, capacity, count, limit, row, n);
  }

  /** So in any table that holds a gauge: no gauge can starve, wherever the cursor stands, if and only if the room
  is at least gcd(capacity, count). */
  lemma NoneStarvesExactly(n: nat, previous: seq<Values>, kinds: seq<bool>, count: nat, capacity: nat, limit: nat,
                           row: nat)
    requires kinds != [] && row < count <= |previous| && IsGauge(kinds, row)
    requires n >= count / Gcd(capacity, count)
    ensures (forall cursor: nat, r: nat :: r < count && IsGauge(kinds, r) ==>
               EmittedWithin(n, previous, kinds, cursor, count, capacity, limit, r))
            <==> Gcd(capacity, count) <= limit
  {
    hide EmittedWithin, Gcd, IsGauge;
    var g := Gcd(capacity, count);
    forall cursor: nat, r: nat | r < count && IsGauge(kinds, r)
      ensures EmittedWithin(n, previous, kinds, cursor, count, capacity, limit, r) <==> (r - cursor) % g < limit
    {
      GaugeServedExactly(n, previous, kinds, cursor, count, capacity, limit, r);
    }
    var passed := row + 1;
    Reached(row - passed, g - 1, g, -1);
    assert EmittedWithin(n, previous, kinds, passed, count, capacity, limit, row) <==> g - 1 < limit;
  }

  /** A table that has had the same rows from the start comes to fewer cursors: there a gauge cannot starve, at
  any time, if and only if its own position modulo gcd(capacity, count) is below the room. */
  lemma SameRowsServedExactly(n: nat, previous: seq<Values>, kinds: seq<bool>, count: nat, capacity: nat, limit: nat,
                              row: nat, t: nat)
    requires kinds != [] && row < count <= |previous| && IsGauge(kinds, row)
    requires n >= count / Gcd(capacity, count)
    ensures EmittedWithin(n, previous, kinds, CursorAfter(0, capacity, count, t), count, capacity, limit, row)
            <==> row % Gcd(capacity, count) < limit
  {
    hide EmittedWithin, Gcd, IsGauge, CursorAfter;
    var g, cursor := Gcd(capacity, count), CursorAfter(0, capacity, count, t);
    GaugeServedExactly(n, previous, kinds, cursor, count, capacity, limit, row);
    var q := CursorSteps(0, capacity, count, t);
    var k, l := GcdDivides(capacity, count);
    CursorResidue(row, cursor, t, capacity, count, q, k, l, g);
    SameRemainder(row, row - cursor, g, t * k + l * q);
  }

  lemma CursorResidue(row: int, cursor: int, t: int, capacity: int, count: int, q: int, k: int, l: int, g: int)
    requires cursor == t * capacity + count * q && capacity == k * g && count == l * g
    ensures row == row - cursor + g * (t * k + l * q)
  {
    assert t * capacity == g * (t * k);
    assert count * q == g * (l * q);
    assert g * (t * k) + g * (l * q) == g * (t * k + l * q);
  }

  // With room for a full capacity that takes at most as many drains as it takes to cover all rows.
  lemma EmittedWithinOneRound(previous: seq<Values>, kinds: seq<bool>, cursor: nat, count: nat, capacity: nat, row: nat)
    requires kinds != [] && row < count <= |previous| && IsGauge(kinds, row) && capacity > 0
    ensures EmittedWithin((count + capacity - 1) / capacity, previous, kinds, cursor, count, capacity, capacity, row)
  {
    hide EmittedWithin, Place, CursorAfter;
    var n := (count + capacity - 1) / capacity;
    var t, e := Divided(Place(cursor, row, count), capacity);
    PlaceIsRemainder(cursor, row, count);
    PlaceAfter(cursor, capacity, count, row, t);
    var q, _ := Divided(row - cursor, count);
    assert row - cursor - t * capacity == e + count * q;
    var m, r := Divided(count + capacity - 1, capacity);
    RoundLength(count, capacity, t, e, m, r);
    SmallPlace(row - cursor - t * capacity, e, count, q, capacity);
    EmittedExactly(n, previous, kinds, cursor, count, capacity, capacity, row);
  }

  lemma SmallPlace(v: int, e: nat, count: nat, q: int, capacity: nat)
    requires count > 0 && v == e + count * q && e < capacity && e < count
    ensures v % count < capacity
  {
    Reached(v, e, count, q);
  }

  lemma RoundLength(count: nat, capacity: nat, t: nat, e: nat, m: int, r: int)
    requires 0 < capacity && capacity * t + e < count && e >= 0
    requires count + capacity - 1 == capacity * m + r && 0 <= r < capacity
    ensures t < m && e < count
  {
    assert capacity * t >= 0;
    MultiplesGrow(capacity, t - m);
    assert capacity * (t - m) == capacity * t - capacity * m;
  }

  /** With less room than that a row can be skipped for ever: two gauges and a capacity of two, of which the
  drain has room for one. */
  lemma SmallOutputStarves(n: nat, previous: seq<Values>)
    requires |previous| == 2
    ensures !EmittedWithin(n, previous, [false, true], 0, 2, 2, 1, 1)
  {
    hide EmittedWithin, Place;
    assert IsGauge([false, true], 1);
    assert Gcd(2, 2) == 2;
    if n >= 1 {
      GaugeServedExactly(n, previous, [false, true], 0, 2, 2, 1, 1);
    } else {
      EmittedExactly(n, previous, [false, true], 0, 2, 2, 1, 1);
    }
  }

  // ---------------------------------------------------------------- runs of the table object

  // The samples of each drain of a run.
  function Outs(readings: seq<seq<Values>>, previous: seq<Values>, kinds: seq<bool>, cursor: nat, count: nat,
                capacity: nat, limit: nat): (outs: seq<seq<Sample>>)
    requires kinds != [] && 0 < count <= |previous|
    requires forall t :: 0 <= t < |readings| ==> |readings[t]| == |previous|
    ensures |outs| == |readings|
    decreases |readings|
  {
    if readings == [] then []
    else
      var d := DrainOnce(readings[0], previous, kinds, cursor, count, limit);
      [d.out] + Outs(readings[1..], d.previous, kinds, (cursor + capacity) % count, count, capacity, limit)
  }

  // Some drain of the run emits the row's value.
  ghost predicate Shown(outs: seq<seq<Sample>>, readings: seq<seq<Values>>, row: nat)
    requires |outs| == |readings| && forall t :: 0 <= t < |readings| ==> row < |readings[t]|
  {
    exists t :: 0 <= t < |outs| && Sample(row, readings[t][row], true) in outs[t]
  }

  lemma {:induction false} EmittedIsShown(readings: seq<seq<Values>>, previous: seq<Values>, kinds: seq<bool>,
                                          cursor: nat, count: nat, capacity: nat, limit: nat, row: nat)
    requires kinds != [] && row < count <= |previous| && IsGauge(kinds, row)
    requires forall t :: 0 <= t < |readings| ==> |readings[t]| == |previous|
    requires EmittedIn(readings, previous, kinds, cursor, count, capacity, limit, row)
    ensures Shown(Outs(readings, previous, kinds, cursor, count, capacity, limit), readings, row)
    decreases |readings|
  {
    hide DrainOnce;
    var outs := Outs(readings, previous, kinds, cursor, count, capacity, limit);
    var d := DrainOnce(readings[0], previous, kinds, cursor, count, limit);
    assert outs[0] == d.out;
    if SampleOf(Begin(readings[0], previous), kinds, row) !in d.out {
      var next := (cursor + capacity) % count;
      EmittedIsShown(readings[1..], d.previous, kinds, next, count, capacity, limit, row);
      var rest := Outs(readings[1..], d.previous, kinds, next, count, capacity, limit);
      var t :| 0 <= t < |rest| && Sample(row, readings[1..][t][row], true) in rest[t];
      assert outs[t + 1] == rest[t] && readings[t + 1] == readings[1..][t];
    }
  }

  // A gauge that keeps differing and is near enough to the cursor, in a run that is long enough.
  ghost predicate Sure(readings: seq<seq<Values>>, previous: seq<Values>, kinds: seq<bool>, cursor: nat, count: nat,
                       capacity: nat, limit: nat, row: nat)
    requires kinds != [] && count <= |previous|
  {
    && row < count && IsGauge(kinds, row) && Differs(readings, previous, row)
    && |readings| >= count / Gcd(capacity, count)
    && (row - cursor) % Gcd(capacity, count) < limit
  }

  lemma SureRowsAreShown(readings: seq<seq<Values>>, previous: seq<Values>, kinds: seq<bool>, cursor: nat, count: nat,
                         capacity: nat, limit: nat, row: nat)
    requires kinds != [] && 0 < count <= |previous|
    requires forall t :: 0 <= t < |readings| ==> |readings[t]| == |previous|
    requires Sure(readings, previous, kinds, cursor, count, capacity, limit, row)
    ensures Shown(Outs(readings, previous, kinds, cursor, count, capacity, limit), readings, row)
  {
    hide EmittedIn, Gcd, Shown;
    GaugeServedExactly(|readings|, previous, kinds, cursor, count, capacity, limit, row);
    EmittedIsShown(readings, previous, kinds, cursor, count, capacity, limit, row);
  }

  lemma OneDrainMore(outs: seq<seq<Sample>>, readings: seq<seq<Values>>, k: nat, previous: seq<Values>,
                     kinds: seq<bool>, cursor: nat, count: nat, capacity: nat, limit: nat)
    requires kinds != [] && 0 < count <= |previous| && k < |readings|
    requires forall t :: 0 <= t < |readings| ==> |readings[t]| == |previous|
    ensures var d := DrainOnce(readings[k], previous, kinds, cursor, count, limit);
            outs + Outs(readings[k..], previous, kinds, cursor, count, capacity, limit)
            == outs + [d.out]
               + Outs(readings[k + 1..], d.previous, kinds, (cursor + capacity) % count, count, capacity, limit)
  {
    hide DrainOnce;
    assert readings[k..][0] == readings[k] && readings[k..][1..] == readings[k + 1..];
  }

  /** Drains the table once for each reading, other threads having brought the counters there. Every gauge that is
  sure to be emitted is among the samples. */
  method DrainAll(table: ImageSeriesTable, outSize: nat, count: nat, readings: seq<seq<Values>>)
    returns (outs: seq<seq<Sample>>)
    requires table.Valid() && count <= table.counters.Length
    requires forall t :: 0 <= t < |readings| ==> |readings[t]| == table.counters.Length
    modifies table`cursor, table`overflow, table.counters, table.previous
    ensures |outs| == |readings|
    ensures table.draining && outSize != 0 && count > 0 ==>
              outs == Outs(readings, old(table.previous[..]), table.kinds, old(table.cursor), count, table.capacity,
                           Min(outSize, table.capacity))
    ensures table.draining && outSize != 0 ==>
              forall row: nat ::
                Sure(readings, old(table.previous[..]), table.kinds, old(table.cursor), count, table.capacity,
                     Min(outSize, table.capacity), row)
                ==> row < count && Shown(outs, readings, row)
  {
    hide DrainOnce, Outs, Gcd, Shown, Differs, IsGauge;
    var kinds, capacity := table.kinds, table.capacity;
    ghost var previous, cursor, limit := table.previous[..], table.cursor, Min(outSize, capacity);
    ghost var run := table.draining && outSize != 0 && count > 0;
    outs := [];
    ghost var all := if run then Outs(readings, previous, kinds, cursor, count, capacity, limit) else [];
    assert readings[0..] == readings && [] + all == all;
    for k := 0 to |readings|
      invariant table.Valid() && |outs| == k
      invariant run ==>
                  all == outs + Outs(readings[k..], table.previous[..], kinds, table.cursor, count, capacity, limit)
    {
      ghost var p, c := table.previous[..], table.cursor;
      SetCounters(table, readings[k]);
      var out := table.Drain(outSize, count);
      if run {
        OneDrainMore(outs, readings, k, p, kinds, c, count, capacity, limit);
      }
      outs := outs + [out];
    }
    if run {
      NoDrainsMore(outs, readings, table.previous[..], kinds, table.cursor, count, capacity, limit);
      forall row: nat | Sure(readings, previous, kinds, cursor, count, capacity, limit, row)
        ensures Shown(outs, readings, row)
      {
        SureRowsAreShown(readings, previous, kinds, cursor, count, capacity, limit, row);
      }
    }
  }

  lemma NoDrainsMore(outs: seq<seq<Sample>>, readings: seq<seq<Values>>, previous: seq<Values>, kinds: seq<bool>,
                     cursor: nat, count: nat, capacity: nat, limit: nat)
    requires kinds != [] && 0 < count <= |previous|
    ensures outs + Outs(readings[|readings|..], previous, kinds, cursor, count, capacity, limit) == outs
  {}

  // What the threads that record have counted by the time of a drain.
  method SetCounters(table: ImageSeriesTable, now: seq<Values>)
    requires |now| == table.counters.Length && table.counters != table.previous
    modifies table.counters
    ensures table.counters[..] == now
  {
    forall r | 0 <= r < table.counters.Length {
      table.counters[r] := now[r];
    }
  }
}
