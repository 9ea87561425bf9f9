/** Draining the table of per-image telemetry rows.

Row r belongs to image r / kinds and kind r % kinds. Counters are added to between drains by other
threads; one drain sees one value of each counter.
*/
module ImageSeries {
  import opened Modulo

  datatype Values = Values(calls: nat, ticks: nat, bytes: nat)

  const ZERO := Values(0, 0, 0)

  datatype Sample = Sample(row: nat, values: Values, gauge: bool)

  // What a drain works on: counters, last emitted gauges, samples so far, rows that did not fit.
  datatype Scan = Scan(counters: seq<Values>, previous: seq<Values>, out: seq<Sample>, overflow: nat)

  predicate IsGauge(kinds: seq<bool>, row: nat)
    requires kinds != []
  {
    kinds[row % |kinds|]
  }

  // A gauge is due when it differs from what was last emitted, a counter when it is not zero.
  predicate Due(now: Values, before: Values, gauge: bool) {
    if gauge then now != before else now != ZERO
  }

  ghost predicate Fits(s: Scan, count: nat) {
    |s.counters| == |s.previous| && count <= |s.counters|
  }

  // One row: a counter is taken even when it no longer fits, a gauge is left for later.
  function Visit(s: Scan, kinds: seq<bool>, row: nat, limit: nat): (t: Scan)
    requires kinds != [] && row < |s.counters| == |s.previous|
    ensures |t.counters| == |s.counters| && |t.previous| == |s.previous|
  {
    var gauge, now := IsGauge(kinds, row), s.counters[row];
    var counters := if gauge then s.counters else s.counters[row := ZERO];
    if !Due(now, s.previous[row], gauge) then s.(counters := counters)
    else if |s.out| >= limit then s.(counters := counters, overflow := s.overflow + 1)
    else
      Scan(counters, if gauge then s.previous[row := now] else s.previous,
           s.out + [Sample(row, now, gauge)], s.overflow)
  }

  // The row that a scan comes to after j others.
  function At(cursor: nat, j: nat, count: nat): (row: nat)
    requires count > 0
    ensures row < count
  {
    (cursor + j) % count
  }

  // When a scan comes to a row.
  function Place(cursor: nat, row: nat, count: nat): (j: nat)
    requires row < count
    ensures j < count
  {
    if cursor % count <= row then row - cursor % count else row + count - cursor % count
  }

  // A scan comes to each row once.
  lemma PlaceAt(cursor: nat, j: nat, count: nat)
    requires j < count
    ensures Place(cursor, At(cursor, j, count), count) == j
  {
    Stepped(cursor, j, count);
  }

  lemma AtPlace(cursor: nat, row: nat, count: nat)
    requires row < count
    ensures At(cursor, Place(cursor, row, count), count) == row
  {
    Stepped(cursor, Place(cursor, row, count), count);
  }

  // The first i rows from the cursor on.
  function ScanTo(s: Scan, kinds: seq<bool>, cursor: nat, count: nat, limit: nat, i: nat): (t: Scan)
    requires kinds != [] && Fits(s, count) && i <= count
    ensures |t.counters| == |s.counters| && |t.previous| == |s.previous|
  {
    if i == 0 then s
    else Visit(ScanTo(s, kinds, cursor, count, limit, i - 1), kinds, At(cursor, i - 1, count), limit)
  }

  // The due rows in the order of the scan.
  function DueRows(s: Scan, kinds: seq<bool>, cursor: nat, count: nat, i: nat): (rows: seq<nat>)
    requires kinds != [] && Fits(s, count) && i <= count
    ensures |rows| <= i && forall k :: 0 <= k < |rows| ==> rows[k] < count
  {
    if i == 0 then []
    else
      var row := At(cursor, i - 1, count);
      DueRows(s, kinds, cursor, count, i - 1)
      + if Due(s.counters[row], s.previous[row], IsGauge(kinds, row)) then [row] else []
  }

  function Min(a: nat, b: nat): nat { if a < b then a else b }

  function SampleOf(s: Scan, kinds: seq<bool>, row: nat): Sample
    requires kinds != [] && row < |s.counters|
  {
    Sample(row, s.counters[row], IsGauge(kinds, row))
  }

  function SamplesOf(s: Scan, kinds: seq<bool>, rows: seq<nat>): (r: seq<Sample>)
    requires kinds != [] && forall i :: 0 <= i < |rows| ==> rows[i] < |s.counters|
    ensures |r| == |rows| && forall i :: 0 <= i < |rows| ==> r[i] == SampleOf(s, kinds, rows[i])
  {
    seq(|rows|, i requires 0 <= i < |rows| => SampleOf(s, kinds, rows[i]))
  }

  // ---------------------------------------------------------------- what a scan does

  // A row that the scan has not come to is as it was.
  lemma {:induction false} NotYetVisited(s: Scan, kinds: seq<bool>, cursor: nat, count: nat, limit: nat, i: nat, j: nat)
    requires kinds != [] && Fits(s, count) && i <= j < count
    ensures var t, row := ScanTo(s, kinds, cursor, count, limit, i), At(cursor, j, count);
            t.counters[row] == s.counters[row] && t.previous[row] == s.previous[row]
  {
    if i > 0 {
      NotYetVisited(s, kinds, cursor, count, limit, i - 1, j);
      PlaceAt(cursor, i - 1, count);
      PlaceAt(cursor, j, count);
    }
  }

  // The due rows split into the first `limit`, which are emitted, and the rest, which are counted.
  lemma {:induction false} ScanEmits(s: Scan, kinds: seq<bool>, cursor: nat, count: nat, limit: nat, i: nat)
    requires kinds != [] && Fits(s, count) && i <= count && s.out == []
    ensures var t, due := ScanTo(s, kinds, cursor, count, limit, i), DueRows(s, kinds, cursor, count, i);
            && t.out == SamplesOf(s, kinds, due[..Min(limit, |due|)])
            && t.overflow == s.overflow + |due| - Min(limit, |due|)
  {
    hide Visit, At, Due, Min, SamplesOf;
    if i == 0 {
      NoSamples(s, kinds, limit);
    } else {
      var row := At(cursor, i - 1, count);
      var t, due := ScanTo(s, kinds, cursor, count, limit, i - 1), DueRows(s, kinds, cursor, count, i - 1);
      ScanEmits(s, kinds, cursor, count, limit, i - 1);
      NotYetVisited(s, kinds, cursor, count, limit, i - 1, i - 1);
      VisitAdds(t, kinds, row, limit);
      FirstOfMore(due, row, limit);
      MoreSamples(s, kinds, due[..Min(limit, |due|)], row);
      assert |t.out| == Min(limit, |due|);
    }
  }

  lemma NoSamples(s: Scan, kinds: seq<bool>, limit: nat)
    requires kinds != []
    ensures Min(limit, 0) == 0 && SamplesOf(s, kinds, []) == []
  {}

  lemma VisitAdds(s: Scan, kinds: seq<bool>, row: nat, limit: nat)
    requires kinds != [] && row < |s.counters| == |s.previous|
    ensures var t, due := Visit(s, kinds, row, limit), Due(s.counters[row], s.previous[row], IsGauge(kinds, row));
            && t.out == s.out + (if due && |s.out| < limit then [SampleOf(s, kinds, row)] else [])
            && t.overflow == s.overflow + if due && |s.out| >= limit then 1 else 0
  {}

  lemma FirstOfMore(due: seq<nat>, row: nat, limit: nat)
    ensures Min(limit, |due + [row]|) == if |due| < limit then Min(limit, |due|) + 1 else Min(limit, |due|)
    ensures Min(limit, |due|) <= |due| && (Min(limit, |due|) < limit <==> |due| < limit)
    ensures (due + [row])[..Min(limit, |due + [row]|)] == due[..Min(limit, |due|)] + if |due| < limit then [row] else []
  {}

  lemma MoreSamples(s: Scan, kinds: seq<bool>, rows: seq<nat>, row: nat)
    requires kinds != [] && row < |s.counters| && forall i :: 0 <= i < |rows| ==> rows[i] < |s.counters|
    ensures SamplesOf(s, kinds, rows + [row]) == SamplesOf(s, kinds, rows) + [SampleOf(s, kinds, row)]
  {}

  // Afterwards a gauge's last emitted value is new if it was emitted and as before if it was not;
  // counters have been taken, gauges left alone.
  lemma {:induction false} ScanRemembers(s: Scan, kinds: seq<bool>, cursor: nat, count: nat, limit: nat, i: nat,
                                         row: nat)
    requires kinds != [] && Fits(s, count) && i <= count && s.out == [] && row < count
    ensures var t := ScanTo(s, kinds, cursor, count, limit, i);
            && (IsGauge(kinds, row) ==>
                  && t.counters[row] == s.counters[row]
                  && t.previous[row] == if SampleOf(s, kinds, row) in t.out then s.counters[row] else s.previous[row])
            && (!IsGauge(kinds, row) ==>
                  && t.previous[row] == s.previous[row]
                  && t.counters[row] == if Place(cursor, row, count) < i then ZERO else s.counters[row])
  {
    hide Visit, At, Place, Due, IsGauge;
    if i > 0 {
      var at := At(cursor, i - 1, count);
      ScanRemembers(s, kinds, cursor, count, limit, i - 1, row);
      NotYetVisited(s, kinds, cursor, count, limit, i - 1, i - 1);
      PlaceAt(cursor, i - 1, count);
      AtPlace(cursor, row, count);
      var t := ScanTo(s, kinds, cursor, count, limit, i - 1);
      VisitEffect(t, kinds, at, limit, row);
    }
  }

  lemma VisitEffect(s: Scan, kinds: seq<bool>, at: nat, limit: nat, row: nat)
    requires kinds != [] && at < |s.counters| == |s.previous| && row < |s.counters|
    ensures var t := Visit(s, kinds, at, limit);
            && (row != at ==> t.counters[row] == s.counters[row] && t.previous[row] == s.previous[row])
            && (row != at ==> (SampleOf(s, kinds, row) in t.out <==> SampleOf(s, kinds, row) in s.out))
            && (row == at && !IsGauge(kinds, row) ==> t.counters[row] == ZERO && t.previous[row] == s.previous[row])
            && (row == at && IsGauge(kinds, row) ==>
                  && t.counters[row] == s.counters[row]
                  && (t.previous[row] == s.previous[row] || t.previous[row] == s.counters[row])
                  && (SampleOf(s, kinds, row) in s.out ==> SampleOf(s, kinds, row) in t.out)
                  && (SampleOf(s, kinds, row) !in s.out ==>
                        t.previous[row]
                        == if SampleOf(s, kinds, row) in t.out then s.counters[row] else s.previous[row]))
  {}

  // ---------------------------------------------------------------- which rows are emitted

  // There is something new to say of a row.
  predicate Changed(s: Scan, kinds: seq<bool>, row: nat)
    requires kinds != [] && row < |s.counters| == |s.previous|
  {
    if kinds[row % |kinds|] then s.counters[row] != s.previous[row]
    else s.counters[row].calls != 0 || s.counters[row].ticks != 0 || s.counters[row].bytes != 0
  }

  // How many rows with something new are among the first j of the scan.
  function Ahead(s: Scan, kinds: seq<bool>, cursor: nat, count: nat, j: nat): nat
    requires kinds != [] && Fits(s, count) && j <= count
  {
    if j == 0 then 0
    else Ahead(s, kinds, cursor, count, j - 1) + if Changed(s, kinds, At(cursor, j - 1, count)) then 1 else 0
  }

  lemma {:induction false} DueIndex(s: Scan, kinds: seq<bool>, cursor: nat, count: nat, i: nat)
    requires kinds != [] && Fits(s, count) && i <= count
    ensures |DueRows(s, kinds, cursor, count, i)| == Ahead(s, kinds, cursor, count, i)
    ensures forall k :: 0 <= k < |DueRows(s, kinds, cursor, count, i)| ==>
              var row := DueRows(s, kinds, cursor, count, i)[k];
              var j := Place(cursor, row, count);
              j < i && Changed(s, kinds, row) && Ahead(s, kinds, cursor, count, j) == k
    ensures forall row :: 0 <= row < count && Place(cursor, row, count) < i && Changed(s, kinds, row) ==>
              var k := Ahead(s, kinds, cursor, count, Place(cursor, row, count));
              k < |DueRows(s, kinds, cursor, count, i)| && DueRows(s, kinds, cursor, count, i)[k] == row
  {
    if i > 0 {
      DueIndex(s, kinds, cursor, count, i - 1);
      PlaceAt(cursor, i - 1, count);
      hide At, Place;
      forall row | 0 <= row < count && Place(cursor, row, count) < i && Changed(s, kinds, row)
        ensures var k := Ahead(s, kinds, cursor, count, Place(cursor, row, count));
                k < |DueRows(s, kinds, cursor, count, i)| && DueRows(s, kinds, cursor, count, i)[k] == row
      {
        AtPlace(cursor, row, count);
      }
    }
  }

  /** A scan over all rows emits a row if and only if there is something new to say of it and fewer such rows than the
  limit come before it; it emits no row twice, each with its values; and it counts those it had no room for. */
  lemma RowEmittedExactly(s: Scan, kinds: seq<bool>, cursor: nat, count: nat, limit: nat, row: nat)
    requires kinds != [] && Fits(s, count) && s.out == [] && row < count
    ensures var t, all := ScanTo(s, kinds, cursor, count, limit, count), Ahead(s, kinds, cursor, count, count);
            && (SampleOf(s, kinds, row) in t.out <==>
                  Changed(s, kinds, row) && Ahead(s, kinds, cursor, count, Place(cursor, row, count)) < limit)
            && (forall i :: 0 <= i < |t.out| ==>
                  t.out[i].row < count && t.out[i] == Sample(t.out[i].row, s.counters[t.out[i].row], t.out[i].gauge))
            && (forall i, j :: 0 <= i < j < |t.out| ==> t.out[i].row != t.out[j].row)
            && |t.out| == Min(limit, all) && t.overflow == s.overflow + all - Min(limit, all)
  {
    hide ScanTo, DueRows, Ahead, Place, At;
    var t := ScanTo(s, kinds, cursor, count, limit, count);
    var due := DueRows(s, kinds, cursor, count, count);
    ScanEmits(s, kinds, cursor, count, limit, count);
    DueIndex(s, kinds, cursor, count, count);
    var shown := due[..Min(limit, |due|)];
    assert forall k :: 0 <= k < |shown| ==> shown[k] == due[k];
    if SampleOf(s, kinds, row) in t.out {
      var k :| 0 <= k < |t.out| && t.out[k] == SampleOf(s, kinds, row);
      assert due[k] == row;
    }
    if Changed(s, kinds, row) && Ahead(s, kinds, cursor, count, Place(cursor, row, count)) < limit {
      assert t.out[Ahead(s, kinds, cursor, count, Place(cursor, row, count))] == SampleOf(s, kinds, row);
    }
  }

  // ---------------------------------------------------------------- one drain and one row

  lemma {:induction false} DuePrefix(s: Scan, kinds: seq<bool>, cursor: nat, count: nat, i: nat, j: nat)
    requires kinds != [] && Fits(s, count) && i <= j <= count
    ensures DueRows(s, kinds, cursor, count, i) <= DueRows(s, kinds, cursor, count, j)
    decreases j - i
  {
    if i < j {
      DuePrefix(s, kinds, cursor, count, i, j - 1);
    }
  }

  // A due row among the first `limit` from the cursor on is emitted, whatever the others do.
  lemma DueRowEmitted(s: Scan, kinds: seq<bool>, cursor: nat, count: nat, limit: nat, row: nat)
    requires kinds != [] && Fits(s, count) && s.out == [] && row < count
    requires Place(cursor, row, count) < limit && Due(s.counters[row], s.previous[row], IsGauge(kinds, row))
    ensures SampleOf(s, kinds, row) in ScanTo(s, kinds, cursor, count, limit, count).out
  {
    var j := Place(cursor, row, count);
    var due, all := DueRows(s, kinds, cursor, count, j), DueRows(s, kinds, cursor, count, count);
    AtPlace(cursor, row, count);
    assert DueRows(s, kinds, cursor, count, j + 1) == due + [row];
    DuePrefix(s, kinds, cursor, count, j + 1, count);
    ScanEmits(s, kinds, cursor, count, limit, count);
    assert all[|due|] == row && |due| < Min(limit, |all|);
    assert all[..Min(limit, |all|)][|due|] == row;
    assert SamplesOf(s, kinds, all[..Min(limit, |all|)])[|due|] == SampleOf(s, kinds, row);
  }

  function Begin(now: seq<Values>, previous: seq<Values>): Scan {
    Scan(now, previous, [], 0)
  }

  // The samples of one drain and what it remembers.
  function DrainOnce(now: seq<Values>, previous: seq<Values>, kinds: seq<bool>, cursor: nat, count: nat,
                     limit: nat): (t: Scan)
    requires kinds != [] && |now| == |previous| >= count
    ensures |t.previous| == |previous|
  {
    ScanTo(Begin(now, previous), kinds, cursor, count, limit, count)
  }

  // ---------------------------------------------------------------- the table object

  class ImageSeriesTable {
    const kinds: seq<bool>  // for each kind: is it a gauge?
    const capacity: nat
    const counters: array<Values>
    const previous: array<Values>
    var cursor: nat
    var overflow: nat
    var draining: bool

    ghost predicate Valid()
      reads this
    {
      kinds != [] && counters.Length == previous.Length && counters != previous
    }

    constructor (kinds: seq<bool>, capacity: nat, images: nat)
      requires kinds != []
      ensures Valid() && fresh(counters) && fresh(previous) && !draining && cursor == 0 && overflow == 0
      ensures this.kinds == kinds && this.capacity == Min(capacity, 1024) && counters.Length == images * |kinds|
      ensures forall r :: 0 <= r < counters.Length ==> counters[r] == ZERO == previous[r]
    {
      this.kinds, this.capacity := kinds, Min(capacity, 1024);
      counters := new Values[images * |kinds|](_ => ZERO);
      previous := new Values[images * |kinds|](_ => ZERO);
      cursor, overflow, draining := 0, 0, false;
    }

    // Drains `count` rows into room for outSize samples.
    method Drain(outSize: nat, count: nat) returns (out: seq<Sample>)
      requires Valid() && count <= counters.Length
      modifies this`cursor, this`overflow, counters, previous
      ensures !draining || outSize == 0 ==>
                out == [] && cursor == old(cursor) && overflow == old(overflow)
                && counters[..] == old(counters[..]) && previous[..] == old(previous[..])
      ensures draining && outSize != 0 ==>
                var d := DrainOnce(old(counters[..]), old(previous[..]), kinds, old(cursor), count,
                                   Min(outSize, capacity));
                && out == d.out && counters[..] == d.counters && previous[..] == d.previous
                && overflow == old(overflow) + d.overflow
                && cursor == if count == 0 then old(cursor) else (old(cursor) + capacity) % count
    {
      hide Visit, Due, ScanTo, At;
      out := [];
      if !draining || outSize == 0 {
        return;
      }
      var limit := Min(outSize, capacity);
      ghost var s, overflow0 := Begin(counters[..], previous[..]), overflow;
      ScanStart(s, kinds, cursor, count, limit);
      for index := 0 to count
        invariant cursor == old(cursor) && overflow >= overflow0
        invariant Scan(counters[..], previous[..], out, overflow - overflow0)
                    == ScanTo(s, kinds, cursor, count, limit, index)
      {
        var row := (cursor + index) % count;
        ghost var t := Scan(counters[..], previous[..], out, overflow - overflow0);
        ScanStep(s, kinds, cursor, count, limit, index, row);
        overflow, out := DrainRow(row, limit, out, overflow0);
      }
      if count != 0 {
        cursor := (cursor + capacity) % count;
      }
    }

    // The body of the drain loop.
    method DrainRow(row: nat, limit: nat, out0: seq<Sample>, ghost overflow0: nat) returns (over: nat, out: seq<Sample>)
      requires Valid() && row < counters.Length && overflow >= overflow0
      modifies counters, previous
      ensures over >= overflow0
      ensures Scan(counters[..], previous[..], out, over - overflow0)
           == Visit(Scan(old(counters[..]), old(previous[..]), out0, overflow - overflow0), kinds, row, limit)
    {
      hide Due;
      ghost var c0, p0 := counters[..], previous[..];
      ghost var t := Scan(c0, p0, out0, overflow - overflow0);
      VisitCases(t, kinds, row, limit);
      hide Visit;
      over, out := overflow, out0;
      var gauge, now := kinds[row % |kinds|], counters[row];
      if !gauge {
        counters[row] := ZERO;
        assert counters[..] == c0[row := ZERO];
      }
      if if gauge then now == previous[row] else now == ZERO {
        return;
      }
      if |out| >= limit {
        over := overflow + 1;
        return;
      }
      out := out + [Sample(row, now, gauge)];
      if gauge {
        previous[row] := now;
        assert previous[..] == p0[row := now];
      }
    }
  }

  lemma ScanStart(s: Scan, kinds: seq<bool>, cursor: nat, count: nat, limit: nat)
    requires kinds != [] && Fits(s, count)
    ensures ScanTo(s, kinds, cursor, count, limit, 0) == s
  {}

  lemma ScanStep(s: Scan, kinds: seq<bool>, cursor: nat, count: nat, limit: nat, i: nat, row: nat)
    requires kinds != [] && Fits(s, count) && i < count && row == (cursor + i) % count
    ensures row < count
    ensures ScanTo(s, kinds, cursor, count, limit, i + 1)
              == Visit(ScanTo(s, kinds, cursor, count, limit, i), kinds, row, limit)
  {}

  lemma VisitCases(s: Scan, kinds: seq<bool>, row: nat, limit: nat)
    requires kinds != [] && row < |s.counters| == |s.previous|
    ensures var t, gauge, now := Visit(s, kinds, row, limit), kinds[row % |kinds|], s.counters[row];
            && t.counters == (if gauge then s.counters else s.counters[row := ZERO])
            && ((gauge && now == s.previous[row]) || (!gauge && now == ZERO) ==>
                  t.previous == s.previous && t.out == s.out && t.overflow == s.overflow)
            && (!((gauge && now == s.previous[row]) || (!gauge && now == ZERO)) ==>
                  if |s.out| >= limit then t.previous == s.previous && t.out == s.out && t.overflow == s.overflow + 1
                  else t.previous == (if gauge then s.previous[row := now] else s.previous)
                       && t.out == s.out + [Sample(row, now, gauge)] && t.overflow == s.overflow)
  {}
}
