/** Many owned streams over their whole lives: initialised, used, copied onto one another and ended.

A stream is known by a number. Initialising a stream, or copying onto it, hangs a new state on it; a state that
was there before is dropped without being ended. `past` keeps the logs of all states that no stream owns any
more, in the order in which they went. */
module StreamLives {
  import opened OwnedInflate

  datatype World = World(owned: map<nat, Owned>, past: seq<seq<Event>>)

  // Calls that succeed; those that fail leave the streams alone.
  datatype Act =
    | On(id: nat, call: Call)
    | Init(id: nat, view: View, bits: int, checksum: nat)
    | CopyOnto(id: nat, source: nat)
    | Finish(id: nat)

  const NOTHING := World(map[], [])

  function Dropped(w: World, id: nat): seq<seq<Event>> {
    if id in w.owned then [w.owned[id].log] else []
  }

  function Do(cfg: Config, w: World, a: Act): World {
    match a
    case On(id, call) => if id in w.owned then w.(owned := w.owned[id := Step(cfg, w.owned[id], call).0]) else w
    case Init(id, view, bits, checksum) =>
      World(w.owned[id := Initialised(cfg, view, bits, checksum)], w.past + Dropped(w, id))
    case CopyOnto(id, source) =>
      if cfg.copy && source in w.owned
      then World(w.owned[id := Copied(w.owned[source])], w.past + Dropped(w, id)) else w
    case Finish(id) =>
      if id in w.owned then World(w.owned - {id}, w.past + [EndOf(cfg, w.owned[id]).log]) else w
  }

  function DoAll(cfg: Config, w: World, acts: seq<Act>): World
    decreases |acts|
  {
    if acts == [] then w else DoAll(cfg, Do(cfg, w, acts[0]), acts[1..])
  }

  // A state is displaced while its token is live.
  predicate Loses(cfg: Config, w: World, a: Act) {
    match a
    case Init(id, _, _, _) => id in w.owned && w.owned[id].token.Live?
    case CopyOnto(id, source) => cfg.copy && source in w.owned && id in w.owned && w.owned[id].token.Live?
    case _ => false
  }

  predicate NoneLost(cfg: Config, w: World, acts: seq<Act>)
    decreases |acts|
  {
    acts == [] || (!Loses(cfg, w, acts[0]) && NoneLost(cfg, Do(cfg, w, acts[0]), acts[1..]))
  }

  // ---------------------------------------------------------------- what it means that no token was lost

  // Where the lifetime that position n is in ends.
  function LifeEnd(log: seq<Event>, n: nat): (j: nat)
    requires n <= |log|
    ensures n <= j <= |log| && (j < |log| ==> log[j].Boundary?)
    ensures forall m :: n <= m < j ==> !log[m].Boundary?
    decreases |log| - n
  {
    if n == |log| || log[n].Boundary? then n else LifeEnd(log, n + 1)
  }

  ghost predicate EndedBefore(log: seq<Event>, i: nat, j: nat)
    requires i <= j <= |log|
  {
    exists k :: EndsOnlyAt(log, i, k, j)
  }

  // Every token admitted was ended once within its lifetime, with the time of its calls.
  ghost predicate Settled(log: seq<Event>) {
    forall i: nat :: i < |log| && log[i].Admitted? ==> EndedBefore(log, i, LifeEnd(log, i + 1))
  }

  lemma {:induction false} LastAdmission(log: seq<Event>) returns (i: nat)
    requires PhaseOf(log).Running?
    ensures i < |log| && log[i].Admitted?
    ensures forall m :: i < m < |log| ==> !log[m].Ended? && !log[m].Boundary?
    decreases |log|
  {
    i := |log| - 1;
    if !log[i].Admitted? {
      i := LastAdmission(log[..i]);
    }
  }

  lemma SettledAt(log: seq<Event>, i: nat) returns (k: nat)
    requires !PhaseOf(log).Broken? && !PhaseOf(log).Running? && i < |log| && log[i].Admitted?
    ensures EndsOnlyAt(log, i, k, LifeEnd(log, i + 1))
  {
    var j := LifeEnd(log, i + 1);
    k := SinceAdmission(log, i, j);
    if j < |log| {
      PhaseAt(log, j);
      PrefixSound(log, j + 1);
    } else {
      assert log[..j] == log;
    }
  }

  lemma SettledExactly(log: seq<Event>)
    requires !PhaseOf(log).Broken?
    ensures Settled(log) <==> !PhaseOf(log).Running?
  {
    hide EndsOnlyAt, LifeEnd;
    if PhaseOf(log).Running? {
      var i := LastAdmission(log);
      NotEnded(log, i, LifeEnd(log, i + 1));
    } else {
      forall i: nat | i < |log| && log[i].Admitted?
        ensures EndedBefore(log, i, LifeEnd(log, i + 1))
      {
        var k := SettledAt(log, i);
      }
    }
  }

  lemma NotEnded(log: seq<Event>, i: nat, j: nat)
    requires i <= j <= |log| && forall m :: i < m < |log| ==> !log[m].Ended?
    ensures !EndedBefore(log, i, j)
  {}

  // ---------------------------------------------------------------- whole runs of all streams

  ghost predicate WorldInv(cfg: Config, w: World) {
    forall id :: id in w.owned ==> Inv(cfg, w.owned[id])
  }

  ghost predicate AllSettled(logs: seq<seq<Event>>) {
    forall n :: 0 <= n < |logs| ==> Settled(logs[n])
  }

  lemma DropSettles(cfg: Config, w: World, id: nat)
    requires WorldInv(cfg, w)
    ensures AllSettled(w.past + Dropped(w, id))
            <==> AllSettled(w.past) && !(id in w.owned && w.owned[id].token.Live?)
  {
    hide Settled, PolicyInv, Named;
    if id in w.owned {
      var log := w.owned[id].log;
      assert Inv(cfg, w.owned[id]);
      SettledExactly(log);
      LastSettled(w.past, log);
    } else {
      assert w.past + [] == w.past;
    }
  }

  lemma LastSettled(logs: seq<seq<Event>>, log: seq<Event>)
    ensures AllSettled(logs + [log]) <==> AllSettled(logs) && Settled(log)
  {
    hide Settled;
    var more := logs + [log];
    assert more[|logs|] == log && forall n :: 0 <= n < |logs| ==> more[n] == logs[n];
  }

  lemma ActSettles(cfg: Config, w: World, a: Act)
    requires WorldInv(cfg, w)
    ensures WorldInv(cfg, Do(cfg, w, a))
    ensures AllSettled(Do(cfg, w, a).past) <==> AllSettled(w.past) && !Loses(cfg, w, a)
  {
    hide Inv, AllSettled, Step, Initialised, Copied, EndOf;
    match a
    case On(id, call) =>
      if id in w.owned {
        StepKeepsInv(cfg, w.owned[id], call);
      }
    case Init(id, view, bits, checksum) =>
      InitialisedInv(cfg, view, bits, checksum);
      DropSettles(cfg, w, id);
    case CopyOnto(id, source) =>
      if cfg.copy && source in w.owned {
        CopiedInv(cfg, w.owned[source]);
        DropSettles(cfg, w, id);
      }
    case Finish(id) =>
      if id in w.owned {
        EndInv(cfg, w.owned[id]);
        SettledExactly(EndOf(cfg, w.owned[id]).log);
        LastSettled(w.past, EndOf(cfg, w.owned[id]).log);
      }
  }

  lemma {:induction false} RunSettles(cfg: Config, w: World, acts: seq<Act>)
    requires WorldInv(cfg, w)
    ensures AllSettled(DoAll(cfg, w, acts).past) <==> AllSettled(w.past) && NoneLost(cfg, w, acts)
    decreases |acts|
  {
    hide WorldInv, AllSettled, Do, Loses;
    if acts != [] {
      ActSettles(cfg, w, acts[0]);
      RunSettles(cfg, Do(cfg, w, acts[0]), acts[1..]);
    }
  }

  /** For every run of any number of streams: of all states that were ended or displaced, every token was ended
  once in its lifetime, if and only if no stream was initialised again or copied onto while the state it owned
  held a live token. */
  lemma TokensSettledExactly(cfg: Config, acts: seq<Act>)
    ensures AllSettled(DoAll(cfg, NOTHING, acts).past) <==> NoneLost(cfg, NOTHING, acts)
  {
    RunSettles(cfg, NOTHING, acts);
  }

  // Nothing that a stream has logged is forgotten: it is in the log of the state it owns or in a past one. So
  // once every stream has ended, `past` tells of every token that was ever admitted.
  lemma {:induction false} NothingForgotten(cfg: Config, w: World, acts: seq<Act>, id: nat) returns (n: nat)
    requires id in w.owned
    ensures var v := DoAll(cfg, w, acts);
            && w.past <= v.past
            && ((|w.past| <= n < |v.past| && w.owned[id].log <= v.past[n])
                || (id in v.owned && w.owned[id].log <= v.owned[id].log))
    decreases |acts|
  {
    hide Do;
    n := |w.past|;
    if acts != [] {
      var next := Do(cfg, w, acts[0]);
      ActForgetsNothing(cfg, w, acts[0], id);
      PastGrows(cfg, next, acts[1..]);
      if id in next.owned && w.owned[id].log <= next.owned[id].log {
        n := NothingForgotten(cfg, next, acts[1..], id);
      }
    }
  }

  lemma {:induction false} PastGrows(cfg: Config, w: World, acts: seq<Act>)
    ensures w.past <= DoAll(cfg, w, acts).past
    decreases |acts|
  {
    if acts != [] {
      PastGrows(cfg, Do(cfg, w, acts[0]), acts[1..]);
    }
  }

  lemma ActForgetsNothing(cfg: Config, w: World, a: Act, id: nat)
    requires id in w.owned
    ensures var v := Do(cfg, w, a);
            && w.past <= v.past
            && ((|w.past| < |v.past| && w.owned[id].log <= v.past[|w.past|])
                || (id in v.owned && w.owned[id].log <= v.owned[id].log))
  {
    hide Step, Initialised, Copied;
    if a.On? && a.id == id {
      LogGrows(cfg, w.owned[id], a.call);
    }
  }

  // A stream that is initialised again after its first decompression call, and then ended: its first token is
  // never ended, although nothing is left.
  lemma InitLosesToken(cfg: Config, view: View, memory: nat -> Octet) returns (acts: seq<Act>)
    requires cfg.profiled && WellFormed(view, 0)
    ensures DoAll(cfg, NOTHING, acts).owned == map[] && !AllSettled(DoAll(cfg, NOTHING, acts).past)
  {
    var call := Inflate(0, memory, true, true, 0, 0, WholeResult(BadData, 0, 0, 1), view, INFLATE_OK);
    var init := Init(0, view, 15, 1);
    acts := [init, On(0, call), init, Finish(0)];
    var w1 := Do(cfg, NOTHING, init);
    var w2 := Do(cfg, w1, On(0, call));
    var w3 := Do(cfg, w2, init);
    assert w2.owned[0].token.Live?;
    assert Loses(cfg, w2, init);
    hide Do, Loses;
    assert acts[1..] == [On(0, call), init, Finish(0)];
    assert acts[1..][1..] == [init, Finish(0)] && [init, Finish(0)][1..] == [Finish(0)] && [Finish(0)][1..] == [];
    assert !NoneLost(cfg, w2, [init, Finish(0)]);
    assert !NoneLost(cfg, w1, acts[1..]);
    assert !NoneLost(cfg, NOTHING, acts);
    TokensSettledExactly(cfg, acts);
    OnlyOne(cfg, w2, view);
    assert DoAll(cfg, w2, [init, Finish(0)]) == Do(cfg, w3, Finish(0)) by {
      assert DoAll(cfg, w3, [Finish(0)]) == Do(cfg, w3, Finish(0));
    }
    assert DoAll(cfg, w1, acts[1..]) == DoAll(cfg, w2, [init, Finish(0)]);
  }

  lemma OnlyOne(cfg: Config, w: World, view: View)
    requires w.owned.Keys == {0}
    ensures Do(cfg, Do(cfg, w, Init(0, view, 15, 1)), Finish(0)).owned == map[]
  {}
}
