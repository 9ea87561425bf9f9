/** Whole runs on the stream objects themselves: several streams that are initialised, used, copied onto one
another and ended, in any order. */
module StreamRuns {
  import opened OwnedInflate
  import opened OwnedStream
  import opened StreamLives

  ghost function States(streams: seq<Stream>): set<object>
    reads streams
  {
    set s | s in streams && s.state != null :: s.state
  }

  // The streams own the states that the numbers are mapped to.
  ghost predicate Mirrors(cfg: Config, streams: seq<Stream>, owned: map<nat, Owned>)
    reads streams, States(streams)
  {
    && (forall i, j :: 0 <= i < j < |streams| ==> streams[i] != streams[j])
    && (forall i :: i in owned ==> i < |streams|)
    && (forall i :: 0 <= i < |streams| ==> MirrorsOne(cfg, streams[i], i, owned))
  }

  ghost predicate MirrorsOne(cfg: Config, stream: Stream, i: nat, owned: map<nat, Owned>)
    reads Held(stream)
  {
    && (i in owned <==> stream.state != null)
    && (i in owned ==> Find(cfg, stream) != null && Find(cfg, stream).Valid() && Find(cfg, stream).Value() == owned[i])
  }

  predicate InRange(a: Act, n: nat) {
    a.id < n && (a.CopyOnto? ==> a.source < n)
  }

  // What an act does: the streams own what the world says, and `gone` is the state that the stream of the act
  // no longer owns, its log being the one that the world puts among the past ones.
  twostate predicate Enacted(cfg: Config, streams: seq<Stream>, a: Act, w: World, new gone: seq<State>)
    requires InRange(a, |streams|)
    reads streams, States(streams), gone
  {
    var stream, v := streams[a.id], Do(cfg, w, a);
    && Mirrors(cfg, streams, v.owned)
    && fresh(States(streams) - old(States(streams)))
    && gone == (if old(stream.state) != null && stream.state != old(stream.state) then [old(stream.state)] else [])
    && (forall g :: g in gone ==> g !in States(streams))
    && |v.past| == |w.past| + |gone| && w.past <= v.past
    && (gone != [] ==> v.past[|w.past|] == gone[0].log)
  }

  method Use(cfg: Config, streams: seq<Stream>, a: Act, ghost w: World)
    requires a.On? && InRange(a, |streams|) && Mirrors(cfg, streams, w.owned)
    modifies streams, States(streams)
    ensures Enacted(cfg, streams, a, w, [])
  {
    hide Inv, Step, State.Valid;
    var stream := streams[a.id];
    assert MirrorsOne(cfg, stream, a.id, w.owned);
    if stream.state != null {
      var _ := Perform(cfg, stream, a.call);
    }
  }

  method Start(cfg: Config, streams: seq<Stream>, a: Act, ghost w: World) returns (ghost gone: seq<State>)
    requires a.Init? && InRange(a, |streams|) && Mirrors(cfg, streams, w.owned)
    modifies streams, States(streams)
    ensures Enacted(cfg, streams, a, w, gone) && forall g :: g in gone ==> g in old(States(streams))
  {
    hide Inv, Initialised, State.Valid;
    var stream := streams[a.id];
    assert MirrorsOne(cfg, stream, a.id, w.owned);
    gone := if stream.state != null then [stream.state] else [];
    stream.view := a.view;
    var _ := Init2(cfg, stream, a.bits, "1", STREAM_SIZE, true, INFLATE_OK, a.checksum);
  }

  method Duplicate(cfg: Config, streams: seq<Stream>, a: Act, ghost w: World) returns (ghost gone: seq<State>)
    requires a.CopyOnto? && InRange(a, |streams|) && Mirrors(cfg, streams, w.owned)
    modifies streams, States(streams)
    ensures Enacted(cfg, streams, a, w, gone) && forall g :: g in gone ==> g in old(States(streams))
  {
    hide Inv, Copied, State.Valid;
    var stream, source := streams[a.id], streams[a.source];
    assert MirrorsOne(cfg, stream, a.id, w.owned);
    assert MirrorsOne(cfg, source, a.source, w.owned);
    gone := if stream.state != null && cfg.copy && source.state != null then [stream.state] else [];
    var _ := Copy(cfg, stream, source, true, INFLATE_OK);
  }

  method Stop(cfg: Config, streams: seq<Stream>, a: Act, ghost w: World) returns (ghost gone: seq<State>)
    requires a.Finish? && InRange(a, |streams|) && Mirrors(cfg, streams, w.owned)
    modifies streams, States(streams)
    ensures Enacted(cfg, streams, a, w, gone) && forall g :: g in gone ==> g in old(States(streams))
  {
    hide Inv, EndOf, Settled;
    var stream := streams[a.id];
    assert MirrorsOne(cfg, stream, a.id, w.owned);
    gone := [];
    if stream.state != null {
      gone := [stream.state];
      var _ := End(cfg, stream, INFLATE_OK);
    }
  }

  // One act by its own method.
  method Enact(cfg: Config, streams: seq<Stream>, a: Act, ghost w: World) returns (ghost gone: seq<State>)
    requires InRange(a, |streams|) && Mirrors(cfg, streams, w.owned)
    modifies streams, States(streams)
    ensures Enacted(cfg, streams, a, w, gone) && forall g :: g in gone ==> g in old(States(streams))
  {
    hide Enacted, Mirrors;
    gone := [];
    match a
    case On(_, _) => Use(cfg, streams, a, w);
    case Init(_, _, _, _) => gone := Start(cfg, streams, a, w);
    case CopyOnto(_, _) => gone := Duplicate(cfg, streams, a, w);
    case Finish(_) => gone := Stop(cfg, streams, a, w);
  }

  lemma {:induction false} DoMore(cfg: Config, w: World, acts: seq<Act>, a: Act)
    ensures DoAll(cfg, w, acts + [a]) == Do(cfg, DoAll(cfg, w, acts), a)
    decreases |acts|
  {
    hide Do;
    if acts == [] {
      assert [a][1..] == [];
    } else {
      assert (acts + [a])[1..] == acts[1..] + [a];
      DoMore(cfg, Do(cfg, w, acts[0]), acts[1..], a);
    }
  }

  // The past logs are those of the states that are gone.
  ghost predicate LogsOf(past: seq<seq<Event>>, gone: seq<State>)
    reads gone
  {
    |past| == |gone| && forall n :: 0 <= n < |gone| ==> past[n] == gone[n].log
  }

  lemma LogsMore(past: seq<seq<Event>>, later: seq<seq<Event>>, gone: seq<State>, more: seq<State>)
    requires LogsOf(past, gone) && past <= later && |later| == |past| + |more| && |more| <= 1
    requires more != [] ==> later[|past|] == more[0].log
    ensures LogsOf(later, gone + more)
  {}

  // Every token of the states that are gone was ended once in its lifetime.
  ghost predicate GoneSettled(gone: seq<State>)
    reads gone
  {
    forall n :: 0 <= n < |gone| ==> Settled(gone[n].log)
  }

  /** Any acts on any number of streams do to the objects what `DoAll` says. Of all states that were ended or
  displaced on the way, every token was ended once if and only if no state was displaced while its token was
  live. */
  method EnactAll(cfg: Config, streams: seq<Stream>, acts: seq<Act>) returns (ghost gone: seq<State>)
    requires forall i, j :: 0 <= i < j < |streams| ==> streams[i] != streams[j]
    requires forall i :: 0 <= i < |streams| ==> streams[i].state == null
    requires forall k :: 0 <= k < |acts| ==> InRange(acts[k], |streams|)
    modifies streams
    ensures Mirrors(cfg, streams, DoAll(cfg, NOTHING, acts).owned)
    ensures LogsOf(DoAll(cfg, NOTHING, acts).past, gone)
    ensures GoneSettled(gone) <==> NoneLost(cfg, NOTHING, acts)
  {
    hide Mirrors, Do, Settled, NoneLost;
    gone := [];
    NothingMirrors(cfg, streams);
    for k := 0 to |acts|
      invariant Mirrors(cfg, streams, DoAll(cfg, NOTHING, acts[..k]).owned)
      invariant LogsOf(DoAll(cfg, NOTHING, acts[..k]).past, gone)
      invariant forall g :: g in gone ==> g !in States(streams)
      invariant fresh(States(streams)) && forall g :: g in gone ==> fresh(g)
    {
      DoMore(cfg, NOTHING, acts[..k], acts[k]);
      assert acts[..k + 1] == acts[..k] + [acts[k]];
      ghost var w, v := DoAll(cfg, NOTHING, acts[..k]), DoAll(cfg, NOTHING, acts[..k + 1]);
      ghost var more := Enact(cfg, streams, acts[k], w);
      assert LogsOf(w.past, gone);
      LogsMore(w.past, v.past, gone, more);
      gone := gone + more;
    }
    assert acts[..|acts|] == acts;
    TokensSettledExactly(cfg, acts);
  }

  lemma NothingMirrors(cfg: Config, streams: seq<Stream>)
    requires forall i, j :: 0 <= i < j < |streams| ==> streams[i] != streams[j]
    requires forall i :: 0 <= i < |streams| ==> streams[i].state == null
    ensures Mirrors(cfg, streams, map[])
  {}
}
