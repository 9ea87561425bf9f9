/** The owned stream as objects: a stream the caller holds, the state the owner hangs on it, and the
operations that change both. Each method keeps `Valid`, the invariant of `OwnedInflate`, and is proved to do to
the fields what the function of the same operation there says. The last methods make whole runs of calls, of
which the theorems there are then concluded. */
module OwnedStream {

  import opened OwnedInflate
  import opened StreamLives
  import opened Words

  const STREAM_SIZE: int := 0x58

  class Stream {
    var view: View
    var state: State?

    constructor (view: View)
      ensures this.view == view && state == null
    {
      this.view := view;
      state := null;
    }
  }

  class State {
    const owner: Stream
    const cfg: Config
    var windowBits: int
    var policy: Policy
    var outcome: Policy
    var reason: Reason
    var token: Token
    var hasSource: bool
    var elapsed: nat
    ghost var log: seq<Event>

    constructor (owner: Stream, cfg: Config)
      ensures this.owner == owner && this.cfg == cfg
      ensures Value() == Fresh(owner.view, 0)
    {
      this.owner, this.cfg := owner, cfg;
      windowBits, policy, outcome, reason := 0, Undecided, Streaming, None;
      token, hasSource, elapsed, log := Absent, false, 0, [];
    }

    ghost function Value(): Owned
      reads this, owner
    {
      Owned(owner.view, windowBits, policy, outcome, reason, token, hasSource, elapsed, log)
    }

    ghost predicate Valid()
      reads this, owner
    {
      Inv(cfg, Value())
    }

    method EndProfile()
      modifies this
      ensures Value() == ProfileEnd(cfg, old(Value()))
    {
      if token.Live? {
        log := log + [Ended(elapsed, owner.view.totalOut, ProfileResult(cfg.backend, outcome, reason))];
        token := Empty;
      }
    }

    method BeginProfile(source: bool, sampled: bool)
      modifies this
      ensures Value() == Begin(old(Value()), source, sampled)
    {
      if !token.Absent? {
        return;
      }
      hasSource := source;
      if hasSource && sampled {
        token := Live;
        log := log + [Admitted];
      } else {
        token := Empty;
      }
    }

    method Reset(checksum: nat)
      modifies this, owner`view
      ensures Value() == ResetView(cfg, old(Value()), checksum)
    {
      if cfg.profiled {
        EndProfile();
        token, hasSource, elapsed := Absent, false, 0;
      }
      policy, outcome := Undecided, Streaming;
      reason := if cfg.hasWhole then Request else NoWhole;
      owner.view := owner.view.(totalIn := 0, totalOut := 0, message := false, dataType := 2, adler := checksum);
      log := log + [Boundary];
    }

    method Serve(input: seq<Octet>, r: WholeResult)
      requires 6 <= r.consumed <= |input| && owner.view.availIn == |input| && r.produced <= owner.view.availOut
      modifies this, owner`view
      ensures Value() == old(Value()).(policy := Done, outcome := Whole, reason := None,
                                       view := Served(old(owner.view), input, r))
    {
      var view := owner.view;
      owner.view := view.(adler := BigEndian(input[r.consumed - 4..r.consumed]),
                          nextIn := view.nextIn + r.consumed,
                          availIn := view.availIn - r.consumed,
                          totalIn := (view.totalIn + r.consumed) % W32,
                          nextOut := view.nextOut + r.produced,
                          availOut := view.availOut - r.produced,
                          totalOut := (view.totalOut + r.produced) % W32,
                          message := false,
                          dataType := 64);
      policy, outcome, reason := Done, Whole, None;
    }

    method Choose(flush: int, input: seq<Octet>, r: WholeResult)
      requires |input| == owner.view.availIn
      modifies this, owner`view
      ensures Value() == ChoosePolicy(cfg, old(Value()), flush, input, r)
    {
      hide IsZlibHeader, Served;
      policy := Streaming;
      reason := NoWhole;
      if cfg.hasWhole {
        var view := owner.view;
        reason := Format;
        if windowBits < 0 || windowBits > 15 || !HasZlibHeader(input)
           || (windowBits != 0 && (input[0] >> 4) as int + 8 > windowBits) {
          return;
        }
        reason := Request;
        if flush > 4 || view.availOut == 0 {
          return;
        }
        reason := Capacity;
        if view.availOut < view.availIn {
          return;
        }
        if r.status.Success? {
          reason := Decode;
          if r.consumed < 6 || r.consumed > |input| || r.produced > view.availOut {
            return;
          }
          Serve(input, r);
          return;
        }
        reason := if r.codec == MAX32 then Allocation
                  else if r.status.InsufficientSpace? then Capacity
                  else Decode;
      }
    }

    method GoNative() returns (streaming: bool)
      modifies this
      ensures Value() == NativeOperation(old(Value())) && streaming == policy.Streaming?
    {
      if policy.Undecided? {
        policy, outcome, reason := Streaming, Streaming, Request;
      }
      streaming := policy.Streaming?;
    }

    method Finish(code: int)
      modifies this
      ensures Value() == Complete(cfg, old(Value()), code)
    {
      if cfg.profiled && (code == INFLATE_END || (code < 0 && code != INFLATE_BUF_ERROR)) {
        EndProfile();
      }
    }

    method Decompress(c: Call) returns (code: int)
      requires c.Inflate?
      modifies this, owner`view
      ensures (Value(), code) == InflateBody(cfg, old(Value()), c)
      ensures token == old(token)
    {
      hide ChoosePolicy;
      if !WellFormed(owner.view, c.flush) {
        return INFLATE_STREAM_ERROR;
      }
      if policy.Undecided? {
        Choose(c.flush, Bytes(c.memory, owner.view.nextIn, owner.view.availIn), c.whole);
        ChoosePolicyKeepsToken(cfg, old(Value()), c.flush,
                               Bytes(c.memory, old(owner.view).nextIn, old(owner.view).availIn), c.whole);
      }
      if policy.Done? {
        return INFLATE_END;
      }
      owner.view := c.streamed;
      return c.code;
    }

    // Begin and the clock readings surround the decompression itself.
    method MeasuredInflate(c: Call) returns (code: int)
      requires c.Inflate? && Valid()
      modifies this, owner`view
      ensures Valid() && (Value(), code) == Step(cfg, old(Value()), c)
    {
      hide InflateBody, Begin, Complete, Inv;
      if cfg.profiled {
        BeginProfile(c.source, c.sampled);
      }
      var measured := token.Live?;
      code := Decompress(c);
      if measured {
        elapsed := (elapsed + Interval(c.start, c.finish)) % W64;
      }
      log := log + [Inflated(c.start, c.finish)];
      Finish(code);
      StepKeepsInv(cfg, old(Value()), c);
    }
  }

  // ---------------------------------------------------------------- the operations on a stream

  // The state hung on this stream, by this instantiation, for this very stream.
  function Find(cfg: Config, stream: Stream?): State?
    reads stream
  {
    if stream != null && stream.state != null && stream.state.owner == stream && stream.state.cfg == cfg
    then stream.state else null
  }

  // A state that is found on the stream is a valid one.
  ghost predicate Sound(cfg: Config, stream: Stream?)
    reads Held(stream)
  {
    Find(cfg, stream) != null ==> Find(cfg, stream).Valid()
  }

  ghost function Held(stream: Stream?): set<object>
    reads stream
  {
    if stream == null then {} else if stream.state == null then {stream} else {stream, stream.state}
  }

  // A state that the stream already owned is displaced as it stands: its token, live or not, is not ended.
  method Init2(cfg: Config, stream: Stream?, bits: int, version: string, size: int,
               granted: bool, answer: int, checksum: nat) returns (code: int)
    modifies stream
    ensures code == INFLATE_OK <==>
              version != "" && version[0] == '1' && size == STREAM_SIZE && stream != null && granted
                && answer == INFLATE_OK
    ensures code == if version == "" || version[0] != '1' || size != STREAM_SIZE then INFLATE_VERSION_ERROR
                    else if stream == null then INFLATE_STREAM_ERROR
                    else if granted then answer else INFLATE_MEM_ERROR
    ensures code == INFLATE_OK ==>
              && Find(cfg, stream) != null && fresh(Find(cfg, stream))
              && Find(cfg, stream).Value() == Initialised(cfg, old(stream.view), bits, checksum)
              && Find(cfg, stream).Valid()
    ensures code != INFLATE_OK && stream != null ==> unchanged(stream)
    ensures stream != null && old(stream.state) != null ==>
              unchanged(old(stream.state)) && (code == INFLATE_OK ==> stream.state != old(stream.state))
  {
    hide Inv;
    if version == "" || version[0] != '1' || size != STREAM_SIZE {
      return INFLATE_VERSION_ERROR;
    }
    if stream == null {
      return INFLATE_STREAM_ERROR;
    }
    if !granted {
      return INFLATE_MEM_ERROR;
    }
    if answer != INFLATE_OK {
      return answer;
    }
    var state := new State(stream, cfg);
    state.windowBits := bits;
    state.Reset(checksum);
    InitialisedInv(cfg, stream.view, bits, checksum);
    stream.state := state;
    return INFLATE_OK;
  }

  method Inflate(cfg: Config, stream: Stream?, c: Call) returns (code: int)
    requires c.Inflate?
    requires Sound(cfg, stream)
    modifies Held(stream)
    ensures Sound(cfg, stream)
    ensures Find(cfg, stream) == old(Find(cfg, stream))
    ensures Find(cfg, stream) == null ==> code == INFLATE_STREAM_ERROR && unchanged(old(Held(stream)))
    ensures Find(cfg, stream) != null ==>
              (Find(cfg, stream).Value(), code) == Step(cfg, old(Find(cfg, stream).Value()), c)
  {
    hide Inv;
    var state := Find(cfg, stream);
    if state == null {
      return INFLATE_STREAM_ERROR;
    }
    code := state.MeasuredInflate(c);
  }

  // `bits` present is `Reset2`, absent is `Reset`; both restart a lifetime when the decoder agrees.
  method Restart(cfg: Config, stream: Stream?, c: Call) returns (code: int)
    requires c.Reset? || c.Reset2?
    requires Sound(cfg, stream)
    modifies Held(stream)
    ensures Sound(cfg, stream)
    ensures Find(cfg, stream) == old(Find(cfg, stream))
    ensures Find(cfg, stream) == null ==> code == INFLATE_STREAM_ERROR && unchanged(old(Held(stream)))
    ensures Find(cfg, stream) != null ==>
              (Find(cfg, stream).Value(), code) == Step(cfg, old(Find(cfg, stream).Value()), c)
  {
    hide Inv, Complete, ResetView;
    var state := Find(cfg, stream);
    if state == null {
      return INFLATE_STREAM_ERROR;
    }
    ghost var v := state.Value();
    code := c.code;
    if code == INFLATE_OK {
      if c.Reset2? {
        state.windowBits := c.bits;
      }
      state.Reset(c.checksum);
    }
    state.Finish(code);
    StepKeepsInv(cfg, v, c);
  }

  method ResetKeeping(cfg: Config, stream: Stream?, c: Call) returns (code: int)
    requires c.ResetKeep?
    requires Sound(cfg, stream)
    modifies Held(stream)
    ensures Sound(cfg, stream)
    ensures Find(cfg, stream) == old(Find(cfg, stream))
    ensures Find(cfg, stream) == null ==> code == INFLATE_STREAM_ERROR && unchanged(old(Held(stream)))
    ensures Find(cfg, stream) != null ==>
              (Find(cfg, stream).Value(), code) == Step(cfg, old(Find(cfg, stream).Value()), c)
  {
    hide Inv, Complete, ResetView;
    var state := Find(cfg, stream);
    if state != null {
      StepKeepsInv(cfg, state.Value(), c);
    }
    if cfg.profiled && state != null {
      state.EndProfile();
    }
    if !cfg.resetKeep || state == null {
      return INFLATE_STREAM_ERROR;
    }
    var streaming := state.GoNative();
    if !streaming {
      return INFLATE_STREAM_ERROR;
    }
    code := c.code;
    if code == INFLATE_OK {
      state.Reset(c.checksum);
      state.policy, state.reason := Streaming, Request;
    }
  }

  // Dictionary, prime, sync, sync point and undermine; only sync moves the stream.
  method Controlled(cfg: Config, stream: Stream?, supported: bool, moved: View, answer: int) returns (code: int)
    requires Sound(cfg, stream)
    modifies Held(stream)
    ensures Sound(cfg, stream)
    ensures Find(cfg, stream) == old(Find(cfg, stream))
    ensures Find(cfg, stream) == null ==> code == INFLATE_STREAM_ERROR && unchanged(old(Held(stream)))
    ensures Find(cfg, stream) != null ==>
              (Find(cfg, stream).Value(), code)
              == Step(cfg, old(Find(cfg, stream).Value()), Control(supported, moved, answer))
  {
    hide Inv;
    code := INFLATE_STREAM_ERROR;
    var state := Find(cfg, stream);
    if state == null {
      return;
    }
    StepKeepsInv(cfg, state.Value(), Control(supported, moved, answer));
    if supported {
      var streaming := state.GoNative();
      if streaming {
        state.owner.view := moved;
        code := answer;
        if code < 0 {
          state.Finish(code);
        }
        return;
      }
    }
    state.Finish(code);
  }

  method Header(cfg: Config, stream: Stream?, hasHeader: bool, supported: bool, answer: int) returns (code: int)
    requires Sound(cfg, stream)
    modifies Held(stream)
    ensures Sound(cfg, stream)
    ensures Find(cfg, stream) == old(Find(cfg, stream))
    ensures Find(cfg, stream) == null ==> code == INFLATE_STREAM_ERROR && unchanged(old(Held(stream)))
    ensures Find(cfg, stream) != null ==>
              (Find(cfg, stream).Value(), code)
              == Step(cfg, old(Find(cfg, stream).Value()), GetHeader(hasHeader, supported, answer))
  {
    hide Inv;
    code := INFLATE_STREAM_ERROR;
    var state := Find(cfg, stream);
    if state == null {
      return;
    }
    StepKeepsInv(cfg, state.Value(), GetHeader(hasHeader, supported, answer));
    if hasHeader {
      code := Controlled(cfg, stream, supported, stream.view, answer);
    } else {
      state.Finish(code);
    }
  }

  method MarkPosition(cfg: Config, stream: Stream?, answer: int) returns (code: int)
    requires Sound(cfg, stream)
    modifies Held(stream)
    ensures Sound(cfg, stream)
    ensures Find(cfg, stream) == old(Find(cfg, stream))
    ensures Find(cfg, stream) == null ==> code == INFLATE_STREAM_ERROR && unchanged(old(Held(stream)))
    ensures Find(cfg, stream) != null ==>
              (Find(cfg, stream).Value(), code) == Step(cfg, old(Find(cfg, stream).Value()), Mark(answer))
  {
    hide Inv;
    var state := Find(cfg, stream);
    if state == null {
      return INFLATE_STREAM_ERROR;
    }
    StepKeepsInv(cfg, state.Value(), Mark(answer));
    if cfg.mark {
      var streaming := state.GoNative();
      if streaming {
        return answer;
      }
    }
    state.Finish(INFLATE_STREAM_ERROR);
    return INFLATE_STREAM_ERROR;
  }

  method End(cfg: Config, stream: Stream?, answer: int) returns (code: int)
    requires Sound(cfg, stream)
    modifies Held(stream)
    ensures old(Find(cfg, stream)) == null ==> code == INFLATE_STREAM_ERROR && unchanged(old(Held(stream)))
    ensures old(Find(cfg, stream)) != null ==>
              && code == answer && stream.state == null
              && old(Find(cfg, stream)).Value() == EndOf(cfg, old(Find(cfg, stream).Value()))
              && Settled(old(Find(cfg, stream)).log)
  {
    var state := Find(cfg, stream);
    if state == null {
      return INFLATE_STREAM_ERROR;
    }
    EndInv(cfg, state.Value());
    if cfg.profiled {
      state.EndProfile();
    }
    state.log := state.log + [Boundary];
    SettledExactly(state.log);
    stream.state := null;
    code := answer;
  }

  // As with initialising, a state of the destination is displaced as it stands.
  method Copy(cfg: Config, destination: Stream?, source: Stream?, granted: bool, answer: int) returns (code: int)
    requires Sound(cfg, source)
    modifies destination
    ensures code == INFLATE_OK <==>
              cfg.copy && old(Find(cfg, source)) != null && destination != null && granted && answer == INFLATE_OK
    ensures code == if !cfg.copy || old(Find(cfg, source)) == null || destination == null then INFLATE_STREAM_ERROR
                    else if granted then answer else INFLATE_MEM_ERROR
    ensures code == INFLATE_OK ==>
              && Find(cfg, destination) != null && fresh(Find(cfg, destination))
              && Find(cfg, destination).Value() == Copied(old(Find(cfg, source).Value()))
              && Find(cfg, destination).Valid()
    ensures code != INFLATE_OK && destination != null ==> unchanged(destination)
    ensures destination != null && old(destination.state) != null ==>
              unchanged(old(destination.state)) && (code == INFLATE_OK ==> destination.state != old(destination.state))
  {
    hide Inv;
    var from := Find(cfg, source);
    if !cfg.copy || from == null || destination == null {
      return INFLATE_STREAM_ERROR;
    }
    if !granted {
      return INFLATE_MEM_ERROR;
    }
    if answer != INFLATE_OK {
      return answer;
    }
    var to := new State(destination, cfg);
    to.windowBits, to.policy, to.outcome, to.reason := from.windowBits, from.policy, from.outcome, from.reason;
    to.log := [Boundary];
    CopiedInv(cfg, from.Value());
    destination.view := source.view;
    destination.state := to;
    return INFLATE_OK;
  }

  // ---------------------------------------------------------------- whole runs of calls

  // One call by its own method, or the caller moving its buffers.
  method Perform(cfg: Config, stream: Stream, c: Call) returns (code: int)
    requires Find(cfg, stream) != null && Find(cfg, stream).Valid()
    modifies Held(stream)
    ensures Find(cfg, stream) == old(Find(cfg, stream)) && Find(cfg, stream).Valid()
    ensures (Find(cfg, stream).Value(), code) == Step(cfg, old(Find(cfg, stream).Value()), c)
  {
    hide Step, Inv;
    match c
    case Refill(view) =>
      StepKeepsInv(cfg, Find(cfg, stream).Value(), c);
      RefillIs(cfg, Find(cfg, stream).Value(), view);
      stream.view := view;
      code := INFLATE_OK;
    case Inflate(_, _, _, _, _, _, _, _, _) => code := Inflate(cfg, stream, c);
    case Reset(_, _) => code := Restart(cfg, stream, c);
    case Reset2(_, _, _) => code := Restart(cfg, stream, c);
    case ResetKeep(_, _) => code := ResetKeeping(cfg, stream, c);
    case Control(supported, moved, answer) => code := Controlled(cfg, stream, supported, moved, answer);
    case GetHeader(hasHeader, supported, answer) => code := Header(cfg, stream, hasHeader, supported, answer);
    case Mark(answer) => code := MarkPosition(cfg, stream, answer);
  }

  lemma RefillIs(cfg: Config, s: Owned, view: View)
    ensures Step(cfg, s, Refill(view)) == (s.(view := view), INFLATE_OK)
  {}

  /** A run of calls does to the objects what `Run` says. In particular a finished stream that is not reset stays
  finished and answers as one, whatever else is called. */
  method PerformAll(cfg: Config, stream: Stream, calls: seq<Call>) returns (codes: seq<int>)
    requires Find(cfg, stream) != null && Find(cfg, stream).Valid()
    modifies Held(stream)
    ensures Find(cfg, stream) == old(Find(cfg, stream)) && Find(cfg, stream).Valid()
    ensures Find(cfg, stream).Value() == Run(cfg, old(Find(cfg, stream).Value()), calls)
    ensures codes == Codes(cfg, old(Find(cfg, stream).Value()), calls)
    ensures old(Find(cfg, stream).policy).Done? && (forall j :: 0 <= j < |calls| ==> !Restarts(calls[j])) ==>
              && Find(cfg, stream).policy.Done?
              && forall i :: 0 <= i < |calls| ==>
                   FinishedAnswer(Run(cfg, old(Find(cfg, stream).Value()), calls[..i]).view, calls[i], codes[i])
  {
    hide Step, Inv, FinishedAnswer;
    var state := Find(cfg, stream);
    ghost var s := state.Value();
    codes := [];
    for k := 0 to |calls|
      invariant Find(cfg, stream) == state && state.Valid()
      invariant state.Value() == Run(cfg, s, calls[..k]) && codes == Codes(cfg, s, calls[..k])
    {
      RunMore(cfg, s, calls[..k], calls[k]);
      assert calls[..k + 1] == calls[..k] + [calls[k]];
      var code := Perform(cfg, stream, calls[k]);
      codes := codes + [code];
    }
    assert calls[..|calls|] == calls;
    if s.policy.Done? && forall j :: 0 <= j < |calls| ==> !Restarts(calls[j]) {
      DoneUntilReset(cfg, s, calls, Refill(s.view));
      forall i | 0 <= i < |calls|
        ensures FinishedAnswer(Run(cfg, s, calls[..i]).view, calls[i], codes[i])
      {
        FinishedCodes(cfg, s, calls, i);
      }
    }
  }

  /** The life of a stream from its first call to its end: when it is over, every token that was admitted was
  ended once, with the time of the calls of its lifetime. */
  method Live(cfg: Config, stream: Stream, calls: seq<Call>, answer: int) returns (codes: seq<int>)
    requires Find(cfg, stream) != null && Find(cfg, stream).Valid()
    modifies Held(stream)
    ensures stream.state == null
    ensures codes == Codes(cfg, old(Find(cfg, stream).Value()), calls) + [answer]
    ensures old(Find(cfg, stream)).log == EndOf(cfg, Run(cfg, old(Find(cfg, stream).Value()), calls)).log
    ensures Settled(old(Find(cfg, stream)).log)
  {
    hide Inv, EndOf, Settled, FinishedAnswer;
    codes := PerformAll(cfg, stream, calls);
    var code := End(cfg, stream, answer);
    codes := codes + [code];
  }
}
