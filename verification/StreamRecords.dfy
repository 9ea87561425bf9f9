/** What an owned stream leaves in its log, and what a reader of the profile learns from a record alone. */
module StreamRecords {
  import opened OwnedInflate
  import opened Words

  // ---------------------------------------------------------------- what each call logs

  // A token ends with the time summed so far, the output so far, and how the stream was served.
  function RecordOf(cfg: Config, sum: nat, s: Owned): Event {
    Ended(sum % W64, s.view.totalOut, ProfileResult(cfg.backend, s.outcome, s.reason))
  }

  // The results that end a token: the end of the stream, and errors other than a lack of buffer.
  predicate Final(code: int) { code == INFLATE_END || (code < 0 && code != INFLATE_BUF_ERROR) }

  // Whether a control ends a live token: a failing one does, but not a mark that its decoder fails.
  predicate Spoils(cfg: Config, s: Owned, c: Call, code: int) {
    code < 0 && code != INFLATE_BUF_ERROR && (c.Mark? ==> !cfg.mark || s.policy.Done?)
  }

  // The time summed by a running token.
  function SumOf(p: Phase): nat { if p.Running? then p.sum else 0 }

  // What a decompression call logs after the admission, if it makes one. A clock that ran backwards adds nothing.
  ghost function Measurement(cfg: Config, live: bool, sum: nat, c: Call, t: Owned, code: int): seq<Event>
    requires c.Inflate?
  {
    [Inflated(c.start, c.finish)]
    + if !live || !Final(code) then []
      else if c.start <= c.finish then [RecordOf(cfg, sum + c.finish - c.start, t)]
      else [RecordOf(cfg, sum, t)]
  }

  /** What a call adds to a log, told from the log before it: the first decompression call of a lifetime admits a
  token when a source samples it; every decompression call is timed; and a running token is ended by a final
  result, by a reset, and by a control that fails. */
  ghost function Logged(cfg: Config, s: Owned, c: Call): seq<Event> {
    var (t, code) := Step(cfg, s, c);
    var phase := PhaseOf(s.log);
    var last := if phase.Running? then [RecordOf(cfg, phase.sum, s)] else [];
    match c
    case Refill(_) => []
    case Inflate(_, _, source, sampled, _, _, _, _, _) =>
      if cfg.profiled && phase.Unused? && source && sampled then [Admitted] + Measurement(cfg, true, 0, c, t, code)
      else Measurement(cfg, phase.Running?, SumOf(phase), c, t, code)
    case Reset(_, _) => if code == INFLATE_OK then last + [Boundary] else if Final(code) then last else []
    case Reset2(_, _, _) => if code == INFLATE_OK then last + [Boundary] else if Final(code) then last else []
    case ResetKeep(_, _) =>
      if code == INFLATE_OK && cfg.resetKeep && !s.policy.Done? then last + [Boundary] else last
    case _ => if phase.Running? && Spoils(cfg, s, c, code) then [RecordOf(cfg, phase.sum, t)] else []
  }

  lemma StepLogs(cfg: Config, s: Owned, c: Call)
    requires Inv(cfg, s)
    ensures Step(cfg, s, c).0.log == s.log + Logged(cfg, s, c)
  {
    hide PhaseOf, Named;
    match c
    case Refill(_) =>
    case Inflate(_, _, _, _, _, _, _, _, _) => InflateLogs(cfg, s, c);
    case Reset(_, _) => ResetLogs(cfg, s, c);
    case Reset2(_, _, _) => ResetLogs(cfg, s, c);
    case ResetKeep(_, _) => KeepLogs(cfg, s, c);
    case _ => ControlLogs(cfg, s, c);
  }

  lemma InflateLogs(cfg: Config, s: Owned, c: Call)
    requires Inv(cfg, s) && c.Inflate?
    ensures Step(cfg, s, c).0.log == s.log + Logged(cfg, s, c)
  {
    hide PhaseOf, Named, InflateBody, PolicyInv;
    var begun := if cfg.profiled then Begin(s, c.source, c.sampled) else s;
    BodyKeepsProfile(cfg, begun, c);
    AddWrapped(SumOf(PhaseOf(s.log)), Interval(c.start, c.finish));
  }

  lemma BodyKeepsProfile(cfg: Config, s: Owned, c: Call)
    requires c.Inflate?
    ensures var t := InflateBody(cfg, s, c).0; t.token == s.token && t.elapsed == s.elapsed && t.log == s.log
  {
    hide ChoosePolicy;
    if WellFormed(s.view, c.flush) {
      ChoosePolicyKeepsToken(cfg, s, c.flush, Bytes(c.memory, s.view.nextIn, s.view.availIn), c.whole);
    }
  }

  lemma ResetLogs(cfg: Config, s: Owned, c: Call)
    requires Inv(cfg, s) && (c.Reset? || c.Reset2?)
    ensures Step(cfg, s, c).0.log == s.log + Logged(cfg, s, c)
  {
    hide PhaseOf, Named, PolicyInv;
  }

  lemma KeepLogs(cfg: Config, s: Owned, c: Call)
    requires Inv(cfg, s) && c.ResetKeep?
    ensures Step(cfg, s, c).0.log == s.log + Logged(cfg, s, c)
  {
    hide PhaseOf, Named, PolicyInv;
  }

  lemma ControlLogs(cfg: Config, s: Owned, c: Call)
    requires Inv(cfg, s) && (c.Control? || c.GetHeader? || c.Mark?)
    ensures Step(cfg, s, c).0.log == s.log + Logged(cfg, s, c)
  {
    hide PhaseOf, Named;
  }

  // ---------------------------------------------------------------- the profile result

  const BACKENDS: seq<Backend> := [Stock, Zlib, ZlibNg, Isal, HybridZlibNg, HybridIsal]
  const REASONS: seq<Reason> := [None, NoWhole, Format, Request, Allocation, Decode, Capacity]

  // The rows of the profile: for each backend one for streams requested, one for streams served whole, and one
  // for each reason to fall back.
  datatype Descriptor =
    | Requested(backend: Backend)
    | ServedWhole(backend: Backend)
    | Fell(backend: Backend, why: Reason)

  function FallRows(b: Backend, reasons: seq<Reason>): seq<Descriptor> {
    if reasons == [] then []
    else (if reasons[0].None? then [] else [Fell(b, reasons[0])]) + FallRows(b, reasons[1..])
  }

  function Block(b: Backend): seq<Descriptor> {
    [Requested(b), ServedWhole(b)] + FallRows(b, REASONS)
  }

  function Rows(backends: seq<Backend>): seq<Descriptor> {
    if backends == [] then [] else Block(backends[0]) + Rows(backends[1..])
  }

  lemma BlockRows(b: Backend)
    ensures Block(b) == [Requested(b), ServedWhole(b), Fell(b, NoWhole), Fell(b, Format), Fell(b, Request),
                         Fell(b, Allocation), Fell(b, Decode), Fell(b, Capacity)]
  {
    assert FallRows(b, REASONS[6..]) == [Fell(b, Capacity)];
    assert FallRows(b, REASONS[5..]) == [Fell(b, Decode)] + FallRows(b, REASONS[5..][1..]);
    assert FallRows(b, REASONS[4..]) == [Fell(b, Allocation)] + FallRows(b, REASONS[4..][1..]);
    assert FallRows(b, REASONS[3..]) == [Fell(b, Request)] + FallRows(b, REASONS[3..][1..]);
    assert FallRows(b, REASONS[2..]) == [Fell(b, Format)] + FallRows(b, REASONS[2..][1..]);
    assert FallRows(b, REASONS[1..]) == [Fell(b, NoWhole)] + FallRows(b, REASONS[1..][1..]);
  }

  lemma {:induction false} RowAt(backends: seq<Backend>, i: nat, j: nat)
    requires i < |backends| && j < 8
    ensures |Block(backends[i])| == 8 && i * 8 + j < |Rows(backends)|
    ensures Rows(backends)[i * 8 + j] == Block(backends[i])[j]
  {
    hide FallRows;
    BlockRows(backends[0]);
    if i > 0 {
      RowAt(backends[1..], i - 1, j);
    }
  }

  // A result is the position in the profile of what served the stream, and an admission that of its backend.
  lemma ResultIsPosition(b: Backend, p: Policy, r: Reason)
    requires p.Whole? || !r.None?
    ensures ProfileAdmission(b) < ProfileResult(b, p, r) < |Rows(BACKENDS)|
    ensures Rows(BACKENDS)[ProfileAdmission(b)] == Requested(b)
    ensures Rows(BACKENDS)[ProfileResult(b, p, r)] == if p.Whole? then ServedWhole(b) else Fell(b, r)
  {
    hide Rows, Block;
    var i := BackendIndex(b);
    assert BACKENDS[i] == b;
    BlockRows(b);
    RowAt(BACKENDS, i, 0);
    RowAt(BACKENDS, i, ProfileResult(b, p, r) - i * 8);
  }

  // ---------------------------------------------------------------- what a record tells

  // The record is of the state s.
  predicate Tells(cfg: Config, e: Event, s: Owned) {
    e.Ended? && e.bytes == s.view.totalOut && e.result == ProfileResult(cfg.backend, s.outcome, s.reason)
  }

  // A call records the stream as the call began or as it returned.
  lemma StepRecords(cfg: Config, s: Owned, c: Call, k: nat)
    requires Inv(cfg, s)
    requires var log := Step(cfg, s, c).0.log; |s.log| <= k < |log| && log[k].Ended?
    ensures var t := Step(cfg, s, c).0; Tells(cfg, t.log[k], s) || Tells(cfg, t.log[k], t)
  {
    hide Inv, Step, PhaseOf, ProfileResult;
    StepLogs(cfg, s, c);
  }

  lemma {:induction false} RunRecords(cfg: Config, s: Owned, calls: seq<Call>, k: nat) returns (n: nat)
    requires Inv(cfg, s)
    requires var log := Run(cfg, s, calls).log; |s.log| <= k < |log| && log[k].Ended?
    ensures n <= |calls| && Tells(cfg, Run(cfg, s, calls).log[k], Run(cfg, s, calls[..n]))
    decreases |calls|
  {
    hide Inv, Step, Tells;
    if calls == [] {
      assert false;
    } else {
      var next := Step(cfg, s, calls[0]).0;
      StepKeepsInv(cfg, s, calls[0]);
      RunLogGrows(cfg, next, calls[1..]);
      if k < |next.log| {
        StepRecords(cfg, s, calls[0], k);
        assert calls[..1] == [calls[0]] && [calls[0]][1..] == [] && calls[..0] == [];
        n := if Tells(cfg, next.log[k], s) then 0 else 1;
      } else {
        var m := RunRecords(cfg, next, calls[1..], k);
        n := m + 1;
        assert calls[..n][1..] == calls[1..][..m];
      }
    }
  }

  lemma {:induction false} RunLogGrows(cfg: Config, s: Owned, calls: seq<Call>)
    ensures s.log <= Run(cfg, s, calls).log
    decreases |calls|
  {
    hide Step;
    if calls != [] {
      LogGrows(cfg, s, calls[0]);
      RunLogGrows(cfg, Step(cfg, s, calls[0]).0, calls[1..]);
    }
  }

  /** In every run that is ended, each record is of a state the stream was in, with the bytes it had then written,
  and the row its number stands for is that of the backend and of how the stream was served. */
  lemma RecordTells(cfg: Config, s: Owned, calls: seq<Call>, k: nat) returns (n: nat)
    requires Inv(cfg, s)
    requires var log := EndOf(cfg, Run(cfg, s, calls)).log; |s.log| <= k < |log| && log[k].Ended?
    ensures n <= |calls|
    ensures var e, t := EndOf(cfg, Run(cfg, s, calls)).log[k], Run(cfg, s, calls[..n]);
            && e.bytes == t.view.totalOut && e.result < |Rows(BACKENDS)|
            && Rows(BACKENDS)[e.result]
               == if t.outcome.Whole? then ServedWhole(cfg.backend) else Fell(cfg.backend, t.reason)
  {
    hide Inv, Run, ProfileResult, Rows;
    var t := Run(cfg, s, calls);
    if k < |t.log| {
      n := RunRecords(cfg, s, calls, k);
    } else {
      n := |calls|;
      assert calls[..n] == calls;
    }
    var u := Run(cfg, s, calls[..n]);
    RunKeepsInv(cfg, s, calls[..n]);
    NamedState(cfg, u);
    ResultIsPosition(cfg.backend, u.outcome, u.reason);
  }

  lemma NamedState(cfg: Config, s: Owned)
    requires Inv(cfg, s)
    ensures s.outcome.Whole? || !s.reason.None?
  {}
}
