/** What the caller of an owned stream sees of each operation: the result, the stream it holds, and which decoder
serves it from then on. The profile leaves no trace in any of it. */
module StreamAnswers {
  import opened OwnedInflate
  import opened Words

  // ---------------------------------------------------------------- decompression

  // The header and the stream allow an attempt to decode everything at once.
  ghost predicate Attempted(cfg: Config, s: Owned, c: Call)
    requires c.Inflate?
  {
    && cfg.hasWhole && Eligible(s.windowBits, Bytes(c.memory, s.view.nextIn, s.view.availIn))
    && c.flush <= 4 && 0 < s.view.availOut && s.view.availIn <= s.view.availOut
  }

  // What the whole decoder claims is possible: a header and a trailer were read, and nothing out of bounds.
  predicate Plausible(v: View, r: WholeResult) {
    r.status.Success? && 6 <= r.consumed <= v.availIn && r.produced <= v.availOut
  }

  // What a decompression call answers, by the state it finds and the state it leaves.
  ghost predicate Answered(cfg: Config, s: Owned, c: Call, t: Owned, code: int)
    requires c.Inflate?
  {
    var v := s.view;
    var wellFormed := 0 <= c.flush <= 6 && v.nextOut != 0 && (v.availIn == 0 || v.nextIn != 0);
    && t.windowBits == s.windowBits
    && (!wellFormed ==> code == INFLATE_STREAM_ERROR && t.view == v && t.policy == s.policy && t.reason == s.reason)
    && (wellFormed ==>
          && (t.policy.Done? <==>
                s.policy.Done? || (s.policy.Undecided? && Attempted(cfg, s, c) && Plausible(v, c.whole)))
          && (t.policy.Done? ==> code == INFLATE_END)
          && (!t.policy.Done? ==> code == c.code && t.view == c.streamed)
          && (!s.policy.Undecided? ==> t.policy == s.policy && t.outcome == s.outcome && t.reason == s.reason))
  }

  /** A malformed call fails and changes nothing the caller sees. Otherwise the first call of a lifetime ends the
  stream if and only if the whole decoder was attempted and succeeded; a finished stream is at its end; and every
  other call gives the caller the streaming decoder's own result and stream. */
  lemma InflateAnswers(cfg: Config, s: Owned, c: Call)
    requires c.Inflate?
    ensures Answered(cfg, s, c, Step(cfg, s, c).0, Step(cfg, s, c).1)
  {
    hide Eligible, Complete, Begin, InflateBody;
    var begun := if cfg.profiled then Begin(s, c.source, c.sampled) else s;
    BeginKeepsFace(s, c.source, c.sampled);
    BodyAnswers(cfg, begun, c);
    var r := InflateBody(cfg, begun, c);
    CompleteKeepsFace(cfg, Measured(r.0, c.start, c.finish), r.1);
  }

  lemma BodyAnswers(cfg: Config, s: Owned, c: Call)
    requires c.Inflate?
    ensures Answered(cfg, s, c, InflateBody(cfg, s, c).0, InflateBody(cfg, s, c).1)
  {
    hide Eligible, HasZlibHeader, Served;
    if s.policy.Undecided? {
      ServedExactly(cfg, s, c.flush, Bytes(c.memory, s.view.nextIn, s.view.availIn), c.whole);
    }
  }

  // The number that four bytes spell, most significant first.
  function Trailer(memory: nat -> Octet, at: nat): nat {
    ReadLE([memory(at + 3) as int, memory(at + 2) as int, memory(at + 1) as int, memory(at) as int])
  }

  /** When a call ends the stream at once, both sides of it advance by exactly what the whole decoder consumed and
  produced, and the checksum is the one in the last four bytes consumed. */
  lemma WholeDecodeMoves(cfg: Config, s: Owned, c: Call)
    requires c.Inflate? && !s.policy.Done? && Step(cfg, s, c).0.policy.Done?
    ensures 6 <= c.whole.consumed
    ensures Moved(s.view, c.whole, Trailer(c.memory, s.view.nextIn + c.whole.consumed - 4), Step(cfg, s, c).0.view)
  {
    hide Eligible, Complete, ChoosePolicy, Trailer, Moved;
    var begun := if cfg.profiled then Begin(s, c.source, c.sampled) else s;
    BeginKeepsFace(s, c.source, c.sampled);
    var r := InflateBody(cfg, begun, c);
    CompleteKeepsFace(cfg, Measured(r.0, c.start, c.finish), r.1);
    ChosenWhole(cfg, begun, c);
  }

  ghost predicate Moved(v: View, r: WholeResult, adler: nat, w: View) {
    && w.nextIn == v.nextIn + r.consumed && w.availIn + r.consumed == v.availIn
    && w.nextOut == v.nextOut + r.produced && w.availOut + r.produced == v.availOut
    && w.totalIn < W32 && (w.totalIn - v.totalIn - r.consumed) % W32 == 0
    && w.totalOut < W32 && (w.totalOut - v.totalOut - r.produced) % W32 == 0
    && w.adler == adler && !w.message && w.dataType == 64
  }

  lemma ChosenWhole(cfg: Config, s: Owned, c: Call)
    requires c.Inflate? && !s.policy.Done?
    requires var input := Bytes(c.memory, s.view.nextIn, s.view.availIn);
             ChoosePolicy(cfg, s, c.flush, input, c.whole).policy.Done?
    ensures var input := Bytes(c.memory, s.view.nextIn, s.view.availIn);
            && 6 <= c.whole.consumed
            && Moved(s.view, c.whole, Trailer(c.memory, s.view.nextIn + c.whole.consumed - 4),
                     ChoosePolicy(cfg, s, c.flush, input, c.whole).view)
  {
    hide HasZlibHeader, BigEndian, Trailer;
    TrailerIsRead(c.memory, s.view.nextIn, s.view.availIn, c.whole.consumed);
    Wrapped(s.view.totalIn, c.whole.consumed);
    Wrapped(s.view.totalOut, c.whole.produced);
  }

  lemma Wrapped(total: nat, more: nat)
    ensures ((total + more) % W32 - total - more) % W32 == 0
  {}

  lemma TrailerIsRead(memory: nat -> Octet, at: nat, n: nat, consumed: nat)
    ensures 4 <= consumed <= n ==>
              BigEndian(Bytes(memory, at, n)[consumed - 4..consumed]) == Trailer(memory, at + consumed - 4)
  {
    if 4 <= consumed <= n {
      var b := Bytes(memory, at, n)[consumed - 4..consumed];
      FourBytes(b[3] as int, b[2] as int, b[1] as int, b[0] as int);
    }
  }

  lemma FourBytes(a: Byte, b: Byte, c: Byte, d: Byte)
    ensures ReadLE([a, b, c, d]) == a + 256 * (b + 256 * (c + 256 * d))
  {
    FirstByte(d, []);
    FirstByte(c, [d]);
    FirstByte(b, [c, d]);
    FirstByte(a, [b, c, d]);
    assert [d] + [] == [d] && [c] + [d] == [c, d] && [b] + [c, d] == [b, c, d] && [a] + [b, c, d] == [a, b, c, d];
  }

  lemma FirstByte(a: Byte, rest: seq<Byte>)
    ensures ReadLE([a] + rest) == a + 256 * ReadLE(rest)
  {
    assert ([a] + rest)[1..] == rest;
  }

  // ---------------------------------------------------------------- lifetimes

  // A lifetime has just begun on a stream that was `v`.
  ghost predicate Renewed(cfg: Config, v: View, checksum: nat, t: Owned) {
    && t.outcome.Streaming?
    && t.view.nextIn == v.nextIn && t.view.availIn == v.availIn
    && t.view.nextOut == v.nextOut && t.view.availOut == v.availOut
    && t.view.totalIn == 0 && t.view.totalOut == 0
    && !t.view.message && t.view.dataType == 2 && t.view.adler == checksum
  }

  lemma ResetRenews(cfg: Config, s: Owned, checksum: nat)
    ensures Renewed(cfg, s.view, checksum, ResetView(cfg, s, checksum))
    ensures ResetView(cfg, s, checksum).windowBits == s.windowBits
  {}

  // Initialising and a reset that the decoder agrees to start a lifetime: undecided, with nothing read or written.
  lemma LifetimeStarts(cfg: Config, s: Owned, bits: int, checksum: nat)
    ensures forall t ::
              t == Initialised(cfg, s.view, bits, checksum)
              || t == Step(cfg, s, Reset2(bits, INFLATE_OK, checksum)).0
              || (bits == s.windowBits && t == Step(cfg, s, Reset(INFLATE_OK, checksum)).0) ==>
                && Renewed(cfg, s.view, checksum, t) && t.windowBits == bits
                && t.policy.Undecided? && t.reason == if cfg.hasWhole then Request else NoWhole
    ensures Step(cfg, s, Reset(INFLATE_OK, checksum)).1 == INFLATE_OK
    ensures Step(cfg, s, Reset2(bits, INFLATE_OK, checksum)).1 == INFLATE_OK
  {}

  // A reset that the decoder refuses gives its reason and changes nothing the caller sees.
  lemma RefusedReset(cfg: Config, s: Owned, bits: int, checksum: nat, code: int)
    requires code != INFLATE_OK
    ensures forall c :: c == Reset(code, checksum) || c == Reset2(bits, code, checksum) ==>
              Step(cfg, s, c).1 == code && SameFace(Step(cfg, s, c).0, s)
  {}

  // Keeping the window makes no new attempt: the stream stays with the streaming decoder.
  lemma KeepingAnswers(cfg: Config, s: Owned, code: int, checksum: nat)
    ensures var (t, result) := Step(cfg, s, ResetKeep(code, checksum));
            var native := cfg.resetKeep && (s.policy.Undecided? || s.policy.Streaming?);
            && t.windowBits == s.windowBits
            && result == (if native then code else INFLATE_STREAM_ERROR)
            && (native ==> t.policy.Streaming?)
            && (native && code == INFLATE_OK ==> Renewed(cfg, s.view, checksum, t) && t.reason.Request?)
            && (!(native && code == INFLATE_OK) ==> t.view == s.view)
            && (!native ==> t.policy == s.policy && t.reason == s.reason)
  {
    hide ResetView, ProfileEnd;
    ProfileEndKeepsFace(cfg, s);
    ResetRenews(cfg, NativeOperation(if cfg.profiled then ProfileEnd(cfg, s) else s), checksum);
  }

  // ---------------------------------------------------------------- controls

  // A control that the decoder has answers as it does, and from then on no whole decode is attempted.
  lemma ControlAnswers(cfg: Config, s: Owned, c: Call)
    requires c.Control? || c.GetHeader? || c.Mark?
    ensures var (t, result) := Step(cfg, s, c);
            var able := if c.Mark? then cfg.mark else c.supported && (c.GetHeader? ==> c.hasHeader);
            var native := able && (s.policy.Undecided? || s.policy.Streaming?);
            && t.windowBits == s.windowBits
            && result == (if native then c.code else INFLATE_STREAM_ERROR)
            && t.view == (if native && c.Control? then c.moved else s.view)
            && (native ==> t.policy.Streaming?)
            && (native && s.policy.Undecided? ==> t.outcome.Streaming? && t.reason.Request?)
            && (!native || s.policy.Streaming? ==>
                  t.policy == s.policy && t.outcome == s.outcome && t.reason == s.reason)
  {
    hide ProfileEnd;
    NativeOnly(s);
    CompleteKeepsFace(cfg, s, INFLATE_STREAM_ERROR);
    CompleteKeepsFace(cfg, NativeOperation(s), INFLATE_STREAM_ERROR);
    if !c.Mark? {
      var u := NativeOperation(s).(view := if c.Control? then c.moved else s.view);
      CompleteKeepsFace(cfg, u, c.code);
    }
  }

  lemma NativeOnly(s: Owned)
    ensures var t := NativeOperation(s);
            && t.view == s.view && t.windowBits == s.windowBits && t.token == s.token
            && (s.policy.Undecided? ==> t.policy.Streaming? && t.outcome.Streaming? && t.reason.Request?)
            && (!s.policy.Undecided? ==> t == s)
  {}

  // ---------------------------------------------------------------- the profile is invisible

  // Two states of a stream that only the profile can tell apart.
  predicate SameFace(s: Owned, t: Owned) {
    && s.view == t.view && s.windowBits == t.windowBits
    && s.policy == t.policy && s.outcome == t.outcome && s.reason == t.reason
  }

  lemma ProfileEndKeepsFace(cfg: Config, s: Owned)
    ensures SameFace(ProfileEnd(cfg, s), s)
  {}

  lemma CompleteKeepsFace(cfg: Config, s: Owned, code: int)
    ensures SameFace(Complete(cfg, s, code), s)
  {}

  lemma BeginKeepsFace(s: Owned, source: bool, sampled: bool)
    ensures SameFace(Begin(s, source, sampled), s)
  {}

  lemma ResetViewFace(cfg: Config, other: Config, s: Owned, t: Owned, checksum: nat)
    requires SameFace(s, t) && cfg == other.(profiled := cfg.profiled)
    ensures SameFace(ResetView(cfg, s, checksum), ResetView(other, t, checksum))
  {}

  lemma ChooseFace(cfg: Config, other: Config, s: Owned, t: Owned, flush: int, input: seq<Octet>, r: WholeResult)
    requires SameFace(s, t) && cfg == other.(profiled := cfg.profiled) && |input| == s.view.availIn
    ensures SameFace(ChoosePolicy(cfg, s, flush, input, r), ChoosePolicy(other, t, flush, input, r))
  {
    hide HasZlibHeader, Served;
  }

  lemma BodyFace(cfg: Config, other: Config, s: Owned, t: Owned, c: Call)
    requires SameFace(s, t) && cfg == other.(profiled := cfg.profiled) && c.Inflate?
    ensures var a, b := InflateBody(cfg, s, c), InflateBody(other, t, c); SameFace(a.0, b.0) && a.1 == b.1
  {
    hide ChoosePolicy;
    if s.policy.Undecided? {
      ChooseFace(cfg, other, s, t, c.flush, Bytes(c.memory, s.view.nextIn, s.view.availIn), c.whole);
    }
  }

  lemma InflateFace(cfg: Config, other: Config, s: Owned, t: Owned, c: Call)
    requires SameFace(s, t) && cfg == other.(profiled := cfg.profiled) && c.Inflate?
    ensures var a, b := Step(cfg, s, c), Step(other, t, c); SameFace(a.0, b.0) && a.1 == b.1
  {
    hide Begin, InflateBody, Complete;
    BeginKeepsFace(s, c.source, c.sampled);
    BeginKeepsFace(t, c.source, c.sampled);
    var s', t' := if cfg.profiled then Begin(s, c.source, c.sampled) else s,
                  if other.profiled then Begin(t, c.source, c.sampled) else t;
    BodyFace(cfg, other, s', t', c);
    var a, b := InflateBody(cfg, s', c), InflateBody(other, t', c);
    CompleteKeepsFace(cfg, Measured(a.0, c.start, c.finish), a.1);
    CompleteKeepsFace(other, Measured(b.0, c.start, c.finish), b.1);
  }

  lemma ResetFace(cfg: Config, other: Config, s: Owned, t: Owned, s': Owned, t': Owned, code: int, checksum: nat)
    requires SameFace(s, t) && SameFace(s', t') && cfg == other.(profiled := cfg.profiled)
    ensures SameFace(Complete(cfg, if code == INFLATE_OK then ResetView(cfg, s', checksum) else s, code),
                     Complete(other, if code == INFLATE_OK then ResetView(other, t', checksum) else t, code))
  {
    hide Complete, ResetView;
    ResetViewFace(cfg, other, s', t', checksum);
    CompleteKeepsFace(cfg, if code == INFLATE_OK then ResetView(cfg, s', checksum) else s, code);
    CompleteKeepsFace(other, if code == INFLATE_OK then ResetView(other, t', checksum) else t, code);
  }

  lemma KeepFace(cfg: Config, other: Config, s: Owned, t: Owned, c: Call)
    requires SameFace(s, t) && cfg == other.(profiled := cfg.profiled) && c.ResetKeep?
    ensures var a, b := Step(cfg, s, c), Step(other, t, c); SameFace(a.0, b.0) && a.1 == b.1
  {
    hide ResetView, ProfileEnd, NativeOperation;
    ProfileEndKeepsFace(cfg, s);
    ProfileEndKeepsFace(other, t);
    var e, f := if cfg.profiled then ProfileEnd(cfg, s) else s, if other.profiled then ProfileEnd(other, t) else t;
    NativeOnly(e);
    NativeOnly(f);
    ResetViewFace(cfg, other, NativeOperation(e), NativeOperation(f), c.checksum);
  }

  lemma ControlFace(cfg: Config, other: Config, s: Owned, t: Owned, supported: bool, moved: View, code: int)
    requires SameFace(s, t) && cfg == other.(profiled := cfg.profiled)
    ensures var a, b := ControlStep(cfg, s, supported, moved, code), ControlStep(other, t, supported, moved, code);
            SameFace(a.0, b.0) && a.1 == b.1
  {
    hide Complete;
    var s', t' := NativeOperation(s), NativeOperation(t);
    CompleteKeepsFace(cfg, s'.(view := moved), code);
    CompleteKeepsFace(cfg, s', INFLATE_STREAM_ERROR);
    CompleteKeepsFace(cfg, s, INFLATE_STREAM_ERROR);
    CompleteKeepsFace(other, t'.(view := moved), code);
    CompleteKeepsFace(other, t', INFLATE_STREAM_ERROR);
    CompleteKeepsFace(other, t, INFLATE_STREAM_ERROR);
  }

  lemma MarkFace(cfg: Config, other: Config, s: Owned, t: Owned, c: Call)
    requires SameFace(s, t) && cfg == other.(profiled := cfg.profiled) && c.Mark?
    ensures var a, b := Step(cfg, s, c), Step(other, t, c); SameFace(a.0, b.0) && a.1 == b.1
  {
    hide Complete;
    CompleteKeepsFace(cfg, NativeOperation(s), INFLATE_STREAM_ERROR);
    CompleteKeepsFace(cfg, s, INFLATE_STREAM_ERROR);
    CompleteKeepsFace(other, NativeOperation(t), INFLATE_STREAM_ERROR);
    CompleteKeepsFace(other, t, INFLATE_STREAM_ERROR);
  }

  lemma StepFace(cfg: Config, other: Config, s: Owned, t: Owned, c: Call)
    requires SameFace(s, t) && cfg == other.(profiled := cfg.profiled)
    ensures var a, b := Step(cfg, s, c), Step(other, t, c); SameFace(a.0, b.0) && a.1 == b.1
  {
    hide Complete, ResetView, ControlStep, InflateBody, Begin, Measured, ProfileEnd;
    match c
    case Refill(_) =>
    case Inflate(_, _, _, _, _, _, _, _, _) => InflateFace(cfg, other, s, t, c);
    case Reset(code, checksum) => ResetFace(cfg, other, s, t, s, t, code, checksum);
    case Reset2(bits, code, checksum) =>
      ResetFace(cfg, other, s, t, s.(windowBits := bits), t.(windowBits := bits), code, checksum);
    case ResetKeep(_, _) => KeepFace(cfg, other, s, t, c);
    case Control(supported, moved, code) => ControlFace(cfg, other, s, t, supported, moved, code);
    case GetHeader(_, supported, code) =>
      ControlFace(cfg, other, s, t, supported, s.view, code);
      CompleteKeepsFace(cfg, s, INFLATE_STREAM_ERROR);
      CompleteKeepsFace(other, t, INFLATE_STREAM_ERROR);
    case Mark(_) => MarkFace(cfg, other, s, t, c);
  }

  /** Whether a stream is profiled, and whatever its profile holds, every run of calls gets the same results and
  leaves the same stream. In particular a copy answers as its source would have. */
  lemma {:induction false} ProfileIsInvisible(cfg: Config, other: Config, s: Owned, t: Owned, calls: seq<Call>)
    requires SameFace(s, t) && cfg == other.(profiled := cfg.profiled)
    ensures SameFace(Run(cfg, s, calls), Run(other, t, calls)) && Codes(cfg, s, calls) == Codes(other, t, calls)
    decreases |calls|
  {
    hide SameFace, Step;
    if calls != [] {
      StepFace(cfg, other, s, t, calls[0]);
      ProfileIsInvisible(cfg, other, Step(cfg, s, calls[0]).0, Step(other, t, calls[0]).0, calls[1..]);
    }
  }

  lemma CopyAnswersAlike(cfg: Config, s: Owned, calls: seq<Call>)
    ensures SameFace(Run(cfg, Copied(s), calls), Run(cfg, s, calls))
    ensures Codes(cfg, Copied(s), calls) == Codes(cfg, s, calls)
  {
    ProfileIsInvisible(cfg, cfg, Copied(s), s, calls);
  }
}
