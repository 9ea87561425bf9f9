/** The owned zlib stream: one whole-buffer attempt, then a streaming decoder, and one profile record
per lifetime.

A stream starts undecided. Its first decompression call either serves everything through the whole
decoder (Done) or falls back to the streaming decoder (Streaming) and remembers why. A lifetime runs
from initialisation or a successful reset to the next reset or the end of the stream; each lifetime may
admit one profile token, which must be ended once. What the decoders, the allocator and the profile
source answer are parameters, so every result below holds for all answers.

The functions over `Owned` say what each operation does to one stream. The methods of the classes `Stream`
and `State`, in the module `OwnedStream`, are proved to do exactly that to their fields.
*/
module OwnedInflate {
  import opened Words

  const INFLATE_OK: int := 0
  const INFLATE_END: int := 1
  const INFLATE_STREAM_ERROR: int := -2
  const INFLATE_MEM_ERROR: int := -4
  const INFLATE_BUF_ERROR: int := -5
  const INFLATE_VERSION_ERROR: int := -6

  type Octet = bv8

  datatype Policy = Undecided | Streaming | Whole | Done
  datatype Reason = None | NoWhole | Format | Request | Allocation | Decode | Capacity
  datatype Backend = Stock | Zlib | ZlibNg | Isal | HybridZlibNg | HybridIsal

  datatype DecodeStatus = Success | BadData | InsufficientSpace
  datatype WholeResult = WholeResult(status: DecodeStatus, consumed: nat, produced: nat, codec: nat)

  // The fields of the stream its caller reads and writes; address zero is the null pointer.
  datatype View = View(nextIn: nat, availIn: nat, totalIn: nat, nextOut: nat, availOut: nat, totalOut: nat,
                       message: bool, dataType: int, adler: nat)

  // One instantiation of the stream: its decoders, its capabilities and whether it is profiled.
  datatype Config = Config(hasWhole: bool, profiled: bool, backend: Backend, resetKeep: bool, copy: bool,
                           mark: bool)

  // Absent until the first decompression call of a lifetime; then live, or empty for the rest of it.
  datatype Token = Absent | Empty | Live

  // What a profile source and a clock on the wall see of one stream.
  datatype Event =
    | Boundary
    | Admitted
    | Inflated(start: nat, finish: nat)
    | Ended(duration: nat, bytes: nat, result: nat)

  datatype Owned = Owned(view: View, windowBits: int, policy: Policy, outcome: Policy, reason: Reason,
                         token: Token, hasSource: bool, elapsed: nat, log: seq<Event>)

  // ---------------------------------------------------------------- the zlib header

  predicate IsZlibHeader(cmf: Octet, flg: Octet) {
    && cmf & 0x0F == 8
    && (cmf >> 4) & 0x0F <= 7
    && flg & 0x20 == 0
    && (cmf as int * 256 + flg as int) % 31 == 0
  }

  predicate HasZlibHeader(input: seq<Octet>) {
    |input| >= 2 && IsZlibHeader(input[0], input[1])
  }

  // Section 2.2 of RFC 1950: method 8 with a window of 2^(info+8), then level, no dictionary, check bits.
  ghost predicate HeaderFields(info: int, level: int, check: int) {
    0 <= info <= 7 && 0 <= level <= 3 && 0 <= check <= 31
  }

  ghost predicate Rfc1950Header(cmf: int, flg: int) {
    && (exists info, level, check ::
          HeaderFields(info, level, check) && cmf == info * 16 + 8 && flg == level * 64 + check)
    && (cmf * 256 + flg) % 31 == 0
  }

  lemma LowNibble(b: Octet)
    ensures (b & 0x0F) as int == b as int % 16
  {}

  lemma HighNibble(b: Octet)
    ensures ((b >> 4) & 0x0F) as int == b as int / 16
  {}

  lemma DictionaryBit(b: Octet)
    ensures b & 0x20 == 0 <==> b as int % 64 < 32
  {}

  lemma FieldsApart(info: int, level: int, check: int)
    requires HeaderFields(info, level, check)
    ensures (info * 16 + 8) % 16 == 8 && (info * 16 + 8) / 16 == info && (level * 64 + check) % 64 == check
  {}

  lemma FieldsOf(c: int, f: int)
    requires 0 <= c < 256 && 0 <= f < 256
    ensures Rfc1950Header(c, f) <==> c % 16 == 8 && c / 16 <= 7 && f % 64 < 32 && (c * 256 + f) % 31 == 0
  {
    if (c * 256 + f) % 31 == 0 {
      if c % 16 == 8 && c / 16 <= 7 && f % 64 < 32 {
        assert HeaderFields(c / 16, f / 64, f % 64);
      }
      if Rfc1950Header(c, f) {
        var info, level, check :| HeaderFields(info, level, check) && c == info * 16 + 8 && f == level * 64 + check;
        FieldsApart(info, level, check);
      }
    }
  }

  // The bit tests accept exactly the headers of the format.
  lemma HeaderIsRfc1950(cmf: Octet, flg: Octet)
    ensures IsZlibHeader(cmf, flg) <==> Rfc1950Header(cmf as int, flg as int)
  {
    hide Rfc1950Header;
    LowNibble(cmf);
    HighNibble(cmf);
    DictionaryBit(flg);
    FieldsOf(cmf as int, flg as int);
  }

  // ---------------------------------------------------------------- the profile result

  const DESCRIPTORS_PER_BACKEND: nat := 8

  function BackendIndex(b: Backend): (i: nat)
    ensures i < 6
  {
    match b
    case Stock => 0
    case Zlib => 1
    case ZlibNg => 2
    case Isal => 3
    case HybridZlibNg => 4
    case HybridIsal => 5
  }

  function ProfileAdmission(b: Backend): nat { BackendIndex(b) * DESCRIPTORS_PER_BACKEND }

  function ProfileResult(b: Backend, policy: Policy, reason: Reason): nat {
    if policy.Whole? then ProfileAdmission(b) + 1
    else
      match reason
      case None => MAX32
      case NoWhole => ProfileAdmission(b) + 2
      case Format => ProfileAdmission(b) + 3
      case Request => ProfileAdmission(b) + 4
      case Allocation => ProfileAdmission(b) + 5
      case Decode => ProfileAdmission(b) + 6
      case Capacity => ProfileAdmission(b) + 7
  }

  // ---------------------------------------------------------------- the parts of the operations

  function Bytes(memory: nat -> Octet, at: nat, n: nat): seq<Octet> {
    seq(n, k requires 0 <= k < n => memory(at + k))
  }

  function BigEndian(b: seq<Octet>): nat
    requires |b| == 4
  {
    ((b[0] as int * 256 + b[1] as int) * 256 + b[2] as int) * 256 + b[3] as int
  }

  function Note(s: Owned, e: Event): Owned { s.(log := s.log + [e]) }

  function ProfileEnd(cfg: Config, s: Owned): Owned {
    if s.token.Live? then
      Note(s.(token := Empty), Ended(s.elapsed, s.view.totalOut, ProfileResult(cfg.backend, s.outcome, s.reason)))
    else s
  }

  function ResetView(cfg: Config, s: Owned, checksum: nat): Owned {
    var t := if cfg.profiled then ProfileEnd(cfg, s).(token := Absent, hasSource := false, elapsed := 0) else s;
    Note(t.(policy := Undecided, outcome := Streaming, reason := if cfg.hasWhole then Request else NoWhole,
            view := t.view.(totalIn := 0, totalOut := 0, message := false, dataType := 2, adler := checksum)),
         Boundary)
  }

  function Begin(s: Owned, source: bool, sampled: bool): Owned {
    if !s.token.Absent? then s
    else if source && sampled then Note(s.(hasSource := true, token := Live), Admitted)
    else s.(hasSource := source, token := Empty)
  }

  function Served(v: View, input: seq<Octet>, r: WholeResult): View
    requires 6 <= r.consumed <= |input| && v.availIn == |input| && r.produced <= v.availOut
  {
    v.(adler := BigEndian(input[r.consumed - 4..r.consumed]),
       nextIn := v.nextIn + r.consumed,
       availIn := v.availIn - r.consumed,
       totalIn := (v.totalIn + r.consumed) % W32,
       nextOut := v.nextOut + r.produced,
       availOut := v.availOut - r.produced,
       totalOut := (v.totalOut + r.produced) % W32,
       message := false,
       dataType := 64)
  }

  // The first decompression call of a lifetime settles which decoder serves it.
  function ChoosePolicy(cfg: Config, s: Owned, flush: int, input: seq<Octet>, r: WholeResult): Owned
    requires |input| == s.view.availIn
  {
    var t := s.(policy := Streaming);
    if !cfg.hasWhole then t.(reason := NoWhole)
    else if s.windowBits < 0 || s.windowBits > 15 || !HasZlibHeader(input)
            || (s.windowBits != 0 && (input[0] >> 4) as int + 8 > s.windowBits) then t.(reason := Format)
    else if flush > 4 || s.view.availOut == 0 then t.(reason := Request)
    else if s.view.availOut < s.view.availIn then t.(reason := Capacity)
    else if r.status.Success? then
      if r.consumed < 6 || r.consumed > |input| || r.produced > s.view.availOut then t.(reason := Decode)
      else s.(policy := Done, outcome := Whole, reason := None, view := Served(s.view, input, r))
    else if r.codec == MAX32 then t.(reason := Allocation)
    else if r.status.InsufficientSpace? then t.(reason := Capacity)
    else t.(reason := Decode)
  }

  lemma ChoosePolicyKeepsToken(cfg: Config, s: Owned, flush: int, input: seq<Octet>, r: WholeResult)
    requires |input| == s.view.availIn
    ensures var t := ChoosePolicy(cfg, s, flush, input, r);
            t.token == s.token && t.hasSource == s.hasSource && t.elapsed == s.elapsed && t.log == s.log
  {}

  // A control operation is native: it commits an undecided stream to the streaming decoder.
  function NativeOperation(s: Owned): Owned {
    if s.policy.Undecided? then s.(policy := Streaming, outcome := Streaming, reason := Request) else s
  }

  function Complete(cfg: Config, s: Owned, code: int): Owned {
    if cfg.profiled && (code == INFLATE_END || (code < 0 && code != INFLATE_BUF_ERROR)) then ProfileEnd(cfg, s)
    else s
  }

  predicate WellFormed(v: View, flush: int) {
    0 <= flush <= 6 && v.nextOut != 0 && (v.availIn == 0 || v.nextIn != 0)
  }

  // ---------------------------------------------------------------- the operations

  /** What a caller does with a live stream. `Refill` is the caller moving its own buffers between calls;
  the other fields are the answers the operation gets from outside. */
  datatype Call =
    | Refill(view: View)
    | Inflate(flush: int, memory: nat -> Octet, source: bool, sampled: bool, start: nat, finish: nat,
              whole: WholeResult, streamed: View, code: int)
    | Reset(code: int, checksum: nat)
    | Reset2(bits: int, code: int, checksum: nat)
    | ResetKeep(code: int, checksum: nat)
    | Control(supported: bool, moved: View, code: int)
    | GetHeader(hasHeader: bool, supported: bool, code: int)
    | Mark(code: int)

  function InflateBody(cfg: Config, s: Owned, c: Call): (r: (Owned, int))
    requires c.Inflate?
  {
    if !WellFormed(s.view, c.flush) then (s, INFLATE_STREAM_ERROR)
    else
      var t := if s.policy.Undecided?
               then ChoosePolicy(cfg, s, c.flush, Bytes(c.memory, s.view.nextIn, s.view.availIn), c.whole) else s;
      if t.policy.Done? then (t, INFLATE_END) else (t.(view := c.streamed), c.code)
  }

  function Interval(start: nat, finish: nat): nat { if finish > start then finish - start else 0 }

  // The call is measured when its lifetime holds a live token as the call starts.
  function Measured(s: Owned, start: nat, finish: nat): Owned {
    Note(if s.token.Live? then s.(elapsed := (s.elapsed + Interval(start, finish)) % W64) else s,
         Inflated(start, finish))
  }

  function ControlStep(cfg: Config, s: Owned, supported: bool, moved: View, code: int): (Owned, int) {
    var t := NativeOperation(s);
    if supported && t.policy.Streaming? then
      var u := t.(view := moved);
      (if code < 0 then Complete(cfg, u, code) else u, code)
    else (Complete(cfg, if supported then t else s, INFLATE_STREAM_ERROR), INFLATE_STREAM_ERROR)
  }

  function Step(cfg: Config, s: Owned, c: Call): (Owned, int) {
    match c
    case Refill(view) => (s.(view := view), INFLATE_OK)
    case Inflate(_, _, source, sampled, start, finish, _, _, _) =>
      var r := InflateBody(cfg, if cfg.profiled then Begin(s, source, sampled) else s, c);
      (Complete(cfg, Measured(r.0, start, finish), r.1), r.1)
    case Reset(code, checksum) =>
      (Complete(cfg, if code == INFLATE_OK then ResetView(cfg, s, checksum) else s, code), code)
    case Reset2(bits, code, checksum) =>
      (Complete(cfg, if code == INFLATE_OK then ResetView(cfg, s.(windowBits := bits), checksum) else s, code), code)
    case ResetKeep(code, checksum) =>
      var t := if cfg.profiled then ProfileEnd(cfg, s) else s;
      if !cfg.resetKeep then (t, INFLATE_STREAM_ERROR)
      else
        var u := NativeOperation(t);
        if !u.policy.Streaming? then (u, INFLATE_STREAM_ERROR)
        else if code == INFLATE_OK then (ResetView(cfg, u, checksum).(policy := Streaming, reason := Request), code)
        else (u, code)
    case Control(supported, moved, code) => ControlStep(cfg, s, supported, moved, code)
    case GetHeader(hasHeader, supported, code) =>
      if !hasHeader then (Complete(cfg, s, INFLATE_STREAM_ERROR), INFLATE_STREAM_ERROR)
      else ControlStep(cfg, s, supported, s.view, code)
    case Mark(code) =>
      if !cfg.mark then (Complete(cfg, s, INFLATE_STREAM_ERROR), INFLATE_STREAM_ERROR)
      else
        var t := NativeOperation(s);
        if t.policy.Streaming? then (t, code) else (Complete(cfg, t, INFLATE_STREAM_ERROR), INFLATE_STREAM_ERROR)
  }

  function Fresh(view: View, bits: int): Owned {
    Owned(view, bits, Undecided, Streaming, None, Absent, false, 0, [])
  }

  function Initialised(cfg: Config, view: View, bits: int, checksum: nat): Owned {
    ResetView(cfg, Fresh(view, bits), checksum)
  }

  // A copy takes the policy of its source but starts a lifetime of its own.
  function Copied(s: Owned): Owned {
    s.(token := Absent, hasSource := false, elapsed := 0, log := [Boundary])
  }

  function EndOf(cfg: Config, s: Owned): Owned {
    Note(if cfg.profiled then ProfileEnd(cfg, s) else s, Boundary)
  }

  function Run(cfg: Config, s: Owned, calls: seq<Call>): Owned
    decreases |calls|
  {
    if calls == [] then s else Run(cfg, Step(cfg, s, calls[0]).0, calls[1..])
  }

  // ---------------------------------------------------------------- what every reachable state keeps

  ghost predicate PolicyInv(cfg: Config, s: Owned) {
    match s.policy
    case Undecided => s.outcome.Streaming? && s.reason == if cfg.hasWhole then Request else NoWhole
    case Streaming => s.outcome.Streaming? && !s.reason.None?
    case Done => s.outcome.Whole? && s.reason.None? && cfg.hasWhole
    case Whole => false
  }

  /** A reader of the log alone: a token may be admitted only at the start of a lifetime, must be ended
  before the lifetime is over, and must be ended with the time of every decompression call since. */
  datatype Phase = Unused | Unsampled | Running(sum: nat) | Closed | Broken

  function Next(p: Phase, e: Event): Phase {
    match e
    case Boundary => if p.Running? || p.Broken? then Broken else Unused
    case Admitted => if p.Unused? then Running(0) else Broken
    case Inflated(start, finish) =>
      if p.Running? then Running(p.sum + Interval(start, finish)) else if p.Unused? then Unsampled else p
    case Ended(duration, _, _) => if p.Running? && duration == p.sum % W64 then Closed else Broken
  }

  function PhaseOf(log: seq<Event>): Phase {
    if log == [] then Unused else Next(PhaseOf(log[..|log| - 1]), log[|log| - 1])
  }

  // Every record names how the stream was served, inside the block of its backend.
  ghost predicate Named(cfg: Config, log: seq<Event>) {
    forall i :: 0 <= i < |log| && log[i].Ended? ==>
      ProfileAdmission(cfg.backend) < log[i].result < ProfileAdmission(cfg.backend) + DESCRIPTORS_PER_BACKEND
  }

  ghost predicate TokenInv(cfg: Config, s: Owned) {
    && Named(cfg, s.log)
    && !PhaseOf(s.log).Broken?
    && (s.token.Live? <==> PhaseOf(s.log).Running?)
    && (s.token.Live? ==> cfg.profiled && s.hasSource && s.elapsed == PhaseOf(s.log).sum % W64)
    && (s.token.Absent? ==> s.elapsed == 0 && !s.hasSource)
    && (if cfg.profiled then s.token.Absent? <==> PhaseOf(s.log).Unused? else s.token.Absent?)
  }

  ghost predicate Inv(cfg: Config, s: Owned) { PolicyInv(cfg, s) && TokenInv(cfg, s) }

  lemma NoteKeepsNamed(cfg: Config, s: Owned, e: Event)
    requires Named(cfg, s.log)
    requires e.Ended? ==>
               ProfileAdmission(cfg.backend) < e.result < ProfileAdmission(cfg.backend) + DESCRIPTORS_PER_BACKEND
    ensures Named(cfg, Note(s, e).log) && PhaseOf(Note(s, e).log) == Next(PhaseOf(s.log), e)
  {
    assert Note(s, e).log[..|s.log|] == s.log;
  }

  lemma AddWrapped(sum: nat, more: nat)
    ensures (sum % W64 + more) % W64 == (sum + more) % W64
  {}

  lemma ProfileEndKeepsInv(cfg: Config, s: Owned)
    requires Inv(cfg, s)
    ensures Inv(cfg, ProfileEnd(cfg, s)) && !ProfileEnd(cfg, s).token.Live?
  {
    hide PhaseOf, Named;
    if s.token.Live? {
      NoteKeepsNamed(cfg, s.(token := Empty),
                     Ended(s.elapsed, s.view.totalOut, ProfileResult(cfg.backend, s.outcome, s.reason)));
    }
  }

  lemma ResetViewKeepsInv(cfg: Config, s: Owned, checksum: nat)
    requires Inv(cfg, s)
    ensures Inv(cfg, ResetView(cfg, s, checksum)) && ResetView(cfg, s, checksum).policy.Undecided?
  {
    hide PhaseOf, Named, ProfileEnd;
    ProfileEndKeepsInv(cfg, s);
    var t := if cfg.profiled then ProfileEnd(cfg, s).(token := Absent, hasSource := false, elapsed := 0) else s;
    NoteKeepsNamed(cfg, t, Boundary);
  }

  lemma BeginKeepsInv(cfg: Config, s: Owned, source: bool, sampled: bool)
    requires Inv(cfg, s) && cfg.profiled
    ensures var t := Begin(s, source, sampled);
            && PolicyInv(cfg, t) && Named(cfg, t.log) && !PhaseOf(t.log).Broken? && !t.token.Absent?
            && (t.token.Live? <==> PhaseOf(t.log).Running?)
            && (t.token.Live? ==> t.hasSource && t.elapsed == PhaseOf(t.log).sum % W64)
  {
    hide PhaseOf, Named;
    if s.token.Absent? && source && sampled {
      NoteKeepsNamed(cfg, s, Admitted);
    }
  }

  lemma MeasuredKeepsInv(cfg: Config, s: Owned, start: nat, finish: nat)
    requires PolicyInv(cfg, s) && Named(cfg, s.log) && !PhaseOf(s.log).Broken?
    requires s.token.Live? <==> PhaseOf(s.log).Running?
    requires s.token.Live? ==> cfg.profiled && s.hasSource && s.elapsed == PhaseOf(s.log).sum % W64
    requires s.token.Absent? ==> s.elapsed == 0 && !s.hasSource
    requires s.token.Absent? <==> !cfg.profiled
    ensures Inv(cfg, Measured(s, start, finish))
  {
    hide PhaseOf, Named;
    var t := if s.token.Live? then s.(elapsed := (s.elapsed + Interval(start, finish)) % W64) else s;
    NoteKeepsNamed(cfg, t, Inflated(start, finish));
    if s.token.Live? {
      AddWrapped(PhaseOf(s.log).sum, Interval(start, finish));
    }
  }

  lemma InflateBodyKeepsPolicy(cfg: Config, s: Owned, c: Call)
    requires c.Inflate? && PolicyInv(cfg, s)
    ensures var t := InflateBody(cfg, s, c).0;
            && PolicyInv(cfg, t)
            && t.token == s.token && t.hasSource == s.hasSource && t.elapsed == s.elapsed && t.log == s.log
  {}

  lemma CompleteKeepsInv(cfg: Config, s: Owned, code: int)
    requires Inv(cfg, s)
    ensures Inv(cfg, Complete(cfg, s, code))
  {}

  lemma ControlKeepsInv(cfg: Config, s: Owned, supported: bool, moved: View, code: int)
    requires Inv(cfg, s)
    ensures Inv(cfg, ControlStep(cfg, s, supported, moved, code).0)
  {
    hide PhaseOf, Named, ProfileEnd;
    var t := NativeOperation(s);
    CompleteKeepsInv(cfg, t.(view := moved), code);
    CompleteKeepsInv(cfg, t, INFLATE_STREAM_ERROR);
    CompleteKeepsInv(cfg, s, INFLATE_STREAM_ERROR);
  }

  // Every operation, whatever it is answered, keeps the policy rules and the token discipline.
  lemma StepKeepsInv(cfg: Config, s: Owned, c: Call)
    requires Inv(cfg, s)
    ensures Inv(cfg, Step(cfg, s, c).0)
  {
    hide PhaseOf, Named, ProfileEnd, Begin, InflateBody, Measured, Complete, ResetView, ControlStep;
    match c
    case Refill(_) =>
    case Inflate(_, _, source, sampled, start, finish, _, _, _) =>
      if cfg.profiled {
        BeginKeepsInv(cfg, s, source, sampled);
      }
      var t := if cfg.profiled then Begin(s, source, sampled) else s;
      InflateBodyKeepsPolicy(cfg, t, c);
      var r := InflateBody(cfg, t, c);
      MeasuredKeepsInv(cfg, r.0, start, finish);
      CompleteKeepsInv(cfg, Measured(r.0, start, finish), r.1);
    case Reset(code, checksum) =>
      ResetViewKeepsInv(cfg, s, checksum);
      CompleteKeepsInv(cfg, if code == INFLATE_OK then ResetView(cfg, s, checksum) else s, code);
    case Reset2(bits, code, checksum) =>
      var t := s.(windowBits := bits);
      ResetViewKeepsInv(cfg, t, checksum);
      CompleteKeepsInv(cfg, if code == INFLATE_OK then ResetView(cfg, t, checksum) else s, code);
    case ResetKeep(code, checksum) =>
      ProfileEndKeepsInv(cfg, s);
      var t := if cfg.profiled then ProfileEnd(cfg, s) else s;
      var u := NativeOperation(t);
      ResetViewKeepsInv(cfg, u, checksum);
    case Control(supported, moved, code) => ControlKeepsInv(cfg, s, supported, moved, code);
    case GetHeader(_, supported, code) =>
      ControlKeepsInv(cfg, s, supported, s.view, code);
      CompleteKeepsInv(cfg, s, INFLATE_STREAM_ERROR);
    case Mark(_) =>
      CompleteKeepsInv(cfg, NativeOperation(s), INFLATE_STREAM_ERROR);
      CompleteKeepsInv(cfg, s, INFLATE_STREAM_ERROR);
  }

  lemma {:induction false} RunKeepsInv(cfg: Config, s: Owned, calls: seq<Call>)
    requires Inv(cfg, s)
    ensures Inv(cfg, Run(cfg, s, calls))
    decreases |calls|
  {
    hide Inv, Step;
    if calls != [] {
      StepKeepsInv(cfg, s, calls[0]);
      RunKeepsInv(cfg, Step(cfg, s, calls[0]).0, calls[1..]);
    }
  }

  lemma InitialisedInv(cfg: Config, view: View, bits: int, checksum: nat)
    ensures Inv(cfg, Initialised(cfg, view, bits, checksum))
  {}

  lemma CopiedInv(cfg: Config, s: Owned)
    requires Inv(cfg, s)
    ensures Inv(cfg, Copied(s))
  {}

  lemma EndInv(cfg: Config, s: Owned)
    requires Inv(cfg, s)
    ensures Named(cfg, EndOf(cfg, s).log) && PhaseOf(EndOf(cfg, s).log).Unused?
  {
    hide PhaseOf, Named, ProfileEnd;
    ProfileEndKeepsInv(cfg, s);
    NoteKeepsNamed(cfg, if cfg.profiled then ProfileEnd(cfg, s) else s, Boundary);
  }

  // ---------------------------------------------------------------- the whole decoder

  // The header the whole decoder may be given: a zlib header whose window the stream allows.
  ghost predicate Eligible(bits: int, input: seq<Octet>) {
    && 0 <= bits <= 15
    && |input| >= 2
    && Rfc1950Header(input[0] as int, input[1] as int)
    && (bits == 0 || input[0] as int / 16 + 8 <= bits)
  }

  lemma EligibleIsChecked(bits: int, input: seq<Octet>)
    ensures Eligible(bits, input) <==>
              0 <= bits <= 15 && HasZlibHeader(input) && (bits == 0 || (input[0] >> 4) as int + 8 <= bits)
  {
    if |input| >= 2 {
      HeaderIsRfc1950(input[0], input[1]);
      HighShift(input[0]);
    }
  }

  lemma HighShift(b: Octet)
    ensures (b >> 4) as int == b as int / 16
  {}

  /** When the first call of a lifetime is served whole; otherwise the stream is untouched, and the reason names
  the first step towards a whole decode that failed. */
  lemma ServedExactly(cfg: Config, s: Owned, flush: int, input: seq<Octet>, r: WholeResult)
    requires s.policy.Undecided? && |input| == s.view.availIn
    ensures var v, t := s.view, ChoosePolicy(cfg, s, flush, input, r);
            var eligible := cfg.hasWhole && Eligible(s.windowBits, input);
            var asked := eligible && flush <= 4 && 0 < v.availOut;
            var tried := asked && v.availIn <= v.availOut;
            var plausible := 6 <= r.consumed <= v.availIn && r.produced <= v.availOut;
            && (t.policy.Done? <==> tried && r.status.Success? && plausible)
            && (!t.policy.Done? ==> t.policy.Streaming? && t.view == v)
            && (t.reason.NoWhole? <==> !cfg.hasWhole)
            && (t.reason.Format? <==> cfg.hasWhole && !eligible)
            && (t.reason.Request? <==> eligible && !asked)
            && (t.reason.Allocation? <==> tried && !r.status.Success? && r.codec == MAX32)
            && (t.reason.Decode? <==>
                  tried && (if r.status.Success? then !plausible else r.status.BadData? && r.codec != MAX32))
  {
    hide Eligible, HasZlibHeader, Served;
    EligibleIsChecked(s.windowBits, input);
  }

  // A whole decode moves bytes from available to total on both sides and loses none.
  lemma ServedConserves(v: View, input: seq<Octet>, r: WholeResult)
    requires 6 <= r.consumed <= |input| && v.availIn == |input| && r.produced <= v.availOut
    ensures var w := Served(v, input, r);
            && w.nextIn + w.availIn == v.nextIn + v.availIn && w.nextOut + w.availOut == v.nextOut + v.availOut
            && (w.availIn + w.totalIn) % W32 == (v.availIn + v.totalIn) % W32
            && (w.availOut + w.totalOut) % W32 == (v.availOut + v.totalOut) % W32
            && (v.availIn + v.totalIn < W32 ==> w.availIn + w.totalIn == v.availIn + v.totalIn)
            && (v.availOut + v.totalOut < W32 ==> w.availOut + w.totalOut == v.availOut + v.totalOut)
            && w.adler < W32
  {}

  // ---------------------------------------------------------------- a finished stream stays finished

  predicate Restarts(c: Call) { (c.Reset? || c.Reset2?) && c.code == INFLATE_OK }

  lemma DoneStep(cfg: Config, s: Owned, c: Call)
    requires s.policy.Done? && !Restarts(c)
    ensures Step(cfg, s, c).0.policy.Done?
    ensures !c.Refill? ==> Step(cfg, s, c).0.view == s.view
    ensures c.ResetKeep? || c.Control? || c.GetHeader? || c.Mark? ==> Step(cfg, s, c).1 == INFLATE_STREAM_ERROR
    ensures c.Inflate? ==> Step(cfg, s, c).1 ==
                           if WellFormed(s.view, c.flush) then INFLATE_END else INFLATE_STREAM_ERROR
  {}

  /** From the whole decode until a successful `Reset` or `Reset2`, whatever else is called: native
  operations and `ResetKeep` fail, well-formed decompression returns the end, and only the caller moves
  the stream. */
  lemma {:induction false} DoneUntilReset(cfg: Config, s: Owned, calls: seq<Call>, c: Call)
    requires s.policy.Done? && !Restarts(c) && forall i :: 0 <= i < |calls| ==> !Restarts(calls[i])
    ensures var t := Run(cfg, s, calls);
            && t.policy.Done?
            && (!c.Refill? ==> Step(cfg, t, c).0.view == t.view)
            && (c.ResetKeep? || c.Control? || c.GetHeader? || c.Mark? ==> Step(cfg, t, c).1 == INFLATE_STREAM_ERROR)
            && (c.Inflate? ==> Step(cfg, t, c).1 ==
                               if WellFormed(t.view, c.flush) then INFLATE_END else INFLATE_STREAM_ERROR)
    decreases |calls|
  {
    hide Step;
    if calls == [] {
      DoneStep(cfg, s, c);
    } else {
      DoneStep(cfg, s, calls[0]);
      DoneUntilReset(cfg, Step(cfg, s, calls[0]).0, calls[1..], c);
    }
  }

  // ---------------------------------------------------------------- a reset stream is a new stream

  function Prepend(before: seq<Event>, s: Owned): Owned { s.(log := before + s.log) }

  lemma NoteAfter(before: seq<Event>, s: Owned, e: Event)
    ensures Note(Prepend(before, s), e) == Prepend(before, Note(s, e))
  {
    assert before + (s.log + [e]) == (before + s.log) + [e];
  }

  lemma ProfileEndAfter(cfg: Config, before: seq<Event>, s: Owned)
    ensures ProfileEnd(cfg, Prepend(before, s)) == Prepend(before, ProfileEnd(cfg, s))
  {
    NoteAfter(before, s.(token := Empty),
              Ended(s.elapsed, s.view.totalOut, ProfileResult(cfg.backend, s.outcome, s.reason)));
  }

  lemma CompleteAfter(cfg: Config, before: seq<Event>, s: Owned, code: int)
    ensures Complete(cfg, Prepend(before, s), code) == Prepend(before, Complete(cfg, s, code))
  {
    hide ProfileEnd;
    ProfileEndAfter(cfg, before, s);
  }

  lemma ResetViewAfter(cfg: Config, before: seq<Event>, s: Owned, checksum: nat)
    ensures ResetView(cfg, Prepend(before, s), checksum) == Prepend(before, ResetView(cfg, s, checksum))
  {
    hide ProfileEnd;
    ProfileEndAfter(cfg, before, s);
    var t := if cfg.profiled then ProfileEnd(cfg, s).(token := Absent, hasSource := false, elapsed := 0) else s;
    NoteAfter(before, t.(policy := Undecided, outcome := Streaming, reason := if cfg.hasWhole then Request else NoWhole,
                         view := t.view.(totalIn := 0, totalOut := 0, message := false, dataType := 2,
                                         adler := checksum)),
              Boundary);
  }

  lemma BeginAfter(before: seq<Event>, s: Owned, source: bool, sampled: bool)
    ensures Begin(Prepend(before, s), source, sampled) == Prepend(before, Begin(s, source, sampled))
  {
    NoteAfter(before, s.(hasSource := true, token := Live), Admitted);
  }

  lemma ChooseAfter(cfg: Config, before: seq<Event>, s: Owned, flush: int, input: seq<Octet>, r: WholeResult)
    requires |input| == s.view.availIn
    ensures ChoosePolicy(cfg, Prepend(before, s), flush, input, r)
              == Prepend(before, ChoosePolicy(cfg, s, flush, input, r))
  {
    hide IsZlibHeader, Served;
  }

  lemma BodyAfter(cfg: Config, before: seq<Event>, s: Owned, c: Call)
    requires c.Inflate?
    ensures var r := InflateBody(cfg, s, c); InflateBody(cfg, Prepend(before, s), c) == (Prepend(before, r.0), r.1)
  {
    hide ChoosePolicy;
    ChooseAfter(cfg, before, s, c.flush, Bytes(c.memory, s.view.nextIn, s.view.availIn), c.whole);
  }

  lemma MeasuredAfter(before: seq<Event>, s: Owned, start: nat, finish: nat)
    ensures Measured(Prepend(before, s), start, finish) == Prepend(before, Measured(s, start, finish))
  {
    NoteAfter(before, if s.token.Live? then s.(elapsed := (s.elapsed + Interval(start, finish)) % W64) else s,
              Inflated(start, finish));
  }

  lemma InflateAfter(cfg: Config, before: seq<Event>, s: Owned, c: Call)
    requires c.Inflate?
    ensures Step(cfg, Prepend(before, s), c) == (Prepend(before, Step(cfg, s, c).0), Step(cfg, s, c).1)
  {
    hide Complete, Begin, InflateBody, Measured;
    BeginAfter(before, s, c.source, c.sampled);
    var t := if cfg.profiled then Begin(s, c.source, c.sampled) else s;
    BodyAfter(cfg, before, t, c);
    var r := InflateBody(cfg, t, c);
    MeasuredAfter(before, r.0, c.start, c.finish);
    CompleteAfter(cfg, before, Measured(r.0, c.start, c.finish), r.1);
  }

  lemma ControlAfter(cfg: Config, before: seq<Event>, s: Owned, supported: bool, moved: View, code: int)
    ensures var r := ControlStep(cfg, s, supported, moved, code);
            ControlStep(cfg, Prepend(before, s), supported, moved, code) == (Prepend(before, r.0), r.1)
  {
    hide Complete;
    var t := NativeOperation(s);
    CompleteAfter(cfg, before, t.(view := moved), code);
    CompleteAfter(cfg, before, t, INFLATE_STREAM_ERROR);
    CompleteAfter(cfg, before, s, INFLATE_STREAM_ERROR);
  }

  // What an operation does depends on nothing that was logged before.
  lemma StepAfter(cfg: Config, before: seq<Event>, s: Owned, c: Call)
    ensures Step(cfg, Prepend(before, s), c) == (Prepend(before, Step(cfg, s, c).0), Step(cfg, s, c).1)
  {
    hide Complete, ProfileEnd, ResetView, ControlStep, InflateBody, Begin, Measured;
    match c
    case Refill(_) =>
    case Inflate(_, _, _, _, _, _, _, _, _) => InflateAfter(cfg, before, s, c);
    case Reset(code, checksum) =>
      ResetViewAfter(cfg, before, s, checksum);
      CompleteAfter(cfg, before, if code == INFLATE_OK then ResetView(cfg, s, checksum) else s, code);
    case Reset2(bits, code, checksum) =>
      var t := s.(windowBits := bits);
      ResetViewAfter(cfg, before, t, checksum);
      CompleteAfter(cfg, before, if code == INFLATE_OK then ResetView(cfg, t, checksum) else s, code);
    case ResetKeep(code, checksum) =>
      ProfileEndAfter(cfg, before, s);
      ResetViewAfter(cfg, before, NativeOperation(if cfg.profiled then ProfileEnd(cfg, s) else s), checksum);
    case Control(supported, moved, code) => ControlAfter(cfg, before, s, supported, moved, code);
    case GetHeader(_, supported, code) =>
      ControlAfter(cfg, before, s, supported, s.view, code);
      CompleteAfter(cfg, before, s, INFLATE_STREAM_ERROR);
    case Mark(_) =>
      CompleteAfter(cfg, before, NativeOperation(s), INFLATE_STREAM_ERROR);
      CompleteAfter(cfg, before, s, INFLATE_STREAM_ERROR);
  }

  // What was logged stays.
  lemma LogGrows(cfg: Config, s: Owned, c: Call)
    ensures s.log <= Step(cfg, s, c).0.log
  {
    hide Step;
    var bare := s.(log := []);
    assert Prepend(s.log, bare) == s;
    StepAfter(cfg, s.log, bare, c);
  }

  lemma {:induction false} RunAfter(cfg: Config, before: seq<Event>, s: Owned, calls: seq<Call>)
    ensures Run(cfg, Prepend(before, s), calls) == Prepend(before, Run(cfg, s, calls))
    decreases |calls|
  {
    hide Step, Prepend;
    if calls != [] {
      StepAfter(cfg, before, s, calls[0]);
      RunAfter(cfg, before, Step(cfg, s, calls[0]).0, calls[1..]);
    }
  }

  // Whatever happened before, a stream that was reset goes on exactly as a stream just initialised.
  lemma ResetForgets(cfg: Config, s: Owned, bits: int, checksum: nat, calls: seq<Call>) returns (before: seq<Event>)
    requires Inv(cfg, s)
    ensures Run(cfg, Step(cfg, s, Reset2(bits, INFLATE_OK, checksum)).0, calls)
            == Prepend(before, Run(cfg, Initialised(cfg, s.view, bits, checksum), calls))
    ensures bits == s.windowBits ==>
              Step(cfg, s, Reset(INFLATE_OK, checksum)) == Step(cfg, s, Reset2(bits, INFLATE_OK, checksum))
  {
    before := if cfg.profiled then ProfileEnd(cfg, s).log else s.log;
    var initial := Initialised(cfg, s.view, bits, checksum);
    assert initial.log == [Boundary];
    assert Step(cfg, s, Reset2(bits, INFLATE_OK, checksum)).0 == Prepend(before, initial);
    RunAfter(cfg, before, initial, calls);
  }

  // The results of a run of calls, one for each.
  function Codes(cfg: Config, s: Owned, calls: seq<Call>): (codes: seq<int>)
    ensures |codes| == |calls|
    decreases |calls|
  {
    if calls == [] then [] else [Step(cfg, s, calls[0]).1] + Codes(cfg, Step(cfg, s, calls[0]).0, calls[1..])
  }

  // The result a finished stream gives, as far as it is the stream's own.
  predicate FinishedAnswer(view: View, c: Call, code: int) {
    && (c.ResetKeep? || c.Control? || c.GetHeader? || c.Mark? ==> code == INFLATE_STREAM_ERROR)
    && (c.Inflate? ==> code == if WellFormed(view, c.flush) then INFLATE_END else INFLATE_STREAM_ERROR)
  }

  lemma {:induction false} FinishedCodes(cfg: Config, s: Owned, calls: seq<Call>, i: nat)
    requires s.policy.Done? && i < |calls| && forall j :: 0 <= j < |calls| ==> !Restarts(calls[j])
    ensures FinishedAnswer(Run(cfg, s, calls[..i]).view, calls[i], Codes(cfg, s, calls)[i])
    decreases i
  {
    hide Step;
    DoneStep(cfg, s, calls[0]);
    if i > 0 {
      assert calls[..i][1..] == calls[1..][..i - 1];
      FinishedCodes(cfg, Step(cfg, s, calls[0]).0, calls[1..], i - 1);
    }
  }

  lemma {:induction false} RunMore(cfg: Config, s: Owned, calls: seq<Call>, c: Call)
    ensures Run(cfg, s, calls + [c]) == Step(cfg, Run(cfg, s, calls), c).0
    ensures Codes(cfg, s, calls + [c]) == Codes(cfg, s, calls) + [Step(cfg, Run(cfg, s, calls), c).1]
    decreases |calls|
  {
    hide Step;
    if calls == [] {
      assert [c][1..] == [];
    } else {
      assert (calls + [c])[1..] == calls[1..] + [c];
      RunMore(cfg, Step(cfg, s, calls[0]).0, calls[1..], c);
    }
  }

  // ---------------------------------------------------------------- every token is ended once

  // The time of the decompression calls logged in positions `i` to `j`.
  function Total(log: seq<Event>, i: nat, j: nat): nat
    requires i <= j <= |log|
  {
    if i == j then 0
    else Total(log, i, j - 1)
         + if log[j - 1].Inflated? then Interval(log[j - 1].start, log[j - 1].finish) else 0
  }

  lemma {:induction false} PrefixSound(log: seq<Event>, n: nat)
    requires n <= |log| && !PhaseOf(log).Broken?
    ensures !PhaseOf(log[..n]).Broken?
    decreases |log|
  {
    if n < |log| {
      PrefixSound(log[..|log| - 1], n);
      assert log[..|log| - 1][..n] == log[..n];
    } else {
      assert log[..n] == log;
    }
  }

  lemma PhaseAt(log: seq<Event>, n: nat)
    requires n < |log|
    ensures PhaseOf(log[..n + 1]) == Next(PhaseOf(log[..n]), log[n])
  {
    assert log[..n + 1][..n] == log[..n];
  }

  // Between an admission and the end of its lifetime: still running with the time so far, or ended at `k`.
  lemma {:induction false} SinceAdmission(log: seq<Event>, i: nat, n: nat) returns (k: nat)
    requires i < n <= |log| && !PhaseOf(log).Broken? && log[i].Admitted?
    requires forall m :: i < m < n ==> !log[m].Boundary?
    ensures forall m :: i < m < n ==> !log[m].Admitted?
    ensures k == 0 ==> PhaseOf(log[..n]) == Running(Total(log, i, n)) && forall m :: i < m < n ==> !log[m].Ended?
    ensures k != 0 ==> PhaseOf(log[..n]).Closed? && EndsOnlyAt(log, i, k, n)
    decreases n
  {
    PrefixSound(log, n);
    PrefixSound(log, n - 1);
    PhaseAt(log, n - 1);
    if n == i + 1 {
      k := 0;
    } else {
      k := SinceAdmission(log, i, n - 1);
      if log[n - 1].Ended? {
        k := n - 1;
      }
    }
  }

  ghost predicate EndsOnlyAt(log: seq<Event>, i: nat, k: nat, j: nat)
    requires i <= j <= |log|
  {
    && i < k < j && log[k].Ended? && log[k].duration == Total(log, i, k) % W64
    && forall m :: i < m < j && log[m].Ended? ==> m == k
  }

  lemma UnusedMeansUncalled(log: seq<Event>, n: nat, m: nat)
    requires m < n <= |log| && PhaseOf(log[..n]).Unused?
    requires forall b :: m < b < n ==> !log[b].Boundary?
    ensures log[m].Boundary?
  {}

  /** In every run of every stream: a token admitted at `i`, in the lifetime whose end is logged at `j`, was
  ended exactly once in between, with the time of every decompression call of that lifetime up to the
  ending one, and no other token was admitted in that lifetime. */
  lemma TokenEndedOnce(cfg: Config, s: Owned, calls: seq<Call>, i: nat, j: nat) returns (k: nat)
    requires Inv(cfg, s)
    requires var log := EndOf(cfg, Run(cfg, s, calls)).log;
             && i < j < |log| && log[i].Admitted? && log[j].Boundary?
             && forall m :: i < m < j ==> !log[m].Boundary?
    ensures var log := EndOf(cfg, Run(cfg, s, calls)).log;
            && EndsOnlyAt(log, i, k, j)
            && ProfileAdmission(cfg.backend) < log[k].result < ProfileAdmission(cfg.backend) + DESCRIPTORS_PER_BACKEND
            && (forall m :: i < m < j ==> !log[m].Admitted?)
            && (forall m :: 0 <= m < i && !log[m].Boundary? ==> exists b :: m < b < i && log[b].Boundary?)
  {
    RunKeepsInv(cfg, s, calls);
    EndInv(cfg, Run(cfg, s, calls));
    var log := EndOf(cfg, Run(cfg, s, calls)).log;
    k := SinceAdmission(log, i, j);
    PhaseAt(log, j);
    PrefixSound(log, j + 1);
    PhaseAt(log, i);
    PrefixSound(log, i + 1);
    forall m | 0 <= m < i && !log[m].Boundary?
      ensures exists b :: m < b < i && log[b].Boundary?
    {
      if forall b :: m < b < i ==> !log[b].Boundary? {
        UnusedMeansUncalled(log, i, m);
      }
    }
  }

  // The stream need not have been reset or ended yet: two records always belong to two lifetimes.
  lemma RecordsAreApart(cfg: Config, s: Owned, calls: seq<Call>, m: nat, n: nat)
    requires Inv(cfg, s)
    requires var log := Run(cfg, s, calls).log; m < n < |log| && log[m].Ended? && log[n].Ended?
    ensures var log := Run(cfg, s, calls).log; exists b :: m < b < n && log[b].Boundary?
  {
    RunKeepsInv(cfg, s, calls);
    EndsAreApart(Run(cfg, s, calls).log, m, n);
  }

  lemma EndsAreApart(log: seq<Event>, m: nat, n: nat)
    requires !PhaseOf(log).Broken? && m < n < |log| && log[m].Ended? && log[n].Ended?
    ensures exists b :: m < b < n && log[b].Boundary?
  {
    PrefixSound(log, m + 1);
    PhaseAt(log, m);
    PrefixSound(log, n + 1);
    PrefixSound(log, n);
    PhaseAt(log, n);
    if forall b :: m < b < n ==> !log[b].Boundary? {
      ClosedStaysClosed(log, m + 1, n);
    }
  }

  lemma {:induction false} ClosedStaysClosed(log: seq<Event>, m: nat, n: nat)
    requires m <= n <= |log| && PhaseOf(log[..m]).Closed? && !PhaseOf(log[..n]).Broken?
    requires forall b :: m <= b < n ==> !log[b].Boundary?
    ensures PhaseOf(log[..n]).Closed?
    decreases n
  {
    if m < n {
      PhaseAt(log, n - 1);
      ClosedStaysClosed(log, m, n - 1);
    }
  }
}
