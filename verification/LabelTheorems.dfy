/** What an accepted program means: where its label fields point, and which programs are accepted. */
module LabelTheorems {
  import opened Labels
  import opened LabelsCorrect
  import opened Options
  import opened Words

  // ---------------------------------------------------------------- reading fields back

  // A field as the processor reads it: little-endian, sign-extended.
  function SignedAt(code: seq<Byte>, f: Field): int
    requires f.off + f.size <= |code|
  {
    var v := ReadLE(code[f.off..f.off + f.size]);
    if f.size == 1 then Sext8(v) else Sext32(v)
  }

  // Relative to the end of its field, the reference arrives at the label plus its displacement.
  predicate Hits(code: seq<Byte>, f: Field, addr: nat)
    requires f.off + f.size <= |code|
  {
    (f.off + f.size + SignedAt(code, f) - addr - f.disp) % W64 == 0
  }

  // The distance to the label fits the field.
  predicate Reaches(f: Field, addr: nat) {
    var v := (addr - (f.off + f.size) + f.disp) % W64;
    if f.size == 1 then v <= 0x7F || W64 - 0x80 <= v else IsInInt32(v)
  }

  // A relative field that holds its bytes hits its label exactly when the distance fits.
  lemma FieldHits(code: seq<Byte>, f: Field, addr: nat, top: Uint64)
    requires f.relative && f.size in {1, 4} && f.off + f.size <= |code|
    requires code[f.off..f.off + f.size] == FieldBytes(f, addr, top)
    ensures Hits(code, f, addr) <==> Reaches(f, addr)
  {
    var d := addr - (f.off + f.size) + f.disp;
    var v := d % W64;
    if f.size == 1 {
      ReadLE1(v);
      SignedByte(v);
    } else {
      LE4(v);
      ReadLE4(v % W32);
      SignedWord(v);
    }
    hide ReadLE, LE;
    SameRemainder(d, SignedAt(code, f));
  }

  lemma SignedByte(v: Uint64)
    ensures var s := Sext8(v % 256);
            s % W64 == v <==> v <= 0x7F || W64 - 0x80 <= v
  {}

  lemma SignedWord(v: Uint64)
    ensures var s := Sext32(v % W32);
            s % W64 == v <==> IsInInt32(v)
  {}

  lemma SameRemainder(d: int, s: int)
    ensures s % W64 == d % W64 <==> (s - d) % W64 == 0
  {
    var q, r := d / W64, d % W64;
    assert s - d == s - r - q * W64;
    assert (s - d) % W64 == (s - r) % W64;
  }

  // ---------------------------------------------------------------- the filled code, byte by byte

  // Every bound field holds its bytes, and filling touches nothing but bound fields.
  lemma {:induction false} FillAt(code: seq<Byte>, fields: seq<Field>, bound: map<Binding, nat>, top: Uint64, lo: nat)
    requires Sorted(fields, lo, |code|)
    ensures var r := Fill(code, fields, bound, top);
            && (forall f :: f in fields && f.target in bound ==>
                  f.off + f.size <= |r| && r[f.off..f.off + f.size] == FieldBytes(f, bound[f.target], top))
            && (forall i :: 0 <= i < |r| && Untouched(fields, bound, i) ==> r[i] == code[i])
            && (forall i :: 0 <= i < lo && i < |r| ==> r[i] == code[i])
    decreases |fields|
  {
    if fields != [] {
      var f, next := fields[0], fields[0].off + fields[0].size;
      var code' := if f.target in bound then Patch(code, f.off, FieldBytes(f, bound[f.target], top)) else code;
      var r := Fill(code, fields, bound, top);
      FillAt(code', fields[1..], bound, top, next);
      if f.target in bound {
        assert r[f.off..next] == code'[f.off..next] == FieldBytes(f, bound[f.target], top);
      }
      assert forall i :: Untouched(fields, bound, i) ==> Untouched(fields[1..], bound, i);
    }
  }

  ghost predicate Untouched(fields: seq<Field>, bound: map<Binding, nat>, i: int) {
    forall f :: f in fields && f.target in bound ==> !(f.off <= i < f.off + f.size)
  }

  // ---------------------------------------------------------------- accepted programs

  // Fields have the sizes that the generator emits.
  ghost predicate FieldSizes(l: Layout) {
    forall f :: f in l.fields ==> if f.relative then f.size in {1, 4} else f.size == 8
  }

  // The references that wait for b would reach it at addr.
  ghost predicate AllReach(fields: seq<Field>, b: Binding, addr: nat) {
    forall f :: f in fields && f.target == b && f.relative ==> Reaches(f, addr)
  }

  // The statements a program may continue with, told from the layout alone.
  ghost predicate Accepts(l: Layout, s: Stmt, limit: nat)
    requires |l.open| >= 2
  {
    && |LayOne(l, s).template| <= limit
    && match s
       case Raw(_) => true
       case Jump(r, jmpType, _, _, _) =>
         && (r == Name("@b") ==> l.anon > 0)
         && (Used(l, r) in l.bound ==>
               && |l.template| - l.bound[Used(l, r)] <= 0x8000_0000
               && (jmpType == Short ==> TakesShort(l, s, Used(l, r))))
       case RipField(r, disp) =>
         && (r == Name("@b") ==> l.anon > 0)
         && (Used(l, r) in l.bound ==> IsInInt32((l.bound[Used(l, r)] + disp - |l.template| - 4) % W64))
       case AddressField(r) => r == Name("@b") ==> l.anon > 0
       case Define(r) =>
         && r != Name("@b") && r != Name("@f")
         && Defined(l, r) !in l.bound
         && AllReach(l.fields, Defined(l, r), |l.template|)
       case EnterLocal => true
       case LeaveLocal =>
         && |l.open| > 2
         && forall f :: f in l.fields && f.target !in l.bound ==>
              !(f.target.Local? && f.target.scope == l.open[|l.open| - 1])
  }

  function Limit(b: Buffer): nat {
    if b.Fixed? && b.maxSize <= MAX_ALLOC then b.maxSize else MAX_ALLOC
  }

  lemma SizesKept(l: Layout, s: Stmt)
    requires FieldSizes(l) && l.open != []
    ensures FieldSizes(LayOne(l, s))
  {}

  lemma {:induction false} ResolveAllOk<T(!new)>(g: Gen, fields: seq<Field>, bound: map<Binding, nat>,
                                                 key: Binding -> Option<T>,
                                                 b: Binding, id: T, addr: nat)
    requires b !in bound && KeyTells(fields, bound, key, b, id)
    requires AllInside(g, Waiting(fields, bound, key, g.buffer.AutoGrow?))
    requires forall f :: f in fields && f.relative ==> f.size in {1, 4}
    ensures ResolveAll(g, Waiting(fields, bound, key, g.buffer.AutoGrow?), id, addr).Ok? <==> AllReach(fields, b, addr)
    decreases |fields|
  {
    if fields != [] {
      var f, w := fields[0], Waiting(fields, bound, key, g.buffer.AutoGrow?);
      var rest := Waiting(fields[1..], bound, key, g.buffer.AutoGrow?);
      assert f in fields;
      assert AllReach(fields, b, addr)
             <==> AllReach(fields[1..], b, addr) && (f.target == b && f.relative ==> Reaches(f, addr));
      if f.target !in bound && key(f.target).Some? {
        assert w[0] == Pending(key(f.target).value, JmpOf(f, g.buffer.AutoGrow?)) && w[1..] == rest;
        if f.target == b {
          ReachOk(g, f, addr);
          if ResolveOne(g, w[0].jmp, addr).Ok? {
            ResolveAllOk(ResolveOne(g, w[0].jmp, addr).value, fields[1..], bound, key, b, id, addr);
          }
        } else {
          ResolveAllOk(g, fields[1..], bound, key, b, id, addr);
        }
      } else {
        assert w == rest;
        ResolveAllOk(g, fields[1..], bound, key, b, id, addr);
      }
    }
  }

  lemma ReachOk(g: Gen, f: Field, addr: nat)
    requires f.relative ==> f.size in {1, 4}
    ensures ResolvedDisp(g, JmpOf(f, g.buffer.AutoGrow?), addr).Ok? <==> (f.relative ==> Reaches(f, addr))
  {
    var v: Uint64 := (addr - (f.off + f.size) + f.disp) % W64;
    LowWord(v);
    hide IsInDisp8, IsInInt32;
    assert f.relative ==> v == (addr - JmpOf(f, g.buffer.AutoGrow?).endOfJmp + f.disp) % W64;
  }

  lemma LowWord(v: Uint64)
    ensures IsInInt32(v) && IsInDisp8(v % W32) <==> v <= 0x7F || W64 - 0x80 <= v
  {}

  lemma OffsetOk(g: Gen, l: Layout, top: Uint64, r: Ref)
    requires Agree(g, l, top)
    ensures GetOffset(g, r).Ok? <==> (r == Name("@b") ==> l.anon > 0)
  {}

  lemma DbOk(g: Gen, bytes: seq<Byte>)
    ensures Db(g, bytes).Ok? <==> |g.code| + |bytes| <= Limit(g.buffer)
  {}

  lemma JumpOk(g: Gen, l: Layout, top: Uint64, s: Stmt)
    requires s.Jump? && Agree(g, l, top) && |g.code| <= MAX_ALLOC && |l.open| >= 2 && |g.scopes| >= 2
    ensures OpJmp(g, s).Ok? <==> Accepts(l, s, Limit(g.buffer))
  {
    hide Agree, Used, GetOffset, Limit, Db, AddUndefined;
    AgreeFacts(g, l, top);
    OffsetOk(g, l, top, s.target);
    DbOk(g, [s.shortCode, 0]);
    DbOk(g, LongHead(s) + Zeros(4));
    if GetOffset(g, s.target).Ok? {
      LookupAt(g, l, top, s.target);
      match GetOffset(g, s.target).value
      case Later(_) =>
      case At(offset) =>
        BackwardReach(offset, |g.code|);
        if |g.code| - offset <= 0x8000_0000 {
          ShortReach(offset, |g.code|);
          var disp := (offset - |g.code|) % W64 % W32;
          DbOk(g, [s.shortCode, (disp - 2) % 256]);
          DbOk(g, LongHead(s) + LE((disp - |LongHead(s)| - 4) % W32, 4));
        }
    }
  }

  lemma BackwardReach(offset: nat, here: nat)
    requires offset <= here <= MAX_ALLOC
    ensures IsInInt32((offset - here) % W64) <==> here - offset <= 0x8000_0000
  {}

  lemma RelativeOk(g: Gen, l: Layout, top: Uint64, r: Ref, disp: Uint64)
    requires Agree(g, l, top) && |l.open| >= 2 && |g.scopes| >= 2
    ensures PutRelative(g, r, disp).Ok? <==> Accepts(l, RipField(r, disp), Limit(g.buffer))
  {
    hide Agree, Used, GetOffset, Limit, Db, AddUndefined;
    AgreeFacts(g, l, top);
    OffsetOk(g, l, top, r);
    DbOk(g, Zeros(4));
    if GetOffset(g, r).Ok? {
      LookupAt(g, l, top, r);
      match GetOffset(g, r).value
      case Later(_) =>
      case At(offset) => DbOk(g, LE((offset + disp - |g.code| - 4) % W64, 4));
    }
  }

  lemma AddressOk(g: Gen, l: Layout, top: Uint64, r: Ref)
    requires Agree(g, l, top) && |l.open| >= 2 && |g.scopes| >= 2
    ensures PutAddress(g, r).Ok? <==> Accepts(l, AddressField(r), Limit(g.buffer))
  {}

  lemma ObjectOk(g: Gen, l: Layout, top: Uint64, id: nat)
    requires Agree(g, l, top) && Inside(g) && FieldSizes(l) && |l.open| >= 2
    requires |g.code| <= Limit(g.buffer)
    ensures DefineLabel(g, Object(id)).Ok? <==> Accepts(l, Define(Object(id)), Limit(g.buffer))
  {
    hide SameCode, Scoped, Targets, Reaches, Waiting, ResolveAll, Limit;
    AgreeFacts(g, l, top);
    if id !in g.objects.defs {
      assert KeyTells(l.fields, l.bound, IdOf, Obj(id), id);
      ResolveAllOk(g, l.fields, l.bound, IdOf, Obj(id), id, |g.code|);
    }
  }

  lemma NamedOk(g: Gen, l: Layout, name: string, b: Binding)
    requires Inside(g) && FieldSizes(l) && |g.scopes| == |l.open| && |g.code| == |l.template|
    requires var i := ScopeIndex(g, name);
             g.scopes[i].undefs == Waiting(l.fields, l.bound, NamesOf(l.open[i]), g.buffer.AutoGrow?)
    requires name !in g.scopes[ScopeIndex(g, name)].defs && Homed(l, ScopeIndex(g, name), name, b)
    ensures DefineNamed(g, name).Ok? <==> AllReach(l.fields, b, |l.template|)
  {
    hide Reaches, Waiting, ResolveAll, NamesOf, AllReach, KeyTells;
    var i := ScopeIndex(g, name);
    ResolveAllOk(g, l.fields, l.bound, NamesOf(l.open[i]), b, name, |g.code|);
  }

  lemma NameOk(g: Gen, l: Layout, top: Uint64, name: string)
    requires Agree(g, l, top) && Inside(g) && FieldSizes(l) && |l.open| >= 2 && name != "@@"
    requires |g.code| <= Limit(g.buffer)
    ensures DefineLabel(g, Name(name)).Ok? <==> Accepts(l, Define(Name(name)), Limit(g.buffer))
  {
    hide Agree, SameCode, Scoped, Targets, FieldSizes, Limit, AllReach, DefineNamed, Homed, Waiting, NamesOf;
    AgreeFacts(g, l, top);
    PartsOf(g, l, top);
    if name != "@b" && name != "@f" {
      var i, b := ScopeIndex(g, name), Defined(l, Name(name));
      NameKnown(l, name);
      assert SameDefs(g.scopes[i].defs, l, l.open[i]);
      assert b == OfName(l.open[i], name);
      if name !in g.scopes[i].defs {
        NamedHome(g, l, top, name);
        NamedOk(g, l, name, b);
      } else {
        Redefined(g, name);
      }
    }
  }

  lemma NameKnown(l: Layout, name: string)
    requires Scoped(l) && name != "@b" && name != "@f" && name != "@@"
    ensures Known(l, Defined(l, Name(name)))
    ensures l.open[0] == 0 && l.open[|l.open| - 1] != 0
  {}

  lemma Redefined(g: Gen, name: string)
    requires Inside(g) && name in g.scopes[ScopeIndex(g, name)].defs
    ensures DefineNamed(g, name).Err?
  {}

  lemma AnonOk(g: Gen, l: Layout, top: Uint64)
    requires Agree(g, l, top) && Inside(g) && FieldSizes(l) && |l.open| >= 2
    requires |g.code| <= Limit(g.buffer)
    ensures DefineLabel(g, Name("@@")).Ok? <==> Accepts(l, Define(Name("@@")), Limit(g.buffer))
  {
    hide Agree, SameCode, FieldSizes, Limit, AllReach, DefineNamed, Homed, Waiting, NamesOf, Scoped, Targets;
    AgreeFacts(g, l, top);
    PartsOf(g, l, top);
    var s := g.scopes[0];
    var name, other := AnonName(l.anon), if "@f" in s.defs then "@f" else "@b";
    var g0 := g.(scopes := g.scopes[0 := s.(defs := s.defs - {other})]);
    assert DefineLabel(g, Name("@@")) == DefineNamed(g0, name);
    AnonHome(l);
    NamedOk(g0, l, name, Anon(l.anon));
  }

  lemma LeaveOk(g: Gen, l: Layout, top: Uint64)
    requires Agree(g, l, top) && |l.open| >= 2 && |g.scopes| >= 2 && |g.code| <= Limit(g.buffer)
    ensures Leave(g).Ok? <==> Accepts(l, LeaveLocal, Limit(g.buffer))
  {
    hide SameCode, Limit, SameDefs, SameAnon;
    AgreeFacts(g, l, top);
    var last := l.open[|l.open| - 1];
    if |l.open| > 2 {
      if f :| f in l.fields && f.target !in l.bound && f.target.Local? && f.target.scope == last {
        NothingWaits(l.fields, l.bound, NamesOf(last), g.buffer.AutoGrow?, f);
      } else {
        NoLocalWaits(l.fields, l.bound, last, g.buffer.AutoGrow?);
      }
    }
  }

  lemma {:induction false} NoLocalWaits(fields: seq<Field>, bound: map<Binding, nat>, scope: nat, growing: bool)
    requires scope != 0
    requires forall f :: f in fields && f.target !in bound ==> !(f.target.Local? && f.target.scope == scope)
    ensures Waiting(fields, bound, NamesOf(scope), growing) == []
  {
    if fields != [] {
      assert fields[0] in fields;
      NoLocalWaits(fields[1..], bound, scope, growing);
    }
  }

  // One statement is accepted by the generator exactly when the layout allows it.
  lemma EmitOk(g: Gen, l: Layout, top: Uint64, s: Stmt)
    requires Agree(g, l, top) && Inside(g) && FieldSizes(l) && |l.open| >= 2 && |g.code| <= Limit(g.buffer)
    ensures Emit(g, s).Ok? <==> Accepts(l, s, Limit(g.buffer))
  {
    hide Agree, SameTables, FieldSizes, OpJmp, PutRelative, PutAddress, DefineLabel, Leave, Limit;
    AgreeFacts(g, l, top);
    match s
    case Raw(bytes) => DbOk(g, bytes);
    case Jump(_, _, _, _, _) => JumpOk(g, l, top, s);
    case RipField(r, disp) => RelativeOk(g, l, top, r, disp);
    case AddressField(r) => AddressOk(g, l, top, r);
    case Define(Object(id)) => ObjectOk(g, l, top, id);
    case Define(Name(name)) =>
      if name == "@@" {
        AnonOk(g, l, top);
      } else {
        NameOk(g, l, top, name);
      }
    case EnterLocal =>
    case LeaveLocal => LeaveOk(g, l, top);
  }

  ghost predicate AcceptsAll(l: Layout, prog: seq<Stmt>, limit: nat)
    requires |l.open| >= 2
    decreases |prog|
  {
    prog == [] || (Accepts(l, prog[0], limit) && AcceptsAll(LayOne(l, prog[0]), prog[1..], limit))
  }

  lemma {:induction false} RunOk(g: Gen, l: Layout, top: Uint64, prog: seq<Stmt>)
    requires Agree(g, l, top) && Inside(g) && FieldSizes(l) && |l.open| >= 2 && |g.code| <= Limit(g.buffer)
    ensures Run(g, prog).Ok? <==> AcceptsAll(l, prog, Limit(g.buffer))
    ensures Run(g, prog).Ok? ==> FieldSizes(Lay(l, prog)) && |Lay(l, prog).open| >= 2
    decreases |prog|
  {
    hide Agree, Emit, LayOne, Accepts, FieldSizes, Inside, Limit;
    if prog != [] {
      EmitOk(g, l, top, prog[0]);
      if Emit(g, prog[0]).Ok? {
        var g', l' := Emit(g, prog[0]).value, LayOne(l, prog[0]);
        EmitAgrees(g, l, top, prog[0]);
        EmitBuffer(g, prog[0]);
        NextStep(g, l, top, prog[0]);
        RunOk(g', l', top, prog[1..]);
      }
    }
  }

  lemma EmitBuffer(g: Gen, s: Stmt)
    requires Inside(g) && Emit(g, s).Ok?
    ensures Emit(g, s).value.buffer == g.buffer
    ensures |g.code| <= Limit(g.buffer) ==> |Emit(g, s).value.code| <= Limit(g.buffer)
  {
    hide ResolveAll, Inside, LE, Zeros, IsInInt32, IsInDisp8, GetOffset, LongHead;
  }

  lemma NextStep(g: Gen, l: Layout, top: Uint64, s: Stmt)
    requires Agree(g, l, top) && FieldSizes(l) && |l.open| >= 2 && Accepts(l, s, Limit(g.buffer))
    ensures FieldSizes(LayOne(l, s)) && |LayOne(l, s).open| >= 2
  {
    hide FieldSizes, SameTables, SameCode;
    SizesKept(l, s);
  }

  // The generator accepts exactly the programs that the layout allows statement by statement.
  lemma AcceptedExactly(buffer: Buffer, prog: seq<Stmt>)
    ensures Inside(Start(buffer))
    ensures Run(Start(buffer), prog).Ok? <==> AcceptsAll(Blank(), prog, Limit(buffer))
    ensures Run(Start(buffer), prog).Ok? ==> FieldSizes(Lay(Blank(), prog))
  {
    var top := if buffer.Fixed? then buffer.top else 0;
    StartAgrees(buffer, top);
    RunOk(Start(buffer), Blank(), top, prog);
  }

  // ---------------------------------------------------------------- fixed and growing buffers

  lemma {:induction false} NoneUnbound<T>(fields: seq<Field>, bound: map<Binding, nat>, key: Binding -> Option<T>,
                                          growing: bool)
    requires forall f :: f in fields ==> f.target in bound
    ensures Waiting(fields, bound, key, growing) == []
  {
    if fields != [] {
      assert fields[0] in fields;
      NoneUnbound(fields[1..], bound, key, growing);
    }
  }

  lemma UndefinedExactly(g: Gen, l: Layout, top: Uint64)
    requires Agree(g, l, top)
    ensures HasUndefined(g) <==> exists f :: f in l.fields && f.target !in l.bound
  {
    hide SameCode, Scoped, Targets, SameDefs, SameAnon;
    if forall f :: f in l.fields ==> f.target in l.bound {
      forall i | 0 <= i < |g.scopes|
        ensures g.scopes[i].undefs == []
      {
        NoneUnbound(l.fields, l.bound, NamesOf(l.open[i]), g.buffer.AutoGrow?);
      }
      NoneUnbound(l.fields, l.bound, IdOf, g.buffer.AutoGrow?);
    } else if !HasUndefined(g) {
      AllBound(g, l, top);
    }
  }

  lemma {:induction false} LayGrows(l: Layout, prog: seq<Stmt>)
    requires |l.open| >= 2
    ensures |l.template| <= |Lay(l, prog).template|
    decreases |prog|
  {
    if prog != [] {
      LayGrows(LayOne(l, prog[0]), prog[1..]);
    }
  }

  lemma {:induction false} LimitsAgree(l: Layout, prog: seq<Stmt>, a: nat, b: nat)
    requires |l.open| >= 2 && AcceptsAll(l, prog, a) && |Lay(l, prog).template| <= b
    ensures AcceptsAll(l, prog, b)
    decreases |prog|
  {
    if prog != [] {
      LayGrows(LayOne(l, prog[0]), prog[1..]);
      LimitsAgree(LayOne(l, prog[0]), prog[1..], a, b);
    }
  }

  // A buffer of fixed size accepts what a growing one accepts and it has room for, and at the same
  // address both finish with the same code or the same complaint about an undefined label.
  lemma BuffersAgree(maxSize: nat, top: Uint64, prog: seq<Stmt>)
    requires maxSize <= MAX_ALLOC
    ensures Inside(Start(Fixed(maxSize, top))) && Inside(Start(AutoGrow))
    ensures Run(Start(Fixed(maxSize, top)), prog).Ok?
            <==> Run(Start(AutoGrow), prog).Ok? && |Lay(Blank(), prog).template| <= maxSize
    ensures Run(Start(Fixed(maxSize, top)), prog).Ok? ==>
              var a, b := Run(Start(Fixed(maxSize, top)), prog).value, Run(Start(AutoGrow), prog).value;
              && SavedInside(a.saved, |a.code|) && SavedInside(b.saved, |b.code|)
              && Ready(a, top) == Ready(b, top)
  {
    var fixed, growing := Fixed(maxSize, top), AutoGrow;
    StartAgrees(fixed, top);
    StartAgrees(growing, top);
    AcceptedExactly(fixed, prog);
    AcceptedExactly(growing, prog);
    if Run(Start(fixed), prog).Ok? {
      RunAgrees(Start(fixed), Blank(), top, prog);
      AgreeFacts(Run(Start(fixed), prog).value, Lay(Blank(), prog), top);
      RunFits(fixed, prog);
      LimitsAgree(Blank(), prog, maxSize, MAX_ALLOC);
      RunAgrees(Start(growing), Blank(), top, prog);
      UndefinedExactly(Run(Start(fixed), prog).value, Lay(Blank(), prog), top);
      UndefinedExactly(Run(Start(growing), prog).value, Lay(Blank(), prog), top);
      OnePassIsTwoPasses(fixed, prog, top);
      OnePassIsTwoPasses(growing, prog, top);
    } else if Run(Start(growing), prog).Ok? && |Lay(Blank(), prog).template| <= maxSize {
      LimitsAgree(Blank(), prog, MAX_ALLOC, maxSize);
    }
  }

  lemma {:induction false} AcceptedFits(l: Layout, prog: seq<Stmt>, limit: nat)
    requires |l.open| >= 2 && AcceptsAll(l, prog, limit) && |l.template| <= limit
    ensures |Lay(l, prog).template| <= limit
    decreases |prog|
  {
    if prog != [] {
      AcceptedFits(LayOne(l, prog[0]), prog[1..], limit);
    }
  }

  lemma RunFits(buffer: Buffer, prog: seq<Stmt>)
    requires Inside(Start(buffer)) && Run(Start(buffer), prog).Ok?
    ensures |Lay(Blank(), prog).template| <= Limit(buffer)
  {
    AcceptedExactly(buffer, prog);
    AcceptedFits(Blank(), prog, Limit(buffer));
  }

  // ---------------------------------------------------------------- where the fields point

  // Labels lie within the code.
  ghost predicate BoundInside(l: Layout) {
    forall b :: b in l.bound ==> l.bound[b] <= |l.template|
  }

  ghost predicate AllBoundReach(l: Layout) {
    forall f :: f in l.fields && f.relative && f.target in l.bound ==> Reaches(f, l.bound[f.target])
  }

  // A near jump backwards whose distance, counted from the end of the instruction as the processor does,
  // is more than 2^31. The generator counts from the start and so may accept it.
  predicate Overlong(l: Layout, s: Stmt)
    requires l.open != []
  {
    && s.Jump? && Used(l, s.target) in l.bound && !TakesShort(l, s, Used(l, s.target))
    && |l.template| + |LongHead(s)| + 4 - l.bound[Used(l, s.target)] > 0x8000_0000
  }

  predicate NoneOverlong(l: Layout, prog: seq<Stmt>)
    requires |l.open| >= 2
    decreases |prog|
  {
    prog == [] || (!Overlong(l, prog[0]) && NoneOverlong(LayOne(l, prog[0]), prog[1..]))
  }

  // What the range check accepts of a near jump backwards, and what reaches.
  lemma NearJumpBackwards(here: nat, head: nat, addr: nat, target: Binding)
    requires addr <= here <= MAX_ALLOC && head in {1, 2}
    ensures IsInInt32((addr - here) % W64) <==> here - addr <= 0x8000_0000
    ensures Reaches(Field(here + head, 4, true, 0, target), addr) <==> here - addr <= 0x8000_0000 - head - 4
  {}

  lemma ShortJumpBackwards(here: nat, addr: nat, target: Binding)
    requires -128 <= addr - here - 2 <= 127
    ensures Reaches(Field(here + 1, 1, true, 0, target), addr)
  {}

  lemma JumpReaches(l: Layout, s: Stmt, limit: nat)
    requires s.Jump? && |l.open| >= 2 && BoundInside(l) && Accepts(l, s, limit) && limit <= MAX_ALLOC
    ensures AllBoundReach(LayOne(l, s)) <==> AllBoundReach(l) && !Overlong(l, s)
  {
    hide Reaches;
    var t := Used(l, s.target);
    var l' := LayOne(l, s);
    var f := l'.fields[|l.fields|];
    assert l'.fields == l.fields + [f] && f in l'.fields;
    if t in l.bound {
      if TakesShort(l, s, t) {
        ShortJumpBackwards(|l.template|, l.bound[t], t);
      } else {
        NearJumpBackwards(|l.template|, |LongHead(s)|, l.bound[t], t);
      }
      assert Reaches(f, l.bound[t]) <==> !Overlong(l, s);
    }
  }

  // One accepted statement leaves every bound field reaching, unless it is an overlong jump.
  lemma StepReaches(l: Layout, s: Stmt, limit: nat)
    requires |l.open| >= 2 && BoundInside(l) && Accepts(l, s, limit) && limit <= MAX_ALLOC
    ensures AllBoundReach(LayOne(l, s)) <==> AllBoundReach(l) && !Overlong(l, s)
    ensures BoundInside(LayOne(l, s)) && |LayOne(l, s).open| >= 2
  {
    if s.Jump? {
      JumpReaches(l, s, limit);
    } else if s.RipField? || s.AddressField? {
      var l' := LayOne(l, s);
      var f := l'.fields[|l.fields|];
      assert l'.fields == l.fields + [f];
    }
  }

  lemma {:induction false} ProgramReaches(l: Layout, prog: seq<Stmt>, limit: nat)
    requires |l.open| >= 2 && BoundInside(l) && AcceptsAll(l, prog, limit) && limit <= MAX_ALLOC
    ensures AllBoundReach(Lay(l, prog)) <==> AllBoundReach(l) && NoneOverlong(l, prog)
    decreases |prog|
  {
    hide AllBoundReach, BoundInside, Accepts, LayOne, Overlong;
    if prog != [] {
      StepReaches(l, prog[0], limit);
      ProgramReaches(LayOne(l, prog[0]), prog[1..], limit);
    }
  }

  // Code of at most 2^31 bytes holds no overlong jump.
  lemma {:induction false} SmallCodeReaches(l: Layout, prog: seq<Stmt>)
    requires |l.open| >= 2 && |Lay(l, prog).template| <= 0x8000_0000
    ensures NoneOverlong(l, prog)
    decreases |prog|
  {
    if prog != [] {
      LayGrows(LayOne(l, prog[0]), prog[1..]);
      SmallCodeReaches(LayOne(l, prog[0]), prog[1..]);
    }
  }

  /** In finished code every address field holds the address of its label, all bytes outside the fields are as
  they were emitted, and a relative field leads to its label if and only if the distance fits. So all of
  them do if and only if no near jump backwards is overlong; none is in code of at most 2^31 bytes. */
  lemma EveryFieldHits(buffer: Buffer, prog: seq<Stmt>, top: Uint64)
    requires buffer.Fixed? ==> buffer.top == top
    requires Inside(Start(buffer)) && Run(Start(buffer), prog).Ok?
    requires var g := Run(Start(buffer), prog).value; SavedInside(g.saved, |g.code|) && Ready(g, top).Ok?
    ensures Finished(Ready(Run(Start(buffer), prog).value, top).value, prog, top)
  {
    var g, l := Run(Start(buffer), prog).value, Lay(Blank(), prog);
    OnePassIsTwoPasses(buffer, prog, top);
    AcceptedExactly(buffer, prog);
    var code := Ready(g, top).value;
    FillAt(l.template, l.fields, l.bound, top, 0);
    ProgramReaches(Blank(), prog, Limit(buffer));
    hide Hits, Reaches, Run, Lay, Fill, Ready, NoneOverlong;
    forall f | f in l.fields && f.relative
      ensures Hits(code, f, l.bound[f.target]) <==> Reaches(f, l.bound[f.target])
    {
      FieldHits(code, f, l.bound[f.target], top);
    }
    if |code| <= 0x8000_0000 {
      SmallCodeReaches(Blank(), prog);
    }
  }

  // The finished code of a program.
  ghost predicate Finished(code: seq<Byte>, prog: seq<Stmt>, top: Uint64) {
    var l := Lay(Blank(), prog);
    && |code| == |l.template|
    && (forall f :: f in l.fields ==> f.target in l.bound && f.off + f.size <= |code|)
    && (forall f :: f in l.fields && f.relative ==>
          (Hits(code, f, l.bound[f.target]) <==> Reaches(f, l.bound[f.target])))
    && ((forall f :: f in l.fields && f.relative ==> Hits(code, f, l.bound[f.target])) <==> NoneOverlong(Blank(), prog))
    && (|code| <= 0x8000_0000 ==> NoneOverlong(Blank(), prog))
    && (forall f :: f in l.fields && !f.relative ==>
          code[f.off..f.off + f.size] == LE((l.bound[f.target] + top) % W64, 8))
    && (forall i :: 0 <= i < |code| && Untouched(l.fields, l.bound, i) ==> code[i] == l.template[i])
  }

  // A label, 2^31 - 4 bytes, and a near jump back to the label.
  function LongJump(): seq<Stmt> {
    [Define(Object(1)), Raw(Zeros(0x7FFF_FFFC)), Jump(Object(1), Near, 0xEB, 0xE9, 0)]
  }

  lemma LongJumpLaidOut()
    ensures AcceptsAll(Blank(), LongJump(), MAX_ALLOC) && !NoneOverlong(Blank(), LongJump())
    ensures forall f :: f in Lay(Blank(), LongJump()).fields ==> f.target in Lay(Blank(), LongJump()).bound
  {
    var prog := LongJump();
    var l0 := Blank();
    var l1 := l0.(bound := map[Obj(1) := 0]);
    var l2 := l1.(template := Zeros(0x7FFF_FFFC));
    var l3 := AddField(l2, [0xE9], 4, true, 0, Obj(1));
    var gap, jump := prog[1], prog[2];
    assert prog[1..] == [gap, jump] && [gap, jump][1..] == [jump] && [jump][1..] == [];
    assert LayOne(l0, prog[0]) == l1;
    assert LayOne(l1, gap) == l2;
    assert LayOne(l2, jump) == l3;
    assert Lay(l2, [jump]) == l3 && AcceptsAll(l2, [jump], MAX_ALLOC) && Overlong(l2, jump);
    assert Lay(l1, [gap, jump]) == l3 && AcceptsAll(l1, [gap, jump], MAX_ALLOC);
  }

  // A growing buffer accepts it and finishes its code, in which the jump misses its label.
  lemma AcceptedJumpMisses(top: Uint64) returns (f: Field)
    ensures Inside(Start(AutoGrow)) && Run(Start(AutoGrow), LongJump()).Ok?
    ensures var g, l := Run(Start(AutoGrow), LongJump()).value, Lay(Blank(), LongJump());
            && SavedInside(g.saved, |g.code|) && Ready(g, top).Ok?
            && f in l.fields && f.relative && f.target in l.bound && f.off + f.size <= |Ready(g, top).value|
            && !Hits(Ready(g, top).value, f, l.bound[f.target])
  {
    hide LongJump, Lay, AcceptsAll, NoneOverlong, Run;
    LongJumpLaidOut();
    AcceptedExactly(AutoGrow, LongJump());
    StartAgrees(AutoGrow, top);
    RunAgrees(Start(AutoGrow), Blank(), top, LongJump());
    UndefinedExactly(Run(Start(AutoGrow), LongJump()).value, Lay(Blank(), LongJump()), top);
    OnePassIsTwoPasses(AutoGrow, LongJump(), top);
    EveryFieldHits(AutoGrow, LongJump(), top);
    hide Hits, Reaches, Ready;
    var l := Lay(Blank(), LongJump());
    var code := Ready(Run(Start(AutoGrow), LongJump()).value, top).value;
    f :| f in l.fields && f.relative && !Hits(code, f, l.bound[f.target]);
  }

  // ---------------------------------------------------------------- anonymous labels

  lemma {:induction false} WaitsFor<T>(fields: seq<Field>, bound: map<Binding, nat>, key: Binding -> Option<T>,
                                       growing: bool, p: Pending<T>)
    returns (f: Field)
    requires p in Waiting(fields, bound, key, growing)
    ensures f in fields && f.target !in bound && key(f.target) == Some(p.key)
    decreases |fields|
  {
    if p in Waiting(fields[1..], bound, key, growing) {
      f := WaitsFor(fields[1..], bound, key, growing, p);
    } else {
      f := fields[0];
    }
  }

  // After any program at most one of the two stored names is defined, and what still waits for an
  // anonymous label waits for the other one.
  lemma AnonymousTurns(buffer: Buffer, prog: seq<Stmt>)
    requires Inside(Start(buffer)) && Run(Start(buffer), prog).Ok?
    ensures var s := Run(Start(buffer), prog).value.scopes[0];
            && !("@f" in s.defs && "@b" in s.defs)
            && forall p :: p in s.undefs && p.key in {"@f", "@b"} ==> p.key !in s.defs
  {
    hide Run, Lay, SameCode, Waiting, SameDefs;
    var top := if buffer.Fixed? then buffer.top else 0;
    var g, l := Run(Start(buffer), prog).value, Lay(Blank(), prog);
    StartAgrees(buffer, top);
    RunAgrees(Start(buffer), Blank(), top, prog);
    forall p | p in g.scopes[0].undefs && p.key in {"@f", "@b"}
      ensures p.key !in g.scopes[0].defs
    {
      assert g.scopes[0].undefs == Waiting(l.fields, l.bound, NamesOf(0), g.buffer.AutoGrow?);
      var f := WaitsFor(l.fields, l.bound, NamesOf(0), g.buffer.AutoGrow?, p);
      assert Known(l, f.target) && Pendable(l, f.target);
    }
  }

  function AnonsIn(prog: seq<Stmt>): nat {
    if prog == [] then 0 else (if prog[0] == Define(Name("@@")) then 1 else 0) + AnonsIn(prog[1..])
  }

  lemma {:induction false} LaySplit(l: Layout, a: seq<Stmt>, b: seq<Stmt>)
    requires |l.open| >= 2
    ensures |Lay(l, a).open| >= 2 && Lay(l, a + b) == Lay(Lay(l, a), b)
    decreases |a|
  {
    if a == [] {
      assert a + b == b;
    } else {
      assert (a + b)[1..] == a[1..] + b;
      LaySplit(LayOne(l, a[0]), a[1..], b);
    }
  }

  lemma {:induction false} AcceptSplit(l: Layout, a: seq<Stmt>, b: seq<Stmt>, limit: nat)
    requires |l.open| >= 2 && AcceptsAll(l, a + b, limit)
    ensures AcceptsAll(l, a, limit) && |Lay(l, a).open| >= 2 && AcceptsAll(Lay(l, a), b, limit)
    decreases |a|
  {
    if a == [] {
      assert a + b == b;
    } else {
      assert (a + b)[1..] == a[1..] + b;
      AcceptSplit(LayOne(l, a[0]), a[1..], b, limit);
    }
  }

  // What is laid out stays: fields keep their place in the list, labels their address.
  lemma {:induction false} LayKeeps(l: Layout, prog: seq<Stmt>, limit: nat)
    requires |l.open| >= 2 && AcceptsAll(l, prog, limit)
    ensures l.fields <= Lay(l, prog).fields
    ensures forall b :: b in l.bound ==> b in Lay(l, prog).bound && Lay(l, prog).bound[b] == l.bound[b]
    ensures Lay(l, prog).anon == l.anon + AnonsIn(prog)
    decreases |prog|
  {
    if prog != [] {
      LayKeeps(LayOne(l, prog[0]), prog[1..], limit);
    }
  }

  // A reference to `@f` leads to the first `@@` after it.
  lemma NextAnonymous(a: seq<Stmt>, s: Stmt, b: seq<Stmt>, c: seq<Stmt>, limit: nat)
    requires AcceptsAll(Blank(), a + ([s] + (b + ([Define(Name("@@"))] + c))), limit)
    requires AnonsIn(b) == 0
    requires (s.Jump? || s.RipField? || s.AddressField?) && s.target == Name("@f")
    ensures var at, l := Lay(Blank(), a), Lay(Blank(), a + ([s] + (b + ([Define(Name("@@"))] + c))));
            && |at.fields| < |l.fields| && l.fields[|at.fields|].target in l.bound
            && l.bound[l.fields[|at.fields|].target] == |Lay(Blank(), a + ([s] + b)).template|
  {
    hide Lay, AcceptsAll;
    var rest := [Define(Name("@@"))] + c;
    var l0 := Lay(Blank(), a);
    LaySplit(Blank(), a, [s] + (b + rest));
    AcceptSplit(Blank(), a, [s] + (b + rest), limit);
    LaySplit(l0, [s], b + rest);
    AcceptSplit(l0, [s], b + rest, limit);
    var l1 := Lay(l0, [s]);
    OneStatement(l0, s);
    LaySplit(l1, b, rest);
    AcceptSplit(l1, b, rest, limit);
    var l2 := Lay(l1, b);
    LayKeeps(l1, b, limit);
    LaySplit(l2, [Define(Name("@@"))], c);
    AcceptSplit(l2, [Define(Name("@@"))], c, limit);
    OneStatement(l2, Define(Name("@@")));
    LayKeeps(Lay(l2, [Define(Name("@@"))]), c, limit);
    LaySplit(Blank(), a, [s] + b);
    LaySplit(l0, [s], b);
  }

  // A reference to `@b` leads to the last `@@` before it.
  lemma LastAnonymous(a: seq<Stmt>, b: seq<Stmt>, s: Stmt, c: seq<Stmt>, limit: nat)
    requires AcceptsAll(Blank(), a + ([Define(Name("@@"))] + (b + ([s] + c))), limit)
    requires AnonsIn(b) == 0
    requires (s.Jump? || s.RipField? || s.AddressField?) && s.target == Name("@b")
    ensures var at := Lay(Blank(), a + ([Define(Name("@@"))] + b));
            var l := Lay(Blank(), a + ([Define(Name("@@"))] + (b + ([s] + c))));
            && |at.fields| < |l.fields| && l.fields[|at.fields|].target in l.bound
            && l.bound[l.fields[|at.fields|].target] == |Lay(Blank(), a).template|
  {
    hide Lay, AcceptsAll;
    var d, rest := [Define(Name("@@"))], [s] + c;
    var l0 := Lay(Blank(), a);
    LaySplit(Blank(), a, d + (b + rest));
    AcceptSplit(Blank(), a, d + (b + rest), limit);
    LaySplit(l0, d, b + rest);
    AcceptSplit(l0, d, b + rest, limit);
    var l1 := Lay(l0, d);
    OneStatement(l0, Define(Name("@@")));
    LaySplit(l1, b, rest);
    AcceptSplit(l1, b, rest, limit);
    LayKeeps(l1, b, limit);
    var l2 := Lay(l1, b);
    LaySplit(l2, [s], c);
    AcceptSplit(l2, [s], c, limit);
    OneStatement(l2, s);
    LayKeeps(Lay(l2, [s]), c, limit);
    LaySplit(Blank(), a, d + b);
    LaySplit(l0, d, b);
  }

  lemma OneStatement(l: Layout, s: Stmt)
    requires |l.open| >= 2
    ensures Lay(l, [s]) == LayOne(l, s)
  {}
}
