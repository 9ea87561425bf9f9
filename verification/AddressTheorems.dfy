/** Which sums of registers can be addressed, what the address then is, and that no shorter bytes say the same. */
module AddressTheorems {
  import opened Addressing
  import opened Options
  import opened Words

  // ---------------------------------------------------------------- the registers of a sum

  datatype Factor = Factor(r: Reg, scale: int)

  // The registers of a sum as they are written, from left to right.
  function Factors(s: Sum): seq<Factor> {
    match s
    case Term(r, scale) => [Factor(r, scale)]
    case Const(_) => []
    case Add(a, b) => Factors(a) + Factors(b)
    case Sub(a, _) => Factors(a)
  }

  function Offset(s: Sum): int {
    match s
    case Term(_, _) => 0
    case Const(d) => d
    case Add(a, b) => Offset(a) + Offset(b)
    case Sub(a, d) => Offset(a) - d
  }

  predicate IsVector(f: Factor) { f.r.kind.XMM? || f.r.kind.YMM? }

  // A register that may stand in an address, and a scale the processor has.
  predicate Legal(f: Factor) {
    (IsVector(f) || (f.r.kind.GPR? && (f.r.bit == 32 || f.r.bit == 64)))
    && (f.scale == 1 || f.scale == 2 || f.scale == 4 || f.scale == 8)
  }

  // Only an index is scaled, and a vector register is always one.
  predicate MustIndex(f: Factor) { IsVector(f) || f.scale != 1 }

  function Indices(fs: seq<Factor>): nat {
    if fs == [] then 0 else (if MustIndex(fs[0]) then 1 else 0) + Indices(fs[1..])
  }

  predicate AllLegal(fs: seq<Factor>) { forall f :: f in fs ==> Legal(f) }

  predicate Expressible(fs: seq<Factor>) { AllLegal(fs) && |fs| <= 2 && Indices(fs) <= 1 }

  function Slot(f: Factor): SReg { SReg(f.r.bit, f.r.idx) }

  // Who is base and who is index; of two that may be either the second is the index, unless it is the stack pointer.
  predicate Placed(fs: seq<Factor>, e: RegExp) {
    if fs == [] then e.base == NO_REG && e.index == NO_REG
    else if |fs| == 1 then
      if MustIndex(fs[0]) then e.base == NO_REG && e.index == Slot(fs[0]) && e.scale == fs[0].scale
      else e.base == Slot(fs[0]) && e.index == NO_REG
    else
      && |fs| == 2
      && if MustIndex(fs[0]) then e.index == Slot(fs[0]) && e.base == Slot(fs[1]) && e.scale == fs[0].scale
         else if MustIndex(fs[1]) || fs[1].r.idx != ESP
         then e.index == Slot(fs[1]) && e.base == Slot(fs[0]) && e.scale == fs[1].scale
         else e.index == Slot(fs[0]) && e.base == Slot(fs[1]) && e.scale == 1
  }

  lemma {:induction false} IndicesJoin(a: seq<Factor>, b: seq<Factor>)
    ensures Indices(a + b) == Indices(a) + Indices(b)
    decreases |a|
  {
    if a == [] {
      assert a + b == b;
    } else {
      assert (a + b)[1..] == a[1..] + b;
      IndicesJoin(a[1..], b);
    }
  }

  lemma JoinExpressible(a: seq<Factor>, b: seq<Factor>)
    ensures Expressible(a + b) <==>
              AllLegal(a) && AllLegal(b) && |a| + |b| <= 2 && Indices(a) + Indices(b) <= 1
  {
    IndicesJoin(a, b);
    assert AllLegal(a + b) ==> AllLegal(a) by {
      assert forall f :: f in a ==> f in a + b;
    }
    assert AllLegal(a + b) ==> AllLegal(b) by {
      assert forall f :: f in b ==> f in a + b;
    }
  }

  lemma {:induction false} RealFactors(s: Sum)
    requires RealRegs(s)
    ensures forall f :: f in Factors(s) ==> f.r.Valid()
  {
    match s
    case Add(a, b) =>
      RealFactors(a);
      RealFactors(b);
    case Sub(a, _) => RealFactors(a);
    case _ =>
  }

  // What stands for one register.
  lemma SlotOf(f: Factor)
    requires f.r.Valid() && Legal(f)
    ensures Slot(f).bit in {32, 64, 128, 256} && (Slot(f).bit >= 128 <==> IsVector(f))
  {}

  lemma PlusExactly(fs: seq<Factor>, gs: seq<Factor>, x: RegExp, y: RegExp)
    requires Expressible(fs) && Expressible(gs) && Placed(fs, x) && Placed(gs, y)
    requires forall f :: f in fs + gs ==> f.r.Valid()
    ensures Plus(x, y).Ok? <==> Expressible(fs + gs)
    ensures Plus(x, y).Err? ==> Plus(x, y).error == BadAddressing
    ensures Plus(x, y).Ok? ==> Placed(fs + gs, Plus(x, y).value) && Plus(x, y).value.disp == (x.disp + y.disp) % W64
  {
    JoinExpressible(fs, gs);
    forall f | f in fs + gs
      ensures Slot(f).bit != 0
    {
      SlotOf(f);
    }
    hide Reg.Valid, AllLegal;
    if |fs| == 1 {
      assert fs == [fs[0]] && fs[0] in fs + gs && Indices(fs) == if MustIndex(fs[0]) then 1 else 0;
    }
    if |gs| == 1 {
      assert gs == [gs[0]] && gs[0] in fs + gs && Indices(gs) == if MustIndex(gs[0]) then 1 else 0;
    }
    if |fs| == 2 {
      assert fs[0] in fs + gs && fs[1] in fs + gs;
    }
    if |gs| == 2 {
      assert gs[0] in fs + gs && gs[1] in fs + gs;
    }
    if fs == [] {
      assert fs + gs == gs;
    }
    if gs == [] {
      assert fs + gs == fs;
    }
  }

  /** A sum becomes a register expression if and only if each register in it is one that addresses with a legal
  scale, there are at most two, and at most one of them must be the index. */
  lemma {:induction false} BuildExactly(s: Sum)
    requires RealRegs(s)
    ensures Build(s).Ok? <==> Expressible(Factors(s))
    ensures Build(s).Ok? ==> Placed(Factors(s), Build(s).value) && Build(s).value.disp == Offset(s) % W64
    ensures Build(s).Err? && AllLegal(Factors(s)) ==> Build(s).error == BadAddressing
  {
    hide Placed, Plus, Expressible, Reg.Valid;
    match s
    case Term(r, scale) => TermExactly(r, scale);
    case Const(d) => NoFactors(d);
    case Sub(a, d) =>
      BuildExactly(a);
      SubExactly(a, d);
      SamePlaces(Factors(a), Build(a));
    case Add(a, b) =>
      BuildExactly(a);
      BuildExactly(b);
      RealFactors(s);
      JoinExpressible(Factors(a), Factors(b));
      PartsExpressible(Factors(a), Factors(b));
      if Build(a).Ok? && Build(b).Ok? {
        PlusExactly(Factors(a), Factors(b), Build(a).value, Build(b).value);
        OffsetJoins(Offset(a), Offset(b));
      }
  }

  // A displacement does not move the registers.
  lemma SamePlaces(fs: seq<Factor>, r: Result<RegExp>)
    ensures r.Ok? ==> forall d: Uint64 :: Placed(fs, r.value.(disp := d)) <==> Placed(fs, r.value)
  {}

  lemma TermExactly(r: Reg, scale: int)
    requires r.Valid()
    ensures OfReg(r, scale).Ok? <==> Expressible([Factor(r, scale)])
    ensures OfReg(r, scale).Ok? ==> Placed([Factor(r, scale)], OfReg(r, scale).value) && OfReg(r, scale).value.disp == 0
    ensures OfReg(r, scale).Err? ==> !AllLegal([Factor(r, scale)])
  {
    var f := Factor(r, scale);
    assert [f][1..] == [] && f in [f];
    assert AllLegal([f]) <==> Legal(f);
    assert Indices([f]) == if MustIndex(f) then 1 else 0;
    assert OfReg(r, scale).Ok? <==> Legal(f);
  }

  lemma NoFactors(d: Uint64)
    ensures Expressible([]) && Placed([], OfDisp(d))
  {}

  lemma SubExactly(a: Sum, d: Uint64)
    requires Build(a).Ok? ==> Build(a).value.disp == Offset(a) % W64
    ensures Build(Sub(a, d)).Ok? <==> Build(a).Ok?
    ensures Build(a).Err? ==> Build(Sub(a, d)) == Build(a)
    ensures Build(a).Ok? ==> Build(Sub(a, d)).value == Build(a).value.(disp := (Offset(a) - d) % W64)
  {
    OffsetSubtracts(Offset(a), d);
  }

  lemma OffsetSubtracts(x: int, d: int)
    ensures (x % W64 - d) % W64 == (x - d) % W64
  {
    TruncateCongruent(x % W64 - d, x - d, false);
  }

  lemma PartsExpressible(a: seq<Factor>, b: seq<Factor>)
    ensures Expressible(a + b) ==> Expressible(a) && Expressible(b)
    ensures AllLegal(a + b) ==> AllLegal(a) && AllLegal(b)
  {
    assert (forall f :: f in a ==> f in a + b) && (forall f :: f in b ==> f in a + b);
    JoinExpressible(a, b);
  }

  lemma OffsetJoins(x: int, y: int)
    ensures (x % W64 + y % W64) % W64 == (x + y) % W64
  {}

  // ---------------------------------------------------------------- what can be addressed

  predicate IsStackPointer(f: Factor) { !IsVector(f) && f.r.idx == ESP }

  // No address takes the stack pointer as its index.
  predicate StackPointerIndexed(fs: seq<Factor>) {
    if |fs| == 2 && !MustIndex(fs[0]) && !MustIndex(fs[1]) then IsStackPointer(fs[0]) && IsStackPointer(fs[1])
    else exists f :: f in fs && MustIndex(f) && IsStackPointer(f)
  }

  // The two general registers of an address have the same width.
  predicate SameWidth(fs: seq<Factor>) {
    forall f, g :: f in fs && g in fs && !IsVector(f) && !IsVector(g) ==> f.r.bit == g.r.bit
  }

  /** Which expressible sums can be addressed: those whose general registers have the same width, and whose index is
  not the stack pointer. */
  lemma BracketExactly(s: Sum)
    requires RealRegs(s) && Expressible(Factors(s))
    ensures Build(s).Ok?
    ensures Bracket(Build(s).value).Ok? <==> !StackPointerIndexed(Factors(s)) && SameWidth(Factors(s))
    ensures StackPointerIndexed(Factors(s)) ==> Bracket(Build(s).value) == Err(EspCantBeIndex)
    ensures !StackPointerIndexed(Factors(s)) && !SameWidth(Factors(s)) ==>
              Bracket(Build(s).value) == Err(BadSizeOfRegister)
  {
    BuildExactly(s);
    RealFactors(s);
    PlacedBrackets(Factors(s), Build(s).value);
  }

  lemma PlacedBrackets(fs: seq<Factor>, e: RegExp)
    requires Expressible(fs) && Placed(fs, e) && e.Valid() && forall f :: f in fs ==> f.r.Valid()
    ensures StackPointerIndexed(fs) ==> e.Optimize().Verify() == Some(EspCantBeIndex)
    ensures !StackPointerIndexed(fs) && !SameWidth(fs) ==> e.Optimize().Verify() == Some(BadSizeOfRegister)
    ensures !StackPointerIndexed(fs) && SameWidth(fs) ==> e.Optimize().Verify() == None
  {
    if fs == [] {
    } else if |fs| == 1 {
      assert fs == [fs[0]];
      SlotOf(fs[0]);
      OneIndexed(fs[0]);
    } else {
      assert fs == [fs[0], fs[1]];
      SlotOf(fs[0]);
      SlotOf(fs[1]);
      TwoIndexed(fs[0], fs[1]);
    }
  }

  lemma OneIndexed(f: Factor)
    ensures StackPointerIndexed([f]) <==> MustIndex(f) && IsStackPointer(f)
    ensures SameWidth([f])
  {
    assert f in [f];
  }

  lemma TwoIndexed(f: Factor, g: Factor)
    ensures Indices([f, g]) == (if MustIndex(f) then 1 else 0) + if MustIndex(g) then 1 else 0
    ensures StackPointerIndexed([f, g]) <==>
              if MustIndex(f) || MustIndex(g)
              then (MustIndex(f) && IsStackPointer(f)) || (MustIndex(g) && IsStackPointer(g))
              else IsStackPointer(f) && IsStackPointer(g)
    ensures SameWidth([f, g]) <==> IsVector(f) || IsVector(g) || f.r.bit == g.r.bit
  {
    assert f in [f, g] && g in [f, g] && [f, g][1..] == [g] && [g][1..] == [];
    assert Indices([g]) == if MustIndex(g) then 1 else 0;
  }

  predicate Addressable(s: Sum) {
    Expressible(Factors(s)) && !StackPointerIndexed(Factors(s)) && SameWidth(Factors(s))
  }

  /** From the sum a caller writes to the address the processor computes: every addressable sum is encoded, and the
  bytes address what was written if and only if the displacement fits. */
  lemma SumToAddress(s: Sum, env: Env)
    requires RealRegs(s) && Addressable(s)
    ensures Build(s).Ok? && Bracket(Build(s).value).Ok?
    ensures var e := Build(s).value;
            var f := Bracket(e).value;
            var o := Decode(f.code, f.rex, e.IsVsib());
            && |f.code| <= 6 && o.Some? && o.value.Memory?
            && (EffectiveAddress(o.value, f.is32bit, e.IsVsib(), env) == Truncate(Meaning(s, env), f.is32bit)
                <==> DispFits(e))
  {
    hide Encode, Decode, EffectiveAddress, Truncate, Address, Meaning, Expected, IsInInt32;
    BuildExactly(s);
    BracketExactly(s);
    var e := Build(s).value;
    BuildKeepsMeaning(s, env);
    OptimizeKeepsAddress(e, env);
    DecodeEncode(e.Optimize());
    EncodedAddress(e.Optimize(), env);
    TruncateCongruent(Address(e, env), Meaning(s, env), Bracket(e).value.is32bit);
  }

  // ---------------------------------------------------------------- no shorter bytes

  // The operand a register expression means, whatever the bits of an absent index say of its scale.
  predicate Means(o: Operand, e: RegExp) {
    o.Memory? && o.base == Expected(e).base && o.index == Expected(e).index && o.disp == Expected(e).disp
    && (e.index.bit != 0 ==> o.scale == e.scale)
  }

  // The encoder chooses the shortest of all the bytes that the processor reads as this operand.
  lemma EncodeIsShortest(e: RegExp, code: seq<Byte>, rex: Byte)
    requires e.Valid() && e.Verify() == None
    requires var o := Decode(code, rex, e.IsVsib()); o.Some? && Means(o.value, e)
    ensures |Encode(e).code| <= |code|
  {}

  // [reg * 2] is rewritten as [reg + reg] because that is shorter, for every displacement of one byte.
  lemma OptimizeShortens(e: RegExp)
    requires e.Valid() && e.Verify() == None
    ensures |Encode(e.Optimize()).code| < |Encode(e).code| <==>
              && !e.IsVsib() && e.base.bit == 0 && e.index.bit != 0 && e.scale == 2
              && -128 <= Sext32(e.disp % W32) <= 127
  {}

  // A REX prefix is there exactly when a register of the upper eight needs it, and extends nothing else.
  lemma RexExactly(e: RegExp)
    requires e.Valid()
    ensures Encode(e).rex == 0 <==> e.base.idx < 8 && e.index.idx < 8
    ensures Encode(e).rex != 0 ==> Encode(e).rex / 4 == 0x10
  {}
}
