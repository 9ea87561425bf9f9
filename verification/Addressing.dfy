/** x64 addressing modes: the register expressions of the assembler, their encoding as ModR/M, SIB
and displacement bytes, and a decoder that follows the processor manual.

Bytes are naturals below 256. Where the program joins disjoint bit fields with a shift and an or,
the model adds the shifted fields.
*/
module Addressing {
  import opened Options
  import opened Words

  const ESP: nat := 4
  const EBP: nat := 5

  datatype Error = BadSizeOfRegister | BadScale | BadAddressing | EspCantBeIndex

  datatype Result<+T> = Ok(value: T) | Err(error: Error)

  // ---------------------------------------------------------------- register expressions

  datatype Kind = GPR | MMX | XMM | YMM | FPU

  datatype Reg = Reg(kind: Kind, bit: nat, idx: nat) {
    predicate Valid() {
      && idx < 16
      && match kind
         case GPR => bit in {8, 16, 32, 64}
         case MMX => bit == 64
         case XMM => bit == 128
         case YMM => bit == 256
         case FPU => bit == 32
    }
  }

  // A register slot of an expression, absent when `bit` is zero.
  datatype SReg = SReg(bit: nat, idx: nat)

  const NO_REG := SReg(0, 0)

  // [base + index * scale + disp], disp counted modulo 2^64
  datatype RegExp = RegExp(disp: Uint64, scale: nat, base: SReg, index: SReg) {
    predicate IsVsib() { index.bit >= 128 }

    predicate Valid() {
      && base.bit in {0, 32, 64} && index.bit in {0, 32, 64, 128, 256}
      && base.idx < 16 && index.idx < 16
      && (base.bit == 0 ==> base.idx == 0) && (index.bit == 0 ==> index.idx == 0)
      && (index.bit != 0 ==> scale in {1, 2, 4, 8})
    }

    // [reg * 2] is shorter as [reg + reg].
    function Optimize(): RegExp {
      if !IsVsib() && base.bit == 0 && index.bit != 0 && scale == 2
      then this.(base := index, scale := 1)
      else this
    }

    function Verify(): Option<Error> {
      if base.bit >= 128 then Some(BadSizeOfRegister)
      else if index.bit != 0 && index.bit <= 64 then
        if index.idx == ESP then Some(EspCantBeIndex)
        else if base.bit != 0 && base.bit != index.bit then Some(BadSizeOfRegister)
        else None
      else None
    }
  }

  function OfDisp(d: Uint64): RegExp {
    RegExp(d, 0, NO_REG, NO_REG)
  }

  function OfReg(r: Reg, scale: int): Result<RegExp> {
    if !(r.kind == GPR && r.bit in {32, 64}) && r.kind != XMM && r.kind != YMM then Err(BadSizeOfRegister)
    else if scale !in {1, 2, 4, 8} then Err(BadScale)
    else if r.bit >= 128 || scale != 1 then Ok(RegExp(0, scale, NO_REG, SReg(r.bit, r.idx)))
    else Ok(RegExp(0, scale, SReg(r.bit, r.idx), NO_REG))
  }

  function Plus(a: RegExp, b: RegExp): Result<RegExp> {
    if a.index.bit != 0 && b.index.bit != 0 then Err(BadAddressing)
    else
      var r := if a.index.bit == 0 then a.(index := b.index, scale := b.scale) else a;
      var disp := (a.disp + b.disp) % W64;
      if b.base.bit == 0 then Ok(r.(disp := disp))
      else if r.base.bit == 0 then Ok(r.(base := b.base, disp := disp))
      else if r.index.bit != 0 then Err(BadAddressing)
      // base + base becomes base + index * 1, with the stack pointer as the base
      else if b.base.idx == ESP then Ok(RegExp(disp, 1, b.base, r.base))
      else Ok(RegExp(disp, 1, r.base, b.base))
  }

  function Minus(a: RegExp, d: Uint64): RegExp {
    a.(disp := (a.disp - d) % W64)
  }

  // The sums a caller writes down.
  datatype Sum = Term(r: Reg, scale: int) | Const(d: Uint64) | Add(a: Sum, b: Sum) | Sub(a: Sum, d: Uint64)

  predicate RealRegs(s: Sum) {
    match s
    case Term(r, _) => r.Valid()
    case Const(_) => true
    case Add(a, b) => RealRegs(a) && RealRegs(b)
    case Sub(a, _) => RealRegs(a)
  }

  function Build(s: Sum): (r: Result<RegExp>)
    ensures RealRegs(s) && r.Ok? ==> r.value.Valid()
  {
    match s
    case Term(r, scale) => OfReg(r, scale)
    case Const(d) => Ok(OfDisp(d))
    case Add(a, b) =>
      (match (Build(a), Build(b))
       case (Ok(x), Ok(y)) => Plus(x, y)
       case (Err(e), _) => Err(e)
       case (_, Err(e)) => Err(e))
    case Sub(a, d) =>
      (match Build(a)
       case Ok(x) => Ok(Minus(x, d))
       case Err(e) => Err(e))
  }

  // ---------------------------------------------------------------- meaning

  // Register contents; `vec` is the lane of the vector registers that is being addressed.
  datatype Env = Env(gpr: nat -> Uint64, vec: nat -> Uint64)

  function Times(scale: int, x: int): int {
    if scale == 1 then x
    else if scale == 2 then 2 * x
    else if scale == 4 then 4 * x
    else if scale == 8 then 8 * x
    else 0
  }

  function Value(env: Env, bit: nat, idx: nat): int {
    if bit >= 128 then env.vec(idx) else env.gpr(idx)
  }

  function Meaning(s: Sum, env: Env): int {
    match s
    case Term(r, scale) => Times(scale, Value(env, r.bit, r.idx))
    case Const(d) => d
    case Add(a, b) => Meaning(a, env) + Meaning(b, env)
    case Sub(a, d) => Meaning(a, env) - d
  }

  function Address(e: RegExp, env: Env): int {
    (if e.base.bit == 0 then 0 else Value(env, e.base.bit, e.base.idx)) +
    (if e.index.bit == 0 then 0 else Times(e.scale, Value(env, e.index.bit, e.index.idx))) +
    e.disp
  }

  lemma TermMeaning(r: Reg, scale: int, env: Env)
    requires r.Valid() && OfReg(r, scale).Ok?
    ensures Address(OfReg(r, scale).value, env) == Times(scale, Value(env, r.bit, r.idx))
  {}

  lemma ConstMeaning(d: Uint64, env: Env)
    ensures Address(OfDisp(d), env) == d
  {}

  // Building a register expression keeps the sum, modulo 2^64.
  lemma {:induction false} BuildKeepsMeaning(s: Sum, env: Env)
    requires RealRegs(s) && Build(s).Ok?
    ensures (Address(Build(s).value, env) - Meaning(s, env)) % W64 == 0
  {
    hide Address, Plus, Minus, OfReg, OfDisp, Times, Value, RegExp.Valid;
    match s
    case Term(r, scale) => TermMeaning(r, scale, env);
    case Const(d) => ConstMeaning(d, env);
    case Add(a, b) =>
      BuildKeepsMeaning(a, env);
      BuildKeepsMeaning(b, env);
      var x, y, r := Build(a).value, Build(b).value, Build(s).value;
      PlusAdds(x, y, env);
      Congruent(Address(r, env) - Address(x, env) - Address(y, env),
                Address(x, env) - Meaning(a, env), Address(y, env) - Meaning(b, env));
    case Sub(a, d) =>
      BuildKeepsMeaning(a, env);
      var x, r := Build(a).value, Build(s).value;
      MinusSubtracts(x, d, env);
      Congruent(Address(r, env) - Address(x, env) + d, Address(x, env) - Meaning(a, env), 0);
  }

  lemma MinusSubtracts(a: RegExp, d: Uint64, env: Env)
    requires a.Valid()
    ensures Minus(a, d).Valid()
    ensures (Address(Minus(a, d), env) - Address(a, env) + d) % W64 == 0
  {}

  lemma Congruent(x: int, y: int, z: int)
    requires x % W64 == 0 && y % W64 == 0 && z % W64 == 0
    ensures (x + y + z) % W64 == 0
  {}

  lemma PlusAdds(a: RegExp, b: RegExp, env: Env)
    requires a.Valid() && b.Valid() && Plus(a, b).Ok?
    ensures Plus(a, b).value.Valid()
    ensures (Address(Plus(a, b).value, env) - Address(a, env) - Address(b, env)) % W64 == 0
  {}

  // ---------------------------------------------------------------- encoding

  datatype Frame = Frame(code: seq<Byte>, rex: Byte, is32bit: bool)

  function ModOf(base: SReg, disp: Uint32): nat {
    if base.bit == 0 || (base.idx % 8 != EBP && disp == 0) then 0
    else if IsInDisp8(disp) then 1
    else 2
  }

  function ScaleBits(scale: int): nat {
    if scale == 8 then 3 else if scale == 4 then 2 else if scale == 2 then 1 else 0
  }

  function DispBytes(mod: nat, hasBase: bool, disp: Uint32): seq<Byte> {
    if mod == 1 then [disp % 256]
    else if mod == 2 || (mod == 0 && !hasBase) then LE(disp, 4)
    else []
  }

  function ModRmSib(e: RegExp, mod: nat): seq<Byte>
    requires e.Valid() && mod < 3
  {
    var baseIdx := if e.base.bit != 0 then e.base.idx % 8 else EBP;
    var hasSib := e.index.bit != 0 || e.base.idx % 8 == ESP || (e.base.bit == 0 && e.index.bit == 0);
    if hasSib then
      var indexIdx := if e.index.bit != 0 then e.index.idx % 8 else ESP;
      [64 * mod + ESP, 64 * ScaleBits(e.scale) + 8 * indexIdx + baseIdx]
    else [64 * mod + baseIdx]
  }

  function Encode(e: RegExp): Frame
    requires e.Valid()
  {
    var disp := e.disp % W32;
    var mod := ModOf(e.base, disp);
    var ext := 2 * (e.index.idx / 8) + e.base.idx / 8;
    Frame(ModRmSib(e, mod) + DispBytes(mod, e.base.bit != 0, disp),
          if ext != 0 then 0x40 + ext else 0,
          e.base.bit == 32 || e.index.bit == 32)
  }

  function MakeAddress(e: RegExp): Result<Frame>
    requires e.Valid()
  {
    match e.Verify()
    case Some(error) => Err(error)
    case None => Ok(Encode(e))
  }

  // operator[] on a register expression
  function Bracket(e: RegExp): Result<Frame>
    requires e.Valid()
  {
    MakeAddress(e.Optimize())
  }

  // ---------------------------------------------------------------- decoding (64-bit mode)

  datatype Operand =
    | Memory(base: Option<nat>, index: Option<nat>, scale: nat, disp: int)
    | RipRelative(disp: int)

  // The displacement that makes up all of the bytes: none, one byte or four bytes.
  function DecodeDisp(size: nat, code: seq<Byte>): Option<int> {
    if |code| != size then None
    else if size == 0 then Some(0)
    else if size == 1 then Some(Sext8(code[0]))
    else if size == 4 then Some(Sext32(ReadLE(code)))
    else None
  }

  function High(b: Byte): int { b / 64 }

  function Mid(b: Byte): int { b / 8 % 8 }

  function Low(b: Byte): int { b % 8 }

  // The REX bits that extend the index and the base, worth eight registers each.
  function RexX(rex: Byte): nat { if rex / 2 % 2 == 1 then 8 else 0 }

  function RexB(rex: Byte): nat { if rex % 2 == 1 then 8 else 0 }

  // Tables 2-2 and 2-3 of the manual with REX.X and REX.B as the fourth index and base bit.
  // An index field of 4 without REX.X means no index, unless it names a vector register.
  function Decode(code: seq<Byte>, rex: Byte, vsib: bool): Option<Operand> {
    if |code| < 1 || High(code[0]) == 3 then None
    else
      var mod, rm := High(code[0]), Low(code[0]);
      if rm == 4 then
        if |code| < 2 then None
        else
          var ss, index, base := High(code[1]), Mid(code[1]) + RexX(rex), Low(code[1]);
          var noBase := base == 5 && mod == 0;
          (match DecodeDisp(if mod == 1 then 1 else if mod == 2 || noBase then 4 else 0, code[2..])
           case None => None
           case Some(disp) =>
             Some(Memory(if noBase then None else Some(base + RexB(rex)),
                         if index == 4 && !vsib then None else Some(index),
                         if ss == 0 then 1 else if ss == 1 then 2 else if ss == 2 then 4 else 8,
                         disp)))
      else if rm == 5 && mod == 0 then
        (match DecodeDisp(4, code[1..])
         case None => None
         case Some(disp) => Some(RipRelative(disp)))
      else
        (match DecodeDisp(if mod == 1 then 1 else if mod == 2 then 4 else 0, code[1..])
         case None => None
         case Some(disp) => Some(Memory(Some(rm + RexB(rex)), None, 1, disp)))
  }

  // Where the processor looks: addresses wrap at the address size.
  function EffectiveAddress(o: Operand, is32bit: bool, vsib: bool, env: Env): int
    requires o.Memory?
  {
    Truncate((if o.base.None? then 0 else env.gpr(o.base.value)) +
             (if o.index.None? then 0
              else Times(o.scale, if vsib then env.vec(o.index.value) else env.gpr(o.index.value))) +
             o.disp,
             is32bit)
  }

  function Truncate(x: int, is32bit: bool): int {
    if is32bit then x % W32 else x % W64
  }

  // ---------------------------------------------------------------- the decoder undoes the encoder

  // What the encoder puts into the bytes, field by field.
  function Expected(e: RegExp): Operand {
    Memory(if e.base.bit == 0 then None else Some(e.base.idx),
           if e.index.bit == 0 then None else Some(e.index.idx),
           if e.index.bit == 0 then 1 else e.scale,
           Sext32(e.disp % W32))
  }

  lemma DispRoundTrip(mod: nat, hasBase: bool, disp: Uint32)
    requires mod == 1 ==> IsInDisp8(disp)
    requires mod == 0 && hasBase ==> disp == 0
    requires mod < 3
    ensures DecodeDisp(if mod == 1 then 1 else if mod == 2 || !hasBase then 4 else 0,
                       DispBytes(mod, hasBase, disp)) == Some(Sext32(disp))
  {
    ReadLE4(disp);
  }

  lemma DecodeEncode(e: RegExp)
    requires e.Valid() && e.Verify() == None
    ensures |Encode(e).code| <= 6
    ensures var o := Decode(Encode(e).code, Encode(e).rex, e.IsVsib());
            && o.Some? && o.value.Memory?
            && o.value == Expected(e).(scale := o.value.scale)
            && (e.index.bit != 0 ==> o.value.scale == e.scale)
  {
    var disp := e.disp % W32;
    var mod := ModOf(e.base, disp);
    var head, tail := ModRmSib(e, mod), DispBytes(mod, e.base.bit != 0, disp);
    DispRoundTrip(mod, e.base.bit != 0, disp);
    hide DispBytes, DecodeDisp, Sext32;
    assert e.base.bit != 0 ==> !(e.base.idx % 8 == EBP && mod == 0);
    hide ModOf;
    if |head| == 2 {
      WithSib(e, mod, tail);
    } else {
      WithoutSib(e, mod, tail);
    }
  }

  lemma WithSib(e: RegExp, mod: nat, tail: seq<Byte>)
    requires e.Valid() && e.Verify() == None && mod < 3 && |ModRmSib(e, mod)| == 2
    requires e.base.bit == 0 ==> mod == 0
    requires e.base.bit != 0 ==> !(e.base.idx % 8 == EBP && mod == 0)
    requires DecodeDisp(if mod == 1 then 1 else if mod == 2 || e.base.bit == 0 then 4 else 0, tail)
             == Some(Expected(e).disp)
    ensures var o := Decode(ModRmSib(e, mod) + tail, Encode(e).rex, e.IsVsib());
            && o.Some? && o.value.Memory?
            && o.value == Expected(e).(scale := o.value.scale)
            && (e.index.bit != 0 ==> o.value.scale == e.scale)
  {
    hide High, Mid, Low, RexX, RexB, DecodeDisp, Sext32, DispBytes, ModOf;
    var code := ModRmSib(e, mod) + tail;
    var baseIdx := if e.base.bit != 0 then e.base.idx % 8 else EBP;
    var indexIdx := if e.index.bit != 0 then e.index.idx % 8 else ESP;
    assert code[2..] == tail;
    ModRmFields(mod, ESP);
    SibFields(ScaleBits(e.scale), indexIdx, baseIdx);
    RexFields(e.index.idx, e.base.idx);
  }

  lemma WithoutSib(e: RegExp, mod: nat, tail: seq<Byte>)
    requires e.Valid() && e.Verify() == None && mod < 3 && |ModRmSib(e, mod)| == 1
    requires e.base.bit != 0 ==> !(e.base.idx % 8 == EBP && mod == 0)
    requires DecodeDisp(if mod == 1 then 1 else if mod == 2 then 4 else 0, tail) == Some(Expected(e).disp)
    ensures Decode(ModRmSib(e, mod) + tail, Encode(e).rex, e.IsVsib()) == Some(Expected(e))
  {
    hide High, Mid, Low, RexX, RexB, DecodeDisp, Sext32, DispBytes, ModOf;
    var code := ModRmSib(e, mod) + tail;
    assert code[1..] == tail;
    ModRmFields(mod, e.base.idx % 8);
    RexFields(e.index.idx, e.base.idx);
  }

  lemma ModRmFields(mod: nat, rm: nat)
    requires mod < 4 && rm < 8
    ensures High(64 * mod + rm) == mod && Low(64 * mod + rm) == rm
  {}

  lemma SibFields(ss: nat, index: nat, base: nat)
    requires ss < 4 && index < 8 && base < 8
    ensures var sib := 64 * ss + 8 * index + base; High(sib) == ss && Mid(sib) == index && Low(sib) == base
  {}

  lemma RexFields(index: nat, base: nat)
    requires index < 16 && base < 16
    ensures var ext := 2 * (index / 8) + base / 8;
            var rex := if ext != 0 then 0x40 + ext else 0;
            && index % 8 + RexX(rex) == index
            && base % 8 + RexB(rex) == base
  {}

  // Exactly when a displacement survives the encoder: it is a sign-extended 32-bit number,
  // or addresses wrap at 32 bits anyway.
  predicate DispFits(e: RegExp) {
    e.base.bit == 32 || e.index.bit == 32 || IsInInt32(e.disp)
  }

  lemma TruncateCongruent(x: int, y: int, is32bit: bool)
    requires (x - y) % W64 == 0
    ensures Truncate(x, is32bit) == Truncate(y, is32bit)
  {
    var k := (x - y) / W64;
    assert x == y + k * W64;
    if is32bit {
      assert x == y + (k * W32) * W32;
    }
  }

  // What sign extension of the low word loses is a multiple of 2^32 and, when it fits, of 2^64.
  lemma SextGap(disp: Uint64)
    ensures var gap := disp - Sext32(disp % W32);
            gap % W32 == 0 && 0 <= gap <= W64 && (gap % W64 == 0 <==> IsInInt32(disp))
  {
    var q, r := disp / W32, disp % W32;
    assert disp == q * W32 + r && 0 <= q < W32;
  }

  lemma WrapMultiple(x: int, gap: int)
    requires gap % W32 == 0 && 0 <= gap <= W64
    ensures (x + gap) % W32 == x % W32
    ensures (x + gap) % W64 == x % W64 <==> gap % W64 == 0
  {
    var k := gap / W32;
    assert x + gap == x + k * W32;
  }

  lemma SextTruncate(rest: int, disp: Uint64, is32bit: bool)
    ensures Truncate(rest + Sext32(disp % W32), is32bit) == Truncate(rest + disp, is32bit)
            <==> is32bit || IsInInt32(disp)
  {
    hide Sext32, IsInInt32;
    SextGap(disp);
    WrapMultiple(rest + Sext32(disp % W32), disp - Sext32(disp % W32));
  }

  // The bytes address what the register expression says, if and only if its displacement fits.
  lemma EncodedAddress(e: RegExp, env: Env)
    requires e.Valid() && e.Verify() == None
    ensures var f := Encode(e);
            var o := Decode(f.code, f.rex, e.IsVsib());
            && o.Some? && o.value.Memory?
            && (EffectiveAddress(o.value, f.is32bit, e.IsVsib(), env) == Truncate(Address(e, env), f.is32bit)
                <==> DispFits(e))
  {
    DecodeEncode(e);
    var f := Encode(e);
    var rest := Address(e, env) - e.disp;
    SextTruncate(rest, e.disp, f.is32bit);
    hide Encode, Decode, Sext32, Truncate;
    assert f.is32bit == (e.base.bit == 32 || e.index.bit == 32);
  }

  // [rax + 0x80000000] is accepted, and the processor subtracts.
  lemma CutDisplacement(env: Env)
    ensures var e := RegExp(0x8000_0000, 1, SReg(64, 0), NO_REG);
            && e.Valid() && Bracket(e) == Ok(Encode(e)) && !DispFits(e)
            && var o := Decode(Encode(e).code, Encode(e).rex, false);
               o.Some? && EffectiveAddress(o.value, false, false, env) != Truncate(Address(e, env), false)
  {
    EncodedAddress(RegExp(0x8000_0000, 1, SReg(64, 0), NO_REG), env);
  }

  // Doubling a lone index into base plus index changes neither the address nor what is accepted,
  // and never makes the encoding longer.
  lemma OptimizeKeepsAddress(e: RegExp, env: Env)
    requires e.Valid()
    ensures e.Optimize().Valid() && Address(e.Optimize(), env) == Address(e, env)
    ensures e.Optimize().Verify() == e.Verify() && DispFits(e.Optimize()) == DispFits(e)
    ensures e.Optimize().IsVsib() == e.IsVsib()
    ensures |Encode(e.Optimize()).code| <= |Encode(e).code|
  {}
}
