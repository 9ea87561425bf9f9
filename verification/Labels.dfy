/** Label resolution of the assembler.

`Gen` is the state of the one-pass code generator: the bytes so far, the label tables with their
pending references and, for a growing buffer, the rewrites saved for the end. `Layout` is the
reference, a two-pass assembler that knows no label tables: the first pass lays out the code with
zeros in every label field, the second fills the fields in. The theorem at the end says that an
accepted program yields the same bytes both ways.
*/
module Labels {
  import opened Words

  // No buffer is larger than half the address space.
  const MAX_ALLOC: int := 0x8000_0000_0000_0000

  datatype Error =
    | CodeIsTooBig | CantAlloc | LabelIsRedefined | OffsetIsTooBig
    | LabelIsTooFar | LabelIsNotFound | UnderLocalLabel | BadLabelStr

  datatype Result<+T> = Ok(value: T) | Err(error: Error) {
    predicate IsFailure() { Err? }

    function PropagateFailure<U>(): Result<U>
      requires Err?
    {
      Err(error)
    }

    function Extract(): T
      requires Ok?
    {
      value
    }
  }

  // ---------------------------------------------------------------- bytes

  function Patch(code: seq<Byte>, off: nat, bytes: seq<Byte>): (r: seq<Byte>)
    requires off + |bytes| <= |code|
    ensures |r| == |code|
  {
    code[..off] + bytes + code[off + |bytes|..]
  }

  function Zeros(n: nat): (r: seq<Byte>)
    ensures |r| == n
  {
    seq(n, _ => 0)
  }

  // ---------------------------------------------------------------- the program

  datatype JmpType = Short | Near | Auto

  // A label is a string or a label object, told apart by its id.
  datatype Ref = Name(name: string) | Object(id: nat)

  datatype Stmt =
    | Raw(bytes: seq<Byte>)
    | Jump(target: Ref, jmpType: JmpType, shortCode: Byte, longCode: Byte, longPref: Byte)
    | RipField(target: Ref, disp: Uint64)
    | AddressField(target: Ref)
    | Define(which: Ref)
    | EnterLocal
    | LeaveLocal

  function LongHead(s: Stmt): seq<Byte>
    requires s.Jump?
  {
    if s.longPref != 0 then [s.longPref, s.longCode] else [s.longCode]
  }

  predicate IsLocal(name: string) { name != [] && name[0] == '.' }

  // ---------------------------------------------------------------- the one-pass generator

  datatype Mode = AsIs | Absolute | AddTop

  datatype JmpLabel = JmpLabel(endOfJmp: nat, jmpSize: nat, mode: Mode, disp: Uint64)

  datatype Pending<T> = Pending(key: T, jmp: JmpLabel)

  datatype Scope<T> = Scope(defs: map<T, nat>, undefs: seq<Pending<T>>)

  datatype AddrInfo = AddrInfo(codeOffset: nat, jmpAddr: Uint64, jmpSize: nat, mode: Mode)

  datatype Buffer = Fixed(maxSize: nat, top: Uint64) | AutoGrow

  datatype Gen = Gen(code: seq<Byte>, buffer: Buffer, saved: seq<AddrInfo>,
                     scopes: seq<Scope<string>>, objects: Scope<nat>)

  // The global scope is the first one, the current local scope the last.
  function Start(buffer: Buffer): Gen {
    Gen([], buffer, [], [Scope(map[], []), Scope(map[], [])], Scope(map[], []))
  }

  function Db(g: Gen, bytes: seq<Byte>): (r: Result<Gen>)
    ensures Inside(g) && r.Ok? ==> Inside(r.value)
  {
    if g.buffer.Fixed? && |g.code| + |bytes| > g.buffer.maxSize then Err(CodeIsTooBig)
    else if |g.code| + |bytes| > MAX_ALLOC then Err(CantAlloc)
    else Ok(g.(code := g.code + bytes))
  }

  function ResolvedDisp(g: Gen, jmp: JmpLabel, addr: nat): Result<Uint64> {
    match jmp.mode
    case AddTop => Ok(addr % W64)
    case Absolute => Ok((|g.code| + if g.buffer.Fixed? then g.buffer.top else 0) % W64)
    case AsIs =>
      var disp := (addr - jmp.endOfJmp + jmp.disp) % W64;
      if jmp.jmpSize <= 4 && !IsInInt32(disp) then Err(OffsetIsTooBig)
      else if jmp.jmpSize == 1 && !IsInDisp8(disp % W32) then Err(LabelIsTooFar)
      else Ok(disp)
  }

  predicate JmpInside(g: Gen, jmp: JmpLabel) {
    jmp.jmpSize <= jmp.endOfJmp <= |g.code|
  }

  function ResolveOne(g: Gen, jmp: JmpLabel, addr: nat): Result<Gen>
    requires JmpInside(g, jmp)
  {
    var disp :- ResolvedDisp(g, jmp, addr);
    var off := jmp.endOfJmp - jmp.jmpSize;
    Ok(if g.buffer.AutoGrow? then g.(saved := g.saved + [AddrInfo(off, disp, jmp.jmpSize, jmp.mode)])
       else g.(code := Patch(g.code, off, LE(disp, jmp.jmpSize))))
  }

  ghost predicate AllInside<T(!new)>(g: Gen, undefs: seq<Pending<T>>) {
    forall p :: p in undefs ==> JmpInside(g, p.jmp)
  }

  // Every pending reference to the label is resolved and leaves the list.
  function ResolveAll<T(==, !new)>(g: Gen, undefs: seq<Pending<T>>, id: T, addr: nat): (r: Result<Gen>)
    requires AllInside(g, undefs)
    ensures r.Ok? ==> |r.value.code| == |g.code| && r.value.buffer == g.buffer
                      && r.value.scopes == g.scopes && r.value.objects == g.objects
    decreases |undefs|
  {
    if undefs == [] then Ok(g)
    else
      assert JmpInside(g, undefs[0].jmp);
      if undefs[0].key != id then ResolveAll(g, undefs[1..], id, addr)
      else
        var g' :- ResolveOne(g, undefs[0].jmp, addr);
        ResolveAll(g', undefs[1..], id, addr)
  }

  function Without<T(==, !new)>(undefs: seq<Pending<T>>, id: T): (r: seq<Pending<T>>)
    ensures forall p :: p in r ==> p in undefs
  {
    if undefs == [] then []
    else (if undefs[0].key == id then [] else [undefs[0]]) + Without(undefs[1..], id)
  }

  function DefineInner<T(==, !new)>(g: Gen, s: Scope<T>, id: T, addr: nat): (r: Result<(Gen, Scope<T>)>)
    requires AllInside(g, s.undefs)
    ensures r.Ok? ==> |r.value.0.code| == |g.code| && r.value.0.buffer == g.buffer
                      && r.value.0.scopes == g.scopes && r.value.0.objects == g.objects
                      && AllInside(g, r.value.1.undefs)
  {
    if id in s.defs then Err(LabelIsRedefined)
    else
      var g' :- ResolveAll(g, s.undefs, id, addr);
      Ok((g', Scope(s.defs[id := addr], Without(s.undefs, id))))
  }

  function ScopeIndex(g: Gen, name: string): nat
    requires |g.scopes| >= 2
  {
    if IsLocal(name) then |g.scopes| - 1 else 0
  }

  ghost predicate Inside(g: Gen) {
    && |g.scopes| >= 2 && |g.code| <= MAX_ALLOC
    && (forall i :: 0 <= i < |g.scopes| ==> AllInside(g, g.scopes[i].undefs))
    && AllInside(g, g.objects.undefs)
  }

  function DefineNamed(g: Gen, name: string): (r: Result<Gen>)
    requires Inside(g)
    ensures r.Ok? ==> Inside(r.value)
  {
    var i := ScopeIndex(g, name);
    var (g', s) :- DefineInner(g, g.scopes[i], name, |g.code|);
    Ok(g'.(scopes := g.scopes[i := s]))
  }

  // The two names of anonymous labels take turns; the one that goes out of use is forgotten.
  function DefineLabel(g: Gen, which: Ref): (r: Result<Gen>)
    requires Inside(g)
    ensures r.Ok? ==> Inside(r.value)
  {
    match which
    case Object(id) =>
      var (g', s) :- DefineInner(g, g.objects, id, |g.code|);
      Ok(g'.(objects := s))
    case Name(name) =>
      if name == "@b" || name == "@f" then Err(BadLabelStr)
      else if name == "@@" then
        var s := g.scopes[0];
        if "@f" in s.defs then DefineNamed(g.(scopes := g.scopes[0 := s.(defs := s.defs - {"@f"})]), "@b")
        else DefineNamed(g.(scopes := g.scopes[0 := s.(defs := s.defs - {"@b"})]), "@f")
      else DefineNamed(g, name)
  }

  // The name under which a reference to an anonymous label is looked up.
  function ActualName(g: Gen, name: string): Result<string>
    requires |g.scopes| >= 2
  {
    var defs := g.scopes[0].defs;
    if name == "@b" then
      if "@f" in defs then Ok("@f") else if "@b" !in defs then Err(LabelIsNotFound) else Ok("@b")
    else if name == "@f" && "@f" in defs then Ok("@b")
    else Ok(name)
  }

  datatype Found = At(offset: nat) | Later(name: Ref)

  function GetOffset(g: Gen, target: Ref): Result<Found>
    requires |g.scopes| >= 2
  {
    match target
    case Object(id) => Ok(if id in g.objects.defs then At(g.objects.defs[id]) else Later(target))
    case Name(n) =>
      var name :- ActualName(g, n);
      var defs := g.scopes[ScopeIndex(g, name)].defs;
      Ok(if name in defs then At(defs[name]) else Later(Name(name)))
  }

  function AddUndefined(g: Gen, target: Ref, jmp: JmpLabel): (r: Gen)
    requires |g.scopes| >= 2
    ensures Inside(g) && JmpInside(g, jmp) ==> Inside(r)
  {
    match target
    case Object(id) => g.(objects := g.objects.(undefs := g.objects.undefs + [Pending(id, jmp)]))
    case Name(name) =>
      var i := ScopeIndex(g, name);
      var s := g.scopes[i];
      g.(scopes := g.scopes[i := s.(undefs := s.undefs + [Pending(name, jmp)])])
  }

  // A jump to a label that is already defined: the short form when it reaches.
  function MakeJmp(g: Gen, disp: int, s: Stmt): (r: Result<Gen>)
    requires s.Jump?
    ensures Inside(g) && r.Ok? ==> Inside(r.value)
  {
    var near := (disp - |LongHead(s)| - 4) % W32;
    if s.jmpType != Near && IsInDisp8((disp - 2) % W32) then Db(g, [s.shortCode, (disp - 2) % 256])
    else if s.jmpType == Short then Err(LabelIsTooFar)
    else Db(g, LongHead(s) + LE(near, 4))
  }

  function OpJmp(g: Gen, s: Stmt): (r: Result<Gen>)
    requires s.Jump? && |g.scopes| >= 2
    ensures Inside(g) && r.Ok? ==> Inside(r.value)
  {
    var found :- GetOffset(g, s.target);
    match found
    case At(offset) =>
      var disp := (offset - |g.code|) % W64;
      if !IsInInt32(disp) then Err(OffsetIsTooBig) else MakeJmp(g, disp % W32, s)
    case Later(name) =>
      if s.jmpType == Near then
        var g' :- Db(g, LongHead(s) + Zeros(4));
        Ok(AddUndefined(g', name, JmpLabel(|g'.code|, 4, AsIs, 0)))
      else
        var g' :- Db(g, [s.shortCode, 0]);
        Ok(AddUndefined(g', name, JmpLabel(|g'.code|, 1, AsIs, 0)))
  }

  function PutRelative(g: Gen, target: Ref, disp: Uint64): (r: Result<Gen>)
    requires |g.scopes| >= 2
    ensures Inside(g) && r.Ok? ==> Inside(r.value)
  {
    var found :- GetOffset(g, target);
    match found
    case At(offset) =>
      var d := (offset + disp - |g.code| - 4) % W64;
      if !IsInInt32(d) then Err(OffsetIsTooBig) else Db(g, LE(d, 4))
    case Later(name) =>
      var g' :- Db(g, Zeros(4));
      Ok(AddUndefined(g', name, JmpLabel(|g'.code|, 4, AsIs, disp)))
  }

  function PutAddress(g: Gen, target: Ref): (r: Result<Gen>)
    requires |g.scopes| >= 2
    ensures Inside(g) && r.Ok? ==> Inside(r.value)
  {
    var found :- GetOffset(g, target);
    match found
    case At(offset) =>
      (match g.buffer
       case AutoGrow =>
         var g' :- Db(g, Zeros(8));
         Ok(g'.(saved := g'.saved + [AddrInfo(|g.code|, offset % W64, 8, AddTop)]))
       case Fixed(_, top) => Db(g, LE((top + offset) % W64, 8)))
    case Later(name) =>
      var g' :- Db(g, Zeros(8));
      Ok(AddUndefined(g', name, JmpLabel(|g'.code|, 8, if g.buffer.AutoGrow? then AddTop else Absolute, 0)))
  }

  function Leave(g: Gen): (r: Result<Gen>)
    requires |g.scopes| >= 2
    ensures Inside(g) && r.Ok? ==> Inside(r.value)
  {
    if |g.scopes| <= 2 then Err(UnderLocalLabel)
    else if g.scopes[|g.scopes| - 1].undefs != [] then Err(LabelIsNotFound)
    else Ok(g.(scopes := g.scopes[..|g.scopes| - 1]))
  }

  function Emit(g: Gen, s: Stmt): (r: Result<Gen>)
    requires Inside(g)
    ensures r.Ok? ==> Inside(r.value)
  {
    match s
    case Raw(bytes) => Db(g, bytes)
    case Jump(_, _, _, _, _) => OpJmp(g, s)
    case RipField(target, disp) => PutRelative(g, target, disp)
    case AddressField(target) => PutAddress(g, target)
    case Define(which) => DefineLabel(g, which)
    case EnterLocal => Ok(g.(scopes := g.scopes + [Scope(map[], [])]))
    case LeaveLocal => Leave(g)
  }

  function SavedBytes(a: AddrInfo, top: Uint64): seq<Byte> {
    LE(if a.mode == AddTop then (a.jmpAddr + top) % W64
       else if a.mode == AsIs then a.jmpAddr
       else (a.jmpAddr - top) % W64,
       a.jmpSize)
  }

  ghost predicate SavedInside(saved: seq<AddrInfo>, n: nat) {
    forall i :: 0 <= i < |saved| ==> saved[i].codeOffset + saved[i].jmpSize <= n
  }

  // The saved rewrites of a growing buffer, done once its final address is known.
  function Rewritten(code: seq<Byte>, saved: seq<AddrInfo>, top: Uint64): (r: seq<Byte>)
    requires SavedInside(saved, |code|)
    ensures |r| == |code|
    decreases |saved|
  {
    if saved == [] then code
    else
      assert saved[0].codeOffset + saved[0].jmpSize <= |code|;
      Rewritten(Patch(code, saved[0].codeOffset, SavedBytes(saved[0], top)), saved[1..], top)
  }

  predicate HasUndefined(g: Gen) {
    (exists i :: 0 <= i < |g.scopes| && g.scopes[i].undefs != []) || g.objects.undefs != []
  }

  function Ready(g: Gen, top: Uint64): Result<seq<Byte>>
    requires SavedInside(g.saved, |g.code|)
  {
    if HasUndefined(g) then Err(LabelIsNotFound) else Ok(Rewritten(g.code, g.saved, top))
  }

  function Run(g: Gen, prog: seq<Stmt>): (r: Result<Gen>)
    requires Inside(g)
    ensures r.Ok? ==> Inside(r.value)
    decreases |prog|
  {
    if prog == [] then Ok(g)
    else
      var g' :- Emit(g, prog[0]);
      Run(g', prog[1..])
  }

  // ---------------------------------------------------------------- the two-pass reference

  // What a label reference stands for, once and for all: scopes are numbered as they are opened,
  // anonymous labels as they are defined.
  datatype Binding = Global(name: string) | Local(scope: nat, name: string) | Anon(k: nat) | Obj(id: nat)

  datatype Field = Field(off: nat, size: nat, relative: bool, disp: Uint64, target: Binding)

  datatype Layout = Layout(template: seq<Byte>, fields: seq<Field>, bound: map<Binding, nat>,
                           anon: nat, open: seq<nat>, nextScope: nat)

  function Blank(): Layout {
    Layout([], [], map[], 0, [0, 1], 2)
  }

  function BindingOf(l: Layout, r: Ref): Binding
    requires l.open != []
  {
    match r
    case Object(id) => Obj(id)
    case Name(name) => if IsLocal(name) then Local(l.open[|l.open| - 1], name) else Global(name)
  }

  // `@f` is the next anonymous label to come, `@b` the last one defined.
  function Used(l: Layout, r: Ref): Binding
    requires l.open != []
  {
    if r == Name("@f") then Anon(l.anon)
    else if r == Name("@b") && l.anon > 0 then Anon(l.anon - 1)
    else BindingOf(l, r)
  }

  function Defined(l: Layout, r: Ref): Binding
    requires l.open != []
  {
    if r == Name("@@") then Anon(l.anon) else BindingOf(l, r)
  }

  function AddField(l: Layout, head: seq<Byte>, size: nat, relative: bool, disp: Uint64, target: Binding): Layout {
    l.(template := l.template + head + Zeros(size),
       fields := l.fields + [Field(|l.template| + |head|, size, relative, disp, target)])
  }

  // The short form for a label that is near enough behind, or that is still to come.
  predicate TakesShort(l: Layout, s: Stmt, target: Binding)
    requires s.Jump?
  {
    s.jmpType != Near && (target in l.bound ==> -128 <= l.bound[target] - |l.template| - 2 <= 127)
  }

  function LayOne(l: Layout, s: Stmt): Layout
    requires l.open != []
  {
    match s
    case Raw(bytes) => l.(template := l.template + bytes)
    case Jump(r, _, shortCode, _, _) =>
      var target := Used(l, r);
      if TakesShort(l, s, target) then AddField(l, [shortCode], 1, true, 0, target)
      else AddField(l, LongHead(s), 4, true, 0, target)
    case RipField(r, disp) => AddField(l, [], 4, true, disp, Used(l, r))
    case AddressField(r) => AddField(l, [], 8, false, 0, Used(l, r))
    case Define(r) =>
      l.(bound := l.bound[Defined(l, r) := |l.template|], anon := l.anon + if r == Name("@@") then 1 else 0)
    case EnterLocal => l.(open := l.open + [l.nextScope], nextScope := l.nextScope + 1)
    case LeaveLocal => if |l.open| > 2 then l.(open := l.open[..|l.open| - 1]) else l
  }

  function Lay(l: Layout, prog: seq<Stmt>): Layout
    requires |l.open| >= 2
    decreases |prog|
  {
    if prog == [] then l else Lay(LayOne(l, prog[0]), prog[1..])
  }

  function FieldBytes(f: Field, addr: nat, top: Uint64): (r: seq<Byte>)
    ensures |r| == f.size
  {
    LE(if f.relative then (addr - (f.off + f.size) + f.disp) % W64 else (addr + top) % W64, f.size)
  }

  // Fields follow each other without overlap between lo and hi.
  predicate Sorted(fields: seq<Field>, lo: nat, hi: nat)
    decreases |fields|
  {
    if fields == [] then lo <= hi
    else lo <= fields[0].off && fields[0].off + fields[0].size <= hi
         && Sorted(fields[1..], fields[0].off + fields[0].size, hi)
  }

  // The second pass.
  function Fill(code: seq<Byte>, fields: seq<Field>, bound: map<Binding, nat>, top: Uint64): (r: seq<Byte>)
    requires exists lo: nat :: Sorted(fields, lo, |code|)
    ensures |r| == |code|
    decreases |fields|
  {
    if fields == [] then code
    else
      var f := fields[0];
      var code' := if f.target in bound then Patch(code, f.off, FieldBytes(f, bound[f.target], top)) else code;
      assert Sorted(fields[1..], f.off + f.size, |code'|);
      Fill(code', fields[1..], bound, top)
  }
}
