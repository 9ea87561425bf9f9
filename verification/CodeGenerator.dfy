/** The code buffer and label manager as objects that are updated in place. Every method is the
corresponding function on `Labels.Gen`, applied to the bytes and tables the object holds. */
module CodeGenerators {
  import opened Labels
  import opened LabelTheorems
  import opened Words

  // A buffer grows to at least this, and so that a statement of this size fits.
  const MIN_BUFFER: nat := 4096
  const SPLIT_ROOM: nat := 16

  // Removing the first pending reference to a label, with the reference resolved first.
  lemma {:induction false} ResolveFirst<T(!new)>(g: Gen, undefs: seq<Pending<T>>, id: T, addr: nat, k: nat)
    requires AllInside(g, undefs) && k < |undefs| && undefs[k].key == id
    requires forall i :: 0 <= i < k ==> undefs[i].key != id
    ensures JmpInside(g, undefs[k].jmp)
    ensures Without(undefs, id) == Without(undefs[..k] + undefs[k + 1..], id)
    ensures ResolveOne(g, undefs[k].jmp, addr).Ok? ==>
              && AllInside(ResolveOne(g, undefs[k].jmp, addr).value, undefs[..k] + undefs[k + 1..])
              && ResolveAll(g, undefs, id, addr)
                   == ResolveAll(ResolveOne(g, undefs[k].jmp, addr).value, undefs[..k] + undefs[k + 1..], id, addr)
    ensures ResolveOne(g, undefs[k].jmp, addr).Err? ==>
              ResolveAll(g, undefs, id, addr) == Err(ResolveOne(g, undefs[k].jmp, addr).error)
    decreases k
  {
    assert undefs[k] in undefs;
    var rest := undefs[..k] + undefs[k + 1..];
    if k == 0 {
      assert rest == undefs[1..];
    } else {
      var tail := undefs[1..];
      ResolveFirst(g, tail, id, addr, k - 1);
      assert rest[0] == undefs[0] && rest[1..] == tail[..k - 1] + tail[k..];
    }
  }

  lemma {:induction false} NothingToResolve<T(!new)>(g: Gen, undefs: seq<Pending<T>>, id: T, addr: nat)
    requires AllInside(g, undefs) && forall i :: 0 <= i < |undefs| ==> undefs[i].key != id
    ensures ResolveAll(g, undefs, id, addr) == Ok(g) && Without(undefs, id) == undefs
    decreases |undefs|
  {
    if undefs != [] {
      NothingToResolve(g, undefs[1..], id, addr);
      assert [undefs[0]] + undefs[1..] == undefs;
    }
  }

  // v >> (i * 8)
  function Shifted(v: nat, i: nat): nat {
    if i == 0 then v else Shifted(v, i - 1) / 256
  }

  lemma {:induction false} ShiftedTail(v: nat, i: nat)
    ensures Shifted(v / 256, i) == Shifted(v, i + 1)
  {
    if i > 0 {
      ShiftedTail(v, i - 1);
    }
  }

  lemma {:induction false} LEBytes(v: nat, n: nat, i: nat)
    requires i < n
    ensures LE(v, n)[i] == Shifted(v, i) % 256
  {
    if i > 0 {
      LEBytes(v / 256, n - 1, i - 1);
      ShiftedTail(v, i - 1);
    }
  }

  // A patch of which the first i bytes have been written.
  ghost function PartlyPatched(code: seq<Byte>, off: nat, bytes: seq<Byte>, i: nat): (r: seq<Byte>)
    requires off + |bytes| <= |code| && i <= |bytes|
    ensures |r| == |code|
  {
    code[..off] + bytes[..i] + code[off + i..]
  }

  lemma PatchOneMore(code: seq<Byte>, off: nat, bytes: seq<Byte>, i: nat)
    requires off + |bytes| <= |code| && i <= |bytes|
    ensures PartlyPatched(code, off, bytes, 0) == code
    ensures PartlyPatched(code, off, bytes, |bytes|) == Patch(code, off, bytes)
    ensures i < |bytes| ==>
              PartlyPatched(code, off, bytes, i)[off + i := bytes[i]] == PartlyPatched(code, off, bytes, i + 1)
  {}

  lemma TwoScopes(g: Gen)
    requires Inside(g)
    ensures |g.scopes| >= 2
  {}

  lemma {:induction false} RunMore(g: Gen, prog: seq<Stmt>, s: Stmt)
    requires Inside(g) && Run(g, prog).Ok?
    ensures Run(g, prog + [s]) == Emit(Run(g, prog).value, s)
    decreases |prog|
  {
    hide Emit, Inside;
    if prog == [] {
      assert [s][1..] == [];
    } else {
      assert (prog + [s])[1..] == prog[1..] + [s];
      RunMore(Emit(g, prog[0]).value, prog[1..], s);
    }
  }

  lemma {:induction false} RunKeepsBuffer(g: Gen, prog: seq<Stmt>)
    requires Inside(g) && Run(g, prog).Ok?
    ensures Run(g, prog).value.buffer == g.buffer
    decreases |prog|
  {
    hide Emit, Inside;
    if prog != [] {
      EmitBuffer(g, prog[0]);
      RunKeepsBuffer(Emit(g, prog[0]).value, prog[1..]);
    }
  }

  lemma {:induction false} FirstError(g: Gen, prog: seq<Stmt>, i: nat)
    requires Inside(g) && i <= |prog| && Run(g, prog[..i]).Err?
    ensures Run(g, prog) == Run(g, prog[..i])
    decreases i
  {
    hide Emit, Inside;
    if i > 0 {
      assert prog[..i][1..] == prog[1..][..i - 1];
      if Emit(g, prog[0]).Ok? {
        FirstError(Emit(g, prog[0]).value, prog[1..], i - 1);
      }
    }
  }

  class CodeGenerator {
    const growing: bool
    var buf: array<Byte>
    var top: Uint64
    var size: nat
    var saved: seq<AddrInfo>
    var scopes: seq<Scope<string>>
    var objects: Scope<nat>

    ghost predicate Fits()
      reads this
    {
      size <= buf.Length <= MAX_ALLOC
    }

    ghost function State(): Gen
      reads this, buf
      requires Fits()
    {
      Gen(buf[..size], if growing then AutoGrow else Fixed(buf.Length, top), saved, scopes, objects)
    }

    ghost predicate Valid()
      reads this, buf
    {
      Fits() && Inside(State()) && SavedInside(saved, size)
    }

    // The buffer that had room for n bytes has grown no further than to twice what a statement may need.
    ghost predicate GrownFrom(n: nat)
      reads this
    {
      || buf.Length == n
      || (growing && n <= buf.Length && (buf.Length <= MIN_BUFFER || buf.Length <= 2 * (size + SPLIT_ROOM)))
    }

    constructor (maxSize: nat, growing: bool, top: Uint64)
      requires maxSize <= MAX_ALLOC
      ensures Valid() && fresh(buf) && State() == Start(if growing then AutoGrow else Fixed(maxSize, top))
    {
      this.growing, this.top := growing, top;
      buf := new Byte[maxSize];
      size, saved := 0, [];
      scopes, objects := [Scope(map[], []), Scope(map[], [])], Scope(map[], []);
    }

    // Moves to a buffer twice as large, somewhere else.
    method GrowMemory() returns (r: Result<()>)
      requires Fits() && growing
      modifies this`buf, this`top
      ensures Fits() && State() == old(State())
      ensures r.Ok? ==> fresh(buf)
      ensures r.Ok? ==> buf.Length == if 2 * old(buf.Length) < MIN_BUFFER then MIN_BUFFER else 2 * old(buf.Length)
      ensures r.Err? ==> r.error == CantAlloc && buf == old(buf)
    {
      var newSize := if 2 * buf.Length < MIN_BUFFER then MIN_BUFFER else 2 * buf.Length;
      var refused := *;
      if newSize > MAX_ALLOC || refused {
        return Err(CantAlloc);
      }
      var newBuf := new Byte[newSize];
      for i := 0 to size
        invariant buf == old(buf) && newBuf[..i] == buf[..i]
      {
        newBuf[i] := buf[i];
      }
      buf := newBuf;
      top := *;
      return Ok(());
    }

    method Db(code: Byte) returns (r: Result<()>)
      requires Fits()
      modifies this`buf, this`top, this`size, buf
      ensures Fits() && (buf == old(buf) || fresh(buf))
      ensures old(size) <= size && GrownFrom(old(buf.Length)) && (old(size < buf.Length) ==> r.Ok? && buf == old(buf))
      ensures r.Ok? ==> Labels.Db(old(State()), [code]) == Ok(State())
      ensures r.Err? ==> (growing && r.error == CantAlloc) || Labels.Db(old(State()), [code]) == Err(r.error)
    {
      ghost var before := State();
      if size >= buf.Length {
        if growing {
          var grown := GrowMemory();
          if grown.Err? {
            return grown;
          }
        } else {
          return Err(CodeIsTooBig);
        }
      }
      buf[size] := code;
      size := size + 1;
      assert buf[..size] == before.code + [code];
      return Ok(());
    }

    method DbBytes(code: seq<Byte>) returns (r: Result<()>)
      requires Fits()
      modifies this`buf, this`top, this`size, buf
      ensures Fits() && (buf == old(buf) || fresh(buf))
      ensures old(size) <= size && GrownFrom(old(buf.Length))
      ensures old(size + |code| <= buf.Length) ==> r.Ok? && buf == old(buf)
      ensures r.Ok? ==> Labels.Db(old(State()), code) == Ok(State()) && size == old(size) + |code|
      ensures r.Err? ==> (growing && r.error == CantAlloc) || Labels.Db(old(State()), code) == Err(r.error)
    {
      ghost var before := State();
      for i := 0 to |code|
        invariant Fits() && (buf == old(buf) || fresh(buf)) && GrownFrom(old(buf.Length)) && size == old(size) + i
        invariant old(size + |code| <= buf.Length) ==> buf == old(buf)
        invariant State() == before.(code := before.code + code[..i])
      {
        var s := Db(code[i]);
        if s.Err? {
          return s;
        }
        assert before.code + code[..i] + [code[i]] == before.code + code[..i + 1];
      }
      assert code[..|code|] == code;
      return Ok(());
    }

    // Overwrites n bytes, lowest first.
    method Rewrite(offset: nat, disp: Uint64, n: nat)
      requires Fits() && offset + n <= size
      modifies buf
      ensures buf[..size] == Patch(old(buf[..size]), offset, LE(disp, n))
    {
      ghost var before, bytes := buf[..size], LE(disp, n);
      var v: nat := disp;
      PatchOneMore(before, offset, bytes, 0);
      for i := 0 to n
        invariant v == Shifted(disp, i)
        invariant buf[..size] == PartlyPatched(before, offset, bytes, i)
      {
        LEBytes(disp, n, i);
        PatchOneMore(before, offset, bytes, i);
        ghost var partly := buf[..size];
        buf[offset + i] := v % 256;
        assert buf[..size] == partly[offset + i := bytes[i]];
        v := v / 256;
      }
    }

    method Save(offset: nat, val: Uint64, n: nat, mode: Mode)
      modifies this`saved
      ensures saved == old(saved) + [AddrInfo(offset, val, n, mode)]
    {
      saved := saved + [AddrInfo(offset, val, n, mode)];
    }

    // Resolves the pending references to a label one after another, each leaving the list.
    method DefineInner<T(==, !new)>(s: Scope<T>, id: T, addrOffset: nat) returns (r: Result<Scope<T>>)
      requires Valid() && AllInside(State(), s.undefs)
      modifies this`saved, buf
      ensures Fits()
      ensures match Labels.DefineInner(old(State()), s, id, addrOffset)
              case Ok((g, s')) => r == Ok(s') && State() == g && SavedInside(saved, size)
              case Err(e) => r == Err(e)
    {
      if id in s.defs {
        return Err(LabelIsRedefined);
      }
      ghost var goal := ResolveAll(State(), s.undefs, id, addrOffset);
      var undefs := s.undefs;
      while true
        invariant Fits() && AllInside(State(), undefs) && SavedInside(saved, size)
        invariant ResolveAll(State(), undefs, id, addrOffset) == goal
        invariant Without(undefs, id) == Without(s.undefs, id)
        decreases |undefs|
      {
        var k := FindPending(undefs, id);
        if k == |undefs| {
          NothingToResolve(State(), undefs, id, addrOffset);
          break;
        }
        ResolveFirst(State(), undefs, id, addrOffset, k);
        var resolved := Resolve(undefs[k].jmp, addrOffset);
        if resolved.Err? {
          return Err(resolved.error);
        }
        undefs := undefs[..k] + undefs[k + 1..];
      }
      return Ok(Scope(s.defs[id := addrOffset], undefs));
    }

    method FindPending<T(==, !new)>(undefs: seq<Pending<T>>, id: T) returns (k: nat)
      ensures k <= |undefs| && (k < |undefs| ==> undefs[k].key == id)
      ensures forall i :: 0 <= i < k ==> undefs[i].key != id
    {
      k := 0;
      while k < |undefs| && undefs[k].key != id
        invariant k <= |undefs| && forall i :: 0 <= i < k ==> undefs[i].key != id
      {
        k := k + 1;
      }
    }

    method Resolve(jmp: JmpLabel, addrOffset: nat) returns (r: Result<()>)
      requires Fits() && JmpInside(State(), jmp) && SavedInside(saved, size)
      modifies this`saved, buf
      ensures Fits() && SavedInside(saved, size)
      ensures match ResolveOne(old(State()), jmp, addrOffset)
              case Ok(g) => r == Ok(()) && State() == g
              case Err(e) => r == Err(e)
    {
      hide LE, IsInInt32, IsInDisp8;
      var offset := jmp.endOfJmp - jmp.jmpSize;
      var disp: Uint64;
      if jmp.mode == AddTop {
        disp := addrOffset % W64;
      } else if jmp.mode == Absolute {
        disp := (size + if growing then 0 else top) % W64;
      } else {
        disp := (addrOffset - jmp.endOfJmp + jmp.disp) % W64;
        if jmp.jmpSize <= 4 && !IsInInt32(disp) {
          return Err(OffsetIsTooBig);
        }
        if jmp.jmpSize == 1 && !IsInDisp8(disp % W32) {
          return Err(LabelIsTooFar);
        }
      }
      if growing {
        Save(offset, disp, jmp.jmpSize, jmp.mode);
      } else {
        Rewrite(offset, disp, jmp.jmpSize);
      }
      return Ok(());
    }

    // Completes the code of a growing buffer: every saved rewrite, with the final address.
    method CalcJmpAddress()
      requires Fits() && SavedInside(saved, size)
      modifies buf
      ensures buf[..size] == Rewritten(old(buf[..size]), saved, top)
    {
      hide Patch, LE;
      ghost var goal := Rewritten(buf[..size], saved, top);
      assert saved[0..] == saved;
      for i := 0 to |saved|
        invariant SavedInside(saved[i..], size) && Rewritten(buf[..size], saved[i..], top) == goal
      {
        var a := saved[i];
        assert saved[i..][0] == a && saved[i..][1..] == saved[i + 1..];
        var val: Uint64 :=
          if a.mode == AddTop then (a.jmpAddr + top) % W64
          else if a.mode == AsIs then a.jmpAddr
          else (a.jmpAddr - top) % W64;
        Rewrite(a.codeOffset, val, a.jmpSize);
      }
    }

    // -------------------------------------------------------------- statements

    // What a statement leaves: the generator function's state, or its error.
    ghost predicate Matches(expected: Result<Gen>, r: Result<()>)
      reads this, buf
      requires Fits()
    {
      match r
      case Ok(_) => expected == Ok(State())
      case Err(e) => expected == Err(e)
    }

    // The same of a statement that emits code: a growing buffer may run out of memory.
    ghost predicate Agrees(expected: Result<Gen>, r: Result<()>)
      reads this, buf
      requires Fits()
    {
      (growing && r == Err(CantAlloc)) || Matches(expected, r)
    }

    method AvoidSplit() returns (r: Result<()>)
      requires Valid()
      modifies this`buf, this`top
      ensures Valid() && State() == old(State()) && (buf == old(buf) || fresh(buf))
      ensures r.Err? ==> growing && r.error == CantAlloc
      ensures GrownFrom(old(buf.Length)) && (old(size + SPLIT_ROOM < buf.Length) ==> r.Ok? && buf == old(buf))
      ensures r.Ok? && growing ==> size + SPLIT_ROOM < buf.Length
    {
      r := Ok(());
      if growing && size + SPLIT_ROOM >= buf.Length {
        r := GrowMemory();
      }
    }

    // Looks a label up; an anonymous one under the name that is in use.
    method GetOffset(target: Ref) returns (r: Result<Found>)
      requires Valid()
      ensures r == Labels.GetOffset(State(), target)
    {
      match target
      case Object(id) =>
        return Ok(if id in objects.defs then At(objects.defs[id]) else Later(target));
      case Name(label_) =>
        var name, defs := label_, scopes[0].defs;
        if name == "@b" {
          if "@f" in defs {
            name := "@f";
          } else if "@b" !in defs {
            return Err(LabelIsNotFound);
          }
        } else if name == "@f" && "@f" in defs {
          name := "@b";
        }
        var st := scopes[if IsLocal(name) then |scopes| - 1 else 0];
        return Ok(if name in st.defs then At(st.defs[name]) else Later(Name(name)));
    }

    method AddUndefinedLabel(target: Ref, jmp: JmpLabel)
      requires Valid() && JmpInside(State(), jmp)
      modifies this`scopes, this`objects
      ensures Valid() && State() == AddUndefined(old(State()), target, jmp)
    {
      match target
      case Object(id) =>
        objects := objects.(undefs := objects.undefs + [Pending(id, jmp)]);
      case Name(name) =>
        var i := if IsLocal(name) then |scopes| - 1 else 0;
        scopes := scopes[i := scopes[i].(undefs := scopes[i].undefs + [Pending(name, jmp)])];
    }

    method OpJmp(s: Stmt) returns (r: Result<()>)
      requires s.Jump? && Valid()
      modifies this, buf
      ensures Fits() && (buf == old(buf) || fresh(buf))
      ensures r.Ok? ==> Valid()
      ensures Agrees(Labels.OpJmp(old(State()), s), r)
      ensures old(size) <= size && GrownFrom(old(buf.Length))
      ensures old(size + SPLIT_ROOM < buf.Length) ==>
                buf == old(buf) && Matches(Labels.OpJmp(old(State()), s), r)
    {
      hide Inside, Labels.GetOffset, AddUndefined, IsInInt32, IsInDisp8;
      TwoScopes(State());
      r := AvoidSplit();
      if r.Err? {
        return;
      }
      var found := GetOffset(s.target);
      if found.Err? {
        return Err(found.error);
      }
      match found.value
      case At(offset) =>
        var disp := (offset - size) % W64;
        if !IsInInt32(disp) {
          return Err(OffsetIsTooBig);
        }
        r := MakeJmp(disp % W32, s);
      case Later(name) =>
        var jmpSize := if s.jmpType == Near then 4 else 1;
        r := DbBytes(if s.jmpType == Near then LongHead(s) + Zeros(4) else [s.shortCode, 0]);
        if r.Ok? {
          AddUndefinedLabel(name, JmpLabel(size, jmpSize, AsIs, 0));
        }
    }

    method MakeJmp(disp: int, s: Stmt) returns (r: Result<()>)
      requires s.Jump? && Valid()
      modifies this`buf, this`top, this`size, buf
      ensures Fits() && (buf == old(buf) || fresh(buf))
      ensures r.Ok? ==> Valid()
      ensures Agrees(Labels.MakeJmp(old(State()), disp, s), r)
      ensures old(size) <= size && GrownFrom(old(buf.Length))
      ensures old(size + SPLIT_ROOM < buf.Length) ==>
                buf == old(buf) && Matches(Labels.MakeJmp(old(State()), disp, s), r)
    {
      hide Inside, IsInDisp8;
      if s.jmpType != Near && IsInDisp8((disp - 2) % W32) {
        r := DbBytes([s.shortCode, (disp - 2) % 256]);
      } else {
        if s.jmpType == Short {
          return Err(LabelIsTooFar);
        }
        r := DbBytes(LongHead(s) + LE((disp - |LongHead(s)| - 4) % W32, 4));
      }
    }

    // A field relative to the next instruction.
    method PutRelative(target: Ref, disp: Uint64) returns (r: Result<()>)
      requires Valid()
      modifies this, buf
      ensures Fits() && (buf == old(buf) || fresh(buf))
      ensures r.Ok? ==> Valid()
      ensures Agrees(Labels.PutRelative(old(State()), target, disp), r)
      ensures old(size) <= size && GrownFrom(old(buf.Length))
      ensures old(size + SPLIT_ROOM < buf.Length) ==>
                buf == old(buf) && Matches(Labels.PutRelative(old(State()), target, disp), r)
    {
      hide Inside, Labels.GetOffset, AddUndefined, IsInInt32;
      TwoScopes(State());
      r := AvoidSplit();
      if r.Err? {
        return;
      }
      var found := GetOffset(target);
      if found.Err? {
        return Err(found.error);
      }
      match found.value
      case At(offset) =>
        var d := (offset + disp - size - 4) % W64;
        if !IsInInt32(d) {
          return Err(OffsetIsTooBig);
        }
        r := DbBytes(LE(d, 4));
      case Later(name) =>
        r := DbBytes(Zeros(4));
        if r.Ok? {
          AddUndefinedLabel(name, JmpLabel(size, 4, AsIs, disp));
        }
    }

    // The absolute address of a label, eight bytes.
    method PutAddress(target: Ref) returns (r: Result<()>)
      requires Valid()
      modifies this, buf
      ensures Fits() && (buf == old(buf) || fresh(buf))
      ensures r.Ok? ==> Valid()
      ensures Agrees(Labels.PutAddress(old(State()), target), r)
      ensures old(size) <= size && GrownFrom(old(buf.Length))
      ensures old(size + SPLIT_ROOM < buf.Length) ==>
                buf == old(buf) && Matches(Labels.PutAddress(old(State()), target), r)
    {
      hide Inside, Labels.GetOffset, AddUndefined, LE, Zeros;
      TwoScopes(State());
      r := AvoidSplit();
      if r.Err? {
        return;
      }
      var found := GetOffset(target);
      if found.Err? {
        return Err(found.error);
      }
      match found.value
      case At(offset) =>
        if growing {
          r := DbBytes(Zeros(8));
          if r.Ok? {
            Save(size - 8, offset % W64, 8, AddTop);
            assert Labels.PutAddress(old(State()), target) == Ok(State());
          }
        } else {
          r := DbBytes(LE((top + offset) % W64, 8));
        }
      case Later(name) =>
        r := DbBytes(Zeros(8));
        if r.Ok? {
          AddUndefinedLabel(name, JmpLabel(size, 8, if growing then AddTop else Absolute, 0));
        }
    }

    method DefineClabel(id: nat) returns (r: Result<()>)
      requires Valid()
      modifies this`objects, this`saved, buf
      ensures Fits() && buf == old(buf)
      ensures r.Ok? ==> Valid()
      ensures Matches(DefineLabel(old(State()), Object(id)), r)
    {
      var s := DefineInner(objects, id, size);
      if s.Err? {
        return Err(s.error);
      }
      objects := s.value;
      return Ok(());
    }

    method DefineSlabel(label_: string) returns (r: Result<()>)
      requires Valid()
      modifies this`scopes, this`saved, buf
      ensures Fits() && buf == old(buf)
      ensures r.Ok? ==> Valid()
      ensures Matches(DefineLabel(old(State()), Name(label_)), r)
    {
      if label_ == "@b" || label_ == "@f" {
        return Err(BadLabelStr);
      }
      var name := label_;
      if name == "@@" {
        var st := scopes[0];
        if "@f" in st.defs {
          scopes := scopes[0 := st.(defs := st.defs - {"@f"})];
          name := "@b";
        } else {
          scopes := scopes[0 := st.(defs := st.defs - {"@b"})];
          name := "@f";
        }
      }
      hide ResolveAll;
      var i := if IsLocal(name) then |scopes| - 1 else 0;
      var s := DefineInner(scopes[i], name, size);
      if s.Err? {
        return Err(s.error);
      }
      scopes := scopes[i := s.value];
      return Ok(());
    }

    method EnterLocal()
      requires Valid()
      modifies this`scopes
      ensures Valid() && Emit(old(State()), Stmt.EnterLocal) == Ok(State())
    {
      scopes := scopes + [Scope(map[], [])];
    }

    method LeaveLocal() returns (r: Result<()>)
      requires Valid()
      modifies this`scopes
      ensures Valid() && Matches(Emit(old(State()), Stmt.LeaveLocal), r)
    {
      if |scopes| <= 2 {
        return Err(UnderLocalLabel);
      }
      if scopes[|scopes| - 1].undefs != [] {
        return Err(LabelIsNotFound);
      }
      scopes := scopes[..|scopes| - 1];
      return Ok(());
    }

    method Ready() returns (r: Result<()>)
      requires Valid()
      modifies buf
      ensures Fits()
      ensures match Labels.Ready(old(State()), top)
              case Ok(code) => r == Ok(()) && buf[..size] == code
              case Err(e) => r == Err(e)
    {
      if objects.undefs != [] {
        return Err(LabelIsNotFound);
      }
      for i := 0 to |scopes|
        invariant buf[..size] == old(buf[..size]) && forall j :: 0 <= j < i ==> scopes[j].undefs == []
      {
        if scopes[i].undefs != [] {
          return Err(LabelIsNotFound);
        }
      }
      CalcJmpAddress();
      return Ok(());
    }

    // -------------------------------------------------------------- whole programs

    method Perform(s: Stmt) returns (r: Result<()>)
      requires Valid()
      modifies this, buf
      ensures Fits() && (buf == old(buf) || fresh(buf))
      ensures r.Ok? ==> Valid()
      ensures Agrees(Emit(old(State()), s), r)
      ensures old(size) <= size && GrownFrom(old(buf.Length))
      ensures old(size) + SPLIT_ROOM + (if s.Raw? then |s.bytes| else 0) < old(buf.Length) ==>
                buf == old(buf) && Matches(Emit(old(State()), s), r)
    {
      hide Inside, Labels.OpJmp, Labels.PutRelative, Labels.PutAddress, Leave, DefineLabel;
      match s
      case Raw(bytes) => r := DbBytes(bytes);
      case Jump(_, _, _, _, _) => r := OpJmp(s);
      case RipField(target, disp) => r := PutRelative(target, disp);
      case AddressField(target) => r := PutAddress(target);
      case Define(Object(id)) => r := DefineClabel(id);
      case Define(Name(name)) => r := DefineSlabel(name);
      case EnterLocal =>
        EnterLocal();
        r := Ok(());
      case LeaveLocal => r := LeaveLocal();
    }

    /** Emits a program into a new generator and completes it. What is then in the buffer is the finished code
    of the program; otherwise the error is the one of the program, or a growing buffer ran out of memory. A fixed
    buffer assembles exactly the accepted programs that leave no label undefined. */
    method Assemble(prog: seq<Stmt>) returns (r: Result<()>)
      requires Valid() && State() == Start(if growing then AutoGrow else Fixed(buf.Length, top))
      modifies this, buf
      ensures Fits()
      ensures r.Ok? ==> Finished(buf[..size], prog, top)
      ensures GrownFrom(old(buf.Length))
      ensures r.Err? && !(growing && r.error == CantAlloc) ==>
                match Run(old(State()), prog)
                case Ok(g) => HasUndefined(g) && r.error == LabelIsNotFound
                case Err(e) => r.error == e
      ensures !growing ==>
                (r.Ok? <==> Run(old(State()), prog).Ok? && !HasUndefined(Run(old(State()), prog).value))
    {
      hide Emit, Run, Inside, Finished, Labels.Ready, HasUndefined;
      ghost var start := State();
      ghost var buffer := start.buffer;
      RunNothing(start);
      for i := 0 to |prog|
        invariant Valid() && (buf == old(buf) || fresh(buf)) && GrownFrom(old(buf.Length))
        invariant Run(start, prog[..i]) == Ok(State())
      {
        RunMore(start, prog[..i], prog[i]);
        assert prog[..i + 1] == prog[..i] + [prog[i]];
        r := Perform(prog[i]);
        if r.Err? {
          if !(growing && r.error == CantAlloc) {
            FirstError(start, prog, i + 1);
          }
          return;
        }
      }
      assert prog[..|prog|] == prog;
      ghost var g := State();
      RunKeepsBuffer(start, prog);
      ReadyExactly(g, top);
      r := Ready();
      if r.Ok? {
        EveryFieldHits(buffer, prog, top);
      }
    }
  }

  lemma RunNothing(g: Gen)
    requires Inside(g)
    ensures Run(g, []) == Ok(g)
  {}

  lemma ReadyExactly(g: Gen, top: Uint64)
    requires SavedInside(g.saved, |g.code|)
    ensures Labels.Ready(g, top).Err? <==> HasUndefined(g)
    ensures Labels.Ready(g, top).Err? ==> Labels.Ready(g, top).error == LabelIsNotFound
  {}
}
