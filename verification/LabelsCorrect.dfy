/** The one-pass generator computes what the two-pass reference lays out and fills in. */
module LabelsCorrect {
  import opened Labels
  import opened Options
  import opened Words

  // ---------------------------------------------------------------- patches

  lemma PatchAppend(c: seq<Byte>, x: seq<Byte>, off: nat, bytes: seq<Byte>)
    requires off + |bytes| <= |c|
    ensures Patch(c + x, off, bytes) == Patch(c, off, bytes) + x
  {}

  lemma PatchZeros(c: seq<Byte>, bytes: seq<Byte>)
    ensures Patch(c + Zeros(|bytes|), |c|, bytes) == c + bytes
  {}

  // Disjoint patches commute.
  lemma PatchCommute(c: seq<Byte>, o1: nat, b1: seq<Byte>, o2: nat, b2: seq<Byte>)
    requires o1 + |b1| <= o2 && o2 + |b2| <= |c|
    ensures Patch(Patch(c, o1, b1), o2, b2) == Patch(Patch(c, o2, b2), o1, b1)
  {}

  lemma {:induction false} SortedAppend(fields: seq<Field>, f: Field, lo: nat, mid: nat, hi: nat)
    requires Sorted(fields, lo, mid) && mid <= f.off && f.off + f.size <= hi
    ensures Sorted(fields + [f], lo, hi)
    decreases |fields|
  {
    if fields == [] {
    } else {
      assert (fields + [f])[1..] == fields[1..] + [f];
      SortedAppend(fields[1..], f, fields[0].off + fields[0].size, mid, hi);
    }
  }

  lemma {:induction false} SortedWiden(fields: seq<Field>, lo: nat, hi: nat, hi': nat)
    requires Sorted(fields, lo, hi) && hi <= hi'
    ensures Sorted(fields, lo, hi')
    decreases |fields|
  {
    if fields != [] {
      SortedWiden(fields[1..], fields[0].off + fields[0].size, hi, hi');
    }
  }

  lemma {:induction false} FillAppendBytes(c: seq<Byte>, x: seq<Byte>, fields: seq<Field>, bound: map<Binding, nat>,
                                           top: Uint64, lo: nat)
    requires Sorted(fields, lo, |c|) && Sorted(fields, lo, |c + x|)
    ensures Fill(c + x, fields, bound, top) == Fill(c, fields, bound, top) + x
    decreases |fields|
  {
    if fields != [] {
      var f := fields[0];
      if f.target in bound {
        PatchAppend(c, x, f.off, FieldBytes(f, bound[f.target], top));
        FillAppendBytes(Patch(c, f.off, FieldBytes(f, bound[f.target], top)), x, fields[1..], bound, top,
                        f.off + f.size);
      } else {
        FillAppendBytes(c, x, fields[1..], bound, top, f.off + f.size);
      }
    }
  }

  lemma {:induction false} FillAppendField(c: seq<Byte>, fields: seq<Field>, f: Field, bound: map<Binding, nat>,
                                           top: Uint64, lo: nat, mid: nat)
    requires Sorted(fields, lo, mid) && mid <= f.off && f.off + f.size <= |c|
    ensures Sorted(fields, lo, |c|) && Sorted(fields + [f], lo, |c|)
    ensures Fill(c, fields + [f], bound, top)
         == if f.target in bound then Patch(Fill(c, fields, bound, top), f.off, FieldBytes(f, bound[f.target], top))
            else Fill(c, fields, bound, top)
    decreases |fields|
  {
    SortedWiden(fields, lo, mid, |c|);
    SortedAppend(fields, f, lo, mid, |c|);
    if fields == [] {
      assert fields + [f] == [f];
    } else {
      var e := fields[0];
      var c' := if e.target in bound then Patch(c, e.off, FieldBytes(e, bound[e.target], top)) else c;
      assert (fields + [f])[1..] == fields[1..] + [f];
      FillAppendField(c', fields[1..], f, bound, top, e.off + e.size, mid);
    }
  }

  // A patch in front of all fields can be done before or after filling them.
  lemma {:induction false} FillCommute(c: seq<Byte>, off: nat, bytes: seq<Byte>, fields: seq<Field>,
                                       bound: map<Binding, nat>, top: Uint64, lo: nat)
    requires off + |bytes| <= lo && Sorted(fields, lo, |c|) && lo <= |c|
    ensures Fill(Patch(c, off, bytes), fields, bound, top) == Patch(Fill(c, fields, bound, top), off, bytes)
    decreases |fields|
  {
    if fields != [] {
      var f := fields[0];
      if f.target in bound {
        var fb := FieldBytes(f, bound[f.target], top);
        PatchCommute(c, off, bytes, f.off, fb);
        FillCommute(Patch(c, f.off, fb), off, bytes, fields[1..], bound, top, f.off + f.size);
      } else {
        FillCommute(c, off, bytes, fields[1..], bound, top, f.off + f.size);
      }
    }
  }

  // Patching in just the fields of one binding.
  function PatchBound(code: seq<Byte>, fields: seq<Field>, b: Binding, addr: nat, top: Uint64): (r: seq<Byte>)
    requires exists lo: nat :: Sorted(fields, lo, |code|)
    ensures |r| == |code|
    decreases |fields|
  {
    if fields == [] then code
    else
      var f := fields[0];
      var code' := if f.target == b then Patch(code, f.off, FieldBytes(f, addr, top)) else code;
      assert Sorted(fields[1..], f.off + f.size, |code'|);
      PatchBound(code', fields[1..], b, addr, top)
  }

  // Binding one more label after the fact fills exactly its own fields.
  lemma {:induction false} FillOneMore(c: seq<Byte>, fields: seq<Field>, bound: map<Binding, nat>, b: Binding,
                                       addr: nat, top: Uint64, lo: nat)
    requires Sorted(fields, lo, |c|) && b !in bound
    ensures Fill(c, fields, bound[b := addr], top) == PatchBound(Fill(c, fields, bound, top), fields, b, addr, top)
    decreases |fields|
  {
    if fields != [] {
      var f := fields[0];
      var rest, next := fields[1..], f.off + f.size;
      if f.target == b {
        var fb := FieldBytes(f, addr, top);
        FillOneMore(Patch(c, f.off, fb), rest, bound, b, addr, top, next);
        FillCommute(c, f.off, fb, rest, bound, top, next);
      } else if f.target in bound {
        FillOneMore(Patch(c, f.off, FieldBytes(f, bound[f.target], top)), rest, bound, b, addr, top, next);
      } else {
        FillOneMore(c, rest, bound, b, addr, top, next);
      }
    }
  }

  // ---------------------------------------------------------------- saved rewrites

  lemma {:induction false} RewrittenAppendBytes(c: seq<Byte>, x: seq<Byte>, saved: seq<AddrInfo>, top: Uint64)
    requires SavedInside(saved, |c|)
    ensures SavedInside(saved, |c + x|) && Rewritten(c + x, saved, top) == Rewritten(c, saved, top) + x
    decreases |saved|
  {
    if saved != [] {
      var a := saved[0];
      PatchAppend(c, x, a.codeOffset, SavedBytes(a, top));
      RewrittenAppendBytes(Patch(c, a.codeOffset, SavedBytes(a, top)), x, saved[1..], top);
    }
  }

  lemma {:induction false} RewrittenAppend(c: seq<Byte>, saved: seq<AddrInfo>, a: AddrInfo, top: Uint64)
    requires SavedInside(saved, |c|) && a.codeOffset + a.jmpSize <= |c|
    ensures SavedInside(saved + [a], |c|)
    ensures Rewritten(c, saved + [a], top) == Patch(Rewritten(c, saved, top), a.codeOffset, SavedBytes(a, top))
    decreases |saved|
  {
    if saved == [] {
      assert saved + [a] == [a];
      assert Rewritten(Patch(c, a.codeOffset, SavedBytes(a, top)), [], top)
               == Patch(c, a.codeOffset, SavedBytes(a, top));
    } else {
      assert (saved + [a])[1..] == saved[1..] + [a];
      RewrittenAppend(Patch(c, saved[0].codeOffset, SavedBytes(saved[0], top)), saved[1..], a, top);
    }
  }

  // ---------------------------------------------------------------- pending references

  // The names of the table of one scope. Only the next anonymous label can be pending.
  function NameIn(scope: nat, b: Binding): Option<string> {
    match b
    case Global(name) => if scope == 0 then Some(name) else None
    case Local(s, name) => if s == scope && s != 0 then Some(name) else None
    case Anon(k) => if scope == 0 then Some(AnonName(k)) else None
    case Obj(_) => None
  }

  function AnonName(k: nat): string {
    if k % 2 == 0 then "@f" else "@b"
  }

  function NamesOf(scope: nat): Binding -> Option<string> {
    b => NameIn(scope, b)
  }

  function IdOf(b: Binding): Option<nat> {
    if b.Obj? then Some(b.id) else None
  }

  function JmpOf(f: Field, growing: bool): JmpLabel {
    JmpLabel(f.off + f.size, f.size, if f.relative then AsIs else if growing then AddTop else Absolute, f.disp)
  }

  // The references a table waits for: its unbound fields, in the order in which they were emitted.
  function Waiting<T>(fields: seq<Field>, bound: map<Binding, nat>, key: Binding -> Option<T>,
                      growing: bool): seq<Pending<T>> {
    if fields == [] then []
    else
      (if fields[0].target !in bound && key(fields[0].target).Some?
       then [Pending(key(fields[0].target).value, JmpOf(fields[0], growing))] else [])
      + Waiting(fields[1..], bound, key, growing)
  }

  lemma {:induction false} WaitingAppend<T>(fields: seq<Field>, f: Field, bound: map<Binding, nat>,
                                            key: Binding -> Option<T>, growing: bool)
    ensures Waiting(fields + [f], bound, key, growing)
         == Waiting(fields, bound, key, growing) +
            if f.target !in bound && key(f.target).Some? then [Pending(key(f.target).value, JmpOf(f, growing))] else []
  {
    if fields == [] {
      assert fields + [f] == [f];
    } else {
      assert (fields + [f])[1..] == fields[1..] + [f];
      WaitingAppend(fields[1..], f, bound, key, growing);
      var head := if fields[0].target !in bound && key(fields[0].target).Some?
                  then [Pending(key(fields[0].target).value, JmpOf(fields[0], growing))] else [];
      var last := if f.target !in bound && key(f.target).Some?
                  then [Pending(key(f.target).value, JmpOf(f, growing))] else [];
      Assoc(head, Waiting(fields[1..], bound, key, growing), last);
    }
  }

  lemma Assoc<T>(a: seq<T>, b: seq<T>, c: seq<T>)
    ensures a + (b + c) == (a + b) + c
  {}

  // Among the unbound fields the key tells b apart.
  ghost predicate KeyTells<T(!new)>(fields: seq<Field>, bound: map<Binding, nat>, key: Binding -> Option<T>,
                                    b: Binding, id: T) {
    forall f :: f in fields && f.target !in bound ==> (key(f.target) == Some(id) <==> f.target == b)
  }

  lemma {:induction false} WaitingBind<T(!new)>(fields: seq<Field>, bound: map<Binding, nat>,
                                                key: Binding -> Option<T>, growing: bool,
                                                b: Binding, id: T, addr: nat)
    requires b !in bound && KeyTells(fields, bound, key, b, id)
    ensures Waiting(fields, bound[b := addr], key, growing) == Without(Waiting(fields, bound, key, growing), id)
  {
    if fields != [] {
      var f, rest := fields[0], Waiting(fields[1..], bound, key, growing);
      WaitingBind(fields[1..], bound, key, growing, b, id, addr);
      assert f in fields;
      if f.target !in bound && key(f.target).Some? {
        var w := [Pending(key(f.target).value, JmpOf(f, growing))] + rest;
        assert w[1..] == rest;
      } else {
        assert [] + rest == rest;
      }
    }
  }

  // Tables that do not know b wait for the same references as before.
  lemma {:induction false} WaitingOther<T(!new)>(fields: seq<Field>, bound: map<Binding, nat>,
                                                 key: Binding -> Option<T>, growing: bool,
                                                 b: Binding, addr: nat)
    requires b !in bound && key(b) == None
    ensures Waiting(fields, bound[b := addr], key, growing) == Waiting(fields, bound, key, growing)
  {
    if fields != [] {
      WaitingOther(fields[1..], bound, key, growing, b, addr);
    }
  }

  lemma {:induction false} NothingWaits<T>(fields: seq<Field>, bound: map<Binding, nat>, key: Binding -> Option<T>,
                                           growing: bool, f: Field)
    requires f in fields && f.target !in bound && key(f.target).Some?
    ensures Waiting(fields, bound, key, growing) != []
  {
    if f != fields[0] {
      NothingWaits(fields[1..], bound, key, growing, f);
    }
  }

  // ---------------------------------------------------------------- the image of a generator

  // What the code will be once the saved rewrites are done for this buffer address.
  function Image(g: Gen, top: Uint64): (r: seq<Byte>)
    requires SavedInside(g.saved, |g.code|)
    ensures |r| == |g.code|
  {
    Rewritten(g.code, g.saved, top)
  }

  ghost predicate Sane(g: Gen, top: Uint64) {
    && SavedInside(g.saved, |g.code|)
    && (g.buffer.Fixed? ==> top == g.buffer.top && g.saved == [])
  }

  lemma ResolvedValue(g: Gen, f: Field, addr: nat, top: Uint64)
    requires addr == |g.code| && (g.buffer.Fixed? ==> top == g.buffer.top)
    requires ResolvedDisp(g, JmpOf(f, g.buffer.AutoGrow?), addr).Ok?
    ensures var jmp, disp := JmpOf(f, g.buffer.AutoGrow?), ResolvedDisp(g, JmpOf(f, g.buffer.AutoGrow?), addr).value;
            if g.buffer.AutoGrow?
            then SavedBytes(AddrInfo(f.off, disp, f.size, jmp.mode), top) == FieldBytes(f, addr, top)
            else LE(disp, f.size) == FieldBytes(f, addr, top)
  {
    ModAdd(addr, top);
  }

  lemma ModAdd(x: nat, y: nat)
    ensures (x % W64 + y) % W64 == (x + y) % W64
  {}

  // Resolving a reference has the effect of filling its field, at once or at the end.
  lemma ResolveOneFills(g: Gen, f: Field, addr: nat, top: Uint64)
    requires Sane(g, top) && f.off + f.size <= |g.code| && addr == |g.code|
    requires ResolveOne(g, JmpOf(f, g.buffer.AutoGrow?), addr).Ok?
    ensures var g' := ResolveOne(g, JmpOf(f, g.buffer.AutoGrow?), addr).value;
            && Sane(g', top) && |g'.code| == |g.code|
            && Image(g', top) == Patch(Image(g, top), f.off, FieldBytes(f, addr, top))
  {
    var jmp := JmpOf(f, g.buffer.AutoGrow?);
    var disp := ResolvedDisp(g, jmp, addr).value;
    ResolvedValue(g, f, addr, top);
    hide FieldBytes, SavedBytes, ResolvedDisp;
    if g.buffer.AutoGrow? {
      RewrittenAppend(g.code, g.saved, AddrInfo(f.off, disp, f.size, jmp.mode), top);
    }
  }

  lemma {:induction false} ResolveAllFills<T(!new)>(g: Gen, fields: seq<Field>, bound: map<Binding, nat>,
                                                    key: Binding -> Option<T>,
                                                    b: Binding, id: T, addr: nat, top: Uint64, lo: nat)
    requires Sane(g, top) && addr == |g.code| && Sorted(fields, lo, |g.code|)
    requires b !in bound && KeyTells(fields, bound, key, b, id)
    requires AllInside(g, Waiting(fields, bound, key, g.buffer.AutoGrow?))
    requires ResolveAll(g, Waiting(fields, bound, key, g.buffer.AutoGrow?), id, addr).Ok?
    ensures var g' := ResolveAll(g, Waiting(fields, bound, key, g.buffer.AutoGrow?), id, addr).value;
            && Sane(g', top)
            && Image(g', top) == PatchBound(Image(g, top), fields, b, addr, top)
    decreases |fields|
  {
    if fields != [] {
      var f, w := fields[0], Waiting(fields, bound, key, g.buffer.AutoGrow?);
      var rest := Waiting(fields[1..], bound, key, g.buffer.AutoGrow?);
      if f.target !in bound && key(f.target).Some? {
        assert w[0] == Pending(key(f.target).value, JmpOf(f, g.buffer.AutoGrow?)) && w[1..] == rest;
        assert f in fields;
        if f.target == b {
          ResolveOneFills(g, f, addr, top);
          var g1 := ResolveOne(g, w[0].jmp, addr).value;
          ResolveAllFills(g1, fields[1..], bound, key, b, id, addr, top, f.off + f.size);
        } else {
          ResolveAllFills(g, fields[1..], bound, key, b, id, addr, top, f.off + f.size);
        }
      } else {
        assert w == rest;
        ResolveAllFills(g, fields[1..], bound, key, b, id, addr, top, f.off + f.size);
      }
    }
  }

  // ---------------------------------------------------------------- generator and layout side by side

  predicate Known(l: Layout, b: Binding) {
    match b
    case Global(name) => name != "@f" && name != "@b" && !IsLocal(name)
    case Local(s, name) => 0 < s < l.nextScope && IsLocal(name)
    case Anon(k) => k <= l.anon
    case Obj(_) => true
  }

  predicate Pendable(l: Layout, b: Binding) {
    match b
    case Local(s, _) => s in l.open
    case Anon(k) => k == l.anon
    case _ => true
  }

  ghost predicate Scoped(l: Layout) {
    && |l.open| >= 2 && l.open[0] == 0
    && (forall i :: 0 <= i < |l.open| ==> l.open[i] < l.nextScope)
    && (forall i, j :: 0 <= i < j < |l.open| ==> l.open[i] != l.open[j])
  }

  ghost predicate Targets(l: Layout) {
    forall f :: f in l.fields ==> Known(l, f.target) && (f.target !in l.bound ==> Pendable(l, f.target))
  }

  ghost predicate Bounds(l: Layout) {
    && (forall b :: b in l.bound ==> Known(l, b) && l.bound[b] <= |l.template|)
    && (forall k: nat :: Anon(k) in l.bound <==> k < l.anon)
  }

  ghost predicate SameDefs(defs: map<string, nat>, l: Layout, scope: nat) {
    forall name :: Known(l, OfName(scope, name)) ==>
      (name in defs <==> OfName(scope, name) in l.bound) &&
      (name in defs ==> defs[name] == l.bound[OfName(scope, name)])
  }

  function OfName(scope: nat, name: string): Binding {
    if scope == 0 then Global(name) else Local(scope, name)
  }

  ghost predicate SameAnon(defs: map<string, nat>, l: Layout)
    requires Bounds(l)
  {
    && ("@f" in defs <==> l.anon % 2 == 1)
    && ("@b" in defs <==> l.anon > 0 && l.anon % 2 == 0)
    && (l.anon > 0 ==> defs[AnonName(l.anon - 1)] == l.bound[Anon(l.anon - 1)])
  }

  ghost predicate SameTables(g: Gen, l: Layout)
    requires Bounds(l)
  {
    && |g.scopes| == |l.open| > 0
    && (forall i :: 0 <= i < |g.scopes| ==>
          && g.scopes[i].undefs == Waiting(l.fields, l.bound, NamesOf(l.open[i]), g.buffer.AutoGrow?)
          && SameDefs(g.scopes[i].defs, l, l.open[i]))
    && SameAnon(g.scopes[0].defs, l)
    && g.objects.undefs == Waiting(l.fields, l.bound, IdOf, g.buffer.AutoGrow?)
    && (forall id :: id in g.objects.defs <==> Obj(id) in l.bound)
    && (forall id :: id in g.objects.defs ==> g.objects.defs[id] == l.bound[Obj(id)])
  }

  ghost predicate SameCode(g: Gen, l: Layout, top: Uint64) {
    && |g.code| == |l.template|
    && Sane(g, top)
    && Sorted(l.fields, 0, |l.template|)
    && Image(g, top) == Fill(l.template, l.fields, l.bound, top)
  }

  ghost predicate Agree(g: Gen, l: Layout, top: Uint64) {
    Scoped(l) && Targets(l) && Bounds(l) && SameTables(g, l) && SameCode(g, l, top)
  }

  // Looking a reference up in the tables finds what it stands for.
  lemma LookupAgrees(g: Gen, l: Layout, top: Uint64, r: Ref)
    requires Agree(g, l, top) && GetOffset(g, r).Ok?
    ensures var t := Used(l, r);
            && Known(l, t)
            && match GetOffset(g, r).value
               case At(offset) => t in l.bound && offset == l.bound[t] && offset <= |g.code|
               case Later(Object(id)) => t !in l.bound && t == Obj(id)
               case Later(Name(name)) =>
                 && t !in l.bound && Pendable(l, t)
                 && forall i :: 0 <= i < |l.open| ==>
                      NameIn(l.open[i], t) == if i == ScopeIndex(g, name) then Some(name) else None
  {
    if r.Name? && r != Name("@f") && r != Name("@b") {
      var i := ScopeIndex(g, r.name);
      assert OfName(l.open[i], r.name) == Used(l, r);
      assert SameDefs(g.scopes[i].defs, l, l.open[i]);
    }
  }

  // ---------------------------------------------------------------- emitting code

  // New bytes at the end appear at the end of the image.
  lemma DbImage(g: Gen, bytes: seq<Byte>, top: Uint64)
    requires Sane(g, top) && Db(g, bytes).Ok?
    ensures Sane(Db(g, bytes).value, top) && Image(Db(g, bytes).value, top) == Image(g, top) + bytes
  {
    RewrittenAppendBytes(g.code, bytes, g.saved, top);
  }

  lemma RawAgrees(g: Gen, l: Layout, top: Uint64, bytes: seq<Byte>)
    requires Agree(g, l, top) && Db(g, bytes).Ok?
    ensures Agree(Db(g, bytes).value, l.(template := l.template + bytes), top)
  {
    DbImage(g, bytes, top);
    SortedWiden(l.fields, 0, |l.template|, |l.template| + |bytes|);
    FillAppendBytes(l.template, bytes, l.fields, l.bound, top, 0);
    hide Fill, Image, NamesOf;
    var l' := l.(template := l.template + bytes);
    forall i | 0 <= i < |g.scopes|
      ensures SameDefs(g.scopes[i].defs, l', l'.open[i])
    {
      assert SameDefs(g.scopes[i].defs, l, l.open[i]);
    }
  }

  lemma AddedFieldFilled(l: Layout, head: seq<Byte>, size: nat, relative: bool, disp: Uint64, t: Binding, top: Uint64)
    requires Sorted(l.fields, 0, |l.template|)
    ensures var l' := AddField(l, head, size, relative, disp, t);
            var f := l'.fields[|l.fields|];
            && Sorted(l'.fields, 0, |l'.template|)
            && Fill(l'.template, l'.fields, l'.bound, top)
               == Fill(l.template, l.fields, l.bound, top) + head +
                  if t in l.bound then FieldBytes(f, l.bound[t], top) else Zeros(size)
  {
    var l' := AddField(l, head, size, relative, disp, t);
    var f := l'.fields[|l.fields|];
    var n := |l.template|;
    var F := Fill(l.template, l.fields, l.bound, top);
    assert l'.template == l.template + (head + Zeros(size));
    SortedWiden(l.fields, 0, n, |l'.template|);
    SortedAppend(l.fields, f, 0, n, |l'.template|);
    FillAppendBytes(l.template, head + Zeros(size), l.fields, l.bound, top, 0);
    FillAppendField(l'.template, l.fields, f, l.bound, top, 0, n);
    assert F + (head + Zeros(size)) == F + head + Zeros(size);
    if t in l.bound {
      PatchZeros(F + head, FieldBytes(f, l.bound[t], top));
    }
  }

  // A field whose label is known gets its final bytes right away.
  lemma DirectAgrees(g: Gen, l: Layout, top: Uint64, head: seq<Byte>, size: nat, relative: bool, disp: Uint64,
                     t: Binding, g': Gen)
    requires Agree(g, l, top) && t in l.bound
    requires g' == g.(code := g'.code, saved := g'.saved) && Sane(g', top)
    requires Image(g', top)
          == Image(g, top) + head + FieldBytes(Field(|l.template| + |head|, size, relative, disp, t), l.bound[t], top)
    ensures Agree(g', AddField(l, head, size, relative, disp, t), top)
  {
    hide Agree, Scoped, Targets, SameTables, Fill, Image, FieldBytes, NamesOf, Waiting;
    PartsOf(g, l, top);
    AddedFieldFilled(l, head, size, relative, disp, t, top);
    DirectTables(g, l, head, size, relative, disp, t, g');
    FieldTargets(l, head, size, relative, disp, t);
    AgreeOf(g', AddField(l, head, size, relative, disp, t), top);
  }

  lemma DirectTables(g: Gen, l: Layout, head: seq<Byte>, size: nat, relative: bool, disp: Uint64, t: Binding, g': Gen)
    requires Bounds(l) && SameTables(g, l) && t in l.bound
    requires g' == g.(code := g'.code, saved := g'.saved)
    ensures var l' := AddField(l, head, size, relative, disp, t); Bounds(l') && SameTables(g', l')
  {
    var l' := AddField(l, head, size, relative, disp, t);
    forall i | 0 <= i < |g.scopes|
      ensures g'.scopes[i].undefs == Waiting(l'.fields, l'.bound, NamesOf(l'.open[i]), g'.buffer.AutoGrow?)
      ensures SameDefs(g'.scopes[i].defs, l', l'.open[i])
    {
      WaitingAppend(l.fields, l'.fields[|l.fields|], l.bound, NamesOf(l.open[i]), g.buffer.AutoGrow?);
      assert SameDefs(g.scopes[i].defs, l, l.open[i]);
    }
    WaitingAppend(l.fields, l'.fields[|l.fields|], l.bound, IdOf, g.buffer.AutoGrow?);
  }

  // A field whose label is not known yet is left zero and joins the right table.
  lemma PendingAgrees(g: Gen, l: Layout, top: Uint64, head: seq<Byte>, size: nat, relative: bool, disp: Uint64,
                      r: Ref, name: Ref)
    requires Agree(g, l, top) && GetOffset(g, r) == Ok(Later(name)) && Db(g, head + Zeros(size)).Ok?
    ensures var l' := AddField(l, head, size, relative, disp, Used(l, r));
            var g1 := Db(g, head + Zeros(size)).value;
            Agree(AddUndefined(g1, name, JmpOf(l'.fields[|l.fields|], g.buffer.AutoGrow?)), l', top)
  {
    hide Agree, Scoped, Targets, SameTables, SameCode, NamesOf, GetOffset, Db, Zeros, Waiting;
    AgreeFacts(g, l, top);
    PartsOf(g, l, top);
    DbFrame(g, head + Zeros(size));
    var t := Used(l, r);
    var l' := AddField(l, head, size, relative, disp, t);
    var g1 := Db(g, head + Zeros(size)).value;
    var g2 := AddUndefined(g1, name, JmpOf(l'.fields[|l.fields|], g.buffer.AutoGrow?));
    LookupAgrees(g, l, top, r);
    PendingTables(g, l, head, size, relative, disp, t, name, g1);
    PendingCode(g, l, top, head, size, relative, disp, t);
    FieldTargets(l, head, size, relative, disp, t);
    assert g2 == g1.(scopes := g2.scopes, objects := g2.objects);
    SameCodeOnly(g1, g2, l', top);
    AgreeOf(g2, l', top);
  }

  lemma PartsOf(g: Gen, l: Layout, top: Uint64)
    requires Agree(g, l, top)
    ensures Scoped(l) && Targets(l) && Bounds(l) && SameTables(g, l) && SameCode(g, l, top)
  {}

  lemma AgreeOf(g: Gen, l: Layout, top: Uint64)
    requires Scoped(l) && Targets(l) && Bounds(l) && SameTables(g, l) && SameCode(g, l, top)
    ensures Agree(g, l, top)
  {}

  lemma FieldTargets(l: Layout, head: seq<Byte>, size: nat, relative: bool, disp: Uint64, t: Binding)
    requires Scoped(l) && Targets(l) && Known(l, t) && (t !in l.bound ==> Pendable(l, t))
    ensures Scoped(AddField(l, head, size, relative, disp, t)) && Targets(AddField(l, head, size, relative, disp, t))
  {}

  lemma SameCodeOnly(g: Gen, g': Gen, l: Layout, top: Uint64)
    requires g' == g.(scopes := g'.scopes, objects := g'.objects)
    ensures SameCode(g, l, top) == SameCode(g', l, top)
  {}

  lemma DbFrame(g: Gen, bytes: seq<Byte>)
    requires Db(g, bytes).Ok?
    ensures Db(g, bytes).value == g.(code := g.code + bytes)
  {}

  lemma PendingCode(g: Gen, l: Layout, top: Uint64, head: seq<Byte>, size: nat, relative: bool, disp: Uint64,
                    t: Binding)
    requires SameCode(g, l, top) && t !in l.bound && Db(g, head + Zeros(size)).Ok?
    ensures SameCode(Db(g, head + Zeros(size)).value, AddField(l, head, size, relative, disp, t), top)
  {
    AddedFieldFilled(l, head, size, relative, disp, t, top);
    DbImage(g, head + Zeros(size), top);
    assert Image(g, top) + (head + Zeros(size)) == Image(g, top) + head + Zeros(size);
  }

  lemma PendingTables(g: Gen, l: Layout, head: seq<Byte>, size: nat, relative: bool, disp: Uint64, t: Binding,
                      name: Ref, g1: Gen)
    requires Bounds(l) && SameTables(g, l) && |g.scopes| >= 2 && g1 == g.(code := g1.code)
    requires t !in l.bound
    requires name.Object? ==> t == Obj(name.id)
    requires name.Name? ==> !t.Obj? && forall i :: 0 <= i < |l.open| ==>
               NameIn(l.open[i], t) == if i == ScopeIndex(g, name.name) then Some(name.name) else None
    ensures var l' := AddField(l, head, size, relative, disp, t);
            && Bounds(l')
            && SameTables(AddUndefined(g1, name, JmpOf(l'.fields[|l.fields|], g.buffer.AutoGrow?)), l')
  {
    hide Waiting;
    var l' := AddField(l, head, size, relative, disp, t);
    var f := l'.fields[|l.fields|];
    var g2 := AddUndefined(g1, name, JmpOf(f, g.buffer.AutoGrow?));
    forall i | 0 <= i < |g.scopes|
      ensures g2.scopes[i].undefs == Waiting(l'.fields, l'.bound, NamesOf(l'.open[i]), g2.buffer.AutoGrow?)
      ensures SameDefs(g2.scopes[i].defs, l', l'.open[i])
    {
      WaitingAppend(l.fields, f, l.bound, NamesOf(l.open[i]), g.buffer.AutoGrow?);
      assert g2.scopes[i].defs == g.scopes[i].defs;
      assert SameDefs(g.scopes[i].defs, l, l.open[i]);
    }
    WaitingAppend(l.fields, f, l.bound, IdOf, g.buffer.AutoGrow?);
  }

  // ---------------------------------------------------------------- the statements

  // What the generator computes in 32 bits for a label behind it is the true distance.
  lemma ShortReach(offset: nat, here: nat)
    requires offset <= here <= MAX_ALLOC && IsInInt32((offset - here) % W64)
    ensures IsInDisp8(((offset - here) % W64 % W32 - 2) % W32) <==> -128 <= offset - here - 2 <= 127
    ensures ((offset - here) % W64 % W32 - 2) % 256 == (offset - (here + 2)) % W64 % 256
  {
    var d := offset - here;
    if d != 0 {
      assert d % W64 == d + W64;
      assert d % W64 % W32 == d + W32;
    }
  }

  lemma NearReach(offset: nat, here: nat, len: nat)
    requires offset <= here <= MAX_ALLOC && len < 0x1000 && IsInInt32((offset - here) % W64)
    ensures ((offset - here) % W64 % W32 - len) % W32 == (offset - (here + len)) % W64 % W32
  {
    var d := offset - here;
    if d != 0 {
      assert d % W64 == d + W64;
      assert d % W64 % W32 == d + W32;
    }
  }

  lemma AgreeFacts(g: Gen, l: Layout, top: Uint64)
    requires Agree(g, l, top)
    ensures |g.code| == |l.template| && Sane(g, top)
    ensures |g.scopes| == |l.open| >= 2
  {}

  lemma LookupAt(g: Gen, l: Layout, top: Uint64, r: Ref)
    requires Agree(g, l, top) && GetOffset(g, r).Ok?
    ensures var t := Used(l, r);
            match GetOffset(g, r).value
            case At(offset) => t in l.bound && offset == l.bound[t] && offset <= |g.code|
            case Later(_) => t !in l.bound
  {
    LookupAgrees(g, l, top, r);
  }

  lemma JumpAgrees(g: Gen, l: Layout, top: Uint64, s: Stmt)
    requires s.Jump? && Agree(g, l, top) && |g.code| <= MAX_ALLOC && OpJmp(g, s).Ok?
    ensures Agree(OpJmp(g, s).value, LayOne(l, s), top)
  {
    AgreeFacts(g, l, top);
    hide Agree;
    match GetOffset(g, s.target).value
    case At(offset) => BackwardAgrees(g, l, top, s, offset);
    case Later(name) => ForwardAgrees(g, l, top, s, name);
  }

  lemma ZeroBytes(b: Byte)
    ensures [b] + Zeros(1) == [b, 0] && [] + Zeros(4) == Zeros(4) && [] + Zeros(8) == Zeros(8)
  {}

  lemma ForwardAgrees(g: Gen, l: Layout, top: Uint64, s: Stmt, name: Ref)
    requires s.Jump? && Agree(g, l, top) && OpJmp(g, s).Ok?
    requires GetOffset(g, s.target) == Ok(Later(name))
    ensures Agree(OpJmp(g, s).value, LayOne(l, s), top)
  {
    hide Agree, Used, GetOffset, AddUndefined, Zeros;
    AgreeFacts(g, l, top);
    LookupAt(g, l, top, s.target);
    var head, size := if s.jmpType == Near then LongHead(s) else [s.shortCode], if s.jmpType == Near then 4 else 1;
    ZeroBytes(s.shortCode);
    PendingAgrees(g, l, top, head, size, true, 0, s.target, name);
  }

  lemma BackwardAgrees(g: Gen, l: Layout, top: Uint64, s: Stmt, offset: nat)
    requires s.Jump? && Agree(g, l, top) && |g.code| <= MAX_ALLOC && OpJmp(g, s).Ok?
    requires GetOffset(g, s.target) == Ok(At(offset))
    ensures Agree(OpJmp(g, s).value, LayOne(l, s), top)
  {
    hide Agree, Used, GetOffset, OpJmp, FieldBytes, Db, AddField;
    AgreeFacts(g, l, top);
    LookupAt(g, l, top, s.target);
    var t := Used(l, s.target);
    if TakesShort(l, s, t) {
      ShortEmitted(g, s, offset, t, top);
      BackwardEmitted(g, l, top, [s.shortCode], 1, t);
    } else {
      JumpPassed(g, s, offset);
      NearEmitted(g, s, offset, t, top);
      BackwardEmitted(g, l, top, LongHead(s), 4, t);
    }
  }

  lemma ShortEmitted(g: Gen, s: Stmt, offset: nat, t: Binding, top: Uint64)
    requires s.Jump? && |g.scopes| >= 2 && offset <= |g.code| <= MAX_ALLOC && OpJmp(g, s).Ok?
    requires GetOffset(g, s.target) == Ok(At(offset))
    requires s.jmpType != Near && -128 <= offset - |g.code| - 2 <= 127
    ensures OpJmp(g, s) == Db(g, [s.shortCode] + FieldBytes(Field(|g.code| + 1, 1, true, 0, t), offset, top))
  {
    hide GetOffset, Inside;
    var n := |g.code|;
    ShortReach(offset, n);
    JumpBytes(Field(n + 1, 1, true, 0, t), offset, top);
    LE1((offset - (n + 2)) % W64);
    var b: Byte := (offset - (n + 2)) % W64 % 256;
    assert [s.shortCode] + [b] == [s.shortCode, b];
  }

  // What an accepted jump to a label behind it has passed.
  lemma JumpPassed(g: Gen, s: Stmt, offset: nat)
    requires s.Jump? && |g.scopes| >= 2 && offset <= |g.code| <= MAX_ALLOC && OpJmp(g, s).Ok?
    requires GetOffset(g, s.target) == Ok(At(offset))
    ensures IsInInt32((offset - |g.code|) % W64)
    ensures s.jmpType == Short ==> -128 <= offset - |g.code| - 2 <= 127
  {
    hide GetOffset, Inside, LE, Db;
    ShortReach(offset, |g.code|);
  }

  lemma NearEmitted(g: Gen, s: Stmt, offset: nat, t: Binding, top: Uint64)
    requires s.Jump? && |g.scopes| >= 2 && offset <= |g.code| <= MAX_ALLOC
    requires GetOffset(g, s.target) == Ok(At(offset)) && IsInInt32((offset - |g.code|) % W64)
    requires s.jmpType == Near || (s.jmpType == Auto && !(-128 <= offset - |g.code| - 2 <= 127))
    ensures OpJmp(g, s) == Db(g, LongHead(s) + FieldBytes(Field(|g.code| + |LongHead(s)|, 4, true, 0, t), offset, top))
  {
    hide GetOffset, Inside;
    var n, len := |g.code|, |LongHead(s)| + 4;
    ShortReach(offset, n);
    NearReach(offset, n, len);
    JumpBytes(Field(n + len - 4, 4, true, 0, t), offset, top);
    LE4((offset - (n + len)) % W64);
  }

  lemma BackwardEmitted(g: Gen, l: Layout, top: Uint64, head: seq<Byte>, size: nat, t: Binding)
    requires Agree(g, l, top) && t in l.bound
    requires Db(g, head + FieldBytes(Field(|g.code| + |head|, size, true, 0, t), l.bound[t], top)).Ok?
    ensures Agree(Db(g, head + FieldBytes(Field(|g.code| + |head|, size, true, 0, t), l.bound[t], top)).value,
                  AddField(l, head, size, true, 0, t), top)
  {
    hide Agree, FieldBytes, Image;
    AgreeFacts(g, l, top);
    var bytes := FieldBytes(Field(|g.code| + |head|, size, true, 0, t), l.bound[t], top);
    DbImage(g, head + bytes, top);
    assert Image(g, top) + (head + bytes) == Image(g, top) + head + bytes;
    DirectAgrees(g, l, top, head, size, true, 0, t, Db(g, head + bytes).value);
  }

  lemma AddressBytes(f: Field, addr: nat, top: Uint64)
    requires f.size == 8 && !f.relative
    ensures FieldBytes(f, addr, top) == LE((top + addr) % W64, 8)
    ensures FieldBytes(f, addr, top) == SavedBytes(AddrInfo(f.off, addr % W64, 8, AddTop), top)
  {
    ModAdd(addr, top);
  }

  lemma SaveImage(g: Gen, a: AddrInfo, top: Uint64)
    requires Sane(g, top) && g.buffer.AutoGrow? && a.codeOffset + a.jmpSize <= |g.code|
    ensures var g' := g.(saved := g.saved + [a]);
            Sane(g', top) && Image(g', top) == Patch(Image(g, top), a.codeOffset, SavedBytes(a, top))
  {
    RewrittenAppend(g.code, g.saved, a, top);
  }

  lemma RelativeBytes(f: Field, addr: nat, top: Uint64)
    requires f.size == 4 && f.relative
    ensures FieldBytes(f, addr, top) == LE((addr + f.disp - f.off - 4) % W64, 4)
  {}

  lemma JumpBytes(f: Field, addr: nat, top: Uint64)
    requires f.relative && f.disp == 0
    ensures FieldBytes(f, addr, top) == LE((addr - (f.off + f.size)) % W64, f.size)
  {}

  lemma RelativeAgrees(g: Gen, l: Layout, top: Uint64, r: Ref, disp: Uint64)
    requires Agree(g, l, top) && PutRelative(g, r, disp).Ok?
    ensures Agree(PutRelative(g, r, disp).value, LayOne(l, RipField(r, disp)), top)
  {
    AgreeFacts(g, l, top);
    hide Agree;
    match GetOffset(g, r).value
    case At(offset) => RelativeBackward(g, l, top, r, disp, offset);
    case Later(name) => RelativeForward(g, l, top, r, disp, name);
  }

  lemma RelativeForward(g: Gen, l: Layout, top: Uint64, r: Ref, disp: Uint64, name: Ref)
    requires Agree(g, l, top) && PutRelative(g, r, disp).Ok? && GetOffset(g, r) == Ok(Later(name))
    ensures Agree(PutRelative(g, r, disp).value, LayOne(l, RipField(r, disp)), top)
  {
    hide Agree, Used, GetOffset, AddUndefined, Zeros;
    AgreeFacts(g, l, top);
    ZeroBytes(0);
    PendingAgrees(g, l, top, [], 4, true, disp, r, name);
  }

  lemma RelativeBackward(g: Gen, l: Layout, top: Uint64, r: Ref, disp: Uint64, offset: nat)
    requires Agree(g, l, top) && PutRelative(g, r, disp).Ok? && GetOffset(g, r) == Ok(At(offset))
    ensures Agree(PutRelative(g, r, disp).value, LayOne(l, RipField(r, disp)), top)
  {
    hide Agree, Used, GetOffset, FieldBytes, Image, AddField;
    AgreeFacts(g, l, top);
    LookupAt(g, l, top, r);
    var f := Field(|g.code|, 4, true, disp, Used(l, r));
    var bytes := FieldBytes(f, offset, top);
    RelativeBytes(f, offset, top);
    assert PutRelative(g, r, disp) == Db(g, bytes);
    DbImage(g, bytes, top);
    assert Image(g, top) + bytes == Image(g, top) + [] + bytes;
    DirectAgrees(g, l, top, [], 4, true, disp, Used(l, r), Db(g, bytes).value);
  }

  lemma AddressAgrees(g: Gen, l: Layout, top: Uint64, r: Ref)
    requires Agree(g, l, top) && PutAddress(g, r).Ok?
    ensures Agree(PutAddress(g, r).value, LayOne(l, AddressField(r)), top)
  {
    AgreeFacts(g, l, top);
    hide Agree;
    match GetOffset(g, r).value
    case At(offset) => AddressBackward(g, l, top, r, offset);
    case Later(name) => AddressForward(g, l, top, r, name);
  }

  lemma AddressForward(g: Gen, l: Layout, top: Uint64, r: Ref, name: Ref)
    requires Agree(g, l, top) && PutAddress(g, r).Ok? && GetOffset(g, r) == Ok(Later(name))
    ensures Agree(PutAddress(g, r).value, LayOne(l, AddressField(r)), top)
  {
    hide Agree, Used, GetOffset, AddUndefined, Zeros;
    AgreeFacts(g, l, top);
    ZeroBytes(0);
    PendingAgrees(g, l, top, [], 8, false, 0, r, name);
  }

  lemma AddressBackward(g: Gen, l: Layout, top: Uint64, r: Ref, offset: nat)
    requires Agree(g, l, top) && PutAddress(g, r).Ok? && GetOffset(g, r) == Ok(At(offset))
    ensures Agree(PutAddress(g, r).value, LayOne(l, AddressField(r)), top)
  {
    hide Agree, Used, GetOffset, FieldBytes, Image, Db, PutAddress, AddField;
    AgreeFacts(g, l, top);
    LookupAt(g, l, top, r);
    var f := Field(|g.code|, 8, false, 0, Used(l, r));
    var bytes := FieldBytes(f, offset, top);
    AddressImage(g, top, r, offset, f);
    assert Image(g, top) + bytes == Image(g, top) + [] + bytes;
    DirectAgrees(g, l, top, [], 8, false, 0, Used(l, r), PutAddress(g, r).value);
  }

  lemma AddressImage(g: Gen, top: Uint64, r: Ref, offset: nat, f: Field)
    requires Sane(g, top) && |g.scopes| >= 2 && PutAddress(g, r).Ok? && GetOffset(g, r) == Ok(At(offset))
    requires f.off == |g.code| && f.size == 8 && !f.relative
    ensures var g' := PutAddress(g, r).value;
            && g' == g.(code := g'.code, saved := g'.saved) && Sane(g', top)
            && Image(g', top) == Image(g, top) + FieldBytes(f, offset, top)
  {
    AddressBytes(f, offset, top);
    hide FieldBytes, Image;
    if g.buffer.AutoGrow? {
      DbImage(g, Zeros(8), top);
      SaveImage(Db(g, Zeros(8)).value, AddrInfo(|g.code|, offset % W64, 8, AddTop), top);
      PatchZeros(Image(g, top), FieldBytes(f, offset, top));
    } else {
      DbImage(g, FieldBytes(f, offset, top), top);
    }
  }

  lemma {:induction false} NoneWaits<T(!new)>(fields: seq<Field>, bound: map<Binding, nat>, key: Binding -> Option<T>,
                                              growing: bool)
    requires forall f :: f in fields ==> key(f.target) == None
    ensures Waiting(fields, bound, key, growing) == []
  {
    if fields != [] {
      assert fields[0] in fields;
      NoneWaits(fields[1..], bound, key, growing);
    }
  }

  lemma EnterAgrees(g: Gen, l: Layout, top: Uint64)
    requires Agree(g, l, top)
    ensures Agree(g.(scopes := g.scopes + [Scope(map[], [])]), LayOne(l, EnterLocal), top)
  {
    hide Image, Fill, SameCode, Waiting, NamesOf;
    var g', l' := g.(scopes := g.scopes + [Scope(map[], [])]), LayOne(l, EnterLocal);
    PartsOf(g, l, top);
    EnterTables(g, l);
    SameCodeOnly(g, g', l, top);
    SameLayoutCode(g', l, l', top);
  }

  lemma EnterTables(g: Gen, l: Layout)
    requires Scoped(l) && Targets(l) && Bounds(l) && SameTables(g, l)
    ensures var g', l' := g.(scopes := g.scopes + [Scope(map[], [])]), LayOne(l, EnterLocal);
            Scoped(l') && Targets(l') && Bounds(l') && SameTables(g', l')
  {
    hide Waiting;
    var l' := LayOne(l, EnterLocal);
    NoneWaits(l.fields, l.bound, NamesOf(l.nextScope), g.buffer.AutoGrow?);
    assert SameDefs(map[], l', l.nextScope);
    forall i | 0 <= i < |g.scopes|
      ensures SameDefs(g.scopes[i].defs, l', l.open[i])
    {
      assert SameDefs(g.scopes[i].defs, l, l.open[i]);
    }
  }

  // A scope that is left waits for nothing, so nothing is forgotten with it.
  lemma LeaveAgrees(g: Gen, l: Layout, top: Uint64)
    requires Agree(g, l, top) && Leave(g).Ok?
    ensures Agree(Leave(g).value, LayOne(l, LeaveLocal), top)
  {
    var g', l' := Leave(g).value, LayOne(l, LeaveLocal);
    LeaveTargets(g, l);
    SameCodeOnly(g, g', l, top);
    hide Image, Fill, Waiting, Targets, SameCode;
    forall i | 0 <= i < |g'.scopes|
      ensures SameDefs(g'.scopes[i].defs, l', l'.open[i])
    {
      assert SameDefs(g.scopes[i].defs, l, l.open[i]);
    }
    assert SameCode(g', l', top) by {
      SameLayoutCode(g', l, l', top);
    }
  }

  lemma SameLayoutCode(g: Gen, l: Layout, l': Layout, top: Uint64)
    requires l' == l.(open := l'.open, nextScope := l'.nextScope, anon := l'.anon) && SameCode(g, l, top)
    ensures SameCode(g, l', top)
  {}

  lemma LeaveTargets(g: Gen, l: Layout)
    requires Scoped(l) && Targets(l) && Bounds(l) && SameTables(g, l) && |g.scopes| >= 2 && Leave(g).Ok?
    ensures Targets(LayOne(l, LeaveLocal))
  {
    var l' := LayOne(l, LeaveLocal);
    var last := l.open[|l.open| - 1];
    forall f | f in l.fields && f.target !in l.bound
      ensures Pendable(l', f.target)
    {
      if f.target.Local? && f.target.scope == last {
        NothingWaits(l.fields, l.bound, NamesOf(last), g.buffer.AutoGrow?, f);
      }
    }
  }

  // ---------------------------------------------------------------- defining labels

  // Defining a label in its table fills the fields that wait for it, and no other byte.
  lemma BindCode<T(!new)>(g: Gen, s: Scope<T>, l: Layout, top: Uint64, key: Binding -> Option<T>, b: Binding, id: T)
    requires SameCode(g, l, top) && b !in l.bound && KeyTells(l.fields, l.bound, key, b, id)
    requires s.undefs == Waiting(l.fields, l.bound, key, g.buffer.AutoGrow?)
    requires AllInside(g, s.undefs) && DefineInner(g, s, id, |g.code|).Ok?
    ensures var l' := l.(bound := l.bound[b := |l.template|]);
            var (g', s') := DefineInner(g, s, id, |g.code|).value;
            && SameCode(g', l', top) && g'.scopes == g.scopes && g'.objects == g.objects && g'.buffer == g.buffer
            && s'.undefs == Waiting(l'.fields, l'.bound, key, g.buffer.AutoGrow?)
            && id !in s.defs && s'.defs == s.defs[id := |g.code|]
  {
    hide Image, Fill;
    ResolveAllFills(g, l.fields, l.bound, key, b, id, |g.code|, top, 0);
    FillOneMore(l.template, l.fields, l.bound, b, |l.template|, top, 0);
    WaitingBind(l.fields, l.bound, key, g.buffer.AutoGrow?, b, id, |l.template|);
  }

  lemma ObjectDefined(g: Gen, l: Layout, top: Uint64, id: nat)
    requires Agree(g, l, top) && Inside(g) && DefineLabel(g, Object(id)).Ok?
    ensures Agree(DefineLabel(g, Object(id)).value, LayOne(l, Define(Object(id))), top)
  {
    hide Agree, SameCode, Image, Fill, Waiting, NamesOf, Inside, Scoped, Targets, ResolveAll;
    PartsOf(g, l, top);
    AgreeFacts(g, l, top);
    var b, l', g' := Obj(id), LayOne(l, Define(Object(id))), DefineLabel(g, Object(id)).value;
    InsideObjects(g);
    BindCode(g, g.objects, l, top, IdOf, b, id);
    forall i | 0 <= i < |g.scopes|
      ensures g'.scopes[i].undefs == Waiting(l'.fields, l'.bound, NamesOf(l'.open[i]), g'.buffer.AutoGrow?)
      ensures SameDefs(g'.scopes[i].defs, l', l'.open[i])
    {
      NamesOfObj(l.open[i], id);
      WaitingOther(l.fields, l.bound, NamesOf(l.open[i]), g.buffer.AutoGrow?, b, |l.template|);
      assert SameDefs(g.scopes[i].defs, l, l.open[i]);
    }
    SameCodeOnly(DefineInner(g, g.objects, id, |g.code|).value.0, g', l', top);
    DefinedTargets(l, Object(id), b);
    AgreeOf(g', l', top);
  }

  lemma InsideObjects(g: Gen)
    requires Inside(g)
    ensures AllInside(g, g.objects.undefs)
  {}

  // Binding one more label keeps every field's target in order.
  lemma DefinedTargets(l: Layout, r: Ref, b: Binding)
    requires Scoped(l) && Targets(l) && Bounds(l) && b == Defined(l, r) && b !in l.bound && Known(l, b)
    requires b.Anon? <==> r == Name("@@")
    ensures Scoped(LayOne(l, Define(r))) && Targets(LayOne(l, Define(r))) && Bounds(LayOne(l, Define(r)))
  {}

  lemma NamesOfObj(scope: nat, id: nat)
    ensures NamesOf(scope)(Obj(id)) == None
  {}

  // The table of scope i holds the only entry that b can have.
  ghost predicate Homed(l: Layout, i: nat, name: string, b: Binding) {
    && b !in l.bound && i < |l.open|
    && KeyTells(l.fields, l.bound, NamesOf(l.open[i]), b, name)
    && IdOf(b) == None
    && forall j :: 0 <= j < |l.open| && j != i ==> NamesOf(l.open[j])(b) == None
  }

  // Defining under a name: what happens to the code and to the lists of pending references.
  lemma NameBound(g: Gen, l: Layout, top: Uint64, name: string, b: Binding)
    requires SameCode(g, l, top) && Inside(g) && DefineNamed(g, name).Ok? && |g.scopes| == |l.open|
    requires forall i :: 0 <= i < |g.scopes| ==>
               g.scopes[i].undefs == Waiting(l.fields, l.bound, NamesOf(l.open[i]), g.buffer.AutoGrow?)
    requires g.objects.undefs == Waiting(l.fields, l.bound, IdOf, g.buffer.AutoGrow?)
    requires Homed(l, ScopeIndex(g, name), name, b)
    ensures var l', g', i := l.(bound := l.bound[b := |l.template|]), DefineNamed(g, name).value, ScopeIndex(g, name);
            && SameCode(g', l', top) && g'.buffer == g.buffer && |g'.scopes| == |g.scopes|
            && (forall j :: 0 <= j < |g.scopes| ==>
                  g'.scopes[j].undefs == Waiting(l'.fields, l'.bound, NamesOf(l'.open[j]), g'.buffer.AutoGrow?))
            && g'.objects.undefs == Waiting(l'.fields, l'.bound, IdOf, g'.buffer.AutoGrow?)
            && g'.objects.defs == g.objects.defs
            && name !in g.scopes[i].defs && g'.scopes[i].defs == g.scopes[i].defs[name := |g.code|]
            && forall j :: 0 <= j < |g.scopes| && j != i ==> g'.scopes[j].defs == g.scopes[j].defs
  {
    hide SameCode, Image, Fill, Waiting, NamesOf, KeyTells, ResolveAll;
    var i, l', g' := ScopeIndex(g, name), l.(bound := l.bound[b := |l.template|]), DefineNamed(g, name).value;
    BindCode(g, g.scopes[i], l, top, NamesOf(l.open[i]), b, name);
    SameCodeOnly(DefineInner(g, g.scopes[i], name, |g.code|).value.0, g', l', top);
    WaitingOther(l.fields, l.bound, IdOf, g.buffer.AutoGrow?, b, |l.template|);
    forall j | 0 <= j < |g.scopes| && j != i
      ensures g'.scopes[j].undefs == Waiting(l'.fields, l'.bound, NamesOf(l'.open[j]), g'.buffer.AutoGrow?)
    {
      WaitingOther(l.fields, l.bound, NamesOf(l.open[j]), g.buffer.AutoGrow?, b, |l.template|);
    }
  }

  lemma NamedHome(g: Gen, l: Layout, top: Uint64, name: string)
    requires Agree(g, l, top) && name != "@f" && name != "@b" && name != "@@"
    requires name !in g.scopes[ScopeIndex(g, name)].defs
    ensures Homed(l, ScopeIndex(g, name), name, Defined(l, Name(name)))
    ensures Known(l, Defined(l, Name(name))) && !Defined(l, Name(name)).Anon?
  {
    var i, b := ScopeIndex(g, name), Defined(l, Name(name));
    assert b == OfName(l.open[i], name) && Known(l, b);
    assert SameDefs(g.scopes[i].defs, l, l.open[i]);
  }

  lemma NamedDefs(g: Gen, l: Layout, g': Gen, name: string)
    requires Scoped(l) && Bounds(l) && SameTables(g, l) && |g.scopes| >= 2 && |g'.scopes| == |g.scopes|
    requires name != "@f" && name != "@b" && name != "@@" && Defined(l, Name(name)) !in l.bound
    requires forall j :: 0 <= j < |g.scopes| ==>
               g'.scopes[j].defs == if j == ScopeIndex(g, name) then g.scopes[j].defs[name := |l.template|]
                 else g.scopes[j].defs
    ensures var l' := LayOne(l, Define(Name(name)));
            (forall j :: 0 <= j < |g.scopes| ==> SameDefs(g'.scopes[j].defs, l', l'.open[j])) &&
            (Bounds(l') ==> SameAnon(g'.scopes[0].defs, l'))
  {
    hide Waiting, NamesOf, SameDefs;
    forall j | 0 <= j < |g.scopes|
      ensures SameDefs(g'.scopes[j].defs, LayOne(l, Define(Name(name))), l.open[j])
    {
      NamedScope(l, j, name, g.scopes[j].defs);
    }
  }

  lemma NamedScope(l: Layout, j: nat, name: string, defs: map<string, nat>)
    requires Scoped(l) && Bounds(l) && j < |l.open| && SameDefs(defs, l, l.open[j])
    requires name != "@f" && name != "@b" && name != "@@" && Defined(l, Name(name)) !in l.bound
    ensures SameDefs(if j == (if IsLocal(name) then |l.open| - 1 else 0) then defs[name := |l.template|] else defs,
                     LayOne(l, Define(Name(name))), l.open[j])
  {}

  lemma AnonDefs(g: Gen, l: Layout, g': Gen, other: string)
    requires Scoped(l) && Bounds(l) && SameTables(g, l) && |g.scopes| >= 2 && |g'.scopes| == |g.scopes|
    requires other == if "@f" in g.scopes[0].defs then "@f" else "@b"
    requires forall j :: 0 <= j < |g.scopes| ==>
               g'.scopes[j].defs == if j == 0 then (g.scopes[0].defs - {other})[AnonName(l.anon) := |l.template|]
                 else g.scopes[j].defs
    ensures var l' := LayOne(l, Define(Name("@@")));
            (forall j :: 0 <= j < |g.scopes| ==> SameDefs(g'.scopes[j].defs, l', l'.open[j])) &&
            (Bounds(l') ==> SameAnon(g'.scopes[0].defs, l'))
  {
    hide Waiting, NamesOf, SameDefs;
    forall j | 0 <= j < |g.scopes|
      ensures SameDefs(g'.scopes[j].defs, LayOne(l, Define(Name("@@"))), l.open[j])
    {
      AnonScope(l, j, other, g.scopes[j].defs);
    }
  }

  lemma AnonScope(l: Layout, j: nat, other: string, defs: map<string, nat>)
    requires Scoped(l) && Bounds(l) && j < |l.open| && SameDefs(defs, l, l.open[j]) && other in {"@f", "@b"}
    ensures SameDefs(if j == 0 then (defs - {other})[AnonName(l.anon) := |l.template|] else defs,
                     LayOne(l, Define(Name("@@"))), l.open[j])
  {}

  lemma NameDefined(g: Gen, l: Layout, top: Uint64, name: string)
    requires Agree(g, l, top) && Inside(g) && DefineLabel(g, Name(name)).Ok? && name != "@@"
    ensures Agree(DefineLabel(g, Name(name)).value, LayOne(l, Define(Name(name))), top)
  {
    hide Agree, SameCode, Image, Fill, Waiting, NamesOf, KeyTells, ResolveAll, DefineNamed, Inside, Scoped, Targets,
         SameDefs, SameAnon;
    PartsOf(g, l, top);
    AgreeFacts(g, l, top);
    var i, b := ScopeIndex(g, name), Defined(l, Name(name));
    var l', g' := LayOne(l, Define(Name(name))), DefineLabel(g, Name(name)).value;
    NotYet(g, name);
    NamedHome(g, l, top, name);
    NameBound(g, l, top, name, b);
    NamedDefs(g, l, g', name);
    DefinedTargets(l, Name(name), b);
    assert SameTables(g', l');
    AgreeOf(g', l', top);
  }

  lemma NotYet(g: Gen, name: string)
    requires Inside(g) && DefineNamed(g, name).Ok?
    ensures name !in g.scopes[ScopeIndex(g, name)].defs
  {}

  lemma AnonHome(l: Layout)
    requires Scoped(l) && Targets(l) && Bounds(l)
    ensures Homed(l, 0, AnonName(l.anon), Anon(l.anon))
  {}

  lemma AnonDefined(g: Gen, l: Layout, top: Uint64)
    requires Agree(g, l, top) && Inside(g) && DefineLabel(g, Name("@@")).Ok?
    ensures Agree(DefineLabel(g, Name("@@")).value, LayOne(l, Define(Name("@@"))), top)
  {
    hide Agree, SameCode, Image, Fill, Waiting, NamesOf, KeyTells, ResolveAll, DefineNamed, Scoped, Targets, SameDefs;
    PartsOf(g, l, top);
    AgreeFacts(g, l, top);
    var b, name := Anon(l.anon), AnonName(l.anon);
    var s := g.scopes[0];
    var other := if "@f" in s.defs then "@f" else "@b";
    var g0 := g.(scopes := g.scopes[0 := s.(defs := s.defs - {other})]);
    var l1, l' := l.(bound := l.bound[b := |l.template|]), LayOne(l, Define(Name("@@")));
    AnonHome(l);
    assert DefineLabel(g, Name("@@")) == DefineNamed(g0, name);
    var g' := DefineNamed(g0, name).value;
    SameCodeOnly(g, g0, l, top);
    NameBound(g0, l, top, name, b);
    SameLayoutCode(g', l1, l', top);
    DefinedTargets(l, Name("@@"), b);
    AnonDefs(g, l, g', other);
    assert SameTables(g', l');
    AgreeOf(g', l', top);
  }

  // ---------------------------------------------------------------- whole programs

  lemma EmitAgrees(g: Gen, l: Layout, top: Uint64, s: Stmt)
    requires Agree(g, l, top) && Inside(g) && Emit(g, s).Ok?
    ensures Agree(Emit(g, s).value, LayOne(l, s), top)
  {
    hide Agree, SameCode, SameTables, Db, OpJmp, PutRelative, PutAddress, DefineLabel, Leave;
    AgreeFacts(g, l, top);
    match s
    case Raw(bytes) => RawAgrees(g, l, top, bytes);
    case Jump(_, _, _, _, _) => JumpAgrees(g, l, top, s);
    case RipField(r, disp) => RelativeAgrees(g, l, top, r, disp);
    case AddressField(r) => AddressAgrees(g, l, top, r);
    case Define(Object(id)) => ObjectDefined(g, l, top, id);
    case Define(Name(name)) =>
      if name == "@@" {
        AnonDefined(g, l, top);
      } else {
        NameDefined(g, l, top, name);
      }
    case EnterLocal => EnterAgrees(g, l, top);
    case LeaveLocal => LeaveAgrees(g, l, top);
  }

  lemma {:induction false} RunAgrees(g: Gen, l: Layout, top: Uint64, prog: seq<Stmt>)
    requires Agree(g, l, top) && Inside(g) && Run(g, prog).Ok? && |l.open| >= 2
    ensures Agree(Run(g, prog).value, Lay(l, prog), top)
    decreases |prog|
  {
    hide Agree, Emit, LayOne, Inside;
    if prog != [] {
      EmitAgrees(g, l, top, prog[0]);
      AgreeFacts(Emit(g, prog[0]).value, LayOne(l, prog[0]), top);
      RunAgrees(Emit(g, prog[0]).value, LayOne(l, prog[0]), top, prog[1..]);
    }
  }

  lemma StartAgrees(buffer: Buffer, top: Uint64)
    requires buffer.Fixed? ==> buffer.top == top
    ensures Inside(Start(buffer)) && Agree(Start(buffer), Blank(), top)
  {}

  // With no pending reference left every field has its label.
  lemma AllBound(g: Gen, l: Layout, top: Uint64)
    requires Agree(g, l, top) && !HasUndefined(g)
    ensures forall f :: f in l.fields ==> f.target in l.bound
  {
    hide SameCode, Image, Fill;
    forall f | f in l.fields
      ensures f.target in l.bound
    {
      if f.target !in l.bound {
        match f.target
        case Obj(_) => NothingWaits(l.fields, l.bound, IdOf, g.buffer.AutoGrow?, f);
        case Local(s, _) =>
          var i :| 0 <= i < |l.open| && l.open[i] == s;
          NothingWaits(l.fields, l.bound, NamesOf(l.open[i]), g.buffer.AutoGrow?, f);
        case _ => NothingWaits(l.fields, l.bound, NamesOf(l.open[0]), g.buffer.AutoGrow?, f);
      }
    }
  }

  // One pass with backpatching is two passes: an accepted program gets every label field filled in
  // with its label, whether the bytes were rewritten on the way or saved for the end.
  lemma OnePassIsTwoPasses(buffer: Buffer, prog: seq<Stmt>, top: Uint64)
    requires buffer.Fixed? ==> buffer.top == top
    requires Run(Start(buffer), prog).Ok?
    ensures var g, l := Run(Start(buffer), prog).value, Lay(Blank(), prog);
            && SavedInside(g.saved, |g.code|)
            && (Ready(g, top).Ok? ==>
                  && Sorted(l.fields, 0, |l.template|)
                  && (forall f :: f in l.fields ==> f.target in l.bound)
                  && Ready(g, top).value == Fill(l.template, l.fields, l.bound, top))
  {
    var g, l := Run(Start(buffer), prog).value, Lay(Blank(), prog);
    StartAgrees(buffer, top);
    RunAgrees(Start(buffer), Blank(), top, prog);
    if !HasUndefined(g) {
      AllBound(g, l, top);
    }
  }
}
