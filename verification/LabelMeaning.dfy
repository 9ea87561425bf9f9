/** Finished code, statement by statement: which bytes a statement became, and which definition a reference
leads to. */
module LabelMeaning {
  import opened Labels
  import opened LabelsCorrect
  import opened LabelTheorems
  import opened Options
  import opened Words

  // ---------------------------------------------------------------- where the bytes of a statement are

  ghost predicate FieldsInside(l: Layout) {
    forall f :: f in l.fields ==> f.off + f.size <= |l.template|
  }

  lemma {:induction false} LayExtends(l: Layout, prog: seq<Stmt>)
    requires |l.open| >= 2 && FieldsInside(l)
    ensures var m := Lay(l, prog);
            && FieldsInside(m) && l.template <= m.template && l.fields <= m.fields
            && forall i :: |l.fields| <= i < |m.fields| ==> |l.template| <= m.fields[i].off
    decreases |prog|
  {
    if prog != [] {
      StepExtends(l, prog[0]);
      LayExtends(LayOne(l, prog[0]), prog[1..]);
    }
  }

  lemma StepExtends(l: Layout, s: Stmt)
    requires |l.open| >= 2 && FieldsInside(l)
    ensures var m := LayOne(l, s);
            && |m.open| >= 2 && FieldsInside(m) && l.template <= m.template && l.fields <= m.fields
            && forall i :: |l.fields| <= i < |m.fields| ==> |l.template| <= m.fields[i].off
  {}

  // A reference that waits is checked when its label is defined.
  lemma {:induction false} WaitingReaches(l: Layout, prog: seq<Stmt>, limit: nat, f: Field)
    requires |l.open| >= 2 && AcceptsAll(l, prog, limit)
    requires f in l.fields && f.relative && f.target !in l.bound && f.target in Lay(l, prog).bound
    ensures Reaches(f, Lay(l, prog).bound[f.target])
    decreases |prog|
  {
    hide Reaches;
    var m := LayOne(l, prog[0]);
    if f.target in m.bound {
      LayKeeps(m, prog[1..], limit);
    } else {
      WaitingReaches(m, prog[1..], limit, f);
    }
  }

  // Bytes between `at` and `next` that no field of s covers are the ones that s was laid out with.
  lemma PlainBytes(l0: Layout, s: Stmt, b: seq<Stmt>, i: nat)
    requires |l0.open| >= 2 && FieldsInside(l0)
    requires |l0.template| <= i < |LayOne(l0, s).template|
    requires forall k :: |l0.fields| <= k < |LayOne(l0, s).fields| ==>
               var f := LayOne(l0, s).fields[k]; !(f.off <= i < f.off + f.size)
    ensures var l := Lay(LayOne(l0, s), b);
            i < |l.template| && Untouched(l.fields, l.bound, i) && l.template[i] == LayOne(l0, s).template[i]
  {
    var l1 := LayOne(l0, s);
    StepExtends(l0, s);
    LayExtends(l1, b);
    var l := Lay(l1, b);
    forall f | f in l.fields
      ensures !(f.off <= i < f.off + f.size)
    {
      var k :| 0 <= k < |l.fields| && l.fields[k] == f;
      if k < |l0.fields| {
        assert l1.fields[k] == f && l0.fields[k] == f && f in l0.fields;
      } else if k < |l1.fields| {
        assert l1.fields[k] == f;
      }
    }
  }

  // ---------------------------------------------------------------- what a statement became

  // A jump takes two bytes: the short code, and the distance to its label.
  ghost predicate JumpsShort(code: seq<Byte>, s: Stmt, at: nat, next: nat, addr: nat)
    requires s.Jump?
  {
    next == at + 2 <= |code| && code[at] == s.shortCode && (next + Sext8(code[at + 1]) - addr) % W64 == 0
  }

  // Or the long code, after its prefix if it has one, and four bytes of distance. The label is met unless it is
  // more than 2^31 bytes back.
  ghost predicate JumpsLong(code: seq<Byte>, s: Stmt, at: nat, next: nat, addr: nat)
    requires s.Jump?
  {
    var head := if s.longPref == 0 then [s.longCode] else [s.longPref, s.longCode];
    && next == at + |head| + 4 <= |code| && code[at..at + |head|] == head
    && ((next + Sext32(ReadLE(code[next - 4..next])) - addr) % W64 == 0 <==> next - addr <= 0x8000_0000)
  }

  /** The bytes from `at` to `next` are the statement s, emitted after l0 in code that is finished with these label
  addresses. */
  ghost predicate Emitted(l0: Layout, s: Stmt, bound: map<Binding, nat>, top: Uint64, code: seq<Byte>, next: nat)
    requires l0.open != []
  {
    var at := |l0.template|;
    match s
    case Raw(bytes) => next == at + |bytes| <= |code| && code[at..next] == bytes
    case Jump(r, jmpType, _, _, _) =>
      && Used(l0, r) in bound
      && var addr := bound[Used(l0, r)];
         if jmpType != Near && (Used(l0, r) in l0.bound ==> at + 2 - addr <= 0x80)
         then JumpsShort(code, s, at, next, addr) else JumpsLong(code, s, at, next, addr)
    case RipField(r, disp) =>
      && Used(l0, r) in bound && next == at + 4 <= |code|
      && (next + Sext32(ReadLE(code[at..next])) - bound[Used(l0, r)] - disp) % W64 == 0
    case AddressField(r) =>
      && Used(l0, r) in bound && next == at + 8 <= |code|
      && code[at..next] == LE((bound[Used(l0, r)] + top) % W64, 8)
    case _ => next == at
  }

  // The layout after a, s and b, and what is known of it.
  ghost predicate Context(l0: Layout, s: Stmt, b: seq<Stmt>, limit: nat, top: Uint64, code: seq<Byte>) {
    && |l0.open| >= 2 && FieldsInside(l0) && BoundInside(l0)
    && limit <= MAX_ALLOC && AcceptsAll(l0, [s] + b, limit)
    && var l := Lay(LayOne(l0, s), b);
       && |code| == |l.template| <= limit
       && (forall f :: f in l.fields ==> f.target in l.bound && f.off + f.size <= |code|)
       && (forall f :: f in l.fields && f.relative ==>
             (Hits(code, f, l.bound[f.target]) <==> Reaches(f, l.bound[f.target])))
       && (forall f :: f in l.fields && !f.relative ==>
             code[f.off..f.off + f.size] == LE((l.bound[f.target] + top) % W64, 8))
       && (forall i :: 0 <= i < |code| && Untouched(l.fields, l.bound, i) ==> code[i] == l.template[i])
  }

  // In finished code a byte that s was laid out with, outside its field, is as it was.
  lemma PlainCode(l0: Layout, s: Stmt, b: seq<Stmt>, limit: nat, top: Uint64, code: seq<Byte>)
    requires Context(l0, s, b, limit, top, code)
    ensures |l0.open| >= 2 && |l0.template| <= |LayOne(l0, s).template| <= |code| && |l0.template| <= MAX_ALLOC
    ensures forall i :: |l0.template| <= i < |LayOne(l0, s).template|
                        && (forall k :: |l0.fields| <= k < |LayOne(l0, s).fields| ==>
                              !(LayOne(l0, s).fields[k].off <= i)) ==>
              code[i] == LayOne(l0, s).template[i]
  {
    StepExtends(l0, s);
    LayExtends(LayOne(l0, s), b);
    forall i | |l0.template| <= i < |LayOne(l0, s).template|
               && (forall k :: |l0.fields| <= k < |LayOne(l0, s).fields| ==> !(LayOne(l0, s).fields[k].off <= i))
      ensures code[i] == LayOne(l0, s).template[i]
    {
      PlainBytes(l0, s, b, i);
    }
  }

  lemma RawEmitted(l0: Layout, s: Stmt, b: seq<Stmt>, limit: nat, top: Uint64, code: seq<Byte>)
    requires s.Raw? && Context(l0, s, b, limit, top, code)
    ensures Emitted(l0, s, Lay(LayOne(l0, s), b).bound, top, code, |LayOne(l0, s).template|)
  {
    PlainCode(l0, s, b, limit, top, code);
    hide Context;
    assert code[|l0.template|..|LayOne(l0, s).template|] == s.bytes;
  }

  // A label that is not yet defined will lie further on.
  lemma {:induction false} LaterAddress(l: Layout, prog: seq<Stmt>, limit: nat, b: Binding)
    requires |l.open| >= 2 && AcceptsAll(l, prog, limit) && b !in l.bound && b in Lay(l, prog).bound
    ensures |l.template| <= Lay(l, prog).bound[b]
    decreases |prog|
  {
    var m := LayOne(l, prog[0]);
    if b in m.bound {
      LayKeeps(m, prog[1..], limit);
    } else {
      LaterAddress(m, prog[1..], limit, b);
    }
  }

  // The field of a statement, where its label ends up, and whether it reaches there.
  lemma FieldOf(l0: Layout, s: Stmt, b: seq<Stmt>, limit: nat, top: Uint64, code: seq<Byte>) returns (f: Field)
    requires (s.Jump? || s.RipField? || s.AddressField?) && Context(l0, s, b, limit, top, code)
    ensures var l1, l := LayOne(l0, s), Lay(LayOne(l0, s), b);
            && |l0.open| >= 2 && |l1.open| >= 2
            && |l1.fields| == |l0.fields| + 1 && f == l1.fields[|l0.fields|]
            && f in l.fields && f.target == Used(l0, s.target) && f.target in l.bound
            && f.off + f.size == |l1.template| <= |code|
            && (f.target in l0.bound ==> l.bound[f.target] == l0.bound[f.target] <= |l0.template|)
            && (f.target !in l0.bound ==> |l1.template| <= l.bound[f.target])
            && (f.target !in l0.bound && f.relative ==> Reaches(f, l.bound[f.target]))
            && (f.relative ==> (Hits(code, f, l.bound[f.target]) <==> Reaches(f, l.bound[f.target])))
            && (!f.relative ==> code[f.off..f.off + f.size] == LE((l.bound[f.target] + top) % W64, 8))
  {
    hide Reaches, Hits, LE;
    var l1 := LayOne(l0, s);
    f := l1.fields[|l0.fields|];
    assert ([s] + b)[0] == s && ([s] + b)[1..] == b;
    StepExtends(l0, s);
    LayExtends(l1, b);
    LayKeeps(l1, b, limit);
    var l := Lay(l1, b);
    assert l.fields[|l0.fields|] == f && f in l1.fields;
    if f.target !in l0.bound {
      LaterAddress(l1, b, limit, f.target);
      if f.relative {
        WaitingReaches(l1, b, limit, f);
      }
    }
  }

  lemma AddressEmitted(l0: Layout, s: Stmt, b: seq<Stmt>, limit: nat, top: Uint64, code: seq<Byte>)
    requires s.AddressField? && Context(l0, s, b, limit, top, code)
    ensures Emitted(l0, s, Lay(LayOne(l0, s), b).bound, top, code, |LayOne(l0, s).template|)
  {
    var f := FieldOf(l0, s, b, limit, top, code);
  }

  lemma RelativeEmitted(l0: Layout, s: Stmt, b: seq<Stmt>, limit: nat, top: Uint64, code: seq<Byte>)
    requires s.RipField? && Context(l0, s, b, limit, top, code)
    ensures Emitted(l0, s, Lay(LayOne(l0, s), b).bound, top, code, |LayOne(l0, s).template|)
  {
    var f := FieldOf(l0, s, b, limit, top, code);
    hide Context, ReadLE;
    assert Reaches(f, Lay(LayOne(l0, s), b).bound[f.target]) by {
      if f.target in l0.bound {
        RipAccepted(l0, s, b, limit);
      }
    }
  }

  lemma RipAccepted(l0: Layout, s: Stmt, b: seq<Stmt>, limit: nat)
    requires s.RipField? && |l0.open| >= 2 && AcceptsAll(l0, [s] + b, limit) && Used(l0, s.target) in l0.bound
    ensures IsInInt32((l0.bound[Used(l0, s.target)] + s.disp - |l0.template| - 4) % W64)
  {
    assert ([s] + b)[0] == s;
  }

  lemma JumpEmitted(l0: Layout, s: Stmt, b: seq<Stmt>, limit: nat, top: Uint64, code: seq<Byte>)
    requires s.Jump? && l0.open != [] && Context(l0, s, b, limit, top, code)
    ensures Emitted(l0, s, Lay(LayOne(l0, s), b).bound, top, code, |LayOne(l0, s).template|)
  {
    hide Context, ReadLE, IsInInt32, Reaches, Lay, LongHead;
    var f := FieldOf(l0, s, b, limit, top, code);
    JumpHead(l0, s, b, limit, top, code);
    var at, addr := |l0.template|, Lay(LayOne(l0, s), b).bound[f.target];
    HeadSize(s);
    if TakesShort(l0, s, f.target) {
      if f.target in l0.bound {
        ShortJumpBackwards(at, addr, f.target);
      }
      assert code[at + 1..at + 2] == [code[at + 1]];
      OneByte(code[at + 1]);
    } else if f.target in l0.bound {
      NearJumpBackwards(at, |LongHead(s)|, addr, f.target);
    }
  }

  lemma HeadSize(s: Stmt)
    requires s.Jump?
    ensures LongHead(s) == if s.longPref == 0 then [s.longCode] else [s.longPref, s.longCode]
  {}

  lemma OneByte(b: Byte)
    ensures ReadLE([b]) == b
  {
    assert [b][1..] == [];
  }

  // The bytes before the field of a jump.
  lemma JumpHead(l0: Layout, s: Stmt, b: seq<Stmt>, limit: nat, top: Uint64, code: seq<Byte>)
    requires s.Jump? && l0.open != [] && Context(l0, s, b, limit, top, code)
    ensures var at, next := |l0.template|, |LayOne(l0, s).template|;
            if TakesShort(l0, s, Used(l0, s.target)) then next == at + 2 <= |code| && code[at] == s.shortCode
            else next == at + |LongHead(s)| + 4 <= |code| && code[at..at + |LongHead(s)|] == LongHead(s)
    ensures |l0.template| <= MAX_ALLOC
  {
    hide Context, TakesShort, Used, LongHead;
    PlainCode(l0, s, b, limit, top, code);
    var at, l1 := |l0.template|, LayOne(l0, s);
    var head := if TakesShort(l0, s, Used(l0, s.target)) then [s.shortCode] else LongHead(s);
    assert |l1.fields| == |l0.fields| + 1 && l1.fields[|l0.fields|].off == at + |head|;
    forall i | at <= i < at + |head|
      ensures code[i] == head[i - at]
    {
      assert l1.template[i] == head[i - at];
    }
    assert code[at..at + |head|] == head;
  }

  lemma EmittedAt(l0: Layout, s: Stmt, b: seq<Stmt>, limit: nat, top: Uint64, code: seq<Byte>)
    requires l0.open != [] && Context(l0, s, b, limit, top, code)
    ensures Emitted(l0, s, Lay(LayOne(l0, s), b).bound, top, code, |LayOne(l0, s).template|)
  {
    hide Context;
    match s
    case Raw(_) => RawEmitted(l0, s, b, limit, top, code);
    case Jump(_, _, _, _, _) => JumpEmitted(l0, s, b, limit, top, code);
    case RipField(_, _) => RelativeEmitted(l0, s, b, limit, top, code);
    case AddressField(_) => AddressEmitted(l0, s, b, limit, top, code);
    case _ =>
  }

  lemma {:induction false} BoundStays(l: Layout, prog: seq<Stmt>)
    requires |l.open| >= 2 && BoundInside(l)
    ensures BoundInside(Lay(l, prog)) && |Lay(l, prog).open| >= 2
    decreases |prog|
  {
    if prog != [] {
      BoundStays(LayOne(l, prog[0]), prog[1..]);
    }
  }

  /** What a statement of an accepted program is in the finished code: its own bytes; the head of a jump, prefix first,
  and a distance that leads from its end to the label; a distance to the label and beyond; or the label's address.
  A jump is short exactly when it may be and its label is still to come or near enough. */
  lemma StatementMeans(buffer: Buffer, a: seq<Stmt>, s: Stmt, b: seq<Stmt>, top: Uint64)
    requires buffer.Fixed? ==> buffer.top == top
    requires Inside(Start(buffer)) && Run(Start(buffer), a + ([s] + b)).Ok?
    requires var g := Run(Start(buffer), a + ([s] + b)).value; SavedInside(g.saved, |g.code|) && Ready(g, top).Ok?
    ensures |Lay(Blank(), a).open| >= 2
    ensures Emitted(Lay(Blank(), a), s, Lay(Blank(), a + ([s] + b)).bound, top,
                    Ready(Run(Start(buffer), a + ([s] + b)).value, top).value, |Lay(Blank(), a + [s]).template|)
  {
    hide Run, Ready, Lay, AcceptsAll, Inside, SavedInside, Hits, Reaches, Emitted, Untouched, Limit;
    var prog := a + ([s] + b);
    var code := Ready(Run(Start(buffer), prog).value, top).value;
    EveryFieldHits(buffer, prog, top);
    AcceptedExactly(buffer, prog);
    RunFits(buffer, prog);
    AcceptSplit(Blank(), a, [s] + b, Limit(buffer));
    LaySplit(Blank(), a, [s] + b);
    LaySplit(Blank(), a, [s]);
    var l0 := Lay(Blank(), a);
    LaySplit(l0, [s], b);
    OneStatement(l0, s);
    LayExtends(Blank(), a);
    BoundStays(Blank(), a);
    LimitFits(buffer);
    EmittedAt(l0, s, b, Limit(buffer), top, code);
  }

  lemma LimitFits(buffer: Buffer)
    ensures Limit(buffer) <= MAX_ALLOC
  {}

  // ---------------------------------------------------------------- which definition a reference leads to

  /** Reading on from inside a scope, with `depth` scopes opened within it: how many are open in the end, or none if
  the scope itself was left. */
  function Depth(prog: seq<Stmt>, depth: nat): Option<nat> {
    if prog == [] then Some(depth)
    else if prog[0].EnterLocal? then Depth(prog[1..], depth + 1)
    else if prog[0].LeaveLocal? then if depth == 0 then None else Depth(prog[1..], depth - 1)
    else Depth(prog[1..], depth)
  }

  // Two places with this between them are in the same scope.
  predicate SameScope(between: seq<Stmt>) { Depth(between, 0) == Some(0) }

  // Open scopes are numbered in the order in which they were opened.
  ghost predicate Nested(l: Layout) {
    && |l.open| >= 2
    && (forall i, j :: 0 <= i < j < |l.open| ==> l.open[i] < l.open[j])
    && (forall i :: 0 <= i < |l.open| ==> l.open[i] < l.nextScope)
  }

  lemma StepNests(l: Layout, s: Stmt)
    requires Nested(l)
    ensures Nested(LayOne(l, s)) && l.nextScope <= LayOne(l, s).nextScope
  {}

  lemma {:induction false} LayNests(l: Layout, prog: seq<Stmt>)
    requires Nested(l)
    ensures Nested(Lay(l, prog))
    decreases |prog|
  {
    hide Nested;
    if prog != [] {
      StepNests(l, prog[0]);
      assert |l.open| >= 2 && |LayOne(l, prog[0]).open| >= 2 by {
        TwoOpen(l);
        TwoOpen(LayOne(l, prog[0]));
      }
      LayNests(LayOne(l, prog[0]), prog[1..]);
    }
  }

  lemma TwoOpen(l: Layout)
    requires Nested(l)
    ensures |l.open| >= 2
  {}

  // A scope that was left is never open again.
  lemma {:induction false} LeftForGood(l: Layout, prog: seq<Stmt>, scope: nat)
    requires Nested(l) && scope < l.nextScope && scope !in l.open
    ensures scope !in Lay(l, prog).open
    decreases |prog|
  {
    if prog != [] {
      StepNests(l, prog[0]);
      LeftForGood(LayOne(l, prog[0]), prog[1..], scope);
    }
  }

  lemma {:induction false} ScopeAfter(l: Layout, prog: seq<Stmt>, k: nat, limit: nat)
    requires Nested(l) && 0 < k < |l.open| && AcceptsAll(l, prog, limit)
    ensures match Depth(prog, |l.open| - 1 - k)
            case Some(depth) =>
              |Lay(l, prog).open| == k + 1 + depth && Lay(l, prog).open[..k + 1] == l.open[..k + 1]
            case None => l.open[k] !in Lay(l, prog).open
    decreases |prog|
  {
    if prog != [] {
      var m := LayOne(l, prog[0]);
      StepNests(l, prog[0]);
      if prog[0].LeaveLocal? && k == |l.open| - 1 {
        LeftForGood(m, prog[1..], l.open[k]);
      } else {
        ScopeAfter(m, prog[1..], k, limit);
        assert m.open[..k + 1] == l.open[..k + 1] && m.open[k] == l.open[k];
      }
    }
  }

  // A label object, or a name that is written as it is meant.
  predicate Plain(r: Ref) { r.Name? ==> r.name != "@@" && r.name != "@b" && r.name != "@f" }

  predicate StartsWithDot(r: Ref) { r.Name? && r.name != [] && r.name[0] == '.' }

  /** The same label at two places of an accepted program stands for the same address if and only if its name does
  not start with a dot or the two places are in the same scope. */
  lemma NamesMeet(l: Layout, between: seq<Stmt>, r: Ref, limit: nat)
    requires Nested(l) && AcceptsAll(l, between, limit) && Plain(r)
    ensures |Lay(l, between).open| >= 2
    ensures var m := Lay(l, between);
            && Used(l, r) == Defined(l, r) && Used(m, r) == Defined(m, r)
            && (Used(l, r) == Used(m, r) <==> !StartsWithDot(r) || SameScope(between))
  {
    LayNests(l, between);
    var k := |l.open| - 1;
    ScopeAfter(l, between, k, limit);
    var m := Lay(l, between);
    match Depth(between, 0)
    case Some(depth) => assert m.open[k] == m.open[..k + 1][k] == l.open[k];
    case None => assert m.open[|m.open| - 1] in m.open;
  }

  predicate RefersTo(s: Stmt, r: Ref) {
    (s.Jump? || s.RipField? || s.AddressField?) && s.target == r
  }

  /** A reference after a definition of its label leads to it if and only if the label is not a local name or the two
  are in the same scope. */
  lemma NamedBackwards(a: seq<Stmt>, r: Ref, b: seq<Stmt>, s: Stmt, c: seq<Stmt>, limit: nat)
    requires AcceptsAll(Blank(), a + ([Define(r)] + (b + ([s] + c))), limit)
    requires Plain(r) && RefersTo(s, r)
    ensures Leads(a + ([Define(r)] + b), a, r, a + ([Define(r)] + (b + ([s] + c))),
                  !StartsWithDot(r) || SameScope(b))
  {
    hide Lay, AcceptsAll, Depth, Nested;
    var d, rest := [Define(r)], [s] + c;
    var l0 := Lay(Blank(), a);
    LaySplit(Blank(), a, d + (b + rest));
    AcceptSplit(Blank(), a, d + (b + rest), limit);
    LaySplit(l0, d, b + rest);
    AcceptSplit(l0, d, b + rest, limit);
    var l1 := Lay(l0, d);
    OneStatement(l0, d[0]);
    LaySplit(l1, b, rest);
    AcceptSplit(l1, b, rest, limit);
    LayKeeps(l1, b, limit);
    var l2 := Lay(l1, b);
    LaySplit(l2, [s], c);
    AcceptSplit(l2, [s], c, limit);
    OneStatement(l2, s);
    LayKeeps(Lay(l2, [s]), c, limit);
    LaySplit(Blank(), a, d + b);
    LaySplit(l0, d, b);
    BlankNests();
    LayNests(Blank(), a);
    LayNests(l0, d);
    NamesMeet(l1, b, r, limit);
  }

  lemma BlankNests()
    ensures Nested(Blank())
  {}

  // In the program, the reference that follows `at` leads to the definition of the label that follows `def` exactly
  // on a condition; and that definition stands for the place where it is.
  ghost predicate Leads(at: seq<Stmt>, def: seq<Stmt>, r: Ref, prog: seq<Stmt>, condition: bool) {
    var l, l0, m := Lay(Blank(), prog), Lay(Blank(), def), Lay(Blank(), at);
    && |l0.open| >= 2 && |m.fields| < |l.fields|
    && Defined(l0, r) in l.bound && l.bound[Defined(l0, r)] == |l0.template|
    && (l.fields[|m.fields|].target == Defined(l0, r) <==> condition)
  }

  // The same of a reference before the definition.
  lemma NamedForwards(a: seq<Stmt>, s: Stmt, b: seq<Stmt>, r: Ref, c: seq<Stmt>, limit: nat)
    requires AcceptsAll(Blank(), a + ([s] + (b + ([Define(r)] + c))), limit)
    requires Plain(r) && RefersTo(s, r)
    ensures Leads(a, a + ([s] + b), r, a + ([s] + (b + ([Define(r)] + c))),
                  !StartsWithDot(r) || SameScope(b))
  {
    hide Lay, AcceptsAll, Depth, Nested;
    var d := [Define(r)];
    var rest := d + c;
    var l0 := Lay(Blank(), a);
    LaySplit(Blank(), a, [s] + (b + rest));
    AcceptSplit(Blank(), a, [s] + (b + rest), limit);
    LaySplit(l0, [s], b + rest);
    AcceptSplit(l0, [s], b + rest, limit);
    var l1 := Lay(l0, [s]);
    OneStatement(l0, s);
    LaySplit(l1, b, rest);
    AcceptSplit(l1, b, rest, limit);
    var l2 := Lay(l1, b);
    LayKeeps(l1, b, limit);
    LaySplit(l2, d, c);
    AcceptSplit(l2, d, c, limit);
    OneStatement(l2, d[0]);
    LayKeeps(Lay(l2, d), c, limit);
    LaySplit(Blank(), a, [s] + b);
    LaySplit(l0, [s], b);
    BlankNests();
    LayNests(Blank(), a);
    LayNests(l0, [s]);
    NamesMeet(l1, b, r, limit);
  }
}
