/** Replacing pointers in protected memory as one transaction: open every page, remember what was there,
then either publish all targets or put every protection back.

Protection belongs to a page, and several slots may share one. An aligned slot never crosses a page, so
changing the protection of a slot changes exactly its page. Pages absent from `protection` are not
committed. Restoring a protection is taken to succeed. */
module PointerPatch {

  const PAGE: nat := 0x1000
  const ALIGNMENT: nat := 8

  datatype Access =
    NoAccess | ReadOnly | ReadWrite | WriteCopy | Execute | ExecuteRead | ExecuteReadWrite | ExecuteWriteCopy
  datatype Protection = Protection(access: Access, guarded: bool)

  type Protections = map<nat, Protection>

  datatype Patch = Patch(address: nat, target: nat, previous: nat, protection: Protection)

  // What the operating system answers for one slot.
  datatype Answer = Answer(queried: bool, protected: bool)

  predicate Executable(p: Protection) {
    p.access.Execute? || p.access.ExecuteRead? || p.access.ExecuteReadWrite? || p.access.ExecuteWriteCopy?
  }

  predicate Barred(p: Protection) { p.guarded || p.access.NoAccess? }

  predicate CanWrite(p: Protection) {
    !p.guarded && (p.access.ReadWrite? || p.access.WriteCopy? || p.access.ExecuteReadWrite?
                   || p.access.ExecuteWriteCopy?)
  }

  // Opening a page keeps it executable and is never undone by opening it again.
  function Opening(p: Protection): (w: Protection)
    ensures CanWrite(w) && !Barred(w) && (Executable(w) <==> Executable(p))
  {
    Protection(if Executable(p) then ExecuteReadWrite else ReadWrite, false)
  }

  function PageOf(address: nat): nat { address / PAGE }

  function Read(slots: map<nat, nat>, address: nat): nat { if address in slots then slots[address] else 0 }

  function Protect(now: Protections, page: nat, p: Protection): Protections {
    if page in now then now[page := p] else now
  }

  // The protections once the first `k` slots have been opened.
  function Opened(start: Protections, ps: seq<Patch>, k: nat): (now: Protections)
    requires k <= |ps|
    ensures now.Keys == start.Keys
  {
    if k == 0 then start
    else
      var before := Opened(start, ps, k - 1);
      var page := PageOf(ps[k - 1].address);
      if page in before then Protect(before, page, Opening(before[page])) else before
  }

  // The protections once the first `k` records have been put back, the last one first.
  function Restored(now: Protections, ps: seq<Patch>, k: nat): Protections
    requires k <= |ps|
  {
    if k == 0 then now
    else Restored(Protect(now, PageOf(ps[k - 1].address), ps[k - 1].protection), ps, k - 1)
  }

  // Each record holds the protection its slot had when it was reached, and the pointer it held.
  ghost predicate Recorded(start: Protections, slots: map<nat, nat>, ps: seq<Patch>, k: nat)
    requires k <= |ps|
  {
    forall i :: 0 <= i < k ==>
      && PageOf(ps[i].address) in start
      && ps[i].protection == Opened(start, ps, i)[PageOf(ps[i].address)]
      && ps[i].previous == Read(slots, ps[i].address)
  }

  predicate Acceptable(start: Protections, slots: map<nat, nat>, p: Patch, a: Answer) {
    && p.address != 0 && p.address % ALIGNMENT == 0 && a.queried && a.protected
    && PageOf(p.address) in start
    && !start[PageOf(p.address)].guarded && !start[PageOf(p.address)].access.NoAccess?
    && Read(slots, p.address) != 0
  }

  // Two lists that name the same slots and targets.
  predicate SamePlan(ps: seq<Patch>, qs: seq<Patch>) {
    |ps| == |qs| && forall i :: 0 <= i < |ps| ==> ps[i].address == qs[i].address && ps[i].target == qs[i].target
  }

  lemma {:induction false} OpenedAt(start: Protections, ps: seq<Patch>, k: nat, page: nat)
    requires k <= |ps| && page in start
    ensures Opened(start, ps, k)[page]
            == if exists i :: 0 <= i < k && PageOf(ps[i].address) == page then Opening(start[page]) else start[page]
  {
    if k > 0 {
      OpenedAt(start, ps, k - 1, page);
      assert PageOf(ps[k - 1].address) == page ==> exists i :: 0 <= i < k && PageOf(ps[i].address) == page;
    }
  }

  lemma {:induction false} OpenedSame(start: Protections, ps: seq<Patch>, qs: seq<Patch>, k: nat)
    requires SamePlan(ps, qs) && k <= |ps|
    ensures Opened(start, ps, k) == Opened(start, qs, k)
  {
    if k > 0 {
      OpenedSame(start, ps, qs, k - 1);
    }
  }

  lemma ProtectUndone(now: Protections, page: nat, p: Protection)
    requires page in now
    ensures Protect(Protect(now, page, p), page, now[page]) == now
  {}

  lemma RecordOf(start: Protections, slots: map<nat, nat>, ps: seq<Patch>, k: nat)
    requires 0 < k <= |ps| && Recorded(start, slots, ps, k)
    ensures Recorded(start, slots, ps, k - 1) && PageOf(ps[k - 1].address) in start
    ensures ps[k - 1].protection == Opened(start, ps, k - 1)[PageOf(ps[k - 1].address)]
  {}

  // Putting the records back in reverse order undoes the opening, however the slots share pages.
  lemma {:induction false} ReverseRestores(start: Protections, slots: map<nat, nat>, ps: seq<Patch>, k: nat)
    requires k <= |ps| && Recorded(start, slots, ps, k)
    ensures Restored(Opened(start, ps, k), ps, k) == start
  {
    hide PageOf, Opening, Protect, Recorded;
    if k > 0 {
      RecordOf(start, slots, ps, k);
      var before := Opened(start, ps, k - 1);
      var page := PageOf(ps[k - 1].address);
      ProtectUndone(before, page, Opening(before[page]));
      ReverseRestores(start, slots, ps, k - 1);
    }
  }

  // A slot may be checked against the memory as opened so far: an earlier slot of its page changes nothing.
  lemma CheckedNow(start: Protections, slots: map<nat, nat>, ps: seq<Patch>, k: nat, answers: seq<Answer>)
    requires k < |ps| == |answers|
    requires forall i :: 0 <= i < k ==> Acceptable(start, slots, ps[i], answers[i])
    ensures var now := Opened(start, ps, k);
            Acceptable(now, slots, ps[k], answers[k]) <==> Acceptable(start, slots, ps[k], answers[k])
  {
    hide PageOf;
    if PageOf(ps[k].address) in start {
      OpenedAt(start, ps, k, PageOf(ps[k].address));
    }
  }

  lemma PlanAcceptable(start: Protections, slots: map<nat, nat>, ps: seq<Patch>, qs: seq<Patch>, k: nat,
                       answers: seq<Answer>)
    requires SamePlan(ps, qs) && k <= |ps| == |answers|
    requires forall i :: 0 <= i < k ==> Acceptable(start, slots, qs[i], answers[i])
    ensures forall i :: 0 <= i < k ==> Acceptable(start, slots, ps[i], answers[i])
  {}

  lemma SameAcceptable(start: Protections, slots: map<nat, nat>, p: Patch, q: Patch, a: Answer)
    requires p.address == q.address
    ensures Acceptable(start, slots, p, a) <==> Acceptable(start, slots, q, a)
  {}

  lemma PreparedNone(start: Protections, slots: map<nat, nat>, ps: seq<Patch>)
    ensures Opened(start, ps, 0) == start && Recorded(start, slots, ps, 0)
  {}

  // Opening one more slot and recording what it had.
  lemma RecordedNext(start: Protections, slots: map<nat, nat>, ps: seq<Patch>, k: nat)
    requires k < |ps| && Recorded(start, slots, ps, k) && PageOf(ps[k].address) in start
    ensures var page := PageOf(ps[k].address);
            var was := Opened(start, ps, k)[page];
            var qs := ps[k := ps[k].(protection := was, previous := Read(slots, ps[k].address))];
            && SamePlan(qs, ps) && Recorded(start, slots, qs, k + 1)
            && Opened(start, qs, k + 1) == Protect(Opened(start, ps, k), page, Opening(was))
  {
    var was := Opened(start, ps, k)[PageOf(ps[k].address)];
    var qs := ps[k := ps[k].(protection := was, previous := Read(slots, ps[k].address))];
    forall i | 0 <= i <= k
      ensures Opened(start, qs, i) == Opened(start, ps, i)
    {
      OpenedSame(start, qs, ps, i);
    }
  }

  // ---------------------------------------------------------------- the slots

  // The slots once the first `k` targets have been stored.
  function Written(slots: map<nat, nat>, ps: seq<Patch>, k: nat): map<nat, nat>
    requires k <= |ps|
  {
    if k == 0 then slots else Written(slots, ps, k - 1)[ps[k - 1].address := ps[k - 1].target]
  }

  // A slot ends with the target listed last for it, and every other slot with what it held.
  lemma {:induction false} LastTargetStays(slots: map<nat, nat>, ps: seq<Patch>, k: nat, address: nat, i: int)
    requires k <= |ps| && -1 <= i < k
    requires i >= 0 ==> ps[i].address == address
    requires forall j :: 0 <= i < j < k || (i < 0 && 0 <= j < k) ==> ps[j].address != address
    ensures Read(Written(slots, ps, k), address) == if i >= 0 then ps[i].target else Read(slots, address)
  {
    if k > 0 && i < k - 1 {
      LastTargetStays(slots, ps, k - 1, address, i);
    }
  }

  // Every slot of the list holds its last target, and no other slot moved.
  ghost predicate Replaced(before: map<nat, nat>, after: map<nat, nat>, ps: seq<Patch>) {
    && (forall i :: 0 <= i < |ps| && (forall j :: i < j < |ps| ==> ps[j].address != ps[i].address) ==>
          Read(after, ps[i].address) == ps[i].target)
    && (forall a :: (forall j :: 0 <= j < |ps| ==> ps[j].address != a) ==> Read(after, a) == Read(before, a))
  }

  predicate Replaceable(start: Protections, slots: map<nat, nat>, ps: seq<Patch>, answers: seq<Answer>, low: nat,
                        high: nat)
    requires |ps| == |answers|
  {
    && (forall i :: 0 <= i < |ps| ==> Acceptable(start, slots, ps[i], answers[i]))
    && (forall i :: 0 <= i < |ps| ==> low <= Read(slots, ps[i].address) < high)
  }

  lemma {:induction false} WrittenSame(slots: map<nat, nat>, ps: seq<Patch>, qs: seq<Patch>, k: nat)
    requires SamePlan(ps, qs) && k <= |ps|
    ensures Written(slots, ps, k) == Written(slots, qs, k)
  {
    if k > 0 {
      WrittenSame(slots, ps, qs, k - 1);
    }
  }

  lemma WrittenReplaces(slots: map<nat, nat>, ps: seq<Patch>, qs: seq<Patch>)
    requires SamePlan(ps, qs)
    ensures Replaced(slots, Written(slots, ps, |ps|), qs)
  {
    WrittenSame(slots, ps, qs, |ps|);
    forall i | 0 <= i < |qs| && forall j :: i < j < |qs| ==> qs[j].address != qs[i].address
      ensures Read(Written(slots, qs, |qs|), qs[i].address) == qs[i].target
    {
      LastTargetStays(slots, qs, |qs|, qs[i].address, i);
    }
    forall a: nat | forall j :: 0 <= j < |qs| ==> qs[j].address != a
      ensures Read(Written(slots, qs, |qs|), a) == Read(slots, a)
    {
      LastTargetStays(slots, qs, |qs|, a, -1);
    }
  }

  lemma PageIsOpen(start: Protections, slots: map<nat, nat>, ps: seq<Patch>, k: nat, i: nat)
    requires i < k <= |ps| && Recorded(start, slots, ps, k)
    ensures var page := PageOf(ps[i].address);
            && page in start && page in Opened(start, ps, k) && CanWrite(Opened(start, ps, k)[page])
            && Opened(start, ps, k)[page] ==
               Protection(if start[page].access in {Execute, ExecuteRead, ExecuteReadWrite, ExecuteWriteCopy}
                          then ExecuteReadWrite else ReadWrite, false)
  {
    hide PageOf;
    OpenedAt(start, ps, k, PageOf(ps[i].address));
  }

  // ---------------------------------------------------------------- why the order is reversed

  // The records put back in the order they were made.
  function RestoredForward(now: Protections, ps: seq<Patch>, k: nat): Protections
    requires k <= |ps|
  {
    if k == 0 then now
    else Protect(RestoredForward(now, ps, k - 1), PageOf(ps[k - 1].address), ps[k - 1].protection)
  }

  // Forward, a page ends with the record of its last slot.
  lemma {:induction false} ForwardAt(now: Protections, ps: seq<Patch>, k: nat, page: nat, i: int)
    requires k <= |ps| && -1 <= i < k && page in now
    requires i >= 0 ==> PageOf(ps[i].address) == page
    requires forall j :: i < j < k ==> PageOf(ps[j].address) != page
    ensures RestoredForward(now, ps, k).Keys == now.Keys
    ensures RestoredForward(now, ps, k)[page] == if i >= 0 then ps[i].protection else now[page]
  {
    hide PageOf;
    if k > 0 {
      var j := LastOfPage(ps, k - 1, page);
      ForwardAt(now, ps, k - 1, page, j);
    }
  }

  // The last slot of a page in the list.
  lemma {:induction false} LastOfPage(ps: seq<Patch>, k: nat, page: nat) returns (i: int)
    requires k <= |ps|
    ensures -1 <= i < k && (i >= 0 ==> PageOf(ps[i].address) == page)
    ensures forall j :: i < j < k ==> PageOf(ps[j].address) != page
  {
    hide PageOf;
    if k == 0 {
      i := -1;
    } else if PageOf(ps[k - 1].address) == page {
      i := k - 1;
    } else {
      i := LastOfPage(ps, k - 1, page);
    }
  }

  /** Restoring in the order of recording would do only when no two slots share a page that opening
  changes; the reversed order is what makes the transaction safe. */
  lemma ForwardRestoresIff(start: Protections, slots: map<nat, nat>, ps: seq<Patch>)
    requires Recorded(start, slots, ps, |ps|)
    ensures RestoredForward(Opened(start, ps, |ps|), ps, |ps|) == start <==>
              (forall i, j :: 0 <= i < j < |ps| && PageOf(ps[i].address) == PageOf(ps[j].address) ==>
                 Opening(start[PageOf(ps[i].address)]) == start[PageOf(ps[i].address)])
  {
    hide PageOf, Opening, Opened, RestoredForward;
    var end := RestoredForward(Opened(start, ps, |ps|), ps, |ps|);
    forall page | page in start
      ensures page in end
      ensures end[page] == if exists i, j :: 0 <= i < j < |ps| && PageOf(ps[i].address) == PageOf(ps[j].address) == page
                           then Opening(start[page]) else start[page]
    {
      ForwardPage(start, slots, ps, page);
    }
    ForwardKeys(Opened(start, ps, |ps|), ps, |ps|);
  }

  lemma {:induction false} ForwardKeys(now: Protections, ps: seq<Patch>, k: nat)
    requires k <= |ps|
    ensures RestoredForward(now, ps, k).Keys == now.Keys
  {
    hide PageOf;
    if k > 0 {
      ForwardKeys(now, ps, k - 1);
    }
  }

  lemma ForwardPage(start: Protections, slots: map<nat, nat>, ps: seq<Patch>, page: nat)
    requires Recorded(start, slots, ps, |ps|) && page in start
    ensures var end := RestoredForward(Opened(start, ps, |ps|), ps, |ps|);
            && page in end
            && end[page]
               == if exists i, j :: 0 <= i < j < |ps| && PageOf(ps[i].address) == PageOf(ps[j].address) == page
                            then Opening(start[page]) else start[page]
  {
    hide PageOf, Opening, Opened, RestoredForward;
    var j := LastOfPage(ps, |ps|, page);
    ForwardAt(Opened(start, ps, |ps|), ps, |ps|, page, j);
    OpenedAt(start, ps, |ps|, page);
    if j >= 0 {
      OpenedAt(start, ps, j, page);
    }
  }

  // ---------------------------------------------------------------- the transaction

  class Memory {
    var protection: Protections
    var slots: map<nat, nat>

    method RestorePointersProtection(patches: array<Patch>, count: nat)
      requires count <= patches.Length
      modifies this`protection
      ensures protection == Restored(old(protection), patches[..], count)
    {
      var index: nat := count;
      while index > 0
        invariant index <= count
        invariant Restored(protection, patches[..], index) == Restored(old(protection), patches[..], count)
      {
        var patch := patches[index - 1];
        protection := Protect(protection, PageOf(patch.address), patch.protection);
        index := index - 1;
      }
    }

    /** Succeeds exactly when every slot is acceptable as the memory stood before the call. On failure every
    protection is what it was; on success the records are those that undo the opening. */
    method PreparePointers(patches: array<Patch>, answers: seq<Answer>) returns (ok: bool)
      requires |answers| == patches.Length
      modifies this`protection, patches
      ensures SamePlan(patches[..], old(patches[..]))
      ensures ok <==> forall i :: 0 <= i < patches.Length ==>
                        Acceptable(old(protection), slots, old(patches[..])[i], answers[i])
      ensures !ok ==> protection == old(protection)
      ensures ok ==> protection == Opened(old(protection), patches[..], patches.Length)
      ensures ok ==> Recorded(old(protection), slots, patches[..], patches.Length)
    {
      hide Opened, Restored, Recorded, PageOf, Opening;
      ghost var start := protection;
      ghost var plan := patches[..];
      var prepared: nat := 0;
      PreparedNone(start, slots, patches[..]);
      while prepared < patches.Length
        invariant prepared <= patches.Length
        invariant SamePlan(patches[..], plan)
        invariant protection == Opened(start, patches[..], prepared)
        invariant Recorded(start, slots, patches[..], prepared)
        invariant forall i :: 0 <= i < prepared ==> Acceptable(start, slots, plan[i], answers[i])
      {
        ghost var ps := patches[..];
        var patch := patches[prepared];
        var page := PageOf(patch.address);
        PlanAcceptable(start, slots, ps, plan, prepared, answers);
        CheckedNow(start, slots, ps, prepared, answers);
        SameAcceptable(start, slots, ps[prepared], plan[prepared], answers[prepared]);
        ReverseRestores(start, slots, ps, prepared);
        if patch.address == 0 || patch.address % ALIGNMENT != 0 || !answers[prepared].queried
           || page !in protection || Barred(protection[page]) || !answers[prepared].protected {
          RestorePointersProtection(patches, prepared);
          return false;
        }
        var was := protection[page];
        protection := Protect(protection, page, Opening(was));
        RecordedNext(start, slots, ps, prepared);
        patches[prepared] := patch.(protection := was, previous := Read(slots, patch.address));
        assert patches[..] == ps[prepared := patches[prepared]];
        prepared := prepared + 1;
        if patches[prepared - 1].previous == 0 {
          ReverseRestores(start, slots, patches[..], prepared);
          RestorePointersProtection(patches, prepared);
          return false;
        }
      }
      ok := true;
    }

    /** Every slot gets its last target and the protections of before the preparation come back. The pages
    are writable at every store. */
    method PublishPointers(patches: array<Patch>, ghost start: Protections, ghost before: map<nat, nat>)
      requires protection == Opened(start, patches[..], patches.Length)
      requires Recorded(start, before, patches[..], patches.Length)
      modifies this
      ensures protection == start
      ensures slots == Written(old(slots), patches[..], patches.Length)
    {
      hide Opened, Restored, Recorded, PageOf;
      var k: nat := 0;
      while k < patches.Length
        invariant k <= patches.Length
        invariant protection == old(protection)
        invariant slots == Written(old(slots), patches[..], k)
      {
        PageIsOpen(start, before, patches[..], patches.Length, k);
        assert CanWrite(protection[PageOf(patches[k].address)]);
        slots := slots[patches[k].address := patches[k].target];
        k := k + 1;
      }
      ReverseRestores(start, before, patches[..], patches.Length);
      RestorePointersProtection(patches, patches.Length);
    }

    // An interface is replaced only where every pointer it held came from the image it belongs to.
    method PrepareInterface(low: nat, high: nat, patches: array<Patch>, answers: seq<Answer>) returns (ok: bool)
      requires |answers| == patches.Length
      modifies this`protection, patches
      ensures SamePlan(patches[..], old(patches[..]))
      ensures ok <==> Replaceable(old(protection), slots, old(patches[..]), answers, low, high)
      ensures !ok ==> protection == old(protection)
      ensures ok ==> protection == Opened(old(protection), patches[..], patches.Length)
      ensures ok ==> Recorded(old(protection), slots, patches[..], patches.Length)
    {
      hide Opened, Restored, PageOf, Acceptable;
      ghost var start := protection;
      ok := PreparePointers(patches, answers);
      if !ok {
        return;
      }
      ghost var unlocked := protection;
      var k: nat := 0;
      while k < patches.Length
        invariant k <= patches.Length
        invariant protection == unlocked
        invariant forall i :: 0 <= i < k ==> low <= patches[i].previous < high
      {
        if patches[k].previous < low || patches[k].previous >= high {
          ReverseRestores(start, slots, patches[..], patches.Length);
          RestorePointersProtection(patches, patches.Length);
          return false;
        }
        k := k + 1;
      }
    }

    /** The whole transaction. It goes through exactly when every slot may be replaced; protections never
    change; slots change only when it goes through, and then each ends with its last target. */
    method Install(low: nat, high: nat, patches: array<Patch>, answers: seq<Answer>) returns (ok: bool)
      requires |answers| == patches.Length
      modifies this, patches
      ensures protection == old(protection)
      ensures ok <==> Replaceable(old(protection), old(slots), old(patches[..]), answers, low, high)
      ensures !ok ==> slots == old(slots)
      ensures ok ==> Replaced(old(slots), slots, old(patches[..]))
      ensures ok ==> forall i :: 0 <= i < patches.Length ==>
                       patches[i].previous == Read(old(slots), old(patches[..])[i].address)
    {
      hide Opened, PageOf, Replaceable, Written;
      ghost var start := protection;
      ok := PrepareInterface(low, high, patches, answers);
      if ok {
        PublishPointers(patches, start, slots);
        WrittenReplaces(old(slots), patches[..], old(patches[..]));
      }
    }
  }
}
