/**
 The 12-bit slot array of `ReorderSession` behaves like the unbounded `ReorderMachine`:
 frame by frame, over whole runs and when the session is freed, exactly for the buffer
 sizes that divide the sequence space and lie in 2..1024.
 */
module ReorderRefinement {
  import opened Counting
  import opened Modular
  import opened ReorderMachine
  import opened ReorderSession
  import opened SeqNum
  import opened Wrappers

  /** The slot of lifted number `at`. */
  function Slot(s: Session, at: int): (index: nat)
    requires |s.buf| > 0
    ensures index < |s.buf|
  {
    s.Index(at % SEQ_MODULO)
  }

  /** `head` is a lifted value of the session's head. */
  ghost predicate At(s: Session, head: int) {
    s.head == head % SEQ_MODULO
  }

  /** What the slots mean once the head is lifted to `head`. */
  function Abs(s: Session, head: int): Machine
    requires |s.buf| > 0
  {
    Machine(head, map k | head <= k < head + |s.buf| && s.buf[Slot(s, k)].Some? :: s.buf[Slot(s, k)].value)
  }

  ghost predicate Divides(size: nat) {
    size > 0 && SEQ_MODULO % size == 0
  }

  /** The steps below keep the start number and the number of slots. */
  ghost predicate SameShape(s: Session, t: Session) {
    s.ssn == t.ssn && |s.buf| == |t.buf| && |s.buf| > 0
  }

  // --- slots and windows ---

  lemma SlotsDiffer(s: Session, x: int, y: int)
    requires Divides(|s.buf|) && x < y < x + |s.buf|
    ensures Slot(s, x) != Slot(s, y)
  {
    SlotOfLifted(s.ssn, |s.buf|, x);
    SlotOfLifted(s.ssn, |s.buf|, y);
    ModDistinct(x - s.ssn, y - s.ssn, |s.buf|);
  }

  lemma SlotsRepeat(s: Session, x: int)
    requires Divides(|s.buf|)
    ensures Slot(s, x + |s.buf|) == Slot(s, x)
  {
    SlotOfLifted(s.ssn, |s.buf|, x);
    SlotOfLifted(s.ssn, |s.buf|, x + |s.buf|);
    ModShift(x - s.ssn, |s.buf|, 1);
  }

  lemma SlotShape(s: Session, t: Session, x: int)
    requires SameShape(s, t)
    ensures Slot(s, x) == Slot(t, x)
  {
  }

  lemma HeadSlot(s: Session, head: int)
    requires |s.buf| > 0 && At(s, head)
    ensures s.Index(s.head) == Slot(s, head)
    ensures SeqInc(s.head) == (head + 1) % SEQ_MODULO
  {
  }

  lemma AtNext(s: Session, t: Session, head: int)
    requires At(s, head)
    ensures t.head == SeqInc(s.head) ==> At(t, head + 1)
    ensures t.head == s.head ==> At(t, head)
  {
  }

  /** The number in the window from `head` that slot i stands for. */
  function KeyOf(s: Session, head: int, i: nat): (k: int)
    requires |s.buf| > 0
    ensures head <= k < head + |s.buf|
  {
    head + (i - (head - s.ssn)) % |s.buf|
  }

  lemma KeyOfSlot(s: Session, head: int, i: nat)
    requires Divides(|s.buf|) && i < |s.buf|
    ensures Slot(s, KeyOf(s, head, i)) == i
  {
    var n, d := |s.buf|, i - (head - s.ssn);
    SlotOfLifted(s.ssn, n, KeyOf(s, head, i));
    assert KeyOf(s, head, i) - s.ssn == i + n * (-(d / n));
    ModShift(i, n, -(d / n));
    ModUnique(i, n, 0, i);
  }

  /** Every occupied slot holds a frame whose lifted number is in the window and whose index
      is that slot, and between calls the slot of the head is empty. */
  lemma SlotInvariant(s: Session, head: int, i: nat)
    requires Divides(|s.buf|) && i < |s.buf| && At(s, head)
    requires Inv(Abs(s, head), |s.buf|) && s.buf[i].Some?
    ensures var at, f := KeyOf(s, head, i), s.buf[i].value;
            && head < at < head + |s.buf|
            && at in Abs(s, head).stored && Abs(s, head).stored[at] == f
            && f.seqNum == at % SEQ_MODULO
            && s.Index(f.seqNum) == i
            && i != s.Index(s.head)
  {
    var at := KeyOf(s, head, i);
    KeyOfSlot(s, head, i);
    assert at in Abs(s, head).stored;
    assert s.Index(s.buf[i].value.seqNum) == i by {
      hide ReorderIndex;
    }
    HeadSlot(s, head);
    SlotsDiffer(s, head, at);
  }

  // --- single steps ---

  lemma FlushOne(stored: map<int, Frame>, h: int)
    ensures Flush(stored, h, h + 1) == if h in stored then [Item(h, stored[h])] else []
  {
    assert Flush(stored, h + 1, h + 1) == [];
  }

  lemma AbsHead(s: Session, head: int)
    requires |s.buf| > 0
    ensures Abs(s, head).head == head
    ensures forall k :: k in Abs(s, head).stored ==> head <= k
    ensures From(Abs(s, head).stored, head) == Abs(s, head).stored
  {
    hide Slot;
  }

  lemma ReleaseFrameRefines(s: Session, head: int)
    requires Divides(|s.buf|) && At(s, head)
    ensures var r, m := ReleaseFrame(s, s.Index(s.head)), Abs(s, head);
            && SameShape(s, r.next) && At(r.next, head + 1)
            && Abs(r.next, head + 1) == Machine(head + 1, From(m.stored, head + 1))
            && r.delivered == FramesOf(Flush(m.stored, head, head + 1))
  {
    var n := |s.buf|;
    var r, m := ReleaseFrame(s, s.Index(s.head)), Abs(s, head);
    FlushOne(m.stored, head);
    HeadSlot(s, head);
    hide Slot, At, SeqInc, Session.Index;
    SlotsRepeat(s, head);
    forall k | head + 1 <= k < head + 1 + n
      ensures k in Abs(r.next, head + 1).stored <==> k in m.stored
      ensures k in m.stored ==> Abs(r.next, head + 1).stored[k] == m.stored[k]
    {
      if k < head + n { SlotsDiffer(s, head, k); }
      SlotShape(s, r.next, k);
    }
  }

  /** `hseq` and `target` are the same number to the 12-bit code. */
  ghost predicate Same12(hseq: int, target: int) {
    hseq % SEQ_MODULO == target % SEQ_MODULO
  }

  lemma LoopCondition(s: Session, head: int, hseq: int, target: int)
    requires At(s, head) && Same12(hseq, target) && head <= target < head + SEQ_MODULO / 2
    ensures SeqLess(s.head, hseq) <==> head < target
    ensures head == target ==> At(s, target)
  {
    SeqLessMeaning(head, target);
    hide SeqLess;
    SubCongruent(s.head, hseq, head, target);
  }

  lemma {:induction false} ReleaseFramesRefines(s: Session, head: int, hseq: int, target: int)
    requires Divides(|s.buf|) && At(s, head)
    requires head <= target < head + SEQ_MODULO / 2 && Same12(hseq, target)
    ensures var r, m := ReleaseFrames(s, hseq), Abs(s, head);
            && SameShape(s, r.next) && At(r.next, target)
            && Abs(r.next, target) == Machine(target, From(m.stored, target))
            && r.delivered == FramesOf(Flush(m.stored, head, target))
    decreases target - head
  {
    LoopCondition(s, head, hseq, target);
    AbsHead(s, head);
    hide Slot, SeqInc, Session.Index, SeqLess, At, Same12, Abs, From, FramesOf;
    var m := Abs(s, head);
    if head >= target {
    } else {
      ReleaseFrameRefines(s, head);
      var next := ReleaseFrame(s, s.Index(s.head)).next;
      ReleaseFramesRefines(next, head + 1, hseq, target);
      FlushFirst(m.stored, head, target);
      FramesOfConcat(Flush(m.stored, head, head + 1), Flush(From(m.stored, head + 1), head + 1, target));
    }
  }

  lemma HeadStored(s: Session, head: int)
    requires |s.buf| > 0 && At(s, head)
    ensures head in Abs(s, head).stored <==> s.buf[s.Index(s.head)].Some?
  {
    HeadSlot(s, head);
    hide Slot, Session.Index;
  }

  lemma {:induction false} ReorderReleaseRefines(s: Session, head: int)
    requires Divides(|s.buf|) && At(s, head)
    ensures var r, m := ReorderRelease(s), Abs(s, head);
            var end := FirstMissing(m.stored.Keys, head);
            && SameShape(s, r.next) && At(r.next, end)
            && Abs(r.next, end) == Machine(end, From(m.stored, end))
            && r.delivered == FramesOf(Flush(m.stored, head, end))
            && r.dropped == []
    decreases Occupied(s.buf)
  {
    HeadStored(s, head);
    hide Slot, SeqInc, Session.Index, At, Abs, From, FramesOf;
    var m := Abs(s, head);
    AbsHead(s, head);
    var end := FirstMissing(m.stored.Keys, head);
    var index := s.Index(s.head);
    if s.buf[index].Some? {
      OccupiedUpdate(s.buf, index, None);
      ReleaseFrameRefines(s, head);
      var next := ReleaseFrame(s, index).next;
      ReorderReleaseRefines(next, head + 1);
      FirstMissingStep(m.stored, head);
      FlushFirst(m.stored, head, end);
      FramesOfConcat(Flush(m.stored, head, head + 1), Flush(From(m.stored, head + 1), head + 1, end));
    } else {
      FirstMissingUnique(m.stored.Keys, head, head);
    }
  }

  // --- one received frame ---

  /** Sizes for which every received frame is handled as the machine handles it. */
  ghost predicate WindowFits(size: nat) {
    Divides(size) && 2 <= size <= SEQ_MODULO / 2
  }

  /** `r` is what the machine step `t` does, seen through the slots. */
  ghost predicate Refines(s: Session, r: Outcome, t: Result) {
    && SameShape(s, r.next) && At(r.next, t.next.head)
    && Abs(r.next, t.next.head) == t.next
    && r.delivered == FramesOf(t.out)
    && r.dropped == t.dropped
  }

  /** The second test and the new head, in terms of a session. */
  lemma MoveTests(s: Session, head: int, sq: Seq12)
    requires At(s, head) && 2 <= |s.buf| <= SEQ_MODULO / 2 && head <= Lift(head, sq)
    ensures var at, hseq := Lift(head, sq), SeqInc(SeqSub(sq, |s.buf|));
            && (!SeqLess(sq, s.head + |s.buf|)
                <==> at >= head + |s.buf| || (at == head && |s.buf| == SEQ_MODULO / 2))
            && Same12(hseq, at - |s.buf| + 1)
            && (at == head && |s.buf| == SEQ_MODULO / 2 ==> SeqSub(hseq, s.head) >= SEQ_MODULO / 2)
  {
    var at, hseq := Lift(head, sq), SeqInc(SeqSub(sq, |s.buf|));
    BeyondWindow(head, |s.buf|, sq, s.head);
    HeadAgain(head, s.head, hseq, at - |s.buf| + 1);
    hide SeqInc, SeqLess, Lift, SeqSub;
  }

  lemma HeadAgain(head: int, sqHead: Seq12, hseq: Seq12, target: int)
    requires sqHead == head % SEQ_MODULO && hseq == target % SEQ_MODULO
    ensures Same12(hseq, target)
    ensures target == head - SEQ_MODULO / 2 + 1 ==> SeqSub(hseq, sqHead) >= SEQ_MODULO / 2
  {
    SubCongruent(hseq, sqHead, target, head);
  }

  /** Moving the window. The one number inside the window for which the code still asks to
      move it, the head itself when the size is half the sequence space, moves nothing. */
  lemma MoveWindowRefines(s: Session, head: int, sq: Seq12)
    requires WindowFits(|s.buf|) && At(s, head) && head <= Lift(head, sq)
    ensures var r, m := MoveWindow(s, sq), Abs(s, head);
            var h := Max(head, Lift(head, sq) - |s.buf| + 1);
            && SameShape(s, r.next) && At(r.next, h)
            && Abs(r.next, h) == Machine(h, From(m.stored, h))
            && r.delivered == FramesOf(Flush(m.stored, head, h))
            && r.dropped == []
  {
    MoveTests(s, head, sq);
    hide Slot, Session.Index, SeqInc, SeqSub, SeqLess, At, Same12, Lift;
    var at, m := Lift(head, sq), Abs(s, head);
    var hseq, target := SeqInc(SeqSub(sq, |s.buf|)), at - |s.buf| + 1;
    ReleaseFramesReaches(s, hseq);
    if target > head {
      ReleaseFramesRefines(s, head, hseq, target);
    } else {
      assert From(m.stored, head) == m.stored;
      assert Flush(m.stored, head, head) == [];
    }
  }

  lemma PlaceSlot(s: Session, head: int, sq: Seq12, at: int)
    requires |s.buf| > 0 && At(s, head) && Same12(sq, at) && head <= at < head + SEQ_MODULO
    ensures s.Index(sq) == Slot(s, at)
    ensures sq == s.head <==> at == head
  {
    hide ReorderIndex;
  }

  /** Filing a frame whose lifted number is inside the window. */
  lemma PlaceRefines(s: Session, head: int, f: Frame, at: int)
    requires Divides(|s.buf|) && |s.buf| < SEQ_MODULO && s.Valid() && At(s, head)
    requires head <= at < head + |s.buf| && Same12(f.seqNum, at)
    ensures var r, m := Place(s, f), Abs(s, head);
            if at in m.stored then r == Outcome(s, [], [f])
            else
              var filed := m.stored[at := f];
              var end := FirstMissing(filed.Keys, head);
              && SameShape(s, r.next) && At(r.next, end)
              && Abs(r.next, end) == Machine(end, From(filed, end))
              && r.delivered == FramesOf(Flush(filed, head, end))
              && r.dropped == []
  {
    var index := s.Index(f.seqNum);
    PlaceSlot(s, head, f.seqNum, at);
    HeadSlot(s, head);
    hide Slot, Session.Index, At, Same12, SeqInc;
    var m := Abs(s, head);
    if s.buf[index].None? {
      var filed := m.stored[at := f];
      if f.seqNum == s.head && s.stored == 0 {
        OccupiedNone(s.buf);
        assert m.stored == map[];
        FirstMissingUnique(filed.Keys, head, head + 1);
        FlushOne(filed, head);
        var t := s.(head := SeqInc(s.head));
        AtNext(s, t, head);
        assert Abs(t, head + 1).stored == map[];
        assert From(filed, head + 1) == map[];
      } else {
        var t := s.(buf := s.buf[index := Some(f)], stored := s.stored + 1);
        AtNext(s, t, head);
        forall k | head <= k < head + |s.buf|
          ensures t.buf[Slot(t, k)] == if k == at then Some(f) else s.buf[Slot(s, k)]
        {
          SlotShape(s, t, k);
          if k < at { SlotsDiffer(s, k, at); } else if at < k { SlotsDiffer(s, at, k); }
        }
        assert Abs(t, head).stored == filed;
        ReorderReleaseRefines(t, head);
      }
    }
  }

  lemma FrameFacts(s: Session, head: int, sq: Seq12)
    requires At(s, head)
    ensures SeqLess(sq, s.head) <==> Lift(head, sq) < head
    ensures Same12(sq, Lift(head, sq))
  {
    RejectedMeansBehind(head, sq);
  }

  lemma RxReorderRefines(s: Session, head: int, f: Frame)
    requires WindowFits(|s.buf|) && s.Valid() && At(s, head) && Inv(Abs(s, head), |s.buf|)
    ensures Refines(s, RxReorder(s, f), Receive(Abs(s, head), |s.buf|, f))
  {
    FrameFacts(s, head, f.seqNum);
    hide Slot, Session.Index, SeqInc, SeqSub, SeqLess, At, Same12, Lift, Place, MoveWindow, Abs;
    AbsHead(s, head);
    if head <= Lift(head, f.seqNum) { AcceptedRefines(s, head, f); }
  }

  lemma AcceptedRefines(s: Session, head: int, f: Frame)
    requires WindowFits(|s.buf|) && s.Valid() && At(s, head) && Inv(Abs(s, head), |s.buf|)
    requires head <= Lift(head, f.seqNum)
    ensures var moved := MoveWindow(s, f.seqNum);
            var placed := Place(moved.next, f);
            Refines(s, placed.(delivered := moved.delivered + placed.delivered), Receive(Abs(s, head), |s.buf|, f))
  {
    FrameFacts(s, head, f.seqNum);
    MoveWindowRefines(s, head, f.seqNum);
    MoveWindowValid(s, f.seqNum);
    AbsHead(s, head);
    var m, at, n := Abs(s, head), Lift(head, f.seqNum), |s.buf|;
    var h := Max(head, at - n + 1);
    assert at in m.stored ==> at < head + n;
    assert head <= at < h + n && h <= at;
    hide Slot, Session.Index, SeqInc, SeqSub, SeqLess, At, Same12, Lift, Place, MoveWindow, Abs, FramesOf;
    PlaceRefines(MoveWindow(s, f.seqNum).next, h, f, at);
    if at in m.stored {
      assert h == head;
      assert Flush(m.stored, head, head) == [];
      assert FramesOf([]) == [] by { NoFrames(); }
    } else {
      ReceiveInTwoSteps(m, n, f);
      var filed := From(m.stored, h)[at := f];
      FramesOfConcat(Flush(m.stored, head, h), Flush(filed, h, FirstMissing(filed.Keys, h)));
    }
  }

  lemma NoFrames()
    ensures FramesOf([]) == []
  {
  }

  // --- runs and sessions ---

  /** A run of received frames through the 12-bit code. */
  function RunSession(s: Session, frames: seq<Frame>): (r: Outcome)
    requires |s.buf| > 0
    ensures |r.next.buf| == |s.buf|
  {
    if frames == [] then Outcome(s, [], [])
    else
      var r := RunSession(s, frames[..|frames| - 1]);
      var t := RxReorder(r.next, frames[|frames| - 1]);
      Outcome(t.next, r.delivered + t.delivered, r.dropped + t.dropped)
  }

  /** Lockstep: every sequence of received frames drives the 12-bit code as it drives the
      unbounded machine, with the same frames delivered and dropped. */
  lemma {:induction false} RunRefines(s: Session, head: int, frames: seq<Frame>)
    requires WindowFits(|s.buf|) && s.Valid() && At(s, head) && Inv(Abs(s, head), |s.buf|)
    ensures Refines(s, RunSession(s, frames), Run(Abs(s, head), |s.buf|, frames))
    ensures RunSession(s, frames).next.Valid()
  {
    hide Slot, Session.Index, SeqInc, SeqSub, SeqLess, Lift, RxReorder, Receive, At;
    if frames == [] {
    } else {
      var before, f := frames[..|frames| - 1], frames[|frames| - 1];
      RunRefines(s, head, before);
      var r, t := RunSession(s, before), Run(Abs(s, head), |s.buf|, before);
      RunOrdered(Abs(s, head), |s.buf|, before);
      RxReorderRefines(r.next, t.next.head, f);
      RxReorderAccounts(r.next, f, f);
      FramesOfConcat(t.out, Receive(t.next, |s.buf|, f).out);
    }
  }

  lemma WindowEnd(s: Session, head: int)
    requires At(s, head)
    ensures Same12(s.head + |s.buf|, head + |s.buf|)
  {
    AddCongruent(s.head, head, |s.buf|);
  }

  /** The slots are all empty exactly when nothing is stored. */
  lemma EmptyMeansNothingStored(s: Session, head: int)
    requires Divides(|s.buf|) && At(s, head)
    ensures Occupied(s.buf) == 0 <==> Abs(s, head).stored == map[]
  {
    OccupiedNone(s.buf);
    hide Slot, KeyOf;
    if Abs(s, head).stored == map[] {
      forall i | 0 <= i < |s.buf|
        ensures s.buf[i].None?
      {
        KeyOfSlot(s, head, i);
        assert KeyOf(s, head, i) !in Abs(s, head).stored;
      }
    } else {
      var k :| k in Abs(s, head).stored;
      assert s.buf[Slot(s, k)].Some?;
    }
  }

  lemma NothingBeyond(s: Session, head: int)
    requires |s.buf| > 0
    ensures From(Abs(s, head).stored, head + |s.buf|) == map[]
  {
    hide Slot;
  }

  /** Freeing delivers all that is stored, in order, and leaves every slot empty. */
  lemma FreeRefines(s: Session, head: int)
    requires Divides(|s.buf|) && |s.buf| < SEQ_MODULO / 2 && s.Valid() && At(s, head)
    ensures var r := Free(s);
            && r.delivered == FramesOf(Held(Abs(s, head), |s.buf|))
            && r.dropped == []
            && r.next.Valid() && Occupied(r.next.buf) == 0
  {
    var n, hseq := |s.buf|, s.head + |s.buf|;
    WindowEnd(s, head);
    NothingBeyond(s, head);
    ReleaseFramesAccounts(s, hseq, Frame(0, 0));
    hide Slot, Session.Index, SeqInc, SeqSub, SeqLess, At, Same12, Abs, FramesOf, Divides;
    ReleaseFramesRefines(s, head, hseq, head + n);
    EmptyMeansNothingStored(Free(s).next, head + n);
    AbsHead(s, head);
  }
}
