/**
 Whole sessions, from allocation to freeing: for which buffer sizes the driver's code is the
 reordering machine, and what that means for the frames it delivers.
 */
module ReorderCorrectness {
  import opened Counting
  import opened Modular
  import opened ReorderMachine
  import opened ReorderRefinement
  import opened ReorderSession
  import opened SeqNum
  import opened Wrappers

  datatype Trace = Trace(delivered: seq<Frame>, dropped: seq<Frame>)

  /** What the code does with a session's frames, freeing included. */
  function SessionTrace(size: nat, ssn: Seq12, frames: seq<Frame>): Trace
    requires size > 0
  {
    var r := RunSession(Alloc(size, ssn), frames);
    Trace(r.delivered + Free(r.next).delivered, r.dropped)
  }

  /** What the machine releases in a session, closing included. */
  function MachineItems(size: nat, ssn: Seq12, frames: seq<Frame>): seq<Item> {
    var r := Run(Machine(ssn, map[]), size, frames);
    r.out + Held(r.next, size)
  }

  function MachineTrace(size: nat, ssn: Seq12, frames: seq<Frame>): Trace {
    Trace(FramesOf(MachineItems(size, ssn, frames)), Run(Machine(ssn, map[]), size, frames).dropped)
  }

  ghost predicate RightSize(size: nat) {
    2 <= size <= SEQ_MODULO / 4 && SEQ_MODULO % size == 0
  }

  ghost predicate CorrectForAllRuns(size: nat)
    requires size > 0
  {
    forall ssn: Seq12, frames: seq<Frame> :: SessionTrace(size, ssn, frames) == MachineTrace(size, ssn, frames)
  }

  lemma OccupiedEmpty(size: nat)
    ensures Occupied(seq(size, _ => None)) == 0
  {
    OccupiedNone(seq(size, _ => None));
  }

  lemma AllocMeaning(size: nat, ssn: Seq12)
    requires size > 0
    ensures var s := Alloc(size, ssn);
            s.Valid() && At(s, ssn) && Abs(s, ssn) == Machine(ssn, map[]) && Inv(Abs(s, ssn), size)
  {
    OccupiedEmpty(size);
    hide Slot;
    assert Abs(Alloc(size, ssn), ssn).stored == map[];
  }

  /** With a right size, the code and the machine agree on every session, and the freed
      session keeps nothing back. */
  lemma SessionsAgree(size: nat, ssn: Seq12, frames: seq<Frame>)
    requires RightSize(size)
    ensures SessionTrace(size, ssn, frames) == MachineTrace(size, ssn, frames)
    ensures Occupied(Free(RunSession(Alloc(size, ssn), frames).next).next.buf) == 0
  {
    hide At, Abs, Inv, Slot, RunSession, Run, Free, Alloc;
    var s := Alloc(size, ssn);
    AllocMeaning(size, ssn);
    assert |s.buf| == size by { AllocSize(size, ssn); }
    RunRefines(s, ssn, frames);
    var r, t := RunSession(s, frames), Run(Machine(ssn, map[]), size, frames);
    FreeRefines(r.next, t.next.head);
    FramesOfConcat(t.out, Held(t.next, size));
  }

  lemma AllocSize(size: nat, ssn: Seq12)
    ensures |Alloc(size, ssn).buf| == size
  {
  }

  /** In a session with a right size every received frame is delivered or dropped, exactly
      once, and the frames delivered stand for strictly increasing numbers. */
  lemma SessionDelivers(size: nat, ssn: Seq12, frames: seq<Frame>, g: Frame)
    requires RightSize(size)
    ensures var t, items := SessionTrace(size, ssn, frames), MachineItems(size, ssn, frames);
            && Count(frames, g) == Count(t.delivered, g) + Count(t.dropped, g)
            && t.delivered == FramesOf(items)
            && Ordered(items, ssn, Run(Machine(ssn, map[]), size, frames).next.head + size)
  {
    hide Ordered, Count, Run, RunSession, Flush, Alloc, Free;
    var m := Machine(ssn, map[]);
    SessionsAgree(size, ssn, frames);
    RunConserves(m, size, frames, g);
    RunAndCloseOrdered(m, size, frames);
    var t := Run(m, size, frames);
    CopiesConcat(t.out, Held(t.next, size), g);
    FlushNone(map[], ssn, ssn + size);
    assert Copies(Held(m, size), g) == 0;
  }

  // --- sizes for which the code is not the machine ---

  /** Frames 0, 1, ..., k - 1 of a session that starts at 0. */
  function InOrder(k: nat): (frames: seq<Frame>)
    requires k <= SEQ_MODULO
    ensures |frames| == k
  {
    seq(k, i requires 0 <= i < k => Frame(i, i))
  }

  function EmptyAt(size: nat, head: Seq12): Session {
    Session(0, head, 0, seq(size, _ => None))
  }

  lemma InOrderTests(size: nat, k: nat)
    requires 1 <= size < SEQ_MODULO / 2 && k < SEQ_MODULO - 1
    ensures SeqLess(k, k + size) && !SeqLess(k, k) && SeqInc(k) == k + 1
  {
  }

  lemma {:induction false} InOrderSession(size: nat, k: nat)
    requires 1 <= size < SEQ_MODULO / 2 && k < SEQ_MODULO
    ensures RunSession(Alloc(size, 0), InOrder(k)).next == EmptyAt(size, k)
    ensures RunSession(Alloc(size, 0), InOrder(k)).dropped == []
  {
    if k == 0 {
    } else {
      InOrderSession(size, k - 1);
      assert InOrder(k)[..k - 1] == InOrder(k - 1);
      InOrderStep(size, k - 1);
      hide RxReorder, SeqLess, SeqInc, SeqSub, ReorderIndex;
    }
  }

  lemma InOrderStep(size: nat, k: nat)
    requires 1 <= size < SEQ_MODULO / 2 && k < SEQ_MODULO - 1
    ensures RxReorder(EmptyAt(size, k), Frame(k, k)) == Outcome(EmptyAt(size, k + 1), [Frame(k, k)], [])
  {
    InOrderTests(size, k);
    hide ReorderIndex, SeqLess, SeqInc, SeqSub;
  }

  lemma {:induction false} InOrderMachine(size: nat, k: nat)
    requires 1 <= size && k < SEQ_MODULO
    ensures Run(Machine(0, map[]), size, InOrder(k)).next == Machine(k, map[])
    ensures Run(Machine(0, map[]), size, InOrder(k)).dropped == []
  {
    if k == 0 {
    } else {
      InOrderMachine(size, k - 1);
      assert InOrder(k)[..k - 1] == InOrder(k - 1);
      ReceiveExpected(size, k - 1);
      hide Receive;
    }
  }

  lemma ReceiveExpected(size: nat, k: nat)
    requires 1 <= size && k < SEQ_MODULO
    ensures var r := Receive(Machine(k, map[]), size, Frame(k, k));
            r.next == Machine(k + 1, map[]) && r.dropped == []
  {
    LiftUnique(k, k, k);
    hide Lift, Flush;
    var stored := map[k := Frame(k, k)];
    FirstMissingUnique(stored.Keys, k, k + 1);
    assert From(stored, k + 1) == map[];
  }

  lemma RunSnoc(s: Session, m: Machine, size: nat, frames: seq<Frame>, f: Frame)
    requires |s.buf| > 0
    ensures var r := RunSession(s, frames);
            var t := RxReorder(r.next, f);
            RunSession(s, frames + [f]) == Outcome(t.next, r.delivered + t.delivered, r.dropped + t.dropped)
    ensures var r := Run(m, size, frames);
            var t := Receive(r.next, size, f);
            Run(m, size, frames + [f]) == Result(t.next, r.out + t.out, r.dropped + t.dropped)
  {
    hide RxReorder, Receive;
    assert (frames + [f])[..|frames + [f]| - 1] == frames;
  }

  /** A frame ahead of the head is stored. */
  lemma ReceiveEarly(head: int, at: int, size: nat, f: Frame)
    requires head < at < head + size && Lift(head, f.seqNum) == at
    ensures Receive(Machine(head, map[]), size, f) == Result(Machine(head, map[at := f]), [], [])
  {
    hide Lift;
    var stored := map[at := f];
    FirstMissingUnique(stored.Keys, head, head);
    assert From(stored, head) == stored;
  }

  /** Where the remainder of the sequence space begins. */
  function WrapPoint(size: nat): (a: int)
    requires size > 0
  {
    SEQ_MODULO - SEQ_MODULO % size
  }

  /** Frames in order up to the wrap point, then the frame one whole turn from the start,
      then the one that was due. */
  function WrapRun(size: nat): seq<Frame>
    requires 0 < size <= SEQ_MODULO && SEQ_MODULO % size != 0
  {
    InOrder(WrapPoint(size)) + [Frame(0, SEQ_MODULO)] + [Frame(WrapPoint(size), WrapPoint(size))]
  }

  lemma WrapTests(size: nat, a: Seq12)
    requires 1 <= size < SEQ_MODULO / 2 && SEQ_MODULO - size < a < SEQ_MODULO
    ensures !SeqLess(0, a) && SeqLess(0, a + size) && SeqLess(a, SeqInc(a))
  {
  }

  /** At the wrap point the early frame shares the slot of the frame that is due; the code
      delivers it at once and then drops the frame that was due. */
  lemma WrapStep(size: nat, a: Seq12)
    requires 1 <= size < SEQ_MODULO / 2 && SEQ_MODULO - size < a < SEQ_MODULO
    requires ReorderIndex(0, size, a) == 0 && ReorderIndex(0, size, 0) == 0
    ensures var t := RxReorder(EmptyAt(size, a), Frame(0, SEQ_MODULO));
            && t.dropped == []
            && RxReorder(t.next, Frame(a, a)).dropped == [Frame(a, a)]
  {
    var s, f := EmptyAt(size, a), Frame(0, SEQ_MODULO);
    WrapTests(size, a);
    hide ReorderIndex, SeqLess, SeqInc, SeqSub;
    var filed := s.(buf := s.buf[0 := Some(f)], stored := 1);
    assert RxReorder(s, f) == ReorderRelease(filed);
    var freed := ReleaseFrame(filed, 0);
    assert freed.next.buf == s.buf;
    OccupiedUpdate(filed.buf, 0, None);
    assert ReorderRelease(freed.next) == Outcome(freed.next, [], []);
    assert ReorderRelease(filed).next == freed.next;
    assert freed.next.head == SeqInc(a);
  }

  lemma WrapMachine(size: nat, a: Seq12)
    requires 1 <= size < SEQ_MODULO / 2 && SEQ_MODULO - size < a < SEQ_MODULO
    ensures var t := Receive(Machine(a, map[]), size, Frame(0, SEQ_MODULO));
            && t.dropped == []
            && Receive(t.next, size, Frame(a, a)).dropped == []
  {
    LiftUnique(a, 0, SEQ_MODULO);
    LiftUnique(a, a, a);
    ReceiveEarly(a, SEQ_MODULO, size, Frame(0, SEQ_MODULO));
    hide Lift, Flush, FirstMissing;
  }

  lemma DroppedByTwoMore(s: Session, m: Machine, size: nat, frames: seq<Frame>, e: Frame, f: Frame)
    requires |s.buf| > 0
    ensures var r := RunSession(s, frames);
            var t := RxReorder(r.next, e);
            RunSession(s, frames + [e] + [f]).dropped == r.dropped + t.dropped + RxReorder(t.next, f).dropped
    ensures var r := Run(m, size, frames);
            var t := Receive(r.next, size, e);
            Run(m, size, frames + [e] + [f]).dropped == r.dropped + t.dropped + Receive(t.next, size, f).dropped
  {
    hide RxReorder, Receive, RunSession, Run;
    RunSnoc(s, m, size, frames, e);
    RunSnoc(s, m, size, frames + [e], f);
  }

  lemma WrapPointLow(size: nat)
    requires 1 <= size < SEQ_MODULO / 2 && SEQ_MODULO % size != 0
    ensures SEQ_MODULO - size < WrapPoint(size) < SEQ_MODULO
    ensures ReorderIndex(0, size, WrapPoint(size)) == 0 && ReorderIndex(0, size, 0) == 0
  {
    WrapCollision(0, size);
    var a := WrapPoint(size);
    assert a % SEQ_MODULO == a;
  }

  lemma WrongWhenNotDividing(size: nat)
    requires 1 <= size < SEQ_MODULO / 2 && SEQ_MODULO % size != 0
    ensures !CorrectForAllRuns(size)
  {
    WrapPointLow(size);
    AllocSize(size, 0);
    hide RxReorder, Receive, WrapPoint, ReorderIndex, RunSession, Run, Free, Held, FramesOf, Alloc, InOrder;
    var a, s, m := WrapPoint(size), Alloc(size, 0), Machine(0, map[]);
    InOrderSession(size, a);
    InOrderMachine(size, a);
    WrapStep(size, a);
    WrapMachine(size, a);
    DroppedByTwoMore(s, m, size, InOrder(a), Frame(0, SEQ_MODULO), Frame(a, a));
    assert SessionTrace(size, 0, WrapRun(size)).dropped == [Frame(a, a)];
    assert MachineTrace(size, 0, WrapRun(size)).dropped == [];
  }

  /** One slot: the frame half a turn ahead is delivered without moving the head past it, so
      a later, older frame is delivered too. */
  lemma WrongForOne()
    ensures !CorrectForAllRuns(1)
  {
    var s, m := Alloc(1, 0), Machine(0, map[]);
    var f, g := Frame(2048, 0), Frame(2, 1);
    AllocSize(1, 0);
    assert RunSession(s, []) == Outcome(s, [], []);
    RunSnoc(s, m, 1, [], f);
    RunSnoc(s, m, 1, [f], g);
    assert [] + [f] == [f] && [f] + [g] == [f, g];
    OneSlotSession(f, g);
    OneSlotMachine(f, g);
    hide RxReorder, Receive, Free, Alloc;
    assert SessionTrace(1, 0, [f, g]).dropped == [] && MachineTrace(1, 0, [f, g]).dropped == [g];
  }

  lemma OneSlotMachine(f: Frame, g: Frame)
    requires f == Frame(2048, 0) && g == Frame(2, 1)
    ensures var t := Receive(Machine(0, map[]), 1, f);
            t.dropped == [] && Receive(t.next, 1, g).dropped == [g]
  {
    LiftUnique(0, 2048, 2048);
    FirstMissingUnique(map[2048 := f].Keys, 2048, 2049);
    LiftUnique(2049, 2, 2);
  }

  lemma OneSlotSession(f: Frame, g: Frame)
    requires f == Frame(2048, 0) && g == Frame(2, 1)
    ensures var t := RxReorder(Alloc(1, 0), f);
            t.dropped == [] && RxReorder(t.next, g).dropped == []
  {
    var s := Alloc(1, 0);
    assert !SeqLess(2048, 0) && !SeqLess(2048, 1) && !SeqLess(0, 2048) && SeqInc(SeqSub(2048, 1)) == 2048;
    assert !SeqLess(2, 1) && !SeqLess(2, 2) && SeqLess(1, 2) && SeqInc(0) == 1 && SeqInc(1) == 2;
    assert SeqInc(SeqSub(2, 1)) == 2;
    hide SeqLess, SeqSub;
    assert forall sq :: ReorderIndex(0, 1, sq) == 0;
    hide ReorderIndex, SeqInc;
    var filed := s.(buf := s.buf[0 := Some(f)], stored := 1);
    assert RxReorder(s, f) == ReorderRelease(filed);
    var freed := ReleaseFrame(filed, 0);
    assert freed.next.buf == s.buf;
    OccupiedUpdate(filed.buf, 0, None);
    assert ReorderRelease(freed.next) == Outcome(freed.next, [], []);
    assert ReorderRelease(filed).next == freed.next;
  }

  /** Half the sequence space: freeing releases nothing, so a stored frame is lost. */
  lemma WrongForHalf()
    ensures !CorrectForAllRuns(2048)
  {
    var s, m, f := Alloc(2048, 0), Machine(0, map[]), Frame(1, 0);
    AllocSize(2048, 0);
    RunSnoc(s, m, 2048, [], f);
    assert [] + [f] == [f];
    HalfSession(f);
    HalfMachine(f);
    hide RxReorder, Receive, Free, Alloc, Held;
    assert SessionTrace(2048, 0, [f]).delivered == [] && |MachineTrace(2048, 0, [f]).delivered| > 0;
  }

  lemma HalfSession(f: Frame)
    requires f == Frame(1, 0)
    ensures var t := RxReorder(Alloc(2048, 0), f); t.delivered == [] && Free(t.next).delivered == []
  {
    var s := Alloc(2048, 0);
    assert !SeqLess(1, 0) && SeqLess(1, 2048) && !SeqLess(0, 2048);
    assert ReorderIndex(0, 2048, 1) == 1 && ReorderIndex(0, 2048, 0) == 0;
    hide SeqLess, ReorderIndex, SeqSub, SeqInc;
    var filed := s.(buf := s.buf[1 := Some(f)], stored := 1);
    assert RxReorder(s, f) == ReorderRelease(filed) == Outcome(filed, [], []);
  }

  lemma HalfMachine(f: Frame)
    requires f == Frame(1, 0)
    ensures var t := Receive(Machine(0, map[]), 2048, f); |Held(t.next, 2048)| > 0
  {
    LiftUnique(0, 1, 1);
    ReceiveEarly(0, 1, 2048, f);
    FlushFinds(map[1 := f], 0, 2048, 1);
    hide Lift, Receive, Flush;
  }

  lemma DivisorsAboveQuarter(size: nat)
    requires SEQ_MODULO / 4 < size < SEQ_MODULO / 2
    ensures SEQ_MODULO % size != 0
  {
    if size < 1366 {
      ModUnique(SEQ_MODULO, size, 3, SEQ_MODULO - 3 * size);
    } else {
      ModUnique(SEQ_MODULO, size, 2, SEQ_MODULO - 2 * size);
    }
  }

  /** Of all sizes up to half the sequence space (requests reach the allocator with sizes up
      to 255), the code is the reordering machine on every session if and only if the size
      divides 4096 and lies in 2..1024. */
  lemma CorrectIffRightSize(size: nat)
    requires 1 <= size <= SEQ_MODULO / 2
    ensures CorrectForAllRuns(size) <==> RightSize(size)
  {
    hide SessionTrace, MachineTrace;
    if RightSize(size) {
      forall ssn: Seq12, frames: seq<Frame>
        ensures SessionTrace(size, ssn, frames) == MachineTrace(size, ssn, frames)
      {
        SessionsAgree(size, ssn, frames);
      }
    } else if size == 1 {
      WrongForOne();
    } else if size == SEQ_MODULO / 2 {
      WrongForHalf();
    } else {
      if size > SEQ_MODULO / 4 { DivisorsAboveQuarter(size); }
      WrongWhenNotDividing(size);
    }
  }
}
