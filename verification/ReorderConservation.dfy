/**
 Freeing a session loses no frame, for every buffer size up to one short of half the
 sequence space, and so for every size the driver can be asked for. This needs no relation
 between the size and the sequence space: it follows from how far stored frames can be from
 the head.
 */
module ReorderConservation {
  import opened Counting
  import opened ReorderMachine
  import opened ReorderSession
  import opened SeqNum
  import opened Wrappers

  /** Every stored frame sits in its own slot, fewer than `w` numbers ahead of the head. */
  ghost predicate Within(s: Session, w: int) {
    forall i :: 0 <= i < |s.buf| && s.buf[i].Some? ==>
         i == s.Index(s.buf[i].value.seqNum) && Ahead(s, s.buf[i].value) < w
  }

  function Ahead(s: Session, f: Frame): nat {
    SeqSub(f.seqNum, s.head)
  }

  lemma AheadStep(s: Session, f: Frame)
    ensures Ahead(s, f) > 0 ==> Ahead(s.(head := SeqInc(s.head)), f) == Ahead(s, f) - 1
    ensures Ahead(s, f) == 0 ==> f.seqNum == s.head
  {
  }

  /** Releasing the head's slot brings everything else one closer. */
  lemma ReleaseFrameWithin(s: Session, w: int)
    requires |s.buf| > 0 && Within(s, w)
    ensures Within(ReleaseFrame(s, s.Index(s.head)).next, w - 1)
  {
    hide ReorderIndex, SeqInc;
    var t := ReleaseFrame(s, s.Index(s.head)).next;
    forall i | 0 <= i < |t.buf| && t.buf[i].Some?
      ensures i == t.Index(t.buf[i].value.seqNum) && Ahead(t, t.buf[i].value) < w - 1
    {
      AheadStep(s, s.buf[i].value);
      assert Ahead(t, t.buf[i].value) == Ahead(s.(head := SeqInc(s.head)), t.buf[i].value);
    }
  }

  lemma {:induction false} ReleaseFramesWithin(s: Session, hseq: int, w: int)
    requires Within(s, w) && !ReleaseFaults(s, hseq) && SeqSub(hseq, s.head) < SEQ_MODULO / 2
    ensures Within(ReleaseFrames(s, hseq).next, w - SeqSub(hseq, s.head))
    decreases SeqSub(hseq, s.head)
  {
    StepTowards(s.head, hseq);
    if !SeqLess(s.head, hseq) {
    } else {
      hide Within, SeqInc, SeqSub, SeqLess, ReorderIndex;
      ReleaseFrameWithin(s, w);
      ReleaseFramesWithin(ReleaseFrame(s, s.Index(s.head)).next, hseq, w - 1);
    }
  }

  lemma {:induction false} ReorderReleaseWithin(s: Session, w: int)
    requires |s.buf| > 0 && Within(s, w)
    ensures Within(ReorderRelease(s).next, w)
    decreases Occupied(s.buf)
  {
    hide SeqInc, SeqSub, SeqLess, ReorderIndex;
    if s.buf[s.Index(s.head)].None? {
    } else {
      OccupiedUpdate(s.buf, s.Index(s.head), None);
      ReleaseFrameWithin(s, w);
      ReorderReleaseWithin(ReleaseFrame(s, s.Index(s.head)).next, w);
    }
  }

  ghost predicate LegalSize(size: nat) {
    size < SEQ_MODULO / 2
  }

  /** After the window moved, the received frame lies inside it, except that with a single
      slot the frame half a turn ahead does not. */
  lemma MoveWindowWithin(s: Session, f: Frame)
    requires LegalSize(|s.buf|) && |s.buf| > 0 && Within(s, |s.buf|) && !SeqLess(f.seqNum, s.head)
    ensures Within(MoveWindow(s, f.seqNum).next, |s.buf|)
    ensures |s.buf| > 1 ==> Ahead(MoveWindow(s, f.seqNum).next, f) < |s.buf|
  {
    var n, hseq := |s.buf|, SeqInc(SeqSub(f.seqNum, |s.buf|));
    MoveDistances(s.head, n, f.seqNum);
    var moved := MoveWindow(s, f.seqNum).next;
    if !SeqLess(f.seqNum, s.head + n) {
      if SeqSub(hseq, s.head) < SEQ_MODULO / 2 {
        ReleaseFramesWithin(s, hseq, n);
        ReleaseFramesReaches(s, hseq);
        hide ReorderIndex, ReleaseFrames, SeqSub, SeqInc, SeqLess;
      } else {
        ReleaseFramesReaches(s, hseq);
      }
    }
  }

  /** The window test and the new head it leads to, as distances. */
  lemma MoveDistances(head: Seq12, n: nat, sq: Seq12)
    requires LegalSize(n) && n > 0 && !SeqLess(sq, head)
    ensures SeqLess(sq, head + n) <==> SeqSub(sq, head) < n
    ensures var hseq := SeqInc(SeqSub(sq, n));
            && SeqSub(sq, hseq) == n - 1 && hseq % SEQ_MODULO == hseq
            && (SeqSub(sq, head) >= n && n > 1 ==> SeqSub(hseq, head) < SEQ_MODULO / 2)
  {
    var at := head + SeqSub(sq, head);
    DistanceBack(head, sq);
    BeyondTest(head, n, sq, head, at);
    NewHead(head, n, sq, at);
  }

  lemma DistanceBack(head: Seq12, sq: Seq12)
    ensures sq % SEQ_MODULO == (head + SeqSub(sq, head)) % SEQ_MODULO
    ensures !SeqLess(sq, head) ==> SeqSub(sq, head) <= SEQ_MODULO / 2
  {
  }

  lemma NewHead(head: Seq12, n: nat, sq: Seq12, at: int)
    requires LegalSize(n) && n > 0 && sq % SEQ_MODULO == at % SEQ_MODULO && head <= at <= head + SEQ_MODULO / 2
    ensures var hseq := SeqInc(SeqSub(sq, n));
            && SeqSub(sq, hseq) == n - 1 && hseq % SEQ_MODULO == hseq
            && (at - head >= n && n > 1 ==> SeqSub(hseq, head) < SEQ_MODULO / 2)
  {
    var hseq := SeqInc(SeqSub(sq, n));
    IncSub(sq, n);
    IncSub(at, n);
    AddCongruent(sq, at, -(n as int) + 1);
    SmallDistance(sq, sq - n + 1);
    if at - head >= n { SmallDistance(at - n + 1, head); }
    hide SeqInc, SeqLess, SeqSub;
    SubCongruent(sq, hseq, sq, sq - n + 1);
    SubCongruent(hseq, head, at - n + 1, head);
  }

  lemma IncSub(sq: int, n: int)
    ensures SeqInc(SeqSub(sq, n)) == (sq - n + 1) % SEQ_MODULO
  {
    AddCongruent(SeqSub(sq, n), sq - n, 1);
  }

  lemma SmallDistance(a: int, b: int)
    requires 0 <= a - b < SEQ_MODULO
    ensures SeqSub(a, b) == a - b
  {
  }

  /** With a single slot, whatever is filed is released at once. */
  lemma OneSlot(s: Session)
    requires |s.buf| == 1
    ensures ReorderRelease(s).next.buf == [None]
  {
    hide ReorderIndex, SeqInc;
    if s.buf[0].Some? {
      OccupiedUpdate(s.buf, 0, None);
      var next := ReleaseFrame(s, 0).next;
      assert next.buf == [None];
      assert ReorderRelease(next) == Outcome(next, [], []);
    }
  }

  lemma PlaceWithin(s: Session, f: Frame)
    requires LegalSize(|s.buf|) && |s.buf| > 0 && s.Valid() && Within(s, |s.buf|)
    requires |s.buf| > 1 ==> Ahead(s, f) < |s.buf|
    ensures Within(Place(s, f).next, |s.buf|)
  {
    var index := s.Index(f.seqNum);
    var filed := s.(buf := s.buf[index := Some(f)], stored := s.stored + 1);
    OccupiedNone(s.buf);
    hide ReorderIndex, SeqInc, SeqSub;
    if |s.buf| == 1 {
      OneSlot(filed);
    } else {
      assert Within(filed, |s.buf|);
      ReorderReleaseWithin(filed, |s.buf|);
    }
  }

  lemma RxReorderWithin(s: Session, f: Frame)
    requires LegalSize(|s.buf|) && s.Valid() && Within(s, |s.buf|) && !RxFaults(s, f)
    ensures Within(RxReorder(s, f).next, |s.buf|)
  {
    hide Within, MoveWindow, Place, SeqLess, Ahead;
    if !SeqLess(f.seqNum, s.head) {
      MoveWindowWithin(s, f);
      MoveWindowValid(s, f.seqNum);
      PlaceWithin(MoveWindow(s, f.seqNum).next, f);
    }
  }

  /** Freeing leaves every slot empty. */
  lemma FreeLosesNothing(s: Session, g: Frame)
    requires LegalSize(|s.buf|) && s.Valid() && Within(s, |s.buf|)
    ensures Free(s).dropped == [] && InSlots(Free(s).next.buf, g) == 0
    ensures Count(Free(s).delivered, g) == InSlots(s.buf, g)
  {
    var n, hseq := |s.buf|, s.head + |s.buf|;
    SmallDistance(hseq, s.head);
    StepTowards(s.head, hseq);
    hide SeqSub, SeqLess, SeqInc, ReorderIndex, Ahead, Within;
    ReleaseFramesWithin(s, hseq, n);
    ReleaseFramesAccounts(s, hseq, g);
    NothingWithin(Free(s).next, g);
  }

  lemma NothingWithin(s: Session, g: Frame)
    requires Within(s, 0)
    ensures InSlots(s.buf, g) == 0
  {
    CountPositive(s.buf, Some(g));
  }

  lemma AllocWithin(size: nat, ssn: Seq12, g: Frame)
    ensures Alloc(size, ssn).Valid() && Within(Alloc(size, ssn), size)
    ensures InSlots(Alloc(size, ssn).buf, g) == 0
  {
    OccupiedNone(Alloc(size, ssn).buf);
    CountPositive(Alloc(size, ssn).buf, Some(g));
  }
}
