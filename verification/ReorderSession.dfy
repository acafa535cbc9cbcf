/**
 The reordering code of rx_reorder.c as functions on values, exactly as it computes: 12-bit
 numbers and a fixed array of slots, for every buffer size and not only the sizes for
 which it is right. `RxSession.TidAmpduRx` is the object that runs these steps in place.
 */
module ReorderSession {
  import opened Counting
  import opened ReorderMachine
  import opened SeqNum
  import opened Wrappers

  /** `wil_tid_ampdu_rx`: the slots are `buf`, so `buf_size` is |buf|. */
  datatype Session = Session(ssn: Seq12, head: Seq12, stored: int, buf: seq<Option<Frame>>)
  {
    /** `stored_mpdu_num` is the number of occupied slots. */
    ghost predicate Valid() {
      stored == Occupied(buf)
    }

    function Index(sq: int): (index: nat)
      requires |buf| > 0
      ensures index < |buf|
    {
      ReorderIndex(ssn, |buf|, sq)
    }
  }

  datatype Outcome = Outcome(next: Session, delivered: seq<Frame>, dropped: seq<Frame>)

  function Occupied(buf: seq<Option<Frame>>): (n: nat)
    ensures n <= |buf|
  {
    if buf == [] then 0 else (if buf[0].Some? then 1 else 0) + Occupied(buf[1..])
  }

  /** `wil_tid_ampdu_rx_alloc` */
  function Alloc(size: nat, ssn: Seq12): Session {
    Session(ssn, ssn, 0, seq(size, _ => None))
  }

  /** `wil_release_reorder_frame` */
  function ReleaseFrame(s: Session, index: nat): Outcome
    requires index < |s.buf|
  {
    if s.buf[index].None? then Outcome(s.(head := SeqInc(s.head)), [], [])
    else
      Outcome(s.(head := SeqInc(s.head), stored := s.stored - 1, buf := s.buf[index := None]),
              [s.buf[index].value], [])
  }

  /** A slot index is a remainder by the number of slots, so asking for one faults in a session
      that has none. The release loop asks for one in its first round. */
  predicate ReleaseFaults(s: Session, hseq: int) {
    SeqLess(s.head, hseq) && |s.buf| == 0
  }

  /** `wil_release_reorder_frames` */
  function ReleaseFrames(s: Session, hseq: int): (r: Outcome)
    requires !ReleaseFaults(s, hseq)
    ensures |r.next.buf| == |s.buf| && r.next.ssn == s.ssn && r.dropped == []
    decreases SeqSub(hseq, s.head)
  {
    if !SeqLess(s.head, hseq) then Outcome(s, [], [])
    else
      StepTowards(s.head, hseq);
      var r := ReleaseFrame(s, s.Index(s.head));
      var t := ReleaseFrames(r.next, hseq);
      t.(delivered := r.delivered + t.delivered)
  }

  /** `wil_reorder_release` */
  function ReorderRelease(s: Session): (r: Outcome)
    requires |s.buf| > 0
    ensures |r.next.buf| == |s.buf| && r.next.ssn == s.ssn && r.dropped == []
    decreases Occupied(s.buf)
  {
    var index := s.Index(s.head);
    if s.buf[index].None? then Outcome(s, [], [])
    else
      OccupiedUpdate(s.buf, index, None);
      var r := ReleaseFrame(s, index);
      var t := ReorderRelease(r.next);
      t.(delivered := r.delivered + t.delivered)
  }

  /** The part of `wil_rx_reorder` that makes room for a frame beyond the window. */
  function MoveWindow(s: Session, sq: Seq12): (r: Outcome)
    requires |s.buf| > 0
    ensures |r.next.buf| == |s.buf| && r.next.ssn == s.ssn && r.dropped == []
  {
    if !SeqLess(sq, s.head + |s.buf|) then ReleaseFrames(s, SeqInc(SeqSub(sq, |s.buf|)))
    else Outcome(s, [], [])
  }

  /** The part of `wil_rx_reorder` that puts a frame inside the window in its slot. */
  function Place(s: Session, f: Frame): (r: Outcome)
    requires |s.buf| > 0
    ensures |r.next.buf| == |s.buf| && r.next.ssn == s.ssn
  {
    var index := s.Index(f.seqNum);
    if s.buf[index].Some? then Outcome(s, [], [f])
    else if f.seqNum == s.head && s.stored == 0 then Outcome(s.(head := SeqInc(s.head)), [f], [])
    else ReorderRelease(s.(buf := s.buf[index := Some(f)], stored := s.stored + 1))
  }

  /** `wil_rx_reorder` divides by zero: while it makes room for the frame, or when it looks for
      the frame's own slot. */
  predicate RxFaults(s: Session, f: Frame) {
    && !SeqLess(f.seqNum, s.head)
    && (|| (!SeqLess(f.seqNum, s.head + |s.buf|) && ReleaseFaults(s, SeqInc(SeqSub(f.seqNum, |s.buf|))))
        || |s.buf| == 0)
  }

  /** `wil_rx_reorder` for a frame of an existing session */
  function RxReorder(s: Session, f: Frame): (r: Outcome)
    requires !RxFaults(s, f)
    ensures |r.next.buf| == |s.buf| && r.next.ssn == s.ssn
  {
    if SeqLess(f.seqNum, s.head) then Outcome(s, [], [f])
    else
      var moved := MoveWindow(s, f.seqNum);
      var placed := Place(moved.next, f);
      placed.(delivered := moved.delivered + placed.delivered)
  }

  /** `wil_tid_ampdu_rx_free`: the release that precedes freeing the session. Frames left in
      the slots of the result are lost with it. */
  function Free(s: Session): (r: Outcome)
    ensures |r.next.buf| == |s.buf| && r.dropped == []
  {
    assert !SeqLess(s.head, s.head);
    ReleaseFrames(s, s.head + |s.buf|)
  }

  // --- shape and counting, for every size ---

  lemma OccupiedUpdate(buf: seq<Option<Frame>>, i: nat, x: Option<Frame>)
    requires i < |buf|
    ensures Occupied(buf[i := x]) + (if buf[i].Some? then 1 else 0) == Occupied(buf) + if x.Some? then 1 else 0
  {
    if i > 0 {
      OccupiedUpdate(buf[1..], i - 1, x);
      assert buf[i := x][1..] == buf[1..][i - 1 := x];
    } else {
      assert buf[i := x][1..] == buf[1..];
    }
  }

  lemma {:induction false} OccupiedNone(buf: seq<Option<Frame>>)
    ensures Occupied(buf) == 0 <==> forall i :: 0 <= i < |buf| ==> buf[i].None?
  {
    if buf == [] {
    } else {
      OccupiedNone(buf[1..]);
    }
  }

  /** How often a frame sits in the slots. */
  function InSlots(buf: seq<Option<Frame>>, g: Frame): nat {
    Count(buf, Some(g))
  }

  /** The step from `s` to `r`, having received `received`, keeps the session well formed
      and neither loses nor duplicates a frame. */
  ghost predicate Accounts(s: Session, received: seq<Frame>, r: Outcome, g: Frame) {
    && r.next.Valid() && |r.next.buf| == |s.buf| && r.next.ssn == s.ssn
    && Count(received, g) + InSlots(s.buf, g) == Count(r.delivered, g) + Count(r.dropped, g) + InSlots(r.next.buf, g)
  }

  lemma ReleaseFrameAccounts(s: Session, index: nat, g: Frame)
    requires s.Valid() && index < |s.buf|
    ensures Accounts(s, [], ReleaseFrame(s, index), g)
  {
    if s.buf[index].Some? {
      OccupiedUpdate(s.buf, index, None);
      CountUpdate(s.buf, index, None, Some(g));
      assert Count([s.buf[index].value], g) == if s.buf[index] == Some(g) then 1 else 0;
    }
  }

  lemma {:induction false} ReleaseFramesAccounts(s: Session, hseq: int, g: Frame)
    requires s.Valid() && !ReleaseFaults(s, hseq)
    ensures Accounts(s, [], ReleaseFrames(s, hseq), g)
    decreases SeqSub(hseq, s.head)
  {
    hide ReorderIndex, SeqSub, SeqInc, SeqLess;
    if !SeqLess(s.head, hseq) {
    } else {
      StepTowards(s.head, hseq);
      var r := ReleaseFrame(s, s.Index(s.head));
      ReleaseFrameAccounts(s, s.Index(s.head), g);
      ReleaseFramesAccounts(r.next, hseq, g);
      CountConcat(r.delivered, ReleaseFrames(r.next, hseq).delivered, g);
    }
  }

  lemma {:induction false} ReorderReleaseAccounts(s: Session, g: Frame)
    requires s.Valid() && |s.buf| > 0
    ensures Accounts(s, [], ReorderRelease(s), g)
    decreases Occupied(s.buf)
  {
    var index := s.Index(s.head);
    if s.buf[index].None? {
    } else {
      var r := ReleaseFrame(s, index);
      OccupiedUpdate(s.buf, index, None);
      ReleaseFrameAccounts(s, index, g);
      ReorderReleaseAccounts(r.next, g);
      CountConcat(r.delivered, ReorderRelease(r.next).delivered, g);
    }
  }

  /** `wil_reorder_release` empties as many slots as it delivers frames, and stops at an
      empty slot under the head. */
  lemma {:induction false} ReorderReleaseMeasure(s: Session)
    requires s.Valid() && |s.buf| > 0
    ensures var r := ReorderRelease(s);
            && r.next.Valid() && |r.next.buf| == |s.buf| && r.next.ssn == s.ssn
            && r.next.stored + |r.delivered| == s.stored
            && r.next.buf[r.next.Index(r.next.head)].None?
    decreases Occupied(s.buf)
  {
    hide ReorderIndex, SeqInc;
    var index := s.Index(s.head);
    if s.buf[index].None? {
    } else {
      OccupiedUpdate(s.buf, index, None);
      ReorderReleaseMeasure(ReleaseFrame(s, index).next);
    }
  }

  /** How often the loop of `wil_release_reorder_frames` runs. */
  function Rounds(s: Session, hseq: int): nat
    requires !ReleaseFaults(s, hseq)
    decreases SeqSub(hseq, s.head)
  {
    if !SeqLess(s.head, hseq) then 0
    else
      StepTowards(s.head, hseq);
      1 + Rounds(ReleaseFrame(s, s.Index(s.head)).next, hseq)
  }

  /** One round of the loop, and the rest of it. */
  lemma RoundStep(s: Session, hseq: int)
    requires !ReleaseFaults(s, hseq) && SeqLess(s.head, hseq)
    ensures var r := ReleaseFrame(s, s.Index(s.head));
            && !ReleaseFaults(r.next, hseq)
            && Rounds(s, hseq) == 1 + Rounds(r.next, hseq)
            && ReleaseFrames(s, hseq).next == ReleaseFrames(r.next, hseq).next
            && ReleaseFrames(s, hseq).delivered == r.delivered + ReleaseFrames(r.next, hseq).delivered
  {
    hide SeqLess, SeqSub, SeqInc, ReorderIndex;
  }

  /** `wil_release_reorder_frames` moves the head to `hseq` when that is less than half a
      turn ahead, in as many rounds as it is ahead, and otherwise does nothing at all. */
  lemma {:induction false} ReleaseFramesReaches(s: Session, hseq: int)
    requires !ReleaseFaults(s, hseq)
    ensures var r := ReleaseFrames(s, hseq);
            if SeqSub(hseq, s.head) < SEQ_MODULO / 2
            then r.next.head == hseq % SEQ_MODULO && Rounds(s, hseq) == SeqSub(hseq, s.head)
            else r == Outcome(s, [], []) && Rounds(s, hseq) == 0
    decreases SeqSub(hseq, s.head)
  {
    hide ReorderIndex, SeqSub, SeqInc, SeqLess;
    StepTowards(s.head, hseq);
    if !SeqLess(s.head, hseq) {
    } else {
      ReleaseFramesReaches(ReleaseFrame(s, s.Index(s.head)).next, hseq);
    }
  }

  lemma MoveWindowValid(s: Session, sq: Seq12)
    requires s.Valid() && |s.buf| > 0
    ensures MoveWindow(s, sq).next.Valid()
  {
    ReleaseFramesAccounts(s, SeqInc(SeqSub(sq, |s.buf|)), Frame(sq, 0));
  }

  lemma PlaceAccounts(s: Session, f: Frame, g: Frame)
    requires s.Valid() && |s.buf| > 0
    ensures Accounts(s, [f], Place(s, f), g)
  {
    hide ReorderIndex, SeqInc;
    var index := s.Index(f.seqNum);
    if s.buf[index].None? {
      OccupiedUpdate(s.buf, index, Some(f));
      CountUpdate(s.buf, index, Some(f), Some(g));
      ReorderReleaseAccounts(s.(buf := s.buf[index := Some(f)], stored := s.stored + 1), g);
    }
  }

  /** Only a session without slots faults, and there every frame does that is not behind the
      head. */
  lemma FaultsIff(s: Session, f: Frame)
    ensures RxFaults(s, f) <==> |s.buf| == 0 && 2048 >= (f.seqNum - s.head) % SEQ_MODULO
  {
    RejectedMeansBehind(s.head, f.seqNum);
  }

  /** For every buffer size, a received frame that causes no fault is delivered, dropped or left
      in a slot, exactly once, and nothing already stored is lost or repeated. */
  lemma RxReorderAccounts(s: Session, f: Frame, g: Frame)
    requires s.Valid() && !RxFaults(s, f)
    ensures Accounts(s, [f], RxReorder(s, f), g)
  {
    hide ReorderIndex, SeqSub, SeqInc, SeqLess, Place;
    if !SeqLess(f.seqNum, s.head) {
      var moved := MoveWindow(s, f.seqNum);
      ReleaseFramesAccounts(s, SeqInc(SeqSub(f.seqNum, |s.buf|)), g);
      PlaceAccounts(moved.next, f, g);
      CountConcat(moved.delivered, Place(moved.next, f).delivered, g);
    }
  }
}
