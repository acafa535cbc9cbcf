/**
 The reordering session object: rx_reorder.c's loops over the slot array, in place. Every
 method is tied to the function of `ReorderSession` that describes the same step on values.
 */
module RxSession {
  import opened ReorderMachine
  import opened ReorderSession
  import opened SeqNum
  import opened Wrappers

  /** Where frames end up: handed to the network stack, or freed. */
  class NetDev {
    var received: seq<Frame>
    var freed: seq<Frame>
  }

  class TidAmpduRx {
    const ssn: Seq12
    var reorderBuf: array<Option<Frame>>
    var headSeqNum: Seq12
    var storedMpduNum: int
    var ssnLastDrop: Seq12

    ghost predicate Valid()
      reads this, reorderBuf
    {
      View().Valid()
    }

    ghost function View(): Session
      reads this, reorderBuf
    {
      Session(ssn, headSeqNum, storedMpduNum, reorderBuf[..])
    }

    /** What a step did to the session and to the frames that left it. */
    twostate predicate Did(ndev: NetDev, r: Outcome)
      reads this, reorderBuf, ndev
    {
      && reorderBuf == old(reorderBuf)
      && View() == r.next
      && ndev.received == old(ndev.received) + r.delivered
      && ndev.freed == old(ndev.freed) + r.dropped
    }

    /** `wil_tid_ampdu_rx_alloc` */
    constructor (size: nat, ssn: Seq12)
      ensures View() == Alloc(size, ssn) && fresh(reorderBuf)
    {
      this.ssn := ssn;
      headSeqNum := ssn;
      storedMpduNum := 0;
      ssnLastDrop := 0;
      reorderBuf := new Option<Frame>[size](_ => None);
    }

    /** `reorder_index` */
    method Index(sq: Seq12) returns (index: nat)
      requires reorderBuf.Length > 0
      ensures index == View().Index(sq)
    {
      index := SeqSub(sq, ssn) % reorderBuf.Length;
    }

    /** `wil_release_reorder_frame` */
    method ReleaseFrame(ndev: NetDev, index: nat)
      requires index < reorderBuf.Length
      modifies this, reorderBuf, ndev
      ensures Did(ndev, ReorderSession.ReleaseFrame(old(View()), index))
    {
      hide SeqInc;
      if reorderBuf[index].Some? {
        var skb := reorderBuf[index].value;
        storedMpduNum := storedMpduNum - 1;
        reorderBuf[index] := None;
        ndev.received := ndev.received + [skb];
      }
      headSeqNum := SeqInc(headSeqNum);
    }

    /** `wil_release_reorder_frames` */
    method ReleaseFrames(ndev: NetDev, hseq: int) returns (ghost rounds: nat)
      requires !ReleaseFaults(View(), hseq)
      modifies this, reorderBuf, ndev
      ensures Did(ndev, ReorderSession.ReleaseFrames(old(View()), hseq))
      ensures rounds == Rounds(old(View()), hseq)
    {
      rounds := 0;
      ghost var all := ReorderSession.ReleaseFrames(View(), hseq);
      while SeqLess(headSeqNum, hseq)
        invariant reorderBuf == old(reorderBuf) && !ReleaseFaults(View(), hseq)
        invariant ndev.freed == old(ndev.freed)
        invariant ReorderSession.ReleaseFrames(View(), hseq).next == all.next
        invariant ndev.received + ReorderSession.ReleaseFrames(View(), hseq).delivered
                  == old(ndev.received) + all.delivered
        invariant rounds + Rounds(View(), hseq) == Rounds(old(View()), hseq)
        decreases SeqSub(hseq, headSeqNum)
      {
        StepTowards(headSeqNum, hseq);
        RoundStep(View(), hseq);
        hide SeqLess, SeqSub, SeqInc, ReorderIndex, ReorderSession.ReleaseFrames, Rounds, ReleaseFaults;
        var index := Index(headSeqNum);
        ReleaseFrame(ndev, index);
        rounds := rounds + 1;
      }
    }

    /** `wil_reorder_release` */
    method Release(ndev: NetDev)
      requires reorderBuf.Length > 0
      modifies this, reorderBuf, ndev
      ensures Did(ndev, ReorderRelease(old(View())))
    {
      ghost var all := ReorderRelease(View());
      var index := Index(headSeqNum);
      while reorderBuf[index].Some?
        invariant reorderBuf == old(reorderBuf) && index == View().Index(headSeqNum)
        invariant ndev.freed == old(ndev.freed)
        invariant ReorderRelease(View()).next == all.next
        invariant ndev.received + ReorderRelease(View()).delivered == old(ndev.received) + all.delivered
        decreases Occupied(reorderBuf[..])
      {
        hide SeqLess, SeqSub, SeqInc, ReorderIndex;
        OccupiedUpdate(reorderBuf[..], index, None);
        ReleaseFrame(ndev, index);
        index := Index(headSeqNum);
      }
    }

    /** The second half of `wil_rx_reorder`: the frame is in the range of the buffer. */
    method Place(ndev: NetDev, skb: Frame)
      requires reorderBuf.Length > 0
      modifies this, reorderBuf, ndev
      ensures Did(ndev, ReorderSession.Place(old(View()), skb))
    {
      hide SeqInc, SeqSub, ReorderIndex;
      var index := Index(skb.seqNum);
      if reorderBuf[index].Some? {
        ndev.freed := ndev.freed + [skb];
      } else if skb.seqNum == headSeqNum && storedMpduNum == 0 {
        headSeqNum := SeqInc(headSeqNum);
        ndev.received := ndev.received + [skb];
      } else {
        reorderBuf[index] := Some(skb);
        storedMpduNum := storedMpduNum + 1;
        Release(ndev);
      }
    }

    /** `wil_rx_reorder`, once the session of the frame is found. It comes to no end (`ok` is
        false) where it would divide by zero; until then it has changed nothing. */
    method RxReorder(ndev: NetDev, skb: Frame) returns (ok: bool)
      modifies this, reorderBuf, ndev
      ensures ok == !RxFaults(old(View()), skb)
      ensures if ok then Did(ndev, ReorderSession.RxReorder(old(View()), skb))
              else Did(ndev, Outcome(old(View()), [], []))
    {
      hide SeqLess, SeqSub, SeqInc, ReorderSession.Place;
      ok := true;
      if SeqLess(skb.seqNum, headSeqNum) {
        ssnLastDrop := skb.seqNum;
        ndev.freed := ndev.freed + [skb];
        return;
      }
      if reorderBuf.Length == 0 {
        return false;
      }
      if !SeqLess(skb.seqNum, headSeqNum + reorderBuf.Length) {
        ghost var _ := ReleaseFrames(ndev, SeqInc(SeqSub(skb.seqNum, reorderBuf.Length)));
      }
      Place(ndev, skb);
    }

    /** `wil_tid_ampdu_rx_free`; the object is not used afterwards. */
    method Free(ndev: NetDev)
      modifies this, reorderBuf, ndev
      ensures Did(ndev, ReorderSession.Free(old(View())))
    {
      assert !SeqLess(headSeqNum, headSeqNum);
      ghost var _ := ReleaseFrames(ndev, headSeqNum + reorderBuf.Length);
    }
  }
}
