/**
 The receive reordering buffer of section 9.21.7.6.2 of IEEE Std 802.11-2012 over unbounded
 sequence numbers: a next expected number and a map of stored frames. Nothing here wraps
 and there are no slots; the driver's code is compared with this machine.
 */
module ReorderMachine {
  import opened Counting
  import opened SeqNum

  /** A received frame; `id` tells apart frames that carry the same sequence number. */
  datatype Frame = Frame(seqNum: Seq12, id: nat)

  /** A frame handed to the network stack, with the lifted number it was filed under. */
  datatype Item = Item(at: int, frame: Frame)

  datatype Machine = Machine(head: int, stored: map<int, Frame>)

  datatype Result = Result(next: Machine, out: seq<Item>, dropped: seq<Frame>)

  /** The stored frames numbered in [lo, hi), in order. */
  function Flush(stored: map<int, Frame>, lo: int, hi: int): (out: seq<Item>)
    decreases hi - lo
  {
    if lo >= hi then []
    else (if lo in stored then [Item(lo, stored[lo])] else []) + Flush(stored, lo + 1, hi)
  }

  /** The first number from `h` on that is missing from `keys`. */
  function FirstMissing(keys: set<int>, h: int): (e: int)
    ensures h <= e && e !in keys
    ensures forall k :: h <= k < e ==> k in keys
    decreases keys
  {
    if h in keys then FirstMissing(keys - {h}, h + 1) else h
  }

  function From(stored: map<int, Frame>, h: int): map<int, Frame> {
    map k | k in stored && k >= h :: stored[k]
  }

  function Max(a: int, b: int): int {
    if a < b then b else a
  }

  /** One received frame. A frame behind the head or already stored is dropped; otherwise
      it is stored, the window moves far enough to contain it, and everything up to the
      first missing number is released. */
  function Receive(m: Machine, size: nat, f: Frame): Result {
    var at := Lift(m.head, f.seqNum);
    if at < m.head || at in m.stored then
      Result(m, [], [f])
    else
      var stored := m.stored[at := f];
      var head := FirstMissing(stored.Keys, Max(m.head, at - size + 1));
      Result(Machine(head, From(stored, head)), Flush(stored, m.head, head), [])
  }

  /** A run of received frames. */
  function Run(m: Machine, size: nat, frames: seq<Frame>): Result {
    if frames == [] then Result(m, [], [])
    else
      var r := Run(m, size, frames[..|frames| - 1]);
      var s := Receive(r.next, size, frames[|frames| - 1]);
      Result(s.next, r.out + s.out, r.dropped + s.dropped)
  }

  /** What the machine still holds, in order; closing a session releases exactly this. */
  function Held(m: Machine, size: nat): seq<Item> {
    Flush(m.stored, m.head, m.head + size)
  }

  function FramesOf(items: seq<Item>): (frames: seq<Frame>)
    ensures |frames| == |items|
    ensures forall i :: 0 <= i < |items| ==> frames[i] == items[i].frame
  {
    seq(|items|, i requires 0 <= i < |items| => items[i].frame)
  }

  /** How often a frame occurs among some items. */
  function Copies(items: seq<Item>, g: Frame): nat {
    Count(FramesOf(items), g)
  }

  /** Between frames: everything stored lies ahead of the head, inside the window, under a
      number its own sequence number stands for; the head's place is empty. */
  ghost predicate Inv(m: Machine, size: nat) {
    forall k :: k in m.stored ==> m.head < k < m.head + size && m.stored[k].seqNum == k % SEQ_MODULO
  }

  /** Released items: strictly increasing numbers in [lo, hi), each filed correctly. */
  ghost predicate Ordered(out: seq<Item>, lo: int, hi: int) {
    && (forall i :: 0 <= i < |out| ==> lo <= out[i].at < hi && out[i].frame.seqNum == out[i].at % SEQ_MODULO)
    && (forall i, j :: 0 <= i < j < |out| ==> out[i].at < out[j].at)
  }

  // --- flushing ---

  lemma {:induction false} FlushSplit(stored: map<int, Frame>, lo: int, mid: int, hi: int)
    requires lo <= mid <= hi
    ensures Flush(stored, lo, hi) == Flush(stored, lo, mid) + Flush(stored, mid, hi)
    decreases mid - lo
  {
    if lo >= mid {
    } else {
      FlushSplit(stored, lo + 1, mid, hi);
    }
  }

  lemma {:induction false} FlushAgree(s: map<int, Frame>, t: map<int, Frame>, lo: int, hi: int)
    requires forall k :: lo <= k < hi ==> (k in s <==> k in t) && (k in s ==> s[k] == t[k])
    ensures Flush(s, lo, hi) == Flush(t, lo, hi)
    decreases hi - lo
  {
    if lo >= hi {
    } else {
      FlushAgree(s, t, lo + 1, hi);
    }
  }

  lemma {:induction false} FlushNone(stored: map<int, Frame>, lo: int, hi: int)
    requires forall k :: lo <= k < hi ==> k !in stored
    ensures Flush(stored, lo, hi) == []
    decreases hi - lo
  {
    if lo >= hi {
    } else {
      FlushNone(stored, lo + 1, hi);
    }
  }

  /** Each stored number in the range comes out, no later than its distance from `lo`. */
  lemma {:induction false} FlushFinds(stored: map<int, Frame>, lo: int, hi: int, k: int)
    requires lo <= k < hi && k in stored
    ensures exists i :: 0 <= i <= k - lo && i < |Flush(stored, lo, hi)|
                        && Flush(stored, lo, hi)[i] == Item(k, stored[k])
    decreases hi - lo
  {
    var rest := Flush(stored, lo + 1, hi);
    if k == lo {
      assert Flush(stored, lo, hi)[0] == Item(k, stored[k]);
    } else {
      FlushFinds(stored, lo + 1, hi, k);
      var i :| 0 <= i <= k - lo - 1 && i < |rest| && rest[i] == Item(k, stored[k]);
      if lo in stored {
        assert Flush(stored, lo, hi)[i + 1] == Item(k, stored[k]);
      } else {
        assert Flush(stored, lo, hi)[i] == Item(k, stored[k]);
      }
    }
  }

  lemma {:induction false} FlushOrdered(stored: map<int, Frame>, lo: int, hi: int)
    requires forall k :: k in stored && lo <= k < hi ==> stored[k].seqNum == k % SEQ_MODULO
    ensures Ordered(Flush(stored, lo, hi), lo, hi)
    ensures forall i :: 0 <= i < |Flush(stored, lo, hi)| ==>
              var it := Flush(stored, lo, hi)[i]; it.at in stored && it.frame == stored[it.at]
    ensures lo <= hi ==> |Flush(stored, lo, hi)| <= hi - lo
    decreases hi - lo
  {
    if lo >= hi {
    } else {
      FlushOrdered(stored, lo + 1, hi);
    }
  }

  lemma FramesOfConcat(a: seq<Item>, b: seq<Item>)
    ensures FramesOf(a + b) == FramesOf(a) + FramesOf(b)
  {
  }

  lemma CopiesConcat(a: seq<Item>, b: seq<Item>, g: Frame)
    ensures Copies(a + b, g) == Copies(a, g) + Copies(b, g)
  {
    assert FramesOf(a + b) == FramesOf(a) + FramesOf(b);
    CountConcat(FramesOf(a), FramesOf(b), g);
  }

  lemma CopiesOne(it: Item, g: Frame)
    ensures Copies([it], g) == if it.frame == g then 1 else 0
  {
    assert FramesOf([it]) == [it.frame];
  }

  /** Storing one more frame inside the range adds just that frame to what a flush yields. */
  lemma FlushInsert(stored: map<int, Frame>, lo: int, hi: int, k: int, f: Frame, g: Frame)
    requires lo <= k < hi && k !in stored
    ensures Copies(Flush(stored[k := f], lo, hi), g) == Copies(Flush(stored, lo, hi), g) + if f == g then 1 else 0
  {
    var s := stored[k := f];
    FlushSplit(s, lo, k, hi);
    FlushSplit(stored, lo, k, hi);
    FlushAgree(s, stored, lo, k);
    FlushAgree(s, stored, k + 1, hi);
    CopiesOne(Item(k, f), g);
    CopiesConcat([Item(k, f)], Flush(stored, k + 1, hi), g);
    CopiesConcat(Flush(stored, lo, k), Flush(s, k, hi), g);
    CopiesConcat(Flush(stored, lo, k), Flush(stored, k, hi), g);
    assert Flush(stored, k, hi) == Flush(stored, k + 1, hi);
  }

  // --- one frame ---

  lemma ReceiveKeepsInv(m: Machine, size: nat, f: Frame)
    requires size > 0 && Inv(m, size)
    ensures Inv(Receive(m, size, f).next, size)
    ensures m.head <= Receive(m, size, f).next.head
  {
  }

  lemma FirstMissingUnique(keys: set<int>, h: int, e: int)
    requires h <= e && e !in keys && forall k :: h <= k < e ==> k in keys
    ensures FirstMissing(keys, h) == e
  {
  }

  /** Releasing up to `end` can be done one number at a time. */
  lemma FlushFirst(stored: map<int, Frame>, head: int, end: int)
    requires head < end
    ensures var rest := From(stored, head + 1);
            && Flush(stored, head, end) == Flush(stored, head, head + 1) + Flush(rest, head + 1, end)
            && From(rest, end) == From(stored, end)
  {
    FlushSplit(stored, head, head + 1, end);
    FlushAgree(stored, From(stored, head + 1), head + 1, end);
  }

  lemma FirstMissingStep(stored: map<int, Frame>, head: int)
    requires head in stored
    ensures head < FirstMissing(stored.Keys, head)
    ensures FirstMissing(From(stored, head + 1).Keys, head + 1) == FirstMissing(stored.Keys, head)
  {
    var end := FirstMissing(stored.Keys, head);
    assert forall k :: head < k ==> (k in From(stored, head + 1).Keys <==> k in stored.Keys);
    FirstMissingUnique(From(stored, head + 1).Keys, head + 1, end);
  }

  /** Accepting a frame can be done in two steps: first move the window and release what it
      leaves behind, then file the frame and release what follows the head. */
  lemma ReceiveInTwoSteps(m: Machine, size: nat, f: Frame)
    requires size > 0
    requires Lift(m.head, f.seqNum) >= m.head && Lift(m.head, f.seqNum) !in m.stored
    ensures var at := Lift(m.head, f.seqNum);
            var h := Max(m.head, at - size + 1);
            var filed := From(m.stored, h)[at := f];
            var end := FirstMissing(filed.Keys, h);
            Receive(m, size, f)
            == Result(Machine(end, From(filed, end)), Flush(m.stored, m.head, h) + Flush(filed, h, end), [])
  {
    var at := Lift(m.head, f.seqNum);
    var h := Max(m.head, at - size + 1);
    var filed, all := From(m.stored, h)[at := f], m.stored[at := f];
    var end := FirstMissing(all.Keys, h);
    assert forall k :: h <= k ==> (k in filed.Keys <==> k in all.Keys);
    FirstMissingUnique(filed.Keys, h, end);
    FlushSplit(all, m.head, h, end);
    FlushAgree(all, m.stored, m.head, h);
    FlushAgree(all, filed, h, end);
    assert From(filed, end) == From(all, end);
  }

  /** What one frame releases lies between the old and the new head, in order. */
  lemma ReceiveOrdered(m: Machine, size: nat, f: Frame)
    requires size > 0 && Inv(m, size)
    ensures Ordered(Receive(m, size, f).out, m.head, Receive(m, size, f).next.head)
  {
    var at := Lift(m.head, f.seqNum);
    FlushOrdered(m.stored[at := f], m.head, Receive(m, size, f).next.head);
  }

  /** An identity that neither the stored frames nor the received one has does not appear. */
  lemma ReceiveAvoids(m: Machine, size: nat, f: Frame, id: nat)
    requires size > 0 && Inv(m, size)
    requires f.id != id && forall k :: k in m.stored ==> m.stored[k].id != id
    ensures var r := Receive(m, size, f);
            && (forall i :: 0 <= i < |r.out| ==> r.out[i].frame.id != id)
            && (forall k :: k in r.next.stored ==> r.next.stored[k].id != id)
  {
    FlushOrdered(m.stored[Lift(m.head, f.seqNum) := f], m.head, Receive(m, size, f).next.head);
  }

  /** A stored frame that is not released keeps the head behind it. */
  lemma ReceiveSilent(m: Machine, size: nat, f: Frame, k: int)
    requires size > 0 && Inv(m, size) && k in m.stored && Receive(m, size, f).out == []
    ensures var r := Receive(m, size, f); r.next.head < k && k in r.next.stored
  {
    var r := Receive(m, size, f);
    if r.dropped == [] && k < r.next.head {
      FlushFinds(m.stored[Lift(m.head, f.seqNum) := f], m.head, r.next.head, k);
    }
  }

  /** The frame received and those held before are the frames released, dropped and held
      afterwards, each as often. */
  lemma ReceiveConserves(m: Machine, size: nat, f: Frame, g: Frame)
    requires size > 0 && Inv(m, size)
    ensures var r := Receive(m, size, f);
            (if f == g then 1 else 0) + Copies(Held(m, size), g)
            == Copies(r.out, g) + Count(r.dropped, g) + Copies(Held(r.next, size), g)
  {
    var at := Lift(m.head, f.seqNum);
    var r := Receive(m, size, f);
    if !(at < m.head || at in m.stored) {
      var s, h := m.stored[at := f], r.next.head;
      var top := h + size;
      assert at < top;
      FlushSplit(m.stored, m.head, m.head + size, top);
      FlushNone(m.stored, m.head + size, top);
      FlushInsert(m.stored, m.head, top, at, f, g);
      FlushSplit(s, m.head, h, top);
      FlushAgree(s, r.next.stored, h, top);
      CopiesConcat(r.out, Held(r.next, size), g);
      assert Flush(m.stored, m.head, top) == Held(m, size);
    } else {
      assert Count([f], g) == (if f == g then 1 else 0);
    }
  }

  // --- runs ---

  /** Over any run the released numbers are strictly increasing, so nothing is delivered
      twice or out of order, and all lie behind the final head. */
  lemma {:induction false} RunOrdered(m: Machine, size: nat, frames: seq<Frame>)
    requires size > 0 && Inv(m, size)
    ensures var r := Run(m, size, frames);
            && m.head <= r.next.head && Inv(r.next, size)
            && Ordered(r.out, m.head, r.next.head)
  {
    if frames == [] {
    } else {
      var before := frames[..|frames| - 1];
      RunOrdered(m, size, before);
      var r := Run(m, size, before);
      ReceiveKeepsInv(r.next, size, frames[|frames| - 1]);
      ReceiveOrdered(r.next, size, frames[|frames| - 1]);
    }
  }

  /** Over any run, closing included, the released numbers are strictly increasing. */
  lemma RunAndCloseOrdered(m: Machine, size: nat, frames: seq<Frame>)
    requires size > 0 && Inv(m, size)
    ensures var r := Run(m, size, frames);
            Ordered(r.out + Held(r.next, size), m.head, r.next.head + size)
  {
    RunOrdered(m, size, frames);
    var r := Run(m, size, frames);
    FlushOrdered(r.next.stored, r.next.head, r.next.head + size);
  }

  /** Every frame received in a run is released, dropped or still held, as often as it was
      received. */
  lemma {:induction false} RunConserves(m: Machine, size: nat, frames: seq<Frame>, g: Frame)
    requires size > 0 && Inv(m, size)
    ensures var r := Run(m, size, frames);
            Count(frames, g) + Copies(Held(m, size), g)
            == Copies(r.out, g) + Count(r.dropped, g) + Copies(Held(r.next, size), g)
  {
    if frames == [] {
    } else {
      var before, f := frames[..|frames| - 1], frames[|frames| - 1];
      RunConserves(m, size, before, g);
      RunOrdered(m, size, before);
      var r := Run(m, size, before);
      var s := Receive(r.next, size, f);
      ReceiveConserves(r.next, size, f, g);
      CopiesConcat(r.out, s.out, g);
      CountConcat(r.dropped, s.dropped, g);
      CountSnoc(before, f, g);
      assert frames == before + [f];
    }
  }
}
