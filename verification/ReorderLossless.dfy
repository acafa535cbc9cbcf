/**
 When reordering loses nothing. A block of consecutive frames starts at the session's first
 expected number and arrives in some order. Delivery is perfect, meaning every frame, in
 order, none dropped and none left over, exactly when no frame arrives a full window or more
 ahead of one that is still to come.
 */
module ReorderLossless {
  import opened ReorderMachine
  import opened ReorderSession
  import opened ReorderCorrectness
  import opened ReorderRefinement
  import opened SeqNum

  /** Frame number k of a block that starts at `ssn`; its identity is k. */
  function Nth(ssn: Seq12, k: nat): Frame {
    Frame((ssn + k) % SEQ_MODULO, k)
  }

  function Arrivals(ssn: Seq12, order: seq<nat>): (frames: seq<Frame>)
    ensures |frames| == |order|
  {
    seq(|order|, i requires 0 <= i < |order| => Nth(ssn, order[i]))
  }

  function Block(ssn: Seq12, n: nat): seq<Frame> {
    seq(n, i requires 0 <= i < n => Nth(ssn, i))
  }

  /** `order` lists 0, 1, ..., |order| - 1, each once. */
  ghost predicate Permutation(order: seq<nat>) {
    && (forall i, j :: 0 <= i < j < |order| ==> order[i] != order[j])
    && (forall k: nat :: k < |order| <==> k in order)
  }

  /** Nothing arrives `size` or more ahead of a frame that arrives later. */
  ghost predicate Timely(order: seq<nat>, size: nat) {
    forall i, j :: 0 <= i < j < |order| ==> order[i] < order[j] + size
  }

  function BlockRun(ssn: Seq12, size: nat, order: seq<nat>): Result {
    Run(Machine(ssn, map[]), size, Arrivals(ssn, order))
  }

  /** The run delivered 0, 1, ..., n - 1 in this order, dropped nothing and holds nothing. */
  ghost predicate Perfect(r: Result, ssn: Seq12, n: nat) {
    FramesOf(r.out) == Block(ssn, n) && r.dropped == [] && r.next.stored == map[]
  }

  // --- arrival orders ---

  lemma ArrivalsSnoc(ssn: Seq12, order: seq<nat>, p: nat, size: nat)
    requires p < |order|
    ensures var r := BlockRun(ssn, size, order[..p]);
            var t := Receive(r.next, size, Nth(ssn, order[p]));
            BlockRun(ssn, size, order[..p + 1]) == Result(t.next, r.out + t.out, r.dropped + t.dropped)
  {
    var frames := Arrivals(ssn, order[..p + 1]);
    assert frames[..p] == Arrivals(ssn, order[..p]);
    assert frames[p] == Nth(ssn, order[p]);
  }

  // --- timely arrivals are delivered perfectly ---

  /** Exactly the frames of `arrived` beyond number c are stored, each under its number. */
  ghost predicate Filed(stored: map<int, Frame>, ssn: Seq12, arrived: set<int>, c: int) {
    && (forall at :: at in stored <==> at - ssn > c && at - ssn in arrived)
    && (forall at :: at in stored && at >= ssn ==> stored[at] == Nth(ssn, at - ssn))
  }

  /** After the frames of `arrived`: everything before number c is out, in order, c itself has
      not arrived, and the frames beyond c that have arrived are stored under their number. */
  ghost predicate OnTrack(r: Result, ssn: Seq12, arrived: set<int>, c: nat) {
    && c !in arrived && (forall k :: 0 <= k < c ==> k in arrived)
    && r.next.head == ssn + c
    && FramesOf(r.out) == Block(ssn, c) && r.dropped == []
    && Filed(r.next.stored, ssn, arrived, c)
  }

  function Seen(order: seq<nat>, p: nat): set<int>
    requires p <= |order|
  {
    set i | 0 <= i < p :: order[i] as int
  }

  lemma {:induction false} FlushBlock(stored: map<int, Frame>, ssn: Seq12, c: nat, d: nat)
    requires c <= d
    requires forall at :: ssn + c <= at < ssn + d ==> at in stored && stored[at] == Nth(ssn, at - ssn)
    ensures Block(ssn, c) + FramesOf(Flush(stored, ssn + c, ssn + d)) == Block(ssn, d)
    decreases d - c
  {
    if c >= d {
    } else {
      FlushBlock(stored, ssn, c + 1, d);
      assert ssn + c in stored;
      var rest := Flush(stored, ssn + c + 1, ssn + d);
      FramesOfConcat([Item(ssn + c, stored[ssn + c])], rest);
      assert FramesOf([Item(ssn + c, stored[ssn + c])]) == [Nth(ssn, c)];
      assert Block(ssn, c) + [Nth(ssn, c)] == Block(ssn, c + 1);
    }
  }

  lemma LiftNth(ssn: Seq12, c: nat, k: nat)
    requires -2047 <= k - c <= 2048
    ensures Lift(ssn + c, Nth(ssn, k).seqNum) == ssn + k
  {
    LiftUnique(ssn + c, (ssn + k) % SEQ_MODULO, ssn + k);
  }

  /** Filing frame k and releasing what follows: where the head ends up. */
  lemma FiledStep(stored: map<int, Frame>, ssn: Seq12, arrived: set<int>, c: nat, k: nat, now: set<int>)
    returns (d: nat)
    requires Filed(stored, ssn, arrived, c) && c !in arrived && k !in arrived && k >= c
    requires now == arrived + {k as int} && forall j :: 0 <= j < c ==> j in arrived
    ensures var filed := stored[ssn + k := Nth(ssn, k)];
            && FirstMissing(filed.Keys, ssn + c) == ssn + d && c <= d
            && d !in now && (forall j :: 0 <= j < d ==> j in now)
            && Filed(From(filed, ssn + d), ssn, now, d)
            && (forall at :: ssn + c <= at < ssn + d ==> at in filed && filed[at] == Nth(ssn, at - ssn))
  {
    hide Nth;
    var filed := stored[ssn + k := Nth(ssn, k)];
    var end := FirstMissing(filed.Keys, ssn + c);
    d := end - ssn;
    forall j | c <= j < d
      ensures j in now
    {
      assert ssn + j in filed.Keys;
    }
    assert end !in filed.Keys;
  }

  /** A frame inside the window keeps the run on track. */
  lemma OnTrackStep(r: Result, ssn: Seq12, arrived: set<int>, c: nat, size: nat, k: nat) returns (d: nat)
    requires 0 < size <= 2048 && OnTrack(r, ssn, arrived, c)
    requires k !in arrived && k < c + size
    ensures var t := Receive(r.next, size, Nth(ssn, k));
            OnTrack(Result(t.next, r.out + t.out, r.dropped + t.dropped), ssn, arrived + {k as int}, d)
  {
    LiftNth(ssn, c, k);
    d := FiledStep(r.next.stored, ssn, arrived, c, k, arrived + {k as int});
    var filed := r.next.stored[ssn + k := Nth(ssn, k)];
    FlushBlock(filed, ssn, c, d);
    hide Lift, Nth, FramesOf, Block, Filed;
    FiledAhead(r.next.stored, ssn, arrived, c, k);
    var t := Receive(r.next, size, Nth(ssn, k));
    FramesOfConcat(r.out, t.out);
  }

  lemma FiledAhead(stored: map<int, Frame>, ssn: Seq12, arrived: set<int>, c: nat, k: nat)
    requires Filed(stored, ssn, arrived, c) && k !in arrived
    ensures ssn + k !in stored
  {
  }

  /** As long as the arrivals so far were inside the window they found, the run is on track. */
  lemma {:induction false} OnTrackPrefix(ssn: Seq12, order: seq<nat>, size: nat, p: nat) returns (c: nat)
    requires 0 < size <= 2048 && Permutation(order) && p <= |order|
    requires forall i, j :: 0 <= i < j < |order| && i < p ==> order[i] < order[j] + size
    ensures OnTrack(BlockRun(ssn, size, order[..p]), ssn, Seen(order, p), c)
    ensures c <= |order|
  {
    if p == 0 {
      c := 0;
      assert Arrivals(ssn, order[..0]) == [];
    } else {
      var b := OnTrackPrefix(ssn, order, size, p - 1);
      var k := order[p - 1];
      FreshArrival(order, p - 1);
      MissingComesLater(order, p - 1, b);
      hide OnTrack, BlockRun, Nth;
      c := OnTrackStep(BlockRun(ssn, size, order[..p - 1]), ssn, Seen(order, p - 1), b, size, k);
      ArrivalsSnoc(ssn, order, p - 1, size);
      SeenStep(order, p - 1);
      OnTrackBound(BlockRun(ssn, size, order[..p]), ssn, order, p, c);
    }
  }

  lemma OnTrackBound(r: Result, ssn: Seq12, order: seq<nat>, p: nat, c: nat)
    requires Permutation(order) && p <= |order| && OnTrack(r, ssn, Seen(order, p), c)
    ensures c <= |order|
  {
    forall i | 0 <= i < p
      ensures order[i] < |order|
    {
      FreshArrival(order, i);
    }
    assert |order| !in Seen(order, p);
  }

  lemma FreshArrival(order: seq<nat>, p: nat)
    requires Permutation(order) && p < |order|
    ensures order[p] !in Seen(order, p) && order[p] < |order|
  {
    assert order[p] in order;
  }

  /** A number before which everything has arrived, but which has not, is still to come. */
  lemma MissingComesLater(order: seq<nat>, p: nat, b: nat)
    requires Permutation(order) && p < |order| && b !in Seen(order, p)
    requires b <= |order| && forall j :: 0 <= j < b ==> j in Seen(order, p)
    ensures b < |order| && exists j :: p <= j < |order| && order[j] == b
  {
    FreshArrival(order, p);
    assert b in order;
    var j :| 0 <= j < |order| && order[j] == b;
    SeenHas(order, p);
  }

  lemma SeenHas(order: seq<nat>, p: nat)
    requires p <= |order|
    ensures forall i :: 0 <= i < p ==> order[i] in Seen(order, p)
  {
  }

  lemma SeenAll(order: seq<nat>)
    requires Permutation(order)
    ensures forall k: nat :: k < |order| ==> k in Seen(order, |order|)
  {
    SeenHas(order, |order|);
    forall k: nat | k < |order|
      ensures k in Seen(order, |order|)
    {
      assert k in order;
    }
  }

  /** Timely arrivals are delivered perfectly. */
  lemma TimelyIsPerfect(ssn: Seq12, order: seq<nat>, size: nat)
    requires 0 < size <= 2048 && Permutation(order) && Timely(order, size)
    ensures Perfect(BlockRun(ssn, size, order), ssn, |order|)
  {
    var n := |order|;
    assert order[..n] == order;
    var c := OnTrackPrefix(ssn, order, size, n);
    SeenAll(order);
    var stored := BlockRun(ssn, size, order).next.stored;
    forall at | at in stored
      ensures false
    {
      var i :| 0 <= i < n && order[i] == at - ssn;
      FreshArrival(order, i);
    }
  }

  // --- an untimely arrival cannot be made good ---

  /** A delivered frame is not at its place. */
  ghost predicate Misplaced(out: seq<Item>) {
    exists i :: 0 <= i < |out| && out[i].frame.id != i
  }

  /** A stored frame will come out too early. */
  ghost predicate Misfiled(r: Result, ssn: Seq12, at: int) {
    && at in r.next.stored && r.next.head <= at
    && r.next.stored[at].id > at - ssn
    && |r.out| <= r.next.head - ssn
  }

  /** The head has moved past number c, the next one to deliver, and cannot move on by more
      than half a turn before it releases the frame stored at `at`. */
  ghost predicate Skipped(r: Result, ssn: Seq12, arrived: set<int>, c: nat, at: int) {
    && c !in arrived && |r.out| == c
    && ssn + c < r.next.head <= at <= ssn + c + 2048
    && at in r.next.stored
    && (forall k :: k in r.next.stored ==> r.next.stored[k].id != c)
  }

  ghost predicate Doomed(r: Result, ssn: Seq12, arrived: set<int>) {
    || r.dropped != []
    || Misplaced(r.out)
    || (exists at :: Misfiled(r, ssn, at))
    || (exists c: nat, at :: Skipped(r, ssn, arrived, c, at))
  }

  function Then(r: Result, size: nat, f: Frame): Result {
    var t := Receive(r.next, size, f);
    Result(t.next, r.out + t.out, r.dropped + t.dropped)
  }

  lemma MisplacedStays(out: seq<Item>, more: seq<Item>)
    requires Misplaced(out)
    ensures Misplaced(out + more)
  {
    var i :| 0 <= i < |out| && out[i].frame.id != i;
    assert (out + more)[i].frame.id != i;
  }

  lemma MisplacedNow(out: seq<Item>, more: seq<Item>, i: nat)
    requires i < |more| && more[i].frame.id != |out| + i
    ensures Misplaced(out + more)
  {
    assert (out + more)[|out| + i].frame.id != |out| + i;
  }

  lemma MisfiledStep(r: Result, ssn: Seq12, size: nat, f: Frame, at: int)
    requires size > 0 && Inv(r.next, size) && Misfiled(r, ssn, at)
    ensures var t := Then(r, size, f); t.dropped != [] || Misplaced(t.out) || Misfiled(t, ssn, at)
  {
    var t := Receive(r.next, size, f);
    if t.dropped == [] {
      var filed := r.next.stored[Lift(r.next.head, f.seqNum) := f];
      hide Lift, FirstMissing, Flush;
      if t.next.head <= at {
        FlushOrdered(filed, r.next.head, t.next.head);
      } else {
        FlushFinds(filed, r.next.head, t.next.head, at);
        var i :| 0 <= i <= at - r.next.head && i < |t.out| && t.out[i] == Item(at, filed[at]);
        MisplacedNow(r.out, t.out, i);
      }
    }
  }

  lemma SkippedStep(r: Result, ssn: Seq12, arrived: set<int>, size: nat, k: nat, c: nat, at: int)
    requires size > 0 && Inv(r.next, size) && Skipped(r, ssn, arrived, c, at)
    ensures var t := Then(r, size, Nth(ssn, k));
            t.dropped != [] || Misplaced(t.out) || Skipped(t, ssn, arrived + {k as int}, c, at)
  {
    var f, head := Nth(ssn, k), r.next.head;
    var t := Receive(r.next, size, f);
    LiftBehind(ssn, c, head);
    assert f.id == k;
    assert k == c ==> t.dropped != [];
    hide Lift, Nth, Receive;
    if t.dropped == [] {
      ReceiveAvoids(r.next, size, f, c);
      if t.out != [] {
        MisplacedNow(r.out, t.out, 0);
      } else {
        ReceiveSilent(r.next, size, f, at);
      }
    }
  }

  lemma LiftBehind(ssn: Seq12, c: nat, head: int)
    requires ssn + c < head <= ssn + c + 2047
    ensures Lift(head, Nth(ssn, c).seqNum) < head
  {
    LiftUnique(head, Nth(ssn, c).seqNum, ssn + c);
  }

  /** A run that has gone wrong stays wrong. */
  lemma DoomedStep(r: Result, ssn: Seq12, arrived: set<int>, size: nat, k: nat)
    requires size > 0 && Inv(r.next, size) && Doomed(r, ssn, arrived)
    ensures Doomed(Then(r, size, Nth(ssn, k)), ssn, arrived + {k as int})
  {
    var f := Nth(ssn, k);
    var t := Receive(r.next, size, f);
    if r.dropped != [] {
    } else if Misplaced(r.out) {
      MisplacedStays(r.out, t.out);
    } else if at :| Misfiled(r, ssn, at) {
      MisfiledStep(r, ssn, size, f, at);
    } else {
      var c: nat, at :| Skipped(r, ssn, arrived, c, at);
      SkippedStep(r, ssn, arrived, size, k, c, at);
    }
  }

  /** Where a run goes wrong: a frame arrives beyond the window it finds. Whatever number the
      code takes it for, a drop, a misplaced frame or a skipped one follows. */
  lemma DoomedStart(r: Result, ssn: Seq12, arrived: set<int>, c: nat, size: nat, k: nat)
    requires size > 0 && Inv(r.next, size) && OnTrack(r, ssn, arrived, c)
    requires k >= c + size
    ensures Doomed(Then(r, size, Nth(ssn, k)), ssn, arrived + {k as int})
  {
    var f, head := Nth(ssn, k), r.next.head;
    var at, t := Lift(head, f.seqNum), Receive(r.next, size, f);
    if t.dropped == [] {
      var filed := r.next.stored[at := f];
      assert f.id == k && |r.out| == c;
      assert forall x :: x in filed ==> filed[x].id != c;
      hide Lift, Nth, Inv;
      if t.out != [] {
        FlushOrdered(filed, head, t.next.head);
        MisplacedNow(r.out, t.out, 0);
      } else {
        if t.next.head > at { FlushFinds(filed, head, t.next.head, at); }
        if at < head + size {
          FirstMissingUnique(filed.Keys, head, head);
          assert Misfiled(Then(r, size, f), ssn, at);
        } else {
          assert Skipped(Then(r, size, f), ssn, arrived + {k as int}, c, at);
        }
      }
    }
  }

  lemma InPlace(out: seq<Item>, ssn: Seq12)
    requires FramesOf(out) == Block(ssn, |out|)
    ensures !Misplaced(out)
  {
    forall i | 0 <= i < |out|
      ensures out[i].frame.id == i
    {
      assert FramesOf(out)[i] == Block(ssn, |out|)[i];
    }
  }

  lemma DoomedEnd(r: Result, ssn: Seq12, arrived: set<int>, n: nat)
    requires Doomed(r, ssn, arrived)
    ensures !Perfect(r, ssn, n)
  {
    if FramesOf(r.out) == Block(ssn, |r.out|) { InPlace(r.out, ssn); }
    assert |Block(ssn, n)| == n;
  }

  lemma {:induction false} DoomedForever(ssn: Seq12, order: seq<nat>, size: nat, p: nat, q: nat)
    requires size > 0 && p <= q <= |order|
    requires Doomed(BlockRun(ssn, size, order[..p]), ssn, Seen(order, p))
    ensures Doomed(BlockRun(ssn, size, order[..q]), ssn, Seen(order, q))
    decreases q
  {
    hide Doomed, Receive, Nth;
    if p >= q {
    } else {
      DoomedForever(ssn, order, size, p, q - 1);
      RunOrdered(Machine(ssn, map[]), size, Arrivals(ssn, order[..q - 1]));
      DoomedStep(BlockRun(ssn, size, order[..q - 1]), ssn, Seen(order, q - 1), size, order[q - 1]);
      ArrivalsSnoc(ssn, order, q - 1, size);
      SeenStep(order, q - 1);
    }
  }

  /** The first arrival that is a window or more ahead of a frame still to come. */
  lemma {:induction false} FirstUntimely(order: seq<nat>, size: nat, p: nat, j: nat) returns (first: nat, later: nat)
    requires p < j < |order| && order[p] >= order[j] + size
    ensures first < later < |order| && order[first] >= order[later] + size
    ensures forall a, b :: 0 <= a < b < |order| && a < first ==> order[a] < order[b] + size
    decreases p
  {
    if a, b :| 0 <= a < b < |order| && a < p && order[a] >= order[b] + size {
      first, later := FirstUntimely(order, size, a, b);
    } else {
      first, later := p, j;
    }
  }

  lemma SeenStep(order: seq<nat>, p: nat)
    requires p < |order|
    ensures Seen(order, p + 1) == Seen(order, p) + {order[p] as int}
  {
  }

  /** The run goes wrong with arrival p, which comes a window or more ahead of a later one. */
  lemma GoesWrong(ssn: Seq12, order: seq<nat>, size: nat, p: nat, late: nat, c: nat)
    requires size > 0 && Permutation(order) && p < late < |order| && order[p] >= order[late] + size
    requires OnTrack(BlockRun(ssn, size, order[..p]), ssn, Seen(order, p), c)
    ensures Doomed(BlockRun(ssn, size, order[..p + 1]), ssn, Seen(order, p + 1))
  {
    NotYetSeen(order, p, late);
    assert c <= order[late];
    RunOrdered(Machine(ssn, map[]), size, Arrivals(ssn, order[..p]));
    hide OnTrack, Doomed, Nth, Receive, Inv, Permutation;
    DoomedStart(BlockRun(ssn, size, order[..p]), ssn, Seen(order, p), c, size, order[p]);
    ArrivalsSnoc(ssn, order, p, size);
    SeenStep(order, p);
  }

  lemma UntimelyIsDoomed(ssn: Seq12, order: seq<nat>, size: nat)
    requires 0 < size <= 2048 && Permutation(order) && !Timely(order, size)
    ensures Doomed(BlockRun(ssn, size, order), ssn, Seen(order, |order|))
  {
    var i, j :| 0 <= i < j < |order| && order[i] >= order[j] + size;
    var p, late := FirstUntimely(order, size, i, j);
    var c := OnTrackPrefix(ssn, order, size, p);
    hide OnTrack, Doomed, BlockRun, Seen;
    GoesWrong(ssn, order, size, p, late, c);
    DoomedForever(ssn, order, size, p + 1, |order|);
    assert order[..|order|] == order;
  }

  lemma NotYetSeen(order: seq<nat>, p: nat, j: nat)
    requires Permutation(order) && p <= j < |order|
    ensures order[j] !in Seen(order, p)
  {
  }

  /** Reordering is perfect exactly for timely arrivals. */
  lemma PerfectIffTimely(ssn: Seq12, order: seq<nat>, size: nat)
    requires 0 < size <= 2048 && Permutation(order)
    ensures Perfect(BlockRun(ssn, size, order), ssn, |order|) <==> Timely(order, size)
  {
    if Timely(order, size) {
      TimelyIsPerfect(ssn, order, size);
    } else {
      UntimelyIsDoomed(ssn, order, size);
      DoomedEnd(BlockRun(ssn, size, order), ssn, Seen(order, |order|), |order|);
    }
  }

  /** The same for the driver's 12-bit code. Every frame of the block is handed on in order
      before the session ends, none is dropped and no slot stays occupied, exactly when the
      arrival is timely. */
  lemma SessionPerfectIffTimely(ssn: Seq12, order: seq<nat>, size: nat)
    requires RightSize(size) && Permutation(order)
    ensures var r := RunSession(Alloc(size, ssn), Arrivals(ssn, order));
            (r.delivered == Block(ssn, |order|) && r.dropped == [] && Occupied(r.next.buf) == 0)
            <==> Timely(order, size)
  {
    var s, m, frames := Alloc(size, ssn), Machine(ssn, map[]), Arrivals(ssn, order);
    AllocMeaning(size, ssn);
    AllocSize(size, ssn);
    RunRefines(s, ssn, frames);
    RunOrdered(m, size, frames);
    var r, t := RunSession(s, frames), Run(m, size, frames);
    EmptyMeansNothingStored(r.next, t.next.head);
    hide RunSession, Run, Alloc, Abs, At, Timely;
    PerfectIffTimely(ssn, order, size);
  }

  /** It is not enough that frame k never arrives before frame k - size: with two slots, the
      order 0, 2, 4, 1, 3 obeys that and still loses a frame. */
  lemma SameResidueIsNotEnough()
    ensures var order := [0, 2, 4, 1, 3];
            && Permutation(order)
            && (forall i, j :: 0 <= i < j < |order| ==> order[i] != order[j] + 2)
            && !Timely(order, 2)
            && !Perfect(BlockRun(0, 2, order), 0, 5)
  {
    var order: seq<nat> := [0, 2, 4, 1, 3];
    assert order[0] == 0 && order[1] == 2 && order[2] == 4 && order[3] == 1 && order[4] == 3;
    assert order[2] >= order[3] + 2;
    PerfectIffTimely(0, order, 2);
  }
}
