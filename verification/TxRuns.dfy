/**
 Whole runs of a transmit ring: packets sent by the network stack, copies made for broadcast,
 mapping failures, hardware completions, clean-up and teardown in any order. References are
 conserved, the ring never overruns but for one shape of packet, and clean-up frees
 finished transfers only.
 */
module TxRuns {
  import opened TsoBounds
  import opened TsoCut
  import opened TxQueue
  import opened Wrappers

  /** The ring, and who else holds references: the callers of `wil_start_xmit`, and the
      broadcast copies, whose own first reference nobody drops. */
  datatype World = World(tx: Tx, share: multiset<Skb>, copies: multiset<Skb>)

  datatype Event =
    | Arrive(skb: Skb)          // the stack comes with a reference of its own
    | Send(p: Packet)           // `wil_start_xmit`, ring found
    | SendCopy(p: Packet)       // one round of the copying loop of `wil_tx_bcast`
    | HwDone(k: nat)            // hardware marks the k-th descriptor of the queue
    | Clean                     // `wil_tx_complete`
    | Free                      // `wil_vring_free`

  ghost predicate Enabled(w: World, e: Event) {
    match e
    case Send(p) => w.share[p.skb] > 0
    case SendCopy(p) => p.mss == 0
    case HwDone(k) => k < |w.tx.queue|
    case _ => true
  }

  function Add(users: multiset<Skb>, skb: Skb): multiset<Skb> {
    users[skb := users[skb] + 1]
  }

  function Step(w: World, e: Event): World
    requires Enabled(w, e)
  {
    match e
    case Arrive(skb) => World(w.tx.(users := Add(w.tx.users, skb)), Add(w.share, skb), w.copies)
    case Send(p) =>
      var tx := Enqueue(w.tx, p);
      if Decide(Avail(w.tx), p) == Busy then w.(tx := tx)
      else World(tx.(users := tx.users - multiset{p.skb}), w.share - multiset{p.skb}, w.copies)
    case SendCopy(p) =>
      World(Enqueue(w.tx.(users := Add(w.tx.users, p.skb)), p), w.share, Add(w.copies, p.skb))
    case HwDone(k) =>
      w.(tx := w.tx.(queue := w.tx.queue[k := w.tx.queue[k].(done := true)]))
    case Clean => w.(tx := Complete(w.tx))
    case Free => w.(tx := Teardown(w.tx))
  }

  /** Each packet is referenced by its callers, by its copies' first owners and by the live
      slots that hold it, and by nothing else. */
  ghost predicate Conserved(w: World) {
    forall s: Skb :: w.tx.users[s] == w.share[s] + w.copies[s] + Held(w.tx.queue, s)
  }

  /** The enqueue fills the last free slot, after which the ring looks empty. */
  ghost predicate Overruns(tx: Tx, p: Packet) {
    Decide(Avail(tx), p) == Accepted && |tx.queue| + |DescsOf(p)| >= tx.size
  }

  // --- the ring bound ---

  lemma TsoAtLeast(p: Packet)
    requires p.mss > 0 && p.frags == []
    ensures |DescsOf(p)| == if p.linear > 0 then 2 else 1
  {
  }

  /** Exactly one shape of packet overruns the ring: one to be segmented, with payload in the
      linear part only, when a single descriptor is free. */
  lemma OverrunIff(tx: Tx, p: Packet)
    requires |tx.queue| < tx.size
    ensures Overruns(tx, p) <==>
              p.mss > 0 && p.frags == [] && p.linear > 0 && p.tcp && !(0 <= p.failAt < 2) && Avail(tx) == 1
  {
    if p.mss > 0 && p.frags == [] { TsoAtLeast(p); }
    hide TsoDescs, PlainDescs;
  }

  lemma EnqueueFits(tx: Tx, p: Packet)
    requires |tx.queue| < tx.size && !Overruns(tx, p)
    ensures |Enqueue(tx, p).queue| < tx.size
    ensures Enqueue(tx, p).queue
            == if Decide(Avail(tx), p) == Accepted then tx.queue + SlotsOf(p.skb, DescsOf(p)) else tx.queue
  {
  }

  // --- conservation ---

  lemma EnqueueConserves(w: World, p: Packet, w': World)
    requires Conserved(w) && !Overruns(w.tx, p) && w' == w.(tx := Enqueue(w.tx, p))
    ensures Conserved(w')
  {
    if Decide(Avail(w.tx), p) == Accepted {
      var slots := SlotsOf(p.skb, DescsOf(p));
      hide SlotsOf, DescsOf;
      forall s: Skb
        ensures w'.tx.users[s] == w'.share[s] + w'.copies[s] + Held(w'.tx.queue, s)
      {
        HeldConcat(w.tx.queue, slots, s);
        HeldSame(slots, p.skb, s);
      }
    }
  }

  lemma ReleaseConserves(w: World, k: nat)
    requires Conserved(w) && k <= |w.tx.queue|
    ensures Conserved(w.(tx := Tx(w.tx.size, w.tx.queue[k..], Release(w.tx.users, w.tx.queue[..k]))))
  {
    var gone, rest := w.tx.queue[..k], w.tx.queue[k..];
    assert w.tx.queue == gone + rest;
    forall s: Skb
      ensures Held(w.tx.queue, s) == Held(gone, s) + Held(rest, s)
    {
      HeldConcat(gone, rest, s);
    }
    forall s: Skb
      ensures Release(w.tx.users, gone)[s] == w.share[s] + w.copies[s] + Held(rest, s)
    {
      ReleaseCounts(w.tx.users, gone, s);
    }
  }

  lemma HwDoneKeepsHeld(queue: seq<Slot>, k: nat, s: Skb)
    requires k < |queue|
    ensures Held(queue[k := queue[k].(done := true)], s) == Held(queue, s)
  {
    var x := queue[k].(done := true);
    HeldConcat(queue[..k], [queue[k]] + queue[k + 1..], s);
    HeldConcat(queue[..k], [x] + queue[k + 1..], s);
    assert queue == queue[..k] + ([queue[k]] + queue[k + 1..]);
    assert queue[k := x] == queue[..k] + ([x] + queue[k + 1..]);
  }

  ghost predicate Safe(w: World, e: Event) {
    && Enabled(w, e)
    && (e.Send? || e.SendCopy? ==> !Overruns(w.tx, e.p))
  }

  ghost predicate Good(w: World) {
    Conserved(w) && |w.tx.queue| < w.tx.size
  }

  lemma SendGood(w: World, p: Packet)
    requires Good(w) && Safe(w, Send(p))
    ensures Good(Step(w, Send(p))) && Step(w, Send(p)).tx.size == w.tx.size
  {
    var v := w.(tx := Enqueue(w.tx, p));
    EnqueueFits(w.tx, p);
    EnqueueConserves(w, p, v);
    assert v.tx.size == w.tx.size;
    hide Enqueue, Decide, Held;
  }

  lemma SendCopyGood(w: World, p: Packet)
    requires Good(w) && Safe(w, SendCopy(p))
    ensures Good(Step(w, SendCopy(p))) && Step(w, SendCopy(p)).tx.size == w.tx.size
  {
    var v := World(w.tx.(users := Add(w.tx.users, p.skb)), w.share, Add(w.copies, p.skb));
    assert Conserved(v) by { hide Held; }
    EnqueueFits(v.tx, p);
    EnqueueConserves(v, p, Step(w, SendCopy(p)));
  }

  lemma StepGood(w: World, e: Event)
    requires Good(w) && Safe(w, e)
    ensures Good(Step(w, e)) && Step(w, e).tx.size == w.tx.size
  {
    hide Enqueue, Decide, Overruns, Held, FreeCount, Release;
    match e
    case Arrive(skb) =>
    case Send(p) => SendGood(w, p);
    case SendCopy(p) => SendCopyGood(w, p);
    case HwDone(k) =>
      forall s: Skb ensures Held(Step(w, e).tx.queue, s) == Held(w.tx.queue, s) {
        HwDoneKeepsHeld(w.tx.queue, k, s);
      }
    case Clean =>
      ReleaseConserves(w, FreeCount(w.tx.queue));
    case Free =>
      ReleaseConserves(w, |w.tx.queue|);
      assert w.tx.queue[..|w.tx.queue|] == w.tx.queue && w.tx.queue[|w.tx.queue|..] == [];
  }

  ghost predicate SafeRun(w: World, events: seq<Event>)
    decreases |events|
  {
    events == [] || (Safe(w, events[0]) && SafeRun(Step(w, events[0]), events[1..]))
  }

  function Run(w: World, events: seq<Event>): World
    requires SafeRun(w, events)
    decreases |events|
  {
    if events == [] then w else Run(Step(w, events[0]), events[1..])
  }

  /** In every run each packet's count is what its callers hold, plus one for a broadcast
      copy, plus its live slots; and the ring holds at most size - 1 descriptors. */
  lemma {:induction false} RunConserves(w: World, events: seq<Event>)
    requires Good(w) && SafeRun(w, events)
    ensures Good(Run(w, events))
    decreases |events|
  {
    hide Step, Good, Enabled;
    if events == [] {
    } else {
      StepGood(w, events[0]);
      RunConserves(Step(w, events[0]), events[1..]);
    }
  }

  /** Teardown leaves no reference from the ring: a packet nobody else holds is gone, unless it
      was a broadcast copy. */
  lemma AfterTeardown(w: World, events: seq<Event>, skb: Skb)
    requires Good(w) && SafeRun(w, events)
    ensures var last := Step(Run(w, events), Free);
            && last.tx.queue == []
            && (last.tx.users[skb] == 0 <==> last.share[skb] == 0 && last.copies[skb] == 0)
  {
    RunConserves(w, events);
    var before := Run(w, events);
    StepGood(before, Free);
    var last := Step(before, Free);
    hide Run, SafeRun, Release, Safe;
    assert last.tx.users[skb] == last.share[skb] + last.copies[skb] + Held([], skb);
  }

  /** A packet for which there is no room stays with its caller and leaves everything as it was;
      any other costs the caller one reference, whatever becomes of it, and an accepted one gets
      one for each descriptor it adds. */
  lemma SendOutcome(w: World, p: Packet)
    requires Good(w) && Safe(w, Send(p))
    ensures var v, room := Step(w, Send(p)), (if p.mss > 0 then 3 * |p.frags| else |p.frags|) + 1;
            if Avail(w.tx) < room then v == w
            else
              && v.share == w.share - multiset{p.skb} && v.copies == w.copies
              && w.tx.queue <= v.tx.queue
              && v.tx.users[p.skb] == w.tx.users[p.skb] + (|v.tx.queue| - |w.tx.queue|) - 1
  {
    EnqueueFits(w.tx, p);
    hide TsoDescs, PlainDescs, Held;
    assert w.tx.users[p.skb] > 0;
  }

  /** The overrun is real: it loses every reference the ring held. */
  lemma OverrunLoses(w: World, p: Packet)
    requires Good(w) && Overruns(w.tx, p)
    ensures !Conserved(w.(tx := Enqueue(w.tx, p)))
  {
    var v := w.(tx := Enqueue(w.tx, p));
    assert v.tx.queue == [];
    assert v.tx.users[p.skb] > v.share[p.skb] + v.copies[p.skb] + Held([], p.skb);
  }

  // --- clean-up ---

  /** Hardware marks only descriptors that end a transfer, in ring order. */
  ghost predicate MarkedInOrder(queue: seq<Slot>) {
    && (forall i :: 0 <= i < |queue| && queue[i].done ==> queue[i].desc.eop)
    && (forall i, j :: 0 <= i < j < |queue| && queue[i].desc.eop && queue[j].done ==> queue[i].done)
  }

  /** The descriptor that ends the transfer of descriptor k. */
  function EndOf(queue: seq<Slot>, k: nat): (e: nat)
    requires k <= |queue|
    ensures k <= e <= |queue| && (e < |queue| ==> queue[e].desc.eop)
    ensures forall j :: k <= j < e ==> !queue[j].desc.eop
    decreases |queue| - k
  {
    if k == |queue| || queue[k].desc.eop then k else EndOf(queue, k + 1)
  }

  /** Clean-up stops exactly at the last descriptor hardware marked, and frees descriptors of
      finished transfers only. */
  lemma CleanFreesFinished(queue: seq<Slot>)
    requires MarkedInOrder(queue)
    ensures FreeCount(queue) == LastDone(queue)
    ensures forall k :: 0 <= k < FreeCount(queue) ==> EndOf(queue, k) < |queue| && queue[EndOf(queue, k)].done
  {
  }

  /** Hardware that finishes transfers in ring order and marks their last descriptors only. */
  ghost predicate Disciplined(w: World, e: Event) {
    e.HwDone? ==>
      && e.k < |w.tx.queue| && w.tx.queue[e.k].desc.eop
      && (forall i :: 0 <= i < e.k && w.tx.queue[i].desc.eop ==> w.tx.queue[i].done)
  }

  ghost predicate DisciplinedRun(w: World, events: seq<Event>)
    decreases |events|
  {
    events == []
    || (Safe(w, events[0]) && Disciplined(w, events[0]) && DisciplinedRun(Step(w, events[0]), events[1..]))
  }

  lemma OrderSent(queue: seq<Slot>, slots: seq<Slot>)
    requires MarkedInOrder(queue) && forall i :: 0 <= i < |slots| ==> !slots[i].done
    ensures MarkedInOrder(queue + slots)
  {
  }

  lemma OrderMarked(queue: seq<Slot>, k: nat)
    requires MarkedInOrder(queue) && k < |queue| && queue[k].desc.eop
    requires forall i :: 0 <= i < k && queue[i].desc.eop ==> queue[i].done
    ensures MarkedInOrder(queue[k := queue[k].(done := true)])
  {
  }

  lemma OrderCleaned(queue: seq<Slot>, k: nat)
    requires MarkedInOrder(queue) && k <= |queue|
    ensures MarkedInOrder(queue[k..])
  {
  }

  lemma StepKeepsOrder(w: World, e: Event)
    requires Good(w) && MarkedInOrder(w.tx.queue) && Safe(w, e) && Disciplined(w, e)
    ensures MarkedInOrder(Step(w, e).tx.queue)
  {
    hide Conserved, DescsOf, Release, Decide, Enqueue, SlotsOf, FreeCount, MarkedInOrder;
    var queue := w.tx.queue;
    match e
    case Send(p) =>
      EnqueueFits(w.tx, p);
      OrderSent(queue, SlotsOf(p.skb, DescsOf(p)));
    case SendCopy(p) =>
      EnqueueFits(w.tx.(users := Add(w.tx.users, p.skb)), p);
      OrderSent(queue, SlotsOf(p.skb, DescsOf(p)));
    case HwDone(k) => OrderMarked(queue, k);
    case Clean => OrderCleaned(queue, FreeCount(queue));
    case Free =>
      OrderCleaned(queue, |queue|);
      assert queue[|queue|..] == [];
    case Arrive(_) =>
  }

  /** With such hardware every clean-up in every run goes exactly as far as hardware has got. */
  lemma {:induction false} RunKeepsOrder(w: World, events: seq<Event>)
    requires Good(w) && MarkedInOrder(w.tx.queue) && DisciplinedRun(w, events)
    ensures SafeRun(w, events) && MarkedInOrder(Run(w, events).tx.queue)
    ensures FreeCount(Run(w, events).tx.queue) == LastDone(Run(w, events).tx.queue)
    decreases |events|
  {
    hide Step, Good, Enabled, Disciplined, MarkedInOrder, FreeCount;
    if events == [] {
      CleanFreesFinished(w.tx.queue);
    } else {
      StepGood(w, events[0]);
      StepKeepsOrder(w, events[0]);
      RunKeepsOrder(Step(w, events[0]), events[1..]);
    }
  }

  /** Without that order it stops at the first descriptor that ends an unfinished transfer, and
      it falls short exactly when there is one before the last marked descriptor. */
  lemma CleanFallsShortIff(queue: seq<Slot>)
    ensures FreeCount(queue) < LastDone(queue)
            <==> exists i :: 0 <= i < LastDone(queue) && queue[i].desc.eop && !queue[i].done
  {
  }

  // --- the descriptor at which clean-up stops ---

  /** How many descriptors at the head of the queue a step takes off it. */
  function TakenOff(w: World, e: Event): nat {
    if e.Clean? then FreeCount(w.tx.queue) else 0
  }

  /** No descriptor behind place i gets marked, and the ring is not torn down; clean-up moves the
      place forward. */
  ghost predicate NothingMarkedBehind(w: World, events: seq<Event>, i: nat)
    requires SafeRun(w, events)
    decreases |events|
  {
    events == []
    || (var e := events[0];
        && !e.Free? && (e.HwDone? ==> e.k <= i) && TakenOff(w, e) <= i
        && NothingMarkedBehind(Step(w, e), events[1..], i - TakenOff(w, e)))
  }

  lemma LastStepStays(w: World, e: Event, i: nat)
    requires Good(w) && Safe(w, e) && !e.Free? && (e.HwDone? ==> e.k <= i)
    requires i < |w.tx.queue| && LastDone(w.tx.queue) <= i
    ensures var k, queue := TakenOff(w, e), Step(w, e).tx.queue;
            && k <= i && i - k < |queue| && queue[i - k].skb == w.tx.queue[i].skb
            && LastDone(queue) <= i - k
  {
    hide Conserved, DescsOf, Release, Decide, LastDone, Enqueue, SlotsOf, FirstStuck;
    var queue := w.tx.queue;
    match e
    case Send(p) =>
      EnqueueFits(w.tx, p);
      NoneMarkedBehindSent(queue, SlotsOf(p.skb, DescsOf(p)), i);
    case SendCopy(p) =>
      EnqueueFits(w.tx.(users := Add(w.tx.users, p.skb)), p);
      NoneMarkedBehindSent(queue, SlotsOf(p.skb, DescsOf(p)), i);
    case HwDone(k) => NoneMarkedBehind(queue[k := queue[k].(done := true)], i);
    case Clean => NoneMarkedBehind(queue[FreeCount(queue)..], i - FreeCount(queue));
    case _ =>
  }

  lemma NoneMarkedBehind(queue: seq<Slot>, i: nat)
    requires forall j :: i < j < |queue| ==> !queue[j].done
    ensures LastDone(queue) <= i
  {
  }

  lemma NoneMarkedBehindSent(queue: seq<Slot>, slots: seq<Slot>, i: nat)
    requires LastDone(queue) <= i && forall j :: 0 <= j < |slots| ==> !slots[j].done
    ensures LastDone(queue + slots) <= i
  {
    NoneMarkedBehind(queue + slots, i);
  }

  lemma {:induction false} HeldPositive(slots: seq<Slot>, i: nat, skb: Skb)
    requires i < |slots| && slots[i].skb == Some(skb)
    ensures Held(slots, skb) > 0
  {
    if i == 0 {
    } else {
      HeldPositive(slots[1..], i - 1, skb);
    }
  }

  lemma NothingBehindFirst(w: World, events: seq<Event>, i: nat)
    requires SafeRun(w, events) && events != [] && NothingMarkedBehind(w, events, i)
    ensures var e := events[0];
            && Enabled(w, e) && Safe(w, e) && !e.Free? && (e.HwDone? ==> e.k <= i) && TakenOff(w, e) <= i
            && SafeRun(Step(w, e), events[1..])
            && NothingMarkedBehind(Step(w, e), events[1..], i - TakenOff(w, e))
            && Run(w, events) == Run(Step(w, e), events[1..])
  {
    hide Step, Enabled, TakenOff;
  }

  lemma SlotCounts(w: World, i: nat, skb: Skb)
    requires Good(w) && i < |w.tx.queue| && w.tx.queue[i].skb == Some(skb)
    ensures w.tx.users[skb] > 0
  {
    HeldPositive(w.tx.queue, i, skb);
    hide Held;
  }

  /** Clean-up stops at the last marked descriptor and does not free it. However often it runs,
      the packet keeps that reference until hardware marks a descriptor further on. */
  lemma {:induction false} LastFinishedIsKept(w: World, events: seq<Event>, i: nat, skb: Skb) returns (j: nat)
    requires Good(w) && SafeRun(w, events) && i < |w.tx.queue| && LastDone(w.tx.queue) <= i
    requires w.tx.queue[i].skb == Some(skb) && NothingMarkedBehind(w, events, i)
    ensures var tx := Run(w, events).tx; j <= i && j < |tx.queue| && tx.queue[j].skb == Some(skb) && tx.users[skb] > 0
    decreases |events|
  {
    hide Good, Safe, Enabled, LastDone, TakenOff, NothingMarkedBehind, Held, SafeRun, Step;
    if events == [] {
      j := i;
      SlotCounts(w, i, skb);
    } else {
      NothingBehindFirst(w, events, i);
      hide Run;
      LastStepStays(w, events[0], i);
      StepGood(w, events[0]);
      j := LastFinishedIsKept(Step(w, events[0]), events[1..], i - TakenOff(w, events[0]), skb);
    }
  }

  lemma StepNeverEmpties(w: World, e: Event)
    requires Good(w) && Safe(w, e) && !e.Free? && w.tx.queue != []
    ensures Step(w, e).tx.queue != []
  {
    hide Conserved, DescsOf, Release, Decide;
    match e
    case Send(p) => EnqueueFits(w.tx, p);
    case SendCopy(p) => EnqueueFits(w.tx.(users := Add(w.tx.users, p.skb)), p);
    case _ =>
  }

  /** So a ring that holds a descriptor once is never empty again before teardown. */
  lemma {:induction false} NeverEmptyAgain(w: World, events: seq<Event>)
    requires Good(w) && SafeRun(w, events) && w.tx.queue != [] && Free !in events
    ensures Run(w, events).tx.queue != []
    decreases |events|
  {
    if events == [] {
    } else {
      assert events[0] in events;
      StepNeverEmpties(w, events[0]);
      StepGood(w, events[0]);
      hide Step, Good, Safe;
      NeverEmptyAgain(Step(w, events[0]), events[1..]);
    }
  }

  // --- hardware that never marks headers ---

  /** The descriptor at place i ends a transfer and is not marked. */
  ghost predicate Blocks(queue: seq<Slot>, i: nat) {
    i < |queue| && queue[i].desc.eop && !queue[i].done
  }

  /** Clean-up never gets past such a descriptor. */
  lemma CleanStopsBefore(queue: seq<Slot>, i: nat)
    requires Blocks(queue, i)
    ensures FreeCount(queue) <= i
  {
  }

  ghost predicate NeverMarksHeaders(w: World, events: seq<Event>)
    requires SafeRun(w, events)
    decreases |events|
  {
    events == []
    || (&& (events[0].HwDone? ==> w.tx.queue[events[0].k].desc.src != Header)
        && !events[0].Free?
        && NeverMarksHeaders(Step(w, events[0]), events[1..]))
  }

  lemma HeaderStepStays(w: World, e: Event, i: nat)
    requires Good(w) && Safe(w, e) && !e.Free? && Blocks(w.tx.queue, i) && w.tx.queue[i].desc.src == Header
    requires e.HwDone? ==> w.tx.queue[e.k].desc.src != Header
    ensures var k := TakenOff(w, e);
            k <= i && i - k < |Step(w, e).tx.queue| && Step(w, e).tx.queue[i - k] == w.tx.queue[i]
  {
    hide Conserved, DescsOf, Release, Decide, FreeCount, Enqueue, SlotsOf;
    match e
    case Send(p) => EnqueueFits(w.tx, p);
    case SendCopy(p) => EnqueueFits(w.tx.(users := Add(w.tx.users, p.skb)), p);
    case Clean => CleanStopsBefore(w.tx.queue, i);
    case _ =>
  }

  /** If hardware never marks headers, as a comment in the source has it, a segmentation header in
      the ring stays there until teardown, in every run: clean-up only ever frees what lies
      before it. */
  lemma {:induction false} UnmarkedHeaderBlocks(w: World, events: seq<Event>, i: nat) returns (j: nat)
    requires Good(w) && SafeRun(w, events) && NeverMarksHeaders(w, events)
    requires Blocks(w.tx.queue, i) && w.tx.queue[i].desc.src == Header
    ensures j <= i && j < |Run(w, events).tx.queue| && Run(w, events).tx.queue[j] == w.tx.queue[i]
    ensures FreeCount(Run(w, events).tx.queue) <= j
    decreases |events|
  {
    if events == [] {
      j := i;
      CleanStopsBefore(w.tx.queue, i);
    } else {
      HeaderStepStays(w, events[0], i);
      StepGood(w, events[0]);
      hide Step, Good, Safe, FreeCount;
      j := UnmarkedHeaderBlocks(Step(w, events[0]), events[1..], i - TakenOff(w, events[0]));
    }
  }

  /** Every segmented packet that is accepted puts such a header into the ring. */
  lemma SegmentedPutsHeader(tx: Tx, p: Packet)
    requires |tx.queue| < tx.size && !Overruns(tx, p) && p.mss > 0 && Decide(Avail(tx), p) == Accepted
    ensures var queue := Enqueue(tx, p).queue;
            Blocks(queue, |tx.queue|) && queue[|tx.queue|].desc.src == Header
  {
    DescriptorTypes(p.hdrLen, p.linear, p.frags, p.mss, 0);
    EnqueueFits(tx, p);
    hide TsoDescs, Enqueue;
  }
}
