/**
 Interrupt masking in single-interrupt mode (interrupt.c) together with the polling that ends
 the masked periods (netdev.c) and the work they are about: the receive ring, the transmit
 rings and the mailbox. Hardware, the hard interrupt handler, its thread and the two polls
 interleave; the hard handler, which runs with the line masked, is one step.
 */
module Interrupts {
  import RxRing
  import TxQueue
  import WmiMailbox

  // --- registers ---

  /** The causes of a data source: RX_DONE or TX_DONE, TX_DONE_N(0), and all others. */
  datatype Causes = Causes(done: bool, first: bool, rest: bool)
  {
    function Or(c: Causes): Causes {
      Causes(done || c.done, first || c.first, rest || c.rest)
    }

    function Without(c: Causes): Causes {
      Causes(done && !c.done, first && !c.first, rest && !c.rest)
    }
  }

  const NO_CAUSE := Causes(false, false, false)
  const ALL_CAUSES := Causes(true, true, true)

  /** What the driver unmasks of each source. */
  const IMC_RX := Causes(true, false, false)
  const IMC_TX := Causes(true, true, false)

  datatype Napi = Idle | Scheduled | Completed   // completed, the source not yet unmasked

  /** One data source, Rx or Tx: its latched causes, its mask and the poll it schedules. */
  datatype Line = Line(icr: Causes, mask: Causes, napi: Napi)
  {
    /** Hardware reports a source as long as a latched cause is not masked. */
    predicate Reported() {
      icr.Without(mask) != NO_CAUSE
    }

    /** Masked, with no poll to lift the mask. */
    predicate Stuck() {
      mask.done && napi.Idle?
    }
  }

  /** Causes of the Misc source; the driver unmasks the first three. */
  datatype Misc = Misc(fwError: bool, fwReady: bool, mbox: bool, other: bool)

  const NONE := Misc(false, false, false, false)

  function Or(a: Misc, b: Misc): Misc {
    Misc(a.fwError || b.fwError, a.fwReady || b.fwReady, a.mbox || b.mbox, a.other || b.other)
  }

  // --- state and steps ---

  /** How far the interrupt thread has got. */
  datatype Thread = NotWoken | Woken | Handling(isr: Misc) | MiscDone | Enabling

  datatype State = State(
    rx: Line, ring: RxRing.Rx,                          // the receive ring
    tx: Line, queues: seq<seq<TxQueue.Slot>>,           // the transmit rings
    misc: Misc, miscMasked: bool, isrMisc: Misc,
    events: nat,                                        // events in the mailbox
    notices: nat,                                       // how often user space heard of a firmware error
    pseudoMasked: bool, irqen: bool, thread: Thread)    // the line's mask, and the driver's note of it

  /** How `wmi_recv_cmd` fares: whether the reset is complete, and for how many events the header
      can be read and memory is found. */
  datatype Reader = Reader(resetDone: bool, readable: nat, memory: nat)
  {
    function Takes(events: nat): (k: nat)
      ensures k <= events
    {
      WmiMailbox.Taken(events, resetDone, readable, memory)
    }

    /** It returns with events left in the mailbox. */
    predicate ReturnsEarly(events: nat) {
      events > 0 && (!resetDone || readable < events || memory < events)
    }
  }

  datatype Step =
    | RxFrame(k: nat, desc: RxRing.Desc)                // hardware fills a posted buffer
    | RaiseRx(causes: Causes)
    | TxSend(q: nat, slots: seq<TxQueue.Slot>)          // descriptors are added to ring q
    | TxDone(q: nat, k: nat, causes: Causes)            // hardware marks one of them
    | RaiseTx(causes: Causes)
    | MailEvent                                         // firmware posts an event
    | RaiseMisc(cause: Misc)
    | HardIrq(rx: bool, tx: bool, misc: bool)           // with the pseudo causes read
    | ThreadReads | ThreadHandles(reader: Reader) | ThreadNotes | ThreadUnmasks
    | PollRx(sniffer: bool, memory: nat) | UnmaskRx
    | PollTx | UnmaskTx

  const BUDGET := 16

  /** `wil6210_irq_rx` and `wil6210_irq_tx` read and clear all latched causes, masked ones too. */
  function LineIrq(l: Line): Line {
    if l.icr == NO_CAUSE then l
    else Line(NO_CAUSE, ALL_CAUSES, if l.icr.done then Scheduled else l.napi)
  }

  function Unmask(l: Line, imc: Causes): Line {
    l.(napi := Idle, mask := l.mask.Without(imc))
  }

  /** `wil6210_irq_misc`, with its vote for waking the thread */
  function MiscIrq(s: State): (State, bool) {
    if s.misc == NONE then (s, false)
    else
      var isr := s.misc.(fwReady := false);
      (s.(misc := NONE, miscMasked := isr != NONE, isrMisc := isr), isr != NONE)
  }

  /** `wil6210_hardirq` past its mask check */
  function HardIrqHandled(s: State, rx: bool, tx: bool, misc: bool): State {
    var masked := s.(pseudoMasked := true, irqen := false,
                     rx := if rx then LineIrq(s.rx) else s.rx,
                     tx := if tx then LineIrq(s.tx) else s.tx);
    var (t, wake) := if misc then MiscIrq(masked) else (masked, false);
    if wake then t.(thread := Woken) else t.(irqen := true, pseudoMasked := false)
  }

  /** What `wil6210_debug_irq_mask` does when it believes the line should be masked: it clears
      every latched cause. */
  function CausesLost(s: State): State {
    s.(rx := s.rx.(icr := NO_CAUSE), tx := s.tx.(icr := NO_CAUSE), misc := NONE)
  }

  /** `wil6210_netdev_poll_rx` up to its unmasking. The refill finds memory for `memory` buffers. */
  function PollRxDone(s: State, sniffer: bool, memory: nat): State {
    var handled := RxRing.Handle(s.ring, BUDGET, sniffer);
    var few := |handled.passed| - |s.ring.passed| <= 1;
    s.(ring := RxRing.Refill(handled, handled.size, memory),
       rx := s.rx.(napi := if few then Completed else Scheduled))
  }

  /** All rings cleaned up. */
  function Cleaned(queues: seq<seq<TxQueue.Slot>>): (next: seq<seq<TxQueue.Slot>>)
    ensures |next| == |queues|
  {
    seq(|queues|, i requires 0 <= i < |queues| => queues[i][TxQueue.FreeCount(queues[i])..])
  }

  function FreedBy(queues: seq<seq<TxQueue.Slot>>): nat {
    if queues == [] then 0 else TxQueue.FreeCount(queues[0]) + FreedBy(queues[1..])
  }

  /** `wil6210_netdev_poll_tx` up to its unmasking */
  function PollTxDone(s: State): State {
    s.(queues := Cleaned(s.queues), tx := s.tx.(napi := if FreedBy(s.queues) <= 1 then Completed else Scheduled))
  }

  predicate MiscReported(s: State) {
    !s.miscMasked && (s.misc.fwError || s.misc.fwReady || s.misc.mbox)
  }

  ghost predicate Enabled(s: State, st: Step) {
    match st
    case RxFrame(k, desc) => k < |s.ring.posted| && s.ring.posted[k].desc.Owned? && !desc.Owned?
    case RaiseRx(_) => true
    case TxSend(q, slots) => q < |s.queues| && forall i :: 0 <= i < |slots| ==> !slots[i].done
    case TxDone(q, k, _) => q < |s.queues| && k < |s.queues[q]|
    case RaiseTx(_) => true
    case MailEvent => true
    case RaiseMisc(_) => true
    case HardIrq(rx, tx, misc) =>
      && !s.pseudoMasked && (rx || tx || misc)
      && (rx ==> s.rx.Reported()) && (tx ==> s.tx.Reported()) && (misc ==> MiscReported(s))
    case ThreadReads => s.thread.Woken?
    case ThreadHandles(_) => s.thread.Handling?
    case ThreadNotes => s.thread.MiscDone?
    case ThreadUnmasks => s.thread.Enabling?
    case PollRx(_, _) => s.rx.napi.Scheduled?
    case UnmaskRx => s.rx.napi.Completed?
    case PollTx => s.tx.napi.Scheduled?
    case UnmaskTx => s.tx.napi.Completed?
  }

  function Do(s: State, st: Step): State
    requires Enabled(s, st)
  {
    match st
    case RxFrame(k, desc) =>
      s.(ring := s.ring.(posted := s.ring.posted[k := s.ring.posted[k].(desc := desc)]),
         rx := s.rx.(icr := s.rx.icr.(done := true)))
    case RaiseRx(causes) => s.(rx := s.rx.(icr := s.rx.icr.Or(causes)))
    case TxSend(q, slots) => s.(queues := s.queues[q := s.queues[q] + slots])
    case TxDone(q, k, causes) =>
      var marked := s.queues[q][k := s.queues[q][k].(done := true)];
      s.(queues := s.queues[q := marked], tx := s.tx.(icr := s.tx.icr.Or(causes)))
    case RaiseTx(causes) => s.(tx := s.tx.(icr := s.tx.icr.Or(causes)))
    case MailEvent => s.(events := s.events + 1, misc := s.misc.(mbox := true))
    case RaiseMisc(cause) => s.(misc := Or(s.misc, cause))
    case HardIrq(rx, tx, misc) => if !s.irqen then CausesLost(s) else HardIrqHandled(s, rx, tx, misc)
    case ThreadReads =>
      if s.isrMisc != NONE then s.(thread := Handling(s.isrMisc)) else s.(thread := MiscDone)
    case ThreadHandles(reader) =>
      var read := if s.thread.isr.mbox then reader.Takes(s.events) else 0;
      var notice := if s.thread.isr.fwError then 1 else 0;
      s.(events := s.events - read, notices := s.notices + notice,
         isrMisc := NONE, miscMasked := false, thread := MiscDone)
    case ThreadNotes => s.(irqen := true, thread := Enabling)
    case ThreadUnmasks => s.(pseudoMasked := false, thread := NotWoken)
    case PollRx(sniffer, memory) => PollRxDone(s, sniffer, memory)
    case UnmaskRx => s.(rx := Unmask(s.rx, IMC_RX))
    case PollTx => PollTxDone(s)
    case UnmaskTx => s.(tx := Unmask(s.tx, IMC_TX))
  }

  // --- what every step keeps, whatever hardware raises ---

  /** A receive source is masked exactly while its poll is due; otherwise just RX_DONE is not. */
  ghost predicate RxInv(s: State) {
    && s.rx.mask == (if s.rx.napi.Idle? then ALL_CAUSES.Without(IMC_RX) else ALL_CAUSES)
    && RxRing.Inv(s.ring)
  }

  /** A transmit source is masked while its poll is due. The converse can fail. */
  ghost predicate TxInv(s: State) {
    s.tx.mask == ALL_CAUSES || (s.tx.napi.Idle? && s.tx.mask == ALL_CAUSES.Without(IMC_TX))
  }

  ghost predicate MiscInv(s: State) {
    && (!s.pseudoMasked || s.thread.Enabling? ==> s.irqen)
    && (s.pseudoMasked <==> !s.thread.NotWoken?)
    && (s.miscMasked <==> s.thread.Woken? || s.thread.Handling?)
    && (s.isrMisc != NONE <==> s.thread.Woken? || s.thread.Handling?)
    && (s.thread.Handling? ==> s.thread.isr == s.isrMisc)
  }

  ghost predicate Inv(s: State) {
    RxInv(s) && TxInv(s) && MiscInv(s)
  }

  /** As left by `wil6210_enable_irq`, with a receive ring of `size` places and `rings` empty
      transmit rings. */
  function Start(size: nat, rings: nat): State {
    State(Line(NO_CAUSE, ALL_CAUSES.Without(IMC_RX), Idle), RxRing.Rx(size, [], 0, [], [], []),
          Line(NO_CAUSE, ALL_CAUSES.Without(IMC_TX), Idle), seq(rings, _ => []),
          NONE, false, NONE, 0, 0, false, true, NotWoken)
  }

  lemma StartInv(size: nat, rings: nat)
    requires size > 0
    ensures Inv(Start(size, rings)) && TxServed(Start(size, rings))
    ensures forall w :: !Holds(w, Start(size, rings))
  {
    assert RxRing.Bufs([]) == [] == RxRing.UpTo(0);
  }

  lemma RxStepKeeps(s: State, st: Step)
    requires Inv(s) && Enabled(s, st)
    ensures RxInv(Do(s, st))
  {
    match st
    case RxFrame(k, desc) =>
      assert RxRing.Bufs(Do(s, st).ring.posted) == RxRing.Bufs(s.ring.posted);
    case PollRx(sniffer, memory) =>
      var handled := RxRing.Handle(s.ring, BUDGET, sniffer);
      RxRing.HandleKeeps(s.ring, BUDGET, sniffer);
      RxRing.RefillKeeps(handled, handled.size, memory);
      hide RxRing.Inv, RxRing.Handle, RxRing.Refill;
    case _ =>
      hide RxRing.Inv;
  }

  lemma OtherStepKeeps(s: State, st: Step)
    requires Inv(s) && Enabled(s, st)
    ensures TxInv(Do(s, st)) && MiscInv(Do(s, st))
  {
    hide RxRing.Inv, PollRxDone, PollTxDone;
    match st
    case HardIrq(rx, tx, misc) => hide RxInv;
    case PollRx(sniffer, memory) => PollsKeepRest(s, sniffer, memory);
    case PollTx => PollsKeepRest(s, false, 0);
    case _ =>
  }

  lemma PollsKeepRest(s: State, sniffer: bool, memory: nat)
    ensures var t := PollRxDone(s, sniffer, memory); t == s.(ring := t.ring, rx := s.rx.(napi := t.rx.napi))
    ensures var t := PollTxDone(s); t == s.(queues := t.queues, tx := s.tx.(napi := t.tx.napi)) && !t.tx.napi.Idle?
  {
  }

  lemma StepKeeps(s: State, st: Step)
    requires Inv(s) && Enabled(s, st)
    ensures Inv(Do(s, st))
  {
    RxStepKeeps(s, st);
    OtherStepKeeps(s, st);
  }

  /** What waits to be handled by the interrupt thread is never overwritten. */
  lemma IsrMiscKept(s: State, st: Step)
    requires Inv(s) && Enabled(s, st)
    ensures s.isrMisc != NONE && !st.ThreadHandles? ==> Do(s, st).isrMisc == s.isrMisc
  {
    hide RxInv, PollRxDone, PollTxDone;
    PollsKeepRest(s, if st.PollRx? then st.sniffer else false, if st.PollRx? then st.memory else 0);
  }

  // --- runs ---

  ghost predicate RunEnabled(s: State, steps: seq<Step>)
    decreases |steps|, 0
  {
    steps == []
    || (var n := |steps| - 1; RunEnabled(s, steps[..n]) && Enabled(Run(s, steps[..n]), steps[n]))
  }

  function Run(s: State, steps: seq<Step>): State
    requires RunEnabled(s, steps)
    decreases |steps|, 1
  {
    if steps == [] then s
    else
      var n := |steps| - 1;
      Do(Run(s, steps[..n]), steps[n])
  }

  lemma {:induction false} PrefixEnabled(s: State, steps: seq<Step>, i: nat)
    requires RunEnabled(s, steps) && i <= |steps|
    ensures RunEnabled(s, steps[..i])
    decreases |steps|
  {
    if i == |steps| {
      assert steps[..i] == steps;
    } else {
      var n := |steps| - 1;
      hide Enabled, Do;
      PrefixEnabled(s, steps[..n], i);
      assert steps[..n][..i] == steps[..i];
    }
  }

  /** The state before step i of a run. */
  function Before(s: State, steps: seq<Step>, i: nat): State
    requires RunEnabled(s, steps) && i <= |steps|
  {
    PrefixEnabled(s, steps, i);
    Run(s, steps[..i])
  }

  lemma {:induction false} RunKeeps(s: State, steps: seq<Step>)
    requires Inv(s) && RunEnabled(s, steps)
    ensures Inv(Run(s, steps))
  {
    if steps == [] {
    } else {
      var n := |steps| - 1;
      hide Inv, Do, Enabled;
      RunKeeps(s, steps[..n]);
      StepKeeps(Run(s, steps[..n]), steps[n]);
    }
  }

  // --- what can be forgotten, exactly ---

  /** Finished frames in the receive ring, or events in the mailbox, and nothing under way that
      will look at them; a transmit source masked with no poll to unmask it. */
  datatype Worry = FramesForgotten | EventsForgotten | TxStuck

  ghost predicate Holds(w: Worry, s: State) {
    match w
    case FramesForgotten => RxRing.Ready(s.ring) && !s.rx.icr.done && !s.rx.napi.Scheduled?
    case EventsForgotten => s.events > 0 && !s.misc.mbox && !s.isrMisc.mbox
    case TxStuck => s.tx.Stuck()
  }

  /** The step that brings it about: a poll that meets a refused frame too early, a reading of
      the mailbox that returns early, an interrupt for TX_DONE_N(0) without TX_DONE. */
  ghost predicate Arises(w: Worry, s: State, st: Step) {
    match w
    case FramesForgotten =>
      st.PollRx? && !s.rx.icr.done && !st.sniffer && RxRing.RefusedEarly(s.ring.posted)
    case EventsForgotten =>
      st.ThreadHandles? && s.thread.Handling? && s.thread.isr.mbox && st.reader.ReturnsEarly(s.events) && !s.misc.mbox
    case TxStuck => st.HardIrq? && st.tx && !s.tx.icr.done
  }

  /** The step that ends it: the next frame or event. A stuck transmit source stays stuck. */
  predicate Settles(w: Worry, st: Step) {
    match w
    case FramesForgotten => st.RxFrame? || (st.RaiseRx? && st.causes.done)
    case EventsForgotten => st.MailEvent? || (st.RaiseMisc? && st.cause.mbox)
    case TxStuck => false
  }

  lemma FramesPoll(s: State, sniffer: bool, memory: nat)
    requires RxInv(s)
    ensures RxRing.Ready(PollRxDone(s, sniffer, memory).ring) && PollRxDone(s, sniffer, memory).rx.napi.Completed?
            <==> !sniffer && RxRing.RefusedEarly(s.ring.posted)
    ensures PollRxDone(s, sniffer, memory).rx.icr == s.rx.icr && !PollRxDone(s, sniffer, memory).rx.napi.Idle?
  {
    var handled := RxRing.Handle(s.ring, BUDGET, sniffer);
    RxRing.PollLeavesFramesIff(s.ring, BUDGET, sniffer);
    RxRing.RefillKeepsReady(handled, handled.size, memory);
    hide RxRing.Inv, RxRing.Handle, RxRing.Refill, RxRing.RefusedEarly, RxRing.Ready;
  }

  lemma FramesStep(s: State, st: Step)
    requires Inv(s) && Enabled(s, st)
    ensures var w := FramesForgotten; Holds(w, Do(s, st)) <==> Arises(w, s, st) || (Holds(w, s) && !Settles(w, st))
  {
    hide RxRing.Inv, RxRing.RefusedEarly, PollRxDone, PollTxDone;
    if st.PollRx? {
      FramesPoll(s, st.sniffer, st.memory);
    } else {
      PollsKeepRest(s, false, 0);
    }
  }

  lemma EventsStep(s: State, st: Step)
    requires Inv(s) && Enabled(s, st)
    ensures var w := EventsForgotten; Holds(w, Do(s, st)) <==> Arises(w, s, st) || (Holds(w, s) && !Settles(w, st))
  {
    hide RxInv, PollRxDone, PollTxDone;
    PollsKeepRest(s, if st.PollRx? then st.sniffer else false, if st.PollRx? then st.memory else 0);
  }

  lemma StuckStep(s: State, st: Step)
    requires Inv(s) && Enabled(s, st)
    ensures var w := TxStuck; Holds(w, Do(s, st)) <==> Arises(w, s, st) || (Holds(w, s) && !Settles(w, st))
  {
    hide RxInv, PollRxDone, PollTxDone;
    PollsKeepRest(s, if st.PollRx? then st.sniffer else false, if st.PollRx? then st.memory else 0);
  }

  /** No step from the i-th on ends it. */
  ghost predicate Quiet(w: Worry, steps: seq<Step>, i: nat) {
    forall j :: i <= j < |steps| ==> !Settles(w, steps[j])
  }

  /** It arises at step i and none of the later ones ends it. */
  ghost predicate ArisesForGood(w: Worry, s: State, steps: seq<Step>, i: nat)
    requires RunEnabled(s, steps)
  {
    i < |steps| && Arises(w, Before(s, steps, i), steps[i]) && Quiet(w, steps, i + 1)
  }

  /** The history that leads to it. */
  ghost predicate Comes(w: Worry, s: State, steps: seq<Step>)
    requires RunEnabled(s, steps)
  {
    (Holds(w, s) && Quiet(w, steps, 0)) || exists i: nat :: ArisesForGood(w, s, steps, i)
  }

  lemma BeforePrefix(s: State, steps: seq<Step>, n: nat, i: nat)
    requires RunEnabled(s, steps) && i <= n <= |steps|
    ensures RunEnabled(s, steps[..n]) && Before(s, steps[..n], i) == Before(s, steps, i)
  {
    hide Run, RunEnabled;
    PrefixEnabled(s, steps, n);
    assert steps[..n][..i] == steps[..i];
  }

  lemma QuietLast(w: Worry, steps: seq<Step>, i: nat)
    requires i < |steps|
    ensures Quiet(w, steps, i) <==> Quiet(w, steps[..|steps| - 1], i) && !Settles(w, steps[|steps| - 1])
  {
    hide Settles;
    var n := |steps| - 1;
    assert forall j :: 0 <= j < n ==> steps[..n][j] == steps[j];
  }

  lemma ArisesLast(w: Worry, s: State, steps: seq<Step>, i: nat)
    requires RunEnabled(s, steps) && i < |steps| - 1
    ensures RunEnabled(s, steps[..|steps| - 1])
    ensures ArisesForGood(w, s, steps, i)
            <==> ArisesForGood(w, s, steps[..|steps| - 1], i) && !Settles(w, steps[|steps| - 1])
  {
    hide Run, RunEnabled, Before, Arises, Settles, Quiet;
    BeforePrefix(s, steps, |steps| - 1, i);
    QuietLast(w, steps, i + 1);
  }

  lemma ArisesAtEnd(w: Worry, s: State, steps: seq<Step>, i: nat)
    requires RunEnabled(s, steps) && i >= |steps| - 1 >= 0
    ensures RunEnabled(s, steps[..|steps| - 1]) && !ArisesForGood(w, s, steps[..|steps| - 1], i)
    ensures ArisesForGood(w, s, steps, i)
            <==> i == |steps| - 1 && Arises(w, Run(s, steps[..|steps| - 1]), steps[|steps| - 1])
  {
  }

  lemma ComesLast(w: Worry, s: State, steps: seq<Step>)
    requires RunEnabled(s, steps) && steps != []
    ensures var n := |steps| - 1;
            && RunEnabled(s, steps[..n])
            && (Comes(w, s, steps) <==> Arises(w, Run(s, steps[..n]), steps[n])
                                        || (Comes(w, s, steps[..n]) && !Settles(w, steps[n])))
  {
    hide Run, RunEnabled, Arises, Settles, Holds, Quiet, ArisesForGood;
    var n := |steps| - 1;
    QuietLast(w, steps, 0);
    ArisesAtEnd(w, s, steps, n);
    if i: nat :| ArisesForGood(w, s, steps, i) {
      if i < n { ArisesLast(w, s, steps, i); } else { ArisesAtEnd(w, s, steps, i); }
    }
    if i: nat :| ArisesForGood(w, s, steps[..n], i) {
      if i < n { ArisesLast(w, s, steps, i); } else { ArisesAtEnd(w, s, steps, i); }
    }
  }

  /** In every run, whatever hardware raises: frames or events lie forgotten at the end if and
      only if a poll or a reading that leaves some behind was not followed by another frame or
      event, and the transmit source is stuck if and only if at some time an interrupt found
      TX_DONE_N(0) without TX_DONE. */
  lemma {:induction false} ForgottenIff(w: Worry, s: State, steps: seq<Step>)
    requires Inv(s) && RunEnabled(s, steps)
    ensures Holds(w, Run(s, steps)) <==> Comes(w, s, steps)
  {
    if steps == [] {
    } else {
      var n := |steps| - 1;
      hide Inv, Do, Enabled, Holds, Arises, Settles, Comes;
      ForgottenIff(w, s, steps[..n]);
      RunKeeps(s, steps[..n]);
      ComesLast(w, s, steps);
      var t := Run(s, steps[..n]);
      match w
      case FramesForgotten => FramesStep(t, steps[n]);
      case EventsForgotten => EventsStep(t, steps[n]);
      case TxStuck => StuckStep(t, steps[n]);
    }
  }

  /** From the start on there is no other way: one of the steps that bring it about has happened,
      and none that ends it since. */
  lemma ForgottenFromStart(w: Worry, size: nat, rings: nat, steps: seq<Step>)
    requires size > 0 && RunEnabled(Start(size, rings), steps)
    ensures Holds(w, Run(Start(size, rings), steps))
            <==> exists i: nat :: ArisesForGood(w, Start(size, rings), steps, i)
  {
    StartInv(size, rings);
    hide Inv, Holds, ArisesForGood, Start, TxServed;
    ForgottenIff(w, Start(size, rings), steps);
  }

  /** The receive source never gets stuck, the line and the Misc source are masked only while the
      thread is due to unmask them, and the branch that throws latched causes away is never
      entered. */
  lemma MasksAreLifted(s: State, steps: seq<Step>)
    requires Inv(s) && RunEnabled(s, steps)
    ensures var t := Run(s, steps);
            && !t.rx.Stuck()
            && (t.pseudoMasked || t.miscMasked ==> !t.thread.NotWoken?)
            && (forall rx, tx, misc :: Enabled(t, HardIrq(rx, tx, misc)) ==> t.irqen)
  {
    RunKeeps(s, steps);
  }

  // --- polling ---

  /** Every receive poll fills the ring up again, given memory. */
  lemma PollRefills(s: State, sniffer: bool, memory: nat)
    requires Inv(s) && Enabled(s, PollRx(sniffer, memory)) && memory >= s.ring.size
    ensures |Do(s, PollRx(sniffer, memory)).ring.posted| == s.ring.size - 1
  {
    RxRing.HandleKeeps(s.ring, BUDGET, sniffer);
    RxRing.RefillBySize(RxRing.Handle(s.ring, BUDGET, sniffer), memory);
    hide RxRing.Inv, RxRing.Handle, RxRing.Refill;
  }

  lemma RxPollEndsOrShrinks(s: State, sniffer: bool)
    requires Inv(s)
    ensures var t := PollRxDone(s, sniffer, 0);
            t.rx.napi.Completed? || (t.rx.napi.Scheduled? && |t.ring.posted| + 2 <= |s.ring.posted|)
  {
    RxRing.HandleExactly(s.ring, BUDGET, sniffer);
    hide RxRing.Inv, RxRing.Handle;
  }

  /** Receive polling comes to an end and lifts its mask, even if no memory is found. */
  lemma {:induction false} RxPollingEnds(s: State, sniffer: bool) returns (steps: seq<Step>)
    requires Inv(s) && s.rx.napi.Scheduled?
    ensures RunEnabled(s, steps) && 2 * |steps| <= |s.ring.posted| + 4
    ensures forall st :: st in steps ==> st == PollRx(sniffer, 0) || st == UnmaskRx
    ensures var t := Run(s, steps); t.rx.napi.Idle? && t.rx.mask == ALL_CAUSES.Without(IMC_RX)
    decreases |s.ring.posted|
  {
    var poll := PollRx(sniffer, 0);
    var t := Do(s, poll);
    StepKeeps(s, poll);
    RxPollEndsOrShrinks(s, sniffer);
    if t.rx.napi.Completed? {
      steps := [poll, UnmaskRx];
      StepKeeps(t, UnmaskRx);
      RunTwo(s, poll, UnmaskRx);
      hide PollRxDone, RunEnabled, Run;
    } else {
      hide Inv, Do, Enabled;
      var rest := RxPollingEnds(t, sniffer);
      steps := [poll] + rest;
      RunFirst(s, poll, rest);
    }
  }

  lemma RunTwo(s: State, a: Step, b: Step)
    requires Enabled(s, a) && Enabled(Do(s, a), b)
    ensures RunEnabled(s, [a, b]) && Run(s, [a, b]) == Do(Do(s, a), b)
  {
    hide Enabled, Do;
    assert [b][..0] == [] && RunEnabled(Do(s, a), []) && Run(Do(s, a), []) == Do(s, a);
    assert RunEnabled(Do(s, a), [b]) && Run(Do(s, a), [b]) == Do(Do(s, a), b);
    RunFirst(s, a, [b]);
    assert [a] + [b] == [a, b];
  }

  lemma {:induction false} NothingToFree(queues: seq<seq<TxQueue.Slot>>)
    requires !TxWork(queues)
    ensures FreedBy(queues) == 0
  {
    hide TxQueue.FreeCount;
    if queues == [] {
    } else {
      forall i | 0 <= i < |queues[1..]|
        ensures TxQueue.FreeCount(queues[1..][i]) == 0
      {
        assert queues[1..][i] == queues[i + 1];
      }
      NothingToFree(queues[1..]);
    }
  }

  /** Transmit polling ends with the second poll at the latest, and lifts its mask. */
  lemma TxPollingEnds(s: State)
    requires Inv(s) && s.tx.napi.Scheduled?
    ensures var t := Do(s, PollTx);
            && (FreedBy(s.queues) <= 1 <==> t.tx.napi.Completed?)
            && (t.tx.napi.Completed? || (Enabled(t, PollTx) && Do(t, PollTx).tx.napi.Completed?))
    ensures var t := if FreedBy(s.queues) <= 1 then Do(s, PollTx) else Do(Do(s, PollTx), PollTx);
            Enabled(t, UnmaskTx) && Do(t, UnmaskTx).tx.napi.Idle?
            && Do(t, UnmaskTx).tx.mask == ALL_CAUSES.Without(IMC_TX)
  {
    CleanedHasNoWork(s.queues);
    NothingToFree(Cleaned(s.queues));
    hide TxWork, Cleaned, FreedBy, RxInv, MiscInv;
  }

  // --- transmit completions, with hardware that always sets TX_DONE ---

  ghost predicate TxWork(queues: seq<seq<TxQueue.Slot>>) {
    exists i :: 0 <= i < |queues| && TxQueue.FreeCount(queues[i]) > 0
  }

  predicate Disciplined(st: Step) {
    (st.TxDone? ==> st.causes.done) && (st.RaiseTx? && st.causes.first ==> st.causes.done)
  }

  /** No poll is missing, and what there is to clean up has been reported. */
  ghost predicate TxServed(s: State) {
    && (s.tx.icr.first ==> s.tx.icr.done)
    && !s.tx.Stuck()
    && (TxWork(s.queues) ==> s.tx.icr.done || s.tx.napi.Scheduled?)
  }

  /** Hardware that finishes a transfer, all earlier ones being finished, gives clean-up something
      to do, unless it is the first descriptor of the ring. */
  lemma DoneMakesWork(s: State, q: nat, k: nat, causes: Causes)
    requires Enabled(s, TxDone(q, k, causes)) && k > 0
    requires forall i :: 0 <= i < k ==> s.queues[q][i].desc.eop ==> s.queues[q][i].done
    ensures TxWork(Do(s, TxDone(q, k, causes)).queues)
  {
    var queue := Do(s, TxDone(q, k, causes)).queues[q];
    assert queue[k].done && forall i :: 0 <= i < k ==> queue[i].desc.eop ==> queue[i].done;
    assert TxQueue.LastDone(queue) >= k;
    assert TxQueue.FreeCount(queue) > 0;
  }

  lemma CleanedHasNoWork(queues: seq<seq<TxQueue.Slot>>)
    ensures !TxWork(Cleaned(queues))
  {
    hide TxQueue.FreeCount;
    forall i | 0 <= i < |queues|
      ensures TxQueue.FreeCount(Cleaned(queues)[i]) == 0
    {
      TxQueue.CleanUpIsDone(queues[i]);
    }
  }

  lemma SendAddsNoWork(queues: seq<seq<TxQueue.Slot>>, q: nat, slots: seq<TxQueue.Slot>)
    requires q < |queues| && forall i :: 0 <= i < |slots| ==> !slots[i].done
    ensures TxWork(queues[q := queues[q] + slots]) ==> TxWork(queues)
  {
    hide TxQueue.FreeCount;
    TxQueue.SendingFreesNothing(queues[q], slots);
    var next := queues[q := queues[q] + slots];
    if i :| 0 <= i < |next| && TxQueue.FreeCount(next[i]) > 0 {
      assert TxQueue.FreeCount(queues[i]) > 0;
    }
  }

  lemma TxStepServed(s: State, st: Step)
    requires Inv(s) && TxServed(s) && Enabled(s, st) && Disciplined(st)
    ensures TxServed(Do(s, st))
  {
    hide RxInv, PollRxDone, TxWork, Cleaned;
    match st
    case TxSend(q, slots) => SendAddsNoWork(s.queues, q, slots);
    case PollRx(sniffer, memory) => PollsKeepRest(s, sniffer, memory);
    case PollTx => CleanedHasNoWork(s.queues);
    case _ =>
  }

  /** No transmit wakeup is lost: after any run of such hardware, whatever clean-up could free has
      been reported or is about to be polled, and the source is not stuck. */
  lemma {:induction false} NoLostTxWakeup(s: State, steps: seq<Step>)
    requires Inv(s) && TxServed(s) && RunEnabled(s, steps) && forall st :: st in steps ==> Disciplined(st)
    ensures TxServed(Run(s, steps))
  {
    if steps == [] {
    } else {
      var n := |steps| - 1;
      assert steps[n] in steps;
      hide Inv, Do, Enabled, TxServed, Disciplined;
      NoLostTxWakeup(s, steps[..n]);
      RunKeeps(s, steps[..n]);
      TxStepServed(Run(s, steps[..n]), steps[n]);
    }
  }

  /** From the start on, with such hardware: nothing to clean up goes unreported. */
  lemma NoLostTxWakeupFromStart(size: nat, rings: nat, steps: seq<Step>)
    requires size > 0 && RunEnabled(Start(size, rings), steps) && forall st :: st in steps ==> Disciplined(st)
    ensures TxServed(Run(Start(size, rings), steps))
  {
    StartInv(size, rings);
    NoLostTxWakeup(Start(size, rings), steps);
  }

  /** Without it, the first completion of ring 0 can stop transmit clean-up for good: the source
      sticks, and from then on no run frees a descriptor. */
  lemma RingZeroAloneSticks(size: nat, rings: nat)
    requires size > 0
    ensures var steps := [RaiseTx(Causes(false, true, false)), HardIrq(false, true, false)];
            RunEnabled(Start(size, rings), steps) && Run(Start(size, rings), steps).tx.Stuck()
  {
    var steps := [RaiseTx(Causes(false, true, false)), HardIrq(false, true, false)];
    var s := Start(size, rings);
    assert steps[..1] == [steps[0]] && steps[..1][..0] == [];
    assert RunEnabled(s, []) && Run(s, []) == s;
    assert RunEnabled(s, [steps[0]]) && Run(s, [steps[0]]) == Do(s, steps[0]);
    assert steps[..|steps| - 1] == [steps[0]];
  }

  lemma OnlyCleanUpFrees(s: State, st: Step, q: nat)
    requires Enabled(s, st) && !st.PollTx? && q < |s.queues|
    ensures |Do(s, st).queues| == |s.queues| && |Do(s, st).queues[q]| >= |s.queues[q]|
  {
    hide PollRxDone;
    PollsKeepRest(s, if st.PollRx? then st.sniffer else false, if st.PollRx? then st.memory else 0);
  }

  lemma StuckStepFreesNothing(s: State, st: Step, q: nat)
    requires Inv(s) && s.tx.Stuck() && Enabled(s, st) && q < |s.queues|
    ensures var t := Do(s, st); t.tx.Stuck() && |t.queues| == |s.queues| && |t.queues[q]| >= |s.queues[q]|
  {
    assert !st.PollTx?;
    hide Inv, Do, Enabled;
    OnlyCleanUpFrees(s, st, q);
    StuckStep(s, st);
  }

  lemma {:induction false} StuckFreesNothing(s: State, steps: seq<Step>, q: nat)
    requires Inv(s) && s.tx.Stuck() && RunEnabled(s, steps) && q < |s.queues|
    ensures var t := Run(s, steps);
            t.tx.Stuck() && |t.queues| == |s.queues| && |t.queues[q]| >= |s.queues[q]|
  {
    if steps == [] {
    } else {
      var n := |steps| - 1;
      hide Inv, Do, Enabled;
      StuckFreesNothing(s, steps[..n], q);
      RunKeeps(s, steps[..n]);
      StuckStepFreesNothing(Run(s, steps[..n]), steps[n], q);
    }
  }

  // --- what is reported gets served ---

  datatype Source = Rx | Tx | Mailbox | FwErrors

  /** The source has something reported or under way. */
  ghost predicate Due(x: Source, s: State) {
    match x
    case Rx => s.rx.icr.done || s.rx.napi.Scheduled?
    case Tx => !s.tx.Stuck() && (s.tx.icr.done || s.tx.napi.Scheduled?)
    case Mailbox => s.misc.mbox || s.isrMisc.mbox
    case FwErrors => s.misc.fwError || s.isrMisc.fwError
  }

  /** The step that looks at the source's work. */
  ghost predicate Looks(x: Source, s: State, st: Step) {
    match x
    case Rx => st.PollRx?
    case Tx => st.PollTx?
    case Mailbox => st.ThreadHandles? && s.thread.Handling? && s.thread.isr.mbox
    case FwErrors => Enabled(s, st) && Do(s, st).notices > s.notices
  }

  function ThreadLeft(t: Thread): nat {
    match t
    case NotWoken => 0
    case Woken => 4
    case Handling(_) => 3
    case MiscDone => 2
    case Enabling => 1
  }

  /** The driver steps that are still to come before the work is looked at. */
  function Distance(x: Source, s: State): nat {
    match x
    case Rx => if s.rx.napi.Scheduled? then 0 else 1 + ThreadLeft(s.thread) + if s.rx.napi.Completed? then 1 else 0
    case Tx => if s.tx.napi.Scheduled? then 0 else 1 + ThreadLeft(s.thread) + if s.tx.napi.Completed? then 1 else 0
    case Mailbox => if s.isrMisc.mbox then ThreadLeft(s.thread) else 5 + ThreadLeft(s.thread)
    case FwErrors => if s.isrMisc.fwError then ThreadLeft(s.thread) else 5 + ThreadLeft(s.thread)
  }

  /** The next driver step on the way. */
  function Serve(x: Source, s: State): Step {
    if x.Rx? && s.rx.napi.Scheduled? then PollRx(false, 0)
    else if x.Rx? && s.rx.napi.Completed? then UnmaskRx
    else if x.Tx? && s.tx.napi.Scheduled? then PollTx
    else if x.Tx? && s.tx.napi.Completed? then UnmaskTx
    else
      match s.thread
      case NotWoken => HardIrq(x.Rx?, x.Tx?, x.Mailbox? || x.FwErrors?)
      case Woken => ThreadReads
      case Handling(_) => ThreadHandles(Reader(true, s.events, s.events))
      case MiscDone => ThreadNotes
      case Enabling => ThreadUnmasks
  }

  /** From every reachable state, work that is reported gets looked at: a driver step is possible
      that either looks at it or brings that nearer. */
  lemma DueIsServed(x: Source, s: State)
    requires Inv(s) && Due(x, s)
    ensures Enabled(s, Serve(x, s))
    ensures Looks(x, s, Serve(x, s))
            || (Due(x, Do(s, Serve(x, s))) && Distance(x, Do(s, Serve(x, s))) < Distance(x, s))
  {
    hide PollRxDone, PollTxDone, RxRing.Inv;
  }

  /** The driver left to itself gets there. */
  lemma {:induction false} DueIsReached(x: Source, s: State) returns (steps: seq<Step>)
    requires Inv(s) && Due(x, s)
    ensures |steps| <= Distance(x, s)
    ensures RunEnabled(s, steps) && Enabled(Run(s, steps), Serve(x, Run(s, steps)))
    ensures Looks(x, Run(s, steps), Serve(x, Run(s, steps)))
    decreases Distance(x, s)
  {
    DueIsServed(x, s);
    var st := Serve(x, s);
    if Looks(x, s, st) {
      steps := [];
    } else {
      StepKeeps(s, st);
      hide Inv, Do, Due, Looks, Distance, Serve, Enabled;
      var rest := DueIsReached(x, Do(s, st));
      steps := [st] + rest;
      RunFirst(s, st, rest);
    }
  }

  lemma {:induction false} RunFirst(s: State, st: Step, steps: seq<Step>)
    requires Enabled(s, st) && RunEnabled(Do(s, st), steps)
    ensures RunEnabled(s, [st] + steps) && Run(s, [st] + steps) == Run(Do(s, st), steps)
  {
    hide Enabled, Do;
    var all := [st] + steps;
    if steps == [] {
      assert all[..0] == [];
      assert RunEnabled(s, []) && Run(s, []) == s;
    } else {
      assert all[..|all| - 1] == [st] + steps[..|steps| - 1];
      RunFirst(s, st, steps[..|steps| - 1]);
    }
  }

  /** The interrupt wakes the thread for every cause but FW_READY. */
  lemma WokenIff(s: State, rx: bool, tx: bool, misc: bool)
    requires Inv(s) && Enabled(s, HardIrq(rx, tx, misc))
    ensures var t := Do(s, HardIrq(rx, tx, misc));
            if misc && (s.misc.fwError || s.misc.mbox || s.misc.other) then t.thread.Woken?
            else t.thread.NotWoken? && !t.pseudoMasked && !t.miscMasked
  {
    hide RxInv;
  }

  // --- coming to rest ---

  /** Nothing is reported and nothing is under way. */
  ghost predicate AtRest(s: State) {
    && s.rx.napi.Idle? && s.tx.napi.Idle? && s.thread.NotWoken? && !s.pseudoMasked
    && !s.rx.Reported() && !s.tx.Reported() && !MiscReported(s)
  }

  /** What is left to do for a receive source with so many buffers posted. */
  function RxLeft(l: Line, posted: nat): nat {
    (if l.icr.done then 5 + posted else 0)
    + match l.napi case Scheduled => 3 + posted case Completed => 2 case Idle => 0
  }

  /** What is left to do for a transmit source when the next poll frees so many descriptors. */
  function TxLeft(l: Line, freed: nat): nat {
    (if l.icr.done || l.icr.first then 6 else 0)
    + match l.napi case Scheduled => (if freed > 1 then 4 else 3) case Completed => 2 case Idle => 0
  }

  function Left(s: State): nat {
    RxLeft(s.rx, |s.ring.posted|) + TxLeft(s.tx, FreedBy(s.queues)) + ThreadLeft(s.thread)
    + if s.misc.fwError || s.misc.fwReady || s.misc.mbox then 5 else 0
  }

  /** What the driver does next. */
  function NextStep(s: State): Step {
    match s.rx.napi
    case Scheduled => PollRx(false, 0)
    case Completed => UnmaskRx
    case Idle =>
      match s.tx.napi
      case Scheduled => PollTx
      case Completed => UnmaskTx
      case Idle =>
        match s.thread
        case NotWoken => HardIrq(s.rx.Reported(), s.tx.Reported(), MiscReported(s))
        case Woken => ThreadReads
        case Handling(_) => ThreadHandles(Reader(true, s.events, s.events))
        case MiscDone => ThreadNotes
        case Enabling => ThreadUnmasks
  }

  lemma RxPollShrinks(s: State)
    requires Inv(s)
    ensures |PollRxDone(s, false, 0).ring.posted| <= |s.ring.posted|
  {
    RxRing.HandleExactly(s.ring, BUDGET, false);
    hide RxRing.Inv, RxRing.Handle;
  }

  lemma RxPollIs(s: State)
    requires s.rx.napi.Scheduled?
    ensures Enabled(s, PollRx(false, 0)) && Do(s, PollRx(false, 0)) == PollRxDone(s, false, 0)
  {
    hide PollRxDone;
  }

  lemma RxPollLowers(s: State)
    requires Inv(s) && s.rx.napi.Scheduled?
    ensures var t := PollRxDone(s, false, 0);
            && RxLeft(t.rx, |t.ring.posted|) < RxLeft(s.rx, |s.ring.posted|)
            && t.tx == s.tx && t.queues == s.queues && t.misc == s.misc && t.thread == s.thread
  {
    RxPollEndsOrShrinks(s, false);
    RxPollShrinks(s);
    PollsKeepRest(s, false, 0);
    hide Inv, PollRxDone, PollTxDone;
  }

  lemma NextRxPoll(s: State)
    requires Inv(s) && s.rx.napi.Scheduled?
    ensures Left(Do(s, PollRx(false, 0))) < Left(s)
  {
    RxPollLowers(s);
    RxPollIs(s);
    hide Do, Enabled, PollRxDone, RxLeft, TxLeft, Inv, FreedBy;
  }

  lemma TxPollLowers(s: State)
    requires s.tx.napi.Scheduled?
    ensures var t := PollTxDone(s);
            && Enabled(s, PollTx) && t == Do(s, PollTx)
            && TxLeft(t.tx, FreedBy(t.queues)) < TxLeft(s.tx, FreedBy(s.queues))
            && t.rx == s.rx && t.ring == s.ring && t.misc == s.misc && t.thread == s.thread
  {
    CleanedHasNoWork(s.queues);
    NothingToFree(Cleaned(s.queues));
    hide FreedBy, Cleaned, TxWork;
  }

  lemma NextTxPoll(s: State)
    requires Inv(s) && s.tx.napi.Scheduled?
    ensures Left(Do(s, PollTx)) < Left(s)
  {
    TxPollLowers(s);
    hide Do, Enabled, PollTxDone, RxLeft, TxLeft, Inv, FreedBy;
  }

  lemma NextUnmask(s: State)
    ensures s.rx.napi.Completed? ==> Left(Do(s, UnmaskRx)) < Left(s)
    ensures s.tx.napi.Completed? ==> Left(Do(s, UnmaskTx)) < Left(s)
  {
    hide FreedBy;
  }

  lemma NextThread(s: State)
    requires Inv(s) && s.rx.napi.Idle? && s.tx.napi.Idle? && !s.thread.NotWoken?
    ensures Enabled(s, NextStep(s)) && Left(Do(s, NextStep(s))) < Left(s)
  {
    hide FreedBy, RxInv, PollRxDone, PollTxDone;
  }

  lemma IrqAnswers(s: State, rx: bool, tx: bool, misc: bool)
    requires Inv(s) && Enabled(s, HardIrq(rx, tx, misc))
    ensures var t := Do(s, HardIrq(rx, tx, misc));
            && t.rx == (if rx then LineIrq(s.rx) else s.rx) && t.tx == (if tx then LineIrq(s.tx) else s.tx)
            && t.ring == s.ring && t.queues == s.queues && t.misc == (if misc then NONE else s.misc)
            && (t.thread.NotWoken? || (misc && t.thread.Woken?))
  {
    hide LineIrq, RxInv, TxInv;
  }

  lemma NextIrq(s: State)
    requires Inv(s) && s.rx.napi.Idle? && s.tx.napi.Idle? && s.thread.NotWoken? && !AtRest(s)
    ensures Enabled(s, NextStep(s)) && Left(Do(s, NextStep(s))) < Left(s)
  {
    assert Enabled(s, NextStep(s)) by { hide RxInv, TxInv; }
    IrqAnswers(s, s.rx.Reported(), s.tx.Reported(), MiscReported(s));
    IrqLowers(s);
    hide Do, Enabled, Inv, FreedBy, LineIrq, RxLeft, TxLeft;
  }

  /** Answering what is reported leaves less to do on the line. */
  lemma IrqLowers(s: State)
    requires Inv(s) && s.rx.napi.Idle? && s.tx.napi.Idle?
    ensures s.rx.Reported() ==> RxLeft(LineIrq(s.rx), |s.ring.posted|) < RxLeft(s.rx, |s.ring.posted|)
    ensures s.tx.Reported() ==> TxLeft(LineIrq(s.tx), FreedBy(s.queues)) < TxLeft(s.tx, FreedBy(s.queues))
  {
    hide FreedBy, RxRing.Inv;
  }

  /** Each step of the driver leaves less to do. */
  lemma NextLowers(s: State)
    requires Inv(s) && !AtRest(s)
    ensures Enabled(s, NextStep(s)) && Left(Do(s, NextStep(s))) < Left(s)
  {
    hide Inv, AtRest, Left, Do;
    if s.rx.napi.Scheduled? {
      NextRxPoll(s);
    } else if s.rx.napi.Completed? {
      NextUnmask(s);
    } else if s.tx.napi.Scheduled? {
      NextTxPoll(s);
    } else if s.tx.napi.Completed? {
      NextUnmask(s);
    } else if s.thread.NotWoken? {
      NextIrq(s);
    } else {
      NextThread(s);
    }
  }

  /** Unless hardware raises more, the driver comes to rest: every cause is acknowledged, every
      poll ends, and the thread goes to sleep with the line unmasked. */
  lemma {:induction false} ComesToRest(s: State) returns (steps: seq<Step>)
    requires Inv(s)
    ensures RunEnabled(s, steps) && |steps| <= Left(s)
    ensures AtRest(Run(s, steps))
    decreases Left(s)
  {
    if AtRest(s) {
      steps := [];
    } else {
      NextLowers(s);
      StepKeeps(s, NextStep(s));
      hide Inv, Do, Enabled, AtRest, Left, NextStep;
      var rest := ComesToRest(Do(s, NextStep(s)));
      steps := [NextStep(s)] + rest;
      RunFirst(s, NextStep(s), rest);
    }
  }
}
