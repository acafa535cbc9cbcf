/**
 All the reordering sessions of the device: one per station and traffic id, created by ADDBA
 requests and block-ack status events, ended by replacement or disconnect. No frame is lost
 or delivered twice on the way, for any run and every window size that can be granted, and a
 session in the table delivers what it would deliver alone.
 */
module BlockAck {
  import opened Counting
  import opened ReorderConservation
  import opened ReorderCorrectness
  import opened ReorderMachine
  import opened ReorderRefinement
  import opened ReorderSession
  import opened SeqNum
  import opened Wrappers

  const MAX_CID := 8
  const TID_NUM := 16

  /** `tid_rx` of station `cid` and traffic id `tid`, in one row. */
  function Key(cid: nat, tid: nat): (i: nat)
    requires cid < MAX_CID && tid < TID_NUM
    ensures i < MAX_CID * TID_NUM
  {
    cid * TID_NUM + tid
  }

  /** The sessions, what has been handed to the network stack and freed so far, and the frames
      whose handling divided by zero. The driver does not survive the first of those; nothing
      below depends on what would follow it. */
  datatype Rx = Rx(sessions: seq<Option<Session>>, delivered: seq<Frame>, dropped: seq<Frame>, faulted: seq<Frame>)

  datatype Step =
    | Arrive(key: nat, frame: Frame)             // a received frame
    | End(key: nat)                              // the session, if any, is freed
    | Begin(key: nat, size: nat, ssn: Seq12)     // a new session in an empty place

  ghost predicate Enabled(rx: Rx, st: Step) {
    && |rx.sessions| == MAX_CID * TID_NUM && st.key < |rx.sessions|
    && (st.Begin? ==> rx.sessions[st.key].None? && LegalSize(st.size))
  }

  /** `wil_rx_reorder`, `wil_tid_ampdu_rx_free` and `wil_tid_ampdu_rx_alloc` in their places. */
  function Do(rx: Rx, st: Step): (next: Rx)
    requires Enabled(rx, st)
    ensures |next.sessions| == |rx.sessions|
    ensures rx.delivered <= next.delivered && rx.dropped <= next.dropped
  {
    var place := rx.sessions[st.key];
    match st
    case Arrive(_, f) =>
      if place.None? then rx.(delivered := rx.delivered + [f])
      else if RxFaults(place.value, f) then rx.(faulted := rx.faulted + [f])
      else
        var r := RxReorder(place.value, f);
        rx.(sessions := rx.sessions[st.key := Some(r.next)], delivered := rx.delivered + r.delivered,
            dropped := rx.dropped + r.dropped)
    case End(_) =>
      if place.None? then rx
      else rx.(sessions := rx.sessions[st.key := None], delivered := rx.delivered + Free(place.value).delivered)
    case Begin(_, size, ssn) =>
      rx.(sessions := rx.sessions[st.key := Some(Alloc(size, ssn))])
  }

  /** How often a frame is stored, over all sessions. */
  function Stored(sessions: seq<Option<Session>>, g: Frame): nat {
    if sessions == [] then 0
    else (if sessions[0].Some? then InSlots(sessions[0].value.buf, g) else 0) + Stored(sessions[1..], g)
  }

  lemma {:induction false} StoredUpdate(sessions: seq<Option<Session>>, i: nat, x: Option<Session>, g: Frame)
    requires i < |sessions|
    ensures Stored(sessions[i := x], g) + (if sessions[i].Some? then InSlots(sessions[i].value.buf, g) else 0)
            == Stored(sessions, g) + if x.Some? then InSlots(x.value.buf, g) else 0
  {
    if i > 0 {
      StoredUpdate(sessions[1..], i - 1, x, g);
      assert sessions[i := x][1..] == sessions[1..][i - 1 := x];
    } else {
      assert sessions[i := x][1..] == sessions[1..];
    }
  }

  /** Every session is well formed, of legal size, with its frames close to its head. */
  ghost predicate Sound(rx: Rx) {
    && |rx.sessions| == MAX_CID * TID_NUM
    && forall i :: 0 <= i < |rx.sessions| && rx.sessions[i].Some? ==>
         var s := rx.sessions[i].value; LegalSize(|s.buf|) && s.Valid() && Within(s, |s.buf|)
  }

  /** Where a frame is accounted for. */
  function Accounted(rx: Rx, g: Frame): nat {
    Count(rx.delivered, g) + Count(rx.dropped, g) + Count(rx.faulted, g) + Stored(rx.sessions, g)
  }

  lemma DoArrive(rx: Rx, st: Step, g: Frame)
    requires Enabled(rx, st) && Sound(rx) && st.Arrive?
    ensures Sound(Do(rx, st)) && Accounted(Do(rx, st), g) == Accounted(rx, g) + if st.frame == g then 1 else 0
  {
    hide LegalSize, Within, RxReorder, RxFaults, InSlots;
    var place, f := rx.sessions[st.key], st.frame;
    assert Count([f], g) == if f == g then 1 else 0;
    if place.None? {
      CountConcat(rx.delivered, [f], g);
    } else if RxFaults(place.value, f) {
      CountConcat(rx.faulted, [f], g);
    } else {
      var s := place.value;
      var r := RxReorder(s, f);
      RxReorderAccounts(s, f, g);
      RxReorderWithin(s, f);
      StoredUpdate(rx.sessions, st.key, Some(r.next), g);
      CountConcat(rx.delivered, r.delivered, g);
      CountConcat(rx.dropped, r.dropped, g);
    }
  }

  lemma DoEndOrBegin(rx: Rx, st: Step, g: Frame)
    requires Enabled(rx, st) && Sound(rx) && !st.Arrive?
    ensures Sound(Do(rx, st)) && Accounted(Do(rx, st), g) == Accounted(rx, g)
    ensures Do(rx, st).dropped == rx.dropped && Do(rx, st).faulted == rx.faulted
  {
    hide Within, Free;
    var place := rx.sessions[st.key];
    if st.End? {
      if place.Some? {
        FreeLosesNothing(place.value, g);
        StoredUpdate(rx.sessions, st.key, None, g);
        CountConcat(rx.delivered, Free(place.value).delivered, g);
      }
    } else {
      AllocWithin(st.size, st.ssn, g);
      StoredUpdate(rx.sessions, st.key, Some(Alloc(st.size, st.ssn)), g);
    }
  }

  // --- runs ---

  ghost predicate RunEnabled(rx: Rx, steps: seq<Step>)
    decreases |steps|
  {
    steps == [] || (Enabled(rx, steps[0]) && RunEnabled(Do(rx, steps[0]), steps[1..]))
  }

  function DoAll(rx: Rx, steps: seq<Step>): Rx
    requires RunEnabled(rx, steps)
    decreases |steps|
  {
    if steps == [] then rx else DoAll(Do(rx, steps[0]), steps[1..])
  }

  /** The frames received in a run. */
  function Received(steps: seq<Step>): seq<Frame> {
    if steps == [] then []
    else if steps[0].Arrive? then [steps[0].frame] + Received(steps[1..])
    else Received(steps[1..])
  }

  /** Over any run of frames, replacements and disconnects, every frame received is delivered
      once, dropped once, stored in one session or the cause of a division by zero, and nothing
      else ever is. */
  lemma {:induction false} RunAccounts(rx: Rx, steps: seq<Step>, g: Frame)
    requires Sound(rx) && RunEnabled(rx, steps)
    ensures Sound(DoAll(rx, steps))
    ensures Accounted(DoAll(rx, steps), g) == Accounted(rx, g) + Count(Received(steps), g)
    decreases |steps|
  {
    hide Do, Sound, Enabled, Accounted;
    if steps == [] {
    } else {
      var st := steps[0];
      if st.Arrive? {
        DoArrive(rx, st, g);
        CountConcat([st.frame], Received(steps[1..]), g);
        assert Count([st.frame], g) == if st.frame == g then 1 else 0;
      } else {
        DoEndOrBegin(rx, st, g);
      }
      RunAccounts(Do(rx, st), steps[1..], g);
    }
  }

  const NO_SESSIONS: Rx := Rx(seq(MAX_CID * TID_NUM, _ => None), [], [], [])

  lemma {:induction false} StoredNone(sessions: seq<Option<Session>>, g: Frame)
    requires forall i :: 0 <= i < |sessions| ==> sessions[i].None?
    ensures Stored(sessions, g) == 0
  {
    if sessions == [] {
    } else {
      StoredNone(sessions[1..], g);
    }
  }

  /** From the start, and once all sessions have ended, each frame received was delivered or
      dropped exactly as often as it was received, unless one caused a fault. */
  lemma EverythingComesOut(steps: seq<Step>, g: Frame)
    requires RunEnabled(NO_SESSIONS, steps)
    ensures var rx := DoAll(NO_SESSIONS, steps);
            && Count(Received(steps), g) == Accounted(rx, g)
            && (rx.faulted == [] && (forall i :: 0 <= i < |rx.sessions| ==> rx.sessions[i].None?)
                ==> Count(Received(steps), g) == Count(rx.delivered, g) + Count(rx.dropped, g))
  {
    StoredNone(NO_SESSIONS.sessions, g);
    RunAccounts(NO_SESSIONS, steps, g);
    var rx := DoAll(NO_SESSIONS, steps);
    if forall i :: 0 <= i < |rx.sessions| ==> rx.sessions[i].None? { StoredNone(rx.sessions, g); }
  }

  // --- faults ---

  /** A frame causes a fault exactly when its session has no slots and it is not behind the
      head (2047 of the 4096 numbers are). */
  lemma ArriveFaultsIff(rx: Rx, key: nat, f: Frame)
    requires Enabled(rx, Arrive(key, f))
    ensures Do(rx, Arrive(key, f)).faulted == rx.faulted
            <==> !(&& rx.sessions[key].Some? && |rx.sessions[key].value.buf| == 0
                   && (f.seqNum - rx.sessions[key].value.head) % SEQ_MODULO <= 2048)
  {
    if rx.sessions[key].Some? { FaultsIff(rx.sessions[key].value, f); }
    hide RxFaults;
    assert |rx.faulted + [f]| == |rx.faulted| + 1;
  }

  ghost predicate NoEmptySessions(rx: Rx) {
    forall i :: 0 <= i < |rx.sessions| && rx.sessions[i].Some? ==> |rx.sessions[i].value.buf| > 0
  }

  /** When no session without slots begins, none exists and nothing faults. */
  lemma {:induction false} NoFaults(rx: Rx, steps: seq<Step>)
    requires RunEnabled(rx, steps) && NoEmptySessions(rx)
    requires forall st :: st in steps && st.Begin? ==> st.size > 0
    ensures NoEmptySessions(DoAll(rx, steps)) && DoAll(rx, steps).faulted == rx.faulted
    decreases |steps|
  {
    if steps == [] {
    } else {
      var st := steps[0];
      if st.Arrive? { ArriveFaultsIff(rx, st.key, st.frame); }
      hide RxReorder, RxFaults, Free;
      assert steps[0] in steps;
      NoFaults(Do(rx, st), steps[1..]);
    }
  }

  // --- one session among the others ---

  /** The frames that arrive for a place, in order. */
  function At(steps: seq<Step>, key: nat): seq<Frame> {
    if steps == [] then []
    else if steps[0].Arrive? && steps[0].key == key then [steps[0].frame] + At(steps[1..], key)
    else At(steps[1..], key)
  }

  /** What the steps at a place hand to the network stack. */
  function DeliveredAt(rx: Rx, steps: seq<Step>, key: nat): seq<Frame>
    requires RunEnabled(rx, steps)
    decreases |steps|
  {
    if steps == [] then []
    else
      var next := Do(rx, steps[0]);
      (if steps[0].key == key then next.delivered[|rx.delivered|..] else []) + DeliveredAt(next, steps[1..], key)
  }

  /** What the steps at a place throw away. */
  function DroppedAt(rx: Rx, steps: seq<Step>, key: nat): seq<Frame>
    requires RunEnabled(rx, steps)
    decreases |steps|
  {
    if steps == [] then []
    else
      var next := Do(rx, steps[0]);
      (if steps[0].key == key then next.dropped[|rx.dropped|..] else []) + DroppedAt(next, steps[1..], key)
  }

  /** Frames that belong to no session all go to the network stack, as they come. */
  lemma {:induction false} NoSessionPassesAll(rx: Rx, steps: seq<Step>, key: nat)
    requires RunEnabled(rx, steps) && key < |rx.sessions| && rx.sessions[key].None?
    requires forall st :: st in steps && st.key == key ==> !st.Begin?
    ensures |DoAll(rx, steps).sessions| == |rx.sessions| && DoAll(rx, steps).sessions[key].None?
    ensures DeliveredAt(rx, steps, key) == At(steps, key) && DroppedAt(rx, steps, key) == []
    decreases |steps|
  {
    if steps == [] {
    } else {
      assert steps[0] in steps;
      hide RxReorder, RxFaults, Free;
      NoSessionPassesAll(Do(rx, steps[0]), steps[1..], key);
    }
  }

  lemma {:induction false} RunSessionFirst(s: Session, f: Frame, frames: seq<Frame>)
    requires |s.buf| > 0
    ensures var r := RxReorder(s, f);
            var t := RunSession(r.next, frames);
            RunSession(s, [f] + frames) == Outcome(t.next, r.delivered + t.delivered, r.dropped + t.dropped)
  {
    hide RxReorder;
    var all := [f] + frames;
    if frames == [] {
      assert all[..|all| - 1] == [];
      assert RunSession(s, []) == Outcome(s, [], []);
    } else {
      assert all[..|all| - 1] == [f] + frames[..|frames| - 1];
      RunSessionFirst(s, f, frames[..|frames| - 1]);
    }
  }

  lemma StepAt(rx: Rx, st: Step, key: nat, s: Session)
    requires Enabled(rx, st) && key < |rx.sessions| && rx.sessions[key] == Some(s) && |s.buf| > 0
    requires st.key == key ==> st.Arrive?
    ensures var next := Do(rx, st);
            if st.key == key
            then !RxFaults(s, st.frame)
                 && var r := RxReorder(s, st.frame);
                    next.sessions[key] == Some(r.next)
                    && next.delivered[|rx.delivered|..] == r.delivered && next.dropped[|rx.dropped|..] == r.dropped
            else next.sessions[key] == Some(s)
  {
    if st.key == key { FaultsIff(s, st.frame); }
    hide RxReorder, RxFaults, Free;
  }

  /** Whatever goes on at other places, a session in the table does what it would do alone. */
  lemma {:induction false} SessionAlone(rx: Rx, steps: seq<Step>, key: nat, s: Session)
    requires RunEnabled(rx, steps) && key < |rx.sessions| && rx.sessions[key] == Some(s) && |s.buf| > 0
    requires forall st :: st in steps && st.key == key ==> st.Arrive?
    ensures var r := RunSession(s, At(steps, key));
            && |DoAll(rx, steps).sessions| == |rx.sessions|
            && DoAll(rx, steps).sessions[key] == Some(r.next)
            && DeliveredAt(rx, steps, key) == r.delivered
            && DroppedAt(rx, steps, key) == r.dropped
    decreases |steps|
  {
    if steps == [] {
    } else {
      var st := steps[0];
      assert st in steps;
      StepAt(rx, st, key, s);
      hide RxReorder, RxFaults, Do, Enabled;
      if st.key == key {
        var r := RxReorder(s, st.frame);
        SessionAlone(Do(rx, st), steps[1..], key, r.next);
        hide RunSession;
        RunSessionFirst(s, st.frame, At(steps[1..], key));
      } else {
        SessionAlone(Do(rx, st), steps[1..], key, s);
      }
    }
  }

  /** With a right size, what a session in the table delivers from its beginning to its end is
      what the reordering machine releases: strictly increasing numbers, each frame once. */
  lemma SessionInTable(rx: Rx, key: nat, size: nat, ssn: Seq12, steps: seq<Step>)
    requires RightSize(size) && Enabled(rx, Begin(key, size, ssn))
    requires RunEnabled(Do(rx, Begin(key, size, ssn)), steps)
    requires forall st :: st in steps && st.key == key ==> st.Arrive?
    ensures var begun := Do(rx, Begin(key, size, ssn));
            var last := DoAll(begun, steps);
            var items := MachineItems(size, ssn, At(steps, key));
            && Enabled(last, End(key))
            && DeliveredAt(begun, steps, key) + Do(last, End(key)).delivered[|last.delivered|..] == FramesOf(items)
            && Ordered(items, ssn, Run(Machine(ssn, map[]), size, At(steps, key)).next.head + size)
  {
    BeginAt(rx, key, size, ssn);
    var begun := Do(rx, Begin(key, size, ssn));
    var frames := At(steps, key);
    hide RxReorder, RxFaults, Free, Alloc, Run, RunSession, Ordered, MachineItems, Do, Enabled, DoAll, RunEnabled;
    SessionAlone(begun, steps, key, Alloc(size, ssn));
    EndAt(DoAll(begun, steps), key, RunSession(Alloc(size, ssn), frames).next);
    hide DeliveredAt, DroppedAt, At, Count;
    SessionDelivers(size, ssn, frames, Frame(0, 0));
  }

  lemma BeginAt(rx: Rx, key: nat, size: nat, ssn: Seq12)
    requires Enabled(rx, Begin(key, size, ssn)) && size > 0
    ensures var next := Do(rx, Begin(key, size, ssn));
            && |next.sessions| == MAX_CID * TID_NUM && key < |next.sessions|
            && next.sessions[key] == Some(Alloc(size, ssn))
    ensures |Alloc(size, ssn).buf| == size
  {
  }

  lemma EndAt(rx: Rx, key: nat, s: Session)
    requires |rx.sessions| == MAX_CID * TID_NUM && key < |rx.sessions| && rx.sessions[key] == Some(s)
    ensures Enabled(rx, End(key)) && Do(rx, End(key)).delivered[|rx.delivered|..] == Free(s).delivered
  {
    hide Free;
  }

  /** The steps lead from one state to the other. */
  ghost predicate Leads(rx: Rx, steps: seq<Step>, to: Rx) {
    RunEnabled(rx, steps) && DoAll(rx, steps) == to
  }

  lemma LeadsOne(rx: Rx, st: Step)
    requires Enabled(rx, st)
    ensures Leads(rx, [st], Do(rx, st))
  {
    hide Enabled, Do;
    assert [st][1..] == [];
    assert DoAll(Do(rx, st), []) == Do(rx, st);
  }

  lemma {:induction false} LeadsConcat(rx: Rx, a: seq<Step>, mid: Rx, b: seq<Step>, to: Rx)
    requires Leads(rx, a, mid) && Leads(mid, b, to)
    ensures Leads(rx, a + b, to)
    decreases |a|
  {
    hide Do, Enabled;
    if a == [] {
      assert a + b == b;
    } else {
      LeadsConcat(Do(rx, a[0]), a[1..], mid, b, to);
      assert (a + b)[1..] == a[1..] + b;
    }
  }
}
