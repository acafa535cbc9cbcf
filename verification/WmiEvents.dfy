/**
 Events from firmware to their handlers: a mailbox interrupt makes the interrupt thread read
 the mailbox, move the events to a pending list and wake a worker, the worker handles them
 one by one (wmi.c, "WMI event receiving - theory of operations"). Firmware, interrupt thread
 and worker interleave.
 */
module WmiEvents {
  import opened MailboxRing

  /** What the interrupt thread holds between the ring and the next round of its loop. */
  datatype Hand<M> = Free | Carries(m: M) | Listed

  /** Whether the interrupt thread is in `wmi_recv_cmd`, and past its first test. */
  datatype Reading = Away | Called | Looping

  datatype Worker<M> = Asleep | Looking | Handling(m: M)

  /** `cause` is a mailbox interrupt that the thread has not yet acted on. */
  datatype State<M> = State(
    ring: Ring<M>, cause: bool, reading: Reading, hand: Hand<M>,
    pending: seq<M>, queued: bool, worker: Worker<M>, handled: seq<M>)

  datatype Action<M> =
    | RingStep(step: Step<M>)   // firmware posts and interrupts, or the interrupt thread reads
    | CallReader                // the thread takes the cause and calls `wmi_recv_cmd`
    | EnterLoop                 // the reset is complete
    | Refuse                    // it is not
    | FindEmpty                 // tail and head are the same
    | AddToList                 // `list_add_tail`
    | QueueWork                 // `queue_work`
    | WorkerStarts              // the workqueue runs the worker
    | TakeNext                  // `next_wmi_ev` finds an event
    | Handle                    // `wmi_event_handle`
    | WorkerEnds                // `next_wmi_ev` finds the list empty

  predicate FromFirmware<M>(st: Step<M>) {
    st.CheckSync? || st.CheckRoom? || st.GiveUp? || st.Write? || st.SetSync? || st.MoveHead?
  }

  ghost predicate Enabled<M>(s: State<M>, a: Action<M>)
    requires Shape(s.ring)
  {
    match a
    case RingStep(st) =>
      MailboxRing.Enabled(s.ring, st) && (FromFirmware(st) || (s.reading.Looping? && s.hand.Free?))
    case CallReader => s.cause && s.reading.Away?
    case EnterLoop => s.reading.Called?
    case Refuse => s.reading.Called?
    case FindEmpty => s.reading.Looping? && s.hand.Free? && s.ring.consumer.CIdle? && s.ring.tail == s.ring.head
    case AddToList => s.hand.Carries?
    case QueueWork => s.hand.Listed?
    case WorkerStarts => s.queued && s.worker.Asleep?
    case TakeNext => s.worker.Looking? && s.pending != []
    case Handle => s.worker.Handling?
    case WorkerEnds => s.worker.Looking? && s.pending == []
  }

  function Do<M>(s: State<M>, a: Action<M>): (next: State<M>)
    requires Shape(s.ring) && Enabled(s, a)
    ensures Shape(next.ring)
  {
    match a
    case RingStep(st) =>
      var t := s.(ring := MailboxRing.Do(s.ring, st));
      if st.MoveHead? then t.(cause := true)
      else if st.MoveTail? then t.(hand := Carries(s.ring.consumer.m))
      else if st.Abandon? then t.(reading := Away)
      else t
    case CallReader => s.(cause := false, reading := Called)
    case EnterLoop => s.(reading := Looping)
    case Refuse => s.(reading := Away)
    case FindEmpty => s.(reading := Away)
    case AddToList => s.(hand := Listed, pending := s.pending + [s.hand.m])
    case QueueWork => s.(hand := Free, queued := true)
    case WorkerStarts => s.(queued := false, worker := Looking)
    case TakeNext => s.(worker := Handling(s.pending[0]), pending := s.pending[1..])
    case Handle => s.(worker := Looking, handled := s.handled + [s.worker.m])
    case WorkerEnds => s.(worker := Asleep)
  }

  function InHand<M>(h: Hand<M>): seq<M> {
    if h.Carries? then [h.m] else []
  }

  function InWork<M>(w: Worker<M>): seq<M> {
    if w.Handling? then [w.m] else []
  }

  /** Everything firmware has posted, in the order of its way through the driver. */
  function Line<M>(s: State<M>): seq<M>
    requires Shape(s.ring)
  {
    s.handled + InWork(s.worker) + s.pending + InHand(s.hand) + Contents(s.ring)
  }

  /** The line is the posted history, and a waiting event has somebody to look after it. */
  ghost predicate Inv<M>(s: State<M>) {
    && MailboxRing.Inv(s.ring)
    && Line(s) == s.ring.produced
    && (s.pending != [] ==> s.queued || !s.worker.Asleep? || s.hand.Listed?)
    && (!s.hand.Free? ==> s.ring.consumer.CIdle? && s.reading.Looping?)
    && (!s.ring.consumer.CIdle? ==> s.reading.Looping?)
  }

  lemma RingStepKeeps<M>(s: State<M>, st: Step<M>)
    requires Inv(s) && Enabled(s, RingStep(st))
    ensures Inv(Do(s, RingStep(st)))
  {
    var r, d := s.ring, MailboxRing.Do(s.ring, st);
    var front := s.handled + InWork(s.worker) + s.pending;
    StepKeeps(r, st);
    if st.MoveTail? {
      MoveTailKeeps(r);
      assert front + InHand(s.hand) + ([r.consumer.m] + Contents(d)) == front + [r.consumer.m] + Contents(d);
    } else if st.MoveHead? {
      MoveHeadKeeps(r);
      assert Line(s) + [r.producer.m] == front + InHand(s.hand) + (Contents(r) + [r.producer.m]);
    } else {
      QuietStep(r, st);
    }
  }

  lemma QuietStep<M>(r: Ring<M>, st: Step<M>)
    requires MailboxRing.Inv(r) && MailboxRing.Enabled(r, st) && !st.MoveTail? && !st.MoveHead?
    ensures Contents(MailboxRing.Do(r, st)) == Contents(r) && MailboxRing.Do(r, st).produced == r.produced
    ensures FromFirmware(st) ==> MailboxRing.Do(r, st).consumer == r.consumer
  {
    if FromFirmware(st) { ProducerKeeps(r, st); } else { ConsumerKeeps(r, st); }
  }

  lemma ActionKeeps<M>(s: State<M>, a: Action<M>)
    requires Inv(s) && Enabled(s, a)
    ensures Inv(Do(s, a))
  {
    if a.RingStep? {
      RingStepKeeps(s, a.step);
    } else {
      LineStays(s, a);
      hide Line, Contents, MailboxRing.Inv;
    }
  }

  /** Outside the ring an event only changes hands. */
  lemma LineStays<M>(s: State<M>, a: Action<M>)
    requires Shape(s.ring) && Enabled(s, a) && !a.RingStep?
    ensures Line(Do(s, a)) == Line(s)
  {
    hide Contents, Line;
    match a
    case AddToList => AddKeepsLine(s);
    case TakeNext => TakeKeepsLine(s);
    case Handle => HandleKeepsLine(s);
    case RingStep(_) => assert false;
    case _ => SameLine(s, Do(s, a));
  }

  lemma SameLine<M>(s: State<M>, d: State<M>)
    requires Shape(s.ring) && d.ring == s.ring && d.handled == s.handled && d.pending == s.pending
    requires InWork(d.worker) == InWork(s.worker) && InHand(d.hand) == InHand(s.hand)
    ensures Line(d) == Line(s)
  {
  }

  lemma AddKeepsLine<M>(s: State<M>)
    requires Shape(s.ring) && s.hand.Carries?
    ensures Line(Do(s, AddToList)) == Line(s)
  {
    hide Contents;
    Regroup(s.handled + InWork(s.worker), s.pending, [s.hand.m], [], Contents(s.ring));
  }

  lemma TakeKeepsLine<M>(s: State<M>)
    requires Shape(s.ring) && s.worker.Looking? && s.pending != []
    ensures Line(Do(s, TakeNext)) == Line(s)
  {
    hide Contents;
    Regroup(s.handled, [s.pending[0]], s.pending[1..], InHand(s.hand), Contents(s.ring));
    assert s.handled + [] == s.handled && [s.pending[0]] + s.pending[1..] == s.pending;
  }

  lemma HandleKeepsLine<M>(s: State<M>)
    requires Shape(s.ring) && s.worker.Handling?
    ensures Line(Do(s, Handle)) == Line(s)
  {
    hide Contents;
    assert (s.handled + [s.worker.m]) + [] == s.handled + [s.worker.m];
  }

  lemma Regroup<M>(a: seq<M>, b: seq<M>, c: seq<M>, d: seq<M>, e: seq<M>)
    ensures a + b + c + d + e == a + (b + c) + d + e
    ensures a + b + c + d + e == (a + b) + c + (d + e)
    ensures c == [] ==> a + b + c + d + e == (a + b) + d + e && (a + b) + c == a + b
    ensures d == [] ==> a + b + c + d + e == a + (b + c) + e && a + (b + c) + d == a + (b + c)
  {
  }

  // --- runs ---

  ghost predicate RunEnabled<M>(s: State<M>, actions: seq<Action<M>>)
    requires Shape(s.ring)
    decreases |actions|
  {
    actions == [] || (Enabled(s, actions[0]) && RunEnabled(Do(s, actions[0]), actions[1..]))
  }

  function Run<M>(s: State<M>, actions: seq<Action<M>>): (last: State<M>)
    requires Shape(s.ring) && RunEnabled(s, actions)
    ensures Shape(last.ring)
    decreases |actions|
  {
    if actions == [] then s else Run(Do(s, actions[0]), actions[1..])
  }

  function Start<M>(n: nat, blank: M): State<M>
    requires n > 1
  {
    State(Empty(n, blank), false, Away, Free, [], false, Asleep, [])
  }

  /** In every interleaving the handled events, the one being handled, the pending list, the
      one in the interrupt thread's hands and the ring's entries are, in this order, exactly
      the events firmware posted: each handled at most once, in order, none lost, early
      returns included. */
  lemma {:induction false} RunKeeps<M>(s: State<M>, actions: seq<Action<M>>)
    requires Inv(s) && RunEnabled(s, actions)
    ensures var d := Run(s, actions);
            && Inv(d) && d.handled <= d.ring.produced
            && d.ring.produced == d.handled + InWork(d.worker) + d.pending + InHand(d.hand) + Contents(d.ring)
    decreases |actions|
  {
    if actions == [] {
    } else {
      ActionKeeps(s, actions[0]);
      hide Inv, Do, Enabled;
      RunKeeps(Do(s, actions[0]), actions[1..]);
    }
  }

  lemma FromTheStart<M>(n: nat, blank: M, actions: seq<Action<M>>)
    requires n > 1 && RunEnabled(Start(n, blank), actions)
    ensures Inv(Run(Start(n, blank), actions))
    ensures var d := Run(Start(n, blank), actions);
            d.pending != [] && d.hand.Free? ==> d.queued || !d.worker.Asleep?
  {
    EmptyInv(n, blank);
    RunKeeps(Start(n, blank), actions);
  }

  // --- what nobody will read ---

  /** There are events in the ring, and no reading of it is due or under way. */
  predicate Forgotten<M>(s: State<M>)
    requires Shape(s.ring)
  {
    Used(s.ring) > 0 && !s.cause && s.reading.Away?
  }

  /** `wmi_recv_cmd` returns early: before its loop, or with an event it cannot take. */
  predicate EarlyReturn<M>(a: Action<M>) {
    a.Refuse? || (a.RingStep? && a.step.Abandon?)
  }

  /** Firmware posts an event. */
  predicate Posts<M>(a: Action<M>) {
    a.RingStep? && a.step.MoveHead?
  }

  /** The ring is not empty, and no event was posted since the thread took the cause. */
  predicate LeavesEvents<M>(s: State<M>, a: Action<M>)
    requires Shape(s.ring)
  {
    EarlyReturn(a) && Used(s.ring) > 0 && !s.cause
  }

  lemma UsedBy<M>(r: Ring<M>, st: Step<M>)
    requires MailboxRing.Inv(r) && MailboxRing.Enabled(r, st)
    ensures Used(MailboxRing.Do(r, st)) == Used(r) + if st.MoveHead? then 1 else if st.MoveTail? then -1 else 0
  {
    if st.MoveHead? {
      MoveHeadKeeps(r);
    } else if st.MoveTail? {
      MoveTailKeeps(r);
    } else if FromFirmware(st) {
      ProducerKeeps(r, st);
    } else {
      ConsumerKeeps(r, st);
    }
  }

  lemma ForgottenStep<M>(s: State<M>, a: Action<M>)
    requires Inv(s) && Enabled(s, a)
    ensures Forgotten(Do(s, a)) <==> LeavesEvents(s, a) || (Forgotten(s) && !Posts(a))
  {
    if a.RingStep? { UsedBy(s.ring, a.step); }
    hide Line, MailboxRing.Inv, MailboxRing.Do, Contents;
  }

  /** The state before action i of a run. */
  function Before<M>(s: State<M>, actions: seq<Action<M>>, i: nat): (t: State<M>)
    requires Shape(s.ring) && RunEnabled(s, actions) && i <= |actions|
    ensures Shape(t.ring)
    decreases i
  {
    if i == 0 then s else Before(Do(s, actions[0]), actions[1..], i - 1)
  }

  ghost predicate NoPosts<M>(actions: seq<Action<M>>, i: nat) {
    forall j :: i <= j < |actions| ==> !Posts(actions[j])
  }

  /** Action i leaves events behind, and nothing is posted after it. */
  ghost predicate LeftForGood<M>(s: State<M>, actions: seq<Action<M>>, i: nat)
    requires Shape(s.ring) && RunEnabled(s, actions)
  {
    i < |actions| && LeavesEvents(Before(s, actions, i), actions[i]) && NoPosts(actions, i + 1)
  }

  lemma NoPostsFirst<M>(actions: seq<Action<M>>, i: nat)
    requires actions != []
    ensures NoPosts(actions[1..], i) <==> NoPosts(actions, i + 1)
    ensures NoPosts(actions, 0) <==> NoPosts(actions, 1) && !Posts(actions[0])
  {
    assert forall j :: 0 <= j < |actions| - 1 ==> actions[1..][j] == actions[j + 1];
    if NoPosts(actions[1..], i) {
      forall j | i + 1 <= j < |actions|
        ensures !Posts(actions[j])
      {
        assert !Posts(actions[1..][j - 1]);
      }
    }
  }

  lemma LeftFirst<M>(s: State<M>, actions: seq<Action<M>>, i: nat)
    requires Shape(s.ring) && RunEnabled(s, actions) && actions != []
    ensures LeftForGood(s, actions, i + 1) <==> LeftForGood(Do(s, actions[0]), actions[1..], i)
    ensures LeftForGood(s, actions, 0) <==> LeavesEvents(s, actions[0]) && NoPosts(actions, 1)
  {
    hide LeavesEvents, NoPosts, Do, Enabled, RunEnabled;
    NoPostsFirst(actions, i + 1);
    assert RunEnabled(Do(s, actions[0]), actions[1..]) && Enabled(s, actions[0]) by { RunHead(s, actions); }
  }

  lemma RunHead<M>(s: State<M>, actions: seq<Action<M>>)
    requires Shape(s.ring) && RunEnabled(s, actions) && actions != []
    ensures Enabled(s, actions[0]) && RunEnabled(Do(s, actions[0]), actions[1..])
  {
  }

  /** In every run, events lie in the ring with nobody to read them if and only if an early return
      left them there, with no cause taken up in the meantime, and no event was posted since. */
  lemma {:induction false} ForgottenIff<M>(s: State<M>, actions: seq<Action<M>>)
    requires Inv(s) && RunEnabled(s, actions)
    ensures Forgotten(Run(s, actions))
            <==> (Forgotten(s) && NoPosts(actions, 0)) || exists i: nat :: LeftForGood(s, actions, i)
    decreases |actions|
  {
    if actions == [] {
    } else {
      var next, rest := Do(s, actions[0]), actions[1..];
      ActionKeeps(s, actions[0]);
      ForgottenStep(s, actions[0]);
      hide Inv, Do, Enabled, Forgotten, LeavesEvents, NoPosts, LeftForGood, Posts;
      ForgottenIff(next, rest);
      NoPostsFirst(actions, 0);
      LeftFirst(s, actions, 0);
      if i: nat :| LeftForGood(next, rest, i) { LeftFirst(s, actions, i); }
      if i: nat :| LeftForGood(s, actions, i) {
        if i > 0 { LeftFirst(s, actions, i - 1); }
      }
    }
  }

  /** Forgotten events are read and handled by no run, until firmware posts another one. */
  lemma ForgottenWaits<M>(s: State<M>, actions: seq<Action<M>>)
    requires Inv(s) && Forgotten(s) && RunEnabled(s, actions) && NoPosts(actions, 0)
    ensures Forgotten(Run(s, actions)) && Run(s, actions).handled != Run(s, actions).ring.produced
  {
    ForgottenIff(s, actions);
    RunKeeps(s, actions);
    var d := Run(s, actions);
    assert |Contents(d.ring)| > 0;
    assert |d.ring.produced| >= |d.handled| + |Contents(d.ring)|;
  }

  // --- nothing else is left lying about ---

  /** The actions by which the driver gets on with its work: no firmware step, and no early
      return of the interrupt thread. */
  predicate Works<M>(a: Action<M>) {
    !EarlyReturn(a) && (a.RingStep? ==> !FromFirmware(a.step))
  }

  function ConsumerLeft<M>(c: Consumer<M>): nat {
    match c
    case CIdle => 5
    case CWaiting => 4
    case CFull => 3
    case CCopied(_) => 2
    case CCleared(_) => 1
  }

  /** What the driver still has to do for the events it has. */
  function Work<M>(s: State<M>): nat
    requires Shape(s.ring)
  {
    20 * Used(s.ring) + ConsumerLeft(s.ring.consumer)
    + (if s.cause then 4 else 0)
    + (match s.reading case Away => 0 case Called => 3 case Looping => 2)
    + (match s.hand case Carries(_) => 10 case Listed => 3 case Free => 0)
    + 3 * |s.pending|
    + (if s.queued then 2 else 0)
    + (match s.worker case Asleep => 0 case Looking => 1 case Handling(_) => 3)
  }

  /** Every such action brings the driver closer to being done. */
  lemma WorkDecreases<M>(s: State<M>, a: Action<M>)
    requires Inv(s) && Enabled(s, a) && Works(a)
    ensures Work(Do(s, a)) < Work(s)
  {
    if a.RingStep? { UsedBy(s.ring, a.step); }
    hide Line, MailboxRing.Inv, Contents;
  }

  /** While an event has not been handled, and the ring is empty or its reading is due or under
      way, one of them is possible. */
  lemma WorkIsPossible<M>(s: State<M>) returns (a: Action<M>)
    requires Inv(s) && !Forgotten(s) && s.handled != s.ring.produced
    ensures Enabled(s, a) && Works(a)
  {
    if s.hand.Carries? {
      a := AddToList;
    } else if s.hand.Listed? {
      a := QueueWork;
    } else if s.worker.Handling? {
      a := Handle;
    } else if s.worker.Looking? {
      a := if s.pending == [] then WorkerEnds else TakeNext;
    } else if s.queued {
      a := WorkerStarts;
    } else if s.reading.Called? {
      a := EnterLoop;
    } else {
      assert Line(s) == s.handled + Contents(s.ring);
      assert Used(s.ring) > 0;
      if s.reading.Away? {
        a := CallReader;
      } else {
        var step := NextRead(s.ring);
        a := RingStep(step);
      }
    }
  }

  lemma NextRead<M>(r: Ring<M>) returns (st: Step<M>)
    requires MailboxRing.Inv(r) && Used(r) > 0
    ensures MailboxRing.Enabled(r, st) && !FromFirmware(st) && !st.Abandon?
  {
    HeadPlace(r);
    match r.consumer
    case CIdle => st := SeeHead;
    case CWaiting => assert r.sync[r.tail] == Marked(r, 0); st := SeeSync;
    case CFull => st := Copy;
    case CCopied(_) => st := ClearSync;
    case CCleared(_) => st := MoveTail;
  }

  /** From every reachable state without forgotten events the driver alone can finish: there is a
      run of its own actions after which every event posted so far has been handled. By
      `ForgottenWaits` there is none from the other states. */
  lemma {:induction false} CanFinish<M>(s: State<M>) returns (actions: seq<Action<M>>)
    requires Inv(s) && !Forgotten(s)
    ensures RunEnabled(s, actions) && (forall a :: a in actions ==> Works(a))
    ensures Run(s, actions).handled == s.ring.produced
    decreases Work(s)
  {
    if s.handled == s.ring.produced {
      actions := [];
    } else {
      var a := WorkIsPossible(s);
      ActionKeeps(s, a);
      WorkDecreases(s, a);
      KeepsHistory(s, a);
      ForgottenStep(s, a);
      hide Do, Inv, Works, Forgotten;
      var rest := CanFinish(Do(s, a));
      actions := [a] + rest;
    }
  }

  lemma KeepsHistory<M>(s: State<M>, a: Action<M>)
    requires Inv(s) && Enabled(s, a) && Works(a)
    ensures Do(s, a).ring.produced == s.ring.produced
    ensures !LeavesEvents(s, a)
  {
  }
}
