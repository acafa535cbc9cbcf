/**
 The handlers that create, replace and end reordering sessions: the queue of ADDBA requests
 and its worker, the block-ack status event and the per-station part of disconnecting.
 Each is shown to be a sequence of the steps of `BlockAck`. A request for a window of 0 is
 granted, and the next frame that is not behind the head then divides by zero; nothing else
 leads there.
 */
module BlockAckWorker {
  import opened BlockAck
  import opened ReorderMachine
  import opened ReorderSession
  import opened ReorderConservation
  import opened SeqNum
  import opened Wrappers

  import Stations

  /** `wil_pending_back`, as far as the decisions depend on it; `fwOk` and `memory` say how
      the firmware's answer and the allocation that follow will turn out. */
  datatype BackRequest = BackRequest(cidxtid: nat, baParamSet: nat, baSeqCtrl: nat, fwOk: bool, memory: bool)
  {
    function Cid(): nat { cidxtid % 16 }

    function Tid(): (tid: nat)
      ensures tid < TID_NUM
    {
      (cidxtid / 16) % 16
    }

    /** Bits 6..15 of the request. */
    function Asked(): nat { (baParamSet / 64) % 1024 }

    /** The window granted. */
    function Window(): (size: nat)
      ensures size <= 16 && (size == 0 <==> Asked() == 0)
    {
      if Asked() < 16 then Asked() else 16
    }

    /** The upper 12 bits of the 16-bit sequence control field. */
    function Ssn(): Seq12 {
      (baSeqCtrl / 16) % SEQ_MODULO
    }
  }

  /** The request a peer sends for a station and traffic id, asking for a window of `asked` from
      sequence number `ssn` on; `low` is the rest of the parameter set, `frag` the fragment
      number. */
  function Sent(cid: nat, tid: nat, low: nat, asked: nat, frag: nat, ssn: Seq12,
                fwOk: bool, memory: bool): BackRequest
  {
    BackRequest(cid + 16 * tid, low + 64 * asked, frag + 16 * ssn, fwOk, memory)
  }

  /** The driver reads what the peer has sent. */
  lemma ReadsWhatWasSent(cid: nat, tid: nat, low: nat, asked: nat, frag: nat, ssn: Seq12, fwOk: bool, memory: bool)
    requires cid < 16 && tid < 16 && low < 64 && asked < 1024 && frag < 16
    ensures var req := Sent(cid, tid, low, asked, frag, ssn, fwOk, memory);
            && req.Cid() == cid && req.Tid() == tid && req.Ssn() == ssn
            && req.Asked() == asked && req.Window() == if asked < 16 then asked else 16
  {
  }

  /** Requests of connected stations are answered; the answer has to get through. */
  predicate Accepted(req: BackRequest, status: seq<Stations.Status>)
    requires |status| == MAX_CID
  {
    req.Cid() < MAX_CID && status[req.Cid()] == Stations.Connected && req.fwOk
  }

  /** What `wil_back_handle` does to the sessions. */
  function BackSteps(req: BackRequest, status: seq<Stations.Status>): seq<Step>
    requires |status| == MAX_CID
  {
    if !Accepted(req, status) then []
    else RenewSteps(Key(req.Cid(), req.Tid()), req.memory, req.Window(), req.Ssn())
  }

  function QueueSteps(reqs: seq<BackRequest>, status: seq<Stations.Status>): seq<Step>
    requires |status| == MAX_CID
  {
    if reqs == [] then [] else BackSteps(reqs[0], status) + QueueSteps(reqs[1..], status)
  }

  /** End the session of a place and perhaps begin another. */
  function RenewSteps(key: nat, begin: bool, size: nat, ssn: Seq12): seq<Step> {
    [End(key)] + if begin then [Begin(key, size, ssn)] else []
  }

  /** What a block-ack status event does to the sessions of its station `cid`, from traffic id
      `tid` on: every session ends, and when the peer agreed to a window a new one begins at
      sequence number 0. */
  function StatusSteps(cid: nat, tid: nat, agreed: bool, size: nat, memory: seq<bool>): seq<Step>
    requires cid < MAX_CID && tid <= TID_NUM == |memory|
    decreases TID_NUM - tid
  {
    if tid == TID_NUM then []
    else
      RenewSteps(Key(cid, tid), agreed && size > 0 && memory[tid], size, 0)
      + StatusSteps(cid, tid + 1, agreed, size, memory)
  }

  /** The frames that freeing what is in a place delivers. */
  function FreedFrom(place: Option<Session>): seq<Frame> {
    if place.None? then [] else Free(place.value).delivered
  }

  /** What a block-ack status event leaves in a place of its station. */
  function Renewed(tid: nat, agreed: bool, size: nat, memory: seq<bool>): Option<Session>
    requires tid < |memory|
  {
    if agreed && size > 0 && memory[tid] then Some(Alloc(size, 0)) else None
  }

  /** What a block-ack status event for a ring does to the sessions. */
  function RingSteps(ringid: nat, agreed: bool, size: nat, memory: seq<bool>,
                     status: seq<Stations.Status>, vring2cid: seq<nat>): seq<Step>
    requires |status| == MAX_CID && |vring2cid| == Stations.MAX_TX_RINGS && |memory| == TID_NUM
  {
    if ringid >= Stations.MAX_TX_RINGS then []
    else
      var cid := vring2cid[ringid];
      if cid >= MAX_CID || status[cid] == Stations.Unused then [] else StatusSteps(cid, 0, agreed, size, memory)
  }

  function NoMemory(): (memory: seq<bool>)
    ensures |memory| == TID_NUM
  {
    seq(TID_NUM, _ => false)
  }

  class Wil {
    var tidRx: seq<Option<Session>>
    var status: seq<Stations.Status>
    var vring2cid: seq<nat>
    var backPending: seq<BackRequest>
    var delivered: seq<Frame>
    var dropped: seq<Frame>
    var faulted: seq<Frame>

    ghost predicate Valid()
      reads this
    {
      |tidRx| == MAX_CID * TID_NUM && |status| == MAX_CID && |vring2cid| == Stations.MAX_TX_RINGS
    }

    ghost function View(): Rx
      reads this
    {
      Rx(tidRx, delivered, dropped, faulted)
    }

    /** The sessions went through `steps`. */
    twostate predicate Took(steps: seq<Step>)
      reads this
    {
      Valid() && Leads(old(View()), steps, View())
    }

    constructor ()
      ensures Valid() && View() == NO_SESSIONS && backPending == []
    {
      tidRx := seq(MAX_CID * TID_NUM, _ => None);
      status := seq(MAX_CID, _ => Stations.Unused);
      vring2cid := seq(Stations.MAX_TX_RINGS, _ => 0);
      backPending, delivered, dropped, faulted := [], [], [], [];
    }

    /** `wil_rx_reorder` with the lookup of the session */
    method Receive(cid: nat, tid: nat, skb: Frame)
      requires Valid() && cid < MAX_CID && tid < TID_NUM
      modifies `tidRx, `delivered, `dropped, `faulted
      ensures Enabled(old(View()), Arrive(Key(cid, tid), skb))
      ensures View() == Do(old(View()), Arrive(Key(cid, tid), skb)) && Valid()
      ensures old(tidRx)[Key(cid, tid)].None? ==>
                delivered == old(delivered) + [skb] && unchanged(`tidRx, `dropped, `faulted)
    {
      var key := Key(cid, tid);
      match tidRx[key]
      case None =>
        delivered := delivered + [skb];
      case Some(s) =>
        if RxFaults(s, skb) {
          faulted := faulted + [skb];
          return;
        }
        var r := RxReorder(s, skb);
        tidRx := tidRx[key := Some(r.next)];
        delivered, dropped := delivered + r.delivered, dropped + r.dropped;
    }

    /** Take the session out of the table and free it. */
    method EndSession(key: nat)
      requires Valid() && key < |tidRx|
      modifies `tidRx, `delivered
      ensures Enabled(old(View()), End(key)) && View() == Do(old(View()), End(key)) && Valid()
      ensures tidRx[key].None?
    {
      if tidRx[key].Some? {
        delivered := delivered + Free(tidRx[key].value).delivered;
        tidRx := tidRx[key := None];
      }
    }

    method BeginSession(key: nat, size: nat, ssn: Seq12)
      requires Valid() && key < |tidRx| && tidRx[key].None? && LegalSize(size)
      modifies `tidRx
      ensures Enabled(old(View()), Begin(key, size, ssn)) && View() == Do(old(View()), Begin(key, size, ssn))
      ensures Valid()
    {
      tidRx := tidRx[key := Some(Alloc(size, ssn))];
    }

    /** `wil_rcp_addba_request`, when the request can be allocated */
    method RcpAddbaRequest(req: BackRequest)
      modifies `backPending
      ensures backPending == old(backPending) + [req]
    {
      backPending := backPending + [req];
    }

    /** `wil_back_handle` */
    method BackHandle(req: BackRequest)
      requires Valid()
      modifies `tidRx, `delivered
      ensures Took(BackSteps(req, status))
      ensures if req.Cid() < MAX_CID && status[req.Cid()] == Stations.Connected && req.fwOk
              then var key := Key(req.Cid(), req.Tid());
                   tidRx == old(tidRx)[key := if req.memory then Some(Alloc(req.Window(), req.Ssn())) else None]
              else unchanged(`tidRx, `delivered)
    {
      hide Do, Enabled, Leads;
      var cid, tid := req.Cid(), req.Tid();
      if cid >= MAX_CID || status[cid] != Stations.Connected || !req.fwOk {
        LeadsNowhere(View());
        return;
      }
      Renew(Key(cid, tid), req.memory, req.Window(), req.Ssn());
    }

    /** End the session of a place and, given memory, begin another. */
    method Renew(key: nat, begin: bool, size: nat, ssn: Seq12)
      requires Valid() && key < |tidRx| && LegalSize(size)
      modifies `tidRx, `delivered
      ensures Took(RenewSteps(key, begin, size, ssn))
      ensures tidRx == old(tidRx)[key := if begin then Some(Alloc(size, ssn)) else None]
      ensures delivered == old(delivered) + FreedFrom(old(tidRx)[key])
    {
      RenewOutcome(View(), key, begin, size, ssn);
      hide Do, Enabled, Leads;
      EndSession(key);
      LeadsOne(old(View()), End(key));
      ghost var mid := View();
      if begin {
        BeginSession(key, size, ssn);
        LeadsOne(mid, Begin(key, size, ssn));
        LeadsConcat(old(View()), [End(key)], mid, [Begin(key, size, ssn)], View());
      } else {
        assert [End(key)] + [] == [End(key)];
      }
    }

    /** `wil_back_worker`: the requests are handled in the order they came, until none is
        left. */
    method BackWorker()
      requires Valid()
      modifies `tidRx, `delivered, `backPending
      ensures backPending == [] && Took(QueueSteps(old(backPending), status))
    {
      ghost var done: seq<Step> := [];
      ghost var start := View();
      LeadsNowhere(start);
      hide Leads, BackSteps;
      while backPending != []
        invariant Valid() && Leads(start, done, View())
        invariant done + QueueSteps(backPending, status) == QueueSteps(old(backPending), status)
        decreases |backPending|
      {
        ghost var mid := View();
        var evt := backPending[0];
        backPending := backPending[1..];
        BackHandle(evt);
        LeadsConcat(start, done, mid, BackSteps(evt, status), View());
        done := done + BackSteps(evt, status);
      }
      assert done + [] == done;
    }

    /** The session part of `wmi_evt_ba_status` */
    method BaStatus(ringid: nat, agreed: bool, size: nat, memory: seq<bool>)
      requires Valid() && size < 256 && |memory| == TID_NUM
      modifies `tidRx, `delivered
      ensures Took(RingSteps(ringid, agreed, size, memory, status, vring2cid))
      ensures if ringid < |vring2cid| && vring2cid[ringid] < MAX_CID && status[vring2cid[ringid]] != Stations.Unused
              then forall i :: 0 <= i < |tidRx| ==>
                     tidRx[i] == var tid := i - TID_NUM * vring2cid[ringid];
                                 if 0 <= tid < TID_NUM then Renewed(tid, agreed, size, memory) else old(tidRx)[i]
              else unchanged(`tidRx, `delivered)
    {
      LeadsNowhere(View());
      hide Leads, StatusSteps, Renewed;
      if ringid >= Stations.MAX_TX_RINGS {
        return;
      }
      var cid := vring2cid[ringid];
      if cid >= MAX_CID {
        return;
      }
      if status[cid] == Stations.Unused {
        return;
      }
      RenewAll(cid, agreed, size, memory);
    }

    /** The loop over a station's sessions, as in `wmi_evt_ba_status` and, without new sessions,
        in `wil_disconnect_cid`. */
    method RenewAll(cid: nat, agreed: bool, size: nat, memory: seq<bool>)
      requires Valid() && cid < MAX_CID && size < 256 && |memory| == TID_NUM
      modifies `tidRx, `delivered
      ensures Took(StatusSteps(cid, 0, agreed, size, memory))
      ensures |tidRx| == |old(tidRx)|
      ensures forall i :: 0 <= i < |tidRx| ==>
                tidRx[i] == var tid := i - TID_NUM * cid;
                            if 0 <= tid < TID_NUM then Renewed(tid, agreed, size, memory) else old(tidRx)[i]
    {
      ghost var done: seq<Step> := [];
      ghost var start := View();
      LeadsNowhere(start);
      hide Leads, RenewSteps, Key;
      for tid := 0 to TID_NUM
        invariant Valid() && Leads(start, done, View())
        invariant done + StatusSteps(cid, tid, agreed, size, memory) == StatusSteps(cid, 0, agreed, size, memory)
      {
        ghost var mid := View();
        var key := Key(cid, tid);
        Renew(key, agreed && size > 0 && memory[tid], size, 0);
        ghost var steps := RenewSteps(key, agreed && size > 0 && memory[tid], size, 0);
        LeadsConcat(start, done, mid, steps, View());
        ghost var rest := StatusSteps(cid, tid + 1, agreed, size, memory);
        assert done + (steps + rest) == (done + steps) + rest;
        done := done + steps;
      }
      assert done + [] == done;
      forall i | 0 <= i < |tidRx|
        ensures tidRx[i] == var tid := i - TID_NUM * cid;
                            if 0 <= tid < TID_NUM then Renewed(tid, agreed, size, memory) else old(tidRx)[i]
      {
        TookAll(old(View()), View(), StatusSteps(cid, 0, agreed, size, memory));
        StatusOutcome(old(View()), cid, 0, agreed, size, memory, i);
      }
    }

    /** The session part of `wil_disconnect_cid` */
    method DisconnectCid(cid: nat)
      requires Valid() && cid < MAX_CID
      modifies `tidRx, `delivered, `status
      ensures Took(StatusSteps(cid, 0, false, 0, NoMemory()))
      ensures status == old(status)[cid := Stations.Unused]
      ensures forall i :: 0 <= i < |tidRx| ==>
                tidRx[i] == if Key(cid, 0) <= i < Key(cid, 0) + TID_NUM then None else old(tidRx)[i]
    {
      if status[cid] != Stations.Unused {
        status := status[cid := Stations.Unused];
      }
      RenewAll(cid, false, 0, NoMemory());
    }
  }

  lemma LeadsNowhere(rx: Rx)
    ensures Leads(rx, [], rx)
  {
  }

  lemma TookAll(rx: Rx, to: Rx, steps: seq<Step>)
    requires Leads(rx, steps, to)
    ensures RunEnabled(rx, steps) && DoAll(rx, steps) == to
  {
  }

  // --- runs of the handlers ---

  /** One call of a handler, with the station and ring tables as it finds them. */
  datatype Event =
    | Received(cid: nat, tid: nat, skb: Frame)
    | Request(req: BackRequest, status: seq<Stations.Status>)
    | Status(ringid: nat, agreed: bool, size: nat, memory: seq<bool>,
             status: seq<Stations.Status>, vring2cid: seq<nat>)
    | Gone(cid: nat)

  ghost predicate Proper(e: Event) {
    match e
    case Received(cid, tid, _) => cid < MAX_CID && tid < TID_NUM
    case Request(_, status) => |status| == MAX_CID
    case Status(_, _, size, memory, status, vring2cid) =>
      size < 256 && |memory| == TID_NUM && |status| == MAX_CID && |vring2cid| == Stations.MAX_TX_RINGS
    case Gone(cid) => cid < MAX_CID
  }

  function EventSteps(e: Event): seq<Step>
    requires Proper(e)
  {
    match e
    case Received(cid, tid, skb) => [Arrive(Key(cid, tid), skb)]
    case Request(req, status) => BackSteps(req, status)
    case Status(ringid, agreed, size, memory, status, vring2cid) =>
      RingSteps(ringid, agreed, size, memory, status, vring2cid)
    case Gone(cid) => StatusSteps(cid, 0, false, 0, NoMemory())
  }

  function AllSteps(events: seq<Event>): seq<Step>
    requires forall e :: e in events ==> Proper(e)
  {
    if events == [] then []
    else
      assert events[0] in events;
      EventSteps(events[0]) + AllSteps(events[1..])
  }

  ghost predicate Full(rx: Rx) {
    |rx.sessions| == MAX_CID * TID_NUM
  }

  ghost predicate Possible(rx: Rx, steps: seq<Step>) {
    Full(rx) && RunEnabled(rx, steps) && Full(DoAll(rx, steps))
  }

  /** Ending a session delivers what it holds; what the place holds afterwards is the new one, if
      any; nothing else changes. */
  lemma RenewOutcome(rx: Rx, key: nat, begin: bool, size: nat, ssn: Seq12)
    requires Full(rx) && key < |rx.sessions| && LegalSize(size)
    ensures var steps := RenewSteps(key, begin, size, ssn);
            && Possible(rx, steps)
            && DoAll(rx, steps) == rx.(sessions := rx.sessions[key := if begin then Some(Alloc(size, ssn)) else None],
                                       delivered := rx.delivered + FreedFrom(rx.sessions[key]))
  {
    hide Free, Alloc;
    var mid := Do(rx, End(key));
    LeadsOne(rx, End(key));
    if begin {
      LeadsOne(mid, Begin(key, size, ssn));
      LeadsConcat(rx, [End(key)], mid, [Begin(key, size, ssn)], Do(mid, Begin(key, size, ssn)));
    } else {
      assert [End(key)] + [] == [End(key)];
    }
  }

  lemma PossibleConcat(rx: Rx, a: seq<Step>, b: seq<Step>)
    requires Possible(rx, a) && Possible(DoAll(rx, a), b)
    ensures Possible(rx, a + b) && DoAll(rx, a + b) == DoAll(DoAll(rx, a), b)
  {
    var mid := DoAll(rx, a);
    LeadsConcat(rx, a, mid, b, DoAll(mid, b));
  }

  /** Every place of the station gets what the event says, from traffic id `tid` on, the others
      keep what they hold, and nothing is dropped. */
  lemma {:induction false} StatusOutcome(rx: Rx, cid: nat, tid: nat, agreed: bool, size: nat, memory: seq<bool>, i: nat)
    requires Full(rx) && cid < MAX_CID && tid <= TID_NUM == |memory| && LegalSize(size) && i < |rx.sessions|
    ensures Possible(rx, StatusSteps(cid, tid, agreed, size, memory))
    ensures var next := DoAll(rx, StatusSteps(cid, tid, agreed, size, memory));
            && next.dropped == rx.dropped && next.faulted == rx.faulted
            && next.sessions[i] == var t := i - TID_NUM * cid;
                                   if tid <= t < TID_NUM then Renewed(t, agreed, size, memory) else rx.sessions[i]
    decreases TID_NUM - tid
  {
    if tid == TID_NUM {
    } else {
      var key, begin := Key(cid, tid), agreed && size > 0 && memory[tid];
      var steps, rest := RenewSteps(key, begin, size, 0), StatusSteps(cid, tid + 1, agreed, size, memory);
      assert Key(cid, tid) == i <==> i - TID_NUM * cid == tid;
      hide RenewSteps, Possible, RunEnabled, DoAll, Alloc, FreedFrom, Key;
      RenewOutcome(rx, key, begin, size, 0);
      PossibleFull(rx, steps);
      StatusOutcome(DoAll(rx, steps), cid, tid + 1, agreed, size, memory, i);
      PossibleConcat(rx, steps, rest);
    }
  }

  /** After a disconnect the station has no session left, and the others are untouched. */
  lemma StatusEndsAll(rx: Rx, cid: nat, i: nat)
    requires Full(rx) && cid < MAX_CID && i < |rx.sessions|
    ensures var steps := StatusSteps(cid, 0, false, 0, NoMemory());
            && Possible(rx, steps)
            && DoAll(rx, steps).sessions[i] == if Key(cid, 0) <= i < Key(cid, 0) + TID_NUM then None else rx.sessions[i]
  {
    hide StatusSteps, DoAll, RunEnabled;
    StatusOutcome(rx, cid, 0, false, 0, NoMemory(), i);
  }

  lemma PossibleFull(rx: Rx, steps: seq<Step>)
    requires Possible(rx, steps)
    ensures RunEnabled(rx, steps) && Full(DoAll(rx, steps))
  {
  }

  lemma EventPossible(rx: Rx, e: Event)
    requires Full(rx) && Proper(e)
    ensures Possible(rx, EventSteps(e))
  {
    match e
    case Received(cid, tid, skb) => LeadsOne(rx, Arrive(Key(cid, tid), skb));
    case Request(req, status) =>
      LeadsNowhere(rx);
      if Accepted(req, status) { RenewOutcome(rx, Key(req.Cid(), req.Tid()), req.memory, req.Window(), req.Ssn()); }
    case Status(ringid, agreed, size, memory, status, vring2cid) =>
      LeadsNowhere(rx);
      hide StatusSteps;
      if ringid < Stations.MAX_TX_RINGS && vring2cid[ringid] < MAX_CID {
        StatusOutcome(rx, vring2cid[ringid], 0, agreed, size, memory, 0);
      }
    case Gone(cid) => StatusOutcome(rx, cid, 0, false, 0, NoMemory(), 0);
  }

  /** The handlers can be called in any order. */
  lemma {:induction false} EventsPossible(rx: Rx, events: seq<Event>)
    requires Full(rx) && forall e :: e in events ==> Proper(e)
    ensures Possible(rx, AllSteps(events))
    decreases |events|
  {
    if events == [] {
    } else {
      var first := events[0];
      assert first in events;
      hide EventSteps, Possible;
      EventPossible(rx, first);
      PossibleFull(rx, EventSteps(first));
      EventsPossible(DoAll(rx, EventSteps(first)), events[1..]);
      PossibleConcat(rx, EventSteps(first), AllSteps(events[1..]));
    }
  }

  ghost predicate Positive(steps: seq<Step>) {
    forall st :: st in steps && st.Begin? ==> st.size > 0
  }

  lemma {:induction false} StatusPositive(cid: nat, tid: nat, agreed: bool, size: nat, memory: seq<bool>)
    requires cid < MAX_CID && tid <= TID_NUM == |memory|
    ensures Positive(StatusSteps(cid, tid, agreed, size, memory))
    decreases TID_NUM - tid
  {
    if tid == TID_NUM {
    } else {
      StatusPositive(cid, tid + 1, agreed, size, memory);
    }
  }

  lemma {:induction false} EventsPositive(events: seq<Event>)
    requires forall e :: e in events ==> Proper(e) && (e.Request? ==> e.req.Asked() > 0)
    ensures Positive(AllSteps(events))
  {
    if events == [] {
    } else {
      var e := events[0];
      assert e in events;
      assert Positive(EventSteps(e)) by {
        hide StatusSteps;
        if e.Status? && e.ringid < Stations.MAX_TX_RINGS && e.vring2cid[e.ringid] < MAX_CID {
          StatusPositive(e.vring2cid[e.ringid], 0, e.agreed, e.size, e.memory);
        } else if e.Gone? {
          StatusPositive(e.cid, 0, false, 0, NoMemory());
        }
      }
      hide EventSteps;
      EventsPositive(events[1..]);
    }
  }

  /** As long as every request asks for a window of at least 1, nothing ever divides by zero,
      in any run of the handlers from the start. */
  lemma NoZeroRequestNoFault(events: seq<Event>)
    requires forall e :: e in events ==> Proper(e) && (e.Request? ==> e.req.Asked() > 0)
    ensures RunEnabled(NO_SESSIONS, AllSteps(events))
    ensures DoAll(NO_SESSIONS, AllSteps(events)).faulted == []
  {
    EventsPossible(NO_SESSIONS, events);
    EventsPositive(events);
    NoFaults(NO_SESSIONS, AllSteps(events));
  }

  /** After a request that is accepted and finds memory, the next frame of that session divides
      by zero if and only if the request asked for a window of 0 and the frame is not behind
      the start it named. */
  lemma ZeroRequestFaults(rx: Rx, req: BackRequest, status: seq<Stations.Status>, f: Frame)
    requires Full(rx) && |status| == MAX_CID && Accepted(req, status) && req.memory
    ensures RunEnabled(rx, BackSteps(req, status))
    ensures var key := Key(req.Cid(), req.Tid());
            var granted := DoAll(rx, BackSteps(req, status));
            && Enabled(granted, Arrive(key, f))
            && granted.sessions[key] == Some(Alloc(req.Window(), req.Ssn()))
            && (Do(granted, Arrive(key, f)).faulted != granted.faulted
                <==> req.Asked() == 0 && (f.seqNum - req.Ssn()) % SEQ_MODULO <= 2048)
  {
    var key := Key(req.Cid(), req.Tid());
    RenewOutcome(rx, key, true, req.Window(), req.Ssn());
    hide RenewSteps, Do, RunEnabled, DoAll;
    ArriveFaultsIff(DoAll(rx, BackSteps(req, status)), key, f);
  }

  // --- what a request leads to ---

  /** A request that the peer sends and that is accepted: the place of its station and traffic id
      then holds an empty session that starts at the number named, with as many slots as asked
      for, at most 16. */
  lemma RequestOpensSession(rx: Rx, cid: nat, tid: nat, low: nat, asked: nat, frag: nat, ssn: Seq12,
                            status: seq<Stations.Status>)
    requires Full(rx) && cid < MAX_CID && tid < TID_NUM && low < 64 && asked < 1024 && frag < 16
    requires |status| == MAX_CID && status[cid] == Stations.Connected
    ensures var steps := BackSteps(Sent(cid, tid, low, asked, frag, ssn, true, true), status);
            && Possible(rx, steps)
            && var place := DoAll(rx, steps).sessions[Key(cid, tid)];
               && place.Some? && place.value.ssn == place.value.head == ssn
               && |place.value.buf| == (if asked < 16 then asked else 16)
               && place.value.stored == Occupied(place.value.buf) == 0
  {
    var req := Sent(cid, tid, low, asked, frag, ssn, true, true);
    ReadsWhatWasSent(cid, tid, low, asked, frag, ssn, true, true);
    RenewOutcome(rx, Key(cid, tid), true, req.Window(), req.Ssn());
    OccupiedNone(Alloc(req.Window(), req.Ssn()).buf);
    hide RenewSteps, DoAll, RunEnabled, Occupied;
  }

  /** A request queued later is handled later. */
  lemma {:induction false} QueueStepsLast(reqs: seq<BackRequest>, req: BackRequest, status: seq<Stations.Status>)
    requires |status| == MAX_CID
    ensures QueueSteps(reqs + [req], status) == QueueSteps(reqs, status) + BackSteps(req, status)
  {
    hide BackSteps;
    if reqs == [] {
      assert [req][1..] == [];
      assert QueueSteps([], status) == [];
    } else {
      QueueStepsLast(reqs[1..], req, status);
      assert (reqs + [req])[1..] == reqs[1..] + [req];
    }
  }

  lemma {:induction false} QueuePossible(rx: Rx, reqs: seq<BackRequest>, status: seq<Stations.Status>)
    requires Full(rx) && |status| == MAX_CID
    ensures Possible(rx, QueueSteps(reqs, status))
    decreases |reqs|
  {
    if reqs == [] {
    } else {
      var first := BackSteps(reqs[0], status);
      EventPossible(rx, Request(reqs[0], status));
      hide Possible, BackSteps;
      PossibleFull(rx, first);
      QueuePossible(DoAll(rx, first), reqs[1..], status);
      PossibleConcat(rx, first, QueueSteps(reqs[1..], status));
    }
  }

  /** Of several requests for the same session the one that came last decides. */
  lemma LastRequestDecides(rx: Rx, reqs: seq<BackRequest>, req: BackRequest, status: seq<Stations.Status>)
    requires Full(rx) && |status| == MAX_CID && Accepted(req, status)
    ensures var steps := QueueSteps(reqs + [req], status);
            && Possible(rx, steps)
            && DoAll(rx, steps).sessions[Key(req.Cid(), req.Tid())]
               == if req.memory then Some(Alloc(req.Window(), req.Ssn())) else None
  {
    var before := QueueSteps(reqs, status);
    QueuePossible(rx, reqs, status);
    PossibleFull(rx, before);
    RenewOutcome(DoAll(rx, before), Key(req.Cid(), req.Tid()), req.memory, req.Window(), req.Ssn());
    QueueStepsLast(reqs, req, status);
    hide QueueSteps, RenewSteps, DoAll, RunEnabled;
    PossibleConcat(rx, before, BackSteps(req, status));
  }
}
