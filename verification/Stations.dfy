/**
 Stations and their transmit rings (main.c, txrx.c, wmi.c). The table that says which station
 a ring was set up for is written when a ring is allocated and never cleared, yet lookup
 trusts the first entry that matches. That this finds a live ring rests on rings being
 allocated lowest free index first, and on there being a free one: the connect worker does
 not look whether its search failed.
 */
module Stations {
  import opened Wrappers

  const MAX_TX_RINGS := 24
  const MAX_CID := 8

  const EINVAL := -22

  type Mac = nat

  datatype Status = Unused | ConnPending | Connected

  /** `wil->sta[]`, the allocation state of `wil->vring_tx[]`, `wil->vring2cid_tid[][0]` and
      `wil->pending_connect_cid`. `wild` is set once a ring outside `vring_tx[]` may have been
      set up, after which the tables may hold anything. */
  datatype Table = Table(status: seq<Status>, addr: seq<Mac>, live: seq<bool>, owner: seq<nat>,
                         pending: Option<nat>, wild: bool)
  {
    predicate Valid() {
      && |status| == |addr| == MAX_CID && |live| == |owner| == MAX_TX_RINGS
      && (pending.Some? ==> pending.value < MAX_CID)
    }
  }

  datatype Event =
    | ConnectEvent(cid: nat, mac: Mac)          // table effects of `wmi_evt_connect`
    | ConnectWork(memory: bool, fwOk: bool, stray: bool)   // `wil_connect_worker`
    | Disconnect(cid: nat)                      // `wil_disconnect_cid`

  /** The first index from i on where the ring is not allocated, or the number of rings. */
  function FirstFree(live: seq<bool>, i: nat): (k: nat)
    requires i <= |live|
    ensures i <= k <= |live| && (k < |live| ==> !live[k])
    ensures forall j :: i <= j < k ==> live[j]
    decreases |live| - i
  {
    if i == |live| || !live[i] then i else FirstFree(live, i + 1)
  }

  /** The first ring from i on that is recorded for station cid, or the number of rings. */
  function FirstOwned(owner: seq<nat>, cid: nat, i: nat): (k: nat)
    requires i <= |owner|
    ensures i <= k <= |owner| && (k < |owner| ==> owner[k] == cid)
    ensures forall j :: i <= j < k ==> owner[j] != cid
    decreases |owner| - i
  {
    if i == |owner| || owner[i] == cid then i else FirstOwned(owner, cid, i + 1)
  }

  /** The firmware names stations that exist. */
  ghost predicate Enabled(e: Event) {
    match e
    case ConnectEvent(cid, _) => cid < MAX_CID
    case ConnectWork(_, _, _) => true
    case Disconnect(cid) => cid < MAX_CID
  }

  /** The worker runs for a pending connection while every ring is allocated. */
  predicate NoRingFor(t: Table, e: Event)
    requires t.Valid()
  {
    e.ConnectWork? && t.pending.Some? && forall i :: 0 <= i < MAX_TX_RINGS ==> t.live[i]
  }

  /** Then it goes on with index -22, and what lies there is not taken for an allocated ring. */
  predicate Strays(t: Table, e: Event)
    requires t.Valid()
  {
    NoRingFor(t, e) && !e.stray
  }

  /** `wil_connect_worker` with `wil_vring_init_tx`. When memory is short the ring is not
      recorded; when firmware refuses, it is recorded and then freed. Without a free ring the
      index is -22. If what lies there looks like an allocated ring (`stray`), it is refused;
      otherwise it is set up. */
  function Work(t: Table, memory: bool, fwOk: bool, stray: bool): (u: Table)
    requires t.Valid()
    ensures u.Valid()
  {
    if t.pending.None? then t
    else
      var cid, ring := t.pending.value, FirstFree(t.live, 0);
      if ring == MAX_TX_RINGS then
        t.(status := t.status[cid := if !stray && memory && fwOk then Connected else Unused],
           pending := None, wild := t.wild || !stray)
      else if !memory then t.(status := t.status[cid := Unused], pending := None)
      else
        t.(status := t.status[cid := if fwOk then Connected else Unused],
           live := t.live[ring := fwOk], owner := t.owner[ring := cid], pending := None)
  }

  function Do(t: Table, e: Event): (u: Table)
    requires t.Valid() && Enabled(e)
    ensures u.Valid()
  {
    match e
    case ConnectEvent(cid, mac) =>
      t.(status := t.status[cid := ConnPending], addr := t.addr[cid := mac], pending := Some(cid))
    case ConnectWork(memory, fwOk, stray) => Work(t, memory, fwOk, stray)
    case Disconnect(cid) =>
      t.(status := t.status[cid := Unused],
         live := seq(MAX_TX_RINGS, i requires 0 <= i < MAX_TX_RINGS => t.live[i] && t.owner[i] != cid))
  }

  /** The first ring recorded for each connected station is allocated. */
  ghost predicate Inv(t: Table) {
    t.Valid() && (t.wild || AllFindable(t))
  }

  ghost predicate AllFindable(t: Table)
    requires t.Valid()
  {
    forall s :: 0 <= s < MAX_CID && t.status[s] == Connected ==> FirstIsLive(t, s)
  }

  ghost predicate FirstIsLive(t: Table, s: nat)
    requires t.Valid()
  {
    var k := FirstOwned(t.owner, s, 0);
    k < MAX_TX_RINGS && t.live[k]
  }

  lemma FirstOwnedIs(owner: seq<nat>, cid: nat, k: nat)
    requires k < |owner| && owner[k] == cid && forall j :: 0 <= j < k ==> owner[j] != cid
    ensures FirstOwned(owner, cid, 0) == k
  {
  }

  /** Recording the lowest free ring for one station takes no live ring from another, and the
      rings before it, allocated all, cannot mislead the lookup. */
  lemma WorkKeeps(t: Table, memory: bool, fwOk: bool, stray: bool, s: nat)
    requires Inv(t) && !Work(t, memory, fwOk, stray).wild && s < MAX_CID
    requires Work(t, memory, fwOk, stray).status[s] == Connected
    ensures FirstIsLive(Work(t, memory, fwOk, stray), s)
  {
    var u := Work(t, memory, fwOk, stray);
    if t.pending.Some? && memory && FirstFree(t.live, 0) < MAX_TX_RINGS {
      var cid, ring := t.pending.value, FirstFree(t.live, 0);
      var k := FirstOwned(t.owner, s, 0);
      if s == cid {
        var first := if k < ring then k else ring;
        FirstOwnedIs(u.owner, s, first);
      } else {
        assert t.live[k] && k != ring;
        FirstOwnedIs(u.owner, s, k);
      }
    }
  }

  lemma StepKeeps(t: Table, e: Event)
    requires Inv(t) && Enabled(e)
    ensures Inv(Do(t, e))
    ensures Do(t, e).wild <==> t.wild || Strays(t, e)
  {
    var u := Do(t, e);
    if !u.wild {
      forall s | 0 <= s < MAX_CID && u.status[s] == Connected
        ensures FirstIsLive(u, s)
      {
        if e.ConnectWork? { WorkKeeps(t, e.memory, e.fwOk, e.stray, s); }
      }
    }
  }

  // --- runs ---

  ghost predicate AllEnabled(events: seq<Event>) {
    forall i :: 0 <= i < |events| ==> Enabled(events[i])
  }

  function Run(t: Table, events: seq<Event>): (u: Table)
    requires t.Valid() && AllEnabled(events)
    ensures u.Valid()
  {
    if events == [] then t
    else
      var n := |events| - 1;
      Do(Run(t, events[..n]), events[n])
  }

  /** All zero, as allocated: every ring is recorded for station 0. */
  function Start(): (t: Table)
    ensures t.Valid()
  {
    Table(seq(MAX_CID, _ => Unused), seq(MAX_CID, _ => 0), seq(MAX_TX_RINGS, _ => false),
          seq(MAX_TX_RINGS, _ => 0), None, false)
  }

  /** The tables before step i of a run. */
  function Before(t: Table, events: seq<Event>, i: nat): (u: Table)
    requires t.Valid() && AllEnabled(events) && i <= |events|
    ensures u.Valid()
  {
    Run(t, events[..i])
  }

  /** At some point of the run the worker goes astray. */
  ghost predicate GoesAstray(t: Table, events: seq<Event>)
    requires t.Valid() && AllEnabled(events)
  {
    exists i: nat :: i < |events| && Strays(Before(t, events, i), events[i])
  }

  lemma BeforePrefix(t: Table, events: seq<Event>, n: nat, i: nat)
    requires t.Valid() && AllEnabled(events) && i <= n <= |events|
    ensures AllEnabled(events[..n]) && Before(t, events[..n], i) == Before(t, events, i)
  {
    assert events[..n][..i] == events[..i];
  }

  lemma GoesAstrayLast(t: Table, events: seq<Event>)
    requires t.Valid() && AllEnabled(events) && events != []
    ensures var n := |events| - 1;
            GoesAstray(t, events) <==> GoesAstray(t, events[..n]) || Strays(Before(t, events, n), events[n])
  {
    hide Run, Strays, Enabled, Before;
    var n := |events| - 1;
    forall i: nat | i < n
      ensures Before(t, events[..n], i) == Before(t, events, i)
    {
      BeforePrefix(t, events, n, i);
    }
  }

  /** Every run keeps the invariant, and goes wild exactly if at some point the worker runs for
      a pending connection with no ring left and takes what it finds instead for a free one. */
  lemma {:induction false} RunKeeps(t: Table, events: seq<Event>)
    requires Inv(t) && AllEnabled(events)
    ensures Inv(Run(t, events))
    ensures Run(t, events).wild <==> t.wild || GoesAstray(t, events)
  {
    if events == [] {
    } else {
      var n := |events| - 1;
      hide Inv, Do, Enabled, Strays, GoesAstray;
      RunKeeps(t, events[..n]);
      GoesAstrayLast(t, events);
      StepKeeps(Run(t, events[..n]), events[n]);
    }
  }

  // --- when there is always a free ring ---

  /** A station connects again only after it was disconnected. */
  ghost predicate Orderly(t: Table, e: Event)
    requires t.Valid()
  {
    e.ConnectEvent? && e.cid < MAX_CID ==> t.status[e.cid] != Connected
  }

  /** A station has at most one live ring, and none unless it is connected. */
  ghost predicate OneRingEach(t: Table) {
    && t.Valid() && !t.wild
    && (forall i :: 0 <= i < MAX_TX_RINGS && t.live[i] ==> t.owner[i] < MAX_CID && t.status[t.owner[i]] == Connected)
    && (forall i, j :: 0 <= i < j < MAX_TX_RINGS && t.live[i] && t.live[j] ==> t.owner[i] != t.owner[j])
    && (t.pending.Some? ==> t.status[t.pending.value] != Connected)
  }

  /** Some ring below MAX_CID + 1 is free: that many live ones would have distinct owners. */
  lemma SomeFree(t: Table)
    requires OneRingEach(t)
    ensures exists i :: 0 <= i < MAX_TX_RINGS && !t.live[i]
  {
    if forall i :: 0 <= i < MAX_TX_RINGS ==> t.live[i] {
      DistinctBounded(t.owner, MAX_TX_RINGS, MAX_CID);
    }
  }

  /** Distinct numbers below m are at most m many. */
  lemma {:induction false} DistinctBounded(owner: seq<nat>, n: nat, m: nat)
    requires n <= |owner| && forall i :: 0 <= i < n ==> owner[i] < m
    requires forall i, j :: 0 <= i < j < n ==> owner[i] != owner[j]
    ensures n <= m
    decreases m
  {
    if n == 0 {
    } else {
      assert owner[0] < m;
      if i :| 0 <= i < n && owner[i] == m - 1 {
        DistinctBounded(owner[..i] + owner[i + 1..n], n - 1, m - 1);
      } else {
        DistinctBounded(owner, n, m - 1);
      }
    }
  }

  lemma OneRingStep(t: Table, e: Event)
    requires OneRingEach(t) && Enabled(e) && Orderly(t, e)
    ensures OneRingEach(Do(t, e)) && !NoRingFor(t, e)
  {
    SomeFree(t);
  }

  ghost predicate OrderlyRun(t: Table, events: seq<Event>)
    requires t.Valid() && AllEnabled(events)
  {
    forall i: nat :: i < |events| ==> Orderly(Before(t, events, i), events[i])
  }

  /** If every station is disconnected before it connects again, a ring is always free. */
  lemma {:induction false} OrderlyRunsStayTame(events: seq<Event>)
    requires AllEnabled(events) && OrderlyRun(Start(), events)
    ensures OneRingEach(Run(Start(), events))
  {
    if events == [] {
    } else {
      var n := |events| - 1;
      forall i: nat | i < n
        ensures Orderly(Before(Start(), events[..n], i), events[..n][i])
      {
        BeforePrefix(Start(), events, n, i);
      }
      hide Do, Enabled, OneRingEach, Orderly;
      OrderlyRunsStayTame(events[..n]);
      assert Orderly(Before(Start(), events, n), events[n]);
      OneRingStep(Run(Start(), events[..n]), events[n]);
    }
  }

  /** Station 0 connects n times without a disconnect in between. */
  function Reconnects(n: nat): (events: seq<Event>)
    ensures |events| == 2 * n && AllEnabled(events)
  {
    if n == 0 then [] else Reconnects(n - 1) + [ConnectEvent(0, 0), ConnectWork(true, true, false)]
  }

  /** Each takes another ring ... */
  lemma {:induction false} ReconnectsTakeRings(n: nat)
    requires n <= MAX_TX_RINGS
    ensures var t := Run(Start(), Reconnects(n));
            !t.wild && t.live == seq(MAX_TX_RINGS, i => i < n)
  {
    if n == 0 {
    } else {
      ReconnectsTakeRings(n - 1);
      ReconnectStep(Start(), Reconnects(n - 1));
      FirstFreeIs(Run(Start(), Reconnects(n - 1)).live, n - 1);
    }
  }

  lemma FirstFreeIs(live: seq<bool>, k: nat)
    requires k <= |live| && (forall i :: 0 <= i < k ==> live[i]) && (k < |live| ==> !live[k])
    ensures FirstFree(live, 0) == k
  {
  }

  lemma ReconnectStep(t: Table, events: seq<Event>)
    requires t.Valid() && AllEnabled(events)
    ensures var more := [ConnectEvent(0, 0), ConnectWork(true, true, false)];
            Run(t, events + more) == Do(Do(Run(t, events), more[0]), more[1])
  {
    var more := [ConnectEvent(0, 0), ConnectWork(true, true, false)];
    var all := events + more;
    hide Do;
    assert all[..|all| - 1] == events + [more[0]];
    assert (events + [more[0]])[..|events|] == events;
  }

  /** ... and the one after the last goes astray. */
  lemma OneReconnectTooMany()
    ensures Run(Start(), Reconnects(MAX_TX_RINGS + 1)).wild
    ensures !Run(Start(), Reconnects(MAX_TX_RINGS)).wild
  {
    ReconnectsTakeRings(MAX_TX_RINGS);
    ReconnectStep(Start(), Reconnects(MAX_TX_RINGS));
    FirstFreeIs(Run(Start(), Reconnects(MAX_TX_RINGS)).live, MAX_TX_RINGS);
  }

  // --- lookup ---

  /** `wil_find_cid`, from station i on */
  function FindCid(t: Table, mac: Mac, i: nat): (r: Option<nat>)
    requires t.Valid() && i <= MAX_CID
    ensures r.Some? ==> i <= r.value < MAX_CID && t.status[r.value] != Unused && t.addr[r.value] == mac
    ensures forall j :: i <= j < (if r.Some? then r.value else MAX_CID) ==> t.status[j] == Unused || t.addr[j] != mac
    decreases MAX_CID - i
  {
    if i == MAX_CID then None
    else if t.status[i] != Unused && t.addr[i] == mac then Some(i)
    else FindCid(t, mac, i + 1)
  }

  /** `wil_find_tx_vring` */
  function FindTxVring(t: Table, mac: Mac): Option<nat>
    requires t.Valid()
  {
    match FindCid(t, mac, 0)
    case None => None
    case Some(cid) =>
      var k := FirstOwned(t.owner, cid, 0);
      if k < MAX_TX_RINGS && t.live[k] then Some(k) else None
  }

  /** No other station in use has the address of station s. */
  ghost predicate UniqueAddr(t: Table, s: nat)
    requires t.Valid() && s < MAX_CID
  {
    forall j :: 0 <= j < MAX_CID && j != s && t.status[j] != Unused ==> t.addr[j] != t.addr[s]
  }

  /** In every reachable state, a packet for a connected station whose address no other active
      station has goes to a live ring recorded for that station, as long as the worker has not
      been left without a ring. */
  lemma LookupFindsLiveRing(events: seq<Event>, s: nat)
    requires AllEnabled(events) && s < MAX_CID && !Run(Start(), events).wild
    requires Run(Start(), events).status[s] == Connected && UniqueAddr(Run(Start(), events), s)
    ensures var t := Run(Start(), events);
            var r := FindTxVring(t, t.addr[s]);
            r.Some? && r.value < MAX_TX_RINGS && t.live[r.value] && t.owner[r.value] == s
  {
    var t := Run(Start(), events);
    RunKeeps(Start(), events);
    hide Run;
    var found := FindCid(t, t.addr[s], 0);
    assert FirstIsLive(t, s);
  }

  /** Taking some other free ring would not do: had the first station been given ring 1, the
      stale entry of ring 0 would hide it. */
  lemma AnyFreeRingIsNotEnough()
    ensures var t := Start().(status := Start().status[0 := Connected], live := Start().live[1 := true],
                              owner := Start().owner[1 := 0]);
            t.Valid() && !t.live[0] && t.status[0] == Connected && UniqueAddr(t, 0)
            && FindTxVring(t, t.addr[0]) == None
  {
    var t := Start().(status := Start().status[0 := Connected], live := Start().live[1 := true],
                      owner := Start().owner[1 := 0]);
    assert t.owner[0] == 0 && t.addr[0] == 0 && t.status[0] == Connected;
    assert FindCid(t, 0, 0) == Some(0);
    assert FirstOwned(t.owner, 0, 0) == 0;
  }

  /** The address with which a station last connected. */
  function LastAddr(events: seq<Event>, s: nat): Option<Mac> {
    if events == [] then None
    else
      var e := events[|events| - 1];
      if e.ConnectEvent? && e.cid == s then Some(e.mac) else LastAddr(events[..|events| - 1], s)
  }

  /** In every reachable state the table has, for each station in use or about to connect, the
      address with which it last connected. */
  lemma {:induction false} AddrIsLast(events: seq<Event>, s: nat)
    requires AllEnabled(events) && s < MAX_CID
    ensures var t, last := Run(Start(), events), LastAddr(events, s);
            && t.addr[s] == (if last.Some? then last.value else 0)
            && (t.status[s] != Unused || t.pending == Some(s) ==> last.Some?)
  {
    if events == [] {
    } else {
      var n := |events| - 1;
      AddrIsLast(events[..n], s);
      assert Enabled(events[n]);
      hide Run, FirstFree;
    }
  }

  /** A packet to the address with which a connected station last connected finds a live ring of
      that station, if no other station in use last connected with the same address and the worker
      has not gone astray. */
  lemma PacketFindsStation(events: seq<Event>, s: nat, mac: Mac)
    requires AllEnabled(events) && s < MAX_CID && !Run(Start(), events).wild
    requires Run(Start(), events).status[s] == Connected && LastAddr(events, s) == Some(mac)
    requires forall j :: 0 <= j < MAX_CID && j != s && Run(Start(), events).status[j] != Unused ==>
               LastAddr(events, j) != Some(mac)
    ensures var t := Run(Start(), events);
            var r := FindTxVring(t, mac);
            r.Some? && r.value < MAX_TX_RINGS && t.live[r.value] && t.owner[r.value] == s
  {
    var t := Run(Start(), events);
    AddrIsLast(events, s);
    forall j | 0 <= j < MAX_CID && j != s && t.status[j] != Unused
      ensures t.addr[j] != t.addr[s]
    {
      AddrIsLast(events, j);
    }
    hide Run, LastAddr, FindTxVring, AllEnabled;
    LookupFindsLiveRing(events, s);
  }

  // --- the code, in place ---

  class Wil {
    const status: array<Status>
    const addr: array<Mac>
    const live: array<bool>
    const owner: array<nat>
    var pending: Option<nat>
    ghost var wild: bool

    ghost function View(): Table
      reads this, status, addr, live, owner
    {
      Table(status[..], addr[..], live[..], owner[..], pending, wild)
    }

    ghost predicate Valid()
      reads this, status, addr, live, owner
    {
      addr != owner && View().Valid()
    }

    constructor ()
      ensures Valid() && View() == Start()
      ensures fresh(status) && fresh(addr) && fresh(live) && fresh(owner)
    {
      status := new Status[MAX_CID](_ => Unused);
      addr := new Mac[MAX_CID](_ => 0);
      live := new bool[MAX_TX_RINGS](_ => false);
      owner := new nat[MAX_TX_RINGS](_ => 0);
      pending := None;
      wild := false;
    }

    /** `wil_find_free_vring` */
    method FindFreeVring() returns (ring: int)
      requires Valid()
      ensures var k := FirstFree(View().live, 0); ring == if k < MAX_TX_RINGS then k else EINVAL
    {
      for i := 0 to MAX_TX_RINGS
        invariant FirstFree(live[..], i) == FirstFree(live[..], 0)
      {
        if !live[i] {
          return i;
        }
      }
      ring := EINVAL;
    }

    /** The table effects of `wmi_evt_connect` */
    method EvtConnect(cid: nat, mac: Mac)
      requires Valid() && cid < MAX_CID
      modifies this, status, addr
      ensures Valid() && View() == Do(old(View()), ConnectEvent(cid, mac))
      ensures addr[cid] == mac && status[cid] == ConnPending && pending == Some(cid)
    {
      addr[cid] := mac;
      status[cid] := ConnPending;
      pending := Some(cid);
    }

    /** `wil_connect_worker` */
    method ConnectWorker(memory: bool, fwOk: bool, stray: bool)
      requires Valid()
      modifies this, status, live, owner
      ensures Valid() && View() == Do(old(View()), ConnectWork(memory, fwOk, stray))
      ensures pending == None
      ensures old(pending).Some? ==>
                var cid, ring := old(pending).value, FirstFree(old(live[..]), 0);
                if memory && fwOk && (ring < MAX_TX_RINGS || !stray)
                then status[cid] == Connected && (ring < MAX_TX_RINGS ==> live[ring] && owner[ring] == cid)
                else status[cid] == Unused && live[..] == old(live[..])
    {
      var ring := FindFreeVring();
      if pending == None {
        return;
      }
      var cid := pending.value;
      var ok := memory && fwOk;
      if ring < 0 {
        // the code does not look, and goes on with `vring_tx[-22]`
        ok := ok && !stray;
        wild := wild || !stray;
      } else if memory {
        live[ring] := true;
        owner[ring] := cid;
        if !fwOk {
          live[ring] := false;
        }
      }
      pending := None;
      status[cid] := if ok then Connected else Unused;
    }

    /** `wil_disconnect_cid` */
    method DisconnectCid(cid: nat)
      requires Valid() && cid < MAX_CID
      modifies status, live
      ensures Valid() && View() == Do(old(View()), Disconnect(cid))
      ensures status[cid] == Unused
      ensures forall i :: 0 <= i < MAX_TX_RINGS ==> (live[i] <==> old(live[i]) && owner[i] != cid)
    {
      status[cid] := Unused;
      for i := 0 to MAX_TX_RINGS
        invariant forall k :: 0 <= k < i ==> live[k] == (old(live[k]) && owner[k] != cid)
        invariant forall k :: i <= k < MAX_TX_RINGS ==> live[k] == old(live[k])
        invariant status[..] == old(status[..])[cid := Unused]
      {
        if owner[i] == cid {
          live[i] := false;
        }
      }
      ghost var done := Do(old(View()), Disconnect(cid));
      assert live[..] == done.live && status[..] == done.status;
    }

    /** `wil_find_cid` */
    method FindStation(mac: Mac) returns (r: Option<nat>)
      requires Valid()
      ensures r == FindCid(View(), mac, 0)
    {
      for i := 0 to MAX_CID
        invariant FindCid(View(), mac, i) == FindCid(View(), mac, 0)
      {
        if status[i] != Unused && addr[i] == mac {
          return Some(i);
        }
      }
      r := None;
    }

    /** `wil_find_tx_vring` */
    method TxVringFor(mac: Mac) returns (r: Option<nat>)
      requires Valid()
      ensures r == FindTxVring(View(), mac)
    {
      var cid := FindStation(mac);
      if cid == None {
        return None;
      }
      for i := 0 to MAX_TX_RINGS
        invariant FirstOwned(owner[..], cid.value, i) == FirstOwned(owner[..], cid.value, 0)
      {
        if owner[i] == cid.value {
          if live[i] {
            return Some(i);
          }
          return None;
        }
      }
      r := None;
    }
  }
}
