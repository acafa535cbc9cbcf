/**
 The receive ring of txrx.c: empty buffers are posted at the tail, filled by hardware and
 reaped at the head. Buffers are numbered in the order they are allocated.
 */
module RxRing {
  import opened CircularBuffer
  import opened Modular
  import opened Wrappers

  /** What hardware has left in a descriptor: still its own, a frame for the stack, or one the
      driver throws away (not a data frame, or too short). */
  datatype Desc = Owned | Data | Refused

  datatype Slot = Slot(buf: Option<nat>, desc: Desc)

  /** The posted buffers in ring order, and what has become of those reaped. */
  datatype Rx = Rx(size: nat, posted: seq<Slot>, made: nat, passed: seq<nat>, freed: seq<nat>, reaped: seq<nat>)

  function Bufs(slots: seq<Slot>): (bufs: seq<nat>)
    ensures |bufs| == |slots|
  {
    seq(|slots|, i requires 0 <= i < |slots| => if slots[i].buf.Some? then slots[i].buf.value else 0)
  }

  /** 0, 1, ..., n - 1 */
  function UpTo(n: nat): (s: seq<nat>)
    ensures |s| == n
  {
    seq(n, i requires 0 <= i < n => i)
  }

  /** Every buffer ever allocated has been reaped or is posted, in the order of allocation;
      each reaped one was passed on or freed. */
  ghost predicate Inv(rx: Rx) {
    && |rx.posted| < rx.size
    && (forall i :: 0 <= i < |rx.posted| ==> rx.posted[i].buf.Some?)
    && rx.reaped + Bufs(rx.posted) == UpTo(rx.made)
    && Merged(rx.reaped, rx.passed, rx.freed)
  }

  /** `all` is an interleaving of the other two, each in its own order. */
  ghost predicate Merged(all: seq<nat>, a: seq<nat>, b: seq<nat>) {
    if all == [] then a == [] && b == []
    else
      var last, rest := all[|all| - 1], all[..|all| - 1];
      || (a != [] && a[|a| - 1] == last && Merged(rest, a[..|a| - 1], b))
      || (b != [] && b[|b| - 1] == last && Merged(rest, a, b[..|b| - 1]))
  }

  /** `wil_rx_refill`: up to `count` buffers, fewer when memory for only `memory` is left, and
      never the last free place. */
  function Refill(rx: Rx, count: int, memory: nat): Rx
    decreases memory
  {
    if |rx.posted| + 1 >= rx.size || count <= 0 || memory == 0 then rx
    else
      Refill(rx.(posted := rx.posted + [Slot(Some(rx.made), Owned)], made := rx.made + 1),
             count - 1, memory - 1)
  }

  datatype Verdict = Nothing | Passed(buf: nat) | Dropped

  /** Whether there is a finished descriptor at the head. */
  predicate Ready(rx: Rx) {
    rx.posted != [] && rx.posted[0].buf.Some? && !rx.posted[0].desc.Owned?
  }

  /** `wil_vring_reap_rx`; in sniffer mode no frame is refused. */
  function Reap(rx: Rx, sniffer: bool): Rx {
    if !Ready(rx) then rx
    else
      var b := rx.posted[0].buf.value;
      var next := rx.(posted := rx.posted[1..], reaped := rx.reaped + [b]);
      if rx.posted[0].desc.Refused? && !sniffer then next.(freed := rx.freed + [b])
      else next.(passed := rx.passed + [b])
  }

  function VerdictOf(rx: Rx, sniffer: bool): Verdict {
    if !Ready(rx) then Nothing
    else if rx.posted[0].desc.Refused? && !sniffer then Dropped
    else Passed(rx.posted[0].buf.value)
  }

  /** The loop of `wil_rx_handle`, which ends at the first call that returns no frame. */
  function Handle(rx: Rx, quota: nat, sniffer: bool): Rx
    decreases quota
  {
    if quota == 0 then rx
    else if VerdictOf(rx, sniffer).Passed? then Handle(Reap(rx, sniffer), quota - 1, sniffer)
    else Reap(rx, sniffer)
  }

  /** `wil_vring_free`, for the receive ring */
  function Teardown(rx: Rx): Rx {
    rx.(posted := [], reaped := rx.reaped + Bufs(rx.posted), freed := rx.freed + Bufs(rx.posted))
  }

  // --- every operation keeps the account ---

  lemma MergedSnoc(all: seq<nat>, a: seq<nat>, b: seq<nat>, x: nat)
    requires Merged(all, a, b)
    ensures Merged(all + [x], a + [x], b) && Merged(all + [x], a, b + [x])
  {
    assert (all + [x])[..|all + [x]| - 1] == all;
    assert (a + [x])[..|a + [x]| - 1] == a;
    assert (b + [x])[..|b + [x]| - 1] == b;
  }

  lemma {:induction false} MergedAll(all: seq<nat>, a: seq<nat>, b: seq<nat>, more: seq<nat>)
    requires Merged(all, a, b)
    ensures Merged(all + more, a, b + more)
  {
    if more == [] {
      assert all + more == all && b + more == b;
    } else {
      var most, x := more[..|more| - 1], more[|more| - 1];
      MergedAll(all, a, b, most);
      MergedSnoc(all + most, a, b + most, x);
      assert all + most + [x] == all + more && b + most + [x] == b + more;
    }
  }

  lemma {:induction false} RefillKeeps(rx: Rx, count: int, memory: nat)
    requires Inv(rx)
    ensures var r := Refill(rx, count, memory);
            && Inv(r) && r.reaped == rx.reaped && rx.posted <= r.posted
            && |r.posted| - |rx.posted| == Least(rx.size - 1 - |rx.posted|, if count < 0 then 0 else count, memory)
    decreases memory
  {
    if |rx.posted| + 1 >= rx.size || count <= 0 || memory == 0 {
    } else {
      var slot := Slot(Some(rx.made), Owned);
      var next := rx.(posted := rx.posted + [slot], made := rx.made + 1);
      assert Bufs(next.posted) == Bufs(rx.posted) + [rx.made];
      assert UpTo(next.made) == UpTo(rx.made) + [rx.made];
      assert rx.reaped + Bufs(next.posted) == (rx.reaped + Bufs(rx.posted)) + [rx.made];
      hide Bufs, UpTo, Merged;
      RefillKeeps(next, count - 1, memory - 1);
    }
  }

  function Least(a: int, b: int, c: int): int {
    var m := if a < b then a else b;
    if m < c then m else c
  }

  /** A refill by the ring's size that finds memory leaves just one place empty. */
  lemma RefillBySize(rx: Rx, memory: nat)
    requires Inv(rx) && memory >= rx.size
    ensures |Refill(rx, rx.size, memory).posted| == rx.size - 1
  {
    RefillKeeps(rx, rx.size, memory);
  }

  lemma ReapKeeps(rx: Rx, sniffer: bool)
    requires Inv(rx)
    ensures Inv(Reap(rx, sniffer)) && Reap(rx, sniffer).made == rx.made
  {
    if Ready(rx) {
      var b, next := rx.posted[0].buf.value, Reap(rx, sniffer);
      assert Bufs(rx.posted) == [b] + Bufs(next.posted);
      assert rx.reaped + ([b] + Bufs(next.posted)) == (rx.reaped + [b]) + Bufs(next.posted);
      MergedSnoc(rx.reaped, rx.passed, rx.freed, b);
    }
  }

  lemma {:induction false} HandleKeeps(rx: Rx, quota: nat, sniffer: bool)
    requires Inv(rx)
    ensures Inv(Handle(rx, quota, sniffer))
    ensures var h := Handle(rx, quota, sniffer);
            rx.passed <= h.passed && |h.passed| - |rx.passed| <= quota && h.size == rx.size
    decreases quota
  {
    ReapKeeps(rx, sniffer);
    hide Inv;
    if quota == 0 || !VerdictOf(rx, sniffer).Passed? {
    } else {
      HandleKeeps(Reap(rx, sniffer), quota - 1, sniffer);
    }
  }

  /** How many frames are finished, and fit for the stack, at the head, up to the quota. */
  function Leading(posted: seq<Slot>, quota: nat, sniffer: bool): (n: nat)
    ensures n <= quota && n <= |posted|
  {
    if quota == 0 || posted == [] || posted[0].desc.Owned? || (posted[0].desc.Refused? && !sniffer) then 0
    else 1 + Leading(posted[1..], quota - 1, sniffer)
  }

  /** The first k posted buffers leave, the first n of them to the stack, the others freed. */
  function Taken(rx: Rx, n: nat, k: nat): Rx
    requires n <= k <= |rx.posted|
  {
    rx.(posted := rx.posted[k..], passed := rx.passed + Bufs(rx.posted[..n]),
        freed := rx.freed + Bufs(rx.posted[n..k]), reaped := rx.reaped + Bufs(rx.posted[..k]))
  }

  lemma TakenNone(rx: Rx)
    ensures Taken(rx, 0, 0) == rx
  {
    assert Bufs([]) == [];
    assert rx.posted[0..] == rx.posted && rx.posted[..0] == [];
  }

  lemma TakenFirst(rx: Rx, n: nat, k: nat)
    requires 0 < n <= k <= |rx.posted| && rx.posted[0].buf.Some?
    ensures var b := rx.posted[0].buf.value;
            var next := rx.(posted := rx.posted[1..], reaped := rx.reaped + [b], passed := rx.passed + [b]);
            Taken(rx, n, k) == Taken(next, n - 1, k - 1)
  {
    var b, rest := rx.posted[0].buf.value, rx.posted[1..];
    assert Bufs(rx.posted[..n]) == [b] + Bufs(rest[..n - 1]);
    assert Bufs(rx.posted[..k]) == [b] + Bufs(rest[..k - 1]);
    assert rx.posted[n..k] == rest[n - 1..k - 1] && rx.posted[k..] == rest[k - 1..];
    hide Bufs;
    assert rx.passed + ([b] + Bufs(rest[..n - 1])) == (rx.passed + [b]) + Bufs(rest[..n - 1]);
    assert rx.reaped + ([b] + Bufs(rest[..k - 1])) == (rx.reaped + [b]) + Bufs(rest[..k - 1]);
  }

  lemma TakenRefused(rx: Rx)
    requires rx.posted != [] && rx.posted[0].buf.Some?
    ensures var b := rx.posted[0].buf.value;
            Taken(rx, 0, 1) == rx.(posted := rx.posted[1..], reaped := rx.reaped + [b], freed := rx.freed + [b])
  {
    assert Bufs(rx.posted[..1]) == [rx.posted[0].buf.value] && Bufs(rx.posted[..0]) == [];
    assert rx.posted[0..1] == rx.posted[..1];
  }

  /** How many leave the ring when handling: with the quota not used up, a refused one too. */
  function Leaving(posted: seq<Slot>, quota: nat, sniffer: bool): (k: nat)
    ensures Leading(posted, quota, sniffer) <= k <= |posted|
  {
    var n := Leading(posted, quota, sniffer);
    if n < quota && n < |posted| && posted[n].desc.Refused? then n + 1 else n
  }

  lemma LeadingFirst(posted: seq<Slot>, quota: nat, sniffer: bool)
    requires posted != [] && quota > 0 && !posted[0].desc.Owned? && (posted[0].desc.Refused? ==> sniffer)
    ensures Leading(posted, quota, sniffer) == 1 + Leading(posted[1..], quota - 1, sniffer)
    ensures Leaving(posted, quota, sniffer) == 1 + Leaving(posted[1..], quota - 1, sniffer)
  {
  }

  /** Which these are: finished and not refused; what stops them is not. */
  lemma {:induction false} LeadingMeans(posted: seq<Slot>, quota: nat, sniffer: bool)
    ensures var n := Leading(posted, quota, sniffer);
            && (forall i :: 0 <= i < n ==> posted[i].desc.Data? || (posted[i].desc.Refused? && sniffer))
            && (n < quota && n < |posted| ==> posted[n].desc.Owned? || (posted[n].desc.Refused? && !sniffer))
  {
    var n := Leading(posted, quota, sniffer);
    if n == 0 {
    } else {
      LeadingMeans(posted[1..], quota - 1, sniffer);
      assert forall i :: 1 <= i < |posted| ==> posted[i] == posted[1..][i - 1];
    }
  }

  lemma HandleStopsHere(rx: Rx, quota: nat, sniffer: bool)
    requires Inv(rx) && (quota == 0 || !VerdictOf(rx, sniffer).Passed?)
    ensures Handle(rx, quota, sniffer)
            == Taken(rx, Leading(rx.posted, quota, sniffer), Leaving(rx.posted, quota, sniffer))
  {
    assert rx.posted != [] ==> rx.posted[0].buf.Some?;
    TakenNone(rx);
    if quota > 0 && Ready(rx) { TakenRefused(rx); }
    hide Inv, Bufs, Taken;
  }

  lemma PassedFirst(rx: Rx, sniffer: bool)
    requires VerdictOf(rx, sniffer).Passed?
    ensures rx.posted != [] && rx.posted[0].buf.Some?
    ensures !rx.posted[0].desc.Owned? && (rx.posted[0].desc.Refused? ==> sniffer)
    ensures var b := rx.posted[0].buf.value;
            Reap(rx, sniffer) == rx.(posted := rx.posted[1..], reaped := rx.reaped + [b], passed := rx.passed + [b])
  {
  }

  /** Handling passes exactly the finished frames at the head, in order, and the one that ends it,
      if it is there to be refused, is freed; the others stay posted. */
  lemma {:induction false} HandleExactly(rx: Rx, quota: nat, sniffer: bool)
    requires Inv(rx)
    ensures Handle(rx, quota, sniffer)
            == Taken(rx, Leading(rx.posted, quota, sniffer), Leaving(rx.posted, quota, sniffer))
    decreases quota
  {
    if quota == 0 || !VerdictOf(rx, sniffer).Passed? {
      HandleStopsHere(rx, quota, sniffer);
    } else {
      ReapKeeps(rx, sniffer);
      PassedFirst(rx, sniffer);
      LeadingFirst(rx.posted, quota, sniffer);
      hide Inv, Bufs, Taken, Leading, Leaving, Reap, VerdictOf;
      HandleExactly(Reap(rx, sniffer), quota - 1, sniffer);
      TakenFirst(rx, Leading(rx.posted, quota, sniffer), Leaving(rx.posted, quota, sniffer));
    }
  }

  /** Where handling stops: at the quota, or with no finished descriptor left, or right after a
      frame was thrown away, which ends the loop although more may be waiting. */
  lemma {:induction false} HandleStops(rx: Rx, quota: nat, sniffer: bool)
    requires Inv(rx)
    ensures var h := Handle(rx, quota, sniffer);
            || |h.passed| == |rx.passed| + quota
            || !Ready(h)
            || (|h.freed| == |rx.freed| + 1 && !sniffer)
    decreases quota
  {
    ReapKeeps(rx, sniffer);
    hide Inv;
    if quota == 0 || !VerdictOf(rx, sniffer).Passed? {
    } else {
      HandleStops(Reap(rx, sniffer), quota - 1, sniffer);
    }
  }

  /** It can leave finished frames behind with its quota not used up. */
  lemma HandleCanStopEarly()
    ensures var rx := Rx(4, [Slot(Some(0), Refused), Slot(Some(1), Data)], 2, [], [], []);
            && Inv(rx) && Ready(Handle(rx, 16, false)) && Handle(rx, 16, false).passed == []
  {
    var rx := Rx(4, [Slot(Some(0), Refused), Slot(Some(1), Data)], 2, [], [], []);
    assert rx.reaped + Bufs(rx.posted) == UpTo(2);
    assert Handle(rx, 16, false) == Reap(rx, false);
  }

  /** A refill neither adds finished frames nor hides them. */
  lemma {:induction false} RefillKeepsReady(rx: Rx, count: int, memory: nat)
    ensures Ready(Refill(rx, count, memory)) == Ready(rx) && Refill(rx, count, memory).passed == rx.passed
    decreases memory
  {
    if |rx.posted| + 1 >= rx.size || count <= 0 || memory == 0 {
    } else {
      RefillKeepsReady(rx.(posted := rx.posted + [Slot(Some(rx.made), Owned)], made := rx.made + 1),
                       count - 1, memory - 1);
    }
  }

  /** A refused frame, first or right after one that is passed on, has a finished one behind it. */
  ghost predicate RefusedEarly(posted: seq<Slot>) {
    exists k :: 0 <= k <= 1 && k + 1 < |posted| && (k == 1 ==> posted[0].desc.Data?)
                && posted[k].desc.Refused? && !posted[k + 1].desc.Owned?
  }

  /** When a poll with a budget of at least two ends the masked period, as it does after at
      most one frame, finished frames are left behind exactly if, outside sniffer mode, a
      refused frame stood that far in front with another finished one behind it. */
  lemma PollLeavesFramesIff(rx: Rx, budget: nat, sniffer: bool)
    requires Inv(rx) && budget >= 2
    ensures var h := Handle(rx, budget, sniffer);
            |h.passed| - |rx.passed| <= 1 && Ready(h) <==> !sniffer && RefusedEarly(rx.posted)
  {
    var one := Reap(rx, sniffer);
    var two := Reap(one, sniffer);
    ReapKeeps(rx, sniffer);
    ReapKeeps(one, sniffer);
    ReapKeeps(two, sniffer);
    if VerdictOf(rx, sniffer).Passed? {
      assert Handle(rx, budget, sniffer) == Handle(one, budget - 1, sniffer);
      assert one.posted == rx.posted[1..];
      if VerdictOf(one, sniffer).Passed? {
        HandleKeeps(two, budget - 2, sniffer);
        assert |two.passed| == |rx.passed| + 2;
      } else {
        assert Handle(one, budget - 1, sniffer) == two;
      }
    } else {
      assert Handle(rx, budget, sniffer) == one;
    }
    if !sniffer && RefusedEarly(rx.posted) {
      assert rx.posted[0].buf.Some? && rx.posted[1].buf.Some?;
    }
  }

  lemma TeardownKeeps(rx: Rx)
    requires Inv(rx)
    ensures Inv(Teardown(rx)) && Teardown(rx).reaped == UpTo(rx.made)
  {
    MergedAll(rx.reaped, rx.passed, rx.freed, Bufs(rx.posted));
    assert Bufs([]) == [];
  }

  // --- runs ---

  datatype Event =
    | RefillEvent(count: int, memory: nat)
    | HwFills(k: nat, desc: Desc)
    | HandleEvent(quota: nat, sniffer: bool)

  ghost predicate Enabled(rx: Rx, e: Event) {
    e.HwFills? ==> e.k < |rx.posted|
  }

  function Do(rx: Rx, e: Event): Rx
    requires Enabled(rx, e)
  {
    match e
    case RefillEvent(count, memory) => Refill(rx, count, memory)
    case HwFills(k, desc) => rx.(posted := rx.posted[k := rx.posted[k].(desc := desc)])
    case HandleEvent(quota, sniffer) => Handle(rx, quota, sniffer)
  }

  ghost predicate RunEnabled(rx: Rx, events: seq<Event>)
    decreases |events|
  {
    events == [] || (Enabled(rx, events[0]) && RunEnabled(Do(rx, events[0]), events[1..]))
  }

  function Run(rx: Rx, events: seq<Event>): Rx
    requires RunEnabled(rx, events)
    decreases |events|
  {
    if events == [] then rx else Run(Do(rx, events[0]), events[1..])
  }

  lemma StepKeeps(rx: Rx, e: Event)
    requires Inv(rx) && Enabled(rx, e)
    ensures Inv(Do(rx, e))
  {
    match e
    case RefillEvent(count, memory) => RefillKeeps(rx, count, memory);
    case HwFills(k, desc) => assert Bufs(Do(rx, e).posted) == Bufs(rx.posted);
    case HandleEvent(quota, sniffer) => HandleKeeps(rx, quota, sniffer);
  }

  /** In every run each buffer allocated is reaped once or still posted, in ring order and never
      in two places, and those reaped were passed on or freed, each once; after teardown that
      is true of all of them. */
  lemma {:induction false} RunKeeps(rx: Rx, events: seq<Event>)
    requires Inv(rx) && RunEnabled(rx, events)
    ensures var r := Run(rx, events);
            && Inv(r)
            && r.reaped + Bufs(r.posted) == UpTo(r.made)
            && Teardown(r).reaped == UpTo(r.made)
            && Merged(UpTo(r.made), r.passed, Teardown(r).freed)
    decreases |events|
  {
    hide Do, Enabled, Merged, Bufs;
    if events == [] {
      TeardownKeeps(rx);
    } else {
      StepKeeps(rx, events[0]);
      hide Inv;
      RunKeeps(Do(rx, events[0]), events[1..]);
    }
  }
}
