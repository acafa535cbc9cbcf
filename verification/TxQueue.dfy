/**
 A transmit ring seen as a queue of descriptors, with the reference counts of the packets in
 it: sending, hardware completion, clean-up and teardown as steps on values. `TxRing` shows
 that the driver's circular buffer does these steps.
 */
module TxQueue {
  import opened TsoCut
  import opened Wrappers

  type Skb = nat

  /** A descriptor in the ring: the packet it keeps alive, its fields, and whether hardware
      has marked it done. */
  datatype Slot = Slot(skb: Option<Skb>, desc: Desc, done: bool)

  datatype Rc = Accepted | Busy | Rejected   // 0, -ENOMEM, -EINVAL

  /** `users` holds each packet as often as it is referenced. */
  datatype Tx = Tx(size: nat, queue: seq<Slot>, users: multiset<Skb>)

  function Avail(tx: Tx): int {
    tx.size - |tx.queue| - 1
  }

  function SlotsOf(skb: Skb, descs: seq<Desc>): (slots: seq<Slot>)
    ensures |slots| == |descs|
    ensures forall i :: 0 <= i < |slots| ==> slots[i] == Slot(Some(skb), descs[i], false)
  {
    seq(|descs|, i requires 0 <= i < |descs| => Slot(Some(skb), descs[i], false))
  }

  /** A packet as the enqueue paths see it. The mapping numbered `failAt` fails, if any. */
  datatype Packet = Packet(skb: Skb, tcp: bool, mss: nat, hdrLen: nat, linear: int, frags: seq<nat>, failAt: int)

  /** Without segmentation: one descriptor for the linear part, one for each fragment, all
      carrying the packet's number of descriptors, the last ending the packet. */
  function PlainDescs(headLen: int, frags: seq<nat>): (descs: seq<Desc>)
    ensures |descs| == |frags| + 1
  {
    seq(|frags| + 1, k requires 0 <= k <= |frags| =>
      if k == 0 then Desc(Linear, 0, headLen, 0, k == |frags|, |frags| + 1)
      else Desc(Frag(k - 1), 0, frags[k - 1], 0, k == |frags|, |frags| + 1))
  }

  /** A packet with a segment size is segmented (`skb_is_gso`). */
  function DescsOf(p: Packet): (descs: seq<Desc>)
    ensures |descs| > 0
  {
    if p.mss > 0 then TsoDescs(p.hdrLen, p.linear, p.frags, p.mss) else PlainDescs(p.hdrLen + p.linear, p.frags)
  }

  // --- what a packet's descriptors send ---

  /** A segmented packet with at most one segment's worth in its linear part sends its headers,
      once, and its payload, in order. */
  lemma SegmentedSends(p: Packet)
    requires p.mss > 0 && p.linear <= p.mss
    ensures Sent(DescsOf(p)) == Bytes(Header, 0, p.hdrLen) + Payload(p.linear, p.frags)
  {
    var descs := DescsOf(p);
    var groups := CutIsExact(p.hdrLen, p.linear, p.frags, p.mss);
    HeaderCovered(p.hdrLen, p.linear, p.frags, p.mss);
    hide TsoDescs;
    assert descs == [descs[0]] + descs[1..];
    SentFirst(descs[0], descs[1..]);
  }

  lemma {:induction false} PlainPrefixSends(headLen: int, frags: seq<nat>, n: nat)
    requires n <= |frags|
    ensures Sent(PlainDescs(headLen, frags)[..n + 1]) == Bytes(Linear, 0, headLen) + FragBytes(frags, n)
  {
    var descs := PlainDescs(headLen, frags);
    SentSnoc(descs[..n], descs[n]);
    assert descs[..n + 1] == descs[..n] + [descs[n]];
    if n == 0 {
      assert descs[..0] == [];
    } else {
      PlainPrefixSends(headLen, frags, n - 1);
    }
  }

  /** A packet without segmentation sends its linear part and its fragments, in order; the last
      descriptor, and no other, ends it, and each carries the number of all. */
  lemma PlainSends(p: Packet)
    requires p.mss == 0
    ensures Sent(DescsOf(p)) == Bytes(Linear, 0, p.hdrLen + p.linear) + FragBytes(p.frags, |p.frags|)
    ensures |DescsOf(p)| == |p.frags| + 1
    ensures forall k :: 0 <= k <= |p.frags| ==>
              var d := DescsOf(p)[k]; d.seg == 0 && d.count == |p.frags| + 1 && (d.eop <==> k == |p.frags|)
  {
    var descs := PlainDescs(p.hdrLen + p.linear, p.frags);
    PlainPrefixSends(p.hdrLen + p.linear, p.frags, |p.frags|);
    assert descs[..|p.frags| + 1] == descs;
  }

  /** How the attempt ends. With segmentation the code asks for three descriptors a fragment
      beforehand and checks again before each descriptor of a fragment; without, it knows the
      exact number. */
  function Decide(avail: int, p: Packet): Rc {
    var n := |DescsOf(p)|;
    if avail < (if p.mss > 0 then 3 * |p.frags| + 1 else |p.frags| + 1) then Busy
    else if p.mss > 0 && !p.tcp then Rejected
    else if 0 <= p.failAt < n then Rejected
    else if p.mss > 0 && p.frags != [] && n > avail then Rejected
    else Accepted
  }

  /** A full ring is indistinguishable from an empty one. */
  function Extend(size: nat, queue: seq<Slot>, slots: seq<Slot>): seq<Slot> {
    if |queue| + |slots| < size then queue + slots else []
  }

  /** `wil_tx_vring_tso` and `wil_tx_vring` */
  function Enqueue(tx: Tx, p: Packet): Tx {
    if Decide(Avail(tx), p) != Accepted then tx
    else
      var slots := SlotsOf(p.skb, DescsOf(p));
      Tx(tx.size, Extend(tx.size, tx.queue, slots), tx.users[p.skb := tx.users[p.skb] + |slots|])
  }

  /** One reference less for the packet of each slot. */
  function Release(users: multiset<Skb>, slots: seq<Slot>): multiset<Skb> {
    if slots == [] then users
    else Release(if slots[0].skb.Some? then users - multiset{slots[0].skb.value} else users, slots[1..])
  }

  /** The last descriptor that hardware marked done, 0 if none is. */
  function LastDone(queue: seq<Slot>): (k: nat)
    ensures k <= |queue| && (k < |queue| || k == 0)
    ensures k > 0 ==> queue[k].done
    ensures forall i :: k < i < |queue| ==> !queue[i].done
  {
    if queue == [] then 0
    else if queue[|queue| - 1].done then |queue| - 1
    else LastDone(queue[..|queue| - 1])
  }

  /** The first descriptor before `n` that ends a transfer hardware has not finished. */
  function FirstStuck(queue: seq<Slot>, k: nat, n: nat): (i: nat)
    requires k <= n <= |queue|
    ensures k <= i <= n
    ensures forall j :: k <= j < i ==> queue[j].desc.eop ==> queue[j].done
    ensures i < n ==> queue[i].desc.eop && !queue[i].done
    decreases n - k
  {
    if k == n || (queue[k].desc.eop && !queue[k].done) then k else FirstStuck(queue, k + 1, n)
  }

  lemma FirstStuckIs(queue: seq<Slot>, n: nat, k: nat)
    requires k <= n <= |queue|
    requires forall j :: 0 <= j < k ==> queue[j].desc.eop ==> queue[j].done
    requires k < n ==> queue[k].desc.eop && !queue[k].done
    ensures FirstStuck(queue, 0, n) == k
  {
  }

  lemma LastDoneSnoc(queue: seq<Slot>, j: nat)
    requires j < |queue|
    ensures LastDone(queue[..j + 1]) == if queue[j].done then j else LastDone(queue[..j])
    ensures LastDone(queue[..0]) == 0
  {
    assert queue[..j + 1][..j] == queue[..j];
  }

  /** How many descriptors `wil_tx_complete` frees. */
  function FreeCount(queue: seq<Slot>): (k: nat)
    ensures k <= |queue|
  {
    FirstStuck(queue, 0, LastDone(queue))
  }

  /** A second clean-up right after the first frees nothing, although the descriptor at which the
      first one stopped may be finished. */
  lemma CleanUpIsDone(queue: seq<Slot>)
    ensures FreeCount(queue[FreeCount(queue)..]) == 0
  {
    var k := FreeCount(queue);
    if k < LastDone(queue) {
      assert queue[k..][0] == queue[k];
    } else {
      LastDoneIs(queue[k..], 0);
    }
  }

  /** Descriptors just sent give clean-up nothing to do. */
  lemma SendingFreesNothing(queue: seq<Slot>, slots: seq<Slot>)
    requires forall i :: 0 <= i < |slots| ==> !slots[i].done
    ensures FreeCount(queue + slots) == FreeCount(queue)
  {
    LastDoneIs(queue + slots, LastDone(queue));
    FirstStuckOfPrefix(queue, slots, 0, LastDone(queue));
  }

  lemma LastDoneIs(queue: seq<Slot>, k: nat)
    requires k < |queue| || k == 0
    requires k > 0 ==> queue[k].done
    requires forall i :: k < i < |queue| ==> !queue[i].done
    ensures LastDone(queue) == k
  {
  }

  lemma {:induction false} FirstStuckOfPrefix(queue: seq<Slot>, slots: seq<Slot>, k: nat, n: nat)
    requires k <= n <= |queue|
    ensures FirstStuck(queue + slots, k, n) == FirstStuck(queue, k, n)
    decreases n - k
  {
    if k == n {
    } else {
      assert (queue + slots)[k] == queue[k];
      FirstStuckOfPrefix(queue, slots, k + 1, n);
    }
  }

  /** `wil_tx_complete` */
  function Complete(tx: Tx): Tx {
    var k := FreeCount(tx.queue);
    Tx(tx.size, tx.queue[k..], Release(tx.users, tx.queue[..k]))
  }

  /** `wil_vring_free`, for a transmit ring */
  function Teardown(tx: Tx): Tx {
    Tx(tx.size, [], Release(tx.users, tx.queue))
  }

  // --- references ---

  /** How many of the slots hold a packet. */
  function Held(slots: seq<Slot>, skb: Skb): (n: nat)
    ensures n <= |slots|
  {
    if slots == [] then 0 else (if slots[0].skb == Some(skb) then 1 else 0) + Held(slots[1..], skb)
  }

  lemma {:induction false} HeldConcat(a: seq<Slot>, b: seq<Slot>, skb: Skb)
    ensures Held(a + b, skb) == Held(a, skb) + Held(b, skb)
  {
    if a == [] {
      assert a + b == b;
    } else {
      HeldConcat(a[1..], b, skb);
      assert (a + b)[1..] == a[1..] + b;
    }
  }

  lemma {:induction false} HeldSame(slots: seq<Slot>, owner: Skb, skb: Skb)
    requires forall i :: 0 <= i < |slots| ==> slots[i].skb == Some(owner)
    ensures Held(slots, skb) == if skb == owner then |slots| else 0
  {
    if slots == [] {
    } else {
      HeldSame(slots[1..], owner, skb);
    }
  }

  /** Releasing slots whose references are all held takes exactly those references. */
  lemma {:induction false} ReleaseCounts(users: multiset<Skb>, slots: seq<Slot>, skb: Skb)
    requires forall s: Skb :: Held(slots, s) <= users[s]
    ensures Release(users, slots)[skb] == users[skb] - Held(slots, skb)
  {
    if slots == [] {
    } else {
      var x := slots[0].skb;
      var rest := if x.Some? then users - multiset{x.value} else users;
      forall s: Skb
        ensures Held(slots[1..], s) <= rest[s]
      {
        assert Held(slots, s) <= users[s];
      }
      assert Held(slots, if x.Some? then x.value else skb) <= users[if x.Some? then x.value else skb];
      ReleaseCounts(rest, slots[1..], skb);
    }
  }
}
