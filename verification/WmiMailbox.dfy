/**
 The host's side of the two mailbox rings, run to completion while firmware is quiet:
 `__wmi_send` as producer of the command ring and `wmi_recv_cmd` as consumer of the event
 ring. Both are runs of the steps of `MailboxRing`, so they keep its invariant and its
 guarantees.
 */
module WmiMailbox {
  import opened CircularBuffer
  import opened MailboxRing
  import opened Modular
  import opened Wrappers

  /** 0, -ERANGE, -EAGAIN, -EBUSY, -EINVAL */
  datatype Rc = Ok | TooLarge | NotReady | BusyRing | Invalid

  /** A ring in card memory; the histories are for specification. */
  class MboxRing<M> {
    const sync: array<bool>
    const buf: array<M>
    var head: nat
    var tail: nat
    ghost var produced: seq<M>
    ghost var consumed: seq<M>

    ghost function View(): Ring<M>
      reads this, sync, buf
    {
      Ring(head, tail, sync[..], buf[..], PIdle, CIdle, produced, consumed)
    }

    ghost predicate Valid()
      reads this, sync, buf
    {
      Inv(View()) && (var a: object, b: object := sync, buf; a != b)
    }

    constructor (n: nat, blank: M)
      requires n > 1
      ensures Valid() && View() == Empty(n, blank) && fresh(sync) && fresh(buf)
    {
      sync := new bool[n](_ => false);
      buf := new M[n](_ => blank);
      head, tail, produced, consumed := 0, 0, [], [];
      new;
      EmptyInv(n, blank);
      assert View() == Empty(n, blank);
    }

    /** `__wmi_send`. A send that fails leaves the commands as they were; one that succeeds has
        posted the command behind those still waiting. The head's and the buffer's addresses,
        which are in card memory, may turn out to be garbage. A full ring is looked at up to five
        times; `takes` says in which of the pauses firmware would take a command out. A command
        taken after the last look comes too late. */
    method Send(cmd: M, fits: bool, fwReady: bool, headOk: bool, bufferOk: bool, takes: seq<bool>) returns (rc: Rc)
      requires Valid() && |takes| == LOOKS
      modifies this, sync, buf
      ensures Valid()
      ensures var full := Used(old(View())) + 1 == sync.Length;
              var i := FirstTake(takes, 0);
              var looks := fits && fwReady && headOk;
              && rc == (if !fits then TooLarge else if !fwReady then NotReady else if !headOk then Invalid
                        else if full && i >= LOOKS - 1 then BusyRing else if !bufferOk then Invalid else Ok)
              && (var k := if looks && full && i < LOOKS then 1 else 0;
                  && Contents(View()) == old(Contents(View()))[k..] + (if rc == Ok then [cmd] else [])
                  && consumed == old(consumed) + old(Contents(View()))[..k])
      ensures produced == old(produced) + if rc == Ok then [cmd] else []
      ensures rc != Ok ==> head == old(head)
    {
      if !fits {
        return TooLarge;
      }
      if !fwReady {
        return NotReady;
      }
      if !headOk {
        return Invalid;
      }
      HeadIsFree(View());
      if sync[head] {
        return BusyRing;
      }
      ModWrap(head + 1, sync.Length);
      var nextHead := (head + 1) % sync.Length;
      var seen := AwaitRoom(nextHead, takes);
      if nextHead == seen {
        return BusyRing;
      }
      if !bufferOk {
        return Invalid;
      }
      HeadIsFree(View());
      Post(cmd);
      rc := Ok;
    }

    /** The second waiting loop of `__wmi_send`; the result is the tail seen last. */
    method AwaitRoom(nextHead: nat, takes: seq<bool>) returns (seen: nat)
      requires Valid() && |takes| == LOOKS && nextHead == NextOf(View(), head)
      modifies this, sync
      ensures Valid() && head == old(head) && produced == old(produced)
      ensures var full := Used(old(View())) + 1 == sync.Length;
              var i := FirstTake(takes, 0);
              && (nextHead == seen <==> full && i >= LOOKS - 1)
              && (nextHead != seen ==> Used(View()) + 1 < sync.Length)
              && (var k := if full && i < LOOKS then 1 else 0;
                  && Contents(View()) == old(Contents(View()))[k..]
                  && consumed == old(consumed) + old(Contents(View()))[..k])
    {
      ghost var waiting := Contents(View());
      ghost var k := 0;   // commands taken meanwhile
      var n := 0;
      HeadIsFree(View());
      seen := tail;
      while n < LOOKS
        invariant Valid() && head == old(head) && produced == old(produced) && 0 <= n <= LOOKS
        invariant k <= 1 && k <= |waiting| && (k == 0 ==> FirstTake(takes, 0) >= n)
        invariant k == 1 ==> FirstTake(takes, 0) == n - 1
        invariant Contents(View()) == waiting[k..] && consumed == old(consumed) + waiting[..k]
        invariant n > 0 ==> |waiting| + 1 == sync.Length && seen == nextHead
        invariant n == 0 ==> seen == tail
        decreases LOOKS - n
      {
        HeadIsFree(View());
        seen := tail;
        if nextHead != seen {
          break;
        }
        FirstTakeStep(takes, n);
        if takes[n] {
          var _ := TakeFirst(true, true);
          k := k + 1;
        }
        n := n + 1;
      }
    }

    /** The rest of `__wmi_send`: the entry is filled and marked, and the head advanced. */
    method Post(cmd: M)
      requires Valid() && Used(View()) + 1 < sync.Length
      modifies this, sync, buf
      ensures Valid() && Contents(View()) == old(Contents(View())) + [cmd]
      ensures produced == old(produced) + [cmd] && consumed == old(consumed) && tail == old(tail)
    {
      ghost var r := View();
      HeadIsFree(r);
      Posting(r, cmd);
      ModWrap(head + 1, sync.Length);
      buf[head] := cmd;
      sync[head] := true;
      head := (head + 1) % sync.Length;
      produced := produced + [cmd];
      assert sync[..] == r.sync[r.head := true] && buf[..] == r.buf[r.head := cmd];
      assert View() == Do(Do(Do(Do(Do(r, CheckSync), CheckRoom), Write(cmd)), SetSync), MoveHead);
    }

    /** One round of the loop of `wmi_recv_cmd` on a ring that is not empty. It gives up when the
        event's header cannot be read or there is no memory for the event. */
    method TakeFirst(readable: bool, memory: bool) returns (evt: Option<M>)
      requires Valid() && tail != head
      modifies this, sync
      ensures Valid() && head == old(head) && produced == old(produced)
      ensures evt.Some? == (readable && memory)
      ensures if evt.Some?
              then Contents(old(View())) == [evt.value] + Contents(View()) && consumed == old(consumed) + [evt.value]
              else View() == old(View())
    {
      ghost var r := View();
      Taking(r);
      if !sync[tail] || !readable || !memory {
        return None;
      }
      evt := Some(buf[tail]);
      sync[tail] := false;
      ModWrap(tail + 1, sync.Length);
      tail := (tail + 1) % sync.Length;
      consumed := consumed + [evt.value];
      assert sync[..] == r.sync[r.tail := false];
      assert View() == Do(Do(Do(Do(Do(r, SeeHead), SeeSync), Copy), ClearSync), MoveTail);
    }
  }

  /** How often a full ring is looked at. */
  const LOOKS := 5

  /** The first pause from i on in which firmware takes a command, or their number. */
  function FirstTake(takes: seq<bool>, i: nat): (k: nat)
    requires i <= |takes|
    ensures i <= k <= |takes| && (k < |takes| ==> takes[k]) && forall j :: i <= j < k ==> !takes[j]
    decreases |takes| - i
  {
    if i == |takes| || takes[i] then i else FirstTake(takes, i + 1)
  }

  lemma FirstTakeStep(takes: seq<bool>, n: nat)
    requires n < |takes| && FirstTake(takes, 0) >= n
    ensures if takes[n] then FirstTake(takes, 0) == n else FirstTake(takes, 0) >= n + 1
  {
  }

  /** With both sides idle the entry at the head is free; the ring is full when one entry is
      left. */
  lemma HeadIsFree<M>(r: Ring<M>)
    requires Inv(r) && r.producer.PIdle? && r.consumer.CIdle?
    ensures !r.sync[r.head]
    ensures NextOf(r, r.head) == r.tail <==> Used(r) + 1 == |r.sync|
  {
    HeadPlace(r);
    assert r.sync[Wrap(r.tail + Used(r), |r.sync|)] == Marked(r, Used(r));
  }

  /** The producer's steps in a row. */
  lemma Posting<M>(r: Ring<M>, m: M)
    requires Inv(r) && r.producer.PIdle? && r.consumer.CIdle?
    requires !r.sync[r.head] && NextOf(r, r.head) != r.tail
    ensures var d := Do(Do(Do(Do(Do(r, CheckSync), CheckRoom), Write(m)), SetSync), MoveHead);
            Inv(d) && Contents(d) == Contents(r) + [m]
  {
    ProducerKeeps(r, CheckSync);
    var r1 := Do(r, CheckSync);
    ProducerKeeps(r1, CheckRoom);
    var r2 := Do(r1, CheckRoom);
    ProducerKeeps(r2, Write(m));
    var r3 := Do(r2, Write(m));
    hide Inv, Contents;
    ProducerKeeps(r3, SetSync);
    MoveHeadKeeps(Do(r3, SetSync));
  }

  /** The consumer's steps in a row. */
  lemma Taking<M>(r: Ring<M>)
    requires Inv(r) && r.consumer.CIdle? && r.tail != r.head
    ensures r.sync[r.tail]
    ensures var d := Do(Do(Do(Do(Do(r, SeeHead), SeeSync), Copy), ClearSync), MoveTail);
            Inv(d) && Contents(r) == [r.buf[r.tail]] + Contents(d)
  {
    HeadPlace(r);
    assert r.sync[Wrap(r.tail + 0, |r.sync|)] == Marked(r, 0);
    ConsumerKeeps(r, SeeHead);
    var r1 := Do(r, SeeHead);
    hide Inv, Contents;
    ConsumerKeeps(r1, SeeSync);
    var r2 := Do(r1, SeeSync);
    ConsumerKeeps(r2, Copy);
    var r3 := Do(r2, Copy);
    ConsumerKeeps(r3, ClearSync);
    MoveTailKeeps(Do(r3, ClearSync));
  }

  /** How many of the events waiting `wmi_recv_cmd` takes, when the reset is complete or not, the
      first `readable` events have headers that can be read, and there is memory for `memory`. */
  function Taken(waiting: nat, resetDone: bool, readable: nat, memory: nat): (k: nat)
    ensures k <= waiting
    ensures if resetDone then k <= readable && k <= memory && (k < waiting ==> k == readable || k == memory) else k == 0
    ensures k < waiting <==> waiting > 0 && (!resetDone || readable < waiting || memory < waiting)
  {
    var most := if readable < memory then readable else memory;
    if !resetDone then 0 else if most < waiting then most else waiting
  }

  /** The event path of the host. */
  class Events<M> {
    const rx: MboxRing<M>
    var pending: seq<M>
    var queued: bool
    var handled: seq<M>

    constructor (rx: MboxRing<M>)
      ensures this.rx == rx && pending == [] && handled == [] && !queued
    {
      this.rx := rx;
      pending, handled, queued := [], [], false;
    }

    /** `wmi_recv_cmd`, when the first `readable` events have headers that can be read and there
        is memory for the first `memory` events. Before the reset is complete nothing happens.
        Otherwise the events up to the first that fails are pending, in order, and the others
        stay in the ring; the worker is queued if there are any. */
    method RecvCmd(resetDone: bool, readable: nat, memory: nat)
      requires rx.Valid()
      modifies this, rx, rx.sync
      ensures rx.Valid() && handled == old(handled)
      ensures var waiting := Contents(old(rx.View()));
              var k := Taken(|waiting|, resetDone, readable, memory);
              && pending == old(pending) + waiting[..k]
              && Contents(rx.View()) == waiting[k..]
              && queued == (old(queued) || k > 0)
    {
      if !resetDone {
        return;
      }
      ghost var waiting := Contents(rx.View());
      var k := 0;
      while rx.tail != rx.head
        invariant rx.Valid() && handled == old(handled)
        invariant 0 <= k <= Taken(|waiting|, true, readable, memory)
        invariant pending == old(pending) + waiting[..k] && Contents(rx.View()) == waiting[k..]
        invariant queued == (old(queued) || k > 0)
        decreases |waiting| - k
      {
        var evt := rx.TakeFirst(k < readable, k < memory);
        if evt.None? {
          return;
        }
        pending := pending + [evt.value];
        queued := true;
        assert waiting[k..][1..] == waiting[k + 1..] && waiting[k..][0] == evt.value;
        k := k + 1;
      }
      assert |Contents(rx.View())| == |waiting| - k == 0;
    }

    /** `wmi_event_worker`: all pending events are handled, in order. */
    method EventWorker()
      modifies this
      ensures pending == [] && handled == old(handled) + old(pending) && queued == false
    {
      queued := false;
      while pending != []
        invariant handled + pending == old(handled) + old(pending) && !queued
        decreases |pending|
      {
        var evt := pending[0];
        pending := pending[1..];
        handled := handled + [evt];
      }
    }
  }
}
