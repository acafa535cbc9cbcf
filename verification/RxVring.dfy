/** The receive ring object: txrx.c's refill, reap and teardown in place, each tied to the
    operation of `RxRing`. */
module RxVring {
  import opened CircularBuffer
  import opened Modular
  import opened RxRing
  import opened Wrappers

  function Zip(va: seq<Desc>, ctx: seq<Option<nat>>): (slots: seq<Slot>)
    requires |va| == |ctx|
    ensures |slots| == |va|
  {
    seq(|va|, i requires 0 <= i < |va| => Slot(ctx[i], va[i]))
  }

  class Vring {
    const size: nat
    const va: array<Desc>
    const ctx: array<Option<nat>>
    var swhead: nat
    var swtail: nat
    var made: nat
    var passed: seq<nat>
    var freed: seq<nat>
    ghost var reaped: seq<nat>

    ghost predicate Shape()
      reads this
    {
      0 < size == va.Length == ctx.Length && swhead < size && swtail < size
    }

    ghost function Used(): (n: nat)
      requires Shape()
      reads this
      ensures n < size
    {
      if swtail >= swhead then swtail - swhead else swtail + size - swhead
    }

    /** All places, from the head on. */
    ghost function Ring(): (slots: seq<Slot>)
      requires Shape()
      reads this, va, ctx
      ensures |slots| == size
    {
      Rotate(Zip(va[..], ctx[..]), swhead)
    }

    ghost function View(): Rx
      requires Shape()
      reads this, va, ctx
    {
      Rx(size, Ring()[..Used()], made, passed, freed, reaped)
    }

    ghost predicate Valid()
      reads this, va, ctx
    {
      Shape() && Inv(View())
    }

    constructor (size: nat)
      requires size > 0
      ensures Valid() && View() == Rx(size, [], 0, [], [], []) && fresh(va) && fresh(ctx)
    {
      this.size := size;
      swhead, swtail, made, passed, freed, reaped := 0, 0, 0, [], [], [];
      va := new Desc[size](_ => Owned);
      ctx := new Option<nat>[size](_ => None);
      new;
      assert Bufs([]) == [] == UpTo(0);
    }

    /** `wil_vring_alloc_skb` at the tail, and the tail's advance; there is room and memory. */
    method PostOne()
      requires Shape() && Used() + 1 < size
      modifies this, va, ctx
      ensures Shape()
      ensures var was := old(View());
              View() == was.(posted := was.posted + [Slot(Some(was.made), Owned)], made := was.made + 1)
    {
      ghost var before, used := Zip(va[..], ctx[..]), Used();
      RotateUpdate(before, swhead, used, Slot(Some(made), Owned));
      assert swtail == Wrap(swhead + used, size);
      va[swtail] := Owned;
      ctx[swtail] := Some(made);
      assert Zip(va[..], ctx[..]) == before[swtail := Slot(Some(made), Owned)];
      made := made + 1;
      ModWrap(swtail + 1, size);
      swtail := (swtail + 1) % size;
      assert Used() == used + 1;
    }

    /** `wil_rx_refill`, with memory for `memory` more buffers; the result says whether it ended
        for lack of it. */
    method RxRefill(count: int, memory: nat) returns (ok: bool)
      requires Valid()
      modifies this, va, ctx
      ensures Valid() && View() == Refill(old(View()), count, memory)
      ensures ok == !(memory < size - 1 - old(Used()) && memory < count)
    {
      ghost var start := View();
      var left, mem := count, memory;
      ok := true;
      ModWrap(swtail + 1, size);
      while (swtail + 1) % size != swhead && left > 0
        invariant Shape() && Refill(View(), left, mem) == Refill(start, count, memory)
        invariant (swtail + 1) % size == Wrap(swtail + 1, size)
        invariant 0 <= mem && count - left == memory - mem == Used() - |start.posted|
        decreases left
      {
        hide Ring;
        if mem == 0 {
          ok := false;
          break;
        }
        PostOne();
        left, mem := left - 1, mem - 1;
        ModWrap(swtail + 1, size);
      }
      RefillKeeps(start, count, memory);
    }

    /** The slot at the head. */
    method Head() returns (slot: Slot)
      requires Shape() && Used() > 0
      ensures View().posted != [] && slot == View().posted[0] && slot == Slot(ctx[swhead], va[swhead])
    {
      slot := Slot(ctx[swhead], va[swhead]);
      RotateUpdate(Zip(va[..], ctx[..]), swhead, 0, slot);
    }

    /** `wil_vring_reap_rx` */
    method ReapRx(sniffer: bool) returns (skb: Option<nat>)
      requires Valid()
      modifies this, va, ctx
      ensures Valid() && View() == Reap(old(View()), sniffer)
      ensures |passed| == |old(passed)| + if skb.Some? then 1 else 0
      ensures skb == (match VerdictOf(old(View()), sniffer) case Passed(b) => Some(b) case _ => None)
    {
      ReapKeeps(View(), sniffer);
      if swhead == swtail {
        return None;
      }
      var slot := Head();
      if slot.desc == Owned {
        return None;
      }
      hide Ring, Inv, Used;
      var drop := slot.desc == Refused && !sniffer;
      assert Ready(View());
      PassOrFree(drop);
      skb := if drop then None else slot.buf;
    }

    /** The buffer at the head leaves the ring. */
    method PassOrFree(drop: bool)
      requires Shape() && Used() > 0 && View().posted[0].buf.Some?
      modifies this, ctx
      ensures Shape()
      ensures var was, b := old(View()), old(View()).posted[0].buf.value;
              var now := was.(posted := was.posted[1..], reaped := was.reaped + [b]);
              View() == if drop then now.(freed := was.freed + [b]) else now.(passed := was.passed + [b])
    {
      var slot := Head();
      hide Ring;
      TakeHead();
      if drop {
        freed := freed + [slot.buf.value];
      } else {
        passed := passed + [slot.buf.value];
      }
    }

    /** The buffer at the head is taken out and the head advanced. */
    method TakeHead()
      requires Shape() && Used() > 0 && ctx[swhead].Some?
      modifies this, ctx
      ensures Shape() && passed == old(passed) && freed == old(freed)
      ensures var was := old(View());
              View() == was.(posted := was.posted[1..], reaped := was.reaped + [old(ctx[swhead]).value])
    {
      ghost var before, used := Zip(va[..], ctx[..]), Used();
      ghost var x := Slot(None, va[swhead]);
      RotateUpdate(before, swhead, 0, x);
      reaped := reaped + [ctx[swhead].value];
      ctx[swhead] := None;
      assert Zip(va[..], ctx[..]) == before[swhead := x];
      RotateOn(Zip(va[..], ctx[..]), swhead, if size > 1 then 1 else 0);
      ModWrap(swhead + 1, size);
      swhead := (swhead + 1) % size;
      assert Used() == used - 1;
    }

    /** The loop of `wil_rx_handle`; the frames it passes on are what `ReapRx` returned. */
    method RxHandle(quota: nat, sniffer: bool) returns (left: nat)
      requires Valid()
      modifies this, va, ctx
      ensures Valid() && View() == Handle(old(View()), quota, sniffer)
      ensures quota - left == |passed| - |old(passed)|
    {
      ghost var start := View();
      left := quota;
      hide Ring, Inv, Reap, VerdictOf, Used;
      while left > 0
        invariant Valid() && 0 <= left <= quota && quota - left == |passed| - |old(passed)|
        invariant Handle(View(), left, sniffer) == Handle(start, quota, sniffer)
      {
        var skb := ReapRx(sniffer);
        if skb == None {
          break;
        }
        left := left - 1;
      }
    }

    /** One round of the loop of `wil_vring_free`. */
    method FreeHead()
      requires Shape() && Used() > 0 && AllHeld(View().posted)
      modifies this, ctx
      ensures Shape() && Used() == old(Used()) - 1 && AllHeld(View().posted)
      ensures Teardown(View()) == Teardown(old(View()))
    {
      ghost var before := View();
      ghost var b := before.posted[0].buf.value;
      hide Ring, Teardown;
      PassOrFree(true);
      TeardownStep(before, b, View());
      assert |View().posted| == |before.posted| - 1;
    }

    /** `wil_vring_free`, for the receive ring: all buffers still posted are freed, in order. */
    method VringFree()
      requires Valid()
      modifies this, va, ctx
      ensures Valid() && View() == Teardown(old(View()))
    {
      ghost var start := View();
      TeardownKeeps(start);
      hide Ring, Teardown, Inv;
      while swhead != swtail
        invariant Shape() && AllHeld(View().posted) && Teardown(View()) == Teardown(start)
        decreases Used()
      {
        FreeHead();
      }
      TeardownEmpty(View());
    }
  }

  lemma TeardownEmpty(rx: Rx)
    requires rx.posted == []
    ensures Teardown(rx) == rx
  {
    assert Bufs([]) == [];
    assert rx.reaped + [] == rx.reaped && rx.freed + [] == rx.freed;
  }

  ghost predicate AllHeld(slots: seq<Slot>) {
    forall i :: 0 <= i < |slots| ==> slots[i].buf.Some?
  }

  lemma TeardownStep(rx: Rx, b: nat, next: Rx)
    requires rx.posted != [] && rx.posted[0].buf == Some(b) && AllHeld(rx.posted)
    requires next == rx.(posted := rx.posted[1..], reaped := rx.reaped + [b], freed := rx.freed + [b])
    ensures Teardown(next) == Teardown(rx) && AllHeld(next.posted)
  {
    assert Bufs(rx.posted) == [b] + Bufs(next.posted);
    assert rx.reaped + Bufs(rx.posted) == next.reaped + Bufs(next.posted);
    assert rx.freed + Bufs(rx.posted) == next.freed + Bufs(next.posted);
  }
}
