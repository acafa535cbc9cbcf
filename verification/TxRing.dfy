/**
 The transmit ring of txrx.c: a circular buffer of descriptors with the packet each of them
 keeps alive, filled at the head by the two enqueue paths and cleaned from the tail. Every
 method does to the ring what `TxQueue` says it does to a queue.
 */
module TxRing {
  import opened CircularBuffer
  import opened Modular
  import opened TsoCut
  import opened TxQueue
  import opened Wrappers

  import TxRuns

  /** What hardware sees of a descriptor. */
  datatype HwDesc = HwDesc(desc: Desc, du: bool)

  /** The slots of a ring by index. */
  function Zip(va: seq<HwDesc>, ctx: seq<Option<Skb>>): (slots: seq<Slot>)
    requires |va| == |ctx|
    ensures |slots| == |va|
  {
    seq(|va|, i requires 0 <= i < |va| => Slot(ctx[i], va[i].desc, va[i].du))
  }

  /** The loop variables of `wil_tx_vring_tso`: `descs_used`, the ring offset of `sg_desc` or
      -1, `sg_desc_cnt`, `rem_data`, `end_of_first_chunck`, and whether `firstdata` is set. */
  datatype Vars = Vars(n: nat, sg: int, sgCnt: int, rem: int, extra: int, firstData: bool)

  ghost predicate Tracks(v: Vars, c: Cut) {
    && |c.descs| > 0 && -1 <= c.sg < |c.descs|
    && v == Vars(|c.descs|, c.sg, c.sgCnt, c.rem, c.extra, |c.descs| > 1)
  }

  /** The slots from `lo` to `hi` marked as software's again. */
  function GivenBack(slots: seq<Slot>, lo: nat, hi: nat): (next: seq<Slot>)
    ensures |next| == |slots|
  {
    seq(|slots|, i requires 0 <= i < |slots| => if lo <= i < hi then slots[i].(done := true) else slots[i])
  }

  lemma GivenBackNone(slots: seq<Slot>, hi: nat)
    ensures GivenBack(slots, hi, hi) == slots
  {
  }

  lemma GivenBackMore(slots: seq<Slot>, lo: nat, hi: nat)
    requires lo < hi <= |slots|
    ensures var given := GivenBack(slots, lo + 1, hi);
            GivenBack(slots, lo, hi) == given[lo := Slot(given[lo].skb, given[lo].desc, true)]
  {
  }

  lemma GivenBackBefore(slots: seq<Slot>, lo: nat, hi: nat, n: nat)
    requires n <= lo && n <= |slots|
    ensures GivenBack(slots, lo, hi)[..n] == slots[..n]
  {
  }

  lemma EnqueueOutcome(tx: Tx, p: Packet)
    ensures var slots := SlotsOf(p.skb, DescsOf(p));
            Enqueue(tx, p) == if Decide(Avail(tx), p) != Accepted then tx
                              else Tx(tx.size, Extend(tx.size, tx.queue, slots),
                                      tx.users[p.skb := tx.users[p.skb] + |slots|])
    ensures |SlotsOf(p.skb, DescsOf(p))| == |DescsOf(p)|
  {
  }

  lemma DecidePlain(avail: int, p: Packet)
    requires p.mss == 0
    ensures DescsOf(p) == PlainDescs(p.hdrLen + p.linear, p.frags) && |DescsOf(p)| == |p.frags| + 1
    ensures Decide(avail, p) == if avail < |p.frags| + 1 then Busy
                                else if 0 <= p.failAt <= |p.frags| then Rejected else Accepted
  {
  }

  lemma LinearStarts(p: Packet)
    requires p.mss > 0 && p.linear > 0
    ensures |DescsOf(p)| >= 2
  {
  }

  class Vring {
    const size: nat
    const va: array<HwDesc>
    const ctx: array<Option<Skb>>
    var swhead: nat
    var swtail: nat
    var users: multiset<Skb>

    ghost predicate Valid()
      reads this
    {
      0 < size == va.Length == ctx.Length && swhead < size && swtail < size
    }

    function Used(): (n: nat)
      requires Valid()
      reads this
      ensures n < size
    {
      if swhead >= swtail then swhead - swtail else swhead + size - swtail
    }

    /** All slots, in ring order from the tail. */
    ghost function Ring(): (slots: seq<Slot>)
      requires Valid()
      reads this, va, ctx
      ensures |slots| == size
    {
      Rotate(Zip(va[..], ctx[..]), swtail)
    }

    /** The live slots: those in [swtail, swhead). */
    ghost function View(): Tx
      requires Valid()
      reads this, va, ctx
    {
      Tx(size, Ring()[..Used()], users)
    }

    /** `wil_vring_alloc` */
    constructor (size: nat)
      requires size > 0
      ensures Valid() && this.size == size && View() == Tx(size, [], multiset{})
      ensures fresh(va) && fresh(ctx)
    {
      this.size := size;
      swhead, swtail, users := 0, 0, multiset{};
      va := new HwDesc[size](_ => HwDesc(Desc(Header, 0, 0, 0, false, 0), true));
      ctx := new Option<Skb>[size](_ => None);
    }

    /** `wil_vring_avail_tx` */
    method AvailTx() returns (avail: int)
      requires Valid()
      ensures avail == Avail(View())
    {
      var used := (size + swhead - swtail) % size;
      ModWrap(size + swhead - swtail, size);
      avail := size - used - 1;
    }

    /** `wil_vring_advance_head` */
    method AdvanceHead(n: nat)
      requires Valid() && Used() + n <= size
      modifies `swhead
      ensures Valid() && Ring() == old(Ring())
      ensures Used() == if old(Used()) + n < size then old(Used()) + n else 0
    {
      ModWrap(swhead + n, size);
      swhead := (swhead + n) % size;
    }

    /** One reference dropped; the packet must still have one. */
    method KfreeSkb(skb: Skb)
      requires users[skb] > 0
      modifies `users
      ensures users == old(users) - multiset{skb}
    {
      users := users - multiset{skb};
    }

    /** Position `n` places after the head, which lies behind the live slots. */
    method HeadIndex(n: nat) returns (i: nat)
      requires Valid() && Used() + n < size
      ensures i == Wrap(swtail + (Used() + n), size)
    {
      ModWrap(swhead + n, size);
      i := (swhead + n) % size;
    }

    /** A descriptor is mapped and a reference taken for it (`wil_tx_desc_map`, `skb_get`). */
    method PutDesc(n: nat, skb: Skb, desc: Desc)
      requires Valid() && Used() + n < size
      modifies va, ctx, `users
      ensures Valid() && Ring() == old(Ring())[Used() + n := Slot(Some(skb), desc, false)]
      ensures users == old(users)[skb := old(users)[skb] + 1]
    {
      var i := HeadIndex(n);
      ghost var before := Zip(va[..], ctx[..]);
      va[i] := HwDesc(desc, false);
      ctx[i] := Some(skb);
      users := users[skb := users[skb] + 1];
      assert Zip(va[..], ctx[..]) == before[i := Slot(Some(skb), desc, false)];
      RotateUpdate(before, swtail, Used() + n, Slot(Some(skb), desc, false));
    }

    /** A descriptor written before is changed in place, or given back to software. */
    method Modify(n: nat, d: HwDesc)
      requires Valid() && Used() + n < size
      modifies va
      ensures Valid() && Ring() == old(Ring())[Used() + n := Slot(old(Ring())[Used() + n].skb, d.desc, d.du)]
    {
      var i := HeadIndex(n);
      ghost var before := Zip(va[..], ctx[..]);
      va[i] := d;
      assert Zip(va[..], ctx[..]) == before[i := Slot(ctx[i], d.desc, d.du)];
      RotateUpdate(before, swtail, Used() + n, Slot(ctx[i], d.desc, d.du));
    }

    method Read(n: nat) returns (d: HwDesc)
      requires Valid() && Used() + n < size
      ensures d == HwDesc(Ring()[Used() + n].desc, Ring()[Used() + n].done)
    {
      var i := HeadIndex(n);
      d := va[i];
      RotateUpdate(Zip(va[..], ctx[..]), swtail, Used() + n, Slot(ctx[i], d.desc, d.du));
    }

    /** The live slots are `live`, and behind them `descs` have been written for `skb`. */
    ghost predicate Filled(live: seq<Slot>, skb: Skb, descs: seq<Desc>)
      reads this, va, ctx
    {
      && Valid() && |live| == Used() && Used() + |descs| <= size
      && Ring()[..Used() + |descs|] == live + SlotsOf(skb, descs)
    }

    method Emit(n: nat, skb: Skb, desc: Desc, ghost live: seq<Slot>, ghost descs: seq<Desc>)
      requires Filled(live, skb, descs) && n == |descs| && Used() + n < size
      modifies va, ctx, `users
      ensures Filled(live, skb, descs + [desc])
      ensures users == old(users)[skb := old(users)[skb] + 1]
    {
      SlotsSnoc(skb, descs, desc);
      hide SlotsOf;
      PutDesc(n, skb, desc);
      ghost var before := old(Ring());
      assert before[Used() + n := Slot(Some(skb), desc, false)][..Used() + n + 1]
        == before[..Used() + n] + [Slot(Some(skb), desc, false)];
    }

    /** The head moves over the descriptors written. */
    method Commit(n: nat, ghost live: seq<Slot>, ghost skb: Skb, ghost descs: seq<Desc>)
      requires Filled(live, skb, descs) && n == |descs|
      modifies `swhead
      ensures Valid() && View() == Tx(size, Extend(size, live, SlotsOf(skb, descs)), users)
    {
      AdvanceHead(n);
    }

    method Rewrite(n: nat, desc: Desc, ghost live: seq<Slot>, ghost skb: Skb, ghost descs: seq<Desc>)
      requires Filled(live, skb, descs) && n < |descs|
      modifies va
      ensures Filled(live, skb, descs[n := desc])
    {
      Modify(n, HwDesc(desc, false));
      var x := Slot(Some(skb), desc, false);
      assert old(Ring())[Used() + n] == (live + SlotsOf(skb, descs))[Used() + n];
      assert SlotsOf(skb, descs[n := desc]) == SlotsOf(skb, descs)[n := x];
      assert (live + SlotsOf(skb, descs))[Used() + n := x] == live + SlotsOf(skb, descs)[n := x];
    }

    method ReadBack(n: nat, ghost live: seq<Slot>, ghost skb: Skb, ghost descs: seq<Desc>) returns (desc: Desc)
      requires Filled(live, skb, descs) && n < |descs|
      ensures desc == descs[n]
    {
      var d := Read(n);
      desc := d.desc;
      assert Ring()[Used() + n] == (live + SlotsOf(skb, descs))[Used() + n];
    }

    /** `wil_tx_last_desc` on the previous descriptor, `wil_set_tx_desc_count` on the first one
        of the group. */
    method CloseGroup(v: Vars, ghost live: seq<Slot>, ghost skb: Skb, ghost c: Cut)
      requires Tracks(v, c) && Filled(live, skb, c.descs)
      modifies va
      ensures Filled(live, skb, MarkGroup(c))
    {
      hide Filled;
      var d := ReadBack(v.n - 1, live, skb, c.descs);
      Rewrite(v.n - 1, d.(eop := true), live, skb, c.descs);
      ghost var descs := c.descs[v.n - 1 := d.(eop := true)];
      if v.sg >= 0 {
        var first := ReadBack(v.sg, live, skb, descs);
        Rewrite(v.sg, first.(count := v.sgCnt + v.extra), live, skb, descs);
      }
    }

    /** The branch of the inner loop that completes a full segment. */
    method NextGroup(p: Packet, v: Vars, ghost c: Cut, ghost live: seq<Slot>) returns (w: Vars)
      requires Tracks(v, c) && Filled(live, p.skb, c.descs)
      modifies va
      ensures Tracks(w, NewGroup(c, p.mss)) && Filled(live, p.skb, NewGroup(c, p.mss).descs)
      ensures w.n == v.n && w.rem == p.mss
    {
      hide Filled, MarkGroup;
      CloseGroup(v, live, p.skb, c);
      w := v.(sg := -1, sgCnt := 0, rem := p.mss, extra := 0);
    }

    /** The branch of the inner loop that maps `n` more bytes of fragment f. */
    method NextPiece(p: Packet, f: nat, off: int, n: int, v: Vars, ghost c: Cut, ghost live: seq<Slot>)
      returns (w: Vars)
      requires Tracks(v, c) && Filled(live, p.skb, c.descs) && Used() + v.n < size
      modifies va, ctx, `users
      ensures Tracks(w, Append(c, f, off, n)) && Filled(live, p.skb, Append(c, f, off, n).descs)
      ensures w.n == v.n + 1 && w.rem == v.rem - n
      ensures users == old(users)[p.skb := old(users)[p.skb] + 1]
    {
      hide Filled;
      var d := Desc(Frag(f), off, n, if v.firstData then 2 else 1, false, 1);
      Emit(v.n, p.skb, d, live, c.descs);
      w := Vars(v.n + 1, if v.sg == -1 then v.n else v.sg, v.sgCnt + 1, v.rem - n, v.extra, true);
    }

    /** The inner loop of `wil_tx_vring_tso`, on fragment f. It gives up when the ring has no
        room or a mapping fails. */
    method FillFrag(p: Packet, f: nat, avail: int, v0: Vars, ghost c0: Cut, ghost live: seq<Slot>)
      returns (ok: bool, v: Vars, ghost c: Cut)
      requires Valid() && p.mss > 0 && f < |p.frags| && Tracks(v0, c0)
      requires Filled(live, p.skb, c0.descs) && v0.n <= avail == size - Used() - 1
      requires !(0 <= p.failAt < v0.n)
      modifies va, ctx, `users
      ensures Tracks(v, c) && Filled(live, p.skb, c.descs) && v0.n <= v.n <= avail
      ensures users == old(users)[p.skb := old(users)[p.skb] + v.n - v0.n]
      ensures var end := CutFrag(c0, f, p.frags[f], p.frags[f], p.mss);
              if ok then c == end && !(0 <= p.failAt < v.n)
              else v.n < |end.descs| && (p.failAt == v.n || avail == v.n)
    {
      hide Filled, NewGroup, Append;
      v, c := v0, c0;
      var fragSize := p.frags[f];
      var len: int := fragSize;
      ghost var end := CutFrag(c0, f, fragSize, fragSize, p.mss);
      while len > 0
        invariant Tracks(v, c) && Filled(live, p.skb, c.descs)
        invariant v0.n <= v.n <= avail && !(0 <= p.failAt < v.n)
        invariant users == old(users)[p.skb := old(users)[p.skb] + v.n - v0.n]
        invariant CutFrag(c, f, fragSize, len, p.mss) == end
        decreases if v.rem < 0 then 1 else 0, len, if v.rem == 0 then 1 else 0
      {
        if v.rem == 0 {
          v := NextGroup(p, v, c, live);
          c := NewGroup(c, p.mss);
        } else {
          var n := if len > v.rem then v.rem else len;
          if v.n == avail || v.n == p.failAt {
            return false, v, c;
          }
          v := NextPiece(p, f, fragSize - len, n, v, c, live);
          c := Append(c, f, fragSize - len, n);
          len := len - n;
        }
      }
      ok := true;
    }

    /** The header descriptor, and one for what else is in the linear part. */
    method FillHead(p: Packet, ghost live: seq<Slot>) returns (ok: bool, v: Vars, ghost c: Cut)
      requires Valid() && p.mss > 0 && Filled(live, p.skb, [])
      requires Used() + 1 < size && p.failAt != 0
      modifies va, ctx, `users
      ensures Tracks(v, c) && Filled(live, p.skb, c.descs) && v.n <= 2
      ensures users == old(users)[p.skb := old(users)[p.skb] + v.n]
      ensures if ok then c == Start(p.hdrLen, p.linear, p.mss) && !(0 <= p.failAt < v.n)
              else v.n == 1 == p.failAt && p.linear > 0
    {
      hide Filled;
      var hdr := Desc(Header, 0, p.hdrLen, 0, true, 1);
      Emit(0, p.skb, hdr, live, []);
      assert [] + [hdr] == [hdr];
      v := Vars(1, -1, 0, p.mss, 1, false);
      c := Cut([hdr], -1, 0, p.mss, 1);
      ok := true;
      if p.linear > 0 {
        if p.failAt == 1 {
          return false, v, c;
        }
        var d := Desc(Linear, 0, p.linear, 1, false, 1);
        Emit(1, p.skb, d, live, [hdr]);
        assert [hdr] + [d] == [hdr, d];
        v := Vars(2, 1, 1, p.mss - p.linear, 1, true);
        c := Start(p.hdrLen, p.linear, p.mss);
      }
    }

    /** After the loops: the last group, the last descriptor's type, the total in the header. */
    method FillEnd(v: Vars, ghost live: seq<Slot>, ghost skb: Skb, ghost c: Cut)
      requires Tracks(v, c) && Filled(live, skb, c.descs)
      modifies va
      ensures Filled(live, skb, Finish(c))
    {
      hide Filled;
      CloseGroup(v, live, skb, c);
      ghost var descs := MarkGroup(c);
      var last := ReadBack(v.n - 1, live, skb, descs);
      Rewrite(v.n - 1, last.(seg := 3), live, skb, descs);
      descs := descs[v.n - 1 := last.(seg := 3)];
      var hdr := ReadBack(0, live, skb, descs);
      Rewrite(0, hdr.(count := v.n), live, skb, descs);
    }

    /** The outer loop of `wil_tx_vring_tso`. */
    method FillFrags(p: Packet, avail: int, v0: Vars, ghost c0: Cut, ghost live: seq<Slot>)
      returns (ok: bool, v: Vars, ghost c: Cut)
      requires Valid() && p.mss > 0 && Tracks(v0, c0) && Filled(live, p.skb, c0.descs)
      requires avail == size - Used() - 1 && (p.frags != [] ==> v0.n <= avail) && !(0 <= p.failAt < v0.n)
      modifies va, ctx, `users
      ensures Tracks(v, c) && Filled(live, p.skb, c.descs) && (p.frags != [] ==> v.n <= avail)
      ensures v.n >= v0.n && users == old(users)[p.skb := old(users)[p.skb] + v.n - v0.n]
      ensures var end := CutFrags(c0, p.frags, 0, p.mss);
              if ok then c == end && !(0 <= p.failAt < v.n)
              else p.frags != [] && v.n < |end.descs| && (p.failAt == v.n || avail == v.n)
    {
      hide Filled, MarkGroup;
      ok, v, c := true, v0, c0;
      ghost var end := CutFrags(c0, p.frags, 0, p.mss);
      for f := 0 to |p.frags|
        invariant ok && Tracks(v, c) && Filled(live, p.skb, c.descs)
        invariant CutFrags(c, p.frags, f, p.mss) == end
        invariant !(0 <= p.failAt < v.n) && v.n >= v0.n
        invariant p.frags != [] ==> v.n <= avail
        invariant users == old(users)[p.skb := old(users)[p.skb] + v.n - v0.n]
      {
        ok, v, c := FillFrag(p, f, avail, v, c, live);
        if !ok {
          return;
        }
      }
    }

    /** The part of `wil_tx_vring_tso` that writes descriptors. When it gives up, `n` of them
        have been written. */
    method FillTso(p: Packet, avail: int, ghost live: seq<Slot>)
      returns (ok: bool, n: nat, ghost descs: seq<Desc>)
      requires Valid() && p.mss > 0 && Filled(live, p.skb, [])
      requires avail == size - Used() - 1 && avail >= 3 * |p.frags| + 1
      modifies va, ctx, `users
      ensures n == |descs| && Filled(live, p.skb, descs)
      ensures users == old(users)[p.skb := old(users)[p.skb] + n]
      ensures var all := DescsOf(p);
              if ok then descs == all && !(0 <= p.failAt < n) && (p.frags != [] ==> n <= avail)
              else n < |all| && n <= avail && (p.failAt == n || (p.frags != [] && avail == n))
    {
      if p.failAt == 0 {
        return false, 0, [];
      }
      hide Filled, MarkGroup, CutFrags, Start, Finish;
      var v: Vars;
      ghost var c: Cut;
      ok, v, c := FillHead(p, live);
      ghost var start := Start(p.hdrLen, p.linear, p.mss);
      if !ok {
        LinearStarts(p);
        return false, 1, c.descs;
      }
      ok, v, c := FillFrags(p, avail, v, c, live);
      if !ok {
        return false, v.n, c.descs;
      }
      FillEnd(v, live, p.skb, c);
      ok, n, descs := true, v.n, Finish(c);
    }

    /** The slot n places behind the head is software's again, like those after it. */
    method GiveBack(n: nat, ghost before: seq<Slot>, ghost hi: nat)
      requires Valid() && |before| == size && Used() + n < hi <= size
      requires Ring() == GivenBack(before, Used() + n + 1, hi)
      modifies va
      ensures Valid() && Ring() == GivenBack(before, Used() + n, hi)
    {
      GivenBackMore(before, Used() + n, hi);
      var d := Read(n);
      hide Ring, GivenBack;
      Modify(n, d.(du := true));
    }

    /** The rollback of `wil_tx_vring_tso` drops one reference for each descriptor written. It
        gives back the slots one further than those: the header keeps its slot, and the slot
        behind the last one written is given back although it was not. */
    method RollBackTso(skb: Skb, n: nat, ghost live: seq<Slot>, ghost descs: seq<Desc>)
      requires Valid() && Filled(live, skb, descs) && n == |descs| && Used() + n < size && users[skb] >= n
      modifies va, `users
      ensures Valid() && Ring()[..Used()] == live
      ensures users == old(users)[skb := old(users)[skb] - n]
      ensures Ring() == GivenBack(old(Ring()), Used() + 1, Used() + n + 1)
    {
      ghost var before := Ring();
      var k := n;
      GivenBackNone(before, Used() + n + 1);
      hide Filled, Ring, GivenBack;
      while k > 0
        invariant 0 <= k <= n && Valid() && Ring() == GivenBack(before, Used() + k + 1, Used() + n + 1)
        invariant users == old(users)[skb := old(users)[skb] - (n - k)]
      {
        GiveBack(k, before, Used() + n + 1);
        k := k - 1;
        KfreeSkb(skb);
      }
      GivenBackBefore(before, Used() + 1, Used() + n + 1, Used());
    }

    /** `wil_tx_vring_tso` */
    method TxVringTso(p: Packet) returns (rc: Rc)
      requires Valid() && p.mss > 0
      modifies this, va, ctx
      ensures Valid() && View() == Enqueue(old(View()), p) && rc == Decide(Avail(old(View())), p)
      ensures rc != Accepted ==> View() == old(View())
      ensures rc == Busy <==> Avail(old(View())) < 3 * |p.frags| + 1
      ensures var n := |TsoDescs(p.hdrLen, p.linear, p.frags, p.mss)|;
              rc == Rejected <==>
                rc != Busy && (!p.tcp || 0 <= p.failAt < n || (p.frags != [] && n > Avail(old(View()))))
    {
      var avail := AvailTx();
      ghost var live := Ring()[..Used()];
      EnqueueOutcome(View(), p);
      if avail < 3 * |p.frags| + 1 {
        return Busy;
      }
      if !p.tcp {
        return Rejected;
      }
      assert SlotsOf(p.skb, []) == [];
      hide Filled, TsoDescs, SlotsOf, Extend, Ring;
      var ok, n, descs := FillTso(p, avail, live);
      if !ok {
        RollBackTso(p.skb, n, live, descs);
        return Rejected;
      }
      Commit(n, live, p.skb, descs);
      return Accepted;
    }

    /** The mapping loop of `wil_tx_vring`, up to the first failure. The end-of-packet mark is
        set afterwards. */
    method FillPlain(p: Packet, ghost live: seq<Slot>) returns (n: nat, ghost descs: seq<Desc>)
      requires Valid() && Filled(live, p.skb, []) && Used() + |p.frags| + 1 < size && p.failAt != 0
      modifies va, ctx, `users
      ensures n == |descs| && Filled(live, p.skb, descs)
      ensures users == old(users)[p.skb := old(users)[p.skb] + n]
      ensures n == if 0 <= p.failAt <= |p.frags| then p.failAt else |p.frags| + 1
      ensures descs == Unmarked(p.hdrLen + p.linear, p.frags)[..n]
    {
      hide Filled;
      var nr := |p.frags|;
      ghost var all := Unmarked(p.hdrLen + p.linear, p.frags);
      Emit(0, p.skb, Desc(Linear, 0, p.hdrLen + p.linear, 0, false, nr + 1), live, []);
      descs := [] + [Desc(Linear, 0, p.hdrLen + p.linear, 0, false, nr + 1)];
      n := 1;
      while n <= nr
        invariant 1 <= n <= nr + 1 && !(0 <= p.failAt < n)
        invariant n == |descs| && Filled(live, p.skb, descs) && descs == all[..n]
        invariant users == old(users)[p.skb := old(users)[p.skb] + n]
      {
        if n == p.failAt {
          return;
        }
        Emit(n, p.skb, Desc(Frag(n - 1), 0, p.frags[n - 1], 0, false, nr + 1), live, descs);
        descs := descs + [Desc(Frag(n - 1), 0, p.frags[n - 1], 0, false, nr + 1)];
        n := n + 1;
      }
    }

    /** The rollback of `wil_tx_vring` gives back exactly the slots that were written, the last
        first, and drops one reference for each. */
    method RollBack(skb: Skb, n: nat, ghost live: seq<Slot>, ghost descs: seq<Desc>)
      requires Filled(live, skb, descs) && n == |descs| && users[skb] >= n
      modifies va, `users
      ensures Valid() && Ring()[..Used()] == live
      ensures users == old(users)[skb := old(users)[skb] - n]
      ensures Ring() == GivenBack(old(Ring()), Used(), Used() + n)
    {
      ghost var before := Ring();
      var k := n;
      GivenBackNone(before, Used() + n);
      hide Filled, Ring, GivenBack;
      while k > 0
        invariant 0 <= k <= n && Valid() && Ring() == GivenBack(before, Used() + k, Used() + n)
        invariant users == old(users)[skb := old(users)[skb] - (n - k)]
      {
        GiveBack(k - 1, before, Used() + n);
        KfreeSkb(skb);
        k := k - 1;
      }
      GivenBackBefore(before, Used(), Used() + n, Used());
    }

    /** The part of `wil_tx_vring` that writes descriptors, the last one marked. */
    method FillMarked(p: Packet, ghost live: seq<Slot>) returns (ok: bool, n: nat, ghost descs: seq<Desc>)
      requires Valid() && Filled(live, p.skb, []) && Used() + |p.frags| + 1 < size && p.failAt != 0
      modifies va, ctx, `users
      ensures n == |descs| && Filled(live, p.skb, descs)
      ensures users == old(users)[p.skb := old(users)[p.skb] + n]
      ensures ok == !(0 <= p.failAt <= |p.frags|)
      ensures ok ==> descs == PlainDescs(p.hdrLen + p.linear, p.frags)
    {
      MarkedIsPlain(p.hdrLen + p.linear, p.frags);
      hide Filled, Unmarked, PlainDescs;
      n, descs := FillPlain(p, live);
      ok := n == |p.frags| + 1;
      if ok {
        var last := ReadBack(n - 1, live, p.skb, descs);
        Rewrite(n - 1, last.(eop := true), live, p.skb, descs);
        descs := descs[n - 1 := last.(eop := true)];
      }
    }

    /** `wil_tx_vring` */
    method TxVring(p: Packet) returns (rc: Rc)
      requires Valid() && p.mss == 0
      modifies this, va, ctx
      ensures Valid() && View() == Enqueue(old(View()), p) && rc == Decide(Avail(old(View())), p)
      ensures rc != Accepted ==> View() == old(View())
      ensures rc == Busy <==> Avail(old(View())) < |p.frags| + 1
      ensures rc == Rejected <==> rc != Busy && 0 <= p.failAt <= |p.frags|
    {
      var avail := AvailTx();
      ghost var live := Ring()[..Used()];
      DecidePlain(avail, p);
      EnqueueOutcome(View(), p);
      hide Decide, DescsOf, Enqueue;
      if avail < 1 + |p.frags| {
        return Busy;
      }
      if p.failAt == 0 {
        return Rejected;
      }
      assert SlotsOf(p.skb, []) == [];
      assert Filled(live, p.skb, []);
      hide Filled, Unmarked, PlainDescs, SlotsOf, Extend, Ring;
      var ok, n, descs := FillMarked(p, live);
      if !ok {
        RollBack(p.skb, n, live, descs);
        return Rejected;
      }
      Commit(n, live, p.skb, descs);
      return Accepted;
    }

    /** The end of `wil_start_xmit`, once the ring is found: the caller's own reference is
        dropped unless the ring is busy. Returns whether the packet is to be kept and sent
        again. */
    method StartXmit(p: Packet) returns (busy: bool)
      requires Valid() && users[p.skb] > 0
      modifies this, va, ctx
      ensures Valid() && busy == (Decide(Avail(old(View())), p) == Busy)
      ensures busy <==> Avail(old(View())) < (if p.mss > 0 then 3 * |p.frags| else |p.frags|) + 1
      ensures var tx := Enqueue(old(View()), p);
              View() == if busy then old(View()) else tx.(users := tx.users - multiset{p.skb})
    {
      hide DescsOf, SlotsOf;
      var rc: Rc;
      if p.mss > 0 {
        rc := TxVringTso(p);
      } else {
        rc := TxVring(p);
      }
      if rc == Busy {
        return true;
      }
      KfreeSkb(p.skb);
      return false;
    }

    /** The ring's slots still hold the references they stand for. */
    ghost predicate Backed()
      requires Valid()
      reads this, va, ctx
    {
      forall s: Skb :: Held(View().queue, s) <= users[s]
    }

    /** What clean-up and teardown ask for holds after every run of the ring's events. */
    lemma GoodIsBacked(w: TxRuns.World)
      requires Valid() && w.tx == View() && TxRuns.Good(w)
      ensures Backed()
    {
      hide Held, Ring;
      assert forall s: Skb :: Held(w.tx.queue, s) <= w.tx.users[s];
    }

    /** Index t is j places after the tail. */
    ghost predicate Place(t: nat, j: nat)
      reads this
    {
      Valid() && j <= Used() && t == Wrap(swtail + j, size)
    }

    lemma PlaceSame(t: nat, j: nat, u: nat, k: nat)
      requires Place(t, j) && Place(u, k)
      ensures t == u <==> j == k
    {
    }

    lemma PlaceEnds(t: nat, j: nat)
      requires Place(t, j)
      ensures Valid() && (t == swhead <==> j == Used())
    {
    }

    /** The slot at index t, j places after the tail. */
    method At(t: nat, ghost j: nat) returns (slot: Slot)
      requires Place(t, j) && j < Used()
      ensures slot == View().queue[j]
    {
      RotateUpdate(Zip(va[..], ctx[..]), swtail, j, Ring()[j]);
      slot := Slot(ctx[t], va[t].desc, va[t].du);
    }

    /** `(t + 1) % size` */
    method Next(t: nat, ghost j: nat) returns (u: nat)
      requires Place(t, j) && j < Used()
      ensures Place(u, j + 1)
    {
      ModWrap(t + 1, size);
      u := (t + 1) % size;
    }

    /** The first loop of `wil_tx_complete`: the index of the last descriptor marked done. */
    method LastMarked() returns (rel: nat)
      requires Valid()
      ensures Place(rel, LastDone(View().queue))
    {
      ghost var queue := View().queue;
      ghost var j := 0;
      rel := swtail;
      var t := swtail;
      ghost var last := 0;
      assert queue[..0] == [];
      while t != swhead
        invariant Place(t, j) && Place(rel, last) && last == LastDone(queue[..j])
        decreases Used() - j
      {
        PlaceEnds(t, j);
        hide Place, Wrap, Ring, LastDone;
        var slot := At(t, j);
        LastDoneSnoc(queue, j);
        if slot.done {
          rel, last := t, j;
        }
        t := Next(t, j);
        j := j + 1;
      }
      PlaceEnds(t, j);
      assert queue[..j] == queue;
    }

    /** A finished descriptor is cleared; its packet loses one reference. */
    method FreeSlot(t: nat, ghost j: nat)
      requires Place(t, j) && j < Used()
      requires Ring()[j].skb.Some? ==> users[Ring()[j].skb.value] > 0
      modifies va, ctx, `users
      ensures Valid() && Ring()[j + 1..] == old(Ring())[j + 1..]
      ensures users == Without(old(users), old(Ring())[j])
    {
      ghost var before := Zip(va[..], ctx[..]);
      RotateUpdate(before, swtail, j, Ring()[j]);
      if ctx[t].Some? {
        KfreeSkb(ctx[t].value);
      }
      ctx[t] := None;
      va[t] := HwDesc(va[t].desc.(len := 0), false);
      ghost var x := Slot(None, va[t].desc, false);
      assert Zip(va[..], ctx[..]) == before[t := x];
      RotateUpdate(before, swtail, j, x);
    }

    /** The first j of `queue` have been cleared, the rest is untouched. */
    ghost predicate Cleared(users0: multiset<Skb>, queue: seq<Slot>, j: nat)
      reads this, va, ctx
    {
      && Valid() && j <= |queue| == Used()
      && Ring()[j..Used()] == queue[j..]
      && users == Release(users0, queue[..j])
    }

    method AtCleared(t: nat, ghost users0: multiset<Skb>, ghost queue: seq<Slot>, ghost j: nat) returns (slot: Slot)
      requires Cleared(users0, queue, j) && j < |queue| && Place(t, j)
      ensures slot == queue[j]
    {
      slot := At(t, j);
      assert Ring()[j] == Ring()[j..Used()][0];
    }

    /** Clear the slot at t and step to the next. */
    method ClearOne(t: nat, ghost users0: multiset<Skb>, ghost queue: seq<Slot>, ghost j: nat) returns (u: nat)
      requires Cleared(users0, queue, j) && j < |queue| && Place(t, j)
      requires forall s: Skb :: Held(queue, s) <= users0[s]
      modifies va, ctx, `users
      ensures Cleared(users0, queue, j + 1) && Place(u, j + 1)
      ensures forall k, v :: old(Place(v, k)) ==> Place(v, k)
    {
      hide Ring, Wrap, Release, Held;
      assert Ring()[j] == Ring()[j..Used()][0];
      StillBacked(users0, queue, j);
      ReleaseOneMore(users0, queue, j);
      ghost var rest := Ring()[j + 1..];
      assert rest[..Used() - j - 1] == Ring()[j..Used()][1..];
      FreeSlot(t, j);
      assert Ring()[j + 1..Used()] == rest[..Used() - j - 1];
      assert queue[j + 1..] == queue[j..][1..];
      u := Next(t, j);
    }

    /** The tail moves over cleared descriptors. */
    method AdvanceTail(t: nat, ghost users0: multiset<Skb>, ghost queue: seq<Slot>, ghost j: nat)
      requires Cleared(users0, queue, j) && Place(t, j)
      modifies `swtail
      ensures Valid() && View() == Tx(size, queue[j..], Release(users0, queue[..j]))
    {
      RotateOn(Zip(va[..], ctx[..]), swtail, j);
      ghost var used, before := Used(), Ring();
      swtail := t;
      hide Release, Rotate;
      assert Used() == used - j;
      assert Ring()[..Used()] == before[j..used];
    }

    /** The second loop of `wil_tx_complete`, which stops at `rel`, `last` places after the tail. */
    method ClearFinished(rel: nat, ghost last: nat, ghost users0: multiset<Skb>, ghost queue: seq<Slot>)
      returns (t: nat, done: nat)
      requires Cleared(users0, queue, 0) && Place(rel, last) && last <= |queue|
      requires forall s: Skb :: Held(queue, s) <= users0[s]
      modifies va, ctx, `users
      ensures done == FirstStuck(queue, 0, last)
      ensures Cleared(users0, queue, done) && Place(t, done)
    {
      done := 0;
      t := swtail;
      assert Place(t, 0);
      hide Place, Cleared, Release, FirstStuck, Ring, Wrap, Held;
      while t != rel
        invariant Place(t, done) && Place(rel, last) && done <= last
        invariant Cleared(users0, queue, done)
        invariant forall k :: 0 <= k < done ==> queue[k].desc.eop ==> queue[k].done
        decreases last - done
      {
        PlaceSame(t, done, rel, last);
        var slot := AtCleared(t, users0, queue, done);
        if slot.desc.eop && !slot.done {
          break;
        }
        t := ClearOne(t, users0, queue, done);
        done := done + 1;
      }
      PlaceSame(t, done, rel, last);
      FirstStuckIs(queue, last, done);
    }

    /** `wil_tx_complete`; the number of descriptors cleared is returned. */
    method TxComplete() returns (done: nat)
      requires Valid() && Backed()
      modifies this, va, ctx
      ensures Valid() && View() == TxQueue.Complete(old(View()))
      ensures done == FreeCount(old(View()).queue)
    {
      var rel := LastMarked();
      ghost var users0, queue := users, View().queue;
      assert Cleared(users0, queue, 0);
      hide Place, Cleared, LastDone, Release, FirstStuck, Ring, Wrap, Held;
      var t: nat;
      t, done := ClearFinished(rel, LastDone(queue), users0, queue);
      AdvanceTail(t, users0, queue, done);
    }

    /** `wil_vring_free`, for a transmit ring: every live slot gives its reference back, and the
        tail follows. */
    method VringFree()
      requires Valid() && Backed()
      modifies this, va, ctx
      ensures Valid() && View() == Teardown(old(View()))
    {
      ghost var users0, queue := users, View().queue;
      ghost var j := 0;
      var t := swtail;
      assert Place(t, 0) && Cleared(users0, queue, 0);
      while t != swhead
        invariant Place(t, j) && Cleared(users0, queue, j)
        invariant swhead == old(swhead)
        decreases |queue| - j
      {
        PlaceEnds(t, j);
        t := ClearOne(t, users0, queue, j);
        j := j + 1;
      }
      PlaceEnds(t, j);
      AdvanceTail(t, users0, queue, j);
      assert queue[..j] == queue && queue[j..] == [];
    }
  }

  /** The references left once a slot has given up its own. */
  function Without(users: multiset<Skb>, x: Slot): multiset<Skb> {
    if x.skb.Some? then users - multiset{x.skb.value} else users
  }

  lemma ReleaseOneMore(users: multiset<Skb>, queue: seq<Slot>, k: nat)
    requires k < |queue|
    ensures Release(users, queue[..k + 1]) == Without(Release(users, queue[..k]), queue[k])
  {
    ReleaseSnoc(users, queue[..k], queue[k]);
    assert queue[..k + 1] == queue[..k] + [queue[k]];
  }

  lemma {:induction false} ReleaseSnoc(users: multiset<Skb>, slots: seq<Slot>, x: Slot)
    ensures Release(users, slots + [x]) == Without(Release(users, slots), x)
  {
    if slots == [] {
      assert Release(Without(users, x), []) == Without(users, x);
      assert (slots + [x])[1..] == [];
    } else {
      ReleaseSnoc(Without(users, slots[0]), slots[1..], x);
      assert (slots + [x])[1..] == slots[1..] + [x];
    }
  }

  /** While slots are released in order, each still has the reference it stands for. */
  lemma StillBacked(users: multiset<Skb>, queue: seq<Slot>, k: nat)
    requires k < |queue| && forall s: Skb :: Held(queue, s) <= users[s]
    ensures queue[k].skb.Some? ==> Release(users, queue[..k])[queue[k].skb.value] > 0
  {
    var gone, rest := queue[..k], queue[k..];
    assert queue == gone + rest;
    forall s: Skb
      ensures Held(queue, s) == Held(gone, s) + Held(rest, s)
    {
      HeldConcat(gone, rest, s);
    }
    if queue[k].skb.Some? {
      var s := queue[k].skb.value;
      assert Held(queue, s) <= users[s];
      ReleaseCounts(users, gone, s);
    }
  }

  lemma SlotsSnoc(skb: Skb, descs: seq<Desc>, desc: Desc)
    ensures SlotsOf(skb, descs + [desc]) == SlotsOf(skb, descs) + [Slot(Some(skb), desc, false)]
  {
  }

  lemma MarkedIsPlain(headLen: int, frags: seq<nat>)
    ensures var all := Unmarked(headLen, frags);
            && all[..|frags| + 1] == all
            && all[|frags| := all[|frags|].(eop := true)] == PlainDescs(headLen, frags)
  {
  }

  /** The plain descriptors before the last one is marked. */
  function Unmarked(headLen: int, frags: seq<nat>): (descs: seq<Desc>)
    ensures |descs| == |frags| + 1
  {
    seq(|frags| + 1, k requires 0 <= k <= |frags| =>
      if k == 0 then Desc(Linear, 0, headLen, 0, false, |frags| + 1)
      else Desc(Frag(k - 1), 0, frags[k - 1], 0, false, |frags| + 1))
  }
}
