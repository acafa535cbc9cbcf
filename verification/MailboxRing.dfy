/**
 One mailbox ring between host and card, as section "mailbox for WMI commands events" of
 wil6210.txt documents it: entries with a sync flag, a head that only the producer moves and
 a tail that only the consumer moves. Both sides work in small steps that interleave freely.
 For commands the host produces (`__wmi_send`); for events it consumes (`wmi_recv_cmd`). The
 other side is firmware that keeps to the same discipline.
 */
module MailboxRing {
  import opened CircularBuffer
  import opened Modular

  /** How far the producer has got with one entry. */
  datatype Producer<M> = PIdle | PFree | PRoom | PWritten(m: M) | PMarked(m: M)

  /** How far the consumer has got with one entry. */
  datatype Consumer<M> = CIdle | CWaiting | CFull | CCopied(m: M) | CCleared(m: M)

  datatype Ring<M> = Ring(
    head: nat, tail: nat, sync: seq<bool>, buf: seq<M>,
    producer: Producer<M>, consumer: Consumer<M>,
    produced: seq<M>, consumed: seq<M>)

  datatype Step<M> =
    | CheckSync          // the entry at the head is free
    | CheckRoom          // the next entry is not the tail
    | GiveUp             // the send fails, for whatever reason
    | Write(m: M)        // fill the entry's buffer
    | SetSync            // mark the entry full
    | MoveHead           // advance the head; the message is posted
    | SeeHead            // tail and head differ
    | SeeSync            // the entry at the tail is marked full
    | Abandon            // stop early: unreadable header, no memory
    | Copy               // take the message out of the buffer
    | ClearSync          // mark the entry empty
    | MoveTail           // advance the tail; the message is taken

  function NextOf<M>(r: Ring<M>, i: nat): (j: nat)
    requires |r.sync| > 0 && i < |r.sync|
    ensures j < |r.sync|
  {
    Wrap(i + 1, |r.sync|)
  }

  ghost predicate Shape<M>(r: Ring<M>) {
    1 < |r.sync| == |r.buf| && r.head < |r.sync| && r.tail < |r.sync|
  }

  ghost predicate Enabled<M>(r: Ring<M>, st: Step<M>)
    requires Shape(r)
  {
    match st
    case CheckSync => r.producer.PIdle? && !r.sync[r.head]
    case CheckRoom => r.producer.PFree? && NextOf(r, r.head) != r.tail
    case GiveUp => r.producer.PIdle? || r.producer.PFree? || r.producer.PRoom?
    case Write(_) => r.producer.PRoom?
    case SetSync => r.producer.PWritten?
    case MoveHead => r.producer.PMarked?
    case SeeHead => r.consumer.CIdle? && r.tail != r.head
    case SeeSync => r.consumer.CWaiting? && r.sync[r.tail]
    case Abandon => r.consumer.CWaiting? || r.consumer.CFull?
    case Copy => r.consumer.CFull?
    case ClearSync => r.consumer.CCopied?
    case MoveTail => r.consumer.CCleared?
  }

  function Do<M>(r: Ring<M>, st: Step<M>): (next: Ring<M>)
    requires Shape(r) && Enabled(r, st)
    ensures Shape(next) && |next.sync| == |r.sync|
  {
    match st
    case CheckSync => r.(producer := PFree)
    case CheckRoom => r.(producer := PRoom)
    case GiveUp => r.(producer := PIdle)
    case Write(m) => r.(producer := PWritten(m), buf := r.buf[r.head := m])
    case SetSync => r.(producer := PMarked(r.producer.m), sync := r.sync[r.head := true])
    case MoveHead =>
      r.(producer := PIdle, head := NextOf(r, r.head), produced := r.produced + [r.producer.m])
    case SeeHead => r.(consumer := CWaiting)
    case SeeSync => r.(consumer := CFull)
    case Abandon => r.(consumer := CIdle)
    case Copy => r.(consumer := CCopied(r.buf[r.tail]))
    case ClearSync => r.(consumer := CCleared(r.consumer.m), sync := r.sync[r.tail := false])
    case MoveTail =>
      r.(consumer := CIdle, tail := NextOf(r, r.tail), consumed := r.consumed + [r.consumer.m])
  }

  /** The number of entries posted and not yet taken. */
  function Used<M>(r: Ring<M>): (n: nat)
    requires r.head < |r.sync| && r.tail < |r.sync|
    ensures n < |r.sync|
  {
    if r.head >= r.tail then r.head - r.tail else r.head + |r.sync| - r.tail
  }

  /** The messages in [tail, head). */
  function Contents<M>(r: Ring<M>): (ms: seq<M>)
    requires Shape(r)
    ensures |ms| == Used(r)
  {
    seq(Used(r), k requires 0 <= k < Used(r) => r.buf[Wrap(r.tail + k, |r.sync|)])
  }

  /** The entry k places after the tail is marked full: the posted ones, until the consumer
      clears the first, and the one being posted. */
  predicate Marked<M>(r: Ring<M>, k: nat)
    requires Shape(r)
  {
    (k < Used(r) && !(k == 0 && r.consumer.CCleared?)) || (k == Used(r) && r.producer.PMarked?)
  }

  ghost predicate Inv<M>(r: Ring<M>) {
    && Shape(r)
    && (forall k: nat :: k < |r.sync| ==> r.sync[Wrap(r.tail + k, |r.sync|)] == Marked(r, k))
    && (r.producer.PRoom? || r.producer.PWritten? || r.producer.PMarked? ==> Used(r) + 1 < |r.sync|)
    && (r.producer.PWritten? || r.producer.PMarked? ==> r.buf[r.head] == r.producer.m)
    && (!r.consumer.CIdle? ==> Used(r) > 0)
    && (r.consumer.CCopied? || r.consumer.CCleared? ==> r.buf[r.tail] == r.consumer.m)
    && r.consumed + Contents(r) == r.produced
  }

  // --- positions ---

  lemma WrapInjective(t: nat, j: nat, k: nat, n: nat)
    requires t < n && j < n && k < n
    ensures Wrap(t + j, n) == Wrap(t + k, n) <==> j == k
  {
  }

  lemma HeadPlace<M>(r: Ring<M>)
    requires Shape(r)
    ensures Wrap(r.tail + Used(r), |r.sync|) == r.head && Wrap(r.tail + 0, |r.sync|) == r.tail
  {
  }

  // --- every step keeps the invariant ---

  /** What the ring holds depends on the posted entries' buffers only. */
  lemma SameContents<M>(r: Ring<M>, d: Ring<M>)
    requires Shape(r) && Shape(d) && r.head == d.head && r.tail == d.tail && |r.sync| == |d.sync|
    requires forall i :: 0 <= i < |r.buf| && i != r.head ==> d.buf[i] == r.buf[i]
    ensures Contents(d) == Contents(r)
  {
    HeadPlace(r);
    forall k | 0 <= k < Used(r)
      ensures Contents(d)[k] == Contents(r)[k]
    {
      WrapInjective(r.tail, k, Used(r), |r.sync|);
    }
  }

  lemma ProducerKeeps<M>(r: Ring<M>, st: Step<M>)
    requires Inv(r) && Enabled(r, st)
    requires st.CheckSync? || st.CheckRoom? || st.GiveUp? || st.Write? || st.SetSync?
    ensures Inv(Do(r, st)) && Used(Do(r, st)) == Used(r) && Contents(Do(r, st)) == Contents(r)
  {
    HeadPlace(r);
    var d := Do(r, st);
    var n := |r.sync|;
    SameContents(r, d);
    hide Contents;
    WrapInjective(r.tail, 0, Used(r), n);
    forall k: nat | k < n
      ensures d.sync[Wrap(d.tail + k, n)] == Marked(d, k)
    {
      WrapInjective(r.tail, k, Used(r), n);
      assert r.sync[Wrap(r.tail + k, n)] == Marked(r, k);
    }
  }

  lemma MoveHeadKeeps<M>(r: Ring<M>)
    requires Inv(r) && r.producer.PMarked?
    ensures var d := Do(r, MoveHead);
            Inv(d) && Used(d) == Used(r) + 1 && Contents(d) == Contents(r) + [r.producer.m]
  {
    HeadPlace(r);
    var d := Do(r, MoveHead);
    forall k: nat | k < |r.sync|
      ensures d.sync[Wrap(d.tail + k, |r.sync|)] == Marked(d, k)
    {
      assert r.sync[Wrap(r.tail + k, |r.sync|)] == Marked(r, k);
    }
    assert Contents(d) == Contents(r) + [r.producer.m];
  }

  lemma ConsumerKeeps<M>(r: Ring<M>, st: Step<M>)
    requires Inv(r) && Enabled(r, st)
    requires st.SeeHead? || st.SeeSync? || st.Abandon? || st.Copy? || st.ClearSync?
    ensures Inv(Do(r, st)) && Used(Do(r, st)) == Used(r) && Contents(Do(r, st)) == Contents(r)
  {
    HeadPlace(r);
    var d := Do(r, st);
    var n := |r.sync|;
    SameContents(r, d);
    hide Contents;
    forall k: nat | k < n
      ensures d.sync[Wrap(d.tail + k, n)] == Marked(d, k)
    {
      WrapInjective(r.tail, k, 0, n);
      assert r.sync[Wrap(r.tail + k, n)] == Marked(r, k);
    }
  }

  lemma MoveTailContents<M>(r: Ring<M>)
    requires Shape(r) && r.consumer.CCleared? && Used(r) > 0
    ensures var d := Do(r, MoveTail);
            && Used(d) == Used(r) - 1
            && Contents(r) == [r.buf[r.tail]] + Contents(d)
  {
    HeadPlace(r);
    var d, n := Do(r, MoveTail), |r.sync|;
    forall k | 0 <= k < Used(d)
      ensures Contents(d)[k] == Contents(r)[k + 1]
    {
      assert Wrap(d.tail + k, n) == Wrap(r.tail + (k + 1), n);
    }
  }

  lemma MoveTailKeeps<M>(r: Ring<M>)
    requires Inv(r) && r.consumer.CCleared?
    ensures var d := Do(r, MoveTail);
            Inv(d) && Used(d) == Used(r) - 1 && Contents(r) == [r.consumer.m] + Contents(d)
  {
    var d, n := Do(r, MoveTail), |r.sync|;
    MoveTailContents(r);
    forall k: nat | k < n
      ensures d.sync[Wrap(d.tail + k, n)] == Marked(d, k)
    {
      var j := Wrap(k + 1, n);
      assert Wrap(d.tail + k, n) == Wrap(r.tail + j, n);
      assert r.sync[Wrap(r.tail + j, n)] == Marked(r, j);
    }
    hide Contents, Wrap;
    assert r.consumed + ([r.consumer.m] + Contents(d)) == d.consumed + Contents(d);
  }

  lemma StepKeeps<M>(r: Ring<M>, st: Step<M>)
    requires Inv(r) && Enabled(r, st)
    ensures Inv(Do(r, st))
  {
    hide Inv, Do;
    match st
    case MoveHead => MoveHeadKeeps(r);
    case MoveTail => MoveTailKeeps(r);
    case CheckSync => ProducerKeeps(r, st);
    case CheckRoom => ProducerKeeps(r, st);
    case GiveUp => ProducerKeeps(r, st);
    case Write(_) => ProducerKeeps(r, st);
    case SetSync => ProducerKeeps(r, st);
    case _ => ConsumerKeeps(r, st);
  }

  // --- runs ---

  ghost predicate RunEnabled<M>(r: Ring<M>, steps: seq<Step<M>>)
    requires Shape(r)
    decreases |steps|
  {
    steps == [] || (Enabled(r, steps[0]) && RunEnabled(Do(r, steps[0]), steps[1..]))
  }

  function Run<M>(r: Ring<M>, steps: seq<Step<M>>): (last: Ring<M>)
    requires Shape(r) && RunEnabled(r, steps)
    ensures |last.sync| == |r.sync|
    decreases |steps|
  {
    if steps == [] then r else Run(Do(r, steps[0]), steps[1..])
  }

  function Empty<M>(n: nat, blank: M): Ring<M>
    requires n > 1
  {
    Ring(0, 0, seq(n, _ => false), seq(n, _ => blank), PIdle, CIdle, [], [])
  }

  lemma EmptyInv<M>(n: nat, blank: M)
    requires n > 1
    ensures Inv(Empty(n, blank))
  {
  }

  /** In every interleaving of the two sides, what has been taken is what was posted first, in
      order, each message once; the rest is in the ring, and the ring never fills up. */
  lemma {:induction false} RunKeeps<M>(r: Ring<M>, steps: seq<Step<M>>)
    requires Inv(r) && RunEnabled(r, steps)
    ensures var d := Run(r, steps);
            && Inv(d) && r.produced <= d.produced && r.consumed <= d.consumed
            && d.consumed <= d.produced && |d.produced| - |d.consumed| < |d.sync|
    decreases |steps|
  {
    if steps == [] {
    } else {
      StepKeeps(r, steps[0]);
      var d := Do(r, steps[0]);
      assert r.produced <= d.produced && r.consumed <= d.consumed;
      hide Inv, Do, Enabled, Shape;
      RunKeeps(d, steps[1..]);
    }
  }

  /** A message that was posted and not yet taken stays as it is, and at its place in the
      queue, whatever either side does, until it is taken as the first one. */
  lemma PostedSurvives<M>(r: Ring<M>, st: Step<M>)
    requires Inv(r) && Enabled(r, st)
    ensures if st.MoveTail? then Contents(r)[1..] == Contents(Do(r, st)) && r.consumer.m == Contents(r)[0]
            else Contents(r) <= Contents(Do(r, st))
  {
    hide Inv, Do, Contents;
    match st
    case MoveHead => MoveHeadKeeps(r);
    case MoveTail => MoveTailKeeps(r);
    case CheckSync => ProducerKeeps(r, st);
    case CheckRoom => ProducerKeeps(r, st);
    case GiveUp => ProducerKeeps(r, st);
    case Write(_) => ProducerKeeps(r, st);
    case SetSync => ProducerKeeps(r, st);
    case _ => ConsumerKeeps(r, st);
  }

  // --- addresses ---

  const ENTRY_SIZE := 8

  /** `r->base + ((r->head - r->base + sizeof(d_head)) % r->size)`, all in bytes. */
  function NextAddress(base: nat, size: nat, at: nat): nat
    requires size > 0 && base <= at
  {
    base + (at - base + ENTRY_SIZE) % size
  }

  /** The byte address computed for the next entry is that of the next index: it stays inside
      the ring and at the start of an entry. */
  lemma AddressOfNext(base: nat, n: nat, i: nat)
    requires i < n
    ensures NextAddress(base, ENTRY_SIZE * n, base + ENTRY_SIZE * i) == base + ENTRY_SIZE * Wrap(i + 1, n)
    ensures base <= base + ENTRY_SIZE * Wrap(i + 1, n) < base + ENTRY_SIZE * n
  {
    ModWrap(ENTRY_SIZE * i + ENTRY_SIZE, ENTRY_SIZE * n);
  }
}
