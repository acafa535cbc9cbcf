/**
 How `wil_tx_vring_tso` cuts a packet into transmit descriptors: one for the headers, one
 for what else is in the linear part, and the fragments cut at every multiple of the segment
 size. The functions follow the source's loop; its ring, its mappings and its failures are
 in `TxRing`.
 */
module TsoCut {

  datatype Source = Header | Linear | Frag(index: nat)

  /** The fields of a descriptor that the cutting decides. `seg` is 0 for the header, 1 for
      the first data descriptor, 2 for a middle one, 3 for the last one. */
  datatype Desc = Desc(src: Source, off: int, len: int, seg: nat, eop: bool, count: int)

  /** Descriptors so far and the loop's variables: the index of the first descriptor of the
      open group, or -1 (`sg_desc`), the group's length (`sg_desc_cnt`), the bytes the segment
      still lacks (`rem_data`), and 1 until the first group is complete
      (`end_of_first_chunck`). */
  datatype Cut = Cut(descs: seq<Desc>, sg: int, sgCnt: int, rem: int, extra: int)

  /** Set up to the point where the fragments begin. */
  function Start(hdrLen: int, linear: int, mss: int): (c: Cut)
    ensures |c.descs| > 0 && -1 <= c.sg < |c.descs|
  {
    var hdr := Desc(Header, 0, hdrLen, 0, true, 1);
    if linear > 0 then Cut([hdr, Desc(Linear, 0, linear, 1, false, 1)], 1, 1, mss - linear, 1)
    else Cut([hdr], -1, 0, mss, 1)
  }

  /** Complete the previous descriptor and write the size of its group. */
  function MarkGroup(c: Cut): (descs: seq<Desc>)
    requires |c.descs| > 0 && -1 <= c.sg < |c.descs|
    ensures |descs| == |c.descs|
  {
    var last := |c.descs| - 1;
    var descs := c.descs[last := c.descs[last].(eop := true)];
    if c.sg >= 0 then descs[c.sg := descs[c.sg].(count := c.sgCnt + c.extra)] else descs
  }

  /** A full segment was reached and more data follows. */
  function NewGroup(c: Cut, mss: int): (d: Cut)
    requires |c.descs| > 0 && -1 <= c.sg < |c.descs|
    ensures |d.descs| == |c.descs|
  {
    Cut(MarkGroup(c), -1, 0, mss, 0)
  }

  /** One more descriptor of `n` bytes from fragment f, at `off`. */
  function Append(c: Cut, f: nat, off: int, n: int): (d: Cut)
    requires |c.descs| > 0 && -1 <= c.sg < |c.descs|
    ensures |d.descs| == |c.descs| + 1 && 0 <= d.sg < |d.descs|
  {
    Cut(c.descs + [Desc(Frag(f), off, n, if |c.descs| > 1 then 2 else 1, false, 1)],
        if c.sg == -1 then |c.descs| else c.sg, c.sgCnt + 1, c.rem - n, c.extra)
  }

  /** The inner loop: `len` bytes of fragment f, of `size` bytes, are left. */
  function CutFrag(c: Cut, f: nat, size: int, len: int, mss: int): (d: Cut)
    requires mss > 0 && |c.descs| > 0 && -1 <= c.sg < |c.descs|
    ensures |d.descs| >= |c.descs| && -1 <= d.sg < |d.descs|
    decreases if c.rem < 0 then 1 else 0, len, if c.rem == 0 then 1 else 0
  {
    if len <= 0 then c
    else if c.rem == 0 then CutFrag(NewGroup(c, mss), f, size, len, mss)
    else
      var n := if len > c.rem then c.rem else len;
      CutFrag(Append(c, f, size - len, n), f, size, len - n, mss)
  }

  /** The outer loop, from fragment f on. */
  function CutFrags(c: Cut, frags: seq<nat>, f: nat, mss: int): (d: Cut)
    requires mss > 0 && |c.descs| > 0 && -1 <= c.sg < |c.descs| && f <= |frags|
    ensures |d.descs| >= |c.descs| && -1 <= d.sg < |d.descs|
    decreases |frags| - f
  {
    if f == |frags| then c else CutFrags(CutFrag(c, f, frags[f], frags[f], mss), frags, f + 1, mss)
  }

  /** After the loops: the last group, the last descriptor's type, the total in the header. */
  function Finish(c: Cut): (descs: seq<Desc>)
    requires |c.descs| > 0 && -1 <= c.sg < |c.descs|
    ensures |descs| == |c.descs|
  {
    var descs := MarkGroup(c);
    var last := |descs| - 1;
    var typed := descs[last := descs[last].(seg := 3)];
    typed[0 := typed[0].(count := |descs|)]
  }

  /** All descriptors of a packet whose linear part holds `linear` bytes beyond the headers. */
  function TsoDescs(hdrLen: int, linear: int, frags: seq<nat>, mss: int): (descs: seq<Desc>)
    requires mss > 0
    ensures |descs| > 0
  {
    Finish(CutFrags(Start(hdrLen, linear, mss), frags, 0, mss))
  }

  // --- what an exact cut is ---

  /** The payload, byte by byte: where each byte comes from. */
  function Bytes(src: Source, off: int, len: int): (bytes: seq<(Source, int)>)
    ensures |bytes| == if len > 0 then len else 0
  {
    seq(if len > 0 then len else 0, i => (src, off + i))
  }

  function FragBytes(frags: seq<nat>, f: nat): seq<(Source, int)>
    requires f <= |frags|
  {
    if f == 0 then [] else FragBytes(frags, f - 1) + Bytes(Frag(f - 1), 0, frags[f - 1])
  }

  function Payload(linear: int, frags: seq<nat>): seq<(Source, int)> {
    Bytes(Linear, 0, linear) + FragBytes(frags, |frags|)
  }

  /** The bytes that a list of descriptors sends. */
  function Sent(descs: seq<Desc>): seq<(Source, int)> {
    if descs == [] then []
    else Sent(descs[..|descs| - 1]) + (var d := descs[|descs| - 1]; Bytes(d.src, d.off, d.len))
  }

  function Total(descs: seq<Desc>): int {
    if descs == [] then 0 else Total(descs[..|descs| - 1]) + descs[|descs| - 1].len
  }

  function Flatten(groups: seq<seq<Desc>>): seq<Desc> {
    if groups == [] then [] else Flatten(groups[..|groups| - 1]) + groups[|groups| - 1]
  }

  /** A group ends with its only end-of-packet mark; its first descriptor carries the group's
      size, which for the first group of a packet includes the header descriptor. */
  ghost predicate GroupOk(g: seq<Desc>, first: bool) {
    && |g| > 0
    && (forall i :: 0 <= i < |g| ==> g[i].len > 0 && (g[i].eop <==> i == |g| - 1))
    && (forall i :: 0 <= i < |g| ==>
         g[i].count == if i == 0 then |g| + (if first then 1 else 0) else 1)
  }

  /** All groups but the last carry one full segment, the last at most that. */
  ghost predicate GroupsOk(groups: seq<seq<Desc>>, mss: int) {
    forall i :: 0 <= i < |groups| ==>
      && GroupOk(groups[i], i == 0)
      && (if i < |groups| - 1 then Total(groups[i]) == mss else 0 < Total(groups[i]) <= mss)
  }

  /** One descriptor covers exactly the headers, the others send exactly the payload. */
  ghost predicate Exact(descs: seq<Desc>, hdrLen: int, linear: int, frags: seq<nat>, mss: int)
    requires |descs| > 0
  {
    && descs[0].src == Header && descs[0].off == 0 && descs[0].len == hdrLen
    && Sent(descs[1..]) == Payload(linear, frags)
    && exists groups :: descs[1..] == Flatten(groups) && GroupsOk(groups, mss)
  }

  // --- lists of descriptors ---

  lemma {:induction false} TotalConcat(a: seq<Desc>, b: seq<Desc>)
    ensures Total(a + b) == Total(a) + Total(b)
  {
    if b == [] {
      assert a + b == a;
    } else {
      TotalConcat(a, b[..|b| - 1]);
      assert (a + b)[..|a + b| - 1] == a + b[..|b| - 1];
    }
  }

  function Own(d: Desc): seq<(Source, int)> {
    Bytes(d.src, d.off, d.len)
  }

  lemma SentSnoc(a: seq<Desc>, d: Desc)
    ensures Sent(a + [d]) == Sent(a) + Own(d)
    ensures Total(a + [d]) == Total(a) + d.len
  {
    assert (a + [d])[..|a + [d]| - 1] == a;
  }

  lemma {:induction false} SentFirst(d: Desc, descs: seq<Desc>)
    ensures Sent([d] + descs) == Own(d) + Sent(descs)
  {
    if descs == [] {
      assert [d] + descs == [] + [d];
      SentSnoc([], d);
    } else {
      var most := descs[..|descs| - 1];
      SentFirst(d, most);
      assert ([d] + descs)[..|descs|] == [d] + most;
    }
  }

  /** Marks, counts and types do not change what is sent. */
  ghost predicate SameExtent(a: seq<Desc>, b: seq<Desc>) {
    |a| == |b| && forall i :: 0 <= i < |a| ==> a[i].src == b[i].src && a[i].off == b[i].off && a[i].len == b[i].len
  }

  lemma {:induction false} ExtentDecides(a: seq<Desc>, b: seq<Desc>)
    requires SameExtent(a, b)
    ensures Sent(a) == Sent(b) && Total(a) == Total(b)
  {
    if a == [] {
    } else {
      ExtentDecides(a[..|a| - 1], b[..|b| - 1]);
    }
  }

  lemma FlattenSnoc(groups: seq<seq<Desc>>, g: seq<Desc>)
    ensures Flatten(groups + [g]) == Flatten(groups) + g
  {
    assert (groups + [g])[..|groups + [g]| - 1] == groups;
  }

  // --- the loop's invariant ---

  /** The descriptors after the header are the completed groups and the open one. */
  ghost predicate Shape(c: Cut, mss: int, closed: seq<seq<Desc>>, open: seq<Desc>) {
    && |c.descs| > 0 && c.descs[0].src == Header
    && c.descs[1..] == Flatten(closed) + open
    && (forall i :: 0 <= i < |closed| ==> GroupOk(closed[i], i == 0) && Total(closed[i]) == mss)
    && (forall i :: 0 <= i < |open| ==> open[i].len > 0 && !open[i].eop && open[i].count == 1)
    && 0 <= c.rem <= mss && Total(open) == mss - c.rem
    && c.sgCnt == |open|
    && c.sg == (if open == [] then -1 else |c.descs| - |open|)
    && c.extra == (if closed == [] then 1 else 0)
  }

  /** The open group once it is completed. */
  function CompleteGroup(open: seq<Desc>, extra: int): (g: seq<Desc>)
    requires open != []
  {
    var marked := open[|open| - 1 := open[|open| - 1].(eop := true)];
    marked[0 := marked[0].(count := |open| + extra)]
  }

  lemma CompleteIsGroup(c: Cut, mss: int, closed: seq<seq<Desc>>, open: seq<Desc>)
    requires Shape(c, mss, closed, open) && open != []
    ensures var g := CompleteGroup(open, c.extra);
            && GroupOk(g, closed == []) && Total(g) == Total(open) && SameExtent(g, open)
            && MarkGroup(c)[0] == c.descs[0]
            && MarkGroup(c)[1..] == Flatten(closed) + g
  {
    var g := CompleteGroup(open, c.extra);
    ExtentDecides(g, open);
    var flat := Flatten(closed);
    assert c.descs == [c.descs[0]] + flat + open;
  }

  lemma NewGroupShape(c: Cut, mss: int, closed: seq<seq<Desc>>, open: seq<Desc>)
    requires mss > 0 && Shape(c, mss, closed, open) && c.rem == 0
    ensures open != []
    ensures var g := CompleteGroup(open, c.extra);
            Shape(NewGroup(c, mss), mss, closed + [g], []) && SameExtent(NewGroup(c, mss).descs, c.descs)
  {
    CompleteIsGroup(c, mss, closed, open);
    FlattenSnoc(closed, CompleteGroup(open, c.extra));
  }

  lemma AppendShape(c: Cut, mss: int, closed: seq<seq<Desc>>, open: seq<Desc>, f: nat, off: int, n: int)
    requires mss > 0 && Shape(c, mss, closed, open) && 0 < n <= c.rem
    ensures var d := Append(c, f, off, n);
            var added := d.descs[|c.descs|];
            Shape(d, mss, closed, open + [added])
  {
    var d := Append(c, f, off, n);
    var added := d.descs[|c.descs|];
    assert (open + [added])[..|open|] == open;
    assert d.descs[1..] == c.descs[1..] + [added];
  }

  lemma BytesSplit(src: Source, off: int, n: nat, m: nat)
    ensures Bytes(src, off, n) + Bytes(src, off + n, m) == Bytes(src, off, n + m)
  {
  }

  /** How many groups have been begun. */
  function Groups(closed: seq<seq<Desc>>, open: seq<Desc>): nat {
    |closed| + if open == [] then 0 else 1
  }

  /** How many of the pieces of a packet, up to fragment f, are not empty. */
  function NonEmpty(linear: int, frags: seq<nat>, f: nat): nat
    requires f <= |frags|
  {
    if f == 0 then (if linear > 0 then 1 else 0)
    else NonEmpty(linear, frags, f - 1) + if frags[f - 1] > 0 then 1 else 0
  }

  /** Every piece but the first can share a group with the piece before it. */
  ghost predicate FewDescs(c: Cut, pieces: nat, closed: seq<seq<Desc>>, open: seq<Desc>) {
    && |c.descs| <= Groups(closed, open) + (if pieces > 0 then pieces else 1)
    && (open != [] ==> pieces > 0)
  }

  /** One pass through the inner loop, whatever it does, keeps the shape; all bytes of the
      fragment are sent in order, and at the end the open group is not empty. */
  lemma {:induction false} CutFragShape(c: Cut, f: nat, size: int, len: nat, mss: int,
                                        closed: seq<seq<Desc>>, open: seq<Desc>)
    returns (closed': seq<seq<Desc>>, open': seq<Desc>)
    requires mss > 0 && Shape(c, mss, closed, open) && len <= size
    ensures var d := CutFrag(c, f, size, len, mss);
            && Shape(d, mss, closed', open')
            && Sent(d.descs[1..]) == Sent(c.descs[1..]) + Bytes(Frag(f), size - len, len)
            && Total(d.descs[1..]) == Total(c.descs[1..]) + len
            && (len > 0 ==> open' != [])
            && (len == 0 ==> open' == open && closed' == closed)
            && |d.descs| - |c.descs| <= Groups(closed', open') - Groups(closed, open)
                                        + (if len > 0 && open != [] && c.rem > 0 then 1 else 0)
    decreases len, if c.rem == 0 then 1 else 0
  {
    hide Shape, Sent, Total, Bytes, CompleteGroup, MarkGroup;
    ShapeRem(c, mss, closed, open);
    if len == 0 {
      closed', open' := closed, open;
      NoBytes(Frag(f), size);
    } else if c.rem == 0 {
      NewGroupSends(c, mss, closed, open);
      var d := NewGroup(c, mss);
      closed', open' := CutFragShape(d, f, size, len, mss, closed + [CompleteGroup(open, c.extra)], []);
    } else {
      var n := if len > c.rem then c.rem else len;
      var d := Append(c, f, size - len, n);
      var added := AppendSends(c, mss, closed, open, f, size - len, n);
      BytesSplit(Frag(f), size - len, n, len - n);
      closed', open' := CutFragShape(d, f, size, len - n, mss, closed, open + [added]);
    }
  }

  lemma NewGroupSends(c: Cut, mss: int, closed: seq<seq<Desc>>, open: seq<Desc>)
    requires mss > 0 && Shape(c, mss, closed, open) && c.rem == 0
    ensures |c.descs| > 0 && -1 <= c.sg < |c.descs| && open != []
    ensures var d := NewGroup(c, mss);
            && Shape(d, mss, closed + [CompleteGroup(open, c.extra)], [])
            && Sent(d.descs[1..]) == Sent(c.descs[1..]) && Total(d.descs[1..]) == Total(c.descs[1..])
  {
    NewGroupShape(c, mss, closed, open);
    ExtentDecides(NewGroup(c, mss).descs[1..], c.descs[1..]);
  }

  lemma AppendSends(c: Cut, mss: int, closed: seq<seq<Desc>>, open: seq<Desc>, f: nat, off: int, n: int)
      returns (added: Desc)
    requires mss > 0 && Shape(c, mss, closed, open) && 0 < n <= c.rem
    ensures |c.descs| > 0 && -1 <= c.sg < |c.descs|
    ensures var d := Append(c, f, off, n);
            && Shape(d, mss, closed, open + [added])
            && Sent(d.descs[1..]) == Sent(c.descs[1..]) + Bytes(Frag(f), off, n)
            && Total(d.descs[1..]) == Total(c.descs[1..]) + n
  {
    AppendShape(c, mss, closed, open, f, off, n);
    var d := Append(c, f, off, n);
    added := d.descs[|c.descs|];
    assert d.descs[1..] == c.descs[1..] + [added];
    SentSnoc(c.descs[1..], added);
  }

  lemma ShapeRem(c: Cut, mss: int, closed: seq<seq<Desc>>, open: seq<Desc>)
    requires Shape(c, mss, closed, open)
    ensures |c.descs| > 0 && 0 <= c.rem <= mss && -1 <= c.sg < |c.descs|
  {
  }

  lemma NoBytes(src: Source, off: int)
    ensures Bytes(src, off, 0) == []
  {
  }

  lemma {:induction false} CutFragsShape(c: Cut, frags: seq<nat>, f: nat, linear: int, mss: int,
                                         closed: seq<seq<Desc>>, open: seq<Desc>)
    returns (closed': seq<seq<Desc>>, open': seq<Desc>)
    requires mss > 0 && Shape(c, mss, closed, open) && f <= |frags|
    requires Sent(c.descs[1..]) == Bytes(Linear, 0, linear) + FragBytes(frags, f)
    requires open == [] ==> closed == []
    requires FewDescs(c, NonEmpty(linear, frags, f), closed, open)
    ensures var d := CutFrags(c, frags, f, mss);
            && Shape(d, mss, closed', open')
            && FewDescs(d, NonEmpty(linear, frags, |frags|), closed', open')
            && Sent(d.descs[1..]) == Payload(linear, frags)
            && (open' == [] ==> closed' == [])
    decreases |frags| - f
  {
    hide Shape, Sent, Bytes;
    ShapeRem(c, mss, closed, open);
    if f == |frags| {
      closed', open' := closed, open;
    } else {
      var size := frags[f];
      var nextClosed, nextOpen := CutFragShape(c, f, size, size, mss, closed, open);
      closed', open' := CutFragsShape(CutFrag(c, f, size, size, mss), frags, f + 1, linear, mss, nextClosed, nextOpen);
    }
  }

  /** The state before the fragment loop. */
  ghost predicate StartOk(c: Cut, linear: int, frags: seq<nat>, mss: int, open: seq<Desc>) {
    && Shape(c, mss, [], open)
    && Sent(c.descs[1..]) == Bytes(Linear, 0, linear) + FragBytes(frags, 0)
    && FewDescs(c, NonEmpty(linear, frags, 0), [], open)
  }

  lemma StartShape(hdrLen: int, linear: int, frags: seq<nat>, mss: int) returns (open: seq<Desc>)
    requires mss > 0 && linear <= mss
    ensures StartOk(Start(hdrLen, linear, mss), linear, frags, mss, open)
  {
    var c := Start(hdrLen, linear, mss);
    open := c.descs[1..];
    if linear > 0 {
      var d := open[0];
      assert open == [] + [d];
      SentSnoc([], d);
    }
  }

  lemma TailUpdate(descs: seq<Desc>, flat: seq<Desc>, g: seq<Desc>, x: Desc)
    requires |descs| > 0 && |g| > 0 && descs[1..] == flat + g
    ensures descs[|descs| - 1 := x][1..] == flat + g[|g| - 1 := x]
    ensures descs[|descs| - 1] == g[|g| - 1]
  {
    var last := |descs| - 1;
    assert descs[last := x][1..] == descs[1..][last - 1 := x];
  }

  lemma LastTyped(closed: seq<seq<Desc>>, g: seq<Desc>, mss: int) returns (typed: seq<Desc>)
    requires forall i :: 0 <= i < |closed| ==> GroupOk(closed[i], i == 0) && Total(closed[i]) == mss
    requires GroupOk(g, closed == []) && Total(g) <= mss
    ensures typed == g[|g| - 1 := g[|g| - 1].(seg := 3)]
    ensures GroupsOk(closed + [typed], mss) && Flatten(closed + [typed]) == Flatten(closed) + typed
  {
    typed := TypedGroup(g, closed == []);
    hide GroupOk, Total;
    FlattenSnoc(closed, typed);
    var groups := closed + [typed];
    forall i | 0 <= i < |groups|
      ensures GroupOk(groups[i], i == 0)
      ensures if i < |groups| - 1 then Total(groups[i]) == mss else 0 < Total(groups[i]) <= mss
    {
      if i < |closed| { assert groups[i] == closed[i]; } else { assert groups[i] == typed; }
    }
  }

  lemma TypedGroup(g: seq<Desc>, first: bool) returns (typed: seq<Desc>)
    requires GroupOk(g, first)
    ensures typed == g[|g| - 1 := g[|g| - 1].(seg := 3)]
    ensures GroupOk(typed, first) && 0 < Total(typed) == Total(g)
  {
    typed := g[|g| - 1 := g[|g| - 1].(seg := 3)];
    ExtentDecides(typed, g);
    PositiveTotal(typed);
  }

  lemma FinishExact(c: Cut, mss: int, closed: seq<seq<Desc>>, open: seq<Desc>)
      returns (groups: seq<seq<Desc>>)
    requires mss > 0 && Shape(c, mss, closed, open) && (open == [] ==> closed == [])
    ensures var descs := Finish(c);
            && descs[1..] == Flatten(groups) && GroupsOk(groups, mss)
            && SameExtent(descs, c.descs)
            && |groups| == Groups(closed, open)
  {
    var descs := Finish(c);
    if open == [] {
      groups := [];
      assert descs[1..] == [];
    } else {
      CompleteIsGroup(c, mss, closed, open);
      var g, marked := CompleteGroup(open, c.extra), MarkGroup(c);
      hide MarkGroup, CompleteGroup, GroupOk, Total, Flatten;
      TailUpdate(marked, Flatten(closed), g, marked[|marked| - 1].(seg := 3));
      var typed := LastTyped(closed, g, mss);
      groups := closed + [typed];
      assert descs[1..] == Flatten(closed) + typed;
      MarkKeepsExtent(c);
    }
  }

  lemma MarkKeepsExtent(c: Cut)
    requires |c.descs| > 0 && -1 <= c.sg < |c.descs|
    ensures SameExtent(MarkGroup(c), c.descs) && SameExtent(Finish(c), c.descs)
  {
  }

  lemma {:induction false} PositiveTotal(g: seq<Desc>)
    requires forall i :: 0 <= i < |g| ==> g[i].len > 0
    ensures Total(g) >= |g|
    ensures |g| > 0 ==> g[0].len <= Total(g)
  {
    if g == [] {
    } else {
      PositiveTotal(g[..|g| - 1]);
    }
  }

  lemma FinishSends(c: Cut)
    requires |c.descs| > 0 && -1 <= c.sg < |c.descs|
    ensures Sent(Finish(c)[1..]) == Sent(c.descs[1..])
  {
    MarkKeepsExtent(c);
    ExtentDecides(Finish(c)[1..], c.descs[1..]);
  }

  /** An exact cut, with its groups: the payload is sent in order, the groups are full
      segments but for the last, and there are few descriptors. */
  ghost predicate CutInto(descs: seq<Desc>, linear: int, frags: seq<nat>, mss: int, groups: seq<seq<Desc>>) {
    && |descs| > 0
    && Sent(descs[1..]) == Payload(linear, frags)
    && descs[1..] == Flatten(groups) && GroupsOk(groups, mss)
    && (|descs| > 1 ==> |descs| <= |groups| + NonEmpty(linear, frags, |frags|))
  }

  lemma RestIsExact(c: Cut, linear: int, frags: seq<nat>, mss: int, open: seq<Desc>) returns (groups: seq<seq<Desc>>)
    requires mss > 0 && StartOk(c, linear, frags, mss, open)
    ensures |c.descs| > 0 && -1 <= c.sg < |c.descs|
    ensures CutInto(Finish(CutFrags(c, frags, 0, mss)), linear, frags, mss, groups)
  {
    ShapeRem(c, mss, [], open);
    hide Shape, Sent, Payload, FragBytes, Bytes, Flatten, GroupsOk, Finish, CutFrags, SameExtent;
    var closed', open' := CutFragsShape(c, frags, 0, linear, mss, [], open);
    var d := CutFrags(c, frags, 0, mss);
    groups := FinishExact(d, mss, closed', open');
    FinishSends(d);
    NothingOpen(d, mss, closed', open');
  }

  /** With no more than one segment's worth in the linear part, the cut is exact. */
  lemma CutIsExact(hdrLen: int, linear: int, frags: seq<nat>, mss: int) returns (groups: seq<seq<Desc>>)
    requires mss > 0 && linear <= mss
    ensures CutInto(TsoDescs(hdrLen, linear, frags, mss), linear, frags, mss, groups)
  {
    hide Shape, StartOk, CutInto, Start, Finish, CutFrags;
    var open := StartShape(hdrLen, linear, frags, mss);
    groups := RestIsExact(Start(hdrLen, linear, mss), linear, frags, mss, open);
  }

  lemma NothingOpen(c: Cut, mss: int, closed: seq<seq<Desc>>, open: seq<Desc>)
    requires Shape(c, mss, closed, open) && (open == [] ==> closed == [])
    ensures open == [] ==> |c.descs| == 1
  {
  }

  /** The loops do not change what a descriptor already written sends. */
  lemma {:induction false} CutFragKeeps(c: Cut, f: nat, size: int, len: int, mss: int, k: nat)
    requires mss > 0 && k < |c.descs| && -1 <= c.sg < |c.descs|
    ensures SamePiece(CutFrag(c, f, size, len, mss).descs[k], c.descs[k])
    decreases if c.rem < 0 then 1 else 0, len, if c.rem == 0 then 1 else 0
  {
    if len <= 0 {
    } else {
      if c.rem == 0 {
        CutFragKeeps(NewGroup(c, mss), f, size, len, mss, k);
      } else {
        var n := if len > c.rem then c.rem else len;
        CutFragKeeps(Append(c, f, size - len, n), f, size, len - n, mss, k);
      }
    }
  }

  ghost predicate SamePiece(a: Desc, b: Desc) {
    a.src == b.src && a.off == b.off && a.len == b.len
  }

  lemma {:induction false} CutFragsKeep(c: Cut, frags: seq<nat>, f: nat, mss: int, k: nat)
    requires mss > 0 && k < |c.descs| && -1 <= c.sg < |c.descs| && f <= |frags|
    ensures SamePiece(CutFrags(c, frags, f, mss).descs[k], c.descs[k])
    decreases |frags| - f
  {
    if f == |frags| {
    } else {
      CutFragKeeps(c, f, frags[f], frags[f], mss, k);
      CutFragsKeep(CutFrag(c, f, frags[f], frags[f], mss), frags, f + 1, mss, k);
    }
  }

  /** The first descriptor covers the headers, whatever the packet. */
  lemma HeaderCovered(hdrLen: int, linear: int, frags: seq<nat>, mss: int)
    requires mss > 0
    ensures var hdr := TsoDescs(hdrLen, linear, frags, mss)[0];
            hdr.src == Header && hdr.off == 0 && hdr.len == hdrLen
  {
    var c := Start(hdrLen, linear, mss);
    CutFragsKeep(c, frags, 0, mss, 0);
    MarkKeepsExtent(CutFrags(c, frags, 0, mss));
  }

  /** No group can hold a descriptor longer than the segment. */
  lemma {:induction false} FirstFits(groups: seq<seq<Desc>>, mss: int)
    requires GroupsOk(groups, mss) && groups != []
    ensures Flatten(groups) != [] && Flatten(groups)[0].len <= mss
  {
    var most, last := groups[..|groups| - 1], groups[|groups| - 1];
    PositiveTotal(last);
    if most == [] {
    } else {
      forall i | 0 <= i < |most|
        ensures GroupOk(most[i], i == 0) && Total(most[i]) == mss
      {
        assert most[i] == groups[i];
      }
      FirstFits(most, mss);
    }
  }

  /** The cut is exact if and only if the linear part holds at most one segment's worth beyond
      the headers: then exactly the headers and the payload are sent, in order, each completed group carries
      one full segment and the last at most one, and the counts are the group sizes. */
  lemma CutExactIff(hdrLen: int, linear: int, frags: seq<nat>, mss: int)
    requires mss > 0
    ensures Exact(TsoDescs(hdrLen, linear, frags, mss), hdrLen, linear, frags, mss) <==> linear <= mss
  {
    HeaderCovered(hdrLen, linear, frags, mss);
    var descs := TsoDescs(hdrLen, linear, frags, mss);
    if linear <= mss {
      var groups := CutIsExact(hdrLen, linear, frags, mss);
    } else {
      var c := Start(hdrLen, linear, mss);
      CutFragsKeep(c, frags, 0, mss, 1);
      var d := CutFrags(c, frags, 0, mss);
      MarkKeepsExtent(d);
      assert descs[1].len == linear;
      hide TsoDescs, Finish, CutFrags, Sent, Payload;
      forall groups | descs[1..] == Flatten(groups)
        ensures !GroupsOk(groups, mss)
      {
        if GroupsOk(groups, mss) && groups != [] { FirstFits(groups, mss); }
        assert groups == [] ==> Flatten(groups) == [];
      }
    }
  }
}
