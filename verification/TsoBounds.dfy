/**
 Consequences of the exact cut: how many descriptors a packet takes, what the counts written
 into them add up to, their types, and where exactly the payload is cut.
 */
module TsoBounds {
  import opened Modular
  import opened TsoCut

  /** What the first data descriptors of the groups announce, together. */
  function Announced(groups: seq<seq<Desc>>): int {
    if groups == [] then 0
    else
      var g := groups[|groups| - 1];
      Announced(groups[..|groups| - 1]) + if g == [] then 0 else g[0].count
  }

  lemma GroupsOkPrefix(groups: seq<seq<Desc>>, mss: int)
    requires GroupsOk(groups, mss) && groups != []
    ensures GroupsOk(groups[..|groups| - 1], mss)
    ensures forall i :: 0 <= i < |groups| - 1 ==> Total(groups[i]) == mss
  {
    hide GroupOk, Total;
    var most := groups[..|groups| - 1];
    assert forall i :: 0 <= i < |most| ==> most[i] == groups[i];
    if most != [] {
      var g := most[|most| - 1];
      assert GroupOk(g, |most| - 1 == 0);
      GroupPositive(g, |most| - 1 == 0);
    }
  }

  lemma GroupPositive(g: seq<Desc>, first: bool)
    requires GroupOk(g, first)
    ensures Total(g) > 0
  {
    PositiveTotal(g);
  }

  lemma {:induction false} AnnouncedSum(groups: seq<seq<Desc>>, mss: int)
    requires GroupsOk(groups, mss)
    ensures Announced(groups) == |Flatten(groups)| + if groups == [] then 0 else 1
  {
    if groups == [] {
    } else {
      GroupsOkPrefix(groups, mss);
      AnnouncedSum(groups[..|groups| - 1], mss);
    }
  }

  lemma {:induction false} GroupNumber(groups: seq<seq<Desc>>, mss: int)
    requires mss > 0 && GroupsOk(groups, mss)
    ensures groups != [] ==> mss * (|groups| - 1) < Total(Flatten(groups)) <= mss * |groups|
    ensures groups != [] ==> |groups| == (Total(Flatten(groups)) + mss - 1) / mss
  {
    if groups == [] {
    } else {
      var most, last := groups[..|groups| - 1], groups[|groups| - 1];
      GroupsOkPrefix(groups, mss);
      FullGroups(most, mss);
      TotalConcat(Flatten(most), last);
      var t, n := Total(Flatten(groups)), |groups|;
      assert t == mss * (n - 1) + Total(last);
      assert t + mss - 1 == mss * n + (Total(last) - 1);
      ModUnique(t + mss - 1, mss, n, Total(last) - 1);
    }
  }

  lemma {:induction false} FullGroups(groups: seq<seq<Desc>>, mss: int)
    requires forall i :: 0 <= i < |groups| ==> Total(groups[i]) == mss
    ensures Total(Flatten(groups)) == mss * |groups|
  {
    if groups == [] {
    } else {
      var most := groups[..|groups| - 1];
      FullGroups(most, mss);
      TotalConcat(Flatten(most), groups[|groups| - 1]);
    }
  }

  lemma {:induction false} SentLength(descs: seq<Desc>)
    requires forall i :: 0 <= i < |descs| ==> descs[i].len > 0
    ensures |Sent(descs)| == Total(descs)
  {
    if descs == [] {
    } else {
      SentLength(descs[..|descs| - 1]);
    }
  }

  lemma {:induction false} FlattenPositive(groups: seq<seq<Desc>>, mss: int)
    requires GroupsOk(groups, mss)
    ensures forall i :: 0 <= i < |Flatten(groups)| ==> Flatten(groups)[i].len > 0
  {
    if groups == [] {
    } else {
      GroupsOkPrefix(groups, mss);
      FlattenPositive(groups[..|groups| - 1], mss);
    }
  }

  /** A packet with payload takes no more descriptors than it has non-empty pieces and
      segments together. The counts announced by its groups add up to all its descriptors,
      which is also what its header carries. */
  lemma DescriptorBudget(hdrLen: int, linear: int, frags: seq<nat>, mss: int) returns (groups: seq<seq<Desc>>)
    requires mss > 0 && linear <= mss && Payload(linear, frags) != []
    ensures var descs := TsoDescs(hdrLen, linear, frags, mss);
            && CutInto(descs, linear, frags, mss, groups)
            && |groups| == (|Payload(linear, frags)| + mss - 1) / mss
            && |descs| <= NonEmpty(linear, frags, |frags|) + (|Payload(linear, frags)| + mss - 1) / mss
            && Announced(groups) == |descs| == descs[0].count
  {
    groups := CutIsExact(hdrLen, linear, frags, mss);
    FlattenPositive(groups, mss);
    var descs := TsoDescs(hdrLen, linear, frags, mss);
    SentLength(descs[1..]);
    GroupNumber(groups, mss);
    AnnouncedSum(groups, mss);
    HeaderCount(hdrLen, linear, frags, mss);
  }

  lemma HeaderCount(hdrLen: int, linear: int, frags: seq<nat>, mss: int)
    requires mss > 0
    ensures TsoDescs(hdrLen, linear, frags, mss)[0].count == |TsoDescs(hdrLen, linear, frags, mss)|
  {
  }

  // --- descriptor types ---

  ghost predicate Typed(descs: seq<Desc>) {
    && |descs| > 0 && descs[0].seg == 0 && descs[0].eop && descs[0].src == Header
    && (forall k :: 1 <= k < |descs| ==> descs[k].seg == (if k == 1 then 1 else 2) && descs[k].src != Header)
  }

  lemma {:induction false} CutFragTyped(c: Cut, f: nat, size: int, len: int, mss: int)
    requires mss > 0 && Typed(c.descs) && -1 <= c.sg < |c.descs|
    ensures Typed(CutFrag(c, f, size, len, mss).descs)
    decreases if c.rem < 0 then 1 else 0, len, if c.rem == 0 then 1 else 0
  {
    if len <= 0 {
    } else {
      if c.rem == 0 {
        CutFragTyped(NewGroup(c, mss), f, size, len, mss);
      } else {
        var n := if len > c.rem then c.rem else len;
        CutFragTyped(Append(c, f, size - len, n), f, size, len - n, mss);
      }
    }
  }

  lemma {:induction false} CutFragsTyped(c: Cut, frags: seq<nat>, f: nat, mss: int)
    requires mss > 0 && Typed(c.descs) && -1 <= c.sg < |c.descs| && f <= |frags|
    ensures Typed(CutFrags(c, frags, f, mss).descs)
    decreases |frags| - f
  {
    if f == |frags| {
    } else {
      CutFragTyped(c, f, frags[f], frags[f], mss);
      CutFragsTyped(CutFrag(c, f, frags[f], frags[f], mss), frags, f + 1, mss);
    }
  }

  /** The header comes first and ends a transfer of its own; of the data descriptors exactly
      the last has the last type, and the first of several the first type. */
  lemma DescriptorTypes(hdrLen: int, linear: int, frags: seq<nat>, mss: int, k: nat)
    requires mss > 0 && k < |TsoDescs(hdrLen, linear, frags, mss)|
    ensures var descs := TsoDescs(hdrLen, linear, frags, mss);
            && descs[k].seg == (if k == |descs| - 1 then 3 else if k < 2 then k else 2)
            && (descs[k].src == Header <==> k == 0)
            && descs[0].eop && descs[|descs| - 1].eop
  {
    var c := Start(hdrLen, linear, mss);
    assert Typed(c.descs);
    CutFragsTyped(c, frags, 0, mss);
  }

  // --- where the payload is cut ---

  /** The offsets in the payload at which descriptors begin or end. */
  function CutPoints(descs: seq<Desc>): set<int> {
    if descs == [] then {0} else CutPoints(descs[..|descs| - 1]) + {Total(descs)}
  }

  /** The offset at which fragment f begins. */
  function PieceStart(linear: int, frags: seq<nat>, f: nat): nat
    requires f <= |frags|
  {
    if f == 0 then (if linear > 0 then linear else 0) else PieceStart(linear, frags, f - 1) + frags[f - 1]
  }

  /** The offsets at which the linear part and the first f fragments begin or end. */
  function PieceEnds(linear: int, frags: seq<nat>, f: nat): (ends: set<int>)
    requires f <= |frags|
    ensures PieceStart(linear, frags, f) in ends
  {
    (if f == 0 then {0} else PieceEnds(linear, frags, f - 1)) + {PieceStart(linear, frags, f)}
  }

  /** The offsets up to p that are multiples of the segment size or in `ends`. */
  function Marks(p: int, mss: int, ends: set<int>): set<int>
    requires mss > 0
  {
    set x | 0 <= x <= p && (x % mss == 0 || x in ends)
  }

  lemma {:induction false} SameCutPoints(a: seq<Desc>, b: seq<Desc>)
    requires SameExtent(a, b)
    ensures CutPoints(a) == CutPoints(b)
  {
    if a == [] {
    } else {
      ExtentDecides(a, b);
      SameCutPoints(a[..|a| - 1], b[..|b| - 1]);
    }
  }

  lemma CutPointsSnoc(a: seq<Desc>, d: Desc)
    ensures CutPoints(a + [d]) == CutPoints(a) + {Total(a) + d.len}
    ensures Total(a + [d]) == Total(a) + d.len
  {
    assert (a + [d])[..|a + [d]| - 1] == a;
  }

  lemma NoMultipleInside(p: int, rem: int, mss: int, x: int)
    requires mss > 0 && 0 < rem <= mss && (p + rem) % mss == 0 && p < x < p + rem
    ensures x % mss != 0
  {
    var q := (p + rem) / mss;
    assert x == mss * (q - 1) + (mss - (p + rem - x));
    ModUnique(x, mss, q - 1, mss - (p + rem - x));
  }

  /** Where a run of the loop stands: p bytes cut, at the right places, the open segment
      ending at the next multiple of the segment size. */
  ghost predicate CutSoFar(c: Cut, p: int, mss: int, ends: set<int>) {
    && |c.descs| > 0 && -1 <= c.sg < |c.descs| && mss > 0
    && 0 <= c.rem <= mss && (p + c.rem) % mss == 0
    && 0 <= p == Total(c.descs[1..])
    && CutPoints(c.descs[1..]) == Marks(p, mss, ends)
    && (p % mss == 0 || p in ends)
    && (forall x :: x in ends ==> x <= p)
  }

  lemma CutSoFarNewGroup(c: Cut, p: int, mss: int, ends: set<int>)
    requires CutSoFar(c, p, mss, ends) && c.rem == 0
    ensures CutSoFar(NewGroup(c, mss), p, mss, ends)
  {
    hide Marks;
    var d := NewGroup(c, mss);
    MarkKeepsExtent(c);
    SameCutPoints(d.descs[1..], c.descs[1..]);
    ExtentDecides(d.descs[1..], c.descs[1..]);
    ModShift(p, mss, 1);
  }

  /** A descriptor that ends the piece, or fills the segment, adds the one right mark. */
  lemma MarksGrow(p: int, n: int, rem: int, mss: int, ends: set<int>, q: int, last: bool)
    requires mss > 0 && 0 < n <= rem <= mss && (p + rem) % mss == 0 && q == p + n && 0 <= p
    requires forall x :: x in ends ==> x <= p
    requires last || n == rem
    ensures Marks(q, mss, if last then ends + {q} else ends) == Marks(p, mss, ends) + {q}
  {
    forall x | p < x < q
      ensures x % mss != 0
    {
      NoMultipleInside(p, rem, mss, x);
    }
  }

  lemma AppendPoints(c: Cut, f: nat, off: int, n: int, mss: int, p: int, ends: set<int>, last: bool)
    requires CutSoFar(c, p, mss, ends) && 0 < n <= c.rem && (last || n == c.rem)
    ensures CutSoFar(Append(c, f, off, n), p + n, mss, if last then ends + {p + n} else ends)
  {
    var d := Append(c, f, off, n);
    var added := d.descs[|c.descs|];
    assert d.descs[1..] == c.descs[1..] + [added];
    CutPointsSnoc(c.descs[1..], added);
    MarksGrow(p, n, c.rem, mss, ends, p + n, last);
    assert (p + n) + d.rem == p + c.rem;
    hide Marks, CutPoints, Total;
  }

  lemma {:induction false} CutFragPoints(c: Cut, f: nat, size: int, len: nat, mss: int, p: int, ends: set<int>)
    requires CutSoFar(c, p, mss, ends) && len <= size
    requires len > 0 || p in ends
    ensures CutSoFar(CutFrag(c, f, size, len, mss), p + len, mss, ends + {p + len})
    decreases len, if c.rem == 0 then 1 else 0
  {
    CutSoFarBounds(c, p, mss, ends);
    if len == 0 {
      assert ends + {p} == ends;
    } else if c.rem == 0 {
      CutSoFarNewGroup(c, p, mss, ends);
      hide CutSoFar;
      CutFragPoints(NewGroup(c, mss), f, size, len, mss, p, ends);
    } else {
      var n := if len > c.rem then c.rem else len;
      AppendPoints(c, f, size - len, n, mss, p, ends, n == len);
      var d := Append(c, f, size - len, n);
      hide CutSoFar;
      if n == len {
        assert CutFrag(d, f, size, 0, mss) == d;
      } else {
        CutFragPoints(d, f, size, len - n, mss, p + n, ends);
      }
    }
  }

  lemma {:induction false} CutFragsPoints(c: Cut, frags: seq<nat>, f: nat, linear: int, mss: int)
    requires f <= |frags|
    requires CutSoFar(c, PieceStart(linear, frags, f), mss, PieceEnds(linear, frags, f))
    ensures var d := CutFrags(c, frags, f, mss);
            CutSoFar(d, PieceStart(linear, frags, |frags|), mss, PieceEnds(linear, frags, |frags|))
    decreases |frags| - f
  {
    hide CutSoFar;
    assert |c.descs| > 0 && -1 <= c.sg < |c.descs| && mss > 0 by {
      CutSoFarBounds(c, PieceStart(linear, frags, f), mss, PieceEnds(linear, frags, f));
    }
    if f == |frags| {
    } else {
      CutFragPoints(c, f, frags[f], frags[f], mss, PieceStart(linear, frags, f), PieceEnds(linear, frags, f));
      CutFragsPoints(CutFrag(c, f, frags[f], frags[f], mss), frags, f + 1, linear, mss);
    }
  }

  lemma CutSoFarBounds(c: Cut, p: int, mss: int, ends: set<int>)
    requires CutSoFar(c, p, mss, ends)
    ensures |c.descs| > 0 && -1 <= c.sg < |c.descs| && mss > 0 && 0 <= c.rem <= mss
  {
  }

  lemma StartPoints(hdrLen: int, linear: int, frags: seq<nat>, mss: int)
    requires mss > 0 && linear <= mss
    ensures CutSoFar(Start(hdrLen, linear, mss), PieceStart(linear, frags, 0), mss, PieceEnds(linear, frags, 0))
  {
    var c := Start(hdrLen, linear, mss);
    ModUnique(mss, mss, 1, 0);
    ModUnique(0, mss, 0, 0);
    assert Marks(0, mss, {0}) == {0};
    if linear > 0 {
      assert c.descs[1..] == [] + [c.descs[1]];
      CutPointsSnoc([], c.descs[1]);
      MarksGrow(0, linear, mss, mss, {0}, linear, true);
    }
  }

  /** The payload is cut exactly at the piece boundaries and at the multiples of the segment
      size, nowhere else. */
  lemma CutExactlyThere(hdrLen: int, linear: int, frags: seq<nat>, mss: int, x: int)
    requires mss > 0 && linear <= mss
    ensures x in CutPoints(TsoDescs(hdrLen, linear, frags, mss)[1..])
            <==> 0 <= x <= PieceStart(linear, frags, |frags|)
                 && (x % mss == 0 || x in PieceEnds(linear, frags, |frags|))
  {
    var c := Start(hdrLen, linear, mss);
    StartPoints(hdrLen, linear, frags, mss);
    CutFragsPoints(c, frags, 0, linear, mss);
    var d := CutFrags(c, frags, 0, mss);
    MarkKeepsExtent(d);
    SameCutPoints(Finish(d)[1..], d.descs[1..]);
  }
}
