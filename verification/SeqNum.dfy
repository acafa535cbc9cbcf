/**
 12-bit frame sequence numbers, as rx_reorder.c computes with them, and the integers
 they stand for.
 */
module SeqNum {
  import opened Modular

  const SEQ_MODULO := 4096

  type Seq12 = s: nat | s < 4096

  /** `seq_less`: sq1 is before sq2 when it lies strictly less than half a turn behind. */
  predicate SeqLess(sq1: int, sq2: int) {
    (sq1 - sq2) % SEQ_MODULO > SEQ_MODULO / 2
  }

  /** `seq_inc` */
  function SeqInc(sq: int): Seq12 {
    (sq + 1) % SEQ_MODULO
  }

  /** `seq_sub` */
  function SeqSub(sq1: int, sq2: int): Seq12 {
    (sq1 - sq2) % SEQ_MODULO
  }

  /** `reorder_index`, for a session that started at `ssn` with `size` slots. */
  function ReorderIndex(ssn: int, size: int, sq: int): (index: nat)
    requires size > 0
    ensures index < size
  {
    SeqSub(sq, ssn) % size
  }

  /** The integer that a received number stands for when the next expected number is
      `head`: the one congruent to it in [head - 2047, head + 2048]. */
  function Lift(head: int, sq: int): (at: int)
    ensures head - 2047 <= at <= head + 2048 && at % SEQ_MODULO == sq % SEQ_MODULO
  {
    var at := head - 2047 + (sq - (head - 2047)) % SEQ_MODULO;
    ModCongruent(at, sq, SEQ_MODULO);
    at
  }

  lemma LiftUnique(head: int, sq: int, at: int)
    requires head - 2047 <= at <= head + 2048 && at % SEQ_MODULO == sq % SEQ_MODULO
    ensures Lift(head, sq) == at
  {
  }

  /** The comparison only depends on how far apart the two numbers are, and at exactly half
      a turn neither number is before the other. */
  lemma SeqLessMeaning(x: int, y: int)
    requires -2048 <= x - y <= 2048
    ensures SeqLess(x, y) <==> x < y && y - x < 2048
    ensures SeqLess(x % SEQ_MODULO, y % SEQ_MODULO) == SeqLess(x, y)
  {
  }

  lemma Opposite(x: int)
    ensures (-x) % SEQ_MODULO == if x % SEQ_MODULO == 0 then 0 else SEQ_MODULO - x % SEQ_MODULO
  {
    var q, d := x / SEQ_MODULO, x % SEQ_MODULO;
    if d == 0 {
      ModUnique(-x, SEQ_MODULO, -q, 0);
    } else {
      ModUnique(-x, SEQ_MODULO, -q - 1, SEQ_MODULO - d);
    }
  }

  lemma OneCloser(sq: int, target: int)
    requires SeqSub(target, sq) > 0
    ensures SeqSub(target, SeqInc(sq)) == SeqSub(target, sq) - 1
  {
    var q, d := (target - sq) / SEQ_MODULO, SeqSub(target, sq);
    var k := (sq + 1) / SEQ_MODULO;
    assert target - SeqInc(sq) == SEQ_MODULO * (q + k) + (d - 1);
    ModUnique(target - SeqInc(sq), SEQ_MODULO, q + k, d - 1);
  }

  /** One step of a release loop: while the target is less than half a turn ahead it comes
      one closer, and the loop condition fails exactly at distance 0 or from half a turn on. */
  lemma StepTowards(sq: int, target: int)
    ensures SeqLess(sq, target) <==> 0 < SeqSub(target, sq) < SEQ_MODULO / 2
    ensures SeqLess(sq, target) ==> SeqSub(target, SeqInc(sq)) == SeqSub(target, sq) - 1
    ensures 0 <= sq < SEQ_MODULO && SeqSub(target, sq) == 0 ==> sq == target % SEQ_MODULO
  {
    Opposite(target - sq);
    if SeqSub(target, sq) > 0 { OneCloser(sq, target); }
    if 0 <= sq < SEQ_MODULO && SeqSub(target, sq) == 0 {
      ModUnique(target, SEQ_MODULO, (target - sq) / SEQ_MODULO, sq);
    }
  }

  lemma AddCongruent(a: int, x: int, d: int)
    requires a % SEQ_MODULO == x % SEQ_MODULO
    ensures (a + d) % SEQ_MODULO == (x + d) % SEQ_MODULO
  {
  }

  lemma SubCongruent(a: int, b: int, x: int, y: int)
    requires a % SEQ_MODULO == x % SEQ_MODULO && b % SEQ_MODULO == y % SEQ_MODULO
    ensures SeqSub(a, b) == SeqSub(x, y)
    ensures SeqLess(a, b) == SeqLess(x, y)
  {
    var p, q := a / SEQ_MODULO - x / SEQ_MODULO, b / SEQ_MODULO - y / SEQ_MODULO;
    assert a - b == (x - y) + SEQ_MODULO * (p - q);
  }

  /** The code's second test and the new head it computes, in lifted terms, for a number not
      behind the head: the test asks to move the window just when the number is beyond it
      (and, harmlessly, for the head itself when the size is half the sequence space), and
      the new head makes the number the last one of the window. */
  lemma BeyondWindow(head: int, size: nat, sq: Seq12, sqHead: Seq12)
    requires sqHead == head % SEQ_MODULO && 2 <= size <= SEQ_MODULO / 2 && head <= Lift(head, sq)
    ensures var at := Lift(head, sq);
            SeqLess(sq, sqHead + size) <==> at < head + size && !(at == head && size == SEQ_MODULO / 2)
    ensures SeqInc(SeqSub(sq, size)) == (Lift(head, sq) - size + 1) % SEQ_MODULO
  {
    var at := Lift(head, sq);
    BeyondTest(head, size, sq, sqHead, at);
    AddCongruent(sq, at, -(size as int));
    hide Lift, SeqLess;
    AddCongruent(SeqSub(sq, size), at - size, 1);
  }

  lemma BeyondTest(head: int, size: nat, sq: Seq12, sqHead: Seq12, at: int)
    requires sqHead % SEQ_MODULO == head % SEQ_MODULO && sq % SEQ_MODULO == at % SEQ_MODULO
    requires 1 <= size <= SEQ_MODULO / 2 && head <= at <= head + SEQ_MODULO / 2
    ensures SeqLess(sq, sqHead + size) <==> at < head + size && !(at == head && size == SEQ_MODULO / 2)
  {
    AddCongruent(sqHead, head, size);
    SubCongruent(sq, sqHead + size, at, head + size);
    SeqLessMeaning(at, head + size);
  }

  /** Reading the code's first test on a received number: it rejects exactly those whose
      lifted value lies behind the head. The number half a turn ahead is kept, although
      section 9.21.7.6.2 of IEEE Std 802.11-2012 discards numbers from 2^11 ahead on. */
  lemma RejectedMeansBehind(head: int, sq: int)
    ensures SeqLess(sq, head % SEQ_MODULO) <==> Lift(head, sq) < head
    ensures SeqLess(sq, head % SEQ_MODULO) <==> 2048 < (sq - head) % SEQ_MODULO
    ensures (sq - head) % SEQ_MODULO == 2048 <==> Lift(head, sq) == head + 2048
  {
  }

  /** The slot of the frame with lifted number `at`. */
  function SlotOf(ssn: int, size: int, at: int): (index: nat)
    requires size > 0
  {
    ReorderIndex(ssn, size, at % SEQ_MODULO)
  }

  /** In every window of `size` successive sequence numbers, slots are distinct. */
  ghost predicate WindowsInjective(size: int)
    requires size > 0
  {
    forall ssn: Seq12, x: int, y: int | x < y < x + size :: SlotOf(ssn, size, x) != SlotOf(ssn, size, y)
  }

  /** When the buffer size divides the sequence space, the slot of a lifted number is simply
      its distance from the start modulo the size. */
  lemma SlotOfLifted(ssn: int, size: int, at: int)
    requires size > 0 && SEQ_MODULO % size == 0
    ensures SlotOf(ssn, size, at) == (at - ssn) % size
  {
    assert (at % SEQ_MODULO - ssn) % SEQ_MODULO == (at - ssn) % SEQ_MODULO;
    ModOfMultiple(at - ssn, SEQ_MODULO, size);
  }

  lemma DistanceFromStart(ssn: int, d: int)
    requires 0 <= d < SEQ_MODULO
    ensures SeqSub((ssn + d) % SEQ_MODULO, ssn) == d
    ensures SeqSub((ssn + SEQ_MODULO) % SEQ_MODULO, ssn) == 0
  {
  }

  /** From `ssn`, a whole turn ahead comes back to slot 0, and so does the place that is
      the remainder of the sequence space short of a whole turn. */
  lemma WrapCollision(ssn: int, size: int)
    requires 0 < size <= SEQ_MODULO && SEQ_MODULO % size != 0
    ensures SlotOf(ssn, size, ssn + SEQ_MODULO - SEQ_MODULO % size) == 0
    ensures SlotOf(ssn, size, ssn + SEQ_MODULO) == 0
  {
    ModRemoved(SEQ_MODULO, size);
    ModUnique(0, size, 0, 0);
    DistanceFromStart(ssn, SEQ_MODULO - SEQ_MODULO % size);
  }

  /** Whatever the window's position relative to `ssn`, slots are distinct in every window
      if and only if the size divides the sequence space. */
  lemma WindowsInjectiveIffDivides(size: int)
    requires size > 0
    ensures WindowsInjective(size) <==> SEQ_MODULO % size == 0
  {
    if SEQ_MODULO % size == 0 {
      forall ssn: Seq12, x: int, y: int | x < y < x + size
        ensures SlotOf(ssn, size, x) != SlotOf(ssn, size, y)
      {
        SlotOfLifted(ssn, size, x);
        SlotOfLifted(ssn, size, y);
        ModDistinct(x - ssn, y - ssn, size);
      }
    } else if size <= SEQ_MODULO {
      WrapCollision(0, size);
      var x, y := SEQ_MODULO - SEQ_MODULO % size, SEQ_MODULO;
      assert SlotOf(0, size, 0 + x) == SlotOf(0, size, 0 + y);
    } else {
      assert SlotOf(0, size, 0) == SlotOf(0, size, SEQ_MODULO);
    }
  }
}
