/** Positions on a ring, and a ring's contents read from any of its places on. */
module CircularBuffer {

  /** Where position i of a ring of `size` places comes to lie. */
  function Wrap(i: nat, size: nat): (j: nat)
    requires i < 2 * size
    ensures j < size
  {
    if i < size then i else i - size
  }

  /** The places from index t on, all the way round. */
  function Rotate<T>(slots: seq<T>, t: nat): (r: seq<T>)
    requires t <= |slots|
    ensures |r| == |slots|
  {
    slots[t..] + slots[..t]
  }

  lemma RotateUpdate<T>(slots: seq<T>, t: nat, j: nat, x: T)
    requires t < |slots| && j < |slots|
    ensures Rotate(slots[Wrap(t + j, |slots|) := x], t) == Rotate(slots, t)[j := x]
    ensures Rotate(slots, t)[j] == slots[Wrap(t + j, |slots|)]
  {
  }

  lemma RotateOn<T>(slots: seq<T>, t: nat, n: nat)
    requires t < |slots| && n < |slots|
    ensures Rotate(slots, Wrap(t + n, |slots|)) == Rotate(slots, t)[n..] + Rotate(slots, t)[..n]
  {
  }
}
