/** How often a value occurs in a sequence. Conservation laws are stated with it. */
module Counting {

  function Count<T(==)>(s: seq<T>, x: T): (n: nat)
    ensures n <= |s|
  {
    if s == [] then 0 else (if s[0] == x then 1 else 0) + Count(s[1..], x)
  }

  lemma {:induction false} CountConcat<T>(a: seq<T>, b: seq<T>, x: T)
    ensures Count(a + b, x) == Count(a, x) + Count(b, x)
  {
    if a == [] {
      assert a + b == b;
    } else {
      CountConcat(a[1..], b, x);
      assert (a + b)[1..] == a[1..] + b;
    }
  }

  lemma CountSnoc<T>(a: seq<T>, y: T, x: T)
    ensures Count(a + [y], x) == Count(a, x) + if y == x then 1 else 0
  {
    CountConcat(a, [y], x);
  }

  lemma {:induction false} CountPositive<T>(s: seq<T>, x: T)
    ensures Count(s, x) > 0 <==> x in s
  {
    if s == [] {
    } else {
      CountPositive(s[1..], x);
    }
  }

  /** Replacing one element trades one occurrence for another. */
  lemma CountUpdate<T>(s: seq<T>, i: nat, y: T, x: T)
    requires i < |s|
    ensures Count(s[i := y], x) + (if s[i] == x then 1 else 0) == Count(s, x) + if y == x then 1 else 0
  {
    CountConcat(s[..i], [s[i]] + s[i + 1..], x);
    CountConcat(s[..i], [y] + s[i + 1..], x);
    assert s == s[..i] + ([s[i]] + s[i + 1..]);
    assert s[i := y] == s[..i] + ([y] + s[i + 1..]);
  }
}
