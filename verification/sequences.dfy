/** Sequence helpers shared by the stores of the model. */
module Sequences {

  /** `xs` without its first occurrence of `x` (unchanged when `x` is absent):
      `Collection.remove(Object)` on a queue. */
  function RemoveFirst<T(==)>(xs: seq<T>, x: T): (r: seq<T>)
    ensures x in xs ==> multiset(r) == multiset(xs) - multiset{x} && |r| == |xs| - 1
    ensures x !in xs ==> r == xs
  {
    if xs == [] then []
    else if xs[0] == x then
      assert xs == [xs[0]] + xs[1..];
      xs[1..]
    else
      var rest := RemoveFirst(xs[1..], x);
      assert xs == [xs[0]] + xs[1..];
      [xs[0]] + rest
  }
}
