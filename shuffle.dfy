/**
 * Python's `random.shuffle(x)`: an in-place Fisher-Yates pass that walks the
 * list from its last index down to 1 and swaps each element with one at a
 * random index at or below it. The random source is not modelled: each index
 * is an arbitrary choice in the allowed range, so the only promise is that the
 * list afterwards holds the same elements, each as often as before.
 */
module Shuffle {

  method Shuffle<T>(a: array<T>)
    modifies a
    ensures multiset(a[..]) == old(multiset(a[..]))
  {
    var i := a.Length;
    while i > 1
      invariant 0 <= i <= a.Length
      invariant multiset(a[..]) == old(multiset(a[..]))
    {
      i := i - 1;
      var j :| 0 <= j <= i;
      a[i], a[j] := a[j], a[i];
    }
  }
}
