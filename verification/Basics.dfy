/** Optional results, and sequences without repeats or with an element taken out. */
module Basics {

  datatype Option<T> = None | Some(value: T)

  function Min(a: int, b: int): int {
    if a < b then a else b
  }

  function Pow2(n: nat): (p: nat)
    ensures p >= 1 && p > n
  {
    if n == 0 then 1 else 2 * Pow2(n - 1)
  }

  ghost predicate NoDup<T>(s: seq<T>) {
    forall i, j :: 0 <= i < j < |s| ==> s[i] != s[j]
  }

  function RemoveAt<T>(s: seq<T>, i: nat): seq<T>
    requires i < |s|
  {
    s[..i] + s[i + 1..]
  }

  /** Remove the first occurrence; a list without the element stays as it is. */
  function Unlinked<T(==)>(s: seq<T>, x: T): seq<T> {
    if s == [] then []
    else if s[0] == x then s[1..]
    else [s[0]] + Unlinked(s[1..], x)
  }
}
