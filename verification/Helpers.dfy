/** Small functions that several modules share. */
module Helpers {

  function Max(a: int, b: int): int {
    if a < b then b else a
  }

  function Last<T>(s: seq<T>): T
    requires s != []
  {
    s[|s| - 1]
  }

  function Front<T>(s: seq<T>): (r: seq<T>)
    requires s != []
    ensures |r| == |s| - 1
  {
    s[..|s| - 1]
  }

  ghost function NaturalsBelow(n: nat): (r: set<nat>)
    ensures |r| == n && forall u: nat :: u in r <==> u < n
  {
    if n == 0 then {} else NaturalsBelow(n - 1) + {n - 1}
  }
}
