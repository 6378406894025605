/** Small facts and searches that several modules share. */
module Basics {
  const U32_MAX: nat := 0xFFFF_FFFF

  function Min(a: nat, b: nat): nat {
    if a <= b then a else b
  }

  predicate Ascending(s: seq<nat>) {
    forall i, j :: 0 <= i < j < |s| ==> s[i] < s[j]
  }

  lemma Regrouped<T>(a: seq<T>, b: seq<T>, c: seq<T>)
    ensures (a + b) + c == a + (b + c)
  {
  }

  lemma SameListIff<T>(x: T, y: T, a: seq<T>, b: seq<T>)
    ensures [x] + a == [y] + b <==> x == y && a == b
  {
    if [x] + a == [y] + b {
      assert ([x] + a)[0] == x && ([y] + b)[0] == y && a == ([x] + a)[1..] && b == ([y] + b)[1..];
    }
  }

  lemma SameTailIff<T>(a: seq<T>, x: seq<T>, y: seq<T>)
    ensures a + x == a + y <==> x == y
  {
    if a + x == a + y { assert x == (a + x)[|a|..] && y == (a + y)[|a|..]; }
  }

  // ----- six bits at a time -----

  lemma SixBits(a: nat, z: nat)
    requires z < 0x40
    ensures (a * 0x40 + z) / 0x40 == a && (a * 0x40 + z) % 0x40 == z
  {
  }

  lemma Quotients(x: nat)
    ensures x / 0x1000 == x / 0x40 / 0x40 && x / 0x4_0000 == x / 0x40 / 0x40 / 0x40
  {
  }

  // ----- searching -----

  /** `slice::partition_point`: how many elements at the front satisfy a test that none does
      after one that does not. */
  method PartitionPoint<T>(s: seq<T>, test: T -> bool) returns (n: nat)
    requires forall i, j :: 0 <= i < j < |s| && test(s[j]) ==> test(s[i])
    ensures n <= |s|
    ensures (forall i :: 0 <= i < n ==> test(s[i])) && (forall i :: n <= i < |s| ==> !test(s[i]))
  {
    var lo, hi := 0, |s|;
    while lo < hi
      invariant lo <= hi <= |s|
      invariant forall i :: 0 <= i < lo ==> test(s[i])
      invariant forall i :: hi <= i < |s| ==> !test(s[i])
    {
      var mid := lo + (hi - lo) / 2;
      if test(s[mid]) {
        lo := mid + 1;
      } else {
        hi := mid;
      }
    }
    n := lo;
  }
}
