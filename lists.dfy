/**
 * Sequences used as ordered, duplicate-free lists: the index of tracked paths
 * and the branch registry.
 */
module Lists {

  predicate NoDup(s: seq<string>) {
    forall i, j :: 0 <= i < j < |s| ==> s[i] != s[j]
  }

  /** `s` with every occurrence of `x` filtered out, the rest in their order. */
  function Without(s: seq<string>, x: string): (r: seq<string>)
    ensures |r| <= |s|
    ensures forall y :: y in r <==> y in s && y != x
  {
    if s == [] then []
    else
      var rest := Without(s[..|s| - 1], x);
      if s[|s| - 1] == x then rest else rest + [s[|s| - 1]]
  }

  lemma {:induction false} WithoutAbsent(s: seq<string>, x: string)
    requires x !in s
    ensures Without(s, x) == s
  {
    if s != [] {
      WithoutAbsent(s[..|s| - 1], x);
    }
  }

  /** In a duplicate-free list, filtering out a present entry removes exactly
      that position and keeps the others in their relative order. */
  lemma {:induction false} WithoutOne(s: seq<string>, k: nat)
    requires NoDup(s) && k < |s|
    ensures Without(s, s[k]) == s[..k] + s[k + 1..]
  {
    var n := |s| - 1;
    var init := s[..n];
    assert NoDup(init);
    if k == n {
      WithoutAbsent(init, s[k]);
    } else {
      WithoutOne(init, k);
      assert init[..k] == s[..k];
      assert init[k + 1..] + [s[n]] == s[k + 1..];
    }
  }

  lemma {:induction false} WithoutNoDup(s: seq<string>, x: string)
    requires NoDup(s)
    ensures NoDup(Without(s, x))
  {
    if s != [] {
      var init := s[..|s| - 1];
      assert NoDup(init);
      WithoutNoDup(init, x);
      assert s[|s| - 1] !in init;
    }
  }

  /** The last position holding `x`, or -1 when there is none. */
  function LastIndexOf(s: seq<string>, x: string): (r: int)
    ensures -1 <= r < |s|
    ensures r == -1 <==> x !in s
    ensures r >= 0 ==> s[r] == x && forall j :: r < j < |s| ==> s[j] != x
  {
    if s == [] then -1
    else if s[|s| - 1] == x then |s| - 1
    else LastIndexOf(s[..|s| - 1], x)
  }

  /** In a duplicate-free list the last position of `x` is its only one. */
  lemma LastIndexOfUnique(s: seq<string>, k: nat)
    requires NoDup(s) && k < |s|
    ensures LastIndexOf(s, s[k]) == k
  {
  }
}
