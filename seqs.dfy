/** The two query shapes the controllers use on a table: `FirstOrDefault(p)` and `Where(p)`. */
module Seqs {
  import opened Wrappers

  /** The index of the first row satisfying `p`, if there is one. */
  function IndexWhere<T>(s: seq<T>, p: T -> bool): (r: Option<nat>)
    ensures r.Some? ==> r.value < |s| && p(s[r.value]) && forall j :: 0 <= j < r.value ==> !p(s[j])
    ensures r.None? <==> forall x | x in s :: !p(x)
  {
    if |s| == 0 then None
    else if p(s[0]) then Some(0)
    else
      var r := IndexWhere(s[1..], p);
      assert forall x | x in s :: x == s[0] || x in s[1..];
      if r.None? then None
      else
        assert forall j :: 1 <= j < r.value + 1 ==> s[j] == s[1..][j - 1];
        Some(r.value + 1)
  }

  /** The first row satisfying `p`, in table order (`FirstOrDefault`). */
  function FirstWhere<T>(s: seq<T>, p: T -> bool): (r: Option<T>)
    ensures r.None? <==> (forall x | x in s :: !p(x))
    ensures r.Some? ==> r.value in s && p(r.value)
    ensures r.Some? ==> exists k :: 0 <= k < |s| && s[k] == r.value && forall j :: 0 <= j < k ==> !p(s[j])
  {
    var k := IndexWhere(s, p);
    if k.Some? then Some(s[k.value]) else None
  }

  /** The rows satisfying `p`, in table order (`Where`). */
  function Filter<T>(s: seq<T>, p: T -> bool): (r: seq<T>)
    ensures |r| <= |s|
    ensures forall x | x in r :: x in s && p(x)
    ensures forall x | x in s && p(x) :: x in r
    ensures forall x | x in s && p(x) :: multiset(r)[x] == multiset(s)[x]
    ensures multiset(r) <= multiset(s)
  {
    if |s| == 0 then []
    else
      var rest := Filter(s[1..], p);
      assert s == [s[0]] + s[1..];
      if p(s[0]) then [s[0]] + rest else rest
  }

  /** `s` with the row at index `k` taken out (`Remove`). */
  function RemoveAt<T>(s: seq<T>, k: nat): (r: seq<T>)
    requires k < |s|
    ensures |r| == |s| - 1
    ensures multiset(r) == multiset(s) - multiset{s[k]}
    ensures forall j :: 0 <= j < k ==> r[j] == s[j]
    ensures forall j :: k <= j < |r| ==> r[j] == s[j + 1]
  {
    var r := s[..k] + s[k + 1..];
    assert s == s[..k] + ([s[k]] + s[k + 1..]);
    assert multiset(s) == multiset(s[..k]) + multiset{s[k]} + multiset(s[k + 1..]);
    assert multiset(r) == multiset(s[..k]) + multiset(s[k + 1..]);
    r
  }
}
