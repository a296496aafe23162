/** A stable sort, standing for Python's `sorted`, and the search `bisect_right` on its result. */
module Sorting {

  ghost predicate TotalPreorder<X(!new)>(le: (X, X) -> bool) {
    && (forall x, y :: le(x, y) || le(y, x))
    && (forall x, y, z :: le(x, y) && le(y, z) ==> le(x, z))
  }

  ghost predicate Sorted<X>(s: seq<X>, le: (X, X) -> bool) {
    forall i, j :: 0 <= i < j < |s| ==> le(s[i], s[j])
  }

  function Insert<X(!new)>(x: X, s: seq<X>, le: (X, X) -> bool): (r: seq<X>)
    requires TotalPreorder(le) && Sorted(s, le)
    ensures multiset(r) == multiset(s) + multiset{x}
    ensures Sorted(r, le)
  {
    if s == [] || le(x, s[0]) then
      SortedCons(x, s, le);
      [x] + s
    else
      assert s == [s[0]] + s[1..];
      var rest := Insert(x, s[1..], le);
      InsertedBehind(x, s, rest, le);
      [s[0]] + rest
  }

  lemma SortedCons<X(!new)>(x: X, s: seq<X>, le: (X, X) -> bool)
    requires TotalPreorder(le) && Sorted(s, le) && (s == [] || le(x, s[0]))
    ensures Sorted([x] + s, le)
  {
    assert forall i :: 0 < i < |s| ==> le(s[0], s[i]);
  }

  lemma InsertedBehind<X(!new)>(x: X, s: seq<X>, rest: seq<X>, le: (X, X) -> bool)
    requires TotalPreorder(le) && Sorted(s, le) && s != [] && !le(x, s[0])
    requires Sorted(rest, le) && multiset(rest) == multiset(s[1..]) + multiset{x}
    ensures Sorted([s[0]] + rest, le)
  {
    if rest != [] {
      assert rest[0] in multiset(rest);
      if rest[0] != x { assert rest[0] in s[1..]; }
      SortedCons(s[0], rest, le);
    }
  }

  function Sort<X(!new)>(s: seq<X>, le: (X, X) -> bool): (r: seq<X>)
    requires TotalPreorder(le)
    ensures multiset(r) == multiset(s) && |r| == |s|
    ensures Sorted(r, le)
  {
    if s == [] then [] else
      assert s == [s[0]] + s[1..];
      var r := Insert(s[0], Sort(s[1..], le), le);
      assert |multiset(r)| == |multiset(s)|;
      r
  }

  /** Where `x` goes: what is before is not greater, what is behind is. */
  method BisectRight<X(!new)>(s: seq<X>, x: X, le: (X, X) -> bool) returns (pos: nat)
    requires TotalPreorder(le) && Sorted(s, le)
    ensures pos <= |s|
    ensures forall i :: 0 <= i < pos ==> le(s[i], x)
    ensures forall i :: pos <= i < |s| ==> !le(s[i], x)
  {
    var lo: nat, hi: nat := 0, |s|;
    while lo < hi
      invariant lo <= hi <= |s|
      invariant forall i :: 0 <= i < lo ==> le(s[i], x)
      invariant forall i :: hi <= i < |s| ==> !le(s[i], x)
    {
      var mid := (lo + hi) / 2;
      if !le(s[mid], x) {
        forall i | mid <= i < |s| ensures !le(s[i], x) { assert i == mid || le(s[mid], s[i]); }
        hi := mid;
      } else {
        forall i | 0 <= i <= mid ensures le(s[i], x) { assert i == mid || le(s[i], s[mid]); }
        lo := mid + 1;
      }
    }
    pos := lo;
  }
}
