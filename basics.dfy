/** Small vocabulary shared by the gallery model and the maintenance tools:
    an optional value, order-preserving selection of positions, and filtering. */
module Basics {

  datatype Option<+T> = None | Some(value: T)

  /** The indices k in [lo, hi) for which p(k) holds, in increasing order. */
  function Select(p: nat -> bool, lo: nat, hi: nat): (r: seq<nat>)
    decreases hi
    ensures forall i :: 0 <= i < |r| ==> lo <= r[i] < hi
    ensures forall k :: k in r <==> lo <= k < hi && p(k)
    ensures forall i, j :: 0 <= i < j < |r| ==> r[i] < r[j]
  {
    if hi <= lo then []
    else
      var r0 := Select(p, lo, hi - 1);
      assert forall i :: 0 <= i < |r0| ==> r0[i] < hi - 1;
      r0 + (if p(hi - 1) then [hi - 1] else [])
  }

  /** The elements of s at the given positions, in the order of the positions. */
  function Pick<T>(s: seq<T>, positions: seq<nat>): (r: seq<T>)
    requires forall i :: 0 <= i < |positions| ==> positions[i] < |s|
    ensures |r| == |positions|
    ensures forall i :: 0 <= i < |r| ==> r[i] == s[positions[i]]
  {
    seq(|positions|, i requires 0 <= i < |positions| => s[positions[i]])
  }

  /** The positions k < |s| whose element satisfies p, in increasing order. */
  function Positions<T>(s: seq<T>, p: T -> bool): (r: seq<nat>)
    ensures forall i :: 0 <= i < |r| ==> r[i] < |s|
    ensures forall k :: k in r <==> 0 <= k < |s| && p(s[k])
    ensures forall i, j :: 0 <= i < j < |r| ==> r[i] < r[j]
  {
    if s == [] then []
    else
      var r0 := Positions(s[..|s| - 1], p);
      assert forall k :: 0 <= k < |s| - 1 ==> s[..|s| - 1][k] == s[k];
      r0 + (if p(s[|s| - 1]) then [|s| - 1] else [])
  }

  /** The elements of s that satisfy p, in their original order (JavaScript's
      Array.prototype.filter, Python's list comprehension with a guard). */
  function Filter<T>(s: seq<T>, p: T -> bool): (r: seq<T>)
    ensures |r| <= |s|
    ensures forall i :: 0 <= i < |r| ==> p(r[i])
  {
    if s == [] then []
    else Filter(s[..|s| - 1], p) + (if p(s[|s| - 1]) then [s[|s| - 1]] else [])
  }

  /** Filtering keeps exactly the elements at the positions that satisfy p, in
      order: the output is a subsequence of the input. */
  lemma {:induction false} FilterIsPickOfPositions<T>(s: seq<T>, p: T -> bool)
    ensures Filter(s, p) == Pick(s, Positions(s, p))
  {
    if s != [] {
      var init, last := s[..|s| - 1], s[|s| - 1];
      FilterIsPickOfPositions(init, p);
      var f0, p0 := Filter(init, p), Positions(init, p);
      var f, ps := Filter(s, p), Positions(s, p);
      assert f == f0 + (if p(last) then [last] else []);
      assert ps == p0 + (if p(last) then [|s| - 1] else []);
      assert |f0| == |p0|;
      forall i | 0 <= i < |f|
        ensures f[i] == s[ps[i]]
      {
        if i < |f0| {
          assert f[i] == f0[i] == init[p0[i]];
        }
      }
    }
  }

  /** An element survives filtering exactly when it is in s and satisfies p. */
  lemma {:induction false} FilterMembers<T>(s: seq<T>, p: T -> bool, x: T)
    ensures x in Filter(s, p) <==> x in s && p(x)
  {
    if s != [] {
      FilterMembers(s[..|s| - 1], p, x);
      assert s == s[..|s| - 1] + [s[|s| - 1]];
    }
  }

  /** All elements of s are pairwise distinct. */
  predicate Distinct<T(==)>(s: seq<T>) {
    forall i, j :: 0 <= i < |s| && 0 <= j < |s| && i != j ==> s[i] != s[j]
  }

  /** Filtering a sequence without repetitions gives one without repetitions. */
  lemma {:induction false} FilterDistinct<T>(s: seq<T>, p: T -> bool)
    requires Distinct(s)
    ensures Distinct(Filter(s, p))
  {
    if s != [] {
      var init, last := s[..|s| - 1], s[|s| - 1];
      assert Distinct(init) by {
        forall i, j | 0 <= i < |init| && 0 <= j < |init| && i != j ensures init[i] != init[j] {
          assert init[i] == s[i] && init[j] == s[j];
        }
      }
      FilterDistinct(init, p);
      FilterMembers(init, p, last);
      assert last !in init by {
        forall i | 0 <= i < |init| ensures init[i] != last {
          assert init[i] == s[i];
        }
      }
    }
  }
}
