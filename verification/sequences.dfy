/** Order-preserving selection over sequences, the model of JavaScript's
    `Array.prototype.filter` used for both the fruit list and the trail list. */
module Sequences {

  /** The elements of `s` satisfying `keep`, in their original order. */
  function Filter<T>(s: seq<T>, keep: T -> bool): (r: seq<T>)
    ensures |r| <= |s|
    ensures forall i :: 0 <= i < |r| ==> keep(r[i])
  {
    if |s| == 0 then []
    else
      var init, last := s[..|s| - 1], s[|s| - 1];
      Filter(init, keep) + (if keep(last) then [last] else [])
  }

  /** Filter keeps exactly the elements satisfying `keep`, and never more
      copies of an element than the input holds. */
  lemma {:induction false} FilterMembers<T(!new)>(s: seq<T>, keep: T -> bool)
    ensures forall x :: x in Filter(s, keep) <==> x in s && keep(x)
    ensures multiset(Filter(s, keep)) <= multiset(s)
  {
    if |s| > 0 {
      var init, last := s[..|s| - 1], s[|s| - 1];
      assert s == init + [last];
      FilterMembers(init, keep);
    }
  }

  /** The positions of `s` whose element satisfies `keep`, in increasing order. */
  function FilterIndices<T>(s: seq<T>, keep: T -> bool): (r: seq<int>)
    ensures forall k :: 0 <= k < |r| ==> 0 <= r[k] < |s| && keep(s[r[k]])
    ensures forall k, l :: 0 <= k < l < |r| ==> r[k] < r[l]
    ensures forall i :: 0 <= i < |s| && keep(s[i]) ==> i in r
  {
    if |s| == 0 then []
    else
      var n := |s| - 1;
      var prev := FilterIndices(s[..n], keep);
      assert forall k :: 0 <= k < |prev| ==> s[..n][prev[k]] == s[prev[k]];
      prev + (if keep(s[n]) then [n] else [])
  }

  /** Filter picks exactly the elements at FilterIndices: the result is a
      subsequence of the input, so order is kept and no element is repeated. */
  lemma {:induction false} FilterSelectsIndices<T>(s: seq<T>, keep: T -> bool)
    ensures |Filter(s, keep)| == |FilterIndices(s, keep)|
    ensures forall k :: 0 <= k < |Filter(s, keep)| ==>
              Filter(s, keep)[k] == s[FilterIndices(s, keep)[k]]
  {
    if |s| > 0 {
      var n := |s| - 1;
      var init := s[..n];
      FilterSelectsIndices(init, keep);
      var r, idx := Filter(init, keep), FilterIndices(init, keep);
      var tail, tailIdx := if keep(s[n]) then [s[n]] else [], if keep(s[n]) then [n] else [];
      assert Filter(s, keep) == r + tail;
      assert FilterIndices(s, keep) == idx + tailIdx;
      forall k | 0 <= k < |r + tail|
        ensures (r + tail)[k] == s[(idx + tailIdx)[k]]
      {
        if k < |r| {
          assert r[k] == init[idx[k]];
        }
      }
    }
  }

  /** Filtering after appending one element. */
  lemma FilterSnoc<T>(s: seq<T>, x: T, keep: T -> bool)
    ensures Filter(s + [x], keep) == Filter(s, keep) + (if keep(x) then [x] else [])
  {
    assert (s + [x])[..|s|] == s;
  }

  /** Filtering a concatenation filters each part independently. */
  lemma {:induction false} FilterConcat<T>(a: seq<T>, b: seq<T>, keep: T -> bool)
    ensures Filter(a + b, keep) == Filter(a, keep) + Filter(b, keep)
    decreases |b|
  {
    if |b| == 0 {
      assert a + b == a;
    } else {
      var n := |b| - 1;
      var init, last := b[..n], b[n];
      var tail := if keep(last) then [last] else [];
      calc {
        Filter(a + b, keep);
        { assert a + b == (a + init) + [last]; }
        Filter((a + init) + [last], keep);
        { FilterSnoc(a + init, last, keep); }
        Filter(a + init, keep) + tail;
        { FilterConcat(a, init, keep); }
        Filter(a, keep) + Filter(init, keep) + tail;
        { assert b == init + [last]; FilterSnoc(init, last, keep); }
        Filter(a, keep) + Filter(b, keep);
      }
    }
  }
}
