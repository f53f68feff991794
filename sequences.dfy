/** Keeping, in order, the elements of a sequence that a partial map accepts. */
module Sequences {
  import opened Wrappers

  /** The values `f` gives for the elements of `s`, in order, skipping the
      elements for which it gives none. */
  function FilterMap<T, U>(s: seq<T>, f: T -> Option<U>): (r: seq<U>)
    ensures |r| <= |s|
  {
    if s == [] then []
    else
      FilterMap(s[..|s| - 1], f)
        + (match f(s[|s| - 1]) case Some(u) => [u] case None => [])
  }

  /** The positions in `s` of the elements that `f` accepts. */
  function KeptPositions<T, U>(s: seq<T>, f: T -> Option<U>): seq<int> {
    if s == [] then []
    else
      var n := |s| - 1;
      KeptPositions(s[..n], f) + (if f(s[n]).Some? then [n] else [])
  }

  /** FilterMap yields an order-preserving subsequence: the k-th value comes
      from the k-th kept position, positions increase, and a position is kept
      exactly when `f` accepts its element. */
  lemma {:induction false} FilterMapIsSubsequence<T, U>(s: seq<T>, f: T -> Option<U>)
    ensures var r, ks := FilterMap(s, f), KeptPositions(s, f);
      && |r| == |ks|
      && (forall k :: 0 <= k < |ks| ==> 0 <= ks[k] < |s| && f(s[ks[k]]) == Some(r[k]))
      && (forall k, l :: 0 <= k < l < |ks| ==> ks[k] < ks[l])
      && (forall i :: 0 <= i < |s| ==> (i in ks <==> f(s[i]).Some?))
  {
    if s != [] {
      var n := |s| - 1;
      var front := s[..n];
      FilterMapIsSubsequence(front, f);
      var r0, ks0 := FilterMap(front, f), KeptPositions(front, f);
      var r, ks := FilterMap(s, f), KeptPositions(s, f);
      assert forall i :: 0 <= i < n ==> front[i] == s[i];
      if f(s[n]).Some? {
        assert r == r0 + [f(s[n]).value] && ks == ks0 + [n];
      } else {
        assert r == r0 && ks == ks0;
      }
    }
  }

  /** Extending the input by one element extends the result by that
      element's value `v`, if `f` gives one. */
  lemma FilterMapStep<T, U>(s: seq<T>, i: nat, f: T -> Option<U>, v: Option<U>)
    requires i < |s| && v == f(s[i])
    ensures FilterMap(s[..i + 1], f) == FilterMap(s[..i], f) + (match v case Some(u) => [u] case None => [])
  {
    assert s[..i + 1][..i] == s[..i];
  }

  /** Every value `f` gives for an element of `s` is in the result. */
  lemma {:induction false} FilterMapKeeps<T, U>(s: seq<T>, f: T -> Option<U>, i: int, u: U)
    requires 0 <= i < |s| && f(s[i]) == Some(u)
    ensures u in FilterMap(s, f)
  {
    var n := |s| - 1;
    if i < n {
      assert s[..n][i] == s[i];
      FilterMapKeeps(s[..n], f, i, u);
    }
  }

  /** Every value in the result is the value `f` gives for some element of `s`. */
  lemma {:induction false} FilterMapFrom<T, U>(s: seq<T>, f: T -> Option<U>, u: U)
    requires u in FilterMap(s, f)
    ensures exists i :: 0 <= i < |s| && f(s[i]) == Some(u)
  {
    var n := |s| - 1;
    if u in FilterMap(s[..n], f) {
      FilterMapFrom(s[..n], f, u);
      var i :| 0 <= i < n && f(s[..n][i]) == Some(u);
      assert s[..n][i] == s[i];
    } else {
      assert f(s[n]) == Some(u);
    }
  }
}
