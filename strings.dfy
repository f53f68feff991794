/** Python's `str.join` and `str.split` on a separator. */
module Strings {
  import opened Wrappers

  /** `sep.join(parts)`. */
  function Join(parts: seq<string>, sep: string): string {
    if parts == [] then ""
    else if |parts| == 1 then parts[0]
    else parts[0] + sep + Join(parts[1..], sep)
  }

  predicate OccursAt(s: string, pat: string, i: int) {
    0 <= i && i + |pat| <= |s| && s[i..i + |pat|] == pat
  }

  predicate Contains(s: string, pat: string) {
    exists i :: 0 <= i <= |s| - |pat| && OccursAt(s, pat, i)
  }

  /** The first position at or after `i` where `pat` occurs in `s`. */
  function FindFrom(s: string, pat: string, i: nat): (r: Option<nat>)
    requires |pat| > 0
    ensures r.Some? ==> i <= r.value && OccursAt(s, pat, r.value)
    decreases |s| - i
  {
    if i + |pat| > |s| then None
    else if OccursAt(s, pat, i) then Some(i)
    else FindFrom(s, pat, i + 1)
  }

  /** `s.split(sep)`: the pieces between the occurrences of `sep`, scanning
      from the left; always at least one piece. */
  function Split(s: string, sep: string): (r: seq<string>)
    requires |sep| > 0
    ensures |r| >= 1
    decreases |s|
  {
    match FindFrom(s, sep, 0)
    case None => [s]
    case Some(i) => [s[..i]] + Split(s[i + |sep|..], sep)
  }

  lemma {:induction false} FindFromNone(s: string, pat: string, i: nat)
    requires |pat| > 0 && !Contains(s, pat)
    ensures FindFrom(s, pat, i) == None
    decreases |s| - i
  {
    if i + |pat| <= |s| {
      assert !OccursAt(s, pat, i);
      FindFromNone(s, pat, i + 1);
    }
  }

  lemma {:induction false} FindFromFirst(s: string, pat: string, i: nat, j: nat)
    requires |pat| > 0 && i <= j && OccursAt(s, pat, j)
    requires forall k :: i <= k < j ==> !OccursAt(s, pat, k)
    ensures FindFrom(s, pat, i) == Some(j)
    decreases j - i
  {
    if i < j {
      assert !OccursAt(s, pat, i);
      FindFromFirst(s, pat, i + 1, j);
    }
  }

  /** In `x + ", " + rest`, with no ", " inside `x`, the first ", " is the one
      right after `x`. */
  lemma FirstSeparator(x: string, rest: string)
    requires !Contains(x, ", ")
    ensures FindFrom(x + ", " + rest, ", ", 0) == Some(|x|)
  {
    var s := x + ", " + rest;
    forall k | 0 <= k < |x|
      ensures !OccursAt(s, ", ", k)
    {
      if k + 2 <= |x| {
        assert s[k..k + 2] == x[k..k + 2];
        assert !OccursAt(x, ", ", k);
      } else {
        assert s[k + 1] == ',';
        assert s[k..k + 2][1] != ", "[1];
      }
    }
    assert s[|x|..|x| + 2] == ", ";
    FindFromFirst(s, ", ", 0, |x|);
  }

  /** Splitting on ", " undoes joining with ", ", when no part contains it. */
  lemma {:induction false} SplitJoin(parts: seq<string>)
    requires |parts| >= 1
    requires forall i :: 0 <= i < |parts| ==> !Contains(parts[i], ", ")
    ensures Split(Join(parts, ", "), ", ") == parts
  {
    if |parts| == 1 {
      FindFromNone(parts[0], ", ", 0);
    } else {
      var rest := Join(parts[1..], ", ");
      var s := parts[0] + ", " + rest;
      FirstSeparator(parts[0], rest);
      assert s[..|parts[0]|] == parts[0];
      assert s[|parts[0]| + 2..] == rest;
      SplitJoin(parts[1..]);
      assert Split(s, ", ") == [parts[0]] + parts[1..];
    }
  }

  /** `s` with `prefix` and `suffix` taken off, if it has them. */
  function Unwrap(s: string, prefix: string, suffix: string): (r: Option<string>)
    ensures r.Some? ==> s == prefix + r.value + suffix
  {
    if |prefix| + |suffix| <= |s| && s[..|prefix|] == prefix && s[|s| - |suffix|..] == suffix
    then
      var inner := s[|prefix|..|s| - |suffix|];
      assert s == s[..|prefix|] + inner + s[|s| - |suffix|..];
      Some(inner)
    else None
  }

  lemma UnwrapWrapped(prefix: string, inner: string, suffix: string)
    ensures Unwrap(prefix + inner + suffix, prefix, suffix) == Some(inner)
  {
    var s := prefix + inner + suffix;
    assert s[..|prefix|] == prefix;
    assert s[|s| - |suffix|..] == suffix;
    assert s[|prefix|..|s| - |suffix|] == inner;
  }
}
