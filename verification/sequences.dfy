/** `Array.prototype.filter` on immutable sequences, and what it means for a
    sequence to be picked out of another one in order. */
module Sequences {

  /** `s.filter(keep)`: the elements for which `keep` holds, visited from
      first to last and kept in their original order. */
  function Keep<T>(s: seq<T>, keep: T -> bool): (r: seq<T>)
    ensures |r| <= |s|
    decreases |s|
  {
    if s == [] then []
    else
      var init := Keep(s[..|s| - 1], keep);
      if keep(s[|s| - 1]) then init + [s[|s| - 1]] else init
  }

  /** `idx` lists, in strictly increasing order, positions of `s` holding the
      elements of `r` one by one. */
  ghost predicate PicksOut<T>(r: seq<T>, s: seq<T>, idx: seq<int>) {
    && |idx| == |r|
    && (forall k :: 0 <= k < |idx| ==> 0 <= idx[k] < |s| && r[k] == s[idx[k]])
    && (forall k, l :: 0 <= k < l < |idx| ==> idx[k] < idx[l])
  }

  /** `r` is `s` with some elements left out and the rest in order. */
  ghost predicate IsSubsequence<T>(r: seq<T>, s: seq<T>) {
    exists idx :: PicksOut(r, s, idx)
  }

  /** The positions of `s` whose elements satisfy `keep`, in increasing order. */
  ghost function KeptPositions<T>(s: seq<T>, keep: T -> bool): seq<int>
    decreases |s|
  {
    if s == [] then []
    else
      var init := KeptPositions(s[..|s| - 1], keep);
      if keep(s[|s| - 1]) then init + [|s| - 1] else init
  }

  /** An element is kept exactly when it occurs in `s` and satisfies `keep`. */
  lemma {:induction false} KeepMembership<T>(s: seq<T>, keep: T -> bool)
    ensures forall x :: x in Keep(s, keep) <==> x in s && keep(x)
    decreases |s|
  {
    if s != [] {
      var init := s[..|s| - 1];
      KeepMembership(init, keep);
      assert s == init + [s[|s| - 1]];
    }
  }

  /** A subsequence of `s` is one of `s + [x]`, and extends to one that also
      takes `x`. */
  lemma PicksOutExtend<T>(r: seq<T>, s: seq<T>, idx: seq<int>, x: T)
    requires PicksOut(r, s, idx)
    ensures PicksOut(r, s + [x], idx)
    ensures PicksOut(r + [x], s + [x], idx + [|s|])
  {
    var s' := s + [x];
    var r' := r + [x];
    var idx' := idx + [|s|];
    forall k | 0 <= k < |idx'|
      ensures 0 <= idx'[k] < |s'| && r'[k] == s'[idx'[k]]
    {
      if k < |idx| {
        assert idx'[k] == idx[k] && r'[k] == r[k] && s'[idx[k]] == s[idx[k]];
      }
    }
    forall k | 0 <= k < |idx|
      ensures r[k] == s'[idx[k]]
    {
      assert s'[idx[k]] == s[idx[k]];
    }
  }

  /** The filter picks out of `s` exactly the positions whose elements
      satisfy `keep`, in order. */
  lemma {:induction false} KeepPicksOut<T>(s: seq<T>, keep: T -> bool)
    ensures PicksOut(Keep(s, keep), s, KeptPositions(s, keep))
    decreases |s|
  {
    if s != [] {
      var n := |s| - 1;
      var init := s[..n];
      KeepPicksOut(init, keep);
      assert init + [s[n]] == s;
      PicksOutExtend(Keep(init, keep), init, KeptPositions(init, keep), s[n]);
    }
  }

  /** A position is kept exactly when its element satisfies `keep`. */
  lemma {:induction false} KeptPositionsExact<T>(s: seq<T>, keep: T -> bool)
    ensures forall i :: 0 <= i < |s| ==> (i in KeptPositions(s, keep) <==> keep(s[i]))
    ensures forall i :: i in KeptPositions(s, keep) ==> 0 <= i < |s|
    decreases |s|
  {
    if s != [] {
      var n := |s| - 1;
      var init := s[..n];
      KeptPositionsExact(init, keep);
      forall i | 0 <= i < n
        ensures s[i] == init[i]
      {
      }
    }
  }

  /** Filtering a concatenation filters each part. */
  lemma {:induction false} KeepAppend<T>(a: seq<T>, b: seq<T>, keep: T -> bool)
    ensures Keep(a + b, keep) == Keep(a, keep) + Keep(b, keep)
    decreases |b|
  {
    if b == [] {
      assert a + b == a;
    } else {
      var b0 := b[..|b| - 1];
      var last := b[|b| - 1];
      KeepAppend(a, b0, keep);
      assert (a + b)[..|a + b| - 1] == a + b0;
      assert (a + b)[|a + b| - 1] == last;
      if keep(last) {
        calc {
          Keep(a + b, keep);
          Keep(a + b0, keep) + [last];
          Keep(a, keep) + Keep(b0, keep) + [last];
          Keep(a, keep) + (Keep(b0, keep) + [last]);
          Keep(a, keep) + Keep(b, keep);
        }
      }
    }
  }

  /** Filtering the result again with the same callback changes nothing. */
  lemma {:induction false} KeepIdempotent<T>(s: seq<T>, keep: T -> bool)
    ensures Keep(Keep(s, keep), keep) == Keep(s, keep)
    decreases |s|
  {
    if s != [] {
      var init := s[..|s| - 1];
      var last := s[|s| - 1];
      KeepIdempotent(init, keep);
      if keep(last) {
        KeepAppend(Keep(init, keep), [last], keep);
        assert [last][..0] == [];
      }
    }
  }

  /** When every element satisfies the callback, nothing is dropped. */
  lemma {:induction false} KeepAll<T>(s: seq<T>, keep: T -> bool)
    requires forall k :: 0 <= k < |s| ==> keep(s[k])
    ensures Keep(s, keep) == s
    decreases |s|
  {
    if s != [] {
      KeepAll(s[..|s| - 1], keep);
      assert s[..|s| - 1] + [s[|s| - 1]] == s;
    }
  }

  /** When no element satisfies the callback, everything is dropped. */
  lemma {:induction false} KeepNone<T>(s: seq<T>, keep: T -> bool)
    requires forall k :: 0 <= k < |s| ==> !keep(s[k])
    ensures Keep(s, keep) == []
    decreases |s|
  {
    if s != [] {
      KeepNone(s[..|s| - 1], keep);
    }
  }
}
