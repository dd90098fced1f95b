/** `Array.prototype.filter`, which the roster uses both to delete a record
    and to search by name, and what it guarantees. */
module Seqs {

  /** The elements of `s` that satisfy `p`, in their order in `s`. */
  function Filter<T>(s: seq<T>, p: T -> bool): (r: seq<T>)
    ensures |r| <= |s|
  {
    if s == [] then []
    else
      var kept := Filter(s[..|s| - 1], p);
      if p(s[|s| - 1]) then kept + [s[|s| - 1]] else kept
  }

  /** The positions of `s` whose element satisfies `p`, in ascending order. */
  function KeptIndices<T>(s: seq<T>, p: T -> bool): seq<nat> {
    if s == [] then []
    else
      var kept := KeptIndices(s[..|s| - 1], p);
      if p(s[|s| - 1]) then kept + [|s| - 1] else kept
  }

  /** `Filter(s, p)` reads off `s` at exactly the positions where `p` holds,
      in increasing order: the result is the order-preserving subsequence of
      the elements that pass. */
  lemma {:induction false} FilterPositions<T>(s: seq<T>, p: T -> bool)
    ensures |KeptIndices(s, p)| == |Filter(s, p)|
    ensures forall k | 0 <= k < |KeptIndices(s, p)| ::
      KeptIndices(s, p)[k] < |s| && Filter(s, p)[k] == s[KeptIndices(s, p)[k]]
    ensures forall k, l | 0 <= k < l < |KeptIndices(s, p)| :: KeptIndices(s, p)[k] < KeptIndices(s, p)[l]
    ensures forall i | 0 <= i < |s| :: p(s[i]) <==> i in KeptIndices(s, p)
  {
    if s != [] {
      var init := s[..|s| - 1];
      FilterPositions(init, p);
      assert forall i | 0 <= i < |init| :: init[i] == s[i];
    }
  }

  /** A value is kept exactly when it occurs in `s` and passes `p`. */
  lemma {:induction false} FilterMembership<T>(s: seq<T>, p: T -> bool)
    ensures forall x :: x in Filter(s, p) <==> x in s && p(x)
  {
    if s != [] {
      var init := s[..|s| - 1];
      FilterMembership(init, p);
      assert s == init + [s[|s| - 1]];
    }
  }

  /** Nothing is dropped when every element passes. */
  lemma {:induction false} FilterKeepsAll<T>(s: seq<T>, p: T -> bool)
    requires forall i | 0 <= i < |s| :: p(s[i])
    ensures Filter(s, p) == s
  {
    if s != [] {
      var init := s[..|s| - 1];
      FilterKeepsAll(init, p);
      assert s == init + [s[|s| - 1]];
    }
  }

  /** Only what passes survives, so a second pass keeps everything. */
  lemma FilterIdempotent<T>(s: seq<T>, p: T -> bool)
    ensures Filter(Filter(s, p), p) == Filter(s, p)
  {
    var r := Filter(s, p);
    FilterPositions(s, p);
    forall i | 0 <= i < |r| ensures p(r[i]) {
      assert KeptIndices(s, p)[i] in KeptIndices(s, p);
    }
    FilterKeepsAll(r, p);
  }

  /** Two tests that agree on every element of `s` filter it alike. */
  lemma {:induction false} FilterCongruent<T>(s: seq<T>, p: T -> bool, q: T -> bool)
    requires forall i | 0 <= i < |s| :: p(s[i]) == q(s[i])
    ensures Filter(s, p) == Filter(s, q)
  {
    if s != [] {
      FilterCongruent(s[..|s| - 1], p, q);
    }
  }

  /** Filtering distributes over concatenation, so the result is the same
      whichever end the scan starts from. */
  lemma {:induction false} FilterConcat<T>(a: seq<T>, b: seq<T>, p: T -> bool)
    ensures Filter(a + b, p) == Filter(a, p) + Filter(b, p)
  {
    if b == [] {
      assert a + b == a;
    } else {
      var init := b[..|b| - 1];
      FilterConcat(a, init, p);
      assert (a + b)[..|a + b| - 1] == a + init;
    }
  }
}
