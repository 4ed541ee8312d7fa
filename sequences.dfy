/** Sequence operations the property layer relies on: the `any` of an
    iterator, substring search on strings, and the keep-or-skip loop that
    the filler generators run. Each is given a reference meaning in its
    contract or in the lemmas beside it. */
module Sequences {

  /** True when some element satisfies `p`, scanning from the front
      (an iterator's `any`). */
  function Any<T>(s: seq<T>, p: T -> bool): (r: bool)
    ensures r <==> exists i | 0 <= i < |s| :: p(s[i])
  {
    if s == [] then false
    else if p(s[0]) then true
    else
      assert forall j | 0 <= j < |s| - 1 :: s[1..][j] == s[j + 1];
      Any(s[1..], p)
  }

  /** `needle` occurs in `s` starting at position `i`. */
  predicate OccursAt(s: string, needle: string, i: nat)
  {
    i + |needle| <= |s| && s[i..i + |needle|] == needle
  }

  lemma {:induction false} OccursAtShift(s: string, needle: string, i: nat)
    requires |s| > 0
    ensures OccursAt(s[1..], needle, i) <==> OccursAt(s, needle, i + 1)
  {
    if i + |needle| <= |s[1..]| {
      assert s[1..][i..i + |needle|] == s[i + 1..i + 1 + |needle|];
    }
  }

  /** Substring search: does `needle` occur anywhere in `s`? */
  function Contains(s: string, needle: string): (r: bool)
    ensures r <==> exists i: nat :: OccursAt(s, needle, i)
    decreases |s|
  {
    if |needle| > |s| then false
    else if s[..|needle|] == needle then
      assert OccursAt(s, needle, 0);
      true
    else
      assert !OccursAt(s, needle, 0);
      assert forall i: nat :: OccursAt(s[1..], needle, i) <==> OccursAt(s, needle, i + 1) by {
        forall i: nat ensures OccursAt(s[1..], needle, i) <==> OccursAt(s, needle, i + 1) {
          OccursAtShift(s, needle, i);
        }
      }
      assert (exists i: nat :: OccursAt(s, needle, i)) ==> exists i: nat :: OccursAt(s[1..], needle, i) by {
        if i: nat :| OccursAt(s, needle, i) {
          assert i != 0;
          assert OccursAt(s[1..], needle, i - 1);
        }
      }
      Contains(s[1..], needle)
  }

  /** The elements of `s` that `keep` accepts, in their original order.
      Defined from the back, so that it grows the way a vector grows
      under `push`: one candidate decided at a time. */
  function Filter<T>(s: seq<T>, keep: T -> bool): (r: seq<T>)
    ensures |r| <= |s|
  {
    if s == [] then []
    else Filter(s[..|s| - 1], keep) + (if keep(s[|s| - 1]) then [s[|s| - 1]] else [])
  }

  /** `idx` maps every position of `a` to a position of `b` holding the
      same element, strictly increasing: `a` is an order-preserving
      subsequence of `b`. */
  ghost predicate Embedding<T>(idx: seq<nat>, a: seq<T>, b: seq<T>)
  {
    && |idx| == |a|
    && (forall k | 0 <= k < |idx| :: idx[k] < |b| && a[k] == b[idx[k]])
    && (forall k, l | 0 <= k < l < |idx| :: idx[k] < idx[l])
  }

  /** What the filter keeps is an order-preserving subsequence of its input;
      the returned `idx` says where each kept element came from. */
  lemma {:induction false} FilterEmbeds<T>(s: seq<T>, keep: T -> bool) returns (idx: seq<nat>)
    ensures Embedding(idx, Filter(s, keep), s)
    decreases |s|
  {
    if s == [] {
      idx := [];
    } else {
      var init := s[..|s| - 1];
      var prefix := FilterEmbeds(init, keep);
      var kept := Filter(init, keep);
      forall k | 0 <= k < |prefix| ensures prefix[k] < |s| - 1 && kept[k] == s[prefix[k]] {
        assert init[prefix[k]] == s[prefix[k]];
      }
      if keep(s[|s| - 1]) {
        assert Filter(s, keep) == kept + [s[|s| - 1]];
        idx := prefix + [|s| - 1];
      } else {
        assert Filter(s, keep) == kept;
        idx := prefix;
      }
    }
  }

  /** An element is kept exactly when it is among the candidates and
      `keep` accepts it. */
  lemma {:induction false} FilterMembership<T>(s: seq<T>, keep: T -> bool, x: T)
    ensures x in Filter(s, keep) <==> x in s && keep(x)
    decreases |s|
  {
    if s != [] {
      var init := s[..|s| - 1];
      FilterMembership(init, keep, x);
      assert s == init + [s[|s| - 1]];
    }
  }

  /** Each accepted element is kept as many times as it occurs; each
      rejected one never. */
  lemma {:induction false} FilterCount<T>(s: seq<T>, keep: T -> bool, x: T)
    ensures multiset(Filter(s, keep))[x] == if keep(x) then multiset(s)[x] else 0
    decreases |s|
  {
    if s != [] {
      var init := s[..|s| - 1];
      FilterCount(init, keep, x);
      assert s == init + [s[|s| - 1]];
      assert multiset(s) == multiset(init) + multiset{s[|s| - 1]};
    }
  }

  /** When every candidate is acceptable nothing is dropped; otherwise
      the result is strictly shorter. */
  lemma {:induction false} FilterDropsOnlyRejected<T>(s: seq<T>, keep: T -> bool)
    ensures (forall i | 0 <= i < |s| :: keep(s[i])) ==> Filter(s, keep) == s
    ensures (exists i | 0 <= i < |s| :: !keep(s[i])) ==> |Filter(s, keep)| < |s|
    decreases |s|
  {
    if s != [] {
      var init := s[..|s| - 1];
      FilterDropsOnlyRejected(init, keep);
      assert s == init + [s[|s| - 1]];
      if exists i | 0 <= i < |s| :: !keep(s[i]) {
        var i :| 0 <= i < |s| && !keep(s[i]);
        if i < |s| - 1 {
          assert init[i] == s[i];
        }
      }
    }
  }
}
