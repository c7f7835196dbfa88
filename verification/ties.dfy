/** The tie-group walk shared by weekly and season standings: over a list
    already sorted by score, every maximal run of two or more equal scores is
    handed to a resolver and replaced by what it returns; single entries and
    the order between runs are left alone. */
module Ties {

  /** The end (exclusive) of the run of scores equal to `score(xs[i])` that
      starts at `i`. */
  function RunEnd<T>(xs: seq<T>, score: T -> real, i: nat): (j: nat)
    requires i < |xs|
    ensures i < j <= |xs|
    ensures forall k :: i <= k < j ==> score(xs[k]) == score(xs[i])
    ensures j < |xs| ==> score(xs[j]) != score(xs[i])
  {
    RunScan(xs, score, i, i + 1)
  }

  function RunScan<T>(xs: seq<T>, score: T -> real, i: nat, j: nat): (e: nat)
    requires i < j <= |xs|
    requires forall k :: i <= k < j ==> score(xs[k]) == score(xs[i])
    ensures j <= e <= |xs|
    ensures forall k :: i <= k < e ==> score(xs[k]) == score(xs[i])
    ensures e < |xs| ==> score(xs[e]) != score(xs[i])
    decreases |xs| - j
  {
    if j < |xs| && score(xs[j]) == score(xs[i]) then RunScan(xs, score, i, j + 1) else j
  }

  /** The walk from position `i` on. */
  function Walk<T>(xs: seq<T>, score: T -> real, resolve: seq<T> -> seq<T>, i: nat): seq<T>
    requires i <= |xs|
    decreases |xs| - i
  {
    if i == |xs| then []
    else
      var j := RunEnd(xs, score, i);
      Replacement(xs[i..j], resolve) + Walk(xs, score, resolve, j)
  }

  /** `apply_weekly_tiebreakers` / `_apply_season_tiebreakers`. */
  function ApplyTiebreakers<T>(xs: seq<T>, score: T -> real, resolve: seq<T> -> seq<T>): seq<T> {
    Walk(xs, score, resolve, 0)
  }

  /** The resolver only ever reorders the group it is given. */
  ghost predicate Permutes<T(!new)>(resolve: seq<T> -> seq<T>) {
    forall g :: multiset(resolve(g)) == multiset(g)
  }

  /** A position where one run of equal scores ends and the next begins. */
  predicate Boundary<T>(xs: seq<T>, score: T -> real, b: int) {
    0 <= b <= |xs| && (b == 0 || b == |xs| || score(xs[b - 1]) != score(xs[b]))
  }

  /** The group a run is replaced by: the resolver's answer for a real tie,
      the single entry otherwise. */
  function Replacement<T>(run: seq<T>, resolve: seq<T> -> seq<T>): seq<T> {
    if |run| > 1 then resolve(run) else run
  }

  lemma ReplacementPermutes<T(!new)>(run: seq<T>, resolve: seq<T> -> seq<T>)
    requires Permutes(resolve)
    ensures multiset(Replacement(run, resolve)) == multiset(run)
    ensures |Replacement(run, resolve)| == |run|
  {
    var h := Replacement(run, resolve);
    assert multiset(h) == multiset(run);
    assert |multiset(h)| == |h| && |multiset(run)| == |run|;
  }

  /** With a reordering resolver the walk returns a permutation of its input. */
  lemma {:induction false} WalkPermutes<T(!new)>(xs: seq<T>, score: T -> real, resolve: seq<T> -> seq<T>, i: nat)
    requires i <= |xs| && Permutes(resolve)
    ensures |Walk(xs, score, resolve, i)| == |xs| - i
    ensures multiset(Walk(xs, score, resolve, i)) == multiset(xs[i..])
    decreases |xs| - i
  {
    if i < |xs| {
      var j := RunEnd(xs, score, i);
      var head := Replacement(xs[i..j], resolve);
      var tail := Walk(xs, score, resolve, j);
      WalkPermutes(xs, score, resolve, j);
      ReplacementPermutes(xs[i..j], resolve);
      assert Walk(xs, score, resolve, i) == head + tail;
      JoinPermutes(xs, i, j, head, tail);
    }
  }

  /** A permuted run followed by a permuted rest is a permutation of the
      whole suffix. */
  lemma JoinPermutes<T>(xs: seq<T>, i: nat, j: nat, head: seq<T>, tail: seq<T>)
    requires i <= j <= |xs|
    requires |head| == j - i && multiset(head) == multiset(xs[i..j])
    requires |tail| == |xs| - j && multiset(tail) == multiset(xs[j..])
    ensures |head + tail| == |xs| - i && multiset(head + tail) == multiset(xs[i..])
  {
    assert xs[i..] == xs[i..j] + xs[j..];
  }

  /** Every entry of a replaced run carries the run's score. */
  lemma ReplacementScores<T(!new)>(run: seq<T>, resolve: seq<T> -> seq<T>, score: T -> real, s: real)
    requires Permutes(resolve)
    requires forall k :: 0 <= k < |run| ==> score(run[k]) == s
    ensures forall k :: 0 <= k < |Replacement(run, resolve)| ==> score(Replacement(run, resolve)[k]) == s
  {
    var h := Replacement(run, resolve);
    ReplacementPermutes(run, resolve);
    forall k | 0 <= k < |h| ensures score(h[k]) == s {
      assert h[k] in multiset(run);
      var m :| 0 <= m < |run| && run[m] == h[k];
    }
  }

  /** The walk keeps the score found at every position, so the order between
      tie groups is unchanged. */
  lemma {:induction false} WalkKeepsScores<T(!new)>(xs: seq<T>, score: T -> real, resolve: seq<T> -> seq<T>, i: nat)
    requires i <= |xs| && Permutes(resolve)
    ensures |Walk(xs, score, resolve, i)| == |xs| - i
    ensures forall k :: 0 <= k < |xs| - i ==> score(Walk(xs, score, resolve, i)[k]) == score(xs[i + k])
    decreases |xs| - i
  {
    WalkPermutes(xs, score, resolve, i);
    if i < |xs| {
      var j := RunEnd(xs, score, i);
      var head := Replacement(xs[i..j], resolve);
      var tail := Walk(xs, score, resolve, j);
      WalkKeepsScores(xs, score, resolve, j);
      ReplacementPermutes(xs[i..j], resolve);
      ReplacementScores(xs[i..j], resolve, score, score(xs[i]));
      assert Walk(xs, score, resolve, i) == head + tail;
      ScoresJoin(xs, score, i, j, head, tail);
    }
  }

  /** A run's replacement followed by the walk after it keeps the scores
      position by position. */
  lemma ScoresJoin<T>(xs: seq<T>, score: T -> real, i: nat, j: nat, head: seq<T>, tail: seq<T>)
    requires i < j <= |xs| && |head| == j - i && |tail| == |xs| - j
    requires forall k :: i <= k < j ==> score(xs[k]) == score(xs[i])
    requires forall k :: 0 <= k < |head| ==> score(head[k]) == score(xs[i])
    requires forall k :: 0 <= k < |xs| - j ==> score(tail[k]) == score(xs[j + k])
    ensures forall k :: 0 <= k < |xs| - i ==> score((head + tail)[k]) == score(xs[i + k])
  {
    var w := head + tail;
    forall k | 0 <= k < |xs| - i ensures score(w[k]) == score(xs[i + k]) {
      if k >= |head| {
        assert w[k] == tail[k - |head|];
      } else {
        assert w[k] == head[k];
      }
    }
  }

  /** A run never straddles a boundary. */
  lemma RunEndsBeforeBoundary<T>(xs: seq<T>, score: T -> real, i: nat, b: int)
    requires i < b && Boundary(xs, score, b)
    ensures RunEnd(xs, score, i) <= b
  {
  }

  /** One step of the walk: a permuted run followed by a tail whose prefix
      holds the right entries gives a prefix holding the right entries. */
  lemma PrefixAfterRun<T>(xs: seq<T>, i: nat, j: nat, b: nat, head: seq<T>, tail: seq<T>)
    requires i <= j <= b <= |xs|
    requires |head| == j - i && multiset(head) == multiset(xs[i..j])
    requires b - j <= |tail| && multiset(tail[..b - j]) == multiset(xs[j..b])
    ensures b - i <= |head + tail|
    ensures multiset((head + tail)[..b - i]) == multiset(xs[i..b])
  {
    assert (head + tail)[..b - i] == head + tail[..b - j];
    assert xs[i..b] == xs[i..j] + xs[j..b];
  }

  /** Every prefix of the walk that ends at a run boundary holds the same
      entries as the input's prefix: entries never leave their tie group. */
  lemma {:induction false} WalkStaysInGroups<T(!new)>(xs: seq<T>, score: T -> real, resolve: seq<T> -> seq<T>, i: nat, b: int)
    requires i <= b && Boundary(xs, score, b) && Permutes(resolve)
    ensures b - i <= |Walk(xs, score, resolve, i)|
    ensures multiset(Walk(xs, score, resolve, i)[..b - i]) == multiset(xs[i..b])
    decreases |xs| - i
  {
    WalkPermutes(xs, score, resolve, i);
    if i < b {
      var j := RunEnd(xs, score, i);
      RunEndsBeforeBoundary(xs, score, i, b);
      var head := Replacement(xs[i..j], resolve);
      var tail := Walk(xs, score, resolve, j);
      ReplacementPermutes(xs[i..j], resolve);
      WalkStaysInGroups(xs, score, resolve, j, b);
      PrefixAfterRun(xs, i, j, b, head, tail);
      assert Walk(xs, score, resolve, i) == head + tail;
    } else {
      assert Walk(xs, score, resolve, i)[..0] == [] && xs[i..b] == [];
    }
  }

  /** The whole-list form: a permutation, scores kept position by position,
      and prefixes ending at run boundaries unchanged as multisets. */
  lemma TiebreakersPermuteWithinGroups<T(!new)>(xs: seq<T>, score: T -> real, resolve: seq<T> -> seq<T>)
    requires Permutes(resolve)
    ensures var w := ApplyTiebreakers(xs, score, resolve);
      |w| == |xs| && multiset(w) == multiset(xs) &&
      (forall k :: 0 <= k < |w| ==> score(w[k]) == score(xs[k])) &&
      (forall b :: Boundary(xs, score, b) ==> multiset(w[..b]) == multiset(xs[..b]))
  {
    WholeWalk(xs, score, resolve);
    forall b | Boundary(xs, score, b)
      ensures multiset(ApplyTiebreakers(xs, score, resolve)[..b]) == multiset(xs[..b])
    {
      PrefixStaysInGroups(xs, score, resolve, b);
    }
  }

  /** `WalkPermutes` and `WalkKeepsScores` from the start of the list. */
  lemma WholeWalk<T(!new)>(xs: seq<T>, score: T -> real, resolve: seq<T> -> seq<T>)
    requires Permutes(resolve)
    ensures var w := ApplyTiebreakers(xs, score, resolve);
      |w| == |xs| && multiset(w) == multiset(xs) &&
      (forall k :: 0 <= k < |w| ==> score(w[k]) == score(xs[k]))
  {
    WholePermutes(xs, score, resolve);
    WalkKeepsScores(xs, score, resolve, 0);
  }

  lemma WholePermutes<T(!new)>(xs: seq<T>, score: T -> real, resolve: seq<T> -> seq<T>)
    requires Permutes(resolve)
    ensures multiset(ApplyTiebreakers(xs, score, resolve)) == multiset(xs)
  {
    WalkPermutes(xs, score, resolve, 0);
    assert xs[0..] == xs;
  }

  /** `WalkStaysInGroups` from the start of the list. */
  lemma PrefixStaysInGroups<T(!new)>(xs: seq<T>, score: T -> real, resolve: seq<T> -> seq<T>, b: int)
    requires Boundary(xs, score, b) && Permutes(resolve)
    ensures b <= |ApplyTiebreakers(xs, score, resolve)|
    ensures multiset(ApplyTiebreakers(xs, score, resolve)[..b]) == multiset(xs[..b])
  {
    WalkStaysInGroups(xs, score, resolve, 0, b);
    assert xs[0..b] == xs[..b];
  }
}
