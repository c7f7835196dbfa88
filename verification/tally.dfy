/** Sums, first-occurrence de-duplication and the decision shape every
    tiebreaker shares: compute a value per member, give up (`None`) when the
    value does not separate the group, otherwise re-sort the group by the value
    with the member id as the last key. */
module Tally {
  import opened Wrappers
  import opened Sorting

  function Sum(xs: seq<int>): int {
    if |xs| == 0 then 0 else xs[0] + Sum(xs[1..])
  }

  lemma {:induction false} SumAppend(a: seq<int>, b: seq<int>)
    ensures Sum(a + b) == Sum(a) + Sum(b)
  {
    if |a| > 0 {
      SumAppend(a[1..], b);
      assert (a + b)[1..] == a[1..] + b;
    } else {
      assert a + b == b;
    }
  }

  /** Adding `delta` at one position adds `delta` to the sum. */
  lemma {:induction false} SumUpdate(xs: seq<int>, k: nat, delta: int)
    requires k < |xs|
    ensures Sum(xs[k := xs[k] + delta]) == Sum(xs) + delta
  {
    if k > 0 {
      SumUpdate(xs[1..], k - 1, delta);
      assert xs[k := xs[k] + delta][1..] == xs[1..][k - 1 := xs[1..][k - 1] + delta];
    }
  }

  function SumReal(xs: seq<real>): real {
    if |xs| == 0 then 0.0 else xs[0] + SumReal(xs[1..])
  }

  predicate NoDuplicates<T(==)>(xs: seq<T>) {
    forall i, j :: 0 <= i < j < |xs| ==> xs[i] != xs[j]
  }

  /** `list(dict.fromkeys(xs))`: each value once, in order of first appearance. */
  function Dedupe(xs: seq<int>): (r: seq<int>)
    ensures NoDuplicates(r)
    ensures forall x :: x in r <==> x in xs
    ensures |r| <= |xs|
  {
    if |xs| == 0 then []
    else
      var rest := Dedupe(xs[..|xs| - 1]);
      var x := xs[|xs| - 1];
      assert forall y :: y in xs <==> y in xs[..|xs| - 1] || y == x by {
        assert xs == xs[..|xs| - 1] + [x];
      }
      if x in rest then rest else rest + [x]
  }

  /** Python's `len(set(values)) <= 1` for the values of a group. */
  predicate AllTied<T>(group: seq<T>, v: T -> int) {
    forall i, j :: 0 <= i < |group| && 0 <= j < |group| ==> v(group[i]) == v(group[j])
  }

  /** The sort key `(-v(m), id(m))`. */
  function Descending<T>(v: T -> int, id: T -> int): T -> Key {
    m => Key(-(v(m) as real), 0.0, id(m))
  }

  /** The sort key `(v(m), id(m))`. */
  function Ascending<T>(v: T -> int, id: T -> int): T -> Key {
    m => Key(v(m) as real, 0.0, id(m))
  }

  /** Highest value first, equal values by id. */
  predicate RankedBy<T>(r: seq<T>, v: T -> int, id: T -> int) {
    forall i, j :: 0 <= i < j < |r| ==>
      v(r[i]) > v(r[j]) || (v(r[i]) == v(r[j]) && id(r[i]) <= id(r[j]))
  }

  /** Lowest value first, equal values by id. */
  predicate RankedUpBy<T>(r: seq<T>, v: T -> int, id: T -> int) {
    forall i, j :: 0 <= i < j < |r| ==>
      v(r[i]) < v(r[j]) || (v(r[i]) == v(r[j]) && id(r[i]) <= id(r[j]))
  }

  /** A tiebreaker's verdict: `None` when every member has the same value,
      otherwise the group ordered by value (highest first), then by id. */
  function RankBy<T>(group: seq<T>, v: T -> int, id: T -> int): (r: Option<seq<T>>)
    ensures r.None? <==> AllTied(group, v)
    ensures r.Some? ==> |r.value| == |group| && multiset(r.value) == multiset(group)
    ensures r.Some? ==> RankedBy(r.value, v, id)
  {
    if AllTied(group, v) then None else Some(SortBy(group, Descending(v, id)))
  }

  /** A verdict always separates its first and last members. */
  lemma RankBySeparates<T>(group: seq<T>, v: T -> int, id: T -> int)
    ensures RankBy(group, v, id).Some? ==>
      var r := RankBy(group, v, id).value;
      |r| >= 2 && v(r[0]) > v(r[|r| - 1])
  {
    if RankBy(group, v, id).Some? {
      var r := RankBy(group, v, id).value;
      assert !AllTied(group, v);
      var i, j :| 0 <= i < |group| && 0 <= j < |group| && v(group[i]) != v(group[j]);
      var a := PermutedAt(group, r, i);
      var b := PermutedAt(group, r, j);
      Between(r, v, id, a);
      Between(r, v, id, b);
    }
  }

  /** In a sequence ordered by value, highest first, every value lies between
      the first and the last. */
  lemma Between<T>(r: seq<T>, v: T -> int, id: T -> int, a: nat)
    requires a < |r| && RankedBy(r, v, id)
    ensures v(r[0]) >= v(r[a]) >= v(r[|r| - 1])
  {
  }
}
