/** Python's `sorted(xs, key=...)` for the tuple keys the program sorts by:
    `(major, minor, id)`, compared left to right.  A two-part key `(v, id)`
    uses a constant `minor`. */
module Sorting {

  datatype Key = Key(major: real, minor: real, id: int)

  /** Lexicographic `<=` on keys, as Python compares tuples. */
  predicate KeyLe(a: Key, b: Key) {
    a.major < b.major ||
    (a.major == b.major && (a.minor < b.minor || (a.minor == b.minor && a.id <= b.id)))
  }

  lemma KeyLeTotal(a: Key, b: Key)
    ensures KeyLe(a, b) || KeyLe(b, a)
  {
  }

  lemma KeyLeTransitive(a: Key, b: Key, c: Key)
    requires KeyLe(a, b) && KeyLe(b, c)
    ensures KeyLe(a, c)
  {
  }

  lemma KeyLeAntisymmetric(a: Key, b: Key)
    requires KeyLe(a, b) && KeyLe(b, a)
    ensures a == b
  {
  }

  predicate SortedBy<T>(xs: seq<T>, key: T -> Key) {
    forall i, j :: 0 <= i < j < |xs| ==> KeyLe(key(xs[i]), key(xs[j]))
  }

  /** Places `x` in front of the first element whose key is not smaller. */
  function Insert<T>(x: T, xs: seq<T>, key: T -> Key): (r: seq<T>)
    requires SortedBy(xs, key)
    ensures SortedBy(r, key)
    ensures multiset(r) == multiset(xs) + multiset{x}
    ensures |r| == |xs| + 1
  {
    if |xs| == 0 then [x]
    else if KeyLe(key(x), key(xs[0])) then
      var r := [x] + xs;
      assert forall j :: 0 < j < |r| ==> KeyLe(key(xs[0]), key(r[j]));
      assert forall j :: 0 < j < |r| ==> KeyLe(key(x), key(r[j])) by {
        forall j | 0 < j < |r| ensures KeyLe(key(x), key(r[j])) {
          KeyLeTransitive(key(x), key(xs[0]), key(r[j]));
        }
      }
      r
    else
      var rest := Insert(x, xs[1..], key);
      var r := [xs[0]] + rest;
      assert xs == [xs[0]] + xs[1..];
      assert forall j :: 0 <= j < |rest| ==> KeyLe(key(xs[0]), key(rest[j])) by {
        forall j | 0 <= j < |rest| ensures KeyLe(key(xs[0]), key(rest[j])) {
          assert rest[j] in multiset(rest);
          assert rest[j] == x || rest[j] in multiset(xs[1..]);
          if rest[j] != x {
            var k :| 0 <= k < |xs[1..]| && xs[1..][k] == rest[j];
            assert xs[k + 1] == rest[j];
          } else {
            KeyLeTotal(key(x), key(xs[0]));
          }
        }
      }
      r
  }

  /** A stable insertion sort: the result is ordered by `key` and holds the
      same elements. */
  function SortBy<T>(xs: seq<T>, key: T -> Key): (r: seq<T>)
    ensures SortedBy(r, key)
    ensures multiset(r) == multiset(xs)
    ensures |r| == |xs|
  {
    if |xs| == 0 then []
    else
      assert xs == [xs[0]] + xs[1..];
      Insert(xs[0], SortBy(xs[1..], key), key)
  }

  /** The tail of a sorted sequence is sorted, and its head comes no later
      than any element of the tail. */
  lemma SortedHeadTail<T>(xs: seq<T>, key: T -> Key)
    requires |xs| > 0 && SortedBy(xs, key)
    ensures SortedBy(xs[1..], key)
    ensures forall x :: x in xs[1..] ==> KeyLe(key(xs[0]), key(x))
  {
    var tail := xs[1..];
    forall i, j | 0 <= i < j < |tail| ensures KeyLe(key(tail[i]), key(tail[j])) {
      assert tail[i] == xs[i + 1] && tail[j] == xs[j + 1];
    }
    forall x | x in tail ensures KeyLe(key(xs[0]), key(x)) {
      var k :| 0 <= k < |tail| && tail[k] == x;
      assert xs[k + 1] == x;
    }
  }

  /** Where an element of a sequence sits in a permutation of it. */
  lemma PermutedAt<T>(xs: seq<T>, ys: seq<T>, i: nat) returns (k: nat)
    requires multiset(xs) == multiset(ys) && i < |xs|
    ensures k < |ys| && ys[k] == xs[i]
  {
    assert xs[i] in multiset(ys);
    k :| 0 <= k < |ys| && ys[k] == xs[i];
  }
}
