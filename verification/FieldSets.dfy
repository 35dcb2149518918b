/** The sorted integer sets of a cron expression and the two lookups on them. */
module FieldSets {
  import opened Base

  /** What every field of a parsed schedule is: a non-empty set inside [lo, hi], in order. */
  predicate IsFieldSet(s: seq<int>, lo: int, hi: int) {
    && s != []
    && StrictlyIncreasing(s)
    && forall v :: v in s ==> lo <= v <= hi
  }

  /** What every field that parses is at least, even one whose step wrapped: in order, nothing above
      the upper bound, something within both. */
  predicate HasFieldSet(s: seq<int>, lo: int, hi: int) {
    && StrictlyIncreasing(s)
    && (forall v :: v in s ==> v <= hi)
    && (exists v :: v in s && lo <= v)
  }

  /** The binary search behind Go's sort.SearchInts, on the indices from i up to j. */
  function SearchFrom(s: seq<int>, v: int, i: nat, j: nat): (k: nat)
    requires i <= j <= |s|
    requires StrictlyIncreasing(s)
    requires forall n :: 0 <= n < i ==> s[n] < v
    requires forall n :: j <= n < |s| ==> v <= s[n]
    ensures k <= |s|
    ensures forall n :: 0 <= n < k ==> s[n] < v
    ensures forall n :: k <= n < |s| ==> v <= s[n]
    decreases j - i
  {
    if i == j then i
    else
      var h := (i + j) / 2;
      if s[h] < v then SearchFrom(s, v, h + 1, j) else SearchFrom(s, v, i, h)
  }

  /** contains: the binary search answers membership. */
  predicate Contains(s: seq<int>, v: int)
    requires StrictlyIncreasing(s)
    ensures Contains(s, v) <==> v in s
  {
    var i := SearchFrom(s, v, 0, |s|);
    i < |s| && s[i] == v
  }

  /** nextOrFirst: the least member at or above current, else the first member of all. */
  method NextOrFirst(s: seq<int>, current: int) returns (value: int, wrapped: bool)
    requires s != [] && StrictlyIncreasing(s)
    ensures value in s
    ensures wrapped <==> forall v :: v in s ==> v < current
    ensures !wrapped ==> current <= value && forall v :: v in s && v < value ==> v < current
    ensures wrapped ==> forall v :: v in s ==> value <= v
  {
    for i := 0 to |s|
      invariant forall k :: 0 <= k < i ==> s[k] < current
    {
      if current <= s[i] { return s[i], false; }
    }
    return s[0], true;
  }

  /** The members of a set in increasing order. */
  ghost function Sorted(s: set<int>): (r: seq<int>)
    ensures StrictlyIncreasing(r)
    ensures forall v :: v in r <==> v in s
  {
    if s == {} then []
    else
      var rest := Sorted(s - {Least(s)});
      ConsIncreasing(Least(s), rest);
      [Least(s)] + rest
  }

  lemma {:induction false} IncreasingUnique(a: seq<int>, b: seq<int>)
    requires StrictlyIncreasing(a) && StrictlyIncreasing(b)
    requires forall v :: v in a <==> v in b
    ensures a == b
  {
    assert a != [] ==> a[0] in a;
    assert b != [] ==> b[0] in b;
    if a == [] {
    } else {
      assert a[0] == b[0];
      forall v ensures v in a[1..] <==> v in b[1..] {
        assert v in a[1..] <==> v in a && v != a[0];
        assert v in b[1..] <==> v in b && v != b[0];
      }
      IncreasingUnique(a[1..], b[1..]);
      assert a == [a[0]] + a[1..] && b == [b[0]] + b[1..];
    }
  }

  lemma ConsIncreasing(least: int, rest: seq<int>)
    requires StrictlyIncreasing(rest) && forall w :: w in rest ==> least < w
    ensures StrictlyIncreasing([least] + rest)
  {
    assert forall i :: 0 <= i < |rest| ==> rest[i] in rest;
  }

  function Insert(s: seq<int>, v: int): (r: seq<int>)
    requires StrictlyIncreasing(s) && v !in s
    ensures StrictlyIncreasing(r)
    ensures forall w :: w in r <==> w in s || w == v
  {
    if s == [] || v < s[0] then [v] + s
    else
      assert s == [s[0]] + s[1..];
      var rest := Insert(s[1..], v);
      ConsIncreasing(s[0], rest);
      [s[0]] + rest
  }

  /** sort.Ints, on the distinct keys of a map. */
  function SortInts(s: seq<int>): (r: seq<int>)
    requires Distinct(s)
    ensures StrictlyIncreasing(r)
    ensures forall w :: w in r <==> w in s
  {
    if s == [] then []
    else
      assert s == [s[0]] + s[1..];
      Insert(SortInts(s[1..]), s[0])
  }
}
