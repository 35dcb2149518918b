/** What the other modules share. */
module Base {
  datatype Option<+T> = None | Some(value: T)

  /** Go's (value, error) pairs; usable with :- */
  datatype Result<+T, +E> = Ok(value: T) | Err(error: E) {
    predicate IsFailure() { Err? }

    function PropagateFailure<U>(): Result<U, E>
      requires Err?
    {
      Err(error)
    }

    function Extract(): T
      requires Ok?
    {
      value
    }
  }

  /** Any member of a set; to a program, and to a proof. */
  method Choose<T>(s: set<T>) returns (x: T)
    requires s != {}
    ensures x in s
  {
    x :| x in s;
  }

  lemma AMember<T>(s: set<T>) returns (x: T)
    requires s != {}
    ensures x in s
  {
    x :| x in s;
  }

  function Elements<T(==)>(s: seq<T>): set<T> {
    set x | x in s
  }

  predicate Distinct<T(==)>(s: seq<T>) {
    forall i, j :: 0 <= i < j < |s| ==> s[i] != s[j]
  }

  predicate StrictlyIncreasing(s: seq<int>) {
    forall i, j :: 0 <= i < j < |s| ==> s[i] < s[j]
  }

  /** The least member. */
  ghost function Least(s: set<int>): (least: int)
    requires s != {}
    ensures least in s && forall v :: v in s ==> least <= v
  {
    assert exists v :: v in s by { var v := AMember(s); }
    var v :| v in s;
    if s == {v} then v
    else
      assert s == (s - {v}) + {v};
      var least := Least(s - {v});
      if v < least then v else least
  }

  /** LIMIT: none when negative. */
  function Limit<T>(s: seq<T>, n: int): (r: seq<T>)
    ensures r <= s && (0 <= n ==> |r| <= n)
  {
    if n < 0 || |s| <= n then s else s[..n]
  }
}
