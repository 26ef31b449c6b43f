/** Small facts about sequences of ids used by the listing and the views. */
module Sequences {

  predicate StrictlyIncreasing(xs: seq<int>) {
    forall i, j :: 0 <= i < j < |xs| ==> xs[i] < xs[j]
  }

  predicate StrictlyDecreasing(xs: seq<int>) {
    forall i, j :: 0 <= i < j < |xs| ==> xs[i] > xs[j]
  }

  /** The elements of `xs` in the opposite order. */
  function Reverse<T>(xs: seq<T>): (r: seq<T>)
    ensures |r| == |xs|
    ensures forall i :: 0 <= i < |xs| ==> r[i] == xs[|xs| - 1 - i]
  {
    if xs == [] then [] else Reverse(xs[1..]) + [xs[0]]
  }

  lemma ReverseOfIncreasing(xs: seq<int>)
    requires StrictlyIncreasing(xs)
    ensures StrictlyDecreasing(Reverse(xs))
  {
  }

  lemma ReverseOfDecreasing(xs: seq<int>)
    requires StrictlyDecreasing(xs)
    ensures StrictlyIncreasing(Reverse(xs))
  {
  }

  lemma ReverseKeepsElements<T>(xs: seq<T>, x: T)
    requires x in xs
    ensures x in Reverse(xs)
  {
    var i :| 0 <= i < |xs| && xs[i] == x;
    assert Reverse(xs)[|xs| - 1 - i] == x;
  }

  /** A position at which `x` occurs in `xs`. */
  lemma IndexOf<T>(xs: seq<T>, x: T) returns (i: nat)
    requires x in xs
    ensures i < |xs| && xs[i] == x
  {
    i :| 0 <= i < |xs| && xs[i] == x;
  }

  lemma ReverseReverse<T>(xs: seq<T>)
    ensures Reverse(Reverse(xs)) == xs
  {
  }

  /** `m` is the least element of `ks`. */
  predicate IsLeast(m: int, ks: set<int>) {
    m in ks && forall k :: k in ks ==> m <= k
  }

  /** Some element of a non-empty set. */
  lemma Pick<T>(ks: set<T>) returns (x: T)
    requires ks != {}
    ensures x in ks
  {
    x :| x in ks;
  }

  lemma {:induction false} LeastExists(ks: set<int>)
    requires ks != {}
    ensures exists m :: IsLeast(m, ks)
  {
    var x := Pick(ks);
    var rest := ks - {x};
    if rest == {} {
      forall k | k in ks
        ensures x <= k
      {
        assert k == x || k in rest;
      }
      assert IsLeast(x, ks);
    } else {
      LeastExists(rest);
      var m :| IsLeast(m, rest);
      assert forall k :: k in ks ==> k == x || k in rest;
      if x < m {
        assert IsLeast(x, ks);
      } else {
        assert IsLeast(m, ks);
      }
    }
  }

  /** Putting the least element in front of an ascending listing of the
      rest lists the whole set in ascending order. */
  lemma AscendingCons(m: int, ks: set<int>, rest: seq<int>)
    requires IsLeast(m, ks)
    requires StrictlyIncreasing(rest) && |rest| == |ks - {m}|
    requires forall i :: 0 <= i < |rest| ==> rest[i] in ks - {m}
    requires forall k :: k in ks - {m} ==> k in rest
    ensures StrictlyIncreasing([m] + rest)
    ensures forall i :: 0 <= i < |[m] + rest| ==> ([m] + rest)[i] in ks
    ensures forall k :: k in ks ==> k in [m] + rest
    ensures |[m] + rest| == |ks|
  {
    var r := [m] + rest;
    forall i, j | 0 <= i < j < |r|
      ensures r[i] < r[j]
    {
      assert r[j] == rest[j - 1];
      if i > 0 {
        assert r[i] == rest[i - 1];
      } else {
        assert rest[j - 1] in ks - {m};
      }
    }
    forall k | k in ks
      ensures k in r
    {
      if k != m {
        assert k in ks - {m};
        var i := IndexOf(rest, k);
        assert r[i + 1] == k;
      }
    }
  }

  /** The elements of a finite set of ids, smallest first. */
  function Ascending(ks: set<int>): (r: seq<int>)
    ensures StrictlyIncreasing(r)
    ensures forall i :: 0 <= i < |r| ==> r[i] in ks
    ensures forall k :: k in ks ==> k in r
    ensures |r| == |ks|
    decreases ks
  {
    if ks == {} then []
    else
      LeastExists(ks);
      var m :| IsLeast(m, ks);
      var rest := Ascending(ks - {m});
      AscendingCons(m, ks, rest);
      [m] + rest
  }
}
