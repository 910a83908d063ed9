/** Sequences without repetition. */
module Sequences {

  ghost predicate Distinct(xs: seq<int>) { forall i, j :: 0 <= i < j < |xs| ==> xs[i] != xs[j] }

  ghost function Without(xs: seq<int>, i: int): seq<int>
    requires 0 <= i < |xs|
  {
    xs[..i] + xs[i + 1..]
  }

  lemma WithoutHas(xs: seq<int>, i: int)
    requires 0 <= i < |xs| && Distinct(xs)
    ensures Distinct(Without(xs, i)) && forall x :: x in Without(xs, i) <==> x in xs && x != xs[i]
  {
    var ys := Without(xs, i);
    forall j | 0 <= j < |ys| ensures ys[j] == xs[if j < i then j else j + 1] {}
    forall x | x in xs && x != xs[i] ensures x in ys {
      var j :| 0 <= j < |xs| && xs[j] == x;
      assert ys[if j < i then j else j - 1] == x;
    }
  }
}
