/** Integer x-axis ticks (run_regression.py `_set_integer_xticks`, lines
    27-29): every whole number from `int(min)` to `int(max)` of the document
    counts. */
module Ticks {
  import opened Wrappers

  /** Python's `int()` on a float: truncation toward zero. */
  function Trunc(x: real): (r: int)
    ensures x >= 0.0 ==> r as real <= x < r as real + 1.0
    ensures x < 0.0 ==> r as real - 1.0 < x <= r as real
  {
    if x >= 0.0 then x.Floor else -((-x).Floor)
  }

  function Smallest(xs: seq<real>): (m: real)
    requires |xs| > 0
    ensures m in xs && forall i :: 0 <= i < |xs| ==> m <= xs[i]
  {
    if |xs| == 1 then xs[0]
    else
      var rest := Smallest(xs[1..]);
      assert forall i :: 1 <= i < |xs| ==> xs[i] == xs[1..][i - 1];
      if xs[0] <= rest then xs[0] else rest
  }

  function Largest(xs: seq<real>): (m: real)
    requires |xs| > 0
    ensures m in xs && forall i :: 0 <= i < |xs| ==> xs[i] <= m
  {
    if |xs| == 1 then xs[0]
    else
      var rest := Largest(xs[1..]);
      assert forall i :: 1 <= i < |xs| ==> xs[i] == xs[1..][i - 1];
      if xs[0] >= rest then xs[0] else rest
  }

  /** `np.arange(lo, hi + 1, 1)`: empty when `hi < lo`. */
  function Arange(lo: int, hi: int): (r: seq<int>)
  {
    if hi < lo then [] else seq(hi - lo + 1, i => lo + i)
  }

  /** The ticks for a column of document counts; the reduction over an empty
      column raises, which is `None` here. */
  function XTicks(docs: seq<real>): Option<seq<int>>
  {
    if |docs| == 0 then None
    else Some(Arange(Trunc(Smallest(docs)), Trunc(Largest(docs))))
  }

  lemma TruncMonotone(x: real, y: real)
    requires x <= y
    ensures Trunc(x) <= Trunc(y)
  {
    if x < 0.0 && y >= 0.0 {
    } else if x < 0.0 {
      assert (-y).Floor <= (-x).Floor;
    } else {
      assert x.Floor <= y.Floor;
    }
  }

  /** The ticks are the consecutive whole numbers from `int(min)` to
      `int(max)`, there are `int(max) - int(min) + 1` of them, and every
      document count truncates to one of them. Only an empty column has no
      ticks. */
  lemma XTicksSpec(docs: seq<real>)
    ensures XTicks(docs).None? <==> |docs| == 0
    ensures XTicks(docs).Some? ==>
      var lo, hi, t := Trunc(Smallest(docs)), Trunc(Largest(docs)), XTicks(docs).value;
      && lo <= hi
      && |t| == hi - lo + 1
      && (forall i :: 0 <= i < |t| ==> t[i] == lo + i)
      && (forall i :: 0 <= i < |docs| ==> Trunc(docs[i]) in t)
  {
    if |docs| > 0 {
      var lo, hi := Trunc(Smallest(docs)), Trunc(Largest(docs));
      TruncMonotone(Smallest(docs), Largest(docs));
      var t := XTicks(docs).value;
      forall i | 0 <= i < |docs| ensures Trunc(docs[i]) in t {
        TruncMonotone(Smallest(docs), docs[i]);
        TruncMonotone(docs[i], Largest(docs));
        assert t[Trunc(docs[i]) - lo] == Trunc(docs[i]);
      }
    }
  }

  /** Example: counts 1.0, 4.0 and 2.5 give the ticks 1, 2, 3, 4. */
  lemma XTicksExample()
    ensures XTicks([1.0, 4.0, 2.5]) == Some([1, 2, 3, 4])
  {
    var xs := [1.0, 4.0, 2.5];
    assert xs[1..] == [4.0, 2.5] && xs[1..][1..] == [2.5];
    assert Smallest(xs) == 1.0;
    assert Largest(xs) == 4.0;
    assert Trunc(1.0) == 1 && Trunc(4.0) == 4;
    assert XTicks(xs) == Some(Arange(1, 4));
    var t := Arange(1, 4);
    assert |t| == 4 && t[0] == 1 && t[1] == 2 && t[2] == 3 && t[3] == 4;
    assert t == [1, 2, 3, 4];
  }
}
