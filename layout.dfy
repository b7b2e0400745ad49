/** The canvas extent `autosize` gives the connector surface and the node
    layer. */
module Layout {
  import opened Records

  /** The margin added to the largest coordinate in each axis. */
  const Pad: real := 200.0

  datatype Extent = Extent(width: real, height: real)

  /** `Math.max(0, ...xs)`: the largest of 0 and the values. */
  function MaxOrZero(xs: seq<real>): (m: real)
    ensures m >= 0.0
    ensures forall i :: 0 <= i < |xs| ==> xs[i] <= m
    ensures m == 0.0 || exists i :: 0 <= i < |xs| && xs[i] == m
  {
    if xs == [] then 0.0
    else
      var r := MaxOrZero(xs[..|xs| - 1]);
      if xs[|xs| - 1] > r then xs[|xs| - 1] else r
  }

  function Xs(s: seq<Node>): (xs: seq<real>)
    ensures |xs| == |s| && forall k :: 0 <= k < |s| ==> xs[k] == X(s[k])
  {
    seq(|s|, k requires 0 <= k < |s| => X(s[k]))
  }

  function Ys(s: seq<Node>): (ys: seq<real>)
    ensures |ys| == |s| && forall k :: 0 <= k < |s| ==> ys[k] == Y(s[k])
  {
    seq(|s|, k requires 0 <= k < |s| => Y(s[k]))
  }

  /** Each axis is the pad plus the largest coordinate, a coordinate below 0
      and a missing one both counting as 0. */
  function CanvasExtent(s: seq<Node>): (e: Extent)
    ensures e.width >= Pad && e.height >= Pad
  {
    Extent(MaxOrZero(Xs(s)) + Pad, MaxOrZero(Ys(s)) + Pad)
  }

  /** The canvas has room for every node's corner, and no more than that:
      each axis is the bare pad or is reached by some node. */
  lemma CanvasExtentTight(s: seq<Node>)
    ensures var e := CanvasExtent(s);
      (forall k :: 0 <= k < |s| ==> X(s[k]) + Pad <= e.width && Y(s[k]) + Pad <= e.height) &&
      (e.width == Pad || exists k :: 0 <= k < |s| && X(s[k]) + Pad == e.width) &&
      (e.height == Pad || exists k :: 0 <= k < |s| && Y(s[k]) + Pad == e.height)
  {
  }

  /** A missing coordinate counts exactly as an explicit 0 (`n.x || 0`,
      `n.y || 0`): supplying it changes no extent. */
  lemma MissingIsZero(s: seq<Node>, k: nat)
    requires k < |s|
    ensures s[k].x.None? ==> CanvasExtent(s[k := s[k].(x := Some(0.0))]) == CanvasExtent(s)
    ensures s[k].y.None? ==> CanvasExtent(s[k := s[k].(y := Some(0.0))]) == CanvasExtent(s)
  {
    var sx, sy := s[k := s[k].(x := Some(0.0))], s[k := s[k].(y := Some(0.0))];
    if s[k].x.None? {
      assert Xs(sx) == Xs(s);
      assert Ys(sx) == Ys(s);
    }
    if s[k].y.None? {
      assert Xs(sy) == Xs(s);
      assert Ys(sy) == Ys(s);
    }
  }

  /** Nodes at x in {0, 300} and y in {0, 150} need a 500 by 350 canvas; an
      empty list needs the bare pad in both axes. */
  lemma ExtentExamples()
    ensures CanvasExtent([
      Node("a", None, Some(0.0), Some(0.0), None, None),
      Node("b", None, Some(300.0), Some(150.0), None, None)]) == Extent(500.0, 350.0)
    ensures CanvasExtent([]) == Extent(Pad, Pad)
  {
    var s := [
      Node("a", None, Some(0.0), Some(0.0), None, None),
      Node("b", None, Some(300.0), Some(150.0), None, None)];
    assert Xs(s) == [0.0, 300.0] && Ys(s) == [0.0, 150.0];
    assert [0.0, 300.0][..1] == [0.0] && [0.0, 150.0][..1] == [0.0];
  }
}
