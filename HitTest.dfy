/**
 * The two node searches of the mouse handler. The Euclidean distances from the
 * cursor to every node (floating point in the source) are given, in node order.
 */
module HitTest {
  import opened Wrappers

  /** The selection radius of both searches (`0.05f`). */
  const Radio: real := 0.05

  /**
   * What the first search (a running minimum that starts at the radius and is
   * replaced only by a strictly smaller distance) ends with.
   */
  function Nearest(d: seq<real>): (r: Option<nat>)
    ensures r.None? <==> forall i :: 0 <= i < |d| ==> d[i] >= Radio
    ensures r.Some? ==> r.value < |d| && d[r.value] < Radio
    ensures r.Some? ==> forall i :: 0 <= i < |d| ==> d[r.value] <= d[i]
    ensures r.Some? ==> forall i :: 0 <= i < r.value ==> d[r.value] < d[i]
  {
    if d == [] then None
    else
      var r := Nearest(d[..|d| - 1]);
      var best := if r.Some? then d[r.value] else Radio;
      if d[|d| - 1] < best then Some(|d| - 1) else r
  }

  /** What the second search (the first node strictly inside the radius) ends with. */
  function FirstWithin(d: seq<real>): (r: Option<nat>)
    ensures r.None? <==> forall i :: 0 <= i < |d| ==> d[i] >= Radio
    ensures r.Some? ==> r.value < |d| && d[r.value] < Radio
    ensures r.Some? ==> forall i :: 0 <= i < r.value ==> d[i] >= Radio
  {
    if d == [] then None
    else if d[0] < Radio then Some(0)
    else
      var r := FirstWithin(d[1..]);
      assert forall i :: 1 <= i < |d| ==> d[i] == d[1..][i - 1];
      if r.Some? then Some(r.value + 1) else None
  }

  /** When exactly one node lies inside the radius, both searches pick it. */
  lemma SearchesAgreeOnSingleHit(d: seq<real>, k: nat)
    requires k < |d| && d[k] < Radio
    requires forall i :: 0 <= i < |d| && i != k ==> d[i] >= Radio
    ensures Nearest(d) == Some(k) && FirstWithin(d) == Some(k)
  {
  }

  /**
   * The search for the nearest node (the first loop of the mouse handler):
   * `minDist` starts at the radius and each strictly closer node replaces the
   * candidate, so ties go to the lowest index.
   */
  method NearestNode(d: seq<real>) returns (nodoCercano: Option<nat>)
    ensures nodoCercano == Nearest(d)
  {
    nodoCercano := None;
    var minDist := Radio;
    for i := 0 to |d|
      invariant nodoCercano == Nearest(d[..i])
      invariant minDist == if nodoCercano.Some? then d[nodoCercano.value] else Radio
    {
      assert d[..i + 1][..i] == d[..i];
      if d[i] < minDist {
        nodoCercano := Some(i);
        minDist := d[i];
      }
    }
    assert d[..|d|] == d;
  }

  /** The search for the first node inside the radius (the second loop of the mouse handler). */
  method FirstNode(d: seq<real>) returns (nodoCercano: Option<nat>)
    ensures nodoCercano == FirstWithin(d)
  {
    nodoCercano := None;
    var i := 0;
    while i < |d|
      invariant 0 <= i <= |d|
      invariant forall k :: 0 <= k < i ==> d[k] >= Radio
    {
      if d[i] < Radio {
        nodoCercano := Some(i);
        break;
      }
      i := i + 1;
    }
  }
}
