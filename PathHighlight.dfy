/** The test, made for every edge while the edges are drawn, of whether the edge lies on the stored path. */
module PathHighlight {

  /** `a` and `b` are the entries at positions `i` and `i + 1` of `camino`, in either order. */
  predicate StepJoins(camino: seq<nat>, i: nat, a: nat, b: nat)
    requires i + 1 < |camino|
  {
    (camino[i] == a && camino[i + 1] == b) || (camino[i] == b && camino[i + 1] == a)
  }

  /** The edge a-b is on the path: its endpoints are adjacent entries of the path. */
  ghost predicate OnPath(camino: seq<nat>, a: nat, b: nat)
  {
    exists i :: 0 <= i && i + 1 < |camino| && StepJoins(camino, i, a, b)
  }

  /** Whether an edge is on the path does not depend on the order of its endpoints, and a path of fewer than two nodes has no edge on it. */
  lemma OnPathShape(camino: seq<nat>, a: nat, b: nat)
    ensures OnPath(camino, a, b) <==> OnPath(camino, b, a)
    ensures |camino| < 2 ==> !OnPath(camino, a, b)
  {
    if OnPath(camino, a, b) {
      var i :| 0 <= i && i + 1 < |camino| && StepJoins(camino, i, a, b);
      assert StepJoins(camino, i, b, a);
    }
    if OnPath(camino, b, a) {
      var i :| 0 <= i && i + 1 < |camino| && StepJoins(camino, i, b, a);
      assert StepJoins(camino, i, a, b);
    }
  }

  /**
   * `esCaminoCorto` for the edge a-b: false when the path has fewer than two
   * nodes, otherwise a scan of the consecutive pairs that stops at the first match.
   */
  method EsCaminoCorto(camino: seq<nat>, a: nat, b: nat) returns (esCaminoCorto: bool)
    ensures esCaminoCorto <==> OnPath(camino, a, b)
  {
    esCaminoCorto := false;
    if |camino| < 2 {
      return;
    }
    var i := 0;
    while i < |camino| - 1
      invariant 0 <= i <= |camino| - 1
      invariant forall k :: 0 <= k < i ==> !StepJoins(camino, k, a, b)
    {
      if StepJoins(camino, i, a, b) {
        esCaminoCorto := true;
        break;
      }
      i := i + 1;
    }
  }
}
