/**
 * The editor's global state (the graph, the label index, the three selection
 * slots and the stored path) and the non-drawing logic of its mouse and key
 * handlers. Cursor distances, node positions and edge weights are computed in
 * floating point by the source; here they are inputs.
 */
module Editor {
  import opened Wrappers
  import opened Graph
  import opened HitTest
  import opened ShortestPath
  import opened PathHighlight

  /** The GLFW mouse buttons the handler tells apart. */
  datatype Button = Left | Right | OtherButton

  /** The GLFW keys the handler tells apart. */
  datatype Key = Enter | OtherKey

  /** The GLFW actions of a button or key event. */
  datatype Action = Press | Release | Repeat

  /** A selection slot holds an existing node or nothing (-1 in the source). */
  predicate InRange(slot: Option<nat>, n: nat)
  {
    slot.Some? ==> slot.value < n
  }

  /**
   * `nodoIndices` maps each label in use to the last node created with it:
   * every node's label is a key, and each key maps to a node with that label
   * after which no node has it.
   */
  ghost predicate IndexedByLabel(m: map<Byte, nat>, n: nat)
  {
    (forall i :: 0 <= i < n ==> Label(i) in m) &&
    (forall k :: k in m ==> m[k] < n && Label(m[k]) == k && forall j :: m[k] < j < n ==> Label(j) != k)
  }

  /** Until labels wrap around, the label index maps each node's label back to that node. */
  lemma LabelIndexExact(m: map<Byte, nat>, n: nat, i: nat)
    requires IndexedByLabel(m, n) && i < n && n <= i + 256
    ensures m[Label(i)] == i
  {
    var k := m[Label(i)];
    if k > i {
      LabelInjective(i, k);
    }
  }

  /** Adding node `n` keeps the label index once its label is mapped to it. */
  lemma IndexedByLabelGrows(m: map<Byte, nat>, n: nat)
    requires IndexedByLabel(m, n)
    ensures IndexedByLabel(m[Label(n) := n], n + 1)
  {
    var m' := m[Label(n) := n];
    forall k | k in m'
      ensures m'[k] < n + 1 && Label(m'[k]) == k && forall j :: m'[k] < j < n + 1 ==> Label(j) != k
    {
      if k != Label(n) {
        assert m'[k] == m[k];
      }
    }
  }

  /** The edge that a hit on `h` adds when `anchor` holds another node: none when there is no anchor or it is `h`. */
  function NewEdge(anchor: Option<nat>, h: nat, w: Weight): seq<Arista>
  {
    if anchor.Some? && anchor.value != h then [(anchor.value, h, w)] else []
  }

  /** The nodes of `nodos` keep the position and label they had in `old`, and `nodos` may have grown. */
  ghost predicate KeepsPlaces(nodos: seq<Nodo>, before: seq<Nodo>)
  {
    |before| <= |nodos| &&
    forall i :: 0 <= i < |before| ==>
      nodos[i].x == before[i].x && nodos[i].y == before[i].y && nodos[i].etiqueta == before[i].etiqueta
  }

  /** Adjacency lists built from in-range edges only name existing nodes. */
  lemma AdjacencyClosed(nodos: seq<Nodo>, aristas: seq<Arista>)
    requires forall k :: 0 <= k < |aristas| ==> aristas[k].0 < |nodos| && aristas[k].1 < |nodos|
    requires forall u :: 0 <= u < |nodos| ==> nodos[u].vecinos == Incident(aristas, u)
    ensures Closed(nodos)
  {
    forall u | 0 <= u < |nodos| {
      IncidentBounded(aristas, |nodos|, u);
    }
  }

  /**
   * Every step of a walk through the adjacency lists is drawn red: some edge
   * of `aristas` joins its two nodes, and the on-path test accepts that edge.
   */
  lemma WalkStepHighlighted(nodos: seq<Nodo>, aristas: seq<Arista>, p: seq<nat>, i: nat)
    requires forall u :: 0 <= u < |nodos| ==> nodos[u].vecinos == Incident(aristas, u)
    requires IsWalk(nodos, p) && i + 1 < |p|
    ensures exists k :: 0 <= k < |aristas| && StepJoins(p, i, aristas[k].0, aristas[k].1)
    ensures exists k :: 0 <= k < |aristas| && OnPath(p, aristas[k].0, aristas[k].1)
  {
    var m := MinWeight(nodos[p[i]].vecinos, p[i + 1]);
    var j :| 0 <= j < |nodos[p[i]].vecinos| && nodos[p[i]].vecinos[j] == (p[i + 1], m.value);
    IncidentFromEdge(aristas, p[i], j);
    var k :| 0 <= k < |aristas| && Joins(aristas[k], p[i], p[i + 1], m.value);
    assert StepJoins(p, i, aristas[k].0, aristas[k].1);
  }

  /**
   * The graph part of the editor's invariant: node `i` is labelled `Label(i)`;
   * every edge joins two different existing nodes; each node's adjacency list is
   * exactly what the edge list gives it (so adjacency is symmetric, see
   * `IncidentSymmetric`).
   */
  ghost predicate WellFormed(nodos: seq<Nodo>, aristas: seq<Arista>)
  {
    (forall i :: 0 <= i < |nodos| ==> nodos[i].etiqueta == Label(i)) &&
    (forall k :: 0 <= k < |aristas| ==>
      aristas[k].0 < |nodos| && aristas[k].1 < |nodos| && aristas[k].0 != aristas[k].1) &&
    (forall u :: 0 <= u < |nodos| ==> nodos[u].vecinos == Incident(aristas, u))
  }

  /** Appending an unconnected node labelled from the node count keeps the graph well formed. */
  lemma AppendKeeps(nodos: seq<Nodo>, aristas: seq<Arista>, x: real, y: real)
    requires WellFormed(nodos, aristas)
    ensures WellFormed(nodos + [Nodo(x, y, Label(|nodos|), [])], aristas)
  {
    IncidentUntouched(aristas, |nodos|);
  }

  /** The node list after `a` and `h` are pushed onto each other's adjacency lists with weight `w`. */
  function Join(nodos: seq<Nodo>, a: nat, h: nat, w: Weight): (r: seq<Nodo>)
    requires a < |nodos| && h < |nodos|
    ensures |r| == |nodos|
    ensures forall i :: 0 <= i < |r| ==>
      r[i].x == nodos[i].x && r[i].y == nodos[i].y && r[i].etiqueta == nodos[i].etiqueta
    ensures a != h ==> r[a].vecinos == nodos[a].vecinos + [(h, w)] && r[h].vecinos == nodos[h].vecinos + [(a, w)]
    ensures forall i :: 0 <= i < |r| && i != a && i != h ==> r[i] == nodos[i]
  {
    var n := nodos[a := nodos[a].(vecinos := nodos[a].vecinos + [(h, w)])];
    n[h := n[h].(vecinos := n[h].vecinos + [(a, w)])]
  }

  /** Joining two different existing nodes and recording the edge keeps the graph well formed. */
  lemma JoinKeeps(nodos: seq<Nodo>, aristas: seq<Arista>, a: nat, h: nat, w: Weight)
    requires WellFormed(nodos, aristas) && a < |nodos| && h < |nodos| && a != h
    ensures WellFormed(Join(nodos, a, h, w), aristas + [(a, h, w)])
  {
    var s := aristas + [(a, h, w)];
    assert s[..|s| - 1] == aristas;
  }

  /**
   * The whole editor invariant on values: the graph is well formed, the label
   * index is kept, and the selection slots and the stored path name existing nodes.
   */
  ghost predicate Consistent(nodos: seq<Nodo>, aristas: seq<Arista>, indices: map<Byte, nat>,
                             sel: Option<nat>, ini: Option<nat>, dst: Option<nat>, camino: seq<nat>)
  {
    WellFormed(nodos, aristas) &&
    IndexedByLabel(indices, |nodos|) &&
    InRange(sel, |nodos|) && InRange(ini, |nodos|) && InRange(dst, |nodos|) &&
    (forall i :: 0 <= i < |camino| ==> camino[i] < |nodos|)
  }

  /** Adding a node keeps the invariant. */
  lemma AddNodeKeeps(nodos: seq<Nodo>, aristas: seq<Arista>, indices: map<Byte, nat>,
                     sel: Option<nat>, ini: Option<nat>, dst: Option<nat>, camino: seq<nat>, x: real, y: real)
    requires Consistent(nodos, aristas, indices, sel, ini, dst, camino)
    ensures Consistent(nodos + [Nodo(x, y, Label(|nodos|), [])], aristas,
                       indices[Label(|nodos|) := |nodos|], sel, ini, dst, camino)
  {
    AppendKeeps(nodos, aristas, x, y);
    IndexedByLabelGrows(indices, |nodos|);
  }

  /** Joining two different existing nodes keeps the invariant. */
  lemma ConnectKeeps(nodos: seq<Nodo>, aristas: seq<Arista>, indices: map<Byte, nat>,
                     sel: Option<nat>, ini: Option<nat>, dst: Option<nat>, camino: seq<nat>, a: nat, h: nat, w: Weight)
    requires Consistent(nodos, aristas, indices, sel, ini, dst, camino)
    requires a < |nodos| && h < |nodos| && a != h
    ensures Consistent(Join(nodos, a, h, w), aristas + [(a, h, w)], indices, sel, ini, dst, camino)
  {
    JoinKeeps(nodos, aristas, a, h, w);
  }

  class EditorState {
    var nodos: seq<Nodo>
    var caminoMasCorto: seq<nat>
    var nodoIndices: map<Byte, nat>
    var aristas: seq<Arista>
    var nodoSeleccionado: Option<nat>
    var nodoInicio: Option<nat>
    var nodoDestino: Option<nat>

    /**
     * The graph is well formed, the label index is kept, and the selection
     * slots and the stored path name existing nodes.
     */
    ghost predicate Valid()
      reads this
    {
      Consistent(nodos, aristas, nodoIndices, nodoSeleccionado, nodoInicio, nodoDestino, caminoMasCorto)
    }

    /** The globals at program start: no nodes, no edges, no path, every slot empty. */
    constructor ()
      ensures Valid()
      ensures nodos == [] && aristas == [] && caminoMasCorto == [] && nodoIndices == map[]
      ensures nodoSeleccionado == None && nodoInicio == None && nodoDestino == None
    {
      nodos, caminoMasCorto, nodoIndices, aristas := [], [], map[], [];
      nodoSeleccionado, nodoInicio, nodoDestino := None, None, None;
    }

    /**
     * A left press that hits no node: append a node at the cursor, labelled
     * from the node count, and record it in the label index. Earlier nodes and
     * all edges are untouched, so node ids are never reused.
     */
    method AddNode(x: real, y: real)
      requires Valid()
      modifies this
      ensures Valid()
      ensures nodos == old(nodos) + [Nodo(x, y, Label(|old(nodos)|), [])]
      ensures nodoIndices == old(nodoIndices)[Label(|old(nodos)|) := |old(nodos)|]
      ensures aristas == old(aristas) && caminoMasCorto == old(caminoMasCorto)
      ensures nodoSeleccionado == old(nodoSeleccionado)
      ensures nodoInicio == old(nodoInicio) && nodoDestino == old(nodoDestino)
    {
      var etiqueta := Label(|nodos|);
      AddNodeKeeps(nodos, aristas, nodoIndices, nodoSeleccionado, nodoInicio, nodoDestino, caminoMasCorto, x, y);
      nodos := nodos + [Nodo(x, y, etiqueta, [])];
      nodoIndices := nodoIndices[etiqueta := |nodos| - 1];
    }

    /**
     * Join the anchor `a` and the hit node `h` (never the same node) with
     * weight `w`: each gets the other appended to its adjacency list and the
     * edge is appended to `aristas`; every other node is untouched.
     */
    method Connect(a: nat, h: nat, w: Weight)
      requires Valid() && a < |nodos| && h < |nodos| && a != h
      modifies this
      ensures Valid()
      ensures aristas == old(aristas) + [(a, h, w)]
      ensures |nodos| == |old(nodos)|
      ensures nodos[a] == old(nodos[a]).(vecinos := old(nodos[a].vecinos) + [(h, w)])
      ensures nodos[h] == old(nodos[h]).(vecinos := old(nodos[h].vecinos) + [(a, w)])
      ensures forall i :: 0 <= i < |nodos| && i != a && i != h ==> nodos[i] == old(nodos[i])
      ensures nodoIndices == old(nodoIndices) && caminoMasCorto == old(caminoMasCorto)
      ensures nodoSeleccionado == old(nodoSeleccionado)
      ensures nodoInicio == old(nodoInicio) && nodoDestino == old(nodoDestino)
    {
      ConnectKeeps(nodos, aristas, nodoIndices, nodoSeleccionado, nodoInicio, nodoDestino, caminoMasCorto, a, h, w);
      nodos := Join(nodos, a, h, w);
      aristas := aristas + [(a, h, w)];
    }

    /**
     * A left-button hit on node `h`, as both blocks of the press handler do it:
     * with no anchor, `h` becomes the anchor; with another node anchored, the
     * two are joined with weight `w`; either way `h` is the anchor afterwards,
     * so edges chain. A hit on the anchor itself adds nothing.
     */
    method SelectOrConnect(h: nat, w: Weight)
      requires Valid() && h < |nodos|
      modifies this
      ensures Valid()
      ensures nodoSeleccionado == Some(h)
      ensures aristas == old(aristas) + NewEdge(old(nodoSeleccionado), h, w)
      ensures |nodos| == |old(nodos)| && KeepsPlaces(nodos, old(nodos))
      ensures nodoIndices == old(nodoIndices) && caminoMasCorto == old(caminoMasCorto)
      ensures nodoInicio == old(nodoInicio) && nodoDestino == old(nodoDestino)
    {
      if nodoSeleccionado == None {
        nodoSeleccionado := Some(h);
      } else if nodoSeleccionado.value != h {
        Connect(nodoSeleccionado.value, h, w);
        nodoSeleccionado := Some(h);
      }
    }

    /**
     * A right-button hit on node `h`: the first one sets the origin; every
     * later one overwrites only the destination, and the origin is never reset.
     */
    method SelectEndpoint(h: nat)
      requires Valid() && h < |nodos|
      modifies this
      ensures Valid()
      ensures old(nodoInicio).None? ==> nodoInicio == Some(h) && nodoDestino == old(nodoDestino)
      ensures old(nodoInicio).Some? ==> nodoInicio == old(nodoInicio) && nodoDestino == Some(h)
      ensures nodos == old(nodos) && aristas == old(aristas) && nodoIndices == old(nodoIndices)
      ensures nodoSeleccionado == old(nodoSeleccionado) && caminoMasCorto == old(caminoMasCorto)
    {
      if nodoInicio == None {
        nodoInicio := Some(h);
      } else {
        nodoDestino := Some(h);
      }
    }

    /**
     * The first block of a press: search for the nearest node in the
     * fixed-window coordinates (`screenDist`); on a hit, the left button anchors
     * or connects with the unscaled `weight` and the right button sets an
     * endpoint; a miss or another button changes nothing.
     */
    method PressNearest(button: Button, screenDist: seq<real>, weight: Weight)
      requires Valid() && |screenDist| == |nodos|
      modifies this
      ensures Valid()
      ensures |nodos| == |old(nodos)| && KeepsPlaces(nodos, old(nodos))
      ensures nodoIndices == old(nodoIndices) && caminoMasCorto == old(caminoMasCorto)
      ensures var h := Nearest(screenDist);
        if h.None? || button == OtherButton then
          nodos == old(nodos) && aristas == old(aristas) && nodoSeleccionado == old(nodoSeleccionado) &&
          nodoInicio == old(nodoInicio) && nodoDestino == old(nodoDestino)
        else if button == Left then
          aristas == old(aristas) + NewEdge(old(nodoSeleccionado), h.value, weight) && nodoSeleccionado == h &&
          nodoInicio == old(nodoInicio) && nodoDestino == old(nodoDestino)
        else
          nodos == old(nodos) && aristas == old(aristas) && nodoSeleccionado == old(nodoSeleccionado) &&
          nodoInicio == (if old(nodoInicio).None? then h else old(nodoInicio)) &&
          nodoDestino == (if old(nodoInicio).None? then old(nodoDestino) else h)
    {
      var nodoCercano := NearestNode(screenDist);
      if nodoCercano.Some? {
        if button == Left {
          SelectOrConnect(nodoCercano.value, weight);
        } else if button == Right {
          SelectEndpoint(nodoCercano.value);
        }
      }
    }

    /**
     * The second block, run on a left press only: search for the first node
     * inside the radius in framebuffer coordinates (`frameDist`); a miss adds a
     * node at (x, y), a hit anchors or connects with `scaledWeight`.
     */
    method PressFirst(frameDist: seq<real>, x: real, y: real, scaledWeight: Weight)
      requires Valid() && |frameDist| == |nodos|
      modifies this
      ensures Valid()
      ensures KeepsPlaces(nodos, old(nodos)) && caminoMasCorto == old(caminoMasCorto)
      ensures nodoInicio == old(nodoInicio) && nodoDestino == old(nodoDestino)
      ensures var h := FirstWithin(frameDist);
        if h.None? then
          nodos == old(nodos) + [Nodo(x, y, Label(|old(nodos)|), [])] &&
          nodoIndices == old(nodoIndices)[Label(|old(nodos)|) := |old(nodos)|] &&
          aristas == old(aristas) && nodoSeleccionado == old(nodoSeleccionado)
        else
          |nodos| == |old(nodos)| && nodoIndices == old(nodoIndices) &&
          aristas == old(aristas) + NewEdge(old(nodoSeleccionado), h.value, scaledWeight) && nodoSeleccionado == h
    {
      var nodoCercano := FirstNode(frameDist);
      if nodoCercano.None? {
        AddNode(x, y);
      } else {
        SelectOrConnect(nodoCercano.value, scaledWeight);
      }
    }

    /**
     * `mouse_callback`: every press runs the first block, and a left press
     * then runs the second, near-duplicate block on the state the first left.
     * Releases, repeats and other buttons change nothing.
     */
    method MouseCallback(button: Button, action: Action, screenDist: seq<real>, frameDist: seq<real>,
                         x: real, y: real, weight: Weight, scaledWeight: Weight)
      requires Valid() && |screenDist| == |nodos| && |frameDist| == |nodos|
      modifies this
      ensures Valid()
      ensures caminoMasCorto == old(caminoMasCorto)
      ensures action != Press || button == OtherButton ==>
        nodos == old(nodos) && aristas == old(aristas) && nodoIndices == old(nodoIndices) &&
        nodoSeleccionado == old(nodoSeleccionado) && nodoInicio == old(nodoInicio) && nodoDestino == old(nodoDestino)
      ensures action == Press && button == Right ==>
        nodos == old(nodos) && aristas == old(aristas) && nodoIndices == old(nodoIndices) &&
        nodoSeleccionado == old(nodoSeleccionado) &&
        var h := Nearest(screenDist);
        nodoInicio == (if h.Some? && old(nodoInicio).None? then h else old(nodoInicio)) &&
        nodoDestino == (if h.Some? && old(nodoInicio).Some? then h else old(nodoDestino))
      ensures action == Press && button == Left ==>
        var h1, h2 := Nearest(screenDist), FirstWithin(frameDist);
        var anchor1 := if h1.Some? then h1 else old(nodoSeleccionado);
        var e1 := if h1.Some? then NewEdge(old(nodoSeleccionado), h1.value, weight) else [];
        var e2 := if h2.Some? then NewEdge(anchor1, h2.value, scaledWeight) else [];
        aristas == old(aristas) + e1 + e2 &&
        nodoSeleccionado == (if h2.Some? then h2 else anchor1) &&
        KeepsPlaces(nodos, old(nodos)) &&
        (h2.Some? ==> |nodos| == |old(nodos)| && nodoIndices == old(nodoIndices)) &&
        (h2.None? ==>
          |nodos| == |old(nodos)| + 1 && nodos[|old(nodos)|].x == x && nodos[|old(nodos)|].y == y &&
          nodoIndices == old(nodoIndices)[Label(|old(nodos)|) := |old(nodos)|]) &&
        nodoInicio == old(nodoInicio) && nodoDestino == old(nodoDestino)
      // When both searches hit the same node, the second block adds nothing: the scaled weight is never used.
      ensures action == Press && button == Left && Nearest(screenDist) == FirstWithin(frameDist) ==>
        aristas == old(aristas) +
          (if Nearest(screenDist).Some? then NewEdge(old(nodoSeleccionado), Nearest(screenDist).value, weight) else [])
    {
      if action == Press {
        PressNearest(button, screenDist, weight);
      }
      if button == Left && action == Press {
        PressFirst(frameDist, x, y, scaledWeight);
      }
    }

    /**
     * `key_callback`: pressing Enter with both endpoints set runs `dijkstra`
     * and stores its result when it is non-empty, which it always is; with an
     * endpoint missing, nothing is computed and the stored path stays as it was.
     */
    method KeyCallback(key: Key, action: Action)
      requires Valid()
      modifies this
      ensures Valid()
      ensures nodos == old(nodos) && aristas == old(aristas) && nodoIndices == old(nodoIndices)
      ensures nodoSeleccionado == old(nodoSeleccionado)
      ensures nodoInicio == old(nodoInicio) && nodoDestino == old(nodoDestino)
      ensures !(action == Press && key == Enter && nodoInicio.Some? && nodoDestino.Some?) ==>
        caminoMasCorto == old(caminoMasCorto)
      ensures action == Press && key == Enter && nodoInicio.Some? && nodoDestino.Some? ==>
        var inicio, destino := nodoInicio.value, nodoDestino.value;
        |caminoMasCorto| > 0 && caminoMasCorto[|caminoMasCorto| - 1] == destino &&
        (inicio == destino ==> caminoMasCorto == [destino]) &&
        (Reachable(nodos, inicio, destino) ==> IsShortestWalk(nodos, caminoMasCorto, inicio, destino)) &&
        (!Reachable(nodos, inicio, destino) ==> caminoMasCorto == [destino])
    {
      if action == Press && key == Enter {
        if nodoInicio.Some? && nodoDestino.Some? {
          AdjacencyClosed(nodos, aristas);
          var camino := Dijkstra(nodos, nodoInicio.value, nodoDestino.value);
          if camino != [] {
            caminoMasCorto := camino;
          }
        }
      }
    }
  }
}
