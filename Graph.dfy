/**
 * The graph store of the editor: nodes with their adjacency lists, the edge
 * list, walks through the adjacency lists and their weight.
 */
module Graph {
  import opened Wrappers

  /** An 8-bit C++ `char`, kept as its code 0..255. */
  type Byte = b: nat | b < 256

  /** Edge weights. The source stores non-negative floats; the model uses naturals. */
  type Weight = nat

  /** A node: its position, its label and its (neighbour, weight) list, in insertion order. */
  datatype Nodo = Nodo(x: real, y: real, etiqueta: Byte, vecinos: seq<(nat, Weight)>)

  /** An edge of `aristas`: both endpoints and the weight. */
  type Arista = (nat, nat, Weight)

  /** The label of the node with index `i`: `'A' + i`, truncated to 8 bits as a `char` is. */
  function Label(i: nat): (r: Byte)
    ensures (65 + i - r) % 256 == 0
    ensures i < 191 ==> r == 65 + i
  {
    (65 + i) % 256
  }

  /** Two nodes created fewer than 256 apart never share a label. */
  lemma LabelInjective(i: nat, j: nat)
    requires i < j < i + 256
    ensures Label(i) != Label(j)
  {
    var a, b := 65 + i, 65 + j;
    assert a % 256 + 256 * (a / 256) == a;
    assert b % 256 + 256 * (b / 256) == b;
  }

  /** Every adjacency entry names an existing node. */
  ghost predicate Closed(g: seq<Nodo>)
  {
    forall u, j :: 0 <= u < |g| && 0 <= j < |g[u].vecinos| ==> g[u].vecinos[j].0 < |g|
  }

  /**
   * The least weight among the entries of `vs` that lead to `v`, or None when
   * none does. Parallel edges are kept, so a step of a walk costs this least weight.
   */
  function MinWeight(vs: seq<(nat, Weight)>, v: nat): (r: Option<Weight>)
    ensures r.None? <==> forall j :: 0 <= j < |vs| ==> vs[j].0 != v
    ensures r.Some? ==> exists j :: 0 <= j < |vs| && vs[j] == (v, r.value)
    ensures r.Some? ==> forall j :: 0 <= j < |vs| && vs[j].0 == v ==> r.value <= vs[j].1
  {
    if vs == [] then None
    else
      var rest := MinWeight(vs[1..], v);
      assert forall j :: 1 <= j < |vs| ==> vs[j] == vs[1..][j - 1];
      if vs[0].0 != v then rest
      else if rest.Some? && rest.value < vs[0].1 then rest
      else Some(vs[0].1)
  }

  /** A walk: a non-empty sequence of nodes, each consecutive pair joined by an adjacency entry. */
  ghost predicate IsWalk(g: seq<Nodo>, p: seq<nat>)
  {
    |p| > 0 &&
    (forall i :: 0 <= i < |p| ==> p[i] < |g|) &&
    (forall i :: 0 <= i < |p| - 1 ==> MinWeight(g[p[i]].vecinos, p[i + 1]).Some?)
  }

  ghost predicate IsWalkFrom(g: seq<Nodo>, p: seq<nat>, s: nat, t: nat)
  {
    IsWalk(g, p) && p[0] == s && p[|p| - 1] == t
  }

  /** The total weight of a walk, summed from its first step. */
  ghost function Cost(g: seq<Nodo>, p: seq<nat>): nat
    requires IsWalk(g, p)
    decreases |p|
  {
    if |p| == 1 then 0
    else
      assert IsWalk(g, p[..|p| - 1]);
      Cost(g, p[..|p| - 1]) + MinWeight(g[p[|p| - 2]].vecinos, p[|p| - 1]).value
  }

  ghost predicate Reachable(g: seq<Nodo>, s: nat, t: nat)
  {
    exists p :: IsWalkFrom(g, p, s, t)
  }

  /** `p` weighs no more than any other walk from its first to its last node. */
  ghost predicate IsShortestWalk(g: seq<Nodo>, p: seq<nat>, s: nat, t: nat)
  {
    IsWalkFrom(g, p, s, t) &&
    forall q :: IsWalkFrom(g, q, s, t) ==> Cost(g, p) <= Cost(g, q)
  }

  /**
   * The adjacency list that node `u` gets from the edge list: each edge
   * (a, b, w) adds (b, w) to a's list and (a, w) to b's, in edge order.
   */
  function Incident(aristas: seq<Arista>, u: nat): (r: seq<(nat, Weight)>)
    ensures |r| <= |aristas|
  {
    if aristas == [] then []
    else
      var e := aristas[|aristas| - 1];
      Incident(aristas[..|aristas| - 1], u) +
        (if e.0 == u then [(e.1, e.2)] else if e.1 == u then [(e.0, e.2)] else [])
  }

  /**
   * Adjacency is symmetric, with multiplicity: v appears in u's list with weight
   * w exactly as often as u appears in v's list with weight w.
   */
  lemma {:induction false} IncidentSymmetric(aristas: seq<Arista>, u: nat, v: nat, w: Weight)
    requires u != v
    ensures multiset(Incident(aristas, u))[(v, w)] == multiset(Incident(aristas, v))[(u, w)]
  {
    if aristas != [] {
      IncidentSymmetric(aristas[..|aristas| - 1], u, v, w);
    }
  }

  /** An edge list whose endpoints are all below `n` gives adjacency lists that stay below `n`. */
  lemma {:induction false} IncidentBounded(aristas: seq<Arista>, n: nat, u: nat)
    requires forall i :: 0 <= i < |aristas| ==> aristas[i].0 < n && aristas[i].1 < n
    ensures forall j :: 0 <= j < |Incident(aristas, u)| ==> Incident(aristas, u)[j].0 < n
  {
    if aristas != [] {
      IncidentBounded(aristas[..|aristas| - 1], n, u);
    }
  }

  /** A node that no edge touches has an empty adjacency list. */
  lemma {:induction false} IncidentUntouched(aristas: seq<Arista>, u: nat)
    requires forall i :: 0 <= i < |aristas| ==> aristas[i].0 != u && aristas[i].1 != u
    ensures Incident(aristas, u) == []
  {
    if aristas != [] {
      IncidentUntouched(aristas[..|aristas| - 1], u);
    }
  }

  /** The edge `e` joins `a` and `b`, in either direction, with weight `w`. */
  predicate Joins(e: Arista, a: nat, b: nat, w: Weight)
  {
    e == (a, b, w) || e == (b, a, w)
  }

  /** Every entry of an adjacency list comes from an edge joining the two nodes with that weight. */
  lemma {:induction false} IncidentFromEdge(aristas: seq<Arista>, u: nat, j: nat)
    requires j < |Incident(aristas, u)|
    ensures exists k :: 0 <= k < |aristas| && Joins(aristas[k], u, Incident(aristas, u)[j].0, Incident(aristas, u)[j].1)
  {
    var init := aristas[..|aristas| - 1];
    var entry := Incident(aristas, u)[j];
    if j < |Incident(init, u)| {
      IncidentFromEdge(init, u, j);
      var k :| 0 <= k < |init| && Joins(init[k], u, entry.0, entry.1);
      assert aristas[k] == init[k];
    } else {
      assert Joins(aristas[|aristas| - 1], u, entry.0, entry.1);
    }
  }
}
