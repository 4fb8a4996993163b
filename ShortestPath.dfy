/**
 * `dijkstra` of the editor: tentative distances and predecessor links in two
 * vectors, a min-priority queue of (distance, node) entries that may hold
 * several entries per node and never discards stale ones, an early stop when
 * the destination is popped, and the path rebuilt by following the links back.
 */
module ShortestPath {
  import opened Wrappers
  import opened Graph

  /** A tentative distance; `FLT_MAX` of the source is `Infinite`. */
  datatype Dist = Finite(value: nat) | Infinite

  /** `dist[u] + peso`: adding a weight to `FLT_MAX` leaves the largest float. */
  function Plus(d: Dist, w: Weight): (r: Dist)
    ensures r.Finite? <==> d.Finite?
    ensures NoGreater(d, r)
    ensures r.Finite? ==> r.value - d.value == w
  {
    if d.Finite? then Finite(d.value + w) else Infinite
  }

  /** The float comparison `a < b`; nothing is below `FLT_MAX` unless it is finite. */
  predicate Below(a: Dist, b: Dist)
    ensures Below(a, b) <==> !NoGreater(b, a)
    ensures Below(a, b) ==> a != b
  {
    a.Finite? && (b.Infinite? || a.value < b.value)
  }

  /** `d` is finite and at most `c`. */
  predicate Within(d: Dist, c: nat)
  {
    d.Finite? && d.value <= c
  }

  /** `a <= b`, with `Infinite` above every finite distance. */
  predicate NoGreater(a: Dist, b: Dist)
  {
    b.Infinite? || (a.Finite? && a.value <= b.value)
  }

  /** Every distance of `d` is at most the one at the same node in `d0`. */
  ghost predicate Decreased(d: seq<Dist>, d0: seq<Dist>)
  {
    |d| == |d0| && forall i :: 0 <= i < |d| ==> NoGreater(d[i], d0[i])
  }

  // ---------------------------------------------------------------------------
  // The priority queue

  /** An entry `(distance, node)` of the queue. */
  type Entry = (nat, nat)

  /** The order of `std::greater<>` on pairs: by distance, then by node. */
  predicate EntryLeq(a: Entry, b: Entry)
  {
    a.0 < b.0 || (a.0 == b.0 && a.1 <= b.1)
  }

  /** The position of `pq.top()`: an entry no greater than any other. */
  function Top(pq: seq<Entry>): (k: nat)
    requires |pq| > 0
    ensures k < |pq|
    ensures forall i :: 0 <= i < |pq| ==> EntryLeq(pq[k], pq[i])
  {
    if |pq| == 1 then 0
    else
      var k := Top(pq[1..]);
      assert forall i :: 1 <= i < |pq| ==> pq[i] == pq[1..][i - 1];
      if EntryLeq(pq[0], pq[k + 1]) then 0 else k + 1
  }

  /** `pq.pop()`: the queue without its entry at position `k`. */
  function Pop(pq: seq<Entry>, k: nat): (r: seq<Entry>)
    requires k < |pq|
    ensures |r| == |pq| - 1
    ensures multiset(r) == multiset(pq) - multiset{pq[k]}
  {
    assert pq == pq[..k] + [pq[k]] + pq[k + 1..];
    pq[..k] + pq[k + 1..]
  }

  // ---------------------------------------------------------------------------
  // Invariants of the search

  /** The link of `v` names a node `u` whose distance plus the edge u-v is at most v's, and ranks below v. */
  ghost predicate LinkOk(g: seq<Nodo>, dist: seq<Dist>, prev: seq<int>, stamp: seq<nat>, v: nat)
    requires |dist| == |g| && |prev| == |g| && |stamp| == |g| && v < |g|
  {
    var u := prev[v];
    0 <= u < |g| && dist[v].Finite? && dist[u].Finite? &&
    var m := MinWeight(g[u].vecinos, v);
    m.Some? && dist[u].value + m.value <= dist[v].value &&
    (dist[u].value < dist[v].value || stamp[u] < stamp[v])
  }

  /**
   * The predecessor links: the origin has distance 0 and no link, every other
   * node with a finite distance has a link, and each link is LinkOk. `stamp`
   * (ghost) records when a node's distance last changed; together with the
   * distances it ranks the links, so following them always ends.
   */
  ghost predicate PrevLinks(g: seq<Nodo>, s: nat, dist: seq<Dist>, prev: seq<int>, stamp: seq<nat>, time: nat)
  {
    s < |g| && |dist| == |g| && |prev| == |g| && |stamp| == |g| &&
    dist[s] == Finite(0) && prev[s] == -1 &&
    (forall v :: 0 <= v < |g| ==> stamp[v] < time) &&
    (forall v :: 0 <= v < |g| && prev[v] == -1 && v != s ==> dist[v].Infinite?) &&
    (forall v :: 0 <= v < |g| && prev[v] != -1 ==> LinkOk(g, dist, prev, stamp, v))
  }

  /** Every queued entry names a node whose distance is finite and at most the entry's key. */
  ghost predicate Keyed(g: seq<Nodo>, dist: seq<Dist>, pq: seq<Entry>)
  {
    |dist| == |g| &&
    forall i :: 0 <= i < |pq| ==> pq[i].1 < |g| && Within(dist[pq[i].1], pq[i].0)
  }

  /** The first `m` edges out of `x` are relaxed: their far ends are within `dist[x]` plus the weight. */
  ghost predicate RelaxedUpTo(g: seq<Nodo>, dist: seq<Dist>, x: nat, m: nat)
    requires |dist| == |g| && x < |g|
  {
    dist[x].Finite? ==>
      forall j :: 0 <= j < m && j < |g[x].vecinos| ==>
        g[x].vecinos[j].0 < |g| &&
        Within(dist[g[x].vecinos[j].0], dist[x].value + g[x].vecinos[j].1)
  }

  /**
   * Every node with a finite distance is queued at that distance or has all
   * its edges relaxed; while node `u` is being processed, only its first `m`
   * edges are required to be.
   */
  ghost predicate Frontier(g: seq<Nodo>, dist: seq<Dist>, pq: seq<Entry>, u: int, m: nat)
    requires |dist| == |g|
  {
    forall x :: 0 <= x < |g| && dist[x].Finite? ==>
      (dist[x].value, x) in pq || RelaxedUpTo(g, dist, x, if x == u then m else |g[x].vecinos|)
  }

  /** The distance of `t` is at most the weight of every walk from `s` to `t`. */
  ghost predicate Bounds(g: seq<Nodo>, s: nat, t: nat, dist: seq<Dist>)
    requires t < |dist|
  {
    forall p :: IsWalkFrom(g, p, s, t) ==> Within(dist[t], Cost(g, p))
  }

  // ---------------------------------------------------------------------------
  // Why a popped destination has its least distance

  /**
   * Along any walk from the origin, either the last node's distance is within
   * the walk's weight, or some queued key is: the first node of the walk that is
   * neither relaxed nor ahead of it is in the queue.
   */
  lemma {:induction false} FrontierBound(g: seq<Nodo>, s: nat, dist: seq<Dist>, pq: seq<Entry>, m: nat, p: seq<nat>)
    requires s < |g| && |dist| == |g| && dist[s] == Finite(0)
    requires Frontier(g, dist, pq, -1, 0)
    requires forall i :: 0 <= i < |pq| ==> m <= pq[i].0
    requires IsWalk(g, p) && p[0] == s
    ensures Within(dist[p[|p| - 1]], Cost(g, p)) || m <= Cost(g, p)
    decreases |p|
  {
    if |p| > 1 {
      var q := p[..|p| - 1];
      assert IsWalk(g, q);
      FrontierBound(g, s, dist, pq, m, q);
      var x, t := p[|p| - 2], p[|p| - 1];
      assert q[|q| - 1] == x;
      var w := MinWeight(g[x].vecinos, t).value;
      assert Cost(g, p) == Cost(g, q) + w;
      if Within(dist[x], Cost(g, q)) {
        if (dist[x].value, x) in pq {
          var i :| 0 <= i < |pq| && pq[i] == (dist[x].value, x);
        } else {
          assert RelaxedUpTo(g, dist, x, |g[x].vecinos|);
          var j :| 0 <= j < |g[x].vecinos| && g[x].vecinos[j] == (t, w);
          assert Within(dist[t], dist[x].value + w);
        }
      }
    }
  }

  /** When the least entry of the queue names `t`, the distance of `t` is a lower bound on every walk to it. */
  lemma BoundsWhenPopped(g: seq<Nodo>, s: nat, t: nat, dist: seq<Dist>, pq: seq<Entry>, k: nat)
    requires s < |g| && t < |g| && Keyed(g, dist, pq) && dist[s] == Finite(0)
    requires Frontier(g, dist, pq, -1, 0)
    requires k < |pq| && pq[k].1 == t
    requires forall i :: 0 <= i < |pq| ==> EntryLeq(pq[k], pq[i])
    ensures Bounds(g, s, t, dist)
  {
    forall p | IsWalkFrom(g, p, s, t)
      ensures Within(dist[t], Cost(g, p))
    {
      FrontierBound(g, s, dist, pq, pq[k].0, p);
    }
  }

  /** With the queue empty, every distance is a lower bound on the walks to its node. */
  lemma BoundsWhenExhausted(g: seq<Nodo>, s: nat, t: nat, dist: seq<Dist>)
    requires s < |g| && t < |g| && |dist| == |g| && dist[s] == Finite(0)
    requires Frontier(g, dist, [], -1, 0)
    ensures Bounds(g, s, t, dist)
  {
    forall p | IsWalkFrom(g, p, s, t)
      ensures Within(dist[t], Cost(g, p))
    {
      FrontierBound(g, s, dist, [], Cost(g, p) + 1, p);
    }
  }

  // ---------------------------------------------------------------------------
  // Keeping the invariants

  /** Lowering distances keeps a node relaxed when its own distance stays. */
  lemma RelaxedMonotone(g: seq<Nodo>, dist: seq<Dist>, dist': seq<Dist>, x: nat, m: nat)
    requires |dist| == |g| && x < |g| && Decreased(dist', dist) && dist'[x] == dist[x]
    requires RelaxedUpTo(g, dist, x, m)
    ensures RelaxedUpTo(g, dist', x, m)
  {
  }

  /** Popping the entry at `k`, which names `u`, leaves every other node as queued or relaxed as before. */
  lemma PopKeeps(g: seq<Nodo>, dist: seq<Dist>, pq: seq<Entry>, k: nat)
    requires Keyed(g, dist, pq) && Frontier(g, dist, pq, -1, 0) && k < |pq|
    ensures Keyed(g, dist, Pop(pq, k)) && Frontier(g, dist, Pop(pq, k), pq[k].1, 0)
  {
    var r := Pop(pq, k);
    assert forall i :: 0 <= i < |r| ==> r[i] == if i < k then pq[i] else pq[i + 1];
    forall x | 0 <= x < |g| && dist[x].Finite? && (dist[x].value, x) in pq && x != pq[k].1
      ensures (dist[x].value, x) in r
    {
      assert multiset(pq)[(dist[x].value, x)] > 0;
    }
  }

  /** Lowering the distance of `v` through the edge `j` of `u` keeps the links. */
  lemma RelaxKeepsLinks(g: seq<Nodo>, s: nat, dist: seq<Dist>, prev: seq<int>, stamp: seq<nat>, time: nat,
                        u: nat, j: nat)
    requires Closed(g) && PrevLinks(g, s, dist, prev, stamp, time)
    requires u < |g| && dist[u].Finite? && j < |g[u].vecinos|
    requires Below(Plus(dist[u], g[u].vecinos[j].1), dist[g[u].vecinos[j].0])
    ensures var v := g[u].vecinos[j].0;
      v != u && v != s &&
      PrevLinks(g, s, dist[v := Plus(dist[u], g[u].vecinos[j].1)], prev[v := u], stamp[v := time], time + 1)
  {
    var (v, w) := g[u].vecinos[j];
    var dist', prev', stamp' := dist[v := Plus(dist[u], w)], prev[v := u], stamp[v := time];
    assert v != u && v != s;
    forall x | 0 <= x < |g| && prev'[x] != -1
      ensures LinkOk(g, dist', prev', stamp', x)
    {
      if x == v {
        var m := MinWeight(g[u].vecinos, v);
        assert g[u].vecinos[j].0 == v;
        assert m.value <= w;
      } else {
        assert LinkOk(g, dist, prev, stamp, x);
      }
    }
  }

  /** Lowering the distance of `v` through the edge `j` of `u` and queueing it keeps the frontier and the keys. */
  lemma RelaxKeepsFrontier(g: seq<Nodo>, dist: seq<Dist>, pq: seq<Entry>, u: nat, j: nat)
    requires Closed(g) && Keyed(g, dist, pq) && Frontier(g, dist, pq, u, j)
    requires u < |g| && dist[u].Finite? && j < |g[u].vecinos|
    requires Below(Plus(dist[u], g[u].vecinos[j].1), dist[g[u].vecinos[j].0])
    ensures var (v, w) := g[u].vecinos[j];
      var dist' := dist[v := Plus(dist[u], w)];
      Decreased(dist', dist) &&
      Keyed(g, dist', pq + [(dist[u].value + w, v)]) &&
      Frontier(g, dist', pq + [(dist[u].value + w, v)], u, j + 1)
  {
    var (v, w) := g[u].vecinos[j];
    var dist' := dist[v := Plus(dist[u], w)];
    var pq' := pq + [(dist[u].value + w, v)];
    assert v != u;
    assert Decreased(dist', dist);
    forall x | 0 <= x < |g| && dist'[x].Finite? && x != v && (dist'[x].value, x) !in pq'
      ensures RelaxedUpTo(g, dist', x, if x == u then j + 1 else |g[x].vecinos|)
    {
      assert (dist[x].value, x) !in pq;
      if x == u {
        RelaxedMonotone(g, dist, dist', x, j);
      } else {
        RelaxedMonotone(g, dist, dist', x, |g[x].vecinos|);
      }
    }
    assert (dist'[v].value, v) in pq';
  }

  /** An edge that does not lower its far end is already relaxed. */
  lemma NoRelaxKeepsFrontier(g: seq<Nodo>, dist: seq<Dist>, pq: seq<Entry>, u: nat, j: nat)
    requires Closed(g) && |dist| == |g| && Frontier(g, dist, pq, u, j)
    requires u < |g| && dist[u].Finite? && j < |g[u].vecinos|
    requires !Below(Plus(dist[u], g[u].vecinos[j].1), dist[g[u].vecinos[j].0])
    ensures Frontier(g, dist, pq, u, j + 1)
  {
  }

  // ---------------------------------------------------------------------------
  // Termination of the main loop

  function InfCount(d: seq<Dist>): nat
  {
    if d == [] then 0 else (if d[0].Infinite? then 1 else 0) + InfCount(d[1..])
  }

  function FinSum(d: seq<Dist>): nat
  {
    if d == [] then 0 else (if d[0].Finite? then d[0].value else 0) + FinSum(d[1..])
  }

  /**
   * Lowering distances never adds an infinite one, and lowering at least one
   * either makes an infinite distance finite or lowers the sum of the finite ones.
   */
  lemma {:induction false} DecreasedMeasure(d: seq<Dist>, d0: seq<Dist>)
    requires Decreased(d, d0)
    ensures InfCount(d) <= InfCount(d0)
    ensures InfCount(d) == InfCount(d0) ==> FinSum(d) <= FinSum(d0)
    ensures d != d0 ==> InfCount(d) < InfCount(d0) || FinSum(d) < FinSum(d0)
  {
    if d != [] {
      assert Decreased(d[1..], d0[1..]);
      DecreasedMeasure(d[1..], d0[1..]);
      assert d == [d[0]] + d[1..] && d0 == [d0[0]] + d0[1..];
    }
  }

  // ---------------------------------------------------------------------------
  // The path along the links

  /** The nodes met following the links back from `v`, in walk order (origin first). */
  ghost function Chain(g: seq<Nodo>, s: nat, dist: seq<Dist>, prev: seq<int>, stamp: seq<nat>, time: nat, v: nat): (c: seq<nat>)
    requires PrevLinks(g, s, dist, prev, stamp, time) && v < |g|
    ensures IsWalk(g, c) && c[|c| - 1] == v
    ensures dist[v].Finite? ==> c[0] == s && Cost(g, c) <= dist[v].value
    ensures prev[v] == -1 ==> c == [v]
    decreases if dist[v].Finite? then dist[v].value else 0, stamp[v]
  {
    if prev[v] == -1 then [v]
    else
      assert LinkOk(g, dist, prev, stamp, v);
      var u := prev[v];
      var c := Chain(g, s, dist, prev, stamp, time, u) + [v];
      assert c[..|c| - 1] == Chain(g, s, dist, prev, stamp, time, u);
      c
  }

  /** `std::reverse`: the same entries, back to front. */
  function Reverse<T>(s: seq<T>): (r: seq<T>)
    ensures |r| == |s|
    ensures forall i :: 0 <= i < |s| ==> r[i] == s[|s| - 1 - i]
  {
    if s == [] then [] else [s[|s| - 1]] + Reverse(s[..|s| - 1])
  }

  // ---------------------------------------------------------------------------
  // The search

  /** The invariants of the search while the edges of `u` before position `m` are relaxed. */
  ghost predicate Searching(g: seq<Nodo>, s: nat, dist: seq<Dist>, prev: seq<int>, stamp: seq<nat>, time: nat,
                            pq: seq<Entry>, u: int, m: nat)
  {
    PrevLinks(g, s, dist, prev, stamp, time) && Keyed(g, dist, pq) && Frontier(g, dist, pq, u, m)
  }

  /** One improving relaxation step keeps the invariants and lowers only the far end's distance. */
  lemma RelaxStep(g: seq<Nodo>, s: nat, dist: seq<Dist>, prev: seq<int>, stamp: seq<nat>, time: nat,
                  pq: seq<Entry>, u: nat, j: nat,
                  dist': seq<Dist>, prev': seq<int>, stamp': seq<nat>, pq': seq<Entry>)
    requires Closed(g) && u < |g| && Searching(g, s, dist, prev, stamp, time, pq, u, j)
    requires dist[u].Finite? && j < |g[u].vecinos|
    requires Below(Plus(dist[u], g[u].vecinos[j].1), dist[g[u].vecinos[j].0])
    requires dist' == dist[g[u].vecinos[j].0 := Plus(dist[u], g[u].vecinos[j].1)]
    requires prev' == prev[g[u].vecinos[j].0 := u]
    requires stamp' == stamp[g[u].vecinos[j].0 := time]
    requires pq' == pq + [(dist[u].value + g[u].vecinos[j].1, g[u].vecinos[j].0)]
    ensures Searching(g, s, dist', prev', stamp', time + 1, pq', u, j + 1)
    ensures Decreased(dist', dist) && dist'[u] == dist[u] && dist' != dist
  {
    RelaxKeepsLinks(g, s, dist, prev, stamp, time, u, j);
    RelaxKeepsFrontier(g, dist, pq, u, j);
    var v := g[u].vecinos[j].0;
    assert dist'[v] != dist[v];
  }

  /** Lowering distances twice lowers them. */
  lemma DecreasedTransitive(d2: seq<Dist>, d1: seq<Dist>, d0: seq<Dist>)
    requires Decreased(d2, d1) && Decreased(d1, d0)
    ensures Decreased(d2, d0)
  {
  }

  /** Distances that were lowered somewhere differ from the originals even after lowering further. */
  lemma DecreasedStaysApart(d2: seq<Dist>, d1: seq<Dist>, d0: seq<Dist>)
    requires Decreased(d2, d1) && Decreased(d1, d0) && d1 != d0
    ensures d2 != d0
  {
    var i :| 0 <= i < |d1| && d1[i] != d0[i];
    assert NoGreater(d2[i], d1[i]) && NoGreater(d1[i], d0[i]);
  }

  /** Once all of u's edges are relaxed, u needs no exception in the frontier. */
  lemma FrontierComplete(g: seq<Nodo>, dist: seq<Dist>, pq: seq<Entry>, u: nat)
    requires |dist| == |g| && u < |g| && Frontier(g, dist, pq, u, |g[u].vecinos|)
    ensures Frontier(g, dist, pq, -1, 0)
  {
    assert forall x :: 0 <= x < |g| ==> (if x == u then |g[u].vecinos| else |g[x].vecinos|) == |g[x].vecinos|;
  }

  /**
   * One pass of the inner loop of `dijkstra` (the `j`-th neighbour of `u`):
   * when `dist[u] + peso < dist[v]`, lower `dist[v]`, link `v` to `u` and queue `v`.
   */
  method RelaxEdge(g: seq<Nodo>, ghost s: nat, u: nat, j: nat, dist: seq<Dist>, prev: seq<int>, pq: seq<Entry>,
                   ghost stamp: seq<nat>, ghost time: nat)
    returns (dist': seq<Dist>, prev': seq<int>, pq': seq<Entry>, ghost stamp': seq<nat>, ghost time': nat)
    requires Closed(g) && u < |g| && j < |g[u].vecinos|
    requires Searching(g, s, dist, prev, stamp, time, pq, u, j)
    requires dist[u].Finite?
    ensures Searching(g, s, dist', prev', stamp', time', pq', u, j + 1)
    ensures Decreased(dist', dist) && dist'[u] == dist[u]
    ensures dist' == dist ==> pq' == pq
  {
    var v, peso := g[u].vecinos[j].0, g[u].vecinos[j].1;
    if Below(Plus(dist[u], peso), dist[v]) {
      dist', prev' := dist[v := Plus(dist[u], peso)], prev[v := u];
      stamp', time' := stamp[v := time], time + 1;
      pq' := pq + [(dist[u].value + peso, v)];
      RelaxStep(g, s, dist, prev, stamp, time, pq, u, j, dist', prev', stamp', pq');
    } else {
      NoRelaxKeepsFrontier(g, dist, pq, u, j);
      dist', prev', pq', stamp', time' := dist, prev, pq, stamp, time;
    }
  }

  /**
   * The inner loop of `dijkstra`: relax every edge out of the popped node `u`.
   * Distances only go down, and the queue grows only when one does.
   */
  method RelaxEdges(g: seq<Nodo>, ghost s: nat, u: nat, dist0: seq<Dist>, prev0: seq<int>, pq0: seq<Entry>,
                    ghost stamp0: seq<nat>, ghost time0: nat)
    returns (dist: seq<Dist>, prev: seq<int>, pq: seq<Entry>, ghost stamp: seq<nat>, ghost time: nat)
    requires Closed(g) && u < |g|
    requires Searching(g, s, dist0, prev0, stamp0, time0, pq0, u, 0)
    requires dist0[u].Finite?
    ensures Searching(g, s, dist, prev, stamp, time, pq, -1, 0)
    ensures Decreased(dist, dist0)
    ensures dist == dist0 ==> pq == pq0
  {
    dist, prev, pq, stamp, time := dist0, prev0, pq0, stamp0, time0;
    var j := 0;
    while j < |g[u].vecinos|
      invariant j <= |g[u].vecinos|
      invariant Searching(g, s, dist, prev, stamp, time, pq, u, j)
      invariant Decreased(dist, dist0) && dist[u] == dist0[u]
      invariant dist == dist0 ==> pq == pq0
    {
      ghost var before := dist;
      dist, prev, pq, stamp, time := RelaxEdge(g, s, u, j, dist, prev, pq, stamp, time);
      DecreasedTransitive(dist, before, dist0);
      if before != dist0 {
        DecreasedStaysApart(dist, before, dist0);
      }
      j := j + 1;
    }
    FrontierComplete(g, dist, pq, u);
  }

  /**
   * The search loop of `dijkstra`: pop the least entry, stop if it names the
   * destination, otherwise relax the edges of its node. On exit the links are
   * well ranked and the destination's distance bounds every walk to it.
   */
  method Search(nodos: seq<Nodo>, inicio: nat, destino: nat)
    returns (dist: seq<Dist>, prev: seq<int>, ghost stamp: seq<nat>, ghost time: nat)
    requires Closed(nodos)
    requires inicio < |nodos| && destino < |nodos|
    ensures PrevLinks(nodos, inicio, dist, prev, stamp, time)
    ensures Bounds(nodos, inicio, destino, dist)
  {
    var n := |nodos|;
    dist := seq(n, _ => Infinite);
    prev := seq(n, _ => -1);
    stamp := seq(n, _ => 0);
    time := 1;
    dist := dist[inicio := Finite(0)];
    var pq := [(0, inicio)];
    ghost var found := false;
    while pq != []
      invariant Searching(nodos, inicio, dist, prev, stamp, time, pq, -1, 0)
      invariant !found
      decreases InfCount(dist), FinSum(dist), |pq|
    {
      var k := Top(pq);
      var u := pq[k].1;
      ghost var queued := pq;
      pq := Pop(pq, k);
      if u == destino {
        BoundsWhenPopped(nodos, inicio, destino, dist, queued, k);
        found := true;
        break;
      }
      PopKeeps(nodos, dist, queued, k);
      ghost var dist0 := dist;
      dist, prev, pq, stamp, time := RelaxEdges(nodos, inicio, u, dist, prev, pq, stamp, time);
      DecreasedMeasure(dist, dist0);
    }
    if !found {
      BoundsWhenExhausted(nodos, inicio, destino, dist);
    }
  }

  /** Following the links from a node that has one adds that node after the chain of its predecessor. */
  lemma ChainStep(g: seq<Nodo>, s: nat, dist: seq<Dist>, prev: seq<int>, stamp: seq<nat>, time: nat,
                  v: nat, rest: seq<nat>)
    requires PrevLinks(g, s, dist, prev, stamp, time) && v < |g|
    ensures -1 <= prev[v] < |g|
    ensures prev[v] != -1 ==>
      Chain(g, s, dist, prev, stamp, time, prev[v]) + Reverse(rest + [v]) ==
      Chain(g, s, dist, prev, stamp, time, v) + Reverse(rest)
    ensures prev[v] == -1 ==> Reverse(rest + [v]) == Chain(g, s, dist, prev, stamp, time, v) + Reverse(rest)
  {
    assert (rest + [v])[..|rest|] == rest;
    assert Reverse(rest + [v]) == [v] + Reverse(rest);
    if prev[v] != -1 {
      assert LinkOk(g, dist, prev, stamp, v);
      var c := Chain(g, s, dist, prev, stamp, time, prev[v]);
      assert Chain(g, s, dist, prev, stamp, time, v) == c + [v];
      assert c + ([v] + Reverse(rest)) == (c + [v]) + Reverse(rest);
    }
  }

  /**
   * Once the destination's distance bounds every walk to it, the chain of links
   * back from it is a shortest walk if there is any walk, and is the destination
   * alone otherwise.
   */
  lemma ChainIsShortest(g: seq<Nodo>, s: nat, t: nat, dist: seq<Dist>, prev: seq<int>, stamp: seq<nat>, time: nat)
    requires PrevLinks(g, s, dist, prev, stamp, time) && t < |g|
    requires Bounds(g, s, t, dist)
    ensures Reachable(g, s, t) ==> IsShortestWalk(g, Chain(g, s, dist, prev, stamp, time, t), s, t)
    ensures !Reachable(g, s, t) ==> Chain(g, s, dist, prev, stamp, time, t) == [t]
  {
    var c := Chain(g, s, dist, prev, stamp, time, t);
    assert dist[t].Finite? ==> IsWalkFrom(g, c, s, t);
    if Reachable(g, s, t) {
      var p :| IsWalkFrom(g, p, s, t);
      assert Within(dist[t], Cost(g, p));
      forall q | IsWalkFrom(g, q, s, t)
        ensures Cost(g, c) <= Cost(g, q)
      {
        assert Within(dist[t], Cost(g, q));
      }
    } else {
      assert prev[t] == -1;
    }
  }

  /**
   * The reconstruction at the end of `dijkstra`: push the nodes met following
   * `prev` back from `destino` until the link -1, then reverse them.
   */
  method Rebuild(nodos: seq<Nodo>, ghost inicio: nat, destino: nat, prev: seq<int>,
                 ghost dist: seq<Dist>, ghost stamp: seq<nat>, ghost time: nat)
    returns (camino: seq<nat>)
    requires PrevLinks(nodos, inicio, dist, prev, stamp, time) && destino < |nodos|
    ensures camino == Chain(nodos, inicio, dist, prev, stamp, time, destino)
  {
    ghost var chain := Chain(nodos, inicio, dist, prev, stamp, time, destino);
    ghost var ahead := chain;
    camino := [];
    var at: int := destino;
    while at != -1
      invariant -1 <= at < |nodos|
      invariant at == -1 ==> ahead == []
      invariant at != -1 ==> ahead == Chain(nodos, inicio, dist, prev, stamp, time, at)
      invariant ahead + Reverse(camino) == chain
      decreases |ahead|
    {
      ChainStep(nodos, inicio, dist, prev, stamp, time, at, camino);
      camino := camino + [at];
      ahead := if prev[at] == -1 then [] else Chain(nodos, inicio, dist, prev, stamp, time, prev[at]);
      at := prev[at];
    }
    assert [] + Reverse(camino) == Reverse(camino);
    camino := Reverse(camino);
  }

  /**
   * `dijkstra(inicio, destino)`: the path found, origin first. It always ends
   * with `destino`; it is `[destino]` when `destino` cannot be reached (or is the
   * origin), and otherwise a walk from `inicio` of least total weight.
   */
  method Dijkstra(nodos: seq<Nodo>, inicio: nat, destino: nat) returns (camino: seq<nat>)
    requires Closed(nodos)
    requires inicio < |nodos| && destino < |nodos|
    ensures |camino| > 0 && camino[|camino| - 1] == destino
    ensures inicio == destino ==> camino == [destino]
    ensures Reachable(nodos, inicio, destino) ==> IsShortestWalk(nodos, camino, inicio, destino)
    ensures !Reachable(nodos, inicio, destino) ==> camino == [destino]
  {
    var dist, prev, stamp, time := Search(nodos, inicio, destino);
    ChainIsShortest(nodos, inicio, destino, dist, prev, stamp, time);
    camino := Rebuild(nodos, inicio, destino, prev, dist, stamp, time);
  }
}
