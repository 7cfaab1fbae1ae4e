// The immutable directed graph in compressed sparse row form: every vertex
// owns one block of the incidence array, its outgoing edge ids followed by its
// incoming edge ids, each in edge order.
module ImmutableGraphModel {
  import opened Wrappers

  datatype Edge = Edge(from: int, to: int)

  /** Per-vertex counts and the start of the vertex's incidence block. */
  datatype VertexInfo = VertexInfo(numEdgesFrom: int, numEdgesTo: int, firstEdge: int)

  datatype Graph = Graph(edgeInfo: seq<Edge>, vertInfo: seq<VertexInfo>, incidenceInfo: seq<int>)

  // ---------------------------------------------------------------------------
  // Reference definitions over the edge list

  /** The ids below `n` of the edges leaving `v`, in increasing order. */
  function Out(edges: seq<Edge>, v: int, n: int): seq<int>
    requires 0 <= n <= |edges|
  {
    if n == 0 then [] else Out(edges, v, n - 1) + (if edges[n - 1].from == v then [n - 1] else [])
  }

  /** The ids below `n` of the edges entering `v`, in increasing order. */
  function In(edges: seq<Edge>, v: int, n: int): seq<int>
    requires 0 <= n <= |edges|
  {
    if n == 0 then [] else In(edges, v, n - 1) + (if edges[n - 1].to == v then [n - 1] else [])
  }

  /** Where the incidence block of `v` starts: the sizes of the blocks of all lower vertices. */
  function Offset(edges: seq<Edge>, v: nat): nat
  {
    if v == 0 then 0
    else Offset(edges, v - 1) + |Out(edges, v - 1, |edges|)| + |In(edges, v - 1, |edges|)|
  }

  /** The greatest endpoint, or -1 for no edges. */
  function MaxVertex(edges: seq<Edge>): int
  {
    if |edges| == 0 then -1
    else
      var e := edges[|edges| - 1];
      var m := MaxVertex(edges[..|edges| - 1]);
      if e.from >= m && e.from >= e.to then e.from else if e.to >= m then e.to else m
  }

  /** Two edges with the same endpoints. */
  ghost predicate HasDuplicates(edges: seq<Edge>)
  {
    exists i, j :: 0 <= i < j < |edges| && edges[i] == edges[j]
  }

  predicate Endpoints(edges: seq<Edge>, n: int)
  {
    forall e :: 0 <= e < |edges| ==> 0 <= edges[e].from < n && 0 <= edges[e].to < n
  }

  /** Each vertex's counts and block start, with the block inside the incidence array. */
  ghost predicate Blocks(g: Graph)
  {
    var edges, n := g.edgeInfo, |g.vertInfo|;
    && |g.incidenceInfo| == Offset(edges, n)
    && forall v {:trigger g.vertInfo[v]} :: 0 <= v < n ==>
      && g.vertInfo[v] == VertexInfo(|Out(edges, v, |edges|)|, |In(edges, v, |edges|)|, Offset(edges, v))
      && Offset(edges, v) + |Out(edges, v, |edges|)| + |In(edges, v, |edges|)| <= |g.incidenceInfo|
  }

  /** The block of `v` lists its outgoing edges, then its incoming edges. */
  ghost predicate Incidences(g: Graph, v: int)
    requires Blocks(g) && 0 <= v < |g.vertInfo|
  {
    var edges := g.edgeInfo;
    var out, inc, first := Out(edges, v, |edges|), In(edges, v, |edges|), Offset(edges, v);
    && assert g.vertInfo[v].firstEdge == first;
      (forall k :: 0 <= k < |out| ==> g.incidenceInfo[first + k] == out[k])
    && (forall k :: 0 <= k < |inc| ==> g.incidenceInfo[first + |out| + k] == inc[k])
  }

  /**
   * The layout the constructor builds: valid endpoints and, for each vertex,
   * its counts, its block start and, in the block, its outgoing then its
   * incoming edge ids.
   */
  ghost predicate Structured(g: Graph)
  {
    && Endpoints(g.edgeInfo, |g.vertInfo|)
    && Blocks(g)
    && forall v :: 0 <= v < |g.vertInfo| ==> Incidences(g, v)
  }

  /** What every constructed graph satisfies: the layout, and no duplicate edges. */
  ghost predicate Valid(g: Graph)
  {
    Structured(g) && !HasDuplicates(g.edgeInfo)
  }

  function NumVerts(g: Graph): int { |g.vertInfo| }
  function NumEdges(g: Graph): int { |g.edgeInfo| }

  // ---------------------------------------------------------------------------
  // Facts about the reference definitions

  lemma {:induction false} OutMembers(edges: seq<Edge>, v: int, n: int)
    requires 0 <= n <= |edges|
    ensures forall e :: e in Out(edges, v, n) <==> 0 <= e < n && edges[e].from == v
    ensures forall i, j :: 0 <= i < j < |Out(edges, v, n)| ==> Out(edges, v, n)[i] < Out(edges, v, n)[j]
  {
    if n > 0 {
      var prev := Out(edges, v, n - 1);
      OutMembers(edges, v, n - 1);
      assert forall i :: 0 <= i < |prev| ==> prev[i] in prev;
    }
  }

  lemma {:induction false} InMembers(edges: seq<Edge>, v: int, n: int)
    requires 0 <= n <= |edges|
    ensures forall e :: e in In(edges, v, n) <==> 0 <= e < n && edges[e].to == v
    ensures forall i, j :: 0 <= i < j < |In(edges, v, n)| ==> In(edges, v, n)[i] < In(edges, v, n)[j]
  {
    if n > 0 {
      var prev := In(edges, v, n - 1);
      InMembers(edges, v, n - 1);
      assert forall i :: 0 <= i < |prev| ==> prev[i] in prev;
    }
  }

  lemma {:induction false} OutGrows(edges: seq<Edge>, v: int, n: int, m: int)
    requires 0 <= n <= m <= |edges|
    ensures |Out(edges, v, n)| <= |Out(edges, v, m)| && |In(edges, v, n)| <= |In(edges, v, m)|
    decreases m
  {
    if n < m {
      OutGrows(edges, v, n, m - 1);
    }
  }

  lemma {:induction false} OffsetGrows(edges: seq<Edge>, u: nat, v: nat)
    requires u <= v
    ensures Offset(edges, u) <= Offset(edges, v)
    decreases v
  {
    if u < v {
      OffsetGrows(edges, u, v - 1);
    }
  }

  lemma {:induction false} MaxVertexBounds(edges: seq<Edge>)
    ensures forall e :: 0 <= e < |edges| ==> edges[e].from <= MaxVertex(edges) && edges[e].to <= MaxVertex(edges)
    ensures MaxVertex(edges) >= -1
    ensures MaxVertex(edges) == -1 || exists e :: 0 <= e < |edges| && MaxVertex(edges) in {edges[e].from, edges[e].to}
  {
    if |edges| > 0 {
      var init := edges[..|edges| - 1];
      MaxVertexBounds(init);
      forall e | 0 <= e < |edges| - 1
        ensures edges[e] == init[e]
      {
      }
      var last := |edges| - 1;
      if MaxVertex(edges) in {edges[last].from, edges[last].to} {
      } else if MaxVertex(init) != -1 {
        var e :| 0 <= e < |init| && MaxVertex(init) in {init[e].from, init[e].to};
        assert edges[e] == init[e];
      }
    }
  }

  /** The block of vertex `v` ends where the block of `v + 1` starts. */
  lemma BlockEnd(edges: seq<Edge>, v: nat)
    ensures Offset(edges, v + 1) == Offset(edges, v) + |Out(edges, v, |edges|)| + |In(edges, v, |edges|)|
  {
  }

  /** Positions in the blocks of two different vertices differ. */
  lemma Disjoint(edges: seq<Edge>, u: nat, v: nat, p: int, q: int)
    requires u != v
    requires Offset(edges, u) <= p < Offset(edges, u + 1) && Offset(edges, v) <= q < Offset(edges, v + 1)
    ensures p != q
  {
    if u < v {
      OffsetGrows(edges, u + 1, v);
    } else {
      OffsetGrows(edges, v + 1, u);
    }
  }

  // ---------------------------------------------------------------------------
  // The constructor

  /** The first loop of the constructor: one more than the greatest endpoint. */
  method CountVerts(edges: seq<Edge>) returns (numVerts: int)
    ensures numVerts == MaxVertex(edges) + 1
  {
    var maxNode := -1;
    for i := 0 to |edges|
      invariant maxNode == MaxVertex(edges[..i])
    {
      var e := edges[i];
      assert edges[..i + 1][..i] == edges[..i];
      if e.from >= maxNode && e.from >= e.to {
        maxNode := e.from;
      } else if e.to >= maxNode {
        maxNode := e.to;
      }
    }
    assert edges[..|edges|] == edges;
    numVerts := maxNode + 1;
  }

  /** The second loop: how many edges leave and enter each vertex. */
  method CountEdges(edges: seq<Edge>, n: nat) returns (numFrom: array<int>, numTo: array<int>)
    requires Endpoints(edges, n)
    ensures fresh(numFrom) && fresh(numTo) && numFrom.Length == n == numTo.Length
    ensures forall v :: 0 <= v < n ==> numFrom[v] == |Out(edges, v, |edges|)| && numTo[v] == |In(edges, v, |edges|)|
  {
    numFrom := new int[n](_ => 0);
    numTo := new int[n](_ => 0);
    for i := 0 to |edges|
      invariant forall v :: 0 <= v < n ==> numFrom[v] == |Out(edges, v, i)| && numTo[v] == |In(edges, v, i)|
    {
      var e := edges[i];
      numFrom[e.from] := numFrom[e.from] + 1;
      numTo[e.to] := numTo[e.to] + 1;
    }
  }

  /**
   * The third loop: each vertex's block start, and the positions where its
   * outgoing and its incoming edge ids go next.
   */
  method ComputeOffsets(edges: seq<Edge>, numFrom: seq<int>, numTo: seq<int>)
      returns (first: seq<int>, fromPos: seq<int>, toPos: seq<int>, total: int)
    requires |numFrom| == |numTo|
    requires forall v :: 0 <= v < |numFrom| ==>
      numFrom[v] == |Out(edges, v, |edges|)| && numTo[v] == |In(edges, v, |edges|)|
    ensures |first| == |fromPos| == |toPos| == |numFrom|
    ensures total == Offset(edges, |numFrom|)
    ensures forall v {:trigger first[v]} {:trigger fromPos[v]} {:trigger toPos[v]} :: 0 <= v < |numFrom| ==>
      first[v] == Offset(edges, v) == fromPos[v] && toPos[v] == Offset(edges, v) + |Out(edges, v, |edges|)|
  {
    first, fromPos, toPos := [], [], [];
    total := 0;
    for v := 0 to |numFrom|
      invariant |first| == |fromPos| == |toPos| == v
      invariant total == Offset(edges, v)
      invariant forall u {:trigger first[u]} {:trigger fromPos[u]} {:trigger toPos[u]} :: 0 <= u < v ==>
        first[u] == Offset(edges, u) == fromPos[u] && toPos[u] == Offset(edges, u) + |Out(edges, u, |edges|)|
    {
      BlockEnd(edges, v);
      ghost var start := Offset(edges, v);
      ghost var outs := |Out(edges, v, |edges|)|;
      assert numFrom[v] == outs;
      first := first + [total];
      fromPos := fromPos + [total];
      toPos := toPos + [total + numFrom[v]];
      total := total + numFrom[v] + numTo[v];
      assert first[v] == start == fromPos[v] && toPos[v] == start + outs;
    }
  }

  /** Entry `k` of the outgoing part of `v` holds the `k`-th outgoing edge below `i`. */
  ghost predicate OutPlaced(edges: seq<Edge>, inc: seq<int>, i: int, v: nat, k: int)
    requires 0 <= i <= |edges|
  {
    0 <= k < |Out(edges, v, i)| ==>
      0 <= Offset(edges, v) + k < |inc| && inc[Offset(edges, v) + k] == Out(edges, v, i)[k]
  }

  /** Entry `k` of the incoming part of `v` holds the `k`-th incoming edge below `i`. */
  ghost predicate InPlaced(edges: seq<Edge>, inc: seq<int>, i: int, v: nat, k: int)
    requires 0 <= i <= |edges|
  {
    var p := Offset(edges, v) + |Out(edges, v, |edges|)| + k;
    0 <= k < |In(edges, v, i)| ==> 0 <= p < |inc| && inc[p] == In(edges, v, i)[k]
  }

  /** The incidence array after the first `i` edges have been placed. */
  ghost predicate Filled(edges: seq<Edge>, inc: seq<int>, fromPos: seq<int>, toPos: seq<int>, i: int)
    requires 0 <= i <= |edges|
  {
    var n := |fromPos|;
    && |toPos| == n
    && |inc| == Offset(edges, n)
    && (forall v {:trigger fromPos[v]} {:trigger toPos[v]} :: 0 <= v < n ==>
          fromPos[v] == Offset(edges, v) + |Out(edges, v, i)|
          && toPos[v] == Offset(edges, v) + |Out(edges, v, |edges|)| + |In(edges, v, i)|)
    && (forall v: nat, k :: v < n ==> OutPlaced(edges, inc, i, v, k))
    && (forall v: nat, k :: v < n ==> InPlaced(edges, inc, i, v, k))
  }

  /** An endpoint of edge `i` is a vertex. */
  lemma EndpointsAt(edges: seq<Edge>, n: int, i: int)
    requires 0 <= i < |edges| && Endpoints(edges, n)
    ensures 0 <= edges[i].from < n && 0 <= edges[i].to < n
  {
  }

  /** The sizes and the next positions that `Filled` records. */
  lemma FilledPositions(edges: seq<Edge>, inc: seq<int>, fromPos: seq<int>, toPos: seq<int>, i: int, v: int)
    requires 0 <= i <= |edges| && Filled(edges, inc, fromPos, toPos, i) && 0 <= v < |fromPos|
    ensures |toPos| == |fromPos| && |inc| == Offset(edges, |fromPos|)
    ensures fromPos[v] == Offset(edges, v) + |Out(edges, v, i)|
    ensures toPos[v] == Offset(edges, v) + |Out(edges, v, |edges|)| + |In(edges, v, i)|
  {
  }

  /** The next outgoing position of `v` lies in its outgoing part, the next incoming one in its incoming part. */
  lemma NextPositions(edges: seq<Edge>, fromPos: seq<int>, toPos: seq<int>, inc: seq<int>, i: int)
    requires 0 <= i < |edges| && Endpoints(edges, |fromPos|) && Filled(edges, inc, fromPos, toPos, i)
    ensures var a, b := edges[i].from, edges[i].to;
      && 0 <= a < |fromPos| && 0 <= b < |fromPos| && |toPos| == |fromPos|
      && Offset(edges, a) <= fromPos[a] < Offset(edges, a) + |Out(edges, a, |edges|)|
      && Offset(edges, b) + |Out(edges, b, |edges|)| <= toPos[b] < Offset(edges, b + 1)
      && Offset(edges, b + 1) <= |inc|
      && Offset(edges, a + 1) <= |inc|
  {
    hide *;
    var a, b := edges[i].from, edges[i].to;
    EndpointsAt(edges, |fromPos|, i);
    FilledPositions(edges, inc, fromPos, toPos, i, a);
    FilledPositions(edges, inc, fromPos, toPos, i, b);
    OutStep(edges, a, i);
    OutStep(edges, b, i);
    OutGrows(edges, a, i + 1, |edges|);
    OutGrows(edges, b, i + 1, |edges|);
    BlockEnd(edges, a);
    BlockEnd(edges, b);
    OffsetGrows(edges, b + 1, |fromPos|);
    OffsetGrows(edges, a + 1, |fromPos|);
  }

  lemma OutStep(edges: seq<Edge>, v: int, i: int)
    requires 0 <= i < |edges|
    ensures Out(edges, v, i + 1) == Out(edges, v, i) + (if edges[i].from == v then [i] else [])
    ensures In(edges, v, i + 1) == In(edges, v, i) + (if edges[i].to == v then [i] else [])
  {
  }

  lemma OutPlacedMeans(edges: seq<Edge>, inc: seq<int>, i: int, v: nat, k: int)
    requires 0 <= i <= |edges|
    ensures OutPlaced(edges, inc, i, v, k) <==> (0 <= k < |Out(edges, v, i)| ==>
      0 <= Offset(edges, v) + k < |inc| && inc[Offset(edges, v) + k] == Out(edges, v, i)[k])
  {
  }

  lemma InPlacedMeans(edges: seq<Edge>, inc: seq<int>, i: int, v: nat, k: int)
    requires 0 <= i <= |edges|
    ensures InPlaced(edges, inc, i, v, k) <==> (0 <= k < |In(edges, v, i)| ==>
      var p := Offset(edges, v) + |Out(edges, v, |edges|)| + k;
      0 <= p < |inc| && inc[p] == In(edges, v, i)[k])
  {
  }

  /** What `Filled` says about vertex `v` and about the endpoints of edge `i`. */
  lemma FilledAt(edges: seq<Edge>, inc: seq<int>, fromPos: seq<int>, toPos: seq<int>, i: int, v: nat, k: int)
    requires 0 <= i < |edges| && Endpoints(edges, |fromPos|) && Filled(edges, inc, fromPos, toPos, i)
    requires v < |fromPos|
    ensures OutPlaced(edges, inc, i, v, k) && InPlaced(edges, inc, i, v, k)
    ensures var a, b := edges[i].from, edges[i].to;
      && 0 <= a < |fromPos| && 0 <= b < |fromPos| && |toPos| == |fromPos|
      && fromPos[a] == Offset(edges, a) + |Out(edges, a, i)|
      && toPos[b] == Offset(edges, b) + |Out(edges, b, |edges|)| + |In(edges, b, i)|
  {
  }

  /** Placing edge `i` keeps entry `k` of the outgoing part of `v` right. */
  lemma OutPlacedStep(edges: seq<Edge>, inc: seq<int>, fromPos: seq<int>, toPos: seq<int>, i: int, v: nat, k: int)
    requires 0 <= i < |edges| && Endpoints(edges, |fromPos|) && Filled(edges, inc, fromPos, toPos, i)
    requires v < |fromPos|
    requires 0 <= fromPos[edges[i].from] < |inc| && 0 <= toPos[edges[i].to] < |inc|
    ensures OutPlaced(edges, inc[fromPos[edges[i].from] := i][toPos[edges[i].to] := i], i + 1, v, k)
  {
    hide *;
    var a, b := edges[i].from, edges[i].to;
    FilledAt(edges, inc, fromPos, toPos, i, v, k);
    var pa, pb := fromPos[a], toPos[b];
    var inc' := inc[pa := i][pb := i];
    var before, after := Out(edges, v, i), Out(edges, v, i + 1);
    OutStep(edges, v, i);
    OutPlacedMeans(edges, inc, i, v, k);
    OutPlacedMeans(edges, inc', i + 1, v, k);
    if 0 <= k < |after| {
      NextPositions(edges, fromPos, toPos, inc, i);
      OutGrows(edges, v, i + 1, |edges|);
      BlockEnd(edges, v);
      BlockEnd(edges, a);
      BlockEnd(edges, b);
      var p := Offset(edges, v) + k;
      if v != b {
        Disjoint(edges, v, b, p, pb);
      }
      if k < |before| {
        if v != a {
          Disjoint(edges, v, a, p, pa);
        }
        assert inc'[p] == inc[p] == before[k] == after[k];
      } else {
        assert inc'[p] == i == after[k];
      }
    }
  }

  /** Placing edge `i` keeps entry `k` of the incoming part of `v` right. */
  lemma InPlacedStep(edges: seq<Edge>, inc: seq<int>, fromPos: seq<int>, toPos: seq<int>, i: int, v: nat, k: int)
    requires 0 <= i < |edges| && Endpoints(edges, |fromPos|) && Filled(edges, inc, fromPos, toPos, i)
    requires v < |fromPos|
    requires 0 <= fromPos[edges[i].from] < |inc| && 0 <= toPos[edges[i].to] < |inc|
    ensures InPlaced(edges, inc[fromPos[edges[i].from] := i][toPos[edges[i].to] := i], i + 1, v, k)
  {
    hide *;
    var a, b := edges[i].from, edges[i].to;
    FilledAt(edges, inc, fromPos, toPos, i, v, k);
    var pa, pb := fromPos[a], toPos[b];
    var inc' := inc[pa := i][pb := i];
    var before, after := In(edges, v, i), In(edges, v, i + 1);
    OutStep(edges, v, i);
    InPlacedMeans(edges, inc, i, v, k);
    InPlacedMeans(edges, inc', i + 1, v, k);
    if 0 <= k < |after| {
      NextPositions(edges, fromPos, toPos, inc, i);
      OutGrows(edges, v, i + 1, |edges|);
      BlockEnd(edges, v);
      BlockEnd(edges, a);
      BlockEnd(edges, b);
      var p := Offset(edges, v) + |Out(edges, v, |edges|)| + k;
      if v != a {
        Disjoint(edges, v, a, p, pa);
      }
      if k < |before| {
        if v != b {
          Disjoint(edges, v, b, p, pb);
        }
        assert inc'[p] == inc[p] == before[k] == after[k];
      } else {
        assert inc'[p] == i == after[k];
      }
    }
  }

  /** `Filled` from its parts. */
  lemma FilledIntro(edges: seq<Edge>, inc: seq<int>, fromPos: seq<int>, toPos: seq<int>, i: int)
    requires 0 <= i <= |edges| && |toPos| == |fromPos| && |inc| == Offset(edges, |fromPos|)
    requires forall v {:trigger fromPos[v]} {:trigger toPos[v]} :: 0 <= v < |fromPos| ==>
      fromPos[v] == Offset(edges, v) + |Out(edges, v, i)|
      && toPos[v] == Offset(edges, v) + |Out(edges, v, |edges|)| + |In(edges, v, i)|
    requires forall v: nat, k :: v < |fromPos| ==> OutPlaced(edges, inc, i, v, k) && InPlaced(edges, inc, i, v, k)
    ensures Filled(edges, inc, fromPos, toPos, i)
  {
  }

  /** Placing edge `i` moves the next positions of its endpoints on by one. */
  lemma PositionsStep(edges: seq<Edge>, inc: seq<int>, fromPos: seq<int>, toPos: seq<int>, i: int, v: int)
    requires 0 <= i < |edges| && Endpoints(edges, |fromPos|) && Filled(edges, inc, fromPos, toPos, i)
    requires 0 <= v < |fromPos|
    ensures var a, b := edges[i].from, edges[i].to;
      && 0 <= a < |fromPos| && 0 <= b < |toPos|
      && fromPos[a := fromPos[a] + 1][v] == Offset(edges, v) + |Out(edges, v, i + 1)|
      && toPos[b := toPos[b] + 1][v] == Offset(edges, v) + |Out(edges, v, |edges|)| + |In(edges, v, i + 1)|
  {
    hide *;
    EndpointsAt(edges, |fromPos|, i);
    FilledPositions(edges, inc, fromPos, toPos, i, v);
    OutStep(edges, v, i);
  }

  /** Placing edge `i` at the next positions of its endpoints. */
  lemma FilledStep(edges: seq<Edge>, inc: seq<int>, fromPos: seq<int>, toPos: seq<int>, i: int)
    requires 0 <= i < |edges| && Endpoints(edges, |fromPos|) && Filled(edges, inc, fromPos, toPos, i)
    ensures var a, b := edges[i].from, edges[i].to;
      && 0 <= a < |fromPos| && 0 <= b < |toPos|
      && 0 <= fromPos[a] < |inc| && 0 <= toPos[b] < |inc| && fromPos[a] != toPos[b]
      && Filled(edges, inc[fromPos[a] := i][toPos[b] := i], fromPos[a := fromPos[a] + 1], toPos[b := toPos[b] + 1], i + 1)
  {
    hide *;
    var a, b := edges[i].from, edges[i].to;
    NextPositions(edges, fromPos, toPos, inc, i);
    FilledPositions(edges, inc, fromPos, toPos, i, a);
    BlockEnd(edges, a);
    BlockEnd(edges, b);
    if a != b {
      Disjoint(edges, a, b, fromPos[a], toPos[b]);
    }
    var inc' := inc[fromPos[a] := i][toPos[b] := i];
    var fromPos', toPos' := fromPos[a := fromPos[a] + 1], toPos[b := toPos[b] + 1];
    var next := i + 1;
    forall v | 0 <= v < |fromPos'|
      ensures fromPos'[v] == Offset(edges, v) + |Out(edges, v, next)|
      ensures toPos'[v] == Offset(edges, v) + |Out(edges, v, |edges|)| + |In(edges, v, next)|
    {
      PositionsStep(edges, inc, fromPos, toPos, i, v);
    }
    forall v: nat, k | v < |fromPos'|
      ensures OutPlaced(edges, inc', next, v, k) && InPlaced(edges, inc', next, v, k)
    {
      OutPlacedStep(edges, inc, fromPos, toPos, i, v, k);
      InPlacedStep(edges, inc, fromPos, toPos, i, v, k);
    }
    FilledIntro(edges, inc', fromPos', toPos', next);
  }

  /** Before any edge is placed every next position is the start of its part. */
  lemma FilledStart(edges: seq<Edge>, inc: seq<int>, fromPos: seq<int>, toPos: seq<int>)
    requires |toPos| == |fromPos| && |inc| == Offset(edges, |fromPos|)
    requires forall v {:trigger fromPos[v]} {:trigger toPos[v]} :: 0 <= v < |fromPos| ==>
      fromPos[v] == Offset(edges, v) && toPos[v] == Offset(edges, v) + |Out(edges, v, |edges|)|
    ensures Filled(edges, inc, fromPos, toPos, 0)
  {
  }

  /** What `Filled` says once every edge is placed. */
  lemma FilledDone(edges: seq<Edge>, inc: seq<int>, fromPos: seq<int>, toPos: seq<int>)
    requires Filled(edges, inc, fromPos, toPos, |edges|)
    ensures |inc| == Offset(edges, |fromPos|)
    ensures forall v: nat, k :: v < |fromPos| ==> OutPlaced(edges, inc, |edges|, v, k) && InPlaced(edges, inc, |edges|, v, k)
  {
  }

  /** The fourth loop: every edge id goes to the next free entry of each of its endpoints. */
  method Fill(edges: seq<Edge>, n: nat, fromPos: seq<int>, toPos: seq<int>, total: int) returns (inc: seq<int>)
    requires Endpoints(edges, n) && |fromPos| == n == |toPos| && total == Offset(edges, n)
    requires forall v {:trigger fromPos[v]} {:trigger toPos[v]} :: 0 <= v < n ==>
      fromPos[v] == Offset(edges, v) && toPos[v] == Offset(edges, v) + |Out(edges, v, |edges|)|
    ensures |inc| == Offset(edges, n)
    ensures forall v: nat, k :: v < n ==> OutPlaced(edges, inc, |edges|, v, k) && InPlaced(edges, inc, |edges|, v, k)
  {
    inc := seq(total, _ => 0);
    var fp, tp := fromPos, toPos;
    FilledStart(edges, inc, fp, tp);
    for i := 0 to |edges|
      invariant |fp| == n
      invariant Filled(edges, inc, fp, tp, i)
    {
      FilledStep(edges, inc, fp, tp, i);
      var fromAt, toAt := fp[edges[i].from], tp[edges[i].to];
      fp := fp[edges[i].from := fromAt + 1];
      tp := tp[edges[i].to := toAt + 1];
      inc := inc[fromAt := i][toAt := i];
    }
    FilledDone(edges, inc, fp, tp);
  }

  /** The block of `v` when every entry of it is placed. */
  lemma PlacedIncidences(g: Graph, v: int)
    requires Blocks(g) && 0 <= v < |g.vertInfo|
    requires forall k :: OutPlaced(g.edgeInfo, g.incidenceInfo, |g.edgeInfo|, v, k) && InPlaced(g.edgeInfo, g.incidenceInfo, |g.edgeInfo|, v, k)
    ensures Incidences(g, v)
  {
    var edges := g.edgeInfo;
    forall k | 0 <= k < |Out(edges, v, |edges|)|
      ensures 0 <= Offset(edges, v) + k < |g.incidenceInfo|
        && g.incidenceInfo[Offset(edges, v) + k] == Out(edges, v, |edges|)[k]
    {
      OutPlacedMeans(edges, g.incidenceInfo, |edges|, v, k);
    }
    forall k | 0 <= k < |In(edges, v, |edges|)|
      ensures 0 <= Offset(edges, v) + |Out(edges, v, |edges|)| + k < |g.incidenceInfo|
        && g.incidenceInfo[Offset(edges, v) + |Out(edges, v, |edges|)| + k] == In(edges, v, |edges|)[k]
    {
      InPlacedMeans(edges, g.incidenceInfo, |edges|, v, k);
    }
  }

  /** Counts, block starts and placed entries make the constructor's layout. */
  lemma BuiltStructured(edges: seq<Edge>, vertInfo: seq<VertexInfo>, inc: seq<int>)
    requires Endpoints(edges, |vertInfo|) && |inc| == Offset(edges, |vertInfo|)
    requires forall v {:trigger vertInfo[v]} :: 0 <= v < |vertInfo| ==>
      vertInfo[v] == VertexInfo(|Out(edges, v, |edges|)|, |In(edges, v, |edges|)|, Offset(edges, v))
    requires forall v: nat, k :: v < |vertInfo| ==> OutPlaced(edges, inc, |edges|, v, k) && InPlaced(edges, inc, |edges|, v, k)
    ensures Structured(Graph(edges, vertInfo, inc))
  {
    var g := Graph(edges, vertInfo, inc);
    forall v | 0 <= v < |vertInfo|
      ensures Offset(edges, v) + |Out(edges, v, |edges|)| + |In(edges, v, |edges|)| <= |inc|
    {
      BlockEnd(edges, v);
      OffsetGrows(edges, v + 1, |vertInfo|);
    }
    assert Blocks(g);
    forall v | 0 <= v < |vertInfo|
      ensures Incidences(g, v)
    {
      PlacedIncidences(g, v);
    }
  }

  /**
   * The constructor. Without a vertex count there are as many vertices as one
   * more than the greatest endpoint; with one, every endpoint must be below it.
   * The source checks in debug builds, after building, that no edge repeats.
   */
  method Build(edges: seq<Edge>, numVerts: Option<int>) returns (g: Graph)
    requires numVerts.Some? ==> numVerts.value >= 0 && Endpoints(edges, numVerts.value)
    requires forall e :: 0 <= e < |edges| ==> edges[e].from >= 0 && edges[e].to >= 0
    requires !HasDuplicates(edges)
    ensures Valid(g) && g.edgeInfo == edges
    ensures |g.vertInfo| == if numVerts.Some? then numVerts.value else MaxVertex(edges) + 1
  {
    var n: int;
    if numVerts.None? {
      n := CountVerts(edges);
      MaxVertexBounds(edges);
    } else {
      n := numVerts.value;
    }
    var numFrom, numTo := CountEdges(edges, n);
    var nf, nt := numFrom[..], numTo[..];
    var first, fromPos, toPos, total := ComputeOffsets(edges, nf, nt);
    var inc := Fill(edges, n, fromPos, toPos, total);
    var vertInfo := seq(n, v requires 0 <= v < n => VertexInfo(nf[v], nt[v], first[v]));
    BuiltStructured(edges, vertInfo, inc);
    g := Graph(edges, vertInfo, inc);
  }

  // ---------------------------------------------------------------------------
  // Queries

  /** The ids of the edges leaving `v`, read from its block. */
  function EdgesFrom(g: Graph, v: int): (r: seq<int>)
    requires Structured(g) && 0 <= v < NumVerts(g)
    ensures r == Out(g.edgeInfo, v, |g.edgeInfo|)
  {
    var info := g.vertInfo[v];
    assert Incidences(g, v);
    g.incidenceInfo[info.firstEdge..info.firstEdge + info.numEdgesFrom]
  }

  /** The ids of the edges entering `v`, read from its block. */
  function EdgesTo(g: Graph, v: int): (r: seq<int>)
    requires Structured(g) && 0 <= v < NumVerts(g)
    ensures r == In(g.edgeInfo, v, |g.edgeInfo|)
  {
    var info := g.vertInfo[v];
    assert Incidences(g, v);
    g.incidenceInfo[info.firstEdge + info.numEdgesFrom..info.firstEdge + info.numEdgesFrom + info.numEdgesTo]
  }

  /** The ids of all edges at `v`: the whole block. */
  function EdgesAt(g: Graph, v: int): (r: seq<int>)
    requires Structured(g) && 0 <= v < NumVerts(g)
    ensures r == Out(g.edgeInfo, v, |g.edgeInfo|) + In(g.edgeInfo, v, |g.edgeInfo|)
  {
    var info := g.vertInfo[v];
    assert Incidences(g, v);
    var r := g.incidenceInfo[info.firstEdge..info.firstEdge + info.numEdgesFrom + info.numEdgesTo];
    assert r == EdgesFrom(g, v) + EdgesTo(g, v);
    r
  }

  /** Each entry of `Out` and `In` is the id of an edge leaving, or entering, `v`. */
  lemma OutIds(edges: seq<Edge>, v: int, n: int)
    requires 0 <= n <= |edges|
    ensures forall k :: 0 <= k < |Out(edges, v, n)| ==> 0 <= Out(edges, v, n)[k] < n && edges[Out(edges, v, n)[k]].from == v
    ensures forall k :: 0 <= k < |In(edges, v, n)| ==> 0 <= In(edges, v, n)[k] < n && edges[In(edges, v, n)[k]].to == v
  {
    OutMembers(edges, v, n);
    InMembers(edges, v, n);
    var out, inc := Out(edges, v, n), In(edges, v, n);
    assert forall k :: 0 <= k < |out| ==> out[k] in out;
    assert forall k :: 0 <= k < |inc| ==> inc[k] in inc;
  }

  /** Some edge goes from `u` to `w`. */
  ghost predicate Arc(edges: seq<Edge>, u: int, w: int)
  {
    exists e :: 0 <= e < |edges| && edges[e] == Edge(u, w)
  }

  /** The first edge from `from` to `to`, found among the edges leaving `from`. */
  method FindEdge(g: Graph, from: int, to: int) returns (r: Option<int>)
    requires Structured(g) && 0 <= from < NumVerts(g)
    ensures r.None? <==> !Arc(g.edgeInfo, from, to)
    ensures r.Some? ==>
      && 0 <= r.value < |g.edgeInfo| && g.edgeInfo[r.value] == Edge(from, to)
      && forall e :: 0 <= e < r.value ==> g.edgeInfo[e] != Edge(from, to)
  {
    var edges := g.edgeInfo;
    var out := EdgesFrom(g, from);
    OutMembers(edges, from, |edges|);
    OutIds(edges, from, |edges|);
    hide *;
    for i := 0 to |out|
      invariant forall k :: 0 <= k < i ==> edges[out[k]].to != to
    {
      var e := out[i];
      assert e in out;
      if edges[e].to == to {
        forall e' | 0 <= e' < e
          ensures edges[e'] != Edge(from, to)
        {
          if edges[e'].from == from {
            assert e' in out;
            var k :| 0 <= k < |out| && out[k] == e';
            assert k < i;
          }
        }
        return Some(e);
      }
    }
    forall e | 0 <= e < |edges|
      ensures edges[e] != Edge(from, to)
    {
      if edges[e].from == from {
        assert e in out;
        var k :| 0 <= k < |out| && out[k] == e;
      }
    }
    return None;
  }

  /** For every edge its reversed edge. */
  ghost predicate Symmetric(edges: seq<Edge>)
  {
    forall e :: 0 <= e < |edges| ==> Arc(edges, edges[e].to, edges[e].from)
  }

  /** Whether the twin (the reversed edge) of every edge exists. */
  method IsUndirected(g: Graph) returns (r: bool)
    requires Structured(g)
    ensures r <==> Symmetric(g.edgeInfo)
  {
    var edges := g.edgeInfo;
    for e := 0 to |edges|
      invariant forall k :: 0 <= k < e ==> Arc(edges, edges[k].to, edges[k].from)
    {
      var twin := FindEdge(g, edges[e].to, edges[e].from);
      if twin.None? {
        return false;
      }
    }
    return true;
  }

  /** The reversed edges of the edges among `edges[..n]` without a twin in `edges`. */
  function MissingTwins(edges: seq<Edge>, n: int): (r: seq<Edge>)
    requires 0 <= n <= |edges|
    decreases n
  {
    if n == 0 then []
    else
      var e := edges[n - 1];
      MissingTwins(edges, n - 1) + if Edge(e.to, e.from) in edges then [] else [Edge(e.to, e.from)]
  }

  /** The missing twins of the first `n` edges: each is an edge reversed, and each such edge is there. */
  lemma {:induction false} MissingTwinsMembers(edges: seq<Edge>, n: int)
    requires 0 <= n <= |edges|
    ensures forall x :: x in MissingTwins(edges, n) <==>
      x !in edges && exists k :: 0 <= k < n && x == Edge(edges[k].to, edges[k].from)
    decreases n
  {
    if n > 0 {
      MissingTwinsMembers(edges, n - 1);
    }
  }

  /** Without duplicate edges, no missing twin appears twice. */
  lemma {:induction false} MissingTwinsDistinct(edges: seq<Edge>, n: int)
    requires 0 <= n <= |edges| && !HasDuplicates(edges)
    ensures forall i, j :: 0 <= i < j < |MissingTwins(edges, n)| ==> MissingTwins(edges, n)[i] != MissingTwins(edges, n)[j]
    decreases n
  {
    if n > 0 {
      var prev := MissingTwins(edges, n - 1);
      MissingTwinsDistinct(edges, n - 1);
      MissingTwinsMembers(edges, n - 1);
      var e := edges[n - 1];
      var x := Edge(e.to, e.from);
      forall i | 0 <= i < |prev|
        ensures prev[i] != x
      {
        assert prev[i] in prev;
        var k :| 0 <= k < n - 1 && prev[i] == Edge(edges[k].to, edges[k].from);
        assert edges[k] != edges[n - 1];
      }
    }
  }

  /** The edges and their missing twins: every edge has its reversed edge. */
  lemma CompletedSymmetric(edges: seq<Edge>, n: int)
    requires Endpoints(edges, n)
    ensures var all := edges + MissingTwins(edges, |edges|);
      Endpoints(all, n) && Symmetric(all)
  {
    var missing := MissingTwins(edges, |edges|);
    var all := edges + missing;
    MissingTwinsMembers(edges, |edges|);
    forall e | 0 <= e < |all|
      ensures 0 <= all[e].from < n && 0 <= all[e].to < n
      ensures Arc(all, all[e].to, all[e].from)
    {
      if e < |edges| {
        var x := Edge(edges[e].to, edges[e].from);
        if x in edges {
          var k :| 0 <= k < |edges| && edges[k] == x;
          assert all[k] == x;
        } else {
          assert x in missing;
          var k :| 0 <= k < |missing| && missing[k] == x;
          assert all[|edges| + k] == x;
        }
      } else {
        assert missing[e - |edges|] in missing;
        var k :| 0 <= k < |edges| && all[e] == Edge(edges[k].to, edges[k].from);
        assert all[k] == edges[k];
      }
    }
  }

  /** Without duplicate edges, the edges and their missing twins have none either. */
  lemma CompletedDistinct(edges: seq<Edge>)
    requires !HasDuplicates(edges)
    ensures !HasDuplicates(edges + MissingTwins(edges, |edges|))
  {
    var missing := MissingTwins(edges, |edges|);
    var all := edges + missing;
    MissingTwinsMembers(edges, |edges|);
    MissingTwinsDistinct(edges, |edges|);
    forall i, j | 0 <= i < j < |all|
      ensures all[i] != all[j]
    {
      if j >= |edges| {
        assert all[j] == missing[j - |edges|];
        if i < |edges| {
          assert all[j] in missing;
        }
      }
    }
  }

  /**
   * The source's `asUndirected`: the edges, then the reversed copy of every
   * edge without a twin, over the same vertices.
   */
  method AsUndirected(g: Graph) returns (h: Graph)
    requires Valid(g)
    ensures Valid(h) && |h.vertInfo| == |g.vertInfo|
    ensures h.edgeInfo == g.edgeInfo + MissingTwins(g.edgeInfo, |g.edgeInfo|)
    ensures Symmetric(h.edgeInfo)
  {
    var edges := g.edgeInfo;
    var out := edges;
    for e := 0 to |edges|
      invariant out == edges + MissingTwins(edges, e)
    {
      var twin := FindEdge(g, edges[e].to, edges[e].from);
      ArcIn(edges, edges[e].to, edges[e].from);
      if twin.None? {
        out := out + [Edge(edges[e].to, edges[e].from)];
      }
    }
    CompletedSymmetric(edges, |g.vertInfo|);
    CompletedDistinct(edges);
    h := Build(out, Some(|g.vertInfo|));
  }

  lemma ArcIn(edges: seq<Edge>, u: int, w: int)
    ensures Arc(edges, u, w) <==> Edge(u, w) in edges
  {
    if Edge(u, w) in edges {
      var e :| 0 <= e < |edges| && edges[e] == Edge(u, w);
    }
  }

  /** Another edge with the endpoints of edge `e`, looked for among the edges leaving its start. */
  method DuplicateOf(g: Graph, e: int) returns (r: Option<int>)
    requires Structured(g) && 0 <= e < |g.edgeInfo|
    ensures r.Some? ==> 0 <= r.value < |g.edgeInfo| && r.value != e && g.edgeInfo[r.value] == g.edgeInfo[e]
    ensures r.None? ==> forall b :: 0 <= b < |g.edgeInfo| && b != e ==> g.edgeInfo[b] != g.edgeInfo[e]
  {
    var edges := g.edgeInfo;
    var out := EdgesFrom(g, edges[e].from);
    OutMembers(edges, edges[e].from, |edges|);
    OutIds(edges, edges[e].from, |edges|);
    hide *;
    for k := 0 to |out|
      invariant forall j :: 0 <= j < k ==> out[j] == e || edges[out[j]].to != edges[e].to
    {
      var other := out[k];
      if other != e && edges[other].to == edges[e].to {
        return Some(other);
      }
    }
    forall b | 0 <= b < |edges| && b != e
      ensures edges[b] != edges[e]
    {
      if edges[b].from == edges[e].from {
        assert b in out;
        var j :| 0 <= j < |out| && out[j] == b;
      }
    }
    return None;
  }

  /** Whether two edges have the same endpoints. */
  method HasEdgeDuplicates(g: Graph) returns (r: bool)
    requires Structured(g)
    ensures r <==> HasDuplicates(g.edgeInfo)
  {
    var edges := g.edgeInfo;
    for e := 0 to |edges|
      invariant forall a, b :: 0 <= a < e && 0 <= b < |edges| && a != b ==> edges[a] != edges[b]
    {
      var other := DuplicateOf(g, e);
      if other.Some? {
        var b := other.value;
        assert 0 <= e < b < |edges| && edges[e] == edges[b];
        return true;
      }
    }
    return false;
  }

  /** The vertices without incoming edges, in increasing order. */
  method TreeRoots(g: Graph) returns (roots: seq<int>)
    requires Structured(g)
    ensures forall i, j :: 0 <= i < j < |roots| ==> roots[i] < roots[j]
    ensures forall v :: v in roots <==> 0 <= v < |g.vertInfo| && |In(g.edgeInfo, v, |g.edgeInfo|)| == 0
  {
    assert Blocks(g);
    roots := [];
    for v := 0 to |g.vertInfo|
      invariant forall i, j :: 0 <= i < j < |roots| ==> roots[i] < roots[j]
      invariant forall i :: 0 <= i < |roots| ==> roots[i] < v
      invariant forall u :: u in roots <==> 0 <= u < v && |In(g.edgeInfo, u, |g.edgeInfo|)| == 0
    {
      if g.vertInfo[v].numEdgesTo == 0 {
        roots := roots + [v];
      }
    }
  }
}
