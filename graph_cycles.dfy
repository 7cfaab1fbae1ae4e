// The depth-first cycle search of the immutable graph, with an explicit stack
// of (vertex, mode) frames and a three-state status per vertex.
module ImmutableGraphCycles {
  import opened ImmutableGraphModel

  datatype Mode = Exit | Enter
  datatype Frame = Frame(vertex: int, mode: Mode)
  datatype Status = NotVisited | Visiting | Visited

  // ---------------------------------------------------------------------------
  // Cycles

  /** Consecutive vertices of `p` are joined by arcs. */
  ghost predicate Walk(edges: seq<Edge>, p: seq<int>)
  {
    forall i, j :: 0 <= i && j == i + 1 && j < |p| ==> Arc(edges, p[i], p[j])
  }

  /** A closed walk of at least one arc. */
  ghost predicate IsCycle(edges: seq<Edge>, p: seq<int>)
  {
    |p| >= 2 && p[0] == p[|p| - 1] && Walk(edges, p)
  }

  ghost predicate HasCycle(edges: seq<Edge>)
  {
    exists p :: IsCycle(edges, p)
  }

  /** An arc from the end of a walk back to one of its vertices closes a cycle. */
  lemma CycleFromWalk(edges: seq<Edge>, c: seq<int>, j: int)
    requires Walk(edges, c) && 0 <= j < |c| && Arc(edges, c[|c| - 1], c[j])
    ensures HasCycle(edges)
  {
    var p := c[j..] + [c[j]];
    forall i, k | 0 <= i && k == i + 1 && k < |p|
      ensures Arc(edges, p[i], p[k])
    {
      if k < |p| - 1 {
        assert p[i] == c[j + i] && p[k] == c[j + k];
      }
    }
    assert IsCycle(edges, p);
  }

  /** Along a walk whose arcs all lower a rank, the rank keeps falling. */
  lemma {:induction false} RankFalls(edges: seq<Edge>, n: int, rank: seq<int>, p: seq<int>, k: int)
    requires Endpoints(edges, n) && |rank| == n
    requires forall e :: 0 <= e < |edges| ==> rank[edges[e].to] < rank[edges[e].from]
    requires Walk(edges, p) && 1 <= k < |p|
    ensures 0 <= p[0] < n && 0 <= p[k] < n && rank[p[k]] < rank[p[0]]
  {
    var prev := k - 1;
    assert Arc(edges, p[prev], p[k]);
    var e :| 0 <= e < |edges| && edges[e] == Edge(p[prev], p[k]);
    if k > 1 {
      RankFalls(edges, n, rank, p, prev);
    }
  }

  /** A rank that every arc lowers rules out cycles. */
  lemma NoCycleFromRank(edges: seq<Edge>, n: int, rank: seq<int>)
    requires Endpoints(edges, n) && |rank| == n
    requires forall e :: 0 <= e < |edges| ==> rank[edges[e].to] < rank[edges[e].from]
    ensures !HasCycle(edges)
  {
    forall p | IsCycle(edges, p)
      ensures false
    {
      RankFalls(edges, n, rank, p, |p| - 1);
    }
  }

  // ---------------------------------------------------------------------------
  // The search state

  /** The vertices of the exit frames, bottom to top: the vertices being visited. */
  function Exits(stack: seq<Frame>): seq<int>
  {
    if |stack| == 0 then []
    else
      var last := stack[|stack| - 1];
      Exits(stack[..|stack| - 1]) + if last.mode == Exit then [last.vertex] else []
  }

  ghost predicate Distinct(c: seq<int>)
  {
    forall i, j :: 0 <= i < j < |c| ==> c[i] != c[j]
  }

  /**
   * An enter frame at `t`: its vertex has no exit frame below it, and an arc
   * leads to it from the nearest exit frame below it.
   */
  ghost predicate EnterOk(edges: seq<Edge>, stack: seq<Frame>, t: int)
    requires 0 <= t < |stack|
  {
    var below := Exits(stack[..t]);
    stack[t].vertex !in below && (|below| == 0 || Arc(edges, below[|below| - 1], stack[t].vertex))
  }

  /** Vertex `w` is finished, or has a frame above `t`. */
  ghost predicate Covered(stack: seq<Frame>, status: seq<Status>, t: int, w: int)
    requires 0 <= t && 0 <= w < |status|
  {
    status[w] == Visited || exists t' :: t < t' < |stack| && stack[t'].vertex == w
  }

  /** Every successor of the vertex of the exit frame at `t` is covered. */
  ghost predicate ExitOk(edges: seq<Edge>, stack: seq<Frame>, status: seq<Status>, t: int)
    requires 0 <= t < |stack| && Endpoints(edges, |status|)
  {
    forall e :: 0 <= e < |edges| && edges[e].from == stack[t].vertex ==> Covered(stack, status, t, edges[e].to)
  }

  /** Every frame holds a vertex. */
  ghost predicate InRange(stack: seq<Frame>, n: int)
  {
    forall t :: 0 <= t < |stack| ==> 0 <= stack[t].vertex < n
  }

  /** The vertices being visited are exactly those of the exit frames. */
  ghost predicate VisitingMatches(stack: seq<Frame>, status: seq<Status>)
  {
    forall v :: 0 <= v < |status| ==> (status[v] == Visiting <==> v in Exits(stack))
  }

  ghost predicate EntersOk(edges: seq<Edge>, stack: seq<Frame>)
  {
    forall t :: 0 <= t < |stack| && stack[t].mode == Enter ==> EnterOk(edges, stack, t)
  }

  ghost predicate ExitsOk(edges: seq<Edge>, stack: seq<Frame>, status: seq<Status>, open: int)
  {
    Endpoints(edges, |status|)
    && forall t :: 0 <= t < |stack| && t != open && stack[t].mode == Exit ==> ExitOk(edges, stack, status, t)
  }

  /** Finished vertices have finished successors of lower rank, and ranks below `counter`. */
  ghost predicate Finished(edges: seq<Edge>, status: seq<Status>, rank: seq<int>, counter: int)
  {
    && |rank| == |status| && Endpoints(edges, |status|)
    && (forall u, e :: 0 <= u < |status| && status[u] == Visited && 0 <= e < |edges| && edges[e].from == u ==>
          status[edges[e].to] == Visited && rank[edges[e].to] < rank[u])
    && (forall v :: 0 <= v < |status| && status[v] == Visited ==> rank[v] < counter)
  }

  /**
   * The search invariant. `open` is the exit frame whose successors are being
   * pushed (-1 for none); every other exit frame has its successors covered.
   */
  ghost predicate DfsInv(g: Graph, stack: seq<Frame>, status: seq<Status>, rank: seq<int>, counter: int, open: int)
  {
    var edges, n := g.edgeInfo, |g.vertInfo|;
    && Endpoints(edges, n)
    && |status| == n && |rank| == n
    && InRange(stack, n)
    && VisitingMatches(stack, status)
    && Distinct(Exits(stack))
    && Walk(edges, Exits(stack))
    && EntersOk(edges, stack)
    && ExitsOk(edges, stack, status, open)
    && Finished(edges, status, rank, counter)
  }

  lemma DfsInvIff(g: Graph, stack: seq<Frame>, status: seq<Status>, rank: seq<int>, counter: int, open: int)
    ensures DfsInv(g, stack, status, rank, counter, open) <==>
      && Endpoints(g.edgeInfo, |g.vertInfo|)
      && |status| == |g.vertInfo| && |rank| == |g.vertInfo|
      && InRange(stack, |g.vertInfo|)
      && VisitingMatches(stack, status)
      && Distinct(Exits(stack))
      && Walk(g.edgeInfo, Exits(stack))
      && EntersOk(g.edgeInfo, stack)
      && ExitsOk(g.edgeInfo, stack, status, open)
      && Finished(g.edgeInfo, status, rank, counter)
  {
  }

  // ---------------------------------------------------------------------------
  // Facts about the stack

  lemma ExitsPush(stack: seq<Frame>, f: Frame)
    ensures Exits(stack + [f]) == Exits(stack) + if f.mode == Exit then [f.vertex] else []
  {
    assert (stack + [f])[..|stack|] == stack;
  }

  lemma ExitsTop(stack: seq<Frame>)
    requires |stack| > 0
    ensures Exits(stack) == Exits(stack[..|stack| - 1]) + if stack[|stack| - 1].mode == Exit then [stack[|stack| - 1].vertex] else []
  {
  }

  lemma InRangeAt(stack: seq<Frame>, n: int, t: int)
    requires InRange(stack, n) && 0 <= t < |stack|
    ensures 0 <= stack[t].vertex < n
  {
  }

  lemma InRangePop(stack: seq<Frame>, n: int)
    requires InRange(stack, n) && |stack| > 0
    ensures InRange(stack[..|stack| - 1], n)
  {
  }

  lemma InRangePush(stack: seq<Frame>, n: int, f: Frame)
    requires InRange(stack, n) && 0 <= f.vertex < n
    ensures InRange(stack + [f], n)
  {
  }

  lemma InRangeSetTop(stack: seq<Frame>, n: int, m: Mode)
    requires InRange(stack, n) && |stack| > 0
    ensures InRange(stack[|stack| - 1 := Frame(stack[|stack| - 1].vertex, m)], n)
  {
  }

  lemma VisitingAt(stack: seq<Frame>, status: seq<Status>, v: int)
    requires VisitingMatches(stack, status) && 0 <= v < |status|
    ensures status[v] == Visiting <==> v in Exits(stack)
  {
  }

  lemma VisitingSame(stack: seq<Frame>, stack': seq<Frame>, status: seq<Status>)
    requires VisitingMatches(stack, status) && Exits(stack') == Exits(stack)
    ensures VisitingMatches(stack', status)
  {
  }

  lemma VisitingAdd(stack: seq<Frame>, stack': seq<Frame>, status: seq<Status>, v: int)
    requires VisitingMatches(stack, status) && 0 <= v < |status| && Exits(stack') == Exits(stack) + [v]
    ensures VisitingMatches(stack', status[v := Visiting])
  {
    forall w | 0 <= w < |status|
      ensures status[v := Visiting][w] == Visiting <==> w in Exits(stack')
    {
      VisitingAt(stack, status, w);
    }
  }

  lemma VisitingRemove(stack: seq<Frame>, stack': seq<Frame>, status: seq<Status>, v: int)
    requires VisitingMatches(stack, status) && 0 <= v < |status|
    requires Exits(stack) == Exits(stack') + [v] && v !in Exits(stack')
    ensures VisitingMatches(stack', status[v := Visited])
  {
    forall w | 0 <= w < |status|
      ensures status[v := Visited][w] == Visiting <==> w in Exits(stack')
    {
      VisitingAt(stack, status, w);
    }
  }

  lemma DistinctSnoc(c: seq<int>, v: int)
    ensures Distinct(c + [v]) <==> Distinct(c) && v !in c
  {
    if Distinct(c) && v !in c {
      forall i, j | 0 <= i < j < |c + [v]|
        ensures (c + [v])[i] != (c + [v])[j]
      {
        if j == |c| {
          assert c[i] in c;
        }
      }
    }
    if Distinct(c + [v]) {
      forall i, j | 0 <= i < j < |c|
        ensures c[i] != c[j]
      {
        assert (c + [v])[i] == c[i] && (c + [v])[j] == c[j];
      }
      forall i | 0 <= i < |c|
        ensures c[i] != v
      {
        assert (c + [v])[i] == c[i] && (c + [v])[|c|] == v;
      }
    }
  }

  lemma WalkSnoc(edges: seq<Edge>, c: seq<int>, v: int)
    ensures Walk(edges, c + [v]) <==> Walk(edges, c) && (|c| == 0 || Arc(edges, c[|c| - 1], v))
  {
    var d := c + [v];
    if Walk(edges, c) && (|c| == 0 || Arc(edges, c[|c| - 1], v)) {
      forall i, j | 0 <= i && j == i + 1 && j < |d|
        ensures Arc(edges, d[i], d[j])
      {
        if j < |c| {
          assert d[i] == c[i] && d[j] == c[j];
        }
      }
    }
    if Walk(edges, d) {
      forall i, j | 0 <= i && j == i + 1 && j < |c|
        ensures Arc(edges, c[i], c[j])
      {
        assert d[i] == c[i] && d[j] == c[j];
      }
      if |c| > 0 {
        var last := |c| - 1;
        assert d[last] == c[last] && d[|c|] == v;
      }
    }
  }

  lemma EnterOkIff(edges: seq<Edge>, stack: seq<Frame>, t: int)
    requires 0 <= t < |stack|
    ensures EnterOk(edges, stack, t) <==>
      var below := Exits(stack[..t]);
      stack[t].vertex !in below && (|below| == 0 || Arc(edges, below[|below| - 1], stack[t].vertex))
  {
  }

  lemma EntersAt(edges: seq<Edge>, stack: seq<Frame>, t: int)
    requires EntersOk(edges, stack) && 0 <= t < |stack| && stack[t].mode == Enter
    ensures EnterOk(edges, stack, t)
  {
  }

  /** Frames below the top keep what lies below them when the top changes or goes. */
  lemma EntersKeep(edges: seq<Edge>, stack: seq<Frame>, stack': seq<Frame>, k: int)
    requires EntersOk(edges, stack) && 0 <= k <= |stack| && k <= |stack'|
    requires stack'[..k] == stack[..k]
    requires forall t :: k <= t < |stack'| && stack'[t].mode == Enter ==> EnterOk(edges, stack', t)
    ensures EntersOk(edges, stack')
  {
    forall t | 0 <= t < k && stack'[t].mode == Enter
      ensures EnterOk(edges, stack', t)
    {
      assert stack'[..t] == stack[..t] && stack'[t] == stack[t];
      EntersAt(edges, stack, t);
      EnterOkIff(edges, stack, t);
      EnterOkIff(edges, stack', t);
    }
  }

  /**
   * Exit frames below `k` keep their successors covered when the frames above
   * them change only by finishing vertices or keeping them.
   */
  lemma ExitsKeep(edges: seq<Edge>, stack: seq<Frame>, stack': seq<Frame>, status: seq<Status>, status': seq<Status>,
                  open: int, open': int, k: int)
    requires ExitsOk(edges, stack, status, open) && |status'| == |status|
    requires 0 <= k <= |stack| && k <= |stack'| && stack'[..k] == stack[..k]
    requires open == -1 || open >= k || open == open'
    requires forall w :: 0 <= w < |status| && status[w] == Visited ==> status'[w] == Visited
    requires forall t' :: k <= t' < |stack| && (t' >= |stack'| || stack[t'].vertex != stack'[t'].vertex) ==>
      0 <= stack[t'].vertex < |status| && status'[stack[t'].vertex] == Visited
    requires forall t :: k <= t < |stack'| && t != open' && stack'[t].mode == Exit ==> ExitOk(edges, stack', status', t)
    ensures ExitsOk(edges, stack', status', open')
  {
    forall t | 0 <= t < k && t != open' && stack'[t].mode == Exit
      ensures ExitOk(edges, stack', status', t)
    {
      assert stack'[t] == stack[t];
      assert ExitOk(edges, stack, status, t);
      forall e | 0 <= e < |edges| && edges[e].from == stack'[t].vertex
        ensures Covered(stack', status', t, edges[e].to)
      {
        var w := edges[e].to;
        assert Covered(stack, status, t, w);
        if status[w] != Visited {
          var t' :| t < t' < |stack| && stack[t'].vertex == w;
          if t' < k {
            assert stack'[t'] == stack[t'];
          } else if t' < |stack'| && stack[t'].vertex == stack'[t'].vertex {
          } else {
            assert status'[w] == Visited;
          }
        }
      }
    }
  }

  lemma ExitsEmpty()
    ensures Exits([]) == []
  {
  }

  lemma ExitAt(edges: seq<Edge>, stack: seq<Frame>, status: seq<Status>, open: int, t: int)
    requires ExitsOk(edges, stack, status, open) && 0 <= t < |stack| && t != open && stack[t].mode == Exit
    ensures Endpoints(edges, |status|) && ExitOk(edges, stack, status, t)
  {
  }

  /** Once the open frame has its successors covered, no frame is open. */
  lemma ExitsClose(edges: seq<Edge>, stack: seq<Frame>, status: seq<Status>, open: int)
    requires ExitsOk(edges, stack, status, open) && 0 <= open < |stack|
    requires ExitOk(edges, stack, status, open)
    ensures ExitsOk(edges, stack, status, -1)
  {
  }

  /** At the top exit frame every successor is finished: nothing lies above it. */
  lemma TopExitFinished(edges: seq<Edge>, stack: seq<Frame>, status: seq<Status>)
    requires Endpoints(edges, |status|) && |stack| > 0 && ExitOk(edges, stack, status, |stack| - 1)
    ensures forall e :: 0 <= e < |edges| && edges[e].from == stack[|stack| - 1].vertex ==> status[edges[e].to] == Visited
  {
    forall e | 0 <= e < |edges| && edges[e].from == stack[|stack| - 1].vertex
      ensures status[edges[e].to] == Visited
    {
      assert Covered(stack, status, |stack| - 1, edges[e].to);
    }
  }

  lemma CoveredPush(stack: seq<Frame>, status: seq<Status>, t: int, w: int, f: Frame)
    requires 0 <= t && 0 <= w < |status| && Covered(stack, status, t, w)
    ensures Covered(stack + [f], status, t, w)
  {
    if status[w] != Visited {
      var t' :| t < t' < |stack| && stack[t'].vertex == w;
      assert (stack + [f])[t'].vertex == w;
    }
  }

  lemma CoveredTop(stack: seq<Frame>, status: seq<Status>, t: int, w: int)
    requires 0 <= t < |stack| - 1 && 0 <= w < |status| && stack[|stack| - 1].vertex == w
    ensures Covered(stack, status, t, w)
  {
  }

  lemma FinishedKeep(edges: seq<Edge>, status: seq<Status>, status': seq<Status>, rank: seq<int>, counter: int)
    requires Finished(edges, status, rank, counter) && |status'| == |status|
    requires forall w :: 0 <= w < |status| ==> (status'[w] == Visited <==> status[w] == Visited)
    ensures Finished(edges, status', rank, counter)
  {
  }

  /** Finishing `u` once all its successors are finished, with the next rank. */
  lemma FinishStep(edges: seq<Edge>, status: seq<Status>, rank: seq<int>, counter: int, u: int)
    requires Finished(edges, status, rank, counter) && 0 <= u < |status| && status[u] != Visited
    requires forall e :: 0 <= e < |edges| && edges[e].from == u ==> status[edges[e].to] == Visited
    ensures Finished(edges, status[u := Visited], rank[u := counter], counter + 1)
  {
    var status', rank' := status[u := Visited], rank[u := counter];
    forall x, e | 0 <= x < |status| && status'[x] == Visited && 0 <= e < |edges| && edges[e].from == x
      ensures status'[edges[e].to] == Visited && rank'[edges[e].to] < rank'[x]
    {
      var w := edges[e].to;
      if x == u {
        assert status[w] == Visited;
      } else {
        assert status[x] == Visited;
      }
    }
  }

  /** With every vertex finished, every arc lowers the rank. */
  lemma FinishedRank(edges: seq<Edge>, status: seq<Status>, rank: seq<int>, counter: int)
    requires Finished(edges, status, rank, counter)
    requires forall v :: 0 <= v < |status| ==> status[v] == Visited
    ensures forall e :: 0 <= e < |edges| ==> rank[edges[e].to] < rank[edges[e].from]
  {
    forall e | 0 <= e < |edges|
      ensures rank[edges[e].to] < rank[edges[e].from]
    {
      assert status[edges[e].from] == Visited;
    }
  }

  // ---------------------------------------------------------------------------
  // The steps of the search

  lemma StartStep(g: Graph, status: seq<Status>, rank: seq<int>, counter: int, s: int)
    requires DfsInv(g, [], status, rank, counter, -1) && 0 <= s < |status| && status[s] == NotVisited
    ensures DfsInv(g, [Frame(s, Enter)], status, rank, counter, -1)
  {
    hide *;
    var edges, n := g.edgeInfo, |g.vertInfo|;
    var f := Frame(s, Enter);
    DfsInvIff(g, [], status, rank, counter, -1);
    DfsInvIff(g, [f], status, rank, counter, -1);
    ExitsEmpty();
    ExitsPush([], f);
    assert [] + [f] == [f];
    InRangePush([], n, f);
    VisitingSame([], [f], status);
    EnterOkIff(edges, [f], 0);
    assert [f][..0] == [];
    EntersKeep(edges, [], [f], 0);
    ExitsKeep(edges, [], [f], status, status, -1, -1, 0);
  }

  /** Popping an enter frame whose vertex was reached before: that vertex is finished. */
  lemma SkipStep(g: Graph, stack: seq<Frame>, status: seq<Status>, rank: seq<int>, counter: int)
    requires DfsInv(g, stack, status, rank, counter, -1)
    requires |stack| > 0 && stack[|stack| - 1].mode == Enter
    requires 0 <= stack[|stack| - 1].vertex < |status| && status[stack[|stack| - 1].vertex] != NotVisited
    ensures status[stack[|stack| - 1].vertex] == Visited
    ensures DfsInv(g, stack[..|stack| - 1], status, rank, counter, -1)
  {
    hide *;
    var edges, n := g.edgeInfo, |g.vertInfo|;
    var t := |stack| - 1;
    var v := stack[t].vertex;
    var rest := stack[..t];
    DfsInvIff(g, stack, status, rank, counter, -1);
    DfsInvIff(g, rest, status, rank, counter, -1);
    ExitsTop(stack);
    EntersAt(edges, stack, t);
    EnterOkIff(edges, stack, t);
    VisitingAt(stack, status, v);
    InRangePop(stack, n);
    VisitingSame(stack, rest, status);
    assert rest[..t] == stack[..t];
    EntersKeep(edges, stack, rest, t);
    ExitsKeep(edges, stack, rest, status, status, -1, -1, t);
  }

  /** Entering a new vertex: its frame becomes an exit frame, open for pushing its successors. */
  lemma EnterStep(g: Graph, stack: seq<Frame>, status: seq<Status>, rank: seq<int>, counter: int)
    requires DfsInv(g, stack, status, rank, counter, -1)
    requires |stack| > 0 && stack[|stack| - 1].mode == Enter
    requires 0 <= stack[|stack| - 1].vertex < |status| && status[stack[|stack| - 1].vertex] == NotVisited
    ensures var t, v := |stack| - 1, stack[|stack| - 1].vertex;
      && Exits(stack[t := Frame(v, Exit)]) == Exits(stack) + [v]
      && DfsInv(g, stack[t := Frame(v, Exit)], status[v := Visiting], rank, counter, t)
  {
    hide *;
    var edges, n := g.edgeInfo, |g.vertInfo|;
    var t := |stack| - 1;
    var v := stack[t].vertex;
    var stack', status' := stack[t := Frame(v, Exit)], status[v := Visiting];
    DfsInvIff(g, stack, status, rank, counter, -1);
    DfsInvIff(g, stack', status', rank, counter, t);
    ExitsTop(stack);
    ExitsTop(stack');
    assert stack'[..t] == stack[..t];
    var below := Exits(stack[..t]);
    assert Exits(stack) == below;
    EntersAt(edges, stack, t);
    EnterOkIff(edges, stack, t);
    InRangeSetTop(stack, n, Exit);
    VisitingAdd(stack, stack', status, v);
    DistinctSnoc(below, v);
    WalkSnoc(edges, below, v);
    EntersKeep(edges, stack, stack', t);
    ExitsKeep(edges, stack, stack', status, status', -1, t, t);
    FinishedKeep(edges, status, status', rank, counter);
  }

  /** Pushing an enter frame for an unvisited successor of the open frame's vertex. */
  lemma PushStep(g: Graph, stack: seq<Frame>, status: seq<Status>, rank: seq<int>, counter: int, open: int, w: int)
    requires DfsInv(g, stack, status, rank, counter, open) && 0 <= open < |stack|
    requires |Exits(stack)| > 0 && Arc(g.edgeInfo, Exits(stack)[|Exits(stack)| - 1], w)
    requires 0 <= w < |status| && status[w] == NotVisited
    ensures Exits(stack + [Frame(w, Enter)]) == Exits(stack)
    ensures DfsInv(g, stack + [Frame(w, Enter)], status, rank, counter, open)
  {
    hide *;
    var edges, n := g.edgeInfo, |g.vertInfo|;
    var f := Frame(w, Enter);
    var stack' := stack + [f];
    DfsInvIff(g, stack, status, rank, counter, open);
    DfsInvIff(g, stack', status, rank, counter, open);
    ExitsPush(stack, f);
    assert stack'[..|stack|] == stack;
    InRangePush(stack, n, f);
    VisitingSame(stack, stack', status);
    VisitingAt(stack, status, w);
    EnterOkIff(edges, stack', |stack|);
    EntersKeep(edges, stack, stack', |stack|);
    ExitsKeep(edges, stack, stack', status, status, open, open, |stack|);
  }

  /** The open frame has its successors covered. */
  lemma CloseStep(g: Graph, stack: seq<Frame>, status: seq<Status>, rank: seq<int>, counter: int, open: int)
    requires DfsInv(g, stack, status, rank, counter, open) && 0 <= open < |stack|
    requires Endpoints(g.edgeInfo, |status|) && ExitOk(g.edgeInfo, stack, status, open)
    ensures DfsInv(g, stack, status, rank, counter, -1)
  {
    hide *;
    DfsInvIff(g, stack, status, rank, counter, open);
    DfsInvIff(g, stack, status, rank, counter, -1);
    ExitsClose(g.edgeInfo, stack, status, open);
  }

  /** Popping an exit frame: its vertex is finished and gets the next rank. */
  lemma ExitStep(g: Graph, stack: seq<Frame>, status: seq<Status>, rank: seq<int>, counter: int)
    requires DfsInv(g, stack, status, rank, counter, -1)
    requires |stack| > 0 && stack[|stack| - 1].mode == Exit
    ensures var u := stack[|stack| - 1].vertex;
      && 0 <= u < |status| && status[u] == Visiting
      && DfsInv(g, stack[..|stack| - 1], status[u := Visited], rank[u := counter], counter + 1, -1)
  {
    hide *;
    var edges, n := g.edgeInfo, |g.vertInfo|;
    var t := |stack| - 1;
    var u := stack[t].vertex;
    var rest := stack[..t];
    DfsInvIff(g, stack, status, rank, counter, -1);
    InRangeAt(stack, n, t);
    var status', rank' := status[u := Visited], rank[u := counter];
    DfsInvIff(g, rest, status', rank', counter + 1, -1);
    ExitsTop(stack);
    VisitingAt(stack, status, u);
    DistinctSnoc(Exits(rest), u);
    WalkSnoc(edges, Exits(rest), u);
    InRangePop(stack, n);
    VisitingRemove(stack, rest, status, u);
    assert rest[..t] == stack[..t];
    EntersKeep(edges, stack, rest, t);
    ExitAt(edges, stack, status, -1, t);
    TopExitFinished(edges, stack, status);
    FinishStep(edges, status, rank, counter, u);
    ExitsKeep(edges, stack, rest, status, status', -1, -1, t);
  }

  /** A successor of the open frame's vertex that is being visited closes a cycle. */
  lemma CycleFound(g: Graph, stack: seq<Frame>, status: seq<Status>, rank: seq<int>, counter: int, open: int, w: int)
    requires DfsInv(g, stack, status, rank, counter, open)
    requires |Exits(stack)| > 0 && Arc(g.edgeInfo, Exits(stack)[|Exits(stack)| - 1], w)
    requires 0 <= w < |status| && status[w] == Visiting
    ensures HasCycle(g.edgeInfo)
  {
    hide *;
    DfsInvIff(g, stack, status, rank, counter, open);
    VisitingAt(stack, status, w);
    var c := Exits(stack);
    var j :| 0 <= j < |c| && c[j] == w;
    CycleFromWalk(g.edgeInfo, c, j);
  }

  lemma InitialInv(g: Graph, status: seq<Status>, rank: seq<int>)
    requires Endpoints(g.edgeInfo, |g.vertInfo|) && |status| == |g.vertInfo| == |rank|
    requires forall v :: 0 <= v < |status| ==> status[v] == NotVisited
    ensures DfsInv(g, [], status, rank, 0, -1)
  {
    ExitsEmpty();
  }

  lemma ArcOf(edges: seq<Edge>, e: int)
    requires 0 <= e < |edges|
    ensures Arc(edges, edges[e].from, edges[e].to)
  {
  }

  lemma CoveredVisited(stack: seq<Frame>, status: seq<Status>, t: int, w: int)
    requires 0 <= t && 0 <= w < |status| && status[w] == Visited
    ensures Covered(stack, status, t, w)
  {
  }

  lemma ExitOkIntro(edges: seq<Edge>, stack: seq<Frame>, status: seq<Status>, t: int)
    requires 0 <= t < |stack| && Endpoints(edges, |status|)
    requires forall e :: 0 <= e < |edges| && edges[e].from == stack[t].vertex ==> Covered(stack, status, t, edges[e].to)
    ensures ExitOk(edges, stack, status, t)
  {
  }

  /** With no frame left and every vertex finished, the rank shows there is no cycle. */
  lemma FinalInv(g: Graph, status: seq<Status>, rank: seq<int>, counter: int)
    requires DfsInv(g, [], status, rank, counter, -1)
    requires forall v :: 0 <= v < |status| ==> status[v] == Visited
    ensures !HasCycle(g.edgeInfo)
  {
    hide *;
    DfsInvIff(g, [], status, rank, counter, -1);
    FinishedRank(g.edgeInfo, status, rank, counter);
    NoCycleFromRank(g.edgeInfo, |g.vertInfo|, rank);
  }

  /** Before any frame is pushed, no vertex is being visited. */
  lemma NoneVisiting(g: Graph, status: seq<Status>, rank: seq<int>, counter: int, v: int)
    requires DfsInv(g, [], status, rank, counter, -1) && 0 <= v < |status|
    ensures status[v] != Visiting
  {
    ExitsEmpty();
  }

  /**
   * The loop over the edges `out` leaving `u`, whose frame at the top was just
   * turned into an exit frame (`u` is the last vertex of `Exits(stack)`): a
   * successor being visited closes a cycle, an unvisited one gets an enter
   * frame.
   */
  method PushAll(g: Graph, stack: seq<Frame>, status: seq<Status>, ghost rank: seq<int>, ghost counter: int, u: int, out: seq<int>)
      returns (found: bool, stack': seq<Frame>)
    requires |stack| > 0 && DfsInv(g, stack, status, rank, counter, |stack| - 1)
    requires |Exits(stack)| > 0 && Exits(stack)[|Exits(stack)| - 1] == u
    requires forall k :: 0 <= k < |out| ==> 0 <= out[k] < |g.edgeInfo| && g.edgeInfo[out[k]].from == u
    ensures found ==> HasCycle(g.edgeInfo)
    ensures !found ==> |stack'| >= |stack| && stack'[..|stack|] == stack && DfsInv(g, stack', status, rank, counter, |stack| - 1)
    ensures !found ==> forall k :: 0 <= k < |out| ==>
      0 <= g.edgeInfo[out[k]].to < |status| && Covered(stack', status, |stack| - 1, g.edgeInfo[out[k]].to)
  {
    hide *;
    var edges := g.edgeInfo;
    var top := |stack| - 1;
    DfsInvIff(g, stack, status, rank, counter, top);
    stack' := stack;
    for i := 0 to |out|
      invariant |stack'| >= |stack| && stack'[..|stack|] == stack
      invariant Exits(stack') == Exits(stack)
      invariant DfsInv(g, stack', status, rank, counter, top)
      invariant forall k :: 0 <= k < i ==> 0 <= edges[out[k]].to < |status| && Covered(stack', status, top, edges[out[k]].to)
    {
      var next := edges[out[i]].to;
      EndpointsAt(edges, |status|, out[i]);
      ArcOf(edges, out[i]);
      if status[next] == Visiting {
        CycleFound(g, stack', status, rank, counter, top, next);
        return true, stack';
      }
      if status[next] == NotVisited {
        var f := Frame(next, Enter);
        PushStep(g, stack', status, rank, counter, top, next);
        forall k | 0 <= k < i
          ensures Covered(stack' + [f], status, top, edges[out[k]].to)
        {
          CoveredPush(stack', status, top, edges[out[k]].to, f);
        }
        assert (stack' + [f])[..|stack|] == stack'[..|stack|];
        stack' := stack' + [f];
        CoveredTop(stack', status, top, next);
      } else {
        CoveredVisited(stack', status, top, next);
      }
    }
    return false, stack';
  }

  /** The edges leaving `u` are pushed; then `u`'s exit frame has its successors covered. */
  method PushSuccessors(g: Graph, stack: seq<Frame>, status: seq<Status>, ghost rank: seq<int>, ghost counter: int, u: int)
      returns (found: bool, stack': seq<Frame>)
    requires Structured(g) && 0 <= u < |g.vertInfo| && |stack| > 0 && stack[|stack| - 1] == Frame(u, Exit)
    requires DfsInv(g, stack, status, rank, counter, |stack| - 1)
    requires Exits(stack) == Exits(stack[..|stack| - 1]) + [u]
    ensures found ==> HasCycle(g.edgeInfo)
    ensures !found ==> |stack'| >= |stack| && stack'[..|stack|] == stack && DfsInv(g, stack', status, rank, counter, -1)
  {
    var edges := g.edgeInfo;
    var out := EdgesFrom(g, u);
    OutMembers(edges, u, |edges|);
    OutIds(edges, u, |edges|);
    hide *;
    var top := |stack| - 1;
    found, stack' := PushAll(g, stack, status, rank, counter, u, out);
    if found {
      return;
    }
    DfsInvIff(g, stack', status, rank, counter, top);
    assert stack'[top] == stack[top];
    forall e | 0 <= e < |edges| && edges[e].from == stack'[top].vertex
      ensures Covered(stack', status, top, edges[e].to)
    {
      assert e in out;
      var k :| 0 <= k < |out| && out[k] == e;
    }
    ExitOkIntro(edges, stack', status, top);
    CloseStep(g, stack', status, rank, counter, top);
  }

  /** One turn of the search loop, on the frame at the top of the stack. */
  method SearchStep(g: Graph, stack: seq<Frame>, status: seq<Status>, ghost rank: seq<int>, ghost counter: int)
      returns (found: bool, stack': seq<Frame>, status': seq<Status>, ghost rank': seq<int>, ghost counter': int)
    requires Structured(g) && |stack| > 0 && DfsInv(g, stack, status, rank, counter, -1)
    ensures found ==> HasCycle(g.edgeInfo)
    ensures !found ==> DfsInv(g, stack', status', rank', counter', -1) && |status'| == |status| && |rank'| == |rank|
    ensures !found ==> forall v :: 0 <= v < |status| && status[v] == Visited ==> status'[v] == Visited
    ensures !found ==> |stack'| > 0 ==> stack'[0].vertex == stack[0].vertex
    ensures !found ==> |stack'| == 0 ==> |stack| == 1 && 0 <= stack[0].vertex < |status| && status'[stack[0].vertex] != NotVisited
    ensures !found ==> (multiset(status')[NotVisited] < multiset(status)[NotVisited]
      || (multiset(status')[NotVisited] == multiset(status)[NotVisited] && |stack'| < |stack|))
  {
    hide *;
    var t := |stack| - 1;
    var v := stack[t].vertex;
    var mode := stack[t].mode;
    InRangeTop(g, stack, status, rank, counter);
    DfsInvIff(g, stack, status, rank, counter, -1);
    found, stack', status', rank', counter' := false, stack, status, rank, counter;
    if mode == Enter {
      if status[v] != NotVisited {
        SkipStep(g, stack, status, rank, counter);
        stack' := stack[..t];
        return;
      }
      EnterStep(g, stack, status, rank, counter);
      ExitsTop(stack);
      status' := status[v := Visiting];
      var entered := stack[t := Frame(v, Exit)];
      ExitsTop(entered);
      assert entered[..t] == stack[..t];
      found, stack' := PushSuccessors(g, entered, status', rank, counter, v);
      if !found {
        assert stack'[0] == entered[0] && entered[0].vertex == stack[0].vertex;
      }
    } else {
      ExitStep(g, stack, status, rank, counter);
      status' := status[v := Visited];
      rank' := rank[v := counter];
      counter' := counter + 1;
      stack' := stack[..t];
    }
  }

  /**
   * The source's `hasCycles`: a depth-first search from every unvisited
   * vertex. An enter frame of an unvisited vertex marks it as being visited,
   * turns into its exit frame and pushes its unvisited successors; popping the
   * exit frame finishes the vertex. An edge to a vertex being visited is a
   * cycle.
   */
  method HasCycles(g: Graph) returns (r: bool)
    requires Structured(g)
    ensures r <==> HasCycle(g.edgeInfo)
  {
    assert Endpoints(g.edgeInfo, |g.vertInfo|);
    hide *;
    var n := |g.vertInfo|;
    var stack: seq<Frame> := [];
    var status := seq(n, _ => NotVisited);
    ghost var rank := seq(n, _ => 0);
    ghost var counter := 0;
    InitialInv(g, status, rank);
    for start := 0 to n
      invariant |status| == n == |rank| && stack == [] && DfsInv(g, stack, status, rank, counter, -1)
      invariant forall v :: 0 <= v < start ==> status[v] == Visited
    {
      if status[start] != NotVisited {
        NoneVisiting(g, status, rank, counter, start);
        continue;
      }
      StartStep(g, status, rank, counter, start);
      stack := [Frame(start, Enter)];
      while |stack| > 0
        invariant |status| == n == |rank| && DfsInv(g, stack, status, rank, counter, -1)
        invariant |stack| > 0 ==> stack[0].vertex == start
        invariant |stack| == 0 ==> status[start] != NotVisited
        invariant forall v :: 0 <= v < start ==> status[v] == Visited
        decreases multiset(status)[NotVisited], |stack|
      {
        var found;
        found, stack, status, rank, counter := SearchStep(g, stack, status, rank, counter);
        if found {
          return true;
        }
      }
      NoneVisiting(g, status, rank, counter, start);
    }
    FinalInv(g, status, rank, counter);
    return false;
  }

  lemma InRangeTop(g: Graph, stack: seq<Frame>, status: seq<Status>, rank: seq<int>, counter: int)
    requires DfsInv(g, stack, status, rank, counter, -1) && |stack| > 0
    ensures 0 <= stack[|stack| - 1].vertex < |status|
  {
    hide *;
    DfsInvIff(g, stack, status, rank, counter, -1);
    InRangeAt(stack, |g.vertInfo|, |stack| - 1);
  }

  /** A forest: no directed cycle, and no vertex with more than one incoming edge. */
  method IsForest(g: Graph) returns (r: bool)
    requires Structured(g)
    ensures r <==> !HasCycle(g.edgeInfo) && forall v :: 0 <= v < |g.vertInfo| ==> |In(g.edgeInfo, v, |g.edgeInfo|)| <= 1
  {
    var cycle := HasCycles(g);
    if cycle {
      return false;
    }
    assert Blocks(g);
    for v := 0 to |g.vertInfo|
      invariant forall u :: 0 <= u < v ==> |In(g.edgeInfo, u, |g.edgeInfo|)| <= 1
    {
      assert g.vertInfo[v].numEdgesTo == |In(g.edgeInfo, v, |g.edgeInfo|)|;
      if g.vertInfo[v].numEdgesTo > 1 {
        return false;
      }
    }
    return true;
  }
}
