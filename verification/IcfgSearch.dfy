/**
  The breadth-first search of the distance analyzer over one function's part of the
  interprocedural control-flow graph, as in `singleCalculateBlock` and in the second
  half of `subCalculateCalls`: calls are stepped over, with a weight and distances
  taken from callee summaries.
*/
module IcfgSearch {
  import opened Distances

  const EXTERN_CALL_DIST: int := 50
  const RECURSIVE_CALL_DIST: int := 45

  datatype Kind = FunEntry | FunExit | FunCall | FunRet | Other

  type Func = nat

  datatype Icfg = Icfg(kind: seq<Kind>, out: seq<seq<nat>>, retOf: seq<nat>, func: seq<Func>)
  {
    ghost predicate WellFormed() {
      && |out| == |retOf| == |func| == |kind|
      && (forall u, e :: 0 <= u < |out| && 0 <= e < |out[u]| ==> out[u][e] < |kind|)
      && (forall u :: 0 <= u < |kind| && kind[u].FunCall? ==> retOf[u] < |kind| && kind[retOf[u]].FunRet?)
    }
  }

  /** The distance through a function; UINT32_MAX stands for one whose exit was not met. */
  datatype Intra = Through(dist: nat) | NoReturn

  /** What is known of a finished function: the distance through it, and to each target. */
  datatype Summary = Summary(intra: Intra, dist: seq<int>)

  type Summaries = map<Func, Summary>

  ghost predicate SaneSummaries(sums: Summaries, targetCount: nat) {
    forall f :: f in sums ==> |sums[f].dist| == targetCount
  }

  /** Adding the unsigned UINT32_MAX to a signed distance takes one off. */
  function AsSigned(intra: Intra): int {
    if intra.Through? then intra.dist else -1
  }

  datatype Visit = Visit(node: nat, dist: int)

  // ---------------------------------------------------------------- steps and walks

  /** The weight of stepping over a call along one of its edges. */
  function CallWeight(g: Icfg, sums: Summaries, v: nat): int
    requires v < |g.kind| == |g.func|
  {
    match g.kind[v]
    case FunRet => EXTERN_CALL_DIST
    case FunEntry => if g.func[v] in sums then AsSigned(sums[g.func[v]].intra) else RECURSIVE_CALL_DIST
    case _ => 0
  }

  /** What is queued for edge `e` of node `u`, reached at distance `d`. */
  function Pushed(g: Icfg, sums: Summaries, u: nat, d: int, e: nat): Visit
    requires g.WellFormed() && u < |g.kind| && e < |g.out[u]|
  {
    if g.kind[u].FunCall? then Visit(g.retOf[u], d + CallWeight(g, sums, g.out[u][e]))
    else Visit(g.out[u][e], d + 1)
  }

  /** A call is passed at a smaller distance than it is reached exactly when its callee's exit was not met. */
  lemma StepsBackIff(g: Icfg, sums: Summaries, u: nat, d: int, e: nat)
    requires g.WellFormed() && u < |g.kind| && e < |g.out[u]| && g.kind[u].FunCall?
    ensures var v := g.out[u][e];
      Pushed(g, sums, u, d, e).dist < d
      <==> g.kind[v].FunEntry? && g.func[v] in sums && sums[g.func[v]].intra.NoReturn?
  {
  }

  /**
    Passing a call leads to its return node and adds exactly the distance through the callee, or one less than nothing
    if its exit was not met; 50 for an external function, 45 for one without a summary.
  */
  lemma PassingACall(g: Icfg, sums: Summaries, u: nat, d: int, e: nat)
    requires g.WellFormed() && u < |g.kind| && e < |g.out[u]| && g.kind[u].FunCall?
    ensures var p, x := Pushed(g, sums, u, d, e), g.out[u][e];
      && p.node == g.retOf[u]
      && (g.kind[x].FunRet? ==> p.dist == d + 50)
      && (g.kind[x].FunEntry? && g.func[x] !in sums ==> p.dist == d + 45)
      && (g.kind[x].FunEntry? && g.func[x] in sums && sums[g.func[x]].intra.Through?
          ==> p.dist == d + sums[g.func[x]].intra.dist)
      && (g.kind[x].FunEntry? && g.func[x] in sums && sums[g.func[x]].intra.NoReturn? ==> p.dist == d - 1)
      && (!g.kind[x].FunRet? && !g.kind[x].FunEntry? ==> p.dist == d)
  {
  }

  /** The queue entries for the first `n` edges. */
  function PushedUpTo(g: Icfg, sums: Summaries, u: nat, d: int, n: nat): (r: seq<Visit>)
    requires g.WellFormed() && u < |g.kind| && n <= |g.out[u]|
    ensures |r| == n
    ensures forall e :: 0 <= e < n ==> r[e] == Pushed(g, sums, u, d, e)
  {
    if n == 0 then [] else PushedUpTo(g, sums, u, d, n - 1) + [Pushed(g, sums, u, d, n - 1)]
  }

  function AllPushed(g: Icfg, sums: Summaries, u: nat, d: int): seq<Visit>
    requires g.WellFormed() && u < |g.kind|
  {
    if g.kind[u].FunExit? then [] else PushedUpTo(g, sums, u, d, |g.out[u]|)
  }

  /** What passing a call that leads to `x` weighs: external, of a finished function, or of one without summary. */
  ghost predicate IsPassed(g: Icfg, sums: Summaries, x: nat, w: int)
    requires x < |g.kind| == |g.func|
  {
    match g.kind[x]
    case FunRet => w == 50
    case FunEntry =>
      if g.func[x] !in sums then w == 45
      else if sums[g.func[x]].intra.NoReturn? then w == -1
      else w == sums[g.func[x]].intra.dist
    case _ => w == 0
  }

  /** One step, with its weight: along an edge, or from a call to its return node. */
  ghost predicate IsStep(g: Icfg, sums: Summaries, u: nat, v: nat, w: int)
    requires g.WellFormed()
  {
    u < |g.kind| && !g.kind[u].FunExit? &&
    if g.kind[u].FunCall? then
      v == g.retOf[u] && exists x: nat :: x in g.out[u] && x < |g.kind| && IsPassed(g, sums, x, w)
    else w == 1 && v in g.out[u]
  }

  /** What is queued for an edge is one step away, whatever the distance so far. */
  lemma PushedIsStep(g: Icfg, sums: Summaries, u: nat, d: int, e: nat)
    requires g.WellFormed() && u < |g.kind| && !g.kind[u].FunExit? && e < |g.out[u]|
    ensures var p := Pushed(g, sums, u, d, e); IsStep(g, sums, u, p.node, p.dist - d)
  {
    assert g.out[u][e] in g.out[u];
    if g.kind[u].FunCall? {
      assert IsPassed(g, sums, g.out[u][e], CallWeight(g, sums, g.out[u][e]));
    }
  }

  /** Every step is queued for some edge. */
  lemma StepHasEdge(g: Icfg, sums: Summaries, u: nat, v: nat, w: int, d: int) returns (e: nat)
    requires g.WellFormed() && IsStep(g, sums, u, v, w)
    ensures e < |g.out[u]| && Pushed(g, sums, u, d, e) == Visit(v, d + w)
  {
    if g.kind[u].FunCall? {
      var x: nat :| x in g.out[u] && x < |g.kind| && IsPassed(g, sums, x, w);
      e :| 0 <= e < |g.out[u]| && g.out[u][e] == x;
    } else {
      e :| 0 <= e < |g.out[u]| && g.out[u][e] == v;
    }
  }

  /** A weighted walk, as the list of places it passes with the weight up to there. */
  ghost predicate IsWalk(g: Icfg, sums: Summaries, start: nat, walk: seq<Visit>)
    requires g.WellFormed()
  {
    && walk != [] && walk[0] == Visit(start, 0)
    && forall k :: 0 < k < |walk| ==> IsStep(g, sums, walk[k - 1].node, walk[k].node, walk[k].dist - walk[k - 1].dist)
  }

  ghost predicate Reaches(g: Icfg, sums: Summaries, start: nat, v: nat, w: int)
    requires g.WellFormed()
  {
    exists walk :: IsWalk(g, sums, start, walk) && walk[|walk| - 1] == Visit(v, w)
  }

  lemma ReachesMore(g: Icfg, sums: Summaries, start: nat, u: nat, w: int, d: int, e: nat)
    requires g.WellFormed() && Reaches(g, sums, start, u, w) && u < |g.kind| && !g.kind[u].FunExit? && e < |g.out[u]|
    ensures var p := Pushed(g, sums, u, d, e); Reaches(g, sums, start, p.node, w + p.dist - d)
  {
    var walk :| IsWalk(g, sums, start, walk) && walk[|walk| - 1] == Visit(u, w);
    var p := Pushed(g, sums, u, 0, e);
    PushedIsStep(g, sums, u, 0, e);
    var longer := walk + [Visit(p.node, w + p.dist)];
    assert IsWalk(g, sums, start, longer) && longer[|longer| - 1] == Visit(p.node, w + p.dist);
  }

  // ---------------------------------------------------------------- the state of the search

  ghost predicate IsVisited(list: seq<Visit>, u: nat) {
    exists v :: v in list && v.node == u
  }

  ghost predicate Distinct(order: seq<Visit>) {
    forall j, k :: 0 <= j < k < |order| ==> order[j].node != order[k].node
  }

  /** Non-negative everywhere; positive except at return nodes, where a call that never returns takes one off. */
  ghost predicate GoodDist(g: Icfg, v: Visit) {
    v.node < |g.kind| && v.dist >= if g.kind[v.node].FunRet? then 0 else 1
  }

  ghost predicate AllGood(g: Icfg, list: seq<Visit>) {
    forall v :: v in list ==> GoodDist(g, v)
  }

  /** Every entry was reached by a walk of its weight; distances count from 1. */
  ghost predicate AllReached(g: Icfg, sums: Summaries, start: nat, list: seq<Visit>)
    requires g.WellFormed()
  {
    forall v :: v in list ==> GoodDist(g, v) && Reaches(g, sums, start, v.node, v.dist - 1)
  }

  /** What the visited nodes queued is visited, or still queued. */
  ghost predicate Closed(g: Icfg, sums: Summaries, order: seq<Visit>, queue: seq<Visit>)
    requires g.WellFormed()
  {
    forall v, p :: v in order && v.node < |g.kind| && p in AllPushed(g, sums, v.node, v.dist) ==>
      IsVisited(order, p.node) || IsVisited(queue, p.node)
  }

  ghost predicate NoCalls(g: Icfg, order: seq<Visit>) {
    forall v :: v in order && v.node < |g.kind| ==> !g.kind[v.node].FunCall?
  }

  /** Some entry has this node, at no more than this distance. */
  ghost predicate IsNear(list: seq<Visit>, u: nat, bound: int) {
    exists v :: v in list && v.node == u && v.dist <= bound
  }

  /** The queue is sorted and spans at most two distances, none below those of visited nodes. */
  ghost predicate InTwoLayers(order: seq<Visit>, queue: seq<Visit>) {
    && (forall j, k :: 0 <= j < k < |queue| ==> queue[j].dist <= queue[k].dist <= queue[j].dist + 1)
    && (forall v, q :: v in order && q in queue ==> v.dist <= q.dist)
  }

  /** What a visited node queued is visited or queued at most one farther. */
  ghost predicate NoneMissed(g: Icfg, sums: Summaries, order: seq<Visit>, queue: seq<Visit>)
    requires g.WellFormed()
  {
    forall v, p :: v in order && v.node < |g.kind| && p in AllPushed(g, sums, v.node, v.dist) ==>
      IsNear(order, p.node, v.dist + 1) || IsNear(queue, p.node, v.dist + 1)
  }

  /** What holds of a search as long as it has met no call, so that every step weighs one. */
  ghost predicate InLayers(g: Icfg, sums: Summaries, order: seq<Visit>, queue: seq<Visit>)
    requires g.WellFormed()
  {
    InTwoLayers(order, queue) && NoneMissed(g, sums, order, queue)
  }

  ghost predicate SearchState(g: Icfg, sums: Summaries, start: nat, order: seq<Visit>, queue: seq<Visit>)
    requires g.WellFormed()
  {
    && Distinct(order)
    && AllReached(g, sums, start, order) && AllReached(g, sums, start, queue)
    && Closed(g, sums, order, queue)
    && (if order == [] then queue == [Visit(start, 1)] else order[0] == Visit(start, 1))
    && (NoCalls(g, order) ==> InLayers(g, sums, order, queue))
  }

  lemma SearchStarts(g: Icfg, sums: Summaries, start: nat)
    requires g.WellFormed() && start < |g.kind|
    ensures SearchState(g, sums, start, [], [Visit(start, 1)])
  {
    assert IsWalk(g, sums, start, [Visit(start, 0)]);
    assert [Visit(start, 0)][|[Visit(start, 0)]| - 1] == Visit(start, 0);
  }

  /** A queue entry for a visited node is dropped. */
  lemma SearchDrops(g: Icfg, sums: Summaries, start: nat, order: seq<Visit>, queue: seq<Visit>, rest: seq<Visit>)
    requires g.WellFormed() && SearchState(g, sums, start, order, queue)
    requires queue != [] && IsVisited(order, queue[0].node) && rest == queue[1..]
    ensures SearchState(g, sums, start, order, rest)
  {
    DroppingStaysReached(g, sums, start, queue, rest);
    DroppingStaysClosed(g, sums, order, queue, rest);
    if NoCalls(g, order) {
      DroppingMissesNone(g, sums, order, queue, rest);
    }
  }

  lemma DroppingStaysReached(g: Icfg, sums: Summaries, start: nat, queue: seq<Visit>, rest: seq<Visit>)
    requires g.WellFormed() && AllReached(g, sums, start, queue) && queue != [] && rest == queue[1..]
    ensures AllReached(g, sums, start, rest)
  {
    assert queue == [queue[0]] + rest;
  }

  lemma DroppingStaysClosed(g: Icfg, sums: Summaries, order: seq<Visit>, queue: seq<Visit>, rest: seq<Visit>)
    requires g.WellFormed() && Closed(g, sums, order, queue)
    requires queue != [] && IsVisited(order, queue[0].node) && rest == queue[1..]
    ensures Closed(g, sums, order, rest)
  {
    assert queue == [queue[0]] + rest;
    forall v, p | v in order && v.node < |g.kind| && p in AllPushed(g, sums, v.node, v.dist)
      ensures IsVisited(order, p.node) || IsVisited(rest, p.node)
    {
      if !IsVisited(order, p.node) {
        var y :| y in queue && y.node == p.node;
        assert y == queue[0] || y in rest;
      }
    }
  }

  lemma DroppingMissesNone(g: Icfg, sums: Summaries, order: seq<Visit>, queue: seq<Visit>, rest: seq<Visit>)
    requires g.WellFormed() && InLayers(g, sums, order, queue)
    requires queue != [] && IsVisited(order, queue[0].node) && rest == queue[1..]
    ensures InLayers(g, sums, order, rest)
  {
    DroppingStaysInLayers(order, queue, rest);
    forall v, p | v in order && v.node < |g.kind| && p in AllPushed(g, sums, v.node, v.dist)
      ensures IsNear(order, p.node, v.dist + 1) || IsNear(rest, p.node, v.dist + 1)
    {
      if IsNear(queue, p.node, v.dist + 1) {
        NearWithoutFront(order, queue, rest, p.node, v.dist + 1);
      }
    }
  }

  lemma DroppingStaysInLayers(order: seq<Visit>, queue: seq<Visit>, rest: seq<Visit>)
    requires InTwoLayers(order, queue) && queue != [] && rest == queue[1..]
    ensures InTwoLayers(order, rest)
  {
    assert queue == [queue[0]] + rest;
  }

  /** A visited node's entry at the front is never the only near one. */
  lemma NearWithoutFront(order: seq<Visit>, queue: seq<Visit>, rest: seq<Visit>, u: nat, bound: int)
    requires InTwoLayers(order, queue) && queue != [] && IsVisited(order, queue[0].node) && IsNear(queue, u, bound)
    requires rest == queue[1..]
    ensures IsNear(order, u, bound) || IsNear(rest, u, bound)
  {
    var y :| y in queue && y.node == u && y.dist <= bound;
    if y == queue[0] {
      var x :| x in order && x.node == queue[0].node;
      assert x.dist <= queue[0].dist;
    } else {
      assert queue == [queue[0]] + rest;
      assert y in rest;
    }
  }

  /** What the front of the queue pushes was reached too. */
  lemma PushedAreReached(g: Icfg, sums: Summaries, start: nat, v: Visit, targetCount: nat)
    requires g.WellFormed() && SaneSummaries(sums, targetCount)
    requires GoodDist(g, v) && Reaches(g, sums, start, v.node, v.dist - 1)
    ensures AllReached(g, sums, start, AllPushed(g, sums, v.node, v.dist))
  {
    forall p | p in AllPushed(g, sums, v.node, v.dist)
        ensures GoodDist(g, p) && Reaches(g, sums, start, p.node, p.dist - 1) {
      var e :| 0 <= e < |g.out[v.node]| && p == Pushed(g, sums, v.node, v.dist, e);
      ReachesMore(g, sums, start, v.node, v.dist - 1, v.dist, e);
    }
  }

  /** A new node is visited and its successors are queued. */
  lemma SearchVisits(g: Icfg, sums: Summaries, start: nat, order: seq<Visit>, queue: seq<Visit>, targetCount: nat)
    requires g.WellFormed() && SaneSummaries(sums, targetCount) && SearchState(g, sums, start, order, queue)
    requires queue != [] && !IsVisited(order, queue[0].node)
    ensures queue[0].node < |g.kind|
    ensures SearchState(g, sums, start, order + [queue[0]],
                        queue[1..] + AllPushed(g, sums, queue[0].node, queue[0].dist))
  {
    var v := queue[0];
    var pushed := AllPushed(g, sums, v.node, v.dist);
    var order', queue' := order + [v], queue[1..] + pushed;
    assert queue == [v] + queue[1..];
    assert v in queue;
    PushedAreReached(g, sums, start, v, targetCount);
    forall j, k | 0 <= j < k < |order'| ensures order'[j].node != order'[k].node {
      if k == |order| {
        assert order[j] in order;
      }
    }
    StaysClosed(g, sums, order, queue);
    if NoCalls(g, order') {
      assert NoCalls(g, order);
      StaysInLayers(g, sums, order, queue);
    }
  }

  lemma StaysClosed(g: Icfg, sums: Summaries, order: seq<Visit>, queue: seq<Visit>)
    requires g.WellFormed() && Closed(g, sums, order, queue) && queue != [] && queue[0].node < |g.kind|
    ensures Closed(g, sums, order + [queue[0]], queue[1..] + AllPushed(g, sums, queue[0].node, queue[0].dist))
  {
    var v := queue[0];
    var pushed := AllPushed(g, sums, v.node, v.dist);
    var order', queue' := order + [v], queue[1..] + pushed;
    assert queue == [v] + queue[1..];
    assert v in order';
    forall x, p | x in order' && x.node < |g.kind| && p in AllPushed(g, sums, x.node, x.dist)
      ensures IsVisited(order', p.node) || IsVisited(queue', p.node)
    {
      if x in order {
        if IsVisited(order, p.node) {
          var y :| y in order && y.node == p.node;
          assert y in order';
        } else {
          var y :| y in queue && y.node == p.node;
          assert y == v || y in queue';
        }
      } else {
        assert p in pushed && p in queue';
      }
    }
  }

  lemma StaysInLayers(g: Icfg, sums: Summaries, order: seq<Visit>, queue: seq<Visit>)
    requires g.WellFormed() && queue != [] && queue[0].node < |g.kind| && !g.kind[queue[0].node].FunCall?
    requires InLayers(g, sums, order, queue)
    ensures InLayers(g, sums, order + [queue[0]], queue[1..] + AllPushed(g, sums, queue[0].node, queue[0].dist))
  {
    var pushed := AllPushed(g, sums, queue[0].node, queue[0].dist);
    assert forall p :: p in pushed ==> p.dist == queue[0].dist + 1;
    StaysInTwoLayers(order, queue, pushed);
    VisitingMissesNone(g, sums, order, queue);
  }

  lemma StaysInTwoLayers(order: seq<Visit>, queue: seq<Visit>, pushed: seq<Visit>)
    requires queue != [] && InTwoLayers(order, queue) && forall p :: p in pushed ==> p.dist == queue[0].dist + 1
    ensures InTwoLayers(order + [queue[0]], queue[1..] + pushed)
  {
    var v, queue' := queue[0], queue[1..] + pushed;
    assert queue == [v] + queue[1..];
    forall k | 0 <= k < |queue'|
        ensures v.dist <= queue'[k].dist <= v.dist + 1 && (k < |queue| - 1 ==> queue'[k] == queue[k + 1]) {
      if k >= |queue| - 1 {
        assert queue'[k] in pushed;
      }
    }
    forall j, k | 0 <= j < k < |queue'| ensures queue'[j].dist <= queue'[k].dist {
      if k >= |queue| - 1 {
        assert queue'[k] in pushed;
      }
    }
    forall x, q | x in order + [v] && q in queue' ensures x.dist <= q.dist {
      assert x in order ==> x.dist <= v.dist;
    }
  }

  lemma VisitingMissesNone(g: Icfg, sums: Summaries, order: seq<Visit>, queue: seq<Visit>)
    requires g.WellFormed() && queue != [] && queue[0].node < |g.kind| && !g.kind[queue[0].node].FunCall?
    requires NoneMissed(g, sums, order, queue)
    ensures NoneMissed(g, sums, order + [queue[0]], queue[1..] + AllPushed(g, sums, queue[0].node, queue[0].dist))
  {
    var v := queue[0];
    var pushed := AllPushed(g, sums, v.node, v.dist);
    var order', queue' := order + [v], queue[1..] + pushed;
    assert queue == [v] + queue[1..];
    assert v in order';
    forall x, p | x in order' && x.node < |g.kind| && p in AllPushed(g, sums, x.node, x.dist)
      ensures IsNear(order', p.node, x.dist + 1) || IsNear(queue', p.node, x.dist + 1)
    {
      if x in order {
        if IsNear(order, p.node, x.dist + 1) {
          var y :| y in order && y.node == p.node && y.dist <= x.dist + 1;
          assert y in order';
        } else {
          var y :| y in queue && y.node == p.node && y.dist <= x.dist + 1;
          assert y == v || y in queue';
        }
      } else {
        assert p in pushed && p in queue';
      }
    }
  }

  // ---------------------------------------------------------------- the distances that are collected

  /** Is edge `e` of node `u` a call of a finished function with a distance to target `i`? */
  predicate HasCalleeDist(g: Icfg, sums: Summaries, i: nat, u: nat, e: nat)
    requires g.WellFormed() && u < |g.kind| && e < |g.out[u]|
  {
    var v := g.out[u][e];
    g.kind[v].FunEntry? && g.func[v] in sums && i < |sums[g.func[v]].dist| && sums[g.func[v]].dist[i] >= 0
  }

  function CalleeDist(g: Icfg, sums: Summaries, i: nat, u: nat, e: nat): int
    requires g.WellFormed() && u < |g.kind| && e < |g.out[u]|
  {
    if HasCalleeDist(g, sums, i, u, e) then sums[g.func[g.out[u][e]]].dist[i] else -1
  }

  /** The distance to target `i` after the first `n` edges of a call. */
  function AfterEdges(g: Icfg, sums: Summaries, i: nat, v: Visit, n: nat, best: int): int
    requires g.WellFormed() && v.node < |g.kind| && n <= |g.out[v.node]|
  {
    if n == 0 then best
    else Lesser(AfterEdges(g, sums, i, v, n - 1, best), Delayed(CalleeDist(g, sums, i, v.node, n - 1), v.dist))
  }

  predicate IsTargetHere(g: Icfg, target: set<nat>, countReturns: bool, u: nat)
    requires u < |g.kind|
  {
    u in target && (countReturns || !g.kind[u].FunRet?)
  }

  /** The distance to target `i` after visiting a node. */
  function AfterVisit(g: Icfg, sums: Summaries, target: set<nat>, countReturns: bool, i: nat, v: Visit, best: int): int
    requires g.WellFormed() && v.node < |g.kind|
  {
    var here := if IsTargetHere(g, target, countReturns, v.node) then Lesser(best, v.dist) else best;
    if g.kind[v.node].FunCall? then AfterEdges(g, sums, i, v, |g.out[v.node]|, here) else here
  }

  /** The distance to target `i` after visiting these nodes. */
  ghost function AfterVisits(g: Icfg, sums: Summaries, target: set<nat>, countReturns: bool, i: nat,
                             order: seq<Visit>): int
    requires g.WellFormed() && AllGood(g, order)
  {
    if order == [] then -1
    else
      var last := order[|order| - 1];
      assert last in order;
      AfterVisit(g, sums, target, countReturns, i, last,
                 AfterVisits(g, sums, target, countReturns, i, order[..|order| - 1]))
  }

  /** A distance that a visited node contributes: its own, or one through a callee. */
  ghost predicate IsCandidate(g: Icfg, sums: Summaries, target: set<nat>, countReturns: bool, i: nat, v: Visit, c: int)
    requires g.WellFormed() && v.node < |g.kind|
  {
    || (IsTargetHere(g, target, countReturns, v.node) && c == v.dist)
    || (&& g.kind[v.node].FunCall?
        && exists e :: 0 <= e < |g.out[v.node]| && HasCalleeDist(g, sums, i, v.node, e)
                       && c == CalleeDist(g, sums, i, v.node, e) + v.dist)
  }

  lemma {:induction false} EdgesGiveLeast(g: Icfg, sums: Summaries, i: nat, v: Visit, n: nat, best: int)
    requires g.WellFormed() && v.node < |g.kind| && n <= |g.out[v.node]| && v.dist >= 0
    ensures var r := AfterEdges(g, sums, i, v, n, best);
      && (r == best || exists e ::
            0 <= e < n && HasCalleeDist(g, sums, i, v.node, e) && r == CalleeDist(g, sums, i, v.node, e) + v.dist)
      && (best >= 0 ==> 0 <= r <= best)
      && forall e :: 0 <= e < n && HasCalleeDist(g, sums, i, v.node, e) ==>
           0 <= r <= CalleeDist(g, sums, i, v.node, e) + v.dist
  {
    if n > 0 {
      EdgesGiveLeast(g, sums, i, v, n - 1, best);
    }
  }

  /** Visiting a node takes in exactly its candidates. */
  lemma VisitGivesLeast(g: Icfg, sums: Summaries, target: set<nat>, countReturns: bool, i: nat, v: Visit, best: int)
    requires g.WellFormed() && GoodDist(g, v)
    ensures var r := AfterVisit(g, sums, target, countReturns, i, v, best);
      && (r == best || IsCandidate(g, sums, target, countReturns, i, v, r))
      && (best >= 0 ==> 0 <= r <= best)
      && forall c :: IsCandidate(g, sums, target, countReturns, i, v, c) ==> 0 <= r <= c
  {
    var here := if IsTargetHere(g, target, countReturns, v.node) then Lesser(best, v.dist) else best;
    EdgesGiveLeast(g, sums, i, v, |g.out[v.node]|, here);
  }

  /**
    The collected distance is the least of all candidates of visited nodes, and
    negative exactly when there is none.
  */
  lemma {:induction false} VisitsGiveLeast(g: Icfg, sums: Summaries, target: set<nat>, countReturns: bool, i: nat,
                                           order: seq<Visit>)
    requires g.WellFormed() && AllGood(g, order)
    ensures var r := AfterVisits(g, sums, target, countReturns, i, order);
      && (r >= 0 ==> exists v :: v in order && IsCandidate(g, sums, target, countReturns, i, v, r))
      && (forall v, c :: v in order && IsCandidate(g, sums, target, countReturns, i, v, c) ==> 0 <= r <= c)
  {
    if order != [] {
      var init, last := order[..|order| - 1], order[|order| - 1];
      assert order == init + [last];
      assert last in order;
      VisitsGiveLeast(g, sums, target, countReturns, i, init);
      VisitGivesLeast(g, sums, target, countReturns, i, last, AfterVisits(g, sums, target, countReturns, i, init));
    }
  }

  // ---------------------------------------------------------------- the search

  /** The edges of a call: what they queue, and what they say about the targets. */
  method ExpandCall(g: Icfg, sums: Summaries, targetCount: nat, v: Visit, result: array<int>)
    returns (pushed: seq<Visit>)
    requires g.WellFormed() && SaneSummaries(sums, targetCount) && GoodDist(g, v) && g.kind[v.node].FunCall?
    requires result.Length == targetCount
    modifies result
    ensures pushed == AllPushed(g, sums, v.node, v.dist)
    ensures forall i :: 0 <= i < targetCount ==> result[i] == AfterEdges(g, sums, i, v, |g.out[v.node]|, old(result[i]))
  {
    pushed := [];
    var e := 0;
    while e < |g.out[v.node]|
      invariant 0 <= e <= |g.out[v.node]|
      invariant pushed == PushedUpTo(g, sums, v.node, v.dist, e)
      invariant forall i :: 0 <= i < targetCount ==> result[i] == AfterEdges(g, sums, i, v, e, old(result[i]))
    {
      var dst := g.out[v.node][e];
      var current := v.dist;
      if g.kind[dst].FunRet? {
        current := current + EXTERN_CALL_DIST;
      } else if g.kind[dst].FunEntry? {
        if g.func[dst] !in sums {
          current := current + RECURSIVE_CALL_DIST;
        } else {
          var ok := GetLesserVector(result, sums[g.func[dst]].dist, targetCount, current);
          current := current + AsSigned(sums[g.func[dst]].intra);
        }
      }
      pushed := pushed + [Visit(g.retOf[v.node], current)];
      e := e + 1;
    }
  }

  method ExpandOther(g: Icfg, sums: Summaries, v: Visit) returns (pushed: seq<Visit>)
    requires g.WellFormed() && v.node < |g.kind| && !g.kind[v.node].FunCall? && !g.kind[v.node].FunExit?
    ensures pushed == AllPushed(g, sums, v.node, v.dist)
  {
    pushed := [];
    var e := 0;
    while e < |g.out[v.node]|
      invariant 0 <= e <= |g.out[v.node]|
      invariant pushed == PushedUpTo(g, sums, v.node, v.dist, e)
    {
      pushed := pushed + [Visit(g.out[v.node][e], v.dist + 1)];
      e := e + 1;
    }
  }

  method CheckTargets(g: Icfg, targets: seq<set<nat>>, countReturns: bool, v: Visit, result: array<int>)
    requires GoodDist(g, v) && result.Length == |targets|
    modifies result
    ensures forall i :: 0 <= i < |targets| ==>
              result[i] == if IsTargetHere(g, targets[i], countReturns, v.node)
                           then Lesser(old(result[i]), v.dist) else old(result[i])
  {
    var i := 0;
    while i < |targets|
      invariant 0 <= i <= |targets|
      invariant forall k :: i <= k < |targets| ==> result[k] == old(result[k])
      invariant forall k :: 0 <= k < i ==>
                  result[k] == if IsTargetHere(g, targets[k], countReturns, v.node)
                           then Lesser(old(result[k]), v.dist) else old(result[k])
    {
      if v.node in targets[i] && (countReturns || !g.kind[v.node].FunRet?) {
        if result[i] < 0 || v.dist < result[i] {
          result[i] := v.dist;
        }
      }
      i := i + 1;
    }
  }

  /** Checks a node against the targets and expands it. */
  method VisitNode(g: Icfg, sums: Summaries, targets: seq<set<nat>>, countReturns: bool, v: Visit, result: array<int>)
    returns (pushed: seq<Visit>)
    requires g.WellFormed() && SaneSummaries(sums, |targets|) && GoodDist(g, v) && result.Length == |targets|
    modifies result
    ensures pushed == AllPushed(g, sums, v.node, v.dist)
    ensures forall i :: 0 <= i < |targets| ==>
              result[i] == AfterVisit(g, sums, targets[i], countReturns, i, v, old(result[i]))
  {
    CheckTargets(g, targets, countReturns, v, result);
    pushed := [];
    if g.kind[v.node].FunExit? {
    } else if g.kind[v.node].FunCall? {
      pushed := ExpandCall(g, sums, |targets|, v, result);
    } else {
      pushed := ExpandOther(g, sums, v);
    }
  }

  ghost function VisitedNodes(order: seq<Visit>): set<nat> {
    set v | v in order :: v.node
  }

  ghost function AllNodes(n: nat): (nodes: set<nat>)
    ensures forall u: nat :: u in nodes <==> u < n
  {
    if n == 0 then {} else AllNodes(n - 1) + {n - 1}
  }

  /** A finished search: nothing is left to do, so the visited nodes are closed under steps. */
  ghost predicate IsSearch(g: Icfg, sums: Summaries, start: nat, order: seq<Visit>) {
    g.WellFormed() && order != [] && SearchState(g, sums, start, order, [])
  }

  predicate IsExit(g: Icfg, exit: nat, u: nat) {
    u == exit && u < |g.kind| && g.kind[u].FunExit?
  }

  /** The distance through the function, after one more visit: the least distance at its exit. */
  function IntraAfterVisit(g: Icfg, exit: nat, v: Visit, before: Intra): Intra
    requires v.dist >= 0
  {
    if IsExit(g, exit, v.node) && (before.NoReturn? || before.dist > v.dist) then Through(v.dist) else before
  }

  ghost function IntraAfter(g: Icfg, exit: nat, order: seq<Visit>): Intra
    requires AllGood(g, order)
  {
    if order == [] then NoReturn
    else
      var last := order[|order| - 1];
      assert last in order;
      IntraAfterVisit(g, exit, last, IntraAfter(g, exit, order[..|order| - 1]))
  }

  /** What the collected distances and the distance to the exit are, for a finished search. */
  ghost predicate IsOutcome(g: Icfg, sums: Summaries, targets: seq<set<nat>>, countReturns: bool, exit: nat,
                            order: seq<Visit>, result: seq<int>, intra: Intra)
  {
    && g.WellFormed() && AllGood(g, order) && |result| == |targets|
    && (forall i :: 0 <= i < |targets| ==> result[i] == AfterVisits(g, sums, targets[i], countReturns, i, order))
    && intra == IntraAfter(g, exit, order)
  }

  lemma OutcomeGrows(g: Icfg, sums: Summaries, targets: seq<set<nat>>, countReturns: bool, exit: nat,
                     order: seq<Visit>, v: Visit, before: seq<int>, after: seq<int>, intra: Intra)
    requires IsOutcome(g, sums, targets, countReturns, exit, order, before, intra) && GoodDist(g, v)
    requires |after| == |targets|
    requires forall i :: 0 <= i < |targets| ==>
        after[i] == AfterVisit(g, sums, targets[i], countReturns, i, v, before[i])
    ensures IsOutcome(g, sums, targets, countReturns, exit, order + [v], after, IntraAfterVisit(g, exit, v, intra))
  {
    assert (order + [v])[..|order|] == order;
  }

  /** The distance through a function is that at which its exit was visited. */
  lemma {:induction false} IntraIsExitDistance(g: Icfg, exit: nat, order: seq<Visit>)
    requires Distinct(order) && AllGood(g, order)
    ensures forall v :: v in order && IsExit(g, exit, v.node) ==> IntraAfter(g, exit, order) == Through(v.dist)
    ensures (forall v :: v in order ==> !IsExit(g, exit, v.node)) ==> IntraAfter(g, exit, order) == NoReturn
  {
    if order != [] {
      var init, last := order[..|order| - 1], order[|order| - 1];
      assert order == init + [last];
      IntraIsExitDistance(g, exit, init);
      if IsExit(g, exit, last.node) {
        forall v | v in init ensures !IsExit(g, exit, v.node) {
          var j :| 0 <= j < |init| && init[j] == v;
          assert order[j].node != order[|order| - 1].node;
        }
      }
    }
  }

  lemma VisitedGrows(g: Icfg, order: seq<Visit>, v: Visit)
    requires VisitedNodes(order) <= AllNodes(|g.kind|) && v.node < |g.kind|
    ensures VisitedNodes(order + [v]) == VisitedNodes(order) + {v.node} <= AllNodes(|g.kind|)
  {
    assert v in order + [v];
    forall u | u in VisitedNodes(order) + {v.node} ensures u in VisitedNodes(order + [v]) {
      if u in VisitedNodes(order) {
        var w :| w in order && w.node == u;
        assert w in order + [v];
      }
    }
  }

  /** The front of the queue is a new node. */
  method VisitFront(g: Icfg, sums: Summaries, targets: seq<set<nat>>, countReturns: bool, start: nat, exit: nat,
                    queue: seq<Visit>, dists: array<int>, intra: Intra, ghost order: seq<Visit>)
    returns (queue': seq<Visit>, intra': Intra)
    requires g.WellFormed() && SaneSummaries(sums, |targets|)
    requires SearchState(g, sums, start, order, queue) && queue != [] && !IsVisited(order, queue[0].node)
    requires dists.Length == |targets| && IsOutcome(g, sums, targets, countReturns, exit, order, dists[..], intra)
    modifies dists
    ensures queue[0].node < |g.kind|
    ensures SearchState(g, sums, start, order + [queue[0]], queue')
    ensures IsOutcome(g, sums, targets, countReturns, exit, order + [queue[0]], dists[..], intra')
  {
    var v := queue[0];
    assert v in queue;
    SearchVisits(g, sums, start, order, queue, |targets|);
    ghost var before := dists[..];
    var pushed := VisitNode(g, sums, targets, countReturns, v, dists);
    OutcomeGrows(g, sums, targets, countReturns, exit, order, v, before, dists[..], intra);
    intra' := intra;
    if IsExit(g, exit, v.node) && (intra.NoReturn? || intra.dist > v.dist) {
      intra' := Through(v.dist);
    }
    queue' := queue[1..] + pushed;
  }

  /** The breadth-first search over one function: it ends on every graph. */
  method Search(g: Icfg, sums: Summaries, targets: seq<set<nat>>, countReturns: bool, start: nat, exit: nat)
    returns (result: seq<int>, intra: Intra, ghost order: seq<Visit>)
    requires g.WellFormed() && SaneSummaries(sums, |targets|) && start < |g.kind|
    ensures IsSearch(g, sums, start, order)
    ensures IsOutcome(g, sums, targets, countReturns, exit, order, result, intra)
    ensures |result| == |targets| && forall i :: 0 <= i < |targets| ==>
        IsDistance(g, sums, targets[i], countReturns, i, start, result[i])
  {
    var dists := new int[|targets|](_ => -1);
    var queue := [Visit(start, 1)];
    var visited: set<nat> := {};
    intra := NoReturn;
    order := [];
    SearchStarts(g, sums, start);
    while queue != []
      invariant SearchState(g, sums, start, order, queue)
      invariant visited == VisitedNodes(order) && visited <= AllNodes(|g.kind|)
      invariant dists.Length == |targets| && IsOutcome(g, sums, targets, countReturns, exit, order, dists[..], intra)
      decreases AllNodes(|g.kind|) - visited, |queue|
    {
      var v := queue[0];
      assert v.node in visited <==> IsVisited(order, v.node);
      if v.node in visited {
        SearchDrops(g, sums, start, order, queue, queue[1..]);
        queue := queue[1..];
      } else {
        queue, intra := VisitFront(g, sums, targets, countReturns, start, exit, queue, dists, intra, order);
        VisitedGrows(g, order, v);
        visited := visited + {v.node};
        order := order + [v];
      }
    }
    result := dists[..];
    forall i: nat | i < |targets| ensures IsDistance(g, sums, targets[i], countReturns, i, start, result[i]) {
      SearchGivesDistance(g, sums, targets[i], countReturns, i, start, order);
    }
  }

  /** `singleCalculateBlock`: the distances from one node to all targets. */
  method SingleCalculateBlock(g: Icfg, sums: Summaries, targets: seq<set<nat>>, start: nat) returns (result: seq<int>)
    requires g.WellFormed() && SaneSummaries(sums, |targets|) && start < |g.kind|
    ensures |result| == |targets| && forall i :: 0 <= i < |targets| ==>
        IsDistance(g, sums, targets[i], false, i, start, result[i])
  {
    var intra;
    ghost var order;
    result, intra, order := Search(g, sums, targets, false, start, start);
  }

  // ---------------------------------------------------------------- what a finished search found

  /** A step from a node is among what visiting the node queues. */
  lemma StepIsPushed(g: Icfg, sums: Summaries, u: Visit, v: nat, w: int) returns (p: Visit)
    requires g.WellFormed() && IsStep(g, sums, u.node, v, w)
    ensures p == Visit(v, u.dist + w) && p in AllPushed(g, sums, u.node, u.dist)
    ensures !g.kind[u.node].FunCall? ==> w == 1
  {
    var e := StepHasEdge(g, sums, u.node, v, w, u.dist);
    p := Pushed(g, sums, u.node, u.dist, e);
    assert AllPushed(g, sums, u.node, u.dist)[e] == p;
  }

  lemma NextIsVisited(g: Icfg, sums: Summaries, order: seq<Visit>, u: Visit, v: nat, w: int)
    requires g.WellFormed() && Closed(g, sums, order, []) && u in order && IsStep(g, sums, u.node, v, w)
    ensures IsVisited(order, v)
  {
    var p := StepIsPushed(g, sums, u, v, w);
    assert !IsVisited([], p.node);
  }

  lemma {:induction false} WalksAreVisited(g: Icfg, sums: Summaries, start: nat, order: seq<Visit>, walk: seq<Visit>,
                                           k: nat)
    requires g.WellFormed() && Closed(g, sums, order, []) && IsVisited(order, start)
    requires IsWalk(g, sums, start, walk) && k < |walk|
    ensures IsVisited(order, walk[k].node)
  {
    if k > 0 {
      WalksAreVisited(g, sums, start, order, walk, k - 1);
      var u :| u in order && u.node == walk[k - 1].node;
      NextIsVisited(g, sums, order, u, walk[k].node, walk[k].dist - walk[k - 1].dist);
    }
  }

  /** The search visits exactly the nodes that some walk reaches. */
  lemma VisitsAreTheReachable(g: Icfg, sums: Summaries, start: nat, order: seq<Visit>, u: nat)
    requires IsSearch(g, sums, start, order)
    ensures IsVisited(order, u) <==> exists w :: Reaches(g, sums, start, u, w)
  {
    if IsVisited(order, u) {
      var v :| v in order && v.node == u;
      assert Reaches(g, sums, start, u, v.dist - 1);
    }
    if exists w :: Reaches(g, sums, start, u, w) {
      var w :| Reaches(g, sums, start, u, w);
      var walk :| IsWalk(g, sums, start, walk) && walk[|walk| - 1] == Visit(u, w);
      assert order[0] in order;
      WalksAreVisited(g, sums, start, order, walk, |walk| - 1);
    }
  }

  /** A node with something to say about target `i`, wherever it is reached. */
  ghost predicate Contributes(g: Icfg, sums: Summaries, target: set<nat>, countReturns: bool, i: nat, u: nat)
    requires g.WellFormed()
  {
    && u < |g.kind|
    && (|| IsTargetHere(g, target, countReturns, u)
        || (g.kind[u].FunCall? && exists e :: 0 <= e < |g.out[u]| && HasCalleeDist(g, sums, i, u, e)))
  }

  /** Some reachable node is a target or calls a function known to lead to one. */
  ghost predicate IsFound(g: Icfg, sums: Summaries, target: set<nat>, countReturns: bool, i: nat, start: nat)
    requires g.WellFormed()
  {
    exists u: nat, w :: Reaches(g, sums, start, u, w) && Contributes(g, sums, target, countReturns, i, u)
  }

  /** The distance is that of a walk to such a node, with the rest of the way inside the function called there. */
  ghost predicate IsRealised(g: Icfg, sums: Summaries, target: set<nat>, countReturns: bool, i: nat, start: nat, r: int)
    requires g.WellFormed()
  {
    exists v: Visit :: v.node < |g.kind| && Reaches(g, sums, start, v.node, v.dist - 1)
        && IsCandidate(g, sums, target, countReturns, i, v, r)
  }

  /**
    A distance is found exactly when a reachable node is a target or calls a
    function known to lead to one; and then it is realised by an actual walk.
  */
  lemma DistanceIsRealised(g: Icfg, sums: Summaries, target: set<nat>, countReturns: bool, i: nat, start: nat,
                           order: seq<Visit>)
    requires IsSearch(g, sums, start, order) && AllGood(g, order)
    ensures var r := AfterVisits(g, sums, target, countReturns, i, order);
      && (r >= 0 <==> IsFound(g, sums, target, countReturns, i, start))
      && (r >= 0 ==> IsRealised(g, sums, target, countReturns, i, start, r))
  {
    var r := AfterVisits(g, sums, target, countReturns, i, order);
    VisitsGiveLeast(g, sums, target, countReturns, i, order);
    if r >= 0 {
      var v :| v in order && IsCandidate(g, sums, target, countReturns, i, v, r);
      CandidateContributes(g, sums, target, countReturns, i, v, r);
      assert Reaches(g, sums, start, v.node, v.dist - 1);
    }
    if IsFound(g, sums, target, countReturns, i, start) {
      var u: nat, w :| Reaches(g, sums, start, u, w) && Contributes(g, sums, target, countReturns, i, u);
      VisitsAreTheReachable(g, sums, start, order, u);
      var v :| v in order && v.node == u;
      var c := ContributionIsCandidate(g, sums, target, countReturns, i, v);
    }
  }

  lemma CandidateContributes(g: Icfg, sums: Summaries, target: set<nat>, countReturns: bool, i: nat, v: Visit, c: int)
    requires g.WellFormed() && v.node < |g.kind| && IsCandidate(g, sums, target, countReturns, i, v, c)
    ensures Contributes(g, sums, target, countReturns, i, v.node)
  {
  }

  lemma ContributionIsCandidate(g: Icfg, sums: Summaries, target: set<nat>, countReturns: bool, i: nat, v: Visit)
    returns (c: int)
    requires g.WellFormed() && Contributes(g, sums, target, countReturns, i, v.node)
    ensures IsCandidate(g, sums, target, countReturns, i, v, c)
  {
    if IsTargetHere(g, target, countReturns, v.node) {
      c := v.dist;
    } else {
      var e :| 0 <= e < |g.out[v.node]| && HasCalleeDist(g, sums, i, v.node, e);
      c := CalleeDist(g, sums, i, v.node, e) + v.dist;
    }
  }

  /** No call can be reached: then every step weighs one. */
  ghost predicate NoReachableCall(g: Icfg, sums: Summaries, start: nat)
    requires g.WellFormed()
  {
    forall u: nat, w :: u < |g.kind| && Reaches(g, sums, start, u, w) ==> !g.kind[u].FunCall?
  }

  lemma NextIsNear(g: Icfg, sums: Summaries, start: nat, order: seq<Visit>, u: Visit, v: nat, w: int)
    requires IsSearch(g, sums, start, order) && NoCalls(g, order)
    requires u in order && u.node < |g.kind| && IsStep(g, sums, u.node, v, w)
    ensures w == 1 && IsNear(order, v, u.dist + 1)
  {
    var p := StepIsPushed(g, sums, u, v, w);
    assert IsNear(order, p.node, u.dist + 1);
  }

  lemma NearerIsNear(list: seq<Visit>, u: nat, bound: int, more: int)
    requires IsNear(list, u, bound) && bound <= more
    ensures IsNear(list, u, more)
  {
  }

  lemma {:induction false} WalksAreNoShorter(g: Icfg, sums: Summaries, start: nat, order: seq<Visit>, walk: seq<Visit>,
                                             k: nat)
    requires IsSearch(g, sums, start, order) && IsWalk(g, sums, start, walk) && k < |walk|
    requires NoCalls(g, order)
    ensures IsNear(order, walk[k].node, walk[k].dist + 1) && walk[k].dist == k
  {
    if k == 0 {
      assert order[0] in order;
    } else {
      var prev, here := walk[k - 1], walk[k];
      WalksAreNoShorter(g, sums, start, order, walk, k - 1);
      var u :| u in order && u.node == prev.node && u.dist <= prev.dist + 1;
      NextIsNear(g, sums, start, order, u, here.node, here.dist - prev.dist);
      NearerIsNear(order, here.node, u.dist + 1, here.dist + 1);
    }
  }

  lemma SearchMeetsNoCalls(g: Icfg, sums: Summaries, start: nat, order: seq<Visit>)
    requires IsSearch(g, sums, start, order) && NoReachableCall(g, sums, start)
    ensures NoCalls(g, order)
  {
    forall v | v in order && v.node < |g.kind| ensures !g.kind[v.node].FunCall? {
      assert Reaches(g, sums, start, v.node, v.dist - 1);
    }
  }

  /** Where no call can be reached, no walk to a target has fewer nodes than the distance. */
  lemma DistanceIsShortest(g: Icfg, sums: Summaries, target: set<nat>, countReturns: bool, i: nat, start: nat,
                           order: seq<Visit>,
                           walk: seq<Visit>)
    requires IsSearch(g, sums, start, order) && AllGood(g, order) && NoReachableCall(g, sums, start)
    requires IsWalk(g, sums, start, walk)
    requires walk[|walk| - 1].node < |g.kind| && IsTargetHere(g, target, countReturns, walk[|walk| - 1].node)
    ensures 0 <= AfterVisits(g, sums, target, countReturns, i, order) <= |walk|
  {
    SearchMeetsNoCalls(g, sums, start, order);
    WalksAreNoShorter(g, sums, start, order, walk, |walk| - 1);
    var v :| v in order && v.node == walk[|walk| - 1].node && v.dist <= |walk|;
    VisitsGiveLeast(g, sums, target, countReturns, i, order);
    assert IsCandidate(g, sums, target, countReturns, i, v, v.dist);
  }

  lemma CandidateIsTarget(g: Icfg, sums: Summaries, target: set<nat>, countReturns: bool, i: nat, order: seq<Visit>,
                          v: Visit, c: int)
    requires g.WellFormed() && AllGood(g, order) && NoCalls(g, order) && v in order
    requires v.node < |g.kind| && IsCandidate(g, sums, target, countReturns, i, v, c)
    ensures c == v.dist && IsTargetHere(g, target, countReturns, v.node)
  {
  }

  /** The walk behind a visit, when every step weighs one. */
  lemma WalkOfVisit(g: Icfg, sums: Summaries, start: nat, order: seq<Visit>, v: Visit) returns (walk: seq<Visit>)
    requires IsSearch(g, sums, start, order) && NoCalls(g, order) && v in order
    ensures IsWalk(g, sums, start, walk) && |walk| == v.dist && walk[|walk| - 1].node == v.node
  {
    assert Reaches(g, sums, start, v.node, v.dist - 1);
    walk :| IsWalk(g, sums, start, walk) && walk[|walk| - 1] == Visit(v.node, v.dist - 1);
    WalksAreNoShorter(g, sums, start, order, walk, |walk| - 1);
  }

  /** Where no call can be reached, some walk to a target has as many nodes as the distance. */
  lemma ShortestIsRealised(g: Icfg, sums: Summaries, target: set<nat>, countReturns: bool, i: nat, start: nat,
                           order: seq<Visit>)
    returns (walk: seq<Visit>)
    requires IsSearch(g, sums, start, order) && AllGood(g, order) && NoReachableCall(g, sums, start)
    requires AfterVisits(g, sums, target, countReturns, i, order) >= 0
    ensures IsWalk(g, sums, start, walk) && |walk| == AfterVisits(g, sums, target, countReturns, i, order)
    ensures walk[|walk| - 1].node < |g.kind| && IsTargetHere(g, target, countReturns, walk[|walk| - 1].node)
  {
    var r := AfterVisits(g, sums, target, countReturns, i, order);
    SearchMeetsNoCalls(g, sums, start, order);
    VisitsGiveLeast(g, sums, target, countReturns, i, order);
    var v :| v in order && IsCandidate(g, sums, target, countReturns, i, v, r);
    CandidateIsTarget(g, sums, target, countReturns, i, order, v, r);
    walk := WalkOfVisit(g, sums, start, order, v);
  }

  // ---------------------------------------------------------------- what a distance is

  ghost predicate IsTargetWalk(g: Icfg, sums: Summaries, target: set<nat>, countReturns: bool, start: nat,
                               walk: seq<Visit>)
    requires g.WellFormed()
  {
    && IsWalk(g, sums, start, walk)
    && walk[|walk| - 1].node < |g.kind| && IsTargetHere(g, target, countReturns, walk[|walk| - 1].node)
  }

  /** The number of nodes on a shortest walk to a target. */
  ghost predicate IsShortest(g: Icfg, sums: Summaries, target: set<nat>, countReturns: bool, start: nat, r: int)
    requires g.WellFormed()
  {
    && (forall walk :: IsTargetWalk(g, sums, target, countReturns, start, walk) ==> 0 <= r <= |walk|)
    && (r >= 0 ==> exists walk :: IsTargetWalk(g, sums, target, countReturns, start, walk) && |walk| == r)
  }

  /** What the search promises of the distance to one target. */
  ghost predicate IsDistance(g: Icfg, sums: Summaries, target: set<nat>, countReturns: bool, i: nat, start: nat, r: int)
    requires g.WellFormed()
  {
    && (r >= 0 <==> IsFound(g, sums, target, countReturns, i, start))
    && (r >= 0 ==> IsRealised(g, sums, target, countReturns, i, start, r))
    && (NoReachableCall(g, sums, start) ==> IsShortest(g, sums, target, countReturns, start, r))
  }

  lemma SearchGivesDistance(g: Icfg, sums: Summaries, target: set<nat>, countReturns: bool, i: nat, start: nat,
                            order: seq<Visit>)
    requires IsSearch(g, sums, start, order) && AllGood(g, order)
    ensures IsDistance(g, sums, target, countReturns, i, start, AfterVisits(g, sums, target, countReturns, i, order))
  {
    DistanceIsRealised(g, sums, target, countReturns, i, start, order);
    if NoReachableCall(g, sums, start) {
      SearchGivesShortest(g, sums, target, countReturns, i, start, order);
    }
  }

  lemma SearchGivesShortest(g: Icfg, sums: Summaries, target: set<nat>, countReturns: bool, i: nat, start: nat,
                            order: seq<Visit>)
    requires IsSearch(g, sums, start, order) && AllGood(g, order) && NoReachableCall(g, sums, start)
    ensures IsShortest(g, sums, target, countReturns, start, AfterVisits(g, sums, target, countReturns, i, order))
  {
    forall walk | IsTargetWalk(g, sums, target, countReturns, start, walk)
      ensures 0 <= AfterVisits(g, sums, target, countReturns, i, order) <= |walk|
    {
      DistanceIsShortest(g, sums, target, countReturns, i, start, order, walk);
    }
    if AfterVisits(g, sums, target, countReturns, i, order) >= 0 {
      var walk := ShortestIsRealised(g, sums, target, countReturns, i, start, order);
      assert IsTargetWalk(g, sums, target, countReturns, start, walk);
    }
  }

  // ---------------------------------------------------------------- a callee that does not return

  /** Function 0 calls function 1, which loops: entry 0, call 1, return 2; entry 3, loop 4, exit 5. */
  const ENDLESS: Icfg :=
    Icfg([FunEntry, FunCall, FunRet, FunEntry, Other, FunExit], [[1], [3], [], [4], [4], []], [0, 2, 0, 0, 0, 0],
         [0, 0, 0, 1, 1, 1])

  lemma {:induction false} LoopIsNotLeft(sums: Summaries, walk: seq<Visit>, k: nat)
    requires ENDLESS.WellFormed() && IsWalk(ENDLESS, sums, 3, walk) && k < |walk|
    ensures walk[k].node == 3 || walk[k].node == 4
  {
    if k > 0 {
      LoopIsNotLeft(sums, walk, k - 1);
      var u := walk[k - 1].node;
      assert IsStep(ENDLESS, sums, u, walk[k].node, walk[k].dist - walk[k - 1].dist);
      assert |ENDLESS.out[u]| == 1 && ENDLESS.out[u][0] == 4;
    }
  }

  lemma ExitIsNotMet(sums: Summaries, order: seq<Visit>)
    requires IsSearch(ENDLESS, sums, 3, order) && AllGood(ENDLESS, order)
    ensures IntraAfter(ENDLESS, 5, order) == NoReturn
  {
    forall v | v in order ensures !IsExit(ENDLESS, 5, v.node) {
      assert Reaches(ENDLESS, sums, 3, v.node, v.dist - 1);
      var walk :| IsWalk(ENDLESS, sums, 3, walk) && walk[|walk| - 1] == Visit(v.node, v.dist - 1);
      LoopIsNotLeft(sums, walk, |walk| - 1);
    }
    IntraIsExitDistance(ENDLESS, 5, order);
  }

  lemma CallIsPassedBackwards(sums: Summaries)
    requires ENDLESS.WellFormed() && 1 in sums && sums[1].intra.NoReturn?
    ensures Reaches(ENDLESS, sums, 0, 1, 1) && Reaches(ENDLESS, sums, 0, 2, 0)
  {
    var start: seq<Visit> := [Visit(0, 0)];
    assert IsWalk(ENDLESS, sums, 0, start) && start[|start| - 1] == Visit(0, 0);
    assert ENDLESS.kind[0].FunEntry? && ENDLESS.out[0] == [1];
    ReachesMore(ENDLESS, sums, 0, 0, 0, 0, 0);
    assert Pushed(ENDLESS, sums, 0, 0, 0) == Visit(1, 1);
    assert ENDLESS.kind[1].FunCall? && ENDLESS.out[1] == [3];
    assert Pushed(ENDLESS, sums, 1, 0, 0) == Visit(2, -1);
    ReachesMore(ENDLESS, sums, 0, 1, 1, 0, 0);
  }

  /** The search of an endless function leaves the sentinel, and its caller then passes the call one step back. */
  method SearchEndless() returns (intra: Intra, ghost sums: Summaries)
    ensures intra.NoReturn? && ENDLESS.WellFormed() && sums == map[1 := Summary(intra, [])]
    ensures Reaches(ENDLESS, sums, 0, 1, 1) && Reaches(ENDLESS, sums, 0, 2, 0)
  {
    var dist;
    ghost var order;
    assert ENDLESS.WellFormed();
    dist, intra, order := Search(ENDLESS, map[], [], true, 3, 5);
    ExitIsNotMet(map[], order);
    sums := map[1 := Summary(intra, [])];
    CallIsPassedBackwards(sums);
  }
}
