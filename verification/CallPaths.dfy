/**
  What the numbers of the distance analyzer are distances along: ways through a program
  that go into the functions they call, as deep as these call on.
*/
module CallPaths {
  import opened Distances
  import opened IcfgSearch
  import opened CallSummaries

  /**
    A way within one function, with ways through the functions it calls.  A call is passed along the whole of the
    callee (`Through`), or at a fixed weight.
  */
  datatype Path =
    | Begin(node: nat)
    | Along(path: Path, to: nat)
    | Through(path: Path, inner: Path, to: nat)
    | Past(path: Path, to: nat, weight: int)

  ghost function End(path: Path): nat {
    match path
    case Begin(n) => n
    case Along(_, to) => to
    case Through(_, _, to) => to
    case Past(_, to, _) => to
  }

  ghost function First(path: Path): nat {
    match path
    case Begin(n) => n
    case Along(q, _) => First(q)
    case Through(q, _, _) => First(q)
    case Past(q, _, _) => First(q)
  }

  /** An edge weighs one, and so does the step back from a callee's exit to the return node. */
  ghost function Weight(path: Path): int {
    match path
    case Begin(_) => 0
    case Along(q, _) => Weight(q) + 1
    case Through(q, inner, _) => Weight(q) + Weight(inner) + 1
    case Past(q, _, w) => Weight(q) + w
  }

  /** `x` is the entry of function `f`, called at `u`. */
  ghost predicate Calls(g: Icfg, u: nat, x: nat, f: Func)
    requires g.WellFormed()
  {
    u < |g.kind| && g.kind[u].FunCall? && x < |g.kind| && x in g.out[u] && g.kind[x].FunEntry? && g.func[x] == f
  }

  /** The fixed weights: external functions, functions not finished yet, finished ones whose exit is not met. */
  ghost predicate IsFixedWeight(p: Program, sums: Summaries, finished: seq<Func>, u: nat, w: int)
    requires p.g.WellFormed()
  {
    && u < |p.g.kind| && p.g.kind[u].FunCall?
    && exists x: nat :: x in p.g.out[u] && x < |p.g.kind| && HasFixedWeight(p, sums, finished, x, w)
  }

  ghost predicate HasFixedWeight(p: Program, sums: Summaries, finished: seq<Func>, x: nat, w: int)
    requires p.g.WellFormed() && x < |p.g.kind|
  {
    match p.g.kind[x]
    case FunRet => w == 50
    case FunEntry =>
      var f := p.g.func[x];
      || (w == 45 && f !in finished)
      || (w == -1 && f in finished && f in sums && sums[f].intra.NoReturn?)
    case _ => w == 0
  }

  /**
    Is it a way of the program?  Inside a callee only the functions that finished before it are gone through: the
    others lead back to it.
  */
  ghost predicate IsPath(p: Program, sums: Summaries, finished: seq<Func>, path: Path)
    requires p.WellFormed()
    decreases path
  {
    var g := p.g;
    match path
    case Begin(n) => n < |g.kind|
    case Along(q, to) =>
      var u := End(q);
      IsPath(p, sums, finished, q) && u < |g.kind| && !g.kind[u].FunExit? && !g.kind[u].FunCall? && to in g.out[u]
    case Past(q, to, w) =>
      var u := End(q);
      IsPath(p, sums, finished, q) && IsFixedWeight(p, sums, finished, u, w) && to == g.retOf[u]
    case Through(q, inner, to) =>
      var u := End(q);
      && IsPath(p, sums, finished, q) && u < |g.kind| && g.kind[u].FunCall? && to == g.retOf[u]
      && exists x: nat, j: nat :: j < |finished| && Calls(g, u, x, finished[j])
           && CrossesFunction(p, finished[j], inner) && IsPath(p, sums, finished[..j], inner)
  }

  /** From the entry of a function to its exit. */
  ghost predicate CrossesFunction(p: Program, f: Func, path: Path) {
    && f in p.entryOf && f in p.exitOf && First(path) == p.entryOf[f] && End(path) == p.exitOf[f]
    && End(path) < |p.g.kind| && p.g.kind[End(path)].FunExit?
  }

  /** A way to a target: within the function, or on into one that is called there. */
  datatype Way = Here(path: Path) | Inside(path: Path, rest: Way)

  ghost function Start(way: Way): nat {
    First(way.path)
  }

  /** The number that stands for it: the nodes of the search are counted from one. */
  ghost function Cost(way: Way): int {
    match way
    case Here(path) => Weight(path) + 1
    case Inside(path, rest) => Weight(path) + 1 + Cost(rest)
  }

  ghost predicate IsWay(p: Program, sums: Summaries, finished: seq<Func>, target: set<nat>, countReturns: bool,
                        way: Way)
    requires p.WellFormed()
    decreases way
  {
    && IsPath(p, sums, finished, way.path)
    && match way
       case Here(path) =>
         End(path) < |p.g.kind| && End(path) in target && (countReturns || !p.g.kind[End(path)].FunRet?)
       case Inside(path, rest) =>
         exists x: nat, j: nat :: j < |finished| && Calls(p.g, End(path), x, finished[j])
           && finished[j] in p.entryOf && Start(rest) == p.entryOf[finished[j]]
           && IsWay(p, sums, finished[..j], target, true, rest)
  }

  // ---------------------------------------------------------------- from the search to ways

  /** The distance through each of these functions, in the order in which they finished, is that of a crossing. */
  ghost predicate SummariesCross(p: Program, sums: Summaries, finished: seq<Func>)
    requires p.WellFormed()
  {
    forall j: nat :: j < |finished| ==> SummaryCrosses(p, sums, finished, j)
  }

  ghost predicate SummaryCrosses(p: Program, sums: Summaries, finished: seq<Func>, j: nat)
    requires p.WellFormed() && j < |finished|
  {
    var f := finished[j];
    f in sums && (sums[f].intra.Through? ==>
                    exists inner :: IsCrossing(p, sums, finished[..j], f, inner, sums[f].intra.dist))
  }

  ghost predicate IsCrossing(p: Program, sums: Summaries, finished: seq<Func>, f: Func, inner: Path, d: int)
    requires p.WellFormed()
  {
    CrossesFunction(p, f, inner) && IsPath(p, sums, finished, inner) && Weight(inner) + 1 == d
  }

  /** A step of the search, as one more piece of a path. */
  lemma StepExtends(p: Program, sums: Summaries, finished: seq<Func>, path: Path, v: nat, w: int)
    returns (longer: Path)
    requires p.WellFormed() && SummariesCross(p, sums, finished) && IsPath(p, sums, finished, path)
    requires IsStep(p.g, Restricted(sums, finished), End(path), v, w)
    ensures IsPath(p, sums, finished, longer)
    ensures First(longer) == First(path) && End(longer) == v && Weight(longer) == Weight(path) + w
  {
    var g, u, known := p.g, End(path), Restricted(sums, finished);
    if !g.kind[u].FunCall? {
      longer := Along(path, v);
    } else {
      var x: nat :| x in g.out[u] && x < |g.kind| && IsPassed(g, known, x, w);
      if g.kind[x].FunEntry? && g.func[x] in finished {
        var j :| 0 <= j < |finished| && finished[j] == g.func[x];
        assert SummaryCrosses(p, sums, finished, j);
        longer := PassingExtends(p, sums, finished, path, x, j, v, w);
      } else {
        assert HasFixedWeight(p, sums, finished, x, w);
        longer := Past(path, v, w);
      }
    }
  }

  lemma PassingExtends(p: Program, sums: Summaries, finished: seq<Func>, path: Path, x: nat, j: nat, v: nat, w: int)
    returns (longer: Path)
    requires p.WellFormed() && IsPath(p, sums, finished, path) && j < |finished|
    requires SummaryCrosses(p, sums, finished, j)
    requires Calls(p.g, End(path), x, finished[j]) && IsPassed(p.g, Restricted(sums, finished), x, w)
    requires v == p.g.retOf[End(path)]
    ensures IsPath(p, sums, finished, longer)
    ensures First(longer) == First(path) && End(longer) == v && Weight(longer) == Weight(path) + w
  {
    var f := finished[j];
    assert f in Restricted(sums, finished);
    if sums[f].intra.NoReturn? {
      assert HasFixedWeight(p, sums, finished, x, w);
      longer := Past(path, v, w);
    } else {
      var inner :| IsCrossing(p, sums, finished[..j], f, inner, sums[f].intra.dist);
      longer := Path.Through(path, inner, v);
    }
  }

  lemma {:induction false} WalkIsPath(p: Program, sums: Summaries, finished: seq<Func>, start: nat, walk: seq<Visit>,
                                      k: nat)
    returns (path: Path)
    requires p.WellFormed() && SummariesCross(p, sums, finished) && start < |p.g.kind|
    requires IsWalk(p.g, Restricted(sums, finished), start, walk) && k < |walk|
    ensures IsPath(p, sums, finished, path)
    ensures First(path) == start && End(path) == walk[k].node && Weight(path) == walk[k].dist
  {
    if k == 0 {
      path := Begin(start);
    } else {
      path := WalkIsPath(p, sums, finished, start, walk, k - 1);
      path := StepExtends(p, sums, finished, path, walk[k].node, walk[k].dist - walk[k - 1].dist);
    }
  }

  lemma ReachingPath(p: Program, sums: Summaries, finished: seq<Func>, start: nat, v: nat, w: int)
    returns (path: Path)
    requires p.WellFormed() && SummariesCross(p, sums, finished) && start < |p.g.kind|
    requires Reaches(p.g, Restricted(sums, finished), start, v, w)
    ensures IsPath(p, sums, finished, path) && First(path) == start && End(path) == v && Weight(path) == w
  {
    var walk :| IsWalk(p.g, Restricted(sums, finished), start, walk) && walk[|walk| - 1] == Visit(v, w);
    path := WalkIsPath(p, sums, finished, start, walk, |walk| - 1);
  }

  lemma ExitWasVisited(g: Icfg, exit: nat, order: seq<Visit>) returns (v: Visit)
    requires Distinct(order) && AllGood(g, order) && IntraAfter(g, exit, order).Through?
    ensures v in order && IsExit(g, exit, v.node) && IntraAfter(g, exit, order).dist == v.dist
  {
    IntraIsExitDistance(g, exit, order);
    v :| v in order && IsExit(g, exit, v.node);
  }

  /** A stored distance through a function is the weight of a crossing, plus one. */
  lemma CrossingOfSummary(p: Program, sums: Summaries, known: seq<Func>, f: Func, s: Summary)
    requires p.WellFormed() && SummariesCross(p, sums, known)
    requires IsSummaryOf(p, Restricted(sums, known), f, s) && s.intra.Through?
    ensures exists inner :: IsCrossing(p, sums, known, f, inner, s.intra.dist)
  {
    var r := Restricted(sums, known);
    var order: seq<Visit> :| IsSearch(p.g, r, p.entryOf[f], order)
        && IsOutcome(p.g, r, p.targets, true, p.exitOf[f], order, s.dist, s.intra);
    var v := ExitWasVisited(p.g, p.exitOf[f], order);
    assert Reaches(p.g, r, p.entryOf[f], v.node, v.dist - 1);
    var inner := ReachingPath(p, sums, known, p.entryOf[f], v.node, v.dist - 1);
    assert IsCrossing(p, sums, known, f, inner, s.intra.dist);
  }

  /** What holds of a function among the first `n` to finish holds of it among all. */
  lemma PrefixCrosses(p: Program, sums: Summaries, finished: seq<Func>, n: nat, j: nat)
    requires p.WellFormed() && j < n <= |finished|
    ensures SummaryCrosses(p, sums, finished[..n], j) <==> SummaryCrosses(p, sums, finished, j)
  {
    assert finished[..n][..j] == finished[..j];
  }

  lemma {:induction false} SummaryOfHistoryCrosses(p: Program, sums: Summaries, finished: seq<Func>, k: nat)
    requires p.WellFormed() && AllInOrder(p, finished, sums) && k < |finished|
    ensures SummaryCrosses(p, sums, finished, k)
  {
    var known := finished[..k];
    forall j: nat | j < |known| ensures SummaryCrosses(p, sums, known, j) {
      SummaryOfHistoryCrosses(p, sums, finished, j);
      PrefixCrosses(p, sums, finished, k, j);
    }
    assert FinishedInOrder(p, finished, sums, k);
    if sums[finished[k]].intra.Through? {
      CrossingOfSummary(p, sums, known, finished[k], sums[finished[k]]);
    }
  }

  lemma HistoryCrosses(p: Program, sums: Summaries, finished: seq<Func>, n: nat)
    requires p.WellFormed() && AllInOrder(p, finished, sums) && n <= |finished|
    ensures SummariesCross(p, sums, finished[..n])
  {
    forall j: nat | j < n ensures SummaryCrosses(p, sums, finished[..n], j) {
      SummaryOfHistoryCrosses(p, sums, finished, j);
      PrefixCrosses(p, sums, finished, n, j);
    }
  }

  // ---------------------------------------------------------------- ways to a target

  /** A way from here to target `i` that costs this much. */
  ghost predicate HasWay(p: Program, sums: Summaries, finished: seq<Func>, i: nat, countReturns: bool, start: nat,
                         cost: int)
    requires p.WellFormed() && i < |p.targets|
  {
    exists way :: IsWay(p, sums, finished, p.targets[i], countReturns, way) && Start(way) == start && Cost(way) == cost
  }

  /** The distance from this function to a target is the cost of a way, into functions that finished before it. */
  ghost predicate SummaryLeads(p: Program, sums: Summaries, finished: seq<Func>, i: nat, j: nat)
    requires p.WellFormed() && j < |finished| && i < |p.targets|
  {
    var f := finished[j];
    f in sums && f in p.entryOf && (i < |sums[f].dist| && sums[f].dist[i] >= 0 ==>
                    HasWay(p, sums, finished[..j], i, true, p.entryOf[f], sums[f].dist[i]))
  }

  lemma PrefixLeads(p: Program, sums: Summaries, finished: seq<Func>, i: nat, n: nat, j: nat)
    requires p.WellFormed() && j < n <= |finished| && i < |p.targets|
    ensures SummaryLeads(p, sums, finished[..n], i, j) <==> SummaryLeads(p, sums, finished, i, j)
  {
    assert finished[..n][..j] == finished[..j];
  }

  ghost predicate SummariesLead(p: Program, sums: Summaries, finished: seq<Func>, i: nat)
    requires p.WellFormed() && i < |p.targets|
  {
    forall j: nat :: j < |finished| ==> SummaryLeads(p, sums, finished, i, j)
  }

  /** What a visited node contributes is the cost of a way. */
  lemma CandidateIsWay(p: Program, sums: Summaries, finished: seq<Func>, i: nat, countReturns: bool, start: nat,
                       v: Visit, c: int)
    requires p.WellFormed() && SummariesCross(p, sums, finished)
    requires i < |p.targets| && SummariesLead(p, sums, finished, i)
    requires start < |p.g.kind| && v.node < |p.g.kind|
    requires Reaches(p.g, Restricted(sums, finished), start, v.node, v.dist - 1)
    requires IsCandidate(p.g, Restricted(sums, finished), p.targets[i], countReturns, i, v, c)
    ensures HasWay(p, sums, finished, i, countReturns, start, c)
  {
    var g, known := p.g, Restricted(sums, finished);
    var path := ReachingPath(p, sums, finished, start, v.node, v.dist - 1);
    if IsTargetHere(g, p.targets[i], countReturns, v.node) && c == v.dist {
      assert IsWay(p, sums, finished, p.targets[i], countReturns, Here(path));
      assert Cost(Here(path)) == c;
    } else {
      var e: nat :| e < |g.out[v.node]| && HasCalleeDist(g, known, i, v.node, e)
          && c == CalleeDist(g, known, i, v.node, e) + v.dist;
      CalleeIsWay(p, sums, finished, i, countReturns, path, e);
    }
  }

  lemma CalleeIsWay(p: Program, sums: Summaries, finished: seq<Func>, i: nat, countReturns: bool, path: Path, e: nat)
    requires p.WellFormed() && i < |p.targets| && SummariesLead(p, sums, finished, i)
    requires IsPath(p, sums, finished, path) && End(path) < |p.g.kind| && p.g.kind[End(path)].FunCall?
    requires e < |p.g.out[End(path)]| && HasCalleeDist(p.g, Restricted(sums, finished), i, End(path), e)
    ensures HasWay(p, sums, finished, i, countReturns, First(path),
                   Weight(path) + 1 + CalleeDist(p.g, Restricted(sums, finished), i, End(path), e))
  {
    var x := p.g.out[End(path)][e];
    var f := p.g.func[x];
    var j: nat :| j < |finished| && finished[j] == f;
    assert SummaryLeads(p, sums, finished, i, j);
    var rest :| IsWay(p, sums, finished[..j], p.targets[i], true, rest) && Start(rest) == p.entryOf[f]
        && Cost(rest) == sums[f].dist[i];
    var way := Inside(path, rest);
    assert Calls(p.g, End(path), x, finished[j]);
    assert IsWay(p, sums, finished, p.targets[i], countReturns, way);
    assert Start(way) == First(path);
  }

  /** A stored distance to a target is the cost of a way. */
  lemma WayOfSummary(p: Program, sums: Summaries, known: seq<Func>, f: Func, s: Summary, i: nat)
    requires p.WellFormed() && SummariesCross(p, sums, known) && i < |p.targets| && SummariesLead(p, sums, known, i)
    requires IsSummaryOf(p, Restricted(sums, known), f, s) && s.dist[i] >= 0
    ensures HasWay(p, sums, known, i, true, p.entryOf[f], s.dist[i])
  {
    var r := Restricted(sums, known);
    var order: seq<Visit> :| IsSearch(p.g, r, p.entryOf[f], order)
        && IsOutcome(p.g, r, p.targets, true, p.exitOf[f], order, s.dist, s.intra);
    DistanceIsRealised(p.g, r, p.targets[i], true, i, p.entryOf[f], order);
    var v: Visit :| v.node < |p.g.kind| && Reaches(p.g, r, p.entryOf[f], v.node, v.dist - 1)
        && IsCandidate(p.g, r, p.targets[i], true, i, v, s.dist[i]);
    CandidateIsWay(p, sums, known, i, true, p.entryOf[f], v, s.dist[i]);
  }

  lemma {:induction false} SummaryOfHistoryLeads(p: Program, sums: Summaries, finished: seq<Func>, i: nat, k: nat)
    requires p.WellFormed() && AllInOrder(p, finished, sums) && i < |p.targets| && k < |finished|
    ensures SummaryLeads(p, sums, finished, i, k)
  {
    var known := finished[..k];
    forall j: nat | j < |known| ensures SummaryLeads(p, sums, known, i, j) {
      SummaryOfHistoryLeads(p, sums, finished, i, j);
      PrefixLeads(p, sums, finished, i, k, j);
    }
    HistoryCrosses(p, sums, finished, k);
    assert FinishedInOrder(p, finished, sums, k);
    if sums[finished[k]].dist[i] >= 0 {
      WayOfSummary(p, sums, known, finished[k], sums[finished[k]], i);
    }
  }

  // ---------------------------------------------------------------- from ways to the search

  lemma ReachesStep(g: Icfg, sums: Summaries, start: nat, u: nat, w: int, v: nat, w': int)
    requires g.WellFormed() && Reaches(g, sums, start, u, w) && IsStep(g, sums, u, v, w')
    ensures Reaches(g, sums, start, v, w + w')
  {
    var walk :| IsWalk(g, sums, start, walk) && walk[|walk| - 1] == Visit(u, w);
    var longer := walk + [Visit(v, w + w')];
    assert IsWalk(g, sums, start, longer) && longer[|longer| - 1] == Visit(v, w + w');
  }

  ghost predicate IsReachable(g: Icfg, sums: Summaries, start: nat, u: nat)
    requires g.WellFormed()
  {
    exists w :: Reaches(g, sums, start, u, w)
  }

  lemma StepReaches(g: Icfg, sums: Summaries, start: nat, u: nat, v: nat, w: int)
    requires g.WellFormed() && IsReachable(g, sums, start, u) && IsStep(g, sums, u, v, w)
    ensures IsReachable(g, sums, start, v)
  {
    var w0 :| Reaches(g, sums, start, u, w0);
    ReachesStep(g, sums, start, u, w0, v, w);
  }

  /** The search can follow any path, if not at its weight. */
  lemma {:induction false} PathIsReached(p: Program, sums: Summaries, finished: seq<Func>, path: Path)
    requires p.WellFormed() && IsPath(p, sums, finished, path) && forall f :: f in finished ==> f in sums
    ensures IsReachable(p.g, Restricted(sums, finished), First(path), End(path)) && First(path) < |p.g.kind|
    decreases path
  {
    var g, known := p.g, Restricted(sums, finished);
    match path
    case Begin(n) =>
      SearchStarts(g, known, n);
      assert AllReached(g, known, n, [Visit(n, 1)]) && Visit(n, 1) in [Visit(n, 1)];
      assert Reaches(g, known, n, n, 0);
    case Along(q, to) =>
      PathIsReached(p, sums, finished, q);
      StepReaches(g, known, First(q), End(q), to, 1);
    case Past(q, to, w) =>
      PathIsReached(p, sums, finished, q);
      var x: nat :| x in g.out[End(q)] && x < |g.kind| && HasFixedWeight(p, sums, finished, x, w);
      assert IsPassed(g, known, x, w);
      StepReaches(g, known, First(q), End(q), to, w);
    case Through(q, _, to) =>
      PathIsReached(p, sums, finished, q);
      var x: nat, j: nat :| j < |finished| && Calls(g, End(q), x, finished[j]);
      var w := if sums[finished[j]].intra.NoReturn? then -1 else sums[finished[j]].intra.dist;
      assert IsPassed(g, known, x, w);
      StepReaches(g, known, First(q), End(q), to, w);
  }

  /** No crossing is missed: a function without a distance through it has none. */
  lemma NoReturnMeansNoCrossing(p: Program, sums: Summaries, known: seq<Func>, f: Func, s: Summary, inner: Path, d: int)
    requires p.WellFormed() && IsSummaryOf(p, Restricted(sums, known), f, s) && forall h :: h in known ==> h in sums
    requires IsCrossing(p, sums, known, f, inner, d)
    ensures s.intra.Through?
  {
    var r := Restricted(sums, known);
    var order: seq<Visit> :| IsSearch(p.g, r, p.entryOf[f], order)
        && IsOutcome(p.g, r, p.targets, true, p.exitOf[f], order, s.dist, s.intra);
    PathIsReached(p, sums, known, inner);
    VisitsAreTheReachable(p.g, r, p.entryOf[f], order, p.exitOf[f]);
    var v: Visit :| v in order && v.node == p.exitOf[f];
    IntraIsExitDistance(p.g, p.exitOf[f], order);
    assert IsExit(p.g, p.exitOf[f], v.node);
  }

  /** A distance was found for whatever a way leads to. */
  lemma {:induction false} WayIsFound(p: Program, sums: Summaries, finished: seq<Func>, n: nat, i: nat,
                                      countReturns: bool, way: Way)
    requires p.WellFormed() && AllInOrder(p, finished, sums) && n <= |finished| && i < |p.targets|
    requires IsWay(p, sums, finished[..n], p.targets[i], countReturns, way)
    ensures IsFound(p.g, Restricted(sums, finished[..n]), p.targets[i], countReturns, i, Start(way))
    decreases way
  {
    var g, known := p.g, Restricted(sums, finished[..n]);
    forall f | f in finished[..n] ensures f in sums {
      var j: nat :| j < n && finished[j] == f;
      assert FinishedInOrder(p, finished, sums, j);
    }
    PathIsReached(p, sums, finished[..n], way.path);
    var w :| Reaches(g, known, Start(way), End(way.path), w);
    if way.Inside? {
      var x: nat, j: nat :| j < n && Calls(g, End(way.path), x, finished[..n][j])
          && finished[j] in p.entryOf && Start(way.rest) == p.entryOf[finished[j]]
          && IsWay(p, sums, finished[..n][..j], p.targets[i], true, way.rest);
      assert finished[..n][..j] == finished[..j];
      WayIsFound(p, sums, finished, j, i, true, way.rest);
      FoundIsStored(p, sums, finished, j, i);
      var e: nat :| e < |g.out[End(way.path)]| && g.out[End(way.path)][e] == x;
      assert HasCalleeDist(g, known, i, End(way.path), e);
    }
    assert Contributes(g, known, p.targets[i], countReturns, i, End(way.path));
  }

  /** What a function's search found is stored for it. */
  lemma FoundIsStored(p: Program, sums: Summaries, finished: seq<Func>, j: nat, i: nat)
    requires p.WellFormed() && AllInOrder(p, finished, sums) && j < |finished| && i < |p.targets|
    requires finished[j] in p.entryOf
    requires IsFound(p.g, Restricted(sums, finished[..j]), p.targets[i], true, i, p.entryOf[finished[j]])
    ensures finished[j] in sums && i < |sums[finished[j]].dist| && sums[finished[j]].dist[i] >= 0
  {
    assert FinishedInOrder(p, finished, sums, j);
    var f, r := finished[j], Restricted(sums, finished[..j]);
    var order: seq<Visit> :| IsSearch(p.g, r, p.entryOf[f], order)
        && IsOutcome(p.g, r, p.targets, true, p.exitOf[f], order, sums[f].dist, sums[f].intra);
    DistanceIsRealised(p.g, r, p.targets[i], true, i, p.entryOf[f], order);
  }

  // ---------------------------------------------------------------- the analysis as a whole

  /** A target has a distance exactly if some way leads to it, and the distance is what one of them costs. */
  ghost predicate IsWayDistance(p: Program, sums: Summaries, finished: seq<Func>, i: nat, countReturns: bool,
                                start: nat, r: int)
    requires p.WellFormed() && i < |p.targets|
  {
    && (r >= 0 <==> exists cost :: HasWay(p, sums, finished, i, countReturns, start, cost))
    && (r >= 0 ==> HasWay(p, sums, finished, i, countReturns, start, r))
  }

  lemma AllKnown(p: Program, finished: seq<Func>, sums: Summaries)
    requires History(p, finished, sums)
    ensures Restricted(sums, finished) == sums && finished[..|finished|] == finished
  {
    forall f | f in sums ensures f in finished {
      assert f in Members(finished);
    }
  }

  /** What the search finds from any node, given the summaries of all functions. */
  lemma DistanceMeans(p: Program, finished: seq<Func>, sums: Summaries, i: nat, countReturns: bool, start: nat, r: int)
    requires p.WellFormed() && History(p, finished, sums) && i < |p.targets| && start < |p.g.kind|
    requires IsDistance(p.g, sums, p.targets[i], countReturns, i, start, r)
    ensures IsWayDistance(p, sums, finished, i, countReturns, start, r)
  {
    AllKnown(p, finished, sums);
    if r >= 0 {
      HistoryCrosses(p, sums, finished, |finished|);
      forall j: nat | j < |finished| ensures SummaryLeads(p, sums, finished, i, j) {
        SummaryOfHistoryLeads(p, sums, finished, i, j);
      }
      var v: Visit :| v.node < |p.g.kind| && Reaches(p.g, sums, start, v.node, v.dist - 1)
          && IsCandidate(p.g, sums, p.targets[i], countReturns, i, v, r);
      CandidateIsWay(p, sums, finished, i, countReturns, start, v, r);
    }
    if cost :| HasWay(p, sums, finished, i, countReturns, start, cost) {
      var way :| IsWay(p, sums, finished, p.targets[i], countReturns, way) && Start(way) == start;
      WayIsFound(p, sums, finished, |finished|, i, countReturns, way);
    }
  }

  /**
    What is stored for a function: the distance through it is that of a crossing from its entry to its exit, and
    there is none exactly if there is no crossing; its distances to targets are those of ways.
  */
  lemma SummaryMeans(p: Program, finished: seq<Func>, sums: Summaries, j: nat)
    requires p.WellFormed() && History(p, finished, sums) && j < |finished|
    ensures SummaryCrosses(p, sums, finished, j)
    ensures sums[finished[j]].intra.NoReturn?
       <==> forall inner, d :: !IsCrossing(p, sums, finished[..j], finished[j], inner, d)
    ensures finished[j] in p.entryOf && |sums[finished[j]].dist| == |p.targets|
    ensures forall i :: 0 <= i < |p.targets| ==>
              IsWayDistance(p, sums, finished[..j], i, true, p.entryOf[finished[j]], sums[finished[j]].dist[i])
  {
    var f, known := finished[j], finished[..j];
    SummaryOfHistoryCrosses(p, sums, finished, j);
    assert FinishedInOrder(p, finished, sums, j);
    forall h | h in known ensures h in sums {
      assert h in Members(finished);
    }
    forall inner, d | IsCrossing(p, sums, known, f, inner, d) ensures sums[f].intra.Through? {
      NoReturnMeansNoCrossing(p, sums, known, f, sums[f], inner, d);
    }
    forall i: nat | i < |p.targets| ensures IsWayDistance(p, sums, known, i, true, p.entryOf[f], sums[f].dist[i]) {
      StoredMeans(p, finished, sums, j, i);
    }
  }

  lemma StoredMeans(p: Program, finished: seq<Func>, sums: Summaries, j: nat, i: nat)
    requires p.WellFormed() && AllInOrder(p, finished, sums) && j < |finished| && i < |p.targets|
    requires finished[j] in p.entryOf && finished[j] in sums && i < |sums[finished[j]].dist|
    ensures IsWayDistance(p, sums, finished[..j], i, true, p.entryOf[finished[j]], sums[finished[j]].dist[i])
  {
    SummaryOfHistoryLeads(p, sums, finished, i, j);
    if cost :| HasWay(p, sums, finished[..j], i, true, p.entryOf[finished[j]], cost) {
      var way :| IsWay(p, sums, finished[..j], p.targets[i], true, way) && Start(way) == p.entryOf[finished[j]];
      WayIsFound(p, sums, finished, j, i, true, way);
      FoundIsStored(p, sums, finished, j, i);
    }
  }

  /** The pass over the call graph, then the search from one node: its distances are distances along ways. */
  method BlockDistances(p: Program, roots: seq<Func>, start: nat)
    returns (result: seq<int>, sums: Summaries, ghost finished: seq<Func>)
    requires p.WellFormed() && start < |p.g.kind|
    ensures sums.Keys == p.calls.Keys && History(p, finished, sums)
    ensures |result| == |p.targets|
    ensures forall i :: 0 <= i < |p.targets| ==> IsWayDistance(p, sums, finished, i, false, start, result[i])
  {
    var analyzer := new CallAnalyzer(p);
    ghost var marks := analyzer.CalculateCalls(roots);
    sums, finished := analyzer.callDist, analyzer.finished;
    result := SingleCalculateBlock(p.g, sums, p.targets, start);
    forall i: nat | i < |p.targets| ensures IsWayDistance(p, sums, finished, i, false, start, result[i]) {
      DistanceMeans(p, finished, sums, i, false, start, result[i]);
    }
  }
}
