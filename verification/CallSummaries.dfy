/**
  `calculateCallsInICFG` and `subCalculateCalls`: a depth-first pass over a call
  graph that may be cyclic, leaving one summary for every function in it.
*/
module CallSummaries {
  import opened IcfgSearch

  type CallGraph = map<Func, seq<Func>>

  /** A chain of calls from one function to another. */
  ghost predicate IsChain(calls: CallGraph, chain: seq<Func>) {
    && chain != []
    && forall k :: 0 <= k < |chain| - 1 ==> IsCall(calls, chain, k)
  }

  predicate IsCall(calls: CallGraph, chain: seq<Func>, k: int) {
    0 <= k < |chain| - 1 && chain[k] in calls && chain[k + 1] in calls[chain[k]]
  }

  ghost predicate Leads(calls: CallGraph, from: Func, to: Func) {
    exists chain :: IsChain(calls, chain) && chain[0] == from && chain[|chain| - 1] == to
  }

  lemma LeadsToItself(calls: CallGraph, f: Func)
    ensures Leads(calls, f, f)
  {
    assert IsChain(calls, [f]) && [f][|[f]| - 1] == f;
  }

  lemma LeadsFarther(calls: CallGraph, from: Func, f: Func, callee: Func)
    requires Leads(calls, from, f) && f in calls && callee in calls[f]
    ensures Leads(calls, from, callee)
  {
    var chain :| IsChain(calls, chain) && chain[0] == from && chain[|chain| - 1] == f;
    var longer := chain + [callee];
    forall k | 0 <= k < |longer| - 1 ensures IsCall(calls, longer, k) {
      assert k < |chain| - 1 ==> IsCall(calls, chain, k);
    }
    assert IsChain(calls, longer) && longer[0] == from && longer[|longer| - 1] == callee;
  }

  lemma LeadsEarlier(calls: CallGraph, f: Func, callee: Func, to: Func)
    requires f in calls && callee in calls[f] && Leads(calls, callee, to)
    ensures Leads(calls, f, to)
  {
    var chain :| IsChain(calls, chain) && chain[0] == callee && chain[|chain| - 1] == to;
    var longer := [f] + chain;
    forall k | 0 <= k < |longer| - 1 ensures IsCall(calls, longer, k) {
      assert k > 0 ==> IsCall(calls, chain, k - 1);
    }
    assert IsChain(calls, longer) && longer[0] == f && longer[|longer| - 1] == to;
  }

  /** The callees of these functions are among them, or in the other set. */
  ghost predicate IsClosed(calls: CallGraph, done: set<Func>, others: set<Func>) {
    forall f, callee :: f in done && f in calls && callee in calls[f] && callee in calls ==>
      callee in done || callee in others
  }

  lemma {:induction false} ChainStaysInside(calls: CallGraph, done: set<Func>, chain: seq<Func>, k: nat)
    requires IsChain(calls, chain) && k < |chain| && IsClosed(calls, done, {})
    requires chain[0] in done && chain[|chain| - 1] in calls
    ensures chain[k] in done
  {
    if k > 0 {
      ChainStaysInside(calls, done, chain, k - 1);
      assert IsCall(calls, chain, k - 1);
      assert k < |chain| - 1 ==> IsCall(calls, chain, k);
    }
  }

  /** Whatever a finished function leads to is finished. */
  lemma ClosedUnderLeads(calls: CallGraph, done: set<Func>, from: Func, to: Func)
    requires IsClosed(calls, done, {}) && from in done && Leads(calls, from, to) && to in calls
    ensures to in done
  {
    var chain :| IsChain(calls, chain) && chain[0] == from && chain[|chain| - 1] == to;
    ChainStaysInside(calls, done, chain, |chain| - 1);
  }

  /** One of these functions leads there. */
  ghost predicate LedFrom(calls: CallGraph, roots: seq<Func>, to: Func) {
    exists i :: 0 <= i < |roots| && Leads(calls, roots[i], to)
  }

  /** The functions of the graph that these roots lead to. */
  ghost predicate AreLedTo(calls: CallGraph, roots: seq<Func>, done: set<Func>) {
    forall f :: f in done <==> f in calls && LedFrom(calls, roots, f)
  }

  /**
    The functions finish root by root: when root `i` was dealt with, exactly the functions that it or an earlier
    root leads to have finished, and it finished last unless an earlier one led to it.
  */
  ghost predicate RootByRoot(calls: CallGraph, roots: seq<Func>, finished: seq<Func>, marks: seq<nat>) {
    && |marks| == |roots| + 1 && marks[0] == 0
    && (forall i :: 0 <= i < |marks| ==> marks[i] <= |finished|)
    && (forall i :: 0 <= i < |marks| ==> AreLedTo(calls, roots[..i], Members(finished[..marks[i]])))
    && forall i :: 0 <= i < |roots| ==> IsLast(calls, roots[i], finished, marks[i], marks[i + 1])
  }

  ghost predicate IsLast(calls: CallGraph, root: Func, finished: seq<Func>, before: nat, after: nat) {
    before <= after <= |finished|
    && (root in calls && root !in finished[..before] ==> before < after && finished[after - 1] == root)
  }

  lemma OneMoreRoot(calls: CallGraph, roots: seq<Func>, root: Func, done: set<Func>, done': set<Func>)
    requires AreLedTo(calls, roots, done) && done <= done' <= calls.Keys && IsClosed(calls, done', {})
    requires root in calls ==> root in done'
    requires forall f :: f in done' && f !in done ==> Leads(calls, root, f)
    ensures AreLedTo(calls, roots + [root], done')
  {
    var more := roots + [root];
    forall f ensures f in done' <==> f in calls && LedFrom(calls, more, f) {
      if f in done' {
        if f in done {
          var i :| 0 <= i < |roots| && Leads(calls, roots[i], f);
          assert more[i] == roots[i];
        } else {
          assert more[|roots|] == root;
        }
      } else if f in calls && LedFrom(calls, more, f) {
        var i :| 0 <= i < |more| && Leads(calls, more[i], f);
        if i < |roots| {
          assert LedFrom(calls, roots, f);
        } else {
          NotInGraphLeadsNowhere(calls, root, f);
          ClosedUnderLeads(calls, done', root, f);
        }
      }
    }
  }

  lemma NotInGraphLeadsNowhere(calls: CallGraph, from: Func, to: Func)
    requires Leads(calls, from, to) && to in calls
    ensures from in calls
  {
    var chain :| IsChain(calls, chain) && chain[0] == from && chain[|chain| - 1] == to;
    if |chain| > 1 {
      assert IsCall(calls, chain, 0);
    }
  }

  // ---------------------------------------------------------------- what is left behind

  ghost predicate NoDuplicates(fs: seq<Func>) {
    forall j, k :: 0 <= j < k < |fs| ==> fs[j] != fs[k]
  }

  ghost function Members(fs: seq<Func>): set<Func> {
    set f | f in fs
  }

  /** The summaries that were there when the functions in `fs` had finished. */
  ghost function Restricted(sums: Summaries, fs: seq<Func>): Summaries {
    map f | f in sums && f in fs :: sums[f]
  }

  /** The part of a program that the pass works on. */
  datatype Program = Program(g: Icfg, targets: seq<set<nat>>, calls: CallGraph, entryOf: map<Func, nat>,
                             exitOf: map<Func, nat>)
  {
    ghost predicate WellFormed() {
      && g.WellFormed()
      && (forall f :: f in calls ==> f in entryOf && entryOf[f] < |g.kind| && f in exitOf)
    }
  }

  /** The summary is what a search of the function finds, given these summaries of others. */
  ghost predicate IsSummaryOf(p: Program, known: Summaries, f: Func, s: Summary) {
    && p.WellFormed() && f in p.calls
    && exists order :: IsSearch(p.g, known, p.entryOf[f], order)
         && IsOutcome(p.g, known, p.targets, true, p.exitOf[f], order, s.dist, s.intra)
  }

  /**
    The j-th function to finish was searched when exactly the earlier ones had
    summaries; a callee without one can only be a caller, direct or not, of the
    function itself: the call is recursive.
  */
  ghost predicate FinishedInOrder(p: Program, finished: seq<Func>, sums: Summaries, j: nat) {
    && j < |finished| && finished[j] in p.calls && finished[j] in sums
    && IsSummaryOf(p, Restricted(sums, finished[..j]), finished[j], sums[finished[j]])
    && forall callee :: callee in p.calls[finished[j]] && callee in p.calls ==>
         callee in finished[..j] || Leads(p.calls, callee, finished[j])
  }

  ghost predicate History(p: Program, finished: seq<Func>, sums: Summaries) {
    && NoDuplicates(finished)
    && sums.Keys == Members(finished)
    && SaneSummaries(sums, |p.targets|)
    && AllInOrder(p, finished, sums)
  }

  ghost predicate AllInOrder(p: Program, finished: seq<Func>, sums: Summaries) {
    forall j :: 0 <= j < |finished| ==> FinishedInOrder(p, finished, sums, j)
  }

  lemma MembersGrow(finished: seq<Func>, sums: Summaries, f: Func)
    requires NoDuplicates(finished) && sums.Keys == Members(finished) && f !in sums
    ensures f !in finished && NoDuplicates(finished + [f]) && Members(finished + [f]) == sums.Keys + {f}
  {
    assert f !in Members(finished);
  }

  lemma HistoryGrows(p: Program, finished: seq<Func>, sums: Summaries, f: Func, s: Summary)
    requires History(p, finished, sums) && f in p.calls && f !in sums
    requires IsSummaryOf(p, sums, f, s) && |s.dist| == |p.targets|
    requires forall callee :: callee in p.calls[f] && callee in p.calls ==>
        callee in finished || Leads(p.calls, callee, f)
    ensures History(p, finished + [f], sums[f := s])
  {
    MembersGrow(finished, sums, f);
    StaysInOrder(p, finished, sums, f, s);
  }

  lemma StaysInOrder(p: Program, finished: seq<Func>, sums: Summaries, f: Func, s: Summary)
    requires AllInOrder(p, finished, sums) && f in p.calls && f !in sums && f !in finished
    requires sums.Keys == Members(finished)
    requires IsSummaryOf(p, sums, f, s)
    requires forall callee :: callee in p.calls[f] && callee in p.calls ==>
        callee in finished || Leads(p.calls, callee, f)
    ensures AllInOrder(p, finished + [f], sums[f := s])
  {
    var more, sums' := finished + [f], sums[f := s];
    forall j: nat | j < |more| ensures FinishedInOrder(p, more, sums', j) {
      if j < |finished| {
        EarlierStays(p, finished, sums, f, s, j);
      } else {
        NewIsLast(p, finished, sums, f, s);
      }
    }
  }

  lemma NewIsLast(p: Program, finished: seq<Func>, sums: Summaries, f: Func, s: Summary)
    requires f in p.calls && f !in sums && sums.Keys == Members(finished) && IsSummaryOf(p, sums, f, s)
    requires forall callee :: callee in p.calls[f] && callee in p.calls ==>
        callee in finished || Leads(p.calls, callee, f)
    ensures FinishedInOrder(p, finished + [f], sums[f := s], |finished|)
  {
    assert (finished + [f])[..|finished|] == finished;
    assert f !in Members(finished);
    assert Restricted(sums[f := s], finished) == sums;
  }

  lemma EarlierStays(p: Program, finished: seq<Func>, sums: Summaries, f: Func, s: Summary, j: nat)
    requires FinishedInOrder(p, finished, sums, j) && f !in finished
    ensures FinishedInOrder(p, finished + [f], sums[f := s], j)
  {
    assert (finished + [f])[..j] == finished[..j];
    assert f !in finished[..j];
    assert Restricted(sums[f := s], finished[..j]) == Restricted(sums, finished[..j]);
  }

  /** Summaries that exist are never computed again. */
  ghost predicate IsExtendedBy(before: Summaries, after: Summaries) {
    before.Keys <= after.Keys && forall h :: h in before ==> after[h] == before[h]
  }

  /** More functions have finished, all of which `f` leads to. */
  ghost predicate HasGrown(calls: CallGraph, f: Func, fin0: seq<Func>, before: Summaries, fin: seq<Func>,
                           after: Summaries) {
    && fin0 <= fin && IsExtendedBy(before, after)
    && forall h :: h in after && h !in before ==> Leads(calls, f, h)
  }

  lemma GrowsByCallee(calls: CallGraph, f: Func, callee: Func, fin0: seq<Func>, sums0: Summaries, fin: seq<Func>,
                      sums: Summaries, fin': seq<Func>, sums': Summaries)
    requires HasGrown(calls, f, fin0, sums0, fin, sums) && HasGrown(calls, callee, fin, sums, fin', sums')
    requires f in calls && callee in calls[f]
    ensures HasGrown(calls, f, fin0, sums0, fin', sums')
  {
    forall h | h in sums' && h !in sums0 ensures Leads(calls, f, h) {
      if h !in sums {
        LeadsEarlier(calls, f, callee, h);
      }
    }
  }

  lemma GrowsByItself(calls: CallGraph, f: Func, fin0: seq<Func>, sums0: Summaries, fin: seq<Func>,
                      sums: Summaries, fin': seq<Func>, sums': Summaries)
    requires HasGrown(calls, f, fin0, sums0, fin, sums) && fin' == fin + [f]
    requires IsExtendedBy(sums, sums') && sums'.Keys == sums.Keys + {f}
    ensures HasGrown(calls, f, fin0, sums0, fin', sums')
  {
    LeadsToItself(calls, f);
  }

  /** Every callee was dealt with before the function itself. */
  ghost predicate CalleesDone(p: Program, sums: Summaries, curProc: set<Func>, f: Func, n: nat)
    requires f in p.calls && n <= |p.calls[f]|
  {
    forall k :: 0 <= k < n && p.calls[f][k] in p.calls ==> p.calls[f][k] in sums || p.calls[f][k] in curProc
  }

  lemma CalleesAreFinished(p: Program, finished: seq<Func>, sums: Summaries, curProc: set<Func>, f: Func)
    requires f in p.calls && sums.Keys == Members(finished) && CalleesDone(p, sums, curProc, f, |p.calls[f]|)
    requires forall h :: h in curProc ==> Leads(p.calls, h, f)
    ensures forall callee :: callee in p.calls[f] && callee in p.calls ==>
        callee in finished || Leads(p.calls, callee, f)
  {
    forall callee | callee in p.calls[f] && callee in p.calls ensures callee in finished || Leads(p.calls, callee, f) {
      var k :| 0 <= k < |p.calls[f]| && p.calls[f][k] == callee;
      assert callee in sums || callee in curProc;
      assert callee in sums ==> callee in Members(finished);
    }
  }

  // ---------------------------------------------------------------- the pass

  /** What holds between any two steps of the pass. */
  ghost predicate IsState(p: Program, finished: seq<Func>, callDist: Summaries, curProc: set<Func>,
                          dynCallSet: set<Func>) {
    && p.WellFormed()
    && History(p, finished, callDist)
    && callDist.Keys <= p.calls.Keys
    && curProc <= p.calls.Keys && curProc !! callDist.Keys
    && dynCallSet <= p.calls.Keys
    && p.calls.Keys <= dynCallSet + callDist.Keys + curProc
    && IsClosed(p.calls, callDist.Keys, curProc)
  }

  lemma StateWithout(p: Program, finished: seq<Func>, callDist: Summaries, curProc: set<Func>, dynCallSet: set<Func>,
                     f: Func)
    requires IsState(p, finished, callDist, curProc, dynCallSet)
    requires f in curProc || f !in p.calls || f in callDist
    ensures IsState(p, finished, callDist, curProc, dynCallSet - {f})
  {
  }

  lemma StateBegins(p: Program, finished: seq<Func>, callDist: Summaries, curProc: set<Func>, dynCallSet: set<Func>,
                    f: Func)
    requires IsState(p, finished, callDist, curProc, dynCallSet)
    requires f in p.calls && f !in callDist
    ensures IsState(p, finished, callDist, curProc + {f}, dynCallSet - {f})
  {
  }

  lemma StateFinishes(p: Program, finished: seq<Func>, callDist: Summaries, curProc: set<Func>, dynCallSet: set<Func>,
                      f: Func, s: Summary)
    requires IsState(p, finished, callDist, curProc, dynCallSet) && f in curProc
    requires CalleesDone(p, callDist, curProc, f, |p.calls[f]|)
    requires forall h :: h in curProc ==> Leads(p.calls, h, f)
    requires IsSummaryOf(p, callDist, f, s) && |s.dist| == |p.targets|
    ensures IsState(p, finished + [f], callDist[f := s], curProc - {f}, dynCallSet)
  {
    CalleesAreFinished(p, finished, callDist, curProc, f);
    HistoryGrows(p, finished, callDist, f, s);
    StaysClosed(p, callDist, curProc, f, s);
  }

  lemma StaysClosed(p: Program, callDist: Summaries, curProc: set<Func>, f: Func, s: Summary)
    requires f in p.calls && f in curProc && CalleesDone(p, callDist, curProc, f, |p.calls[f]|)
    requires IsClosed(p.calls, callDist.Keys, curProc)
    ensures IsClosed(p.calls, callDist[f := s].Keys, curProc - {f})
  {
    forall h, callee | h in callDist[f := s].Keys && h in p.calls && callee in p.calls[h] && callee in p.calls
      ensures callee in callDist[f := s].Keys || callee in curProc - {f}
    {
      if h == f {
        var k :| 0 <= k < |p.calls[f]| && p.calls[f][k] == callee;
      }
    }
  }

  class CallAnalyzer {
    const p: Program
    var callDist: Summaries
    var dynCallSet: set<Func>
    var curProc: set<Func>
    ghost var finished: seq<Func>  // in the order in which summaries were stored

    ghost predicate Valid()
      reads this
    {
      IsState(p, finished, callDist, curProc, dynCallSet)
    }

    constructor (p: Program)
      requires p.WellFormed()
      ensures this.p == p && callDist == map[] && finished == [] && dynCallSet == {} && curProc == {}
    {
      this.p := p;
      callDist, dynCallSet, curProc, finished := map[], {}, {}, [];
    }

    /** `subCalculateCalls`, for a function that every function in progress leads to: it finishes last. */
    method SubCalculateCalls(f: Func)
      requires Valid()
      requires forall h :: h in curProc ==> Leads(p.calls, h, f)
      modifies this
      ensures Valid() && curProc == old(curProc)
      ensures HasGrown(p.calls, f, old(finished), old(callDist), finished, callDist)
      ensures dynCallSet <= old(dynCallSet) - {f}
      ensures f in p.calls ==> f in callDist || f in curProc
      ensures f in p.calls && f !in old(callDist) && f !in curProc ==> finished != [] && finished[|finished| - 1] == f
      decreases p.calls.Keys - curProc - callDist.Keys, 3
    {
      if f in curProc || f !in p.calls || f in callDist {
        StateWithout(p, finished, callDist, curProc, dynCallSet, f);
        dynCallSet := dynCallSet - {f};
      } else {
        CalculateNew(f);
      }
    }

    /** A function without summary that is not in progress. */
    method CalculateNew(f: Func)
      requires Valid() && f in p.calls && f !in callDist && f !in curProc
      requires forall h :: h in curProc ==> Leads(p.calls, h, f)
      modifies this
      ensures Valid() && curProc == old(curProc)
      ensures HasGrown(p.calls, f, old(finished), old(callDist), finished, callDist)
      ensures dynCallSet <= old(dynCallSet) - {f}
      ensures f in callDist && finished != [] && finished[|finished| - 1] == f
      decreases p.calls.Keys - curProc - callDist.Keys, 2
    {
      StateBegins(p, finished, callDist, curProc, dynCallSet, f);
      dynCallSet, curProc := dynCallSet - {f}, curProc + {f};
      LeadsToItself(p.calls, f);
      assert f in old(p.calls.Keys - curProc - callDist.Keys);
      CalculateCallees(f);
      ghost var fin, sums := finished, callDist;
      var summary := FinishFunction(f);
      GrowsByItself(p.calls, f, old(finished), old(callDist), fin, sums, finished, callDist);
    }

    /** The recursion into the callees that have no summary yet. */
    method CalculateCallees(f: Func)
      requires Valid() && f in curProc
      requires forall h :: h in curProc ==> Leads(p.calls, h, f)
      modifies this
      ensures Valid() && curProc == old(curProc)
      ensures HasGrown(p.calls, f, old(finished), old(callDist), finished, callDist)
      ensures dynCallSet <= old(dynCallSet)
      ensures f in p.calls && CalleesDone(p, callDist, curProc, f, |p.calls[f]|)
      decreases p.calls.Keys - curProc - callDist.Keys, 4
    {
      var i := 0;
      while i < |p.calls[f]|
        invariant 0 <= i <= |p.calls[f]|
        invariant Valid() && curProc == old(curProc)
        invariant HasGrown(p.calls, f, old(finished), old(callDist), finished, callDist)
        invariant dynCallSet <= old(dynCallSet)
        invariant CalleesDone(p, callDist, curProc, f, i)
      {
        var callee := p.calls[f][i];
        if callee != f && callee in p.calls && callee !in callDist {
          forall h | h in curProc ensures Leads(p.calls, h, callee) {
            LeadsFarther(p.calls, h, f, callee);
          }
          ghost var fin, sums := finished, callDist;
          SubCalculateCalls(callee);
          GrowsByCallee(p.calls, f, callee, old(finished), old(callDist), fin, sums, finished, callDist);
        }
        i := i + 1;
      }
    }

    /** The search of a function, with the summaries stored so far. */
    method SummaryOf(f: Func) returns (s: Summary)
      requires Valid() && f in p.calls
      ensures IsSummaryOf(p, callDist, f, s) && |s.dist| == |p.targets|
    {
      var dist, intra;
      ghost var order;
      dist, intra, order := Search(p.g, callDist, p.targets, true, p.entryOf[f], p.exitOf[f]);
      s := Summary(intra, dist);
    }

    /** The search of a function whose callees are done, and the storing of its summary. */
    method FinishFunction(f: Func) returns (summary: Summary)
      requires Valid() && f in curProc && CalleesDone(p, callDist, curProc, f, |p.calls[f]|)
      requires forall h :: h in curProc ==> Leads(p.calls, h, f)
      modifies this
      ensures Valid() && curProc == old(curProc) - {f} && dynCallSet == old(dynCallSet)
      ensures f !in old(callDist) && finished == old(finished) + [f] && callDist == old(callDist)[f := summary]
    {
      summary := SummaryOf(f);
      StateFinishes(p, finished, callDist, curProc, dynCallSet, f, summary);
      callDist, finished, curProc := callDist[f := summary], finished + [f], curProc - {f};
    }

    /**
      `calculateCallsInICFG`, from the functions that the program starts with: on
      every call graph it ends with one summary for each function in it.
    */
    method CalculateCalls(roots: seq<Func>) returns (ghost marks: seq<nat>)
      requires p.WellFormed() && callDist == map[] && finished == [] && curProc == {}
      modifies this
      ensures callDist.Keys == p.calls.Keys && dynCallSet == {}
      ensures History(p, finished, callDist)
      ensures RootByRoot(p.calls, roots, finished, marks)
    {
      dynCallSet := p.calls.Keys;
      marks := CalculateRoots(roots);
      ghost var before := finished;
      CalculateRest();
      MarksStay(p.calls, roots, before, finished, marks);
    }

    /** The functions that the program starts with. */
    method CalculateRoots(roots: seq<Func>) returns (ghost marks: seq<nat>)
      requires Valid() && callDist == map[] && finished == [] && curProc == {}
      modifies this
      ensures Valid() && curProc == {}
      ensures RootByRoot(p.calls, roots, finished, marks)
    {
      var i := 0;
      marks := [0];
      ghost var done: seq<Func> := [];
      assert Members([]) == {};
      while i < |roots|
        invariant 0 <= i <= |roots| && done == roots[..i]
        invariant Valid() && curProc == {}
        invariant RootByRoot(p.calls, done, finished, marks) && marks[i] == |finished|
      {
        marks := CalculateRoot(roots[i], done, marks);
        done := done + [roots[i]];
        i := i + 1;
      }
      assert done == roots;
    }

    method CalculateRoot(root: Func, ghost done: seq<Func>, ghost marks: seq<nat>) returns (ghost marks': seq<nat>)
      requires Valid() && curProc == {}
      requires RootByRoot(p.calls, done, finished, marks) && marks[|done|] == |finished|
      modifies this
      ensures Valid() && curProc == {}
      ensures RootByRoot(p.calls, done + [root], finished, marks') && marks'[|done| + 1] == |finished|
    {
      ghost var before, sums := finished, callDist;
      SubCalculateCalls(root);
      NextRoot(p, done, root, before, sums, finished, callDist, dynCallSet, marks);
      marks' := marks + [|finished|];
    }

    /** The functions that no complete chain of calls leads to. */
    method CalculateRest()
      requires Valid() && curProc == {}
      modifies this
      ensures Valid() && curProc == {} && dynCallSet == {} && old(finished) <= finished
    {
      while dynCallSet != {}
        invariant Valid() && curProc == {} && old(finished) <= finished
        decreases dynCallSet
      {
        var f :| f in dynCallSet;
        SubCalculateCalls(f);
      }
    }
  }

  lemma NextRoot(p: Program, done: seq<Func>, root: Func, before: seq<Func>, sums: Summaries, finished: seq<Func>,
                 callDist: Summaries, dynCallSet: set<Func>, marks: seq<nat>)
    requires RootByRoot(p.calls, done, before, marks) && marks[|done|] == |before|
    requires IsState(p, finished, callDist, {}, dynCallSet) && sums.Keys == Members(before)
    requires HasGrown(p.calls, root, before, sums, finished, callDist)
    requires root in p.calls ==> root in callDist
    requires root in p.calls && root !in sums ==> finished != [] && finished[|finished| - 1] == root
    ensures RootByRoot(p.calls, done + [root], finished, marks + [|finished|])
  {
    NewAreLedTo(p.calls, root, before, sums, finished, callDist);
    assert root in callDist <==> root in Members(finished);
    assert root in sums <==> root in Members(before);
    NextMark(p.calls, done, root, before, finished, marks);
  }

  lemma NewAreLedTo(calls: CallGraph, root: Func, before: seq<Func>, sums: Summaries, finished: seq<Func>,
                    sums': Summaries)
    requires HasGrown(calls, root, before, sums, finished, sums')
    requires sums.Keys == Members(before) && sums'.Keys == Members(finished)
    ensures forall f :: f in finished && f !in before ==> Leads(calls, root, f)
  {
    forall f | f in finished && f !in before ensures Leads(calls, root, f) {
      assert f in Members(finished) && f !in Members(before);
    }
  }

  lemma NextMark(calls: CallGraph, roots: seq<Func>, root: Func, before: seq<Func>, finished: seq<Func>,
                 marks: seq<nat>)
    requires RootByRoot(calls, roots, before, marks) && marks[|roots|] == |before| && before <= finished
    requires Members(finished) <= calls.Keys && IsClosed(calls, Members(finished), {})
    requires root in calls ==> root in finished
    requires forall f :: f in finished && f !in before ==> Leads(calls, root, f)
    requires root in calls && root !in before ==> finished != [] && finished[|finished| - 1] == root
    ensures RootByRoot(calls, roots + [root], finished, marks + [|finished|])
  {
    MarksStay(calls, roots, before, finished, marks);
    assert before[..|before|] == before && finished[..|finished|] == finished && roots[..|roots|] == roots;
    OneMoreRoot(calls, roots, root, Members(before), Members(finished));
    var more, marks' := roots + [root], marks + [|finished|];
    forall i | 0 <= i < |marks'| ensures AreLedTo(calls, more[..i], Members(finished[..marks'[i]])) {
      if i < |marks| {
        assert more[..i] == roots[..i];
      } else {
        assert more[..i] == more;
      }
    }
    forall i | 0 <= i < |more| ensures IsLast(calls, more[i], finished, marks'[i], marks'[i + 1]) {
      if i < |roots| {
        assert IsLast(calls, roots[i], finished, marks[i], marks[i + 1]);
      } else {
        assert finished[..|before|] == before;
      }
    }
  }

  lemma MarksStay(calls: CallGraph, roots: seq<Func>, before: seq<Func>, finished: seq<Func>, marks: seq<nat>)
    requires RootByRoot(calls, roots, before, marks) && before <= finished
    ensures RootByRoot(calls, roots, finished, marks)
  {
    forall i | 0 <= i < |marks| ensures finished[..marks[i]] == before[..marks[i]] {
    }
    forall i | 0 <= i < |roots| ensures IsLast(calls, roots[i], finished, marks[i], marks[i + 1]) {
      assert IsLast(calls, roots[i], before, marks[i], marks[i + 1]);
    }
  }
}
