/**
  What becomes of `queued_favored` when an entry hits other bytes each time it is scored:
  it wins the new slots too, but keeps the compact trace of an earlier scoring, and the
  greedy pass picks it once more for each slot that this trace does not cover.
*/
module UnstableTargets {
  import opened QueueScoring

  // ---------------------------------------------------------------- how often an entry is picked

  /** The slots at which the greedy pass picks `e` and that its trace does not cover. */
  ghost function StrayPicks(top: seq<Slot>, entries: seq<Entry>, e: nat): set<nat> {
    set p | p in Picks(top, entries, 0, {}) && p < |top| && top[p] == WonBy(e) && p !in Covers(entries, e)
  }

  /** Those that its trace covers. */
  ghost function HomePicks(top: seq<Slot>, entries: seq<Entry>, e: nat): set<nat> {
    set p | p in Picks(top, entries, 0, {}) && p < |top| && top[p] == WonBy(e) && p in Covers(entries, e)
  }

  ghost function PicksOf(top: seq<Slot>, ps: seq<nat>, e: nat): set<nat> {
    set p | p in ps && p < |top| && top[p] == WonBy(e)
  }

  ghost predicate ArePicks(top: seq<Slot>, ps: seq<nat>) {
    && (forall a, b :: 0 <= a < b < |ps| ==> ps[a] != ps[b])
    && (forall a :: 0 <= a < |ps| ==> ps[a] < |top| && top[ps[a]].WonBy?)
  }

  lemma PicksOfMore(top: seq<Slot>, init: seq<nat>, last: nat, e: nat)
    requires last !in init && last < |top| && top[last].WonBy?
    ensures |PicksOf(top, init + [last], e)| == |PicksOf(top, init, e)| + if top[last] == WonBy(e) then 1 else 0
  {
    if top[last] == WonBy(e) {
      assert PicksOf(top, init + [last], e) == PicksOf(top, init, e) + {last};
    } else {
      assert PicksOf(top, init + [last], e) == PicksOf(top, init, e);
    }
  }

  lemma TimesInMore(es: seq<nat>, last: nat, e: nat)
    ensures multiset(es + [last])[e] == multiset(es)[e] + if last == e then 1 else 0
  {
  }

  lemma {:induction false} TimesInList(top: seq<Slot>, ps: seq<nat>, e: nat)
    requires ArePicks(top, ps)
    ensures multiset(PickedEntries(top, ps))[e] == |PicksOf(top, ps, e)|
  {
    if ps == [] {
      assert PicksOf(top, ps, e) == {};
    } else {
      var init, last := ps[..|ps| - 1], ps[|ps| - 1];
      TimesInList(top, init, e);
      assert ps == init + [last];
      PickedMore(top, init, last, {});
      PicksOfMore(top, init, last, e);
      TimesInMore(PickedEntries(top, init), top[last].entry, e);
    }
  }

  lemma AllArePicks(top: seq<Slot>, entries: seq<Entry>)
    ensures ArePicks(top, Picks(top, entries, 0, {}))
  {
    var ps := Picks(top, entries, 0, {});
    forall a | 0 <= a < |ps| ensures ps[a] < |top| && top[ps[a]].WonBy? {
      PicksAreSlots(top, entries, 0, {}, a);
    }
    forall a, b | 0 <= a < b < |ps| ensures ps[a] != ps[b] {
      PicksAvoidCovered(top, entries, 0, {}, a, b);
    }
  }

  /** Once picked, an entry is not picked again inside its trace. */
  lemma OneHomePick(top: seq<Slot>, entries: seq<Entry>, e: nat, p: nat, q: nat)
    requires p in HomePicks(top, entries, e) && q in HomePicks(top, entries, e)
    ensures p == q
  {
    var ps := Picks(top, entries, 0, {});
    var a :| 0 <= a < |ps| && ps[a] == p;
    var b :| 0 <= b < |ps| && ps[b] == q;
    if a < b {
      PicksAvoidCovered(top, entries, 0, {}, a, b);
    } else if b < a {
      PicksAvoidCovered(top, entries, 0, {}, b, a);
    }
  }

  lemma AtMostOne(s: set<nat>)
    requires forall p, q :: p in s && q in s ==> p == q
    ensures |s| == if s == {} then 0 else 1
  {
    if s != {} {
      var p :| p in s;
      assert s == {p};
    }
  }

  /** An entry is counted once for each pick outside its trace, and once more if it was picked inside it. */
  lemma TimesPicked(top: seq<Slot>, entries: seq<Entry>, e: nat)
    ensures multiset(Choice(top, entries))[e]
         == |StrayPicks(top, entries, e)| + if HomePicks(top, entries, e) == {} then 0 else 1
  {
    var ps := Picks(top, entries, 0, {});
    AllArePicks(top, entries);
    TimesInList(top, ps, e);
    var stray, home := StrayPicks(top, entries, e), HomePicks(top, entries, e);
    assert PicksOf(top, ps, e) == stray + home && stray !! home;
    forall p, q | p in home && q in home ensures p == q {
      OneHomePick(top, entries, e, p, q);
    }
    AtMostOne(home);
  }

  lemma OneMoreElement(init: seq<nat>, last: nat)
    ensures |Elements(init + [last])| == |Elements(init)| + if last in init then 0 else 1
    ensures NoRepeats(init + [last]) <==> NoRepeats(init) && last !in init
  {
    var es := init + [last];
    assert Elements(es) == Elements(init) + {last};
    if last in init {
      assert Elements(es) == Elements(init);
      var a :| 0 <= a < |init| && init[a] == last;
      assert es[a] == es[|init|];
    }
    if NoRepeats(es) {
      forall a, b | 0 <= a < b < |init| ensures init[a] != init[b] {
        assert es[a] != es[b];
      }
    }
  }

  /** The number of picks is the number of entries picked exactly when no entry is picked twice. */
  lemma {:induction false} CountIsExactIff(es: seq<nat>)
    ensures |Elements(es)| == |es| <==> NoRepeats(es)
  {
    if es != [] {
      var init, last := es[..|es| - 1], es[|es| - 1];
      CountIsExactIff(init);
      ListCounts(init, {});
      assert es == init + [last];
      OneMoreElement(init, last);
    }
  }

  lemma RepeatIsTwice(es: seq<nat>, a: nat, b: nat)
    requires a < b < |es| && es[a] == es[b]
    ensures multiset(es)[es[a]] >= 2
  {
    assert es == es[..b] + es[b..];
    assert es[..b][a] == es[a] && es[b..][0] == es[a];
    assert es[a] in es[..b] && es[a] in es[b..];
  }

  lemma {:induction false} TwiceIsRepeat(es: seq<nat>, e: nat)
    requires NoRepeats(es)
    ensures multiset(es)[e] <= 1
  {
    if es != [] {
      var init, last := es[..|es| - 1], es[|es| - 1];
      assert es == init + [last];
      TwiceIsRepeat(init, e);
      assert last !in init;
    }
  }

  /** The counter is the number of favored entries exactly when every entry has at most one pick, of either kind. */
  lemma CountIsExact(top: seq<Slot>, entries: seq<Entry>)
    ensures |Choice(top, entries)| == |Elements(Choice(top, entries))|
       <==> forall e: nat :: |StrayPicks(top, entries, e)| + (if HomePicks(top, entries, e) == {} then 0 else 1) <= 1
  {
    var es := Choice(top, entries);
    CountIsExactIff(es);
    forall e: nat
      ensures multiset(es)[e] == |StrayPicks(top, entries, e)| + if HomePicks(top, entries, e) == {} then 0 else 1
    {
      TimesPicked(top, entries, e);
    }
    if NoRepeats(es) {
      forall e: nat ensures multiset(es)[e] <= 1 {
        TwiceIsRepeat(es, e);
      }
    } else {
      var a, b :| 0 <= a < b < |es| && es[a] == es[b];
      RepeatIsTwice(es, a, b);
    }
  }

  // ---------------------------------------------------------------- an entry alone in the queue

  /** All slots of `won` are won by the only entry, the others by none. */
  ghost predicate IsLone(top: seq<Slot>, won: set<nat>) {
    forall k: nat :: k < |top| ==> top[k] == if k in won then WonBy(0) else Unclaimed
  }

  /** The slots from `i` on that it won and that are not covered. */
  ghost function Left(top: seq<Slot>, won: set<nat>, i: nat, covered: set<nat>): set<nat> {
    set k | k in won && i <= k < |top| && k !in covered
  }

  lemma OneMoreLeft(top: seq<Slot>, won: set<nat>, i: nat, covered: set<nat>, next: nat)
    requires i < |top| && next == i + 1
    ensures |Left(top, won, i, covered)| == |Left(top, won, next, covered)| + if i in won && i !in covered then 1 else 0
  {
    if i in won && i !in covered {
      assert Left(top, won, i, covered) == Left(top, won, next, covered) + {i};
    } else {
      assert Left(top, won, i, covered) == Left(top, won, next, covered);
    }
  }

  lemma {:induction false} PicksAfterFirst(top: seq<Slot>, won: set<nat>, entries: seq<Entry>, i: nat,
                                           covered: set<nat>)
    requires IsLone(top, won) && i <= |top| && Covers(entries, 0) <= covered
    ensures |Picks(top, entries, i, covered)| == |Left(top, won, i, covered)|
    decreases |top| - i
  {
    if i == |top| {
      assert Left(top, won, i, covered) == {};
    } else {
      PicksAfterFirst(top, won, entries, i + 1, covered);
      OneMoreLeft(top, won, i, covered, i + 1);
      assert covered + Covers(entries, 0) == covered;
    }
  }

  ghost predicate IsLeast(p: nat, s: set<nat>) {
    p in s && forall k :: k in s ==> p <= k
  }

  lemma LeastExists(s: set<nat>) returns (p: nat)
    requires s != {}
    ensures IsLeast(p, s)
  {
    var any :| any in s;
    var rest := s - {any};
    p := any;
    if rest != {} {
      var q := LeastExists(rest);
      p := if q < any then q else any;
      forall k | k in s ensures p <= k {
        assert k == any || k in rest;
      }
    } else {
      assert s == {any};
    }
  }

  lemma {:induction false} FirstPick(top: seq<Slot>, won: set<nat>, entries: seq<Entry>, i: nat, p: nat)
    requires IsLone(top, won) && IsLeast(p, won) && i <= p < |top|
    ensures |Picks(top, entries, i, {})| == 1 + |Left(top, won, p + 1, Covers(entries, 0))|
    decreases p - i
  {
    if i < p {
      FirstPick(top, won, entries, i + 1, p);
    } else {
      var c := Covers(entries, 0);
      assert {} + c == c;
      PicksAfterFirst(top, won, entries, p + 1, c);
    }
  }

  /** The new slots above the first one won: each is a pick of its own. */
  ghost function Extra(first: set<nat>, second: set<nat>): set<nat> {
    set k | k in second - first && exists j :: j in first + second && j < k
  }

  /** The compact trace is that of the second scoring: it lost its only slot to itself before it took another. */
  ghost predicate IsReplaced(first: set<nat>, second: set<nat>) {
    exists s :: first == {s} && IsLeast(s, second)
  }

  /** How often the lone entry is counted. */
  ghost function TimesCounted(first: set<nat>, second: set<nat>): nat {
    if IsReplaced(first, second) then 1 else 1 + |Extra(first, second)|
  }

  /** Known before the cull: the hit sets of the two scorings. */
  ghost predicate CountsOnce(first: set<nat>, second: set<nat>) {
    || second <= first
    || (exists t :: second - first == {t} && forall s :: s in first ==> t < s)
    || IsReplaced(first, second)
  }

  lemma ExtraIsAllButLeast(first: set<nat>, second: set<nat>, p: nat)
    requires IsLeast(p, first + second)
    ensures Extra(first, second) == (second - first) - {p}
  {
    forall k | k in second - first && k != p ensures k in Extra(first, second) {
      assert p in first + second && p < k;
    }
  }

  lemma NoExtraIff(first: set<nat>, second: set<nat>, p: nat)
    requires IsLeast(p, first + second)
    ensures Extra(first, second) == {}
       <==> second <= first || (exists t :: second - first == {t} && forall s :: s in first ==> t < s)
  {
    var new_ := second - first;
    ExtraIsAllButLeast(first, second, p);
    if Extra(first, second) == {} && !(second <= first) {
      var t :| t in second && t !in first;
      assert t in new_;
      assert t in {p} by {
        assert t !in new_ - {p};
      }
      assert new_ == {p};
    }
    if t: nat :| new_ == {t} && forall s :: s in first ==> t < s {
      assert t in first + second;
      assert p in first || p in new_;
      assert p == t;
    }
  }

  lemma CountsOnceIff(first: set<nat>, second: set<nat>)
    requires first != {}
    ensures TimesCounted(first, second) == 1 <==> CountsOnce(first, second)
  {
    var p := LeastExists(first + second);
    NoExtraIff(first, second, p);
  }

  lemma LonePicks(top: seq<Slot>, entries: seq<Entry>, first: set<nat>, second: set<nat>)
    requires IsLone(top, first + second) && first != {} && forall k :: k in first + second ==> k < |top|
    requires Covers(entries, 0) == if IsReplaced(first, second) then second else first
    ensures |Picks(top, entries, 0, {})| == TimesCounted(first, second)
  {
    var won := first + second;
    var p := LeastExists(won);
    FirstPick(top, won, entries, 0, p);
    var left := Left(top, won, p + 1, Covers(entries, 0));
    if IsReplaced(first, second) {
      assert left == {};
    } else {
      assert left == Extra(first, second) by {
        forall k | k in left ensures k in Extra(first, second) {
          assert p in won && p < k;
        }
      }
    }
  }

  // ---------------------------------------------------------------- reached through the scorer

  lemma {:induction false} NoSlots(top: seq<Slot>, q: nat)
    requires forall k :: 0 <= k < |top| ==> top[k].Unclaimed?
    ensures SlotsOf(top, q) == 0
  {
    if top != [] {
      NoSlots(top[..|top| - 1], q);
    }
  }

  /** With an empty queue no slot can be won. */
  lemma NothingWonYet(top: seq<Slot>)
    requires InRange(top, [])
    ensures IsLone(top, {})
  {
  }

  /** The only entry takes every slot it hits: nobody else is there, and it does not lose to itself. */
  lemma LoneScoring(top: seq<Slot>, won: set<nat>, entries: seq<Entry>, trace: seq<bv8>)
    requires IsLone(top, won) && |entries| == 1 && |trace| == |top|
    ensures forall k :: 0 <= k < |top| ==> (Takes(top, entries, 0, trace, k) <==> k in HitSet(trace))
    ensures IsLone(Rescored(top, entries, 0, trace), won + HitSet(trace))
  {
  }

  lemma RebuildsIff(top: seq<Slot>, entries: seq<Entry>, q: nat, trace: seq<bv8>, n: nat)
    ensures RebuildsBefore(top, entries, q, trace, n)
          <==> exists i: nat :: i < n && RebuildsAt(top, entries, q, trace, i)
  {
    if n > 0 {
      RebuildsIff(top, entries, q, trace, n - 1);
    }
  }

  lemma LoneHoldsNoOther(top: seq<Slot>, won: set<nat>, i: nat)
    requires IsLone(top, won) && i < |top| && forall k :: k in won ==> k < |top|
    ensures HoldsNoOther(top, 0, i) <==> won <= {i}
  {
    var rest := top[i := Unclaimed];
    SlotsOfPositive(rest, 0);
    if won <= {i} {
      NoSlots(rest, 0);
    } else {
      var k :| k in won && k != i;
      assert rest[k] == WonBy(0);
    }
  }

  lemma FirstTaken(top: seq<Slot>, won: set<nat>, entries: seq<Entry>, trace: seq<bv8>, i: nat)
    requires IsLone(top, won) && |entries| == 1 && |trace| == |top| && i < |top|
    ensures Takes(top, entries, 0, trace, i) && !TakesBefore(top, entries, 0, trace, i) <==> IsLeast(i, HitSet(trace))
  {
    LoneScoring(top, won, entries, trace);
    LoopRescores(top, entries, 0, trace, i);
    var hit := HitSet(trace);
    assert TakesBefore(top, entries, 0, trace, i) <==> exists k :: k < i && Takes(top, entries, 0, trace, k);
    assert forall k :: Takes(top, entries, 0, trace, k) <==> 0 <= k < |top| && k in hit;
    if !TakesBefore(top, entries, 0, trace, i) {
      forall k | k in hit ensures i <= k {
        assert Takes(top, entries, 0, trace, k);
      }
    }
  }

  /** The second scoring replaces the trace exactly when the entry held one slot and that is the first it takes. */
  lemma LoneRebuilds(top: seq<Slot>, won: set<nat>, entries: seq<Entry>, trace: seq<bv8>)
    requires IsLone(top, won) && |entries| == 1 && |trace| == |top| && won != {} && forall k :: k in won ==> k < |top|
    ensures RebuildsBefore(top, entries, 0, trace, |top|) <==> IsReplaced(won, HitSet(trace))
  {
    RebuildsIff(top, entries, 0, trace, |top|);
    forall i: nat | i < |top|
      ensures RebuildsAt(top, entries, 0, trace, i) <==> won == {i} && IsLeast(i, HitSet(trace))
    {
      FirstTaken(top, won, entries, trace, i);
      LoneHoldsNoOther(top, won, i);
      assert won <= {i} <==> won == {i};
    }
    if IsReplaced(won, HitSet(trace)) {
      var i :| won == {i} && IsLeast(i, HitSet(trace));
      assert i in won;
      assert RebuildsAt(top, entries, 0, trace, i);
    }
  }

  /** The first scoring builds the trace of what it hit. */
  lemma FirstTrace(top: seq<Slot>, before: seq<Entry>, trace: seq<bv8>, top': seq<Slot>, after: seq<Entry>,
                   changed: bool, changed': bool)
    requires IsLone(top, {}) && |before| == 1 && before[0].traceMini.NotKept? && |trace| == |top| && HitSet(trace) != {}
    requires Scored(top, before, changed, 0, trace, top', after, changed') && RefCountsOk(top', after)
    ensures IsLone(top', HitSet(trace)) && |after| == 1 && changed' && Covers(after, 0) == HitSet(trace)
  {
    LoneScoring(top, {}, before, trace);
    assert {} + HitSet(trace) == HitSet(trace);
    var k :| k in HitSet(trace);
    assert Takes(top, before, 0, trace, k);
    assert top'[k] == WonBy(0);
    WinnersAreKept(top', after, k);
  }

  /** The second scoring wins what it hits on top, and keeps the first trace unless that is replaced. */
  lemma SecondTrace(top: seq<Slot>, first: set<nat>, before: seq<Entry>, trace: seq<bv8>, top': seq<Slot>,
                    after: seq<Entry>,
                    changed: bool, changed': bool)
    requires IsLone(top, first) && first != {} && (forall k :: k in first ==> k < |top|)
    requires |before| == 1 && Covers(before, 0) == first && |trace| == |top|
    requires Scored(top, before, changed, 0, trace, top', after, changed')
    ensures IsLone(top', first + HitSet(trace)) && |after| == 1 && (changed ==> changed')
    ensures Covers(after, 0) == if IsReplaced(first, HitSet(trace)) then HitSet(trace) else first
  {
    LoneScoring(top, first, before, trace);
    LoneRebuilds(top, first, before, trace);
  }

  /** What the cull makes of the lone entry. */
  lemma LoneCull(top: seq<Slot>, before: seq<Entry>, after: seq<Entry>, first: set<nat>, second: set<nat>,
                 queuedFavored: nat, pendingFavored: nat)
    requires ScoredTwice(top, before, first, second)
    requires Culled(top, before, after, queuedFavored, pendingFavored)
    ensures queuedFavored == TimesCounted(first, second) && FavoredIn(after) == {0}
  {
    LonePicks(top, after, first, second);
    var es := Choice(top, after);
    forall e | e in es ensures e == 0 {
      var a :| 0 <= a < |es| && es[a] == e;
      PicksAreSlots(top, after, 0, {}, a);
      PickedEntriesAt(top, Picks(top, after, 0, {}), a);
    }
    assert es[0] in es;
  }

  /** What holds of the lone entry after two scorings. */
  ghost predicate ScoredTwice(top: seq<Slot>, entries: seq<Entry>, first: set<nat>, second: set<nat>) {
    && |entries| == 1 && IsLone(top, first + second) && first != {}
    && (forall k :: k in first + second ==> k < |top|)
    && Covers(entries, 0) == if IsReplaced(first, second) then second else first
  }

  method ScoreOnce(mapSize: nat, len: nat, first: seq<bv8>) returns (s: Scorer)
    requires mapSize % 8 == 0 && |first| == mapSize && HitSet(first) != {}
    ensures fresh(s) && fresh(s.topRated) && s.mapSize == mapSize && !s.dumbMode
    ensures s.Valid() && s.IsCounted() && s.scoreChanged
    ensures IsLone(s.topRated[..], HitSet(first)) && |s.entries| == 1 && Covers(s.entries, 0) == HitSet(first)
  {
    s := new Scorer(mapSize, false);
    ghost var top := s.topRated[..];
    NothingWonYet(top);
    var q := s.AddToQueue(len);
    ghost var before, changed := s.entries, s.scoreChanged;
    s.UpdateBitmapScore(q, first);
    FirstTrace(top, before, first, s.topRated[..], s.entries, changed, s.scoreChanged);
  }

  method ScoreTwice(mapSize: nat, len: nat, first: seq<bv8>, second: seq<bv8>) returns (s: Scorer)
    requires mapSize % 8 == 0 && |first| == |second| == mapSize && HitSet(first) != {}
    ensures fresh(s) && fresh(s.topRated) && !s.dumbMode
    ensures s.Valid() && s.IsCounted() && s.scoreChanged
    ensures ScoredTwice(s.topRated[..], s.entries, HitSet(first), HitSet(second))
  {
    s := ScoreOnce(mapSize, len, first);
    ghost var top, before, changed := s.topRated[..], s.entries, s.scoreChanged;
    s.UpdateBitmapScore(0, second);
    SecondTrace(top, HitSet(first), before, second, s.topRated[..], s.entries, changed, s.scoreChanged);
  }

  /**
    A new entry, scored twice and culled: `queued_favored` is 1 exactly when the second
    scoring hit nothing new, or one new byte below all others, or replaced the trace.
  */
  method ScoreTwiceAndCull(mapSize: nat, len: nat, first: seq<bv8>, second: seq<bv8>) returns (s: Scorer)
    requires mapSize % 8 == 0 && |first| == |second| == mapSize && HitSet(first) != {}
    ensures fresh(s) && FavoredIn(s.entries) == {0}
    ensures s.queuedFavored == TimesCounted(HitSet(first), HitSet(second))
    ensures s.queuedFavored == 1 <==> CountsOnce(HitSet(first), HitSet(second))
  {
    s := ScoreTwice(mapSize, len, first, second);
    ghost var top, before := s.topRated[..], s.entries;
    s.CullQueue();
    LoneCull(top, before, s.entries, HitSet(first), HitSet(second), s.queuedFavored, s.pendingFavored);
    CountsOnceIff(HitSet(first), HitSet(second));
  }

  lemma ThreeTimes()
    ensures var first: seq<bv8>, second: seq<bv8> := [1, 1, 0, 0, 0, 0, 0, 0], [0, 0, 1, 1, 0, 0, 0, 0];
      HitSet(first) == {0, 1} && HitSet(second) == {2, 3} && TimesCounted({0, 1}, {2, 3}) == 3
  {
    var first: set<nat>, second: set<nat> := {0, 1}, {2, 3};
    assert 0 in first && 1 in first;
    assert Extra(first, second) == second by {
      assert 0 in first + second;
    }
    assert |second| == 2;
  }

  /** An entry that hits bytes 0 and 1 and then bytes 2 and 3 is one favored entry counted three times. */
  method CountedThreeTimes() returns (s: Scorer)
    ensures s.queuedFavored == 3 && FavoredIn(s.entries) == {0}
  {
    ThreeTimes();
    s := ScoreTwiceAndCull(8, 1, [1, 1, 0, 0, 0, 0, 0, 0], [0, 0, 1, 1, 0, 0, 0, 0]);
  }

  /** A new byte above does no harm when the entry held one slot only and takes that first: the trace is replaced. */
  lemma ReplacedCountsOnce()
    ensures !({0, 1} <= {0}) && CountsOnce({0}, {0, 1}) && TimesCounted({0}, {0, 1}) == 1
  {
    var first: set<nat>, second: set<nat> := {0}, {0, 1};
    assert 1 in second && 1 !in first;
    assert first == {0} && IsLeast(0, second);
  }
}
