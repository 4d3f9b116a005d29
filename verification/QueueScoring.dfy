/**
  The fuzzing queue: scoring of entries per bitmap byte (`update_bitmap_score`),
  reference-counted compact traces, and the lazily recomputed greedy choice of
  favored entries (`cull_queue`), together with the operations that change what
  the choice depends on (`add_to_queue`, calibration, trimming, the end of
  `fuzz_one`).

  The linked list of queue entries is the sequence `entries`; a pointer to an
  entry is its position in it, which never changes.
*/
module QueueScoring {
  import opened Bits

  const U64: nat := 0x1_0000_0000_0000_0000

  /** The buffer behind `trace_mini` is written once, when it is allocated, and later freed. */
  datatype CompactTrace = NotKept | Kept(bytes: seq<bv8>)

  datatype Entry = Entry(
    len: nat, execUs: nat,
    wasFuzzed: bool, favored: bool, fsRedundant: bool,
    traceMini: CompactTrace, tcRef: nat)
  {
    function FavFactor(): nat {
      FactorOf(execUs, len)
    }

    predicate FitsU64() {
      execUs * len < U64
    }
  }

  /** The speed times size factor, in unsigned 64-bit arithmetic. */
  function FactorOf(execUs: nat, len: nat): nat {
    (execUs * len) % U64
  }

  datatype Slot = Unclaimed | WonBy(entry: nat)

  function HitSet(trace: seq<bv8>): set<nat> {
    set i: nat | i < |trace| && trace[i] != 0
  }

  function BitSet(bytes: seq<bv8>): set<nat> {
    set i: nat | i < 8 * |bytes| && Bit(bytes[i / 8], i % 8)
  }

  // ---------------------------------------------------------------- reference counts

  /** Number of slots that an entry holds. */
  ghost function SlotsOf(top: seq<Slot>, e: nat): nat {
    if top == [] then 0 else SlotsOf(top[..|top| - 1], e) + if top[|top| - 1] == WonBy(e) then 1 else 0
  }

  lemma {:induction false} SlotsOfUpdate(top: seq<Slot>, i: nat, slot: Slot, e: nat)
    requires i < |top|
    ensures SlotsOf(top[i := slot], e) + (if top[i] == WonBy(e) then 1 else 0)
         == SlotsOf(top, e) + (if slot == WonBy(e) then 1 else 0)
  {
    var last := |top| - 1;
    if i == last {
      assert top[i := slot][..last] == top[..last];
    } else {
      assert top[i := slot][..last] == top[..last][i := slot];
      SlotsOfUpdate(top[..last], i, slot, e);
    }
  }

  /** The reference count is the number of slots that point to the entry. */
  lemma {:induction false} SlotsOfCounts(top: seq<Slot>, e: nat)
    ensures SlotsOf(top, e) == |set k: nat | k < |top| && top[k] == WonBy(e)|
  {
    var all := set k: nat | k < |top| && top[k] == WonBy(e);
    if top == [] {
      assert all == {};
    } else {
      var last := |top| - 1;
      SlotsOfCounts(top[..last], e);
      var before := set k: nat | k < last && top[..last][k] == WonBy(e);
      assert all == if top[last] == WonBy(e) then before + {last} else before;
    }
  }

  lemma {:induction false} SlotsOfPositive(top: seq<Slot>, e: nat)
    ensures SlotsOf(top, e) > 0 <==> WonBy(e) in top
  {
    if top != [] {
      SlotsOfPositive(top[..|top| - 1], e);
      assert top == top[..|top| - 1] + [top[|top| - 1]];
    }
  }

  /** The reference count is the number of slots held, and the compact trace lives exactly as long. */
  ghost predicate RefCountOk(top: seq<Slot>, e: nat, entry: Entry) {
    && entry.tcRef == SlotsOf(top, e)
    && (entry.traceMini.Kept? <==> entry.tcRef > 0)
    && (entry.traceMini.Kept? ==> 8 * |entry.traceMini.bytes| == |top|)
  }

  ghost predicate InRange(top: seq<Slot>, entries: seq<Entry>) {
    forall k :: 0 <= k < |top| && top[k].WonBy? ==> top[k].entry < |entries|
  }

  ghost predicate RefCountsOk(top: seq<Slot>, entries: seq<Entry>) {
    && InRange(top, entries)
    && (forall e :: 0 <= e < |entries| ==> RefCountOk(top, e, entries[e]))
  }

  lemma WinnersAreKept(top: seq<Slot>, entries: seq<Entry>, k: nat)
    requires RefCountsOk(top, entries) && k < |top| && top[k].WonBy?
    ensures entries[top[k].entry].tcRef > 0 && entries[top[k].entry].traceMini.Kept?
  {
    SlotsOfPositive(top, top[k].entry);
    assert RefCountOk(top, top[k].entry, entries[top[k].entry]);
  }

  // ---------------------------------------------------------------- scoring

  /** Does `q` take slot `k`? It must hit it, and not lose to the present winner. */
  ghost predicate Takes(top: seq<Slot>, entries: seq<Entry>, q: nat, trace: seq<bv8>, k: int) {
    && 0 <= k < |top| && k < |trace| && q < |entries| && trace[k] != 0
    && (top[k].WonBy? ==> top[k].entry < |entries| && entries[q].FavFactor() <= entries[top[k].entry].FavFactor())
  }

  /** The winner table after scoring `q`. */
  ghost function Rescored(top: seq<Slot>, entries: seq<Entry>, q: nat, trace: seq<bv8>): (r: seq<Slot>)
    ensures |r| == |top|
  {
    seq(|top|, k requires 0 <= k < |top| => if Takes(top, entries, q, trace, k) then WonBy(q) else top[k])
  }

  /** The winner table after the first `n` iterations of the scoring loop. */
  ghost function RescoredUpTo(top: seq<Slot>, entries: seq<Entry>, q: nat, trace: seq<bv8>, n: nat): (r: seq<Slot>)
    requires n <= |top|
    ensures |r| == |top|
  {
    if n == 0 then top
    else
      var r := RescoredUpTo(top, entries, q, trace, n - 1);
      if Takes(top, entries, q, trace, n - 1) then r[n - 1 := WonBy(q)] else r
  }

  ghost predicate TakesBefore(top: seq<Slot>, entries: seq<Entry>, q: nat, trace: seq<bv8>, n: nat) {
    n > 0 && (TakesBefore(top, entries, q, trace, n - 1) || Takes(top, entries, q, trace, n - 1))
  }

  lemma {:induction false} LoopRescores(top: seq<Slot>, entries: seq<Entry>, q: nat, trace: seq<bv8>, n: nat)
    requires n <= |top|
    ensures RescoredUpTo(top, entries, q, trace, n) == Rescored(top, entries, q, trace)[..n] + top[n..]
    ensures TakesBefore(top, entries, q, trace, n) <==> exists k :: k < n && Takes(top, entries, q, trace, k)
  {
    if n > 0 {
      LoopRescores(top, entries, q, trace, n - 1);
    }
  }

  /** Each byte hit by a scored entry, `but` apart, has a winner that is at least as good. */
  ghost predicate Optimal(top: seq<Slot>, entries: seq<Entry>, hits: map<nat, set<nat>>, but: int) {
    forall e, k :: e in hits && e != but && k in hits[e] ==>
      && e < |entries| && k < |top| && top[k].WonBy? && top[k].entry < |entries|
      && entries[top[k].entry].FavFactor() <= entries[e].FavFactor()
  }

  /** Every kept trace is the hit set its entry was scored with, and winners hit their slots. */
  ghost predicate TracesAgree(top: seq<Slot>, entries: seq<Entry>, hits: map<nat, set<nat>>) {
    && (forall e :: 0 <= e < |entries| && entries[e].traceMini.Kept? ==>
        e in hits && BitSet(entries[e].traceMini.bytes) == hits[e])
    && (forall k :: 0 <= k < |top| && top[k].WonBy? ==> top[k].entry in hits && k in hits[top[k].entry])
  }

  lemma RescoringIsOptimal(top: seq<Slot>, entries: seq<Entry>, hits: map<nat, set<nat>>, q: nat, trace: seq<bv8>)
    requires |trace| == |top| && q < |entries| && InRange(top, entries)
    requires Optimal(top, entries, hits, q)
    ensures Optimal(Rescored(top, entries, q, trace), entries, hits[q := HitSet(trace)], -1)
  {
  }

  /** Every slot that a scored entry hits has a winner whose speed times size is no greater. */
  ghost predicate CheapestWin(top: seq<Slot>, entries: seq<Entry>, hits: map<nat, set<nat>>) {
    forall e, k :: e in hits && k in hits[e] ==>
      && e < |entries| && k < |top| && top[k].WonBy? && top[k].entry < |entries|
      && IsNoDearer(entries[top[k].entry], entries[e])
  }

  /** In the entries' own numbers: the products, or what is left of them in 64 bits. */
  ghost predicate IsNoDearer(a: Entry, b: Entry) {
    var x, y := a.execUs * a.len, b.execUs * b.len;
    && x % 0x1_0000_0000_0000_0000 <= y % 0x1_0000_0000_0000_0000
    && (x < 0x1_0000_0000_0000_0000 && y < 0x1_0000_0000_0000_0000 ==> x <= y)
  }

  /** The factor is the product itself while that fits, and differs from it by a multiple of 2^64 otherwise. */
  lemma FactorIsProduct(execUs: nat, len: nat)
    ensures FactorOf(execUs, len) < 0x1_0000_0000_0000_0000
    ensures (execUs * len - FactorOf(execUs, len)) % 0x1_0000_0000_0000_0000 == 0
    ensures execUs * len < 0x1_0000_0000_0000_0000 ==> FactorOf(execUs, len) == execUs * len
  {
  }

  lemma FactorsCompareProducts(a: Entry, b: Entry)
    ensures a.FavFactor() <= b.FavFactor() <==> IsNoDearer(a, b)
  {
    FactorIsProduct(a.execUs, a.len);
    FactorIsProduct(b.execUs, b.len);
  }

  lemma OptimalMeansCheapest(top: seq<Slot>, entries: seq<Entry>, hits: map<nat, set<nat>>)
    requires Optimal(top, entries, hits, -1)
    ensures CheapestWin(top, entries, hits)
  {
    forall e, k | e in hits && k in hits[e]
      ensures e < |entries| && k < |top| && top[k].WonBy? && top[k].entry < |entries|
              && IsNoDearer(entries[top[k].entry], entries[e])
    {
      FactorsCompareProducts(entries[top[k].entry], entries[e]);
    }
  }

  /**
    Who holds slot `k` after the scoring of `q`, in numbers: the holder stays exactly if the byte was not hit or
    the newcomer's speed times size is greater than its own.
  */
  ghost predicate SlotIsDecided(top: seq<Slot>, entries: seq<Entry>, q: nat, trace: seq<bv8>, after: Slot, k: nat) {
    k < |top| && k < |trace| && q < |entries| &&
    if trace[k] == 0 then after == top[k]
    else if top[k].Unclaimed? then after == WonBy(q)
    else
      top[k].entry < |entries| &&
      var x, y := entries[top[k].entry].execUs * entries[top[k].entry].len, entries[q].execUs * entries[q].len;
      && after
         == (if y % 0x1_0000_0000_0000_0000 > x % 0x1_0000_0000_0000_0000 then top[k] else WonBy(q))
      && (x < 0x1_0000_0000_0000_0000 && y < 0x1_0000_0000_0000_0000
          ==> after == if y > x then top[k] else WonBy(q))
  }

  ghost predicate SlotsAreDecided(top: seq<Slot>, entries: seq<Entry>, q: nat, trace: seq<bv8>, after: seq<Slot>) {
    |after| == |top| && forall k: nat :: k < |top| ==> SlotIsDecided(top, entries, q, trace, after[k], k)
  }

  /** The winners after scoring, slot by slot, in the entries' own numbers. */
  lemma ScoringDecides(top: seq<Slot>, entries: seq<Entry>, q: nat, trace: seq<bv8>)
    requires |trace| == |top| && q < |entries| && InRange(top, entries)
    ensures SlotsAreDecided(top, entries, q, trace, Rescored(top, entries, q, trace))
  {
    forall k: nat | k < |top| ensures SlotIsDecided(top, entries, q, trace, Rescored(top, entries, q, trace)[k], k) {
      if top[k].WonBy? {
        FactorsCompareProducts(entries[q], entries[top[k].entry]);
      }
    }
  }

  /** Scoring `q` changes only reference counts and traces: it may free any trace, and may build one for `q`. */
  ghost predicate ScoringStep(before: seq<Entry>, after: seq<Entry>, q: nat, trace: seq<bv8>) {
    && |after| == |before|
    && forall e :: 0 <= e < |after| ==>
         && after[e] == before[e].(traceMini := after[e].traceMini, tcRef := after[e].tcRef)
         && (|| after[e].traceMini == NotKept
             || after[e].traceMini == before[e].traceMini
             || (e == q && after[e].traceMini.Kept? && BitSet(after[e].traceMini.bytes) == HitSet(trace)))
  }

  /** Slot `i` apart, `q` holds none. */
  ghost predicate HoldsNoOther(top: seq<Slot>, q: nat, i: nat)
    requires i < |top|
  {
    SlotsOf(top[i := Unclaimed], q) == 0
  }

  /** The trace is built anew at slot `i`: it is the first that `q` takes, and it holds no other. */
  ghost predicate RebuildsAt(top: seq<Slot>, entries: seq<Entry>, q: nat, trace: seq<bv8>, i: nat) {
    Takes(top, entries, q, trace, i) && !TakesBefore(top, entries, q, trace, i) && HoldsNoOther(top, q, i)
  }

  ghost predicate RebuildsBefore(top: seq<Slot>, entries: seq<Entry>, q: nat, trace: seq<bv8>, n: nat) {
    n > 0 && (RebuildsBefore(top, entries, q, trace, n - 1) || RebuildsAt(top, entries, q, trace, n - 1))
  }

  /** The compact trace of `q` is the new one, or the one it had. */
  ghost predicate TraceAfter(before: seq<Entry>, after: seq<Entry>, q: nat, trace: seq<bv8>, rebuilt: bool) {
    && q < |before| == |after|
    && if rebuilt then after[q].traceMini.Kept? && BitSet(after[q].traceMini.bytes) == HitSet(trace)
       else after[q].traceMini == before[q].traceMini
  }

  /** While the loop runs, `q` is left with no other slot only before it took any. */
  lemma HoldsNoOtherMeans(top0: seq<Slot>, entries: seq<Entry>, q: nat, trace: seq<bv8>, n: nat)
    requires n < |top0|
    ensures HoldsNoOther(RescoredUpTo(top0, entries, q, trace, n), q, n)
       <==> !TakesBefore(top0, entries, q, trace, n) && HoldsNoOther(top0, q, n)
  {
    var top := RescoredUpTo(top0, entries, q, trace, n);
    LoopRescores(top0, entries, q, trace, n);
    if TakesBefore(top0, entries, q, trace, n) {
      var k: nat :| k < n && Takes(top0, entries, q, trace, k);
      assert top[n := Unclaimed][k] == WonBy(q);
      SlotsOfPositive(top[n := Unclaimed], q);
    } else {
      forall k | 0 <= k < |top| ensures top[k] == top0[k] {
        assert k < n ==> !Takes(top0, entries, q, trace, k);
      }
      assert top == top0;
    }
  }

  /** After the first `n` slots: winners, entries and the change flag. */
  ghost predicate ScoredUpTo(top0: seq<Slot>, entries0: seq<Entry>, changed0: bool, q: nat, trace: seq<bv8>, n: nat,
                             top: seq<Slot>, entries: seq<Entry>, changed: bool)
  {
    && n <= |top0|
    && top == RescoredUpTo(top0, entries0, q, trace, n)
    && ScoringStep(entries0, entries, q, trace)
    && TraceAfter(entries0, entries, q, trace, RebuildsBefore(top0, entries0, q, trace, n))
    && changed == (changed0 || TakesBefore(top0, entries0, q, trace, n))
    && (!changed ==> entries == entries0)
  }

  /** What one scoring does to the winners, the entries and the change flag. */
  ghost predicate Scored(top0: seq<Slot>, entries0: seq<Entry>, changed0: bool, q: nat, trace: seq<bv8>,
                         top: seq<Slot>, entries: seq<Entry>, changed: bool)
  {
    && top == Rescored(top0, entries0, q, trace)
    && ScoringStep(entries0, entries, q, trace)
    && TraceAfter(entries0, entries, q, trace, RebuildsBefore(top0, entries0, q, trace, |top0|))
    && changed == (changed0 || exists k :: Takes(top0, entries0, q, trace, k))
    && (!changed ==> top == top0 && entries == entries0)
  }

  lemma ScoringOneMore(top0: seq<Slot>, entries0: seq<Entry>, changed0: bool, q: nat, trace: seq<bv8>, n: nat,
                       top: seq<Slot>, entries: seq<Entry>, changed: bool,
                       top': seq<Slot>, entries': seq<Entry>, changed': bool)
    requires ScoredUpTo(top0, entries0, changed0, q, trace, n, top, entries, changed) && n < |top0|
    requires ScoringStep(entries, entries', q, trace)
    requires var takes := Takes(top, entries, q, trace, n);
      && TraceAfter(entries, entries', q, trace, takes && HoldsNoOther(top, q, n))
      && top' == (if takes then top[n := WonBy(q)] else top)
      && changed' == (changed || takes)
      && (!takes ==> entries' == entries)
    ensures ScoredUpTo(top0, entries0, changed0, q, trace, n + 1, top', entries', changed')
  {
    LoopRescores(top0, entries0, q, trace, n);
    assert top[n] == top0[n];
    ScoringStepKeepsTakes(entries0, entries, q, trace, top0, n);
    HoldsNoOtherMeans(top0, entries0, q, trace, n);
    ScoringStepsCompose(entries0, entries, entries', q, trace);
  }

  lemma ScoringAllDone(top0: seq<Slot>, entries0: seq<Entry>, changed0: bool, q: nat, trace: seq<bv8>,
                       top: seq<Slot>, entries: seq<Entry>, changed: bool)
    requires ScoredUpTo(top0, entries0, changed0, q, trace, |top0|, top, entries, changed)
    ensures Scored(top0, entries0, changed0, q, trace, top, entries, changed)
  {
    LoopRescores(top0, entries0, q, trace, |top0|);
    if !changed {
      forall k | 0 <= k < |top0| ensures top[k] == top0[k] {
        assert !Takes(top0, entries0, q, trace, k);
      }
    }
  }

  lemma ScoringStepsCompose(a: seq<Entry>, b: seq<Entry>, c: seq<Entry>, q: nat, trace: seq<bv8>)
    requires ScoringStep(a, b, q, trace) && ScoringStep(b, c, q, trace)
    ensures ScoringStep(a, c, q, trace)
  {
  }

  lemma ScoringStepKeepsTakes(a: seq<Entry>, b: seq<Entry>, q: nat, trace: seq<bv8>, top: seq<Slot>, k: nat)
    requires ScoringStep(a, b, q, trace)
    ensures Takes(top, a, q, trace, k) == Takes(top, b, q, trace, k)
  {
  }

  /** `minimize_bits`: one bit per byte that is set. */
  method MinimizeBits(dst: array<bv8>, src: seq<bv8>)
    requires 8 * dst.Length == |src|
    modifies dst
    ensures BitSet(dst[..]) == old(BitSet(dst[..])) + HitSet(src)
  {
    var i := 0;
    while i < |src|
      invariant 0 <= i <= |src|
      invariant forall k: nat :: k < |src| ==>
                  (Bit(dst[k / 8], k % 8) <==> k in old(BitSet(dst[..])) || (k < i && src[k] != 0))
    {
      if src[i] != 0 {
        forall k: nat | k < |src| ensures Bit(dst[i / 8] | Mask(i % 8), k % 8)
              <==> Bit(dst[i / 8], k % 8) || k % 8 == i % 8 {
          OrMask(dst[i / 8], i % 8, k % 8);
        }
        dst[i / 8] := dst[i / 8] | Mask(i % 8);
      }
      i := i + 1;
    }
  }

  method Compacted(trace: seq<bv8>) returns (bytes: seq<bv8>)
    requires |trace| % 8 == 0
    ensures 8 * |bytes| == |trace| && BitSet(bytes) == HitSet(trace)
  {
    var mini := new bv8[|trace| / 8](_ => 0);
    assert BitSet(mini[..]) == {} by {
      forall k: nat | k < |trace| ensures !Bit(mini[k / 8], k % 8) {
        ConstantBits(k % 8);
      }
    }
    MinimizeBits(mini, trace);
    bytes := mini[..];
  }

  /** The loser of a slot gives up its reference, and its trace with the last one. */
  function Released(entry: Entry): Entry
    requires entry.tcRef > 0
  {
    if entry.tcRef == 1 then entry.(tcRef := 0, traceMini := NotKept) else entry.(tcRef := entry.tcRef - 1)
  }

  /** The new winner gains a reference, and a compact trace unless it still has one. */
  function Claimed(entry: Entry, mini: seq<bv8>): Entry {
    entry.(tcRef := entry.tcRef + 1, traceMini := if entry.traceMini.Kept? then entry.traceMini else Kept(mini))
  }

  lemma ReleaseIsStep(entries: seq<Entry>, loser: nat, q: nat, trace: seq<bv8>)
    requires loser < |entries| && entries[loser].tcRef > 0
    ensures ScoringStep(entries, entries[loser := Released(entries[loser])], q, trace)
  {
  }

  lemma ClaimIsStep(entries: seq<Entry>, q: nat, mini: seq<bv8>, trace: seq<bv8>)
    requires q < |entries| && (entries[q].traceMini.NotKept? ==> BitSet(mini) == HitSet(trace))
    ensures ScoringStep(entries, entries[q := Claimed(entries[q], mini)], q, trace)
  {
  }

  lemma ReleaseKeepsCounts(top: seq<Slot>, entries: seq<Entry>, i: nat)
    requires RefCountsOk(top, entries) && i < |top| && top[i].WonBy?
    ensures entries[top[i].entry].tcRef > 0
    ensures RefCountsOk(top[i := Unclaimed], entries[top[i].entry := Released(entries[top[i].entry])])
  {
    WinnersAreKept(top, entries, i);
    var loser := top[i].entry;
    var after := entries[loser := Released(entries[loser])];
    forall e | 0 <= e < |after| ensures RefCountOk(top[i := Unclaimed], e, after[e]) {
      SlotsOfUpdate(top, i, Unclaimed, e);
      assert RefCountOk(top, e, entries[e]);
    }
  }

  lemma ClaimKeepsCounts(top: seq<Slot>, entries: seq<Entry>, i: nat, q: nat, mini: seq<bv8>)
    requires RefCountsOk(top, entries) && i < |top| && top[i].Unclaimed? && q < |entries|
    requires entries[q].traceMini.NotKept? ==> 8 * |mini| == |top|
    ensures RefCountsOk(top[i := WonBy(q)], entries[q := Claimed(entries[q], mini)])
  {
    var after := entries[q := Claimed(entries[q], mini)];
    forall e | 0 <= e < |after| ensures RefCountOk(top[i := WonBy(q)], e, after[e]) {
      SlotsOfUpdate(top, i, WonBy(q), e);
      assert RefCountOk(top, e, entries[e]);
    }
  }

  lemma ScoringStepKeepsFlags(before: seq<Entry>, after: seq<Entry>, q: nat, trace: seq<bv8>)
    requires ScoringStep(before, after, q, trace)
    ensures FuzzedIn(after) == FuzzedIn(before) && FavoredIn(after) == FavoredIn(before)
  {
  }

  ghost function AfterRelease(entries: seq<Entry>, slot: Slot): (r: seq<Entry>)
    ensures |r| == |entries|
  {
    if slot.WonBy? && slot.entry < |entries| && entries[slot.entry].tcRef > 0
    then entries[slot.entry := Released(entries[slot.entry])]
    else entries
  }

  /** What taking a slot does to the entries, and that it keeps the reference counts. */
  lemma TakingASlot(top: seq<Slot>, entries: seq<Entry>, i: nat, q: nat, mini: seq<bv8>, trace: seq<bv8>)
    requires RefCountsOk(top, entries) && i < |top| && q < |entries|
    requires AfterRelease(entries, top[i])[q].traceMini.NotKept?
          ==> 8 * |mini| == |top| && BitSet(mini) == HitSet(trace)
    ensures top[i].WonBy? ==> entries[top[i].entry].tcRef > 0
    ensures var mid := AfterRelease(entries, top[i]);
            var after := mid[q := Claimed(mid[q], mini)];
      && RefCountsOk(top[i := WonBy(q)], after) && ScoringStep(entries, after, q, trace)
      && FuzzedIn(after) == FuzzedIn(entries)
      && TraceAfter(entries, after, q, trace, HoldsNoOther(top, q, i))
  {
    var mid := AfterRelease(entries, top[i]);
    if top[i].WonBy? {
      ReleaseKeepsCounts(top, entries, i);
      ReleaseIsStep(entries, top[i].entry, q, trace);
    } else {
      assert top[i := Unclaimed] == top;
    }
    assert RefCountOk(top[i := Unclaimed], q, mid[q]);
    ClaimKeepsCounts(top[i := Unclaimed], mid, i, q, mini);
    ClaimIsStep(mid, q, mini, trace);
    var after := mid[q := Claimed(mid[q], mini)];
    ScoringStepsCompose(entries, mid, after, q, trace);
    ScoringStepKeepsFlags(entries, after, q, trace);
    assert top[i := Unclaimed][i := WonBy(q)] == top[i := WonBy(q)];
  }

  method ReleaseEntry(entry: Entry) returns (r: Entry)
    requires entry.tcRef > 0
    ensures r == Released(entry)
  {
    r := entry.(tcRef := entry.tcRef - 1);
    if r.tcRef == 0 {
      r := r.(traceMini := NotKept);
    }
  }

  method ClaimEntry(entry: Entry, trace: seq<bv8>) returns (r: Entry, ghost mini: seq<bv8>)
    requires |trace| % 8 == 0
    ensures r == Claimed(entry, mini)
    ensures entry.traceMini.NotKept? ==> 8 * |mini| == |trace| && BitSet(mini) == HitSet(trace)
  {
    r, mini := entry.(tcRef := entry.tcRef + 1), [];
    if r.traceMini.NotKept? {
      var bytes := Compacted(trace);
      r, mini := r.(traceMini := Kept(bytes)), bytes;
    }
  }

  // ---------------------------------------------------------------- the greedy choice

  /** The bitmap bytes recorded in an entry's compact trace. */
  ghost function Covers(entries: seq<Entry>, e: nat): set<nat> {
    if e < |entries| && entries[e].traceMini.Kept? then BitSet(entries[e].traceMini.bytes) else {}
  }

  /** The slots at which the greedy pass over [i..] picks the winner, given the bytes already covered. */
  ghost function Picks(top: seq<Slot>, entries: seq<Entry>, i: nat, seen: set<nat>): seq<nat>
    requires i <= |top|
    decreases |top| - i
  {
    if i == |top| then []
    else if top[i].Unclaimed? || i in seen then Picks(top, entries, i + 1, seen)
    else [i] + Picks(top, entries, i + 1, seen + Covers(entries, top[i].entry))
  }

  lemma {:induction false} PicksAreSlots(top: seq<Slot>, entries: seq<Entry>, i: nat, seen: set<nat>, a: nat)
    requires i <= |top| && a < |Picks(top, entries, i, seen)|
    ensures var p := Picks(top, entries, i, seen)[a]; i <= p < |top| && top[p].WonBy? && p !in seen
    decreases |top| - i
  {
    if top[i].Unclaimed? || i in seen {
      PicksAreSlots(top, entries, i + 1, seen, a);
    } else if a > 0 {
      PicksAreSlots(top, entries, i + 1, seen + Covers(entries, top[i].entry), a - 1);
    }
  }

  lemma {:induction false} NothingToPick(top: seq<Slot>, entries: seq<Entry>, i: nat, seen: set<nat>)
    requires i <= |top| && forall k :: 0 <= k < |top| ==> top[k] == Unclaimed
    ensures Picks(top, entries, i, seen) == []
    decreases |top| - i
  {
    if i < |top| {
      NothingToPick(top, entries, i + 1, seen);
    }
  }

  /** Every winner's compact trace contains the slots it won. */
  ghost predicate WinnersCoverTheirSlots(top: seq<Slot>, entries: seq<Entry>) {
    forall k :: 0 <= k < |top| && top[k].WonBy? ==> k in Covers(entries, top[k].entry)
  }

  lemma PickedFirst(top: seq<Slot>, entries: seq<Entry>, i: nat, seen: set<nat>, a: nat)
    requires i < |top| && top[i].WonBy? && i !in seen && a < |Picks(top, entries, i, seen)|
    ensures var rest := Picks(top, entries, i + 1, seen + Covers(entries, top[i].entry));
      && |Picks(top, entries, i, seen)| == |rest| + 1
      && Picks(top, entries, i, seen)[a] == if a == 0 then i else rest[a - 1]
  {
  }

  lemma {:induction false} PicksAvoidCovered(top: seq<Slot>, entries: seq<Entry>, i: nat, seen: set<nat>, a: nat,
                                             b: nat)
    requires i <= |top| && a < b < |Picks(top, entries, i, seen)|
    ensures var ps := Picks(top, entries, i, seen);
      ps[a] < ps[b] < |top| && top[ps[a]].WonBy? && top[ps[b]].WonBy? && ps[b] !in Covers(entries, top[ps[a]].entry)
    decreases |top| - i
  {
    if top[i].Unclaimed? || i in seen {
      PicksAvoidCovered(top, entries, i + 1, seen, a, b);
    } else {
      var seen' := seen + Covers(entries, top[i].entry);
      PickedFirst(top, entries, i, seen, a);
      PickedFirst(top, entries, i, seen, b);
      if a > 0 {
        PicksAvoidCovered(top, entries, i + 1, seen', a - 1, b - 1);
      } else {
        PicksAreSlots(top, entries, i + 1, seen', b - 1);
      }
    }
  }

  /** Each pick covers a byte, its own, that no earlier pick covers; so no entry is picked twice. */
  lemma PicksAreFresh(top: seq<Slot>, entries: seq<Entry>, a: nat, b: nat)
    requires WinnersCoverTheirSlots(top, entries)
    requires a < b < |Picks(top, entries, 0, {})|
    ensures var ps := Picks(top, entries, 0, {});
      && ps[a] < ps[b] < |top| && top[ps[a]].WonBy? && top[ps[b]].WonBy?
      && ps[b] !in Covers(entries, top[ps[a]].entry) && ps[b] in Covers(entries, top[ps[b]].entry)
      && top[ps[a]] != top[ps[b]]
  {
    PicksAvoidCovered(top, entries, 0, {}, a, b);
  }

  /** The picks together cover every byte that has a winner. */
  lemma {:induction false} PicksCover(top: seq<Slot>, entries: seq<Entry>, i: nat, seen: set<nat>, k: nat)
    requires i <= k < |top| && top[k].WonBy? && WinnersCoverTheirSlots(top, entries)
    ensures k in seen
      || exists p :: p in Picks(top, entries, i, seen) && p < |top| && top[p].WonBy?
          && k in Covers(entries, top[p].entry)
    decreases |top| - i
  {
    if top[i].Unclaimed? || i in seen {
      if k > i {
        PicksCover(top, entries, i + 1, seen, k);
      }
    } else {
      var seen' := seen + Covers(entries, top[i].entry);
      assert i in Picks(top, entries, i, seen);
      if k > i {
        PicksCover(top, entries, i + 1, seen', k);
        if k !in seen' {
          var p :| p in Picks(top, entries, i + 1, seen') && p < |top| && top[p].WonBy?
              && k in Covers(entries, top[p].entry);
          assert p in Picks(top, entries, i, seen);
        }
      }
    }
  }

  /** Slot `k` is not covered by what is picked before it. */
  ghost predicate NotCoveredBefore(top: seq<Slot>, entries: seq<Entry>, ps: seq<nat>, k: nat) {
    forall j :: j in ps && j < k && j < |top| && top[j].WonBy? ==> k !in Covers(entries, top[j].entry)
  }

  /** The pass from `i` picks a won slot exactly when neither the past nor an earlier pick covers it. */
  lemma {:induction false} PicksAreGreedy(top: seq<Slot>, entries: seq<Entry>, i: nat, seen: set<nat>, k: nat)
    requires i <= k < |top|
    ensures var ps := Picks(top, entries, i, seen);
      && (k in ps <==> top[k].WonBy? && k !in seen && NotCoveredBefore(top, entries, ps, k))
      && forall p :: p in ps ==> i <= p < |top|
    decreases |top| - i
  {
    var ps := Picks(top, entries, i, seen);
    forall p | p in ps ensures i <= p < |top| {
      var a :| 0 <= a < |ps| && ps[a] == p;
      PicksAreSlots(top, entries, i, seen, a);
    }
    if top[i].Unclaimed? || i in seen {
      if k > i {
        PicksAreGreedy(top, entries, i + 1, seen, k);
      } else if i in ps {
        var a :| 0 <= a < |ps| && ps[a] == i;
        PicksAreSlots(top, entries, i + 1, seen, a);
      }
    } else {
      var seen' := seen + Covers(entries, top[i].entry);
      var rest := Picks(top, entries, i + 1, seen');
      assert ps == [i] + rest && i in ps;
      if k > i {
        PicksAreGreedy(top, entries, i + 1, seen', k);
        assert NotCoveredBefore(top, entries, ps, k)
          <==> k !in Covers(entries, top[i].entry) && NotCoveredBefore(top, entries, rest, k);
      }
    }
  }

  /** The entries that a full recomputation picks, in order. */
  ghost function Choice(top: seq<Slot>, entries: seq<Entry>): (es: seq<nat>)
    ensures |es| == |Picks(top, entries, 0, {})|
  {
    PickedEntries(top, Picks(top, entries, 0, {}))
  }

  ghost function PickedEntries(top: seq<Slot>, ps: seq<nat>): (es: seq<nat>)
    ensures |es| == |ps|
  {
    if ps == [] then []
    else
      var p := ps[|ps| - 1];
      PickedEntries(top, ps[..|ps| - 1]) + [if p < |top| && top[p].WonBy? then top[p].entry else 0]
  }

  lemma {:induction false} PickedEntriesAt(top: seq<Slot>, ps: seq<nat>, a: nat)
    requires a < |ps| && ps[a] < |top| && top[ps[a]].WonBy?
    ensures PickedEntries(top, ps)[a] == top[ps[a]].entry
  {
    if a < |ps| - 1 {
      PickedEntriesAt(top, ps[..|ps| - 1], a);
    }
  }

  ghost predicate NoRepeats(es: seq<nat>) {
    forall a, b :: 0 <= a < b < |es| ==> es[a] != es[b]
  }

  ghost function Elements(es: seq<nat>): set<nat> {
    set e | e in es
  }

  /** How many members of the list, with repetition, have not been fuzzed. */
  ghost function Unfuzzed(es: seq<nat>, fuzzed: set<nat>): nat {
    if es == [] then 0
    else Unfuzzed(es[..|es| - 1], fuzzed) + if es[|es| - 1] in fuzzed then 0 else 1
  }

  /** With repetition allowed, the counters can only overstate. */
  lemma {:induction false} ListCounts(es: seq<nat>, fuzzed: set<nat>)
    ensures |Elements(es)| <= |es|
    ensures |Elements(es) - fuzzed| <= Unfuzzed(es, fuzzed)
  {
    if es != [] {
      var init, last := es[..|es| - 1], es[|es| - 1];
      ListCounts(init, fuzzed);
      assert es == init + [last];
      assert Elements(es) == Elements(init) + {last};
      assert Elements(es) - fuzzed == (Elements(init) - fuzzed) + ({last} - fuzzed);
    }
  }

  lemma OneMore(a: set<nat>, b: set<nat>, x: nat)
    requires x !in a
    ensures |a + {x}| == |a| + 1
    ensures |(a + {x}) - b| == |a - b| + if x in b then 0 else 1
  {
    assert x in b ==> (a + {x}) - b == a - b;
    assert x !in b ==> (a + {x}) - b == (a - b) + {x};
  }

  /** In a list without repetition, counting positions is counting entries. */
  lemma {:induction false} DistinctListCounts(es: seq<nat>, fuzzed: set<nat>)
    requires NoRepeats(es)
    ensures |Elements(es)| == |es|
    ensures |Elements(es) - fuzzed| == Unfuzzed(es, fuzzed)
  {
    if es != [] {
      var init, last := es[..|es| - 1], es[|es| - 1];
      DistinctListCounts(init, fuzzed);
      assert es == init + [last];
      assert last !in Elements(init);
      assert Elements(es) == Elements(init) + {last};
      OneMore(Elements(init), fuzzed, last);
    }
  }

  ghost function FavoredIn(entries: seq<Entry>): set<nat> {
    set e: nat | e < |entries| && entries[e].favored
  }

  ghost function FuzzedIn(entries: seq<Entry>): set<nat> {
    set e: nat | e < |entries| && entries[e].wasFuzzed
  }

  /**
    The traces agree with the scores, the counters with the flags and, while no
    score has changed, the flags with what a full recomputation would choose.
  */
  ghost predicate Faithful(top: seq<Slot>, entries: seq<Entry>, hits: map<nat, set<nat>>,
                           queuedFavored: nat, pendingFavored: nat, scoreChanged: bool)
  {
    && TracesAgree(top, entries, hits)
    && queuedFavored == |FavoredIn(entries)|
    && pendingFavored == |FavoredIn(entries) - FuzzedIn(entries)|
    && (!scoreChanged ==> FavoredIn(entries) == Elements(Choice(top, entries)))
  }

  lemma WinnersCover(top: seq<Slot>, entries: seq<Entry>, hits: map<nat, set<nat>>)
    requires RefCountsOk(top, entries) && TracesAgree(top, entries, hits)
    ensures WinnersCoverTheirSlots(top, entries)
  {
    forall k | 0 <= k < |top| && top[k].WonBy? ensures k in Covers(entries, top[k].entry) {
      WinnersAreKept(top, entries, k);
    }
  }

  lemma ChoiceHasNoRepeats(top: seq<Slot>, entries: seq<Entry>)
    requires WinnersCoverTheirSlots(top, entries)
    ensures NoRepeats(Choice(top, entries))
  {
    var ps := Picks(top, entries, 0, {});
    forall a, b | 0 <= a < b < |ps| ensures Choice(top, entries)[a] != Choice(top, entries)[b] {
      PicksAreFresh(top, entries, a, b);
      PickedEntriesAt(top, ps, a);
      PickedEntriesAt(top, ps, b);
    }
  }

  /** The greedy pass reads nothing of an entry but its compact trace. */
  lemma {:induction false} PicksReadTraces(top: seq<Slot>, a: seq<Entry>, b: seq<Entry>, i: nat, seen: set<nat>)
    requires i <= |top|
    requires forall k :: 0 <= k < |top| && top[k].WonBy? ==> Covers(a, top[k].entry) == Covers(b, top[k].entry)
    ensures Picks(top, a, i, seen) == Picks(top, b, i, seen)
    decreases |top| - i
  {
    if i < |top| {
      if top[i].Unclaimed? || i in seen {
        PicksReadTraces(top, a, b, i + 1, seen);
      } else {
        PicksReadTraces(top, a, b, i + 1, seen + Covers(a, top[i].entry));
      }
    }
  }

  /** The flags and both counters are exactly what a full recomputation would give. */
  ghost predicate AgreesWithRecomputation(top: seq<Slot>, entries: seq<Entry>, queuedFavored: nat,
                                          pendingFavored: nat) {
    && FavoredIn(entries) == Elements(Choice(top, entries))
    && queuedFavored == |Choice(top, entries)|
    && pendingFavored == Unfuzzed(Choice(top, entries), FuzzedIn(entries))
  }

  lemma FaithfulAgrees(top: seq<Slot>, entries: seq<Entry>, hits: map<nat, set<nat>>, queuedFavored: nat,
                       pendingFavored: nat)
    requires RefCountsOk(top, entries) && Faithful(top, entries, hits, queuedFavored, pendingFavored, false)
    ensures AgreesWithRecomputation(top, entries, queuedFavored, pendingFavored)
  {
    WinnersCover(top, entries, hits);
    ChoiceHasNoRepeats(top, entries);
    DistinctListCounts(Choice(top, entries), FuzzedIn(entries));
  }

  /** Together, the favored entries cover every byte that has a winner. */
  lemma FavoredCoverAll(top: seq<Slot>, entries: seq<Entry>, hits: map<nat, set<nat>>, queuedFavored: nat,
                        pendingFavored: nat, k: nat)
    requires RefCountsOk(top, entries) && TracesAgree(top, entries, hits)
    requires AgreesWithRecomputation(top, entries, queuedFavored, pendingFavored)
    requires k < |top| && top[k].WonBy?
    ensures exists e :: e in FavoredIn(entries) && e in hits && k in hits[e]
  {
    WinnersCover(top, entries, hits);
    PicksCover(top, entries, 0, {}, k);
    var ps := Picks(top, entries, 0, {});
    var p :| p in ps && p < |top| && top[p].WonBy? && k in Covers(entries, top[p].entry);
    var a :| 0 <= a < |ps| && ps[a] == p;
    PickedEntriesAt(top, ps, a);
    assert Choice(top, entries)[a] in Elements(Choice(top, entries));
  }

  /** A slot is picked exactly when it is won and no lower picked slot's winner hits it. */
  ghost predicate IsGreedy(top: seq<Slot>, hits: map<nat, set<nat>>, picked: set<nat>) {
    forall k: nat :: k in picked <==> k < |top| && top[k].WonBy? && NoneHitsBefore(top, hits, picked, k)
  }

  ghost predicate NoneHitsBefore(top: seq<Slot>, hits: map<nat, set<nat>>, picked: set<nat>, k: nat) {
    forall j :: j in picked && j < k && j < |top| && top[j].WonBy? ==> top[j].entry in hits && k !in hits[top[j].entry]
  }

  /** The favored entries are the winners of the picked slots, and the counters count them. */
  ghost predicate GreedilyFavored(top: seq<Slot>, entries: seq<Entry>, hits: map<nat, set<nat>>, queuedFavored: nat,
                                  pendingFavored: nat) {
    exists picked :: IsGreedy(top, hits, picked) && FavorsWinners(top, entries, picked)
        && queuedFavored == |picked|
        && pendingFavored == |UnfuzzedWinners(top, entries, picked)|
  }

  /** The picked slots whose winners have not been fuzzed. */
  ghost function UnfuzzedWinners(top: seq<Slot>, entries: seq<Entry>, picked: set<nat>): set<nat> {
    set k | k in picked && IsUnfuzzedWinner(top, entries, k)
  }

  lemma OneMoreWinner(top: seq<Slot>, entries: seq<Entry>, picked: set<nat>, p: nat)
    requires p !in picked
    ensures |UnfuzzedWinners(top, entries, picked + {p})|
         == |UnfuzzedWinners(top, entries, picked)| + if IsUnfuzzedWinner(top, entries, p) then 1 else 0
  {
    var before, after := UnfuzzedWinners(top, entries, picked), UnfuzzedWinners(top, entries, picked + {p});
    assert after == if IsUnfuzzedWinner(top, entries, p) then before + {p} else before;
  }

  ghost predicate IsUnfuzzedWinner(top: seq<Slot>, entries: seq<Entry>, k: nat) {
    k < |top| && top[k].WonBy? && top[k].entry < |entries| && !entries[top[k].entry].wasFuzzed
  }

  ghost predicate FavorsWinners(top: seq<Slot>, entries: seq<Entry>, picked: set<nat>) {
    forall e: nat :: e < |entries| ==>
      (entries[e].favored <==> exists k :: k in picked && k < |top| && top[k] == WonBy(e))
  }

  lemma CoversAreHits(top: seq<Slot>, entries: seq<Entry>, hits: map<nat, set<nat>>, j: nat)
    requires RefCountsOk(top, entries) && TracesAgree(top, entries, hits) && j < |top| && top[j].WonBy?
    ensures top[j].entry in hits && Covers(entries, top[j].entry) == hits[top[j].entry]
  {
    WinnersAreKept(top, entries, j);
  }

  lemma ChoiceIsGreedy(top: seq<Slot>, entries: seq<Entry>, hits: map<nat, set<nat>>)
    requires RefCountsOk(top, entries) && TracesAgree(top, entries, hits)
    ensures IsGreedy(top, hits, Elements(Picks(top, entries, 0, {})))
  {
    var ps := Picks(top, entries, 0, {});
    forall k: nat
      ensures k in Elements(ps) <==> k < |top| && top[k].WonBy? && NoneHitsBefore(top, hits, Elements(ps), k)
    {
      forall j: nat | j in ps && j < |top| && top[j].WonBy?
        ensures top[j].entry in hits && Covers(entries, top[j].entry) == hits[top[j].entry]
      {
        CoversAreHits(top, entries, hits, j);
      }
      if k < |top| {
        PicksAreGreedy(top, entries, 0, {}, k);
      } else if k in ps {
        var a :| 0 <= a < |ps| && ps[a] == k;
        PicksAreSlots(top, entries, 0, {}, a);
      }
    }
  }

  lemma ChosenAreWinners(top: seq<Slot>, entries: seq<Entry>, e: nat)
    ensures var ps := Picks(top, entries, 0, {});
      e in Choice(top, entries) <==> exists k :: k in ps && k < |top| && top[k] == WonBy(e)
  {
    var ps, es := Picks(top, entries, 0, {}), Choice(top, entries);
    if e in es {
      var a :| 0 <= a < |es| && es[a] == e;
      PicksAreSlots(top, entries, 0, {}, a);
      PickedEntriesAt(top, ps, a);
      assert ps[a] in ps && top[ps[a]] == WonBy(e);
    }
    if k :| k in ps && k < |top| && top[k] == WonBy(e) {
      var a :| 0 <= a < |ps| && ps[a] == k;
      PickedEntriesAt(top, ps, a);
    }
  }

  /** Counting the unfuzzed among the chosen, and the picked slots whose winners are unfuzzed. */
  lemma {:induction false} UnfuzzedPicks(top: seq<Slot>, entries: seq<Entry>, ps: seq<nat>)
    requires InRange(top, entries) && NoRepeats(ps)
    requires forall p :: p in ps ==> p < |top| && top[p].WonBy?
    ensures Unfuzzed(PickedEntries(top, ps), FuzzedIn(entries)) == |UnfuzzedWinners(top, entries, Elements(ps))|
  {
    if ps != [] {
      var init, p := ps[..|ps| - 1], ps[|ps| - 1];
      assert ps == init + [p];
      assert p in ps && p !in Elements(init) && Elements(ps) == Elements(init) + {p};
      forall x | x in init ensures x < |top| && top[x].WonBy? {
        assert x in ps;
      }
      UnfuzzedPicks(top, entries, init);
      PickedMore(top, init, p, FuzzedIn(entries));
      OneMoreWinner(top, entries, Elements(init), p);
    }
  }

  lemma PicksDiffer(top: seq<Slot>, entries: seq<Entry>)
    ensures NoRepeats(Picks(top, entries, 0, {}))
  {
    var ps := Picks(top, entries, 0, {});
    forall a, b | 0 <= a < b < |ps| ensures ps[a] != ps[b] {
      PicksAvoidCovered(top, entries, 0, {}, a, b);
    }
  }

  /** A state that agrees with a recomputation is the greedy choice over the hit sets. */
  lemma RecomputationIsGreedy(top: seq<Slot>, entries: seq<Entry>, hits: map<nat, set<nat>>, queuedFavored: nat,
                              pendingFavored: nat)
    requires RefCountsOk(top, entries) && TracesAgree(top, entries, hits)
    requires AgreesWithRecomputation(top, entries, queuedFavored, pendingFavored)
    ensures GreedilyFavored(top, entries, hits, queuedFavored, pendingFavored)
  {
    var ps := Picks(top, entries, 0, {});
    ChoiceIsGreedy(top, entries, hits);
    PicksDiffer(top, entries);
    DistinctListCounts(ps, {});
    forall p | p in ps ensures p < |top| && top[p].WonBy? {
      var a :| 0 <= a < |ps| && ps[a] == p;
      PicksAreSlots(top, entries, 0, {}, a);
    }
    UnfuzzedPicks(top, entries, ps);
    forall e: nat | e < |entries|
      ensures entries[e].favored <==> exists k :: k in Elements(ps) && k < |top| && top[k] == WonBy(e)
    {
      ChosenAreWinners(top, entries, e);
      assert entries[e].favored <==> e in FavoredIn(entries);
    }
    assert FavorsWinners(top, entries, Elements(ps));
  }

  /** What the flags and counters are after a cull: those of a recomputation, which is the greedy choice. */
  ghost predicate RightlyFavored(top: seq<Slot>, entries: seq<Entry>, hits: map<nat, set<nat>>, queuedFavored: nat,
                                 pendingFavored: nat) {
    && AgreesWithRecomputation(top, entries, queuedFavored, pendingFavored)
    && GreedilyFavored(top, entries, hits, queuedFavored, pendingFavored)
  }

  lemma FaithfulIsRight(top: seq<Slot>, entries: seq<Entry>, hits: map<nat, set<nat>>, queuedFavored: nat,
                        pendingFavored: nat)
    requires RefCountsOk(top, entries) && Faithful(top, entries, hits, queuedFavored, pendingFavored, false)
    ensures RightlyFavored(top, entries, hits, queuedFavored, pendingFavored)
  {
    FaithfulAgrees(top, entries, hits, queuedFavored, pendingFavored);
    RecomputationIsGreedy(top, entries, hits, queuedFavored, pendingFavored);
  }

  lemma RecomputationIsFaithful(top: seq<Slot>, entries: seq<Entry>, hits: map<nat, set<nat>>, queuedFavored: nat,
                                pendingFavored: nat)
    requires RefCountsOk(top, entries) && TracesAgree(top, entries, hits)
    requires AgreesWithRecomputation(top, entries, queuedFavored, pendingFavored)
    ensures Faithful(top, entries, hits, queuedFavored, pendingFavored, false)
  {
    WinnersCover(top, entries, hits);
    ChoiceHasNoRepeats(top, entries);
    DistinctListCounts(Choice(top, entries), FuzzedIn(entries));
  }

  lemma ScoringKeepsFaithful(top: seq<Slot>, before: seq<Entry>, after: seq<Entry>, hits: map<nat, set<nat>>,
                             q: nat, trace: seq<bv8>, queuedFavored: nat, pendingFavored: nat, changed: bool,
                                 changed': bool)
    requires |trace| == |top| && q < |before| && InRange(top, before)
    requires Faithful(top, before, hits, queuedFavored, pendingFavored, changed)
    requires q in hits ==> hits[q] == HitSet(trace)
    requires ScoringStep(before, after, q, trace)
    requires changed ==> changed'
    requires !changed' ==> Rescored(top, before, q, trace) == top && after == before
    ensures Faithful(Rescored(top, before, q, trace), after, hits[q := HitSet(trace)], queuedFavored, pendingFavored,
                     changed')
  {
    ScoringStepKeepsFlags(before, after, q, trace);
  }

  /** The entries as they were, with exactly these marked as favored. */
  ghost predicate Flagged(before: seq<Entry>, after: seq<Entry>, favored: set<nat>) {
    |after| == |before| && forall e :: 0 <= e < |after| ==> after[e] == before[e].(favored := e in favored)
  }

  lemma PickedMore(top: seq<Slot>, picked: seq<nat>, i: nat, fuzzed: set<nat>)
    requires i < |top| && top[i].WonBy?
    ensures PickedEntries(top, picked + [i]) == PickedEntries(top, picked) + [top[i].entry]
    ensures Elements(PickedEntries(top, picked + [i])) == Elements(PickedEntries(top, picked)) + {top[i].entry}
    ensures Unfuzzed(PickedEntries(top, picked + [i]), fuzzed)
         == Unfuzzed(PickedEntries(top, picked), fuzzed) + if top[i].entry in fuzzed then 0 else 1
  {
    assert (picked + [i])[..|picked|] == picked;
    var es := PickedEntries(top, picked);
    assert (es + [top[i].entry])[..|es|] == es;
  }

  /** Where the greedy pass stands before slot `i`. */
  ghost predicate GreedyState(top: seq<Slot>, before: seq<Entry>, after: seq<Entry>, i: nat,
                              picked: seq<nat>, seen: set<nat>, queuedFavored: nat, pendingFavored: nat)
  {
    && i <= |top|
    && Flagged(before, after, Elements(PickedEntries(top, picked)))
    && Picks(top, before, 0, {}) == picked + Picks(top, before, i, seen)
    && queuedFavored == |picked|
    && pendingFavored == Unfuzzed(PickedEntries(top, picked), FuzzedIn(before))
  }

  lemma GreedyStart(top: seq<Slot>, before: seq<Entry>)
    requires FavoredIn(before) == {}
    ensures GreedyState(top, before, before, 0, [], {}, 0, 0)
  {
    forall e | 0 <= e < |before| ensures !before[e].favored {
      assert e !in FavoredIn(before);
    }
  }

  lemma GreedySkip(top: seq<Slot>, before: seq<Entry>, after: seq<Entry>, i: nat,
                   picked: seq<nat>, seen: set<nat>, queuedFavored: nat, pendingFavored: nat)
    requires GreedyState(top, before, after, i, picked, seen, queuedFavored, pendingFavored)
    requires i < |top| && (top[i].Unclaimed? || i in seen)
    ensures GreedyState(top, before, after, i + 1, picked, seen, queuedFavored, pendingFavored)
  {
  }

  lemma FlagOneMore(before: seq<Entry>, after: seq<Entry>, favored: set<nat>, e: nat)
    requires Flagged(before, after, favored) && e < |after|
    ensures Flagged(before, after[e := after[e].(favored := true)], favored + {e})
  {
  }

  lemma GreedyPick(top: seq<Slot>, before: seq<Entry>, after: seq<Entry>, i: nat,
                   picked: seq<nat>, seen: set<nat>, queuedFavored: nat, pendingFavored: nat)
    requires GreedyState(top, before, after, i, picked, seen, queuedFavored, pendingFavored)
    requires i < |top| && top[i].WonBy? && i !in seen && top[i].entry < |after|
    ensures var e := top[i].entry;
      GreedyState(top, before, after[e := after[e].(favored := true)], i + 1, picked + [i], seen + Covers(before, e),
                  queuedFavored + 1, pendingFavored + if after[e].wasFuzzed then 0 else 1)
  {
    PickedMore(top, picked, i, FuzzedIn(before));
    FlagOneMore(before, after, Elements(PickedEntries(top, picked)), top[i].entry);
    assert (top[i].entry in FuzzedIn(before)) == after[top[i].entry].wasFuzzed;
    PicksFrom(top, before, i, picked, seen);
  }

  lemma PicksFrom(top: seq<Slot>, before: seq<Entry>, i: nat, picked: seq<nat>, seen: set<nat>)
    requires i < |top| && top[i].WonBy? && i !in seen
    ensures picked + Picks(top, before, i, seen)
          == (picked + [i]) + Picks(top, before, i + 1, seen + Covers(before, top[i].entry))
  {
    var rest := Picks(top, before, i + 1, seen + Covers(before, top[i].entry));
    assert Picks(top, before, i, seen) == [i] + rest;
    assert picked + ([i] + rest) == (picked + [i]) + rest;
  }

  lemma GreedyEnds(top: seq<Slot>, before: seq<Entry>, after: seq<Entry>,
                   picked: seq<nat>, seen: set<nat>, queuedFavored: nat, pendingFavored: nat)
    requires GreedyState(top, before, after, |top|, picked, seen, queuedFavored, pendingFavored)
    ensures Flagged(before, after, Elements(Choice(top, before)))
    ensures queuedFavored == |Choice(top, before)| && pendingFavored == Unfuzzed(Choice(top, before), FuzzedIn(before))
  {
    assert picked == Picks(top, before, 0, {});
  }

  /** The inner loop of `cull_queue`: remove the bits of one compact trace. */
  method RemoveCovered(tempV: array<bv8>, mini: seq<bv8>)
    requires tempV.Length == |mini|
    modifies tempV
    ensures BitSet(tempV[..]) == old(BitSet(tempV[..])) - BitSet(mini)
  {
    var j := |mini|;
    while j > 0
      invariant 0 <= j <= |mini|
      invariant forall k :: 0 <= k < j ==> tempV[k] == old(tempV[k])
      invariant forall k :: j <= k < |mini| ==> tempV[k] == old(tempV[k]) & !mini[k]
    {
      j := j - 1;
      if mini[j] != 0 {
        tempV[j] := tempV[j] & !mini[j];
      } else {
        NothingRemoved(tempV[j]);
      }
    }
    forall k: nat | k < 8 * |mini|
      ensures Bit(tempV[k / 8], k % 8) <==> Bit(old(tempV[k / 8]), k % 8) && !Bit(mini[k / 8], k % 8)
    {
      AndNot(old(tempV[k / 8]), mini[k / 8], k % 8);
    }
  }

  /** The set bits are the bytes not covered yet. */
  ghost predicate Uncovered(bytes: seq<bv8>, seen: set<nat>) {
    forall k: nat :: k < 8 * |bytes| ==> (k in BitSet(bytes) <==> k !in seen)
  }

  lemma AllBitsSet(bytes: seq<bv8>)
    requires forall k :: 0 <= k < |bytes| ==> bytes[k] == 0xff
    ensures Uncovered(bytes, {})
  {
    forall k: nat | k < 8 * |bytes| ensures k in BitSet(bytes) {
      ConstantBits(k % 8);
    }
  }

  lemma NothingRemoved(b: bv8)
    ensures b & !0 == b
  {
  }

  /** The counters that `fuzz_one` decrements never understate what they count. */
  ghost predicate Counted(entries: seq<Entry>, pendingNotFuzzed: nat, pendingFavored: nat) {
    && pendingNotFuzzed + |FuzzedIn(entries)| == |entries|
    && pendingFavored >= |FavoredIn(entries) - FuzzedIn(entries)|
  }

  /** What scoring promises when the target hits the same bytes at every scoring of an entry. */
  ghost predicate ScoringKept(top: seq<Slot>, before: seq<Entry>, changed: bool, hits: map<nat, set<nat>>, q: nat,
                              trace: seq<bv8>,
                              top': seq<Slot>, after: seq<Entry>, changed': bool, hits': map<nat, set<nat>>,
                              queuedFavored: nat, pendingFavored: nat, pendingNotFuzzed: nat)
  {
    && (Counted(before, pendingNotFuzzed, pendingFavored) ==> Counted(after, pendingNotFuzzed, pendingFavored))
    && (Faithful(top, before, hits, queuedFavored, pendingFavored, changed) && (q in hits ==> hits[q] == HitSet(trace))
        ==> Faithful(top', after, hits', queuedFavored, pendingFavored, changed'))
    && (Optimal(top, before, hits, q) ==> Optimal(top', after, hits', -1) && CheapestWin(top', after, hits'))
  }

  lemma ScoringKeeps(top: seq<Slot>, before: seq<Entry>, changed: bool, hits: map<nat, set<nat>>, q: nat,
                     trace: seq<bv8>,
                     top': seq<Slot>, after: seq<Entry>, changed': bool, hits': map<nat, set<nat>>,
                     queuedFavored: nat, pendingFavored: nat, pendingNotFuzzed: nat)
    requires |trace| == |top| && q < |before| && InRange(top, before)
    requires Scored(top, before, changed, q, trace, top', after, changed')
    requires hits' == hits[q := HitSet(trace)]
    ensures ScoringKept(top, before, changed, hits, q, trace, top', after, changed', hits',
                        queuedFavored, pendingFavored, pendingNotFuzzed)
  {
    ScoringStepKeepsFlags(before, after, q, trace);
    if Faithful(top, before, hits, queuedFavored, pendingFavored, changed) && (q in hits ==> hits[q] == HitSet(trace)) {
      ScoringKeepsFaithful(top, before, after, hits, q, trace, queuedFavored, pendingFavored, changed, changed');
    }
    if Optimal(top, before, hits, q) {
      RescoringIsOptimal(top, before, hits, q, trace);
      assert Optimal(top', after, hits', -1);
      OptimalMeansCheapest(top', after, hits');
    }
  }

  /** Culling changes only the two flags that it computes. */
  ghost predicate CullStep(before: seq<Entry>, after: seq<Entry>) {
    && |after| == |before|
    && forall e :: 0 <= e < |after| ==>
         after[e] == before[e].(favored := after[e].favored, fsRedundant := after[e].fsRedundant)
  }

  lemma CullStepKeeps(top: seq<Slot>, before: seq<Entry>, after: seq<Entry>, hits: map<nat, set<nat>>)
    requires RefCountsOk(top, before) && CullStep(before, after)
    ensures RefCountsOk(top, after) && FuzzedIn(after) == FuzzedIn(before)
    ensures TracesAgree(top, before, hits) ==> TracesAgree(top, after, hits)
    ensures Optimal(top, before, hits, -1) ==> Optimal(top, after, hits, -1)
  {
    forall e | 0 <= e < |after| ensures RefCountOk(top, e, after[e]) {
      assert RefCountOk(top, e, before[e]);
    }
  }

  lemma CullStepChoice(top: seq<Slot>, before: seq<Entry>, after: seq<Entry>)
    requires CullStep(before, after)
    ensures Choice(top, after) == Choice(top, before)
  {
    PicksReadTraces(top, after, before, 0, {});
  }

  /** The state after a recomputation: the favored entries are the greedy choice, all others are redundant. */
  ghost predicate Culled(top: seq<Slot>, before: seq<Entry>, after: seq<Entry>, queuedFavored: nat,
                         pendingFavored: nat) {
    && CullStep(before, after)
    && (forall e :: 0 <= e < |after| ==> after[e].fsRedundant == !after[e].favored)
    && AgreesWithRecomputation(top, after, queuedFavored, pendingFavored)
  }

  lemma ClearingKeeps(top: seq<Slot>, before: seq<Entry>, cleared: seq<Entry>)
    requires RefCountsOk(top, before) && Flagged(before, cleared, {})
    ensures RefCountsOk(top, cleared) && FavoredIn(cleared) == {} && CullStep(before, cleared)
  {
    CullStepKeeps(top, before, cleared, map[]);
  }

  lemma RecomputationCulls(top: seq<Slot>, before: seq<Entry>, cleared: seq<Entry>, flagged: seq<Entry>,
                           final: seq<Entry>,
                           queuedFavored: nat, pendingFavored: nat)
    requires RefCountsOk(top, cleared) && CullStep(before, cleared)
    requires Flagged(cleared, flagged, Elements(Choice(top, cleared))) && |final| == |flagged|
    requires forall e :: 0 <= e < |final| ==> final[e] == flagged[e].(fsRedundant := !flagged[e].favored)
    requires queuedFavored == |Choice(top, cleared)|
    requires pendingFavored == Unfuzzed(Choice(top, cleared), FuzzedIn(cleared))
    ensures Culled(top, before, final, queuedFavored, pendingFavored)
  {
    CullStepChoice(top, cleared, final);
    assert FuzzedIn(final) == FuzzedIn(cleared);
    forall e | e in Choice(top, cleared) ensures e < |cleared| {
      ChoiceInRange(top, cleared, e);
    }
    assert FavoredIn(final) == Elements(Choice(top, final));
  }

  lemma CullingKeeps(top: seq<Slot>, before: seq<Entry>, after: seq<Entry>, hits: map<nat, set<nat>>,
                     queuedFavored: nat, pendingFavored: nat, pendingNotFuzzed: nat)
    requires RefCountsOk(top, before) && Culled(top, before, after, queuedFavored, pendingFavored)
    ensures RefCountsOk(top, after)
    ensures pendingNotFuzzed + |FuzzedIn(before)| == |before| ==> Counted(after, pendingNotFuzzed, pendingFavored)
    ensures TracesAgree(top, before, hits) ==> Faithful(top, after, hits, queuedFavored, pendingFavored, false)
    ensures TracesAgree(top, before, hits) ==> RightlyFavored(top, after, hits, queuedFavored, pendingFavored)
    ensures Optimal(top, before, hits, -1) ==> Optimal(top, after, hits, -1)
  {
    CullStepKeeps(top, before, after, hits);
    ListCounts(Choice(top, after), FuzzedIn(after));
    if TracesAgree(top, before, hits) {
      RecomputationIsFaithful(top, after, hits, queuedFavored, pendingFavored);
      RecomputationIsGreedy(top, after, hits, queuedFavored, pendingFavored);
    }
  }

  lemma ChoiceInRange(top: seq<Slot>, entries: seq<Entry>, e: nat)
    requires InRange(top, entries) && e in Choice(top, entries)
    ensures e < |entries|
  {
    var ps := Picks(top, entries, 0, {});
    var a :| 0 <= a < |Choice(top, entries)| && Choice(top, entries)[a] == e;
    PicksAreSlots(top, entries, 0, {}, a);
    PickedEntriesAt(top, ps, a);
  }

  /** An entry with another speed and length. */
  function Repriced(entries: seq<Entry>, q: nat, execUs: nat, len: nat): seq<Entry>
    requires q < |entries|
  {
    entries[q := entries[q].(execUs := execUs, len := len)]
  }

  /** What a new speed or length keeps, before the entry is scored again. */
  ghost predicate RepricingKept(top: seq<Slot>, entries: seq<Entry>, hits: map<nat, set<nat>>, q: nat,
                                after: seq<Entry>,
                                queuedFavored: nat, pendingFavored: nat, pendingNotFuzzed: nat, changed: bool)
  {
    && RefCountsOk(top, after)
    && (Counted(entries, pendingNotFuzzed, pendingFavored) ==> Counted(after, pendingNotFuzzed, pendingFavored))
    && (Faithful(top, entries, hits, queuedFavored, pendingFavored, changed)
        ==> Faithful(top, after, hits, queuedFavored, pendingFavored, changed))
    && (Optimal(top, entries, hits, -1)
        && (q in hits && q < |entries| && q < |after| ==> after[q].FavFactor() <= entries[q].FavFactor())
        ==> Optimal(top, after, hits, q))
  }

  lemma RepricingKeeps(top: seq<Slot>, entries: seq<Entry>, hits: map<nat, set<nat>>, q: nat, execUs: nat, len: nat,
                       queuedFavored: nat, pendingFavored: nat, pendingNotFuzzed: nat, changed: bool)
    requires RefCountsOk(top, entries) && q < |entries|
    requires forall k :: 0 <= k < |top| && top[k].WonBy? ==> top[k].entry in hits
    ensures RepricingKept(top, entries, hits, q, Repriced(entries, q, execUs, len),
                          queuedFavored, pendingFavored, pendingNotFuzzed, changed)
  {
    RepricingKeepsCounts(top, entries, q, execUs, len);
    RepricingKeepsFlags(entries, q, execUs, len);
    RepricingKeepsFaithful(top, entries, hits, q, execUs, len, queuedFavored, pendingFavored, changed);
    RepricingKeepsOptimal(top, entries, hits, q, execUs, len);
  }

  lemma RepricingKeepsCounts(top: seq<Slot>, entries: seq<Entry>, q: nat, execUs: nat, len: nat)
    requires RefCountsOk(top, entries) && q < |entries|
    ensures RefCountsOk(top, Repriced(entries, q, execUs, len))
  {
    var after := Repriced(entries, q, execUs, len);
    forall e | 0 <= e < |after| ensures RefCountOk(top, e, after[e]) {
      assert RefCountOk(top, e, entries[e]);
    }
  }

  lemma RepricingKeepsFaithful(top: seq<Slot>, entries: seq<Entry>, hits: map<nat, set<nat>>, q: nat, execUs: nat,
                               len: nat,
                               queuedFavored: nat, pendingFavored: nat, changed: bool)
    requires q < |entries|
    ensures Faithful(top, entries, hits, queuedFavored, pendingFavored, changed)
        ==> Faithful(top, Repriced(entries, q, execUs, len), hits, queuedFavored, pendingFavored, changed)
  {
    RepricingKeepsFlags(entries, q, execUs, len);
    PicksReadTraces(top, entries, Repriced(entries, q, execUs, len), 0, {});
  }

  lemma RepricingKeepsOptimal(top: seq<Slot>, entries: seq<Entry>, hits: map<nat, set<nat>>, q: nat, execUs: nat,
                              len: nat)
    requires q < |entries| && forall k :: 0 <= k < |top| && top[k].WonBy? ==> top[k].entry in hits
    ensures var after := Repriced(entries, q, execUs, len);
      Optimal(top, entries, hits, -1) && (q in hits ==> after[q].FavFactor() <= entries[q].FavFactor())
      ==> Optimal(top, after, hits, q)
  {
  }

  /** What scoring an entry again, at a new factor, promises. */
  ghost predicate RescoringKept(top: seq<Slot>, before: seq<Entry>, changed: bool, hits: map<nat, set<nat>>, q: nat,
                                trace: seq<bv8>,
                                factor: nat, top': seq<Slot>, after: seq<Entry>, changed': bool,
                                hits': map<nat, set<nat>>,
                                queuedFavored: nat, pendingFavored: nat, pendingNotFuzzed: nat)
    requires q < |before|
  {
    && (Counted(before, pendingNotFuzzed, pendingFavored) ==> Counted(after, pendingNotFuzzed, pendingFavored))
    && (Faithful(top, before, hits, queuedFavored, pendingFavored, changed) && (q in hits ==> hits[q] == HitSet(trace))
        ==> Faithful(top', after, hits', queuedFavored, pendingFavored, changed'))
    && (Optimal(top, before, hits, -1) && (q in hits ==> factor <= before[q].FavFactor())
        ==> Optimal(top', after, hits', -1) && CheapestWin(top', after, hits'))
  }

  lemma RepriceAndScore(top: seq<Slot>, before: seq<Entry>, mid: seq<Entry>, changed: bool, hits: map<nat, set<nat>>,
                        q: nat, trace: seq<bv8>, top': seq<Slot>, after: seq<Entry>, changed': bool,
                        hits': map<nat, set<nat>>,
                        queuedFavored: nat, pendingFavored: nat, pendingNotFuzzed: nat)
    requires RepricingKept(top, before, hits, q, mid, queuedFavored, pendingFavored, pendingNotFuzzed, changed)
    requires ScoringKept(top, mid, changed, hits, q, trace, top', after, changed', hits',
                         queuedFavored, pendingFavored, pendingNotFuzzed)
    requires q < |before| && q < |mid|
    ensures RescoringKept(top, before, changed, hits, q, trace, mid[q].FavFactor(), top', after, changed', hits',
                          queuedFavored, pendingFavored, pendingNotFuzzed)
  {
  }

  /** Repricing and scoring together. */
  lemma RescoringKeeps(top: seq<Slot>, before: seq<Entry>, changed: bool, hits: map<nat, set<nat>>, q: nat,
                       execUs: nat, len: nat, trace: seq<bv8>,
                       top': seq<Slot>, after: seq<Entry>, changed': bool, hits': map<nat, set<nat>>,
                       queuedFavored: nat, pendingFavored: nat, pendingNotFuzzed: nat)
    requires RefCountsOk(top, before) && q < |before| && |trace| == |top|
    requires forall k :: 0 <= k < |top| && top[k].WonBy? ==> top[k].entry in hits
    requires Scored(top, Repriced(before, q, execUs, len), changed, q, trace, top', after, changed')
    requires hits' == hits[q := HitSet(trace)]
    ensures RescoringKept(top, before, changed, hits, q, trace, FactorOf(execUs, len), top', after, changed', hits',
                          queuedFavored, pendingFavored, pendingNotFuzzed)
  {
    var mid := Repriced(before, q, execUs, len);
    RepricingKeeps(top, before, hits, q, execUs, len, queuedFavored, pendingFavored, pendingNotFuzzed, changed);
    ScoringKeeps(top, mid, changed, hits, q, trace, top', after, changed', hits',
                 queuedFavored, pendingFavored, pendingNotFuzzed);
    RepriceAndScore(top, before, mid, changed, hits, q, trace, top', after, changed', hits',
                    queuedFavored, pendingFavored, pendingNotFuzzed);
  }

  lemma RepricingKeepsFlags(entries: seq<Entry>, q: nat, execUs: nat, len: nat)
    requires q < |entries|
    ensures var after := Repriced(entries, q, execUs, len);
      FavoredIn(after) == FavoredIn(entries) && FuzzedIn(after) == FuzzedIn(entries)
  {
  }

  lemma ShorterIsCheaper(entry: Entry, newLen: nat)
    requires newLen <= entry.len && entry.FitsU64()
    ensures FactorOf(entry.execUs, newLen) <= entry.FavFactor()
  {
    assert entry.execUs * newLen <= entry.execUs * entry.len;
  }

  lemma AppendingKeeps(top: seq<Slot>, entries: seq<Entry>, new_: Entry, hits: map<nat, set<nat>>,
                       queuedFavored: nat, pendingFavored: nat, pendingNotFuzzed: nat, changed: bool)
    requires RefCountsOk(top, entries) && forall e :: e in hits ==> e < |entries|
    requires !new_.wasFuzzed && !new_.favored && new_.traceMini.NotKept? && new_.tcRef == 0
    ensures var after := entries + [new_];
      && RefCountsOk(top, after)
      && (Counted(entries, pendingNotFuzzed, pendingFavored) ==> Counted(after, pendingNotFuzzed + 1, pendingFavored))
      && (Faithful(top, entries, hits, queuedFavored, pendingFavored, changed)
          ==> Faithful(top, after, hits, queuedFavored, pendingFavored, changed))
      && (forall but :: Optimal(top, entries, hits, but) ==> Optimal(top, after, hits, but))
  {
    AppendingKeepsCounts(top, entries, new_);
    AppendingKeepsFlags(entries, new_);
    AppendingKeepsFaithful(top, entries, new_, hits, queuedFavored, pendingFavored, changed);
    AppendingKeepsOptimal(top, entries, new_, hits);
  }

  lemma AppendingKeepsCounts(top: seq<Slot>, entries: seq<Entry>, new_: Entry)
    requires RefCountsOk(top, entries) && new_.traceMini.NotKept? && new_.tcRef == 0
    ensures RefCountsOk(top, entries + [new_])
  {
    var after := entries + [new_];
    forall e | 0 <= e < |after| ensures RefCountOk(top, e, after[e]) {
      if e < |entries| {
        assert RefCountOk(top, e, entries[e]);
      } else {
        SlotsOfPositive(top, e);
      }
    }
  }

  lemma AppendingKeepsFaithful(top: seq<Slot>, entries: seq<Entry>, new_: Entry, hits: map<nat, set<nat>>,
                               queuedFavored: nat, pendingFavored: nat, changed: bool)
    requires RefCountsOk(top, entries) && !new_.wasFuzzed && !new_.favored && new_.traceMini.NotKept?
    ensures Faithful(top, entries, hits, queuedFavored, pendingFavored, changed)
        ==> Faithful(top, entries + [new_], hits, queuedFavored, pendingFavored, changed)
  {
    AppendingKeepsFlags(entries, new_);
    PicksReadTraces(top, entries, entries + [new_], 0, {});
  }

  lemma AppendingKeepsOptimal(top: seq<Slot>, entries: seq<Entry>, new_: Entry, hits: map<nat, set<nat>>)
    requires forall e :: e in hits ==> e < |entries|
    ensures forall but :: Optimal(top, entries, hits, but) ==> Optimal(top, entries + [new_], hits, but)
  {
  }

  lemma AppendingKeepsFlags(entries: seq<Entry>, new_: Entry)
    requires !new_.wasFuzzed && !new_.favored
    ensures FavoredIn(entries + [new_]) == FavoredIn(entries) && FuzzedIn(entries + [new_]) == FuzzedIn(entries)
  {
  }

  lemma FuzzedSets(entries: seq<Entry>, q: nat)
    requires q < |entries|
    ensures var after := entries[q := entries[q].(wasFuzzed := true)];
      FuzzedIn(after) == FuzzedIn(entries) + {q} && FavoredIn(after) == FavoredIn(entries)
  {
    var after := entries[q := entries[q].(wasFuzzed := true)];
    assert forall e: nat :: e in FuzzedIn(after) <==> e in FuzzedIn(entries) + {q};
    assert forall e: nat :: e in FavoredIn(after) <==> e in FavoredIn(entries);
  }

  lemma OneLessOutside(a: set<nat>, b: set<nat>, q: nat)
    requires q !in b
    ensures |b + {q}| == |b| + 1
    ensures |a - (b + {q})| + (if q in a then 1 else 0) == |a - b|
  {
    assert a - (b + {q}) == (a - b) - {q};
  }

  lemma FuzzingMovesOne(entries: seq<Entry>, q: nat)
    requires q < |entries| && !entries[q].wasFuzzed
    ensures var after := entries[q := entries[q].(wasFuzzed := true)];
      && |FuzzedIn(after)| == |FuzzedIn(entries)| + 1 <= |entries|
      && FavoredIn(after) == FavoredIn(entries)
      && |FavoredIn(after) - FuzzedIn(after)| + (if entries[q].favored then 1 else 0)
            == |FavoredIn(entries) - FuzzedIn(entries)|
  {
    FuzzedSets(entries, q);
    OneLessOutside(FavoredIn(entries), FuzzedIn(entries), q);
    SubsetOfRange(FuzzedIn(entries[q := entries[q].(wasFuzzed := true)]), |entries|);
  }

  lemma CountersCanDrop(entries: seq<Entry>, q: nat, pendingFavored: nat, pendingNotFuzzed: nat)
    requires q < |entries| && !entries[q].wasFuzzed && Counted(entries, pendingNotFuzzed, pendingFavored)
    ensures pendingNotFuzzed > 0 && (entries[q].favored ==> pendingFavored > 0)
    ensures Counted(entries[q := entries[q].(wasFuzzed := true)], pendingNotFuzzed - 1,
                    if entries[q].favored then pendingFavored - 1 else pendingFavored)
  {
    FuzzingMovesOne(entries, q);
  }

  /** Marking an entry as fuzzed takes it out of exactly the set that the counter counts. */
  lemma FuzzingKeeps(top: seq<Slot>, entries: seq<Entry>, hits: map<nat, set<nat>>, q: nat, after: seq<Entry>,
                     queuedFavored: nat, pendingFavored: nat, pendingFavored': nat, changed: bool)
    requires q < |entries| && !entries[q].wasFuzzed && after == entries[q := entries[q].(wasFuzzed := true)]
    requires pendingFavored == if entries[q].favored then pendingFavored' + 1 else pendingFavored'
    requires Faithful(top, entries, hits, queuedFavored, pendingFavored, changed)
    ensures Faithful(top, after, hits, queuedFavored, pendingFavored', changed)
  {
    FuzzingMovesOne(entries, q);
    PicksReadTraces(top, entries, after, 0, {});
  }

  lemma FuzzingKeepsCounts(top: seq<Slot>, entries: seq<Entry>, hits: map<nat, set<nat>>, q: nat)
    requires RefCountsOk(top, entries) && q < |entries|
    ensures var after := entries[q := entries[q].(wasFuzzed := true)];
      && RefCountsOk(top, after)
      && (Optimal(top, entries, hits, -1) ==> Optimal(top, after, hits, -1))
  {
    var after := entries[q := entries[q].(wasFuzzed := true)];
    forall e | 0 <= e < |after| ensures RefCountOk(top, e, after[e]) {
      assert RefCountOk(top, e, entries[e]);
    }
  }

  lemma {:induction false} SubsetOfRange(s: set<nat>, n: nat)
    requires forall e :: e in s ==> e < n
    ensures |s| <= n
  {
    if n > 0 {
      SubsetOfRange(s - {n - 1}, n - 1);
    } else {
      assert s == {};
    }
  }

  // ---------------------------------------------------------------- the fuzzer's globals

  class Scorer {
    const mapSize: nat
    const dumbMode: bool
    var entries: seq<Entry>
    var topRated: array<Slot>
    var scoreChanged: bool
    var queuedFavored: nat
    var pendingFavored: nat
    var pendingNotFuzzed: nat
    ghost var hits: map<nat, set<nat>>  // the bytes each scored entry hit when it was last scored

    ghost predicate Valid()
      reads this, topRated
    {
      && mapSize % 8 == 0 && topRated.Length == mapSize
      && RefCountsOk(topRated[..], entries)
      && (forall e :: e in hits ==> e < |entries|)
      && (forall k :: 0 <= k < mapSize && topRated[k].WonBy? ==> topRated[k].entry in hits)
    }

    ghost predicate IsCounted()
      reads this
    {
      Counted(entries, pendingNotFuzzed, pendingFavored)
    }

    ghost predicate IsFaithful()
      reads this, topRated
    {
      Faithful(topRated[..], entries, hits, queuedFavored, pendingFavored, scoreChanged)
    }

    ghost predicate IsOptimalExcept(but: int)
      reads this, topRated
    {
      Optimal(topRated[..], entries, hits, but)
    }

    /** Each byte that a scored entry hits is held by one that costs no more. */
    ghost predicate IsCheapest()
      reads this, topRated
    {
      CheapestWin(topRated[..], entries, hits)
    }

    constructor (mapSize: nat, dumbMode: bool)
      requires mapSize % 8 == 0
      ensures Valid() && IsCounted() && IsFaithful() && IsOptimalExcept(-1)
      ensures this.mapSize == mapSize && this.dumbMode == dumbMode && entries == [] && fresh(topRated)
    {
      this.mapSize, this.dumbMode := mapSize, dumbMode;
      entries, scoreChanged, queuedFavored, pendingFavored, pendingNotFuzzed, hits := [], false, 0, 0, 0, map[];
      topRated := new Slot[mapSize](_ => Unclaimed);
      new;
      NothingToPick(topRated[..], entries, 0, {});
      assert FavoredIn(entries) == {};
      assert FuzzedIn(entries) == {};
    }

    /** One slot changes hands: the loser's reference goes, and its trace with the last one. */
    method TakeSlot(q: nat, i: nat, trace: seq<bv8>)
      requires Valid() && q in hits && |trace| == mapSize && i < mapSize
      modifies this`entries, this`scoreChanged, topRated
      ensures Valid() && scoreChanged
      ensures topRated[..] == old(topRated[..])[i := WonBy(q)]
      ensures ScoringStep(old(entries), entries, q, trace)
      ensures TraceAfter(old(entries), entries, q, trace, HoldsNoOther(old(topRated[..]), q, i))
    {
      ghost var before, top := entries, topRated[..];
      if topRated[i].WonBy? {
        var loser := topRated[i].entry;
        WinnersAreKept(top, before, i);
        var released := ReleaseEntry(entries[loser]);
        entries := entries[loser := released];
      }
      assert entries == AfterRelease(before, top[i]);
      topRated[i] := WonBy(q);
      var claimed, mini := ClaimEntry(entries[q], trace);
      entries := entries[q := claimed];
      scoreChanged := true;
      assert topRated[..] == top[i := WonBy(q)];
      TakingASlot(top, before, i, q, mini, trace);
    }

    /** One iteration of the scoring loop. */
    method ScoreSlot(q: nat, favFactor: nat, i: nat, trace: seq<bv8>)
      requires Valid() && q in hits && |trace| == mapSize && i < mapSize && favFactor == entries[q].FavFactor()
      modifies this`entries, this`scoreChanged, topRated
      ensures Valid()
      ensures ScoringStep(old(entries), entries, q, trace)
      ensures var takes := Takes(old(topRated[..]), old(entries), q, trace, i);
        && topRated[..] == (if takes then old(topRated[..])[i := WonBy(q)] else old(topRated[..]))
        && scoreChanged == (old(scoreChanged) || takes)
        && (!takes ==> entries == old(entries))
        && TraceAfter(old(entries), entries, q, trace, takes && HoldsNoOther(old(topRated[..]), q, i))
    {
      if trace[i] != 0 {
        if topRated[i].WonBy? && favFactor > entries[topRated[i].entry].FavFactor() {
        } else {
          TakeSlot(q, i, trace);
        }
      }
    }

    /** The loop of `update_bitmap_score`. */
    method ScoreSlots(q: nat, trace: seq<bv8>)
      requires Valid() && q in hits && |trace| == mapSize
      modifies this`entries, this`scoreChanged, topRated
      ensures Valid()
      ensures Scored(old(topRated[..]), old(entries), old(scoreChanged), q, trace, topRated[..], entries, scoreChanged)
    {
      ghost var top0, entries0, changed0 := topRated[..], entries, scoreChanged;
      var favFactor := entries[q].FavFactor();
      var i := 0;
      while i < mapSize
        invariant 0 <= i <= mapSize
        invariant Valid() && |entries| == |entries0| && entries[q].FavFactor() == favFactor
        invariant ScoredUpTo(top0, entries0, changed0, q, trace, i, topRated[..], entries, scoreChanged)
      {
        ghost var top, mid, changed := topRated[..], entries, scoreChanged;
        ScoreSlot(q, favFactor, i, trace);
        ScoringOneMore(top0, entries0, changed0, q, trace, i, top, mid, changed, topRated[..], entries, scoreChanged);
        i := i + 1;
      }
      ScoringAllDone(top0, entries0, changed0, q, trace, topRated[..], entries, scoreChanged);
    }

    /** `update_bitmap_score`: the entry takes each slot it hits and does not lose. */
    method UpdateBitmapScore(q: nat, trace: seq<bv8>)
      requires Valid() && q < |entries| && |trace| == mapSize
      modifies this`entries, this`scoreChanged, this`hits, topRated
      ensures Valid()
      ensures hits == old(hits)[q := HitSet(trace)]
      ensures Scored(old(topRated[..]), old(entries), old(scoreChanged), q, trace, topRated[..], entries, scoreChanged)
      ensures SlotsAreDecided(old(topRated[..]), old(entries), q, trace, topRated[..])
      ensures ScoringKept(old(topRated[..]), old(entries), old(scoreChanged), old(hits), q, trace,
                          topRated[..], entries, scoreChanged, hits, queuedFavored, pendingFavored, pendingNotFuzzed)
    {
      ghost var top, before, hits0, changed := topRated[..], entries, hits, scoreChanged;
      hits := hits[q := HitSet(trace)];
      ScoringDecides(top, before, q, trace);
      ScoreSlots(q, trace);
      ScoringKeeps(top, before, changed, hits0, q, trace, topRated[..], entries, scoreChanged, hits,
                   queuedFavored, pendingFavored, pendingNotFuzzed);
    }

    // -------------------------------------------------------------- culling

    /** Picks the winner of one slot: its bytes are covered from now on. */
    method FavorWinner(e: nat, tempV: array<bv8>)
      requires e < |entries| && entries[e].traceMini.Kept? && |entries[e].traceMini.bytes| == tempV.Length
      modifies this`entries, this`queuedFavored, this`pendingFavored, tempV
      ensures entries == old(entries)[e := old(entries)[e].(favored := true)]
      ensures queuedFavored == old(queuedFavored) + 1
      ensures pendingFavored == old(pendingFavored) + if old(entries)[e].wasFuzzed then 0 else 1
      ensures BitSet(tempV[..]) == old(BitSet(tempV[..])) - Covers(old(entries), e)
    {
      RemoveCovered(tempV, entries[e].traceMini.bytes);
      entries := entries[e := entries[e].(favored := true)];
      queuedFavored := queuedFavored + 1;
      if !entries[e].wasFuzzed {
        pendingFavored := pendingFavored + 1;
      }
    }

    /** One iteration of the greedy pass, with the bytes not yet covered as the set bits of `tempV`. */
    method GreedyStep(i: nat, tempV: array<bv8>, ghost before: seq<Entry>, ghost picked: seq<nat>, ghost seen: set<nat>)
      returns (ghost picked': seq<nat>, ghost seen': set<nat>)
      requires i < mapSize == topRated.Length && mapSize % 8 == 0 && tempV.Length == mapSize / 8
      requires RefCountsOk(topRated[..], before)
      requires GreedyState(topRated[..], before, entries, i, picked, seen, queuedFavored, pendingFavored)
      requires Uncovered(tempV[..], seen)
      modifies this`entries, this`queuedFavored, this`pendingFavored, tempV
      ensures GreedyState(topRated[..], before, entries, i + 1, picked', seen', queuedFavored, pendingFavored)
      ensures Uncovered(tempV[..], seen')
    {
      picked', seen' := picked, seen;
      assert i in BitSet(tempV[..]) <==> Bit(tempV[i / 8], i % 8);
      if topRated[i].WonBy? && tempV[i / 8] & Mask(i % 8) != 0 {
        var e := topRated[i].entry;
        WinnersAreKept(topRated[..], before, i);
        assert RefCountOk(topRated[..], e, before[e]);
        GreedyPick(topRated[..], before, entries, i, picked, seen, queuedFavored, pendingFavored);
        FavorWinner(e, tempV);
        picked', seen' := picked + [i], seen + Covers(before, e);
      } else {
        GreedySkip(topRated[..], before, entries, i, picked, seen, queuedFavored, pendingFavored);
      }
    }

    /** The greedy pass of `cull_queue`, from cleared flags and counters. */
    method GreedyPass()
      requires Valid() && queuedFavored == 0 && pendingFavored == 0 && FavoredIn(entries) == {}
      modifies this`entries, this`queuedFavored, this`pendingFavored
      ensures Flagged(old(entries), entries, Elements(Choice(topRated[..], old(entries))))
      ensures queuedFavored == |Choice(topRated[..], old(entries))|
      ensures pendingFavored == Unfuzzed(Choice(topRated[..], old(entries)), FuzzedIn(old(entries)))
    {
      var tempV := new bv8[mapSize / 8](_ => 0xff);
      ghost var top, before := topRated[..], entries;
      ghost var picked: seq<nat>, seen: set<nat> := [], {};
      GreedyStart(top, before);
      AllBitsSet(tempV[..]);
      var i := 0;
      while i < mapSize
        invariant 0 <= i <= mapSize && fresh(tempV) && tempV.Length == mapSize / 8
        invariant GreedyState(top, before, entries, i, picked, seen, queuedFavored, pendingFavored)
        invariant Uncovered(tempV[..], seen)
      {
        picked, seen := GreedyStep(i, tempV, before, picked, seen);
        i := i + 1;
      }
      GreedyEnds(top, before, entries, picked, seen, queuedFavored, pendingFavored);
    }

    method ClearFlags()
      modifies this`entries
      ensures Flagged(old(entries), entries, {})
    {
      ghost var before := entries;
      var e := 0;
      while e < |entries|
        invariant 0 <= e <= |entries| == |before|
        invariant forall k :: 0 <= k < e ==> entries[k] == before[k].(favored := false)
        invariant forall k :: e <= k < |entries| ==> entries[k] == before[k]
      {
        entries := entries[e := entries[e].(favored := false)];
        e := e + 1;
      }
    }

    method MarkRedundant()
      modifies this`entries
      ensures |entries| == |old(entries)|
      ensures forall e :: 0 <= e < |entries| ==> entries[e] == old(entries)[e].(fsRedundant := !old(entries)[e].favored)
    {
      ghost var before := entries;
      var e := 0;
      while e < |entries|
        invariant 0 <= e <= |entries| == |before|
        invariant forall k :: 0 <= k < e ==> entries[k] == before[k].(fsRedundant := !before[k].favored)
        invariant forall k :: e <= k < |entries| ==> entries[k] == before[k]
      {
        entries := entries[e := entries[e].(fsRedundant := !entries[e].favored)];
        e := e + 1;
      }
    }

    /** The recomputing branch of `cull_queue`. */
    method Recompute()
      requires Valid()
      modifies this`entries, this`queuedFavored, this`pendingFavored
      ensures Culled(topRated[..], old(entries), entries, queuedFavored, pendingFavored)
    {
      ghost var before := entries;
      queuedFavored, pendingFavored := 0, 0;
      ClearFlags();
      ghost var cleared := entries;
      ClearingKeeps(topRated[..], before, cleared);
      GreedyPass();
      ghost var flagged := entries;
      MarkRedundant();
      RecomputationCulls(topRated[..], before, cleared, flagged, entries, queuedFavored, pendingFavored);
    }

    /**
      `cull_queue`: recomputes the favored entries, or skips that when no score has
      changed.  Either way the flags and counters end up as a recomputation gives them.
    */
    method CullQueue()
      requires Valid() && IsCounted()
      modifies this`entries, this`scoreChanged, this`queuedFavored, this`pendingFavored
      ensures Valid() && IsCounted()
      ensures dumbMode || !old(scoreChanged) ==>
                entries == old(entries) && queuedFavored == old(queuedFavored) && pendingFavored == old(pendingFavored)
                && scoreChanged == old(scoreChanged)
      ensures !dumbMode && old(scoreChanged) ==>
                !scoreChanged && Culled(topRated[..], old(entries), entries, queuedFavored, pendingFavored)
      ensures old(IsFaithful()) ==> IsFaithful()
      ensures old(IsFaithful()) && !dumbMode
            ==> RightlyFavored(topRated[..], entries, hits, queuedFavored, pendingFavored)
      ensures old(IsOptimalExcept(-1)) ==> IsOptimalExcept(-1)
    {
      if dumbMode {
        return;
      }
      if scoreChanged {
        ghost var before := entries;
        scoreChanged := false;
        Recompute();
        CullingKeeps(topRated[..], before, entries, hits, queuedFavored, pendingFavored, pendingNotFuzzed);
      } else if IsFaithful() {
        FaithfulIsRight(topRated[..], entries, hits, queuedFavored, pendingFavored);
      }
    }

    // -------------------------------------------------------------- what changes in between

    /** `add_to_queue`: a new entry is neither scored, favored nor fuzzed. */
    method AddToQueue(len: nat) returns (q: nat)
      requires Valid() && IsCounted()
      modifies this`entries, this`pendingNotFuzzed
      ensures Valid() && IsCounted() && q == |old(entries)|
      ensures entries == old(entries) + [Entry(len, 0, false, false, false, NotKept, 0)]
      ensures old(IsFaithful()) ==> IsFaithful()
      ensures forall but :: old(IsOptimalExcept(but)) ==> IsOptimalExcept(but)
    {
      q := |entries|;
      AppendingKeeps(topRated[..], entries, Entry(len, 0, false, false, false, NotKept, 0), hits,
                     queuedFavored, pendingFavored, pendingNotFuzzed, scoreChanged);
      entries := entries + [Entry(len, 0, false, false, false, NotKept, 0)];
      pendingNotFuzzed := pendingNotFuzzed + 1;
    }

    /** An entry with a new speed or length is scored again. */
    method Reprice(q: nat, execUs: nat, len: nat, trace: seq<bv8>)
      requires Valid() && q < |entries| && |trace| == mapSize
      modifies this`entries, this`scoreChanged, this`hits, topRated
      ensures Valid() && hits == old(hits)[q := HitSet(trace)]
      ensures Scored(old(topRated[..]), Repriced(old(entries), q, execUs, len), old(scoreChanged), q, trace,
                     topRated[..], entries, scoreChanged)
    {
      RepricingKeepsCounts(topRated[..], entries, q, execUs, len);
      entries := entries[q := entries[q].(execUs := execUs, len := len)];
      UpdateBitmapScore(q, trace);
    }

    /** The end of a successful `calibrate_case`: a new speed, then scoring. */
    method Calibrate(q: nat, execUs: nat, trace: seq<bv8>)
      requires Valid() && IsCounted() && q < |entries| && |trace| == mapSize
      modifies this`entries, this`scoreChanged, this`hits, topRated
      ensures Valid() && IsCounted() && hits == old(hits)[q := HitSet(trace)]
      ensures Scored(old(topRated[..]), Repriced(old(entries), q, execUs, old(entries)[q].len), old(scoreChanged), q,
                     trace,
                     topRated[..], entries, scoreChanged)
      ensures old(IsFaithful()) && (q in old(hits) ==> old(hits)[q] == HitSet(trace)) ==> IsFaithful()
      ensures old(IsOptimalExcept(-1))
          && (q in old(hits) ==> IsNoDearer(old(entries)[q].(execUs := execUs), old(entries)[q]))
          ==> IsOptimalExcept(-1) && IsCheapest()
    {
      ghost var top, before, changed, hits0 := topRated[..], entries, scoreChanged, hits;
      FactorsCompareProducts(entries[q].(execUs := execUs), entries[q]);
      Reprice(q, execUs, entries[q].len, trace);
      RescoringKeeps(top, before, changed, hits0, q, execUs, before[q].len, trace, topRated[..], entries, scoreChanged,
                     hits,
                     queuedFavored, pendingFavored, pendingNotFuzzed);
    }

    /** The end of a `trim_case` that removed something: a smaller length, then scoring. */
    method FinishTrim(q: nat, newLen: nat, trace: seq<bv8>)
      requires Valid() && IsCounted() && q < |entries| && |trace| == mapSize && newLen <= entries[q].len
      modifies this`entries, this`scoreChanged, this`hits, topRated
      ensures Valid() && IsCounted() && hits == old(hits)[q := HitSet(trace)]
      ensures Scored(old(topRated[..]), Repriced(old(entries), q, old(entries)[q].execUs, newLen), old(scoreChanged),
                     q, trace,
                     topRated[..], entries, scoreChanged)
      ensures old(IsFaithful()) && (q in old(hits) ==> old(hits)[q] == HitSet(trace)) ==> IsFaithful()
      ensures old(IsOptimalExcept(-1)) && old(entries)[q].FitsU64() ==> IsOptimalExcept(-1) && IsCheapest()
    {
      ghost var top, before, changed, hits0 := topRated[..], entries, scoreChanged, hits;
      if entries[q].FitsU64() {
        ShorterIsCheaper(entries[q], newLen);
      }
      Reprice(q, entries[q].execUs, newLen, trace);
      RescoringKeeps(top, before, changed, hits0, q, before[q].execUs, newLen, trace, topRated[..], entries,
                     scoreChanged, hits,
                     queuedFavored, pendingFavored, pendingNotFuzzed);
    }

    /** The entry is marked, and the counters go down with it. */
    method MarkFuzzed(q: nat)
      requires Valid() && IsCounted() && q < |entries| && !entries[q].wasFuzzed
      modifies this`entries, this`pendingFavored, this`pendingNotFuzzed
      ensures Valid() && IsCounted()
      ensures entries == old(entries)[q := old(entries)[q].(wasFuzzed := true)]
      ensures pendingNotFuzzed == old(pendingNotFuzzed) - 1
      ensures pendingFavored == old(pendingFavored) - (if old(entries)[q].favored then 1 else 0)
    {
      CountersCanDrop(entries, q, pendingFavored, pendingNotFuzzed);
      FuzzingKeepsCounts(topRated[..], entries, hits, q);
      pendingNotFuzzed := pendingNotFuzzed - 1;
      pendingFavored := if entries[q].favored then pendingFavored - 1 else pendingFavored;
      entries := entries[q := entries[q].(wasFuzzed := true)];
    }

    /** The end of `fuzz_one`, under `abandon_entry`. */
    method FinishFuzz(q: nat, stopSoon: bool, calFailed: bool)
      requires Valid() && IsCounted() && q < |entries|
      modifies this`entries, this`pendingFavored, this`pendingNotFuzzed
      ensures Valid() && IsCounted()
      ensures entries
           == if stopSoon || calFailed then old(entries) else old(entries)[q := old(entries)[q].(wasFuzzed := true)]
      ensures var counts := !stopSoon && !calFailed && !old(entries)[q].wasFuzzed;
        && pendingNotFuzzed == old(pendingNotFuzzed) - (if counts then 1 else 0)
        && pendingFavored == old(pendingFavored) - (if counts && old(entries)[q].favored then 1 else 0)
      ensures old(IsFaithful()) ==> IsFaithful()
      ensures old(IsOptimalExcept(-1)) ==> IsOptimalExcept(-1)
    {
      if !stopSoon && !calFailed && !entries[q].wasFuzzed {
        ghost var before, pending := entries, pendingFavored;
        FuzzingKeepsCounts(topRated[..], before, hits, q);
        MarkFuzzed(q);
        if old(IsFaithful()) {
          FuzzingKeeps(topRated[..], before, hits, q, entries, queuedFavored, pending, pendingFavored, scoreChanged);
        }
      } else {
        assert entries[q].wasFuzzed ==> entries[q].(wasFuzzed := true) == entries[q];
      }
    }
  }
}
