/**
  The coverage bitmap: bucketing of hit counts through a 16-bit table
  (`init_count_class16`, `classify_counts`) and the word-wise comparison of a trace
  with the map of what is still unseen (`has_new_bits`), on little-endian 64-bit words.
*/
module CoverageMap {

  /** A byte without the bits of another. */
  function Clear(v: bv8, c: bv8): bv8 {
    v & !c
  }

  /** A 64-bit word as its eight bytes in memory, seen through a byte pointer. */
  datatype Lanes = Lanes(b0: bv8, b1: bv8, b2: bv8, b3: bv8, b4: bv8, b5: bv8, b6: bv8, b7: bv8)
  {
    function Lane(k: nat): bv8
      requires k < 8
    {
      if k == 0 then b0 else if k == 1 then b1 else if k == 2 then b2 else if k == 3 then b3
      else if k == 4 then b4 else if k == 5 then b5 else if k == 6 then b6 else b7
    }

    function And(w: Lanes): Lanes {
      Lanes(b0 & w.b0, b1 & w.b1, b2 & w.b2, b3 & w.b3, b4 & w.b4, b5 & w.b5, b6 & w.b6, b7 & w.b7)
    }

    function AndNot(w: Lanes): Lanes {
      Lanes(Clear(b0, w.b0), Clear(b1, w.b1), Clear(b2, w.b2), Clear(b3, w.b3),
           Clear(b4, w.b4), Clear(b5, w.b5), Clear(b6, w.b6), Clear(b7, w.b7))
    }
  }

  const ZERO_LANES: Lanes := Lanes(0, 0, 0, 0, 0, 0, 0, 0)

  // ---------------------------------------------------------------- words and their bytes

  /** The bytes of a word, the least significant first. */
  function LanesOf(w: bv64): Lanes {
    Lanes((w & 0xff) as bv8, ((w >> 8) & 0xff) as bv8, ((w >> 16) & 0xff) as bv8, ((w >> 24) & 0xff) as bv8,
          ((w >> 32) & 0xff) as bv8, ((w >> 40) & 0xff) as bv8, ((w >> 48) & 0xff) as bv8, ((w >> 56) & 0xff) as bv8)
  }

  function Join(b: Lanes): bv64 {
    (b.b0 as bv64) | ((b.b1 as bv64) << 8) | ((b.b2 as bv64) << 16) | ((b.b3 as bv64) << 24)
    | ((b.b4 as bv64) << 32) | ((b.b5 as bv64) << 40) | ((b.b6 as bv64) << 48) | ((b.b7 as bv64) << 56)
  }

  lemma JoinedLanes(b: Lanes)
    ensures LanesOf(Join(b)) == b
  {
  }

  lemma LanesOfZero(w: bv64)
    ensures w == 0 <==> LanesOf(w) == ZERO_LANES
  {
  }

  /** The operators of the machine on whole words act on each byte. */
  lemma LanesOfAnd(a: bv64, b: bv64)
    ensures LanesOf(a & b) == LanesOf(a).And(LanesOf(b))
  {
  }

  lemma LanesOfAndNot(a: bv64, b: bv64)
    ensures LanesOf(a & !b) == LanesOf(a).AndNot(LanesOf(b))
  {
  }

  function AllLanes(words: seq<bv64>): (r: seq<Lanes>)
    ensures |r| == |words|
  {
    seq(|words|, i requires 0 <= i < |words| => LanesOf(words[i]))
  }

  // ---------------------------------------------------------------- has_new_bits

  /** A byte of the trace is set where nothing was ever seen. */
  predicate IsPristineHit(cur: bv8, vir: bv8) {
    cur != 0 && vir == 0xff
  }

  /** A byte of the trace has a bit that was not seen in that byte. */
  predicate IsNewBit(cur: bv8, vir: bv8) {
    cur & vir != 0
  }

  ghost predicate PristineWithin(cur: Lanes, vir: Lanes) {
    exists k: nat :: k < 8 && IsPristineHit(cur.Lane(k), vir.Lane(k))
  }

  ghost predicate NewBitWithin(cur: Lanes, vir: Lanes) {
    exists k: nat :: k < 8 && IsNewBit(cur.Lane(k), vir.Lane(k))
  }

  /** Byte `k` of word `i` of the trace, for some k and some i below n. */
  ghost predicate SomePristine(current: seq<Lanes>, virgin: seq<Lanes>, n: nat)
    requires n <= |current| == |virgin|
  {
    exists i :: 0 <= i < n && PristineWithin(current[i], virgin[i])
  }

  ghost predicate SomeNewBit(current: seq<Lanes>, virgin: seq<Lanes>, n: nat)
    requires n <= |current| == |virgin|
  {
    exists i :: 0 <= i < n && NewBitWithin(current[i], virgin[i])
  }

  /** The byte-wise meaning of the result, over the first `n` words. */
  ghost function Verdict(current: seq<Lanes>, virgin: seq<Lanes>, n: nat): nat
    requires n <= |current| == |virgin|
  {
    if SomePristine(current, virgin, n) then 2 else if SomeNewBit(current, virgin, n) then 1 else 0
  }

  function ClearedWord(vir: Lanes, cur: Lanes): Lanes {
    vir.AndNot(cur)
  }

  function Cleared(virgin: seq<Lanes>, current: seq<Lanes>): (r: seq<Lanes>)
    requires |current| == |virgin|
    ensures |r| == |virgin|
  {
    seq(|virgin|, i requires 0 <= i < |virgin| => ClearedWord(virgin[i], current[i]))
  }

  predicate WordHasPristine(cur: Lanes, vir: Lanes) {
    || IsPristineHit(cur.Lane(0), vir.Lane(0)) || IsPristineHit(cur.Lane(1), vir.Lane(1))
    || IsPristineHit(cur.Lane(2), vir.Lane(2)) || IsPristineHit(cur.Lane(3), vir.Lane(3))
    || IsPristineHit(cur.Lane(4), vir.Lane(4)) || IsPristineHit(cur.Lane(5), vir.Lane(5))
    || IsPristineHit(cur.Lane(6), vir.Lane(6)) || IsPristineHit(cur.Lane(7), vir.Lane(7))
  }

  lemma PristineIsNew(cur: bv8, vir: bv8)
    requires IsPristineHit(cur, vir)
    ensures IsNewBit(cur, vir)
  {
  }

  predicate WordHasNewBit(cur: Lanes, vir: Lanes) {
    || IsNewBit(cur.Lane(0), vir.Lane(0)) || IsNewBit(cur.Lane(1), vir.Lane(1))
    || IsNewBit(cur.Lane(2), vir.Lane(2)) || IsNewBit(cur.Lane(3), vir.Lane(3))
    || IsNewBit(cur.Lane(4), vir.Lane(4)) || IsNewBit(cur.Lane(5), vir.Lane(5))
    || IsNewBit(cur.Lane(6), vir.Lane(6)) || IsNewBit(cur.Lane(7), vir.Lane(7))
  }

  /** Some byte has a bit of `vir` exactly when the bitwise and of the words is not zero. */
  lemma AndIsByBytes(cur: Lanes, vir: Lanes)
    ensures WordHasNewBit(cur, vir) <==> cur.And(vir) != ZERO_LANES
  {
  }

  lemma SomeLaneIsNew(cur: Lanes, vir: Lanes)
    ensures WordHasNewBit(cur, vir) <==> NewBitWithin(cur, vir)
  {
    if NewBitWithin(cur, vir) {
      var k: nat :| k < 8 && IsNewBit(cur.Lane(k), vir.Lane(k));
      assert k == 0 || k == 1 || k == 2 || k == 3 || k == 4 || k == 5 || k == 6 || k == 7;
    }
  }

  lemma LanesAreNew(cur: Lanes, vir: Lanes)
    ensures cur.And(vir) != ZERO_LANES <==> NewBitWithin(cur, vir)
  {
    AndIsByBytes(cur, vir);
    SomeLaneIsNew(cur, vir);
  }

  lemma PristineWordIsNew(cur: Lanes, vir: Lanes)
    ensures WordHasPristine(cur, vir) <==> PristineWithin(cur, vir)
    ensures PristineWithin(cur, vir) ==> NewBitWithin(cur, vir)
  {
    if PristineWithin(cur, vir) {
      var k: nat :| k < 8 && IsPristineHit(cur.Lane(k), vir.Lane(k));
      PristineIsNew(cur.Lane(k), vir.Lane(k));
    }
  }

  lemma OneMoreWord(current: seq<Lanes>, virgin: seq<Lanes>, i: nat)
    requires i < |current| == |virgin|
    ensures SomePristine(current, virgin, i + 1)
          <==> SomePristine(current, virgin, i) || PristineWithin(current[i], virgin[i])
    ensures SomeNewBit(current, virgin, i + 1)
          <==> SomeNewBit(current, virgin, i) || NewBitWithin(current[i], virgin[i])
  {
  }

  /** What one word contributes. */
  ghost function WordVerdict(cur: Lanes, vir: Lanes): nat {
    if PristineWithin(cur, vir) then 2 else if NewBitWithin(cur, vir) then 1 else 0
  }

  lemma VerdictGrows(current: seq<Lanes>, virgin: seq<Lanes>, i: nat)
    requires i < |current| == |virgin|
    ensures var before, word := Verdict(current, virgin, i), WordVerdict(current[i], virgin[i]);
      Verdict(current, virgin, i + 1) == if word > before then word else before
  {
    OneMoreWord(current, virgin, i);
    PristineWordIsNew(current[i], virgin[i]);
  }

  /** The test of whole words agrees with the tests of their bytes. */
  lemma WordIsNew(cur: bv64, vir: bv64)
    ensures cur & vir != 0 <==> NewBitWithin(LanesOf(cur), LanesOf(vir))
  {
    LanesOfAnd(cur, vir);
    LanesOfZero(cur & vir);
    LanesAreNew(LanesOf(cur), LanesOf(vir));
  }

  /** A word with nothing new contributes nothing and clears nothing. */
  lemma NothingNew(cur: bv64, vir: bv64)
    requires cur == 0 || cur & vir == 0
    ensures WordVerdict(LanesOf(cur), LanesOf(vir)) == 0
    ensures LanesOf(vir) == ClearedWord(LanesOf(vir), LanesOf(cur))
  {
    assert cur == 0 ==> cur & vir == 0;
    WordIsNew(cur, vir);
    PristineWordIsNew(LanesOf(cur), LanesOf(vir));
    LanesOfAnd(cur, vir);
    LanesOfZero(cur & vir);
    NothingToClear(LanesOf(cur), LanesOf(vir));
  }

  /** The tests of eight bytes through byte pointers. */
  method ClassifyWord(cur: Lanes, vir: Lanes) returns (verdict: nat)
    requires NewBitWithin(cur, vir)
    ensures verdict == WordVerdict(cur, vir) && verdict > 0
  {
    PristineWordIsNew(cur, vir);
    verdict := if WordHasPristine(cur, vir) then 2 else 1;
  }

  /** One word of `has_new_bits`, given the result so far. */
  method CompareWord(cur: bv64, vir: bv64, ret: nat) returns (ret': nat, vir': bv64)
    requires ret <= 2
    ensures var word := WordVerdict(LanesOf(cur), LanesOf(vir)); ret' == if word > ret then word else ret
    ensures LanesOf(vir') == ClearedWord(LanesOf(vir), LanesOf(cur))
  {
    ret', vir' := ret, vir;
    if cur != 0 && cur & vir != 0 {
      WordIsNew(cur, vir);
      if ret < 2 {
        ret' := ClassifyWord(LanesOf(cur), LanesOf(vir));
      }
      LanesOfAndNot(vir, cur);
      vir' := vir & !cur;
    } else {
      NothingNew(cur, vir);
    }
  }

  ghost predicate ClearedUpTo(before: seq<Lanes>, trace: seq<Lanes>, now: seq<Lanes>, n: nat) {
    && n <= |before| == |trace| == |now|
    && (forall k :: 0 <= k < n ==> now[k] == ClearedWord(before[k], trace[k]))
    && (forall k :: n <= k < |now| ==> now[k] == before[k])
  }

  lemma OneWordStored(words: seq<bv64>, i: nat, w: bv64)
    requires i < |words|
    ensures AllLanes(words[i := w]) == AllLanes(words)[i := LanesOf(w)]
  {
  }

  /**
    `has_new_bits`: 2 if some byte is hit for the first time, else 1 if some bit is
    new, else 0; and the bits of the trace are cleared from the map.
  */
  method HasNewBits(current: seq<bv64>, virgin: array<bv64>) returns (ret: nat)
    requires |current| == virgin.Length
    modifies virgin
    ensures AllLanes(virgin[..]) == Cleared(AllLanes(old(virgin[..])), AllLanes(current))
    ensures ret == Verdict(AllLanes(current), AllLanes(old(virgin[..])), |current|)
  {
    ret := 0;
    ghost var trace, before := AllLanes(current), AllLanes(virgin[..]);
    var i := 0;
    while i < |current|
      invariant 0 <= i <= |current|
      invariant ClearedUpTo(before, trace, AllLanes(virgin[..]), i)
      invariant ret == Verdict(trace, before, i) <= 2
    {
      ghost var words := virgin[..];
      VerdictGrows(trace, before, i);
      var word;
      ret, word := CompareWord(current[i], virgin[i], ret);
      virgin[i] := word;
      assert virgin[..] == words[i := word];
      OneWordStored(words, i, word);
      i := i + 1;
    }
    assert AllLanes(virgin[..]) == Cleared(before, trace);
  }

  lemma NothingToClear(cur: Lanes, vir: Lanes)
    ensures cur == ZERO_LANES ==> cur.And(vir) == ZERO_LANES
    ensures cur.And(vir) == ZERO_LANES ==> vir.AndNot(cur) == vir
  {
  }

  // ---------------------------------------------------------------- runs

  /** The map after a run of traces. */
  function AfterRun(virgin: seq<Lanes>, traces: seq<seq<Lanes>>): (r: seq<Lanes>)
    requires forall t :: t in traces ==> |t| == |virgin|
    ensures |r| == |virgin|
  {
    if traces == [] then virgin else Cleared(AfterRun(virgin, traces[..|traces| - 1]), traces[|traces| - 1])
  }

  lemma AfterRunStep(virgin: seq<Lanes>, traces: seq<seq<Lanes>>, i: nat)
    requires forall t :: t in traces ==> |t| == |virgin|
    requires traces != [] && i < |virgin|
    ensures var init, last := traces[..|traces| - 1], traces[|traces| - 1];
      && |last| == |virgin| && (forall t :: t in init ==> |t| == |virgin|)
      && AfterRun(virgin, traces)[i] == ClearedWord(AfterRun(virgin, init)[i], last[i])
  {
    assert traces[|traces| - 1] in traces;
    assert forall t :: t in traces[..|traces| - 1] ==> t in traces;
  }

  predicate IsGone(v: Lanes, t: Lanes) {
    t.And(v) == ZERO_LANES
  }

  lemma ClearingKeepsGone(v: Lanes, c: Lanes, t: Lanes)
    requires IsGone(v, t)
    ensures IsGone(ClearedWord(v, c), t)
  {
  }

  lemma ClearedIsGone(v: Lanes, c: Lanes)
    ensures IsGone(ClearedWord(v, c), c)
  {
  }

  /** Bits only ever disappear: what a trace of the run has set is gone at the end. */
  lemma {:induction false} SeenBitsAreGone(virgin: seq<Lanes>, traces: seq<seq<Lanes>>, t: nat, i: nat)
    requires forall t :: t in traces ==> |t| == |virgin|
    requires t < |traces| && i < |virgin|
    ensures traces[t] in traces && IsGone(AfterRun(virgin, traces)[i], traces[t][i])
  {
    var init, last := traces[..|traces| - 1], traces[|traces| - 1];
    AfterRunStep(virgin, traces, i);
    if t < |init| {
      SeenBitsAreGone(virgin, init, t, i);
      ClearingKeepsGone(AfterRun(virgin, init)[i], last[i], traces[t][i]);
    } else {
      ClearedIsGone(AfterRun(virgin, init)[i], last[i]);
    }
  }

  lemma ClearedLane(v: Lanes, c: Lanes, k: nat)
    requires k < 8
    ensures ClearedWord(v, c).Lane(k) == Clear(v.Lane(k), c.Lane(k))
  {
    assert k == 0 || k == 1 || k == 2 || k == 3 || k == 4 || k == 5 || k == 6 || k == 7;
  }

  predicate IsSingleBit(b: bv8) {
    b == 1 || b == 2 || b == 4 || b == 8 || b == 16 || b == 32 || b == 64 || b == 128
  }

  lemma ClearingOneBit(b: bv8, v: bv8, c: bv8)
    requires IsSingleBit(b)
    ensures IsNewBit(b, Clear(v, c)) <==> IsNewBit(b, v) && !IsNewBit(b, c)
  {
  }

  /** Some trace of the run has bit `b` set in byte `k` of word `i`. */
  ghost predicate SomeTraceHas(traces: seq<seq<Lanes>>, n: nat, i: nat, k: nat, b: bv8)
    requires (forall t :: t in traces ==> |t| == n) && i < n && k < 8
  {
    exists t: seq<Lanes> :: t in traces && IsNewBit(b, t[i].Lane(k))
  }

  lemma OneMoreTrace(traces: seq<seq<Lanes>>, n: nat, i: nat, k: nat, b: bv8)
    requires (forall t :: t in traces ==> |t| == n) && i < n && k < 8 && traces != []
    ensures var init, last := traces[..|traces| - 1], traces[|traces| - 1];
      && (forall t :: t in init ==> |t| == n) && |last| == n
      && (SomeTraceHas(traces, n, i, k, b) <==> SomeTraceHas(init, n, i, k, b) || IsNewBit(b, last[i].Lane(k)))
  {
    var init, last := traces[..|traces| - 1], traces[|traces| - 1];
    assert traces == init + [last];
    assert last in traces;
    assert forall t :: t in init ==> t in traces;
  }

  /** After a run the map is the initial map minus the union of the traces, bit by bit. */
  lemma {:induction false} MapIsInitialMinusUnion(virgin: seq<Lanes>, traces: seq<seq<Lanes>>, i: nat, k: nat, b: bv8)
    requires (forall t :: t in traces ==> |t| == |virgin|) && i < |virgin| && k < 8 && IsSingleBit(b)
    ensures IsNewBit(b, AfterRun(virgin, traces)[i].Lane(k))
       <==> IsNewBit(b, virgin[i].Lane(k)) && !SomeTraceHas(traces, |virgin|, i, k, b)
  {
    if traces != [] {
      var init, last := traces[..|traces| - 1], traces[|traces| - 1];
      AfterRunStep(virgin, traces, i);
      OneMoreTrace(traces, |virgin|, i, k, b);
      MapIsInitialMinusUnion(virgin, init, i, k, b);
      ClearedLane(AfterRun(virgin, init)[i], last[i], k);
      ClearingOneBit(b, AfterRun(virgin, init)[i].Lane(k), last[i].Lane(k));
    }
  }

  /** A trace that already occurred in the run is never reported again. */
  lemma RepeatedTraceIsOld(virgin: seq<Lanes>, traces: seq<seq<Lanes>>, t: nat)
    requires forall t :: t in traces ==> |t| == |virgin|
    requires t < |traces|
    ensures traces[t] in traces && Verdict(traces[t], AfterRun(virgin, traces), |virgin|) == 0
  {
    var v := AfterRun(virgin, traces);
    assert traces[t] in traces;
    forall i | 0 <= i < |virgin| ensures !NewBitWithin(traces[t][i], v[i]) && !PristineWithin(traces[t][i], v[i]) {
      SeenBitsAreGone(virgin, traces, t, i);
      LanesAreNew(traces[t][i], v[i]);
      PristineWordIsNew(traces[t][i], v[i]);
    }
  }

  // ---------------------------------------------------------------- buckets

  /** `count_class_lookup8`. */
  function Bucket(count: bv8): bv8 {
    if count <= 2 then count
    else if count == 3 then 4
    else if count <= 7 then 8
    else if count <= 15 then 16
    else if count <= 31 then 32
    else if count <= 127 then 64
    else 128
  }

  /** Two hit counts in the same range: 1, 2, 3, 4 to 7, 8 to 15, 16 to 31, 32 to 127, or 128 and more. */
  predicate IsSameRange(a: bv8, b: bv8) {
    || a == b
    || (4 <= a <= 7 && 4 <= b <= 7)
    || (8 <= a <= 15 && 8 <= b <= 15)
    || (16 <= a <= 31 && 16 <= b <= 31)
    || (32 <= a <= 127 && 32 <= b <= 127)
    || (128 <= a && 128 <= b)
  }

  /** A bucket is one bit, a higher one for more hits, and the same one exactly within a range. */
  lemma BucketMeans(a: bv8, b: bv8)
    ensures Bucket(a) == Bucket(b) <==> IsSameRange(a, b)
    ensures if a == 0 then Bucket(a) == 0 else IsSingleBit(Bucket(a))
    ensures a <= b ==> Bucket(a) <= Bucket(b)
  {
  }

  function Join16(lo: bv8, hi: bv8): bv16 {
    ((hi as bv16) << 8) | (lo as bv16)
  }

  lemma Join16Lanes(lo: bv8, hi: bv8)
    ensures (Join16(lo, hi) & 0xff) as bv8 == lo && (Join16(lo, hi) >> 8) as bv8 == hi
  {
  }

  lemma ByteIsSmall(x: bv8)
    ensures 0 <= x as int < 256 && (x as int) as bv8 == x
  {
  }

  function Entry(b1: nat, b2: nat): bv16
    requires b1 < 256 && b2 < 256
  {
    Join16(Bucket(b2 as bv8), Bucket(b1 as bv8))
  }

  ghost predicate RowFilled(table: seq<bv16>, b1: nat, n: nat)
    requires |table| == 65536 && b1 < 256 && n <= 256
  {
    forall b2: nat :: b2 < n ==> table[256 * b1 + b2] == Entry(b1, b2)
  }

  /** The table that `init_count_class16` builds. */
  ghost predicate Classifies(table: seq<bv16>) {
    |table| == 65536 && forall b1: nat :: b1 < 256 ==> RowFilled(table, b1, 256)
  }

  method FillRow(table: array<bv16>, b1: nat)
    requires table.Length == 65536 && b1 < 256
    modifies table
    ensures RowFilled(table[..], b1, 256)
    ensures forall k :: 0 <= k < 256 * b1 ==> table[k] == old(table[k])
  {
    var b2 := 0;
    while b2 < 256
      invariant 0 <= b2 <= 256
      invariant forall k: nat :: k < b2 ==> table[256 * b1 + k] == Entry(b1, k)
      invariant forall k :: 0 <= k < 256 * b1 ==> table[k] == old(table[k])
    {
      table[256 * b1 + b2] := Join16(Bucket(b2 as bv8), Bucket(b1 as bv8));
      b2 := b2 + 1;
    }
  }

  lemma RowStays(before: seq<bv16>, after: seq<bv16>, b1: nat, n: nat)
    requires |before| == |after| == 65536 && b1 < n <= 256
    requires forall k :: 0 <= k < 256 * n && k < 65536 ==> after[k] == before[k]
    requires RowFilled(before, b1, 256)
    ensures RowFilled(after, b1, 256)
  {
  }

  /** `init_count_class16`: the table classifies both bytes of its index. */
  method InitCountClass16() returns (table: array<bv16>)
    ensures fresh(table) && Classifies(table[..])
  {
    table := new bv16[65536](_ => 0);
    var b1 := 0;
    while b1 < 256
      invariant 0 <= b1 <= 256
      invariant forall k: nat :: k < b1 ==> RowFilled(table[..], k, 256)
    {
      ghost var before := table[..];
      FillRow(table, b1);
      forall k: nat | k < b1 ensures RowFilled(table[..], k, 256) {
        RowStays(before, table[..], k, b1);
      }
      b1 := b1 + 1;
    }
  }

  /** Looking up two bytes, read as a little-endian 16-bit number, gives both their buckets. */
  lemma LookupClassifies(table: seq<bv16>, lo: bv8, hi: bv8)
    requires Classifies(table)
    ensures IndexOf(lo, hi) < 65536 && table[IndexOf(lo, hi)] == Join16(Bucket(lo), Bucket(hi))
  {
    ByteIsSmall(lo);
    ByteIsSmall(hi);
    assert RowFilled(table, hi as int, 256);
    assert table[256 * (hi as int) + (lo as int)] == Entry(hi as int, lo as int);
  }

  /** The table index of two bytes read as a little-endian 16-bit number. */
  function IndexOf(lo: bv8, hi: bv8): nat {
    256 * (hi as int) + (lo as int)
  }

  // ---------------------------------------------------------------- classify_counts

  /** Each byte classified on its own. */
  function Bucketed(w: Lanes): Lanes {
    Lanes(Bucket(w.b0), Bucket(w.b1), Bucket(w.b2), Bucket(w.b3), Bucket(w.b4), Bucket(w.b5), Bucket(w.b6),
          Bucket(w.b7))
  }

  function BucketedTrace(trace: seq<Lanes>): (r: seq<Lanes>)
    ensures |r| == |trace|
  {
    seq(|trace|, i requires 0 <= i < |trace| => Bucketed(trace[i]))
  }

  method LookupPair(table: seq<bv16>, lo: bv8, hi: bv8) returns (lo': bv8, hi': bv8)
    requires Classifies(table)
    ensures lo' == Bucket(lo) && hi' == Bucket(hi)
  {
    LookupClassifies(table, lo, hi);
    var entry := table[IndexOf(lo, hi)];
    Join16Lanes(Bucket(lo), Bucket(hi));
    lo', hi' := (entry & 0xff) as bv8, (entry >> 8) as bv8;
  }

  /** The four 16-bit parts of a word, each looked up. */
  method LookupWord(table: seq<bv16>, w: bv64) returns (w': bv64)
    requires Classifies(table)
    ensures LanesOf(w') == Bucketed(LanesOf(w))
  {
    var b := LanesOf(w);
    var b0, b1 := LookupPair(table, b.b0, b.b1);
    var b2, b3 := LookupPair(table, b.b2, b.b3);
    var b4, b5 := LookupPair(table, b.b4, b.b5);
    var b6, b7 := LookupPair(table, b.b6, b.b7);
    var r := Lanes(b0, b1, b2, b3, b4, b5, b6, b7);
    JoinedLanes(r);
    w' := Join(r);
  }

  /** `classify_counts`: skipping zero words and looking bytes up in pairs classifies every byte. */
  method ClassifyCounts(mem: array<bv64>, table: seq<bv16>)
    requires Classifies(table)
    modifies mem
    ensures AllLanes(mem[..]) == BucketedTrace(AllLanes(old(mem[..])))
  {
    ghost var before := AllLanes(mem[..]);
    var i := 0;
    while i < mem.Length
      invariant 0 <= i <= mem.Length
      invariant forall k :: i <= k < mem.Length ==> LanesOf(mem[k]) == before[k]
      invariant forall k :: 0 <= k < i ==> LanesOf(mem[k]) == BucketedTrace(before)[k]
    {
      if mem[i] != 0 {
        mem[i] := LookupWord(table, mem[i]);
      } else {
        LanesOfZero(mem[i]);
        assert Bucketed(ZERO_LANES) == ZERO_LANES;
      }
      i := i + 1;
    }
    assert AllLanes(mem[..]) == BucketedTrace(before);
  }

  // ---------------------------------------------------------------- what the result means for raw hit counts

  const ALL_ONES: Lanes := Lanes(0xff, 0xff, 0xff, 0xff, 0xff, 0xff, 0xff, 0xff)

  function BucketedAll(traces: seq<seq<Lanes>>): (r: seq<seq<Lanes>>)
    ensures |r| == |traces|
    ensures forall t :: 0 <= t < |traces| ==> r[t] == BucketedTrace(traces[t])
  {
    if traces == [] then [] else BucketedAll(traces[..|traces| - 1]) + [BucketedTrace(traces[|traces| - 1])]
  }

  /** What is still unseen in one byte after these hit counts. */
  function Unseen(counts: seq<bv8>): bv8 {
    if counts == [] then 0xff else Clear(Unseen(counts[..|counts| - 1]), Bucket(counts[|counts| - 1]))
  }

  lemma BucketsAreDisjointBits(x: bv8, h: bv8, v: bv8)
    ensures IsNewBit(Bucket(x), Clear(v, Bucket(h))) <==> IsNewBit(Bucket(x), v) && Bucket(h) != Bucket(x)
    ensures Clear(v, Bucket(h)) == 0xff <==> v == 0xff && h == 0
    ensures Bucket(x) != 0 <==> x != 0
  {
  }

  lemma AllOnesHasAll(b: bv8)
    ensures IsNewBit(b, 0xff) <==> b != 0
  {
    assert b & 0xff == b;
  }

  ghost predicate AllZero(counts: seq<bv8>) {
    forall h :: h in counts ==> h == 0
  }

  /** No count falls into the range of `x`. */
  ghost predicate OtherBuckets(counts: seq<bv8>, x: bv8) {
    forall h :: h in counts ==> !IsSameRange(h, x)
  }

  lemma OneMoreCount(init: seq<bv8>, last: bv8, x: bv8)
    ensures AllZero(init + [last]) <==> AllZero(init) && last == 0
    ensures OtherBuckets(init + [last], x) <==> OtherBuckets(init, x) && !IsSameRange(last, x)
  {
    var counts := init + [last];
    assert last in counts;
    assert forall h :: h in init ==> h in counts;
  }

  /** A bucket of a byte is unseen exactly when no earlier count fell into it. */
  lemma {:induction false} UnseenMeans(counts: seq<bv8>, x: bv8)
    ensures Unseen(counts) == 0xff <==> AllZero(counts)
    ensures IsNewBit(Bucket(x), Unseen(counts)) <==> x != 0 && OtherBuckets(counts, x)
  {
    if counts == [] {
      AllOnesHasAll(Bucket(x));
      BucketsAreDisjointBits(x, x, 0xff);
    } else {
      var init, last := counts[..|counts| - 1], counts[|counts| - 1];
      assert counts == init + [last];
      OneMoreCount(init, last, x);
      UnseenMeans(init, x);
      BucketsAreDisjointBits(x, last, Unseen(init));
      BucketMeans(last, x);
    }
  }

  /** The raw counts of one byte over a run. */
  ghost function Column(raws: seq<seq<Lanes>>, i: nat, k: nat): seq<bv8>
    requires k < 8 && forall t :: 0 <= t < |raws| ==> i < |raws[t]|
  {
    seq(|raws|, t requires 0 <= t < |raws| => raws[t][i].Lane(k))
  }

  ghost predicate SameLength(raws: seq<seq<Lanes>>, n: nat) {
    forall t :: 0 <= t < |raws| ==> |raws[t]| == n
  }

  /** The map after a run, from everything unseen. */
  ghost function MapAfter(raws: seq<seq<Lanes>>, n: nat): (r: seq<Lanes>)
    requires SameLength(raws, n)
    ensures |r| == n
  {
    BucketedHaveLength(raws, n);
    AfterRun(seq(n, _ => ALL_ONES), BucketedAll(raws))
  }

  lemma BucketedHaveLength(raws: seq<seq<Lanes>>, n: nat)
    requires SameLength(raws, n)
    ensures forall t :: t in BucketedAll(raws) ==> |t| == n
  {
  }

  lemma LastRun(raws: seq<seq<Lanes>>, n: nat, i: nat)
    requires SameLength(raws, n) && i < n && raws != []
    ensures var init, last := raws[..|raws| - 1], raws[|raws| - 1];
      SameLength(init, n) && MapAfter(raws, n)[i] == ClearedWord(MapAfter(init, n)[i], Bucketed(last[i]))
  {
    var init, last := raws[..|raws| - 1], raws[|raws| - 1];
    BucketedHaveLength(raws, n);
    AfterRunStep(seq(n, _ => ALL_ONES), BucketedAll(raws), i);
    assert BucketedAll(raws)[..|raws| - 1] == BucketedAll(init);
    assert BucketedAll(raws)[|raws| - 1] == BucketedTrace(last);
  }

  lemma LastCount(raws: seq<seq<Lanes>>, n: nat, i: nat, k: nat)
    requires SameLength(raws, n) && i < n && k < 8 && raws != []
    ensures var init, last := raws[..|raws| - 1], raws[|raws| - 1];
      SameLength(init, n) && Unseen(Column(raws, i, k)) == Clear(Unseen(Column(init, i, k)), Bucket(last[i].Lane(k)))
  {
    assert Column(raws, i, k)[..|raws| - 1] == Column(raws[..|raws| - 1], i, k);
  }

  lemma BucketedLane(w: Lanes, k: nat)
    requires k < 8
    ensures Bucketed(w).Lane(k) == Bucket(w.Lane(k))
  {
  }

  lemma {:induction false} MapIsUnseen(raws: seq<seq<Lanes>>, n: nat, i: nat, k: nat)
    requires SameLength(raws, n) && i < n && k < 8
    ensures MapAfter(raws, n)[i].Lane(k) == Unseen(Column(raws, i, k))
  {
    if raws != [] {
      var init, last := raws[..|raws| - 1], raws[|raws| - 1];
      LastRun(raws, n, i);
      LastCount(raws, n, i, k);
      MapIsUnseen(init, n, i, k);
      ClearedLane(MapAfter(init, n)[i], Bucketed(last[i]), k);
      BucketedLane(last[i], k);
    }
  }

  /** Some edge is hit that no earlier execution of the run hit. */
  ghost predicate HitsNewEdge(raws: seq<seq<Lanes>>, raw: seq<Lanes>, n: nat)
    requires SameLength(raws, n) && |raw| == n
  {
    exists i: nat, k: nat :: i < n && k < 8 && IsNewEdge(raws, raw, n, i, k)
  }

  ghost predicate IsNewEdge(raws: seq<seq<Lanes>>, raw: seq<Lanes>, n: nat, i: nat, k: nat)
    requires SameLength(raws, n) && |raw| == n && i < n && k < 8
  {
    raw[i].Lane(k) != 0 && AllZero(Column(raws, i, k))
  }

  /** Some edge is hit a number of times in a bucket that no earlier execution reached for it. */
  ghost predicate HitsNewBucket(raws: seq<seq<Lanes>>, raw: seq<Lanes>, n: nat)
    requires SameLength(raws, n) && |raw| == n
  {
    exists i: nat, k: nat :: i < n && k < 8 && IsNewBucket(raws, raw, n, i, k)
  }

  ghost predicate IsNewBucket(raws: seq<seq<Lanes>>, raw: seq<Lanes>, n: nat, i: nat, k: nat)
    requires SameLength(raws, n) && |raw| == n && i < n && k < 8
  {
    raw[i].Lane(k) != 0 && OtherBuckets(Column(raws, i, k), raw[i].Lane(k))
  }

  lemma ByteMeaning(raws: seq<seq<Lanes>>, raw: seq<Lanes>, n: nat, i: nat, k: nat)
    requires SameLength(raws, n) && |raw| == n && i < n && k < 8
    ensures var cur, vir := BucketedTrace(raw)[i].Lane(k), MapAfter(raws, n)[i].Lane(k);
      && (IsPristineHit(cur, vir) <==> IsNewEdge(raws, raw, n, i, k))
      && (IsNewBit(cur, vir) <==> IsNewBucket(raws, raw, n, i, k))
  {
    MapIsUnseen(raws, n, i, k);
    UnseenMeans(Column(raws, i, k), raw[i].Lane(k));
    BucketsAreDisjointBits(raw[i].Lane(k), 0, 0);
  }

  /**
    The coverage feedback in terms of hit counts: after any run of executions,
    `has_new_bits` on the classified trace of the next one returns 2 exactly when
    an edge is hit that was never hit before, 1 exactly when not so but some edge's
    hit count falls into a bucket new for it, and 0 otherwise.
  */
  lemma CoverageMeaning(raws: seq<seq<Lanes>>, raw: seq<Lanes>, n: nat)
    requires SameLength(raws, n) && |raw| == n
    ensures Verdict(BucketedTrace(raw), MapAfter(raws, n), n)
         == if HitsNewEdge(raws, raw, n) then 2 else if HitsNewBucket(raws, raw, n) then 1 else 0
  {
    var cur, vir := BucketedTrace(raw), MapAfter(raws, n);
    forall i: nat, k: nat | i < n && k < 8
      ensures IsPristineHit(cur[i].Lane(k), vir[i].Lane(k)) <==> IsNewEdge(raws, raw, n, i, k)
      ensures IsNewBit(cur[i].Lane(k), vir[i].Lane(k)) <==> IsNewBucket(raws, raw, n, i, k)
    {
      ByteMeaning(raws, raw, n, i, k);
    }
    assert SomePristine(cur, vir, n) <==> HitsNewEdge(raws, raw, n) by {
      if HitsNewEdge(raws, raw, n) {
        var i: nat, k: nat :| i < n && k < 8 && IsNewEdge(raws, raw, n, i, k);
        assert PristineWithin(cur[i], vir[i]);
      }
    }
    assert SomeNewBit(cur, vir, n) <==> HitsNewBucket(raws, raw, n) by {
      if HitsNewBucket(raws, raw, n) {
        var i: nat, k: nat :| i < n && k < 8 && IsNewBucket(raws, raw, n, i, k);
        assert NewBitWithin(cur[i], vir[i]);
      }
    }
  }
}
