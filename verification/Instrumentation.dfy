/**
  The memory shared by the instrumented program and the fuzzer: the edge counters and,
  behind them, five 64-bit numbers for each target, written by the code the compiler
  pass inserts into every basic block and read back after the run.
*/
module Instrumentation {
  import opened Buffers
  import opened Redundancy

  const MAP_SIZE: nat := 65536
  const TARGET_MAX_COUNT: nat := 64
  const INT32_MAX: nat := 0x7fff_ffff
  const SHM_SIZE: nat := 68096
  const WORD64: nat := 0x1_0000_0000_0000_0000

  // ---------------------------------------------------------------- 64-bit words in memory

  lemma WordSize()
    ensures Size(8) == WORD64
  {
    assert Size(2) == 256 * Size(1);
    assert Size(4) == 256 * Size(3) == 0x1_0000_0000;
    assert Size(6) == 256 * Size(5);
  }

  function Load(mem: seq<u8>, addr: nat): nat
    requires addr + 8 <= |mem|
  {
    Value(mem[addr..addr + 8])
  }

  function Store(mem: seq<u8>, addr: nat, v: nat): (r: seq<u8>)
    requires addr + 8 <= |mem|
    ensures |r| == |mem|
  {
    Overwritten(mem, addr, Bytes(8, v % WORD64))
  }

  lemma LoadStored(mem: seq<u8>, addr: nat, v: nat)
    requires addr + 8 <= |mem|
    ensures Load(Store(mem, addr, v), addr) == v % WORD64
  {
    var bytes := Bytes(8, v % WORD64);
    assert Store(mem, addr, v)[addr..addr + 8] == bytes;
    WordSize();
    BytesHaveValue(8, v % WORD64);
  }

  lemma LoadElsewhere(mem: seq<u8>, addr: nat, v: nat, other: nat)
    requires addr + 8 <= |mem| && other + 8 <= |mem| && (addr + 8 <= other || other + 8 <= addr)
    ensures Load(Store(mem, addr, v), other) == Load(mem, other)
  {
    assert Store(mem, addr, v)[other..other + 8] == mem[other..other + 8];
  }

  method StoreWord(mem: array<u8>, addr: nat, v: nat)
    requires addr + 8 <= mem.Length
    modifies mem
    ensures mem[..] == Store(old(mem[..]), addr, v)
  {
    var bytes := Bytes(8, v % WORD64);
    forall k | 0 <= k < 8 {
      mem[addr + k] := bytes[k];
    }
  }

  // ---------------------------------------------------------------- layout

  datatype Field = DfCount | DfSum | BtCount | BtSum | MinDist
  {
    function Offset(): nat {
      match this
      case DfCount => 0
      case DfSum => 8
      case BtCount => 16
      case BtSum => 24
      case MinDist => 32
    }
  }

  function Addr(i: nat, f: Field): nat {
    MAP_SIZE + 40 * i + f.Offset()
  }

  /** No number overlaps another target's, another of its own target, or an edge counter. */
  lemma FieldsAreApart(i: nat, f: Field, j: nat, g: Field)
    requires i < TARGET_MAX_COUNT && j < TARGET_MAX_COUNT && (i != j || f != g)
    ensures MAP_SIZE <= Addr(i, f) && Addr(i, f) + 8 <= SHM_SIZE
    ensures Addr(i, f) + 8 <= Addr(j, g) || Addr(j, g) + 8 <= Addr(i, f)
  {
  }

  function Get(mem: seq<u8>, i: nat, f: Field): nat
    requires |mem| == SHM_SIZE && i < TARGET_MAX_COUNT
  {
    Load(mem, Addr(i, f))
  }

  function Set(mem: seq<u8>, i: nat, f: Field, v: nat): (r: seq<u8>)
    requires |mem| == SHM_SIZE && i < TARGET_MAX_COUNT
    ensures |r| == |mem|
  {
    Store(mem, Addr(i, f), v)
  }

  lemma GetAfterSet(mem: seq<u8>, i: nat, f: Field, v: nat, j: nat, g: Field)
    requires |mem| == SHM_SIZE && i < TARGET_MAX_COUNT && j < TARGET_MAX_COUNT
    ensures Get(Set(mem, i, f, v), j, g) == if i == j && f == g then v % WORD64 else Get(mem, j, g)
  {
    if i == j && f == g {
      LoadStored(mem, Addr(i, f), v);
    } else {
      FieldsAreApart(i, f, j, g);
      LoadElsewhere(mem, Addr(i, f), v, Addr(j, g));
    }
  }

  lemma EdgesAfterSet(mem: seq<u8>, i: nat, f: Field, v: nat)
    requires |mem| == SHM_SIZE && i < TARGET_MAX_COUNT
    ensures Set(mem, i, f, v)[..MAP_SIZE] == mem[..MAP_SIZE]
  {
  }

  // ---------------------------------------------------------------- the inserted code

  /** A basic block: its random location and its distances, negative when it has none. */
  datatype Block = Block(loc: nat, df: seq<int>, bt: seq<int>)

  predicate IsDistance(d: int) { -1 <= d <= INT32_MAX }

  ghost predicate IsBlock(b: Block, targets: nat) {
    && b.loc < MAP_SIZE && |b.df| == |b.bt| == targets
    && forall i :: 0 <= i < targets ==> IsDistance(b.df[i]) && IsDistance(b.bt[i])
  }

  /** A 64-bit number as the signed comparison sees it. */
  function Signed(v: nat): int {
    if v < WORD64 / 2 then v else v - WORD64
  }

  function SignedMin(v: nat, d: nat): nat {
    if Signed(v) < d then v else d
  }

  /** Load, add, store. */
  function AddTo(mem: seq<u8>, i: nat, f: Field, d: nat): (r: seq<u8>)
    requires |mem| == SHM_SIZE && i < TARGET_MAX_COUNT
    ensures |r| == |mem|
  {
    Set(mem, i, f, Get(mem, i, f) + d)
  }

  /** Load, compare, store the lesser. */
  function LowerTo(mem: seq<u8>, i: nat, d: nat): (r: seq<u8>)
    requires |mem| == SHM_SIZE && i < TARGET_MAX_COUNT
    ensures |r| == |mem|
  {
    Set(mem, i, MinDist, SignedMin(Get(mem, i, MinDist), d))
  }

  function AfterDf(mem: seq<u8>, i: nat, d: nat): (r: seq<u8>)
    requires |mem| == SHM_SIZE && i < TARGET_MAX_COUNT
    ensures |r| == |mem|
  {
    LowerTo(AddTo(AddTo(mem, i, DfCount, 1), i, DfSum, d), i, d)
  }

  function AfterBt(mem: seq<u8>, i: nat, d: nat): (r: seq<u8>)
    requires |mem| == SHM_SIZE && i < TARGET_MAX_COUNT
    ensures |r| == |mem|
  {
    AddTo(AddTo(mem, i, BtCount, 1), i, BtSum, d)
  }

  function AfterTarget(mem: seq<u8>, i: nat, df: int, bt: int): (r: seq<u8>)
    requires |mem| == SHM_SIZE && i < TARGET_MAX_COUNT
    ensures |r| == |mem|
  {
    if df >= 0 then AfterDf(mem, i, df) else if bt >= 0 then AfterBt(mem, i, bt) else mem
  }

  function AfterTargets(mem: seq<u8>, b: Block, n: nat): (r: seq<u8>)
    requires |mem| == SHM_SIZE && n <= |b.df| == |b.bt| <= TARGET_MAX_COUNT
    ensures |r| == |mem|
  {
    if n == 0 then mem else AfterTarget(AfterTargets(mem, b, n - 1), n - 1, b.df[n - 1], b.bt[n - 1])
  }

  lemma MapIsPower()
    ensures Shl(1, 16) == MAP_SIZE
  {
    assert Shl(1, 4) == 16;
    assert Shl(1, 8) == 2 * Shl(1, 7) == 256;
    assert Shl(1, 12) == 2 * Shl(1, 11) == 4096;
  }

  /** Bits that neither number has do not appear in their exclusive or. */
  lemma {:induction false} XorStaysNarrow(n: nat, m: nat, a: nat, b: nat)
    requires a < Shl(1, n) && b < Shl(1, n)
    ensures XorBits(n + m, a, b) == XorBits(n, a, b)
  {
    if n > 0 {
      XorStep(n, a, b);
      XorStep(n + m, a, b);
      XorStaysNarrow(n - 1, m, a / 2, b / 2);
    } else if m > 0 {
      XorStaysNarrow(0, m - 1, 0, 0);
    }
  }

  /**
    The counter of the edge from the previous location: the exclusive or of two 32-bit
    numbers, in the map because both of them are.
  */
  function Edge(prev: nat, loc: nat): (e: nat)
    requires prev < MAP_SIZE && loc < MAP_SIZE
    ensures e < MAP_SIZE
  {
    MapIsPower();
    XorStaysNarrow(16, 16, prev, loc);
    XorBits(32, prev, loc)
  }

  /** From previous location 0 the index is the location itself: it is in the map only if the location is. */
  lemma EdgeFromZero(loc: nat)
    requires loc < Shl(1, 32)
    ensures XorBits(32, 0, loc) == loc
  {
    XorBitsCommute(32, 0, loc);
    XorWithZero(32, loc);
  }

  /** Bit by bit the index is where the two locations differ; so from two places one block has two edges. */
  lemma EdgesTellApart(prev: nat, prev': nat, loc: nat)
    requires prev < MAP_SIZE && prev' < MAP_SIZE && loc < MAP_SIZE
    ensures forall k: nat :: k < 32 ==>
              BitAt(Edge(prev, loc), k) == if BitAt(prev, k) == BitAt(loc, k) then 0 else 1
    ensures prev != prev' ==> Edge(prev, loc) != Edge(prev', loc) && Edge(loc, prev) != Edge(loc, prev')
  {
    forall k: nat | k < 32 ensures BitAt(Edge(prev, loc), k) == if BitAt(prev, k) == BitAt(loc, k) then 0 else 1 {
      XorByBits(32, prev, loc, k);
    }
    ShlGrows32();
    XorBitsTwice(32, prev, loc);
    XorBitsTwice(32, prev', loc);
    XorBitsCommute(32, prev, loc);
    XorBitsCommute(32, prev', loc);
  }

  lemma ShlGrows32()
    ensures MAP_SIZE < Shl(1, 32)
  {
    MapIsPower();
    assert Shl(1, 18) == 2 * Shl(1, 17) == 4 * Shl(1, 16);
    assert Shl(1, 22) == 4 * Shl(1, 20) == 16 * Shl(1, 18);
    assert Shl(1, 26) == 4 * Shl(1, 24) == 16 * Shl(1, 22);
    assert Shl(1, 30) == 4 * Shl(1, 28) == 16 * Shl(1, 26);
  }

  function Incremented(c: u8): u8 {
    var n: int := c;
    (n + 1) % 256
  }

  function AfterEdge(mem: seq<u8>, e: nat): (r: seq<u8>)
    requires |mem| == SHM_SIZE && e < MAP_SIZE
    ensures |r| == |mem|
  {
    mem[e := Incremented(mem[e])]
  }

  function AfterBlock(mem: seq<u8>, prev: nat, b: Block): (r: seq<u8>)
    requires |mem| == SHM_SIZE && |b.df| == |b.bt| <= TARGET_MAX_COUNT
    requires prev < MAP_SIZE && b.loc < MAP_SIZE
    ensures |r| == |mem|
  {
    AfterTargets(AfterEdge(mem, Edge(prev, b.loc)), b, |b.df|)
  }

  method AddToField(mem: array<u8>, i: nat, f: Field, d: nat)
    requires mem.Length == SHM_SIZE && i < TARGET_MAX_COUNT
    modifies mem
    ensures mem[..] == AddTo(old(mem[..]), i, f, d)
  {
    StoreWord(mem, Addr(i, f), Load(mem[..], Addr(i, f)) + d);
  }

  method UpdateMinimum(mem: array<u8>, i: nat, d: nat)
    requires mem.Length == SHM_SIZE && i < TARGET_MAX_COUNT
    modifies mem
    ensures mem[..] == LowerTo(old(mem[..]), i, d)
  {
    StoreWord(mem, Addr(i, MinDist), SignedMin(Load(mem[..], Addr(i, MinDist)), d));
  }

  method RunTargetCode(mem: array<u8>, i: nat, df: int, bt: int)
    requires mem.Length == SHM_SIZE && i < TARGET_MAX_COUNT
    modifies mem
    ensures mem[..] == AfterTarget(old(mem[..]), i, df, bt)
  {
    if df >= 0 {
      AddToField(mem, i, DfCount, 1);
      AddToField(mem, i, DfSum, df);
      UpdateMinimum(mem, i, df);
    } else if bt >= 0 {
      AddToField(mem, i, BtCount, 1);
      AddToField(mem, i, BtSum, bt);
    }
  }

  /** What the pass inserts into one basic block. */
  method RunBlock(mem: array<u8>, prev: nat, b: Block) returns (prev': nat)
    requires mem.Length == SHM_SIZE && |b.df| == |b.bt| <= TARGET_MAX_COUNT
    requires prev < MAP_SIZE && b.loc < MAP_SIZE
    modifies mem
    ensures mem[..] == AfterBlock(old(mem[..]), prev, b)
    ensures prev' == b.loc / 2
  {
    ghost var before := mem[..];
    var e := Edge(prev, b.loc);
    mem[e] := Incremented(mem[e]);
    prev' := b.loc / 2;
    ghost var counted := mem[..];
    assert counted == AfterEdge(before, e);
    var i := 0;
    while i < |b.df|
      invariant 0 <= i <= |b.df|
      invariant mem[..] == AfterTargets(counted, b, i)
    {
      RunTargetCode(mem, i, b.df[i], b.bt[i]);
      i := i + 1;
    }
  }

  // ---------------------------------------------------------------- what one block does to each number

  /** The five numbers of a target. */
  datatype Numbers = Numbers(dfCount: nat, dfSum: nat, btCount: nat, btSum: nat, min: nat)

  function NumbersOf(mem: seq<u8>, i: nat): Numbers
    requires |mem| == SHM_SIZE && i < TARGET_MAX_COUNT
  {
    Numbers(Get(mem, i, DfCount), Get(mem, i, DfSum), Get(mem, i, BtCount), Get(mem, i, BtSum), Get(mem, i, MinDist))
  }

  function Advanced(n: Numbers, df: int, bt: int): Numbers {
    if df >= 0 then
      n.(dfCount := (n.dfCount + 1) % WORD64, dfSum := (n.dfSum + df) % WORD64, min := SignedMin(n.min, df) % WORD64)
    else if bt >= 0 then
      n.(btCount := (n.btCount + 1) % WORD64, btSum := (n.btSum + bt) % WORD64)
    else n
  }

  function With(n: Numbers, f: Field, v: nat): Numbers {
    match f
    case DfCount => n.(dfCount := v)
    case DfSum => n.(dfSum := v)
    case BtCount => n.(btCount := v)
    case BtSum => n.(btSum := v)
    case MinDist => n.(min := v)
  }

  function At(n: Numbers, f: Field): nat {
    match f
    case DfCount => n.dfCount
    case DfSum => n.dfSum
    case BtCount => n.btCount
    case BtSum => n.btSum
    case MinDist => n.min
  }

  /** A store to one field as seen through all numbers. */
  lemma NumbersAfterSet(mem: seq<u8>, i: nat, f: Field, v: nat, j: nat)
    requires |mem| == SHM_SIZE && i < TARGET_MAX_COUNT && j < TARGET_MAX_COUNT
    ensures NumbersOf(Set(mem, i, f, v), j)
         == if i == j then With(NumbersOf(mem, j), f, v % WORD64) else NumbersOf(mem, j)
  {
    GetAfterSet(mem, i, f, v, j, DfCount);
    GetAfterSet(mem, i, f, v, j, DfSum);
    GetAfterSet(mem, i, f, v, j, BtCount);
    GetAfterSet(mem, i, f, v, j, BtSum);
    GetAfterSet(mem, i, f, v, j, MinDist);
  }

  lemma GetIsAt(mem: seq<u8>, i: nat, f: Field)
    requires |mem| == SHM_SIZE && i < TARGET_MAX_COUNT
    ensures Get(mem, i, f) == At(NumbersOf(mem, i), f)
  {
  }

  ghost predicate SameEdges(a: seq<u8>, b: seq<u8>)
    requires |a| == |b| == SHM_SIZE
  {
    a[..MAP_SIZE] == b[..MAP_SIZE]
  }

  lemma NumbersAfterAdd(mem: seq<u8>, i: nat, f: Field, d: nat, j: nat)
    requires |mem| == SHM_SIZE && i < TARGET_MAX_COUNT && j < TARGET_MAX_COUNT
    ensures var n := NumbersOf(mem, j);
      NumbersOf(AddTo(mem, i, f, d), j) == if i == j then With(n, f, (At(n, f) + d) % WORD64) else n
    ensures SameEdges(mem, AddTo(mem, i, f, d))
  {
    GetIsAt(mem, i, f);
    NumbersAfterSet(mem, i, f, Get(mem, i, f) + d, j);
    EdgesAfterSet(mem, i, f, Get(mem, i, f) + d);
  }

  lemma NumbersAfterLower(mem: seq<u8>, i: nat, d: nat, j: nat)
    requires |mem| == SHM_SIZE && i < TARGET_MAX_COUNT && j < TARGET_MAX_COUNT
    ensures var n := NumbersOf(mem, j);
      NumbersOf(LowerTo(mem, i, d), j) == if i == j then n.(min := SignedMin(n.min, d) % WORD64) else n
    ensures SameEdges(mem, LowerTo(mem, i, d))
  {
    NumbersAfterSet(mem, i, MinDist, SignedMin(Get(mem, i, MinDist), d), j);
    EdgesAfterSet(mem, i, MinDist, SignedMin(Get(mem, i, MinDist), d));
  }

  lemma NumbersAfterTwo(mem: seq<u8>, i: nat, f: Field, c: nat, g: Field, d: nat, j: nat)
    requires |mem| == SHM_SIZE && i < TARGET_MAX_COUNT && j < TARGET_MAX_COUNT && f != g
    ensures var n, after := NumbersOf(mem, j), AddTo(AddTo(mem, i, f, c), i, g, d);
      && NumbersOf(after, j)
            == (if i == j then With(With(n, f, (At(n, f) + c) % WORD64), g, (At(n, g) + d) % WORD64) else n)
      && SameEdges(mem, after)
  {
    NumbersAfterAdd(mem, i, f, c, j);
    NumbersAfterAdd(AddTo(mem, i, f, c), i, g, d, j);
  }

  /** Lowering the minimum completes what counting and adding began. */
  lemma LoweringCompletes(n: Numbers, added: seq<u8>, i: nat, d: nat, j: nat)
    requires |added| == SHM_SIZE && i < TARGET_MAX_COUNT && j < TARGET_MAX_COUNT
    requires NumbersOf(added, j)
          == if i == j then With(With(n, DfCount, (At(n, DfCount) + 1) % WORD64), DfSum,
                                 (At(n, DfSum) + d) % WORD64) else n
    ensures NumbersOf(LowerTo(added, i, d), j) == if i == j then Advanced(n, d, -1) else n
  {
    NumbersAfterLower(added, i, d, j);
    AdvancedInSteps(n, d);
  }

  lemma AdvancedInSteps(n: Numbers, d: nat)
    ensures var counted := With(With(n, DfCount, (At(n, DfCount) + 1) % WORD64), DfSum, (At(n, DfSum) + d) % WORD64);
      counted.min == n.min && counted.(min := SignedMin(n.min, d) % WORD64) == Advanced(n, d, -1)
  {
  }

  lemma NumbersAfterDf(mem: seq<u8>, i: nat, d: nat, j: nat)
    requires |mem| == SHM_SIZE && i < TARGET_MAX_COUNT && j < TARGET_MAX_COUNT
    ensures NumbersOf(AfterDf(mem, i, d), j) == if i == j then Advanced(NumbersOf(mem, i), d, -1) else NumbersOf(mem, j)
    ensures SameEdges(mem, AfterDf(mem, i, d))
  {
    NumbersAfterTwo(mem, i, DfCount, 1, DfSum, d, j);
    var added := AddTo(AddTo(mem, i, DfCount, 1), i, DfSum, d);
    LoweringCompletes(NumbersOf(mem, j), added, i, d, j);
    NumbersAfterLower(added, i, d, j);
  }

  lemma NumbersAfterBt(mem: seq<u8>, i: nat, d: nat, j: nat)
    requires |mem| == SHM_SIZE && i < TARGET_MAX_COUNT && j < TARGET_MAX_COUNT
    ensures NumbersOf(AfterBt(mem, i, d), j) == if i == j then Advanced(NumbersOf(mem, i), -1, d) else NumbersOf(mem, j)
    ensures SameEdges(mem, AfterBt(mem, i, d))
  {
    NumbersAfterTwo(mem, i, BtCount, 1, BtSum, d, j);
  }

  lemma NumbersAfterTarget(mem: seq<u8>, i: nat, df: int, bt: int, j: nat)
    requires |mem| == SHM_SIZE && i < TARGET_MAX_COUNT && j < TARGET_MAX_COUNT
    ensures NumbersOf(AfterTarget(mem, i, df, bt), j)
         == if i == j then Advanced(NumbersOf(mem, i), df, bt) else NumbersOf(mem, j)
    ensures SameEdges(mem, AfterTarget(mem, i, df, bt))
  {
    if df >= 0 {
      NumbersAfterDf(mem, i, df, j);
    } else if bt >= 0 {
      NumbersAfterBt(mem, i, bt, j);
    }
  }

  lemma {:induction false} NumbersAfterTargets(mem: seq<u8>, b: Block, n: nat, j: nat)
    requires |mem| == SHM_SIZE && n <= |b.df| == |b.bt| <= TARGET_MAX_COUNT && j < TARGET_MAX_COUNT
    ensures NumbersOf(AfterTargets(mem, b, n), j)
         == if j < n then Advanced(NumbersOf(mem, j), b.df[j], b.bt[j]) else NumbersOf(mem, j)
    ensures SameEdges(mem, AfterTargets(mem, b, n))
  {
    if n > 0 {
      var i := n - 1;
      var before := AfterTargets(mem, b, i);
      NumbersAfterTargets(mem, b, i, j);
      NumbersAfterTarget(before, i, b.df[i], b.bt[i], j);
      LastTarget(mem, b, n, i);
    }
  }

  lemma LastTarget(mem: seq<u8>, b: Block, n: nat, i: nat)
    requires |mem| == SHM_SIZE && n == i + 1 && n <= |b.df| == |b.bt| <= TARGET_MAX_COUNT
    ensures AfterTargets(mem, b, n) == AfterTarget(AfterTargets(mem, b, i), i, b.df[i], b.bt[i])
  {
  }

  lemma NumbersAfterEdge(mem: seq<u8>, e: nat, j: nat)
    requires |mem| == SHM_SIZE && e < MAP_SIZE && j < TARGET_MAX_COUNT
    ensures NumbersOf(AfterEdge(mem, e), j) == NumbersOf(mem, j)
  {
    var after := AfterEdge(mem, e);
    forall f: Field ensures Get(after, j, f) == Get(mem, j, f) {
      var a := Addr(j, f);
      assert after[a..a + 8] == mem[a..a + 8];
    }
  }

  lemma BlockAdvances(mem: seq<u8>, prev: nat, b: Block, j: nat)
    requires |mem| == SHM_SIZE && |b.df| == |b.bt| <= TARGET_MAX_COUNT && j < TARGET_MAX_COUNT
    requires prev < MAP_SIZE && b.loc < MAP_SIZE
    ensures NumbersOf(AfterBlock(mem, prev, b), j)
         == if j < |b.df| then Advanced(NumbersOf(mem, j), b.df[j], b.bt[j]) else NumbersOf(mem, j)
    ensures AfterBlock(mem, prev, b)[..MAP_SIZE] == AfterEdge(mem, Edge(prev, b.loc))[..MAP_SIZE]
  {
    var counted := AfterEdge(mem, Edge(prev, b.loc));
    NumbersAfterEdge(mem, Edge(prev, b.loc), j);
    NumbersAfterTargets(counted, b, |b.df|, j);
  }

  // ---------------------------------------------------------------- whole executions

  ghost predicate IsTrace(trace: seq<Block>, targets: nat) {
    targets <= TARGET_MAX_COUNT && forall k :: 0 <= k < |trace| ==> IsBlock(trace[k], targets)
  }

  /**
    The location seen as previous after the trace.  Before the first block it is `start`: 0, or what
    a process inherits when its fork server was started late.
  */
  function PrevLoc(start: nat, trace: seq<Block>): (prev: nat)
    requires start < MAP_SIZE && forall k :: 0 <= k < |trace| ==> trace[k].loc < MAP_SIZE
    ensures prev < MAP_SIZE
  {
    if trace == [] then start else trace[|trace| - 1].loc / 2
  }

  ghost function AfterTrace(mem: seq<u8>, start: nat, trace: seq<Block>, targets: nat): (r: seq<u8>)
    requires |mem| == SHM_SIZE && start < MAP_SIZE && IsTrace(trace, targets)
    ensures |r| == |mem|
  {
    if trace == [] then mem
    else
      var init := trace[..|trace| - 1];
      AfterBlock(AfterTrace(mem, start, init, targets), PrevLoc(start, init), trace[|trace| - 1])
  }

  /** The depth-first distances to a target that the trace meets, in order. */
  ghost function DfMet(trace: seq<Block>, targets: nat, i: nat): seq<nat>
    requires IsTrace(trace, targets) && i < targets
  {
    if trace == [] then []
    else
      var b := trace[|trace| - 1];
      DfMet(trace[..|trace| - 1], targets, i) + if b.df[i] >= 0 then [b.df[i]] else []
  }

  /** The backtrace distances met in blocks without a depth-first distance. */
  ghost function BtMet(trace: seq<Block>, targets: nat, i: nat): seq<nat>
    requires IsTrace(trace, targets) && i < targets
  {
    if trace == [] then []
    else
      var b := trace[|trace| - 1];
      BtMet(trace[..|trace| - 1], targets, i) + if b.df[i] < 0 && b.bt[i] >= 0 then [b.bt[i]] else []
  }

  /** How often the trace crosses an edge. */
  ghost function Crossings(start: nat, trace: seq<Block>, e: nat): nat
    requires start < MAP_SIZE && forall k :: 0 <= k < |trace| ==> trace[k].loc < MAP_SIZE
  {
    if trace == [] then 0
    else
      var init := trace[..|trace| - 1];
      Crossings(start, init, e) + if Edge(PrevLoc(start, init), trace[|trace| - 1].loc) == e then 1 else 0
  }

  /** The block at `k` is reached over this edge: from the block before, at half its location, or from the start. */
  ghost predicate CrossesAt(start: nat, trace: seq<Block>, e: nat, k: nat)
    requires start < MAP_SIZE && forall k :: 0 <= k < |trace| ==> trace[k].loc < MAP_SIZE
  {
    k < |trace| && Edge(if k == 0 then start else trace[k - 1].loc / 2, trace[k].loc) == e
  }

  lemma {:induction false} CrossingsCount(start: nat, trace: seq<Block>, e: nat)
    requires start < MAP_SIZE && forall k :: 0 <= k < |trace| ==> trace[k].loc < MAP_SIZE
    ensures Crossings(start, trace, e) == |CrossedAt(start, trace, e)|
  {
    if trace != [] {
      CrossingsCount(start, trace[..|trace| - 1], e);
      LastCrossing(start, trace, e, |trace| - 1);
    }
  }

  ghost function CrossedAt(start: nat, trace: seq<Block>, e: nat): set<nat>
    requires start < MAP_SIZE && forall k :: 0 <= k < |trace| ==> trace[k].loc < MAP_SIZE
  {
    set k: nat | k < |trace| && CrossesAt(start, trace, e, k)
  }

  lemma LastCrossing(start: nat, trace: seq<Block>, e: nat, last: nat)
    requires start < MAP_SIZE && forall k :: 0 <= k < |trace| ==> trace[k].loc < MAP_SIZE
    requires |trace| == last + 1
    ensures |CrossedAt(start, trace, e)|
         == |CrossedAt(start, trace[..last], e)| + if CrossesAt(start, trace, e, last) then 1 else 0
  {
    var init := trace[..last];
    var before, all := CrossedAt(start, init, e), CrossedAt(start, trace, e);
    forall k: nat | k < last ensures CrossesAt(start, trace, e, k) <==> CrossesAt(start, init, e, k) {
    }
    assert all == if CrossesAt(start, trace, e, last) then before + {last} else before;
  }

  function Sum(s: seq<nat>): nat {
    if s == [] then 0 else Sum(s[..|s| - 1]) + s[|s| - 1]
  }

  function Least(s: seq<nat>): nat {
    if s == [] then INT32_MAX else Min(Least(s[..|s| - 1]), s[|s| - 1])
  }

  /** `Least` is a lower bound and attained, or INT32_MAX when there is nothing below it. */
  lemma {:induction false} LeastIsLeast(s: seq<nat>)
    ensures Least(s) <= INT32_MAX
    ensures forall k :: 0 <= k < |s| ==> Least(s) <= s[k]
    ensures Least(s) == INT32_MAX || Least(s) in s
  {
    if s != [] {
      LeastIsLeast(s[..|s| - 1]);
    }
  }

  ghost function Expected(trace: seq<Block>, targets: nat, i: nat): Numbers
    requires IsTrace(trace, targets) && i < targets
  {
    var df, bt := DfMet(trace, targets, i), BtMet(trace, targets, i);
    Numbers(|df| % WORD64, Sum(df) % WORD64, |bt| % WORD64, Sum(bt) % WORD64, Least(df))
  }

  lemma AddingWraps(a: nat, b: nat)
    ensures (a % WORD64 + b) % WORD64 == (a + b) % WORD64
  {
  }

  lemma SumAppends(s: seq<nat>, d: nat)
    ensures Sum(s + [d]) == Sum(s) + d && Least(s + [d]) == Min(Least(s), d)
  {
    assert (s + [d])[..|s|] == s;
  }

  lemma SignedMinimum(s: seq<nat>, d: nat)
    requires d <= INT32_MAX
    ensures SignedMin(Least(s), d) % WORD64 == Min(Least(s), d)
  {
    LeastIsLeast(s);
  }

  lemma LastMet(trace: seq<Block>, targets: nat, i: nat)
    requires IsTrace(trace, targets) && i < targets && trace != []
    ensures var init, b := trace[..|trace| - 1], trace[|trace| - 1];
      && IsTrace(init, targets)
      && DfMet(trace, targets, i)
            == (if b.df[i] >= 0 then DfMet(init, targets, i) + [b.df[i]] else DfMet(init, targets, i))
      && BtMet(trace, targets, i)
            == (if b.df[i] < 0 && b.bt[i] >= 0 then BtMet(init, targets, i) + [b.bt[i]] else BtMet(init, targets, i))
  {
  }

  ghost predicate DfIs(n: Numbers, df: seq<nat>) {
    n.dfCount == |df| % WORD64 && n.dfSum == Sum(df) % WORD64 && n.min == Least(df)
  }

  ghost predicate BtIs(n: Numbers, bt: seq<nat>) {
    n.btCount == |bt| % WORD64 && n.btSum == Sum(bt) % WORD64
  }

  lemma DfAdvances(n: Numbers, df: seq<nat>, d: nat)
    requires DfIs(n, df) && d <= INT32_MAX
    ensures DfIs(Advanced(n, d, -1), df + [d])
  {
    SumAppends(df, d);
    AddingWraps(|df|, 1);
    AddingWraps(Sum(df), d);
    SignedMinimum(df, d);
  }

  lemma BtAdvances(n: Numbers, bt: seq<nat>, d: nat)
    requires BtIs(n, bt)
    ensures BtIs(Advanced(n, -1, d), bt + [d])
  {
    SumAppends(bt, d);
    AddingWraps(|bt|, 1);
    AddingWraps(Sum(bt), d);
  }

  lemma ExpectedAdvances(trace: seq<Block>, targets: nat, i: nat)
    requires IsTrace(trace, targets) && i < targets && trace != []
    ensures var init, b := trace[..|trace| - 1], trace[|trace| - 1];
      IsTrace(init, targets) && Expected(trace, targets, i) == Advanced(Expected(init, targets, i), b.df[i], b.bt[i])
  {
    var init, b := trace[..|trace| - 1], trace[|trace| - 1];
    var n := Expected(init, targets, i);
    assert IsDistance(b.df[i]);
    LastMet(trace, targets, i);
    if b.df[i] >= 0 {
      DfAdvances(n, DfMet(init, targets, i), b.df[i]);
    } else if b.bt[i] >= 0 {
      BtAdvances(n, BtMet(init, targets, i), b.bt[i]);
    }
  }

  /** The memory before a run: all zero, except the minima. */
  ghost predicate IsReset(mem: seq<u8>) {
    && |mem| == SHM_SIZE
    && (forall e :: 0 <= e < MAP_SIZE ==> mem[e] == 0)
    && forall i :: 0 <= i < TARGET_MAX_COUNT ==> NumbersOf(mem, i) == Numbers(0, 0, 0, 0, INT32_MAX)
  }

  /** Whatever blocks run in whatever order, the numbers are the folds over the distances met. */
  lemma {:induction false} NumbersAreFolds(mem: seq<u8>, start: nat, trace: seq<Block>, targets: nat, i: nat)
    requires IsReset(mem) && start < MAP_SIZE && IsTrace(trace, targets) && i < TARGET_MAX_COUNT
    ensures NumbersOf(AfterTrace(mem, start, trace, targets), i)
         == if i < targets then Expected(trace, targets, i) else Numbers(0, 0, 0, 0, INT32_MAX)
  {
    if trace != [] {
      var init, b := trace[..|trace| - 1], trace[|trace| - 1];
      NumbersAreFolds(mem, start, init, targets, i);
      BlockAdvances(AfterTrace(mem, start, init, targets), PrevLoc(start, init), b, i);
      if i < targets {
        ExpectedAdvances(trace, targets, i);
      }
    }
  }

  lemma EdgeAfterBlock(mem: seq<u8>, prev: nat, b: Block, e: nat)
    requires |mem| == SHM_SIZE && |b.df| == |b.bt| <= TARGET_MAX_COUNT && e < MAP_SIZE
    requires prev < MAP_SIZE && b.loc < MAP_SIZE
    ensures AfterBlock(mem, prev, b)[e] == if Edge(prev, b.loc) == e then Incremented(mem[e]) else mem[e]
  {
    var after, counted := AfterBlock(mem, prev, b), AfterEdge(mem, Edge(prev, b.loc));
    BlockAdvances(mem, prev, b, 0);
    assert after[e] == after[..MAP_SIZE][e] == counted[..MAP_SIZE][e] == counted[e];
  }

  lemma CountingWraps(c: u8, n: nat)
    requires c == n % 256
    ensures Incremented(c) == (n + 1) % 256
  {
  }

  lemma {:induction false} EdgesAreCounted(mem: seq<u8>, start: nat, trace: seq<Block>, targets: nat, e: nat)
    requires IsReset(mem) && start < MAP_SIZE && IsTrace(trace, targets) && e < MAP_SIZE
    ensures AfterTrace(mem, start, trace, targets)[e] == Crossings(start, trace, e) % 256
  {
    if trace != [] {
      var init, b := trace[..|trace| - 1], trace[|trace| - 1];
      var before := AfterTrace(mem, start, init, targets);
      EdgesAreCounted(mem, start, init, targets, e);
      EdgeAfterBlock(before, PrevLoc(start, init), b, e);
      CountingWraps(before[e], Crossings(start, init, e));
    }
  }

  // ---------------------------------------------------------------- before and after the run

  /** What `run_target` does to the memory before it lets the program run. */
  method Reset(mem: array<u8>)
    requires mem.Length == SHM_SIZE
    modifies mem
    ensures IsReset(mem[..])
  {
    forall k | 0 <= k < mem.Length {
      mem[k] := 0;
    }
    forall i: nat | i < TARGET_MAX_COUNT ensures NumbersOf(mem[..], i) == Numbers(0, 0, 0, 0, 0) {
      ZeroNumbers(mem[..], i);
    }
    var i := 0;
    while i < TARGET_MAX_COUNT
      invariant 0 <= i <= TARGET_MAX_COUNT
      invariant forall e :: 0 <= e < MAP_SIZE ==> mem[e] == 0
      invariant PartlyReset(mem[..], i)
    {
      ghost var before := mem[..];
      StoreWord(mem, Addr(i, MinDist), INT32_MAX);
      EdgesAfterSet(before, i, MinDist, INT32_MAX);
      forall e | 0 <= e < MAP_SIZE ensures mem[e] == 0 {
        assert mem[..][..MAP_SIZE][e] == before[..MAP_SIZE][e];
      }
      OneMoreReset(before, i);
      i := i + 1;
    }
  }

  ghost predicate PartlyReset(mem: seq<u8>, n: nat) {
    |mem| == SHM_SIZE &&
    forall i :: 0 <= i < TARGET_MAX_COUNT ==> NumbersOf(mem, i) == Numbers(0, 0, 0, 0, if i < n then INT32_MAX else 0)
  }

  lemma OneMoreReset(mem: seq<u8>, n: nat)
    requires n < TARGET_MAX_COUNT && PartlyReset(mem, n)
    ensures PartlyReset(Set(mem, n, MinDist, INT32_MAX), n + 1)
  {
    forall i: nat | i < TARGET_MAX_COUNT
      ensures NumbersOf(Set(mem, n, MinDist, INT32_MAX), i) == Numbers(0, 0, 0, 0, if i < n + 1 then INT32_MAX else 0)
    {
      NumbersAfterSet(mem, n, MinDist, INT32_MAX, i);
    }
  }

  lemma {:induction false} ZeroValue(c: seq<u8>)
    requires forall k :: 0 <= k < |c| ==> c[k] == 0
    ensures Value(c) == 0
  {
    if c != [] {
      ZeroValue(c[1..]);
    }
  }

  lemma ZeroNumbers(mem: seq<u8>, i: nat)
    requires |mem| == SHM_SIZE && i < TARGET_MAX_COUNT && forall k :: 0 <= k < |mem| ==> mem[k] == 0
    ensures NumbersOf(mem, i) == Numbers(0, 0, 0, 0, 0)
  {
    forall f: Field ensures Get(mem, i, f) == 0 {
      ZeroValue(mem[Addr(i, f)..Addr(i, f) + 8]);
    }
  }

  /** A target's record in memory: five little-endian words one behind the other, behind the edge counters. */
  ghost predicate IsRecord(mem: seq<u8>, i: nat, n: Numbers)
    requires |mem| == SHM_SIZE && i < TARGET_MAX_COUNT
  {
    var at := 65536 + 40 * i;
    mem[at..at + 40]
      == Bytes(8, n.dfCount) + Bytes(8, n.dfSum) + Bytes(8, n.btCount) + Bytes(8, n.btSum) + Bytes(8, n.min)
  }

  lemma RecordInMemory(mem: seq<u8>, i: nat)
    requires |mem| == SHM_SIZE && i < TARGET_MAX_COUNT
    ensures IsRecord(mem, i, NumbersOf(mem, i))
  {
    var at := 65536 + 40 * i;
    FieldAt(mem, i, DfCount, at);
    FieldAt(mem, i, DfSum, at + 8);
    FieldAt(mem, i, BtCount, at + 16);
    FieldAt(mem, i, BtSum, at + 24);
    FieldAt(mem, i, MinDist, at + 32);
    FiveWords(mem, at);
  }

  lemma FieldAt(mem: seq<u8>, i: nat, f: Field, addr: nat)
    requires |mem| == SHM_SIZE && i < TARGET_MAX_COUNT && addr == Addr(i, f)
    ensures Bytes(8, At(NumbersOf(mem, i), f)) == mem[addr..addr + 8]
  {
    WordBytes(mem, addr);
    GetIsAt(mem, i, f);
  }

  lemma WordBytes(mem: seq<u8>, addr: nat)
    requires addr + 8 <= |mem|
    ensures Bytes(8, Load(mem, addr)) == mem[addr..addr + 8]
  {
    BytesOfValue(mem[addr..addr + 8]);
  }

  lemma FiveWords(mem: seq<u8>, at: nat)
    requires at + 40 <= |mem|
    ensures mem[at..at + 40]
         == mem[at..at + 8] + mem[at + 8..at + 16] + mem[at + 16..at + 24] + mem[at + 24..at + 32]
            + mem[at + 32..at + 40]
  {
  }

  /** What the fuzzer keeps for a target: two averages and the minimum. */
  datatype Reading = Reading(df: real, bt: real, tr: nat)

  function Average(count: nat, sum: nat, max: real): real {
    if count == 0 then max else sum as real / count as real
  }

  function ReadingOf(n: Numbers, maxDf: real, maxBt: real): Reading {
    Reading(Average(n.dfCount, n.dfSum, maxDf), Average(n.btCount, n.btSum, maxBt), n.min % 0x1_0000_0000)
  }

  /** The loop at the start of `has_new_bits`. */
  method ReadBack(mem: array<u8>, targets: nat, maxDf: seq<real>, maxBt: seq<real>) returns (r: seq<Reading>)
    requires mem.Length == SHM_SIZE && targets == |maxDf| == |maxBt| <= TARGET_MAX_COUNT
    ensures |r| == targets
    ensures forall i :: 0 <= i < targets ==> r[i] == ReadingOf(NumbersOf(mem[..], i), maxDf[i], maxBt[i])
  {
    r := [];
    var i := 0;
    while i < targets
      invariant 0 <= i <= targets && |r| == i
      invariant forall k :: 0 <= k < i ==> r[k] == ReadingOf(NumbersOf(mem[..], k), maxDf[k], maxBt[k])
    {
      var m := mem[..];
      var df := Average(Get(m, i, DfCount), Get(m, i, DfSum), maxDf[i]);
      var bt := Average(Get(m, i, BtCount), Get(m, i, BtSum), maxBt[i]);
      r := r + [Reading(df, bt, Get(m, i, MinDist) % 0x1_0000_0000)];
      i := i + 1;
    }
  }

  /** One execution of the instrumented program: reset, the blocks, and what is read afterwards. */
  method Execute(mem: array<u8>, start: nat, trace: seq<Block>, targets: nat, maxDf: seq<real>, maxBt: seq<real>)
    returns (r: seq<Reading>)
    requires mem.Length == SHM_SIZE && start < MAP_SIZE && IsTrace(trace, targets) && targets == |maxDf| == |maxBt|
    modifies mem
    ensures |r| == targets
    ensures forall e :: 0 <= e < MAP_SIZE ==> mem[e] == Crossings(start, trace, e) % 256
    ensures forall i :: 0 <= i < targets ==> IsRecord(mem[..], i, Expected(trace, targets, i))
    ensures forall i :: 0 <= i < targets ==> r[i] == ReadingOf(Expected(trace, targets, i), maxDf[i], maxBt[i])
  {
    Reset(mem);
    ghost var zeroed := mem[..];
    var prev, k := start, 0;
    assert trace[..0] == [];
    while k < |trace|
      invariant 0 <= k <= |trace| && prev == PrevLoc(start, trace[..k])
      invariant mem[..] == AfterTrace(zeroed, start, trace[..k], targets)
    {
      assert trace[..k + 1][..k] == trace[..k];
      prev := RunBlock(mem, prev, trace[k]);
      k := k + 1;
    }
    assert trace[..k] == trace;
    forall i: nat | i < targets ensures NumbersOf(mem[..], i) == Expected(trace, targets, i) {
      NumbersAreFolds(zeroed, start, trace, targets, i);
    }
    forall i: nat | i < targets ensures IsRecord(mem[..], i, Expected(trace, targets, i)) {
      RecordInMemory(mem[..], i);
    }
    forall e: nat | e < MAP_SIZE ensures mem[e] == Crossings(start, trace, e) % 256 {
      EdgesAreCounted(zeroed, start, trace, targets, e);
      assert mem[e] == mem[..][e];
    }
    r := ReadBack(mem, targets, maxDf, maxBt);
  }

  /** The average of the distances met, or the default when none was. */
  function TrueAverage(s: seq<nat>, max: real): real {
    if s == [] then max else Sum(s) as real / |s| as real
  }

  /** The average times the number of distances is their sum. */
  lemma AverageDividesSum(s: seq<nat>, max: real)
    ensures s != [] ==> TrueAverage(s, max) * |s| as real == Sum(s) as real
    ensures s == [] ==> TrueAverage(s, max) == max
  {
  }

  lemma AverageIsTrue(s: seq<nat>, max: real)
    requires |s| < WORD64 && Sum(s) < WORD64
    ensures Average(|s| % WORD64, Sum(s) % WORD64, max) == TrueAverage(s, max)
  {
    SmallStays(|s|);
    SmallStays(Sum(s));
    AverageOfMet(s, max);
  }

  lemma SmallStays(v: nat)
    requires v < WORD64
    ensures v % WORD64 == v
  {
  }

  lemma AverageOfMet(s: seq<nat>, max: real)
    ensures Average(|s|, Sum(s), max) == TrueAverage(s, max)
  {
  }

  lemma SmallLeast(s: seq<nat>)
    ensures Least(s) % 0x1_0000_0000 == Least(s)
  {
    LeastIsLeast(s);
  }

  /** Short of 2^64 blocks and 2^64 summed distance the fuzzer reads the true averages and the true minimum. */
  lemma ReadingsAreTrue(trace: seq<Block>, targets: nat, i: nat, maxDf: real, maxBt: real)
    requires IsTrace(trace, targets) && i < targets
    requires |trace| < WORD64 && Sum(DfMet(trace, targets, i)) < WORD64 && Sum(BtMet(trace, targets, i)) < WORD64
    ensures var df, bt := DfMet(trace, targets, i), BtMet(trace, targets, i);
      ReadingOf(Expected(trace, targets, i), maxDf, maxBt)
            == Reading(TrueAverage(df, maxDf), TrueAverage(bt, maxBt), Least(df))
  {
    MetAreFew(trace, targets, i);
    SmallLeast(DfMet(trace, targets, i));
    AverageIsTrue(DfMet(trace, targets, i), maxDf);
    AverageIsTrue(BtMet(trace, targets, i), maxBt);
  }

  lemma {:induction false} MetAreFew(trace: seq<Block>, targets: nat, i: nat)
    requires IsTrace(trace, targets) && i < targets
    ensures |DfMet(trace, targets, i)| + |BtMet(trace, targets, i)| <= |trace|
  {
    if trace != [] {
      MetAreFew(trace[..|trace| - 1], targets, i);
    }
  }
}
