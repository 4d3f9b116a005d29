/**
  What the 8-bit deterministic stages of `fuzz_one` try together: at every byte the
  effector map reaches, each candidate value exactly once, although each stage skips
  what it believes an earlier one tried.
*/
module ByteStages {
  import opened Buffers
  import opened Redundancy
  import opened DetStages
  import opened FlipStages
  import opened FlipMasks

  /** How often a run occurs. */
  ghost function Count(runs: seq<seq<u8>>, run: seq<u8>): nat {
    multiset(runs)[run]
  }

  lemma CountOfConcat(a: seq<seq<u8>>, b: seq<seq<u8>>, run: seq<u8>)
    ensures Count(a + b, run) == Count(a, run) + Count(b, run)
  {
  }

  lemma NeverIn(runs: seq<seq<u8>>, run: seq<u8>)
    requires forall k :: 0 <= k < |runs| ==> runs[k] != run
    ensures Count(runs, run) == 0
  {
    assert run !in runs;
  }

  lemma OnceIn(runs: seq<seq<u8>>, run: seq<u8>, p: nat)
    requires p < |runs| && runs[p] == run
    requires forall k :: 0 <= k < |runs| && k != p ==> runs[k] != run
    ensures Count(runs, run) == 1
  {
    var before, after := runs[..p], runs[p + 1..];
    assert runs == before + ([run] + after);
    NeverIn(before, run);
    NeverIn(after, run);
  }

  function One(b: bool): nat {
    if b then 1 else 0
  }

  // ---------------------------------------------------------------- the flips

  lemma MasksDiffer(n: nat, b: nat, c: nat)
    requires n == 1 || n == 2 || n == 4
    requires b + n <= 8 && c + n <= 8
    ensures IsMask(n, RunMask(n, b))
    ensures RunMask(n, b) == RunMask(n, c) ==> b == c
  {
  }

  lemma BitFlipsTry(data: seq<u8>, n: nat, i: nat, v: u8)
    requires (n == 1 || n == 2 || n == 4) && i < |data| && v != data[i]
    ensures Count(FlipRuns(data, n), data[i := v]) == One(IsMask(n, Xor8(data[i], v)))
  {
    var runs, m := FlipRuns(data, n), Xor8(data[i], v);
    forall k | 0 <= k < |runs|
      ensures runs[k] == data[i := v] <==> k / 8 == i && k % 8 + n <= 8 && m == RunMask(n, k % 8)
    {
      RunIsByteChange(data, k, n, i, v);
    }
    if IsMask(n, m) {
      var b: nat :| b < |Masks(n)| && Masks(n)[b] == m;
      var p := 8 * i + b;
      assert p / 8 == i && p % 8 == b;
      forall k | 0 <= k < |runs| && k != p ensures runs[k] != data[i := v] {
        if k / 8 == i && k % 8 + n <= 8 {
          MasksDiffer(n, b, k % 8);
        }
      }
      OnceIn(runs, data[i := v], p);
    } else {
      forall k | 0 <= k < |runs| ensures runs[k] != data[i := v] {
        if k % 8 + n <= 8 {
          MasksDiffer(n, k % 8, k % 8);
        }
      }
      NeverIn(runs, data[i := v]);
    }
  }

  lemma ByteFlipsTry(data: seq<u8>, i: nat, v: u8)
    requires i < |data| && v != data[i]
    ensures Count(ByteFlipRuns(data), data[i := v]) == One(IsMask(8, Xor8(data[i], v)))
  {
    var runs := ByteFlipRuns(data);
    forall k | 0 <= k < |runs|
      ensures runs[k] == data[i := v] <==> k == i && Xor8(data[i], v) == 255
    {
      XorChanges(data[k], 255);
      MaskBetween(data[k], v, 255);
      SameOneByte(data, k, Xor8(data[k], 255), i, v);
    }
    if Xor8(data[i], v) == 255 {
      OnceIn(runs, data[i := v], i);
    } else {
      NeverIn(runs, data[i := v]);
    }
  }

  ghost function FlipStageRuns(data: seq<u8>): seq<seq<u8>>
    requires data != []
  {
    FlipRuns(data, 1) + FlipRuns(data, 2) + FlipRuns(data, 4) + ByteFlipRuns(data)
  }

  lemma OneMaskEach(m: u8)
    ensures One(IsMask(1, m)) + One(IsMask(2, m)) + One(IsMask(4, m)) + One(IsMask(8, m))
         == One(IsMask(1, m) || IsMask(2, m) || IsMask(4, m) || IsMask(8, m))
  {
  }

  /** The flip stages together try a one-byte change once if `could_be_bitflip` says so, and else never. */
  lemma FlipsTry(data: seq<u8>, i: nat, v: u8)
    requires i < |data| && v != data[i]
    ensures Count(FlipStageRuns(data), data[i := v]) == One(LooksLikeFlip(Xor8(data[i], v)))
  {
    BitFlipsTry(data, 1, i, v);
    BitFlipsTry(data, 2, i, v);
    BitFlipsTry(data, 4, i, v);
    ByteFlipsTry(data, i, v);
    OneMaskEach(Xor8(data[i], v));
    DifferentBytesHaveMask(data[i], v);
    ByteFlipsAreExact(Xor8(data[i], v));
  }

  lemma DifferentBytesHaveMask(a: u8, v: u8)
    requires a != v
    ensures Xor8(a, v) != 0
  {
    MaskBetween(a, v, 0);
    XorChanges(a, 0);
  }

  // ---------------------------------------------------------------- one place of an 8-bit walk

  predicate IsByteStage(stage: Stage) { stage.Arith8? || stage.Interest8? }

  /** The value a candidate puts in place of byte `a`. */
  function CandidateByte(stage: Stage, a: u8, turn: nat, way: nat): u8
    requires IsByteStage(stage) && stage.IsCandidate(turn, way)
  {
    if stage.Interest8? then INTERESTING_8[turn] % 256
    else if way == 0 then (a + turn + 1) % 256
    else (a - turn - 1) % 256
  }

  ghost predicate WantedByte(stage: Stage, a: u8, c: u8) {
    !LooksLikeFlip(Xor8(a, c)) && (stage.Interest8? ==> a != c && !Near(256, a, c))
  }

  lemma OneByteValue(a: u8)
    ensures Value([a]) == a
  {
    assert [a][1..] == [];
  }

  lemma OneByteImage(v: int)
    ensures Image(1, v) == [v % 256] && Size(1) == 256
  {
    assert Size(0) == 1;
    assert Bytes(0, v % 256 / 256) == [];
  }

  lemma OneByteArith(a: u8, c: u8)
    ensures LooksLikeArith([a], [c]) <==> a == c || Near(256, a, c)
  {
    var x, y := Parts([a], 1), Parts([c], 1);
    assert x == [[a]] && y == [[c]];
    OneByteValue(a);
    OneByteValue(c);
    OneByteImage(a);
    assert Swap([a]) == [a] && Swap([c]) == [c];
    if a != c {
      assert OnlyDiffersAt(x, y, |x|, 0);
    }
  }

  lemma CandidateIsByte(stage: Stage, a: u8, turn: nat, way: nat)
    requires IsByteStage(stage) && stage.IsCandidate(turn, way)
    ensures Candidate(stage, [a], turn, way) == [CandidateByte(stage, a, turn, way)]
  {
    OneByteValue(a);
    if stage.Interest8? {
      OneByteImage(INTERESTING_8[turn]);
    } else {
      OneByteImage(a + (turn + 1));
      OneByteImage(a - (turn + 1));
    }
  }

  lemma WantedIsByte(stage: Stage, a: u8, turn: nat, way: nat)
    requires IsByteStage(stage) && stage.IsCandidate(turn, way)
    ensures Wanted(stage, [a], turn, way) <==> WantedByte(stage, a, CandidateByte(stage, a, turn, way))
  {
    var c := CandidateByte(stage, a, turn, way);
    CandidateIsByte(stage, a, turn, way);
    assert Xor([a], [c]) == [Xor8(a, c)];
    OneByteValue(Xor8(a, c));
    OneByteArith(a, c);
  }

  /** Whether candidate `way` of a turn is a run with byte `i` set to `v`. */
  ghost predicate Gives(stage: Stage, a: u8, turn: nat, way: nat, v: u8)
    requires IsByteStage(stage) && stage.IsCandidate(turn, way)
  {
    CandidateByte(stage, a, turn, way) == v && WantedByte(stage, a, v)
  }

  /** How many of the first `n` candidates of a turn put `v` there. */
  ghost function WayTries(stage: Stage, a: u8, turn: nat, n: nat, v: u8): nat
    requires IsByteStage(stage) && turn < stage.Turns() && n <= stage.Ways()
  {
    if n == 0 then 0 else WayTries(stage, a, turn, n - 1, v) + One(Gives(stage, a, turn, n - 1, v))
  }

  ghost function TurnTries(stage: Stage, a: u8, n: nat, v: u8): nat
    requires IsByteStage(stage) && n <= stage.Turns()
  {
    if n == 0 then 0 else TurnTries(stage, a, n - 1, v) + WayTries(stage, a, n - 1, stage.Ways(), v)
  }

  ghost function WayRun(stage: Stage, data: seq<u8>, at: nat, turn: nat, way: nat): seq<seq<u8>>
    requires IsByteStage(stage) && at < |data| && stage.IsCandidate(turn, way)
  {
    var c := CandidateByte(stage, data[at], turn, way);
    if WantedByte(stage, data[at], c) then [data[at := c]] else []
  }

  lemma OneMoreWay(stage: Stage, data: seq<u8>, at: nat, turn: nat, way: nat)
    requires IsByteStage(stage) && at < |data| && stage.IsCandidate(turn, way)
    ensures WayRuns(stage, data, at, turn, way + 1)
         == WayRuns(stage, data, at, turn, way) + WayRun(stage, data, at, turn, way)
  {
    var a := data[at];
    var c := CandidateByte(stage, a, turn, way);
    LastWay(stage, data, at, turn, way + 1, way);
    assert Word(stage, data, at) == [a];
    WantedIsByte(stage, a, turn, way);
    CandidateIsByte(stage, a, turn, way);
    assert Overwritten(data, at, [c]) == data[at := c];
  }

  lemma LastWay(stage: Stage, data: seq<u8>, at: nat, turn: nat, n: nat, way: nat)
    requires Fits(stage, data, at) && turn < stage.Turns() && n == way + 1 <= stage.Ways()
    ensures var orig := Word(stage, data, at);
      WayRuns(stage, data, at, turn, n) == WayRuns(stage, data, at, turn, way) +
        if Wanted(stage, orig, turn, way) then [Overwritten(data, at, Candidate(stage, orig, turn, way))] else []
  {
  }

  lemma WayRunTries(stage: Stage, data: seq<u8>, at: nat, turn: nat, way: nat, i: nat, v: u8)
    requires IsByteStage(stage) && at < |data| && stage.IsCandidate(turn, way) && i < |data| && v != data[i]
    ensures Count(WayRun(stage, data, at, turn, way), data[i := v])
         == One(at == i && Gives(stage, data[i], turn, way, v))
  {
    WrittenByte(data, at, CandidateByte(stage, data[at], turn, way), i, v);
  }

  lemma {:induction false} WaysTry(stage: Stage, data: seq<u8>, at: nat, turn: nat, n: nat, i: nat, v: u8)
    requires IsByteStage(stage) && at < |data| && turn < stage.Turns() && n <= stage.Ways()
    requires i < |data| && v != data[i]
    ensures Count(WayRuns(stage, data, at, turn, n), data[i := v])
         == if at == i then WayTries(stage, data[i], turn, n, v) else 0
  {
    if n > 0 {
      var way := n - 1;
      WaysTry(stage, data, at, turn, way, i, v);
      OneMoreWay(stage, data, at, turn, way);
      WayRunTries(stage, data, at, turn, way, i, v);
      CountOfConcat(WayRuns(stage, data, at, turn, way), WayRun(stage, data, at, turn, way), data[i := v]);
    }
  }

  lemma WrittenByte(data: seq<u8>, at: nat, c: u8, i: nat, v: u8)
    requires at < |data| && i < |data| && v != data[i]
    ensures data[at := c] == data[i := v] <==> at == i && c == v
  {
    assert data[at := c][at] == c;
    assert data[i := v][i] == v;
  }

  /** The values the first `n` turns try. */
  ghost predicate InTurns(stage: Stage, a: u8, n: nat, v: u8) {
    if stage.Arith8? then (v - a) % 256 <= n || (a - v) % 256 <= n
    else exists t: nat :: t < n && t < |INTERESTING_8| && INTERESTING_8[t] % 256 == v
  }

  lemma InterestingBytesDiffer(s: nat, t: nat)
    requires s < t < |INTERESTING_8|
    ensures INTERESTING_8[s] % 256 != INTERESTING_8[t] % 256
  {
  }

  lemma StepUp(a: u8, v: u8, k: nat)
    requires 0 < k < 256
    ensures (a + k) % 256 == v <==> (v - a) % 256 == k
  {
  }

  lemma StepDown(a: u8, v: u8, k: nat)
    requires 0 < k < 256
    ensures (a - k) % 256 == v <==> (a - v) % 256 == k
  {
  }

  lemma UpAndDown(a: u8, v: u8)
    requires a != v
    ensures (v - a) % 256 > 0 && (a - v) % 256 > 0 && (v - a) % 256 + (a - v) % 256 == 256
  {
  }

  lemma ArithTurn(a: u8, t: nat, v: u8)
    requires t < ARITH_MAX && v != a
    ensures One(InTurns(Arith8, a, t + 1, v))
         == One(InTurns(Arith8, a, t, v)) + One((a + t + 1) % 256 == v) + One((a - t - 1) % 256 == v)
  {
    StepUp(a, v, t + 1);
    StepDown(a, v, t + 1);
    UpAndDown(a, v);
  }

  lemma InterestTurn(a: u8, t: nat, v: u8)
    requires t < |INTERESTING_8|
    ensures One(InTurns(Interest8, a, t + 1, v)) == One(InTurns(Interest8, a, t, v)) + One(INTERESTING_8[t] % 256 == v)
  {
    if INTERESTING_8[t] % 256 == v {
      forall s: nat | s < t ensures INTERESTING_8[s] % 256 != v {
        InterestingBytesDiffer(s, t);
      }
    }
  }

  lemma TwoWays(stage: Stage, a: u8, t: nat, v: u8)
    requires IsByteStage(stage) && t < stage.Turns()
    ensures WayTries(stage, a, t, stage.Ways(), v)
         == One(Gives(stage, a, t, 0, v)) + (if stage.Ways() > 1 then One(Gives(stage, a, t, 1, v)) else 0)
  {
    assert WayTries(stage, a, t, 1, v) == WayTries(stage, a, t, 0, v) + One(Gives(stage, a, t, 0, v));
  }

  /** Each turn adds at most one run for `v`, and only if no earlier turn did. */
  lemma {:induction false} TriesAreOnce(stage: Stage, a: u8, n: nat, v: u8)
    requires IsByteStage(stage) && n <= stage.Turns() && v != a
    ensures TurnTries(stage, a, n, v) == if WantedByte(stage, a, v) then One(InTurns(stage, a, n, v)) else 0
  {
    if n > 0 {
      TriesAreOnce(stage, a, n - 1, v);
      TwoWays(stage, a, n - 1, v);
      if stage.Arith8? {
        ArithTurn(a, n - 1, v);
      } else {
        InterestTurn(a, n - 1, v);
      }
    }
  }

  lemma LastTurnTries(stage: Stage, a: u8, n: nat, turn: nat, v: u8)
    requires IsByteStage(stage) && n == turn + 1 <= stage.Turns()
    ensures TurnTries(stage, a, n, v) == TurnTries(stage, a, turn, v) + WayTries(stage, a, turn, stage.Ways(), v)
  {
  }

  lemma {:induction false} TurnsTry(stage: Stage, data: seq<u8>, at: nat, n: nat, i: nat, v: u8)
    requires IsByteStage(stage) && at < |data| && n <= stage.Turns() && i < |data| && v != data[i]
    ensures Count(TurnRuns(stage, data, at, n), data[i := v])
         == if at == i then TurnTries(stage, data[i], n, v) else 0
  {
    if n == 0 {
      assert TurnRuns(stage, data, at, n) == [];
    } else {
      var turn := n - 1;
      var before, last := TurnRuns(stage, data, at, turn), WayRuns(stage, data, at, turn, stage.Ways());
      NextTurn(stage, data, at, turn, n);
      CountOfConcat(before, last, data[i := v]);
      TurnsTry(stage, data, at, turn, i, v);
      WaysTry(stage, data, at, turn, stage.Ways(), i, v);
      LastTurnTries(stage, data[i], n, turn, v);
    }
  }

  ghost function PlaceRun(stage: Stage, data: seq<u8>, eff: seq<bool>, at: nat): seq<seq<u8>>
    requires Fits(stage, data, at) && |data| <= 8 * |eff|
  {
    if Reached(eff, at, stage.Width()) then TurnRuns(stage, data, at, stage.Turns()) else []
  }

  lemma LastPlace(stage: Stage, data: seq<u8>, eff: seq<bool>, n: nat, at: nat)
    requires n == at + 1 <= stage.Places(|data|) && |data| <= 8 * |eff|
    ensures PlaceRuns(stage, data, eff, n) == PlaceRuns(stage, data, eff, at) + PlaceRun(stage, data, eff, at)
  {
  }

  lemma PlaceTries(stage: Stage, data: seq<u8>, eff: seq<bool>, at: nat, i: nat, v: u8)
    requires IsByteStage(stage) && at < |data| <= 8 * |eff| && i < |data| && v != data[i]
    ensures Count(PlaceRun(stage, data, eff, at), data[i := v])
         == if at == i && Reached(eff, i, 1) then TurnTries(stage, data[i], stage.Turns(), v) else 0
  {
    TurnsTry(stage, data, at, stage.Turns(), i, v);
  }

  lemma {:induction false} PlacesTry(stage: Stage, data: seq<u8>, eff: seq<bool>, n: nat, i: nat, v: u8)
    requires IsByteStage(stage) && n <= |data| <= 8 * |eff| && i < |data| && v != data[i]
    ensures Count(PlaceRuns(stage, data, eff, n), data[i := v])
         == if i < n && Reached(eff, i, 1) then TurnTries(stage, data[i], stage.Turns(), v) else 0
  {
    if n > 0 {
      var at := n - 1;
      PlacesTry(stage, data, eff, at, i, v);
      PlaceTries(stage, data, eff, at, i, v);
      LastPlace(stage, data, eff, n, at);
      CountOfConcat(PlaceRuns(stage, data, eff, at), PlaceRun(stage, data, eff, at), data[i := v]);
    }
  }

  // ---------------------------------------------------------------- all 8-bit stages

  ghost predicate IsInteresting(v: u8) {
    exists t: nat :: t < |INTERESTING_8| && INTERESTING_8[t] % 256 == v
  }

  lemma ArithTries(data: seq<u8>, eff: seq<bool>, i: nat, v: u8)
    requires |data| <= 8 * |eff| && i < |data| && v != data[i]
    ensures Count(StageRuns(Arith8, data, eff), data[i := v])
         == One(Reached(eff, i, 1) && Near(256, data[i], v) && !LooksLikeFlip(Xor8(data[i], v)))
  {
    PlacesTry(Arith8, data, eff, |data|, i, v);
    TriesAreOnce(Arith8, data[i], ARITH_MAX, v);
  }

  lemma InterestTries(data: seq<u8>, eff: seq<bool>, i: nat, v: u8)
    requires |data| <= 8 * |eff| && i < |data| && v != data[i]
    ensures Count(StageRuns(Interest8, data, eff), data[i := v])
         == One(Reached(eff, i, 1) && IsInteresting(v) && !Near(256, data[i], v) && !LooksLikeFlip(Xor8(data[i], v)))
  {
    PlacesTry(Interest8, data, eff, |data|, i, v);
    TriesAreOnce(Interest8, data[i], |INTERESTING_8|, v);
  }

  /** The runs of the 8-bit stages, without the arithmetic ones when `no_arith` is set. */
  ghost function ByteRuns(data: seq<u8>, eff: seq<bool>, noArith: bool): seq<seq<u8>>
    requires data != [] && |data| <= 8 * |eff|
  {
    FlipStageRuns(data) + (if noArith then [] else StageRuns(Arith8, data, eff)) + StageRuns(Interest8, data, eff)
  }

  /**
    The skipping is exact: a byte the effector map reaches gets every flip pattern, every
    value at most 35 away and every interesting value, each in exactly one run.
  */
  lemma EveryByteCandidateOnce(data: seq<u8>, eff: seq<bool>, i: nat, v: u8)
    requires |data| <= 8 * |eff| && i < |data| && v != data[i]
    ensures Count(ByteRuns(data, eff, false), data[i := v])
         == One(LooksLikeFlip(Xor8(data[i], v)) || (Reached(eff, i, 1) && (Near(256, data[i], v) || IsInteresting(v))))
  {
    FlipsTry(data, i, v);
    ArithTries(data, eff, i, v);
    InterestTries(data, eff, i, v);
    CountOfConcat(FlipStageRuns(data), StageRuns(Arith8, data, eff), data[i := v]);
  }

  lemma WithoutArith(data: seq<u8>, eff: seq<bool>, run: seq<u8>)
    requires data != [] && |data| <= 8 * |eff|
    ensures Count(ByteRuns(data, eff, true), run)
          == Count(FlipStageRuns(data), run) + Count(StageRuns(Interest8, data, eff), run)
  {
    var flips := FlipStageRuns(data);
    assert flips + [] == flips;
  }

  /**
    Without the arithmetic stages the skipping loses values: an interesting value is
    tried exactly when it is a flip pattern away or more than 35 away.
  */
  lemma NoArithLosesValues(data: seq<u8>, eff: seq<bool>, i: nat, v: u8)
    requires |data| <= 8 * |eff| && i < |data| && v != data[i] && Reached(eff, i, 1) && IsInteresting(v)
    ensures Count(ByteRuns(data, eff, true), data[i := v]) > 0
       <==> LooksLikeFlip(Xor8(data[i], v)) || !Near(256, data[i], v)
  {
    FlipsTry(data, i, v);
    InterestTries(data, eff, i, v);
    WithoutArith(data, eff, data[i := v]);
  }

  /** Such a value exists: 16 over 21, wherever that byte is. */
  lemma LostValue(data: seq<u8>, eff: seq<bool>, i: nat)
    requires |data| <= 8 * |eff| && i < |data| && data[i] == 21 && Reached(eff, i, 1)
    ensures IsInteresting(16) && Count(ByteRuns(data, eff, true), data[i := 16]) == 0
  {
    SixteenIsInteresting();
    SixteenIsSkipped();
    NoArithLosesValues(data, eff, i, 16);
  }

  lemma SixteenIsInteresting()
    ensures IsInteresting(16)
  {
    assert INTERESTING_8[4] % 256 == 16;
  }

  lemma SixteenIsSkipped()
    ensures Near(256, 21, 16) && !LooksLikeFlip(Xor8(21, 16))
  {
    FiveIsTheChange();
    FiveIsNoFlip();
  }

  lemma FiveIsNoFlip()
    ensures !LooksLikeFlip(5)
  {
    ByteFlipsAreExact(5);
  }

  lemma FiveIsTheChange()
    ensures Xor8(21, 16) == 5
  {
    assert Shl(1, 3) == 8;
    assert Shl(1, 7) == 128;
    XorStep(8, 20, 17);
    MaskBetween(16, 21, 5);
    XorCommutes(16, 21);
    assert Xor8(16, 5) == 21;
  }
}
