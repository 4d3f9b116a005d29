/**
  The deterministic stages of `fuzz_one` that walk over one buffer: they change it in
  place, run the target on it, and put it back.
  A run of the target is the buffer it sees; a stage returns its runs in order.
*/
module DetStages {
  import opened Buffers
  import opened Redundancy

  // ---------------------------------------------------------------- the effector map

  /** `EFF_APOS` */
  function EffPos(p: nat): nat { p / 8 }

  /** `EFF_ALEN` */
  function EffLen(len: nat): nat { len / 8 + (if len % 8 != 0 then 1 else 0) }

  /** Some byte of the block is marked as having an effect. */
  ghost predicate Reached(eff: seq<bool>, at: nat, w: nat)
    requires at + w <= 8 * |eff|
  {
    exists k: nat :: at <= k < at + w && eff[EffPos(k)]
  }

  method IsReached(eff: seq<bool>, at: nat, w: nat) returns (r: bool)
    requires at + w <= 8 * |eff|
    ensures r <==> Reached(eff, at, w)
  {
    var k := at;
    while k < at + w
      invariant at <= k <= at + w
      invariant forall m: nat :: at <= m < k ==> !eff[EffPos(m)]
    {
      if eff[EffPos(k)] {
        return true;
      }
      k := k + 1;
    }
    r := false;
  }

  // ---------------------------------------------------------------- what each stage writes where

  datatype Stage = Flip16 | Flip32 | Arith8 | Arith16 | Arith32 | Interest8 | Interest16 | Interest32
  {
    function Width(): (w: nat)
      ensures IsWidth(w)
    {
      match this
      case Arith8 | Interest8 => 1
      case Flip16 | Arith16 | Interest16 => 2
      case Flip32 | Arith32 | Interest32 => 4
    }

    /** How many turns the inner loop takes at one place. */
    function Turns(): nat {
      match this
      case Flip16 | Flip32 => 1
      case Arith8 | Arith16 | Arith32 => ARITH_MAX
      case Interest8 => |INTERESTING_8|
      case Interest16 => |INTERESTING_16|
      case Interest32 => |INTERESTING_32|
    }

    /** How many candidates a turn has: up and down, or either byte order, or both. */
    function Ways(): nat {
      match this
      case Flip16 | Flip32 | Interest8 => 1
      case Arith8 | Interest16 | Interest32 => 2
      case Arith16 | Arith32 => 4
    }

    /** What `stage_max` loses for a place outside the effector map. */
    function PerPlace(): nat {
      match this
      case Flip16 | Flip32 => 1
      case Arith8 => 2 * ARITH_MAX
      case Arith16 | Arith32 => 4 * ARITH_MAX
      case Interest8 => 9
      case Interest16 => 38
      case Interest32 => 54
    }

    predicate IsFlip() { Flip16? || Flip32? }

    predicate IsArith() { Arith8? || Arith16? || Arith32? }

    function Values(): seq<int> {
      if Interest8? then INTERESTING_8 else if Interest16? then INTERESTING_16 else INTERESTING_32
    }

    function Places(len: nat): nat {
      if len < Width() then 0 else len - (Width() - 1)
    }

    predicate IsCandidate(turn: nat, way: nat) {
      turn < Turns() && way < Ways()
    }
  }

  /** The original value with the turn's amount added (way 0, or 2 in the other byte order) or taken away. */
  function Shifted(orig: seq<u8>, j: nat, way: nat): (c: seq<u8>)
    ensures |c| == |orig|
  {
    var o := if way < 2 then orig else Swap(orig);
    var c := Image(|orig|, if way % 2 == 0 then Value(o) + j else Value(o) - j);
    if way < 2 then c else Swap(c)
  }

  function Ones(n: nat): (r: seq<u8>)
    ensures |r| == n
  {
    seq(n, _ => 0xff)
  }

  /** What the stage writes over `orig`. */
  function Candidate(stage: Stage, orig: seq<u8>, turn: nat, way: nat): (c: seq<u8>)
    requires |orig| == stage.Width() && stage.IsCandidate(turn, way)
    ensures |c| == |orig|
  {
    if stage.IsFlip() then Xor(orig, Ones(|orig|))
    else if stage.IsArith() then Shifted(orig, turn + 1, way)
    else
      var c := Image(|orig|, stage.Values()[turn]);
      if way == 0 then c else Swap(c)
  }

  /** Whether the change carries out of the lower half of the word. */
  predicate Carries(orig: seq<u8>, j: nat, way: nat) {
    var half := Size(|orig| / 2);
    var low := Value(if way < 2 then orig else Swap(orig)) % half;
    if way % 2 == 0 then low + j > half - 1 else low < j
  }

  /** Whether the stage tries the candidate: not if an earlier stage should have. */
  ghost predicate Wanted(stage: Stage, orig: seq<u8>, turn: nat, way: nat)
    requires |orig| == stage.Width() && stage.IsCandidate(turn, way)
  {
    var c := Candidate(stage, orig, turn, way);
    if stage.IsFlip() then true
    else if stage.IsArith() then
      (stage.Arith8? || Carries(orig, turn + 1, way)) && !LooksLikeFlip(Value(Xor(orig, c)))
    else
      && (way == 1 ==> c != Swap(c))
      && !LooksLikeFlip(Value(Xor(orig, c)))
      && !LooksLikeArith(orig, c)
      && (stage.Interest8? || !LooksLikeInterest(orig, c, way == 1))
  }

  method IsWantedValue(stage: Stage, orig: seq<u8>, c: seq<u8>, way: nat) returns (r: bool)
    requires |orig| == |c| == stage.Width()
    ensures r <==>
      && (way == 1 ==> c != Swap(c))
      && !LooksLikeFlip(Value(Xor(orig, c)))
      && !LooksLikeArith(orig, c)
      && (stage.Interest8? || !LooksLikeInterest(orig, c, way == 1))
  {
    if way == 1 && c == Swap(c) {
      return false;
    }
    var skip := CouldBeBitflip(Value(Xor(orig, c)));
    if !skip {
      skip := CouldBeArith(orig, c);
    }
    if !skip && !stage.Interest8? {
      skip := CouldBeInterest(orig, c, way == 1);
    }
    r := !skip;
  }

  method IsWanted(stage: Stage, orig: seq<u8>, turn: nat, way: nat) returns (r: bool)
    requires |orig| == stage.Width() && stage.IsCandidate(turn, way)
    ensures r <==> Wanted(stage, orig, turn, way)
  {
    var c := Candidate(stage, orig, turn, way);
    if stage.IsFlip() {
      r := true;
    } else if stage.IsArith() {
      r := false;
      if stage.Arith8? || Carries(orig, turn + 1, way) {
        var skip := CouldBeBitflip(Value(Xor(orig, c)));
        r := !skip;
      }
    } else {
      r := IsWantedValue(stage, orig, c, way);
    }
  }

  // ---------------------------------------------------------------- the runs of a stage

  ghost predicate Fits(stage: Stage, data: seq<u8>, at: nat) {
    at + stage.Width() <= |data|
  }

  function Word(stage: Stage, data: seq<u8>, at: nat): (c: seq<u8>)
    requires Fits(stage, data, at)
    ensures |c| == stage.Width()
  {
    data[at..at + stage.Width()]
  }

  /** The runs for the first `n` candidates of one turn: the input with exactly that one change. */
  ghost function WayRuns(stage: Stage, data: seq<u8>, at: nat, turn: nat, n: nat): seq<seq<u8>>
    requires Fits(stage, data, at) && turn < stage.Turns() && n <= stage.Ways()
  {
    if n == 0 then [] else
      var orig := Word(stage, data, at);
      WayRuns(stage, data, at, turn, n - 1) +
      if Wanted(stage, orig, turn, n - 1) then [Overwritten(data, at, Candidate(stage, orig, turn, n - 1))] else []
  }

  ghost function TurnRuns(stage: Stage, data: seq<u8>, at: nat, n: nat): seq<seq<u8>>
    requires Fits(stage, data, at) && n <= stage.Turns()
  {
    if n == 0 then [] else TurnRuns(stage, data, at, n - 1) + WayRuns(stage, data, at, n - 1, stage.Ways())
  }

  /** The runs at the first `n` places. */
  ghost function PlaceRuns(stage: Stage, data: seq<u8>, eff: seq<bool>, n: nat): seq<seq<u8>>
    requires n <= stage.Places(|data|) && |data| <= 8 * |eff|
  {
    if n == 0 then [] else
      PlaceRuns(stage, data, eff, n - 1) +
      if Reached(eff, n - 1, stage.Width()) then TurnRuns(stage, data, n - 1, stage.Turns()) else []
  }

  ghost function StageRuns(stage: Stage, data: seq<u8>, eff: seq<bool>): seq<seq<u8>>
    requires |data| <= 8 * |eff|
  {
    PlaceRuns(stage, data, eff, stage.Places(|data|))
  }

  /** Candidate `way` of a turn is tried, and this is its run. */
  ghost predicate IsTried(stage: Stage, data: seq<u8>, at: nat, turn: nat, way: nat, run: seq<u8>)
    requires Fits(stage, data, at)
  {
    && stage.IsCandidate(turn, way)
    && Wanted(stage, Word(stage, data, at), turn, way)
    && run == Overwritten(data, at, Candidate(stage, Word(stage, data, at), turn, way))
  }

  lemma WayIn(stage: Stage, data: seq<u8>, at: nat, turn: nat, n: nat, way: nat, run: seq<u8>)
    requires Fits(stage, data, at) && turn < stage.Turns() && n == way + 1 <= stage.Ways()
    ensures run in WayRuns(stage, data, at, turn, n)
       <==> run in WayRuns(stage, data, at, turn, way) || IsTried(stage, data, at, turn, way, run)
  {
  }

  lemma TurnIn(stage: Stage, data: seq<u8>, at: nat, n: nat, turn: nat, run: seq<u8>)
    requires Fits(stage, data, at) && n == turn + 1 <= stage.Turns()
    ensures run in TurnRuns(stage, data, at, n)
       <==> run in TurnRuns(stage, data, at, turn) || run in WayRuns(stage, data, at, turn, stage.Ways())
  {
  }

  lemma PlaceIn(stage: Stage, data: seq<u8>, eff: seq<bool>, n: nat, at: nat, run: seq<u8>)
    requires n == at + 1 <= stage.Places(|data|) && |data| <= 8 * |eff|
    ensures run in PlaceRuns(stage, data, eff, n) <==>
      || run in PlaceRuns(stage, data, eff, at)
      || (Reached(eff, at, stage.Width()) && run in TurnRuns(stage, data, at, stage.Turns()))
  {
  }

  lemma {:induction false} WayOfRun(stage: Stage, data: seq<u8>, at: nat, turn: nat, n: nat, run: seq<u8>)
    returns (way: nat)
    requires Fits(stage, data, at) && turn < stage.Turns() && n <= stage.Ways()
    requires run in WayRuns(stage, data, at, turn, n)
    ensures IsTried(stage, data, at, turn, way, run)
  {
    way := n - 1;
    WayIn(stage, data, at, turn, n, way, run);
    if run in WayRuns(stage, data, at, turn, way) {
      way := WayOfRun(stage, data, at, turn, way, run);
    }
  }

  lemma {:induction false} TurnOfRun(stage: Stage, data: seq<u8>, at: nat, n: nat, run: seq<u8>)
    returns (turn: nat, way: nat)
    requires Fits(stage, data, at) && n <= stage.Turns() && run in TurnRuns(stage, data, at, n)
    ensures IsTried(stage, data, at, turn, way, run)
  {
    turn := n - 1;
    TurnIn(stage, data, at, n, turn, run);
    if run in TurnRuns(stage, data, at, turn) {
      turn, way := TurnOfRun(stage, data, at, turn, run);
    } else {
      way := WayOfRun(stage, data, at, turn, stage.Ways(), run);
    }
  }

  lemma {:induction false} PlaceOfRun(stage: Stage, data: seq<u8>, eff: seq<bool>, n: nat, run: seq<u8>)
    returns (at: nat, turn: nat, way: nat)
    requires n <= stage.Places(|data|) && |data| <= 8 * |eff| && run in PlaceRuns(stage, data, eff, n)
    ensures Fits(stage, data, at) && Reached(eff, at, stage.Width()) && IsTried(stage, data, at, turn, way, run)
  {
    at := n - 1;
    PlaceIn(stage, data, eff, n, at, run);
    if run in PlaceRuns(stage, data, eff, at) {
      at, turn, way := PlaceOfRun(stage, data, eff, at, run);
    } else {
      turn, way := TurnOfRun(stage, data, at, stage.Turns(), run);
    }
  }

  /** Every run of a stage is a wanted candidate at a place the effector map reaches. */
  lemma RunIsCandidate(stage: Stage, data: seq<u8>, eff: seq<bool>, run: seq<u8>) returns (at: nat, turn: nat, way: nat)
    requires |data| <= 8 * |eff| && run in StageRuns(stage, data, eff)
    ensures Fits(stage, data, at) && Reached(eff, at, stage.Width()) && IsTried(stage, data, at, turn, way, run)
  {
    at, turn, way := PlaceOfRun(stage, data, eff, stage.Places(|data|), run);
  }

  lemma {:induction false} WayIsRun(stage: Stage, data: seq<u8>, at: nat, turn: nat, n: nat, way: nat, run: seq<u8>)
    requires Fits(stage, data, at) && way < n <= stage.Ways() && IsTried(stage, data, at, turn, way, run)
    ensures run in WayRuns(stage, data, at, turn, n)
  {
    if n == way + 1 {
      WayIn(stage, data, at, turn, n, way, run);
    } else {
      var prev := n - 1;
      WayIsRun(stage, data, at, turn, prev, way, run);
      WayIn(stage, data, at, turn, n, prev, run);
    }
  }

  lemma {:induction false} TurnIsRun(stage: Stage, data: seq<u8>, at: nat, n: nat, turn: nat, run: seq<u8>)
    requires Fits(stage, data, at) && turn < n <= stage.Turns() && run in WayRuns(stage, data, at, turn, stage.Ways())
    ensures run in TurnRuns(stage, data, at, n)
  {
    if n == turn + 1 {
      TurnIn(stage, data, at, n, turn, run);
    } else {
      var prev := n - 1;
      TurnIsRun(stage, data, at, prev, turn, run);
      TurnIn(stage, data, at, n, prev, run);
    }
  }

  lemma {:induction false} PlaceIsRun(stage: Stage, data: seq<u8>, eff: seq<bool>, n: nat, at: nat, run: seq<u8>)
    requires at < n <= stage.Places(|data|) && |data| <= 8 * |eff| && Reached(eff, at, stage.Width())
    requires run in TurnRuns(stage, data, at, stage.Turns())
    ensures run in PlaceRuns(stage, data, eff, n)
  {
    if n == at + 1 {
      PlaceIn(stage, data, eff, n, at, run);
    } else {
      var prev := n - 1;
      PlaceIsRun(stage, data, eff, prev, at, run);
      PlaceIn(stage, data, eff, n, prev, run);
    }
  }

  /** Every wanted candidate at a place the effector map reaches is a run of the stage. */
  lemma CandidateIsRun(stage: Stage, data: seq<u8>, eff: seq<bool>, at: nat, turn: nat, way: nat, run: seq<u8>)
    requires |data| <= 8 * |eff| && Fits(stage, data, at) && Reached(eff, at, stage.Width())
    requires IsTried(stage, data, at, turn, way, run)
    ensures run in StageRuns(stage, data, eff)
  {
    WayIsRun(stage, data, at, turn, stage.Ways(), way, run);
    TurnIsRun(stage, data, at, stage.Turns(), turn, run);
    PlaceIsRun(stage, data, eff, stage.Places(|data|), at, run);
  }

  // ---------------------------------------------------------------- one buffer, changed in place

  /** The buffer is the input except in the block being worked on. */
  ghost predicate OnlyWithin(now: seq<u8>, data: seq<u8>, at: nat, w: nat) {
    at + w <= |data| == |now| && now[..at] == data[..at] && now[at + w..] == data[at + w..]
  }

  lemma OverwritingIsAllThatDiffers(now: seq<u8>, data: seq<u8>, at: nat, bytes: seq<u8>)
    requires OnlyWithin(now, data, at, |bytes|)
    ensures Overwritten(now, at, bytes) == Overwritten(data, at, bytes)
    ensures OnlyWithin(Overwritten(now, at, bytes), data, at, |bytes|)
  {
  }

  lemma PuttingBackRestores(now: seq<u8>, data: seq<u8>, at: nat, w: nat)
    requires OnlyWithin(now, data, at, w)
    ensures Overwritten(now, at, data[at..at + w]) == data
  {
    assert data == data[..at] + data[at..at + w] + data[at + w..];
  }

  method Put(out: array<u8>, at: nat, bytes: seq<u8>)
    requires at + |bytes| <= out.Length
    modifies out
    ensures out[..] == Overwritten(old(out[..]), at, bytes)
  {
    forall k | 0 <= k < |bytes| {
      out[at + k] := bytes[k];
    }
  }

  lemma XorWordTwice(a: seq<u8>, b: seq<u8>)
    requires |a| == |b|
    ensures Xor(Xor(a, b), b) == a
  {
    forall i | 0 <= i < |a| ensures Xor(Xor(a, b), b)[i] == a[i] {
      XorTwice(a[i], b[i]);
    }
  }

  /** One candidate: written and run, or counted off. */
  method TryWay(stage: Stage, out: array<u8>, ghost data: seq<u8>, at: nat, orig: seq<u8>, turn: nat, way: nat)
    returns (runs: seq<seq<u8>>)
    requires Fits(stage, data, at) && orig == Word(stage, data, at) && stage.IsCandidate(turn, way)
    requires OnlyWithin(out[..], data, at, stage.Width())
    modifies out
    ensures OnlyWithin(out[..], data, at, stage.Width())
    ensures runs
         == if Wanted(stage, orig, turn, way) then [Overwritten(data, at, Candidate(stage, orig, turn, way))] else []
    ensures stage.IsFlip() ==> out[at..at + |orig|] == Candidate(stage, orig, turn, way)
  {
    runs := [];
    var wanted := IsWanted(stage, orig, turn, way);
    if wanted {
      var c := Candidate(stage, orig, turn, way);
      OverwritingIsAllThatDiffers(out[..], data, at, c);
      Put(out, at, c);
      runs := [out[..]];
    }
  }

  /** Putting the block back: a flip is undone by flipping again. */
  method Restore(stage: Stage, out: array<u8>, ghost data: seq<u8>, at: nat, orig: seq<u8>)
    requires Fits(stage, data, at) && orig == Word(stage, data, at)
    requires OnlyWithin(out[..], data, at, stage.Width())
    requires stage.IsFlip() ==> out[at..at + |orig|] == Xor(orig, Ones(|orig|))
    modifies out
    ensures out[..] == data
  {
    PuttingBackRestores(out[..], data, at, stage.Width());
    if stage.IsFlip() {
      XorWordTwice(orig, Ones(|orig|));
      Put(out, at, Xor(out[at..at + |orig|], Ones(|orig|)));
    } else {
      Put(out, at, orig);
    }
  }

  /** `n` steps of `k` each. */
  function Steps(n: nat, k: nat): nat {
    if n == 0 then 0 else k + Steps(n - 1, k)
  }

  lemma OneTurnAll(stage: Stage)
    ensures Steps(stage.Turns(), stage.Ways()) == stage.PerPlace()
  {
    StepsMultiply(stage.Turns(), stage.Ways());
  }

  lemma {:induction false} StepsMultiply(n: nat, k: nat)
    requires k <= 4
    ensures Steps(n, k) == n * k
  {
    if n > 0 {
      StepsMultiply(n - 1, k);
    }
  }

  /** All candidates of one turn; the progress counters together advance by their number. */
  method TryTurn(stage: Stage, out: array<u8>, ghost data: seq<u8>, at: nat, orig: seq<u8>, turn: nat, cur: int,
                 max: int)
    returns (runs: seq<seq<u8>>, cur': int, max': int)
    requires Fits(stage, data, at) && orig == Word(stage, data, at) && turn < stage.Turns()
    requires OnlyWithin(out[..], data, at, stage.Width())
    modifies out
    ensures OnlyWithin(out[..], data, at, stage.Width())
    ensures runs == WayRuns(stage, data, at, turn, stage.Ways())
    ensures cur' == cur + |runs| && max' - cur' == max - cur - stage.Ways()
    ensures stage.IsFlip() ==> out[at..at + |orig|] == Xor(orig, Ones(|orig|))
  {
    runs, cur', max' := [], cur, max;
    var way := 0;
    while way < stage.Ways()
      invariant 0 <= way <= stage.Ways()
      invariant OnlyWithin(out[..], data, at, stage.Width())
      invariant runs == WayRuns(stage, data, at, turn, way)
      invariant cur' == cur + |runs| && max' - cur' == max - cur - way
      invariant stage.IsFlip() && way == 1 ==> out[at..at + |orig|] == Xor(orig, Ones(|orig|))
    {
      var more := TryWay(stage, out, data, at, orig, turn, way);
      if more != [] {
        cur' := cur' + 1;
      } else {
        max' := max' - 1;
      }
      runs := runs + more;
      way := way + 1;
    }
  }

  /** The wider interesting values are put back once per place, everything else after each turn. */
  predicate RestoresEachTurn(stage: Stage) {
    !stage.Interest16? && !stage.Interest32?
  }

  lemma NextTurn(stage: Stage, data: seq<u8>, at: nat, turn: nat, next: nat)
    requires Fits(stage, data, at) && next == turn + 1 <= stage.Turns()
    ensures TurnRuns(stage, data, at, next)
          == TurnRuns(stage, data, at, turn) + WayRuns(stage, data, at, turn, stage.Ways())
  {
  }

  lemma NextSteps(n: nat, k: nat, next: nat)
    requires next == n + 1
    ensures Steps(next, k) == k + Steps(n, k)
  {
  }

  /** After the first `turn` turns at a place: what the buffer holds, the runs so far, and the candidates used up. */
  ghost predicate TurnsTaken(stage: Stage, data: seq<u8>, at: nat, turn: nat, now: seq<u8>, runs: seq<seq<u8>>,
                             used: int) {
    && Fits(stage, data, at) && turn <= stage.Turns()
    && OnlyWithin(now, data, at, stage.Width())
    && (RestoresEachTurn(stage) ==> now == data)
    && runs == TurnRuns(stage, data, at, turn)
    && used == Steps(turn, stage.Ways())
  }

  method TakeTurn(stage: Stage, out: array<u8>, ghost data: seq<u8>, at: nat, orig: seq<u8>, turn: nat,
                  ghost before: seq<seq<u8>>, ghost used: int, cur: int, max: int)
    returns (runs: seq<seq<u8>>, cur': int, max': int)
    requires TurnsTaken(stage, data, at, turn, out[..], before, used) && orig == Word(stage, data, at)
    requires turn < stage.Turns()
    modifies out
    ensures TurnsTaken(stage, data, at, turn + 1, out[..], before + runs, used + (max - cur) - (max' - cur'))
    ensures cur' == cur + |runs|
  {
    runs, cur', max' := TryTurn(stage, out, data, at, orig, turn, cur, max);
    if RestoresEachTurn(stage) {
      Restore(stage, out, data, at, orig);
    }
    NextTurn(stage, data, at, turn, turn + 1);
    NextSteps(turn, stage.Ways(), turn + 1);
  }

  method TakeTurns(stage: Stage, out: array<u8>, ghost data: seq<u8>, at: nat, orig: seq<u8>, cur: int, max: int)
    returns (runs: seq<seq<u8>>, cur': int, max': int)
    requires Fits(stage, data, at) && orig == Word(stage, data, at) && out[..] == data
    modifies out
    ensures TurnsTaken(stage, data, at, stage.Turns(), out[..], runs, (max - cur) - (max' - cur'))
    ensures cur' == cur + |runs|
  {
    runs, cur', max' := [], cur, max;
    var turn := 0;
    while turn < stage.Turns()
      invariant 0 <= turn <= stage.Turns()
      invariant TurnsTaken(stage, data, at, turn, out[..], runs, (max - cur) - (max' - cur'))
      invariant cur' == cur + |runs|
    {
      var more;
      more, cur', max' := TakeTurn(stage, out, data, at, orig, turn, runs, (max - cur) - (max' - cur'), cur', max');
      runs := runs + more;
      turn := turn + 1;
    }
  }

  /** One place of the walk. */
  method TryPlace(stage: Stage, out: array<u8>, at: nat, cur: int, max: int)
    returns (runs: seq<seq<u8>>, cur': int, max': int)
    requires Fits(stage, out[..], at)
    modifies out
    ensures out[..] == old(out[..])
    ensures runs == TurnRuns(stage, out[..], at, stage.Turns())
    ensures cur' == cur + |runs| && max' - cur' == max - cur - stage.PerPlace()
  {
    ghost var data := out[..];
    var orig := out[at..at + stage.Width()];
    runs, cur', max' := TakeTurns(stage, out, data, at, orig, cur, max);
    if !RestoresEachTurn(stage) {
      Restore(stage, out, data, at, orig);
    }
    OneTurnAll(stage);
  }

  /** A place is tried when the effector map reaches it, and otherwise counted off as a whole. */
  method VisitPlace(stage: Stage, out: array<u8>, eff: seq<bool>, at: nat, cur: int, max: int)
    returns (runs: seq<seq<u8>>, cur': int, max': int)
    requires out.Length <= 8 * |eff| && Fits(stage, out[..], at)
    modifies out
    ensures out[..] == old(out[..])
    ensures runs == if Reached(eff, at, stage.Width()) then TurnRuns(stage, out[..], at, stage.Turns()) else []
    ensures cur' == cur + |runs| && max' - cur' == max - cur - stage.PerPlace()
  {
    var reached := IsReached(eff, at, stage.Width());
    if reached {
      runs, cur', max' := TryPlace(stage, out, at, cur, max);
    } else {
      runs, cur', max' := [], cur, max - stage.PerPlace();
    }
  }

  /** The initial `stage_max`. */
  function InitialMax(stage: Stage, places: nat): int {
    match stage
    case Flip16 | Flip32 => places
    case Arith8 => 2 * places * ARITH_MAX
    case Arith16 | Arith32 => 4 * places * ARITH_MAX
    case Interest8 => places * 9
    case Interest16 => 2 * places * 19
    case Interest32 => 2 * places * 27
  }

  lemma {:induction false} AllPlaces(stage: Stage, places: nat)
    ensures Steps(places, stage.PerPlace()) == InitialMax(stage, places)
  {
    if places > 0 {
      AllPlaces(stage, places - 1);
    }
  }

  /**
    A whole stage: the buffer ends as it began, each run saw the input with exactly one
    candidate written into it, and the progress counter meets its bound.
  */
  method WalkStage(stage: Stage, out: array<u8>, eff: seq<bool>) returns (runs: seq<seq<u8>>, cur: int, max: int)
    requires out.Length <= 8 * |eff|
    modifies out
    ensures out[..] == old(out[..])
    ensures runs == StageRuns(stage, out[..], eff)
    ensures cur == max == |runs|
  {
    var places := stage.Places(out.Length);
    runs, cur, max := [], 0, InitialMax(stage, places);
    ghost var data := out[..];
    AllPlaces(stage, places);
    var i := 0;
    while i < places
      invariant 0 <= i <= places && out[..] == data
      invariant runs == PlaceRuns(stage, data, eff, i)
      invariant cur == |runs| && max - cur == Steps(places - i, stage.PerPlace())
    {
      var more;
      more, cur, max := VisitPlace(stage, out, eff, i, cur, max);
      runs := runs + more;
      i := i + 1;
    }
  }
}
