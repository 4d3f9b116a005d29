/**
  `trim_case`: removes chunks of a queue entry as long as the trace checksum of a
  deterministic target does not change.
*/
module Trimmer {
  import opened PowersOfTwo
  import opened Buffers
  import opened Sweeps

  const TRIM_MIN_BYTES: nat := 4
  const TRIM_START_STEPS: nat := 16
  const TRIM_END_STEPS: nat := 1024
  const NO_FILL: int := -1

  datatype Fault = FaultNone | FaultTimeout | FaultCrash | FaultError

  datatype Exec = Exec(fault: Fault, cksum: nat)

  type Target = seq<u8> -> Exec

  // ---------------------------------------------------------------- how many steps a chunk length takes

  /** A power of two is a multiple of every smaller one. */
  lemma {:induction false} PowersDivide(n: nat, m: nat) returns (q: nat)
    requires IsPowerOfTwo(n) && IsPowerOfTwo(m) && m <= n
    ensures n == q * m
  {
    if m == 1 {
      q := n;
    } else {
      q := PowersDivide(n / 2, m / 2);
      assert 2 * (q * (m / 2)) == q * (2 * (m / 2));
    }
  }

  lemma ThousandIsPower()
    ensures IsPowerOfTwo(TRIM_END_STEPS)
  {
    assert IsPowerOfTwo(4) && IsPowerOfTwo(32);
    assert IsPowerOfTwo(256);
  }

  /** The condition of the outer loop keeps the input within TRIM_END_STEPS chunks. */
  lemma FewChunks(len: nat, lenP2: nat, removeLen: nat)
    requires lenP2 == LeastPower(len) && IsPowerOfTwo(lenP2) && len <= lenP2
    requires removeLen >= Max(lenP2 / TRIM_END_STEPS, TRIM_MIN_BYTES)
    ensures len <= TRIM_END_STEPS * removeLen
  {
    if lenP2 >= TRIM_END_STEPS {
      ThousandIsPower();
      var q := PowersDivide(lenP2, TRIM_END_STEPS);
      assert lenP2 == q * 1024;
    }
  }

  // ---------------------------------------------------------------- one chunk length

  /** Shorter with the checksum asked for, or the input untouched. */
  ghost predicate Trimmed(run: Target, cksum: nat, orig: seq<u8>, data: seq<u8>, needsWrite: bool) {
    && Simplifies(NO_FILL, orig, data)
    && (needsWrite ==> |data| < |orig| && run(data).cksum == cksum)
    && (!needsWrite ==> data == orig)
  }

  /** `write_with_gap`: what the target is run on. */
  method WithGap(inBuf: array<u8>, len: nat, skipAt: nat, skipLen: nat) returns (file: seq<u8>)
    requires skipAt + skipLen <= len <= inBuf.Length
    ensures file == Without(inBuf[..len], skipAt, skipLen)
  {
    file := inBuf[..skipAt] + inBuf[skipAt + skipLen..len];
  }

  /** `memmove` of the tail over the removed chunk. */
  method MoveTail(inBuf: array<u8>, len: nat, pos: nat, avail: nat)
    requires pos + avail <= len <= inBuf.Length
    modifies inBuf
    ensures inBuf[..len - avail] == Without(old(inBuf[..len]), pos, avail)
  {
    ghost var data := inBuf[..len];
    forall i | pos <= i < len - avail {
      inBuf[i] := inBuf[i + avail];
    }
    assert forall i :: 0 <= i < len - avail ==> inBuf[i] == Without(data, pos, avail)[i];
  }

  /** Steps so far and bytes still ahead, for one chunk length. */
  ghost predicate StepsAccounted(len: nat, removeLen: nat, stageCur: nat, newLen: nat, pos: nat) {
    && (pos < newLen ==> stageCur * removeLen + (newLen - pos) == len - removeLen)
    && (pos >= newLen ==> stageCur == 0 || (stageCur - 1) * removeLen < len - removeLen)
  }

  lemma OneMoreStep(len: nat, removeLen: nat, stageCur: nat, newLen: nat, pos: nat, newLen': nat, pos': nat)
    requires removeLen > 0 && pos < newLen && StepsAccounted(len, removeLen, stageCur, newLen, pos)
    requires (newLen' == newLen && pos' == pos + removeLen)
        || (newLen' == newLen - Min(removeLen, newLen - pos) && pos' == pos)
    ensures StepsAccounted(len, removeLen, stageCur + 1, newLen', pos')
  {
    assert (stageCur + 1) * removeLen == stageCur * removeLen + removeLen;
  }

  lemma TooManySteps(removeLen: nat, stageCur: nat)
    ensures stageCur >= TRIM_END_STEPS ==> (stageCur - 1) * removeLen >= TRIM_END_STEPS * removeLen - removeLen
  {
    if stageCur >= TRIM_END_STEPS {
      assert (stageCur - 1) * removeLen >= (TRIM_END_STEPS - 1) * removeLen;
    }
  }

  lemma FewSteps(len: nat, removeLen: nat, stageCur: nat, newLen: nat, pos: nat)
    requires removeLen > 0 && StepsAccounted(len, removeLen, stageCur, newLen, pos)
    requires len <= TRIM_END_STEPS * removeLen
    ensures stageCur < TRIM_END_STEPS
    ensures pos < newLen ==> stageCur + 1 < TRIM_END_STEPS
  {
    TooManySteps(removeLen, stageCur);
    TooManySteps(removeLen, stageCur + 1);
  }

  /** What a sweep from `pos` with chunks of length `d` makes of the input, and whether the target failed to run. */
  datatype Sweep = Sweep(data: seq<u8>, failed: bool)

  function Swept(run: Target, cksum: nat, data: seq<u8>, pos: nat, d: nat): (r: Sweep)
    requires d > 0
    ensures |r.data| <= |data| && (pos > 0 && data != [] ==> r.data != [])
    decreases |data|, |data| - pos
  {
    if pos >= |data| then Sweep(data, false)
    else
      var candidate := Without(data, pos, d);
      if run(candidate).fault == FaultError then Sweep(data, true)
      else if run(candidate).cksum == cksum then Swept(run, cksum, candidate, pos, d)
      else Swept(run, cksum, data, pos + d, d)
  }

  /** The sweeps from chunk length `d` down, the limits following the shrinking input. */
  function TrimmedFrom(run: Target, cksum: nat, data: seq<u8>, d: nat): (r: Sweep)
    requires d > 0
    ensures |r.data| <= |data|
    decreases d
  {
    if d < Max(LeastPower(|data|) / TRIM_END_STEPS, TRIM_MIN_BYTES) then Sweep(data, false)
    else
      var s := Swept(run, cksum, data, d, d);
      if s.failed || d / 2 == 0 then s else TrimmedFrom(run, cksum, s.data, d / 2)
  }

  function TrimResult(run: Target, cksum: nat, data: seq<u8>): Sweep {
    if |data| < 5 then Sweep(data, false)
    else TrimmedFrom(run, cksum, data, Max(LeastPower(|data|) / TRIM_START_STEPS, TRIM_MIN_BYTES))
  }

  // ---------------------------------------------------------------- what the sweeps come to, chunk by chunk

  /** Removing a chunk is for good when the checksum stays. */
  function Keeps(run: Target, cksum: nat): Test {
    x => run(x).cksum == cksum
  }

  ghost predicate AlwaysRuns(run: Target) {
    forall x :: run(x).fault != FaultError
  }

  /**
    One chunk length: each chunk but the first is gone exactly if the checksum stays without it, the chunks before
    it being what is left of them.  A target that fails to run ends it there.
  */
  ghost predicate IsRound(run: Target, cksum: nat, data: seq<u8>, d: nat, res: seq<u8>, failed: bool) {
    exists gone :: IsRoundBy(run, cksum, data, d, gone, res, failed)
  }

  ghost predicate IsRoundBy(run: Target, cksum: nat, data: seq<u8>, d: nat, gone: seq<bool>, res: seq<u8>,
                            failed: bool) {
    && gone != []
    && (if failed then
          IsSwept(Keeps(run, cksum), data, d, 1, gone, res) && run(Tried(data, d, gone, |gone|)).fault == FaultError
        else IsSweep(Keeps(run, cksum), data, d, 1, gone, res))
    && forall k: nat :: 1 <= k < |gone| ==> HasRun(run, data, d, gone, k)
  }

  ghost predicate HasRun(run: Target, data: seq<u8>, d: nat, gone: seq<bool>, k: nat)
    requires k <= |gone|
  {
    run(Tried(data, d, gone, k)).fault != FaultError
  }

  lemma OneMoreRan(run: Target, data: seq<u8>, d: nat, gone: seq<bool>, drop: bool)
    requires forall k: nat :: 1 <= k < |gone| ==> HasRun(run, data, d, gone, k)
    requires gone != [] && HasRun(run, data, d, gone, |gone|)
    ensures forall k: nat :: 1 <= k < |gone + [drop]| ==> HasRun(run, data, d, gone + [drop], k)
  {
    forall k: nat | 1 <= k < |gone + [drop]| ensures HasRun(run, data, d, gone + [drop], k) {
      KeptPrefix(data, d, gone, drop, k);
      assert HasRun(run, data, d, gone, k);
    }
  }

  /** The reference sweep, started after the chunks in `gone`, decides every chunk. */
  lemma {:induction false} SweptDecides(run: Target, cksum: nat, orig: seq<u8>, d: nat, gone: seq<bool>,
                                        data: seq<u8>, pos: nat)
    requires IsAt(Keeps(run, cksum), orig, d, 1, gone, data, pos) && gone != []
    requires forall k: nat :: 1 <= k < |gone| ==> HasRun(run, orig, d, gone, k)
    ensures var r := Swept(run, cksum, data, pos, d); IsRound(run, cksum, orig, d, r.data, r.failed)
    decreases |data|, |data| - pos
  {
    if pos >= |data| {
      assert IsRoundBy(run, cksum, orig, d, gone, data, false);
    } else {
      var candidate := Without(data, pos, d);
      NextBlock(Keeps(run, cksum), orig, d, 1, gone, data, pos);
      if run(candidate).fault == FaultError {
        assert IsRoundBy(run, cksum, orig, d, gone, data, true);
      } else {
        var drop := run(candidate).cksum == cksum;
        OneMoreRan(run, orig, d, gone, drop);
        var after, next := if drop then candidate else data, if drop then pos else pos + d;
        SweepMoves(Keeps(run, cksum), orig, d, 1, gone, data, pos, drop, after, next);
        SweptDecides(run, cksum, orig, d, gone + [drop], after, next);
      }
    }
  }

  /** A sweep begins behind the first chunk. */
  lemma SweptIsRound(run: Target, cksum: nat, data: seq<u8>, d: nat)
    requires 0 < d && data != []
    ensures var r := Swept(run, cksum, data, d, d); IsRound(run, cksum, data, d, r.data, r.failed)
  {
    var test := Keeps(run, cksum);
    FirstStays(test, data, d);
    SweptDecides(run, cksum, data, d, [false], data, d);
  }

  lemma FirstStays(test: Test, data: seq<u8>, d: nat)
    requires 0 < d && data != []
    ensures IsAt(test, data, d, 1, [false], data, d)
  {
    SweepStarts(test, data, d, 1);
    SweepMoves(test, data, d, 1, [], data, 0, false, data, d);
    assert [] + [false] == [false];
  }

  /** One chunk length of a trimming: the input it starts from, with the power of two that bounds its length. */
  datatype Round = Round(d: nat, p2: nat, data: seq<u8>)

  ghost predicate AreLinked(run: Target, cksum: nat, rounds: seq<Round>) {
    forall j :: 0 < j < |rounds| ==>
      && rounds[j].d == rounds[j - 1].d / 2
      && IsRound(run, cksum, rounds[j - 1].data, rounds[j - 1].d, rounds[j].data, false)
  }

  /** The rounds of a trimming, the first with chunk length `d`. */
  ghost predicate AreRounds(run: Target, cksum: nat, data: seq<u8>, d: nat, rounds: seq<Round>, res: seq<u8>,
                            failed: bool) {
    && rounds != [] && rounds[0].data == data && rounds[0].d == d
    && (forall j :: 0 <= j < |rounds| ==> IsFineEnough(rounds[j]))
    && AreLinked(run, cksum, rounds)
    && var last := rounds[|rounds| - 1];
    && IsRound(run, cksum, last.data, last.d, res, failed)
    && (!failed ==> IsTooShort(last.d / 2, |res|))
  }

  ghost predicate IsFineEnough(r: Round) {
    IsLeastPower(r.p2, |r.data|) && r.d >= Max(r.p2 / 1024, 4)
  }

  /** A chunk length at which the trimming stops. */
  ghost predicate IsTooShort(d: nat, len: nat) {
    exists p: nat :: IsLeastPower(p, len) && d < Max(p / 1024, 4)
  }

  /**
    A whole trimming: chunk lengths from a sixteenth of the input, at least 4, each half of the one before, as long
    as they are no less than a 1024th of what is left, and at least 4.  It ends early when the target fails to run.
  */
  ghost predicate IsTrimming(run: Target, cksum: nat, orig: seq<u8>, res: seq<u8>, failed: bool) {
    exists rounds: seq<Round> ::
      rounds != [] && AreRounds(run, cksum, orig, Max(rounds[0].p2 / 16, 4), rounds, res, failed)
  }

  /** The first round, and the rounds from what it leaves. */
  lemma OneMoreRound(run: Target, cksum: nat, first: Round, rest: seq<Round>, mid: seq<u8>, res: seq<u8>, failed: bool)
    requires IsFineEnough(first) && IsRound(run, cksum, first.data, first.d, mid, false)
    requires AreRounds(run, cksum, mid, first.d / 2, rest, res, failed)
    ensures AreRounds(run, cksum, first.data, first.d, [first] + rest, res, failed)
  {
    var rounds := [first] + rest;
    forall j | 0 < j < |rounds|
      ensures rounds[j].d == rounds[j - 1].d / 2
              && IsRound(run, cksum, rounds[j - 1].data, rounds[j - 1].d, rounds[j].data, false)
    {
      assert rounds[j] == rest[j - 1];
      assert j > 1 ==> rounds[j - 1] == rest[j - 2];
    }
  }

  lemma OnlyRound(run: Target, cksum: nat, r: Round, res: seq<u8>, failed: bool)
    requires IsFineEnough(r) && IsRound(run, cksum, r.data, r.d, res, failed)
    requires !failed ==> IsTooShort(r.d / 2, |res|)
    ensures AreRounds(run, cksum, r.data, r.d, [r], res, failed)
  {
  }

  lemma {:induction false} TrimmedIsRounds(run: Target, cksum: nat, data: seq<u8>, d: nat)
    returns (rounds: seq<Round>)
    requires data != [] && d >= Max(LeastPower(|data|) / TRIM_END_STEPS, TRIM_MIN_BYTES)
    ensures var r := TrimmedFrom(run, cksum, data, d); AreRounds(run, cksum, data, d, rounds, r.data, r.failed)
    ensures rounds[0].p2 == LeastPower(|data|)
    decreases d
  {
    var s, first := Swept(run, cksum, data, d, d), Round(d, LeastPower(|data|), data);
    SweptIsRound(run, cksum, data, d);
    LeastPowerIs(|data|);
    LeastPowerIs(|s.data|);
    if s.failed || d / 2 < Max(LeastPower(|s.data|) / TRIM_END_STEPS, TRIM_MIN_BYTES) {
      rounds := [first];
      assert s.failed || TrimmedFrom(run, cksum, s.data, d / 2) == s;
      OnlyRound(run, cksum, first, s.data, s.failed);
    } else {
      rounds := TrimmedIsRounds(run, cksum, s.data, d / 2);
      var r := TrimmedFrom(run, cksum, s.data, d / 2);
      assert TrimmedFrom(run, cksum, data, d) == r;
      OneMoreRound(run, cksum, first, rounds, s.data, r.data, r.failed);
      rounds := [first] + rounds;
    }
  }

  /** Trimming is a chain of sweeps, each of which decides every chunk. */
  lemma TrimIsSweeps(run: Target, cksum: nat, data: seq<u8>)
    requires |data| >= 5
    ensures var r := TrimResult(run, cksum, data); IsTrimming(run, cksum, data, r.data, r.failed)
  {
    LeastPowerIs(|data|);
    var rounds :=
      TrimmedIsRounds(run, cksum, data, Max(LeastPower(|data|) / TRIM_START_STEPS, TRIM_MIN_BYTES));
  }

  // ---------------------------------------------------------------- when nothing is removed

  /** For no chunk length from `d` down can a chunk but the first go on its own. */
  ghost predicate AllChunksMatter(run: Target, cksum: nat, data: seq<u8>, p2: nat, d: nat) {
    d >= Max(p2 / 1024, 4) ==> AllMatter(Keeps(run, cksum), data, d, 1) && AllChunksMatter(run, cksum, data, p2, d / 2)
  }

  lemma {:induction false} UntouchedIff(run: Target, cksum: nat, data: seq<u8>, d: nat)
    requires data != [] && d > 0 && AlwaysRuns(run)
    ensures TrimmedFrom(run, cksum, data, d).data == data <==> AllChunksMatter(run, cksum, data, LeastPower(|data|), d)
    decreases d
  {
    if d >= Max(LeastPower(|data|) / TRIM_END_STEPS, TRIM_MIN_BYTES) {
      var s := Swept(run, cksum, data, d, d);
      SweptIsRound(run, cksum, data, d);
      assert !s.failed by {
        assert AlwaysRuns(run);
      }
      var gone :| IsRoundBy(run, cksum, data, d, gone, s.data, s.failed);
      UnchangedIff(Keeps(run, cksum), data, d, 1, gone, s.data);
      SweepShortens(Keeps(run, cksum), data, d, 1, gone, s.data);
      if s.data == data {
        UntouchedIff(run, cksum, data, d / 2);
      }
    }
  }

  /** Where a sweep stands. */
  ghost predicate Sweeping(run: Target, cksum: nat, start: seq<u8>, data: seq<u8>, pos: nat, d: nat) {
    d > 0 && Swept(run, cksum, start, d, d) == Swept(run, cksum, data, pos, d)
  }

  /** One step of a sweep; `after` and `next` are the input and the position it leads to. */
  lemma SweepGoesOn(run: Target, cksum: nat, start: seq<u8>, data: seq<u8>, pos: nat, d: nat, after: seq<u8>, next: nat)
    requires Sweeping(run, cksum, start, data, pos, d) && pos < |data|
    requires var c := Without(data, pos, d);
      && run(c).fault != FaultError
      && if run(c).cksum == cksum then after == c && next == pos else after == data && next == pos + d
    ensures Sweeping(run, cksum, start, after, next, d)
  {
  }

  /** Everything that holds between two steps of a sweep over `start`, a cut-down form of `orig`. */
  ghost predicate SweepState(run: Target, cksum: nat, orig: seq<u8>, start: seq<u8>, data: seq<u8>, needsWrite: bool,
                             stageCur: nat, pos: nat, d: nat)
  {
    && 0 < d <= |data| <= |start| && d <= pos
    && data[..d] == start[..d]
    && Trimmed(run, cksum, orig, data, needsWrite)
    && StepsAccounted(|start|, d, stageCur, |data|, pos)
    && Sweeping(run, cksum, start, data, pos, d)
  }

  lemma SweepRemoves(run: Target, cksum: nat, orig: seq<u8>, start: seq<u8>, data: seq<u8>, needsWrite: bool,
                     stageCur: nat, pos: nat, d: nat, after: seq<u8>)
    requires SweepState(run, cksum, orig, start, data, needsWrite, stageCur, pos, d)
    requires pos < |data| && after == Without(data, pos, d) && run(after).cksum == cksum
    requires run(after).fault != FaultError
    ensures SweepState(run, cksum, orig, start, after, true, stageCur + 1, pos, d)
  {
    OneMoreStep(|start|, d, stageCur, |data|, pos, |after|, pos);
    SweepGoesOn(run, cksum, start, data, pos, d, after, pos);
    DeletingSimplifiesMore(NO_FILL, orig, data, pos, d);
  }

  lemma SweepKeeps(run: Target, cksum: nat, orig: seq<u8>, start: seq<u8>, data: seq<u8>, needsWrite: bool,
                   stageCur: nat, pos: nat, d: nat, candidate: seq<u8>, next: nat)
    requires SweepState(run, cksum, orig, start, data, needsWrite, stageCur, pos, d)
    requires pos < |data| && next == pos + d && candidate == Without(data, pos, d)
    requires run(candidate).cksum != cksum && run(candidate).fault != FaultError
    ensures SweepState(run, cksum, orig, start, data, needsWrite, stageCur + 1, next, d)
  {
    OneMoreStep(|start|, d, stageCur, |data|, pos, |data|, next);
    SweepGoesOn(run, cksum, start, data, pos, d, data, next);
  }

  ghost predicate StoppedAt(run: Target, data: seq<u8>, pos: nat, d: nat) {
    pos < |data| && run(Without(data, pos, d)).fault == FaultError
  }

  /** One execution: the chunk goes if the checksum stays, else the next one is looked at. */
  method TrimStep(run: Target, cksum: nat, inBuf: array<u8>, len: nat, removePos: nat, removeLen: nat, needsWrite: bool,
                  ghost orig: seq<u8>, ghost start: seq<u8>, ghost stageCur: nat)
    returns (newLen: nat, next: nat, needsWrite': bool, fault: Fault)
    requires removePos < len <= inBuf.Length
    requires SweepState(run, cksum, orig, start, inBuf[..len], needsWrite, stageCur, removePos, removeLen)
    modifies inBuf
    ensures newLen <= len
    ensures fault == FaultError ==> StoppedAt(run, inBuf[..newLen], next, removeLen)
    ensures SweepState(run, cksum, orig, start, inBuf[..newLen], needsWrite',
                       if fault == FaultError then stageCur else stageCur + 1, next, removeLen)
    ensures fault != FaultError ==> newLen < len || next == removePos + removeLen
  {
    ghost var data := inBuf[..len];
    newLen, next, needsWrite' := len, removePos, needsWrite;
    var trimAvail := Min(removeLen, len - removePos);
    var candidate := WithGap(inBuf, len, removePos, trimAvail);
    assert candidate == Without(data, removePos, removeLen);
    var exec := run(candidate);
    fault := exec.fault;
    if fault != FaultError {
      if exec.cksum == cksum {
        SweepRemoves(run, cksum, orig, start, data, needsWrite, stageCur, removePos, removeLen, candidate);
        MoveTail(inBuf, len, removePos, trimAvail);
        newLen := len - trimAvail;
        needsWrite' := true;
      } else {
        next := removePos + removeLen;
        SweepKeeps(run, cksum, orig, start, data, needsWrite, stageCur, removePos, removeLen, candidate, next);
      }
    }
  }

  lemma SweepEnds(run: Target, cksum: nat, start: seq<u8>, data: seq<u8>, pos: nat, d: nat, failed: bool)
    requires Sweeping(run, cksum, start, data, pos, d)
    requires if failed then StoppedAt(run, data, pos, d) else pos >= |data|
    ensures Swept(run, cksum, start, d, d) == Sweep(data, failed)
  {
  }

  /** All positions for one chunk length: fewer than TRIM_END_STEPS executions, counting one that fails. */
  method TrimSweep(run: Target, cksum: nat, inBuf: array<u8>, len: nat, removeLen: nat, needsWrite: bool,
                   ghost orig: seq<u8>)
    returns (newLen: nat, needsWrite': bool, fault: Fault, execs: nat)
    requires 0 < removeLen <= len <= inBuf.Length && len <= TRIM_END_STEPS * removeLen
    requires Trimmed(run, cksum, orig, inBuf[..len], needsWrite)
    modifies inBuf
    ensures removeLen <= newLen <= len && Trimmed(run, cksum, orig, inBuf[..newLen], needsWrite')
    ensures inBuf[..removeLen] == old(inBuf[..removeLen])
    ensures Swept(run, cksum, old(inBuf[..len]), removeLen, removeLen) == Sweep(inBuf[..newLen], fault == FaultError)
    ensures execs < TRIM_END_STEPS
  {
    newLen, needsWrite', fault, execs := len, needsWrite, FaultNone, 0;
    var stageCur: nat := 0;
    var removePos: nat := removeLen;
    ghost var start := inBuf[..len];
    assert start[..removeLen] == inBuf[..removeLen];
    while removePos < newLen && fault != FaultError
      invariant newLen <= len
      invariant SweepState(run, cksum, orig, start, inBuf[..newLen], needsWrite', stageCur, removePos, removeLen)
      invariant fault == FaultError ==> StoppedAt(run, inBuf[..newLen], removePos, removeLen)
      invariant execs == if fault == FaultError then stageCur + 1 else stageCur
      decreases fault != FaultError, newLen, newLen - removePos
    {
      newLen, removePos, needsWrite', fault :=
        TrimStep(run, cksum, inBuf, newLen, removePos, removeLen, needsWrite', orig, start, stageCur);
      execs := execs + 1;
      stageCur := if fault == FaultError then stageCur else stageCur + 1;
    }
    ghost var data := inBuf[..newLen];
    FewSteps(len, removeLen, stageCur, newLen, removePos);
    SweepEnds(run, cksum, start, data, removePos, removeLen, fault == FaultError);
    assert inBuf[..removeLen] == data[..removeLen];
  }

  /** Everything that holds between two sweeps. */
  ghost predicate CaseState(run: Target, cksum: nat, orig: seq<u8>, data: seq<u8>, needsWrite: bool, d: nat) {
    && d > 0 && TRIM_MIN_BYTES <= |data| <= |orig|
    && (d >= TRIM_MIN_BYTES ==> d <= |data|)
    && Trimmed(run, cksum, orig, data, needsWrite)
    && data[..TRIM_MIN_BYTES] == orig[..TRIM_MIN_BYTES]
    && TrimResult(run, cksum, orig) == TrimmedFrom(run, cksum, data, d)
  }

  lemma CaseGoesOn(run: Target, cksum: nat, orig: seq<u8>, data: seq<u8>, needsWrite: bool, d: nat,
                   after: seq<u8>, needsWrite': bool, failed: bool, half: nat)
    requires CaseState(run, cksum, orig, data, needsWrite, d)
    requires d >= Max(LeastPower(|data|) / TRIM_END_STEPS, TRIM_MIN_BYTES) && half == d / 2
    requires d <= |after| <= |data| && after[..d] == data[..d] && Trimmed(run, cksum, orig, after, needsWrite')
    requires Swept(run, cksum, data, d, d) == Sweep(after, failed)
    ensures failed ==> TrimResult(run, cksum, orig) == Sweep(after, true)
    ensures !failed ==> CaseState(run, cksum, orig, after, needsWrite', half)
    ensures after[..TRIM_MIN_BYTES] == orig[..TRIM_MIN_BYTES]
  {
    assert after[..TRIM_MIN_BYTES] == after[..d][..TRIM_MIN_BYTES];
    assert data[..TRIM_MIN_BYTES] == data[..d][..TRIM_MIN_BYTES];
  }

  /** The executions for each chunk length. */
  ghost predicate IsFewEach(execs: seq<nat>) {
    forall k :: 0 <= k < |execs| ==> execs[k] < TRIM_END_STEPS
  }

  /**
    The whole trimming.  Whatever the target does, the result is a subsequence of
    the input that keeps its first TRIM_MIN_BYTES bytes, and if anything was removed
    the target's checksum on the result is the one that was asked for.  Each chunk length
    costs fewer than TRIM_END_STEPS executions.
  */
  method TrimCase(run: Target, cksum: nat, inBuf: array<u8>, len: nat)
    returns (newLen: nat, needsWrite: bool, fault: Fault, execs: seq<nat>)
    requires len <= inBuf.Length
    modifies inBuf
    ensures newLen <= len && Trimmed(run, cksum, old(inBuf[..len]), inBuf[..newLen], needsWrite)
    ensures len >= 5 ==> newLen >= TRIM_MIN_BYTES && inBuf[..TRIM_MIN_BYTES] == old(inBuf[..TRIM_MIN_BYTES])
    ensures run(old(inBuf[..len])).cksum == cksum ==> run(inBuf[..newLen]).cksum == cksum
    ensures TrimResult(run, cksum, old(inBuf[..len])) == Sweep(inBuf[..newLen], fault == FaultError)
    ensures len < 5 ==> !needsWrite
    ensures len >= 5 ==> IsTrimming(run, cksum, old(inBuf[..len]), inBuf[..newLen], fault == FaultError)
    ensures len >= 5 && AlwaysRuns(run) ==>
              (!needsWrite <==> AllChunksMatter(run, cksum, old(inBuf[..len]), LeastPower(len),
                                                Max(LeastPower(len) / 16, 4)))
    ensures IsFewEach(execs)
  {
    ghost var orig := inBuf[..len];
    newLen, needsWrite, fault, execs := len, false, FaultNone, [];
    SimplifiesItself(NO_FILL, orig);
    if len < 5 {
      return;
    }
    var lenP2 := NextP2(len);
    var removeLen := Max(lenP2 / TRIM_START_STEPS, TRIM_MIN_BYTES);
    SixteenthFits(len, lenP2);
    while removeLen >= Max(lenP2 / TRIM_END_STEPS, TRIM_MIN_BYTES) && fault != FaultError
      invariant newLen <= len && lenP2 == LeastPower(newLen) && IsFewEach(execs)
      invariant removeLen > 0
      invariant (fault != FaultError ==> CaseState(run, cksum, orig, inBuf[..newLen], needsWrite, removeLen))
      invariant fault == FaultError ==>
        && newLen >= TRIM_MIN_BYTES && Trimmed(run, cksum, orig, inBuf[..newLen], needsWrite)
        && inBuf[..newLen][..TRIM_MIN_BYTES] == orig[..TRIM_MIN_BYTES]
        && TrimResult(run, cksum, orig) == Sweep(inBuf[..newLen], true)
      decreases removeLen, fault != FaultError
    {
      var count;
      newLen, needsWrite, fault, count := TrimRound(run, cksum, inBuf, newLen, lenP2, removeLen, needsWrite, orig);
      execs := execs + [count];
      lenP2 := NextP2(newLen);
      removeLen := removeLen / 2;
    }
    assert inBuf[..TRIM_MIN_BYTES] == inBuf[..newLen][..TRIM_MIN_BYTES];
    TrimIsSweeps(run, cksum, orig);
    if AlwaysRuns(run) {
      UntouchedIff(run, cksum, orig, Max(LeastPower(len) / TRIM_START_STEPS, TRIM_MIN_BYTES));
    }
  }

  /** One chunk length of the whole trimming. */
  method TrimRound(run: Target, cksum: nat, inBuf: array<u8>, len: nat, lenP2: nat, removeLen: nat, needsWrite: bool,
                   ghost orig: seq<u8>)
    returns (newLen: nat, needsWrite': bool, fault: Fault, execs: nat)
    requires len <= inBuf.Length && lenP2 == LeastPower(len)
    requires CaseState(run, cksum, orig, inBuf[..len], needsWrite, removeLen)
    requires removeLen >= Max(lenP2 / TRIM_END_STEPS, TRIM_MIN_BYTES)
    modifies inBuf
    ensures TRIM_MIN_BYTES <= newLen <= len && removeLen / 2 > 0 && execs < TRIM_END_STEPS
    ensures fault != FaultError ==> CaseState(run, cksum, orig, inBuf[..newLen], needsWrite', removeLen / 2)
    ensures fault == FaultError ==>
      && Trimmed(run, cksum, orig, inBuf[..newLen], needsWrite')
      && inBuf[..newLen][..TRIM_MIN_BYTES] == orig[..TRIM_MIN_BYTES]
      && TrimResult(run, cksum, orig) == Sweep(inBuf[..newLen], true)
  {
    ghost var data := inBuf[..len];
    DoublingReaches(len, 1);
    FewChunks(len, lenP2, removeLen);
    newLen, needsWrite', fault, execs := TrimSweep(run, cksum, inBuf, len, removeLen, needsWrite, orig);
    ghost var after := inBuf[..newLen];
    assert after[..removeLen] == inBuf[..removeLen];
    assert data[..removeLen] == old(inBuf[..removeLen]);
    CaseGoesOn(run, cksum, orig, data, needsWrite, removeLen, after, needsWrite', fault == FaultError, removeLen / 2);
  }

  lemma SixteenthFits(len: nat, lenP2: nat)
    requires len >= 5 && lenP2 == LeastPower(len)
    ensures Max(lenP2 / TRIM_START_STEPS, TRIM_MIN_BYTES) <= len
  {
    DoublingReaches(len, 1);
  }
}
