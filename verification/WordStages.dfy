/**
  What `could_be_bitflip` skips on words of any width, against what the flip stages ran.
  A run that differs from the input is written as a mask applied at a position: `Applied`.
*/
module WordStages {
  import opened Buffers
  import opened Redundancy
  import opened DetStages
  import opened FlipStages
  import opened FlipMasks
  import opened ByteStages

  // ---------------------------------------------------------------- runs as masks

  /** The input with the mask xored in from position `p` on. */
  function Applied(data: seq<u8>, p: nat, x: seq<u8>): (r: seq<u8>)
    requires p + |x| <= |data|
    ensures |r| == |data|
  {
    seq(|data|, i requires 0 <= i < |data| => if p <= i < p + |x| then Xor8(data[i], x[i - p]) else data[i])
  }

  /** A mask that starts and ends with a change. */
  predicate IsTrimmed(x: seq<u8>) {
    x != [] && x[0] != 0 && x[|x| - 1] != 0
  }

  lemma AppliedChanges(data: seq<u8>, p: nat, x: seq<u8>, i: nat)
    requires p + |x| <= |data| && i < |data|
    ensures Applied(data, p, x)[i] != data[i] <==> p <= i < p + |x| && x[i - p] != 0
  {
    if p <= i < p + |x| {
      XorChanges(data[i], x[i - p]);
    }
  }

  /** A run comes from one position and one trimmed mask only. */
  lemma AppliedOnce(data: seq<u8>, p: nat, x: seq<u8>, q: nat, y: seq<u8>)
    requires p + |x| <= |data| && q + |y| <= |data| && IsTrimmed(x) && IsTrimmed(y)
    requires Applied(data, p, x) == Applied(data, q, y)
    ensures p == q && x == y
  {
    AppliedChanges(data, p, x, p);
    AppliedChanges(data, q, y, p);
    AppliedChanges(data, p, x, q);
    AppliedChanges(data, q, y, q);
    AppliedChanges(data, p, x, p + |x| - 1);
    AppliedChanges(data, q, y, p + |x| - 1);
    AppliedChanges(data, p, x, q + |y| - 1);
    AppliedChanges(data, q, y, q + |y| - 1);
    assert p == q && |x| == |y|;
    forall k | 0 <= k < |x| ensures x[k] == y[k] {
      assert Applied(data, p, x)[p + k] == Applied(data, q, y)[p + k];
      MaskBetween(data[p + k], Xor8(data[p + k], x[k]), x[k]);
      MaskBetween(data[p + k], Xor8(data[p + k], x[k]), y[k]);
    }
  }

  lemma OverwrittenIsApplied(data: seq<u8>, at: nat, c: seq<u8>)
    requires at + |c| <= |data|
    ensures Overwritten(data, at, c) == Applied(data, at, Xor(data[at..at + |c|], c))
  {
    var m := Xor(data[at..at + |c|], c);
    forall i | at <= i < at + |c| ensures Xor8(data[i], m[i - at]) == c[i - at] {
      MaskBetween(data[i], c[i - at], m[i - at]);
    }
  }

  lemma PaddedApplied(data: seq<u8>, at: nat, m: seq<u8>, k: nat, x: seq<u8>)
    requires at + |m| <= |data| && k + |x| <= |m| && m[k..k + |x|] == x
    requires forall i :: 0 <= i < |m| && !(k <= i < k + |x|) ==> m[i] == 0
    ensures Applied(data, at, m) == Applied(data, at + k, x)
  {
    forall i | at <= i < at + |m| && !(k <= i - at < k + |x|) ensures Xor8(data[i], m[i - at]) == data[i] {
      XorChanges(data[i], 0);
    }
    forall j | 0 <= j < |x| ensures m[k + j] == x[j] {
      assert m[k..k + |x|][j] == m[k + j];
    }
    var r, q := Applied(data, at, m), Applied(data, at + k, x);
    forall i | 0 <= i < |data| ensures r[i] == q[i] {
      if at + k <= i < at + k + |x| {
        assert x[i - at - k] == m[k + (i - at - k)];
      }
    }
  }

  // ---------------------------------------------------------------- masks the check accepts

  lemma OddTimesPower(y: nat, sh: nat, z: nat)
    requires y % 2 == 1 && Shl(y, sh) == 256 * z
    ensures sh >= 8
  {
    ShlTable(y);
  }

  lemma FlipUpAByte(z: nat)
    requires LooksLikeFlip(z) && z > 0
    ensures LooksLikeFlip(256 * z)
  {
    var y: nat, sh: nat :| z == Shl(y, sh) && IsRun(y, sh);
    ShlByBytes(y, sh);
    assert IsRun(y, sh + 8);
  }

  lemma FlipDownAByte(z: nat)
    requires LooksLikeFlip(256 * z) && z > 0
    ensures LooksLikeFlip(z)
  {
    var y: nat, sh: nat :| 256 * z == Shl(y, sh) && IsRun(y, sh);
    OddTimesPower(y, sh, z);
    ShlByBytes(y, sh - 8);
    assert z == Shl(y, sh - 8) && IsRun(y, sh - 8);
  }

  /** The check looks only at the bits, not at how many whole bytes below them are clear. */
  lemma FlipByBytes(z: nat)
    requires z > 0
    ensures LooksLikeFlip(256 * z) <==> LooksLikeFlip(z)
  {
    if LooksLikeFlip(z) {
      FlipUpAByte(z);
    }
    if LooksLikeFlip(256 * z) {
      FlipDownAByte(z);
    }
  }

  ghost predicate IsZero(c: seq<u8>) {
    forall i :: 0 <= i < |c| ==> c[i] == 0
  }

  lemma {:induction false} ZeroHasNoValue(c: seq<u8>)
    ensures IsZero(c) <==> Value(c) == 0
  {
    if c != [] {
      ZeroHasNoValue(c[1..]);
      assert IsZero(c) <==> c[0] == 0 && IsZero(c[1..]) by {
        assert forall i :: 1 <= i < |c| ==> c[i] == c[1..][i - 1];
      }
    }
  }

  lemma {:induction false} TrailingZeros(x: seq<u8>, z: seq<u8>)
    requires IsZero(z)
    ensures Value(x + z) == Value(x)
  {
    if x == [] {
      assert x + z == z;
      ZeroHasNoValue(z);
    } else {
      assert (x + z)[1..] == x[1..] + z;
      TrailingZeros(x[1..], z);
    }
  }

  /** The part of a mask from its first to its last change. */
  ghost predicate IsCore(m: seq<u8>, k: nat, x: seq<u8>) {
    && k + |x| <= |m| && IsTrimmed(x) && m[k..k + |x|] == x
    && forall i :: 0 <= i < |m| && !(k <= i < k + |x|) ==> m[i] == 0
  }

  lemma {:induction false} DropTrailing(m: seq<u8>) returns (x: seq<u8>)
    requires m != [] && m[0] != 0
    ensures IsCore(m, 0, x) && Value(x) == Value(m)
  {
    var last := |m| - 1;
    if m[last] != 0 {
      x := m;
    } else {
      x := DropTrailing(m[..last]);
      assert m == m[..last] + [m[last]];
      TrailingZeros(m[..last], [m[last]]);
      assert m[0..|x|] == m[..last][0..|x|];
      forall i | 0 <= i < |m| && !(0 <= i < 0 + |x|) ensures m[i] == 0 {
        assert i < last ==> m[i] == m[..last][i];
      }
    }
  }

  lemma {:induction false} CoreOf(m: seq<u8>) returns (k: nat, x: seq<u8>)
    requires !IsZero(m)
    ensures IsCore(m, k, x) && (LooksLikeFlip(Value(m)) <==> LooksLikeFlip(Value(x)))
  {
    if m[0] != 0 {
      k := 0;
      x := DropTrailing(m);
    } else {
      var rest := m[1..];
      assert !IsZero(rest) by {
        var i :| 0 <= i < |m| && m[i] != 0;
        assert rest[i - 1] != 0;
      }
      k, x := CoreOf(rest);
      CoreBehindZero(m, rest, k, x, k + 1);
      k := k + 1;
      ZeroHasNoValue(rest);
      FlipByBytes(Value(rest));
    }
  }

  lemma CoreBehindZero(m: seq<u8>, rest: seq<u8>, k: nat, x: seq<u8>, next: nat)
    requires m != [] && m[0] == 0 && rest == m[1..] && next == k + 1 && IsCore(rest, k, x)
    ensures IsCore(m, next, x)
  {
    assert m[next..next + |x|] == rest[k..k + |x|];
    forall i | 0 <= i < |m| && !(next <= i < next + |x|) ensures m[i] == 0 {
      assert i > 0 ==> m[i] == rest[i - 1];
    }
  }

  lemma TwoByteValue(c: seq<u8>)
    requires |c| == 2
    ensures var lo: int, hi: int := c[0], c[1]; Value(c) == lo + 256 * hi
  {
    OneByteValue(c[1]);
    assert c[1..] == [c[1]];
  }

  lemma TwoByteImage(v: nat)
    requires v < 65536
    ensures Image(2, v) == [v % 256, v / 256]
  {
    assert Size(1) == 256 && Size(2) == 65536;
    assert Bytes(1, v / 256) == [v / 256 % 256] + Bytes(0, v / 256 / 256);
  }

  lemma LongValue(x: seq<u8>)
    requires |x| > 2 && IsTrimmed(x)
    ensures Value(x) >= 65536 && exists z: nat :: Value(x) == x[0] + 256 * z
  {
    var rest := x[2..];
    assert x[1..][1..] == rest && rest[|rest| - 1] == x[|x| - 1];
    ZeroHasNoValue(rest);
    assert Value(x) == x[0] + 256 * Value(x[1..]);
    assert Value(x[1..]) == x[1] + 256 * Value(rest);
  }

  lemma {:induction false} ValueBelow(c: seq<u8>)
    ensures Value(c) < Size(|c|)
  {
    if c != [] {
      ValueBelow(c[1..]);
    }
  }

  lemma {:induction false} LargestValue(c: seq<u8>)
    requires Value(c) == Size(|c|) - 1
    ensures c == Ones(|c|)
  {
    if c != [] {
      ValueBelow(c[1..]);
      LargestValue(c[1..]);
      assert c == [c[0]] + c[1..];
    }
  }

  lemma LowByteSet(lo: u8, z: nat, y: nat, sh: nat)
    requires lo + 256 * z == Shl(y, sh)
    ensures sh >= 8 ==> lo == 0
  {
    if sh >= 8 {
      ShlByBytes(y, sh - 8);
      LowByteOf(lo, z, Shl(y, sh - 8));
    }
  }

  /** A long mask is accepted only when it is all ones. */
  lemma LongCore(x: seq<u8>)
    requires 2 < |x| <= 4 && IsTrimmed(x) && LooksLikeFlip(Value(x))
    ensures x == Ones(4)
  {
    LongValue(x);
    var z: nat :| Value(x) == x[0] + 256 * z;
    var y: nat, sh: nat :| Value(x) == Shl(y, sh) && IsRun(y, sh);
    LowByteSet(x[0], z, y, sh);
    ShlTable(y);
    assert Value(x) == 0xffffffff;
    ValueBelow(x);
    assert Size(2) == 65536 && Size(3) == 256 * Size(2) && Size(4) == 256 * Size(3);
    LargestValue(x);
  }

  /** What the check accepts, up to whole bytes that do not change. */
  lemma AcceptedCore(x: seq<u8>)
    requires IsTrimmed(x) && |x| <= 4 && LooksLikeFlip(Value(x))
    ensures |x| == 1 || (|x| == 2 && LooksLikeWordFlip(x[0], x[1])) || x == Ones(4)
  {
    if |x| == 2 {
      TwoByteValue(x);
      WordFlipsAccepted(x[0], x[1]);
    } else if |x| > 2 {
      LongCore(x);
    }
  }

  // ---------------------------------------------------------------- what the flip stages run

  predicate IsCrossing(x: seq<u8>) {
    |x| == 2 && (x[0], x[1]) in [(1, 128), (7, 128), (3, 192), (1, 224)]
  }

  lemma OneByteApplied(data: seq<u8>, p: nat, m: u8)
    requires p < |data|
    ensures Applied(data, p, [m]) == data[p := Xor8(data[p], m)]
  {
  }

  lemma TwoBytesApplied(data: seq<u8>, p: nat, m: u8, m': u8)
    requires p + 1 < |data|
    ensures Applied(data, p, [m, m']) == data[p := Xor8(data[p], m)][p + 1 := Xor8(data[p + 1], m')]
  {
  }

  lemma BitRunIsMask(data: seq<u8>, bit: nat, n: nat) returns (p: nat, x: seq<u8>)
    requires (n == 1 || n == 2 || n == 4) && bit + n <= 8 * |data|
    ensures p + |x| <= |data| && IsTrimmed(x) && FlippedRun(data, bit, n) == Applied(data, p, x)
    ensures |x| == 1 || IsCrossing(x)
  {
    var b := bit % 8;
    p := bit / 8;
    if b + n <= 8 {
      RunWithin(data, bit, p, b, n);
      MasksAreNotZero(n, b);
      x := [RunMask(n, b)];
      OneByteApplied(data, p, x[0]);
    } else {
      RunAcross(data, bit, p, b, n);
      TwoBytesApplied(data, p, RunMask(8 - b, b), RunMask(b + n - 8, 0));
      MasksAreNotZero(8 - b, b);
      MasksAreNotZero(b + n - 8, 0);
      CrossingMasks(b, n);
      x := [RunMask(8 - b, b), RunMask(b + n - 8, 0)];
    }
  }

  lemma FlipStageRunIsMask(data: seq<u8>, run: seq<u8>) returns (p: nat, x: seq<u8>)
    requires data != [] && run in FlipStageRuns(data)
    ensures p + |x| <= |data| && IsTrimmed(x) && run == Applied(data, p, x)
    ensures |x| == 1 || IsCrossing(x)
  {
    if run in ByteFlipRuns(data) {
      p :| p < |data| && run == ByteFlipped(data, p);
      x := [255];
    } else {
      var n: nat := if run in FlipRuns(data, 1) then 1 else if run in FlipRuns(data, 2) then 2 else 4;
      var bit: nat :| bit < |FlipRuns(data, n)| && run == FlipRuns(data, n)[bit];
      p, x := BitRunIsMask(data, bit, n);
    }
  }

  predicate IsWordFlip(stage: Stage) { stage.Flip16? || stage.Flip32? }

  lemma WordFlipIsMask(stage: Stage, data: seq<u8>, p: nat)
    requires IsWordFlip(stage) && Fits(stage, data, p)
    ensures stage.IsCandidate(0, 0)
    ensures Overwritten(data, p, Candidate(stage, Word(stage, data, p), 0, 0)) == Applied(data, p, Ones(stage.Width()))
  {
  }

  lemma WordFlipRunIsMask(stage: Stage, data: seq<u8>, eff: seq<bool>, run: seq<u8>) returns (p: nat)
    requires IsWordFlip(stage) && |data| <= 8 * |eff| && run in StageRuns(stage, data, eff)
    ensures Fits(stage, data, p) && Reached(eff, p, stage.Width()) && run == Applied(data, p, Ones(stage.Width()))
  {
    var turn, way;
    p, turn, way := RunIsCandidate(stage, data, eff, run);
    WordFlipIsMask(stage, data, p);
  }

  lemma MaskIsWordFlipRun(stage: Stage, data: seq<u8>, eff: seq<bool>, p: nat)
    requires IsWordFlip(stage) && |data| <= 8 * |eff| && Fits(stage, data, p) && Reached(eff, p, stage.Width())
    ensures Applied(data, p, Ones(stage.Width())) in StageRuns(stage, data, eff)
  {
    WordFlipIsMask(stage, data, p);
    CandidateIsRun(stage, data, eff, p, 0, 0, Applied(data, p, Ones(stage.Width())));
  }

  lemma MaskIsByteRun(data: seq<u8>, p: nat, x: u8)
    requires p < |data| && x != 0 && LooksLikeFlip(x)
    ensures Applied(data, p, [x]) in FlipStageRuns(data)
  {
    var v := Xor8(data[p], x);
    XorChanges(data[p], x);
    MaskBetween(data[p], v, x);
    OneByteApplied(data, p, x);
    FlipsTry(data, p, v);
  }

  /** The runs of all flip stages. */
  ghost function AllFlipRuns(data: seq<u8>, eff: seq<bool>): seq<seq<u8>>
    requires data != [] && |data| <= 8 * |eff|
  {
    FlipStageRuns(data) + StageRuns(Flip16, data, eff) + StageRuns(Flip32, data, eff)
  }

  /** Whether an accepted mask at `p` was flipped: one byte, two whole bytes if reached there, or four. */
  ghost predicate WasFlipped(eff: seq<bool>, p: nat, x: seq<u8>)
    requires p + |x| <= 8 * |eff|
  {
    |x| == 1 || (x == Ones(2) && Reached(eff, p, 2)) || (x == Ones(4) && Reached(eff, p, 4))
  }

  lemma AcceptedIsRun(data: seq<u8>, eff: seq<bool>, p: nat, x: seq<u8>)
    requires |data| <= 8 * |eff| && p + |x| <= |data| && IsTrimmed(x) && LooksLikeFlip(Value(x))
    requires WasFlipped(eff, p, x)
    ensures Applied(data, p, x) in AllFlipRuns(data, eff)
  {
    if |x| == 1 {
      OneByteValue(x[0]);
      assert x == [x[0]];
      MaskIsByteRun(data, p, x[0]);
    } else if |x| == 2 {
      MaskIsWordFlipRun(Flip16, data, eff, p);
    } else {
      MaskIsWordFlipRun(Flip32, data, eff, p);
    }
  }

  lemma EarlyRunWasFlipped(data: seq<u8>, p: nat, x: seq<u8>)
    requires data != [] && p + |x| <= |data| && IsTrimmed(x) && |x| <= 4 && LooksLikeFlip(Value(x))
    requires Applied(data, p, x) in FlipStageRuns(data)
    ensures |x| == 1
  {
    AcceptedCore(x);
    var q, y := FlipStageRunIsMask(data, Applied(data, p, x));
    AppliedOnce(data, p, x, q, y);
  }

  lemma WordRunWasFlipped(stage: Stage, data: seq<u8>, eff: seq<bool>, p: nat, x: seq<u8>)
    requires IsWordFlip(stage) && |data| <= 8 * |eff| && p + |x| <= |data| && IsTrimmed(x)
    requires Applied(data, p, x) in StageRuns(stage, data, eff)
    ensures x == Ones(stage.Width()) && Reached(eff, p, stage.Width())
  {
    var q := WordFlipRunIsMask(stage, data, eff, Applied(data, p, x));
    AppliedOnce(data, p, x, q, Ones(stage.Width()));
  }

  lemma RunWasFlipped(data: seq<u8>, eff: seq<bool>, p: nat, x: seq<u8>)
    requires |data| <= 8 * |eff| && p + |x| <= |data| && IsTrimmed(x) && |x| <= 4 && LooksLikeFlip(Value(x))
    requires Applied(data, p, x) in AllFlipRuns(data, eff)
    ensures WasFlipped(eff, p, x)
  {
    var run := Applied(data, p, x);
    if run in FlipStageRuns(data) {
      EarlyRunWasFlipped(data, p, x);
    } else if run in StageRuns(Flip16, data, eff) {
      WordRunWasFlipped(Flip16, data, eff, p, x);
    } else {
      WordRunWasFlipped(Flip32, data, eff, p, x);
    }
  }

  // ---------------------------------------------------------------- when skipping a flip is right

  lemma OverwrittenIsCore(data: seq<u8>, at: nat, c: seq<u8>, k: nat, x: seq<u8>, p: nat)
    requires at + |c| <= |data| && IsCore(Xor(data[at..at + |c|], c), k, x) && p == at + k
    ensures Overwritten(data, at, c) == Applied(data, p, x)
  {
    OverwrittenIsApplied(data, at, c);
    PaddedApplied(data, at, Xor(data[at..at + |c|], c), k, x);
  }

  /** For a mask of any width: its core decides. */
  lemma SkippedIsRightIff(data: seq<u8>, eff: seq<bool>, at: nat, c: seq<u8>, k: nat, x: seq<u8>, p: nat)
    requires at + |c| <= |data| <= 8 * |eff| && |c| <= 4 && IsCore(Xor(data[at..at + |c|], c), k, x) && p == at + k
    requires LooksLikeFlip(Value(x))
    ensures Overwritten(data, at, c) in AllFlipRuns(data, eff) <==> WasFlipped(eff, p, x)
  {
    OverwrittenIsCore(data, at, c, k, x, p);
    if WasFlipped(eff, p, x) {
      AcceptedIsRun(data, eff, p, x);
    }
    if Applied(data, p, x) in AllFlipRuns(data, eff) {
      RunWasFlipped(data, eff, p, x);
    }
  }

  lemma DifferentWordsHaveMask(orig: seq<u8>, c: seq<u8>)
    requires |orig| == |c| && c != orig
    ensures !IsZero(Xor(orig, c))
  {
    var i :| 0 <= i < |c| && c[i] != orig[i];
    DifferentBytesHaveMask(orig[i], c[i]);
    assert Xor(orig, c)[i] != 0;
  }

  /**
    The check reads a word as a little-endian number, while bits are flipped from the most
    significant one, so it also accepts masks that nothing flipped.  A 16-bit candidate
    that it skips was run by a flip stage exactly when it changes one byte only, or is the
    flip of all 16 bits.
  */
  lemma SkippedWord(data: seq<u8>, eff: seq<bool>, at: nat, c: seq<u8>)
    requires |c| == 2 && at + 2 <= |data| <= 8 * |eff| && Reached(eff, at, 2)
    requires c != data[at..at + 2] && LooksLikeFlip(Value(Xor(data[at..at + 2], c)))
    ensures var m := Xor(data[at..at + 2], c);
      Overwritten(data, at, c) in AllFlipRuns(data, eff) <==> m[0] == 0 || m[1] == 0 || m == [255, 255]
  {
    var m := Xor(data[at..at + 2], c);
    DifferentWordsHaveMask(data[at..at + 2], c);
    var k, x := CoreOf(m);
    SkippedIsRightIff(data, eff, at, c, k, x, at + k);
    if m[0] != 0 && m[1] != 0 {
      CoreCovers(m, k, x, 0);
      CoreCovers(m, k, x, 1);
      assert k == 0 && x == m;
    } else {
      ShortCore(m, k, x);
    }
  }

  lemma CoreCovers(m: seq<u8>, k: nat, x: seq<u8>, i: nat)
    requires IsCore(m, k, x) && i < |m| && m[i] != 0
    ensures k <= i < k + |x|
  {
  }

  lemma ShortCore(m: seq<u8>, k: nat, x: seq<u8>)
    requires IsCore(m, k, x) && |m| == 2 && (m[0] == 0 || m[1] == 0)
    ensures |x| == 1
  {
    assert x[0] == m[k] && x[|x| - 1] == m[k + |x| - 1];
  }

  predicate IsZeroBut(m: seq<u8>, k: nat) {
    k < |m| && forall i :: 0 <= i < |m| && i != k ==> m[i] == 0
  }

  /** The mask changes one byte only. */
  ghost predicate ChangesOneByte(m: seq<u8>) {
    exists k: nat :: IsZeroBut(m, k)
  }

  /** The mask flips two neighbouring bytes whole and nothing else. */
  predicate FlipsPair(m: seq<u8>, k: nat) {
    k + 2 <= |m| && m == seq(k, _ => 0) + [255, 255] + seq(|m| - k - 2, _ => 0)
  }

  /**
    The same for 32 bits: the candidate was run exactly when it changes one byte only, flips
    two neighbouring bytes whole where the effector map reaches one of these two, or is the flip of all 32 bits.
  */
  lemma SkippedDword(data: seq<u8>, eff: seq<bool>, at: nat, c: seq<u8>)
    requires |c| == 4 && at + 4 <= |data| <= 8 * |eff| && Reached(eff, at, 4)
    requires c != data[at..at + 4] && LooksLikeFlip(Value(Xor(data[at..at + 4], c)))
    ensures var m := Xor(data[at..at + 4], c);
      Overwritten(data, at, c) in AllFlipRuns(data, eff) <==>
        || ChangesOneByte(m)
        || (exists k: nat :: FlipsPair(m, k) && Reached(eff, at + k, 2))
        || m == [255, 255, 255, 255]
  {
    var m := Xor(data[at..at + 4], c);
    DifferentWordsHaveMask(data[at..at + 4], c);
    var k, x := CoreOf(m);
    SkippedIsRightIff(data, eff, at, c, k, x, at + k);
    OneByteCore(m, k, x);
    PairCore(m, k, x);
    FullCore(m, k, x);
    if WasFlipped(eff, at + k, x) && x == Ones(2) {
      assert FlipsPair(m, k);
    }
  }

  lemma OneByteCore(m: seq<u8>, k: nat, x: seq<u8>)
    requires IsCore(m, k, x)
    ensures ChangesOneByte(m) <==> |x| == 1
  {
    assert x[0] == m[k] && x[|x| - 1] == m[k + |x| - 1];
    if |x| == 1 {
      assert IsZeroBut(m, k);
    }
  }

  lemma PairCore(m: seq<u8>, k: nat, x: seq<u8>)
    requires IsCore(m, k, x)
    ensures forall j: nat :: FlipsPair(m, j) ==> j == k && x == [255, 255]
    ensures x == [255, 255] ==> FlipsPair(m, k)
  {
    forall j: nat | FlipsPair(m, j) ensures j == k && x == [255, 255] {
      assert m[j] == 255 && m[j + 1] == 255;
      CoreCovers(m, k, x, j);
      CoreCovers(m, k, x, j + 1);
      assert x[0] == m[k] && x[|x| - 1] == m[k + |x| - 1];
    }
  }

  lemma FullCore(m: seq<u8>, k: nat, x: seq<u8>)
    requires IsCore(m, k, x) && |m| == 4
    ensures m == [255, 255, 255, 255] <==> k == 0 && x == Ones(4)
  {
    if m == [255, 255, 255, 255] {
      CoreCovers(m, k, x, 0);
      CoreCovers(m, k, x, 3);
      assert x == m;
    }
    if k == 0 && x == Ones(4) {
      assert m[0..4] == x;
    }
  }

  // ---------------------------------------------------------------- 16-bit arithmetic

  /** The byte of the word that an amount is added to: the first, or the last in the other byte order. */
  function LowEnd(way: nat): nat { if way < 2 then 0 else 1 }

  function Moved(a: u8, j: nat, way: nat): u8 {
    if way % 2 == 0 then (a + j) % 256 else (a - j) % 256
  }

  function Carried(b: u8, way: nat): u8 {
    if way % 2 == 0 then (b + 1) % 256 else (b - 1) % 256
  }

  lemma HalfOfWord()
    ensures Size(1) == 256 && Size(2) == 65536
  {
    assert Size(0) == 1;
  }

  lemma AddedBytes(a: u8, b: u8, j: nat)
    requires 0 < j <= ARITH_MAX
    ensures var v := (a + 256 * b + j) % 65536;
      v % 256 == (a + j) % 256 && v / 256 == if a + j > 255 then (b + 1) % 256 else b
  {
    var x: int, y: int := a, b;
    if x + j > 255 && y == 255 {
      assert x + 256 * y + j == 65536 + (x + j - 256);
    } else if x + j > 255 {
      assert x + 256 * y + j == 256 * (y + 1) + (x + j - 256);
    }
  }

  lemma SubtractedBytes(a: u8, b: u8, j: nat)
    requires 0 < j <= ARITH_MAX
    ensures var v := (a + 256 * b - j) % 65536;
      v % 256 == (a - j) % 256 && v / 256 == if a < j then (b - 1) % 256 else b
  {
    var x: int, y: int := a, b;
    if x < j && y == 0 {
      assert x + 256 * y - j + 65536 == 256 * 255 + (x - j + 256);
    } else if x < j {
      assert x + 256 * y - j == 256 * (y - 1) + (x - j + 256);
    }
  }

  lemma AddingToWord(a: u8, b: u8, j: nat)
    requires 0 < j <= ARITH_MAX
    ensures var v: int := a + 256 * b; Image(2, v + j) == [Moved(a, j, 0), if a + j > 255 then Carried(b, 0) else b]
  {
    var v: int := a + 256 * b;
    HalfOfWord();
    AddedBytes(a, b, j);
    TwoByteImage((v + j) % 65536);
  }

  lemma SubtractingFromWord(a: u8, b: u8, j: nat)
    requires 0 < j <= ARITH_MAX
    ensures var v: int := a + 256 * b; Image(2, v - j) == [Moved(a, j, 1), if a < j then Carried(b, 1) else b]
  {
    var v: int := a + 256 * b;
    HalfOfWord();
    SubtractedBytes(a, b, j);
    TwoByteImage((v - j) % 65536);
  }

  /** The word as the stage sees it: in the other byte order for the last two ways. */
  function Ordered(orig: seq<u8>, way: nat): (o: seq<u8>)
    ensures |o| == |orig|
  {
    if way < 2 then orig else Swap(orig)
  }

  lemma OrderedBytes(orig: seq<u8>, way: nat)
    requires |orig| == 2
    ensures Ordered(orig, way) == [orig[LowEnd(way)], orig[1 - LowEnd(way)]]
  {
  }

  lemma CarriesFromLowEnd(orig: seq<u8>, j: nat, way: nat)
    requires |orig| == 2
    ensures Carries(orig, j, way) <==> if way % 2 == 0 then orig[LowEnd(way)] + j > 255 else orig[LowEnd(way)] < j
  {
    OrderedBytes(orig, way);
    TwoByteValue(Ordered(orig, way));
    HalfOfWord();
  }

  lemma ShiftedWord(orig: seq<u8>, j: nat, way: nat)
    requires |orig| == 2 && 0 < j <= ARITH_MAX
    ensures var a, b := orig[LowEnd(way)], orig[1 - LowEnd(way)];
      Ordered(Shifted(orig, j, way), way) == [Moved(a, j, way), if Carries(orig, j, way) then Carried(b, way) else b]
  {
    var a, b := orig[LowEnd(way)], orig[1 - LowEnd(way)];
    OrderedBytes(orig, way);
    TwoByteValue(Ordered(orig, way));
    CarriesFromLowEnd(orig, j, way);
    AddingToWord(a, b, j);
    SubtractingFromWord(a, b, j);
  }

  /** A 16-bit arithmetic candidate moves one byte, and carries into the other only where the stage requires it. */
  lemma ArithWord(orig: seq<u8>, turn: nat, way: nat)
    requires |orig| == 2 && Arith16.IsCandidate(turn, way)
    ensures var c, k := Candidate(Arith16, orig, turn, way), LowEnd(way);
      && c[k] == Moved(orig[k], turn + 1, way)
      && c[1 - k] == (if Carries(orig, turn + 1, way) then Carried(orig[1 - k], way) else orig[1 - k])
  {
    var c := Candidate(Arith16, orig, turn, way);
    assert c == Shifted(orig, turn + 1, way);
    ShiftedWord(orig, turn + 1, way);
    OrderedBytes(c, way);
  }

  lemma MovingChanges(a: u8, j: nat, way: nat)
    requires 0 < j <= ARITH_MAX
    ensures Moved(a, j, way) != a && Carried(a, way) != a && Near(256, a, Moved(a, j, way))
  {
    var v: int := Moved(a, j, way);
    if way % 2 == 0 {
      assert (v - a) % 256 == j;
    } else {
      assert (a - v) % 256 == j;
    }
  }

  /** Where it carries, both bytes change; else only one does. */
  lemma ArithMask(orig: seq<u8>, turn: nat, way: nat, m: seq<u8>)
    requires |orig| == 2 && Arith16.IsCandidate(turn, way)
    requires m == Xor(orig, Candidate(Arith16, orig, turn, way))
    ensures Candidate(Arith16, orig, turn, way) != orig
    ensures m[LowEnd(way)] != 0 && (m[1 - LowEnd(way)] != 0 <==> Carries(orig, turn + 1, way))
  {
    var c, k := Candidate(Arith16, orig, turn, way), LowEnd(way);
    ArithWord(orig, turn, way);
    MovingChanges(orig[k], turn + 1, way);
    MovingChanges(orig[1 - k], turn + 1, way);
    DifferentBytesHaveMask(orig[k], c[k]);
    if Carries(orig, turn + 1, way) {
      DifferentBytesHaveMask(orig[1 - k], c[1 - k]);
    } else {
      SameByteHasNoMask(c[1 - k]);
    }
  }

  lemma SameByteHasNoMask(a: u8)
    ensures Xor8(a, a) == 0
  {
    XorWithSelf(8, a);
  }

  /** The runs of the flips and of all 8-bit stages change one byte, two in the crossing way, or whole bytes. */
  lemma ByteStageRunIsMask(stage: Stage, data: seq<u8>, eff: seq<bool>, run: seq<u8>) returns (p: nat, x: seq<u8>)
    requires IsByteStage(stage) && |data| <= 8 * |eff| && run in StageRuns(stage, data, eff)
    ensures p + |x| <= |data| && IsTrimmed(x) && |x| == 1 && run == Applied(data, p, x)
  {
    var turn, way;
    p, turn, way := RunIsCandidate(stage, data, eff, run);
    var a := data[p];
    var c := CandidateByte(stage, a, turn, way);
    assert Word(stage, data, p) == [a];
    CandidateIsByte(stage, a, turn, way);
    WantedIsByte(stage, a, turn, way);
    x := [Xor8(a, c)];
    OverwrittenIsApplied(data, p, [c]);
    assert Xor(data[p..p + 1], [c]) == x;
  }

  lemma ArithRunIsMask(data: seq<u8>, eff: seq<bool>, run: seq<u8>) returns (p: nat, x: seq<u8>)
    requires |data| <= 8 * |eff| && run in StageRuns(Arith16, data, eff)
    ensures p + |x| <= |data| && IsTrimmed(x) && |x| == 2 && run == Applied(data, p, x) && !LooksLikeFlip(Value(x))
  {
    var turn, way;
    p, turn, way := RunIsCandidate(Arith16, data, eff, run);
    var orig := Word(Arith16, data, p);
    var c := Candidate(Arith16, orig, turn, way);
    x := Xor(orig, c);
    ArithMask(orig, turn, way, x);
    OverwrittenIsApplied(data, p, c);
  }

  /** Everything run up to the 16-bit arithmetic, and the 8-bit interesting values. */
  ghost function RunsToArith16(data: seq<u8>, eff: seq<bool>): seq<seq<u8>>
    requires data != [] && |data| <= 8 * |eff|
  {
    AllFlipRuns(data, eff) + StageRuns(Arith8, data, eff) + StageRuns(Interest8, data, eff)
    + StageRuns(Arith16, data, eff)
  }

  /** Carrying candidates: lost exactly when the check takes them for a flip other than that of all 16 bits. */
  lemma CarryingWord(data: seq<u8>, eff: seq<bool>, at: nat, turn: nat, way: nat)
    requires at + 2 <= |data| <= 8 * |eff| && Reached(eff, at, 2) && Arith16.IsCandidate(turn, way)
    requires Carries(data[at..at + 2], turn + 1, way)
    ensures var c := Candidate(Arith16, data[at..at + 2], turn, way);
      var m := Xor(data[at..at + 2], c);
      Overwritten(data, at, c) in RunsToArith16(data, eff) <==> !LooksLikeFlip(Value(m)) || m == [255, 255]
  {
    var orig := data[at..at + 2];
    var c := Candidate(Arith16, orig, turn, way);
    var m, run := Xor(orig, c), Overwritten(data, at, c);
    ArithMask(orig, turn, way, m);
    OverwrittenIsApplied(data, at, c);
    assert Word(Arith16, data, at) == orig;
    if !LooksLikeFlip(Value(m)) {
      CandidateIsRun(Arith16, data, eff, at, turn, way, run);
    } else {
      SkippedWord(data, eff, at, c);
      if run in StageRuns(Arith16, data, eff) {
        var p, x := ArithRunIsMask(data, eff, run);
        AppliedOnce(data, at, m, p, x);
      }
      NotInByteStages(data, eff, at, m);
    }
  }

  lemma NotInByteStages(data: seq<u8>, eff: seq<bool>, at: nat, m: seq<u8>)
    requires |data| <= 8 * |eff| && at + |m| <= |data| && IsTrimmed(m) && |m| > 1
    ensures Applied(data, at, m) !in StageRuns(Arith8, data, eff)
    ensures Applied(data, at, m) !in StageRuns(Interest8, data, eff)
  {
    var run := Applied(data, at, m);
    if run in StageRuns(Arith8, data, eff) {
      var p, x := ByteStageRunIsMask(Arith8, data, eff, run);
      AppliedOnce(data, at, m, p, x);
    }
    if run in StageRuns(Interest8, data, eff) {
      var p, x := ByteStageRunIsMask(Interest8, data, eff, run);
      AppliedOnce(data, at, m, p, x);
    }
  }

  /** Candidates that do not carry are left to the 8-bit stage, which needs the effector map to reach that very byte. */
  lemma StayingWord(data: seq<u8>, eff: seq<bool>, at: nat, turn: nat, way: nat)
    requires at + 2 <= |data| <= 8 * |eff| && Reached(eff, at, 2) && Arith16.IsCandidate(turn, way)
    requires !Carries(data[at..at + 2], turn + 1, way)
    ensures var c, k := Candidate(Arith16, data[at..at + 2], turn, way), LowEnd(way);
      Overwritten(data, at, c) in RunsToArith16(data, eff)
      <==> LooksLikeFlip(Xor8(data[at + k], c[k])) || Reached(eff, at + k, 1)
  {
    var orig := data[at..at + 2];
    var c, k := Candidate(Arith16, orig, turn, way), LowEnd(way);
    var i, v, run := at + k, c[k], Overwritten(data, at, c);
    ArithWord(orig, turn, way);
    MovingChanges(orig[k], turn + 1, way);
    assert orig[k] == data[i] && c[1 - k] == orig[1 - k];
    assert run == data[i := v];
    EveryByteCandidateOnce(data, eff, i, v);
    DifferentBytesHaveMask(data[i], v);
    var x := [Xor8(data[i], v)];
    MaskBetween(data[i], v, x[0]);
    OneByteApplied(data, i, x[0]);
    NotInWordStages(data, eff, i, x);
    ByteRunsAreThere(data, eff, run);
  }

  lemma NotInWordStages(data: seq<u8>, eff: seq<bool>, p: nat, x: seq<u8>)
    requires |data| <= 8 * |eff| && p + |x| <= |data| && IsTrimmed(x) && |x| == 1
    ensures Applied(data, p, x) !in StageRuns(Flip16, data, eff) && Applied(data, p, x) !in StageRuns(Flip32, data, eff)
    ensures Applied(data, p, x) !in StageRuns(Arith16, data, eff)
  {
    var run := Applied(data, p, x);
    if run in StageRuns(Flip16, data, eff) {
      WordRunWasFlipped(Flip16, data, eff, p, x);
    }
    if run in StageRuns(Flip32, data, eff) {
      WordRunWasFlipped(Flip32, data, eff, p, x);
    }
    if run in StageRuns(Arith16, data, eff) {
      var q, y := ArithRunIsMask(data, eff, run);
      AppliedOnce(data, p, x, q, y);
    }
  }

  lemma ByteRunsAreThere(data: seq<u8>, eff: seq<bool>, run: seq<u8>)
    requires data != [] && |data| <= 8 * |eff|
    requires run !in StageRuns(Flip16, data, eff) && run !in StageRuns(Flip32, data, eff)
    requires run !in StageRuns(Arith16, data, eff)
    ensures run in RunsToArith16(data, eff) <==> Count(ByteRuns(data, eff, false), run) > 0
  {
    assert run in multiset(ByteRuns(data, eff, false)) <==> run in ByteRuns(data, eff, false);
  }

  /** Such a candidate exists: 32 added to the word 0x02e0, wherever it is, is in no run of these stages. */
  lemma LostWord(data: seq<u8>, eff: seq<bool>, at: nat)
    requires at + 2 <= |data| <= 8 * |eff| && Reached(eff, at, 2) && data[at..at + 2] == [0xe0, 0x02]
    ensures Candidate(Arith16, data[at..at + 2], 31, 0) == [0x00, 0x03] && Carries(data[at..at + 2], 32, 0)
    ensures Overwritten(data, at, [0x00, 0x03]) !in RunsToArith16(data, eff)
  {
    LostWordValues();
    WordFlipsAccepted(0xe0, 0x01);
    CarryingWord(data, eff, at, 31, 0);
  }

  lemma LostWordValues()
    ensures var word: seq<u8> := [0xe0, 0x02];
      && Candidate(Arith16, word, 31, 0) == [0x00, 0x03] && Carries(word, 32, 0)
      && Xor(word, [0x00, 0x03]) == [0xe0, 0x01] && Value([0xe0, 0x01]) == 0xe0 + 256 * 0x01
  {
    var word: seq<u8> := [0xe0, 0x02];
    HalfOfWord();
    TwoByteValue(word);
    ArithWord(word, 31, 0);
    TwoByteValue([0xe0, 0x01]);
    ByteSize();
    XorWithZero(8, 0xe0);
    XorAddsOne(1);
    MaskBetween(0x02, 0x03, 0x01);
    assert Xor(word, [0x00, 0x03])[0] == Xor8(0xe0, 0x00) == 0xe0;
    assert Xor(word, [0x00, 0x03])[1] == Xor8(0x02, 0x03) == 0x01;
  }
}
