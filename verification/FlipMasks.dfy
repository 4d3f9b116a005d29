/** What adjacent flipped bits do to the bytes they lie in, and what `could_be_bitflip` takes for such flips. */
module FlipMasks {
  import opened Buffers
  import opened Redundancy
  import opened FlipStages

  /** The bytes with `n` adjacent bits set, from the most significant down. */
  function Masks(n: nat): (r: seq<u8>)
    ensures 1 <= n <= 4 ==> |r| == 9 - n
  {
    if n == 1 then [128, 64, 32, 16, 8, 4, 2, 1]
    else if n == 2 then [192, 96, 48, 24, 12, 6, 3]
    else if n == 3 then [224, 112, 56, 28, 14, 7]
    else if n == 4 then [240, 120, 60, 30, 15]
    else [255]
  }

  /** The byte with the `n` bits from bit `b` set, bit 0 being the most significant. */
  function RunMask(n: nat, b: nat): u8
    requires 1 <= n <= 4 && b + n <= 8
  {
    Masks(n)[b]
  }

  // ---------------------------------------------------------------- exclusive or of masks

  lemma {:induction false} XorWithSelf(n: nat, a: nat)
    ensures XorBits(n, a, a) == 0
  {
    if n > 0 {
      XorWithSelf(n - 1, a / 2);
    }
  }

  lemma {:induction false} XorWidens(n: nat, a: nat, b: nat)
    requires a < Shl(1, n) && b < Shl(1, n)
    ensures XorBits(n + 1, a, b) == XorBits(n, a, b)
  {
    if n > 0 {
      XorWidens(n - 1, a / 2, b / 2);
    }
  }

  lemma XorDoubles(a: nat, b: nat)
    requires a < 128 && b < 128
    ensures Xor8(2 * a, 2 * b) == 2 * Xor8(a, b)
  {
    assert Shl(1, 3) == 8;
    assert Shl(1, 7) == 128;
    XorStep(8, 2 * a, 2 * b);
    assert (2 * a) / 2 == a && (2 * b) / 2 == b;
    XorWidens(7, a, b);
  }

  lemma XorAddsOne(a: nat)
    requires a < 128
    ensures Xor8(2 * a, 1) == 2 * a + 1
  {
    assert Shl(1, 3) == 8;
    assert Shl(1, 7) == 128;
    XorStep(8, 2 * a, 1);
    XorWithZero(7, a);
  }

  lemma MasksHalve(n: nat, b: nat)
    requires 1 <= n <= 4 && b + n < 8
    ensures RunMask(n, b) == 2 * RunMask(n, b + 1) && RunMask(n, b + 1) < 128
  {
  }

  lemma LastMasks(n: nat)
    requires 1 <= n <= 3
    ensures RunMask(n, 7 - n) % 2 == 0 && RunMask(n + 1, 7 - n) == RunMask(n, 7 - n) + 1 && BitMask(7) == 1
  {
  }

  lemma {:induction false} OneMoreBit(n: nat, b: nat)
    requires 1 <= n <= 3 && b + n < 8
    ensures Xor8(RunMask(n, b), BitMask(b + n)) == RunMask(n + 1, b)
    decreases 8 - b
  {
    var m := RunMask(n, b);
    if b + n == 7 {
      LastMasks(n);
      XorAddsOne(m / 2);
    } else {
      var m', c' := RunMask(n, b + 1), BitMask(b + 1 + n);
      MasksHalve(n, b);
      MasksHalve(1, b + n);
      MasksHalve(n + 1, b);
      OneMoreBit(n, b + 1);
      XorDoubles(m', c');
    }
  }

  lemma XorChanges(a: u8, m: u8)
    ensures Xor8(a, m) == a <==> m == 0
  {
    ByteSize();
    XorWithZero(8, a);
    if Xor8(a, m) == a {
      XorTwice(m, a);
      XorCommutes(m, a);
      XorWithSelf(8, a);
    }
  }

  /** A byte is turned into another by exactly one mask. */
  lemma MaskBetween(a: u8, v: u8, m: u8)
    ensures Xor8(a, m) == v <==> Xor8(a, v) == m
  {
    XorCommutes(a, m);
    XorTwice(m, a);
    XorCommutes(v, a);
    XorTwice(v, a);
    XorCommutes(Xor8(a, v), a);
  }

  // ---------------------------------------------------------------- runs of flipped bits, byte by byte

  lemma FlippedAt(data: seq<u8>, bit: nat, i: nat, k: nat)
    requires i < |data| && k < 8 && bit == 8 * i + k
    ensures Flipped(data, bit) == data[i := Xor8(data[i], BitMask(k))]
  {
    assert bit / 8 == i && bit % 8 == k;
  }

  lemma TwoMasks(data: seq<u8>, i: nat, m: u8, c: u8)
    requires i < |data|
    ensures var once := data[i := Xor8(data[i], m)];
      once[i := Xor8(once[i], c)] == data[i := Xor8(data[i], Xor8(m, c))]
  {
    XorAssociates(data[i], m, c);
  }

  /** Bits within one byte: that byte, xor one mask. */
  lemma {:induction false} RunWithin(data: seq<u8>, bit: nat, i: nat, b: nat, n: nat)
    requires i < |data| && 1 <= n <= 4 && b + n <= 8 && bit == 8 * i + b
    ensures FlippedRun(data, bit, n) == data[i := Xor8(data[i], RunMask(n, b))]
  {
    var prev, k, last := n - 1, b + n - 1, bit + n - 1;
    LastFlip(data, bit, n, prev, last);
    var before := FlippedRun(data, bit, prev);
    FlippedAt(before, last, i, k);
    if n > 1 {
      RunWithin(data, bit, i, b, prev);
      OneMoreBit(prev, b);
      TwoMasks(data, i, RunMask(prev, b), BitMask(k));
    }
  }

  lemma {:induction false} SplitRun(data: seq<u8>, bit: nat, m: nat, n: nat, next: nat, total: nat)
    requires next == bit + m && total == m + n && bit + total <= 8 * |data|
    ensures FlippedRun(data, bit, total) == FlippedRun(FlippedRun(data, bit, m), next, n)
  {
    if n > 0 {
      var last, n', total' := bit + total - 1, n - 1, total - 1;
      SplitRun(data, bit, m, n', next, total');
      LastFlip(data, bit, total, total', last);
      LastFlip(FlippedRun(data, bit, m), next, n, n', last);
    }
  }

  /** Bits across a byte boundary: the low bits of one byte and the high bits of the next. */
  lemma RunAcross(data: seq<u8>, bit: nat, i: nat, b: nat, n: nat)
    requires i + 1 < |data| && b < 8 && n <= 4 && b + n > 8 && bit == 8 * i + b
    ensures FlippedRun(data, bit, n)
         == data[i := Xor8(data[i], RunMask(8 - b, b))][i + 1 := Xor8(data[i + 1], RunMask(b + n - 8, 0))]
  {
    var m, k, next := 8 - b, b + n - 8, bit + (8 - b);
    SplitRun(data, bit, m, k, next, n);
    RunWithin(data, bit, i, b, m);
    RunFromStart(FlippedRun(data, bit, m), data, next, i + 1, k);
  }

  /** Bits from the start of a byte that was not changed before. */
  lemma RunFromStart(half: seq<u8>, data: seq<u8>, bit: nat, i: nat, n: nat)
    requires i < |data| == |half| && half[i] == data[i] && bit == 8 * i && 1 <= n <= 4
    ensures FlippedRun(half, bit, n) == half[i := Xor8(data[i], RunMask(n, 0))]
  {
    RunWithin(half, bit, i, 0, n);
  }

  lemma MasksAreNotZero(n: nat, b: nat)
    requires 1 <= n <= 4 && b + n <= 8
    ensures RunMask(n, b) != 0
  {
  }

  lemma SameOneByte(data: seq<u8>, at: nat, x: u8, i: nat, v: u8)
    requires at < |data| && i < |data| && x != data[at] && v != data[i]
    ensures data[at := x] == data[i := v] <==> at == i && x == v
  {
    assert data[at := x][at] == x;
    assert data[i := v][i] == v;
  }

  lemma NotOneByte(data: seq<u8>, at: nat, x: u8, y: u8, i: nat, v: u8)
    requires at + 1 < |data| && i < |data| && x != data[at] && y != data[at + 1]
    ensures data[at := x][at + 1 := y] != data[i := v]
  {
    var r := data[at := x][at + 1 := y];
    assert r[at] == x && r[at + 1] == y;
    assert data[i := v][at] == data[at] || data[i := v][at + 1] == data[at + 1];
  }

  lemma OneByteRun(data: seq<u8>, bit: nat, at: nat, b: nat, n: nat, i: nat, v: u8)
    requires 1 <= n <= 4 && b + n <= 8 && bit == 8 * at + b && at < |data| && i < |data| && v != data[i]
    ensures FlippedRun(data, bit, n) == data[i := v] <==> at == i && Xor8(data[i], v) == RunMask(n, b)
  {
    var m := RunMask(n, b);
    RunWithin(data, bit, at, b, n);
    MasksAreNotZero(n, b);
    XorChanges(data[at], m);
    MaskBetween(data[at], v, m);
    SameOneByte(data, at, Xor8(data[at], m), i, v);
  }

  lemma TwoByteRun(data: seq<u8>, bit: nat, at: nat, b: nat, n: nat, i: nat, v: u8)
    requires bit == 8 * at + b && n <= 4 && b < 8 && b + n > 8 && at + 1 < |data| && i < |data|
    ensures FlippedRun(data, bit, n) != data[i := v]
  {
    var m, m' := RunMask(8 - b, b), RunMask(b + n - 8, 0);
    RunAcross(data, bit, at, b, n);
    MasksAreNotZero(8 - b, b);
    MasksAreNotZero(b + n - 8, 0);
    XorChanges(data[at], m);
    XorChanges(data[at + 1], m');
    NotOneByte(data, at, Xor8(data[at], m), Xor8(data[at + 1], m'), i, v);
  }

  /** A one-byte change is the flip of the `n` bits from `bit` exactly when they lie in that byte and are its xor. */
  lemma RunIsByteChange(data: seq<u8>, bit: nat, n: nat, i: nat, v: u8)
    requires 1 <= n <= 4 && bit + n <= 8 * |data| && i < |data| && v != data[i]
    ensures FlippedRun(data, bit, n) == data[i := v]
       <==> bit / 8 == i && bit % 8 + n <= 8 && Xor8(data[i], v) == RunMask(n, bit % 8)
  {
    if bit % 8 + n <= 8 {
      OneByteRun(data, bit, bit / 8, bit % 8, n, i, v);
    } else {
      TwoByteRun(data, bit, bit / 8, bit % 8, n, i, v);
    }
  }

  // ---------------------------------------------------------------- what could_be_bitflip accepts

  predicate IsMask(n: nat, m: u8) {
    m in Masks(n)
  }

  lemma {:induction false} ShlGrows(y: nat, sh: nat)
    requires y > 0
    ensures Shl(y, sh) >= y && Shl(y, sh) > sh
  {
    if sh > 0 {
      ShlGrows(y, sh - 1);
    }
  }

  lemma ShlTable(y: nat)
    ensures Shl(y, 0) == y && Shl(y, 1) == 2 * y && Shl(y, 2) == 4 * y && Shl(y, 3) == 8 * y
    ensures Shl(y, 4) == 16 * y && Shl(y, 5) == 32 * y && Shl(y, 6) == 64 * y && Shl(y, 7) == 128 * y
    ensures Shl(y, 8) == 256 * y
  {
    assert Shl(y, 2) == 2 * Shl(y, 1);
    assert Shl(y, 4) == 2 * Shl(y, 3);
    assert Shl(y, 6) == 2 * Shl(y, 5);
    assert Shl(y, 8) == 2 * Shl(y, 7);
  }

  lemma {:induction false} ShlMonotone(y: nat, a: nat, b: nat)
    requires a <= b
    ensures Shl(y, a) <= Shl(y, b)
  {
    if a < b {
      ShlMonotone(y, a, b - 1);
    }
  }

  lemma SmallShift(y: nat, sh: nat)
    requires y > 0 && Shl(y, sh) < 256
    ensures sh < 8
  {
    if sh >= 8 {
      ShlTable(y);
      ShlMonotone(y, 8, sh);
    }
  }

  ghost predicate IsShiftOf(m: nat, y: nat) {
    exists sh: nat :: m == Shl(y, sh)
  }

  lemma ShiftsInAByte(m: u8, y: nat)
    requires m > 0 && y > 0
    ensures IsShiftOf(m, y)
       <==> (|| m == y || m == 2 * y || m == 4 * y || m == 8 * y
             || m == 16 * y || m == 32 * y || m == 64 * y || m == 128 * y)
  {
    ShlTable(y);
    if IsShiftOf(m, y) {
      var sh: nat :| m == Shl(y, sh);
      SmallShift(y, sh);
    }
  }

  lemma FlipIsShift(m: u8)
    requires m > 0
    ensures LooksLikeFlip(m) <==> IsShiftOf(m, 1) || IsShiftOf(m, 3) || IsShiftOf(m, 15) || m == 255
  {
    if LooksLikeFlip(m) {
      var y: nat, sh: nat :| m == Shl(y, sh) && IsRun(y, sh);
      ShlGrows(y, sh);
      SmallShift(y, sh);
      if y == 255 {
        assert sh == 0;
      }
    }
    if m == 255 {
      assert m == Shl(255, 0) && IsRun(255, 0);
    }
    if IsShiftOf(m, 1) {
      var sh: nat :| m == Shl(1, sh);
      assert IsRun(1, sh);
    }
    if IsShiftOf(m, 3) {
      var sh: nat :| m == Shl(3, sh);
      assert IsRun(3, sh);
    }
    if IsShiftOf(m, 15) {
      var sh: nat :| m == Shl(15, sh);
      assert IsRun(15, sh);
    }
  }

  /** For one byte `could_be_bitflip` is exact: it accepts the masks of the flip stages and no others. */
  lemma ByteFlipsAreExact(m: u8)
    requires m > 0
    ensures LooksLikeFlip(m) <==> IsMask(1, m) || IsMask(2, m) || IsMask(4, m) || IsMask(8, m)
  {
    FlipIsShift(m);
    ShiftsInAByte(m, 1);
    ShiftsInAByte(m, 3);
    ShiftsInAByte(m, 15);
  }

  // ---------------------------------------------------------------- changes of two bytes

  lemma {:induction false} ShlByBytes(y: nat, k: nat)
    ensures Shl(y, k + 8) == 256 * Shl(y, k)
  {
    if k == 0 {
      ShlTable(y);
    } else {
      ShlByBytes(y, k - 1);
    }
  }

  lemma LowByteOf(lo: u8, hi: nat, z: nat)
    requires lo + 256 * hi == 256 * z
    ensures lo == 0
  {
  }

  /** What `could_be_bitflip` accepts for two neighbouring bytes read as a little-endian number. */
  predicate LooksLikeWordFlip(lo: u8, hi: u8) {
    (lo, hi) in [(128, 1), (224, 1), (192, 3), (128, 7), (255, 255)]
  }

  lemma WordFlipCases(y: nat, sh: nat, lo: u8, hi: u8)
    requires IsRun(y, sh) && lo > 0 && hi > 0 && lo + 256 * hi == Shl(y, sh)
    ensures LooksLikeWordFlip(lo, hi)
  {
    if sh >= 8 {
      ShlByBytes(y, sh - 8);
      LowByteOf(lo, hi, Shl(y, sh - 8));
    } else {
      ShlTable(y);
    }
  }

  lemma WordFlipsAccepted(lo: u8, hi: u8)
    requires lo > 0 && hi > 0
    ensures LooksLikeFlip(lo + 256 * hi) <==> LooksLikeWordFlip(lo, hi)
  {
    if LooksLikeFlip(lo + 256 * hi) {
      var y: nat, sh: nat :| lo + 256 * hi == Shl(y, sh) && IsRun(y, sh);
      WordFlipCases(y, sh, lo, hi);
    }
    ShlTable(3);
    ShlTable(15);
    assert Shl(3, 7) == 384 && IsRun(3, 7);
    assert Shl(15, 5) == 480 && IsRun(15, 5);
    assert Shl(15, 6) == 960 && IsRun(15, 6);
    assert Shl(15, 7) == 1920 && IsRun(15, 7);
    assert Shl(0xffff, 0) == 0xffff && IsRun(0xffff, 0);
  }

  lemma CrossingMasks(b: nat, n: nat)
    requires b < 8 && b + n > 8 && (n == 2 || n == 4)
    ensures (RunMask(8 - b, b), RunMask(b + n - 8, 0)) in [(1, 128), (7, 128), (3, 192), (1, 224)]
  {
  }
}
