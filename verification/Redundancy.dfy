/**
  The checks by which the deterministic stages skip candidates that an earlier stage
  produces anyway: `could_be_bitflip`, `could_be_arith` and `could_be_interest`.
  A 16- or 32-bit word is its bytes in memory order, least significant first.
*/
module Redundancy {
  import opened Buffers

  const ARITH_MAX: nat := 35

  const INTERESTING_8: seq<int> := [-128, -1, 0, 1, 16, 32, 64, 100, 127]
  const INTERESTING_16: seq<int> := INTERESTING_8 + [-32768, -129, 128, 255, 256, 512, 1000, 1024, 4096, 32767]
  const INTERESTING_32: seq<int> :=
    INTERESTING_16 + [-2147483648, -100663046, -32769, 32768, 65535, 65536, 100663045, 2147483647]

  predicate IsWidth(w: nat) { w == 1 || w == 2 || w == 4 }

  /** The number of values of `w` bytes. */
  function Size(w: nat): (n: nat)
    ensures n > 0
  {
    if w == 0 then 1 else 256 * Size(w - 1)
  }

  function Value(c: seq<u8>): nat {
    if c == [] then 0 else c[0] + 256 * Value(c[1..])
  }

  function Bytes(w: nat, v: nat): (c: seq<u8>)
    ensures |c| == w
  {
    if w == 0 then [] else [v % 256] + Bytes(w - 1, v / 256)
  }

  /** The image of an integer, wrapped to `w` bytes. */
  function Image(w: nat, v: int): (c: seq<u8>)
    ensures |c| == w
  {
    Bytes(w, v % Size(w))
  }

  /** `SWAP16` and `SWAP32`. */
  function Swap(c: seq<u8>): (r: seq<u8>)
    ensures |r| == |c|
  {
    seq(|c|, i requires 0 <= i < |c| => c[|c| - 1 - i])
  }

  /** `y` shifted left `sh` times. */
  function Shl(y: nat, sh: nat): nat {
    if sh == 0 then y else 2 * Shl(y, sh - 1)
  }

  /** Exclusive or of the lowest `n` bits. */
  function XorBits(n: nat, a: nat, b: nat): (r: nat)
    ensures r < Shl(1, n)
  {
    if n == 0 then 0 else (if a % 2 == b % 2 then 0 else 1) + 2 * XorBits(n - 1, a / 2, b / 2)
  }

  lemma ByteSize()
    ensures Shl(1, 8) == 256
  {
    assert Shl(1, 4) == 16;
  }

  function Xor8(a: u8, b: u8): u8 {
    ByteSize();
    XorBits(8, a, b)
  }

  lemma XorStep(n: nat, a: nat, b: nat)
    requires n > 0
    ensures XorBits(n, a, b) % 2 == if a % 2 == b % 2 then 0 else 1
    ensures XorBits(n, a, b) / 2 == XorBits(n - 1, a / 2, b / 2)
  {
  }

  lemma SameHalves(x: nat, y: nat)
    requires x % 2 == y % 2 && x / 2 == y / 2
    ensures x == y
  {
  }

  lemma {:induction false} XorBitsTwice(n: nat, a: nat, b: nat)
    requires a < Shl(1, n)
    ensures XorBits(n, XorBits(n, a, b), b) == a
  {
    if n > 0 {
      var r := XorBits(n, a, b);
      XorStep(n, a, b);
      XorStep(n, r, b);
      XorBitsTwice(n - 1, a / 2, b / 2);
      SameHalves(XorBits(n, r, b), a);
    }
  }

  lemma LowBitsAssociate(n: nat, a: nat, b: nat, c: nat)
    requires n > 0
    ensures XorBits(n, XorBits(n, a, b), c) % 2 == XorBits(n, a, XorBits(n, b, c)) % 2
  {
    var r, q := XorBits(n, a, b), XorBits(n, b, c);
    XorStep(n, a, b);
    XorStep(n, b, c);
    XorStep(n, r, c);
    XorStep(n, a, q);
  }

  lemma {:induction false} XorBitsAssociate(n: nat, a: nat, b: nat, c: nat)
    ensures XorBits(n, XorBits(n, a, b), c) == XorBits(n, a, XorBits(n, b, c))
  {
    if n > 0 {
      var r, q := XorBits(n, a, b), XorBits(n, b, c);
      var x, y := XorBits(n, r, c), XorBits(n, a, q);
      assert x / 2 == y / 2 by {
        XorStep(n, a, b);
        XorStep(n, b, c);
        XorStep(n, r, c);
        XorStep(n, a, q);
        XorBitsAssociate(n - 1, a / 2, b / 2, c / 2);
      }
      LowBitsAssociate(n, a, b, c);
      SameHalves(x, y);
    }
  }

  lemma {:induction false} XorBitsCommute(n: nat, a: nat, b: nat)
    ensures XorBits(n, a, b) == XorBits(n, b, a)
  {
    if n > 0 {
      XorBitsCommute(n - 1, a / 2, b / 2);
    }
  }

  lemma {:induction false} XorWithZero(n: nat, a: nat)
    requires a < Shl(1, n)
    ensures XorBits(n, a, 0) == a
  {
    if n > 0 {
      XorWithZero(n - 1, a / 2);
    }
  }

  /** Exclusive or with the same byte undoes itself, and the order of several does not matter. */
  lemma XorTwice(a: u8, b: u8)
    ensures Xor8(Xor8(a, b), b) == a
  {
    ByteSize();
    XorBitsTwice(8, a, b);
  }

  lemma XorAssociates(a: u8, b: u8, c: u8)
    ensures Xor8(Xor8(a, b), c) == Xor8(a, Xor8(b, c))
  {
    XorBitsAssociate(8, a, b, c);
  }

  lemma XorCommutes(a: u8, b: u8)
    ensures Xor8(a, b) == Xor8(b, a)
  {
    XorBitsCommute(8, a, b);
  }

  function Xor(a: seq<u8>, b: seq<u8>): (r: seq<u8>)
    requires |a| == |b|
    ensures |r| == |a|
  {
    seq(|a|, i requires 0 <= i < |a| => Xor8(a[i], b[i]))
  }

  // ---------------------------------------------------------------- numbers, bits and bytes

  /** Bit `k` of a number, bit 0 being the least significant. */
  function BitAt(x: nat, k: nat): nat {
    if k == 0 then x % 2 else BitAt(x / 2, k - 1)
  }

  /** A bit of an exclusive or is set exactly if that bit of one number is and of the other is not. */
  lemma {:induction false} XorByBits(n: nat, a: nat, b: nat, k: nat)
    requires k < n
    ensures BitAt(XorBits(n, a, b), k) == if BitAt(a, k) == BitAt(b, k) then 0 else 1
  {
    XorStep(n, a, b);
    if k > 0 {
      XorByBits(n - 1, a / 2, b / 2, k - 1);
    }
  }

  /** Numbers with the same bits are the same. */
  lemma {:induction false} BitsDetermine(n: nat, a: nat, b: nat)
    requires a < Shl(1, n) && b < Shl(1, n)
    requires forall k: nat :: k < n ==> BitAt(a, k) == BitAt(b, k)
    ensures a == b
  {
    if n > 0 {
      assert BitAt(a, 0) == BitAt(b, 0);
      forall k: nat | k < n - 1 ensures BitAt(a / 2, k) == BitAt(b / 2, k) {
        assert BitAt(a, k + 1) == BitAt(b, k + 1);
      }
      BitsDetermine(n - 1, a / 2, b / 2);
      SameHalves(a, b);
    }
  }

  /** The number that one, two or four bytes are, the first being the least significant. */
  lemma ValueIsLittleEndian(c: seq<u8>)
    ensures |c| == 1 ==> Value(c) == c[0]
    ensures |c| == 2 ==> Value(c) == c[0] as int + 256 * c[1] as int
    ensures |c| == 4 ==> Value(c) == c[0] as int + 256 * c[1] as int + 65536 * c[2] as int + 16777216 * c[3] as int
  {
    if |c| == 2 {
      assert Value(c[1..]) == c[1];
    }
    if |c| == 4 {
      var c1 := c[1..];
      var c2 := c1[1..];
      assert Value(c2[1..]) == c[3];
      assert Value(c2) == c[2] as int + 256 * c[3] as int;
      assert Value(c1) == c[1] as int + 256 * Value(c2);
    }
  }

  /** Read in the other byte order. */
  lemma SwapIsBigEndian(c: seq<u8>)
    ensures |c| == 2 ==> Value(Swap(c)) == 256 * c[0] as int + c[1] as int
    ensures |c| == 4 ==>
              Value(Swap(c)) == 16777216 * c[0] as int + 65536 * c[1] as int + 256 * c[2] as int + c[3] as int
    ensures Swap(Swap(c)) == c
  {
    ValueIsLittleEndian(Swap(c));
  }

  lemma {:induction false} ValueFits(c: seq<u8>)
    ensures Value(c) < Size(|c|)
  {
    if c != [] {
      ValueFits(c[1..]);
    }
  }

  lemma {:induction false} BytesHaveValue(w: nat, v: nat)
    requires v < Size(w)
    ensures Value(Bytes(w, v)) == v
  {
    if w > 0 {
      BytesHaveValue(w - 1, v / 256);
      assert Bytes(w, v)[1..] == Bytes(w - 1, v / 256);
    }
  }

  lemma {:induction false} BytesOfValue(c: seq<u8>)
    ensures Bytes(|c|, Value(c)) == c
  {
    if c != [] {
      BytesOfValue(c[1..]);
    }
  }

  lemma WidthSizes()
    ensures Size(1) == 256 && Size(2) == 65536 && Size(4) == 0x1_0000_0000
  {
    assert Size(2) == 256 * Size(1);
    assert Size(4) == 256 * Size(3);
  }

  /** The bytes of an integer are those of its value modulo 2^8, 2^16 or 2^32, and no others. */
  lemma ImageIs(c: seq<u8>, v: int)
    requires IsWidth(|c|)
    ensures c == Image(|c|, v)
       <==> Value(c) == v % (if |c| == 1 then 256 else if |c| == 2 then 65536 else 0x1_0000_0000)
  {
    WidthSizes();
    ValueFits(c);
    BytesOfValue(c);
    BytesHaveValue(|c|, v % Size(|c|));
  }

  lemma {:induction false} XorWithOnes(n: nat, a: nat)
    requires a < Shl(1, n)
    ensures XorBits(n, a, Shl(1, n) - 1) == Shl(1, n) - 1 - a
  {
    if n > 0 {
      XorWithOnes(n - 1, a / 2);
      assert (Shl(1, n) - 1) / 2 == Shl(1, n - 1) - 1;
    }
  }

  /** Flipping all bits of a byte. */
  lemma FlippedByte(a: u8)
    ensures Xor8(a, 0xff) as int == 255 - a as int
  {
    ByteSize();
    XorWithOnes(8, a);
  }

  // ---------------------------------------------------------------- could_be_bitflip

  predicate IsRun(y: nat, sh: nat) {
    y == 1 || y == 3 || y == 15 || (sh % 8 == 0 && (y == 0xff || y == 0xffff || y == 0xffffffff))
  }

  /** 1, 2 or 4 adjacent bits anywhere, or 8, 16 or 32 from a byte boundary. */
  ghost predicate LooksLikeFlip(x: nat) {
    x == 0 || exists y: nat, sh: nat :: x == Shl(y, sh) && IsRun(y, sh)
  }

  lemma {:induction false} ShiftingOut(z: nat, sh: nat)
    ensures Shl(2 * z, sh) == Shl(z, sh + 1)
  {
    if sh > 0 {
      ShiftingOut(z, sh - 1);
    }
  }

  lemma {:induction false} OddPartIsUnique(y: nat, sh: nat, z: nat, sh': nat)
    requires y % 2 == 1 && z % 2 == 1 && Shl(y, sh) == Shl(z, sh')
    ensures y == z && sh == sh'
  {
    if sh > 0 && sh' > 0 {
      OddPartIsUnique(y, sh - 1, z, sh' - 1);
    }
  }

  /** `could_be_bitflip` */
  method CouldBeBitflip(xorVal: nat) returns (r: bool)
    ensures r <==> LooksLikeFlip(xorVal)
  {
    if xorVal == 0 {
      return true;
    }
    var sh, y := 0, xorVal;
    while y % 2 == 0
      invariant y > 0 && xorVal == Shl(y, sh)
      decreases y
    {
      ShiftingOut(y / 2, sh);
      sh := sh + 1;
      y := y / 2;
    }
    OnlyOneRun(xorVal, y, sh);
    if y == 1 || y == 3 || y == 15 {
      return true;
    }
    if sh % 8 != 0 {
      return false;
    }
    r := y == 0xff || y == 0xffff || y == 0xffffffff;
  }

  lemma OnlyOneRun(x: nat, y: nat, sh: nat)
    requires x == Shl(y, sh) && y % 2 == 1 && x > 0
    ensures LooksLikeFlip(x) <==> IsRun(y, sh)
  {
    if LooksLikeFlip(x) {
      var z: nat, sh': nat :| x == Shl(z, sh') && IsRun(z, sh');
      OddPartIsUnique(y, sh, z, sh');
    }
  }

  // ---------------------------------------------------------------- could_be_arith

  /** At most 35 apart, either way round, modulo `n`. */
  predicate Near(n: nat, a: int, b: int)
    requires n > 0
  {
    (a - b) % n <= ARITH_MAX || (b - a) % n <= ARITH_MAX
  }

  /** Near as integers in one of the two byte orders. */
  predicate NearCell(a: seq<u8>, b: seq<u8>)
    requires |a| == |b|
  {
    Near(Size(|a|), Value(a), Value(b)) || Near(Size(|a|), Value(Swap(a)), Value(Swap(b)))
  }

  /** The aligned parts of a word, of one, two or four bytes each. */
  function Parts(c: seq<u8>, size: nat): (r: seq<seq<u8>>)
    requires IsWidth(|c|) && IsWidth(size) && size <= |c|
    ensures forall i :: 0 <= i < |r| ==> |r[i]| == size
  {
    if size == 1 then seq(|c|, i requires 0 <= i < |c| => [c[i]])
    else if size == |c| then [c]
    else [c[..2], c[2..]]
  }

  ghost predicate OnlyDiffersAt(a: seq<seq<u8>>, b: seq<seq<u8>>, n: nat, i: nat)
    requires i < n <= |a| == |b|
  {
    a[i] != b[i] && forall k :: 0 <= k < n && k != i ==> a[k] == b[k]
  }

  /** Exactly one part differs, by an amount the arithmetic stages reach. */
  ghost predicate OnePartNear(was: seq<u8>, now: seq<u8>, size: nat)
    requires |was| == |now| && IsWidth(|was|) && IsWidth(size) && size <= |was|
  {
    var a, b := Parts(was, size), Parts(now, size);
    |a| == |b| && exists i: nat :: i < |a| && OnlyDiffersAt(a, b, |a|, i) && NearCell(a[i], b[i])
  }

  /** Reachable by arithmetic on one byte, on one aligned 16-bit part, or on the whole dword. */
  ghost predicate LooksLikeArith(was: seq<u8>, now: seq<u8>)
    requires |was| == |now| && IsWidth(|was|)
  {
    || was == now
    || OnePartNear(was, now, 1)
    || (|was| >= 2 && OnePartNear(was, now, 2))
    || (|was| == 4 && OnePartNear(was, now, 4))
  }

  ghost predicate Differences(a: seq<seq<u8>>, b: seq<seq<u8>>, n: nat, diffs: nat, last: nat)
    requires n <= |a| == |b|
  {
    && (diffs == 0 ==> forall k :: 0 <= k < n ==> a[k] == b[k])
    && (diffs == 1 ==> last < n && OnlyDiffersAt(a, b, n, last))
    && (diffs >= 2 ==> last < n && a[last] != b[last] && exists k: nat :: k < last && a[k] != b[k])
  }

  /** Counts the parts that differ and remembers the last of them. */
  method CountDifferences(a: seq<seq<u8>>, b: seq<seq<u8>>) returns (diffs: nat, last: nat)
    requires |a| == |b|
    ensures Differences(a, b, |a|, diffs, last)
  {
    diffs, last := 0, 0;
    var i := 0;
    while i < |a|
      invariant 0 <= i <= |a|
      invariant Differences(a, b, i, diffs, last)
    {
      if a[i] != b[i] {
        diffs, last := diffs + 1, i;
      }
      i := i + 1;
    }
  }

  method OnePartIsNear(was: seq<u8>, now: seq<u8>, size: nat) returns (r: bool)
    requires |was| == |now| && IsWidth(|was|) && IsWidth(size) && size <= |was|
    ensures r <==> OnePartNear(was, now, size)
  {
    var a, b := Parts(was, size), Parts(now, size);
    var diffs, last := CountDifferences(a, b);
    r := diffs == 1 && NearCell(a[last], b[last]);
  }

  /** `could_be_arith` */
  method CouldBeArith(was: seq<u8>, now: seq<u8>) returns (r: bool)
    requires |was| == |now| && IsWidth(|was|)
    ensures r <==> LooksLikeArith(was, now)
  {
    if was == now {
      return true;
    }
    r := OnePartIsNear(was, now, 1);
    if r || |was| == 1 {
      return;
    }
    r := OnePartIsNear(was, now, 2);
    if r || |was| != 4 {
      return;
    }
    r := OnePartIsNear(was, now, 4);
  }

  // ---------------------------------------------------------------- could_be_interest

  function Overwritten(data: seq<u8>, at: nat, bytes: seq<u8>): (r: seq<u8>)
    requires at + |bytes| <= |data|
    ensures |r| == |data|
  {
    data[..at] + bytes + data[at + |bytes|..]
  }

  /** The written bytes show, and all others stay. */
  lemma OverwrittenAt(data: seq<u8>, at: nat, bytes: seq<u8>, k: nat)
    requires at + |bytes| <= |data| && k < |data|
    ensures Overwritten(data, at, bytes)[k] == if at <= k < at + |bytes| then bytes[k - at] else data[k]
  {
  }

  /** One of the values, written at `at` in one byte order or, if `both`, in either. */
  ghost predicate InsertedAt(was: seq<u8>, now: seq<u8>, at: nat, w: nat, values: seq<int>, both: bool)
    requires at + w <= |was|
  {
    exists j: nat :: j < |values| && Inserts(was, now, at, w, values[j], both)
  }

  predicate Inserts(was: seq<u8>, now: seq<u8>, at: nat, w: nat, v: int, both: bool)
    requires at + w <= |was|
  {
    now == Overwritten(was, at, Image(w, v)) || (both && now == Overwritten(was, at, Swap(Image(w, v))))
  }

  ghost predicate Inserted(was: seq<u8>, now: seq<u8>, n: nat, w: nat, values: seq<int>, both: bool)
    requires n + w <= |was| + 1
  {
    exists at: nat :: at < n && InsertedAt(was, now, at, w, values, both)
  }

  /** An insertion that a shorter interesting-value stage does, or an earlier one of the same width. */
  ghost predicate LooksLikeInterest(was: seq<u8>, now: seq<u8>, checkLe: bool)
    requires |was| == |now| && IsWidth(|was|)
  {
    var w := |was|;
    || was == now
    || Inserted(was, now, w, 1, INTERESTING_8, false)
    || ((w != 2 || checkLe) && w > 1 && Inserted(was, now, w - 1, 2, INTERESTING_16, w > 2))
    || (w == 4 && checkLe && InsertedAt(was, now, 0, 4, INTERESTING_32, false))
  }

  method FindInsertedAt(was: seq<u8>, now: seq<u8>, at: nat, w: nat, values: seq<int>, both: bool) returns (r: bool)
    requires at + w <= |was|
    ensures r <==> InsertedAt(was, now, at, w, values, both)
  {
    var j := 0;
    while j < |values|
      invariant 0 <= j <= |values|
      invariant forall k :: 0 <= k < j ==> !Inserts(was, now, at, w, values[k], both)
    {
      if Inserts(was, now, at, w, values[j], both) {
        return true;
      }
      j := j + 1;
    }
    r := false;
  }

  method FindInserted(was: seq<u8>, now: seq<u8>, n: nat, w: nat, values: seq<int>, both: bool) returns (r: bool)
    requires n + w <= |was| + 1
    ensures r <==> Inserted(was, now, n, w, values, both)
  {
    var i := 0;
    while i < n
      invariant 0 <= i <= n
      invariant forall k: nat :: k < i ==> !InsertedAt(was, now, k, w, values, both)
    {
      r := FindInsertedAt(was, now, i, w, values, both);
      if r {
        return;
      }
      i := i + 1;
    }
    r := false;
  }

  /** `could_be_interest` */
  method CouldBeInterest(was: seq<u8>, now: seq<u8>, checkLe: bool) returns (r: bool)
    requires |was| == |now| && IsWidth(|was|)
    ensures r <==> LooksLikeInterest(was, now, checkLe)
  {
    var w := |was|;
    if was == now {
      return true;
    }
    r := FindInserted(was, now, w, 1, INTERESTING_8, false);
    if r || (w == 2 && !checkLe) || w == 1 {
      return;
    }
    r := FindInserted(was, now, w - 1, 2, INTERESTING_16, w > 2);
    if r || !(w == 4 && checkLe) {
      return;
    }
    r := FindInsertedAt(was, now, 0, 4, INTERESTING_32, false);
  }
}
