/**
  The flip stages of `fuzz_one`: walking bits (1, 2 or 4 at a time, most significant
  first), and walking bytes, which also fill the effector map.
*/
module FlipStages {
  import opened Buffers
  import opened Redundancy
  import opened DetStages

  const EFF_MIN_LEN: nat := 128
  const EFF_MAX_PERC: nat := 90

  // ---------------------------------------------------------------- walking bits

  /** `128 >> k` */
  function BitMask(k: nat): u8
    requires k < 8
  {
    [128, 64, 32, 16, 8, 4, 2, 1][k]
  }

  /** `FLIP_BIT` */
  function Flipped(data: seq<u8>, bit: nat): (r: seq<u8>)
    requires bit < 8 * |data|
    ensures |r| == |data|
  {
    data[bit / 8 := Xor8(data[bit / 8], BitMask(bit % 8))]
  }

  function FlippedRun(data: seq<u8>, bit: nat, n: nat): (r: seq<u8>)
    requires bit + n <= 8 * |data|
    ensures |r| == |data|
  {
    if n == 0 then data else Flipped(FlippedRun(data, bit, n - 1), bit + n - 1)
  }

  /** One run per position of the `n` adjacent bits. */
  function FlipRuns(data: seq<u8>, n: nat): (r: seq<seq<u8>>)
    requires 0 < n <= 8 * |data|
    ensures |r| == 8 * |data| - (n - 1)
  {
    seq(8 * |data| - (n - 1), b requires 0 <= b < 8 * |data| - (n - 1) => FlippedRun(data, b, n))
  }

  lemma XorsCommute(a: u8, b: u8, c: u8)
    ensures Xor8(Xor8(a, b), c) == Xor8(Xor8(a, c), b)
  {
    XorAssociates(a, b, c);
    XorAssociates(a, c, b);
    XorCommutes(b, c);
  }

  lemma FlipsCommute(data: seq<u8>, a: nat, b: nat)
    requires a < 8 * |data| && b < 8 * |data|
    ensures Flipped(Flipped(data, a), b) == Flipped(Flipped(data, b), a)
  {
    if a / 8 == b / 8 {
      XorsCommute(data[a / 8], BitMask(a % 8), BitMask(b % 8));
    }
  }

  lemma FlipTwice(data: seq<u8>, a: nat)
    requires a < 8 * |data|
    ensures Flipped(Flipped(data, a), a) == data
  {
    XorTwice(data[a / 8], BitMask(a % 8));
  }

  lemma LastFlip(data: seq<u8>, bit: nat, n: nat, prev: nat, last: nat)
    requires n == prev + 1 && bit + n <= 8 * |data| && last == bit + prev
    ensures FlippedRun(data, bit, n) == Flipped(FlippedRun(data, bit, prev), last)
  {
  }

  lemma {:induction false} RunCommutes(data: seq<u8>, bit: nat, n: nat, c: nat)
    requires bit + n <= 8 * |data| && c < 8 * |data|
    ensures FlippedRun(Flipped(data, c), bit, n) == Flipped(FlippedRun(data, bit, n), c)
  {
    if n > 0 {
      var prev, last := n - 1, bit + n - 1;
      LastFlip(data, bit, n, prev, last);
      LastFlip(Flipped(data, c), bit, n, prev, last);
      RunCommutes(data, bit, prev, c);
      FlipsCommute(FlippedRun(data, bit, prev), c, last);
    }
  }

  /** Flipping the same bits again restores the buffer. */
  lemma {:induction false} RunTwice(data: seq<u8>, bit: nat, n: nat)
    requires bit + n <= 8 * |data|
    ensures FlippedRun(FlippedRun(data, bit, n), bit, n) == data
  {
    if n > 0 {
      var prev, last := n - 1, bit + n - 1;
      var e := FlippedRun(data, bit, prev);
      LastFlip(data, bit, n, prev, last);
      LastFlip(Flipped(e, last), bit, n, prev, last);
      RunCommutes(e, bit, prev, last);
      RunTwice(data, bit, prev);
      FlipTwice(data, last);
    }
  }

  /** The bit that a walk comes to at step `j`: the most significant bit of each byte first. */
  function BitOf(data: seq<u8>, j: nat): nat
    requires j < 8 * |data|
  {
    BitAt(data[j / 8], 7 - j % 8)
  }

  lemma {:induction false} BitsOfMask(k: nat, m: nat)
    requires k < 8 && m < 8
    ensures BitAt(BitMask(k), m) == if m == 7 - k then 1 else 0
    decreases m
  {
    if m > 0 {
      if k < 7 {
        assert BitMask(k) / 2 == BitMask(k + 1);
        BitsOfMask(k + 1, m - 1);
      } else {
        BitsOfZero(m - 1);
      }
    }
  }

  lemma {:induction false} BitsOfZero(m: nat)
    ensures BitAt(0, m) == 0
  {
    if m > 0 {
      BitsOfZero(m - 1);
    }
  }

  lemma {:induction false} BitIsBinary(x: nat, k: nat)
    ensures BitAt(x, k) == 0 || BitAt(x, k) == 1
  {
    if k > 0 {
      BitIsBinary(x / 2, k - 1);
    }
  }

  lemma FlippedByBits(data: seq<u8>, bit: nat, j: nat)
    requires bit < 8 * |data| && j < 8 * |data|
    ensures BitOf(Flipped(data, bit), j) == if j == bit then 1 - BitOf(data, j) else BitOf(data, j)
  {
    if j / 8 == bit / 8 {
      XorByBits(8, data[j / 8], BitMask(bit % 8), 7 - j % 8);
      BitsOfMask(bit % 8, 7 - j % 8);
      BitIsBinary(data[j / 8], 7 - j % 8);
    }
  }

  /** A run flips exactly its bits. */
  lemma {:induction false} RunFlipsItsBits(data: seq<u8>, bit: nat, n: nat, j: nat)
    requires bit + n <= 8 * |data| && j < 8 * |data|
    ensures BitOf(FlippedRun(data, bit, n), j) == if bit <= j < bit + n then 1 - BitOf(data, j) else BitOf(data, j)
  {
    if n > 0 {
      RunFlipsItsBits(data, bit, n - 1, j);
      FlippedByBits(FlippedRun(data, bit, n - 1), bit + n - 1, j);
      LastFlip(data, bit, n, n - 1, bit + n - 1);
    }
  }

  method FlipBits(out: array<u8>, bit: nat, n: nat)
    requires bit + n <= 8 * out.Length
    modifies out
    ensures out[..] == FlippedRun(old(out[..]), bit, n)
  {
    ghost var data := out[..];
    var k := 0;
    while k < n
      invariant 0 <= k <= n
      invariant out[..] == FlippedRun(data, bit, k)
    {
      var b := bit + k;
      out[b / 8] := Xor8(out[b / 8], BitMask(b % 8));
      k := k + 1;
    }
  }

  /** The 1-, 2- and 4-bit stages. */
  method WalkBits(out: array<u8>, n: nat) returns (runs: seq<seq<u8>>)
    requires 0 < n <= 8 * out.Length
    modifies out
    ensures out[..] == old(out[..])
    ensures runs == FlipRuns(out[..], n)
  {
    ghost var data := out[..];
    runs := [];
    var cur, max := 0, 8 * out.Length - (n - 1);
    while cur < max
      invariant 0 <= cur <= max && out[..] == data
      invariant runs == FlipRuns(data, n)[..cur]
    {
      FlipBits(out, cur, n);
      runs := runs + [out[..]];
      RunTwice(data, cur, n);
      FlipBits(out, cur, n);
      cur := cur + 1;
    }
  }

  // ---------------------------------------------------------------- walking bytes

  function ByteFlipped(data: seq<u8>, i: nat): seq<u8>
    requires i < |data|
  {
    data[i := Xor8(data[i], 0xff)]
  }

  function ByteFlipRuns(data: seq<u8>): (r: seq<seq<u8>>)
    ensures |r| == |data|
  {
    seq(|data|, i requires 0 <= i < |data| => ByteFlipped(data, i))
  }

  /** The run of the byte stage turns every bit of one byte. */
  lemma ByteFlippedAt(data: seq<u8>, i: nat, k: nat)
    requires i < |data| && k < |data|
    ensures ByteFlipped(data, i)[k] as int == if k == i then 255 - data[k] as int else data[k] as int
  {
    FlippedByte(data[i]);
  }

  /** What is known about the target: the checksum of a run, that of the entry, and the mode. */
  datatype Probe = Probe(cksum: seq<u8> -> int, execCksum: int, dumb: bool)

  /** Flipping the byte changes the path; short inputs and dumb mode are not probed. */
  predicate HasEffect(p: Probe, data: seq<u8>, i: nat)
    requires i < |data|
  {
    p.dumb || |data| < 128 || p.cksum(ByteFlipped(data, i)) != p.execCksum
  }

  /** The first and the last block, and those of bytes below `n` with an effect. */
  ghost predicate Marked(p: Probe, data: seq<u8>, n: nat, k: nat)
    requires n <= |data| && data != []
  {
    k == 0 || k == EffPos(|data| - 1) || exists i: nat :: i < n && EffPos(i) == k && HasEffect(p, data, i)
  }

  ghost predicate MapIs(p: Probe, data: seq<u8>, n: nat, eff: seq<bool>)
    requires n <= |data| && data != []
  {
    |eff| == EffLen(|data|) && forall k: nat :: k < |eff| ==> (eff[k] <==> Marked(p, data, n, k))
  }

  ghost function CountMarks(eff: seq<bool>): nat {
    if eff == [] then 0 else CountMarks(eff[..|eff| - 1]) + if eff[|eff| - 1] then 1 else 0
  }

  lemma {:induction false} OneMoreMark(eff: seq<bool>, k: nat)
    requires k < |eff| && !eff[k]
    ensures CountMarks(eff[k := true]) == CountMarks(eff) + 1
  {
    var last := |eff| - 1;
    if k < last {
      OneMoreMark(eff[..last], k);
      assert eff[k := true][..last] == eff[..last][k := true];
    } else {
      assert eff[k := true][..last] == eff[..last];
    }
  }

  lemma {:induction false} NoMarks(eff: seq<bool>)
    requires forall k :: 0 <= k < |eff| ==> !eff[k]
    ensures CountMarks(eff) == 0
  {
    if eff != [] {
      NoMarks(eff[..|eff| - 1]);
    }
  }

  lemma NextByte(p: Probe, data: seq<u8>, n: nat, eff: seq<bool>)
    requires data != [] && n < |data| && MapIs(p, data, n, eff)
    ensures EffPos(n) < |eff|
    ensures eff[EffPos(n)] || !HasEffect(p, data, n) ==> MapIs(p, data, n + 1, eff)
    ensures HasEffect(p, data, n) ==> MapIs(p, data, n + 1, eff[EffPos(n) := true])
  {
    forall k: nat | k < |eff|
      ensures Marked(p, data, n + 1, k) <==> Marked(p, data, n, k) || (k == EffPos(n) && HasEffect(p, data, n))
    {
    }
  }

  /** The map after the whole stage: mostly marked maps are marked throughout. */
  ghost predicate MapIsFinal(p: Probe, data: seq<u8>, eff: seq<bool>)
    requires data != []
  {
    exists base: seq<bool> :: MapIs(p, data, |data|, base) &&
      eff == if IsDense(base) then seq(|base|, _ => true) else base
  }

  ghost predicate IsDense(eff: seq<bool>) {
    eff != [] && CountMarks(eff) != |eff| && CountMarks(eff) * 100 / |eff| > 90
  }

  method StartMap(p: Probe, len: nat) returns (eff: array<bool>, count: nat)
    requires len > 0
    ensures fresh(eff) && count == CountMarks(eff[..])
    ensures eff.Length == EffLen(len)
    ensures forall k: nat :: k < eff.Length ==> (eff[k] <==> k == 0 || k == EffPos(len - 1))
  {
    eff := new bool[EffLen(len)](_ => false);
    NoMarks(eff[..]);
    OneMoreMark(eff[..], 0);
    ghost var none := eff[..];
    eff[0] := true;
    assert eff[..] == none[0 := true];
    count := 1;
    if EffPos(len - 1) != 0 {
      ghost var one := eff[..];
      OneMoreMark(one, EffPos(len - 1));
      eff[EffPos(len - 1)] := true;
      assert eff[..] == one[EffPos(len - 1) := true];
      count := 2;
    }
  }

  /** One step of the walking byte stage. */
  method FlipAndProbe(p: Probe, out: array<u8>, eff: array<bool>, i: nat, count: nat)
    returns (count': nat, run: seq<u8>)
    requires i < out.Length && MapIs(p, out[..], i, eff[..]) && count == CountMarks(eff[..])
    modifies out, eff
    ensures out[..] == old(out[..]) && run == ByteFlipped(out[..], i)
    ensures MapIs(p, out[..], i + 1, eff[..]) && count' == CountMarks(eff[..])
  {
    ghost var data := out[..];
    count' := count;
    NextByte(p, data, i, eff[..]);
    out[i] := Xor8(out[i], 0xff);
    run := out[..];
    assert run == ByteFlipped(data, i);
    if !eff[EffPos(i)] {
      if p.dumb || out.Length < EFF_MIN_LEN || p.cksum(run) != p.execCksum {
        ghost var before := eff[..];
        OneMoreMark(before, EffPos(i));
        eff[EffPos(i)] := true;
        assert eff[..] == before[EffPos(i) := true];
        count' := count + 1;
      }
    }
    XorTwice(data[i], 0xff);
    out[i] := Xor8(out[i], 0xff);
    assert out[..] == data;
  }

  /** The walking byte stage: the buffer is restored, and the map marks exactly the blocks that matter. */
  method WalkBytes(p: Probe, out: array<u8>) returns (runs: seq<seq<u8>>, effMap: seq<bool>)
    requires out.Length > 0
    modifies out
    ensures out[..] == old(out[..])
    ensures runs == ByteFlipRuns(out[..])
    ensures MapIsFinal(p, out[..], effMap) && |effMap| == EffLen(out.Length)
  {
    ghost var data := out[..];
    runs := [];
    var eff, count := StartMap(p, out.Length);
    assert MapIs(p, data, 0, eff[..]);
    var i := 0;
    while i < out.Length
      invariant 0 <= i <= out.Length && out[..] == data && fresh(eff)
      invariant runs == ByteFlipRuns(data)[..i]
      invariant MapIs(p, data, i, eff[..]) && count == CountMarks(eff[..])
    {
      var run;
      count, run := FlipAndProbe(p, out, eff, i, count);
      runs := runs + [run];
      i := i + 1;
    }
    effMap := if count != EffLen(out.Length) && count * 100 / EffLen(out.Length) > EFF_MAX_PERC
      then seq(EffLen(out.Length), _ => true) else eff[..];
  }

  /** Later stages skip only bytes whose whole block had no effect. */
  lemma SkippedHadNoEffect(p: Probe, data: seq<u8>, eff: seq<bool>, i: nat)
    requires data != [] && MapIsFinal(p, data, eff) && i < |data|
    ensures EffPos(i) < |eff|
    ensures !eff[EffPos(i)] ==>
      forall k: nat :: k < |data| && k / 8 == i / 8 ==>
        !p.dumb && |data| >= 128 && p.cksum(data[k := 255 - data[k]]) == p.execCksum
  {
    var base: seq<bool> :| MapIs(p, data, |data|, base) &&
      eff == if IsDense(base) then seq(|base|, _ => true) else base;
    assert EffPos(i) < |base|;
    assert base[EffPos(i)] <==> Marked(p, data, |data|, EffPos(i));
    forall k: nat | k < |data| && k / 8 == i / 8 && !eff[EffPos(i)]
      ensures !p.dumb && |data| >= 128 && p.cksum(data[k := 255 - data[k]]) == p.execCksum
    {
      FlippedByte(data[k]);
      assert !HasEffect(p, data, k);
    }
  }
}
