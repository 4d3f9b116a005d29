/**
  `minimize` of the test-case minimizer: block normalization, then passes of block
  deletion, alphabet reduction and character reduction until nothing changes.  The
  target is a deterministic oracle that accepts or rejects an input.
*/
module Minimizer {
  import opened PowersOfTwo
  import opened Buffers
  import opened Sweeps

  type Oracle = seq<u8> -> bool

  const ZERO: u8 := 48  // the character '0'

  const TRIM_START_STEPS: nat := 16
  const TMIN_SET_STEPS: nat := 128
  const TMIN_SET_MIN_SIZE: nat := 4

  // ---------------------------------------------------------------- what the stages try

  /** Deleting a block equal to the one before it gives the same string as deleting that one. */
  lemma EqualBlocksGiveEqualStrings(data: seq<u8>, p: nat, d: nat)
    requires d <= p && p + d <= |data| && data[p - d..p] == data[p..p + d]
    ensures Without(data, p, d) == Without(data, p - d, d)
  {
    assert data[..p] == data[..p - d] + data[p - d..p];
    assert data[p..] == data[p..p + d] + data[p + d..];
  }

  lemma {:induction false} OffsetOfBytes(k: nat)
    ensures Offset(k, 1) == k
  {
    if k > 0 {
      OffsetOfBytes(k - 1);
    }
  }

  ghost predicate BlockRejected(accept: Oracle, data: seq<u8>, d: nat, k: nat) {
    Offset(k, d) < |data| ==> !accept(Without(data, Offset(k, d), d))
  }

  /** None of the first `n` aligned blocks of length `d` can go. */
  ghost predicate RejectedBelow(accept: Oracle, data: seq<u8>, d: nat, n: nat) {
    forall k: nat :: k < n ==> BlockRejected(accept, data, d, k)
  }

  /** No aligned block of length `d` can go. */
  ghost predicate BlocksRejected(accept: Oracle, data: seq<u8>, d: nat) {
    forall k: nat :: BlockRejected(accept, data, d, k)
  }

  lemma AllBelowIsAll(accept: Oracle, data: seq<u8>, d: nat, n: nat)
    requires RejectedBelow(accept, data, d, n) && Offset(n, d) >= |data|
    ensures BlocksRejected(accept, data, d)
  {
    forall k: nat ensures BlockRejected(accept, data, d, k) {
      if k >= n {
        OffsetGrows(k, n, d);
      }
    }
  }

  /** No aligned block of length d, d / 2, d / 4, ... 1 can go. */
  ghost predicate AllSizesRejected(accept: Oracle, data: seq<u8>, d: nat) {
    BlocksRejected(accept, data, d) && (d > 1 ==> AllSizesRejected(accept, data, d / 2))
  }

  lemma {:induction false} NoSingleByteCanGo(accept: Oracle, data: seq<u8>, d: nat, p: nat)
    requires d > 0 && AllSizesRejected(accept, data, d) && p < |data|
    ensures !accept(Without(data, p, 1))
    decreases d
  {
    if d == 1 {
      OffsetOfBytes(p);
      assert BlockRejected(accept, data, 1, p);
    } else {
      NoSingleByteCanGo(accept, data, d / 2, p);
    }
  }

  /** The input with every occurrence of a symbol replaced by '0'. */
  function Zeroed(data: seq<u8>, sym: u8): (r: seq<u8>)
    ensures |r| == |data|
  {
    seq(|data|, i requires 0 <= i < |data| => if data[i] == sym then ZERO else data[i])
  }

  function CountOf(data: seq<u8>, sym: u8): nat {
    if data == [] then 0 else CountOf(data[..|data| - 1], sym) + if data[|data| - 1] == sym then 1 else 0
  }

  /** The number of characters that are not '0'. */
  function NonZero(data: seq<u8>): nat {
    if data == [] then 0 else NonZero(data[..|data| - 1]) + if data[|data| - 1] == ZERO then 0 else 1
  }

  lemma {:induction false} ZeroingCounts(data: seq<u8>, sym: u8)
    requires sym != ZERO
    ensures NonZero(Zeroed(data, sym)) + CountOf(data, sym) == NonZero(data)
    ensures forall other: u8 :: other != sym && other != ZERO ==>
        CountOf(Zeroed(data, sym), other) == CountOf(data, other)
  {
    if data != [] {
      ZeroingCounts(data[..|data| - 1], sym);
      assert Zeroed(data, sym)[..|data| - 1] == Zeroed(data[..|data| - 1], sym);
    }
  }

  lemma {:induction false} CountPositive(data: seq<u8>, sym: u8)
    ensures CountOf(data, sym) > 0 <==> sym in data
  {
    if data != [] {
      CountPositive(data[..|data| - 1], sym);
      assert data == data[..|data| - 1] + [data[|data| - 1]];
    }
  }

  function ZeroedAt(data: seq<u8>, i: nat): (r: seq<u8>)
    requires i < |data|
    ensures |r| == |data|
  {
    data[i := ZERO]
  }

  lemma {:induction false} ZeroingOne(data: seq<u8>, i: nat)
    requires i < |data| && data[i] != ZERO
    ensures NonZero(ZeroedAt(data, i)) + 1 == NonZero(data)
  {
    var last := |data| - 1;
    if i == last {
      assert ZeroedAt(data, i)[..last] == data[..last];
    } else {
      assert ZeroedAt(data, i)[..last] == ZeroedAt(data[..last], i);
      ZeroingOne(data[..last], i);
    }
  }

  /** The input with a block set to '0'. */
  function ZeroedRange(data: seq<u8>, p: nat, n: nat): (r: seq<u8>)
    requires p + n <= |data|
    ensures |r| == |data|
  {
    data[..p] + seq(n, _ => ZERO) + data[p + n..]
  }

  // ---------------------------------------------------------------- what each stage comes to

  /** Stage 0 from position `p`: every block of length `d` that may be all '0' is. */
  ghost function Normalized(accept: Oracle, data: seq<u8>, p: nat, d: nat): (r: seq<u8>)
    requires d > 0
    ensures |r| == |data|
    decreases |data| - p
  {
    if p >= |data| then data
    else
      var zeroed := ZeroedRange(data, p, Min(d, |data| - p));
      Normalized(accept, if accept(zeroed) then zeroed else data, p + d, d)
  }

  /** One sweep of stage 1 from position `p`, trying every block: none is skipped. */
  ghost function Deleted(accept: Oracle, data: seq<u8>, p: nat, d: nat): (r: seq<u8>)
    requires d > 0
    ensures |r| <= |data| && (|r| == |data| ==> r == data)
    decreases |data|, |data| - p
  {
    if p >= |data| then data
    else if accept(Without(data, p, d)) then Deleted(accept, Without(data, p, d), p, d)
    else Deleted(accept, data, p + d, d)
  }

  /** Stage 1 from block length `d` down. */
  ghost function BlocksDeleted(accept: Oracle, data: seq<u8>, d: nat): (r: seq<u8>)
    requires d > 0
    ensures |r| <= |data| && (|r| == |data| ==> r == data)
    decreases d
  {
    var swept := Deleted(accept, data, 0, d);
    if d > 1 && swept != [] then BlocksDeleted(accept, swept, d / 2) else swept
  }

  /** Stage 2 from symbol `i` on. */
  ghost function SymbolsZeroed(accept: Oracle, data: seq<u8>, i: nat): (r: seq<u8>)
    ensures |r| == |data| && NonZero(r) <= NonZero(data)
    decreases 256 - i
  {
    if i >= 256 then data
    else if i != ZERO && accept(Zeroed(data, i)) then
      ZeroingCounts(data, i);
      SymbolsZeroed(accept, Zeroed(data, i), i + 1)
    else SymbolsZeroed(accept, data, i + 1)
  }

  /** Stage 3 from character `i` on. */
  ghost function CharactersZeroed(accept: Oracle, data: seq<u8>, i: nat): (r: seq<u8>)
    ensures |r| == |data| && NonZero(r) <= NonZero(data)
    decreases |data| - i
  {
    if i >= |data| then data
    else if data[i] != ZERO && accept(ZeroedAt(data, i)) then
      ZeroingOne(data, i);
      CharactersZeroed(accept, ZeroedAt(data, i), i + 1)
    else CharactersZeroed(accept, data, i + 1)
  }

  ghost function StartSize(data: seq<u8>): (d: nat)
    ensures d > 0
  {
    LeastPower(|data| / TRIM_START_STEPS)
  }

  /** Passes until nothing changes; the last one ends after its block deletion unless it is the first. */
  ghost function Passes(accept: Oracle, data: seq<u8>, first: bool): seq<u8>
    decreases |data|, NonZero(data), first
  {
    var blocks := BlocksDeleted(accept, data, StartSize(data));
    if !first && |blocks| == |data| then blocks
    else
      var zeroed := CharactersZeroed(accept, SymbolsZeroed(accept, blocks, 0), 0);
      if |blocks| < |data| || NonZero(zeroed) < NonZero(blocks) then Passes(accept, zeroed, false) else zeroed
  }

  ghost function Minimized(accept: Oracle, data: seq<u8>): seq<u8> {
    Passes(accept, Normalized(accept, data, 0, Max(LeastPower(|data| / TMIN_SET_STEPS), TMIN_SET_MIN_SIZE)), true)
  }

  // ---------------------------------------------------------------- stage 0, block by block

  ghost predicate AllZeros(s: seq<u8>) {
    forall i :: 0 <= i < |s| ==> s[i] == 48
  }

  /**
    The block from `p`: what is tried has '0' throughout the block, what became of the input before it, and the
    input after it.  Accepted, the block is all '0'; rejected, it is the input's.
  */
  ghost predicate IsBlockNormal(accept: Oracle, data: seq<u8>, res: seq<u8>, p: nat, n: nat)
    requires p + n <= |data| == |res|
  {
    && (accept(res[..p] + seq(n, _ => 48) + data[p + n..]) <==> AllZeros(res[p..p + n]))
    && (!AllZeros(res[p..p + n]) ==> res[p..p + n] == data[p..p + n])
  }

  /** So are all aligned blocks of length `d` from block `k` on. */
  ghost predicate NormalFrom(accept: Oracle, data: seq<u8>, res: seq<u8>, d: nat, k: nat) {
    |data| == |res| && forall m: nat :: m >= k ==> IsNormalAt(accept, data, res, d, m)
  }

  ghost predicate IsNormalAt(accept: Oracle, data: seq<u8>, res: seq<u8>, d: nat, m: nat)
    requires |data| == |res|
  {
    var p := Offset(m, d);
    p < |data| ==> IsBlockNormal(accept, data, res, p, Min(d, |data| - p))
  }

  lemma {:induction false} NormalizingKeepsFront(accept: Oracle, data: seq<u8>, p: nat, d: nat)
    requires d > 0 && p <= |data|
    ensures Normalized(accept, data, p, d)[..p] == data[..p]
    decreases |data| - p
  {
    if p < |data| {
      var zeroed := ZeroedRange(data, p, Min(d, |data| - p));
      var after := if accept(zeroed) then zeroed else data;
      assert after[..p] == data[..p];
      if p + d <= |data| {
        NormalizingKeepsFront(accept, after, p + d, d);
        assert Normalized(accept, after, p + d, d)[..p + d][..p] == after[..p + d][..p];
      }
    }
  }

  /** The input after the block at `p` was tried. */
  ghost function AfterBlock(accept: Oracle, data: seq<u8>, p: nat, n: nat): (r: seq<u8>)
    requires p + n <= |data| && accept(data)
    ensures |r| == |data| && accept(r) && r[p + n..] == data[p + n..]
  {
    if accept(ZeroedRange(data, p, n)) then ZeroedRange(data, p, n) else data
  }

  lemma NextNormalized(accept: Oracle, data: seq<u8>, p: nat, d: nat, n: nat, next: nat)
    requires d > 0 && p < |data| && n == Min(d, |data| - p) && next == p + d && accept(data)
    ensures Normalized(accept, data, p, d) == Normalized(accept, AfterBlock(accept, data, p, n), next, d)
  {
  }

  /** The block at `p` after normalizing: zeroed or not, and not touched again. */
  lemma NormalizedBlock(accept: Oracle, data: seq<u8>, p: nat, d: nat, n: nat, next: nat)
    requires d > 0 && p < |data| && n == Min(d, |data| - p) && next == p + d && accept(data)
    ensures IsBlockNormal(accept, data, Normalized(accept, data, p, d), p, n)
  {
    var after := AfterBlock(accept, data, p, n);
    var res := Normalized(accept, data, p, d);
    NextNormalized(accept, data, p, d, n, next);
    if next <= |data| {
      NormalizingKeepsFront(accept, after, next, d);
    }
    assert res[..p + n] == after[..p + n];
    BlockIsNormal(accept, data, p, n, after, res);
  }

  lemma BlockIsNormal(accept: Oracle, data: seq<u8>, p: nat, n: nat, after: seq<u8>, res: seq<u8>)
    requires p + n <= |data| == |after| == |res| && res[..p + n] == after[..p + n] && accept(data)
    requires after == AfterBlock(accept, data, p, n)
    ensures IsBlockNormal(accept, data, res, p, n)
  {
    var zeroed, zeros := ZeroedRange(data, p, n), seq(n, _ => 48);
    assert after[..p] == data[..p];
    assert res[..p] == res[..p + n][..p] == after[..p + n][..p] == data[..p];
    assert res[p..p + n] == res[..p + n][p..] == after[..p + n][p..] == after[p..p + n];
    assert zeroed == res[..p] + zeros + data[p + n..];
    assert zeroed[p..p + n] == zeros;
    if AllZeros(data[p..p + n]) {
      assert data[p..p + n] == zeros;
      assert zeroed == data;
    }
  }

  lemma NormalLater(accept: Oracle, data: seq<u8>, after: seq<u8>, res: seq<u8>, p: nat, n: nat, q: nat)
    requires p + n <= |data| == |after| == |res| && q <= p && q <= |data|
    requires after[q..] == data[q..] && IsBlockNormal(accept, after, res, p, n)
    ensures IsBlockNormal(accept, data, res, p, n)
  {
    TailsAgree(data, after, q, p, p + n);
    TailsAgree(data, after, q, p + n, |data|);
  }

  lemma TailsAgree(a: seq<u8>, b: seq<u8>, q: nat, i: nat, j: nat)
    requires q <= i <= j <= |a| == |b| && a[q..] == b[q..]
    ensures a[i..j] == b[i..j]
    ensures a[i..] == b[i..]
  {
    forall k | i <= k < |a| ensures a[k] == b[k] {
      assert a[k] == a[q..][k - q] && b[k] == b[q..][k - q];
    }
  }

  lemma LaterStaysNormal(accept: Oracle, data: seq<u8>, after: seq<u8>, res: seq<u8>, d: nat, k: nat, q: nat)
    requires NormalFrom(accept, after, res, d, k) && |after| == |data| && q <= |data|
    requires q <= Offset(k, d) && after[q..] == data[q..]
    ensures NormalFrom(accept, data, res, d, k)
  {
    forall m: nat | m >= k ensures IsNormalAt(accept, data, res, d, m) {
      OffsetGrows(m, k, d);
      assert IsNormalAt(accept, after, res, d, m);
      if Offset(m, d) < |data| {
        NormalLater(accept, data, after, res, Offset(m, d), Min(d, |data| - Offset(m, d)), q);
      }
    }
  }

  /** Stage 0 decides every block: the one at `p`, where block `k` starts, and the later ones. */
  lemma {:induction false} NormalizedDecides(accept: Oracle, data: seq<u8>, p: nat, d: nat, k: nat)
    requires d > 0 && p == Offset(k, d) && accept(data)
    ensures NormalFrom(accept, data, Normalized(accept, data, p, d), d, k)
    decreases |data| - p
  {
    if p >= |data| {
      forall m: nat | m >= k ensures IsNormalAt(accept, data, data, d, m) {
        OffsetGrows(m, k, d);
      }
    } else {
      var n, next := Min(d, |data| - p), p + d;
      var after, res := AfterBlock(accept, data, p, n), Normalized(accept, data, p, d);
      NextOffset(k, d, k + 1);
      NextNormalized(accept, data, p, d, n, next);
      NormalizedDecides(accept, after, next, d, k + 1);
      NormalizedBlock(accept, data, p, d, n, next);
      LaterStaysNormal(accept, data, after, res, d, k + 1, p + n);
      OneBlockEarlier(accept, data, res, d, k);
    }
  }

  lemma OneBlockEarlier(accept: Oracle, data: seq<u8>, res: seq<u8>, d: nat, k: nat)
    requires NormalFrom(accept, data, res, d, k + 1)
    requires IsNormalAt(accept, data, res, d, k)
    ensures NormalFrom(accept, data, res, d, k)
  {
  }

  // ---------------------------------------------------------------- stages 1 to 3, decision by decision

  /** A sweep of stage 1: each block is gone exactly if the oracle accepts what is left without it. */
  ghost predicate SweepsTo(accept: Oracle, data: seq<u8>, d: nat, res: seq<u8>) {
    exists gone :: IsSweep(accept, data, d, 0, gone, res)
  }

  lemma NextDeleted(accept: Oracle, data: seq<u8>, pos: nat, d: nat, drop: bool, after: seq<u8>, next: nat)
    requires d > 0 && pos < |data| && drop == accept(Without(data, pos, d))
    requires after == (if drop then Without(data, pos, d) else data) && next == if drop then pos else pos + d
    ensures Deleted(accept, data, pos, d) == Deleted(accept, after, next, d)
  {
  }

  lemma {:induction false} DeletedDecides(accept: Oracle, orig: seq<u8>, d: nat, gone: seq<bool>, data: seq<u8>,
                                          pos: nat)
    requires IsAt(accept, orig, d, 0, gone, data, pos)
    ensures SweepsTo(accept, orig, d, Deleted(accept, data, pos, d))
    decreases |data|, |data| - pos
  {
    if pos >= |data| {
      assert IsSweep(accept, orig, d, 0, gone, data);
    } else {
      var candidate := Without(data, pos, d);
      var drop := accept(candidate);
      var after, next := if drop then candidate else data, if drop then pos else pos + d;
      SweepMoves(accept, orig, d, 0, gone, data, pos, drop, after, next);
      NextDeleted(accept, data, pos, d, drop, after, next);
      DeletedDecides(accept, orig, d, gone + [drop], after, next);
    }
  }

  /** Sweeps with block length `d`, then half of it, down to single bytes or until nothing is left. */
  ghost predicate SweepsDown(accept: Oracle, data: seq<u8>, d: nat, res: seq<u8>)
    decreases d
  {
    exists mid :: SweepsTo(accept, data, d, mid) &&
      if d > 1 && mid != [] then SweepsDown(accept, mid, d / 2, res) else res == mid
  }

  /** Stage 1, from a sixteenth of the input. */
  ghost predicate DeletesBlocks(accept: Oracle, data: seq<u8>, res: seq<u8>) {
    exists d: nat :: IsLeastPower(d, |data| / 16) && SweepsDown(accept, data, d, res)
  }

  lemma {:induction false} BlocksDeletedDecides(accept: Oracle, data: seq<u8>, d: nat)
    requires d > 0
    ensures SweepsDown(accept, data, d, BlocksDeleted(accept, data, d))
    decreases d
  {
    var mid := Deleted(accept, data, 0, d);
    SweepStarts(accept, data, d, 0);
    DeletedDecides(accept, data, d, [], data, 0);
    if d > 1 && mid != [] {
      BlocksDeletedDecides(accept, mid, d / 2);
    }
  }

  lemma StageOneDecides(accept: Oracle, data: seq<u8>)
    ensures DeletesBlocks(accept, data, BlocksDeleted(accept, data, StartSize(data)))
  {
    LeastPowerIs(|data| / TRIM_START_STEPS);
    BlocksDeletedDecides(accept, data, StartSize(data));
  }

  /** What is tried for a symbol: it is '0', smaller ones are as in the result, larger ones as in the input. */
  ghost function TriedSymbol(data: seq<u8>, res: seq<u8>, sym: nat): (r: seq<u8>)
    requires |res| == |data|
    ensures |r| == |data|
  {
    seq(|data|, i requires 0 <= i < |data| =>
      if data[i] < sym then res[i] else if data[i] == sym then 48 else data[i])
  }

  /** A symbol becomes '0' throughout exactly if the oracle accepts that, and otherwise stays throughout. */
  ghost predicate IsSymbolDecided(accept: Oracle, data: seq<u8>, res: seq<u8>, sym: nat)
    requires |res| == |data|
  {
    forall i :: 0 <= i < |data| && data[i] == sym ==>
      res[i] == if sym == 48 || accept(TriedSymbol(data, res, sym)) then 48 else sym
  }

  ghost predicate ReducesSymbols(accept: Oracle, data: seq<u8>, res: seq<u8>, from: nat) {
    |res| == |data| && forall sym: nat :: from <= sym < 256 ==> IsSymbolDecided(accept, data, res, sym)
  }

  /** Symbols that were dealt with stay. */
  ghost predicate StaysBelow(data: seq<u8>, res: seq<u8>, n: nat) {
    |res| == |data| && forall i :: 0 <= i < |data| && (data[i] < n || data[i] == 48) ==> res[i] == data[i]
  }

  /** The input after symbol `n` was tried. */
  ghost function AfterSymbol(accept: Oracle, data: seq<u8>, n: u8): (r: seq<u8>)
    ensures |r| == |data| && NonZero(r) <= NonZero(data)
  {
    if n != ZERO && accept(Zeroed(data, n)) then ZeroingCounts(data, n); Zeroed(data, n) else data
  }

  lemma NextSymbol(accept: Oracle, data: seq<u8>, n: u8, next: nat)
    requires next == n + 1
    ensures SymbolsZeroed(accept, data, n) == SymbolsZeroed(accept, AfterSymbol(accept, data, n), next)
  {
  }

  lemma {:induction false} SymbolsStay(accept: Oracle, data: seq<u8>, n: nat)
    requires n <= 256
    ensures StaysBelow(data, SymbolsZeroed(accept, data, n), n)
    decreases 256 - n
  {
    if n < 256 {
      NextSymbol(accept, data, n, n + 1);
      SymbolsStay(accept, AfterSymbol(accept, data, n), n + 1);
    }
  }

  lemma LaterSymbolsDecided(accept: Oracle, data: seq<u8>, after: seq<u8>, res: seq<u8>, n: u8, next: nat)
    requires after == AfterSymbol(accept, data, n) && next == n + 1
    requires StaysBelow(after, res, next) && ReducesSymbols(accept, after, res, next)
    ensures ReducesSymbols(accept, data, res, next)
  {
    forall sym: nat | next <= sym < 256 ensures IsSymbolDecided(accept, data, res, sym) {
      assert TriedSymbol(after, res, sym) == TriedSymbol(data, res, sym);
      assert IsSymbolDecided(accept, after, res, sym);
    }
  }

  lemma ThisSymbolDecided(accept: Oracle, data: seq<u8>, after: seq<u8>, res: seq<u8>, n: u8, next: nat)
    requires after == AfterSymbol(accept, data, n) && next == n + 1
    requires StaysBelow(data, res, n) && StaysBelow(after, res, next)
    ensures IsSymbolDecided(accept, data, res, n)
  {
    assert TriedSymbol(data, res, n) == Zeroed(data, n);
  }

  lemma {:induction false} SymbolsAreDecided(accept: Oracle, data: seq<u8>, n: nat)
    requires n <= 256
    ensures ReducesSymbols(accept, data, SymbolsZeroed(accept, data, n), n)
    decreases 256 - n
  {
    if n < 256 {
      var after, res := AfterSymbol(accept, data, n), SymbolsZeroed(accept, data, n);
      NextSymbol(accept, data, n, n + 1);
      SymbolsStay(accept, data, n);
      SymbolsStay(accept, after, n + 1);
      SymbolsAreDecided(accept, after, n + 1);
      LaterSymbolsDecided(accept, data, after, res, n, n + 1);
      ThisSymbolDecided(accept, data, after, res, n, n + 1);
    }
  }

  /** A character becomes '0' exactly if the oracle accepts that, earlier ones being as in the result. */
  ghost predicate IsCharacterDecided(accept: Oracle, data: seq<u8>, res: seq<u8>, i: nat)
    requires i < |data| == |res|
  {
    res[i] == if data[i] == 48 || accept(res[..i] + [48] + data[i + 1..]) then 48 else data[i]
  }

  ghost predicate ReducesCharacters(accept: Oracle, data: seq<u8>, res: seq<u8>, from: nat) {
    |res| == |data| && forall i: nat :: from <= i < |data| ==> IsCharacterDecided(accept, data, res, i)
  }

  /** The input after character `n` was tried. */
  ghost function AfterCharacter(accept: Oracle, data: seq<u8>, n: nat): (r: seq<u8>)
    requires n < |data|
    ensures |r| == |data| && r[..n] == data[..n] && r[n + 1..] == data[n + 1..]
  {
    if data[n] != ZERO && accept(ZeroedAt(data, n)) then ZeroedAt(data, n) else data
  }

  lemma NextCharacter(accept: Oracle, data: seq<u8>, n: nat, next: nat)
    requires n < |data| && next == n + 1
    ensures CharactersZeroed(accept, data, n) == CharactersZeroed(accept, AfterCharacter(accept, data, n), next)
  {
  }

  lemma {:induction false} CharactersStay(accept: Oracle, data: seq<u8>, n: nat)
    requires n <= |data|
    ensures CharactersZeroed(accept, data, n)[..n] == data[..n]
    decreases |data| - n
  {
    if n < |data| {
      var after, res := AfterCharacter(accept, data, n), CharactersZeroed(accept, data, n);
      NextCharacter(accept, data, n, n + 1);
      CharactersStay(accept, after, n + 1);
      assert res[..n] == res[..n + 1][..n] == after[..n + 1][..n];
    }
  }

  lemma LaterCharactersDecided(accept: Oracle, data: seq<u8>, after: seq<u8>, res: seq<u8>, n: nat, next: nat)
    requires n < |data| && after == AfterCharacter(accept, data, n) && next == n + 1
    requires ReducesCharacters(accept, after, res, next)
    ensures ReducesCharacters(accept, data, res, next)
  {
    forall i: nat | next <= i < |data| ensures IsCharacterDecided(accept, data, res, i) {
      assert IsCharacterDecided(accept, after, res, i);
      TailsAgree(data, after, next, i, i + 1);
      TailsAgree(data, after, next, i + 1, |data|);
      assert after[i..i + 1][0] == data[i..i + 1][0];
    }
  }

  lemma ThisCharacterDecided(accept: Oracle, data: seq<u8>, after: seq<u8>, res: seq<u8>, n: nat, next: nat)
    requires n < |data| == |res| && after == AfterCharacter(accept, data, n) && next == n + 1
    requires res[..next] == after[..next]
    ensures IsCharacterDecided(accept, data, res, n)
  {
    assert res[..n] == res[..next][..n] == after[..next][..n] == data[..n];
    assert res[n] == res[..next][n] == after[..next][n];
    assert res[..n] + [48] + data[n + 1..] == ZeroedAt(data, n);
  }

  lemma {:induction false} CharactersAreDecided(accept: Oracle, data: seq<u8>, n: nat)
    requires n <= |data|
    ensures ReducesCharacters(accept, data, CharactersZeroed(accept, data, n), n)
    decreases |data| - n
  {
    if n < |data| {
      var after, res := AfterCharacter(accept, data, n), CharactersZeroed(accept, data, n);
      NextCharacter(accept, data, n, n + 1);
      CharactersStay(accept, after, n + 1);
      CharactersAreDecided(accept, after, n + 1);
      LaterCharactersDecided(accept, data, after, res, n, n + 1);
      ThisCharacterDecided(accept, data, after, res, n, n + 1);
    }
  }

  // ---------------------------------------------------------------- all passes

  /** A pass: what it begins with, and what its three stages leave. */
  datatype Pass = Pass(input: seq<u8>, blocks: seq<u8>, symbols: seq<u8>, chars: seq<u8>)

  ghost predicate IsPass(accept: Oracle, p: Pass) {
    && DeletesBlocks(accept, p.input, p.blocks)
    && ReducesSymbols(accept, p.blocks, p.symbols, 0)
    && ReducesCharacters(accept, p.symbols, p.chars, 0)
  }

  /** Passes that changed something, and the last one, which did not: only a first one goes on to symbols then. */
  ghost predicate ArePasses(accept: Oracle, data: seq<u8>, passes: seq<Pass>, res: seq<u8>, first: bool)
    decreases |passes|
  {
    if passes == [] then
      && res == data && DeletesBlocks(accept, data, data)
      && (first ==> ReducesSymbols(accept, data, data, 0) && ReducesCharacters(accept, data, data, 0))
    else
      && passes[0].input == data && IsPass(accept, passes[0])
      && (if first then passes[0].chars != data else |passes[0].blocks| < |data|)
      && ArePasses(accept, passes[0].chars, passes[1..], res, false)
  }

  /** Stage 0, with blocks of a 128th of the input and at least 4. */
  ghost predicate NormalizesTo(accept: Oracle, data: seq<u8>, res: seq<u8>) {
    exists p: nat :: IsLeastPower(p, |data| / 128) && NormalFrom(accept, data, res, Max(p, 4), 0)
  }

  lemma StageZeroDecides(accept: Oracle, data: seq<u8>)
    requires accept(data)
    ensures NormalizesTo(accept, data, Normalized(accept, data, 0, Max(LeastPower(|data| / TMIN_SET_STEPS),
                                                                      TMIN_SET_MIN_SIZE)))
  {
    var p := LeastPower(|data| / TMIN_SET_STEPS);
    LeastPowerIs(|data| / TMIN_SET_STEPS);
    NormalizedDecides(accept, data, 0, Max(p, TMIN_SET_MIN_SIZE), 0);
  }

  /** What the result is of, stage by stage and decision by decision. */
  ghost predicate MinimizesTo(accept: Oracle, orig: seq<u8>, res: seq<u8>) {
    exists normal, passes :: NormalizesTo(accept, orig, normal) && ArePasses(accept, normal, passes, res, true)
  }

  lemma {:induction false} SameCountsSame(accept: Oracle, data: seq<u8>, res: seq<u8>)
    requires |res| == |data| && forall i :: 0 <= i < |data| ==> res[i] == data[i] || res[i] == ZERO
    ensures NonZero(res) <= NonZero(data) && (NonZero(res) == NonZero(data) ==> res == data)
  {
    if data != [] {
      var last := |data| - 1;
      SameCountsSame(accept, data[..last], res[..last]);
      assert data == data[..last] + [data[last]] && res == res[..last] + [res[last]];
    }
  }

  /** Stages 2 and 3 change a string exactly if they lower its number of characters other than '0'. */
  lemma ReducingCounts(accept: Oracle, blocks: seq<u8>, symbols: seq<u8>, chars: seq<u8>)
    requires ReducesSymbols(accept, blocks, symbols, 0) && ReducesCharacters(accept, symbols, chars, 0)
    ensures NonZero(chars) < NonZero(blocks) <==> chars != blocks
    ensures chars == blocks ==> symbols == blocks
  {
    forall i | 0 <= i < |blocks| ensures symbols[i] == blocks[i] || symbols[i] == ZERO {
      assert IsSymbolDecided(accept, blocks, symbols, blocks[i]);
    }
    forall i | 0 <= i < |blocks| ensures chars[i] == symbols[i] || chars[i] == ZERO {
      assert IsCharacterDecided(accept, symbols, chars, i);
    }
    SameCountsSame(accept, blocks, symbols);
    SameCountsSame(accept, symbols, chars);
  }

  /** The pass that the reference makes of a string. */
  lemma OnePass(accept: Oracle, data: seq<u8>) returns (p: Pass)
    ensures p.input == data && p.blocks == BlocksDeleted(accept, data, StartSize(data))
    ensures p.chars == CharactersZeroed(accept, SymbolsZeroed(accept, p.blocks, 0), 0)
    ensures IsPass(accept, p)
    ensures NonZero(p.chars) < NonZero(p.blocks) <==> p.chars != p.blocks
    ensures p.chars == p.blocks ==> p.symbols == p.blocks
  {
    var blocks := BlocksDeleted(accept, data, StartSize(data));
    var symbols := SymbolsZeroed(accept, blocks, 0);
    p := Pass(data, blocks, symbols, CharactersZeroed(accept, symbols, 0));
    StageOneDecides(accept, data);
    SymbolsAreDecided(accept, blocks, 0);
    CharactersAreDecided(accept, symbols, 0);
    ReducingCounts(accept, blocks, symbols, p.chars);
  }

  /** The passes of the reference are passes in which every single decision is the oracle's. */
  lemma {:induction false} PassesDecide(accept: Oracle, data: seq<u8>, first: bool) returns (passes: seq<Pass>)
    ensures ArePasses(accept, data, passes, Passes(accept, data, first), first)
    decreases |data|, NonZero(data), first
  {
    var p := OnePass(accept, data);
    if |p.blocks| == |data| && (!first || p.chars == p.blocks) {
      passes := [];
    } else {
      var rest := PassesDecide(accept, p.chars, false);
      passes := [p] + rest;
      assert passes[1..] == rest;
    }
  }

  lemma MinimizedDecides(accept: Oracle, orig: seq<u8>)
    requires accept(orig)
    ensures MinimizesTo(accept, orig, Minimized(accept, orig))
  {
    StageZeroDecides(accept, orig);
    var normal := Normalized(accept, orig, 0, Max(LeastPower(|orig| / TMIN_SET_STEPS), TMIN_SET_MIN_SIZE));
    var passes := PassesDecide(accept, normal, true);
  }

  // ---------------------------------------------------------------- stage 0: block normalization

  lemma {:induction false} ZeroingRangeCounts(data: seq<u8>, p: nat, n: nat)
    requires p + n <= |data|
    ensures NonZero(ZeroedRange(data, p, n)) <= NonZero(data) <= NonZero(ZeroedRange(data, p, n)) + n
  {
    var last := |data| - 1;
    if n == 0 {
      assert ZeroedRange(data, p, n) == data;
    } else if p + n == |data| {
      ZeroingRangeCounts(data[..last], p, n - 1);
      assert ZeroedRange(data, p, n)[..last] == ZeroedRange(data[..last], p, n - 1);
    } else {
      ZeroingRangeCounts(data[..last], p, n);
      assert ZeroedRange(data, p, n)[..last] == ZeroedRange(data[..last], p, n);
    }
  }

  method TryZeroingBlock(accept: Oracle, inData: array<u8>, tmp: array<u8>, inLen: nat, p: nat, n: nat)
    returns (res: bool)
    requires p + n <= inLen <= inData.Length && inLen <= tmp.Length && tmp != inData
    modifies inData, tmp
    ensures res == accept(ZeroedRange(old(inData[..inLen]), p, n))
    ensures inData[..inLen] == if res then ZeroedRange(old(inData[..inLen]), p, n) else old(inData[..inLen])
  {
    ghost var data := inData[..inLen];
    Copy(inData, 0, tmp, 0, inLen);
    forall k | p <= k < p + n {
      tmp[k] := ZERO;
    }
    assert tmp[..inLen] == ZeroedRange(data, p, n);
    res := accept(tmp[..inLen]);
    if res {
      forall k | p <= k < p + n {
        inData[k] := ZERO;
      }
      assert inData[..inLen] == ZeroedRange(data, p, n);
    }
  }

  /** Where stage 0 stands at position `p`; its count may include characters that were '0'. */
  ghost predicate NormalizedUpTo(accept: Oracle, orig: seq<u8>, data: seq<u8>, p: nat, d: nat, alphaDel: nat) {
    && d > 0 && |data| == |orig|
    && accept(data) && Simplifies(ZERO, orig, data)
    && NonZero(data) <= NonZero(orig) <= NonZero(data) + alphaDel
    && Normalized(accept, orig, 0, d) == Normalized(accept, data, p, d)
  }

  lemma BlockNormalized(accept: Oracle, orig: seq<u8>, data: seq<u8>, p: nat, d: nat, alphaDel: nat,
                        n: nat, zeroed: seq<u8>, after: seq<u8>, next: nat)
    requires NormalizedUpTo(accept, orig, data, p, d, alphaDel) && p < |data|
    requires n == Min(d, |data| - p) && zeroed == ZeroedRange(data, p, n) && next == p + d
    requires after == if accept(zeroed) then zeroed else data
    ensures NormalizedUpTo(accept, orig, after, next, d, if accept(zeroed) then alphaDel + n else alphaDel)
    ensures zeroed == data ==> NormalizedUpTo(accept, orig, data, next, d, alphaDel)
  {
    ZeroingRangeCounts(data, p, n);
    FillingSimplifiesMore(ZERO, orig, data, zeroed);
  }

  method IsZeroBlock(inData: array<u8>, p: nat, n: nat) returns (r: bool)
    requires p + n <= inData.Length
    ensures r <==> forall k :: p <= k < p + n ==> inData[k] == ZERO
  {
    var i := p;
    while i < p + n && inData[i] == ZERO
      invariant p <= i <= p + n
      invariant forall k :: p <= k < i ==> inData[k] == ZERO
    {
      i := i + 1;
    }
    r := i == p + n;
  }

  /** One block of stage 0. */
  method NormalizeBlock(accept: Oracle, inData: array<u8>, tmp: array<u8>, inLen: nat, setPos: nat, setLen: nat,
                        alphaDel: nat,
                        ghost orig: seq<u8>)
    returns (alphaDel': nat)
    requires setPos < inLen <= inData.Length && inLen <= tmp.Length && tmp != inData
    requires NormalizedUpTo(accept, orig, inData[..inLen], setPos, setLen, alphaDel)
    modifies inData, tmp
    ensures NormalizedUpTo(accept, orig, inData[..inLen], setPos + setLen, setLen, alphaDel')
  {
    ghost var data := inData[..inLen];
    var useLen := Min(setLen, inLen - setPos);
    ghost var zeroed := ZeroedRange(data, setPos, useLen);
    alphaDel' := alphaDel;
    var isZero := IsZeroBlock(inData, setPos, useLen);
    if isZero {
      assert zeroed == data;
      BlockNormalized(accept, orig, data, setPos, setLen, alphaDel, useLen, zeroed, data, setPos + setLen);
    } else {
      var res := TryZeroingBlock(accept, inData, tmp, inLen, setPos, useLen);
      BlockNormalized(accept, orig, data, setPos, setLen, alphaDel, useLen, zeroed, inData[..inLen], setPos + setLen);
      if res {
        alphaDel' := alphaDel + useLen;
      }
    }
  }

  /** Stage 0: blocks of 1/128 of the input, each tried once as all '0'. */
  method Normalize(accept: Oracle, inData: array<u8>, tmp: array<u8>, inLen: nat) returns (alphaDel: nat)
    requires inLen <= inData.Length && inLen <= tmp.Length && tmp != inData
    requires accept(inData[..inLen])
    modifies inData, tmp
    ensures accept(inData[..inLen]) && Simplifies(ZERO, old(inData[..inLen]), inData[..inLen])
    ensures NonZero(inData[..inLen]) <= NonZero(old(inData[..inLen])) <= NonZero(inData[..inLen]) + alphaDel
    ensures inData[..inLen]
          == Normalized(accept, old(inData[..inLen]), 0, Max(LeastPower(inLen / TMIN_SET_STEPS), TMIN_SET_MIN_SIZE))
    ensures NormalizesTo(accept, old(inData[..inLen]), inData[..inLen])
  {
    StageZeroDecides(accept, inData[..inLen]);
    var setLen := NextP2(inLen / TMIN_SET_STEPS);
    if setLen < TMIN_SET_MIN_SIZE {
      setLen := TMIN_SET_MIN_SIZE;
    }
    alphaDel := NormalizeBlocks(accept, inData, tmp, inLen, setLen);
  }

  method NormalizeBlocks(accept: Oracle, inData: array<u8>, tmp: array<u8>, inLen: nat, setLen: nat)
    returns (alphaDel: nat)
    requires inLen <= inData.Length && inLen <= tmp.Length && tmp != inData && setLen > 0
    requires accept(inData[..inLen])
    modifies inData, tmp
    ensures NormalizedUpTo(accept, old(inData[..inLen]), inData[..inLen], inLen, setLen, alphaDel)
  {
    ghost var orig := inData[..inLen];
    SimplifiesItself(ZERO, orig);
    alphaDel := 0;
    var setPos: nat := 0;
    while setPos < inLen
      invariant NormalizedUpTo(accept, orig, inData[..inLen], setPos, setLen, alphaDel)
    {
      alphaDel := NormalizeBlock(accept, inData, tmp, inLen, setPos, setLen, alphaDel, orig);
      setPos := setPos + setLen;
    }
  }

  // ---------------------------------------------------------------- stage 1: block deletion

  /** Builds the candidate without one block: head, then tail. */
  method CopyWithout(inData: array<u8>, tmp: array<u8>, len: nat, pos: nat, d: nat, tailLen: nat)
    requires pos < len <= inData.Length && len <= tmp.Length && tmp != inData
    requires tailLen == Max(len - pos - d, 0)
    modifies tmp
    ensures pos + tailLen <= len && tmp[..pos + tailLen] == Without(inData[..len], pos, d)
  {
    ghost var data := inData[..len];
    Copy(inData, 0, tmp, 0, pos);
    assert tmp[..pos] == data[..pos];
    if tailLen > 0 {
      ghost var head := tmp[..pos];
      Copy(inData, pos + d, tmp, pos, tailLen);
      assert tmp[..pos] == head;
      assert tmp[pos..pos + tailLen] == data[pos + d..];
      assert tmp[..pos + tailLen] == tmp[..pos] + tmp[pos..pos + tailLen];
    }
  }

  /** Tries to delete one block, for good if the oracle accepts what is left. */
  method TryDelete(accept: Oracle, inData: array<u8>, tmp: array<u8>, len: nat, pos: nat, d: nat, tailLen: nat)
    returns (res: bool)
    requires pos < len <= inData.Length && len <= tmp.Length && tmp != inData
    requires tailLen == Max(len - pos - d, 0)
    modifies inData, tmp
    ensures res == accept(Without(old(inData[..len]), pos, d)) && pos + tailLen <= len
    ensures res ==> inData[..pos + tailLen] == Without(old(inData[..len]), pos, d)
    ensures !res ==> inData[..len] == old(inData[..len])
  {
    CopyWithout(inData, tmp, len, pos, d, tailLen);
    res := accept(tmp[..pos + tailLen]);
    if res {
      ghost var candidate := tmp[..pos + tailLen];
      Copy(tmp, 0, inData, 0, pos + tailLen);
      assert inData[..pos + tailLen] == candidate;
    }
  }

  /**
    Where a sweep stands at `pos`, the start of block `k`: unless a block was just
    deleted, the block before `pos` was rejected - by the oracle or, skipped, by
    equality with an earlier one; and as long as nothing was deleted, so were all.
  */
  ghost predicate SweepState(accept: Oracle, orig: seq<u8>, data: seq<u8>, d: nat, k: nat, pos: nat, prevDel: bool) {
    && |data| <= |orig| && accept(data) && Simplifies(ZERO, orig, data)
    && pos == Offset(k, d) && d > 0
    && Deleted(accept, orig, 0, d) == Deleted(accept, data, pos, d)
    && (!prevDel ==> d <= pos <= |data| + d && pos - d < |data| && !accept(Without(data, pos - d, d)))
    && (|data| == |orig| ==> data == orig && RejectedBelow(accept, data, d, k))
  }

  /** The block at `pos` may be skipped when it repeats the rejected one before it. */
  lemma SweepSkips(accept: Oracle, orig: seq<u8>, data: seq<u8>, d: nat, k: nat, pos: nat)
    requires SweepState(accept, orig, data, d, k, pos, false) && d > 0
    requires pos + d <= |data| && data[pos - d..pos] == data[pos..pos + d]
    ensures SweepState(accept, orig, data, d, k + 1, pos + d, false)
  {
    EqualBlocksGiveEqualStrings(data, pos, d);
    assert BlockRejected(accept, data, d, k);
  }

  lemma SweepKeeps(accept: Oracle, orig: seq<u8>, data: seq<u8>, d: nat, k: nat, pos: nat, prevDel: bool)
    requires SweepState(accept, orig, data, d, k, pos, prevDel) && d > 0
    requires pos < |data| && !accept(Without(data, pos, d))
    ensures SweepState(accept, orig, data, d, k + 1, pos + d, false)
  {
    assert BlockRejected(accept, data, d, k);
  }

  lemma SweepDeletes(accept: Oracle, orig: seq<u8>, data: seq<u8>, d: nat, k: nat, pos: nat, prevDel: bool)
    requires SweepState(accept, orig, data, d, k, pos, prevDel) && d > 0
    requires pos < |data| && accept(Without(data, pos, d))
    ensures SweepState(accept, orig, Without(data, pos, d), d, k, pos, true)
  {
    DeletingSimplifiesMore(ZERO, orig, data, pos, d);
  }

  lemma SweepTried(accept: Oracle, orig: seq<u8>, data: seq<u8>, d: nat, k: nat, pos: nat, prevDel: bool,
                   res: bool, after: seq<u8>, next: nat, k': nat)
    requires SweepState(accept, orig, data, d, k, pos, prevDel) && d > 0 && pos < |data|
    requires res == accept(Without(data, pos, d)) && after == if res then Without(data, pos, d) else data
    requires next == (if res then pos else pos + d) && k' == if res then k else k + 1
    ensures SweepState(accept, orig, after, d, k', next, res)
  {
    if res {
      SweepDeletes(accept, orig, data, d, k, pos, prevDel);
    } else {
      SweepKeeps(accept, orig, data, d, k, pos, prevDel);
    }
  }

  /** One block that is tried. */
  method SweepTry(accept: Oracle, inData: array<u8>, tmp: array<u8>, len: nat, delLen: nat, delPos: nat, prevDel: bool,
                  ghost orig: seq<u8>, ghost k: nat)
    returns (newLen: nat, delPos': nat, prevDel': bool, ghost k': nat)
    requires len <= inData.Length && len <= tmp.Length && tmp != inData && delPos < len
    requires SweepState(accept, orig, inData[..len], delLen, k, delPos, prevDel)
    modifies inData, tmp
    ensures newLen <= len && (newLen < len || delPos' == delPos + delLen)
    ensures SweepState(accept, orig, inData[..newLen], delLen, k', delPos', prevDel')
  {
    ghost var data := inData[..len];
    var tailLen := Max(len - delPos - delLen, 0);
    prevDel' := TryDelete(accept, inData, tmp, len, delPos, delLen, tailLen);
    newLen := if prevDel' then delPos + tailLen else len;
    delPos', k' := if prevDel' then delPos else delPos + delLen, if prevDel' then k else k + 1;
    SweepTried(accept, orig, data, delLen, k, delPos, prevDel, prevDel', inData[..newLen], delPos', k');
  }

  /** One block: skipped when it equals the one just kept, else tried. */
  method SweepStep(accept: Oracle, inData: array<u8>, tmp: array<u8>, len: nat, delLen: nat, delPos: nat, prevDel: bool,
                   ghost orig: seq<u8>, ghost k: nat)
    returns (newLen: nat, delPos': nat, prevDel': bool, ghost k': nat)
    requires len <= inData.Length && len <= tmp.Length && tmp != inData && delPos < len
    requires SweepState(accept, orig, inData[..len], delLen, k, delPos, prevDel)
    modifies inData, tmp
    ensures newLen <= len && (newLen < len || delPos' == delPos + delLen)
    ensures SweepState(accept, orig, inData[..newLen], delLen, k', delPos', prevDel')
  {
    ghost var data := inData[..len];
    var buf := inData[..len];
    if !prevDel && len - delPos - delLen > 0 && buf[delPos - delLen..delPos] == buf[delPos..delPos + delLen] {
      SweepSkips(accept, orig, data, delLen, k, delPos);
      newLen, delPos', prevDel', k' := len, delPos + delLen, false, k + 1;
    } else {
      newLen, delPos', prevDel', k' := SweepTry(accept, inData, tmp, len, delLen, delPos, prevDel, orig, k);
    }
  }

  /** One sweep over the input with blocks of one length. */
  method DeleteSweep(accept: Oracle, inData: array<u8>, tmp: array<u8>, inLen: nat, delLen: nat) returns (newLen: nat)
    requires inLen <= inData.Length && inLen <= tmp.Length && tmp != inData && delLen > 0
    requires accept(inData[..inLen])
    modifies inData, tmp
    ensures newLen <= inLen && accept(inData[..newLen]) && Simplifies(ZERO, old(inData[..inLen]), inData[..newLen])
    ensures newLen == inLen
          ==> inData[..inLen] == old(inData[..inLen]) && BlocksRejected(accept, inData[..inLen], delLen)
    ensures inData[..newLen] == Deleted(accept, old(inData[..inLen]), 0, delLen)
    ensures SweepsTo(accept, old(inData[..inLen]), delLen, inData[..newLen])
  {
    SweepStarts(accept, inData[..inLen], delLen, 0);
    DeletedDecides(accept, inData[..inLen], delLen, [], inData[..inLen], 0);
    newLen := inLen;
    var delPos: nat, prevDel := 0, true;
    ghost var k: nat, orig := 0, inData[..inLen];
    SimplifiesItself(ZERO, orig);
    while delPos < newLen
      invariant newLen <= inLen
      invariant SweepState(accept, orig, inData[..newLen], delLen, k, delPos, prevDel)
      decreases newLen, newLen - delPos
    {
      newLen, delPos, prevDel, k := SweepStep(accept, inData, tmp, newLen, delLen, delPos, prevDel, orig, k);
    }
    if newLen == inLen {
      AllBelowIsAll(accept, inData[..newLen], delLen, k);
    }
  }

  /** No block of any length tried in a pass can go, down to single bytes. */
  ghost predicate IsBlockMinimal(accept: Oracle, data: seq<u8>) {
    data != [] ==> AllSizesRejected(accept, data, LeastPower(|data| / TRIM_START_STEPS))
  }

  ghost predicate AllRejected(accept: Oracle, data: seq<u8>, sizes: seq<nat>) {
    forall d :: d in sizes ==> BlocksRejected(accept, data, d)
  }

  lemma OneMoreSize(accept: Oracle, orig: seq<u8>, data: seq<u8>, sizes: seq<nat>, half: nat)
    requires HalvingFrom(StartSize(orig), sizes) && half == sizes[|sizes| - 1] / 2 >= 1
    ensures HalvingFrom(StartSize(orig), sizes + [half])
    ensures AllRejected(accept, data, sizes) && BlocksRejected(accept, data, half)
          ==> AllRejected(accept, data, sizes + [half])
  {
  }

  /** Where stage 1 stands after the sweep with the last of these block lengths. */
  ghost predicate BlocksState(accept: Oracle, orig: seq<u8>, data: seq<u8>, sizes: seq<nat>, d: nat) {
    && d > 0 && |data| <= |orig| && accept(data) && Simplifies(ZERO, orig, data)
    && HalvingFrom(StartSize(orig), sizes) && sizes[|sizes| - 1] == d
    && (|data| == |orig| ==> data == orig && AllRejected(accept, data, sizes))
    && BlocksDeleted(accept, orig, StartSize(orig))
       == if d > 1 && data != [] then BlocksDeleted(accept, data, d / 2) else data
  }

  lemma NextSize(accept: Oracle, orig: seq<u8>, data: seq<u8>, sizes: seq<nat>, d: nat, half: nat, after: seq<u8>)
    requires BlocksState(accept, orig, data, sizes, d) && d > 1 && data != [] && half == d / 2
    requires |after| <= |data| && accept(after) && Simplifies(ZERO, data, after)
    requires after == Deleted(accept, data, 0, half)
    requires |after| == |data| ==> BlocksRejected(accept, after, half)
    ensures BlocksState(accept, orig, after, sizes + [half], half)
  {
    SimplifiesTransitive(ZERO, orig, data, after);
    OneMoreSize(accept, orig, after, sizes, half);
  }

  /** Stage 1: sweeps with blocks of 1/16 of the input, then of half that length, down to single bytes. */
  method DeleteBlocks(accept: Oracle, inData: array<u8>, tmp: array<u8>, inLen: nat) returns (newLen: nat)
    requires inLen <= inData.Length && inLen <= tmp.Length && tmp != inData
    requires accept(inData[..inLen])
    modifies inData, tmp
    ensures newLen <= inLen && accept(inData[..newLen]) && Simplifies(ZERO, old(inData[..inLen]), inData[..newLen])
    ensures newLen == inLen ==> inData[..inLen] == old(inData[..inLen])
    ensures newLen == inLen ==> IsBlockMinimal(accept, inData[..inLen])
    ensures inData[..newLen] == BlocksDeleted(accept, old(inData[..inLen]), StartSize(old(inData[..inLen])))
    ensures DeletesBlocks(accept, old(inData[..inLen]), inData[..newLen])
  {
    StageOneDecides(accept, inData[..inLen]);
    ghost var data := inData[..inLen];
    var delLen := NextP2(inLen / TRIM_START_STEPS);
    newLen := DeleteSweep(accept, inData, tmp, inLen, delLen);
    ghost var sizes := [delLen];
    while delLen > 1 && newLen >= 1
      invariant newLen <= inLen && BlocksState(accept, data, inData[..newLen], sizes, delLen)
      decreases delLen
    {
      ghost var before := inData[..newLen];
      newLen := DeleteSweep(accept, inData, tmp, newLen, delLen / 2);
      NextSize(accept, data, before, sizes, delLen, delLen / 2, inData[..newLen]);
      delLen := delLen / 2;
      sizes := sizes + [delLen];
    }
    if newLen == inLen && inLen > 0 {
      HalvingCovers(accept, data, sizes, 0);
    }
  }

  /** The block lengths of stage 1, each half of the one before. */
  ghost predicate HalvingFrom(d: nat, sizes: seq<nat>) {
    && sizes != [] && sizes[0] == d
    && (forall i :: 0 <= i < |sizes| ==> sizes[i] >= 1)
    && (forall i :: 0 < i < |sizes| ==> sizes[i] == sizes[i - 1] / 2)
  }

  lemma {:induction false} HalvingCovers(accept: Oracle, data: seq<u8>, sizes: seq<nat>, i: nat)
    requires i < |sizes| && HalvingFrom(sizes[0], sizes) && sizes[|sizes| - 1] == 1
    requires AllRejected(accept, data, sizes)
    ensures AllSizesRejected(accept, data, sizes[i])
    decreases |sizes| - i
  {
    assert sizes[i] in sizes;
    if i < |sizes| - 1 {
      HalvingCovers(accept, data, sizes, i + 1);
    }
  }

  /** Where stage 2 stands before symbol `n`; the counts of the symbols still to come are right. */
  ghost predicate SymbolsTried(accept: Oracle, orig: seq<u8>, data: seq<u8>, n: nat, alphaDel: nat) {
    && |data| == |orig| && accept(data) && Simplifies(ZERO, orig, data)
    && NonZero(data) + alphaDel == NonZero(orig)
    && (alphaDel == 0 ==> data == orig && NoSymbolCanGo(accept, data, n))
    && SymbolsZeroed(accept, orig, 0) == SymbolsZeroed(accept, data, n)
  }

  ghost predicate CountsRight(alphaMap: seq<nat>, data: seq<u8>, n: nat) {
    |alphaMap| == 256 && forall sym: u8 :: n <= sym && sym != ZERO ==> alphaMap[sym] == CountOf(data, sym)
  }

  lemma SymbolGone(accept: Oracle, orig: seq<u8>, data: seq<u8>, n: u8, alphaDel: nat, alphaMap: seq<nat>, next: nat)
    requires SymbolsTried(accept, orig, data, n, alphaDel) && CountsRight(alphaMap, data, n)
    requires n != ZERO && alphaMap[n] != 0 && accept(Zeroed(data, n)) && next == n + 1
    ensures SymbolsTried(accept, orig, Zeroed(data, n), next, alphaDel + alphaMap[n])
    ensures CountsRight(alphaMap, Zeroed(data, n), next)
  {
    ZeroingCounts(data, n);
    FillingSimplifiesMore(ZERO, orig, data, Zeroed(data, n));
  }

  lemma SymbolStays(accept: Oracle, orig: seq<u8>, data: seq<u8>, n: u8, alphaDel: nat, alphaMap: seq<nat>, next: nat)
    requires SymbolsTried(accept, orig, data, n, alphaDel) && CountsRight(alphaMap, data, n)
    requires n == ZERO || alphaMap[n] == 0 || !accept(Zeroed(data, n))
    requires next == n + 1
    ensures SymbolsTried(accept, orig, data, next, alphaDel) && CountsRight(alphaMap, data, next)
  {
    if n != ZERO && alphaMap[n] == 0 {
      CountPositive(data, n);
      AbsentIsZeroed(data, n);
    }
  }

  lemma AbsentIsZeroed(data: seq<u8>, sym: u8)
    requires sym !in data
    ensures Zeroed(data, sym) == data
  {
  }

  /** Stage 2: every symbol but '0', in turn; the histogram is taken once, at the start. */
  method MinimizeAlphabet(accept: Oracle, inData: array<u8>, tmp: array<u8>, inLen: nat) returns (alphaDel: nat)
    requires inLen <= inData.Length && inLen <= tmp.Length && tmp != inData
    requires accept(inData[..inLen])
    modifies inData, tmp
    ensures accept(inData[..inLen]) && Simplifies(ZERO, old(inData[..inLen]), inData[..inLen])
    ensures NonZero(inData[..inLen]) + alphaDel == NonZero(old(inData[..inLen]))
    ensures alphaDel == 0 ==> inData[..inLen] == old(inData[..inLen]) && NoSymbolCanGo(accept, inData[..inLen], 256)
    ensures inData[..inLen] == SymbolsZeroed(accept, old(inData[..inLen]), 0)
    ensures ReducesSymbols(accept, old(inData[..inLen]), inData[..inLen], 0)
  {
    SymbolsAreDecided(accept, inData[..inLen], 0);
    var alphaMap := Histogram(inData, inLen);
    alphaDel := 0;
    ghost var orig := inData[..inLen];
    SimplifiesItself(ZERO, orig);
    var i := 0;
    while i < 256
      invariant 0 <= i <= 256
      invariant SymbolsTried(accept, orig, inData[..inLen], i, alphaDel) && CountsRight(alphaMap, inData[..inLen], i)
    {
      ghost var data := inData[..inLen];
      var res := false;
      if i != ZERO && alphaMap[i] != 0 {
        res := TryZeroing(accept, inData, tmp, inLen, i);
      }
      if res {
        SymbolGone(accept, orig, data, i, alphaDel, alphaMap, i + 1);
        alphaDel := alphaDel + alphaMap[i];
      } else {
        SymbolStays(accept, orig, data, i, alphaDel, alphaMap, i + 1);
      }
      i := i + 1;
    }
  }

  /** No symbol below `n` that occurs, '0' apart, can be replaced by '0' throughout. */
  ghost predicate NoSymbolCanGo(accept: Oracle, data: seq<u8>, n: nat) {
    forall sym: u8 :: sym < n && sym != ZERO && sym in data ==> !accept(Zeroed(data, sym))
  }

  method Histogram(inData: array<u8>, inLen: nat) returns (alphaMap: seq<nat>)
    requires inLen <= inData.Length
    ensures CountsRight(alphaMap, inData[..inLen], 0)
  {
    var counts := new nat[256](_ => 0);
    var i := 0;
    while i < inLen
      invariant 0 <= i <= inLen
      invariant forall sym: u8 :: counts[sym] == CountOf(inData[..i], sym)
    {
      assert inData[..i + 1][..i] == inData[..i];
      counts[inData[i]] := counts[inData[i]] + 1;
      i := i + 1;
    }
    alphaMap := counts[..];
  }

  method TryZeroing(accept: Oracle, inData: array<u8>, tmp: array<u8>, inLen: nat, sym: u8) returns (res: bool)
    requires inLen <= inData.Length && inLen <= tmp.Length && tmp != inData
    modifies inData, tmp
    ensures res == accept(Zeroed(old(inData[..inLen]), sym))
    ensures inData[..inLen] == if res then Zeroed(old(inData[..inLen]), sym) else old(inData[..inLen])
  {
    ghost var data := inData[..inLen];
    Copy(inData, 0, tmp, 0, inLen);
    assert tmp[..inLen] == data;
    var r := 0;
    while r < inLen
      invariant 0 <= r <= inLen && inData[..inLen] == data
      invariant forall k :: 0 <= k < r ==> tmp[k] == Zeroed(data, sym)[k]
      invariant forall k :: r <= k < inLen ==> tmp[k] == data[k]
    {
      if tmp[r] == sym {
        tmp[r] := ZERO;
      }
      r := r + 1;
    }
    assert tmp[..inLen] == Zeroed(data, sym);
    res := accept(tmp[..inLen]);
    if res {
      Copy(tmp, 0, inData, 0, inLen);
      assert inData[..inLen] == Zeroed(data, sym);
    }
  }

  /** None of the first `n` characters can become a '0' on its own. */
  ghost predicate NoCharacterCanGo(accept: Oracle, data: seq<u8>, n: nat) {
    forall i :: 0 <= i < n && i < |data| && data[i] != ZERO ==> !accept(ZeroedAt(data, i))
  }

  /** Where stage 3 stands before character `n`. */
  ghost predicate CharactersTried(accept: Oracle, orig: seq<u8>, data: seq<u8>, n: nat, alphaDel: nat) {
    && accept(data) && Simplifies(ZERO, orig, data)
    && NonZero(data) + alphaDel == NonZero(orig)
    && (alphaDel == 0 ==> data == orig && NoCharacterCanGo(accept, data, n))
    && CharactersZeroed(accept, orig, 0) == CharactersZeroed(accept, data, n)
  }

  lemma OneCharacterStays(accept: Oracle, orig: seq<u8>, data: seq<u8>, n: nat, alphaDel: nat, next: nat)
    requires CharactersTried(accept, orig, data, n, alphaDel) && n < |data| && next == n + 1
    requires data[n] == ZERO || !accept(ZeroedAt(data, n))
    ensures CharactersTried(accept, orig, data, next, alphaDel)
  {
  }

  lemma OneCharacterGone(accept: Oracle, orig: seq<u8>, data: seq<u8>, n: nat, alphaDel: nat)
    requires CharactersTried(accept, orig, data, n, alphaDel) && n < |data| && data[n] != ZERO
    requires accept(ZeroedAt(data, n))
    ensures CharactersTried(accept, orig, ZeroedAt(data, n), n + 1, alphaDel + 1)
  {
    ZeroingOne(data, n);
    FillingSimplifiesMore(ZERO, orig, data, ZeroedAt(data, n));
  }

  method TryCharacter(accept: Oracle, inData: array<u8>, tmp: array<u8>, inLen: nat, i: nat) returns (res: bool)
    requires i < inLen <= inData.Length && inLen <= tmp.Length && tmp != inData && inData[..inLen] == tmp[..inLen]
    modifies inData, tmp
    ensures res == accept(ZeroedAt(old(inData[..inLen]), i))
    ensures inData[..inLen] == tmp[..inLen] == if res then ZeroedAt(old(inData[..inLen]), i) else old(inData[..inLen])
  {
    ghost var data := inData[..inLen];
    var orig := tmp[i];
    tmp[i] := ZERO;
    assert tmp[..inLen] == ZeroedAt(data, i);
    res := accept(tmp[..inLen]);
    if res {
      inData[i] := ZERO;
    } else {
      tmp[i] := orig;
    }
    assert orig == data[i];
    assert tmp[..inLen] == if res then ZeroedAt(data, i) else data;
    assert inData[..inLen] == if res then ZeroedAt(data, i) else data;
  }

  /** Stage 3: every character in turn, with `tmp` kept equal to the input between tests. */
  method MinimizeCharacters(accept: Oracle, inData: array<u8>, tmp: array<u8>, inLen: nat) returns (alphaDel: nat)
    requires inLen <= inData.Length && inLen <= tmp.Length && tmp != inData
    requires accept(inData[..inLen])
    modifies inData, tmp
    ensures accept(inData[..inLen]) && Simplifies(ZERO, old(inData[..inLen]), inData[..inLen])
    ensures NonZero(inData[..inLen]) + alphaDel == NonZero(old(inData[..inLen]))
    ensures alphaDel == 0
          ==> inData[..inLen] == old(inData[..inLen]) && NoCharacterCanGo(accept, inData[..inLen], inLen)
    ensures inData[..inLen] == CharactersZeroed(accept, old(inData[..inLen]), 0)
    ensures ReducesCharacters(accept, old(inData[..inLen]), inData[..inLen], 0)
  {
    CharactersAreDecided(accept, inData[..inLen], 0);
    alphaDel := 0;
    ghost var orig := inData[..inLen];
    Copy(inData, 0, tmp, 0, inLen);
    assert tmp[..inLen] == orig;
    SimplifiesItself(ZERO, orig);
    var i := 0;
    while i < inLen
      invariant 0 <= i <= inLen && inData[..inLen] == tmp[..inLen]
      invariant CharactersTried(accept, orig, inData[..inLen], i, alphaDel)
    {
      alphaDel := MinimizeCharacter(accept, inData, tmp, inLen, i, alphaDel, orig);
      i := i + 1;
    }
  }

  /** One character of stage 3. */
  method MinimizeCharacter(accept: Oracle, inData: array<u8>, tmp: array<u8>, inLen: nat, i: nat, alphaDel: nat,
                           ghost orig: seq<u8>)
    returns (alphaDel': nat)
    requires i < inLen <= inData.Length && inLen <= tmp.Length && tmp != inData && inData[..inLen] == tmp[..inLen]
    requires CharactersTried(accept, orig, inData[..inLen], i, alphaDel)
    modifies inData, tmp
    ensures inData[..inLen] == tmp[..inLen]
    ensures CharactersTried(accept, orig, inData[..inLen], i + 1, alphaDel')
  {
    ghost var data := inData[..inLen];
    assert tmp[i] == tmp[..inLen][i] == data[i];
    var res := false;
    if tmp[i] != ZERO {
      res := TryCharacter(accept, inData, tmp, inLen, i);
    }
    if res {
      OneCharacterGone(accept, orig, data, i, alphaDel);
      alphaDel' := alphaDel + 1;
    } else {
      OneCharacterStays(accept, orig, data, i, alphaDel, i + 1);
      alphaDel' := alphaDel;
    }
  }

  // ---------------------------------------------------------------- passes

  /** Stages 2 and 3 of a pass; together they turn exactly `alphaDel` characters into '0'. */
  method MinimizeSymbols(accept: Oracle, inData: array<u8>, tmp: array<u8>, inLen: nat) returns (alphaDel: nat)
    requires inLen <= inData.Length && inLen <= tmp.Length && tmp != inData
    requires accept(inData[..inLen])
    modifies inData, tmp
    ensures accept(inData[..inLen]) && Simplifies(ZERO, old(inData[..inLen]), inData[..inLen])
    ensures NonZero(inData[..inLen]) + alphaDel == NonZero(old(inData[..inLen]))
    ensures alphaDel == 0 ==>
              && inData[..inLen] == old(inData[..inLen])
              && NoSymbolCanGo(accept, inData[..inLen], 256)
              && NoCharacterCanGo(accept, inData[..inLen], inLen)
    ensures inData[..inLen] == CharactersZeroed(accept, SymbolsZeroed(accept, old(inData[..inLen]), 0), 0)
  {
    ghost var orig := inData[..inLen];
    var alphaDel1 := MinimizeAlphabet(accept, inData, tmp, inLen);
    ghost var mid := inData[..inLen];
    var alphaDel2 := MinimizeCharacters(accept, inData, tmp, inLen);
    SimplifiesTransitive(ZERO, orig, mid, inData[..inLen]);
    alphaDel := alphaDel1 + alphaDel2;
  }

  /**
    The whole minimization.  It ends, because every pass that changes something
    shrinks the input or its number of characters other than '0'; the result is an
    accepted simplification of the input, and deleting any one byte of it is rejected.
  */
  method Minimize(accept: Oracle, inData: array<u8>, inLen: nat) returns (newLen: nat, passes: nat)
    requires inLen <= inData.Length && accept(inData[..inLen])
    modifies inData
    ensures newLen <= inLen && passes >= 1
    ensures accept(inData[..newLen]) && Simplifies(ZERO, old(inData[..inLen]), inData[..newLen])
    ensures IsBlockMinimal(accept, inData[..newLen])
    ensures forall p :: 0 <= p < newLen ==> !accept(Without(inData[..newLen], p, 1))
    ensures passes == 1
          ==> NoSymbolCanGo(accept, inData[..newLen], 256) && NoCharacterCanGo(accept, inData[..newLen], newLen)
    ensures inData[..newLen] == Minimized(accept, old(inData[..inLen]))
    ensures MinimizesTo(accept, old(inData[..inLen]), inData[..newLen])
  {
    MinimizedDecides(accept, inData[..inLen]);
    var tmp := new u8[inLen](_ => 0);
    ghost var orig := inData[..inLen];
    var alphaDel0 := Normalize(accept, inData, tmp, inLen);
    newLen, passes := inLen, 0;
    var changedAny := true;
    while changedAny
      invariant newLen <= inLen && tmp.Length == inLen && fresh(tmp)
      invariant accept(inData[..newLen]) && Simplifies(ZERO, orig, inData[..newLen])
      invariant !changedAny ==> passes >= 1 && IsBlockMinimal(accept, inData[..newLen])
      invariant !changedAny && passes == 1 ==>
                  NoSymbolCanGo(accept, inData[..newLen], 256) && NoCharacterCanGo(accept, inData[..newLen], newLen)
      invariant Minimized(accept, orig)
             == if changedAny then Passes(accept, inData[..newLen], passes == 0) else inData[..newLen]
      decreases newLen, NonZero(inData[..newLen]), changedAny
    {
      passes := passes + 1;
      ghost var before := inData[..newLen];
      var len := newLen;
      newLen := DeleteBlocks(accept, inData, tmp, len);
      changedAny := newLen != len;
      SimplifiesTransitive(ZERO, orig, before, inData[..newLen]);
      if passes > 1 && !changedAny {
        break;
      }
      ghost var mid := inData[..newLen];
      var alphaDel := MinimizeSymbols(accept, inData, tmp, newLen);
      SimplifiesTransitive(ZERO, orig, mid, inData[..newLen]);
      if alphaDel > 0 {
        changedAny := true;
      }
    }
    ghost var result := inData[..newLen];
    forall p | 0 <= p < newLen ensures !accept(Without(result, p, 1)) {
      NoSingleByteCanGo(accept, result, LeastPower(newLen / TRIM_START_STEPS), p);
    }
  }
}
