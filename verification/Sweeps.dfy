/**
  What one sweep of an input minimizer comes to: the input is cut into blocks of one
  length, and each block in turn is dropped if what is left then passes a test.
*/
module Sweeps {
  import opened Buffers

  type Test = seq<u8> -> bool

  /** `k` blocks of length `d`. */
  ghost function Offset(k: nat, d: nat): nat {
    if k == 0 then 0 else Offset(k - 1, d) + d
  }

  lemma {:induction false} OffsetIsProduct(k: nat, d: nat)
    ensures Offset(k, d) == k * d
  {
    if k > 0 {
      OffsetIsProduct(k - 1, d);
    }
  }

  lemma {:induction false} OffsetGrows(k: nat, n: nat, d: nat)
    requires n <= k
    ensures Offset(n, d) <= Offset(k, d)
  {
    if n < k {
      OffsetGrows(k - 1, n, d);
    }
  }

  lemma NextOffset(k: nat, d: nat, next: nat)
    requires next == k + 1
    ensures Offset(next, d) == Offset(k, d) + d
  {
  }

  /** Where block `k` starts; blocks beyond the end are empty. */
  ghost function Start(n: nat, k: nat, d: nat): (p: nat)
    ensures p <= n
  {
    Min(Offset(k, d), n)
  }

  /** The bytes of block `k`. */
  ghost function Block(data: seq<u8>, k: nat, d: nat): seq<u8> {
    data[Start(|data|, k, d)..Start(|data|, k + 1, d)]
  }

  /** The bytes from block `k` on. */
  ghost function From(data: seq<u8>, k: nat, d: nat): seq<u8> {
    data[Start(|data|, k, d)..]
  }

  /** What is left of the blocks about which a decision was made. */
  ghost function Kept(data: seq<u8>, d: nat, gone: seq<bool>): seq<u8> {
    if gone == [] then []
    else
      var k := |gone| - 1;
      Kept(data, d, gone[..k]) + if gone[k] then [] else Block(data, k, d)
  }

  /** The input without block `k`, when it is that block's turn: earlier blocks are decided, later ones are there. */
  ghost function Tried(data: seq<u8>, d: nat, gone: seq<bool>, k: nat): seq<u8>
    requires k <= |gone|
  {
    Kept(data, d, gone[..k]) + From(data, k + 1, d)
  }

  /** Block `k` is dropped exactly if the test passes without it; the first `first` blocks are never tried. */
  ghost predicate IsDecided(test: Test, data: seq<u8>, d: nat, first: nat, gone: seq<bool>, k: nat)
    requires k < |gone|
  {
    gone[k] <==> k >= first && test(Tried(data, d, gone, k))
  }

  ghost predicate AllDecided(test: Test, data: seq<u8>, d: nat, first: nat, gone: seq<bool>) {
    forall k: nat :: k < |gone| ==> IsDecided(test, data, d, first, gone, k)
  }

  /** These blocks are decided, and the rest of the input is untouched. */
  ghost predicate IsSwept(test: Test, data: seq<u8>, d: nat, first: nat, gone: seq<bool>, res: seq<u8>) {
    && AllDecided(test, data, d, first, gone)
    && (gone != [] ==> Offset(|gone| - 1, d) < |data|)
    && res == Kept(data, d, gone) + From(data, |gone|, d)
  }

  /** All blocks are decided. */
  ghost predicate IsSweep(test: Test, data: seq<u8>, d: nat, first: nat, gone: seq<bool>, res: seq<u8>) {
    d > 0 && Offset(|gone|, d) >= |data| && IsSwept(test, data, d, first, gone, res)
  }

  // ---------------------------------------------------------------- step by step

  /** Where a sweep stands: at the end of what is kept, until it has run past the end. */
  ghost predicate IsAt(test: Test, data: seq<u8>, d: nat, first: nat, gone: seq<bool>, now: seq<u8>, pos: nat) {
    && d > 0 && IsSwept(test, data, d, first, gone, now)
    && if pos < |now| then pos == |Kept(data, d, gone)| else Offset(|gone|, d) >= |data|
  }

  lemma KeptPrefix(data: seq<u8>, d: nat, gone: seq<bool>, more: bool, k: nat)
    requires k <= |gone|
    ensures (gone + [more])[..k] == gone[..k]
    ensures Tried(data, d, gone + [more], k) == Tried(data, d, gone, k)
  {
    assert (gone + [more])[..k] == gone[..k];
  }

  lemma DecidedOnce(test: Test, data: seq<u8>, d: nat, first: nat, gone: seq<bool>, more: bool, k: nat)
    requires k < |gone|
    ensures IsDecided(test, data, d, first, gone + [more], k) <==> IsDecided(test, data, d, first, gone, k)
  {
    KeptPrefix(data, d, gone, more, k);
  }

  lemma OneMoreDecided(test: Test, data: seq<u8>, d: nat, first: nat, gone: seq<bool>, drop: bool)
    requires AllDecided(test, data, d, first, gone)
    requires drop <==> |gone| >= first && test(Tried(data, d, gone, |gone|))
    ensures AllDecided(test, data, d, first, gone + [drop])
  {
    forall k: nat | k < |gone + [drop]| ensures IsDecided(test, data, d, first, gone + [drop], k) {
      if k < |gone| {
        DecidedOnce(test, data, d, first, gone, drop, k);
      } else {
        KeptPrefix(data, d, gone, drop, k);
      }
    }
  }

  lemma WithoutInTail(kept: seq<u8>, rest: seq<u8>, d: nat)
    ensures Without(kept + rest, |kept|, d) == kept + rest[Min(d, |rest|)..]
  {
  }

  lemma RestOfBlocks(data: seq<u8>, k: nat, d: nat, next: nat)
    requires next == k + 1 && Offset(k, d) < |data|
    ensures From(data, k, d) == Block(data, k, d) + From(data, next, d)
    ensures From(data, next, d) == From(data, k, d)[Min(d, |From(data, k, d)|)..]
  {
    NextOffset(k, d, next);
  }

  /** While the sweep is not at the end, the next block starts at its position. */
  lemma NextBlock(test: Test, data: seq<u8>, d: nat, first: nat, gone: seq<bool>, now: seq<u8>, pos: nat)
    requires IsAt(test, data, d, first, gone, now, pos) && pos < |now|
    ensures Offset(|gone|, d) < |data| && Without(now, pos, d) == Tried(data, d, gone, |gone|)
  {
    assert gone[..|gone|] == gone;
    RestOfBlocks(data, |gone|, d, |gone| + 1);
    WithoutInTail(Kept(data, d, gone), From(data, |gone|, d), d);
  }

  /** What is left after a decision, and where the next block starts. */
  lemma NextKept(data: seq<u8>, d: nat, gone: seq<bool>, drop: bool, next: nat)
    requires next == |gone| + 1 && Offset(|gone|, d) < |data|
    ensures drop ==> Kept(data, d, gone + [drop]) == Kept(data, d, gone)
    ensures !drop ==> Kept(data, d, gone + [drop]) == Kept(data, d, gone) + Block(data, |gone|, d)
    ensures !drop ==> Kept(data, d, gone + [drop]) + From(data, next, d) == Kept(data, d, gone) + From(data, |gone|, d)
  {
    assert (gone + [drop])[..|gone|] == gone;
    RestOfBlocks(data, |gone|, d, next);
    Regroup(Kept(data, d, gone), Block(data, |gone|, d), From(data, next, d));
  }

  lemma Regroup(a: seq<u8>, b: seq<u8>, c: seq<u8>)
    ensures (a + b) + c == a + (b + c)
  {
  }

  lemma KeepingMoves(data: seq<u8>, d: nat, gone: seq<bool>, now: seq<u8>, pos: nat)
    requires d > 0 && now == Kept(data, d, gone) + From(data, |gone|, d) && Offset(|gone|, d) < |data|
    requires pos == |Kept(data, d, gone)|
    ensures pos + d < |now| ==> pos + d == |Kept(data, d, gone + [false])|
    ensures pos + d >= |now| ==> Offset(|gone| + 1, d) >= |data|
  {
    NextKept(data, d, gone, false, |gone| + 1);
    NextOffset(|gone|, d, |gone| + 1);
  }

  lemma DroppingStays(data: seq<u8>, d: nat, gone: seq<bool>, after: seq<u8>, pos: nat)
    requires d > 0 && after == Kept(data, d, gone) + From(data, |gone| + 1, d) && Offset(|gone|, d) < |data|
    requires pos == |Kept(data, d, gone)|
    ensures pos < |after| ==> pos == |Kept(data, d, gone + [true])|
    ensures pos >= |after| ==> Offset(|gone| + 1, d) >= |data|
  {
    NextKept(data, d, gone, true, |gone| + 1);
  }

  /** The next block is decided. */
  lemma SweepMoves(test: Test, data: seq<u8>, d: nat, first: nat, gone: seq<bool>, now: seq<u8>, pos: nat, drop: bool,
                   after: seq<u8>, next: nat)
    requires IsAt(test, data, d, first, gone, now, pos) && pos < |now|
    requires drop <==> |gone| >= first && test(Without(now, pos, d))
    requires after == (if drop then Without(now, pos, d) else now) && next == if drop then pos else pos + d
    ensures IsAt(test, data, d, first, gone + [drop], after, next)
  {
    NextBlock(test, data, d, first, gone, now, pos);
    OneMoreDecided(test, data, d, first, gone, drop);
    NextKept(data, d, gone, drop, |gone| + 1);
    assert gone[..|gone|] == gone;
    if drop {
      DroppingStays(data, d, gone, after, pos);
    } else {
      KeepingMoves(data, d, gone, now, pos);
    }
  }

  lemma SweepStarts(test: Test, data: seq<u8>, d: nat, first: nat)
    requires d > 0
    ensures IsAt(test, data, d, first, [], data, 0)
  {
    assert Start(|data|, 0, d) == 0;
  }

  // ---------------------------------------------------------------- sweeps that change nothing

  lemma LastKept(data: seq<u8>, d: nat, gone: seq<bool>, k: nat)
    requires |gone| == k + 1
    ensures |Kept(data, d, gone)| == |Kept(data, d, gone[..k])| + if gone[k] then 0 else |Block(data, k, d)|
    ensures |Block(data, k, d)| == Start(|data|, k + 1, d) - Start(|data|, k, d)
    ensures d > 0 && Offset(k, d) < |data| ==> |Block(data, k, d)| > 0
  {
  }

  lemma {:induction false} KeptIsShort(data: seq<u8>, d: nat, gone: seq<bool>)
    ensures |Kept(data, d, gone)| <= Start(|data|, |gone|, d)
  {
    if gone != [] {
      var k := |gone| - 1;
      KeptIsShort(data, d, gone[..k]);
      LastKept(data, d, gone, k);
    }
  }

  lemma {:induction false} DroppingShortens(data: seq<u8>, d: nat, gone: seq<bool>, m: nat)
    requires d > 0 && m < |gone| && gone[m] && Offset(m, d) < |data|
    ensures |Kept(data, d, gone)| < Start(|data|, |gone|, d)
  {
    var k := |gone| - 1;
    LastKept(data, d, gone, k);
    NextOffset(k, d, |gone|);
    if m < k {
      DroppingShortens(data, d, gone[..k], m);
    } else {
      KeptIsShort(data, d, gone[..k]);
    }
  }

  lemma {:induction false} AllKept(data: seq<u8>, d: nat, gone: seq<bool>)
    requires forall m :: 0 <= m < |gone| ==> !gone[m]
    ensures Kept(data, d, gone) == data[..Start(|data|, |gone|, d)]
  {
    if gone == [] {
      assert Start(|data|, 0, d) == 0;
    } else {
      var k := |gone| - 1;
      AllKept(data, d, gone[..k]);
        assert data[..Start(|data|, k, d)] + Block(data, k, d) == data[..Start(|data|, k + 1, d)];
    }
  }

  lemma NothingGone(test: Test, data: seq<u8>, d: nat, first: nat, gone: seq<bool>)
    requires IsSweep(test, data, d, first, gone, data)
    ensures forall m :: 0 <= m < |gone| ==> !gone[m]
  {
    forall m: nat | m < |gone| ensures !gone[m] {
      if gone[m] {
        OffsetGrows(|gone| - 1, m, d);
        DroppingShortens(data, d, gone, m);
      }
    }
  }

  lemma TriedAlone(data: seq<u8>, d: nat, gone: seq<bool>, k: nat, p: nat)
    requires k <= |gone| && p == Start(|data|, k, d) && forall m :: 0 <= m < k ==> !gone[m]
    ensures Tried(data, d, gone, k) == Without(data, p, d)
  {
    AllKept(data, d, gone[..k]);
  }

  /** A sweep that removed nothing has seen every block fail on its own: `p` is where block `k` starts. */
  lemma UnchangedSweep(test: Test, data: seq<u8>, d: nat, first: nat, gone: seq<bool>, k: nat, p: nat)
    requires IsSweep(test, data, d, first, gone, data) && first <= k && p == Offset(k, d) < |data|
    ensures !test(Without(data, p, d))
  {
    NothingGone(test, data, d, first, gone);
    if k >= |gone| {
      OffsetGrows(k, |gone|, d);
    }
    assert IsDecided(test, data, d, first, gone, k);
    TriedAlone(data, d, gone, k, p);
  }

  lemma SweepShortens(test: Test, data: seq<u8>, d: nat, first: nat, gone: seq<bool>, res: seq<u8>)
    requires IsSwept(test, data, d, first, gone, res)
    ensures |res| <= |data| && (d > 0 && |res| == |data| ==> res == data)
  {
    KeptIsShort(data, d, gone);
    if d > 0 && |res| == |data| {
      forall m: nat | m < |gone| ensures !gone[m] {
        if gone[m] {
          OffsetGrows(|gone| - 1, m, d);
          DroppingShortens(data, d, gone, m);
        }
      }
      AllKept(data, d, gone);
    }
  }

  /** No block, from the first that is tried, can go on its own. */
  ghost predicate AllMatter(test: Test, data: seq<u8>, d: nat, first: nat) {
    forall k: nat :: k >= first ==> Matters(test, data, d, k)
  }

  ghost predicate Matters(test: Test, data: seq<u8>, d: nat, k: nat) {
    Offset(k, d) < |data| ==> !test(Without(data, Offset(k, d), d))
  }

  lemma {:induction false} NoneGoes(test: Test, data: seq<u8>, d: nat, first: nat, gone: seq<bool>, n: nat)
    requires AllMatter(test, data, d, first) && AllDecided(test, data, d, first, gone)
    requires gone != [] ==> Offset(|gone| - 1, d) < |data|
    requires n <= |gone|
    ensures forall m :: 0 <= m < n ==> !gone[m]
  {
    if n > 0 {
      var k := n - 1;
      NoneGoes(test, data, d, first, gone, k);
      OffsetGrows(|gone| - 1, k, d);
      TriedAlone(data, d, gone, k, Offset(k, d));
      assert IsDecided(test, data, d, first, gone, k);
      assert k >= first ==> Matters(test, data, d, k);
    }
  }

  /** A sweep removes nothing exactly when no block can go on its own. */
  lemma UnchangedIff(test: Test, data: seq<u8>, d: nat, first: nat, gone: seq<bool>, res: seq<u8>)
    requires IsSweep(test, data, d, first, gone, res)
    ensures res == data <==> AllMatter(test, data, d, first)
  {
    if AllMatter(test, data, d, first) {
      NoneGoes(test, data, d, first, gone, |gone|);
      AllKept(data, d, gone);
    }
    if res == data {
      forall k: nat | k >= first ensures Matters(test, data, d, k) {
        if Offset(k, d) < |data| {
          UnchangedSweep(test, data, d, first, gone, k, Offset(k, d));
        }
      }
    }
  }
}
