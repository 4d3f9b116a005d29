/**
  What the runs of the deterministic stages are, in terms of numbers: which values are
  tried in place of which, at which places, and which of them are passed over.
*/
module StageCandidates {
  import opened Buffers
  import opened Redundancy
  import opened DetStages

  /** The number of values, and of those of the lower half, for the three widths. */
  function Modulus(w: nat): (n: nat)
    ensures n > 0
  {
    if w == 1 then 256 else if w == 2 then 65536 else 0x1_0000_0000
  }

  function HalfModulus(w: nat): (n: nat)
    ensures n > 0
  {
    if w == 2 then 256 else 65536
  }

  /** The number in one byte order or the other. */
  function Read(c: seq<u8>, bigEndian: bool): nat {
    if bigEndian then Value(Swap(c)) else Value(c)
  }

  lemma ReadIs(c: seq<u8>, bigEndian: bool)
    ensures |c| == 1 ==> Read(c, bigEndian) == c[0] as int
    ensures |c| == 2 ==>
              Read(c, bigEndian) ==
                if bigEndian then 256 * c[0] as int + c[1] as int else c[0] as int + 256 * c[1] as int
    ensures |c| == 4 ==>
              Read(c, bigEndian) ==
                if bigEndian then 16777216 * c[0] as int + 65536 * c[1] as int + 256 * c[2] as int + c[3] as int
                else c[0] as int + 256 * c[1] as int + 65536 * c[2] as int + 16777216 * c[3] as int
  {
    ValueIsLittleEndian(c);
    ValueIsLittleEndian(Swap(c));
    SwapIsBigEndian(c);
  }

  lemma ReadFits(c: seq<u8>, bigEndian: bool)
    requires IsWidth(|c|)
    ensures Read(c, bigEndian) < Modulus(|c|) == Size(|c|)
  {
    WidthSizes();
    ValueFits(c);
    ValueFits(Swap(c));
  }

  lemma ImageReads(c: seq<u8>, v: int, bigEndian: bool)
    requires IsWidth(|c|)
    ensures c == (if bigEndian then Swap(Image(|c|, v)) else Image(|c|, v)) <==> Read(c, bigEndian) == v % Modulus(|c|)
  {
    SwapIsBigEndian(c);
    SwapIsBigEndian(Image(|c|, v));
    ImageIs(c, v);
    ImageIs(Swap(c), v);
  }

  // ---------------------------------------------------------------- arithmetic

  /**
    A number at most 35 above or below, in one of the byte orders; of 16- and 32-bit words only those whose upper
    half changes with it, since an earlier stage tries the others.
  */
  predicate IsArithChange(was: seq<u8>, now: seq<u8>, bigEndian: bool, up: bool, j: nat)
    requires |was| == |now|
  {
    && 1 <= j <= 35 && (|was| == 1 ==> !bigEndian)
    && var a, b := Read(was, bigEndian), Read(now, bigEndian);
    && b == (if up then a + j else a - j) % Modulus(|was|)
    && (|was| == 1 || a / HalfModulus(|was|) != b / HalfModulus(|was|))
  }

  ghost predicate IsArithChanged(was: seq<u8>, now: seq<u8>)
    requires |was| == |now|
  {
    exists bigEndian, up, j: nat :: IsArithChange(was, now, bigEndian, up, j)
  }

  predicate IsBig(way: nat) { way >= 2 }

  predicate IsUp(way: nat) { way % 2 == 0 }

  lemma ShiftedReads(was: seq<u8>, now: seq<u8>, j: nat, way: nat)
    requires IsWidth(|was|) && |now| == |was| && way < 4
    ensures now == Shifted(was, j, way)
       <==> Read(now, IsBig(way))
            == (if IsUp(way) then Read(was, IsBig(way)) + j else Read(was, IsBig(way)) - j) % Modulus(|was|)
  {
    var a := Read(was, IsBig(way));
    ImageReads(now, if IsUp(way) then a + j else a - j, IsBig(way));
    SwapIsBigEndian(Image(|was|, if IsUp(way) then a + j else a - j));
  }

  /** A change carries exactly if it changes the upper half. */
  lemma CarryingChangesUpper(a: nat, b: nat, j: nat, up: bool, w: nat)
    requires (w == 2 || w == 4) && a < Modulus(w) && 1 <= j <= 35
    requires b == (if up then a + j else a - j) % Modulus(w)
    ensures (if up then a % HalfModulus(w) + j > HalfModulus(w) - 1 else a % HalfModulus(w) < j)
       <==> a / HalfModulus(w) != b / HalfModulus(w)
  {
  }

  lemma CarriesMeans(was: seq<u8>, now: seq<u8>, j: nat, way: nat)
    requires (|was| == 2 || |was| == 4) && |now| == |was| && way < 4 && 1 <= j <= 35
    requires now == Shifted(was, j, way)
    ensures Carries(was, j, way)
       <==> Read(was, IsBig(way)) / HalfModulus(|was|) != Read(now, IsBig(way)) / HalfModulus(|was|)
  {
    ShiftedReads(was, now, j, way);
    ReadFits(was, IsBig(way));
    WidthSizes();
    CarryingChangesUpper(Read(was, IsBig(way)), Read(now, IsBig(way)), j, IsUp(way), |was|);
  }

  lemma ArithWanted(stage: Stage, was: seq<u8>, turn: nat, way: nat)
    requires stage.IsArith() && |was| == stage.Width() && stage.IsCandidate(turn, way)
    ensures var c := Shifted(was, turn + 1, way);
      && c == Candidate(stage, was, turn, way)
      && (Wanted(stage, was, turn, way)
          <==> (stage.Arith8? || Carries(was, turn + 1, way)) && !LooksLikeFlip(Value(Xor(was, c))))
  {
  }

  lemma ArithReads(was: seq<u8>, now: seq<u8>, j: nat, way: nat)
    requires IsWidth(|was|) && |now| == |was| && way < 4 && 1 <= j <= 35 && (|was| == 1 ==> way < 2)
    ensures now == Shifted(was, j, way) && (|was| == 1 || Carries(was, j, way))
       <==> IsArithChange(was, now, IsBig(way), IsUp(way), j)
  {
    ShiftedReads(was, now, j, way);
    if now == Shifted(was, j, way) && |was| > 1 {
      CarriesMeans(was, now, j, way);
    }
  }

  lemma ArithCandidate(stage: Stage, was: seq<u8>, now: seq<u8>, turn: nat, way: nat)
    requires stage.IsArith() && |was| == |now| == stage.Width() && stage.IsCandidate(turn, way)
    ensures now == Candidate(stage, was, turn, way) && Wanted(stage, was, turn, way)
       <==> IsArithChange(was, now, IsBig(way), IsUp(way), turn + 1) && !LooksLikeFlip(Value(Xor(was, now)))
  {
    ArithWanted(stage, was, turn, way);
    ArithReads(was, now, turn + 1, way);
  }

  /** Some candidate of the stage is this one, and is wanted. */
  ghost predicate IsWantedHere(stage: Stage, was: seq<u8>, now: seq<u8>)
    requires |was| == |now| == stage.Width()
  {
    exists turn: nat, way: nat :: IsWantedAs(stage, was, now, turn, way)
  }

  ghost predicate IsWantedAs(stage: Stage, was: seq<u8>, now: seq<u8>, turn: nat, way: nat)
    requires |was| == |now| == stage.Width()
  {
    stage.IsCandidate(turn, way) && now == Candidate(stage, was, turn, way) && Wanted(stage, was, turn, way)
  }

  lemma ArithChangeIsWanted(stage: Stage, was: seq<u8>, now: seq<u8>, bigEndian: bool, up: bool, j: nat)
    requires stage.IsArith() && |was| == |now| == stage.Width() && !LooksLikeFlip(Value(Xor(was, now)))
    requires IsArithChange(was, now, bigEndian, up, j)
    ensures IsWantedHere(stage, was, now)
  {
    var turn, way := j - 1, WayOf(bigEndian, up);
    assert stage.IsCandidate(turn, way);
    ArithCandidate(stage, was, now, turn, way);
    assert IsWantedAs(stage, was, now, turn, way);
  }

  function WayOf(bigEndian: bool, up: bool): (way: nat)
    ensures way < 4 && IsBig(way) == bigEndian && IsUp(way) == up
  {
    (if bigEndian then 2 else 0) + if up then 0 else 1
  }

  /** What the arithmetic stages try in place of a word. */
  lemma ArithTriesMeans(stage: Stage, was: seq<u8>, now: seq<u8>)
    requires stage.IsArith() && |was| == |now| == stage.Width()
    ensures IsWantedHere(stage, was, now) <==> IsArithChanged(was, now) && !LooksLikeFlip(Value(Xor(was, now)))
  {
    if IsWantedHere(stage, was, now) {
      var turn: nat, way: nat :| IsWantedAs(stage, was, now, turn, way);
      ArithCandidate(stage, was, now, turn, way);
      assert IsArithChange(was, now, IsBig(way), IsUp(way), turn + 1);
    }
    if IsArithChanged(was, now) && !LooksLikeFlip(Value(Xor(was, now))) {
      var bigEndian, up, j: nat :| IsArithChange(was, now, bigEndian, up, j);
      ArithChangeIsWanted(stage, was, now, bigEndian, up, j);
    }
  }

  // ---------------------------------------------------------------- interesting values and flips

  /** The interesting numbers for words of one, two and four bytes; the wider words also take the shorter ones. */
  predicate IsInteresting(v: int, w: nat) {
    || v in [-128, -1, 0, 1, 16, 32, 64, 100, 127]
    || (w >= 2 && v in [-32768, -129, 128, 255, 256, 512, 1000, 1024, 4096, 32767])
    || (w == 4 && v in [-2147483648, -100663046, -32769, 32768, 65535, 65536, 100663045, 2147483647])
  }

  lemma ValuesAreInteresting(stage: Stage, v: int)
    requires !stage.IsFlip() && !stage.IsArith()
    ensures v in stage.Values() <==> IsInteresting(v, stage.Width())
  {
  }

  /** The word is one of the interesting values, in one of the byte orders, and not passed over. */
  ghost predicate IsInterestChange(stage: Stage, was: seq<u8>, now: seq<u8>, v: int, bigEndian: bool)
    requires |was| == |now| && IsWidth(|was|)
  {
    && IsInteresting(v, |was|) && Read(now, bigEndian) == v % Modulus(|was|)
    && (bigEndian ==> |was| > 1 && Read(now, true) != Read(now, false))
    && !LooksLikeFlip(Value(Xor(was, now))) && !LooksLikeArith(was, now)
    && (|was| > 1 ==> !LooksLikeInterest(was, now, bigEndian))
  }

  lemma OrdersAgree(c: seq<u8>)
    ensures c == Swap(c) <==> Read(c, true) == Read(c, false)
  {
    BytesOfValue(c);
    BytesOfValue(Swap(c));
  }

  lemma InterestCandidate(stage: Stage, was: seq<u8>, now: seq<u8>, turn: nat, way: nat)
    requires !stage.IsFlip() && !stage.IsArith() && |was| == |now| == stage.Width() && stage.IsCandidate(turn, way)
    ensures IsWantedAs(stage, was, now, turn, way)
       <==> IsInterestChange(stage, was, now, stage.Values()[turn], way == 1)
  {
    ImageReads(now, stage.Values()[turn], way == 1);
    OrdersAgree(now);
    assert stage.Values()[turn] in stage.Values();
    ValuesAreInteresting(stage, stage.Values()[turn]);
  }

  lemma InterestTriesMeans(stage: Stage, was: seq<u8>, now: seq<u8>)
    requires !stage.IsFlip() && !stage.IsArith() && |was| == |now| == stage.Width()
    ensures IsWantedHere(stage, was, now)
       <==> exists v, bigEndian :: IsInterestChange(stage, was, now, v, bigEndian)
  {
    if IsWantedHere(stage, was, now) {
      var turn: nat, way: nat :| IsWantedAs(stage, was, now, turn, way);
      InterestCandidate(stage, was, now, turn, way);
    }
    if v, bigEndian :| IsInterestChange(stage, was, now, v, bigEndian) {
      ValuesAreInteresting(stage, v);
      var turn: nat :| turn < |stage.Values()| && stage.Values()[turn] == v;
      var way := if bigEndian then 1 else 0;
      InterestCandidate(stage, was, now, turn, way);
      assert IsWantedAs(stage, was, now, turn, way);
    }
  }

  /** Every bit of the word is the other way round. */
  predicate IsFlipped(was: seq<u8>, now: seq<u8>)
    requires |was| == |now|
  {
    forall i :: 0 <= i < |was| ==> now[i] as int == 255 - was[i] as int
  }

  lemma FlipTriesMeans(stage: Stage, was: seq<u8>, now: seq<u8>)
    requires stage.IsFlip() && |was| == |now| == stage.Width()
    ensures IsWantedHere(stage, was, now) <==> IsFlipped(was, now)
  {
    var c := Xor(was, Ones(|was|));
    forall i | 0 <= i < |was| ensures c[i] as int == 255 - was[i] as int {
      FlippedByte(was[i]);
    }
    if IsFlipped(was, now) {
      assert now == c;
      assert IsWantedAs(stage, was, now, 0, 0);
    }
  }

  // ---------------------------------------------------------------- what the checks take for tried

  /** The words differ at most in these bytes. */
  predicate DiffersWithin(was: seq<u8>, now: seq<u8>, at: nat, s: nat)
    requires |was| == |now|
  {
    forall i :: 0 <= i < |was| && !(at <= i < at + s) ==> now[i] == was[i]
  }

  /** At most 35 apart, in one of the byte orders. */
  predicate IsClose(a: seq<u8>, b: seq<u8>, bigEndian: bool)
    requires IsWidth(|a|)
  {
    var x, y := Read(a, bigEndian), Read(b, bigEndian);
    (x - y) % Modulus(|a|) <= 35 || (y - x) % Modulus(|a|) <= 35
  }

  /** An aligned part of one, two or four bytes is close to what it was, and all else is as it was. */
  ghost predicate IsArithPart(was: seq<u8>, now: seq<u8>, at: nat, s: nat)
    requires |was| == |now|
  {
    && IsWidth(s) && at % s == 0 && at + s <= |was| && DiffersWithin(was, now, at, s)
    && (IsClose(was[at..at + s], now[at..at + s], false) || IsClose(was[at..at + s], now[at..at + s], true))
  }

  lemma CellIsClose(a: seq<u8>, b: seq<u8>)
    requires |a| == |b| && IsWidth(|a|)
    ensures NearCell(a, b) <==> IsClose(a, b, false) || IsClose(a, b, true)
  {
    WidthSizes();
  }

  /** Where the parts are. */
  lemma PartsAre(c: seq<u8>, s: nat, i: nat)
    requires IsWidth(|c|) && IsWidth(s) && s <= |c|
    ensures |Parts(c, s)| * s == |c|
    ensures i < |Parts(c, s)| ==> s * i + s <= |c| && Parts(c, s)[i] == c[s * i..s * i + s]
  {
    if s == 1 && i < |c| {
      assert c[i..i + 1] == [c[i]];
    }
  }

  ghost predicate SameButFor(a: seq<seq<u8>>, b: seq<seq<u8>>, i: nat) {
    |a| == |b| && forall k :: 0 <= k < |a| && k != i ==> a[k] == b[k]
  }

  lemma BytesDifferWithin(was: seq<u8>, now: seq<u8>, i: nat)
    requires |was| == |now| && IsWidth(|was|) && i < |was|
    ensures SameButFor(Parts(was, 1), Parts(now, 1), i) <==> DiffersWithin(was, now, i, 1)
  {
    var a, b := Parts(was, 1), Parts(now, 1);
    assert |a| == |b| == |was|;
    forall k | 0 <= k < |was| ensures a[k] == b[k] <==> was[k] == now[k] {
      assert a[k] == [was[k]] && b[k] == [now[k]];
    }
  }

  lemma HalvesDifferWithin(was: seq<u8>, now: seq<u8>, i: nat, at: nat)
    requires |was| == |now| == 4 && i < 2 && at == 2 * i
    ensures SameButFor(Parts(was, 2), Parts(now, 2), i) <==> DiffersWithin(was, now, at, 2)
  {
    var a, b := Parts(was, 2), Parts(now, 2);
    assert a == [was[..2], was[2..]] && b == [now[..2], now[2..]];
    assert was[..2] == [was[0], was[1]] && was[2..] == [was[2], was[3]];
    assert now[..2] == [now[0], now[1]] && now[2..] == [now[2], now[3]];
    assert a[0] == b[0] <==> was[0] == now[0] && was[1] == now[1] by {
      assert a[0][0] == was[0] && a[0][1] == was[1] && b[0][0] == now[0] && b[0][1] == now[1];
    }
    assert a[1] == b[1] <==> was[2] == now[2] && was[3] == now[3] by {
      assert a[1][0] == was[2] && a[1][1] == was[3] && b[1][0] == now[2] && b[1][1] == now[3];
    }
    assert SameButFor(a, b, 0) <==> a[1] == b[1];
    assert SameButFor(a, b, 1) <==> a[0] == b[0];
    assert DiffersWithin(was, now, 0, 2) <==> was[2] == now[2] && was[3] == now[3];
    assert DiffersWithin(was, now, 2, 2) <==> was[0] == now[0] && was[1] == now[1];
  }

  lemma PartsDifferWithin(was: seq<u8>, now: seq<u8>, s: nat, i: nat, at: nat)
    requires |was| == |now| && IsWidth(|was|) && IsWidth(s) && s <= |was|
    requires i < |Parts(was, s)| && at == s * i && at + s <= |was|
    ensures SameButFor(Parts(was, s), Parts(now, s), i) <==> DiffersWithin(was, now, at, s)
  {
    if s == 1 {
      BytesDifferWithin(was, now, i);
    } else if s == |was| {
      assert Parts(was, s) == [was] && Parts(now, s) == [now];
    } else {
      HalvesDifferWithin(was, now, i, at);
    }
  }

  lemma DiffersAtMeans(a: seq<seq<u8>>, b: seq<seq<u8>>, i: nat)
    requires i < |a| == |b|
    ensures OnlyDiffersAt(a, b, |a|, i) <==> a[i] != b[i] && SameButFor(a, b, i)
  {
  }

  lemma SameNumberOfParts(was: seq<u8>, now: seq<u8>, s: nat)
    requires |was| == |now| && IsWidth(|was|) && IsWidth(s) && s <= |was|
    ensures |Parts(was, s)| == |Parts(now, s)|
  {
  }

  /** The `i`-th part of one size, and the bytes from `at`. */
  lemma PartMeans(was: seq<u8>, now: seq<u8>, s: nat, i: nat, at: nat)
    requires |was| == |now| && IsWidth(|was|) && IsWidth(s) && s <= |was| && was != now
    requires i < |Parts(was, s)| == |Parts(now, s)| && at == s * i
    ensures OnlyDiffersAt(Parts(was, s), Parts(now, s), |Parts(was, s)|, i)
              && NearCell(Parts(was, s)[i], Parts(now, s)[i])
       <==> IsArithPart(was, now, at, s)
  {
    var a, b := Parts(was, s), Parts(now, s);
    PartsAre(was, s, i);
    PartsAre(now, s, i);
    DiffersAtMeans(a, b, i);
    PartsDifferWithin(was, now, s, i, at);
    CellIsClose(a[i], b[i]);
    if DiffersWithin(was, now, at, s) {
      SamePartIsSame(was, now, at, s);
    }
    AlignedAt(s, i, at);
  }

  lemma AlignedAt(s: nat, i: nat, at: nat)
    requires IsWidth(s) && at == s * i
    ensures at % s == 0
  {
  }

  lemma OnePartMeans(was: seq<u8>, now: seq<u8>, s: nat)
    requires |was| == |now| && IsWidth(|was|) && IsWidth(s) && s <= |was| && was != now
    ensures OnePartNear(was, now, s) <==> exists at: nat :: IsArithPart(was, now, at, s)
  {
    var a, b := Parts(was, s), Parts(now, s);
    SameNumberOfParts(was, now, s);
    if OnePartNear(was, now, s) {
      var i: nat :| i < |a| && OnlyDiffersAt(a, b, |a|, i) && NearCell(a[i], b[i]);
      PartMeans(was, now, s, i, s * i);
    }
    if at: nat :| IsArithPart(was, now, at, s) {
      var i := PartAt(was, s, at);
      PartMeans(was, now, s, i, at);
    }
  }

  /** Which part begins there. */
  lemma PartAt(c: seq<u8>, s: nat, at: nat) returns (i: nat)
    requires IsWidth(|c|) && IsWidth(s) && s <= |c| && at % s == 0 && at + s <= |c|
    ensures i < |Parts(c, s)| && at == s * i
  {
    i := at / s;
    PartsAre(c, s, i);
  }

  lemma SamePartIsSame(was: seq<u8>, now: seq<u8>, at: nat, s: nat)
    requires |was| == |now| && at + s <= |was| && DiffersWithin(was, now, at, s)
    ensures was[at..at + s] == now[at..at + s] ==> was == now
  {
    if was[at..at + s] == now[at..at + s] {
      forall k | at <= k < at + s ensures was[k] == now[k] {
        assert was[k] == was[at..at + s][k - at] && now[k] == now[at..at + s][k - at];
      }
    }
  }

  /** `could_be_arith` looks for nothing else. */
  lemma LooksLikeArithMeans(was: seq<u8>, now: seq<u8>)
    requires |was| == |now| && IsWidth(|was|)
    ensures LooksLikeArith(was, now)
       <==> was == now || exists at: nat, s: nat :: s <= |was| && IsArithPart(was, now, at, s)
  {
    if was != now {
      OnePartMeans(was, now, 1);
      if |was| >= 2 {
        OnePartMeans(was, now, 2);
      }
      if |was| == 4 {
        OnePartMeans(was, now, 4);
      }
    }
  }

  /** A number written into the word, in one of the byte orders. */
  ghost predicate IsInsertion(was: seq<u8>, now: seq<u8>, at: nat, s: nat, bigEndian: bool)
    requires |was| == |now|
  {
    && IsWidth(s) && at + s <= |was| && DiffersWithin(was, now, at, s)
    && exists v :: IsInteresting(v, s) && Read(now[at..at + s], bigEndian) == v % Modulus(s)
  }

  /**
    What `could_be_interest` looks for: an interesting byte anywhere; in a dword also a 16-bit number anywhere, in
    either order; and when the little-endian form of the same width was tried already, that one.
  */
  ghost predicate IsInsertedBefore(was: seq<u8>, now: seq<u8>, checkLe: bool)
    requires |was| == |now|
  {
    || was == now
    || (exists at: nat :: IsInsertion(was, now, at, 1, false))
    || (|was| == 4 && exists at: nat, bigEndian :: IsInsertion(was, now, at, 2, bigEndian))
    || (|was| == 2 && checkLe && IsInsertion(was, now, 0, 2, false))
    || (|was| == 4 && checkLe && IsInsertion(was, now, 0, 4, false))
  }

  function ValuesOf(s: nat): seq<int> {
    if s == 1 then INTERESTING_8 else if s == 2 then INTERESTING_16 else INTERESTING_32
  }

  lemma ValuesOfWidth(s: nat, v: int)
    requires IsWidth(s)
    ensures v in ValuesOf(s) <==> IsInteresting(v, s)
  {
  }

  lemma InsertsMeans(was: seq<u8>, now: seq<u8>, at: nat, s: nat, v: int, both: bool)
    requires |was| == |now| && IsWidth(s) && at + s <= |was|
    ensures Inserts(was, now, at, s, v, both)
       <==> DiffersWithin(was, now, at, s)
            && (|| Read(now[at..at + s], false) == v % Modulus(s)
                || (both && Read(now[at..at + s], true) == v % Modulus(s)))
  {
    var c := now[at..at + s];
    ImageReads(c, v, false);
    ImageReads(c, v, true);
    WrittenMeans(was, now, at, Image(s, v));
    WrittenMeans(was, now, at, Swap(Image(s, v)));
  }

  lemma WrittenMeans(was: seq<u8>, now: seq<u8>, at: nat, c: seq<u8>)
    requires |was| == |now| && at + |c| <= |was|
    ensures now == Overwritten(was, at, c) <==> DiffersWithin(was, now, at, |c|) && now[at..at + |c|] == c
  {
    var w := Overwritten(was, at, c);
    assert w[at..at + |c|] == c;
    if DiffersWithin(was, now, at, |c|) && now[at..at + |c|] == c {
      forall k: nat | k < |was| ensures now[k] == w[k] {
        OverwrittenAt(was, at, c, k);
        assert at <= k < at + |c| ==> now[k] == now[at..at + |c|][k - at];
      }
    }
  }

  ghost predicate IsWrittenAs(was: seq<u8>, now: seq<u8>, at: nat, s: nat, v: int, both: bool)
    requires |was| == |now|
  {
    && at + s <= |was| && DiffersWithin(was, now, at, s)
    && (Read(now[at..at + s], false) == v % Modulus(s) || (both && Read(now[at..at + s], true) == v % Modulus(s)))
  }

  lemma InsertedAtMeans(was: seq<u8>, now: seq<u8>, at: nat, s: nat, both: bool)
    requires |was| == |now| && IsWidth(s) && at + s <= |was|
    ensures InsertedAt(was, now, at, s, ValuesOf(s), both)
       <==> exists v :: IsInteresting(v, s) && IsWrittenAs(was, now, at, s, v, both)
  {
    var values := ValuesOf(s);
    if InsertedAt(was, now, at, s, values, both) {
      var j: nat :| j < |values| && Inserts(was, now, at, s, values[j], both);
      assert values[j] in values;
      ValuesOfWidth(s, values[j]);
      InsertsMeans(was, now, at, s, values[j], both);
      assert IsWrittenAs(was, now, at, s, values[j], both);
    }
    if v :| IsInteresting(v, s) && IsWrittenAs(was, now, at, s, v, both) {
      ValuesOfWidth(s, v);
      InsertsMeans(was, now, at, s, v, both);
      var j: nat :| j < |values| && values[j] == v;
      assert Inserts(was, now, at, s, values[j], both);
    }
  }

  lemma InsertionsMean(was: seq<u8>, now: seq<u8>, at: nat, s: nat, both: bool)
    requires |was| == |now| && IsWidth(s) && at + s <= |was|
    ensures InsertedAt(was, now, at, s, ValuesOf(s), both)
       <==> IsInsertion(was, now, at, s, false) || (both && IsInsertion(was, now, at, s, true))
  {
    InsertedAtMeans(was, now, at, s, both);
    if v :| IsInteresting(v, s) && IsWrittenAs(was, now, at, s, v, both) {
      assert IsInsertion(was, now, at, s, false) || (both && IsInsertion(was, now, at, s, true));
    }
    if IsInsertion(was, now, at, s, false) {
      var v :| IsInteresting(v, s) && Read(now[at..at + s], false) == v % Modulus(s);
      assert IsWrittenAs(was, now, at, s, v, both);
    }
    if both && IsInsertion(was, now, at, s, true) {
      var v :| IsInteresting(v, s) && Read(now[at..at + s], true) == v % Modulus(s);
      assert IsWrittenAs(was, now, at, s, v, both);
    }
  }

  lemma InsertedMeans(was: seq<u8>, now: seq<u8>, n: nat, s: nat, both: bool)
    requires |was| == |now| && IsWidth(s) && n + s == |was| + 1
    ensures Inserted(was, now, n, s, ValuesOf(s), both)
       <==> exists at: nat :: IsInsertion(was, now, at, s, false) || (both && IsInsertion(was, now, at, s, true))
  {
    forall at: nat | at < n
      ensures InsertedAt(was, now, at, s, ValuesOf(s), both)
         <==> IsInsertion(was, now, at, s, false) || (both && IsInsertion(was, now, at, s, true))
    {
      InsertionsMean(was, now, at, s, both);
    }
  }

  /** `could_be_interest` looks for exactly that. */
  lemma LooksLikeInterestMeans(was: seq<u8>, now: seq<u8>, checkLe: bool)
    requires |was| == |now| && IsWidth(|was|)
    ensures LooksLikeInterest(was, now, checkLe) <==> IsInsertedBefore(was, now, checkLe)
  {
    var w := |was|;
    InsertedMeans(was, now, w, 1, false);
    if w > 1 {
      InsertedMeans(was, now, w - 1, 2, w > 2);
    }
    if w == 2 {
      assert forall at: nat :: IsInsertion(was, now, at, 2, false) ==> at == 0;
    }
    if w == 4 {
      InsertionsMean(was, now, 0, 4, false);
    }
  }

  // ---------------------------------------------------------------- the runs

  /** What a stage tries in place of a word. */
  ghost predicate Tries(stage: Stage, was: seq<u8>, now: seq<u8>)
    requires |was| == |now| == stage.Width()
  {
    if stage.IsFlip() then IsFlipped(was, now)
    else if stage.IsArith() then IsArithChanged(was, now) && !LooksLikeFlip(Value(Xor(was, now)))
    else exists v, bigEndian :: IsInterestChange(stage, was, now, v, bigEndian)
  }

  /** The run has another word at one place, and is the input everywhere else. */
  ghost predicate ReplacesAt(stage: Stage, data: seq<u8>, run: seq<u8>, at: nat) {
    && |run| == |data| && at + stage.Width() <= |data|
    && (forall k :: 0 <= k < |data| && !(at <= k < at + stage.Width()) ==> run[k] == data[k])
    && Tries(stage, data[at..at + stage.Width()], run[at..at + stage.Width()])
  }

  lemma ReplacesMeans(stage: Stage, data: seq<u8>, run: seq<u8>, at: nat, c: seq<u8>)
    requires at + stage.Width() <= |data| && |c| == stage.Width()
    ensures run == Overwritten(data, at, c)
       <==> && |run| == |data| && run[at..at + stage.Width()] == c
            && forall k :: 0 <= k < |data| && !(at <= k < at + stage.Width()) ==> run[k] == data[k]
  {
    var w := Overwritten(data, at, c);
    assert w[at..at + |c|] == c;
    if |run| == |data| && run[at..at + |c|] == c
       && forall k :: 0 <= k < |data| && !(at <= k < at + |c|) ==> run[k] == data[k] {
      forall k: nat | k < |data| ensures run[k] == w[k] {
        OverwrittenAt(data, at, c, k);
        assert at <= k < at + |c| ==> run[k] == run[at..at + |c|][k - at];
      }
    }
  }

  lemma RunReplaces(stage: Stage, data: seq<u8>, at: nat, turn: nat, way: nat, run: seq<u8>)
    requires Fits(stage, data, at) && IsTried(stage, data, at, turn, way, run)
    ensures ReplacesAt(stage, data, run, at)
  {
    var was, now := Word(stage, data, at), Candidate(stage, Word(stage, data, at), turn, way);
    assert IsWantedAs(stage, was, now, turn, way);
    TriesMeans(stage, was, now);
    ReplacesMeans(stage, data, run, at, now);
  }

  lemma ReplacingIsRun(stage: Stage, data: seq<u8>, eff: seq<bool>, at: nat, run: seq<u8>)
    requires |data| <= 8 * |eff| && Fits(stage, data, at) && Reached(eff, at, stage.Width())
    requires ReplacesAt(stage, data, run, at)
    ensures run in StageRuns(stage, data, eff)
  {
    var was, now := Word(stage, data, at), run[at..at + stage.Width()];
    TriesMeans(stage, was, now);
    var turn: nat, way: nat :| IsWantedAs(stage, was, now, turn, way);
    ReplacesMeans(stage, data, run, at, now);
    CandidateIsRun(stage, data, eff, at, turn, way, run);
  }

  /** The runs of a stage are exactly the inputs with one such word in a place that the effector map reaches. */
  lemma RunsMean(stage: Stage, data: seq<u8>, eff: seq<bool>, run: seq<u8>)
    requires |data| <= 8 * |eff|
    ensures run in StageRuns(stage, data, eff)
       <==> exists at: nat ::
              Fits(stage, data, at) && Reached(eff, at, stage.Width()) && ReplacesAt(stage, data, run, at)
  {
    if run in StageRuns(stage, data, eff) {
      var at, turn, way := RunIsCandidate(stage, data, eff, run);
      RunReplaces(stage, data, at, turn, way, run);
    }
    if at: nat :| Fits(stage, data, at) && Reached(eff, at, stage.Width()) && ReplacesAt(stage, data, run, at) {
      ReplacingIsRun(stage, data, eff, at, run);
    }
  }

  lemma TriesMeans(stage: Stage, was: seq<u8>, now: seq<u8>)
    requires |was| == |now| == stage.Width()
    ensures IsWantedHere(stage, was, now) <==> Tries(stage, was, now)
  {
    if stage.IsFlip() {
      FlipTriesMeans(stage, was, now);
    } else if stage.IsArith() {
      ArithTriesMeans(stage, was, now);
    } else {
      InterestTriesMeans(stage, was, now);
    }
  }
}
