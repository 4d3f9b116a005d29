/** Tokens found automatically: `maybe_add_auto` and the order in which they are kept. */
module AutoExtras {
  import opened Buffers
  import opened Redundancy
  import opened TokenOverwrites

  const USE_AUTO_EXTRAS: nat := 50
  const MAX_AUTO_EXTRAS: nat := 500

  datatype Extra = Extra(data: seq<u8>, hits: nat)

  // ---------------------------------------------------------------- comparing without case

  function ToLower(c: u8): u8 {
    if 65 <= c <= 90 then c + 32 else c
  }

  ghost predicate SameNoCase(a: seq<u8>, b: seq<u8>) {
    |a| == |b| && forall i :: 0 <= i < |a| ==> ToLower(a[i]) == ToLower(b[i])
  }

  const UPPER: string := "ABCDEFGHIJKLMNOPQRSTUVWXYZ"
  const LOWER: string := "abcdefghijklmnopqrstuvwxyz"

  /** The same letter, large and small. */
  ghost predicate AreCases(upper: u8, lower: u8) {
    exists k :: 0 <= k < 26 && UPPER[k] as int == upper && LOWER[k] as int == lower
  }

  lemma CasesAreApart(upper: u8, lower: u8)
    ensures AreCases(upper, lower) <==> 65 <= upper <= 90 && lower as int == upper as int + 32
  {
    assert forall k :: 0 <= k < 26 ==> UPPER[k] as int == 65 + k && LOWER[k] as int == 97 + k;
    if 65 <= upper <= 90 && lower as int == upper as int + 32 {
      var k := upper as int - 65;
      assert UPPER[k] as int == upper && LOWER[k] as int == lower;
    }
  }

  /** Two tokens count as the same exactly if they differ at most in the case of letters. */
  lemma SameNoCaseMeans(a: seq<u8>, b: seq<u8>)
    ensures SameNoCase(a, b)
       <==> |a| == |b| && forall i :: 0 <= i < |a| ==> a[i] == b[i] || AreCases(a[i], b[i]) || AreCases(b[i], a[i])
  {
    if |a| == |b| {
      forall i | 0 <= i < |a|
        ensures ToLower(a[i]) == ToLower(b[i]) <==> a[i] == b[i] || AreCases(a[i], b[i]) || AreCases(b[i], a[i])
      {
        CasesAreApart(a[i], b[i]);
        CasesAreApart(b[i], a[i]);
      }
    }
  }

  /** `memcmp_nocase`, zero when equal. */
  method MemcmpNoCase(a: seq<u8>, b: seq<u8>) returns (r: nat)
    requires |a| == |b|
    ensures r == 0 <==> SameNoCase(a, b)
  {
    var i := 0;
    while i < |a|
      invariant 0 <= i <= |a|
      invariant forall k :: 0 <= k < i ==> ToLower(a[k]) == ToLower(b[k])
    {
      if ToLower(a[i]) != ToLower(b[i]) {
        return 1;
      }
      i := i + 1;
    }
    r := 0;
  }

  // ---------------------------------------------------------------- what is never added

  ghost predicate IsUniform(mem: seq<u8>) {
    mem != [] && forall i :: 0 <= i < |mem| ==> mem[i] == mem[0]
  }

  /**
    The comparison with 16-bit values is between an unsigned and a signed number.  No caller passes two bytes:
    collected and saved tokens have at least MIN_AUTO_EXTRA, which is three.
  */
  predicate EqualsBuiltin(mem: seq<u8>, v: int) {
    || (|mem| == 2 && (Value(mem) == v || mem == Swap(Image(2, v))))
    || (|mem| == 4 && (mem == Image(4, v) || mem == Swap(Image(4, v))))
  }

  function Builtins(len: nat): seq<int> {
    if len == 2 then INTERESTING_16 else if len == 4 then INTERESTING_32 else []
  }

  ghost predicate IsBuiltin(mem: seq<u8>) {
    exists i :: 0 <= i < |Builtins(|mem|)| && EqualsBuiltin(mem, Builtins(|mem|)[i])
  }

  /** A token of two or four bytes is built in exactly if it is an interesting number in one of the byte orders. */
  lemma IsBuiltinMeans(mem: seq<u8>)
    ensures |mem| == 2 ==>
              (IsBuiltin(mem) <==> exists v :: v in INTERESTING_16 && IsReadAs(mem, v))
    ensures |mem| == 4 ==>
              (IsBuiltin(mem) <==> exists v :: v in INTERESTING_32 && IsReadAs(mem, v))
    ensures |mem| != 2 && |mem| != 4 ==> !IsBuiltin(mem)
  {
    forall v ensures |mem| == 2 || |mem| == 4 ==> (EqualsBuiltin(mem, v) <==> IsReadAs(mem, v)) {
      if |mem| == 2 || |mem| == 4 {
        ImageIs(mem, v);
        ImageIs(Swap(mem), v);
        SwapIsBigEndian(mem);
        SwapIsBigEndian(Image(|mem|, v));
        ValueIsLittleEndian(mem);
        ValueIsLittleEndian(Swap(mem));
      }
    }
    if |mem| == 2 || |mem| == 4 {
      if v :| v in Builtins(|mem|) && IsReadAs(mem, v) {
        var i :| 0 <= i < |Builtins(|mem|)| && Builtins(|mem|)[i] == v;
        assert EqualsBuiltin(mem, Builtins(|mem|)[i]);
      }
    }
  }

  /** In two bytes a negative number is only recognised in the big-endian order. */
  predicate IsReadAs(mem: seq<u8>, v: int) {
    || (|mem| == 2 && mem[0] as int + 256 * mem[1] as int == v)
    || (|mem| == 2 && 256 * mem[0] as int + mem[1] as int == v % 65536)
    || (|mem| == 4
        && mem[0] as int + 256 * mem[1] as int + 65536 * mem[2] as int + 16777216 * mem[3] as int == v % 0x1_0000_0000)
    || (|mem| == 4
        && 16777216 * mem[0] as int + 65536 * mem[1] as int + 256 * mem[2] as int + mem[3] as int == v % 0x1_0000_0000)
  }

  ghost predicate MatchesUser(extras: seq<seq<u8>>, mem: seq<u8>) {
    exists i :: 0 <= i < |extras| && SameNoCase(extras[i], mem)
  }

  ghost predicate IsRejected(extras: seq<seq<u8>>, mem: seq<u8>) {
    IsUniform(mem) || IsBuiltin(mem) || MatchesUser(extras, mem)
  }

  method CheckUniform(mem: seq<u8>) returns (r: bool)
    ensures r <==> IsUniform(mem)
  {
    var i := 1;
    while i < |mem| && mem[0] == mem[i]
      invariant 1 <= i && (mem != [] ==> i <= |mem|)
      invariant forall k :: 0 <= k < i && k < |mem| ==> mem[k] == mem[0]
    {
      i := i + 1;
    }
    r := i == |mem|;
  }

  method CheckValues(mem: seq<u8>, values: seq<int>) returns (r: bool)
    ensures r <==> exists i :: 0 <= i < |values| && EqualsBuiltin(mem, values[i])
  {
    var i := |values|;
    while i > 0
      invariant 0 <= i <= |values|
      invariant forall k :: i <= k < |values| ==> !EqualsBuiltin(mem, values[k])
    {
      i := i - 1;
      if EqualsBuiltin(mem, values[i]) {
        return true;
      }
    }
    r := false;
  }

  method CheckBuiltin(mem: seq<u8>) returns (r: bool)
    ensures r <==> IsBuiltin(mem)
  {
    r := CheckValues(mem, Builtins(|mem|));
  }

  /** The search stops after the tokens of the same length; because they are sorted this finds any match. */
  method CheckUser(extras: seq<seq<u8>>, mem: seq<u8>) returns (r: bool)
    requires SortedByLength(extras)
    ensures r <==> MatchesUser(extras, mem)
  {
    var i := 0;
    while i < |extras| && |extras[i]| < |mem|
      invariant 0 <= i <= |extras|
      invariant forall k :: 0 <= k < i ==> |extras[k]| < |mem|
    {
      i := i + 1;
    }
    while i < |extras| && |extras[i]| == |mem|
      invariant 0 <= i <= |extras|
      invariant forall k :: 0 <= k < i ==> !SameNoCase(extras[k], mem)
      invariant i < |extras| ==> |mem| <= |extras[i]|
    {
      var differ := MemcmpNoCase(extras[i], mem);
      if differ == 0 {
        return true;
      }
      i := i + 1;
    }
    r := false;
  }

  method CheckRejected(extras: seq<seq<u8>>, mem: seq<u8>) returns (r: bool)
    requires SortedByLength(extras)
    ensures r <==> IsRejected(extras, mem)
  {
    r := CheckUniform(mem);
    if !r {
      r := CheckBuiltin(mem);
    }
    if !r {
      r := CheckUser(extras, mem);
    }
  }

  // ---------------------------------------------------------------- sorting

  ghost predicate SortedBy(key: Extra -> int, s: seq<Extra>) {
    forall i, j :: 0 <= i <= j < |s| ==> key(s[i]) <= key(s[j])
  }

  method Insert(key: Extra -> int, s: seq<Extra>, x: Extra) returns (r: seq<Extra>)
    requires SortedBy(key, s)
    ensures SortedBy(key, r) && multiset(r) == multiset(s) + multiset{x}
  {
    var p := 0;
    while p < |s| && key(s[p]) <= key(x)
      invariant 0 <= p <= |s|
      invariant forall k :: 0 <= k < p ==> key(s[k]) <= key(x)
    {
      p := p + 1;
    }
    InsertedIsSorted(key, s, p, x);
    InsertedIsKept(s, p, x);
    r := s[..p] + [x] + s[p..];
  }

  lemma InsertedIsSorted(key: Extra -> int, s: seq<Extra>, p: nat, x: Extra)
    requires SortedBy(key, s) && p <= |s|
    requires (forall k :: 0 <= k < p ==> key(s[k]) <= key(x)) && (p < |s| ==> key(x) <= key(s[p]))
    ensures SortedBy(key, s[..p] + [x] + s[p..])
  {
    forall k | p <= k < |s| ensures key(x) <= key(s[k]) {
      assert key(s[p]) <= key(s[k]);
    }
  }

  lemma InsertedIsKept(s: seq<Extra>, p: nat, x: Extra)
    requires p <= |s|
    ensures multiset(s[..p] + [x] + s[p..]) == multiset(s) + multiset{x}
  {
    assert s == s[..p] + s[p..];
  }

  /** `qsort` with a comparison by `key`; no more is used of it than that it sorts. */
  method Sort(key: Extra -> int, s: seq<Extra>) returns (r: seq<Extra>)
    ensures SortedBy(key, r) && multiset(r) == multiset(s) && |r| == |s|
  {
    r := [];
    var i := 0;
    while i < |s|
      invariant 0 <= i <= |s|
      invariant SortedBy(key, r) && multiset(r) == multiset(s[..i]) && |r| == i
    {
      assert s[..i + 1] == s[..i] + [s[i]];
      var before := |r|;
      r := Insert(key, r, s[i]);
      assert |multiset(r)| == |r| == before + 1;
      i := i + 1;
    }
    assert s[..i] == s;
  }

  function ByUse(e: Extra): int { 0 - e.hits }

  function ByLength(e: Extra): int { |e.data| }

  // ---------------------------------------------------------------- the kept tokens

  ghost predicate Distinct(s: seq<Extra>) {
    forall i, j :: 0 <= i < j < |s| ==> !SameNoCase(s[i].data, s[j].data)
  }

  ghost predicate NoneRejected(extras: seq<seq<u8>>, s: seq<Extra>) {
    forall i :: 0 <= i < |s| ==> !IsRejected(extras, s[i].data)
  }

  function Top(n: nat): nat { Min(50, n) }

  ghost predicate TopIsSorted(s: seq<Extra>) {
    SortedBy(ByLength, s[..Top(|s|)])
  }

  /** No token behind the first fifty was found more often than one of these. */
  ghost predicate TopIsMostUsed(s: seq<Extra>) {
    forall i, j :: 0 <= i < Top(|s|) <= j < |s| ==> s[j].hits <= s[i].hits
  }

  ghost predicate WellKept(extras: seq<seq<u8>>, s: seq<Extra>) {
    |s| <= 500 && Distinct(s) && NoneRejected(extras, s) && TopIsSorted(s) && TopIsMostUsed(s)
  }

  lemma {:induction false} TwoPlaces(s: seq<Extra>, x: Extra) returns (i: nat, j: nat)
    requires multiset(s)[x] >= 2
    ensures i < j < |s| && s[i] == s[j] == x
  {
    var last := |s| - 1;
    assert s == s[..last] + [s[last]];
    if multiset(s[..last])[x] >= 2 {
      i, j := TwoPlaces(s[..last], x);
    } else {
      assert x in s[..last];
      i :| 0 <= i < last && s[i] == x;
      j := last;
    }
  }

  lemma {:induction false} CountsTwice(s: seq<Extra>, i: nat, j: nat)
    requires i < j < |s| && s[i] == s[j]
    ensures multiset(s)[s[i]] >= 2
  {
    assert s == s[..j] + s[j..];
    assert s[i] == s[..j][i] && s[j] == s[j..][0];
    assert s[i] in s[..j] && s[i] in s[j..];
  }

  lemma SameIsSymmetric(a: seq<u8>, b: seq<u8>)
    ensures SameNoCase(a, b) <==> SameNoCase(b, a)
  {
  }

  /** Reordering keeps tokens distinct. */
  lemma DistinctInAnyOrder(s: seq<Extra>, r: seq<Extra>)
    requires Distinct(s) && multiset(s) == multiset(r)
    ensures Distinct(r)
  {
    forall i, j | 0 <= i < j < |r| ensures !SameNoCase(r[i].data, r[j].data) {
      if r[i] == r[j] {
        CountsTwice(r, i, j);
        var p, q := TwoPlaces(s, r[i]);
      } else {
        assert r[i] in multiset(r) && r[j] in multiset(r);
        assert r[i] in s && r[j] in s;
        var p: nat :| p < |s| && s[p] == r[i];
        var q: nat :| q < |s| && s[q] == r[j];
        SameIsSymmetric(r[i].data, r[j].data);
      }
    }
  }

  lemma NoneRejectedInAnyOrder(extras: seq<seq<u8>>, s: seq<Extra>, r: seq<Extra>)
    requires NoneRejected(extras, s) && multiset(s) == multiset(r)
    ensures NoneRejected(extras, r)
  {
    forall i | 0 <= i < |r| ensures !IsRejected(extras, r[i].data) {
      assert r[i] in multiset(r);
      assert r[i] in s;
    }
  }

  lemma MostUsedFirst(sorted: seq<Extra>, top: seq<Extra>)
    requires SortedBy(ByUse, sorted) && |top| == Top(|sorted|) && multiset(top) == multiset(sorted[..|top|])
    ensures TopIsMostUsed(top + sorted[|top|..])
  {
    var r, m := top + sorted[|top|..], |top|;
    forall i, j | 0 <= i < m <= j < |r| ensures r[j].hits <= r[i].hits {
      assert top[i] in multiset(top);
      assert top[i] in sorted[..m];
      var p: nat :| p < m && sorted[p] == top[i];
      assert ByUse(sorted[p]) <= ByUse(sorted[j]);
    }
  }

  /** The two calls of `qsort`: all by use, then the first fifty by length. */
  method SortKept(s: seq<Extra>) returns (r: seq<Extra>)
    ensures multiset(r) == multiset(s) && |r| == |s|
    ensures TopIsSorted(r) && TopIsMostUsed(r)
  {
    var sorted := Sort(ByUse, s);
    var m := Min(USE_AUTO_EXTRAS, |s|);
    var top := Sort(ByLength, sorted[..m]);
    MostUsedFirst(sorted, top);
    r := top + sorted[m..];
    assert r[..m] == top;
    assert sorted == sorted[..m] + sorted[m..];
  }

  // ---------------------------------------------------------------- one more token

  ghost predicate FoundAt(s: seq<Extra>, mem: seq<u8>, i: nat) {
    i < |s| && SameNoCase(s[i].data, mem)
  }

  ghost predicate NotFound(s: seq<Extra>, mem: seq<u8>) {
    forall i :: 0 <= i < |s| ==> !SameNoCase(s[i].data, mem)
  }

  method Find(s: seq<Extra>, mem: seq<u8>) returns (i: nat)
    ensures i <= |s|
    ensures if i == |s| then NotFound(s, mem) else FoundAt(s, mem, i)
  {
    i := 0;
    while i < |s|
      invariant 0 <= i <= |s|
      invariant forall k :: 0 <= k < i ==> !SameNoCase(s[k].data, mem)
    {
      if |s[i].data| == |mem| {
        var differ := MemcmpNoCase(s[i].data, mem);
        if differ == 0 {
          return;
        }
      }
      i := i + 1;
    }
  }

  /** The tokens before they are sorted again: one more use, one more token, or one in the place of another. */
  ghost predicate Taken(s: seq<Extra>, mem: seq<u8>, evict: nat, r: seq<Extra>)
    requires evict < 250
  {
    || (exists i: nat :: FoundAt(s, mem, i) && r == s[i := s[i].(hits := s[i].hits + 1)])
    || (NotFound(s, mem) && |s| < 500 && r == s + [Extra(mem, 0)])
    || (NotFound(s, mem) && |s| == 500 && r == s[250 + evict := Extra(mem, 0)])
  }

  lemma TakingKeeps(extras: seq<seq<u8>>, s: seq<Extra>, mem: seq<u8>, evict: nat, r: seq<Extra>)
    requires WellKept(extras, s) && !IsRejected(extras, mem) && evict < MAX_AUTO_EXTRAS / 2 && Taken(s, mem, evict, r)
    ensures |r| <= MAX_AUTO_EXTRAS && Distinct(r) && NoneRejected(extras, r)
  {
    forall i | 0 <= i < |s| ensures SameNoCase(s[i].data, mem) <==> SameNoCase(mem, s[i].data) {
      SameIsSymmetric(s[i].data, mem);
    }
  }

  method Take(s: seq<Extra>, mem: seq<u8>, evict: nat) returns (r: seq<Extra>)
    requires |s| <= MAX_AUTO_EXTRAS && evict < MAX_AUTO_EXTRAS / 2
    ensures Taken(s, mem, evict, r)
  {
    var i := Find(s, mem);
    if i < |s| {
      r := s[i := s[i].(hits := s[i].hits + 1)];
    } else if |s| < MAX_AUTO_EXTRAS {
      r := s + [Extra(mem, 0)];
    } else {
      r := s[MAX_AUTO_EXTRAS / 2 + evict := Extra(mem, 0)];
    }
  }

  /** Any run of calls keeps the tokens well. */
  ghost predicate Step(extras: seq<seq<u8>>, s: seq<Extra>, mem: seq<u8>, evict: nat, r: seq<Extra>)
    requires evict < MAX_AUTO_EXTRAS / 2
  {
    if IsRejected(extras, mem) then r == s
    else
      && (exists t: seq<Extra> :: Taken(s, mem, evict, t) && multiset(r) == multiset(t))
      && TopIsSorted(r) && TopIsMostUsed(r)
  }

  lemma StepKeeps(extras: seq<seq<u8>>, s: seq<Extra>, mem: seq<u8>, evict: nat, r: seq<Extra>)
    requires WellKept(extras, s) && evict < MAX_AUTO_EXTRAS / 2 && Step(extras, s, mem, evict, r)
    ensures WellKept(extras, r)
  {
    if !IsRejected(extras, mem) {
      var t: seq<Extra> :| Taken(s, mem, evict, t) && multiset(r) == multiset(t);
      TakingKeeps(extras, s, mem, evict, t);
      DistinctInAnyOrder(t, r);
      NoneRejectedInAnyOrder(extras, t, r);
      assert |r| == |multiset(r)| == |multiset(t)| == |t|;
    }
  }

  /** What is never added, in terms of bytes: one byte repeated, an interesting number, a token of the user's. */
  lemma RejectedMeans(extras: seq<seq<u8>>, mem: seq<u8>)
    ensures IsRejected(extras, mem) <==>
      || (mem != [] && forall i, j :: 0 <= i < j < |mem| ==> mem[i] == mem[j])
      || (|mem| == 2 && exists v :: v in INTERESTING_16 && IsReadAs(mem, v))
      || (|mem| == 4 && exists v :: v in INTERESTING_32 && IsReadAs(mem, v))
      || exists k :: 0 <= k < |extras| && SameNoCase(extras[k], mem)
  {
    IsBuiltinMeans(mem);
  }

  /** What a call makes of the tokens, in whatever order they are kept. */
  ghost predicate Exchanges(s: seq<Extra>, r: seq<Extra>, mem: seq<u8>, evict: nat)
    requires evict < 250 && |s| <= 500
  {
    if exists i :: 0 <= i < |s| && SameNoCase(s[i].data, mem) then
      exists i :: 0 <= i < |s| && SameNoCase(s[i].data, mem)
          && multiset(r) + multiset{s[i]} == multiset(s) + multiset{Extra(s[i].data, s[i].hits + 1)}
    else if |s| < 500 then multiset(r) == multiset(s) + multiset{Extra(mem, 0)}
    else multiset(r) + multiset{s[250 + evict]} == multiset(s) + multiset{Extra(mem, 0)}
  }

  lemma Exchanged(s: seq<Extra>, i: nat, x: Extra)
    requires i < |s|
    ensures multiset(s[i := x]) + multiset{s[i]} == multiset(s) + multiset{x}
  {
    assert s == s[..i] + ([s[i]] + s[i + 1..]);
    assert s[i := x] == s[..i] + ([x] + s[i + 1..]);
  }

  /** A token counts one more use under its first spelling, is new, or takes the place of one in the lower half. */
  lemma StepExchanges(extras: seq<seq<u8>>, s: seq<Extra>, mem: seq<u8>, evict: nat, r: seq<Extra>)
    requires evict < 250 && |s| <= 500 && Step(extras, s, mem, evict, r) && !IsRejected(extras, mem)
    ensures Exchanges(s, r, mem, evict)
  {
    var t: seq<Extra> :| Taken(s, mem, evict, t) && multiset(r) == multiset(t);
    if i: nat :| FoundAt(s, mem, i) && t == s[i := s[i].(hits := s[i].hits + 1)] {
      Exchanged(s, i, Extra(s[i].data, s[i].hits + 1));
    } else if |s| == 500 {
      Exchanged(s, 250 + evict, Extra(mem, 0));
    }
  }

  /** The global list of automatic tokens; `extras` are the user's, sorted by length once loaded. */
  class AutoDictionary {
    const extras: seq<seq<u8>>
    var aExtras: seq<Extra>
    var autoChanged: bool

    ghost predicate Valid()
      reads this
    {
      SortedByLength(extras) && WellKept(extras, aExtras)
    }

    constructor (extras: seq<seq<u8>>)
      requires SortedByLength(extras)
      ensures Valid() && this.extras == extras && aExtras == [] && !autoChanged
    {
      this.extras := extras;
      aExtras := [];
      autoChanged := false;
    }

    /** `maybe_add_auto`; `evict` is the random number drawn when the list is full. */
    method MaybeAddAuto(mem: seq<u8>, evict: nat)
      requires Valid() && evict < MAX_AUTO_EXTRAS / 2
      modifies this
      ensures Valid()
      ensures Step(extras, old(aExtras), mem, evict, aExtras)
      ensures if IsRejected(extras, mem) then aExtras == old(aExtras) else Exchanges(old(aExtras), aExtras, mem, evict)
      ensures autoChanged == (old(autoChanged) || !IsRejected(extras, mem))
    {
      ghost var before := aExtras;
      var rejected := CheckRejected(extras, mem);
      if rejected {
        return;
      }
      autoChanged := true;
      var taken := Take(aExtras, mem, evict);
      aExtras := SortKept(taken);
      assert Taken(before, mem, evict, taken) && multiset(aExtras) == multiset(taken);
      StepKeeps(extras, before, mem, evict, aExtras);
      StepExchanges(extras, before, mem, evict, aExtras);
    }
  }

  /** A list after any run of calls, each with its random draw. */
  ghost predicate IsHistory(extras: seq<seq<u8>>, calls: seq<(seq<u8>, nat)>, states: seq<seq<Extra>>) {
    && |states| == |calls| + 1 && states[0] == []
    && forall i :: 0 <= i < |calls| ==>
        calls[i].1 < MAX_AUTO_EXTRAS / 2 && Step(extras, states[i], calls[i].0, calls[i].1, states[i + 1])
  }

  lemma {:induction false} HistoryKeeps(extras: seq<seq<u8>>, calls: seq<(seq<u8>, nat)>, states: seq<seq<Extra>>,
                                        n: nat)
    requires IsHistory(extras, calls, states) && n < |states|
    ensures WellKept(extras, states[n])
  {
    if n > 0 {
      HistoryKeeps(extras, calls, states, n - 1);
      StepKeeps(extras, states[n - 1], calls[n - 1].0, calls[n - 1].1, states[n]);
    }
  }

  /** A token offered once and not evicted is recognised in any case: offering it again only counts a use. */
  lemma OfferedAgain(extras: seq<seq<u8>>, s: seq<Extra>, mem: seq<u8>, again: seq<u8>, evict: nat, evict': nat,
                     r: seq<Extra>, q: seq<Extra>)
    requires WellKept(extras, s) && evict < MAX_AUTO_EXTRAS / 2 && evict' < MAX_AUTO_EXTRAS / 2
    requires Step(extras, s, mem, evict, r) && Step(extras, r, again, evict', q)
    requires SameNoCase(mem, again) && !IsRejected(extras, mem) && !IsRejected(extras, again)
    ensures |q| == |r|
  {
    StepKeeps(extras, s, mem, evict, r);
    var t: seq<Extra> :| Taken(s, mem, evict, t) && multiset(r) == multiset(t);
    var e := TakenIsThere(s, mem, evict, t);
    assert e in multiset(t);
    assert e in r;
    var i: nat :| i < |r| && r[i] == e;
    SameTransitive(e.data, mem, again);
    var u: seq<Extra> :| Taken(r, again, evict', u) && multiset(q) == multiset(u);
    assert !NotFound(r, again);
    assert |q| == |multiset(q)| == |multiset(u)| == |u|;
    assert |r| == |u|;
  }

  /** The tokens the deterministic stage overwrites with. */
  function TopTokens(s: seq<Extra>): (r: seq<seq<u8>>)
    ensures |r| == Top(|s|)
  {
    seq(Top(|s|), i requires 0 <= i < Top(|s|) => s[i].data)
  }

  /** After any run of calls they are in the order that stage relies on, and the most used. */
  lemma TopTokensAreUsable(extras: seq<seq<u8>>, calls: seq<(seq<u8>, nat)>, states: seq<seq<Extra>>, n: nat)
    requires IsHistory(extras, calls, states) && n < |states|
    ensures SortedByLength(TopTokens(states[n])) && TopIsMostUsed(states[n])
  {
    HistoryKeeps(extras, calls, states, n);
    var s := states[n];
    var top := s[..Top(|s|)];
    forall i, j | 0 <= i <= j < Top(|s|) ensures |TopTokens(s)[i]| <= |TopTokens(s)[j]| {
      assert ByLength(top[i]) <= ByLength(top[j]);
    }
  }

  lemma SameTransitive(a: seq<u8>, b: seq<u8>, c: seq<u8>)
    requires SameNoCase(a, b) && SameNoCase(b, c)
    ensures SameNoCase(a, c)
  {
  }

  lemma TakenIsThere(s: seq<Extra>, mem: seq<u8>, evict: nat, t: seq<Extra>) returns (e: Extra)
    requires evict < MAX_AUTO_EXTRAS / 2 && Taken(s, mem, evict, t)
    ensures e in t && SameNoCase(e.data, mem)
  {
    if i: nat :| FoundAt(s, mem, i) && t == s[i := s[i].(hits := s[i].hits + 1)] {
      e := t[i];
    } else {
      e := Extra(mem, 0);
      if |s| < MAX_AUTO_EXTRAS {
        assert t[|s|] == e;
      } else {
        assert t[MAX_AUTO_EXTRAS / 2 + evict] == e;
      }
    }
  }
}
