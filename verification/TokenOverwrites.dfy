/**
  The stages of `fuzz_one` that overwrite the input with dictionary tokens at every
  position: between two tokens at a position the buffer is not restored, which is right
  because the tokens are sorted by length.
*/
module TokenOverwrites {
  import opened Buffers
  import opened Redundancy
  import opened DetStages

  ghost predicate SortedByLength(tokens: seq<seq<u8>>) {
    forall i, j :: 0 <= i <= j < |tokens| ==> |tokens[i]| <= |tokens[j]|
  }

  ghost predicate NoneEmpty(tokens: seq<seq<u8>>) {
    forall i :: 0 <= i < |tokens| ==> tokens[i] != []
  }

  // ---------------------------------------------------------------- one token over another

  /**
    Writing a second token over a first one forgets the first exactly when it is long enough, or what shows is
    the input anyway.
  */
  lemma WritingOver(data: seq<u8>, at: nat, first: seq<u8>, second: seq<u8>)
    requires at + |first| <= |data| && at + |second| <= |data|
    ensures Overwritten(Overwritten(data, at, first), at, second) == Overwritten(data, at, second)
       <==> |first| <= |second| || first[|second|..] == data[at + |second|..at + |first|]
  {
    var once := Overwritten(data, at, first);
    var twice, direct := Overwritten(once, at, second), Overwritten(data, at, second);
    var from := at + |second|;
    assert twice[..from] == direct[..from];
    assert twice[from..] == once[from..] && direct[from..] == data[from..];
    assert twice == direct <==> once[from..] == data[from..] by {
      assert twice == twice[..from] + twice[from..];
      assert direct == direct[..from] + direct[from..];
    }
    if |first| > |second| {
      assert once[from..] == first[|second|..] + data[at + |first|..];
      assert data[from..] == data[from..at + |first|] + data[at + |first|..];
      assert once[from..][..|first| - |second|] == first[|second|..];
      assert data[from..][..|first| - |second|] == data[from..at + |first|];
    } else {
      assert once[from..] == data[from..];
    }
  }

  // ---------------------------------------------------------------- the runs

  /** `memchr` over the cells of the effector map that the token spans. */
  method SpanIsReached(eff: seq<bool>, at: nat, len: nat) returns (r: bool)
    requires len > 0 && at + len <= 8 * |eff|
    ensures r <==> Reached(eff, at, len)
  {
    var k, span := 0, EffPos(at + len - 1) - EffPos(at) + 1;
    while k < span
      invariant 0 <= k <= span
      invariant forall c: nat :: EffPos(at) <= c < EffPos(at) + k ==> !eff[c]
    {
      if eff[EffPos(at) + k] {
        var byte := if k == 0 then at else 8 * (EffPos(at) + k);
        assert EffPos(byte) == EffPos(at) + k;
        return true;
      }
      k := k + 1;
    }
    forall m: nat | at <= m < at + len ensures !eff[EffPos(m)] {
      assert EffPos(at) <= EffPos(m) < EffPos(at) + span;
    }
    r := false;
  }

  /** What the stage works with; `dropped` are the tokens left out at random when there are very many. */
  datatype Setup = Setup(data: seq<u8>, tokens: seq<seq<u8>>, eff: seq<bool>, dropped: (nat, nat) -> bool)
  {
    ghost predicate Valid() {
      |data| <= 8 * |eff| && SortedByLength(tokens) && NoneEmpty(tokens)
    }

    /** A token that is neither dropped, too long for the place, nor wholly without effect. */
    ghost predicate Eligible(at: nat, j: nat)
      requires Valid() && at < |data| && j < |tokens|
    {
      !dropped(at, j) && at + |tokens[j]| <= |data| && Reached(eff, at, |tokens[j]|)
    }

    /** The input with that one token written into it. */
    function Run(at: nat, j: nat): seq<u8>
      requires j < |tokens| && at + |tokens[j]| <= |data|
    {
      Overwritten(data, at, tokens[j])
    }

    /** What the buffer holds after these runs at one position. */
    function Now(runs: seq<seq<u8>>): seq<u8> {
      if runs == [] then data else runs[|runs| - 1]
    }

    /** The runs of the first `n` tokens at one position: a token that changes nothing is passed over. */
    ghost function RunsAt(at: nat, n: nat): seq<seq<u8>>
      requires Valid() && at < |data| && n <= |tokens|
    {
      if n == 0 then [] else
        var before := RunsAt(at, n - 1);
        if Eligible(at, n - 1) && Run(at, n - 1) != Now(before) then before + [Run(at, n - 1)] else before
    }

    ghost function Runs(places: nat): seq<seq<u8>>
      requires Valid() && places <= |data|
    {
      if places == 0 then [] else Runs(places - 1) + RunsAt(places - 1, |tokens|)
    }

    /** A written token is at most `last` long, and the buffer differs from the input only there. */
    ghost predicate Clobbered(now: seq<u8>, at: nat, n: nat, last: nat)
      requires Valid() && n <= |tokens|
    {
      && at + last <= |data| == |now|
      && now[..at] == data[..at] && now[at + last..] == data[at + last..]
      && (forall j :: n <= j < |tokens| ==> last <= |tokens[j]|)
    }
  }

  lemma SortedCovers(s: Setup, now: seq<u8>, at: nat, n: nat, last: nat)
    requires s.Valid() && n < |s.tokens| && s.Clobbered(now, at, n, last) && at + |s.tokens[n]| <= |s.data|
    ensures Overwritten(now, at, s.tokens[n]) == s.Run(at, n)
    ensures s.Clobbered(s.Run(at, n), at, n + 1, |s.tokens[n]|)
  {
    var end := at + |s.tokens[n]|;
    assert now[end..] == s.data[end..] by {
      assert now[end..] == now[at + last..][end - at - last..];
      assert s.data[end..] == s.data[at + last..][end - at - last..];
    }
  }

  /** `memcmp`: the token is already there. */
  lemma AlreadyThere(now: seq<u8>, at: nat, token: seq<u8>)
    requires at + |token| <= |now|
    ensures now[at..at + |token|] == token <==> Overwritten(now, at, token) == now
  {
    var r := Overwritten(now, at, token);
    assert r[at..at + |token|] == token;
    assert now == now[..at] + now[at..at + |token|] + now[at + |token|..];
  }

  /** Whether a token is tried, given what the buffer holds. */
  method IsTried(s: Setup, now: seq<u8>, at: nat, j: nat) returns (r: bool)
    requires s.Valid() && at < |s.data| == |now| && j < |s.tokens|
    ensures r <==> s.Eligible(at, j) && Overwritten(now, at, s.tokens[j]) != now
  {
    var token := s.tokens[j];
    if s.dropped(at, j) || |token| > |s.data| - at {
      return false;
    }
    AlreadyThere(now, at, token);
    if now[at..at + |token|] == token {
      return false;
    }
    r := SpanIsReached(s.eff, at, |token|);
  }

  method TryToken(s: Setup, out: array<u8>, at: nat, j: nat, last: nat) returns (tried: bool, last': nat)
    requires s.Valid() && at < |s.data| && j < |s.tokens|
    requires s.Clobbered(out[..], at, j, last)
    modifies out
    ensures last' <= |s.data| && s.Clobbered(out[..], at, j + 1, last')
    ensures tried <==> s.Eligible(at, j) && s.Run(at, j) != old(out[..])
    ensures out[..] == if tried then s.Run(at, j) else old(out[..])
  {
    tried := IsTried(s, out[..], at, j);
    last' := last;
    if at + |s.tokens[j]| <= |s.data| {
      SortedCovers(s, out[..], at, j, last);
    }
    if tried {
      last' := |s.tokens[j]|;
      Put(out, at, s.tokens[j]);
    }
  }

  /** All tokens at one position, after which the clobbered bytes are copied back from the input. */
  method TryTokens(s: Setup, out: array<u8>, at: nat, cur: int, max: int)
    returns (runs: seq<seq<u8>>, cur': int, max': int)
    requires s.Valid() && at < |s.data| && out[..] == s.data
    modifies out
    ensures out[..] == s.data
    ensures runs == s.RunsAt(at, |s.tokens|)
    ensures cur' == cur + |runs| && max' - cur' == max - cur - |s.tokens|
  {
    runs, cur', max' := [], cur, max;
    var last, j := 0, 0;
    while j < |s.tokens|
      invariant 0 <= j <= |s.tokens|
      invariant s.Clobbered(out[..], at, j, last)
      invariant runs == s.RunsAt(at, j) && out[..] == s.Now(runs)
      invariant cur' == cur + |runs| && max' - cur' == max - cur - j
    {
      var tried;
      tried, last := TryToken(s, out, at, j, last);
      if tried {
        runs := runs + [out[..]];
        cur' := cur' + 1;
      } else {
        max' := max' - 1;
      }
      j := j + 1;
    }
    PuttingBackRestores(out[..], s.data, at, last);
    Put(out, at, s.data[at..at + last]);
  }

  lemma {:induction false} ProductBySteps(n: nat, k: nat)
    ensures Steps(n, k) == n * k
  {
    if n > 0 {
      ProductBySteps(n - 1, k);
      assert n * k == k + (n - 1) * k;
    }
  }

  /** The stage: the buffer ends as the input, and the progress counter meets its bound. */
  method OverwriteTokens(s: Setup, out: array<u8>) returns (runs: seq<seq<u8>>, cur: int, max: int)
    requires s.Valid() && out[..] == s.data
    modifies out
    ensures out[..] == s.data
    ensures runs == s.Runs(|s.data|)
    ensures cur == max == |runs|
  {
    runs, cur, max := [], 0, out.Length * |s.tokens|;
    ProductBySteps(out.Length, |s.tokens|);
    var i := 0;
    while i < out.Length
      invariant 0 <= i <= out.Length && out[..] == s.data
      invariant runs == s.Runs(i)
      invariant cur == |runs| && max - cur == Steps(out.Length - i, |s.tokens|)
    {
      var more;
      more, cur, max := TryTokens(s, out, i, cur, max);
      runs := runs + more;
      i := i + 1;
    }
  }

  // ---------------------------------------------------------------- what is tried

  /** An eligible token at a place, written over the input alone. */
  ghost predicate IsRunAt(s: Setup, at: nat, n: nat, run: seq<u8>)
    requires s.Valid() && at < |s.data| && n <= |s.tokens|
  {
    exists j: nat :: j < n && s.Eligible(at, j) && run == s.Run(at, j)
  }

  lemma {:induction false} RunsAtAreExact(s: Setup, at: nat, n: nat, run: seq<u8>)
    requires s.Valid() && at < |s.data| && n <= |s.tokens|
    ensures run in s.RunsAt(at, n) ==> IsRunAt(s, at, n, run)
    ensures IsRunAt(s, at, n, run) && run != s.data ==> run in s.RunsAt(at, n)
  {
    if n > 0 {
      RunsAtAreExact(s, at, n - 1, run);
      var before := s.RunsAt(at, n - 1);
      assert before != [] ==> s.Now(before) in before;
    }
  }

  /**
    The run is the input with token `j` at this place, where the token was not left out at random, fits, and covers
    a byte whose block has an effect.
  */
  ghost predicate ShowsToken(s: Setup, run: seq<u8>, at: nat, j: nat)
    requires s.Valid() && j < |s.tokens|
  {
    var token := s.tokens[j];
    && at + |token| <= |s.data| == |run| && !s.dropped(at, j)
    && (exists k: nat :: at <= k < at + |token| && s.eff[k / 8])
    && run[at..at + |token|] == token
    && forall k :: 0 <= k < |s.data| && !(at <= k < at + |token|) ==> run[k] == s.data[k]
  }

  lemma RunShowsToken(s: Setup, at: nat, j: nat, run: seq<u8>)
    requires s.Valid() && at < |s.data| && j < |s.tokens|
    ensures s.Eligible(at, j) && run == s.Run(at, j) <==> ShowsToken(s, run, at, j)
  {
    var token := s.tokens[j];
    if at + |token| <= |s.data| {
      var w := Overwritten(s.data, at, token);
      assert w[at..at + |token|] == token;
      if Reached(s.eff, at, |token|) {
        var k: nat :| at <= k < at + |token| && s.eff[EffPos(k)];
        assert s.eff[k / 8];
      }
      if ShowsToken(s, run, at, j) {
        var k: nat :| at <= k < at + |token| && s.eff[k / 8];
        assert s.eff[EffPos(k)];
        forall k: nat | k < |s.data| ensures run[k] == w[k] {
          OverwrittenAt(s.data, at, token, k);
          assert at <= k < at + |token| ==> run[k] == run[at..at + |token|][k - at];
        }
      }
    }
  }

  /** So, of all places and tokens: each that shows in a run was tried, and no other. */
  lemma RunsShowTokens(s: Setup, run: seq<u8>)
    requires s.Valid() && run != s.data
    ensures run in s.Runs(|s.data|)
       <==> exists at: nat, j: nat :: at < |s.data| && j < |s.tokens| && ShowsToken(s, run, at, j)
  {
    EveryTokenIsTried(s, |s.data|, run);
    if run in s.Runs(|s.data|) {
      var at: nat :| at < |s.data| && IsRunAt(s, at, |s.tokens|, run);
      var j: nat :| j < |s.tokens| && s.Eligible(at, j) && run == s.Run(at, j);
      RunShowsToken(s, at, j, run);
    }
    if at: nat, j: nat :| at < |s.data| && j < |s.tokens| && ShowsToken(s, run, at, j) {
      RunShowsToken(s, at, j, run);
      assert IsRunAt(s, at, |s.tokens|, run);
    }
  }

  /** The runs are exactly the inputs with one eligible token in them, save that the unchanged input may be left out. */
  lemma {:induction false} EveryTokenIsTried(s: Setup, places: nat, run: seq<u8>)
    requires s.Valid() && places <= |s.data|
    ensures run in s.Runs(places) ==> exists at: nat :: at < places && IsRunAt(s, at, |s.tokens|, run)
    ensures run != s.data && (exists at: nat :: at < places && IsRunAt(s, at, |s.tokens|, run))
          ==> run in s.Runs(places)
  {
    if places > 0 {
      EveryTokenIsTried(s, places - 1, run);
      RunsAtAreExact(s, places - 1, |s.tokens|, run);
    }
  }
}
