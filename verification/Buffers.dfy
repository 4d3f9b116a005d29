/** Byte buffers, and what it means that one input was cut down from another. */
module Buffers {

  type u8 = x: int | 0 <= x < 256

  function Min(a: int, b: int): int {
    if a < b then a else b
  }

  function Max(a: int, b: int): int {
    if a < b then b else a
  }

  /** The input without the block of length `d` at `p`, cut off at the end. */
  function Without(data: seq<u8>, p: nat, d: nat): (r: seq<u8>)
    requires p <= |data|
    ensures |r| == |data| - Min(d, |data| - p)
  {
    data[..p] + data[Min(p + d, |data|)..]
  }

  /**
    `res` is `orig` with some bytes deleted and some others turned into `fill` (which may be no byte at all),
    in order.
  */
  ghost predicate Simplifies(fill: int, orig: seq<u8>, res: seq<u8>)
    decreases |orig|
  {
    res == [] ||
    (orig != [] &&
     var o, r := orig[..|orig| - 1], res[..|res| - 1];
     || Simplifies(fill, o, res)
     || ((res[|res| - 1] == orig[|orig| - 1] || res[|res| - 1] == fill) && Simplifies(fill, o, r)))
  }

  lemma {:induction false} SimplifiesPointwise(fill: int, orig: seq<u8>, res: seq<u8>)
    requires |res| == |orig| && forall i :: 0 <= i < |res| ==> res[i] == orig[i] || res[i] == fill
    ensures Simplifies(fill, orig, res)
  {
    if orig != [] {
      SimplifiesPointwise(fill, orig[..|orig| - 1], res[..|res| - 1]);
    }
  }

  lemma {:induction false} SimplifiesByDeleting(fill: int, orig: seq<u8>, p: nat, d: nat)
    requires p <= |orig|
    ensures Simplifies(fill, orig, Without(orig, p, d))
  {
    var last := |orig| - 1;
    if p + d < |orig| {
      SimplifiesByDeleting(fill, orig[..last], p, d);
      assert Without(orig, p, d) == orig[..p] + orig[p + d..];
      assert Without(orig[..last], p, d) == orig[..p] + orig[p + d..last];
      assert Without(orig, p, d)[..|Without(orig, p, d)| - 1] == Without(orig[..last], p, d);
    } else if p < |orig| {
      SimplifiesByDeleting(fill, orig[..last], p, d);
      assert Without(orig, p, d) == orig[..p] == Without(orig[..last], p, d);
    } else {
      assert Without(orig, p, d) == orig;
      SimplifiesPointwise(fill, orig, orig);
    }
  }

  lemma {:induction false} SimplifiesTransitive(fill: int, a: seq<u8>, b: seq<u8>, c: seq<u8>)
    requires Simplifies(fill, a, b) && Simplifies(fill, b, c)
    ensures Simplifies(fill, a, c)
    decreases |a| + |b|
  {
    if c != [] && b != [] {
      var a', b', c' := a[..|a| - 1], b[..|b| - 1], c[..|c| - 1];
      if Simplifies(fill, a', b) {
        SimplifiesTransitive(fill, a', b, c);
      } else if Simplifies(fill, b', c) {
        SimplifiesTransitive(fill, a', b', c);
      } else {
        SimplifiesTransitive(fill, a', b', c');
      }
    }
  }

  lemma DeletingSimplifiesMore(fill: int, orig: seq<u8>, data: seq<u8>, p: nat, d: nat)
    requires Simplifies(fill, orig, data) && p <= |data|
    ensures Simplifies(fill, orig, Without(data, p, d))
  {
    SimplifiesByDeleting(fill, data, p, d);
    SimplifiesTransitive(fill, orig, data, Without(data, p, d));
  }

  lemma FillingSimplifiesMore(fill: int, orig: seq<u8>, data: seq<u8>, res: seq<u8>)
    requires Simplifies(fill, orig, data)
    requires |res| == |data| && forall i :: 0 <= i < |res| ==> res[i] == data[i] || res[i] == fill
    ensures Simplifies(fill, orig, res)
  {
    SimplifiesPointwise(fill, data, res);
    SimplifiesTransitive(fill, orig, data, res);
  }

  lemma SimplifiesItself(fill: int, data: seq<u8>)
    ensures Simplifies(fill, data, data)
  {
    SimplifiesPointwise(fill, data, data);
  }

  /** `memcpy` between two buffers. */
  method Copy(src: array<u8>, from: nat, dst: array<u8>, to: nat, n: nat)
    requires from + n <= src.Length && to + n <= dst.Length && src != dst
    modifies dst
    ensures dst[to..to + n] == src[from..from + n]
    ensures forall k :: 0 <= k < dst.Length && !(to <= k < to + n) ==> dst[k] == old(dst[k])
  {
    forall i | 0 <= i < n {
      dst[to + i] := src[from + i];
    }
  }
}
