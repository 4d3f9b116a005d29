/** Distance vectors of the analyzer: a negative element stands for "no distance". */
module Distances {

  predicate IsSet(d: int) {
    d >= 0
  }

  /** The lesser of two distances, where a negative one loses to any other. */
  function Lesser(a: int, b: int): (r: int)
    ensures IsSet(r) <==> IsSet(a) || IsSet(b)
    ensures IsSet(a) ==> r <= a
    ensures IsSet(b) ==> r <= b
    ensures r == a || r == b
  {
    if b >= 0 && (a < 0 || a > b) then b else a
  }

  /** A distance that starts `delta` earlier. */
  function Delayed(d: int, delta: int): int {
    if d >= 0 then d + delta else d
  }

  /**
    The same for any delta, which may also be negative: an unset `ori` changes nothing, an unset `modi` is
    replaced.
  */
  function Merged(modi: int, ori: int, delta: int): (r: int)
    ensures !IsSet(ori) ==> r == modi
    ensures IsSet(ori) && !IsSet(modi) ==> r == ori + delta
    ensures IsSet(ori) && IsSet(modi) ==> r <= modi && r <= ori + delta && (r == modi || r == ori + delta)
    ensures delta >= 0 ==> r == Lesser(modi, Delayed(ori, delta))
  {
    if ori >= 0 && (modi < 0 || modi > ori + delta) then ori + delta else modi
  }

  /** `getLesserVector` with a delta; too short vectors are refused. */
  method GetLesserVector(modi: array<int>, ori: seq<int>, size: nat, delta: int) returns (ok: bool)
    modifies modi
    ensures ok <==> size <= modi.Length && size <= |ori|
    ensures !ok ==> modi[..] == old(modi[..])
    ensures ok ==> forall i :: 0 <= i < modi.Length ==>
              modi[i] == if i < size then Merged(old(modi[i]), ori[i], delta) else old(modi[i])
  {
    if modi.Length < size || |ori| < size {
      return false;
    }
    var i := 0;
    while i < size
      invariant 0 <= i <= size
      invariant forall k :: i <= k < modi.Length ==> modi[k] == old(modi[k])
      invariant forall k :: 0 <= k < i ==> modi[k] == Merged(old(modi[k]), ori[k], delta)
    {
      if ori[i] >= 0 && (modi[i] < 0 || modi[i] > ori[i] + delta) {
        modi[i] := ori[i] + delta;
      }
      i := i + 1;
    }
    return true;
  }
}
