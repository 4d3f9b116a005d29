/** `next_p2`, shared by the two input minimizers. */
module PowersOfTwo {

  ghost predicate IsPowerOfTwo(n: nat) {
    n == 1 || (n > 1 && n % 2 == 0 && IsPowerOfTwo(n / 2))
  }

  function DoubledUpTo(val: nat, ret: nat): (r: nat)
    requires ret > 0
    ensures r > 0
    decreases val - ret
  {
    if val > ret then DoubledUpTo(val, 2 * ret) else ret
  }

  function LeastPower(val: nat): (r: nat)
    ensures r > 0
  {
    DoubledUpTo(val, 1)
  }

  lemma {:induction false} DoublingReaches(val: nat, ret: nat)
    requires IsPowerOfTwo(ret) && (ret == 1 || ret / 2 < val)
    ensures var r := DoubledUpTo(val, ret); IsPowerOfTwo(r) && val <= r && (r == 1 || r / 2 < val)
    decreases val - ret
  {
    if val > ret {
      assert 2 * ret / 2 == ret;
      DoublingReaches(val, 2 * ret);
    }
  }

  ghost predicate IsLeastPower(p: nat, n: nat) {
    IsPowerOfTwo(p) && n <= p && (p == 1 || p / 2 < n)
  }

  lemma LeastPowerIs(n: nat)
    ensures IsLeastPower(LeastPower(n), n)
  {
    DoublingReaches(n, 1);
  }

  /** The result is the least power of two that is not below `val`. */
  method NextP2(val: nat) returns (ret: nat)
    ensures ret == LeastPower(val)
    ensures IsLeastPower(ret, val)
  {
    ret := 1;
    while val > ret
      invariant ret > 0 && DoubledUpTo(val, ret) == LeastPower(val)
      decreases val - ret
    {
      ret := ret * 2;
    }
    LeastPowerIs(val);
  }
}
