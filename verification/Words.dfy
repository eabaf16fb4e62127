/** Bitwise operators on unsigned 64-bit numbers. */
module Words {
  import opened Bytes

  function Pow2(n: nat): nat { if n == 0 then 1 else 2 * Pow2(n - 1) }

  /** Bit `i` of a number. */
  predicate BitOf(x: nat, i: nat) {
    if i == 0 then x % 2 == 1 else BitOf(x / 2, i - 1)
  }

  datatype Bitwise = Both | Either | Differ {
    predicate On(a: bool, b: bool) {
      match this
      case Both => a && b
      case Either => a || b
      case Differ => a != b
    }
  }

  /** The bitwise operators on numbers. */
  function Combine(how: Bitwise, a: nat, b: nat): nat {
    if a == 0 && b == 0 then 0
    else 2 * Combine(how, a / 2, b / 2) + if how.On(a % 2 == 1, b % 2 == 1) then 1 else 0
  }

  lemma {:induction false} CombineFits(how: Bitwise, a: nat, b: nat, n: nat)
    requires a < Pow2(n) && b < Pow2(n)
    ensures Combine(how, a, b) < Pow2(n)
  {
    if n > 0 {
      CombineFits(how, a / 2, b / 2, n - 1);
    }
  }

  lemma {:induction false} CombineBits(how: Bitwise, a: nat, b: nat, i: nat)
    ensures BitOf(Combine(how, a, b), i) <==> how.On(BitOf(a, i), BitOf(b, i))
  {
    if a == 0 && b == 0 {
      NoBits(i);
    } else if i > 0 {
      CombineBits(how, a / 2, b / 2, i - 1);
    }
  }

  lemma {:induction false} NoBits(i: nat)
    ensures !BitOf(0, i)
  {
    if i > 0 {
      NoBits(i - 1);
    }
  }

  /** Numbers with the same bits are the same. */
  lemma {:induction false} SameBits(a: nat, b: nat)
    requires forall i: nat :: BitOf(a, i) <==> BitOf(b, i)
    ensures a == b
    decreases a + b
  {
    if a > 0 || b > 0 {
      assert BitOf(a, 0) <==> BitOf(b, 0);
      forall i: nat
        ensures BitOf(a / 2, i) <==> BitOf(b / 2, i)
      {
        assert BitOf(a, i + 1) <==> BitOf(b, i + 1);
      }
      SameBits(a / 2, b / 2);
    }
  }

  lemma WordIsPow2()
    ensures Pow2(64) == 0x1_0000_0000_0000_0000
  {
    assert Pow2(8) == 0x100;
    assert Pow2(16) == 0x1_0000;
    assert Pow2(24) == 0x100_0000;
    assert Pow2(32) == 0x1_0000_0000;
    assert Pow2(40) == 0x100_0000_0000;
    assert Pow2(48) == 0x1_0000_0000_0000;
    assert Pow2(56) == 0x100_0000_0000_0000;
  }

  function Bits(how: Bitwise, a: u64, b: u64): u64 {
    WordIsPow2();
    CombineFits(how, a, b, 64);
    Combine(how, a, b)
  }

  lemma {:induction false} PowerIsPositive(n: nat)
    ensures Pow2(n) >= 1
  {
    if n > 0 {
      PowerIsPositive(n - 1);
    }
  }
}
