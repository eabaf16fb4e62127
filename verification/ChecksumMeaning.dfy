/** What the sum, the exclusive or and the final exclusive or of a CRC are on the bytes of a payload. */
module ChecksumMeaning {
  import opened Wrappers
  import opened Bytes
  import opened Checksum
  import Geometry

  // ----- Counting in bits and in numbers -----

  /** The byte reached by counting up from zero. */
  function Counted(n: nat): bv8 { if n == 0 then 0 else Up(Counted(n - 1)) }

  function Up(b: bv8): bv8 { b + 1 }

  lemma UpCounts(b: bv8)
    requires ByteFrom(b) < 255
    ensures ByteFrom(Up(b)) == ByteFrom(b) + 1
  {
    Largest();
  }

  lemma Largest()
    ensures ByteFrom(255) == 255
  {
  }

  lemma Smallest()
    ensures ByteFrom(0) == 0
  {
  }

  lemma UpWraps()
    ensures Up(255) == 0
  {
  }

  lemma {:induction false} CountedIs(n: nat)
    requires n < 256
    ensures ByteFrom(Counted(n)) == n
  {
    hide ByteFrom, Up;
    if n == 0 {
      Smallest();
    } else {
      CountedIs(n - 1);
      UpCounts(Counted(n - 1));
    }
  }

  lemma ByteIsCounted(b: bv8)
    ensures Counted(ByteFrom(b)) == b
  {
    hide ByteFrom, Bits8, Counted;
    CountedIs(ByteFrom(b));
    BitsOfByte(b);
    BitsOfByte(Counted(ByteFrom(b)));
  }

  lemma UpModulo(b: bv8)
    ensures ByteFrom(Up(b)) == (ByteFrom(b) + 1) % 256
  {
    hide ByteFrom, Up;
    if ByteFrom(b) < 255 {
      UpCounts(b);
    } else {
      ByteIsCounted(b);
      ByteIsCounted(255);
      Largest();
      UpWraps();
      Smallest();
    }
  }

  function One(w: Word): Word { w + 1 }

  lemma LowOfOne(w: Word)
    ensures Low8(One(w)) == Up(Low8(w))
  {
  }

  lemma NextOfOne(w: Word)
    ensures NextBytes(One(w)) == if Low8(w) == 255 then NextWrapped(w) else NextBytes(w)
  {
  }

  /** The upper bytes after a carry; the topmost carry is lost. */
  function NextWrapped(w: Word): Word { (NextBytes(w) + 1) & 0x00FF_FFFF_FFFF_FFFF }

  /** The low `k` bytes of `m` are all ones. */
  predicate Ones(m: Word, k: nat) { k == 0 || (Low8(m) == 255 && Ones(NextBytes(m), k - 1)) }

  function Anded(w: Word, m: Word): Word { w & m }

  lemma LowOfAnd(w: Word, m: Word)
    requires Low8(m) == 255
    ensures Low8(Anded(w, m)) == Low8(w)
  {
  }

  lemma NextOfAnd(w: Word, m: Word)
    ensures NextBytes(Anded(w, m)) == Anded(NextBytes(w), NextBytes(m))
  {
  }

  /** Bytes above the number do not matter to it. */
  lemma {:induction false} NumberOfAnd(w: Word, m: Word, k: nat)
    requires Ones(m, k)
    ensures Number(Anded(w, m), k) == Number(w, k)
    decreases k
  {
    hide LowByte, Low8, NextBytes, Anded;
    if k > 0 {
      LowOfAnd(w, m);
      NextOfAnd(w, m);
      assert LowByte(Anded(w, m)) == LowByte(w) by {
        SameLow(Anded(w, m), w);
      }
      NumberOfAnd(NextBytes(w), NextBytes(m), k - 1);
    }
  }

  lemma SameLow(a: Word, b: Word)
    requires Low8(a) == Low8(b)
    ensures LowByte(a) == LowByte(b)
  {
    hide Low8, ByteFrom;
  }

  lemma SevenOnes()
    ensures Ones(0x00FF_FFFF_FFFF_FFFF, 7)
  {
    assert NextBytes(0x00FF_FFFF_FFFF_FFFF) == 0xFFFF_FFFF_FFFF;
    assert NextBytes(0xFFFF_FFFF_FFFF) == 0xFF_FFFF_FFFF;
    assert NextBytes(0xFF_FFFF_FFFF) == 0xFFFF_FFFF;
    assert NextBytes(0xFFFF_FFFF) == 0xFF_FFFF;
    assert NextBytes(0xFF_FFFF) == 0xFFFF;
    assert NextBytes(0xFFFF) == 0xFF;
  }

  lemma {:induction false} FewerOnes(m: Word, k: nat, j: nat)
    requires Ones(m, k) && j <= k
    ensures Ones(m, j)
    decreases k
  {
    hide Low8, NextBytes;
    if j > 0 {
      FewerOnes(NextBytes(m), k - 1, j - 1);
    }
  }

  /** The next number of `k` bytes, after the largest zero again. */
  function NextNumber(n: nat, k: nat): nat { if n + 1 == Pow256(k) then 0 else n + 1 }

  /** Counting a word up counts its number up. */
  lemma {:induction false} NumberOfOne(w: Word, k: nat)
    requires k <= 8
    ensures Number(One(w), k) == NextNumber(Number(w, k), k)
    decreases k
  {
    hide Low8, NextBytes, One, Up, ByteFrom, NextWrapped;
    if k > 0 {
      LowOfOne(w);
      UpModulo(Low8(w));
      NextOfOne(w);
      if Low8(w) == 255 {
        Largest();
        NumberOfOne(NextBytes(w), k - 1);
        WrappedNumber(w, k - 1);
      } else {
        NotLargest(Low8(w));
      }
    }
  }

  lemma NotLargest(b: bv8)
    requires b != 255
    ensures ByteFrom(b) < 255
  {
    hide ByteFrom;
    ByteIsCounted(b);
    ByteIsCounted(255);
    Largest();
  }

  lemma WrappedNumber(w: Word, k: nat)
    requires k <= 7
    ensures Number(NextWrapped(w), k) == Number(One(NextBytes(w)), k)
  {
    hide Low8, NextBytes, Number;
    assert NextWrapped(w) == Anded(One(NextBytes(w)), 0x00FF_FFFF_FFFF_FFFF);
    SevenOnes();
    FewerOnes(0x00FF_FFFF_FFFF_FFFF, 7, k);
    NumberOfAnd(One(NextBytes(w)), 0x00FF_FFFF_FFFF_FFFF, k);
  }

  // ----- The sum -----

  /** A word counted up `n` times. */
  function Raised(w: Word, n: nat): Word { if n == 0 then w else One(Raised(w, n - 1)) }

  lemma {:induction false} NumberOfRaised(w: Word, n: nat, k: nat)
    requires k <= 8
    ensures Number(Raised(w, n), k) == (Number(w, k) + n) % Pow256(k)
  {
    hide Number, One, Pow256;
    if n == 0 {
      SmallModulo(Number(w, k), Pow256(k));
    } else {
      NumberOfRaised(w, n - 1, k);
      NumberOfOne(Raised(w, n - 1), k);
      NextModulo(Number(w, k) + n - 1, Pow256(k));
    }
  }

  lemma SmallModulo(x: nat, m: nat)
    requires x < m
    ensures x % m == x
  {
  }

  lemma NextModulo(x: nat, m: nat)
    requires m > 0
    ensures (x + 1) % m == if x % m + 1 == m then 0 else x % m + 1
  {
    var q, r := x / m, x % m;
    assert x == q * m + r;
    if r + 1 == m {
      assert x + 1 == (q + 1) * m;
      Multiple(q + 1, m);
    } else {
      Remains(q, m, r + 1);
    }
  }

  lemma Multiple(q: nat, m: nat)
    requires m > 0
    ensures (q * m) % m == 0
  {
    Geometry.DivModUnique(q, m, 0);
  }

  lemma Remains(q: nat, m: nat, r: nat)
    requires r < m
    ensures (q * m + r) % m == r
  {
    Geometry.DivModUnique(q, m, r);
  }

  lemma PlusUp(w: Word, b: bv8)
    requires b != 255
    ensures Plus(w, Widen(Up(b))) == One(Plus(w, Widen(b)))
  {
  }

  lemma PlusNothing(w: Word)
    ensures Plus(w, Widen(0)) == w
  {
  }

  /** Adding a byte counts a word up that many times. */
  lemma {:induction false} PlusRaises(w: Word, n: nat)
    requires n < 256
    ensures Plus(w, Widen(Counted(n))) == Raised(w, n)
  {
    hide Plus, Widen, Up, One;
    if n == 0 {
      PlusNothing(w);
    } else {
      PlusRaises(w, n - 1);
      CountedIs(n - 1);
      Largest();
      PlusUp(w, Counted(n - 1));
    }
  }

  lemma WordIsCounted(b: byte)
    ensures WordOf(b) == Widen(Counted(b))
  {
    hide Widen, Bits8, ByteFrom;
    CountedIs(b);
    BitsOfByte(Counted(b));
  }

  lemma NumberOfPlus(w: Word, b: byte, k: nat)
    requires k <= 8
    ensures Number(Plus(w, WordOf(b)), k) == (Number(w, k) + b) % Pow256(k)
  {
    hide Number, Plus, WordOf, Pow256;
    WordIsCounted(b);
    PlusRaises(w, b);
    NumberOfRaised(w, b, k);
  }

  /** The bytes of a payload, added up. */
  function ByteSum(data: seq<byte>): nat {
    if data == [] then 0 else ByteSum(data[..|data| - 1]) + data[|data| - 1]
  }

  lemma {:induction false} NumberOfSum(data: seq<byte>, k: nat)
    requires k <= 8
    ensures Number(SumOf(Words(data)), k) == ByteSum(data) % Pow256(k)
  {
    hide Number, Plus, WordOf, Pow256;
    if data == [] {
      NumberOfZero(k);
      assert Words(data) == [];
    } else {
      var front, last := data[..|data| - 1], data[|data| - 1];
      NumberOfSum(front, k);
      assert Words(data)[..|data| - 1] == Words(front);
      NumberOfPlus(SumOf(Words(front)), last, k);
      AddModulo(ByteSum(front), last, Pow256(k));
    }
  }

  lemma AddModulo(a: nat, b: nat, m: nat)
    requires m > 0
    ensures (a % m + b) % m == (a + b) % m
  {
    var q := a / m;
    assert a == q * m + a % m;
    SameRemainder(a % m + b, q, m);
  }

  lemma SameRemainder(x: nat, q: nat, m: nat)
    requires m > 0
    ensures (x + q * m) % m == x % m
  {
    var p, r := x / m, x % m;
    assert x + q * m == (p + q) * m + r;
    Remains(p + q, m, r);
  }

  lemma {:induction false} NumberOfZero(k: nat)
    ensures Number(0, k) == 0
  {
    if k > 0 {
      Smallest();
      assert Low8(0) == 0 && NextBytes(0) == 0;
      NumberOfZero(k - 1);
    }
  }

  // ----- The two's complement -----

  function Flip8(b: bv8): bv8 { !b }

  function Flip(w: Word): Word { !w }

  lemma FlipUp(b: bv8)
    ensures Up(Flip8(Up(b))) == Flip8(b)
  {
  }

  lemma {:induction false} FlipCounted(n: nat)
    requires n < 256
    ensures ByteFrom(Flip8(Counted(n))) == 255 - n
  {
    hide ByteFrom, Up, Flip8;
    if n == 0 {
      assert Flip8(0) == 255 by {
        FlipZero();
      }
      Largest();
    } else {
      FlipCounted(n - 1);
      FlipUp(Counted(n - 1));
      UpModulo(Flip8(Counted(n)));
    }
  }

  lemma FlipZero()
    ensures Flip8(0) == 255
  {
  }

  lemma LowOfFlip(w: Word)
    ensures Low8(Flip(w)) == Flip8(Low8(w))
  {
  }

  lemma NextOfFlipBits(w: Word)
    ensures (!w) >> 8 == (!(w >> 8)) & 0x00FF_FFFF_FFFF_FFFF
  {
  }

  lemma NextOfFlip(w: Word)
    ensures NextBytes(Flip(w)) == Anded(Flip(NextBytes(w)), 0x00FF_FFFF_FFFF_FFFF)
  {
    calc {
      NextBytes(Flip(w));
      (!w) >> 8;
      { NextOfFlipBits(w); }
      (!(w >> 8)) & 0x00FF_FFFF_FFFF_FFFF;
      Anded(Flip(NextBytes(w)), 0x00FF_FFFF_FFFF_FFFF);
    }
  }

  lemma {:induction false} NumberOfFlip(w: Word, k: nat)
    requires k <= 8
    ensures Number(Flip(w), k) == Pow256(k) - 1 - Number(w, k)
    decreases k
  {
    hide Low8, NextBytes, Flip, Flip8, ByteFrom, Anded;
    if k > 0 {
      LowOfFlip(w);
      ByteIsCounted(Low8(w));
      FlipCounted(ByteFrom(Low8(w)));
      NextOfFlip(w);
      SevenOnes();
      FewerOnes(0x00FF_FFFF_FFFF_FFFF, 7, k - 1);
      NumberOfAnd(Flip(NextBytes(w)), 0x00FF_FFFF_FFFF_FFFF, k - 1);
      NumberOfFlip(NextBytes(w), k - 1);
    }
  }

  lemma NegatedIs(w: Word)
    ensures Negated(w) == One(Flip(w))
  {
  }

  lemma NumberOfNegated(w: Word, k: nat)
    requires k <= 8
    ensures Number(Negated(w), k) == if Number(w, k) == 0 then 0 else Pow256(k) - Number(w, k)
  {
    hide Number, Negated, One, Flip, Pow256;
    NegatedIs(w);
    NumberOfFlip(w, k);
    NumberOfOne(Flip(w), k);
  }

  lemma MaskHasOnes(width: nat)
    requires width in {1, 2, 4, 8}
    ensures Ones(Mask(width), width)
  {
    var seven: Word := 0x00FF_FFFF_FFFF_FFFF;
    SevenOnes();
    assert NextBytes(0xFFFF_FFFF_FFFF_FFFF) == seven;
    assert NextBytes(0xFFFF_FFFF) == 0xFF_FFFF;
    assert NextBytes(0xFF_FFFF) == 0xFFFF;
    assert NextBytes(0xFFFF) == 0xFF;
    assert Low8(0xFF) == 255 && Low8(0xFFFF) == 255 && Low8(0xFF_FFFF) == 255;
    assert Low8(0xFFFF_FFFF) == 255 && Low8(0xFFFF_FFFF_FFFF_FFFF) == 255;
  }

  lemma NumberOfMasked(w: Word, width: nat)
    requires width in {1, 2, 4, 8}
    ensures Number(Masked(w, width), width) == Number(w, width)
  {
    hide Number, Mask, Ones;
    MaskHasOnes(width);
    NumberOfAnd(w, Mask(width), width);
    assert Masked(w, width) == Anded(w, Mask(width));
  }

  /**
   * The sum of a payload is the sum of its bytes modulo the width; its two's complement is what makes that a multiple
   * of the width.
   */
  lemma SumIs(width: nat, data: seq<byte>)
    requires width in {1, 2, 4, 8}
    ensures ChecksumValue(Sum(width, false), data) == Ok(ByteSum(data) % Pow256(width))
    ensures ChecksumValue(Sum(width, true), data).Ok?
    ensures var check := ChecksumValue(Sum(width, true), data).value;
            check < Pow256(width) && (ByteSum(data) + check) % Pow256(width) == 0
  {
    hide Number, Masked, Negated, Pow256, SumOf;
    var sum := SumOf(Words(data));
    NumberOfSum(data, width);
    NumberOfMasked(sum, width);
    NumberOfNegated(Masked(sum, width), width);
    NumberOfMasked(Negated(Masked(sum, width)), width);
    ComplementAdds(ByteSum(data), Pow256(width));
  }

  lemma ComplementAdds(sum: nat, m: nat)
    requires m > 0
    ensures (sum + if sum % m == 0 then 0 else m - sum % m) % m == 0
  {
    if sum % m != 0 {
      var q := sum / m;
      assert sum == q * m + sum % m;
      assert sum + (m - sum % m) == (q + 1) * m;
      Multiple(q + 1, m);
    }
  }

  // ----- The exclusive or -----

  /** The bytes of a payload, combined by exclusive or. */
  function Folded(data: seq<bv8>): bv8 {
    if data == [] then 0 else Folded(data[..|data| - 1]) ^ data[|data| - 1]
  }

  lemma LowOfXor(a: Word, b: bv8)
    ensures Low8(Xor(a, Widen(b))) == Low8(a) ^ b
  {
  }

  lemma {:induction false} XorFolds(data: seq<bv8>)
    ensures Low8(XorOf(Words(BytesFrom(data)))) == Folded(data)
  {
    hide Low8, Xor, Widen, WordOf, ByteFrom;
    if data == [] {
      assert Words(BytesFrom(data)) == [];
      assert Low8(0) == 0 by {
        LowOfZero();
      }
    } else {
      var front, last := data[..|data| - 1], data[|data| - 1];
      XorFolds(front);
      assert Words(BytesFrom(data))[..|data| - 1] == Words(BytesFrom(front));
      WordOfByte(last);
      LowOfXor(XorOf(Words(BytesFrom(front))), last);
    }
  }

  lemma LowOfZero()
    ensures Low8(0) == 0
  {
  }

  /** The one-byte exclusive or of a payload is that of its bytes. */
  lemma XorIs(data: seq<bv8>)
    ensures ChecksumValue(Xor8, BytesFrom(data)) == Ok(ByteFrom(Folded(data)) as int)
  {
    hide Low8, ByteFrom, XorOf, Masked, Mask;
    var all := XorOf(Words(BytesFrom(data)));
    XorFolds(data);
    NumberOfMasked(all, 1);
    OneByteNumber(all);
  }

  lemma OneByteNumber(w: Word)
    ensures Number(w, 1) == ByteFrom(Low8(w)) as int
  {
    hide Low8, ByteFrom, NextBytes;
    assert Number(NextBytes(w), 0) == 0;
  }

  // ----- The final exclusive or of a CRC -----

  lemma AndedLeft(a: Word, b: Word, m: Word)
    ensures Anded(Xor(a, b), m) == (a & m) ^ (b & m)
  {
  }

  lemma AndedRight(a: Word, b: Word, m: Word)
    ensures Xor(Anded(a, m), Anded(b, m)) == (a & m) ^ (b & m)
  {
  }

  lemma AndedOfXor(a: Word, b: Word, m: Word)
    ensures Anded(Xor(a, b), m) == Xor(Anded(a, m), Anded(b, m))
  {
    hide Anded, Xor;
    AndedLeft(a, b, m);
    AndedRight(a, b, m);
  }

  lemma MaskedIs(w: Word, width: nat)
    requires width in {1, 2, 4, 8}
    ensures Masked(w, width) == Anded(w, Mask(width))
  {
  }

  lemma MaskedOfXor(a: Word, b: Word, width: nat)
    requires width in {1, 2, 4, 8}
    ensures Masked(Xor(a, b), width) == Xor(Masked(a, width), Masked(b, width))
  {
    hide Masked, Mask, Xor, Anded;
    MaskedIs(Xor(a, b), width);
    MaskedIs(a, width);
    MaskedIs(b, width);
    AndedOfXor(a, b, Mask(width));
  }

  lemma XorNothing(a: Word)
    ensures Xor(a, 0) == a
  {
  }

  /** The final value of a CRC flips exactly the bits of `xorOut`. */
  lemma FinalXorFlips(width: nat, polynomial: Word, initial: Word, xorOut: Word, reflected: bool, data: seq<Word>)
    requires Width(Crc(width, polynomial, initial, xorOut, reflected)).Some?
    ensures Width(Crc(width, polynomial, initial, 0, reflected)).Some?
    ensures WordValue(Crc(width, polynomial, initial, xorOut, reflected), data)
            == Xor(WordValue(Crc(width, polynomial, initial, 0, reflected), data), xorOut)
  {
    hide Masked, Xor, CrcLsb, CrcMsb;
    ZeroFits(width);
    var start := Masked(initial, width);
    var crc := if reflected then CrcLsb(data, polynomial, start) else CrcMsb(data, polynomial, start, width);
    MaskedOfXor(crc, xorOut, width);
    XorNothing(crc);
  }

  lemma ZeroFits(width: nat)
    requires width in {1, 2, 4, 8}
    ensures Fits(width, 0)
  {
  }
}
