/** The checksum algorithms of controller metadata, and the ONFI parameter-page CRC. */
module Checksum {
  import opened Wrappers
  import opened Bytes

  type Word = bv64

  /** Polynomials, initial and final values are 64-bit words as the recipe gives them. */
  datatype Algorithm =
    | Crc(crcWidth: nat, polynomial: Word, initial: Word, xorOut: Word, reflected: bool)
    | Sum(sumWidth: nat, twosComplement: bool)
    | Xor8

  function Mask(width: nat): Word
    requires width in {1, 2, 4, 8}
  {
    match width
    case 1 => 0xFF
    case 2 => 0xFFFF
    case 4 => 0xFFFF_FFFF
    case _ => 0xFFFF_FFFF_FFFF_FFFF
  }

  function Top(width: nat): Word
    requires width in {1, 2, 4, 8}
  {
    match width
    case 1 => 0x80
    case 2 => 0x8000
    case 4 => 0x8000_0000
    case _ => 0x8000_0000_0000_0000
  }

  /** A byte moved to the top of a word of `width` bytes. */
  function AtTop(b: Word, width: nat): Word
    requires width in {1, 2, 4, 8}
  {
    match width
    case 1 => b
    case 2 => b << 8
    case 4 => b << 24
    case _ => b << 56
  }

  predicate Fits(width: nat, value: Word)
    requires width in {1, 2, 4, 8}
  {
    Masked(value, width) == value
  }

  /** The algorithm's width, if the algorithm is acceptable at all. */
  function Width(a: Algorithm): (w: Option<nat>)
    ensures w.Some? ==> w.value in {1, 2, 4, 8}
  {
    match a
    case Crc(width, polynomial, initial, xorOut, _) =>
      if width in {1, 2, 4, 8} && polynomial != 0
         && Fits(width, polynomial) && Fits(width, initial) && Fits(width, xorOut)
      then Some(width) else None
    case Sum(width, _) => if width in {1, 2, 4, 8} then Some(width) else None
    case Xor8 => Some(1)
  }

  // ----- One bit, one byte, all bytes -----

  function Xor(a: Word, b: Word): Word { a ^ b }

  function Left(x: Word): Word { x << 1 }

  function Masked(x: Word, width: nat): Word
    requires width in {1, 2, 4, 8}
  {
    x & Mask(width)
  }

  predicate TopSet(x: Word, width: nat)
    requires width in {1, 2, 4, 8}
  {
    x & Top(width) != 0
  }

  function Plus(a: Word, b: Word): Word { a + b }

  function BitMsb(crc: Word, polynomial: Word, width: nat): Word
    requires width in {1, 2, 4, 8}
  {
    Masked(if TopSet(crc, width) then Xor(Left(crc), polynomial) else Left(crc), width)
  }

  function BitLsb(crc: Word, polynomial: Word): Word {
    if crc & 1 != 0 then (crc >> 1) ^ polynomial else crc >> 1
  }

  function BitsMsb(crc: Word, polynomial: Word, width: nat, n: nat): Word
    requires width in {1, 2, 4, 8}
  {
    if n == 0 then crc else BitMsb(BitsMsb(crc, polynomial, width, n - 1), polynomial, width)
  }

  function BitsLsb(crc: Word, polynomial: Word, n: nat): Word {
    if n == 0 then crc else BitLsb(BitsLsb(crc, polynomial, n - 1), polynomial)
  }

  function CrcMsb(data: seq<Word>, polynomial: Word, initial: Word, width: nat): Word
    requires width in {1, 2, 4, 8}
  {
    if data == [] then initial
    else
      BitsMsb(Xor(CrcMsb(data[..|data| - 1], polynomial, initial, width), AtTop(data[|data| - 1], width)),
          polynomial, width, 8)
  }

  function CrcLsb(data: seq<Word>, polynomial: Word, initial: Word): Word {
    if data == [] then initial
    else BitsLsb(Xor(CrcLsb(data[..|data| - 1], polynomial, initial), data[|data| - 1]), polynomial, 8)
  }

  function SumOf(data: seq<Word>): Word {
    if data == [] then 0 else Plus(SumOf(data[..|data| - 1]), data[|data| - 1])
  }

  function XorOf(data: seq<Word>): Word {
    if data == [] then 0 else Xor(XorOf(data[..|data| - 1]), data[|data| - 1])
  }

  function WordValue(a: Algorithm, data: seq<Word>): Word
    requires Width(a).Some?
  {
    var width := Width(a).value;
    match a
    case Crc(_, polynomial, initial, xorOut, reflected) =>
      var start := Masked(initial, width);
      var crc := if reflected then CrcLsb(data, polynomial, start) else CrcMsb(data, polynomial, start, width);
      Masked(Xor(crc, xorOut), width)
    case Sum(_, twosComplement) =>
      var sum := Masked(SumOf(data), width);
      if twosComplement then Masked(Negated(sum), width) else sum
    case Xor8 => Masked(XorOf(data), 1)
  }

  function Negated(x: Word): Word { !x + 1 }

  // Bytes as bits: a byte of a payload, its eight bits, and the word that holds them.

  function Bits8(b: byte): bv8 { b as bv8 }

  function ByteFrom(b: bv8): byte { b as byte }

  function Widen(b: bv8): Word { b as Word }

  function WordOf(b: byte): Word { Widen(Bits8(b)) }

  lemma BitsOfByte(b: bv8)
    ensures Bits8(ByteFrom(b)) == b
  {
  }

  lemma WordOfByte(b: bv8)
    ensures WordOf(ByteFrom(b)) == Widen(b)
  {
    hide Bits8, ByteFrom, Widen;
    BitsOfByte(b);
  }

  /** Bytes as words. */
  function Words(data: seq<byte>): (w: seq<Word>)
    ensures |w| == |data|
  {
    seq(|data|, i requires 0 <= i < |data| => WordOf(data[i]))
  }

  function Low8(w: Word): bv8 { (w & 0xFF) as bv8 }

  function LowByte(w: Word): byte { ByteFrom(Low8(w)) }

  function NextBytes(w: Word): Word { w >> 8 }

  /** The number in the low `width` bytes of a word, which is the word itself when it is masked to that width. */
  function Number(w: Word, width: nat): (n: nat)
    ensures n < Pow256(width)
  {
    if width == 0 then 0 else LowByte(w) + 256 * Number(NextBytes(w), width - 1)
  }

  function ChecksumValue(a: Algorithm, data: seq<byte>): Result<nat> {
    if Width(a).None? then Err(Invalid) else Ok(Number(WordValue(a, Words(data)), Width(a).value))
  }

  lemma Cancels1(x: Word)
    ensures Masked(Plus(x, Masked(Negated(Masked(x, 1)), 1)), 1) == 0
  {
    assert (x + ((!(x & 0xFF) + 1) & 0xFF)) & 0xFF == 0;
  }

  lemma Cancels2(x: Word)
    ensures Masked(Plus(x, Masked(Negated(Masked(x, 2)), 2)), 2) == 0
  {
    assert (x + ((!(x & 0xFFFF) + 1) & 0xFFFF)) & 0xFFFF == 0;
  }

  lemma Cancels4(x: Word)
    ensures Masked(Plus(x, Masked(Negated(Masked(x, 4)), 4)), 4) == 0
  {
    assert (x + ((!(x & 0xFFFF_FFFF) + 1) & 0xFFFF_FFFF)) & 0xFFFF_FFFF == 0;
  }

  lemma Cancels8(x: Word)
    ensures Masked(Plus(x, Masked(Negated(Masked(x, 8)), 8)), 8) == 0
  {
    assert x + (!x + 1) == 0;
  }

  /** A two's-complement sum makes the bytes and the checksum add up to zero. */
  lemma SumCancels(width: nat, data: seq<Word>)
    requires width in {1, 2, 4, 8}
    ensures Masked(Plus(SumOf(data), WordValue(Sum(width, true), data)), width) == 0
  {
    hide Masked, Plus, Negated, SumOf;
    if width == 1 {
      Cancels1(SumOf(data));
    } else if width == 2 {
      Cancels2(SumOf(data));
    } else if width == 4 {
      Cancels4(SumOf(data));
    } else {
      Cancels8(SumOf(data));
    }
  }

  lemma XorCancelsRaw(x: Word)
    ensures Masked(Xor(x, Masked(x, 1)), 1) == 0
  {
    assert (x ^ (x & 0xFF)) & 0xFF == 0;
  }

  /** The exclusive or of the bytes and their checksum is zero. */
  lemma XorCancels(data: seq<Word>)
    ensures Masked(XorOf(data + [WordValue(Xor8, data)]), 1) == 0
  {
    hide Masked, Xor;
    var all := data + [WordValue(Xor8, data)];
    assert all[..|all| - 1] == data;
    XorCancelsRaw(XorOf(data));
  }

  /** The CRC loop, bytes outside and bits inside. */
  method CrcLoop(words: seq<Word>, polynomial: Word, initial: Word, width: nat, reflected: bool) returns (crc: Word)
    requires width in {1, 2, 4, 8}
    ensures crc == if reflected then CrcLsb(words, polynomial, initial) else CrcMsb(words, polynomial, initial, width)
  {
    hide BitMsb, BitLsb, Xor, AtTop;
    crc := initial;
    for i := 0 to |words|
      invariant crc == if reflected then CrcLsb(words[..i], polynomial, initial)
                       else CrcMsb(words[..i], polynomial, initial, width)
    {
      crc := Xor(crc, if reflected then words[i] else AtTop(words[i], width));
      ghost var start := crc;
      for n := 0 to 8
        invariant crc == if reflected then BitsLsb(start, polynomial, n) else BitsMsb(start, polynomial, width, n)
      {
        crc := if reflected then BitLsb(crc, polynomial) else BitMsb(crc, polynomial, width);
      }
      assert words[..i + 1][..i] == words[..i];
    }
    assert words[..|words|] == words;
  }

  method ComputeChecksum(a: Algorithm, data: seq<byte>) returns (r: Result<nat>)
    ensures r == ChecksumValue(a, data)
  {
    hide CrcMsb, CrcLsb, Xor, Plus, Masked, Negated, Fits;
    if Width(a).None? {
      return Err(Invalid);
    }
    var width, words := Width(a).value, Words(data);
    var value: Word := 0;
    match a {
      case Crc(_, polynomial, initial, xorOut, reflected) =>
        value := CrcLoop(words, polynomial, Masked(initial, width), width, reflected);
        value := Masked(Xor(value, xorOut), width);
      case Sum(_, twosComplement) =>
        for i := 0 to |words|
          invariant value == SumOf(words[..i])
        {
          value := Plus(value, words[i]);
          assert words[..i + 1][..i] == words[..i];
        }
        assert words[..|words|] == words;
        value := Masked(value, width);
        if twosComplement {
          value := Masked(Negated(value), width);
        }
      case Xor8 =>
        for i := 0 to |words|
          invariant value == XorOf(words[..i])
        {
          value := Xor(value, words[i]);
          assert words[..i + 1][..i] == words[..i];
        }
        assert words[..|words|] == words;
        value := Masked(value, 1);
    }
    return Ok(Number(value, width));
  }

  // ----- The ONFI CRC -----

  const ONFI_BASE: bv16 := 0x4f4e

  predicate Carries(crc: bv16) { crc & 0x8000 != 0 }

  function Feedback(crc: bv16): bv16 { if Carries(crc) then 0x8005 else 0 }

  function Xor16(a: bv16, b: bv16): bv16 { a ^ b }

  function Shift(a: bv16): bv16 { a << 1 }

  function OnfiBit(crc: bv16): bv16 { Xor16(Shift(crc), Feedback(crc)) }

  function OnfiBits(crc: bv16, n: nat): bv16 {
    if n == 0 then crc else OnfiBit(OnfiBits(crc, n - 1))
  }

  function OnfiXor(crc: bv16, b: bv8): bv16 { crc ^ ((b as bv16) << 8) }

  function OnfiFrom(base: bv16, data: seq<bv8>): bv16 {
    if data == [] then base
    else OnfiBits(OnfiXor(OnfiFrom(base, data[..|data| - 1]), data[|data| - 1]), 8)
  }

  method OnfiCrc16(data: seq<bv8>) returns (crc: bv16)
    ensures crc == OnfiFrom(ONFI_BASE, data)
  {
    hide OnfiBit, OnfiXor;
    crc := ONFI_BASE;
    for i := 0 to |data|
      invariant crc == OnfiFrom(ONFI_BASE, data[..i])
    {
      crc := OnfiXor(crc, data[i]);
      ghost var start := crc;
      for n := 0 to 8
        invariant crc == OnfiBits(start, n)
      {
        crc := OnfiBit(crc);
      }
      assert data[..i + 1][..i] == data[..i];
    }
    assert data[..|data|] == data;
  }

  function Widen16(b: bv16): Word { b as Word }

  function Widened(data: seq<bv8>): (w: seq<Word>)
    ensures |w| == |data|
  {
    seq(|data|, i requires 0 <= i < |data| => Widen(data[i]))
  }

  lemma OnfiBitAgrees(crc: bv16)
    ensures BitMsb(Widen16(crc), 0x8005, 2) == Widen16(OnfiBit(crc))
  {
    hide OnfiBit, Carries, BitMsb, Widen16, CarryShift, Shift;
    OnfiBitCases(crc);
    if Carries(crc) {
      CarryAgrees(crc);
    } else {
      ShiftAgrees(crc);
    }
  }

  lemma CarryAgrees(crc: bv16)
    requires Carries(crc)
    ensures BitMsb(Widen16(crc), 0x8005, 2) == Widen16(CarryShift(crc))
  {
    assert (crc as Word) & 0x8000 != 0;
    assert (((crc as Word) << 1) ^ 0x8005) & 0xFFFF == ((crc << 1) ^ 0x8005) as Word;
  }

  lemma ShiftAgrees(crc: bv16)
    requires !Carries(crc)
    ensures BitMsb(Widen16(crc), 0x8005, 2) == Widen16(Shift(crc))
  {
    assert (crc as Word) & 0x8000 == 0;
    assert ((crc as Word) << 1) & 0xFFFF == (crc << 1) as Word;
  }

  lemma {:induction false} OnfiBitsAgree(crc: bv16, n: nat)
    ensures BitsMsb(Widen16(crc), 0x8005, 2, n) == Widen16(OnfiBits(crc, n))
  {
    hide BitMsb, OnfiBit, Widen16;
    if n > 0 {
      OnfiBitsAgree(crc, n - 1);
      OnfiBitAgrees(OnfiBits(crc, n - 1));
    }
  }

  lemma OnfiByteAgrees(crc: bv16, b: bv8)
    ensures Xor(Widen16(crc), AtTop(Widen(b), 2)) == Widen16(OnfiXor(crc, b))
  {
    assert (crc as Word) ^ ((b as Word) << 8) == (crc ^ ((b as bv16) << 8)) as Word;
  }

  /** The parameter-page CRC is the configurable CRC of width 2, polynomial 0x8005 and initial value 0x4f4e. */
  lemma {:induction false} OnfiIsConfiguredCrc(data: seq<bv8>)
    ensures CrcMsb(Widened(data), 0x8005, 0x4f4e, 2) == Widen16(OnfiFrom(ONFI_BASE, data))
  {
    hide BitMsb, OnfiBit, Widen16, Widen, Xor, OnfiXor, AtTop;
    if data == [] {
      OnfiBaseAgrees();
    } else {
      var front, b := data[..|data| - 1], data[|data| - 1];
      OnfiIsConfiguredCrc(front);
      assert Widened(data)[..|data| - 1] == Widened(front);
      OnfiByteAgrees(OnfiFrom(ONFI_BASE, front), b);
      OnfiBitsAgree(OnfiXor(OnfiFrom(ONFI_BASE, front), b), 8);
    }
  }

  /** So it is the checksum the recipe's algorithm computes with those parameters. */
  lemma OnfiIsChecksumValue(data: seq<bv8>)
    ensures var onfi := Crc(2, 0x8005, 0x4f4e, 0, false);
            Width(onfi) == Some(2) && WordValue(onfi, Widened(data)) == Widen16(OnfiFrom(ONFI_BASE, data))
  {
    hide CrcMsb, OnfiFrom;
    OnfiParametersFit();
    OnfiIsConfiguredCrc(data);
    MaskedIsSame(OnfiFrom(ONFI_BASE, data));
  }

  /** The bytes of an input given as bits. */
  function BytesFrom(data: seq<bv8>): (raw: seq<byte>)
    ensures |raw| == |data|
  {
    seq(|data|, i requires 0 <= i < |data| => ByteFrom(data[i]))
  }

  lemma NumberOf16(x: bv16)
    ensures Number(Widen16(x), 2) == x as int
  {
  }

  /** On every input the parameter-page CRC is the number the configurable checksum gives for the same bytes. */
  lemma OnfiIsConfiguredChecksum(data: seq<bv8>)
    ensures ChecksumValue(Crc(2, 0x8005, 0x4f4e, 0, false), BytesFrom(data)) == Ok(OnfiFrom(ONFI_BASE, data) as int)
  {
    hide Width, WordValue, Number, OnfiFrom, ByteFrom, WordOf, Widen, Widen16;
    forall i | 0 <= i < |data|
      ensures Words(BytesFrom(data))[i] == Widened(data)[i]
    {
      WordOfByte(data[i]);
    }
    assert Words(BytesFrom(data)) == Widened(data);
    OnfiIsChecksumValue(data);
    NumberOf16(OnfiFrom(ONFI_BASE, data));
  }

  lemma OnfiParametersFit()
    ensures Fits(2, 0x8005) && Fits(2, 0x4f4e) && Fits(2, 0)
  {
  }

  lemma MaskedIsSame(crc: bv16)
    ensures Masked(Xor(Widen16(crc), 0), 2) == Widen16(crc)
  {
    assert ((crc as Word) ^ 0) & 0xFFFF == crc as Word;
  }

  lemma OnfiBaseAgrees()
    ensures Widen16(ONFI_BASE) == 0x4f4e
  {
  }

  // ----- Two consecutive bytes -----

  lemma OnfiBitInjective(a: bv16, b: bv16)
    requires OnfiBit(a) == OnfiBit(b)
    ensures a == b
  {
    hide OnfiBit, Carries, Shift, CarryShift;
    OnfiBitCases(a);
    OnfiBitCases(b);
    CarryShows(a, b);
    CarryShows(b, a);
    if CarryShift(a) == CarryShift(b) && Carries(a) && Carries(b) {
      CarryCancels(a, b);
    }
    if Shift(a) == Shift(b) && !Carries(a) && !Carries(b) {
      ShiftCancels(a, b);
    }
  }

  function CarryShift(a: bv16): bv16 { Xor16(Shift(a), 0x8005) }

  lemma OnfiBitCases(a: bv16)
    ensures OnfiBit(a) == if Carries(a) then CarryShift(a) else Shift(a)
  {
    hide Carries, Shift;
    XorZero(Shift(a));
  }

  lemma XorZero(a: bv16)
    ensures a ^ 0 == a
  {
  }

  lemma CarryCancels(a: bv16, b: bv16)
    requires Carries(a) && Carries(b) && CarryShift(a) == CarryShift(b)
    ensures a == b
  {
  }

  lemma ShiftCancels(a: bv16, b: bv16)
    requires !Carries(a) && !Carries(b) && Shift(a) == Shift(b)
    ensures a == b
  {
  }

  /** The polynomial's low bit tells the two kinds of step apart. */
  lemma CarryShows(a: bv16, b: bv16)
    ensures CarryShift(a) != Shift(b)
  {
  }

  lemma {:induction false} OnfiBitsInjective(a: bv16, b: bv16, n: nat)
    requires OnfiBits(a, n) == OnfiBits(b, n)
    ensures a == b
  {
    hide OnfiBit;
    if n > 0 {
      OnfiBitInjective(OnfiBits(a, n - 1), OnfiBits(b, n - 1));
      OnfiBitsInjective(a, b, n - 1);
    }
  }

  lemma OnfiXorInjective(a: bv16, b: bv16, x: bv8)
    requires OnfiXor(a, x) == OnfiXor(b, x)
    ensures a == b
  {
  }

  /** Different running values stay different over any further bytes. */
  lemma {:induction false} OnfiTailInjective(a: bv16, b: bv16, tail: seq<bv8>)
    requires OnfiFrom(a, tail) == OnfiFrom(b, tail)
    ensures a == b
  {
    hide OnfiBits, OnfiXor;
    if tail != [] {
      var front, last := tail[..|tail| - 1], tail[|tail| - 1];
      OnfiBitsInjective(OnfiXor(OnfiFrom(a, front), last), OnfiXor(OnfiFrom(b, front), last), 8);
      OnfiXorInjective(OnfiFrom(a, front), OnfiFrom(b, front), last);
      OnfiTailInjective(a, b, front);
    }
  }

  lemma {:induction false} OnfiAppend(base: bv16, a: seq<bv8>, b: seq<bv8>)
    ensures OnfiFrom(base, a + b) == OnfiFrom(OnfiFrom(base, a), b)
  {
    hide OnfiBits, OnfiXor;
    if b == [] {
      assert a + b == a;
    } else {
      var front := b[..|b| - 1];
      OnfiAppend(base, a, front);
      assert (a + b)[..|a + b| - 1] == a + front;
    }
  }

  /** The register after two bytes, as sixteen steps from the register with both bytes mixed in at once. */
  lemma OnfiTwoBytes(crc: bv16, x: bv8, y: bv8)
    ensures OnfiFrom(crc, [x, y]) == OnfiBits(Xor16(OnfiXor(crc, x), y as bv16), 16)
  {
    hide OnfiBit, OnfiXor, Xor16;
    assert [x, y][..1] == [x] && [x][..0] == [];
    assert OnfiFrom(crc, []) == crc;
    assert OnfiFrom(crc, [x]) == OnfiBits(OnfiXor(crc, x), 8);
    ByteCatchesUp(OnfiXor(crc, x), y);
    OnfiBitsCompose(Xor16(OnfiXor(crc, x), y as bv16), 8, 8);
  }

  lemma {:induction false} OnfiBitsCompose(crc: bv16, m: nat, n: nat)
    ensures OnfiBits(crc, m + n) == OnfiBits(OnfiBits(crc, m), n)
  {
    hide OnfiBit;
    if n > 0 {
      OnfiBitsCompose(crc, m, n - 1);
    }
  }

  /** A byte in the low half after `n` plain shifts. */
  function Raised(y: bv8, n: nat): bv16 {
    if n == 0 then y as bv16 else Shift(Raised(y, n - 1))
  }

  lemma RaisedBits(y: bv8)
    ensures forall n :: 0 <= n < 8 ==> !Carries(Raised(y, n))
    ensures Raised(y, 8) == (y as bv16) << 8
  {
    var z := y as bv16;
    assert Raised(y, 1) == z << 1;
    assert Raised(y, 2) == z << 2;
    assert Raised(y, 3) == z << 3;
    assert Raised(y, 4) == z << 4;
    assert Raised(y, 5) == z << 5;
    assert Raised(y, 6) == z << 6;
    assert Raised(y, 7) == z << 7;
  }

  /** A value without a top bit just moves up, without touching the feedback. */
  lemma LowStep(crc: bv16, z: bv16)
    requires !Carries(z)
    ensures OnfiBit(Xor16(crc, z)) == Xor16(OnfiBit(crc), Shift(z))
  {
    hide Feedback, Carries, Xor16, Shift;
    SameFeedback(crc, z);
    ShiftDistributes(crc, z, Feedback(crc));
  }

  lemma ShiftDistributes(a: bv16, z: bv16, f: bv16)
    ensures Xor16(Shift(Xor16(a, z)), f) == Xor16(Xor16(Shift(a), f), Shift(z))
  {
  }

  lemma SameFeedback(crc: bv16, z: bv16)
    requires !Carries(z)
    ensures Feedback(Xor16(crc, z)) == Feedback(crc)
  {
    assert Carries(Xor16(crc, z)) == Carries(crc);
    hide Carries, Xor16;
  }

  lemma {:induction false} LowSteps(crc: bv16, y: bv8, n: nat)
    requires n <= 8 && forall k :: 0 <= k < n ==> !Carries(Raised(y, k))
    ensures OnfiBits(Xor16(crc, y as bv16), n) == Xor16(OnfiBits(crc, n), Raised(y, n))
  {
    hide OnfiBit, Xor16, Carries, Shift;
    if n > 0 {
      LowSteps(crc, y, n - 1);
      LowStep(OnfiBits(crc, n - 1), Raised(y, n - 1));
    }
  }

  /** Eight steps carry a byte in the low half to the high half, where the next byte enters. */
  lemma ByteCatchesUp(crc: bv16, y: bv8)
    ensures OnfiBits(Xor16(crc, y as bv16), 8) == OnfiXor(OnfiBits(crc, 8), y)
  {
    hide OnfiBits, Carries, Raised;
    RaisedBits(y);
    LowSteps(crc, y, 8);
  }

  lemma PairInjective(crc: bv16, x: bv8, y: bv8, u: bv8, v: bv8)
    requires Xor16(OnfiXor(crc, x), y as bv16) == Xor16(OnfiXor(crc, u), v as bv16)
    ensures x == u && y == v
  {
  }

  /** Two inputs that differ only within two consecutive bytes never share a CRC. */
  lemma TwoByteErrorsAreCaught(front: seq<bv8>, x: bv8, y: bv8, u: bv8, v: bv8, tail: seq<bv8>)
    requires (x, y) != (u, v)
    ensures OnfiFrom(ONFI_BASE, front + [x, y] + tail) != OnfiFrom(ONFI_BASE, front + [u, v] + tail)
  {
    hide OnfiBits, OnfiXor, Xor16, OnfiFrom;
    var base := OnfiFrom(ONFI_BASE, front);
    if OnfiFrom(ONFI_BASE, front + [x, y] + tail) == OnfiFrom(ONFI_BASE, front + [u, v] + tail) {
      OnfiAppend(ONFI_BASE, front + [x, y], tail);
      OnfiAppend(ONFI_BASE, front + [u, v], tail);
      OnfiAppend(ONFI_BASE, front, [x, y]);
      OnfiAppend(ONFI_BASE, front, [u, v]);
      OnfiTailInjective(OnfiFrom(base, [x, y]), OnfiFrom(base, [u, v]), tail);
      OnfiTwoBytes(base, x, y);
      OnfiTwoBytes(base, u, v);
      OnfiBitsInjective(Xor16(OnfiXor(base, x), y as bv16), Xor16(OnfiXor(base, u), v as bv16), 16);
      PairInjective(base, x, y, u, v);
    }
  }
}
