/** The reflected CRC loop is the non-reflected one seen in a mirror, at every width. */
module ChecksumReflection {
  import opened Wrappers
  import opened Bytes
  import opened Checksum

  /** All 64 bits in reverse order. */
  function Reverse(x: Word): Word {
    var a := ((x >> 1) & 0x5555_5555_5555_5555) | ((x & 0x5555_5555_5555_5555) << 1);
    var b := ((a >> 2) & 0x3333_3333_3333_3333) | ((a & 0x3333_3333_3333_3333) << 2);
    var c := ((b >> 4) & 0x0F0F_0F0F_0F0F_0F0F) | ((b & 0x0F0F_0F0F_0F0F_0F0F) << 4);
    var d := ((c >> 8) & 0x00FF_00FF_00FF_00FF) | ((c & 0x00FF_00FF_00FF_00FF) << 8);
    var e := ((d >> 16) & 0x0000_FFFF_0000_FFFF) | ((d & 0x0000_FFFF_0000_FFFF) << 16);
    (e >> 32) | (e << 32)
  }

  function Right(x: Word): Word { x >> 1 }

  predicate LowSet(x: Word) { x & 1 != 0 }

  predicate HighSet(x: Word) { x & 0x8000_0000_0000_0000 != 0 }

  /** The low `width` bytes of a word moved to its top end. */
  function Align(x: Word, width: nat): Word
    requires width in {1, 2, 4, 8}
  {
    match width
    case 1 => x << 56
    case 2 => x << 48
    case 4 => x << 32
    case _ => x
  }

  /** The low `width` bytes of a word in reverse bit order. */
  function Mirror(x: Word, width: nat): Word
    requires width in {1, 2, 4, 8}
  {
    Reverse(Align(x, width))
  }

  // ----- All 64 bits -----

  lemma ReverseXor(a: Word, b: Word)
    ensures Reverse(Xor(a, b)) == Xor(Reverse(a), Reverse(b))
  {
    ReverseXorBits(a, b);
    hide Reverse;
  }

  lemma ReverseXorBits(a: Word, b: Word)
    ensures Reverse(a ^ b) == Reverse(a) ^ Reverse(b)
  {
  }

  /** Shifting left loses the high bit; in the mirror it is a shift right that loses the low bit. */
  lemma ReverseLeft(x: Word)
    ensures Reverse(Left(x)) == Right(Reverse(x))
    ensures HighSet(x) == LowSet(Reverse(x))
    ensures Reverse(Reverse(x)) == x
  {
  }

  /** One bit of a non-reflected loop over words aligned to the top. */
  function AlignedBit(x: Word, polynomial: Word): Word {
    if HighSet(x) then Xor(Left(x), polynomial) else Left(x)
  }

  lemma LsbCases(x: Word, polynomial: Word)
    ensures BitLsb(x, polynomial) == if LowSet(x) then Xor(Right(x), polynomial) else Right(x)
  {
    hide Xor, Right;
    LsbParts(x, polynomial);
  }

  lemma LsbParts(x: Word, polynomial: Word)
    ensures Right(x) == x >> 1 && Xor(x >> 1, polynomial) == (x >> 1) ^ polynomial
  {
  }

  lemma AlignedBitMirrors(x: Word, polynomial: Word)
    ensures Reverse(AlignedBit(x, polynomial)) == BitLsb(Reverse(x), Reverse(polynomial))
  {
    hide Reverse, Xor, Left, Right, HighSet, LowSet, BitLsb;
    LsbCases(Reverse(x), Reverse(polynomial));
    ReverseLeft(x);
    ReverseXor(Left(x), polynomial);
  }

  // ----- Alignment to the top of the word: one fact a lemma, so that each is a single bit-vector question -----

  lemma AlignMasked1(x: Word)
    ensures Align(Masked(x, 1), 1) == Align(x, 1)
  {
  }

  lemma AlignMasked2(x: Word)
    ensures Align(Masked(x, 2), 2) == Align(x, 2)
  {
  }

  lemma AlignMasked4(x: Word)
    ensures Align(Masked(x, 4), 4) == Align(x, 4)
  {
  }

  lemma AlignMasked8(x: Word)
    ensures Align(Masked(x, 8), 8) == Align(x, 8)
  {
  }

  lemma AlignMasked(x: Word, width: nat)
    requires width in {1, 2, 4, 8}
    ensures Align(Masked(x, width), width) == Align(x, width)
  {
    hide Align, Masked, TopSet, HighSet, AtTop, Xor, Left;
    match width
    case 1 => AlignMasked1(x);
    case 2 => AlignMasked2(x);
    case 4 => AlignMasked4(x);
    case _ => AlignMasked8(x);
  }

  lemma AlignLeft1(x: Word)
    ensures Align(Left(x), 1) == Left(Align(x, 1))
  {
  }

  lemma AlignLeft2(x: Word)
    ensures Align(Left(x), 2) == Left(Align(x, 2))
  {
    hide Align;
    AlignIs2(x);
    AlignIs2(Left(x));
    Raw2(x);
  }

  lemma AlignIs2(x: Word)
    ensures Align(x, 2) == x << 48
  {
  }

  lemma Raw2(x: Word)
    ensures (x << 1) << 48 == (x << 48) << 1
  {
  }

  lemma AlignLeft4(x: Word)
    ensures Align(Left(x), 4) == Left(Align(x, 4))
  {
    hide Align;
    AlignIs4(x);
    AlignIs4(Left(x));
    Raw4(x);
  }

  lemma AlignIs4(x: Word)
    ensures Align(x, 4) == x << 32
  {
  }

  lemma Raw4(x: Word)
    ensures (x << 1) << 32 == (x << 32) << 1
  {
  }

  lemma AlignLeft8(x: Word)
    ensures Align(Left(x), 8) == Left(Align(x, 8))
  {
  }

  lemma AlignLeft(x: Word, width: nat)
    requires width in {1, 2, 4, 8}
    ensures Align(Left(x), width) == Left(Align(x, width))
  {
    hide Align, Masked, TopSet, HighSet, AtTop, Xor, Left;
    match width
    case 1 => AlignLeft1(x);
    case 2 => AlignLeft2(x);
    case 4 => AlignLeft4(x);
    case _ => AlignLeft8(x);
  }

  lemma AlignXor1(a: Word, b: Word)
    ensures Align(Xor(a, b), 1) == Xor(Align(a, 1), Align(b, 1))
  {
  }

  lemma AlignXor2(a: Word, b: Word)
    ensures Align(Xor(a, b), 2) == Xor(Align(a, 2), Align(b, 2))
  {
  }

  lemma AlignXor4(a: Word, b: Word)
    ensures Align(Xor(a, b), 4) == Xor(Align(a, 4), Align(b, 4))
  {
  }

  lemma AlignXor8(a: Word, b: Word)
    ensures Align(Xor(a, b), 8) == Xor(Align(a, 8), Align(b, 8))
  {
  }

  lemma AlignXor(a: Word, b: Word, width: nat)
    requires width in {1, 2, 4, 8}
    ensures Align(Xor(a, b), width) == Xor(Align(a, width), Align(b, width))
  {
    hide Align, Masked, TopSet, HighSet, AtTop, Xor, Left;
    match width
    case 1 => AlignXor1(a, b);
    case 2 => AlignXor2(a, b);
    case 4 => AlignXor4(a, b);
    case _ => AlignXor8(a, b);
  }

  lemma AlignTop1(x: Word)
    ensures TopSet(x, 1) == HighSet(Align(x, 1))
  {
  }

  lemma AlignTop2(x: Word)
    ensures TopSet(x, 2) == HighSet(Align(x, 2))
  {
  }

  lemma AlignTop4(x: Word)
    ensures TopSet(x, 4) == HighSet(Align(x, 4))
  {
  }

  lemma AlignTop8(x: Word)
    ensures TopSet(x, 8) == HighSet(Align(x, 8))
  {
  }

  lemma AlignTop(x: Word, width: nat)
    requires width in {1, 2, 4, 8}
    ensures TopSet(x, width) == HighSet(Align(x, width))
  {
    hide Align, Masked, TopSet, HighSet, AtTop, Xor, Left;
    match width
    case 1 => AlignTop1(x);
    case 2 => AlignTop2(x);
    case 4 => AlignTop4(x);
    case _ => AlignTop8(x);
  }

  lemma MirrorMasked1(x: Word)
    ensures Reverse(x << 56) & 0xFF == Reverse(x << 56)
  {
  }

  lemma MirrorMasked2(x: Word)
    ensures Reverse(x << 48) & 0xFFFF == Reverse(x << 48)
  {
  }

  lemma MirrorMasked4(x: Word)
    ensures Reverse(x << 32) & 0xFFFF_FFFF == Reverse(x << 32)
  {
  }

  lemma MirrorMasked8(x: Word)
    ensures Reverse(x) & 0xFFFF_FFFF_FFFF_FFFF == Reverse(x)
  {
  }

  /** A mirrored value fits the width. */
  lemma MirrorFits(x: Word, width: nat)
    requires width in {1, 2, 4, 8}
    ensures Masked(Mirror(x, width), width) == Mirror(x, width)
  {
    hide Reverse;
    match width
    case 1 => MirrorMasked1(x);
    case 2 => MirrorMasked2(x);
    case 4 => MirrorMasked4(x);
    case _ => MirrorMasked8(x);
  }

  lemma MirrorNonZero1(x: Word)
    requires x & 0xFF == x && x != 0
    ensures Reverse(x << 56) != 0
  {
  }

  lemma MirrorNonZero2(x: Word)
    requires x & 0xFFFF == x && x != 0
    ensures Reverse(x << 48) != 0
  {
  }

  lemma MirrorNonZero4(x: Word)
    requires x & 0xFFFF_FFFF == x && x != 0
    ensures Reverse(x << 32) != 0
  {
  }

  lemma MirrorNonZero8(x: Word)
    requires x & 0xFFFF_FFFF_FFFF_FFFF == x && x != 0
    ensures Reverse(x) != 0
  {
  }

  lemma MirrorNonZero(x: Word, width: nat)
    requires width in {1, 2, 4, 8} && Masked(x, width) == x && x != 0
    ensures Mirror(x, width) != 0
  {
    hide Reverse;
    match width
    case 1 => MirrorNonZero1(x);
    case 2 => MirrorNonZero2(x);
    case 4 => MirrorNonZero4(x);
    case _ => MirrorNonZero8(x);
  }

  lemma MirrorXor(a: Word, b: Word, width: nat)
    requires width in {1, 2, 4, 8}
    ensures Mirror(Xor(a, b), width) == Xor(Mirror(a, width), Mirror(b, width))
  {
    hide Reverse, Align, Xor;
    AlignXor(a, b, width);
    ReverseXor(Align(a, width), Align(b, width));
  }

  lemma MirrorMasked(x: Word, width: nat)
    requires width in {1, 2, 4, 8}
    ensures Mirror(Masked(x, width), width) == Mirror(x, width)
  {
    hide Reverse, Align, Masked;
    AlignMasked(x, width);
  }

  // ----- Bits, bytes and whole inputs -----

  /** One bit of the non-reflected loop, in the mirror, is one bit of the reflected loop. */
  lemma BitMirrors(crc: Word, polynomial: Word, width: nat)
    requires width in {1, 2, 4, 8}
    ensures Mirror(BitMsb(crc, polynomial, width), width) == BitLsb(Mirror(crc, width), Mirror(polynomial, width))
  {
    hide Reverse, Align, Masked, Xor, Left, TopSet, HighSet, BitLsb;
    AlignedBitMirrors(Align(crc, width), Align(polynomial, width));
    AlignTop(crc, width);
    AlignLeft(crc, width);
    AlignXor(Left(crc), polynomial, width);
    AlignMasked(Xor(Left(crc), polynomial), width);
    AlignMasked(Left(crc), width);
  }

  lemma {:induction false} BitsMirror(crc: Word, polynomial: Word, width: nat, n: nat)
    requires width in {1, 2, 4, 8}
    ensures Mirror(BitsMsb(crc, polynomial, width, n), width)
            == BitsLsb(Mirror(crc, width), Mirror(polynomial, width), n)
  {
    hide BitMsb, BitLsb, Mirror;
    if n > 0 {
      BitsMirror(crc, polynomial, width, n - 1);
      BitMirrors(BitsMsb(crc, polynomial, width, n - 1), polynomial, width);
    }
  }

  function MirrorByte(b: Word): Word { Mirror(b, 1) }

  /** The same bytes, each in reverse bit order. */
  function MirrorBytes(data: seq<Word>): (m: seq<Word>)
    ensures |m| == |data|
  {
    seq(|data|, i requires 0 <= i < |data| => MirrorByte(data[i]))
  }

  predicate IsByte(b: Word) { b & 0xFF == b }

  lemma TopByte(b: Word)
    requires IsByte(b)
    ensures Reverse(Reverse(b << 56) << 56) == b
  {
  }

  lemma AlignByte1(b: Word)
    ensures Align(AtTop(b, 1), 1) == b << 56
  {
    calc {
      Align(AtTop(b, 1), 1);
      Align(b, 1);
      b << 56;
    }
  }

  lemma Shifts2(b: Word)
    ensures (b << 8) << 48 == b << 56
  {
  }

  lemma AlignByte2(b: Word)
    ensures Align(AtTop(b, 2), 2) == b << 56
  {
    calc {
      Align(AtTop(b, 2), 2);
      Align(b << 8, 2);
      (b << 8) << 48;
      { Shifts2(b); }
      b << 56;
    }
  }

  lemma Shifts4(b: Word)
    ensures (b << 24) << 32 == b << 56
  {
  }

  lemma AlignByte4(b: Word)
    ensures Align(AtTop(b, 4), 4) == b << 56
  {
    calc {
      Align(AtTop(b, 4), 4);
      Align(b << 24, 4);
      (b << 24) << 32;
      { Shifts4(b); }
      b << 56;
    }
  }

  lemma AlignByte8(b: Word)
    ensures Align(AtTop(b, 8), 8) == b << 56
  {
    calc {
      Align(AtTop(b, 8), 8);
      Align(b << 56, 8);
      b << 56;
    }
  }

  lemma AlignByte(b: Word, width: nat)
    requires width in {1, 2, 4, 8}
    ensures Align(AtTop(b, width), width) == b << 56
  {
    hide Align, AtTop;
    if width == 1 {
      AlignByte1(b);
    } else if width == 2 {
      AlignByte2(b);
    } else if width == 4 {
      AlignByte4(b);
    } else {
      AlignByte8(b);
    }
  }

  lemma ByteMirrors(b: Word, width: nat)
    requires width in {1, 2, 4, 8} && IsByte(b)
    ensures Mirror(AtTop(MirrorByte(b), width), width) == b
  {
    hide Reverse, AtTop;
    AlignByte(MirrorByte(b), width);
    TopByte(b);
  }

  lemma {:induction false} LoopsMirror(data: seq<Word>, polynomial: Word, initial: Word, width: nat)
    requires width in {1, 2, 4, 8} && forall i :: 0 <= i < |data| ==> IsByte(data[i])
    ensures Mirror(CrcMsb(MirrorBytes(data), polynomial, initial, width), width)
         == CrcLsb(data, Mirror(polynomial, width), Mirror(initial, width))
  {
    hide Mirror, Xor, AtTop, BitsMsb, BitsLsb, MirrorByte, IsByte;
    if data != [] {
      var front, b := data[..|data| - 1], data[|data| - 1];
      LoopsMirror(front, polynomial, initial, width);
      assert MirrorBytes(data)[..|data| - 1] == MirrorBytes(front);
      var crc, top := CrcMsb(MirrorBytes(front), polynomial, initial, width), AtTop(MirrorByte(b), width);
      ByteMirrors(b, width);
      MirrorXor(crc, top, width);
      BitsMirror(Xor(crc, top), polynomial, width, 8);
    }
  }

  /** The mirror image of a CRC's parameters. */
  function MirrorCrc(a: Algorithm): Algorithm
    requires a.Crc? && Width(a).Some?
  {
    var w := a.crcWidth;
    Crc(w, Mirror(a.polynomial, w), Mirror(a.initial, w), Mirror(a.xorOut, w), !a.reflected)
  }

  /**
   * A reflected CRC is the mirror of the non-reflected CRC with mirrored parameters over mirrored bytes, at
   * widths 1, 2, 4 and 8; both parameter sets are acceptable.
   */
  lemma ReflectedIsMirror(a: Algorithm, data: seq<Word>)
    requires a.Crc? && !a.reflected && Width(a).Some? && forall i :: 0 <= i < |data| ==> IsByte(data[i])
    ensures Width(MirrorCrc(a)).Some?
    ensures WordValue(MirrorCrc(a), data) == Mirror(WordValue(a, MirrorBytes(data)), a.crcWidth)
  {
    hide Mirror, Xor, Masked, CrcMsb, CrcLsb, IsByte;
    var w := a.crcWidth;
    MirrorFits(a.polynomial, w);
    MirrorFits(a.initial, w);
    MirrorFits(a.xorOut, w);
    MirrorNonZero(a.polynomial, w);
    MirrorMasked(a.initial, w);
    LoopsMirror(data, a.polynomial, Masked(a.initial, w), w);
    var crc := CrcMsb(MirrorBytes(data), a.polynomial, Masked(a.initial, w), w);
    MirrorXor(crc, a.xorOut, w);
    MirrorMasked(Xor(crc, a.xorOut), w);
    MirrorFits(Xor(crc, a.xorOut), w);
  }

  // ----- On the bytes of a payload -----

  lemma WordsAreBytes(b: bv8)
    ensures IsByte(Widen(b))
  {
    assert (b as Word) & 0xFF == b as Word;
  }

  lemma LowWord(w: Word)
    requires IsByte(w)
    ensures Widen(Low8(w)) == w
  {
    assert ((w & 0xFF) as bv8) as Word == w & 0xFF;
  }

  lemma LowByteWord(w: Word)
    requires IsByte(w)
    ensures WordOf(LowByte(w)) == w
  {
    hide IsByte, Low8, ByteFrom, Widen, WordOf;
    WordOfByte(Low8(w));
    LowWord(w);
  }

  lemma MirrorIsByte(b: Word)
    ensures IsByte(MirrorByte(b))
  {
    assert Reverse(b << 56) & 0xFF == Reverse(b << 56);
  }

  /** A byte in reverse bit order. */
  function ReversedByte(b: byte): byte { LowByte(MirrorByte(WordOf(b))) }

  function ReversedBytes(raw: seq<byte>): (m: seq<byte>)
    ensures |m| == |raw|
  {
    seq(|raw|, i requires 0 <= i < |raw| => ReversedByte(raw[i]))
  }

  lemma WordsOfReversed(raw: seq<byte>)
    ensures Words(ReversedBytes(raw)) == MirrorBytes(Words(raw))
    ensures forall i :: 0 <= i < |raw| ==> IsByte(Words(raw)[i])
  {
    hide MirrorByte, LowByte, IsByte, Widen, Bits8;
    forall i | 0 <= i < |raw|
      ensures Words(ReversedBytes(raw))[i] == MirrorBytes(Words(raw))[i] && IsByte(Words(raw)[i])
    {
      WordsAreBytes(Bits8(raw[i]));
      MirrorIsByte(WordOf(raw[i]));
      LowByteWord(MirrorByte(WordOf(raw[i])));
    }
  }

  /**
   * On payload bytes: the non-reflected checksum of the bit-reversed bytes and the reflected checksum, with reversed
   * parameters, of the bytes themselves are one word and its bit reversal at that width.
   */
  lemma ReflectedChecksumIsMirror(a: Algorithm, raw: seq<byte>) returns (word: Word)
    requires a.Crc? && !a.reflected && Width(a).Some?
    ensures word == Masked(word, a.crcWidth)
    ensures ChecksumValue(a, ReversedBytes(raw)) == Ok(Number(word, a.crcWidth))
    ensures ChecksumValue(MirrorCrc(a), raw) == Ok(Number(Mirror(word, a.crcWidth), a.crcWidth))
  {
    hide Mirror, Xor, Masked, CrcMsb, CrcLsb, IsByte, Number, Words, ReversedBytes, MirrorBytes;
    WordsOfReversed(raw);
    ReflectedIsMirror(a, Words(raw));
    word := WordValue(a, Words(ReversedBytes(raw)));
    MaskedTwice(Xor(CrcMsb(Words(ReversedBytes(raw)), a.polynomial, Masked(a.initial, a.crcWidth), a.crcWidth),
                    a.xorOut),
                a.crcWidth);
  }

  lemma MaskedTwice(x: Word, width: nat)
    requires width in {1, 2, 4, 8}
    ensures Masked(Masked(x, width), width) == Masked(x, width)
  {
    if width == 1 {
      assert x & 0xFF & 0xFF == x & 0xFF;
    } else if width == 2 {
      assert x & 0xFFFF & 0xFFFF == x & 0xFFFF;
    } else if width == 4 {
      assert x & 0xFFFF_FFFF & 0xFFFF_FFFF == x & 0xFFFF_FFFF;
    }
  }
}
