/** The pseudo-random byte stream of the logical overwrite. */
module Prbs {
  import opened Bytes

  type Word = bv64

  // ----- One step of the generator -----

  function Xor(a: Word, b: Word): Word { a ^ b }

  function Down12(x: Word): Word { x >> 12 }

  function Down24(x: Word): Word { x >> 24 }

  function Down48(x: Word): Word { x >> 48 }

  function Up25(x: Word): Word { x << 25 }

  function Up50(x: Word): Word { x << 50 }

  function Down27(x: Word): Word { x >> 27 }

  function Down54(x: Word): Word { x >> 54 }

  function Right12(x: Word): Word { Xor(x, Down12(x)) }

  function Right24(x: Word): Word { Xor(x, Down24(x)) }

  function Right48(x: Word): Word { Xor(x, Down48(x)) }

  function Left25(x: Word): Word { Xor(x, Up25(x)) }

  function Left50(x: Word): Word { Xor(x, Up50(x)) }

  function Right27(x: Word): Word { Xor(x, Down27(x)) }

  function Right54(x: Word): Word { Xor(x, Down54(x)) }

  function Advance(x: Word): Word { Right27(Left25(Right12(x))) }

  function Scramble(x: Word): Word { x * 0x2545_F491_4F6C_DD1D }

  // ----- Undoing a step: small laws of exclusive or and shifts, then only those -----

  lemma XorLeft(a: Word, b: Word, c: Word)
    ensures Xor(Xor(a, b), c) == a ^ b ^ c
  {
  }

  lemma XorRight(a: Word, b: Word, c: Word)
    ensures Xor(a, Xor(b, c)) == a ^ b ^ c
  {
  }

  lemma XorGroups(a: Word, b: Word, c: Word)
    ensures Xor(Xor(a, b), c) == Xor(a, Xor(b, c))
  {
    hide Xor;
    XorLeft(a, b, c);
    XorRight(a, b, c);
  }

  lemma XorCancels(a: Word, b: Word)
    ensures Xor(a, Xor(a, b)) == b
  {
  }

  lemma XorZero(a: Word)
    ensures Xor(a, 0) == a
  {
  }

  lemma XorMeets(a: Word, b: Word, c: Word)
    ensures Xor(Xor(a, b), Xor(b, c)) == Xor(a, c)
  {
    hide Xor;
    XorGroups(a, b, Xor(b, c));
    XorCancels(b, c);
  }

  lemma Down12OfXor(a: Word, b: Word)
    ensures Down12(Xor(a, b)) == Xor(Down12(a), Down12(b))
  {
  }

  lemma Down12Twice(x: Word)
    ensures Down12(Down12(x)) == Down24(x)
  {
  }

  lemma Down24OfXor(a: Word, b: Word)
    ensures Down24(Xor(a, b)) == Xor(Down24(a), Down24(b))
  {
  }

  lemma Down24Twice(x: Word)
    ensures Down24(Down24(x)) == Down48(x)
  {
  }

  lemma Down48OfXor(a: Word, b: Word)
    ensures Down48(Xor(a, b)) == Xor(Down48(a), Down48(b))
  {
  }

  lemma Down48Twice(x: Word)
    ensures Down48(Down48(x)) == 0
  {
  }

  lemma Up25OfXor(a: Word, b: Word)
    ensures Up25(Xor(a, b)) == Xor(Up25(a), Up25(b))
  {
  }

  lemma Up25Twice(x: Word)
    ensures Up25(Up25(x)) == Up50(x)
  {
  }

  lemma Up50OfXor(a: Word, b: Word)
    ensures Up50(Xor(a, b)) == Xor(Up50(a), Up50(b))
  {
  }

  lemma Up50Twice(x: Word)
    ensures Up50(Up50(x)) == 0
  {
  }

  lemma Down27OfXor(a: Word, b: Word)
    ensures Down27(Xor(a, b)) == Xor(Down27(a), Down27(b))
  {
  }

  lemma Down27Twice(x: Word)
    ensures Down27(Down27(x)) == Down54(x)
  {
  }

  lemma Down54OfXor(a: Word, b: Word)
    ensures Down54(Xor(a, b)) == Xor(Down54(a), Down54(b))
  {
  }

  lemma Down54Twice(x: Word)
    ensures Down54(Down54(x)) == 0
  {
  }

  lemma TwiceRight12(x: Word)
    ensures Right12(Right12(x)) == Right24(x)
  {
    hide Xor, Down12, Down24;
    Down12OfXor(x, Down12(x));
    Down12Twice(x);
    XorMeets(x, Down12(x), Down24(x));
  }

  lemma TwiceRight24(x: Word)
    ensures Right24(Right24(x)) == Right48(x)
  {
    hide Xor, Down24, Down48;
    Down24OfXor(x, Down24(x));
    Down24Twice(x);
    XorMeets(x, Down24(x), Down48(x));
  }

  lemma TwiceRight48(x: Word)
    ensures Right48(Right48(x)) == x
  {
    hide Xor, Down48;
    Down48OfXor(x, Down48(x));
    Down48Twice(x);
    XorMeets(x, Down48(x), 0);
    XorZero(x);
  }

  lemma TwiceLeft25(x: Word)
    ensures Left25(Left25(x)) == Left50(x)
  {
    hide Xor, Up25, Up50;
    Up25OfXor(x, Up25(x));
    Up25Twice(x);
    XorMeets(x, Up25(x), Up50(x));
  }

  lemma TwiceLeft50(x: Word)
    ensures Left50(Left50(x)) == x
  {
    hide Xor, Up50;
    Up50OfXor(x, Up50(x));
    Up50Twice(x);
    XorMeets(x, Up50(x), 0);
    XorZero(x);
  }

  lemma TwiceRight27(x: Word)
    ensures Right27(Right27(x)) == Right54(x)
  {
    hide Xor, Down27, Down54;
    Down27OfXor(x, Down27(x));
    Down27Twice(x);
    XorMeets(x, Down27(x), Down54(x));
  }

  lemma TwiceRight54(x: Word)
    ensures Right54(Right54(x)) == x
  {
    hide Xor, Down54;
    Down54OfXor(x, Down54(x));
    Down54Twice(x);
    XorMeets(x, Down54(x), 0);
    XorZero(x);
  }

  /** The state before a step, from the state after it. */
  function Undo(y: Word): Word {
    Right48(Right24(Right12(Left50(Left25(Right54(Right27(y)))))))
  }

  /** Every step can be undone. */
  lemma UndoAdvances(x: Word)
    ensures Undo(Advance(x)) == x
  {
    hide Right12, Right24, Right48, Left25, Left50, Right27, Right54;
    var a := Right12(x);
    var b := Left25(a);
    TwiceRight27(b);
    TwiceRight54(b);
    TwiceLeft25(a);
    TwiceLeft50(a);
    TwiceRight12(x);
    TwiceRight24(x);
    TwiceRight48(x);
  }

  /** No two states share a successor. */
  lemma AdvanceInjective(x: Word, y: Word)
    requires Advance(x) == Advance(y)
    ensures x == y
  {
    hide Advance, Undo;
    UndoAdvances(x);
    UndoAdvances(y);
  }

  lemma ZeroStays()
    ensures Advance(0) == 0
  {
  }

  lemma AdvanceKeepsNonZero(x: Word)
    requires x != 0
    ensures Advance(x) != 0
  {
    hide Advance;
    ZeroStays();
    if Advance(x) == 0 {
      AdvanceInjective(x, 0);
    }
  }

  // ----- The stream -----

  function States(state: Word, n: nat): Word {
    if n == 0 then state else Advance(States(state, n - 1))
  }

  function ByteOf(w: Word, k: nat): byte
    requires k < 8
  {
    match k
    case 0 => (w & 0xFF) as bv8 as byte
    case 1 => ((w >> 8) & 0xFF) as bv8 as byte
    case 2 => ((w >> 16) & 0xFF) as bv8 as byte
    case 3 => ((w >> 24) & 0xFF) as bv8 as byte
    case 4 => ((w >> 32) & 0xFF) as bv8 as byte
    case 5 => ((w >> 40) & 0xFF) as bv8 as byte
    case 6 => ((w >> 48) & 0xFF) as bv8 as byte
    case _ => ((w >> 56) & 0xFF) as bv8 as byte
  }

  /** Byte `i` of the stream that starts after `state`: every state but the first gives eight bytes, low byte first. */
  function StreamByte(state: Word, i: nat): byte { ByteOf(Scramble(States(state, i / 8 + 1)), i % 8) }

  function WordsFor(n: nat): nat { (n + 7) / 8 }

  lemma {:induction false} StatesCompose(state: Word, m: nat, n: nat)
    ensures States(States(state, m), n) == States(state, m + n)
  {
    hide Advance;
    if n > 0 {
      StatesCompose(state, m, n - 1);
    }
  }

  /** Stopping after whole words and going on from there continues the stream. */
  lemma StreamContinues(state: Word, words: nat, i: nat)
    ensures StreamByte(States(state, words), i) == StreamByte(state, 8 * words + i)
  {
    hide States, Scramble, ByteOf;
    StatesCompose(state, words, i / 8 + 1);
    assert (8 * words + i) / 8 == words + i / 8 && (8 * words + i) % 8 == i % 8;
  }

  lemma {:induction false} StatesKeepNonZero(state: Word, n: nat)
    requires state != 0
    ensures States(state, n) != 0
  {
    hide Advance;
    if n > 0 {
      StatesKeepNonZero(state, n - 1);
      AdvanceKeepsNonZero(States(state, n - 1));
    }
  }

  // ----- Seeding -----

  const SEED_BASE: Word := 0x9E37_79B9_7F4A_7C15 ^ 0xDEAD_BEEF
  const FALLBACK: Word := 0x1234_5678_9ABC_DEF0

  function MixIn(state: Word, b: byte, i: nat): Word {
    Right27(Left25(Right12(state ^ Placed(b, i % 8))))
  }

  function Placed(b: byte, k: nat): Word
    requires k < 8
  {
    match k
    case 0 => b as Word
    case 1 => (b as Word) << 8
    case 2 => (b as Word) << 16
    case 3 => (b as Word) << 24
    case 4 => (b as Word) << 32
    case 5 => (b as Word) << 40
    case 6 => (b as Word) << 48
    case _ => (b as Word) << 56
  }

  function Mixed(seed: seq<byte>): Word {
    if seed == [] then SEED_BASE else MixIn(Mixed(seed[..|seed| - 1]), seed[|seed| - 1], |seed| - 1)
  }

  /** A generator never starts at zero, so its state is never zero. */
  function Seeded(seed: seq<byte>): (s: Word)
    ensures s != 0
  {
    if Mixed(seed) == 0 then FALLBACK else Mixed(seed)
  }

  class Generator {
    var state: Word

    constructor (seed: seq<byte>)
      ensures state == Seeded(seed)
    {
      var s: Word := SEED_BASE;
      for i := 0 to |seed|
        invariant s == Mixed(seed[..i])
      {
        hide MixIn;
        s := MixIn(s, seed[i], i);
        assert seed[..i + 1][..i] == seed[..i];
      }
      assert seed[..|seed|] == seed;
      state := if s == 0 then FALLBACK else s;
    }

    method NextWord() returns (w: Word)
      modifies this
      ensures state == Advance(old(state)) && w == Scramble(state)
    {
      state := Advance(state);
      w := Scramble(state);
    }

    /** Fill a buffer with the next bytes of the stream; the last word may be used in part only. */
    method Fill(buf: array<byte>)
      modifies this, buf
      ensures forall i :: 0 <= i < buf.Length ==> buf[i] == StreamByte(old(state), i)
      ensures state == States(old(state), WordsFor(buf.Length))
    {
      hide Advance, Scramble, ByteOf;
      ghost var start := state;
      var at, words := 0, 0;
      while at < buf.Length
        invariant at == if 8 * words <= buf.Length then 8 * words else buf.Length
        invariant at < buf.Length ==> at == 8 * words
        invariant words <= WordsFor(buf.Length) && (at == buf.Length ==> words == WordsFor(buf.Length))
        invariant state == States(start, words)
        invariant forall i :: 0 <= i < at ==> buf[i] == StreamByte(start, i)
        decreases buf.Length - at
      {
        var w := NextWord();
        var count := if buf.Length - at < 8 then buf.Length - at else 8;
        for k := 0 to count
          invariant state == States(start, words + 1)
          invariant forall i :: 0 <= i < at + k ==> buf[i] == StreamByte(start, i)
        {
          InWord(words, k);
          buf[at + k] := ByteOf(w, k);
        }
        at := at + count;
        words := words + 1;
      }
    }
  }

  lemma InWord(words: nat, k: nat)
    requires k < 8
    ensures (8 * words + k) / 8 == words && (8 * words + k) % 8 == k
  {
  }

  // ----- Chunks -----

  /** The stream as one long fill. */
  function Stream(state: Word, n: nat): (s: seq<byte>)
    ensures |s| == n
    ensures forall i :: 0 <= i < n ==> s[i] == StreamByte(state, i)
  {
    seq(n, i requires 0 <= i < n => StreamByte(state, i))
  }

  /** A fill of whole words followed by another is one fill. */
  lemma ChunkedFillIsOneFill(state: Word, words: nat, n: nat)
    ensures Stream(state, 8 * words) + Stream(States(state, words), n) == Stream(state, 8 * words + n)
  {
    hide StreamByte, States;
    forall i | 0 <= i < n
      ensures StreamByte(States(state, words), i) == StreamByte(state, 8 * words + i)
    {
      StreamContinues(state, words, i);
    }
  }

  // ----- Known answers -----

  /** The first words of xorshift64* from state 1. */
  lemma KnownWords()
    ensures Scramble(States(1, 1)) == 0x47E4_CE4B_896C_DD1D
    ensures Scramble(States(1, 2)) == 0xABCF_A6A8_E079_651D
    ensures Scramble(States(1, 3)) == 0xB9D1_0D8F_EB73_1F57
  {
    assert States(1, 1) == 0x0200_0001;
    assert States(1, 2) == 0x0004_0040_0080_2801;
    assert States(1, 3) == 0x000D_0040_0320_2803;
  }

  /** The bytes of a word, lowest first. */
  lemma KnownBytes()
    ensures forall k :: 0 <= k < 8 ==> ByteOf(0x0807_0605_0403_0201, k) == k + 1
  {
  }

  lemma SmallSeedBytes()
    ensures Placed(1, 0) == 0x01 && Placed(2, 1) == 0x0200 && Placed(3, 2) == 0x03_0000 && Placed(4, 3) == 0x0400_0000
    ensures Placed(5, 4) == 0x05_0000_0000 && Placed(6, 5) == 0x0600_0000_0000
    ensures Placed(7, 6) == 0x0007_0000_0000_0000 && Placed(8, 7) == 0x0800_0000_0000_0000 && Placed(9, 0) == 0x09
  {
  }

  function SeedState(n: nat): Word {
    match n
    case 0 => 0x9E37_79B9_A1E7_C2FA
    case 1 => 0x024A_6177_7D31_F261
    case 2 => 0xA09E_C983_859F_118C
    case 3 => 0x7EAF_88F0_5255_57BD
    case 4 => 0x6F1A_C260_EA08_7F49
    case 5 => 0xFC84_9E69_C0C5_1104
    case 6 => 0xBC07_E20D_6CA5_5E08
    case 7 => 0xBA93_C53C_A40B_3123
    case 8 => 0xB377_6EF5_B92C_ADEA
    case _ => 0xB5D0_B7EB_BE61_C089
  }

  lemma SeedStep0()
    ensures MixIn(SeedState(0), 1, 0) == SeedState(1)
  {
    hide Placed;
    SmallSeedBytes();
  }

  lemma SeedStep1()
    ensures MixIn(SeedState(1), 2, 1) == SeedState(2)
  {
    hide Placed;
    SmallSeedBytes();
  }

  lemma SeedStep2()
    ensures MixIn(SeedState(2), 3, 2) == SeedState(3)
  {
    hide Placed;
    SmallSeedBytes();
  }

  lemma SeedStep3()
    ensures MixIn(SeedState(3), 4, 3) == SeedState(4)
  {
    hide Placed;
    SmallSeedBytes();
  }

  lemma SeedStep4()
    ensures MixIn(SeedState(4), 5, 4) == SeedState(5)
  {
    hide Placed;
    SmallSeedBytes();
  }

  lemma SeedStep5()
    ensures MixIn(SeedState(5), 6, 5) == SeedState(6)
  {
    hide Placed;
    SmallSeedBytes();
  }

  lemma SeedStep6()
    ensures MixIn(SeedState(6), 7, 6) == SeedState(7)
  {
    hide Placed;
    SmallSeedBytes();
  }

  lemma SeedStep7()
    ensures MixIn(SeedState(7), 8, 7) == SeedState(8)
  {
    hide Placed;
    SmallSeedBytes();
  }

  lemma SeedStep8()
    ensures MixIn(SeedState(8), 9, 8) == SeedState(9)
  {
    hide Placed;
    SmallSeedBytes();
  }

  /** The state that the nine bytes 1 to 9 stir up: each enters at its own place, the ninth at the first again. */
  lemma KnownSeed()
    ensures Mixed([]) == 0x9E37_79B9_A1E7_C2FA
    ensures Mixed([1, 2, 3, 4, 5, 6, 7, 8, 9]) == 0xB5D0_B7EB_BE61_C089
  {
    hide MixIn;
    SeedStep0();
    SeedStep1();
    SeedStep2();
    SeedStep3();
    SeedStep4();
    SeedStep5();
    SeedStep6();
    SeedStep7();
    SeedStep8();
    var s: seq<byte> := [1, 2, 3, 4, 5, 6, 7, 8, 9];
    assert s[..9] == s;
    for n := 0 to 9
      invariant Mixed(s[..n]) == SeedState(n)
    {
      assert s[..n + 1][..n] == s[..n] && s[n] == n + 1;
    }
  }
}
