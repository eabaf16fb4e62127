/** ONFI parameter pages: three copies, each with its own CRC, of which the first sound one gives the geometry. */
module Onfi {
  import opened Wrappers
  import opened Bytes
  import Checksum

  const PARAMETER_BYTES: nat := 256
  const COPIES: nat := 3
  const CRC_AT: nat := 254
  const FIELD_BYTES: nat := 114
  const MAX_RAW_PAGE_BYTES: nat := 0x9000 - 32
  const SIGNATURE: seq<bv8> := [0x4F, 0x4E, 0x46, 0x49]

  /** The geometry read from a parameter page; the two names stay raw bytes. */
  datatype Geometry = Geometry(
    copy: nat, revision: nat, manufacturer: seq<bv8>, model: seq<bv8>, jedecId: byte,
    pageBytes: nat, oobBytes: nat, pagesPerBlock: nat, blocksPerLun: nat, luns: byte,
    columnCycles: nat, rowCycles: nat, bitsPerCell: byte, maximumBadBlocks: nat, eccBits: byte, planesPerLun: nat,
    wideBus: bool)

  function At(page: seq<bv8>, at: nat): byte
    requires at < |page|
  {
    Checksum.ByteFrom(page[at])
  }

  function Le16At(page: seq<bv8>, at: nat): nat
    requires at + 2 <= |page|
  {
    At(page, at) as nat + 256 * (At(page, at + 1) as nat)
  }

  function Le32At(page: seq<bv8>, at: nat): nat
    requires at + 4 <= |page|
  {
    Le16At(page, at) + 0x1_0000 * Le16At(page, at + 2)
  }

  function PowerOfTwo(n: nat): nat { if n == 0 then 1 else 2 * PowerOfTwo(n - 1) }

  /** Two stored bytes, low byte first. */
  function Stored(low: bv8, high: bv8): bv16 { ((high as bv16) << 8) | (low as bv16) }

  predicate CrcHolds(page: seq<bv8>)
    requires |page| == PARAMETER_BYTES
  {
    Stored(page[CRC_AT], page[CRC_AT + 1]) == Checksum.OnfiFrom(Checksum.ONFI_BASE, page[..CRC_AT])
  }

  /** A memory organization the host accepts. */
  predicate Organized(page: seq<bv8>)
    requires |page| >= FIELD_BYTES
  {
    && Le32At(page, 80) >= 2048 && Le16At(page, 84) > 0 && Le32At(page, 92) > 0 && Le32At(page, 96) > 0
    && At(page, 100) > 0 && 1 <= At(page, 101) % 16 <= 4 && 1 <= At(page, 101) / 16 <= 5
    && At(page, 102) > 0 && At(page, 113) <= 8
    && Le16At(page, 4) != 0 && Le16At(page, 6) % 2 == 0
    && Le32At(page, 80) + Le16At(page, 84) <= MAX_RAW_PAGE_BYTES
  }

  function GeometryOf(page: seq<bv8>, copy: nat): Geometry
    requires |page| >= FIELD_BYTES
  {
    Geometry(copy, Le16At(page, 4), page[32..44], page[44..64], At(page, 64),
             Le32At(page, 80), Le16At(page, 84), Le32At(page, 92), Le32At(page, 96), At(page, 100),
             At(page, 101) % 16, At(page, 101) / 16, At(page, 102), Le16At(page, 103), At(page, 112),
             PowerOfTwo(At(page, 113)), Le16At(page, 6) % 2 != 0)
  }

  /** No field lies behind the first `FIELD_BYTES` bytes. */
  function ParsePage(page: seq<bv8>, copy: nat): Result<Geometry> {
    if |page| != PARAMETER_BYTES || page[..4] != SIGNATURE then Err(Invalid)
    else if !CrcHolds(page) then Err(Invalid)
    else
      var fields := page[..FIELD_BYTES];
      if !Organized(fields) then Err(Invalid) else Ok(GeometryOf(fields, copy))
  }

  function CopyOf(data: seq<bv8>, k: nat): (page: seq<bv8>)
    requires |data| == COPIES * PARAMETER_BYTES && k < COPIES
    ensures |page| == PARAMETER_BYTES
  {
    data[k * PARAMETER_BYTES..(k + 1) * PARAMETER_BYTES]
  }

  /** The first sound copy from number `k` on. */
  function FirstSound(data: seq<bv8>, k: nat): Result<Geometry>
    requires |data| == COPIES * PARAMETER_BYTES && k <= COPIES
    decreases COPIES - k
  {
    if k == COPIES then Err(Invalid)
    else if ParsePage(CopyOf(data, k), k).Ok? then ParsePage(CopyOf(data, k), k)
    else FirstSound(data, k + 1)
  }

  function ParseCopies(data: seq<bv8>): Result<Geometry> {
    if |data| != COPIES * PARAMETER_BYTES then Err(Invalid) else FirstSound(data, 0)
  }

  method SelectCopy(data: seq<bv8>) returns (r: Result<Geometry>)
    ensures r == ParseCopies(data)
  {
    hide ParsePage;
    if |data| != COPIES * PARAMETER_BYTES {
      return Err(Invalid);
    }
    for k := 0 to COPIES
      invariant FirstSound(data, 0) == FirstSound(data, k)
    {
      var parsed := ParsePage(CopyOf(data, k), k);
      if parsed.Ok? {
        return parsed;
      }
    }
    return Err(Invalid);
  }

  // ----- Damage -----

  /** `bad` differs from `page`, and only in the two bytes from `at`. */
  predicate Damaged(page: seq<bv8>, bad: seq<bv8>, at: nat) {
    && |bad| == |page| && bad != page && at + 1 < |page|
    && forall i :: 0 <= i < |page| && i != at && i != at + 1 ==> bad[i] == page[i]
  }

  /** The two bytes are both covered by the CRC or both the CRC itself. */
  predicate OnOneSide(at: nat) { at + 1 != CRC_AT }

  lemma StoredOnce(low: bv8, high: bv8, low2: bv8, high2: bv8)
    requires Stored(low, high) == Stored(low2, high2)
    ensures low == low2 && high == high2
  {
  }

  /** A page whose CRC holds loses it by any damage within two adjacent bytes on one side of the CRC's border. */
  lemma DamageIsNoticed(page: seq<bv8>, bad: seq<bv8>, at: nat)
    requires |page| == PARAMETER_BYTES && CrcHolds(page) && Damaged(page, bad, at) && OnOneSide(at)
    ensures !CrcHolds(bad)
  {
    hide Stored, Checksum.OnfiFrom;
    var a, b := page[..CRC_AT], bad[..CRC_AT];
    if at + 1 < CRC_AT {
      var x, y, u, v := page[at], page[at + 1], bad[at], bad[at + 1];
      assert a == a[..at] + [x, y] + a[at + 2..] && b == a[..at] + [u, v] + a[at + 2..];
      Checksum.TwoByteErrorsAreCaught(a[..at], x, y, u, v, a[at + 2..]);
    } else {
      assert a == b;
      if CrcHolds(bad) {
        StoredOnce(page[CRC_AT], page[CRC_AT + 1], bad[CRC_AT], bad[CRC_AT + 1]);
        assert false;
      }
    }
  }

  /** Wherever the damage lies, a page whose CRC still holds says the same. */
  lemma DamageIsHarmless(page: seq<bv8>, bad: seq<bv8>, at: nat, copy: nat)
    requires ParsePage(page, copy).Ok? && Damaged(page, bad, at)
    ensures ParsePage(bad, copy) == if CrcHolds(bad) then ParsePage(page, copy) else Err(Invalid)
  {
    hide CrcHolds, Organized, GeometryOf;
    if CrcHolds(bad) {
      if OnOneSide(at) {
        DamageIsNoticed(page, bad, at);
        assert false;
      }
      assert bad[..4] == page[..4] && bad[..FIELD_BYTES] == page[..FIELD_BYTES];
    }
  }

  /** A copy that was stored as `page` and may have lost two adjacent bytes since. */
  predicate StoredAs(page: seq<bv8>, copy: seq<bv8>) {
    copy == page || exists at :: 0 <= at < |page| && Damaged(page, copy, at)
  }

  lemma StoredCopy(page: seq<bv8>, bad: seq<bv8>, copy: nat)
    requires ParsePage(page, copy).Ok? && |bad| == PARAMETER_BYTES && StoredAs(page, bad)
    ensures ParsePage(bad, copy) == if CrcHolds(bad) then ParsePage(page, copy) else Err(Invalid)
  {
    hide CrcHolds, Organized, GeometryOf, Damaged;
    if bad != page {
      var at :| 0 <= at < |page| && Damaged(page, bad, at);
      DamageIsHarmless(page, bad, at, copy);
    }
  }

  lemma SameButNumber(page: seq<bv8>, copy: nat)
    requires ParsePage(page, 0).Ok?
    ensures ParsePage(page, copy).Ok? && ParsePage(page, copy).value.(copy := 0) == ParsePage(page, 0).value
  {
    hide CrcHolds, Organized;
  }

  lemma {:induction false} DamagedCopiesAreSkipped(page: seq<bv8>, data: seq<bv8>, k: nat)
    requires |data| == COPIES * PARAMETER_BYTES && k <= COPIES && ParsePage(page, 0).Ok?
    requires forall i :: 0 <= i < COPIES ==> StoredAs(page, CopyOf(data, i))
    ensures FirstSound(data, k).Ok? <==> exists i :: k <= i < COPIES && CrcHolds(CopyOf(data, i))
    ensures FirstSound(data, k).Ok? ==> FirstSound(data, k).value.(copy := 0) == ParsePage(page, 0).value
    decreases COPIES - k
  {
    hide CrcHolds, Organized, GeometryOf, CopyOf, StoredAs;
    if k < COPIES {
      DamagedCopiesAreSkipped(page, data, k + 1);
      SameButNumber(page, k);
      StoredCopy(page, CopyOf(data, k), k);
    }
  }

  /**
   * A damaged parameter page never becomes geometry: however two adjacent bytes of each copy were damaged, reading
   * succeeds exactly when the CRC of a copy holds, as it does for an intact one, and then gives the values of the
   * page.
   */
  lemma GeometryIsThePages(page: seq<bv8>, data: seq<bv8>)
    requires |data| == COPIES * PARAMETER_BYTES && ParsePage(page, 0).Ok?
    requires forall i :: 0 <= i < COPIES ==> StoredAs(page, CopyOf(data, i))
    ensures ParseCopies(data).Ok? <==> exists i :: 0 <= i < COPIES && CrcHolds(CopyOf(data, i))
    ensures (exists i :: 0 <= i < COPIES && CopyOf(data, i) == page) ==> ParseCopies(data).Ok?
    ensures ParseCopies(data).Ok? ==> ParseCopies(data).value.(copy := 0) == ParsePage(page, 0).value
  {
    hide CrcHolds, Organized, GeometryOf, CopyOf, StoredAs, FirstSound;
    DamagedCopiesAreSkipped(page, data, 0);
  }

  // ----- Damage across the border -----

  lemma CarryFlips(crc: bv16)
    ensures Checksum.Carries(Checksum.Xor16(crc, 0xC000)) <==> !Checksum.Carries(crc)
    ensures Checksum.Shift(0xC000) == 0x8000
  {
  }

  lemma XorLeft(a: bv16, b: bv16, c: bv16)
    ensures Checksum.Xor16(Checksum.Xor16(a, b), c) == a ^ b ^ c
  {
  }

  lemma XorRight(a: bv16, b: bv16, c: bv16)
    ensures Checksum.Xor16(a, Checksum.Xor16(b, c)) == a ^ b ^ c
  {
  }

  lemma XorGroups(a: bv16, b: bv16, c: bv16)
    ensures Checksum.Xor16(Checksum.Xor16(a, b), c) == Checksum.Xor16(a, Checksum.Xor16(b, c))
  {
    hide Checksum.Xor16;
    XorLeft(a, b, c);
    XorRight(a, b, c);
  }

  lemma PolynomialParts()
    ensures Checksum.Xor16(0, 0x8000) == Checksum.Xor16(0x8005, 0x0005)
    ensures Checksum.Xor16(0x8005, 0x8000) == Checksum.Xor16(0, 0x0005)
  {
  }

  /** A value with its two top bits set moves up and meets the polynomial. */
  lemma CarryStep(crc: bv16)
    ensures Checksum.OnfiBit(Checksum.Xor16(crc, 0xC000)) == Checksum.Xor16(Checksum.OnfiBit(crc), 0x0005)
  {
    hide Checksum.Xor16, Checksum.Shift, Checksum.Carries;
    CarryFlips(crc);
    var s := Checksum.Shift(crc);
    PolynomialParts();
    XorGroups(s, 0, 0x8000);
    XorGroups(s, 0x8005, 0x0005);
    XorGroups(s, 0x8005, 0x8000);
    XorGroups(s, 0, 0x0005);
    Checksum.ShiftDistributes(crc, 0xC000, if Checksum.Carries(crc) then 0 else 0x8005);
  }

  lemma Moves(z: bv16)
    requires z & 0x8000 == 0
    ensures !Checksum.Carries(z) && Checksum.Shift(z) == z << 1
  {
  }

  lemma OneStep(a: bv16, n: nat, z: bv16, next: bv16)
    requires Checksum.OnfiBits(Checksum.Xor16(a, 0x0300), n) == Checksum.Xor16(Checksum.OnfiBits(a, n), z)
    requires z & 0x8000 == 0 && next == z << 1
    ensures Checksum.OnfiBits(Checksum.Xor16(a, 0x0300), n + 1) == Checksum.Xor16(Checksum.OnfiBits(a, n + 1), next)
  {
    hide Checksum.OnfiBit, Checksum.Xor16, Checksum.Shift, Checksum.Carries;
    Moves(z);
    Checksum.LowStep(Checksum.OnfiBits(a, n), z);
  }

  /** Two bits in the last covered byte change two bits of the CRC. */
  lemma TwoBitsAcross(a: bv16)
    ensures Checksum.OnfiBits(Checksum.Xor16(a, 0x0300), 8) == Checksum.Xor16(Checksum.OnfiBits(a, 8), 0x000A)
  {
    hide Checksum.OnfiBit, Checksum.Xor16, Checksum.Shift, Checksum.Carries;
    OneStep(a, 0, 0x0300, 0x0600);
    OneStep(a, 1, 0x0600, 0x0C00);
    OneStep(a, 2, 0x0C00, 0x1800);
    OneStep(a, 3, 0x1800, 0x3000);
    OneStep(a, 4, 0x3000, 0x6000);
    OneStep(a, 5, 0x6000, 0xC000);
    CarryStep(Checksum.OnfiBits(a, 6));
    OneStep(a, 7, 0x0005, 0x000A);
  }

  lemma EntersHigh(crc: bv16, x: bv8)
    ensures Checksum.OnfiXor(crc, x ^ 3) == Checksum.Xor16(Checksum.OnfiXor(crc, x), 0x0300)
  {
  }

  lemma StoredLow(low: bv8, high: bv8)
    ensures Stored(low ^ 0x0A, high) == Checksum.Xor16(Stored(low, high), 0x000A)
  {
  }

  lemma LastByte(base: bv16, front: seq<bv8>, x: bv8)
    ensures Checksum.OnfiFrom(base, front + [x])
            == Checksum.OnfiBits(Checksum.OnfiXor(Checksum.OnfiFrom(base, front), x), 8)
  {
    hide Checksum.OnfiBits, Checksum.OnfiXor;
    assert (front + [x])[..|front|] == front;
  }

  lemma NotFixed(x: bv8)
    ensures x ^ 3 != x
  {
  }

  /** The page with two bits flipped in the last covered byte and two in the first byte of the CRC. */
  function Straddled(page: seq<bv8>): seq<bv8>
    requires |page| == PARAMETER_BYTES
  {
    page[CRC_AT - 1 := page[CRC_AT - 1] ^ 3][CRC_AT := page[CRC_AT] ^ 0x0A]
  }

  /**
   * The border matters: the CRC is stored low byte first, and every sound page has such damage that it does not
   * notice.
   */
  lemma StraddlingDamageSlips(page: seq<bv8>)
    requires |page| == PARAMETER_BYTES && CrcHolds(page)
    ensures Damaged(page, Straddled(page), CRC_AT - 1) && CrcHolds(Straddled(page))
  {
    hide Stored, Checksum.OnfiFrom, Checksum.OnfiBits, Checksum.OnfiXor, Checksum.Xor16;
    var bad, front, x := Straddled(page), page[..CRC_AT - 1], page[CRC_AT - 1];
    NotFixed(x);
    assert page[..CRC_AT] == front + [x] && bad[..CRC_AT] == front + [x ^ 3];
    LastByte(Checksum.ONFI_BASE, front, x);
    LastByte(Checksum.ONFI_BASE, front, x ^ 3);
    var crc := Checksum.OnfiFrom(Checksum.ONFI_BASE, front);
    EntersHigh(crc, x);
    TwoBitsAcross(Checksum.OnfiXor(crc, x));
    StoredLow(page[CRC_AT], page[CRC_AT + 1]);
  }
}
