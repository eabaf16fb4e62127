/** Decoding the enciphered flash database: a key block, a header and one record key per entry. */
module FlashDatabase {
  import opened Wrappers
  import opened AlcorCipher

  const HEADER_BYTES: nat := 512
  const KEY_BYTES: nat := 256
  const ENTRY_BYTES: nat := 0x296
  const MAX_BYTES: nat := 64 * 1024 * 1024
  const MAX_ENTRIES: nat := 100_000
  const MAGIC: seq<Cell> :=
    [0x41, 0x4C, 0x43, 0x4F, 0x52, 0x46, 0x4C, 0x41, 0x53, 0x48, 0x43, 0x46, 0x47, 0x5F, 0x53, 0x5A]

  /** The database key is the magic. */
  const KEY: seq<Cell> := MAGIC

  /** Whether the fields of a record parse, by its number and its bytes. */
  type Parser = (nat, seq<Cell>) -> bool

  predicate AllParse(records: seq<seq<Cell>>, parser: Parser) {
    forall k :: 0 <= k < |records| ==> parser(k, records[k])
  }

  /** A decoded database: header and records in the clear. */
  datatype Database = Database(header: seq<Cell>, records: seq<seq<Cell>>, suffix: seq<Cell>)

  function WordAt(h: seq<Cell>, offset: nat): nat
    requires offset + 4 <= |h|
  {
    Index(h[offset]) + 0x100 * Index(h[offset + 1]) + 0x1_0000 * Index(h[offset + 2])
        + 0x100_0000 * Index(h[offset + 3])
  }

  /** What the decoder requires of a header in the clear. */
  predicate HeaderValid(h: seq<Cell>) {
    && |h| == HEADER_BYTES - KEY_BYTES
    && h[..16] == MAGIC && WordAt(h, 36) == 4 && WordAt(h, 40) == ENTRY_BYTES && 1 <= WordAt(h, 44) <= MAX_ENTRIES
  }

  /** Each record has a key of its own: the derived key with the record number at both ends. */
  function RecordKey(derived: seq<Cell>, index: nat): (k: seq<Cell>)
    requires |derived| == KEY_BYTES
    ensures |k| == KEY_BYTES
  {
    derived[0 := CellOf(index)][255 := Not(CellOf(index))]
  }

  function EntryStart(k: nat): nat { HEADER_BYTES + k * ENTRY_BYTES }

  function RecordAt(source: seq<Cell>, derived: seq<Cell>, k: nat): seq<Cell>
    requires |derived| == KEY_BYTES && EntryStart(k + 1) <= |source|
  {
    Masked(source[EntryStart(k)..EntryStart(k + 1)], RecordKey(derived, k))
  }

  function Records(source: seq<Cell>, derived: seq<Cell>, n: nat): (s: seq<seq<Cell>>)
    requires |derived| == KEY_BYTES && EntryStart(n) <= |source|
    ensures |s| == n
  {
    if n == 0 then [] else Records(source, derived, n - 1) + [RecordAt(source, derived, n - 1)]
  }

  function DerivedKey(source: seq<Cell>): (k: seq<Cell>)
    requires |source| >= HEADER_BYTES
    ensures |k| == KEY_BYTES
  {
    Masked(source[..KEY_BYTES], KEY)
  }

  function HeaderOf(source: seq<Cell>): (h: seq<Cell>)
    requires |source| >= HEADER_BYTES
    ensures |h| == HEADER_BYTES - KEY_BYTES
  {
    Masked(source[KEY_BYTES..HEADER_BYTES], DerivedKey(source))
  }

  function Decode(source: seq<Cell>, parser: Parser): Result<Database> {
    if !(HEADER_BYTES <= |source| <= MAX_BYTES) || !HeaderValid(HeaderOf(source)) then Err(Invalid)
    else
      var count := WordAt(HeaderOf(source), 44);
      if EntryStart(count) > |source| then Err(Invalid)
      else
        var records := Records(source, DerivedKey(source), count);
        if !AllParse(records, parser) then Err(Invalid)
        else Ok(Database(HeaderOf(source), records, source[EntryStart(count)..]))
  }

  method DecodeFlashDatabase(source: seq<Cell>, parser: Parser) returns (r: Result<Database>)
    ensures r == Decode(source, parser)
  {
    hide Masked, RecordKey, HeaderValid, WordAt, AllParse;
    if !(HEADER_BYTES <= |source| <= MAX_BYTES) {
      return Err(Invalid);
    }
    var key := StreamCipher(source[..KEY_BYTES], KEY);
    var derived := key.value;
    var deciphered := StreamCipher(source[KEY_BYTES..HEADER_BYTES], derived);
    var header := deciphered.value;
    if !HeaderValid(header) {
      return Err(Invalid);
    }
    HeaderHasWords(header);
    var count := WordAt(header, 44);
    if EntryStart(count) > |source| {
      return Err(Invalid);
    }
    var records: seq<seq<Cell>> := [];
    NothingRefused(parser);
    for index := 0 to count
      invariant records == Records(source, derived, index) && AllParse(records, parser)
    {
      var record := StreamCipher(source[EntryStart(index)..EntryStart(index + 1)], RecordKey(derived, index));
      if !parser(index, record.value) {
        RecordsStay(source, derived, index, count);
        OneRefused(Records(source, derived, count), parser, index);
        return Err(Invalid);
      }
      OneMoreParses(records, record.value, parser);
      records := records + [record.value];
    }
    return Ok(Database(header, records, source[EntryStart(count)..]));
  }

  lemma NothingRefused(parser: Parser)
    ensures AllParse([], parser)
  {
  }

  lemma OneMoreParses(records: seq<seq<Cell>>, record: seq<Cell>, parser: Parser)
    requires AllParse(records, parser) && parser(|records|, record)
    ensures AllParse(records + [record], parser)
  {
  }

  lemma OneRefused(records: seq<seq<Cell>>, parser: Parser, k: nat)
    requires k < |records| && !parser(k, records[k])
    ensures !AllParse(records, parser)
  {
  }

  lemma {:induction false} RecordsStay(source: seq<Cell>, derived: seq<Cell>, k: nat, n: nat)
    requires |derived| == KEY_BYTES && EntryStart(n) <= |source| && k < n
    ensures Records(source, derived, n)[k] == RecordAt(source, derived, k)
  {
    hide RecordAt;
    if k < n - 1 {
      RecordsStay(source, derived, k, n - 1);
    }
  }

  lemma HeaderHasWords(h: seq<Cell>)
    requires HeaderValid(h)
    ensures |h| == HEADER_BYTES - KEY_BYTES && 1 <= WordAt(h, 44) <= MAX_ENTRIES
  {
  }

  // ----- The encoder the decoder inverts -----

  function EncodedRecords(records: seq<seq<Cell>>, derived: seq<Cell>): seq<Cell>
    requires |derived| == KEY_BYTES
  {
    if records == [] then []
    else
      var k := |records| - 1;
      EncodedRecords(records[..k], derived) + Masked(records[k], RecordKey(derived, k))
  }

  /** A database enciphered with the key derived from `seed` and the same key per record. */
  function Encode(seed: seq<Cell>, db: Database): seq<Cell>
    requires |seed| == KEY_BYTES
  {
    var derived := Masked(seed, KEY);
    seed + Masked(db.header, derived) + EncodedRecords(db.records, derived) + db.suffix
  }

  predicate DatabaseValid(db: Database) {
    && HeaderValid(db.header) && WordAt(db.header, 44) == |db.records|
    && (forall k :: 0 <= k < |db.records| ==> |db.records[k]| == ENTRY_BYTES)
    && EntryStart(|db.records|) + |db.suffix| <= MAX_BYTES
  }

  lemma MaskTwice(input: seq<Cell>, key: seq<Cell>)
    requires 0 < |key| <= 256
    ensures Masked(Masked(input, key), key) == input
  {
    hide Masked;
    CipherTwiceIsIdentity(input, key);
  }

  predicate Sized(records: seq<seq<Cell>>) { forall k :: 0 <= k < |records| ==> |records[k]| == ENTRY_BYTES }

  lemma {:induction false} EncodedSize(records: seq<seq<Cell>>, derived: seq<Cell>)
    requires |derived| == KEY_BYTES && Sized(records)
    ensures |EncodedRecords(records, derived)| == |records| * ENTRY_BYTES
  {
    hide RecordKey;
    if records != [] {
      EncodedSize(records[..|records| - 1], derived);
    }
  }

  lemma OneMoreRecord(source: seq<Cell>, derived: seq<Cell>, k: nat, record: seq<Cell>)
    requires |derived| == KEY_BYTES && EntryStart(k + 1) <= |source|
    requires source[EntryStart(k)..EntryStart(k + 1)] == Masked(record, RecordKey(derived, k))
    ensures Records(source, derived, k + 1) == Records(source, derived, k) + [record]
  {
    hide Masked, RecordKey;
    MaskTwice(record, RecordKey(derived, k));
  }

  lemma Middle(a: seq<Cell>, b: seq<Cell>, c: seq<Cell>, source: seq<Cell>)
    requires source == a + b + c
    ensures source == a + (b + c) && source[|a|..|a| + |b|] == b
  {
  }

  /** Every enciphered record is found where it was put, and comes back. */
  lemma {:induction false} RecordsComeBack(
    front: seq<Cell>, records: seq<seq<Cell>>, tail: seq<Cell>, derived: seq<Cell>, source: seq<Cell>)
    requires |front| == HEADER_BYTES && |derived| == KEY_BYTES && Sized(records)
    requires source == front + EncodedRecords(records, derived) + tail
    ensures EntryStart(|records|) + |tail| == |source| && Records(source, derived, |records|) == records
  {
    hide RecordKey, Masked;
    EncodedSize(records, derived);
    if records != [] {
      var k := |records| - 1;
      var before := EncodedRecords(records[..k], derived);
      var part := Masked(records[k], RecordKey(derived, k));
      EncodedSize(records[..k], derived);
      assert source == (front + before) + part + tail;
      Middle(front + before, part, tail, source);
      RecordsComeBack(front, records[..k], part + tail, derived, source);
      OneMoreRecord(source, derived, k, records[k]);
      assert records == records[..k] + [records[k]];
    }
  }

  lemma FirstTwo(a: seq<Cell>, b: seq<Cell>, c: seq<Cell>, d: seq<Cell>, source: seq<Cell>)
    requires source == a + b + c + d
    ensures |source| >= |a| + |b| && source[..|a|] == a
    ensures source[|a|..|a| + |b|] == b && source[..|a| + |b|] == a + b
  {
  }

  /** The key block and the header of an enciphered database. */
  lemma FrontComesBack(seed: seq<Cell>, db: Database)
    requires |seed| == KEY_BYTES && DatabaseValid(db)
    ensures var source := Encode(seed, db);
            && |source| >= HEADER_BYTES && DerivedKey(source) == Masked(seed, KEY) && HeaderOf(source) == db.header
            && source[..HEADER_BYTES] == seed + Masked(db.header, Masked(seed, KEY))
  {
    hide Masked, EncodedRecords, HeaderValid;
    HeaderHasWords(db.header);
    var derived := Masked(seed, KEY);
    var source := Encode(seed, db);
    FirstTwo(seed, Masked(db.header, derived), EncodedRecords(db.records, derived), db.suffix, source);
    MaskTwice(db.header, derived);
  }

  /**
   * Decoding recovers the header, every record and the suffix of any database enciphered this way whose records
   * parse.
   */
  lemma DecodeAfterEncode(seed: seq<Cell>, db: Database, parser: Parser)
    requires |seed| == KEY_BYTES && DatabaseValid(db)
    ensures Decode(Encode(seed, db), parser) == if AllParse(db.records, parser) then Ok(db) else Err(Invalid)
  {
    hide RecordKey, Masked, EncodedRecords, Records, HeaderValid, DerivedKey, HeaderOf, WordAt;
    HeaderHasWords(db.header);
    var derived := Masked(seed, KEY);
    var source := Encode(seed, db);
    FrontComesBack(seed, db);
    EncodedSize(db.records, derived);
    assert source == source[..HEADER_BYTES] + EncodedRecords(db.records, derived) + db.suffix;
    RecordsComeBack(source[..HEADER_BYTES], db.records, db.suffix, derived, source);
    assert source[EntryStart(|db.records|)..] == db.suffix;
  }

  lemma {:induction false} EncodedAgain(source: seq<Cell>, derived: seq<Cell>, n: nat)
    requires |derived| == KEY_BYTES && EntryStart(n) <= |source|
    ensures Sized(Records(source, derived, n))
    ensures EncodedRecords(Records(source, derived, n), derived) == source[HEADER_BYTES..EntryStart(n)]
  {
    hide RecordKey, Masked;
    if n > 0 {
      var k := n - 1;
      EncodedAgain(source, derived, k);
      var records := Records(source, derived, n);
      assert records[..k] == Records(source, derived, k);
      MaskTwice(source[EntryStart(k)..EntryStart(n)], RecordKey(derived, k));
      assert source[HEADER_BYTES..EntryStart(n)]
             == source[HEADER_BYTES..EntryStart(k)] + source[EntryStart(k)..EntryStart(n)];
    }
  }

  lemma Pieces(source: seq<Cell>, end: nat)
    requires HEADER_BYTES <= end <= |source|
    ensures source == source[..KEY_BYTES] + source[KEY_BYTES..HEADER_BYTES] + source[HEADER_BYTES..end] + source[end..]
  {
  }

  /** Whatever decodes is the encoding of what it decodes to, under its own key block. */
  lemma EncodeAfterDecode(source: seq<Cell>, parser: Parser)
    requires Decode(source, parser).Ok?
    ensures DatabaseValid(Decode(source, parser).value) && AllParse(Decode(source, parser).value.records, parser)
    ensures Encode(source[..KEY_BYTES], Decode(source, parser).value) == source
  {
    hide RecordKey, Masked, EncodedRecords, Records, HeaderValid, WordAt;
    var derived, db := DerivedKey(source), Decode(source, parser).value;
    HeaderHasWords(db.header);
    var count := WordAt(db.header, 44);
    EncodedAgain(source, derived, count);
    MaskTwice(source[KEY_BYTES..HEADER_BYTES], derived);
    Pieces(source, EntryStart(count));
  }

  // ----- What decodes, in plain numbers -----

  predicate Spells(s: seq<Cell>, text: string) {
    |s| == |text| && forall i :: 0 <= i < |s| ==> Index(s[i]) == text[i] as int
  }

  function NumberAt(h: seq<Cell>, at: nat): nat
    requires at + 4 <= |h|
  {
    Index(h[at]) + 256 * Index(h[at + 1]) + 65536 * Index(h[at + 2]) + 16777216 * Index(h[at + 3])
  }

  lemma NumberMeans(h: seq<Cell>, at: nat)
    requires at + 4 <= |h|
    ensures WordAt(h, at) == NumberAt(h, at)
  {
  }

  lemma MagicSpells()
    ensures Spells(MAGIC, "ALCORFLASHCFG_SZ")
  {
    hide Index;
    MagicFront();
    MagicBack();
  }

  lemma MagicFront()
    ensures Index(0x41) == 'A' as int && Index(0x4C) == 'L' as int && Index(0x43) == 'C' as int
    ensures Index(0x4F) == 'O' as int && Index(0x52) == 'R' as int && Index(0x46) == 'F' as int
  {
  }

  lemma MagicBack()
    ensures Index(0x53) == 'S' as int && Index(0x48) == 'H' as int && Index(0x47) == 'G' as int
    ensures Index(0x5F) == '_' as int && Index(0x5A) == 'Z' as int
  {
  }

  lemma SpellsOneText(a: seq<Cell>, b: seq<Cell>, text: string)
    requires Spells(b, text)
    ensures Spells(a, text) <==> a == b
  {
    hide Index;
    if Spells(a, text) {
      forall i | 0 <= i < |a|
        ensures a[i] == b[i]
      {
        SameIndex(a[i], b[i]);
      }
    }
  }

  /** A header names itself, version 4 and records of 662 bytes, and counts between one and a hundred thousand. */
  predicate Announces(h: seq<Cell>) {
    && |h| == 256 && Spells(h[..16], "ALCORFLASHCFG_SZ")
    && NumberAt(h, 36) == 4 && NumberAt(h, 40) == 662 && 1 <= NumberAt(h, 44) <= 100000
  }

  lemma HeaderAnnounces(h: seq<Cell>)
    ensures HeaderValid(h) <==> Announces(h)
  {
    hide Spells, WordAt, NumberAt;
    if |h| == 256 {
      MagicSpells();
      SpellsOneText(h[..16], MAGIC, "ALCORFLASHCFG_SZ");
      NumberMeans(h, 36);
      NumberMeans(h, 40);
      NumberMeans(h, 44);
    }
  }

  lemma {:induction false} CellWraps(i: nat)
    ensures Index(CellOf(i)) == i % 256
  {
    hide Following, Index;
    if i == 0 {
      ZeroCounts();
    } else {
      CellWraps(i - 1);
      FollowingWraps(CellOf(i - 1));
      SumOnce(i - 1, 1);
    }
  }

  lemma NotMeets(a: Cell)
    ensures Plus(Not(a), a) == 255
  {
  }

  lemma NotCounts(a: Cell)
    ensures Index(Not(a)) == 255 - Index(a)
  {
    hide Index, Plus, Not;
    NotMeets(a);
    PlusCounts(Not(a), a);
    LargestCell();
  }

  /** The key of a record: the derived key but for its first byte, the record number, and its last, the complement. */
  predicate KeyOfRecord(key: seq<Cell>, derived: seq<Cell>, k: nat) {
    && |key| == |derived| == 256 && Index(key[0]) == k % 256 && Index(key[255]) == 255 - k % 256
    && key[1..255] == derived[1..255]
  }

  lemma RecordKeyIs(derived: seq<Cell>, k: nat)
    requires |derived| == KEY_BYTES
    ensures KeyOfRecord(RecordKey(derived, k), derived, k)
  {
    hide Index, CellOf, Not;
    CellWraps(k);
    NotCounts(CellOf(k));
  }

  /** The record numbered `k` of a source, deciphered under the key for that number, parses. */
  predicate RecordParses(source: seq<Cell>, derived: seq<Cell>, k: nat, parser: Parser)
    requires |derived| == KEY_BYTES && 512 + 662 * (k + 1) <= |source|
  {
    parser(k, Masked(source[512 + 662 * k..512 + 662 * (k + 1)], RecordKey(derived, k)))
  }

  lemma RecordLies(source: seq<Cell>, derived: seq<Cell>, k: nat)
    requires |derived| == KEY_BYTES && EntryStart(k + 1) <= |source|
    ensures 512 + 662 * (k + 1) <= |source|
    ensures RecordAt(source, derived, k)
            == Masked(source[512 + 662 * k..512 + 662 * (k + 1)], RecordKey(derived, k))
  {
    hide Masked, RecordKey;
    assert EntryStart(k) == 512 + 662 * k && EntryStart(k + 1) == 512 + 662 * (k + 1);
  }

  lemma RecordIs(source: seq<Cell>, derived: seq<Cell>, k: nat, n: nat, parser: Parser)
    requires |derived| == KEY_BYTES && EntryStart(n) <= |source| && k < n
    ensures parser(k, Records(source, derived, n)[k]) == RecordParses(source, derived, k, parser)
  {
    hide Masked, RecordKey, Records, RecordAt;
    RecordsStay(source, derived, k, n);
    RecordLies(source, derived, k);
  }

  lemma RecordsParseIff(source: seq<Cell>, derived: seq<Cell>, n: nat, parser: Parser)
    requires |derived| == KEY_BYTES && EntryStart(n) <= |source|
    ensures AllParse(Records(source, derived, n), parser) <==>
            forall k :: 0 <= k < n ==> RecordParses(source, derived, k, parser)
  {
    hide RecordParses, Records;
    forall k | 0 <= k < n
      ensures parser(k, Records(source, derived, n)[k]) == RecordParses(source, derived, k, parser)
    {
      RecordIs(source, derived, k, n, parser);
    }
  }

  /**
   * A source decodes exactly when it has an allowed size, its deciphered header announces a database that the source
   * holds in full, and every record parses.
   */
  lemma DecodesIff(source: seq<Cell>, parser: Parser)
    ensures Decode(source, parser).Ok? <==>
            && 512 <= |source| <= 0x400_0000 && Announces(HeaderOf(source))
            && 512 + 662 * NumberAt(HeaderOf(source), 44) <= |source|
            && forall k :: 0 <= k < NumberAt(HeaderOf(source), 44) ==>
                             RecordParses(source, DerivedKey(source), k, parser)
  {
    hide Masked, RecordKey, WordAt, NumberAt, Spells, HeaderValid, DerivedKey, HeaderOf;
    if 512 <= |source| <= 0x400_0000 {
      var h, derived := HeaderOf(source), DerivedKey(source);
      HeaderAnnounces(h);
      if HeaderValid(h) {
        HeaderHasWords(h);
        NumberMeans(h, 44);
        var n := WordAt(h, 44);
        if EntryStart(n) <= |source| {
          RecordsParseIff(source, derived, n, parser);
        }
      }
    }
  }
}
