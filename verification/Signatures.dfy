/** The search for partition and filesystem signatures in the first and the last sectors. */
module Signatures {
  import opened Wrappers
  import opened Bytes
  import opened Lba

  const CHECKED_SECTORS: nat := 64

  datatype Signature = Mbr | Gpt | ExFat | Fat | Ext

  const EFI_PART: seq<byte> := [0x45, 0x46, 0x49, 0x20, 0x50, 0x41, 0x52, 0x54]
  const EXFAT: seq<byte> := [0x45, 0x58, 0x46, 0x41, 0x54, 0x20, 0x20, 0x20]
  const FAT12: seq<byte> := [0x46, 0x41, 0x54, 0x31, 0x32, 0x20, 0x20, 0x20]
  const FAT16: seq<byte> := [0x46, 0x41, 0x54, 0x31, 0x36, 0x20, 0x20, 0x20]
  const FAT32: seq<byte> := [0x46, 0x41, 0x54, 0x33, 0x32, 0x20, 0x20, 0x20]

  predicate StandsAt(data: seq<byte>, pattern: seq<byte>, i: nat) {
    i + |pattern| <= |data| && data[i..i + |pattern|] == pattern
  }

  predicate Contains(data: seq<byte>, pattern: seq<byte>) {
    exists i :: 0 <= i <= |data| && StandsAt(data, pattern, i)
  }

  /** An entry of the partition table, from `at`, that is not empty. */
  predicate PartitionEntry(data: seq<byte>, at: nat)
    requires at + 16 <= |data|
  {
    || 1 <= data[at] <= 0x80 || data[at + 4] != 0
    || data[at + 8..at + 12] != [0, 0, 0, 0]
  }

  predicate Detected(s: Signature, data: seq<byte>) {
    match s
    case Mbr =>
      && |data| >= 512 && data[510] == 0x55 && data[511] == 0xAA
      && exists k :: 0 <= k < 4 && PartitionEntry(data, 446 + 16 * k)
    case Gpt => Contains(data, EFI_PART)
    case ExFat => Contains(data, EXFAT)
    case Fat =>
      && |data| >= 90 && (data[0] == 0xEB || data[0] == 0xE9)
      && (data[54..62] == FAT12 || data[54..62] == FAT16 || data[82..90] == FAT32)
    case Ext => |data| >= 0x43A && data[0x438] == 0x53 && data[0x439] == 0xEF
  }

  /** The names that are reported, each once. */
  function Detect(data: seq<byte>): set<Signature> {
    set s | s in {Mbr, Gpt, ExFat, Fat, Ext} && Detected(s, data)
  }

  /** Start and length of the regions, in sectors. */
  function Regions(sectors: nat): (s: seq<(nat, nat)>)
    ensures forall i :: 0 <= i < |s| ==> s[i].0 + s[i].1 <= sectors
  {
    [(0, Min(CHECKED_SECTORS, sectors))]
    + if sectors > CHECKED_SECTORS then [(sectors - CHECKED_SECTORS, CHECKED_SECTORS)] else []
  }

  function Region(content: seq<byte>, region: (nat, nat)): seq<byte>
    requires region.0 + region.1 <= |content| / SECTOR
  {
    content[region.0 * SECTOR..(region.0 + region.1) * SECTOR]
  }

  /** What the first `n` regions hold. */
  function Found(content: seq<byte>, n: nat): set<Signature>
    requires n <= |Regions(|content| / SECTOR)|
  {
    if n == 0 then {} else Found(content, n - 1) + Detect(Region(content, Regions(|content| / SECTOR)[n - 1]))
  }

  method CheckSignatures(dev: LbaDevice) returns (r: Result<set<Signature>>)
    modifies dev`operations
    ensures var n, first := |Regions(|dev.content| / SECTOR)|, old(dev.operations);
            && (r.Ok? <==> NoFaults(dev.faults, first, n))
            && (r.Ok? ==> r.value == Found(dev.content, n) && dev.operations == first + n)
            && (r.Err? ==> r.error == Io)
  {
    hide Detect;
    var found: set<Signature>, regions := {}, Regions(|dev.content| / SECTOR);
    ghost var first := dev.operations;
    for i := 0 to |regions|
      invariant dev.operations == first + i && NoFaults(dev.faults, first, i)
      invariant found == Found(dev.content, i)
    {
      var (start, count) := regions[i];
      assert start + count <= |dev.content| / SECTOR;
      var read := dev.ReadAt(start * SECTOR, count * SECTOR);
      if read.None? {
        return Err(Io);
      }
      found := found + Detect(read.value);
    }
    return Ok(found);
  }

  // ----- Blank contents -----

  predicate AllAre(data: seq<byte>, v: byte) { forall i :: 0 <= i < |data| ==> data[i] == v }

  lemma ContainsNeeds(data: seq<byte>, pattern: seq<byte>, v: byte)
    requires AllAre(data, v) && |pattern| > 0 && pattern[0] != v
    ensures !Contains(data, pattern)
  {
    forall i: nat
      ensures !StandsAt(data, pattern, i)
    {
      if i + |pattern| <= |data| {
        assert data[i..i + |pattern|][0] == v;
      }
    }
  }

  /** Data of one blank value carry no signature. */
  lemma BlankHasNone(data: seq<byte>, v: byte)
    requires AllAre(data, v) && (v == 0x00 || v == 0xFF)
    ensures Detect(data) == {}
  {
    ContainsNeeds(data, EFI_PART, v);
    ContainsNeeds(data, EXFAT, v);
  }

  lemma {:induction false} NoneFound(content: seq<byte>, n: nat, v: byte)
    requires AllAre(content, v) && (v == 0x00 || v == 0xFF) && n <= |Regions(|content| / SECTOR)|
    ensures Found(content, n) == {}
  {
    hide Detect;
    if n > 0 {
      NoneFound(content, n - 1, v);
      BlankHasNone(Region(content, Regions(|content| / SECTOR)[n - 1]), v);
    }
  }

  // ----- What is found -----

  function CodeOf(c: char): byte { c as int % 256 }

  /** ASCII text as bytes. */
  function Text(t: string): (b: seq<byte>)
    ensures |b| == |t|
  {
    seq(|t|, i requires 0 <= i < |t| => CodeOf(t[i]))
  }

  lemma PatternsAreText()
    ensures EFI_PART == Text("EFI PART") && EXFAT == Text("EXFAT   ")
    ensures FAT12 == Text("FAT12   ") && FAT16 == Text("FAT16   ") && FAT32 == Text("FAT32   ")
  {
  }

  /** The partition entry at `at` says something: a boot flag or first byte, a type, or a start. */
  predicate EntrySpeaks(data: seq<byte>, at: nat)
    requires at + 16 <= |data|
  {
    0 < data[at] < 0x81 || data[at + 4] > 0 || exists i :: at + 8 <= i < at + 12 && data[i] != 0
  }

  predicate SomePartition(data: seq<byte>)
    requires |data| >= 512
  {
    EntrySpeaks(data, 446) || EntrySpeaks(data, 462) || EntrySpeaks(data, 478) || EntrySpeaks(data, 494)
  }

  lemma EntryIff(data: seq<byte>, at: nat)
    requires at + 16 <= |data|
    ensures PartitionEntry(data, at) <==> EntrySpeaks(data, at)
  {
    var start := data[at + 8..at + 12];
    if start != [0, 0, 0, 0] {
      assert start[0] != 0 || start[1] != 0 || start[2] != 0 || start[3] != 0;
      assert start[0] == data[at + 8] && start[1] == data[at + 9] && start[2] == data[at + 10]
             && start[3] == data[at + 11];
    }
    if i :| at + 8 <= i < at + 12 && data[i] != 0 {
      assert start[i - at - 8] == data[i];
    }
  }

  lemma PartitionIff(data: seq<byte>)
    requires |data| >= 512
    ensures (exists k :: 0 <= k < 4 && PartitionEntry(data, 446 + 16 * k)) <==> SomePartition(data)
  {
    hide PartitionEntry, EntrySpeaks;
    EntryIff(data, 446);
    EntryIff(data, 462);
    EntryIff(data, 478);
    EntryIff(data, 494);
    assert PartitionEntry(data, 446 + 16 * 0) == PartitionEntry(data, 446);
    assert PartitionEntry(data, 446 + 16 * 1) == PartitionEntry(data, 462);
    assert PartitionEntry(data, 446 + 16 * 2) == PartitionEntry(data, 478);
    assert PartitionEntry(data, 446 + 16 * 3) == PartitionEntry(data, 494);
  }

  /** `t` stands somewhere in the data. */
  predicate Holds(data: seq<byte>, t: seq<byte>) {
    exists i :: 0 <= i <= |data| - |t| && HasAt(data, t, i)
  }

  predicate HasAt(data: seq<byte>, t: seq<byte>, i: int) {
    0 <= i <= |data| - |t| && forall k :: 0 <= k < |t| ==> data[i + k] == t[k]
  }

  lemma HoldsIff(data: seq<byte>, t: seq<byte>)
    ensures Contains(data, t) <==> Holds(data, t)
  {
    forall i: nat
      ensures StandsAt(data, t, i) <==> HasAt(data, t, i)
    {
      if HasAt(data, t, i) {
        assert data[i..i + |t|] == t;
      }
      if StandsAt(data, t, i) {
        forall k | 0 <= k < |t|
          ensures data[i + k] == t[k]
        {
          assert data[i..i + |t|][k] == data[i + k];
        }
      }
    }
    if i :| 0 <= i <= |data| && StandsAt(data, t, i) {
      assert HasAt(data, t, i);
    }
    if i :| 0 <= i <= |data| - |t| && HasAt(data, t, i) {
      assert StandsAt(data, t, i);
    }
  }

  /** What each name stands for, in the bytes and the text of the region. */
  lemma DetectedMeans(data: seq<byte>)
    ensures Mbr in Detect(data) <==> |data| >= 512 && data[510] == 85 && data[511] == 170 && SomePartition(data)
    ensures Gpt in Detect(data) <==> Holds(data, Text("EFI PART"))
    ensures ExFat in Detect(data) <==> Holds(data, Text("EXFAT   "))
    ensures Fat in Detect(data) <==>
            && |data| >= 90 && data[0] in {235, 233}
            && (HasAt(data, Text("FAT12   "), 54) || HasAt(data, Text("FAT16   "), 54)
                || HasAt(data, Text("FAT32   "), 82))
    ensures Ext in Detect(data) <==> |data| >= 1082 && data[1080] == 83 && data[1081] == 239
  {
    hide PartitionEntry, SomePartition, Contains, Holds, Text;
    PatternsAreText();
    HoldsIff(data, EFI_PART);
    HoldsIff(data, EXFAT);
    if |data| >= 512 {
      PartitionIff(data);
    }
    if |data| >= 90 {
      SliceIff(data, 54, FAT12);
      SliceIff(data, 54, FAT16);
      SliceIff(data, 82, FAT32);
    }
  }

  lemma SliceIff(data: seq<byte>, at: nat, t: seq<byte>)
    requires at + |t| <= |data|
    ensures data[at..at + |t|] == t <==> HasAt(data, t, at)
  {
    if data[at..at + |t|] == t {
      forall k | 0 <= k < |t|
        ensures data[at + k] == t[k]
      {
        assert data[at..at + |t|][k] == data[at + k];
      }
    }
    if HasAt(data, t, at) {
      assert data[at..at + |t|] == t;
    }
  }

  lemma SmallRegion(content: seq<byte>)
    requires |content| % 512 == 0 && |content| <= 32_768
    ensures |Regions(|content| / SECTOR)| == 1
    ensures Region(content, Regions(|content| / SECTOR)[0]) == content
  {
    var sectors := |content| / 512;
    assert |content| == 512 * sectors;
    assert content[0..|content|] == content;
  }

  lemma LargeRegions(content: seq<byte>)
    requires |content| % 512 == 0 && |content| > 32_768
    ensures |Regions(|content| / SECTOR)| == 2
    ensures Region(content, Regions(|content| / SECTOR)[0]) == content[..32_768]
    ensures Region(content, Regions(|content| / SECTOR)[1]) == content[|content| - 32_768..]
  {
    var sectors := |content| / 512;
    assert |content| == 512 * sectors;
  }

  /** The search covers the first 32 KiB of the device and its last 32 KiB, or all of a smaller one. */
  lemma RegionsAre(content: seq<byte>, s: Signature)
    requires |content| % 512 == 0
    ensures s in Found(content, |Regions(|content| / SECTOR)|) <==>
            if |content| <= 32_768 then s in Detect(content)
            else s in Detect(content[..32_768]) || s in Detect(content[|content| - 32_768..])
  {
    hide Detect, Region, Regions;
    assert Found(content, 0) == {};
    if |content| <= 32_768 {
      SmallRegion(content);
    } else {
      LargeRegions(content);
      assert Found(content, 1) == Found(content, 0) + Detect(content[..32_768]);
    }
  }

  lemma HeldIn(data: seq<byte>, t: seq<byte>, i: nat)
    requires HasAt(data, t, i)
    ensures Holds(data, t)
  {
  }

  /** A boot record with a partition, and a GPT header in the second or in the last sector, are always found. */
  lemma TablesAreFound(content: seq<byte>)
    requires |content| % 512 == 0 && |content| >= 1024
    ensures content[510] == 0x55 && content[511] == 0xAA && content[450] != 0 ==>
              Mbr in Found(content, |Regions(|content| / SECTOR)|)
    ensures HasAt(content, Text("EFI PART"), 512) || HasAt(content, Text("EFI PART"), |content| - 512) ==>
              Gpt in Found(content, |Regions(|content| / SECTOR)|)
  {
    hide Detect, Found, Holds, Text;
    RegionsAre(content, Mbr);
    RegionsAre(content, Gpt);
    var first := if |content| <= 32_768 then content else content[..32_768];
    var last := if |content| <= 32_768 then content else content[|content| - 32_768..];
    DetectedMeans(first);
    DetectedMeans(last);
    if content[510] == 0x55 && content[511] == 0xAA && content[450] != 0 {
      assert first[510] == 85 && first[511] == 170 && first[446 + 4] > 0;
      assert EntrySpeaks(first, 446);
    }
    var header := Text("EFI PART");
    if HasAt(content, header, 512) {
      assert HasAt(first, header, 512);
      HeldIn(first, header, 512);
    }
    if HasAt(content, header, |content| - 512) {
      assert HasAt(last, header, |last| - 512);
      HeldIn(last, header, |last| - 512);
    }
  }
}
