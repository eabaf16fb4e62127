# Verification model of nclr

`nclr` erases and reinitialises NAND media and has to survive a power loss at any byte. This project models the
engines that carry that promise and proves properties of them over all inputs and whole runs; what the model does not
cover is listed at the end. `dafny verify dfyconfig.toml` checks all of it with Dafny 4.11.

## What is modelled

**Controller state file.** `StateStore` is the two-slot file: its descriptor format, `LoadState`, and a `StateFile`
whose methods write, sync and record every disk they pass through. A disk knows its unsynced ranges; after a power
loss those bytes may be anything. `CrashSafety` proves what one store leaves behind at each point, `StoreRuns` what
whole runs of stores, refusals, power losses and process deaths keep. One assumption is made about torn writes and
named `TearDetected`: a descriptor caught half written parses as nothing, as the old one or as the new one, which is
what its 32-byte checksum is for. `StateFormat` says byte for byte what a slot must hold to be loaded, and that a
payload or a descriptor without its digest never is.

The header of `controller_recipe.rs` (line 6) calls this file crash-consistent without qualification. That holds for
power losses, and for processes that die with the machine up, at every point but one: after the descriptor write and
before its sync. Then the next process reads the unsynced descriptor and takes it for durable. `RestartSafety` tells
two consequences apart. A power loss may take the file back behind what that process read; `RestartSafeIff` proves
that this happens in that window and nowhere else. And since that process overwrites the only slot that really is
durable, a power loss may leave no valid slot at all; `WindowLosesState` gives the run and `StateSurvivesIff` the
exact condition.

**Metadata codec.** `Geometry` and `FieldCodec` are coordinates, integer fields and the three block-address layouts.
`Checksum`, `ChecksumReflection` and `ChecksumMeaning` are the configurable checksums and the ONFI parameter-page CRC
(ONFI 3.0, section 5.7.1), the latter an instance of the former. `Metadata` builds bad-block tables and FTL payloads
and decodes tables; `MetadataTheorems`, `MetadataSuccess` and `FtlTheorems` prove non-interference, the round trip,
when building succeeds, and that setting the commit byte keeps integrity.

**Recipe commands.** `CommandBuilder` holds value operations, bindings, CDB and payload building and the validator,
`Responses` the rules for what comes back, `Words` and `Claims` their bitwise operators and byte claims.
`CommandTheorems` proves that an accepted command can be built for every in-range context. The one value validation
does not try is the generation: the theorems say exactly when it fails, and `GenerationIsNotSwept` shows that it can.

**Journal.** `Journal` is the hash-chained log: appending, reading, torn-tail repair, summaries. `JournalSafety`
proves what an accepted journal is and that crashes and reopenings keep exactly the committed records. `record` does
not check that a completion was started, although the reader does: `UnstartedCompletionIsWritten` is such a history,
and `HistoryReadsBackIff` says precisely which histories read back. `RecordAfterFailedWriteIff` says when a writer may
go on after a failed write. `CivilDate` is the days-to-date algorithm (leap rule of Appendix C of RFC 3339).

**Physical sweep and C4.** `Sweep` and `SweepRun` are the counters and the nested sweep over an arbitrary answer per
page, with every place where it may stop early; `SweepTheorems` proves what its report means, `SweepHash` that its
hash input decodes in one way only, `GradeC4` that the C4 grade qualifies exactly when every page in scope is clean.

**PS2303 loader.** `Loader` is the signed response envelope and the session object with its device counter;
`LoaderRuns` proves the fail-stop property over runs. `Onfi` reads the three copies of the parameter page and proves
that a copy damaged in two adjacent bytes never becomes another geometry; `OnfiPage` is the page written field by
field, which reads back. `PramTransfer` is image validation, chunk tiling, acknowledgement and start, `PramImage` the
accepted images and their chunks byte by byte.

**Logical overwrite.** `Prbs` is the pattern generator, `Lba` the write and verify passes over a device whose every
operation may fail and whose caller may abort, `Signatures` the search for partition and filesystem signatures,
`Blank` the blank sweep and the postcheck.

**Alcor.** `AlcorCipher` is the stream cipher with its self-swap quirk, `FlashDatabase` the database it protects,
`AlcorAddress` the address-word generator.

`Wrappers` and `Bytes` hold outcome types, byte orders and overlays.

## Reading the model

JSON writing and parsing, SHA-256 and the UTF-8 check are parameters (`Codec`, `Hash`). Their `Sound` predicates ask
for no more than that parsing undoes writing, that a digest has its length, and that a written line holds no newline.
Where digests must not collide, the theorem says so about the inputs at hand. Methods follow the loops and in-place
updates of the source and are proved against a specification function; the theorems are about those functions. Where a
table, a chain of tests or a list of fields decides what an operation does, a theorem also states the outcome without
those functions, in bytes, offsets and cases. Errors keep their kind and lose their text.

## Model

| member | source | states |
|---|---|---|
| `StateStore.DescriptorRoundTrip` | crates/nclr-core/src/controller_recipe.rs:2296-2332 | a written descriptor is 512 bytes and parses back, in its own slot, to the same sequence, length and digest |
| `StateStore.StateFile.LoadState` | crates/nclr-core/src/controller_recipe.rs:2341-2387 | the slot loop returns the newest slot whose descriptor, payload digest and embedded sequence agree; nothing for an empty or blank file; an error otherwise |
| `StateStore.StateFile.Commit` | crates/nclr-core/src/controller_recipe.rs:2413-2434 | allocation, payload write, sync, descriptor write, sync, in that order, each leaving its disk in the trail |
| `StateStore.StateFile.StoreState` | crates/nclr-core/src/controller_recipe.rs:2389-2435 | stores the loaded sequence plus one (or zero) through exactly those steps, or changes nothing and reports why |
| `StateFormat.SlotStateIff` | crates/nclr-core/src/controller_recipe.rs:2296-2387 | a slot holds a state if and only if its 512 descriptor bytes carry the magic, the slot number and, in bytes 64 to 95, the digest of the first 64; the data area starts with a payload of the recorded length and digest; and that payload parses to the state with the recorded sequence |
| `StateFormat.LoadFindsIff` | crates/nclr-core/src/controller_recipe.rs:2341-2387 | loading returns a state if and only if the file has its full size and a slot attests that state in this way, with no newer state in the other; of two equal numbers the second slot wins |
| `StateFormat.LoadFindsNothingIff` | crates/nclr-core/src/controller_recipe.rs:2376-2387 | loading finds nothing if and only if the file is empty, or has its full size and all 1024 descriptor bytes are zero |
| `StateFormat.DamagedPayloadIsNotLoaded` | crates/nclr-core/src/controller_recipe.rs:2357-2375 | a committed file whose newest payload is overwritten by bytes of another digest never loads that slot: the older one is loaded, or loading fails |
| `StateFormat.DamagedDescriptorIsNotLoaded` | crates/nclr-core/src/controller_recipe.rs:2312-2332 | nor does one whose newest descriptor is overwritten by 512 bytes without the digest of their head in bytes 64 to 95 |
| `StateFormat.NextStateIff` | crates/nclr-core/src/controller_recipe.rs:2389-2412 | a store goes through if and only if loading does not fail, the next number fits 64 bits and the text is 1 to 67108864 bytes long; it numbers from zero in a file without state and one further otherwise |
| `StateFormat.StoredStateIsAttested` | crates/nclr-core/src/controller_recipe.rs:2389-2435 | the file a store leaves attests the stored state in the slot of its number's parity |
| `CrashSafety.StoreIsCrashSafe` | crates/nclr-core/src/controller_recipe.rs:2389-2435 | a power loss at any step, with any bytes in unsynced ranges, leaves the old or the new state committed: the old one before the descriptor write, the new one after the store returned |
| `CrashSafety.StoreSparesLoadedSlot` | crates/nclr-core/src/controller_recipe.rs:2400-2434 | no step of a store touches the descriptor or data area of the slot that loading would return |
| `CrashSafety.FirstStoreCrash` | crates/nclr-core/src/controller_recipe.rs:2376-2387 | a crash in the very first store, also one into a file a dead process left, leaves a fresh file, the new state, or a torn first descriptor, by step |
| `StoreRuns.CommittedStep` | crates/nclr-core/src/controller_recipe.rs:2389-2435 | every event of a run (store, refused store, power loss at any point, process death anywhere but between descriptor write and sync) keeps a committed disk committed, with the old state or the attempted one |
| `StoreRuns.DeathKeeps` | crates/nclr-core/src/controller_recipe.rs:2413-2434 | a process that dies without a power loss, even in the middle of the payload write, leaves the old state committed, or the new one after the last sync |
| `StoreRuns.LoadedStateIsNeverLost` | crates/nclr-core/src/controller_recipe.rs:2341-2435 | over whole runs of stores, refusals, power losses and process deaths outside that window: once a load found a state, every later load finds one, the same or one a later store set out to commit, with a sequence that never goes back |
| `StoreRuns.StoredStateIsLoaded` | crates/nclr-core/src/controller_recipe.rs:2389-2435 | a store that returned is what the next load finds, one sequence number up, in the slot of its parity |
| `StoreRuns.FirstStoreOutcomes` | crates/nclr-core/src/controller_recipe.rs:2376-2387 | a load that finds nothing or fails can only happen before any store has returned, on a fresh file or a torn first descriptor |
| `StoreRuns.FirstDeath` | crates/nclr-core/src/controller_recipe.rs:2376-2434 | a process that dies in the very first store leaves a file that still loads as empty, or the new state after the last sync |
| `RestartSafety.RestartSafeIff` | crates/nclr-core/src/controller_recipe.rs:2389-2435 | after a process death every power loss leaves what the next process read or set out to commit, if and only if the death did not fall between descriptor write and sync; for every later state, stored or refused |
| `RestartSafety.WindowRollsBack` | crates/nclr-core/src/controller_recipe.rs:2423-2434 | in that window losing the unsynced descriptor takes the next process back behind the state it read |
| `RestartSafety.StateSurvivesIff` | crates/nclr-core/src/controller_recipe.rs:2389-2435 | a power loss can leave no state at all if and only if the death fell in that window, the next store was not refused, and some bytes of its payload's length over the older slot make that slot unacceptable |
| `RestartSafety.WindowLosesState` | crates/nclr-core/src/controller_recipe.rs:2376-2434 | the run that loses everything: both slots void after a power loss in the next process's payload write |
| `Geometry.CoordinateFlattens` | crates/nclr-core/src/controller_recipe.rs:2437-2470 | every flat block below the total has one in-range coordinate, which flattens back to it |
| `Geometry.FlattenedHasCoordinate` | crates/nclr-core/src/controller_recipe.rs:2437-2470 | every in-range (channel, chip, LUN, block) is the coordinate of exactly its flat number |
| `FieldCodec.WriteInteger` | crates/nclr-core/src/controller_recipe.rs:2106-2128 | the in-place field write changes the field's bytes to the value's encoding and nothing else, or fails and changes nothing |
| `FieldCodec.GetAfterPut` | crates/nclr-core/src/controller_recipe.rs:2106-2147 | a field reads back as the value put there, in both byte orders and every width up to eight |
| `FieldCodec.PutAfterGet` | crates/nclr-core/src/controller_recipe.rs:2106-2147 | writing a field's own value back changes no byte |
| `FieldCodec.FieldDigits` | crates/nclr-core/src/controller_recipe.rs:2119-2127 | byte i of an encoded field is the digit of weight 256 to the power i, or, in big-endian order, of the weight counted from the other end |
| `FieldCodec.GetAllAfterPutAll` | crates/nclr-core/src/controller_recipe.rs:2106-2147 | fields with disjoint ranges never clobber each other: each reads back as its own value |
| `FieldCodec.WriteBlockAddress` | crates/nclr-core/src/controller_recipe.rs:2568-2635 | the in-place, field-by-field write of a block address leaves the bytes that decode back to the block, or the error of the first refused field |
| `FieldCodec.DecodeAfterEncode` | crates/nclr-core/src/controller_recipe.rs:2472-2635 | decoding an encoded flat block gives it back under the flat, coordinate and plane layouts |
| `FieldCodec.EncodeAfterDecode` | crates/nclr-core/src/controller_recipe.rs:2472-2635 | encoding what an in-range entry decodes to restores the entry's bytes |
| `FieldCodec.DecodesIffNamed` | crates/nclr-core/src/controller_recipe.rs:2472-2566 | an entry decodes to a block if and only if the fields named channel, chip, LUN, block (or plane and block in plane) hold a coordinate in range that flattens to it, or the flat field holds it |
| `Checksum.ComputeChecksum` | crates/nclr-core/src/controller_recipe.rs:2691-2750 | the byte-and-bit loops of the CRC, the sum and the xor compute the checksum that the laws below are about; unacceptable algorithms are refused |
| `Checksum.OnfiCrc16` | crates/nclr-core/src/phison_ps2303.rs:623-637 | the 16-bit loop computes the CRC whose agreement and error detection are proved below |
| `Checksum.OnfiIsConfiguredChecksum` | crates/nclr-core/src/phison_ps2303.rs:623-637 | on the same bytes that CRC is the result of the configurable checksum of width 2, polynomial 0x8005, initial value 0x4f4e, no final xor, not reflected |
| `Checksum.TwoByteErrorsAreCaught` | crates/nclr-core/src/phison_ps2303.rs:623-637 | two inputs of equal length that differ only within two consecutive bytes never share that CRC |
| `Checksum.SumCancels` | crates/nclr-core/src/controller_recipe.rs:2733-2747 | the bytes and their two's-complement checksum add up to zero at every width |
| `Checksum.XorCancels` | crates/nclr-core/src/controller_recipe.rs:2748-2749 | the exclusive or of the bytes and their checksum is zero |
| `ChecksumMeaning.SumIs` | crates/nclr-core/src/controller_recipe.rs:2733-2747 | the plain sum is the sum of the payload's bytes modulo 256 to the width, and bytes plus two's-complement checksum are a multiple of that |
| `ChecksumMeaning.XorIs` | crates/nclr-core/src/controller_recipe.rs:2748-2749 | the exclusive-or checksum is that of all bytes of the payload |
| `ChecksumMeaning.FinalXorFlips` | crates/nclr-core/src/controller_recipe.rs:2708-2732 | the final value of a CRC flips exactly the bits of its final xor, at every width and in both directions |
| `ChecksumReflection.ReflectedChecksumIsMirror` | crates/nclr-core/src/controller_recipe.rs:2691-2750 | at widths 1, 2, 4 and 8 the reflected checksum of a payload is the bit reversal of the non-reflected one with reversed parameters over the payload's reversed bytes |
| `Metadata.WriteChecksum` | crates/nclr-core/src/controller_recipe.rs:2752-2765 | writing a checksum in place leaves a payload whose stored checksum is that of its covered bytes, or fails |
| `Metadata.BuildBbt` | crates/nclr-core/src/controller_recipe.rs:2771-2834 | the in-place builder (filter, stable sort, header, fields, entries, commit byte, checksum) produces the table that the theorems below describe, or fails |
| `Metadata.DecodeOldBbt` | crates/nclr-core/src/controller_recipe.rs:2637-2689 | the reader with its set of seen blocks accepts exactly the tables without duplicates, out-of-range blocks or unknown states, and returns their entries |
| `Metadata.BuildFtl` | crates/nclr-core/src/controller_recipe.rs:2836-2877 | the in-place builder produces the payload that the theorems below describe, or fails |
| `MetadataTheorems.BuiltTableHolds` | crates/nclr-core/src/controller_recipe.rs:2771-2834 | in a built table generation, count, every entry's address and state, the commit byte, a valid checksum and every template or fill byte stand each in their own bytes |
| `MetadataTheorems.CommitKeepsTable` | crates/nclr-core/src/controller_recipe.rs:1784-1790 | changing only the commit byte keeps all of that, checksum included |
| `MetadataTheorems.TableNamesBlocks` | crates/nclr-core/src/controller_recipe.rs:2637-2834 | a built table decodes if and only if its kept blocks are apart and few enough; it then lists every factory-bad block as factory bad, every runtime-bad and quarantined one as runtime bad and every preserved or rebuilt system block as system; a block is absent if and only if it is unknown, data, erased or qualified |
| `MetadataTheorems.BbtRoundTrip` | crates/nclr-core/src/controller_recipe.rs:2637-2834 | a built table, prepared or committed, decodes if and only if its listed blocks are distinct, the reader admits that many and the geometry has a total; the result is the listed blocks, each once, in increasing flat order and in its class |
| `MetadataSuccess.BbtIsBuiltIff` | crates/nclr-core/src/controller_recipe.rs:1856-1891 | building a table fails exactly when it is too long, the generation or the count does not fit its field, or a listed block has no coordinate or does not fit the address fields |
| `MetadataSuccess.FtlIsBuiltIff` | crates/nclr-core/src/controller_recipe.rs:1892-1919 | building an FTL payload fails exactly when the table has no commit byte or a number does not fit its field |
| `FtlTheorems.BuiltFtlHolds` | crates/nclr-core/src/controller_recipe.rs:2836-2877 | in a built FTL payload the three numbers, the digest of the committed table, the marker, a valid checksum and every template byte stand each in their own bytes |
| `FtlTheorems.CommitKeepsFtl` | crates/nclr-core/src/controller_recipe.rs:1892-1919 | changing only the FTL commit byte keeps all of that, checksum included |
| `FtlTheorems.FtlCarriesReportedDigest` | crates/nclr-core/src/controller_recipe.rs:2903-2915 | prepared or committed, the FTL payload carries exactly the table digest that is reported |
| `CommandBuilder.ApplyValueOperations` | crates/nclr-core/src/controller_recipe.rs:1963-2003 | the loop applies the checked operations in order and stops at the first that overflows, underflows or divides by zero |
| `CommandBuilder.OperationsMean` | crates/nclr-core/src/controller_recipe.rs:1963-2003 | subtraction undoes addition, division multiplication, a right shift a left shift that did not overflow; quotient and remainder rebuild the value; and, or and xor act bit by bit |
| `CommandBuilder.OperationIff` | crates/nclr-core/src/controller_recipe.rs:1963-2003 | an operation gives a 64-bit result if and only if its equation has one, and then that one: sum, difference, product, quotient, remainder, shift, or bit by bit |
| `CommandTheorems.OperationsInOrder` | crates/nclr-core/src/controller_recipe.rs:1963-2003 | operations apply from left to right: a list run after another equals the two run as one, and fails where they do |
| `Claims.ClaimAll` | crates/nclr-core/src/controller_recipe.rs:1061-1079 | claiming bytes one by one in a set succeeds if and only if no two fields overlap |
| `CommandBuilder.BuildCdb` | crates/nclr-core/src/controller_recipe.rs:1937-1950 | the builder writes every binding's transformed value in place, or fails with the first that cannot be stored |
| `CommandBuilder.BuildContextPayload` | crates/nclr-core/src/controller_recipe.rs:2005-2055 | the builder fills one record, writes constants and bindings into it and repeats it to the transfer length, or fails |
| `CommandBuilder.ValidateCommand` | crates/nclr-core/src/controller_recipe.rs:1014-1375 | validation (CDB length, transfer direction, response rule, field layout, constants, exhaustive sweep of every bound source but the generation, a trial build for every block) decides exactly which commands the theorems below are about |
| `Responses.ValidateResponse` | crates/nclr-core/src/controller_recipe.rs:1642-1698 | the loops with their sets of names and bytes accept exactly the rules whose bounds, window, names, widths, masks and expected values agree and whose fields do not overlap |
| `Responses.DecodeResponse` | crates/nclr-core/src/controller_recipe.rs:2057-2091 | the decoding loop reads field after field under its mask and stops at the first unexpected value |
| `Responses.ValidRuleDecodes` | crates/nclr-core/src/controller_recipe.rs:1642-2104 | for a valid rule no field and no payload window lies outside a response of an allowed length: decoding fails exactly for a wrong signature or an unexpected value, and otherwise reads each field under its own name and nothing else |
| `Responses.RuleIff` | crates/nclr-core/src/controller_recipe.rs:1642-1698 | a rule is valid if and only if its bounds, prefix and window fit, every field is named, lies inside every allowed response, has a mask of its width and expects no bit its mask hides, no name recurs and no byte belongs to two fields |
| `Responses.DecodesIff` | crates/nclr-core/src/controller_recipe.rs:2057-2091 | a response decodes under a valid rule if and only if its length is allowed, it starts with the prefix, and every expected value agrees with the field bit by bit under the mask |
| `CommandTheorems.AcceptedCdbBuilds` | crates/nclr-core/src/controller_recipe.rs:1937-1950 | for an accepted command and any in-range context the CDB is built if and only if the generation bindings, which validation does not try, encode the generation |
| `CommandTheorems.GenerationIsNotSwept` | crates/nclr-core/src/controller_recipe.rs:1299-1322 | a concrete accepted command whose building fails for generation 256 |
| `CommandTheorems.CdbSaysWhatIsBound` | crates/nclr-core/src/controller_recipe.rs:1937-1950 | every bound field reads back as its transformed value, every other byte keeps the template, and the opcode byte never changes |
| `CommandTheorems.CdbCarriesContext` | crates/nclr-core/src/controller_recipe.rs:491-507 | in a built CDB the fields bound to channel, chip, LUN, plane, block, page, flat block, payload bytes, generation, user blocks and spare blocks read back as exactly those members of the context, each after its own operations |
| `CommandTheorems.CdbNamesOneBlock` | crates/nclr-core/src/controller_recipe.rs:491-507 | a CDB that carries a coordinate and a flat number names one block: the four read back and flatten to the fifth |
| `CommandTheorems.AcceptedPayloadBuilds` | crates/nclr-core/src/controller_recipe.rs:2005-2055 | for an accepted command and any in-range context the context payload is built if and only if the generation bindings encode |
| `CommandTheorems.PayloadSaysWhatIsBound` | crates/nclr-core/src/controller_recipe.rs:2005-2055 | a built payload has the transfer length, and every record in it holds the constants, the bound values and fill everywhere else |
| `CommandTheorems.PayloadCarriesContext` | crates/nclr-core/src/controller_recipe.rs:2005-2055 | every record of a built payload carries the eleven members of the context in the same way |
| `CommandTheorems.SweepIsExact` | crates/nclr-core/src/controller_recipe.rs:1299-1375 | trying each bound source value by value passes if and only if every in-range context encodes |
| `CommandTheorems.AcceptedIff` | crates/nclr-core/src/controller_recipe.rs:1014-1375 | a command is accepted if and only if CDB length, timeout, transfer and direction agree, its response rule is valid, every field lies behind the opcode in an allowed width with operations that can be applied, no byte belongs to two fields, and every in-range context encodes; a payload generated from the context must fill the transfer with whole records of fitting, disjoint constants and fields, encode every in-range context too, and generation zero |
| `Journal.ReadRecords` | crates/nclr-core/src/journal.rs:289-349 | the reading loop, with its set of started actions, returns the records of exactly the journals that AcceptsIff characterises |
| `Journal.JournalWriter.RecordEntry` | crates/nclr-core/src/journal.rs:186-227 | one append: refused records change nothing, a failed write leaves a prefix and an unchanged writer, a successful one extends the file and the chain |
| `Journal.Open` | crates/nclr-core/src/journal.rs:110-180 | opening cuts a torn tail and recovers sequence number and previous hash |
| `Journal.Summarize` | crates/nclr-core/src/journal.rs:495-556 | the summary loop returns the summary that SummaryIsExact describes; a null key clears, an absent key keeps |
| `JournalSafety.AcceptsIff` | crates/nclr-core/src/journal.rs:289-349 | a journal is accepted if and only if its lines are numbered, chained, valid, and each completion consumes an earlier unconsumed start of the same plan and action |
| `JournalSafety.ValidRecordIff` | crates/nclr-core/src/journal.rs:351-493 | a record is valid if and only if it is locked exactly on line one, its texts have their lengths and alphabets, and it carries what its state calls for: plan, plan hash, device and path, action, error count, details, and a completion one of seven statuses |
| `JournalSafety.AcceptedLinesCarry` | crates/nclr-core/src/journal.rs:289-493 | every line of an accepted journal carries what its state calls for |
| `JournalSafety.LinesComeBack` | crates/nclr-core/src/journal.rs:289-310 | lines ended by a newline or by carriage return and newline are read back without their endings |
| `JournalSafety.LockedIsFirst` | crates/nclr-core/src/journal.rs:365-371 | in an accepted journal a record is a locked plan if and only if it is the first, and then it carries the plan |
| `JournalSafety.LastLineDeterminesHistory` | crates/nclr-core/src/journal.rs:289-349 | without digest collisions two accepted journals of one length with the same last line are identical |
| `JournalSafety.SummaryIsExact` | crates/nclr-core/src/journal.rs:495-556 | summarizing an accepted journal gives the original plan across fallbacks, the latest fallback plan, exactly the completions in order, the last completed action, and the latest plan hash, device and device path that any record gave or cleared |
| `JournalSafety.HistoryReadsBackIff` | crates/nclr-core/src/journal.rs:186-349 | what a writer wrote reads back, record for record, if and only if every completion in it was started, which the writer itself does not check |
| `JournalSafety.UnstartedCompletionIsWritten` | crates/nclr-core/src/journal.rs:186-349 | a concrete history that the writer accepts and the reader refuses: a locked plan, then a completion that nothing started |
| `JournalSafety.Perform` | crates/nclr-core/src/journal.rs:110-227 | one append, or one append cut off by a crash and followed by a reopening, takes the writer and its file where the run step says |
| `JournalSafety.RunsKeepCommittedRecords` | crates/nclr-core/src/journal.rs:110-349 | after any run of appends, crashes keeping any part of the line in flight and reopenings, the file holds exactly the committed records and the writer stands after the last of them |
| `JournalSafety.RecordAfterFailedWriteIff` | crates/nclr-core/src/journal.rs:186-227 | a writer that goes on after a failed write without reopening leaves a readable journal if and only if no byte of the failed line reached the file |
| `CivilDate.CivilIsValid` | crates/nclr-core/src/journal.rs:30-41 | every day number gives a valid Gregorian date |
| `CivilDate.CivilFollowsCalendar` | crates/nclr-core/src/journal.rs:30-41 | day 0 is 1970-01-01 and consecutive days give consecutive calendar dates, leap rule included |
| `CivilDate.EveryDateIsGiven` | crates/nclr-core/src/journal.rs:30-41 | every valid date is the date of its day number |
| `CivilDate.DaysOfCivil` | crates/nclr-core/src/journal.rs:30-41 | the day number of a day's date is that day, so days and dates correspond one to one |
| `Sweep.NoteCounts` | crates/nclr-core/src/physical.rs:408-530 | one visited page moves every counter to the exact count over one page more; none saturates |
| `Sweep.LargestIsMaximum` | crates/nclr-core/src/physical.rs:424-434 | the block maxima are upper bounds that some page attains |
| `SweepRun.SweepPhysicalPages` | crates/nclr-core/src/physical.rs:305-616 | the nested sweep succeeds if and only if geometry and outputs are admissible and no page stops it by a signal, a short page, a failed write or a progress callback; otherwise it returns the error of the first page that does; on success counts, block summaries, hash input, image and map are exact |
| `SweepTheorems.EveryPageOnceInOrder` | crates/nclr-core/src/physical.rs:387-430 | visit number i is page i mod pages of block i div pages: every page once, block-major |
| `SweepTheorems.ErasedScopeVerifiedIff` | crates/nclr-core/src/physical.rs:594-616 | the erased verdict is given if and only if every page of every block that is runtime bad, system to rebuild, data, erased, qualified or quarantined was read, correctable and the erased byte throughout |
| `SweepTheorems.TargetPagesAreScope` | crates/nclr-core/src/physical.rs:387-394 | the target pages are all pages of all blocks in those six dispositions |
| `SweepTheorems.FlagsAreExact` | crates/nclr-core/src/physical.rs:603-605 | the other three flags say exactly that every page was read, that no page lacks an ECC verdict, and that every page read was correctable |
| `SweepTheorems.BlocksAddUpToTotals` | crates/nclr-core/src/physical.rs:387-600 | the block summaries add up to the totals |
| `SweepTheorems.ImageMatchesMap` | crates/nclr-core/src/physical.rs:488-590 | after any completed sweep the image holds each raw page at the offset its map record gives, zeros exactly where the map says read error, and nothing else |
| `SweepTheorems.GeometryAgrees` | crates/nclr-core/src/physical.rs:93-116 | the sweep's own division chain accepts exactly the pages of the medium and names, field by field, the place that the controller's block coordinate names |
| `SweepHash.StreamIsUniquelyDecodable` | crates/nclr-core/src/physical.rs:405-475 | two sweeps feeding the same bytes to the hash have the same addresses, dispositions, outcomes, digests and metrics, in the same order and number |
| `SweepHash.RecordSays` | crates/nclr-core/src/physical.rs:404-531 | the hash record of a page holds, at fixed offsets, its block, page, disposition code and erase flag, then the digest and metrics of a page read or the digest of the error message |
| `SweepHash.EqualDigestsMeanEqualSweeps` | crates/nclr-core/src/physical.rs:405-475 | without a collision at hand, equal sweep digests and equal sweeps are the same thing |
| `GradeC4.CompletedSweepIsAccounted` | crates/nclr-core/src/grade.rs:519-537 | a completed sweep always satisfies every identity that C4 re-checks |
| `GradeC4.GradeMeans` | crates/nclr-core/src/grade.rs:495-608 | the grade is C4 if and only if every figure of the evidence adds up, and qualified if and only if, besides, each erase count, target count and power-cycle fact, named one by one, is as it should be |
| `GradeC4.ResidualMeans` | crates/nclr-core/src/grade.rs:573-608 | the residual in order of precedence: unknown scope, documented exclusion, none known, each with its exact condition on the figures |
| `GradeC4.QualifiedIff` | crates/nclr-core/src/grade.rs:495-608 | with a completed sweep as evidence C4 is qualified if and only if every identity holds, nothing failed to erase, the medium works after the power cycle, and every page of every block in the six dispositions to be erased was read, correctable and blank |
| `GradeC4.NoneKnownMeansErased` | crates/nclr-core/src/grade.rs:573-608 | the residual is none-known if and only if, besides, no block is unknown and no area protected |
| `Loader.ParseAfterEncode` | crates/nclr-core/src/phison_ps2303.rs:165-236 | every response a loader sends is accepted and read back field by field |
| `Loader.EncodeAfterParse` | crates/nclr-core/src/phison_ps2303.rs:165-236 | an accepted response has exactly one encoding |
| `Loader.WireBytes` | crates/nclr-core/src/phison_ps2303.rs:165-236 | an accepted response byte for byte: signature, schema, opcode of the command, and every flag, count and number at its own offset |
| `Loader.Session.Connect` | crates/nclr-core/src/phison_ps2303.rs:416-436 | connecting takes over the device's counter without moving it, and succeeds if and only if the response is in service mode, neither busy nor failed |
| `Loader.Session.ReadNandId` | crates/nclr-core/src/phison_ps2303.rs:510-534 | reading the NAND id moves both counters as the run step says; it gives six bytes that are not all zero or all ones if and only if a response arrived with the next number, in service mode, neither busy nor failed, and its payload is such an id; each flaw has its error |
| `Loader.Session.ReadOnfiGeometry` | crates/nclr-core/src/phison_ps2303.rs:536-553 | reading the parameter pages likewise, and gives the geometry of the first sound copy |
| `Loader.Session.ReadPage` | crates/nclr-core/src/phison_ps2303.rs:574-592 | reading a page likewise; an impossible size is refused before anything is sent |
| `Loader.Session.WriteOperation` | crates/nclr-core/src/phison_ps2303.rs:555-614 | a command followed by its status read, confirmed or not: success if and only if the status response arrived with the next number, in service mode, neither busy nor failed; a failed operation is never reported as done |
| `Loader.Session.ReadStatus` | crates/nclr-core/src/phison_ps2303.rs:487-508 | a status read likewise, against the current number; on its own it never moves the host counter |
| `LoaderRuns.AnsweredRunStaysInStep` | crates/nclr-core/src/phison_ps2303.rs:462-472 | while every executed operation is answered, host and device counters stay equal, failed and busy responses included |
| `LoaderRuns.SuccessMeansInStep` | crates/nclr-core/src/phison_ps2303.rs:462-508 | success is only ever reported with equal counters |
| `LoaderRuns.OutcomeIs` | crates/nclr-core/src/phison_ps2303.rs:442-508 | a step succeeds if and only if a response arrived with the number due, in service mode, neither busy nor failed; otherwise the first flaw, in the order of the source, names the error |
| `LoaderRuns.NothingSucceedsOutOfStep` | crates/nclr-core/src/phison_ps2303.rs:462-508 | after a missed increment no call of any later run succeeds until the 32-bit counter has wrapped |
| `LoaderRuns.InStepAgainIff` | crates/nclr-core/src/phison_ps2303.rs:462-472 | the counters meet again exactly when missed and executed operations together make 2^32 |
| `LoaderRuns.PerformAll` | crates/nclr-core/src/phison_ps2303.rs:405-621 | performing calls on the session object is the run of their steps; after a missed increment none succeeds |
| `Onfi.SelectCopy` | crates/nclr-core/src/phison_ps2303.rs:839-858 | the loop over the three copies returns the first that parses, with its number, or an error |
| `Onfi.DamageIsNoticed` | crates/nclr-core/src/phison_ps2303.rs:771-785 | any damage within two adjacent bytes, both covered by the CRC or both the CRC itself, makes the CRC fail |
| `Onfi.StraddlingDamageSlips` | crates/nclr-core/src/phison_ps2303.rs:771-785 | across that border it need not: every sound page has such damage that its CRC does not notice |
| `Onfi.GeometryIsThePages` | crates/nclr-core/src/phison_ps2303.rs:834-858 | however two adjacent bytes of each stored copy were damaged, reading succeeds exactly when some copy's CRC holds, as it does for an intact one, and the geometry is then the page's own |
| `OnfiPage.ParseAfterEncode` | crates/nclr-core/src/phison_ps2303.rs:771-832 | a page encoded field by field at the offsets of the standard parses back to the same geometry |
| `OnfiPage.ParsedIsWritable` | crates/nclr-core/src/phison_ps2303.rs:771-832 | only geometries within those bounds are ever accepted |
| `PramTransfer.PramChunks` | crates/nclr-core/src/controller_protocol.rs:950-995 | the loop yields the header chunk and the body chunks in order and refuses exactly the bodies that are not whole units; its overflow exits are never taken |
| `PramTransfer.AcceptedImageIsCovered` | crates/nclr-core/src/controller_protocol.rs:1035-1110 | the chunks of an accepted image are contiguous, aligned, at most 0x8000 bytes, cover header and body exactly, say so in their command blocks, and leave out nothing but a valid MP tail |
| `PramTransfer.TilesConcatenate` | crates/nclr-core/src/controller_protocol.rs:950-995 | tiling chunks laid end to end are the bytes they cover |
| `PramImage.AcceptedIff` | crates/nclr-core/src/controller_protocol.rs:997-1110 | an image is accepted if and only if it is one of the two kinds, each spelled out byte by byte |
| `PramImage.AcceptedChunksAre` | crates/nclr-core/src/controller_protocol.rs:950-1110 | chunk i of an accepted image has its place, length, command block, acknowledgement and bytes as i says |
| `PramImage.StartedIffConfirmed` | crates/nclr-core/src/controller_protocol.rs:1112-1188 | the image is started if and only if every chunk was written and the eight bytes read back after it begin with 0x55 for the header and 0xa5 for the rest |
| `PramTransfer.LoadPram` | crates/nclr-core/src/controller_protocol.rs:1157-1188 | the commands issued are a prefix of the script; the image is started exactly when every chunk was written in order and acknowledged |
| `PramTransfer.StartedIffComplete` | crates/nclr-core/src/phison_ps2303.rs:339-372 | the start command appears in the log if and only if every chunk went through, and then last, after the whole script |
| `PramTransfer.PackedImageIsTransferredWhole` | loaders/phison-ps2303/pack_btpram.py:40-44 | every image the packer builds is accepted and transferred whole, with the binary at the start of its body |
| `Prbs.Seeded` | crates/nclr-core/src/lba.rs:21-33 | a generator never starts at zero |
| `Prbs.StatesKeepNonZero` | crates/nclr-core/src/lba.rs:36-42 | the generator state is never zero |
| `Prbs.UndoAdvances` | crates/nclr-core/src/lba.rs:36-42 | every generator step can be undone, so no two states share a successor |
| `Prbs.Generator.Fill` | crates/nclr-core/src/lba.rs:45-50 | a fill gives the next bytes of the stream and leaves the generator after the words it used |
| `Prbs.ChunkedFillIsOneFill` | crates/nclr-core/src/lba.rs:45-50 | a fill of whole words followed by another is one fill |
| `Prbs.KnownWords` | crates/nclr-core/src/lba.rs:36-42 | the first three words from state 1 |
| `Prbs.KnownSeed` | crates/nclr-core/src/lba.rs:21-33 | the state that the seed bytes 1 to 9 stir up, each entering at its own place |
| `Lba.WritePattern` | crates/nclr-core/src/lba.rs:282-303 | every chunk whose write worked holds the stream, whatever failed before it and also when the callback aborts the pass; the pass succeeds if and only if no callback objects and the flush works, with the exact number of failed writes |
| `Lba.VerifyPattern` | crates/nclr-core/src/lba.rs:306-333 | unless the callback aborts, the result is exactly the number of chunks that failed to read or differ from the stream |
| `Lba.WriteZeros` | crates/nclr-core/src/lba.rs:336-355 | as WritePattern, for zeros |
| `Lba.VerifyZeros` | crates/nclr-core/src/lba.rs:358-378 | as VerifyPattern, for zeros |
| `Lba.ZeroBadMeansHeld` | crates/nclr-core/src/lba.rs:306-333 | a verification result of zero means every chunk was read and the whole device holds the pattern, and conversely |
| `Lba.OverwriteAndVerify` | crates/nclr-core/src/lba.rs:282-333 | clean hardware gives zero errors and zero mismatches, and zero mismatches mean the stream is on the whole device |
| `Blank.BlankVerify` | crates/nclr-core/src/backend_common.rs:239-296 | read errors, first value, uniformity and the error count (read errors, chunks that start with another value, mixed chunks) are exact; an abort returns the callback's error |
| `Blank.NoDefectsIff` | crates/nclr-core/src/backend_common.rs:263-282 | no defect is counted if and only if every chunk that could be read is all the first value |
| `Blank.PassedIff` | crates/nclr-core/src/backend_common.rs:239-295 | the sweep passes if and only if every chunk was read and one blank value fills the range |
| `Signatures.CheckSignatures` | crates/nclr-core/src/lba.rs:211-275 | the search reads the first and last sectors and returns exactly the signatures they hold, or the first read error |
| `Signatures.BlankHasNone` | crates/nclr-core/src/lba.rs:211-251 | data of one blank value carry no signature |
| `Signatures.DetectedMeans` | crates/nclr-core/src/lba.rs:211-251 | each signature is reported if and only if its bytes or its text stand where they belong: boot record with a partition, GPT header, FAT, exFAT, ext |
| `Signatures.RegionsAre` | crates/nclr-core/src/lba.rs:254-275 | the search covers exactly the first and last 32 KiB, or all of a smaller device |
| `Signatures.TablesAreFound` | crates/nclr-core/src/lba.rs:211-275 | a boot record whose first entry has a type, and a GPT header in the second or last sector, are always found |
| `Blank.PostcheckP2` | crates/nclr-core/src/backend_common.rs:303-348 | the postcheck comes to a verdict exactly when capacity, signature regions and flush work and nobody aborts, and the verdict is positive if and only if every chunk was read and the range is the expected blank value throughout; the signature search never turns it |
| `AlcorCipher.XorSwap` | crates/nclr-core/src/alcor_au698x.rs:416-423 | the swap by exclusive or exchanges two cells and zeroes a cell swapped with itself |
| `AlcorCipher.ScheduleKeepsUnique` | crates/nclr-core/src/alcor_au698x.rs:425-441 | no non-zero state byte is ever duplicated during the key schedule |
| `AlcorCipher.StreamKeepsUnique` | crates/nclr-core/src/alcor_au698x.rs:443-454 | nor while the stream runs |
| `AlcorCipher.ScheduleSums` | crates/nclr-core/src/alcor_au698x.rs:425-441 | the schedule starts from the identity, and round n exchanges cell n - 1 with the cell that the sum of all cells and key bytes met so far points at, or zeroes it |
| `AlcorCipher.StreamSums` | crates/nclr-core/src/alcor_au698x.rs:443-454 | step n exchanges the next cell in turn with the cell that the sum of the cells met points at, and gives the cell that the sum of the two points at |
| `AlcorCipher.StreamCipher` | crates/nclr-core/src/alcor_au698x.rs:425-454 | the in-place key schedule and stream loops mask byte i with key stream byte i, which depends on the key alone; keys outside 1..=256 bytes are refused |
| `AlcorCipher.CipherTwiceIsIdentity` | crates/nclr-core/src/alcor_au698x.rs:425-454 | deciphering with the key of the enciphering gives the input back |
| `AlcorCipher.CipherOfPrefix` | crates/nclr-core/src/alcor_au698x.rs:425-454 | the output on a prefix is the prefix of the output |
| `FlashDatabase.DecodeFlashDatabase` | crates/nclr-core/src/alcor_au698x.rs:898-966 | the loop deciphers key block, header and each record under its own key, and refuses bad magic, version, sizes, counts, truncation and records that do not parse |
| `FlashDatabase.DecodeAfterEncode` | crates/nclr-core/src/alcor_au698x.rs:898-966 | decoding recovers header, records and suffix of every database enciphered with the same per-record keys, if and only if its records parse |
| `FlashDatabase.EncodeAfterDecode` | crates/nclr-core/src/alcor_au698x.rs:898-966 | whatever decodes is the encoding, under its own key block, of what it decodes to |
| `FlashDatabase.DecodesIff` | crates/nclr-core/src/alcor_au698x.rs:898-966 | a source decodes if and only if it has an allowed size, its deciphered header spells the magic and announces version 4, records of 662 bytes and 1 to 100000 of them, the source holds them all, and each parses |
| `FlashDatabase.RecordKeyIs` | crates/nclr-core/src/alcor_au698x.rs:954-958 | the key of a record is the derived key with the record number modulo 256 as its first byte and the complement as its last |
| `AlcorAddress.Walk` | crates/nclr-core/src/alcor_au698x.rs:1310-1332 | the cursor walk gives start + (i / ce) * span + i mod ce for every populated word and zero after them, and fails if and only if the cursor leaves sixteen bits |
| `AlcorAddress.WalkIncreases` | crates/nclr-core/src/alcor_au698x.rs:1310-1332 | the populated words strictly increase |
| `AlcorAddress.TableWalk` | crates/nclr-core/src/alcor_au698x.rs:1283-1309 | table mode gives the group's table word plus i mod ce, one table step per group, and fails if and only if a group does not fit |
| `AlcorAddress.DeriveAddressLayout` | crates/nclr-core/src/alcor_au698x.rs:1224-1343 | the whole derivation succeeds exactly under those conditions and then has those words |
| `AlcorAddress.ShapeIff` | crates/nclr-core/src/alcor_au698x.rs:1224-1287 | the shape exists if and only if no geometry value is zero, the wanted lines are at most 64 and fit eight or sixteen words, and the group span is positive and 16 bits wide; the populated words are just enough, and the check of the span against the effective count never fires |

## Left out

- StoreRuns.DeathKeeps: covers a process that dies between two steps or in the middle of the payload write; a death in the middle of the 512-byte descriptor write, with the machine up, is not modelled.
- JournalSafety.RunsKeepCommittedRecords: requires that completions were started and that the file stays within its size limit; the first is exactly characterised by HistoryReadsBackIff.
- JournalSafety.RecordAfterFailedWriteIff: assumes that two record texts run together do not parse as one record.
- CivilDate.CivilIsValid: is over unbounded day numbers; the overflow of the 64-bit arithmetic near its ends is not modelled.
- MetadataTheorems.BbtRoundTrip: is about tables that were built; MetadataSuccess.BbtIsBuiltIff says when that is, since count and address widths are not checked against the geometry.
- CommandBuilder.ValidateCommand: covers the rules of one command; that an artifact payload names a declared artifact, and the contracts of particular operations and vendors, are not part of it.
- SweepRun.SweepPhysicalPages: takes one answer per page, which covers stateful readers because each page is read once; bytes that a failed write leaves in the outputs are not modelled.
- SweepTheorems.BlocksAddUpToTotals: bounds the target bytes by the byte sum of the blocks, since the sweep keeps no total for excluded blocks.
- Onfi.SelectCopy: keeps the two names of a parameter page as raw bytes; their trimming to text is not modelled.
- PramTransfer.LoadPram: takes the identity check as a predicate on the version page, which stands for both entry points.
- FlashDatabase.DecodeFlashDatabase: takes the field parsing of an entry as a predicate on its number and bytes.
- The geometry override payload is a bounds check and a straight-line field copy.
- Capacity payloads and the migration of system blocks are short field writes without further structure.
- File opening, locking, permissions, process spawning and USB or SCSI transports are operating-system calls.
- The controller catalogue, vendor identity parsers, plans, reports and configuration are tables and one-step checks.
- Timing, throughput and signals other than an interrupted sweep are not modelled.
