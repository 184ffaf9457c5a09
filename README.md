# SCArchive in Dafny

This project models the shared code archive of HotSpot (`SCArchive.cpp` and
`SCArchive.hpp` under `src/hotspot/share/code`). The archive is a single file.
A storing VM writes compiled code into it: stubs, the exception blob and C2
nmethods. A later VM loads that code back instead of compiling it again.

The file starts with a 16-byte `SCAHeader`. Each stored artifact follows as an
8-byte-aligned block. The `finish_write` step appends an array of 48-byte
`SCAEntry` records and rewrites the header to point at it. Each entry records
the kind and id of its artifact and where its name, code and relocations lie.
A loader finds an entry by kind and id. It checks the stored name against the
name it asks for, then reads the block back: code sections, relocations (with
addresses encoded as ids in the `SCATable` address table), metadata and the
nmethod side tables.

The model has these parts:

- `Bytes`: little-endian encodings of the C integers involved, and the
  `strncmp` name check.
- `FileImage`: the file as a byte image with a cursor. Its pure step functions
  specify `read_bytes`, `write_bytes`, `seek_to_position` and `align_write`.
- `Index`: `SCAHeader` (a class) and `SCAEntry` (a value, because
  `GrowableArray` copies it), their 16- and 48-byte records, and `find_entry`'s
  search.
- `Archive`: the `SCAFile` class. Its methods change the image, the cursor, the
  header and the entry lists in place, and each one is proved equal to the
  `FileImage` step it performs. It also covers `finish_write` and the
  destructor.
- `AddressTable`: the `SCATable` class over three arrays, `init`,
  `init_opto`, `search_address`, `id_for_address` and `address_for_id`.
- `CodeSections`, `Relocations`, `Metadata`, `SideTables`: the writers
  (`write_code`, `write_relocations`, `write_metadata`, `write_debug_info`,
  `write_oop_maps` and the tables of `store_nmethod`) as methods over the
  archive. The readers are methods proved equal to pure decoders, and the
  round-trip lemmas are stated over those decoders.
- `Artifacts`, `Blobs`, `Nmethods`: `store_stub`/`load_stub`,
  `store_exception_blob`/`load_exception_blob` and
  `store_nmethod`/`load_nmethod`. Each store states the exact bytes it leaves
  in the file and the entry it appends. Each load states what it reads, and a
  round-trip lemma proves that what a store wrote loads back.

A reader's result is a `Decoded` value. It is either the value and the bytes
used, or one of three failures: a short read (which marks the archive failed),
a refusal (the reader returns false and leaves the archive usable), or a crash
(a `fatal`, a null dereference or an overrun buffer). The VM facilities behind
the archive are parameters:

- code buffers and oop recorders are given as values;
- the symbol table and the system dictionary are a `Resolver`;
- the code cache and `os::dll_address_to_function_name` are a `Runtime` that
  classifies addresses;
- `relocInfo` types are a function from the record word.

Byte order is little-endian, `int` is 4 bytes, `size_t` and addresses are 8
bytes, and a `relocInfo` record is 2 bytes.

Where the source is wrong, the main model follows the evident intent. The code
as written is modelled beside it, with a lemma that exhibits the difference
(see "## Findings").

## Model

| member | source | states |
|---|---|---|
| Bytes.EncodeLE | src/hotspot/share/code/SCArchive.cpp:1375 | an integer written by `write_bytes(&x, sizeof(x))` takes exactly `n` little-endian bytes |
| Bytes.DecodeEncodeLE | src/hotspot/share/code/SCArchive.cpp:1169 | a value below `256^n` written in `n` little-endian bytes reads back as itself |
| Bytes.EncodeDecodeLE | src/hotspot/share/code/SCArchive.cpp:1169 | every `n` bytes are the encoding of the number they read as, so a reader accepts exactly the images a writer produces |
| Bytes.EachRoundTrip | src/hotspot/share/code/SCArchive.cpp:695 | an array of fixed-width fields written in one block (`relocInfo` records, `reloc_data` words) reads back field by field |
| Bytes.I32RoundTrip | src/hotspot/share/code/SCArchive.cpp:1375-1378 | an `int` written through `write_bytes(&x, sizeof(int))` reads back as the same signed value |
| Bytes.U32RoundTrip | src/hotspot/share/code/SCArchive.hpp:51-54 | a `uint` field reads back as written |
| Bytes.U64RoundTrip | src/hotspot/share/code/SCArchive.cpp:765 | a `size_t` or an address reads back as written |
| Bytes.U16RoundTrip | src/hotspot/share/code/SCArchive.cpp:695 | a `relocInfo` record reads back as written |
| Bytes.I32BytesOfDecode | src/hotspot/share/code/SCArchive.cpp:1169 | any four bytes are the encoding of the `int` they read as |
| Bytes.U64BytesOfDecode | src/hotspot/share/code/SCArchive.cpp:547 | any eight bytes are the encoding of the `size_t` they read as |
| Bytes.U16BytesOfDecode | src/hotspot/share/code/SCArchive.cpp:473 | any two bytes are the encoding of the record they read as |
| Bytes.Int32Of | src/hotspot/share/code/SCArchive.cpp:1559 | the `(int)` conversion keeps the value modulo 2^32 |
| Bytes.Int32OfSmall | src/hotspot/share/code/SCArchive.cpp:1559 | the `(int)` conversion leaves values below 2^31 unchanged |
| Bytes.NameCheck | src/hotspot/share/code/SCArchive.cpp:390 | `strncmp(name, saved, name_size - 1) == 0` on NUL-free names holds exactly when the saved name is a prefix of the requested one |
| Bytes.StrNEqFromPrefix | src/hotspot/share/code/SCArchive.cpp:390 | the inductive step of the name check from position `i`, in both directions |
| FileImage.OverwriteIndex | src/hotspot/share/code/SCArchive.cpp:293 | the byte at every position after a write, inside and outside the written range |
| FileImage.OverwriteAppend | src/hotspot/share/code/SCArchive.cpp:283-301 | two writes at consecutive offsets are one write of their concatenation, so a store's writes compose into its block |
| FileImage.OverwriteKeeps | src/hotspot/share/code/SCArchive.cpp:293 | a write leaves every byte outside its range unchanged |
| FileImage.OverwriteBelow | src/hotspot/share/code/SCArchive.cpp:352-359 | the entry array survives the header rewrite at offset 0 |
| FileImage.OverwriteSlice | src/hotspot/share/code/SCArchive.cpp:293 | the bytes just written are read back at the offset they were written to |
| FileImage.AlignWriteProperties | src/hotspot/share/code/SCArchive.cpp:256-269 | on success `align_write` writes 1 to 8 zero bytes and leaves the cursor a multiple of 8; an aligned cursor advances a full 8; on failure the archive is failed and unchanged |
| FileImage.FailureIsSticky | src/hotspot/share/code/SCArchive.cpp:220-222 | a failed archive passes neither `for_read` nor `for_write`, and a seek does not clear the flag |
| FileImage.ShortTransferDisables | src/hotspot/share/code/SCArchive.cpp:271-302 | a short read or write returns 0 and leaves an archive that neither gate admits |
| FileImage.TakeAt | src/hotspot/share/code/SCArchive.cpp:276 | a read of `n` bytes delivers the `n` bytes at the offset, or nothing when the `(unsigned int)` cast truncates `n` or the file ends first |
| FileImage.TakeAtRest | src/hotspot/share/code/SCArchive.cpp:271-285 | a read at offset `o` delivers the front of the rest of the file and leaves what follows it |
| FileImage.ReadStepTakes | src/hotspot/share/code/SCArchive.cpp:271-285 | `read_bytes` returns `n` exactly when the bytes are there, delivers them and advances over them; otherwise the archive is failed |
| FileImage.After | src/hotspot/share/code/SCArchive.cpp:1169-1193 | a value decoded after `k` bytes already consumed reports `k` more bytes used; a failure passes through unchanged |
| FileImage.Decoded.Fail | src/hotspot/share/code/SCArchive.cpp:1201-1203 | a failure keeps its kind (short read, refusal or crash) when a caller returns it |
| FileImage.RestRest | src/hotspot/share/code/SCArchive.cpp:283 | skipping `n` more bytes of what is left is the rest from `o + n` |
| FileImage.ShortReadAsWrittenKeepsArchiveOpen | src/hotspot/share/code/SCArchive.cpp:277-280 | as written, a short read returns 0 but `for_read()` still holds after it; the corrected read leaves the archive closed to reads |
| FileImage.FailuresAsWrittenKeepArchiveWritable | src/hotspot/share/code/SCArchive.cpp:244-248 | as written, a failed write or seek leaves `for_write()` true |
| Index.KindOf | src/hotspot/share/code/SCArchive.hpp:75-80 | the kind read from an entry record; with `KindRoundTrip`, every kind reads back as itself |
| Index.KindRoundTrip | src/hotspot/share/code/SCArchive.hpp:75-80 | a kind stored in an entry record reads back as the same kind |
| Index.NewEntry | src/hotspot/share/code/SCArchive.hpp:97-113 | the full constructor puts every argument in its field, `decompile` defaults to 0 and the entry is not entrant |
| Index.DefaultEntry | src/hotspot/share/code/SCArchive.hpp:115-128 | the default constructor zeroes every field, with kind `None`, not entrant |
| Index.SetNotEntrantProperties | src/hotspot/share/code/SCArchive.hpp:142 | `set_not_entrant` sets the flag, touches no other field, and doing it twice is doing it once |
| Index.WordsAt | src/hotspot/share/code/SCArchive.hpp:83-93 | word `k` of an entry record lies at bytes `4k` to `4k + 4` |
| Index.EncodeEntry | src/hotspot/share/code/SCArchive.hpp:83-94 | an entry record is 48 bytes: ten `uint` fields and the `Kind` (eleven 4-byte words), the `bool` at byte 44, 3 bytes of padding |
| Index.WordOfBlock | src/hotspot/share/code/SCArchive.hpp:83-93 | word `k` of a record reads back as the word written there, whatever follows |
| Index.EntryRoundTrip | src/hotspot/share/code/SCArchive.hpp:83-94 | an entry record written by `finish_write` reads back as the same entry |
| Index.EncodeEntries | src/hotspot/share/code/SCArchive.cpp:340-347 | the entry array is `48 * count` bytes |
| Index.DecodeEntries | src/hotspot/share/code/SCArchive.cpp:315-322 | the array `find_entry` reads has `count` entries |
| Index.DecodeEncodedEntries | src/hotspot/share/code/SCArchive.cpp:315-322 | the entry array is read one record at a time |
| Index.EntriesRoundTrip | src/hotspot/share/code/SCArchive.cpp:340-347 | the entry array `finish_write` stores reads back as the same entries |
| Index.EntriesAt | src/hotspot/share/code/SCArchive.cpp:315-322 | an entry array written at offset `o` of the file reads back from there |
| Index.EncodeHeader | src/hotspot/share/code/SCArchive.hpp:48-54 | the header record is 16 bytes |
| Index.HeaderRoundTrip | src/hotspot/share/code/SCArchive.hpp:48-54 | the header record reads back as written |
| Index.SCAHeader.constructor | src/hotspot/share/code/SCArchive.hpp:48-54 | a new header is all zero |
| Index.SCAHeader.Init | src/hotspot/share/code/SCArchive.hpp:57-62 | `init` overwrites the four fields, and the `int` count is stored as a `uint` |
| Index.SCAHeader.Load | src/hotspot/share/code/SCArchive.cpp:162 | the header read from the file overlays all four fields |
| Index.SCAHeader.NextIdx | src/hotspot/share/code/SCArchive.hpp:66 | `next_idx` returns the old count and increments the count modulo 2^32 |
| Index.FindFrom | src/hotspot/share/code/SCArchive.cpp:328-334 | the index found from `i` matches and no earlier one from `i` does; none is found exactly when nothing from `i` matches |
| Index.FindFirstSpec | src/hotspot/share/code/SCArchive.cpp:328-335 | `find_entry` returns the first entry matching both kind and id, and null exactly when none matches; on an indexed array the entry found has `idx` equal to its position (the debug assert at 330) |
| Archive.BaseName | src/hotspot/share/code/SCArchive.cpp:69-71 | the archive name is the part of the path after the last separator: a suffix of the path without the separator, and preceded by a separator when shorter than the path |
| Archive.WrittenCount | src/hotspot/share/code/SCArchive.cpp:340 | the corrected count is the number of entries appended, 0 without a list, and equal to the count as written whenever the list exists |
| Archive.FinishWriteWithoutEntries | src/hotspot/share/code/SCArchive.cpp:337-340 | with no entry added, `finish_write` as written crashes on the null list; the corrected one writes a header with 0 entries, entry offset 0 and the archive ending at the cursor; with a list the two agree |
| Archive.FinishedArchiveReadsBack | src/hotspot/share/code/SCArchive.cpp:337-365 | after `finish_write`, the header at offset 0 holds the version, the entry count, the archive size and the entry offset (0 without entries), and the entry array at that offset reads back as the appended entries |
| Archive.FinishedHeaderReadsBack | src/hotspot/share/code/SCArchive.cpp:352-364 | the header part of `FinishedArchiveReadsBack` |
| Archive.FinishedEntriesReadBack | src/hotspot/share/code/SCArchive.cpp:341-347 | the entry-array part of `FinishedArchiveReadsBack` |
| Archive.FinalHeaderFields | src/hotspot/share/code/SCArchive.cpp:353 | values below 2^32 are stored in the header unchanged |
| Archive.FinishedHeader | src/hotspot/share/code/SCArchive.cpp:354-364 | the header rewritten at offset 0 reads back as written |
| Archive.FinishedEntries | src/hotspot/share/code/SCArchive.cpp:341-359 | the entry array survives the header rewrite and reads back |
| Archive.SCAFile.KeptWhileWriting | src/hotspot/share/code/SCArchive.hpp:166-179 | the bookkeeping of an archive open for writing that byte writes cannot disturb |
| Archive.SCAFile.ValidAfterWriting | src/hotspot/share/code/SCArchive.hpp:166-179 | byte writes keep the archive's invariant while the cursor stays within the data |
| Archive.SCAFile.constructor | src/hotspot/share/code/SCArchive.cpp:144-180 | for reading, the header is read from offset 0 and the table created, or the archive is failed with no table when the file is shorter than a header; for writing, the header `(version, 0, 0, 0)` is written at offset 0 and the table created, or the archive is failed |
| Archive.SCAFile.ReadHeaderRecord | src/hotspot/share/code/SCArchive.cpp:157-167 | the header is the first 16 bytes of the file when there are that many; otherwise the archive is failed |
| Archive.SCAFile.WriteInitialHeader | src/hotspot/share/code/SCArchive.cpp:169-178 | the file becomes the 16-byte initial header when the limit allows it; otherwise the archive is failed |
| Archive.SCAFile.SeekToPosition | src/hotspot/share/code/SCArchive.cpp:240-252 | the new cursor and flag are those of `SeekStep`: no move when already there, a move, or a failed archive when the `(long)` cast makes the position negative |
| Archive.SCAFile.ReadBytes | src/hotspot/share/code/SCArchive.cpp:271-285 | the cursor, flag, bytes and count are those of `ReadStep`: 0 for 0, the bytes and `n` on success, 0 and a failed archive when short |
| Archive.SCAFile.WriteBytes | src/hotspot/share/code/SCArchive.cpp:288-302 | the image, cursor, flag and count are those of `WriteStep` |
| Archive.SCAFile.AlignWrite | src/hotspot/share/code/SCArchive.cpp:256-269 | the image, cursor and flag are those of `AlignStep` |
| Archive.SCAFile.WriteAll | src/hotspot/share/code/SCArchive.cpp:423-426 | a write compared against its size succeeds exactly when the block is empty or fits the limit, and then the block is in the image at the old cursor; otherwise the archive is failed |
| Archive.SCAFile.ReadExactly | src/hotspot/share/code/SCArchive.cpp:386-389 | a read compared against its size succeeds exactly when `TakeAt` finds the bytes, which it delivers; otherwise the archive is failed |
| Archive.SCAFile.SetFailed | src/hotspot/share/code/SCArchive.hpp:197 | `set_failed` sets the flag |
| Archive.SCAFile.SetLookupFailed | src/hotspot/share/code/SCArchive.hpp:200 | `set_lookup_failed` sets only `_lookup_failed` |
| Archive.SCAFile.ClearLookupFailed | src/hotspot/share/code/SCArchive.hpp:201 | `clear_lookup_failed` clears only `_lookup_failed` |
| Archive.SCAFile.AddEntry | src/hotspot/share/code/SCArchive.cpp:304-310 | `add_entry` allocates the list on first use and appends the entry |
| Archive.SCAFile.LoadEntries | src/hotspot/share/code/SCArchive.cpp:313-327 | on success the entry array holds the `count` records at the header's entry offset; otherwise nothing is loaded and the archive is failed |
| Archive.SCAFile.FindEntry | src/hotspot/share/code/SCArchive.cpp:312-335 | the entry array is loaded once from the file, then the result is the first index matching kind and id (`FindFirst`); a loaded array is not read again |
| Archive.SCAFile.FinishWrite | src/hotspot/share/code/SCArchive.cpp:337-365 | on success the image is `FinishedImage` (which `FinishedArchiveReadsBack` reads back) and the header holds the final count, size and entry offset; otherwise the archive is failed |
| Archive.SCAFile.WriteEntryArray | src/hotspot/share/code/SCArchive.cpp:341-351 | the entry array is written at the cursor when there is one |
| Archive.SCAFile.WriteHeaderAtStart | src/hotspot/share/code/SCArchive.cpp:353-364 | the header record is written at offset 0 and the cursor is left just after it |
| Archive.SCAFile.Close | src/hotspot/share/code/SCArchive.cpp:196-219 | the archive ends closed; an archive open for writing is finished first, and its image is then `FinishedImage`; any other archive keeps its data |
| AddressTable.IndexFrom | src/hotspot/share/code/SCArchive.cpp:1546-1553 | the first index of the address from `i`, or -1 exactly when it is absent |
| AddressTable.AddressForPartition | src/hotspot/share/code/SCArchive.cpp:1555-1578 | ids below the extrs length give extrs addresses, the next ones stubs, then blobs; the id equal to the total is `fatal`, and larger ids are a distance from `os::init` |
| AddressTable.IncompleteTableIsFatal | src/hotspot/share/code/SCArchive.cpp:1556-1558 | an incomplete table refuses every id, corrected and as written |
| AddressTable.NegativeIdIsFatalAsWritten | src/hotspot/share/code/SCArchive.cpp:1559-1562 | as written, an id that is negative as an `int` is `fatal` |
| AddressTable.IndexOfFound | src/hotspot/share/code/SCArchive.cpp:1546-1553 | a present address is found at a position that holds it |
| AddressTable.IdRoundTrip | src/hotspot/share/code/SCArchive.cpp:1555-1632 | every address registered in the array of its region, and every external address encoded as a raw distance, gets an id that `address_for_id` decodes back to the same address |
| AddressTable.AsWrittenDistanceAliasesTable | src/hotspot/share/code/SCArchive.cpp:1559 | as written, the external address at distance 2^32 is encoded as 2^32 and decoded as the first extrs entry |
| AddressTable.AsWrittenLargeDistanceIsFatal | src/hotspot/share/code/SCArchive.cpp:1559-1562 | as written, a raw distance of 2^31 becomes a negative `int` and is `fatal`; the corrected decoding gives the address back |
| AddressTable.OptoBlobs | src/hotspot/share/code/SCArchive.cpp:1513-1528 | `init_opto` registers sixteen addresses |
| AddressTable.SetAddress | src/hotspot/share/code/SCArchive.cpp:1470-1473 | `SET_ADDRESS` stores the address at the current length and increments the length |
| AddressTable.RegisterExtrs | src/hotspot/share/code/SCArchive.cpp:1477-1489 | a fresh array of 10 slots holding the three extrs addresses in order |
| AddressTable.RegisterStubs | src/hotspot/share/code/SCArchive.cpp:1478-1492 | a fresh array of 10 slots holding the stub address |
| AddressTable.RegisterBlobs | src/hotspot/share/code/SCArchive.cpp:1479-1506 | a fresh array of 30 slots holding the ten blob addresses in order |
| AddressTable.SearchAddress | src/hotspot/share/code/SCArchive.cpp:1546-1553 | the result is the first index of the address among the first `length` slots, and negative exactly when it is absent |
| AddressTable.SCATable.View | src/hotspot/share/code/SCArchive.hpp:146-157 | the registered prefixes of the three arrays and the completeness flag |
| AddressTable.SCATable.constructor | src/hotspot/share/code/SCArchive.hpp:157 | a new table is not complete and registers nothing |
| AddressTable.SCATable.Init | src/hotspot/share/code/SCArchive.cpp:1475-1508 | the table is complete, with fresh arrays of capacities 10, 10 and 30 holding the addresses of `init` in order |
| AddressTable.SCATable.InitOpto | src/hotspot/share/code/SCArchive.cpp:1510-1530 | the sixteen compiler blobs are appended after the blobs already registered, and nothing else changes |
| AddressTable.SCATable.IdForAddress | src/hotspot/share/code/SCArchive.cpp:1580-1632 | the id is `IdOf` of the table: stubs, code-cache blobs and extrs by region, the raw distance for an external address at a positive offset, `fatal` otherwise |
| CodeSections.SectionLayout | src/hotspot/share/code/SCArchive.cpp:763-786 | a section takes 8 bytes when empty, and otherwise 16 bytes plus its code (size, start, bytes) |
| CodeSections.CodeLayoutAppend | src/hotspot/share/code/SCArchive.cpp:762-787 | the layout and total code size of two runs of sections are those of each run, concatenated and added |
| CodeSections.CodeLayoutSnoc | src/hotspot/share/code/SCArchive.cpp:762-787 | one more section appends its layout and adds its size to `code_size` |
| CodeSections.DecodeSection | src/hotspot/share/code/SCArchive.cpp:544-579 | one section of `read_code` never crashes and never consumes more than is there |
| CodeSections.DecodeSections | src/hotspot/share/code/SCArchive.cpp:541-583 | `read_code` gives one section per code section of the buffer, or a short read, or a refusal; it never crashes |
| CodeSections.SectionRoundTrip | src/hotspot/share/code/SCArchive.cpp:544-579 | a section that fits its buffer reads back as written, whatever follows it |
| CodeSections.CodeRoundTrip | src/hotspot/share/code/SCArchive.cpp:541-583 | `read_code` reads back exactly the sections `write_code` wrote, consuming exactly their layout, whatever follows it |
| CodeSections.DecodedSectionsAreLayout | src/hotspot/share/code/SCArchive.cpp:541-583 | the converse of `CodeRoundTrip`: whatever `read_code` accepts is the layout of the sections it returns, each fitting its buffer |
| CodeSections.DecodedSectionIsLayout | src/hotspot/share/code/SCArchive.cpp:544-579 | bytes that read as a section start with that section's layout |
| CodeSections.DecodeSectionsCons | src/hotspot/share/code/SCArchive.cpp:543 | `read_code` reads the first section, then the others from where it stopped |
| CodeSections.DecodeSectionsStep | src/hotspot/share/code/SCArchive.cpp:543-580 | the first section still to read decides: its value is prepended to the rest, and its failure is the whole read's |
| CodeSections.AllTail | src/hotspot/share/code/SCArchive.cpp:543 | the sections after the first still fit their buffers |
| CodeSections.AllCons | src/hotspot/share/code/SCArchive.cpp:543 | a section that fits, before sections that fit |
| CodeSections.WriteSection | src/hotspot/share/code/SCArchive.cpp:763-786 | on success the section's layout is in the image at the old cursor; otherwise the archive is failed |
| CodeSections.WriteCode | src/hotspot/share/code/SCArchive.cpp:759-790 | on success the image holds `CodeLayout` of all sections at the old cursor and `code_size` is the total of the section sizes; otherwise the archive is failed |
| CodeSections.ReadSection | src/hotspot/share/code/SCArchive.cpp:544-579 | the result is `DecodeSection` of the bytes from the cursor; the cursor advances by what was used; a short read fails the archive and a section too large refuses without failing it |
| CodeSections.ReadCode | src/hotspot/share/code/SCArchive.cpp:541-583 | the result is `DecodeSections` of the bytes from the cursor, with the same cursor and flag consequences |
| Relocations.EnvOf | src/hotspot/share/code/SCArchive.cpp:506 | the relocation environment of an archive: its table's view, the record kinds and the runtime |
| Relocations.DataWords | src/hotspot/share/code/SCArchive.cpp:701-745 | one extra-data word per relocation: the table id of a runtime call's destination or an external word's target, and 0 for the other supported kinds |
| Relocations.Infos | src/hotspot/share/code/SCArchive.cpp:693-695 | the records written are the relocations' `relocInfo` words, in order |
| Relocations.RelocSectionLayout | src/hotspot/share/code/SCArchive.cpp:677-753 | a section without relocations takes 4 bytes; otherwise 8 bytes plus 10 per relocation (count, `locs_point` offset, records, words) |
| Relocations.MaxCountIsMaximum | src/hotspot/share/code/SCArchive.cpp:664-671 | `max_reloc_count` is at least every section's count and equals one of them (or is 0) |
| Relocations.Patches | src/hotspot/share/code/SCArchive.cpp:489-534 | one patch per record, each the one its word gives |
| Relocations.DecodeInfos | src/hotspot/share/code/SCArchive.cpp:473 | `count` records are read from `2 * count` bytes |
| Relocations.DecodeWords | src/hotspot/share/code/SCArchive.cpp:482-483 | `count` words are read from `8 * count` bytes |
| Relocations.DecodeRelocWords | src/hotspot/share/code/SCArchive.cpp:482-534 | the words and patches of a section never consume more than is there |
| Relocations.DecodeRelocBody | src/hotspot/share/code/SCArchive.cpp:467-534 | a non-empty section read back has a non-negative count within the room of `reloc_data`, and one patch per record |
| Relocations.DecodeRelocSection | src/hotspot/share/code/SCArchive.cpp:450-535 | a section read back has at most `max_reloc_count` records and one patch per record |
| Relocations.DecodeRelocSections | src/hotspot/share/code/SCArchive.cpp:450-536 | the loop of `read_relocations` gives one loaded section per code section |
| Relocations.RelocRoundTrip | src/hotspot/share/code/SCArchive.cpp:504-522 | for a relocation the archive can carry, the word `write_relocations` records makes `read_relocations` apply the expected patch: the original destination or target for runtime calls and external words, a move for internal words, nothing otherwise |
| Relocations.PatchesRoundTrip | src/hotspot/share/code/SCArchive.cpp:489-534 | the words written for carried relocations patch back to the expected patch of each, in order |
| Relocations.RelocBodyRoundTrip | src/hotspot/share/code/SCArchive.cpp:467-534 | the records and words of a non-empty section read back into its patches |
| Relocations.RelocFieldsRoundTrip | src/hotspot/share/code/SCArchive.cpp:451-534 | the four fields of a non-empty section read back into its loaded section |
| Relocations.RelocSectionRoundTrip | src/hotspot/share/code/SCArchive.cpp:450-535 | a section that `write_relocations` wrote reads back, through a `reloc_data` with room for its count, as its `locs_point` offset, its records and the expected patches, whatever follows it |
| Relocations.CarriedAreWritable | src/hotspot/share/code/SCArchive.cpp:701-745 | relocations the archive can carry never reach a `fatal` of the writer |
| Relocations.DecodeRelocSectionsCons | src/hotspot/share/code/SCArchive.cpp:450 | the sections are read one after another |
| Relocations.RelocationsStep | src/hotspot/share/code/SCArchive.cpp:450-536 | the inductive step of `RelocationsRoundTrip` |
| Relocations.AllLoadedCons | src/hotspot/share/code/SCArchive.cpp:450-536 | the loaded sections are those of the first section, then the rest |
| Relocations.RelocationsRoundTrip | src/hotspot/share/code/SCArchive.cpp:445-539 | `read_relocations` reads back every section `write_relocations` wrote, with the expected patches, given room for the largest count and the same address table, whatever follows it |
| Relocations.MaxRelocSizeFits | src/hotspot/share/code/SCArchive.cpp:447 | the `max_reloc_size` the writer reports, divided again by `sizeof(relocInfo)`, leaves room for every section |
| Relocations.RelocLayoutAppend | src/hotspot/share/code/SCArchive.cpp:675-754 | the layout of two runs of sections is the concatenation of theirs |
| Relocations.RelocLayoutSnoc | src/hotspot/share/code/SCArchive.cpp:675-754 | one more section appends its layout |
| Relocations.OverrunAsWritten | src/hotspot/share/code/SCArchive.cpp:482-483 | a section with one record read with no room in `reloc_data` (an entry whose `reloc_size` is 0): as written the word is read past the end of the buffer, while the corrected reader refuses |
| Relocations.AsWrittenAgreesUnlessRefused | src/hotspot/share/code/SCArchive.cpp:450-535 | the guard changes only what would overrun: where the corrected reader does not refuse, the two agree; where it refuses, the reader as written overruns or reads short |
| Relocations.CollectWords | src/hotspot/share/code/SCArchive.cpp:700-745 | the loop succeeds exactly when every relocation has a word, and then `reloc_data` holds `DataWords` in order |
| Relocations.WriteRelocBody | src/hotspot/share/code/SCArchive.cpp:693-753 | the records and words are written exactly when every relocation has a word and the writes fit; the writer reaches `fatal` exactly when one lacks a word and the records fit; otherwise the archive is failed |
| Relocations.WriteRelocSection | src/hotspot/share/code/SCArchive.cpp:676-753 | the section's layout is written exactly when it is encodable and fits; `fatal` is reached exactly when it is not encodable and the part before the words fits; otherwise the archive is failed |
| Relocations.WriteRelocSectionsStep | src/hotspot/share/code/SCArchive.cpp:675-754 | the image after `i + 1` sections holds the layout of the first `i + 1` |
| Relocations.WriteRelocSections | src/hotspot/share/code/SCArchive.cpp:675-754 | on success the image holds the layout of every section at the old cursor; `fatal` only for sections that cannot be written; otherwise a failed archive |
| Relocations.WriteRelocations | src/hotspot/share/code/SCArchive.cpp:663-757 | `max_reloc_size` is the largest count times `sizeof(relocInfo)`; on success the image holds `RelocLayout` at the old cursor; `fatal` only when some relocation cannot be carried; a failed write fails the archive; the address table is unchanged |
| Relocations.PatchRelocs | src/hotspot/share/code/SCArchive.cpp:489-534 | the patches are `Patches` of the records and the words in `reloc_data` when every record is supported and every id decodes, and none otherwise |
| Relocations.ReadRelocWords | src/hotspot/share/code/SCArchive.cpp:482-534 | the result is `DecodeRelocWords` of the bytes from the cursor; a short read fails the archive |
| Relocations.RelocSizeOf | src/hotspot/share/code/SCArchive.cpp:467 | `reloc_count * sizeof(relocInfo)` as a `size_t` is twice the count when the count is not negative, and at least 2^32 otherwise |
| Relocations.ReadRelocBody | src/hotspot/share/code/SCArchive.cpp:467-534 | the result is `DecodeRelocBody` of the bytes from the cursor with room for `reloc_data`'s length; a short read fails the archive and a refusal leaves it usable |
| Relocations.ReadRelocSection | src/hotspot/share/code/SCArchive.cpp:451-535 | the result is `DecodeRelocSection` of the bytes from the cursor, with the same consequences |
| Relocations.DecodeRelocSectionsStep | src/hotspot/share/code/SCArchive.cpp:450-536 | one more section read continues the decoding of the whole block, or its failure ends it |
| Relocations.ReadRelocSections | src/hotspot/share/code/SCArchive.cpp:450-536 | the result is `DecodeRelocSections` of the bytes from the cursor, one per code section |
| Relocations.ReadRelocations | src/hotspot/share/code/SCArchive.cpp:445-539 | the result is `DecodeRelocSections` with room for `max_reloc_size / sizeof(relocInfo)` words; the cursor advances by what was used; a short read fails the archive |
| Metadata.MethodText | src/hotspot/share/code/SCArchive.cpp:1073-1082 | the method text is holder, space, name, space, signature and a terminating zero: three bytes more than the symbols |
| Metadata.ItemLayout | src/hotspot/share/code/SCArchive.cpp:1056-1111 | a method takes 16 bytes of kind and lengths plus its text; any other entry takes the 4 bytes of kind -1 |
| Metadata.Resolve | src/hotspot/share/code/SCArchive.cpp:1002-1041 | a method resolves exactly when its three symbols probe and its holder class is found, and then to the holder's `find_method` answer; resolution never dereferences a missing class |
| Metadata.MissingClassAsWritten | src/hotspot/share/code/SCArchive.cpp:1012-1040 | as written, `find_method` is called on the class before the null check: exactly when all three symbols probe but the class is missing, the code dereferences null, where the corrected resolution rejects; otherwise the two agree |
| Metadata.DecodeMethodText | src/hotspot/share/code/SCArchive.cpp:996-1041 | a method text read back yields one method and never consumes more than is there |
| Metadata.DecodeItem | src/hotspot/share/code/SCArchive.cpp:972-1042 | one entry of `read_metadata` never consumes more than is there |
| Metadata.DecodeItems | src/hotspot/share/code/SCArchive.cpp:971-1043 | the entry loop never consumes more than is there |
| Metadata.ItemThenItems | src/hotspot/share/code/SCArchive.cpp:971-1043 | one entry, then the rest of the loop, never consume more than is there |
| Metadata.DecodeMetadata | src/hotspot/share/code/SCArchive.cpp:956-1046 | `read_metadata` never consumes more than is there |
| Metadata.MethodTextParts | src/hotspot/share/code/SCArchive.cpp:1002-1024 | the holder, name and signature are found back in a method text at the offsets the reader probes |
| Metadata.MethodTextRoundTrip | src/hotspot/share/code/SCArchive.cpp:996-1041 | the text `write_metadata` writes reads back as the method the symbols resolve to, or is refused when they do not resolve, whatever follows it |
| Metadata.MethodRecordFields | src/hotspot/share/code/SCArchive.cpp:972-998 | a method entry is read as its 16 bytes of kind and lengths, then its text |
| Metadata.MethodItemRoundTrip | src/hotspot/share/code/SCArchive.cpp:972-1042 | a method entry written reads back as its resolved method, or is refused |
| Metadata.ItemRoundTrip | src/hotspot/share/code/SCArchive.cpp:972-1042 | any entry written reads back: a method as its resolution, any other entry as nothing; refused exactly when a method does not resolve |
| Metadata.DecodeItemsCons | src/hotspot/share/code/SCArchive.cpp:971 | the loop reads the first entry, then the others from where it stopped |
| Metadata.MethodsCons | src/hotspot/share/code/SCArchive.cpp:971-1043 | the methods recorded for a list are those of its first entry, then the rest |
| Metadata.ItemsRoundTrip | src/hotspot/share/code/SCArchive.cpp:971-1043 | every list of entries written reads back as its recorded methods when all resolve, and is refused otherwise, whatever follows it |
| Metadata.ItemsRoundTripRecorded | src/hotspot/share/code/SCArchive.cpp:971-1043 | the step of `ItemsRoundTrip` when the first entry resolves |
| Metadata.ItemsRoundTripRefused | src/hotspot/share/code/SCArchive.cpp:971-1043 | the step of `ItemsRoundTrip` when the first entry does not resolve: the whole read is refused |
| Metadata.MetadataRoundTrip | src/hotspot/share/code/SCArchive.cpp:956-1114 | `read_metadata` reads back what `write_metadata` wrote: the methods of the recorder when every method resolves, and a refusal otherwise, consuming exactly the layout, whatever follows it |
| Metadata.CopySymbol | src/hotspot/share/code/SCArchive.cpp:1075-1081 | `as_C_string` copies the symbol at the position and puts a zero after it, changing nothing else |
| Metadata.BuildMethodText | src/hotspot/share/code/SCArchive.cpp:1073-1082 | the buffer built is exactly the method text |
| Metadata.MethodTextAt | src/hotspot/share/code/SCArchive.cpp:1073-1082 | each byte of the method text: holder, space, name, space, signature, zero |
| Metadata.WriteItem | src/hotspot/share/code/SCArchive.cpp:1057-1111 | on success the entry's layout is in the image at the old cursor; otherwise the archive is failed |
| Metadata.ItemsLayoutAppend | src/hotspot/share/code/SCArchive.cpp:1056-1112 | the layout of two lists of entries is the concatenation of theirs |
| Metadata.ItemsLayoutSnoc | src/hotspot/share/code/SCArchive.cpp:1056-1112 | one more entry appends its layout |
| Metadata.WriteMetadata | src/hotspot/share/code/SCArchive.cpp:1048-1114 | on success the image holds the count and every entry's layout at the old cursor; otherwise the archive is failed |
| Metadata.ReadMethodText | src/hotspot/share/code/SCArchive.cpp:996-1041 | the result is `DecodeMethodText` of the bytes from the cursor; the cursor advances by what was used; a short read fails the archive and a refusal leaves it usable |
| Metadata.ReadItem | src/hotspot/share/code/SCArchive.cpp:972-1042 | the result is `DecodeItem` of the bytes from the cursor, with the same consequences |
| Metadata.DecodeItemsStep | src/hotspot/share/code/SCArchive.cpp:971-1043 | one more entry read continues the decoding of the list, or its failure ends it |
| Metadata.ReadNextItem | src/hotspot/share/code/SCArchive.cpp:972-1042 | one turn of the loop keeps the read so far equal to the decoding of the list |
| Metadata.ReadItems | src/hotspot/share/code/SCArchive.cpp:971-1043 | the result is `DecodeItems` of the bytes from the cursor |
| Metadata.ReadMetadata | src/hotspot/share/code/SCArchive.cpp:956-1046 | the result is `DecodeMetadata` of the bytes from the cursor; the cursor advances by what was used; a short read fails the archive and a refusal leaves it usable |
| SideTables.DecodeDebug | src/hotspot/share/code/SCArchive.cpp:848-874 | `read_debug_info` reads or reads short, and never consumes more than is there |
| SideTables.DecodeDeps | src/hotspot/share/code/SCArchive.cpp:1213-1227 | the dependencies are read or read short, never past the end |
| SideTables.DecodeOopMap | src/hotspot/share/code/SCArchive.cpp:907-926 | one oop map is read or read short, never past the end |
| SideTables.DecodeOopMapList | src/hotspot/share/code/SCArchive.cpp:906-927 | the loop of `read_oop_maps` reads exactly `om_count` maps, or reads short |
| SideTables.DecodeOopMaps | src/hotspot/share/code/SCArchive.cpp:899-929 | `read_oop_maps` reads or reads short, never past the end |
| SideTables.DecodeTable | src/hotspot/share/code/SCArchive.cpp:1236-1266 | an exception or null-check table is read or read short, never past the end |
| SideTables.DecodeHandlerTables | src/hotspot/share/code/SCArchive.cpp:1236-1266 | the two tables are read or read short |
| SideTables.DecodeMapsAndTables | src/hotspot/share/code/SCArchive.cpp:1230-1266 | the oop maps and the two tables are read or read short |
| SideTables.DecodeSideTables | src/hotspot/share/code/SCArchive.cpp:1205-1266 | debug info, dependencies, oop maps and tables are read or read short, never past the end |
| SideTables.DebugFromFields | src/hotspot/share/code/SCArchive.cpp:848-874 | bytes holding the two counts, the stream and the `PcDesc` array read as that debug info |
| SideTables.DebugRoundTrip | src/hotspot/share/code/SCArchive.cpp:848-897 | `read_debug_info` reads back what `write_debug_info` wrote, whatever follows it |
| SideTables.DepsRoundTrip | src/hotspot/share/code/SCArchive.cpp:1213-1227 | the dependencies read back as written (store_nmethod lines 1407-1415) |
| SideTables.OopMapRoundTrip | src/hotspot/share/code/SCArchive.cpp:907-926 | one oop map reads back as written (write_oop_maps lines 939-951) |
| SideTables.OopMapListRoundTrip | src/hotspot/share/code/SCArchive.cpp:906-927 | every list of oop maps reads back as written, whatever follows it |
| SideTables.OopMapsRoundTrip | src/hotspot/share/code/SCArchive.cpp:899-954 | `read_oop_maps` reads back what `write_oop_maps` wrote, whatever follows it |
| SideTables.OopMapsFromParts | src/hotspot/share/code/SCArchive.cpp:899-929 | the count and then the list |
| SideTables.TableRoundTrip | src/hotspot/share/code/SCArchive.cpp:1236-1266 | a table reads back as written (store_nmethod lines 1423-1444) |
| SideTables.HandlerTablesFromParts | src/hotspot/share/code/SCArchive.cpp:1236-1266 | the handler table, then the null-check table |
| SideTables.MapsAndTablesFromParts | src/hotspot/share/code/SCArchive.cpp:1230-1266 | the oop maps, then the tables |
| SideTables.SideTablesFromParts | src/hotspot/share/code/SCArchive.cpp:1205-1266 | debug info, dependencies, then maps and tables |
| SideTables.HandlerTablesRoundTrip | src/hotspot/share/code/SCArchive.cpp:1236-1266 | both tables read back as written |
| SideTables.MapsAndTablesRoundTrip | src/hotspot/share/code/SCArchive.cpp:1230-1266 | maps and tables read back as written |
| SideTables.SideTablesRoundTrip | src/hotspot/share/code/SCArchive.cpp:1205-1266 | the side tables `store_nmethod` writes read back whole, consuming exactly their layout, whatever follows them |
| SideTables.WriteDebugInfo | src/hotspot/share/code/SCArchive.cpp:876-897 | on success the image holds the debug layout at the old cursor; otherwise the archive is failed |
| SideTables.WriteDeps | src/hotspot/share/code/SCArchive.cpp:1407-1415 | on success the image holds the dependencies' size and bytes at the old cursor; otherwise the archive is failed |
| SideTables.WriteOopMap | src/hotspot/share/code/SCArchive.cpp:938-951 | on success the image holds the oop map's layout at the old cursor; otherwise the archive is failed |
| SideTables.OopMapListLayoutAppend | src/hotspot/share/code/SCArchive.cpp:937-952 | the layout of two lists of oop maps is the concatenation of theirs |
| SideTables.DataFitsAppend | src/hotspot/share/code/SCArchive.cpp:939 | two lists whose data sizes fit an `int` still do when joined |
| SideTables.OopMapListSnoc | src/hotspot/share/code/SCArchive.cpp:937-952 | one more oop map appends its layout |
| SideTables.AppendOopMap | src/hotspot/share/code/SCArchive.cpp:938-951 | one turn of the loop appends one oop map to what the loop wrote |
| SideTables.WriteOopMaps | src/hotspot/share/code/SCArchive.cpp:931-954 | on success the image holds the count and every oop map at the old cursor; otherwise the archive is failed |
| SideTables.WriteTable | src/hotspot/share/code/SCArchive.cpp:1423-1444 | on success the image holds the table's length and bytes at the old cursor; otherwise the archive is failed |
| SideTables.WriteHandlerTables | src/hotspot/share/code/SCArchive.cpp:1422-1444 | on success the image holds both tables at the old cursor; otherwise the archive is failed |
| SideTables.WriteMapsAndTables | src/hotspot/share/code/SCArchive.cpp:1417-1444 | on success the image holds the oop maps and both tables; otherwise the archive is failed |
| SideTables.WriteSideTables | src/hotspot/share/code/SCArchive.cpp:1401-1444 | on success the image holds `SideTablesLayout` at the old cursor; otherwise the archive is failed |
| SideTables.ReadDebugInfo | src/hotspot/share/code/SCArchive.cpp:848-874 | the result is `DecodeDebug` of the bytes from the cursor; the cursor advances by what was used; a short read fails the archive |
| SideTables.DebugFromReads | src/hotspot/share/code/SCArchive.cpp:849-872 | each short read of `read_debug_info` makes the whole read short; all four reads together give the debug info |
| SideTables.DebugAfterCounts | src/hotspot/share/code/SCArchive.cpp:860-872 | after the two counts, a size at or over 2^32 or past the end reads short, and otherwise the stream and `PcDesc` array are read |
| SideTables.ReadDeps | src/hotspot/share/code/SCArchive.cpp:1213-1227 | the result is `DecodeDeps` of the bytes from the cursor, with the same consequences |
| SideTables.OopMapAfterCount | src/hotspot/share/code/SCArchive.cpp:912-925 | after the data size, the `OopMap` header and the data are read, or the read is short |
| SideTables.ReadOopMap | src/hotspot/share/code/SCArchive.cpp:907-926 | the result is `DecodeOopMap` of the bytes from the cursor, with the same consequences |
| SideTables.OopMapFromReads | src/hotspot/share/code/SCArchive.cpp:907-926 | each short read makes the map's read short; all three together give the map |
| SideTables.DecodeOopMapListStep | src/hotspot/share/code/SCArchive.cpp:906-927 | one more oop map continues the list, and its short read ends it |
| SideTables.NextOopMap | src/hotspot/share/code/SCArchive.cpp:906-927 | one turn of the loop keeps the read so far equal to the decoding of the list |
| SideTables.ReadNextOopMap | src/hotspot/share/code/SCArchive.cpp:907-926 | reading one more oop map keeps the read so far equal to the decoding of the list |
| SideTables.ReadOopMapList | src/hotspot/share/code/SCArchive.cpp:906-927 | the result is `DecodeOopMapList` of the bytes from the cursor |
| SideTables.ReadOopMaps | src/hotspot/share/code/SCArchive.cpp:899-929 | the result is `DecodeOopMaps` of the bytes from the cursor; a short read fails the archive |
| SideTables.ReadTable | src/hotspot/share/code/SCArchive.cpp:1236-1266 | the result is `DecodeTable` of the bytes from the cursor, with the same consequences |
| SideTables.HandlerTablesSteps | src/hotspot/share/code/SCArchive.cpp:1236-1266 | the two tables are read one after the other; either short read makes the whole short |
| SideTables.ReadHandlerTables | src/hotspot/share/code/SCArchive.cpp:1236-1266 | the result is `DecodeHandlerTables` of the bytes from the cursor |
| SideTables.MapsAndTablesSteps | src/hotspot/share/code/SCArchive.cpp:1230-1266 | maps, then tables; either short read makes the whole short |
| SideTables.ReadMapsAndTables | src/hotspot/share/code/SCArchive.cpp:1230-1266 | the result is `DecodeMapsAndTables` of the bytes from the cursor |
| SideTables.SideTablesSteps | src/hotspot/share/code/SCArchive.cpp:1205-1266 | debug info, dependencies, then maps and tables; any short read makes the whole short |
| SideTables.ReadSideTables | src/hotspot/share/code/SCArchive.cpp:1205-1266 | the result is `DecodeSideTables` of the bytes from the cursor; the cursor advances by what was used; a short read fails the archive |
| Artifacts.Outcome.Fail | src/hotspot/share/code/SCArchive.cpp:1201-1203 | a failed step ends the enclosing load the same way: missing, failed, declined or crashed |
| Artifacts.Unloaded | src/hotspot/share/code/SCArchive.cpp:638-649 | a reader's failure ends the load: a short read as a failed archive, a refusal as a usable one, a crash as a crash |
| Artifacts.Lookup | src/hotspot/share/code/SCArchive.cpp:312-335 | `find_entry` returns only an entry of the asked kind and id from the loaded array, and returns one whenever the array holds a match |
| Artifacts.NameRoundTrip | src/hotspot/share/code/SCArchive.cpp:379-394 | a stored name is accepted exactly when it is a prefix of the asked name (`strncmp` over `name_size - 1` bytes); a mismatch fails the archive |
| Artifacts.NameMismatchAsWrittenKeepsArchiveUsable | src/hotspot/share/code/SCArchive.cpp:390-393 | as written, `archive->failed()` only queries the flag, so a name mismatch returns `false` with the archive still usable, where `set_failed()` was intended |
| Artifacts.CheckName | src/hotspot/share/code/SCArchive.cpp:379-394 | the name check's result is `NameAt` of the image; a mismatch or short read fails the archive |
| Artifacts.Append | src/hotspot/share/code/SCArchive.cpp:288-302 | one `write_bytes` of a block appends it to what the store has written so far, or fails the archive |
| Artifacts.AppendPadding | src/hotspot/share/code/SCArchive.cpp:256-269 | `align_write` appends zeros up to the next multiple of 8 (a full 8 at an aligned offset), or fails the archive |
| Artifacts.RecordEntry | src/hotspot/share/code/SCArchive.cpp:304-310 | `add_entry` appends the new entry, with `next_idx` as its index, to the entries to write, creating the list when there is none |
| Artifacts.FlagsRoundTrip | src/hotspot/share/code/SCArchive.cpp:1173-1175 | the three flags `store_nmethod` packs (line 1374) unpack to the same flags, and the word is between 0 and 0x10101 |
| Artifacts.StubEntryLayout | src/hotspot/share/code/SCArchive.cpp:418-438 | a stub's entry: name at offset 0 with its NUL, code at an aligned offset ending the block, no relocations, kind `Stub` |
| Artifacts.StubEntryFields | src/hotspot/share/code/SCArchive.cpp:418-438 | the code offset is the name, its NUL and the padding after them; the code size is the code's |
| Artifacts.StubRoundTrip | src/hotspot/share/code/SCArchive.cpp:368-442 | a stub block at its entry's offset loads back as its code when the stored name is a prefix of the asked name, and fails the archive otherwise |
| Artifacts.StoredStubLoads | src/hotspot/share/code/SCArchive.cpp:368-442 | what `store_stub` writes over any image, `load_stub` reads back through the entry it records |
| Artifacts.WriteStubBlock | src/hotspot/share/code/SCArchive.cpp:415-436 | on success the image holds the padding and the stub block at the old cursor; otherwise the archive is failed |
| Artifacts.StoreStub | src/hotspot/share/code/SCArchive.cpp:410-442 | without an archive open for writing nothing changes; on success the padded stub block is written at the old cursor and its entry appended; otherwise the archive is failed; the archive stays valid |
| Artifacts.ReadStub | src/hotspot/share/code/SCArchive.cpp:378-407 | the result is `StubFrom` of the image; a short read or name mismatch fails the archive |
| Artifacts.LoadStub | src/hotspot/share/code/SCArchive.cpp:368-408 | without an archive open for reading, nothing; with no entry of that id, nothing; otherwise the stub as `StubFrom` reads it; an entry array that cannot be read fails the archive |
| Blobs.BlobEntryFields | src/hotspot/share/code/SCArchive.cpp:807-842 | the exception blob's entry: `pc_offset` first, name at offset 4, code at an aligned offset, relocations right after the code, kind `Blob`, id 999 |
| Blobs.RestOfBlock | src/hotspot/share/code/SCArchive.cpp:629-647 | from the code offset of a written block come the code then the relocations; from the relocation offset, the relocations |
| Blobs.BlobRoundTrip | src/hotspot/share/code/SCArchive.cpp:585-661 | a blob block loads back as its `pc_offset`, code sections and relocated sections when the stored name is a prefix of the buffer's name, and fails the archive otherwise |
| Blobs.StoredBlobLoads | src/hotspot/share/code/SCArchive.cpp:585-846 | what `store_exception_blob` writes over any image, `load_exception_blob` reads back through the entry it records: the `pc_offset`, code and relocated sections on a prefix name, a failed archive otherwise |
| Blobs.BlobFromParts | src/hotspot/share/code/SCArchive.cpp:600-649 | the load is the `pc_offset`, then the name check, then the code and relocations |
| Blobs.HeadOfBlob | src/hotspot/share/code/SCArchive.cpp:606-618 | a written block starts with `pc_offset` and then the name and its NUL |
| Blobs.BlobBodyRoundTrip | src/hotspot/share/code/SCArchive.cpp:629-649 | through the entry `store_exception_blob` records, the code and relocations read back as written |
| Blobs.CodeAtBlock | src/hotspot/share/code/SCArchive.cpp:629-640 | code written at the entry's code offset reads back |
| Blobs.RelocsAtBlock | src/hotspot/share/code/SCArchive.cpp:643-649 | relocations written at the entry's relocation offset read back, with `reloc_size` as room |
| Blobs.PartsAt | src/hotspot/share/code/SCArchive.cpp:629-647 | the entry's offsets find the code and the relocations in the block |
| Blobs.MaxCountBound | src/hotspot/share/code/SCArchive.cpp:664-671 | relocations the archive can carry keep `max_reloc_size` within a `uint` |
| Blobs.CodeSizeBound | src/hotspot/share/code/SCArchive.cpp:759-790 | the code size reported is at most the bytes written for the code |
| Blobs.WriteBlobHead | src/hotspot/share/code/SCArchive.cpp:804-825 | on success the image holds the padding, `pc_offset`, the name and the padding after it; otherwise the archive is failed |
| Blobs.WriteBlobBody | src/hotspot/share/code/SCArchive.cpp:827-838 | on success the image holds the code then the relocations, with the code size and `max_reloc_size`; `fatal` only when a relocation cannot be carried; a failed write fails the archive |
| Blobs.PaddedBlobWritten | src/hotspot/share/code/SCArchive.cpp:804-838 | the head and then the body written over the image are the padded blob block |
| Blobs.WriteBlobBlock | src/hotspot/share/code/SCArchive.cpp:804-838 | on success the image holds the padded blob block at the old cursor; otherwise a `fatal` for an unwritable relocation or a failed archive |
| Blobs.RecordBlob | src/hotspot/share/code/SCArchive.cpp:840-843 | the blob's entry is appended with `next_idx` as its index |
| Blobs.EntryOfStoredBlob | src/hotspot/share/code/SCArchive.cpp:840-842 | the entry built from the sizes the writers return is the entry of the stored blob |
| Blobs.StoreBlob | src/hotspot/share/code/SCArchive.cpp:792-846 | without an archive open for writing nothing changes; on success the padded blob block is written at the old cursor and its entry appended; `fatal` only for relocations that cannot be carried; otherwise the archive is failed; the archive stays valid |
| Blobs.ReadCodeAt | src/hotspot/share/code/SCArchive.cpp:629-640 | the code read is `CodeAt` of the image; a short read fails the archive, a refusal leaves it usable |
| Blobs.ReadRelocsAt | src/hotspot/share/code/SCArchive.cpp:643-649 | the relocations read are `RelocsAt` of the image, with the same consequences |
| Blobs.ReadBlobParts | src/hotspot/share/code/SCArchive.cpp:629-649 | the code and relocations read are `BlobParts` of the image |
| Blobs.ReadBlob | src/hotspot/share/code/SCArchive.cpp:600-649 | the result is `BlobFrom` of the image; a short read or name mismatch fails the archive |
| Blobs.LoadBlob | src/hotspot/share/code/SCArchive.cpp:585-661 | without an archive open for reading, nothing; with no blob entry, nothing; otherwise the blob as `BlobFrom` reads it |
| Nmethods.DecodePrologue | src/hotspot/share/code/SCArchive.cpp:1167-1194 | the flags, `orig_pc_offset`, `frame_size` and `CodeOffsets` are read or read short, never past the end |
| Nmethods.DecodeTablesAndCode | src/hotspot/share/code/SCArchive.cpp:1205-1277 | the side tables and code are read, read short or refused, never past the end and never crashing |
| Nmethods.DecodeAfterPrologue | src/hotspot/share/code/SCArchive.cpp:1196-1277 | metadata, side tables and code never consume more than is there |
| Nmethods.DecodeBody | src/hotspot/share/code/SCArchive.cpp:1167-1277 | the body read from the code offset never consumes more than is there |
| Nmethods.PrologueFromFields | src/hotspot/share/code/SCArchive.cpp:1167-1194 | bytes holding the flags, the two ints and the `CodeOffsets` read as that prologue |
| Nmethods.PrologueRoundTrip | src/hotspot/share/code/SCArchive.cpp:1167-1194 | the prologue `store_nmethod` writes (lines 1374-1394) reads back, whatever follows it |
| Nmethods.PrologueAtFront | src/hotspot/share/code/SCArchive.cpp:1167-1194 | a prologue at the front of the bytes reads back |
| Nmethods.MetadataAtFront | src/hotspot/share/code/SCArchive.cpp:1201-1203 | metadata at the front reads back as its methods, or is refused when one does not resolve |
| Nmethods.SideTablesAtFront | src/hotspot/share/code/SCArchive.cpp:1205-1266 | side tables at the front read back |
| Nmethods.CodeAtFront | src/hotspot/share/code/SCArchive.cpp:1274-1277 | code at the front reads back |
| Nmethods.TablesAndCodeAtFront | src/hotspot/share/code/SCArchive.cpp:1205-1277 | side tables and code at the front read back |
| Nmethods.AfterPrologueAtFront | src/hotspot/share/code/SCArchive.cpp:1196-1277 | metadata, side tables and code read back when every method resolves, and are refused otherwise |
| Nmethods.AfterMetadata | src/hotspot/share/code/SCArchive.cpp:1201-1277 | after metadata read whole, the side tables and code follow |
| Nmethods.AfterRefusedMetadata | src/hotspot/share/code/SCArchive.cpp:1201-1203 | refused metadata ends the load refused |
| Nmethods.BodyAtFront | src/hotspot/share/code/SCArchive.cpp:1167-1277 | a body at the front reads back as `BodyBack`: its parts with the methods resolved, or refused |
| Nmethods.AfterPrologue | src/hotspot/share/code/SCArchive.cpp:1167-1277 | the prologue, then the rest of the body |
| Nmethods.RefusedAfterPrologue | src/hotspot/share/code/SCArchive.cpp:1196-1277 | a refusal after the prologue refuses the body |
| Nmethods.BodyAtRoundTrip | src/hotspot/share/code/SCArchive.cpp:1162-1277 | a body written at the entry's code offset reads back |
| Nmethods.NmethodEntryFields | src/hotspot/share/code/SCArchive.cpp:1349-1460 | an nmethod's entry: name at offset 0 with its NUL, body at an aligned offset, relocations right after, kind `Code`, the compile id as id |
| Nmethods.HeadOfNmethod | src/hotspot/share/code/SCArchive.cpp:1137-1148 | a written block starts with the name and its NUL |
| Nmethods.CodeSizeInBody | src/hotspot/share/code/SCArchive.cpp:1446-1450 | the code size reported is at most the body's bytes |
| Nmethods.NmethodPartsRoundTrip | src/hotspot/share/code/SCArchive.cpp:1162-1286 | through the entry `store_nmethod` records, the body and relocations read back as written |
| Nmethods.NmethodFromParts | src/hotspot/share/code/SCArchive.cpp:1137-1286 | the load is the name check, then the body, then the relocations |
| Nmethods.NmethodRoundTrip | src/hotspot/share/code/SCArchive.cpp:1116-1311 | an nmethod block loads back as its prologue, resolved methods, side tables (oop maps included), code and relocated sections when the stored name is a prefix of the asked name and every method resolves; a name mismatch fails the archive and an unresolved method declines |
| Nmethods.StoredNmethodLoads | src/hotspot/share/code/SCArchive.cpp:1116-1468 | what `store_nmethod` writes over any image, `load_nmethod` reads back through the entry it records: the whole nmethod on a prefix name with every method resolved, a decline for an unresolved method, a failed archive on a mismatch |
| Nmethods.OopMapsLostAsWritten | src/hotspot/share/code/SCArchive.cpp:1229-1233 | as written, `read_oop_maps` assigns the set it builds to its own copy of the argument, so the nmethod is registered with no oop maps even when some were stored; the corrected load hands them back |
| Nmethods.WriteNmethodHead | src/hotspot/share/code/SCArchive.cpp:1346-1370 | on success the image holds the padding, the name and the padding after it; otherwise the archive is failed |
| Nmethods.WritePrologue | src/hotspot/share/code/SCArchive.cpp:1374-1394 | on success the image holds the prologue at the old cursor; otherwise the archive is failed |
| Nmethods.WriteTablesAndCode | src/hotspot/share/code/SCArchive.cpp:1401-1450 | on success the image holds the side tables and code, with the code size; otherwise the archive is failed |
| Nmethods.WriteAfterPrologue | src/hotspot/share/code/SCArchive.cpp:1396-1450 | on success the image holds metadata, side tables and code; otherwise the archive is failed |
| Nmethods.WriteBody | src/hotspot/share/code/SCArchive.cpp:1372-1450 | on success the image holds the body at the old cursor; otherwise the archive is failed; the address table is unchanged |
| Nmethods.PaddedBlockWritten | src/hotspot/share/code/SCArchive.cpp:1346-1456 | the head and then the body and relocations written over the image are the padded nmethod block |
| Nmethods.WriteBodyAndRelocs | src/hotspot/share/code/SCArchive.cpp:1372-1456 | on success the image holds the body then the relocations, with the code size and `max_reloc_size`; `fatal` only when a relocation cannot be carried; a failed write fails the archive |
| Nmethods.WriteNmethodBlock | src/hotspot/share/code/SCArchive.cpp:1346-1456 | on success the image holds the padded nmethod block at the old cursor |
| Nmethods.RecordNmethod | src/hotspot/share/code/SCArchive.cpp:1458-1461 | the nmethod's entry is appended with `next_idx` as its index |
| Nmethods.EntryOfStored | src/hotspot/share/code/SCArchive.cpp:1458-1460 | the entry built from the sizes the writers return is the entry of the stored nmethod |
| Nmethods.StoreNmethod | src/hotspot/share/code/SCArchive.cpp:1313-1468 | an OSR method, a non-C2 method or an archive not open for writing change nothing; on success the padded nmethod block is written at the old cursor and its entry appended; `fatal` only for relocations that cannot be carried; otherwise the archive is failed; the archive stays valid |
| Nmethods.PrologueFromReads | src/hotspot/share/code/SCArchive.cpp:1167-1194 | a short read of the `CodeOffsets` makes the prologue short; otherwise the four reads give the prologue |
| Nmethods.ReadPrologue | src/hotspot/share/code/SCArchive.cpp:1167-1194 | the result is `DecodePrologue` of the bytes from the cursor; a short read fails the archive |
| Nmethods.TablesAndCodeSteps | src/hotspot/share/code/SCArchive.cpp:1205-1277 | side tables, then code; either failure ends the read |
| Nmethods.ReadTablesAndCode | src/hotspot/share/code/SCArchive.cpp:1205-1277 | the result is `DecodeTablesAndCode` of the bytes from the cursor |
| Nmethods.AfterPrologueSteps | src/hotspot/share/code/SCArchive.cpp:1196-1277 | metadata, then side tables and code; either failure ends the read |
| Nmethods.ReadAfterPrologue | src/hotspot/share/code/SCArchive.cpp:1196-1277 | the result is `DecodeAfterPrologue` of the bytes from the cursor |
| Nmethods.BodySteps | src/hotspot/share/code/SCArchive.cpp:1167-1277 | prologue, then the rest; either failure ends the read |
| Nmethods.ReadBody | src/hotspot/share/code/SCArchive.cpp:1162-1277 | the result is `BodyAt` of the image; a short read fails the archive, a refusal leaves it usable |
| Nmethods.ReadNmethod | src/hotspot/share/code/SCArchive.cpp:1132-1286 | the result is `NmethodFrom` of the image; a short read or name mismatch fails the archive |
| Nmethods.LoadNmethod | src/hotspot/share/code/SCArchive.cpp:1116-1311 | an OSR method, a non-C2 compiler or no archive open for reading give nothing and change nothing; with no entry for the compile id, nothing; otherwise the nmethod as `NmethodFrom` reads it |

## Left out

- Relocations.WriteRelocations: one relocation is one `relocInfo` record. HotSpot's `RelocIterator` folds data-prefix records into the relocation that follows them (cpp:489-534, 701-745), and `internal_word` relocations can carry such prefixes. The source stores such a section and writes `reloc_count` words, of which the trailing ones are never set. The model gives a prefix record the kind `OtherType`, so the writer reaches `fatal` (`WriteFatal`) where the source stores the section.
- Relocations.ReadRelocations: for the same reason, a section that holds data-prefix records is read with one patch per record, not one per relocation.
- Relocations.RelocationsRoundTrip: the writer and the reader use the same address table and runtime (one `Env`). A loading VM whose table registers different addresses is not covered.
- CodeSections.ReadCode: the reader is given a capacity for every section. `read_code` first resizes every section but insts to its stored size (cpp:551-553), so in the source only insts can refuse. The model refuses whenever a size exceeds the capacity it was given.
- FileImage.ReadStep: a short `::read` or `os::write` moves nothing in the model. A real partial transfer moves the file descriptor while `_file_offset` stays put, and `seek_to_position`'s shortcut (cpp:241) then skips the `lseek`. The model therefore understates what happens after a short transfer in the as-written code.
- Relocations.DecodeRelocBody: a negative `reloc_count` (cpp:467-470) is modelled as a short read of the records; what `initialize_locs` does with a negative count is HotSpot internals.
- Metadata.DecodeMethodText: a negative `total_length` (cpp:996-997) is modelled as a short read; `NEW_RESOURCE_ARRAY` of a negative size is not modelled.
- AddressTable.SCATable.InitOpto: requires room for its 16 addresses. After `init` the array holds 10 of 30, so a single call fits; a second call overruns the C array in the source and is outside the model.
- Archive.SCAFile.Close: `~SCAFile` asks the static `open_for_write()`, which looks at the installed archive (cpp:200). The model asks this archive; the two differ only for an archive that is not the installed one.
- The debug-only `assert`s are not modelled, among them `init only once` at cpp:1476, `dist > total` at cpp:1621 (`IdRoundTrip` takes it as a premise for raw distances), the header checks at cpp:166-167, `idx() == i` at cpp:330, `j <= reloc_count` at cpp:535 and 746, and the `for_read()`/`for_write()` asserts at cpp:272 and 289.
- `read_oop_maps` takes `oop_maps->at(i)` from the set it has just created, which is still empty (cpp:915), and never uses the result. A debug build's bounds check in `at` would stop the first map of every load. The model follows a product build and leaves the unused read out.
- `COMPILER2` is fixed on: `handle_exception_C`, the two C2 blobs of `init` and all of `init_opto` are always registered.
- The operating system is left out: `os::open`, `::read`, `os::write`, `os::lseek` and `close` become a byte image with a cursor, a write limit and a seek limit. In `SCArchive::initialize`, `open_for_read` and `open_for_write` (cpp:63-142), only the base-name step (`Archive.BaseName`) and the `SCAFile` constructor are modelled. `stat`, `remove`, `chmod` and `open` are left out, and the constructor is given the file's bytes. The installed archive (`SCArchive::_archive`) is passed to the store and load methods instead of being looked up through `open_for_read()`/`open_for_write()`.
- Logging (`log_info`, `log_warning`) and the `UseNewCode2`/`UseNewCode3` prints are left out.
- The VM is left out. `register_method` and the code-cache allocation after a load are not modelled: a load returns the parts it read. The symbol table and system dictionary are a `Resolver`, the code cache and `os::dll_address_to_function_name` are a `Runtime`, and `relocInfo::type` is a function of the record.
- The byte sizes of `CodeOffsets`, `PcDesc` and `OopMap`, and the tables' `size_in_bytes`, are a `Sizes` parameter. The debug stream, dependencies, oop-map data and the two tables are copied as opaque bytes, exactly as the source copies them.
- Declarations in SCArchive.hpp without a body in SCArchive.cpp (`read_klass`, `read_oop` and the like) are not modelled.
- The header declares some sizes as `uint` where the .cpp passes `size_t`. The model follows the .cpp and stores every entry field modulo 2^32.

## Findings

| source | as written | input that shows it | evidently intended | confidence | as-written member | corrected member |
|---|---|---|---|---|---|---|
| src/hotspot/share/code/SCArchive.cpp:247,279,296 | a failed seek, read or write calls the const getter `failed()`, which only returns the flag | a read of 4 bytes at the end of the file: it returns 0, yet `for_read()` still holds | `set_failed()`, so the archive refuses all further use | not executed | FileImage.ReadStepAsWritten, FileImage.ShortReadAsWrittenKeepsArchiveOpen, FileImage.FailuresAsWrittenKeepArchiveWritable | FileImage.ReadStep, FileImage.ShortTransferDisables, FileImage.FailureIsSticky |
| src/hotspot/share/code/SCArchive.cpp:392,625,1157 | a stored name that differs calls `failed()`, so the archive stays usable | stored name `A`, asked name `B`: `load_stub` returns false with the archive still open for reading | `set_failed()`, as for a failed seek, read or write | not executed | Artifacts.NameAtAsWritten, Artifacts.NameMismatchAsWrittenKeepsArchiveUsable | Artifacts.NameRoundTrip, Artifacts.CheckName |
| src/hotspot/share/code/SCArchive.cpp:340 | `finish_write` reads `_write_entries->length()`, and the list is only created by the first `add_entry` | open for writing, store nothing, close: a null dereference | a count of 0, an entry offset of 0 and the header alone | not executed | Archive.FinishedImageAsWritten, Archive.FinishWriteWithoutEntries | Archive.WrittenCount, Archive.FinishedArchiveReadsBack |
| src/hotspot/share/code/SCArchive.cpp:1559 | `address_for_id` casts the `size_t` id to `int` | an address 2^32 + k bytes past `os::init` is stored as a raw distance; its id is cast to `int`: for k below the table's total it reads back as table slot k, for k equal to the total it is `fatal`, and for k of 2^31 or more it becomes a negative `int` and is `fatal` | the whole `size_t` distance | not executed | AddressTable.AddressForAsWritten, AddressTable.AsWrittenDistanceAliasesTable, AddressTable.AsWrittenLargeDistanceIsFatal | AddressTable.AddressFor, AddressTable.AddressForPartition, AddressTable.IdRoundTrip |
| src/hotspot/share/code/SCArchive.cpp:1033-1034 | `find_method` is called on the class before the check that it was found | a method whose three symbols exist but whose holder class is not loaded: a null dereference | check `k` first and return false | not executed | Metadata.ResolveAsWritten, Metadata.MissingClassAsWritten | Metadata.Resolve, Metadata.MetadataRoundTrip |
| src/hotspot/share/code/SCArchive.cpp:482-483 | the extra-data words are read into `reloc_data` with no check against its `max_reloc_count` slots | an entry whose `reloc_size` is 0 and whose section has one record: 8 bytes are read into a zero-length array. Only a damaged file reaches this, because the writer sizes `reloc_size` by the largest section | refuse a section with more records than `reloc_data` holds | not executed | Relocations.DecodeRelocSectionAsWritten, Relocations.OverrunAsWritten, Relocations.AsWrittenAgreesUnlessRefused | Relocations.DecodeRelocSection, Relocations.RelocationsRoundTrip |
| src/hotspot/share/code/SCArchive.cpp:899-929,1230-1233 | `read_oop_maps` assigns the new `OopMapSet` to its by-value parameter, so the caller's `oop_maps` stays null | any nmethod stored with oop maps: it is registered with none | pass the set back to `load_nmethod` | not executed | Nmethods.NmethodFromAsWritten, Nmethods.OopMapsLostAsWritten | Nmethods.NmethodFrom, Nmethods.NmethodRoundTrip |
