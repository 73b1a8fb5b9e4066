# libSUarchive in-memory archive engine, in Dafny

This project models the in-memory archive engine of the single-header C library
`libSUarchive.h`. An AR archive is one byte buffer. It starts with a 16-byte
header {0, 16, 20, 64}, followed by records packed back to back with no index.
A record is:

- a 20-byte entry header: `size`, `dataSize`, `offset`, then two zero words;
- the name, terminated by a NUL;
- the payload, starting `offset` bytes from the record start.

An `siArFile` holds the buffer pointer, `len`, `cap`, the compression tag and a
polling cursor `curOffset`. The model covers these operations:

- opening a caller's buffer and classifying its magic;
- creating an empty archive;
- polling with the cursor;
- find by name;
- add, which scans for a duplicate and then appends;
- remove, which closes the gap;
- the transient FNV-1a name set used by merge;
- `siswa_arMergeMul`;
- creating and polling an ARL linker.

Files:

- `bytes.dfy` (module `Bytes`):
  - bytes and 32-bit little-endian fields;
  - C strings;
  - the `strncmp`-based name test of find and add.
- `layout.dfy` (module `Layout`):
  - the record layout, and the record add writes;
  - `Flatten`, which lays records out back to back;
  - `Start`, the offset of record k;
  - a decoder that walks the `size` fields.
- `archive.dfy` (module `Archive`): class `ArFile`.
  - Its real fields are `data`, `len`, `cap`, `compressed` and `cur`.
  - The ghost field `Records` is the decoding of bytes [16, len).
  - The ghost field `Pos` is the record index of the cursor.
  - `Valid()` says `data[16..len] == Flatten(Records)`.
  - `CursorOk()` says `cur == Start(Records, Pos)`.
- `nameset.dfy` (module `NameSet`):
  - FNV-1a 64-bit hashing over signed `char`s;
  - class `HashTable`, an open-addressing table whose slots are an `array` of optional names.
- `merge.dfy` (module `Merge`):
  - pure functions state which records a merge keeps, with lemmas about them;
  - an imperative `MergeMul` is proved to write exactly those records.
  - `FirstWins` covers the secondary archives: first occurrence wins.
  - `Unseen` covers the main archive: a main record is dropped only when its name came from a secondary archive.
  - `Merged` is the two together.
- `linker.dfy` (module `Linker`):
  - the ARL2 header;
  - the length-prefixed name entries;
  - class `ArlFile` with `Create` and `Poll`.

C assertions (`SI_ASSERT`) are fatal, so they are modelled as preconditions.
Logical failures are return values:

- add reports a duplicate name with `false`;
- remove reports a missing name with `false`.

Points where the code departs from its own doc comments, or leaves a case
unchecked; the model follows the code:

- The doc comment of add says it fails if the entry name already exists
  (libSUarchive.h:178-181). The duplicate scan of add starts at the caller's
  cursor, not at the first record, so a name before the cursor is missed (see
  Findings).
- The same doc comment says add fails when the capacity is too low
  (libSUarchive.h:178-181). The capacity check is a fatal assertion with a
  strict `<` (libSUarchive.h:482), not a failing result.
- `MergeMul` never checks the output capacity (libSUarchive.h:514-566). Enough
  room in the output buffer is a precondition of `MergeMul`.
- The magic is compared as a native `uint32_t` (libSUarchive.h:376-380). The
  model reads it little-endian, as on a little-endian host.

## Model

| member | source | states |
|---|---|---|
| Bytes.ReadLE32 | libSUarchive.h:104-129 | Reading back a 32-bit field stored little-endian gives the value stored. |
| Bytes.LE32Read | libSUarchive.h:104-129 | Storing the value read from four bytes gives those bytes back, so the field encoding is a bijection. |
| Bytes.CStrAt | libSUarchive.h:277-280 | The C string at an offset is the NUL-free run of bytes there, ending at the first NUL or the buffer end. |
| Bytes.StrnEqNoNul | libSUarchive.h:441 | For NUL-free bytes, `strncmp(a, s, n) == 0` holds exactly when `s` starts with the first n bytes of `a`. |
| Bytes.NameMatchesIsPrefix | libSUarchive.h:441 | For a NUL-free query, the name test of find and add (first byte, then `strncmp` on `nameLen - 1` bytes) holds exactly when the record's name starts with the query. |
| Layout.EntryHeaderFields | libSUarchive.h:117-128 | The size, dataSize and offset read from a written 20-byte entry header are the values written. |
| Layout.RecordRoundTrip | libSUarchive.h:476-495 | The record add writes has size = dataSize + nameLen + 21, which is its length, and offset = nameLen + 21. For a name whose first byte is not NUL it is well-formed and its payload reads back as the payload; for a NUL-free name, its name reads back as the name. |
| Layout.RecordAt | libSUarchive.h:419-428 | In a valid buffer, record k occupies [Start(k), Start(k+1)) and its size field equals its length, so advancing by `size` lands on the next record. |
| Layout.StartBeforeEnd | libSUarchive.h:421-423 | The cursor at a record start is below the end of the layout exactly when a record is left to poll. |
| Layout.RemoveLayout | libSUarchive.h:500-512 | Keeping the bytes before record k and moving the bytes after it down by its size leaves the other records laid out in order. |
| Layout.AppendLayout | libSUarchive.h:485-495 | Writing a record at the end of the layout extends the layout by that record. |
| Layout.DecodeFlatten | libSUarchive.h:419-428 | Walking the size fields of laid-out well-formed records, as polling does, decodes exactly those records. |
| Archive.FirstMatch | libSUarchive.h:433-447 | The first index at or after k whose name matches the query. No earlier index matches, and when there is none, no index matches. |
| Archive.EntryAccessors | libSUarchive.h:449-454 | `GetName` of record k's entry gives the record's name, and `GetData` with `dataSize` gives its payload. |
| Archive.GrowLayout | libSUarchive.h:485-495 | After an append, bytes [16, len + size) are the old records then the new one, all well-formed. No record start moves. |
| Archive.DropLayout | libSUarchive.h:505-511 | After closing up record k, bytes [16, len) are the other records, all well-formed. Records before k keep their offsets. |
| Archive.Write | libSUarchive.h:485-494 | `memcpy` places the bytes at the offset and leaves every other byte unchanged. |
| Archive.AddExAtEndOverwrites | libSUarchive.h:462-470 | With the cursor past the last record of a non-empty archive, add as written appends at 16, inside the first record. |
| Archive.AddExMissesDuplicate | libSUarchive.h:465-474 | With the cursor after an archive's only record, add as written does not see that record's name, although a scan from the first record finds it. |
| Archive.AddExMissesDuplicateMid | libSUarchive.h:465-474 | With two records and the cursor on the second, add as written does not see the first record's name and its scan ends at len, so it appends a second record with that name to a well-formed archive. |
| Archive.ArFile.MakeBuffer | libSUarchive.h:369-392 | Wraps the buffer with the given len and cap and the cursor at 16. The XCompression magic gives the compressed tag and any other magic gives none; ARL2 is refused. A well-formed layout is decoded into Records. |
| Archive.ArFile.CreateContent | libSUarchive.h:398-417 | Writes the header {0,16,20,64} and leaves the rest of the buffer alone. len = 16, cursor 16, uncompressed, no records. |
| Archive.ArFile.Copy | libSUarchive.h:465 | The struct copy has the same buffer, lengths, tag and cursor, and is valid when the original is. |
| Archive.ArFile.Poll | libSUarchive.h:419-428 | At the end, returns nothing and resets the cursor to 16. Otherwise returns the entry at the cursor and advances the cursor by that entry's size field to the next record. |
| Archive.ArFile.Peek | libSUarchive.h:420-427 | The bytes [cur, cur + size) are record k, and the next record starts there. |
| Archive.ArFile.Scan | libSUarchive.h:467-474 | Finds the first match from record k0, or reports none. Without a match, returns the end of the last record scanned, or 16 when none was scanned. |
| Archive.ArFile.FindEx | libSUarchive.h:433-447 | Scans from the first record, whatever the cursor, and returns the offset of the first matching record. Returns nothing exactly when no record matches. |
| Archive.ArFile.AddEx | libSUarchive.h:459-496 | As written: fails, changing nothing, exactly when a record from the cursor on matches. Otherwise writes header, name, NUL and payload at the scan end and grows len by the record's size. The bytes before and after are unchanged. When the scan end is len, the layout gains the record. |
| Archive.ArFile.Add | libSUarchive.h:459-496 | Corrected add: fails, changing nothing, exactly when any record matches. Otherwise appends the record at len, len grows by its size, the records gain it, and the cursor stays valid. |
| Archive.ArFile.AppendRecord | libSUarchive.h:494-495 | Once the record's bytes are written and len has grown, the records gain the record and the cursor stays on its record. |
| Archive.ArFile.DropRecord | libSUarchive.h:509-510 | Once record k's bytes are closed up and len has shrunk, the records lose record k. A cursor at or before k stays on its record. |
| Archive.ArFile.Close | libSUarchive.h:510 | `memmove` moves [s + n, end) down to s and leaves the other bytes unchanged. |
| Archive.ArFile.RemoveEx | libSUarchive.h:500-512 | Fails, changing nothing, exactly when no record matches. Otherwise removes the first matching record: len shrinks by its size, the bytes after it move down, and the records lose it. |
| NameSet.BitAndLe | libSUarchive.h:295 | A masked value never exceeds the mask. |
| NameSet.HashKey | libSUarchive.h:273-282 | FNV-1a 64 over the bytes of the C string, each `char` sign-extended, modulo 2^64. |
| NameSet.SlotIndex | libSUarchive.h:295 | The home slot `hash & (capacity - 1)` is always below the capacity. |
| NameSet.HashTable.MakeReserve | libSUarchive.h:284-291 | A table of `capacity` cleared slots: it holds no names and every slot is free. |
| NameSet.HashTable.Exists | libSUarchive.h:293-317 | Succeeds exactly when some slot holds the key. |
| NameSet.HashTable.FreeSlot | libSUarchive.h:325-330 | Returns the first empty slot at or after home, wrapping around, when an empty slot exists. |
| NameSet.HashTable.Set | libSUarchive.h:319-335 | Stores the key in the first empty slot at or after its home slot, wrapping around; no other slot changes. Returns the home slot; the names held gain the key. |
| NameSet.FreeCountFill | libSUarchive.h:332 | Filling an empty slot lowers the number of empty slots by one, so `set` on a table with room leaves room for one fewer. |
| Merge.FirstWinsIsDedup | libSUarchive.h:541-553 | Keeping each polled record whose name was not seen, and then registering it, is the front-to-back rule "keep a record unless an earlier one had its name". |
| Merge.FirstWinsNames | libSUarchive.h:541-553 | The records kept carry every name polled, and no name twice. |
| Merge.FirstWinsFrom | libSUarchive.h:541-553 | Every record kept is one of the records polled. |
| Merge.FirstWinsPrefix | libSUarchive.h:541-553 | The records kept from a prefix of the input are a prefix of those kept from all of it, so the output only grows. |
| Merge.UnseenNames | libSUarchive.h:555-563 | A main record's name reaches the output exactly when the secondary archives did not carry it. |
| Merge.UnseenFrom | libSUarchive.h:555-563 | Every main record copied is a main record whose name was not seen. |
| Merge.UnseenNothing | libSUarchive.h:555-563 | With no names seen, every main record is copied, duplicates included. |
| Merge.MergedNames | libSUarchive.h:514-566 | The merged records carry exactly the names of all inputs, and the records from the secondary archives carry distinct names. |
| Merge.MergedDecodes | libSUarchive.h:514-566 | Merging well-formed archives gives well-formed records, and the output decodes back to exactly the merged records. |
| Merge.MergeShadows | libSUarchive.h:514-566 | A secondary record shadows the main record of the same name; the other main records follow. |
| Merge.MainDuplicatesKept | libSUarchive.h:555-563 | Main records are never registered: two main records with a new name are both copied. |
| Merge.Next | libSUarchive.h:543-544 | A poll plus `GetName` gives the pending record and its NUL-free name, or reports the end. |
| Merge.Register | libSUarchive.h:548 | `si_hashtable_set` on a new name: the set gains the name and keeps a free slot per name still to come. |
| Merge.Emit | libSUarchive.h:549-550 | Copying a record at the output offset extends the records held by the output by that record. |
| Merge.Keep | libSUarchive.h:547-551 | A record with a new name is registered and copied, and the output holds FirstWins of the records so far. |
| Merge.TakeRecord | libSUarchive.h:545-551 | One pass of the first loop keeps the set equal to the names seen and the output equal to FirstWins of the records polled. |
| Merge.CopyPolling | libSUarchive.h:542 | `curAr = arrayOfArs[i]`: a fresh copy that polls exactly the archive's pending records. |
| Merge.NextPending | libSUarchive.h:543-544 | A poll of the copy yields the next item of the pending records. |
| Merge.TakeNext | libSUarchive.h:543-552 | One turn of the inner loop extends the set and the output by one polled record, or stops at the end. |
| Merge.TakePolled | libSUarchive.h:545-551 | Handles a polled record and leaves the copy being polled as it was. |
| Merge.TakeArchive | libSUarchive.h:542-552 | Polling one secondary archive to the end extends the set and the output by all of its pending records. |
| Merge.MainRecord | libSUarchive.h:557-562 | One pass of the second loop copies the main record unless the set holds its name. Nothing is registered. |
| Merge.MainNext | libSUarchive.h:556-562 | One turn of the second loop extends the output by Unseen of one more main record, or stops at the end. |
| Merge.TakeMain | libSUarchive.h:555-563 | The second loop appends Unseen(main records, names of the secondary archives) to the output. |
| Merge.TakeIth | libSUarchive.h:541-553 | One pass of the outer loop handles archive i, whose records follow those of the archives before it. |
| Merge.TakeAll | libSUarchive.h:541-553 | The outer loop leaves the set holding every secondary name and the output holding FirstWins of all secondary records. |
| Merge.HeaderStep | libSUarchive.h:530-539 | The output starts with the header {0,16,20,64} and holds no records yet. |
| Merge.Start | libSUarchive.h:528-539 | An empty name set of 1008 slots, all free and holding no names, with the header written to the output. |
| Merge.Secondaries | libSUarchive.h:541-553 | The first loop runs and leaves the main archive untouched. |
| Merge.MergeMul | libSUarchive.h:514-566 | The output holds the header, then Merged(pending secondary records, pending main records); the bytes after them are unchanged. |
| Linker.ArlHeaderRoundTrip | libSUarchive.h:600-621 | The header create writes reads back as the ARL2 magic, the count modulo 2^32, and the given sizes. |
| Linker.DecodeEncodeNames | libSUarchive.h:211-216 | Splitting length-prefixed linker entries gives back the names written. |
| Linker.ArlFile.Create | libSUarchive.h:600-621 | Writes magic, count and sizes at the front and leaves the rest of the buffer alone. The cursor goes right after them and the tag is uncompressed. |
| Linker.ArlFile.Poll | libSUarchive.h:584-595 | At or past len, returns nothing and leaves the cursor where it is (no reset). Otherwise returns the entry at the cursor and moves past its length byte and name. |
| Linker.PollWalks | libSUarchive.h:584-595 | On the bytes of a list of entries, one poll yields the first name and leaves the cursor on the entries of the rest. |

## Left out

- File loading (`siswa_arMake`, `siswa_arMakeEx`, `siswa_arlMake`, libSUarchive.h:338-364, 572-575): these are file I/O and `malloc`. The model starts from a caller's buffer.
- `siswa_arMakeBuffer`, `siswa_arEntryFind`, `siswa_arEntryAdd` and `siswa_arEntryRemove` (libSUarchive.h:366, 430, 456, 497): they only compute `strlen` of the name, or pass `len` as the capacity, and call the Ex versions, which are modelled.
- `siswa_arCreateArContent` (libSUarchive.h:394-396): a `malloc` wrapper around `siswa_arCreateArContentEx`, which is modelled.
- The free wrappers (libSUarchive.h:568-570, 596-599, 622-624): these are allocator calls only.
- `SI_ASSERT` and the static size asserts (libSUarchive.h:54-76): assertions are preconditions, and the fixed sizes are constants.
- Decompression: the header only compares magics (libSUarchive.h:93, 378-380). No DEFLATE, SEGS or XCompression decoder is present in it, so none is modelled.
- Functions declared without a body or marked TODO, including the `#if 0` ARL find/add/remove/update block (libSUarchive.h:163-164, 187, 189, 230-241).
- `siswa_arlGetHeader` (libSUarchive.h:580-583): a pointer cast. `Linker.ArlHeaderRoundTrip` states what the header holds.
- `siswa_arlMake` and `siswa_arlMakeBuffer` (libSUarchive.h:572-579): they open through the archive opener via a type-punned cast, which refuses the ARL2 magic and puts the cursor at 16. `Linker.ArlFile.Create` leaves `len` and `cap` unassigned, as the C does.
- The example command-line programs (`main.c`): file I/O and printing.
- The name set lives in a stack buffer of 8 KiB with the table struct at its front (libSUarchive.h:516, 528). The model allocates the slot array instead and stores name values, not pointers into the archives. Aliasing of the names is not modelled.
- `siswa_arMergeMul` returns `ogBuffer` (libSUarchive.h:565). The model's `MergeMul` returns nothing; the output buffer is its result.
- Archive.ArFile.AddEx: requires name length + payload size + 21 < 2^32. The C computes `size` in `uint32_t` and would wrap; the wrap-around is not modelled.
- Archive.ArFile.AddEx: requires a non-empty query. With `nameLen == 0` the C computes `nameLen - 1` as a huge `size_t`. FindEx and RemoveEx share this precondition.
- Archive.ArFile.AddEx: promises Valid() and CursorOk() afterwards only when the name does not start with NUL and the record lands at len. The other cases are the Findings below.
- Archive.ArFile.Add: requires a name whose first byte is not NUL, as AddEx does for the layout to stay well-formed. Through `siswa_arEntryAdd` the name length comes from `strlen`, so such a name is never passed there.
- Archive.ArFile.RemoveEx: keeps CursorOk() only when the removed record is at or after the cursor's record. The C leaves `curOffset` alone, so a cursor after the removed record then points inside the shifted bytes.
- Archive.ArFile.Poll, Archive.ArFile.Scan, Archive.ArFile.FindEx, Archive.ArFile.AddEx, Archive.ArFile.Add, Archive.ArFile.RemoveEx and Merge.MergeMul: require `Valid()`, that is, a buffer whose bytes [16, len) decode into well-formed records. `siswa_arMakeBufferEx` (libSUarchive.h:369-392) validates nothing, so malformed buffers are not modelled. On such a buffer the C misbehaves. A record whose `size` field is 0 leaves `curOffset` where it is, so the poll loops of find, add and merge (libSUarchive.h:426, 439, 467, 543, 556) never end. A name without a NUL makes `GetName`, `strncmp` and the hash read past the record.
- Merge.MergeMul: requires an output buffer large enough for the merged records. The C never checks, and writes past the buffer.
- Merge.MergeMul: requires at most 1008 distinct names in the secondary archives. `si_hashtable_set` on a full table never ends (libSUarchive.h:325-330).
- NameSet.HashKey: sign-extends each byte, as for a signed `char`. On a target where `char` is unsigned, a name with a byte of 0x80 or more hashes differently, so its home slot differs.
- Merge.MergeMul: requires that the output buffer is not the buffer of the main archive or of any secondary archive. The C does not forbid this aliasing; merging into an input buffer is not modelled.
- NameSet.HashTable.Exists: requires a NUL-free key, and stored names are NUL-free; both may be empty. For an empty key and an empty stored name the model answers "found", while the C (libSUarchive.h:305) sees equal first bytes (both NUL) and goes on to `strcmp` the bytes past both terminators. The merge never meets this case, because every record name it registers or looks up is non-empty.
- Linker.ArlFile.Poll: states the cursor arithmetic on raw bytes. `Linker.PollWalks` relates it to the entry list. Nothing bounds `len` after `Create`, because the C never sets it.

## Findings

| source | as written | input that shows it | evidently intended | confidence | as-written member | corrected member |
|---|---|---|---|---|---|---|
| libSUarchive.h:462-470 | The duplicate scan of add polls a copy of the archive that keeps the caller's cursor. It sets the append offset to the end of the last record it scanned, or leaves it at 16 when it scanned none. | An archive with records, whose cursor stands past the last record (every record polled, without the closing NULL poll). Add scans nothing and writes the new record at offset 16, over the first record. | Scan from the first record, as find does, and append at `len`. | not executed | Archive.AddExAtEndOverwrites | Archive.ArFile.Add |
| libSUarchive.h:465-474 | The same scan only compares names from the cursor on. | An archive holding one record named `a`, with the cursor after it. Adding `a` again succeeds, although the interface promises failure on an existing name. The miss also occurs on its own: with records `a` and `b` and the cursor on `b`, adding `a` appends a second `a` at len (Archive.AddExMissesDuplicateMid). | Refuse a name held by any record. | not executed | Archive.AddExMissesDuplicate | Archive.ArFile.Add |
