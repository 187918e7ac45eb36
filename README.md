# OpenFirmwareManager, modelled in Dafny

OpenFirmwareManager is a kernel-extension helper that keeps a driver's firmware images in a
dictionary keyed by firmware name. An image comes from one of three places:

- a descriptor (name, bytes, size);
- a list of compiled-in candidate descriptors, searched by name;
- a file fetched through the kext resource loader.

Images framed with zlib are decompressed before they are stored. This project models:

- **Header detection and normalisation** (module `Zlib`, `zlib.dfy`). `isFirmwareCompressed`
  reads the first two bytes as one little-endian word and compares it with the three RFC 1950
  headers 0x78 0x01, 0x78 0x9c and 0x78 0xda. `decompressFirmware` passes raw data through.
  It inflates compressed data into a scratch buffer of four times the input length. That size
  is computed in 32-bit unsigned arithmetic, so it wraps for inputs of 1 GiB or more.
  The zlib library is abstract: a `Decoder` gives the code `inflateInit` returns and an
  `Inflater`. An `Inflater` maps the input and the buffer size to a return code and the bytes
  written. Its type guarantees that it never writes more bytes than the buffer holds.
- **Candidate selection** (module `FirmwareNames`). This is `strncmp` over at most 64
  characters, one character per byte of the C string, up to the terminating NUL, and the reverse scan of
  `addFirmwareWithName`.
- **The store as a value** (module `Registry`). `Store` is `Absent` (mFirmwares is NULL) or
  `Present(entries)`. Each operation is a function returning the next store and its
  `IOReturn`. The bulk loops of the `initWith*` variants are folds from the last index to
  the first. Lemmas state what the store holds afterwards.
- **The post-wait decision of `addFirmwareWithFile`** (module `ResourceFetch`). A `Fetch` is
  the status of the resource request together with the bytes the callback delivered, if any.
- **The manager object** (module `FirmwareManager`). Class `OpenFirmwareManager` has the
  fields `created` and `firmwares`, which the methods update in place. Each method is proved
  against the `Registry` function through `Abs()`. `addFirmwareWithName` and the bulk
  `initWith*` variants are `while` loops that count down as the source does.

Status codes are the IOKit values: kIOReturnSuccess = 0, kIOReturnError = 0xe00002bc,
kIOReturnInvalid = 0xe0000001 and kIOReturnUnsupported = 0xe00002c7. Callers treat only 0 as
success (`!addFirmwareWith…(…)`).

Points where the code's behaviour is easy to misread:

- A successful decompression may yield zero bytes, because `OSData::withBytes(buffer, 0)`
  succeeds. The model does not promise non-empty output.
- The name lookup is not an exact comparison. `strncmp(…, 64)` lets a requested name match a
  candidate that agrees with it on the first 64 characters. The entry is stored under the
  candidate's own name (line 147).
- `initWithCapacity` first calls `init()`, which sets mFirmwares to NULL (line 37). So a
  failed `initWithCapacity` leaves no store, whatever was there before.
- A blob shorter than two bytes is not reported as an invalid argument. The source has no
  error path there, only an out-of-bounds read. The model treats such a blob as not
  compressed (see Findings).
- The capacity is only a sizing hint. The modelled dictionary has no ceiling.

## Model

| member | source | states |
|---|---|---|
| Zlib.IsFirmwareCompressed | OpenFirmwareManager/OpenFirmwareManager.cpp:60-69 | needs two bytes; reading them as a little-endian word matches one of the three magics exactly when byte 0 is 0x78 and byte 1 is 0x01, 0x9c or 0xda |
| Zlib.IsCompressedAsWritten | OpenFirmwareManager/OpenFirmwareManager.cpp:60-69 | the source's two-byte read on a blob of any length, with the missing bytes taken from the memory after the blob; agrees with IsFirmwareCompressed whenever the blob has two bytes |
| Zlib.ShortBlobVerdictDependsOnMemory | OpenFirmwareManager/OpenFirmwareManager.cpp:62-66 | for the one-byte blob 0x78 the verdict as written is true or false depending on the byte that follows the blob |
| Zlib.IsCompressed | OpenFirmwareManager/OpenFirmwareManager.cpp:60-69 | corrected detection: true exactly when the blob has two bytes, byte 0 is 0x78 and byte 1 is 0x01, 0x9c or 0xda; on blobs of two bytes or more it agrees with the source's read whatever memory follows |
| Zlib.ScratchSize | OpenFirmwareManager/OpenFirmwareManager.cpp:87 | the scratch size fits in 32 bits and is exactly four times the input length for inputs below 2^30 bytes |
| Zlib.DecompressFirmware | OpenFirmwareManager/OpenFirmwareManager.cpp:71-116 | a successful decompression of compressed input is no longer than the scratch buffer |
| Zlib.DecompressOutcome | OpenFirmwareManager/OpenFirmwareManager.cpp:80-115 | raw input comes back unchanged; compressed input fails exactly when inflateInit does not return Z_OK or inflate returns neither Z_STREAM_END nor Z_OK; on success the result is the total_out bytes inflate wrote into the 4x buffer |
| Zlib.HighRatioPayloadNeverRecovered | OpenFirmwareManager/OpenFirmwareManager.cpp:87-108 | a payload longer than the scratch buffer is never the result, whatever the decoder does |
| Zlib.DecompressRecoversPayload | OpenFirmwareManager/OpenFirmwareManager.cpp:98-108 | when the decoder completes the stream into the buffer, the result is exactly the decoded payload, at most four times the input length |
| FirmwareNames.StrncmpEqualFrom | OpenFirmwareManager/OpenFirmwareManager.cpp:146 | the strncmp scan from a position succeeds exactly when, among the positions up to the bound, every one not cut off by an earlier common NUL holds the same character in both names |
| FirmwareNames.NamesMatch | OpenFirmwareManager/OpenFirmwareManager.cpp:146 | `!strncmp(candidate, name, 64)` holds exactly when the two names agree at each of the first 64 positions up to their first common NUL |
| FirmwareNames.NamesMatchIffSamePrefix | OpenFirmwareManager/OpenFirmwareManager.cpp:146 | for NUL-free names the character-by-character strncmp test over 64 positions holds exactly when the names agree on their first 64 characters |
| FirmwareNames.StrncmpEqualFromIffPrefix | OpenFirmwareManager/OpenFirmwareManager.cpp:146 | the strncmp scan from any position that both names agree up to succeeds exactly when their 64-character prefixes are equal |
| FirmwareNames.LastMatch | OpenFirmwareManager/OpenFirmwareManager.cpp:142-148 | the scan stops at a matching candidate with no matching candidate at a higher index; it finds none exactly when no candidate matches |
| FirmwareNames.LastMatchFinds | OpenFirmwareManager/OpenFirmwareManager.cpp:142-148 | the index where the reverse scan stops is unique, and LastMatch returns it |
| FirmwareNames.SameKeySameCandidate | OpenFirmwareManager/OpenFirmwareManager.cpp:146-147 | two requested names that settle on candidates with the same name settle on the same candidate index |
| Registry.Lookup | OpenFirmwareManager/OpenFirmwareManager.cpp:252-259 | an entry is found exactly when there is a store holding the name, and then it is the stored bytes |
| Registry.AddDescriptor | OpenFirmwareManager/OpenFirmwareManager.cpp:154-193 | without a store: kIOReturnInvalid and nothing changes; failed decompression: kIOReturnError and the store unchanged; otherwise success, the name maps to the normalised bytes, replacing any earlier value; every other name keeps its entry |
| Registry.RemoveEntry | OpenFirmwareManager/OpenFirmwareManager.cpp:218-231 | without a store: kIOReturnInvalid; otherwise success even when the name is absent, the name has no entry afterwards and every other name keeps its entry |
| Registry.RemoveAllEntries | OpenFirmwareManager/OpenFirmwareManager.cpp:233-245 | without a store: kIOReturnInvalid; otherwise success and no name has an entry afterwards |
| Registry.AddByName | OpenFirmwareManager/OpenFirmwareManager.cpp:139-152 | with no matching candidate: kIOReturnUnsupported and the store unchanged; otherwise exactly the add of the matching candidate with no match above it |
| Registry.AddFile | OpenFirmwareManager/OpenFirmwareManager.cpp:209-215 | without delivered bytes: the decision's status and the store unchanged; with delivered bytes: exactly the add of a descriptor holding them under the file name; success only when bytes were delivered and the file name then maps to their normalised form; other names keep their entries |
| Registry.AddDescriptorsFromLast | OpenFirmwareManager/OpenFirmwareManager.cpp:312-313 | the descriptor loop leaves the entry of every name that none of its descriptors carries as it was |
| Registry.AddNamesFromLast | OpenFirmwareManager/OpenFirmwareManager.cpp:286-287 | the name loop neither creates nor drops the store, and leaves the entry of every key that is no candidate's name as it was |
| Registry.AddFilesFromLast | OpenFirmwareManager/OpenFirmwareManager.cpp:338-342 | the file loop leaves the entry of every name that none of its file names is as it was |
| Registry.AbsentStoreRejectsEverything | OpenFirmwareManager/OpenFirmwareManager.cpp:159-164 | without a store, adding, removing and removing all return kIOReturnInvalid, lookup returns NULL, and an add by name leaves the store absent |
| Registry.OverwriteKeepsLatest | OpenFirmwareManager/OpenFirmwareManager.cpp:183-185 | a second add under the same name replaces the first when its decompression succeeds and leaves the first otherwise |
| Registry.AddDescriptorsKeepsPresence | OpenFirmwareManager/OpenFirmwareManager.cpp:312-313 | the bulk descriptor loop neither creates nor drops the store |
| Registry.UntouchedName | OpenFirmwareManager/OpenFirmwareManager.cpp:312-313 | a name under which no descriptor decompresses keeps its entry, or its absence, through the bulk descriptor loop |
| Registry.LowestIndexWins | OpenFirmwareManager/OpenFirmwareManager.cpp:312-313 | after the bulk descriptor loop a duplicated name holds the data of its lowest-index descriptor among those whose decompression succeeds |
| Registry.AddFilesKeepsPresence | OpenFirmwareManager/OpenFirmwareManager.cpp:338-342 | the bulk file loop neither creates nor drops the store |
| Registry.FileUntouched | OpenFirmwareManager/OpenFirmwareManager.cpp:338-342 | a file name none of whose requests delivers bytes that decompress keeps its entry, or its absence, through the bulk file loop |
| Registry.FileLowestIndexWins | OpenFirmwareManager/OpenFirmwareManager.cpp:338-342 | after the bulk file loop on a present store, a file name holds the decompressed data of its lowest-index request among those that deliver bytes that decompress |
| Registry.ResolvedEntryKept | OpenFirmwareManager/OpenFirmwareManager.cpp:286-287 | one add by name keeps an already stored candidate's entry |
| Registry.ResolvedEntryPersists | OpenFirmwareManager/OpenFirmwareManager.cpp:286-287 | the rest of the bulk name loop keeps an already stored candidate's entry |
| Registry.RequestedNamesResolved | OpenFirmwareManager/OpenFirmwareManager.cpp:281-291 | after the bulk name loop, every requested name that matches a candidate whose data decompresses is stored under that candidate's name with its data, whatever the order or repetition of the names |
| Registry.NameUntouched | OpenFirmwareManager/OpenFirmwareManager.cpp:286-287 | a key that no requested name settles on with data that decompresses keeps its entry, or its absence, through the name loop: no candidate nobody requested enters the store |
| ResourceFetch.PostWaitAsWritten | OpenFirmwareManager/OpenFirmwareManager.cpp:209-215 | the decision as written: bytes are added exactly when some were delivered; otherwise the request's own status is returned |
| ResourceFetch.MissingFileReportsSuccess | OpenFirmwareManager/OpenFirmwareManager.cpp:202-210 | a successfully issued request whose callback reports an error makes the decision as written return kIOReturnSuccess with nothing added |
| ResourceFetch.PostWait | OpenFirmwareManager/OpenFirmwareManager.cpp:209-215 | the corrected decision: it adds exactly when bytes were delivered, agrees with the source whenever it adds or the request failed, and never returns success without adding |
| FirmwareManager.OpenFirmwareManager.constructor | OpenFirmwareManager/OpenFirmwareManager.cpp:37 | a new manager has no store |
| FirmwareManager.OpenFirmwareManager.InitWithCapacity | OpenFirmwareManager/OpenFirmwareManager.cpp:262-279 | succeeds exactly when the capacity is positive; afterwards the store is empty, or absent on failure |
| FirmwareManager.OpenFirmwareManager.AddFirmwareWithDescriptor | OpenFirmwareManager/OpenFirmwareManager.cpp:154-193 | the new store and the status are those of Registry.AddDescriptor on the old store |
| FirmwareManager.OpenFirmwareManager.AddFirmwareWithName | OpenFirmwareManager/OpenFirmwareManager.cpp:139-152 | the countdown loop over the first numFirmwares candidates gives the store and status of Registry.AddByName; a non-positive count finds nothing |
| FirmwareManager.OpenFirmwareManager.AddFirmwareWithFile | OpenFirmwareManager/OpenFirmwareManager.cpp:195-216 | the new store and the status are those of Registry.AddFile on what the loader delivered for the identifier and file name |
| FirmwareManager.OpenFirmwareManager.RemoveFirmware | OpenFirmwareManager/OpenFirmwareManager.cpp:218-231 | the new store and the status are those of Registry.RemoveEntry |
| FirmwareManager.OpenFirmwareManager.RemoveFirmwares | OpenFirmwareManager/OpenFirmwareManager.cpp:233-245 | the new store and the status are those of Registry.RemoveAllEntries |
| FirmwareManager.OpenFirmwareManager.GetFirmwareUncompressed | OpenFirmwareManager/OpenFirmwareManager.cpp:247-260 | returns the stored bytes, or NULL when there is no store or no entry; modifies nothing |
| FirmwareManager.OpenFirmwareManager.InitWithNames | OpenFirmwareManager/OpenFirmwareManager.cpp:281-291 | succeeds exactly when the capacity is positive, whatever the adds return; the store is the fold of the adds by name from the last requested name to the first (what that fold holds: Registry.RequestedNamesResolved, Registry.NameUntouched) |
| FirmwareManager.OpenFirmwareManager.InitWithName | OpenFirmwareManager/OpenFirmwareManager.cpp:293-305 | succeeds exactly when the single add by name returns kIOReturnSuccess; the store is what that add leaves |
| FirmwareManager.OpenFirmwareManager.InitWithDescriptors | OpenFirmwareManager/OpenFirmwareManager.cpp:307-317 | succeeds exactly when the capacity is positive, whatever the adds return; the store is the fold of the adds from the last descriptor to the first |
| FirmwareManager.OpenFirmwareManager.InitWithDescriptor | OpenFirmwareManager/OpenFirmwareManager.cpp:319-331 | succeeds exactly when the single add returns kIOReturnSuccess; the store is what that add leaves |
| FirmwareManager.OpenFirmwareManager.InitWithFiles | OpenFirmwareManager/OpenFirmwareManager.cpp:333-346 | succeeds exactly when the capacity is positive, whatever the adds return; the store is the fold of the file adds from the last pair to the first (what that fold holds: Registry.FileLowestIndexWins, Registry.FileUntouched) |
| FirmwareManager.OpenFirmwareManager.InitWithFile | OpenFirmwareManager/OpenFirmwareManager.cpp:348-360 | succeeds exactly when the single file add returns kIOReturnSuccess; the store is what that add leaves |

## Left out

- The lock and condition-variable handshake of `requestResourceCallback` and `addFirmwareWithFile` (lines 118-137, 198-207). This is concurrency with an external loader. When the callback fires, the combined effect is the `Fetch` that the `loader` parameter returns.
- The wait at line 206 is assumed to return. `IOLockSleep` has no timeout there, so a request whose callback never fires blocks the caller for ever. The model does not capture that permanent block: `AddFirmwareWithFile`, `InitWithFile` and `InitWithFiles` always return.
- The `loader` parameter depends only on the identifier and the file name. Repeated requests for the same file therefore deliver the same result.
- The model treats the bytes delivered by the callback as still readable after the callback returns.
- The store lock `mFirmwareLock`. Each store operation is treated as atomic.
- The DEFLATE decoding of `inflateInit`, `inflate` and `inflateEnd`. This comes from the kernel's zlib, which is not part of this model. It is the abstract `Decoder`. `inflateEnd` and the freeing of the scratch buffer have no observable effect in the model.
- Allocation failures are not modelled. This covers `OSData::withBytes` (lines 168-170 and 108), `OSDictionary::withCapacity` (lines 270-275), a failing `setObject` (lines 184-185), `IOMalloc` (line 88) and the failure paths of `init()` (lines 33-43). Every allocation succeeds in the model.
- A NULL `firmwareData` pointer is not modelled. `Descriptor.data` is a byte sequence and cannot be NULL. So the `kIOReturnInvalid` that lines 168-170 return when `OSData::withBytes` refuses a NULL pointer with a non-zero size has no counterpart in the model.
- Reference counting (`retain`, `OSSafeReleaseNULL`) and object identity. The pass-through of raw data returns the same bytes, but the model cannot tell a retained original from a copy.
- `free()`, the `with*` factories (lines 362-458), the allocator shim in zutil.cpp and zutil.h, and the logging macros in Logs.h.
- OpenFirmwareManager.h declares an older single-firmware interface that does not match the .cpp file. No contract is derived from it.
- Names are key strings without embedded NUL characters. A NUL inside a dictionary key is not given its C meaning.
- Names are Dafny strings read as one character per byte of the C string, which is exact for ASCII names. For a name with non-ASCII characters, the source's 64-byte `strncmp` and its byte-string dictionary keys are not modelled: 64 positions of the model may be more than 64 bytes.
- FirmwareManager.OpenFirmwareManager.AddFirmwareWithFile: follows the corrected decision `ResourceFetch.PostWait` rather than line 210 as written (see Findings). The same holds for `InitWithFile` and `InitWithFiles`, which call it.
- Registry.AddFile: uses the corrected decision `ResourceFetch.PostWait` in place of line 210 as written. `Registry.AddFilesFromLast` and the lemmas about it inherit this.

## Findings

| source | as written | input that shows it | evidently intended | confidence | as-written member | corrected member |
|---|---|---|---|---|---|---|
| OpenFirmwareManager/OpenFirmwareManager.cpp:60-69 | `isFirmwareCompressed` reads a 16-bit word from the start of the blob whatever the blob's length. `addFirmwareWithDescriptor` (line 172) reaches it with any `firmwareSize` | a descriptor whose data is the single byte 0x78: the verdict depends on the byte after the blob (0x9c gives "compressed", 0x00 does not); a zero-length blob reads two bytes that are not its own | a blob shorter than the two-byte zlib header is not compressed and is never read past its end | high; not executed | Zlib.ShortBlobVerdictDependsOnMemory | Zlib.IsCompressed |
| OpenFirmwareManager/OpenFirmwareManager.cpp:209-210 | when the callback delivered no bytes, `addFirmwareWithFile` returns `ret`, the status of issuing the request | `OSKextRequestResource` issues the request (returns 0) and the callback reports that the file is missing: `addFirmwareWithFile` returns kIOReturnSuccess, so `initWithFile` returns true with nothing stored | report a failure when no firmware was obtained | medium; not executed | ResourceFetch.MissingFileReportsSuccess | ResourceFetch.PostWait |
