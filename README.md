# plog: a verified model of the persistent log

plog is a small Go package for an append-only log. Each value is stored as one
frame:

    checksum (8 bytes) ++ BE32(len) (4 bytes) ++ payload

The checksum is the xxhash64 of `BE32(len) ++ payload`. When the log is
opened, its file is scanned from offset 0, one frame at a time. The scan
stops at the first frame that is incomplete or fails its checksum. There is
no attempt to resynchronise past it. Every good frame before that point
increments `maxLogIndex`, and the file is truncated to the end of the last
good frame. In `persistlog.go` that truncation is applied to the fixed path
`log.dat` rather than to the log's own file; see "## Findings". `storeCorruptedValue` is a test helper: it stores a value and
then cuts bytes off the end of the file.

The package holds two variants of the same type:

- `persistlog.go` takes a file name.
- `PersistentLog.go` is older. It always uses `log.dat`, and its
  `getChecksum` takes its two arguments in swapped order.

The model is split into five files:

- `bytes.dfy` (module `Bytes`) has bytes and the big-endian 32-bit length
  field.
- `codec.dfy` (module `Codec`) has the frame codec:
  - `GetChecksum` and `EncodeFrame`, the frame `StoreValue` writes;
  - `Frames`, a sequence of frames making up a well-formed log;
  - `DecodeFrame`, one iteration of the recovery loop.
- `recovery.dfy` (module `Recovery`) has the recovery scan:
  - the recursive specification `Scan`, which returns
    `(count, lastValidPos)`;
  - the lemmas about that scan;
  - `ScanFile`, the `while` loop of `readLogFromFile`, proved equal to
    `Scan`.
- `persistlog.dfy` (module `PersistLog`) has the class `PersistentLog` of
  `persistlog.go`:
  - the file is a `seq<byte>` field, held next to `maxLogIndex`;
  - the constructor, `StoreValue`, `MaxLogIndex`, `ReadLogFromFile` and
    `StoreCorruptedValue`;
  - the truncation finding below;
  - the two tests as client methods.
- `legacy.dfy` (module `LegacyLog`) is the `PersistentLog.go` variant. It
  reuses the shared codec and scan, and shows that its swapped
  `getChecksum` hashes the same bytes.

The hash is a parameter `h: Hasher`. `Hasher` is the type of total functions
from byte sequences to 8-byte digests. Every result holds for xxhash and for
any other such function. No result depends on the hash telling two inputs
apart.

## Model

| member | source | states |
|---|---|---|
| Bytes.Uint32OfPutUint32 | persistlog.go:38-39 | Reading the length bytes that PutUint32 writes gives back the length. |
| Bytes.PutUint32OfUint32 | persistlog.go:108 | Every 4-byte length field is the big-endian encoding of the number Uint32 reads from it. |
| Bytes.PutUint32 | persistlog.go:38-39 | binary.BigEndian.PutUint32: a length below 2^32 becomes exactly 4 bytes; Uint32OfPutUint32 is its inverse. |
| Bytes.Uint32 | persistlog.go:108 | binary.BigEndian.Uint32: 4 bytes read as a number below 2^32; PutUint32OfUint32 is its inverse. |
| Codec.GetChecksum | persistlog.go:169-180 | The checksum of valueLen ++ value is 8 bytes long. |
| Codec.EncodeFrame | persistlog.go:34-44 | The frame is 12 + len(value) bytes: bytes 8..12 are the big-endian length, bytes 12.. are the value, and bytes ..8 are the checksum of bytes 8.. . |
| Codec.AllStorableSlice | persistlog.go:39 | Every slice of a list of payloads that fit the 32-bit length field fits it too. |
| Codec.Frames | persistlog.go:42-44 | The file that successive StoreValue calls build: empty exactly when there are no records, and starting with the frame of the first record. |
| Codec.FramesAppend | persistlog.go:43 | Appending one value to the record list appends exactly its frame to the file. |
| Codec.FramesAppendAfter | persistlog.go:43 | The same, when the frames follow other bytes. |
| Codec.DecodeFrame | persistlog.go:88-129 | One loop iteration at offset 0: a frame it accepts has a payload that fits the length field, and a size of 12 + the payload's length, within the buffer. |
| Codec.DecodedFrameIsEncoded | persistlog.go:99-124 | An accepted frame is exactly the frame StoreValue writes for its payload. |
| Codec.DecodeEncodedFrame | persistlog.go:37-44 | A frame StoreValue wrote decodes back to its value and size, whatever follows it. |
| Codec.DecodeFrameIff | persistlog.go:88-129 | Decoding yields (value, 12 + len(value)) if and only if the buffer starts with the frame of value. |
| Codec.TornFrameIncomplete | persistlog.go:90-117 | Every proper prefix of a frame is reported incomplete, whatever the hash. |
| Recovery.Scan | persistlog.go:88-129 | The recursive scan never stops past the end of the buffer (lastValidPos <= filesize). |
| Recovery.ScanCountBound | persistlog.go:126-128 | Each counted frame takes at least 12 bytes, and the count is 0 exactly when lastValidPos is 0. |
| Recovery.RecoveredValues | persistlog.go:88-129 | The payloads the scan accepts fit the length field, and their frames are a prefix of the buffer. |
| Recovery.ScanCons | persistlog.go:88-129 | A frame followed by anything is counted, and the scan continues right after it. |
| Recovery.ScanStopsShortHeader | persistlog.go:90-103 | The scan stops when fewer than the 8 checksum bytes or the 4 length bytes remain. |
| Recovery.ScanStopsShortPayload | persistlog.go:113-117 | The scan stops when the announced payload runs past the end of the file. |
| Recovery.ScanStopsMismatch | persistlog.go:121-124 | The scan stops at a frame whose recomputed checksum differs from the stored one. |
| Recovery.ScanStopsAfter | persistlog.go:88-129 | When the scan stops after the frames of N values, it reports count N and the end of those frames. |
| Recovery.ScanStopsAtEnd | persistlog.go:88 | When the loop exits because pos reached filesize, the whole buffer was frames. |
| Recovery.ScanAdvance | persistlog.go:121-128 | After a frame passes its checksum, the bytes up to the new pos are the frames of one more value. |
| Recovery.FramesCons | persistlog.go:43 | Prepending a value prepends its frame. |
| Recovery.ScanKeepsFramesOfRecovered | persistlog.go:126-128 | lastValidPos is the end of a validated frame: the kept bytes are exactly the frames of the counted records, one per count. |
| Recovery.ScanFramesThen | persistlog.go:88-129 | N well-formed frames followed by anything are all counted, and the scan then proceeds as on what follows. |
| Recovery.ScanValidLog | persistlog.go:88-132 | A file that is N concatenated frames gives count N and lastValidPos == filesize, so nothing is truncated. |
| Recovery.ScanStopsAtFirstBadFrame | persistlog.go:88-129 | After lastValidPos there is either nothing, or a frame that is incomplete or fails its checksum: no resync. |
| Recovery.ScanCountsFramesBeforeFirstBadFrame | persistlog.go:88-129 | If the file is N frames followed by nothing or by a frame that does not decode, the count is N and the scan stops at the end of frame N. |
| Recovery.ScanCountsAtLeastFramesBefore | persistlog.go:88-129 | Frames wholly before a damaged spot are always counted. The count is exactly their number if and only if what follows is empty or does not decode. |
| Recovery.ScanIdempotent | persistlog.go:131-139 | Rescanning the truncated file gives the same result and truncates nothing more. |
| Recovery.ScanTornTail | persistlog.go:88-129 | N frames followed by a proper, non-empty prefix of one more frame give count N and lastValidPos at the end of frame N. |
| Recovery.ScanAfterRemovingTail | persistlog.go:145-166 | Storing a frame and then removing 1..len(frame) bytes from the end loses exactly that record. |
| Recovery.ScanFile | persistlog.go:80-129 | The while loop over pos, lastValidPos and the count computes exactly Scan(file). |
| PersistLog.Truncated | persistlog.go:134 | os.Truncate: the new length is the size; the content is cut to it, or extended with zero bytes. |
| PersistLog.PersistentLog.constructor | persistlog.go:18-32 | Opening recovers the file: maxLogIndex is the scan's count, the file is cut to lastValidPos, and the handle is valid. An empty file gives count 0. |
| PersistLog.PersistentLog.StoreValue | persistlog.go:34-48 | The file becomes the old file plus exactly the new frame, and maxLogIndex grows by exactly 1. The valid-log invariant is kept. |
| PersistLog.PersistentLog.MaxLogIndex | persistlog.go:50-52 | Returns maxLogIndex, changes nothing; on a valid log it is the number of records. |
| PersistLog.PersistentLog.ReadLogFromFile | persistlog.go:60-141 | maxLogIndex grows by the scan's count, and the file is cut to lastValidPos. It is unchanged when lastValidPos == filesize, and afterwards it is exactly the frames of the recovered records. |
| PersistLog.PersistentLog.StoreCorruptedValue | persistlog.go:145-167 | Stores the value and counts it either way. If bytesToRemove exceeds the new size, the result is the error and the file is left as stored; otherwise the call passes and the file shrinks by exactly bytesToRemove. |
| PersistLog.RecoverAsWritten | persistlog.go:131-139 | Recovery as written: the count is the scan's, but the log's own file is truncated only if its name is "log.dat". |
| PersistLog.AsWrittenLosesStoreAfterReopen | persistlog.go:134 | Counterexample: with a file other than log.dat, a bad tail survives recovery, so a value stored after reopening is not counted at the next reopen. |
| PersistLog.ReopenCountsEveryStore | persistlog.go:131-139 | With the truncation applied to the log's own file, every store made after a reopen is counted at the next reopen. |
| PersistLog.StoreThenReopen | persistlog_test.go:19-54 | TestStoreValue: storing N values reports the indices 1..N, and reopening reports N. |
| PersistLog.ScanCorruptedLog | persistlog_test.go:56-94 | The file TestCorruption leaves scans to at least corruptIndex - 1, and to exactly that if and only if the damaged frame and what follows do not decode. |
| PersistLog.StoreEach | persistlog_test.go:34-41 | Storing a list of values appends their frames and adds their number to maxLogIndex. |
| PersistLog.StoreWithCorruption | persistlog_test.go:72-82 | The file TestCorruption writes: the earlier frames, the damaged frame cut short, then the later frames. storeCorruptedValue succeeds. |
| PersistLog.CorruptThenReopen | persistlog_test.go:56-94 | TestCorruption: the reopened count is at least corruptIndex - 1, and exactly corruptIndex - 1 if and only if the bytes from the damaged frame on do not decode as a frame. |
| PersistLog.CreateEmpty | persistlog_test.go:27 | Opening a log on an existing empty (or absent) file, as after os.CreateTemp, gives an empty, valid log. |
| PersistLog.Reopen | persistlog_test.go:44-49 | A second handle on a file reports the scan's count. |
| LegacyLog.GetChecksum | PersistentLog.go:141-152 | The variant's getChecksum(value, valueLen) equals getChecksum(valueLen, value) of persistlog.go. |
| LegacyLog.PersistentLog.constructor | PersistentLog.go:17-30 | Opening log.dat recovers it: count from the scan, file cut to lastValidPos, handle valid; an empty file gives 0. |
| LegacyLog.PersistentLog.StoreValue | PersistentLog.go:32-46 | Appends exactly the frame persistlog.go would write, and increments maxLogIndex by 1. |
| LegacyLog.PersistentLog.GetMaxLogIndex | PersistentLog.go:131-133 | Returns the count and changes nothing. |
| LegacyLog.PersistentLog.ReadLogFromFile | PersistentLog.go:48-129 | Recovery: the count grows by the scan's count. log.dat is cut to lastValidPos only when lastValidPos < filesize, and the result has length lastValidPos. |
| LegacyLog.StoreThenReopen | PersistentLog.go:32-46 | Stores into the variant leave byte-identical frames to those of the newer log, and reopening counts them all. |

## Left out

- The hash function: xxhash itself is not modelled. `Hasher` is any total
  function to 8-byte digests, so no result depends on which bytes a
  corruption changes.
- Codec.GetChecksum: its ensures states only that the checksum is 8 bytes.
  Which bytes are hashed (`valueLen ++ value`) is visible only in its body,
  because the hash is a parameter with no properties of its own.
- OS file I/O: `os.OpenFile`, `Stat`, `Read`, `Write`, `Sync`, `Close` and
  `os.Truncate` are not modelled. The file is an in-memory `seq<byte>` field,
  and an absent file is an empty one. Durability has no counterpart.
- Error paths the source swallows or that only I/O can trigger, none of
  which can arise in memory:
  - the ignored `Write`/`Sync` results in StoreValue;
  - the ignored truncate failure in recovery;
  - the second open in `readLogFromFile` returning nil on failure;
  - the `Stat` and `Read` errors;
  - the `os.Stat` and `os.Truncate` errors of `storeCorruptedValue`;
  - a short `file.Read`.
- The constructor: `NewPeristentLog` returning an error is not modelled,
  since opening always succeeds on an in-memory file.
- PersistLog.PersistentLog.StoreValue: requires the payload to be shorter than
  2^32 bytes instead of modelling the silent `uint32(dataLen)` wrap-around.
  LegacyLog.PersistentLog.StoreValue, PersistLog.PersistentLog.StoreCorruptedValue
  and the test clients (PersistLog.StoreThenReopen, PersistLog.StoreEach,
  PersistLog.StoreWithCorruption, PersistLog.CorruptThenReopen,
  LegacyLog.StoreThenReopen) have the same requirement.
- Decoding a length field: the recovery loop converts it with `int(...)` and
  allocates `make([]byte, datalenInt)` before it checks that the payload fits
  the file. The model takes `int` to be 64 bits wide, so the length is never
  negative, and takes that allocation (up to 4 GiB for a garbage length field)
  to succeed; Codec.DecodeFrame reports such a frame as incomplete.
- PersistLog.PersistentLog.ReadLogFromFile: the Go loop increments
  `p.maxLogIndex` once per good frame. The model counts those frames in
  `ScanFile` and adds the count after the loop. The final state is the same,
  and a single-threaded caller cannot see the difference.
- The reused `checksum`/`rawDataLen` buffers that the loop `copy`s into are
  modelled as slices of the file.
- Debug `fmt.Printf` output is not modelled; it has no effect on the state.
- `Close` is not modelled; it only releases the OS handle.
- test/main.go is not part of this model; it is a demo command line tool.
- Concurrency and O_APPEND semantics are not modelled. The log has a single
  writer.
- PersistLog.CorruptThenReopen: the test expects exactly
  `corruptIndex - 1`. That holds only if the checksum fails over the shifted
  bytes after the cut frame, which depends on xxhash. The model proves the
  count is at least that value, and equal to it exactly when those bytes do
  not decode.
- LegacyLog.PersistentLog.ReadLogFromFile: the variant's loop is the shared
  `ScanFile`. The only textual difference is the argument order of
  `getChecksum`, and `LegacyLog.GetChecksum` shows it hashes the same bytes.

## Findings

| source | as written | input that shows it | evidently intended | confidence | as-written member | corrected member |
|---|---|---|---|---|---|---|
| persistlog.go:134 | Recovery truncates the fixed path `"log.dat"`, not `p.filename`. A log under any other name keeps its bad tail, and an unrelated `log.dat` in the working directory is cut. | A log file `data.log` holding one frame with an empty payload, then a 12-byte header that claims 256 payload bytes. Opening counts 1 and leaves the tail. Storing one value and reopening counts 1 again: the new record sits behind the old tail and is lost. | `os.Truncate(p.filename, lastValidPos)`, as `PersistentLog.go` does for its own fixed file | high (not executed) | PersistLog.RecoverAsWritten, PersistLog.AsWrittenLosesStoreAfterReopen | PersistLog.PersistentLog.ReadLogFromFile, PersistLog.ReopenCountsEveryStore |
