# XrdFile — a Dafny model of the XRootD file handle

This project models `XrdFile`, the storage backend that exposes one remote
XRootD file as a POSIX-like handle. The handle has a cursor, a cached file
size and an open/closed lifecycle. The model covers four parts:

- **Open-flag translation and open-time validation** (module `OpenFlags`, `XrdFile.Open`).
  The framework's `IOFlags` bits become XRootD client open modes (Update, Read, New, MakePath, Delete).
  An empty name and a request for neither read nor write are rejected before any held session is torn down.
  Append mode is rejected after the teardown.
- **Vectored-read chunking** (module `Chunking`).
  Each (offset, buffer, length) segment is split into chunks of at most 512 KiB plus one remainder chunk.
  The legacy adapter (module `LegacyBuffers`) lays plain buffers out back to back from file position 0.
- **The handle lifecycle** (`Open`, `Create`, `Close`, `Abort` in module `XrdFile`; module `Lifecycle`).
- **Cursor and cached-size arithmetic** (`Position`, `CursorRead`, `PositionedRead`, `CursorWrite`, `PositionedWrite`, `VectorRead`, `LegacyVectorRead`, `Resize`, `Prefetch`).

Every call into the XRootD client (`Open`, `Stat`, `Close`, `Read`, `Write`, `VectorRead`) is replaced by a parameter.
That parameter holds the client's answer: a `Status`, or a `Reply` carrying a byte count or a size.
Each operation returns a `Step`, which holds:

- the handle afterwards;
- the client calls it issued, in order;
- its result or the error it raises.

This lets contracts say "fails before touching the endpoint" (`calls == []`) and "sends exactly these chunks".
Memory buffers are integer positions in the caller's memory.
Flag words are the sets of bits that are set.
The exceptions become `Error(kind, cause, connection)`.
The `connection` field records whether the current server connection is attached to the exception (`addConnection`).

The handle is a record `(hasFile, offset, size, ownsClose, name)`, not a closed/open sum type.
The code really has a third state: after a refused client open or stat, the file object stays held but is not owned, and the size is still unknown.
The code itself relies on a held file object meaning a known size: the assertions `m_size != -1` at src/XrdFile.cc:365, 395, 435 and 449 are reached only with a file object held, and assume it comes with a known size. A refused open breaks that assumption, and the model follows the code.
`WellFormed` states the intended invariant. `RepairedOpen` is the `open` under which every operation preserves it (see Findings).
The source's `assert`s and its unchecked uses of the file object become `requires` clauses:
- `position` requires `m_size != -1` for SET, CURRENT and END once past the closed-file check (`CanPosition`); an unknown whence raises before any assertion;
- `write` requires the same after a successful client write;
- both `readv`s require a held file object (the assertion at src/XrdFile.cc:294);
- reads and writes that pass the length guard require a held file object, which they dereference.

## Model

| member | source | states |
|---|---|---|
| Chunking.SplitSegment | src/XrdFile.cc:311-325 | The split of one segment: full 512 KiB chunks while more than a full chunk remains, then one remainder chunk; its contract guarantees at least one chunk, so even an empty segment is sent. |
| Chunking.SplitSegmentShape | src/XrdFile.cc:306-326 | A segment's chunks start at the segment's offset and buffer. Each is at most 512 KiB, and all but the last are exactly 512 KiB. Each chunk starts in the file and in memory where the previous one ends. Their lengths sum exactly to the segment length. The last chunk is empty only for an empty segment. |
| Chunking.SplitSegmentCount | src/XrdFile.cc:311-325 | A segment of length L yields exactly max(1, ceil(L / 524288)) chunks, so an empty segment still yields one empty chunk. |
| Chunking.SplitSegmentChunkAt | src/XrdFile.cc:311-325 | Chunk j starts j·512 KiB into the segment, in the file and in memory alike. Only the last chunk may be shorter than 512 KiB. |
| Chunking.SplitSegmentInside | src/XrdFile.cc:307-325 | Every chunk lies inside its segment. Its buffer position is as far from the segment's buffer as its offset is from the segment's offset. |
| Chunking.SplitSegmentUnique | src/XrdFile.cc:311-325 | The greedy split is the only contiguous cover of a segment where every chunk but the last is full, the last is bounded, and the last is non-empty unless the segment is empty. |
| Chunking.ChunkList | src/XrdFile.cc:306-326 | The chunks of all segments, segment after segment; its contract guarantees at least one chunk per segment. |
| Chunking.ChunkListShape | src/XrdFile.cc:304-326 | No chunk handed to the batched read exceeds 512 KiB. The chunks cover exactly the total requested length. There are at least as many chunks as segments. |
| Chunking.ChunkListAppend | src/XrdFile.cc:306-326 | The chunk list of two runs of segments is the first run's chunks followed by the second's. |
| Chunking.ChunkListOrder | src/XrdFile.cc:306-326 | The chunks of segment i come after those of all earlier segments and before those of all later ones. |
| Chunking.ChunkListInside | src/XrdFile.cc:306-326 | Every chunk sent lies inside some requested segment, with buffer and offset in lockstep. |
| Chunking.BuildChunkList | src/XrdFile.cc:304-326 | The loop that peels off full chunks and appends remainders builds exactly the chunk list. Its running `size` is the sum of the segment lengths. |
| LegacyBuffers.Contiguously | src/XrdFile.cc:278-283 | The buffers as positioned segments laid end to end from a start position: one segment per buffer, each keeping its buffer's memory position and size. |
| LegacyBuffers.ContiguouslyOffsets | src/XrdFile.cc:278-283 | The synthesised offset of buffer i is the sum of the sizes of buffers 0..i-1 (plus the start position). |
| LegacyBuffers.ContiguouslyTiles | src/XrdFile.cc:278-283 | Each synthesised segment starts where the previous one ends. |
| LegacyBuffers.ContiguouslyTotal | src/XrdFile.cc:278-283 | The synthesised segments request exactly the buffers' total size. |
| LegacyBuffers.ContiguouslyIsPrefixSums | src/XrdFile.cc:278-283 | Laying the buffers out from position 0 gives exactly the closed form: buffer i at the sum of the sizes of buffers 0..i-1, with its own memory position and size. |
| LegacyBuffers.ContiguouslyFirstChunk | src/XrdFile.cc:278-284 | The first chunk sent for the legacy layout starts at file position 0. |
| LegacyBuffers.SynthesizeOffsets | src/XrdFile.cc:276-284 | The running-offset loop gives segment i the offset sum(sizes[0..i)), the buffer's data and size, and offset 0 for the first segment. The result equals the recursive layout. |
| OpenFlags.TranslateFlags | src/XrdFile.cc:110-134 | Update iff OpenWrite. Read iff OpenRead without OpenWrite. New and MakePath iff OpenCreate. Delete iff (OpenCreate without OpenExclusive) or (OpenTruncate with OpenWrite). |
| OpenFlags.TranslateFlagsUnique | src/XrdFile.cc:110-134 | The five per-mode conditions determine the translated modes completely. |
| OpenFlags.AccessModeExactlyOne | src/XrdFile.cc:113-116 | Update and Read are never both requested. One of them is requested iff read or write access was asked for. Bits the translation does not inspect never change the result. |
| OpenFlags.CreateFlags | src/XrdFile.cc:56-64 | `create` always passes OpenCreate, OpenWrite and OpenTruncate. It passes OpenExclusive exactly when asked, and never read or append. |
| OpenFlags.ExclusiveCreateStillDeletes | src/XrdFile.cc:125-134 | As written, an exclusive create requests the same modes as a non-exclusive one: Update, New, MakePath and Delete. |
| OpenFlags.TranslateFlagsRespectingExclusive | src/XrdFile.cc:125-134 | Repaired translation: an exclusive creation never requests Delete. Apart from Delete, it requests the same modes as the original. |
| OpenFlags.CreateRespectingExclusive | src/XrdFile.cc:56-64 | With the repaired translation, `create` requests Delete exactly when it is not exclusive. |
| XrdFile.Open | src/XrdFile.cc:83-164 | An empty name, or neither read nor write, fails with FileOpenError and leaves the handle unchanged with no client call. Append first tears down a held file object (close if owned, else abort) and then fails. Open succeeds iff validation passes and the client open and stat succeed; then the cursor is 0, the size is the stat size, the handle owns the session, and the client was asked to open with the translated modes and then to stat. A refused open has sent the teardown calls and the open with the translated modes; a refused stat has also sent the stat. Either refusal leaves the new file object held but not owned, with the connection attached to the error. |
| XrdFile.WellFormed | src/XrdFile.cc:435-449 | The intended invariant behind the assertions at src/XrdFile.cc:365, 395, 435 and 449: a file object is held exactly when the session is owned; on a well-formed handle a file object is held iff the size is known, so `position` can be called with every whence without reaching its size assertion. |
| XrdFile.Teardown | src/XrdFile.cc:101-108 | A held file object is closed when owned and aborted otherwise. Either way the handle ends up closed, and only the owned case calls the client. |
| XrdFile.Create | src/XrdFile.cc:56-64 | `create` succeeds iff the name is non-empty and the client open and stat succeed. It always asks the client for Update, New, MakePath and Delete. |
| XrdFile.RepairedOpen | src/XrdFile.cc:136-164 | Same result as `open`, and the same handle on success. A refused open or stat leaves a closed handle. It preserves `WellFormed`. An exclusive creation never sends Delete. |
| XrdFile.Close | src/XrdFile.cc:183-207 | Close never raises. With no file object it only clears the ownership flag and reports the misuse, with no client call. Otherwise it calls the client close and leaves cursor 0, unknown size and no file object. It warns exactly when the client close failed. |
| XrdFile.Abort | src/XrdFile.cc:209-216 | Abort drops the file object and leaves cursor 0 and unknown size. It makes no client call and never raises. |
| XrdFile.CursorRead | src/XrdFile.cc:219-244 | More than 0x7fffffff bytes fails with FileReadError before any client call, also on a handle without a file object; the connection is attached iff a file object is held. Otherwise the read is at the cursor. On success the cursor advances by the bytes returned. The cached size never changes. |
| XrdFile.PositionedRead | src/XrdFile.cc:246-270 | Same length guard, also without a file object. The client reads at the given position and the handle is unchanged. |
| XrdFile.CursorWrite | src/XrdFile.cc:343-370 | Same length guard, raising FileWriteError, also without a file object. On success the cursor advances by n and the size becomes max(size, new cursor). On failure the handle is unchanged. |
| XrdFile.PositionedWrite | src/XrdFile.cc:372-400 | Same length guard, also without a file object. On success the cursor stays and the size becomes max(size, pos + n). |
| XrdFile.VectorRead | src/XrdFile.cc:291-341 | No segments: result 0 and no client call. One segment: exactly the positioned read. Otherwise: one batched read of the chunk list, with every chunk at most 512 KiB and the lengths summing to the request. The client's byte count is returned as reported. A refusal reports the segment count and the total size. |
| XrdFile.LegacyVectorRead | src/XrdFile.cc:273-285 | No buffers: result 0 and no call. A single buffer is exactly the positioned read at offset 0. Several buffers send one batched read of the chunk list of the prefix-sum layout (buffer i at the sum of the sizes before it), whose first chunk starts at 0, whose chunks are bounded and cover the buffers' total size; the reply's count is returned, and a refusal reports the buffer count and total size. |
| XrdFile.Position | src/XrdFile.cc:413-454 | With no file object, position fails with FilePositionError and no connection attached. A bad whence fails with FilePositionError, the connection attached and the cursor unchanged. SET assigns, CURRENT adds, END adds to the size. A negative result clamps to 0. The size becomes max(size, cursor), and the cursor is returned. Afterwards 0 ≤ cursor ≤ size, and the size never decreases. |
| XrdFile.Resize | src/XrdFile.cc:456-464 | Resize always fails with FileResizeError, whatever the state, and changes nothing. |
| XrdFile.Prefetch | src/XrdFile.cc:402-408 | Prefetch always declines. |
| Lifecycle.OpenThenSeekEnd | src/XrdFile.cc:160-164 | After a successful open the cursor is 0, and seeking 0 from the end returns the stat size. |
| Lifecycle.AppendClosesOpenSessionFirst | src/XrdFile.cc:101-123 | Asking for append on a handle with an owned session closes that session, then fails, without opening the new file. |
| Lifecycle.CloseTwice | src/XrdFile.cc:183-207 | A second close finds no file object, calls nothing, reports the misuse and changes nothing. |
| Lifecycle.CloseAgreesWithAbort | src/XrdFile.cc:183-216 | On a handle holding a file object, close and abort leave the same state. Only close calls the client. |
| Lifecycle.CursorWriteIsWriteThenSeek | src/XrdFile.cc:343-400 | A cursor write equals a positioned write at the cursor followed by a relative seek of n. |
| Lifecycle.CursorReadIsReadThenSeek | src/XrdFile.cc:219-270 | A cursor read equals a positioned read at the cursor followed by a relative seek of the bytes returned, when it ends within the cached size. Beyond the cached size, the seek would grow the size and the read does not. |
| Lifecycle.SeeksCompose | src/XrdFile.cc:423-431 | Two seeks that stay non-negative compose: SET a, then CURRENT d, returns the same as SET a + d. |
| Lifecycle.SeekNowhere | src/XrdFile.cc:429-453 | Seeking 0 from the cursor returns the cursor. It leaves the handle unchanged iff the cursor is within the cached size. |
| Lifecycle.Run | src/XrdFile.cc:219-454 | Any sequence of seeks, reads, writes, vectored reads and resizes on a well-formed open handle keeps it well formed and open. The name is kept and the cached size never shrinks. |
| Lifecycle.CursorWritesExtendSize | src/XrdFile.cc:364-367 | Successful cursor writes from a cursor within the cached size move the cursor by their total. The size ends at max(original size, final cursor). |
| Lifecycle.RefusedOpenLeavesHalfOpenHandle | src/XrdFile.cc:136-149 | As written, a refused client open leaves a held, unowned file object with unknown size, which is not well formed. |
| Lifecycle.RefusedOpenBreaksPosition | src/XrdFile.cc:136-149 | From a fresh handle, a refused open of "f" leaves a file object with unknown size, so the handle fails `position`'s precondition `CanPosition` for SET: the closed check at :416 passes and the assertion at :449 fails. |
| Lifecycle.RepairedOpenRefusalIsClosed | src/XrdFile.cc:136-164 | With the repaired open, a refused open or stat leaves a closed, well-formed handle, and position then reports a closed file. |

## Findings

| source | as written | input that shows it | evidently intended | confidence | as-written member | corrected member |
|---|---|---|---|---|---|---|
| src/XrdFile.cc:125-134 | `create` always adds OpenTruncate, and truncate with write adds Delete, so the exclusive flag has no effect | `create("f", exclusive = true)` requests Update, New, MakePath and Delete, the same as `exclusive = false` | an exclusive create does not request Delete, so an existing file makes the open fail | medium; not executed | OpenFlags.ExclusiveCreateStillDeletes | OpenFlags.TranslateFlagsRespectingExclusive |
| src/XrdFile.cc:136-149 | a refused client open (or stat) throws with the new file object still held and `m_size == -1` | fresh handle, `open("f", OpenRead)` refused by the client, then `position(0)` | the failed open leaves the handle closed, so `position` raises FilePositionError instead of reaching `assert(m_size != -1)` | medium; not executed | Lifecycle.RefusedOpenLeavesHalfOpenHandle | XrdFile.RepairedOpen |

## Left out

- The XRootD client itself. Open, Stat, Close, Read, Write and VectorRead are answers passed in as parameters. The model does not relate them to each other or to the remote file's contents.
- The returned byte counts are trusted as the original trusts them. Nothing bounds a read's count by the requested length, or a batched read's count by the total.
- Logging, exception message text and the formatting in `addConnection`. Whether the connection is attached is modelled as a flag.
- The destructor's diagnostic for a handle still owning a session, and the commented-out monitoring block. Both only log.
- The permission bits of `open`/`create`. They are passed through to the client open unchanged.
- The constructors that open. They are `Open` applied to `Initial`.
- The `std::string` overloads of `open` and `create`. They only delegate.
- Fixed-width integers. Offsets and sizes are unbounded, so signed 64-bit overflow of the cursor and size arithmetic is not modelled.
- The legacy vectored read writes into a vector it has only reserved. The model gives it the intended contiguous layout.
- Reads and writes (cursor and positioned) that pass the length guard on a handle without a file object: the original calls through the null file object there, so these are `n <= 0x7fffffff ==> hasFile` preconditions rather than an error path. Both vectored reads require a file object outright, as the assertion at src/XrdFile.cc:294 does.
- Concurrent use of one handle, and staleness of the cached size under other writers.
