/** The XRootD file handle (XrdFile): one handle over one remote file, with a
    cursor, a locally cached file size and an open/closed lifecycle.

    Every call into the XRootD client is replaced by a parameter holding its
    answer (a `Status` or a `Reply`), and every operation returns a `Step`:
    the handle afterwards, the client calls it issued in order, and its
    result or the error it raises. */
module XrdFile {
  import opened Chunking
  import opened LegacyBuffers
  import opened OpenFlags

  /** Largest byte count one read or write may request (0x7fffffff). */
  const MaxRequest: nat := 0x7fff_ffff

  /** The cached size of a handle that has not successfully opened a file. */
  const UnknownSize: int := -1

  /** The handle's state.
      - hasFile: a client file object is held (the handle's file pointer is set);
      - offset: the cursor;
      - size: the cached file size, `UnknownSize` when closed;
      - ownsClose: the handle opened successfully and still has to be closed;
      - name: the name of the last file an open was attempted on. */
  datatype Handle = Handle(hasFile: bool, offset: int, size: int, ownsClose: bool, name: string)

  /** A freshly constructed handle. */
  const Initial: Handle := Handle(false, 0, UnknownSize, false, [])

  /** The handle after `close` or `abort`. */
  function ClosedHandle(name: string): Handle
  {
    Handle(false, 0, UnknownSize, false, name)
  }

  /** The state every successful open, close and abort leaves behind: a file
      object is held exactly when the handle owns an open session; an open
      handle has a non-negative cursor and a known size, a closed one has
      cursor 0 and unknown size. */
  function WellFormed(h: Handle): (ok: bool)
    ensures ok ==> (h.hasFile <==> h.size != UnknownSize)
    ensures ok ==> CanPosition(h, SET) && CanPosition(h, CURRENT) && CanPosition(h, END)
  {
    && h.hasFile == h.ownsClose
    && (h.ownsClose ==> 0 <= h.offset && 0 <= h.size)
    && (!h.ownsClose ==> h.offset == 0 && h.size == UnknownSize)
  }

  datatype ErrorKind =
    | FileOpenError
    | FileReadError
    | FileWriteError
    | FilePositionError
    | FileResizeError

  /** Why an operation failed. */
  datatype Cause =
    | NoName
    | NoAccessRequested
    | AppendUnsupported
    | OpenRefused
    | StatRefused
    | TooManyBytes
    | ReadRefused
    | VectorReadRefused(segments: nat, size: nat)
    | WriteRefused
    | NotOpen
    | BadWhence
    | NotImplemented

  /** A raised error; `connection` records whether the current server
      connection was attached to it, which happens exactly when the error is
      raised with a client file object held and the raising site attaches it. */
  datatype Error = Error(kind: ErrorKind, cause: Cause, connection: bool)

  datatype Result<T> = Ok(value: T) | Err(error: Error)

  /** The status a client call returned. */
  datatype Status = StatusOK | StatusError

  /** The answer to a client call that also returns a byte count or a size. */
  datatype Reply = Replied(value: nat) | Refused

  /** A call into the XRootD client. */
  datatype Call =
    | OpenCall(path: string, modes: set<OpenMode>)
    | StatCall
    | CloseCall
    | ReadCall(offset: int, length: nat, buffer: int)
    | WriteCall(offset: int, length: nat, buffer: int)
    | VectorReadCall(chunks: seq<Chunk>)

  datatype Step<T> = Step(h: Handle, calls: seq<Call>, result: Result<T>)

  /** Origin of a seek; `OutOfRange` stands for any other value of the enumeration. */
  datatype Whence = SET | CURRENT | END | OutOfRange(code: int)

  /** What `close` reports without raising. */
  datatype CloseReport = NotOpenReported | Closed | ClosedWithWarning

  // ---------------------------------------------------------------- lifecycle

  /** close: with no file object it only logs the misuse and clears the
      ownership flag; otherwise it closes the client file, downgrading a
      failure to a warning, and always drops the file object, the cursor and
      the cached size. It never raises. */
  function Close(h: Handle, closing: Status): (r: Step<CloseReport>)
    ensures r.result.Ok?
    ensures !r.h.hasFile && !r.h.ownsClose && r.h.name == h.name
    ensures !h.hasFile ==> r.h == h.(ownsClose := false) && r.calls == [] && r.result.value == NotOpenReported
    ensures h.hasFile ==> r.h.offset == 0 && r.h.size == UnknownSize && r.calls == [CloseCall]
    ensures h.hasFile ==> (r.result.value == ClosedWithWarning <==> closing == StatusError)
    ensures WellFormed(h) ==> WellFormed(r.h)
  {
    if !h.hasFile then Step(h.(ownsClose := false), [], Ok(NotOpenReported))
    else Step(ClosedHandle(h.name), [CloseCall], Ok(if closing == StatusOK then Closed else ClosedWithWarning))
  }

  /** abort: drops the file object, the cursor and the cached size without
      calling the client and without raising. */
  function Abort(h: Handle): (r: Step<()>)
    ensures r.calls == [] && r.result.Ok?
    ensures !r.h.hasFile && !r.h.ownsClose && r.h.name == h.name
    ensures r.h.offset == 0 && r.h.size == UnknownSize
    ensures WellFormed(r.h)
  {
    Step(ClosedHandle(h.name), [], Ok(()))
  }

  /** What `open` does with a handle that still holds a file object: close it
      when the handle owns the session, abort it otherwise. */
  function Teardown(h: Handle, closing: Status): (r: Step<()>)
    ensures !r.h.hasFile && r.h.name == h.name
    ensures h.hasFile ==> r.h == ClosedHandle(h.name)
    ensures !h.hasFile ==> r.h == h
    ensures r.calls == if h.hasFile && h.ownsClose then [CloseCall] else []
    ensures WellFormed(h) ==> WellFormed(r.h)
  {
    if !h.hasFile then Step(h, [], Ok(()))
    else if h.ownsClose then
      var c := Close(h, closing);
      Step(c.h, c.calls, Ok(()))
    else Abort(h)
  }

  /** open: rejects an empty name and a request for neither reading nor
      writing before touching the handle; then tears down any held file
      object; then rejects append mode; then opens and stats the file with
      the translated modes. A refused open or stat leaves the new file object
      held but not owned. On success the cursor is 0, the cached size is the
      stat size and the handle owns the session. `closing` answers the close
      of a previously owned session, `opening` the open, `stat` the stat. */
  function Open(h: Handle, name: string, flags: set<IoFlag>, closing: Status, opening: Status, stat: Reply): (r: Step<()>)
    ensures name == [] ==> r == Step(h, [], Err(Error(FileOpenError, NoName, false)))
    ensures name != [] && !RequestsAccess(flags) ==> r == Step(h, [], Err(Error(FileOpenError, NoAccessRequested, false)))
    ensures name != [] && RequestsAccess(flags) && OpenAppend in flags ==>
      && r.h == Teardown(h, closing).h && r.calls == Teardown(h, closing).calls
      && r.result == Err(Error(FileOpenError, AppendUnsupported, false))
    ensures r.result.Ok? <==>
      name != [] && RequestsAccess(flags) && OpenAppend !in flags && opening != StatusError && !stat.Refused?
    ensures name != [] && RequestsAccess(flags) && OpenAppend !in flags && opening == StatusError ==>
      r.result == Err(Error(FileOpenError, OpenRefused, true))
    ensures name != [] && RequestsAccess(flags) && OpenAppend !in flags && opening == StatusOK && stat.Refused? ==>
      r.result == Err(Error(FileOpenError, StatRefused, true))
    ensures r.result.Ok? ==> r.h == Handle(true, 0, stat.value, true, name)
    ensures r.result.Ok? ==>
      r.calls == Teardown(h, closing).calls + [OpenCall(name, TranslateFlags(flags)), StatCall]
    ensures r.result.Err? ==> r.result.error.kind == FileOpenError
    ensures r.result.Err? && r.result.error.cause in {OpenRefused, StatRefused} ==>
      && r.h == Teardown(h, closing).h.(hasFile := true, name := name)
      && r.result.error.connection
    ensures r.result.Err? && r.result.error.cause == OpenRefused ==>
      r.calls == Teardown(h, closing).calls + [OpenCall(name, TranslateFlags(flags))]
    ensures r.result.Err? && r.result.error.cause == StatRefused ==>
      r.calls == Teardown(h, closing).calls + [OpenCall(name, TranslateFlags(flags)), StatCall]
    ensures r.result.Ok? ==> WellFormed(r.h)
  {
    if name == [] then Step(h, [], Err(Error(FileOpenError, NoName, false)))
    else if !RequestsAccess(flags) then Step(h, [], Err(Error(FileOpenError, NoAccessRequested, false)))
    else
      var down := Teardown(h, closing);
      if OpenAppend in flags then Step(down.h, down.calls, Err(Error(FileOpenError, AppendUnsupported, false)))
      else
        var pending := down.h.(hasFile := true, name := name);
        var calls := down.calls + [OpenCall(name, TranslateFlags(flags))];
        if opening == StatusError then Step(pending, calls, Err(Error(FileOpenError, OpenRefused, true)))
        else if stat.Refused? then Step(pending, calls + [StatCall], Err(Error(FileOpenError, StatRefused, true)))
        else
          assert opening == StatusOK && stat.Replied?;
          Step(pending.(offset := 0, size := stat.value, ownsClose := true), calls + [StatCall], Ok(()))
  }

  /** create: `open` with create, write and truncate, plus exclusive when asked. */
  function Create(h: Handle, name: string, exclusive: bool, closing: Status, opening: Status, stat: Reply): (r: Step<()>)
    ensures r.result.Ok? <==> name != [] && opening == StatusOK && stat.Replied?
    ensures r.result.Ok? ==> r.h == Handle(true, 0, stat.value, true, name)
    ensures name != [] ==> OpenCall(name, {Update, New, MakePath, Delete}) in r.calls
  {
    ExclusiveCreateStillDeletes();
    Open(h, name, CreateFlags(exclusive), closing, opening, stat)
  }

  /** `open` with the two defects of the original repaired: exclusivity is
      respected when translating the flags, and a refused open or stat drops
      the new file object again, leaving the handle closed. */
  function RepairedOpen(h: Handle, name: string, flags: set<IoFlag>, closing: Status, opening: Status, stat: Reply): (r: Step<()>)
    ensures r.result == Open(h, name, flags, closing, opening, stat).result
    ensures r.result.Ok? ==> r.h == Open(h, name, flags, closing, opening, stat).h
    ensures r.result.Err? && r.result.error.cause in {OpenRefused, StatRefused} ==> r.h == ClosedHandle(name)
    ensures WellFormed(h) ==> WellFormed(r.h)
    ensures OpenCreate in flags && OpenExclusive in flags ==>
      forall c :: c in r.calls && c.OpenCall? ==> Delete !in c.modes
  {
    if name == [] then Step(h, [], Err(Error(FileOpenError, NoName, false)))
    else if !RequestsAccess(flags) then Step(h, [], Err(Error(FileOpenError, NoAccessRequested, false)))
    else
      var down := Teardown(h, closing);
      if OpenAppend in flags then Step(down.h, down.calls, Err(Error(FileOpenError, AppendUnsupported, false)))
      else
        var calls := down.calls + [OpenCall(name, TranslateFlagsRespectingExclusive(flags))];
        if opening == StatusError then Step(ClosedHandle(name), calls, Err(Error(FileOpenError, OpenRefused, true)))
        else if stat.Refused? then Step(ClosedHandle(name), calls + [StatCall], Err(Error(FileOpenError, StatRefused, true)))
        else Step(Handle(true, 0, stat.value, true, name), calls + [StatCall], Ok(()))
  }

  // ---------------------------------------------------------------- reads and writes

  /** read at the cursor: more than `MaxRequest` bytes is refused before the
      file object is touched, so also on a handle without one; otherwise the client reads at the cursor and the
      cursor advances by the byte count it returns. The cached size never changes. */
  function CursorRead(h: Handle, into: int, n: nat, reply: Reply): (r: Step<nat>)
    requires n <= MaxRequest ==> h.hasFile
    ensures n > MaxRequest ==> r == Step(h, [], Err(Error(FileReadError, TooManyBytes, h.hasFile)))
    ensures n <= MaxRequest ==> r.calls == [ReadCall(h.offset, n, into)]
    ensures r.result.Ok? <==> n <= MaxRequest && reply.Replied?
    ensures r.result.Ok? ==> r.result.value == reply.value && r.h == h.(offset := h.offset + reply.value)
    ensures r.result.Err? ==> r.h == h && r.result.error.kind == FileReadError
    ensures r.h.size == h.size
    ensures WellFormed(h) ==> WellFormed(r.h)
  {
    if n > MaxRequest then Step(h, [], Err(Error(FileReadError, TooManyBytes, h.hasFile)))
    else
      match reply
      case Refused => Step(h, [ReadCall(h.offset, n, into)], Err(Error(FileReadError, ReadRefused, true)))
      case Replied(got) => Step(h.(offset := h.offset + got), [ReadCall(h.offset, n, into)], Ok(got))
  }

  /** read at an explicit position: same guard and error, cursor untouched. */
  function PositionedRead(h: Handle, into: int, n: nat, pos: int, reply: Reply): (r: Step<nat>)
    requires n <= MaxRequest ==> h.hasFile
    ensures r.h == h
    ensures n > MaxRequest ==> r.calls == [] && r.result == Err(Error(FileReadError, TooManyBytes, h.hasFile))
    ensures n <= MaxRequest ==> r.calls == [ReadCall(pos, n, into)]
    ensures r.result.Ok? <==> n <= MaxRequest && reply.Replied?
    ensures r.result.Ok? ==> r.result.value == reply.value
    ensures r.result.Err? ==> r.result.error.kind == FileReadError
  {
    if n > MaxRequest then Step(h, [], Err(Error(FileReadError, TooManyBytes, h.hasFile)))
    else
      match reply
      case Refused => Step(h, [ReadCall(pos, n, into)], Err(Error(FileReadError, ReadRefused, true)))
      case Replied(got) => Step(h, [ReadCall(pos, n, into)], Ok(got))
  }

  /** write at the cursor: same guard; on success the cursor advances by n
      and the cached size grows to cover the written range. */
  function CursorWrite(h: Handle, from: int, n: nat, written: Status): (r: Step<nat>)
    requires n <= MaxRequest ==> h.hasFile
    requires n <= MaxRequest && written == StatusOK ==> h.size != UnknownSize
    ensures n > MaxRequest ==> r == Step(h, [], Err(Error(FileWriteError, TooManyBytes, h.hasFile)))
    ensures n <= MaxRequest ==> r.calls == [WriteCall(h.offset, n, from)]
    ensures r.result.Ok? <==> n <= MaxRequest && written == StatusOK
    ensures r.result.Ok? ==>
      && r.result.value == n
      && r.h.offset == h.offset + n
      && r.h.size >= h.size && r.h.size >= r.h.offset
      && (r.h.size == h.size || r.h.size == r.h.offset)
      && r.h == h.(offset := r.h.offset, size := r.h.size)
    ensures r.result.Err? ==> r.h == h && r.result.error.kind == FileWriteError
    ensures WellFormed(h) ==> WellFormed(r.h)
  {
    if n > MaxRequest then Step(h, [], Err(Error(FileWriteError, TooManyBytes, h.hasFile)))
    else if written == StatusError then Step(h, [WriteCall(h.offset, n, from)], Err(Error(FileWriteError, WriteRefused, true)))
    else
      var offset := h.offset + n;
      Step(h.(offset := offset, size := if offset > h.size then offset else h.size), [WriteCall(h.offset, n, from)], Ok(n))
  }

  /** write at an explicit position: same guard; on success the cursor stays
      and the cached size grows to cover the written range. */
  function PositionedWrite(h: Handle, from: int, n: nat, pos: int, written: Status): (r: Step<nat>)
    requires n <= MaxRequest ==> h.hasFile
    requires n <= MaxRequest && written == StatusOK ==> h.size != UnknownSize
    ensures n > MaxRequest ==> r == Step(h, [], Err(Error(FileWriteError, TooManyBytes, h.hasFile)))
    ensures n <= MaxRequest ==> r.calls == [WriteCall(pos, n, from)]
    ensures r.result.Ok? <==> n <= MaxRequest && written == StatusOK
    ensures r.result.Ok? ==>
      && r.result.value == n
      && r.h.size >= h.size && r.h.size >= pos + n
      && (r.h.size == h.size || r.h.size == pos + n)
      && r.h == h.(size := r.h.size)
    ensures r.result.Err? ==> r.h == h && r.result.error.kind == FileWriteError
    ensures WellFormed(h) ==> WellFormed(r.h)
  {
    if n > MaxRequest then Step(h, [], Err(Error(FileWriteError, TooManyBytes, h.hasFile)))
    else if written == StatusError then Step(h, [WriteCall(pos, n, from)], Err(Error(FileWriteError, WriteRefused, true)))
    else Step(h.(size := if pos + n > h.size then pos + n else h.size), [WriteCall(pos, n, from)], Ok(n))
  }

  // ---------------------------------------------------------------- vectored reads

  /** readv over positioned segments: no segment means 0 bytes and no client
      call; one segment is exactly a positioned read; otherwise all segments
      are split into bounded chunks and sent in one batched read, whose byte
      count is returned as reported. A refused batched read reports the
      segment count and the total requested size. */
  function VectorRead(h: Handle, segs: seq<Segment>, reply: Reply): (r: Step<nat>)
    requires h.hasFile
    ensures r.h == h
    ensures |segs| == 0 ==> r.calls == [] && r.result == Ok(0)
    ensures |segs| == 1 ==> r == PositionedRead(h, segs[0].buffer, segs[0].length, segs[0].offset, reply)
    ensures |segs| >= 2 ==>
      && r.calls == [VectorReadCall(ChunkList(segs))]
      && |r.calls[0].chunks| >= |segs|
      && Bounded(r.calls[0].chunks)
      && ChunkTotal(r.calls[0].chunks) == SegmentTotal(segs)
    ensures |segs| >= 2 ==> (r.result.Ok? <==> reply.Replied?)
    ensures |segs| >= 2 && reply.Replied? ==> r.result.value == reply.value
    ensures |segs| >= 2 && reply.Refused? ==>
      r.result.error == Error(FileReadError, VectorReadRefused(|segs|, SegmentTotal(segs)), true)
  {
    if |segs| == 0 then Step(h, [], Ok(0))
    else if |segs| == 1 then PositionedRead(h, segs[0].buffer, segs[0].length, segs[0].offset, reply)
    else
      ChunkListShape(segs);
      var call := VectorReadCall(ChunkList(segs));
      match reply
      case Refused => Step(h, [call], Err(Error(FileReadError, VectorReadRefused(|segs|, SegmentTotal(segs)), true)))
      case Replied(got) => Step(h, [call], Ok(got))
  }

  /** readv over plain buffers: the buffers are laid out back to back from
      file position 0, buffer i at the sum of the sizes before it, and read
      as positioned segments. */
  function LegacyVectorRead(h: Handle, bufs: seq<IoBuffer>, reply: Reply): (r: Step<nat>)
    requires h.hasFile
    ensures r.h == h
    ensures |bufs| == 0 ==> r.calls == [] && r.result == Ok(0)
    ensures |bufs| == 1 ==> r == PositionedRead(h, bufs[0].data, bufs[0].size, 0, reply)
    ensures |bufs| >= 2 ==>
      && r.calls == [VectorReadCall(ChunkList(PrefixSumLayout(bufs)))]
      && r.calls[0].chunks[0].offset == 0
      && Bounded(r.calls[0].chunks)
      && ChunkTotal(r.calls[0].chunks) == TotalSize(bufs)
    ensures |bufs| >= 2 ==> (r.result.Ok? <==> reply.Replied?)
    ensures |bufs| >= 2 && reply.Replied? ==> r.result == Ok(reply.value)
    ensures |bufs| >= 2 && reply.Refused? ==>
      r.result == Err(Error(FileReadError, VectorReadRefused(|bufs|, TotalSize(bufs)), true))
  {
    ContiguouslyIsPrefixSums(bufs);
    ContiguouslyTotal(bufs, 0);
    ContiguouslyFirstChunk(bufs);
    VectorRead(h, Contiguously(bufs, 0), reply)
  }

  // ---------------------------------------------------------------- positioning

  /** What `position` asserts: once past the closed-file check and the
      whence check, the cached size is known. */
  predicate CanPosition(h: Handle, whence: Whence)
  {
    h.hasFile && !whence.OutOfRange? ==> h.size != UnknownSize
  }

  /** position: on a handle without a file object, or with an unknown whence,
      it raises and changes nothing. Otherwise SET assigns the cursor,
      CURRENT adds to it and END adds to the cached size; a negative result
      becomes 0; the cached size grows to the new cursor; the cursor is returned. */
  function Position(h: Handle, offset: int, whence: Whence): (r: Step<int>)
    requires CanPosition(h, whence)
    ensures r.calls == []
    ensures !h.hasFile ==> r.h == h && r.result == Err(Error(FilePositionError, NotOpen, false))
    ensures h.hasFile && whence.OutOfRange? ==> r.h == h && r.result == Err(Error(FilePositionError, BadWhence, true))
    ensures r.result.Ok? <==> h.hasFile && !whence.OutOfRange?
    ensures r.result.Ok? ==>
      && r.result.value == r.h.offset
      && 0 <= r.h.offset <= r.h.size
      && h.size <= r.h.size
      && (r.h.size == h.size || r.h.size == r.h.offset)
      && r.h == h.(offset := r.h.offset, size := r.h.size)
    ensures r.result.Ok? && whence == SET ==> r.h.offset == if offset < 0 then 0 else offset
    ensures r.result.Ok? && whence == CURRENT ==> r.h.offset == if h.offset + offset < 0 then 0 else h.offset + offset
    ensures r.result.Ok? && whence == END ==> r.h.offset == if h.size + offset < 0 then 0 else h.size + offset
    ensures WellFormed(h) ==> WellFormed(r.h)
  {
    if !h.hasFile then Step(h, [], Err(Error(FilePositionError, NotOpen, false)))
    else if whence.OutOfRange? then Step(h, [], Err(Error(FilePositionError, BadWhence, true)))
    else
      var target := match whence
        case SET => offset
        case CURRENT => h.offset + offset
        case END => h.size + offset;
      var cursor := if target < 0 then 0 else target;
      Step(h.(offset := cursor, size := if cursor > h.size then cursor else h.size), [], Ok(cursor))
  }

  /** resize is not supported: it always raises, in any state, and changes nothing. */
  function Resize(h: Handle, size: int): (r: Step<()>)
    ensures r.h == h && r.calls == []
    ensures r.result.Err? && r.result.error.kind == FileResizeError
    ensures r.result.error.connection <==> h.hasFile
  {
    Step(h, [], Err(Error(FileResizeError, NotImplemented, h.hasFile)))
  }

  /** prefetch is disabled: the client keeps no read-ahead buffers. */
  function Prefetch(h: Handle, what: seq<Segment>): (accepted: bool)
    ensures !accepted
  {
    false
  }
}
