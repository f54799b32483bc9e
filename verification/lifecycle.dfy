/** Properties of the XRootD file handle that relate several calls: how
    open, close and abort interact, how the cursor operations relate to the
    positioned ones and to seeking, what a whole session of cursor and size
    operations keeps invariant, and the two defects of `open`. */
module Lifecycle {
  import opened Chunking
  import opened OpenFlags
  import opened XrdFile

  // ---------------------------------------------------------------- open, close, abort

  /** After a successful open the cursor is 0 and seeking 0 from the end
      lands on the size the stat reported. */
  lemma OpenThenSeekEnd(h: Handle, name: string, flags: set<IoFlag>, closing: Status, size: nat)
    requires name != [] && RequestsAccess(flags) && OpenAppend !in flags
    ensures var o := Open(h, name, flags, closing, StatusOK, Replied(size));
      && o.h.offset == 0
      && Position(o.h, 0, END).result == Ok(size)
  {
  }

  /** Asking for append mode on a handle with an owned session closes that
      session and then fails; the new file is never opened. */
  lemma AppendClosesOpenSessionFirst(h: Handle, name: string, flags: set<IoFlag>, closing: Status, opening: Status, stat: Reply)
    requires h.hasFile && h.ownsClose
    requires name != [] && RequestsAccess(flags) && OpenAppend in flags
    ensures var r := Open(h, name, flags, closing, opening, stat);
      && r.calls == [CloseCall]
      && r.h == ClosedHandle(h.name)
      && r.result == Err(Error(FileOpenError, AppendUnsupported, false))
  {
  }

  /** Closing twice is harmless: the second close finds no file object,
      calls nothing, reports the misuse and leaves the handle as it was. */
  lemma CloseTwice(h: Handle, first: Status, second: Status)
    ensures var c1 := Close(h, first);
      var c2 := Close(c1.h, second);
      && c2.h == c1.h
      && c2.calls == []
      && c2.result == Ok(NotOpenReported)
  {
  }

  /** On a handle holding a file object, close and abort leave the same state;
      they differ only in that close calls the client. */
  lemma CloseAgreesWithAbort(h: Handle, closing: Status)
    requires h.hasFile
    ensures Close(h, closing).h == Abort(h).h
    ensures Close(h, closing).calls == [CloseCall] && Abort(h).calls == []
  {
  }

  // ---------------------------------------------------------------- cursor versus positioned I/O

  /** A cursor write is a positioned write at the cursor followed by a seek
      of n bytes relative to the cursor. */
  lemma CursorWriteIsWriteThenSeek(h: Handle, from: int, n: nat, written: Status)
    requires WellFormed(h) && h.hasFile
    ensures var c := CursorWrite(h, from, n, written);
      var p := PositionedWrite(h, from, n, h.offset, written);
      && c.calls == p.calls
      && c.result == p.result
      && (c.result.Ok? ==> c.h == Position(p.h, n, CURRENT).h)
  {
  }

  /** A cursor read is a positioned read at the cursor followed by a seek of
      the returned byte count, as long as it ends within the cached size
      (beyond it, the seek would grow the cached size and the read does not). */
  lemma CursorReadIsReadThenSeek(h: Handle, into: int, n: nat, got: nat)
    requires WellFormed(h) && h.hasFile
    ensures var c := CursorRead(h, into, n, Replied(got));
      var p := PositionedRead(h, into, n, h.offset, Replied(got));
      && c.calls == p.calls
      && c.result == p.result
      && (c.result.Ok? && h.offset + got <= h.size ==> c.h == Position(h, got, CURRENT).h)
      && (c.result.Ok? && h.offset + got > h.size ==> c.h.size < Position(h, got, CURRENT).h.size)
  {
  }

  /** Relative seeks add up while they stay at or beyond the start of the file. */
  lemma SeeksCompose(h: Handle, a: int, d: int)
    requires WellFormed(h) && h.hasFile
    requires 0 <= a && 0 <= a + d
    ensures Position(Position(h, a, SET).h, d, CURRENT).result == Position(h, a + d, SET).result
  {
  }

  /** Seeking 0 from the cursor reports the cursor; it changes the handle
      only when a read has carried the cursor past the cached size. */
  lemma SeekNowhere(h: Handle)
    requires WellFormed(h) && h.hasFile
    ensures Position(h, 0, CURRENT).result == Ok(h.offset)
    ensures Position(h, 0, CURRENT).h == h <==> h.offset <= h.size
  {
  }

  // ---------------------------------------------------------------- sessions

  /** One cursor, size or read operation on an open handle, with the client's answer. */
  datatype SessionOp =
    | Seek(offset: int, whence: Whence)
    | ReadHere(into: int, n: nat, reply: Reply)
    | ReadThere(into: int, n: nat, pos: int, reply: Reply)
    | WriteHere(from: int, n: nat, written: Status)
    | WriteThere(from: int, n: nat, pos: int, written: Status)
    | ReadMany(segs: seq<Segment>, reply: Reply)
    | ResizeTo(size: int)

  /** The handle after one operation, whatever it returned. */
  function Apply(h: Handle, op: SessionOp): Handle
    requires WellFormed(h) && h.hasFile
  {
    match op
    case Seek(offset, whence) => Position(h, offset, whence).h
    case ReadHere(into, n, reply) => CursorRead(h, into, n, reply).h
    case ReadThere(into, n, pos, reply) => PositionedRead(h, into, n, pos, reply).h
    case WriteHere(from, n, written) => CursorWrite(h, from, n, written).h
    case WriteThere(from, n, pos, written) => PositionedWrite(h, from, n, pos, written).h
    case ReadMany(segs, reply) => VectorRead(h, segs, reply).h
    case ResizeTo(size) => Resize(h, size).h
  }

  /** The handle after a sequence of operations on an open session: it stays
      open and well formed, the name is kept, and the cached size never
      shrinks. */
  function Run(h: Handle, ops: seq<SessionOp>): (r: Handle)
    requires WellFormed(h) && h.hasFile
    ensures WellFormed(r) && r.hasFile && r.ownsClose
    ensures r.name == h.name
    ensures h.size <= r.size
    decreases |ops|
  {
    if |ops| == 0 then h else Run(Apply(h, ops[0]), ops[1..])
  }

  /** A session of writes at the cursor from a freshly opened file moves the
      cursor by the total written and leaves the cached size at the larger of
      the stat size and the cursor. */
  lemma {:induction false} CursorWritesExtendSize(h: Handle, ns: seq<nat>)
    requires WellFormed(h) && h.hasFile && h.offset <= h.size
    requires forall i :: 0 <= i < |ns| ==> ns[i] <= MaxRequest
    ensures var r := Run(h, Writes(ns));
      && r.offset == h.offset + Sum(ns)
      && r.size == if h.offset + Sum(ns) > h.size then h.offset + Sum(ns) else h.size
    decreases |ns|
  {
    if |ns| > 0 {
      var next := Apply(h, WriteHere(0, ns[0], StatusOK));
      assert Writes(ns)[0] == WriteHere(0, ns[0], StatusOK);
      assert Writes(ns)[1..] == Writes(ns[1..]);
      CursorWritesExtendSize(next, ns[1..]);
    }
  }

  /** Successful cursor writes of the given sizes. */
  function Writes(ns: seq<nat>): (ops: seq<SessionOp>)
    ensures |ops| == |ns|
    ensures forall i :: 0 <= i < |ns| ==> ops[i] == WriteHere(0, ns[i], StatusOK)
  {
    if |ns| == 0 then [] else [WriteHere(0, ns[0], StatusOK)] + Writes(ns[1..])
  }

  function Sum(ns: seq<nat>): nat
  {
    if |ns| == 0 then 0 else ns[0] + Sum(ns[1..])
  }

  // ---------------------------------------------------------------- the defects of open

  /** As written, a refused open leaves the handle holding a file object that
      it does not own and whose size is unknown: position no longer reports
      a closed file, yet the size it needs is unknown, which the original
      only guards by an assertion. */
  lemma RefusedOpenLeavesHalfOpenHandle(h: Handle, name: string, flags: set<IoFlag>, closing: Status, stat: Reply)
    requires WellFormed(h)
    requires name != [] && RequestsAccess(flags) && OpenAppend !in flags
    ensures var r := Open(h, name, flags, closing, StatusError, stat);
      && r.h.hasFile && !r.h.ownsClose && r.h.size == UnknownSize
      && !WellFormed(r.h)
      && r.result == Err(Error(FileOpenError, OpenRefused, true))
  {
  }

  /** Concretely: after a fresh handle's open of "f" for reading is refused,
      positioning it to 0 passes the closed-file check but violates the size
      assertion, that is, the handle fails `Position`'s precondition. */
  lemma RefusedOpenBreaksPosition()
    ensures var r := Open(Initial, "f", {OpenRead}, StatusOK, StatusError, Refused);
      && r.h.hasFile
      && !CanPosition(r.h, SET)
  {
  }

  /** With the repaired open, a refused open or stat leaves a closed,
      well-formed handle, and position then reports a closed file. */
  lemma RepairedOpenRefusalIsClosed(h: Handle, name: string, flags: set<IoFlag>, closing: Status, opening: Status, stat: Reply,
                                    offset: int, whence: Whence)
    requires WellFormed(h)
    requires name != [] && RequestsAccess(flags) && OpenAppend !in flags
    requires opening == StatusError || stat.Refused?
    ensures var r := RepairedOpen(h, name, flags, closing, opening, stat);
      && WellFormed(r.h)
      && r.result.Err?
      && Position(r.h, offset, whence).result == Err(Error(FilePositionError, NotOpen, false))
  {
  }
}
