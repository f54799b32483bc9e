/** Splitting of a scatter-gather read into protocol-sized chunks, as done by
    the positioned-segment vectored read of XrdFile. Memory buffers are
    modelled as integer positions in the caller's address space. */
module Chunking {

  /** The largest chunk the batched read of the endpoint accepts (512 KiB). */
  const MaxChunk: nat := 512 * 1024

  /** One caller request: read `length` bytes at file position `offset`
      into memory starting at `buffer`. */
  datatype Segment = Segment(offset: int, buffer: int, length: nat)

  /** One chunk of the batched read handed to the endpoint. */
  datatype Chunk = Chunk(offset: int, buffer: int, length: nat)

  /** Total number of bytes the chunks cover. */
  function ChunkTotal(cs: seq<Chunk>): nat
  {
    if |cs| == 0 then 0 else cs[0].length + ChunkTotal(cs[1..])
  }

  /** Total number of bytes the segments request. */
  function SegmentTotal(segs: seq<Segment>): nat
  {
    if |segs| == 0 then 0 else SegmentTotal(segs[..|segs| - 1]) + segs[|segs| - 1].length
  }

  /** No chunk exceeds the protocol maximum. */
  predicate Bounded(cs: seq<Chunk>)
  {
    forall j :: 0 <= j < |cs| ==> cs[j].length <= MaxChunk
  }

  /** Each chunk starts, both in the file and in memory, where the previous one ends. */
  predicate Contiguous(cs: seq<Chunk>)
  {
    forall j :: 0 <= j < |cs| - 1 ==> Follows(cs[j], cs[j + 1])
  }

  /** Chunk `b` starts, in the file and in memory, where chunk `a` ends. */
  predicate Follows(a: Chunk, b: Chunk)
  {
    b.offset == a.offset + a.length && b.buffer == a.buffer + a.length
  }

  /** The chunk lies within the segment, and its memory position is as far
      from the segment's buffer as its file position is from the segment's offset. */
  predicate Inside(c: Chunk, s: Segment)
  {
    && s.offset <= c.offset
    && c.offset + c.length <= s.offset + s.length
    && c.buffer - c.offset == s.buffer - s.offset
  }

  /** max(1, ceil(length / MaxChunk)): the number of chunks a segment needs. */
  function ChunkCount(length: nat): nat
  {
    if length == 0 then 1 else (length + MaxChunk - 1) / MaxChunk
  }

  /** The chunks of one segment: full-size pieces while more than a full
      chunk remains, then one remainder piece (empty only for an empty segment). */
  function SplitSegment(s: Segment): (cs: seq<Chunk>)
    ensures |cs| >= 1
    decreases s.length
  {
    if s.length > MaxChunk then
      [Chunk(s.offset, s.buffer, MaxChunk)] + SplitSegment(Next(s))
    else
      [Chunk(s.offset, s.buffer, s.length)]
  }

  /** What is left of a segment once its first full chunk is peeled off. */
  function Next(s: Segment): (t: Segment)
    requires s.length > MaxChunk
    ensures t.length < s.length
  {
    Segment(s.offset + MaxChunk, s.buffer + MaxChunk, s.length - MaxChunk)
  }

  /** The chunks of all segments, segment after segment. */
  function ChunkList(segs: seq<Segment>): (cl: seq<Chunk>)
    ensures |cl| >= |segs|
  {
    if |segs| == 0 then [] else SplitSegment(segs[0]) + ChunkList(segs[1..])
  }

  /** No chunk of the batched read exceeds the maximum, and together the
      chunks cover exactly as many bytes as the segments request. */
  lemma {:induction false} ChunkListShape(segs: seq<Segment>)
    ensures Bounded(ChunkList(segs))
    ensures ChunkTotal(ChunkList(segs)) == SegmentTotal(segs)
    ensures |ChunkList(segs)| >= |segs|
    decreases |segs|
  {
    if |segs| > 0 {
      var first := SplitSegment(segs[0]);
      var rest := ChunkList(segs[1..]);
      ChunkListShape(segs[1..]);
      SplitSegmentShape(segs[0]);
      ChunkTotalAppend(first, rest);
      SegmentTotalCons(segs);
      var cl := first + rest;
      forall j | 0 <= j < |cl|
        ensures cl[j].length <= MaxChunk
      {
        if j >= |first| {
          assert cl[j] == rest[j - |first|];
        }
      }
    }
  }

  lemma {:induction false} SegmentTotalCons(segs: seq<Segment>)
    requires |segs| > 0
    ensures SegmentTotal(segs) == segs[0].length + SegmentTotal(segs[1..])
    decreases |segs|
  {
    if |segs| > 1 {
      var n := |segs| - 1;
      SegmentTotalCons(segs[..n]);
      assert segs[..n][1..] == segs[1..][..n - 1];
    }
  }

  lemma {:induction false} ChunkTotalAppend(a: seq<Chunk>, b: seq<Chunk>)
    ensures ChunkTotal(a + b) == ChunkTotal(a) + ChunkTotal(b)
    decreases |a|
  {
    if |a| == 0 {
      assert a + b == b;
    } else {
      assert (a + b)[1..] == a[1..] + b;
      ChunkTotalAppend(a[1..], b);
    }
  }

  lemma {:induction false} ChunkTotalCoversLast(cs: seq<Chunk>)
    requires |cs| > 0
    ensures ChunkTotal(cs) >= cs[|cs| - 1].length
    decreases |cs|
  {
    if |cs| > 1 {
      ChunkTotalCoversLast(cs[1..]);
    }
  }

  /** The chunks of a segment start where the segment starts, never exceed
      the maximum, are all full-size except the last, follow one another
      without gap or overlap, add up exactly to the segment's length, and
      the last one is empty only when the segment is. */
  lemma {:induction false} SplitSegmentShape(s: Segment)
    ensures var cs := SplitSegment(s);
      && cs[0].offset == s.offset && cs[0].buffer == s.buffer
      && Bounded(cs)
      && Contiguous(cs)
      && ChunkTotal(cs) == s.length
      && (forall j :: 0 <= j < |cs| - 1 ==> cs[j].length == MaxChunk)
      && (cs[|cs| - 1].length == 0 ==> s.length == 0)
    decreases s.length
  {
    var cs := SplitSegment(s);
    if s.length > MaxChunk {
      var rest := SplitSegment(Next(s));
      SplitSegmentShape(Next(s));
      assert cs == [cs[0]] + rest;
      assert cs[1..] == rest;
      forall j | 0 <= j < |cs|
        ensures cs[j].length <= MaxChunk
        ensures j < |cs| - 1 ==> cs[j].length == MaxChunk
      {
        if j > 0 {
          assert cs[j] == rest[j - 1];
        }
      }
      forall j | 0 <= j < |cs| - 1
        ensures Follows(cs[j], cs[j + 1])
      {
        if j > 0 {
          assert cs[j] == rest[j - 1] && cs[j + 1] == rest[j];
        }
      }
    }
  }

  /** A segment of length L yields exactly max(1, ceil(L / MaxChunk)) chunks. */
  lemma {:induction false} SplitSegmentCount(s: Segment)
    ensures |SplitSegment(s)| == ChunkCount(s.length)
    decreases s.length
  {
    if s.length > MaxChunk {
      SplitSegmentCount(Next(s));
      assert (s.length + MaxChunk - 1) / MaxChunk == 1 + (Next(s).length + MaxChunk - 1) / MaxChunk;
    }
  }

  /** Closed form of chunk j of a segment: it starts j full chunks into the
      segment, in the file and in memory alike, and only the last one is short. */
  lemma {:induction false} SplitSegmentChunkAt(s: Segment, j: nat)
    requires j < |SplitSegment(s)|
    ensures SplitSegment(s)[j].offset == s.offset + j * MaxChunk
    ensures SplitSegment(s)[j].buffer == s.buffer + j * MaxChunk
    ensures SplitSegment(s)[j].length ==
      if j + 1 < |SplitSegment(s)| then MaxChunk else s.length - j * MaxChunk
    decreases s.length
  {
    if j > 0 {
      SplitSegmentChunkAt(Next(s), j - 1);
    }
  }

  /** Every chunk of a segment lies inside it, with memory and file positions in lockstep. */
  lemma {:induction false} SplitSegmentInside(s: Segment)
    ensures forall j :: 0 <= j < |SplitSegment(s)| ==> Inside(SplitSegment(s)[j], s)
    decreases s.length
  {
    if s.length > MaxChunk {
      SplitSegmentInside(Next(s));
      forall j | 0 < j < |SplitSegment(s)|
        ensures Inside(SplitSegment(s)[j], s)
      {
        assert SplitSegment(s)[j] == SplitSegment(Next(s))[j - 1];
      }
    }
  }

  /** The greedy split is the only way to cover a segment with contiguous
      chunks that are all full-size except a last one that is bounded and,
      unless the segment is empty, non-empty. */
  lemma {:induction false} SplitSegmentUnique(s: Segment, cs: seq<Chunk>)
    requires |cs| >= 1
    requires cs[0].offset == s.offset && cs[0].buffer == s.buffer
    requires Contiguous(cs)
    requires ChunkTotal(cs) == s.length
    requires forall j :: 0 <= j < |cs| - 1 ==> cs[j].length == MaxChunk
    requires cs[|cs| - 1].length <= MaxChunk
    requires cs[|cs| - 1].length == 0 ==> s.length == 0
    ensures cs == SplitSegment(s)
    decreases |cs|
  {
    if |cs| == 1 {
      assert cs == [Chunk(s.offset, s.buffer, s.length)];
    } else {
      var tail := cs[1..];
      ChunkTotalCoversLast(tail);
      assert s.length > MaxChunk;
      var next := Next(s);
      assert Contiguous(tail) by {
        forall j | 0 <= j < |tail| - 1
          ensures Follows(tail[j], tail[j + 1])
        {
          assert tail[j] == cs[j + 1] && tail[j + 1] == cs[j + 2];
        }
      }
      assert cs[1] == tail[0];
      SplitSegmentUnique(next, tail);
      assert cs == [cs[0]] + tail;
    }
  }

  lemma {:induction false} ChunkListAppend(a: seq<Segment>, b: seq<Segment>)
    ensures ChunkList(a + b) == ChunkList(a) + ChunkList(b)
    decreases |a|
  {
    if |a| == 0 {
      assert a + b == b;
    } else {
      assert (a + b)[0] == a[0];
      assert (a + b)[1..] == a[1..] + b;
      ChunkListAppend(a[1..], b);
    }
  }

  /** The chunk list is in segment order: the chunks of segment i come after
      those of every earlier segment and before those of every later one. */
  lemma ChunkListOrder(segs: seq<Segment>, i: nat)
    requires i < |segs|
    ensures ChunkList(segs) == ChunkList(segs[..i]) + SplitSegment(segs[i]) + ChunkList(segs[i + 1..])
  {
    assert segs == segs[..i] + segs[i..];
    ChunkListAppend(segs[..i], segs[i..]);
    assert segs[i..][0] == segs[i];
    assert segs[i..][1..] == segs[i + 1..];
  }

  /** Appending a segment appends its chunks. */
  lemma ChunkListSnoc(segs: seq<Segment>, s: Segment)
    ensures ChunkList(segs + [s]) == ChunkList(segs) + SplitSegment(s)
  {
    ChunkListAppend(segs, [s]);
    assert [s][1..] == [];
  }

  /** Every chunk sent comes from some requested segment and stays inside it. */
  lemma {:induction false} ChunkListInside(segs: seq<Segment>)
    ensures forall j :: 0 <= j < |ChunkList(segs)| ==>
      exists i :: 0 <= i < |segs| && Inside(ChunkList(segs)[j], segs[i])
    decreases |segs|
  {
    if |segs| > 0 {
      var first := SplitSegment(segs[0]);
      var rest := ChunkList(segs[1..]);
      ChunkListInside(segs[1..]);
      SplitSegmentInside(segs[0]);
      var cl := ChunkList(segs);
      assert cl == first + rest;
      forall j | 0 <= j < |cl|
        ensures exists i :: 0 <= i < |segs| && Inside(cl[j], segs[i])
      {
        if j < |first| {
          assert cl[j] == first[j];
          assert Inside(cl[j], segs[0]);
        } else {
          assert cl[j] == rest[j - |first|];
          var i :| 0 <= i < |segs[1..]| && Inside(rest[j - |first|], segs[1..][i]);
          assert segs[1..][i] == segs[i + 1];
        }
      }
      assert forall j :: 0 <= j < |ChunkList(segs)| ==>
        exists i :: 0 <= i < |segs| && Inside(ChunkList(segs)[j], segs[i]);
    } else {
      assert ChunkList(segs) == [];
    }
  }

  /** The chunk list built the way the vectored read builds it: for each
      segment, peel off full chunks while more than one remains, then append
      the remainder; meanwhile add up the requested size. */
  method BuildChunkList(segs: seq<Segment>) returns (cl: seq<Chunk>, size: nat)
    ensures cl == ChunkList(segs)
    ensures size == SegmentTotal(segs)
    ensures Bounded(cl) && ChunkTotal(cl) == size
  {
    ChunkListShape(segs);
    cl := [];
    size := 0;
    var i := 0;
    while i < |segs|
      invariant 0 <= i <= |segs|
      invariant cl == ChunkList(segs[..i])
      invariant size == SegmentTotal(segs[..i])
    {
      var offset := segs[i].offset;
      var length: nat := segs[i].length;
      size := size + length;
      var buffer := segs[i].buffer;
      while length > MaxChunk
        invariant cl + SplitSegment(Segment(offset, buffer, length)) ==
                  ChunkList(segs[..i]) + SplitSegment(segs[i])
      {
        cl := cl + [Chunk(offset, buffer, MaxChunk)];
        length := length - MaxChunk;
        offset := offset + MaxChunk;
        buffer := buffer + MaxChunk;
      }
      cl := cl + [Chunk(offset, buffer, length)];
      assert segs[..i + 1] == segs[..i] + [segs[i]];
      ChunkListSnoc(segs[..i], segs[i]);
      i := i + 1;
    }
    assert segs[..i] == segs;
  }
}
