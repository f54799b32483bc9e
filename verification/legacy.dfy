/** The legacy vectored read takes plain (buffer, size) pairs without file
    positions and lays them out back to back from the start of the file. */
module LegacyBuffers {
  import opened Chunking

  /** A caller buffer without a file position: `size` bytes at memory position `data`. */
  datatype IoBuffer = IoBuffer(data: int, size: nat)

  /** Sum of the buffer sizes. */
  function TotalSize(bufs: seq<IoBuffer>): nat
  {
    if |bufs| == 0 then 0 else TotalSize(bufs[..|bufs| - 1]) + bufs[|bufs| - 1].size
  }

  /** The buffers as positioned segments, the first at file position `start`
      and each following one where the previous ends. */
  function Contiguously(bufs: seq<IoBuffer>, start: int): (segs: seq<Segment>)
    ensures |segs| == |bufs|
    ensures forall i :: 0 <= i < |bufs| ==> segs[i].buffer == bufs[i].data && segs[i].length == bufs[i].size
  {
    if |bufs| == 0 then []
    else [Segment(start, bufs[0].data, bufs[0].size)] + Contiguously(bufs[1..], start + bufs[0].size)
  }

  lemma {:induction false} TotalSizeCons(bufs: seq<IoBuffer>)
    requires |bufs| > 0
    ensures TotalSize(bufs) == bufs[0].size + TotalSize(bufs[1..])
    decreases |bufs|
  {
    if |bufs| > 1 {
      var n := |bufs| - 1;
      TotalSizeCons(bufs[..n]);
      assert bufs[..n][1..] == bufs[1..][..n - 1];
    }
  }

  /** Segment i starts at `start` plus the sizes of all buffers before it. */
  lemma {:induction false} ContiguouslyOffsets(bufs: seq<IoBuffer>, start: int)
    ensures forall i :: 0 <= i < |bufs| ==> Contiguously(bufs, start)[i].offset == start + TotalSize(bufs[..i])
    decreases |bufs|
  {
    if |bufs| > 0 {
      var segs := Contiguously(bufs, start);
      var rest := Contiguously(bufs[1..], start + bufs[0].size);
      ContiguouslyOffsets(bufs[1..], start + bufs[0].size);
      forall i | 0 < i < |bufs|
        ensures segs[i].offset == start + TotalSize(bufs[..i])
      {
        assert segs[i] == rest[i - 1];
        assert bufs[1..][..i - 1] == bufs[..i][1..];
        TotalSizeCons(bufs[..i]);
      }
      assert bufs[..0] == [];
    }
  }

  /** Each segment starts in the file where the previous one ends. */
  lemma ContiguouslyTiles(bufs: seq<IoBuffer>, start: int, i: nat)
    requires 0 < i < |bufs|
    ensures Contiguously(bufs, start)[i].offset ==
            Contiguously(bufs, start)[i - 1].offset + Contiguously(bufs, start)[i - 1].length
  {
    ContiguouslyOffsets(bufs, start);
    assert bufs[..i][..i - 1] == bufs[..i - 1];
  }

  /** Together the segments request exactly the buffers' total size. */
  lemma {:induction false} ContiguouslyTotal(bufs: seq<IoBuffer>, start: int)
    ensures SegmentTotal(Contiguously(bufs, start)) == TotalSize(bufs)
    decreases |bufs|
  {
    if |bufs| > 0 {
      var segs := Contiguously(bufs, start);
      ContiguouslyTotal(bufs[1..], start + bufs[0].size);
      SegmentTotalCons(segs);
      TotalSizeCons(bufs);
      assert segs[1..] == Contiguously(bufs[1..], start + bufs[0].size);
    }
  }

  /** The first chunk sent for buffers laid out from position 0 starts at 0. */
  lemma ContiguouslyFirstChunk(bufs: seq<IoBuffer>)
    ensures |bufs| > 0 ==> ChunkList(Contiguously(bufs, 0))[0].offset == 0
  {
    if |bufs| > 0 {
      var segs := Contiguously(bufs, 0);
      ContiguouslyOffsets(bufs, 0);
      assert bufs[..0] == [];
      SplitSegmentShape(segs[0]);
      assert ChunkList(segs)[0] == SplitSegment(segs[0])[0];
    }
  }

  /** The legacy layout in closed form: buffer i at the sum of the sizes of
      the buffers before it. */
  function PrefixSumLayout(bufs: seq<IoBuffer>): seq<Segment>
  {
    seq(|bufs|, i requires 0 <= i < |bufs| => Segment(TotalSize(bufs[..i]), bufs[i].data, bufs[i].size))
  }

  /** Laying the buffers out one after another from position 0 gives the
      closed-form layout. */
  lemma ContiguouslyIsPrefixSums(bufs: seq<IoBuffer>)
    ensures Contiguously(bufs, 0) == PrefixSumLayout(bufs)
  {
    ContiguouslyOffsets(bufs, 0);
  }

  /** The offsets the legacy vectored read synthesises, computed the way it
      does: a running offset starting at 0, advanced by each buffer's size. */
  method SynthesizeOffsets(bufs: seq<IoBuffer>) returns (segs: seq<Segment>)
    ensures |segs| == |bufs|
    ensures |bufs| > 0 ==> segs[0].offset == 0
    ensures forall i :: 0 <= i < |bufs| ==>
      segs[i] == Segment(TotalSize(bufs[..i]), bufs[i].data, bufs[i].size)
    ensures segs == Contiguously(bufs, 0)
  {
    segs := [];
    var off := 0;
    var i := 0;
    while i < |bufs|
      invariant 0 <= i <= |bufs|
      invariant |segs| == i
      invariant off == TotalSize(bufs[..i])
      invariant forall k :: 0 <= k < i ==> segs[k] == Segment(TotalSize(bufs[..k]), bufs[k].data, bufs[k].size)
    {
      var size := bufs[i].size;
      segs := segs + [Segment(off, bufs[i].data, size)];
      off := off + size;
      assert bufs[..i + 1][..i] == bufs[..i];
      i := i + 1;
    }
    assert |bufs| > 0 ==> bufs[..0] == [];
    ContiguouslyOffsets(bufs, 0);
  }
}
