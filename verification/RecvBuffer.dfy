/**
 * The QUIC stream receive buffer (src/core/recv_buffer.c).
 *
 * Stream data arrives at arbitrary offsets, possibly out of order and
 * overlapping.  The buffer stores it in a list of chunks, records which
 * offsets have been written (WrittenRanges), hands the contiguous prefix to
 * the application as a list of buffers (Read) and releases it when the
 * application is done (Drain).  BaseOffset is the stream offset of the first
 * byte not yet drained.
 *
 * St() is the header as a RecvState.State; every method is proved to move it
 * as the matching RecvState function says.  The ghost map Data records, for
 * every stream offset ever accepted, the byte accepted there; Valid() says
 * that every written offset from BaseOffset on still holds that byte, and
 * Read proves that the buffers it hands out carry the bytes written at the
 * stream offsets they stand for.
 */
module QuicRecvBuffer {
  import opened Ranges
  import opened RecvState
  import opened RecvChunks
  import Geometry

  datatype QuicStatus = Success | BufferTooSmall | OutOfMemory | InvalidParameter

  /** A QUIC_BUFFER handed to the application: the Length bytes it points at. */
  datatype QuicBuffer = QuicBuffer(Length: nat, Buffer: seq<byte>)

  /** The bytes the buffers hold, one after the other. */
  function Bytes(bufs: seq<QuicBuffer>): seq<byte> {
    if bufs == [] then [] else bufs[0].Buffer + Bytes(bufs[1..])
  }

  /** The length a growable buffer's last chunk is resized to: its length
      doubled, and doubled again while the write's end lies beyond it. */
  function Doubled(allocLength: nat, needed: nat): nat
    requires allocLength > 0
    decreases needed - allocLength
  {
    if needed > 2 * allocLength then Doubled(2 * allocLength, needed) else 2 * allocLength
  }

  /** The resize target is the least doubling that holds `needed` bytes, and
      it stays a power of two within the growable limit. */
  lemma {:induction false} DoubledBounds(allocLength: nat, needed: nat)
    requires Geometry.IsPowerOfTwo(allocLength) && allocLength < needed <= MAX_GROWABLE_LENGTH
    ensures Geometry.IsPowerOfTwo(Doubled(allocLength, needed))
    ensures allocLength < Doubled(allocLength, needed) && needed <= Doubled(allocLength, needed) <= MAX_GROWABLE_LENGTH
    ensures Doubled(allocLength, needed) == 2 * allocLength || Doubled(allocLength, needed) / 2 < needed
    decreases needed - allocLength
  {
    PowerOfTwoMax();
    Geometry.PowerOfTwoGap(allocLength, MAX_GROWABLE_LENGTH);
    Geometry.PowerOfTwoDouble(allocLength);
    if needed > 2 * allocLength {
      DoubledBounds(2 * allocLength, needed);
    }
  }

  /** `NewBufferLength <<= 1` as the source writes it, on a uint32: the top
      bit is dropped, so 2^31 doubles to 0. */
  function ShiftLeftU32(x: nat): (r: nat)
    ensures r < 0x1_0000_0000
    ensures x < 0x8000_0000 ==> r == 2 * x
  {
    (x * 2) % 0x1_0000_0000
  }

  /** The uint32 length after k more iterations of the doubling loop. */
  function ShiftedU32(x: nat, k: nat): nat
    decreases k
  {
    if k == 0 then x else ShiftedU32(ShiftLeftU32(x), k - 1)
  }

  /** Once the uint32 length has wrapped to 0 it stays 0. */
  lemma {:induction false} ShiftedZero(k: nat)
    ensures ShiftedU32(0, k) == 0
  {
    if k > 0 {
      ShiftedZero(k - 1);
    }
  }

  /**
   * The doubling loop as written does not terminate when the write needs more
   * than 2^31 bytes: starting from a last chunk of 2^30 bytes, every length it
   * tries is at most 2^31, so `AbsoluteLength > BaseOffset + NewBufferLength`
   * stays true for a write ending 2^31 + 1 bytes past BaseOffset, which a
   * virtual length of UINT32_MAX admits.  Doubled, which the model uses,
   * stays below 2^32 because the virtual length is kept at most 2^31.
   */
  lemma DoublingU32NeverReaches(k: nat)
    ensures ShiftedU32(ShiftLeftU32(0x4000_0000), k) < 0x8000_0001
  {
    assert ShiftLeftU32(0x4000_0000) == 0x8000_0000;
    if k > 0 {
      assert ShiftLeftU32(0x8000_0000) == 0;
      ShiftedZero(k - 1);
    }
  }

  /** The doubling loop of QuicRecvBufferWrite. */
  method DoubledLength(allocLength: nat, needed: nat) returns (newLength: nat)
    requires allocLength > 0
    ensures newLength == Doubled(allocLength, needed)
  {
    newLength := allocLength * 2;
    ghost var half := allocLength;
    while needed > newLength
      invariant newLength == 2 * half && half > 0
      invariant Doubled(allocLength, needed) == Doubled(half, needed)
      decreases needed - newLength
    {
      half := newLength;
      newLength := newLength * 2;
    }
  }

  lemma PowerOfTwoMax()
    ensures Geometry.IsPowerOfTwo(MAX_GROWABLE_LENGTH)
  {
    Geometry.Pow2Of31();
    Geometry.Pow2IsPowerOfTwo(31);
  }

  /** CxPlatCopyMemory: len bytes of src from srcOffset copied over dst at dstOffset. */
  function CopyMemory(dst: seq<byte>, dstOffset: nat, src: seq<byte>, srcOffset: nat, len: nat): (r: seq<byte>)
    requires dstOffset + len <= |dst| && srcOffset + len <= |src|
    ensures |r| == |dst|
    ensures forall k :: 0 <= k < |r| ==>
      r[k] == if dstOffset <= k < dstOffset + len then src[srcOffset + k - dstOffset] else dst[k]
  {
    seq(|dst|, k requires 0 <= k < |dst| =>
      if dstOffset <= k < dstOffset + len then src[srcOffset + k - dstOffset] else dst[k])
  }

  /**
   * The wrap-around copy into a ring buffer: len bytes of src from srcOffset
   * go to dst from dstOffset to its end and, for what does not fit, on from
   * its start.
   */
  function CopyWrapped(dst: seq<byte>, dstOffset: nat, src: seq<byte>, srcOffset: nat, len: nat): (r: seq<byte>)
    requires dstOffset < |dst| && len <= |dst| && srcOffset + len <= |src|
    ensures |r| == |dst|
    ensures forall p :: 0 <= p < |r| ==>
      r[p] == if dstOffset <= p < dstOffset + len then src[srcOffset + p - dstOffset]
              else if p + |dst| < dstOffset + len then src[srcOffset + p + |dst| - dstOffset]
              else dst[p]
  {
    if |dst| < dstOffset + len then
      var Part1Len := |dst| - dstOffset;
      CopyMemory(CopyMemory(dst, dstOffset, src, srcOffset, Part1Len), 0, src, srcOffset + Part1Len, len - Part1Len)
    else
      CopyMemory(dst, dstOffset, src, srcOffset, len)
  }

  /** The copy Resize makes of the first chunk: span bytes from readStart on,
      wrapping to the chunk's beginning, over the front of dst. */
  function CopyFromReadStart(dst: seq<byte>, src: seq<byte>, readStart: nat, span: nat): (r: seq<byte>)
    requires readStart < |src| && span <= |src| <= |dst|
    ensures |r| == |dst|
    ensures forall k :: 0 <= k < |r| ==>
      r[k] == if k < span then src[Geometry.Wrap(readStart + k, |src|)] else dst[k]
  {
    var LengthTillWrap := |src| - readStart;
    if span <= LengthTillWrap then
      CopyMemory(dst, 0, src, readStart, span)
    else
      CopyMemory(CopyMemory(dst, 0, src, readStart, LengthTillWrap), LengthTillWrap, src, 0, span - LengthTillWrap)
  }

  /** Freshly allocated chunk memory; its content is never read before it is written. */
  function Allocated(n: nat): (r: seq<byte>)
    ensures |r| == n
  {
    seq(n, _ => 0)
  }

  /**
   * The receive buffer's invariant: the header s is consistent and describes
   * the chunks cs, and every written offset from BaseOffset on holds the byte
   * accepted there (data).
   */
  ghost predicate Invariant(s: State, cs: seq<RecvChunk>, data: map<nat, byte>) {
    s.Lens == LensOf(cs) && s.Refs == RefsOf(cs) && WellFormed(cs) && Consistent(s) &&
    Fits(Contents(cs), s.Lens) &&
    StoredIn(Contents(cs), s.ReadStart, s.Capacity, s.Lens, s.BaseOffset, s.WrittenRanges, data)
  }

  /** How far past BaseOffset the written data reaches, gaps included. */
  ghost function SpanOf(s: State): nat {
    if MaxEnd(s.WrittenRanges) >= s.BaseOffset then MaxEnd(s.WrittenRanges) - s.BaseOffset else 0
  }

  /** The chunk list QuicRecvBufferResize leaves when a chunk of target bytes is added. */
  ghost function ResizedChunks(s: State, cs: seq<RecvChunk>, target: nat): seq<RecvChunk>
    requires Consistent(s) && s.Lens == LensOf(cs) && s.Refs == RefsOf(cs) && WellFormed(cs)
    requires s.RecvMode != AppOwned && s.Lens[|s.Lens| - 1] < target
  {
    var last := |cs| - 1;
    var c := ChunkInitialize(Allocated(target), false);
    if !cs[last].ExternalReference then
      if last == 0 then
        [c.(Buffer := CopyFromReadStart(c.Buffer, cs[0].Buffer, s.ReadStart, Max(SpanOf(s), cs[0].AllocLength)))]
      else
        cs[..last] + [c.(Buffer := CopyMemory(c.Buffer, 0, cs[last].Buffer, 0, cs[last].AllocLength))]
    else if s.RecvMode == Multiple then
      cs + [c]
    else
      [c.(Buffer := CopyFromReadStart(c.Buffer, cs[0].Buffer, s.ReadStart, SpanOf(s)))]
  }

  /**
   * Resize with a single chunk that is not kept: its bytes are copied, from
   * the read start, to the start of the new chunk, which replaces it (the old
   * one is retired when the application still references it).
   */
  lemma ResizedOnlyKeeps(s: State, cs: seq<RecvChunk>, data: map<nat, byte>, target: nat, n: nat)
    requires Invariant(s, cs, data) && s.RecvMode != AppOwned
    requires Geometry.IsPowerOfTwo(target) && s.Lens[|s.Lens| - 1] < target
    requires cs[|cs| - 1].ExternalReference ==> s.RecvMode != Multiple
    requires !cs[|cs| - 1].ExternalReference ==> |cs| == 1
    requires n == if cs[0].ExternalReference then SpanOf(s) else Max(SpanOf(s), cs[0].AllocLength)
    ensures |cs| == 1
    ensures var c := ChunkInitialize(Allocated(target), false);
      var t := s.(Lens := [target], Refs := [false], ReadStart := 0, Capacity := target,
                  Retired := s.Retired || cs[0].ExternalReference);
      var cs2 := [c.(Buffer := CopyFromReadStart(c.Buffer, cs[0].Buffer, s.ReadStart, n))];
      Resized(s, target) == t && ResizedChunks(s, cs, target) == cs2 && Invariant(t, cs2, data)
  {
    ResizedConsistent(s, target);
    MaxEndBounds(s.WrittenRanges);
    PrefixEndBelowMaxEnd(s.WrittenRanges);
    assert |cs| == 1;
    var t := Resized(s, target);
    assert t == s.(Lens := [target], Refs := [false], ReadStart := 0, Capacity := target, Retired := t.Retired);
    CopiedOnlyKeeps(s, cs, data, target, n, t);
  }

  /** Copying the only chunk from its read start keeps every accepted byte. */
  lemma CopiedOnlyKeeps(s: State, cs: seq<RecvChunk>, data: map<nat, byte>, target: nat, n: nat, t: State)
    requires Invariant(s, cs, data) && |cs| == 1 && cs[0].AllocLength < target
    requires t == s.(Lens := [target], Refs := [false], ReadStart := 0, Capacity := target, Retired := t.Retired)
    requires Consistent(t)
    requires MaxEnd(s.WrittenRanges) <= s.BaseOffset + n <= s.BaseOffset + cs[0].AllocLength
    ensures var c := ChunkInitialize(Allocated(target), false);
      Invariant(t, [c.(Buffer := CopyFromReadStart(c.Buffer, cs[0].Buffer, s.ReadStart, n))], data)
  {
    var b0 := cs[0].Buffer;
    var b := CopyFromReadStart(Allocated(target), b0, s.ReadStart, n);
    assert Contents(cs) == [b0] && s.Lens == [|b0|];
    RotatedStored(b0, b, s.ReadStart, n, s.BaseOffset, s.WrittenRanges, data);
    assert Contents([ChunkInitialize(b, false)]) == [b];
  }

  /** Resize with an unreferenced last chunk that is not the first: the new chunk takes its place and bytes. */
  lemma ResizedReplaceLastKeeps(s: State, cs: seq<RecvChunk>, data: map<nat, byte>, target: nat)
    requires Invariant(s, cs, data) && s.RecvMode != AppOwned
    requires Geometry.IsPowerOfTwo(target) && s.Lens[|s.Lens| - 1] < target
    requires |cs| >= 2 && !cs[|cs| - 1].ExternalReference
    ensures var last := |cs| - 1;
      var c := ChunkInitialize(Allocated(target), false);
      var t := s.(Lens := s.Lens[..last] + [target], Refs := s.Refs[..last] + [false]);
      var cs2 := cs[..last] + [c.(Buffer := CopyMemory(c.Buffer, 0, cs[last].Buffer, 0, cs[last].AllocLength))];
      Resized(s, target) == t && ResizedChunks(s, cs, target) == cs2 && Invariant(t, cs2, data)
  {
    ResizedConsistent(s, target);
    var last := |cs| - 1;
    var b := CopyMemory(Allocated(target), 0, cs[last].Buffer, 0, cs[last].AllocLength);
    assert b[..|cs[last].Buffer|] == cs[last].Buffer;
    ReplacedLastKeeps(s, cs, data, b, Resized(s, target));
  }

  /** Replacing the last chunk by a larger one that starts with its bytes keeps every accepted byte. */
  lemma ReplacedLastKeeps(s: State, cs: seq<RecvChunk>, data: map<nat, byte>, b: seq<byte>, t: State)
    requires Invariant(s, cs, data) && |cs| >= 2 && Consistent(t)
    requires |b| > cs[|cs| - 1].AllocLength && b[..cs[|cs| - 1].AllocLength] == cs[|cs| - 1].Buffer
    requires t == s.(Lens := s.Lens[..|cs| - 1] + [|b|], Refs := s.Refs[..|cs| - 1] + [false])
    ensures Invariant(t, cs[..|cs| - 1] + [ChunkInitialize(b, false)], data)
  {
    var last := |cs| - 1;
    var cs2 := cs[..last] + [ChunkInitialize(b, false)];
    assert Contents(cs2) == Contents(cs)[..last] + [b];
    assert LensOf(cs2) == t.Lens && RefsOf(cs2) == t.Refs;
    ReplacedLastStored(Contents(cs), b, s.ReadStart, s.Capacity, s.Lens,
                       Contents(cs2), LensOf(cs2), s.BaseOffset, s.WrittenRanges, data);
  }

  /** Resize in multiple mode with a referenced last chunk: the new chunk follows it. */
  lemma ResizedAppendKeeps(s: State, cs: seq<RecvChunk>, data: map<nat, byte>, target: nat)
    requires Invariant(s, cs, data) && s.RecvMode == Multiple
    requires Geometry.IsPowerOfTwo(target) && s.Lens[|s.Lens| - 1] < target
    requires cs[|cs| - 1].ExternalReference
    ensures var c := ChunkInitialize(Allocated(target), false);
      var t := s.(Lens := s.Lens + [target], Refs := s.Refs + [false]);
      Resized(s, target) == t && ResizedChunks(s, cs, target) == cs + [c] && Invariant(t, cs + [c], data)
  {
    var c := ChunkInitialize(Allocated(target), false);
    var t := s.(Lens := s.Lens + [target], Refs := s.Refs + [false]);
    assert s.Refs[|s.Lens| - 1];
    assert Resized(s, target) == t;
    ResizedConsistent(s, target);
    ChunksAppend(cs, [c]);
    var bufs, bufs2 := Contents(cs), Contents(cs + [c]);
    assert Fits(bufs, s.Lens) && Fits([c.Buffer], [target]);
    AppendedStored(bufs, [c.Buffer], s.ReadStart, s.Capacity, s.Lens, [target],
                   bufs2, t.Lens, s.BaseOffset, s.WrittenRanges, data);
  }

  /** Whichever way QuicRecvBufferResize goes, the accepted bytes survive and the new chunks hold target bytes. */
  lemma ResizedKeeps(s: State, cs: seq<RecvChunk>, data: map<nat, byte>, target: nat)
    requires Invariant(s, cs, data) && s.RecvMode != AppOwned
    requires Geometry.IsPowerOfTwo(target) && s.Lens[|s.Lens| - 1] < target
    ensures Invariant(Resized(s, target), ResizedChunks(s, cs, target), data)
    ensures Resized(s, target).Total() >= target
  {
    var last := |cs| - 1;
    ResizedConsistent(s, target);
    if !cs[last].ExternalReference {
      if last == 0 {
        ResizedOnlyKeeps(s, cs, data, target, Max(SpanOf(s), cs[0].AllocLength));
      } else {
        ResizedReplaceLastKeeps(s, cs, data, target);
      }
    } else if s.RecvMode == Multiple {
      ResizedAppendKeeps(s, cs, data, target);
    } else {
      ResizedOnlyKeeps(s, cs, data, target, SpanOf(s));
    }
  }

  /** A growable buffer's last chunk is no longer than what the chunks hold. */
  lemma LastWithinTotal(s: State)
    requires Layout(s) && s.RecvMode != AppOwned
    ensures s.Lens[|s.Lens| - 1] <= s.Total()
  {
    var last := |s.Lens| - 1;
    if last == 0 {
      assert s.Lens[1..] == [];
    } else {
      Geometry.ChunkStartStep(s.Capacity, s.Lens, last);
    }
  }

  /** The application's chunks, appended, keep every accepted byte. */
  lemma ProvidedKeeps(s: State, cs: seq<RecvChunk>, data: map<nat, byte>, more: seq<RecvChunk>)
    requires Invariant(s, cs, data) && s.RecvMode == AppOwned && more != [] && WellFormed(more)
    requires forall i :: 0 <= i < |more| ==> more[i].AllocLength > 0
    requires s.VirtualBufferLength + Geometry.Sum(LensOf(more)) <= UINT32_MAX
    ensures Invariant(Provided(s, LensOf(more), RefsOf(more)), cs + more, data)
    ensures Provided(s, LensOf(more), RefsOf(more)).Total() == s.Total() + Geometry.Sum(LensOf(more))
  {
    var t := Provided(s, LensOf(more), RefsOf(more));
    ProvidedConsistent(s, LensOf(more), RefsOf(more));
    ContentsFit(more);
    ProvidedStored(cs, more, s.ReadStart, s.Capacity, t.Capacity, s.BaseOffset, s.WrittenRanges, data);
  }

  /** Where the part of a write at offset from base on lands, counted from base. */
  function ClippedFrom(base: nat, offset: nat): nat {
    if offset < base then 0 else offset - base
  }

  /** The bytes of a write at offset that fall at base or later. */
  function Clipped(base: nat, offset: nat, w: seq<byte>): (r: seq<byte>)
    requires 0 < |w| && base < offset + |w|
    ensures |r| > 0 && base + ClippedFrom(base, offset) + |r| == offset + |w|
    ensures forall i :: 0 <= i < |r| ==> r[i] == w[base + ClippedFrom(base, offset) + i - offset]
  {
    if offset < base then w[base - offset..] else w
  }

  /** Forgetting the outstanding read of the single chunk keeps every accepted byte. */
  lemma ResetReadKeeps(s: State, cs: seq<RecvChunk>, data: map<nat, byte>)
    requires Invariant(s, cs, data) && s.RecvMode == Single
    ensures Invariant(ResetReadState(s), cs[0 := cs[0].(ExternalReference := false)], data)
  {
    var cs2 := cs[0 := cs[0].(ExternalReference := false)];
    assert RefsOf(cs2) == s.Refs[0 := false];
    assert LensOf(cs2) == s.Lens;
    assert Contents(cs2) == Contents(cs);
    ResetReadConsistent(s);
  }

  /** The first chunk after the wrap-around copy of its part of a write is the overwritten first chunk. */
  lemma FirstChunkWrapped(bufs: seq<seq<byte>>, rs: nat, cap: nat, lens: seq<nat>, from: nat, w: seq<byte>)
    requires Fits(bufs, lens) && Geometry.Shape(rs, cap, lens) && lens != [] && from < cap
    ensures Geometry.Wrap(rs + from, lens[0]) == (rs + from) % lens[0]
    ensures Min(|w|, cap - from) <= lens[0]
    ensures CopyWrapped(bufs[0], Geometry.Wrap(rs + from, lens[0]), w, 0, Min(|w|, cap - from)) ==
            OverwrittenChunk(bufs, rs, cap, lens, from, w, 0)
  {
    Geometry.ModIsWrap(rs + from, lens[0]);
    var b := CopyWrapped(bufs[0], Geometry.Wrap(rs + from, lens[0]), w, 0, Min(|w|, cap - from));
    FirstChunkCopied(bufs, rs, cap, lens, from, w, b);
  }

  /** Single and circular mode: the one chunk takes the whole write, wrapping at its end. */
  lemma OnlyChunkCopied(cs: seq<RecvChunk>, rs: nat, cap: nat, from: nat, w: seq<byte>)
    requires WellFormed(cs) && |cs| == 1 && Geometry.Shape(rs, cap, LensOf(cs))
    requires from + |w| <= Geometry.Total(cap, LensOf(cs))
    ensures Fits(Contents(cs), LensOf(cs)) && |w| <= cs[0].AllocLength
    ensures [cs[0].(Buffer := CopyWrapped(cs[0].Buffer, (rs + from) % cs[0].AllocLength, w, 0, |w|))] ==
            CopiedChunks(cs, rs, cap, from, w)
  {
    ContentsFit(cs);
    var lens := LensOf(cs);
    assert lens[1..] == [];
    if from < cap {
      FirstChunkWrapped(Contents(cs), rs, cap, lens, from, w);
    } else {
      assert w == [];
      assert CopyWrapped(cs[0].Buffer, (rs + from) % cs[0].AllocLength, w, 0, 0) == cs[0].Buffer;
      assert OverwrittenChunk(Contents(cs), rs, cap, lens, from, w, 0) == cs[0].Buffer;
    }
  }

  /**
   * One pass of the copy loop of QuicRecvBufferCopyIntoChunks: chunk j takes
   * the part of what is left of the write (Consumed bytes are already copied)
   * that falls in it.  The first chunk's part is capped at Capacity and wraps
   * at the end of its memory; a later chunk's part is capped at its end.
   */
  method CopyIntoChunk(Chunk: RecvChunk, IsFirstChunk: bool, ReadStart: nat, Capacity: nat, ChunkLength: nat,
                       RelativeOffset: nat, Consumed: nat, WriteLength: nat, Buffer: seq<byte>,
                       ghost B0: seq<seq<byte>>, ghost lens: seq<nat>, ghost RelativeOffset0: nat, ghost j: nat)
    returns (b: seq<byte>, ChunkWriteLength: nat)
    requires Fits(B0, lens) && Geometry.Shape(ReadStart, Capacity, lens) && j < |lens|
    requires Chunk.Buffer == B0[j] && Chunk.AllocLength == lens[j]
    requires Consumed + WriteLength == |Buffer| && WriteLength > 0
    requires RelativeOffset0 + |Buffer| <= Geometry.Total(Capacity, lens)
    requires IsFirstChunk == (j == 0)
    requires j == 0 ==> RelativeOffset == RelativeOffset0 < Capacity && Consumed == 0
    requires j > 0 ==>
      ChunkLength == lens[j] &&
      if Consumed == 0 then Geometry.ChunkStart(Capacity, lens, j) + RelativeOffset == RelativeOffset0 && RelativeOffset < lens[j]
      else Geometry.ChunkStart(Capacity, lens, j) == RelativeOffset0 + Consumed
    ensures b == OverwrittenChunk(B0, ReadStart, Capacity, lens, RelativeOffset0, Buffer, j)
    ensures 0 < ChunkWriteLength <= WriteLength
    ensures var chunkEnd := if j == 0 then Capacity else Geometry.ChunkStart(Capacity, lens, j) + lens[j];
      RelativeOffset0 + Consumed + ChunkWriteLength <= chunkEnd &&
      (ChunkWriteLength < WriteLength ==> RelativeOffset0 + Consumed + ChunkWriteLength == chunkEnd)
  {
    ChunkWriteLength := WriteLength;
    if IsFirstChunk {
      var ChunkWriteOffset: nat := (ReadStart + RelativeOffset) % Chunk.AllocLength;
      if Capacity < RelativeOffset + ChunkWriteLength {
        ChunkWriteLength := Capacity - RelativeOffset;
      }
      FirstChunkWrapped(B0, ReadStart, Capacity, lens, RelativeOffset0, Buffer);
      b := CopyWrapped(Chunk.Buffer, ChunkWriteOffset, Buffer, 0, ChunkWriteLength);
    } else {
      var ChunkWriteOffset: nat := if Consumed == 0 then RelativeOffset else 0;
      if ChunkWriteOffset + ChunkWriteLength >= ChunkLength {
        ChunkWriteLength := ChunkLength - ChunkWriteOffset;
      }
      b := CopyMemory(Chunk.Buffer, ChunkWriteOffset, Buffer, Consumed, ChunkWriteLength);
      LaterChunkCopied(B0, ReadStart, Capacity, lens, RelativeOffset0, Buffer, j,
                       ChunkWriteOffset, Consumed, ChunkWriteLength, b);
    }
  }

  /**
   * The search of QuicRecvBufferCopyIntoChunks for the chunk a write starts
   * in: chunk j, RelativeOffset bytes from its start (from ReadStart in the
   * first chunk), with ChunkLength usable bytes.  The chunks passed over keep
   * their bytes.
   */
  method FindWriteChunk(cs: seq<RecvChunk>, ghost ReadStart: nat, Capacity: nat, RelativeOffset0: nat, ghost Buffer: seq<byte>)
    returns (j: nat, RelativeOffset: nat, ChunkLength: nat)
    requires WellFormed(cs) && Fits(Contents(cs), LensOf(cs)) && Geometry.Shape(ReadStart, Capacity, LensOf(cs))
    requires 0 < |Buffer| && RelativeOffset0 + |Buffer| <= Geometry.Total(Capacity, LensOf(cs))
    ensures j < |cs| && RelativeOffset < ChunkLength
    ensures j == 0 ==> ChunkLength == Capacity && RelativeOffset == RelativeOffset0
    ensures j > 0 ==> ChunkLength == cs[j].AllocLength &&
                      Geometry.ChunkStart(Capacity, LensOf(cs), j) + RelativeOffset == RelativeOffset0
    ensures forall i :: 0 <= i < j ==> CopiedChunks(cs, ReadStart, Capacity, RelativeOffset0, Buffer)[i] == cs[i]
  {
    ghost var lens := LensOf(cs);
    ghost var B0 := Contents(cs);
    RelativeOffset := RelativeOffset0;
    j := 0;
    ChunkLength := Capacity;
    while ChunkLength <= RelativeOffset
      invariant j < |cs| && (j == 0 ==> ChunkLength == Capacity && RelativeOffset == RelativeOffset0)
      invariant j > 0 ==> ChunkLength == lens[j] && Geometry.ChunkStart(Capacity, lens, j) + RelativeOffset == RelativeOffset0
      invariant forall i :: 0 <= i < j ==> OverwrittenChunk(B0, ReadStart, Capacity, lens, RelativeOffset0, Buffer, i) == B0[i]
    {
      SkippedChunk(B0, ReadStart, Capacity, lens, RelativeOffset0, Buffer, j, RelativeOffset);
      RelativeOffset := RelativeOffset - ChunkLength;
      j := j + 1;
      ChunkLength := cs[j].AllocLength;
    }
  }

  /**
   * The multiple and app-owned part of QuicRecvBufferCopyIntoChunks: the
   * chunks the write starts after are skipped, then each chunk takes the
   * part of the write that falls in it (the first chunk up to Capacity,
   * wrapping at its end), until the write is used up.
   */
  method CopyIntoChunkList(cs: seq<RecvChunk>, ReadStart: nat, Capacity: nat, RelativeOffset0: nat, Buffer: seq<byte>)
    returns (cs2: seq<RecvChunk>)
    requires WellFormed(cs) && Fits(Contents(cs), LensOf(cs)) && Geometry.Shape(ReadStart, Capacity, LensOf(cs))
    requires 0 < |Buffer| && RelativeOffset0 + |Buffer| <= Geometry.Total(Capacity, LensOf(cs))
    ensures cs2 == CopiedChunks(cs, ReadStart, Capacity, RelativeOffset0, Buffer)
  {
    ghost var lens := LensOf(cs);
    ghost var B0 := Contents(cs);
    ghost var Copied := CopiedChunks(cs, ReadStart, Capacity, RelativeOffset0, Buffer);
    var j, RelativeOffset, ChunkLength := FindWriteChunk(cs, ReadStart, Capacity, RelativeOffset0, Buffer);
    ghost var jStart := j;
    var IsFirstChunk := j == 0;
    var Consumed: nat := 0;
    var WriteLength: nat := |Buffer|;
    cs2 := cs;
    while true
      invariant j < |cs| && jStart <= j && Consumed + WriteLength == |Buffer| && WriteLength > 0
      invariant IsFirstChunk == (j == 0) && (Consumed == 0 ==> j == jStart)
      invariant j == 0 ==> RelativeOffset == RelativeOffset0 < Capacity && Consumed == 0
      invariant j > 0 ==>
        ChunkLength == lens[j] &&
        if Consumed == 0 then Geometry.ChunkStart(Capacity, lens, j) + RelativeOffset == RelativeOffset0 && RelativeOffset < lens[j]
        else Geometry.ChunkStart(Capacity, lens, j) == RelativeOffset0 + Consumed
      invariant |cs2| == |cs| && forall i :: 0 <= i < |cs| ==> cs2[i] == if jStart <= i < j then Copied[i] else cs[i]
      invariant forall i :: 0 <= i < jStart ==> Copied[i] == cs[i]
      decreases WriteLength
    {
      var b, ChunkWriteLength := CopyIntoChunk(cs2[j], IsFirstChunk, ReadStart, Capacity, ChunkLength, RelativeOffset,
                                               Consumed, WriteLength, Buffer, B0, lens, RelativeOffset0, j);
      cs2 := cs2[j := cs2[j].(Buffer := b)];
      if WriteLength == ChunkWriteLength {
        break;
      }
      Geometry.NextChunkExists(Capacity, lens, j, RelativeOffset0 + Consumed + ChunkWriteLength, RelativeOffset0 + |Buffer|);
      WriteLength := WriteLength - ChunkWriteLength;
      Consumed := Consumed + ChunkWriteLength;
      j := j + 1;
      ChunkLength := cs2[j].AllocLength;
      IsFirstChunk := false;
    }
    forall i | j < i < |cs|
      ensures Copied[i] == cs[i]
    {
      LaterUntouched(B0, ReadStart, Capacity, lens, RelativeOffset0, Buffer, j, i);
    }
  }

  // ---------------------------------------------------------------------
  // Write

  /** Everything QuicRecvBufferWrite reports and leaves behind. */
  datatype WriteOutcome = WriteOutcome(Status: QuicStatus, WriteLimit: nat, ReadyToRead: bool,
                                       State: State, Chunks: seq<RecvChunk>, Data: map<nat, byte>)

  /** A write that lies within the chunks: the bytes from BaseOffset on are
      recorded as written and copied in, and the ones below it are dropped. */
  lemma WrittenKeeps(s: State, cs: seq<RecvChunk>, data: map<nat, byte>, low: nat, w: seq<byte>,
                     from: nat, c: seq<byte>, t: State, cs2: seq<RecvChunk>, data2: map<nat, byte>)
    requires Invariant(s, cs, data) && 0 < |w| && s.BaseOffset < low + |w| <= s.BaseOffset + s.Total()
    requires from == ClippedFrom(s.BaseOffset, low) && c == Clipped(s.BaseOffset, low, w)
    requires t == Written(s, low, |w|)
    requires cs2 == CopiedChunks(cs, s.ReadStart, s.Capacity, from, c)
    requires data2 == WrittenData(data, s.BaseOffset, low, w)
    ensures t.WrittenRanges != [] && t.BaseOffset <= t.WrittenRanges[0].Count
    ensures Invariant(t, cs2, data2)
  {
    WrittenConsistent(s, low, |w|);
    CopiedChunksKeep(cs, s.ReadStart, s.Capacity, from, c);
    PrefixEndCovered(t.WrittenRanges);
    assert t == s.(WrittenRanges := t.WrittenRanges, ReadLength := t.ReadLength);
    WrittenStored(Contents(cs), s.ReadStart, s.Capacity, s.Lens, s.BaseOffset, s.WrittenRanges, t.WrittenRanges,
                  data, low, w, from, c, Contents(cs2), data2);
  }

  /** The storage half of WrittenKeeps: the copied bytes are the ones recorded for the new offsets. */
  lemma WrittenStored(bufs: seq<seq<byte>>, rs: nat, cap: nat, lens: seq<nat>, base: nat,
                      written: seq<Subrange>, written2: seq<Subrange>, data: map<nat, byte>, low: nat, w: seq<byte>,
                      from: nat, c: seq<byte>, bufs2: seq<seq<byte>>, data2: map<nat, byte>)
    requires Fits(bufs, lens) && Geometry.Shape(rs, cap, lens) && StoredIn(bufs, rs, cap, lens, base, written, data)
    requires Normalized(written) && 0 < |w| && base < low + |w| <= base + Geometry.Total(cap, lens)
    requires from == ClippedFrom(base, low) && c == Clipped(base, low, w)
    requires written2 == AddRange(written, low, |w|).Ranges
    requires bufs2 == Overwritten(bufs, rs, cap, lens, from, c) && data2 == WrittenData(data, base, low, w)
    ensures StoredIn(bufs2, rs, cap, lens, base, written2, data2)
  {
    StoredWritten(bufs, rs, cap, lens, base, written, written2, data, from, c, data2);
  }

  /** The accepted bytes once the part of w (written at low) that falls at base or later is recorded. */
  ghost function WrittenData(data: map<nat, byte>, base: nat, low: nat, w: seq<byte>): (r: map<nat, byte>)
    requires 0 < |w| && base < low + |w|
    ensures forall o :: o in r <==> o in data || (base <= o && low <= o < low + |w|)
    ensures forall o :: o in r ==> r[o] == if base <= o && low <= o < low + |w| then w[o - low] else data[o]
  {
    UpdatedData(data, base + ClippedFrom(base, low), Clipped(base, low, w))
  }

  /**
   * The end of QuicRecvBufferWrite, once the write fits in the chunks: the
   * range is added to WrittenRanges (its allocation may fail) and, when it
   * brought new offsets, the bytes are copied in.
   */
  ghost function Recorded(s: State, cs: seq<RecvChunk>, data: map<nat, byte>, low: nat, w: seq<byte>,
                          limit: nat, rangeAllocSucceeds: bool): WriteOutcome
    requires Normalized(s.WrittenRanges) && s.BaseOffset <= PrefixEnd(s.WrittenRanges)
    requires Fits(Contents(cs), LensOf(cs)) && Geometry.Shape(s.ReadStart, s.Capacity, LensOf(cs))
    requires 0 < |w| && s.BaseOffset < low + |w|
  {
    if !rangeAllocSucceeds then WriteOutcome(OutOfMemory, limit, false, s, cs, data)
    else
      var added := AddRange(s.WrittenRanges, low, |w|);
      if !added.Updated then WriteOutcome(Success, limit, false, s, cs, data)
      else
        var from := ClippedFrom(s.BaseOffset, low);
        var c := Clipped(s.BaseOffset, low, w);
        WriteOutcome(Success, limit, added.UpdatedRange.Low == 0, Written(s, low, |w|),
                     CopiedChunks(cs, s.ReadStart, s.Capacity, from, c), WrittenData(data, s.BaseOffset, low, w))
  }

  /** A range that brings new offsets is recorded and copied in. */
  lemma RecordedUpdated(s: State, cs: seq<RecvChunk>, data: map<nat, byte>, low: nat, w: seq<byte>, limit: nat,
                        from: nat, c: seq<byte>, t: State, cs2: seq<RecvChunk>, data2: map<nat, byte>)
    requires Normalized(s.WrittenRanges) && s.BaseOffset <= PrefixEnd(s.WrittenRanges)
    requires Fits(Contents(cs), LensOf(cs)) && Geometry.Shape(s.ReadStart, s.Capacity, LensOf(cs))
    requires 0 < |w| && s.BaseOffset < low + |w|
    requires AddRange(s.WrittenRanges, low, |w|).Updated
    requires from == ClippedFrom(s.BaseOffset, low) && c == Clipped(s.BaseOffset, low, w)
    requires t == Written(s, low, |w|) && cs2 == CopiedChunks(cs, s.ReadStart, s.Capacity, from, c)
    requires data2 == WrittenData(data, s.BaseOffset, low, w)
    ensures Recorded(s, cs, data, low, w, limit, true) ==
      WriteOutcome(Success, limit, AddRange(s.WrittenRanges, low, |w|).UpdatedRange.Low == 0, t, cs2, data2)
  {
  }

  /** The write recorded after the last chunk was grown to target bytes. */
  ghost function Grown(s: State, cs: seq<RecvChunk>, data: map<nat, byte>, low: nat, w: seq<byte>,
                       limit: nat, rangeAllocSucceeds: bool, target: nat): WriteOutcome
    requires Invariant(s, cs, data) && 0 < |w| && s.RecvMode != AppOwned
    requires Geometry.IsPowerOfTwo(target) && s.Lens[|s.Lens| - 1] < target
    requires s.BaseOffset < low + |w| <= s.BaseOffset + target
  {
    ResizedKeeps(s, cs, data, target);
    Recorded(Resized(s, target), ResizedChunks(s, cs, target), data, low, w, limit, rangeAllocSucceeds)
  }

  /**
   * QuicRecvBufferWrite of w at stream offset low, with limit bytes of new
   * data still allowed.  allocSucceeds and rangeAllocSucceeds stand for the
   * chunk and the range allocations.
   */
  ghost function WriteResult(s: State, cs: seq<RecvChunk>, data: map<nat, byte>, low: nat, w: seq<byte>,
                             limit: nat, allocSucceeds: bool, rangeAllocSucceeds: bool): WriteOutcome
    requires Invariant(s, cs, data) && 0 < |w|
  {
    var abs := low + |w|;
    var current := MaxEnd(s.WrittenRanges);
    if abs <= s.BaseOffset then WriteOutcome(Success, 0, false, s, cs, data)
    else if abs > s.BaseOffset + s.VirtualBufferLength then WriteOutcome(BufferTooSmall, limit, false, s, cs, data)
    else if abs > current && abs - current > limit then WriteOutcome(BufferTooSmall, limit, false, s, cs, data)
    else
      var limit2 := if abs > current then abs - current else 0;
      if s.RecvMode != AppOwned && abs > s.BaseOffset + s.Total() then
        if !allocSucceeds then WriteOutcome(OutOfMemory, limit2, false, s, cs, data)
        else
          LastWithinTotal(s);
          DoubledBounds(s.Lens[|s.Lens| - 1], abs - s.BaseOffset);
          Grown(s, cs, data, low, w, limit2, rangeAllocSucceeds, Doubled(s.Lens[|s.Lens| - 1], abs - s.BaseOffset))
      else
        Recorded(s, cs, data, low, w, limit2, rangeAllocSucceeds)
  }

  /** A write past the chunks' end that grows them: the result is the write recorded in the resized buffer. */
  lemma WriteResultGrown(s: State, cs: seq<RecvChunk>, data: map<nat, byte>, low: nat, w: seq<byte>,
                         limit: nat, rangeAllocSucceeds: bool, limit2: nat, target: nat)
    requires Invariant(s, cs, data) && 0 < |w|
    requires s.BaseOffset < low + |w| <= s.BaseOffset + s.VirtualBufferLength
    requires !(low + |w| > MaxEnd(s.WrittenRanges) && low + |w| - MaxEnd(s.WrittenRanges) > limit)
    requires limit2 == if low + |w| > MaxEnd(s.WrittenRanges) then low + |w| - MaxEnd(s.WrittenRanges) else 0
    requires s.RecvMode != AppOwned && low + |w| > s.BaseOffset + s.Total()
    requires target == Doubled(s.Lens[|s.Lens| - 1], low + |w| - s.BaseOffset)
    ensures Geometry.IsPowerOfTwo(target) && s.Lens[|s.Lens| - 1] < target
    ensures s.BaseOffset < low + |w| <= s.BaseOffset + target
    ensures WriteResult(s, cs, data, low, w, limit, true, rangeAllocSucceeds) ==
      Grown(s, cs, data, low, w, limit2, rangeAllocSucceeds, target)
  {
    LastWithinTotal(s);
    DoubledBounds(s.Lens[|s.Lens| - 1], low + |w| - s.BaseOffset);
  }

  /** A write past the chunks' end whose chunk allocation fails changes nothing. */
  lemma WriteResultNoMemory(s: State, cs: seq<RecvChunk>, data: map<nat, byte>, low: nat, w: seq<byte>,
                            limit: nat, rangeAllocSucceeds: bool, limit2: nat)
    requires Invariant(s, cs, data) && 0 < |w|
    requires s.BaseOffset < low + |w| <= s.BaseOffset + s.VirtualBufferLength
    requires !(low + |w| > MaxEnd(s.WrittenRanges) && low + |w| - MaxEnd(s.WrittenRanges) > limit)
    requires limit2 == if low + |w| > MaxEnd(s.WrittenRanges) then low + |w| - MaxEnd(s.WrittenRanges) else 0
    requires s.RecvMode != AppOwned && low + |w| > s.BaseOffset + s.Total()
    ensures WriteResult(s, cs, data, low, w, limit, false, rangeAllocSucceeds) ==
      WriteOutcome(OutOfMemory, limit2, false, s, cs, data)
  {
  }

  /** A write within the chunks: the result is the write recorded in place. */
  lemma WriteResultInPlace(s: State, cs: seq<RecvChunk>, data: map<nat, byte>, low: nat, w: seq<byte>,
                           limit: nat, allocSucceeds: bool, rangeAllocSucceeds: bool, limit2: nat)
    requires Invariant(s, cs, data) && 0 < |w|
    requires s.BaseOffset < low + |w| <= s.BaseOffset + s.VirtualBufferLength
    requires !(low + |w| > MaxEnd(s.WrittenRanges) && low + |w| - MaxEnd(s.WrittenRanges) > limit)
    requires limit2 == if low + |w| > MaxEnd(s.WrittenRanges) then low + |w| - MaxEnd(s.WrittenRanges) else 0
    requires !(s.RecvMode != AppOwned && low + |w| > s.BaseOffset + s.Total())
    ensures low + |w| <= s.BaseOffset + s.Total()
    ensures WriteResult(s, cs, data, low, w, limit, allocSucceeds, rangeAllocSucceeds) ==
      Recorded(s, cs, data, low, w, limit2, rangeAllocSucceeds)
  {
  }

  /** What Recorded reports: OutOfMemory, with nothing changed, exactly when
      the range allocation fails; otherwise the range is added and ReadyToRead
      says whether it brought new offsets to a range starting at 0. */
  lemma RecordedFacts(s: State, cs: seq<RecvChunk>, data: map<nat, byte>, low: nat, w: seq<byte>,
                      limit: nat, rangeAllocSucceeds: bool)
    requires Normalized(s.WrittenRanges) && s.BaseOffset <= PrefixEnd(s.WrittenRanges)
    requires Fits(Contents(cs), LensOf(cs)) && Geometry.Shape(s.ReadStart, s.Capacity, LensOf(cs))
    requires 0 < |w| && s.BaseOffset < low + |w|
    ensures var r := Recorded(s, cs, data, low, w, limit, rangeAllocSucceeds);
      var added := AddRange(s.WrittenRanges, low, |w|);
      r.WriteLimit == limit && r.State.BaseOffset == s.BaseOffset &&
      (r.Status == Success <==> rangeAllocSucceeds) &&
      (!rangeAllocSucceeds ==> r.Status == OutOfMemory && r.State == s && r.Chunks == cs && r.Data == data && !r.ReadyToRead) &&
      (rangeAllocSucceeds ==>
         r.State.WrittenRanges == added.Ranges &&
         (r.ReadyToRead <==> added.Updated && added.UpdatedRange.Low == 0) &&
         r.Data == if added.Updated then WrittenData(data, s.BaseOffset, low, w) else data)
  {
  }

  /** Past its limit checks, a write either fails to allocate a chunk and
      changes nothing, or is Recorded in a buffer (s2, cs2) with the same
      written ranges and BaseOffset: the buffer itself, or it grown. */
  lemma WriteResultRecorded(s: State, cs: seq<RecvChunk>, data: map<nat, byte>, low: nat, w: seq<byte>,
                            limit: nat, allocSucceeds: bool, rangeAllocSucceeds: bool, limit2: nat)
    returns (s2: State, cs2: seq<RecvChunk>)
    requires Invariant(s, cs, data) && 0 < |w|
    requires s.BaseOffset < low + |w| <= s.BaseOffset + s.VirtualBufferLength
    requires !(low + |w| > MaxEnd(s.WrittenRanges) && low + |w| - MaxEnd(s.WrittenRanges) > limit)
    requires limit2 == if low + |w| > MaxEnd(s.WrittenRanges) then low + |w| - MaxEnd(s.WrittenRanges) else 0
    ensures var grows := s.RecvMode != AppOwned && low + |w| > s.BaseOffset + s.Total();
      (grows && !allocSucceeds ==>
         WriteResult(s, cs, data, low, w, limit, allocSucceeds, rangeAllocSucceeds) ==
         WriteOutcome(OutOfMemory, limit2, false, s, cs, data)) &&
      (!(grows && !allocSucceeds) ==>
         Normalized(s2.WrittenRanges) && s2.BaseOffset <= PrefixEnd(s2.WrittenRanges) &&
         Fits(Contents(cs2), LensOf(cs2)) && Geometry.Shape(s2.ReadStart, s2.Capacity, LensOf(cs2)) &&
         s2.WrittenRanges == s.WrittenRanges && s2.BaseOffset == s.BaseOffset &&
         WriteResult(s, cs, data, low, w, limit, allocSucceeds, rangeAllocSucceeds) ==
         Recorded(s2, cs2, data, low, w, limit2, rangeAllocSucceeds))
  {
    s2, cs2 := s, cs;
    if s.RecvMode != AppOwned && low + |w| > s.BaseOffset + s.Total() {
      if allocSucceeds {
        var target := Doubled(s.Lens[|s.Lens| - 1], low + |w| - s.BaseOffset);
        WriteResultGrown(s, cs, data, low, w, limit, rangeAllocSucceeds, limit2, target);
        ResizedKeeps(s, cs, data, target);
        s2, cs2 := Resized(s, target), ResizedChunks(s, cs, target);
      } else {
        WriteResultNoMemory(s, cs, data, low, w, limit, rangeAllocSucceeds, limit2);
      }
    } else {
      WriteResultInPlace(s, cs, data, low, w, limit, allocSucceeds, rangeAllocSucceeds, limit2);
    }
  }

  /**
   * What QuicRecvBufferWrite reports, for every input: a write ending at or
   * below BaseOffset succeeds and changes nothing; one ending past the
   * window, or bringing more new bytes than allowed, fails with
   * BufferTooSmall and changes nothing; a failed chunk or range allocation
   * gives OutOfMemory; everything else succeeds.
   */
  lemma WriteResultStatus(s: State, cs: seq<RecvChunk>, data: map<nat, byte>, low: nat, w: seq<byte>,
                          limit: nat, allocSucceeds: bool, rangeAllocSucceeds: bool)
    requires Invariant(s, cs, data) && 0 < |w|
    ensures var r := WriteResult(s, cs, data, low, w, limit, allocSucceeds, rangeAllocSucceeds);
      var abs := low + |w|;
      var tooSmall := abs > s.BaseOffset + s.VirtualBufferLength ||
                      (abs > MaxEnd(s.WrittenRanges) && abs - MaxEnd(s.WrittenRanges) > limit);
      var grows := s.RecvMode != AppOwned && abs > s.BaseOffset + s.Total();
      (abs <= s.BaseOffset ==> r == WriteOutcome(Success, 0, false, s, cs, data)) &&
      (r.Status == BufferTooSmall <==> s.BaseOffset < abs && tooSmall) &&
      (r.Status == OutOfMemory <==>
         s.BaseOffset < abs && !tooSmall && ((grows && !allocSucceeds) || !rangeAllocSucceeds)) &&
      (r.Status == Success <==>
         abs <= s.BaseOffset || (!tooSmall && (!grows || allocSucceeds) && rangeAllocSucceeds))
  {
    var abs := low + |w|;
    if s.BaseOffset < abs <= s.BaseOffset + s.VirtualBufferLength &&
       !(abs > MaxEnd(s.WrittenRanges) && abs - MaxEnd(s.WrittenRanges) > limit) {
      var limit2 := if abs > MaxEnd(s.WrittenRanges) then abs - MaxEnd(s.WrittenRanges) else 0;
      var s2, cs2 := WriteResultRecorded(s, cs, data, low, w, limit, allocSucceeds, rangeAllocSucceeds, limit2);
      if !(s.RecvMode != AppOwned && abs > s.BaseOffset + s.Total() && !allocSucceeds) {
        RecordedFacts(s2, cs2, data, low, w, limit2, rangeAllocSucceeds);
      }
    }
  }

  /**
   * A write that fails records nothing: the written ranges and the accepted
   * bytes stay as they were and no new data is announced; BufferTooSmall
   * leaves the whole buffer and the caller's limit untouched.
   */
  lemma WriteResultRefused(s: State, cs: seq<RecvChunk>, data: map<nat, byte>, low: nat, w: seq<byte>,
                           limit: nat, allocSucceeds: bool, rangeAllocSucceeds: bool)
    requires Invariant(s, cs, data) && 0 < |w|
    ensures var r := WriteResult(s, cs, data, low, w, limit, allocSucceeds, rangeAllocSucceeds);
      (r.Status != Success ==>
         r.State.WrittenRanges == s.WrittenRanges && r.State.BaseOffset == s.BaseOffset &&
         r.Data == data && !r.ReadyToRead) &&
      (r.Status == BufferTooSmall ==> r.State == s && r.Chunks == cs && r.WriteLimit == limit)
  {
    var abs := low + |w|;
    if s.BaseOffset < abs <= s.BaseOffset + s.VirtualBufferLength &&
       !(abs > MaxEnd(s.WrittenRanges) && abs - MaxEnd(s.WrittenRanges) > limit) {
      var limit2 := if abs > MaxEnd(s.WrittenRanges) then abs - MaxEnd(s.WrittenRanges) else 0;
      var s2, cs2 := WriteResultRecorded(s, cs, data, low, w, limit, allocSucceeds, rangeAllocSucceeds, limit2);
      if !(s.RecvMode != AppOwned && abs > s.BaseOffset + s.Total() && !allocSucceeds) {
        RecordedFacts(s2, cs2, data, low, w, limit2, rangeAllocSucceeds);
      }
    }
  }

  /**
   * A successful write of [low, low + |w|) ending after BaseOffset: the
   * written ranges now cover exactly the old offsets and the new ones,
   * WriteLimit is how far the write moved the end of the written data (and
   * at most the limit the caller allowed), and ReadyToRead holds exactly
   * when the readable prefix grew.
   */
  lemma WriteResultAccepted(s: State, cs: seq<RecvChunk>, data: map<nat, byte>, low: nat, w: seq<byte>,
                            limit: nat, allocSucceeds: bool, rangeAllocSucceeds: bool)
    requires Invariant(s, cs, data) && 0 < |w|
    requires s.BaseOffset < low + |w|
    ensures var r := WriteResult(s, cs, data, low, w, limit, allocSucceeds, rangeAllocSucceeds);
      r.Status == Success ==>
        r.State.BaseOffset == s.BaseOffset &&
        (forall x :: Covers(r.State.WrittenRanges, x) <==> Covers(s.WrittenRanges, x) || low <= x < low + |w|) &&
        r.WriteLimit == MaxEnd(r.State.WrittenRanges) - MaxEnd(s.WrittenRanges) <= limit &&
        (r.ReadyToRead <==> PrefixEnd(r.State.WrittenRanges) > PrefixEnd(s.WrittenRanges))
  {
    var abs := low + |w|;
    if abs <= s.BaseOffset + s.VirtualBufferLength &&
       !(abs > MaxEnd(s.WrittenRanges) && abs - MaxEnd(s.WrittenRanges) > limit) {
      var limit2 := if abs > MaxEnd(s.WrittenRanges) then abs - MaxEnd(s.WrittenRanges) else 0;
      var s2, cs2 := WriteResultRecorded(s, cs, data, low, w, limit, allocSucceeds, rangeAllocSucceeds, limit2);
      if !(s.RecvMode != AppOwned && abs > s.BaseOffset + s.Total() && !allocSucceeds) {
        RecordedAccepted(s2, cs2, data, low, w, limit2, rangeAllocSucceeds);
      }
    }
  }

  /** WriteResultAccepted for the recording step alone. */
  lemma RecordedAccepted(s: State, cs: seq<RecvChunk>, data: map<nat, byte>, low: nat, w: seq<byte>,
                         limit: nat, rangeAllocSucceeds: bool)
    requires Normalized(s.WrittenRanges) && s.BaseOffset <= PrefixEnd(s.WrittenRanges)
    requires Fits(Contents(cs), LensOf(cs)) && Geometry.Shape(s.ReadStart, s.Capacity, LensOf(cs))
    requires 0 < |w| && s.BaseOffset < low + |w|
    requires limit == if low + |w| > MaxEnd(s.WrittenRanges) then low + |w| - MaxEnd(s.WrittenRanges) else 0
    ensures var r := Recorded(s, cs, data, low, w, limit, rangeAllocSucceeds);
      r.Status == Success ==>
        r.State.BaseOffset == s.BaseOffset &&
        (forall x :: Covers(r.State.WrittenRanges, x) <==> Covers(s.WrittenRanges, x) || low <= x < low + |w|) &&
        r.WriteLimit == MaxEnd(r.State.WrittenRanges) - MaxEnd(s.WrittenRanges) &&
        (r.ReadyToRead <==> PrefixEnd(r.State.WrittenRanges) > PrefixEnd(s.WrittenRanges))
  {
    RecordedFacts(s, cs, data, low, w, limit, rangeAllocSucceeds);
    AddRangeEnds(s.WrittenRanges, low, |w|);
    AddRangeReady(s.WrittenRanges, low, |w|);
  }

  /**
   * The bytes a successful write leaves accepted: when it brought new
   * offsets, w's bytes at its offsets from BaseOffset on (earlier bytes
   * elsewhere stay); when every offset was written before, nothing changes.
   */
  lemma WriteResultData(s: State, cs: seq<RecvChunk>, data: map<nat, byte>, low: nat, w: seq<byte>,
                        limit: nat, allocSucceeds: bool, rangeAllocSucceeds: bool)
    requires Invariant(s, cs, data) && 0 < |w|
    requires s.BaseOffset < low + |w|
    ensures var r := WriteResult(s, cs, data, low, w, limit, allocSucceeds, rangeAllocSucceeds);
      var added := AddRange(s.WrittenRanges, low, |w|);
      r.Status == Success ==>
        (!added.Updated ==> r.Data == data) &&
        (added.Updated ==> r.Data == WrittenData(data, s.BaseOffset, low, w))
  {
    var abs := low + |w|;
    if abs <= s.BaseOffset + s.VirtualBufferLength &&
       !(abs > MaxEnd(s.WrittenRanges) && abs - MaxEnd(s.WrittenRanges) > limit) {
      var limit2 := if abs > MaxEnd(s.WrittenRanges) then abs - MaxEnd(s.WrittenRanges) else 0;
      var s2, cs2 := WriteResultRecorded(s, cs, data, low, w, limit, allocSucceeds, rangeAllocSucceeds, limit2);
      if !(s.RecvMode != AppOwned && abs > s.BaseOffset + s.Total() && !allocSucceeds) {
        RecordedFacts(s2, cs2, data, low, w, limit2, rangeAllocSucceeds);
      }
    }
  }

  // ---------------------------------------------------------------------
  // Read

  /** Every buffer's Length is the number of bytes it points at. */
  predicate Sized(bufs: seq<QuicBuffer>) {
    forall i :: 0 <= i < |bufs| ==> bufs[i].Length == |bufs[i].Buffer|
  }

  lemma {:induction false} BytesAppend(a: seq<QuicBuffer>, b: seq<QuicBuffer>)
    ensures Bytes(a + b) == Bytes(a) + Bytes(b)
    decreases |a|
  {
    if a == [] {
      assert a + b == b;
    } else {
      assert (a + b)[1..] == a[1..] + b;
      BytesAppend(a[1..], b);
    }
  }

  lemma BytesOne(x: QuicBuffer)
    ensures Bytes([x]) == x.Buffer
  {
    assert [x][1..] == [];
  }

  /**
   * The len bytes of chunk memory b from index off on: one buffer, or two
   * when they run past the end of the memory and continue at its start (the
   * circular wrap-around case of QuicRecvBufferRead).
   */
  method SplitAtEnd(b: seq<byte>, off: nat, len: nat) returns (Buffers: seq<QuicBuffer>)
    requires off < |b| && len <= |b|
    ensures Sized(Buffers)
    ensures |Buffers| == if off + len > |b| then 2 else 1
    ensures Bytes(Buffers) == Wrapped(b, off, len)
  {
    if off + len > |b| {
      var First := QuicBuffer(|b| - off, b[off..]);
      var Second := QuicBuffer(len - First.Length, b[..len - First.Length]);
      Buffers := [First, Second];
      BytesOne(Second);
      assert Buffers[1..] == [Second];
      forall i | 0 <= i < len ensures Bytes(Buffers)[i] == Wrapped(b, off, len)[i] {
        Geometry.ModIsWrap(off + i, |b|);
      }
    } else {
      Buffers := [QuicBuffer(len, b[off .. off + len])];
      BytesOne(Buffers[0]);
      WrappedSlice(b, off, len);
    }
  }

  /** Handing out bytes and marking the chunks they lie in keeps every accepted byte. */
  lemma ReadKeeps(s: State, cs: seq<RecvChunk>, data: map<nat, byte>, provided: nat, cs2: seq<RecvChunk>, rpl: nat)
    requires Invariant(s, cs, data) && CanRead(s, provided)
    requires WellFormed(cs2) && LensOf(cs2) == s.Lens && Contents(cs2) == Contents(cs)
    requires RefsOf(cs2) == ReadState(s, provided).Refs && rpl == ReadState(s, provided).ReadPendingLength
    ensures ReadState(s, provided) == s.(ReadPendingLength := rpl, Refs := RefsOf(cs2))
    ensures Invariant(s.(ReadPendingLength := rpl, Refs := RefsOf(cs2)), cs2, data)
  {
    ReadStateConsistent(s, provided);
  }

  /** Buffers that hold the bytes accepted from stream offset `off` up to
      base + rpl, the end of the data handed out. */
  ghost predicate HandedOutOf(data: map<nat, byte>, base: nat, rpl: nat, off: nat, Buffers: seq<QuicBuffer>) {
    off <= base + rpl &&
    (forall o :: off <= o < base + rpl ==> o in data) &&
    Bytes(Buffers) == DataAt(data, off, base + rpl - off)
  }

  /**
   * A read that hands out the n stored bytes after the pending ones, with
   * the chunk list cs2 carrying the new references, keeps the invariant, and
   * its buffers hold the bytes accepted at those offsets.
   */
  lemma ReadHandsOut(s: State, cs: seq<RecvChunk>, data: map<nat, byte>, provided: nat,
                     cs2: seq<RecvChunk>, Buffers: seq<QuicBuffer>, from: nat, n: nat, off: nat, rpl: nat)
    requires Invariant(s, cs, data) && CanRead(s, provided)
    requires WellFormed(cs2) && LensOf(cs2) == s.Lens && Contents(cs2) == Contents(cs)
    requires RefsOf(cs2) == ReadState(s, provided).Refs && rpl == ReadState(s, provided).ReadPendingLength
    requires from == s.ReadPendingLength && rpl == from + n && off == s.BaseOffset + from
    requires Fits(Contents(cs), s.Lens) && from + n <= s.Total()
    requires Bytes(Buffers) == Stored(Contents(cs), s.ReadStart, s.Capacity, s.Lens, from, n)
    ensures ReadState(s, provided) == s.(ReadPendingLength := rpl, Refs := RefsOf(cs2))
    ensures Invariant(s.(ReadPendingLength := rpl, Refs := RefsOf(cs2)), cs2, data)
    ensures HandedOutOf(data, s.BaseOffset, rpl, off, Buffers)
  {
    ReadKeeps(s, cs, data, provided, cs2, rpl);
    ReadStateConsistent(s, provided);
    ReadableAccepted(s, cs, data);
    StoredHandedOut(Contents(cs), s.ReadStart, s.Capacity, s.Lens, s.BaseOffset, s.WrittenRanges, data,
                    Buffers, from, n, off, rpl);
  }

  /** Buffers holding n stored bytes at written offsets hold the bytes accepted there. */
  lemma StoredHandedOut(bufs: seq<seq<byte>>, rs: nat, cap: nat, lens: seq<nat>, base: nat,
                        written: seq<Subrange>, data: map<nat, byte>, Buffers: seq<QuicBuffer>,
                        from: nat, n: nat, off: nat, rpl: nat)
    requires Fits(bufs, lens) && Geometry.Shape(rs, cap, lens) && from + n <= Geometry.Total(cap, lens)
    requires StoredIn(bufs, rs, cap, lens, base, written, data)
    requires forall o :: base + from <= o < base + from + n ==> Covers(written, o)
    requires rpl == from + n && off == base + from
    requires Bytes(Buffers) == Stored(bufs, rs, cap, lens, from, n)
    ensures HandedOutOf(data, base, rpl, off, Buffers)
  {
    StoredData(bufs, rs, cap, lens, base, written, data, from, n);
    assert base + rpl - off == n;
  }

  /** Every readable offset holds an accepted byte. */
  lemma ReadableAccepted(s: State, cs: seq<RecvChunk>, data: map<nat, byte>)
    requires Invariant(s, cs, data)
    ensures s.Contig() <= s.Total()
    ensures forall o :: s.BaseOffset <= o < s.BaseOffset + s.Contig() ==> Covers(s.WrittenRanges, o) && o in data
  {
    var p := PrefixEnd(s.WrittenRanges);
    PrefixEndCovered(s.WrittenRanges);
    PrefixEndBelowMaxEnd(s.WrittenRanges);
    assert s.Contig() == p - s.BaseOffset;
    forall o | s.BaseOffset <= o < s.BaseOffset + s.Contig() ensures Covers(s.WrittenRanges, o) && o in data {
      assert o < p;
      assert Covers(s.WrittenRanges, o);
    }
  }

  /**
   * Multiple mode: the walk of QuicRecvBufferRead to the chunk holding the
   * first unread byte.  The first chunk holds ReadLength readable bytes, a
   * later one AllocLength; ChunkReadOffset ends as the byte's position among
   * the chunk's bytes and ChunkReadLength as the chunk's length.
   */
  method FindReadChunk(cs: seq<RecvChunk>, ReadLength: nat, ReadPendingLength: nat, ghost s: State)
    returns (j: nat, IsFirstChunk: bool, ChunkReadOffset: nat, ChunkReadLength: nat)
    requires Consistent(s) && s.Lens == LensOf(cs) && s.RecvMode == Multiple && StartsAtZero(s.WrittenRanges)
    requires ReadLength == s.ReadLength && ReadPendingLength == s.ReadPendingLength < s.Contig() <= s.Total()
    ensures j < |cs| && (IsFirstChunk <==> j == 0)
    ensures j == 0 ==> ChunkReadOffset == ReadPendingLength < ReadLength == ChunkReadLength
    ensures j > 0 ==> s.StartOf(j) + ChunkReadOffset == ReadPendingLength &&
                      ChunkReadOffset < cs[j].AllocLength == ChunkReadLength
  {
    j, IsFirstChunk, ChunkReadOffset, ChunkReadLength := 0, true, ReadPendingLength, ReadLength;
    while ChunkReadLength <= ChunkReadOffset
      invariant j < |cs| && (IsFirstChunk <==> j == 0)
      invariant j == 0 ==> ChunkReadOffset == ReadPendingLength && ChunkReadLength == ReadLength
      invariant j > 0 ==> s.StartOf(j) + ChunkReadOffset == ReadPendingLength && ChunkReadLength == cs[j].AllocLength
      decreases |cs| - j
    {
      Geometry.NextChunkExists(s.Capacity, s.Lens, j, s.StartOf(j) + ChunkReadLength, s.Contig());
      ChunkReadOffset := ChunkReadOffset - ChunkReadLength;
      IsFirstChunk := false;
      j := j + 1;
      ChunkReadLength := cs[j].AllocLength;
    }
  }

  /** A buffer list holding the stored bytes from `from` on, followed by one
      holding the next m of them, holds n + m of them. */
  lemma AppendStored(Buffers: seq<QuicBuffer>, Next: QuicBuffer, bufs: seq<seq<byte>>, rs: nat, cap: nat,
                     lens: seq<nat>, from: nat, n: nat, m: nat)
    requires Fits(bufs, lens) && Geometry.Shape(rs, cap, lens) && from + n + m <= Geometry.Total(cap, lens)
    requires Bytes(Buffers) == Stored(bufs, rs, cap, lens, from, n)
    requires Next.Buffer == Stored(bufs, rs, cap, lens, from + n, m)
    ensures Bytes(Buffers + [Next]) == Stored(bufs, rs, cap, lens, from, n + m)
  {
    BytesAppend(Buffers, [Next]);
    BytesOne(Next);
    StoredSplit(bufs, rs, cap, lens, from, n, m);
  }

  /** Marks chunk i as referenced by the application. */
  method Reference(cs: seq<RecvChunk>, i: nat) returns (cs2: seq<RecvChunk>)
    requires WellFormed(cs) && i < |cs|
    ensures WellFormed(cs2) && LensOf(cs2) == LensOf(cs) && Contents(cs2) == Contents(cs)
    ensures RefsOf(cs2) == RefsOf(cs)[i := true]
  {
    MarkedChunk(cs, i, true);
    cs2 := cs[i := cs[i].(ExternalReference := true)];
  }

  /**
   * Multiple mode, on the chunk list: the buffers for the UnreadLength bytes
   * after the pending ones, and the list with the chunks they point into
   * marked as referenced.
   */
  method MultipleBuffers(cs: seq<RecvChunk>, ReadStart: nat, ReadLength: nat, ReadPendingLength: nat,
                         UnreadLength: nat, ghost s: State)
    returns (Buffers: seq<QuicBuffer>, cs2: seq<RecvChunk>)
    requires Consistent(s) && WellFormed(cs) && s.Lens == LensOf(cs) && s.Refs == RefsOf(cs)
    requires s.RecvMode == Multiple && StartsAtZero(s.WrittenRanges) && s.ReadPendingLength < s.Contig() <= s.Total()
    requires ReadStart == s.ReadStart && ReadLength == s.ReadLength && ReadPendingLength == s.ReadPendingLength
    requires UnreadLength == s.Contig() - ReadPendingLength
    ensures WellFormed(cs2) && LensOf(cs2) == s.Lens && Contents(cs2) == Contents(cs)
    ensures RefsOf(cs2) == ReadMultiple(s).Refs
    ensures Sized(Buffers) && 1 <= |Buffers| <= 3
    ensures Fits(Contents(cs), s.Lens)
    ensures Bytes(Buffers) == Stored(Contents(cs), ReadStart, s.Capacity, s.Lens, ReadPendingLength, UnreadLength)
  {
    var j, ChunkReadLength;
    Buffers, cs2, j, ChunkReadLength := FirstReadPiece(cs, ReadStart, ReadLength, ReadPendingLength, UnreadLength, s);
    MarkedSteps(s.Refs, j);
    if UnreadLength > ChunkReadLength {
      ReadMultipleTwoChunks(s);
      MultipleNextChunk(s, j, ChunkReadLength);
      ghost var n := ChunkReadLength;
      ChunkReadLength := UnreadLength - ChunkReadLength;
      var Chunk := cs2[j + 1];
      assert Contents(cs)[j + 1] == Chunk.Buffer;
      Buffers := AppendPrefix(Buffers, Chunk, ChunkReadLength, Contents(cs), ReadStart, s.Capacity, s.Lens, j + 1,
                              ReadPendingLength, n);
      cs2 := Reference(cs2, j + 1);
      MultipleReadRefs(s, j, j + 1);
    } else {
      MultipleReadRefs(s, j, j);
    }
  }

  /**
   * Multiple mode: the buffers for the unread bytes held by the chunk that
   * holds the first of them, which is then marked as referenced.
   */
  method FirstReadPiece(cs: seq<RecvChunk>, ReadStart: nat, ReadLength: nat, ReadPendingLength: nat,
                        UnreadLength: nat, ghost s: State)
    returns (Buffers: seq<QuicBuffer>, cs2: seq<RecvChunk>, j: nat, ChunkReadLength: nat)
    requires Consistent(s) && WellFormed(cs) && s.Lens == LensOf(cs) && s.Refs == RefsOf(cs)
    requires s.RecvMode == Multiple && StartsAtZero(s.WrittenRanges) && s.ReadPendingLength < s.Contig() <= s.Total()
    requires ReadStart == s.ReadStart && ReadLength == s.ReadLength && ReadPendingLength == s.ReadPendingLength
    requires UnreadLength == s.Contig() - ReadPendingLength
    ensures j < |s.Lens| && 0 < ChunkReadLength <= UnreadLength && ChunkOf(s, ReadPendingLength) == j
    ensures ChunkReadLength < UnreadLength ==>
      ReadPendingLength + ChunkReadLength == (if j == 0 then s.Capacity else s.StartOf(j) + s.Lens[j])
    ensures ChunkReadLength == UnreadLength ==> ChunkOf(s, s.Contig() - 1) == j
    ensures WellFormed(cs2) && LensOf(cs2) == s.Lens && Contents(cs2) == Contents(cs)
    ensures RefsOf(cs2) == s.Refs[j := true]
    ensures Sized(Buffers) && 1 <= |Buffers| <= 2
    ensures Fits(Contents(cs), s.Lens)
    ensures Bytes(Buffers) == Stored(Contents(cs), ReadStart, s.Capacity, s.Lens, ReadPendingLength, ChunkReadLength)
  {
    ContentsFit(cs);
    var IsFirstChunk, ChunkReadOffset;
    j, IsFirstChunk, ChunkReadOffset, ChunkReadLength := FindReadChunk(cs, ReadLength, ReadPendingLength, s);
    ghost var cro := ChunkReadOffset;
    ChunkReadLength := ChunkReadLength - ChunkReadOffset;
    var Chunk := cs[j];
    if IsFirstChunk {
      ChunkReadOffset := (ReadStart + ChunkReadOffset) % Chunk.AllocLength;
    } else if ChunkReadLength > UnreadLength {
      ChunkReadLength := UnreadLength;
    }
    MultipleThisChunk(s, j, cro, ChunkReadLength);
    assert Contents(cs)[j] == Chunk.Buffer;
    PieceStored(Contents(cs), ReadStart, s.Capacity, s.Lens, j, cro, ReadPendingLength, ChunkReadLength);
    Buffers := SplitAtEnd(Chunk.Buffer, ChunkReadOffset, ChunkReadLength);
    cs2 := Reference(cs, j);
  }

  /** The bytes a read takes from chunk j: from (ReadStart + rel) mod its
      length on, wrapping, in the first chunk; from cro on in a later one. */
  lemma PieceStored(bufs: seq<seq<byte>>, rs: nat, cap: nat, lens: seq<nat>, j: nat, cro: nat, rel: nat, n: nat)
    requires Fits(bufs, lens) && Geometry.Shape(rs, cap, lens) && j < |lens|
    requires j == 0 ==> cro == rel && rel + n <= cap
    requires j > 0 ==> cro + n <= lens[j] && rel == Geometry.ChunkStart(cap, lens, j) + cro
    ensures rel + n <= Geometry.Total(cap, lens)
    ensures Wrapped(bufs[j], if j == 0 then (rs + cro) % lens[0] else cro, n) == Stored(bufs, rs, cap, lens, rel, n)
  {
    if j == 0 {
      FirstChunkStored(bufs, rs, cap, lens, rel, n);
    } else {
      LaterStored(bufs, rs, cap, lens, j, cro, rel, n);
      WrappedSlice(bufs[j], cro, n);
    }
  }

  /** Appends a buffer for the first m bytes of chunk k, which continue the
      stored bytes the list already holds. */
  method AppendPrefix(Buffers: seq<QuicBuffer>, Chunk: RecvChunk, m: nat, ghost bufs: seq<seq<byte>>,
                      ghost rs: nat, ghost cap: nat, ghost lens: seq<nat>, ghost k: nat, ghost from: nat, ghost n: nat)
    returns (Buffers2: seq<QuicBuffer>)
    requires Fits(bufs, lens) && Geometry.Shape(rs, cap, lens) && 1 <= k < |lens|
    requires bufs[k] == Chunk.Buffer && m <= lens[k] && from + n == Geometry.ChunkStart(cap, lens, k)
    requires from + n <= Geometry.Total(cap, lens)
    requires Sized(Buffers) && Bytes(Buffers) == Stored(bufs, rs, cap, lens, from, n)
    ensures from + n + m <= Geometry.Total(cap, lens)
    ensures Sized(Buffers2) && |Buffers2| == |Buffers| + 1
    ensures Bytes(Buffers2) == Stored(bufs, rs, cap, lens, from, n + m)
  {
    var Next := QuicBuffer(m, Chunk.Buffer[..m]);
    LaterPrefixStored(bufs, rs, cap, lens, k, from + n, m);
    AppendStored(Buffers, Next, bufs, rs, cap, lens, from, n, m);
    Buffers2 := Buffers + [Next];
  }

  /**
   * App-owned mode, on the chunk list: a buffer for the first chunk's
   * readable bytes, then one per following chunk while buffers and readable
   * bytes remain; RemainingDataToRead is what is left unread.
   */
  method AppOwnedBuffers(cs: seq<RecvChunk>, ReadStart: nat, ReadLength: nat, ContiguousLength: nat,
                         ProvidedBufferCount: nat, ghost s: State)
    returns (Buffers: seq<QuicBuffer>, cs2: seq<RecvChunk>, RemainingDataToRead: nat)
    requires Consistent(s) && WellFormed(cs) && s.Lens == LensOf(cs) && s.Refs == RefsOf(cs)
    requires s.RecvMode == AppOwned && StartsAtZero(s.WrittenRanges) && s.Lens != [] && s.Contig() <= s.Total()
    requires ReadStart == s.ReadStart && ReadLength == s.ReadLength && ContiguousLength == s.Contig()
    requires ProvidedBufferCount >= 1
    ensures WellFormed(cs2) && LensOf(cs2) == s.Lens && Contents(cs2) == Contents(cs)
    ensures RemainingDataToRead <= ContiguousLength
    ensures var t := ReadAppOwned(s, ProvidedBufferCount);
      RefsOf(cs2) == t.Refs && ContiguousLength - RemainingDataToRead == t.ReadPendingLength
    ensures Sized(Buffers) && |Buffers| == AppOwnedReadCount(s, ProvidedBufferCount)
    ensures Fits(Contents(cs), s.Lens)
    ensures Bytes(Buffers) == Stored(Contents(cs), ReadStart, s.Capacity, s.Lens, 0, ContiguousLength - RemainingDataToRead)
  {
    ContentsFit(cs);
    ghost var bufs := Contents(cs);
    RemainingDataToRead := ContiguousLength;
    Buffers, cs2 := AppOwnedFirst(cs, ReadStart, ReadLength, s);
    RemainingDataToRead := RemainingDataToRead - ReadLength;
    var BufferCount;
    Buffers, cs2, RemainingDataToRead, BufferCount :=
      AppOwnedLoop(Buffers, cs2, RemainingDataToRead, ProvidedBufferCount, ReadStart, s, bufs, ContiguousLength);
    AppOwnedCount(s, ProvidedBufferCount, BufferCount);
  }

  /** The first buffer of an app-owned read: the first chunk's readable
      bytes, from ReadStart on; the chunk is marked as referenced. */
  method AppOwnedFirst(cs: seq<RecvChunk>, ReadStart: nat, ReadLength: nat, ghost s: State)
    returns (Buffers: seq<QuicBuffer>, cs2: seq<RecvChunk>)
    requires Consistent(s) && WellFormed(cs) && s.Lens == LensOf(cs) && s.Refs == RefsOf(cs)
    requires s.RecvMode == AppOwned && StartsAtZero(s.WrittenRanges) && s.Lens != []
    requires ReadStart == s.ReadStart && ReadLength == s.ReadLength
    ensures ReadLength == Min(s.Contig(), s.StartOf(1)) <= s.Total()
    ensures Fits(Contents(cs), s.Lens)
    ensures Sized(Buffers) && |Buffers| == 1
    ensures Bytes(Buffers) == Stored(Contents(cs), ReadStart, s.Capacity, s.Lens, 0, ReadLength)
    ensures WellFormed(cs2) && LensOf(cs2) == s.Lens && Contents(cs2) == Contents(cs)
    ensures RefsOf(cs2) == Marked(s.Refs, 0, 0)
  {
    ContentsFit(cs);
    AppOwnedFirstChunk(s);
    var Chunk := cs[0];
    assert Contents(cs)[0] == Chunk.Buffer;
    FirstSliceStored(Contents(cs), ReadStart, s.Capacity, s.Lens, ReadLength);
    Buffers := [QuicBuffer(ReadLength, Chunk.Buffer[ReadStart .. ReadStart + ReadLength])];
    BytesOne(Buffers[0]);
    MarkedSteps(s.Refs, 0);
    cs2 := Reference(cs, 0);
  }

  /** The app-owned read loop: one buffer per following chunk while
      buffers and readable bytes remain. */
  method AppOwnedLoop(Buffers0: seq<QuicBuffer>, cs0: seq<RecvChunk>, RemainingDataToRead0: nat, ProvidedBufferCount: nat,
                      ghost ReadStart: nat, ghost s: State, ghost bufs: seq<seq<byte>>, ghost C: nat)
    returns (Buffers: seq<QuicBuffer>, cs2: seq<RecvChunk>, RemainingDataToRead: nat, BufferCount: nat)
    requires Geometry.Shape(s.ReadStart, s.Capacity, s.Lens) && C <= s.Total() && ReadStart == s.ReadStart
    requires Fits(bufs, s.Lens) && s.Lens != [] && |s.Refs| == |s.Lens| && ProvidedBufferCount >= 1
    requires RemainingDataToRead0 == C - Min(C, s.StartOf(1))
    requires Sized(Buffers0) && |Buffers0| == 1
    requires Bytes(Buffers0) == Stored(bufs, ReadStart, s.Capacity, s.Lens, 0, Min(C, s.StartOf(1)))
    requires WellFormed(cs0) && LensOf(cs0) == s.Lens && Contents(cs0) == bufs
    requires RefsOf(cs0) == Marked(s.Refs, 0, 0)
    ensures 1 <= BufferCount <= |s.Lens| && BufferCount <= ProvidedBufferCount
    ensures BufferCount == 1 || s.StartOf(BufferCount - 1) < C
    ensures BufferCount == ProvidedBufferCount || C <= s.StartOf(BufferCount)
    ensures RemainingDataToRead == C - Min(C, s.StartOf(BufferCount))
    ensures Sized(Buffers) && |Buffers| == BufferCount
    ensures Bytes(Buffers) == Stored(bufs, ReadStart, s.Capacity, s.Lens, 0, Min(C, s.StartOf(BufferCount)))
    ensures WellFormed(cs2) && LensOf(cs2) == s.Lens && Contents(cs2) == bufs
    ensures RefsOf(cs2) == Marked(s.Refs, 0, BufferCount - 1)
  {
    Buffers, cs2, RemainingDataToRead := Buffers0, cs0, RemainingDataToRead0;
    BufferCount := 1;
    while BufferCount < ProvidedBufferCount && RemainingDataToRead > 0
      invariant 1 <= BufferCount <= |s.Lens| && BufferCount <= ProvidedBufferCount
      invariant RemainingDataToRead == C - Min(C, s.StartOf(BufferCount))
      invariant BufferCount == 1 || s.StartOf(BufferCount - 1) < C
      invariant Sized(Buffers) && |Buffers| == BufferCount
      invariant Bytes(Buffers) == Stored(bufs, ReadStart, s.Capacity, s.Lens, 0, C - RemainingDataToRead)
      invariant WellFormed(cs2) && LensOf(cs2) == s.Lens && Contents(cs2) == bufs
      invariant RefsOf(cs2) == Marked(s.Refs, 0, BufferCount - 1)
      decreases ProvidedBufferCount - BufferCount
    {
      Buffers, cs2, RemainingDataToRead := AppOwnedNext(Buffers, cs2, RemainingDataToRead, BufferCount, ReadStart, s, bufs, C);
      BufferCount := BufferCount + 1;
    }
  }

  /** One round of the app-owned read loop: a buffer for the readable bytes
      of chunk BufferCount, which is marked as referenced. */
  method AppOwnedNext(Buffers: seq<QuicBuffer>, cs: seq<RecvChunk>, RemainingDataToRead: nat, BufferCount: nat,
                      ghost ReadStart: nat, ghost s: State, ghost bufs: seq<seq<byte>>, ghost C: nat)
    returns (Buffers2: seq<QuicBuffer>, cs2: seq<RecvChunk>, RemainingDataToRead2: nat)
    requires Geometry.Shape(s.ReadStart, s.Capacity, s.Lens) && C <= s.Total() && ReadStart == s.ReadStart
    requires Fits(bufs, s.Lens) && 1 <= BufferCount <= |s.Lens| && 0 < RemainingDataToRead
    requires RemainingDataToRead == C - Min(C, s.StartOf(BufferCount))
    requires Sized(Buffers) && Bytes(Buffers) == Stored(bufs, ReadStart, s.Capacity, s.Lens, 0, C - RemainingDataToRead)
    requires WellFormed(cs) && LensOf(cs) == s.Lens && Contents(cs) == bufs
    requires |s.Refs| == |s.Lens| && RefsOf(cs) == Marked(s.Refs, 0, BufferCount - 1)
    ensures BufferCount < |s.Lens| && s.StartOf(BufferCount) < C
    ensures RemainingDataToRead2 == C - Min(C, s.StartOf(BufferCount + 1))
    ensures Sized(Buffers2) && |Buffers2| == |Buffers| + 1
    ensures Bytes(Buffers2) == Stored(bufs, ReadStart, s.Capacity, s.Lens, 0, C - RemainingDataToRead2)
    ensures WellFormed(cs2) && LensOf(cs2) == s.Lens && Contents(cs2) == bufs
    ensures RefsOf(cs2) == Marked(s.Refs, 0, BufferCount)
  {
    ghost var k := BufferCount;
    ghost var n := if k < |s.Lens| then Min(s.Lens[k], C - s.StartOf(k)) else 0;
    AppOwnedNextChunk(s, k, n, C);
    var Chunk := cs[BufferCount];
    assert bufs[k] == Chunk.Buffer;
    var ChunkReadLength := if Chunk.AllocLength < RemainingDataToRead then Chunk.AllocLength else RemainingDataToRead;
    ghost var before := Min(C, s.StartOf(k));
    assert before == s.StartOf(k) && ChunkReadLength == n;
    Buffers2 := AppendPrefix(Buffers, Chunk, ChunkReadLength, bufs, ReadStart, s.Capacity, s.Lens, k, 0, before);
    MarkedGrow(s.Refs, 0, k - 1);
    cs2 := Reference(cs, BufferCount);
    RemainingDataToRead2 := RemainingDataToRead - ChunkReadLength;
  }

  // ---------------------------------------------------------------------
  // Drain

  /** The chunk list QuicRecvBufferPartialDrain leaves: single mode moves the
      rest of its buffer to the front; multiple mode keeps the first chunk
      referenced while handed-out bytes remain in it. */
  ghost function PartiallyDrainedChunks(s: State, cs: seq<RecvChunk>, d: nat): seq<RecvChunk>
    requires cs != [] && d <= |cs[0].Buffer|
  {
    var b := cs[0].Buffer;
    if d != 0 && s.RecvMode == Single then cs[0 := cs[0].(Buffer := CopyMemory(b, 0, b, d, |b| - d))]
    else if s.RecvMode == Multiple then cs[0 := cs[0].(ExternalReference := s.ReadPendingLength != d)]
    else cs
  }

  /** The chunk list after QuicRecvBufferFullDrain's first step: in multiple
      mode the first chunk is no longer referenced. */
  ghost function FullDrainReleasedChunks(mode: RecvBufMode, cs: seq<RecvChunk>): seq<RecvChunk>
    requires cs != []
  {
    if mode == Multiple then cs[0 := cs[0].(ExternalReference := false)] else cs
  }

  /** The chunk list after its second step: the first chunk is freed when
      others follow it or in app-owned mode, and kept otherwise. */
  ghost function FirstChunkFreedChunks(mode: RecvBufMode, cs: seq<RecvChunk>): seq<RecvChunk>
    requires cs != []
  {
    if |cs| > 1 then cs[1..] else if mode == AppOwned then [] else cs
  }

  /** The chunk list QuicRecvBufferFullDrain leaves. */
  ghost function FullyDrainedChunks(s: State, cs: seq<RecvChunk>): seq<RecvChunk>
    requires cs != []
  {
    FirstChunkFreedChunks(s.RecvMode, FullDrainReleasedChunks(s.RecvMode, cs))
  }

  /** A partial drain keeps every byte accepted from the new BaseOffset on. */
  lemma PartiallyDrainedKeeps(s: State, cs: seq<RecvChunk>, data: map<nat, byte>, d: nat)
    requires Invariant(s, cs, data) && CanPartiallyDrain(s, d)
    ensures d <= |cs[0].Buffer|
    ensures Invariant(PartiallyDrained(s, d), PartiallyDrainedChunks(s, cs, d), data)
  {
    if d == 0 {
      PartiallyDrainedNothing(s, cs, data);
    } else if s.RecvMode == Single {
      PartiallyMovedStored(s, cs, data, d);
    } else {
      PartiallyAdvancedStored(s, cs, data, d);
    }
  }

  /** Draining nothing moves no byte. */
  lemma PartiallyDrainedNothing(s: State, cs: seq<RecvChunk>, data: map<nat, byte>)
    requires Invariant(s, cs, data) && CanPartiallyDrain(s, 0)
    ensures Invariant(PartiallyDrained(s, 0), PartiallyDrainedChunks(s, cs, 0), data)
  {
    PartiallyDrainedConsistent(s, 0);
    var t := PartiallyDrained(s, 0);
    var cs2 := PartiallyDrainedChunks(s, cs, 0);
    assert LensOf(cs2) == t.Lens && RefsOf(cs2) == t.Refs && Contents(cs2) == Contents(cs);
    assert t == s.(Refs := t.Refs);
  }

  /** Single mode: the bytes moved to the front are the ones after the drained ones. */
  lemma PartiallyMovedStored(s: State, cs: seq<RecvChunk>, data: map<nat, byte>, d: nat)
    requires Invariant(s, cs, data) && CanPartiallyDrain(s, d) && d != 0 && s.RecvMode == Single
    ensures d <= |cs[0].Buffer|
    ensures Invariant(PartiallyDrained(s, d), PartiallyDrainedChunks(s, cs, d), data)
  {
    PartiallyDrainedConsistent(s, d);
    var t := PartiallyDrained(s, d);
    var b0 := cs[0].Buffer;
    assert s.Total() == s.Capacity == |b0|;
    var cs2 := PartiallyDrainedChunks(s, cs, d);
    var b := cs2[0].Buffer;
    assert LensOf(cs2) == t.Lens && RefsOf(cs2) == t.Refs;
    assert Contents(cs) == [b0] && Contents(cs2) == [b];
    MovedFirstStored(s, d, b0, data, t, b);
  }

  /** The header side of a single-mode partial drain: the only chunk, read
      from its start, now begins d bytes later in the stream. */
  lemma MovedFirstStored(s: State, d: nat, b0: seq<byte>, data: map<nat, byte>, t: State, b: seq<byte>)
    requires CanPartiallyDrain(s, d) && d != 0 && s.RecvMode == Single && s.Lens == [|b0|]
    requires Fits([b0], s.Lens)
    requires StoredIn([b0], s.ReadStart, s.Capacity, s.Lens, s.BaseOffset, s.WrittenRanges, data)
    requires t == PartiallyDrained(s, d) && |b| == |b0|
    requires forall k :: 0 <= k < |b0| - d ==> b[k] == b0[k + d]
    ensures Fits([b], t.Lens) && Geometry.Shape(t.ReadStart, t.Capacity, t.Lens)
    ensures StoredIn([b], t.ReadStart, t.Capacity, t.Lens, t.BaseOffset, t.WrittenRanges, data)
  {
    assert s.ReadStart == 0 && s.Total() == s.Capacity == |b0|;
    assert t.ReadStart == 0 && t.Capacity == |b0| && t.Lens == [|b0|];
    MovedStored(b0, b, d, s.BaseOffset, s.WrittenRanges, data);
  }

  /** Other modes: the read start moves d bytes on, wrapping at the chunk's end. */
  lemma PartiallyAdvancedStored(s: State, cs: seq<RecvChunk>, data: map<nat, byte>, d: nat)
    requires Invariant(s, cs, data) && CanPartiallyDrain(s, d) && d != 0 && s.RecvMode != Single
    ensures d <= |cs[0].Buffer|
    ensures Invariant(PartiallyDrained(s, d), PartiallyDrainedChunks(s, cs, d), data)
  {
    PartiallyDrainedConsistent(s, d);
    var t := PartiallyDrained(s, d);
    var cs2 := PartiallyDrainedChunks(s, cs, d);
    if s.RecvMode == Multiple {
      MarkedChunk(cs, 0, s.ReadPendingLength != d);
    }
    if !ShrinksFirst(s, d) {
      assert |s.Lens| == 1;
    }
    AdvancedStored(Contents(cs), Contents(cs2), s.ReadStart, t.ReadStart, s.Capacity, t.Capacity, s.Lens,
                   s.BaseOffset, t.BaseOffset, d, s.WrittenRanges, data);
    assert WellFormed(cs2) && Fits(Contents(cs2), t.Lens);
  }

  /** A full drain keeps every byte accepted from the new BaseOffset on. */
  lemma FullyDrainedKeeps(s: State, cs: seq<RecvChunk>, data: map<nat, byte>, d: nat,
                          t: State, cs2: seq<RecvChunk>)
    requires Invariant(s, cs, data) && CanFullyDrain(s, d)
    requires t == FullyDrained(s, d).0 && cs2 == FullyDrainedChunks(s, cs)
    ensures Invariant(t, cs2, data)
  {
    FullyDrainedConsistent(s, d);
    FullyDrainedShape(s, cs, data, d);
    FullyDrainedStored(s, d, Contents(cs), data, t, Contents(cs2));
  }

  /** After a full drain every accepted byte is still stored: nothing is
      left to store, or the chunks after the freed one hold it. */
  lemma FullyDrainedStored(s: State, d: nat, bufs: seq<seq<byte>>, data: map<nat, byte>,
                           t: State, bufs2: seq<seq<byte>>)
    requires CanFullyDrain(s, d) && Fits(bufs, s.Lens)
    requires StoredIn(bufs, s.ReadStart, s.Capacity, s.Lens, s.BaseOffset, s.WrittenRanges, data)
    requires t == FullyDrained(s, d).0 && Consistent(t) && Fits(bufs2, t.Lens)
    requires |s.Lens| > 1 ==> bufs2 == bufs[1..]
    ensures StoredIn(bufs2, t.ReadStart, t.Capacity, t.Lens, t.BaseOffset, t.WrittenRanges, data)
  {
    FullyDrainedFields(s, d);
    if |s.Lens| == 1 {
      assert s.Total() == s.Capacity;
    }
    if MaxEnd(s.WrittenRanges) <= t.BaseOffset {
      StoredNothing(bufs2, t.ReadStart, t.Capacity, t.Lens, t.BaseOffset, t.WrittenRanges, data);
    } else {
      assert |s.Lens| > 1 && s.ReadLength == s.Capacity;
      DropFirstStored(bufs, s.ReadStart, s.Capacity, s.Lens, s.BaseOffset, s.WrittenRanges, data,
                      bufs2, t.ReadStart, t.Capacity, t.Lens, t.BaseOffset);
    }
  }

  /** The header a full drain leaves describes the chunk list it leaves. */
  lemma FullyDrainedShape(s: State, cs: seq<RecvChunk>, data: map<nat, byte>, d: nat)
    requires Invariant(s, cs, data) && CanFullyDrain(s, d)
    ensures var t := FullyDrained(s, d).0; var cs2 := FullyDrainedChunks(s, cs);
      WellFormed(cs2) && LensOf(cs2) == t.Lens && RefsOf(cs2) == t.Refs && Fits(Contents(cs2), t.Lens)
    ensures |cs| > 1 ==> Contents(FullyDrainedChunks(s, cs)) == Contents(cs)[1..]
  {
    var c := FullDrainReleasedChunks(s.RecvMode, cs);
    MarkedChunk(cs, 0, false);
    assert LensOf(c) == LensOf(cs) && Contents(c) == Contents(cs) && WellFormed(c);
    if |cs| > 1 {
      ChunksTail(c);
    }
  }

  /** Drain's first step keeps every accepted byte where it is. */
  lemma DrainPreparedKeeps(s: State, cs: seq<RecvChunk>, data: map<nat, byte>, cs2: seq<RecvChunk>, d: nat)
    requires Invariant(s, cs, data) && s.Lens != [] && StartsAtZero(s.WrittenRanges) && d <= s.ReadPendingLength
    requires s.RecvMode == Multiple ==> cs2 == cs
    requires s.RecvMode != Multiple ==>
      LensOf(cs2) == LensOf(cs) && Contents(cs2) == Contents(cs) && RefsOf(cs2) == seq(|cs|, i => false) &&
      WellFormed(cs2)
    ensures Invariant(DrainPrepared(s), cs2, data)
  {
    DrainPreparedDrainable(s, d);
  }

  /** Drain's loop over the chunk list (outside multiple mode): every
      chunk loses its external reference, nothing else changes. */
  method ReleaseReferences(cs: seq<RecvChunk>) returns (cs2: seq<RecvChunk>)
    ensures LensOf(cs2) == LensOf(cs) && Contents(cs2) == Contents(cs)
    ensures RefsOf(cs2) == seq(|cs|, i => false)
    ensures WellFormed(cs) ==> WellFormed(cs2)
  {
    cs2 := cs;
    var i := 0;
    while i < |cs2|
      invariant i <= |cs2| == |cs|
      invariant LensOf(cs2) == LensOf(cs) && Contents(cs2) == Contents(cs)
      invariant forall k :: 0 <= k < i ==> !cs2[k].ExternalReference
    {
      cs2 := cs2[i := cs2[i].(ExternalReference := false)];
      i := i + 1;
    }
  }

  class RecvBuffer {
    /** Stream offset of the first byte not yet drained. */
    var BaseOffset: nat
    /** Index in the first chunk's buffer of the byte at BaseOffset. */
    var ReadStart: nat
    /** Bytes handed to the application by Read and not yet drained. */
    var ReadPendingLength: nat
    /** Readable bytes held by the first chunk. */
    var ReadLength: nat
    /** Usable bytes of the first chunk, counted from ReadStart. */
    var Capacity: nat
    /** Bytes after BaseOffset the peer may write (the stream flow-control window). */
    var VirtualBufferLength: nat
    const RecvMode: RecvBufMode
    const PreallocatedChunk: Option<RecvChunk>
    /** A chunk replaced while the application still referenced it. */
    var RetiredChunk: Option<RecvChunk>
    var WrittenRanges: seq<Subrange>
    var Chunks: seq<RecvChunk>

    /** The byte accepted at each stream offset ever written. */
    ghost var Data: map<nat, byte>

    /** The header as a value. */
    function St(): State
      reads this
    {
      State(RecvMode, BaseOffset, ReadStart, ReadPendingLength, ReadLength, Capacity,
            VirtualBufferLength, WrittenRanges, LensOf(Chunks), RefsOf(Chunks), RetiredChunk.Some?)
    }

    ghost predicate Valid()
      reads this
    {
      Invariant(St(), Chunks, Data)
    }

    /** The byte stored rel positions after BaseOffset. */
    ghost function ByteAt(rel: nat): byte
      reads this
      requires Valid() && rel < St().Total()
    {
      ByteOf(Contents(Chunks), ReadStart, Capacity, LensOf(Chunks), rel)
    }

    /** The buffers a read returned hold the bytes accepted from BufferOffset
        up to the end of the data handed out. */
    ghost predicate HandedOut(BufferOffset: nat, Buffers: seq<QuicBuffer>)
      reads this
    {
      HandedOutOf(Data, BaseOffset, ReadPendingLength, BufferOffset, Buffers)
    }

    constructor Empty(mode: RecvBufMode, preallocated: Option<RecvChunk>)
      ensures RecvMode == mode && PreallocatedChunk == preallocated
      ensures St() == Initial(mode, 0, 0).(Lens := [], Refs := [], Capacity := 0, VirtualBufferLength := 0)
      ensures Chunks == [] && Data == map[]
    {
      BaseOffset, ReadStart, ReadPendingLength, ReadLength := 0, 0, 0, 0;
      Capacity, VirtualBufferLength := 0, 0;
      RecvMode := mode;
      PreallocatedChunk := preallocated;
      RetiredChunk := None;
      WrittenRanges, Chunks := [], [];
      Data := map[];
    }

    /**
     * QuicRecvBufferInitialize.  Outside app-owned mode the buffer starts with
     * one chunk of AllocBufferLength bytes: the preallocated chunk when one is
     * given, otherwise a new one, whose allocation may fail.
     */
    static method Initialize(AllocBufferLength: nat, VirtualBufferLength: nat, RecvMode: RecvBufMode,
                             PreallocatedChunk: Option<RecvChunk>, allocSucceeds: bool)
      returns (status: QuicStatus, rb: RecvBuffer?)
      requires AllocBufferLength != 0 || RecvMode == AppOwned
      requires VirtualBufferLength != 0 || RecvMode == AppOwned
      requires AllocBufferLength == 0 || Geometry.IsPowerOfTwo(AllocBufferLength)
      requires VirtualBufferLength == 0 || Geometry.IsPowerOfTwo(VirtualBufferLength)
      requires AllocBufferLength <= VirtualBufferLength <= UINT32_MAX
      requires PreallocatedChunk.Some? && RecvMode != AppOwned ==>
        PreallocatedChunk.value.AllocLength == AllocBufferLength == |PreallocatedChunk.value.Buffer| &&
        !PreallocatedChunk.value.ExternalReference
      ensures status == Success || status == OutOfMemory
      ensures status == OutOfMemory <==> RecvMode != AppOwned && PreallocatedChunk.None? && !allocSucceeds
      ensures status == OutOfMemory ==> rb == null
      ensures status == Success ==>
        rb != null && fresh(rb) && rb.Valid() &&
        rb.St() == Initial(RecvMode, AllocBufferLength, VirtualBufferLength) && rb.Data == map[] &&
        (RecvMode != AppOwned && PreallocatedChunk.Some? ==> rb.Chunks == [PreallocatedChunk.value])
    {
      rb := new RecvBuffer.Empty(RecvMode, PreallocatedChunk);
      if RecvMode != AppOwned {
        var chunk: RecvChunk;
        if PreallocatedChunk.Some? {
          chunk := PreallocatedChunk.value;
        } else {
          if !allocSucceeds {
            return OutOfMemory, null;
          }
          chunk := ChunkInitialize(Allocated(AllocBufferLength), false);
        }
        rb.Chunks := [chunk];
        rb.Capacity := AllocBufferLength;
        rb.VirtualBufferLength := VirtualBufferLength;
        assert VirtualBufferLength <= MAX_GROWABLE_LENGTH by {
          PowerOfTwoMax();
          Geometry.PowerOfTwoGap(MAX_GROWABLE_LENGTH, VirtualBufferLength);
        }
      }
      assert rb.St() == Initial(RecvMode, AllocBufferLength, VirtualBufferLength);
      InitialConsistent(RecvMode, AllocBufferLength, VirtualBufferLength);
      status := Success;
    }

    /** QuicRecvBufferGetTotalLength: one past the largest written offset. */
    function GetTotalLength(): (r: nat)
      reads this
      requires Valid()
      ensures r >= BaseOffset
      ensures forall o :: Covers(WrittenRanges, o) ==> o < r
      ensures r > 0 ==> Covers(WrittenRanges, r - 1)
    {
      MaxEndBounds(WrittenRanges);
      PrefixEndCovered(WrittenRanges);
      PrefixEndBelowMaxEnd(WrittenRanges);
      MaxEnd(WrittenRanges)
    }

    /** QuicRecvBufferGetSpan: how much of the chunks the written data
        occupies from BaseOffset, gaps included. */
    function GetSpan(): (r: nat)
      reads this
      requires Valid()
      ensures forall o :: BaseOffset <= o && Covers(WrittenRanges, o) ==> o - BaseOffset < r
      ensures r > 0 ==> Covers(WrittenRanges, BaseOffset + r - 1)
      ensures r <= St().Total() && r == SpanOf(St())
    {
      GetTotalLength() - BaseOffset
    }

    /** QuicRecvBufferHasUnreadData: the byte after those handed out is written. */
    function HasUnreadData(): (r: bool)
      reads this
      requires Valid()
      ensures r <==> Covers(WrittenRanges, BaseOffset + ReadPendingLength)
      ensures r <==> St().Contig() > ReadPendingLength
    {
      PrefixEndCovered(WrittenRanges);
      StartsAtZeroIffCovered(WrittenRanges);
      if WrittenRanges == [] || WrittenRanges[0].Low != 0 then false
      else WrittenRanges[0].Count - BaseOffset > ReadPendingLength
    }

    /** QuicRecvBufferIncreaseVirtualBufferLength: the peer may now write further. */
    method IncreaseVirtualBufferLength(NewLength: nat)
      requires Valid() && RecvMode != AppOwned
      requires VirtualBufferLength <= NewLength <= MAX_GROWABLE_LENGTH
      modifies this`VirtualBufferLength
      ensures Valid() && St() == old(St()).(VirtualBufferLength := NewLength)
    {
      VirtualBufferLength := NewLength;
    }

    /** QuicRecvBufferGetTotalAllocLength: bytes after BaseOffset the chunks can hold. */
    method GetTotalAllocLength() returns (AllocLength: nat)
      requires Valid() && Chunks != []
      ensures AllocLength == St().Total()
      ensures forall o :: BaseOffset <= o && Covers(WrittenRanges, o) ==> o < BaseOffset + AllocLength
    {
      MaxEndBounds(WrittenRanges);
      if RecvMode == Single || RecvMode == Circular {
        return Chunks[|Chunks| - 1].AllocLength;
      }
      if RecvMode == Multiple && |Chunks| == 1 {
        return Chunks[0].AllocLength;
      }
      var lens := LensOf(Chunks);
      AllocLength := Capacity;
      var i := 0;
      while i + 1 < |Chunks|
        invariant 0 <= i < |Chunks|
        invariant AllocLength == Capacity + Geometry.Sum(lens[1..i + 1])
      {
        assert lens[1..i + 2] == lens[1..][..i + 1];
        assert lens[1..i + 1] == lens[1..][..i];
        Geometry.SumPrefixStep(lens[1..], i);
        i := i + 1;
        AllocLength := AllocLength + Chunks[i].AllocLength;
      }
      assert lens[1..i + 1] == lens[1..];
    }

    /**
     * QuicRecvBufferReadBufferNeededCount: how many buffers a Read needs to
     * return all readable data.  In app-owned mode it is the number of chunks,
     * from the first, that hold the bytes from BaseOffset to the end of the
     * first written range.
     */
    method ReadBufferNeededCount() returns (BufferCount: nat)
      requires Valid()
      requires RecvMode == AppOwned && WrittenRanges != [] ==> Chunks != []
      ensures RecvMode == Single ==> BufferCount == 1
      ensures RecvMode == Circular ==> BufferCount == 2
      ensures RecvMode == Multiple ==> BufferCount == 3
      ensures RecvMode == AppOwned && WrittenRanges == [] ==> BufferCount == 0
      ensures RecvMode == AppOwned && WrittenRanges != [] ==>
        var readable := FirstRangeRest(St());
        1 <= BufferCount <= |Chunks| && readable <= St().StartOf(BufferCount) &&
        forall n :: 1 <= n < BufferCount ==> St().StartOf(n) < readable
    {
      if RecvMode == Single {
        return 1;
      }
      if RecvMode == Circular {
        return 2;
      }
      if RecvMode == Multiple {
        return 3;
      }
      if WrittenRanges == [] {
        return 0;
      }
      ghost var s := St();
      var ReadableData := WrittenRanges[0].Count - BaseOffset;
      assert ReadableData <= s.Total() by {
        MaxEndBounds(WrittenRanges);
        assert WrittenRanges[0].End() <= MaxEnd(WrittenRanges);
        Geometry.ChunkStartLast(Capacity, s.Lens);
      }
      var DataInChunks := Capacity;
      BufferCount := 1;
      while ReadableData > DataInChunks
        invariant 1 <= BufferCount <= |Chunks|
        invariant DataInChunks == s.StartOf(BufferCount)
        invariant forall n :: 1 <= n < BufferCount ==> s.StartOf(n) < ReadableData
        decreases |Chunks| - BufferCount
      {
        if BufferCount == |Chunks| {
          Geometry.ChunkStartLast(Capacity, s.Lens);
        }
        Geometry.ChunkStartStep(Capacity, s.Lens, BufferCount);
        DataInChunks := DataInChunks + Chunks[BufferCount].AllocLength;
        BufferCount := BufferCount + 1;
      }
    }

    /**
     * QuicRecvBufferProvideChunks (app-owned mode): the application's chunks
     * are appended, unless the buffer would then exceed UINT32_MAX bytes.
     */
    method ProvideChunks(NewChunks: seq<RecvChunk>) returns (status: QuicStatus)
      requires Valid() && RecvMode == AppOwned && NewChunks != [] && WellFormed(NewChunks)
      requires forall i :: 0 <= i < |NewChunks| ==> NewChunks[i].AllocLength > 0
      modifies this`Chunks, this`Capacity, this`VirtualBufferLength
      ensures Valid()
      ensures status == Success || status == InvalidParameter
      ensures status == InvalidParameter <==>
        old(VirtualBufferLength) + Geometry.Sum(LensOf(NewChunks)) > UINT32_MAX
      ensures status == InvalidParameter ==> St() == old(St()) && Chunks == old(Chunks)
      ensures status == Success ==>
        Chunks == old(Chunks) + NewChunks &&
        St() == Provided(old(St()), LensOf(NewChunks), RefsOf(NewChunks)) &&
        St().Total() == old(St().Total()) + Geometry.Sum(LensOf(NewChunks))
    {
      ghost var s0 := St();
      ghost var lens := LensOf(NewChunks);
      var NewBufferLength := VirtualBufferLength;
      var i := 0;
      while i < |NewChunks|
        invariant i <= |NewChunks|
        invariant NewBufferLength == VirtualBufferLength + Geometry.Sum(lens[..i])
        modifies {}
      {
        Geometry.SumPrefixStep(lens, i);
        NewBufferLength := NewBufferLength + NewChunks[i].AllocLength;
        i := i + 1;
      }
      assert lens[..i] == lens;
      if NewBufferLength > UINT32_MAX {
        return InvalidParameter;
      }
      ghost var t := Provided(s0, lens, RefsOf(NewChunks));
      ProvidedKeeps(s0, Chunks, Data, NewChunks);
      if Chunks == [] {
        Capacity := NewChunks[0].AllocLength;
      }
      VirtualBufferLength := NewBufferLength;
      Chunks := Chunks + NewChunks;
      assert St() == t;
      status := Success;
    }

    /**
     * QuicRecvBufferResize: a new last chunk of TargetBufferLength bytes,
     * whose allocation may fail.  An unreferenced last chunk is copied into it
     * and freed (the only chunk is copied from its read start, wrapping
     * around); a referenced one stays in multiple mode, and otherwise is
     * copied and retired.  No accepted byte is lost.
     */
    method Resize(TargetBufferLength: nat, allocSucceeds: bool, ghost s0: State, ghost cs0: seq<RecvChunk>)
      returns (ok: bool)
      requires Valid() && RecvMode != AppOwned && s0 == St() && cs0 == Chunks
      requires Geometry.IsPowerOfTwo(TargetBufferLength)
      requires Chunks[|Chunks| - 1].AllocLength < TargetBufferLength
      modifies this`Chunks, this`ReadStart, this`Capacity, this`RetiredChunk
      ensures Valid()
      ensures ok == allocSucceeds
      ensures !ok ==> St() == s0 && Chunks == cs0
      ensures ok ==> St() == Resized(s0, TargetBufferLength)
      ensures ok ==> Chunks == ResizedChunks(s0, cs0, TargetBufferLength)
    {
      var last := |Chunks| - 1;
      var LastChunk := Chunks[last];
      var LastChunkIsFirst := last == 0;
      if !allocSucceeds {
        return false;
      }
      if !LastChunk.ExternalReference {
        if LastChunkIsFirst {
          CopyIntoNewFirstChunk(TargetBufferLength, false);
        } else {
          ResizedReplaceLastKeeps(s0, cs0, Data, TargetBufferLength);
          var NewChunk := ChunkInitialize(Allocated(TargetBufferLength), false);
          NewChunk := NewChunk.(Buffer := CopyMemory(NewChunk.Buffer, 0, LastChunk.Buffer, 0, LastChunk.AllocLength));
          Chunks := Chunks[..last] + [NewChunk];
        }
        return true;
      }
      if RecvMode == Multiple {
        ResizedAppendKeeps(s0, cs0, Data, TargetBufferLength);
        var NewChunk := ChunkInitialize(Allocated(TargetBufferLength), false);
        Chunks := Chunks + [NewChunk];
        return true;
      }
      CopyIntoNewFirstChunk(TargetBufferLength, true);
      return true;
    }

    /**
     * The two branches of QuicRecvBufferResize that copy the only chunk into
     * the new one from ReadStart on, so that the data starts at index 0: an
     * unreferenced chunk is freed, a referenced one becomes the retired chunk.
     */
    method CopyIntoNewFirstChunk(TargetBufferLength: nat, Retire: bool)
      requires Valid() && RecvMode != AppOwned
      requires Geometry.IsPowerOfTwo(TargetBufferLength)
      requires Chunks[|Chunks| - 1].AllocLength < TargetBufferLength
      requires Retire == Chunks[|Chunks| - 1].ExternalReference
      requires Retire ==> RecvMode != Multiple
      requires !Retire ==> |Chunks| == 1
      modifies this`Chunks, this`ReadStart, this`Capacity, this`RetiredChunk
      ensures Valid()
      ensures St() == Resized(old(St()), TargetBufferLength)
      ensures Chunks == ResizedChunks(old(St()), old(Chunks), TargetBufferLength)
    {
      ghost var s0 := St();
      ghost var cs0 := Chunks;
      var LastChunk := Chunks[|Chunks| - 1];
      var Span := GetSpan();
      if !Retire && Span < LastChunk.AllocLength {
        Span := LastChunk.AllocLength;
      }
      ResizedOnlyKeeps(s0, cs0, Data, TargetBufferLength, Span);
      var NewChunk := ChunkInitialize(Allocated(TargetBufferLength), false);
      NewChunk := NewChunk.(Buffer := CopyFromReadStart(NewChunk.Buffer, LastChunk.Buffer, ReadStart, Span));
      ReadStart, Capacity := 0, NewChunk.AllocLength;
      Chunks := [NewChunk];
      if Retire {
        RetiredChunk := Some(LastChunk);
      }
    }

    /**
     * QuicRecvBufferCopyIntoChunks: the part of the write at or after
     * BaseOffset is copied to where the chunks keep those offsets.  Single
     * and circular mode copy into the one chunk, wrapping at its end; the
     * other modes go through the chunk list.  ReadLength is refreshed from
     * the first written range.
     */
    method CopyIntoChunks(WriteOffset: nat, WriteBuffer: seq<byte>,
                          ghost s: State, ghost cs: seq<RecvChunk>, ghost from: nat, ghost c: seq<byte>)
      requires s == St() && cs == Chunks
      requires WellFormed(cs) && Fits(Contents(cs), LensOf(cs)) && Geometry.Shape(s.ReadStart, s.Capacity, LensOf(cs))
      requires s.RecvMode == Single || s.RecvMode == Circular ==> |cs| == 1
      requires s.RecvMode != AppOwned && |cs| == 1 ==> s.Capacity == cs[0].AllocLength
      requires s.WrittenRanges != [] && s.BaseOffset <= s.WrittenRanges[0].Count
      requires 0 < |WriteBuffer| && s.BaseOffset < WriteOffset + |WriteBuffer| <= s.BaseOffset + Geometry.Total(s.Capacity, LensOf(cs))
      requires from == ClippedFrom(s.BaseOffset, WriteOffset) && c == Clipped(s.BaseOffset, WriteOffset, WriteBuffer)
      modifies this`Chunks, this`ReadLength
      ensures Chunks == CopiedChunks(cs, s.ReadStart, s.Capacity, from, c)
      ensures ReadLength == CopiedReadLength(s, from)
    {
      assert s.WrittenRanges[0].Count >= s.BaseOffset;
      var Offset: nat, Length: nat, Buffer := WriteOffset, |WriteBuffer|, WriteBuffer;
      if Offset < BaseOffset {
        var Diff := BaseOffset - Offset;
        Offset, Length, Buffer := Offset + Diff, Length - Diff, Buffer[Diff..];
      }
      assert Buffer == Clipped(BaseOffset, WriteOffset, WriteBuffer) && Length == |Buffer|;
      var RelativeOffset: nat := Offset - BaseOffset;
      assert RelativeOffset == ClippedFrom(BaseOffset, WriteOffset);
      var FirstRangeCount := WrittenRanges[0].Count;
      if RecvMode == Single || RecvMode == Circular {
        var Chunk := Chunks[0];
        var ChunkOffset := (ReadStart + RelativeOffset) % Chunk.AllocLength;
        OnlyChunkCopied(Chunks, ReadStart, Capacity, RelativeOffset, Buffer);
        Chunks := [Chunk.(Buffer := CopyWrapped(Chunk.Buffer, ChunkOffset, Buffer, 0, Length))];
        ReadLength := FirstRangeCount - BaseOffset;
        return;
      }
      if RecvMode == Multiple && |Chunks| == 1 {
        ReadLength := FirstRangeCount - BaseOffset;
      } else if RelativeOffset < Capacity {
        ReadLength := FirstRangeCount - BaseOffset;
        if Capacity < ReadLength {
          ReadLength := Capacity;
        }
      }
      Chunks := CopyIntoChunkList(Chunks, ReadStart, Capacity, RelativeOffset, Buffer);
    }

    /**
     * QuicRecvBufferWrite: accepts WriteBuffer at stream offset WriteOffset.
     * WriteLimit is how much new data the caller still allows (flow control)
     * on the way in and how much this write added on the way out.
     */
    method Write(WriteOffset: nat, WriteBuffer: seq<byte>, WriteLimitIn: nat, allocSucceeds: bool, rangeAllocSucceeds: bool)
      returns (status: QuicStatus, WriteLimit: nat, ReadyToRead: bool)
      requires Valid() && 0 < |WriteBuffer|
      modifies this`WrittenRanges, this`Chunks, this`ReadLength, this`ReadStart, this`Capacity, this`RetiredChunk, this`Data
      ensures Valid()
      ensures WriteOutcome(status, WriteLimit, ReadyToRead, St(), Chunks, Data) ==
        WriteResult(old(St()), old(Chunks), old(Data), WriteOffset, WriteBuffer, WriteLimitIn, allocSucceeds, rangeAllocSucceeds)
    {
      ghost var s0, cs0, d0 := St(), Chunks, Data;
      WriteLimit := WriteLimitIn;
      ReadyToRead := false;
      var AbsoluteLength := WriteOffset + |WriteBuffer|;
      if AbsoluteLength <= BaseOffset {
        WriteLimit := 0;
        return Success, WriteLimit, ReadyToRead;
      }
      if AbsoluteLength > BaseOffset + VirtualBufferLength {
        return BufferTooSmall, WriteLimit, ReadyToRead;
      }
      var CurrentMaxLength := GetTotalLength();
      if AbsoluteLength > CurrentMaxLength {
        if AbsoluteLength - CurrentMaxLength > WriteLimit {
          return BufferTooSmall, WriteLimit, ReadyToRead;
        }
        WriteLimit := AbsoluteLength - CurrentMaxLength;
      } else {
        WriteLimit := 0;
      }
      status, ReadyToRead :=
        WriteWithinLimits(WriteOffset, WriteBuffer, WriteLimitIn, WriteLimit, allocSucceeds, rangeAllocSucceeds, s0, cs0, d0);
    }

    /** The part of QuicRecvBufferWrite past its limit checks: grows the
        chunks when the write ends beyond them, then records it. */
    method WriteWithinLimits(WriteOffset: nat, WriteBuffer: seq<byte>, ghost WriteLimitIn: nat, WriteLimit: nat,
                             allocSucceeds: bool, rangeAllocSucceeds: bool,
                             ghost s0: State, ghost cs0: seq<RecvChunk>, ghost d0: map<nat, byte>)
      returns (status: QuicStatus, ReadyToRead: bool)
      requires Valid() && 0 < |WriteBuffer| && s0 == St() && cs0 == Chunks && d0 == Data
      requires s0.BaseOffset < WriteOffset + |WriteBuffer| <= s0.BaseOffset + s0.VirtualBufferLength
      requires !(WriteOffset + |WriteBuffer| > MaxEnd(s0.WrittenRanges) &&
                 WriteOffset + |WriteBuffer| - MaxEnd(s0.WrittenRanges) > WriteLimitIn)
      requires WriteLimit == if WriteOffset + |WriteBuffer| > MaxEnd(s0.WrittenRanges)
                             then WriteOffset + |WriteBuffer| - MaxEnd(s0.WrittenRanges) else 0
      modifies this`WrittenRanges, this`Chunks, this`ReadLength, this`ReadStart, this`Capacity, this`RetiredChunk, this`Data
      ensures Valid()
      ensures WriteOutcome(status, WriteLimit, ReadyToRead, St(), Chunks, Data) ==
        WriteResult(s0, cs0, d0, WriteOffset, WriteBuffer, WriteLimitIn, allocSucceeds, rangeAllocSucceeds)
    {
      var AbsoluteLength := WriteOffset + |WriteBuffer|;
      if RecvMode != AppOwned {
        var AllocLength := GetTotalAllocLength();
        if AbsoluteLength > BaseOffset + AllocLength {
          LastWithinTotal(s0);
          var NewBufferLength := DoubledLength(Chunks[|Chunks| - 1].AllocLength, AbsoluteLength - BaseOffset);
          status, ReadyToRead :=
            GrowThenRecord(WriteOffset, WriteBuffer, WriteLimitIn, WriteLimit, NewBufferLength,
                           allocSucceeds, rangeAllocSucceeds, s0, cs0, d0);
          return;
        }
      }
      WriteResultInPlace(s0, cs0, d0, WriteOffset, WriteBuffer, WriteLimitIn, allocSucceeds, rangeAllocSucceeds, WriteLimit);
      status, ReadyToRead := RecordWrite(WriteOffset, WriteBuffer, WriteLimit, rangeAllocSucceeds, s0, cs0, d0);
    }

    /** The part of QuicRecvBufferWrite that grows the last chunk, then records the write. */
    method GrowThenRecord(WriteOffset: nat, WriteBuffer: seq<byte>, ghost WriteLimitIn: nat, WriteLimit: nat,
                          NewBufferLength: nat, allocSucceeds: bool, rangeAllocSucceeds: bool,
                          ghost s0: State, ghost cs0: seq<RecvChunk>, ghost d0: map<nat, byte>)
      returns (status: QuicStatus, ReadyToRead: bool)
      requires Valid() && 0 < |WriteBuffer| && s0 == St() && cs0 == Chunks && d0 == Data
      requires s0.BaseOffset < WriteOffset + |WriteBuffer| <= s0.BaseOffset + s0.VirtualBufferLength
      requires !(WriteOffset + |WriteBuffer| > MaxEnd(s0.WrittenRanges) &&
                 WriteOffset + |WriteBuffer| - MaxEnd(s0.WrittenRanges) > WriteLimitIn)
      requires WriteLimit == if WriteOffset + |WriteBuffer| > MaxEnd(s0.WrittenRanges)
                             then WriteOffset + |WriteBuffer| - MaxEnd(s0.WrittenRanges) else 0
      requires s0.RecvMode != AppOwned && WriteOffset + |WriteBuffer| > s0.BaseOffset + s0.Total()
      requires NewBufferLength == Doubled(s0.Lens[|s0.Lens| - 1], WriteOffset + |WriteBuffer| - s0.BaseOffset)
      modifies this`WrittenRanges, this`Chunks, this`ReadLength, this`ReadStart, this`Capacity, this`RetiredChunk, this`Data
      ensures Valid()
      ensures WriteOutcome(status, WriteLimit, ReadyToRead, St(), Chunks, Data) ==
        WriteResult(s0, cs0, d0, WriteOffset, WriteBuffer, WriteLimitIn, allocSucceeds, rangeAllocSucceeds)
    {
      WriteResultGrown(s0, cs0, d0, WriteOffset, WriteBuffer, WriteLimitIn, rangeAllocSucceeds, WriteLimit, NewBufferLength);
      var ok := Resize(NewBufferLength, allocSucceeds, s0, cs0);
      if !ok {
        WriteResultNoMemory(s0, cs0, d0, WriteOffset, WriteBuffer, WriteLimitIn, rangeAllocSucceeds, WriteLimit);
        return OutOfMemory, false;
      }
      ResizedKeeps(s0, cs0, d0, NewBufferLength);
      ghost var s1, cs1 := St(), Chunks;
      status, ReadyToRead := RecordWrite(WriteOffset, WriteBuffer, WriteLimit, rangeAllocSucceeds, s1, cs1, d0);
    }

    /** The range update and copy that end QuicRecvBufferWrite. */
    method RecordWrite(WriteOffset: nat, WriteBuffer: seq<byte>, ghost WriteLimit: nat, rangeAllocSucceeds: bool,
                       ghost s0: State, ghost cs0: seq<RecvChunk>, ghost d0: map<nat, byte>)
      returns (status: QuicStatus, ReadyToRead: bool)
      requires Valid() && 0 < |WriteBuffer|
      requires s0 == St() && cs0 == Chunks && d0 == Data
      requires s0.BaseOffset < WriteOffset + |WriteBuffer| <= s0.BaseOffset + s0.Total()
      modifies this`WrittenRanges, this`Chunks, this`ReadLength, this`Data
      ensures Valid()
      ensures WriteOutcome(status, WriteLimit, ReadyToRead, St(), Chunks, Data) ==
        Recorded(s0, cs0, d0, WriteOffset, WriteBuffer, WriteLimit, rangeAllocSucceeds)
    {
      ghost var r := Recorded(s0, cs0, d0, WriteOffset, WriteBuffer, WriteLimit, rangeAllocSucceeds);
      if !rangeAllocSucceeds {
        return OutOfMemory, false;
      }
      var added := AddRange(WrittenRanges, WriteOffset, |WriteBuffer|);
      if !added.Updated {
        return Success, false;
      }
      ReadyToRead := added.UpdatedRange.Low == 0;
      status := Success;
      ghost var from, c := ClippedFrom(s0.BaseOffset, WriteOffset), Clipped(s0.BaseOffset, WriteOffset, WriteBuffer);
      ghost var data2 := WrittenData(d0, s0.BaseOffset, WriteOffset, WriteBuffer);
      ghost var cs2 := CopiedChunks(cs0, s0.ReadStart, s0.Capacity, from, c);
      ghost var t := Written(s0, WriteOffset, |WriteBuffer|);
      RecordedUpdated(s0, cs0, d0, WriteOffset, WriteBuffer, WriteLimit, from, c, t, cs2, data2);
      StoreWrite(WriteOffset, WriteBuffer, added.Ranges, s0, cs0, d0, from, c, t, cs2, data2);
      WrittenKeeps(s0, cs0, d0, WriteOffset, WriteBuffer, from, c, t, cs2, data2);
    }

    /** Records the new range, then copies the bytes in (QuicRecvBufferCopyIntoChunks). */
    method StoreWrite(WriteOffset: nat, WriteBuffer: seq<byte>, Ranges: seq<Subrange>,
                      ghost s0: State, ghost cs0: seq<RecvChunk>, ghost d0: map<nat, byte>,
                      ghost from: nat, ghost c: seq<byte>, ghost t: State, ghost cs2: seq<RecvChunk>,
                      ghost data2: map<nat, byte>)
      requires s0 == St() && cs0 == Chunks && d0 == Data
      requires Consistent(s0) && s0.Lens == LensOf(cs0) && WellFormed(cs0) && Fits(Contents(cs0), s0.Lens)
      requires 0 < |WriteBuffer| && s0.BaseOffset < WriteOffset + |WriteBuffer| <= s0.BaseOffset + s0.Total()
      requires AddRange(s0.WrittenRanges, WriteOffset, |WriteBuffer|).Updated
      requires Ranges == AddRange(s0.WrittenRanges, WriteOffset, |WriteBuffer|).Ranges
      requires from == ClippedFrom(s0.BaseOffset, WriteOffset) && c == Clipped(s0.BaseOffset, WriteOffset, WriteBuffer)
      requires t == Written(s0, WriteOffset, |WriteBuffer|)
      requires cs2 == CopiedChunks(cs0, s0.ReadStart, s0.Capacity, from, c)
      requires data2 == WrittenData(d0, s0.BaseOffset, WriteOffset, WriteBuffer)
      modifies this`WrittenRanges, this`Chunks, this`ReadLength, this`Data
      ensures St() == t && Chunks == cs2 && Data == data2
    {
      WrittenFirstRange(s0, WriteOffset, |WriteBuffer|);
      WrittenRanges := Ranges;
      ghost var mid := s0.(WrittenRanges := Ranges);
      assert St() == mid;
      CopyIntoChunks(WriteOffset, WriteBuffer, mid, cs0, from, c);
      Data := data2;
      CopiedChunksKeep(cs0, mid.ReadStart, mid.Capacity, from, c);
      assert LensOf(Chunks) == mid.Lens && RefsOf(Chunks) == mid.Refs;
      assert St() == mid.(ReadLength := ReadLength);
      WrittenSteps(s0, WriteOffset, |WriteBuffer|, Ranges, from);
    }

    /**
     * QuicRecvBufferRead: hands the application the readable bytes not yet
     * handed out, as buffers into the chunks, and marks those chunks as
     * referenced.  BufferOffset is the stream offset of the first byte
     * handed out; the buffers carry, in order, the bytes accepted at
     * BufferOffset and the offsets after it, up to the new end of the
     * pending bytes.
     */
    method Read(ProvidedBufferCount: nat) returns (BufferOffset: nat, Buffers: seq<QuicBuffer>)
      requires Valid() && CanRead(St(), ProvidedBufferCount)
      modifies this`ReadPendingLength, this`Chunks
      ensures Valid() && St() == ReadState(old(St()), ProvidedBufferCount)
      ensures Contents(Chunks) == old(Contents(Chunks))
      ensures Sized(Buffers) && 1 <= |Buffers| <= ProvidedBufferCount
      ensures BufferOffset == old(BaseOffset + ReadPendingLength) && HandedOut(BufferOffset, Buffers)
      ensures RecvMode == Single ==> |Buffers| == 1
      ensures RecvMode == Circular ==>
        (|Buffers| == 2 <==> old(ReadStart + St().Contig()) > old(Chunks[0].AllocLength))
      ensures RecvMode == Multiple ==> |Buffers| <= 3
    {
      ghost var s0, cs0 := St(), Chunks;
      ReadStateConsistent(s0, ProvidedBufferCount);
      if RecvMode == Single || RecvMode == Circular {
        BufferOffset, Buffers := ReadOnlyChunk(ProvidedBufferCount, s0, cs0);
      } else if RecvMode == Multiple {
        BufferOffset, Buffers := ReadMultipleChunks(ProvidedBufferCount, s0, cs0);
      } else {
        BufferOffset, Buffers := ReadAppOwnedChunks(ProvidedBufferCount, s0, cs0);
      }
    }

    /** Read in single and circular mode: all readable bytes of the only
        chunk, from ReadStart on, wrapping at its end in circular mode. */
    method ReadOnlyChunk(ghost provided: nat, ghost s0: State, ghost cs0: seq<RecvChunk>)
      returns (BufferOffset: nat, Buffers: seq<QuicBuffer>)
      requires Valid() && s0 == St() && cs0 == Chunks && CanRead(s0, provided)
      requires RecvMode == Single || RecvMode == Circular
      modifies this`ReadPendingLength, this`Chunks
      ensures Valid() && St() == ReadState(s0, provided) && Contents(Chunks) == Contents(cs0)
      ensures Sized(Buffers) && BufferOffset == old(BaseOffset + ReadPendingLength) && HandedOut(BufferOffset, Buffers)
      ensures |Buffers| == if RecvMode == Circular && s0.ReadStart + s0.Contig() > s0.Lens[0] then 2 else 1
    {
      ReadableAccepted(s0, cs0, Data);
      assert s0.Total() == s0.Lens[0] by { assert s0.Lens[1..] == []; }
      var ContiguousLength := WrittenRanges[0].Count - BaseOffset;
      var Chunk := Chunks[0];
      ghost var w := Wrapped(Chunk.Buffer, ReadStart, ContiguousLength);
      BufferOffset := BaseOffset;
      ReadPendingLength := ReadPendingLength + ContiguousLength;
      Chunks := Chunks[0 := Chunk.(ExternalReference := true)];
      if RecvMode == Single {
        Buffers := [QuicBuffer(ContiguousLength, Chunk.Buffer[..ContiguousLength])];
        BytesOne(Buffers[0]);
        assert Bytes(Buffers) == w by {
          WrappedSlice(Chunk.Buffer, 0, ContiguousLength);
        }
      } else {
        Buffers := SplitAtEnd(Chunk.Buffer, ReadStart, ContiguousLength);
      }
      assert Bytes(Buffers) == Stored(Contents(cs0), s0.ReadStart, s0.Capacity, s0.Lens, 0, ContiguousLength) by {
        assert Contents(cs0)[0] == Chunk.Buffer;
        FromStartStored(Contents(cs0), s0.ReadStart, s0.Capacity, s0.Lens, ContiguousLength);
      }
      MarkedChunk(cs0, 0, true);
      ReadHandsOut(s0, cs0, Data, provided, Chunks, Buffers, 0, ContiguousLength, BufferOffset, ReadPendingLength);
      assert St() == s0.(ReadPendingLength := ReadPendingLength, Refs := RefsOf(Chunks));
    }

    /** Read in multiple mode: the unread bytes, from the chunk holding the
        first of them and, when they go past its end, from the next one. */
    method ReadMultipleChunks(ghost provided: nat, ghost s0: State, ghost cs0: seq<RecvChunk>)
      returns (BufferOffset: nat, Buffers: seq<QuicBuffer>)
      requires Valid() && s0 == St() && cs0 == Chunks && CanRead(s0, provided) && RecvMode == Multiple
      modifies this`ReadPendingLength, this`Chunks
      ensures Valid() && St() == ReadState(s0, provided) && Contents(Chunks) == Contents(cs0)
      ensures Sized(Buffers) && 1 <= |Buffers| <= 3
      ensures BufferOffset == old(BaseOffset + ReadPendingLength) && HandedOut(BufferOffset, Buffers)
    {
      var ContiguousLength := WrittenRanges[0].Count - BaseOffset;
      var UnreadLength := ContiguousLength - ReadPendingLength;
      Buffers, Chunks := MultipleBuffers(Chunks, ReadStart, ReadLength, ReadPendingLength, UnreadLength, s0);
      BufferOffset := BaseOffset + ReadPendingLength;
      ReadPendingLength := ReadPendingLength + UnreadLength;
      ReadHandsOut(s0, cs0, Data, provided, Chunks, Buffers, s0.ReadPendingLength, UnreadLength, BufferOffset, ReadPendingLength);
      assert St() == s0.(ReadPendingLength := ReadPendingLength, Refs := RefsOf(Chunks));
    }

    /** Read in app-owned mode: the first chunk's readable bytes, then one
        buffer per following chunk, while buffers and readable bytes remain. */
    method ReadAppOwnedChunks(ProvidedBufferCount: nat, ghost s0: State, ghost cs0: seq<RecvChunk>)
      returns (BufferOffset: nat, Buffers: seq<QuicBuffer>)
      requires Valid() && s0 == St() && cs0 == Chunks && CanRead(s0, ProvidedBufferCount) && RecvMode == AppOwned
      modifies this`ReadPendingLength, this`Chunks
      ensures Valid() && St() == ReadState(s0, ProvidedBufferCount) && Contents(Chunks) == Contents(cs0)
      ensures Sized(Buffers) && |Buffers| == AppOwnedReadCount(s0, ProvidedBufferCount)
      ensures BufferOffset == old(BaseOffset + ReadPendingLength) && HandedOut(BufferOffset, Buffers)
    {
      ReadableAccepted(s0, cs0, Data);
      var ContiguousLength := WrittenRanges[0].Count - BaseOffset;
      var RemainingDataToRead;
      Buffers, Chunks, RemainingDataToRead :=
        AppOwnedBuffers(Chunks, ReadStart, ReadLength, ContiguousLength, ProvidedBufferCount, s0);
      BufferOffset := BaseOffset;
      ReadPendingLength := ContiguousLength - RemainingDataToRead;
      ReadHandsOut(s0, cs0, Data, ProvidedBufferCount, Chunks, Buffers, 0, ReadPendingLength, BufferOffset, ReadPendingLength);
      assert St() == s0.(ReadPendingLength := ReadPendingLength, Refs := RefsOf(Chunks));
    }

    /**
     * QuicRecvBufferPartialDrain: releases the first DrainLength bytes of
     * the first chunk.  Every byte written after them stays readable at its
     * stream offset.
     */
    method PartialDrain(DrainLength: nat)
      requires Valid() && CanPartiallyDrain(St(), DrainLength)
      modifies this`BaseOffset, this`ReadStart, this`Capacity, this`ReadLength, this`ReadPendingLength,
               this`VirtualBufferLength, this`Chunks
      ensures Valid() && St() == PartiallyDrained(old(St()), DrainLength)
      ensures Chunks == PartiallyDrainedChunks(old(St()), old(Chunks), DrainLength)
    {
      ghost var s0, cs0 := St(), Chunks;
      PartiallyDrainedKeeps(s0, cs0, Data, DrainLength);
      PartialDrainFields(DrainLength);
    }

    /** The field updates of QuicRecvBufferPartialDrain. */
    method PartialDrainFields(DrainLength: nat)
      requires Chunks != [] && |Chunks[0].Buffer| == Chunks[0].AllocLength > 0
      requires DrainLength <= ReadLength && DrainLength <= Chunks[0].AllocLength
      requires ShrinksFirst(St(), DrainLength) ==> DrainLength <= Capacity
      requires RecvMode == Multiple ==> DrainLength <= ReadPendingLength
      requires RecvMode == AppOwned ==> DrainLength <= VirtualBufferLength
      modifies this`BaseOffset, this`ReadStart, this`Capacity, this`ReadLength, this`ReadPendingLength,
               this`VirtualBufferLength, this`Chunks
      ensures St() == PartiallyDrained(old(St()), DrainLength)
      ensures Chunks == PartiallyDrainedChunks(old(St()), old(Chunks), DrainLength)
    {
      ghost var cs0 := Chunks;
      AdvanceFirstChunk(DrainLength);
      CountDrained(DrainLength);
      assert Chunks == PartiallyDrainedChunks(old(St()), cs0, DrainLength);
    }

    /** PartialDrain's first step: the first chunk gives up its first
        DrainLength bytes (moved out in single mode, skipped by the read
        start otherwise). */
    method AdvanceFirstChunk(DrainLength: nat)
      requires Chunks != [] && |Chunks[0].Buffer| == Chunks[0].AllocLength > 0
      requires DrainLength <= ReadLength && DrainLength <= Chunks[0].AllocLength
      requires ShrinksFirst(St(), DrainLength) ==> DrainLength <= Capacity
      modifies this`BaseOffset, this`ReadStart, this`Capacity, this`ReadLength, this`Chunks
      ensures St() == FirstChunkAdvanced(old(St()), DrainLength)
      ensures var b := old(Chunks[0].Buffer);
        Chunks == if DrainLength != 0 && RecvMode == Single
                  then old(Chunks)[0 := old(Chunks[0]).(Buffer := CopyMemory(b, 0, b, DrainLength, |b| - DrainLength))]
                  else old(Chunks)
    {
      ghost var s0 := St();
      var Chunk := Chunks[0];
      BaseOffset := BaseOffset + DrainLength;
      if DrainLength != 0 {
        if RecvMode == Single {
          var b := CopyMemory(Chunk.Buffer, 0, Chunk.Buffer, DrainLength, Chunk.AllocLength - DrainLength);
          RefilledChunk(Chunks, 0, b);
          Chunks := Chunks[0 := Chunk.(Buffer := b)];
        } else {
          ReadStart := (ReadStart + DrainLength) % Chunk.AllocLength;
          if RecvMode == AppOwned || |Chunks| > 1 {
            Capacity := Capacity - DrainLength;
          }
        }
        ReadLength := ReadLength - DrainLength;
      }
      assert St() == FirstChunkAdvanced(s0, DrainLength);
    }

    /** PartialDrain's second step: the drained bytes are counted off the
        handed-out ones (multiple mode) or the virtual length (app-owned). */
    method CountDrained(DrainLength: nat)
      requires Chunks != []
      requires RecvMode == Multiple ==> DrainLength <= ReadPendingLength
      requires RecvMode == AppOwned ==> DrainLength <= VirtualBufferLength
      modifies this`ReadPendingLength, this`VirtualBufferLength, this`Chunks
      ensures St() == DrainCounted(old(St()), DrainLength)
      ensures Chunks == if RecvMode == Multiple
                        then old(Chunks)[0 := old(Chunks[0]).(ExternalReference := old(ReadPendingLength) != DrainLength)]
                        else old(Chunks)
    {
      ghost var s0 := St();
      if RecvMode == Multiple {
        MarkedChunk(Chunks, 0, ReadPendingLength != DrainLength);
        Chunks := Chunks[0 := Chunks[0].(ExternalReference := ReadPendingLength != DrainLength)];
        ReadPendingLength := ReadPendingLength - DrainLength;
      } else if RecvMode == AppOwned {
        VirtualBufferLength := VirtualBufferLength - DrainLength;
      }
      assert St() == DrainCounted(s0, DrainLength);
    }

    /**
     * QuicRecvBufferFullDrain: releases the first chunk's readable bytes and
     * frees the chunk when others follow it (or in app-owned mode); returns
     * the drain length still to go.
     */
    method FullDrain(DrainLength: nat) returns (Rest: nat)
      requires Valid() && CanFullyDrain(St(), DrainLength)
      modifies this`BaseOffset, this`ReadStart, this`Capacity, this`ReadLength, this`ReadPendingLength,
               this`VirtualBufferLength, this`Chunks
      ensures Valid() && St() == FullyDrained(old(St()), DrainLength).0 && Rest == FullyDrained(old(St()), DrainLength).1
      ensures Chunks == FullyDrainedChunks(old(St()), old(Chunks))
    {
      ghost var s0, cs0 := St(), Chunks;
      ghost var t, cs2 := FullyDrained(s0, DrainLength).0, FullyDrainedChunks(s0, cs0);
      FullyDrainedKeeps(s0, cs0, Data, DrainLength, t, cs2);
      FullDrainSteps(s0, DrainLength);
      Rest := ReleaseFirstChunk(DrainLength);
      Rest := FreeFirstChunk(Rest);
      assert St() == t && Chunks == cs2;
    }

    /** QuicRecvBufferFullDrain up to the end of the first chunk's bytes. */
    method ReleaseFirstChunk(DrainLength: nat) returns (Rest: nat)
      requires Chunks != [] && WrittenRanges != []
      requires ReadLength <= DrainLength && BaseOffset + ReadLength <= WrittenRanges[0].Count
      requires RecvMode == Multiple ==> ReadLength <= ReadPendingLength
      requires RecvMode == AppOwned ==> ReadLength <= VirtualBufferLength
      modifies this`BaseOffset, this`ReadStart, this`ReadLength, this`ReadPendingLength,
               this`VirtualBufferLength, this`Chunks
      ensures St() == FullDrainReleased(old(St())) && Rest == DrainLength - old(ReadLength)
      ensures Chunks == FullDrainReleasedChunks(RecvMode, old(Chunks))
    {
      ghost var s0, cs0 := St(), Chunks;
      MarkedChunk(cs0, 0, false);
      var Chunk := Chunks[0];
      Rest := DrainLength - ReadLength;
      ReadStart := 0;
      BaseOffset := BaseOffset + ReadLength;
      if RecvMode == Multiple {
        Chunks := Chunks[0 := Chunk.(ExternalReference := false)];
        ReadPendingLength := ReadPendingLength - ReadLength;
      }
      if RecvMode == AppOwned {
        VirtualBufferLength := VirtualBufferLength - ReadLength;
      }
      ReadLength := WrittenRanges[0].Count - BaseOffset;
      assert St() == FullDrainReleased(s0);
    }

    /** The rest of QuicRecvBufferFullDrain: the drained first chunk is freed
        and the next one, if any, becomes the first. */
    method FreeFirstChunk(DrainLength: nat) returns (Rest: nat)
      requires Chunks != []
      modifies this`Capacity, this`ReadLength, this`Chunks
      ensures St() == FirstChunkFreed(old(St()))
      ensures Chunks == FirstChunkFreedChunks(RecvMode, old(Chunks))
      ensures Rest == if |old(Chunks)| == 1 then 0 else DrainLength
    {
      ghost var s0, cs0 := St(), Chunks;
      if |Chunks| == 1 {
        if RecvMode == AppOwned {
          Chunks := [];
          Capacity := 0;
        }
        assert St() == FirstChunkFreed(s0);
        return 0;
      }
      ChunksTail(cs0);
      Chunks := Chunks[1..];
      Capacity := Chunks[0].AllocLength;
      if Chunks[0].AllocLength < ReadLength {
        ReadLength := Chunks[0].AllocLength;
      }
      assert St() == FirstChunkFreed(s0);
      return DrainLength;
    }

    /**
     * QuicRecvBufferDrain: the application is done with DrainLength of the
     * bytes handed out.  BaseOffset moves on by exactly DrainLength and every
     * byte written after it stays readable at its stream offset.  The loop is
     * the source's; the value returned is DrainedCorrected's, TRUE exactly
     * when nothing contiguous is left to read (the loop's own value is
     * Drained's, see DrainReturnsTrueWithDataLeft).
     */
    method Drain(DrainLength: nat) returns (r: bool)
      requires Valid() && Chunks != [] && StartsAtZero(WrittenRanges) && DrainLength <= ReadPendingLength
      modifies this`BaseOffset, this`ReadStart, this`Capacity, this`ReadLength, this`ReadPendingLength,
               this`VirtualBufferLength, this`Chunks, this`RetiredChunk
      ensures Valid() && St() == Drained(old(St()), DrainLength).0
      ensures r == DrainedCorrected(old(St()), DrainLength).1
    {
      ghost var s0 := St();
      ghost var goal := Drained(s0, DrainLength);
      PrepareDrain(DrainLength);
      var Remaining := DrainLength;
      while true
        invariant Valid() && Drainable(St(), Remaining)
        invariant DrainLoop(St(), Remaining) == goal
        decreases |Chunks|
      {
        var Done;
        Done, r, Remaining := DrainStep(Remaining);
        if Done {
          r := ReadLength == 0;
          return;
        }
      }
    }

    /** Drain's first step: the retired chunk is freed and, outside multiple
        mode, every chunk loses its external reference and nothing counts as
        handed out any more. */
    method PrepareDrain(ghost DrainLength: nat)
      requires Valid() && Chunks != [] && StartsAtZero(WrittenRanges) && DrainLength <= ReadPendingLength
      modifies this`ReadPendingLength, this`Chunks, this`RetiredChunk
      ensures Valid() && St() == DrainPrepared(old(St())) && Drainable(St(), DrainLength)
    {
      ghost var s0, cs0 := St(), Chunks;
      if RetiredChunk.Some? {
        RetiredChunk := None;
      }
      if RecvMode != Multiple {
        Chunks := ReleaseReferences(Chunks);
        ReadPendingLength := 0;
      }
      DrainPreparedKeeps(s0, cs0, Data, Chunks, DrainLength);
      DrainPreparedDrainable(s0, DrainLength);
      assert St() == DrainPrepared(s0);
    }

    /**
     * One pass of Drain's loop: a partial drain of the first chunk ends the
     * loop with the value Drain returns; a full drain ends it once nothing is
     * left to drain and otherwise leaves fewer chunks and the rest to drain.
     */
    method DrainStep(DrainLength: nat) returns (Done: bool, r: bool, Rest: nat)
      requires Valid() && Drainable(St(), DrainLength)
      modifies this`BaseOffset, this`ReadStart, this`Capacity, this`ReadLength, this`ReadPendingLength,
               this`VirtualBufferLength, this`Chunks
      ensures Valid()
      ensures Done ==> St() == DrainLoop(old(St()), DrainLength).0 && r == DrainLoop(old(St()), DrainLength).1
      ensures !Done ==> Drainable(St(), Rest) && |Chunks| < old(|Chunks|) &&
                        DrainLoop(St(), Rest) == DrainLoop(old(St()), DrainLength)
    {
      ghost var s := St();
      var MoreDataReadable := ReadLength > DrainLength;
      var GapInChunk := |WrittenRanges| > 1 && BaseOffset + ReadLength == WrittenRanges[0].Count;
      var Partial := MoreDataReadable || GapInChunk;
      if RecvMode == Multiple {
        Partial := Partial && Capacity > DrainLength;
      } else if RecvMode == AppOwned {
        Partial := Capacity > DrainLength;
      }
      assert Partial == PartialStep(s, DrainLength);
      DrainLoopUnfold(s, DrainLength);
      if Partial {
        PartialDrain(DrainLength);
        return true, !MoreDataReadable, 0;
      }
      Rest := FullDrain(DrainLength);
      Done, r := Rest == 0, true;
    }

    /** QuicRecvBufferResetRead: single mode forgets an outstanding read. */
    method ResetRead()
      requires Valid() && RecvMode == Single
      modifies this`ReadPendingLength, this`Chunks
      ensures Valid() && St() == ResetReadState(old(St()))
      ensures Chunks == old(Chunks)[0 := old(Chunks)[0].(ExternalReference := false)]
    {
      ghost var s0 := St();
      ResetReadKeeps(s0, Chunks, Data);
      Chunks := Chunks[0 := Chunks[0].(ExternalReference := false)];
      ReadPendingLength := 0;
      assert St() == ResetReadState(s0);
    }
  }
}
