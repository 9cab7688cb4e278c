/**
 * The receive buffer's chunks (QUIC_RECV_CHUNK) and what a list of them
 * stores.  A chunk is one allocation of AllocLength bytes; the list is read
 * through Geometry.Locate, so the byte `rel` positions after BaseOffset is
 * ByteOf(buffers, ReadStart, Capacity, lengths, rel).  StoredIn is the storage half of
 * the receive buffer's invariant: every written offset from BaseOffset on
 * holds the byte accepted there.
 */
module RecvChunks {
  import opened Ranges
  import Geometry

  type byte = b: int | 0 <= b < 0x100

  datatype Option<T> = None | Some(value: T)

  /**
   * QUIC_RECV_CHUNK: one allocation of AllocLength bytes, held by value.
   * ExternalReference: the application holds a buffer pointing into it;
   * AppOwnedBuffer: the memory belongs to the application.
   */
  datatype RecvChunk = RecvChunk(AllocLength: nat, ExternalReference: bool, AppOwnedBuffer: bool, Buffer: seq<byte>)

  /** QuicRecvChunkInitialize: a chunk over the given memory, not referenced. */
  function ChunkInitialize(buffer: seq<byte>, appOwnedBuffer: bool): (c: RecvChunk)
    ensures c.AllocLength == |c.Buffer| && c.Buffer == buffer && !c.ExternalReference
    ensures c.AppOwnedBuffer == appOwnedBuffer
  {
    RecvChunk(|buffer|, false, appOwnedBuffer, buffer)
  }

  /** The chunk allocation lengths, in list order. */
  function LensOf(cs: seq<RecvChunk>): (r: seq<nat>)
    ensures |r| == |cs| && forall i :: 0 <= i < |cs| ==> r[i] == cs[i].AllocLength
  {
    seq(|cs|, i requires 0 <= i < |cs| => cs[i].AllocLength)
  }

  /** The chunks' external-reference flags, in list order. */
  function RefsOf(cs: seq<RecvChunk>): (r: seq<bool>)
    ensures |r| == |cs| && forall i :: 0 <= i < |cs| ==> r[i] == cs[i].ExternalReference
  {
    seq(|cs|, i requires 0 <= i < |cs| => cs[i].ExternalReference)
  }

  /** What each chunk's memory holds, in list order. */
  function Contents(cs: seq<RecvChunk>): (r: seq<seq<byte>>)
    ensures |r| == |cs| && forall i :: 0 <= i < |cs| ==> r[i] == cs[i].Buffer
  {
    seq(|cs|, i requires 0 <= i < |cs| => cs[i].Buffer)
  }

  /** Buffer contents that match the chunk lengths. */
  ghost predicate Fits(bufs: seq<seq<byte>>, lens: seq<nat>) {
    |bufs| == |lens| && forall i :: 0 <= i < |bufs| ==> |bufs[i]| == lens[i]
  }

  /** Every chunk's memory is as long as the chunk says. */
  ghost predicate WellFormed(cs: seq<RecvChunk>) {
    forall i :: 0 <= i < |cs| ==> |cs[i].Buffer| == cs[i].AllocLength
  }

  lemma ContentsFit(cs: seq<RecvChunk>)
    requires WellFormed(cs)
    ensures Fits(Contents(cs), LensOf(cs))
  {
  }

  /** The byte stored rel positions after BaseOffset. */
  ghost function ByteOf(bufs: seq<seq<byte>>, readStart: nat, capacity: nat, lens: seq<nat>, rel: nat): byte
    requires Fits(bufs, lens) && Geometry.Shape(readStart, capacity, lens)
    requires rel < Geometry.Total(capacity, lens)
  {
    var l := Geometry.Locate(readStart, capacity, lens, rel);
    bufs[l.0][l.1]
  }

  /** Every written offset o from `base` on was accepted (o in data) and is
      stored o - base positions after BaseOffset. */
  ghost predicate StoredIn(bufs: seq<seq<byte>>, readStart: nat, capacity: nat, lens: seq<nat>,
                           base: nat, written: seq<Subrange>, data: map<nat, byte>)
    requires Fits(bufs, lens) && Geometry.Shape(readStart, capacity, lens)
  {
    forall o: nat {:trigger Covers(written, o)} :: base <= o && Covers(written, o) ==>
      o in data && o - base < Geometry.Total(capacity, lens) &&
      ByteOf(bufs, readStart, capacity, lens, o - base) == data[o]
  }

  /** The bytes accepted at stream offsets [from, from + len). */
  ghost function DataAt(data: map<nat, byte>, from: nat, len: nat): (r: seq<byte>)
    requires forall o :: from <= o < from + len ==> o in data
    ensures |r| == len && forall i :: 0 <= i < len ==> r[i] == data[from + i]
  {
    seq(len, i requires 0 <= i < len => data[from + i])
  }

  lemma DataAtSplit(data: map<nat, byte>, from: nat, n: nat, m: nat)
    requires forall o :: from <= o < from + n + m ==> o in data
    ensures DataAt(data, from, n) + DataAt(data, from + n, m) == DataAt(data, from, n + m)
  {
  }

  /** The accepted bytes after w is accepted at stream offsets [from, from + |w|). */
  ghost function UpdatedData(data: map<nat, byte>, from: nat, w: seq<byte>): (r: map<nat, byte>)
    ensures forall o :: o in r <==> o in data || from <= o < from + |w|
    ensures forall o :: o in r ==> r[o] == if from <= o < from + |w| then w[o - from] else data[o]
  {
    map o | o in data.Keys + Offsets(from, |w|) :: if from <= o < from + |w| then w[o - from] else data[o]
  }

  /** The offsets [from, from + n). */
  function Offsets(from: nat, n: nat): (r: set<nat>)
    ensures forall o :: o in r <==> from <= o < from + n
  {
    if n == 0 then {} else Offsets(from, n - 1) + {from + n - 1}
  }

  // ---------------------------------------------------------------------
  // Moving the stored bytes

  /**
   * The stored bytes survive a change of layout that keeps, for the first n
   * positions of the new layout, the byte d positions further in the old one,
   * provided no written offset lies beyond base + d + n.
   */
  lemma StoredShifted(bufs: seq<seq<byte>>, rs: nat, cap: nat, lens: seq<nat>,
                      bufs2: seq<seq<byte>>, rs2: nat, cap2: nat, lens2: seq<nat>,
                      base: nat, d: nat, n: nat, written: seq<Subrange>, data: map<nat, byte>)
    requires Fits(bufs, lens) && Geometry.Shape(rs, cap, lens)
    requires Fits(bufs2, lens2) && Geometry.Shape(rs2, cap2, lens2)
    requires Normalized(written) && MaxEnd(written) <= base + d + n && n <= Geometry.Total(cap2, lens2)
    requires StoredIn(bufs, rs, cap, lens, base, written, data)
    requires forall rel: nat :: rel < n && rel + d < Geometry.Total(cap, lens) ==>
      ByteOf(bufs2, rs2, cap2, lens2, rel) == ByteOf(bufs, rs, cap, lens, rel + d)
    ensures StoredIn(bufs2, rs2, cap2, lens2, base + d, written, data)
  {
    MaxEndBounds(written);
  }

  /** Nothing needs storing when nothing is written from base on. */
  lemma StoredNothing(bufs: seq<seq<byte>>, rs: nat, cap: nat, lens: seq<nat>,
                      base: nat, written: seq<Subrange>, data: map<nat, byte>)
    requires Fits(bufs, lens) && Geometry.Shape(rs, cap, lens)
    requires Normalized(written) && MaxEnd(written) <= base
    ensures StoredIn(bufs, rs, cap, lens, base, written, data)
  {
    MaxEndBounds(written);
  }

  /** Chunks appended at the end move no byte. */
  lemma AppendKeeps(bufs: seq<seq<byte>>, more: seq<seq<byte>>, rs: nat, cap: nat, lens: seq<nat>,
                    lensMore: seq<nat>, bufs2: seq<seq<byte>>, lens2: seq<nat>)
    requires bufs != [] && Fits(bufs, lens) && Fits(more, lensMore)
    requires bufs2 == bufs + more && lens2 == lens + lensMore
    requires Geometry.Shape(rs, cap, lens) && Geometry.Shape(rs, cap, lens2)
    ensures Fits(bufs2, lens2)
    ensures Geometry.Total(cap, lens2) == Geometry.Total(cap, lens) + Geometry.Sum(lensMore)
    ensures forall rel: nat :: rel < Geometry.Total(cap, lens) ==>
      ByteOf(bufs2, rs, cap, lens2, rel) == ByteOf(bufs, rs, cap, lens, rel)
  {
    Geometry.TotalAppend(cap, lens, lensMore);
    forall rel: nat | rel < Geometry.Total(cap, lens)
      ensures ByteOf(bufs2, rs, cap, lens2, rel) == ByteOf(bufs, rs, cap, lens, rel)
    {
      Geometry.LocateStable(rs, cap, lens, lens2, rel);
    }
  }

  /** The last of several chunks replaced by a larger copy of it moves no byte. */
  lemma ReplaceLastKeeps(bufs: seq<seq<byte>>, b: seq<byte>, rs: nat, cap: nat, lens: seq<nat>,
                         bufs2: seq<seq<byte>>, lens2: seq<nat>)
    requires |bufs| >= 2 && Fits(bufs, lens)
    requires bufs2 == bufs[..|bufs| - 1] + [b] && lens2 == lens[..|lens| - 1] + [|b|]
    requires |bufs[|bufs| - 1]| <= |b| && b[..|bufs[|bufs| - 1]|] == bufs[|bufs| - 1]
    requires Geometry.Shape(rs, cap, lens) && Geometry.Shape(rs, cap, lens2)
    ensures Fits(bufs2, lens2)
    ensures Geometry.Total(cap, lens) <= Geometry.Total(cap, lens2)
    ensures forall rel: nat :: rel < Geometry.Total(cap, lens) ==>
      ByteOf(bufs2, rs, cap, lens2, rel) == ByteOf(bufs, rs, cap, lens, rel)
  {
    var last := |lens| - 1;
    Geometry.TotalReplaceLast(cap, lens, |b|);
    forall rel: nat | rel < Geometry.Total(cap, lens)
      ensures ByteOf(bufs2, rs, cap, lens2, rel) == ByteOf(bufs, rs, cap, lens, rel)
    {
      Geometry.LocateStable(rs, cap, lens, lens2, rel);
      var l := Geometry.Locate(rs, cap, lens, rel);
      if l.0 == last {
        assert b[l.1] == b[..|bufs[last]|][l.1];
      }
    }
  }

  /** The only chunk copied, from its read start and wrapping around, into a
      larger chunk read from its beginning: the first n bytes keep their places. */
  lemma RotatedKeeps(b0: seq<byte>, b: seq<byte>, rs: nat, n: nat)
    requires rs < |b0| && n <= |b0| <= |b|
    requires forall k :: 0 <= k < n ==> b[k] == b0[Geometry.Wrap(rs + k, |b0|)]
    ensures Fits([b], [|b|]) && Fits([b0], [|b0|])
    ensures Geometry.Shape(0, |b|, [|b|]) && Geometry.Shape(rs, |b0|, [|b0|])
    ensures forall rel: nat :: rel < n ==>
      ByteOf([b], 0, |b|, [|b|], rel) == ByteOf([b0], rs, |b0|, [|b0|], rel)
  {
  }

  /** Chunks appended at the end keep every accepted byte stored. */
  lemma AppendedStored(bufs: seq<seq<byte>>, more: seq<seq<byte>>, rs: nat, cap: nat, lens: seq<nat>,
                       lensMore: seq<nat>, bufs2: seq<seq<byte>>, lens2: seq<nat>,
                       base: nat, written: seq<Subrange>, data: map<nat, byte>)
    requires bufs != [] && Fits(bufs, lens) && Fits(more, lensMore)
    requires bufs2 == bufs + more && lens2 == lens + lensMore
    requires Geometry.Shape(rs, cap, lens) && Geometry.Shape(rs, cap, lens2)
    requires Normalized(written) && MaxEnd(written) <= base + Geometry.Total(cap, lens)
    requires StoredIn(bufs, rs, cap, lens, base, written, data)
    ensures Fits(bufs2, lens2) && StoredIn(bufs2, rs, cap, lens2, base, written, data)
  {
    AppendKeeps(bufs, more, rs, cap, lens, lensMore, bufs2, lens2);
    StoredShifted(bufs, rs, cap, lens, bufs2, rs, cap, lens2, base, 0, Geometry.Total(cap, lens), written, data);
  }

  /** The last of several chunks replaced by a larger copy keeps every accepted byte stored. */
  lemma ReplacedLastStored(bufs: seq<seq<byte>>, b: seq<byte>, rs: nat, cap: nat, lens: seq<nat>,
                           bufs2: seq<seq<byte>>, lens2: seq<nat>,
                           base: nat, written: seq<Subrange>, data: map<nat, byte>)
    requires |bufs| >= 2 && Fits(bufs, lens)
    requires bufs2 == bufs[..|bufs| - 1] + [b] && lens2 == lens[..|lens| - 1] + [|b|]
    requires |bufs[|bufs| - 1]| <= |b| && b[..|bufs[|bufs| - 1]|] == bufs[|bufs| - 1]
    requires Geometry.Shape(rs, cap, lens) && Geometry.Shape(rs, cap, lens2)
    requires Normalized(written) && MaxEnd(written) <= base + Geometry.Total(cap, lens)
    requires StoredIn(bufs, rs, cap, lens, base, written, data)
    ensures Fits(bufs2, lens2) && StoredIn(bufs2, rs, cap, lens2, base, written, data)
  {
    ReplaceLastKeeps(bufs, b, rs, cap, lens, bufs2, lens2);
    StoredShifted(bufs, rs, cap, lens, bufs2, rs, cap, lens2, base, 0, Geometry.Total(cap, lens), written, data);
  }

  /** The only chunk copied from its read start into a larger one read from its
      beginning keeps every accepted byte stored, when the copy spans them all. */
  lemma RotatedStored(b0: seq<byte>, b: seq<byte>, rs: nat, n: nat,
                      base: nat, written: seq<Subrange>, data: map<nat, byte>)
    requires rs < |b0| && n <= |b0| <= |b|
    requires forall k :: 0 <= k < n ==> b[k] == b0[Geometry.Wrap(rs + k, |b0|)]
    requires Geometry.Shape(rs, |b0|, [|b0|]) && Fits([b0], [|b0|])
    requires Normalized(written) && MaxEnd(written) <= base + n
    requires StoredIn([b0], rs, |b0|, [|b0|], base, written, data)
    ensures Fits([b], [|b|]) && Geometry.Shape(0, |b|, [|b|])
    ensures StoredIn([b], 0, |b|, [|b|], base, written, data)
  {
    RotatedKeeps(b0, b, rs, n);
    StoredShifted([b0], rs, |b0|, [|b0|], [b], 0, |b|, [|b|], base, 0, n, written, data);
  }

  /** Lengths, flags and contents of a concatenated chunk list. */
  lemma ChunksAppend(cs: seq<RecvChunk>, more: seq<RecvChunk>)
    ensures LensOf(cs + more) == LensOf(cs) + LensOf(more)
    ensures RefsOf(cs + more) == RefsOf(cs) + RefsOf(more)
    ensures Contents(cs + more) == Contents(cs) + Contents(more)
  {
  }

  /** Chunks appended to a list keep every accepted byte stored; appended to
      an empty list, there was nothing to keep. */
  lemma ProvidedStored(cs: seq<RecvChunk>, more: seq<RecvChunk>, rs: nat, cap: nat, cap2: nat,
                       base: nat, written: seq<Subrange>, data: map<nat, byte>)
    requires WellFormed(cs) && WellFormed(more)
    requires Geometry.Shape(rs, cap, LensOf(cs)) && Geometry.Shape(rs, cap2, LensOf(cs) + LensOf(more))
    requires cs != [] ==> cap2 == cap
    requires Normalized(written) && MaxEnd(written) <= base + Geometry.Total(cap, LensOf(cs))
    requires Fits(Contents(cs), LensOf(cs)) && StoredIn(Contents(cs), rs, cap, LensOf(cs), base, written, data)
    ensures LensOf(cs + more) == LensOf(cs) + LensOf(more) && RefsOf(cs + more) == RefsOf(cs) + RefsOf(more)
    ensures Fits(Contents(cs + more), LensOf(cs + more))
    ensures StoredIn(Contents(cs + more), rs, cap2, LensOf(cs + more), base, written, data)
  {
    ChunksAppend(cs, more);
    if cs == [] {
      StoredNothing(Contents(cs + more), rs, cap2, LensOf(cs + more), base, written, data);
    } else {
      AppendedStored(Contents(cs), Contents(more), rs, cap, LensOf(cs), LensOf(more),
                     Contents(cs + more), LensOf(cs + more), base, written, data);
    }
  }

  /** Moving the bytes after the first d of an only chunk to its front
      keeps every byte accepted from base + d on stored. */
  lemma MovedStored(b0: seq<byte>, b: seq<byte>, d: nat, base: nat, written: seq<Subrange>, data: map<nat, byte>)
    requires 0 < |b0| == |b| && d <= |b0|
    requires forall k :: 0 <= k < |b0| - d ==> b[k] == b0[k + d]
    requires Normalized(written) && MaxEnd(written) <= base + |b0|
    requires StoredIn([b0], 0, |b0|, [|b0|], base, written, data)
    ensures StoredIn([b], 0, |b|, [|b|], base + d, written, data)
  {
    MovedKeeps(b0, b, d);
    StoredShifted([b0], 0, |b0|, [|b0|], [b], 0, |b|, [|b|], base, d, |b|, written, data);
  }

  /** Single mode's partial drain moves the rest of the buffer d bytes to the front. */
  lemma MovedKeeps(b0: seq<byte>, b: seq<byte>, d: nat)
    requires 0 < |b0| == |b| && d <= |b0|
    requires forall k :: 0 <= k < |b0| - d ==> b[k] == b0[k + d]
    ensures Fits([b], [|b|]) && Fits([b0], [|b0|]) && Geometry.Shape(0, |b|, [|b|])
    ensures forall rel: nat :: rel + d < |b0| ==>
      ByteOf([b], 0, |b|, [|b|], rel) == ByteOf([b0], 0, |b0|, [|b0|], rel + d)
  {
  }

  /**
   * Advancing the read start of the first chunk by d (modulo its length),
   * shrinking its window by d or, for an only chunk, keeping it, moves every
   * byte d positions closer to BaseOffset.
   */
  lemma AdvancedKeeps(bufs: seq<seq<byte>>, rs: nat, rs2: nat, cap: nat, cap2: nat, lens: seq<nat>, d: nat)
    requires Fits(bufs, lens) && Geometry.Shape(rs, cap, lens) && lens != [] && d <= cap
    requires rs2 == Geometry.Wrap(rs + d, lens[0])
    requires cap2 == cap - d || (|lens| == 1 && cap2 == cap)
    requires Geometry.Shape(rs2, cap2, lens)
    ensures forall rel: nat :: rel < Geometry.Total(cap2, lens) && rel + d < Geometry.Total(cap, lens) ==>
      ByteOf(bufs, rs2, cap2, lens, rel) == ByteOf(bufs, rs, cap, lens, rel + d)
  {
    forall rel: nat | rel < Geometry.Total(cap2, lens) && rel + d < Geometry.Total(cap, lens)
      ensures ByteOf(bufs, rs2, cap2, lens, rel) == ByteOf(bufs, rs, cap, lens, rel + d)
    {
      if rel < cap2 {
        assert rel + d < cap;
      } else {
        assert cap2 == cap - d;
      }
    }
  }

  /** Advancing the read start as a partial drain does keeps every byte
      written after the drained ones stored, d positions closer. */
  lemma AdvancedStored(bufs: seq<seq<byte>>, bufs2: seq<seq<byte>>, rs: nat, rs2: nat, cap: nat, cap2: nat,
                       lens: seq<nat>, base: nat, base2: nat, d: nat, written: seq<Subrange>, data: map<nat, byte>)
    requires Fits(bufs, lens) && Geometry.Shape(rs, cap, lens) && lens != [] && d <= cap
    requires rs2 == (rs + d) % lens[0]
    requires cap2 == cap - d || (|lens| == 1 && cap2 == cap)
    requires Geometry.Shape(rs2, cap2, lens)
    requires Normalized(written) && MaxEnd(written) <= base + Geometry.Total(cap, lens)
    requires Geometry.Total(cap, lens) <= d + Geometry.Total(cap2, lens)
    requires StoredIn(bufs, rs, cap, lens, base, written, data)
    requires bufs2 == bufs && base2 == base + d
    ensures StoredIn(bufs2, rs2, cap2, lens, base2, written, data)
  {
    Geometry.ModIsWrap(rs + d, lens[0]);
    AdvancedKeeps(bufs, rs, rs2, cap, cap2, lens, d);
    StoredShifted(bufs, rs, cap, lens, bufs, rs2, cap2, lens, base, d, Geometry.Total(cap2, lens), written, data);
  }

  /** Dropping a fully drained first chunk keeps every accepted byte stored,
      the second chunk now being read from its start. */
  lemma DropFirstStored(bufs: seq<seq<byte>>, rs: nat, cap: nat, lens: seq<nat>,
                        base: nat, written: seq<Subrange>, data: map<nat, byte>,
                        bufs2: seq<seq<byte>>, rs2: nat, cap2: nat, lens2: seq<nat>, base2: nat)
    requires |lens| >= 2 && Fits(bufs, lens) && Geometry.Shape(rs, cap, lens)
    requires Normalized(written) && MaxEnd(written) <= base + Geometry.Total(cap, lens)
    requires StoredIn(bufs, rs, cap, lens, base, written, data)
    requires bufs2 == bufs[1..] && rs2 == 0 && cap2 == lens[1] && lens2 == lens[1..] && base2 == base + cap
    ensures Fits(bufs2, lens2) && Geometry.Shape(rs2, cap2, lens2)
    ensures StoredIn(bufs2, rs2, cap2, lens2, base2, written, data)
  {
    DropFirstKeeps(bufs, rs, cap, lens);
    StoredShifted(bufs, rs, cap, lens, bufs[1..], 0, lens[1], lens[1..],
                  base, cap, Geometry.Total(lens[1], lens[1..]), written, data);
  }

  /** Dropping the first of several chunks and reading the next from its start
      moves every byte cap positions closer to BaseOffset. */
  lemma DropFirstKeeps(bufs: seq<seq<byte>>, rs: nat, cap: nat, lens: seq<nat>)
    requires |lens| >= 2 && Fits(bufs, lens) && Geometry.Shape(rs, cap, lens)
    ensures Fits(bufs[1..], lens[1..]) && Geometry.Shape(0, lens[1], lens[1..])
    ensures Geometry.Total(lens[1], lens[1..]) + cap == Geometry.Total(cap, lens)
    ensures forall rel: nat :: rel < Geometry.Total(lens[1], lens[1..]) ==>
      ByteOf(bufs[1..], 0, lens[1], lens[1..], rel) == ByteOf(bufs, rs, cap, lens, rel + cap)
  {
    Geometry.TotalDropFirst(cap, lens);
    forall rel: nat | rel < Geometry.Total(lens[1], lens[1..])
      ensures ByteOf(bufs[1..], 0, lens[1], lens[1..], rel) == ByteOf(bufs, rs, cap, lens, rel + cap)
    {
      if rel < lens[1] {
        Geometry.LocateLater(rs, cap, lens, 1, rel);
      } else {
        Geometry.LocateLaterInverse(0, lens[1], lens[1..], rel);
        var l := Geometry.Locate(0, lens[1], lens[1..], rel);
        Geometry.LocateLater(rs, cap, lens, l.0 + 1, l.1);
      }
    }
  }

  // ---------------------------------------------------------------------
  // Writing bytes

  /** The distance after BaseOffset of the byte at position p of chunk j (in
      the first chunk it stands for a byte only when it is below the capacity). */
  function PosRel(rs: nat, cap: nat, lens: seq<nat>, j: nat, p: nat): nat
    requires Geometry.Shape(rs, cap, lens) && j < |lens|
  {
    if j == 0 then (if p >= rs then p - rs else p + lens[0] - rs)
    else Geometry.ChunkStart(cap, lens, j) + p
  }

  /** Position p of chunk j receives a byte of a write of n bytes at from. */
  predicate InWrite(rs: nat, cap: nat, lens: seq<nat>, j: nat, p: nat, from: nat, n: nat)
    requires Geometry.Shape(rs, cap, lens) && j < |lens|
  {
    var r := PosRel(rs, cap, lens, j, p);
    (j > 0 || r < cap) && from <= r < from + n
  }

  /** Chunk j after w is copied in from `from` positions after BaseOffset. */
  ghost function OverwrittenChunk(bufs: seq<seq<byte>>, rs: nat, cap: nat, lens: seq<nat>,
                                  from: nat, w: seq<byte>, j: nat): (r: seq<byte>)
    requires Fits(bufs, lens) && Geometry.Shape(rs, cap, lens) && j < |lens|
    ensures |r| == lens[j]
  {
    seq(lens[j], p requires 0 <= p < lens[j] =>
      if InWrite(rs, cap, lens, j, p, from, |w|) then w[PosRel(rs, cap, lens, j, p) - from] else bufs[j][p])
  }

  /** The chunks after w is copied in from `from` positions after BaseOffset. */
  ghost function Overwritten(bufs: seq<seq<byte>>, rs: nat, cap: nat, lens: seq<nat>,
                             from: nat, w: seq<byte>): (r: seq<seq<byte>>)
    requires Fits(bufs, lens) && Geometry.Shape(rs, cap, lens)
    ensures Fits(r, lens)
    ensures forall j :: 0 <= j < |lens| ==> r[j] == OverwrittenChunk(bufs, rs, cap, lens, from, w, j)
  {
    seq(|lens|, j requires 0 <= j < |lens| => OverwrittenChunk(bufs, rs, cap, lens, from, w, j))
  }

  /** The chunk list after the copy: each chunk keeps its length and flags and takes its overwritten bytes. */
  ghost function CopiedChunks(cs: seq<RecvChunk>, rs: nat, cap: nat, from: nat, w: seq<byte>): (r: seq<RecvChunk>)
    requires Fits(Contents(cs), LensOf(cs)) && Geometry.Shape(rs, cap, LensOf(cs))
    ensures |r| == |cs|
  {
    seq(|cs|, i requires 0 <= i < |cs| =>
      cs[i].(Buffer := OverwrittenChunk(Contents(cs), rs, cap, LensOf(cs), from, w, i)))
  }

  lemma CopiedChunksKeep(cs: seq<RecvChunk>, rs: nat, cap: nat, from: nat, w: seq<byte>)
    requires WellFormed(cs) && Geometry.Shape(rs, cap, LensOf(cs))
    ensures Fits(Contents(cs), LensOf(cs))
    ensures var r := CopiedChunks(cs, rs, cap, from, w);
      WellFormed(r) && LensOf(r) == LensOf(cs) && RefsOf(r) == RefsOf(cs) &&
      Contents(r) == Overwritten(Contents(cs), rs, cap, LensOf(cs), from, w)
  {
    var r := CopiedChunks(cs, rs, cap, from, w);
    assert LensOf(r) == LensOf(cs);
    assert RefsOf(r) == RefsOf(cs);
    assert Contents(r) == Overwritten(Contents(cs), rs, cap, LensOf(cs), from, w);
  }

  /** The copy puts w at [from, from + |w|) and leaves every other byte alone. */
  lemma ByteOfOverwritten(bufs: seq<seq<byte>>, rs: nat, cap: nat, lens: seq<nat>,
                          from: nat, w: seq<byte>, rel: nat)
    requires Fits(bufs, lens) && Geometry.Shape(rs, cap, lens) && rel < Geometry.Total(cap, lens)
    ensures ByteOf(Overwritten(bufs, rs, cap, lens, from, w), rs, cap, lens, rel) ==
      if from <= rel < from + |w| then w[rel - from] else ByteOf(bufs, rs, cap, lens, rel)
  {
    var l := Geometry.Locate(rs, cap, lens, rel);
    if rel >= cap {
      Geometry.LocateLaterInverse(rs, cap, lens, rel);
    }
    assert PosRel(rs, cap, lens, l.0, l.1) == rel;
  }

  /** Accepting w at stream offsets [from, from + |w|) and copying it in keeps
      every written offset stored. */
  lemma StoredWritten(bufs: seq<seq<byte>>, rs: nat, cap: nat, lens: seq<nat>, base: nat,
                      written: seq<Subrange>, written2: seq<Subrange>, data: map<nat, byte>,
                      rel: nat, w: seq<byte>, data2: map<nat, byte>)
    requires Fits(bufs, lens) && Geometry.Shape(rs, cap, lens)
    requires StoredIn(bufs, rs, cap, lens, base, written, data)
    requires rel + |w| <= Geometry.Total(cap, lens)
    requires forall o: nat :: base <= o ==> (Covers(written2, o) <==> Covers(written, o) || base + rel <= o < base + rel + |w|)
    requires forall o :: o in data2 <==> o in data || base + rel <= o < base + rel + |w|
    requires forall o :: o in data2 ==> data2[o] == if base + rel <= o < base + rel + |w| then w[o - base - rel] else data[o]
    ensures StoredIn(Overwritten(bufs, rs, cap, lens, rel, w), rs, cap, lens, base, written2, data2)
  {
    var bufs2 := Overwritten(bufs, rs, cap, lens, rel, w);
    forall o: nat | base <= o && Covers(written2, o)
      ensures o in data2 && o - base < Geometry.Total(cap, lens)
      ensures ByteOf(bufs2, rs, cap, lens, o - base) == data2[o]
    {
      if !(base + rel <= o < base + rel + |w|) {
        assert Covers(written, o);
      }
      ByteOfOverwritten(bufs, rs, cap, lens, rel, w, o - base);
    }
  }

  /**
   * The first chunk after the copy of its part of a write: k = min(|w|,
   * cap - from) bytes go from position Wrap(rs + from) on, the part that
   * does not fit before the end of the buffer to its start.
   */
  lemma FirstChunkCopied(bufs: seq<seq<byte>>, rs: nat, cap: nat, lens: seq<nat>,
                         from: nat, w: seq<byte>, b: seq<byte>)
    requires Fits(bufs, lens) && Geometry.Shape(rs, cap, lens) && lens != [] && from < cap
    requires |b| == lens[0]
    requires var k := Min(|w|, cap - from);
      var cwo := Geometry.Wrap(rs + from, lens[0]);
      var part1 := Min(k, lens[0] - cwo);
      forall p :: 0 <= p < lens[0] ==>
        b[p] == if cwo <= p < cwo + part1 then w[p - cwo]
                else if p < k - part1 then w[part1 + p]
                else bufs[0][p]
    ensures b == OverwrittenChunk(bufs, rs, cap, lens, from, w, 0)
  {
    var L := lens[0];
    var k := Min(|w|, cap - from);
    var cwo := Geometry.Wrap(rs + from, L);
    var part1 := Min(k, L - cwo);
    var r := OverwrittenChunk(bufs, rs, cap, lens, from, w, 0);
    forall p | 0 <= p < L ensures b[p] == r[p] {
      var q := PosRel(rs, cap, lens, 0, p);
      if rs + from < L {
        if p >= rs {
          assert q == p - rs;
          assert !(p < k - part1);
        } else {
          assert q == p + L - rs;
        }
      } else {
        assert cwo + k <= rs;
        if p >= rs {
          assert q < from;
        } else {
          assert q == p + L - rs;
        }
      }
    }
  }

  /**
   * A later chunk j after the copy of its part of a write: len bytes of w
   * from `start` go to positions [off, off + len), which is everything of
   * the write that falls in the chunk.
   */
  lemma LaterChunkCopied(bufs: seq<seq<byte>>, rs: nat, cap: nat, lens: seq<nat>,
                         from: nat, w: seq<byte>, j: nat, off: nat, start: nat, len: nat, b: seq<byte>)
    requires Fits(bufs, lens) && Geometry.Shape(rs, cap, lens) && 1 <= j < |lens|
    requires |b| == lens[j] && off + len <= lens[j] && start + len <= |w|
    requires Geometry.ChunkStart(cap, lens, j) + off == from + start
    requires off == 0 || start == 0
    requires start + len == |w| || off + len == lens[j]
    requires forall p :: 0 <= p < lens[j] ==> b[p] == if off <= p < off + len then w[start + p - off] else bufs[j][p]
    ensures b == OverwrittenChunk(bufs, rs, cap, lens, from, w, j)
  {
  }

  /** A chunk that no byte of the write falls in is left as it was. */
  lemma UntouchedChunk(bufs: seq<seq<byte>>, rs: nat, cap: nat, lens: seq<nat>,
                       from: nat, w: seq<byte>, j: nat)
    requires Fits(bufs, lens) && Geometry.Shape(rs, cap, lens) && j < |lens|
    requires j == 0 ==> cap <= from || |w| == 0
    requires j > 0 ==> Geometry.ChunkStart(cap, lens, j) + lens[j] <= from ||
                       from + |w| <= Geometry.ChunkStart(cap, lens, j)
    ensures OverwrittenChunk(bufs, rs, cap, lens, from, w, j) == bufs[j]
  {
  }

  /** A chunk that ends where the write starts, or before, is skipped: the
      next one exists and the write starts rel - length of this one into it. */
  lemma SkippedChunk(bufs: seq<seq<byte>>, rs: nat, cap: nat, lens: seq<nat>,
                     from: nat, w: seq<byte>, j: nat, rel: nat)
    requires Fits(bufs, lens) && Geometry.Shape(rs, cap, lens) && j < |lens|
    requires 0 < |w| && from + |w| <= Geometry.Total(cap, lens)
    requires j == 0 ==> rel == from && cap <= rel
    requires j > 0 ==> Geometry.ChunkStart(cap, lens, j) + rel == from && lens[j] <= rel
    ensures j + 1 < |lens|
    ensures Geometry.ChunkStart(cap, lens, j + 1) + (rel - (if j == 0 then cap else lens[j])) == from
    ensures OverwrittenChunk(bufs, rs, cap, lens, from, w, j) == bufs[j]
  {
    if j > 0 {
      Geometry.ChunkStartStep(cap, lens, j);
    } else {
      assert lens[1..1] == [];
    }
    Geometry.ChunkStartLast(cap, lens);
    UntouchedChunk(bufs, rs, cap, lens, from, w, j);
  }

  /** A chunk after the one where the write ends is left as it was. */
  lemma LaterUntouched(bufs: seq<seq<byte>>, rs: nat, cap: nat, lens: seq<nat>,
                       from: nat, w: seq<byte>, j: nat, i: nat)
    requires Fits(bufs, lens) && Geometry.Shape(rs, cap, lens) && j < i < |lens|
    requires from + |w| <= if j == 0 then cap else Geometry.ChunkStart(cap, lens, j) + lens[j]
    ensures OverwrittenChunk(bufs, rs, cap, lens, from, w, i) == bufs[i]
  {
    Geometry.ChunkStartMono(cap, lens, j + 1, i);
    if j > 0 {
      Geometry.ChunkStartStep(cap, lens, j);
    } else {
      assert lens[1..1] == [];
    }
    UntouchedChunk(bufs, rs, cap, lens, from, w, i);
  }

  // ---------------------------------------------------------------------
  // Reading bytes

  /** The first chunk's bytes at rel, rel + 1, ... lie from Wrap(rs + rel) on
      while they stay below its capacity and do not pass the buffer's end. */
  lemma FirstRun(rs: nat, cap: nat, lens: seq<nat>, rel: nat, n: nat)
    requires Geometry.Shape(rs, cap, lens) && lens != [] && rel + n <= cap
    requires Geometry.Wrap(rs + rel, lens[0]) + n <= lens[0]
    ensures forall i :: rel <= i < rel + n ==>
      Geometry.Locate(rs, cap, lens, i) == (0, Geometry.Wrap(rs + rel, lens[0]) + (i - rel))
  {
  }

  /** A later chunk's bytes lie at its own indices. */
  lemma LaterRun(rs: nat, cap: nat, lens: seq<nat>, j: nat, p: nat, n: nat)
    requires Geometry.Shape(rs, cap, lens) && 1 <= j < |lens| && p + n <= lens[j]
    ensures Geometry.ChunkStart(cap, lens, j) + p + n <= Geometry.Total(cap, lens)
    ensures var c := Geometry.ChunkStart(cap, lens, j);
      forall i :: c + p <= i < c + p + n ==> Geometry.Locate(rs, cap, lens, i) == (j, p + (i - c - p))
  {
    var c := Geometry.ChunkStart(cap, lens, j);
    if n > 0 {
      Geometry.LocateLater(rs, cap, lens, j, p + n - 1);
    }
    forall i | c + p <= i < c + p + n
      ensures Geometry.Locate(rs, cap, lens, i) == (j, p + (i - c - p))
    {
      Geometry.LocateLater(rs, cap, lens, j, i - c);
    }
    if n == 0 {
      Geometry.ChunkStartStep(cap, lens, j);
    }
  }

  /** The n bytes of a chunk's memory b from index off on, wrapping at its end. */
  function Wrapped(b: seq<byte>, off: nat, n: nat): (r: seq<byte>)
    requires 0 < |b|
    ensures |r| == n
  {
    seq(n, i requires 0 <= i < n => b[(off + i) % |b|])
  }

  /** Setting chunk i's external-reference flag changes nothing else. */
  lemma MarkedChunk(cs: seq<RecvChunk>, i: nat, b: bool)
    requires i < |cs|
    ensures var cs2 := cs[i := cs[i].(ExternalReference := b)];
      (WellFormed(cs) ==> WellFormed(cs2)) && LensOf(cs2) == LensOf(cs) && Contents(cs2) == Contents(cs) &&
      RefsOf(cs2) == RefsOf(cs)[i := b]
  {
    var cs2 := cs[i := cs[i].(ExternalReference := b)];
    assert LensOf(cs2) == LensOf(cs);
    assert Contents(cs2) == Contents(cs);
    assert RefsOf(cs2) == RefsOf(cs)[i := b];
  }

  /** Replacing chunk i's memory by memory as long changes nothing else. */
  lemma RefilledChunk(cs: seq<RecvChunk>, i: nat, b: seq<byte>)
    requires i < |cs|
    ensures var cs2 := cs[i := cs[i].(Buffer := b)];
      LensOf(cs2) == LensOf(cs) && RefsOf(cs2) == RefsOf(cs) && Contents(cs2) == Contents(cs)[i := b]
  {
    var cs2 := cs[i := cs[i].(Buffer := b)];
    assert LensOf(cs2) == LensOf(cs);
    assert RefsOf(cs2) == RefsOf(cs);
    assert Contents(cs2) == Contents(cs)[i := b];
  }

  /** Dropping the first chunk drops its length, flag and memory. */
  lemma ChunksTail(cs: seq<RecvChunk>)
    requires cs != []
    ensures LensOf(cs[1..]) == LensOf(cs)[1..] && RefsOf(cs[1..]) == RefsOf(cs)[1..]
    ensures Contents(cs[1..]) == Contents(cs)[1..]
    ensures WellFormed(cs) ==> WellFormed(cs[1..])
  {
    assert LensOf(cs[1..]) == LensOf(cs)[1..];
    assert RefsOf(cs[1..]) == RefsOf(cs)[1..];
    assert Contents(cs[1..]) == Contents(cs)[1..];
  }

  /** Bytes that do not pass the end of the memory are a plain slice. */
  lemma WrappedSlice(b: seq<byte>, off: nat, n: nat)
    requires off + n <= |b| && 0 < |b|
    ensures Wrapped(b, off, n) == b[off .. off + n]
  {
    forall i | 0 <= i < n ensures Wrapped(b, off, n)[i] == b[off + i] {
      Geometry.ModIsWrap(off + i, |b|);
    }
  }

  /** The n bytes stored from position `from` after BaseOffset on. */
  ghost function Stored(bufs: seq<seq<byte>>, rs: nat, cap: nat, lens: seq<nat>, from: nat, n: nat): (r: seq<byte>)
    requires Fits(bufs, lens) && Geometry.Shape(rs, cap, lens) && from + n <= Geometry.Total(cap, lens)
    ensures |r| == n
  {
    seq(n, i requires 0 <= i < n => var l := Geometry.Locate(rs, cap, lens, from + i); bufs[l.0][l.1])
  }

  lemma StoredAt(bufs: seq<seq<byte>>, rs: nat, cap: nat, lens: seq<nat>, from: nat, n: nat, i: nat)
    requires Fits(bufs, lens) && Geometry.Shape(rs, cap, lens) && from + n <= Geometry.Total(cap, lens) && i < n
    ensures Stored(bufs, rs, cap, lens, from, n)[i] == ByteOf(bufs, rs, cap, lens, from + i)
  {
  }

  /** Stored positions that were written hold the bytes accepted there. */
  lemma StoredData(bufs: seq<seq<byte>>, rs: nat, cap: nat, lens: seq<nat>, base: nat,
                   written: seq<Subrange>, data: map<nat, byte>, from: nat, n: nat)
    requires Fits(bufs, lens) && Geometry.Shape(rs, cap, lens) && from + n <= Geometry.Total(cap, lens)
    requires StoredIn(bufs, rs, cap, lens, base, written, data)
    requires forall o :: base + from <= o < base + from + n ==> Covers(written, o)
    ensures forall o :: base + from <= o < base + from + n ==> o in data
    ensures Stored(bufs, rs, cap, lens, from, n) == DataAt(data, base + from, n)
  {
    forall o | base + from <= o < base + from + n ensures o in data {
      assert Covers(written, o);
    }
    forall i | 0 <= i < n ensures Stored(bufs, rs, cap, lens, from, n)[i] == data[base + from + i] {
      assert Covers(written, base + from + i);
    }
  }

  lemma StoredSplit(bufs: seq<seq<byte>>, rs: nat, cap: nat, lens: seq<nat>, from: nat, n: nat, m: nat)
    requires Fits(bufs, lens) && Geometry.Shape(rs, cap, lens) && from + n + m <= Geometry.Total(cap, lens)
    ensures Stored(bufs, rs, cap, lens, from, n) + Stored(bufs, rs, cap, lens, from + n, m) ==
            Stored(bufs, rs, cap, lens, from, n + m)
  {
  }

  /** Positions within the first chunk's window lie in it from (ReadStart +
      rel) mod its length on, wrapping at its end. */
  lemma FirstChunkStored(bufs: seq<seq<byte>>, rs: nat, cap: nat, lens: seq<nat>, rel: nat, n: nat)
    requires Fits(bufs, lens) && Geometry.Shape(rs, cap, lens) && lens != [] && rel + n <= cap
    ensures rel + n <= Geometry.Total(cap, lens)
    ensures Wrapped(bufs[0], (rs + rel) % lens[0], n) == Stored(bufs, rs, cap, lens, rel, n)
  {
    var L := lens[0];
    Geometry.ModIsWrap(rs + rel, L);
    forall k | 0 <= k < n ensures Wrapped(bufs[0], (rs + rel) % L, n)[k] == Stored(bufs, rs, cap, lens, rel, n)[k] {
      StoredAt(bufs, rs, cap, lens, rel, n, k);
      Geometry.ModIsWrap(Geometry.Wrap(rs + rel, L) + k, L);
      assert Geometry.Wrap(Geometry.Wrap(rs + rel, L) + k, L) == Geometry.Wrap(rs + rel + k, L);
    }
  }

  /** The n bytes from BaseOffset on, while they stay within the first
      chunk's window: its bytes from ReadStart on, wrapping at its end. */
  lemma FromStartStored(bufs: seq<seq<byte>>, rs: nat, cap: nat, lens: seq<nat>, n: nat)
    requires Fits(bufs, lens) && Geometry.Shape(rs, cap, lens) && lens != [] && n <= cap
    ensures n <= Geometry.Total(cap, lens)
    ensures Wrapped(bufs[0], rs, n) == Stored(bufs, rs, cap, lens, 0, n)
  {
    FirstChunkStored(bufs, rs, cap, lens, 0, n);
    Geometry.ModIsWrap(rs, lens[0]);
  }

  /** Positions in a later chunk lie at its own indices. */
  lemma LaterStored(bufs: seq<seq<byte>>, rs: nat, cap: nat, lens: seq<nat>, j: nat, p: nat, rel: nat, n: nat)
    requires Fits(bufs, lens) && Geometry.Shape(rs, cap, lens)
    requires 1 <= j < |lens| && p + n <= lens[j] && rel == Geometry.ChunkStart(cap, lens, j) + p
    ensures rel + n <= Geometry.Total(cap, lens)
    ensures bufs[j][p .. p + n] == Stored(bufs, rs, cap, lens, rel, n)
  {
    LaterRun(rs, cap, lens, j, p, n);
    forall k | 0 <= k < n ensures bufs[j][p .. p + n][k] == Stored(bufs, rs, cap, lens, rel, n)[k] {
      StoredAt(bufs, rs, cap, lens, rel, n, k);
      assert Geometry.Locate(rs, cap, lens, rel + k) == (j, p + k);
    }
  }

  /** The first n bytes of a later chunk are the stored ones from its start on. */
  lemma LaterPrefixStored(bufs: seq<seq<byte>>, rs: nat, cap: nat, lens: seq<nat>, j: nat, rel: nat, n: nat)
    requires Fits(bufs, lens) && Geometry.Shape(rs, cap, lens)
    requires 1 <= j < |lens| && n <= lens[j] && rel == Geometry.ChunkStart(cap, lens, j)
    ensures rel + n <= Geometry.Total(cap, lens)
    ensures bufs[j][..n] == Stored(bufs, rs, cap, lens, rel, n)
  {
    LaterStored(bufs, rs, cap, lens, j, 0, rel, n);
    assert bufs[j][..n] == bufs[j][0 .. 0 + n];
  }

  /** Positions of the first chunk that do not wrap lie at ReadStart on. */
  lemma FirstSliceStored(bufs: seq<seq<byte>>, rs: nat, cap: nat, lens: seq<nat>, n: nat)
    requires Fits(bufs, lens) && Geometry.Shape(rs, cap, lens) && lens != []
    requires n <= cap && rs + n <= lens[0]
    ensures n <= Geometry.Total(cap, lens)
    ensures bufs[0][rs .. rs + n] == Stored(bufs, rs, cap, lens, 0, n)
  {
    FirstRun(rs, cap, lens, 0, n);
  }
}
