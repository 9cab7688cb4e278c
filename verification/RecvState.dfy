/**
 * The receive buffer's header as a value: its counters, its written ranges
 * and, per chunk, the allocation length and the external-reference flag.
 * Consistent states what src/core/recv_buffer.c keeps true between calls;
 * each operation's effect on the header is a function here, and a lemma
 * proves that it keeps the header consistent.  The class in RecvBuffer.dfy
 * is proved against these functions.
 */
module RecvState {
  import opened Ranges
  import Geometry

  const UINT32_MAX: nat := 0xFFFF_FFFF
  /** Largest virtual length a growable buffer may have: doubling a uint32 chunk
      length beyond it would wrap to zero. */
  const MAX_GROWABLE_LENGTH: nat := 0x8000_0000

  datatype RecvBufMode = Single | Circular | Multiple | AppOwned

  datatype State = State(
    RecvMode: RecvBufMode,
    BaseOffset: nat,
    ReadStart: nat,
    ReadPendingLength: nat,
    ReadLength: nat,
    Capacity: nat,
    VirtualBufferLength: nat,
    WrittenRanges: seq<Subrange>,
    /** AllocLength of each chunk, in list order. */
    Lens: seq<nat>,
    /** ExternalReference of each chunk, in list order. */
    Refs: seq<bool>,
    /** RetiredChunk != NULL */
    Retired: bool)
  {
    /** Bytes after BaseOffset the chunks can hold. */
    function Total(): nat {
      Geometry.Total(Capacity, Lens)
    }

    /** Bytes readable in order from BaseOffset. */
    function Contig(): nat {
      var p := PrefixEnd(WrittenRanges);
      if BaseOffset <= p then p - BaseOffset else 0
    }

    /** Distance from BaseOffset at which chunk i starts (i == |Lens|: the end). */
    function StartOf(i: nat): nat
      requires i <= |Lens|
    {
      if i == 0 then 0 else Geometry.ChunkStart(Capacity, Lens, i)
    }
  }

  /** The chunk list's shape in each mode. */
  ghost predicate Layout(s: State) {
    |s.Refs| == |s.Lens| &&
    Geometry.Shape(s.ReadStart, s.Capacity, s.Lens) &&
    (s.RecvMode == Single || s.RecvMode == Circular ==> |s.Lens| == 1) &&
    (s.RecvMode == Single ==> s.ReadStart == 0) &&
    (s.RecvMode != AppOwned ==>
      |s.Lens| >= 1 && s.VirtualBufferLength <= MAX_GROWABLE_LENGTH &&
      (forall i :: 0 <= i < |s.Lens| ==> Geometry.IsPowerOfTwo(s.Lens[i])) &&
      (|s.Lens| == 1 ==> s.Capacity == s.Lens[0])) &&
    (s.RecvMode == AppOwned ==>
      (s.Lens != [] ==> s.ReadStart + s.Capacity == s.Lens[0]) &&
      s.VirtualBufferLength == s.Total() <= UINT32_MAX) &&
    (s.Retired ==> s.RecvMode == Single || s.RecvMode == Circular)
  }

  /** How BaseOffset and the lengths relate to the written ranges. */
  ghost predicate Counters(s: State) {
    Normalized(s.WrittenRanges) &&
    s.BaseOffset <= PrefixEnd(s.WrittenRanges) &&
    MaxEnd(s.WrittenRanges) <= s.BaseOffset + s.Total() &&
    s.ReadPendingLength <= s.Contig() &&
    (StartsAtZero(s.WrittenRanges) ==> s.ReadLength == Min(s.Contig(), s.Capacity))
  }

  /**
   * Multiple mode: a chunk the application holds a buffer into starts before
   * the end of the data handed out, and a third chunk exists only once the
   * handed-out data reaches into the second-to-last one.
   */
  ghost predicate References(s: State)
    requires |s.Refs| == |s.Lens|
  {
    s.RecvMode == Multiple ==>
      (forall i :: 0 <= i < |s.Lens| && s.Refs[i] ==> s.ReadPendingLength > s.StartOf(i)) &&
      (|s.Lens| >= 3 ==> s.ReadPendingLength > s.StartOf(|s.Lens| - 2))
  }

  ghost predicate Consistent(s: State) {
    Layout(s) && Counters(s) && References(s)
  }

  // ---------------------------------------------------------------------
  // Initialize

  /** The header QuicRecvBufferInitialize sets up. */
  function Initial(mode: RecvBufMode, allocLength: nat, virtualLength: nat): State {
    if mode == AppOwned then State(mode, 0, 0, 0, 0, 0, 0, [], [], [], false)
    else State(mode, 0, 0, 0, 0, allocLength, virtualLength, [], [allocLength], [false], false)
  }

  lemma InitialConsistent(mode: RecvBufMode, allocLength: nat, virtualLength: nat)
    requires mode != AppOwned ==>
      Geometry.IsPowerOfTwo(allocLength) && allocLength <= virtualLength <= MAX_GROWABLE_LENGTH
    ensures Consistent(Initial(mode, allocLength, virtualLength))
    ensures Initial(mode, allocLength, virtualLength).Contig() == 0
  {
  }

  // ---------------------------------------------------------------------
  // ProvideChunks

  /** QuicRecvBufferProvideChunks: chunks of lengths lens are appended; the first
      of them sets the capacity when the list was empty. */
  function Provided(s: State, lens: seq<nat>, refs: seq<bool>): State
    requires lens != []
  {
    s.(Capacity := if s.Lens == [] then lens[0] else s.Capacity,
       VirtualBufferLength := s.VirtualBufferLength + Geometry.Sum(lens),
       Lens := s.Lens + lens,
       Refs := s.Refs + refs)
  }

  lemma ProvidedConsistent(s: State, lens: seq<nat>, refs: seq<bool>)
    requires Consistent(s) && s.RecvMode == AppOwned
    requires lens != [] && |refs| == |lens| && forall i :: 0 <= i < |lens| ==> lens[i] > 0
    requires s.VirtualBufferLength + Geometry.Sum(lens) <= UINT32_MAX
    ensures Consistent(Provided(s, lens, refs))
    ensures Provided(s, lens, refs).Total() == s.Total() + Geometry.Sum(lens)
    ensures s.Lens != [] ==> Provided(s, lens, refs).Capacity == s.Capacity
  {
    var t := Provided(s, lens, refs);
    ProvidedTotal(s, lens, refs);
    ProvidedLayout(s, lens, refs);
    if s.Lens == [] {
      PrefixEndBelowMaxEnd(s.WrittenRanges);
    }
    assert Counters(t);
    assert References(t);
  }

  lemma ProvidedLayout(s: State, lens: seq<nat>, refs: seq<bool>)
    requires Layout(s) && s.RecvMode == AppOwned
    requires lens != [] && |refs| == |lens| && forall i :: 0 <= i < |lens| ==> lens[i] > 0
    requires s.VirtualBufferLength + Geometry.Sum(lens) <= UINT32_MAX
    ensures Layout(Provided(s, lens, refs))
  {
    var t := Provided(s, lens, refs);
    ProvidedTotal(s, lens, refs);
    assert Geometry.Shape(t.ReadStart, t.Capacity, t.Lens) by {
      forall i | 0 <= i < |t.Lens| ensures t.Lens[i] > 0 {
        if i >= |s.Lens| {
          assert t.Lens[i] == lens[i - |s.Lens|];
        }
      }
    }
  }

  lemma ProvidedTotal(s: State, lens: seq<nat>, refs: seq<bool>)
    requires lens != []
    requires s.Lens == [] ==> s.Capacity == 0
    ensures Provided(s, lens, refs).Total() == s.Total() + Geometry.Sum(lens)
  {
    if s.Lens == [] {
      assert Provided(s, lens, refs).Lens == lens == [lens[0]] + lens[1..];
    } else {
      Geometry.TotalAppend(s.Capacity, s.Lens, lens);
    }
  }

  // ---------------------------------------------------------------------
  // Resize

  /**
   * QuicRecvBufferResize: a new last chunk of `target` bytes.  An unreferenced
   * last chunk is replaced (its data moves to the new chunk, which, if it is
   * the only chunk, is then read from its start); a referenced one stays in
   * multiple mode and is retired otherwise.
   */
  function Resized(s: State, target: nat): State
    requires |s.Lens| >= 1 && |s.Refs| == |s.Lens|
  {
    var last := |s.Lens| - 1;
    if !s.Refs[last] then
      if last == 0 then s.(Lens := [target], Refs := [false], ReadStart := 0, Capacity := target)
      else s.(Lens := s.Lens[..last] + [target], Refs := s.Refs[..last] + [false])
    else if s.RecvMode == Multiple then s.(Lens := s.Lens + [target], Refs := s.Refs + [false])
    else s.(Lens := [target], Refs := [false], ReadStart := 0, Capacity := target, Retired := true)
  }

  /** Chunk starts only depend on the capacity and the lengths before them. */
  lemma StartOfPrefix(s: State, t: State, i: nat)
    requires i <= |s.Lens| && i <= |t.Lens| && s.Capacity == t.Capacity && s.Lens[..i] == t.Lens[..i]
    ensures s.StartOf(i) == t.StartOf(i)
  {
    if i > 0 {
      assert s.Lens[1..i] == s.Lens[..i][1..] == t.Lens[..i][1..] == t.Lens[1..i];
    }
  }

  lemma ResizedConsistent(s: State, target: nat)
    requires Consistent(s) && s.RecvMode != AppOwned
    requires Geometry.IsPowerOfTwo(target) && s.Lens[|s.Lens| - 1] < target
    ensures Consistent(Resized(s, target))
    ensures Resized(s, target).Total() >= target
    ensures Resized(s, target).Total() >= s.Total()
    ensures Resized(s, target).Contig() == s.Contig()
  {
    var last := |s.Lens| - 1;
    if s.Refs[last] && s.RecvMode == Multiple {
      ResizedAppend(s, target);
    } else if last == 0 {
      ResizedOnlyChunk(s, target);
    } else {
      ResizedReplaceLast(s, target);
    }
  }

  /** The only chunk is replaced, or retired, by a larger one read from its start. */
  lemma ResizedOnlyChunk(s: State, target: nat)
    requires Consistent(s) && s.RecvMode != AppOwned && |s.Lens| == 1
    requires Geometry.IsPowerOfTwo(target) && s.Lens[0] < target
    requires !s.Refs[0] || s.RecvMode != Multiple
    ensures Consistent(Resized(s, target))
    ensures Resized(s, target).Total() == target > s.Total()
    ensures Resized(s, target).ReadStart == 0 && Resized(s, target).Capacity == target
  {
    assert s.Total() == s.Lens[0];
  }

  /** Multiple mode: an unreferenced last chunk (not the first) is replaced. */
  lemma ResizedReplaceLast(s: State, target: nat)
    requires Consistent(s) && s.RecvMode != AppOwned && |s.Lens| >= 2 && !s.Refs[|s.Lens| - 1]
    requires Geometry.IsPowerOfTwo(target) && s.Lens[|s.Lens| - 1] < target
    ensures Consistent(Resized(s, target))
    ensures Resized(s, target).Total() > s.Total()
    ensures Resized(s, target).Total() >= target
  {
    var last := |s.Lens| - 1;
    var t := Resized(s, target);
    assert t == s.(Lens := s.Lens[..last] + [target], Refs := s.Refs[..last] + [false]);
    Geometry.TotalReplaceLast(s.Capacity, s.Lens, target);
    assert t.Total() >= target by {
      Geometry.ChunkStartLast(t.Capacity, t.Lens);
      Geometry.ChunkStartStep(t.Capacity, t.Lens, |t.Lens| - 1);
    }
    assert Layout(t);
    assert Counters(t) by {
      assert t.Contig() == s.Contig();
    }
    if s.RecvMode == Multiple {
      forall i | 0 <= i < |t.Lens| && t.Refs[i]
        ensures s.ReadPendingLength > t.StartOf(i)
      {
        assert i < last && s.Refs[i] && t.StartOf(i) == s.StartOf(i);
      }
      if |t.Lens| >= 3 {
        assert t.StartOf(|t.Lens| - 2) == s.StartOf(|s.Lens| - 2);
      }
    }
  }

  /** Multiple mode: a referenced last chunk stays and the new one follows it. */
  lemma ResizedAppend(s: State, target: nat)
    requires Consistent(s) && s.RecvMode == Multiple && s.Refs[|s.Lens| - 1]
    requires Geometry.IsPowerOfTwo(target) && s.Lens[|s.Lens| - 1] < target
    ensures Consistent(Resized(s, target))
    ensures Resized(s, target).Total() == s.Total() + target
  {
    var t := Resized(s, target);
    assert t == s.(Lens := s.Lens + [target], Refs := s.Refs + [false]);
    Geometry.TotalAppend(s.Capacity, s.Lens, [target]);
    assert Geometry.Sum([target]) == target + Geometry.Sum([]);
    assert Layout(t);
    assert Counters(t) by {
      assert t.Contig() == s.Contig();
    }
    forall i | 0 <= i < |t.Lens| && t.Refs[i]
      ensures s.ReadPendingLength > t.StartOf(i)
    {
      assert i < |s.Lens| && s.Refs[i] && t.StartOf(i) == s.StartOf(i);
    }
    if |t.Lens| >= 3 {
      assert t.StartOf(|t.Lens| - 2) == s.StartOf(|s.Lens| - 1);
    }
  }

  // ---------------------------------------------------------------------
  // Write

  /** FirstRange->Count - BaseOffset, which never underflows: below BaseOffset
      everything is written, so the first range starts at 0 once BaseOffset > 0. */
  function FirstRangeRest(s: State): nat
    requires s.WrittenRanges != []
  {
    if s.WrittenRanges[0].Count >= s.BaseOffset then s.WrittenRanges[0].Count - s.BaseOffset else 0
  }

  /**
   * The ReadLength QuicRecvBufferCopyIntoChunks leaves when the copied data
   * starts relativeOffset bytes after BaseOffset (WrittenRanges already
   * holds the new range).
   */
  function CopiedReadLength(s: State, relativeOffset: nat): nat
    requires s.WrittenRanges != []
  {
    if s.RecvMode == Single || s.RecvMode == Circular || (s.RecvMode == Multiple && |s.Lens| == 1) then
      FirstRangeRest(s)
    else if relativeOffset < s.Capacity then
      Min(FirstRangeRest(s), s.Capacity)
    else
      s.ReadLength
  }

  /** The header after a write of [low, low + count) that added new offsets. */
  function Written(s: State, low: nat, count: nat): State
    requires Normalized(s.WrittenRanges) && count > 0 && s.BaseOffset <= PrefixEnd(s.WrittenRanges)
  {
    AddRangeEnds(s.WrittenRanges, low, count);
    var t := s.(WrittenRanges := AddRange(s.WrittenRanges, low, count).Ranges);
    t.(ReadLength := CopiedReadLength(t, Max(low, s.BaseOffset) - s.BaseOffset))
  }

  /** Written in two steps: the ranges are recorded, then the read length
      is recomputed from where the copy starts. */
  lemma WrittenSteps(s: State, low: nat, count: nat, ranges: seq<Subrange>, from: nat)
    requires Normalized(s.WrittenRanges) && count > 0 && s.BaseOffset <= PrefixEnd(s.WrittenRanges)
    requires ranges == AddRange(s.WrittenRanges, low, count).Ranges
    requires from == Max(low, s.BaseOffset) - s.BaseOffset
    ensures ranges != []
    ensures Written(s, low, count) ==
      s.(WrittenRanges := ranges, ReadLength := CopiedReadLength(s.(WrittenRanges := ranges), from))
  {
    WrittenFirstRange(s, low, count);
  }

  /** After a range is added, the first range reaches BaseOffset. */
  lemma WrittenFirstRange(s: State, low: nat, count: nat)
    requires Normalized(s.WrittenRanges) && count > 0 && s.BaseOffset <= PrefixEnd(s.WrittenRanges)
    ensures var r := AddRange(s.WrittenRanges, low, count).Ranges;
      r != [] && s.BaseOffset <= r[0].Count
  {
    var r := AddRange(s.WrittenRanges, low, count).Ranges;
    AddRangeEnds(s.WrittenRanges, low, count);
    assert Covers(r, low);
  }

  lemma FirstRangeRestIsContig(s: State)
    requires Normalized(s.WrittenRanges) && StartsAtZero(s.WrittenRanges) && s.BaseOffset <= PrefixEnd(s.WrittenRanges)
    ensures FirstRangeRest(s) == s.Contig()
  {
  }

  lemma WrittenConsistent(s: State, low: nat, count: nat)
    requires Consistent(s) && count > 0
    requires s.BaseOffset < low + count <= s.BaseOffset + s.Total()
    ensures Consistent(Written(s, low, count))
    ensures Written(s, low, count).Contig() >= s.Contig()
    ensures Written(s, low, count).Total() == s.Total()
  {
    var t := Written(s, low, count);
    assert t == s.(WrittenRanges := t.WrittenRanges, ReadLength := t.ReadLength);
    WrittenCounters(s, low, count);
    CountersOnly(s, t);
  }

  /** The chunk layout and the references do not depend on the written
      ranges or on ReadLength. */
  lemma CountersOnly(s: State, t: State)
    requires Layout(s) && References(s)
    requires t == s.(WrittenRanges := t.WrittenRanges, ReadLength := t.ReadLength)
    ensures Layout(t) && References(t)
  {
    assert forall i :: 0 <= i <= |t.Lens| ==> t.StartOf(i) == s.StartOf(i);
  }

  lemma WrittenCounters(s: State, low: nat, count: nat)
    requires Consistent(s) && count > 0
    requires s.BaseOffset < low + count <= s.BaseOffset + s.Total()
    ensures Counters(Written(s, low, count))
    ensures Written(s, low, count).Contig() >= s.Contig()
  {
    var r := AddRange(s.WrittenRanges, low, count);
    AddRangeEnds(s.WrittenRanges, low, count);
    var t := Written(s, low, count);
    PrefixEndBelowMaxEnd(r.Ranges);
    if StartsAtZero(r.Ranges) {
      FirstRangeRestIsContig(t);
      WrittenReadLength(s, low, count);
    }
  }

  /** Once the prefix is written, the ReadLength CopyIntoChunks leaves is the
      readable part of the first chunk. */
  lemma WrittenReadLength(s: State, low: nat, count: nat)
    requires Consistent(s) && count > 0
    requires s.BaseOffset < low + count <= s.BaseOffset + s.Total()
    requires StartsAtZero(AddRange(s.WrittenRanges, low, count).Ranges)
    ensures var t := Written(s, low, count);
      t.ReadLength == Min(t.Contig(), t.Capacity)
  {
    var t := Written(s, low, count);
    AddRangeEnds(s.WrittenRanges, low, count);
    FirstRangeRestIsContig(t);
    if s.RecvMode == Single || s.RecvMode == Circular || (s.RecvMode == Multiple && |s.Lens| == 1) {
      WrittenReadLengthOneChunk(s, low, count);
    } else if Max(low, s.BaseOffset) - s.BaseOffset >= s.Capacity {
      WrittenReadLengthLater(s, low, count);
    }
  }

  /** With a single chunk the capacity is everything, so the readable prefix fits. */
  lemma WrittenReadLengthOneChunk(s: State, low: nat, count: nat)
    requires Consistent(s) && count > 0
    requires s.BaseOffset < low + count <= s.BaseOffset + s.Total()
    requires StartsAtZero(AddRange(s.WrittenRanges, low, count).Ranges)
    requires s.RecvMode == Single || s.RecvMode == Circular || (s.RecvMode == Multiple && |s.Lens| == 1)
    ensures var t := Written(s, low, count);
      t.Contig() <= t.Capacity
  {
    var r := AddRange(s.WrittenRanges, low, count);
    AddRangeEnds(s.WrittenRanges, low, count);
    PrefixEndBelowMaxEnd(r.Ranges);
    assert s.Total() == s.Capacity;
  }

  /** A copy starting beyond the first chunk keeps ReadLength: either the prefix
      did not move, or it already filled the first chunk. */
  lemma WrittenReadLengthLater(s: State, low: nat, count: nat)
    requires Consistent(s) && count > 0
    requires s.BaseOffset < low + count <= s.BaseOffset + s.Total()
    requires StartsAtZero(AddRange(s.WrittenRanges, low, count).Ranges)
    requires Max(low, s.BaseOffset) - s.BaseOffset >= s.Capacity
    ensures var t := Written(s, low, count);
      s.ReadLength == Min(t.Contig(), t.Capacity)
  {
    var t := Written(s, low, count);
    var r := AddRange(s.WrittenRanges, low, count).Ranges;
    AddRangeEnds(s.WrittenRanges, low, count);
    assert t.WrittenRanges == r && t.BaseOffset == s.BaseOffset && t.Capacity == s.Capacity;
    var p, q := PrefixEnd(s.WrittenRanges), PrefixEnd(r);
    assert low > 0;
    assert StartsAtZero(s.WrittenRanges);
    assert s.ReadLength == Min(p - s.BaseOffset, s.Capacity);
    assert t.Contig() == q - s.BaseOffset;
    assert q != p ==> p - s.BaseOffset >= s.Capacity;
  }

  // ---------------------------------------------------------------------
  // PartialDrain

  /** PartialDrain gives up the drained bytes of the first chunk for good in
      app-owned mode, and in multiple mode once a later chunk exists. */
  predicate ShrinksFirst(s: State, d: nat) {
    d != 0 && s.RecvMode != Single && (s.RecvMode == AppOwned || |s.Lens| > 1)
  }

  /** QuicRecvBufferPartialDrain's first step: BaseOffset moves d bytes on
      and so does the read start (single mode moves the bytes instead);
      the first chunk's window and readable length shrink by d. */
  function FirstChunkAdvanced(s: State, d: nat): State
    requires s.Lens != [] && s.Lens[0] > 0
    requires d <= s.ReadLength && (ShrinksFirst(s, d) ==> d <= s.Capacity)
  {
    if d == 0 then s
    else
      s.(BaseOffset := s.BaseOffset + d,
         ReadStart := if s.RecvMode == Single then s.ReadStart else (s.ReadStart + d) % s.Lens[0],
         Capacity := if ShrinksFirst(s, d) then s.Capacity - d else s.Capacity,
         ReadLength := s.ReadLength - d)
  }

  /** Its second step: multiple mode counts the drained bytes off the
      handed-out ones, keeping the first chunk referenced while some remain;
      app-owned mode counts them off the virtual length. */
  function DrainCounted(t: State, d: nat): State
    requires |t.Refs| > 0
    requires t.RecvMode == Multiple ==> d <= t.ReadPendingLength
    requires t.RecvMode == AppOwned ==> d <= t.VirtualBufferLength
  {
    if t.RecvMode == Multiple then
      t.(Refs := t.Refs[0 := t.ReadPendingLength != d], ReadPendingLength := t.ReadPendingLength - d)
    else if t.RecvMode == AppOwned then t.(VirtualBufferLength := t.VirtualBufferLength - d)
    else t
  }

  /** QuicRecvBufferPartialDrain: the first d bytes of the first chunk are released. */
  function PartiallyDrained(s: State, d: nat): State
    requires s.Lens != [] && s.Lens[0] > 0 && |s.Refs| == |s.Lens|
    requires d <= s.ReadLength && (ShrinksFirst(s, d) ==> d <= s.Capacity)
    requires s.RecvMode == Multiple ==> d <= s.ReadPendingLength
    requires s.RecvMode == AppOwned ==> d <= s.VirtualBufferLength
  {
    DrainCounted(FirstChunkAdvanced(s, d), d)
  }

  /** What Drain guarantees when it chooses a partial drain. */
  ghost predicate CanPartiallyDrain(s: State, d: nat) {
    Consistent(s) && s.Lens != [] && StartsAtZero(s.WrittenRanges) &&
    d <= s.ReadLength && (ShrinksFirst(s, d) ==> d < s.Capacity) &&
    (s.RecvMode == Multiple ==> d <= s.ReadPendingLength) &&
    (s.RecvMode != Multiple ==> s.ReadPendingLength == 0)
  }

  lemma PartiallyDrainedConsistent(s: State, d: nat)
    requires CanPartiallyDrain(s, d)
    ensures Consistent(PartiallyDrained(s, d))
    ensures PartiallyDrained(s, d).Contig() == s.Contig() - d
  {
    PartiallyDrainedLayout(s, d);
    PartiallyDrainedCounters(s, d);
    PartiallyDrainedReferences(s, d);
  }

  lemma PartiallyDrainedLayout(s: State, d: nat)
    requires CanPartiallyDrain(s, d)
    ensures Layout(PartiallyDrained(s, d))
  {
    var t := PartiallyDrained(s, d);
    assert t.Lens == s.Lens && |t.Refs| == |s.Refs|;
    if d != 0 && s.RecvMode != Single {
      assert s.ReadLength <= s.Capacity <= s.Lens[0];
      Geometry.ModIsWrap(s.ReadStart + d, s.Lens[0]);
      assert t.ReadStart == Geometry.Wrap(s.ReadStart + d, s.Lens[0]);
    }
    assert Geometry.Shape(t.ReadStart, t.Capacity, t.Lens);
    if s.RecvMode == AppOwned && d != 0 {
      assert s.ReadStart + d < s.Lens[0];
      assert t.ReadStart + t.Capacity == s.Lens[0];
      assert t.Total() + d == s.Total();
    }
  }

  lemma PartiallyDrainedCounters(s: State, d: nat)
    requires CanPartiallyDrain(s, d)
    ensures Counters(PartiallyDrained(s, d))
    ensures PartiallyDrained(s, d).Contig() == s.Contig() - d
  {
    var t := PartiallyDrained(s, d);
    PrefixEndBelowMaxEnd(s.WrittenRanges);
    if ShrinksFirst(s, d) {
      assert t.Total() + d == s.Total();
    } else if d != 0 {
      assert s.Total() == s.Capacity;
    }
  }

  lemma PartiallyDrainedReferences(s: State, d: nat)
    requires CanPartiallyDrain(s, d)
    ensures References(PartiallyDrained(s, d))
  {
    var t := PartiallyDrained(s, d);
    if s.RecvMode == Multiple && ShrinksFirst(s, d) {
      assert forall i :: 1 <= i <= |s.Lens| ==> t.StartOf(i) + d == s.StartOf(i);
    }
  }

  // ---------------------------------------------------------------------
  // FullDrain

  /** QuicRecvBufferFullDrain's first step: the first chunk's readable bytes
      are released and ReadLength becomes the readable length from there. */
  function FullDrainReleased(s: State): State
    requires |s.Refs| > 0 && s.WrittenRanges != [] && s.BaseOffset + s.ReadLength <= s.WrittenRanges[0].Count
    requires s.RecvMode == Multiple ==> s.ReadLength <= s.ReadPendingLength
    requires s.RecvMode == AppOwned ==> s.ReadLength <= s.VirtualBufferLength
  {
    var base := s.BaseOffset + s.ReadLength;
    s.(ReadStart := 0, BaseOffset := base,
       Refs := if s.RecvMode == Multiple then s.Refs[0 := false] else s.Refs,
       ReadPendingLength := if s.RecvMode == Multiple then s.ReadPendingLength - s.ReadLength else s.ReadPendingLength,
       VirtualBufferLength := if s.RecvMode == AppOwned then s.VirtualBufferLength - s.ReadLength else s.VirtualBufferLength,
       ReadLength := s.WrittenRanges[0].Count - base)
  }

  /** QuicRecvBufferFullDrain's second step: the first chunk is freed when
      others follow it, and the next one becomes the first; the only chunk is
      freed in app-owned mode and kept otherwise. */
  function FirstChunkFreed(t: State): State
    requires t.Lens != [] && |t.Refs| == |t.Lens|
  {
    if |t.Lens| == 1 then
      if t.RecvMode == AppOwned then t.(Lens := [], Refs := [], Capacity := 0) else t
    else
      t.(Lens := t.Lens[1..], Refs := t.Refs[1..], Capacity := t.Lens[1], ReadLength := Min(t.ReadLength, t.Lens[1]))
  }

  /**
   * QuicRecvBufferFullDrain: the header after both steps, and the drain
   * length still to go (none once the last chunk is drained).
   */
  function FullyDrained(s: State, d: nat): (State, nat)
    requires s.Lens != [] && |s.Refs| == |s.Lens| && s.WrittenRanges != []
    requires s.ReadLength <= d && s.BaseOffset + s.ReadLength <= s.WrittenRanges[0].Count
    requires s.RecvMode == Multiple ==> s.ReadLength <= s.ReadPendingLength
    requires s.RecvMode == AppOwned ==> s.ReadLength <= s.VirtualBufferLength
  {
    (FirstChunkFreed(FullDrainReleased(s)), if |s.Lens| == 1 then 0 else d - s.ReadLength)
  }

  /** What Drain guarantees when it chooses a full drain: the first chunk
      holds nothing that stays (it is full, or nothing was written after its
      readable bytes). */
  ghost predicate CanFullyDrain(s: State, d: nat) {
    Consistent(s) && s.Lens != [] && StartsAtZero(s.WrittenRanges) &&
    s.ReadLength <= d <= s.Contig() &&
    (s.RecvMode == Multiple ==> d <= s.ReadPendingLength) &&
    (s.RecvMode != Multiple ==> s.ReadPendingLength == 0) &&
    (|s.Lens| == 1 ==> d == s.ReadLength) &&
    (s.ReadLength == s.Capacity || (MaxEnd(s.WrittenRanges) <= s.BaseOffset + s.ReadLength && s.RecvMode != AppOwned))
  }

  /** What a full drain's two steps need of the header. */
  lemma FullDrainSteps(s: State, d: nat)
    requires CanFullyDrain(s, d)
    ensures s.Lens != [] && |s.Refs| == |s.Lens| && s.WrittenRanges != []
    ensures s.ReadLength <= d && s.BaseOffset + s.ReadLength <= s.WrittenRanges[0].Count
    ensures s.RecvMode == Multiple ==> s.ReadLength <= s.ReadPendingLength
    ensures s.RecvMode == AppOwned ==> s.ReadLength <= s.VirtualBufferLength
  {
    PrefixEndBelowMaxEnd(s.WrittenRanges);
  }

  lemma FullyDrainedConsistent(s: State, d: nat)
    requires CanFullyDrain(s, d)
    ensures Consistent(FullyDrained(s, d).0)
    ensures FullyDrained(s, d).0.Contig() == s.Contig() - s.ReadLength
    ensures FullyDrained(s, d).1 == d - s.ReadLength <= FullyDrained(s, d).0.Contig()
    ensures |s.Lens| == 1 ==> FullyDrained(s, d).1 == 0
    ensures |s.Lens| > 1 ==> |FullyDrained(s, d).0.Lens| == |s.Lens| - 1
  {
    if |s.Lens| == 1 {
      FullyDrainedLast(s, d);
    } else {
      FullyDrainedLayout(s, d);
      FullyDrainedCounters(s, d);
      FullyDrainedReferences(s, d);
    }
  }

  /** The header fields a full drain sets. */
  lemma FullyDrainedFields(s: State, d: nat)
    requires CanFullyDrain(s, d)
    ensures var t := FullyDrained(s, d).0;
      t.WrittenRanges == s.WrittenRanges && t.BaseOffset == s.BaseOffset + s.ReadLength &&
      t.ReadStart == 0 && t.RecvMode == s.RecvMode &&
      (|s.Lens| > 1 ==> t.Lens == s.Lens[1..] && t.Capacity == s.Lens[1])
  {
  }

  /** The only chunk is emptied: nothing readable is left. */
  lemma FullyDrainedLast(s: State, d: nat)
    requires CanFullyDrain(s, d) && |s.Lens| == 1
    ensures Consistent(FullyDrained(s, d).0)
    ensures FullyDrained(s, d).0.Contig() == 0 == s.Contig() - s.ReadLength
    ensures FullyDrained(s, d).1 == d - s.ReadLength == 0
  {
    var t := FullyDrained(s, d).0;
    assert s.Total() == s.Capacity;
    PrefixEndBelowMaxEnd(s.WrittenRanges);
    assert s.Contig() == s.ReadLength;
  }

  lemma FullyDrainedLayout(s: State, d: nat)
    requires CanFullyDrain(s, d) && |s.Lens| > 1
    ensures Layout(FullyDrained(s, d).0)
  {
    var t := FullyDrained(s, d).0;
    Geometry.TotalDropFirst(s.Capacity, s.Lens);
    assert t.Lens == s.Lens[1..];
    assert forall i :: 0 <= i < |t.Lens| ==> t.Lens[i] == s.Lens[i + 1];
    if s.RecvMode == AppOwned {
      assert s.ReadLength == s.Capacity;
    }
  }

  lemma FullyDrainedCounters(s: State, d: nat)
    requires CanFullyDrain(s, d) && |s.Lens| > 1
    ensures Counters(FullyDrained(s, d).0)
    ensures FullyDrained(s, d).0.Contig() == s.Contig() - s.ReadLength
  {
    var t := FullyDrained(s, d).0;
    Geometry.TotalDropFirst(s.Capacity, s.Lens);
    PrefixEndBelowMaxEnd(s.WrittenRanges);
    assert t.Total() + s.Capacity == s.Total();
  }

  lemma FullyDrainedReferences(s: State, d: nat)
    requires CanFullyDrain(s, d) && |s.Lens| > 1
    ensures References(FullyDrained(s, d).0)
  {
    var t := FullyDrained(s, d).0;
    if s.RecvMode == Multiple {
      Geometry.TotalDropFirst(s.Capacity, s.Lens);
      assert forall i :: 1 <= i < |s.Lens| ==> t.StartOf(i) + s.Capacity == s.StartOf(i + 1);
      if s.ReadLength != s.Capacity {
        // Nothing reaches the second chunk, so it is not referenced and there
        // is no third one.
        assert s.ReadPendingLength <= s.Contig() <= s.ReadLength < s.StartOf(1);
        assert !s.Refs[1] && |s.Lens| == 2;
      }
    }
  }

  // ---------------------------------------------------------------------
  // Drain

  /** Drain's first step: the retired chunk is freed and, outside multiple
      mode, every reference is dropped with the pending read length. */
  function DrainPrepared(s: State): State {
    if s.RecvMode == Multiple then s.(Retired := false)
    else s.(Retired := false, Refs := seq(|s.Refs|, i => false), ReadPendingLength := 0)
  }

  /** The loop's invariant: d more bytes to drain, all of them readable. */
  ghost predicate Drainable(s: State, d: nat) {
    Consistent(s) && s.Lens != [] && StartsAtZero(s.WrittenRanges) && d <= s.Contig() &&
    (s.RecvMode == Multiple ==> d <= s.ReadPendingLength) &&
    (s.RecvMode != Multiple ==> s.ReadPendingLength == 0)
  }

  /** The loop's choice between a partial and a full drain of the first chunk. */
  predicate PartialStep(s: State, d: nat)
    requires s.WrittenRanges != []
  {
    var moreDataReadable := s.ReadLength > d;
    var gapInChunk := |s.WrittenRanges| > 1 && s.BaseOffset + s.ReadLength == s.WrittenRanges[0].Count;
    match s.RecvMode
    case Multiple => (moreDataReadable || gapInChunk) && s.Capacity > d
    case AppOwned => s.Capacity > d
    case _ => moreDataReadable || gapInChunk
  }

  lemma PartialStepAllowed(s: State, d: nat)
    requires Drainable(s, d) && PartialStep(s, d)
    ensures CanPartiallyDrain(s, d)
  {
    PrefixEndBelowMaxEnd(s.WrittenRanges);
    if s.RecvMode == Single || s.RecvMode == Circular || (s.RecvMode == Multiple && |s.Lens| == 1) {
      assert s.Total() == s.Capacity;
    }
  }

  lemma FullStepAllowed(s: State, d: nat)
    requires Drainable(s, d) && !PartialStep(s, d)
    ensures CanFullyDrain(s, d)
  {
    PrefixEndBelowMaxEnd(s.WrittenRanges);
    if |s.WrittenRanges| <= 1 {
      assert MaxEnd(s.WrittenRanges) == PrefixEnd(s.WrittenRanges);
    }
    if s.RecvMode == Single || s.RecvMode == Circular || |s.Lens| == 1 {
      assert s.Total() == s.Capacity;
    }
  }

  /**
   * The do/while loop of QuicRecvBufferDrain on a prepared header: partial
   * drains end it, full drains repeat while a drain length is left.
   * Returns the header and the value Drain returns.
   */
  function DrainLoop(s: State, d: nat): (State, bool)
    requires Drainable(s, d)
    decreases |s.Lens|
  {
    if PartialStep(s, d) then
      PartialStepAllowed(s, d);
      PartiallyDrainedConsistent(s, d);
      (PartiallyDrained(s, d), !(s.ReadLength > d))
    else
      FullStepAllowed(s, d);
      FullyDrainedConsistent(s, d);
      var (t, rest) := FullyDrained(s, d);
      if rest == 0 then (t, true) else DrainLoop(t, rest)
  }

  /** One pass of the drain loop. */
  lemma DrainLoopUnfold(s: State, d: nat)
    requires Drainable(s, d)
    ensures PartialStep(s, d) ==> (CanPartiallyDrain(s, d) &&
      DrainLoop(s, d).0 == PartiallyDrained(s, d) && DrainLoop(s, d).1 == !(s.ReadLength > d))
    ensures !PartialStep(s, d) ==> (CanFullyDrain(s, d) &&
      var (t, rest) := FullyDrained(s, d);
      (rest == 0 ==> DrainLoop(s, d) == (t, true)) &&
      (rest != 0 ==> Drainable(t, rest) && |t.Lens| < |s.Lens| && DrainLoop(s, d) == DrainLoop(t, rest)))
  {
    if PartialStep(s, d) {
      PartialStepAllowed(s, d);
    } else {
      FullStepAllowed(s, d);
      FullyDrainedConsistent(s, d);
    }
  }

  /** QuicRecvBufferDrain: the header after releasing d read bytes, and the
      value returned. */
  function Drained(s: State, d: nat): (State, bool)
    requires Consistent(s) && s.Lens != [] && StartsAtZero(s.WrittenRanges)
    requires d <= s.ReadPendingLength
  {
    DrainPreparedDrainable(s, d);
    DrainLoop(DrainPrepared(s), d)
  }

  lemma DrainPreparedDrainable(s: State, d: nat)
    requires Consistent(s) && s.Lens != [] && StartsAtZero(s.WrittenRanges)
    requires d <= s.ReadPendingLength
    ensures Drainable(DrainPrepared(s), d)
  {
  }

  /**
   * What draining d bytes from s promises of the header t it leaves and the
   * value r it returns: exactly d bytes are released and the header stays
   * consistent; TRUE comes back whenever nothing readable is left and, in
   * single and circular mode, only then.
   */
  ghost predicate DrainedFrom(s: State, d: nat, t: State, r: bool) {
    Consistent(t) &&
    t.BaseOffset == s.BaseOffset + d && t.WrittenRanges == s.WrittenRanges &&
    t.Contig() + d == s.Contig() && t.RecvMode == s.RecvMode &&
    t.ReadPendingLength + (if s.RecvMode == Multiple then d else 0) == s.ReadPendingLength &&
    (t.Contig() == 0 ==> r) &&
    (t.RecvMode == Single || t.RecvMode == Circular ==> (r <==> t.Contig() == 0))
  }

  /** A partial drain ends the loop having released exactly d bytes. */
  lemma PartialStepSpec(s: State, d: nat)
    requires Drainable(s, d) && PartialStep(s, d)
    ensures DrainedFrom(s, d, PartiallyDrained(s, d), !(s.ReadLength > d))
  {
    PartialStepAllowed(s, d);
    PartiallyDrainedConsistent(s, d);
    var t := PartiallyDrained(s, d);
    assert t.Capacity > 0;
  }

  /** A full drain releases the first chunk's readable bytes; when that
      was all there was to drain, it ends the loop. */
  lemma FullStepSpec(s: State, d: nat)
    requires Drainable(s, d) && !PartialStep(s, d)
    ensures var (t, rest) := FullyDrained(s, d);
      rest <= d && Consistent(t) &&
      t.BaseOffset + rest == s.BaseOffset + d && t.WrittenRanges == s.WrittenRanges &&
      t.Contig() + d == s.Contig() + rest && t.RecvMode == s.RecvMode &&
      t.ReadPendingLength + (if s.RecvMode == Multiple then d else 0) ==
        s.ReadPendingLength + (if s.RecvMode == Multiple then rest else 0) &&
      (rest == 0 ==> DrainedFrom(s, d, t, true))
  {
    FullStepAllowed(s, d);
    FullyDrainedConsistent(s, d);
    var (t, rest) := FullyDrained(s, d);
    if rest == 0 {
      if t.Lens != [] {
        assert t.Capacity > 0;
      }
      if |s.Lens| == 1 {
        FullyDrainedLast(s, d);
      }
    }
  }

  /** The drain loop releases exactly d bytes (see DrainedFrom). */
  lemma {:induction false} DrainLoopSpec(s: State, d: nat)
    requires Drainable(s, d)
    ensures DrainedFrom(s, d, DrainLoop(s, d).0, DrainLoop(s, d).1)
    decreases |s.Lens|
  {
    DrainLoopUnfold(s, d);
    if PartialStep(s, d) {
      PartialStepSpec(s, d);
    } else {
      FullStepSpec(s, d);
      var (t, rest) := FullyDrained(s, d);
      if rest != 0 {
        DrainLoopSpec(t, rest);
      }
    }
  }

  /** Drain releases exactly d bytes: BaseOffset moves by d, the written ranges
      stay, the readable length shrinks by d, and the pending read length
      shrinks by d in multiple mode and is reset otherwise. */
  lemma DrainedSpec(s: State, d: nat)
    requires Consistent(s) && s.Lens != [] && StartsAtZero(s.WrittenRanges)
    requires d <= s.ReadPendingLength
    ensures var (t, r) := Drained(s, d);
      Consistent(t) &&
      t.BaseOffset == s.BaseOffset + d && t.WrittenRanges == s.WrittenRanges &&
      t.Contig() == s.Contig() - d && t.RecvMode == s.RecvMode && !t.Retired &&
      t.ReadPendingLength == (if s.RecvMode == Multiple then s.ReadPendingLength - d else 0) &&
      (t.Contig() == 0 ==> r) &&
      (s.RecvMode == Single || s.RecvMode == Circular ==> (r <==> t.Contig() == 0))
  {
    DrainPreparedDrainable(s, d);
    DrainLoopSpec(DrainPrepared(s), d);
  }

  /**
   * In multiple mode Drain can return TRUE with bytes still readable: a full
   * drain that ends exactly at the end of the first chunk leaves the loop
   * through its `while (DrainLength != 0)` test and returns TRUE, whatever
   * the next chunk holds.  Here 12 bytes are written over chunks of 8 and 16
   * bytes, the first 8 were read, and draining them returns TRUE although 4
   * bytes remain readable.
   */
  lemma DrainReturnsTrueWithDataLeft()
    ensures var s := State(Multiple, 0, 0, 8, 8, 8, 32, [Subrange(0, 12)], [8, 16], [true, false], false);
      Consistent(s) && Drained(s, 8).1 && Drained(s, 8).0.Contig() == 4
  {
    var s := State(Multiple, 0, 0, 8, 8, 8, 32, [Subrange(0, 12)], [8, 16], [true, false], false);
    assert Geometry.IsPowerOfTwo(8) && Geometry.IsPowerOfTwo(16) by {
      assert Geometry.IsPowerOfTwo(1) && Geometry.IsPowerOfTwo(2) && Geometry.IsPowerOfTwo(4);
    }
    assert Geometry.Sum([16]) == 16 + Geometry.Sum([]);
    assert s.Total() == 24;
    assert Consistent(s);
    DrainedSpec(s, 8);
  }

  /** The value Drain evidently means to return: whether the first chunk has
      no readable bytes left once the loop ends. */
  function DrainedCorrected(s: State, d: nat): (State, bool)
    requires Consistent(s) && s.Lens != [] && StartsAtZero(s.WrittenRanges)
    requires d <= s.ReadPendingLength
  {
    var t := Drained(s, d).0;
    (t, t.ReadLength == 0)
  }

  /** With that return value, Drain returns TRUE exactly when nothing readable is left. */
  lemma DrainedCorrectedSpec(s: State, d: nat)
    requires Consistent(s) && s.Lens != [] && StartsAtZero(s.WrittenRanges)
    requires d <= s.ReadPendingLength
    ensures var (t, r) := DrainedCorrected(s, d);
      t == Drained(s, d).0 && (r <==> t.Contig() == 0)
  {
    DrainPreparedDrainable(s, d);
    DrainLoopSpec(DrainPrepared(s), d);
  }

  // ---------------------------------------------------------------------
  // Read

  /** Index of the chunk holding the byte rel positions after BaseOffset. */
  function ChunkOf(s: State, rel: nat): nat
    requires Geometry.Shape(s.ReadStart, s.Capacity, s.Lens) && rel < s.Total()
  {
    Geometry.Locate(s.ReadStart, s.Capacity, s.Lens, rel).0
  }

  /** The reference flags with chunks lo to hi (inclusive) marked. */
  function Marked(refs: seq<bool>, lo: nat, hi: int): (r: seq<bool>)
    ensures |r| == |refs|
    ensures forall i :: 0 <= i < |refs| ==> r[i] == (refs[i] || lo <= i <= hi)
  {
    seq(|refs|, i requires 0 <= i < |refs| => refs[i] || lo <= i <= hi)
  }

  /** Marking the chunk after a marked run extends the run. */
  lemma MarkedGrow(refs: seq<bool>, lo: nat, hi: nat)
    requires lo <= hi + 1 < |refs|
    ensures Marked(refs, lo, hi)[hi + 1 := true] == Marked(refs, lo, hi + 1)
  {
    assert Marked(refs, lo, hi)[hi + 1 := true] == Marked(refs, lo, hi + 1);
  }

  /** Marking chunk j, then chunk j + 1, marks the run from j to j + 1. */
  lemma MarkedSteps(refs: seq<bool>, j: nat)
    requires j < |refs|
    ensures refs[j := true] == Marked(refs, j, j)
    ensures j + 1 < |refs| ==> refs[j := true][j + 1 := true] == Marked(refs, j, j + 1)
  {
    assert refs[j := true] == Marked(refs, j, j);
    if j + 1 < |refs| {
      assert refs[j := true][j + 1 := true] == Marked(refs, j, j + 1);
    }
  }

  /** Smallest n >= 1 with the first n chunks holding `readable` bytes
      (QuicRecvBufferReadBufferNeededCount's loop). */
  function CoverCount(s: State, readable: nat, n: nat): (c: nat)
    requires 1 <= n <= |s.Lens| && readable <= s.Total()
    ensures n <= c <= |s.Lens| && readable <= s.StartOf(c)
    decreases |s.Lens| - n
  {
    if readable <= s.StartOf(n) then n
    else
      if n == |s.Lens| then
        Geometry.ChunkStartLast(s.Capacity, s.Lens);
        assert false; n
      else CoverCount(s, readable, n + 1)
  }

  /** CoverCount is the least such count. */
  lemma {:induction false} CoverCountLeast(s: State, readable: nat, n: nat, m: nat)
    requires 1 <= n <= |s.Lens| && readable <= s.Total() && n <= m < CoverCount(s, readable, n)
    ensures readable > s.StartOf(m)
    decreases |s.Lens| - n
  {
    if n < m {
      CoverCountLeast(s, readable, n + 1, m);
    }
  }

  /** Read in single and circular mode: everything readable is handed out and
      the only chunk becomes referenced. */
  function ReadWhole(s: State): State
    requires |s.Refs| >= 1
  {
    s.(ReadPendingLength := s.ReadPendingLength + s.Contig(), Refs := s.Refs[0 := true])
  }

  /** Read in multiple mode: the bytes after the pending ones are handed out,
      from the chunks holding them. */
  function ReadMultiple(s: State): State
    requires Geometry.Shape(s.ReadStart, s.Capacity, s.Lens) && s.ReadPendingLength < s.Contig() <= s.Total()
  {
    s.(ReadPendingLength := s.Contig(),
       Refs := Marked(s.Refs, ChunkOf(s, s.ReadPendingLength), ChunkOf(s, s.Contig() - 1)))
  }

  /** Number of buffers an app-owned read fills, with `provided` buffers offered. */
  function AppOwnedReadCount(s: State, provided: nat): nat
    requires s.Lens != [] && s.Contig() <= s.Total() && provided >= 1
  {
    Min(provided, CoverCount(s, s.Contig(), 1))
  }

  /** Read in app-owned mode: one buffer per chunk, as far as the buffers and
      the readable bytes go. */
  function ReadAppOwned(s: State, provided: nat): State
    requires s.Lens != [] && s.Contig() <= s.Total() && provided >= 1
  {
    var c := AppOwnedReadCount(s, provided);
    s.(ReadPendingLength := Min(s.Contig(), s.StartOf(c)), Refs := Marked(s.Refs, 0, c - 1))
  }

  /** What QuicRecvBufferRead demands of the header. */
  ghost predicate CanRead(s: State, provided: nat) {
    Consistent(s) && s.Lens != [] && StartsAtZero(s.WrittenRanges) &&
    match s.RecvMode
    case Single => s.ReadPendingLength == 0 && !s.Refs[0] && provided >= 1
    case Circular => s.ReadPendingLength == 0 && !s.Refs[0] && provided >= 2
    case Multiple => s.ReadPendingLength < s.Contig() && provided >= 3
    case AppOwned => s.ReadPendingLength == 0 && provided >= 1
  }

  /** The header after QuicRecvBufferRead. */
  function ReadState(s: State, provided: nat): State
    requires CanRead(s, provided)
  {
    PrefixEndBelowMaxEnd(s.WrittenRanges);
    match s.RecvMode
    case Multiple => ReadMultiple(s)
    case AppOwned => ReadAppOwned(s, provided)
    case _ => ReadWhole(s)
  }

  /** A multiple-mode read touches at most two chunks: the one holding the
      first unread byte and the one after it. */
  lemma ReadMultipleTwoChunks(s: State)
    requires Consistent(s) && s.RecvMode == Multiple && s.ReadPendingLength < s.Contig()
    ensures s.Contig() <= s.Total()
    ensures ChunkOf(s, s.ReadPendingLength) <= ChunkOf(s, s.Contig() - 1) <= ChunkOf(s, s.ReadPendingLength) + 1
  {
    PrefixEndBelowMaxEnd(s.WrittenRanges);
    PendingChunks(s, s.ReadPendingLength, s.Contig());
  }

  /** The chunks from the one holding position `pending` to the one holding
      position c - 1 are at most two when the second-to-last chunk starts
      before `pending`. */
  lemma PendingChunks(s: State, pending: nat, c: nat)
    requires Geometry.Shape(s.ReadStart, s.Capacity, s.Lens) && pending < c <= s.Total()
    requires |s.Lens| >= 3 ==> pending > s.StartOf(|s.Lens| - 2)
    ensures ChunkOf(s, pending) <= ChunkOf(s, c - 1) <= ChunkOf(s, pending) + 1
  {
    var k := ChunkOf(s, pending);
    ChunkOfBounds(s, pending);
    ChunkOfMono(s, pending, c - 1);
    if k + 1 <= |s.Lens| - 2 {
      // chunk k + 1 would come before the second-to-last chunk, which starts
      // before the pending bytes end
      StartOfMono(s, k + 1, |s.Lens| - 2);
      assert false;
    }
  }

  lemma StartOfMono(s: State, i: nat, j: nat)
    requires i <= j <= |s.Lens|
    ensures s.StartOf(i) <= s.StartOf(j)
  {
    if 1 <= i {
      Geometry.ChunkStartMono(s.Capacity, s.Lens, i, j);
    }
  }

  /** ChunkOf(rel) is the chunk whose range of positions holds rel. */
  lemma ChunkOfBounds(s: State, rel: nat)
    requires Geometry.Shape(s.ReadStart, s.Capacity, s.Lens) && rel < s.Total()
    ensures var c := ChunkOf(s, rel);
      c < |s.Lens| && s.StartOf(c) <= rel && (c + 1 < |s.Lens| ==> rel < s.StartOf(c + 1))
  {
    var c := ChunkOf(s, rel);
    if rel >= s.Capacity {
      Geometry.LocateLaterInverse(s.ReadStart, s.Capacity, s.Lens, rel);
      if c + 1 < |s.Lens| {
        Geometry.ChunkStartStep(s.Capacity, s.Lens, c);
      }
    }
  }

  lemma ChunkOfMono(s: State, a: nat, b: nat)
    requires Geometry.Shape(s.ReadStart, s.Capacity, s.Lens) && a <= b < s.Total()
    ensures ChunkOf(s, a) <= ChunkOf(s, b)
  {
    ChunkOfBounds(s, a);
    ChunkOfBounds(s, b);
    var ca := ChunkOf(s, a);
    var cb := ChunkOf(s, b);
    if cb < ca {
      StartOfMono(s, cb + 1, ca);
    }
  }

  lemma ReadStateConsistent(s: State, provided: nat)
    requires CanRead(s, provided)
    ensures Consistent(ReadState(s, provided))
    ensures ReadState(s, provided).Contig() == s.Contig()
    ensures ReadState(s, provided).ReadPendingLength >= s.ReadPendingLength
  {
    PrefixEndBelowMaxEnd(s.WrittenRanges);
    if s.RecvMode == Multiple {
      ReadMultipleConsistent(s);
    } else if s.RecvMode == AppOwned {
      ReadAppOwnedConsistent(s, provided);
    }
  }

  /**
   * A read only hands out data: the stream position, the written ranges and
   * the chunks stay, the pending bytes grow to at most the readable prefix,
   * to all of it outside app-owned mode, and references are only added.
   */
  lemma ReadStateSpec(s: State, provided: nat)
    requires CanRead(s, provided)
    ensures var t := ReadState(s, provided);
      t.BaseOffset == s.BaseOffset && t.ReadStart == s.ReadStart && t.ReadLength == s.ReadLength &&
      t.WrittenRanges == s.WrittenRanges && t.Lens == s.Lens && t.VirtualBufferLength == s.VirtualBufferLength &&
      s.ReadPendingLength <= t.ReadPendingLength <= s.Contig() &&
      (s.RecvMode != AppOwned ==> t.ReadPendingLength == s.Contig()) &&
      (s.RecvMode == AppOwned && s.Contig() > 0 ==> t.ReadPendingLength > 0) &&
      |t.Refs| == |s.Refs| && (forall i :: 0 <= i < |s.Refs| && s.Refs[i] ==> t.Refs[i])
  {
    PrefixEndBelowMaxEnd(s.WrittenRanges);
    if s.RecvMode == AppOwned && s.Contig() > 0 {
      var c := AppOwnedReadCount(s, provided);
      assert s.StartOf(c) > 0 by {
        if c > 1 {
          StartOfMono(s, 1, c);
        }
      }
    }
  }

  lemma ReadMultipleConsistent(s: State)
    requires Consistent(s) && s.RecvMode == Multiple && s.ReadPendingLength < s.Contig() <= s.Total()
    ensures Consistent(ReadMultiple(s))
  {
    var t := ReadMultiple(s);
    assert t == s.(ReadPendingLength := t.ReadPendingLength, Refs := t.Refs);
    ReadMultipleReferences(s);
  }

  /** Every chunk the read marks starts before the new end of the pending bytes. */
  lemma ReadMultipleReferences(s: State)
    requires Geometry.Shape(s.ReadStart, s.Capacity, s.Lens) && |s.Refs| == |s.Lens|
    requires s.ReadPendingLength < s.Contig() <= s.Total()
    requires forall i :: 0 <= i < |s.Lens| && s.Refs[i] ==> s.ReadPendingLength > s.StartOf(i)
    ensures forall i :: 0 <= i < |s.Lens| && ReadMultiple(s).Refs[i] ==> s.Contig() > s.StartOf(i)
  {
    var last := ChunkOf(s, s.Contig() - 1);
    ChunkOfBounds(s, s.Contig() - 1);
    forall i | 0 <= i <= last
      ensures s.StartOf(i) < s.Contig()
    {
      StartOfMono(s, i, last);
    }
  }

  lemma ReadAppOwnedConsistent(s: State, provided: nat)
    requires Consistent(s) && s.RecvMode == AppOwned && s.Lens != [] && s.Contig() <= s.Total() && provided >= 1
    ensures Consistent(ReadAppOwned(s, provided))
  {
  }

  /** The chunk whose range of positions holds rel is ChunkOf(rel). */
  lemma ChunkOfIs(s: State, rel: nat, j: nat)
    requires Geometry.Shape(s.ReadStart, s.Capacity, s.Lens) && rel < s.Total() && j < |s.Lens|
    requires s.StartOf(j) <= rel && (j + 1 < |s.Lens| ==> rel < s.StartOf(j + 1))
    ensures ChunkOf(s, rel) == j
  {
    ChunkOfBounds(s, rel);
    var c := ChunkOf(s, rel);
    if c < j {
      StartOfMono(s, c + 1, j);
    } else if j < c {
      StartOfMono(s, j + 1, c);
    }
  }

  /**
   * Multiple mode: chunk j holds the first unread byte, found cro positions
   * into the chunk's readable bytes; the read takes n bytes from it (the
   * first chunk's readable rest, or a later chunk's bytes up to its end or to
   * the end of the readable data).
   */
  lemma MultipleThisChunk(s: State, j: nat, cro: nat, n: nat)
    requires Consistent(s) && s.RecvMode == Multiple && StartsAtZero(s.WrittenRanges)
    requires s.ReadPendingLength < s.Contig() <= s.Total() && j < |s.Lens|
    requires j == 0 ==> cro == s.ReadPendingLength < s.ReadLength && n == s.ReadLength - cro
    requires j > 0 ==> s.StartOf(j) + cro == s.ReadPendingLength && cro < s.Lens[j] &&
                       n == Min(s.Lens[j] - cro, s.Contig() - s.ReadPendingLength)
    ensures 0 < n <= s.Contig() - s.ReadPendingLength && n <= s.Lens[j]
    ensures ChunkOf(s, s.ReadPendingLength) == j
    ensures j == 0 ==> s.ReadPendingLength + n <= s.Capacity
    ensures j > 0 ==> cro + n <= s.Lens[j]
    ensures n == s.Contig() - s.ReadPendingLength ==> ChunkOf(s, s.Contig() - 1) == j
  {
    var rpl := s.ReadPendingLength;
    if j == 0 {
      if 1 < |s.Lens| {
        assert s.StartOf(1) == s.Capacity by { assert s.Lens[1..1] == []; }
      }
      ChunkOfIs(s, rpl, 0);
      if n == s.Contig() - rpl {
        ChunkOfIs(s, s.Contig() - 1, 0);
      }
    } else {
      if j + 1 < |s.Lens| {
        Geometry.ChunkStartStep(s.Capacity, s.Lens, j);
      }
      ChunkOfIs(s, rpl, j);
      if n == s.Contig() - rpl {
        ChunkOfIs(s, s.Contig() - 1, j);
      }
    }
  }

  /**
   * Multiple mode: when the unread bytes go past chunk j, the rest of them
   * lie at the start of chunk j + 1 and end within it.
   */
  lemma MultipleNextChunk(s: State, j: nat, n: nat)
    requires Geometry.Shape(s.ReadStart, s.Capacity, s.Lens)
    requires s.ReadPendingLength < s.Contig() <= s.Total() && j < |s.Lens| && ChunkOf(s, s.ReadPendingLength) == j
    requires ChunkOf(s, s.Contig() - 1) <= j + 1
    requires s.ReadPendingLength + n == (if j == 0 then s.Capacity else s.StartOf(j) + s.Lens[j])
    requires s.ReadPendingLength + n < s.Contig()
    ensures j + 1 < |s.Lens| && s.ReadPendingLength + n == Geometry.ChunkStart(s.Capacity, s.Lens, j + 1)
    ensures s.Contig() - s.ReadPendingLength - n <= s.Lens[j + 1]
    ensures ChunkOf(s, s.Contig() - 1) == j + 1
  {
    NextChunkHolds(s, j, s.ReadPendingLength, n, s.Contig());
  }

  /** MultipleNextChunk with the pending length and the contiguous length as plain values. */
  lemma NextChunkHolds(s: State, j: nat, pending: nat, n: nat, c: nat)
    requires Geometry.Shape(s.ReadStart, s.Capacity, s.Lens)
    requires pending < c <= s.Total() && j < |s.Lens| && ChunkOf(s, pending) == j
    requires ChunkOf(s, c - 1) <= j + 1
    requires pending + n == (if j == 0 then s.Capacity else s.StartOf(j) + s.Lens[j])
    requires pending + n < c
    ensures j + 1 < |s.Lens| && pending + n == Geometry.ChunkStart(s.Capacity, s.Lens, j + 1)
    ensures c - pending - n <= s.Lens[j + 1]
    ensures ChunkOf(s, c - 1) == j + 1
  {
    ChunkOfMono(s, pending, c - 1);
    NextChunkIsLast(s, j, pending + n, c);
    NextChunkFits(s, j, pending + n, c);
  }

  /** Position c - 1, in the chunk after j that starts at `next`, lies within that chunk. */
  lemma NextChunkFits(s: State, j: nat, next: nat, c: nat)
    requires Geometry.Shape(s.ReadStart, s.Capacity, s.Lens)
    requires j + 1 < |s.Lens| && next == Geometry.ChunkStart(s.Capacity, s.Lens, j + 1)
    requires next < c <= s.Total() && ChunkOf(s, c - 1) == j + 1
    ensures c - next <= s.Lens[j + 1]
  {
    ChunkOfBounds(s, c - 1);
    LastChunkEnd(s, j + 1, c - 1);
  }

  /** The chunk after j starts at `next` and holds position c - 1. */
  lemma NextChunkIsLast(s: State, j: nat, next: nat, c: nat)
    requires Geometry.Shape(s.ReadStart, s.Capacity, s.Lens)
    requires next < c <= s.Total() && j < |s.Lens| && j <= ChunkOf(s, c - 1) <= j + 1
    requires next == (if j == 0 then s.Capacity else s.StartOf(j) + s.Lens[j])
    ensures j + 1 < |s.Lens| && next == Geometry.ChunkStart(s.Capacity, s.Lens, j + 1)
    ensures ChunkOf(s, c - 1) == j + 1
  {
    Geometry.NextChunkExists(s.Capacity, s.Lens, j, next, c);
    ChunkOfBounds(s, c - 1);
  }

  /** The references a multiple-mode read leaves: chunks j to k marked. */
  lemma MultipleReadRefs(s: State, j: nat, k: nat)
    requires Geometry.Shape(s.ReadStart, s.Capacity, s.Lens) && s.ReadPendingLength < s.Contig() <= s.Total()
    requires ChunkOf(s, s.ReadPendingLength) == j && ChunkOf(s, s.Contig() - 1) == k
    ensures ReadMultiple(s).Refs == Marked(s.Refs, j, k)
  {
  }

  /** A position in chunk i lies before the chunk's end. */
  lemma LastChunkEnd(s: State, i: nat, rel: nat)
    requires Geometry.Shape(s.ReadStart, s.Capacity, s.Lens)
    requires 1 <= i < |s.Lens| && rel < s.Total()
    requires i + 1 < |s.Lens| ==> rel < s.StartOf(i + 1)
    ensures rel < Geometry.ChunkStart(s.Capacity, s.Lens, i) + s.Lens[i]
  {
    Geometry.ChunkStartStep(s.Capacity, s.Lens, i);
    if i + 1 == |s.Lens| {
      Geometry.ChunkStartLast(s.Capacity, s.Lens);
    }
  }

  /** App-owned mode: the first buffer of a read is the first chunk's
      readable bytes, which lie in it from ReadStart on without wrapping. */
  lemma AppOwnedFirstChunk(s: State)
    requires Consistent(s) && s.RecvMode == AppOwned && StartsAtZero(s.WrittenRanges) && s.Lens != []
    ensures s.ReadLength == Min(s.Contig(), s.StartOf(1)) <= s.Capacity
    ensures s.ReadStart + s.ReadLength <= s.Lens[0] && s.ReadStart + s.ReadLength <= s.ReadStart + s.Capacity
  {
    assert s.StartOf(1) == s.Capacity by { assert s.Lens[1..1] == []; }
  }

  /** App-owned mode with c readable bytes: while some remain past chunk k's
      start, chunk k exists and the read takes n of its bytes from its start. */
  lemma AppOwnedNextChunk(s: State, k: nat, n: nat, c: nat)
    requires Geometry.Shape(s.ReadStart, s.Capacity, s.Lens) && c <= s.Total()
    requires 1 <= k <= |s.Lens| && s.StartOf(k) < c
    requires k < |s.Lens| ==> n == Min(s.Lens[k], c - s.StartOf(k))
    ensures k < |s.Lens| && s.StartOf(k) + n == Min(c, s.StartOf(k + 1)) && n <= s.Lens[k]
  {
    if k == |s.Lens| {
      Geometry.ChunkStartLast(s.Capacity, s.Lens);
    }
    Geometry.ChunkStartStep(s.Capacity, s.Lens, k);
  }

  /** An app-owned read that stops after k buffers, because the buffers ran
      out or the readable bytes did, fills AppOwnedReadCount buffers. */
  lemma AppOwnedCount(s: State, provided: nat, k: nat)
    requires s.Lens != [] && s.Contig() <= s.Total() && 1 <= k <= |s.Lens| && 1 <= provided
    requires k <= provided
    requires k == 1 || s.StartOf(k - 1) < s.Contig()
    requires k == provided || s.Contig() <= s.StartOf(k)
    ensures AppOwnedReadCount(s, provided) == k
  {
    var c := CoverCount(s, s.Contig(), 1);
    if c < k {
      StartOfMono(s, c, k - 1);
    }
    if s.Contig() <= s.StartOf(k) && k < c {
      CoverCountLeast(s, s.Contig(), 1, k);
    }
  }

  // ---------------------------------------------------------------------
  // ResetRead

  /** QuicRecvBufferResetRead (single mode): the pending read is abandoned. */
  function ResetReadState(s: State): State
    requires |s.Refs| >= 1
  {
    s.(ReadPendingLength := 0, Refs := s.Refs[0 := false])
  }

  lemma ResetReadConsistent(s: State)
    requires Consistent(s) && s.RecvMode == Single
    ensures Consistent(ResetReadState(s)) && ResetReadState(s).Contig() == s.Contig()
  {
  }
}
