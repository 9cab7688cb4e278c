/**
 * Sent-packet metadata (src/core/sent_packet_metadata.c): a block describing
 * a sent packet and its frames, taken from one of a set of pools, one per
 * possible frame count, and returned when the packet is acknowledged or
 * declared lost, at which point each frame releases what it holds on to.
 *
 * The calls into streams and datagrams that releasing a frame makes are
 * recorded as an effect log; the pool allocator is a count of blocks out
 * per pool, and whether an allocation succeeds is a parameter.
 */
module SentPacketMetadata {
  /** QUIC_MAX_FRAMES_PER_PACKET: the number of pools and the largest frame count. */
  const MAX_FRAMES_PER_PACKET: nat := 12
  /** A NULL client context. */
  const NULL: nat := 0

  /** The frame types whose release does something; every other frame type is OtherFrame. */
  datatype FrameType =
    | ResetStream | MaxStreamData | StreamDataBlocked | StopSending | Stream | ReliableResetStream
    | Datagram | Datagram1
    | OtherFrame

  /** QUIC_SENT_FRAME_METADATA, reduced to what releasing it reads: the
      stream a stream frame belongs to and a datagram's client context. */
  datatype SentFrameMetadata = SentFrameMetadata(Type: FrameType, Stream: nat, ClientContext: nat)

  datatype DatagramSendState = LostDiscarded

  /** A call made while frames are released. */
  datatype Effect =
    | StreamSentMetadataDecrement(Stream: nat)
    | DatagramIndicateSendStateChange(ClientContext: nat, State: DatagramSendState)

  /** The six frame types that hold a reference on their stream's sent metadata. */
  predicate IsStreamFrame(t: FrameType) {
    match t
    case ResetStream | MaxStreamData | StreamDataBlocked | StopSending | Stream | ReliableResetStream => true
    case _ => false
  }

  predicate IsDatagramFrame(t: FrameType) {
    t == Datagram || t == Datagram1
  }

  /** Releasing the frame does something: it is a stream frame, or a datagram
      whose client context is set. */
  predicate Releases(f: SentFrameMetadata) {
    IsStreamFrame(f.Type) || (IsDatagramFrame(f.Type) && f.ClientContext != NULL)
  }

  /** The one call releasing a frame makes, when Releases(f). */
  function ReleaseEffect(f: SentFrameMetadata): Effect
    requires Releases(f)
  {
    if IsStreamFrame(f.Type) then StreamSentMetadataDecrement(f.Stream)
    else DatagramIndicateSendStateChange(f.ClientContext, LostDiscarded)
  }

  /** The calls QuicSentPacketMetadataReleaseFrames makes for one frame. */
  function FrameEffects(f: SentFrameMetadata): (r: seq<Effect>)
    ensures |r| <= 1
  {
    match f.Type
    case ResetStream => [StreamSentMetadataDecrement(f.Stream)]
    case MaxStreamData => [StreamSentMetadataDecrement(f.Stream)]
    case StreamDataBlocked => [StreamSentMetadataDecrement(f.Stream)]
    case StopSending => [StreamSentMetadataDecrement(f.Stream)]
    case Stream => [StreamSentMetadataDecrement(f.Stream)]
    case ReliableResetStream => [StreamSentMetadataDecrement(f.Stream)]
    case Datagram | Datagram1 =>
      if f.ClientContext != NULL then [DatagramIndicateSendStateChange(f.ClientContext, LostDiscarded)] else []
    case OtherFrame => []
  }

  /** The calls made releasing frames, in order. */
  function ReleaseLog(frames: seq<SentFrameMetadata>): seq<Effect>
    decreases |frames|
  {
    if frames == [] then []
    else ReleaseLog(frames[..|frames| - 1]) + FrameEffects(frames[|frames| - 1])
  }

  predicate Increasing(s: seq<nat>) {
    forall a, b :: 0 <= a < b < |s| ==> s[a] < s[b]
  }

  /** Each frame makes exactly the one call its type calls for, or none. */
  lemma FrameEffectsSpec(f: SentFrameMetadata)
    ensures Releases(f) ==> FrameEffects(f) == [ReleaseEffect(f)]
    ensures !Releases(f) ==> FrameEffects(f) == []
  {
  }

  /**
   * Releasing frames makes one call per frame that Releases, none for any
   * other, in frame order: the k-th call is the one of frame src[k], the
   * positions src[k] increase, and they are exactly the frames that Release.
   */
  lemma {:induction false} ReleaseLogOrder(frames: seq<SentFrameMetadata>) returns (src: seq<nat>)
    ensures |src| == |ReleaseLog(frames)| && Increasing(src)
    ensures forall k :: 0 <= k < |src| ==>
      src[k] < |frames| && Releases(frames[src[k]]) && ReleaseLog(frames)[k] == ReleaseEffect(frames[src[k]])
    ensures forall i: nat :: i in src <==> i < |frames| && Releases(frames[i])
    decreases |frames|
  {
    if frames == [] {
      src := [];
    } else {
      var n := |frames| - 1;
      var prefix := frames[..n];
      var rest := ReleaseLogOrder(prefix);
      var log0 := ReleaseLog(prefix);
      FrameEffectsSpec(frames[n]);
      assert forall k :: 0 <= k < |rest| ==> rest[k] in rest;
      if Releases(frames[n]) {
        src := rest + [n];
        assert ReleaseLog(frames) == log0 + [ReleaseEffect(frames[n])];
        forall k | 0 <= k < |src|
          ensures src[k] < |frames| && Releases(frames[src[k]]) && ReleaseLog(frames)[k] == ReleaseEffect(frames[src[k]])
        {
          if k < |rest| {
            assert prefix[rest[k]] == frames[rest[k]];
          }
        }
        forall i: nat ensures i in src <==> i < |frames| && Releases(frames[i]) {
          if i < n {
            assert prefix[i] == frames[i];
          }
        }
      } else {
        src := rest;
        assert ReleaseLog(frames) == log0;
        forall k | 0 <= k < |src|
          ensures src[k] < |frames| && Releases(frames[src[k]]) && ReleaseLog(frames)[k] == ReleaseEffect(frames[src[k]])
        {
          assert prefix[rest[k]] == frames[rest[k]];
        }
        forall i: nat ensures i in src <==> i < |frames| && Releases(frames[i]) {
          if i < n {
            assert prefix[i] == frames[i];
          }
        }
      }
    }
  }

  /** Element size of pool i: a packet block with room for i + 1 frames. */
  function PoolElementSize(i: nat, frameSize: nat, packetSize: nat): nat {
    (i + 1) * frameSize + packetSize
  }

  /** A block of the given size has room for n frames after the packet header. */
  predicate RoomFor(elementSize: nat, n: nat, frameSize: nat, packetSize: nat) {
    n * frameSize + packetSize <= elementSize
  }

  /** A block from pool FrameCount - 1 has room for exactly FrameCount frames. */
  lemma PoolRoom(frameCount: nat, frameSize: nat, packetSize: nat)
    requires 1 <= frameCount && frameSize > 0
    ensures var e := PoolElementSize(frameCount - 1, frameSize, packetSize);
      RoomFor(e, frameCount, frameSize, packetSize) && !RoomFor(e, frameCount + 1, frameSize, packetSize)
  {
    assert (frameCount + 1) * frameSize == frameCount * frameSize + frameSize;
  }

  /** A CXPLAT_POOL as seen from here: its element size and the blocks out of it. */
  datatype CxPlatPool = CxPlatPool(ElementSize: nat, Outstanding: nat)

  /** QUIC_SENT_PACKET_METADATA: the frames of a sent packet, in a block
      from pool Pool. */
  class SentPacketMetadata {
    /** The pool the block was allocated from. */
    const Pool: nat
    var FrameCount: nat
    const Frames: array<SentFrameMetadata>
    /** Flags.Freed, kept by debug builds. */
    var Freed: bool

    constructor (pool: nat, room: nat)
      ensures Pool == pool && Frames.Length == room && FrameCount == 0 && !Freed && fresh(Frames)
    {
      Pool := pool;
      FrameCount := 0;
      Frames := new SentFrameMetadata[room](_ => SentFrameMetadata(OtherFrame, 0, NULL));
      Freed := false;
    }

    /** QuicSentPacketMetadataReleaseFrames: the calls releasing the first
        FrameCount frames makes, in order. */
    method ReleaseFrames() returns (log: seq<Effect>)
      requires FrameCount <= Frames.Length
      ensures log == ReleaseLog(Frames[..FrameCount])
    {
      log := [];
      for i := 0 to FrameCount
        invariant log == ReleaseLog(Frames[..i])
      {
        assert Frames[..i + 1][..i] == Frames[..i];
        var Frame := Frames[i];
        match Frame.Type
        case ResetStream => log := log + [StreamSentMetadataDecrement(Frame.Stream)];
        case MaxStreamData => log := log + [StreamSentMetadataDecrement(Frame.Stream)];
        case StreamDataBlocked => log := log + [StreamSentMetadataDecrement(Frame.Stream)];
        case StopSending => log := log + [StreamSentMetadataDecrement(Frame.Stream)];
        case Stream => log := log + [StreamSentMetadataDecrement(Frame.Stream)];
        case ReliableResetStream => log := log + [StreamSentMetadataDecrement(Frame.Stream)];
        case Datagram | Datagram1 =>
          if Frame.ClientContext != NULL {
            log := log + [DatagramIndicateSendStateChange(Frame.ClientContext, LostDiscarded)];
          }
        case OtherFrame =>
      }
    }
  }

  /** QUIC_SENT_PACKET_POOL: one pool per frame count. */
  class SentPacketPool {
    /** sizeof(QUIC_SENT_FRAME_METADATA) */
    const FrameMetadataSize: nat
    /** sizeof(QUIC_SENT_PACKET_METADATA) */
    const PacketMetadataSize: nat
    const Pools: array<CxPlatPool>

    ghost predicate Valid()
      reads this
    {
      Pools.Length == MAX_FRAMES_PER_PACKET && FrameMetadataSize > 0
    }

    /** Every pool has the element size for its frame count. */
    ghost predicate Initialized()
      reads this, Pools
    {
      forall i :: 0 <= i < Pools.Length ==>
        Pools[i].ElementSize == PoolElementSize(i, FrameMetadataSize, PacketMetadataSize)
    }

    constructor (frameSize: nat, packetSize: nat)
      requires frameSize > 0
      ensures Valid() && FrameMetadataSize == frameSize && PacketMetadataSize == packetSize && fresh(Pools)
    {
      FrameMetadataSize := frameSize;
      PacketMetadataSize := packetSize;
      Pools := new CxPlatPool[MAX_FRAMES_PER_PACKET](_ => CxPlatPool(0, 0));
    }

    /** QuicSentPacketPoolInitialize: pool i holds blocks with room for i + 1 frames. */
    method Initialize()
      requires Valid()
      modifies Pools
      ensures Initialized()
      ensures forall i :: 0 <= i < Pools.Length ==> Pools[i].Outstanding == 0
    {
      for i := 0 to Pools.Length
        invariant forall j :: 0 <= j < i ==>
          Pools[j] == CxPlatPool(PoolElementSize(j, FrameMetadataSize, PacketMetadataSize), 0)
      {
        var PacketMetadataSize' := (i + 1) * FrameMetadataSize + PacketMetadataSize;
        Pools[i] := CxPlatPool(PacketMetadataSize', 0);
      }
    }

    /**
     * QuicSentPacketPoolGetPacketMetadata: a block from pool FrameCount - 1,
     * so with room for exactly FrameCount frames, not marked freed; NULL when
     * the pool allocation fails.
     */
    method GetPacketMetadata(FrameCount: nat, allocSucceeds: bool) returns (Metadata: SentPacketMetadata?)
      requires Valid() && Initialized() && 1 <= FrameCount <= MAX_FRAMES_PER_PACKET
      modifies Pools
      ensures Initialized()
      ensures !allocSucceeds ==> Metadata == null && Pools[..] == old(Pools[..])
      ensures allocSucceeds ==>
        Metadata != null && fresh(Metadata) && fresh(Metadata.Frames) &&
        Metadata.Pool == FrameCount - 1 && !Metadata.Freed &&
        Metadata.Frames.Length == FrameCount &&
        RoomFor(Pools[Metadata.Pool].ElementSize, FrameCount, FrameMetadataSize, PacketMetadataSize) &&
        !RoomFor(Pools[Metadata.Pool].ElementSize, FrameCount + 1, FrameMetadataSize, PacketMetadataSize) &&
        Pools[..] == old(Pools[..])[FrameCount - 1 := old(Pools[FrameCount - 1]).(Outstanding := old(Pools[FrameCount - 1]).Outstanding + 1)]
    {
      if !allocSucceeds {
        return null;
      }
      var i := FrameCount - 1;
      PoolRoom(FrameCount, FrameMetadataSize, PacketMetadataSize);
      Metadata := new SentPacketMetadata(i, FrameCount);
      Pools[i] := Pools[i].(Outstanding := Pools[i].Outstanding + 1);
    }

    /**
     * QuicSentPacketPoolReturnPacketMetadata: the block, which holds between
     * 1 and MAX_FRAMES_PER_PACKET frames, is marked freed, its frames are
     * released, and it goes back to its pool.
     */
    method ReturnPacketMetadata(Metadata: SentPacketMetadata) returns (log: seq<Effect>)
      requires Valid() && Metadata.Pool < Pools.Length && Pools[Metadata.Pool].Outstanding > 0
      requires 0 < Metadata.FrameCount <= MAX_FRAMES_PER_PACKET && Metadata.FrameCount <= Metadata.Frames.Length
      modifies Metadata`Freed, Pools
      ensures Metadata.Freed
      ensures log == ReleaseLog(Metadata.Frames[..Metadata.FrameCount])
      ensures Pools[..] == old(Pools[..])[Metadata.Pool := old(Pools[Metadata.Pool]).(Outstanding := old(Pools[Metadata.Pool]).Outstanding - 1)]
    {
      Metadata.Freed := true;
      log := Metadata.ReleaseFrames();
      var p := Metadata.Pool;
      Pools[p] := Pools[p].(Outstanding := Pools[p].Outstanding - 1);
    }
  }
}
