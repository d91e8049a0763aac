/** The server side of the media protocol: one frame becomes one message, or a run of
    fragments of at most 16 KiB each. */
module FrameEncoder {
  import opened Bytes
  import opened Wrappers
  import opened FrameFormat

  const FRAGMENT_THRESHOLD := 16384
  /** The largest payload whose fragment count the receiver accepts. */
  const MAX_PAYLOAD := 4194304

  datatype MediaFrame =
    | Video(codec: byte, frameType: byte, timestamp: int64, absTime: int64, payload: bytes)
    | Audio(codec: byte, sampleRate: byte, channels: byte, timestamp: int64, absTime: int64, payload: bytes)

  function MsgTypeOf(f: MediaFrame): byte {
    if f.Video? then VIDEO else AUDIO
  }

  function TypePartOf(f: MediaFrame): (s: bytes)
    ensures |s| == 4
  {
    match f
    case Video(codec, frameType, _, _, _) => [codec, frameType, 0, 0]
    case Audio(codec, rate, channels, _, _, _) => [codec, rate, channels, 0]
  }

  function KindOf(f: MediaFrame): TypeFields {
    match f
    case Video(codec, frameType, _, _, _) => TypeFields(codec, frameType, 0, 0, 0, 0)
    case Audio(codec, rate, channels, _, _, _) => TypeFields(0, 0, 0, codec, rate, channels)
  }

  /** What the client should end up with. */
  function Expected(f: MediaFrame): ParsedFrame {
    ParsedFrame(Meta(MsgTypeOf(f), f.timestamp, f.absTime, KindOf(f)), f.payload)
  }

  // ----- fragmentation -----

  predicate Fragmented(payload: bytes) { |payload| > FRAGMENT_THRESHOLD }

  /** The number of chunks a payload needs. */
  function ChunksNeeded(payload: bytes): nat {
    (|payload| + FRAGMENT_THRESHOLD - 1) / FRAGMENT_THRESHOLD
  }

  /** The number the sender counts: it keeps the count in sixteen bits. */
  function FragmentCount(payload: bytes): uint16 {
    ChunksNeeded(payload) % 0x1_0000
  }

  function Chunk(payload: bytes, k: nat): (c: bytes)
    requires k < ChunksNeeded(payload)
    ensures 1 <= |c| <= FRAGMENT_THRESHOLD
  {
    var from := k * FRAGMENT_THRESHOLD;
    payload[from..if from + FRAGMENT_THRESHOLD < |payload| then from + FRAGMENT_THRESHOLD else |payload|]
  }

  function CommonOf(f: MediaFrame): CommonPart { CommonPart(1, f.absTime, []) }

  function WholeMessage(f: MediaFrame): bytes
    requires !Fragmented(f.payload)
  {
    PrintMessage(MsgTypeOf(f), FLAG_HAS_COMMON, f.timestamp,
                 ExtLayout(None, Some(CommonOf(f)), TypePartOf(f)), f.payload)
  }

  /** One fragment: only the first carries the common and the type-specific header. */
  function FragmentOf(msgType: byte, timestamp: int64, absTime: int64, typePart: bytes,
                      part: FragmentPart, chunk: bytes): (m: bytes)
    requires |typePart| == 4 && |chunk| <= FRAGMENT_THRESHOLD
    ensures |m| == |chunk| + 26 + (if part.index == 0 then 14 else 0)
  {
    if part.index == 0
    then PrintMessage(msgType, FLAG_FRAGMENT + FLAG_HAS_COMMON, timestamp,
                      ExtLayout(Some(part), Some(CommonPart(1, absTime, [])), typePart), chunk)
    else PrintMessage(msgType, FLAG_FRAGMENT, timestamp, ExtLayout(Some(part), None, []), chunk)
  }

  function FragmentMessage(f: MediaFrame, frameId: uint16, k: nat): bytes
    requires k < FragmentCount(f.payload)
  {
    FragmentOf(MsgTypeOf(f), f.timestamp, f.absTime, TypePartOf(f),
               FragmentPart(frameId, k, FragmentCount(f.payload)), Chunk(f.payload, k))
  }

  function MessageCount(f: MediaFrame): nat {
    if Fragmented(f.payload) then FragmentCount(f.payload) else 1
  }

  function WireMessage(f: MediaFrame, frameId: uint16, k: nat): bytes
    requires k < MessageCount(f)
  {
    if Fragmented(f.payload) then FragmentMessage(f, frameId, k) else WholeMessage(f)
  }

  /** All messages of a frame, in sending order. */
  function Wire(f: MediaFrame, frameId: uint16): (ms: seq<bytes>)
    ensures |ms| == MessageCount(f)
  {
    seq(MessageCount(f), k requires 0 <= k < MessageCount(f) => WireMessage(f, frameId, k))
  }

  // ----- arithmetic of fragmentation -----

  /** The first n chunks of a payload, joined. */
  function Joined(payload: bytes, n: nat): bytes
    requires n <= ChunksNeeded(payload)
  {
    if n == 0 then [] else Joined(payload, n - 1) + Chunk(payload, n - 1)
  }

  lemma {:induction false} JoinedIsPrefix(payload: bytes, n: nat)
    requires n <= ChunksNeeded(payload)
    ensures Joined(payload, n)
            == payload[..if n * FRAGMENT_THRESHOLD < |payload| then n * FRAGMENT_THRESHOLD else |payload|]
  {
    if n == 0 {
    } else {
      JoinedIsPrefix(payload, n - 1);
    }
  }

  /** The fragments carry exactly the payload if and only if the count fits sixteen bits. */
  lemma {:induction false} FragmentsCarryPayload(payload: bytes)
    ensures FragmentCount(payload) <= ChunksNeeded(payload)
    ensures Joined(payload, FragmentCount(payload)) == payload <==> |payload| <= 65535 * FRAGMENT_THRESHOLD
    ensures |payload| <= 65535 * FRAGMENT_THRESHOLD ==> FragmentCount(payload) == ChunksNeeded(payload)
  {
    CountBound(payload);
    PrefixCarriesAll(payload, FragmentCount(payload));
  }

  lemma PrefixCarriesAll(payload: bytes, n: nat)
    requires n <= ChunksNeeded(payload)
    ensures Joined(payload, n) == payload <==> |payload| <= n * FRAGMENT_THRESHOLD
  {
    JoinedIsPrefix(payload, n);
    assert payload[..|payload|] == payload;
  }

  lemma CountBound(payload: bytes)
    ensures FragmentCount(payload) <= ChunksNeeded(payload)
    ensures |payload| <= 65535 * FRAGMENT_THRESHOLD ==> FragmentCount(payload) == ChunksNeeded(payload)
    ensures |payload| <= 65535 * FRAGMENT_THRESHOLD <==> |payload| <= FragmentCount(payload) * FRAGMENT_THRESHOLD
  {
    var need := ChunksNeeded(payload);
    if |payload| > 65535 * FRAGMENT_THRESHOLD {
      assert need >= 0x1_0000;
    } else {
      assert need <= 0xFFFF;
    }
  }

  function TotalLength(ms: seq<bytes>): nat {
    if ms == [] then 0 else TotalLength(ms[..|ms| - 1]) + |ms[|ms| - 1]|
  }

  lemma TotalLengthStep(ms: seq<bytes>, n: nat)
    requires n < |ms|
    ensures TotalLength(ms[..n + 1]) == TotalLength(ms[..n]) + |ms[n]|
  {
    assert ms[..n + 1][..n] == ms[..n];
  }

  lemma FragmentMessageLength(f: MediaFrame, frameId: uint16, k: nat)
    requires Fragmented(f.payload) && k < MessageCount(f)
    ensures k < ChunksNeeded(f.payload)
    ensures |Wire(f, frameId)[k]| == |Chunk(f.payload, k)| + 26 + (if k == 0 then 14 else 0)
  {
    CountBound(f.payload);
    assert Wire(f, frameId)[k] == FragmentMessage(f, frameId, k);
  }

  /** Each message is its chunk and 26 bytes, the first 14 more. */
  predicate SizedLikeFragments(payload: bytes, ms: seq<bytes>) {
    && |ms| <= ChunksNeeded(payload)
    && forall k :: 0 <= k < |ms| ==> |ms[k]| == |Chunk(payload, k)| + 26 + (if k == 0 then 14 else 0)
  }

  lemma {:induction false} FragmentsLength(payload: bytes, ms: seq<bytes>, n: nat)
    requires SizedLikeFragments(payload, ms) && n <= |ms|
    ensures TotalLength(ms[..n]) == |Joined(payload, n)| + 26 * n + (if n > 0 then 14 else 0)
  {
    hide Chunk, ChunksNeeded;
    if n == 0 {
    } else {
      FragmentsLength(payload, ms, n - 1);
      TotalLengthStep(ms, n - 1);
    }
  }

  /** Overhead on the wire: 26 bytes a fragment and 14 more for the first; 34 for a frame
      sent whole. */
  lemma {:induction false} WireLength(f: MediaFrame, frameId: uint16)
    requires |f.payload| <= 65535 * FRAGMENT_THRESHOLD
    ensures TotalLength(Wire(f, frameId))
            == if Fragmented(f.payload) then |f.payload| + 26 * ChunksNeeded(f.payload) + 14 else |f.payload| + 34
  {
    var ms := Wire(f, frameId);
    assert ms[..|ms|] == ms;
    if Fragmented(f.payload) {
      FragmentsCarryPayload(f.payload);
      forall k | 0 <= k < |ms| ensures |ms[k]| == |Chunk(f.payload, k)| + 26 + (if k == 0 then 14 else 0) {
        FragmentMessageLength(f, frameId, k);
      }
      FragmentsLength(f.payload, ms, |ms|);
    } else {
      TotalLengthStep(ms, 0);
    }
  }

  // ----- byte for byte -----

  function TypeBytes(f: MediaFrame): bytes {
    match f
    case Video(codec, frameType, _, _, _) => [codec, frameType, 0, 0]
    case Audio(codec, rate, channels, _, _, _) => [codec, rate, channels, 0]
  }

  /** A frame of at most 16 KiB is one message, and this is it. */
  lemma WholeBytes(f: MediaFrame, frameId: uint16)
    requires |f.payload| <= 16384
    ensures Wire(f, frameId)
            == [[0xEB, 0x01, 1, if f.Video? then 1 else 2, 8] + SignedOctets(f.timestamp) + [14]
                + Octets(|f.payload|, 4) + [0, 0]
                + [10, 1] + SignedOctets(f.absTime) + TypeBytes(f) + f.payload]
  {
    hide FixedHeader, PrintCommonPart, Octets, SignedOctets;
    HeaderBytes(MsgTypeOf(f), 8, f.timestamp, 14, |f.payload|);
    CommonPartBytes(f.absTime);
    var l := ExtLayout(None, Some(CommonOf(f)), TypePartOf(f));
    assert LayoutLength(l) == 14 && PrintLayout(l) == PrintCommonPart(CommonOf(f)) + TypePartOf(f);
    Regrouped([0xEB, 0x01, 1, if f.Video? then 1 else 2, 8] + SignedOctets(f.timestamp) + [14]
              + Octets(|f.payload|, 4) + [0, 0], [10, 1], SignedOctets(f.absTime), TypeBytes(f), f.payload);
  }

  lemma Regrouped(a: bytes, b: bytes, c: bytes, d: bytes, e: bytes)
    ensures a + (b + c + d) + e == a + b + c + d + e
  {
  }

  /** A longer one is cut every 16 KiB; the number of pieces is counted in sixteen bits. */
  lemma FragmentWire(f: MediaFrame, frameId: uint16, k: nat)
    requires |f.payload| > 16384 && k < (|f.payload| + 16383) / 16384 % 0x1_0000
    ensures var count: nat := (|f.payload| + 16383) / 16384 % 0x1_0000;
            var from := 16384 * k;
            && from < |f.payload|
            && var chunk := f.payload[from..if from + 16384 < |f.payload| then from + 16384 else |f.payload|];
            && |Wire(f, frameId)| == count
            && Wire(f, frameId)[k]
               == [0xEB, 0x01, 1, if f.Video? then 1 else 2, if k == 0 then 9 else 1] + SignedOctets(f.timestamp)
                  + [if k == 0 then 20 else 6] + Octets(|chunk|, 4) + [0, 0]
                  + (Octets(frameId, 2) + Octets(k, 2) + Octets(count, 2))
                  + (if k == 0 then [10, 1] + SignedOctets(f.absTime) + TypeBytes(f) else [])
                  + chunk
  {
    hide FragmentOf, Octets, SignedOctets;
    CountBound(f.payload);
    FragmentOfBytes(MsgTypeOf(f), f.timestamp, f.absTime, TypePartOf(f),
                    FragmentPart(frameId, k, FragmentCount(f.payload)), Chunk(f.payload, k));
  }

  lemma FragmentOfBytes(msgType: byte, timestamp: int64, absTime: int64, typePart: bytes,
                        part: FragmentPart, chunk: bytes)
    requires |typePart| == 4 && |chunk| <= FRAGMENT_THRESHOLD
    ensures FragmentOf(msgType, timestamp, absTime, typePart, part, chunk)
            == [0xEB, 0x01, 1, msgType, if part.index == 0 then 9 else 1] + SignedOctets(timestamp)
               + [if part.index == 0 then 20 else 6] + Octets(|chunk|, 4) + [0, 0]
               + (Octets(part.frameId, 2) + Octets(part.index, 2) + Octets(part.total, 2))
               + (if part.index == 0 then [10, 1] + SignedOctets(absTime) + typePart else [])
               + chunk
  {
    hide FixedHeader, PrintCommonPart, PrintFragmentPart, Octets, SignedOctets;
    FragmentPartBytes(part);
    if part.index == 0 {
      HeaderBytes(msgType, 9, timestamp, 20, |chunk|);
      CommonPartBytes(absTime);
      var header := FixedHeader(msgType, 9, timestamp, 20, |chunk|);
      Grouped(header, PrintFragmentPart(part), PrintCommonPart(CommonPart(1, absTime, [])), typePart, chunk);
    } else {
      HeaderBytes(msgType, 1, timestamp, 6, |chunk|);
      NoMore(FixedHeader(msgType, 1, timestamp, 6, |chunk|), PrintFragmentPart(part), chunk);
    }
  }

  lemma Grouped(a: bytes, b: bytes, c: bytes, d: bytes, e: bytes)
    ensures a + (b + c + d) + e == a + b + (c + d) + e
  {
  }

  lemma NoMore(a: bytes, b: bytes, e: bytes)
    ensures a + (b + [] + []) + e == a + b + [] + e
  {
  }

  // ----- what the receiver sees of each message -----

  function FirstMeta(f: MediaFrame): Meta { Expected(f).meta }

  /** Later fragments carry neither common nor type-specific header. */
  function LaterMeta(f: MediaFrame): Meta { Meta(MsgTypeOf(f), f.timestamp, 0, NO_TYPE_FIELDS) }

  function FragmentView(f: MediaFrame, frameId: uint16, k: nat): Message
    requires k < FragmentCount(f.payload)
  {
    Fragment(FragmentPart(frameId, k, FragmentCount(f.payload)),
             if k == 0 then FirstMeta(f) else LaterMeta(f), Chunk(f.payload, k))
  }

  lemma KindReadBack(f: MediaFrame)
    ensures TypeLayer(TypePartOf(f), MsgTypeOf(f)) == KindOf(f)
  {
    ReadWrite16(0);
    assert TypePartOf(f)[2..4] == [TypePartOf(f)[2], TypePartOf(f)[3]];
    assert BE(0, 2) == [0, 0];
  }

  /** Every message the sender emits decodes to what it was made from. */
  lemma WireReadBack(f: MediaFrame, frameId: uint16, k: nat)
    requires k < MessageCount(f)
    ensures var d := WireMessage(f, frameId, k);
            && InBounds(d)
            && Decode(d) == if !Fragmented(f.payload) then Whole(Expected(f))
                            else if FragmentCount(f.payload) > MAX_FRAGMENTS then Rejected
                            else FragmentView(f, frameId, k)
  {
    KindReadBack(f);
    if !Fragmented(f.payload) {
      MessageReadBack(MsgTypeOf(f), FLAG_HAS_COMMON, f.timestamp,
                      ExtLayout(None, Some(CommonOf(f)), TypePartOf(f)), f.payload);
    } else {
      var part := FragmentPart(frameId, k, FragmentCount(f.payload));
      var flags: byte := if k == 0 then FLAG_FRAGMENT + FLAG_HAS_COMMON else FLAG_FRAGMENT;
      var l := if k == 0 then ExtLayout(Some(part), Some(CommonOf(f)), TypePartOf(f))
               else ExtLayout(Some(part), None, []);
      if FragmentCount(f.payload) > MAX_FRAGMENTS {
        BadTotalRejected(MsgTypeOf(f), flags, f.timestamp, l, Chunk(f.payload, k));
      } else {
        MessageReadBack(MsgTypeOf(f), flags, f.timestamp, l, Chunk(f.payload, k));
      }
    }
  }

  // ----- the encoder -----

  method WriteFixedHeader(buf: ByteBuffer, msgType: byte, flags: byte, timestamp: int64,
                          extLength: byte, payloadLength: uint32)
    modifies buf
    ensures buf.contents == old(buf.contents) + FixedHeader(msgType, flags, timestamp, extLength, payloadLength)
  {
    buf.WriteBE16(PROTOCOL_MAGIC);
    buf.PushBack(PROTOCOL_VERSION);
    buf.PushBack(msgType);
    buf.PushBack(flags);
    buf.WriteBE64(timestamp);
    buf.PushBack(extLength);
    buf.WriteBE32(payloadLength);
    buf.PushBack(0);
    buf.PushBack(0);
  }

  method WriteCommonExtHeader(buf: ByteBuffer, absTime: int64)
    modifies buf
    ensures buf.contents == old(buf.contents) + PrintCommonPart(CommonPart(1, absTime, []))
  {
    buf.PushBack(10);
    buf.PushBack(1);
    buf.WriteBE64(absTime);
  }

  method WriteVideoExtHeader(buf: ByteBuffer, codec: byte, frameType: byte)
    modifies buf
    ensures buf.contents == old(buf.contents) + [codec, frameType, 0, 0]
  {
    buf.PushBack(codec);
    buf.PushBack(frameType);
    buf.WriteBE16(0);
    assert BE(0, 2) == [0, 0];
  }

  method WriteAudioExtHeader(buf: ByteBuffer, codec: byte, sampleRate: byte, channels: byte)
    modifies buf
    ensures buf.contents == old(buf.contents) + [codec, sampleRate, channels, 0]
  {
    buf.PushBack(codec);
    buf.PushBack(sampleRate);
    buf.PushBack(channels);
    buf.PushBack(0);
  }

  method WriteFragmentExtHeader(buf: ByteBuffer, frameId: uint16, index: uint16, total: uint16)
    modifies buf
    ensures buf.contents == old(buf.contents) + PrintFragmentPart(FragmentPart(frameId, index, total))
  {
    buf.WriteBE16(frameId);
    buf.WriteBE16(index);
    buf.WriteBE16(total);
  }

  lemma ExtendWire(f: MediaFrame, frameId: uint16, frames: seq<bytes>, frame: bytes, i: nat)
    requires Fragmented(f.payload) && i < FragmentCount(f.payload)
    requires frames == Wire(f, frameId)[..i] && frame == FragmentMessage(f, frameId, i)
    ensures frames + [frame] == Wire(f, frameId)[..i + 1]
  {
  }

  /** The slice of the payload that fragment i carries. */
  method TakeChunk(payload: bytes, i: uint16) returns (chunk: bytes)
    requires i < ChunksNeeded(payload)
    ensures chunk == Chunk(payload, i)
  {
    var offset := i * FRAGMENT_THRESHOLD;
    var chunkSize := |payload| - offset;
    if chunkSize > FRAGMENT_THRESHOLD {
      chunkSize := FRAGMENT_THRESHOLD;
    }
    chunk := payload[offset..offset + chunkSize];
  }

  lemma AssembleFirst(header: bytes, fragment: bytes, common: bytes, kind: bytes, chunk: bytes)
    ensures [] + header + fragment + common + kind + chunk == header + (fragment + common + kind) + chunk
  {
  }

  lemma AssembleWhole(header: bytes, common: bytes, kind: bytes, payload: bytes)
    ensures [] + header + common + kind + payload == header + ([] + common + kind) + payload
  {
  }

  /** The body of the fragment loop: one chunk with its headers. */
  method EncodeVideoFragment(chunk: bytes, codec: byte, frameType: byte, timestamp: int64, absTime: int64,
                             frameId: uint16, i: uint16, total: uint16)
    returns (frame: bytes)
    requires |chunk| <= FRAGMENT_THRESHOLD
    ensures frame == FragmentOf(VIDEO, timestamp, absTime, [codec, frameType, 0, 0],
                                FragmentPart(frameId, i, total), chunk)
  {
    var buf := new ByteBuffer();
    if i == 0 {
      WriteFixedHeader(buf, VIDEO, FLAG_FRAGMENT + FLAG_HAS_COMMON, timestamp, 20, |chunk|);
      WriteFragmentExtHeader(buf, frameId, i, total);
      WriteCommonExtHeader(buf, absTime);
      WriteVideoExtHeader(buf, codec, frameType);
      AssembleFirst(FixedHeader(VIDEO, 9, timestamp, 20, |chunk|), PrintFragmentPart(FragmentPart(frameId, i, total)),
                    PrintCommonPart(CommonPart(1, absTime, [])), [codec, frameType, 0, 0], chunk);
    } else {
      WriteFixedHeader(buf, VIDEO, FLAG_FRAGMENT, timestamp, 6, |chunk|);
      WriteFragmentExtHeader(buf, frameId, i, total);
    }
    buf.Append(chunk);
    frame := buf.contents;
  }

  /** One whole message: header, common part, type part, payload. */
  method EncodeVideoFrame(payload: bytes, codec: byte, frameType: byte, timestamp: int64, absTime: int64,
                          frameId: uint16)
    returns (frames: seq<bytes>)
    ensures frames == Wire(Video(codec, frameType, timestamp, absTime, payload), frameId)
  {
    ghost var f := Video(codec, frameType, timestamp, absTime, payload);
    if |payload| <= FRAGMENT_THRESHOLD {
      var frame := new ByteBuffer();
      WriteFixedHeader(frame, VIDEO, FLAG_HAS_COMMON, timestamp, 14, |payload|);
      WriteCommonExtHeader(frame, absTime);
      WriteVideoExtHeader(frame, codec, frameType);
      frame.Append(payload);
      AssembleWhole(FixedHeader(VIDEO, FLAG_HAS_COMMON, timestamp, 14, |payload|),
                    PrintCommonPart(CommonPart(1, absTime, [])), [codec, frameType, 0, 0], payload);
      frames := [frame.contents];
      assert frame.contents == WholeMessage(f);
    } else {
      frames := [];
      var total: uint16 := (|payload| + FRAGMENT_THRESHOLD - 1) / FRAGMENT_THRESHOLD % 0x1_0000;
      var i: uint16 := 0;
      while i < total
        invariant i <= total == FragmentCount(payload)
        invariant frames == Wire(f, frameId)[..i]
      {
        var chunk := TakeChunk(payload, i);
        var frame := EncodeVideoFragment(chunk, codec, frameType, timestamp, absTime,
                                        frameId, i, total);
        ExtendWire(f, frameId, frames, frame, i);
        frames := frames + [frame];
        i := i + 1;
      }
    }
  }

  /** The body of the fragment loop: one chunk with its headers. */
  method EncodeAudioFragment(chunk: bytes, codec: byte, sampleRate: byte, channels: byte,
                             timestamp: int64, absTime: int64,
                             frameId: uint16, i: uint16, total: uint16)
    returns (frame: bytes)
    requires |chunk| <= FRAGMENT_THRESHOLD
    ensures frame == FragmentOf(AUDIO, timestamp, absTime, [codec, sampleRate, channels, 0],
                                FragmentPart(frameId, i, total), chunk)
  {
    var buf := new ByteBuffer();
    if i == 0 {
      WriteFixedHeader(buf, AUDIO, FLAG_FRAGMENT + FLAG_HAS_COMMON, timestamp, 20, |chunk|);
      WriteFragmentExtHeader(buf, frameId, i, total);
      WriteCommonExtHeader(buf, absTime);
      WriteAudioExtHeader(buf, codec, sampleRate, channels);
      AssembleFirst(FixedHeader(AUDIO, 9, timestamp, 20, |chunk|), PrintFragmentPart(FragmentPart(frameId, i, total)),
                    PrintCommonPart(CommonPart(1, absTime, [])), [codec, sampleRate, channels, 0], chunk);
    } else {
      WriteFixedHeader(buf, AUDIO, FLAG_FRAGMENT, timestamp, 6, |chunk|);
      WriteFragmentExtHeader(buf, frameId, i, total);
    }
    buf.Append(chunk);
    frame := buf.contents;
  }

  method EncodeAudioFrame(payload: bytes, codec: byte, sampleRate: byte, channels: byte,
                          timestamp: int64, absTime: int64, frameId: uint16)
    returns (frames: seq<bytes>)
    ensures frames == Wire(Audio(codec, sampleRate, channels, timestamp, absTime, payload), frameId)
  {
    ghost var f := Audio(codec, sampleRate, channels, timestamp, absTime, payload);
    if |payload| <= FRAGMENT_THRESHOLD {
      var frame := new ByteBuffer();
      WriteFixedHeader(frame, AUDIO, FLAG_HAS_COMMON, timestamp, 14, |payload|);
      WriteCommonExtHeader(frame, absTime);
      WriteAudioExtHeader(frame, codec, sampleRate, channels);
      frame.Append(payload);
      AssembleWhole(FixedHeader(AUDIO, FLAG_HAS_COMMON, timestamp, 14, |payload|),
                    PrintCommonPart(CommonPart(1, absTime, [])), [codec, sampleRate, channels, 0], payload);
      frames := [frame.contents];
      assert frame.contents == WholeMessage(f);
    } else {
      frames := [];
      var total: uint16 := (|payload| + FRAGMENT_THRESHOLD - 1) / FRAGMENT_THRESHOLD % 0x1_0000;
      var i: uint16 := 0;
      while i < total
        invariant i <= total == FragmentCount(payload)
        invariant frames == Wire(f, frameId)[..i]
      {
        var chunk := TakeChunk(payload, i);
        var frame := EncodeAudioFragment(chunk, codec, sampleRate, channels, timestamp, absTime,
                                        frameId, i, total);
        ExtendWire(f, frameId, frames, frame, i);
        frames := frames + [frame];
        i := i + 1;
      }
    }
  }
}
