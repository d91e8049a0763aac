/** The streaming half of the server: due packets are encoded, wrapped in binary WebSocket
    frames and written to the connection; and what a client makes of those bytes. */
module MediaServer {
  import opened Wrappers
  import opened Bytes
  import opened FrameFormat
  import opened FrameEncoder
  import opened Reassembly
  import opened Delivery
  import opened FrameDelivery
  import opened StreamDelivery
  import opened Scheduler
  import AU = AccessUnits
  import AnnexB
  import WS = WebSocket

  const IDR: byte := 1
  const I_FRAME: byte := 2
  const P_FRAME: byte := 3
  const SPS_PPS: byte := 5
  const VPS: byte := 6

  type positive = n: nat | n > 0 witness 1

  /** The frame rate is a fraction; only raw playback uses it. */
  datatype MediaInfo = MediaInfo(isH265: bool, audioCodec: byte, audioRate: byte, audioChannels: byte,
                                 rateNum: positive, rateDen: positive)

  /** DetectFrameTypeFromPacket: the first NAL unit behind a start code or a length prefix. */
  function FrameTypeOf(isH265: bool, data: bytes): byte {
    if |data| < 5 then P_FRAME
    else
      var first := if data[0] == 0 && data[1] == 0 && data[2] == 1 then data[3] else data[4];
      var kind := if isH265 then first / 2 % 64 else first % 32;
      if isH265 then
        if kind == 32 then VPS
        else if kind == 33 || kind == 34 then SPS_PPS
        else if kind == 19 || kind == 20 then IDR
        else if 16 <= kind <= 23 then I_FRAME
        else P_FRAME
      else
        if kind == 7 || kind == 8 then SPS_PPS
        else if kind == 5 then IDR
        else P_FRAME
  }

  /** What DetectFrameType makes of one NAL unit; most say nothing. */
  function FrameTypeOfNal(isH265: bool, nal: bytes): Option<byte> {
    var kind := AU.NalType(nal, isH265);
    if isH265 then
      if kind == 32 then Some(VPS)
      else if kind == 33 || kind == 34 then Some(SPS_PPS)
      else if kind == 19 || kind == 20 then Some(IDR)
      else if 16 <= kind <= 23 then Some(I_FRAME)
      else if kind <= 15 then Some(P_FRAME)
      else None
    else
      if kind == 7 || kind == 8 then Some(SPS_PPS)
      else if kind == 5 then Some(IDR)
      else if kind == 1 then Some(P_FRAME)
      else None
  }

  /** The first NAL unit from i on that says something decides. */
  function FrameTypeOfUnit(isH265: bool, au: AU.Group, i: nat): byte
    requires i <= |au|
    decreases |au| - i
  {
    if i == |au| then P_FRAME
    else match FrameTypeOfNal(isH265, au[i])
      case Some(kind) => kind
      case None => FrameTypeOfUnit(isH265, au, i + 1)
  }

  /** Access unit k of endless raw playback, at 1000 / rate milliseconds each. */
  function UnitFrame(info: MediaInfo, aus: seq<AU.Group>, k: nat, now: int64): MediaFrame
    requires aus != [] && UnitTime(info, k) < 0x8000_0000_0000_0000
  {
    var au := aus[k % |aus|];
    Video(if info.isH265 then 2 else 1, FrameTypeOfUnit(info.isH265, au, 0), UnitTime(info, k), now, AnnexB.Concat(au))
  }

  function UnitTime(info: MediaInfo, k: nat): nat {
    k * 1000 * info.rateDen / info.rateNum
  }

  /** The frame a packet becomes when it is sent at wall-clock time `now`. */
  function FrameOf(info: MediaInfo, p: MediaPacket, now: int64): MediaFrame {
    if p.isVideo
    then Video(if info.isH265 then 2 else 1, FrameTypeOf(info.isH265, p.data), p.ptsMs, now, p.data)
    else Audio(info.audioCodec, info.audioRate, info.audioChannels, p.ptsMs, now, p.data)
  }

  // ----- the same from the bytes -----

  /** What the first byte behind a start code says about a frame. H.264: types 7 and 8 are parameter
      sets, 5 an IDR and 1 another slice; H.265: 32 is a VPS, 33 and 34 are parameter sets, 19 and
      20 an IDR, 16 to 23 random access points, and what is below is a P frame. */
  function KindOfByte(isH265: bool, h: byte): Option<byte> {
    if isH265 then
      match h / 2 % 64
      case 32 => Some(6)
      case 33 => Some(5)
      case 34 => Some(5)
      case 19 => Some(1)
      case 20 => Some(1)
      case t => if t <= 15 then Some(3) else if t <= 23 then Some(2) else None
    else
      match h % 32
      case 7 => Some(5)
      case 8 => Some(5)
      case 5 => Some(1)
      case 1 => Some(3)
      case _ => None
  }

  lemma KindOnBytes(isH265: bool, u: AnnexB.Unit)
    requires u.body != []
    ensures FrameTypeOfNal(isH265, AnnexB.PrintUnit(u)) == KindOfByte(isH265, u.body[0])
  {
    var nal := AnnexB.PrintUnit(u);
    assert nal[if u.long then 4 else 3] == u.body[0];
  }

  /** An access unit of printed units is of the kind of the first unit that says something, and a P
      frame if none does. */
  lemma {:induction false} UnitKindOnBytes(isH265: bool, us: seq<AnnexB.Unit>, i: nat)
    requires i <= |us| && forall j :: 0 <= j < |us| ==> us[j].body != []
    ensures var kind := FrameTypeOfUnit(isH265, AU.PrintGroup(us), i);
            || (kind == 3 && forall j :: i <= j < |us| ==> KindOfByte(isH265, us[j].body[0]).None?)
            || exists j :: i <= j < |us| && KindOfByte(isH265, us[j].body[0]) == Some(kind)
                           && forall k :: i <= k < j ==> KindOfByte(isH265, us[k].body[0]).None?
    decreases |us| - i
  {
    hide KindOfByte, FrameTypeOfNal, AnnexB.PrintUnit;
    if i < |us| {
      KindOnBytes(isH265, us[i]);
      UnitKindOnBytes(isH265, us, i + 1);
    }
  }

  /** A packet is judged by the first byte behind its start code or its four bytes of length. Other
      NAL units than parameter sets and random access points make it a P frame. */
  lemma PacketKindOnBytes(isH265: bool, data: bytes)
    ensures FrameTypeOf(isH265, data)
            == if |data| < 5 then 3
               else
                 var h := if data[0] == 0 && data[1] == 0 && data[2] == 1 then data[3] else data[4];
                 if KindOfByte(isH265, h).Some? then KindOfByte(isH265, h).value else 3
  {
  }

  /** The k-th access unit is due at k / rate seconds, in whole milliseconds. */
  lemma UnitTimeExactly(info: MediaInfo, k: nat)
    ensures UnitTime(info, k) * info.rateNum <= k * 1000 * info.rateDen < (UnitTime(info, k) + 1) * info.rateNum
  {
    var n, d := k * 1000 * info.rateDen, info.rateNum;
    assert n == n / d * d + n % d;
  }

  /** What the messages of a packet and of an access unit say: H.264 is codec 1, H.265 codec 2. */
  lemma FrameFields(info: MediaInfo, p: MediaPacket, aus: seq<AU.Group>, k: nat, now: int64)
    ensures var f := FrameOf(info, p, now);
            && f.payload == p.data && f.timestamp == p.ptsMs && f.absTime == now && (f.Video? <==> p.isVideo)
            && if p.isVideo
               then f.codec == (if info.isH265 then 2 else 1) && f.frameType == FrameTypeOf(info.isH265, p.data)
               else f.codec == info.audioCodec && f.sampleRate == info.audioRate && f.channels == info.audioChannels
    ensures aus != [] && UnitTime(info, k) < 0x8000_0000_0000_0000 ==>
              var f, au := UnitFrame(info, aus, k, now), aus[k % |aus|];
              && f.Video? && f.codec == (if info.isH265 then 2 else 1)
              && f.frameType == FrameTypeOfUnit(info.isH265, au, 0)
              && f.timestamp == UnitTime(info, k) && f.absTime == now && f.payload == AnnexB.Concat(au)
  {
    hide FrameTypeOf, FrameTypeOfUnit, UnitTime, AnnexB.Concat;
  }

  // ----- what is on the wire -----

  datatype SentFrame = SentFrame(frame: MediaFrame, frameId: uint16)

  /** The protocol messages of the first n frames. */
  function MessagesSent(sent: seq<SentFrame>, n: nat): seq<bytes>
    requires n <= |sent|
  {
    if n == 0 then [] else MessagesSent(sent, n - 1) + Wire(sent[n - 1].frame, sent[n - 1].frameId)
  }

  /** Each message travels as one unmasked binary WebSocket frame. */
  function BinaryFrames(ms: seq<bytes>): (fs: seq<WS.WsFrame>)
    ensures |fs| == |ms|
  {
    seq(|ms|, i requires 0 <= i < |ms| => WS.WsFrame(true, WS.BINARY, None, ms[i]))
  }

  predicate AllShort(ms: seq<bytes>) {
    forall i :: 0 <= i < |ms| ==> |ms[i]| < 0x1_0000
  }

  /** What a browser hands to the page as binary messages. */
  function BinaryOnly(fs: seq<WS.WsFrame>): seq<WS.WsFrame> {
    if fs == [] then []
    else BinaryOnly(fs[..|fs| - 1]) + (if fs[|fs| - 1].opcode == WS.BINARY then [fs[|fs| - 1]] else [])
  }

  /** What is on a socket: the messages of the frames sent, each in a binary frame, and between
      them whatever else the server has to say. */
  ghost predicate Carries(wire: seq<WS.WsFrame>, sent: seq<SentFrame>) {
    WS.AllPrintable(wire) && BinaryOnly(wire) == BinaryFrames(MessagesSent(sent, |sent|))
  }

  lemma BinaryOnlyNext(fs: seq<WS.WsFrame>, f: WS.WsFrame)
    ensures BinaryOnly(fs + [f]) == BinaryOnly(fs) + (if f.opcode == WS.BINARY then [f] else [])
  {
    assert (fs + [f])[..|fs|] == fs;
  }

  lemma BinaryFramesNext(before: seq<bytes>, messages: seq<bytes>, i: nat)
    requires i < |messages|
    ensures BinaryFrames(before + messages[..i + 1])
            == BinaryFrames(before + messages[..i]) + [WS.Plain(WS.BINARY, messages[i])]
  {
  }

  lemma PrintNext(fs: seq<WS.WsFrame>, f: WS.WsFrame)
    requires WS.AllPrintable(fs) && WS.Printable(f)
    ensures WS.AllPrintable(fs + [f]) && WS.PrintAll(fs + [f]) == WS.PrintAll(fs) + WS.PrintFrame(f)
  {
    hide WS.PrintFrame, WS.PrintAll, WS.Printable;
    WS.PrintAllOne(f);
    WS.PrintAllConcat(fs, [f]);
  }

  lemma WireIsShort(f: MediaFrame, id: uint16)
    ensures AllShort(Wire(f, id))
  {
    CountBound(f.payload);
    forall k | 0 <= k < MessageCount(f) ensures |Wire(f, id)[k]| < 0x1_0000 {
      if Fragmented(f.payload) {
        FragmentMessageLength(f, id, k);
      }
    }
  }

  lemma {:induction false} MessagesSentPrefix(sent: seq<SentFrame>, more: seq<SentFrame>, n: nat)
    requires n <= |sent|
    ensures MessagesSent(sent + more, n) == MessagesSent(sent, n)
  {
    if n == 0 {
    } else {
      MessagesSentPrefix(sent, more, n - 1);
    }
  }

  lemma MessagesSentAppend(sent: seq<SentFrame>, f: MediaFrame, id: uint16)
    ensures MessagesSent(sent + [SentFrame(f, id)], |sent| + 1) == MessagesSent(sent, |sent|) + Wire(f, id)
  {
    MessagesSentPrefix(sent, [SentFrame(f, id)], |sent|);
  }

  // ----- the server -----

  /** The playback side of one connection. */
  class Connection {
    var packetIndex: nat
    var playbackTimeMs: int
    var auIndex: nat
    /** The bytes written to the socket since the handshake. */
    var outbox: bytes
    ghost var wire: seq<WS.WsFrame>
    ghost var sent: seq<SentFrame>

    constructor ()
      ensures packetIndex == 0 && playbackTimeMs == 0 && auIndex == 0 && outbox == [] && sent == [] && wire == []
    {
      packetIndex, playbackTimeMs, auIndex, outbox, sent, wire := 0, 0, 0, [], [], [];
    }

    /** The socket carries exactly the frames sent so far. */
    ghost predicate Consistent()
      reads this
    {
      Carries(wire, sent) && outbox == WS.PrintAll(wire)
    }
  }

  class VideoServer {
    const packets: seq<MediaPacket>
    const accessUnits: seq<AU.Group>
    const info: MediaInfo
    /** One sixteen-bit counter for all connections. */
    var frameId: uint16

    constructor (packets: seq<MediaPacket>, accessUnits: seq<AU.Group>, info: MediaInfo)
      requires Sorted(packets)
      ensures this.packets == packets && this.accessUnits == accessUnits && this.info == info && frameId == 0
    {
      this.packets, this.accessUnits, this.info, frameId := packets, accessUnits, info, 0;
    }

    /** Frame k of the connection is packet k of the endless playback. */
    ghost predicate SentInOrder(sent: seq<SentFrame>) {
      forall k :: 0 <= k < |sent| ==> packets != [] && FromPacket(info, packets[k % |packets|], sent[k].frame)
    }

    /** Before the tick at time T exactly the packets due by T - 10 ms have been sent. */
    ghost predicate Valid(conn: Connection)
      reads conn
    {
      && Sorted(packets)
      && conn.Consistent()
      && SentInOrder(conn.sent)
      && |conn.sent| == conn.packetIndex
      && conn.playbackTimeMs >= 0
      && if packets == [] then conn.packetIndex == 0
         else IsCount(packets, conn.playbackTimeMs - 10, conn.packetIndex)
    }

    /** The offer, pongs and close frames go over the same socket. */
    method SendControl(conn: Connection, opcode: WS.Opcode, payload: bytes)
      requires conn.Consistent() && opcode != WS.BINARY && WS.Printable(WS.Plain(opcode, payload))
      modifies conn
      ensures conn.Consistent()
      ensures conn.wire == old(conn.wire) + [WS.Plain(opcode, payload)] && conn.sent == old(conn.sent)
      ensures old(Valid(conn)) ==> Valid(conn)
      ensures old(RawValid(conn)) ==> RawValid(conn)
    {
      hide MessagesSent, WS.PrintFrame, WS.PrintAll, IsCount, UnitsInOrder, BinaryFrames, BinaryOnly;
      var wsFrame := WS.EncodeFrame(opcode, payload);
      PrintNext(conn.wire, WS.Plain(opcode, payload));
      BinaryOnlyNext(conn.wire, WS.Plain(opcode, payload));
      conn.outbox := conn.outbox + wsFrame;
      conn.wire := conn.wire + [WS.Plain(opcode, payload)];
    }

    /** Encodes a packet and writes its messages, each in a binary WebSocket frame. */
    method SendPacket(conn: Connection, pkt: MediaPacket, now: int64)
      requires conn.Consistent()
      modifies this, conn
      ensures conn.Consistent()
      ensures conn.sent == old(conn.sent) + [SentFrame(FrameOf(info, pkt, now), old(frameId))]
      ensures frameId == (old(frameId) + 1) % 0x1_0000
      ensures conn.packetIndex == old(conn.packetIndex) && conn.playbackTimeMs == old(conn.playbackTimeMs)
      ensures conn.auIndex == old(conn.auIndex)
    {
      hide Carries, FrameTypeOf, MessagesSent;
      var messages: seq<bytes>;
      if pkt.isVideo {
        messages := EncodeVideoFrame(pkt.data, if info.isH265 then 2 else 1, FrameTypeOf(info.isH265, pkt.data),
                                     pkt.ptsMs, now, frameId);
      } else {
        messages := EncodeAudioFrame(pkt.data, info.audioCodec, info.audioRate, info.audioChannels,
                                     pkt.ptsMs, now, frameId);
      }
      ghost var f := FrameOf(info, pkt, now);
      assert messages == Wire(f, frameId);
      WriteMessages(conn, messages, f, frameId);
      frameId := (frameId + 1) % 0x1_0000;
    }

    method WriteMessages(conn: Connection, messages: seq<bytes>, ghost f: MediaFrame, ghost id: uint16)
      requires conn.Consistent() && messages == Wire(f, id)
      modifies conn
      ensures conn.Consistent()
      ensures conn.sent == old(conn.sent) + [SentFrame(f, id)]
      ensures conn.packetIndex == old(conn.packetIndex) && conn.playbackTimeMs == old(conn.playbackTimeMs)
      ensures conn.auIndex == old(conn.auIndex)
    {
      hide MessagesSent, BinaryFrames, BinaryOnly, WS.AllPrintable, WS.PrintAll, WS.PrintFrame, WS.Printable, Wire;
      ghost var before := MessagesSent(conn.sent, |conn.sent|);
      WireIsShort(f, id);
      var i := 0;
      assert before + messages[..0] == before;
      while i < |messages|
        invariant 0 <= i <= |messages|
        invariant WS.AllPrintable(conn.wire) && conn.outbox == WS.PrintAll(conn.wire)
        invariant BinaryOnly(conn.wire) == BinaryFrames(before + messages[..i])
        invariant conn.sent == old(conn.sent)
        invariant conn.packetIndex == old(conn.packetIndex) && conn.playbackTimeMs == old(conn.playbackTimeMs)
        invariant conn.auIndex == old(conn.auIndex)
      {
        WS.ShortIsPrintable(WS.BINARY, messages[i]);
        var wsFrame := WS.EncodeFrame(WS.BINARY, messages[i]);
        PrintNext(conn.wire, WS.Plain(WS.BINARY, messages[i]));
        BinaryOnlyNext(conn.wire, WS.Plain(WS.BINARY, messages[i]));
        BinaryFramesNext(before, messages, i);
        conn.outbox := conn.outbox + wsFrame;
        conn.wire := conn.wire + [WS.Plain(WS.BINARY, messages[i])];
        i := i + 1;
      }
      assert messages[..i] == messages;
      MessagesSentAppend(conn.sent, f, id);
      conn.sent := conn.sent + [SentFrame(f, id)];
    }

    /** Sends the packet at the playback position and moves on. */
    method SendNext(conn: Connection, now: int64)
      requires packets != []
      requires conn.Consistent() && SentInOrder(conn.sent) && |conn.sent| == conn.packetIndex
      modifies this, conn
      ensures conn.Consistent() && SentInOrder(conn.sent) && |conn.sent| == conn.packetIndex
      ensures old(conn.sent) <= conn.sent
      ensures conn.packetIndex == old(conn.packetIndex) + 1 && conn.playbackTimeMs == old(conn.playbackTimeMs)
    {
      hide Carries;
      SendPacket(conn, packets[conn.packetIndex % |packets|], now);
      conn.packetIndex := conn.packetIndex + 1;
    }

    /** One 10 ms tick: after the tick at time T exactly the packets due by T have been sent. */
    method OnTimerMp4(conn: Connection, clock: nat -> int64)
      requires Valid(conn)
      modifies this, conn
      ensures Valid(conn)
      ensures old(conn.sent) <= conn.sent
      ensures packets == [] ==> conn.playbackTimeMs == old(conn.playbackTimeMs)
      ensures packets != [] ==> conn.playbackTimeMs == old(conn.playbackTimeMs) + 10
                                && IsCount(packets, old(conn.playbackTimeMs), |conn.sent|)
    {
      hide FrameOf, Carries, IsCount;
      var packetCount := |packets|;
      if packetCount == 0 {
        return;
      }
      CountEnds(packets, conn.playbackTimeMs - TICK_MS, conn.packetIndex);
      var first: int, last: int := packets[0].ptsMs, packets[packetCount - 1].ptsMs;
      var totalDurationMs := last - first;
      if totalDurationMs <= 0 {
        totalDurationMs := 1;
      }
      while true
        invariant conn.Consistent() && SentInOrder(conn.sent) && |conn.sent| == conn.packetIndex
        invariant old(conn.sent) <= conn.sent
        invariant conn.playbackTimeMs == old(conn.playbackTimeMs)
        invariant conn.packetIndex > 0 ==> DueTime(packets, conn.packetIndex - 1) <= conn.playbackTimeMs
        decreases packetCount * (conn.playbackTimeMs + 1) - conn.packetIndex
      {
        var idx := conn.packetIndex % packetCount;
        var loopCount := conn.packetIndex / packetCount;
        var pts: int := packets[idx].ptsMs;
        var effectivePtsMs := pts - first + loopCount * totalDurationMs;
        assert effectivePtsMs == DueTime(packets, conn.packetIndex);
        if effectivePtsMs > conn.playbackTimeMs {
          break;
        }
        DueBound(packets, conn.packetIndex, conn.playbackTimeMs);
        SendNext(conn, clock(conn.packetIndex));
      }
      CountFromEnds(packets, conn.playbackTimeMs, conn.packetIndex);
      conn.playbackTimeMs := conn.playbackTimeMs + TICK_MS;
    }

    /** The timer serves all connections, which share the frame counter, one after the other. */
    method OnTimer(conns: seq<Connection>, clock: (nat, nat) -> int64)
      requires forall i, j :: 0 <= i < j < |conns| ==> conns[i] != conns[j]
      requires forall i :: 0 <= i < |conns| ==> Valid(conns[i])
      modifies this, set c | c in conns
      ensures forall i :: 0 <= i < |conns| ==> Valid(conns[i]) && old(conns[i].sent) <= conns[i].sent
      ensures packets != [] ==> forall i :: 0 <= i < |conns| ==>
                                  conns[i].playbackTimeMs == old(conns[i].playbackTimeMs) + 10
    {
      hide FrameOf, Carries, IsCount, Valid;
      var i := 0;
      while i < |conns|
        invariant 0 <= i <= |conns|
        invariant forall j :: 0 <= j < |conns| ==> Valid(conns[j])
        invariant forall j :: i <= j < |conns| ==> unchanged(conns[j])
        invariant forall j :: 0 <= j < i ==> old(conns[j].sent) <= conns[j].sent
        invariant packets != [] ==> forall j :: 0 <= j < i ==>
                                      conns[j].playbackTimeMs == old(conns[j].playbackTimeMs) + 10
      {
        OnTimerMp4(conns[i], k => clock(i, k));
        i := i + 1;
      }
    }

    // ----- raw playback -----

    ghost predicate RawValid(conn: Connection)
      reads conn
    {
      conn.Consistent() && |conn.sent| == conn.auIndex && UnitsInOrder(info, accessUnits, conn.sent)
    }

    /** All NAL units of an access unit, start codes and all. */
    static method MergeNalUnits(au: AU.Group) returns (payload: bytes)
      ensures payload == AnnexB.Concat(au)
    {
      payload := [];
      var i := 0;
      while i < |au|
        invariant 0 <= i <= |au|
        invariant payload == AnnexB.Concat(au[..i])
      {
        payload := payload + au[i];
        assert au[..i + 1][..i] == au[..i];
        i := i + 1;
      }
      assert au[..i] == au;
    }

    static method DetectFrameType(isH265: bool, au: AU.Group) returns (kind: byte)
      ensures kind == FrameTypeOfUnit(isH265, au, 0)
    {
      var i := 0;
      while i < |au|
        invariant 0 <= i <= |au|
        invariant FrameTypeOfUnit(isH265, au, 0) == FrameTypeOfUnit(isH265, au, i)
      {
        var found := FrameTypeOfNal(isH265, au[i]);
        if found.Some? {
          return found.value;
        }
        i := i + 1;
      }
      kind := P_FRAME;
    }

    /** One tick of raw playback sends one access unit. */
    method OnTimerRaw(conn: Connection, now: int64)
      requires RawValid(conn) && UnitTime(info, conn.auIndex) < 0x8000_0000_0000_0000
      modifies this, conn
      ensures RawValid(conn)
      ensures accessUnits == [] ==> conn.sent == old(conn.sent) && frameId == old(frameId)
      ensures accessUnits != [] ==>
                && frameId == (old(frameId) + 1) % 0x1_0000
                && conn.sent == old(conn.sent)
                                + [SentFrame(UnitFrame(info, accessUnits, old(conn.auIndex), now), old(frameId))]
    {
      hide FrameTypeOfUnit, Carries, AnnexB.Concat, UnitTime;
      if |accessUnits| == 0 {
        return;
      }
      var au := accessUnits[conn.auIndex % |accessUnits|];
      var payload := MergeNalUnits(au);
      var codec: byte := if info.isH265 then 2 else 1;
      var frameType := DetectFrameType(info.isH265, au);
      var messages := EncodeVideoFrame(payload, codec, frameType, UnitTime(info, conn.auIndex), now, frameId);
      WriteMessages(conn, messages, UnitFrame(info, accessUnits, conn.auIndex, now), frameId);
      conn.auIndex := conn.auIndex + 1;
      frameId := (frameId + 1) % 0x1_0000;
    }
  }

  /** A new connection: before its first tick nothing has been sent and nothing was due. */
  method NewConnection(server: VideoServer) returns (conn: Connection)
    requires Sorted(server.packets)
    ensures fresh(conn) && server.Valid(conn) && server.RawValid(conn) && conn.sent == []
  {
    conn := new Connection();
    NothingSent();
    if server.packets != [] {
      CountFromEnds(server.packets, -TICK_MS, 0);
    }
  }

  lemma NothingSent()
    ensures Carries([], []) && WS.PrintAll([]) == []
  {
  }

  /** Frame k of the connection is access unit k of the endless playback. */
  ghost predicate UnitsInOrder(info: MediaInfo, aus: seq<AU.Group>, sent: seq<SentFrame>) {
    forall k :: 0 <= k < |sent| ==> aus != [] && UnitTime(info, k) < 0x8000_0000_0000_0000
                                    && sent[k].frame == UnitFrame(info, aus, k, sent[k].frame.absTime)
  }

  ghost predicate FromPacket(info: MediaInfo, p: MediaPacket, f: MediaFrame) {
    f == FrameOf(info, p, f.absTime)
  }

  // ----- the client -----

  /** The messages a client finds in the binary frames it receives. */
  function Payloads(fs: seq<WS.WsFrame>): (ms: seq<bytes>)
    ensures |ms| == |fs|
  {
    seq(|fs|, i requires 0 <= i < |fs| => fs[i].payload)
  }

  function FramesOf(sent: seq<SentFrame>): (fs: seq<MediaFrame>)
    ensures |fs| == |sent|
  {
    seq(|sent|, i requires 0 <= i < |sent| => sent[i].frame)
  }

  function IdsOf(sent: seq<SentFrame>): (ids: seq<uint16>)
    ensures |ids| == |sent|
  {
    seq(|sent|, i requires 0 <= i < |sent| => sent[i].frameId)
  }

  predicate AllDatagrams(ms: seq<bytes>) {
    forall i :: 0 <= i < |ms| ==> InBounds(ms[i])
  }

  function AsDatagrams(ms: seq<bytes>): (ds: seq<Datagram>)
    requires AllDatagrams(ms)
    ensures |ds| == |ms|
  {
    seq(|ms|, i requires 0 <= i < |ms| => var d: Datagram := ms[i]; d)
  }

  /** The messages sent decode to the stream of the frames sent. */
  lemma {:induction false} MessagesDecode(sent: seq<SentFrame>, n: nat)
    requires n <= |sent|
    ensures var ms := MessagesSent(sent, n);
            AllDatagrams(ms) && DecodeAll(AsDatagrams(ms)) == StreamMessages(FramesOf(sent), IdsOf(sent), n)
  {
    hide Decode, InBounds, Wire, FrameMessages, FrameDatagrams;
    if n == 0 {
    } else {
      MessagesDecode(sent, n - 1);
      var f, id := sent[n - 1].frame, sent[n - 1].frameId;
      FrameMessagesAreTheWire(f, id);
      var before, ds := MessagesSent(sent, n - 1), FrameDatagrams(f, id);
      assert ds == Wire(f, id);
      assert AsDatagrams(before + Wire(f, id)) == AsDatagrams(before) + ds;
      assert DecodeAll(AsDatagrams(before) + ds) == DecodeAll(AsDatagrams(before)) + DecodeAll(ds);
    }
  }

  /** The binary messages in the bytes that arrive, however the network split them. */
  function MessagesIn(chunks: seq<bytes>): seq<bytes> {
    Payloads(BinaryOnly(WS.CutChunks(chunks).frames))
  }

  /** What a client makes of the bytes written to it: it cuts them into WebSocket frames and feeds
      the payloads of the binary ones to a fresh parser. */
  ghost function Received(chunks: seq<bytes>, victims: seq<uint16>): RunResult
    requires AllDatagrams(MessagesIn(chunks)) && |victims| == |MessagesIn(chunks)|
  {
    Run(map[], DecodeAll(AsDatagrams(MessagesIn(chunks))), victims)
  }

  lemma MessagesAreFound(sent: seq<SentFrame>, wire: seq<WS.WsFrame>, chunks: seq<bytes>)
    requires Carries(wire, sent) && WS.Joined(chunks) == WS.PrintAll(wire)
    ensures WS.CutChunks(chunks) == WS.Cut(wire, []) && MessagesIn(chunks) == MessagesSent(sent, |sent|)
  {
    hide WS.CutFrames, WS.CutChunks, WS.PrintFrame, MessagesSent, BinaryOnly;
    WS.ChunkingIndependent(chunks);
    WS.PrintedStreamReadBack(wire);
    assert Payloads(BinaryFrames(MessagesSent(sent, |sent|))) == MessagesSent(sent, |sent|);
  }

  /** From packets to pictures, whatever offer, pongs or close frames stand between: out come exactly
      the frames that were sent, in order, however often the frame counter has wrapped, but for
      those that cannot arrive because of their size. */
  lemma {:induction false} ClientReceivesWhatWasSent(sent: seq<SentFrame>, wire: seq<WS.WsFrame>, chunks: seq<bytes>,
                                                     victims: seq<uint16>)
    requires Carries(wire, sent) && WS.Joined(chunks) == WS.PrintAll(wire)
    requires |victims| == |MessagesSent(sent, |sent|)|
    ensures WS.CutChunks(chunks).rest == []
    ensures |MessagesIn(chunks)| == |victims| && AllDatagrams(MessagesIn(chunks))
    ensures var r := Received(chunks, victims);
            && r.table == map[]
            && Delivered(r.outcomes) == ArrivingAll(FramesOf(sent), |sent|)
            && (Delivered(r.outcomes) == ExpectedAll(FramesOf(sent), |sent|)
                <==> forall k :: 0 <= k < |sent| ==> Deliverable(sent[k].frame))
  {
    hide Run, Decode, InBounds, WS.CutChunks, WS.PrintAll, MessagesSent, MessagesIn, Deliverable, ArrivingAll,
         ExpectedAll, Carries;
    MessagesAreFound(sent, wire, chunks);
    MessagesDecode(sent, |sent|);
    OrderedStream(FramesOf(sent), IdsOf(sent), |sent|, victims);
    AllArriveExactly(FramesOf(sent), |sent|);
    SameFrames(sent);
  }

  lemma SameFrames(sent: seq<SentFrame>)
    ensures (forall k :: 0 <= k < |sent| ==> Deliverable(sent[k].frame))
            <==> forall k :: 0 <= k < |sent| ==> Deliverable(FramesOf(sent)[k])
  {
    hide Deliverable;
    assert forall k :: 0 <= k < |sent| ==> FramesOf(sent)[k] == sent[k].frame;
  }

  lemma {:induction false} ExpectedAt(fs: seq<MediaFrame>, n: nat, k: nat)
    requires k < n <= |fs|
    ensures ExpectedAll(fs, n)[k] == Expected(fs[k])
  {
    if k < n - 1 {
      ExpectedAt(fs, n - 1, k);
    }
  }

  /** Between ticks, for every connection of the server: the client holds what arrives of the packets
      due by the last tick, each as often as it has come due, and nothing else; and that is all of
      them if and only if none of them is larger than 4 MiB. */
  lemma {:induction false} ClientHoldsDuePackets(server: VideoServer, conn: Connection, chunks: seq<bytes>,
                                                 victims: seq<uint16>)
    requires server.Valid(conn) && server.packets != []
    requires WS.Joined(chunks) == conn.outbox && |victims| == |MessagesSent(conn.sent, |conn.sent|)|
    ensures |MessagesIn(chunks)| == |victims| && AllDatagrams(MessagesIn(chunks))
    ensures var n := |server.packets|;
            var received := Delivered(Received(chunks, victims).outcomes);
            && (forall k: nat :: k < |conn.sent| <==> DueTime(server.packets, k) <= conn.playbackTimeMs - 10)
            && (forall k :: 0 <= k < |conn.sent| ==>
                  conn.sent[k].frame == FrameOf(server.info, server.packets[k % n], conn.sent[k].frame.absTime))
            && received == ArrivingAll(FramesOf(conn.sent), |conn.sent|)
            && (received == ExpectedAll(FramesOf(conn.sent), |conn.sent|)
                <==> forall k :: 0 <= k < |conn.sent| ==> |server.packets[k % n].data| <= MAX_PAYLOAD)
            && (received == ExpectedAll(FramesOf(conn.sent), |conn.sent|) ==>
                  forall k :: 0 <= k < |conn.sent| ==> received[k] == Expected(conn.sent[k].frame))
  {
    hide Run, Decode, InBounds, WS.PrintAll, MessagesSent, MessagesIn, ArrivingAll, ExpectedAll, Carries, DueTime,
         Received, Delivered, FrameOf, Expected, WS.CutChunks, AllDatagrams, Deliverable;
    forall k | 0 <= k < |conn.sent|
      ensures Deliverable(conn.sent[k].frame) <==> |server.packets[k % |server.packets|].data| <= MAX_PAYLOAD
    {
      SmallIsDeliverable(server.info, server.packets[k % |server.packets|], conn.sent[k].frame);
    }
    ClientReceivesWhatWasSent(conn.sent, conn.wire, chunks, victims);
    forall k | 0 <= k < |conn.sent|
      ensures ExpectedAll(FramesOf(conn.sent), |conn.sent|)[k] == Expected(conn.sent[k].frame)
    {
      ExpectedAt(FramesOf(conn.sent), |conn.sent|, k);
    }
  }

  lemma SmallIsDeliverable(info: MediaInfo, p: MediaPacket, f: MediaFrame)
    requires FromPacket(info, p, f)
    ensures Deliverable(f) <==> |p.data| <= MAX_PAYLOAD
  {
  }
}
