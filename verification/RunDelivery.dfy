/** Whole runs of the server, from its events to its clients: the bytes that a run writes to each
    connection, and what a client makes of them. */
module RunDelivery {
  import opened Bytes
  import opened FrameEncoder
  import opened Delivery
  import opened StreamDelivery
  import opened Scheduler
  import opened MediaServer
  import AU = AccessUnits
  import Reassembly
  import Session
  import Server
  import WS = WebSocket

  /** What is played and said: the stream's properties, the access units of raw playback, the text
      of the offer, and the wall clock at each entry of the log. */
  datatype Show = Show(info: MediaInfo, units: seq<AU.Group>, offer: bytes, stamps: nat -> int64)

  /** The offer is formatted into 512 bytes. */
  predicate Fits(cfg: Server.Config, show: Show) {
    cfg.units == |show.units| && |show.offer| < 512
  }

  predicate Playable(cfg: Server.Config, show: Show, k: nat) {
    if cfg.isMp4 then cfg.packets != [] else show.units != [] && UnitTime(show.info, k) < 0x8000_0000_0000_0000
  }

  predicate AllPlayable(cfg: Server.Config, show: Show, log: seq<Server.Entry>) {
    forall i :: 0 <= i < |log| && log[i].MediaSent? ==> Playable(cfg, show, log[i].packet)
  }

  /** Frame k of a connection. */
  function Playing(cfg: Server.Config, show: Show, k: nat, now: int64): MediaFrame
    requires Playable(cfg, show, k)
  {
    if cfg.isMp4 then FrameOf(show.info, cfg.packets[k % |cfg.packets|], now)
    else UnitFrame(show.info, show.units, k, now)
  }

  /** All connections together; the server's counter is this number modulo 65536. */
  function MediaTotal(log: seq<Server.Entry>): nat {
    if log == [] then 0 else MediaTotal(log[..|log| - 1]) + (if log[|log| - 1].MediaSent? then 1 else 0)
  }

  /** The frame behind the last entry of the log. */
  function LastSent(cfg: Server.Config, show: Show, log: seq<Server.Entry>): SentFrame
    requires AllPlayable(cfg, show, log) && log != [] && log[|log| - 1].MediaSent?
  {
    var n := |log| - 1;
    SentFrame(Playing(cfg, show, log[n].packet, show.stamps(n)), MediaTotal(log[..n]) % 0x1_0000)
  }

  /** The media frames sent to a connection. */
  function SentTo(cfg: Server.Config, show: Show, log: seq<Server.Entry>, id: nat): seq<SentFrame>
    requires AllPlayable(cfg, show, log)
  {
    if log == [] then []
    else
      var last := log[|log| - 1];
      SentTo(cfg, show, log[..|log| - 1], id)
      + (if last.MediaSent? && last.id == id then [LastSent(cfg, show, log)] else [])
  }

  function Ascii(s: string): (t: bytes)
    ensures |t| == |s| && forall i :: 0 <= i < |s| && s[i] as int < 128 ==> t[i] == s[i] as int
  {
    seq(|s|, i requires 0 <= i < |s| => s[i] as int % 128)
  }

  function ClosePayload(code: uint16, reason: string): bytes {
    BE(code, 2) + Ascii(reason)
  }

  /** What the last entry of the log puts on its connection's socket. */
  function LastOnWire(cfg: Server.Config, show: Show, log: seq<Server.Entry>): seq<WS.WsFrame>
    requires AllPlayable(cfg, show, log) && log != []
  {
    match log[|log| - 1]
    case OfferSent(_) => [WS.Plain(WS.TEXT, show.offer)]
    case AnswerAccepted(_) => []
    case ReplySent(_, Pong(payload)) => [WS.Plain(WS.PONG, payload)]
    case ReplySent(_, CloseFrame(code)) => [WS.Plain(WS.CLOSE, ClosePayload(code, "Negotiation rejected"))]
    case TimedOut(_) => [WS.Plain(WS.CLOSE, ClosePayload(1008, "Negotiation timeout"))]
    case MediaSent(_, _) => var f := LastSent(cfg, show, log); BinaryFrames(Wire(f.frame, f.frameId))
  }

  /** The frames on the socket of a connection, since its handshake. */
  function WireTo(cfg: Server.Config, show: Show, log: seq<Server.Entry>, id: nat): seq<WS.WsFrame>
    requires AllPlayable(cfg, show, log)
  {
    if log == [] then []
    else
      WireTo(cfg, show, log[..|log| - 1], id)
      + (if log[|log| - 1].id == id then LastOnWire(cfg, show, log) else [])
  }

  // ----- the media on the wire -----

  lemma {:induction false} BinaryOnlyConcat(a: seq<WS.WsFrame>, b: seq<WS.WsFrame>)
    ensures BinaryOnly(a + b) == BinaryOnly(a) + BinaryOnly(b)
  {
    if b == [] {
      assert a + b == a;
    } else {
      BinaryOnlyConcat(a, b[..|b| - 1]);
      assert (a + b)[..|a + b| - 1] == a + b[..|b| - 1];
    }
  }

  lemma {:induction false} AllBinary(ms: seq<bytes>)
    ensures BinaryOnly(BinaryFrames(ms)) == BinaryFrames(ms)
  {
    if ms == [] {
    } else {
      AllBinary(ms[..|ms| - 1]);
      assert BinaryFrames(ms)[..|ms| - 1] == BinaryFrames(ms[..|ms| - 1]);
    }
  }

  lemma OneOnWire(f: WS.WsFrame)
    requires WS.Printable(f) && f.opcode != WS.BINARY
    ensures WS.AllPrintable([f]) && BinaryOnly([f]) == []
  {
    hide WS.Printable;
    assert [f][..0] == [];
  }

  lemma MediaOnWire(f: MediaFrame, frameId: uint16)
    ensures WS.AllPrintable(BinaryFrames(Wire(f, frameId)))
    ensures BinaryOnly(BinaryFrames(Wire(f, frameId))) == BinaryFrames(Wire(f, frameId))
  {
    hide Wire, WS.Printable, BinaryOnly;
    WireIsShort(f, frameId);
    AllBinary(Wire(f, frameId));
    forall i | 0 <= i < |Wire(f, frameId)| ensures WS.Printable(BinaryFrames(Wire(f, frameId))[i]) {
      WS.ShortIsPrintable(WS.BINARY, Wire(f, frameId)[i]);
    }
  }

  lemma LastIsPrintable(cfg: Server.Config, show: Show, log: seq<Server.Entry>)
    requires AllPlayable(cfg, show, log) && log != [] && |show.offer| < 512
    requires log[|log| - 1].ReplySent? ==> Server.Sendable(log[|log| - 1].reply)
    ensures WS.AllPrintable(LastOnWire(cfg, show, log))
    ensures BinaryOnly(LastOnWire(cfg, show, log))
            == if log[|log| - 1].MediaSent?
               then BinaryFrames(Wire(LastSent(cfg, show, log).frame, LastSent(cfg, show, log).frameId)) else []
  {
    hide WS.Printable, WS.AllPrintable, BinaryOnly, BinaryFrames, Wire, Playing, AllPlayable;
    match log[|log| - 1]
    case OfferSent(_) =>
      WS.ShortIsPrintable(WS.TEXT, show.offer);
      OneOnWire(WS.Plain(WS.TEXT, show.offer));
    case AnswerAccepted(_) =>
      NothingOnWire();
    case ReplySent(_, Pong(payload)) =>
      OneOnWire(WS.Plain(WS.PONG, payload));
    case ReplySent(_, CloseFrame(code)) =>
      WS.ShortIsPrintable(WS.CLOSE, ClosePayload(code, "Negotiation rejected"));
      OneOnWire(WS.Plain(WS.CLOSE, ClosePayload(code, "Negotiation rejected")));
    case TimedOut(_) =>
      WS.ShortIsPrintable(WS.CLOSE, ClosePayload(1008, "Negotiation timeout"));
      OneOnWire(WS.Plain(WS.CLOSE, ClosePayload(1008, "Negotiation timeout")));
    case MediaSent(_, _) =>
      MediaOnWire(LastSent(cfg, show, log).frame, LastSent(cfg, show, log).frameId);
  }

  lemma NothingOnWire()
    ensures WS.AllPrintable([]) && BinaryOnly([]) == []
  {
  }

  lemma LogPrefix(cfg: Server.Config, show: Show, log: seq<Server.Entry>, n: nat)
    requires Server.LogOk(log) && AllPlayable(cfg, show, log) && n <= |log|
    ensures Server.LogOk(log[..n]) && AllPlayable(cfg, show, log[..n])
  {
    hide Server.EntryOk, Playable;
    forall i | 0 <= i < n ensures Server.EntryOk(log[..n][..i], log[..n][i]) {
      assert log[..n][..i] == log[..i];
    }
  }

  lemma NothingYet(cfg: Server.Config, show: Show, id: nat)
    ensures SentTo(cfg, show, [], id) == [] && Carries(WireTo(cfg, show, [], id), [])
  {
  }

  /** The socket carries the frames sent, whatever else is on it. */
  lemma {:induction false} WireCarriesSent(cfg: Server.Config, show: Show, log: seq<Server.Entry>, id: nat)
    requires Server.LogOk(log) && AllPlayable(cfg, show, log) && |show.offer| < 512
    ensures Carries(WireTo(cfg, show, log, id), SentTo(cfg, show, log, id))
  {
    hide WS.Printable, BinaryOnly, BinaryFrames, Wire, AllPlayable, LastSent, LastOnWire, MessagesSent;
    if log == [] {
      NothingYet(cfg, show, id);
    } else {
      var n := |log| - 1;
      assert Server.EntryOk(log[..n], log[n]);
      LogPrefix(cfg, show, log, n);
      WireCarriesSent(cfg, show, log[..n], id);
      if log[n].id == id {
        LastIsPrintable(cfg, show, log);
        BinaryOnlyConcat(WireTo(cfg, show, log[..n], id), LastOnWire(cfg, show, log));
        if log[n].MediaSent? {
          var f, sent := LastSent(cfg, show, log), SentTo(cfg, show, log[..n], id);
          MessagesSentAppend(sent, f.frame, f.frameId);
          BinaryFramesConcat(MessagesSent(sent, |sent|), Wire(f.frame, f.frameId));
          assert SentTo(cfg, show, log, id) == sent + [SentFrame(f.frame, f.frameId)];
        } else {
          assert SentTo(cfg, show, log, id) == SentTo(cfg, show, log[..n], id);
          assert BinaryOnly(WireTo(cfg, show, log[..n], id)) + [] == BinaryOnly(WireTo(cfg, show, log[..n], id));
        }
      } else {
        assert WireTo(cfg, show, log, id) == WireTo(cfg, show, log[..n], id);
        assert SentTo(cfg, show, log, id) == SentTo(cfg, show, log[..n], id);
      }
    }
  }

  lemma BinaryFramesConcat(a: seq<bytes>, b: seq<bytes>)
    ensures BinaryFrames(a + b) == BinaryFrames(a) + BinaryFrames(b)
  {
  }

  ghost predicate IsPlayed(cfg: Server.Config, show: Show, k: nat, f: MediaFrame) {
    Playable(cfg, show, k) && exists now :: f == Playing(cfg, show, k, now)
  }

  lemma LastIsPlayed(cfg: Server.Config, show: Show, log: seq<Server.Entry>)
    requires AllPlayable(cfg, show, log) && log != [] && log[|log| - 1].MediaSent?
    ensures IsPlayed(cfg, show, log[|log| - 1].packet, LastSent(cfg, show, log).frame)
  {
    hide Playing;
    var n := |log| - 1;
    assert LastSent(cfg, show, log).frame == Playing(cfg, show, log[n].packet, show.stamps(n));
  }

  /** They are frame 0, 1, 2, ... of the playback. */
  lemma {:induction false} SentIsPlayed(cfg: Server.Config, show: Show, log: seq<Server.Entry>, id: nat)
    requires Server.LogOk(log) && AllPlayable(cfg, show, log)
    ensures var sent := SentTo(cfg, show, log, id);
            && |sent| == Server.MediaCount(log, id)
            && forall k :: 0 <= k < |sent| ==> IsPlayed(cfg, show, k, sent[k].frame)
  {
    hide IsPlayed, LastSent, AllPlayable, Server.Stage;
    if log == [] {
    } else {
      var n := |log| - 1;
      assert Server.EntryOk(log[..n], log[n]);
      LogPrefix(cfg, show, log, n);
      SentIsPlayed(cfg, show, log[..n], id);
      if log[n].MediaSent? {
        LastIsPlayed(cfg, show, log);
      }
    }
  }

  // ----- the same, byte by byte -----

  function Sized(opcode: byte, n: uint16): bytes {
    if n < 126 then [opcode, n] else [opcode, 126] + Octets(n, 2)
  }

  /** What the entries of the log put on the wire but for media: the offer is a text, a ping is answered
      by a pong, and a connection is closed with code 1000 if it refuses and 1008 if it does not
      answer. */
  lemma ControlBytes(cfg: Server.Config, show: Show, log: seq<Server.Entry>)
    requires AllPlayable(cfg, show, log) && log != [] && |show.offer| < 512 && !log[|log| - 1].MediaSent?
    requires log[|log| - 1].ReplySent? ==> Server.Sendable(log[|log| - 1].reply)
    ensures var e, fs := log[|log| - 1], LastOnWire(cfg, show, log);
            && WS.AllPrintable(fs)
            && (e.OfferSent? ==> WS.PrintAll(fs) == Sized(0x81, |show.offer|) + show.offer)
            && (e.AnswerAccepted? ==> WS.PrintAll(fs) == [])
            && (e.TimedOut? ==> WS.PrintAll(fs) == [0x88, 21, 0x03, 0xF0] + Ascii("Negotiation timeout"))
            && (e.ReplySent? && e.reply == Session.CloseFrame(1000)
                ==> WS.PrintAll(fs) == [0x88, 22, 0x03, 0xE8] + Ascii("Negotiation rejected"))
            && (e.ReplySent? && e.reply.Pong? && |e.reply.payload| < 0x1_0000
                ==> WS.PrintAll(fs) == Sized(0x8A, |e.reply.payload|) + e.reply.payload)
  {
    hide WS.PrintFrame, WS.PrintAll, WS.Printable, Octets, Ascii, AllPlayable;
    LastIsPrintable(cfg, show, log);
    match log[|log| - 1]
    case OfferSent(_) =>
      OneControl(WS.TEXT, show.offer);
    case AnswerAccepted(_) =>
      NothingPrinted();
    case TimedOut(_) =>
      CloseBytes(1008, "Negotiation timeout");
      OneControl(WS.CLOSE, ClosePayload(1008, "Negotiation timeout"));
    case ReplySent(_, Pong(payload)) =>
      if |payload| < 0x1_0000 {
        OneControl(WS.PONG, payload);
      }
    case ReplySent(_, CloseFrame(code)) =>
      if code == 1000 {
        CloseBytes(1000, "Negotiation rejected");
        OneControl(WS.CLOSE, ClosePayload(1000, "Negotiation rejected"));
      }
  }

  lemma NothingPrinted()
    ensures WS.AllPrintable([]) && WS.PrintAll([]) == []
  {
  }

  lemma CloseBytes(code: uint16, reason: string)
    requires |reason| < 124
    ensures Sized(0x88, 2 + |reason|) + ClosePayload(code, reason)
            == [0x88, 2 + |reason|, code / 256, code % 256] + Ascii(reason)
  {
    BEIsOctets(code, 2);
    OctetValues(code);
  }

  lemma OneControl(opcode: WS.Opcode, payload: bytes)
    requires |payload| < 0x1_0000
    ensures WS.AllPrintable([WS.Plain(opcode, payload)])
    ensures WS.PrintAll([WS.Plain(opcode, payload)]) == Sized(128 + opcode, |payload|) + payload
  {
    hide WS.PrintFrame, WS.PrintAll, WS.Printable, Octets;
    WS.ShortIsPrintable(opcode, payload);
    WS.PrintAllOne(WS.Plain(opcode, payload));
    WS.PrintedBytes(opcode, payload);
  }

  /** The messages of a media frame are binary. */
  lemma {:induction false} MediaBytes(ms: seq<bytes>, k: nat)
    requires k < |ms| && forall i :: 0 <= i < |ms| ==> |ms[i]| < 0x1_0000
    ensures WS.AllPrintable([BinaryFrames(ms)[k]])
    ensures WS.PrintAll([BinaryFrames(ms)[k]]) == Sized(0x82, |ms[k]|) + ms[k]
  {
    hide WS.PrintFrame, WS.PrintAll, WS.Printable, Octets;
    OneControl(WS.BINARY, ms[k]);
  }

  /** All connections share one counter: the first media frame of a run has id 0, and each the id
      behind that of the one before it, whichever connection that was for. */
  lemma IdsCountUp(cfg: Server.Config, show: Show, log: seq<Server.Entry>, i: nat, j: nat)
    requires AllPlayable(cfg, show, log) && i <= j < |log| && log[j].MediaSent?
    requires forall k :: i <= k < j ==> !log[k].MediaSent?
    ensures AllPlayable(cfg, show, log[..j + 1]) && AllPlayable(cfg, show, log[..i])
    ensures i == 0 ==> LastSent(cfg, show, log[..j + 1]).frameId == 0
    ensures i > 0 && log[i - 1].MediaSent? ==>
              LastSent(cfg, show, log[..j + 1]).frameId == (LastSent(cfg, show, log[..i]).frameId + 1) % 0x1_0000
  {
    hide Playable, Playing;
    assert log[..j + 1][..j] == log[..j];
    NoMediaBetween(log, i, j);
    if i > 0 {
      assert log[..i][..i - 1] == log[..i - 1];
    }
  }

  lemma {:induction false} NoMediaBetween(log: seq<Server.Entry>, i: nat, j: nat)
    requires i <= j <= |log| && forall k :: i <= k < j ==> !log[k].MediaSent?
    ensures MediaTotal(log[..j]) == MediaTotal(log[..i])
    decreases j
  {
    if i < j {
      NoMediaBetween(log, i, j - 1);
      assert log[..j][..j - 1] == log[..j - 1];
    }
  }

  // ----- every run -----

  ghost predicate RunPlays(cfg: Server.Config, show: Show, es: seq<Server.Event>) {
    && Fits(cfg, show)
    && Server.LogOk(Server.Run(cfg, Server.NOTHING_YET, es).log)
    && AllPlayable(cfg, show, Server.Run(cfg, Server.NOTHING_YET, es).log)
  }

  /** That is so as long as the timestamps of raw playback fit 64 bits. */
  lemma RunPlaysAlways(cfg: Server.Config, show: Show, es: seq<Server.Event>)
    requires Fits(cfg, show)
    requires !cfg.isMp4 ==> forall e :: e in Server.Run(cfg, Server.NOTHING_YET, es).log && e.MediaSent?
                                        ==> UnitTime(show.info, e.packet) < 0x8000_0000_0000_0000
    ensures RunPlays(cfg, show, es)
  {
    hide Server.ConnOk, Server.LogOk, UnitTime;
    Server.RunOk(cfg, es);
  }

  /** The bytes that a run writes to a connection after its handshake. */
  ghost function BytesTo(cfg: Server.Config, show: Show, es: seq<Server.Event>, id: nat): bytes
    requires RunPlays(cfg, show, es)
  {
    var log := Server.Run(cfg, Server.NOTHING_YET, es).log;
    WireCarriesSent(cfg, show, log, id);
    WS.PrintAll(WireTo(cfg, show, log, id))
  }

  /** Every run of connects, data, ticks and disconnects, with any number of connections: the client
      of each gets what arrives of its playback frames 0, 1, 2, ... in order, and all of them if
      and only if none is larger than 4 MiB, however the network splits the bytes and whatever
      offer, pongs and close frames stand between. */
  lemma {:induction false} RunReachesClient(cfg: Server.Config, show: Show, es: seq<Server.Event>, id: nat,
                                            chunks: seq<bytes>, victims: seq<uint16>)
    requires RunPlays(cfg, show, es) && WS.Joined(chunks) == BytesTo(cfg, show, es, id)
    requires |victims| == |MessagesIn(chunks)|
    ensures WS.CutChunks(chunks).rest == [] && AllDatagrams(MessagesIn(chunks))
    ensures var log := Server.Run(cfg, Server.NOTHING_YET, es).log;
            var sent := SentTo(cfg, show, log, id);
            var r := Received(chunks, victims);
            && |sent| == Server.MediaCount(log, id)
            && (forall k :: 0 <= k < |sent| ==> IsPlayed(cfg, show, k, sent[k].frame))
            && r.table == map[] && Reassembly.Delivered(r.outcomes) == ArrivingAll(FramesOf(sent), |sent|)
            && (Reassembly.Delivered(r.outcomes) == ExpectedAll(FramesOf(sent), |sent|)
                <==> forall k :: 0 <= k < |sent| ==> Deliverable(sent[k].frame))
  {
    hide Server.Run, Server.LogOk, AllPlayable, Fits, Carries, WS.PrintAll, WS.CutChunks, WS.Joined, WireTo, SentTo,
         MessagesIn, MessagesSent, Received, AllDatagrams, ArrivingAll, ExpectedAll, Reassembly.Delivered, Deliverable,
         IsPlayed, Server.MediaCount;
    var log := Server.Run(cfg, Server.NOTHING_YET, es).log;
    assert |show.offer| < 512 by {
      FitsMeans(cfg, show);
    }
    WireCarriesSent(cfg, show, log, id);
    SentIsPlayed(cfg, show, log, id);
    MessagesAreFound(SentTo(cfg, show, log, id), WireTo(cfg, show, log, id), chunks);
    ClientReceivesWhatWasSent(SentTo(cfg, show, log, id), WireTo(cfg, show, log, id), chunks, victims);
  }

  lemma FitsMeans(cfg: Server.Config, show: Show)
    requires Fits(cfg, show)
    ensures |show.offer| < 512
  {
  }

  /** In packet playback these are, for a connection still there, exactly the packets due before its
      next tick. */
  lemma RunSendsDuePackets(cfg: Server.Config, show: Show, es: seq<Server.Event>, fd: int, k: nat)
    requires RunPlays(cfg, show, es) && cfg.isMp4 && cfg.packets != []
    requires fd in Server.Run(cfg, Server.NOTHING_YET, es).conns
    ensures var w := Server.Run(cfg, Server.NOTHING_YET, es);
            var sent := SentTo(cfg, show, w.log, w.conns[fd].id);
            && (k < |sent| <==> DueTime(cfg.packets, k) <= w.conns[fd].playbackTimeMs - 10)
            && (k < |sent| ==> exists now ::
                  sent[k].frame == FrameOf(show.info, cfg.packets[k % |cfg.packets|], now))
  {
    hide Server.Run, Server.LogOk, DueTime, FrameOf, SentTo, Server.MediaCount, AllPlayable, Fits;
    var w := Server.Run(cfg, Server.NOTHING_YET, es);
    SentIsPlayed(cfg, show, w.log, w.conns[fd].id);
    Server.MediaSentIsDue(cfg, es, fd);
    if k < |SentTo(cfg, show, w.log, w.conns[fd].id)| {
      var now :| SentTo(cfg, show, w.log, w.conns[fd].id)[k].frame == Playing(cfg, show, k, now);
    }
  }
}
