/** Many connections: what every data, timer, connect and disconnect event does, and what holds
    over every run. Sends are entries of a log. */
module Server {
  import opened Bytes
  import opened Session
  import opened Scheduler
  import WS = WebSocket

  const NEGOTIATION_LIMIT_MS := 5000

  /** What the HTTP part makes of the bytes received so far. */
  datatype Handshake = NeedMore | BadRequest | Upgrade

  /** What is played: the packets of an MP4 file, or a number of access units of a raw stream. */
  datatype Settings = Settings(handshake: bytes -> Handshake, classify: Classifier, isMp4: bool,
                               packets: seq<MediaPacket>, units: nat)

  /** The demuxer delivers sorted packets. */
  type Config = c: Settings | Sorted(c.packets) witness Settings(_ => NeedMore, _ => NotAnAnswer, true, [], 0)

  datatype Conn = Conn(id: nat, session: Session.State, offerTime: int, packetIndex: nat, playbackTimeMs: nat,
                       auIndex: nat)

  /** What the server sends or learns, with the connection it concerns. */
  datatype Entry =
    | OfferSent(id: nat)
    | AnswerAccepted(id: nat)
    | ReplySent(id: nat, reply: Reply)
    | MediaSent(id: nat, packet: nat)
    | TimedOut(id: nat)

  type Connections = map<int, Conn>

  /** `crashed`: an exception has ended the process. */
  datatype World = World(conns: Connections, total: nat, log: seq<Entry>, crashed: bool)

  datatype Event =
    | Connect(fd: int)
    | Disconnect(fd: int)
    | Data(fd: int, data: bytes, now: int)
    | Timer(order: seq<int>, clock: int -> int)

  const NEW_SESSION := State(HandshakingWs, true, false, [], [], [])

  // ----- data -----

  datatype Effect = Effect(conn: Conn, entries: seq<Entry>)

  /** HandleHandshake, then SendMediaOffer. */
  function OnHandshakeData(cfg: Config, c: Conn, data: bytes, now: int): Effect {
    var s := c.session.(buffer := c.session.buffer + data);
    match cfg.handshake(s.buffer)
    case NeedMore => Effect(c.(session := s), [])
    case BadRequest => Effect(c.(session := s.(open := false)), [])
    case Upgrade => Effect(c.(session := s.(buffer := [], state := Negotiating), offerTime := now), [OfferSent(c.id)])
  }

  /** What one frame brings about; `undecided` as long as there has been no answer to the offer. */
  function EntriesFor(classify: Classifier, id: nat, undecided: bool, f: WS.WsFrame): seq<Entry> {
    if f.opcode == WS.TEXT && undecided then
      match classify(f.payload)
      case NotAnAnswer => []
      case Accepted => [AnswerAccepted(id)]
      case Refused => [ReplySent(id, CloseFrame(1000))]
    else if f.opcode == WS.PING then [ReplySent(id, Pong(f.payload))]
    else []
  }

  function TakenEntries(classify: Classifier, id: nat, negotiating: bool, fs: seq<WS.WsFrame>): seq<Entry> {
    if fs == [] then []
    else
      var before := fs[..|fs| - 1];
      TakenEntries(classify, id, negotiating, before)
      + EntriesFor(classify, id, negotiating && FirstAnswer(classify, before) == NotAnAnswer, fs[|fs| - 1])
  }

  function OnFrameData(cfg: Config, c: Conn, data: bytes): Effect {
    var s := Receive(cfg.classify, c.session, data);
    var n := |c.session.handled|;
    var taken := if n <= |s.handled| then s.handled[n..] else [];
    Effect(c.(session := s), TakenEntries(cfg.classify, c.id, c.session.state.Negotiating?, taken))
  }

  /** A closed socket delivers nothing. */
  function OnData(cfg: Config, c: Conn, data: bytes, now: int): Effect {
    if !c.session.open then Effect(c, [])
    else if c.session.state.HandshakingWs? then OnHandshakeData(cfg, c, data, now)
    else OnFrameData(cfg, c, data)
  }

  // ----- the timer -----

  /** The number of packets due by t, given that the first k are. */
  function DueFrom(ps: Playlist, t: nat, k: nat): (n: nat)
    ensures k <= n
    ensures DueTime(ps, n) > t && (n > k ==> DueTime(ps, n - 1) <= t)
    decreases |ps| * (t + 1) - k
  {
    if DueTime(ps, k) > t then k else DueBound(ps, k, t); DueFrom(ps, t, k + 1)
  }

  function MediaEntries(id: nat, first: nat, last: nat): (es: seq<Entry>)
    requires first <= last
    ensures |es| == last - first
  {
    seq(last - first, i requires 0 <= i < last - first => MediaSent(id, first + i))
  }

  function OnStreamingTick(cfg: Config, c: Conn): Effect {
    if cfg.packets == [] then Effect(c, [])
    else
      var n := DueFrom(cfg.packets, c.playbackTimeMs, c.packetIndex);
      Effect(c.(packetIndex := n, playbackTimeMs := c.playbackTimeMs + TICK_MS), MediaEntries(c.id, c.packetIndex, n))
  }

  /** Raw playback: one access unit a tick. */
  function OnRawTick(cfg: Config, c: Conn): Effect {
    if cfg.units == 0 then Effect(c, [])
    else Effect(c.(auIndex := c.auIndex + 1), MediaEntries(c.id, c.auIndex, c.auIndex + 1))
  }

  function OnTick(cfg: Config, c: Conn, now: int): Effect {
    if c.session.state.Negotiating? then
      if now - c.offerTime > NEGOTIATION_LIMIT_MS
      then Effect(c.(session := c.session.(state := Closing, open := false)), [TimedOut(c.id)])
      else Effect(c, [])
    else if c.session.state.Streaming? then (if cfg.isMp4 then OnStreamingTick(cfg, c) else OnRawTick(cfg, c))
    else Effect(c, [])
  }

  // ----- events -----

  function Apply(w: World, fd: int, e: Effect): World {
    w.(conns := w.conns[fd := e.conn], log := w.log + e.entries, crashed := w.crashed || e.conn.session.failed)
  }

  /** The timer visits the connections one by one, in the container's order. */
  function TickFirst(cfg: Config, w: World, order: seq<int>, clock: int -> int, n: nat): World
    requires n <= |order|
  {
    if n == 0 then w
    else
      var before := TickFirst(cfg, w, order, clock, n - 1);
      var fd := order[n - 1];
      if fd in before.conns then Apply(before, fd, OnTick(cfg, before.conns[fd], clock(fd))) else before
  }

  /** Nothing happens any more once the process has ended. */
  function Step(cfg: Config, w: World, e: Event): World {
    if w.crashed then w else StepAlive(cfg, w, e)
  }

  function StepAlive(cfg: Config, w: World, e: Event): World {
    match e
    case Connect(fd) =>
      w.(conns := w.conns[fd := Conn(w.total + 1, NEW_SESSION, 0, 0, 0, 0)], total := w.total + 1)
    case Disconnect(fd) => w.(conns := w.conns - {fd})
    case Data(fd, data, now) => if fd in w.conns then Apply(w, fd, OnData(cfg, w.conns[fd], data, now)) else w
    case Timer(order, clock) => TickFirst(cfg, w, order, clock, |order|)
  }

  const NOTHING_YET := World(map[], 0, [], false)

  function Run(cfg: Config, w: World, es: seq<Event>): World {
    if es == [] then w else Step(cfg, Run(cfg, w, es[..|es| - 1]), es[|es| - 1])
  }

  // ----- what the log says -----

  /** 0: nothing; 1: the offer was sent; 2: and afterwards an accepting answer was taken. */
  function Stage(log: seq<Entry>, id: nat): nat {
    if log == [] then 0
    else
      var before := Stage(log[..|log| - 1], id);
      match log[|log| - 1]
      case OfferSent(i) => if i == id && before == 0 then 1 else before
      case AnswerAccepted(i) => if i == id && before == 1 then 2 else before
      case _ => before
  }

  function MediaCount(log: seq<Entry>, id: nat): nat {
    if log == [] then 0
    else MediaCount(log[..|log| - 1], id) + (if log[|log| - 1].MediaSent? && log[|log| - 1].id == id then 1 else 0)
  }

  /** The replies a connection was sent. */
  function RepliesIn(log: seq<Entry>, id: nat): seq<Reply> {
    if log == [] then []
    else
      var last := log[|log| - 1];
      RepliesIn(log[..|log| - 1], id) + (if last.ReplySent? && last.id == id then [last.reply] else [])
  }

  /** A pong that can be read back. */
  predicate Sendable(r: Reply) {
    r.Pong? ==> WS.Printable(WS.Plain(WS.PONG, r.payload))
  }

  ghost predicate EntryOk(log: seq<Entry>, e: Entry) {
    && (e.MediaSent? ==> Stage(log, e.id) == 2 && e.packet == MediaCount(log, e.id))
    && (e.ReplySent? ==> Sendable(e.reply))
  }

  /** Media goes only to a connection that was offered and has accepted, packet after packet. */
  ghost predicate LogOk(log: seq<Entry>) {
    forall i :: 0 <= i < |log| ==> EntryOk(log[..i], log[i])
  }

  /** Stage 2 spelled out. */
  lemma {:induction false} StageMeans(log: seq<Entry>, id: nat)
    ensures Stage(log, id) >= 1 ==> exists j :: 0 <= j < |log| && log[j] == OfferSent(id)
    ensures Stage(log, id) == 2 ==> exists j, k :: 0 <= j < k < |log| && log[j] == OfferSent(id)
                                            && log[k] == AnswerAccepted(id)
    ensures Stage(log, id) <= 2
  {
    if log == [] {
    } else {
      var n := |log| - 1;
      StageMeans(log[..n], id);
      if Stage(log[..n], id) == 2 {
        var j, k :| 0 <= j < k < n && log[..n][j] == OfferSent(id) && log[..n][k] == AnswerAccepted(id);
        assert log[j] == OfferSent(id) && log[k] == AnswerAccepted(id);
      } else if Stage(log[..n], id) == 1 {
        var j :| 0 <= j < n && log[..n][j] == OfferSent(id);
        assert log[j] == OfferSent(id) && (Stage(log, id) == 2 ==> log[n] == AnswerAccepted(id));
      } else if Stage(log, id) == 1 {
        assert log[n] == OfferSent(id);
      }
    }
  }

  // ----- the invariant -----

  /** Where a connection stands, as the log tells it. */
  ghost predicate ConnOk(cfg: Config, log: seq<Entry>, c: Conn) {
    && (c.session.state.HandshakingWs? || c.session.state.Closing? || Receiving(c.session) || c.session.failed)
    && !c.session.state.Connected?
    && (c.session.state.Negotiating? ==> c.session.open && Stage(log, c.id) == 1)
    && (c.session.state.Streaming? ==> Stage(log, c.id) == 2)
    && (c.session.state.HandshakingWs? ==> Stage(log, c.id) == 0)
    && c.session.replies == RepliesIn(log, c.id)
    && (if cfg.isMp4 then c.packetIndex else c.auIndex) == MediaCount(log, c.id)
    && (cfg.isMp4 && cfg.packets != [] ==> IsCount(cfg.packets, c.playbackTimeMs - 10, c.packetIndex))
  }

  /** There is something to play. */
  predicate CanPlay(cfg: Config) {
    if cfg.isMp4 then cfg.packets != [] else cfg.units != 0
  }

  ghost predicate Inv(cfg: Config, w: World) {
    && (forall fd :: fd in w.conns ==> 1 <= w.conns[fd].id <= w.total && ConnOk(cfg, w.log, w.conns[fd]))
    && (forall fd, fd' :: fd in w.conns && fd' in w.conns && fd != fd' ==> w.conns[fd].id != w.conns[fd'].id)
    && (forall i :: 0 <= i < |w.log| ==> w.log[i].id <= w.total && (w.log[i].MediaSent? ==> CanPlay(cfg)))
    && (forall fd :: fd in w.conns && w.conns[fd].session.failed ==> w.crashed)
    && LogOk(w.log)
  }

  lemma LogAppendOne(log: seq<Entry>, e: Entry, id: nat)
    ensures Stage(log + [e], id) == (if e.OfferSent? && e.id == id && Stage(log, id) == 0 then 1
                                     else if e.AnswerAccepted? && e.id == id && Stage(log, id) == 1 then 2
                                     else Stage(log, id))
    ensures MediaCount(log + [e], id) == MediaCount(log, id) + (if e.MediaSent? && e.id == id then 1 else 0)
    ensures RepliesIn(log + [e], id) == RepliesIn(log, id) + (if e.ReplySent? && e.id == id then [e.reply] else [])
  {
    assert (log + [e])[..|log|] == log;
  }

  /** Entries about another connection change nothing for this one. */
  lemma {:induction false} OtherEntries(log: seq<Entry>, es: seq<Entry>, id: nat)
    requires forall i :: 0 <= i < |es| ==> es[i].id != id
    ensures Stage(log + es, id) == Stage(log, id) && MediaCount(log + es, id) == MediaCount(log, id)
    ensures RepliesIn(log + es, id) == RepliesIn(log, id)
  {
    if es == [] {
      assert log + es == log;
    } else {
      var n := |es| - 1;
      OtherEntries(log, es[..n], id);
      LogAppendOne(log + es[..n], es[n], id);
      assert log + es[..n] + [es[n]] == log + es;
    }
  }

  lemma {:induction false} RepliesConcat(a: seq<Entry>, b: seq<Entry>, id: nat)
    ensures RepliesIn(a + b, id) == RepliesIn(a, id) + RepliesIn(b, id)
  {
    if b == [] {
      assert a + b == a;
    } else {
      RepliesConcat(a, b[..|b| - 1], id);
      assert (a + b)[..|a + b| - 1] == a + b[..|b| - 1];
    }
  }

  lemma LogOkAppendOne(log: seq<Entry>, e: Entry)
    requires LogOk(log) && EntryOk(log, e)
    ensures LogOk(log + [e])
  {
    hide EntryOk;
    var log' := log + [e];
    forall i | 0 <= i < |log'| ensures EntryOk(log'[..i], log'[i]) {
      if i < |log| {
        assert log'[..i] == log[..i];
      } else {
        assert log'[..i] == log;
      }
    }
  }

  lemma {:induction false} MediaAppend(log: seq<Entry>, id: nat, first: nat, last: nat)
    requires LogOk(log) && Stage(log, id) == 2 && MediaCount(log, id) == first && first <= last
    ensures var log' := log + MediaEntries(id, first, last);
            && LogOk(log') && Stage(log', id) == 2 && MediaCount(log', id) == last
            && RepliesIn(log', id) == RepliesIn(log, id)
    decreases last
  {
    hide LogOk, Stage, MediaCount, RepliesIn;
    if first == last {
      assert log + MediaEntries(id, first, last) == log;
    } else {
      MediaAppend(log, id, first, last - 1);
      var before := log + MediaEntries(id, first, last - 1);
      LogAppendOne(before, MediaSent(id, last - 1), id);
      LogOkAppendOne(before, MediaSent(id, last - 1));
      assert before + [MediaSent(id, last - 1)] == log + MediaEntries(id, first, last);
    }
  }

  /** An effect that concerns one connection only and keeps its log consistent. */
  ghost predicate EffectOk(cfg: Config, log: seq<Entry>, c: Conn, e: Effect) {
    && e.conn.id == c.id
    && (forall i :: 0 <= i < |e.entries| ==> e.entries[i].id == c.id && (e.entries[i].MediaSent? ==> CanPlay(cfg)))
    && LogOk(log + e.entries)
    && ConnOk(cfg, log + e.entries, e.conn)
    && OnlyAdvanced(c, e.conn)
  }

  function Rank(s: ConnState): nat {
    match s
    case HandshakingWs => 1
    case Connected => 2
    case Negotiating => 3
    case Streaming => 4
    case Closing => 5
  }

  lemma ApplyKeepsInv(cfg: Config, w: World, fd: int, e: Effect)
    requires Inv(cfg, w) && fd in w.conns && EffectOk(cfg, w.log, w.conns[fd], e)
    ensures Inv(cfg, Apply(w, fd, e))
  {
    hide LogOk, Stage, MediaCount, IsCount;
    var w' := Apply(w, fd, e);
    forall fd' | fd' in w'.conns ensures 1 <= w'.conns[fd'].id <= w'.total && ConnOk(cfg, w'.log, w'.conns[fd']) {
      if fd' != fd {
        OtherEntries(w.log, e.entries, w.conns[fd'].id);
      }
    }
  }

  lemma UnchangedOk(cfg: Config, log: seq<Entry>, c: Conn)
    requires ConnOk(cfg, log, c) && LogOk(log)
    ensures EffectOk(cfg, log, c, Effect(c, []))
  {
    hide IsCount, LogOk, Stage, MediaCount, RepliesIn;
    assert log + [] == log;
  }

  lemma StreamingTickOk(cfg: Config, log: seq<Entry>, c: Conn)
    requires ConnOk(cfg, log, c) && LogOk(log) && c.session.state.Streaming? && cfg.isMp4
    ensures EffectOk(cfg, log, c, OnStreamingTick(cfg, c))
  {
    hide LogOk, Stage, MediaCount, RepliesIn;
    if cfg.packets == [] {
      UnchangedOk(cfg, log, c);
    } else {
      var n := DueFrom(cfg.packets, c.playbackTimeMs, c.packetIndex);
      MediaAppend(log, c.id, c.packetIndex, n);
      CountEnds(cfg.packets, c.playbackTimeMs - TICK_MS, c.packetIndex);
      CountFromEnds(cfg.packets, c.playbackTimeMs, n);
    }
  }

  lemma RawTickOk(cfg: Config, log: seq<Entry>, c: Conn)
    requires ConnOk(cfg, log, c) && LogOk(log) && c.session.state.Streaming? && !cfg.isMp4
    ensures EffectOk(cfg, log, c, OnRawTick(cfg, c))
  {
    hide LogOk, Stage, MediaCount, IsCount;
    if cfg.units == 0 {
      UnchangedOk(cfg, log, c);
    } else {
      MediaAppend(log, c.id, c.auIndex, c.auIndex + 1);
    }
  }

  lemma TickOk(cfg: Config, log: seq<Entry>, c: Conn, now: int)
    requires ConnOk(cfg, log, c) && LogOk(log)
    ensures EffectOk(cfg, log, c, OnTick(cfg, c, now))
  {
    hide IsCount, LogOk, Stage, MediaCount, RepliesIn;
    if c.session.state.Streaming? {
      if cfg.isMp4 {
        StreamingTickOk(cfg, log, c);
      } else {
        RawTickOk(cfg, log, c);
      }
    } else if c.session.state.Negotiating? && now - c.offerTime > NEGOTIATION_LIMIT_MS {
      LogAppendOne(log, TimedOut(c.id), c.id);
      LogOkAppendOne(log, TimedOut(c.id));
    } else {
      UnchangedOk(cfg, log, c);
    }
  }

  lemma DataOk(cfg: Config, log: seq<Entry>, c: Conn, data: bytes, now: int)
    requires ConnOk(cfg, log, c) && LogOk(log) && !c.session.failed
    ensures EffectOk(cfg, log, c, OnData(cfg, c, data, now))
  {
    hide EffectOk, IsCount, LogOk, Stage, MediaCount, RepliesIn;
    if !c.session.open {
      UnchangedOk(cfg, log, c);
    } else if c.session.state.HandshakingWs? {
      HandshakeDataOk(cfg, log, c, data, now);
    } else if Receiving(c.session) {
      FrameDataOk(cfg, log, c, data);
    } else {
      ClosingDataOk(cfg, log, c, data);
    }
  }

  lemma HandshakeDataOk(cfg: Config, log: seq<Entry>, c: Conn, data: bytes, now: int)
    requires ConnOk(cfg, log, c) && LogOk(log) && c.session.open && !c.session.failed && c.session.state.HandshakingWs?
    ensures EffectOk(cfg, log, c, OnHandshakeData(cfg, c, data, now))
  {
    hide IsCount, LogOk, Stage, MediaCount, RepliesIn;
    assert log + [] == log;
    LogAppendOne(log, OfferSent(c.id), c.id);
    LogOkAppendOne(log, OfferSent(c.id));
  }

  lemma TakenNext(classify: Classifier, id: nat, negotiating: bool, fs: seq<WS.WsFrame>, f: WS.WsFrame)
    ensures TakenEntries(classify, id, negotiating, fs + [f])
            == TakenEntries(classify, id, negotiating, fs)
               + EntriesFor(classify, id, negotiating && FirstAnswer(classify, fs) == NotAnAnswer, f)
    ensures FirstAnswer(classify, fs + [f])
            == (if FirstAnswer(classify, fs) != NotAnAnswer then FirstAnswer(classify, fs)
                else if f.opcode == WS.TEXT then classify(f.payload) else NotAnAnswer)
  {
    assert (fs + [f])[..|fs|] == fs;
  }

  predicate Echoable(fs: seq<WS.WsFrame>) {
    forall i :: 0 <= i < |fs| ==> WS.Printable(WS.Plain(WS.PONG, fs[i].payload))
  }

  lemma {:induction false} CutIsEchoable(data: bytes)
    ensures Echoable(WS.CutFrames(data).frames)
    decreases |data|
  {
    hide WS.Parse, WS.CutFrames, WS.Printable;
    WS.CutFirst(data);
    WS.ConsumedBounds(data);
    if WS.Parse(data).Parsed? {
      WS.EchoIsPrintable(data, WS.PONG);
      CutIsEchoable(data[WS.Parse(data).consumed..]);
    }
  }

  /** The replies sent since `start` are those the frames taken call for. */
  ghost predicate RepliesLogged(classify: Classifier, id: nat, start: State, s: State) {
    && start.handled <= s.handled
    && s.replies == start.replies
                    + RepliesIn(TakenEntries(classify, id, start.state.Negotiating?, s.handled[|start.handled|..]), id)
  }

  lemma FrameIsLogged(classify: Classifier, id: nat, start: State, s: State, f: WS.WsFrame)
    requires Receiving(start) && Receiving(s) && StateFollowsAnswer(classify, start, s)
    requires RepliesLogged(classify, id, start, s)
    ensures RepliesLogged(classify, id, start, HandleFrame(classify, s, f))
  {
    hide FirstAnswer, TakenEntries, RepliesIn;
    var n := |start.handled|;
    var s' := HandleFrame(classify, s, f);
    assert s'.handled[n..] == s.handled[n..] + [f];
    var es := TakenEntries(classify, id, start.state.Negotiating?, s.handled[n..]);
    TakenNext(classify, id, start.state.Negotiating?, s.handled[n..], f);
    var more := EntriesFor(classify, id, s.state.Negotiating?, f);
    if more == [] {
      assert es + more == es;
    } else {
      LogAppendOne(es, more[0], id);
      assert es + more == es + [more[0]];
    }
  }

  lemma {:induction false} ProcessIsLogged(classify: Classifier, id: nat, start: State, s: State)
    requires Receiving(start) && Receiving(s) && StateFollowsAnswer(classify, start, s)
    requires RepliesLogged(classify, id, start, s)
    ensures RepliesLogged(classify, id, start, Process(classify, s))
    decreases |s.buffer|
  {
    hide WS.Parse, HandleFrame, FirstAnswer, TakenEntries, RepliesIn;
    var p := WS.Parse(s.buffer);
    WS.ConsumedBounds(s.buffer);
    if p.Parsed? {
      var taken := s.(buffer := s.buffer[p.consumed..]);
      FrameFollowsAnswer(classify, start, taken, p.frame);
      FrameIsLogged(classify, id, start, taken, p.frame);
      HandleFrameKeeps(classify, taken, p.frame, []);
      var next := HandleFrame(classify, taken, p.frame);
      if Receiving(next) {
        ProcessIsLogged(classify, id, start, next);
      } else if p.frame.opcode != WS.CLOSE {
        ClosedIsFrozen(classify, next);
      }
    }
  }

  lemma NothingTaken(classify: Classifier, id: nat, negotiating: bool, fs: seq<WS.WsFrame>)
    requires fs == []
    ensures TakenEntries(classify, id, negotiating, fs) == [] && FirstAnswer(classify, fs) == NotAnAnswer
    ensures RepliesIn([], id) == []
  {
  }

  /** What frames taken by a connection add to the log. */
  lemma {:induction false} TakenOk(log: seq<Entry>, classify: Classifier, id: nat, negotiating: bool,
                                   fs: seq<WS.WsFrame>)
    requires LogOk(log) && (negotiating ==> Stage(log, id) == 1) && Echoable(fs)
    ensures var es := TakenEntries(classify, id, negotiating, fs);
            && LogOk(log + es) && (forall i :: 0 <= i < |es| ==> es[i].id == id && !es[i].MediaSent?)
            && MediaCount(log + es, id) == MediaCount(log, id)
            && Stage(log + es, id)
               == if negotiating && FirstAnswer(classify, fs) == Accepted then 2 else Stage(log, id)
  {
    hide LogOk, Stage, MediaCount, RepliesIn, TakenEntries, FirstAnswer, WS.Printable;
    if fs == [] {
      NothingTaken(classify, id, negotiating, fs);
      assert log + [] == log;
    } else {
      var before, last := fs[..|fs| - 1], fs[|fs| - 1];
      assert before + [last] == fs;
      TakenOk(log, classify, id, negotiating, before);
      TakenNext(classify, id, negotiating, before, last);
      var es := TakenEntries(classify, id, negotiating, before);
      var more := EntriesFor(classify, id, negotiating && FirstAnswer(classify, before) == NotAnAnswer, last);
      if more == [] {
        assert log + (es + more) == log + es;
      } else {
        LogAppendOne(log + es, more[0], id);
        LogOkAppendOne(log + es, more[0]);
        assert log + es + [more[0]] == log + (es + more);
      }
    }
  }

  lemma FrameDataOk(cfg: Config, log: seq<Entry>, c: Conn, data: bytes)
    requires ConnOk(cfg, log, c) && LogOk(log) && Receiving(c.session)
    ensures EffectOk(cfg, log, c, OnFrameData(cfg, c, data))
  {
    hide FirstAnswer, Process, IsCount, LogOk, Stage, MediaCount, RepliesIn, TakenEntries, Echoable, WS.CutFrames;
    var s := c.session.(buffer := c.session.buffer + data);
    ReceiveFollowsAnswer(cfg.classify, c.session, data);
    var taken := Process(cfg.classify, s).handled[|c.session.handled|..];
    CutIsEchoable(s.buffer);
    ProcessTakesFrames(cfg.classify, s);
    TakenAreEchoable(s.handled, Process(cfg.classify, s).handled, WS.CutFrames(s.buffer).frames);
    TakenOk(log, cfg.classify, c.id, c.session.state.Negotiating?, taken);
    RepliesConcat(log, TakenEntries(cfg.classify, c.id, c.session.state.Negotiating?, taken), c.id);
    NothingTaken(cfg.classify, c.id, c.session.state.Negotiating?, s.handled[|c.session.handled|..]);
    ProcessIsLogged(cfg.classify, c.id, c.session, s);
  }

  lemma TakenAreEchoable(before: seq<WS.WsFrame>, after: seq<WS.WsFrame>, fs: seq<WS.WsFrame>)
    requires before <= after && after <= before + fs && Echoable(fs)
    ensures Echoable(after[|before|..])
  {
    hide WS.Printable;
    assert forall i :: 0 <= i < |after| - |before| ==> after[|before|..][i] == fs[i];
  }

  lemma ClosingDataOk(cfg: Config, log: seq<Entry>, c: Conn, data: bytes)
    requires ConnOk(cfg, log, c) && LogOk(log) && c.session.state.Closing?
    ensures EffectOk(cfg, log, c, OnFrameData(cfg, c, data))
  {
    hide IsCount, LogOk, Stage, MediaCount, Process;
    assert log + [] == log;
  }

  // ----- every run -----

  /** What one visit of the timer does to the world. */
  lemma {:induction false} TickFirstOk(cfg: Config, w: World, order: seq<int>, clock: int -> int, n: nat)
    requires Inv(cfg, w) && n <= |order|
    ensures var w' := TickFirst(cfg, w, order, clock, n);
            && Inv(cfg, w') && w'.conns.Keys == w.conns.Keys && w'.total == w.total && w'.crashed == w.crashed
            && forall fd :: fd in w.conns ==> OnlyAdvanced(w.conns[fd], w'.conns[fd])
                                              && (fd in order[..n] ==> !Overdue(w'.conns[fd], clock(fd)))
  {
    hide OnTick, EffectOk, Inv, ConnOk;
    if n == 0 {
    } else {
      TickFirstOk(cfg, w, order, clock, n - 1);
      var before := TickFirst(cfg, w, order, clock, n - 1);
      var fd := order[n - 1];
      assert order[..n] == order[..n - 1] + [fd];
      if fd in before.conns {
        TickVisit(cfg, before, fd, clock(fd));
      }
    }
  }

  /** The state has not gone back, and the time of the offer, once there is one, stays. */
  ghost predicate OnlyAdvanced(c: Conn, c': Conn) {
    && c'.id == c.id && Rank(c.session.state) <= Rank(c'.session.state)
    && (!c.session.state.HandshakingWs? ==> c'.offerTime == c.offerTime)
  }

  /** The offer is more than five seconds old. */
  predicate Overdue(c: Conn, now: int) {
    c.session.state.Negotiating? && now - c.offerTime > 5000
  }

  lemma TickNeverFails(cfg: Config, c: Conn, now: int)
    ensures OnTick(cfg, c, now).conn.session.failed == c.session.failed
  {
  }

  lemma TickVisit(cfg: Config, w: World, fd: int, now: int)
    requires Inv(cfg, w) && fd in w.conns
    ensures var e := OnTick(cfg, w.conns[fd], now);
            && Inv(cfg, Apply(w, fd, e)) && OnlyAdvanced(w.conns[fd], e.conn) && !Overdue(e.conn, now)
            && Apply(w, fd, e).crashed == w.crashed
  {
    TickNeverFails(cfg, w.conns[fd], now);
    TickOk(cfg, w.log, w.conns[fd], now);
    ApplyKeepsInv(cfg, w, fd, OnTick(cfg, w.conns[fd], now));
  }

  /** A connection that is there before and after a step under the same id has only advanced,
      ids are never given out twice, and the invariant is kept. */
  lemma StepOk(cfg: Config, w: World, e: Event)
    requires Inv(cfg, w)
    ensures var w' := Step(cfg, w, e);
            && Inv(cfg, w') && w.total <= w'.total
            && forall fd :: fd in w'.conns ==>
                 if fd in w.conns && w.conns[fd].id == w'.conns[fd].id then OnlyAdvanced(w.conns[fd], w'.conns[fd])
                 else w'.conns[fd].id > w.total
  {
    hide OnTick, OnData, EffectOk;
    if !w.crashed {
      match e
      case Connect(fd) => ConnectOk(cfg, w, fd);
      case Disconnect(fd) =>
      case Data(fd, data, now) =>
        if fd in w.conns {
          DataVisit(cfg, w, fd, data, now);
        }
      case Timer(order, clock) => TickFirstOk(cfg, w, order, clock, |order|);
    }
  }

  lemma DataVisit(cfg: Config, w: World, fd: int, data: bytes, now: int)
    requires Inv(cfg, w) && fd in w.conns && !w.crashed
    ensures var e := OnData(cfg, w.conns[fd], data, now);
            Inv(cfg, Apply(w, fd, e)) && OnlyAdvanced(w.conns[fd], e.conn)
  {
    DataOk(cfg, w.log, w.conns[fd], data, now);
    ApplyKeepsInv(cfg, w, fd, OnData(cfg, w.conns[fd], data, now));
  }

  /** Nothing in the log is about a connection yet to come. */
  lemma NewIsOk(cfg: Config, log: seq<Entry>, id: nat)
    requires forall i :: 0 <= i < |log| ==> log[i].id != id
    ensures ConnOk(cfg, log, Conn(id, NEW_SESSION, 0, 0, 0, 0))
  {
    hide IsCount;
    if cfg.packets != [] {
      CountFromEnds(cfg.packets, -TICK_MS, 0);
    }
    OtherEntries([], log, id);
    assert [] + log == log;
  }

  lemma ConnectOk(cfg: Config, w: World, fd: int)
    requires Inv(cfg, w)
    ensures Inv(cfg, StepAlive(cfg, w, Connect(fd)))
  {
    hide LogOk, ConnOk;
    NewIsOk(cfg, w.log, w.total + 1);
  }

  lemma {:induction false} RunOk(cfg: Config, es: seq<Event>)
    ensures Inv(cfg, Run(cfg, NOTHING_YET, es))
  {
    if es == [] {
    } else {
      RunOk(cfg, es[..|es| - 1]);
      StepOk(cfg, Run(cfg, NOTHING_YET, es[..|es| - 1]), es[|es| - 1]);
    }
  }

  /** In every run, media is sent only to a connection that was first sent the offer and then
      accepted it; and its packets go out as 0, 1, 2, ... */
  lemma MediaOnlyAfterNegotiation(cfg: Config, es: seq<Event>, i: nat)
    requires var log := Run(cfg, NOTHING_YET, es).log; i < |log| && log[i].MediaSent?
    ensures var log := Run(cfg, NOTHING_YET, es).log;
            var id := log[i].id;
            && (exists j, k :: 0 <= j < k < i && log[j] == OfferSent(id) && log[k] == AnswerAccepted(id))
            && log[i].packet == MediaCount(log[..i], id)
  {
    RunOk(cfg, es);
    var log := Run(cfg, NOTHING_YET, es).log;
    var id := log[i].id;
    StageMeans(log[..i], id);
    var j, k :| 0 <= j < k < i && log[..i][j] == OfferSent(id) && log[..i][k] == AnswerAccepted(id);
    assert log[j] == OfferSent(id) && log[k] == AnswerAccepted(id);
  }

  /** In every run of packet playback, what a connection has been sent is exactly what was due
      before its next tick: as many media entries in the log as packets due by then. */
  lemma MediaSentIsDue(cfg: Config, es: seq<Event>, fd: int)
    requires fd in Run(cfg, NOTHING_YET, es).conns && cfg.isMp4 && cfg.packets != []
    ensures var w := Run(cfg, NOTHING_YET, es);
            IsCount(cfg.packets, w.conns[fd].playbackTimeMs - 10, MediaCount(w.log, w.conns[fd].id))
  {
    hide IsCount, MediaCount, Stage, LogOk;
    RunOk(cfg, es);
  }

  /** After a timer event of a living server that visits every connection nobody still negotiates an offer that
      the clock showed to be more than five seconds old. */
  lemma TimerClosesOverdue(cfg: Config, es: seq<Event>, order: seq<int>, clock: int -> int, fd: int)
    requires forall fd :: fd in Run(cfg, NOTHING_YET, es).conns ==> fd in order
    requires fd in Run(cfg, NOTHING_YET, es).conns && !Run(cfg, NOTHING_YET, es).crashed
    ensures var w' := Step(cfg, Run(cfg, NOTHING_YET, es), Timer(order, clock));
            fd in w'.conns && !Overdue(w'.conns[fd], clock(fd))
  {
    RunOk(cfg, es);
    TickFirstOk(cfg, Run(cfg, NOTHING_YET, es), order, clock, |order|);
    assert order[..|order|] == order;
  }

  // ----- what the other events do -----

  /** Everything but this connection is as it was. */
  ghost predicate OnlyAt(w: World, w': World, fd: int) {
    forall other :: other != fd ==>
                      (other in w'.conns <==> other in w.conns)
                      && (other in w.conns ==> w'.conns[other] == w.conns[other])
  }

  /** A process that has ended does nothing. In a living one a new connection takes the next id and
      has everything before it; one that leaves is gone; and no other is touched. */
  lemma ComingAndGoing(cfg: Config, w: World, fd: int)
    ensures w.crashed ==> forall e :: Step(cfg, w, e) == w
    ensures !w.crashed ==>
              var w' := Step(cfg, w, Connect(fd));
              && OnlyAt(w, w', fd) && w'.log == w.log && !w'.crashed && w'.total == w.total + 1
              && fd in w'.conns
              && var c := w'.conns[fd];
                 && c.id == w.total + 1 && c.session.state.HandshakingWs? && c.session.open && !c.session.failed
                 && c.session.buffer == [] && c.packetIndex == 0 && c.playbackTimeMs == 0 && c.auIndex == 0
    ensures !w.crashed ==>
              var w' := Step(cfg, w, Disconnect(fd));
              OnlyAt(w, w', fd) && fd !in w'.conns && w'.log == w.log && !w'.crashed && w'.total == w.total
  {
  }

  /** Data for a connection that is not there, or whose socket is closed, do nothing; data before the
      handshake is complete go to the HTTP part together with what came before. */
  lemma EarlyData(cfg: Config, w: World, fd: int, data: bytes, now: int)
    requires !w.crashed && (forall fd :: fd in w.conns ==> !w.conns[fd].session.failed)
    ensures var w' := Step(cfg, w, Data(fd, data, now));
            && OnlyAt(w, w', fd) && w'.total == w.total && w.log <= w'.log
            && (fd !in w.conns ==> w' == w)
            && (fd in w.conns && !w.conns[fd].session.open ==> w'.conns == w.conns && w'.log == w.log)
            && (fd in w.conns && w.conns[fd].session.open && w.conns[fd].session.state.HandshakingWs? ==>
                  var c, c' := w.conns[fd], w'.conns[fd];
                  var request := c.session.buffer + data;
                  && c'.id == c.id
                  && (cfg.handshake(request).NeedMore? ==>
                        w'.log == w.log && c'.session == c.session.(buffer := request))
                  && (cfg.handshake(request).BadRequest? ==> w'.log == w.log && !c'.session.open)
                  && (cfg.handshake(request).Upgrade? ==>
                        && w'.log == w.log + [OfferSent(c.id)] && c'.offerTime == now && c'.session.open
                        && c'.session.state.Negotiating? && c'.session.buffer == []))
  {
    hide Receive, TakenEntries;
  }

  // ----- what a timer event does -----

  function TimeoutsIn(log: seq<Entry>, id: nat): nat {
    if log == [] then 0
    else TimeoutsIn(log[..|log| - 1], id) + (if log[|log| - 1] == TimedOut(id) then 1 else 0)
  }

  lemma {:induction false} TimeoutsConcat(a: seq<Entry>, b: seq<Entry>, id: nat)
    ensures TimeoutsIn(a + b, id) == TimeoutsIn(a, id) + TimeoutsIn(b, id)
  {
    if b == [] {
      assert a + b == a;
    } else {
      TimeoutsConcat(a, b[..|b| - 1], id);
      assert (a + b)[..|a + b| - 1] == a + b[..|b| - 1];
    }
  }

  lemma {:induction false} NoTimeouts(es: seq<Entry>, id: nat)
    requires forall i :: 0 <= i < |es| ==> es[i] != TimedOut(id)
    ensures TimeoutsIn(es, id) == 0
  {
    if es != [] {
      NoTimeouts(es[..|es| - 1], id);
    }
  }

  /** A connection after `times` visits of the timer: closed if it negotiates an offer that is too
      old, ten milliseconds or an access unit further with each visit if it streams, and otherwise
      as it was. */
  ghost predicate Ticked(cfg: Config, c: Conn, c': Conn, times: nat, now: int) {
    if c.session.state.Streaming? then
      && c'.id == c.id && c'.session == c.session && c'.offerTime == c.offerTime
      && c'.playbackTimeMs == c.playbackTimeMs + (if cfg.isMp4 && cfg.packets != [] then 10 * times else 0)
      && c'.auIndex == c.auIndex + (if !cfg.isMp4 && cfg.units != 0 then times else 0)
      && (!cfg.isMp4 || cfg.packets == [] ==> c'.packetIndex == c.packetIndex)
    else if times > 0 && Overdue(c, now) then c' == c.(session := c.session.(state := Closing, open := false))
    else c' == c
  }

  lemma TickedOnce(cfg: Config, c: Conn, now: int)
    ensures Ticked(cfg, c, OnTick(cfg, c, now).conn, 1, now)
    ensures TimeoutsIn(OnTick(cfg, c, now).entries, c.id) == if Overdue(c, now) then 1 else 0
    ensures forall i :: 0 <= i < |OnTick(cfg, c, now).entries| ==> OnTick(cfg, c, now).entries[i].id == c.id
  {
    hide DueFrom;
    var es := OnTick(cfg, c, now).entries;
    if Overdue(c, now) {
      assert es == [TimedOut(c.id)] && es[..0] == [];
    } else {
      NoTimeouts(es, c.id);
    }
  }

  lemma TickedMore(cfg: Config, c: Conn, c': Conn, c'': Conn, times: nat, now: int)
    requires Ticked(cfg, c, c', times, now) && Ticked(cfg, c', c'', 1, now)
    ensures Ticked(cfg, c, c'', times + 1, now)
    ensures Overdue(c', now) <==> Overdue(c, now) && times == 0
  {
  }

  lemma VisitExactly(cfg: Config, w: World, at: int, now: int, fd: int)
    requires Inv(cfg, w) && at in w.conns && fd in w.conns
    ensures var w' := Apply(w, at, OnTick(cfg, w.conns[at], now));
            && fd in w'.conns
            && (if at == fd then Ticked(cfg, w.conns[fd], w'.conns[fd], 1, now) else w'.conns[fd] == w.conns[fd])
            && TimeoutsIn(w'.log, w.conns[fd].id)
               == TimeoutsIn(w.log, w.conns[fd].id) + (if at == fd && Overdue(w.conns[fd], now) then 1 else 0)
  {
    hide OnTick, ConnOk, LogOk, Ticked, Overdue;
    var id, es := w.conns[fd].id, OnTick(cfg, w.conns[at], now).entries;
    TickedOnce(cfg, w.conns[at], now);
    TimeoutsConcat(w.log, es, id);
    if at != fd {
      NoTimeouts(es, id);
    }
  }

  lemma InvAfterFirst(cfg: Config, w: World, order: seq<int>, clock: int -> int, n: nat)
    requires Inv(cfg, w) && n <= |order|
    ensures Inv(cfg, TickFirst(cfg, w, order, clock, n))
  {
    hide *;
    TickFirstOk(cfg, w, order, clock, n);
  }

  /** Visits one after the other, in whatever order and however often. */
  lemma {:induction false} TickFirstExactly(cfg: Config, w: World, order: seq<int>, clock: int -> int, n: nat, fd: int)
    requires Inv(cfg, w) && n <= |order| && fd in w.conns
    ensures var w', c, times := TickFirst(cfg, w, order, clock, n), w.conns[fd], multiset(order[..n])[fd];
            && fd in w'.conns && Ticked(cfg, c, w'.conns[fd], times, clock(fd))
            && TimeoutsIn(w'.log, c.id)
               == TimeoutsIn(w.log, c.id) + (if times > 0 && Overdue(c, clock(fd)) then 1 else 0)
  {
    hide OnTick, Inv, Overdue, OnlyAdvanced, TimeoutsIn;
    if n == 0 {
      NoVisit(cfg, w.conns[fd], clock(fd));
    } else {
      hide Ticked;
      TickFirstExactly(cfg, w, order, clock, n - 1, fd);
      InvAfterFirst(cfg, w, order, clock, n - 1);
      var before, at := TickFirst(cfg, w, order, clock, n - 1), order[n - 1];
      assert order[..n] == order[..n - 1] + [at];
      SameId(cfg, w.conns[fd], before.conns[fd], multiset(order[..n - 1])[fd], clock(fd));
      if at in before.conns {
        VisitExactly(cfg, before, at, clock(at), fd);
        if at == fd {
          TickedMore(cfg, w.conns[fd], before.conns[fd], OnTick(cfg, before.conns[fd], clock(fd)).conn,
                     multiset(order[..n - 1])[fd], clock(fd));
        }
      }
    }
  }

  lemma NoVisit(cfg: Config, c: Conn, now: int)
    ensures Ticked(cfg, c, c, 0, now)
  {
  }

  lemma SameId(cfg: Config, c: Conn, c': Conn, times: nat, now: int)
    requires Ticked(cfg, c, c', times, now)
    ensures c'.id == c.id
  {
  }

  /** Every run, every timer event of a living server, every connection: it is closed if and only if
      it is visited while it negotiates an offer more than 5000 ms old, and then a timeout is logged
      for it once; ten milliseconds of playback, or one access unit, pass with each visit if it
      streams; and nothing else changes. */
  lemma TimerExactly(cfg: Config, es: seq<Event>, order: seq<int>, clock: int -> int, fd: int)
    requires fd in Run(cfg, NOTHING_YET, es).conns && !Run(cfg, NOTHING_YET, es).crashed
    ensures var w := Run(cfg, NOTHING_YET, es);
            var w', c, times := Step(cfg, w, Timer(order, clock)), w.conns[fd], multiset(order)[fd];
            && fd in w'.conns && Ticked(cfg, c, w'.conns[fd], times, clock(fd))
            && (!c.session.state.Closing? ==>
                  (w'.conns[fd].session.state.Closing? <==>
                   fd in order && c.session.state.Negotiating? && clock(fd) - c.offerTime > 5000))
            && TimeoutsIn(w'.log, c.id)
               == TimeoutsIn(w.log, c.id)
                  + (if fd in order && c.session.state.Negotiating? && clock(fd) - c.offerTime > 5000 then 1 else 0)
  {
    hide Inv, TimeoutsIn;
    RunOk(cfg, es);
    TickFirstExactly(cfg, Run(cfg, NOTHING_YET, es), order, clock, |order|, fd);
    assert order[..|order|] == order;
  }

  /** Of connections that are no longer there nothing is logged. */
  lemma TimerOfNobody(cfg: Config, es: seq<Event>, order: seq<int>, clock: int -> int, id: nat)
    requires forall fd :: fd in Run(cfg, NOTHING_YET, es).conns ==> Run(cfg, NOTHING_YET, es).conns[fd].id != id
    ensures var w := Run(cfg, NOTHING_YET, es);
            TimeoutsIn(Step(cfg, w, Timer(order, clock)).log, id) == TimeoutsIn(w.log, id)
  {
    RunOk(cfg, es);
    TickFirstOfNobody(cfg, Run(cfg, NOTHING_YET, es), order, clock, |order|, id);
  }

  lemma {:induction false} TickFirstOfNobody(cfg: Config, w: World, order: seq<int>, clock: int -> int, n: nat, id: nat)
    requires Inv(cfg, w) && n <= |order| && forall fd :: fd in w.conns ==> w.conns[fd].id != id
    ensures TimeoutsIn(TickFirst(cfg, w, order, clock, n).log, id) == TimeoutsIn(w.log, id)
  {
    hide OnTick, Inv, TimeoutsIn;
    if n > 0 {
      TickFirstOfNobody(cfg, w, order, clock, n - 1, id);
      TickFirstOk(cfg, w, order, clock, n - 1);
      var before, at := TickFirst(cfg, w, order, clock, n - 1), order[n - 1];
      if at in before.conns {
        TickedOnce(cfg, before.conns[at], clock(at));
        TimeoutsConcat(before.log, OnTick(cfg, before.conns[at], clock(at)).entries, id);
        NoTimeouts(OnTick(cfg, before.conns[at], clock(at)).entries, id);
      }
    }
  }

  /** The data that complete the handshake at time `now` bring the offer, and its time is `now` for
      as long as the connection is there. */
  lemma OfferIsTimed(cfg: Config, first: seq<Event>, fd: int, data: bytes, now: int, later: seq<Event>)
    requires var w := Run(cfg, NOTHING_YET, first);
             && !w.crashed && fd in w.conns && w.conns[fd].session.open && w.conns[fd].session.state.HandshakingWs?
             && cfg.handshake(w.conns[fd].session.buffer + data).Upgrade?
    ensures var w := Run(cfg, NOTHING_YET, first);
            var w' := Run(cfg, NOTHING_YET, first + [Data(fd, data, now)]);
            var w'' := Run(cfg, NOTHING_YET, first + [Data(fd, data, now)] + later);
            && w'.log == w.log + [OfferSent(w.conns[fd].id)] && w'.conns[fd].session.state.Negotiating?
            && (fd in w''.conns && w''.conns[fd].id == w.conns[fd].id ==> w''.conns[fd].offerTime == now)
  {
    hide Inv;
    RunNext(cfg, NOTHING_YET, first, Data(fd, data, now));
    RunOk(cfg, first + [Data(fd, data, now)]);
    RunConcat(cfg, NOTHING_YET, first + [Data(fd, data, now)], later);
    LaterIds(cfg, Run(cfg, NOTHING_YET, first + [Data(fd, data, now)]), later);
    IdBound(cfg, Run(cfg, NOTHING_YET, first + [Data(fd, data, now)]));
  }

  // ----- when the process ends -----

  /** These bytes make the parser throw. */
  predicate EndsProcess(c: Conn, data: bytes) {
    && Receiving(c.session)
    && var cut := WS.CutFrames(c.session.buffer + data);
       WS.Parse(cut.rest).TooLong? && NoClose(cut.frames)
  }

  /** Which event ends the server for all its connections: data for a connection that receives
      frames, if behind the complete frames, none of them a close, there stands a header whose
      length does not fit 64 bits. */
  lemma CrashExactly(cfg: Config, w: World, e: Event)
    requires Inv(cfg, w) && !w.crashed
    ensures Step(cfg, w, e).crashed <==> e.Data? && e.fd in w.conns && EndsProcess(w.conns[e.fd], e.data)
  {
    hide ConnOk, OnTick, WS.Parse, WS.CutFrames, Process, LogOk;
    match e
    case Connect(fd) =>
    case Disconnect(fd) =>
    case Timer(order, clock) => TickFirstOk(cfg, w, order, clock, |order|);
    case Data(fd, data, now) =>
      if fd in w.conns {
        DataCrashes(cfg, w.log, w.conns[fd], data, now);
      }
  }

  lemma DataCrashes(cfg: Config, log: seq<Entry>, c: Conn, data: bytes, now: int)
    requires ConnOk(cfg, log, c) && !c.session.failed
    ensures OnData(cfg, c, data, now).conn.session.failed <==> EndsProcess(c, data)
  {
    hide WS.Parse, WS.CutFrames, Process, IsCount, Stage, MediaCount, RepliesIn;
    if Receiving(c.session) {
      FailsExactly(cfg.classify, c.session.(buffer := c.session.buffer + data));
    }
  }

  /** An input: one connection, its request, and ten bytes. */
  lemma TenBytesEndTheServer(cfg: Config, fd: int, request: bytes, now: int)
    requires cfg.handshake(request) == Upgrade
    ensures var ten: bytes := [0x82, 127, 255, 255, 255, 255, 255, 255, 255, 255];
            Run(cfg, NOTHING_YET, [Connect(fd), Data(fd, request, now), Data(fd, ten, now)]).crashed
  {
    hide WS.Parse, WS.CutFrames, OnTick, LogOk, IsCount, Inv;
    var ten: bytes := [0x82, 127, 255, 255, 255, 255, 255, 255, 255, 255];
    var c := Conn(1, NEW_SESSION, 0, 0, 0, 0);
    var w1 := World(map[fd := c], 1, [], false);
    RunNext(cfg, NOTHING_YET, [], Connect(fd));
    assert [] + [Connect(fd)] == [Connect(fd)];
    assert Run(cfg, NOTHING_YET, [Connect(fd)]) == w1;
    RunNext(cfg, NOTHING_YET, [Connect(fd)], Data(fd, request, now));
    assert [Connect(fd)] + [Data(fd, request, now)] == [Connect(fd), Data(fd, request, now)];
    var w2 := Run(cfg, NOTHING_YET, [Connect(fd), Data(fd, request, now)]);
    assert [] + request == request;
    RunNext(cfg, NOTHING_YET, [Connect(fd), Data(fd, request, now)], Data(fd, ten, now));
    assert [Connect(fd), Data(fd, request, now)] + [Data(fd, ten, now)]
        == [Connect(fd), Data(fd, request, now), Data(fd, ten, now)];
    RunOk(cfg, [Connect(fd), Data(fd, request, now)]);
    CrashExactly(cfg, w2, Data(fd, ten, now));
    assert [] + ten == ten;
    WS.TooLongInput();
    WS.CutFirst(ten);
  }

  lemma RunNext(cfg: Config, w: World, es: seq<Event>, e: Event)
    ensures Run(cfg, w, es + [e]) == Step(cfg, Run(cfg, w, es), e)
  {
    assert (es + [e])[..|es|] == es;
  }

  lemma {:induction false} LaterIds(cfg: Config, w: World, es: seq<Event>)
    requires Inv(cfg, w)
    ensures var w' := Run(cfg, w, es);
            && Inv(cfg, w') && w.total <= w'.total
            && forall fd :: fd in w'.conns ==>
                 if fd in w.conns && w.conns[fd].id == w'.conns[fd].id then OnlyAdvanced(w.conns[fd], w'.conns[fd])
                 else w'.conns[fd].id > w.total
  {
    hide Inv, ConnOk, Step;
    if es == [] {
    } else {
      var n := |es| - 1;
      LaterIds(cfg, w, es[..n]);
      StepOk(cfg, Run(cfg, w, es[..n]), es[n]);
      IdBound(cfg, w);
    }
  }

  lemma IdBound(cfg: Config, w: World)
    requires Inv(cfg, w)
    ensures forall fd :: fd in w.conns ==> w.conns[fd].id <= w.total
  {
  }

  lemma {:induction false} RunConcat(cfg: Config, w: World, first: seq<Event>, later: seq<Event>)
    ensures Run(cfg, w, first + later) == Run(cfg, Run(cfg, w, first), later)
  {
    if later == [] {
      assert first + later == first;
    } else {
      var n := |later| - 1;
      RunConcat(cfg, w, first, later[..n]);
      assert (first + later)[..|first + later| - 1] == first + later[..n];
    }
  }

  /** Over any run a connection, told apart by its id, never falls back to an earlier state. */
  lemma StateRankNeverFalls(cfg: Config, first: seq<Event>, later: seq<Event>, fd: int)
    requires var w, w' := Run(cfg, NOTHING_YET, first), Run(cfg, NOTHING_YET, first + later);
             fd in w.conns && fd in w'.conns && w.conns[fd].id == w'.conns[fd].id
    ensures var w, w' := Run(cfg, NOTHING_YET, first), Run(cfg, NOTHING_YET, first + later);
            Rank(w.conns[fd].session.state) <= Rank(w'.conns[fd].session.state)
  {
    RunOk(cfg, first);
    RunConcat(cfg, NOTHING_YET, first, later);
    LaterIds(cfg, Run(cfg, NOTHING_YET, first), later);
  }
}
