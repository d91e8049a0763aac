/** The server's event handlers, which update the connection table in place. Each is one step of
    the state machine whose runs are studied in Server. */
module EventLoop {
  import opened Bytes
  import opened Session
  import opened Scheduler
  import opened Server
  import WS = WebSocket

  /** The socket is closed. */
  function Closed(c: Conn): Conn {
    c.(session := c.session.(open := false))
  }

  /** The timer loop closes sockets only after it has visited all connections: until then those
      in `pending` are still open, and otherwise as they will be. */
  ghost predicate Deferred(conns: Connections, later: Connections, pending: seq<int>) {
    && conns.Keys == later.Keys
    && (forall fd :: fd in pending ==> fd in conns && conns[fd].session.state.Closing?)
    && (forall fd :: fd in conns ==> later[fd] == if fd in pending then Closed(conns[fd]) else conns[fd])
  }

  lemma NothingPending(conns: Connections, later: Connections)
    requires Deferred(conns, later, [])
    ensures conns == later
  {
    assert forall fd :: fd in conns ==> conns[fd] == later[fd];
  }

  /** The timer does nothing to a closing connection. */
  lemma ClosingIsSkipped(cfg: Config, c: Conn, now: int)
    requires c.session.state.Closing?
    ensures OnTick(cfg, c, now) == Effect(c, []) && OnTick(cfg, Closed(c), now) == Effect(Closed(c), [])
  {
  }

  lemma SameKeys(conns: Connections, later: Connections, pending: seq<int>)
    requires Deferred(conns, later, pending)
    ensures conns.Keys == later.Keys
    ensures forall fd :: fd in conns ==> later[fd].session.failed == conns[fd].session.failed
  {
  }

  lemma NothingDeferred(conns: Connections)
    ensures Deferred(conns, conns, [])
  {
  }

  /** A visit keeps the deferral. */
  lemma VisitKeeps(cfg: Config, conns: Connections, later: Connections, timeouts: seq<int>,
                   fd: int, now: int, next: Conn, timedOut: bool)
    requires Deferred(conns, later, timeouts) && fd in conns
    requires OnTick(cfg, conns[fd], now).conn == if timedOut then Closed(next) else next
    requires timedOut ==> next.session.state.Closing? && conns[fd].session.state.Negotiating?
    requires conns[fd].session.state.Closing? ==> next == conns[fd]
    ensures OnTick(cfg, later[fd], now).entries == OnTick(cfg, conns[fd], now).entries
    ensures Deferred(conns[fd := next], later[fd := OnTick(cfg, later[fd], now).conn],
                     if timedOut then timeouts + [fd] else timeouts)
  {
    hide OnTick;
    if conns[fd].session.state == Closing {
      ClosingIsSkipped(cfg, conns[fd], now);
    }
  }

  lemma NoMediaEntries(id: nat, first: nat)
    ensures MediaEntries(id, first, first) == []
  {
  }

  lemma DueNext(ps: Playlist, t: nat, k: nat)
    ensures DueFrom(ps, t, k) == if DueTime(ps, k) > t then k else DueFrom(ps, t, k + 1)
  {
    hide DueTime;
  }

  lemma MediaEntriesNext(id: nat, first: nat, last: nat)
    requires first <= last
    ensures MediaEntries(id, first, last) + [MediaSent(id, last)] == MediaEntries(id, first, last + 1)
  {
  }

  // ----- frames taken so far -----

  /** The loop over the receive buffer of connection c has come to s: it is still receiving or was
      closed, and what it has logged is what the frames taken call for. */
  ghost predicate TakenSoFar(classify: Classifier, c: Conn, s: Session.State, before: seq<Entry>, log: seq<Entry>) {
    && Receiving(c.session) && !s.failed && c.session.handled <= s.handled
    && (if s.open then Receiving(s) && StateFollowsAnswer(classify, c.session, s) else s.state.Closing?)
    && log == before + TakenEntries(classify, c.id, c.session.state.Negotiating?, s.handled[|c.session.handled|..])
  }

  lemma NothingTakenYet(classify: Classifier, c: Conn, log: seq<Entry>)
    requires Receiving(c.session)
    ensures TakenSoFar(classify, c, c.session, log, log)
  {
    assert c.session.handled[|c.session.handled|..] == [];
    assert log + [] == log;
  }

  lemma OneMoreTaken(classify: Classifier, c: Conn, s: Session.State, f: WS.WsFrame,
                     before: seq<Entry>, log: seq<Entry>)
    requires TakenSoFar(classify, c, s, before, log)
    ensures TakenSoFar(classify, c, HandleFrame(classify, s, f), before,
                       log + if s.open then EntriesFor(classify, c.id, s.state.Negotiating?, f) else [])
    ensures HandleFrame(classify, s, f).buffer == s.buffer
  {
    hide TakenEntries, FirstAnswer;
    var n := |c.session.handled|;
    if s.open {
      FrameFollowsAnswer(classify, c.session, s, f);
      HandleFrameKeeps(classify, s, f, []);
      TakenNext(classify, c.id, c.session.state.Negotiating?, s.handled[n..], f);
      assert (s.handled + [f])[n..] == s.handled[n..] + [f];
    } else {
      assert log + [] == log;
    }
  }

  class EventServer {
    const cfg: Config
    var connections: Connections
    var totalConnections: nat
    ghost var log: seq<Entry>
    /** An exception that nothing catches has ended the process. */
    var crashed: bool

    /** Only in a process that has ended is there a connection whose parser threw. */
    ghost predicate Valid()
      reads this
    {
      forall fd :: fd in connections && connections[fd].session.failed ==> crashed
    }

    ghost function Contents(): World
      reads this
    {
      World(connections, totalConnections, log, crashed)
    }

    constructor (cfg: Config)
      ensures Valid() && this.cfg == cfg && Contents() == NOTHING_YET
    {
      this.cfg, connections, totalConnections, log, crashed := cfg, map[], 0, [], false;
    }

    /** AddConnection: a descriptor that is still in the table is taken over. */
    method OnConnect(fd: int)
      requires Valid()
      modifies this
      ensures Valid() && Contents() == Step(cfg, old(Contents()), Connect(fd))
    {
      if crashed {
        return;
      }
      totalConnections := totalConnections + 1;
      connections := connections[fd := Conn(totalConnections, NEW_SESSION, 0, 0, 0, 0)];
    }

    /** RemoveConnection. */
    method OnDisconnect(fd: int)
      requires Valid()
      modifies this
      ensures Valid() && Contents() == Step(cfg, old(Contents()), Disconnect(fd))
    {
      if crashed || fd !in connections {
        assert fd !in connections ==> connections - {fd} == connections;
        return;
      }
      connections := connections - {fd};
    }

    /** HandleData. */
    method OnData(fd: int, data: bytes, now: int)
      requires Valid()
      requires fd in connections ==> |connections[fd].session.buffer| + |data| < 0x1_0000_0000_0000_0000
      modifies this
      ensures Valid() && Contents() == Step(cfg, old(Contents()), Data(fd, data, now))
    {
      hide Process, TakenEntries;
      if crashed || fd !in connections {
        return;
      }
      var conn := connections[fd];
      if !conn.session.open {
        assert connections == connections[fd := conn] && log == log + [];
        return;
      }
      var s := conn.session.(buffer := conn.session.buffer + data);
      connections := connections[fd := conn.(session := s)];
      if s.state == HandshakingWs {
        HandleHandshake(fd, now);
      } else if s.state == Negotiating || s.state == Streaming {
        HandleWebSocketFrame(fd);
      } else {
        NothingTaken(cfg.classify, conn.id, s.state.Negotiating?, s.handled[|s.handled|..]);
        assert log == log + [];
      }
    }

    /** HandleWebSocketFrame: takes frames from the front of the buffer until none is complete or the
        peer closes. */
    method HandleWebSocketFrame(fd: int)
      requires fd in connections && Receiving(connections[fd].session) && !crashed
      requires |connections[fd].session.buffer| < 0x1_0000_0000_0000_0000
      modifies this
      ensures totalConnections == old(totalConnections)
      ensures var c := old(connections[fd]);
              var s := Process(cfg.classify, c.session);
              && connections == old(connections)[fd := c.(session := s)]
              && crashed == s.failed && c.session.handled <= s.handled
              && log == old(log) + TakenEntries(cfg.classify, c.id, c.session.state.Negotiating?,
                                                s.handled[|c.session.handled|..])
    {
      hide HandleFrame, WS.Parse, FirstAnswer, TakenEntries;
      ghost var c := connections[fd];
      NothingTakenYet(cfg.classify, c, log);
      while |connections[fd].session.buffer| > 0
        invariant totalConnections == old(totalConnections) && !crashed
        invariant fd in connections && |connections[fd].session.buffer| < 0x1_0000_0000_0000_0000
        invariant connections == old(connections)[fd := c.(session := connections[fd].session)]
        invariant Process(cfg.classify, connections[fd].session) == Process(cfg.classify, c.session)
        invariant TakenSoFar(cfg.classify, c, connections[fd].session, old(log), log)
        decreases |connections[fd].session.buffer|
      {
        var s := connections[fd].session;
        var r := WS.ParseFrame(s.buffer);
        WS.ConsumedBounds(s.buffer);
        match r
        case Incomplete =>
          return;
        case TooLong =>
          connections := connections[fd := connections[fd].(session := s.(failed := true))];
          crashed := true;
          return;
        case Parsed(frame, consumed) =>
          s := s.(buffer := s.buffer[consumed..]);
          connections := connections[fd := connections[fd].(session := s)];
          ghost var before := log;
          TakeFrame(fd, frame);
          OneMoreTaken(cfg.classify, c, s, frame, old(log), before);
          if frame.opcode == WS.CLOSE {
            return;
          }
      }
      NothingToParse();
    }

    /** One frame, already taken from the buffer. */
    method TakeFrame(fd: int, frame: WS.WsFrame)
      requires fd in connections && (connections[fd].session.open || connections[fd].session.state.Closing?)
      modifies this
      ensures totalConnections == old(totalConnections) && crashed == old(crashed)
      ensures var c := old(connections[fd]);
              && connections == old(connections)[fd := c.(session := HandleFrame(cfg.classify, c.session, frame))]
              && log == old(log) + (if c.session.open
                                    then EntriesFor(cfg.classify, c.id, c.session.state.Negotiating?, frame) else [])
    {
      var conn := connections[fd];
      var s := conn.session;
      if s.open {
        s := s.(handled := s.handled + [frame]);
      }
      connections := connections[fd := conn.(session := s)];
      if frame.opcode == WS.TEXT {
        if s.state == Negotiating {
          HandleNegotiation(fd, frame.payload);
        }
      } else if frame.opcode == WS.PING {
        if s.open {
          log := log + [ReplySent(conn.id, Pong(frame.payload))];
          connections := connections[fd := conn.(session := s.(replies := s.replies + [Pong(frame.payload)]))];
        }
      } else if frame.opcode == WS.CLOSE {
        connections := connections[fd := conn.(session := s.(state := Closing, open := false))];
      }
    }

    /** HandleNegotiation. */
    method HandleNegotiation(fd: int, msg: bytes)
      requires fd in connections
      modifies this
      ensures totalConnections == old(totalConnections) && crashed == old(crashed)
      ensures var c, kind := old(connections[fd]), cfg.classify(msg);
              && connections == old(connections)[fd := c.(session := Session.HandleNegotiation(kind, c.session))]
              && log == old(log) + (if kind.Accepted? then [AnswerAccepted(c.id)]
                                    else if kind.Refused? && c.session.open then [ReplySent(c.id, CloseFrame(1000))]
                                    else [])
    {
      var conn := connections[fd];
      var s, kind := conn.session, cfg.classify(msg);
      if kind == NotAnAnswer {
        return;
      }
      if kind == Accepted {
        s := s.(state := Streaming);
        log := log + [AnswerAccepted(conn.id)];
      } else {
        s := s.(state := Closing);
        if s.open {
          log := log + [ReplySent(conn.id, CloseFrame(1000))];
          s := s.(replies := s.replies + [CloseFrame(1000)]);
        }
        s := s.(open := false);
      }
      connections := connections[fd := conn.(session := s)];
    }

    /** HandleHandshake and SendMediaOffer. */
    method HandleHandshake(fd: int, now: int)
      requires fd in connections
      modifies this
      ensures totalConnections == old(totalConnections) && crashed == old(crashed)
      ensures var c := old(connections[fd]);
              match cfg.handshake(c.session.buffer)
              case NeedMore => log == old(log) && connections == old(connections)
              case BadRequest => log == old(log) && connections == old(connections)[fd := Closed(c)]
              case Upgrade =>
                && log == old(log) + [OfferSent(c.id)]
                && connections
                   == old(connections)[fd := c.(session := c.session.(buffer := [], state := Negotiating),
                                                offerTime := now)]
    {
      var conn := connections[fd];
      match cfg.handshake(conn.session.buffer)
      case NeedMore =>
      case BadRequest =>
        connections := connections[fd := Closed(conn)];
      case Upgrade =>
        conn := conn.(session := conn.session.(buffer := [], state := Connected));
        log := log + [OfferSent(conn.id)];
        conn := conn.(session := conn.session.(state := Negotiating), offerTime := now);
        connections := connections[fd := conn];
    }

    /** The playback tick of one connection: sends the packets that are due. */
    method StreamingTick(conn: Conn) returns (next: Conn)
      modifies this`log
      ensures next == OnStreamingTick(cfg, conn).conn
      ensures log == old(log) + OnStreamingTick(cfg, conn).entries
    {
      hide DueTime, DueFrom, MediaEntries;
      if |cfg.packets| == 0 {
        assert log + [] == log;
        return conn;
      }
      next := conn;
      ghost var bound := |cfg.packets| * (conn.playbackTimeMs + 1);
      NoMediaEntries(conn.id, conn.packetIndex);
      assert log + [] == log;
      while DueTime(cfg.packets, next.packetIndex) <= conn.playbackTimeMs
        invariant next == conn.(packetIndex := next.packetIndex) && next.packetIndex >= conn.packetIndex
        invariant log == old(log) + MediaEntries(conn.id, conn.packetIndex, next.packetIndex)
        invariant DueFrom(cfg.packets, conn.playbackTimeMs, next.packetIndex)
                  == DueFrom(cfg.packets, conn.playbackTimeMs, conn.packetIndex)
        decreases bound - next.packetIndex
      {
        DueBound(cfg.packets, next.packetIndex, conn.playbackTimeMs);
        DueNext(cfg.packets, conn.playbackTimeMs, next.packetIndex);
        log := log + [MediaSent(conn.id, next.packetIndex)];
        MediaEntriesNext(conn.id, conn.packetIndex, next.packetIndex);
        next := next.(packetIndex := next.packetIndex + 1);
      }
      DueNext(cfg.packets, conn.playbackTimeMs, next.packetIndex);
      next := next.(playbackTimeMs := conn.playbackTimeMs + TICK_MS);
    }

    /** The tick of one connection in raw mode: sends the next access unit. */
    method RawTick(conn: Conn) returns (next: Conn)
      modifies this`log
      ensures next == OnRawTick(cfg, conn).conn
      ensures log == old(log) + OnRawTick(cfg, conn).entries
    {
      next := conn;
      if cfg.units != 0 {
        log := log + [MediaSent(conn.id, conn.auIndex)];
        next := conn.(auIndex := conn.auIndex + 1);
      }
    }

    /** One visit of the timer loop. A negotiation that has timed out is left for later to close. */
    method Visit(fd: int, now: int) returns (timedOut: bool)
      requires fd in connections
      modifies this
      ensures totalConnections == old(totalConnections) && crashed == old(crashed) && fd in connections
      ensures connections == old(connections)[fd := connections[fd]]
      ensures var e := OnTick(cfg, old(connections[fd]), now);
              && log == old(log) + e.entries
              && e.conn == (if timedOut then Closed(connections[fd]) else connections[fd])
              && (timedOut ==> connections[fd].session.state.Closing?)
              && (timedOut ==> old(connections[fd]).session.state.Negotiating?)
              && (old(connections[fd]).session.state.Closing? ==> connections[fd] == old(connections[fd]))
    {
      hide OnStreamingTick, OnRawTick;
      timedOut := false;
      var conn := connections[fd];
      if conn.session.state == Negotiating {
        if now - conn.offerTime > NEGOTIATION_LIMIT_MS {
          connections := connections[fd := conn.(session := conn.session.(state := Closing))];
          timedOut := true;
          log := log + [TimedOut(conn.id)];
        }
      } else if conn.session.state == Streaming {
        var next;
        if cfg.isMp4 {
          next := StreamingTick(conn);
        } else {
          next := RawTick(conn);
        }
        connections := connections[fd := next];
      }
    }

    /** OnTimer: visits all connections, then closes those whose negotiation has timed out. */
    method OnTimer(order: seq<int>, clock: int -> int)
      requires Valid()
      modifies this
      ensures Valid() && Contents() == Step(cfg, old(Contents()), Timer(order, clock))
    {
      hide OnTick, Deferred;
      if crashed {
        return;
      }
      ghost var start := Contents();
      NothingDeferred(connections);
      var timeouts: seq<int> := [];
      var i := 0;
      while i < |order|
        invariant 0 <= i <= |order|
        invariant totalConnections == start.total == TickFirst(cfg, start, order, clock, i).total
        invariant !crashed && !TickFirst(cfg, start, order, clock, i).crashed && Valid()
        invariant log == TickFirst(cfg, start, order, clock, i).log
        invariant Deferred(connections, TickFirst(cfg, start, order, clock, i).conns, timeouts)
      {
        var fd := order[i];
        if fd in connections {
          ghost var conns, before := connections, TickFirst(cfg, start, order, clock, i);
          TickNeverFails(cfg, conns[fd], clock(fd));
          SameKeys(conns, before.conns, timeouts);
          TickNeverFails(cfg, before.conns[fd], clock(fd));
          var timedOut := Visit(fd, clock(fd));
          VisitKeeps(cfg, conns, before.conns, timeouts, fd, clock(fd), connections[fd], timedOut);
          if timedOut {
            timeouts := timeouts + [fd];
          }
        } else {
          SameKeys(connections, TickFirst(cfg, start, order, clock, i).conns, timeouts);
        }
        i := i + 1;
      }
      SameKeys(connections, TickFirst(cfg, start, order, clock, i).conns, timeouts);
      CloseAll(timeouts, TickFirst(cfg, start, order, clock, i).conns);
    }

    method CloseAll(timeouts: seq<int>, ghost later: Connections)
      requires Deferred(connections, later, timeouts)
      modifies this
      ensures connections == later && totalConnections == old(totalConnections) && log == old(log)
      ensures crashed == old(crashed)
    {
      var j := 0;
      while j < |timeouts|
        invariant 0 <= j <= |timeouts|
        invariant Deferred(connections, later, timeouts[j..])
        invariant totalConnections == old(totalConnections) && log == old(log) && crashed == old(crashed)
      {
        var fd := timeouts[j];
        assert timeouts[j..] == [fd] + timeouts[j + 1..];
        connections := connections[fd := Closed(connections[fd])];
        j := j + 1;
      }
      assert timeouts[j..] == [];
      NothingPending(connections, later);
    }
  }
}
