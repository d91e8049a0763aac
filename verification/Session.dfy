/** The receiving side of a connection: the buffer loop over WebSocket frames, negotiation, and
    the states a connection goes through. */
module Session {
  import opened Bytes
  import WS = WebSocket

  datatype ConnState = HandshakingWs | Connected | Negotiating | Streaming | Closing

  /** What the JSON scanners make of a text message. */
  datatype TextKind = NotAnAnswer | Accepted | Refused

  type Classifier = bytes -> TextKind

  /** Frames the server sends in reply. */
  datatype Reply = Pong(payload: bytes) | CloseFrame(code: uint16)

  /** A connection after the handshake. `open` tells whether its socket is still there: what is
      sent after closing goes nowhere. `handled` logs the frames taken while it was there.
      `failed` means that the parser threw, which ends the process. */
  datatype State = State(state: ConnState, open: bool, failed: bool, buffer: bytes,
                         handled: seq<WS.WsFrame>, replies: seq<Reply>)

  predicate Receiving(s: State) {
    s.open && !s.failed && (s.state.Negotiating? || s.state.Streaming?)
  }

  function HandleNegotiation(kind: TextKind, s: State): State {
    match kind
    case NotAnAnswer => s
    case Accepted => s.(state := Streaming)
    case Refused =>
      s.(state := Closing, open := false, replies := if s.open then s.replies + [CloseFrame(1000)] else s.replies)
  }

  /** One frame, already taken from the buffer. */
  function HandleFrame(classify: Classifier, s: State, f: WS.WsFrame): State {
    var s := if s.open then s.(handled := s.handled + [f]) else s;
    if f.opcode == WS.TEXT && s.state.Negotiating? then HandleNegotiation(classify(f.payload), s)
    else if f.opcode == WS.PING && s.open then s.(replies := s.replies + [Pong(f.payload)])
    else if f.opcode == WS.CLOSE then s.(state := Closing, open := false)
    else s
  }

  /** The loop over the receive buffer. */
  function Process(classify: Classifier, s: State): State
    decreases |s.buffer|
  {
    var p := WS.Parse(s.buffer);
    WS.ConsumedBounds(s.buffer);
    if p.TooLong? then s.(failed := true)
    else if p.Incomplete? then s
    else
      var next := HandleFrame(classify, s.(buffer := s.buffer[p.consumed..]), p.frame);
      if p.frame.opcode == WS.CLOSE then next else Process(classify, next)
  }

  /** Bytes arrive. */
  function Receive(classify: Classifier, s: State, data: bytes): State {
    if s.failed then s
    else
      var s := s.(buffer := s.buffer + data);
      if s.state.Negotiating? || s.state.Streaming? then Process(classify, s) else s
  }

  function ReceiveAll(classify: Classifier, s: State, chunks: seq<bytes>): State {
    if chunks == [] then s
    else Receive(classify, ReceiveAll(classify, s, chunks[..|chunks| - 1]), chunks[|chunks| - 1])
  }

  /** Still receiving, or closed, or stopped by the parser. */
  predicate Proper(s: State) {
    if s.open then s.state.Negotiating? || s.state.Streaming? else s.state.Closing?
  }

  // ----- chunking independence -----

  /** Two connections behave alike: same state, same frames taken, same replies while the socket
      is there, and the parser failed on both or on neither. */
  predicate SameBehaviour(a: State, b: State) {
    && a.state == b.state && a.open == b.open
    && a.handled == b.handled && a.replies == b.replies
    && (a.open ==> a.failed == b.failed)
  }

  lemma {:induction false} ClosedIsFrozen(classify: Classifier, s: State)
    requires !s.open && s.state.Closing?
    ensures SameBehaviour(Process(classify, s), s)
    decreases |s.buffer|
  {
    hide WS.Parse;
    var p := WS.Parse(s.buffer);
    WS.ConsumedBounds(s.buffer);
    if p.Parsed? && p.frame.opcode != WS.CLOSE {
      ClosedIsFrozen(classify, HandleFrame(classify, s.(buffer := s.buffer[p.consumed..]), p.frame));
    }
  }

  lemma HandleFrameKeeps(classify: Classifier, s: State, f: WS.WsFrame, more: bytes)
    requires Receiving(s)
    ensures var s' := HandleFrame(classify, s, f);
            && s'.buffer == s.buffer
            && HandleFrame(classify, s.(buffer := s.buffer + more), f) == s'.(buffer := s.buffer + more)
            && !s'.failed && (Receiving(s') || (!s'.open && s'.state.Closing?))
            && (f.opcode == WS.CLOSE ==> !s'.open)
  {
  }

  /** More bytes later or at once: the loop takes the same frames, up to the one that closes. */
  lemma {:induction false} ProcessMore(classify: Classifier, s: State, more: bytes)
    requires Receiving(s)
    ensures var first := Process(classify, s);
            var whole := Process(classify, s.(buffer := s.buffer + more));
            && Proper(first)
            && if Receiving(first) then whole == Process(classify, first.(buffer := first.buffer + more))
               else SameBehaviour(whole, first)
    decreases |s.buffer|
  {
    hide WS.Parse, HandleFrame;
    var p := WS.Parse(s.buffer);
    WS.ConsumedBounds(s.buffer);
    if !p.Incomplete? {
      WS.MoreBytes(s.buffer, more);
    }
    if p.Parsed? {
      var rest := s.buffer[p.consumed..];
      assert (s.buffer + more)[p.consumed..] == rest + more;
      HandleFrameKeeps(classify, s.(buffer := rest), p.frame, more);
      var next := HandleFrame(classify, s.(buffer := rest), p.frame);
      if Receiving(next) {
        ProcessMore(classify, next, more);
      } else if p.frame.opcode != WS.CLOSE {
        ClosedIsFrozen(classify, next);
        ClosedIsFrozen(classify, next.(buffer := rest + more));
      }
    }
  }

  lemma {:induction false} ProcessSettles(classify: Classifier, s: State)
    requires Receiving(s)
    ensures var first := Process(classify, s);
            Receiving(first) ==> WS.Parse(first.buffer).Incomplete?
    decreases |s.buffer|
  {
    hide WS.Parse, HandleFrame;
    var p := WS.Parse(s.buffer);
    WS.ConsumedBounds(s.buffer);
    if p.Parsed? {
      var rest := s.buffer[p.consumed..];
      HandleFrameKeeps(classify, s.(buffer := rest), p.frame, []);
      var next := HandleFrame(classify, s.(buffer := rest), p.frame);
      if Receiving(next) {
        ProcessSettles(classify, next);
      } else if p.frame.opcode != WS.CLOSE {
        ClosedIsFrozen(classify, next);
      }
    }
  }

  /** However the incoming bytes are split, the connection ends in the same state having taken
      the same frames and sent the same replies, up to the first close frame or refusal; and if
      it is still receiving, with the same bytes left in its buffer. */
  lemma {:induction false} ChunkingIndependent(classify: Classifier, s: State, chunks: seq<bytes>)
    requires Receiving(s) && WS.Parse(s.buffer).Incomplete?
    ensures var parts := ReceiveAll(classify, s, chunks);
            var whole := Receive(classify, s, WS.Joined(chunks));
            && Proper(whole)
            && SameBehaviour(parts, whole)
            && (Receiving(whole) ==> parts == whole)
  {
    hide WS.Parse, Process;
    if chunks == [] {
      assert s.buffer + [] == s.buffer;
      StuckOnIncomplete(classify, s);
    } else {
      var n := |chunks| - 1;
      ChunkingIndependent(classify, s, chunks[..n]);
      ReceiveStep(classify, s, ReceiveAll(classify, s, chunks[..n]), WS.Joined(chunks[..n]), chunks[n]);
    }
  }

  lemma StuckOnIncomplete(classify: Classifier, s: State)
    requires WS.Parse(s.buffer).Incomplete?
    ensures Process(classify, s) == s
  {
  }

  /** One more chunk behind those already joined. */
  lemma ReceiveStep(classify: Classifier, s: State, parts: State, before: bytes, chunk: bytes)
    requires Receiving(s)
    requires var whole := Receive(classify, s, before);
             SameBehaviour(parts, whole) && (Receiving(whole) ==> parts == whole)
    ensures var next := Receive(classify, parts, chunk);
            var whole := Receive(classify, s, before + chunk);
            && Proper(whole)
            && SameBehaviour(next, whole)
            && (Receiving(whole) ==> next == whole)
  {
    hide WS.Parse, Process;
    assert s.buffer + before + chunk == s.buffer + (before + chunk);
    ProcessMore(classify, s.(buffer := s.buffer + before), chunk);
    var first := Receive(classify, s, before);
    if Receiving(first) {
      ProcessMore(classify, first.(buffer := first.buffer + chunk), []);
    }
  }

  // ----- the frames taken are those in the stream -----

  /** The frames taken are the first ones the bytes can be cut into: all of them, with the same
      bytes left, as long as the connection is receiving. */
  lemma {:induction false} ProcessTakesFrames(classify: Classifier, s: State)
    requires Receiving(s)
    ensures var first, cut := Process(classify, s), WS.CutFrames(s.buffer);
            && s.handled <= first.handled
            && first.handled <= s.handled + cut.frames
            && (Receiving(first) ==> first.handled == s.handled + cut.frames && first.buffer == cut.rest)
    decreases |s.buffer|
  {
    hide WS.Parse, WS.CutFrames;
    var p := WS.Parse(s.buffer);
    WS.ConsumedBounds(s.buffer);
    WS.CutFirst(s.buffer);
    if p.Parsed? {
      var rest := s.buffer[p.consumed..];
      HandleFrameKeeps(classify, s.(buffer := rest), p.frame, []);
      var next := HandleFrame(classify, s.(buffer := rest), p.frame);
      var later := WS.CutFrames(rest).frames;
      assert s.handled + ([p.frame] + later) == next.handled + later;
      if Receiving(next) {
        ProcessTakesFrames(classify, next);
      } else if p.frame.opcode != WS.CLOSE {
        ClosedIsFrozen(classify, next);
      }
    }
  }

  // ----- when the parser throws -----

  /** Opcode 8 closes (RFC 6455, section 11.8), 1 is a text and 9 a ping. */
  predicate NoClose(fs: seq<WS.WsFrame>) {
    forall i :: 0 <= i < |fs| ==> fs[i].opcode != 8
  }

  /** The loop ends the process if and only if, behind all complete frames and no close among them,
      there stands a header whose length does not fit. A refusal does not keep it from getting
      there. */
  lemma {:induction false} FailsExactly(classify: Classifier, s: State)
    requires !s.failed
    ensures var cut := WS.CutFrames(s.buffer);
            Process(classify, s).failed <==> WS.Parse(cut.rest).TooLong? && NoClose(cut.frames)
    decreases |s.buffer|
  {
    hide WS.Parse, WS.CutFrames;
    var p := WS.Parse(s.buffer);
    WS.ConsumedBounds(s.buffer);
    WS.CutFirst(s.buffer);
    if p.Parsed? {
      var rest := s.buffer[p.consumed..];
      NoCloseFirst(p.frame, WS.CutFrames(rest).frames);
      if p.frame.opcode != WS.CLOSE {
        FailsExactly(classify, HandleFrame(classify, s.(buffer := rest), p.frame));
      }
    }
  }

  lemma NoCloseFirst(f: WS.WsFrame, fs: seq<WS.WsFrame>)
    ensures NoClose([f] + fs) <==> f.opcode != WS.CLOSE && NoClose(fs)
  {
    if NoClose([f] + fs) {
      assert ([f] + fs)[0] == f;
      assert forall i :: 0 <= i < |fs| ==> ([f] + fs)[i + 1] == fs[i];
    }
  }

  // ----- the state is determined by the frames taken -----

  /** The first text frame that is an answer, if any. */
  function FirstAnswer(classify: Classifier, fs: seq<WS.WsFrame>): TextKind {
    if fs == [] then NotAnAnswer
    else
      var before := FirstAnswer(classify, fs[..|fs| - 1]);
      var last := fs[|fs| - 1];
      if before != NotAnAnswer then before else if last.opcode == 1 then classify(last.payload) else NotAnAnswer
  }

  /** A connection streams if and only if the first answer among the frames taken since the
      offer accepts it; while it negotiates there has been no answer. */
  predicate StateFollowsAnswer(classify: Classifier, start: State, s: State) {
    && start.handled <= s.handled
    && (s.open ==> var answer := FirstAnswer(classify, s.handled[|start.handled|..]);
                   if start.state.Streaming? then s.state.Streaming?
                   else answer != Refused && (s.state.Streaming? <==> answer == Accepted)
                        && (s.state.Negotiating? <==> answer == NotAnAnswer))
  }

  lemma FrameFollowsAnswer(classify: Classifier, start: State, s: State, f: WS.WsFrame)
    requires Receiving(start) && Receiving(s) && StateFollowsAnswer(classify, start, s)
    ensures StateFollowsAnswer(classify, start, HandleFrame(classify, s, f))
  {
    var n := |start.handled|;
    var s' := HandleFrame(classify, s, f);
    assert s'.handled == s.handled + [f];
    assert s'.handled[n..] == s.handled[n..] + [f];
    assert s'.handled[n..][..|s'.handled[n..]| - 1] == s.handled[n..];
  }

  lemma {:induction false} ProcessFollowsAnswer(classify: Classifier, start: State, s: State)
    requires Receiving(start) && Receiving(s) && StateFollowsAnswer(classify, start, s)
    ensures StateFollowsAnswer(classify, start, Process(classify, s)) && Proper(Process(classify, s))
    decreases |s.buffer|
  {
    hide WS.Parse, HandleFrame, FirstAnswer;
    var p := WS.Parse(s.buffer);
    WS.ConsumedBounds(s.buffer);
    if p.Parsed? {
      var taken := s.(buffer := s.buffer[p.consumed..]);
      FrameFollowsAnswer(classify, start, taken, p.frame);
      HandleFrameKeeps(classify, taken, p.frame, []);
      var next := HandleFrame(classify, taken, p.frame);
      if Receiving(next) {
        ProcessFollowsAnswer(classify, start, next);
      } else if p.frame.opcode != WS.CLOSE {
        ClosedIsFrozen(classify, next);
      }
    }
  }

  /** One batch of bytes: the state it leaves is the one the answers in it call for. */
  lemma ReceiveFollowsAnswer(classify: Classifier, s: State, data: bytes)
    requires Receiving(s)
    ensures StateFollowsAnswer(classify, s, Receive(classify, s, data)) && Proper(Receive(classify, s, data))
  {
    hide Process, FirstAnswer;
    assert FirstAnswer(classify, s.handled[|s.handled|..]) == NotAnAnswer || s.state.Streaming? by {
      NoFramesNoAnswer(classify);
      assert s.handled[|s.handled|..] == [];
    }
    ProcessFollowsAnswer(classify, s, s.(buffer := s.buffer + data));
  }

  lemma NoFramesNoAnswer(classify: Classifier)
    ensures FirstAnswer(classify, []) == NotAnAnswer
  {
  }

  // ----- when the socket is closed -----

  lemma {:induction false} AnswerInFront(classify: Classifier, f: WS.WsFrame, fs: seq<WS.WsFrame>)
    ensures FirstAnswer(classify, [f] + fs)
            == if f.opcode == 1 && classify(f.payload) != NotAnAnswer then classify(f.payload)
               else FirstAnswer(classify, fs)
  {
    if fs == [] {
      assert [f] + fs == [f] && [f][..0] == [];
    } else {
      AnswerInFront(classify, f, fs[..|fs| - 1]);
      assert ([f] + fs)[..|fs|] == [f] + fs[..|fs| - 1];
    }
  }

  /** The connection is open after the loop if and only if among the frames in the buffer there is
      no close and, while it negotiates, no refusal that comes first of the answers. */
  lemma {:induction false} OpenExactly(classify: Classifier, s: State)
    requires Receiving(s)
    ensures var fs := WS.CutFrames(s.buffer).frames;
            Process(classify, s).open <==>
              NoClose(fs) && !(s.state.Negotiating? && FirstAnswer(classify, fs) == Refused)
    decreases |s.buffer|
  {
    hide WS.Parse, WS.CutFrames, FirstAnswer, NoClose;
    var p := WS.Parse(s.buffer);
    WS.ConsumedBounds(s.buffer);
    WS.CutFirst(s.buffer);
    if p.Parsed? {
      var rest := s.buffer[p.consumed..];
      var taken, later := s.(buffer := rest), WS.CutFrames(rest).frames;
      HandleFrameKeeps(classify, taken, p.frame, []);
      NoCloseFirst(p.frame, later);
      AnswerInFront(classify, p.frame, later);
      var next := HandleFrame(classify, taken, p.frame);
      if Receiving(next) {
        OpenExactly(classify, next);
      } else if p.frame.opcode != WS.CLOSE {
        ClosedIsFrozen(classify, next);
      }
    } else {
      NoFramesNoAnswer(classify);
      NoneCloses();
    }
  }

  lemma NoneCloses()
    ensures NoClose([])
  {
  }

  // ----- the replies are determined by the frames taken -----

  /** A pong for every ping, in order, with the ping's payload. */
  function PongsFor(fs: seq<WS.WsFrame>): seq<Reply> {
    if fs == [] then []
    else
      var last := fs[|fs| - 1];
      PongsFor(fs[..|fs| - 1]) + (if last.opcode == 9 then [Pong(last.payload)] else [])
  }

  /** Since `start` the connection has sent its pongs and, if it was refused, a close frame last. */
  predicate RepliesFollow(classify: Classifier, start: State, s: State) {
    && start.handled <= s.handled
    && var taken := s.handled[|start.handled|..];
       var refused := start.state.Negotiating? && FirstAnswer(classify, taken) == Refused;
       s.replies == start.replies + PongsFor(taken) + (if refused then [CloseFrame(1000)] else [])
  }

  lemma OneMoreFrame(classify: Classifier, fs: seq<WS.WsFrame>, f: WS.WsFrame)
    ensures PongsFor(fs + [f]) == PongsFor(fs) + (if f.opcode == WS.PING then [Pong(f.payload)] else [])
    ensures FirstAnswer(classify, fs + [f])
            == (if FirstAnswer(classify, fs) != NotAnAnswer then FirstAnswer(classify, fs)
                else if f.opcode == WS.TEXT then classify(f.payload) else NotAnAnswer)
  {
    assert (fs + [f])[..|fs|] == fs;
  }

  lemma FrameKeepsReplies(classify: Classifier, start: State, s: State, f: WS.WsFrame)
    requires Receiving(start) && Receiving(s) && StateFollowsAnswer(classify, start, s)
    requires RepliesFollow(classify, start, s)
    ensures RepliesFollow(classify, start, HandleFrame(classify, s, f))
  {
    hide PongsFor, FirstAnswer;
    var n := |start.handled|;
    var s' := HandleFrame(classify, s, f);
    assert s'.handled[n..] == s.handled[n..] + [f];
    OneMoreFrame(classify, s.handled[n..], f);
  }

  lemma {:induction false} ProcessKeepsReplies(classify: Classifier, start: State, s: State)
    requires Receiving(start) && Receiving(s) && StateFollowsAnswer(classify, start, s)
    requires RepliesFollow(classify, start, s)
    ensures RepliesFollow(classify, start, Process(classify, s))
    decreases |s.buffer|
  {
    hide WS.Parse, HandleFrame, FirstAnswer, PongsFor;
    var p := WS.Parse(s.buffer);
    WS.ConsumedBounds(s.buffer);
    if p.Parsed? {
      var taken := s.(buffer := s.buffer[p.consumed..]);
      FrameFollowsAnswer(classify, start, taken, p.frame);
      FrameKeepsReplies(classify, start, taken, p.frame);
      HandleFrameKeeps(classify, taken, p.frame, []);
      var next := HandleFrame(classify, taken, p.frame);
      if Receiving(next) {
        ProcessKeepsReplies(classify, start, next);
      } else if p.frame.opcode != WS.CLOSE {
        ClosedIsFrozen(classify, next);
      }
    }
  }

  /** One batch of bytes: every ping in it is answered once, in order, and a refusal by a close
      frame; nothing else is sent. */
  lemma PingsAreAnswered(classify: Classifier, s: State, data: bytes)
    requires Receiving(s)
    ensures RepliesFollow(classify, s, Receive(classify, s, data))
  {
    hide Process, FirstAnswer, PongsFor;
    var more := s.(buffer := s.buffer + data);
    assert s.handled[|s.handled|..] == [];
    NoFramesNoAnswer(classify);
    NoFramesNoReplies(s.replies);
    ProcessKeepsReplies(classify, s, more);
  }

  lemma NoFramesNoReplies(replies: seq<Reply>)
    ensures PongsFor([]) == [] && replies + PongsFor([]) + [] == replies
  {
  }

  lemma NothingToParse()
    ensures WS.Parse([]).Incomplete?
  {
  }
}
