/** Raw playback, from the file to the client: every cycle delivers the file again. */
module RawPlayback {
  import opened Bytes
  import opened FrameFormat
  import opened FrameEncoder
  import opened Reassembly
  import opened Delivery
  import opened FrameDelivery
  import opened StreamDelivery
  import opened MediaServer
  import AU = AccessUnits
  import AnnexB
  import WS = WebSocket

  /** The payloads of a run of frames, joined. */
  function Played(fs: seq<ParsedFrame>): bytes {
    if fs == [] then [] else Played(fs[..|fs| - 1]) + fs[|fs| - 1].payload
  }

  /** What the splitter keeps of a file: everything from the first start code on. */
  function FromFirstStartCode(buffer: bytes): bytes {
    var cs := AnnexB.CutsUpTo(buffer, |buffer|, false);
    if cs == [] then [] else buffer[cs[0]..]
  }

  lemma {:induction false} ConcatAppend(a: seq<bytes>, b: seq<bytes>)
    ensures AnnexB.Concat(a + b) == AnnexB.Concat(a) + AnnexB.Concat(b)
  {
    if b == [] {
      assert a + b == a;
    } else {
      ConcatAppend(a, b[..|b| - 1]);
      assert (a + b)[..|a + b| - 1] == a + b[..|b| - 1];
    }
  }

  lemma FrameIsUnit(info: MediaInfo, aus: seq<AU.Group>, sent: seq<SentFrame>, k: nat)
    requires UnitsInOrder(info, aus, sent) && k < |sent|
    ensures aus != [] && ExpectedAll(FramesOf(sent), |sent|)[k].payload == AnnexB.Concat(aus[k % |aus|])
  {
    hide UnitTime, FrameTypeOfUnit, AnnexB.Concat, ExpectedAll;
    ExpectedAt(FramesOf(sent), |sent|, k);
  }

  /** Frame c * n + i of the endless playback is access unit i. */
  lemma FrameOfCycle(info: MediaInfo, aus: seq<AU.Group>, sent: seq<SentFrame>, c: nat, i: nat)
    requires UnitsInOrder(info, aus, sent) && i < |aus| && c * |aus| + i < |sent|
    ensures ExpectedAll(FramesOf(sent), |sent|)[c * |aus| + i].payload == AnnexB.Concat(aus[i])
  {
    hide *;
    var k := c * |aus| + i;
    QuotientUnique(k, |aus|, c, i);
    FrameIsUnit(info, aus, sent, k);
  }

  lemma {:induction false} PlayedSoFar(info: MediaInfo, aus: seq<AU.Group>, sent: seq<SentFrame>, c: nat, i: nat)
    requires UnitsInOrder(info, aus, sent) && i <= |aus| && c * |aus| + i <= |sent|
    ensures Played(ExpectedAll(FramesOf(sent), |sent|)[c * |aus|..c * |aus| + i]) == AnnexB.Concat(AU.Concat(aus[..i]))
  {
    hide UnitsInOrder, AnnexB.Concat, ExpectedAll;
    var start := c * |aus|;
    var all := ExpectedAll(FramesOf(sent), |sent|);
    if i == 0 {
      NothingPlayed();
      assert all[start..start] == [] && aus[..0] == [];
    } else {
      PlayedSoFar(info, aus, sent, c, i - 1);
      FrameOfCycle(info, aus, sent, c, i - 1);
      assert all[start..start + i][..i - 1] == all[start..start + i - 1];
      assert aus[..i] == aus[..i - 1] + [aus[i - 1]];
      AU.ConcatAppend(aus[..i - 1], aus[i - 1]);
      ConcatAppend(AU.Concat(aus[..i - 1]), aus[i - 1]);
    }
  }

  lemma NothingPlayed()
    ensures Played([]) == [] && AU.Concat<bytes>([]) == [] && AnnexB.Concat([]) == []
  {
  }

  lemma NextCycle(c: nat, n: nat)
    ensures 0 <= c * n <= (c + 1) * n == c * n + n
  {
  }

  lemma GroupsJoined(buffer: bytes, isH265: bool, aus: seq<AU.Group>)
    requires AU.Grouping(aus, AnnexB.Split(buffer), isH265)
    ensures AnnexB.Concat(AU.Concat(aus[..|aus|])) == FromFirstStartCode(buffer)
  {
    hide AnnexB.Concat, AnnexB.Split, AnnexB.CutsUpTo;
    assert aus[..|aus|] == aus;
    AnnexB.SplitCovers(buffer);
  }

  /** The frames of one cycle carry the file, byte for byte, from its first start code on. */
  lemma CyclePlaysFile(buffer: bytes, isH265: bool, aus: seq<AU.Group>, info: MediaInfo, sent: seq<SentFrame>, c: nat)
    requires AU.Grouping(aus, AnnexB.Split(buffer), isH265)
    requires UnitsInOrder(info, aus, sent) && (c + 1) * |aus| <= |sent|
    ensures 0 <= c * |aus| <= (c + 1) * |aus|
    ensures Played(ExpectedAll(FramesOf(sent), |sent|)[c * |aus|..(c + 1) * |aus|]) == FromFirstStartCode(buffer)
  {
    hide *;
    NextCycle(c, |aus|);
    PlayedSoFar(info, aus, sent, c, |aus|);
    GroupsJoined(buffer, isH265, aus);
  }

  // ----- frames that are too large -----

  lemma PlayedNext(fs: seq<ParsedFrame>, f: ParsedFrame)
    ensures Played(fs + [f]) == Played(fs) + f.payload
  {
    assert (fs + [f])[..|fs|] == fs;
  }

  lemma {:induction false} PlayedConcat(a: seq<ParsedFrame>, b: seq<ParsedFrame>)
    ensures Played(a + b) == Played(a) + Played(b)
  {
    hide Played;
    if b == [] {
      NothingPlayed();
      assert a + b == a;
    } else {
      var init, last := b[..|b| - 1], b[|b| - 1];
      PlayedConcat(a, init);
      PlayedNext(a + init, last);
      PlayedNext(init, last);
      assert init + [last] == b && a + init + [last] == a + b;
    }
  }

  lemma PlayedOne(f: ParsedFrame)
    ensures Played([f]) == f.payload
  {
    assert [f][..0] == [];
  }

  /** What arrives of a frame that is too large is shorter. */
  lemma ArrivingIsShorter(g: MediaFrame)
    ensures |Played(Arriving(g))| <= |g.payload|
    ensures |Played(Arriving(g))| == |g.payload| <==> Deliverable(g)
  {
    ArrivingExactly(g);
    PlayedOne(Carried(g));
    CountBound(g.payload);
    JoinedIsPrefix(g.payload, FragmentCount(g.payload));
  }

  lemma {:induction false} ArrivingAllIsShorter(fs: seq<MediaFrame>, n: nat)
    requires n <= |fs|
    ensures |Played(ArrivingAll(fs, n))| <= |Played(ExpectedAll(fs, n))|
    ensures |Played(ArrivingAll(fs, n))| == |Played(ExpectedAll(fs, n))|
            <==> forall i :: 0 <= i < n ==> Deliverable(fs[i])
  {
    hide Arriving, Expected, Deliverable, Played;
    if n == 0 {
    } else {
      ArrivingAllIsShorter(fs, n - 1);
      ArrivingIsShorter(fs[n - 1]);
      PlayedConcat(ArrivingAll(fs, n - 1), Arriving(fs[n - 1]));
      PlayedConcat(ExpectedAll(fs, n - 1), [Expected(fs[n - 1])]);
      PlayedOne(Expected(fs[n - 1]));
      ExpectedPayload(fs[n - 1]);
    }
  }

  lemma ExpectedPayload(g: MediaFrame)
    ensures Expected(g).payload == g.payload
  {
  }

  /** The bytes that arrive are the bytes played out if and only if no frame is too large. */
  lemma PlayedExactly(fs: seq<MediaFrame>)
    ensures Played(ArrivingAll(fs, |fs|)) == Played(ExpectedAll(fs, |fs|))
            <==> forall i :: 0 <= i < |fs| ==> Deliverable(fs[i])
  {
    hide ArrivingAll, ExpectedAll, Deliverable, Played;
    ArrivingAllIsShorter(fs, |fs|);
    AllArriveExactly(fs, |fs|);
  }

  function Repeated(data: bytes, c: nat): bytes {
    if c == 0 then [] else Repeated(data, c - 1) + data
  }

  lemma {:induction false} CyclesPlayFile(buffer: bytes, isH265: bool, aus: seq<AU.Group>, info: MediaInfo,
                                          sent: seq<SentFrame>, c: nat)
    requires AU.Grouping(aus, AnnexB.Split(buffer), isH265)
    requires UnitsInOrder(info, aus, sent) && c * |aus| <= |sent|
    ensures 0 <= c * |aus|
    ensures Played(ExpectedAll(FramesOf(sent), |sent|)[..c * |aus|]) == Repeated(FromFirstStartCode(buffer), c)
  {
    hide AU.Grouping, AnnexB.Split, UnitsInOrder, ExpectedAll, FromFirstStartCode;
    var all := ExpectedAll(FramesOf(sent), |sent|);
    if c == 0 {
      NothingPlayed();
      assert all[..0] == [];
    } else {
      NextCycle(c - 1, |aus|);
      CyclesPlayFile(buffer, isH265, aus, info, sent, c - 1);
      CyclePlaysFile(buffer, isH265, aus, info, sent, c - 1);
      PlayedConcat(all[..(c - 1) * |aus|], all[(c - 1) * |aus|..c * |aus|]);
      assert all[..(c - 1) * |aus|] + all[(c - 1) * |aus|..c * |aus|] == all[..c * |aus|];
    }
  }

  /** After c whole cycles the client holds the file c times over if and only if every access unit
      sent is at most 4 MiB. */
  lemma {:induction false} ClientGetsFileExactly(buffer: bytes, isH265: bool, aus: seq<AU.Group>, info: MediaInfo,
                                                 sent: seq<SentFrame>, wire: seq<WS.WsFrame>, chunks: seq<bytes>,
                                                 victims: seq<uint16>, c: nat)
    requires AU.Grouping(aus, AnnexB.Split(buffer), isH265)
    requires UnitsInOrder(info, aus, sent) && |sent| == c * |aus|
    requires Carries(wire, sent) && WS.Joined(chunks) == WS.PrintAll(wire)
    requires |victims| == |MessagesSent(sent, |sent|)|
    ensures |MessagesIn(chunks)| == |victims| && AllDatagrams(MessagesIn(chunks))
    ensures Played(Delivered(Received(chunks, victims).outcomes)) == Repeated(FromFirstStartCode(buffer), c)
            <==> forall k :: 0 <= k < |sent| ==> Deliverable(sent[k].frame)
  {
    hide *;
    ClientReceivesWhatWasSent(sent, wire, chunks, victims);
    CyclesPlayFile(buffer, isH265, aus, info, sent, c);
    WholeStream(sent);
    PlayedExactly(FramesOf(sent));
    SameFrames(sent);
  }

  lemma WholeStream(sent: seq<SentFrame>)
    ensures |FramesOf(sent)| == |sent|
    ensures ExpectedAll(FramesOf(sent), |sent|)[..|sent|] == ExpectedAll(FramesOf(sent), |sent|)
  {
  }

  // ----- one cycle among others -----

  lemma {:induction false} ArrivingSplit(fs: seq<MediaFrame>, a: nat, n: nat)
    requires a <= n <= |fs|
    ensures ArrivingAll(fs, n) == ArrivingAll(fs, a) + ArrivingAll(fs[a..n], n - a)
  {
    hide Arriving;
    if a == n {
    } else {
      ArrivingSplit(fs, a, n - 1);
      ArrivingPrefix(fs[a..n - 1], [fs[n - 1]], n - 1 - a);
      assert fs[a..n - 1] + [fs[n - 1]] == fs[a..n];
    }
  }

  lemma {:induction false} ArrivingPrefix(fs: seq<MediaFrame>, more: seq<MediaFrame>, n: nat)
    requires n <= |fs|
    ensures ArrivingAll(fs + more, n) == ArrivingAll(fs, n)
  {
    hide Arriving;
    if n == 0 {
    } else {
      ArrivingPrefix(fs, more, n - 1);
    }
  }

  lemma ExpectedSlice(fs: seq<MediaFrame>, a: nat, b: nat)
    requires a <= b <= |fs|
    ensures ExpectedAll(fs, |fs|)[a..b] == ExpectedAll(fs[a..b], b - a)
  {
    hide ExpectedAll;
    forall k | 0 <= k < b - a ensures ExpectedAll(fs, |fs|)[a..b][k] == ExpectedAll(fs[a..b], b - a)[k] {
      ExpectedAt(fs, |fs|, a + k);
      ExpectedAt(fs[a..b], b - a, k);
    }
  }

  /** File to client: load a file, play its access units over and over, cut what the server
      wrote, however the network split it, and parse it. What arrives of a complete cycle stands
      behind what arrives of those before, and gives back the file from its first start code on if
      and only if each access unit sent in that cycle is at most 4 MiB; and so however often the
      sixteen-bit frame counter wraps meanwhile. */
  lemma ClientGetsFile(buffer: bytes, isH265: bool, aus: seq<AU.Group>, info: MediaInfo, sent: seq<SentFrame>,
                       wire: seq<WS.WsFrame>, chunks: seq<bytes>, victims: seq<uint16>, c: nat)
    requires AU.Grouping(aus, AnnexB.Split(buffer), isH265)
    requires UnitsInOrder(info, aus, sent) && (c + 1) * |aus| <= |sent|
    requires Carries(wire, sent) && WS.Joined(chunks) == WS.PrintAll(wire)
    requires |victims| == |MessagesSent(sent, |sent|)|
    ensures |MessagesIn(chunks)| == |victims| && AllDatagrams(MessagesIn(chunks))
    ensures 0 <= c * |aus| <= (c + 1) * |aus| == c * |aus| + |aus|
    ensures var fs, a, b := FramesOf(sent), c * |aus|, (c + 1) * |aus|;
            && Delivered(Received(chunks, victims).outcomes)
               == ArrivingAll(fs, a) + ArrivingAll(fs[a..b], |aus|) + ArrivingAll(fs[b..], |sent| - b)
            && (Played(ArrivingAll(fs[a..b], |aus|)) == FromFirstStartCode(buffer)
                <==> forall k :: a <= k < b ==> Deliverable(sent[k].frame))
  {
    hide *;
    ClientReceivesWhatWasSent(sent, wire, chunks, victims);
    NextCycle(c, |aus|);
    var a, b := c * |aus|, (c + 1) * |aus|;
    CycleArrives(FramesOf(sent), a, b);
    CyclePlaysFile(buffer, isH265, aus, info, sent, c);
    SameFrames(sent[a..b]);
    FramesOfSlice(sent, a, b);
  }

  lemma FramesOfSlice(sent: seq<SentFrame>, a: nat, b: nat)
    requires a <= b <= |sent|
    ensures FramesOf(sent[a..b]) == FramesOf(sent)[a..b] && |FramesOf(sent)| == |sent|
    ensures (forall k :: a <= k < b ==> Deliverable(sent[k].frame))
            <==> forall k :: 0 <= k < |sent[a..b]| ==> Deliverable(sent[a..b][k].frame)
  {
    hide Deliverable;
    assert forall k :: a <= k < b ==> sent[a..b][k - a] == sent[k];
  }

  lemma CycleArrives(fs: seq<MediaFrame>, a: nat, b: nat)
    requires a <= b <= |fs|
    ensures ArrivingAll(fs, |fs|) == ArrivingAll(fs, a) + ArrivingAll(fs[a..b], b - a) + ArrivingAll(fs[b..], |fs| - b)
    ensures Played(ArrivingAll(fs[a..b], b - a)) == Played(ExpectedAll(fs, |fs|)[a..b])
            <==> forall k :: 0 <= k < |fs[a..b]| ==> Deliverable(fs[a..b][k])
  {
    hide ArrivingAll, ExpectedAll, Played, Deliverable;
    ArrivingSplit(fs, a, b);
    ArrivingSplit(fs, b, |fs|);
    assert fs[b..|fs|] == fs[b..];
    ExpectedSlice(fs, a, b);
    PlayedExactly(fs[a..b]);
  }

  /** Between ticks of raw playback, after c whole cycles of a connection: its client holds the
      file c times over if and only if no access unit is larger than 4 MiB. */
  lemma {:induction false} ClientHoldsFile(server: VideoServer, conn: Connection, buffer: bytes, isH265: bool,
                                           chunks: seq<bytes>, victims: seq<uint16>, c: nat)
    requires server.RawValid(conn) && conn.auIndex == c * |server.accessUnits| && c > 0
    requires AU.Grouping(server.accessUnits, AnnexB.Split(buffer), isH265)
    requires WS.Joined(chunks) == conn.outbox && |victims| == |MessagesSent(conn.sent, |conn.sent|)|
    ensures |MessagesIn(chunks)| == |victims| && AllDatagrams(MessagesIn(chunks))
    ensures Played(Delivered(Received(chunks, victims).outcomes)) == Repeated(FromFirstStartCode(buffer), c)
            <==> forall i :: 0 <= i < |server.accessUnits| ==> |AnnexB.Concat(server.accessUnits[i])| <= MAX_PAYLOAD
  {
    hide AU.Grouping, AnnexB.Split, AnnexB.Concat, Carries, MessagesSent, MessagesIn, AllDatagrams, Received, Run,
         Delivered, Played, Repeated, FromFirstStartCode, WS.CutChunks, WS.Joined, WS.PrintAll, UnitsInOrder;
    ClientGetsFileExactly(buffer, isH265, server.accessUnits, server.info, conn.sent, conn.wire, chunks, victims, c);
    NextCycle(c - 1, |server.accessUnits|);
    SmallUnits(server.info, server.accessUnits, conn.sent);
  }

  lemma UnitIsPayload(info: MediaInfo, aus: seq<AU.Group>, sent: seq<SentFrame>, k: nat)
    requires UnitsInOrder(info, aus, sent) && k < |sent|
    ensures aus != [] && sent[k].frame.payload == AnnexB.Concat(aus[k % |aus|])
  {
    hide UnitTime, FrameTypeOfUnit, AnnexB.Concat;
    assert sent[k].frame == UnitFrame(info, aus, k, sent[k].frame.absTime);
  }

  lemma UnitIsDeliverable(info: MediaInfo, aus: seq<AU.Group>, sent: seq<SentFrame>, k: nat)
    requires UnitsInOrder(info, aus, sent) && k < |sent|
    requires forall i :: 0 <= i < |aus| ==> |AnnexB.Concat(aus[i])| <= MAX_PAYLOAD
    ensures Deliverable(sent[k].frame)
  {
    hide UnitsInOrder, AnnexB.Concat;
    UnitIsPayload(info, aus, sent, k);
  }

  lemma FirstUnits(info: MediaInfo, aus: seq<AU.Group>, sent: seq<SentFrame>, i: nat)
    requires UnitsInOrder(info, aus, sent) && i < |aus| <= |sent|
    ensures sent[i].frame.payload == AnnexB.Concat(aus[i])
  {
    hide UnitsInOrder, AnnexB.Concat;
    UnitIsPayload(info, aus, sent, i);
    QuotientUnique(i, |aus|, 0, i);
  }

  lemma SmallUnits(info: MediaInfo, aus: seq<AU.Group>, sent: seq<SentFrame>)
    requires UnitsInOrder(info, aus, sent) && |aus| <= |sent|
    ensures (forall k :: 0 <= k < |sent| ==> Deliverable(sent[k].frame))
            <==> forall i :: 0 <= i < |aus| ==> |AnnexB.Concat(aus[i])| <= MAX_PAYLOAD
  {
    hide UnitsInOrder, AnnexB.Concat;
    if forall i :: 0 <= i < |aus| ==> |AnnexB.Concat(aus[i])| <= MAX_PAYLOAD {
      forall k | 0 <= k < |sent| ensures Deliverable(sent[k].frame) {
        UnitIsDeliverable(info, aus, sent, k);
      }
    }
    if forall k :: 0 <= k < |sent| ==> Deliverable(sent[k].frame) {
      forall i | 0 <= i < |aus| ensures |AnnexB.Concat(aus[i])| <= MAX_PAYLOAD {
        FirstUnits(info, aus, sent, i);
      }
    }
  }
}
