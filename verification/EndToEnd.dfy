/** The delivery theorems for the parser itself, from the bytes of the encoder to its results. */
module EndToEnd {
  import opened Bytes
  import opened FrameFormat
  import opened FrameEncoder
  import opened Reassembly
  import opened Delivery
  import opened FrameDelivery
  import opened LossyStream
  import opened StreamDelivery
  import FrameParser

  /** A parser with an empty table, fed every message of a set of frames once, in any order with at
      most sixteen frames open. */
  method ReceiveEachOnce(parser: FrameParser.Parser, ds: seq<Datagram>, ghost frames: Frames, ghost ps: seq<Packet>)
    returns (outcomes: seq<Outcome>)
    requires parser.Valid() && parser.Contents() == map[]
    requires AllDeliverable(frames) && AllSent(frames, ps) && NoRepeats(ps) && AllArrive(frames, ps)
    requires AtMostSixteenOpen(frames, ps)
    requires ds == Datagrams(frames, ps)
    modifies parser.slots
    ensures parser.Valid() && parser.Contents() == map[]
    ensures CompleteWithLast(frames, ps, outcomes)
  {
    hide Run, Decode, Datagrams, CompleteWithLast;
    ghost var victims;
    outcomes, victims := parser.ParseAll(ds);
    EveryFrameExactlyOnce(frames, ps, victims);
  }

  /** A fresh parser, fed whatever a faulty channel leaves of the messages. */
  method ReceiveAnything(ds: seq<Datagram>, ghost frames: Frames, ghost ps: seq<Packet>)
    returns (outcomes: seq<Outcome>)
    requires AllSent(frames, ps) && ds == Datagrams(frames, ps)
    ensures AllFaithful(frames, ps, outcomes)
  {
    hide Run, Decode, Datagrams, AllFaithful;
    var parser := new FrameParser.Parser();
    ghost var victims;
    outcomes, victims := parser.ParseAll(ds);
    MessagesAreDecoded(frames, ps);
    NoCorruption(frames, ps, victims);
  }

  /** A fresh parser behind an ordered channel that loses messages, with ids that repeat. */
  method ReceiveInOrder(ds: seq<Datagram>, ghost ss: seq<Sending>, ghost ps: seq<Tag>) returns (outcomes: seq<Outcome>)
    requires AllInStream(ss, ps) && Ordered(ps) && NoReuseAfterLoss(ss, ps) && ds == SurvivorDatagrams(ss, ps)
    ensures OutcomesOf(ss, ps, outcomes)
  {
    hide Run, Decode, SurvivorDatagrams, OutcomesOf, NoReuseAfterLoss;
    var parser := new FrameParser.Parser();
    ghost var victims;
    outcomes, victims := parser.ParseAll(ds);
    OrderedLossyStream(ss, ps, victims);
  }

  method Encode(f: MediaFrame, frameId: uint16) returns (frames: seq<bytes>)
    ensures frames == Wire(f, frameId)
  {
    match f
    case Video(codec, frameType, timestamp, absTime, payload) =>
      frames := EncodeVideoFrame(payload, codec, frameType, timestamp, absTime, frameId);
    case Audio(codec, rate, channels, timestamp, absTime, payload) =>
      frames := EncodeAudioFrame(payload, codec, rate, channels, timestamp, absTime, frameId);
  }

  /** Encoder to parser, whatever the parser has been through: one frame, sent in order. It is sure
      to come out as sent if it fits 4 MiB and any rest under its id agrees with it. */
  method SendAndReceive(parser: FrameParser.Parser, f: MediaFrame, frameId: uint16)
    returns (outcomes: seq<Outcome>, ghost victims: seq<uint16>)
    requires parser.Valid()
    modifies parser.slots
    ensures parser.Valid()
    ensures |victims| == MessageCount(f) && (victims != [] ==> RealVictim(old(parser.Contents()), victims[0]))
    ensures RunResult(parser.Contents(), outcomes) == Run(old(parser.Contents()), FrameMessages(f, frameId), victims)
    ensures Delivered(outcomes) == [Expected(f)] <==> ComesOut(old(parser.Contents()), f, frameId)
    ensures Deliverable(f) && (Fragmented(f.payload) && frameId in old(parser.Contents())
                               ==> Harmless(old(parser.Contents())[frameId], f))
            ==> Delivered(outcomes) == [Expected(f)]
  {
    hide Run, Decode, Wire, FrameDatagrams, FrameMessages, Delivered, ComesOut, Harmless, Deliverable, TableOk,
         RealVictims, RealVictim, FrameParser.TableOf;
    ghost var t := parser.Contents();
    var ms := Encode(f, frameId);
    FrameMessagesAreTheWire(f, frameId);
    var ds: seq<Datagram> := ms;
    outcomes, victims := parser.ParseAll(ds);
    if victims != [] {
      FirstRealVictim(t, FrameMessages(f, frameId), victims);
    }
    DeliveredExactly(t, f, frameId, victims);
    if Deliverable(f) && (Fragmented(f.payload) && frameId in t ==> Harmless(t[frameId], f)) {
      HarmlessComesOut(t, f, frameId);
    }
  }

  /** Encoder to parser, frame after frame under any ids, whatever the parser has been through. */
  method SendStream(parser: FrameParser.Parser, fs: seq<MediaFrame>, ids: seq<uint16>)
    returns (outcomes: seq<Outcome>, ghost vs: seq<seq<uint16>>)
    requires parser.Valid() && |fs| == |ids|
    modifies parser.slots
    ensures parser.Valid() && StreamOk(old(parser.Contents()), fs, ids, vs)
    ensures RunResult(parser.Contents(), outcomes) == StreamRun(old(parser.Contents()), fs, ids, vs, |fs|)
    ensures Delivered(outcomes) == ExpectedAll(fs, |fs|) <==> GoodUpTo(old(parser.Contents()), fs, ids, vs, |fs|)
  {
    hide Run, FrameMessages, Delivered, TableOk, RealVictim, FrameParser.TableOf, StreamRun, GoodUpTo,
         ComesOut, Harmless, Deliverable;
    ghost var t := parser.Contents();
    FrameParser.SlotsGiveTable(parser.slots[..]);
    outcomes, vs := [], [];
    EmptyStream(t);
    var i := 0;
    while i < |fs|
      invariant 0 <= i <= |fs| && parser.Valid()
      invariant StreamOk(t, fs[..i], ids[..i], vs)
      invariant |vs| == i && RunResult(parser.Contents(), outcomes) == StreamRun(t, fs[..i], ids[..i], vs, i)
    {
      ghost var victims;
      var more;
      more, victims := SendAndReceive(parser, fs[i], ids[i]);
      StreamExtended(t, fs[..i], ids[..i], vs, fs[i], ids[i], victims);
      assert fs[..i] + [fs[i]] == fs[..i + 1] && ids[..i] + [ids[i]] == ids[..i + 1];
      outcomes, vs := outcomes + more, vs + [victims];
      i := i + 1;
    }
    assert fs[..i] == fs && ids[..i] == ids;
    StreamFromAnyTable(t, fs, ids, vs, |fs|);
  }
}
