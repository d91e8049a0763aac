/** The queue in front of the parser: it may lose messages, but it keeps their order, and what the
    parser then delivers is still intact. */
module QueuedDelivery {
  import opened Bytes
  import opened FrameFormat
  import opened FrameEncoder
  import opened Reassembly
  import opened Delivery
  import opened LossyStream
  import Q = DataBufferQueue
  import FrameParser

  // ----- what the queue does to a stream -----

  ghost predicate EntersOnlySent(frames: Frames, ops: seq<Q.Op<Packet>>) {
    forall i :: 0 <= i < |Q.Entered(ops)| ==> Sent(frames, Q.Entered(ops)[i].data)
  }

  /** Server, lossy queue, parser, any order of entry: for any history of the queue, every frame the
      parser completes is one the server sent under that id. */
  lemma QueueNeverCorrupts(frames: Frames, ops: seq<Q.Op<Packet>>, limits: Q.Limits, victims: seq<uint16>, i: nat)
    requires EntersOnlySent(frames, ops)
    requires forall id :: id in frames ==> |frames[id].payload| <= 65535 * FRAGMENT_THRESHOLD
    requires |victims| == |Q.HandedOut(ops, limits)| && i < |victims|
    ensures AllSent(frames, Q.HandedOut(ops, limits))
    ensures var ps := Q.HandedOut(ops, limits);
            var o := Run(map[], DecodeAll(Datagrams(frames, ps)), victims).outcomes[i];
            o.Complete? ==> o.frame == Expected(frames[ps[i].id])
  {
    Q.HandedOutInOrder(ops, limits);
    DeliveredFramesAreIntact(frames, Q.HandedOut(ops, limits), victims, i);
  }

  // ----- a stream in order -----

  /** The packets are the first messages of a stream, as these tags tell it. */
  ghost predicate CarriesStream(ss: seq<Sending>, tags: seq<Tag>, ps: seq<Q.DataPacket<Datagram>>) {
    && AllInStream(ss, tags) && |ps| <= |tags|
    && forall i :: 0 <= i < |ps| ==> ps[i].data == SurvivorDatagrams(ss, tags)[i]
  }

  /** The tags of what a history has handed out. */
  ghost function Passed(tags: seq<Tag>, ops: seq<Q.Op<Datagram>>, limits: Q.Limits): (sub: seq<Tag>)
    requires |Q.Entered(ops)| <= |tags|
    ensures |sub| == |Q.HandedOut(ops, limits)|
  {
    Q.HandedOutInOrder(ops, limits);
    var t := Q.TraceOf(ops, limits);
    seq(|t.handedOut|, i requires 0 <= i < |t.handedOut| => tags[t.handedOut[i]])
  }

  /** What goes in in order comes out in order, byte for byte. */
  lemma QueueKeepsOrder(ss: seq<Sending>, tags: seq<Tag>, ops: seq<Q.Op<Datagram>>, limits: Q.Limits)
    requires CarriesStream(ss, tags, Q.Entered(ops)) && Ordered(tags)
    ensures var sub := Passed(tags, ops, limits);
            AllInStream(ss, sub) && Ordered(sub) && Q.HandedOut(ops, limits) == SurvivorDatagrams(ss, sub)
  {
    hide Q.Entered, Q.TraceOf, Before, InStream, DatagramOf;
    Q.HandedOutInOrder(ops, limits);
  }

  /** A stream whose ids repeat, received in order through the queue, which drops what it has no
      room for: as long as no id is used again after one of its fragments was dropped, exactly the
      frames all of whose messages were handed out are delivered, and they are as they were sent. */
  lemma QueueDeliversInOrder(ss: seq<Sending>, tags: seq<Tag>, ops: seq<Q.Op<Datagram>>, limits: Q.Limits,
                             victims: seq<uint16>)
    requires CarriesStream(ss, tags, Q.Entered(ops)) && Ordered(tags)
    requires NoReuseAfterLoss(ss, Passed(tags, ops, limits)) && |victims| == |Q.HandedOut(ops, limits)|
    ensures OutcomesOf(ss, Passed(tags, ops, limits), Run(map[], DecodeAll(Q.HandedOut(ops, limits)), victims).outcomes)
  {
    hide Run, DecodeAll, OutcomesOf, NoReuseAfterLoss, AllInStream, Ordered, Q.Entered, Q.HandedOut, Passed;
    QueueKeepsOrder(ss, tags, ops, limits);
    OrderedLossyStream(ss, Passed(tags, ops, limits), victims);
  }

  // ----- emptying the queue while packets keep coming -----

  datatype Arrival = Arrival(data: Datagram, size: nat, now: int)

  function PacketsOf(batch: seq<Arrival>): (ps: seq<Q.DataPacket<Datagram>>)
    ensures |ps| == |batch|
  {
    seq(|batch|, i requires 0 <= i < |batch| => Q.DataPacket(batch[i].data, batch[i].now, batch[i].size))
  }

  /** The packets of the first n batches. */
  function ArrivedIn(batches: seq<seq<Arrival>>, n: nat): seq<Q.DataPacket<Datagram>>
    requires n <= |batches|
  {
    if n == 0 then [] else ArrivedIn(batches, n - 1) + PacketsOf(batches[n - 1])
  }

  /** Packets that come in while the decoder is waited for. */
  method EnqueueAll(queue: Q.Queue<Datagram>, batch: seq<Arrival>)
    requires queue.Valid()
    modifies queue
    ensures queue.Valid()
    ensures Q.HandedOut(queue.history, queue.limits) == Q.HandedOut(old(queue.history), queue.limits)
    ensures Q.Entered(queue.history) == Q.Entered(old(queue.history)) + PacketsOf(batch)
  {
    hide Q.Entered, Q.HandedOut, Q.TraceOf, Q.Waiting, Q.ByteTotal, Q.OverLimit;
    var i := 0;
    while i < |batch|
      invariant 0 <= i <= |batch| && queue.Valid()
      invariant Q.HandedOut(queue.history, queue.limits) == Q.HandedOut(old(queue.history), queue.limits)
      invariant Q.Entered(queue.history) == Q.Entered(old(queue.history)) + PacketsOf(batch)[..i]
    {
      ghost var ops := queue.history;
      var ok := queue.Push(batch[i].data, batch[i].size, batch[i].now);
      Q.HandedOutNext(ops, PacketsOf(batch)[i], queue.limits);
      i := i + 1;
    }
    assert PacketsOf(batch)[..i] == PacketsOf(batch);
  }

  /** One packet is taken; while it is decoded others come in. */
  method TakeOne(queue: Q.Queue<Datagram>, batch: seq<Arrival>) returns (d: Datagram)
    requires queue.Valid() && queue.queue != []
    modifies queue
    ensures queue.Valid() && (batch == [] ==> |queue.queue| < |old(queue.queue)|)
    ensures Q.HandedOut(queue.history, queue.limits) == Q.HandedOut(old(queue.history), queue.limits) + [d]
    ensures Q.Entered(queue.history) == Q.Entered(old(queue.history)) + PacketsOf(batch)
  {
    hide Q.Entered, Q.HandedOut, Q.TraceOf, Q.Waiting, Q.ByteTotal, Q.OverLimit;
    ghost var ops := queue.history;
    var packet := queue.Pop();
    Q.HandedOutNext(ops, packet.value, queue.limits);
    d := packet.value.data;
    if |batch| > 0 {
      EnqueueAll(queue, batch);
    }
  }

  ghost predicate Progress(queue: Q.Queue<Datagram>, before: seq<Q.Op<Datagram>>, batches: seq<seq<Arrival>>, used: nat,
                           taken: seq<Datagram>)
    requires used <= |batches|
    reads queue
  {
    && queue.Valid()
    && Q.Entered(queue.history) == Q.Entered(before) + ArrivedIn(batches, used)
    && Q.HandedOut(queue.history, queue.limits) == Q.HandedOut(before, queue.limits) + taken
  }

  /** One packet is taken and, while it is decoded, the next batch comes in if there is one. */
  method TakeNext(queue: Q.Queue<Datagram>, ghost before: seq<Q.Op<Datagram>>, batches: seq<seq<Arrival>>, used: nat,
                  ghost taken: seq<Datagram>)
    returns (d: Datagram, used': nat)
    requires used <= |batches| && Progress(queue, before, batches, used, taken) && queue.queue != []
    modifies queue
    ensures used <= used' <= |batches| && Progress(queue, before, batches, used', taken + [d])
    ensures used' == used ==> |queue.queue| < |old(queue.queue)|
  {
    hide Q.Entered, Q.HandedOut, Q.TraceOf, Q.Waiting, Q.ByteTotal, Q.OverLimit, PacketsOf;
    if used < |batches| {
      d := TakeOne(queue, batches[used]);
      used' := used + 1;
    } else {
      NoPackets();
      d := TakeOne(queue, []);
      used' := used;
    }
  }

  lemma NoPackets()
    ensures PacketsOf([]) == []
  {
  }

  /** processQueue: takes packets from the queue, one by one, until it is empty, and awaits each
      before the next; meanwhile others come in (`batches`, one for each wait) and may push out
      waiting ones. The parser sees exactly what the queue hands out, in that order. */
  method ProcessQueue(queue: Q.Queue<Datagram>, parser: FrameParser.Parser, batches: seq<seq<Arrival>>)
    returns (outcomes: seq<Outcome>, used: nat, ghost victims: seq<uint16>, ghost taken: seq<Datagram>)
    requires queue.Valid() && parser.Valid()
    modifies queue, parser.slots
    ensures queue.queue == [] && parser.Valid() && used <= |batches|
    ensures Progress(queue, old(queue.history), batches, used, taken)
    ensures |victims| == |taken|
    ensures RunResult(parser.Contents(), outcomes) == Run(old(parser.Contents()), DecodeAll(taken), victims)
  {
    hide Decode, Step, Run, DecodeAll, Q.ByteTotal, Q.Entered, Q.HandedOut, Q.TraceOf, Q.Waiting, FrameParser.TableOf;
    outcomes, used, victims, taken := [], 0, [], [];
    ghost var start := parser.Contents();
    RunNothing(start);
    DecodeNone();
    while |queue.queue| > 0
      invariant used <= |batches| && Progress(queue, old(queue.history), batches, used, taken)
      invariant parser.Valid() && |victims| == |taken|
      invariant RunResult(parser.Contents(), outcomes) == Run(start, DecodeAll(taken), victims)
      decreases |batches| - used, |queue.queue|
    {
      var d;
      d, used := TakeNext(queue, old(queue.history), batches, used, taken);
      ghost var victim := parser.slots[0].frameId;
      var r := parser.Parse(d);
      RunAppend(start, DecodeAll(taken), victims, Decode(d), victim);
      DecodeOneMore(taken, d);
      outcomes, victims, taken := outcomes + [r], victims + [victim], taken + [d];
    }
  }

  lemma {:induction false} ArrivedFirst(batches: seq<seq<Arrival>>, n: nat, m: nat)
    requires n <= m <= |batches|
    ensures ArrivedIn(batches, n) <= ArrivedIn(batches, m)
    decreases m - n
  {
    if n < m {
      ArrivedFirst(batches, n, m - 1);
    }
  }

  lemma CarriesFirst(ss: seq<Sending>, tags: seq<Tag>, ps: seq<Q.DataPacket<Datagram>>, qs: seq<Q.DataPacket<Datagram>>)
    requires CarriesStream(ss, tags, qs) && ps <= qs
    ensures CarriesStream(ss, tags, ps) && |ps| <= |tags|
  {
    hide AllInStream, SurvivorDatagrams;
  }

  /** The parser has so far been given what the queue has handed out. */
  ghost predicate Consumed(queue: Q.Queue<Datagram>, parser: FrameParser.Parser, outcomes: seq<Outcome>,
                           victims: seq<uint16>)
    reads queue, parser, parser.slots
  {
    && queue.Valid() && parser.Valid()
    && |victims| == |Q.HandedOut(queue.history, queue.limits)|
    && RunResult(parser.Contents(), outcomes)
       == Run(map[], DecodeAll(Q.HandedOut(queue.history, queue.limits)), victims)
  }

  /** Queue and parser together, from the start and over any number of calls of processQueue: a
      stream that comes in in order gives, all calls together, the outcomes that the packets handed
      out call for. `past` and `pastVictims` are the calls before. */
  method ReceiveQueued(queue: Q.Queue<Datagram>, parser: FrameParser.Parser, batches: seq<seq<Arrival>>,
                       ghost ss: seq<Sending>, ghost tags: seq<Tag>,
                       ghost past: seq<Outcome>, ghost pastVictims: seq<uint16>)
    returns (outcomes: seq<Outcome>, used: nat, ghost victims: seq<uint16>)
    requires Consumed(queue, parser, past, pastVictims)
    requires CarriesStream(ss, tags, Q.Entered(queue.history) + ArrivedIn(batches, |batches|)) && Ordered(tags)
    modifies queue, parser.slots
    ensures queue.queue == [] && Consumed(queue, parser, past + outcomes, pastVictims + victims)
    ensures used <= |batches|
    ensures Q.Entered(queue.history) == Q.Entered(old(queue.history)) + ArrivedIn(batches, used)
    ensures CarriesStream(ss, tags, Q.Entered(queue.history))
    ensures NoReuseAfterLoss(ss, Passed(tags, queue.history, queue.limits))
            ==> OutcomesOf(ss, Passed(tags, queue.history, queue.limits), past + outcomes)
  {
    hide Decode, Step, Run, DecodeAll, Q.ByteTotal, Q.Entered, Q.HandedOut, Q.TraceOf, Q.Waiting, FrameParser.TableOf,
         OutcomesOf, NoReuseAfterLoss, Ordered, CarriesStream, Passed;
    ghost var before := Q.HandedOut(queue.history, queue.limits);
    ghost var entered := Q.Entered(queue.history);
    ghost var t := parser.Contents();
    ghost var taken;
    outcomes, used, victims, taken := ProcessQueue(queue, parser, batches);
    RunConcat(map[], DecodeAll(before), DecodeAll(taken), pastVictims, victims);
    DecodeConcat(before, taken);
    assert RunResult(t, past) == Run(map[], DecodeAll(before), pastVictims);
    ArrivedFirst(batches, used, |batches|);
    CarriesFirst(ss, tags, Q.Entered(queue.history), entered + ArrivedIn(batches, |batches|));
    if NoReuseAfterLoss(ss, Passed(tags, queue.history, queue.limits)) {
      QueueDeliversInOrder(ss, tags, queue.history, queue.limits, pastVictims + victims);
    }
  }

  lemma DecodeConcat(a: seq<Datagram>, b: seq<Datagram>)
    ensures DecodeAll(a + b) == DecodeAll(a) + DecodeAll(b)
  {
    hide Decode;
  }

  lemma DecodeNone()
    ensures DecodeAll([]) == []
  {
  }

  lemma DecodeOneMore(ds: seq<Datagram>, d: Datagram)
    ensures DecodeAll(ds + [d]) == DecodeAll(ds) + [Decode(d)]
  {
  }
}
