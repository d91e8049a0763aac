/** The browser's bounded queue in front of the parser: it loses the oldest packet when full. */
module DataBufferQueue {
  import opened Wrappers

  datatype DataPacket<T> = DataPacket(data: T, timestamp: int, size: nat)

  datatype Stats = Stats(totalEnqueued: nat, totalDequeued: nat, totalOverflows: nat,
                         totalBytesEnqueued: nat, totalBytesDequeued: nat, totalBytesDropped: nat)

  const NO_STATS := Stats(0, 0, 0, 0, 0, 0)

  datatype Limits = Limits(maxSize: nat, maxBytes: nat)

  datatype Op<T> = Enqueue(packet: DataPacket<T>) | Dequeue

  // ----- histories -----

  /** The packets put in by a history. */
  function Entered<T>(ops: seq<Op<T>>): seq<DataPacket<T>> {
    if ops == [] then []
    else Entered(ops[..|ops| - 1]) + (if ops[|ops| - 1].Enqueue? then [ops[|ops| - 1].packet] else [])
  }

  function ByteTotal<T>(ps: seq<DataPacket<T>>): nat {
    if ps == [] then 0 else ByteTotal(ps[..|ps| - 1]) + ps[|ps| - 1].size
  }

  /** What a history leaves behind, told without a queue: how many packets have gone from the
      front, and which of the entered packets were handed out. */
  datatype Trace = Trace(gone: nat, handedOut: seq<nat>)

  ghost predicate OverLimit<T>(ps: seq<DataPacket<T>>, size: nat, limits: Limits) {
    |ps| >= limits.maxSize || ByteTotal(ps) + size > limits.maxBytes
  }

  ghost function TraceOf<T>(ops: seq<Op<T>>, limits: Limits): (t: Trace)
    ensures t.gone <= |Entered(ops)|
  {
    if ops == [] then Trace(0, [])
    else
      var before := TraceOf(ops[..|ops| - 1], limits);
      var waiting := Entered(ops[..|ops| - 1])[before.gone..];
      match ops[|ops| - 1]
      case Enqueue(p) =>
        if waiting != [] && OverLimit(waiting, p.size, limits) then before.(gone := before.gone + 1) else before
      case Dequeue =>
        if waiting != [] then Trace(before.gone + 1, before.handedOut + [before.gone]) else before
  }

  ghost function Waiting<T>(ops: seq<Op<T>>, limits: Limits): seq<DataPacket<T>> {
    Entered(ops)[TraceOf(ops, limits).gone..]
  }

  ghost predicate InOrder(t: Trace) {
    && (forall i :: 0 <= i < |t.handedOut| ==> t.handedOut[i] < t.gone)
    && (forall i, j :: 0 <= i < j < |t.handedOut| ==> t.handedOut[i] < t.handedOut[j])
  }

  /** Packets come out in the order they went in, none twice. */
  lemma {:induction false} HandedOutInOrder<T>(ops: seq<Op<T>>, limits: Limits)
    ensures InOrder(TraceOf(ops, limits))
  {
    if ops == [] {
    } else {
      HandedOutInOrder(ops[..|ops| - 1], limits);
      var before, after := TraceOf(ops[..|ops| - 1], limits), TraceOf(ops, limits);
      assert after.gone >= before.gone;
      if after.handedOut != before.handedOut {
        assert after == Trace(before.gone + 1, before.handedOut + [before.gone]);
      }
    }
  }

  /** The data of the packets handed out. */
  ghost function HandedOut<T>(ops: seq<Op<T>>, limits: Limits): (ds: seq<T>)
    ensures |ds| == |TraceOf(ops, limits).handedOut|
  {
    HandedOutInOrder(ops, limits);
    var t := TraceOf(ops, limits);
    seq(|t.handedOut|, i requires 0 <= i < |t.handedOut| => Entered(ops)[t.handedOut[i]].data)
  }

  /** The queue never outgrows its length limit. */
  lemma {:induction false} LengthBound<T>(ops: seq<Op<T>>, limits: Limits)
    requires limits.maxSize >= 1
    ensures |Waiting(ops, limits)| <= limits.maxSize
  {
    if ops == [] {
    } else {
      LengthBound(ops[..|ops| - 1], limits);
    }
  }

  lemma {:induction false} BytesConcat<T>(a: seq<DataPacket<T>>, b: seq<DataPacket<T>>)
    ensures ByteTotal(a + b) == ByteTotal(a) + ByteTotal(b)
  {
    if b == [] {
      assert a + b == a;
    } else {
      BytesConcat(a, b[..|b| - 1]);
      assert (a + b)[..|a + b| - 1] == a + b[..|b| - 1];
    }
  }

  lemma BytesOfHead<T>(ps: seq<DataPacket<T>>)
    requires ps != []
    ensures ByteTotal(ps) == ps[0].size + ByteTotal(ps[1..])
  {
    BytesConcat(ps[..1], ps[1..]);
    assert ps[..1] + ps[1..] == ps;
    assert ps[..1][..0] == [] && ByteTotal(ps[..1]) == ps[0].size;
  }

  /** Whether an enqueue respects the byte limit can be told beforehand: either the packet
      fits, or the one packet that is dropped for it makes enough room. */
  lemma ByteLimitAfterEnqueue<T>(ops: seq<Op<T>>, p: DataPacket<T>, limits: Limits)
    ensures var waiting := Waiting(ops, limits);
            ByteTotal(Waiting(ops + [Enqueue(p)], limits)) <= limits.maxBytes
            <==> if waiting != [] && OverLimit(waiting, p.size, limits)
                 then ByteTotal(waiting) - waiting[0].size + p.size <= limits.maxBytes
                 else ByteTotal(waiting) + p.size <= limits.maxBytes
  {
    var waiting := Waiting(ops, limits);
    WaitingAfterEnqueue(ops, p, limits);
    if waiting != [] && OverLimit(waiting, p.size, limits) {
      BytesOfHead(waiting);
    }
  }

  lemma WaitingAfterEnqueue<T>(ops: seq<Op<T>>, p: DataPacket<T>, limits: Limits)
    ensures var waiting := Waiting(ops, limits);
            var kept := if waiting != [] && OverLimit(waiting, p.size, limits) then waiting[1..] else waiting;
            && Waiting(ops + [Enqueue(p)], limits) == kept + [p]
            && ByteTotal(kept + [p]) == ByteTotal(kept) + p.size
  {
    var ops' := ops + [Enqueue(p)];
    assert ops'[..|ops'| - 1] == ops;
    var waiting := Waiting(ops, limits);
    var kept := if waiting != [] && OverLimit(waiting, p.size, limits) then waiting[1..] else waiting;
    assert (kept + [p])[..|kept|] == kept;
  }

  /** When a packet is dropped for a new one, and which: the oldest, if and only if as many packets wait
      as the queue may hold, or their bytes and those of the new one are more than it may hold. */
  lemma DropsExactly<T>(ops: seq<Op<T>>, p: DataPacket<T>, limits: Limits)
    ensures var waiting := Waiting(ops, limits);
            Waiting(ops + [Enqueue(p)], limits)
            == (if waiting != [] && (|waiting| >= limits.maxSize || ByteTotal(waiting) + p.size > limits.maxBytes)
                then waiting[1..] else waiting) + [p]
  {
    hide ByteTotal, Waiting;
    WaitingAfterEnqueue(ops, p, limits);
  }

  lemma WaitingAfterDequeue<T>(ops: seq<Op<T>>, limits: Limits)
    ensures var waiting := Waiting(ops, limits);
            Waiting(ops + [Dequeue], limits) == if waiting != [] then waiting[1..] else waiting
    ensures Entered(ops + [Dequeue]) == Entered(ops)
  {
    var ops' := ops + [Op<T>.Dequeue];
    assert ops'[..|ops'| - 1] == ops;
  }

  /** Enqueuing hands nothing out; dequeuing hands out the oldest packet waiting. */
  lemma HandedOutNext<T>(ops: seq<Op<T>>, p: DataPacket<T>, limits: Limits)
    ensures HandedOut(ops + [Enqueue(p)], limits) == HandedOut(ops, limits)
    ensures HandedOut(ops + [Dequeue], limits)
            == HandedOut(ops, limits) + (if Waiting(ops, limits) == [] then [] else [Waiting(ops, limits)[0].data])
    ensures Entered(ops + [Enqueue(p)]) == Entered(ops) + [p] && Entered(ops + [Dequeue]) == Entered(ops)
  {
    assert (ops + [Enqueue(p)])[..|ops|] == ops && (ops + [Op<T>.Dequeue])[..|ops|] == ops;
    HandedOutInOrder(ops, limits);
    var t := TraceOf(ops, limits);
    assert forall i :: 0 <= i < |t.handedOut| ==> (Entered(ops) + [p])[t.handedOut[i]] == Entered(ops)[t.handedOut[i]];
  }

  /** The bytes of the entered packets at these positions. */
  function SizesAt<T>(ps: seq<DataPacket<T>>, at: seq<nat>): nat {
    if at == [] then 0
    else SizesAt(ps, at[..|at| - 1]) + (if at[|at| - 1] < |ps| then ps[at[|at| - 1]].size else 0)
  }

  /** The bytes handed out. */
  ghost function BytesOut<T>(ops: seq<Op<T>>, limits: Limits): nat {
    SizesAt(Entered(ops), TraceOf(ops, limits).handedOut)
  }

  lemma {:induction false} SizesStay<T>(ps: seq<DataPacket<T>>, p: DataPacket<T>, at: seq<nat>)
    requires forall i :: 0 <= i < |at| ==> at[i] < |ps|
    ensures SizesAt(ps + [p], at) == SizesAt(ps, at)
  {
    if at != [] {
      SizesStay(ps, p, at[..|at| - 1]);
    }
  }

  lemma EnqueueHistory<T>(ops: seq<Op<T>>, p: DataPacket<T>, limits: Limits)
    ensures var t, waiting, ops' := TraceOf(ops, limits), Waiting(ops, limits), ops + [Enqueue(p)];
            && TraceOf(ops', limits)
               == (if waiting != [] && OverLimit(waiting, p.size, limits) then t.(gone := t.gone + 1) else t)
            && Entered(ops') == Entered(ops) + [p]
            && ByteTotal(Entered(ops')) == ByteTotal(Entered(ops)) + p.size
            && BytesOut(ops', limits) == BytesOut(ops, limits)
  {
    hide ByteTotal, OverLimit, SizesAt;
    assert (ops + [Enqueue(p)])[..|ops|] == ops;
    HandedOutInOrder(ops, limits);
    SizesStay(Entered(ops), p, TraceOf(ops, limits).handedOut);
    TotalNext(Entered(ops), p);
  }

  lemma TotalNext<T>(ps: seq<DataPacket<T>>, p: DataPacket<T>)
    ensures ByteTotal(ps + [p]) == ByteTotal(ps) + p.size
  {
    assert (ps + [p])[..|ps|] == ps;
  }

  lemma DequeueHistory<T>(ops: seq<Op<T>>, limits: Limits)
    ensures var t, waiting, ops' := TraceOf(ops, limits), Waiting(ops, limits), ops + [Op<T>.Dequeue];
            && TraceOf(ops', limits)
               == (if waiting != [] then Trace(t.gone + 1, t.handedOut + [t.gone]) else t)
            && Entered(ops') == Entered(ops)
            && BytesOut(ops', limits) == BytesOut(ops, limits) + (if waiting == [] then 0 else waiting[0].size)
  {
    hide ByteTotal, OverLimit;
    var t, ops' := TraceOf(ops, limits), ops + [Op<T>.Dequeue];
    assert ops'[..|ops|] == ops && ops'[|ops|] == Dequeue;
    assert (t.handedOut + [t.gone])[..|t.handedOut|] == t.handedOut;
  }

  /** The queue law: what waits and every figure follows from the history. */
  ghost predicate Law<T>(queue: seq<DataPacket<T>>, currentBytes: int, stats: Stats, ops: seq<Op<T>>, limits: Limits) {
    && queue == Waiting(ops, limits) && currentBytes == ByteTotal(queue)
    && stats.totalEnqueued == |Entered(ops)|
    && stats.totalDequeued == |TraceOf(ops, limits).handedOut|
    && stats.totalDequeued + stats.totalOverflows == TraceOf(ops, limits).gone
    && stats.totalBytesEnqueued == ByteTotal(Entered(ops))
    && stats.totalBytesDequeued == BytesOut(ops, limits)
    && stats.totalBytesEnqueued == stats.totalBytesDequeued + stats.totalBytesDropped + currentBytes
  }

  /** One packet is dropped for a new one even when that does not make enough room. */
  lemma ByteLimitCanBeExceeded()
    ensures var ops := [Enqueue(DataPacket(0, 0, 5)), Enqueue(DataPacket(1, 0, 5)), Enqueue(DataPacket(2, 0, 9))];
            ByteTotal(Waiting(ops, Limits(100, 10))) == 14
  {
    var a, b, c := DataPacket(0, 0, 5), DataPacket(1, 0, 5), DataPacket(2, 0, 9);
    var limits := Limits(100, 10);
    assert Waiting<int>([], limits) == [];
    WaitingAfterEnqueue([], a, limits);
    assert [] + [Enqueue(a)] == [Enqueue(a)];
    assert Waiting([Enqueue(a)], limits) == [a];
    WaitingAfterEnqueue([Enqueue(a)], b, limits);
    assert [Enqueue(a)] + [Enqueue(b)] == [Enqueue(a), Enqueue(b)];
    assert Waiting([Enqueue(a), Enqueue(b)], limits) == [a, b];
    BytesOfHead([a, b]);
    assert [a, b][1..] == [b];
    WaitingAfterEnqueue([Enqueue(a), Enqueue(b)], c, limits);
    assert [Enqueue(a), Enqueue(b)] + [Enqueue(c)] == [Enqueue(a), Enqueue(b), Enqueue(c)];
  }

  // ----- the class -----

  class Queue<T> {
    const limits: Limits
    var queue: seq<DataPacket<T>>
    var currentBytes: int
    var stats: Stats
    /** Every call so far, `clear` aside. */
    ghost var history: seq<Op<T>>

    ghost predicate Valid()
      reads this
    {
      limits.maxSize >= 1 && Law(queue, currentBytes, stats, history, limits)
    }

    /** A limit of zero means the default. */
    constructor (maxSize: nat, maxBytes: nat)
      ensures Valid() && history == []
      ensures limits == Limits(if maxSize == 0 then 100 else maxSize,
                              if maxBytes == 0 then 10 * 1024 * 1024 else maxBytes)
    {
      limits := Limits(if maxSize == 0 then 100 else maxSize, if maxBytes == 0 then 10 * 1024 * 1024 else maxBytes);
      queue, currentBytes, stats, history := [], 0, NO_STATS, [];
    }

    method Push(data: T, size: nat, now: int) returns (ok: bool)
      requires Valid()
      modifies this
      ensures Valid() && ok
      ensures history == old(history) + [Enqueue(DataPacket(data, now, size))]
      ensures queue == (if old(queue) != [] && OverLimit(old(queue), size, limits) then old(queue)[1..] else old(queue))
                       + [DataPacket(data, now, size)]
    {
      hide Entered, TraceOf, Waiting, ByteTotal, BytesOut;
      ghost var ops := history;
      var packet := DataPacket(data, now, size);
      EnqueueHistory(ops, packet, limits);
      WaitingAfterEnqueue(ops, packet, limits);
      if |queue| >= limits.maxSize || currentBytes + size > limits.maxBytes {
        if |queue| > 0 {
          BytesOfHead(queue);
          var droppedSize := queue[0].size;
          queue := queue[1..];
          currentBytes := currentBytes - droppedSize;
          stats := stats.(totalOverflows := stats.totalOverflows + 1,
                          totalBytesDropped := stats.totalBytesDropped + droppedSize);
        }
      }
      queue := queue + [packet];
      currentBytes := currentBytes + size;
      stats := stats.(totalEnqueued := stats.totalEnqueued + 1,
                      totalBytesEnqueued := stats.totalBytesEnqueued + size);
      history := ops + [Enqueue(packet)];
      ok := true;
    }

    method Pop() returns (r: Option<DataPacket<T>>)
      requires Valid()
      modifies this
      ensures Valid()
      ensures history == old(history) + [Dequeue]
      ensures r == (if old(queue) == [] then None else Some(old(queue)[0]))
      ensures queue == (if old(queue) == [] then [] else old(queue)[1..])
      ensures r.Some? ==> TraceOf(history, limits).gone == old(TraceOf(history, limits)).gone + 1
                          && r.value == Entered(history)[old(TraceOf(history, limits)).gone]
    {
      hide Entered, TraceOf, ByteTotal, BytesOut;
      ghost var ops := history;
      DequeueHistory(ops, limits);
      WaitingAfterDequeue(ops, limits);
      if |queue| == 0 {
        r := None;
      } else {
        BytesOfHead(queue);
        var packet := queue[0];
        queue := queue[1..];
        currentBytes := currentBytes - packet.size;
        stats := stats.(totalDequeued := stats.totalDequeued + 1,
                        totalBytesDequeued := stats.totalBytesDequeued + packet.size);
        r := Some(packet);
      }
      history := ops + [Dequeue];
    }
  }
}
