/** Streams: one frame after another over an ordered, lossless channel. */
module StreamDelivery {
  import opened Bytes
  import opened FrameFormat
  import opened FrameEncoder
  import opened Reassembly
  import opened Delivery
  import opened FrameDelivery

  /** The messages of the first n frames. */
  function StreamMessages(fs: seq<MediaFrame>, ids: seq<uint16>, n: nat): seq<Message>
    requires n <= |fs| == |ids|
  {
    if n == 0 then [] else StreamMessages(fs, ids, n - 1) + FrameMessages(fs[n - 1], ids[n - 1])
  }

  function ExpectedAll(fs: seq<MediaFrame>, n: nat): (es: seq<ParsedFrame>)
    requires n <= |fs|
    ensures |es| == n
  {
    if n == 0 then [] else ExpectedAll(fs, n - 1) + [Expected(fs[n - 1])]
  }

  /** What arrives of the first n frames. */
  function ArrivingAll(fs: seq<MediaFrame>, n: nat): (es: seq<ParsedFrame>)
    requires n <= |fs|
    ensures |es| <= n
  {
    if n == 0 then [] else ArrivingAll(fs, n - 1) + Arriving(fs[n - 1])
  }

  lemma FromEmptyTable(g: MediaFrame, id: uint16, victims: seq<uint16>)
    requires |victims| == MessageCount(g)
    ensures var r := Run(map[], FrameMessages(g, id), victims);
            (r.table, Delivered(r.outcomes)) == (map[], Arriving(g))
  {
    hide Run, Delivered, FrameMessages;
    if Accepted(g) {
      FreshFrame(map[], g, id, victims);
    } else {
      UnfiledFrame(map[], g, id, victims);
    }
  }

  /** A run of any number of frames of any size under any ids, so also when a sixteen-bit counter
      wraps: exactly what the client gets. The table is empty after each frame. */
  lemma {:induction false} OrderedStream(fs: seq<MediaFrame>, ids: seq<uint16>, n: nat, victims: seq<uint16>)
    requires n <= |fs| == |ids|
    requires |victims| == |StreamMessages(fs, ids, n)|
    ensures var r := Run(map[], StreamMessages(fs, ids, n), victims);
            (r.table, Delivered(r.outcomes)) == (map[], ArrivingAll(fs, n))
  {
    hide Run, Delivered, FrameMessages, Arriving;
    if n == 0 {
      RunNothing(map[]);
      DeliveredNothing();
    } else {
      var a, b := StreamMessages(fs, ids, n - 1), FrameMessages(fs[n - 1], ids[n - 1]);
      var va, vb := victims[..|a|], victims[|a|..];
      OrderedStream(fs, ids, n - 1, va);
      FromEmptyTable(fs[n - 1], ids[n - 1], vb);
      RunsCompose(a, b, va, vb);
      assert va + vb == victims;
    }
  }

  /** The client gets all frames if and only if each is at most 4 MiB. */
  lemma {:induction false} AllArriveExactly(fs: seq<MediaFrame>, n: nat)
    requires n <= |fs|
    ensures ArrivingAll(fs, n) == ExpectedAll(fs, n) <==> forall i :: 0 <= i < n ==> Deliverable(fs[i])
  {
    hide Arriving, Expected, Deliverable;
    if n == 0 {
    } else {
      AllArriveExactly(fs, n - 1);
      ArrivingExactly(fs[n - 1]);
      LastArrives(ArrivingAll(fs, n - 1), ExpectedAll(fs, n - 1), Arriving(fs[n - 1]), Expected(fs[n - 1]));
    }
  }

  lemma LastArrives(a: seq<ParsedFrame>, b: seq<ParsedFrame>, last: seq<ParsedFrame>, e: ParsedFrame)
    requires |a| <= |b| && |last| <= 1
    ensures a + last == b + [e] <==> a == b && last == [e]
  {
    if a + last == b + [e] {
      assert a == (a + last)[..|b|] && b == (b + [e])[..|b|];
      assert last == (a + last)[|b|..] && [e] == (b + [e])[|b|..];
    }
  }

  /** Whether the client's frames are the server's. */
  lemma {:induction false} StreamExactly(fs: seq<MediaFrame>, ids: seq<uint16>, victims: seq<uint16>)
    requires |fs| == |ids| && |victims| == |StreamMessages(fs, ids, |fs|)|
    ensures Delivered(Run(map[], StreamMessages(fs, ids, |fs|), victims).outcomes) == ExpectedAll(fs, |fs|)
            <==> forall i :: 0 <= i < |fs| ==> Deliverable(fs[i])
  {
    hide Run, Delivered, StreamMessages, Deliverable;
    OrderedStream(fs, ids, |fs|, victims);
    AllArriveExactly(fs, |fs|);
  }

  // ----- from any table -----

  /** The stream's run, frame by frame; vs[i] are the victims of frame i. */
  ghost function StreamRun(t: Table, fs: seq<MediaFrame>, ids: seq<uint16>, vs: seq<seq<uint16>>, n: nat): RunResult
    requires n <= |fs| == |ids| == |vs| && forall i :: 0 <= i < |fs| ==> |vs[i]| == MessageCount(fs[i])
  {
    if n == 0 then RunResult(t, [])
    else
      var before := StreamRun(t, fs, ids, vs, n - 1);
      var r := Run(before.table, FrameMessages(fs[n - 1], ids[n - 1]), vs[n - 1]);
      RunResult(r.table, before.outcomes + r.outcomes)
  }

  function Flat(vs: seq<seq<uint16>>, n: nat): seq<uint16>
    requires n <= |vs|
  {
    if n == 0 then [] else Flat(vs, n - 1) + vs[n - 1]
  }

  lemma {:induction false} StreamRunIsRun(t: Table, fs: seq<MediaFrame>, ids: seq<uint16>, vs: seq<seq<uint16>>, n: nat)
    requires n <= |fs| == |ids| == |vs| && forall i :: 0 <= i < |fs| ==> |vs[i]| == MessageCount(fs[i])
    ensures |Flat(vs, n)| == |StreamMessages(fs, ids, n)|
    ensures StreamRun(t, fs, ids, vs, n) == Run(t, StreamMessages(fs, ids, n), Flat(vs, n))
  {
    hide Run, FrameMessages;
    if n == 0 {
      RunNothing(t);
    } else {
      StreamRunIsRun(t, fs, ids, vs, n - 1);
      RunConcat(t, StreamMessages(fs, ids, n - 1), FrameMessages(fs[n - 1], ids[n - 1]), Flat(vs, n - 1), vs[n - 1]);
    }
  }

  ghost predicate StreamOk(t: Table, fs: seq<MediaFrame>, ids: seq<uint16>, vs: seq<seq<uint16>>) {
    && |fs| == |ids| == |vs|
    && (forall i :: 0 <= i < |fs| ==> |vs[i]| == MessageCount(fs[i]))
    && forall i :: 0 <= i < |fs| && vs[i] != [] ==> RealVictim(StreamRun(t, fs, ids, vs, i).table, vs[i][0])
  }

  lemma StreamRunNext(t: Table, fs: seq<MediaFrame>, ids: seq<uint16>, vs: seq<seq<uint16>>, n: nat)
    requires StreamOk(t, fs, ids, vs) && 0 < n <= |fs|
    ensures |vs[n - 1]| == MessageCount(fs[n - 1])
    ensures var before := StreamRun(t, fs, ids, vs, n - 1);
            var r := Run(before.table, FrameMessages(fs[n - 1], ids[n - 1]), vs[n - 1]);
            && StreamRun(t, fs, ids, vs, n) == RunResult(r.table, before.outcomes + r.outcomes)
            && (vs[n - 1] != [] ==> RealVictim(before.table, vs[n - 1][0]))
  {
    hide Run, FrameMessages;
  }

  lemma EmptyStream(t: Table)
    ensures StreamOk(t, [], [], []) && StreamRun(t, [], [], [], 0) == RunResult(t, [])
  {
  }

  lemma {:induction false} StreamRunPrefix(t: Table, fs: seq<MediaFrame>, ids: seq<uint16>, vs: seq<seq<uint16>>,
                                           g: MediaFrame, id: uint16, v: seq<uint16>, n: nat)
    requires n <= |fs| == |ids| == |vs| && forall i :: 0 <= i < |fs| ==> |vs[i]| == MessageCount(fs[i])
    requires |v| == MessageCount(g)
    ensures StreamRun(t, fs + [g], ids + [id], vs + [v], n) == StreamRun(t, fs, ids, vs, n)
  {
    hide Run, FrameMessages;
    if n == 0 {
    } else {
      StreamRunPrefix(t, fs, ids, vs, g, id, v, n - 1);
    }
  }

  lemma StreamExtendedOk(t: Table, fs: seq<MediaFrame>, ids: seq<uint16>, vs: seq<seq<uint16>>,
                         g: MediaFrame, id: uint16, v: seq<uint16>)
    requires StreamOk(t, fs, ids, vs) && |v| == MessageCount(g)
    requires v != [] ==> RealVictim(StreamRun(t, fs, ids, vs, |fs|).table, v[0])
    ensures StreamOk(t, fs + [g], ids + [id], vs + [v])
  {
    hide StreamRun, RealVictim, MessageCount;
    var fs', ids', vs' := fs + [g], ids + [id], vs + [v];
    assert forall i :: 0 <= i < |fs'| ==> |vs'[i]| == MessageCount(fs'[i]);
    forall i | 0 <= i < |fs'| && vs'[i] != [] ensures RealVictim(StreamRun(t, fs', ids', vs', i).table, vs'[i][0]) {
      StreamRunPrefix(t, fs, ids, vs, g, id, v, i);
      assert i < |fs| ==> vs'[i] == vs[i];
    }
  }

  lemma StreamExtended(t: Table, fs: seq<MediaFrame>, ids: seq<uint16>, vs: seq<seq<uint16>>,
                       g: MediaFrame, id: uint16, v: seq<uint16>)
    requires StreamOk(t, fs, ids, vs) && |v| == MessageCount(g)
    requires v != [] ==> RealVictim(StreamRun(t, fs, ids, vs, |fs|).table, v[0])
    ensures StreamOk(t, fs + [g], ids + [id], vs + [v])
    ensures var before := StreamRun(t, fs, ids, vs, |fs|);
            var r := Run(before.table, FrameMessages(g, id), v);
            StreamRun(t, fs + [g], ids + [id], vs + [v], |fs| + 1) == RunResult(r.table, before.outcomes + r.outcomes)
  {
    hide Run, FrameMessages, RealVictim, MessageCount, StreamRun;
    StreamExtendedOk(t, fs, ids, vs, g, id, v);
    StreamRunPrefix(t, fs, ids, vs, g, id, v, |fs|);
    StreamRunNext(t, fs + [g], ids + [id], vs + [v], |fs| + 1);
  }

  lemma StreamRunFirst(t: Table, fs: seq<MediaFrame>, ids: seq<uint16>, vs: seq<seq<uint16>>)
    requires StreamOk(t, fs, ids, vs)
    ensures StreamRun(t, fs, ids, vs, 0) == RunResult(t, []) && GoodUpTo(t, fs, ids, vs, 0)
  {
  }

  lemma GoodUpToNext(t: Table, fs: seq<MediaFrame>, ids: seq<uint16>, vs: seq<seq<uint16>>, n: nat)
    requires StreamOk(t, fs, ids, vs) && 0 < n <= |fs|
    ensures GoodUpTo(t, fs, ids, vs, n)
            <==> && GoodUpTo(t, fs, ids, vs, n - 1)
                 && ComesOut(StreamRun(t, fs, ids, vs, n - 1).table, fs[n - 1], ids[n - 1])
  {
    hide StreamRun, ComesOut;
  }

  ghost predicate GoodUpTo(t: Table, fs: seq<MediaFrame>, ids: seq<uint16>, vs: seq<seq<uint16>>, n: nat)
    requires StreamOk(t, fs, ids, vs) && n <= |fs|
  {
    forall i :: 0 <= i < n ==> ComesOut(StreamRun(t, fs, ids, vs, i).table, fs[i], ids[i])
  }

  /** A stream without further losses, sent to a parser in any state: all its frames come out as
      sent if and only if each does at its turn. As long as they do, no entry gets mixed. */
  lemma {:induction false} StreamFromAnyTable(t: Table, fs: seq<MediaFrame>, ids: seq<uint16>,
                                              vs: seq<seq<uint16>>, n: nat)
    requires TableOk(t) && StreamOk(t, fs, ids, vs) && n <= |fs|
    ensures var r := StreamRun(t, fs, ids, vs, n);
            && TableOk(r.table) && |Delivered(r.outcomes)| <= n
            && (Delivered(r.outcomes) == ExpectedAll(fs, n) <==> GoodUpTo(t, fs, ids, vs, n))
            && (AllClean(t) && GoodUpTo(t, fs, ids, vs, n) ==> AllClean(r.table))
  {
    hide Run, FrameMessages, Delivered, ComesOut, AllClean, TableOk, Expected, StreamRun, GoodUpTo;
    if n == 0 {
      DeliveredNothing();
      StreamRunFirst(t, fs, ids, vs);
    } else {
      StreamRunNext(t, fs, ids, vs, n);
      GoodUpToNext(t, fs, ids, vs, n);
      StreamFromAnyTable(t, fs, ids, vs, n - 1);
      var before := StreamRun(t, fs, ids, vs, n - 1);
      OneMoreFrame(before, fs[n - 1], ids[n - 1], vs[n - 1]);
      var last := Delivered(Run(before.table, FrameMessages(fs[n - 1], ids[n - 1]), vs[n - 1]).outcomes);
      LastArrives(Delivered(before.outcomes), ExpectedAll(fs, n - 1), last, Expected(fs[n - 1]));
    }
  }

  lemma OneMoreFrame(before: RunResult, g: MediaFrame, id: uint16, victims: seq<uint16>)
    requires TableOk(before.table)
    requires |victims| == MessageCount(g) && (victims != [] ==> RealVictim(before.table, victims[0]))
    ensures var r := Run(before.table, FrameMessages(g, id), victims);
            && TableOk(r.table) && |Delivered(r.outcomes)| <= 1
            && Delivered(before.outcomes + r.outcomes) == Delivered(before.outcomes) + Delivered(r.outcomes)
            && (Delivered(r.outcomes) == [Expected(g)] <==> ComesOut(before.table, g, id))
            && (AllClean(before.table) && ComesOut(before.table, g, id) ==> AllClean(r.table))
  {
    hide Run, FrameMessages, Delivered, TableOk, Expected, ComesOut, AllClean;
    TableStaysOk(before.table, g, id, victims);
    DeliveredConcat(before.outcomes, Run(before.table, FrameMessages(g, id), victims).outcomes);
    DeliveredExactly(before.table, g, id, victims);
    if AllClean(before.table) && ComesOut(before.table, g, id) {
      GoodKeepsClean(before.table, g, id, victims);
    }
  }

  /** What the condition comes to for a parser whose entries each hold chunks of one frame, as after
      losses alone: every frame is at most 4 MiB and, if it is fragmented, meets at its turn nothing
      under its id but what agrees with it. */
  lemma {:induction false} GoodMeansAgreeing(t: Table, fs: seq<MediaFrame>, ids: seq<uint16>,
                                             vs: seq<seq<uint16>>, n: nat)
    requires TableOk(t) && AllClean(t) && StreamOk(t, fs, ids, vs) && n <= |fs|
    ensures GoodUpTo(t, fs, ids, vs, n) <==> AgreesUpTo(t, fs, ids, vs, n)
  {
    hide Run, FrameMessages, ComesOut, Agrees, AllClean, TableOk, StreamRun;
    if n == 0 {
    } else {
      GoodMeansAgreeing(t, fs, ids, vs, n - 1);
      GoodUpToNext(t, fs, ids, vs, n);
      AgreesUpToNext(t, fs, ids, vs, n);
      StreamFromAnyTable(t, fs, ids, vs, n - 1);
      if GoodUpTo(t, fs, ids, vs, n - 1) {
        CleanComesOut(StreamRun(t, fs, ids, vs, n - 1).table, fs[n - 1], ids[n - 1]);
      }
    }
  }

  ghost predicate Agrees(t: Table, g: MediaFrame, id: uint16) {
    Deliverable(g) && (Fragmented(g.payload) && id in t ==> Harmless(t[id], g))
  }

  ghost predicate AgreesUpTo(t: Table, fs: seq<MediaFrame>, ids: seq<uint16>, vs: seq<seq<uint16>>, n: nat)
    requires StreamOk(t, fs, ids, vs) && n <= |fs|
  {
    forall i :: 0 <= i < n ==> Agrees(StreamRun(t, fs, ids, vs, i).table, fs[i], ids[i])
  }

  lemma AgreesUpToNext(t: Table, fs: seq<MediaFrame>, ids: seq<uint16>, vs: seq<seq<uint16>>, n: nat)
    requires StreamOk(t, fs, ids, vs) && 0 < n <= |fs|
    ensures AgreesUpTo(t, fs, ids, vs, n)
            <==> && AgreesUpTo(t, fs, ids, vs, n - 1)
                 && Agrees(StreamRun(t, fs, ids, vs, n - 1).table, fs[n - 1], ids[n - 1])
  {
    hide StreamRun, Agrees;
  }

  lemma CleanComesOut(t: Table, g: MediaFrame, id: uint16)
    requires TableOk(t) && AllClean(t)
    ensures ComesOut(t, g, id) <==> Agrees(t, g, id)
  {
    hide CleanEntry, Sized, Harmless, ComesOut, TableOk;
    if id in t {
      var f :| CleanEntry(f, t[id]);
      CleanIsSized(f, t[id]);
    }
    ComesOutExactly(t, g, id);
  }
}
