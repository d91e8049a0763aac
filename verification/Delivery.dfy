/** End to end: what a client receives of the frames a server encoded, over channels that
    reorder, interleave, lose and repeat messages. */
module Delivery {
  import opened Bytes
  import opened FrameFormat
  import opened FrameEncoder
  import opened Reassembly

  /** Frames under distinct ids. */
  type Frames = map<uint16, MediaFrame>

  /** Message `index` of the frame with that id. */
  datatype Packet = Packet(id: uint16, index: nat)

  predicate Sent(frames: Frames, p: Packet) {
    p.id in frames && p.index < MessageCount(frames[p.id])
  }

  predicate AllSent(frames: Frames, ps: seq<Packet>) {
    forall i :: 0 <= i < |ps| ==> Sent(frames, ps[i])
  }

  function DatagramOf(frames: Frames, p: Packet): Datagram
    requires Sent(frames, p)
  {
    WireReadBack(frames[p.id], p.id, p.index);
    WireMessage(frames[p.id], p.id, p.index)
  }

  function Datagrams(frames: Frames, ps: seq<Packet>): (ds: seq<Datagram>)
    requires AllSent(frames, ps)
    ensures |ds| == |ps|
  {
    seq(|ps|, i requires 0 <= i < |ps| => DatagramOf(frames, ps[i]))
  }

  /** What the receiver understands of one message. */
  function View(f: MediaFrame, p: Packet): Message
    requires p.index < MessageCount(f)
  {
    if !Fragmented(f.payload) then Whole(Expected(f))
    else if FragmentCount(f.payload) > MAX_FRAGMENTS then Rejected
    else FragmentView(f, p.id, p.index)
  }

  function Messages(frames: Frames, ps: seq<Packet>): (ms: seq<Message>)
    requires AllSent(frames, ps)
    ensures |ms| == |ps|
  {
    seq(|ps|, i requires 0 <= i < |ps| => View(frames[ps[i].id], ps[i]))
  }

  /** The bytes on the wire are understood that way. */
  lemma MessagesAreDecoded(frames: Frames, ps: seq<Packet>)
    requires AllSent(frames, ps)
    ensures DecodeAll(Datagrams(frames, ps)) == Messages(frames, ps)
  {
    forall i | 0 <= i < |ps| ensures Decode(DatagramOf(frames, ps[i])) == View(frames[ps[i].id], ps[i]) {
      WireReadBack(frames[ps[i].id], ps[i].id, ps[i].index);
    }
  }

  lemma MessagesPrefix(frames: Frames, ps: seq<Packet>, n: nat)
    requires AllSent(frames, ps) && n <= |ps|
    ensures Messages(frames, ps)[..n] == Messages(frames, ps[..n])
  {
  }

  /** The last message of a run. */
  lemma RunLast(frames: Frames, ps: seq<Packet>, victims: seq<uint16>)
    requires AllSent(frames, ps) && |victims| == |ps| > 0
    ensures var n := |ps| - 1;
            var before := Run(map[], Messages(frames, ps[..n]), victims[..n]);
            var last := Step(before.table, victims[n], View(frames[ps[n].id], ps[n]));
            Run(map[], Messages(frames, ps), victims) == RunResult(last.table, before.outcomes + [last.outcome])
  {
    MessagesPrefix(frames, ps, |ps| - 1);
  }

  // ----- no corruption, whatever the channel does -----

  /** What reassembling all counted fragments of f gives; it is f when the count fits. */
  function Carried(f: MediaFrame): ParsedFrame {
    CountBound(f.payload);
    if Fragmented(f.payload) then ParsedFrame(FirstMeta(f), Joined(f.payload, FragmentCount(f.payload)))
    else Expected(f)
  }

  lemma CarriedIsExpected(f: MediaFrame)
    ensures Carried(f) == Expected(f) <==> |f.payload| <= 65535 * FRAGMENT_THRESHOLD
  {
    FragmentsCarryPayload(f.payload);
  }

  /** An entry holds nothing but chunks of its own frame. */
  ghost predicate CleanEntry(f: MediaFrame, p: Partial) {
    && Fragmented(f.payload)
    && p.total == FragmentCount(f.payload)
    && (forall k: nat :: k in p.chunks ==> k < p.total <= ChunksNeeded(f.payload) && p.chunks[k] == Chunk(f.payload, k))
    && (0 in p.chunks ==> p.meta == FirstMeta(f))
  }

  ghost predicate Clean(frames: Frames, t: Table) {
    forall id :: id in t ==> id in frames && CleanEntry(frames[id], t[id])
  }

  lemma {:induction false} JoinClean(f: MediaFrame, p: Partial, n: nat)
    requires CleanEntry(f, p) && IsFull(p) && n <= p.total <= ChunksNeeded(f.payload)
    ensures JoinChunks(p.chunks, n) == Joined(f.payload, n)
  {
    if n == 0 {
    } else {
      JoinClean(f, p, n - 1);
    }
  }

  lemma CleanAbsorb(f: MediaFrame, p: Partial, k: nat)
    requires Fragmented(f.payload) && CleanEntry(f, p) && k < FragmentCount(f.payload) <= ChunksNeeded(f.payload)
    ensures CleanEntry(f, Absorb(p, k, if k == 0 then FirstMeta(f) else LaterMeta(f), Chunk(f.payload, k)))
  {
  }

  /** What may come out when a message of f comes in. */
  predicate Faithful(f: MediaFrame, o: Outcome) {
    && !o.Skip?
    && (o.Complete? ==> o.frame == Carried(f) && (Fragmented(f.payload) ==> FragmentCount(f.payload) <= MAX_FRAGMENTS))
  }

  lemma CleanAccept(frames: Frames, t: Table, victim: uint16, p: Packet)
    requires Clean(frames, t) && Sent(frames, p)
    requires Fragmented(frames[p.id].payload) && FragmentCount(frames[p.id].payload) <= MAX_FRAGMENTS
    ensures var v := FragmentView(frames[p.id], p.id, p.index);
            var r := Accept(t, victim, v.part, v.meta, v.payload);
            Clean(frames, r.table) && Faithful(frames[p.id], r.outcome)
  {
    var f := frames[p.id];
    var v := FragmentView(f, p.id, p.index);
    CountBound(f.payload);
    var seated := Seat(t, victim, v.part);
    assert Clean(frames, seated);
    CleanAbsorb(f, seated[p.id], p.index);
    var entry := Absorb(seated[p.id], p.index, v.meta, v.payload);
    if IsFull(entry) {
      JoinClean(f, entry, entry.total);
    }
  }

  lemma CleanStep(frames: Frames, t: Table, victim: uint16, p: Packet)
    requires Clean(frames, t) && Sent(frames, p)
    ensures var r := Step(t, victim, View(frames[p.id], p));
            Clean(frames, r.table) && Faithful(frames[p.id], r.outcome)
  {
    var f := frames[p.id];
    if Fragmented(f.payload) && FragmentCount(f.payload) <= MAX_FRAGMENTS {
      CleanAccept(frames, t, victim, p);
    }
  }

  predicate AllFaithful(frames: Frames, ps: seq<Packet>, os: seq<Outcome>) {
    && AllSent(frames, ps) && |os| == |ps|
    && forall i :: 0 <= i < |ps| ==> Faithful(frames[ps[i].id], os[i])
  }

  lemma FaithfulExtends(frames: Frames, ps: seq<Packet>, os: seq<Outcome>, o: Outcome)
    requires AllSent(frames, ps) && ps != []
    requires AllFaithful(frames, ps[..|ps| - 1], os) && Faithful(frames[ps[|ps| - 1].id], o)
    ensures AllFaithful(frames, ps, os + [o])
  {
    forall i | 0 <= i < |ps| - 1 ensures Faithful(frames[ps[i].id], (os + [o])[i]) {
      assert ps[..|ps| - 1][i] == ps[i];
    }
  }

  /** Whatever subset of the messages arrives, however often and in whatever order, and
      whichever entries are evicted: a delivered frame is the one that was sent under its id. */
  lemma {:induction false} NoCorruption(frames: Frames, ps: seq<Packet>, victims: seq<uint16>)
    requires AllSent(frames, ps) && |victims| == |ps|
    ensures var r := Run(map[], Messages(frames, ps), victims);
            Clean(frames, r.table) && AllFaithful(frames, ps, r.outcomes)
  {
    if ps == [] {
    } else {
      var n := |ps| - 1;
      var before := Run(map[], Messages(frames, ps[..n]), victims[..n]);
      NoCorruption(frames, ps[..n], victims[..n]);
      CleanStep(frames, before.table, victims[n], ps[n]);
      FaithfulExtends(frames, ps, before.outcomes,
                      Step(before.table, victims[n], View(frames[ps[n].id], ps[n])).outcome);
      RunLast(frames, ps, victims);
    }
  }

  /** The safety theorem on the bytes of the wire. */
  lemma {:induction false} DeliveredFramesAreIntact(frames: Frames, ps: seq<Packet>, victims: seq<uint16>, i: nat)
    requires AllSent(frames, ps) && |victims| == |ps| && i < |ps|
    requires |frames[ps[i].id].payload| <= 65535 * FRAGMENT_THRESHOLD
    ensures var o := Run(map[], DecodeAll(Datagrams(frames, ps)), victims).outcomes[i];
            o.Complete? ==> o.frame == Expected(frames[ps[i].id])
  {
    MessagesAreDecoded(frames, ps);
    NoCorruption(frames, ps, victims);
    CarriedIsExpected(frames[ps[i].id]);
  }

  // ----- every frame exactly once, in any order and interleaving -----

  predicate Deliverable(f: MediaFrame) { |f.payload| <= MAX_PAYLOAD }

  ghost predicate Touched(ps: seq<Packet>, id: uint16) {
    exists k: nat :: Packet(id, k) in ps
  }

  ghost predicate AllIn(frames: Frames, ps: seq<Packet>, id: uint16)
    requires id in frames
  {
    forall k: nat :: k < MessageCount(frames[id]) ==> Packet(id, k) in ps
  }

  /** The frames that have begun to arrive but are not complete. */
  ghost function Open(frames: Frames, ps: seq<Packet>): set<uint16> {
    set id | id in frames && Touched(ps, id) && !AllIn(frames, ps, id)
  }

  ghost function EntryFor(f: MediaFrame, id: uint16, ps: seq<Packet>): Partial
    requires FragmentCount(f.payload) <= ChunksNeeded(f.payload)
  {
    Partial(FragmentCount(f.payload),
            map k: nat | k < FragmentCount(f.payload) && Packet(id, k) in ps :: Chunk(f.payload, k),
            if Packet(id, 0) in ps then FirstMeta(f) else NO_META)
  }

  lemma CountsFit(f: MediaFrame)
    requires Deliverable(f)
    ensures FragmentCount(f.payload) == ChunksNeeded(f.payload) <= MAX_FRAGMENTS
    ensures Fragmented(f.payload) ==> FragmentCount(f.payload) >= 2
    ensures Carried(f) == Expected(f)
  {
    CountBound(f.payload);
    CarriedIsExpected(f);
  }

  /** The table is determined by what has arrived. */
  ghost predicate TableFor(frames: Frames, ps: seq<Packet>, t: Table) {
    && t.Keys == Open(frames, ps)
    && forall id :: id in t ==> FragmentCount(frames[id].payload) <= ChunksNeeded(frames[id].payload)
                                && t[id] == EntryFor(frames[id], id, ps)
  }

  /** A message of frame p.id leaves the bookkeeping of other frames alone. */
  lemma OtherFrames(frames: Frames, ps: seq<Packet>, p: Packet, id: uint16)
    requires id in frames && id != p.id
    ensures id in Open(frames, ps + [p]) <==> id in Open(frames, ps)
    ensures FragmentCount(frames[id].payload) <= ChunksNeeded(frames[id].payload)
            ==> EntryFor(frames[id], id, ps + [p]) == EntryFor(frames[id], id, ps)
  {
    assert forall k: nat :: Packet(id, k) in ps + [p] <==> Packet(id, k) in ps;
  }

  lemma OwnEntry(f: MediaFrame, ps: seq<Packet>, p: Packet)
    requires FragmentCount(f.payload) <= ChunksNeeded(f.payload) && p.index < FragmentCount(f.payload) && p !in ps
    ensures var meta := if p.index == 0 then FirstMeta(f) else LaterMeta(f);
            Absorb(EntryFor(f, p.id, ps), p.index, meta, Chunk(f.payload, p.index)) == EntryFor(f, p.id, ps + [p])
    ensures !Touched(ps, p.id) ==> EntryFor(f, p.id, ps) == Partial(FragmentCount(f.payload), map[], NO_META)
  {
    assert forall k: nat :: Packet(p.id, k) in ps + [p] <==> Packet(p.id, k) in ps || k == p.index;
    var meta := if p.index == 0 then FirstMeta(f) else LaterMeta(f);
    assert Absorb(EntryFor(f, p.id, ps), p.index, meta, Chunk(f.payload, p.index)).chunks
        == EntryFor(f, p.id, ps + [p]).chunks;
  }

  /** A newly begun frame takes one more entry, so the table was not full. */
  lemma OpensOne(frames: Frames, ps: seq<Packet>, p: Packet)
    requires Sent(frames, p) && p !in ps && MessageCount(frames[p.id]) >= 2
    requires |Open(frames, ps + [p])| <= MAX_ENTRIES
    requires p.id !in Open(frames, ps)
    ensures |Open(frames, ps)| < MAX_ENTRIES && !Touched(ps, p.id)
  {
    assert !Touched(ps, p.id);
    var other: nat := if p.index == 0 then 1 else 0;
    assert Packet(p.id, other) !in ps + [p];
    assert p in ps + [p];
    assert p.id in Open(frames, ps + [p]);
    forall id | id in Open(frames, ps) ensures id in Open(frames, ps + [p]) - {p.id} {
      OtherFrames(frames, ps, p, id);
    }
    SubsetSize(Open(frames, ps), Open(frames, ps + [p]) - {p.id});
  }

  ghost function ExpectedOutcome(frames: Frames, ps: seq<Packet>, id: uint16): Outcome
    requires id in frames
  {
    if AllIn(frames, ps, id) then Complete(Expected(frames[id])) else Pending
  }

  predicate AllDeliverable(frames: Frames) {
    forall id :: id in frames ==> Deliverable(frames[id])
  }

  lemma SeatFor(frames: Frames, ps: seq<Packet>, t: Table, victim: uint16, p: Packet)
    requires AllDeliverable(frames) && TableFor(frames, ps, t)
    requires Sent(frames, p) && p !in ps && Fragmented(frames[p.id].payload)
    requires |Open(frames, ps + [p])| <= MAX_ENTRIES
    ensures FragmentCount(frames[p.id].payload) <= ChunksNeeded(frames[p.id].payload)
    ensures var seated := Seat(t, victim, FragmentPart(p.id, p.index, FragmentCount(frames[p.id].payload)));
            && seated.Keys == t.Keys + {p.id}
            && seated[p.id] == EntryFor(frames[p.id], p.id, ps)
            && forall id :: id in t && id != p.id ==> seated[id] == t[id]
  {
    var f := frames[p.id];
    CountsFit(f);
    if p.id !in t {
      OwnEntry(f, ps, p);
      OpensOne(frames, ps, p);
      assert |t.Keys| < MAX_ENTRIES;
    }
  }

  lemma ExactAccept(frames: Frames, ps: seq<Packet>, t: Table, victim: uint16, p: Packet)
    requires AllDeliverable(frames) && TableFor(frames, ps, t)
    requires Sent(frames, p) && p !in ps && Fragmented(frames[p.id].payload)
    requires |Open(frames, ps + [p])| <= MAX_ENTRIES
    ensures var v := FragmentView(frames[p.id], p.id, p.index);
            var r := Accept(t, victim, v.part, v.meta, v.payload);
            TableFor(frames, ps + [p], r.table) && r.outcome == ExpectedOutcome(frames, ps + [p], p.id)
  {
    var f, ps' := frames[p.id], ps + [p];
    CountsFit(f);
    SeatFor(frames, ps, t, victim, p);
    OwnEntry(f, ps, p);
    EntryFull(frames, ps', p.id);
    if IsFull(EntryFor(f, p.id, ps')) {
      FullEntryIsFrame(f, p.id, ps');
    }
    SeatedTable(frames, ps, t, Seat(t, victim, FragmentPart(p.id, p.index, FragmentCount(f.payload))), p);
  }

  lemma SeatedTable(frames: Frames, ps: seq<Packet>, t: Table, seated: Table, p: Packet)
    requires TableFor(frames, ps, t) && p.id in frames && Fragmented(frames[p.id].payload)
    requires FragmentCount(frames[p.id].payload) <= ChunksNeeded(frames[p.id].payload)
    requires seated.Keys == t.Keys + {p.id} && forall id :: id in t && id != p.id ==> seated[id] == t[id]
    ensures var entry := EntryFor(frames[p.id], p.id, ps + [p]);
            TableFor(frames, ps + [p], if IsFull(entry) then seated - {p.id} else seated[p.id := entry])
  {
    EntryFull(frames, ps + [p], p.id);
    var entry := EntryFor(frames[p.id], p.id, ps + [p]);
    TableExtends(frames, ps, t, p, if IsFull(entry) then seated - {p.id} else seated[p.id := entry]);
  }

  lemma FullEntryIsFrame(f: MediaFrame, id: uint16, ps: seq<Packet>)
    requires Deliverable(f) && Fragmented(f.payload)
    requires FragmentCount(f.payload) <= ChunksNeeded(f.payload)
    requires IsFull(EntryFor(f, id, ps))
    ensures var e := EntryFor(f, id, ps);
            ParsedFrame(e.meta, JoinChunks(e.chunks, e.total)) == Expected(f)
  {
    var e := EntryFor(f, id, ps);
    CountsFit(f);
    assert CleanEntry(f, e);
    JoinClean(f, e, e.total);
    assert 0 in e.chunks;
  }

  lemma EntryFull(frames: Frames, ps: seq<Packet>, id: uint16)
    requires id in frames && Fragmented(frames[id].payload)
    requires FragmentCount(frames[id].payload) <= ChunksNeeded(frames[id].payload)
    ensures IsFull(EntryFor(frames[id], id, ps)) <==> AllIn(frames, ps, id)
  {
    var e := EntryFor(frames[id], id, ps);
    assert forall k: nat :: k < e.total ==> (k in e.chunks <==> Packet(id, k) in ps);
  }

  lemma TableExtends(frames: Frames, ps: seq<Packet>, t: Table, p: Packet, t': Table)
    requires TableFor(frames, ps, t) && p.id in frames
    requires FragmentCount(frames[p.id].payload) <= ChunksNeeded(frames[p.id].payload)
    requires p.id in t' <==> !AllIn(frames, ps + [p], p.id)
    requires p.id in t' ==> t'[p.id] == EntryFor(frames[p.id], p.id, ps + [p])
    requires forall id :: id != p.id ==> (id in t' <==> id in t) && (id in t ==> t'[id] == t[id])
    ensures TableFor(frames, ps + [p], t')
  {
    assert p in ps + [p];
    forall id | id in frames && id != p.id
      ensures id in Open(frames, ps + [p]) <==> id in Open(frames, ps)
      ensures FragmentCount(frames[id].payload) <= ChunksNeeded(frames[id].payload)
              ==> EntryFor(frames[id], id, ps + [p]) == EntryFor(frames[id], id, ps)
    {
      OtherFrames(frames, ps, p, id);
    }
  }

  lemma ExactStep(frames: Frames, ps: seq<Packet>, t: Table, victim: uint16, p: Packet)
    requires AllDeliverable(frames) && AllSent(frames, ps) && TableFor(frames, ps, t)
    requires Sent(frames, p) && p !in ps
    requires |Open(frames, ps + [p])| <= MAX_ENTRIES
    ensures var r := Step(t, victim, View(frames[p.id], p));
            TableFor(frames, ps + [p], r.table) && r.outcome == ExpectedOutcome(frames, ps + [p], p.id)
  {
    hide Accept, TableFor, ExpectedOutcome;
    if Fragmented(frames[p.id].payload) {
      CountsFit(frames[p.id]);
      ExactAccept(frames, ps, t, victim, p);
    } else {
      ExactWhole(frames, ps, t, p);
    }
  }

  lemma ExactWhole(frames: Frames, ps: seq<Packet>, t: Table, p: Packet)
    requires AllSent(frames, ps) && TableFor(frames, ps, t)
    requires Sent(frames, p) && !Fragmented(frames[p.id].payload)
    ensures TableFor(frames, ps + [p], t) && ExpectedOutcome(frames, ps + [p], p.id) == Complete(Expected(frames[p.id]))
  {
    CountBound(frames[p.id].payload);
    assert p in ps + [p];
    assert AllIn(frames, ps + [p], p.id);
    NotOpen(frames, ps, p.id);
    TableExtends(frames, ps, t, p, t);
  }

  lemma NotOpen(frames: Frames, ps: seq<Packet>, id: uint16)
    requires AllSent(frames, ps) && id in frames && !Fragmented(frames[id].payload)
    ensures id !in Open(frames, ps)
  {
    if Touched(ps, id) {
      var k: nat :| Packet(id, k) in ps;
    }
  }

  // ----- the delivery theorem -----

  /** Each message at most once. */
  predicate NoRepeats(ps: seq<Packet>) {
    forall i, j :: 0 <= i < j < |ps| ==> ps[i] != ps[j]
  }

  /** Never more than sixteen frames partly received. */
  ghost predicate AtMostSixteenOpen(frames: Frames, ps: seq<Packet>) {
    forall n :: 0 <= n <= |ps| ==> |Open(frames, ps[..n])| <= MAX_ENTRIES
  }

  ghost predicate ExactOutcomes(frames: Frames, ps: seq<Packet>, os: seq<Outcome>) {
    && AllSent(frames, ps) && |os| == |ps|
    && forall i :: 0 <= i < |ps| ==> os[i] == ExpectedOutcome(frames, ps[..i + 1], ps[i].id)
  }

  lemma OutcomesExtend(frames: Frames, ps: seq<Packet>, os: seq<Outcome>, o: Outcome)
    requires AllSent(frames, ps) && ps != []
    requires ExactOutcomes(frames, ps[..|ps| - 1], os)
    requires o == ExpectedOutcome(frames, ps, ps[|ps| - 1].id)
    ensures ExactOutcomes(frames, ps, os + [o])
  {
    var n := |ps| - 1;
    forall i | 0 <= i < |ps| ensures (os + [o])[i] == ExpectedOutcome(frames, ps[..i + 1], ps[i].id) {
      if i < n {
        assert ps[..n][i] == ps[i] && ps[..n][..i + 1] == ps[..i + 1];
      } else {
        assert ps[..i + 1] == ps;
      }
    }
  }

  /** Any order, any interleaving: a frame is delivered, intact, exactly when the last of its
      messages arrives; until then its messages are pending, and nothing else is kept. */
  lemma {:induction false} ExactDelivery(frames: Frames, ps: seq<Packet>, victims: seq<uint16>)
    requires AllDeliverable(frames) && AllSent(frames, ps) && NoRepeats(ps) && AtMostSixteenOpen(frames, ps)
    requires |victims| == |ps|
    ensures var r := Run(map[], Messages(frames, ps), victims);
            ExactOutcomes(frames, ps, r.outcomes) && TableFor(frames, ps, r.table)
  {
    if ps == [] {
    } else {
      var n := |ps| - 1;
      var before := Run(map[], Messages(frames, ps[..n]), victims[..n]);
      PrefixConditions(frames, ps);
      ExactDelivery(frames, ps[..n], victims[..n]);
      ExactStep(frames, ps[..n], before.table, victims[n], ps[n]);
      OutcomesExtend(frames, ps, before.outcomes, ExpectedOutcome(frames, ps, ps[n].id));
      RunLast(frames, ps, victims);
    }
  }

  lemma PrefixConditions(frames: Frames, ps: seq<Packet>)
    requires AllSent(frames, ps) && NoRepeats(ps) && AtMostSixteenOpen(frames, ps) && ps != []
    ensures var n := |ps| - 1;
            && AllSent(frames, ps[..n]) && NoRepeats(ps[..n]) && AtMostSixteenOpen(frames, ps[..n])
            && ps[n] !in ps[..n] && ps[..n] + [ps[n]] == ps && |Open(frames, ps)| <= MAX_ENTRIES
  {
    var n := |ps| - 1;
    assert forall m :: 0 <= m <= n ==> ps[..n][..m] == ps[..m];
    assert ps[..|ps|] == ps;
  }

  /** Every message of every frame is somewhere in the run. */
  ghost predicate AllArrive(frames: Frames, ps: seq<Packet>) {
    forall id :: id in frames ==> AllIn(frames, ps, id)
  }

  /** The position at which the last message of a frame arrives. */
  predicate LastOf(ps: seq<Packet>, i: nat, id: uint16) {
    i < |ps| && ps[i].id == id && forall j :: i < j < |ps| ==> ps[j].id != id
  }

  lemma NotYet(ps: seq<Packet>, i: nat, j: nat)
    requires NoRepeats(ps) && i < j < |ps|
    ensures ps[j] !in ps[..i + 1]
  {
  }

  lemma CompleteAtLast(frames: Frames, ps: seq<Packet>, i: nat)
    requires AllSent(frames, ps) && NoRepeats(ps) && AllArrive(frames, ps) && i < |ps|
    ensures AllIn(frames, ps[..i + 1], ps[i].id) <==> LastOf(ps, i, ps[i].id)
  {
    var id := ps[i].id;
    if AllIn(frames, ps[..i + 1], id) {
      forall j | i < j < |ps| ensures ps[j].id != id {
        assert ps[j] == Packet(ps[j].id, ps[j].index);
        NotYet(ps, i, j);
      }
    }
    if LastOf(ps, i, id) {
      forall k: nat | k < MessageCount(frames[id]) ensures Packet(id, k) in ps[..i + 1] {
        assert Packet(id, k) in ps;
        var j :| 0 <= j < |ps| && ps[j] == Packet(id, k);
        assert ps[..i + 1][j] == ps[j];
      }
    }
  }

  lemma {:induction false} HasLast(ps: seq<Packet>, id: uint16)
    requires Touched(ps, id)
    ensures exists i: nat :: LastOf(ps, i, id)
  {
    var n := |ps| - 1;
    var k: nat :| Packet(id, k) in ps;
    if ps[n].id == id {
      assert LastOf(ps, n, id);
    } else {
      assert Packet(id, k) in ps[..n];
      HasLast(ps[..n], id);
      var i: nat :| LastOf(ps[..n], i, id);
      assert forall j :: i < j < n ==> ps[j] == ps[..n][j];
      assert LastOf(ps, i, id);
    }
  }

  /** Each message is pending, except that the last one of a frame completes it. */
  predicate CompleteWithLast(frames: Frames, ps: seq<Packet>, os: seq<Outcome>) {
    && AllSent(frames, ps) && |os| == |ps|
    && forall i :: 0 <= i < |ps| ==>
         os[i] == if LastOf(ps, i, ps[i].id) then Complete(Expected(frames[ps[i].id])) else Pending
  }

  lemma ExactMeansWithLast(frames: Frames, ps: seq<Packet>, os: seq<Outcome>)
    requires ExactOutcomes(frames, ps, os) && NoRepeats(ps) && AllArrive(frames, ps)
    ensures CompleteWithLast(frames, ps, os)
  {
    forall i | 0 <= i < |ps|
      ensures os[i] == if LastOf(ps, i, ps[i].id) then Complete(Expected(frames[ps[i].id])) else Pending
    {
      CompleteAtLast(frames, ps, i);
    }
  }

  /** Delivery: feed every message of a set of frames exactly once to a fresh parser, in any
      order and interleaving that keeps at most sixteen frames open. Each frame comes out
      exactly once and intact, with its last message, and the table ends empty. */
  lemma EveryFrameExactlyOnce(frames: Frames, ps: seq<Packet>, victims: seq<uint16>)
    requires AllDeliverable(frames) && AllSent(frames, ps) && NoRepeats(ps) && AllArrive(frames, ps)
    requires AtMostSixteenOpen(frames, ps)
    requires |victims| == |ps|
    ensures var r := Run(map[], DecodeAll(Datagrams(frames, ps)), victims);
            r.table == map[] && CompleteWithLast(frames, ps, r.outcomes)
    ensures forall id :: id in frames ==> exists i: nat :: LastOf(ps, i, id)
  {
    MessagesAreDecoded(frames, ps);
    ExactDelivery(frames, ps, victims);
    assert Open(frames, ps) == {};
    ExactMeansWithLast(frames, ps, Run(map[], Messages(frames, ps), victims).outcomes);
    forall id | id in frames ensures exists i: nat :: LastOf(ps, i, id) {
      CountsFit(frames[id]);
      assert Packet(id, 0) in ps;
      HasLast(ps, id);
    }
  }
}
