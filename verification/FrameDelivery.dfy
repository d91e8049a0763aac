/** A frame sent in order to a parser in any state: exactly what is delivered and what is left in
    the table. */
module FrameDelivery {
  import opened Bytes
  import opened FrameFormat
  import opened FrameEncoder
  import opened Reassembly
  import opened Delivery

  /** The messages of one frame, as the receiver understands them. */
  function FrameMessages(f: MediaFrame, id: uint16): (ms: seq<Message>)
    ensures |ms| == MessageCount(f)
  {
    seq(MessageCount(f), k requires 0 <= k < MessageCount(f) => View(f, Packet(id, k)))
  }

  function FrameDatagrams(f: MediaFrame, id: uint16): (ds: seq<Datagram>)
    ensures |ds| == MessageCount(f)
  {
    seq(MessageCount(f), k requires 0 <= k < MessageCount(f) => DatagramOf(map[id := f], Packet(id, k)))
  }

  /** They are the encoder's messages, decoded. */
  lemma FrameMessagesAreTheWire(f: MediaFrame, id: uint16)
    ensures FrameDatagrams(f, id) == Wire(f, id)
    ensures DecodeAll(FrameDatagrams(f, id)) == FrameMessages(f, id)
  {
    hide Decode, FragmentMessage, WholeMessage;
    forall k | 0 <= k < MessageCount(f)
      ensures FrameDatagrams(f, id)[k] == Wire(f, id)[k]
      ensures Decode(FrameDatagrams(f, id)[k]) == View(f, Packet(id, k))
    {
      WireReadBack(f, id, k);
    }
  }

  // ----- an entry that meets the first fragments of a frame -----

  /** The receiver files the fragments of this frame. */
  predicate Accepted(g: MediaFrame) {
    Fragmented(g.payload) && 1 <= FragmentCount(g.payload) <= MAX_FRAGMENTS
  }

  /** An entry, whatever is in it, after the first n fragments of g. */
  ghost function WithFirst(p: Partial, g: MediaFrame, n: nat): Partial
    requires n <= ChunksNeeded(g.payload)
  {
    Partial(p.total,
            (map k: nat | k < n && k < p.total :: Chunk(g.payload, k)) + p.chunks,
            if n > 0 then FirstMeta(g) else p.meta)
  }

  lemma WithNone(p: Partial, g: MediaFrame)
    ensures WithFirst(p, g, 0) == p
  {
    assert WithFirst(p, g, 0).chunks == p.chunks;
  }

  lemma WithFirstHeader(p: Partial, g: MediaFrame, n: nat)
    requires 1 <= n <= ChunksNeeded(g.payload)
    ensures WithFirst(p, g, n).total == p.total && WithFirst(p, g, n).meta == FirstMeta(g)
  {
  }

  lemma WithOneMore(p: Partial, g: MediaFrame, n: nat)
    requires n < ChunksNeeded(g.payload)
    ensures Absorb(WithFirst(p, g, n), n, if n == 0 then FirstMeta(g) else LaterMeta(g), Chunk(g.payload, n))
            == WithFirst(p, g, n + 1)
  {
    hide Chunk;
    var meta := if n == 0 then FirstMeta(g) else LaterMeta(g);
    assert Absorb(WithFirst(p, g, n), n, meta, Chunk(g.payload, n)).chunks == WithFirst(p, g, n + 1).chunks;
  }

  /** How many fragments of a frame must come in order until the first n places are filled: one
      more than the last empty place. */
  ghost function NeedsUpTo(p: Partial, n: nat): (c: nat)
    ensures c <= n
    ensures forall k: nat :: c <= k < n ==> k in p.chunks
    ensures c > 0 ==> c - 1 !in p.chunks
  {
    if n == 0 then 0 else if n - 1 !in p.chunks then n else NeedsUpTo(p, n - 1)
  }

  ghost function Needs(p: Partial): nat { NeedsUpTo(p, p.total) }

  lemma FullExactly(p: Partial, g: MediaFrame, n: nat)
    requires n <= ChunksNeeded(g.payload)
    ensures IsFull(WithFirst(p, g, n)) <==> n >= Needs(p)
    ensures IsFull(p) <==> Needs(p) == 0
  {
    hide Chunk;
    var c := Needs(p);
    if n < c {
      assert c - 1 !in WithFirst(p, g, n).chunks;
    }
  }

  /** The entry opened by the fragments of g from c on. */
  ghost function Leftover(g: MediaFrame, c: nat, n: nat): Partial
    requires n <= ChunksNeeded(g.payload)
  {
    Partial(FragmentCount(g.payload),
            map k: nat | c <= k < n && k < FragmentCount(g.payload) :: Chunk(g.payload, k), NO_META)
  }

  lemma LeftoverGrows(g: MediaFrame, c: nat, n: nat)
    requires 1 <= c <= n < FragmentCount(g.payload) <= ChunksNeeded(g.payload)
    ensures Absorb(Leftover(g, c, n), n, LaterMeta(g), Chunk(g.payload, n)) == Leftover(g, c, n + 1)
    ensures !IsFull(Leftover(g, c, n + 1))
    ensures Leftover(g, c, c) == Partial(FragmentCount(g.payload), map[], NO_META)
  {
    hide Chunk;
    assert Absorb(Leftover(g, c, n), n, LaterMeta(g), Chunk(g.payload, n)).chunks == Leftover(g, c, n + 1).chunks;
    assert 0 !in Leftover(g, c, n + 1).chunks;
    assert Leftover(g, c, c).chunks == map[];
  }

  // ----- a frame sent in order to any table -----

  /** The table in which the frame has an entry. */
  ghost function SeatedFor(t: Table, victim: uint16, g: MediaFrame, id: uint16): (s: Table)
    ensures id in s
  {
    Seat(t, victim, FragmentPart(id, 0, FragmentCount(g.payload)))
  }

  /** The table after the first n fragments: the entry grows until it is full; what comes after
      that opens a new one. */
  ghost function TableAfter(t: Table, victim: uint16, g: MediaFrame, id: uint16, n: nat): Table
    requires n <= ChunksNeeded(g.payload)
  {
    var seated := SeatedFor(t, victim, g, id);
    var p := seated[id];
    if n == 0 then t
    else if n < Needs(p) then seated[id := WithFirst(p, g, n)]
    else if n == Needs(p) then seated - {id}
    else (seated - {id})[id := Leftover(g, Needs(p), n)]
  }

  /** What is delivered with the fragment that fills the entry. */
  ghost function Mixture(p: Partial, g: MediaFrame): ParsedFrame
    requires Needs(p) <= ChunksNeeded(g.payload)
  {
    FullExactly(p, g, Needs(p));
    ParsedFrame(FirstMeta(g), JoinChunks(WithFirst(p, g, Needs(p)).chunks, p.total))
  }

  /** The outcome of fragment k. */
  ghost function OutcomeOf(p: Partial, g: MediaFrame, k: nat): Outcome
    requires k < ChunksNeeded(g.payload)
  {
    if k + 1 == Needs(p) then Complete(Mixture(p, g)) else Pending
  }

  ghost function OutcomesUpTo(p: Partial, g: MediaFrame, n: nat): (os: seq<Outcome>)
    requires n <= ChunksNeeded(g.payload)
    ensures |os| == n
  {
    if n == 0 then [] else OutcomesUpTo(p, g, n - 1) + [OutcomeOf(p, g, n - 1)]
  }

  lemma FirstFragment(t: Table, victim: uint16, g: MediaFrame, id: uint16)
    requires TableOk(t) && Accepted(g) && FragmentCount(g.payload) <= ChunksNeeded(g.payload)
    ensures Step(t, victim, FragmentView(g, id, 0))
            == Reply(TableAfter(t, victim, g, id, 1), OutcomeOf(SeatedFor(t, victim, g, id)[id], g, 0))
    ensures Needs(SeatedFor(t, victim, g, id)[id]) >= 1
  {
    hide Chunk, Seat, TableOk, Needs;
    var seated := SeatedFor(t, victim, g, id);
    var p := seated[id];
    SeatedIsOpen(t, victim, g, id);
    WithNone(p, g);
    WithOneMore(p, g, 0);
    FullExactly(p, g, 1);
  }

  lemma SeatedIsOpen(t: Table, victim: uint16, g: MediaFrame, id: uint16)
    requires TableOk(t) && Accepted(g)
    ensures EntryOk(SeatedFor(t, victim, g, id)[id])
    ensures RealVictim(t, victim) ==> |SeatedFor(t, victim, g, id)| <= MAX_ENTRIES
    ensures Needs(SeatedFor(t, victim, g, id)[id]) >= 1
  {
    var seated := SeatedFor(t, victim, g, id);
    if id !in t {
      assert 0 !in seated[id].chunks;
      assert !IsFull(seated[id]);
    }
    if RealVictim(t, victim) {
      SeatKeepsTable(t, victim, FragmentPart(id, 0, FragmentCount(g.payload)));
    }
    FullExactly(seated[id], g, 0);
  }

  lemma RemoveUpdated(t: Table, id: uint16, p: Partial, q: Partial)
    ensures t[id := p] - {id} == t - {id} && t[id := p][id := q] == t[id := q]
  {
  }

  /** A later fragment while the entry still grows. */
  lemma GrowingFragment(t: Table, victim: uint16, v: uint16, g: MediaFrame, id: uint16, n: nat)
    requires TableOk(t) && Accepted(g)
    requires 1 <= n < FragmentCount(g.payload) <= ChunksNeeded(g.payload)
    requires n < Needs(SeatedFor(t, victim, g, id)[id])
    ensures Step(TableAfter(t, victim, g, id, n), v, FragmentView(g, id, n))
            == Reply(TableAfter(t, victim, g, id, n + 1), OutcomeOf(SeatedFor(t, victim, g, id)[id], g, n))
  {
    hide Chunk, SeatedFor, TableOk, Needs, WithFirst, IsFull, Absorb;
    var seated := SeatedFor(t, victim, g, id);
    var p := seated[id];
    WithOneMore(p, g, n);
    FullExactly(p, g, n + 1);
    WithFirstHeader(p, g, n + 1);
    RemoveUpdated(seated, id, WithFirst(p, g, n), WithFirst(p, g, n + 1));
    assert TableAfter(t, victim, g, id, n)[id] == WithFirst(p, g, n);
  }

  lemma SizeWithout(s: Table, id: uint16)
    requires id in s
    ensures |s - {id}| == |s| - 1
  {
    assert (s - {id}).Keys == s.Keys - {id};
  }

  /** A fragment that comes after its frame has been delivered. */
  lemma LateFragment(t: Table, victim: uint16, v: uint16, g: MediaFrame, id: uint16, n: nat)
    requires TableOk(t) && RealVictim(t, victim) && Accepted(g)
    requires 1 <= n < FragmentCount(g.payload) <= ChunksNeeded(g.payload)
    requires n >= Needs(SeatedFor(t, victim, g, id)[id])
    ensures Step(TableAfter(t, victim, g, id, n), v, FragmentView(g, id, n))
            == Reply(TableAfter(t, victim, g, id, n + 1), OutcomeOf(SeatedFor(t, victim, g, id)[id], g, n))
  {
    hide Chunk, SeatedFor, TableOk, Needs, WithFirst, IsFull, Absorb, Leftover;
    var seated := SeatedFor(t, victim, g, id);
    var c := Needs(seated[id]);
    SeatedIsOpen(t, victim, g, id);
    LeftoverGrows(g, c, n);
    SizeWithout(seated, id);
    RemoveUpdated(seated - {id}, id, Leftover(g, c, n), Leftover(g, c, n + 1));
    assert TableAfter(t, victim, g, id, n)
        == if n == c then seated - {id} else (seated - {id})[id := Leftover(g, c, n)];
  }

  /** The messages of an accepted frame, run one by one. */
  lemma {:induction false} FrameRun(t: Table, victims: seq<uint16>, g: MediaFrame, id: uint16, n: nat)
    requires TableOk(t) && Accepted(g)
    requires n <= FragmentCount(g.payload) <= ChunksNeeded(g.payload)
    requires |victims| == FragmentCount(g.payload) && RealVictim(t, victims[0])
    ensures Run(t, FrameMessages(g, id)[..n], victims[..n])
            == RunResult(TableAfter(t, victims[0], g, id, n), OutcomesUpTo(SeatedFor(t, victims[0], g, id)[id], g, n))
  {
    hide Chunk, SeatedFor, TableOk, Needs, Step, Run, OutcomeOf, TableAfter;
    if n == 0 {
      RunNothing(t);
      AfterNothing(t, victims[0], g, id);
    } else {
      FrameRun(t, victims, g, id, n - 1);
      var ms := FrameMessages(g, id);
      var k := n - 1;
      RunAppend(t, ms[..k], victims[..k], ms[k], victims[k]);
      assert ms[..k] + [ms[k]] == ms[..n] && victims[..k] + [victims[k]] == victims[..n];
      assert ms[k] == FragmentView(g, id, k);
      NextFragment(t, victims[0], victims[k], g, id, k);
    }
  }

  lemma AfterNothing(t: Table, victim: uint16, g: MediaFrame, id: uint16)
    ensures TableAfter(t, victim, g, id, 0) == t
  {
  }

  lemma NextFragment(t: Table, victim: uint16, v: uint16, g: MediaFrame, id: uint16, k: nat)
    requires TableOk(t) && RealVictim(t, victim) && Accepted(g)
    requires k < FragmentCount(g.payload) <= ChunksNeeded(g.payload) && (k == 0 ==> v == victim)
    ensures Step(TableAfter(t, victim, g, id, k), v, FragmentView(g, id, k))
            == Reply(TableAfter(t, victim, g, id, k + 1), OutcomeOf(SeatedFor(t, victim, g, id)[id], g, k))
  {
    hide Chunk, SeatedFor, TableOk, Needs, Step, OutcomeOf, TableAfter;
    if k == 0 {
      AfterNothing(t, victim, g, id);
      FirstFragment(t, victim, g, id);
    } else if k < Needs(SeatedFor(t, victim, g, id)[id]) {
      GrowingFragment(t, victim, v, g, id, k);
    } else {
      LateFragment(t, victim, v, g, id, k);
    }
  }

  /** What is delivered: at most one frame. */
  lemma {:induction false} DeliveredUpTo(p: Partial, g: MediaFrame, n: nat)
    requires n <= ChunksNeeded(g.payload)
    ensures Delivered(OutcomesUpTo(p, g, n)) == if 1 <= Needs(p) <= n then [Mixture(p, g)] else []
  {
    hide Needs, Mixture;
    if n == 0 {
    } else {
      DeliveredUpTo(p, g, n - 1);
      assert OutcomesUpTo(p, g, n)[..n - 1] == OutcomesUpTo(p, g, n - 1);
    }
  }

  // ----- when the mixture is the frame -----

  /** Chunks as senders cut them: all full but the last. */
  ghost predicate Sized(p: Partial) {
    forall k :: k in p.chunks ==>
      && 1 <= |p.chunks[k]| <= FRAGMENT_THRESHOLD
      && (k + 1 < p.total ==> |p.chunks[k]| == FRAGMENT_THRESHOLD)
  }

  /** Chunks of any one frame are sized so. */
  lemma CleanIsSized(f: MediaFrame, p: Partial)
    requires CleanEntry(f, p)
    ensures Sized(p)
  {
  }

  /** What is left of an earlier frame under the id agrees with g. */
  ghost predicate Harmless(p: Partial, g: MediaFrame) {
    && p.total == FragmentCount(g.payload)
    && forall k :: k in p.chunks && k < ChunksNeeded(g.payload) ==> p.chunks[k] == Chunk(g.payload, k)
  }

  lemma {:induction false} FullChunksJoined(chunks: map<nat, bytes>, n: nat)
    requires forall k: nat :: k < n ==> k in chunks && |chunks[k]| == FRAGMENT_THRESHOLD
    ensures |JoinChunks(chunks, n)| == n * FRAGMENT_THRESHOLD
  {
    if n == 0 {
    } else {
      FullChunksJoined(chunks, n - 1);
    }
  }

  lemma JoinedLength(payload: bytes, n: nat)
    requires 1 <= n <= ChunksNeeded(payload)
    ensures |Joined(payload, n - 1)| == (n - 1) * FRAGMENT_THRESHOLD
    ensures |Joined(payload, n)| == (n - 1) * FRAGMENT_THRESHOLD + |Chunk(payload, n - 1)|
  {
    JoinedIsPrefix(payload, n - 1);
  }

  /** The filled entry: place k holds what was there or, if nothing was, the frame's chunk. */
  ghost predicate Mixed(chunks: map<nat, bytes>, p: Partial, g: MediaFrame) {
    && (forall k: nat :: k < p.total ==> k in chunks)
    && (forall k: nat :: k < p.total && k in p.chunks ==> chunks[k] == p.chunks[k])
    && (forall k: nat :: k < p.total && k !in p.chunks ==> k < FragmentCount(g.payload)
                                                           && k < ChunksNeeded(g.payload)
                                                           && chunks[k] == Chunk(g.payload, k))
  }

  lemma FilledIsMixed(p: Partial, g: MediaFrame)
    requires Needs(p) <= FragmentCount(g.payload) <= ChunksNeeded(g.payload)
    ensures Mixed(WithFirst(p, g, Needs(p)).chunks, p, g)
  {
    hide Chunk, Needs;
    FullExactly(p, g, Needs(p));
    NeedsMeans(p);
  }

  lemma NeedsMeans(p: Partial)
    ensures forall k: nat :: k < p.total && k !in p.chunks ==> k < Needs(p)
  {
  }

  lemma MixedSizes(chunks: map<nat, bytes>, p: Partial, g: MediaFrame, k: nat)
    requires Mixed(chunks, p, g) && Sized(p) && k < p.total
    requires FragmentCount(g.payload) <= ChunksNeeded(g.payload)
    ensures 1 <= |chunks[k]| <= FRAGMENT_THRESHOLD
    ensures k + 1 < p.total && k + 1 < FragmentCount(g.payload) ==> |chunks[k]| == FRAGMENT_THRESHOLD
    ensures k + 1 < p.total && k < FragmentCount(g.payload) ==> |chunks[k]| >= |Chunk(g.payload, k)|
  {
  }

  /** An entry for fewer fragments gives too little. */
  lemma TooShort(chunks: map<nat, bytes>, p: Partial, g: MediaFrame)
    requires Mixed(chunks, p, g) && Sized(p) && 1 <= p.total < FragmentCount(g.payload) <= ChunksNeeded(g.payload)
    ensures |JoinChunks(chunks, p.total)| < |Joined(g.payload, FragmentCount(g.payload))|
  {
    hide Chunk, Mixed, Joined;
    var n := p.total - 1;
    MixedPlaces(chunks, p, g);
    forall k: nat | k < n ensures |chunks[k]| == FRAGMENT_THRESHOLD {
      MixedSizes(chunks, p, g, k);
    }
    FullChunksJoined(chunks, n);
    MixedSizes(chunks, p, g, n);
    JoinedLength(g.payload, FragmentCount(g.payload));
  }

  /** An entry for more fragments gives too much. */
  lemma TooLong(chunks: map<nat, bytes>, p: Partial, g: MediaFrame)
    requires Mixed(chunks, p, g) && Sized(p) && 1 <= FragmentCount(g.payload) < p.total
    requires FragmentCount(g.payload) <= ChunksNeeded(g.payload)
    ensures |JoinChunks(chunks, p.total)| > |Joined(g.payload, FragmentCount(g.payload))|
  {
    hide Chunk, Mixed, Joined;
    var n := FragmentCount(g.payload) - 1;
    MixedPlaces(chunks, p, g);
    forall k: nat | k < n ensures |chunks[k]| == FRAGMENT_THRESHOLD {
      MixedSizes(chunks, p, g, k);
    }
    FullChunksJoined(chunks, n);
    MixedSizes(chunks, p, g, n);
    MixedSizes(chunks, p, g, n + 1);
    JoinGrows(chunks, n + 2, p.total);
    JoinedLength(g.payload, n + 1);
  }

  lemma MixedPlaces(chunks: map<nat, bytes>, p: Partial, g: MediaFrame)
    requires Mixed(chunks, p, g)
    ensures forall k: nat :: k < p.total ==> k in chunks
  {
  }

  lemma {:induction false} SameChunks(chunks: map<nat, bytes>, payload: bytes, n: nat)
    requires n <= ChunksNeeded(payload)
    requires forall k: nat :: k < n ==> k in chunks && chunks[k] == Chunk(payload, k)
    ensures JoinChunks(chunks, n) == Joined(payload, n)
  {
    hide Chunk;
    if n == 0 {
    } else {
      SameChunks(chunks, payload, n - 1);
    }
  }

  lemma SplitEqual(a: bytes, x: bytes, b: bytes, y: bytes)
    requires a + x == b + y && |a| == |b|
    ensures a == b && x == y
  {
    assert a == (a + x)[..|a|] && b == (b + y)[..|b|];
    assert x == (a + x)[|a|..] && y == (b + y)[|b|..];
  }

  /** Equal payloads, cut alike, have equal chunks. */
  lemma {:induction false} EqualChunks(chunks: map<nat, bytes>, payload: bytes, n: nat, i: nat)
    requires n <= ChunksNeeded(payload) && i < n
    requires forall k: nat :: k < n ==> k in chunks
    requires forall k: nat :: k + 1 < n ==> |chunks[k]| == FRAGMENT_THRESHOLD
    requires JoinChunks(chunks, n) == Joined(payload, n)
    ensures chunks[i] == Chunk(payload, i)
  {
    hide Chunk;
    FullChunksJoined(chunks, n - 1);
    JoinedLength(payload, n);
    SplitEqual(JoinChunks(chunks, n - 1), chunks[n - 1], Joined(payload, n - 1), Chunk(payload, n - 1));
    if i < n - 1 {
      EqualChunks(chunks, payload, n - 1, i);
    }
  }

  /** What is left is harmless if and only if the mixture is the frame. */
  lemma MixtureExactly(p: Partial, g: MediaFrame)
    requires EntryOk(p) && Sized(p) && Accepted(g)
    requires Needs(p) <= FragmentCount(g.payload) <= ChunksNeeded(g.payload)
    ensures Mixture(p, g) == Carried(g) <==> Harmless(p, g)
  {
    hide Chunk, Mixed, Joined, Needs, WithFirst;
    var n := FragmentCount(g.payload);
    var chunks := WithFirst(p, g, Needs(p)).chunks;
    FilledIsMixed(p, g);
    if p.total < n {
      TooShort(chunks, p, g);
    } else if p.total > n {
      TooLong(chunks, p, g);
    } else {
      SameCount(chunks, p, g);
    }
  }

  lemma SameCount(chunks: map<nat, bytes>, p: Partial, g: MediaFrame)
    requires Mixed(chunks, p, g) && EntryOk(p) && Sized(p)
    requires p.total == FragmentCount(g.payload) <= ChunksNeeded(g.payload)
    ensures JoinChunks(chunks, p.total) == Joined(g.payload, p.total) <==> Harmless(p, g)
  {
    hide Chunk, Joined;
    var n := p.total;
    if Harmless(p, g) {
      SameChunks(chunks, g.payload, n);
    }
    if JoinChunks(chunks, n) == Joined(g.payload, n) {
      forall k: nat | k + 1 < n ensures |chunks[k]| == FRAGMENT_THRESHOLD {
        MixedSizes(chunks, p, g, k);
      }
      forall k | k in p.chunks ensures p.chunks[k] == Chunk(g.payload, k) {
        EqualChunks(chunks, g.payload, n, k);
      }
    }
  }

  // ----- one frame, any state of the table -----

  /** The run of an accepted frame: what is delivered, and the table left behind. */
  lemma {:induction false} AcceptedFrame(t: Table, g: MediaFrame, id: uint16, victims: seq<uint16>)
    requires TableOk(t) && Accepted(g)
    requires |victims| == FragmentCount(g.payload) && RealVictim(t, victims[0])
    ensures FragmentCount(g.payload) <= ChunksNeeded(g.payload)
    ensures var p := SeatedFor(t, victims[0], g, id)[id];
            var r := Run(t, FrameMessages(g, id), victims);
            && Needs(p) >= 1
            && r.table == TableAfter(t, victims[0], g, id, FragmentCount(g.payload))
            && Delivered(r.outcomes) == if Needs(p) <= FragmentCount(g.payload) then [Mixture(p, g)] else []
  {
    hide Chunk, SeatedFor, TableOk, Needs, Run, TableAfter, FrameMessages, Delivered, Mixture;
    CountBound(g.payload);
    var n := FragmentCount(g.payload);
    FrameRun(t, victims, g, id, n);
    AllMessages(g, id);
    assert victims[..n] == victims;
    SeatedIsOpen(t, victims[0], g, id);
    DeliveredUpTo(SeatedFor(t, victims[0], g, id)[id], g, n);
  }

  lemma AllMessages(g: MediaFrame, id: uint16)
    requires Accepted(g)
    ensures FrameMessages(g, id)[..FragmentCount(g.payload)] == FrameMessages(g, id)
  {
  }

  lemma FreshNeeds(g: MediaFrame, p: Partial)
    requires Accepted(g) && p == Partial(FragmentCount(g.payload), map[], NO_META)
    ensures Needs(p) == FragmentCount(g.payload) && Harmless(p, g) && Sized(p)
  {
  }

  lemma HarmlessNeeds(p: Partial, g: MediaFrame)
    requires Harmless(p, g)
    ensures Needs(p) <= FragmentCount(g.payload)
  {
  }

  /** The entry that the frame will meet. */
  lemma Met(t: Table, victim: uint16, g: MediaFrame, id: uint16)
    ensures SeatedFor(t, victim, g, id)[id]
            == if id in t then t[id] else Partial(FragmentCount(g.payload), map[], NO_META)
  {
  }

  // ----- exactly, for any rest -----

  /** The entry that a frame meets under its id, or finds opened for it. */
  ghost function MetEntry(t: Table, g: MediaFrame, id: uint16): Partial {
    if id in t then t[id] else Partial(FragmentCount(g.payload), map[], NO_META)
  }

  /** The rest, with its empty places filled by the fragments of g, is full and joins to this. */
  ghost predicate FillsTo(p: Partial, g: MediaFrame, payload: bytes) {
    && FragmentCount(g.payload) <= ChunksNeeded(g.payload)
    && var full := WithFirst(p, g, FragmentCount(g.payload));
       IsFull(full) && JoinChunks(full.chunks, full.total) == payload
  }

  lemma {:induction false} JoinAgrees(a: map<nat, bytes>, b: map<nat, bytes>, n: nat)
    requires forall k: nat :: k < n ==> k in a && k in b && a[k] == b[k]
    ensures JoinChunks(a, n) == JoinChunks(b, n)
  {
    if n == 0 {
    } else {
      JoinAgrees(a, b, n - 1);
    }
  }

  /** What is delivered early is what all fragments would give. */
  lemma MixtureFills(p: Partial, g: MediaFrame, payload: bytes)
    requires FragmentCount(g.payload) <= ChunksNeeded(g.payload)
    ensures FillsTo(p, g, payload)
            <==> Needs(p) <= FragmentCount(g.payload) && Mixture(p, g) == ParsedFrame(FirstMeta(g), payload)
  {
    hide Chunk, Needs;
    var n := FragmentCount(g.payload);
    FullExactly(p, g, n);
    if Needs(p) <= n {
      FullExactly(p, g, Needs(p));
      NeedsMeans(p);
      JoinAgrees(WithFirst(p, g, n).chunks, WithFirst(p, g, Needs(p)).chunks, p.total);
    }
  }

  /** An accepted frame sent in order to a parser in any state: what comes out. */
  lemma {:induction false} FillsExactly(t: Table, g: MediaFrame, id: uint16, victims: seq<uint16>, payload: bytes)
    requires TableOk(t) && Accepted(g)
    requires |victims| == FragmentCount(g.payload) && RealVictim(t, victims[0])
    ensures Delivered(Run(t, FrameMessages(g, id), victims).outcomes) == [ParsedFrame(FirstMeta(g), payload)]
            <==> FillsTo(MetEntry(t, g, id), g, payload)
  {
    hide Chunk, SeatedFor, Needs, Run, TableAfter, FrameMessages, Delivered, Mixture, FillsTo;
    AcceptedFrame(t, g, id, victims);
    Met(t, victims[0], g, id);
    var p := MetEntry(t, g, id);
    MixtureFills(p, g, payload);
    if Needs(p) <= FragmentCount(g.payload) {
      var frame := ParsedFrame(FirstMeta(g), payload);
      assert [Mixture(p, g)] == [frame] <==> Mixture(p, g) == frame;
    }
  }

  /** A rest that agrees is enough, however its chunks are cut. */
  lemma HarmlessFills(p: Partial, g: MediaFrame)
    requires EntryOk(p) && Accepted(g) && Harmless(p, g)
    ensures FragmentCount(g.payload) <= ChunksNeeded(g.payload)
    ensures FillsTo(p, g, Joined(g.payload, FragmentCount(g.payload)))
  {
    hide Chunk, Joined;
    CountBound(g.payload);
    HarmlessNeeds(p, g);
    var n := FragmentCount(g.payload);
    FullExactly(p, g, n);
    SameChunks(WithFirst(p, g, n).chunks, g.payload, n);
  }

  /** For rests cut as senders cut, it is also necessary. */
  lemma SizedFills(p: Partial, g: MediaFrame)
    requires EntryOk(p) && Sized(p) && Accepted(g)
    ensures FragmentCount(g.payload) <= ChunksNeeded(g.payload)
    ensures FillsTo(p, g, Joined(g.payload, FragmentCount(g.payload))) <==> Harmless(p, g)
    ensures FillsTo(p, g, g.payload) <==> Deliverable(g) && Harmless(p, g)
  {
    hide Chunk, Joined, Needs, Mixture, FillsTo, Harmless, Sized, EntryOk;
    CountBound(g.payload);
    CarriedIsExpected(g);
    MixtureFills(p, g, Joined(g.payload, FragmentCount(g.payload)));
    MixtureFills(p, g, g.payload);
    if Needs(p) <= FragmentCount(g.payload) {
      MixtureExactly(p, g);
      MixtureIsSmall(p, g);
    } else if Harmless(p, g) {
      HarmlessNeeds(p, g);
    }
  }

  /** Whether an accepted frame comes out as it is carried, when the table holds nothing under its
      id or a rest cut as senders cut: if and only if the rest agrees with it. */
  lemma {:induction false} CarriedExactly(t: Table, g: MediaFrame, id: uint16, victims: seq<uint16>)
    requires TableOk(t) && Accepted(g) && (id in t ==> Sized(t[id]))
    requires |victims| == FragmentCount(g.payload) && RealVictim(t, victims[0])
    ensures Delivered(Run(t, FrameMessages(g, id), victims).outcomes) == [Carried(g)]
            <==> (id in t ==> Harmless(t[id], g))
  {
    hide Chunk, Run, FrameMessages, Delivered, Harmless, Sized, FillsTo, Joined, EntryOk;
    CountBound(g.payload);
    FillsExactly(t, g, id, victims, Joined(g.payload, FragmentCount(g.payload)));
    MetIsOk(t, g, id);
    var p := MetEntry(t, g, id);
    if id !in t {
      FreshNeeds(g, p);
    }
    SizedFills(p, g);
  }

  lemma MetIsOk(t: Table, g: MediaFrame, id: uint16)
    requires TableOk(t) && Accepted(g)
    ensures EntryOk(MetEntry(t, g, id))
  {
    SeatedIsOpen(map[], 0, g, id);
    Met(map[], 0, g, id);
  }

  /** With nothing under its id, in any table however full: the frame is delivered and leaves the
      table as it was, less the one entry that had to make room. */
  lemma {:induction false} FreshFrame(t: Table, g: MediaFrame, id: uint16, victims: seq<uint16>)
    requires TableOk(t) && Accepted(g) && id !in t
    requires |victims| == FragmentCount(g.payload) && RealVictim(t, victims[0])
    ensures var r := Run(t, FrameMessages(g, id), victims);
            r.table == MakeRoom(t, victims[0]) && Delivered(r.outcomes) == [Carried(g)]
  {
    hide Chunk, Needs, Run, FrameMessages, Delivered, Mixture, Harmless, Sized, Carried, EntryOk;
    AcceptedFrame(t, g, id, victims);
    CarriedExactly(t, g, id, victims);
    var empty := Partial(FragmentCount(g.payload), map[], NO_META);
    FreshNeeds(g, empty);
    Met(t, victims[0], g, id);
    assert id !in MakeRoom(t, victims[0]);
    assert MakeRoom(t, victims[0])[id := empty] - {id} == MakeRoom(t, victims[0]);
  }

  /** A harmless rest that holds the last chunk fills the entry early: what comes behind opens a
      new entry under the id, and so the next frame with that id meets a rest again. */
  lemma {:induction false} RestIsRenewed(t: Table, g: MediaFrame, id: uint16, victims: seq<uint16>)
    requires TableOk(t) && Accepted(g) && id in t && Sized(t[id]) && Harmless(t[id], g)
    requires |victims| == FragmentCount(g.payload) && RealVictim(t, victims[0])
    ensures FragmentCount(g.payload) <= ChunksNeeded(g.payload)
    ensures var n, c := FragmentCount(g.payload), Needs(t[id]);
            && c <= n
            && (c < n <==> n - 1 in t[id].chunks)
            && Run(t, FrameMessages(g, id), victims).table
               == if c == n then t - {id} else (t - {id})[id := Leftover(g, c, n)]
  {
    hide Chunk, Run, FrameMessages, Delivered, Mixture, Leftover, WithFirst;
    AcceptedFrame(t, g, id, victims);
    Met(t, victims[0], g, id);
    HarmlessNeeds(t[id], g);
  }

  /** Frames that are not filed leave the table alone. */
  lemma {:induction false} UnfiledFrame(t: Table, g: MediaFrame, id: uint16, victims: seq<uint16>)
    requires !Accepted(g) && |victims| == MessageCount(g)
    ensures var r := Run(t, FrameMessages(g, id), victims);
            r.table == t && Delivered(r.outcomes) == if Fragmented(g.payload) then [] else [Expected(g)]
  {
    hide Run, Delivered;
    if Fragmented(g.payload) {
      RejectedMessages(t, FrameMessages(g, id), victims);
    } else {
      assert FrameMessages(g, id) == [Whole(Expected(g))];
      RunOne(t, Whole(Expected(g)), victims);
      DeliveredOne(Complete(Expected(g)));
    }
  }

  lemma DeliveredOne(o: Outcome)
    ensures Delivered([o]) == if o.Complete? then [o.frame] else []
  {
    assert [o][..0] == [];
  }

  lemma {:induction false} RejectedMessages(t: Table, ms: seq<Message>, victims: seq<uint16>)
    requires |ms| == |victims| && forall i :: 0 <= i < |ms| ==> ms[i] == Rejected
    ensures Run(t, ms, victims).table == t && Delivered(Run(t, ms, victims).outcomes) == []
  {
    if ms == [] {
    } else {
      RejectedMessages(t, ms[..|ms| - 1], victims[..|ms| - 1]);
    }
  }

  /** The frame a client gets of one sent in order, if it gets one. */
  function Arriving(g: MediaFrame): (es: seq<ParsedFrame>)
    ensures |es| <= 1
  {
    if !Fragmented(g.payload) || Accepted(g) then [Carried(g)] else []
  }

  lemma ArrivingExactly(g: MediaFrame)
    ensures Arriving(g) == [Expected(g)] <==> Deliverable(g)
  {
    CountBound(g.payload);
    CarriedIsExpected(g);
    assert Arriving(g) == [Expected(g)] ==> Arriving(g)[0] == Expected(g);
  }

  lemma {:induction false} JoinedAtMost(chunks: map<nat, bytes>, n: nat)
    requires forall k: nat :: k < n ==> k in chunks && |chunks[k]| <= FRAGMENT_THRESHOLD
    ensures |JoinChunks(chunks, n)| <= n * FRAGMENT_THRESHOLD
  {
    if n == 0 {
    } else {
      JoinedAtMost(chunks, n - 1);
    }
  }

  /** No entry holds more than 4 MiB. */
  lemma MixtureIsSmall(p: Partial, g: MediaFrame)
    requires EntryOk(p) && Sized(p) && Needs(p) <= FragmentCount(g.payload) <= ChunksNeeded(g.payload)
    ensures |Mixture(p, g).payload| <= MAX_PAYLOAD
  {
    hide Chunk, Mixed, Needs, WithFirst;
    var chunks := WithFirst(p, g, Needs(p)).chunks;
    FilledIsMixed(p, g);
    MixedPlaces(chunks, p, g);
    forall k: nat | k < p.total ensures |chunks[k]| <= FRAGMENT_THRESHOLD {
      MixedSizes(chunks, p, g, k);
    }
    JoinedAtMost(chunks, p.total);
  }

  /** A frame comes out as sent: it is sent whole or, its fragments being filed, they and the rest
      they meet join to its payload. */
  ghost predicate ComesOut(t: Table, g: MediaFrame, id: uint16) {
    !Fragmented(g.payload) || (Accepted(g) && FillsTo(MetEntry(t, g, id), g, g.payload))
  }

  /** Sent in order, without loss, to a parser in any state: exactly when a frame reaches the client
      intact. */
  lemma {:induction false} DeliveredExactly(t: Table, g: MediaFrame, id: uint16, victims: seq<uint16>)
    requires TableOk(t)
    requires |victims| == MessageCount(g) && (victims != [] ==> RealVictim(t, victims[0]))
    ensures Delivered(Run(t, FrameMessages(g, id), victims).outcomes) == [Expected(g)] <==> ComesOut(t, g, id)
  {
    hide Run, FrameMessages, Delivered, FillsTo, TableOk;
    if Accepted(g) {
      FillsExactly(t, g, id, victims, g.payload);
    } else {
      UnfiledFrame(t, g, id, victims);
    }
  }

  /** What that means where the table holds nothing under the id, or a rest cut as senders cut: the
      payload is at most 4 MiB and, in case it is fragmented, a rest agrees with it. */
  lemma ComesOutExactly(t: Table, g: MediaFrame, id: uint16)
    requires TableOk(t) && (id in t ==> Sized(t[id]))
    ensures ComesOut(t, g, id) <==> Deliverable(g) && (Fragmented(g.payload) && id in t ==> Harmless(t[id], g))
  {
    hide FillsTo, Harmless, Sized, Chunk, EntryOk;
    NotFragmentedIsDeliverable(g);
    if Accepted(g) {
      MetIsOk(t, g, id);
      if id !in t {
        FreshNeeds(g, MetEntry(t, g, id));
      }
      SizedFills(MetEntry(t, g, id), g);
    }
  }

  /** Enough for any rest whatever: that it agrees. */
  lemma HarmlessComesOut(t: Table, g: MediaFrame, id: uint16)
    requires TableOk(t) && Deliverable(g) && (Fragmented(g.payload) && id in t ==> Harmless(t[id], g))
    ensures ComesOut(t, g, id)
  {
    hide FillsTo, Harmless, Chunk, EntryOk, Joined;
    NotFragmentedIsDeliverable(g);
    if Accepted(g) {
      MetIsOk(t, g, id);
      if id !in t {
        FreshNeeds(g, MetEntry(t, g, id));
      }
      HarmlessFills(MetEntry(t, g, id), g);
      FragmentsCarryPayload(g.payload);
    }
  }

  lemma NotFragmentedIsDeliverable(g: MediaFrame)
    ensures !Fragmented(g.payload) ==> Deliverable(g)
    ensures Deliverable(g) && Fragmented(g.payload) ==> Accepted(g)
  {
  }

  // ----- what one frame leaves to the next -----

  lemma {:induction false} TableStaysOk(t: Table, g: MediaFrame, id: uint16, victims: seq<uint16>)
    requires TableOk(t) && |victims| == MessageCount(g) && (victims != [] ==> RealVictim(t, victims[0]))
    ensures TableOk(Run(t, FrameMessages(g, id), victims).table)
    ensures |Delivered(Run(t, FrameMessages(g, id), victims).outcomes)| <= 1
  {
    hide Run, FrameMessages, Delivered, TableAfter, TableOk, Mixture;
    if Accepted(g) {
      AcceptedFrame(t, g, id, victims);
      AfterIsOk(t, victims[0], g, id, FragmentCount(g.payload));
    } else {
      UnfiledFrame(t, g, id, victims);
    }
  }

  lemma AfterIsOk(t: Table, victim: uint16, g: MediaFrame, id: uint16, n: nat)
    requires TableOk(t) && RealVictim(t, victim) && Accepted(g)
    requires n <= FragmentCount(g.payload) <= ChunksNeeded(g.payload)
    ensures TableOk(TableAfter(t, victim, g, id, n))
  {
    hide Chunk, SeatedFor, Needs, WithFirst, Leftover, EntryOk, MakeRoom;
    var seated := SeatedFor(t, victim, g, id);
    var p := seated[id];
    SeatKeepsTable(t, victim, FragmentPart(id, 0, FragmentCount(g.payload)));
    SeatedIsOpen(t, victim, g, id);
    SeatedIsSeat(t, victim, g, id);
    SizeWithout(seated, id);
    if 0 < n < Needs(p) {
      GrowingIsOk(p, g, n);
      assert seated[id := WithFirst(p, g, n)].Keys == seated.Keys;
    } else if n > Needs(p) {
      LeftoverIsOk(g, Needs(p), n);
      assert (seated - {id})[id := Leftover(g, Needs(p), n)].Keys == seated.Keys;
    }
  }

  lemma SeatedIsSeat(t: Table, victim: uint16, g: MediaFrame, id: uint16)
    ensures SeatedFor(t, victim, g, id) == Seat(t, victim, FragmentPart(id, 0, FragmentCount(g.payload)))
  {
  }

  lemma GrowingIsOk(p: Partial, g: MediaFrame, n: nat)
    requires EntryOk(p) && n < Needs(p) && n <= ChunksNeeded(g.payload)
    ensures EntryOk(WithFirst(p, g, n))
  {
    hide Chunk, Needs;
    FullExactly(p, g, n);
  }

  lemma LeftoverIsOk(g: MediaFrame, c: nat, n: nat)
    requires Accepted(g) && 1 <= c <= n <= FragmentCount(g.payload) <= ChunksNeeded(g.payload)
    ensures EntryOk(Leftover(g, c, n)) && CleanEntry(g, Leftover(g, c, n))
  {
    hide Chunk;
    assert 0 !in Leftover(g, c, n).chunks;
  }

  /** Every entry holds chunks of one frame only. */
  ghost predicate AllClean(t: Table) {
    forall id :: id in t ==> exists f :: CleanEntry(f, t[id])
  }

  /** A frame that comes out as sent leaves no entry mixed. */
  lemma {:induction false} GoodKeepsClean(t: Table, g: MediaFrame, id: uint16, victims: seq<uint16>)
    requires TableOk(t) && AllClean(t) && ComesOut(t, g, id)
    requires |victims| == MessageCount(g) && (victims != [] ==> RealVictim(t, victims[0]))
    ensures AllClean(Run(t, FrameMessages(g, id), victims).table)
  {
    hide Run, FrameMessages, Delivered, TableAfter, Mixture, Harmless, CleanEntry, EntryOk, Sized, ComesOut;
    NotFragmentedIsDeliverable(g);
    if id in t {
      var f :| CleanEntry(f, t[id]);
      CleanIsSized(f, t[id]);
    }
    ComesOutExactly(t, g, id);
    if Accepted(g) {
      AcceptedFrame(t, g, id, victims);
      Met(t, victims[0], g, id);
      var p := SeatedFor(t, victims[0], g, id)[id];
      if id !in t {
        FreshNeeds(g, p);
      }
      HarmlessNeeds(p, g);
      CleanAfter(t, victims[0], g, id, FragmentCount(g.payload));
    } else {
      UnfiledFrame(t, g, id, victims);
    }
  }

  lemma CleanAfter(t: Table, victim: uint16, g: MediaFrame, id: uint16, n: nat)
    requires AllClean(t) && Accepted(g) && n <= FragmentCount(g.payload) <= ChunksNeeded(g.payload)
    requires 1 <= Needs(SeatedFor(t, victim, g, id)[id]) <= n
    ensures AllClean(TableAfter(t, victim, g, id, n))
  {
    hide Chunk, Needs, Leftover, CleanEntry;
    var seated := SeatedFor(t, victim, g, id);
    var c := Needs(seated[id]);
    LeftoverIsOk(g, c, n);
    var after := TableAfter(t, victim, g, id, n);
    forall i | i in after ensures exists f :: CleanEntry(f, after[i]) {
      if i != id {
        assert i in t && after[i] == t[i];
      } else {
        assert CleanEntry(g, after[i]);
      }
    }
  }

  /** An input: of a frame of two fragments only the second arrives, and later a frame g is sent
      under the same id. It comes out intact only if it too has two fragments and the same second
      chunk; otherwise it is mixed with f's or cut short. */
  lemma StaleFragmentMixes(f: MediaFrame, g: MediaFrame, id: uint16, victims: seq<uint16>)
    requires FRAGMENT_THRESHOLD < |f.payload| <= 2 * FRAGMENT_THRESHOLD
    requires Fragmented(g.payload) && Deliverable(g)
    requires |victims| == 1 + MessageCount(g)
    ensures var out := Delivered(Run(map[], [View(f, Packet(id, 1))] + FrameMessages(g, id), victims).outcomes);
            out == [Expected(g)] <==> ChunksNeeded(g.payload) == 2 && Chunk(g.payload, 1) == Chunk(f.payload, 1)
  {
    hide Run, Delivered, Chunk, FrameMessages, CleanEntry, Accept, Harmless, ComesOut, Sized;
    var rest := Partial(2, map[1 := Chunk(f.payload, 1)], NO_META);
    ViewOfSecond(f, id);
    OnlySecond(id, LaterMeta(f), Chunk(f.payload, 1), victims[0]);
    RunOne(map[], View(f, Packet(id, 1)), victims[..1]);
    DeliveredOne(Pending);
    RunConcat(map[], [View(f, Packet(id, 1))], FrameMessages(g, id), victims[..1], victims[1..]);
    assert victims[..1] + victims[1..] == victims;
    DeliveredConcat([Pending], Run(map[id := rest], FrameMessages(g, id), victims[1..]).outcomes);
    assert [] + Delivered(Run(map[id := rest], FrameMessages(g, id), victims[1..]).outcomes)
        == Delivered(Run(map[id := rest], FrameMessages(g, id), victims[1..]).outcomes);
    RestIsClean(f, rest);
    OneEntryOk(id, rest);
    DeliveredExactly(map[id := rest], g, id, victims[1..]);
    CleanIsSized(f, rest);
    ComesOutExactly(map[id := rest], g, id);
    RestIsHarmless(f, g, rest);
  }

  lemma ViewOfSecond(f: MediaFrame, id: uint16)
    requires FRAGMENT_THRESHOLD < |f.payload| <= 2 * FRAGMENT_THRESHOLD
    ensures ChunksNeeded(f.payload) == 2 == MessageCount(f)
    ensures View(f, Packet(id, 1)) == Fragment(FragmentPart(id, 1, 2), LaterMeta(f), Chunk(f.payload, 1))
  {
  }

  lemma OnlySecond(id: uint16, meta: Meta, chunk: bytes, victim: uint16)
    ensures Accept(map[], victim, FragmentPart(id, 1, 2), meta, chunk)
            == Reply(map[id := Partial(2, map[1 := chunk], NO_META)], Pending)
  {
    var rest := Partial(2, map[1 := chunk], NO_META);
    assert Seat(map[], victim, FragmentPart(id, 1, 2)) == map[id := Partial(2, map[], NO_META)];
    assert Absorb(Partial(2, map[], NO_META), 1, meta, chunk) == rest;
    assert 0 !in rest.chunks;
  }

  lemma RestIsClean(f: MediaFrame, rest: Partial)
    requires FRAGMENT_THRESHOLD < |f.payload| <= 2 * FRAGMENT_THRESHOLD
    requires rest == Partial(2, map[1 := Chunk(f.payload, 1)], NO_META)
    ensures CleanEntry(f, rest)
  {
  }

  lemma OneEntryOk(id: uint16, rest: Partial)
    requires rest.total == 2 && rest.chunks.Keys == {1}
    ensures TableOk(map[id := rest])
  {
    assert 0 !in rest.chunks;
  }

  lemma RestIsHarmless(f: MediaFrame, g: MediaFrame, rest: Partial)
    requires FRAGMENT_THRESHOLD < |f.payload| <= 2 * FRAGMENT_THRESHOLD
    requires rest == Partial(2, map[1 := Chunk(f.payload, 1)], NO_META)
    requires Fragmented(g.payload) && Deliverable(g)
    ensures Harmless(rest, g) <==> ChunksNeeded(g.payload) == 2 && Chunk(g.payload, 1) == Chunk(f.payload, 1)
  {
    CountsFit(g);
    assert 1 in rest.chunks;
  }

  // ----- rests of more than one frame -----

  /** How they arise: of a frame of four fragments only the last has arrived; a whole frame of two
      under the same id is swallowed by its entry. What is left is no rest of any one frame. */
  lemma MixedRestArises(f: MediaFrame, g: MediaFrame, id: uint16, victims: seq<uint16>)
    requires ChunksNeeded(f.payload) == 4 && FRAGMENT_THRESHOLD < |g.payload| < 2 * FRAGMENT_THRESHOLD
    requires |victims| == 2
    ensures var rest := Partial(4, map[3 := Chunk(f.payload, 3)], NO_META);
            var r := Run(map[id := rest], FrameMessages(g, id), victims);
            && CleanEntry(f, rest)
            && Delivered(r.outcomes) == [] && r.table.Keys == {id}
            && r.table[id].chunks == map[0 := Chunk(g.payload, 0), 1 := Chunk(g.payload, 1), 3 := Chunk(f.payload, 3)]
            && !Sized(r.table[id]) && forall h :: !CleanEntry(h, r.table[id])
  {
    hide Run, FrameMessages, Delivered, Chunk, CleanEntry, Sized, Mixture, Needs, EntryOk, IsFull;
    var rest := Partial(4, map[3 := Chunk(f.payload, 3)], NO_META);
    LastOfFour(f, rest);
    TwoOfTwo(g);
    assert map[id := rest].Keys == {id};
    AcceptedFrame(map[id := rest], g, id, victims);
    Met(map[id := rest], victims[0], g, id);
    assert SeatedFor(map[id := rest], victims[0], g, id) == map[id := rest];
    Swallowed(f, g, rest);
    forall h ensures !CleanEntry(h, WithFirst(rest, g, 2)) {
      if CleanEntry(h, WithFirst(rest, g, 2)) {
        CleanIsSized(h, WithFirst(rest, g, 2));
      }
    }
  }

  lemma LastOfFour(f: MediaFrame, rest: Partial)
    requires ChunksNeeded(f.payload) == 4 && rest == Partial(4, map[3 := Chunk(f.payload, 3)], NO_META)
    ensures CleanEntry(f, rest) && EntryOk(rest) && Needs(rest) == 3
  {
    hide Chunk;
    assert 0 !in rest.chunks && 2 !in rest.chunks && 3 in rest.chunks;
    assert !IsFull(rest);
    assert NeedsUpTo(rest, 3) == 3;
  }

  lemma TwoOfTwo(g: MediaFrame)
    requires FRAGMENT_THRESHOLD < |g.payload| < 2 * FRAGMENT_THRESHOLD
    ensures Accepted(g) && FragmentCount(g.payload) == 2 == ChunksNeeded(g.payload)
    ensures |Chunk(g.payload, 1)| < FRAGMENT_THRESHOLD
  {
  }

  lemma Swallowed(f: MediaFrame, g: MediaFrame, rest: Partial)
    requires ChunksNeeded(f.payload) == 4 && rest == Partial(4, map[3 := Chunk(f.payload, 3)], NO_META)
    requires ChunksNeeded(g.payload) == 2 && |Chunk(g.payload, 1)| < FRAGMENT_THRESHOLD
    ensures WithFirst(rest, g, 2).chunks
            == map[0 := Chunk(g.payload, 0), 1 := Chunk(g.payload, 1), 3 := Chunk(f.payload, 3)]
    ensures !Sized(WithFirst(rest, g, 2))
  {
    hide Chunk;
    assert 1 in WithFirst(rest, g, 2).chunks;
  }

  function Zeros(n: nat): (z: bytes)
    ensures |z| == n
  {
    seq(n, _ => 0)
  }

  lemma ZerosConcat(a: nat, b: nat)
    ensures Zeros(a) + Zeros(b) == Zeros(a + b)
  {
  }

  /** Such a rest can do no harm although it does not agree: a frame of zeros fills it up to its own
      payload, cut in other places. */
  lemma ZerosFillDisagreeing(meta: Meta, h: MediaFrame)
    requires h.payload == Zeros(49252)
    ensures var rest := Partial(4, map[0 := Zeros(16384), 1 := Zeros(100), 3 := Zeros(16384)], meta);
            EntryOk(rest) && FillsTo(rest, h, h.payload) && !Harmless(rest, h)
  {
    hide Chunk, Zeros, WithFirst;
    var rest := Partial(4, map[0 := Zeros(16384), 1 := Zeros(100), 3 := Zeros(16384)], meta);
    FourZeroChunks(h);
    FilledWithZeros(rest, h);
    assert 2 !in rest.chunks && 1 in rest.chunks;
    FourZeros(WithFirst(rest, h, 4).chunks);
  }

  lemma FilledWithZeros(rest: Partial, h: MediaFrame)
    requires rest.total == 4 && rest.chunks.Keys == {0, 1, 3} && 4 <= ChunksNeeded(h.payload)
    ensures var full := WithFirst(rest, h, 4);
            && full.total == 4 && full.chunks.Keys == {0, 1, 2, 3} && full.chunks[2] == Chunk(h.payload, 2)
            && full.chunks[0] == rest.chunks[0] && full.chunks[1] == rest.chunks[1] && full.chunks[3] == rest.chunks[3]
  {
    hide Chunk;
  }

  lemma FourZeros(chunks: map<nat, bytes>)
    requires chunks.Keys == {0, 1, 2, 3}
    requires chunks[0] == chunks[2] == chunks[3] == Zeros(16384) && chunks[1] == Zeros(100)
    ensures JoinChunks(chunks, 4) == Zeros(49252)
  {
    hide Zeros;
    JoinFour(chunks);
    ZerosConcat(0, 16384);
    ZerosConcat(16384, 100);
    ZerosConcat(16484, 16384);
    ZerosConcat(32868, 16384);
  }

  lemma FourZeroChunks(h: MediaFrame)
    requires h.payload == Zeros(49252)
    ensures FragmentCount(h.payload) == 4 == ChunksNeeded(h.payload)
    ensures Chunk(h.payload, 1) == Zeros(16384) && Chunk(h.payload, 2) == Zeros(16384)
  {
  }

  lemma JoinFour(chunks: map<nat, bytes>)
    requires chunks.Keys == {0, 1, 2, 3}
    ensures JoinChunks(chunks, 4) == Zeros(0) + chunks[0] + chunks[1] + chunks[2] + chunks[3]
  {
    assert Zeros(0) == [];
    assert JoinChunks(chunks, 1) == [] + chunks[0];
    assert JoinChunks(chunks, 2) == [] + chunks[0] + chunks[1];
    assert JoinChunks(chunks, 3) == [] + chunks[0] + chunks[1] + chunks[2];
  }
}
